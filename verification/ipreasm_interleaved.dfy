/** Fragments of one packet among packets of every other kind. */
module ReasmInterleaved {
  import opened Wrappers
  import opened Words
  import opened ReasmSpec
  import opened ReasmDelivery
  import opened ReasmRun
  import opened ReasmEntry
  import opened Arrivals

  /** The table after some packets, and what the last of them completed. */
  function Run(t: Table, ttl: int, es: seq<Event>): (r: (Table, Option<Asm>))
    requires HasHeads(t.recs)
    ensures HasHeads(r.0.recs)
  {
    if es == [] then (t, None)
    else
      var m := |es| - 1;
      Step(Run(t, ttl, es[..m]).0, ttl, es[m])
  }

  predicate Concerns(e: Event, key: Key) {
    e.input.Some? && e.input.value.key == key
  }

  /** Time does not run backwards, and list heads and last fragments are what the parser makes them. */
  ghost predicate Orderly(es: seq<Event>, start: int) {
    && (forall i :: 0 <= i < |es| ==> start <= es[i].now)
    && (forall i, j :: 0 <= i < j < |es| ==> es[i].now <= es[j].now)
    && (forall i :: 0 <= i < |es| && es[i].input.Some? ==> Parsed(es[i].input.value))
  }

  predicate Parsed(x: Input) {
    IsHead(x.head) && (x.last ==> x.frag.End() > 0)
  }

  /** In every run the table stays well formed. */
  lemma {:induction false} RunKeeps(t: Table, ttl: int, es: seq<Event>, start: int)
    requires WellFormed(t, start + ttl) && HasHeads(t.recs) && Orderly(es, start)
    ensures WellFormed(Run(t, ttl, es).0, (if es == [] then start else es[|es| - 1].now) + ttl)
  {
    hide WellFormed, Step;
    if es != [] {
      var m := |es| - 1;
      RunKeeps(t, ttl, es[..m], start);
      StepKeeps(Run(t, ttl, es[..m]).0, ttl, es[m], (if m == 0 then start else es[m - 1].now) + ttl);
    }
  }

  /** The fragments with the key, in the order in which they come, are the pieces that `order` names. */
  ghost predicate Script(es: seq<Event>, key: Key, fs: seq<Frag>, order: seq<nat>) {
    if es == [] then order == []
    else
      var m := |es| - 1;
      if Concerns(es[m], key) then
        && order != []
        && IsPiece(es[m].input.value, fs, order[|order| - 1])
        && Script(es[..m], key, fs, order[..|order| - 1])
      else Script(es[..m], key, fs, order)
  }

  predicate IsPiece(x: Input, fs: seq<Frag>, i: nat) {
    i < |fs| && x.frag == fs[i] && x.last == (i == |fs| - 1)
  }

  /** When the first piece came. */
  ghost function Since(es: seq<Event>, key: Key): Option<int> {
    if es == [] then None
    else
      var m := |es| - 1;
      if Since(es[..m], key).Some? || !Concerns(es[m], key) then Since(es[..m], key) else Some(es[m].now)
  }

  /** When the entry that the first piece made will be over. */
  ghost function Until(es: seq<Event>, key: Key, ttl: int): int {
    if Since(es, key).Some? then Since(es, key).value + ttl else 0
  }

  /** Every piece came, and none of them twice. */
  ghost predicate AllOnce(order: seq<nat>, n: nat) {
    Distinct(order, n) && |order| == n
  }

  /** Once the packet has been given out nothing comes with its key; that would be another packet. */
  ghost predicate OnePacket(order: seq<nat>, n: nat) {
    |order| > n ==> !Distinct(order[..n], n)
  }

  /** From the first to the last of the `n` pieces no packet comes later than `ttl` after the first.
  What comes after the last piece may come at any time. */
  ghost predicate InTime(es: seq<Event>, key: Key, n: nat, order: seq<nat>, ttl: int) {
    if es == [] then true
    else
      var m := |es| - 1;
      if Concerns(es[m], key) then
        && order != [] && InTime(es[..m], key, n, order[..|order| - 1], ttl)
        && (Since(es[..m], key).Some? ==> es[m].now <= Until(es[..m], key, ttl))
      else
        && InTime(es[..m], key, n, order, ttl)
        && (Since(es[..m], key).Some? && !AllOnce(order, n) ==> es[m].now <= Until(es[..m], key, ttl))
  }

  lemma {:induction false} SinceFirst(es: seq<Event>, key: Key, fs: seq<Frag>, order: seq<nat>)
    requires Script(es, key, fs, order)
    ensures Since(es, key) == None <==> order == []
  {
    if es != [] {
      var m := |es| - 1;
      SinceFirst(es[..m], key, fs, if Concerns(es[m], key) then order[..|order| - 1] else order);
    }
  }

  /** What the table has for the key: nothing before the first piece and after the last; an entry
  with the pieces that have come, if none has come twice; otherwise one that takes no more. The
  entry will not time out before `until`. */
  ghost predicate Tracks(r: Option<Rec>, key: Key, fs: seq<Frag>, total: nat, order: seq<nat>, until: int) {
    if order == [] || AllOnce(order, |fs|) then r == None
    else
      && r.Some? && r.value.key == key && r.value.timeout == until
      && if Distinct(order, |fs|) then r.value.active && Holds(r.value.asm, fs, total, order)
         else !r.value.active && r.value.asm.frags != []
  }

  lemma DistinctPrefix(order: seq<nat>, i: nat, n: nat)
    requires i < n
    ensures Distinct(order + [i], n) <==> Distinct(order, n) && i !in order
  {
    var all := order + [i];
    if Distinct(all, n) {
      forall k | 0 <= k < |order|
        ensures order[k] < n && order[k] != i
      {
        assert all[k] < n && all[k] != all[|order|];
      }
      forall k, l | 0 <= k < l < |order|
        ensures order[k] != order[l]
      {
        assert all[k] != all[l];
      }
    }
  }

  /** Offering a piece that has not come before. */
  lemma OfferNew(g: Rec, x: Input, fs: seq<Frag>, total: nat, order: seq<nat>, i: nat)
    requires Cut(fs, total) && IsPiece(x, fs, i) && i !in order && Distinct(order + [i], |fs|)
    requires g.active && g.asm.frags != [] && Holds(g.asm, fs, total, order)
    ensures var (r', out) := OfferOne(g, x.frag, x.last);
            if |order| + 1 == |fs| then r' == None && out.Some? && Complete(out.value) && Holds(out.value, fs, total, order + [i])
            else out == None && r'.Some? && r'.value.key == g.key && r'.value.timeout == g.timeout && r'.value.active
                 && Holds(r'.value.asm, fs, total, order + [i])
  {
    hide Holds, Cut, Complete, AddFragment;
    var all := order + [i];
    AllCame(all, |fs|);
    Accepts(g.asm, fs, total, order, i);
    AcceptedHolds(g.asm, fs, total, order, i);
    CompleteIffAll(AddFragment(g.asm, x.frag, x.last).1, fs, total, all);
  }

  /** Offering a piece again: the entry is given up. */
  lemma OfferAgain(g: Rec, x: Input, fs: seq<Frag>, total: nat, order: seq<nat>, i: nat)
    requires Cut(fs, total) && IsPiece(x, fs, i) && i in order
    requires g.active && g.asm.frags != [] && Holds(g.asm, fs, total, order)
    ensures var (r', out) := OfferOne(g, x.frag, x.last);
            out == None && r'.Some? && r'.value.key == g.key && r'.value.timeout == g.timeout && !r'.value.active
            && r'.value.asm.frags != []
  {
    Refuses(g.asm, fs, total, order, i);
    hide Holds, Cut, Complete;
  }

  /** What becomes of the entry with the next piece. */
  lemma OfferPiece(r: Option<Rec>, x: Input, timeout: int, fs: seq<Frag>, total: nat, order: seq<nat>, i: nat, until: int)
    requires Cut(fs, total) && IsPiece(x, fs, i) && IsHead(x.head)
    requires Tracks(r, x.key, fs, total, order, until) && !AllOnce(order, |fs|)
    requires r.Some? ==> r.value.asm.frags != []
    ensures var (r', out) := OfferOne(Given(r, x, timeout), x.frag, x.last);
            && Tracks(r', x.key, fs, total, order + [i], if order == [] then timeout else until)
            && (if AllOnce(order + [i], |fs|) then out.Some? && Complete(out.value) && Holds(out.value, fs, total, order + [i])
                else out == None)
  {
    hide Holds, Cut, Complete, OfferOne, Distinct;
    DistinctPrefix(order, i, |fs|);
    NoneTwice(|fs|);
    var g := Given(r, x, timeout);
    if order == [] {
      FreshHolds(x.head, fs, total);
    }
    if Distinct(order, |fs|) {
      if i in order {
        OfferAgain(g, x, fs, total, order, i);
      } else {
        OfferNew(g, x, fs, total, order, i);
      }
    } else {
      GivenUp(g, x);
    }
  }

  lemma NoneTwice(n: nat)
    ensures Distinct([], n)
  {
  }

  lemma GivenUp(g: Rec, x: Input)
    requires !g.active && g.asm.frags != []
    ensures OfferOne(g, x.frag, x.last) == (Some(g), None)
  {
  }

  /** A packet that is no piece leaves the pieces alone. */
  lemma OtherPacket(t: Table, ttl: int, e: Event, latest: int, key: Key, fs: seq<Frag>, total: nat, order: seq<nat>, until: int)
    requires WellFormed(t, latest) && HasHeads(t.recs) && latest <= e.now + ttl
    requires e.input.Some? ==> Parsed(e.input.value)
    requires Tracks(Lookup(t.recs, key), key, fs, total, order, until) && !Concerns(e, key)
    requires order != [] && !AllOnce(order, |fs|) ==> e.now <= until
    ensures Tracks(Lookup(Step(t, ttl, e).0.recs, key), key, fs, total, order, until)
  {
    StepLookup(t, ttl, e, latest, key);
    hide WellFormed, HasHeads, Step, Lookup, Holds, OfferOne, Given, Distinct;
  }

  /** A packet that comes after the time of an entry: nothing of it is left, whatever had come. */
  lemma ForgottenLater(t: Table, ttl: int, e: Event, latest: int, key: Key)
    requires WellFormed(t, latest) && HasHeads(t.recs) && latest <= e.now + ttl
    requires e.input.Some? ==> Parsed(e.input.value)
    requires Lookup(t.recs, key).Some? ==> Lookup(t.recs, key).value.timeout < e.now
    requires !Concerns(e, key)
    ensures Lookup(Step(t, ttl, e).0.recs, key) == None
  {
    StepLookup(t, ttl, e, latest, key);
    hide WellFormed, HasHeads, Step, Lookup, OfferOne, Given;
  }

  /** One more piece. */
  lemma NextPiece(t: Table, ttl: int, e: Event, latest: int, key: Key, fs: seq<Frag>, total: nat, order: seq<nat>, until: int, i: nat)
    requires WellFormed(t, latest) && HasHeads(t.recs) && latest <= e.now + ttl
    requires Cut(fs, total) && Tracks(Lookup(t.recs, key), key, fs, total, order, until)
    requires order != [] ==> e.now <= until
    requires Concerns(e, key) && Parsed(e.input.value) && !AllOnce(order, |fs|) && IsPiece(e.input.value, fs, i)
    ensures AfterPiece(Step(t, ttl, e), key, fs, total, order + [i], if order == [] then e.now + ttl else until)
  {
    hide WellFormed, HasHeads, Step, Lookup, Cut, Holds, OfferOne, Given, Complete, Distinct;
    StepLookup(t, ttl, e, latest, key);
    LookupHasHead(t, latest, key);
    OfferPiece(Alive(Lookup(t.recs, key), e.now), e.input.value, e.now + ttl, fs, total, order, i, until);
  }

  /** After a piece has come: the entry is kept up to date, and given out when all have come once. */
  ghost predicate AfterPiece(s: (Table, Option<Asm>), key: Key, fs: seq<Frag>, total: nat, order: seq<nat>, until: int) {
    && Tracks(Lookup(s.0.recs, key), key, fs, total, order, until)
    && (s.1.Some? <==> AllOnce(order, |fs|))
    && (s.1.Some? ==> Complete(s.1.value) && Holds(s.1.value, fs, total, order))
  }

  /** Fragments of one packet, in any order, repeated or not, and among any other packets, all within
  the time that the first of them leaves: the packet is given out with the last piece to come, not
  before and not again, if and only if no piece came twice until then. Otherwise it is not given out
  as long as its entry lives. */
  lemma {:induction false} InterleavedDelivery(t: Table, ttl: int, es: seq<Event>, start: int, key: Key, fs: seq<Frag>, total: nat, order: seq<nat>)
    requires WellFormed(t, start + ttl) && HasHeads(t.recs) && Lookup(t.recs, key) == None
    requires Orderly(es, start) && Cut(fs, total) && OnePacket(order, |fs|)
    requires Script(es, key, fs, order) && InTime(es, key, |fs|, order, ttl)
    ensures Tracks(Lookup(Run(t, ttl, es).0.recs, key), key, fs, total, order, Until(es, key, ttl))
    ensures es != [] && Concerns(es[|es| - 1], key) ==>
              var out := Run(t, ttl, es).1;
              && (out.Some? <==> AllOnce(order, |fs|))
              && (out.Some? ==> Complete(out.value) && Holds(out.value, fs, total, order))
  {
    hide WellFormed, Step, Lookup, Cut, Holds, Complete, IsPiece, Tracks, Distinct, OnePacket, AllOnce;
    if es == [] {
      NothingTracked(key, fs, total);
    } else {
      var m := |es| - 1;
      var e, before := es[m], es[..m];
      var latest := (if m == 0 then start else es[m - 1].now) + ttl;
      var u, until := Run(t, ttl, before).0, Until(before, key, ttl);
      RunKeeps(t, ttl, before, start);
      if Concerns(e, key) {
        var o, i := order[..|order| - 1], order[|order| - 1];
        assert order == o + [i];
        OnePacketBefore(o, i, |fs|);
        InterleavedDelivery(t, ttl, before, start, key, fs, total, o);
        SinceFirst(before, key, fs, o);
        NextPiece(u, ttl, e, latest, key, fs, total, o, until, i);
      } else {
        InterleavedDelivery(t, ttl, before, start, key, fs, total, order);
        SinceFirst(before, key, fs, order);
        OtherPacket(u, ttl, e, latest, key, fs, total, order, until);
      }
    }
  }

  lemma OnePacketBefore(order: seq<nat>, i: nat, n: nat)
    requires OnePacket(order + [i], n)
    ensures OnePacket(order, n) && !AllOnce(order, n)
  {
    if |order| >= n {
      assert (order + [i])[..n] == order[..n];
    }
  }

  lemma NothingTracked(key: Key, fs: seq<Frag>, total: nat)
    ensures Tracks(None, key, fs, total, [], 0)
  {
  }

  /** The pieces are cut from `payload`. */
  ghost predicate CutFrom(fs: seq<Frag>, payload: seq<Byte>) {
    forall i :: 0 <= i < |fs| ==>
                  fs[i].Sound() && fs[i].End() <= |payload| && payload[fs[i].offset..fs[i].End()] == fs[i].Payload()
  }

  /** What is given out in the end: the list of a complete entry starts with the piece at offset 0,
  whose header is used, and payloads put where the list says are the payload that was cut up. */
  lemma DeliveredIsPayload(a: Asm, fs: seq<Frag>, payload: seq<Byte>, order: seq<nat>, out: seq<Byte>, base: nat)
    requires Cut(fs, |payload|) && CutFrom(fs, payload) && Holds(a, fs, |payload|, order) && Complete(a)
    requires base + a.len <= |out| && Placed(out, base, a.frags, |a.frags|)
    ensures |a.frags| >= 2 && a.frags[1] == fs[0] && a.len == |payload|
    ensures out[base..base + a.len] == payload
  {
    hide Complete, Inv, Placed;
    CompleteHasFragment(a);
    CompleteIffAll(a, fs, |payload|, order);
    var i :| i in order && i < |fs| && a.frags[1] == fs[i];
    if i > 0 {
      CutInOrder(fs, |payload|, 0, i);
    }
    PlacedIsPayload(out, base, a, payload);
  }
}
