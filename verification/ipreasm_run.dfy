/** The table of packets being reassembled, as a list ordered by time of expiry, and runs of it. */
module ReasmRun {
  import opened Wrappers
  import opened Words
  import opened ReasmSpec

  /** What identifies the fragments of one packet; the protocol version tells the cases apart. */
  datatype Key =
    | Key4(src4: seq<Byte>, dst4: seq<Byte>, id4: nat, proto4: Byte)
    | Key6(src6: seq<Byte>, dst6: seq<Byte>, id6: nat)

  /** An entry of the table; an entry that refused a fragment is no longer active. */
  datatype Rec = Rec(key: Key, timeout: int, active: bool, asm: Asm)

  datatype Table = Table(recs: seq<Rec>, maxWaiting: nat, timedOut: nat, dropped: nat)

  /** A parsed fragment. `head` is the list head a new entry gets. */
  datatype Input = Input(key: Key, frag: Frag, last: bool, head: Frag)

  /** When a packet came, and the fragment in it if it was one. */
  datatype Event = Event(now: int, input: Option<Input>)

  // ---------- The code ----------

  /** Every entry has its list head. */
  ghost predicate HasHeads(recs: seq<Rec>) {
    forall i :: 0 <= i < |recs| ==> recs[i].asm.frags != []
  }

  /** Removing expired entries from the front. */
  function Expire(t: Table, now: int): (u: Table)
    ensures HasHeads(t.recs) ==> HasHeads(u.recs)
    decreases |t.recs|
  {
    if t.recs != [] && t.recs[0].timeout < now then Expire(t.(recs := t.recs[1..], timedOut := t.timedOut + 1), now)
    else t
  }

  /** The index of the entry for a key, or the number of entries. */
  function Find(recs: seq<Rec>, key: Key): (i: nat)
    ensures i <= |recs| && (i < |recs| ==> recs[i].key == key)
    ensures forall j :: 0 <= j < i ==> recs[j].key != key
  {
    if recs == [] then 0
    else if recs[0].key == key then 0
    else 1 + Find(recs[1..], key)
  }

  function Max(x: nat, y: nat): nat {
    if x < y then y else x
  }

  /** The table with an entry for a key, made if there was none. */
  function Enter(t: Table, key: Key, head: Frag, timeout: int): (u: Table)
    ensures HasHeads(t.recs) ==> HasHeads(u.recs)
    ensures Find(u.recs, key) < |u.recs|
  {
    if Find(t.recs, key) < |t.recs| then t
    else
      var recs := t.recs + [Rec(key, timeout, true, Fresh(head))];
      assert recs[|t.recs|].key == key;
      t.(recs := recs, maxWaiting := Max(t.maxWaiting, |recs|))
  }

  /** A fragment for entry `i`: the table after it, and the assembly if it is complete. */
  function Offer(t: Table, i: nat, f: Frag, last: bool): (r: (Table, Option<Asm>))
    requires i < |t.recs| && t.recs[i].asm.frags != []
    ensures HasHeads(t.recs) ==> HasHeads(r.0.recs)
  {
    var r := t.recs[i];
    if !r.active then (t.(dropped := t.dropped + 1), None)
    else
      var (ok, a) := AddFragment(r.asm, f, last);
      if !ok then
        (t.(recs := t.recs[i := r.(active := false, asm := a)], dropped := t.dropped + a.count + 1), None)
      else if !Complete(a) then (t.(recs := t.recs[i := r.(asm := a)]), None)
      else (t.(recs := t.recs[..i] + t.recs[i + 1..]), Some(a))
  }

  /** One packet: a fragment, or something else. */
  function Step(t: Table, ttl: int, e: Event): (r: (Table, Option<Asm>))
    requires HasHeads(t.recs)
    ensures HasHeads(r.0.recs)
  {
    var t := Expire(t, e.now);
    match e.input
    case None => (t, None)
    case Some(x) =>
      var t := Enter(t, x.key, x.head, e.now + ttl);
      Offer(t, Find(t.recs, x.key), x.frag, x.last)
  }

  // ---------- What every step keeps ----------

  ghost predicate DistinctKeys(recs: seq<Rec>) {
    forall i, j :: 0 <= i < j < |recs| ==> recs[i].key != recs[j].key
  }

  ghost predicate AllInv(recs: seq<Rec>) {
    forall i :: 0 <= i < |recs| ==> RecInv(recs[i])
  }

  /** An active entry is sound and not complete. */
  ghost predicate RecInv(r: Rec) {
    r.asm.frags != [] && (r.active ==> Inv(r.asm) && !Complete(r.asm))
  }

  /** Ordered by time of expiry, none after `latest`. */
  ghost predicate Timely(recs: seq<Rec>, latest: int) {
    && (forall i, j :: 0 <= i < j < |recs| ==> recs[i].timeout <= recs[j].timeout)
    && (forall i :: 0 <= i < |recs| ==> recs[i].timeout <= latest)
  }

  ghost predicate WellFormed(t: Table, latest: int) {
    DistinctKeys(t.recs) && AllInv(t.recs) && Timely(t.recs, latest) && |t.recs| <= t.maxWaiting
  }

  /** Exactly the entries whose time is over are removed, whatever order they were completed in. */
  lemma {:induction false} ExpireIsExact(t: Table, now: int) returns (k: nat)
    requires forall i, j :: 0 <= i < j < |t.recs| ==> t.recs[i].timeout <= t.recs[j].timeout
    ensures k <= |t.recs|
    ensures Expire(t, now) == t.(recs := t.recs[k..], timedOut := t.timedOut + k)
    ensures forall i :: 0 <= i < |t.recs| ==> (i < k <==> t.recs[i].timeout < now)
    decreases |t.recs|
  {
    if t.recs != [] && t.recs[0].timeout < now {
      var u := t.(recs := t.recs[1..], timedOut := t.timedOut + 1);
      var l := ExpireIsExact(u, now);
      k := l + 1;
      assert u.recs[l..] == t.recs[k..];
      forall i | 0 <= i < |t.recs|
        ensures i < k <==> t.recs[i].timeout < now
      {
        if i > 0 { assert u.recs[i - 1] == t.recs[i]; }
      }
    } else {
      k := 0;
      if t.recs != [] {
        forall i | 0 <= i < |t.recs|
          ensures !(t.recs[i].timeout < now)
        {
          if i > 0 { assert t.recs[0].timeout <= t.recs[i].timeout; }
        }
      }
    }
  }

  lemma ExpireKeeps(t: Table, now: int, latest: int)
    requires WellFormed(t, latest)
    ensures WellFormed(Expire(t, now), latest)
  {
    hide RecInv;
    var k := ExpireIsExact(t, now);
  }

  lemma EnterKeeps(t: Table, key: Key, head: Frag, timeout: int)
    requires WellFormed(t, timeout) && IsHead(head)
    ensures WellFormed(Enter(t, key, head, timeout), timeout)
  {
    FreshInv(head);
    hide Inv;
  }

  lemma RefusedHasHead(a: Asm, f: Frag, last: bool)
    requires a.frags != []
    ensures AddFragment(a, f, last).1.frags != []
  {
  }

  lemma OfferKeeps(t: Table, i: nat, f: Frag, last: bool, latest: int)
    requires WellFormed(t, latest) && i < |t.recs| && (last ==> f.End() > 0)
    ensures WellFormed(Offer(t, i, f, last).0, latest)
  {
    hide Inv, AddFragment, Complete, WellFormed, RecInv;
    var r := t.recs[i];
    RecAt(t, i, latest);
    if r.active {
      var (ok, a) := AddFragment(r.asm, f, last);
      OfferedIsSound(r, f, last);
      if !ok {
        ReplacedKeeps(t, i, r.(active := false, asm := a), t.dropped + a.count + 1, latest);
      } else if !Complete(a) {
        ReplacedKeeps(t, i, r.(asm := a), t.dropped, latest);
      } else {
        RemovedKeeps(t, i, latest);
      }
    } else {
      ReplacedKeeps(t, i, r, t.dropped + 1, latest);
      assert t.recs[i := r] == t.recs;
    }
  }

  lemma RecAt(t: Table, i: nat, latest: int)
    requires WellFormed(t, latest) && i < |t.recs|
    ensures RecInv(t.recs[i]) && t.recs[i].asm.frags != []
  {
    hide Inv, Complete;
    assert RecInv(t.recs[i]);
  }

  lemma OfferedIsSound(r: Rec, f: Frag, last: bool)
    requires RecInv(r) && r.active && r.asm.frags != [] && (last ==> f.End() > 0)
    ensures var (ok, a) := AddFragment(r.asm, f, last);
            && RecInv(r.(active := false, asm := a))
            && (ok && !Complete(a) ==> RecInv(r.(asm := a)))
  {
    hide Inv, AddFragment, Complete;
    RefusedHasHead(r.asm, f, last);
    if AddFragment(r.asm, f, last).0 {
      AddKeeps(r.asm, f, last);
    }
  }

  lemma ReplacedKeeps(t: Table, i: nat, r: Rec, dropped: nat, latest: int)
    requires WellFormed(t, latest) && i < |t.recs| && RecInv(r)
    requires r.key == t.recs[i].key && r.timeout == t.recs[i].timeout
    ensures WellFormed(t.(recs := t.recs[i := r], dropped := dropped), latest)
  {
    hide RecInv;
  }

  lemma RemovedKeeps(t: Table, i: nat, latest: int)
    requires WellFormed(t, latest) && i < |t.recs|
    ensures WellFormed(t.(recs := t.recs[..i] + t.recs[i + 1..]), latest)
  {
    hide RecInv;
  }

  lemma TimelyLater(t: Table, latest: int, later: int)
    requires WellFormed(t, latest) && latest <= later
    ensures WellFormed(t, later)
  {
    hide RecInv;
  }

  /** Every packet keeps the table well formed: no key twice, ordered by time of expiry, every
  active entry sound, and no more entries than the high-water mark says. */
  lemma StepKeeps(t: Table, ttl: int, e: Event, latest: int)
    requires WellFormed(t, latest) && latest <= e.now + ttl && HasHeads(t.recs)
    requires e.input.Some? ==> IsHead(e.input.value.head) && (e.input.value.last ==> e.input.value.frag.End() > 0)
    ensures WellFormed(Step(t, ttl, e).0, e.now + ttl)
  {
    hide WellFormed, Inv, Complete, AddFragment;
    TimelyLater(t, latest, e.now + ttl);
    ExpireKeeps(t, e.now, e.now + ttl);
    if e.input.Some? {
      var x := e.input.value;
      var u := Expire(t, e.now);
      EnterKeeps(u, x.key, x.head, e.now + ttl);
      var w := Enter(u, x.key, x.head, e.now + ttl);
      OfferKeeps(w, Find(w.recs, x.key), x.frag, x.last, e.now + ttl);
    }
  }

  lemma HeadsThere(t: Table, latest: int)
    requires WellFormed(t, latest)
    ensures HasHeads(t.recs)
  {
    forall i | 0 <= i < |t.recs|
      ensures t.recs[i].asm.frags != []
    {
      assert RecInv(t.recs[i]);
    }
  }

  // ---------- Entries of different keys do not meet ----------

  /** The entry for a key. */
  function Lookup(recs: seq<Rec>, key: Key): Option<Rec> {
    if Find(recs, key) < |recs| then Some(recs[Find(recs, key)]) else None
  }

  lemma LookupIs(recs: seq<Rec>, i: nat)
    requires DistinctKeys(recs) && i < |recs|
    ensures Find(recs, recs[i].key) == i
  {
  }

  lemma LookupNone(recs: seq<Rec>, key: Key)
    requires forall i :: 0 <= i < |recs| ==> recs[i].key != key
    ensures Lookup(recs, key) == None
  {
  }

  /** Expiry removes the entry for a key exactly if its time is over. */
  lemma ExpireLookup(t: Table, now: int, latest: int, key: Key)
    requires WellFormed(t, latest)
    ensures Lookup(Expire(t, now).recs, key) ==
            match Lookup(t.recs, key)
            case Some(r) => if r.timeout < now then None else Some(r)
            case None => None
  {
    hide AllInv, Expire, Find, DistinctKeys;
    var k := ExpireIsExact(t, now);
    LookupTail(t.recs, k, key);
  }

  lemma LookupTail(recs: seq<Rec>, k: nat, key: Key)
    requires DistinctKeys(recs) && k <= |recs|
    ensures Lookup(recs[k..], key) == if Find(recs, key) < k then None else Lookup(recs, key)
  {
    hide Find;
    var tail, j := recs[k..], Find(recs, key);
    if j < k || j == |recs| {
      forall i | 0 <= i < |tail|
        ensures tail[i].key != key
      {
        assert tail[i] == recs[k + i];
      }
      LookupNone(tail, key);
    } else {
      assert tail[j - k] == recs[j];
      LookupIs(tail, j - k);
    }
  }

  /** A new entry is found under its key, and changes no other. */
  lemma EnterLookup(t: Table, key: Key, head: Frag, timeout: int, other: Key)
    ensures Lookup(Enter(t, key, head, timeout).recs, other) ==
            if other == key && Lookup(t.recs, key) == None then Some(Rec(key, timeout, true, Fresh(head)))
            else Lookup(t.recs, other)
  {
    var recs := Enter(t, key, head, timeout).recs;
    var j := Find(t.recs, other);
    if j < |t.recs| {
      assert recs[j].key == other;
    }
  }

  /** What happens to one entry when a fragment is offered to it. */
  function OfferOne(r: Rec, f: Frag, last: bool): (Option<Rec>, Option<Asm>)
    requires r.asm.frags != []
  {
    if !r.active then (Some(r), None)
    else
      var (ok, a) := AddFragment(r.asm, f, last);
      if !ok then (Some(r.(active := false, asm := a)), None)
      else if !Complete(a) then (Some(r.(asm := a)), None)
      else (None, Some(a))
  }

  /** A fragment changes the entry it is offered to and no other. */
  lemma OfferLookup(t: Table, i: nat, f: Frag, last: bool, other: Key)
    requires DistinctKeys(t.recs) && i < |t.recs| && t.recs[i].asm.frags != []
    ensures Lookup(Offer(t, i, f, last).0.recs, other) ==
            if other == t.recs[i].key then OfferOne(t.recs[i], f, last).0 else Lookup(t.recs, other)
    ensures Offer(t, i, f, last).1 == OfferOne(t.recs[i], f, last).1
  {
    hide AddFragment, Complete;
    var recs := Offer(t, i, f, last).0.recs;
    if |recs| == |t.recs| {
      ReplacedLookup(t.recs, recs, i, other);
    } else {
      RemovedLookup(t.recs, recs, i, other);
    }
  }

  lemma ReplacedLookup(old_: seq<Rec>, new_: seq<Rec>, i: nat, other: Key)
    requires DistinctKeys(old_) && i < |old_| == |new_| && new_ == old_[i := new_[i]] && new_[i].key == old_[i].key
    ensures Lookup(new_, other) == if other == old_[i].key then Some(new_[i]) else Lookup(old_, other)
  {
    var j := Find(old_, other);
    if other == old_[i].key {
      LookupIs(new_, i);
    } else if j < |old_| {
      LookupIs(new_, j);
    } else {
      LookupNone(new_, other);
    }
  }

  lemma RemovedLookup(old_: seq<Rec>, new_: seq<Rec>, i: nat, other: Key)
    requires DistinctKeys(old_) && i < |old_| && new_ == old_[..i] + old_[i + 1..]
    ensures Lookup(new_, other) == if other == old_[i].key then None else Lookup(old_, other)
  {
    var j := Find(old_, other);
    if other == old_[i].key || j == |old_| {
      LookupNone(new_, other);
    } else {
      LookupIs(new_, if j < i then j else j - 1);
    }
  }

  /** One fragment, seen by one key: its entry takes a fragment of its own, and is left alone
  by others. */
  lemma TakeLookup(t: Table, x: Input, timeout: int, key: Key)
    requires WellFormed(t, timeout) && IsHead(x.head)
    ensures var w := Enter(t, x.key, x.head, timeout);
            var i := Find(w.recs, x.key);
            w.recs[i].asm.frags != [] &&
            var (u, out) := Offer(w, i, x.frag, x.last);
            if x.key != key then Lookup(u.recs, key) == Lookup(t.recs, key)
            else (Lookup(u.recs, key), out) == OfferOne(Given(Lookup(t.recs, key), x, timeout), x.frag, x.last)
  {
    EnterLookup(t, x.key, x.head, timeout, key);
    EnterKeeps(t, x.key, x.head, timeout);
    var w := Enter(t, x.key, x.head, timeout);
    hide AddFragment, Complete, OfferOne, Offer, Enter, AllInv, Timely;
    HeadsThere(w, timeout);
    OfferLookup(w, Find(w.recs, x.key), x.frag, x.last, key);
  }

  /** The entry there is, or a new one. */
  function Given(r: Option<Rec>, x: Input, timeout: int): (g: Rec)
    requires r.Some? ==> r.value.asm.frags != []
    ensures g.asm.frags != []
  {
    match r
    case Some(r) => r
    case None => Rec(x.key, timeout, true, Fresh(x.head))
  }

  lemma LookupHasHead(t: Table, latest: int, key: Key)
    requires WellFormed(t, latest)
    ensures Lookup(t.recs, key).Some? ==> Lookup(t.recs, key).value.asm.frags != []
  {
    HeadsThere(t, latest);
  }

  /** What is left of an entry at a given time. */
  function Alive(r: Option<Rec>, now: int): Option<Rec> {
    if r.Some? && r.value.timeout < now then None else r
  }

  /** One packet, seen by one key. */
  lemma StepLookup(t: Table, ttl: int, e: Event, latest: int, key: Key)
    requires WellFormed(t, latest) && HasHeads(t.recs) && latest <= e.now + ttl
    requires e.input.Some? ==> IsHead(e.input.value.head)
    ensures var r := Alive(Lookup(t.recs, key), e.now);
            var (u, out) := Step(t, ttl, e);
            if e.input.None? || e.input.value.key != key then Lookup(u.recs, key) == r
            else
              && (r.Some? ==> r.value.asm.frags != [])
              && var x := e.input.value;
                 (Lookup(u.recs, key), out) == OfferOne(Given(r, x, e.now + ttl), x.frag, x.last)
  {
    hide AddFragment, Complete, OfferOne, Offer, Expire, Lookup, Enter, WellFormed, HasHeads, Given, Find, Fresh;
    TimelyLater(t, latest, e.now + ttl);
    ExpireKeeps(t, e.now, e.now + ttl);
    ExpireLookup(t, e.now, latest, key);
    var u := Expire(t, e.now);
    LookupHasHead(u, e.now + ttl, key);
    if e.input.Some? {
      TakeLookup(u, e.input.value, e.now + ttl, key);
    }
  }

  /** How many entries there are while a packet is taken: what has not expired, and a new one. */
  function Crowd(t: Table, e: Event): nat {
    var u := Expire(t, e.now);
    |u.recs| + if e.input.Some? && Lookup(u.recs, e.input.value.key) == None then 1 else 0
  }

  /** The high-water mark is raised to the number of entries if that is above it, and not otherwise. */
  lemma HighWater(t: Table, ttl: int, e: Event)
    requires HasHeads(t.recs) && |t.recs| <= t.maxWaiting
    ensures Step(t, ttl, e).0.maxWaiting == if Crowd(t, e) > t.maxWaiting then Crowd(t, e) else t.maxWaiting
  {
    hide AddFragment;
    ExpireKeepsMark(t, e.now);
    hide Expire;
  }

  lemma {:induction false} ExpireKeepsMark(t: Table, now: int)
    ensures Expire(t, now).maxWaiting == t.maxWaiting && |Expire(t, now).recs| <= |t.recs|
    decreases |t.recs|
  {
    if t.recs != [] && t.recs[0].timeout < now {
      ExpireKeepsMark(t.(recs := t.recs[1..], timedOut := t.timedOut + 1), now);
    }
  }

  // ---------- No fragment is lost without being counted ----------

  /** How many fragments an entry holds that will be used. */
  function Held(r: Rec): nat {
    if r.active then r.asm.count else 0
  }

  function Load(recs: seq<Rec>): nat {
    if recs == [] then 0 else Held(recs[0]) + Load(recs[1..])
  }

  lemma {:induction false} LoadConcat(a: seq<Rec>, b: seq<Rec>)
    ensures Load(a + b) == Load(a) + Load(b)
  {
    if a == [] {
      assert a + b == b;
    } else {
      assert (a + b)[1..] == a[1..] + b;
      LoadConcat(a[1..], b);
    }
  }

  lemma LoadAt(recs: seq<Rec>, i: nat, r: Rec)
    requires i < |recs|
    ensures Load(recs) == Load(recs[..i] + recs[i + 1..]) + Held(recs[i])
    ensures Load(recs[i := r]) == Load(recs[..i] + recs[i + 1..]) + Held(r)
  {
    var rest := recs[i + 1..];
    LoadConcat(recs[..i], rest);
    LoadWith(recs[..i], r, rest);
    LoadWith(recs[..i], recs[i], rest);
    assert recs[i := r] == recs[..i] + [r] + rest;
    assert recs == recs[..i] + [recs[i]] + rest;
  }

  lemma LoadWith(a: seq<Rec>, r: Rec, b: seq<Rec>)
    ensures Load(a + [r] + b) == Load(a) + Held(r) + Load(b)
  {
    LoadConcat(a + [r], b);
    LoadConcat(a, [r]);
    assert [r][1..] == [];
  }

  /** One fragment more is held, dropped, or given out. */
  ghost predicate Conserves(t: Table, u: Table, out: Option<Asm>) {
    Load(t.recs) + t.dropped + 1 == Load(u.recs) + u.dropped + if out.Some? then out.value.count else 0
  }

  /** Every fragment with a payload is held in an active entry, or was given out with a complete one,
  or is counted as dropped: those of an entry that refuses one, and all that come to it after that. */
  lemma OfferConserves(t: Table, i: nat, f: Frag, last: bool)
    requires i < |t.recs| && t.recs[i].asm.frags != [] && f.len > 0
    ensures Conserves(t, Offer(t, i, f, last).0, Offer(t, i, f, last).1)
  {
    hide AddFragment, Complete, Load;
    var r := t.recs[i];
    var a := AddFragment(r.asm, f, last).1;
    AddCounts(r.asm, f, last);
    LoadAt(t.recs, i, r.(asm := a));
    LoadAt(t.recs, i, r.(active := false, asm := a));
  }

  lemma AddCounts(a: Asm, f: Frag, last: bool)
    requires a.frags != [] && f.len > 0
    ensures AddFragment(a, f, last).1.count == a.count + if AddFragment(a, f, last).0 then 1 else 0
  {
  }

  /** The same for all that a step does after expiry. */
  lemma TakeConserves(t: Table, x: Input, timeout: int)
    requires HasHeads(t.recs) && x.frag.len > 0
    ensures var w := Enter(t, x.key, x.head, timeout); var i := Find(w.recs, x.key);
            w.recs[i].asm.frags != [] && Conserves(t, Offer(w, i, x.frag, x.last).0, Offer(w, i, x.frag, x.last).1)
  {
    var w := Enter(t, x.key, x.head, timeout);
    var i := Find(w.recs, x.key);
    hide Offer, Load, Find, Enter, Conserves, HasHeads;
    HeadAt(w.recs, i);
    OfferConserves(w, i, x.frag, x.last);
    EnterConserves(t, x.key, x.head, timeout, Offer(w, i, x.frag, x.last).0, Offer(w, i, x.frag, x.last).1);
  }

  lemma HeadAt(recs: seq<Rec>, i: nat)
    requires HasHeads(recs) && i < |recs|
    ensures recs[i].asm.frags != []
  {
  }

  lemma EnterConserves(t: Table, key: Key, head: Frag, timeout: int, u: Table, out: Option<Asm>)
    requires Conserves(Enter(t, key, head, timeout), u, out)
    ensures Conserves(t, u, out)
  {
    EnterLoad(t, key, head, timeout);
  }

  lemma EnterLoad(t: Table, key: Key, head: Frag, timeout: int)
    ensures Load(Enter(t, key, head, timeout).recs) == Load(t.recs) && Enter(t, key, head, timeout).dropped == t.dropped
  {
    var r := Rec(key, timeout, true, Fresh(head));
    LoadWith(t.recs, r, []);
    assert t.recs + [r] + [] == t.recs + [r];
  }
}
