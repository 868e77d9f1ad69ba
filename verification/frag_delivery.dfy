/** Fragments arriving in any order, more than once, and among others, make up the container. */
module FragDelivery {
  import opened Wrappers
  import opened Words
  import opened Bits
  import opened Arrivals
  import opened FragSpec

  // ---------- Cutting up ----------

  function Min(x: nat, y: nat): nat {
    if x < y then x else y
  }

  /** The fragments from `pos` on. */
  function Pieces(packed: seq<Byte>, max: nat, pos: nat, i: nat, id: Word32, crc: Word32, last: nat): seq<Fragment>
    requires max > 0
    decreases |packed| - pos
  {
    if pos >= |packed| then []
    else
      [Fragment(id, crc, last, i, packed[pos..Min(pos + max, |packed|)])]
      + Pieces(packed, max, pos + max, i + 1, id, crc, last)
  }

  /** Sends a container in fragments of at most `max` bytes. */
  method WriteFragments(packed: seq<Byte>, max: nat, id: Word32, crc: Word32) returns (out: seq<Fragment>)
    requires max > 0
    ensures out == Pieces(packed, max, 0, 0, id, crc, |packed| / max)
  {
    hide Pieces;
    var last := |packed| / max;
    var fragpos, i := 0, 0;
    out := [];
    while fragpos < |packed|
      invariant out + Pieces(packed, max, fragpos, i, id, crc, last) == Pieces(packed, max, 0, 0, id, crc, last)
      decreases |packed| - fragpos
    {
      PiecesStep(packed, max, fragpos, i, id, crc, last);
      var fragsz := if |packed| - fragpos > max then max else |packed| - fragpos;
      out := out + [Fragment(id, crc, last, i, packed[fragpos..fragpos + fragsz])];
      fragpos := fragpos + max;
      i := i + 1;
    }
    PiecesStep(packed, max, fragpos, i, id, crc, last);
  }

  lemma PiecesStep(packed: seq<Byte>, max: nat, pos: nat, i: nat, id: Word32, crc: Word32, last: nat)
    requires max > 0
    ensures Pieces(packed, max, pos, i, id, crc, last) ==
            if pos >= |packed| then []
            else [Fragment(id, crc, last, i, packed[pos..Min(pos + max, |packed|)])] + Pieces(packed, max, pos + max, i + 1, id, crc, last)
  {
  }

  function Datas(ps: seq<Fragment>): (ds: seq<seq<Byte>>)
    ensures |ds| == |ps| && forall i :: 0 <= i < |ps| ==> ds[i] == ps[i].data
  {
    seq(|ps|, i requires 0 <= i < |ps| => ps[i].data)
  }

  lemma {:induction false} ConcatCons(x: seq<Byte>, parts: seq<seq<Byte>>)
    ensures Concat([x] + parts) == x + Concat(parts)
  {
    if parts == [] {
      assert [x][..0] == [];
    } else {
      hide Concat;
      var m := |parts| - 1;
      ConcatCons(x, parts[..m]);
      ConcatSnoc(parts[..m], parts[m]);
      ConcatSnoc([x] + parts[..m], parts[m]);
      assert parts[..m] + [parts[m]] == parts;
      assert [x] + parts[..m] + [parts[m]] == [x] + parts;
    }
  }

  lemma ConcatSnoc(parts: seq<seq<Byte>>, x: seq<Byte>)
    ensures Concat(parts + [x]) == Concat(parts) + x
  {
    assert (parts + [x])[..|parts|] == parts;
  }

  /** The fragments are numbered, none is empty or too large, and together they are the container. */
  lemma PiecesAre(packed: seq<Byte>, max: nat, pos: nat, i: nat, id: Word32, crc: Word32, last: nat)
    requires max > 0
    ensures var ps := Pieces(packed, max, pos, i, id, crc, last);
            && (forall k :: 0 <= k < |ps| ==> ps[k].id == id && ps[k].crc == crc && ps[k].last == last && ps[k].current == i + k && 0 < |ps[k].data| <= max)
            && (pos <= |packed| ==> Concat(Datas(ps)) == packed[pos..])
  {
    hide Pieces, Concat, Datas;
    PiecesNumbered(packed, max, pos, i, id, crc, last);
    if pos <= |packed| {
      PiecesJoin(packed, max, pos, i, id, crc, last);
    }
  }

  lemma {:induction false} PiecesNumbered(packed: seq<Byte>, max: nat, pos: nat, i: nat, id: Word32, crc: Word32, last: nat)
    requires max > 0
    ensures var ps := Pieces(packed, max, pos, i, id, crc, last);
            forall k :: 0 <= k < |ps| ==> ps[k].id == id && ps[k].crc == crc && ps[k].last == last && ps[k].current == i + k && 0 < |ps[k].data| <= max
    decreases |packed| - pos
  {
    hide Pieces;
    PiecesStep(packed, max, pos, i, id, crc, last);
    if pos < |packed| {
      var ps, rest := Pieces(packed, max, pos, i, id, crc, last), Pieces(packed, max, pos + max, i + 1, id, crc, last);
      PiecesNumbered(packed, max, pos + max, i + 1, id, crc, last);
      assert 0 < |ps[0].data| <= max;
      forall k | 1 <= k < |ps|
        ensures ps[k] == rest[k - 1]
      {
      }
    }
  }

  lemma {:induction false} PiecesJoin(packed: seq<Byte>, max: nat, pos: nat, i: nat, id: Word32, crc: Word32, last: nat)
    requires max > 0 && pos <= |packed|
    ensures Concat(Datas(Pieces(packed, max, pos, i, id, crc, last))) == packed[pos..]
    decreases |packed| - pos
  {
    hide Pieces, Concat;
    PiecesStep(packed, max, pos, i, id, crc, last);
    if pos == |packed| {
      NoParts();
      assert Datas([]) == [];
    } else {
      var next := Min(pos + max, |packed|);
      var x, rest := packed[pos..next], Pieces(packed, max, pos + max, i + 1, id, crc, last);
      ConcatCons(x, Datas(rest));
      assert Datas([Fragment(id, crc, last, i, x)] + rest) == [x] + Datas(rest);
      assert x + packed[next..] == packed[pos..];
      if pos + max <= |packed| {
        PiecesJoin(packed, max, pos + max, i + 1, id, crc, last);
      } else {
        PiecesStep(packed, max, pos + max, i + 1, id, crc, last);
        NoParts();
        assert Datas(rest) == [];
      }
    }
  }

  lemma NoParts()
    ensures Concat([]) == []
  {
  }

  lemma QuotientStep(n: nat, max: nat)
    requires 0 < max <= n
    ensures n / max == (n - max) / max + 1 && n % max == (n - max) % max
  {
    var q, r := (n - max) / max, (n - max) % max;
    assert n == max * (q + 1) + r;
    DivModUnique(n, max, q + 1, r);
  }

  lemma QuotientSmall(n: nat, max: nat)
    requires n < max
    ensures n / max == 0 && n % max == n
  {
  }

  /** How many fragments there are. */
  lemma {:induction false} HowMany(packed: seq<Byte>, max: nat, pos: nat, i: nat, id: Word32, crc: Word32, last: nat)
    requires max > 0 && pos <= |packed|
    ensures var n := |packed| - pos;
            |Pieces(packed, max, pos, i, id, crc, last)| == n / max + if n % max == 0 then 0 else 1
    decreases |packed| - pos
  {
    var n: nat := |packed| - pos;
    if n >= max {
      QuotientStep(n, max);
      HowMany(packed, max, pos + max, i + 1, id, crc, last);
    } else {
      QuotientSmall(n, max);
    }
  }

  // ---------- One container ----------

  /** Fragments of `packed`, numbered; `last` is what each says the last number is. */
  ghost predicate IsCut(ps: seq<Fragment>, packed: seq<Byte>, last: nat) {
    && |ps| <= last + 1 && Concat(Datas(ps)) == packed
    && forall k :: 0 <= k < |ps| ==> ps[k].current == k && ps[k].last == last && ps[k].data != []
  }

  /** All fragments that are waited for have come. */
  ghost predicate Full(seen: set<nat>, last: nat) {
    forall k :: 0 <= k <= last ==> k in seen
  }

  /** The entry holds the fragments seen. */
  ghost predicate Collects(e: Ent, ps: seq<Fragment>, last: nat, seen: set<nat>) {
    && EntOk(e) && e.last == last
    && forall k :: 0 <= k <= last ==> e.frags[k] == if k in seen && k < |ps| then ps[k].data else []
  }

  ghost predicate Tracks(r: Option<Ent>, ps: seq<Fragment>, last: nat, seen: set<nat>, since: Option<int>) {
    if seen == {} || Full(seen, last) then r == None
    else r.Some? && Collects(r.value, ps, last, seen) && since == Some(r.value.ts)
  }

  /** One more fragment, new or not. */
  lemma OfferPiece(e: Ent, ps: seq<Fragment>, packed: seq<Byte>, last: nat, seen: set<nat>, i: nat)
    requires IsCut(ps, packed, last) && Collects(e, ps, last, seen) && !Full(seen, last)
    requires i < |ps| && forall k :: k in seen ==> k < |ps|
    ensures var (r, out) := Accept(e, ps[i]);
            if Full(seen + {i}, last) then r == None && out == Done(packed)
            else r.Some? && Collects(r.value, ps, last, seen + {i}) && r.value.ts == e.ts && out == Again
  {
    hide EntOk, Concat;
    EntSize(e);
    AcceptKeeps(e, ps[i]);
    var frags := if e.frags[i] == [] then e.frags[i := ps[i].data] else e.frags;
    assert forall k :: 0 <= k <= last ==> frags[k] == if k in seen + {i} then ps[k].data else [];
    if Full(seen + {i}, last) {
      assert |ps| == last + 1 by {
        assert last in seen + {i};
      }
      assert frags == Datas(ps);
      assert [] !in frags;
    } else {
      var k :| 0 <= k <= last && k !in seen + {i};
      assert frags[k] == [];
    }
  }

  lemma FreshCollects(ps: seq<Fragment>, last: nat, now: int)
    ensures Collects(Fresh(last, now), ps, last, {})
  {
    MissingAll(Blank(last + 1));
  }

  // ---------- Runs ----------

  datatype Event = Recv(key: Key, f: Fragment, now: int) | Collect(now: int)

  predicate Proper(e: Event) {
    e.Recv? ==> e.f.current <= e.f.last && e.f.data != []
  }

  function Step(s: Stream, e: Event): (r: (Stream, Outcome))
    requires Sound(s) && Proper(e)
    ensures Sound(r.0)
  {
    match e
    case Recv(key, f, now) => ReadKeeps(s, key, f, now); Read(s, key, f, now)
    case Collect(now) => (Gc(s, now), Again)
  }

  /** The stream after some events, and the outcome of the last. */
  function Run(s: Stream, es: seq<Event>): (r: (Stream, Outcome))
    requires Sound(s) && forall i :: 0 <= i < |es| ==> Proper(es[i])
    ensures Sound(r.0)
  {
    if es == [] then (s, Again)
    else Step(Run(s, es[..|es| - 1]).0, es[|es| - 1])
  }

  predicate Concerns(e: Event, key: Key) {
    e.Recv? && e.key == key
  }

  function View(s: Stream, key: Key): Option<Ent> {
    if key in s.ents then Some(s.ents[key]) else None
  }

  /** What concerns other keys, and collecting garbage early enough, leaves an entry alone. */
  lemma OthersStep(s: Stream, e: Event, key: Key)
    requires Sound(s) && Proper(e) && !Concerns(e, key)
    requires key in s.ents && e.Collect? ==> e.now - s.ents[key].ts < 30
    ensures View(Step(s, e).0, key) == View(s, key)
  {
    hide Accept, Sound;
  }

  lemma OwnStep(s: Stream, e: Event, ps: seq<Fragment>, packed: seq<Byte>, last: nat, seen: set<nat>, i: nat, since: Option<int>)
    requires Sound(s) && Proper(e) && e.Recv? && i < |ps| && e.f == ps[i]
    requires IsCut(ps, packed, last) && Tracks(View(s, e.key), ps, last, seen, since)
    requires !Full(seen, last) && forall k :: k in seen ==> k < |ps|
    ensures var (s', out) := Step(s, e);
            && Tracks(View(s', e.key), ps, last, seen + {i}, if seen == {} then Some(e.now) else since)
            && out == if Full(seen + {i}, last) then Done(packed) else Again
  {
    hide Accept, Collects, Concat, EntOk, Full;
    var ent := Entry(s, e.key, last, e.now);
    OwnEntry(s, e.key, e.now, ps, last, seen, since);
    OfferPiece(ent, ps, packed, last, seen, i);
  }

  lemma OwnEntry(s: Stream, key: Key, now: int, ps: seq<Fragment>, last: nat, seen: set<nat>, since: Option<int>)
    requires Sound(s) && Tracks(View(s, key), ps, last, seen, since) && !Full(seen, last)
    ensures var ent := Entry(s, key, last, now);
            Collects(ent, ps, last, seen) && EntOk(ent) && ent.last == last && Some(ent.ts) == if seen == {} then Some(now) else since
  {
    hide EntOk, Full, Fresh;
    EntryOk(s, key, last, now);
    FreshCollects(ps, last, now);
    FreshIs(last, now);
  }

  lemma FreshIs(last: nat, now: int)
    ensures Fresh(last, now).last == last && Fresh(last, now).ts == now
  {
  }

  /** The fragments with the key are those that `arr` names, in this order. */
  ghost predicate Script(es: seq<Event>, key: Key, ps: seq<Fragment>, arr: seq<nat>) {
    if es == [] then arr == []
    else
      var m := |es| - 1;
      if Concerns(es[m], key) then
        arr != [] && arr[|arr| - 1] < |ps| && es[m].f == ps[arr[|arr| - 1]] && Script(es[..m], key, ps, arr[..|arr| - 1])
      else Script(es[..m], key, ps, arr)
  }

  /** When the first fragment with the key came. */
  ghost function Since(es: seq<Event>, key: Key): Option<int> {
    if es == [] then None
    else
      var m := |es| - 1;
      if Since(es[..m], key).Some? || !Concerns(es[m], key) then Since(es[..m], key) else Some(es[m].now)
  }

  /** From the first fragment with the key until the last one that is missing has come, garbage is
  collected only before 30 seconds are over. Nothing is asked of when fragments come. */
  ghost predicate InTime(es: seq<Event>, key: Key, arr: seq<nat>, last: nat) {
    if es == [] then true
    else
      var m := |es| - 1;
      if Concerns(es[m], key) then arr != [] && InTime(es[..m], key, arr[..|arr| - 1], last)
      else
        && InTime(es[..m], key, arr, last)
        && (es[m].Collect? && Since(es[..m], key).Some? && !Full(Elems(arr), last) ==>
              es[m].now - Since(es[..m], key).value < 30)
  }

  lemma {:induction false} SinceFirst(es: seq<Event>, key: Key, ps: seq<Fragment>, arr: seq<nat>)
    requires Script(es, key, ps, arr)
    ensures Since(es, key) == None <==> arr == []
  {
    if es != [] {
      var m := |es| - 1;
      SinceFirst(es[..m], key, ps, if Concerns(es[m], key) then arr[..|arr| - 1] else arr);
    }
  }

  lemma {:induction false} SeenBelow(es: seq<Event>, key: Key, ps: seq<Fragment>, arr: seq<nat>)
    requires Script(es, key, ps, arr)
    ensures forall k :: k in Elems(arr) ==> k < |ps|
  {
    if es != [] {
      var m := |es| - 1;
      if Concerns(es[m], key) {
        SeenBelow(es[..m], key, ps, arr[..|arr| - 1]);
        ElemsStep(arr);
      } else {
        SeenBelow(es[..m], key, ps, arr);
      }
    }
  }

  lemma ElemsStep(arr: seq<nat>)
    requires arr != []
    ensures Elems(arr) == Elems(arr[..|arr| - 1]) + {arr[|arr| - 1]}
  {
    var m := |arr| - 1;
    assert arr == arr[..m] + [arr[m]];
  }

  /** Fragments in any order, repeated, and among those of other containers: the container is
  given out, byte for byte, with the fragment that completes the set, and not before. */
  lemma {:induction false} Delivery(s: Stream, es: seq<Event>, key: Key, ps: seq<Fragment>, packed: seq<Byte>, last: nat, arr: seq<nat>)
    requires Sound(s) && key !in s.ents && IsCut(ps, packed, last)
    requires forall i :: 0 <= i < |es| ==> Proper(es[i])
    requires Script(es, key, ps, arr) && InTime(es, key, arr, last)
    requires arr != [] ==> !Full(Elems(arr[..|arr| - 1]), last)
    ensures Tracks(View(Run(s, es).0, key), ps, last, Elems(arr), Since(es, key))
    ensures es != [] && Concerns(es[|es| - 1], key) ==>
              Run(s, es).1 == if Full(Elems(arr), last) then Done(packed) else Again
  {
    hide Step, IsCut, Sound, View, Full, Tracks;
    if es == [] {
      NothingTracked(ps, last);
      ViewIs(s, key);
    } else {
      var m := |es| - 1;
      var e, before := es[m], Run(s, es[..m]).0;
      if Concerns(e, key) {
        var i, rest := arr[|arr| - 1], arr[..|arr| - 1];
        if rest != [] { FullGrows(rest, last); }
        Delivery(s, es[..m], key, ps, packed, last, rest);
        SeenBelow(es[..m], key, ps, rest);
        ElemsStep(arr);
        SinceFirst(es[..m], key, ps, rest);
        OwnStep(before, e, ps, packed, last, Elems(rest), i, Since(es[..m], key));
        if rest != [] { assert rest[0] in Elems(rest); }
      } else {
        Delivery(s, es[..m], key, ps, packed, last, arr);
        TracksSince(View(before, key), ps, last, arr, Since(es[..m], key));
        ViewIs(before, key);
        OthersStep(before, e, key);
      }
    }
  }

  lemma NothingTracked(ps: seq<Fragment>, last: nat)
    ensures Tracks(None, ps, last, Elems([]), None)
  {
  }

  lemma FullGrows(arr: seq<nat>, last: nat)
    requires arr != [] && !Full(Elems(arr), last)
    ensures !Full(Elems(arr[..|arr| - 1]), last)
  {
    ElemsStep(arr);
  }

  lemma TracksSince(r: Option<Ent>, ps: seq<Fragment>, last: nat, arr: seq<nat>, since: Option<int>)
    requires Tracks(r, ps, last, Elems(arr), since)
    ensures r.Some? ==> since == Some(r.value.ts) && arr != [] && !Full(Elems(arr), last)
  {
    if arr == [] {
      assert Elems(arr) == {};
    }
  }

  lemma ViewIs(s: Stream, key: Key)
    ensures key in s.ents <==> View(s, key).Some?
    ensures key in s.ents ==> View(s, key).value == s.ents[key]
  {
  }

  // ---------- Fragments as they are sent ----------

  /** The fragments sent are a cut, with a wrong last number if the length is a multiple of the size. */
  lemma SentIsCut(packed: seq<Byte>, max: nat, id: Word32, crc: Word32)
    requires max > 0
    ensures var last := |packed| / max; var ps := Pieces(packed, max, 0, 0, id, crc, last);
            IsCut(ps, packed, last) && (|ps| == last + 1 <==> |packed| % max != 0)
  {
    var last := |packed| / max;
    PiecesAre(packed, max, 0, 0, id, crc, last);
    HowMany(packed, max, 0, 0, id, crc, last);
    assert packed[0..] == packed;
  }

  /** Whether everything that is sent completes the container: exactly if its length is not a
  multiple of the fragment size. */
  lemma SentCompletes(packed: seq<Byte>, max: nat, id: Word32, crc: Word32)
    requires max > 0
    ensures var last := |packed| / max; var ps := Pieces(packed, max, 0, 0, id, crc, last);
            Full(UpTo(|ps|), last) <==> |packed| % max != 0
  {
    var last := |packed| / max;
    var ps := Pieces(packed, max, 0, 0, id, crc, last);
    SentIsCut(packed, max, id, crc);
    UpToSize(|ps|);
    assert last in UpTo(|ps|) <==> last < |ps|;
  }

  /** From sender to receiver: in every run, the fragments of a container, in any order, repeated,
  and among those of others, make the receiver give out exactly that container when the last missing
  one comes, and nothing before; never, if the length is a multiple of the fragment size. */
  lemma RoundTrip(s: Stream, es: seq<Event>, key: Key, packed: seq<Byte>, max: nat, id: Word32, crc: Word32, arr: seq<nat>)
    requires max > 0 && Sound(s) && key !in s.ents && forall i :: 0 <= i < |es| ==> Proper(es[i])
    requires es != [] && Concerns(es[|es| - 1], key)
    requires var last := |packed| / max; var ps := Pieces(packed, max, 0, 0, id, crc, last);
             Script(es, key, ps, arr) && InTime(es, key, arr, last) && (arr != [] ==> !Full(Elems(arr[..|arr| - 1]), last))
    ensures var ps := Pieces(packed, max, 0, 0, id, crc, |packed| / max);
            Run(s, es).1 ==
            if |packed| % max != 0 && forall i :: 0 <= i < |ps| ==> i in arr then Done(packed) else Again
  {
    hide Run, IsCut, Sound, InTime, Pieces;
    var last := |packed| / max;
    var ps := Pieces(packed, max, 0, 0, id, crc, last);
    SentIsCut(packed, max, id, crc);
    HowMany(packed, max, 0, 0, id, crc, last);
    SeenBelow(es, key, ps, arr);
    Delivery(s, es, key, ps, packed, last, arr);
    FullIff(arr, |ps|, last);
  }

  lemma FullIff(arr: seq<nat>, n: nat, last: nat)
    requires n <= last + 1 && forall k :: k in Elems(arr) ==> k < n
    ensures Full(Elems(arr), last) <==> n == last + 1 && forall i :: 0 <= i < n ==> i in arr
  {
    if Full(Elems(arr), last) {
      assert last in Elems(arr);
      forall i | 0 <= i < n
        ensures i in arr
      {
        assert i in Elems(arr);
      }
    }
  }

  /** A container of exactly one full fragment: what is sent for it says that there is another, and
  the receiver keeps waiting. */
  lemma OneFullFragmentIsLost(s: Stream, packed: seq<Byte>, max: nat, id: Word32, crc: Word32, addr: seq<Byte>, now: int)
    requires max > 0 && |packed| == max && Sound(s) && Key(id, crc, addr) !in s.ents
    ensures Pieces(packed, max, 0, 0, id, crc, |packed| / max) == [Fragment(id, crc, 1, 0, packed)]
    ensures var (s', out) := Read(s, Key(id, crc, addr), Fragment(id, crc, 1, 0, packed), now);
            out == Again && Key(id, crc, addr) in s'.ents && s'.ents[Key(id, crc, addr)].rem == 1
  {
    DivModUnique(|packed|, max, 1, 0);
    assert packed[0..max] == packed;
    assert Pieces(packed, max, max, 1, id, crc, 1) == [];
    assert Fresh(1, now).frags[0] == [];
    hide Sound;
  }

  // ---------- How long a container waits ----------

  /** No entry was old when garbage was last collected. */
  ghost predicate Fresher(s: Stream) {
    forall k :: k in s.ents ==> s.ents[k].ts > s.lastgc - 30
  }

  ghost predicate TimesGrow(es: seq<Event>, start: int) {
    && (forall i :: 0 <= i < |es| ==> start <= es[i].now)
    && (forall i, j :: 0 <= i < j < |es| ==> es[i].now <= es[j].now)
  }

  lemma StepFresher(s: Stream, e: Event)
    requires Sound(s) && Proper(e) && Fresher(s) && s.lastgc <= e.now
    ensures Fresher(Step(s, e).0) && Step(s, e).0.lastgc <= e.now
    ensures e.Collect? ==> forall k :: k in Step(s, e).0.ents ==> e.now - Step(s, e).0.ents[k].ts <= 58
  {
    if e.Recv? {
      EntryOk(s, e.key, e.f.last, e.now);
      if Entry(s, e.key, e.f.last, e.now).last == e.f.last {
        AcceptKeepsTime(Entry(s, e.key, e.f.last, e.now), e.f);
      }
    }
    hide Accept, EntOk;
  }

  lemma AcceptKeepsTime(e: Ent, f: Fragment)
    requires f.current < |e.frags| && e.rem > 0
    ensures Accept(e, f).0.Some? ==> Accept(e, f).0.value.ts == e.ts
  {
  }

  lemma {:induction false} RunFresher(s: Stream, es: seq<Event>)
    requires Sound(s) && Fresher(s) && TimesGrow(es, s.lastgc) && forall i :: 0 <= i < |es| ==> Proper(es[i])
    ensures Fresher(Run(s, es).0)
    ensures Run(s, es).0.lastgc <= if es == [] then s.lastgc else es[|es| - 1].now
  {
    hide Step, Sound, Fresher;
    if es != [] {
      var m := |es| - 1;
      RunFresher(s, es[..m]);
      StepFresher(Run(s, es[..m]).0, es[m]);
    }
  }

  /** After garbage was collected no container has waited for more than 58 seconds: a collection may
  pass by those of 29 seconds, and the next one is at most 30 seconds later. */
  lemma WaitIsBounded(s: Stream, es: seq<Event>, k: Key)
    requires Sound(s) && Fresher(s) && TimesGrow(es, s.lastgc) && forall i :: 0 <= i < |es| ==> Proper(es[i])
    requires es != [] && es[|es| - 1].Collect? && k in Run(s, es).0.ents
    ensures es[|es| - 1].now - Run(s, es).0.ents[k].ts <= 58
  {
    hide Step, Sound, Fresher;
    var m := |es| - 1;
    RunFresher(s, es[..m]);
    StepFresher(Run(s, es[..m]).0, es[m]);
  }

  /** Collecting garbage takes out no container that has waited for less than 30 seconds, and as long
  as nothing of its own comes it stays as it is. */
  lemma {:induction false} WaitIsLongEnough(s: Stream, es: seq<Event>, k: Key)
    requires Sound(s) && k in s.ents && forall i :: 0 <= i < |es| ==> Proper(es[i]) && !Concerns(es[i], k)
    requires forall i :: 0 <= i < |es| && es[i].Collect? ==> es[i].now - s.ents[k].ts < 30
    ensures View(Run(s, es).0, k) == View(s, k)
  {
    hide Step, Sound;
    if es != [] {
      var m := |es| - 1;
      WaitIsLongEnough(s, es[..m], k);
      OthersStep(Run(s, es[..m]).0, es[m], k);
    }
  }

  /** Both bounds are met: 58 seconds after its only fragment came, a container is still there. */
  lemma LongestWait(key: Key, f: Fragment)
    requires f.current == 0 && f.last == 1 && f.data != []
    ensures var es := [Recv(key, f, 1), Collect(30), Collect(59)];
            Fresher(Stream(map[], 0, 0)) && key in Run(Stream(map[], 0, 0), es).0.ents
  {
    var s := Stream(map[], 0, 0);
    var es := [Recv(key, f, 1), Collect(30), Collect(59)];
    var s1 := Read(s, key, f, 1).0;
    assert Fresh(1, 1).frags[0] == [];
    assert s1.ents[key].ts == 1 && s1.nfrags == 1;
    var s2 := Gc(s1, 30);
    assert key in s2.ents && s2.lastgc == 30;
    var s3 := Gc(s2, 59);
    assert s3 == s2;
    assert es[..2][..1][..0] == [];
    assert es[..2][..1] == [es[0]];
    assert es[..2] == [es[0], es[1]];
    assert Run(s, es[..2][..1]).0 == s1;
    assert Run(s, es[..2]).0 == s2;
  }
}
