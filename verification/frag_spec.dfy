/** Containers too large for one datagram: cutting them up, and collecting the fragments. */
module FragSpec {
  import opened Wrappers
  import opened Words

  datatype Fragment = Fragment(id: Word32, crc: Word32, last: nat, current: nat, data: seq<Byte>)

  datatype Key = Key(id: Word32, crc: Word32, addr: seq<Byte>)

  /** A container being collected. A fragment that has not come is an empty string. */
  datatype Ent = Ent(last: nat, rem: nat, ts: int, frags: seq<seq<Byte>>)

  datatype Stream = Stream(ents: map<Key, Ent>, nfrags: int, lastgc: int)

  datatype Outcome = Again | Done(payload: seq<Byte>) | Abort

  const GC_INTERVAL := 30

  function Concat(parts: seq<seq<Byte>>): seq<Byte> {
    if parts == [] then [] else Concat(parts[..|parts| - 1]) + parts[|parts| - 1]
  }

  // ---------- Collecting ----------

  function Fresh(last: nat, now: int): Ent {
    Ent(last, last + 1, now, Blank(last + 1))
  }

  function Blank(n: nat): (frags: seq<seq<Byte>>)
    ensures |frags| == n && forall i :: 0 <= i < n ==> frags[i] == []
  {
    seq(n, _ => [])
  }

  function Entry(s: Stream, key: Key, last: nat, now: int): Ent {
    if key in s.ents then s.ents[key] else Fresh(last, now)
  }

  /** What a fragment does to its entry; `None` if the entry is finished. */
  function Accept(e: Ent, f: Fragment): (Option<Ent>, Outcome)
    requires f.current < |e.frags| && e.rem > 0
  {
    if e.frags[f.current] != [] then (Some(e), Again)
    else
      var e' := e.(frags := e.frags[f.current := f.data], rem := e.rem - 1);
      if e'.rem > 0 then (Some(e'), Again)
      else if [] in e'.frags then (Some(e'), Abort)
      else (None, Done(Concat(e'.frags)))
  }

  /** A fragment of the container with the key comes in. */
  function Read(s: Stream, key: Key, f: Fragment, now: int): (Stream, Outcome)
    requires Sound(s) && f.current <= f.last
  {
    var e := Entry(s, key, f.last, now);
    var nfrags := if key in s.ents then s.nfrags else s.nfrags + 1;
    if e.last != f.last then (s, Abort)
    else
      match Accept(e, f)
      case (Some(e'), out) => (s.(ents := s.ents[key := e'], nfrags := nfrags), out)
      case (None, out) => (s.(ents := s.ents - {key}, nfrags := nfrags - 1), out)
  }

  predicate Old(e: Ent, now: int) {
    now - e.ts >= GC_INTERVAL
  }

  /** Drops containers that have been incomplete for too long. */
  function Gc(s: Stream, now: int): Stream {
    if s.nfrags > 0 && now - s.lastgc >= GC_INTERVAL then
      var kept := map k | k in s.ents && !Old(s.ents[k], now) :: s.ents[k];
      Stream(kept, s.nfrags - |s.ents| + |kept|, now)
    else s
  }

  // ---------- What always holds ----------

  /** The number of fragments that have not come. */
  function Missing(frags: seq<seq<Byte>>): nat {
    if frags == [] then 0
    else Missing(frags[..|frags| - 1]) + if frags[|frags| - 1] == [] then 1 else 0
  }

  ghost predicate EntOk(e: Ent) {
    |e.frags| == e.last + 1 && e.rem == Missing(e.frags) && e.rem > 0
  }

  ghost predicate Sound(s: Stream) {
    (forall k :: k in s.ents ==> EntOk(s.ents[k])) && s.nfrags == |s.ents|
  }

  lemma EntSize(e: Ent)
    requires EntOk(e)
    ensures |e.frags| == e.last + 1 && e.rem > 0
  {
  }

  lemma {:induction false} MissingPut(frags: seq<seq<Byte>>, i: nat, x: seq<Byte>)
    requires i < |frags| && frags[i] == [] && x != []
    ensures Missing(frags[i := x]) == Missing(frags) - 1
  {
    var m := |frags| - 1;
    var after := frags[i := x];
    if i < m {
      MissingPut(frags[..m], i, x);
      assert after[..m] == frags[..m][i := x];
    } else {
      assert after[..m] == frags[..m];
    }
  }

  lemma {:induction false} MissingNone(frags: seq<seq<Byte>>)
    ensures Missing(frags) == 0 <==> [] !in frags
  {
    if frags != [] {
      var m := |frags| - 1;
      MissingNone(frags[..m]);
      assert frags == frags[..m] + [frags[m]];
    }
  }

  lemma {:induction false} MissingAll(frags: seq<seq<Byte>>)
    requires forall i :: 0 <= i < |frags| ==> frags[i] == []
    ensures Missing(frags) == |frags|
  {
    if frags != [] {
      MissingAll(frags[..|frags| - 1]);
    }
  }

  lemma EntryOk(s: Stream, key: Key, last: nat, now: int)
    requires Sound(s)
    ensures EntOk(Entry(s, key, last, now))
  {
    MissingAll(Blank(last + 1));
  }

  /** A fragment that is not empty keeps the entry sound: `rem` is the number of fragments missing,
  and the entry is finished exactly when there are none. */
  lemma AcceptKeeps(e: Ent, f: Fragment)
    requires EntOk(e) && f.current < |e.frags| && f.data != []
    ensures var (r, out) := Accept(e, f);
            var frags := if e.frags[f.current] == [] then e.frags[f.current := f.data] else e.frags;
            if [] in frags then r.Some? && EntOk(r.value) && r.value.frags == frags && r.value.last == e.last && r.value.ts == e.ts && out == Again
            else r == None && out == Done(Concat(frags))
  {
    MissingNone(e.frags);
    if e.frags[f.current] == [] {
      MissingPut(e.frags, f.current, f.data);
      MissingNone(e.frags[f.current := f.data]);
    }
  }

  /** Every fragment keeps all entries sound and their number right. */
  lemma ReadKeeps(s: Stream, key: Key, f: Fragment, now: int)
    requires Sound(s) && f.current <= f.last && f.data != []
    ensures Sound(Read(s, key, f, now).0)
  {
    hide Accept, Entry, EntOk;
    EntryOk(s, key, f.last, now);
    var e := Entry(s, key, f.last, now);
    if e.last == f.last {
      EntSize(e);
      AcceptKeeps(e, f);
      MapSizes(s.ents, key, if Accept(e, f).0.Some? then Accept(e, f).0.value else e);
    }
  }

  /** Reading fails only if fragments of one container disagree about their number. */
  lemma ReadAborts(s: Stream, key: Key, f: Fragment, now: int)
    requires Sound(s) && f.current <= f.last && f.data != []
    ensures Read(s, key, f, now).1 == Abort <==> key in s.ents && s.ents[key].last != f.last
  {
    EntryOk(s, key, f.last, now);
    var e := Entry(s, key, f.last, now);
    if e.last == f.last {
      AcceptKeeps(e, f);
    }
  }

  lemma MapSizes(m: map<Key, Ent>, key: Key, e: Ent)
    ensures |m[key := e]| == |m| + (if key in m then 0 else 1)
    ensures |m - {key}| == |m| - (if key in m then 1 else 0)
  {
    assert m.Keys == (m - {key}).Keys + (if key in m then {key} else {});
    assert m[key := e].Keys == (m - {key}).Keys + {key};
  }
}
