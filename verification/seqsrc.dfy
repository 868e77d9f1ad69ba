/** Counting received and lost containers by their sequence numbers. */
module SeqSrc {
  import opened Words

  const GC_INTERVAL := 120
  const MAX_DELTA := 1048576

  /** What identifies a source: the stream's own identifier, with the address it comes from. */
  datatype Key =
    | Inet(id: nat, port: nat, ip4: seq<Byte>)
    | Inet6(id: nat, port: nat, ip6: seq<Byte>)
    | Unspec(id: nat)

  datatype Counts = Counts(sequence: Word32, id: nat, count: nat, dropped: nat, init: bool)

  const NewCounts := Counts(0, 0, 0, 0, true)

  // ---------- The code ----------

  /** The remainder as C has it, with the sign of the dividend. */
  function Rem(x: int, m: nat): int
    requires m > 0
  {
    if x >= 0 then x % m else -((-x) % m)
  }

  /** How far `sequence` is behind `wire`, around 32 bits. */
  function Delta(wire: Word32, sequence: Word32): int {
    var delta := Rem(wire - sequence, 0x1_0000_0000);
    if delta < 0 then delta + 0x1_0000_0000 else delta
  }

  function Reset(c: Counts): Counts {
    c.(sequence := 0, count := 0, dropped := 0)
  }

  /** The counts after a container, and how many were lost before it. */
  function Update(c: Counts, id: nat, wire: Word32): (r: (Counts, nat))
    ensures r.1 <= MAX_DELTA
  {
    var c := if c.id == id then c else if c.init then c.(id := id) else Reset(c.(id := id)).(init := true);
    var c := c.(count := c.count + 1);
    var delta := Delta(wire, c.sequence);
    var (c, drop) :=
      if c.sequence == wire || c.init then (c, 0)
      else if delta > MAX_DELTA then (Reset(c), 0)
      else (c.(dropped := c.dropped + delta), delta);
    (c.(init := false, sequence := Add(wire, 1)), drop)
  }

  // ---------- What is counted ----------

  function Wire(s: nat): Word32 {
    Low32(s)
  }

  /** The counts after the containers with the given sequence numbers, not wrapped. */
  ghost function After(c: Counts, id: nat, ss: seq<nat>): Counts {
    if ss == [] then c else Update(After(c, id, ss[..|ss| - 1]), id, Wire(ss[|ss| - 1])).0
  }

  /** The sum of the losses that were reported. */
  ghost function Reported(c: Counts, id: nat, ss: seq<nat>): nat {
    if ss == [] then 0
    else
      var m := |ss| - 1;
      Reported(c, id, ss[..m]) + Update(After(c, id, ss[..m]), id, Wire(ss[m])).1
  }

  ghost predicate Increasing(ss: seq<nat>) {
    forall i, j :: 0 <= i < j < |ss| ==> ss[i] < ss[j]
  }

  /** No more than 1048576 are lost at once. */
  ghost predicate SmallGaps(ss: seq<nat>) {
    forall i, j :: 0 <= i < j < |ss| && j == i + 1 ==> ss[j] - ss[i] - 1 <= MAX_DELTA
  }

  lemma WireDelta(s: nat, t: nat)
    requires s < t
    ensures Add(Wire(s), 1) == Wire(s + 1)
    ensures Delta(Wire(t), Wire(s + 1)) == (t - s - 1) % 0x1_0000_0000
    ensures Wire(t) == Wire(s + 1) <==> (t - s - 1) % 0x1_0000_0000 == 0
  {
    var m := 0x1_0000_0000;
    var a, b := Wire(t), Wire(s + 1);
    assert t == m * (t / m) + a && s + 1 == m * ((s + 1) / m) + b;
    var q := t / m - (s + 1) / m;
    assert t - s - 1 == m * q + (a - b);
    if a >= b {
      assert (t - s - 1) % m == a - b;
    } else {
      assert t - s - 1 == m * (q - 1) + (a - b + m);
      assert (t - s - 1) % m == a - b + m;
    }
  }

  lemma SmallGapsPrefix(ss: seq<nat>)
    requires |ss| >= 2
    ensures SmallGaps(ss) <==> SmallGaps(ss[..|ss| - 1]) && ss[|ss| - 1] - ss[|ss| - 2] - 1 <= MAX_DELTA
  {
    var m := |ss| - 1;
    if SmallGaps(ss[..m]) && ss[m] - ss[m - 1] - 1 <= MAX_DELTA {
      forall i, j | 0 <= i < j < |ss| && j == i + 1
        ensures ss[j] - ss[i] - 1 <= MAX_DELTA
      {
        if j < m { assert ss[..m][j] - ss[..m][i] - 1 <= MAX_DELTA; }
      }
    }
  }

  /** One container after another of the same source. */
  lemma UpdateNext(c: Counts, id: nat, s: nat, t: nat)
    requires c.id == id && !c.init && c.sequence == Wire(s + 1) && s < t
    ensures var (r, drop) := Update(c, id, Wire(t)); var d := (t - s - 1) % 0x1_0000_0000;
            && r.id == id && !r.init && r.sequence == Wire(t + 1)
            && (d <= MAX_DELTA ==> r.count == c.count + 1 && r.dropped == c.dropped + d && drop == d)
            && (d > MAX_DELTA ==> r.count == 0 && r.dropped == 0)
  {
    WireDelta(s, t);
    WireNext(t);
  }

  /** Counting starts with the next container of the identifier: the source is new, or it comes with
  an identifier that it did not have before. */
  predicate StartsAnew(c: Counts, id: nat) {
    (c.init && c.count == 0 && c.dropped == 0) || (!c.init && c.id != id)
  }

  lemma UpdateFirst(c: Counts, id: nat, s: nat)
    requires StartsAnew(c, id)
    ensures var (r, drop) := Update(c, id, Wire(s));
            r.id == id && !r.init && r.sequence == Wire(s + 1) && r.count == 1 && r.dropped == 0 && drop == 0
  {
    WireNext(s);
  }

  /** Received and lost containers together are all that were sent, over any number of wraparounds,
  exactly if no more than 1048576 were ever lost at once; otherwise they are fewer. */
  lemma {:induction false} Accounting(c: Counts, id: nat, ss: seq<nat>)
    requires StartsAnew(c, id) && ss != [] && Increasing(ss)
    ensures var r := After(c, id, ss); var last := ss[|ss| - 1];
            && r.id == id && !r.init && r.sequence == Wire(last + 1)
            && r.count + r.dropped <= last - ss[0] + 1
            && (r.count + r.dropped == last - ss[0] + 1 <==> SmallGaps(ss))
            && (SmallGaps(ss) ==> r.count == |ss| && r.dropped == Reported(c, id, ss))
    decreases |ss|
  {
    hide Update, Wire;
    var m := |ss| - 1;
    var last := ss[m];
    if m == 0 {
      assert ss[..0] == [];
      UpdateFirst(c, id, last);
    } else {
      Accounting(c, id, ss[..m]);
      UpdateNext(After(c, id, ss[..m]), id, ss[m - 1], last);
      SmallGapsPrefix(ss);
      Remainder(last - ss[m - 1] - 1);
    }
  }

  /** The containers missing between others, as far as they are told from an implausible gap. */
  function Missing(s: nat, t: nat): nat
    requires s < t
  {
    var gap := (t - s - 1) % 0x1_0000_0000;
    if gap <= 1048576 then gap else 0
  }

  ghost function AllMissing(ss: seq<nat>): nat
    requires Increasing(ss)
  {
    if |ss| < 2 then 0 else AllMissing(ss[..|ss| - 1]) + Missing(ss[|ss| - 2], ss[|ss| - 1])
  }

  /** What is reported as lost, over any run: every gap modulo 2^32, but nothing for those of more
  than 1048576. */
  lemma {:induction false} ReportedIsMissing(c: Counts, id: nat, ss: seq<nat>)
    requires StartsAnew(c, id) && Increasing(ss)
    ensures Reported(c, id, ss) == AllMissing(ss)
    decreases |ss|
  {
    hide Wire, Missing;
    var m := |ss| - 1;
    if m == 0 {
      assert ss[..0] == [];
      UpdateFirst(c, id, ss[0]);
    } else if m > 0 {
      hide Update;
      ReportedIsMissing(c, id, ss[..m]);
      Accounting(c, id, ss[..m]);
      MissingIsReported(After(c, id, ss[..m]), id, ss[m - 1], ss[m]);
    }
  }

  lemma MissingIsReported(c: Counts, id: nat, s: nat, t: nat)
    requires c.id == id && !c.init && c.sequence == Wire(s + 1) && s < t
    ensures Update(c, id, Wire(t)).1 == Missing(s, t)
  {
    WireDelta(s, t);
    hide Delta;
  }

  lemma WireNext(s: nat)
    ensures Add(Wire(s), 1) == Wire(s + 1)
  {
  }

  lemma Remainder(x: nat)
    ensures x % 0x1_0000_0000 <= x && (x <= MAX_DELTA ==> x % 0x1_0000_0000 == x)
    ensures x % 0x1_0000_0000 == x <==> x < 0x1_0000_0000
  {
  }

  /** After an implausible gap even the container that was received is not counted. */
  lemma ResetForgetsOne()
    ensures var r := After(NewCounts, 0, [0, MAX_DELTA + 2]); r.count == 0 && r.dropped == 0
  {
    var ss: seq<nat> := [0, MAX_DELTA + 2];
    assert ss[..1] == [0];
    assert ss[..1][..0] == [];
  }

  // ---------- The sources of a stream ----------

  class Source {
    const key: Key
    var counts: Counts
    var last: int

    constructor (key: Key)
      ensures this.key == key && counts == NewCounts
    {
      this.key := key;
      counts, last := NewCounts, 0;
    }

    /** Takes note of a container, and gives the number lost before it. */
    method Count(id: nat, wire: Word32) returns (drop: nat)
      modifies this`counts
      ensures (counts, drop) == Update(old(counts), id, wire)
    {
      drop := 0;
      if counts.id != id {
        counts := counts.(id := id);
        if !counts.init {
          counts := Reset(counts).(init := true);
        }
      }
      counts := counts.(count := counts.count + 1);
      if counts.sequence != wire && !counts.init {
        var delta := Rem(wire - counts.sequence, 0x1_0000_0000);
        if delta < 0 {
          delta := delta + 0x1_0000_0000;
        }
        if delta > MAX_DELTA {
          counts := Reset(counts);
        } else {
          drop := delta;
          counts := counts.(dropped := counts.dropped + delta);
        }
      }
      counts := counts.(init := false, sequence := Add(wire, 1));
    }
  }

  ghost predicate UniqueKeys(list: seq<Source>) {
    forall i, j :: 0 <= i < j < |list| ==> list[i].key != list[j].key
  }

  /** The sources heard from lately. */
  function Recent(list: seq<Source>, now: int): seq<Source>
    reads list
  {
    if list == [] then []
    else Recent(list[..|list| - 1], now) + if list[|list| - 1].last < now - GC_INTERVAL then [] else [list[|list| - 1]]
  }

  lemma {:induction false} RecentIn(list: seq<Source>, now: int, x: Source)
    ensures x in Recent(list, now) <==> x in list && now - x.last <= 120
  {
    if list != [] {
      var m := |list| - 1;
      RecentIn(list[..m], now, x);
      assert list == list[..m] + [list[m]];
    }
  }

  lemma RecentAll(list: seq<Source>, now: int)
    ensures forall x :: x in list ==> (x in Recent(list, now) <==> now - x.last <= 120)
  {
    forall x | x in list
      ensures x in Recent(list, now) <==> now - x.last <= 120
    {
      RecentIn(list, now, x);
    }
  }

  lemma UniquePrefix(list: seq<Source>, i: nat)
    requires UniqueKeys(list) && i <= |list|
    ensures UniqueKeys(list[..i])
  {
  }

  lemma FrontOnly(list: seq<Source>, i: nat)
    requires UniqueKeys(list) && i < |list|
    ensures forall x :: x in list[..i] ==> x != list[i] && x !in list[i + 1..]
  {
    forall x | x in list[..i]
      ensures x != list[i] && x !in list[i + 1..]
    {
      var j :| 0 <= j < i && list[j] == x;
    }
  }

  lemma {:induction false} RecentUnique(list: seq<Source>, now: int)
    requires UniqueKeys(list)
    ensures UniqueKeys(Recent(list, now)) && forall x :: x in Recent(list, now) ==> x in list
  {
    if list != [] {
      var m := |list| - 1;
      RecentUnique(list[..m], now);
      forall x | x in Recent(list, now)
        ensures x in list
      {
        RecentIn(list, now, x);
      }
      UniqueEnd(list[..m], Recent(list[..m], now), list[m]);
    }
  }

  /** One source moved to the front, some of those before it left out. */
  lemma UniqueFront(list: seq<Source>, i: nat, kept: seq<Source>)
    requires UniqueKeys(list) && i < |list| && UniqueKeys(kept) && forall x :: x in kept ==> x in list[..i]
    ensures UniqueKeys([list[i]] + kept + list[i + 1..])
  {
    var after := [list[i]] + kept + list[i + 1..];
    forall j, k | 0 <= j < k < |after|
      ensures after[j].key != after[k].key
    {
      var j' := Before(list, i, kept, j);
      var k' := Before(list, i, kept, k);
      assert j' != k' || 0 < j < k <= |kept|;
      if j' < k' {
        assert list[j'].key != list[k'].key;
      } else if k' < j' {
        assert list[k'].key != list[j'].key;
      }
    }
  }

  /** Where an element was. */
  lemma Before(list: seq<Source>, i: nat, kept: seq<Source>, j: nat) returns (k: nat)
    requires i < |list| && forall x :: x in kept ==> x in list[..i]
    requires j < |[list[i]] + kept + list[i + 1..]|
    ensures k < |list| && ([list[i]] + kept + list[i + 1..])[j] == list[k]
    ensures if j == 0 then k == i else if j <= |kept| then k < i else k == j - |kept| + i
  {
    if j == 0 {
      k := i;
    } else if j <= |kept| {
      assert kept[j - 1] in kept;
      k :| 0 <= k < i && list[k] == kept[j - 1];
    } else {
      k := j - |kept| + i;
    }
  }

  lemma UniqueEnd(list: seq<Source>, kept: seq<Source>, src: Source)
    requires UniqueKeys(kept) && (forall x :: x in kept ==> x in list)
    requires forall j :: 0 <= j < |list| ==> list[j].key != src.key
    ensures UniqueKeys(kept + [src])
  {
    forall x | x in kept
      ensures x.key != src.key
    {
      assert x in list;
      var j :| 0 <= j < |list| && list[j] == x;
    }
  }

  class Sources {
    var list: seq<Source>

    constructor ()
      ensures list == []
    {
      list := [];
    }

    /** Goes along the list up to the source with a key; what was met and is not too old is kept. */
    method PassBy(key: Key, now: int) returns (i: nat, kept: seq<Source>)
      ensures i <= |list| && (i < |list| ==> list[i].key == key)
      ensures forall j :: 0 <= j < i ==> list[j].key != key
      ensures kept == Recent(list[..i], now)
    {
      i, kept := 0, [];
      assert list[..0] == [];
      while i < |list| && list[i].key != key
        invariant 0 <= i <= |list| && kept == Recent(list[..i], now)
        invariant forall j :: 0 <= j < i ==> list[j].key != key
      {
        assert list[..i + 1][..i] == list[..i];
        if !(list[i].last < now - GC_INTERVAL) {
          kept := kept + [list[i]];
        }
        i := i + 1;
      }
    }

    /** The source with a key, at the front of the list from now on, or a new one at its end. The
    sources before it that have been silent for more than two minutes are dropped. */
    method Get(key: Key, now: int) returns (src: Source, ghost at: nat)
      requires UniqueKeys(list)
      modifies this, list
      ensures UniqueKeys(list) && src in list && src.key == key && src.last == now
      ensures at <= |old(list)| && forall i :: 0 <= i < at ==> old(list)[i].key != key
      ensures at < |old(list)| ==>
                && src == old(list)[at] && src.counts == old(src.counts)
                && list == [src] + old(Recent(list[..at], now)) + old(list)[at + 1..]
      ensures at == |old(list)| ==>
                && fresh(src) && src.counts == NewCounts
                && list == old(Recent(list, now)) + [src]
      ensures forall x :: x in old(list)[..at] ==> (x in list <==> now - old(x.last) <= 120)
      ensures forall x :: x in old(list) && x != src ==> x.counts == old(x.counts) && x.last == old(x.last)
    {
      hide UniqueKeys;
      var i, kept := PassBy(key, now);
      at := i;
      UniquePrefix(list, i);
      RecentUnique(list[..i], now);
      RecentAll(list[..i], now);
      if i == |list| {
        assert list[..i] == list;
        src := new Source(key);
        UniqueEnd(list, kept, src);
        list := kept + [src];
      } else {
        src := list[i];
        UniqueFront(list, i, kept);
        FrontOnly(list, i);
        list := [src] + kept + list[i + 1..];
      }
      src.last := now;
    }
  }
}
