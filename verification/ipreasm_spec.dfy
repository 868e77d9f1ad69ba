/** Fragments of one IP packet: the sorted list they are kept in, and the number of holes in it. */
module ReasmSpec {
  import opened Wrappers
  import opened Words

  /** A fragment: where its payload goes, and the packet it came in. Never changed once parsed. */
  class Frag {
    const offset: nat
    const len: nat
    const dataOffset: nat // the payload starts here in the packet
    const data: seq<Byte>
    const lastNxt: nat    // IPv6: where the type of the header after the fragment header is put
    const nxt: Byte       // IPv6: that type

    constructor (offset: nat, len: nat, dataOffset: nat, data: seq<Byte>, lastNxt: nat, nxt: Byte)
      ensures this.offset == offset && this.len == len && this.dataOffset == dataOffset
      ensures this.data == data && this.lastNxt == lastNxt && this.nxt == nxt
    {
      this.offset, this.len, this.dataOffset := offset, len, dataOffset;
      this.data, this.lastNxt, this.nxt := data, lastNxt, nxt;
    }

    function End(): nat {
      offset + len
    }

    /** The payload lies within the packet. */
    predicate Sound() {
      dataOffset + len <= |data|
    }

    function Payload(): seq<Byte>
      requires Sound()
    {
      data[dataOffset..dataOffset + len]
    }
  }

  predicate IsHead(f: Frag) {
    f.offset == 0 && f.len == 0
  }

  /** The state of an active entry. `len` is 0 until the last fragment has come. The list starts
  with an empty head. `bare` says whether the last fragment was empty and came before its left
  neighbour; the code does not keep it. */
  datatype Asm = Asm(len: nat, holes: int, frags: seq<Frag>, count: nat, bare: bool)

  function Fresh(head: Frag): Asm {
    Asm(0, 1, [head], 0, false)
  }

  // ---------- The code ----------

  /** The last list position whose offset is at most `offset`. */
  function Position(fs: seq<Frag>, offset: nat, i: nat): (p: nat)
    requires i < |fs|
    ensures i <= p < |fs|
    decreases |fs| - i
  {
    if i + 1 < |fs| && fs[i + 1].offset <= offset then Position(fs, offset, i + 1) else i
  }

  /** Whether a fragment is accepted, and the state after it. */
  function AddFragment(a: Asm, f: Frag, last: bool): (bool, Asm)
    requires a.frags != []
  {
    if !last && f.len % 8 != 0 then (false, a)
    else if a.len != 0 && f.End() > a.len then (false, a)
    else if last && a.len != 0 then (false, a)
    else
      var b := if last then a.(len := f.End()) else a;
      var p := Position(a.frags, f.offset, 0);
      var cur := a.frags[p];
      if cur.End() > f.offset then (false, b)
      else if p + 1 < |a.frags| && (last || f.End() > a.frags[p + 1].offset) then (false, b)
      else
        var fitLeft := cur.End() == f.offset;
        var fitRight := last || (p + 1 < |a.frags| && f.End() == a.frags[p + 1].offset);
        if f.len != 0 then
          (true, b.(
             frags := Insert(a.frags, p, f),
             holes := if fitLeft && fitRight then a.holes - 1 else if !fitLeft && !fitRight then a.holes + 1 else a.holes,
             count := a.count + 1))
        else
          (true, b.(
             holes := if last && fitLeft then a.holes - 1 else a.holes,
             bare := a.bare || (last && !fitLeft)))
  }

  predicate Complete(a: Asm) {
    a.holes == 0
  }

  // ---------- What the list is ----------

  predicate InOrder(f: Frag, g: Frag) {
    f.End() <= g.offset
  }

  /** Sorted and without overlap; only the head is empty. */
  ghost predicate Sorted(fs: seq<Frag>) {
    && fs != [] && IsHead(fs[0])
    && (forall i :: 1 <= i < |fs| ==> fs[i].len > 0)
    && (forall i, j :: 0 <= i < j < |fs| ==> InOrder(fs[i], fs[j]))
  }

  predicate Covers(f: Frag, x: nat) {
    f.offset <= x < f.End()
  }

  ghost predicate Covered(fs: seq<Frag>, x: nat) {
    exists i :: 0 <= i < |fs| && Covers(fs[i], x)
  }

  /** The end of the packet, if the last fragment has come. */
  function Limit(a: Asm): Option<nat> {
    if a.len == 0 then None else Some(a.len)
  }

  predicate Below(x: nat, limit: Option<nat>) {
    limit.None? || x < limit.value
  }

  /** Where the maximal uncovered stretches of the packet begin. */
  ghost predicate GapStart(fs: seq<Frag>, limit: Option<nat>, x: nat) {
    Below(x, limit) && !Covered(fs, x) && (x == 0 || Covered(fs, x - 1))
  }

  /** The uncovered stretches that begin at `pos` or behind a fragment of `fs`, counted. */
  function Gaps(fs: seq<Frag>, pos: nat, limit: Option<nat>): nat {
    if fs == [] then (if Below(pos, limit) then 1 else 0)
    else (if pos < fs[0].offset then 1 else 0) + Gaps(fs[1..], fs[0].End(), limit)
  }

  /** The end of the last fragment in the list. */
  function Reach(fs: seq<Frag>): nat
    requires fs != []
  {
    fs[|fs| - 1].End()
  }

  /** What holds of every active entry. */
  ghost predicate Inv(a: Asm) {
    && Sorted(a.frags)
    && |a.frags| == a.count + 1
    && (a.len != 0 ==> Reach(a.frags) <= a.len)
    && (a.len != 0 && !a.bare ==> Reach(a.frags) == a.len)
    && (a.bare ==> a.len != 0)
    && a.holes == Gaps(a.frags, 0, Limit(a)) + (if a.bare && Reach(a.frags) == a.len then 1 else 0)
  }

  lemma FreshInv(head: Frag)
    requires IsHead(head)
    ensures Inv(Fresh(head))
  {
    var fs: seq<Frag> := [head];
    assert fs[1..] == [];
    assert Gaps(fs, 0, None) == 1;
  }

  // ---------- Gaps are what they are called ----------

  ghost predicate StartFrom(fs: seq<Frag>, pos: nat, limit: Option<nat>, x: nat) {
    pos <= x && Below(x, limit) && !Covered(fs, x) && (x == pos || Covered(fs, x - 1))
  }

  /** The gap starts at or after `pos`, in a list that starts there. */
  lemma {:induction false} GapsCountStarts(fs: seq<Frag>, pos: nat, limit: Option<nat>) returns (starts: set<nat>)
    requires forall i :: 0 <= i < |fs| ==> fs[i].len > 0 && fs[i].offset >= pos
    requires forall i, j :: 0 <= i < j < |fs| ==> InOrder(fs[i], fs[j])
    requires limit.Some? ==> forall i :: 0 <= i < |fs| ==> fs[i].End() <= limit.value
    ensures forall x: nat :: x in starts <==> StartFrom(fs, pos, limit, x)
    ensures |starts| == Gaps(fs, pos, limit)
  {
    if fs == [] {
      starts := if Below(pos, limit) then {pos} else {};
    } else {
      var f, rest := fs[0], fs[1..];
      var later := GapsCountStarts(rest, f.End(), limit);
      starts := if pos < f.offset then later + {pos} else later;
      forall x: nat
        ensures x in starts <==> StartFrom(fs, pos, limit, x)
      {
        CoveredCons(fs, x);
        if x > 0 { CoveredCons(fs, x - 1); }
      }
    }
  }

  lemma CoveredCons(fs: seq<Frag>, x: nat)
    requires fs != []
    ensures Covered(fs, x) <==> Covers(fs[0], x) || Covered(fs[1..], x)
  {
    if Covered(fs[1..], x) {
      var i :| 0 <= i < |fs[1..]| && Covers(fs[1..][i], x);
      assert Covers(fs[i + 1], x);
    }
  }

  // ---------- One step ----------

  lemma {:induction false} PositionIsLast(fs: seq<Frag>, offset: nat, i: nat)
    requires i < |fs| && fs[i].offset <= offset
    ensures var p := Position(fs, offset, i);
            fs[p].offset <= offset && (p + 1 < |fs| ==> fs[p + 1].offset > offset)
    decreases |fs| - i
  {
    if i + 1 < |fs| && fs[i + 1].offset <= offset {
      PositionIsLast(fs, offset, i + 1);
    }
  }

  /** One if the stretch from `x` to `limit` is not empty. */
  function Tail(x: nat, limit: Option<nat>): nat {
    if Below(x, limit) then 1 else 0
  }

  function Between(x: nat, y: nat): nat {
    if x < y then 1 else 0
  }

  /** How the number of gaps changes when `f` is put behind entry `p`. */
  lemma {:induction false} GapsInsert(fs: seq<Frag>, pos: nat, limit: Option<nat>, p: nat, f: Frag)
    requires p < |fs|
    ensures var old_ := if p + 1 < |fs| then Between(fs[p].End(), fs[p + 1].offset) else Tail(fs[p].End(), limit);
            var new_ := if p + 1 < |fs| then Between(f.End(), fs[p + 1].offset) else Tail(f.End(), limit);
            Gaps(Insert(fs, p, f), pos, limit) + old_ ==
            Gaps(fs, pos, limit) + Between(fs[p].End(), f.offset) + new_
  {
    var gs := Insert(fs, p, f);
    if p == 0 {
      assert gs[1..] == [f] + fs[1..];
      assert ([f] + fs[1..])[1..] == fs[1..];
      assert Gaps(gs, pos, limit) == Between(pos, fs[0].offset) + Gaps(gs[1..], fs[0].End(), limit);
      assert Gaps(gs[1..], fs[0].End(), limit) == Between(fs[0].End(), f.offset) + Gaps(fs[1..], f.End(), limit);
    } else {
      GapsInsert(fs[1..], fs[0].End(), limit, p - 1, f);
      assert gs[1..] == Insert(fs[1..], p - 1, f);
    }
  }

  /** Learning where the packet ends closes the open gap if nothing is missing before the end. */
  lemma {:induction false} GapsClose(fs: seq<Frag>, pos: nat, n: nat)
    ensures Gaps(fs, pos, None) == Gaps(fs, pos, Some(n)) + 1 - Tail(if fs == [] then pos else Reach(fs), Some(n))
  {
    if fs != [] {
      GapsClose(fs[1..], fs[0].End(), n);
    }
  }

  function Insert(fs: seq<Frag>, p: nat, f: Frag): (gs: seq<Frag>)
    requires p < |fs|
    ensures |gs| == |fs| + 1
  {
    fs[..p + 1] + [f] + fs[p + 1..]
  }

  lemma SortedInsert(fs: seq<Frag>, p: nat, f: Frag, gs: seq<Frag>)
    requires Sorted(fs) && p < |fs| && f.len > 0
    requires fs[p].End() <= f.offset && (p + 1 < |fs| ==> f.End() <= fs[p + 1].offset)
    requires gs == Insert(fs, p, f)
    ensures Sorted(gs)
  {
    InsertAt(fs, p, f, 0);
    InsertPositive(fs, p, f, gs);
    InsertOrdered(fs, p, f, gs);
  }

  lemma InsertOrdered(fs: seq<Frag>, p: nat, f: Frag, gs: seq<Frag>)
    requires Sorted(fs) && p < |fs| && f.len > 0
    requires fs[p].End() <= f.offset && (p + 1 < |fs| ==> f.End() <= fs[p + 1].offset)
    requires gs == Insert(fs, p, f)
    ensures forall i, j :: 0 <= i < j < |gs| ==> InOrder(gs[i], gs[j])
  {
    hide Sorted, Insert, InOrder;
    forall i, j | 0 <= i < j < |gs|
      ensures InOrder(gs[i], gs[j])
    {
      InsertPair(fs, p, f, i, j);
    }
  }

  lemma InsertPositive(fs: seq<Frag>, p: nat, f: Frag, gs: seq<Frag>)
    requires p < |fs| && f.len > 0
    requires forall i :: 1 <= i < |fs| ==> fs[i].len > 0
    requires gs == Insert(fs, p, f)
    ensures forall i :: 1 <= i < |gs| ==> gs[i].len > 0
  {
    forall i | 1 <= i < |gs|
      ensures gs[i].len > 0
    {
      InsertAt(fs, p, f, i);
    }
  }

  lemma InsertPair(fs: seq<Frag>, p: nat, f: Frag, i: nat, j: nat)
    requires Sorted(fs) && p < |fs| && f.len > 0
    requires fs[p].End() <= f.offset && (p + 1 < |fs| ==> f.End() <= fs[p + 1].offset)
    requires i < j <= |fs|
    ensures InOrder(Insert(fs, p, f)[i], Insert(fs, p, f)[j])
  {
    InsertAt(fs, p, f, i);
    InsertAt(fs, p, f, j);
    hide Insert;
    if i < p { assert InOrder(fs[i], fs[p]); }
    if p + 1 < j - 1 { assert InOrder(fs[p + 1], fs[j - 1]); }
    if i < p + 1 < j { assert InOrder(fs[i], fs[j - 1]); }
  }

  lemma InsertAt(fs: seq<Frag>, p: nat, f: Frag, k: nat)
    requires p < |fs| && k <= |fs|
    ensures Insert(fs, p, f)[k] == if k <= p then fs[k] else if k == p + 1 then f else fs[k - 1]
  {
  }

  lemma InsertReach(fs: seq<Frag>, p: nat, f: Frag)
    requires p < |fs|
    ensures Reach(Insert(fs, p, f)) == if p + 1 == |fs| then f.End() else Reach(fs)
  {
    InsertAt(fs, p, f, |fs|);
  }

  lemma AddKeepsSorted(a: Asm, f: Frag, last: bool)
    requires Sorted(a.frags) && AddFragment(a, f, last).0
    ensures Sorted(AddFragment(a, f, last).1.frags)
  {
    var fs, p := a.frags, Position(a.frags, f.offset, 0);
    PositionIsLast(fs, f.offset, 0);
    if f.len != 0 {
      SortedInsert(fs, p, f, AddFragment(a, f, last).1.frags);
    }
  }

  lemma AddKeepsReach(a: Asm, f: Frag, last: bool)
    requires Inv(a) && AddFragment(a, f, last).0 && (last ==> f.End() > 0)
    ensures var b := AddFragment(a, f, last).1;
            && (b.len != 0 ==> Reach(b.frags) <= b.len)
            && (b.len != 0 && !b.bare ==> Reach(b.frags) == b.len)
  {
    hide Sorted, Position, Insert, Gaps;
    InsertReach(a.frags, Position(a.frags, f.offset, 0), f);
  }

  lemma FirstIsHead(fs: seq<Frag>)
    requires Sorted(fs)
    ensures fs != [] && IsHead(fs[0])
  {
  }

  lemma AddKeepsHoles(a: Asm, f: Frag, last: bool)
    requires Inv(a) && AddFragment(a, f, last).0 && (last ==> f.End() > 0)
    ensures var b := AddFragment(a, f, last).1;
            b.holes == Gaps(b.frags, 0, Limit(b)) + (if b.bare && Reach(b.frags) == b.len then 1 else 0)
  {
    hide Sorted, Position, Insert, Gaps;
    var fs, p := a.frags, Position(a.frags, f.offset, 0);
    FirstIsHead(fs);
    PositionIsLast(fs, f.offset, 0);
    InsertReach(fs, p, f);
    GapsInsert(fs, 0, Limit(AddFragment(a, f, last).1), p, f);
    GapsClose(fs, 0, f.End());
  }

  lemma AddKeepsCount(a: Asm, f: Frag, last: bool)
    requires Inv(a) && AddFragment(a, f, last).0 && (last ==> f.End() > 0)
    ensures var b := AddFragment(a, f, last).1;
            |b.frags| == b.count + 1 && (b.bare ==> b.len != 0)
  {
    hide Sorted, Position, Insert, Gaps;
  }

  /** Every accepted fragment keeps the invariant of an active entry. */
  lemma AddKeeps(a: Asm, f: Frag, last: bool)
    requires Inv(a) && AddFragment(a, f, last).0 && (last ==> f.End() > 0)
    ensures Inv(AddFragment(a, f, last).1)
  {
    hide Sorted, Gaps, Reach, AddFragment;
    AddKeepsSorted(a, f, last);
    AddKeepsReach(a, f, last);
    AddKeepsHoles(a, f, last);
    AddKeepsCount(a, f, last);
  }

  /** The fragment begins at or behind the end of `g`, or ends at or before its beginning. */
  predicate Beside(f: Frag, last: bool, g: Frag) {
    if g.offset <= f.offset then g.End() <= f.offset else !last && f.End() <= g.offset
  }

  /** When a fragment is accepted: its length is a multiple of eight unless it is the last; if the
  end of the packet is known, it is not another last one and not beyond it; and it overlaps no
  fragment that has come, nor does one that has come lie behind the last. */
  lemma AcceptedIff(a: Asm, f: Frag, last: bool)
    requires Sorted(a.frags)
    ensures AddFragment(a, f, last).0 <==>
            && (last || f.len % 8 == 0)
            && (a.len != 0 ==> !last && f.End() <= a.len)
            && forall j :: 0 <= j < |a.frags| ==> Beside(f, last, a.frags[j])
  {
    var fs := a.frags;
    var p := Position(fs, f.offset, 0);
    PositionIsLast(fs, f.offset, 0);
    PositionSplits(fs, f.offset, p);
    NeighboursDecide(fs, f, last, p);
    hide Sorted, Position, Beside;
  }

  lemma PositionSplits(fs: seq<Frag>, offset: nat, p: nat)
    requires Sorted(fs) && p < |fs| && fs[p].offset <= offset && (p + 1 < |fs| ==> fs[p + 1].offset > offset)
    ensures forall j :: 0 <= j < |fs| ==> (fs[j].offset <= offset <==> j <= p)
  {
    forall j | 0 <= j < |fs|
      ensures fs[j].offset <= offset <==> j <= p
    {
      if j < p {
        assert InOrder(fs[j], fs[p]);
      } else if j > p + 1 {
        assert InOrder(fs[p + 1], fs[j]);
      }
    }
  }

  lemma NeighboursDecide(fs: seq<Frag>, f: Frag, last: bool, p: nat)
    requires Sorted(fs) && p < |fs| && forall j :: 0 <= j < |fs| ==> (fs[j].offset <= f.offset <==> j <= p)
    ensures (forall j :: 0 <= j < |fs| ==> Beside(f, last, fs[j])) <==>
            fs[p].End() <= f.offset && (p + 1 < |fs| ==> !last && f.End() <= fs[p + 1].offset)
  {
    if fs[p].End() <= f.offset && (p + 1 < |fs| ==> !last && f.End() <= fs[p + 1].offset) {
      forall j | 0 <= j < |fs|
        ensures Beside(f, last, fs[j])
      {
        if j < p {
          assert InOrder(fs[j], fs[p]);
        } else if j > p + 1 {
          assert InOrder(fs[p + 1], fs[j]);
        }
      }
    } else {
      assert Beside(f, last, fs[p]) <==> fs[p].End() <= f.offset;
      assert p + 1 < |fs| ==> (Beside(f, last, fs[p + 1]) <==> !last && f.End() <= fs[p + 1].offset);
    }
  }

  // ---------- What completion means ----------

  /** `holes` is at least the number of maximal gaps, and exceeds it only if the last fragment was
  empty, came before its left neighbour, and that neighbour is there now. */
  lemma HolesCountGaps(a: Asm) returns (starts: set<nat>)
    requires Inv(a)
    ensures forall x: nat :: x in starts <==> GapStart(a.frags, Limit(a), x)
    ensures a.holes >= |starts|
    ensures a.holes == |starts| <==> !(a.bare && Reach(a.frags) == a.len)
  {
    var fs := a.frags[1..];
    AllEnd(a.frags, Limit(a));
    starts := GapsCountStarts(fs, 0, Limit(a));
    forall x: nat
      ensures x in starts <==> GapStart(a.frags, Limit(a), x)
    {
      CoveredCons(a.frags, x);
      if x > 0 { CoveredCons(a.frags, x - 1); }
    }
  }

  lemma AllEnd(fs: seq<Frag>, limit: Option<nat>)
    requires Sorted(fs) && (limit.Some? ==> Reach(fs) <= limit.value)
    ensures limit.Some? ==> forall i :: 0 <= i < |fs| ==> fs[i].End() <= limit.value
  {
    forall i | 0 <= i < |fs| - 1
      ensures fs[i].End() <= Reach(fs)
    {
      assert InOrder(fs[i], fs[|fs| - 1]);
    }
  }

  ghost predicate AllCovered(a: Asm) {
    forall x :: 0 <= x < a.len ==> Covered(a.frags, x)
  }

  /** A complete entry has every byte of a packet whose end is known. */
  lemma CompleteIsCovered(a: Asm)
    requires Inv(a) && Complete(a)
    ensures a.len != 0 && AllCovered(a) && !a.bare
  {
    hide Sorted, Covered, Gaps;
    var starts := HolesCountGaps(a);
    assert starts == {};
    if a.len == 0 {
      var x := FirstGap(a.frags);
      assert false;
    } else {
      forall x | 0 <= x < a.len
        ensures Covered(a.frags, x)
      {
        NoGapBefore(a.frags, Limit(a), x);
      }
      if a.bare {
        BareHasHole(a);
      }
    }
  }

  /** Below the limit and without gap starts, everything is covered. */
  lemma {:induction false} NoGapBefore(fs: seq<Frag>, limit: Option<nat>, x: nat)
    requires Below(x, limit) && forall y: nat :: !GapStart(fs, limit, y)
    ensures Covered(fs, x)
  {
    if x > 0 {
      NoGapBefore(fs, limit, x - 1);
    }
    assert !GapStart(fs, limit, x);
  }

  /** While the end is unknown, a gap begins where the list stops. */
  lemma FirstGap(fs: seq<Frag>) returns (x: nat)
    requires Sorted(fs)
    ensures GapStart(fs, None, x)
  {
    x := Reach(fs);
    AllEnd(fs, Some(x));
    if |fs| > 1 {
      assert Covers(fs[|fs| - 1], x - 1);
    }
  }

  /** An entry whose last fragment was empty and early never completes. */
  lemma BareHasHole(a: Asm)
    requires Inv(a) && a.bare
    ensures a.holes > 0
  {
    if Reach(a.frags) < a.len {
      hide Sorted;
      GapsClose(a.frags, 0, a.len);
      OpenGaps(a.frags, 0);
    }
  }

  lemma {:induction false} OpenGaps(fs: seq<Frag>, pos: nat)
    ensures Gaps(fs, pos, None) >= 1
  {
    if fs != [] {
      OpenGaps(fs[1..], fs[0].End());
    }
  }

  /** And every covered entry is complete, unless its last fragment was empty and early. */
  lemma CoveredIsComplete(a: Asm)
    requires Inv(a) && a.len != 0 && AllCovered(a) && !a.bare
    ensures Complete(a)
  {
    hide Sorted, Gaps, Reach;
    var starts := HolesCountGaps(a);
    assert starts == {};
  }

  /** Exactly when an entry is complete: its end is known, every byte before it has come, and its
  last fragment was not both empty and ahead of its left neighbour. */
  lemma CompleteIff(a: Asm)
    requires Inv(a)
    ensures Complete(a) <==> a.len != 0 && AllCovered(a) && !a.bare
  {
    hide Inv, Complete, AllCovered;
    if Complete(a) {
      CompleteIsCovered(a);
    } else if a.len != 0 && AllCovered(a) && !a.bare {
      CoveredIsComplete(a);
    }
  }

  /** Once that has happened, no further fragment completes the entry. */
  lemma BareForever(a: Asm, f: Frag, last: bool)
    requires Inv(a) && a.bare && AddFragment(a, f, last).0 && (last ==> f.End() > 0)
    ensures AddFragment(a, f, last).1.bare && !Complete(AddFragment(a, f, last).1)
  {
    hide Inv, Position, Insert;
    AddKeeps(a, f, last);
    BareHasHole(AddFragment(a, f, last).1);
  }

  /** It does happen: 8 bytes and an empty last fragment complete the entry in that order only. */
  lemma EarlyEmptyLast(head: Frag, piece: Frag, end: Frag)
    requires IsHead(head) && piece.offset == 0 && piece.len == 8 && end.offset == 8 && end.len == 0
    ensures var a := AddFragment(AddFragment(Fresh(head), piece, false).1, end, true).1;
            Complete(a)
    ensures var a := AddFragment(AddFragment(Fresh(head), end, true).1, piece, false).1;
            a.len == 8 && AllCovered(a) && !Complete(a)
  {
    var a := AddFragment(AddFragment(Fresh(head), end, true).1, piece, false).1;
    assert Position([head], 0, 0) == 0;
    assert a.frags == [head, piece];
    forall x | 0 <= x < a.len
      ensures Covered(a.frags, x)
    {
      assert Covers(a.frags[1], x);
    }
    var b := AddFragment(Fresh(head), piece, false).1;
    assert b.frags == [head, piece];
    assert Position(b.frags, 8, 0) == 1;
  }
}
