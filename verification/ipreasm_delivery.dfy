/** A packet cut into fragments is put together again, in whatever order they come. */
module ReasmDelivery {
  import opened ReasmSpec
  import opened Arrivals

  /** The pieces of a payload of `total` bytes: none empty, all but the last of a multiple of
  8 bytes, each beginning where the one before ends. */
  ghost predicate Cut(fs: seq<Frag>, total: nat) {
    && fs != [] && fs[0].offset == 0 && fs[|fs| - 1].End() == total
    && (forall i :: 0 <= i < |fs| ==> fs[i].len > 0)
    && (forall i :: 0 <= i < |fs| - 1 ==> fs[i].len % 8 == 0)
    && (forall i, j :: 0 <= i < j < |fs| && j == i + 1 ==> fs[i].End() == fs[j].offset)
  }

  /** Adding the pieces in the given order, until one is refused. */
  ghost function Feed(head: Frag, fs: seq<Frag>, order: seq<nat>): (bool, Asm)
    requires forall k :: 0 <= k < |order| ==> order[k] < |fs|
    ensures Feed(head, fs, order).1.frags != []
  {
    if order == [] then (true, Fresh(head))
    else
      var m := |order| - 1;
      var (ok, a) := Feed(head, fs, order[..m]);
      if !ok then (false, a) else AddFragment(a, fs[order[m]], order[m] == |fs| - 1)
  }

  lemma {:induction false} CutInOrder(fs: seq<Frag>, total: nat, i: nat, j: nat)
    requires Cut(fs, total) && i < j < |fs|
    ensures InOrder(fs[i], fs[j])
    decreases j
  {
    if i + 1 < j {
      CutInOrder(fs, total, i, j - 1);
      assert fs[j - 1].End() == fs[j].offset;
    } else {
      assert fs[i].End() == fs[j].offset;
    }
  }

  lemma CutEnds(fs: seq<Frag>, total: nat, i: nat)
    requires Cut(fs, total) && i < |fs|
    ensures fs[i].End() <= total && (fs[i].End() == total ==> i == |fs| - 1)
  {
    if i < |fs| - 1 {
      CutInOrder(fs, total, i, |fs| - 1);
    }
  }

  /** The list holds the pieces that have come and nothing else. */
  ghost predicate Holds(a: Asm, fs: seq<Frag>, total: nat, order: seq<nat>) {
    && Inv(a)
    && !a.bare
    && a.len == (if |fs| - 1 in order then total else 0)
    && (forall k :: 1 <= k < |a.frags| ==> exists i :: i in order && i < |fs| && a.frags[k] == fs[i])
    && (forall i :: i in order && i < |fs| ==> fs[i] in a.frags)
  }

  /** A piece that has not come yet fits between those that have. */
  lemma Accepts(a: Asm, fs: seq<Frag>, total: nat, order: seq<nat>, i: nat)
    requires Cut(fs, total) && Holds(a, fs, total, order) && i < |fs| && i !in order
    ensures AddFragment(a, fs[i], i == |fs| - 1).0
  {
    hide Inv, Gaps, Cut;
    var f := fs[i];
    HeadFirst(a);
    var p := Position(a.frags, f.offset, 0);
    CutFacts(fs, total, i);
    PositionIsLast(a.frags, f.offset, 0);
    if p > 0 {
      var j :| j in order && j < |fs| && a.frags[p] == fs[j];
      CutFacts(fs, total, j);
      if i < j { CutInOrder(fs, total, i, j); } else { CutInOrder(fs, total, j, i); }
    }
    if p + 1 < |a.frags| {
      var j :| j in order && j < |fs| && a.frags[p + 1] == fs[j];
      CutFacts(fs, total, j);
      if i < j { CutInOrder(fs, total, i, j); } else { CutInOrder(fs, total, j, i); }
    }
  }

  /** A piece that has come already is refused. */
  lemma Refuses(a: Asm, fs: seq<Frag>, total: nat, order: seq<nat>, i: nat)
    requires Cut(fs, total) && Holds(a, fs, total, order) && i < |fs| && i in order
    ensures a.frags != [] && !AddFragment(a, fs[i], i == |fs| - 1).0
  {
    hide Gaps, Cut;
    var f := fs[i];
    CutFacts(fs, total, i);
    CutFacts(fs, total, |fs| - 1);
    var k :| 0 <= k < |a.frags| && a.frags[k] == f;
    PositionIsAt(a.frags, k);
  }

  /** Among fragments in order that are not empty each has its own position. */
  lemma PositionIsAt(fs: seq<Frag>, k: nat)
    requires Sorted(fs) && k < |fs| && fs[k].len > 0
    ensures Position(fs, fs[k].offset, 0) == k
  {
    PositionIsLast(fs, fs[k].offset, 0);
    forall j | 0 <= j < |fs|
      ensures if j <= k then fs[j].offset <= fs[k].offset else fs[j].offset > fs[k].offset
    {
      if j < k {
        assert InOrder(fs[j], fs[k]);
      } else if k < j {
        assert InOrder(fs[k], fs[j]);
      }
    }
  }

  lemma CutFacts(fs: seq<Frag>, total: nat, i: nat)
    requires Cut(fs, total) && i < |fs|
    ensures fs[i].len > 0 && (i < |fs| - 1 ==> fs[i].len % 8 == 0)
    ensures fs[i].End() <= total && (i == |fs| - 1 ==> fs[i].End() == total)
  {
    CutEnds(fs, total, i);
  }

  lemma HeadFirst(a: Asm)
    requires Inv(a)
    ensures a.frags != [] && IsHead(a.frags[0])
  {
  }

  lemma AcceptedHolds(a: Asm, fs: seq<Frag>, total: nat, order: seq<nat>, i: nat)
    requires Cut(fs, total) && Holds(a, fs, total, order) && i < |fs| && i !in order
    requires AddFragment(a, fs[i], i == |fs| - 1).0
    ensures Holds(AddFragment(a, fs[i], i == |fs| - 1).1, fs, total, order + [i])
  {
    hide Inv, Cut, Position;
    var f, last := fs[i], i == |fs| - 1;
    CutFacts(fs, total, i);
    AddKeeps(a, f, last);
    HeadFirst(a);
    var b := AddFragment(a, f, last).1;
    var p := Position(a.frags, f.offset, 0);
    forall k | 1 <= k < |b.frags|
      ensures exists j :: j in order + [i] && j < |fs| && b.frags[k] == fs[j]
    {
      InsertAt(a.frags, p, f, k);
      if k != p + 1 {
        var k' := if k <= p then k else k - 1;
        var j :| j in order && j < |fs| && a.frags[k'] == fs[j];
        assert j in order + [i];
      } else {
        assert i in order + [i];
      }
    }
    forall j | j in order + [i] && j < |fs|
      ensures fs[j] in b.frags
    {
      if j == i {
        InsertAt(a.frags, p, f, p + 1);
      } else {
        var k :| 0 <= k < |a.frags| && a.frags[k] == fs[j];
        InsertAt(a.frags, p, f, if k <= p then k else k + 1);
      }
    }
  }

  lemma FreshHolds(head: Frag, fs: seq<Frag>, total: nat)
    requires IsHead(head)
    ensures Holds(Fresh(head), fs, total, [])
  {
    FreshInv(head);
  }

  /** No piece is ever refused. */
  lemma {:induction false} FeedHolds(head: Frag, fs: seq<Frag>, total: nat, order: seq<nat>)
    requires IsHead(head) && Cut(fs, total) && Distinct(order, |fs|)
    ensures Feed(head, fs, order).0 && Holds(Feed(head, fs, order).1, fs, total, order)
  {
    hide Holds, AddFragment, Cut;
    if order == [] {
      FreshHolds(head, fs, total);
    } else {
      var m := |order| - 1;
      FeedHolds(head, fs, total, order[..m]);
      var a := Feed(head, fs, order[..m]).1;
      Accepts(a, fs, total, order[..m], order[m]);
      AcceptedHolds(a, fs, total, order[..m], order[m]);
      assert order == order[..m] + [order[m]];
    }
  }

  /** An entry is complete exactly when every piece has come. */
  lemma CompleteIffAll(a: Asm, fs: seq<Frag>, total: nat, order: seq<nat>)
    requires Cut(fs, total) && Holds(a, fs, total, order)
    ensures Complete(a) <==> forall i :: 0 <= i < |fs| ==> i in order
  {
    hide Inv, Cut, Complete;
    if Complete(a) {
      CompleteIsCovered(a);
      forall i | 0 <= i < |fs|
        ensures i in order
      {
        PieceCame(a, fs, total, order, i);
      }
    }
    if forall i :: 0 <= i < |fs| ==> i in order {
      forall x | 0 <= x < total
        ensures Covered(a.frags, x)
      {
        ByteCame(a, fs, total, order, x);
      }
      CutNotEmpty(fs, total);
      CoveredIsComplete(a);
    }
  }

  lemma CutNotEmpty(fs: seq<Frag>, total: nat)
    requires Cut(fs, total)
    ensures fs != [] && total > 0
  {
    CutFacts(fs, total, |fs| - 1);
  }

  lemma PieceCame(a: Asm, fs: seq<Frag>, total: nat, order: seq<nat>, i: nat)
    requires Cut(fs, total) && Holds(a, fs, total, order) && i < |fs|
    requires a.len != 0 && AllCovered(a)
    ensures i in order
  {
    hide Inv, Cut;
    var x := fs[i].offset;
    CutFacts(fs, total, i);
    assert Covered(a.frags, x);
    var k :| 0 <= k < |a.frags| && Covers(a.frags[k], x);
    HeadFirst(a);
    var j :| j in order && j < |fs| && a.frags[k] == fs[j];
    if j < i {
      CutInOrder(fs, total, j, i);
    } else if i < j {
      CutInOrder(fs, total, i, j);
    }
  }

  lemma ByteCame(a: Asm, fs: seq<Frag>, total: nat, order: seq<nat>, x: nat)
    requires Cut(fs, total) && Holds(a, fs, total, order) && x < total
    requires forall i :: 0 <= i < |fs| ==> i in order
    ensures Covered(a.frags, x)
  {
    var i := PieceAt(fs, total, x, |fs| - 1);
    var k :| 0 <= k < |a.frags| && a.frags[k] == fs[i];
    assert Covers(a.frags[k], x);
  }

  /** The piece that holds byte `x`. */
  lemma {:induction false} PieceAt(fs: seq<Frag>, total: nat, x: nat, n: nat) returns (i: nat)
    requires Cut(fs, total) && n < |fs| && x < fs[n].End()
    ensures i < |fs| && Covers(fs[i], x)
  {
    if x >= fs[n].offset {
      i := n;
    } else {
      assert fs[n - 1].End() == fs[n].offset;
      i := PieceAt(fs, total, x, n - 1);
    }
  }

  /** Every piece is accepted, and the entry becomes complete with the last one to come. */
  lemma DeliveryCompletes(head: Frag, fs: seq<Frag>, total: nat, order: seq<nat>)
    requires IsHead(head) && Cut(fs, total) && Distinct(order, |fs|)
    ensures Feed(head, fs, order).0
    ensures Complete(Feed(head, fs, order).1) <==> |order| == |fs|
  {
    hide Holds, Cut, Complete;
    FeedHolds(head, fs, total, order);
    CompleteIffAll(Feed(head, fs, order).1, fs, total, order);
    AllCame(order, |fs|);
  }
}
