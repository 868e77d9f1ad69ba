/** A binary heap whose hole goes all the way down before the item is put in and brought up again. */
module Heap {
  import opened Wrappers

  /** The comparison orders the items, with ties. */
  ghost predicate WeakOrder<T(!new)>(less: (T, T) -> bool) {
    && (forall x :: !less(x, x))
    && (forall x, y, z :: less(x, y) && less(y, z) ==> less(x, z))
    && (forall x, y, z :: !less(x, y) && !less(y, z) ==> !less(x, z))
  }

  function Parent(i: nat): (p: nat)
    requires i > 0
    ensures p < i && (i == 2 * p + 1 || i == 2 * p + 2)
  {
    (i - 1) / 2
  }

  ghost predicate InOrder<T(!new)>(less: (T, T) -> bool, s: seq<T>, i: nat)
    requires i < |s|
  {
    i > 0 ==> !less(s[i], s[Parent(i)])
  }

  /** No item is less than its parent. */
  ghost predicate Heaped<T(!new)>(less: (T, T) -> bool, s: seq<T>) {
    forall i :: 0 <= i < |s| ==> InOrder(less, s, i)
  }

  /** The children of `pos`, if any, could be children of its parent. */
  ghost predicate Bridged<T(!new)>(less: (T, T) -> bool, s: seq<T>, pos: nat)
    requires pos < |s|
  {
    forall i :: 0 < i < |s| && Parent(i) == pos && pos > 0 ==> !less(s[i], s[Parent(pos)])
  }

  /** Only the item at `pos` may be less than its parent. */
  ghost predicate Rising<T(!new)>(less: (T, T) -> bool, s: seq<T>, pos: nat) {
    && pos < |s| && Bridged(less, s, pos)
    && forall i :: 0 <= i < |s| && i != pos ==> InOrder(less, s, i)
  }

  /** There is a hole at `pos`: what is there does not count. */
  ghost predicate Holed<T(!new)>(less: (T, T) -> bool, s: seq<T>, pos: nat) {
    && pos < |s| && Bridged(less, s, pos)
    && forall i :: 0 < i < |s| && i != pos && Parent(i) != pos ==> InOrder(less, s, i)
  }

  /** The first item of a heap is a least one. */
  lemma {:induction false} FirstIsLeast<T(!new)>(less: (T, T) -> bool, s: seq<T>, i: nat)
    requires WeakOrder(less) && Heaped(less, s) && i < |s|
    ensures !less(s[i], s[0])
  {
    if i > 0 {
      FirstIsLeast(less, s, Parent(i));
      assert InOrder(less, s, i);
    }
  }

  lemma SwapSame<T>(s: seq<T>, i: nat, j: nat)
    requires i < |s| && j < |s|
    ensures multiset(s[i := s[j]][j := s[i]]) == multiset(s)
  {
  }

  /** The item rises past its parent. */
  lemma RiseStep<T(!new)>(less: (T, T) -> bool, s: seq<T>, pos: nat)
    requires WeakOrder(less) && Rising(less, s, pos) && pos > 0 && less(s[pos], s[Parent(pos)])
    ensures Rising(less, s[pos := s[Parent(pos)]][Parent(pos) := s[pos]], Parent(pos))
  {
    var p := Parent(pos);
    var t := s[pos := s[p]][p := s[pos]];
    forall i | 0 <= i < |t| && i != p
      ensures InOrder(less, t, i)
    {
      assert i != pos ==> InOrder(less, s, i);
    }
    forall i | 0 < i < |t| && Parent(i) == p && p > 0
      ensures !less(t[i], t[Parent(p)])
    {
      assert InOrder(less, s, p);
      assert i != pos ==> InOrder(less, s, i);
    }
  }

  /** The item has found its place. */
  lemma RiseEnds<T(!new)>(less: (T, T) -> bool, s: seq<T>, pos: nat)
    requires Rising(less, s, pos) && (pos > 0 ==> !less(s[pos], s[Parent(pos)]))
    ensures Heaped(less, s)
  {
    assert InOrder(less, s, pos);
  }

  /** The hole goes down to the place of the lesser child. */
  lemma SinkStep<T(!new)>(less: (T, T) -> bool, s: seq<T>, pos: nat, child: nat)
    requires WeakOrder(less) && Holed(less, s, pos) && 0 < child < |s| && Parent(child) == pos
    requires forall i :: 0 < i < |s| && Parent(i) == pos ==> !less(s[i], s[child])
    ensures Holed(less, s[pos := s[child]], child)
  {
    var t := s[pos := s[child]];
    forall i | 0 < i < |t| && i != child && Parent(i) != child
      ensures InOrder(less, t, i)
    {
      assert i != pos && Parent(i) != pos ==> InOrder(less, s, i);
    }
    forall i | 0 < i < |t| && Parent(i) == child
      ensures !less(t[i], t[Parent(child)])
    {
      assert InOrder(less, s, i);
    }
  }

  /** At a leaf the item can be put in. */
  lemma SinkEnds<T(!new)>(less: (T, T) -> bool, s: seq<T>, pos: nat, item: T)
    requires Holed(less, s, pos) && 2 * pos + 1 >= |s|
    ensures Rising(less, s[pos := item], pos)
  {
    var t := s[pos := item];
    forall i | 0 <= i < |t| && i != pos
      ensures InOrder(less, t, i)
    {
      if i > 0 { assert InOrder(less, s, i); }
    }
  }

  lemma SinkSame<T>(s: seq<T>, i: nat, j: nat, item: T)
    requires i < |s| && j < |s| && i != j
    ensures multiset(s[i := s[j]][j := item]) == multiset(s[i := item])
  {
    SwapSame(s[i := item], i, j);
    assert s[i := s[j]][j := item] == s[i := item][i := s[j]][j := item];
  }

  lemma HoledIn<T(!new)>(less: (T, T) -> bool, s: seq<T>, pos: nat)
    requires Holed(less, s, pos)
    ensures pos < |s| && s[pos := s[pos]] == s
  {
  }

  class PriorityQueue<T(!new)> {
    const less: (T, T) -> bool
    var vec: seq<T>

    ghost predicate Valid()
      reads this
    {
      WeakOrder(less) && Heaped(less, vec)
    }

    constructor (less: (T, T) -> bool)
      requires WeakOrder(less)
      ensures Valid() && vec == [] && this.less == less
    {
      this.less := less;
      vec := [];
    }

    /** Brings the item at `pos` up to its place. */
    method SiftDown(pos: nat)
      requires WeakOrder(less) && Rising(less, vec, pos)
      modifies this`vec
      ensures Valid() && multiset(vec) == multiset(old(vec))
    {
      var newItem := vec[pos];
      var hole := pos;
      ghost var s := vec;
      while hole > 0
        invariant hole < |vec| && s == vec[hole := newItem] && multiset(s) == multiset(old(vec))
        invariant Rising(less, s, hole)
      {
        var parentPos := Parent(hole);
        var parent := vec[parentPos];
        if !less(newItem, parent) {
          break;
        }
        RiseStep(less, s, hole);
        SwapSame(s, hole, parentPos);
        s := s[hole := parent][parentPos := newItem];
        vec := vec[hole := parent];
        hole := parentPos;
      }
      RiseEnds(less, s, hole);
      vec := vec[hole := newItem];
    }

    /** Takes the item at the top down to a leaf, along the lesser children, and up to its place. */
    method SiftUp()
      requires WeakOrder(less) && Holed(less, vec, 0)
      modifies this`vec
      ensures Valid() && multiset(vec) == multiset(old(vec))
    {
      hide Holed, Rising, WeakOrder, Heaped, Bridged, InOrder;
      HoledIn(less, vec, 0);
      var newItem := vec[0];
      var end := |vec|;
      var pos: nat, child: nat := 0, 1;
      while child < end
        invariant pos < |vec| == end && child == 2 * pos + 1
        invariant multiset(vec[pos := newItem]) == multiset(old(vec))
        invariant Holed(less, vec, pos)
        decreases end - pos
      {
        var right := child + 1;
        if right < end && !less(vec[child], vec[right]) {
          child := right;
        }
        LesserChild(less, vec, pos, child);
        SinkStep(less, vec, pos, child);
        SinkSame(vec, pos, child, newItem);
        vec := vec[pos := vec[child]];
        pos := child;
        child := 2 * pos + 1;
      }
      SinkEnds(less, vec, pos, newItem);
      vec := vec[pos := newItem];
      SiftDown(pos);
    }

    method Push(item: T)
      requires Valid()
      modifies this`vec
      ensures Valid() && multiset(vec) == multiset(old(vec)) + multiset{item}
    {
      Appended(less, vec, item);
      vec := vec + [item];
      SiftDown(|vec| - 1);
    }

    /** Takes out a least item. */
    method Pop() returns (item: Option<T>)
      requires Valid()
      modifies this`vec
      ensures Valid() && (item == None <==> old(vec) == [])
      ensures item == None ==> vec == []
      ensures item.Some? ==> multiset(vec) + multiset{item.value} == multiset(old(vec))
      ensures item.Some? ==> forall x :: x in old(vec) ==> !less(x, item.value)
    {
      if |vec| < 1 {
        return None;
      }
      AllAtLeastFirst(less, vec);
      var last := vec[|vec| - 1];
      ghost var was := vec;
      vec := vec[..|vec| - 1];
      assert was == vec + [last];
      if |vec| > 0 {
        item := Some(vec[0]);
        assert was == [vec[0]] + (vec[1..] + [last]);
        assert vec[0 := last] == [last] + vec[1..];
        HoleAtTop(less, was, last);
        vec := vec[0 := last];
        SiftUp();
      } else {
        item := Some(last);
      }
    }

    /** Takes out a least item and puts another in. */
    method Replace(item: T) returns (first: Option<T>)
      requires Valid()
      modifies this`vec
      ensures Valid() && (first == None <==> old(vec) == [])
      ensures first == None ==> vec == []
      ensures first.Some? ==> multiset(vec) + multiset{first.value} == multiset(old(vec)) + multiset{item}
      ensures first.Some? ==> forall x :: x in old(vec) ==> !less(x, first.value)
    {
      if |vec| < 1 {
        return None;
      }
      AllAtLeastFirst(less, vec);
      first := Some(vec[0]);
      assert vec == [vec[0]] + vec[1..];
      assert vec[0 := item] == [item] + vec[1..];
      Holes(less, vec, item);
      vec := vec[0 := item];
      SiftUp();
    }

    /** Taking everything out gives the items in order. */
    method Drain() returns (out: seq<T>)
      requires Valid()
      modifies this`vec
      ensures vec == [] && multiset(out) == multiset(old(vec))
      ensures forall i, j :: 0 <= i < j < |out| ==> !less(out[j], out[i])
    {
      out := [];
      while vec != []
        invariant Valid() && multiset(out) + multiset(vec) == multiset(old(vec))
        invariant forall i, j :: 0 <= i < j < |out| ==> !less(out[j], out[i])
        invariant forall i, x :: 0 <= i < |out| && x in vec ==> !less(x, out[i])
        decreases |vec|
      {
        ghost var before := vec;
        var item := Pop();
        Fewer(before, vec, item.value);
        out := out + [item.value];
      }
    }
  }

  lemma Fewer<T>(before: seq<T>, after: seq<T>, x: T)
    requires multiset(after) + multiset{x} == multiset(before)
    ensures |after| < |before| && x in before && forall y :: y in after ==> y in before
  {
    assert |multiset(before)| == |before| && |multiset(after)| == |after|;
    assert x in multiset(before);
    forall y | y in after
      ensures y in before
    {
      assert y in multiset(after);
      assert y in multiset(before);
    }
  }

  lemma LesserChild<T(!new)>(less: (T, T) -> bool, s: seq<T>, pos: nat, child: nat)
    requires WeakOrder(less) && pos < |s| && child < |s| && child in {2 * pos + 1, 2 * pos + 2}
    requires child == 2 * pos + 1 && 2 * pos + 2 < |s| ==> less(s[child], s[2 * pos + 2])
    requires child == 2 * pos + 2 ==> !less(s[2 * pos + 1], s[child])
    ensures Parent(child) == pos
    ensures forall i :: 0 < i < |s| && Parent(i) == pos ==> !less(s[i], s[child])
  {
    forall i | 0 < i < |s| && Parent(i) == pos
      ensures !less(s[i], s[child])
    {
      assert i == 2 * pos + 1 || i == 2 * pos + 2;
    }
  }

  lemma Appended<T(!new)>(less: (T, T) -> bool, s: seq<T>, item: T)
    requires Heaped(less, s)
    ensures Rising(less, s + [item], |s|)
  {
    var t := s + [item];
    forall i | 0 <= i < |t| && i != |s|
      ensures InOrder(less, t, i)
    {
      assert InOrder(less, s, i);
    }
  }

  lemma AllAtLeastFirst<T(!new)>(less: (T, T) -> bool, s: seq<T>)
    requires WeakOrder(less) && Heaped(less, s) && s != []
    ensures forall x :: x in s ==> !less(x, s[0])
  {
    forall x | x in s
      ensures !less(x, s[0])
    {
      var i :| 0 <= i < |s| && s[i] == x;
      FirstIsLeast(less, s, i);
    }
  }

  lemma Holes<T(!new)>(less: (T, T) -> bool, s: seq<T>, item: T)
    requires Heaped(less, s) && s != []
    ensures Holed(less, s[0 := item], 0)
  {
    var t := s[0 := item];
    forall i | 0 < i < |t| && i != 0 && Parent(i) != 0
      ensures InOrder(less, t, i)
    {
      assert InOrder(less, s, i);
    }
  }

  lemma HoleAtTop<T(!new)>(less: (T, T) -> bool, s: seq<T>, item: T)
    requires Heaped(less, s) && |s| > 1
    ensures Holed(less, s[..|s| - 1][0 := item], 0)
  {
    var t := s[..|s| - 1];
    forall i | 0 <= i < |t|
      ensures InOrder(less, t, i)
    {
      assert InOrder(less, s, i);
    }
    Holes(less, t, item);
  }
}
