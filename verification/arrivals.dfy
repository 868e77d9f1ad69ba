/** Arrival orders: numbers below a bound, each at most once. */
module Arrivals {

  ghost predicate Distinct(order: seq<nat>, n: nat) {
    && (forall k :: 0 <= k < |order| ==> order[k] < n)
    && (forall k, l :: 0 <= k < l < |order| ==> order[k] != order[l])
  }

  ghost function Elems(order: seq<nat>): set<nat> {
    set i | i in order
  }

  ghost function UpTo(n: nat): set<nat> {
    if n == 0 then {} else UpTo(n - 1) + {n - 1}
  }

  lemma {:induction false} ElemsSize(order: seq<nat>, n: nat)
    requires Distinct(order, n)
    ensures |Elems(order)| == |order|
  {
    if order != [] {
      var m := |order| - 1;
      ElemsSize(order[..m], n);
      assert Elems(order) == Elems(order[..m]) + {order[m]};
      assert order[m] !in order[..m];
    }
  }

  lemma {:induction false} UpToSize(n: nat)
    ensures |UpTo(n)| == n && forall i: nat :: i in UpTo(n) <==> i < n
  {
    if n > 0 {
      UpToSize(n - 1);
    }
  }

  lemma SubsetSize(a: set<nat>, b: set<nat>)
    requires a <= b
    ensures |a| <= |b| && (|a| == |b| ==> a == b)
  {
    assert b == a + (b - a);
  }

  /** All have come exactly when as many have come as there are. */
  lemma AllCame(order: seq<nat>, n: nat)
    requires Distinct(order, n)
    ensures |order| <= n
    ensures |order| == n <==> forall i :: 0 <= i < n ==> i in order
  {
    ElemsSize(order, n);
    UpToSize(n);
    SubsetSize(Elems(order), UpTo(n));
    if forall i :: 0 <= i < n ==> i in order {
      assert Elems(order) == UpTo(n);
    } else {
      var i :| 0 <= i < n && i !in order;
      assert i in UpTo(n) && i !in Elems(order);
    }
  }
}
