/** Keys in order, and the way down to a key. */
module RbOrder {
  import opened RbSpec

  /** Negative, zero or positive, as bytes compare at the first difference. */
  function Cmp(a: Key, b: Key): int {
    if a == [] then (if b == [] then 0 else -1)
    else if b == [] then 1
    else if a[0] != b[0] then a[0] - b[0]
    else Cmp(a[1..], b[1..])
  }

  lemma {:induction false} CmpFlips(a: Key, b: Key)
    ensures Cmp(a, b) < 0 <==> Cmp(b, a) > 0
    ensures Cmp(a, b) == 0 <==> a == b
  {
    if a != [] && b != [] && a[0] == b[0] {
      CmpFlips(a[1..], b[1..]);
      assert a == [a[0]] + a[1..];
      assert b == [b[0]] + b[1..];
    }
  }

  lemma {:induction false} CmpTransitive(a: Key, b: Key, c: Key)
    requires Cmp(a, b) < 0 && Cmp(b, c) < 0
    ensures Cmp(a, c) < 0
  {
    if a != [] && b != [] && a[0] == b[0] == c[0] {
      CmpTransitive(a[1..], b[1..], c[1..]);
    }
  }

  predicate Less(x: Node, y: Node) {
    Cmp(x.key, y.key) < 0
  }

  ghost predicate Sorted(ns: seq<Node>) {
    forall i, j :: 0 <= i < j < |ns| ==> Less(ns[i], ns[j])
  }

  ghost predicate AllLess(ns: seq<Node>, key: Key) {
    forall n :: n in ns ==> Cmp(n.key, key) < 0
  }

  ghost predicate AllGreater(ns: seq<Node>, key: Key) {
    forall n :: n in ns ==> Cmp(key, n.key) < 0
  }

  /** The key belongs into the missing subtree. */
  ghost predicate Fits(c: Ctx, key: Key) {
    AllLess(Before(c), key) && AllGreater(After(c), key)
  }

  lemma FitsTop(key: Key)
    ensures Fits(Top, key)
  {
  }

  function Step(t: Tree, c: Ctx, s: Side): Ctx
    requires t.Fork?
  {
    In(s, t.red, t.at, Kid(t, Other(s)), c)
  }

  lemma LessThanRest(left: seq<Node>, n: Node, right: seq<Node>, key: Key)
    requires Sorted(left + [n] + right)
    ensures Cmp(key, n.key) < 0 ==> AllGreater([n] + right, key)
    ensures Cmp(n.key, key) < 0 ==> AllLess(left + [n], key)
  {
    hide Cmp;
    var all := left + [n] + right;
    var k := |left|;
    assert all[k] == n;
    forall x: Node | x in [n] + right && Cmp(key, n.key) < 0
      ensures Cmp(key, x.key) < 0
    {
      if x != n {
        var j :| 0 <= j < |right| && right[j] == x;
        assert Less(all[k], all[k + 1 + j]);
        CmpTransitive(key, n.key, x.key);
      }
    }
    forall x: Node | x in left + [n] && Cmp(n.key, key) < 0
      ensures Cmp(x.key, key) < 0
    {
      if x != n {
        var j :| 0 <= j < |left| && left[j] == x;
        assert Less(all[j], all[k]);
        CmpTransitive(x.key, n.key, key);
      }
    }
  }

  /** Going down on the side of the key leaves out only nodes on its other side. */
  lemma FitsDown(c: Ctx, t: Tree, key: Key)
    requires t.Fork? && Fits(c, key) && Sorted(Around(c, t))
    ensures Cmp(key, t.at.key) < 0 ==> Fits(Step(t, c, L), key)
    ensures Cmp(key, t.at.key) > 0 ==> Fits(Step(t, c, R), key)
  {
    hide Cmp;
    CmpFlips(key, t.at.key);
    CmpFlips(t.at.key, key);
    var left, right := Before(c) + Inorder(t.left), Inorder(t.right) + After(c);
    assert Around(c, t) == left + [t.at] + right;
    LessThanRest(left, t.at, right, key);
    assert After(Step(t, c, L)) == [t.at] + right;
    assert Before(Step(t, c, R)) == left + [t.at];
  }

  /** With the key's place empty, no node has it, and a node with it can be put there. */
  lemma FitsHere(c: Ctx, n: Node)
    requires Fits(c, n.key) && Sorted(Around(c, Leaf))
    ensures forall x :: x in Around(c, Leaf) ==> x.key != n.key
    ensures Sorted(Before(c) + [n] + After(c))
  {
    hide Cmp;
    var bs, cs := Before(c), After(c);
    assert Around(c, Leaf) == bs + cs;
    forall x: Node | x in bs + cs
      ensures x.key != n.key
    {
      CmpFlips(x.key, n.key);
      CmpFlips(n.key, x.key);
    }
    var all := bs + [n] + cs;
    forall i, j | 0 <= i < j < |all|
      ensures Less(all[i], all[j])
    {
      if i < |bs| && j > |bs| {
        assert Less((bs + cs)[i], (bs + cs)[j - 1]);
      } else if j < |bs| {
        assert Less((bs + cs)[i], (bs + cs)[j]);
      } else if i > |bs| {
        assert Less((bs + cs)[i - 1], (bs + cs)[j - 1]);
      }
    }
  }

  /** Taking a node out keeps the rest in order. */
  lemma SortedWithout(ns: seq<Node>, i: nat)
    requires Sorted(ns) && i < |ns|
    ensures Sorted(ns[..i] + ns[i + 1..])
  {
    var r := ns[..i] + ns[i + 1..];
    forall j, k | 0 <= j < k < |r|
      ensures Less(r[j], r[k])
    {
      assert Less(ns[if j < i then j else j + 1], ns[if k < i then k else k + 1]);
    }
  }

  lemma SortedOnce(ns: seq<Node>, i: nat, j: nat)
    requires Sorted(ns) && i < |ns| && j < |ns| && ns[i] == ns[j]
    ensures i == j
  {
    CmpFlips(ns[i].key, ns[j].key);
  }

  /** Where a node is first found. */
  function Place(ns: seq<Node>, n: Node): (i: nat)
    ensures i <= |ns| && (n in ns ==> i < |ns| && ns[i] == n)
  {
    if ns == [] || ns[0] == n then 0 else 1 + Place(ns[1..], n)
  }

  /** The nodes that are not in `gone`, in order. */
  function Kept(ns: seq<Node>, gone: set<Node>): seq<Node> {
    if ns == [] then []
    else
      var m := |ns| - 1;
      Kept(ns[..m], gone) + if ns[m] in gone then [] else [ns[m]]
  }

  lemma KeptStep(ns: seq<Node>, gone: set<Node>, i: nat)
    requires i < |ns|
    ensures Kept(ns[..i + 1], gone) == Kept(ns[..i], gone) + if ns[i] in gone then [] else [ns[i]]
  {
    assert ns[..i + 1][..i] == ns[..i];
  }

  /** The list half gone through, before and after one node. */
  lemma SweepStep(ns: seq<Node>, gone: set<Node>, i: nat)
    requires i < |ns|
    ensures var half, j := Kept(ns[..i], gone) + ns[i..], |Kept(ns[..i], gone)|;
            && j < |half| && half[j] == ns[i] && (j + 1 < |half| <==> i + 1 < |ns|) && (i + 1 < |ns| ==> half[j + 1] == ns[i + 1])
            && Kept(ns[..i + 1], gone) + ns[i + 1..] == if ns[i] in gone then half[..j] + half[j + 1..] else half
  {
    KeptStep(ns, gone, i);
    assert ns[i..] == [ns[i]] + ns[i + 1..];
  }
}
