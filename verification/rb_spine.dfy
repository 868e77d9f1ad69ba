/** The way to the successor of a node with two kids: right once, then left. */
module RbSpine {
  import opened RbSpec
  import opened RbLinks

  /** The tree has `k` left kids in a row. */
  predicate HasSpine(t: Tree, k: nat) {
    t.Fork? && (k > 0 ==> HasSpine(t.left, k - 1))
  }

  function Bottom(t: Tree, k: nat): (b: Tree)
    requires HasSpine(t, k)
    ensures b.Fork?
  {
    if k == 0 then t else Bottom(t.left, k - 1)
  }

  /** The context of what is `k` left kids down. */
  function DownLeft(c: Ctx, t: Tree, k: nat): Ctx
    requires HasSpine(t, k)
    decreases k
  {
    if k == 0 then c else DownLeft(In(L, t.red, t.at, t.right, c), t.left, k - 1)
  }

  /** The tree with something else there. */
  function WithBottom(t: Tree, k: nat, u: Tree): Tree
    requires HasSpine(t, k)
  {
    if k == 0 then u else Fork(t.red, WithBottom(t.left, k - 1, u), t.at, t.right)
  }

  lemma {:induction false} SpineUp(m: Mem, c: Ctx, t: Tree, k: nat, u: Tree)
    requires HasSpine(t, k) && IsZip(m, DownLeft(c, t, k), u)
    ensures IsZip(m, c, WithBottom(t, k, u))
    decreases k
  {
    hide IsZip;
    if k > 0 {
      var d := In(L, t.red, t.at, t.right, c);
      SpineUp(m, d, t.left, k - 1, u);
      Up(m, d, WithBottom(t.left, k - 1, u));
    }
  }

  lemma {:induction false} SpineDown(m: Mem, c: Ctx, t: Tree, k: nat, u: Tree)
    requires HasSpine(t, k) && IsZip(m, c, WithBottom(t, k, u))
    ensures IsZip(m, DownLeft(c, t, k), u)
    decreases k
  {
    hide IsZip;
    if k > 0 {
      Down(m, c, WithBottom(t, k, u), L);
      SpineDown(m, In(L, t.red, t.at, t.right, c), t.left, k - 1, u);
    }
  }

  /** One more step down. */
  lemma {:induction false} SpineStep(c: Ctx, t: Tree, k: nat)
    requires HasSpine(t, k) && Bottom(t, k).left.Fork?
    ensures HasSpine(t, k + 1) && Bottom(t, k + 1) == Bottom(t, k).left
    ensures var b := Bottom(t, k); DownLeft(c, t, k + 1) == In(L, b.red, b.at, b.right, DownLeft(c, t, k))
    decreases k
  {
    if k > 0 {
      SpineStep(In(L, t.red, t.at, t.right, c), t.left, k - 1);
    }
  }

  lemma {:induction false} SpinePlug(c: Ctx, t: Tree, k: nat, u: Tree)
    requires HasSpine(t, k)
    ensures Plug(DownLeft(c, t, k), u) == Plug(c, WithBottom(t, k, u))
    decreases k
  {
    if k > 0 {
      SpinePlug(In(L, t.red, t.at, t.right, c), t.left, k - 1, u);
    }
  }

  lemma {:induction false} SpineSame(t: Tree, k: nat)
    requires HasSpine(t, k)
    ensures WithBottom(t, k, Bottom(t, k)) == t
  {
    if k > 0 {
      SpineSame(t.left, k - 1);
    }
  }

  /** The bottom comes first. */
  lemma {:induction false} SpineInorder(t: Tree, k: nat)
    requires HasSpine(t, k) && Bottom(t, k).left.Leaf?
    ensures Inorder(t) == [Bottom(t, k).at] + Inorder(WithBottom(t, k, Bottom(t, k).right))
  {
    if k > 0 {
      SpineInorder(t.left, k - 1);
    } else {
      assert Inorder(t.left) == [];
    }
  }

  /** The colors of one context are as good as those of another. */
  ghost predicate Alike(c: Ctx, c': Ctx) {
    && c.In? && c'.In? && (BlackTop(c) ==> BlackTop(c'))
    && (forall h: nat :: BalancedCtx(c, h) ==> BalancedCtx(c', h))
    && (forall red :: CalmCtx(c, red) ==> CalmCtx(c', red))
  }

  /** Another node in a context changes no color. */
  lemma OtherNode(c: Ctx, y: Node)
    requires c.In?
    ensures Alike(c, c.(at := y))
  {
  }

  lemma AlikeBelow(s: Side, red: bool, at: Node, sib: Tree, c: Ctx, c': Ctx)
    requires Alike(c, c')
    ensures Alike(In(s, red, at, sib, c), In(s, red, at, sib, c'))
  {
    var d, d' := In(s, red, at, sib, c), In(s, red, at, sib, c');
    forall h: nat | BalancedCtx(d, h)
      ensures BalancedCtx(d', h)
    {
      assert BalancedCtx(c, if red then h else h + 1);
    }
    forall b | CalmCtx(d, b)
      ensures CalmCtx(d', b)
    {
      assert CalmCtx(c, red);
    }
  }

  lemma {:induction false} SpineAlike(c: Ctx, c': Ctx, t: Tree, k: nat)
    requires HasSpine(t, k) && Alike(c, c')
    ensures Alike(DownLeft(c, t, k), DownLeft(c', t, k))
    decreases k
  {
    if k > 0 {
      AlikeBelow(L, t.red, t.at, t.right, c, c');
      SpineAlike(In(L, t.red, t.at, t.right, c), In(L, t.red, t.at, t.right, c'), t.left, k - 1);
    }
  }

  // ---------- What is left after a node was taken out ----------

  /** A red-black tree with `t` put into `c`. */
  ghost predicate Settled(c: Ctx, t: Tree, h: nat) {
    BalancedCtx(c, h) && Balanced(t, h) && Calm(t) && CalmCtx(c, Red(t)) && BlackTop(c) && (c.Top? ==> !Red(t))
  }

  /** The subtree `t` lacks one black; the rest is as it must be. */
  ghost predicate Lacks(c: Ctx, t: Tree, h: nat) {
    && Balanced(t, h) && Calm(Paint(t, false))
    && BalancedCtx(c, h + 1) && CalmCtx(c, false) && BlackTop(c)
  }

  /** Taking a red node out leaves a red-black tree, a black node leaves one black missing. */
  lemma TakenOut(c: Ctx, t: Tree, s: Side) returns (h: nat)
    requires RedBlack(Plug(c, t)) && t.Fork? && Kid(t, Other(s)).Leaf?
    ensures if t.red then Settled(c, Kid(t, s), h) else Lacks(c, Kid(t, s), h)
  {
    var h' :| Balanced(Plug(c, t), h');
    var k := Unplug(c, t, h');
    UnplugTop(c, t);
    CalmBelow(c, Red(t));
    h := if t.red then k else k - 1;
  }

  /** The bottom node is not among the nodes left when it was taken out. */
  lemma {:induction false} SpineNodes(t: Tree, k: nat)
    requires HasSpine(t, k) && Apart(t) && Bottom(t, k).left.Leaf?
    ensures var b := Bottom(t, k); var u := WithBottom(t, k, b.right);
            b.at in Nodes(t) && b.at !in Nodes(u) && Nodes(u) <= Nodes(t)
    decreases k
  {
    if k > 0 {
      SpineNodes(t.left, k - 1);
    }
  }

  // ---------- Removal of a node with two kids ----------

  /** Where the successor was, when it has taken the place of the root of `t`. */
  ghost function Hole(c: Ctx, t: Tree, k: nat): Ctx
    requires t.Fork? && HasSpine(t.right, k)
  {
    DownLeft(In(R, t.red, Bottom(t.right, k).at, t.left, c), t.right, k)
  }

  /** Where it was before. */
  ghost function OldHole(c: Ctx, t: Tree, k: nat): Ctx
    requires t.Fork? && HasSpine(t.right, k)
  {
    DownLeft(In(R, t.red, t.at, t.left, c), t.right, k)
  }

  lemma OldHolePlug(c: Ctx, t: Tree, k: nat)
    requires t.Fork? && HasSpine(t.right, k)
    ensures Plug(OldHole(c, t, k), Bottom(t.right, k)) == Plug(c, t)
  {
    SpinePlug(In(R, t.red, t.at, t.left, c), t.right, k, Bottom(t.right, k));
    SpineSame(t.right, k);
  }

  lemma AroundRight(c: Ctx, red: bool, at: Node, left: Tree, w: Tree)
    ensures Around(In(R, red, at, left, c), w) == Before(c) + Inorder(left) + ([at] + Inorder(w)) + After(c)
  {
    hide Inorder;
    var a, b := Before(c) + Inorder(left), Inorder(w);
    assert (a + [at]) + b == a + ([at] + b);
  }

  /** The nodes in order are those of before without the root of `t`. */
  lemma HoleInorder(c: Ctx, t: Tree, k: nat)
    requires t.Fork? && HasSpine(t.right, k) && Bottom(t.right, k).left.Leaf?
    ensures Around(Hole(c, t, k), Bottom(t.right, k).right) == Before(c) + Inorder(t.left) + Inorder(t.right) + After(c)
  {
    var b := Bottom(t.right, k);
    var d := In(R, t.red, b.at, t.left, c);
    var w := WithBottom(t.right, k, b.right);
    hide Inorder, Plug, DownLeft, WithBottom, HasSpine, Bottom, Before, After;
    AroundRight(c, t.red, b.at, t.left, w);
    SpinePlug(d, t.right, k, b.right);
    PlugInorder(Hole(c, t, k), b.right);
    PlugInorder(d, w);
    SpineInorder(t.right, k);
  }

  lemma HoleAlike(c: Ctx, t: Tree, k: nat)
    requires t.Fork? && HasSpine(t.right, k)
    ensures Alike(OldHole(c, t, k), Hole(c, t, k))
  {
    OtherNode(In(R, t.red, t.at, t.left, c), Bottom(t.right, k).at);
    SpineAlike(In(R, t.red, t.at, t.left, c), In(R, t.red, Bottom(t.right, k).at, t.left, c), t.right, k);
  }

  /** Settled, or one black missing. */
  ghost predicate Left(red: bool, c: Ctx, t: Tree, h: nat) {
    if red then Settled(c, t, h) else Lacks(c, t, h)
  }

  lemma AlikeLeft(red: bool, c: Ctx, c': Ctx, t: Tree, h: nat)
    requires Alike(c, c') && Left(red, c, t, h)
    ensures Left(red, c', t, h)
  {
  }

  lemma HoleLeft(c: Ctx, t: Tree, k: nat) returns (h: nat)
    requires RedBlack(Plug(c, t)) && t.Fork? && HasSpine(t.right, k) && Bottom(t.right, k).left.Leaf?
    ensures Left(Bottom(t.right, k).red, Hole(c, t, k), Bottom(t.right, k).right, h)
  {
    OldHolePlug(c, t, k);
    h := TakenOut(OldHole(c, t, k), Bottom(t.right, k), R);
    HoleAlike(c, t, k);
    AlikeLeft(Bottom(t.right, k).red, OldHole(c, t, k), Hole(c, t, k), Bottom(t.right, k).right, h);
  }

  lemma SettledRedBlack(c: Ctx, t: Tree, h: nat)
    requires Settled(c, t, h)
    ensures RedBlack(Plug(c, t))
  {
    PlugRedBlack(c, t, h);
  }

  lemma LacksRedBlack(c: Ctx, t: Tree, h: nat)
    requires Lacks(c, t, h)
    ensures RedBlack(RemoveFix(c, t))
  {
    RemoveFixRedBlack(c, t, h);
  }
}
