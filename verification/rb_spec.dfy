/** Red-black trees as values: what insertion and removal make of them, and that it is right. */
module RbSpec {
  import opened Words
  import opened Bits

  type Key = seq<Byte>

  class Node {
    const key: Key
    var left: Node?
    var right: Node?
    var parent: Node?
    var red: bool

    constructor (key: Key)
      ensures this.key == key
    {
      this.key := key;
      left, right, parent, red := null, null, null, false;
    }
  }

  datatype Tree = Leaf | Fork(red: bool, left: Tree, at: Node, right: Tree)

  datatype Side = L | R

  function Other(s: Side): Side {
    if s == L then R else L
  }

  /** A tree with one subtree missing, seen from there: `side` is the side the missing one was on. */
  datatype Ctx = Top | In(side: Side, red: bool, at: Node, sib: Tree, up: Ctx)

  // The mirrored branches of the source are one branch here, over the side.

  function Kid(t: Tree, s: Side): Tree
    requires t.Fork?
  {
    if s == L then t.left else t.right
  }

  /** A fork with `near` on side `s`. */
  function Make(s: Side, red: bool, at: Node, near: Tree, far: Tree): Tree {
    if s == L then Fork(red, near, at, far) else Fork(red, far, at, near)
  }

  function Plug(c: Ctx, t: Tree): Tree {
    match c
    case Top => t
    case In(s, red, at, sib, up) => Plug(up, Make(s, red, at, t, sib))
  }

  predicate Red(t: Tree) {
    t.Fork? && t.red
  }

  function Paint(t: Tree, red: bool): Tree {
    match t
    case Leaf => Leaf
    case Fork(_, l, at, r) => Fork(red, l, at, r)
  }

  /** `t`, its root turned down to side `s`. */
  function Rotated(t: Tree, s: Side): Tree
    requires t.Fork? && Kid(t, Other(s)).Fork?
  {
    var y := Kid(t, Other(s));
    Make(s, y.red, y.at, Make(s, t.red, t.at, Kid(t, s), Kid(y, s)), Kid(y, Other(s)))
  }

  // ---------- Repair after insertion ----------

  /** The whole tree after `t`, with a red root, was put into place. */
  function InsertFix(c: Ctx, t: Tree): Tree {
    if c.In? && c.red && c.up.In? && t.Fork? then
      var g := c.up;
      if Red(g.sib) then
        InsertFix(g.up, Make(g.side, true, g.at, Make(c.side, false, c.at, t, c.sib), Paint(g.sib, false)))
      else if c.side == g.side then
        Paint(Plug(g.up, Rotated(Make(g.side, true, g.at, Make(c.side, false, c.at, t, c.sib), g.sib), Other(g.side))), false)
      else
        var t' := Rotated(Make(c.side, c.red, c.at, t, c.sib), g.side);
        Paint(Plug(g.up, Rotated(Make(g.side, true, g.at, Paint(t', false), g.sib), Other(g.side))), false)
    else Paint(Plug(c, t), false)
  }

  // ---------- Repair after removal ----------

  /** A red sibling is rotated away, so that the sibling is black. */
  function BlackSibling(c: Ctx): Ctx {
    if c.In? && Red(c.sib) then
      In(c.side, true, c.at, Kid(c.sib, c.side), In(c.side, false, c.sib.at, Kid(c.sib, Other(c.side)), c.up))
    else c
  }

  /** A red nephew on the far side, rotated there if there is none. */
  function RedFar(sib: Tree, side: Side): Tree
    requires sib.Fork? && (Red(Kid(sib, side)) || Red(Kid(sib, Other(side))))
  {
    if Red(Kid(sib, Other(side))) then sib
    else Rotated(Make(side, true, sib.at, Paint(Kid(sib, side), false), Kid(sib, Other(side))), Other(side))
  }

  /** The last rotation: the sibling ends on top with the color of the parent. */
  function TurnRemove(c: Ctx, t: Tree, sib: Tree): Tree
    requires c.In? && sib.Fork?
  {
    Make(c.side, c.red, sib.at, Make(c.side, false, c.at, t, Kid(sib, c.side)), Paint(Kid(sib, Other(c.side)), false))
  }

  /** The whole tree after a black node was taken from `t`, which lacks one black. */
  function RemoveFix(c: Ctx, t: Tree): Tree
    decreases c
  {
    if Red(t) || c.Top? then Plug(c, Paint(t, false))
    else
      var b := BlackSibling(c);
      if b.sib.Leaf? then Plug(c, t) // not reached in a balanced tree
      else if Red(Kid(b.sib, L)) || Red(Kid(b.sib, R)) then
        Paint(Plug(b.up, TurnRemove(b, t, RedFar(b.sib, b.side))), false)
      else
        var t' := Make(b.side, b.red, b.at, t, Paint(b.sib, true));
        if b.red then Plug(b.up, Paint(t', false)) else RemoveFix(b.up, t')
  }

  // ---------- Order ----------

  function Inorder(t: Tree): seq<Node> {
    match t
    case Leaf => []
    case Fork(_, l, at, r) => Inorder(l) + [at] + Inorder(r)
  }

  /** What comes before the missing subtree. */
  function Before(c: Ctx): seq<Node> {
    match c
    case Top => []
    case In(s, _, at, sib, up) => if s == L then Before(up) else Before(up) + Inorder(sib) + [at]
  }

  function After(c: Ctx): seq<Node> {
    match c
    case Top => []
    case In(s, _, at, sib, up) => if s == L then [at] + Inorder(sib) + After(up) else After(up)
  }

  /** The nodes in order around a subtree. */
  function Around(c: Ctx, t: Tree): seq<Node> {
    Before(c) + Inorder(t) + After(c)
  }

  lemma AroundUp(c: Ctx, t: Tree, red: bool)
    requires c.In?
    ensures Around(c, t) == Around(c.up, Make(c.side, red, c.at, t, c.sib))
  {
  }

  lemma AroundSame(c: Ctx, t: Tree, u: Tree)
    requires Inorder(t) == Inorder(u)
    ensures Around(c, t) == Around(c, u)
  {
  }

  lemma MakeSame(s: Side, red: bool, red': bool, at: Node, t: Tree, u: Tree, sib: Tree, sib': Tree)
    requires Inorder(t) == Inorder(u) && Inorder(sib) == Inorder(sib')
    ensures Inorder(Make(s, red, at, t, sib)) == Inorder(Make(s, red', at, u, sib'))
  {
  }

  lemma {:induction false} PlugInorder(c: Ctx, t: Tree)
    ensures Inorder(Plug(c, t)) == Around(c, t)
  {
    if c.In? {
      AroundUp(c, t, c.red);
      PlugInorder(c.up, Make(c.side, c.red, c.at, t, c.sib));
    }
  }

  lemma RotatedInorder(t: Tree, s: Side)
    requires t.Fork? && Kid(t, Other(s)).Fork?
    ensures Inorder(Rotated(t, s)) == Inorder(t)
  {
  }

  lemma PaintInorder(t: Tree, red: bool)
    ensures Inorder(Paint(t, red)) == Inorder(t)
  {
  }

  lemma PlugPaint(c: Ctx, t: Tree)
    ensures Inorder(Paint(Plug(c, t), false)) == Around(c, t)
  {
    PlugInorder(c, t);
    PaintInorder(Plug(c, t), false);
  }

  /** Repair after insertion moves no node. */
  lemma {:induction false} InsertFixInorder(c: Ctx, t: Tree)
    ensures Inorder(InsertFix(c, t)) == Around(c, t)
  {
    hide Inorder, Around, Make, Plug, Paint, Rotated, Before, After;
    PlugPaint(c, t);
    if c.In? && c.red && c.up.In? && t.Fork? {
      var g := c.up;
      var p := Make(c.side, false, c.at, t, c.sib);
      AroundUp(c, t, false);
      AroundUp(g, p, true);
      PaintInorder(g.sib, false);
      MakeSame(g.side, true, true, g.at, p, p, g.sib, Paint(g.sib, false));
      if Red(g.sib) {
        var u := Make(g.side, true, g.at, p, Paint(g.sib, false));
        AroundSame(g.up, u, Make(g.side, true, g.at, p, g.sib));
        InsertFixInorder(g.up, u);
      } else if c.side == g.side {
        var u := Make(g.side, true, g.at, p, g.sib);
        FixesKids();
        RotatedInorder(u, Other(g.side));
        AroundSame(g.up, u, Rotated(u, Other(g.side)));
        PlugPaint(g.up, Rotated(u, Other(g.side)));
      } else {
        FixesKids();
        var p' := Make(c.side, c.red, c.at, t, c.sib);
        RotatedInorder(p', g.side);
        MakeSame(c.side, c.red, false, c.at, t, t, c.sib, c.sib);
        var t' := Rotated(p', g.side);
        RotatedIsFork(p', g.side);
        PaintInorder(t', false);
        MakeSame(g.side, true, true, g.at, p, Paint(t', false), g.sib, g.sib);
        var u := Make(g.side, true, g.at, Paint(t', false), g.sib);
        RotatedInorder(u, Other(g.side));
        AroundSame(g.up, Rotated(u, Other(g.side)), Make(g.side, true, g.at, p, g.sib));
        PlugPaint(g.up, Rotated(u, Other(g.side)));
      }
    }
  }

  lemma FixesKids()
    ensures forall s, red, at, near, far :: Kid(Make(s, red, at, near, far), s) == near
    ensures forall s, red, at, near, far :: Kid(Make(s, red, at, near, far), Other(s)) == far
    ensures forall s, red, at, near, far :: Make(s, red, at, near, far).Fork?
  {
  }

  lemma RotatedIsFork(t: Tree, s: Side)
    requires t.Fork? && Kid(t, Other(s)).Fork?
    ensures Paint(Rotated(t, s), false).Fork?
  {
  }

  lemma BlackSiblingInorder(c: Ctx)
    ensures Before(BlackSibling(c)) == Before(c) && After(BlackSibling(c)) == After(c)
  {
  }

  lemma RedFarInorder(sib: Tree, side: Side)
    requires sib.Fork? && (Red(Kid(sib, side)) || Red(Kid(sib, Other(side))))
    ensures RedFar(sib, side).Fork? && Inorder(RedFar(sib, side)) == Inorder(sib)
  {
  }

  lemma TurnRemoveInorder(c: Ctx, t: Tree, sib: Tree)
    requires c.In? && sib.Fork?
    ensures Inorder(TurnRemove(c, t, sib)) == Inorder(Make(c.side, c.red, c.at, t, sib))
  {
    PaintInorder(Kid(sib, Other(c.side)), false);
  }

  /** Repair after removal moves no node. */
  lemma {:induction false} RemoveFixInorder(c: Ctx, t: Tree)
    ensures Inorder(RemoveFix(c, t)) == Around(c, t)
    decreases c
  {
    hide Inorder, Make, Plug, Paint, Before, After, TurnRemove, RedFar, Kid;
    PlugInorder(c, t);
    PlugInorder(c, Paint(t, false));
    PaintInorder(t, false);
    if !Red(t) && c.In? {
      var b := BlackSibling(c);
      BlackSiblingInorder(c);
      assert Around(b, t) == Around(c, t);
      if b.sib.Fork? {
        hide Around, BlackSibling;
        AroundUp(b, t, b.red);
        if Red(Kid(b.sib, L)) || Red(Kid(b.sib, R)) {
          RedNephew(b.sib, b.side);
          var f := RedFar(b.sib, b.side);
          RedFarInorder(b.sib, b.side);
          TurnRemoveInorder(b, t, f);
          MakeSame(b.side, b.red, b.red, b.at, t, t, f, b.sib);
          AroundSame(b.up, TurnRemove(b, t, f), Make(b.side, b.red, b.at, t, b.sib));
          PlugPaint(b.up, TurnRemove(b, t, f));
        } else {
          var t' := Make(b.side, b.red, b.at, t, Paint(b.sib, true));
          PaintInorder(b.sib, true);
          MakeSame(b.side, b.red, b.red, b.at, t, t, Paint(b.sib, true), b.sib);
          PaintInorder(t', false);
          AroundSame(b.up, t', Make(b.side, b.red, b.at, t, b.sib));
          AroundSame(b.up, t', Paint(t', false));
          PlugInorder(b.up, Paint(t', false));
          if !b.red {
            BlackIsSame(c);
            RemoveFixInorder(b.up, t');
          }
        }
      }
    }
  }

  lemma RedNephew(sib: Tree, side: Side)
    requires sib.Fork? && (Red(Kid(sib, L)) || Red(Kid(sib, R)))
    ensures Red(Kid(sib, side)) || Red(Kid(sib, Other(side)))
  {
  }

  lemma BlackIsSame(c: Ctx)
    requires c.In? && !BlackSibling(c).red
    ensures BlackSibling(c) == c
  {
  }

  // ---------- Balance ----------

  /** Every path down has `h` black nodes. */
  ghost predicate Balanced(t: Tree, h: nat) {
    match t
    case Leaf => h == 0
    case Fork(red, l, _, r) =>
      if red then Balanced(l, h) && Balanced(r, h)
      else h > 0 && Balanced(l, h - 1) && Balanced(r, h - 1)
  }

  /** The whole is balanced when the missing subtree has black height `h`. */
  ghost predicate BalancedCtx(c: Ctx, h: nat) {
    match c
    case Top => true
    case In(_, red, _, sib, up) => Balanced(sib, h) && BalancedCtx(up, if red then h else h + 1)
  }

  /** No red node has a red child. */
  ghost predicate Calm(t: Tree) {
    match t
    case Leaf => true
    case Fork(red, l, _, r) => Calm(l) && Calm(r) && (red ==> !Red(l) && !Red(r))
  }

  /** The same for the whole, the missing subtree having a root of that color. */
  ghost predicate CalmCtx(c: Ctx, red: bool) {
    match c
    case Top => true
    case In(_, red', _, sib, up) => Calm(sib) && (red' ==> !red && !Red(sib)) && CalmCtx(up, red')
  }

  /** The root is black. */
  ghost predicate BlackTop(c: Ctx) {
    c.In? ==> if c.up.Top? then !c.red else BlackTop(c.up)
  }

  ghost predicate RedBlack(t: Tree) {
    !Red(t) && Calm(t) && exists h :: Balanced(t, h)
  }

  lemma {:induction false} PlugBalanced(c: Ctx, t: Tree, h: nat)
    requires BalancedCtx(c, h) && Balanced(t, h)
    ensures exists h' :: Balanced(Plug(c, t), h')
  {
    if c.In? {
      PlugBalanced(c.up, Make(c.side, c.red, c.at, t, c.sib), if c.red then h else h + 1);
      assert Plug(c, t) == Plug(c.up, Make(c.side, c.red, c.at, t, c.sib));
    } else {
      assert Balanced(Plug(c, t), h);
    }
  }

  lemma {:induction false} PlugCalm(c: Ctx, t: Tree)
    requires CalmCtx(c, Red(t)) && Calm(t)
    ensures Calm(Plug(c, t))
  {
    if c.In? {
      PlugCalm(c.up, Make(c.side, c.red, c.at, t, c.sib));
    }
  }

  lemma {:induction false} PlugBlack(c: Ctx, t: Tree)
    requires BlackTop(c) && (c.Top? ==> !Red(t))
    ensures !Red(Plug(c, t))
  {
    if c.In? {
      PlugBlack(c.up, Make(c.side, c.red, c.at, t, c.sib));
    }
  }

  lemma PaintBlack(t: Tree, h: nat)
    requires Balanced(t, h) && Calm(Paint(t, false))
    ensures RedBlack(Paint(t, false))
  {
    assert Balanced(Paint(t, false), if Red(t) then h + 1 else h);
  }

  lemma PlugRedBlack(c: Ctx, t: Tree, h: nat)
    requires BalancedCtx(c, h) && Balanced(t, h) && Calm(t) && CalmCtx(c, Red(t)) && BlackTop(c) && (c.Top? ==> !Red(t))
    ensures RedBlack(Plug(c, t)) && Paint(Plug(c, t), false) == Plug(c, t)
  {
    PlugBalanced(c, t, h);
    PlugCalm(c, t);
    PlugBlack(c, t);
  }

  /** Repair after insertion makes a red-black tree. */
  lemma {:induction false} InsertFixRedBlack(c: Ctx, t: Tree, h: nat)
    requires Red(t) && Balanced(t, h) && Calm(t)
    requires BalancedCtx(c, h) && CalmCtx(c, false) && BlackTop(c)
    ensures RedBlack(InsertFix(c, t))
  {
    if c.In? && c.red {
      var g := c.up;
      if Red(g.sib) {
        InsertFixRedBlack(g.up, Make(g.side, true, g.at, Make(c.side, false, c.at, t, c.sib), Paint(g.sib, false)), h + 1);
      } else if c.side == g.side {
        var u := Make(g.side, true, g.at, Make(c.side, false, c.at, t, c.sib), g.sib);
        PlugRedBlack(g.up, Rotated(u, Other(g.side)), h + 1);
      } else {
        var t' := Rotated(Make(c.side, c.red, c.at, t, c.sib), g.side);
        var u := Make(g.side, true, g.at, Paint(t', false), g.sib);
        PlugRedBlack(g.up, Rotated(u, Other(g.side)), h + 1);
      }
    } else if c.Top? {
      PaintBlack(t, h);
    } else {
      PlugRedBlack(c, t, h);
    }
  }

  lemma BlackSiblingFacts(c: Ctx, h: nat)
    requires c.In? && BalancedCtx(c, h + 1) && CalmCtx(c, false) && BlackTop(c)
    ensures var b := BlackSibling(c);
            && BalancedCtx(b, h + 1) && CalmCtx(b, false) && BlackTop(b) && b.sib.Fork? && !Red(b.sib)
            && (b == c || b.red)
  {
  }

  lemma RedFarFacts(sib: Tree, side: Side, h: nat)
    requires sib.Fork? && !sib.red && Balanced(sib, h) && Calm(sib)
    requires Red(Kid(sib, side)) || Red(Kid(sib, Other(side)))
    ensures var f := RedFar(sib, side);
            f.Fork? && Balanced(Paint(f, false), h) && !Red(f) && Calm(f) && Red(Kid(f, Other(side)))
  {
  }

  /** Repair after removal makes a red-black tree. */
  lemma {:induction false} RemoveFixRedBlack(c: Ctx, t: Tree, h: nat)
    requires Balanced(t, h) && Calm(Paint(t, false))
    requires BalancedCtx(c, h + 1) && CalmCtx(c, false) && BlackTop(c)
    ensures RedBlack(RemoveFix(c, t))
    decreases c
  {
    if c.Top? {
      PaintBlack(t, h);
    } else if Red(t) {
      PlugRedBlack(c, Paint(t, false), h + 1);
    } else {
      var b := BlackSibling(c);
      BlackSiblingFacts(c, h);
      if Red(Kid(b.sib, L)) || Red(Kid(b.sib, R)) {
        RedFarFacts(b.sib, b.side, h + 1);
        PlugRedBlack(b.up, TurnRemove(b, t, RedFar(b.sib, b.side)), if b.red then h + 1 else h + 2);
      } else {
        var t' := Make(b.side, b.red, b.at, t, Paint(b.sib, true));
        if b.red {
          PlugRedBlack(b.up, Paint(t', false), h + 1);
        } else {
          RemoveFixRedBlack(b.up, t', h + 1);
        }
      }
    }
  }

  // ---------- Seen from a subtree ----------

  lemma {:induction false} Unplug(c: Ctx, t: Tree, h: nat) returns (k: nat)
    requires Balanced(Plug(c, t), h) && Calm(Plug(c, t))
    ensures BalancedCtx(c, k) && Balanced(t, k)
    ensures Calm(t) && CalmCtx(c, Red(t))
  {
    if c.In? {
      var j := Unplug(c.up, Make(c.side, c.red, c.at, t, c.sib), h);
      k := if c.red then j else j - 1;
    } else {
      k := h;
    }
  }

  lemma {:induction false} UnplugTop(c: Ctx, t: Tree)
    requires !Red(Plug(c, t))
    ensures BlackTop(c) && (c.Top? ==> !Red(t))
  {
    if c.In? {
      UnplugTop(c.up, Make(c.side, c.red, c.at, t, c.sib));
    }
  }

  lemma {:induction false} CalmBelow(c: Ctx, red: bool)
    requires CalmCtx(c, red)
    ensures CalmCtx(c, false)
  {
  }

  lemma InsertLeafRedBlack(c: Ctx, n: Node)
    requires RedBlack(Plug(c, Leaf))
    ensures BlackTop(c) && RedBlack(InsertFix(c, Fork(true, Leaf, n, Leaf)))
  {
    var h :| Balanced(Plug(c, Leaf), h);
    var k := Unplug(c, Leaf, h);
    UnplugTop(c, Leaf);
    InsertFixRedBlack(c, Fork(true, Leaf, n, Leaf), k);
  }

  // ---------- Height ----------

  function Height(t: Tree): nat {
    if t.Leaf? then 0 else 1 + Taller(Height(t.left), Height(t.right))
  }

  function Taller(x: nat, y: nat): nat {
    if x < y then y else x
  }

  /** There are as many nodes as full levels of black nodes need. */
  lemma {:induction false} EnoughNodes(t: Tree, h: nat)
    requires Balanced(t, h)
    ensures |Inorder(t)| + 1 >= Pow2(h)
  {
    if t.Fork? {
      var k := if t.red then h else h - 1;
      EnoughNodes(t.left, k);
      EnoughNodes(t.right, k);
    }
  }

  /** At most every other node on a way down is red. */
  lemma {:induction false} NotTooHigh(t: Tree, h: nat)
    requires Balanced(t, h) && Calm(t)
    ensures Height(t) <= 2 * h + (if Red(t) then 1 else 0)
  {
    if t.Fork? {
      var k := if t.red then h else h - 1;
      NotTooHigh(t.left, k);
      NotTooHigh(t.right, k);
    }
  }

  lemma SquareGrows(x: nat, y: nat)
    requires x <= y
    ensures x * x <= y * y
  {
    assert x * x <= x * y <= y * y;
  }

  /** The height is at most twice the logarithm of the number of nodes and one. */
  lemma HeightIsLow(t: Tree)
    requires RedBlack(t)
    ensures var n := |Inorder(t)| + 1; Pow2(Height(t)) <= n * n
  {
    var h: nat :| Balanced(t, h);
    EnoughNodes(t, h);
    NotTooHigh(t, h);
    Pow2Sum(h, h);
    Pow2Grows(Height(t), 2 * h);
    SquareGrows(Pow2(h), |Inorder(t)| + 1);
  }
}
