/** The red-black tree itself: nodes linked by pointers, changed in place. */
module RbTree {
  import opened RbSpec
  import opened RbLinks
  import opened RbOrder
  import opened RbSpine

  function KidField(n: Node, s: Side): Node?
    reads n
  {
    if s == L then n.left else n.right
  }

  ghost function Risen(t: Tree, s: Side): Tree
    requires t.Fork? && Kid(t, s).Fork?
  {
    Rotated(Make(s, true, t.at, Paint(Kid(t, s), false), Kid(t, Other(s))), Other(s))
  }

  lemma RisenRoot(t: Tree, s: Side)
    requires t.Fork? && Kid(t, s).Fork?
    ensures var r := Risen(t, s); r.Fork? && r.at == Kid(t, s).at && !r.red && Kid(r, s) == Kid(Kid(t, s), s)
  {
  }

  /** Where repair goes on after the rotations: at the node below the new top. */
  ghost function InsertTurned(c: Ctx, t: Tree): (Ctx, Tree)
    requires t.Fork? && c.In? && c.up.In?
  {
    var g := c.up;
    var p := Make(c.side, true, c.at, t, c.sib);
    var r := Risen(Make(g.side, g.red, g.at, if c.side == g.side then p else Rotated(p, g.side), g.sib), g.side);
    (In(g.side, r.red, r.at, Kid(r, Other(g.side)), g.up), Kid(r, g.side))
  }

  ghost function Depth(c: Ctx): nat {
    if c.Top? then 0 else 1 + Depth(c.up)
  }

  lemma TurnedFix(c: Ctx, t: Tree)
    requires t.Fork? && c.In? && c.red && c.up.In? && !Red(c.up.sib)
    ensures var (c', t') := InsertTurned(c, t);
            InsertFix(c', t') == InsertFix(c, t) && c'.In? && !c'.red && (BlackTop(c) ==> BlackTop(c'))
  {
    var (c', t') := InsertTurned(c, t);
    var g := c.up;
    assert BlackTop(c) ==> BlackTop(c.up);
    var r := Make(c'.side, c'.red, c'.at, t', c'.sib);
    assert Plug(c', t') == Plug(g.up, r);
  }

  lemma RecolorFix(c: Ctx, t: Tree)
    requires t.Fork? && c.In? && c.red && c.up.In? && Red(c.up.sib)
    ensures var g := c.up;
            InsertFix(g.up, Make(g.side, true, g.at, Make(c.side, false, c.at, t, c.sib), Paint(g.sib, false))) == InsertFix(c, t)
  {
  }

  lemma InsertFixEnds(c: Ctx, t: Tree)
    requires c.In? ==> !c.red
    ensures InsertFix(c, t) == Paint(Plug(c, t), false) && (t.Fork? ==> Plug(c, t).Fork?)
  {
    PlugForks(c, t);
  }

  lemma {:induction false} PlugForks(c: Ctx, t: Tree)
    ensures t.Fork? ==> Plug(c, t).Fork?
  {
    if c.In? {
      PlugForks(c.up, Make(c.side, c.red, c.at, t, c.sib));
    }
  }

  /** The subtree that lacks one black has a sibling, and after a rotation a black one. */
  lemma SiblingIs(m: Mem, c: Ctx, t: Tree, h: nat)
    requires IsZip(m, c, t) && c.In? && Lacks(c, t, h)
    ensures c.sib.Fork? && BlackSibling(c).In? && BlackSibling(c).sib.Fork?
    ensures Has(m, c.at) && KidOf(m, c.at, Other(c.side)) == Root(c.sib)
    ensures KidOf(m, c.at, L) == Root(t) <==> c.side == L
  {
    ParentFacts(m, c, t);
    hide IsZip;
    BlackSiblingFacts(c, h);
  }

  /** Where the repair goes next. */
  lemma NextLevel(c: Ctx, t: Tree, h: nat)
    requires c.In? && Lacks(c, t, h) && !Red(t) && BlackSibling(c).In? && BlackSibling(c).sib.Fork?
    ensures var b := BlackSibling(c);
            if !Red(Kid(b.sib, L)) && !Red(Kid(b.sib, R)) then
              var t' := Make(b.side, b.red, b.at, t, Paint(b.sib, true));
              RemoveFix(b.up, t') == RemoveFix(c, t) && Lacks(b.up, t', if b.red then h else h + 1) && (!b.red ==> Depth(b.up) < Depth(c))
            else
              RemoveFix(c, t) == Paint(Plug(b.up, TurnRemove(b, t, RedFar(b.sib, b.side))), false)
  {
    BlackSiblingFacts(c, h);
  }

  lemma FarIsRed(sib: Tree, s: Side)
    requires sib.Fork? && Red(Kid(sib, Other(s)))
    ensures RedFar(sib, s) == sib
  {
  }

  lemma FarIs(sib: Tree, s: Side)
    requires sib.Fork? && (Red(Kid(sib, L)) || Red(Kid(sib, R)))
    ensures RedFar(sib, s).Fork?
  {
  }

  lemma RemoveFixEnds(c: Ctx, t: Tree)
    requires Red(t) || c.Top?
    ensures RemoveFix(c, t) == Plug(c, Paint(t, false))
  {
  }

  lemma {:induction false} PlugOwner(c: Ctx, t: Tree)
    requires c.In?
    ensures Root(Plug(c, t)) in CtxNodes(c)
  {
    if c.up.In? {
      PlugOwner(c.up, Make(c.side, c.red, c.at, t, c.sib));
    }
  }

  lemma TopOwner(m: Mem, c: Ctx, t: Tree)
    requires IsZip(m, c, t) && c.In?
    ensures Root(Plug(c, t)) != Root(t)
  {
    PlugOwner(c, t);
    RootIn(t);
  }

  lemma SpliceIs(m: Mem, x: Node, k: Node?)
    requires Has(m, x) && (m.parent[x] != null ==> Has(m, m.parent[x]))
    ensures Splice(m, x, k) == Swing(SetParent(m, k, m.parent[x]), m.parent[x], x, k)
  {
  }

  /** The parent of the hole is the successor itself if it was a kid of the node that it replaces. */
  lemma HoleOwner(c: Ctx, t: Tree, k: nat)
    requires t.Fork? && HasSpine(t.right, k) && Apart(t)
    ensures Owner(Hole(c, t, k)) == if Owner(OldHole(c, t, k)) == t.at then Bottom(t.right, k).at else Owner(OldHole(c, t, k))
  {
    var e, e' := In(R, t.red, t.at, t.left, c), In(R, t.red, Bottom(t.right, k).at, t.left, c);
    if k > 0 {
      SpineOwner(e, e', t.right, k);
    }
  }

  lemma {:induction false} SpineOwner(c: Ctx, c': Ctx, t: Tree, k: nat)
    requires k > 0 && HasSpine(t, k)
    ensures Owner(DownLeft(c, t, k)) == Owner(DownLeft(c', t, k)) && Owner(DownLeft(c, t, k)) in Nodes(t)
    decreases k
  {
    if k > 1 {
      SpineOwner(In(L, t.red, t.at, t.right, c), In(L, t.red, t.at, t.right, c'), t.left, k - 1);
    }
  }

  /** The successor is none of the nodes that stay where they are. */
  lemma SuccessorApart(m: Mem, c: Ctx, t: Tree, k: nat)
    requires IsZip(m, c, t) && t.Fork? && HasSpine(t.right, k) && Bottom(t.right, k).left.Leaf?
    ensures Apart(t)
    ensures var b := Bottom(t.right, k); var t' := Fork(t.red, t.left, t.at, WithBottom(t.right, k, b.right));
            b.at !in Nodes(t') && b.at !in CtxNodes(c)
  {
    SpineNodes(t.right, k);
  }

  lemma ReplaceReady(m: Mem, c: Ctx, t: Tree, y: Node)
    requires IsZip(m, c, t) && t.Fork? && y !in Nodes(t) && y !in CtxNodes(c)
    ensures Has(m, t.at) && y != t.at
    ensures var p := m.parent[t.at]; p != t.at && p != y && (p != null ==> Has(m, p))
    ensures forall n :: OneOf(n, m.left[t.at], m.right[t.at]) ==> Has(m, n) && n != t.at
  {
    SpliceReady(m, c, t);
    KidFacts(m, c, t, L);
    KidFacts(m, c, t, R);
    OwnerIn(c);
    RootIn(t);
  }

  lemma TakenIs(c: Ctx, t: Tree, s: Side, h: nat)
    requires t.Fork? && (if t.red then Settled(c, Kid(t, s), h) else Lacks(c, Kid(t, s), h)) && Kid(t, Other(s)).Leaf?
    ensures Left(t.red, c, Kid(t, s), h)
    ensures Around(c, Kid(t, s)) == Before(c) + Inorder(t.left) + Inorder(t.right) + After(c)
  {
    assert Inorder(Kid(t, Other(s))) == [];
  }

  /** The nodes before and after the root of a subtree. */
  lemma Cut(c: Ctx, t: Tree) returns (i: nat)
    requires t.Fork?
    ensures var ns := Inorder(Plug(c, t));
            && i < |ns| && ns[i] == t.at && ns[..i] == Before(c) + Inorder(t.left) && ns[i + 1..] == Inorder(t.right) + After(c)
            && ns[..i] + ns[i + 1..] == Before(c) + Inorder(t.left) + Inorder(t.right) + After(c)
  {
    PlugInorder(c, t);
    var a, b := Before(c) + Inorder(t.left), Inorder(t.right) + After(c);
    i := |a|;
    assert Inorder(t) == Inorder(t.left) + [t.at] + Inorder(t.right);
    assert Around(c, t) == Before(c) + Inorder(t) + After(c);
    hide Before, After, Inorder, Plug, Around;
    Regroup(Before(c), Inorder(t.left), t.at, Inorder(t.right), After(c));
    Middle(a, t.at, b);
  }

  lemma Regroup(a: seq<Node>, l: seq<Node>, n: Node, r: seq<Node>, b: seq<Node>)
    ensures a + (l + [n] + r) + b == (a + l) + [n] + (r + b)
    ensures (a + l) + (r + b) == a + l + r + b
  {
  }

  lemma Middle(a: seq<Node>, n: Node, b: seq<Node>)
    ensures var s := a + [n] + b; s[|a|] == n && s[..|a|] == a && s[|a| + 1..] == b
  {
  }

  lemma NotAgain(ns: seq<Node>, i: nat)
    requires Sorted(ns) && i < |ns|
    ensures ns[i] !in ns[..i] + ns[i + 1..]
  {
    var r := ns[..i] + ns[i + 1..];
    forall j | 0 <= j < |r|
      ensures r[j] != ns[i]
    {
      CmpFlips(ns[i].key, ns[i].key);
      if j < i {
        assert Less(ns[j], ns[i]);
      } else {
        assert Less(ns[i], ns[j + 1]);
      }
    }
  }

  lemma AroundLeaf(c: Ctx, n: Node)
    ensures Around(c, Leaf) == Before(c) + After(c)
    ensures Around(c, Fork(true, Leaf, n, Leaf)) == Before(c) + [n] + After(c)
  {
  }

  lemma EndStep(c: Ctx, t: Tree, s: Side)
    requires t.Fork?
    ensures After(Step(t, c, L)) == [t.at] + Inorder(t.right) + After(c) && Before(Step(t, c, L)) == Before(c)
    ensures Before(Step(t, c, R)) == Before(c) + Inorder(t.left) + [t.at] && After(Step(t, c, R)) == After(c)
  {
  }

  lemma KeptNone(gone: set<Node>)
    ensures Kept([], gone) == []
  {
  }

  class Head {
    var root: Node?
    ghost var mem: Mem
    ghost var tree: Tree

    /** The nodes, in order of their keys. */
    ghost function Contents(): seq<Node>
      reads this`tree
    {
      Inorder(tree)
    }

    /** The pointers stand for a red-black tree with its keys in order. */
    ghost predicate Valid()
      reads this, Dom()
    {
      && Rep() && IsZip(mem, Top, tree) && RedBlack(tree) && Sorted(Contents())
      && forall n :: n in Dom() ==> n in Contents()
    }

    ghost function Dom(): set<Node>
      reads this`mem
    {
      mem.left.Keys
    }

    /** `mem` says what the fields are. */
    ghost predicate Rep()
      reads this`root, this`mem, Dom()
    {
      && root == mem.root
      && forall n :: n in mem.left ==>
                       Has(mem, n) && n.left == mem.left[n] && n.right == mem.right[n] && n.parent == mem.parent[n] && n.red == mem.red[n]
    }

    lemma RepIs(n: Node)
      requires Rep() && n in Dom()
      ensures Has(mem, n) && n.left == mem.left[n] && n.right == mem.right[n] && n.parent == mem.parent[n] && n.red == mem.red[n]
      ensures forall s :: KidField(n, s) == KidOf(mem, n, s)
    {
    }

    method PutKid(n: Node, s: Side, x: Node?)
      requires Rep() && n in Dom()
      modifies this`mem, n`left, n`right
      ensures Rep() && Dom() == old(Dom()) && mem == SetKid(old(mem), n, s, x)
    {
      if s == L { n.left := x; } else { n.right := x; }
      mem := SetKid(mem, n, s, x);
    }

    method PutParent(n: Node, x: Node?)
      requires Rep() && n in Dom()
      modifies this`mem, n`parent
      ensures Rep() && Dom() == old(Dom()) && mem == SetParent(old(mem), n, x)
    {
      n.parent := x;
      mem := SetParent(mem, n, x);
    }

    method PutRed(n: Node, red: bool)
      requires Rep() && n in Dom()
      modifies this`mem, n`red
      ensures Rep() && Dom() == old(Dom()) && mem == SetRed(old(mem), n, red)
    {
      n.red := red;
      mem := SetRed(mem, n, red);
    }

    /** Makes the pointer to `x`, in its parent or the root, point to `y`. */
    method PutInstead(p: Node?, x: Node?, y: Node?)
      requires Rep() && (p != null ==> p in Dom())
      modifies this, if p == null then {} else {p}
      ensures Rep() && Dom() == old(Dom()) && mem == Swing(old(mem), p, x, y)
    {
      if p == null {
        PutRoot(y);
      } else if p.left == x {
        PutKid(p, L, y);
      } else {
        PutKid(p, R, y);
      }
    }

    /** Rotates `x` down to side `s`. */
    method Turn(x: Node, s: Side)
      requires Rep() && x in Dom() && CanRotate(mem, x, s)
      requires var b := KidOf(mem, KidOf(mem, x, Other(s)), s); b != x && (b != null ==> Has(mem, b))
      modifies this, Dom()
      ensures Rep() && Dom() == old(Dom()) && mem == Rotate(old(mem), x, s)
    {
      hide Rep, SetKid, SetParent, Swing, Rotate;
      RotateSteps(mem, x, s);
      RepIs(x);
      var y := KidField(x, Other(s));
      RepIs(y);
      var b := KidField(y, s);
      HandOver(x, b, Other(s));
      RepIs(x);
      var p := x.parent;
      PutParent(y, p);
      TurnUp(x, y, p, s);
    }

    /** Puts `y` in the place of `x`, and `x` below it. */
    method TurnUp(x: Node, y: Node, p: Node?, s: Side)
      requires Rep() && x in Dom() && y in Dom() && (p != null ==> p in Dom())
      modifies this, Dom()
      ensures Rep() && Dom() == old(Dom())
      ensures p != null ==> Has(old(mem), p)
      ensures mem == SetParent(SetKid(Swing(old(mem), p, x, y), y, s, x), x, y)
    {
      if p != null { RepIs(p); }
      hide Rep, SetKid, SetParent, Swing;
      PutInstead(p, x, y);
      PutKid(y, s, x);
      PutParent(x, y);
    }

    /** Makes `b` the kid of `x` on a side. */
    method HandOver(x: Node, b: Node?, s: Side)
      requires Rep() && x in Dom() && (b != null ==> b in Dom())
      modifies this`mem, Dom()
      ensures Rep() && Dom() == old(Dom()) && mem == SetParent(SetKid(old(mem), x, s, b), b, x)
    {
      hide Rep, SetKid;
      PutKid(x, s, b);
      Adopt(b, x);
    }

    // ---------- Steps on the tree that the pointers stand for ----------

    method TurnAt(x: Node, s: Side, ghost c: Ctx, ghost t: Tree)
      requires Rep() && IsZip(mem, c, t) && t.Fork? && t.at == x && Kid(t, Other(s)).Fork?
      modifies this, Dom()
      ensures Rep() && Dom() == old(Dom()) && IsZip(mem, c, Rotated(t, s))
    {
      hide IsZip, Rotate;
      RotateReady(mem, c, t, s);
      RotateZip(mem, c, t, s);
      Turn(x, s);
    }

    method TurnKid(x: Node, side: Side, ghost c: Ctx, ghost t: Tree, ghost s: Side)
      requires Rep() && IsZip(mem, c, t) && t.Fork? && Kid(t, s).Fork? && Kid(t, s).at == x && Kid(Kid(t, s), Other(side)).Fork?
      modifies this, Dom()
      ensures Rep() && Dom() == old(Dom()) && IsZip(mem, c, WithKid(t, s, Rotated(Kid(t, s), side)))
    {
      hide IsZip, Rotate, Rotated;
      Down(mem, c, t, s);
      RotateReady(mem, In(s, t.red, t.at, Kid(t, Other(s)), c), Kid(t, s), side);
      RotateKid(mem, c, t, s, side);
      Turn(x, side);
    }

    method PaintAt(x: Node, red: bool, ghost c: Ctx, ghost t: Tree)
      requires Rep() && IsZip(mem, c, t) && t.Fork? && t.at == x
      modifies this`mem, x`red
      ensures Rep() && Dom() == old(Dom()) && IsZip(mem, c, Paint(t, red))
    {
      hide IsZip, SetRed;
      KidFacts(mem, c, t, L);
      PaintRoot(mem, c, t, red);
      PutRed(x, red);
    }

    method PaintKidAt(x: Node, red: bool, ghost c: Ctx, ghost t: Tree, ghost s: Side)
      requires Rep() && IsZip(mem, c, t) && t.Fork? && Kid(t, s).Fork? && Kid(t, s).at == x
      modifies this`mem, x`red
      ensures Rep() && Dom() == old(Dom()) && IsZip(mem, c, WithKid(t, s, Paint(Kid(t, s), red)))
    {
      hide IsZip, SetRed;
      KidFacts(mem, c, t, s);
      PaintKid(mem, c, t, s, red);
      PutRed(x, red);
    }

    // ---------- Repair after insertion ----------

    /** Parent and uncle are red: both become black, and the grandparent red. */
    method Recolor(p: Node, u: Node, g: Node, ghost c: Ctx, ghost t: Tree, ghost s: Side)
      requires Rep() && IsZip(mem, c, t) && t.Fork? && t.at == g
      requires Kid(t, s).Fork? && Kid(t, s).at == p && Kid(t, Other(s)).Fork? && Kid(t, Other(s)).at == u
      modifies this, Dom()
      ensures Rep() && Dom() == old(Dom())
      ensures IsZip(mem, c, Make(s, true, g, Paint(Kid(t, s), false), Paint(Kid(t, Other(s)), false)))
    {
      hide IsZip, Rep;
      KidFacts(mem, c, t, s);
      KidFacts(mem, c, t, Other(s));
      PaintKidAt(u, false, c, t, Other(s));
      ghost var t1 := WithKid(t, Other(s), Paint(Kid(t, Other(s)), false));
      PaintKidAt(p, false, c, t1, s);
      ghost var t2 := WithKid(t1, s, Paint(Kid(t1, s), false));
      PaintAt(g, true, c, t2);
      assert Paint(t2, true) == Make(s, true, g, Paint(Kid(t, s), false), Paint(Kid(t, Other(s)), false));
    }

    /** The kid on side `s` ends on top, painted black, and the top, painted red, below it. */
    method Rise(p: Node, g: Node, s: Side, ghost c: Ctx, ghost t: Tree)
      requires Rep() && IsZip(mem, c, t) && t.Fork? && t.at == g && Kid(t, s).Fork? && Kid(t, s).at == p
      modifies this, Dom()
      ensures Rep() && Dom() == old(Dom())
      ensures IsZip(mem, c, Risen(t, s))
    {
      hide IsZip, Rotated, Rep;
      KidFacts(mem, c, t, s);
      PaintKidAt(p, false, c, t, s);
      ghost var u := WithKid(t, s, Paint(Kid(t, s), false));
      PaintAt(g, true, c, u);
      TurnAt(g, Other(s), c, Paint(u, true));
      assert Paint(u, true) == Make(s, true, g, Paint(Kid(t, s), false), Kid(t, Other(s)));
    }

    /** The uncle is not red: one or two rotations bring the parent, or `elm`, to the top. */
    method InsertTurn(elm: Node, p: Node, g: Node, s: Side, ghost c: Ctx, ghost t: Tree) returns (elm': Node, ghost c': Ctx, ghost t': Tree)
      requires Rep() && IsZip(mem, c, t) && t.Fork? && t.at == elm
      requires c.In? && c.red && c.at == p && c.up.In? && c.up.at == g && c.up.side == s
      modifies this, Dom()
      ensures Rep() && Dom() == old(Dom()) && IsZip(mem, c', t')
      ensures (c', t') == InsertTurned(c, t) && t'.Fork? && t'.at == elm'
    {
      hide IsZip, Rotated, Rep, Risen;
      Up(mem, c, t);
      SideIs(mem, c, t, Other(s));
      ghost var u := Make(c.side, true, p, t, c.sib);
      Up(mem, c.up, u);
      ghost var up, v := c.up.up, Make(s, c.up.red, g, u, c.up.sib);
      var p' := p;
      elm' := elm;
      RepIs(p);
      if KidField(p, Other(s)) == elm {
        TurnKid(p, s, up, v, s);
        v := WithKid(v, s, Rotated(u, s));
        RotatedRoot(u, s);
        p', elm' := elm, p;
      }
      Rise(p', g, s, up, v);
      RisenRoot(v, s);
      Down(mem, up, Risen(v, s), s);
      c', t' := InsertTurned(c, t).0, InsertTurned(c, t).1;
    }

    /** Restores the colors after `elm`, the root of `t`, was put into place. */
    method InsertColor(elm: Node, ghost c: Ctx, ghost t: Tree)
      requires Rep() && IsZip(mem, c, t) && t.Fork? && t.at == elm && BlackTop(c)
      modifies this, Dom()
      ensures Rep() && Dom() == old(Dom()) && IsZip(mem, Top, InsertFix(c, t))
    {
      hide IsZip, Rep, InsertFix, InsertTurned;
      var e := elm;
      ghost var c', t' := c, t;
      ParentFacts(mem, c', t');
      RepIs(e);
      if e.parent != null { RepIs(e.parent); }
      while e.parent != null && e.parent.red
        invariant Rep() && Dom() == old(Dom()) && IsZip(mem, c', t') && t'.Fork? && t'.at == e && BlackTop(c')
        invariant InsertFix(c', t') == InsertFix(c, t)
        invariant e.parent == Owner(c') && (c'.In? ==> c'.at.red == c'.red)
        decreases if c'.In? && c'.red then Depth(c') else 0
      {
        e, c', t' := InsertStep(e, c', t');
        ParentFacts(mem, c', t');
        RepIs(e);
        if e.parent != null { RepIs(e.parent); }
      }
      InsertFixEnds(c', t');
      ToTop(mem, c', t');
      PaintTop(Plug(c', t'));
    }

    /** Paints the root black. */
    method PaintTop(ghost t: Tree)
      requires Rep() && IsZip(mem, Top, t) && t.Fork?
      modifies this, Dom()
      ensures Rep() && Dom() == old(Dom()) && IsZip(mem, Top, Paint(t, false))
    {
      ParentFacts(mem, Top, t);
      PaintAt(root, false, Top, t);
    }

    method InsertStep(elm: Node, ghost c: Ctx, ghost t: Tree) returns (elm': Node, ghost c': Ctx, ghost t': Tree)
      requires Rep() && IsZip(mem, c, t) && t.Fork? && t.at == elm && BlackTop(c) && c.In? && c.red
      modifies this, Dom()
      ensures Rep() && Dom() == old(Dom()) && IsZip(mem, c', t') && t'.Fork? && t'.at == elm' && BlackTop(c')
      ensures InsertFix(c', t') == InsertFix(c, t)
      ensures c'.In? && c'.red ==> Depth(c') < Depth(c)
    {
      hide IsZip, Rep, InsertFix, InsertTurned;
      ParentFacts(mem, c, t);
      ghost var u := Make(c.side, c.red, c.at, t, c.sib);
      Up(mem, c, t);
      ParentFacts(mem, c.up, u);
      RepIs(elm);
      var p := elm.parent;
      RepIs(p);
      var g := p.parent;
      RepIs(g);
      SideIs(mem, c.up, u, L);
      var s := if p == g.left then L else R;
      var tmp := KidField(g, Other(s));
      if tmp != null { RepIs(tmp); }
      if tmp != null && tmp.red {
        Up(mem, c.up, u);
        Recolor(p, tmp, g, c.up.up, Make(s, c.up.red, g, u, c.up.sib), s);
        elm', c', t' := g, c.up.up, Make(s, true, g, Make(c.side, false, p, t, c.sib), Paint(c.up.sib, false));
        RecolorFix(c, t);
      } else {
        elm', c', t' := InsertTurn(elm, p, g, s, c, t);
        TurnedFix(c, t);
      }
    }

    // ---------- Looking up ----------

    /** The node with the key of `elm`, if there is one. */
    method Find(elm: Node) returns (found: Node?)
      requires Valid()
      ensures found != null ==> found in Contents() && found.key == elm.key
      ensures found == null ==> forall n :: n in Contents() ==> n.key != elm.key
    {
      hide IsZip, Rep, Cmp, Sorted, RedBlack;
      var tmp := root;
      ghost var c, t := Top, tree;
      FitsTop(elm.key);
      ParentFacts(mem, Top, t);
      RootIs();
      while tmp != null
        invariant Rep() && IsZip(mem, c, t) && tmp == Root(t) && Plug(c, t) == tree && Fits(c, elm.key)
        decreases t
      {
        PlugInorder(c, t);
        FitsDown(c, t, elm.key);
        CmpFlips(elm.key, tmp.key);
        KidFacts(mem, c, t, L);
        KidFacts(mem, c, t, R);
        RepIs(tmp);
        var comp := Cmp(elm.key, tmp.key);
        if comp < 0 {
          Down(mem, c, t, L);
          tmp, c, t := tmp.left, Step(t, c, L), t.left;
        } else if comp > 0 {
          Down(mem, c, t, R);
          tmp, c, t := tmp.right, Step(t, c, R), t.right;
        } else {
          return tmp;
        }
      }
      PlugInorder(c, t);
      FitsHere(c, elm);
      found := null;
    }

    lemma RootIs()
      requires Rep() && IsZip(mem, Top, tree)
      ensures root == Root(tree)
    {
    }

    // ---------- Insertion ----------

    /** The way down to the place of a key: a node that has it, or the last node on the way. */
    method Descend(key: Key) returns (found: Node?, parent: Node?, comp: int, ghost c: Ctx)
      requires Valid()
      ensures found != null ==> found in Contents() && found.key == key
      ensures found == null ==> IsZip(mem, c, Leaf) && Plug(c, Leaf) == tree && Fits(c, key) && parent == Owner(c)
      ensures found == null && c.In? ==> (comp < 0 <==> c.side == L)
    {
      hide IsZip, Rep, Cmp, Sorted, RedBlack;
      var tmp := root;
      c, parent, comp, found := Top, null, 0, null;
      ghost var t := tree;
      FitsTop(key);
      ParentFacts(mem, Top, t);
      RootIs();
      while tmp != null
        invariant Rep() && IsZip(mem, c, t) && tmp == Root(t) && Plug(c, t) == tree && Fits(c, key)
        invariant parent == Owner(c) && (c.In? ==> (comp < 0 <==> c.side == L))
        decreases t
      {
        parent := tmp;
        PlugInorder(c, t);
        FitsDown(c, t, key);
        CmpFlips(key, parent.key);
        KidFacts(mem, c, t, L);
        KidFacts(mem, c, t, R);
        RepIs(tmp);
        comp := Cmp(key, parent.key);
        if comp < 0 {
          Down(mem, c, t, L);
          tmp, c, t := tmp.left, Step(t, c, L), t.left;
        } else if comp > 0 {
          Down(mem, c, t, R);
          tmp, c, t := tmp.right, Step(t, c, R), t.right;
        } else {
          return tmp, parent, comp, c;
        }
      }
    }

    /** Puts `elm` below `parent` as a red leaf. */
    method Hang(elm: Node, parent: Node?, comp: int, ghost c: Ctx)
      requires Rep() && IsZip(mem, c, Leaf) && elm !in Dom() && parent == Owner(c) && (c.In? ==> (comp < 0 <==> c.side == L))
      modifies this, Dom(), elm
      ensures Rep() && Dom() == old(Dom()) + {elm}
      ensures IsZip(mem, c, Fork(true, Leaf, elm, Leaf))
    {
      ParentFacts(mem, c, Leaf);
      if elm in CtxNodes(c) { CtxHas(mem, c, null, elm); }
      AttachZip(mem, c, elm);
      hide IsZip, Rep;
      Admit(elm, parent);
      if parent != null {
        PutKid(parent, if comp < 0 then L else R, elm);
      } else {
        PutRoot(elm);
      }
    }

    /** A node without kids joins, not yet pointed to. */
    method Admit(elm: Node, parent: Node?)
      requires Rep() && elm !in Dom()
      modifies this`mem, elm
      ensures Rep() && Dom() == old(Dom()) + {elm} && mem == Enter(old(mem), elm, parent)
    {
      elm.parent := parent;
      elm.left, elm.right := null, null;
      elm.red := true;
      mem := Enter(mem, elm, parent);
    }

    method PutRoot(x: Node?)
      requires Rep()
      modifies this`root, this`mem
      ensures Rep() && Dom() == old(Dom()) && mem == old(mem).(root := x)
    {
      root := x;
      mem := mem.(root := x);
    }

    /** Inserts `elm`, unless a node with its key is there; then that one is returned. */
    method Insert(elm: Node) returns (found: Node?, ghost i: nat)
      requires Valid()
      modifies this, Dom(), elm
      ensures Valid()
      ensures (found != null) <==> exists n :: n in old(Contents()) && n.key == elm.key
      ensures found != null ==> found in old(Contents()) && found.key == elm.key
      ensures found != null ==> Contents() == old(Contents()) && Dom() == old(Dom())
      ensures found == null ==> i <= |old(Contents())| && Dom() == old(Dom()) + {elm}
      ensures found == null ==> Contents() == old(Contents())[..i] + [elm] + old(Contents())[i..]
    {
      hide IsZip, Rep, Cmp, Sorted, RedBlack, InsertFix, Fits, Around, Inorder, Before, After;
      var parent, comp;
      ghost var c;
      found, parent, comp, c := Descend(elm.key);
      i := 0;
      if found != null {
        return;
      }
      PlugInorder(c, Leaf);
      FitsHere(c, elm);
      AroundLeaf(c, elm);
      i := |Before(c)|;
      InsertLeafRedBlack(c, elm);
      Hang(elm, parent, comp, c);
      ghost var leaf := Fork(true, Leaf, elm, Leaf);
      InsertColor(elm, c, leaf);
      tree := InsertFix(c, leaf);
      InsertFixInorder(c, leaf);
    }

    // ---------- Repair after removal ----------

    /** A red sibling is rotated away. */
    method BlackenSibling(p: Node, tmp: Node, s: Side, ghost c: Ctx, ghost t: Tree) returns (sib: Node)
      requires Rep() && IsZip(mem, c, t) && c.In? && c.at == p && c.side == s && Root(c.sib) == tmp
      requires BlackSibling(c).sib.Fork?
      modifies this, Dom()
      ensures Rep() && Dom() == old(Dom()) && BlackSibling(c).sib.at == sib
      ensures var b := BlackSibling(c); IsZip(mem, b.up, Make(s, b.red, p, t, b.sib)) && b.at == p && b.side == s
    {
      hide IsZip, Rep;
      ParentFacts(mem, c, t);
      RepIs(tmp);
      Up(mem, c, t);
      ghost var u := Make(s, c.red, p, t, c.sib);
      if tmp.red {
        PaintKidAt(tmp, false, c.up, u, Other(s));
        ghost var u1 := WithKid(u, Other(s), Paint(c.sib, false));
        PaintAt(p, true, c.up, u1);
        TurnAt(p, s, c.up, Paint(u1, true));
        ghost var r := Rotated(Paint(u1, true), s);
        Down(mem, c.up, r, s);
        KidFacts(mem, In(s, r.red, r.at, Kid(r, Other(s)), c.up), Kid(r, s), Other(s));
        RepIs(p);
        sib := KidField(p, Other(s));
      } else {
        sib := tmp;
      }
    }

    /** Whether a node is missing or black. */
    predicate Blackish(n: Node?)
      reads n
    {
      n == null || !n.red
    }

    lemma NephewIs(tmp: Node, s: Side, c: Ctx, t: Tree)
      requires Rep() && IsZip(mem, c, t) && t.Fork? && t.at == tmp
      ensures Has(mem, tmp) && KidField(tmp, s) == Root(Kid(t, s)) && (Blackish(KidField(tmp, s)) <==> !Red(Kid(t, s)))
      ensures Kid(t, s).Fork? ==> Kid(t, s).at in Dom()
    {
      hide IsZip;
      KidFacts(mem, c, t, s);
    }

    /** The near nephew is the red one: it is rotated to the far side. */
    method MakeRedFar(tmp: Node, s: Side, ghost c: Ctx, ghost t: Tree)
      requires Rep() && IsZip(mem, c, t) && t.Fork? && t.at == tmp && Red(Kid(t, s)) && !Red(Kid(t, Other(s)))
      modifies this, Dom()
      ensures Rep() && Dom() == old(Dom()) && IsZip(mem, c, RedFar(t, s))
    {
      hide IsZip, Rep;
      NephewIs(tmp, s, c, t);
      var near := KidField(tmp, s);
      if near != null {
        PaintKidAt(near, false, c, t, s);
      }
      ghost var u := WithKid(t, s, Paint(Kid(t, s), false));
      PaintAt(tmp, true, c, u);
      TurnAt(tmp, Other(s), c, Paint(u, true));
    }

    /** The far nephew is red: a last rotation, with which repair ends. */
    method LastTurn(p: Node, tmp: Node, s: Side, ghost c: Ctx, ghost t: Tree, ghost sib: Tree)
      requires Rep() && c.In? && c.at == p && c.side == s && sib.Fork? && sib.at == tmp
      requires IsZip(mem, c.up, Make(s, c.red, p, t, sib))
      modifies this, Dom()
      ensures Rep() && Dom() == old(Dom()) && IsZip(mem, c.up, TurnRemove(c, t, sib))
    {
      hide IsZip, Rep;
      ghost var u := Make(s, c.red, p, t, sib);
      KidFacts(mem, c.up, u, Other(s));
      RepIs(p);
      PaintKidAt(tmp, p.red, c.up, u, Other(s));
      ghost var sib1 := Paint(sib, c.red);
      ghost var u1 := WithKid(u, Other(s), sib1);
      KidFacts(mem, c.up, u1, Other(s));
      PaintAt(p, false, c.up, u1);
      ghost var u2 := Paint(u1, false);
      Down(mem, c.up, u2, Other(s));
      ghost var d := Step(u2, c.up, Other(s));
      PaintFar(tmp, s, d, sib1);
      ghost var sib2 := WithKid(sib1, Other(s), Paint(Kid(sib, Other(s)), false));
      Up(mem, d, sib2);
      TurnAt(p, s, c.up, Make(s, false, p, t, sib2));
    }

    method PaintFar(tmp: Node, s: Side, ghost c: Ctx, ghost t: Tree)
      requires Rep() && IsZip(mem, c, t) && t.Fork? && t.at == tmp
      modifies this, Dom()
      ensures Rep() && Dom() == old(Dom()) && IsZip(mem, c, WithKid(t, Other(s), Paint(Kid(t, Other(s)), false)))
    {
      hide IsZip, Rep;
      NephewIs(tmp, Other(s), c, t);
      var far := KidField(tmp, Other(s));
      if far != null {
        PaintKidAt(far, false, c, t, Other(s));
      } else {
        assert WithKid(t, Other(s), Paint(Kid(t, Other(s)), false)) == t;
      }
    }

    /** One round of the repair: it ends with a rotation, or goes on one level up. */
    method RemoveStep(p: Node, elm: Node?, ghost c: Ctx, ghost t: Tree, ghost h: nat)
      returns (done: bool, ghost c': Ctx, ghost t': Tree, ghost h': nat)
      requires Rep() && IsZip(mem, c, t) && c.In? && c.at == p && Root(t) == elm && !Red(t) && Lacks(c, t, h)
      modifies this, Dom()
      ensures Rep() && Dom() == old(Dom()) && IsZip(mem, c', t')
      ensures done ==> c' == Top && RemoveFix(c, t) == Paint(t', false)
      ensures !done ==> t'.Fork? && t'.at == p && RemoveFix(c', t') == RemoveFix(c, t) && Lacks(c', t', h')
      ensures !done && !Red(t') ==> Depth(c') < Depth(c)
    {
      hide IsZip, Rep, RemoveFix, Lacks, BlackSibling, RedFar, TurnRemove;
      SiblingIs(mem, c, t, h);
      NextLevel(c, t, h);
      RepIs(p);
      var s := if p.left == elm then L else R;
      var tmp := KidField(p, Other(s));
      tmp := BlackenSibling(p, tmp, s, c, t);
      ghost var b := BlackSibling(c);
      ghost var u := Make(s, b.red, p, t, b.sib);
      Down(mem, b.up, u, Other(s));
      ghost var d := Step(u, b.up, Other(s));
      NephewIs(tmp, L, d, b.sib);
      NephewIs(tmp, R, d, b.sib);
      NephewIs(tmp, Other(s), d, b.sib);
      if Blackish(tmp.left) && Blackish(tmp.right) {
        PaintKidAt(tmp, true, b.up, u, Other(s));
        h' := if b.red then h else h + 1;
        done, c', t' := false, b.up, WithKid(u, Other(s), Paint(b.sib, true));
      } else {
        ghost var f := RedFar(b.sib, s);
        if Blackish(KidField(tmp, Other(s))) {
          MakeRedFar(tmp, s, d, b.sib);
        } else {
          FarIsRed(b.sib, s);
        }
        Up(mem, d, f);
        KidFacts(mem, b.up, Make(s, b.red, p, t, f), Other(s));
        RepIs(p);
        FarIs(b.sib, s);
        LastTurn(p, KidField(p, Other(s)), s, b, t, f);
        ToTop(mem, b.up, TurnRemove(b, t, f));
        h' := 0;
        done, c', t' := true, Top, Plug(b.up, TurnRemove(b, t, f));
      }
    }

    /** Restores the balance after a black node above `elm`, the root of `t`, was taken out. */
    method RemoveColor(parent: Node?, elm: Node?, ghost c: Ctx, ghost t: Tree, ghost h: nat)
      requires Rep() && IsZip(mem, c, t) && Owner(c) == parent && Root(t) == elm && Lacks(c, t, h)
      modifies this, Dom()
      ensures Rep() && Dom() == old(Dom()) && IsZip(mem, Top, RemoveFix(c, t))
    {
      hide IsZip, Rep, RemoveFix, Lacks;
      var p, e := parent, elm;
      ghost var c', t', h' := c, t, h;
      AtRoot(c', t');
      while Blackish(e) && e != root
        invariant Rep() && Dom() == old(Dom()) && IsZip(mem, c', t') && Root(t') == e
        invariant RemoveFix(c', t') == RemoveFix(c, t)
        invariant c'.In? ==> Owner(c') == p && Lacks(c', t', h')
        invariant (e == root <==> c'.Top?) && (Blackish(e) <==> !Red(t'))
        decreases if c'.In? && !Red(t') then Depth(c') else 0
      {
        var done;
        done, c', t', h' := RemoveStep(p, e, c', t', h');
        if done {
          RootOf(t');
          RemoveFixEnds(c', t');
          e := root;
          break;
        }
        e := p;
        ParentFacts(mem, c', t');
        RepIs(e);
        p := e.parent;
        AtRoot(c', t');
      }
      RemoveFixEnds(c', t');
      ParentFacts(mem, c', t');
      if e != null {
        PaintAt(e, false, c', t');
      }
      ToTop(mem, c', Paint(t', false));
    }

    lemma RootOf(t: Tree)
      requires Rep() && IsZip(mem, Top, t)
      ensures root == Root(t)
    {
    }

    /** The root pointer tells whether a subtree is the whole. */
    lemma AtRoot(c: Ctx, t: Tree)
      requires Rep() && IsZip(mem, c, t)
      ensures root == Root(t) <==> c.Top?
      ensures Blackish(Root(t)) <==> !Red(t)
    {
      hide IsZip;
      ParentFacts(mem, c, t);
      ToTop(mem, c, t);
      if c.In? {
        TopOwner(mem, c, t);
      }
    }

    // ---------- Removal ----------

    /** Takes out a node that has no kid on the other side of `child`. */
    method SpliceOut(x: Node, child: Node?, ghost c: Ctx, ghost t: Tree, ghost s: Side) returns (parent: Node?)
      requires Rep() && IsZip(mem, c, t) && t.Fork? && t.at == x && Kid(t, Other(s)).Leaf? && Root(Kid(t, s)) == child
      modifies this, Dom()
      ensures Rep() && Dom() == old(Dom()) && IsZip(mem, c, Kid(t, s)) && parent == Owner(c)
    {
      hide IsZip, Rep, Splice;
      SpliceReady(mem, c, t);
      SpliceZip(mem, c, t, s);
      KidFacts(mem, c, t, s);
      RepIs(x);
      parent := x.parent;
      SpliceIs(mem, x, child);
      if child != null {
        PutParent(child, parent);
      }
      PutInstead(parent, x, child);
    }

    /** Gives `y` the fields and the place of `x`. */
    method PutInPlace(x: Node, y: Node)
      requires Rep() && x in Dom() && y in Dom() && x != y
      requires var p := mem.parent[x]; p != x && p != y && (p != null ==> p in Dom())
      requires forall k :: OneOf(k, mem.left[x], mem.right[x]) ==> k in Dom() && k != x
      modifies this, Dom()
      ensures Rep() && Dom() == old(Dom()) && Has(old(mem), x) && mem == Replace(old(mem), x, y)
    {
      hide Rep, SetParent, Swing, Copy, Replace;
      RepIs(x);
      if x.parent != null { RepIs(x.parent); }
      ReplaceSteps(mem, x, y);
      assert x.left != null ==> OneOf(x.left, mem.left[x], mem.right[x]);
      assert x.right != null ==> OneOf(x.right, mem.left[x], mem.right[x]);
      CopyFields(x, y);
      var p, l, r := x.parent, x.left, x.right;
      PutInstead(p, x, y);
      Adopt(l, y);
      Adopt(r, y);
    }

    method Adopt(n: Node?, p: Node)
      requires Rep() && (n != null ==> n in Dom())
      modifies this`mem, Dom()
      ensures Rep() && Dom() == old(Dom()) && mem == SetParent(old(mem), n, p)
    {
      hide Rep;
      if n != null {
        PutParent(n, p);
      }
    }

    method CopyFields(x: Node, y: Node)
      requires Rep() && x in Dom() && y in Dom() && x != y
      modifies this`mem, y
      ensures Rep() && Dom() == old(Dom()) && mem == Copy(old(mem), x, y)
      ensures x.parent == old(x.parent) && x.left == old(x.left) && x.right == old(x.right)
    {
      RepIs(x);
      hide Rep;
      PutKid(y, L, x.left);
      PutKid(y, R, x.right);
      PutParent(y, x.parent);
      PutRed(y, x.red);
    }

    /** The successor of a node with two kids, at the end of the way right and then left. */
    method NextBelow(x: Node, ghost c: Ctx, ghost t: Tree) returns (y: Node, ghost k: nat)
      requires Rep() && IsZip(mem, c, t) && t.Fork? && t.at == x && t.right.Fork?
      ensures HasSpine(t.right, k) && Bottom(t.right, k).at == y && Bottom(t.right, k).left.Leaf?
      ensures IsZip(mem, DownLeft(Step(t, c, R), t.right, k), Bottom(t.right, k))
    {
      hide IsZip, Rep;
      Down(mem, c, t, R);
      ghost var d := Step(t, c, R);
      KidFacts(mem, c, t, R);
      RepIs(x);
      y := x.right;
      k := 0;
      ghost var b := t.right;
      KidFacts(mem, d, b, L);
      RepIs(y);
      while y.left != null
        invariant Rep() && HasSpine(t.right, k) && b == Bottom(t.right, k) && b.at == y && y.left == Root(b.left)
        invariant IsZip(mem, DownLeft(d, t.right, k), b)
        decreases b
      {
        ghost var e := DownLeft(d, t.right, k);
        SpineStep(d, t.right, k);
        Down(mem, e, b, L);
        KidFacts(mem, e, b, L);
        y := y.left;
        b := b.left;
        k := k + 1;
        KidFacts(mem, DownLeft(d, t.right, k), b, L);
        RepIs(y);
      }
    }

    /** Takes out `x` by putting its successor in its place. */
    method RemoveInner(x: Node, ghost c: Ctx, ghost t: Tree)
      returns (red: bool, child: Node?, parent: Node?, ghost d: Ctx, ghost u: Tree, ghost k: nat)
      requires Rep() && IsZip(mem, c, t) && t.Fork? && t.at == x && t.left.Fork? && t.right.Fork?
      modifies this, Dom()
      ensures Rep() && Dom() == old(Dom()) && IsZip(mem, d, u) && Root(u) == child && Owner(d) == parent
      ensures HasSpine(t.right, k) && Bottom(t.right, k).left.Leaf?
      ensures d == Hole(c, t, k) && u == Bottom(t.right, k).right && red == Bottom(t.right, k).red
    {
      hide IsZip, Rep, Replace, Copy;
      var y;
      y, k := NextBelow(x, c, t);
      ghost var b, e := Bottom(t.right, k), Step(t, c, R);
      KidFacts(mem, OldHole(c, t, k), b, R);
      RepIs(y);
      child, red := y.right, y.red;
      SuccessorApart(mem, c, t, k);
      parent := SpliceOut(y, child, OldHole(c, t, k), b, R);
      SpineUp(mem, e, t.right, k, b.right);
      Up(mem, e, WithBottom(t.right, k, b.right));
      ghost var t' := Fork(t.red, t.left, x, WithBottom(t.right, k, b.right));
      ReplaceReady(mem, c, t', y);
      ReplaceZip(mem, c, t', y);
      PutInPlace(x, y);
      ghost var e' := In(R, t.red, y, t.left, c);
      Down(mem, c, Fork(t.red, t.left, y, WithBottom(t.right, k, b.right)), R);
      SpineDown(mem, e', t.right, k, b.right);
      d, u := Hole(c, t, k), b.right;
      HoleOwner(c, t, k);
      if parent == x {
        parent := y;
      }
    }

    /** Ends a removal: repairs the tree if a black node was taken out. */
    method Finish(red: bool, parent: Node?, child: Node?, ghost c: Ctx, ghost t: Tree, ghost h: nat)
      requires Rep() && IsZip(mem, c, t) && Owner(c) == parent && Root(t) == child && Left(red, c, t, h)
      modifies this, Dom()
      ensures Rep() && Dom() == old(Dom()) && IsZip(mem, Top, tree) && RedBlack(tree) && Contents() == Around(c, t)
    {
      hide IsZip, Rep, RemoveFix, RedBlack, Lacks, Settled, Around;
      if !red {
        LacksRedBlack(c, t, h);
        RemoveFixInorder(c, t);
        RemoveColor(parent, child, c, t, h);
        tree := RemoveFix(c, t);
      } else {
        SettledRedBlack(c, t, h);
        PlugInorder(c, t);
        ToTop(mem, c, t);
        tree := Plug(c, t);
      }
    }

    /** Takes `elm` out, whose place is the root of `t`. */
    method RemoveAt(elm: Node, ghost c: Ctx, ghost t: Tree)
      requires Rep() && IsZip(mem, c, t) && t.Fork? && t.at == elm && RedBlack(Plug(c, t))
      modifies this, Dom()
      ensures Rep() && Dom() == old(Dom()) && IsZip(mem, Top, tree) && RedBlack(tree)
      ensures Contents() == Before(c) + Inorder(t.left) + Inorder(t.right) + After(c)
    {
      hide IsZip, Rep, RedBlack, Left, Hole, HasSpine;
      KidFacts(mem, c, t, L);
      KidFacts(mem, c, t, R);
      RepIs(elm);
      var red, child, parent;
      if elm.left == null || elm.right == null {
        child := if elm.left == null then elm.right else elm.left;
        red := elm.red;
        ghost var s := if elm.left == null then R else L;
        ghost var h := TakenOut(c, t, s);
        TakenIs(c, t, s, h);
        parent := SpliceOut(elm, child, c, t, s);
        Finish(red, parent, child, c, Kid(t, s), h);
      } else {
        ghost var d, u, k;
        red, child, parent, d, u, k := RemoveInner(elm, c, t);
        HoleInorder(c, t, k);
        ghost var h := HoleLeft(c, t, k);
        Finish(red, parent, child, d, u, h);
      }
    }

    /** Takes `elm` out of the tree. */
    method Remove(elm: Node) returns (ghost i: nat)
      requires Valid() && elm in Contents()
      modifies this, Dom()
      ensures Valid() && Dom() == old(Dom()) - {elm}
      ensures i < |old(Contents())| && old(Contents())[i] == elm
      ensures Contents() == old(Contents())[..i] + old(Contents())[i + 1..]
    {
      hide IsZip, Rep, RedBlack, Sorted;
      ghost var was := Contents();
      ghost var c, t := Focus(mem, Top, tree, elm);
      i := Cut(c, t);
      RemoveAt(elm, c, t);
      SortedWithout(was, i);
      NotAgain(was, i);
      ForgetZip(mem, tree, elm);
      Drop(elm);
    }

    /** The node is no part of the tree any more. */
    ghost method Drop(elm: Node)
      requires Rep()
      modifies this`mem
      ensures Rep() && Dom() == old(Dom()) - {elm} && mem == Forget(old(mem), elm)
    {
      mem := Forget(mem, elm);
    }

    constructor ()
      ensures Valid() && Contents() == [] && Dom() == {}
    {
      root := null;
      mem := Mem(null, map[], map[], map[], map[]);
      tree := Leaf;
      new;
      assert Balanced(Leaf, 0);
    }

    // ---------- In order ----------

    /** The first node, or the last. */
    method MinMax(s: Side) returns (n: Node?)
      requires Valid()
      ensures n == null <==> Contents() == []
      ensures n != null ==> n == (if s == L then Contents()[0] else Contents()[|Contents()| - 1])
    {
      hide IsZip, Rep, RedBlack, Sorted;
      var tmp := root;
      n := null;
      ghost var c, t := Top, tree;
      ParentFacts(mem, Top, t);
      RootIs();
      while tmp != null
        invariant Rep() && IsZip(mem, c, t) && tmp == Root(t) && Plug(c, t) == tree
        invariant n == Owner(c) && (if s == L then Before(c) == [] else After(c) == [])
        invariant n != null ==> if s == L then After(c) != [] && After(c)[0] == n else Before(c) != [] && Before(c)[|Before(c)| - 1] == n
        decreases t
      {
        n := tmp;
        KidFacts(mem, c, t, s);
        RepIs(tmp);
        Down(mem, c, t, s);
        tmp := KidField(tmp, s);
        EndStep(c, t, s);
        c, t := Step(t, c, s), Kid(t, s);
      }
      PlugInorder(c, t);
    }

    /** The node after `elm`. */
    method Next(elm: Node) returns (n: Node?)
      requires Valid() && elm in Contents()
      ensures var i := Place(Contents(), elm);
              n == if i + 1 < |Contents()| then Contents()[i + 1] else null
    {
      hide IsZip, Rep, RedBlack, Sorted;
      ghost var c, t := Focus(mem, Top, tree, elm);
      ghost var i := Cut(c, t);
      InOrder();
      SortedOnce(Contents(), i, Place(Contents(), elm));
      KidFacts(mem, c, t, R);
      RepIs(elm);
      if elm.right != null {
        ghost var k;
        n, k := NextBelow(elm, c, t);
        SpineInorder(t.right, k);
        assert Contents()[i + 1..][0] == n;
      } else {
        n := Above(elm, c, t);
        assert Contents()[i + 1..] == After(c);
      }
    }

    /** The first ancestor that has `elm` on its left. */
    method Above(elm: Node, ghost c: Ctx, ghost t: Tree) returns (n: Node?)
      requires Rep() && IsZip(mem, c, t) && t.Fork? && t.at == elm
      ensures if After(c) == [] then n == null else n == After(c)[0]
    {
      hide IsZip, Rep;
      var e := elm;
      ghost var c', t' := c, t;
      Around1(c', t', e);
      while e.parent != null && e == e.parent.right
        invariant Rep() && IsZip(mem, c', t') && t'.Fork? && t'.at == e && After(c') == After(c)
        invariant e.parent == Owner(c') && (c'.In? ==> (e.parent.right == e <==> c'.side == R))
        decreases c'
      {
        Up(mem, c', t');
        e := e.parent;
        c', t' := c'.up, Make(c'.side, c'.red, c'.at, t', c'.sib);
        Around1(c', t', e);
      }
      n := e.parent;
    }

    lemma Around1(c: Ctx, t: Tree, e: Node)
      requires Rep() && IsZip(mem, c, t) && t.Fork? && t.at == e
      ensures e.parent == Owner(c) && (c.In? ==> (e.parent.right == e <==> c.side == R))
    {
      hide IsZip;
      ParentFacts(mem, c, t);
    }

    /** Goes through the tree from the first node to the last and takes out those in `gone`. */
    method Sweep(gone: set<Node>)
      requires Valid()
      modifies this, Dom()
      ensures Valid() && Contents() == Kept(old(Contents()), gone) && Dom() <= old(Dom())
    {
      hide Valid, Sorted, Kept;
      ghost var was, i := Contents(), 0;
      assert was[..0] == [];
      KeptNone(gone);
      var n := MinMax(L);
      while n != null
        invariant Valid() && Dom() <= old(Dom()) && i <= |was|
        invariant Contents() == Kept(was[..i], gone) + was[i..]
        invariant n == if i < |was| then was[i] else null
        decreases |was| - i
      {
        n := SweepOne(n, gone, was, i);
        i := i + 1;
      }
      assert was[..i] == was;
    }

    /** One round: the next node is looked up before this one is taken out. */
    method SweepOne(n: Node, gone: set<Node>, ghost was: seq<Node>, ghost i: nat) returns (next: Node?)
      requires Valid() && i < |was| && n == was[i] && Contents() == Kept(was[..i], gone) + was[i..]
      modifies this, Dom()
      ensures Valid() && Dom() <= old(Dom())
      ensures Contents() == Kept(was[..i + 1], gone) + was[i + 1..]
      ensures next == if i + 1 < |was| then was[i + 1] else null
    {
      hide Valid, Sorted, Kept;
      ghost var j := |Kept(was[..i], gone)|;
      SweepStep(was, gone, i);
      next := NextAt(n, j);
      if n in gone {
        TakeAt(n, j);
      }
    }

    /** The node behind the one at a place in order. */
    method NextAt(n: Node, ghost j: nat) returns (next: Node?)
      requires Valid() && j < |Contents()| && n == Contents()[j]
      ensures next == if j + 1 < |Contents()| then Contents()[j + 1] else null
    {
      hide Valid, Sorted;
      InOrder();
      next := Next(n);
      SortedOnce(Contents(), Place(Contents(), n), j);
    }

    /** Takes out the node at a place in order. */
    method TakeAt(n: Node, ghost j: nat)
      requires Valid() && j < |Contents()| && n == Contents()[j]
      modifies this, Dom()
      ensures Valid() && Dom() <= old(Dom())
      ensures Contents() == old(Contents())[..j] + old(Contents())[j + 1..]
    {
      hide Valid, Sorted;
      ghost var was := Contents();
      InOrder();
      ghost var k := Remove(n);
      SortedOnce(was, k, j);
    }

    lemma InOrder()
      requires Valid()
      ensures Sorted(Contents())
    {
    }
  }
}
