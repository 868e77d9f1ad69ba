/** The pointers and colors that stand for a red-black tree, as a value. */
module RbLinks {
  import opened RbSpec

  /** The fields of all nodes, and the root pointer. */
  datatype Mem = Mem(root: Node?, left: map<Node, Node?>, right: map<Node, Node?>, parent: map<Node, Node?>, red: map<Node, bool>)

  predicate Has(m: Mem, n: Node) {
    n in m.left && n in m.right && n in m.parent && n in m.red
  }

  function KidOf(m: Mem, n: Node, s: Side): Node?
    requires Has(m, n)
  {
    if s == L then m.left[n] else m.right[n]
  }

  function SetKid(m: Mem, n: Node, s: Side, x: Node?): Mem {
    if s == L then m.(left := m.left[n := x]) else m.(right := m.right[n := x])
  }

  function SetParent(m: Mem, n: Node?, x: Node?): Mem {
    if n == null then m else m.(parent := m.parent[n := x])
  }

  function SetRed(m: Mem, n: Node, red: bool): Mem {
    m.(red := m.red[n := red])
  }

  // ---------- What the fields stand for ----------

  function Root(t: Tree): Node? {
    match t
    case Leaf => null
    case Fork(_, _, at, _) => at
  }

  function Owner(c: Ctx): Node? {
    match c
    case Top => null
    case In(_, _, at, _, _) => at
  }

  ghost function Nodes(t: Tree): set<Node> {
    match t
    case Leaf => {}
    case Fork(_, l, at, r) => Nodes(l) + {at} + Nodes(r)
  }

  ghost function CtxNodes(c: Ctx): set<Node> {
    match c
    case Top => {}
    case In(_, _, at, sib, up) => Nodes(sib) + {at} + CtxNodes(up)
  }

  /** No node occurs twice. */
  ghost predicate Apart(t: Tree) {
    match t
    case Leaf => true
    case Fork(_, l, at, r) => Apart(l) && Apart(r) && Nodes(l) !! Nodes(r) && at !in Nodes(l) && at !in Nodes(r)
  }

  ghost predicate CtxApart(c: Ctx) {
    match c
    case Top => true
    case In(_, _, at, sib, up) => Apart(sib) && CtxApart(up) && Nodes(sib) !! CtxNodes(up) && at !in Nodes(sib) && at !in CtxNodes(up)
  }

  /** The fields of one node. */
  ghost predicate Links(m: Mem, n: Node, red: bool, l: Node?, r: Node?, p: Node?) {
    Has(m, n) && m.red[n] == red && m.left[n] == l && m.right[n] == r && m.parent[n] == p
  }

  ghost predicate IsTree(m: Mem, t: Tree, p: Node?) {
    match t
    case Leaf => true
    case Fork(red, l, at, r) => Links(m, at, red, Root(l), Root(r), p) && IsTree(m, l, at) && IsTree(m, r, at)
  }

  /** The fields stand for the context of a missing subtree with root `x`. */
  ghost predicate IsCtx(m: Mem, c: Ctx, x: Node?) {
    match c
    case Top => m.root == x
    case In(s, red, at, sib, up) =>
      && Links(m, at, red, if s == L then x else Root(sib), if s == L then Root(sib) else x, Owner(up))
      && IsTree(m, sib, at) && IsCtx(m, up, at)
  }

  /** The fields stand for the tree, seen from a subtree. */
  ghost predicate IsZip(m: Mem, c: Ctx, t: Tree) {
    IsTree(m, t, Owner(c)) && IsCtx(m, c, Root(t)) && Apart(t) && CtxApart(c) && Nodes(t) !! CtxNodes(c)
  }

  // ---------- Moving around ----------

  lemma Down(m: Mem, c: Ctx, t: Tree, s: Side)
    requires IsZip(m, c, t) && t.Fork?
    ensures IsZip(m, In(s, t.red, t.at, Kid(t, Other(s)), c), Kid(t, s))
    ensures Links(m, t.at, t.red, Root(t.left), Root(t.right), Owner(c))
  {
  }

  lemma Up(m: Mem, c: Ctx, t: Tree)
    requires IsZip(m, c, t) && c.In?
    ensures IsZip(m, c.up, Make(c.side, c.red, c.at, t, c.sib))
    ensures Has(m, c.at) && m.red[c.at] == c.red && KidOf(m, c.at, c.side) == Root(t)
    ensures KidOf(m, c.at, Other(c.side)) == Root(c.sib) && m.parent[c.at] == Owner(c.up)
  {
  }

  // ---------- What stays ----------

  /** The fields of some nodes are the same. */
  ghost predicate Same(m: Mem, m': Mem, ns: set<Node>) {
    forall n :: n in ns && Has(m, n) ==> Links(m', n, m.red[n], m.left[n], m.right[n], m.parent[n])
  }

  lemma {:induction false} TreeStays(m: Mem, m': Mem, t: Tree, p: Node?)
    requires IsTree(m, t, p) && Same(m, m', Nodes(t))
    ensures IsTree(m', t, p)
  {
    if t.Fork? {
      assert t.at in Nodes(t);
      TreeStays(m, m', t.left, t.at);
      TreeStays(m, m', t.right, t.at);
    }
  }

  lemma {:induction false} CtxStays(m: Mem, m': Mem, c: Ctx, x: Node?)
    requires IsCtx(m, c, x) && Same(m, m', CtxNodes(c)) && m.root == m'.root
    ensures IsCtx(m', c, x)
  {
    if c.In? {
      assert c.at in CtxNodes(c);
      TreeStays(m, m', c.sib, c.at);
      CtxStays(m, m', c.up, c.at);
    }
  }

  /** A tree gets another parent. */
  lemma TreeMoves(m: Mem, m': Mem, t: Tree, p: Node?, p': Node?)
    requires IsTree(m, t, p) && Apart(t) && Same(m, m', Nodes(t) - (if t.Fork? then {t.at} else {}))
    requires t.Fork? ==> Links(m', t.at, t.red, Root(t.left), Root(t.right), p')
    ensures IsTree(m', t, p')
  {
    if t.Fork? {
      TreeStays(m, m', t.left, t.at);
      TreeStays(m, m', t.right, t.at);
    }
  }

  /** A context gets another subtree. */
  lemma CtxMoves(m: Mem, m': Mem, c: Ctx, x: Node?, x': Node?)
    requires IsCtx(m, c, x) && CtxApart(c) && Same(m, m', CtxNodes(c) - (if c.In? then {c.at} else {}))
    requires c.Top? ==> m'.root == x'
    requires c.In? ==>
               && m'.root == m.root
               && Links(m', c.at, c.red, if c.side == L then x' else Root(c.sib), if c.side == L then Root(c.sib) else x', Owner(c.up))
    ensures IsCtx(m', c, x')
  {
    if c.In? {
      TreeStays(m, m', c.sib, c.at);
      CtxStays(m, m', c.up, c.at);
    }
  }

  // ---------- Painting ----------

  lemma RepaintTouches(m: Mem, n: Node, red: bool, ns: set<Node>)
    requires n !in ns
    ensures Same(m, SetRed(m, n, red), ns)
  {
  }

  lemma PaintRoot(m: Mem, c: Ctx, t: Tree, red: bool)
    requires IsZip(m, c, t) && t.Fork?
    ensures IsZip(SetRed(m, t.at, red), c, Paint(t, red))
  {
    var m' := SetRed(m, t.at, red);
    RepaintTouches(m, t.at, red, Nodes(t.left));
    RepaintTouches(m, t.at, red, Nodes(t.right));
    RepaintTouches(m, t.at, red, CtxNodes(c));
    assert Links(m', t.at, red, Root(t.left), Root(t.right), Owner(c));
    assert m'.root == m.root;
    hide Same, SetRed, Links;
    TreeStays(m, m', t.left, t.at);
    TreeStays(m, m', t.right, t.at);
    CtxStays(m, m', c, t.at);
  }

  // ---------- Replacing a subtree ----------

  /** The pointer to subtree `x` made to point to `y`. */
  function Swing(m: Mem, p: Node?, x: Node?, y: Node?): Mem
    requires p != null ==> Has(m, p)
  {
    if p == null then m.(root := y)
    else if m.left[p] == x then m.(left := m.left[p := y])
    else m.(right := m.right[p := y])
  }

  /** A step that leaves the fields of `n` alone. */
  ghost predicate Keeps(m: Mem, m': Mem, n: Node) {
    Has(m, n) ==> Links(m', n, m.red[n], m.left[n], m.right[n], m.parent[n])
  }

  lemma KidKeeps(m: Mem, x: Node, s: Side, k: Node?, n: Node)
    requires x != n
    ensures Keeps(m, SetKid(m, x, s, k), n)
  {
  }

  lemma ParentKeeps(m: Mem, x: Node?, p: Node?, n: Node)
    requires x != n
    ensures Keeps(m, SetParent(m, x, p), n)
  {
  }

  lemma SwingChanges(m: Mem, p: Node, x: Node?, y: Node?)
    requires Has(m, p)
    ensures if m.left[p] == x then Links(Swing(m, p, x, y), p, m.red[p], y, m.right[p], m.parent[p])
            else Links(Swing(m, p, x, y), p, m.red[p], m.left[p], y, m.parent[p])
  {
  }

  lemma SwingKeeps(m: Mem, p: Node?, x: Node?, y: Node?, n: Node)
    requires p != n && (p != null ==> Has(m, p))
    ensures Keeps(m, Swing(m, p, x, y), n)
  {
  }

  // ---------- Rotation ----------

  predicate CanRotate(m: Mem, x: Node, s: Side) {
    && Has(m, x) && KidOf(m, x, Other(s)) != null
    && var y := KidOf(m, x, Other(s));
       Has(m, y) && (m.parent[x] != null ==> Has(m, m.parent[x]))
  }

  /** The steps of the rotation of `x` down to side `s`. */
  function Rotate(m: Mem, x: Node, s: Side): Mem
    requires CanRotate(m, x, s)
  {
    var y := KidOf(m, x, Other(s));
    var b := KidOf(m, y, s);
    var m1 := SetParent(SetKid(m, x, Other(s), b), b, x);
    var m2 := Swing(SetParent(m1, y, m.parent[x]), m.parent[x], x, y);
    SetParent(SetKid(m2, y, s, x), x, y)
  }

  /** The rotation step by step. */
  lemma RotateSteps(m: Mem, x: Node, s: Side)
    requires CanRotate(m, x, s) && KidOf(m, KidOf(m, x, Other(s)), s) != x
    requires KidOf(m, KidOf(m, x, Other(s)), s) != null ==> Has(m, KidOf(m, KidOf(m, x, Other(s)), s))
    ensures var y := KidOf(m, x, Other(s)); var b := KidOf(m, y, s); var p := m.parent[x];
            var m0 := SetKid(m, x, Other(s), b); var m1 := SetParent(m0, b, x); var m2 := SetParent(m1, y, p);
            && (b == null ==> m1 == m0)
            && Has(m1, x) && m1.parent[x] == p && (p != null ==> Has(m2, p))
            && Rotate(m, x, s) == SetParent(SetKid(Swing(m2, p, x, y), y, s, x), x, y)
  {
  }

  lemma RotateTouches(m: Mem, x: Node, s: Side, ns: set<Node>)
    requires CanRotate(m, x, s)
    requires var y := KidOf(m, x, Other(s)); x !in ns && y !in ns && KidOf(m, y, s) !in ns && m.parent[x] !in ns
    ensures Same(m, Rotate(m, x, s), ns)
  {
    hide Rotate, CanRotate;
    forall n | n in ns && Has(m, n)
      ensures Links(Rotate(m, x, s), n, m.red[n], m.left[n], m.right[n], m.parent[n])
    {
      RotateTouch(m, x, s, n);
    }
  }

  lemma RotateTouch(m: Mem, x: Node, s: Side, n: Node)
    requires CanRotate(m, x, s) && Has(m, n)
    requires var y := KidOf(m, x, Other(s)); x != n && y != n && KidOf(m, y, s) != n && m.parent[x] != n
    ensures Links(Rotate(m, x, s), n, m.red[n], m.left[n], m.right[n], m.parent[n])
  {
    var y := KidOf(m, x, Other(s));
    var b, p := KidOf(m, y, s), m.parent[x];
    var m0 := SetKid(m, x, Other(s), b);
    var m1 := SetParent(m0, b, x);
    var m2 := SetParent(m1, y, p);
    var m3 := Swing(m2, p, x, y);
    var m4 := SetKid(m3, y, s, x);
    KidKeeps(m, x, Other(s), b, n);
    ParentKeeps(m0, b, x, n);
    ParentKeeps(m1, y, p, n);
    SwingKeeps(m2, p, x, y, n);
    KidKeeps(m3, y, s, x, n);
    ParentKeeps(m4, x, y, n);
    assert Rotate(m, x, s) == SetParent(m4, x, y);
    hide SetKid, SetParent, Swing, KidOf, CanRotate, Rotate;
  }

  lemma RotateLinks(m: Mem, x: Node, s: Side)
    requires CanRotate(m, x, s)
    requires var y := KidOf(m, x, Other(s)); var b := KidOf(m, y, s); var p := m.parent[x];
             x != y && b != x && b != y && p != x && p != y && (b != null ==> b != p)
    ensures var y := KidOf(m, x, Other(s)); var m' := Rotate(m, x, s);
            && Has(m', x) && KidOf(m', x, s) == KidOf(m, x, s) && KidOf(m', x, Other(s)) == KidOf(m, y, s)
            && m'.parent[x] == y && m'.red[x] == m.red[x]
            && Has(m', y) && KidOf(m', y, s) == x && KidOf(m', y, Other(s)) == KidOf(m, y, Other(s))
            && m'.parent[y] == m.parent[x] && m'.red[y] == m.red[y]
  {
    hide Rotate;
    RotateUpperLinks(m, x, s);
    RotateLowerLinks(m, x, s);
  }

  lemma RotateUpperLinks(m: Mem, x: Node, s: Side)
    requires CanRotate(m, x, s)
    requires var y := KidOf(m, x, Other(s)); var b := KidOf(m, y, s); var p := m.parent[x];
             x != y && b != x && b != y && p != x && p != y && (b != null ==> b != p)
    ensures var y := KidOf(m, x, Other(s)); var m' := Rotate(m, x, s);
            && Has(m', x) && KidOf(m', x, s) == KidOf(m, x, s) && KidOf(m', x, Other(s)) == KidOf(m, y, s)
            && m'.parent[x] == y && m'.red[x] == m.red[x]
  {
  }

  lemma RotateLowerLinks(m: Mem, x: Node, s: Side)
    requires CanRotate(m, x, s)
    requires var y := KidOf(m, x, Other(s)); var b := KidOf(m, y, s); var p := m.parent[x];
             x != y && b != x && b != y && p != x && p != y && (b != null ==> b != p)
    ensures var y := KidOf(m, x, Other(s)); var m' := Rotate(m, x, s);
            && Has(m', y) && KidOf(m', y, s) == x && KidOf(m', y, Other(s)) == KidOf(m, y, Other(s))
            && m'.parent[y] == m.parent[x] && m'.red[y] == m.red[y]
  {
  }

  /** What the rotation does to the third subtree and to what is above. */
  lemma RotateOthers(m: Mem, x: Node, s: Side)
    requires CanRotate(m, x, s)
    requires var y := KidOf(m, x, Other(s)); var b := KidOf(m, y, s); var p := m.parent[x];
             x != y && b != x && b != y && p != x && p != y && (b != null ==> b != p)
    ensures var y := KidOf(m, x, Other(s)); var b := KidOf(m, y, s); var p := m.parent[x]; var m' := Rotate(m, x, s);
            && (b != null && Has(m, b) ==> Links(m', b, m.red[b], m.left[b], m.right[b], x))
            && (p == null ==> m'.root == y)
            && (p != null ==> m'.root == m.root)
            && (p != null && m.left[p] == x ==> Links(m', p, m.red[p], y, m.right[p], m.parent[p]))
            && (p != null && m.left[p] != x ==> Links(m', p, m.red[p], m.left[p], y, m.parent[p]))
  {
    hide Rotate;
    var b, p := KidOf(m, KidOf(m, x, Other(s)), s), m.parent[x];
    RotateTop(m, x, s);
    if b != null && Has(m, b) { RotateThird(m, x, s); }
    if p != null { RotateAbove(m, x, s); }
  }

  lemma RotateThird(m: Mem, x: Node, s: Side)
    requires CanRotate(m, x, s)
    requires var y := KidOf(m, x, Other(s)); var b := KidOf(m, y, s);
             b != null && Has(m, b) && b != x && b != y && m.parent[x] != b
    ensures var b := KidOf(m, KidOf(m, x, Other(s)), s);
            Links(Rotate(m, x, s), b, m.red[b], m.left[b], m.right[b], x)
  {
  }

  lemma RotateTop(m: Mem, x: Node, s: Side)
    requires CanRotate(m, x, s)
    ensures Rotate(m, x, s).root == if m.parent[x] == null then KidOf(m, x, Other(s)) else m.root
  {
  }

  lemma RotateAbove(m: Mem, x: Node, s: Side)
    requires CanRotate(m, x, s) && m.parent[x] != null
    requires var y := KidOf(m, x, Other(s)); var p := m.parent[x];
             x != y && KidOf(m, y, s) != p && p != x && p != y
    ensures var y, p := KidOf(m, x, Other(s)), m.parent[x];
            if m.left[p] == x then Links(Rotate(m, x, s), p, m.red[p], y, m.right[p], m.parent[p])
            else Links(Rotate(m, x, s), p, m.red[p], m.left[p], y, m.parent[p])
  {
    var y := KidOf(m, x, Other(s));
    var b, p := KidOf(m, y, s), m.parent[x];
    var m0 := SetKid(m, x, Other(s), b);
    var m1 := SetParent(m0, b, x);
    var m2 := SetParent(m1, y, p);
    var m3 := Swing(m2, p, x, y);
    var m4 := SetKid(m3, y, s, x);
    KidKeeps(m, x, Other(s), b, p);
    ParentKeeps(m0, b, x, p);
    ParentKeeps(m1, y, p, p);
    SwingChanges(m2, p, x, y);
    KidKeeps(m3, y, s, x, p);
    ParentKeeps(m4, x, y, p);
    assert Rotate(m, x, s) == SetParent(m4, x, y);
    hide SetKid, SetParent, Swing, KidOf, CanRotate, Rotate;
  }

  /** The subtrees that take part in a rotation have no nodes in common. */
  lemma RotateApart(c: Ctx, t: Tree, s: Side)
    requires Apart(t) && CtxApart(c) && Nodes(t) !! CtxNodes(c) && t.Fork? && Kid(t, Other(s)).Fork?
    ensures var u := Kid(t, Other(s)); var a, b, d := Kid(t, s), Kid(u, s), Kid(u, Other(s));
            && Apart(a) && Apart(b) && Apart(d) && t.at != u.at
            && Nodes(a) !! Nodes(b) && Nodes(a) !! Nodes(d) && Nodes(b) !! Nodes(d)
            && t.at !in Nodes(a) + Nodes(b) + Nodes(d) + CtxNodes(c)
            && u.at !in Nodes(a) + Nodes(b) + Nodes(d) + CtxNodes(c)
            && Nodes(a) + Nodes(b) + Nodes(d) !! CtxNodes(c)
    ensures Apart(Rotated(t, s)) && Nodes(Rotated(t, s)) == Nodes(t)
  {
    var u := Kid(t, Other(s));
    assert Apart(u) && Nodes(u) == Nodes(Kid(u, s)) + {u.at} + Nodes(Kid(u, Other(s)));
    assert Nodes(t) == Nodes(Kid(t, s)) + {t.at} + Nodes(u);
  }

  lemma RotateCan(m: Mem, c: Ctx, t: Tree, s: Side)
    requires IsZip(m, c, t) && t.Fork? && Kid(t, Other(s)).Fork?
    ensures var u := Kid(t, Other(s));
            && CanRotate(m, t.at, s) && KidOf(m, t.at, Other(s)) == u.at && KidOf(m, t.at, s) == Root(Kid(t, s))
            && KidOf(m, u.at, s) == Root(Kid(u, s)) && KidOf(m, u.at, Other(s)) == Root(Kid(u, Other(s)))
            && m.parent[t.at] == Owner(c) && m.red[t.at] == t.red && m.red[u.at] == u.red
            && IsTree(m, Kid(t, s), t.at) && IsTree(m, Kid(u, s), u.at) && IsTree(m, Kid(u, Other(s)), u.at)
  {
    assert IsTree(m, Kid(t, Other(s)), t.at);
    if c.In? { assert Owner(c) in CtxNodes(c); }
  }

  lemma RootIn(t: Tree)
    ensures t.Fork? ==> Root(t) in Nodes(t)
  {
  }

  lemma OwnerIn(c: Ctx)
    ensures c.In? ==> Owner(c) in CtxNodes(c)
  {
  }

  lemma TreeRoot(m: Mem, t: Tree, p: Node?)
    requires IsTree(m, t, p)
    ensures t.Fork? ==> Links(m, t.at, t.red, Root(t.left), Root(t.right), p)
  {
  }

  lemma CtxRoot(m: Mem, c: Ctx, x: Node?)
    requires IsCtx(m, c, x)
    ensures if c.Top? then m.root == x
            else Links(m, c.at, c.red, if c.side == L then x else Root(c.sib), if c.side == L then Root(c.sib) else x, Owner(c.up))
  {
  }

  /** The upper node goes down, between the first and the second subtree. */
  lemma RotateLower(m: Mem, c: Ctx, t: Tree, s: Side)
    requires IsZip(m, c, t) && t.Fork? && Kid(t, Other(s)).Fork?
    ensures CanRotate(m, t.at, s)
    ensures var u := Kid(t, Other(s)); IsTree(Rotate(m, t.at, s), Make(s, t.red, t.at, Kid(t, s), Kid(u, s)), u.at)
  {
    var u := Kid(t, Other(s));
    var x, y := t.at, u.at;
    var a, b := Kid(t, s), Kid(u, s);
    RotateCan(m, c, t, s);
    RotateApart(c, t, s);
    RootIn(b);
    OwnerIn(c);
    var m' := Rotate(m, x, s);
    TreeRoot(m, b, y);
    hide Rotate, Same, Nodes, Apart, IsTree, IsCtx, CtxNodes, CtxApart, CanRotate;
    RotateLinks(m, x, s);
    RotateOthers(m, x, s);
    RotateTouches(m, x, s, Nodes(a));
    RotateTouches(m, x, s, Nodes(b) - (if b.Fork? then {b.at} else {}));
    TreeStays(m, m', a, x);
    TreeMoves(m, m', b, y, x);
    MakeIs(m', s, t.red, x, a, b, y);
  }

  /** The lower node takes its place. */
  lemma RotateUpper(m: Mem, c: Ctx, t: Tree, s: Side)
    requires IsZip(m, c, t) && t.Fork? && Kid(t, Other(s)).Fork?
    ensures CanRotate(m, t.at, s)
    ensures var u := Kid(t, Other(s)); var m' := Rotate(m, t.at, s);
            IsTree(m', Kid(u, Other(s)), u.at) && IsCtx(m', c, u.at)
  {
    var u := Kid(t, Other(s));
    var x, y := t.at, u.at;
    var b, d := Kid(u, s), Kid(u, Other(s));
    RotateCan(m, c, t, s);
    RotateApart(c, t, s);
    RootIn(b);
    OwnerIn(c);
    var m' := Rotate(m, x, s);
    CtxRoot(m, c, x);
    hide Rotate, Same, Nodes, Apart, IsTree, IsCtx, CtxNodes, CtxApart, CanRotate;
    RotateOthers(m, x, s);
    RotateTouches(m, x, s, Nodes(d));
    RotateTouches(m, x, s, CtxNodes(c) - (if c.In? then {c.at} else {}));
    TreeStays(m, m', d, y);
    CtxMoves(m, m', c, x, y);
  }

  /** The pointer steps rotate the tree. */
  lemma RotateZip(m: Mem, c: Ctx, t: Tree, s: Side)
    requires IsZip(m, c, t) && t.Fork? && Kid(t, Other(s)).Fork?
    ensures CanRotate(m, t.at, s) && IsZip(Rotate(m, t.at, s), c, Rotated(t, s))
  {
    var u := Kid(t, Other(s));
    var x, y := t.at, u.at;
    RotateCan(m, c, t, s);
    RotateApart(c, t, s);
    RootIn(Kid(u, s));
    OwnerIn(c);
    hide Rotate, Nodes, Apart, IsTree, CtxNodes, CtxApart, CanRotate, IsCtx;
    RotateLinks(m, x, s);
    RotateLower(m, c, t, s);
    RotateUpper(m, c, t, s);
    var m' := Rotate(m, x, s);
    MakeIs(m', s, u.red, y, Make(s, t.red, x, Kid(t, s), Kid(u, s)), Kid(u, Other(s)), Owner(c));
  }

  lemma MakeIs(m: Mem, s: Side, red: bool, at: Node, near: Tree, far: Tree, p: Node?)
    requires Has(m, at) && KidOf(m, at, s) == Root(near) && KidOf(m, at, Other(s)) == Root(far)
    requires m.red[at] == red && m.parent[at] == p && IsTree(m, near, at) && IsTree(m, far, at)
    ensures IsTree(m, Make(s, red, at, near, far), p) && Root(Make(s, red, at, near, far)) == at
  {
  }

  // ---------- One level down ----------

  /** `t` with another subtree on side `s`. */
  function WithKid(t: Tree, s: Side, kid: Tree): Tree
    requires t.Fork?
  {
    Make(s, t.red, t.at, kid, Kid(t, Other(s)))
  }

  lemma KidFacts(m: Mem, c: Ctx, t: Tree, s: Side)
    requires IsZip(m, c, t) && t.Fork?
    ensures Has(m, t.at) && KidOf(m, t.at, s) == Root(Kid(t, s)) && m.red[t.at] == t.red && m.parent[t.at] == Owner(c)
    ensures Kid(t, s).Fork? ==> Has(m, Kid(t, s).at) && m.red[Kid(t, s).at] == Kid(t, s).red && m.parent[Kid(t, s).at] == t.at
    ensures Kid(t, s).Fork? ==> Kid(t, s).at != t.at && Root(Kid(t, Other(s))) != Kid(t, s).at
  {
    RootIn(Kid(t, s));
    RootIn(Kid(t, Other(s)));
    assert IsTree(m, Kid(t, s), t.at);
  }

  lemma PaintKid(m: Mem, c: Ctx, t: Tree, s: Side, red: bool)
    requires IsZip(m, c, t) && t.Fork? && Kid(t, s).Fork?
    ensures IsZip(SetRed(m, Kid(t, s).at, red), c, WithKid(t, s, Paint(Kid(t, s), red)))
  {
    hide IsZip, SetRed;
    Down(m, c, t, s);
    PaintRoot(m, In(s, t.red, t.at, Kid(t, Other(s)), c), Kid(t, s), red);
    Up(SetRed(m, Kid(t, s).at, red), In(s, t.red, t.at, Kid(t, Other(s)), c), Paint(Kid(t, s), red));
  }

  lemma RotateKid(m: Mem, c: Ctx, t: Tree, s: Side, side: Side)
    requires IsZip(m, c, t) && t.Fork? && Kid(t, s).Fork? && Kid(Kid(t, s), Other(side)).Fork?
    ensures CanRotate(m, Kid(t, s).at, side)
    ensures IsZip(Rotate(m, Kid(t, s).at, side), c, WithKid(t, s, Rotated(Kid(t, s), side)))
  {
    hide IsZip, Rotate, Rotated, CanRotate;
    var d := In(s, t.red, t.at, Kid(t, Other(s)), c);
    Down(m, c, t, s);
    RotateZip(m, d, Kid(t, s), side);
    Up(Rotate(m, Kid(t, s).at, side), d, Rotated(Kid(t, s), side));
  }

  lemma RotateReady(m: Mem, c: Ctx, t: Tree, s: Side)
    requires IsZip(m, c, t) && t.Fork? && Kid(t, Other(s)).Fork?
    ensures CanRotate(m, t.at, s)
    ensures var b := KidOf(m, KidOf(m, t.at, Other(s)), s); b != t.at && (b != null ==> Has(m, b))
  {
    RotateCan(m, c, t, s);
    RotateApart(c, t, s);
    RootIn(Kid(Kid(t, Other(s)), s));
    TreeRoot(m, Kid(Kid(t, Other(s)), s), Kid(t, Other(s)).at);
  }

  /** What the fields around a subtree are. */
  lemma ParentFacts(m: Mem, c: Ctx, t: Tree)
    requires IsZip(m, c, t)
    ensures t.Fork? ==> Has(m, t.at) && m.parent[t.at] == Owner(c) && m.red[t.at] == t.red
    ensures c.In? ==> Has(m, c.at) && m.red[c.at] == c.red && KidOf(m, c.at, c.side) == Root(t)
                      && KidOf(m, c.at, Other(c.side)) == Root(c.sib) && m.parent[c.at] == Owner(c.up)
    ensures c.In? && t.Fork? ==> Root(c.sib) != t.at
    ensures c.In? && c.sib.Fork? ==> Has(m, c.sib.at) && m.red[c.sib.at] == c.sib.red && c.sib.at != Root(t)
  {
    RootIn(t);
    OwnerIn(c);
    if c.In? {
      RootIn(c.sib);
      TreeRoot(m, c.sib, c.at);
    }
  }

  /** On which side a subtree is can be read off the pointer on either side. */
  lemma SideIs(m: Mem, c: Ctx, t: Tree, s: Side)
    requires IsZip(m, c, t) && t.Fork? && c.In?
    ensures Has(m, c.at) && (KidOf(m, c.at, s) == t.at <==> c.side == s)
  {
    ParentFacts(m, c, t);
  }

  lemma RotatedRoot(t: Tree, s: Side)
    requires t.Fork? && Kid(t, Other(s)).Fork?
    ensures var r := Rotated(t, s); r.Fork? && r.at == Kid(t, Other(s)).at && Kid(r, s).Fork? && Kid(r, s).at == t.at
  {
  }

  lemma {:induction false} ToTop(m: Mem, c: Ctx, t: Tree)
    requires IsZip(m, c, t)
    ensures IsZip(m, Top, Plug(c, t)) && m.root == Root(Plug(c, t))
  {
    if c.In? {
      Up(m, c, t);
      ToTop(m, c.up, Make(c.side, c.red, c.at, t, c.sib));
    }
  }

  // ---------- A new leaf ----------

  /** A node with no kids, red, below `p`. */
  function Enter(m: Mem, n: Node, p: Node?): Mem {
    Mem(m.root, m.left[n := null], m.right[n := null], m.parent[n := p], m.red[n := true])
  }

  /** The node put at the end of a way down. */
  function Attach(m: Mem, n: Node, p: Node?, s: Side): Mem {
    if p == null then Enter(m, n, p).(root := n) else SetKid(Enter(m, n, p), p, s, n)
  }

  lemma AttachTouches(m: Mem, n: Node, p: Node?, s: Side, ns: set<Node>)
    requires n !in ns && p !in ns
    ensures Same(m, Attach(m, n, p, s), ns)
  {
  }

  lemma AttachZip(m: Mem, c: Ctx, n: Node)
    requires IsZip(m, c, Leaf) && n !in CtxNodes(c)
    ensures IsZip(Attach(m, n, Owner(c), if c.In? then c.side else L), c, Fork(true, Leaf, n, Leaf))
  {
    var s := if c.In? then c.side else L;
    var m' := Attach(m, n, Owner(c), s);
    OwnerIn(c);
    AttachTouches(m, n, Owner(c), s, CtxNodes(c) - (if c.In? then {c.at} else {}));
    CtxMoves(m, m', c, null, n);
  }

  // ---------- The nodes of a tree have fields ----------

  lemma {:induction false} TreeHas(m: Mem, t: Tree, p: Node?, n: Node)
    requires IsTree(m, t, p) && n in Nodes(t)
    ensures Has(m, n)
  {
    if n in Nodes(t.left) {
      TreeHas(m, t.left, t.at, n);
    } else if n in Nodes(t.right) {
      TreeHas(m, t.right, t.at, n);
    }
  }

  lemma {:induction false} CtxHas(m: Mem, c: Ctx, x: Node?, n: Node)
    requires IsCtx(m, c, x) && n in CtxNodes(c)
    ensures Has(m, n)
  {
    if n in Nodes(c.sib) {
      TreeHas(m, c.sib, c.at, n);
    } else if n in CtxNodes(c.up) {
      CtxHas(m, c.up, c.at, n);
    }
  }

  // ---------- Taking a node with one kid out ----------

  /** The kid `k` of `x` put in the place of `x`. */
  function Splice(m: Mem, x: Node, k: Node?): Mem
    requires Has(m, x) && (m.parent[x] != null ==> Has(m, m.parent[x]))
  {
    Swing(SetParent(m, k, m.parent[x]), m.parent[x], x, k)
  }

  lemma SpliceTouches(m: Mem, x: Node, k: Node?, ns: set<Node>)
    requires Has(m, x) && (m.parent[x] != null ==> Has(m, m.parent[x]))
    requires k !in ns && m.parent[x] !in ns
    ensures Same(m, Splice(m, x, k), ns)
  {
  }

  lemma SpliceReady(m: Mem, c: Ctx, t: Tree)
    requires IsZip(m, c, t) && t.Fork?
    ensures Has(m, t.at) && m.parent[t.at] == Owner(c) && (c.In? ==> Has(m, Owner(c)))
  {
    ParentFacts(m, c, t);
  }

  /** The fields of the kid and of the parent after that. */
  lemma SpliceOthers(m: Mem, x: Node, k: Node?)
    requires Has(m, x) && (m.parent[x] != null ==> Has(m, m.parent[x]))
    requires k != null ==> Has(m, k) && k != m.parent[x]
    ensures var m' := Splice(m, x, k); var p := m.parent[x];
            && (k != null ==> Links(m', k, m.red[k], m.left[k], m.right[k], p))
            && (p == null ==> m'.root == k)
            && (p != null ==> m'.root == m.root)
            && (p != null && m.left[p] == x ==> Links(m', p, m.red[p], k, m.right[p], m.parent[p]))
            && (p != null && m.left[p] != x ==> Links(m', p, m.red[p], m.left[p], k, m.parent[p]))
  {
  }

  lemma SpliceZip(m: Mem, c: Ctx, t: Tree, s: Side)
    requires IsZip(m, c, t) && t.Fork? && Kid(t, Other(s)).Leaf?
    ensures Has(m, t.at) && (m.parent[t.at] != null ==> Has(m, m.parent[t.at]))
    ensures IsZip(Splice(m, t.at, Root(Kid(t, s))), c, Kid(t, s))
  {
    var x, k := t.at, Kid(t, s);
    SpliceReady(m, c, t);
    KidFacts(m, c, t, s);
    RootIn(k);
    RootIn(t);
    OwnerIn(c);
    TreeRoot(m, k, x);
    CtxRoot(m, c, x);
    assert Nodes(k) <= Nodes(t);
    var m' := Splice(m, x, Root(k));
    hide Splice, Same, IsTree, IsCtx;
    SpliceOthers(m, x, Root(k));
    SpliceTouches(m, x, Root(k), Nodes(k) - (if k.Fork? then {k.at} else {}));
    SpliceTouches(m, x, Root(k), CtxNodes(c) - (if c.In? then {c.at} else {}));
    TreeMoves(m, m', k, x, Owner(c));
    CtxMoves(m, m', c, x, Root(k));
  }

  // ---------- Putting a node in the place of another ----------

  /** `y` with the fields of `x`. */
  function Copy(m: Mem, x: Node, y: Node): Mem
    requires Has(m, x)
  {
    Mem(m.root, m.left[y := m.left[x]], m.right[y := m.right[x]], m.parent[y := m.parent[x]], m.red[y := m.red[x]])
  }

  /** `y` put in the place of `x`. */
  function Replace(m: Mem, x: Node, y: Node): Mem
    requires Has(m, x) && (m.parent[x] != null ==> Has(m, m.parent[x]))
  {
    SetParent(SetParent(Swing(Copy(m, x, y), m.parent[x], x, y), m.left[x], y), m.right[x], y)
  }

  /** The replacement step by step. */
  lemma ReplaceSteps(m: Mem, x: Node, y: Node)
    requires Has(m, x) && x != y && (m.parent[x] != null ==> Has(m, m.parent[x]))
    ensures var m0 := Copy(m, x, y);
            && Has(m0, x) && m0.left[x] == m.left[x] && m0.right[x] == m.right[x] && m0.parent[x] == m.parent[x]
            && (m.parent[x] != null ==> Has(m0, m.parent[x]))
            && Replace(m, x, y) == SetParent(SetParent(Swing(m0, m.parent[x], x, y), m.left[x], y), m.right[x], y)
  {
  }

  lemma ReplaceTouches(m: Mem, x: Node, y: Node, ns: set<Node>)
    requires Has(m, x) && (m.parent[x] != null ==> Has(m, m.parent[x]))
    requires y !in ns && m.parent[x] !in ns && m.left[x] !in ns && m.right[x] !in ns
    ensures Same(m, Replace(m, x, y), ns)
  {
    hide Replace;
    forall n | n in ns && Has(m, n)
      ensures Links(Replace(m, x, y), n, m.red[n], m.left[n], m.right[n], m.parent[n])
    {
      ReplaceTouch(m, x, y, n);
    }
  }

  lemma ReplaceTouch(m: Mem, x: Node, y: Node, n: Node)
    requires Has(m, x) && (m.parent[x] != null ==> Has(m, m.parent[x])) && Has(m, n)
    requires y != n && m.parent[x] != n && m.left[x] != n && m.right[x] != n
    ensures Links(Replace(m, x, y), n, m.red[n], m.left[n], m.right[n], m.parent[n])
  {
    var p, m0 := m.parent[x], Copy(m, x, y);
    assert Keeps(m, m0, n);
    assert p != null ==> Has(m0, p);
    var m1 := Swing(m0, p, x, y);
    var m2 := SetParent(m1, m.left[x], y);
    SwingKeeps(m0, p, x, y, n);
    ParentKeeps(m1, m.left[x], y, n);
    ParentKeeps(m2, m.right[x], y, n);
    assert Replace(m, x, y) == SetParent(m2, m.right[x], y);
    hide SetParent, Swing, Copy, Replace;
  }

  ghost predicate OneOf(k: Node, l: Node?, r: Node?) {
    k == l || k == r
  }

  lemma ReplaceOthers(m: Mem, x: Node, y: Node)
    requires Has(m, x) && (m.parent[x] != null ==> Has(m, m.parent[x]))
    requires var p, l, r := m.parent[x], m.left[x], m.right[x];
             y != x && y != p && y != l && y != r && (p != null ==> p != l && p != r && p != x)
    ensures var m' := Replace(m, x, y); var p := m.parent[x];
            && Links(m', y, m.red[x], m.left[x], m.right[x], p)
            && (p == null ==> m'.root == y)
            && (p != null ==> m'.root == m.root)
            && (p != null && m.left[p] == x ==> Links(m', p, m.red[p], y, m.right[p], m.parent[p]))
            && (p != null && m.left[p] != x ==> Links(m', p, m.red[p], m.left[p], y, m.parent[p]))
  {
    hide Replace;
    ReplaceNew(m, x, y);
    ReplaceTop(m, x, y);
    if m.parent[x] != null { ReplaceAbove(m, x, y); }
  }

  lemma ReplaceNew(m: Mem, x: Node, y: Node)
    requires Has(m, x) && (m.parent[x] != null ==> Has(m, m.parent[x]))
    requires y != x && y != m.parent[x] && y != m.left[x] && y != m.right[x]
    ensures Links(Replace(m, x, y), y, m.red[x], m.left[x], m.right[x], m.parent[x])
  {
    var p, m0 := m.parent[x], Copy(m, x, y);
    assert Links(m0, y, m.red[x], m.left[x], m.right[x], p);
    assert p != null ==> Has(m0, p);
    var m1 := Swing(m0, p, x, y);
    var m2 := SetParent(m1, m.left[x], y);
    SwingKeeps(m0, p, x, y, y);
    ParentKeeps(m1, m.left[x], y, y);
    ParentKeeps(m2, m.right[x], y, y);
    assert Replace(m, x, y) == SetParent(m2, m.right[x], y);
    hide SetParent, Swing, Copy, Replace;
  }

  lemma ReplaceTop(m: Mem, x: Node, y: Node)
    requires Has(m, x) && (m.parent[x] != null ==> Has(m, m.parent[x]))
    ensures Replace(m, x, y).root == if m.parent[x] == null then y else m.root
  {
  }

  lemma ReplaceAbove(m: Mem, x: Node, y: Node)
    requires Has(m, x) && m.parent[x] != null && Has(m, m.parent[x])
    requires var p := m.parent[x]; y != p && p != m.left[x] && p != m.right[x]
    ensures var p := m.parent[x];
            if m.left[p] == x then Links(Replace(m, x, y), p, m.red[p], y, m.right[p], m.parent[p])
            else Links(Replace(m, x, y), p, m.red[p], m.left[p], y, m.parent[p])
  {
    var p, m0 := m.parent[x], Copy(m, x, y);
    assert Links(m0, p, m.red[p], m.left[p], m.right[p], m.parent[p]);
    var m1 := Swing(m0, p, x, y);
    var m2 := SetParent(m1, m.left[x], y);
    SwingChanges(m0, p, x, y);
    ParentKeeps(m1, m.left[x], y, p);
    ParentKeeps(m2, m.right[x], y, p);
    assert Replace(m, x, y) == SetParent(m2, m.right[x], y);
    hide SetParent, Swing, Copy, Replace;
  }

  lemma ReplaceKids(m: Mem, x: Node, y: Node, k: Node)
    requires Has(m, x) && (m.parent[x] != null ==> Has(m, m.parent[x])) && Has(m, k)
    requires OneOf(k, m.left[x], m.right[x]) && k != y && k != m.parent[x]
    ensures Links(Replace(m, x, y), k, m.red[k], m.left[k], m.right[k], y)
  {
  }

  /** The subtrees next to and above a node have no nodes in common. */
  lemma ForkApart(c: Ctx, t: Tree)
    requires Apart(t) && CtxApart(c) && Nodes(t) !! CtxNodes(c) && t.Fork?
    ensures Apart(t.left) && Apart(t.right) && Nodes(t.left) !! Nodes(t.right)
    ensures t.at !in Nodes(t.left) + Nodes(t.right) + CtxNodes(c)
    ensures Nodes(t.left) + Nodes(t.right) !! CtxNodes(c)
    ensures Nodes(t) == Nodes(t.left) + {t.at} + Nodes(t.right)
  {
  }

  lemma ReplaceBelow(m: Mem, c: Ctx, t: Tree, y: Node)
    requires IsZip(m, c, t) && t.Fork? && y !in Nodes(t) && y !in CtxNodes(c)
    ensures Has(m, t.at) && (m.parent[t.at] != null ==> Has(m, m.parent[t.at]))
    ensures IsTree(Replace(m, t.at, y), t.left, y) && IsTree(Replace(m, t.at, y), t.right, y)
  {
    var x := t.at;
    SpliceReady(m, c, t);
    KidFacts(m, c, t, L);
    KidFacts(m, c, t, R);
    ForkApart(c, t);
    RootIn(t.left);
    RootIn(t.right);
    OwnerIn(c);
    TreeRoot(m, t.left, x);
    TreeRoot(m, t.right, x);
    var m' := Replace(m, x, y);
    assert IsTree(m, t.left, x) && IsTree(m, t.right, x);
    hide Replace, Same, IsTree, IsCtx, Nodes, Apart, CtxNodes, CtxApart;
    ReplaceTouches(m, x, y, Nodes(t.left) - (if t.left.Fork? then {t.left.at} else {}));
    ReplaceTouches(m, x, y, Nodes(t.right) - (if t.right.Fork? then {t.right.at} else {}));
    if t.left.Fork? { ReplaceKids(m, x, y, t.left.at); }
    if t.right.Fork? { ReplaceKids(m, x, y, t.right.at); }
    TreeMoves(m, m', t.left, x, y);
    TreeMoves(m, m', t.right, x, y);
  }

  lemma ReplaceZip(m: Mem, c: Ctx, t: Tree, y: Node)
    requires IsZip(m, c, t) && t.Fork? && y !in Nodes(t) && y !in CtxNodes(c)
    ensures Has(m, t.at) && (m.parent[t.at] != null ==> Has(m, m.parent[t.at]))
    ensures IsZip(Replace(m, t.at, y), c, Fork(t.red, t.left, y, t.right))
  {
    var x := t.at;
    SpliceReady(m, c, t);
    KidFacts(m, c, t, L);
    KidFacts(m, c, t, R);
    ForkApart(c, t);
    RootIn(t.left);
    RootIn(t.right);
    OwnerIn(c);
    CtxRoot(m, c, x);
    ReplaceBelow(m, c, t, y);
    var m' := Replace(m, x, y);
    hide Replace, Same, IsTree, IsCtx, Nodes, Apart, CtxNodes, CtxApart;
    ReplaceOthers(m, x, y);
    ReplaceTouches(m, x, y, CtxNodes(c) - (if c.In? then {c.at} else {}));
    CtxMoves(m, m', c, x, y);
    ReplacedIs(m', c, t, y);
  }

  lemma ReplacedIs(m: Mem, c: Ctx, t: Tree, y: Node)
    requires t.Fork? && IsTree(m, t.left, y) && IsTree(m, t.right, y) && IsCtx(m, c, y)
    requires Links(m, y, t.red, Root(t.left), Root(t.right), Owner(c))
    requires Apart(t) && CtxApart(c) && Nodes(t) !! CtxNodes(c) && y !in Nodes(t) && y !in CtxNodes(c)
    ensures IsZip(m, c, Fork(t.red, t.left, y, t.right))
  {
  }

  // ---------- Finding and leaving out nodes ----------

  /** The subtree with a given node at its root. */
  lemma {:induction false} Focus(m: Mem, c: Ctx, t: Tree, n: Node) returns (c': Ctx, t': Tree)
    requires IsZip(m, c, t) && n in Inorder(t)
    ensures IsZip(m, c', t') && Plug(c', t') == Plug(c, t) && t'.Fork? && t'.at == n
    decreases t
  {
    hide IsZip;
    if t.at == n {
      c', t' := c, t;
    } else {
      var s := if n in Inorder(t.left) then L else R;
      Down(m, c, t, s);
      c', t' := Focus(m, In(s, t.red, t.at, Kid(t, Other(s)), c), Kid(t, s), n);
    }
  }

  lemma {:induction false} NodesInorder(t: Tree, n: Node)
    ensures n in Nodes(t) <==> n in Inorder(t)
  {
    if t.Fork? {
      NodesInorder(t.left, n);
      NodesInorder(t.right, n);
    }
  }

  /** The fields without those of `n`. */
  function Forget(m: Mem, n: Node): Mem {
    Mem(m.root, m.left - {n}, m.right - {n}, m.parent - {n}, m.red - {n})
  }

  lemma ForgetZip(m: Mem, t: Tree, n: Node)
    requires IsZip(m, Top, t) && n !in Inorder(t)
    ensures IsZip(Forget(m, n), Top, t)
  {
    NodesInorder(t, n);
    TreeStays(m, Forget(m, n), t, null);
  }
}
