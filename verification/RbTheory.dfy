/** Trees over array indices: the ghost view of the index-linked red-black tree. */
module RbTheory {

  const NIL: nat := 0

  datatype Color = Red | Black

  /** The four words that the tree keeps inside every node. */
  datatype Link = Link(parent: nat, left: nat, right: nat, color: Color)

  datatype Tree = Leaf | Node(left: Tree, idx: nat, color: Color, right: Tree)

  /** A tree with one subtree cut out; the constructors are listed from the hole outwards. */
  datatype Ctx =
    | Top
    | InLeft(up: Ctx, idx: nat, color: Color, right: Tree)
    | InRight(up: Ctx, left: Tree, idx: nat, color: Color)

  ghost function Root(t: Tree): nat {
    if t.Leaf? then NIL else t.idx
  }

  ghost function CtxIdx(c: Ctx): nat {
    if c.Top? then NIL else c.idx
  }

  ghost predicate IsRed(t: Tree) {
    t.Node? && t.color == Red
  }

  ghost predicate CtxRed(c: Ctx) {
    !c.Top? && c.color == Red
  }

  ghost function Plug(c: Ctx, t: Tree): Tree {
    match c
    case Top => t
    case InLeft(up, i, col, r) => Plug(up, Node(t, i, col, r))
    case InRight(up, l, i, col) => Plug(up, Node(l, i, col, t))
  }

  /** The node indices, in ascending key order. */
  ghost function InOrder(t: Tree): seq<nat> {
    match t
    case Leaf => []
    case Node(l, i, _, r) => InOrder(l) + [i] + InOrder(r)
  }

  ghost function Before(c: Ctx): seq<nat> {
    match c
    case Top => []
    case InLeft(up, _, _, _) => Before(up)
    case InRight(up, l, i, _) => Before(up) + InOrder(l) + [i]
  }

  ghost function After(c: Ctx): seq<nat> {
    match c
    case Top => []
    case InLeft(up, i, _, r) => [i] + InOrder(r) + After(up)
    case InRight(up, _, _, _) => After(up)
  }

  lemma Regroup(a: seq<nat>, b: seq<nat>, i: nat, d: seq<nat>, e: seq<nat>)
    ensures a + (b + [i] + d) + e == a + b + ([i] + d + e)
    ensures a + (b + [i] + d) + e == (a + b + [i]) + d + e
  {
  }

  lemma {:induction false} PlugInOrder(c: Ctx, t: Tree)
    ensures InOrder(Plug(c, t)) == Before(c) + InOrder(t) + After(c)
  {
    match c
    case Top =>
    case InLeft(up, i, col, r) =>
      PlugInOrder(up, Node(t, i, col, r));
      Regroup(Before(up), InOrder(t), i, InOrder(r), After(up));
    case InRight(up, l, i, col) =>
      PlugInOrder(up, Node(l, i, col, t));
      Regroup(Before(up), InOrder(l), i, InOrder(t), After(up));
  }

  // ---------------------------------------------------------------- node sets

  ghost function Nodes(t: Tree): set<nat> {
    match t
    case Leaf => {}
    case Node(l, i, _, r) => Nodes(l) + {i} + Nodes(r)
  }

  ghost function CtxNodes(c: Ctx): set<nat> {
    match c
    case Top => {}
    case InLeft(up, i, _, r) => CtxNodes(up) + {i} + Nodes(r)
    case InRight(up, l, i, _) => CtxNodes(up) + {i} + Nodes(l)
  }

  ghost predicate Distinct(t: Tree) {
    match t
    case Leaf => true
    case Node(l, i, _, r) =>
      && Distinct(l) && Distinct(r)
      && i !in Nodes(l) && i !in Nodes(r) && Nodes(l) !! Nodes(r)
  }

  ghost predicate CtxDistinct(c: Ctx) {
    match c
    case Top => true
    case InLeft(up, i, _, r) =>
      && CtxDistinct(up) && Distinct(r)
      && i !in Nodes(r) && i !in CtxNodes(up) && Nodes(r) !! CtxNodes(up)
    case InRight(up, l, i, _) =>
      && CtxDistinct(up) && Distinct(l)
      && i !in Nodes(l) && i !in CtxNodes(up) && Nodes(l) !! CtxNodes(up)
  }

  lemma NodesInOrder(t: Tree)
    ensures forall i :: i in Nodes(t) <==> i in InOrder(t)
  {
  }

  // ------------------------------------------------- what the array stores

  /** The array stores exactly the tree t below parent p. */
  ghost predicate Stores(s: seq<Link>, t: Tree, p: nat) {
    match t
    case Leaf => true
    case Node(l, i, col, r) =>
      && 0 < i < |s|
      && s[i] == Link(p, Root(l), Root(r), col)
      && Stores(s, l, i) && Stores(s, r, i)
  }

  /** The array stores exactly the context c, whose hole holds the index h. */
  ghost predicate StoresCtx(s: seq<Link>, root: nat, c: Ctx, h: nat) {
    match c
    case Top => root == h
    case InLeft(up, i, col, r) =>
      && 0 < i < |s|
      && s[i] == Link(CtxIdx(up), h, Root(r), col)
      && Stores(s, r, i) && StoresCtx(s, root, up, i)
    case InRight(up, l, i, col) =>
      && 0 < i < |s|
      && s[i] == Link(CtxIdx(up), Root(l), h, col)
      && Stores(s, l, i) && StoresCtx(s, root, up, i)
  }

  /** The array and the root word represent Plug(c, t), looked at from the root of t. */
  ghost predicate Rep(s: seq<Link>, root: nat, c: Ctx, t: Tree) {
    && Stores(s, t, CtxIdx(c)) && StoresCtx(s, root, c, Root(t))
    && Distinct(t) && CtxDistinct(c) && Nodes(t) !! CtxNodes(c)
  }

  lemma Zip(s: seq<Link>, root: nat, c: Ctx, t: Tree)
    requires !c.Top?
    ensures Rep(s, root, c, t) == Rep(s, root, c.up, Outer(c, t))
    ensures Plug(c, t) == Plug(c.up, Outer(c, t))
  {
  }

  /** The tree one level further out. */
  ghost function Outer(c: Ctx, t: Tree): Tree
    requires !c.Top?
  {
    if c.InLeft? then Node(t, c.idx, c.color, c.right) else Node(c.left, c.idx, c.color, t)
  }

  lemma {:induction false} ZipAll(s: seq<Link>, root: nat, c: Ctx, t: Tree)
    ensures Rep(s, root, c, t) == Rep(s, root, Top, Plug(c, t))
  {
    match c
    case Top =>
    case _ => Zip(s, root, c, t); ZipAll(s, root, c.up, Outer(c, t));
  }

  lemma {:induction false} StoresFrame(s: seq<Link>, s': seq<Link>, t: Tree, p: nat)
    requires Stores(s, t, p) && |s| == |s'|
    requires forall i :: i in Nodes(t) ==> i < |s| && s'[i] == s[i]
    ensures Stores(s', t, p)
  {
    match t
    case Leaf =>
    case Node(l, i, _, r) =>
      assert i in Nodes(t);
      StoresFrame(s, s', l, i);
      StoresFrame(s, s', r, i);
  }

  lemma {:induction false} StoresCtxFrame(s: seq<Link>, s': seq<Link>, root: nat, c: Ctx, h: nat)
    requires StoresCtx(s, root, c, h) && |s| == |s'|
    requires forall i :: i in CtxNodes(c) ==> i < |s| && s'[i] == s[i]
    ensures StoresCtx(s', root, c, h)
  {
    match c
    case Top =>
    case InLeft(up, i, _, r) =>
      assert i in CtxNodes(c);
      StoresFrame(s, s', r, i);
      StoresCtxFrame(s, s', root, up, i);
    case InRight(up, l, i, _) =>
      assert i in CtxNodes(c);
      StoresFrame(s, s', l, i);
      StoresCtxFrame(s, s', root, up, i);
  }

  lemma StoresBounds(s: seq<Link>, t: Tree, p: nat)
    requires Stores(s, t, p)
    ensures forall i :: i in Nodes(t) ==> 0 < i < |s|
    ensures NIL !in Nodes(t) && (t.Node? ==> t.idx in Nodes(t))
  {
  }

  lemma StoresCtxBounds(s: seq<Link>, root: nat, c: Ctx, h: nat)
    requires StoresCtx(s, root, c, h)
    ensures forall i :: i in CtxNodes(c) ==> 0 < i < |s|
    ensures NIL !in CtxNodes(c) && (c.Top? || CtxIdx(c) < |s|)
  {
    match c
    case Top =>
    case InLeft(up, i, _, r) => StoresBounds(s, r, i); StoresCtxBounds(s, root, up, i);
    case InRight(up, l, i, _) => StoresBounds(s, l, i); StoresCtxBounds(s, root, up, i);
  }

  // ------------------------------------------------- colour and height

  /** No red node has a red child and every path to a leaf passes h black nodes. */
  ghost predicate Balanced(t: Tree, h: nat) {
    match t
    case Leaf => h == 0
    case Node(l, _, Red, r) => !IsRed(l) && !IsRed(r) && Balanced(l, h) && Balanced(r, h)
    case Node(l, _, Black, r) => h > 0 && Balanced(l, h - 1) && Balanced(r, h - 1)
  }

  /** The context keeps both rules when a subtree of black height h fills its hole. */
  ghost predicate CtxBalanced(c: Ctx, h: nat) {
    match c
    case Top => true
    case InLeft(up, _, Black, r) => Balanced(r, h) && CtxBalanced(up, h + 1)
    case InLeft(up, _, Red, r) =>
      Balanced(r, h) && !IsRed(r) && !up.Top? && !CtxRed(up) && CtxBalanced(up, h)
    case InRight(up, l, _, Black) => Balanced(l, h) && CtxBalanced(up, h + 1)
    case InRight(up, l, _, Red) =>
      Balanced(l, h) && !IsRed(l) && !up.Top? && !CtxRed(up) && CtxBalanced(up, h)
  }

  ghost predicate RedBlack(t: Tree) {
    !IsRed(t) && exists h: nat :: Balanced(t, h)
  }

  lemma {:induction false} PlugBalanced(c: Ctx, t: Tree, h: nat) returns (hh: nat)
    requires Balanced(t, h) && CtxBalanced(c, h)
    requires CtxRed(c) || c.Top? ==> !IsRed(t)
    ensures Balanced(Plug(c, t), hh) && !IsRed(Plug(c, t))
  {
    match c
    case Top => hh := h;
    case InLeft(up, i, col, r) =>
      hh := PlugBalanced(up, Node(t, i, col, r), if col == Black then h + 1 else h);
    case InRight(up, l, i, col) =>
      hh := PlugBalanced(up, Node(l, i, col, t), if col == Black then h + 1 else h);
  }

  lemma {:induction false} FocusBalanced(c: Ctx, t: Tree) returns (h: nat)
    requires RedBlack(Plug(c, t))
    ensures Balanced(t, h) && CtxBalanced(c, h)
    ensures CtxRed(c) || c.Top? ==> !IsRed(t)
  {
    match c
    case Top => h :| Balanced(t, h);
    case InLeft(up, i, col, r) =>
      h := FocusBalanced(up, Node(t, i, col, r));
      if col == Black { h := h - 1; }
    case InRight(up, l, i, col) =>
      h := FocusBalanced(up, Node(l, i, col, t));
      if col == Black { h := h - 1; }
  }

  /** Replacing the focused tree by one with the same order keeps the order of the whole tree. */
  lemma {:induction false} SameOrder(c: Ctx, t: Tree, t': Tree)
    requires InOrder(t) == InOrder(t')
    ensures InOrder(Plug(c, t)) == InOrder(Plug(c, t'))
  {
    PlugInOrder(c, t);
    PlugInOrder(c, t');
  }

  ghost function Depth(c: Ctx): nat {
    if c.Top? then 0 else 1 + Depth(c.up)
  }

  // ------------------------------------------- balance of the insert cases

  /** A red frame sits below a black grandparent frame; this lists what both guarantee. */
  lemma {:induction false} RedFrame(c: Ctx, h: nat)
    requires CtxRed(c) && CtxBalanced(c, h)
    ensures !c.up.Top? && c.up.color == Black && CtxBalanced(c.up.up, h + 1)
    ensures c.InLeft? ==> Balanced(c.right, h) && !IsRed(c.right)
    ensures c.InRight? ==> Balanced(c.left, h) && !IsRed(c.left)
    ensures c.up.InLeft? ==> Balanced(c.up.right, h)
    ensures c.up.InRight? ==> Balanced(c.up.left, h)
  {
    assert CtxBalanced(c.up, h);
  }

  /** Recolouring a red uncle moves the double red two levels up and keeps the height below. */
  lemma {:induction false} LiftBalanced(c: Ctx, t: Tree, h: nat)
    requires CtxRed(c) && CtxBalanced(c, h) && Balanced(t, h)
    requires c.up.InLeft? ==> IsRed(c.up.right)
    requires c.up.InRight? ==> IsRed(c.up.left)
    ensures !c.up.Top? && Outer(c.up, Outer(c, t)).left.Node? && Outer(c.up, Outer(c, t)).right.Node?
    ensures Balanced(Lifted(Outer(c.up, Outer(c, t))), h + 1) && CtxBalanced(c.up.up, h + 1)
  {
    RedFrame(c, h);
    var t' := Lifted(Outer(c.up, Outer(c, t)));
    assert Balanced(Painted(Outer(c, t), Black), h + 1);
    assert Balanced(t'.left, h + 1);
    assert Balanced(t'.right, h + 1);
  }

  /** A black root with two red children changes colour with them. */
  ghost function Lifted(t: Tree): Tree
    requires t.Node?
  {
    Node(Painted(t.left, Black), t.idx, Red, Painted(t.right, Black))
  }

  ghost function Painted(t: Tree, col: Color): Tree {
    if t.Leaf? then t else t.(color := col)
  }

  // ------------------------------------------- balance of the remove cases

  /**
   * One black node is missing on every path through t. A red t can make up for it by turning black,
   * so then only the children of t have to be in order.
   */
  ghost predicate Short(t: Tree, h: nat) {
    if IsRed(t) then Balanced(Painted(t, Black), h + 1) else Balanced(t, h)
  }

  /** What a frame next to a short black subtree guarantees: the sibling exists. */
  lemma {:induction false} SiblingFrame(c: Ctx, h: nat)
    requires !c.Top? && CtxBalanced(c, h + 1)
    ensures c.InLeft? ==> c.right.Node? && Balanced(c.right, h + 1)
    ensures c.InRight? ==> c.left.Node? && Balanced(c.left, h + 1)
    ensures c.color == Black ==> CtxBalanced(c.up, h + 2)
    ensures c.color == Red ==> CtxBalanced(c.up, h + 1) && !CtxRed(c.up) && !c.up.Top?
    ensures c.color == Red && c.InLeft? ==> !IsRed(c.right)
    ensures c.color == Red && c.InRight? ==> !IsRed(c.left)
  {
  }

  /** Case 1: the red sibling w moves up, and its near child is the new, black sibling. */
  lemma {:induction false} RedSiblingBalanced(c: Ctx, h: nat)
    requires !c.Top? && CtxBalanced(c, h + 1)
    ensures c.InLeft? && IsRed(c.right) ==>
              var w := c.right;
              && c.color == Black && w.left.Node? && w.left.color == Black
              && CtxBalanced(InLeft(InLeft(c.up, w.idx, Black, w.right), c.idx, Red, w.left), h + 1)
    ensures c.InRight? && IsRed(c.left) ==>
              var w := c.left;
              && c.color == Black && w.right.Node? && w.right.color == Black
              && CtxBalanced(InRight(InRight(c.up, w.left, w.idx, Black), w.right, c.idx, Red), h + 1)
  {
    SiblingFrame(c, h);
    if c.InLeft? && IsRed(c.right) {
      var w := c.right;
      assert Balanced(w.left, h + 1) && Balanced(w.right, h + 1);
      assert CtxBalanced(InLeft(c.up, w.idx, Black, w.right), h + 1);
    }
    if c.InRight? && IsRed(c.left) {
      var w := c.left;
      assert Balanced(w.left, h + 1) && Balanced(w.right, h + 1);
      assert CtxBalanced(InRight(c.up, w.left, w.idx, Black), h + 1);
    }
  }

  /** Case 2: a black sibling with two black children turns red, and the parent is short instead. */
  lemma {:induction false} BlackChildrenBalanced(c: Ctx, t: Tree, h: nat) returns (h': nat)
    requires !c.Top? && CtxBalanced(c, h + 1) && Balanced(t, h)
    requires c.InLeft? ==> !IsRed(c.right) && (c.right.Node? ==> !IsRed(c.right.left) && !IsRed(c.right.right))
    requires c.InRight? ==> !IsRed(c.left) && (c.left.Node? ==> !IsRed(c.left.left) && !IsRed(c.left.right))
    ensures Short(Outer(Reddened(c), t), h') && CtxBalanced(c.up, h' + 1)
  {
    SiblingFrame(c, h);
    h' := if c.color == Black then h + 1 else h;
    var o := Outer(Reddened(c), t);
    if c.InLeft? {
      assert Balanced(Painted(c.right, Red), h);
    } else {
      assert Balanced(Painted(c.left, Red), h);
    }
    assert Balanced(Painted(o, Black), h + 1);
  }

  ghost function Reddened(c: Ctx): Ctx {
    match c
    case Top => c
    case InLeft(up, i, col, r) => InLeft(up, i, col, Painted(r, Red))
    case InRight(up, l, i, col) => InRight(up, Painted(l, Red), i, col)
  }

  /** Case 3: the red near nephew takes the place of the sibling. */
  ghost function NearRotated(c: Ctx): Ctx
    requires c.InLeft? ==> c.right.Node? && c.right.left.Node?
    requires c.InRight? ==> c.left.Node? && c.left.right.Node?
  {
    match c
    case Top => c
    case InLeft(up, i, col, w) =>
      InLeft(up, i, col, Node(w.left.left, w.left.idx, Black, Node(w.left.right, w.idx, Red, w.right)))
    case InRight(up, w, i, col) =>
      InRight(up, Node(Node(w.left, w.idx, Red, w.right.left), w.right.idx, Black, w.right.right), i, col)
  }

  lemma {:induction false} NearNephewBalanced(c: Ctx, h: nat)
    requires !c.Top? && CtxBalanced(c, h + 1)
    requires c.InLeft? ==> c.right.Node? && !IsRed(c.right) && IsRed(c.right.left) && !IsRed(c.right.right)
    requires c.InRight? ==> c.left.Node? && !IsRed(c.left) && IsRed(c.left.right) && !IsRed(c.left.left)
    ensures CtxBalanced(NearRotated(c), h + 1)
  {
    SiblingFrame(c, h);
    match c
    case InLeft(up, i, col, w) =>
      assert Balanced(w.left, h) && Balanced(w.right, h);
      assert Balanced(Node(w.left.right, w.idx, Red, w.right), h);
      assert Balanced(NearRotated(c).right, h + 1);
    case InRight(up, w, i, col) =>
      assert Balanced(w.left, h) && Balanced(w.right, h);
      assert Balanced(Node(w.left, w.idx, Red, w.right.left), h);
      assert Balanced(NearRotated(c).left, h + 1);
  }

  /** Case 4: with a red far nephew, one rotation supplies the missing black node. */
  ghost function FarRotated(c: Ctx, t: Tree): Tree
    requires !c.Top?
    requires c.InLeft? ==> c.right.Node?
    requires c.InRight? ==> c.left.Node?
  {
    if c.InLeft? then
      Node(Node(t, c.idx, Black, c.right.left), c.right.idx, c.color, Painted(c.right.right, Black))
    else
      Node(Painted(c.left.left, Black), c.left.idx, c.color, Node(c.left.right, c.idx, Black, t))
  }

  lemma {:induction false} FarNephewBalanced(c: Ctx, t: Tree, h: nat) returns (hh: nat)
    requires !c.Top? && CtxBalanced(c, h + 1) && Balanced(t, h)
    requires c.InLeft? ==> c.right.Node? && !IsRed(c.right) && IsRed(c.right.right)
    requires c.InRight? ==> c.left.Node? && !IsRed(c.left) && IsRed(c.left.left)
    ensures Balanced(Plug(c.up, FarRotated(c, t)), hh) && !IsRed(Plug(c.up, FarRotated(c, t)))
  {
    SiblingFrame(c, h);
    var n := FarRotated(c, t);
    if c.InLeft? {
      var w := c.right;
      assert Balanced(w.left, h) && Balanced(w.right, h);
      assert Balanced(Painted(w.right, Black), h + 1);
      assert Balanced(Node(t, c.idx, Black, w.left), h + 1);
    } else {
      var w := c.left;
      assert Balanced(w.left, h) && Balanced(w.right, h);
      assert Balanced(Painted(w.left, Black), h + 1);
      assert Balanced(Node(w.right, c.idx, Black, t), h + 1);
    }
    hh := PlugAnyBalanced(c.up, n, if c.color == Black then h + 2 else h + 1);
  }

  /** Like PlugBalanced for a root that may stay red. */
  lemma {:induction false} PlugAnyBalanced(c: Ctx, t: Tree, h: nat) returns (hh: nat)
    requires Balanced(t, h) && CtxBalanced(c, h)
    requires CtxRed(c) ==> !IsRed(t)
    ensures Balanced(Plug(c, t), hh)
    ensures c.Top? ==> hh == h
    ensures !c.Top? ==> !IsRed(Plug(c, t))
  {
    if c.Top? {
      hh := h;
    } else {
      hh := PlugBalanced(c.up, Outer(c, t), if c.color == Black then h + 1 else h);
    }
  }

  /** At the end of the remove fix-up, blackening t restores the whole tree. */
  lemma {:induction false} RestoredBalanced(c: Ctx, t: Tree, h: nat) returns (hh: nat)
    requires Short(t, h) && CtxBalanced(c, h + 1) && (c.Top? || IsRed(t))
    ensures Balanced(Plug(c, Painted(t, Black)), hh) && !IsRed(Plug(c, Painted(t, Black)))
  {
    var t' := Painted(t, Black);
    if IsRed(t) {
      hh := PlugBalanced(c, t', h + 1);
    } else {
      hh := h;
    }
  }

  // ------------------------------------------------- contexts inside contexts

  /** The context inner, whose outermost frame hangs in the hole of outer. */
  ghost function Compose(outer: Ctx, inner: Ctx): Ctx {
    match inner
    case Top => outer
    case InLeft(up, i, col, r) => InLeft(Compose(outer, up), i, col, r)
    case InRight(up, l, i, col) => InRight(Compose(outer, up), l, i, col)
  }

  ghost predicate AllLeft(c: Ctx) {
    c.Top? || (c.InLeft? && AllLeft(c.up))
  }

  lemma {:induction false} RepCompose(s: seq<Link>, root: nat, outer: Ctx, inner: Ctx, t: Tree)
    ensures Rep(s, root, Compose(outer, inner), t) == Rep(s, root, outer, Plug(inner, t))
    ensures Plug(Compose(outer, inner), t) == Plug(outer, Plug(inner, t))
  {
    if !inner.Top? {
      Zip(s, root, Compose(outer, inner), t);
      RepCompose(s, root, outer, inner.up, Outer(inner, t));
    }
  }

  lemma {:induction false} FocusInTree(c: Ctx, t: Tree)
    ensures forall i :: i in Nodes(t) ==> i in Nodes(Plug(c, t))
    ensures forall i :: i in CtxNodes(c) ==> i in Nodes(Plug(c, t))
    ensures forall i :: i in Nodes(Plug(c, t)) ==> i in Nodes(t) || i in CtxNodes(c)
  {
    match c
    case Top =>
    case _ => FocusInTree(c.up, Outer(c, t));
  }

  lemma {:induction false} ComposeNodes(outer: Ctx, inner: Ctx)
    ensures CtxNodes(Compose(outer, inner)) == CtxNodes(outer) + CtxNodes(inner)
  {
    if !inner.Top? {
      ComposeNodes(outer, inner.up);
    }
  }

  // ------------------------------------------------- what unlinking a node leaves

  /** The successor of the root of t is the root of ty, found by going left inside the right subtree. */
  ghost predicate Successors(t: Tree, cr: Ctx, ty: Tree) {
    && t.Node? && ty.Node? && ty.left.Leaf? && AllLeft(cr) && Plug(cr, ty) == t.right
  }

  /**
   * t' fills c' after the root of t has been taken out of c. When ycol is black, one black node is
   * missing above t'.
   */
  ghost predicate Unlinked(c: Ctx, t: Tree, c': Ctx, t': Tree, ycol: Color) {
    && t.Node?
    && if t.left.Leaf? then c' == c && t' == t.right && ycol == t.color
       else if t.right.Leaf? then c' == c && t' == t.left && ycol == t.color
       else exists cr, ty ::
              && Successors(t, cr, ty) && ycol == ty.color && t' == ty.right
              && c' == Compose(InRight(c, t.left, ty.idx, t.color), cr)
  }

  lemma {:induction false} AllLeftBefore(c: Ctx)
    requires AllLeft(c)
    ensures Before(c) == []
  {
    if !c.Top? {
      AllLeftBefore(c.up);
    }
  }

  lemma {:induction false} UnlinkedInOrder(c: Ctx, t: Tree, c': Ctx, t': Tree, ycol: Color)
    requires Unlinked(c, t, c', t', ycol)
    ensures InOrder(Plug(c', t')) == (Before(c) + InOrder(t.left)) + (InOrder(t.right) + After(c))
  {
    hide Before, After, Plug, Compose, Nodes;
    if t.left.Leaf? {
      PlugInOrder(c, t');
      assert InOrder(t.left) == [];
      hide InOrder;
      assert Before(c) + InOrder(t.right) + After(c) == (Before(c) + []) + (InOrder(t.right) + After(c));
    } else if t.right.Leaf? {
      PlugInOrder(c, t');
      assert InOrder(t.right) == [];
      hide InOrder;
      assert Before(c) + InOrder(t.left) + After(c) == (Before(c) + InOrder(t.left)) + ([] + After(c));
    } else {
      hide InOrder;
      var cr, ty :| Successors(t, cr, ty) && ycol == ty.color && t' == ty.right
                    && c' == Compose(InRight(c, t.left, ty.idx, t.color), cr);
      ReplacedInOrder(c, t, cr, ty);
    }
  }

  lemma {:induction false} ReplacedInOrder(c: Ctx, t: Tree, cr: Ctx, ty: Tree)
    requires Successors(t, cr, ty)
    ensures InOrder(Plug(Compose(InRight(c, t.left, ty.idx, t.color), cr), ty.right))
         == (Before(c) + InOrder(t.left)) + (InOrder(t.right) + After(c))
  {
    var o, r := InRight(c, t.left, ty.idx, t.color), Plug(cr, ty.right);
    assert Before(o) == Before(c) + InOrder(t.left) + [ty.idx] && After(o) == After(c);
    hide InOrder, Before, After, Plug, Compose, Nodes;
    SuccessorFirst(t, cr, ty);
    RepCompose([], NIL, o, cr, ty.right);
    PlugInOrder(o, r);
    RegroupRight(Before(c) + InOrder(t.left), ty.idx, InOrder(r), After(c));
  }

  lemma RegroupRight(a: seq<nat>, y: nat, r: seq<nat>, e: seq<nat>)
    ensures (a + [y]) + r + e == a + (([y] + r) + e)
  {
  }

  lemma {:induction false} SuccessorFirst(t: Tree, cr: Ctx, ty: Tree)
    requires Successors(t, cr, ty)
    ensures InOrder(t.right) == [ty.idx] + InOrder(Plug(cr, ty.right))
  {
    AllLeftBefore(cr);
    PlugInOrder(cr, ty);
    PlugInOrder(cr, ty.right);
    assert InOrder(ty) == [ty.idx] + InOrder(ty.right);
    assert ([ty.idx] + InOrder(ty.right)) + After(cr) == [ty.idx] + (InOrder(ty.right) + After(cr));
  }

  lemma {:induction false} RenamedBalanced(c: Ctx, l: Tree, y: nat, z: nat, col: Color, cr: Ctx, h: nat)
    requires CtxBalanced(Compose(InRight(c, l, z, col), cr), h)
    ensures CtxBalanced(Compose(InRight(c, l, y, col), cr), h)
    ensures CtxRed(Compose(InRight(c, l, z, col), cr)) == CtxRed(Compose(InRight(c, l, y, col), cr))
    ensures !Compose(InRight(c, l, y, col), cr).Top?
    decreases cr
  {
    if cr.Top? {
      assert Compose(InRight(c, l, y, col), cr) == InRight(c, l, y, col);
    } else {
      RenamedBalanced(c, l, y, z, col, cr.up, if cr.color == Black then h + 1 else h);
    }
  }

  lemma {:induction false} UnlinkedBalanced(c: Ctx, t: Tree, c': Ctx, t': Tree, ycol: Color) returns (h: nat)
    requires RedBlack(Plug(c, t)) && Unlinked(c, t, c', t', ycol)
    ensures Balanced(t', h) && CtxBalanced(c', if ycol == Black then h + 1 else h)
    ensures ycol == Red ==> !IsRed(t') && !c'.Top?
  {
    var ht := FocusBalanced(c, t);
    if t.left.Leaf? || t.right.Leaf? {
      h := if t.color == Black then ht - 1 else ht;
      assert Balanced(t.left, h) && Balanced(t.right, h);
    } else {
      var cr, ty :| Successors(t, cr, ty) && ycol == ty.color && t' == ty.right
                    && c' == Compose(InRight(c, t.left, ty.idx, t.color), cr);
      var o := InRight(c, t.left, t.idx, t.color);
      RepCompose([], NIL, o, cr, ty);
      var hy := FocusBalanced(Compose(o, cr), ty);
      RenamedBalanced(c, t.left, ty.idx, t.idx, t.color, cr, hy);
      h := if ycol == Black then hy - 1 else hy;
    }
  }

  /** Finds the place of node z in the tree. */
  lemma {:induction false} Locate(c: Ctx, t: Tree, z: nat) returns (c': Ctx, t': Tree)
    requires z in Nodes(t)
    ensures Plug(c', t') == Plug(c, t) && t'.Node? && t'.idx == z
    decreases t
  {
    if t.idx == z {
      c', t' := c, t;
    } else if z in Nodes(t.left) {
      c', t' := Locate(InLeft(c, t.idx, t.color, t.right), t.left, z);
    } else {
      c', t' := Locate(InRight(c, t.left, t.idx, t.color), t.right, z);
    }
  }

  // ------------------------------------------------- height

  ghost function Height(t: Tree): nat {
    if t.Leaf? then 0
    else 1 + if Height(t.left) > Height(t.right) then Height(t.left) else Height(t.right)
  }

  ghost function Pow2(n: nat): nat {
    if n == 0 then 1 else 2 * Pow2(n - 1)
  }

  lemma {:induction false} BalancedHeight(t: Tree, h: nat)
    requires Balanced(t, h)
    ensures Height(t) <= 2 * h + if IsRed(t) then 1 else 0
    ensures Pow2(h) <= |InOrder(t)| + 1
  {
    if t.Node? {
      var hc := if t.color == Black then h - 1 else h;
      BalancedHeight(t.left, hc);
      BalancedHeight(t.right, hc);
    }
  }

  lemma {:induction false} Pow2Double(n: nat)
    ensures Pow2(2 * n) == Pow2(n) * Pow2(n)
  {
    if n > 0 {
      Pow2Double(n - 1);
      assert Pow2(2 * n) == 2 * Pow2(2 * n - 1) == 4 * Pow2(2 * (n - 1));
    }
  }

  lemma {:induction false} Pow2Monotone(m: nat, n: nat)
    requires m <= n
    ensures Pow2(m) <= Pow2(n)
    decreases n - m
  {
    if m < n {
      Pow2Monotone(m + 1, n);
    }
  }

  lemma SquareMonotone(a: nat, b: nat)
    requires a <= b
    ensures a * a <= b * b
  {
    assert a * a <= a * b;
    assert a * b <= b * b;
  }

  /** A red-black tree with n nodes is at most 2 * log2(n + 1) high. */
  lemma {:induction false} LogarithmicHeight(t: Tree)
    requires RedBlack(t)
    ensures Pow2(Height(t)) <= (|InOrder(t)| + 1) * (|InOrder(t)| + 1)
  {
    var h: nat :| Balanced(t, h);
    BalancedHeight(t, h);
    Pow2Monotone(Height(t), 2 * h);
    Pow2Double(h);
    SquareMonotone(Pow2(h), |InOrder(t)| + 1);
  }
}
