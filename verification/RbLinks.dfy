/** The pointer writes of the tree as functions on the node array, and what they do to the tree stored there. */
module RbLinks {
  import opened RbTheory

  // A link write is defined for every in-range pair; NIL is skipped like in the C helpers.
  function WithLeft(s: seq<Link>, p: nat, c: nat): (r: seq<Link>)
    requires p < |s| && c < |s|
  {
    var s1 := if p != NIL then s[p := s[p].(left := c)] else s;
    if c != NIL then s1[c := s1[c].(parent := p)] else s1
  }

  function WithRight(s: seq<Link>, p: nat, c: nat): (r: seq<Link>)
    requires p < |s| && c < |s|
  {
    var s1 := if p != NIL then s[p := s[p].(right := c)] else s;
    if c != NIL then s1[c := s1[c].(parent := p)] else s1
  }

  function WithColor(s: seq<Link>, i: nat, col: Color): seq<Link>
    requires i < |s|
  {
    if i != NIL then s[i := s[i].(color := col)] else s
  }

  /** v takes the place of u below the parent up of u (or at the root). */
  function Transplanted(s: seq<Link>, u: nat, v: nat, up: nat): seq<Link>
    requires u < |s| && v < |s| && up < |s|
  {
    if up == NIL then (if v != NIL then s[v := s[v].(parent := NIL)] else s)
    else if u == s[up].left then WithLeft(s, up, v)
    else WithRight(s, up, v)
  }

  // ------------------------------------------------------------------ lemmas

  lemma {:induction false} Reparent(s: seq<Link>, s': seq<Link>, t: Tree, p: nat, p': nat)
    requires Stores(s, t, p) && Distinct(t) && |s'| == |s|
    requires forall i :: i in Nodes(t) && i != Root(t) ==> i < |s| && s'[i] == s[i]
    requires t.Node? ==> s'[t.idx] == s[t.idx].(parent := p')
    ensures Stores(s', t, p')
  {
    if t.Node? {
      assert t.idx in Nodes(t);
      StoresBounds(s, t.left, t.idx);
      StoresBounds(s, t.right, t.idx);
      StoresFrame(s, s', t.left, t.idx);
      StoresFrame(s, s', t.right, t.idx);
    }
  }

  /** Changing the hole index of a context touches only the innermost frame. */
  lemma {:induction false} TransplantCtx(s: seq<Link>, root: nat, c: Ctx, u: nat, v: nat)
    requires StoresCtx(s, root, c, u) && CtxDistinct(c)
    requires u !in CtxNodes(c) && v !in CtxNodes(c)
    requires 0 < u < |s| && v < |s| && CtxIdx(c) < |s|
    ensures var s' := Transplanted(s, u, v, CtxIdx(c));
            && StoresCtx(s', if c.Top? then v else root, c, v)
            && |s'| == |s|
            && (forall i :: 0 <= i < |s| && i != v && i != CtxIdx(c) ==> s'[i] == s[i])
            && (v != NIL ==> s'[v] == s[v].(parent := CtxIdx(c)))
            && (c.Top? && v != NIL ==> s'[NIL] == s[NIL])
  {
    StoresCtxBounds(s, root, c, u);
    var s' := Transplanted(s, u, v, CtxIdx(c));
    match c
    case Top =>
    case InLeft(up, i, col, r) =>
      assert i in CtxNodes(c);
      StoresFrame(s, s', r, i);
      StoresCtxFrame(s, s', root, up, i);
    case InRight(up, l, i, col) =>
      assert i in CtxNodes(c);
      assert l.Node? ==> l.idx in CtxNodes(c);
      StoresFrame(s, s', l, i);
      StoresCtxFrame(s, s', root, up, i);
  }

  /** A transplant at the root of a focused tree puts any detached tree v there. */
  lemma {:induction false} TransplantRep(s: seq<Link>, root: nat, c: Ctx, t: Tree, v: Tree, p: nat)
    requires Rep(s, root, c, t) && t.Node?
    requires Stores(s, v, p) && Distinct(v) && Nodes(v) !! CtxNodes(c)
    ensures t.idx < |s| && Root(v) < |s| && CtxIdx(c) < |s|
    ensures Rep(Transplanted(s, t.idx, Root(v), CtxIdx(c)), if c.Top? then Root(v) else root, c, v)
  {
    StoresCtxBounds(s, root, c, t.idx);
    StoresBounds(s, t, CtxIdx(c));
    StoresBounds(s, v, p);
    TransplantCtx(s, root, c, t.idx, Root(v));
    var s' := Transplanted(s, t.idx, Root(v), CtxIdx(c));
    assert !c.Top? ==> CtxIdx(c) in CtxNodes(c);
    Reparent(s, s', v, p, CtxIdx(c));
  }

  ghost function RotatedLeft(t: Tree): Tree
    requires t.Node? && t.right.Node?
  {
    Node(Node(t.left, t.idx, t.color, t.right.left), t.right.idx, t.right.color, t.right.right)
  }

  ghost function RotatedRight(t: Tree): Tree
    requires t.Node? && t.left.Node?
  {
    Node(t.left.left, t.left.idx, t.left.color, Node(t.left.right, t.idx, t.color, t.right))
  }

  /** The array after the three link writes of a left rotation at x, cell by cell. */
  lemma {:induction false} RotateLeftCells(s: seq<Link>, x: nat, y: nat, b: nat, p: nat, s1: seq<Link>, s2: seq<Link>, s3: seq<Link>)
    requires 0 < x < |s| && 0 < y < |s| && b < |s| && p < |s|
    requires x != y && b != x && b != y && (p != NIL ==> p != x && p != y && p != b)
    requires s[x].right == y
    requires s1 == WithRight(s, x, b) && s2 == Transplanted(s1, x, y, p) && s3 == WithLeft(s2, y, x)
    ensures |s2| == |s| && |s3| == |s|
    ensures s3[x] == s[x].(parent := y, right := b)
    ensures s3[y] == s[y].(parent := p, left := x)
    ensures b != NIL ==> s3[b] == s[b].(parent := x)
    ensures forall i :: 0 <= i < |s| && i != x && i != y && i != b ==> s3[i] == s2[i]
    ensures forall i :: 0 <= i < |s| && i != x && i != y && i != b && i != p ==> s3[i] == s[i]
    ensures p != NIL ==> s3[p] == s2[p]
  {
  }

  lemma {:induction false} RotateRightCells(s: seq<Link>, x: nat, y: nat, b: nat, p: nat, s1: seq<Link>, s2: seq<Link>, s3: seq<Link>)
    requires 0 < x < |s| && 0 < y < |s| && b < |s| && p < |s|
    requires x != y && b != x && b != y && (p != NIL ==> p != x && p != y && p != b)
    requires s[x].left == y
    requires s1 == WithLeft(s, x, b) && s2 == Transplanted(s1, x, y, p) && s3 == WithRight(s2, y, x)
    ensures |s2| == |s| && |s3| == |s|
    ensures s3[x] == s[x].(parent := y, left := b)
    ensures s3[y] == s[y].(parent := p, right := x)
    ensures b != NIL ==> s3[b] == s[b].(parent := x)
    ensures forall i :: 0 <= i < |s| && i != x && i != y && i != b ==> s3[i] == s2[i]
    ensures forall i :: 0 <= i < |s| && i != x && i != y && i != b && i != p ==> s3[i] == s[i]
    ensures p != NIL ==> s3[p] == s2[p]
  {
  }

  lemma {:induction false} RotateLeftRep(s: seq<Link>, root: nat, c: Ctx, t: Tree, s1: seq<Link>, s2: seq<Link>, s3: seq<Link>)
    requires Rep(s, root, c, t) && t.Node? && t.right.Node?
    requires t.idx < |s| && t.right.idx < |s| && Root(t.right.left) < |s| && CtxIdx(c) < |s|
    requires s1 == WithRight(s, t.idx, Root(t.right.left))
    requires s2 == Transplanted(s1, t.idx, t.right.idx, CtxIdx(c))
    requires s3 == WithLeft(s2, t.right.idx, t.idx)
    ensures Rep(s3, if c.Top? then t.right.idx else root, c, RotatedLeft(t))
  {
    var Node(a, x, cx, Node(b, y, cy, d)) := t;
    var p := CtxIdx(c);
    RepBounds(s, root, c, t);
    assert Stores(s, t.right, x) && Distinct(t.right);
    assert Nodes(a) <= Nodes(t) && Nodes(b) <= Nodes(t) && Nodes(d) <= Nodes(t);
    assert b.Node? ==> b.idx in Nodes(b);
    RotateLeftCells(s, x, y, Root(b), p, s1, s2, s3);
    RotatedCtx(s, root, c, x, y, Root(b), s1, s2, s3);
    RotatedPieces(s, s3, a, b, d, x, y, p);
  }

  lemma {:induction false} RotateRightRep(s: seq<Link>, root: nat, c: Ctx, t: Tree, s1: seq<Link>, s2: seq<Link>, s3: seq<Link>)
    requires Rep(s, root, c, t) && t.Node? && t.left.Node?
    requires t.idx < |s| && t.left.idx < |s| && Root(t.left.right) < |s| && CtxIdx(c) < |s|
    requires s1 == WithLeft(s, t.idx, Root(t.left.right))
    requires s2 == Transplanted(s1, t.idx, t.left.idx, CtxIdx(c))
    requires s3 == WithRight(s2, t.left.idx, t.idx)
    ensures Rep(s3, if c.Top? then t.left.idx else root, c, RotatedRight(t))
  {
    var Node(Node(d, y, cy, b), x, cx, a) := t;
    var p := CtxIdx(c);
    RepBounds(s, root, c, t);
    assert Stores(s, t.left, x) && Distinct(t.left);
    assert Nodes(a) <= Nodes(t) && Nodes(b) <= Nodes(t) && Nodes(d) <= Nodes(t);
    assert b.Node? ==> b.idx in Nodes(b);
    RotateRightCells(s, x, y, Root(b), p, s1, s2, s3);
    RotatedCtx(s, root, c, x, y, Root(b), s1, s2, s3);
    RotatedPieces(s, s3, a, b, d, x, y, p);
  }

  /** A rotation hands the hole of the context from x to y and leaves the rest of the context alone. */
  lemma {:induction false} RotatedCtx(s: seq<Link>, root: nat, c: Ctx, x: nat, y: nat, b: nat, s1: seq<Link>, s2: seq<Link>, s3: seq<Link>)
    requires StoresCtx(s, root, c, x) && CtxDistinct(c)
    requires 0 < x < |s| && 0 < y < |s| && b < |s| && CtxIdx(c) < |s|
    requires x !in CtxNodes(c) && y !in CtxNodes(c) && (b != NIL ==> b !in CtxNodes(c))
    requires |s1| == |s| && |s3| == |s|
    requires forall i :: 0 < i < |s| && i != x && i != b ==> s1[i] == s[i]
    requires s2 == Transplanted(s1, x, y, CtxIdx(c))
    requires |s2| == |s| && forall i :: 0 < i < |s| && i != x && i != y && i != b ==> s3[i] == s2[i]
    ensures StoresCtx(s3, if c.Top? then y else root, c, y)
  {
    StoresCtxBounds(s, root, c, x);
    StoresCtxFrame(s, s1, root, c, x);
    TransplantCtx(s1, root, c, x, y);
    StoresCtxFrame(s2, s3, if c.Top? then y else root, c, y);
  }

  /** The three subtrees below a rotated edge keep their shape; only b gets a new parent. */
  lemma {:induction false} RotatedPieces(s: seq<Link>, s': seq<Link>, a: Tree, b: Tree, d: Tree, x: nat, y: nat, p: nat)
    requires Stores(s, a, x) && Stores(s, b, y) && Stores(s, d, y) && Distinct(b)
    requires x !in Nodes(a) && x !in Nodes(b) && x !in Nodes(d)
    requires y !in Nodes(a) && y !in Nodes(b) && y !in Nodes(d)
    requires p !in Nodes(a) && p !in Nodes(b) && p !in Nodes(d)
    requires Nodes(b) !! Nodes(a) && Nodes(b) !! Nodes(d)
    requires |s'| == |s|
    requires forall i :: 0 <= i < |s| && i != x && i != y && i != Root(b) && i != p ==> s'[i] == s[i]
    requires b.Node? ==> b.idx < |s| && s'[b.idx] == s[b.idx].(parent := x)
    ensures Stores(s', a, x) && Stores(s', b, x) && Stores(s', d, y)
  {
    StoresBounds(s, a, x);
    StoresBounds(s, b, y);
    StoresBounds(s, d, y);
    assert b.Node? ==> b.idx in Nodes(b);
    StoresFrame(s, s', a, x);
    StoresFrame(s, s', d, y);
    Reparent(s, s', b, y, x);
  }

  lemma {:induction false} RepBounds(s: seq<Link>, root: nat, c: Ctx, t: Tree)
    requires Rep(s, root, c, t)
    ensures forall i :: i in Nodes(t) ==> 0 < i < |s|
    ensures forall i :: i in CtxNodes(c) ==> 0 < i < |s|
    ensures CtxIdx(c) !in Nodes(t)
    ensures t.Node? ==> t.idx in Nodes(t)
    ensures !c.Top? ==> CtxIdx(c) in CtxNodes(c)
    ensures t.Node? && t.left.Node? ==> t.left.idx in Nodes(t)
    ensures t.Node? && t.right.Node? ==> t.right.idx in Nodes(t)
  {
    StoresBounds(s, t, CtxIdx(c));
    StoresCtxBounds(s, root, c, Root(t));
  }

  lemma {:induction false} Reassociate(a: seq<nat>, x: nat, b: seq<nat>, y: nat, c: seq<nat>)
    ensures (a + [x] + b) + [y] + c == a + [x] + (b + [y] + c)
  {
  }

  lemma {:induction false} RotatedInOrder(a: Tree, x: nat, cx: Color, b: Tree, y: nat, cy: Color, d: Tree, cx': Color, cy': Color)
    ensures InOrder(Node(a, x, cx, Node(b, y, cy, d))) == InOrder(Node(Node(a, x, cx', b), y, cy', d))
  {
    Reassociate(InOrder(a), x, InOrder(b), y, InOrder(d));
    assert InOrder(Node(b, y, cy, d)) == InOrder(b) + [y] + InOrder(d);
    assert InOrder(Node(a, x, cx', b)) == InOrder(a) + [x] + InOrder(b);
  }

  lemma {:induction false} PaintRep(s: seq<Link>, root: nat, c: Ctx, t: Tree, col: Color)
    requires Rep(s, root, c, t) && Root(t) < |s|
    ensures Rep(WithColor(s, Root(t), col), root, c, Painted(t, col))
  {
    if t.Node? {
      var s' := WithColor(s, t.idx, col);
      assert t.idx in Nodes(t);
      StoresBounds(s, t.left, t.idx);
      StoresBounds(s, t.right, t.idx);
      StoresCtxBounds(s, root, c, t.idx);
      StoresCtxFrame(s, s', root, c, t.idx);
      StoresFrame(s, s', t.left, t.idx);
      StoresFrame(s, s', t.right, t.idx);
    }
  }

  /** Writing a node that is not part of the tree changes nothing. */
  lemma {:induction false} OutsideRep(s: seq<Link>, root: nat, c: Ctx, t: Tree, s': seq<Link>, z: nat)
    requires Rep(s, root, c, t) && |s| == |s'|
    requires z !in Nodes(t) && z !in CtxNodes(c)
    requires forall i :: 0 <= i < |s| && i != z ==> s'[i] == s[i]
    ensures Rep(s', root, c, t)
  {
    StoresBounds(s, t, CtxIdx(c));
    StoresCtxBounds(s, root, c, Root(t));
    StoresFrame(s, s', t, CtxIdx(c));
    StoresCtxFrame(s, s', root, c, Root(t));
  }

  /** What the cells around the focus hold, for code that reads them. */
  lemma {:induction false} FocusCell(s: seq<Link>, root: nat, c: Ctx, t: Tree)
    requires Rep(s, root, c, t)
    ensures t.Node? ==> 0 < t.idx < |s| && s[t.idx] == Link(CtxIdx(c), Root(t.left), Root(t.right), t.color)
    ensures t.Node? && t.left.Node? ==>
              && 0 < t.left.idx < |s|
              && s[t.left.idx] == Link(t.idx, Root(t.left.left), Root(t.left.right), t.left.color)
              && Root(t.left.left) < |s| && Root(t.left.right) < |s| && Root(t.left.right) != t.idx
    ensures t.Node? && t.right.Node? ==>
              && 0 < t.right.idx < |s|
              && s[t.right.idx] == Link(t.idx, Root(t.right.left), Root(t.right.right), t.right.color)
              && Root(t.right.left) < |s| && Root(t.right.right) < |s| && Root(t.right.left) != t.idx
    ensures !c.Top? ==>
              && 0 < c.idx < |s|
              && s[c.idx].parent == CtxIdx(c.up) && s[c.idx].color == c.color
              && (c.InLeft? ==> s[c.idx].left == Root(t) && s[c.idx].right == Root(c.right))
              && (c.InRight? ==> s[c.idx].left == Root(c.left) && s[c.idx].right == Root(t))
    ensures forall i :: i in Nodes(t) ==> 0 < i < |s|
    ensures forall i :: i in CtxNodes(c) ==> 0 < i < |s|
  {
    StoresBounds(s, t, CtxIdx(c));
    StoresCtxBounds(s, root, c, Root(t));
    if t.Node? {
      assert Stores(s, t.left, t.idx) && Stores(s, t.right, t.idx);
      if t.left.Node? {
        StoresBounds(s, t.left.left, t.left.idx);
        StoresBounds(s, t.left.right, t.left.idx);
        assert Nodes(t.left.right) <= Nodes(t.left);
      }
      if t.right.Node? {
        StoresBounds(s, t.right.left, t.right.idx);
        StoresBounds(s, t.right.right, t.right.idx);
        assert Nodes(t.right.left) <= Nodes(t.right);
      }
    }
  }

  lemma {:induction false} RecolorRep(s: seq<Link>, root: nat, c: Ctx, t: Tree, s': seq<Link>)
    requires Rep(s, root, c, t) && t.Node? && t.left.Node? && t.right.Node?
    requires |s'| == |s| && t.idx < |s| && t.left.idx < |s| && t.right.idx < |s|
    requires s'[t.idx] == s[t.idx].(color := Red)
    requires s'[t.left.idx] == s[t.left.idx].(color := Black)
    requires s'[t.right.idx] == s[t.right.idx].(color := Black)
    requires forall i :: 0 <= i < |s| && i != t.idx && i != t.left.idx && i != t.right.idx ==> s'[i] == s[i]
    ensures Rep(s', root, c, Lifted(t))
  {
    FocusCell(s, root, c, t);
    var Node(l, i, _, r) := t;
    assert Stores(s, l, i) && Stores(s, r, i) && Distinct(l) && Distinct(r);
    StoresCtxFrame(s, s', root, c, i);
    assert Nodes(l) == Nodes(Painted(l, Black)) && Nodes(r) == Nodes(Painted(r, Black));
    RepaintedStores(s, s', l, i, Black);
    RepaintedStores(s, s', r, i, Black);
  }

  lemma {:induction false} RepaintedStores(s: seq<Link>, s': seq<Link>, t: Tree, p: nat, col: Color)
    requires t.Node? && Stores(s, t, p) && Distinct(t) && |s'| == |s|
    requires s'[t.idx] == s[t.idx].(color := col)
    requires forall i :: i in Nodes(t) && i != t.idx ==> i < |s| && s'[i] == s[i]
    ensures Stores(s', Painted(t, col), p)
  {
    assert Nodes(t.left) <= Nodes(t) && Nodes(t.right) <= Nodes(t);
    StoresFrame(s, s', t.left, t.idx);
    StoresFrame(s, s', t.right, t.idx);
  }

  /** What the cells of the parent and the grandparent of the focus hold. */
  lemma {:induction false} GrandCells(s: seq<Link>, root: nat, c: Ctx, t: Tree)
    requires Rep(s, root, c, t) && t.Node? && !c.Top? && !c.up.Top?
    ensures Rep(s, root, c.up, Outer(c, t)) && Rep(s, root, c.up.up, Outer(c.up, Outer(c, t)))
    ensures 0 < t.idx < |s| && s[t.idx].parent == c.idx
    ensures 0 < c.idx < |s| && s[c.idx].parent == c.up.idx
    ensures s[c.idx].right == t.idx <==> c.InRight?
    ensures s[c.idx].left == t.idx <==> c.InLeft?
    ensures 0 < c.up.idx < |s|
    ensures s[c.up.idx].left == c.idx <==> c.up.InLeft?
    ensures s[c.up.idx].right == c.idx <==> c.up.InRight?
    ensures c.up.InLeft? ==> s[c.up.idx].right == Root(c.up.right) < |s|
    ensures c.up.InRight? ==> s[c.up.idx].left == Root(c.up.left) < |s|
    ensures c.up.InLeft? && c.up.right.Node? ==> s[c.up.right.idx].color == c.up.right.color && c.up.right.idx > 0
    ensures c.up.InRight? && c.up.left.Node? ==> s[c.up.left.idx].color == c.up.left.color && c.up.left.idx > 0
    ensures c.up.InLeft? && c.up.right.Node? ==> c.idx != c.up.right.idx
    ensures c.up.InRight? && c.up.left.Node? ==> c.idx != c.up.left.idx
  {
    Zip(s, root, c, t);
    Zip(s, root, c.up, Outer(c, t));
    FocusCell(s, root, c, t);
    FocusCell(s, root, c.up.up, Outer(c.up, Outer(c, t)));
    assert Distinct(Outer(c, t)) && Distinct(Outer(c.up, Outer(c, t)));
  }

  lemma {:induction false} LiftRep(s: seq<Link>, root: nat, c: Ctx, t: Tree, s': seq<Link>)
    requires Rep(s, root, c, t) && t.Node? && !c.Top? && !c.up.Top?
    requires c.up.InLeft? ==> c.up.right.Node?
    requires c.up.InRight? ==> c.up.left.Node?
    requires var u := if c.up.InLeft? then c.up.right.idx else c.up.left.idx;
             && c.idx < |s| && u < |s| && c.up.idx < |s|
             && s' == WithColor(WithColor(WithColor(s, c.idx, Black), u, Black), c.up.idx, Red)
    ensures Rep(s', root, c.up.up, Lifted(Outer(c.up, Outer(c, t))))
    ensures InOrder(Plug(c.up.up, Lifted(Outer(c.up, Outer(c, t))))) == InOrder(Plug(c, t))
  {
    var gt := Outer(c.up, Outer(c, t));
    GrandCells(s, root, c, t);
    Zip(s, root, c, t);
    Zip(s, root, c.up, Outer(c, t));
    hide InOrder, StoresCtx, CtxDistinct, Before, After;
    RecolorRep(s, root, c.up.up, gt, s');
    SameOrder(c.up.up, gt, Lifted(gt));
  }

  lemma {:induction false} LinkRep(s: seq<Link>, root: nat, c: Ctx, z: nat, s': seq<Link>, root': nat)
    requires Rep(s, root, c, Leaf) && |s'| == |s| && 0 < z < |s| && z !in CtxNodes(c)
    requires s'[z] == Link(CtxIdx(c), NIL, NIL, Red)
    requires CtxIdx(c) < |s| && root' == if c.Top? then z else root
    requires c.InLeft? ==> s'[c.idx] == s[c.idx].(left := z)
    requires c.InRight? ==> s'[c.idx] == s[c.idx].(right := z)
    requires forall i :: 0 <= i < |s| && i != z && i != CtxIdx(c) ==> s'[i] == s[i]
    ensures Rep(s', root', c, Node(Leaf, z, Red, Leaf))
  {
    StoresCtxBounds(s, root, c, NIL);
    match c
    case Top =>
    case InLeft(up, i, col, r) =>
      assert i in CtxNodes(c);
      StoresFrame(s, s', r, i);
      StoresCtxFrame(s, s', root, up, i);
    case InRight(up, l, i, col) =>
      assert i in CtxNodes(c);
      StoresFrame(s, s', l, i);
      StoresCtxFrame(s, s', root, up, i);
  }

  lemma {:induction false} RootInCtx(s: seq<Link>, root: nat, c: Ctx, h: nat)
    requires StoresCtx(s, root, c, h)
    ensures c.Top? ==> root == h
    ensures !c.Top? ==> root in CtxNodes(c)
  {
    if !c.Top? {
      RootInCtx(s, root, c.up, c.idx);
    }
  }

  /** What the cells of the parent and of the sibling of the focus hold. */
  lemma {:induction false} SiblingCells(s: seq<Link>, root: nat, c: Ctx, t: Tree)
    requires Rep(s, root, c, t) && !c.Top?
    ensures 0 < c.idx < |s| && s[c.idx].parent == CtxIdx(c.up) && s[c.idx].color == c.color
    ensures c.InLeft? ==> s[c.idx].left == Root(t) && s[c.idx].right == Root(c.right)
    ensures c.InRight? ==> s[c.idx].left == Root(c.left) && s[c.idx].right == Root(t)
    ensures c.InLeft? && c.right.Node? ==> CellOf(s, c.right)
    ensures c.InRight? && c.left.Node? ==> CellOf(s, c.left)
  {
    var wc := if c.InLeft? then InRight(c.up, t, c.idx, c.color) else InLeft(c.up, c.idx, c.color, t);
    var wt := if c.InLeft? then c.right else c.left;
    Zip(s, root, c, t);
    Zip(s, root, wc, wt);
    FocusCell(s, root, c, t);
    FocusCell(s, root, wc, wt);
  }

  /** The cell of the root of t, with the colours of its children. */
  ghost predicate CellOf(s: seq<Link>, t: Tree)
    requires t.Node?
  {
    && 0 < t.idx < |s| && s[t.idx].color == t.color
    && s[t.idx].left == Root(t.left) && s[t.idx].right == Root(t.right)
    && (t.left.Node? ==> 0 < t.left.idx < |s| && s[t.left.idx].color == t.left.color)
    && (t.right.Node? ==> 0 < t.right.idx < |s| && s[t.right.idx].color == t.right.color)
  }

  /** A focus and a sibling that exists never have the same index, even when the focus is NIL. */
  lemma {:induction false} SiblingDiffers(s: seq<Link>, root: nat, c: Ctx, t: Tree)
    requires Rep(s, root, c, t) && !c.Top?
    ensures c.InLeft? && c.right.Node? ==> c.right.idx != Root(t)
    ensures c.InRight? && c.left.Node? ==> c.left.idx != Root(t)
  {
    if c.InLeft? && c.right.Node? {
      assert c.right.idx in CtxNodes(c);
      assert Stores(s, c.right, c.idx);
    } else if c.InRight? && c.left.Node? {
      assert c.left.idx in CtxNodes(c);
      assert Stores(s, c.left, c.idx);
    }
  }

  lemma {:induction false} ComposeIdx(s: seq<Link>, root: nat, outer: Ctx, inner: Ctx, t: Tree)
    requires Rep(s, root, Compose(outer, inner), t) && !outer.Top?
    ensures CtxIdx(Compose(outer, inner)) == if inner.Top? then outer.idx else inner.idx
    ensures !inner.Top? ==> inner.idx != outer.idx
  {
    if !inner.Top? {
      RepCompose(s, root, outer, inner, t);
      FocusInTree(inner, t);
      assert inner.idx in CtxNodes(inner);
      assert outer.idx in CtxNodes(outer);
    }
  }

  /** One step down the left spine inside an outer context. */
  lemma {:induction false} LeftStep(s: seq<Link>, root: nat, outer: Ctx, inner: Ctx, t: Tree)
    requires Rep(s, root, Compose(outer, inner), t) && t.Node? && t.left.Node?
    ensures Rep(s, root, Compose(outer, InLeft(inner, t.idx, t.color, t.right)), t.left)
    ensures 0 < t.left.idx < |s| && s[t.left.idx].left == Root(t.left.left)
    ensures 0 < t.idx < |s| && s[t.idx].left == t.left.idx
  {
    var c' := Compose(outer, InLeft(inner, t.idx, t.color, t.right));
    assert c' == InLeft(Compose(outer, inner), t.idx, t.color, t.right);
    Zip(s, root, c', t.left);
    FocusCell(s, root, Compose(outer, inner), t);
  }

  // ------------------------------------------------- a node takes another's place

  /** What must hold when y is about to take the place of z: it already owns its future right subtree r. */
  ghost predicate Replaceable(s: seq<Link>, root: nat, z: nat, y: nat, c: Ctx, l: Tree, col: Color, r: Tree) {
    && StoresCtx(s, root, c, z) && CtxDistinct(c)
    && Stores(s, l, z) && Distinct(l) && Stores(s, r, y) && Distinct(r)
    && Nodes(l) !! Nodes(r) && Nodes(l) !! CtxNodes(c) && Nodes(r) !! CtxNodes(c)
    && y !in Nodes(l) && y !in Nodes(r) && y !in CtxNodes(c)
    && z !in Nodes(l) && z !in Nodes(r) && z !in CtxNodes(c)
    && 0 < z < |s| && 0 < y < |s| && z != y
    && s[z].parent == CtxIdx(c) && s[z].left == Root(l) && s[z].color == col && s[y].right == Root(r)
  }

  lemma {:induction false} NextReplaceable(s: seq<Link>, root: nat, c: Ctx, l: Tree, z: nat, col: Color, ty: Tree)
    requires Rep(s, root, InRight(c, l, z, col), ty) && ty.Node?
    ensures Replaceable(s, root, z, ty.idx, c, l, col, ty.right)
  {
    FocusCell(s, root, InRight(c, l, z, col), ty);
  }

  lemma {:induction false} FarReplaceable(s: seq<Link>, root: nat, c: Ctx, l: Tree, z: nat, col: Color, r: Tree, y: nat, s': seq<Link>)
    requires Rep(s, root, InRight(c, l, z, col), r) && 0 < y < |s| && r.Node? && r.idx < |s|
    requires y !in CtxNodes(InRight(c, l, z, col)) && y !in Nodes(r)
    requires s' == WithRight(s, y, r.idx)
    ensures Replaceable(s', root, z, y, c, l, col, r)
  {
    var o := InRight(c, l, z, col);
    FocusCell(s, root, o, r);
    assert CtxNodes(c) <= CtxNodes(o) && Nodes(l) <= CtxNodes(o) && z in CtxNodes(o);
    assert r.idx in Nodes(r);
    StoresCtxFrame(s, s', root, c, z);
    StoresFrame(s, s', l, z);
    Reparent(s, s', r, z, y);
  }

  /** After the three writes, y stands where z stood, with the colour and the left subtree of z. */
  lemma {:induction false} ReplacedRep(s: seq<Link>, root: nat, z: nat, y: nat, c: Ctx, l: Tree, col: Color, r: Tree,
                                       s1: seq<Link>, s2: seq<Link>, s3: seq<Link>)
    requires Replaceable(s, root, z, y, c, l, col, r)
    requires CtxIdx(c) < |s| && Root(l) < |s|
    requires s1 == Transplanted(s, z, y, CtxIdx(c)) && s2 == WithLeft(s1, y, Root(l)) && s3 == WithColor(s2, y, col)
    ensures Rep(s3, if c.Top? then y else root, InRight(c, l, y, col), r)
  {
    var root' := if c.Top? then y else root;
    StoresCtxBounds(s, root, c, z);
    StoresBounds(s, l, z);
    StoresBounds(s, r, y);
    TransplantCtx(s, root, c, z, y);
    assert !c.Top? ==> c.idx in CtxNodes(c);
    assert l.Node? ==> l.idx in Nodes(l);
    ReplacedCells(s, s1, s2, s3, y, Root(l), CtxIdx(c), col);
    StoresCtxFrame(s1, s3, root', c, y);
    Reparent(s, s3, l, z, y);
    StoresFrame(s, s3, r, y);
  }

  lemma {:induction false} ReplacedCells(s: seq<Link>, s1: seq<Link>, s2: seq<Link>, s3: seq<Link>, y: nat, l: nat, p: nat, col: Color)
    requires 0 < y < |s| && l < |s| && p < |s| && l != y && p != y && (l != NIL ==> l != p)
    requires |s1| == |s| && s1[y] == s[y].(parent := p)
    requires forall i :: 0 <= i < |s| && i != y && i != p ==> s1[i] == s[i]
    requires s2 == WithLeft(s1, y, l) && s3 == WithColor(s2, y, col)
    ensures |s3| == |s| && s3[y] == Link(p, l, s[y].right, col)
    ensures l != NIL ==> s3[l] == s[l].(parent := y)
    ensures forall i :: 0 <= i < |s| && i != y && (i != l || l == NIL) ==> s3[i] == s1[i]
  {
  }

  lemma {:induction false} TreeIndices(s: seq<Link>, t: Tree)
    requires Stores(s, t, NIL)
    ensures forall k :: 0 <= k < |InOrder(t)| ==> InOrder(t)[k] != NIL && InOrder(t)[k] in Nodes(t)
  {
    StoresBounds(s, t, NIL);
    NodesInOrder(t);
    assert forall k :: 0 <= k < |InOrder(t)| ==> InOrder(t)[k] in InOrder(t);
  }

  /**
   * What the ghost tree says about the words in the array: parents and children point at each other,
   * only the root has no parent, and no red node has a red child.
   */
  lemma {:induction false} LinksMutual(s: seq<Link>, t: Tree, p: nat, h: nat)
    requires Stores(s, t, p) && Distinct(t) && Balanced(t, h)
    ensures forall i :: i in Nodes(t) ==>
              && 0 < i < |s|
              && (i == Root(t) ==> s[i].parent == p)
              && (i != Root(t) ==> s[i].parent in Nodes(t) && s[i].parent < |s| && (s[s[i].parent].left == i || s[s[i].parent].right == i))
              && ChildLink(s, i, s[i].left) && ChildLink(s, i, s[i].right)
              && (s[i].left == s[i].right ==> s[i].left == NIL)
  {
    if t.Node? {
      var hc := if t.color == Black then h - 1 else h;
      LinksMutual(s, t.left, t.idx, hc);
      LinksMutual(s, t.right, t.idx, hc);
      assert forall i :: i in Nodes(t) ==> i == t.idx || i in Nodes(t.left) || i in Nodes(t.right);
      assert t.left.Node? ==> t.left.idx in Nodes(t.left);
      assert t.right.Node? ==> t.right.idx in Nodes(t.right);
    }
  }

  /** c is NIL or a child of i that knows its parent and does not repeat a red colour. */
  ghost predicate ChildLink(s: seq<Link>, i: nat, c: nat) {
    i < |s| && (c == NIL || (c < |s| && s[c].parent == i && (s[i].color == Red ==> s[c].color == Black)))
  }
}
