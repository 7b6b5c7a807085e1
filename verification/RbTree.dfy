/** The index-linked red-black tree: in-place insert, remove, search and traversal. */
module RbTreeModel {
  import opened RbTheory
  import opened RbLinks
  import opened RbOrder

  class RbTree {
    /** The caller's node array; cell 0 is the unused NIL cell, node i is the caller's element i - 1. */
    const node: array<Link>
    const key: array<int>
    var root: nat
    ghost var tree: Tree

    ghost predicate Valid()
      reads this, node, key
    {
      && node.Length == key.Length
      && Rep(node[..], root, Top, tree)
      && RedBlack(tree)
      && SortedBy(key[..], InOrder(tree))
    }

    constructor (node: array<Link>, key: array<int>)
      requires node.Length == key.Length
      ensures this.node == node && this.key == key
      ensures Valid() && InOrder(tree) == []
    {
      this.node, this.key := node, key;
      root, tree := NIL, Leaf;
      new;
      assert Balanced(Leaf, 0);
    }

    function LeftIdx(i: nat): nat
      reads node
      requires i < node.Length
    {
      if i == NIL then NIL else node[i].left
    }

    function RightIdx(i: nat): nat
      reads node
      requires i < node.Length
    {
      if i == NIL then NIL else node[i].right
    }

    function ParentIdx(i: nat): nat
      reads node
      requires i < node.Length
    {
      if i == NIL then NIL else node[i].parent
    }

    function ColorIdx(i: nat): Color
      reads node
      requires i < node.Length
    {
      if i == NIL then Black else node[i].color
    }

    method SetColor(i: nat, c: Color)
      requires i < node.Length
      modifies node
      ensures node[..] == WithColor(old(node[..]), i, c)
    {
      if i != NIL {
        node[i] := node[i].(color := c);
      }
    }

    method SetLeft(p: nat, c: nat)
      requires p < node.Length && c < node.Length
      modifies node
      ensures node[..] == WithLeft(old(node[..]), p, c)
    {
      if p != NIL {
        node[p] := node[p].(left := c);
      }
      if c != NIL {
        node[c] := node[c].(parent := p);
      }
    }

    method SetRight(p: nat, c: nat)
      requires p < node.Length && c < node.Length
      modifies node
      ensures node[..] == WithRight(old(node[..]), p, c)
    {
      if p != NIL {
        node[p] := node[p].(right := c);
      }
      if c != NIL {
        node[c] := node[c].(parent := p);
      }
    }

    method Transplant(u: nat, v: nat)
      requires 0 < u < node.Length && v < node.Length && node[u].parent < node.Length
      modifies this`root, node
      ensures node[..] == Transplanted(old(node[..]), u, v, old(node[u].parent))
      ensures root == if old(node[u].parent) == NIL then v else old(root)
    {
      var up := ParentIdx(u);
      if up == NIL {
        root := v;
        if v != NIL {
          node[v] := node[v].(parent := NIL);
        }
      } else if u == LeftIdx(up) {
        SetLeft(up, v);
      } else {
        SetRight(up, v);
      }
    }

    method RotateLeft(x: nat, ghost c: Ctx, ghost t: Tree)
      requires Rep(node[..], root, c, t)
      requires t.Node? && t.idx == x && t.right.Node?
      modifies this`root, node
      ensures Rep(node[..], root, c, RotatedLeft(t))
    {
      ghost var s, root0 := node[..], root;
      RepBounds(s, root, c, t);
      FocusCell(s, root, c, t);
      var y := RightIdx(x);
      var yL := LeftIdx(y);
      SetRight(x, yL);
      ghost var s1 := node[..];
      var xp := ParentIdx(x);
      if xp == NIL {
        root := y;
        if y != NIL {
          node[y] := node[y].(parent := NIL);
        }
      } else if x == LeftIdx(xp) {
        SetLeft(xp, y);
      } else {
        SetRight(xp, y);
      }
      ghost var s2 := node[..];
      assert s2 == Transplanted(s1, x, y, xp);
      SetLeft(y, x);
      RotateLeftRep(s, root0, c, t, s1, s2, node[..]);
    }

    method RotateRight(x: nat, ghost c: Ctx, ghost t: Tree)
      requires Rep(node[..], root, c, t)
      requires t.Node? && t.idx == x && t.left.Node?
      modifies this`root, node
      ensures Rep(node[..], root, c, RotatedRight(t))
    {
      ghost var s, root0 := node[..], root;
      RepBounds(s, root, c, t);
      FocusCell(s, root, c, t);
      var y := LeftIdx(x);
      var yR := RightIdx(y);
      SetLeft(x, yR);
      ghost var s1 := node[..];
      var xp := ParentIdx(x);
      if xp == NIL {
        root := y;
        if y != NIL {
          node[y] := node[y].(parent := NIL);
        }
      } else if x == LeftIdx(xp) {
        SetLeft(xp, y);
      } else {
        SetRight(xp, y);
      }
      ghost var s2 := node[..];
      assert s2 == Transplanted(s1, x, y, xp);
      SetRight(y, x);
      RotateRightRep(s, root0, c, t, s1, s2, node[..]);
    }

    /** Paints the root of the focused tree. */
    method Paint(i: nat, col: Color, ghost c: Ctx, ghost t: Tree)
      requires Rep(node[..], root, c, t) && i == Root(t) && i < node.Length
      modifies node
      ensures Rep(node[..], root, c, Painted(t, col))
    {
      PaintRep(node[..], root, c, t, col);
      SetColor(i, col);
    }

    // ------------------------------------------------------------ insert

    /** State of the insert fix-up: a red node t whose parent may be red too; nothing else is wrong. */
    ghost predicate InsertState(z: nat, c: Ctx, t: Tree, h: nat, order: seq<nat>)
      reads this, node
    {
      && Rep(node[..], root, c, t)
      && IsRed(t) && t.idx == z
      && Balanced(t, h) && CtxBalanced(c, h)
      && InOrder(Plug(c, t)) == order
    }

    /** The red-uncle case: p and u become black, g red, and g is the node to look at next. */
    method Recolor(p: nat, u: nat, g: nat, ghost c: Ctx, ghost t: Tree, ghost h: nat, ghost order: seq<nat>)
      returns (ghost t': Tree)
      requires InsertState(Root(t), c, t, h, order)
      requires CtxRed(c) && c.idx == p && !c.up.Top? && c.up.idx == g
      requires c.up.InLeft? ==> IsRed(c.up.right) && c.up.right.idx == u
      requires c.up.InRight? ==> IsRed(c.up.left) && c.up.left.idx == u
      modifies node
      ensures InsertState(g, c.up.up, t', h + 1, order)
    {
      GrandCells(node[..], root, c, t);
      ghost var s := node[..];
      SetColor(p, Black);
      SetColor(u, Black);
      SetColor(g, Red);
      t' := Lifted(Outer(c.up, Outer(c, t)));
      LiftRep(s, root, c, t, node[..]);
      LiftBalanced(c, t, h);
    }

    /** One round of the insert fix-up when the parent p of z is a left child. */
    method InsertStepLeft(z: nat, ghost c: Ctx, ghost t: Tree, ghost h: nat, ghost order: seq<nat>)
      returns (z': nat, ghost c': Ctx, ghost t': Tree, ghost h': nat)
      requires InsertState(z, c, t, h, order)
      requires CtxRed(c) && c.up.InLeft?
      modifies this`root, node
      ensures InsertState(z', c', t', h', order)
      ensures Depth(c') < Depth(c)
    {
      hide Stores, StoresCtx, Distinct, CtxDistinct, InOrder, Before, After, Nodes, CtxNodes;
      RedFrame(c, h);
      GrandCells(node[..], root, c, t);
      var p := ParentIdx(z);
      var g := ParentIdx(p);
      var u := RightIdx(g);
      if ColorIdx(u) == Red {
        t' := Recolor(p, u, g, c, t, h, order);
        z', c', h' := g, c.up.up, h + 1;
      } else {
        ghost var ct, tt := c, t;
        z' := z;
        if z == RightIdx(p) {
          z' := p;
          ct, tt := AlignLeft(p, z, c, t, h, order);
          GrandCells(node[..], root, ct, tt);
          p := ParentIdx(z');
          g := ParentIdx(p);
        }
        c', t', h' := FinishLeft(p, g, ct, tt, h, order);
      }
    }

    /** Rotates a red right child z of p into line, so that p becomes the lower of the two. */
    method AlignLeft(p: nat, ghost z: nat, ghost c: Ctx, ghost t: Tree, ghost h: nat, ghost order: seq<nat>)
      returns (ghost c': Ctx, ghost t': Tree)
      requires InsertState(z, c, t, h, order)
      requires c.InRight? && c.color == Red && c.idx == p
      modifies this`root, node
      ensures InsertState(p, c', t', h, order)
      ensures c'.InLeft? && c'.color == Red && c'.idx == z && c'.up == c.up
    {
      ghost var pt := Node(c.left, p, Red, t);
      Zip(node[..], root, c, t);
      RotateLeft(p, c.up, pt);
      RotatedInOrder(c.left, p, Red, t.left, z, Red, t.right, Red, Red);
      SameOrder(c.up, pt, RotatedLeft(pt));
      c', t' := InLeft(c.up, z, Red, t.right), Node(c.left, p, Red, t.left);
      Zip(node[..], root, c', t');
    }

    /** The last case of the left insert fix-up: z, p and g in one line to the left. */
    method FinishLeft(p: nat, g: nat, ghost c: Ctx, ghost t: Tree, ghost h: nat, ghost order: seq<nat>)
      returns (ghost c': Ctx, ghost t': Tree, ghost h': nat)
      requires InsertState(Root(t), c, t, h, order)
      requires c.InLeft? && c.color == Red && c.idx == p
      requires c.up.InLeft? && c.up.idx == g && !IsRed(c.up.right)
      modifies this`root, node
      ensures InsertState(Root(t), c', t', h', order) && t'.idx == t.idx
      ensures Depth(c') < Depth(c)
    {
      RedFrame(c, h);
      ghost var up, ug := c.up, c.up.up;
      ghost var pt := Node(t, p, Red, c.right);
      ghost var pt' := Node(t, p, Black, c.right);
      ghost var gt := Node(pt', g, Black, up.right);
      ghost var gt' := Node(pt', g, Red, up.right);
      Zip(node[..], root, c, t);
      FocusCell(node[..], root, up, pt);
      Paint(p, Black, up, pt);
      Zip(node[..], root, up, pt');
      FocusCell(node[..], root, ug, gt);
      Paint(g, Red, ug, gt);
      RotateRight(g, ug, gt');
      RotatedInOrder(t, p, Black, c.right, g, Red, up.right, Black, Red);
      SameOrder(ug, Node(pt, g, Black, up.right), RotatedRight(gt'));
      c', t', h' := InLeft(ug, p, Black, Node(c.right, g, Red, up.right)), t, h;
      Zip(node[..], root, c', t');
    }

    /** One round of the insert fix-up when the parent p of z is a right child. */
    method InsertStepRight(z: nat, ghost c: Ctx, ghost t: Tree, ghost h: nat, ghost order: seq<nat>)
      returns (z': nat, ghost c': Ctx, ghost t': Tree, ghost h': nat)
      requires InsertState(z, c, t, h, order)
      requires CtxRed(c) && c.up.InRight?
      modifies this`root, node
      ensures InsertState(z', c', t', h', order)
      ensures Depth(c') < Depth(c)
    {
      hide Stores, StoresCtx, Distinct, CtxDistinct, InOrder, Before, After, Nodes, CtxNodes;
      RedFrame(c, h);
      GrandCells(node[..], root, c, t);
      var p := ParentIdx(z);
      var g := ParentIdx(p);
      var u := LeftIdx(g);
      if ColorIdx(u) == Red {
        t' := Recolor(p, u, g, c, t, h, order);
        z', c', h' := g, c.up.up, h + 1;
      } else {
        ghost var ct, tt := c, t;
        z' := z;
        if z == LeftIdx(p) {
          z' := p;
          ct, tt := AlignRight(p, z, c, t, h, order);
          GrandCells(node[..], root, ct, tt);
          p := ParentIdx(z');
          g := ParentIdx(p);
        }
        c', t', h' := FinishRight(p, g, ct, tt, h, order);
      }
    }

    method AlignRight(p: nat, ghost z: nat, ghost c: Ctx, ghost t: Tree, ghost h: nat, ghost order: seq<nat>)
      returns (ghost c': Ctx, ghost t': Tree)
      requires InsertState(z, c, t, h, order)
      requires c.InLeft? && c.color == Red && c.idx == p
      modifies this`root, node
      ensures InsertState(p, c', t', h, order)
      ensures c'.InRight? && c'.color == Red && c'.idx == z && c'.up == c.up
    {
      ghost var pt := Node(t, p, Red, c.right);
      Zip(node[..], root, c, t);
      RotateRight(p, c.up, pt);
      RotatedInOrder(t.left, z, Red, t.right, p, Red, c.right, Red, Red);
      SameOrder(c.up, pt, RotatedRight(pt));
      c', t' := InRight(c.up, t.left, z, Red), Node(t.right, p, Red, c.right);
      Zip(node[..], root, c', t');
    }

    method FinishRight(p: nat, g: nat, ghost c: Ctx, ghost t: Tree, ghost h: nat, ghost order: seq<nat>)
      returns (ghost c': Ctx, ghost t': Tree, ghost h': nat)
      requires InsertState(Root(t), c, t, h, order)
      requires c.InRight? && c.color == Red && c.idx == p
      requires c.up.InRight? && c.up.idx == g && !IsRed(c.up.left)
      modifies this`root, node
      ensures InsertState(Root(t), c', t', h', order) && t'.idx == t.idx
      ensures Depth(c') < Depth(c)
    {
      RedFrame(c, h);
      ghost var up, ug := c.up, c.up.up;
      ghost var pt := Node(c.left, p, Red, t);
      ghost var pt' := Node(c.left, p, Black, t);
      ghost var gt := Node(up.left, g, Black, pt');
      ghost var gt' := Node(up.left, g, Red, pt');
      Zip(node[..], root, c, t);
      FocusCell(node[..], root, up, pt);
      Paint(p, Black, up, pt);
      Zip(node[..], root, up, pt');
      FocusCell(node[..], root, ug, gt);
      Paint(g, Red, ug, gt);
      RotateLeft(g, ug, gt');
      RotatedInOrder(up.left, g, Black, c.left, p, Red, t, Red, Black);
      SameOrder(ug, Node(up.left, g, Black, pt), RotatedLeft(gt'));
      c', t', h' := InRight(ug, Node(up.left, g, Red, c.left), p, Black), t, h;
      Zip(node[..], root, c', t');
    }

    /**
     * Adds z, or returns the node that already holds its key. The fix-up loop climbs: the depth of z
     * falls in every round.
     */
    method Insert(z: nat) returns (r: nat)
      requires Valid() && 0 < z < node.Length && z !in Nodes(tree)
      modifies this, node
      ensures Valid()
      ensures r == NIL <==> forall i :: i in old(Nodes(tree)) ==> i < key.Length && key[i] != key[z]
      ensures r == NIL ==> Inserted(old(InOrder(tree)), InOrder(tree), z)
      ensures r != NIL ==> r in old(Nodes(tree)) && r < key.Length && key[r] == key[z]
      ensures r != NIL ==> tree == old(tree) && root == old(root) && node[..] == old(node[..])
    {
      hide Balanced, Stores, StoresCtx, SortedBy, RedBlack, Surrounds;
      ghost var c;
      var y;
      r, y, c := FindPlace(z);
      if r != NIL {
        return;
      }
      ghost var h := LinkFresh(z, y, c);
      FixInsert(z, c, Node(Leaf, z, Red, Leaf), h);
    }

    /** Descends to the node with the key of z, or to the place y below which z belongs. */
    method FindPlace(z: nat) returns (x: nat, y: nat, ghost c: Ctx)
      requires Valid() && 0 < z < node.Length
      ensures x != NIL ==> x in Nodes(tree) && x < key.Length && key[x] == key[z]
      ensures x == NIL ==> Plug(c, Leaf) == tree && Rep(node[..], root, c, Leaf) && y == CtxIdx(c) && Surrounds(key[..], c, key[z])
    {
      y, x := NIL, root;
      ghost var t := tree;
      c := Top;
      assert Surrounds(key[..], c, key[z]);
      hide RedBlack, InOrder, Before, After, Balanced;
      while x != NIL
        invariant Plug(c, t) == tree && Rep(node[..], root, c, t)
        invariant x == Root(t) && y == CtxIdx(c)
        invariant Surrounds(key[..], c, key[z])
        decreases t
      {
        FocusCell(node[..], root, c, t);
        SurroundsStep(key[..], c, t, key[z]);
        y := x;
        if key[z] < key[x] {
          x := LeftIdx(x);
          c, t := InLeft(c, t.idx, t.color, t.right), t.left;
        } else if key[z] > key[x] {
          x := RightIdx(x);
          c, t := InRight(c, t.left, t.idx, t.color), t.right;
        } else {
          FocusInTree(c, t);
          return;
        }
        Zip(node[..], root, c, t);
      }
      StoresBounds(node[..], t, y);
      assert t == Leaf;
    }

    /** Links z in below y; the tree is balanced but for a red node that may hang below a red one. */
    method LinkFresh(z: nat, y: nat, ghost c: Ctx) returns (ghost h: nat)
      requires Valid() && 0 < z < node.Length && z !in Nodes(tree)
      requires Plug(c, Leaf) == tree && Rep(node[..], root, c, Leaf) && y == CtxIdx(c) && Surrounds(key[..], c, key[z])
      modifies this`root, node
      ensures var t := Node(Leaf, z, Red, Leaf);
              && Rep(node[..], root, c, t) && CtxBalanced(c, h) && Balanced(t, h)
              && SortedBy(key[..], InOrder(Plug(c, t))) && Inserted(old(InOrder(tree)), InOrder(Plug(c, t)), z)
      ensures forall i :: i in old(Nodes(tree)) ==> i < key.Length && key[i] != key[z]
    {
      AbsentKey(key[..], c, key[z]);
      FocusInTree(c, Leaf);
      InsertedOrder(key[..], c, z);
      h := FocusBalanced(c, Leaf);
      ghost var t := LinkNew(z, y, c);
    }

    /** Hangs the new red node z below y. */
    method LinkNew(z: nat, y: nat, ghost c: Ctx) returns (ghost t: Tree)
      requires Rep(node[..], root, c, Leaf) && node.Length == key.Length
      requires 0 < z < node.Length && z !in CtxNodes(c) && y == CtxIdx(c)
      requires Surrounds(key[..], c, key[z])
      modifies this`root, node
      ensures t == Node(Leaf, z, Red, Leaf) && Rep(node[..], root, c, t)
    {
      ghost var s, root0 := node[..], root;
      FocusCell(s, root, c, Leaf);
      node[z] := Link(y, NIL, NIL, Red);
      if y == NIL {
        root := z;
      } else {
        InnermostKey(key[..], c, key[z]);
        if key[z] < key[y] {
          SetLeft(y, z);
        } else {
          SetRight(y, z);
        }
      }
      t := Node(Leaf, z, Red, Leaf);
      LinkRep(s, root0, c, z, node[..], root);
    }

    /** One round of the insert fix-up loop. */
    method InsertRound(z: nat, ghost c: Ctx, ghost t: Tree, ghost h: nat, ghost order: seq<nat>)
      returns (z': nat, ghost c': Ctx, ghost t': Tree, ghost h': nat)
      requires InsertState(z, c, t, h, order) && CtxRed(c)
      modifies this`root, node
      ensures InsertState(z', c', t', h', order)
      ensures Depth(c') < Depth(c)
    {
      hide Stores, StoresCtx, Distinct, CtxDistinct, InOrder, Before, After, Nodes, CtxNodes;
      RedFrame(c, h);
      GrandCells(node[..], root, c, t);
      var p := ParentIdx(z);
      var g := ParentIdx(p);
      if p == LeftIdx(g) {
        z', c', t', h' := InsertStepLeft(z, c, t, h, order);
      } else {
        z', c', t', h' := InsertStepRight(z, c, t, h, order);
      }
    }

    method FixInsert(z0: nat, ghost c0: Ctx, ghost t0: Tree, ghost h0: nat)
      requires node.Length == key.Length
      requires InsertState(z0, c0, t0, h0, InOrder(Plug(c0, t0)))
      requires SortedBy(key[..], InOrder(Plug(c0, t0)))
      modifies this, node
      ensures Valid() && InOrder(tree) == InOrder(Plug(c0, t0))
    {
      var z: nat := z0;
      ghost var c, t, order := c0, t0, InOrder(Plug(c0, t0));
      ghost var h: nat := h0;
      FocusCell(node[..], root, c, t);
      while z != root && ColorIdx(ParentIdx(z)) == Red
        invariant InsertState(z, c, t, h, order)
        invariant z < node.Length && node[z].parent < node.Length
        decreases Depth(c)
      {
        z, c, t, h := InsertRound(z, c, t, h, order);
        FocusCell(node[..], root, c, t);
      }
      BlackenRoot(z, c, t, h, order);
    }

    method BlackenRoot(ghost z: nat, ghost c: Ctx, ghost t: Tree, ghost h: nat, ghost order: seq<nat>)
      requires node.Length == key.Length
      requires InsertState(z, c, t, h, order) && SortedBy(key[..], order)
      requires z == root || !CtxRed(c)
      modifies this, node
      ensures Valid() && InOrder(tree) == order
    {
      ghost var whole := Plug(c, t);
      ZipAll(node[..], root, c, t);
      RootInCtx(node[..], root, c, Root(t));
      FocusCell(node[..], root, Top, whole);
      Paint(root, Black, Top, whole);
      FocusCell(node[..], root, Top, Painted(whole, Black));
      ghost var s := node[..];
      if root != NIL {
        node[root] := node[root].(parent := NIL);
      }
      assert node[..] == s;
      tree := Painted(whole, Black);
      if c.Top? {
        assert Balanced(tree, h + 1);
      } else {
        ghost var hh := PlugBalanced(c, t, h);
      }
    }

    // ------------------------------------------------------------ remove

    /** State of the remove fix-up: t misses one black node, everything else is in order. */
    ghost predicate RemoveState(xi: nat, xpi: nat, c: Ctx, t: Tree, h: nat, order: seq<nat>)
      reads this, node
    {
      && Rep(node[..], root, c, t)
      && xi == Root(t) && xpi == CtxIdx(c)
      && Short(t, h) && CtxBalanced(c, h + 1)
      && InOrder(Plug(c, t)) == order
    }

    /** Case 1 on the left: turns a red sibling w into a black one by rotating it above xpi. */
    method RedSiblingLeft(xpi: nat, w: nat, ghost c: Ctx, ghost t: Tree, ghost h: nat, ghost order: seq<nat>)
      returns (ghost c': Ctx)
      requires RemoveState(Root(t), xpi, c, t, h, order)
      requires c.InLeft? && IsRed(c.right) && w == c.right.idx
      modifies this`root, node
      ensures RemoveState(Root(t), xpi, c', t, h, order)
      ensures c'.InLeft? && c'.color == Red && c'.right.Node? && c'.right.color == Black
      ensures Depth(c') == Depth(c) + 1
    {
      SiblingFrame(c, h);
      RedSiblingBalanced(c, h);
      ghost var o, wt := Outer(c, t), c.right;
      ghost var wc := InRight(c.up, t, xpi, Black);
      Zip(node[..], root, c, t);
      Zip(node[..], root, wc, wt);
      FocusCell(node[..], root, wc, wt);
      Paint(w, Black, wc, wt);
      Zip(node[..], root, wc, Painted(wt, Black));
      ghost var o1 := Node(t, xpi, Black, Painted(wt, Black));
      Paint(xpi, Red, c.up, o1);
      ghost var o2 := Node(t, xpi, Red, Painted(wt, Black));
      RotateLeft(xpi, c.up, o2);
      RotatedInOrder(t, xpi, Black, wt.left, w, Red, wt.right, Red, Black);
      SameOrder(c.up, o, RotatedLeft(o2));
      ghost var cw := InLeft(c.up, w, Black, wt.right);
      c' := InLeft(cw, xpi, Red, wt.left);
      Zip(node[..], root, cw, Outer(c', t));
      Zip(node[..], root, c', t);
    }

    /** Case 3 on the left: rotates the red near nephew into the place of the sibling w. */
    method NearNephewLeft(xpi: nat, w: nat, ghost c: Ctx, ghost t: Tree, ghost h: nat, ghost order: seq<nat>)
      returns (ghost c': Ctx)
      requires RemoveState(Root(t), xpi, c, t, h, order)
      requires c.InLeft? && c.right.Node? && !IsRed(c.right) && w == c.right.idx
      requires IsRed(c.right.left) && !IsRed(c.right.right)
      modifies this`root, node
      ensures c' == NearRotated(c) && RemoveState(Root(t), xpi, c', t, h, order)
    {
      NearNephewBalanced(c, h);
      ghost var wt, col := c.right, c.color;
      ghost var wc := InRight(c.up, t, xpi, col);
      ghost var nc := InLeft(wc, w, Black, wt.right);
      Zip(node[..], root, c, t);
      Zip(node[..], root, wc, wt);
      Zip(node[..], root, nc, wt.left);
      FocusCell(node[..], root, wc, wt);
      Paint(LeftIdx(w), Black, nc, wt.left);
      Zip(node[..], root, nc, Painted(wt.left, Black));
      ghost var w1 := Node(Painted(wt.left, Black), w, Black, wt.right);
      Paint(w, Red, wc, w1);
      ghost var w2 := Node(Painted(wt.left, Black), w, Red, wt.right);
      RotateRight(w, wc, w2);
      RotatedInOrder(wt.left.left, wt.left.idx, Red, wt.left.right, w, Black, wt.right, Black, Red);
      SameOrder(wc, wt, RotatedRight(w2));
      c' := NearRotated(c);
      Zip(node[..], root, wc, RotatedRight(w2));
      Zip(node[..], root, c', t);
    }

    /** Case 4 on the left: the red far nephew turns black and one rotation ends the fix-up. */
    method FarNephewLeft(xpi: nat, w: nat, ghost c: Ctx, ghost t: Tree, ghost h: nat, ghost order: seq<nat>)
      returns (ghost t': Tree, ghost h': nat)
      requires RemoveState(Root(t), xpi, c, t, h, order) && !IsRed(t)
      requires c.InLeft? && c.right.Node? && !IsRed(c.right) && w == c.right.idx && IsRed(c.right.right)
      modifies this`root, node
      ensures RemoveState(root, NIL, Top, t', h', order)
    {
      ghost var hh := FarNephewBalanced(c, t, h);
      ghost var wt, col := c.right, c.color;
      ghost var o, wc := Outer(c, t), InRight(c.up, t, xpi, col);
      Zip(node[..], root, c, t);
      Zip(node[..], root, wc, wt);
      FocusCell(node[..], root, wc, wt);
      Paint(w, ColorIdx(xpi), wc, wt);
      ghost var w1 := Painted(wt, col);
      Zip(node[..], root, wc, w1);
      Paint(xpi, Black, c.up, Node(t, xpi, col, w1));
      ghost var wc2 := InRight(c.up, t, xpi, Black);
      ghost var fc := InRight(wc2, w1.left, w, col);
      Zip(node[..], root, wc2, w1);
      Zip(node[..], root, fc, w1.right);
      FocusCell(node[..], root, wc2, w1);
      Paint(RightIdx(w), Black, fc, w1.right);
      ghost var w2 := Node(w1.left, w, col, Painted(w1.right, Black));
      Zip(node[..], root, fc, w2.right);
      Zip(node[..], root, wc2, w2);
      ghost var o2 := Node(t, xpi, Black, w2);
      RotateLeft(xpi, c.up, o2);
      RotatedInOrder(t, xpi, col, wt.left, w, Black, wt.right, Black, col);
      SameOrder(c.up, o, RotatedLeft(o2));
      ZipAll(node[..], root, c.up, RotatedLeft(o2));
      t', h' := Plug(c.up, RotatedLeft(o2)), hh;
    }

    /** Cases 2 to 4 on the left, for a black sibling w. */
    method BlackSiblingLeft(xpi: nat, w0: nat, ghost c0: Ctx, ghost t: Tree, ghost h: nat, ghost order: seq<nat>)
      returns (xi': nat, xpi': nat, ghost c': Ctx, ghost t': Tree, ghost h': nat)
      requires RemoveState(Root(t), xpi, c0, t, h, order) && !IsRed(t)
      requires c0.InLeft? && c0.right.Node? && !IsRed(c0.right) && w0 == c0.right.idx
      modifies this`root, node
      ensures RemoveState(xi', xpi', c', t', h', order)
      ensures c'.Top? || (c' == c0.up && (c0.color == Red ==> IsRed(t')))
    {
      ghost var cc := c0;
      var w := w0;
      SiblingCells(node[..], root, c0, t);
      if ColorIdx(LeftIdx(w)) == Black && ColorIdx(RightIdx(w)) == Black {
        c', t', h' := ReddenSibling(w, xpi, c0, t, h, order);
        FocusCell(node[..], root, c', t');
        xi' := xpi;
        xpi' := ParentIdx(xi');
      } else {
        if ColorIdx(RightIdx(w)) == Black {
          cc := NearNephewLeft(xpi, w, c0, t, h, order);
          SiblingCells(node[..], root, cc, t);
          w := RightIdx(xpi);
        }
        t', h' := FarNephewLeft(xpi, w, cc, t, h, order);
        xi', xpi', c' := root, NIL, Top;
      }
    }

    /** One round of the remove fix-up with xi as a left child. */
    method RemoveStepLeft(xi: nat, xpi: nat, ghost c: Ctx, ghost t: Tree, ghost h: nat, ghost order: seq<nat>)
      returns (xi': nat, xpi': nat, ghost c': Ctx, ghost t': Tree, ghost h': nat)
      requires RemoveState(xi, xpi, c, t, h, order)
      requires c.InLeft? && !IsRed(t)
      modifies this`root, node
      ensures RemoveState(xi', xpi', c', t', h', order)
      ensures RemoveRank(c', t') < RemoveRank(c, t)
    {
      ghost var cc := c;
      SiblingFrame(c, h);
      SiblingCells(node[..], root, c, t);
      var w := RightIdx(xpi);
      if ColorIdx(w) == Red {
        cc := RedSiblingLeft(xpi, w, c, t, h, order);
        SiblingFrame(cc, h);
        SiblingCells(node[..], root, cc, t);
        w := RightIdx(xpi);
      }
      xi', xpi', c', t', h' := BlackSiblingLeft(xpi, w, cc, t, h, order);
    }

    method RedSiblingRight(xpi: nat, w: nat, ghost c: Ctx, ghost t: Tree, ghost h: nat, ghost order: seq<nat>)
      returns (ghost c': Ctx)
      requires RemoveState(Root(t), xpi, c, t, h, order)
      requires c.InRight? && IsRed(c.left) && w == c.left.idx
      modifies this`root, node
      ensures RemoveState(Root(t), xpi, c', t, h, order)
      ensures c'.InRight? && c'.color == Red && c'.left.Node? && c'.left.color == Black
      ensures Depth(c') == Depth(c) + 1
    {
      SiblingFrame(c, h);
      RedSiblingBalanced(c, h);
      ghost var o, wt := Outer(c, t), c.left;
      ghost var wc := InLeft(c.up, xpi, Black, t);
      Zip(node[..], root, c, t);
      Zip(node[..], root, wc, wt);
      FocusCell(node[..], root, wc, wt);
      Paint(w, Black, wc, wt);
      Zip(node[..], root, wc, Painted(wt, Black));
      ghost var o1 := Node(Painted(wt, Black), xpi, Black, t);
      Paint(xpi, Red, c.up, o1);
      ghost var o2 := Node(Painted(wt, Black), xpi, Red, t);
      RotateRight(xpi, c.up, o2);
      RotatedInOrder(wt.left, w, Red, wt.right, xpi, Black, t, Black, Red);
      SameOrder(c.up, o, RotatedRight(o2));
      ghost var cw := InRight(c.up, wt.left, w, Black);
      c' := InRight(cw, wt.right, xpi, Red);
      Zip(node[..], root, cw, Outer(c', t));
      Zip(node[..], root, c', t);
    }

    method NearNephewRight(xpi: nat, w: nat, ghost c: Ctx, ghost t: Tree, ghost h: nat, ghost order: seq<nat>)
      returns (ghost c': Ctx)
      requires RemoveState(Root(t), xpi, c, t, h, order)
      requires c.InRight? && c.left.Node? && !IsRed(c.left) && w == c.left.idx
      requires IsRed(c.left.right) && !IsRed(c.left.left)
      modifies this`root, node
      ensures c' == NearRotated(c) && RemoveState(Root(t), xpi, c', t, h, order)
    {
      NearNephewBalanced(c, h);
      ghost var wt, col := c.left, c.color;
      ghost var wc := InLeft(c.up, xpi, col, t);
      ghost var nc := InRight(wc, wt.left, w, Black);
      Zip(node[..], root, c, t);
      Zip(node[..], root, wc, wt);
      Zip(node[..], root, nc, wt.right);
      FocusCell(node[..], root, wc, wt);
      Paint(RightIdx(w), Black, nc, wt.right);
      Zip(node[..], root, nc, Painted(wt.right, Black));
      ghost var w1 := Node(wt.left, w, Black, Painted(wt.right, Black));
      Paint(w, Red, wc, w1);
      ghost var w2 := Node(wt.left, w, Red, Painted(wt.right, Black));
      RotateLeft(w, wc, w2);
      RotatedInOrder(wt.left, w, Black, wt.right.left, wt.right.idx, Red, wt.right.right, Red, Black);
      SameOrder(wc, wt, RotatedLeft(w2));
      c' := NearRotated(c);
      Zip(node[..], root, wc, RotatedLeft(w2));
      Zip(node[..], root, c', t);
    }

    method FarNephewRight(xpi: nat, w: nat, ghost c: Ctx, ghost t: Tree, ghost h: nat, ghost order: seq<nat>)
      returns (ghost t': Tree, ghost h': nat)
      requires RemoveState(Root(t), xpi, c, t, h, order) && !IsRed(t)
      requires c.InRight? && c.left.Node? && !IsRed(c.left) && w == c.left.idx && IsRed(c.left.left)
      modifies this`root, node
      ensures RemoveState(root, NIL, Top, t', h', order)
    {
      ghost var hh := FarNephewBalanced(c, t, h);
      ghost var wt, col := c.left, c.color;
      ghost var o, wc := Outer(c, t), InLeft(c.up, xpi, col, t);
      Zip(node[..], root, c, t);
      Zip(node[..], root, wc, wt);
      FocusCell(node[..], root, wc, wt);
      Paint(w, ColorIdx(xpi), wc, wt);
      ghost var w1 := Painted(wt, col);
      Zip(node[..], root, wc, w1);
      Paint(xpi, Black, c.up, Node(w1, xpi, col, t));
      ghost var wc2 := InLeft(c.up, xpi, Black, t);
      ghost var fc := InLeft(wc2, w, col, w1.right);
      Zip(node[..], root, wc2, w1);
      Zip(node[..], root, fc, w1.left);
      FocusCell(node[..], root, wc2, w1);
      Paint(LeftIdx(w), Black, fc, w1.left);
      ghost var w2 := Node(Painted(w1.left, Black), w, col, w1.right);
      Zip(node[..], root, fc, w2.left);
      Zip(node[..], root, wc2, w2);
      ghost var o2 := Node(w2, xpi, Black, t);
      RotateRight(xpi, c.up, o2);
      RotatedInOrder(wt.left, w, Black, wt.right, xpi, col, t, col, Black);
      SameOrder(c.up, o, RotatedRight(o2));
      ZipAll(node[..], root, c.up, RotatedRight(o2));
      t', h' := Plug(c.up, RotatedRight(o2)), hh;
    }

    method BlackSiblingRight(xpi: nat, w0: nat, ghost c0: Ctx, ghost t: Tree, ghost h: nat, ghost order: seq<nat>)
      returns (xi': nat, xpi': nat, ghost c': Ctx, ghost t': Tree, ghost h': nat)
      requires RemoveState(Root(t), xpi, c0, t, h, order) && !IsRed(t)
      requires c0.InRight? && c0.left.Node? && !IsRed(c0.left) && w0 == c0.left.idx
      modifies this`root, node
      ensures RemoveState(xi', xpi', c', t', h', order)
      ensures c'.Top? || (c' == c0.up && (c0.color == Red ==> IsRed(t')))
    {
      ghost var cc := c0;
      var w := w0;
      SiblingCells(node[..], root, c0, t);
      if ColorIdx(RightIdx(w)) == Black && ColorIdx(LeftIdx(w)) == Black {
        c', t', h' := ReddenSibling(w, xpi, c0, t, h, order);
        FocusCell(node[..], root, c', t');
        xi' := xpi;
        xpi' := ParentIdx(xi');
      } else {
        if ColorIdx(LeftIdx(w)) == Black {
          cc := NearNephewRight(xpi, w, c0, t, h, order);
          SiblingCells(node[..], root, cc, t);
          w := LeftIdx(xpi);
        }
        t', h' := FarNephewRight(xpi, w, cc, t, h, order);
        xi', xpi', c' := root, NIL, Top;
      }
    }

    /** One round of the remove fix-up with xi as a right child. */
    method RemoveStepRight(xi: nat, xpi: nat, ghost c: Ctx, ghost t: Tree, ghost h: nat, ghost order: seq<nat>)
      returns (xi': nat, xpi': nat, ghost c': Ctx, ghost t': Tree, ghost h': nat)
      requires RemoveState(xi, xpi, c, t, h, order)
      requires c.InRight? && !IsRed(t)
      modifies this`root, node
      ensures RemoveState(xi', xpi', c', t', h', order)
      ensures RemoveRank(c', t') < RemoveRank(c, t)
    {
      ghost var cc := c;
      SiblingFrame(c, h);
      SiblingCells(node[..], root, c, t);
      var w := LeftIdx(xpi);
      if ColorIdx(w) == Red {
        cc := RedSiblingRight(xpi, w, c, t, h, order);
        SiblingFrame(cc, h);
        SiblingCells(node[..], root, cc, t);
        w := LeftIdx(xpi);
      }
      xi', xpi', c', t', h' := BlackSiblingRight(xpi, w, cc, t, h, order);
    }

    /** One round of the remove fix-up loop; xi is never mistaken for a left child when both are NIL. */
    method RemoveRound(xi: nat, xpi: nat, ghost c: Ctx, ghost t: Tree, ghost h: nat, ghost order: seq<nat>)
      returns (xi': nat, xpi': nat, ghost c': Ctx, ghost t': Tree, ghost h': nat)
      requires RemoveState(xi, xpi, c, t, h, order)
      requires !c.Top? && !IsRed(t)
      modifies this`root, node
      ensures RemoveState(xi', xpi', c', t', h', order)
      ensures RemoveRank(c', t') < RemoveRank(c, t)
    {
      SiblingFrame(c, h);
      SiblingCells(node[..], root, c, t);
      SiblingDiffers(node[..], root, c, t);
      if xi == LeftIdx(xpi) {
        xi', xpi', c', t', h' := RemoveStepLeft(xi, xpi, c, t, h, order);
      } else {
        xi', xpi', c', t', h' := RemoveStepRight(xi, xpi, c, t, h, order);
      }
    }

    method BlackenShort(xi: nat, ghost xpi: nat, ghost c: Ctx, ghost t: Tree, ghost h: nat, ghost order: seq<nat>)
      requires 0 < node.Length == key.Length && xi < node.Length
      requires RemoveState(xi, xpi, c, t, h, order) && SortedBy(key[..], order)
      requires c.Top? || IsRed(t)
      modifies this, node
      ensures Valid() && InOrder(tree) == order
    {
      ghost var hh := RestoredBalanced(c, t, h);
      ghost var t' := Painted(t, Black);
      Paint(xi, Black, c, t);
      SameOrder(c, t, t');
      ZipAll(node[..], root, c, t');
      tree := Plug(c, t');
      FocusCell(node[..], root, Top, tree);
    }

    method FixRemove(x: nat, xp: nat, ghost c0: Ctx, ghost t0: Tree, ghost h0: nat)
      requires 0 < node.Length == key.Length
      requires RemoveState(x, xp, c0, t0, h0, InOrder(Plug(c0, t0)))
      requires SortedBy(key[..], InOrder(Plug(c0, t0)))
      modifies this, node
      ensures Valid() && InOrder(tree) == InOrder(Plug(c0, t0))
    {
      var xi: nat, xpi: nat := x, xp;
      ghost var c, t, order := c0, t0, InOrder(Plug(c0, t0));
      ghost var h: nat := h0;
      FocusCell(node[..], root, c, t);
      RootInCtx(node[..], root, c, Root(t));
      while xi != root && ColorIdx(xi) == Black
        invariant RemoveState(xi, xpi, c, t, h, order)
        invariant xi < node.Length
        invariant xi != NIL ==> node[xi].color == t.color
        invariant !c.Top? ==> xi != root
        decreases RemoveRank(c, t)
      {
        xi, xpi, c, t, h := RemoveRound(xi, xpi, c, t, h, order);
        FocusCell(node[..], root, c, t);
        RootInCtx(node[..], root, c, Root(t));
      }
      BlackenShort(xi, xpi, c, t, h, order);
    }

    /** Case 2: the sibling w turns red and the parent is the next node to look at. */
    method ReddenSibling(w: nat, ghost xpi: nat, ghost c: Ctx, ghost t: Tree, ghost h: nat, ghost order: seq<nat>)
      returns (ghost c': Ctx, ghost t': Tree, ghost h': nat)
      requires RemoveState(Root(t), xpi, c, t, h, order) && !c.Top? && !IsRed(t)
      requires c.InLeft? ==> w == Root(c.right) && w < node.Length && !IsRed(c.right) && (c.right.Node? ==> !IsRed(c.right.left) && !IsRed(c.right.right))
      requires c.InRight? ==> w == Root(c.left) && w < node.Length && !IsRed(c.left) && (c.left.Node? ==> !IsRed(c.left.left) && !IsRed(c.left.right))
      modifies node
      ensures c' == c.up && t' == Outer(Reddened(c), t)
      ensures RemoveState(xpi, CtxIdx(c'), c', t', h', order)
    {
      ghost var o := Outer(c, t);
      c', t' := c.up, Outer(Reddened(c), t);
      h' := BlackChildrenBalanced(c, t, h);
      Zip(node[..], root, c, t);
      SameOrder(c.up, o, t');
      ghost var wc := if c.InLeft? then InRight(c.up, t, xpi, c.color) else InLeft(c.up, xpi, c.color, t);
      ghost var wt := if c.InLeft? then c.right else c.left;
      Zip(node[..], root, wc, wt);
      Paint(w, Red, wc, wt);
      Zip(node[..], root, wc, Painted(wt, Red));
    }

    /** Takes z, which has at most one child, out of the tree. */
    method UnlinkSingle(z: nat, x: nat, ghost c: Ctx, ghost t: Tree)
      requires Rep(node[..], root, c, t) && t.Node? && t.idx == z
      requires (t.left.Leaf? && x == Root(t.right)) || (t.right.Leaf? && x == Root(t.left))
      requires z < node.Length && x < node.Length && node[z].parent < node.Length
      modifies this`root, node
      ensures Rep(node[..], root, c, if t.left.Leaf? then t.right else t.left)
    {
      FocusCell(node[..], root, c, t);
      TransplantRep(node[..], root, c, t, if t.left.Leaf? then t.right else t.left, z);
      Transplant(z, x);
    }

    /** The successor y of a node z with two children: the leftmost node right of z. */
    method Successor(z: nat, ghost c: Ctx, ghost t: Tree) returns (y: nat, ghost cr: Ctx, ghost ty: Tree)
      requires Rep(node[..], root, c, t) && t.Node? && t.idx == z && t.right.Node?
      ensures AllLeft(cr) && Plug(cr, ty) == t.right && ty.Node? && ty.left.Leaf? && y == ty.idx
      ensures Rep(node[..], root, Compose(InRight(c, t.left, z, t.color), cr), ty)
    {
      ghost var s, o := node[..], InRight(c, t.left, z, t.color);
      Zip(s, root, o, t.right);
      FocusCell(s, root, c, t);
      y := RightIdx(z);
      cr, ty := Top, t.right;
      while LeftIdx(y) != NIL
        invariant AllLeft(cr) && Plug(cr, ty) == t.right && Rep(s, root, Compose(o, cr), ty)
        invariant ty.Node? && y == ty.idx && 0 < y < node.Length && node[y].left == Root(ty.left)
        decreases ty
      {
        LeftStep(s, root, o, cr, ty);
        y := LeftIdx(y);
        cr, ty := InLeft(cr, ty.idx, ty.color, ty.right), ty.left;
      }
      StoresBounds(s, ty.left, y);
    }

    /**
     * Takes z, which has two children, out of the tree: its successor y leaves its own place to its
     * right child and moves into the place and colour of z.
     */
    method UnlinkDouble(z: nat, ghost c: Ctx, ghost t: Tree)
      returns (x: nat, xp: nat, ycol: Color, ghost cr: Ctx, ghost ty: Tree)
      requires Rep(node[..], root, c, t) && t.Node? && t.idx == z && t.left.Node? && t.right.Node?
      modifies this`root, node
      ensures ty.Node? && ty.left.Leaf? && AllLeft(cr) && Plug(cr, ty) == t.right && ycol == ty.color
      ensures var c' := Compose(InRight(c, t.left, ty.idx, t.color), cr);
              && Rep(node[..], root, c', ty.right)
              && x == Root(ty.right) && xp == CtxIdx(c')
    {
      ghost var s, root0, o := node[..], root, InRight(c, t.left, z, t.color);
      var y;
      y, cr, ty := Successor(z, c, t);
      FocusCell(s, root, Compose(o, cr), ty);
      ycol := ColorIdx(y);
      x := RightIdx(y);
      ComposeIdx(s, root, o, cr, ty);
      if ParentIdx(y) == z {
        xp := y;
        if x != NIL {
          node[x] := node[x].(parent := y);
        }
        assert node[..] == s;
        NextReplaceable(s, root, c, t.left, z, t.color, ty);
      } else {
        xp := ParentIdx(y);
        DetachSuccessor(z, y, x, c, t, cr, ty);
      }
      ReplaceBySuccessor(z, y, c, t, Plug(cr, ty.right));
      RepCompose(node[..], root, InRight(c, t.left, y, t.color), cr, ty.right);
    }

    /** Moves a successor y that is not the right child of z out of its place and over the right subtree of z. */
    method DetachSuccessor(z: nat, y: nat, x: nat, ghost c: Ctx, ghost t: Tree, ghost cr: Ctx, ghost ty: Tree)
      requires t.Node? && t.idx == z && t.left.Node? && t.right.Node?
      requires ty.Node? && ty.left.Leaf? && AllLeft(cr) && !cr.Top? && Plug(cr, ty) == t.right && y == ty.idx
      requires Rep(node[..], root, Compose(InRight(c, t.left, z, t.color), cr), ty) && x == Root(ty.right)
      modifies this`root, node
      ensures Replaceable(node[..], root, z, y, c, t.left, t.color, Plug(cr, ty.right))
    {
      ghost var o := InRight(c, t.left, z, t.color);
      ghost var full, r := Compose(o, cr), Plug(cr, ty.right);
      FocusCell(node[..], root, full, ty);
      TransplantRep(node[..], root, full, ty, ty.right, y);
      Transplant(y, x);
      RepCompose(node[..], root, o, cr, ty.right);
      ComposeNodes(o, cr);
      FocusInTree(cr, ty.right);
      assert cr.idx in CtxNodes(cr);
      FocusCell(node[..], root, o, r);
      FarReplaceable(node[..], root, c, t.left, z, t.color, r, y, WithRight(node[..], y, r.idx));
      SetRight(y, RightIdx(z));
    }

    method ReplaceBySuccessor(z: nat, y: nat, ghost c: Ctx, ghost t: Tree, ghost r: Tree)
      requires t.Node? && t.idx == z && Replaceable(node[..], root, z, y, c, t.left, t.color, r)
      modifies this`root, node
      ensures Rep(node[..], root, InRight(c, t.left, y, t.color), r)
    {
      ghost var s, root0 := node[..], root;
      StoresCtxBounds(s, root, c, z);
      StoresBounds(s, t.left, z);
      Transplant(z, y);
      ghost var s1 := node[..];
      TransplantCtx(s, root0, c, z, y);
      SetLeft(y, LeftIdx(z));
      ghost var s2 := node[..];
      SetColor(y, ColorIdx(z));
      ReplacedRep(s, root0, z, y, c, t.left, t.color, r, s1, s2, node[..]);
    }

    /** Takes z out of the tree; every other node stays, in the same order. */
    method Remove(z: nat) returns (r: nat)
      requires Valid() && z in Nodes(tree)
      modifies this, node
      ensures Valid() && r == z && z < node.Length
      ensures Inserted(InOrder(tree), old(InOrder(tree)), z)
      ensures node[z] == Link(NIL, NIL, NIL, Red)
    {
      ghost var whole := tree;
      ghost var c, t := Locate(Top, whole, z);
      ZipAll(node[..], root, c, t);
      FocusCell(node[..], root, c, t);
      RemovedOrder(key[..], c, t);
      var x, xp: nat, ycol, c', t' := Unlink(z, c, t);
      ghost var h := UnlinkedBalanced(c, t, c', t', ycol);
      UnlinkedInOrder(c, t, c', t', ycol);
      Rebalance(x, xp, ycol, c', t', h);
      NodesInOrder(tree);
      ResetRemoved(z);
      r := z;
    }

    method Rebalance(x: nat, xp: nat, ycol: Color, ghost c: Ctx, ghost t: Tree, ghost h: nat)
      requires 0 < node.Length == key.Length
      requires Rep(node[..], root, c, t) && x == Root(t) && xp == CtxIdx(c)
      requires Balanced(t, h) && CtxBalanced(c, if ycol == Black then h + 1 else h)
      requires ycol == Red ==> !IsRed(t)
      requires SortedBy(key[..], InOrder(Plug(c, t)))
      modifies this, node
      ensures Valid() && InOrder(tree) == InOrder(Plug(c, t))
    {
      if ycol == Black {
        assert Short(t, h);
        FixRemove(x, xp, c, t, h);
      } else {
        ghost var hh := PlugBalanced(c, t, h);
        ZipAll(node[..], root, c, t);
        tree := Plug(c, t);
      }
    }

    /** Dispatches on the number of children of z. */
    method Unlink(z: nat, ghost c: Ctx, ghost t: Tree)
      returns (x: nat, xp: nat, ycol: Color, ghost c': Ctx, ghost t': Tree)
      requires Rep(node[..], root, c, t) && t.Node? && t.idx == z
      modifies this`root, node
      ensures Rep(node[..], root, c', t') && x == Root(t') && xp == CtxIdx(c')
      ensures Unlinked(c, t, c', t', ycol)
    {
      FocusCell(node[..], root, c, t);
      ycol := ColorIdx(z);
      if LeftIdx(z) == NIL {
        x := RightIdx(z);
        xp := ParentIdx(z);
        c', t' := c, t.right;
        UnlinkSingle(z, x, c, t);
      } else if RightIdx(z) == NIL {
        x := LeftIdx(z);
        xp := ParentIdx(z);
        c', t' := c, t.left;
        UnlinkSingle(z, x, c, t);
      } else {
        ghost var cr, ty;
        x, xp, ycol, cr, ty := UnlinkDouble(z, c, t);
        c', t' := Compose(InRight(c, t.left, ty.idx, t.color), cr), ty.right;
        assert Successors(t, cr, ty);
      }
    }

    /** Restores the parent word of the root and clears the removed node. */
    method ResetRemoved(z: nat)
      requires Valid() && 0 < z < node.Length && z !in Nodes(tree)
      modifies node
      ensures Valid() && node[z] == Link(NIL, NIL, NIL, Red)
    {
      ghost var s := node[..];
      FocusCell(s, root, Top, tree);
      if root != NIL {
        node[root] := node[root].(parent := NIL);
      }
      assert node[..] == s;
      node[z] := Link(NIL, NIL, NIL, Red);
      OutsideRep(s, root, Top, tree, node[..], z);
    }

    // ------------------------------------------------------------ search and traversal

    /** The node with key k, or NIL. No search is longer than the tree is high. */
    method Find(k: int) returns (r: nat, ghost steps: nat)
      requires Valid()
      ensures r != NIL ==> r in Nodes(tree) && r < key.Length && key[r] == k
      ensures r == NIL ==> forall i :: i in Nodes(tree) ==> i < key.Length && key[i] != k
      ensures steps <= Height(tree)
    {
      r := root;
      steps := 0;
      ghost var c, t := Top, tree;
      while r != NIL
        invariant Plug(c, t) == tree && Rep(node[..], root, c, t)
        invariant r == Root(t) && Surrounds(key[..], c, k)
        invariant steps + Height(t) <= Height(tree)
        decreases t
      {
        FocusCell(node[..], root, c, t);
        SurroundsStep(key[..], c, t, k);
        steps := steps + 1;
        if k < key[r] {
          r := LeftIdx(r);
          c, t := InLeft(c, t.idx, t.color, t.right), t.left;
        } else if k > key[r] {
          r := RightIdx(r);
          c, t := InRight(c, t.left, t.idx, t.color), t.right;
        } else {
          FocusInTree(c, t);
          return;
        }
        Zip(node[..], root, c, t);
      }
      StoresBounds(node[..], t, CtxIdx(c));
      AbsentKey(key[..], c, k);
    }

    /** The node with the least key that is not below k, or NIL when every key is below k. */
    method NFind(k: int) returns (r: nat)
      requires Valid()
      ensures r != NIL ==> r in Nodes(tree) && r < key.Length && k <= key[r]
      ensures r != NIL ==> forall i :: i in Nodes(tree) && i < key.Length && k <= key[i] ==> key[r] <= key[i]
      ensures r == NIL ==> forall i :: i in Nodes(tree) ==> i < key.Length && key[i] < k
    {
      var x := root;
      r := NIL;
      ghost var c, t := Top, tree;
      while x != NIL
        invariant Plug(c, t) == tree && Rep(node[..], root, c, t)
        invariant x == Root(t) && Splits(key[..], c, k)
        invariant r == if After(c) == [] then NIL else After(c)[0]
        decreases t
      {
        FocusCell(node[..], root, c, t);
        SplitsStep(key[..], c, t, k);
        if k <= key[x] {
          r := x;
          x := LeftIdx(x);
          c, t := InLeft(c, t.idx, t.color, t.right), t.left;
        } else {
          x := RightIdx(x);
          c, t := InRight(c, t.left, t.idx, t.color), t.right;
        }
        Zip(node[..], root, c, t);
      }
      StoresBounds(node[..], t, CtxIdx(c));
      FirstAfter(node[..], key[..], c, k);
    }

    /** Follows the left links from x to the end. */
    method Leftmost(x0: nat, ghost c0: Ctx, ghost t0: Tree) returns (x: nat, ghost c: Ctx, ghost t: Tree)
      requires Rep(node[..], root, c0, t0) && t0.Node? && x0 == t0.idx
      ensures Plug(c, t) == Plug(c0, t0) && Before(c) == Before(c0)
      ensures t.Node? && x == t.idx && t.left.Leaf? && x != NIL
    {
      x, c, t := x0, c0, t0;
      FocusCell(node[..], root, c, t);
      while LeftIdx(x) != NIL
        invariant Plug(c, t) == Plug(c0, t0) && Rep(node[..], root, c, t) && Before(c) == Before(c0)
        invariant t.Node? && x == t.idx && 0 < x < node.Length && node[x].left == Root(t.left)
        decreases t
      {
        x := LeftIdx(x);
        FocusCell(node[..], root, c, t);
        c, t := InLeft(c, t.idx, t.color, t.right), t.left;
        Zip(node[..], root, c, t);
      }
      FocusCell(node[..], root, c, t);
      StoresBounds(node[..], t.left, x);
    }

    /** Follows the right links from x to the end. */
    method Rightmost(x0: nat, ghost c0: Ctx, ghost t0: Tree) returns (x: nat, ghost c: Ctx, ghost t: Tree)
      requires Rep(node[..], root, c0, t0) && t0.Node? && x0 == t0.idx
      ensures Plug(c, t) == Plug(c0, t0) && After(c) == After(c0)
      ensures t.Node? && x == t.idx && t.right.Leaf? && x != NIL
    {
      x, c, t := x0, c0, t0;
      FocusCell(node[..], root, c, t);
      while RightIdx(x) != NIL
        invariant Plug(c, t) == Plug(c0, t0) && Rep(node[..], root, c, t) && After(c) == After(c0)
        invariant t.Node? && x == t.idx && 0 < x < node.Length && node[x].right == Root(t.right)
        decreases t
      {
        x := RightIdx(x);
        FocusCell(node[..], root, c, t);
        c, t := InRight(c, t.left, t.idx, t.color), t.right;
        Zip(node[..], root, c, t);
      }
      FocusCell(node[..], root, c, t);
      StoresBounds(node[..], t.right, x);
    }

    /** Climbs from x while it is a right child; r is the first ancestor that x lies left of. */
    method ClimbRight(x0: nat, ghost c0: Ctx, ghost t0: Tree) returns (r: nat, ghost c: Ctx, ghost t: Tree)
      requires Rep(node[..], root, c0, t0) && t0.Node? && x0 == t0.idx
      ensures Plug(c, t) == Plug(c0, t0) && Before(c) + InOrder(t) == Before(c0) + InOrder(t0)
      ensures !c.InRight? && r == CtxIdx(c)
    {
      hide Stores, StoresCtx, Distinct, CtxDistinct, InOrder, Before, After, Nodes, CtxNodes;
      var x := x0;
      c, t := c0, t0;
      FocusCell(node[..], root, c, t);
      r := ParentIdx(x);
      while r != NIL && x == RightIdx(r)
        invariant Plug(c, t) == Plug(c0, t0) && Rep(node[..], root, c, t)
        invariant Before(c) + InOrder(t) == Before(c0) + InOrder(t0)
        invariant t.Node? && x == t.idx && r == CtxIdx(c) && r < node.Length
        decreases c
      {
        SiblingDiffers(node[..], root, c, t);
        FocusCell(node[..], root, c, t);
        Zip(node[..], root, c, t);
        ClimbStep(c, t);
        c, t := c.up, Outer(c, t);
        FocusCell(node[..], root, c, t);
        x := r;
        r := ParentIdx(x);
      }
      FocusCell(node[..], root, c, t);
    }

    /** Climbs from x while it is a left child; r is the first ancestor that x lies right of. */
    method ClimbLeft(x0: nat, ghost c0: Ctx, ghost t0: Tree) returns (r: nat, ghost c: Ctx, ghost t: Tree)
      requires Rep(node[..], root, c0, t0) && t0.Node? && x0 == t0.idx
      ensures Plug(c, t) == Plug(c0, t0) && InOrder(t) + After(c) == InOrder(t0) + After(c0)
      ensures !c.InLeft? && r == CtxIdx(c)
    {
      hide Stores, StoresCtx, Distinct, CtxDistinct, InOrder, Before, After, Nodes, CtxNodes;
      var x := x0;
      c, t := c0, t0;
      FocusCell(node[..], root, c, t);
      r := ParentIdx(x);
      while r != NIL && x == LeftIdx(r)
        invariant Plug(c, t) == Plug(c0, t0) && Rep(node[..], root, c, t)
        invariant InOrder(t) + After(c) == InOrder(t0) + After(c0)
        invariant t.Node? && x == t.idx && r == CtxIdx(c) && r < node.Length
        decreases c
      {
        SiblingDiffers(node[..], root, c, t);
        FocusCell(node[..], root, c, t);
        Zip(node[..], root, c, t);
        ClimbStep(c, t);
        c, t := c.up, Outer(c, t);
        FocusCell(node[..], root, c, t);
        x := r;
        r := ParentIdx(x);
      }
      FocusCell(node[..], root, c, t);
    }

    /** The first node in key order, or NIL. */
    method Min() returns (x: nat)
      requires Valid()
      ensures x == if InOrder(tree) == [] then NIL else InOrder(tree)[0]
    {
      x := root;
      StoresBounds(node[..], tree, NIL);
      if x == NIL {
        return;
      }
      ghost var c, t;
      x, c, t := Leftmost(x, Top, tree);
      PlugInOrder(c, t);
    }

    /** The last node in key order, or NIL. */
    method Max() returns (x: nat)
      requires Valid()
      ensures x == if InOrder(tree) == [] then NIL else InOrder(tree)[|InOrder(tree)| - 1]
    {
      x := root;
      StoresBounds(node[..], tree, NIL);
      if x == NIL {
        return;
      }
      ghost var c, t;
      x, c, t := Rightmost(x, Top, tree);
      PlugInOrder(c, t);
    }

    /** The node after elm in key order, or NIL after the last one. */
    method Next(elm: nat) returns (r: nat)
      requires Valid() && (elm == NIL || elm in Nodes(tree))
      ensures Follows(InOrder(tree), elm, r)
      ensures elm == NIL ==> r == NIL
    {
      if elm == NIL {
        TreeIndices(node[..], tree);
        return NIL;
      }
      ghost var c, t := Locate(Top, tree, elm);
      ZipAll(node[..], root, c, t);
      FocusCell(node[..], root, c, t);
      StoresBounds(node[..], t.right, elm);
      ghost var prefix := Before(c) + InOrder(t.left) + [elm];
      r := RightIdx(elm);
      if r != NIL {
        ghost var c1 := InRight(c, t.left, elm, t.color);
        Zip(node[..], root, c1, t.right);
        ghost var c2, t2;
        r, c2, t2 := Leftmost(r, c1, t.right);
        LeftmostFollows(key[..], c2, t2, prefix);
      } else {
        assert Before(c) + InOrder(t) == prefix;
        ghost var c2, t2;
        r, c2, t2 := ClimbRight(elm, c, t);
        ClimbFollows(key[..], c2, t2, prefix);
      }
    }

    /** The node before elm in key order, or NIL before the first one. */
    method Prev(elm: nat) returns (r: nat)
      requires Valid() && (elm == NIL || elm in Nodes(tree))
      ensures Precedes(InOrder(tree), elm, r)
      ensures elm == NIL ==> r == NIL
    {
      if elm == NIL {
        TreeIndices(node[..], tree);
        return NIL;
      }
      ghost var c, t := Locate(Top, tree, elm);
      ZipAll(node[..], root, c, t);
      FocusCell(node[..], root, c, t);
      StoresBounds(node[..], t.left, elm);
      ghost var suffix := [elm] + InOrder(t.right) + After(c);
      r := LeftIdx(elm);
      if r != NIL {
        ghost var c1 := InLeft(c, elm, t.color, t.right);
        Zip(node[..], root, c1, t.left);
        ghost var c2, t2;
        r, c2, t2 := Rightmost(r, c1, t.left);
        RightmostPrecedes(key[..], c2, t2, suffix);
      } else {
        assert InOrder(t) + After(c) == suffix;
        ghost var c2, t2;
        r, c2, t2 := ClimbLeft(elm, c, t);
        ClimbPrecedes(key[..], c2, t2, suffix);
      }
    }

    /** The forward traversal visits every node once, in ascending key order. */
    method Foreach() returns (visited: seq<nat>)
      requires Valid()
      ensures visited == InOrder(tree)
    {
      ghost var order := InOrder(tree);
      TreeIndices(node[..], tree);
      visited := [];
      var x := Min();
      while x != NIL
        invariant |visited| <= |order| && visited == order[..|visited|]
        invariant x == if |visited| < |order| then order[|visited|] else NIL
        decreases |order| - |visited|
      {
        ghost var k := |visited|;
        assert order[k] == x;
        visited := visited + [x];
        ghost var x0 := x;
        x := Next(x);
        FollowsAt(order, k, x0, x);
      }
    }

    /** The backward traversal is the reverse of the forward one. */
    method ForeachReverse() returns (visited: seq<nat>)
      requires Valid()
      ensures |visited| == |InOrder(tree)|
      ensures forall k :: 0 <= k < |visited| ==> visited[k] == InOrder(tree)[|visited| - 1 - k]
    {
      ghost var order := InOrder(tree);
      TreeIndices(node[..], tree);
      visited := [];
      var x := Max();
      ghost var left := |order|;
      while x != NIL
        invariant 0 <= left <= |order| && |visited| == |order| - left
        invariant forall k :: 0 <= k < |visited| ==> visited[k] == order[|order| - 1 - k]
        invariant x == if 0 < left then order[left - 1] else NIL
        decreases left
      {
        visited := visited + [x];
        left := left - 1;
        ghost var x0 := x;
        assert order[left] == x0;
        x := Prev(x);
        PrecedesAt(order, left, x0, x);
      }
    }
  }

  /**
   * The remove fix-up climbs in every round, except that a red sibling first moves the short subtree
   * one level down; that round then ends at a red node.
   */
  ghost function RemoveRank(c: Ctx, t: Tree): nat {
    2 * Depth(c) + if IsRed(t) then 0 else 1
  }
}
