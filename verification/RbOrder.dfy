/** Key order along the in-order sequence. */
module RbOrder {
  import opened RbTheory

  ghost predicate SortedBy(key: seq<int>, order: seq<nat>) {
    && (forall k :: 0 <= k < |order| ==> order[k] < |key|)
    && forall j, k :: 0 <= j < k < |order| ==> key[order[j]] < key[order[k]]
  }

  /** new is old with z added at some position. */
  ghost predicate Inserted(old_: seq<nat>, new_: seq<nat>, z: nat) {
    exists k :: 0 <= k <= |old_| && new_ == old_[..k] + [z] + old_[k..]
  }

  lemma SortedParts(key: seq<int>, a: seq<nat>, b: seq<nat>)
    requires SortedBy(key, a + b)
    ensures SortedBy(key, a) && SortedBy(key, b)
    ensures forall i, j :: i in a && j in b ==> i < |key| && j < |key| && key[i] < key[j]
  {
    assert forall k :: 0 <= k < |a| ==> a[k] == (a + b)[k];
    assert forall k :: 0 <= k < |b| ==> b[k] == (a + b)[|a| + k];
  }

  lemma SortedJoin(key: seq<int>, a: seq<nat>, z: nat, b: seq<nat>)
    requires SortedBy(key, a + b) && z < |key|
    requires forall i :: i in a ==> i < |key| && key[i] < key[z]
    requires forall i :: i in b ==> i < |key| && key[z] < key[i]
    ensures SortedBy(key, a + [z] + b)
  {
    SortedParts(key, a, b);
    var n := a + [z] + b;
    forall k | 0 <= k < |n|
      ensures n[k] < |key|
      ensures k < |a| ==> n[k] == a[k] && a[k] in a
      ensures k > |a| ==> n[k] == b[k - |a| - 1] && b[k - |a| - 1] in b
    {
    }
  }

  /** In a sorted tree the left keys are smaller and the right keys are larger than the root key. */
  lemma {:induction false} SortedNode(key: seq<int>, c: Ctx, t: Tree)
    requires SortedBy(key, InOrder(Plug(c, t))) && t.Node?
    ensures t.idx < |key|
    ensures forall i :: i in InOrder(t.left) ==> i < |key| && key[i] < key[t.idx]
    ensures forall i :: i in InOrder(t.right) ==> i < |key| && key[t.idx] < key[i]
  {
    PlugInOrder(c, t);
    SortedParts(key, Before(c) + InOrder(t), After(c));
    SortedParts(key, Before(c), InOrder(t));
    SortedParts(key, InOrder(t.left) + [t.idx], InOrder(t.right));
    SortedParts(key, InOrder(t.left), [t.idx]);
    assert t.idx in [t.idx] && t.idx in InOrder(t.left) + [t.idx];
  }

  lemma InThree(a: seq<nat>, b: seq<nat>, c: seq<nat>)
    ensures forall i :: i in a + b + c <==> i in a || i in b || i in c
  {
  }

  /** All keys left of the hole are below k and all keys right of it are above k. */
  ghost predicate Surrounds(key: seq<int>, c: Ctx, k: int) {
    && (forall i :: i in Before(c) ==> i < |key| && key[i] < k)
    && (forall i :: i in After(c) ==> i < |key| && k < key[i])
  }

  lemma {:induction false} SurroundsStep(key: seq<int>, c: Ctx, t: Tree, k: int)
    requires SortedBy(key, InOrder(Plug(c, t))) && t.Node? && Surrounds(key, c, k)
    ensures t.idx < |key|
    ensures k < key[t.idx] ==> Surrounds(key, InLeft(c, t.idx, t.color, t.right), k)
    ensures key[t.idx] < k ==> Surrounds(key, InRight(c, t.left, t.idx, t.color), k)
  {
    SortedNode(key, c, t);
    InThree([t.idx], InOrder(t.right), After(c));
    InThree(Before(c), InOrder(t.left), [t.idx]);
    assert After(InLeft(c, t.idx, t.color, t.right)) == [t.idx] + InOrder(t.right) + After(c);
    assert Before(InRight(c, t.left, t.idx, t.color)) == Before(c) + InOrder(t.left) + [t.idx];
    hide InOrder, Before, After, Plug, SortedBy;
  }

  lemma {:induction false} InnermostKey(key: seq<int>, c: Ctx, k: int)
    requires Surrounds(key, c, k) && !c.Top?
    ensures c.idx < |key|
    ensures c.InLeft? ==> k < key[c.idx]
    ensures c.InRight? ==> key[c.idx] < k
  {
    if c.InLeft? {
      assert After(c)[0] == c.idx;
      assert c.idx in After(c);
    } else {
      assert Before(c)[|Before(c)| - 1] == c.idx;
      assert c.idx in Before(c);
    }
  }

  /** A key that the context surrounds and that no focused node holds is nowhere in the tree. */
  lemma {:induction false} AbsentKey(key: seq<int>, c: Ctx, k: int)
    requires Surrounds(key, c, k)
    ensures forall i :: i in Nodes(Plug(c, Leaf)) ==> i < |key| && key[i] != k
  {
    PlugInOrder(c, Leaf);
    NodesInOrder(Plug(c, Leaf));
  }

  lemma {:induction false} InsertedOrder(key: seq<int>, c: Ctx, z: nat)
    requires SortedBy(key, InOrder(Plug(c, Leaf))) && z < |key| && Surrounds(key, c, key[z])
    ensures SortedBy(key, InOrder(Plug(c, Node(Leaf, z, Red, Leaf))))
    ensures Inserted(InOrder(Plug(c, Leaf)), InOrder(Plug(c, Node(Leaf, z, Red, Leaf))), z)
  {
    var t := Node(Leaf, z, Red, Leaf);
    PlugInOrder(c, Leaf);
    PlugInOrder(c, t);
    var o := InOrder(Plug(c, Leaf));
    assert o == Before(c) + After(c);
    assert InOrder(t) == [z];
    SortedJoin(key, Before(c), z, After(c));
    assert o[..|Before(c)|] == Before(c) && o[|Before(c)|..] == After(c);
  }

  /** Taking the root of the focused tree out of a sorted order leaves a sorted order. */
  lemma {:induction false} RemovedOrder(key: seq<int>, c: Ctx, t: Tree)
    requires SortedBy(key, InOrder(Plug(c, t))) && t.Node?
    ensures var rest := (Before(c) + InOrder(t.left)) + (InOrder(t.right) + After(c));
            SortedBy(key, rest) && t.idx !in rest && Inserted(rest, InOrder(Plug(c, t)), t.idx)
  {
    var a, b := Before(c) + InOrder(t.left), InOrder(t.right) + After(c);
    PlugInOrder(c, t);
    Regroup(Before(c), InOrder(t.left), t.idx, InOrder(t.right), After(c));
    assert InOrder(Plug(c, t)) == a + [t.idx] + b;
    hide InOrder, Before, After, Plug, SortedBy, Inserted;
    MiddleRemoved(key, a, t.idx, b);
  }

  lemma MiddleRemoved(key: seq<int>, a: seq<nat>, x: nat, b: seq<nat>)
    requires SortedBy(key, a + [x] + b)
    ensures SortedBy(key, a + b) && x !in a + b && Inserted(a + b, a + [x] + b, x)
  {
    assert x in [x] && x in a + [x];
    assert (a + b)[..|a|] == a && (a + b)[|a|..] == b;
    SortedParts(key, a + [x], b);
    SortedParts(key, a, [x]);
    hide SortedBy;
    SortedConcat(key, a, x, b);
  }

  lemma SortedConcat(key: seq<int>, a: seq<nat>, x: nat, b: seq<nat>)
    requires SortedBy(key, a) && SortedBy(key, b) && x < |key|
    requires forall i :: i in a ==> i < |key| && key[i] < key[x]
    requires forall i :: i in b ==> i < |key| && key[x] < key[i]
    ensures SortedBy(key, a + b)
  {
    var n := a + b;
    forall k | 0 <= k < |n|
      ensures n[k] < |key|
      ensures k < |a| ==> n[k] == a[k] && a[k] in a
      ensures k >= |a| ==> n[k] == b[k - |a|] && b[k - |a|] in b
    {
    }
  }

  /** All keys left of the hole are below k, all keys right of it are at least k. */
  ghost predicate Splits(key: seq<int>, c: Ctx, k: int) {
    && (forall i :: i in Before(c) ==> i < |key| && key[i] < k)
    && (forall i :: i in After(c) ==> i < |key| && k <= key[i])
  }

  lemma {:induction false} SplitsStep(key: seq<int>, c: Ctx, t: Tree, k: int)
    requires SortedBy(key, InOrder(Plug(c, t))) && t.Node? && Splits(key, c, k)
    ensures t.idx < |key|
    ensures k <= key[t.idx] ==> Splits(key, InLeft(c, t.idx, t.color, t.right), k)
    ensures key[t.idx] < k ==> Splits(key, InRight(c, t.left, t.idx, t.color), k)
  {
    SortedNode(key, c, t);
    InThree([t.idx], InOrder(t.right), After(c));
    InThree(Before(c), InOrder(t.left), [t.idx]);
    assert After(InLeft(c, t.idx, t.color, t.right)) == [t.idx] + InOrder(t.right) + After(c);
    assert Before(InRight(c, t.left, t.idx, t.color)) == Before(c) + InOrder(t.left) + [t.idx];
    hide InOrder, Before, After, Plug, SortedBy;
  }

  lemma {:induction false} FirstAfter(s: seq<Link>, key: seq<int>, c: Ctx, k: int)
    requires SortedBy(key, InOrder(Plug(c, Leaf))) && Splits(key, c, k)
    requires Stores(s, Plug(c, Leaf), NIL)
    ensures var whole := Plug(c, Leaf);
            && (After(c) == [] ==> forall i :: i in Nodes(whole) ==> i < |key| && key[i] < k)
            && (After(c) != [] ==>
                  && After(c)[0] != NIL && After(c)[0] in Nodes(whole) && After(c)[0] < |key| && k <= key[After(c)[0]]
                  && forall i :: i in Nodes(whole) && i < |key| && k <= key[i] ==> key[After(c)[0]] <= key[i])
  {
    var whole := Plug(c, Leaf);
    PlugInOrder(c, Leaf);
    NodesInOrder(whole);
    StoresBounds(s, whole, NIL);
    assert InOrder(whole) == Before(c) + After(c);
    hide InOrder, Before, After, Plug, Nodes, Stores, SortedBy;
    FirstAmong(key, Before(c), After(c), Nodes(whole), k);
  }

  lemma FirstAmong(key: seq<int>, a: seq<nat>, b: seq<nat>, nodes: set<nat>, k: int)
    requires SortedBy(key, a + b) && forall i :: i in nodes <==> i in a + b
    requires (forall i :: i in a ==> i < |key| && key[i] < k) && forall i :: i in b ==> i < |key| && k <= key[i]
    ensures b == [] ==> forall i :: i in nodes ==> i < |key| && key[i] < k
    ensures b != [] ==> b[0] in nodes && b[0] < |key| && k <= key[b[0]]
    ensures b != [] ==> forall i :: i in nodes && i < |key| && k <= key[i] ==> key[b[0]] <= key[i]
  {
    SortedParts(key, a, b);
    if b != [] {
      assert b[0] in b;
      FirstOfRest(key, a, b, k);
    }
  }

  lemma FirstOfRest(key: seq<int>, a: seq<nat>, b: seq<nat>, k: int)
    requires SortedBy(key, b) && b != []
    requires forall i :: i in a ==> i < |key| && key[i] < k
    ensures forall i: nat :: i in a + b && i < |key| && k <= key[i] ==> b[0] < |key| && key[b[0]] <= key[i]
  {
    forall i: nat | i in a + b && i < |key| && k <= key[i]
      ensures b[0] < |key| && key[b[0]] <= key[i]
    {
      var j :| 0 <= j < |b| && b[j] == i;
    }
  }

  /** r comes right after x in the order; NIL comes after the last element. */
  ghost predicate Follows(order: seq<nat>, x: nat, r: nat) {
    forall k :: 0 <= k < |order| && order[k] == x ==> r == if k + 1 < |order| then order[k + 1] else NIL
  }

  /** r comes right before x in the order; NIL comes before the first element. */
  ghost predicate Precedes(order: seq<nat>, x: nat, r: nat) {
    forall k :: 0 <= k < |order| && order[k] == x ==> r == if 0 < k then order[k - 1] else NIL
  }

  lemma FollowsAt(order: seq<nat>, k: nat, x: nat, r: nat)
    requires Follows(order, x, r) && k < |order| && order[k] == x
    ensures r == if k + 1 < |order| then order[k + 1] else NIL
  {
  }

  lemma PrecedesAt(order: seq<nat>, k: nat, x: nat, r: nat)
    requires Precedes(order, x, r) && k < |order| && order[k] == x
    ensures r == if 0 < k then order[k - 1] else NIL
  {
  }

  lemma NextInOrder(key: seq<int>, order: seq<nat>, prefix: seq<nat>, rest: seq<nat>)
    requires SortedBy(key, order) && order == prefix + rest && prefix != []
    ensures Follows(order, prefix[|prefix| - 1], if rest == [] then NIL else rest[0])
  {
    assert order[|prefix| - 1] == prefix[|prefix| - 1];
  }

  lemma PrevInOrder(key: seq<int>, order: seq<nat>, prefix: seq<nat>, rest: seq<nat>)
    requires SortedBy(key, order) && order == prefix + rest && rest != []
    ensures Precedes(order, rest[0], if prefix == [] then NIL else prefix[|prefix| - 1])
  {
    assert order[|prefix|] == rest[0];
  }

  lemma {:induction false} LeftmostFollows(key: seq<int>, c: Ctx, t: Tree, prefix: seq<nat>)
    requires SortedBy(key, InOrder(Plug(c, t))) && Before(c) == prefix && prefix != []
    requires t.Node? && t.left.Leaf?
    ensures Follows(InOrder(Plug(c, t)), prefix[|prefix| - 1], t.idx)
  {
    PlugInOrder(c, t);
    var rest := [t.idx] + (InOrder(t.right) + After(c));
    assert InOrder(t) == [t.idx] + InOrder(t.right);
    assert prefix + InOrder(t) + After(c) == prefix + rest;
    NextInOrder(key, InOrder(Plug(c, t)), prefix, rest);
  }

  lemma {:induction false} ClimbFollows(key: seq<int>, c: Ctx, t: Tree, prefix: seq<nat>)
    requires SortedBy(key, InOrder(Plug(c, t))) && Before(c) + InOrder(t) == prefix && prefix != []
    requires !c.InRight?
    ensures Follows(InOrder(Plug(c, t)), prefix[|prefix| - 1], CtxIdx(c))
  {
    PlugInOrder(c, t);
    NextInOrder(key, InOrder(Plug(c, t)), prefix, After(c));
    if c.InLeft? {
      assert After(c)[0] == c.idx;
    }
  }

  lemma {:induction false} RightmostPrecedes(key: seq<int>, c: Ctx, t: Tree, suffix: seq<nat>)
    requires SortedBy(key, InOrder(Plug(c, t))) && After(c) == suffix && suffix != []
    requires t.Node? && t.right.Leaf?
    ensures Precedes(InOrder(Plug(c, t)), suffix[0], t.idx)
  {
    PlugInOrder(c, t);
    var prefix := Before(c) + InOrder(t.left) + [t.idx];
    assert InOrder(t) == InOrder(t.left) + [t.idx];
    assert Before(c) + InOrder(t) + suffix == prefix + suffix;
    PrevInOrder(key, InOrder(Plug(c, t)), prefix, suffix);
  }

  lemma {:induction false} ClimbPrecedes(key: seq<int>, c: Ctx, t: Tree, suffix: seq<nat>)
    requires SortedBy(key, InOrder(Plug(c, t))) && InOrder(t) + After(c) == suffix && suffix != []
    requires !c.InLeft?
    ensures Precedes(InOrder(Plug(c, t)), suffix[0], CtxIdx(c))
  {
    PlugInOrder(c, t);
    assert Before(c) + InOrder(t) + After(c) == Before(c) + suffix;
    PrevInOrder(key, InOrder(Plug(c, t)), Before(c), suffix);
    if c.InRight? {
      assert Before(c)[|Before(c)| - 1] == c.idx;
    }
  }

  /** Climbing one frame keeps everything up to the end, or from the start, of the focused tree. */
  lemma {:induction false} ClimbStep(c: Ctx, t: Tree)
    requires !c.Top?
    ensures c.InRight? ==> Before(c.up) + InOrder(Outer(c, t)) == Before(c) + InOrder(t)
    ensures c.InLeft? ==> InOrder(Outer(c, t)) + After(c.up) == InOrder(t) + After(c)
  {
    if c.InRight? {
      assert Before(c.up) + (InOrder(c.left) + [c.idx] + InOrder(t)) == (Before(c.up) + InOrder(c.left) + [c.idx]) + InOrder(t);
    } else {
      assert (InOrder(t) + [c.idx] + InOrder(c.right)) + After(c.up) == InOrder(t) + ([c.idx] + InOrder(c.right) + After(c.up));
    }
  }
}
