/**
 * Ordered descents over a red-black tree, as `src/coro/sched.c` writes them,
 * and the narrow comparison of deadlines.
 */
module Ordered {
  import opened RbShape
  import opened RbLinks
  import opened RbTree

  /** Strictly ascending keys. */
  ghost predicate Sorted(s: seq<RbNode>) {
    forall i, j :: 0 <= i < j < |s| ==> s[i].key < s[j].key
  }

  ghost predicate Below(s: seq<RbNode>, key: int) {
    forall n :: n in s ==> n.key < key
  }

  ghost predicate Above(s: seq<RbNode>, key: int) {
    forall n :: n in s ==> key < n.key
  }

  ghost predicate HasKey(t: Tree, key: int) {
    exists n :: n in Nodes(t) && n.key == key
  }

  /** `key` can only be in the hole of `ctx`. */
  ghost predicate Between(ctx: Ctx, key: int) {
    Below(Before(ctx), key) && Above(After(ctx), key)
  }

  lemma SortedParts(a: seq<RbNode>, n: RbNode, b: seq<RbNode>)
    requires Sorted(a + [n] + b)
    ensures Below(a, n.key) && Above(b, n.key) && Sorted(a) && Sorted(b)
  {
    var s := a + [n] + b;
    assert s[|a|] == n;
    forall x | x in a ensures x.key < n.key {
      var i :| 0 <= i < |a| && a[i] == x;
      assert s[i] == x;
    }
    forall x | x in b ensures n.key < x.key {
      var i :| 0 <= i < |b| && b[i] == x;
      assert s[|a| + 1 + i] == x;
    }
    assert forall i :: 0 <= i < |a| ==> s[i] == a[i];
    assert forall i :: 0 <= i < |b| ==> s[|a| + 1 + i] == b[i];
  }

  lemma SortedHalves(a: seq<RbNode>, b: seq<RbNode>)
    requires Sorted(a + b)
    ensures Sorted(a) && Sorted(b)
  {
    var s := a + b;
    assert forall i :: 0 <= i < |a| ==> s[i] == a[i];
    assert forall i :: 0 <= i < |b| ==> s[|a| + i] == b[i];
  }

  lemma SortedJoin(a: seq<RbNode>, n: RbNode, b: seq<RbNode>)
    requires Sorted(a) && Sorted(b) && Below(a, n.key) && Above(b, n.key)
    ensures Sorted(a + [n] + b)
  {
  }

  lemma {:induction false} SortedSub(t: Tree)
    requires t.Node? && Sorted(InOrder(t))
    ensures Sorted(InOrder(t.l)) && Sorted(InOrder(t.r)) && Below(InOrder(t.l), t.n.key) && Above(InOrder(t.r), t.n.key)
  {
    SortedParts(InOrder(t.l), t.n, InOrder(t.r));
  }

  // ---------------------------------------------------------------- descents

  /** Where a descent for `key` has got to. */
  ghost predicate Searching(tree: Tree, ctx: Ctx, t: Tree, key: int) {
    tree == Plug(ctx, t) && Sorted(InOrder(t)) && Between(ctx, key)
  }

  lemma SearchLeft(tree: Tree, ctx: Ctx, t: Tree, key: int)
    requires Searching(tree, ctx, t, key) && t.Node? && key < t.n.key
    ensures Searching(tree, InLeft(t.n, t.c, t.r, ctx), t.l, key)
  {
    SortedSub(t);
  }

  lemma SearchRight(tree: Tree, ctx: Ctx, t: Tree, key: int)
    requires Searching(tree, ctx, t, key) && t.Node? && key > t.n.key
    ensures Searching(tree, InRight(t.l, t.n, t.c, ctx), t.r, key)
  {
    SortedSub(t);
  }

  /** A descent that ends at an empty link has met every node with the key: none. */
  lemma SearchEnds(tree: Tree, ctx: Ctx, key: int)
    requires Searching(tree, ctx, Leaf, key)
    ensures !HasKey(tree, key) && InOrder(tree) == Before(ctx) + After(ctx)
  {
    PlugInOrder(ctx, Leaf);
    forall n | n in Nodes(tree) ensures n.key != key {
      InOrderNodes(tree, n);
    }
  }

  lemma SearchFinds(tree: Tree, ctx: Ctx, t: Tree, key: int)
    requires Searching(tree, ctx, t, key) && t.Node? && t.n.key == key
    ensures t.n in Nodes(tree) && HasKey(tree, key)
  {
    PlugNodes(ctx, t);
  }

  /** A node linked at an empty link of an ordered tree keeps the order exactly when its key belongs there. */
  lemma LinkedSorted(ctx: Ctx, x: RbNode, c: Color)
    requires Sorted(InOrder(Plug(ctx, Leaf)))
    ensures Sorted(InOrder(Plug(ctx, Node(Leaf, x, c, Leaf)))) <==> Between(ctx, x.key)
  {
    hide Sorted, Before, After, Below, Above, InOrder;
    PlugInOrder(ctx, Leaf);
    PlugInOrder(ctx, Node(Leaf, x, c, Leaf));
    LeafOrder(x, c);
    assert Before(ctx) + [] + After(ctx) == Before(ctx) + After(ctx);
    SortedHalves(Before(ctx), After(ctx));
    if Between(ctx, x.key) {
      SortedJoin(Before(ctx), x, After(ctx));
    }
    if Sorted(Before(ctx) + [x] + After(ctx)) {
      SortedParts(Before(ctx), x, After(ctx));
    }
  }

  lemma LeafOrder(x: RbNode, c: Color)
    ensures InOrder(Leaf) == [] && InOrder(Node(Leaf, x, c, Leaf)) == [x]
  {
  }

  /** At most 2 log2(n + 1) turns in a tree of n nodes. */
  ghost predicate FewTurns(turns: nat, t: Tree) {
    Pow2(turns) <= (Size(t) + 1) * (Size(t) + 1)
  }

  /** So it is for every walk down a red-black tree. */
  lemma TurnsBound(t: Tree, turns: nat)
    requires RedBlack(t) && turns <= Height(t)
    ensures FewTurns(turns, t)
  {
    HeightBound(t);
    Pow2Mono(turns, Height(t));
  }

  lemma BoundTurns(t: Tree, turns: nat)
    requires turns <= Height(t)
    ensures RedBlack(t) ==> FewTurns(turns, t)
  {
    if RedBlack(t) {
      TurnsBound(t, turns);
    }
  }

  /** find_in_timer and find_timer_node: a binary search over an ordered tree. */
  method FindKey(root: RbRoot, key: int) returns (n: RbNode?, ghost turns: nat)
    requires root.Valid() && Sorted(InOrder(root.tree))
    ensures n == null <==> !HasKey(root.tree, key)
    ensures n != null ==> n in Nodes(root.tree) && n.key == key
    ensures turns <= Height(root.tree)
    ensures RedBlack(root.tree) ==> FewTurns(turns, root.tree)
  {
    n, turns := Seek(root, key);
    BoundTurns(root.tree, turns);
  }

  method Seek(root: RbRoot, key: int) returns (n: RbNode?, ghost turns: nat)
    requires root.Valid() && Sorted(InOrder(root.tree))
    ensures n == null <==> !HasKey(root.tree, key)
    ensures n != null ==> n in Nodes(root.tree) && n.key == key
    ensures turns <= Height(root.tree)
  {
    ghost var ctx, t := Top, root.tree;
    root.Look(ctx, t);
    n, turns := root.node, 0;
    while n != null
      invariant root.Valid() && Searching(root.tree, ctx, t, key) && n == Ptr(t)
      invariant turns == Depth(ctx)
      decreases t
    {
      root.Look(ctx, t);
      PlugHeight(ctx, t);
      turns := turns + 1;
      var result := key - n.key;
      if result < 0 {
        SearchLeft(root.tree, ctx, t, key);
        n := n.left;
        ctx, t := InLeft(t.n, t.c, t.r, ctx), t.l;
      } else if result > 0 {
        SearchRight(root.tree, ctx, t, key);
        n := n.right;
        ctx, t := InRight(t.l, t.n, t.c, ctx), t.r;
      } else {
        SearchFinds(root.tree, ctx, t, key);
        return;
      }
    }
    SearchEnds(root.tree, ctx, key);
    PlugHeight(ctx, t);
  }

  /** The descent of add_to_timer_node, for a key that is not in the tree. */
  method Descend(root: RbRoot, key: int) returns (parent: RbNode?, atLeft: bool, ghost ctx: Ctx)
    requires root.Valid() && Sorted(InOrder(root.tree)) && !HasKey(root.tree, key)
    ensures root.Valid() && Searching(root.tree, ctx, Leaf, key)
    ensures parent == CtxPtr(ctx) && (ctx.InLeft? ==> atLeft) && (ctx.InRight? ==> !atLeft)
  {
    ghost var t := root.tree;
    ctx := Top;
    root.Look(ctx, t);
    var newer := root.node;
    parent, atLeft := null, false;
    while newer != null
      invariant root.Valid() && Searching(root.tree, ctx, t, key) && newer == Ptr(t)
      invariant parent == CtxPtr(ctx) && (ctx.InLeft? ==> atLeft) && (ctx.InRight? ==> !atLeft)
      decreases t
    {
      root.Look(ctx, t);
      assert newer.key != key;
      var result := key - newer.key;
      parent := newer;
      if result < 0 {
        SearchLeft(root.tree, ctx, t, key);
        newer, atLeft := newer.left, true;
        ctx, t := InLeft(t.n, t.c, t.r, ctx), t.l;
      } else {
        SearchRight(root.tree, ctx, t, key);
        newer, atLeft := newer.right, false;
        ctx, t := InRight(t.l, t.n, t.c, ctx), t.r;
      }
    }
  }

  /** add_to_timer_node: links a node with a new key and rebalances. */
  method AddNode(root: RbRoot, x: RbNode)
    requires root.Valid() && RedBlack(root.tree) && Sorted(InOrder(root.tree)) && !HasKey(root.tree, x.key)
    modifies root, x, Nodes(root.tree)
    ensures root.Valid() && RedBlack(root.tree) && Sorted(InOrder(root.tree))
    ensures Nodes(root.tree) == old(Nodes(root.tree)) + {x}
  {
    var parent, atLeft, ctx := Descend(root, x.key);
    assert x !in Nodes(root.tree);
    PutNode(root, x, parent, atLeft, ctx);
  }

  /** rb_link_node and rb_insert_color at any empty link: a red-black tree, in order exactly when the key belongs there. */
  method PutNode(root: RbRoot, x: RbNode, parent: RbNode?, atLeft: bool, ghost ctx: Ctx)
    requires root.Valid() && RedBlack(root.tree) && Sorted(InOrder(root.tree))
    requires root.tree == Plug(ctx, Leaf) && x !in Nodes(root.tree)
    requires parent == CtxPtr(ctx) && (ctx.InLeft? ==> atLeft) && (ctx.InRight? ==> !atLeft)
    modifies root, x, Nodes(root.tree)
    ensures root.Valid() && RedBlack(root.tree) && (Sorted(InOrder(root.tree)) <==> Between(ctx, x.key))
    ensures Nodes(root.tree) == old(Nodes(root.tree)) + {x}
  {
    LinkedSorted(ctx, x, Red);
    hide Sorted, InOrder, Between;
    root.LinkNode(x, parent, atLeft, ctx);
    root.InsertColor(x, ctx);
  }

  lemma RemovedSorted(a: seq<RbNode>, b: seq<RbNode>, i: nat, x: RbNode)
    requires Sorted(a) && Removed(a, b, i, x)
    ensures Sorted(b)
  {
  }

  /** rb_erase on an ordered tree. */
  method EraseNode(root: RbRoot, x: RbNode)
    requires root.Valid() && RedBlack(root.tree) && Sorted(InOrder(root.tree)) && x in Nodes(root.tree)
    modifies root, Nodes(root.tree)
    ensures root.Valid() && RedBlack(root.tree) && Sorted(InOrder(root.tree))
    ensures Nodes(root.tree) == old(Nodes(root.tree)) - {x}
  {
    ghost var i := root.Erase(x);
    RemovedSorted(old(InOrder(root.tree)), InOrder(root.tree), i, x);
  }

  // ---------------------------------------------------------------- the truncated comparison

  const TWO31 := 0x8000_0000
  const TWO32 := 0x1_0000_0000

  /** Storing a `long long` in an `int`, as src/coro/sched.c:140 does. */
  function Narrow(d: int): (r: int)
    ensures -TWO31 <= r < TWO31 && (d - r) % TWO32 == 0
  {
    (d + TWO31) % TWO32 - TWO31
  }

  /** The narrow comparison decides as the wide one does. */
  ghost predicate SameSign(d: int) {
    (Narrow(d) < 0 <==> d < 0) && (Narrow(d) > 0 <==> d > 0)
  }

  /** Exactly when: the distance, reduced to 32 bits, must fall in the half of the circle on its own side. */
  lemma NarrowExact(d: int)
    ensures SameSign(d) <==> d == 0 || (d > 0 && 0 < d % TWO32 < TWO31) || (d < 0 && d % TWO32 >= TWO31)
  {
  }

  /** So it does for deadlines less than 2^31 ms apart. */
  lemma NarrowAgrees(d: int)
    requires -TWO31 < d < TWO31
    ensures Narrow(d) == d && SameSign(d)
  {
  }

  /** Two deadlines 2^32 ms apart compare as equal. */
  lemma NarrowConfuses()
    ensures Narrow(TWO32) == 0 && !SameSign(TWO32)
  {
  }

  /** No comparison on the search path of `key` is changed by the narrowing. */
  ghost predicate PathAgrees(t: Tree, key: int) {
    t.Node? ==>
      && SameSign(key - t.n.key)
      && (key < t.n.key ==> PathAgrees(t.l, key)) && (key > t.n.key ==> PathAgrees(t.r, key))
  }

  lemma {:induction false} AllAgree(t: Tree, key: int)
    requires forall n :: n in Nodes(t) ==> SameSign(key - n.key)
    ensures PathAgrees(t, key)
  {
    if t.Node? {
      AllAgree(t.l, key);
      AllAgree(t.r, key);
    }
  }

  /** The node with the key, or the empty link where it belongs. */
  ghost predicate RightPlace(tree: Tree, key: int, found: RbNode?, ctx: Ctx) {
    if found != null then found.key == key else Searching(tree, ctx, Leaf, key)
  }

  lemma SortedAround(ctx: Ctx, t: Tree)
    requires Sorted(InOrder(Plug(ctx, t))) && t.Node?
    ensures Below(Before(ctx), t.n.key) && Above(After(ctx), t.n.key)
    ensures Below(InOrder(t.l), t.n.key) && Above(InOrder(t.r), t.n.key)
  {
    hide Before, After, Sorted;
    PlugInOrder(ctx, t);
    Regroup(Before(ctx), InOrder(t.l), t.n, InOrder(t.r), After(ctx));
    SortedParts(Before(ctx) + InOrder(t.l), t.n, InOrder(t.r) + After(ctx));
  }

  lemma Regroup(a: seq<RbNode>, l: seq<RbNode>, n: RbNode, r: seq<RbNode>, b: seq<RbNode>)
    ensures a + (l + [n] + r) + b == (a + l) + [n] + (r + b)
  {
  }

  lemma NoneAround(tree: Tree, key: int)
    ensures Between(Top, key) && Plug(Top, tree) == tree && Sorted(InOrder(Leaf))
  {
  }

  /** After a turn to either side `key` lies in the hole exactly if it did before and lies on that side. */
  lemma Turned(ctx: Ctx, t: Tree, key: int)
    requires Sorted(InOrder(Plug(ctx, t))) && t.Node?
    ensures Between(InLeft(t.n, t.c, t.r, ctx), key) <==> Between(ctx, key) && key < t.n.key
    ensures Between(InRight(t.l, t.n, t.c, ctx), key) <==> Between(ctx, key) && key > t.n.key
    ensures key == t.n.key ==> Between(ctx, key)
  {
    SortedAround(ctx, t);
    var a, b := InLeft(t.n, t.c, t.r, ctx), InRight(t.l, t.n, t.c, ctx);
    assert After(a) == [t.n] + InOrder(t.r) + After(ctx) && Before(a) == Before(ctx);
    assert Before(b) == Before(ctx) + InOrder(t.l) + [t.n] && After(b) == After(ctx);
  }

  /**
   * The descent of move_to_inactive_tree, with its narrow comparison: it ends in
   * the right place exactly when the narrowing changes no comparison on the path
   * that the full comparison takes.
   */
  method DescendNarrow(root: RbRoot, key: int)
    returns (found: RbNode?, parent: RbNode?, atLeft: bool, ghost ctx: Ctx, ghost turns: nat)
    requires root.Valid() && Sorted(InOrder(root.tree))
    ensures root.Valid() && turns <= Height(root.tree) && (RedBlack(root.tree) ==> FewTurns(turns, root.tree))
    ensures RightPlace(root.tree, key, found, ctx) <==> PathAgrees(root.tree, key)
    ensures PathAgrees(root.tree, key) ==> (found == null <==> !HasKey(root.tree, key))
    ensures found != null ==> found in Nodes(root.tree) && Narrow(key - found.key) == 0
    ensures found == null ==> root.tree == Plug(ctx, Leaf) && parent == CtxPtr(ctx)
    ensures found == null ==> (ctx.InLeft? ==> atLeft) && (ctx.InRight? ==> !atLeft)
  {
    NoneAround(root.tree, key);
    hide Sorted, InOrder, Between, Below, Above, Height, Nodes, Plug, RedBlack, FewTurns;
    ghost var t, tree := root.tree, root.tree;
    ctx, turns := Top, 0;
    root.Look(ctx, t);
    var newer := root.node;
    parent, atLeft := null, false;
    while newer != null
      invariant root.Valid() && root.tree == tree == Plug(ctx, t) && newer == Ptr(t) && turns == Depth(ctx)
      invariant Between(ctx, key) ==> (PathAgrees(tree, key) <==> PathAgrees(t, key))
      invariant !Between(ctx, key) ==> !PathAgrees(tree, key)
      invariant parent == CtxPtr(ctx) && (ctx.InLeft? ==> atLeft) && (ctx.InRight? ==> !atLeft)
      decreases t
    {
      root.Look(ctx, t);
      PlugHeight(ctx, t);
      Turned(ctx, t, key);
      turns := turns + 1;
      var timespan := Narrow(key - newer.key);
      parent := newer;
      if timespan < 0 {
        newer, atLeft := newer.left, true;
        ctx, t := InLeft(t.n, t.c, t.r, ctx), t.l;
      } else if timespan > 0 {
        newer, atLeft := newer.right, false;
        ctx, t := InRight(t.l, t.n, t.c, ctx), t.r;
      } else {
        PlugNodes(ctx, t);
        BoundTurns(tree, turns);
        return newer, parent, atLeft, ctx, turns;
      }
    }
    PlugHeight(ctx, t);
    BoundTurns(tree, turns);
    if Between(ctx, key) {
      SearchEnds(tree, ctx, key);
    }
    found := null;
  }

  // ---------------------------------------------------------------- a node linked at the wrong link

  /** What the full comparison finds in any tree. */
  ghost function Lookup(t: Tree, key: int): RbNode? {
    if t.Leaf? then null
    else if key < t.n.key then Lookup(t.l, key)
    else if key > t.n.key then Lookup(t.r, key)
    else t.n
  }

  lemma {:induction false} LookupInside(ctx: Ctx, t: Tree, key: int)
    requires Between(ctx, key)
    ensures Lookup(Plug(ctx, t), key) == Lookup(t, key)
    decreases ctx
  {
    match ctx
    case Top =>
    case InLeft(n, c, r, up) =>
      assert After(ctx) == [n] + InOrder(r) + After(up);
      LookupInside(up, Node(t, n, c, r), key);
    case InRight(l, n, c, up) =>
      assert Before(ctx) == Before(up) + InOrder(l) + [n];
      LookupInside(up, Node(l, n, c, t), key);
  }

  /** It never enters a subtree where the key does not belong. */
  lemma {:induction false} LookupOutside(ctx: Ctx, s: Tree, t: Tree, key: int)
    requires !Between(ctx, key) && Sorted(InOrder(Plug(ctx, s)))
    ensures Lookup(Plug(ctx, t), key) == Lookup(Plug(ctx, s), key)
    decreases ctx, 0
  {
    match ctx
    case Top => NoneAround(s, key);
    case InLeft(n, c, r, up) =>
      Turned(up, Node(s, n, c, r), key);
      OutsideUp(up, Node(s, n, c, r), Node(t, n, c, r), key);
    case InRight(l, n, c, up) =>
      Turned(up, Node(l, n, c, s), key);
      OutsideUp(up, Node(l, n, c, s), Node(l, n, c, t), key);
  }

  lemma {:induction false} OutsideUp(up: Ctx, s: Tree, t: Tree, key: int)
    requires Sorted(InOrder(Plug(up, s))) && (Between(up, key) ==> Lookup(s, key) == Lookup(t, key))
    ensures Lookup(Plug(up, t), key) == Lookup(Plug(up, s), key)
    decreases up, 1
  {
    if Between(up, key) {
      LookupInside(up, s, key);
      LookupInside(up, t, key);
    } else {
      LookupOutside(up, s, t, key);
    }
  }

  /** So find_timer_node finds a node just linked exactly when it was linked where its key belongs. */
  lemma LinkedFound(ctx: Ctx, x: RbNode, c: Color)
    requires Sorted(InOrder(Plug(ctx, Leaf))) && Lookup(Plug(ctx, Leaf), x.key) == null
    ensures Lookup(Plug(ctx, Node(Leaf, x, c, Leaf)), x.key) == (if Between(ctx, x.key) then x else null)
  {
    if Between(ctx, x.key) {
      LookupInside(ctx, Node(Leaf, x, c, Leaf), x.key);
    } else {
      LookupOutside(ctx, Leaf, Node(Leaf, x, c, Leaf), x.key);
    }
  }
}
