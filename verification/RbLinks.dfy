/**
 * How linked nodes spell out a shape. A `Links` value is a snapshot of the
 * fields of a set of nodes, so that what a few field writes do to the shape is
 * a fact about maps, independent of the heap.
 */
module RbLinks {
  import opened RbShape

  /** The fields of one node. */
  datatype Fields = Fields(left: RbNode?, right: RbNode?, parent: RbNode?, color: Color)

  type Links = map<RbNode, Fields>

  ghost function Snap(s: set<RbNode>): Links
    reads s
  {
    map n | n in s :: Fields(n.left, n.right, n.parent, n.color)
  }

  /** In `h` the links below and including `t`'s root spell out `t`, hanging from `p`. */
  ghost predicate Rep(h: Links, t: Tree, p: RbNode?) {
    match t
    case Leaf => true
    case Node(l, n, c, r) =>
      n in h && h[n] == Fields(Ptr(l), Ptr(r), p, c) && Rep(h, l, n) && Rep(h, r, n)
  }

  /** In `h` the links around a hole filled by `x` spell out `ctx`. */
  ghost predicate RepCtx(h: Links, ctx: Ctx, x: RbNode?) {
    match ctx
    case Top => true
    case InLeft(n, c, r, up) =>
      n in h && h[n] == Fields(x, Ptr(r), CtxPtr(up), c) && Rep(h, r, n) && RepCtx(h, up, n)
    case InRight(l, n, c, up) =>
      n in h && h[n] == Fields(Ptr(l), x, CtxPtr(up), c) && Rep(h, l, n) && RepCtx(h, up, n)
  }

  /** `k` still holds what `h` holds about the nodes of `s`. */
  ghost predicate Agree(h: Links, k: Links, s: set<RbNode>) {
    forall n :: n in s && n in h ==> n in k && k[n] == h[n]
  }

  lemma {:induction false} RepFrame(h: Links, k: Links, t: Tree, p: RbNode?)
    requires Rep(h, t, p) && Agree(h, k, Nodes(t))
    ensures Rep(k, t, p)
  {
    if t.Node? {
      RepFrame(h, k, t.l, t.n);
      RepFrame(h, k, t.r, t.n);
    }
  }

  lemma {:induction false} RepCtxFrame(h: Links, k: Links, ctx: Ctx, x: RbNode?)
    requires RepCtx(h, ctx, x) && Agree(h, k, CtxNodes(ctx))
    ensures RepCtx(k, ctx, x)
  {
    match ctx
    case Top =>
    case InLeft(n, c, r, up) => RepFrame(h, k, r, n); RepCtxFrame(h, k, up, n);
    case InRight(l, n, c, up) => RepFrame(h, k, l, n); RepCtxFrame(h, k, up, n);
  }

  /** Only the parent link of the subtree's root changes: rb_set_parent. */
  lemma Reparent(h: Links, k: Links, t: Tree, q: RbNode?, p: RbNode?)
    requires Sep(t) && Rep(h, t, q)
    requires t.Node? ==> t.n in k && k[t.n] == h[t.n].(parent := p) && Agree(h, k, Nodes(t) - {t.n})
    ensures Rep(k, t, p)
  {
  }

  /** Rewrites a parent's link to its child `x`, as rbtree.c:17-20, 39-42, 187-190, 223-226 do. */
  function ChildReplaced(f: Fields, x: RbNode, y: RbNode?): Fields {
    if f.left == x then f.(left := y) else f.(right := y)
  }

  /** Only the link into the hole changes. */
  lemma Refill(h: Links, k: Links, ctx: Ctx, x: RbNode, y: RbNode?)
    requires SepCtx(ctx) && x !in CtxNodes(ctx) && RepCtx(h, ctx, x)
    requires !ctx.Top? ==>
      ctx.n in k && k[ctx.n] == ChildReplaced(h[ctx.n], x, y) && Agree(h, k, CtxNodes(ctx) - {ctx.n})
    ensures RepCtx(k, ctx, y)
  {
    match ctx
    case Top =>
    case InLeft(n, c, r, up) => RepFrame(h, k, r, n); RepCtxFrame(h, k, up, n);
    case InRight(l, n, c, up) => RepFrame(h, k, l, n); RepCtxFrame(h, k, up, n);
  }

  lemma {:induction false} PlugRep(h: Links, ctx: Ctx, t: Tree)
    ensures Rep(h, Plug(ctx, t), null) <==> Rep(h, t, CtxPtr(ctx)) && RepCtx(h, ctx, Ptr(t))
    decreases ctx
  {
    match ctx
    case Top =>
    case InLeft(n, c, r, up) => PlugRep(h, up, Node(t, n, c, r));
    case InRight(l, n, c, up) => PlugRep(h, up, Node(l, n, c, t));
  }

  /** The root pointer does not depend on what fills a hole below it. */
  lemma {:induction false} PtrPlug(ctx: Ctx, t: Tree, u: Tree)
    ensures !ctx.Top? ==> Ptr(Plug(ctx, t)) == Ptr(Plug(ctx, u))
    decreases ctx
  {
    match ctx
    case Top =>
    case InLeft(n, c, r, up) => PtrPlug(up, Node(t, n, c, r), Node(u, n, c, r));
    case InRight(l, n, c, up) => PtrPlug(up, Node(l, n, c, t), Node(l, n, c, u));
  }

  /** The memory `h` with root pointer `root` spells out `tree`. */
  ghost predicate Spells(h: Links, root: RbNode?, tree: Tree) {
    Sep(tree) && Rep(h, tree, null) && root == Ptr(tree)
  }

  /** What the links say at one position. */
  lemma View(h: Links, root: RbNode?, ctx: Ctx, t: Tree)
    requires Spells(h, root, Plug(ctx, t))
    ensures t.Node? ==> t.n in h && h[t.n] == Fields(Ptr(t.l), Ptr(t.r), CtxPtr(ctx), t.c)
    ensures ctx.InLeft? ==> ctx.n in h && h[ctx.n] == Fields(Ptr(t), Ptr(ctx.r), CtxPtr(ctx.up), ctx.c)
    ensures ctx.InRight? ==> ctx.n in h && h[ctx.n] == Fields(Ptr(ctx.l), Ptr(t), CtxPtr(ctx.up), ctx.c)
    ensures ctx.InLeft? && t.Node? ==> Ptr(ctx.r) != Ptr(t)
    ensures ctx.InRight? && t.Node? ==> Ptr(ctx.l) != Ptr(t)
    ensures ctx.Top? <==> root == Ptr(t)
  {
    PlugNodes(ctx, t);
    PlugRep(h, ctx, t);
    PlugRoot(ctx, t);
  }

  lemma Split(h: Links, root: RbNode?, ctx: Ctx, t: Tree)
    requires Spells(h, root, Plug(ctx, t))
    ensures Sep(t) && SepCtx(ctx) && Nodes(t) !! CtxNodes(ctx)
    ensures Rep(h, t, CtxPtr(ctx)) && RepCtx(h, ctx, Ptr(t))
    ensures root == if ctx.Top? then Ptr(t) else Ptr(Plug(ctx, Leaf))
  {
    PlugNodes(ctx, t);
    PlugRep(h, ctx, t);
    PtrPlug(ctx, t, Leaf);
  }

  lemma Join(k: Links, root: RbNode?, ctx: Ctx, u: Tree)
    requires Sep(u) && SepCtx(ctx) && Nodes(u) !! CtxNodes(ctx)
    requires Rep(k, u, CtxPtr(ctx)) && RepCtx(k, ctx, Ptr(u))
    requires root == if ctx.Top? then Ptr(u) else Ptr(Plug(ctx, Leaf))
    ensures Spells(k, root, Plug(ctx, u))
  {
    PlugNodes(ctx, u);
    PlugRep(k, ctx, u);
    PtrPlug(ctx, u, Leaf);
  }

  lemma SameOrder(ctx: Ctx, t: Tree, u: Tree)
    requires InOrder(t) == InOrder(u) && Nodes(t) == Nodes(u)
    ensures InOrder(Plug(ctx, t)) == InOrder(Plug(ctx, u))
    ensures Nodes(Plug(ctx, t)) == Nodes(Plug(ctx, u))
  {
  }

  // ---------------------------------------------------------------- recolouring

  lemma Recolored(h: Links, k: Links, root: RbNode?, ctx: Ctx, t: Tree, c: Color)
    requires Spells(h, root, Plug(ctx, t)) && t.Node? && t.n in h
    requires k.Keys == h.Keys && k[t.n] == h[t.n].(color := c)
    requires forall n :: n in h && n != t.n ==> k[n] == h[n]
    ensures Spells(k, root, Plug(ctx, t.(c := c)))
    ensures InOrder(Plug(ctx, t.(c := c))) == InOrder(Plug(ctx, t))
    ensures Nodes(Plug(ctx, t.(c := c))) == Nodes(Plug(ctx, t))
  {
    Split(h, root, ctx, t);
    RepFrame(h, k, t.l, t.n);
    RepFrame(h, k, t.r, t.n);
    RepCtxFrame(h, k, ctx, t.n);
    Join(k, root, ctx, t.(c := c));
    SameOrder(ctx, t, t.(c := c));
  }

  // ---------------------------------------------------------------- rotations

  /** The writes of __rb_rotate_left at `x`, whose right child is `y` with left child `b`. */
  ghost predicate LeftRotation(h: Links, k: Links, x: RbNode, y: RbNode, b: RbNode?, p: RbNode?) {
    && x in h && x in k && k[x] == h[x].(right := b, parent := y)
    && y in h && y in k && k[y] == h[y].(left := x, parent := p)
    && (b != null ==> b in h && b in k && k[b] == h[b].(parent := x))
    && (p != null ==> p in h && p in k && k[p] == ChildReplaced(h[p], x, y))
    && forall n :: n in h && n != x && n != y && n != b && n != p ==> n in k && k[n] == h[n]
  }

  /** The writes of __rb_rotate_right at `x`, whose left child is `y` with right child `b`. */
  ghost predicate RightRotation(h: Links, k: Links, x: RbNode, y: RbNode, b: RbNode?, p: RbNode?) {
    && x in h && x in k && k[x] == h[x].(left := b, parent := y)
    && y in h && y in k && k[y] == h[y].(right := x, parent := p)
    && (b != null ==> b in h && b in k && k[b] == h[b].(parent := x))
    && (p != null ==> p in h && p in k && k[p] == ChildReplaced(h[p], x, y))
    && forall n :: n in h && n != x && n != y && n != b && n != p ==> n in k && k[n] == h[n]
  }

  lemma LeftRotationSpells(h: Links, k: Links, root: RbNode?, ctx: Ctx, t: Tree)
    requires Spells(h, root, Plug(ctx, t)) && t.Node? && t.r.Node?
    requires LeftRotation(h, k, t.n, t.r.n, Ptr(t.r.l), CtxPtr(ctx))
    ensures Spells(k, if ctx.Top? then t.r.n else root, Plug(ctx, RotatedLeft(t)))
    ensures InOrder(Plug(ctx, RotatedLeft(t))) == InOrder(Plug(ctx, t))
    ensures Nodes(Plug(ctx, RotatedLeft(t))) == Nodes(Plug(ctx, t))
  {
    Split(h, root, ctx, t);
    LeftRotationLocal(h, k, ctx, t);
    Join(k, if ctx.Top? then t.r.n else root, ctx, RotatedLeft(t));
    SameOrder(ctx, t, RotatedLeft(t));
  }

  lemma LeftRotationLocal(h: Links, k: Links, ctx: Ctx, t: Tree)
    requires t.Node? && t.r.Node? && Sep(t) && SepCtx(ctx) && Nodes(t) !! CtxNodes(ctx)
    requires Rep(h, t, CtxPtr(ctx)) && RepCtx(h, ctx, t.n)
    requires LeftRotation(h, k, t.n, t.r.n, Ptr(t.r.l), CtxPtr(ctx))
    ensures Rep(k, RotatedLeft(t), CtxPtr(ctx)) && RepCtx(k, ctx, t.r.n) && Sep(RotatedLeft(t))
  {
    var x, y := t.n, t.r.n;
    var a, b, d := t.l, t.r.l, t.r.r;
    assert Sep(t.r) && Rep(h, t.r, x);
    RepFrame(h, k, a, x);
    RepFrame(h, k, d, y);
    Reparent(h, k, b, y, x);
    Refill(h, k, ctx, x, y);
  }

  lemma RightRotationSpells(h: Links, k: Links, root: RbNode?, ctx: Ctx, t: Tree)
    requires Spells(h, root, Plug(ctx, t)) && t.Node? && t.l.Node?
    requires RightRotation(h, k, t.n, t.l.n, Ptr(t.l.r), CtxPtr(ctx))
    ensures Spells(k, if ctx.Top? then t.l.n else root, Plug(ctx, RotatedRight(t)))
    ensures InOrder(Plug(ctx, RotatedRight(t))) == InOrder(Plug(ctx, t))
    ensures Nodes(Plug(ctx, RotatedRight(t))) == Nodes(Plug(ctx, t))
  {
    Split(h, root, ctx, t);
    RightRotationLocal(h, k, ctx, t);
    Join(k, if ctx.Top? then t.l.n else root, ctx, RotatedRight(t));
    SameOrder(ctx, t, RotatedRight(t));
  }

  lemma RightRotationLocal(h: Links, k: Links, ctx: Ctx, t: Tree)
    requires t.Node? && t.l.Node? && Sep(t) && SepCtx(ctx) && Nodes(t) !! CtxNodes(ctx)
    requires Rep(h, t, CtxPtr(ctx)) && RepCtx(h, ctx, t.n)
    requires RightRotation(h, k, t.n, t.l.n, Ptr(t.l.r), CtxPtr(ctx))
    ensures Rep(k, RotatedRight(t), CtxPtr(ctx)) && RepCtx(k, ctx, t.l.n) && Sep(RotatedRight(t))
  {
    var x, y := t.n, t.l.n;
    var a, b, d := t.l.l, t.l.r, t.r;
    assert Sep(t.l) && Rep(h, t.l, x);
    RepFrame(h, k, a, y);
    RepFrame(h, k, d, x);
    Reparent(h, k, b, y, x);
    Refill(h, k, ctx, x, y);
  }

  /** The nodes a rotation touches are there, and are different nodes. */
  lemma RotationApart(h: Links, root: RbNode?, ctx: Ctx, t: Tree)
    requires Spells(h, root, Plug(ctx, t)) && t.Node?
    ensures t.n in h && h[t.n] == Fields(Ptr(t.l), Ptr(t.r), CtxPtr(ctx), t.c)
    ensures t.l.Node? ==> Apart(h, t.n, t.l.n, Ptr(t.l.r), CtxPtr(ctx)) && h[t.l.n].right == Ptr(t.l.r)
    ensures t.r.Node? ==> Apart(h, t.n, t.r.n, Ptr(t.r.l), CtxPtr(ctx)) && h[t.r.n].left == Ptr(t.r.l)
    ensures !ctx.Top? ==> ctx.n in h && (h[ctx.n].left == t.n) != (h[ctx.n].right == t.n)
    ensures ctx.Top? <==> root == t.n
  {
    Split(h, root, ctx, t);
    View(h, root, ctx, t);
    assert Rep(h, t.l, t.n) && Rep(h, t.r, t.n);
    assert t.l.Node? ==> Rep(h, t.l.r, t.l.n);
    assert t.r.Node? ==> Rep(h, t.r.l, t.r.n);
  }

  ghost predicate Apart(h: Links, x: RbNode, y: RbNode, b: RbNode?, p: RbNode?) {
    && y in h && x != y
    && (b != null ==> b in h && b != x && b != y)
    && (p != null ==> p in h && p != x && p != y && p != b)
  }

  // ---------------------------------------------------------------- linking a new node

  lemma LinkedSpells(h: Links, k: Links, root: RbNode?, ctx: Ctx, x: RbNode)
    requires Spells(h, root, Plug(ctx, Leaf)) && x !in Nodes(Plug(ctx, Leaf))
    requires x in k && k[x] == Fields(null, null, CtxPtr(ctx), Red)
    requires !ctx.Top? ==> ctx.n in h && ctx.n in k
    requires ctx.InLeft? ==> k[ctx.n] == h[ctx.n].(left := x)
    requires ctx.InRight? ==> k[ctx.n] == h[ctx.n].(right := x)
    requires forall n :: n in h && n != x && n != CtxPtr(ctx) ==> n in k && k[n] == h[n]
    ensures Spells(k, if ctx.Top? then x else root, Plug(ctx, Node(Leaf, x, Red, Leaf)))
    ensures Nodes(Plug(ctx, Node(Leaf, x, Red, Leaf))) == Nodes(Plug(ctx, Leaf)) + {x}
  {
    var u := Node(Leaf, x, Red, Leaf);
    Split(h, root, ctx, Leaf);
    PlugNodes(ctx, Leaf);
    PlugNodes(ctx, u);
    match ctx {
      case Top =>
      case InLeft(n, c, r, up) => RepFrame(h, k, r, n); RepCtxFrame(h, k, up, n);
      case InRight(l, n, c, up) => RepFrame(h, k, l, n); RepCtxFrame(h, k, up, n);
    }
    Join(k, if ctx.Top? then x else root, ctx, u);
  }

  // ---------------------------------------------------------------- taking a node out

  /** rbtree.c:219-228: the writes that put the only child `u` of `x` in its place below `p`. */
  ghost predicate SpliceMove(h: Links, k: Links, x: RbNode, u: RbNode?, p: RbNode?) {
    && (u != null ==> u in k && u in h && k[u] == h[u].(parent := p))
    && (p != null ==> p in k && p in h && k[p] == ChildReplaced(h[p], x, u))
    && forall n :: n in h && n != u && n != p && n != x ==> n in k && k[n] == h[n]
  }

  lemma SplicedSpells(h: Links, k: Links, root: RbNode?, ctx: Ctx, t: Tree, u: Tree)
    requires Spells(h, root, Plug(ctx, t)) && t.Node?
    requires (t.l.Leaf? && u == t.r) || (t.r.Leaf? && u == t.l)
    requires SpliceMove(h, k, t.n, Ptr(u), CtxPtr(ctx))
    ensures Spells(k, if ctx.Top? then Ptr(u) else root, Plug(ctx, u))
    ensures Nodes(Plug(ctx, u)) == Nodes(Plug(ctx, t)) - {t.n}
  {
    Split(h, root, ctx, t);
    Reparent(h, k, u, t.n, CtxPtr(ctx));
    Refill(h, k, ctx, t.n, Ptr(u));
    Join(k, if ctx.Top? then Ptr(u) else root, ctx, u);
    PlugNodes(ctx, t);
    PlugNodes(ctx, u);
  }

  /** The outermost node of a context. */
  ghost function SpineTop(mid: Ctx): RbNode
    requires !mid.Top?
  {
    if mid.up.Top? then mid.n else SpineTop(mid.up)
  }

  /** What the writes do to the nodes between the erased node and its successor. */
  ghost predicate SpineMoved(h: Links, k: Links, mid: Ctx, y: RbNode?, s: RbNode)
    requires !mid.Top?
  {
    && mid.n in h && mid.n in k && k[mid.n].left == y
    && forall n :: n in CtxNodes(mid) ==>
        && n in h && n in k && k[n].right == h[n].right && k[n].color == h[n].color
        && (n != mid.n ==> k[n].left == h[n].left)
        && k[n].parent == if n == SpineTop(mid) then s else h[n].parent
  }

  lemma SpineTopIn(mid: Ctx)
    requires !mid.Top?
    ensures SpineTop(mid) in CtxNodes(mid)
  {
  }

  lemma {:induction false} SpineRep(h: Links, k: Links, mid: Ctx, outer: Ctx, outer': Ctx, x: RbNode?, y: RbNode?)
    requires !mid.Top? && LeftSpine(mid) && SepCtx(mid) && !outer.Top? && !outer'.Top?
    requires RepCtx(h, Append(mid, outer), x) && SpineMoved(h, k, mid, y, outer'.n)
    requires RepCtx(k, outer', SpineTop(mid))
    ensures RepCtx(k, Append(mid, outer'), y)
  {
    SpineTopIn(mid);
    if mid.up.Top? {
      RepFrame(h, k, mid.r, mid.n);
    } else {
      SpineTopIn(mid.up);
      assert RepCtx(h, Append(mid.up, outer), mid.n) && mid.up.n in CtxNodes(mid);
      assert SpineMoved(h, k, mid.up, mid.n, outer'.n);
      SpineRep(h, k, mid.up, outer, outer', mid.n, mid.n);
      RepFrame(h, k, mid.r, mid.n);
    }
  }

  /** The nodes the successor move touches: there, and different unless the source tests for it. */
  ghost predicate SuccessorApart(h: Links, x: RbNode, s: RbNode, l: RbNode, r: RbNode, p: RbNode?, q: RbNode, d: RbNode?) {
    && x in h && s in h && l in h && r in h && q in h && h[s].left == null
    && h[x].left == l && h[x].right == r && h[x].parent == p && h[s].parent == q && h[s].right == d
    && (d != null ==> d in h && d != x && d != s && d != l && d != r && d != q && d != p)
    && (p != null ==> p in h && p != x && p != s && p != l && p != r && p != q)
    && (p != null ==> (h[p].left == x) != (h[p].right == x))
    && x != s && l != x && l != s && l != r && l != q && r != x
    && (q == x <==> s == r) && q != s
  }

  /** rbtree.c:186-211: the writes that put the successor `s` in the place of `x`. */
  ghost predicate SuccessorMove(h: Links, k: Links, x: RbNode, s: RbNode, l: RbNode, r: RbNode, p: RbNode?, q: RbNode, d: RbNode?)
    requires x in h
  {
    && s in k && k[s] == Fields(l, if q == x then d else r, p, h[x].color)
    && l in h && l in k && k[l] == h[l].(parent := s)
    && (p != null ==> p in h && p in k && k[p] == ChildReplaced(h[p], x, s))
    && (q != x ==>
         && (d != null ==> d in h && d in k && k[d] == h[d].(parent := q))
         && q in h && q in k && k[q] == h[q].(left := d, parent := if q == r then s else h[q].parent)
         && r in h && r in k && k[r] == h[r].(parent := s, left := if q == r then d else h[r].left))
    && forall n :: n in h && n != s && n != l && n != p && (q != x ==> n != d && n != q && n != r) ==> n in k && k[n] == h[n]
  }

  /** The pieces around a node `x` with two children and its successor `s`. */
  ghost function TwoChild(ctx: Ctx, l: Tree, x: RbNode, c: Color, mid: Ctx): Ctx {
    Append(mid, InRight(l, x, c, ctx))
  }

  lemma SuccessorSplit(h: Links, root: RbNode?, ctx: Ctx, l: Tree, x: RbNode, c: Color, mid: Ctx, t: Tree)
    requires Spells(h, root, Plug(TwoChild(ctx, l, x, c, mid), t)) && LeftSpine(mid) && l.Node?
    ensures Sep(t) && Sep(l) && SepCtx(mid) && SepCtx(ctx)
    ensures Nodes(t) !! Nodes(l) && Nodes(t) !! CtxNodes(mid) && Nodes(t) !! CtxNodes(ctx)
    ensures Nodes(l) !! CtxNodes(mid) && Nodes(l) !! CtxNodes(ctx) && CtxNodes(mid) !! CtxNodes(ctx)
    ensures x !in Nodes(t) && x !in Nodes(l) && x !in CtxNodes(mid) && x !in CtxNodes(ctx)
    ensures Rep(h, t, CtxPtr(TwoChild(ctx, l, x, c, mid))) && RepCtx(h, TwoChild(ctx, l, x, c, mid), Ptr(t))
    ensures RepCtx(h, InRight(l, x, c, ctx), if mid.Top? then Ptr(t) else SpineTop(mid))
    ensures root == if ctx.Top? then x else Ptr(Plug(ctx, Leaf))
  {
    var outer := InRight(l, x, c, ctx);
    Split(h, root, TwoChild(ctx, l, x, c, mid), t);
    AppendNodes(mid, outer);
    AppendRep(h, mid, outer, Ptr(t));
    SpinePtr(ctx, l, x, c, mid, t);
  }

  lemma {:induction false} AppendRep(h: Links, mid: Ctx, outer: Ctx, y: RbNode?)
    requires RepCtx(h, Append(mid, outer), y)
    ensures RepCtx(h, outer, if mid.Top? then y else SpineTop(mid))
  {
    if !mid.Top? { AppendRep(h, mid.up, outer, mid.n); }
  }

  /** The right child of `x`, above its successor `s`. */
  ghost function SpineRoot(mid: Ctx, s: RbNode): RbNode {
    if mid.Top? then s else SpineTop(mid)
  }

  /** The parent of the successor of `x`. */
  ghost function SpineEnd(mid: Ctx, x: RbNode): RbNode {
    if mid.Top? then x else mid.n
  }

  lemma SuccessorOuter(h: Links, k: Links, root: RbNode?, ctx: Ctx, l: Tree, x: RbNode, c: Color, mid: Ctx, t: Tree)
    requires Spells(h, root, Plug(TwoChild(ctx, l, x, c, mid), t)) && LeftSpine(mid) && l.Node? && t.Node? && t.l.Leaf?
    requires x in h && SuccessorMove(h, k, x, t.n, l.n, SpineRoot(mid, t.n), CtxPtr(ctx), SpineEnd(mid, x), Ptr(t.r))
    ensures RepCtx(k, InRight(l, t.n, c, ctx), if mid.Top? then Ptr(t.r) else SpineTop(mid))
  {
    SuccessorSplit(h, root, ctx, l, x, c, mid, t);
    if !mid.Top? { SpineTopIn(mid); }
    Reparent(h, k, l, x, t.n);
    Refill(h, k, ctx, x, t.n);
  }

  lemma SpineMovedBy(h: Links, k: Links, mid: Ctx, x: RbNode, s: RbNode, l: RbNode, p: RbNode?, d: RbNode?)
    requires !mid.Top? && x in h && SuccessorMove(h, k, x, s, l, SpineTop(mid), p, mid.n, d)
    requires forall n :: n in CtxNodes(mid) ==> n in h && n != s && n != l && n != p && n != d && n != x
    ensures SpineMoved(h, k, mid, d, s)
  {
  }

  lemma SuccessorChild(h: Links, k: Links, x: RbNode, s: RbNode, l: RbNode, r: RbNode, p: RbNode?, q: RbNode, d: Tree)
    requires x in h && q != x && SuccessorMove(h, k, x, s, l, r, p, q, Ptr(d)) && Sep(d) && Rep(h, d, s)
    requires forall n :: n in Nodes(d) ==> n != s && n != l && n != p && n != q && n != r
    ensures Rep(k, d, q)
  {
    Reparent(h, k, d, s, q);
  }

  lemma SuccessorInner(h: Links, k: Links, root: RbNode?, ctx: Ctx, l: Tree, x: RbNode, c: Color, mid: Ctx, t: Tree)
    requires Spells(h, root, Plug(TwoChild(ctx, l, x, c, mid), t)) && LeftSpine(mid) && l.Node? && t.Node? && t.l.Leaf?
    requires x in h && SuccessorMove(h, k, x, t.n, l.n, SpineRoot(mid, t.n), CtxPtr(ctx), SpineEnd(mid, x), Ptr(t.r))
    requires !mid.Top?
    ensures Rep(k, t.r, mid.n) && SpineMoved(h, k, mid, Ptr(t.r), t.n) && SepCtx(mid)
    ensures RepCtx(h, TwoChild(ctx, l, x, c, mid), t.n)
  {
    SuccessorSplit(h, root, ctx, l, x, c, mid, t);
    SpineTopIn(mid);
    assert l.n in Nodes(l) && mid.n in CtxNodes(mid);
    SuccessorChild(h, k, x, t.n, l.n, SpineTop(mid), CtxPtr(ctx), mid.n, t.r);
    SpineHere(h, mid, InRight(l, x, c, ctx), t.n);
    SpineMovedBy(h, k, mid, x, t.n, l.n, CtxPtr(ctx), Ptr(t.r));
  }

  lemma {:induction false} SpineHere(h: Links, mid: Ctx, outer: Ctx, y: RbNode?)
    requires RepCtx(h, Append(mid, outer), y)
    ensures forall n :: n in CtxNodes(mid) ==> n in h
  {
    match mid
    case Top =>
    case InLeft(n, c, r, up) => NodesHere(h, r, n); SpineHere(h, up, outer, n);
    case InRight(l, n, c, up) => NodesHere(h, l, n); SpineHere(h, up, outer, n);
  }

  lemma {:induction false} NodesHere(h: Links, t: Tree, p: RbNode?)
    requires Rep(h, t, p)
    ensures forall n :: n in Nodes(t) ==> n in h
  {
    if t.Node? { NodesHere(h, t.l, t.n); NodesHere(h, t.r, t.n); }
  }

  lemma SuccessorLinks(h: Links, k: Links, root: RbNode?, ctx: Ctx, l: Tree, x: RbNode, c: Color, mid: Ctx, t: Tree)
    requires Spells(h, root, Plug(TwoChild(ctx, l, x, c, mid), t)) && LeftSpine(mid) && l.Node? && t.Node? && t.l.Leaf?
    requires x in h && SuccessorMove(h, k, x, t.n, l.n, SpineRoot(mid, t.n), CtxPtr(ctx), SpineEnd(mid, x), Ptr(t.r))
    ensures Rep(k, t.r, CtxPtr(TwoChild(ctx, l, t.n, c, mid))) && RepCtx(k, TwoChild(ctx, l, t.n, c, mid), Ptr(t.r))
  {
    SuccessorOuter(h, k, root, ctx, l, x, c, mid, t);
    if mid.Top? {
      SuccessorSplit(h, root, ctx, l, x, c, mid, t);
      RepFrame(h, k, t.r, t.n);
    } else {
      SuccessorInner(h, k, root, ctx, l, x, c, mid, t);
      SpineRep(h, k, mid, InRight(l, x, c, ctx), InRight(l, t.n, c, ctx), t.n, Ptr(t.r));
    }
  }

  /** The successor move at the level of shapes. */
  lemma SuccessorSpells(h: Links, k: Links, root: RbNode?, ctx: Ctx, l: Tree, x: RbNode, c: Color, mid: Ctx, t: Tree)
    requires Spells(h, root, Plug(TwoChild(ctx, l, x, c, mid), t)) && LeftSpine(mid) && l.Node? && t.Node? && t.l.Leaf?
    requires x in h && SuccessorMove(h, k, x, t.n, l.n, SpineRoot(mid, t.n), CtxPtr(ctx), SpineEnd(mid, x), Ptr(t.r))
    ensures Spells(k, if ctx.Top? then t.n else root, Plug(TwoChild(ctx, l, t.n, c, mid), t.r))
  {
    SuccessorLinks(h, k, root, ctx, l, x, c, mid, t);
    SuccessorSep(h, root, ctx, l, x, c, mid, t);
    SpinePtr(ctx, l, t.n, c, mid, t.r);
    JoinAt(k, if ctx.Top? then t.n else root, TwoChild(ctx, l, t.n, c, mid), t.r);
  }

  lemma SuccessorSep(h: Links, root: RbNode?, ctx: Ctx, l: Tree, x: RbNode, c: Color, mid: Ctx, t: Tree)
    requires Spells(h, root, Plug(TwoChild(ctx, l, x, c, mid), t)) && LeftSpine(mid) && l.Node? && t.Node? && t.l.Leaf?
    ensures var ctx' := TwoChild(ctx, l, t.n, c, mid); Sep(t.r) && SepCtx(ctx') && Nodes(t.r) !! CtxNodes(ctx')
    ensures root == if ctx.Top? then x else Ptr(Plug(ctx, Leaf))
  {
    SuccessorSplit(h, root, ctx, l, x, c, mid, t);
    AppendNodes(mid, InRight(l, t.n, c, ctx));
    SpinePtr(ctx, l, x, c, mid, t);
  }

  lemma SuccessorNodes(h: Links, root: RbNode?, ctx: Ctx, l: Tree, x: RbNode, c: Color, mid: Ctx, t: Tree)
    requires Spells(h, root, Plug(TwoChild(ctx, l, x, c, mid), t)) && LeftSpine(mid) && l.Node? && t.Node? && t.l.Leaf?
    ensures Nodes(Plug(TwoChild(ctx, l, t.n, c, mid), t.r)) == Nodes(Plug(TwoChild(ctx, l, x, c, mid), t)) - {x}
  {
    SuccessorSplit(h, root, ctx, l, x, c, mid, t);
    NodesAround(ctx, l, x, c, mid, t);
    NodesAround(ctx, l, t.n, c, mid, t.r);
    MinusOne(x, t.n, Nodes(l), Nodes(t.r), CtxNodes(mid), CtxNodes(ctx));
  }

  lemma MinusOne(x: RbNode, s: RbNode, l: set<RbNode>, d: set<RbNode>, m: set<RbNode>, c: set<RbNode>)
    requires x !in l && x !in d && x !in m && x !in c && x != s
    ensures {s} + l + d + m + c == {x} + l + ({s} + {} + d) + m + c - {x}
  {
  }

  lemma NodesAround(ctx: Ctx, l: Tree, x: RbNode, c: Color, mid: Ctx, t: Tree)
    ensures Nodes(Plug(TwoChild(ctx, l, x, c, mid), t)) == {x} + Nodes(l) + Nodes(t) + CtxNodes(mid) + CtxNodes(ctx)
  {
    AppendNodes(mid, InRight(l, x, c, ctx));
    PlugNodes(TwoChild(ctx, l, x, c, mid), t);
  }

  lemma SpinePtr(ctx: Ctx, l: Tree, s: RbNode, c: Color, mid: Ctx, d: Tree)
    ensures Ptr(Plug(TwoChild(ctx, l, s, c, mid), d)) == if ctx.Top? then s else Ptr(Plug(ctx, Leaf))
  {
    AppendPlug(mid, InRight(l, s, c, ctx), d);
    PtrPlug(ctx, Node(l, s, c, Plug(mid, d)), Leaf);
  }

  lemma JoinAt(k: Links, root: RbNode?, ctx: Ctx, u: Tree)
    requires Sep(u) && SepCtx(ctx) && Nodes(u) !! CtxNodes(ctx)
    requires Rep(k, u, CtxPtr(ctx)) && RepCtx(k, ctx, Ptr(u)) && root == Ptr(Plug(ctx, u))
    ensures Spells(k, root, Plug(ctx, u))
  {
  }

  lemma SuccessorView(h: Links, root: RbNode?, ctx: Ctx, l: Tree, x: RbNode, c: Color, mid: Ctx, t: Tree)
    requires Spells(h, root, Plug(TwoChild(ctx, l, x, c, mid), t)) && LeftSpine(mid) && l.Node? && t.Node? && t.l.Leaf?
    ensures SuccessorApart(h, x, t.n, l.n, SpineRoot(mid, t.n), CtxPtr(ctx), SpineEnd(mid, x), Ptr(t.r))
    ensures h[x].color == c && h[t.n].color == t.c && (ctx.Top? <==> root == x)
  {
    SuccessorSplit(h, root, ctx, l, x, c, mid, t);
    if !mid.Top? {
      SpineTopIn(mid);
      SpineHere(h, mid, InRight(l, x, c, ctx), t.n);
    }
    assert l.n in Nodes(l) && t.n in Nodes(t);
    assert t.r.Node? ==> t.r.n in Nodes(t);
    SpineRootPtr(ctx, l, x, c, mid, t);
  }

  lemma SuccessorParent(h: Links, root: RbNode?, ctx: Ctx, l: Tree, x: RbNode, c: Color, mid: Ctx, t: Tree)
    requires Spells(h, root, Plug(TwoChild(ctx, l, x, c, mid), t)) && LeftSpine(mid) && l.Node?
    ensures !mid.Top? ==> mid.n != x
  {
    SuccessorSplit(h, root, ctx, l, x, c, mid, t);
  }

  lemma SpineRootPtr(ctx: Ctx, l: Tree, x: RbNode, c: Color, mid: Ctx, t: Tree)
    requires x !in CtxNodes(ctx)
    ensures ctx.Top? <==> Ptr(Plug(TwoChild(ctx, l, x, c, mid), t)) == x
  {
    AppendPlug(mid, InRight(l, x, c, ctx), t);
    PlugRoot(ctx, Node(l, x, c, Plug(mid, t)));
  }
}
