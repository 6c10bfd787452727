/**
 * Shapes of red-black trees: the mathematical trees that the linked nodes of
 * `src/util/rbtree.c` spell out, contexts (a tree with one hole, read from the
 * hole upwards), and the colour discipline.
 */
module RbShape {

  datatype Color = Red | Black

  /**
   * struct rb_node: parent and colour are two fields here, one packed word in
   * the source. `key` is the field of the enclosing structure that orders the
   * tree (a coroutine id, or a deadline), which the source reads through
   * container_of.
   */
  class RbNode {
    const key: int
    var left: RbNode?
    var right: RbNode?
    var parent: RbNode?
    var color: Color

    constructor (key: int)
      ensures this.key == key
    {
      this.key := key;
      left, right, parent, color := null, null, null, Red;
    }
  }

  datatype Tree = Leaf | Node(l: Tree, n: RbNode, c: Color, r: Tree)

  /** A tree with a hole. The first constructor is the frame nearest the hole. */
  datatype Ctx =
    | Top
    | InLeft(n: RbNode, c: Color, r: Tree, up: Ctx)
    | InRight(l: Tree, n: RbNode, c: Color, up: Ctx)

  ghost function Plug(ctx: Ctx, t: Tree): Tree
    decreases ctx
  {
    match ctx
    case Top => t
    case InLeft(n, c, r, up) => Plug(up, Node(t, n, c, r))
    case InRight(l, n, c, up) => Plug(up, Node(l, n, c, t))
  }

  ghost function Depth(ctx: Ctx): nat {
    if ctx.Top? then 0 else 1 + Depth(ctx.up)
  }

  ghost function Ptr(t: Tree): RbNode? {
    if t.Leaf? then null else t.n
  }

  ghost function CtxPtr(ctx: Ctx): RbNode? {
    if ctx.Top? then null else ctx.n
  }

  // ---------------------------------------------------------------- node sets

  ghost function Nodes(t: Tree): set<RbNode> {
    match t
    case Leaf => {}
    case Node(l, n, _, r) => {n} + Nodes(l) + Nodes(r)
  }

  ghost function CtxNodes(ctx: Ctx): set<RbNode> {
    match ctx
    case Top => {}
    case InLeft(n, _, r, up) => {n} + Nodes(r) + CtxNodes(up)
    case InRight(l, n, _, up) => {n} + Nodes(l) + CtxNodes(up)
  }

  /** No node occurs twice. */
  ghost predicate Sep(t: Tree) {
    match t
    case Leaf => true
    case Node(l, n, _, r) =>
      n !in Nodes(l) && n !in Nodes(r) && Nodes(l) !! Nodes(r) && Sep(l) && Sep(r)
  }

  ghost predicate SepCtx(ctx: Ctx) {
    match ctx
    case Top => true
    case InLeft(n, _, r, up) =>
      n !in Nodes(r) && n !in CtxNodes(up) && Nodes(r) !! CtxNodes(up) && Sep(r) && SepCtx(up)
    case InRight(l, n, _, up) =>
      n !in Nodes(l) && n !in CtxNodes(up) && Nodes(l) !! CtxNodes(up) && Sep(l) && SepCtx(up)
  }

  lemma {:induction false} PlugNodes(ctx: Ctx, t: Tree)
    ensures Nodes(Plug(ctx, t)) == CtxNodes(ctx) + Nodes(t)
    ensures Sep(Plug(ctx, t)) <==> Sep(t) && SepCtx(ctx) && Nodes(t) !! CtxNodes(ctx)
    decreases ctx
  {
    match ctx
    case Top =>
    case InLeft(n, c, r, up) => PlugNodes(up, Node(t, n, c, r));
    case InRight(l, n, c, up) => PlugNodes(up, Node(l, n, c, t));
  }

  // ---------------------------------------------------------------- in-order sequence

  ghost function InOrder(t: Tree): seq<RbNode> {
    match t
    case Leaf => []
    case Node(l, n, _, r) => InOrder(l) + [n] + InOrder(r)
  }

  ghost function Before(ctx: Ctx): seq<RbNode> {
    match ctx
    case Top => []
    case InLeft(_, _, _, up) => Before(up)
    case InRight(l, n, _, up) => Before(up) + InOrder(l) + [n]
  }

  ghost function After(ctx: Ctx): seq<RbNode> {
    match ctx
    case Top => []
    case InLeft(n, _, r, up) => [n] + InOrder(r) + After(up)
    case InRight(_, _, _, up) => After(up)
  }

  lemma {:induction false} PlugInOrder(ctx: Ctx, t: Tree)
    ensures InOrder(Plug(ctx, t)) == Before(ctx) + InOrder(t) + After(ctx)
    decreases ctx
  {
    match ctx
    case Top =>
    case InLeft(n, c, r, up) => PlugInOrder(up, Node(t, n, c, r));
    case InRight(l, n, c, up) => PlugInOrder(up, Node(l, n, c, t));
  }

  lemma {:induction false} InOrderNodes(t: Tree, n: RbNode)
    ensures n in InOrder(t) <==> n in Nodes(t)
  {
    if t.Node? { InOrderNodes(t.l, n); InOrderNodes(t.r, n); }
  }

  // ---------------------------------------------------------------- colour discipline

  ghost predicate IsRed(t: Tree) { t.Node? && t.c == Red }

  /** A red-black shape of black height `h`; only the root may be red with any parent. */
  ghost predicate RBT(t: Tree, h: nat) {
    match t
    case Leaf => h == 0
    case Node(l, _, c, r) =>
      if c == Red then RBT(l, h) && RBT(r, h) && !IsRed(l) && !IsRed(r)
      else h > 0 && RBT(l, h - 1) && RBT(r, h - 1)
  }

  ghost function Height(t: Tree): nat {
    if t.Leaf? then 0
    else 1 + if Height(t.l) >= Height(t.r) then Height(t.l) else Height(t.r)
  }

  /** The red-black invariant of a whole tree. */
  ghost predicate RedBlack(t: Tree) {
    !IsRed(t) && exists h: nat :: RBT(t, h)
  }

  ghost predicate CtxRed(ctx: Ctx) { !ctx.Top? && ctx.c == Red }

  /** Filling the hole with a tree of black height `h` keeps the discipline everywhere in the context. */
  ghost predicate CtxOk(ctx: Ctx, h: nat) {
    match ctx
    case Top => true
    case InLeft(_, c, r, up) =>
      RBT(r, h) && (if c == Red then !IsRed(r) && !CtxRed(up) && CtxOk(up, h) else CtxOk(up, h + 1))
    case InRight(l, _, c, up) =>
      RBT(l, h) && (if c == Red then !IsRed(l) && !CtxRed(up) && CtxOk(up, h) else CtxOk(up, h + 1))
  }

  /** The outermost frame is black, so a red frame always has a frame above it. */
  ghost predicate RootBlack(ctx: Ctx) {
    ctx.Top? || if ctx.up.Top? then ctx.c == Black else RootBlack(ctx.up)
  }

  ghost function CtxHeight(ctx: Ctx, h: nat): nat {
    if ctx.Top? then h else CtxHeight(ctx.up, if ctx.c == Red then h else h + 1)
  }

  lemma {:induction false} PlugRBT(ctx: Ctx, t: Tree, h: nat)
    requires RBT(t, h) && CtxOk(ctx, h) && !(CtxRed(ctx) && IsRed(t))
    ensures RBT(Plug(ctx, t), CtxHeight(ctx, h))
    decreases ctx
  {
    match ctx
    case Top =>
    case InLeft(n, c, r, up) => PlugRBT(up, Node(t, n, c, r), if c == Red then h else h + 1);
    case InRight(l, n, c, up) => PlugRBT(up, Node(l, n, c, t), if c == Red then h else h + 1);
  }

  /** Conversely, every position of a red-black tree splits it into a sound subtree and a sound context. */
  lemma {:induction false} SplitRBT(ctx: Ctx, t: Tree, H: nat) returns (h: nat)
    requires RBT(Plug(ctx, t), H)
    ensures RBT(t, h) && CtxOk(ctx, h) && !(CtxRed(ctx) && IsRed(t))
    decreases ctx
  {
    match ctx
    case Top => h := H;
    case InLeft(n, c, r, up) =>
      h := SplitRBT(up, Node(t, n, c, r), H);
      h := if c == Red then h else h - 1;
    case InRight(l, n, c, up) =>
      h := SplitRBT(up, Node(l, n, c, t), H);
      h := if c == Red then h else h - 1;
  }

  lemma {:induction false} PlugRoot(ctx: Ctx, t: Tree)
    ensures ctx.Top? ==> Plug(ctx, t) == t
    ensures !ctx.Top? ==> Plug(ctx, t).Node? && (IsRed(Plug(ctx, t)) <==> !RootBlack(ctx))
    ensures !ctx.Top? ==> Plug(ctx, t).n in CtxNodes(ctx)
    decreases ctx
  {
    match ctx
    case Top =>
    case InLeft(n, c, r, up) => PlugRoot(up, Node(t, n, c, r));
    case InRight(l, n, c, up) => PlugRoot(up, Node(l, n, c, t));
  }

  /** The root's colour is the caller's to choose: blackening a red root keeps the discipline. */
  lemma BlackenRoot(t: Tree, h: nat)
    requires t.Node? && RBT(t.l, h) && RBT(t.r, h)
    ensures RBT(t.(c := Black), h + 1)
  {
  }

  // ---------------------------------------------------------------- rotations

  ghost function RotatedLeft(t: Tree): (u: Tree)
    requires t.Node? && t.r.Node?
    ensures InOrder(u) == InOrder(t) && Nodes(u) == Nodes(t)
  {
    Node(Node(t.l, t.n, t.c, t.r.l), t.r.n, t.r.c, t.r.r)
  }

  ghost function RotatedRight(t: Tree): (u: Tree)
    requires t.Node? && t.l.Node?
    ensures InOrder(u) == InOrder(t) && Nodes(u) == Nodes(t)
  {
    Node(t.l.l, t.l.n, t.l.c, Node(t.l.r, t.n, t.c, t.r))
  }

  /** The parent's subtree with `x` brought to the outer side. */
  ghost function LiftedLeft(pt: Tree, x: RbNode): (q: Tree)
    requires pt.Node? && (x == Ptr(pt.l) || x == Ptr(pt.r))
    ensures q.Node? && q.l.Node?
  {
    if x == Ptr(pt.r) then RotatedLeft(pt) else pt
  }

  ghost function LiftedRight(pt: Tree, x: RbNode): (q: Tree)
    requires pt.Node? && (x == Ptr(pt.l) || x == Ptr(pt.r))
    ensures q.Node? && q.r.Node?
  {
    if x == Ptr(pt.l) then RotatedRight(pt) else pt
  }

  // ---------------------------------------------------------------- steps of the insert fix-up

  /** The subtree one frame up. */
  ghost function Lift(ctx: Ctx, t: Tree): (u: Tree)
    requires !ctx.Top?
    ensures Plug(ctx, t) == Plug(ctx.up, u) && u.Node? && u.n == ctx.n && u.c == ctx.c
  {
    if ctx.InLeft? then Node(t, ctx.n, ctx.c, ctx.r) else Node(ctx.l, ctx.n, ctx.c, t)
  }

  ghost function Sibling(ctx: Ctx): Tree
    requires !ctx.Top?
  {
    if ctx.InLeft? then ctx.r else ctx.l
  }

  /** The one possible fault is a red parent above the red node `t.n`. */
  ghost predicate InsertInv(ctx: Ctx, t: Tree, h: nat) {
    IsRed(t) && RBT(t, h) && CtxOk(ctx, h) && RootBlack(ctx)
  }

  /** A red parent is not the root and hangs from a black grandparent. */
  lemma InsertGrandparent(ctx: Ctx, t: Tree, h: nat)
    requires InsertInv(ctx, t, h) && CtxRed(ctx)
    ensures !ctx.up.Top? && ctx.up.c == Black && RootBlack(ctx.up) && RootBlack(ctx.up.up)
    ensures RBT(Sibling(ctx), h) && !IsRed(Sibling(ctx))
    ensures CtxOk(ctx.up, h) && RBT(Sibling(ctx.up), h) && CtxOk(ctx.up.up, h + 1)
  {
  }

  ghost function Recolored3(g: Tree): Tree
    requires g.Node? && g.l.Node? && g.r.Node?
  {
    Node(g.l.(c := Black), g.n, Red, g.r.(c := Black))
  }

  /** A red uncle: the fault moves two levels up. */
  lemma InsertRecolorStep(ctx: Ctx, t: Tree, h: nat)
    requires InsertInv(ctx, t, h) && CtxRed(ctx) && !ctx.up.Top? && IsRed(Sibling(ctx.up))
    ensures var g := Lift(ctx.up, Lift(ctx, t)); InsertInv(ctx.up.up, Recolored3(g), h + 1)
  {
    InsertGrandparent(ctx, t, h);
    BlackenRoot(Lift(ctx, t), h);
    BlackenRoot(Sibling(ctx.up), h);
  }

  /** A black uncle: after the rotations on the left side the fault is gone. */
  lemma InsertRotateStepLeft(ctx: Ctx, t: Tree, h: nat)
    requires InsertInv(ctx, t, h) && CtxRed(ctx) && Ptr(Sibling(ctx)) != t.n
    requires ctx.up.InLeft? && !IsRed(ctx.up.r)
    ensures var q, up := LiftedLeft(Lift(ctx, t), t.n), ctx.up;
            var ctx' := InLeft(q.n, Black, Node(q.r, up.n, Red, up.r), up.up);
            InsertInv(ctx', q.l, h) && !CtxRed(ctx') && Depth(ctx') < Depth(ctx)
  {
    InsertGrandparent(ctx, t, h);
    var q := LiftedLeft(Lift(ctx, t), t.n);
    assert IsRed(q.l) && RBT(q.l, h) && RBT(q.r, h) && !IsRed(q.r);
  }

  /** A black uncle: after the rotations on the right side the fault is gone. */
  lemma InsertRotateStepRight(ctx: Ctx, t: Tree, h: nat)
    requires InsertInv(ctx, t, h) && CtxRed(ctx) && Ptr(Sibling(ctx)) != t.n
    requires ctx.up.InRight? && !IsRed(ctx.up.l)
    ensures var q, up := LiftedRight(Lift(ctx, t), t.n), ctx.up;
            var ctx' := InRight(Node(up.l, up.n, Red, q.l), q.n, Black, up.up);
            InsertInv(ctx', q.r, h) && !CtxRed(ctx') && Depth(ctx') < Depth(ctx)
  {
    InsertGrandparent(ctx, t, h);
    var q := LiftedRight(Lift(ctx, t), t.n);
    assert IsRed(q.r) && RBT(q.r, h) && RBT(q.l, h) && !IsRed(q.l);
  }

  // ---------------------------------------------------------------- steps of the erase fix-up

  /** Sound, except that a red root may have red children. */
  ghost predicate Near(t: Tree, h: nat) {
    if IsRed(t) then RBT(t.l, h) && RBT(t.r, h) else RBT(t, h)
  }

  /** The subtree at the hole is one black node short. */
  ghost predicate EraseInv(ctx: Ctx, t: Tree, h: nat) {
    Near(t, h) && CtxOk(ctx, h + 1) && RootBlack(ctx)
  }

  /** A red sibling on the right is rotated above the parent; the node sinks one level. */
  ghost function SunkCtxLeft(ctx: Ctx): Ctx
    requires ctx.InLeft? && ctx.r.Node?
  {
    InLeft(ctx.n, Red, ctx.r.l, InLeft(ctx.r.n, Black, ctx.r.r, ctx.up))
  }

  lemma EraseSunkLeft(ctx: Ctx, t: Tree, h: nat)
    requires EraseInv(ctx, t, h) && ctx.InLeft? && IsRed(ctx.r)
    ensures ctx.c == Black && EraseInv(SunkCtxLeft(ctx), t, h) && !IsRed(Sibling(SunkCtxLeft(ctx)))
  {
  }

  /** Two black nephews: the sibling turns red and the deficit moves to the parent. */
  lemma EraseRecolorLeft(ctx: Ctx, t: Tree, h: nat)
    requires EraseInv(ctx, t, h) && !IsRed(t) && ctx.InLeft? && !IsRed(ctx.r)
    requires ctx.r.Node? && !IsRed(ctx.r.l) && !IsRed(ctx.r.r)
    ensures EraseInv(ctx.up, Node(t, ctx.n, ctx.c, ctx.r.(c := Red)), if ctx.c == Red then h else h + 1)
  {
  }

  /** A red near nephew only: it is rotated above the sibling. */
  ghost function NephewLeft(w: Tree): (w': Tree)
    requires w.Node? && (IsRed(w.r) || w.l.Node?)
    ensures w'.Node?
  {
    if IsRed(w.r) then w
    else Node(w.l.l, w.l.n, Black, Node(w.l.r, w.n, Red, w.r))
  }

  lemma NephewLeftOk(w: Tree, h: nat)
    requires w.Node? && w.c == Black && RBT(w, h + 1) && (IsRed(w.l) || IsRed(w.r))
    ensures var w' := NephewLeft(w); w'.c == Black && RBT(w'.l, h) && RBT(w'.r, h) && IsRed(w'.r)
  {
  }

  ghost function RepairedLeft(ctx: Ctx, t: Tree, w: Tree): Tree
    requires ctx.InLeft? && w.Node? && w.r.Node?
  {
    Node(Node(t, ctx.n, Black, w.l), w.n, ctx.c, w.r.(c := Black))
  }

  /** A red nephew: the rotations make up the deficit. */
  lemma EraseRepairedLeft(ctx: Ctx, t: Tree, h: nat)
    requires EraseInv(ctx, t, h) && !IsRed(t) && ctx.InLeft? && !IsRed(ctx.r)
    requires ctx.r.Node? && (IsRed(ctx.r.l) || IsRed(ctx.r.r))
    ensures var w := NephewLeft(ctx.r);
            IsRed(w.r) && exists H: nat :: RBT(Plug(ctx.up, RepairedLeft(ctx, t, w)), H)
  {
    var w := NephewLeft(ctx.r);
    NephewLeftOk(ctx.r, h);
    BlackenRoot(w.r, h);
    var u := RepairedLeft(ctx, t, w);
    var k := if ctx.c == Red then h + 1 else h + 2;
    assert RBT(Node(t, ctx.n, Black, w.l), h + 1);
    assert RBT(u, k) && CtxOk(ctx.up, k);
    PlugRBT(ctx.up, u, k);
  }

  /** A red sibling on the left is rotated above the parent; the node sinks one level. */
  ghost function SunkCtxRight(ctx: Ctx): Ctx
    requires ctx.InRight? && ctx.l.Node?
  {
    InRight(ctx.l.r, ctx.n, Red, InRight(ctx.l.l, ctx.l.n, Black, ctx.up))
  }

  lemma EraseSunkRight(ctx: Ctx, t: Tree, h: nat)
    requires EraseInv(ctx, t, h) && ctx.InRight? && IsRed(ctx.l)
    ensures ctx.c == Black && EraseInv(SunkCtxRight(ctx), t, h) && !IsRed(Sibling(SunkCtxRight(ctx)))
  {
  }

  /** Two black nephews: the sibling turns red and the deficit moves to the parent. */
  lemma EraseRecolorRight(ctx: Ctx, t: Tree, h: nat)
    requires EraseInv(ctx, t, h) && !IsRed(t) && ctx.InRight? && !IsRed(ctx.l)
    requires ctx.l.Node? && !IsRed(ctx.l.l) && !IsRed(ctx.l.r)
    ensures EraseInv(ctx.up, Node(ctx.l.(c := Red), ctx.n, ctx.c, t), if ctx.c == Red then h else h + 1)
  {
  }

  /** A red near nephew only: it is rotated above the sibling. */
  ghost function NephewRight(w: Tree): (w': Tree)
    requires w.Node? && (IsRed(w.l) || w.r.Node?)
    ensures w'.Node?
  {
    if IsRed(w.l) then w
    else Node(Node(w.l, w.n, Red, w.r.l), w.r.n, Black, w.r.r)
  }

  lemma NephewRightOk(w: Tree, h: nat)
    requires w.Node? && w.c == Black && RBT(w, h + 1) && (IsRed(w.l) || IsRed(w.r))
    ensures var w' := NephewRight(w); w'.c == Black && RBT(w'.l, h) && RBT(w'.r, h) && IsRed(w'.l)
  {
  }

  ghost function RepairedRight(ctx: Ctx, t: Tree, w: Tree): Tree
    requires ctx.InRight? && w.Node? && w.l.Node?
  {
    Node(w.l.(c := Black), w.n, ctx.c, Node(w.r, ctx.n, Black, t))
  }

  /** A red nephew: the rotations make up the deficit. */
  lemma EraseRepairedRight(ctx: Ctx, t: Tree, h: nat)
    requires EraseInv(ctx, t, h) && !IsRed(t) && ctx.InRight? && !IsRed(ctx.l)
    requires ctx.l.Node? && (IsRed(ctx.l.l) || IsRed(ctx.l.r))
    ensures var w := NephewRight(ctx.l);
            IsRed(w.l) && exists H: nat :: RBT(Plug(ctx.up, RepairedRight(ctx, t, w)), H)
  {
    var w := NephewRight(ctx.l);
    NephewRightOk(ctx.l, h);
    BlackenRoot(w.l, h);
    var u := RepairedRight(ctx, t, w);
    var k := if ctx.c == Red then h + 1 else h + 2;
    assert RBT(Node(w.r, ctx.n, Black, t), h + 1);
    assert RBT(u, k) && CtxOk(ctx.up, k);
    PlugRBT(ctx.up, u, k);
  }

  /** Below the root, a short position has a sibling. */
  lemma SiblingExists(ctx: Ctx, t: Tree, h: nat)
    requires EraseInv(ctx, t, h)
    ensures !ctx.Top? ==> Sibling(ctx).Node?
  {
  }

  lemma RootBlackened(t: Tree)
    requires exists H: nat :: RBT(t, H)
    ensures RedBlack(if t.Node? then t.(c := Black) else t)
  {
    var H: nat :| RBT(t, H);
    if IsRed(t) {
      BlackenRoot(t, H);
    }
  }

  /** A red node at the short position only has to turn black. */
  lemma EraseEnd(ctx: Ctx, t: Tree, h: nat)
    requires EraseInv(ctx, t, h) && (IsRed(t) || ctx.Top?)
    ensures RedBlack(Plug(ctx, if t.Node? then t.(c := Black) else t))
  {
    if IsRed(t) {
      BlackenRoot(t, h);
      PlugRBT(ctx, t.(c := Black), h + 1);
      PlugRoot(ctx, t.(c := Black));
    }
  }

  // ---------------------------------------------------------------- locating a node

  /** The context in which node `x` sits in `t`. */
  lemma {:induction false} Locate(t: Tree, x: RbNode) returns (ctx: Ctx, sub: Tree)
    requires x in Nodes(t)
    ensures t == Plug(ctx, sub) && sub.Node? && sub.n == x
  {
    ctx, sub := LocateIn(Top, t, x);
  }

  lemma {:induction false} LocateIn(outer: Ctx, t: Tree, x: RbNode) returns (ctx: Ctx, sub: Tree)
    requires x in Nodes(t)
    ensures Plug(outer, t) == Plug(ctx, sub) && sub.Node? && sub.n == x
    decreases t
  {
    if t.n == x {
      ctx, sub := outer, t;
    } else if x in Nodes(t.l) {
      ctx, sub := LocateIn(InLeft(t.n, t.c, t.r, outer), t.l, x);
    } else {
      ctx, sub := LocateIn(InRight(t.l, t.n, t.c, outer), t.r, x);
    }
  }

  // ---------------------------------------------------------------- left spines

  /** `mid` inside the hole of `outer`. */
  ghost function Append(mid: Ctx, outer: Ctx): Ctx {
    match mid
    case Top => outer
    case InLeft(n, c, r, up) => InLeft(n, c, r, Append(up, outer))
    case InRight(l, n, c, up) => InRight(l, n, c, Append(up, outer))
  }

  /** The hole is reached by left links only. */
  ghost predicate LeftSpine(mid: Ctx) {
    mid.Top? || (mid.InLeft? && LeftSpine(mid.up))
  }

  lemma {:induction false} AppendPlug(mid: Ctx, outer: Ctx, t: Tree)
    ensures Plug(Append(mid, outer), t) == Plug(outer, Plug(mid, t))
    decreases mid
  {
    match mid
    case Top =>
    case InLeft(n, c, r, up) => AppendPlug(up, outer, Node(t, n, c, r));
    case InRight(l, n, c, up) => AppendPlug(up, outer, Node(l, n, c, t));
  }

  lemma {:induction false} AppendNodes(mid: Ctx, outer: Ctx)
    ensures CtxNodes(Append(mid, outer)) == CtxNodes(mid) + CtxNodes(outer)
    ensures SepCtx(Append(mid, outer)) <==> SepCtx(mid) && SepCtx(outer) && CtxNodes(mid) !! CtxNodes(outer)
  {
    if !mid.Top? { AppendNodes(mid.up, outer); }
  }

  lemma {:induction false} SpineOrder(mid: Ctx)
    requires LeftSpine(mid)
    ensures Before(mid) == []
  {
    if !mid.Top? { SpineOrder(mid.up); }
  }

  /** The colour discipline of a context does not depend on which node the successor replaces. */
  lemma {:induction false} SpineOk(mid: Ctx, l: Tree, x: RbNode, y: RbNode, c: Color, ctx: Ctx, h: nat)
    requires CtxOk(Append(mid, InRight(l, x, c, ctx)), h)
    ensures CtxOk(Append(mid, InRight(l, y, c, ctx)), h)
    ensures CtxRed(Append(mid, InRight(l, y, c, ctx))) == CtxRed(Append(mid, InRight(l, x, c, ctx)))
    ensures RootBlack(Append(mid, InRight(l, y, c, ctx))) == RootBlack(Append(mid, InRight(l, x, c, ctx)))
  {
    if !mid.Top? {
      SpineOk(mid.up, l, x, y, c, ctx, if mid.c == Red then h else h + 1);
    }
  }

  // ---------------------------------------------------------------- what erasing leaves

  /** `b` is `a` without its element `x` at index `i`. */
  ghost predicate Removed(a: seq<RbNode>, b: seq<RbNode>, i: nat, x: RbNode) {
    i < |a| && a[i] == x && b == a[..i] + a[i + 1..]
  }

  lemma RemovedAt(pre: seq<RbNode>, x: RbNode, post: seq<RbNode>)
    ensures Removed(pre + [x] + post, pre + post, |pre|, x)
  {
  }

  lemma RemovedWithin(pre: seq<RbNode>, a: seq<RbNode>, b: seq<RbNode>, post: seq<RbNode>, i: nat, x: RbNode)
    requires Removed(a, b, i, x)
    ensures Removed(pre + a + post, pre + b + post, |pre| + i, x)
  {
  }

  lemma PlugRemoved(ctx: Ctx, t: Tree, u: Tree, i: nat, x: RbNode)
    requires Removed(InOrder(t), InOrder(u), i, x)
    ensures Removed(InOrder(Plug(ctx, t)), InOrder(Plug(ctx, u)), |Before(ctx)| + i, x)
  {
    PlugInOrder(ctx, t);
    PlugInOrder(ctx, u);
    RemovedWithin(Before(ctx), InOrder(t), InOrder(u), After(ctx), i, x);
  }

  /** A node whose other child is missing is replaced by its child. */
  lemma SplicedOrder(ctx: Ctx, t: Tree, u: Tree) returns (i: nat)
    requires t.Node? && ((t.l.Leaf? && u == t.r) || (t.r.Leaf? && u == t.l))
    ensures Removed(InOrder(Plug(ctx, t)), InOrder(Plug(ctx, u)), i, t.n)
  {
    var a, b := InOrder(t.l), InOrder(t.r);
    assert InOrder(u) == a + b;
    RemovedAt(a, t.n, b);
    PlugRemoved(ctx, t, u, |a|, t.n);
    i := |Before(ctx)| + |a|;
  }

  /** A node with two children is replaced by its in-order successor `s`. */
  lemma SuccessorOrder(ctx: Ctx, l: Tree, x: RbNode, c: Color, mid: Ctx, s: RbNode, cs: Color, d: Tree) returns (i: nat)
    requires LeftSpine(mid)
    ensures Removed(InOrder(Plug(ctx, Node(l, x, c, Plug(mid, Node(Leaf, s, cs, d))))),
                    InOrder(Plug(ctx, Node(l, s, c, Plug(mid, d)))), i, x)
  {
    var r, r' := Plug(mid, Node(Leaf, s, cs, d)), Plug(mid, d);
    SuccessorFirst(mid, s, cs, d);
    var a, b := InOrder(l), InOrder(r);
    RemovedAt(a, x, b);
    assert a + [s] + InOrder(r') == a + b;
    PlugRemoved(ctx, Node(l, x, c, r), Node(l, s, c, r'), |a|, x);
    i := |Before(ctx)| + |a|;
  }

  /** The node at the end of the left spine comes first. */
  lemma SuccessorFirst(mid: Ctx, s: RbNode, cs: Color, d: Tree)
    requires LeftSpine(mid)
    ensures InOrder(Plug(mid, Node(Leaf, s, cs, d))) == [s] + InOrder(Plug(mid, d))
  {
    SpineOrder(mid);
    PlugInOrder(mid, Node(Leaf, s, cs, d));
    PlugInOrder(mid, d);
  }

  // ---------------------------------------------------------------- height bound

  ghost function Size(t: Tree): nat {
    if t.Leaf? then 0 else 1 + Size(t.l) + Size(t.r)
  }

  ghost function Pow2(k: nat): nat
    ensures Pow2(k) >= 1
  {
    if k == 0 then 1 else 2 * Pow2(k - 1)
  }

  lemma {:induction false} BlackHeightBounds(t: Tree, h: nat)
    requires RBT(t, h)
    ensures Height(t) <= 2 * h + (if IsRed(t) then 1 else 0)
    ensures Pow2(h) <= Size(t) + 1
  {
    if t.Node? {
      var k := if t.c == Red then h else h - 1;
      BlackHeightBounds(t.l, k);
      BlackHeightBounds(t.r, k);
    }
  }

  lemma {:induction false} Pow2Sum(a: nat, b: nat)
    ensures Pow2(a + b) == Pow2(a) * Pow2(b)
  {
    if a > 0 { Pow2Sum(a - 1, b); }
  }

  lemma {:induction false} Pow2Mono(a: nat, b: nat)
    requires a <= b
    ensures Pow2(a) <= Pow2(b)
  {
    if a < b { Pow2Mono(a, b - 1); }
  }

  /** Height at most 2·log2(n + 1), written without logarithms: 2^height <= (n + 1)^2. */
  lemma HeightBound(t: Tree)
    requires RedBlack(t)
    ensures Pow2(Height(t)) <= (Size(t) + 1) * (Size(t) + 1)
  {
    var h: nat :| RBT(t, h);
    BlackHeightBounds(t, h);
    Pow2Mono(Height(t), h + h);
    Pow2Sum(h, h);
    SquareMono(Pow2(h), Size(t) + 1);
  }

  lemma {:induction false} PlugHeight(ctx: Ctx, t: Tree)
    ensures Depth(ctx) + Height(t) <= Height(Plug(ctx, t))
    decreases ctx
  {
    match ctx
    case Top =>
    case InLeft(n, c, r, up) => PlugHeight(up, Node(t, n, c, r));
    case InRight(l, n, c, up) => PlugHeight(up, Node(l, n, c, t));
  }

  lemma SquareMono(a: nat, b: nat)
    requires a <= b
    ensures a * a <= b * b
  {
  }

  lemma {:induction false} SizeIsLength(t: Tree)
    ensures |InOrder(t)| == Size(t)
  {
    if t.Node? { SizeIsLength(t.l); SizeIsLength(t.r); }
  }
}
