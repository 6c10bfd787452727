/**
 * The intrusive red-black tree of `src/util/rbtree.c`: rotations, insert
 * fix-up, erase and erase fix-up on linked nodes.
 */
module RbTree {
  import opened RbShape
  import opened RbLinks

  /** struct rb_root. `tree` is the shape its nodes spell out. */
  class RbRoot {
    var node: RbNode?
    ghost var tree: Tree

    ghost predicate Valid()
      reads this, Nodes(tree)
    {
      Spells(Snap(Nodes(tree)), node, tree)
    }

    constructor ()
      ensures Valid() && tree == Leaf
    {
      node := null;
      tree := Leaf;
    }

    /** RB_ROOT assigned to a root. */
    method Clear()
      modifies this
      ensures Valid() && tree == Leaf
    {
      node, tree := null, Leaf;
    }

    /** RB_EMPTY_ROOT */
    lemma EmptyRoot()
      requires Valid()
      ensures node == null <==> tree == Leaf
      ensures tree == Leaf <==> Nodes(tree) == {}
    {
    }

    /** What the fields say at one position. */
    lemma Look(ctx: Ctx, t: Tree)
      requires Valid() && tree == Plug(ctx, t)
      ensures t.Node? ==>
        t.n in Nodes(tree) && t.n.left == Ptr(t.l) && t.n.right == Ptr(t.r) && t.n.parent == CtxPtr(ctx) && t.n.color == t.c
      ensures !ctx.Top? ==> ctx.n in Nodes(tree) && ctx.n.color == ctx.c && ctx.n.parent == CtxPtr(ctx.up)
      ensures ctx.InLeft? ==> ctx.n.left == Ptr(t) && ctx.n.right == Ptr(ctx.r)
      ensures ctx.InRight? ==> ctx.n.right == Ptr(t) && ctx.n.left == Ptr(ctx.l)
      ensures ctx.InLeft? && t.Node? ==> Ptr(ctx.r) != Ptr(t)
      ensures ctx.InRight? && t.Node? ==> Ptr(ctx.l) != Ptr(t)
      ensures ctx.Top? <==> node == Ptr(t)
    {
      View(Snap(Nodes(tree)), node, ctx, t);
    }

    /** rb_set_red, rb_set_black and rb_set_color on a node of the tree. */
    method SetColor(x: RbNode, c: Color, ghost ctx: Ctx, ghost t: Tree)
      requires Valid() && tree == Plug(ctx, t) && t.Node? && t.n == x
      modifies this`tree, Nodes(tree)`color
      ensures Valid() && tree == Plug(ctx, t.(c := c))
      ensures Nodes(tree) == old(Nodes(tree)) && InOrder(tree) == old(InOrder(tree))
    {
      ghost var h := Snap(Nodes(tree));
      View(h, node, ctx, t);
      x.color := c;
      Recolored(h, Snap(Nodes(tree)), node, ctx, t, c);
      tree := Plug(ctx, t.(c := c));
    }

    /** __rb_rotate_left. `s` is any set of nodes around `x` to report on. */
    method RotateLeft(x: RbNode, ghost s: set<RbNode>)
      requires x in s && x.right != null && Apart(Snap(s), x, x.right, x.right.left, x.parent)
      requires x.parent != null ==> (x.parent.left == x) != (x.parent.right == x)
      modifies this`node, s
      ensures LeftRotation(old(Snap(s)), Snap(s), x, old(x.right), old(x.right.left), old(x.parent))
      ensures node == if old(x.parent) == null then old(x.right) else old(node)
    {
      var right, parent := x.right, x.parent;
      x.right := right.left;
      if right.left != null {
        right.left.parent := x;
      }
      right.left := x;
      right.parent := parent;
      if parent != null {
        if x == parent.left {
          parent.left := right;
        } else {
          parent.right := right;
        }
      } else {
        node := right;
      }
      x.parent := right;
    }

    /** __rb_rotate_left at a position of the tree. */
    method RotateLeftAt(x: RbNode, ghost ctx: Ctx, ghost t: Tree)
      requires Valid() && tree == Plug(ctx, t) && t.Node? && t.n == x && t.r.Node?
      modifies this, Nodes(tree)
      ensures Valid() && tree == Plug(ctx, RotatedLeft(t))
      ensures Nodes(tree) == old(Nodes(tree)) && InOrder(tree) == old(InOrder(tree))
    {
      ghost var h := Snap(Nodes(tree));
      RotationApart(h, node, ctx, t);
      RotateLeft(x, Nodes(tree));
      LeftRotationSpells(h, Snap(Nodes(tree)), old(node), ctx, t);
      tree := Plug(ctx, RotatedLeft(t));
    }

    /** __rb_rotate_right. `s` is any set of nodes around `x` to report on. */
    method RotateRight(x: RbNode, ghost s: set<RbNode>)
      requires x in s && x.left != null && Apart(Snap(s), x, x.left, x.left.right, x.parent)
      requires x.parent != null ==> (x.parent.left == x) != (x.parent.right == x)
      modifies this`node, s
      ensures RightRotation(old(Snap(s)), Snap(s), x, old(x.left), old(x.left.right), old(x.parent))
      ensures node == if old(x.parent) == null then old(x.left) else old(node)
    {
      var left, parent := x.left, x.parent;
      x.left := left.right;
      if left.right != null {
        left.right.parent := x;
      }
      left.right := x;
      left.parent := parent;
      if parent != null {
        if x == parent.right {
          parent.right := left;
        } else {
          parent.left := left;
        }
      } else {
        node := left;
      }
      x.parent := left;
    }

    /** __rb_rotate_right at a position of the tree. */
    method RotateRightAt(x: RbNode, ghost ctx: Ctx, ghost t: Tree)
      requires Valid() && tree == Plug(ctx, t) && t.Node? && t.n == x && t.l.Node?
      modifies this, Nodes(tree)
      ensures Valid() && tree == Plug(ctx, RotatedRight(t))
      ensures Nodes(tree) == old(Nodes(tree)) && InOrder(tree) == old(InOrder(tree))
    {
      ghost var h := Snap(Nodes(tree));
      RotationApart(h, node, ctx, t);
      RotateRight(x, Nodes(tree));
      RightRotationSpells(h, Snap(Nodes(tree)), old(node), ctx, t);
      tree := Plug(ctx, RotatedRight(t));
    }

    // -------------------------------------------------------------- insertion

    /** rb_link_node at an empty position: `x` becomes a red leaf. */
    method LinkNode(x: RbNode, parent: RbNode?, atLeft: bool, ghost ctx: Ctx)
      requires Valid() && tree == Plug(ctx, Leaf) && x !in Nodes(tree)
      requires parent == CtxPtr(ctx) && (ctx.InLeft? ==> atLeft) && (ctx.InRight? ==> !atLeft)
      modifies this, x, Nodes(tree)
      ensures Valid() && tree == Plug(ctx, Node(Leaf, x, Red, Leaf))
      ensures Nodes(tree) == old(Nodes(tree)) + {x}
    {
      ghost var h, s := Snap(Nodes(tree)), Nodes(tree) + {x};
      View(h, node, ctx, Leaf);
      x.parent, x.color := parent, Red;
      x.left, x.right := null, null;
      if parent == null {
        node := x;
      } else if atLeft {
        parent.left := x;
      } else {
        parent.right := x;
      }
      LinkedSpells(h, Snap(s), old(node), ctx, x);
      tree := Plug(ctx, Node(Leaf, x, Red, Leaf));
    }

    /** rbtree.c:58-60 and 78-80: a red pair under a black grandparent trades colours with it. */
    method InsertRecolor(uncle: RbNode, parent: RbNode, gparent: RbNode, ghost ctx: Ctx, ghost g: Tree)
      requires Valid() && tree == Plug(ctx, g) && g.Node? && g.n == gparent && g.l.Node? && g.r.Node?
      requires (g.l.n == parent && g.r.n == uncle) || (g.l.n == uncle && g.r.n == parent)
      modifies this, Nodes(tree)
      ensures Valid() && tree == Plug(ctx, Node(g.l.(c := Black), g.n, Red, g.r.(c := Black)))
      ensures Nodes(tree) == old(Nodes(tree)) && InOrder(tree) == old(InOrder(tree))
    {
      Look(ctx, g);
      ghost var left := g.l.n == parent;
      ghost var l, r := g.l.(c := Black), g.r.(c := Black);
      SetColor(uncle, Black,
               if left then InRight(g.l, g.n, g.c, ctx) else InLeft(g.n, g.c, g.r, ctx),
               if left then g.r else g.l);
      SetColor(parent, Black,
               if left then InLeft(g.n, g.c, r, ctx) else InRight(l, g.n, g.c, ctx),
               if left then g.l else g.r);
      SetColor(gparent, Red, ctx, Node(l, g.n, g.c, r));
    }

    /** rbtree.c:65-74: a red node `x` under a red left child `parent` of the black `gparent`. */
    method InsertRotateLeftSide(x: RbNode, parent: RbNode, gparent: RbNode, ghost up: Ctx, ghost pt: Tree, ghost u: Tree)
      returns (n: RbNode)
      requires Valid() && tree == Plug(InLeft(gparent, Black, u, up), pt) && pt.Node? && pt.n == parent
      requires x == Ptr(pt.l) || x == Ptr(pt.r)
      modifies this, Nodes(tree)
      ensures var q := LiftedLeft(pt, x); n == Ptr(q.l) && Valid() && tree == Plug(up, Node(q.l, q.n, Black, Node(q.r, gparent, Red, u)))
      ensures Nodes(tree) == old(Nodes(tree)) && InOrder(tree) == old(InOrder(tree))
    {
      var p := parent;
      n := x;
      ghost var g := InLeft(gparent, Black, u, up);
      ghost var q := LiftedLeft(pt, x);
      Look(g, pt);
      if p.right == n {
        RotateLeftAt(p, g, pt);
        var tmp := p;
        p := n;
        n := tmp;
      }
      SetColor(p, Black, g, q);
      SetColor(gparent, Red, up, Node(q.(c := Black), gparent, Black, u));
      RotateRightAt(gparent, up, Node(q.(c := Black), gparent, Red, u));
    }

    /** rbtree.c:85-94: a red node `x` under a red right child `parent` of the black `gparent`. */
    method InsertRotateRightSide(x: RbNode, parent: RbNode, gparent: RbNode, ghost up: Ctx, ghost pt: Tree, ghost u: Tree)
      returns (n: RbNode)
      requires Valid() && tree == Plug(InRight(u, gparent, Black, up), pt) && pt.Node? && pt.n == parent
      requires x == Ptr(pt.l) || x == Ptr(pt.r)
      modifies this, Nodes(tree)
      ensures var q := LiftedRight(pt, x); n == Ptr(q.r) && Valid() && tree == Plug(up, Node(Node(u, gparent, Red, q.l), q.n, Black, q.r))
      ensures Nodes(tree) == old(Nodes(tree)) && InOrder(tree) == old(InOrder(tree))
    {
      var p := parent;
      n := x;
      ghost var g := InRight(u, gparent, Black, up);
      ghost var q := LiftedRight(pt, x);
      Look(g, pt);
      if p.left == n {
        RotateRightAt(p, g, pt);
        var tmp := p;
        p := n;
        n := tmp;
      }
      SetColor(p, Black, g, q);
      SetColor(gparent, Red, up, Node(u, gparent, Black, q.(c := Black)));
      RotateLeftAt(gparent, up, Node(u, gparent, Red, q.(c := Black)));
    }

    /** rbtree.c:56-74: one turn of the fix-up below a left child. */
    method InsertUnderLeft(x: RbNode, parent: RbNode, gparent: RbNode, ghost ctx: Ctx, ghost t: Tree, ghost h: nat)
      returns (n: RbNode, ghost ctx': Ctx, ghost t': Tree, ghost h': nat)
      requires Valid() && tree == Plug(ctx, t) && InsertInv(ctx, t, h) && x == t.n
      requires CtxRed(ctx) && ctx.up.InLeft? && parent == ctx.n && gparent == ctx.up.n
      modifies this, Nodes(tree)
      ensures Valid() && tree == Plug(ctx', t') && InsertInv(ctx', t', h') && n == t'.n && Depth(ctx') < Depth(ctx)
      ensures Nodes(tree) == old(Nodes(tree)) && InOrder(tree) == old(InOrder(tree))
    {
      InsertGrandparent(ctx, t, h);
      ghost var up, pt := ctx.up, Lift(ctx, t);
      Look(ctx, t);
      Look(up, pt);
      LookSibling(up, pt);
      var uncle := gparent.right;
      if uncle != null && uncle.color == Red {
        InsertRecolorStep(ctx, t, h);
        InsertRecolor(uncle, parent, gparent, up.up, Lift(up, pt));
        n := gparent;
        ctx', t', h' := up.up, Recolored3(Lift(up, pt)), h + 1;
      } else {
        n := InsertRotateLeftSide(x, parent, gparent, up.up, pt, up.r);
        ghost var q := LiftedLeft(pt, x);
        InsertRotateStepLeft(ctx, t, h);
        h' := h;
        ctx', t' := InLeft(q.n, Black, Node(q.r, gparent, Red, up.r), up.up), q.l;
      }
    }

    /** rbtree.c:76-94: one turn of the fix-up below a right child. */
    method InsertUnderRight(x: RbNode, parent: RbNode, gparent: RbNode, ghost ctx: Ctx, ghost t: Tree, ghost h: nat)
      returns (n: RbNode, ghost ctx': Ctx, ghost t': Tree, ghost h': nat)
      requires Valid() && tree == Plug(ctx, t) && InsertInv(ctx, t, h) && x == t.n
      requires CtxRed(ctx) && ctx.up.InRight? && parent == ctx.n && gparent == ctx.up.n
      modifies this, Nodes(tree)
      ensures Valid() && tree == Plug(ctx', t') && InsertInv(ctx', t', h') && n == t'.n && Depth(ctx') < Depth(ctx)
      ensures Nodes(tree) == old(Nodes(tree)) && InOrder(tree) == old(InOrder(tree))
    {
      InsertGrandparent(ctx, t, h);
      ghost var up, pt := ctx.up, Lift(ctx, t);
      Look(ctx, t);
      Look(up, pt);
      LookSibling(up, pt);
      var uncle := gparent.left;
      if uncle != null && uncle.color == Red {
        InsertRecolorStep(ctx, t, h);
        InsertRecolor(uncle, parent, gparent, up.up, Lift(up, pt));
        n := gparent;
        ctx', t', h' := up.up, Recolored3(Lift(up, pt)), h + 1;
      } else {
        n := InsertRotateRightSide(x, parent, gparent, up.up, pt, up.l);
        ghost var q := LiftedRight(pt, x);
        InsertRotateStepRight(ctx, t, h);
        h' := h;
        ctx', t' := InRight(Node(up.l, gparent, Red, q.l), q.n, Black, up.up), q.r;
      }
    }

    /** rb_insert_color, run right after rb_link_node put the red leaf `x` at `ctx0`. */
    method InsertColor(x: RbNode, ghost ctx0: Ctx)
      requires Valid() && tree == Plug(ctx0, Node(Leaf, x, Red, Leaf)) && RedBlack(Plug(ctx0, Leaf))
      modifies this, Nodes(tree)
      ensures Valid() && RedBlack(tree)
      ensures Nodes(tree) == old(Nodes(tree)) && InOrder(tree) == old(InOrder(tree))
    {
      var n := x;
      ghost var ctx, t, h := ctx0, Node(Leaf, x, Red, Leaf), 0;
      InsertStart(ctx0, x);
      Look(ctx, t);
      var parent := n.parent;
      while parent != null && parent.color == Red
        invariant Valid() && tree == Plug(ctx, t) && InsertInv(ctx, t, h) && n == t.n
        invariant parent == CtxPtr(ctx) && (parent != null ==> parent in Nodes(tree) && parent.color == ctx.c)
        invariant Nodes(tree) == old(Nodes(tree)) && InOrder(tree) == old(InOrder(tree))
        decreases Depth(ctx)
      {
        InsertGrandparent(ctx, t, h);
        Look(ctx.up, Lift(ctx, t));
        var gparent := parent.parent;
        if parent == gparent.left {
          n, ctx, t, h := InsertUnderLeft(n, parent, gparent, ctx, t, h);
        } else {
          n, ctx, t, h := InsertUnderRight(n, parent, gparent, ctx, t, h);
        }
        Look(ctx, t);
        parent := n.parent;
      }
      InsertEnd(ctx, t, h);
      Look(Top, tree);
      SetColor(node, Black, Top, tree);
    }

    // -------------------------------------------------------------- erasure

    /** rbtree.c:111-113: a red sibling is turned black and rotated above the parent. */
    method EraseSinkLeft(parent: RbNode, other: RbNode, ghost ctx: Ctx, ghost t: Tree)
      requires Valid() && tree == Plug(ctx, t) && ctx.InLeft? && ctx.n == parent && ctx.r.Node? && ctx.r.n == other
      modifies this, Nodes(tree)
      ensures Valid() && tree == Plug(SunkCtxLeft(ctx), t)
      ensures Nodes(tree) == old(Nodes(tree)) && InOrder(tree) == old(InOrder(tree))
    {
      ghost var w := ctx.r;
      SetColor(other, Black, InRight(t, ctx.n, ctx.c, ctx.up), w);
      SetColor(parent, Red, ctx.up, Node(t, ctx.n, ctx.c, w.(c := Black)));
      RotateLeftAt(parent, ctx.up, Node(t, ctx.n, Red, w.(c := Black)));
    }

    /** rbtree.c:123-125: a lone red near nephew is rotated above the sibling. */
    method EraseNephewLeft(other: RbNode, ghost ctx: Ctx, ghost w: Tree)
      requires Valid() && tree == Plug(ctx, w) && w.Node? && w.n == other && w.l.Node? && !IsRed(w.r)
      modifies this, Nodes(tree)
      ensures Valid() && tree == Plug(ctx, NephewLeft(w))
      ensures Nodes(tree) == old(Nodes(tree)) && InOrder(tree) == old(InOrder(tree))
    {
      Look(ctx, w);
      SetColor(other.left, Black, InLeft(w.n, w.c, w.r, ctx), w.l);
      SetColor(other, Red, ctx, Node(w.l.(c := Black), w.n, w.c, w.r));
      RotateRightAt(other, ctx, Node(w.l.(c := Black), w.n, Red, w.r));
    }

    /** rbtree.c:128-131: the rotation at the parent that makes up the deficit. */
    method EraseRepairLeft(parent: RbNode, other: RbNode, ghost ctx: Ctx, ghost t: Tree)
      requires Valid() && tree == Plug(ctx, t) && ctx.InLeft? && ctx.n == parent
      requires ctx.r.Node? && ctx.r.n == other && ctx.r.r.Node?
      modifies this, Nodes(tree)
      ensures Valid() && tree == Plug(ctx.up, RepairedLeft(ctx, t, ctx.r))
      ensures Nodes(tree) == old(Nodes(tree)) && InOrder(tree) == old(InOrder(tree))
    {
      Look(ctx, t);
      ghost var w := ctx.r.(c := ctx.c);
      ghost var w' := Node(w.l, w.n, w.c, w.r.(c := Black));
      SetColor(other, parent.color, InRight(t, ctx.n, ctx.c, ctx.up), ctx.r);
      SetColor(parent, Black, ctx.up, Node(t, ctx.n, ctx.c, w));
      Look(InRight(t, ctx.n, Black, ctx.up), w);
      SetColor(other.right, Black, InRight(w.l, w.n, w.c, InRight(t, ctx.n, Black, ctx.up)), w.r);
      RotateLeftAt(parent, ctx.up, Node(t, ctx.n, Black, w'));
    }

    /** rbtree.c:138-140: a red sibling is turned black and rotated above the parent. */
    method EraseSinkRight(parent: RbNode, other: RbNode, ghost ctx: Ctx, ghost t: Tree)
      requires Valid() && tree == Plug(ctx, t) && ctx.InRight? && ctx.n == parent && ctx.l.Node? && ctx.l.n == other
      modifies this, Nodes(tree)
      ensures Valid() && tree == Plug(SunkCtxRight(ctx), t)
      ensures Nodes(tree) == old(Nodes(tree)) && InOrder(tree) == old(InOrder(tree))
    {
      ghost var w := ctx.l;
      SetColor(other, Black, InLeft(ctx.n, ctx.c, t, ctx.up), w);
      SetColor(parent, Red, ctx.up, Node(w.(c := Black), ctx.n, ctx.c, t));
      RotateRightAt(parent, ctx.up, Node(w.(c := Black), ctx.n, Red, t));
    }

    /** rbtree.c:150-152: a lone red near nephew is rotated above the sibling. */
    method EraseNephewRight(other: RbNode, ghost ctx: Ctx, ghost w: Tree)
      requires Valid() && tree == Plug(ctx, w) && w.Node? && w.n == other && w.r.Node? && !IsRed(w.l)
      modifies this, Nodes(tree)
      ensures Valid() && tree == Plug(ctx, NephewRight(w))
      ensures Nodes(tree) == old(Nodes(tree)) && InOrder(tree) == old(InOrder(tree))
    {
      Look(ctx, w);
      SetColor(other.right, Black, InRight(w.l, w.n, w.c, ctx), w.r);
      SetColor(other, Red, ctx, Node(w.l, w.n, w.c, w.r.(c := Black)));
      RotateLeftAt(other, ctx, Node(w.l, w.n, Red, w.r.(c := Black)));
    }

    /** rbtree.c:156-159: the rotation at the parent that makes up the deficit. */
    method EraseRepairRight(parent: RbNode, other: RbNode, ghost ctx: Ctx, ghost t: Tree)
      requires Valid() && tree == Plug(ctx, t) && ctx.InRight? && ctx.n == parent
      requires ctx.l.Node? && ctx.l.n == other && ctx.l.l.Node?
      modifies this, Nodes(tree)
      ensures Valid() && tree == Plug(ctx.up, RepairedRight(ctx, t, ctx.l))
      ensures Nodes(tree) == old(Nodes(tree)) && InOrder(tree) == old(InOrder(tree))
    {
      Look(ctx, t);
      ghost var w := ctx.l.(c := ctx.c);
      ghost var w' := Node(w.l.(c := Black), w.n, w.c, w.r);
      SetColor(other, parent.color, InLeft(ctx.n, ctx.c, t, ctx.up), ctx.l);
      SetColor(parent, Black, ctx.up, Node(w, ctx.n, ctx.c, t));
      Look(InLeft(ctx.n, Black, t, ctx.up), w);
      SetColor(other.left, Black, InLeft(w.n, w.c, w.r, InLeft(ctx.n, Black, t, ctx.up)), w.l);
      RotateRightAt(parent, ctx.up, Node(w', ctx.n, Black, t));
    }

    /** rbtree.c:109-134: one turn of the erase fix-up at a left child; `done` is the source's `break`. */
    method EraseUnderLeft(n: RbNode?, parent: RbNode, ghost ctx: Ctx, ghost t: Tree, ghost h: nat)
      returns (n': RbNode?, parent': RbNode?, done: bool, ghost ctx': Ctx, ghost t': Tree, ghost h': nat)
      requires Valid() && tree == Plug(ctx, t) && EraseInv(ctx, t, h) && !IsRed(t)
      requires ctx.InLeft? && parent == ctx.n && n == Ptr(t)
      modifies this, Nodes(tree)
      ensures Valid() && Nodes(tree) == old(Nodes(tree)) && InOrder(tree) == old(InOrder(tree))
      ensures done ==> n' == node && exists H: nat :: RBT(tree, H)
      ensures !done ==> tree == Plug(ctx', t') && EraseInv(ctx', t', h') && n' == Ptr(t') && parent' == CtxPtr(ctx')
      ensures !done ==> Depth(ctx') < Depth(ctx) || (Depth(ctx') == Depth(ctx) && IsRed(t'))
    {
      ctx', t', h' := ctx, t, h;
      SiblingExists(ctx, t, h);
      Look(ctx, t);
      LookSibling(ctx, t);
      var other := parent.right;
      if other.color == Red {
        EraseSunkLeft(ctx, t, h);
        EraseSinkLeft(parent, other, ctx, t);
        ctx' := SunkCtxLeft(ctx);
        SiblingExists(ctx', t, h);
        Look(ctx', t);
        LookSibling(ctx', t);
        other := parent.right;
      }
      LookNephews(ctx', t);
      if (other.left == null || other.left.color == Black) && (other.right == null || other.right.color == Black) {
        EraseRecolorLeft(ctx', t, h);
        SetColor(other, Red, InRight(t, ctx'.n, ctx'.c, ctx'.up), ctx'.r);
        t', h', ctx' := Node(t, ctx'.n, ctx'.c, ctx'.r.(c := Red)), if ctx'.c == Red then h else h + 1, ctx'.up;
        n' := parent;
        Look(ctx', t');
        parent' := parent.parent;
        done := false;
      } else {
        EraseRepairedLeft(ctx', t, h);
        EraseFinishLeft(parent, other, ctx', t);
        n', parent', done := node, null, true;
      }
    }

    /** rbtree.c:122-131: the closing rotations. */
    method EraseFinishLeft(parent: RbNode, sibling: RbNode, ghost ctx: Ctx, ghost t: Tree)
      requires Valid() && tree == Plug(ctx, t) && ctx.InLeft? && parent == ctx.n
      requires ctx.r.Node? && sibling == ctx.r.n && (IsRed(ctx.r.l) || IsRed(ctx.r.r)) && IsRed(NephewLeft(ctx.r).r)
      modifies this, Nodes(tree)
      ensures Valid() && tree == Plug(ctx.up, RepairedLeft(ctx, t, NephewLeft(ctx.r)))
      ensures Nodes(tree) == old(Nodes(tree)) && InOrder(tree) == old(InOrder(tree))
    {
      var other := sibling;
      LookSibling(ctx, t);
      LookNephews(ctx, t);
      ghost var c' := ctx.(r := NephewLeft(ctx.r));
      if other.right == null || other.right.color == Black {
        EraseNephewLeft(other, InRight(t, ctx.n, ctx.c, ctx.up), ctx.r);
        Look(c', t);
        other := parent.right;
      }
      EraseRepairLeft(parent, other, c', t);
    }

    /** rbtree.c:136-162: one turn of the erase fix-up at a right child; `done` is the source's `break`. */
    method EraseUnderRight(n: RbNode?, parent: RbNode, ghost ctx: Ctx, ghost t: Tree, ghost h: nat)
      returns (n': RbNode?, parent': RbNode?, done: bool, ghost ctx': Ctx, ghost t': Tree, ghost h': nat)
      requires Valid() && tree == Plug(ctx, t) && EraseInv(ctx, t, h) && !IsRed(t)
      requires ctx.InRight? && parent == ctx.n && n == Ptr(t)
      modifies this, Nodes(tree)
      ensures Valid() && Nodes(tree) == old(Nodes(tree)) && InOrder(tree) == old(InOrder(tree))
      ensures done ==> n' == node && exists H: nat :: RBT(tree, H)
      ensures !done ==> tree == Plug(ctx', t') && EraseInv(ctx', t', h') && n' == Ptr(t') && parent' == CtxPtr(ctx')
      ensures !done ==> Depth(ctx') < Depth(ctx) || (Depth(ctx') == Depth(ctx) && IsRed(t'))
    {
      ctx', t', h' := ctx, t, h;
      SiblingExists(ctx, t, h);
      Look(ctx, t);
      LookSibling(ctx, t);
      var other := parent.left;
      if other.color == Red {
        EraseSunkRight(ctx, t, h);
        EraseSinkRight(parent, other, ctx, t);
        ctx' := SunkCtxRight(ctx);
        SiblingExists(ctx', t, h);
        Look(ctx', t);
        LookSibling(ctx', t);
        other := parent.left;
      }
      LookNephews(ctx', t);
      if (other.left == null || other.left.color == Black) && (other.right == null || other.right.color == Black) {
        EraseRecolorRight(ctx', t, h);
        SetColor(other, Red, InLeft(ctx'.n, ctx'.c, t, ctx'.up), ctx'.l);
        t', h', ctx' := Node(ctx'.l.(c := Red), ctx'.n, ctx'.c, t), if ctx'.c == Red then h else h + 1, ctx'.up;
        n' := parent;
        Look(ctx', t');
        parent' := parent.parent;
        done := false;
      } else {
        EraseRepairedRight(ctx', t, h);
        EraseFinishRight(parent, other, ctx', t);
        n', parent', done := node, null, true;
      }
    }

    /** rbtree.c:149-159: the closing rotations. */
    method EraseFinishRight(parent: RbNode, sibling: RbNode, ghost ctx: Ctx, ghost t: Tree)
      requires Valid() && tree == Plug(ctx, t) && ctx.InRight? && parent == ctx.n
      requires ctx.l.Node? && sibling == ctx.l.n && (IsRed(ctx.l.l) || IsRed(ctx.l.r)) && IsRed(NephewRight(ctx.l).l)
      modifies this, Nodes(tree)
      ensures Valid() && tree == Plug(ctx.up, RepairedRight(ctx, t, NephewRight(ctx.l)))
      ensures Nodes(tree) == old(Nodes(tree)) && InOrder(tree) == old(InOrder(tree))
    {
      var other := sibling;
      LookSibling(ctx, t);
      LookNephews(ctx, t);
      ghost var c' := ctx.(l := NephewRight(ctx.l));
      if other.left == null || other.left.color == Black {
        EraseNephewRight(other, InLeft(ctx.n, ctx.c, t, ctx.up), ctx.l);
        Look(c', t);
        other := parent.left;
      }
      EraseRepairRight(parent, other, c', t);
    }

    /** __rb_erase_color: the subtree `t0` at `ctx0` is one black node short. */
    method EraseColor(n: RbNode?, parent: RbNode?, ghost ctx0: Ctx, ghost t0: Tree, ghost h0: nat)
      requires Valid() && tree == Plug(ctx0, t0) && EraseInv(ctx0, t0, h0) && n == Ptr(t0) && parent == CtxPtr(ctx0)
      modifies this, Nodes(tree)
      ensures Valid() && RedBlack(tree)
      ensures Nodes(tree) == old(Nodes(tree)) && InOrder(tree) == old(InOrder(tree))
    {
      var x, p, done := n, parent, false;
      ghost var ctx, t, h := ctx0, t0, h0;
      while !done && (x == null || x.color == Black) && x != node
        invariant Valid() && Nodes(tree) == old(Nodes(tree)) && InOrder(tree) == old(InOrder(tree))
        invariant done ==> x == node && exists H: nat :: RBT(tree, H)
        invariant !done ==> tree == Plug(ctx, t) && EraseInv(ctx, t, h) && x == Ptr(t) && p == CtxPtr(ctx)
        decreases !done, Depth(ctx), !IsRed(t)
      {
        SiblingExists(ctx, t, h);
        Look(ctx, t);
        if p.left == x {
          x, p, done, ctx, t, h := EraseUnderLeft(x, p, ctx, t, h);
        } else {
          x, p, done, ctx, t, h := EraseUnderRight(x, p, ctx, t, h);
        }
      }
      if done {
        RootBlackened(tree);
        Look(Top, tree);
      } else {
        Look(ctx, t);
        EraseEnd(ctx, t, h);
      }
      if x != null {
        SetColor(x, Black, if done then Top else ctx, if done then tree else t);
      }
    }

    /** The descent of rb_first and of rbtree.c:182-184, from the subtree `t0`. */
    method Leftmost(start: RbNode, ghost outer: Ctx, ghost t0: Tree) returns (n: RbNode, ghost mid: Ctx, ghost t: Tree)
      requires Valid() && tree == Plug(outer, t0) && t0.Node? && start == t0.n
      ensures LeftSpine(mid) && t0 == Plug(mid, t) && tree == Plug(Append(mid, outer), t) && t.Node? && t.l.Leaf? && n == t.n
      ensures Valid()
    {
      n, mid, t := start, Top, t0;
      Look(outer, t0);
      while n.left != null
        invariant LeftSpine(mid) && t0 == Plug(mid, t) && tree == Plug(Append(mid, outer), t) && t.Node? && n == t.n
        invariant Valid() && n.left == Ptr(t.l)
        decreases t
      {
        n := n.left;
        mid, t := InLeft(t.n, t.c, t.r, mid), t.l;
        Look(Append(mid, outer), t);
      }
    }

    /** rbtree.c:216-228: `x` leaves its place to its only child. */
    method Unlink(x: RbNode, child: RbNode?, ghost s: set<RbNode>) returns (parent: RbNode?)
      requires x in s && (child != null ==> child in s && child != x && child != x.parent)
      requires x.parent != null ==> x.parent in s && x.parent != x && (x.parent.left == x) != (x.parent.right == x)
      modifies this`node, s
      ensures parent == old(x.parent) && SpliceMove(old(Snap(s)), Snap(s), x, child, parent)
      ensures node == if parent == null then child else old(node)
    {
      parent := x.parent;
      if child != null {
        child.parent := parent;
      }
      if parent != null {
        if parent.left == x {
          parent.left := child;
        } else {
          parent.right := child;
        }
      } else {
        node := child;
      }
    }

    /** rbtree.c:186-211: the successor `n` of `x` takes the place of `x`. */
    method MoveSuccessor(x: RbNode, n: RbNode, ghost s: set<RbNode>) returns (child: RbNode?, parent: RbNode)
      requires x in s && n in s && x.left != null && x.right != null && n.parent != null
      requires SuccessorApart(Snap(s), x, n, x.left, x.right, x.parent, n.parent, n.right)
      modifies this`node, s
      ensures child == old(n.right) && parent == if old(n.parent) == x then n else old(n.parent)
      ensures SuccessorMove(old(Snap(s)), Snap(s), x, n, old(x.left), old(x.right), old(x.parent), old(n.parent), child)
      ensures node == if old(x.parent) == null then n else old(node)
    {
      if x.parent != null {
        if x.parent.left == x {
          x.parent.left := n;
        } else {
          x.parent.right := n;
        }
      } else {
        node := n;
      }
      child := n.right;
      parent := n.parent;
      if parent == x {
        parent := n;
      } else {
        if child != null {
          child.parent := parent;
        }
        parent.left := child;
        n.right := x.right;
        x.right.parent := n;
      }
      n.parent, n.color := x.parent, x.color;
      n.left := x.left;
      x.left.parent := n;
    }

    /** rb_erase of a node with at most one child. */
    method EraseOne(x: RbNode, child: RbNode?, ghost ctx: Ctx, ghost t: Tree, ghost u: Tree) returns (ghost i: nat)
      requires Valid() && RedBlack(tree) && tree == Plug(ctx, t) && t.Node? && t.n == x && child == Ptr(u)
      requires (t.l.Leaf? && u == t.r) || (t.r.Leaf? && u == t.l)
      modifies this, Nodes(tree)
      ensures Valid() && RedBlack(tree) && Nodes(tree) == old(Nodes(tree)) - {x}
      ensures Removed(old(InOrder(tree)), InOrder(tree), i, x)
    {
      ghost var h := Snap(Nodes(tree));
      RotationApart(h, node, ctx, t);
      LookChild(ctx, t, u);
      var color := x.color;
      var parent := Unlink(x, child, Nodes(tree));
      SplicedSpells(h, Snap(Nodes(tree)), old(node), ctx, t, u);
      i := SplicedOrder(ctx, t, u);
      tree := Plug(ctx, u);
      Respell(old(Nodes(tree)));
      ghost var k := EraseOneStart(ctx, t, u);
      if color == Black {
        EraseColor(child, parent, ctx, u, k);
      }
    }

    /** rb_erase of a node with two children. */
    method EraseTwo(x: RbNode, ghost ctx: Ctx, ghost t0: Tree) returns (ghost i: nat)
      requires Valid() && RedBlack(tree) && tree == Plug(ctx, t0) && t0.Node? && t0.n == x && t0.l.Node? && t0.r.Node?
      modifies this, Nodes(tree)
      ensures Valid() && RedBlack(tree) && Nodes(tree) == old(Nodes(tree)) - {x}
      ensures Removed(old(InOrder(tree)), InOrder(tree), i, x)
    {
      ghost var l, c := t0.l, t0.c;
      Look(ctx, t0);
      var n, mid, t := Leftmost(x.right, InRight(l, x, c, ctx), t0.r);
      ghost var k := EraseTwoStart(ctx, l, x, c, mid, t);
      i := EraseTwoOrder(ctx, l, x, c, mid, t);
      var child, parent, color := PutSuccessor(x, n, ctx, l, c, mid, t);
      if color == Black {
        EraseColor(child, parent, TwoChild(ctx, l, n, c, mid), t.r, k);
      }
    }

    /** rbtree.c:186-213 at a position of the tree. */
    method PutSuccessor(x: RbNode, n: RbNode, ghost ctx: Ctx, ghost l: Tree, ghost c: Color, ghost mid: Ctx, ghost t: Tree)
      returns (child: RbNode?, parent: RbNode?, color: Color)
      requires Valid() && tree == Plug(TwoChild(ctx, l, x, c, mid), t)
      requires LeftSpine(mid) && l.Node? && t.Node? && t.l.Leaf? && n == t.n
      modifies this, Nodes(tree)
      ensures Valid() && tree == Plug(TwoChild(ctx, l, n, c, mid), t.r)
      ensures Nodes(tree) == old(Nodes(tree)) - {x}
      ensures color == t.c && child == Ptr(t.r) && parent == CtxPtr(TwoChild(ctx, l, n, c, mid))
    {
      ghost var h := Snap(Nodes(tree));
      SuccessorView(h, node, ctx, l, x, c, mid, t);
      SuccessorParent(h, node, ctx, l, x, c, mid, t);
      color := n.color;
      child, parent := MoveSuccessor(x, n, Nodes(tree));
      SuccessorSpells(h, Snap(Nodes(tree)), old(node), ctx, l, x, c, mid, t);
      SuccessorNodes(h, old(node), ctx, l, x, c, mid, t);
      tree := Plug(TwoChild(ctx, l, n, c, mid), t.r);
      Respell(old(Nodes(tree)));
    }

    /**
     * rb_erase: the tree keeps the red-black discipline, and its in-order
     * sequence loses exactly `x`; every other node keeps its identity.
     */
    method Erase(x: RbNode) returns (ghost i: nat)
      requires Valid() && RedBlack(tree) && x in Nodes(tree)
      modifies this, Nodes(tree)
      ensures Valid() && RedBlack(tree) && Nodes(tree) == old(Nodes(tree)) - {x}
      ensures Removed(old(InOrder(tree)), InOrder(tree), i, x)
    {
      ghost var ctx, t := Locate(tree, x);
      Look(ctx, t);
      if x.left == null {
        i := EraseOne(x, x.right, ctx, t, t.r);
      } else if x.right == null {
        i := EraseOne(x, x.left, ctx, t, t.l);
      } else {
        i := EraseTwo(x, ctx, t);
      }
    }

    /** rb_first: the first node in order. */
    method First() returns (n: RbNode?)
      requires Valid()
      ensures n == null <==> tree == Leaf
      ensures n != null ==> InOrder(tree) != [] && InOrder(tree)[0] == n
    {
      Look(Top, tree);
      if node == null {
        return null;
      }
      ghost var mid, t;
      n, mid, t := Leftmost(node, Top, tree);
      SuccessorFirst(mid, t.n, t.c, t.r);
    }

    /** Nodes that are no longer in the shape do not matter to it. */
    lemma Respell(s: set<RbNode>)
      requires Spells(Snap(s), node, tree) && Nodes(tree) <= s
      ensures Valid()
    {
      RepFrame(Snap(s), Snap(Nodes(tree)), tree, null);
    }

    lemma LookChild(ctx: Ctx, t: Tree, u: Tree)
      requires Valid() && tree == Plug(ctx, t) && t.Node? && (u == t.l || u == t.r)
      ensures u.Node? ==> u.n in Nodes(tree) && u.n != t.n && u.n != CtxPtr(ctx)
    {
      PlugNodes(ctx, t);
    }

    /** The colours of the sibling's children. */
    lemma LookNephews(ctx: Ctx, t: Tree)
      requires Valid() && tree == Plug(ctx, t) && !ctx.Top? && Sibling(ctx).Node?
      ensures var s := Sibling(ctx);
              && s.n.left == Ptr(s.l) && s.n.right == Ptr(s.r) && s.n in Nodes(tree) && s.n.color == s.c
              && (s.l.Node? ==> s.l.n in Nodes(tree) && s.l.n.color == s.l.c)
              && (s.r.Node? ==> s.r.n in Nodes(tree) && s.r.n.color == s.r.c)
    {
      var s := Sibling(ctx);
      var c' := if ctx.InLeft? then InRight(t, ctx.n, ctx.c, ctx.up) else InLeft(ctx.n, ctx.c, t, ctx.up);
      assert Plug(c', s) == tree;
      Look(c', s);
      Look(InLeft(s.n, s.c, s.r, c'), s.l);
      Look(InRight(s.l, s.n, s.c, c'), s.r);
    }

    /** The colour of the other child of the frame around a position. */
    lemma LookSibling(ctx: Ctx, t: Tree)
      requires Valid() && tree == Plug(ctx, t) && !ctx.Top?
      ensures var s := Sibling(ctx); s.Node? ==>
        s.n in Nodes(tree) && s.n.color == s.c && s.n.parent == ctx.n && s.n.left == Ptr(s.l) && s.n.right == Ptr(s.r)
    {
      if ctx.InLeft? {
        Look(InRight(t, ctx.n, ctx.c, ctx.up), ctx.r);
      } else {
        Look(InLeft(ctx.n, ctx.c, t, ctx.up), ctx.l);
      }
    }
  }

  /** Taking out a black node leaves its child one black node short; taking out a red one leaves no fault. */
  lemma EraseOneStart(ctx: Ctx, t: Tree, u: Tree) returns (k: nat)
    requires RedBlack(Plug(ctx, t)) && t.Node? && ((t.l.Leaf? && u == t.r) || (t.r.Leaf? && u == t.l))
    ensures t.c == Black ==> EraseInv(ctx, u, k)
    ensures t.c == Red ==> RedBlack(Plug(ctx, u))
  {
    var H: nat :| RBT(Plug(ctx, t), H);
    var h := SplitRBT(ctx, t, H);
    PlugRoot(ctx, t);
    PlugRoot(ctx, u);
    if t.c == Red {
      k := h;
      PlugRBT(ctx, u, h);
    } else {
      k := h - 1;
    }
  }

  lemma EraseTwoOrder(ctx: Ctx, l: Tree, x: RbNode, c: Color, mid: Ctx, t: Tree) returns (i: nat)
    requires LeftSpine(mid) && t.Node? && t.l.Leaf?
    ensures Removed(InOrder(Plug(TwoChild(ctx, l, x, c, mid), t)), InOrder(Plug(TwoChild(ctx, l, t.n, c, mid), t.r)), i, x)
  {
    AppendPlug(mid, InRight(l, x, c, ctx), t);
    AppendPlug(mid, InRight(l, t.n, c, ctx), t.r);
    i := SuccessorOrder(ctx, l, x, c, mid, t.n, t.c, t.r);
  }

  /** The same for the place the successor came from. */
  lemma EraseTwoStart(ctx: Ctx, l: Tree, x: RbNode, c: Color, mid: Ctx, t: Tree) returns (k: nat)
    requires RedBlack(Plug(TwoChild(ctx, l, x, c, mid), t)) && t.Node? && t.l.Leaf?
    ensures t.c == Black ==> EraseInv(TwoChild(ctx, l, t.n, c, mid), t.r, k)
    ensures t.c == Red ==> RedBlack(Plug(TwoChild(ctx, l, t.n, c, mid), t.r))
  {
    var at, at' := TwoChild(ctx, l, x, c, mid), TwoChild(ctx, l, t.n, c, mid);
    var H: nat :| RBT(Plug(at, t), H);
    var h := SplitRBT(at, t, H);
    PlugRoot(at, t);
    PlugRoot(at', t.r);
    SpineOk(mid, l, x, t.n, c, ctx, h);
    if t.c == Red {
      k := h;
      PlugRBT(at', t.r, h);
    } else {
      k := h - 1;
    }
  }

  lemma InsertStart(ctx: Ctx, x: RbNode)
    requires RedBlack(Plug(ctx, Leaf))
    ensures InsertInv(ctx, Node(Leaf, x, Red, Leaf), 0)
  {
    var H: nat :| RBT(Plug(ctx, Leaf), H);
    var h := SplitRBT(ctx, Leaf, H);
    PlugRoot(ctx, Leaf);
  }

  /** Without a red parent the tree is sound up to the colour of its root. */
  lemma InsertEnd(ctx: Ctx, t: Tree, h: nat)
    requires InsertInv(ctx, t, h) && !CtxRed(ctx)
    ensures Plug(ctx, t).Node? && RedBlack(Plug(ctx, t).(c := Black))
  {
    PlugRBT(ctx, t, h);
    PlugRoot(ctx, t);
    var all := Plug(ctx, t);
    var H := CtxHeight(ctx, h);
    if all.c == Red {
      BlackenRoot(all, H);
    }
    assert RBT(all.(c := Black), if all.c == Red then H + 1 else H);
  }
}
