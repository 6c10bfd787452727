/**
 * The two-level timer tree of src/coro/sched.c on linked nodes: a red-black
 * tree of deadlines, and for each of its nodes a red-black tree of the
 * coroutines due then. It stands for a map from deadline to coroutine ids,
 * the map that Sched works on. A tree node stands for the coroutine or the
 * timer node that embeds it; its key is the id or the deadline.
 */
module TimerTree {
  import opened RbShape
  import opened RbTree
  import opened Ordered
  import opened Sched

  ghost predicate GoodTree(t: Tree) {
    RedBlack(t) && Sorted(InOrder(t))
  }

  ghost function Keys(nodes: set<RbNode>): set<int> {
    set n | n in nodes :: n.key
  }

  /** No node is in two groups, or in a group and in the tree of deadlines. */
  ghost predicate Separate(deadlines: set<RbNode>, members: map<RbNode, set<RbNode>>) {
    && (forall m, n, x :: m in members && n in members && m != n && x in members[m] ==> x !in members[n])
    && (forall n, x :: n in members && x in members[n] ==> x !in deadlines)
  }

  ghost predicate GoodTrees(trees: map<RbNode, Tree>) {
    forall n :: n in trees ==> GoodTree(trees[n]) && trees[n] != Leaf
  }

  /** Each deadline node has a root of its own. */
  ghost predicate Rooted(group: map<RbNode, RbRoot>, inactive: RbRoot) {
    && (forall n :: n in group ==> group[n] != inactive)
    && (forall m, n :: m in group && n in group && m != n ==> group[m] != group[n])
  }

  /** The map that the groups stand for. */
  ghost predicate Stands(members: map<RbNode, set<RbNode>>, timers: map<int, set<int>>) {
    && (forall m, n :: m in members && n in members && m.key == n.key ==> m == n)
    && (forall n :: n in members ==> n.key in timers && timers[n.key] == Keys(members[n]))
    && (forall d :: d in timers ==> HasDeadline(members, d))
  }

  ghost predicate HasDeadline(members: map<RbNode, set<RbNode>>, d: int) {
    exists n :: n in members && n.key == d
  }

  // ---- the map ----

  /**
   * What the trees hold: the tree of deadlines, the tree of each group, the
   * nodes of both, and the map they stand for.
   */
  datatype Forest = Forest(
    top: Tree, deadlines: set<RbNode>, trees: map<RbNode, Tree>, members: map<RbNode, set<RbNode>>,
    timers: map<int, set<int>>)

  lemma KeysAdd(nodes: set<RbNode>, x: RbNode)
    ensures Keys(nodes + {x}) == Keys(nodes) + {x.key}
  {
  }

  lemma KeysDrop(nodes: set<RbNode>, x: RbNode)
    requires x in nodes && forall y :: y in nodes && y.key == x.key ==> y == x
    ensures Keys(nodes - {x}) == Keys(nodes) - {x.key}
  {
  }

  lemma StandsAt(members: map<RbNode, set<RbNode>>, timers: map<int, set<int>>, n: RbNode)
    requires Stands(members, timers) && n in members
    ensures n.key in timers && timers[n.key] == Keys(members[n])
  {
  }

  lemma StandsAdd(members: map<RbNode, set<RbNode>>, timers: map<int, set<int>>, n: RbNode, x: RbNode)
    requires Stands(members, timers) && n in members
    ensures Stands(members[n := members[n] + {x}], AddTimer(timers, n.key, x.key))
  {
  }

  lemma StandsNew(members: map<RbNode, set<RbNode>>, timers: map<int, set<int>>, n: RbNode, x: RbNode)
    requires Stands(members, timers) && n.key !in timers
    ensures Stands(members[n := {x}], AddTimer(timers, n.key, x.key))
  {
  }

  lemma StandsDrop(members: map<RbNode, set<RbNode>>, timers: map<int, set<int>>, n: RbNode, x: RbNode)
    requires Stands(members, timers) && n in members && x in members[n]
    requires forall y :: y in members[n] && y.key == x.key ==> y == x
    ensures members[n] - {x} != {} ==>
              Stands(members[n := members[n] - {x}], DropTimer(timers, n.key, x.key))
    ensures members[n] - {x} == {} ==> DropTimer(timers, n.key, x.key) == timers - {n.key}
  {
    KeysDrop(members[n], x);
    if y :| y in members[n] - {x} {
      assert y.key in Keys(members[n] - {x});
      hide Keys;
      var after := members[n := members[n] - {x}];
      forall d | d in timers ensures HasDeadline(after, d) {
        var m :| m in members && m.key == d;
        assert m in after;
      }
    } else {
      assert members[n] - {x} == {};
      assert Keys({}) == {};
    }
  }

  lemma StandsGone(members: map<RbNode, set<RbNode>>, timers: map<int, set<int>>, n: RbNode)
    requires Stands(members, timers) && n in members
    ensures Stands(members - {n}, timers - {n.key})
  {
  }

  /** Members of an ordered tree are told apart by their keys. */
  lemma OneKey(t: Tree, x: RbNode, y: RbNode)
    requires Sorted(InOrder(t)) && x in Nodes(t) && y in Nodes(t) && x.key == y.key
    ensures x == y
  {
    InOrderNodes(t, x);
    InOrderNodes(t, y);
    var i :| 0 <= i < |InOrder(t)| && InOrder(t)[i] == x;
    var j :| 0 <= j < |InOrder(t)| && InOrder(t)[j] == y;
  }

  lemma SeparateAdd(deadlines: set<RbNode>, members: map<RbNode, set<RbNode>>, n: RbNode, x: RbNode)
    requires Separate(deadlines, members) && n in members
    requires x !in deadlines && forall m :: m in members ==> x !in members[m]
    ensures Separate(deadlines, members[n := members[n] + {x}])
  {
  }

  /** The trees of a forest, the order of the tree of deadlines aside. */
  ghost predicate Shaped(f: Forest, group: map<RbNode, RbRoot>, inactive: RbRoot) {
    && group.Keys == f.deadlines && f.trees.Keys == f.deadlines && f.members.Keys == f.deadlines
    && RedBlack(f.top) && GoodTrees(f.trees) && Separate(f.deadlines, f.members) && Rooted(group, inactive)
  }

  ghost predicate Arranged(f: Forest, group: map<RbNode, RbRoot>, inactive: RbRoot) {
    && group.Keys == f.deadlines && f.trees.Keys == f.deadlines && f.members.Keys == f.deadlines
    && GoodTree(f.top) && GoodTrees(f.trees) && Separate(f.deadlines, f.members) && Rooted(group, inactive)
    && Stands(f.members, f.timers)
  }

  /** Nothing of group n is shared. */
  ghost predicate Alone(f: Forest, group: map<RbNode, RbRoot>, inactive: RbRoot, n: RbNode) {
    && n in group && n in f.trees && n in f.members && group[n] != inactive
    && (forall y :: y in f.members[n] ==> y !in f.deadlines)
    && (forall m :: m in group && m in f.members && m != n ==> group[m] != group[n])
    && (forall m, y :: m in group && m in f.members && m != n && y in f.members[m] ==> y !in f.members[n])
  }

  ghost predicate Unused(f: Forest, x: RbNode) {
    x !in f.deadlines && forall m :: m in f.members ==> x !in f.members[m]
  }

  /** A deadline is in the tree exactly when the map has it. */
  lemma TopKeys(f: Forest, d: int)
    requires Stands(f.members, f.timers) && Nodes(f.top) == f.deadlines == f.members.Keys
    ensures HasKey(f.top, d) <==> d in f.timers
  {
  }

  /** Two forests that differ in one group alone. */
  ghost predicate OnlyGroup(f: Forest, after: Forest, n: RbNode) {
    && after.top == f.top && after.deadlines == f.deadlines
    && (forall m :: m in after.members && m in after.trees && m != n ==>
          m in f.members && m in f.trees && after.members[m] == f.members[m] && after.trees[m] == f.trees[m])
  }

  function Joined(f: Forest, n: RbNode, x: RbNode, t: Tree): Forest
    requires n in f.members
  {
    f.(trees := f.trees[n := t], members := f.members[n := f.members[n] + {x}],
       timers := AddTimer(f.timers, n.key, x.key))
  }

  lemma JoinedArranged(f: Forest, group: map<RbNode, RbRoot>, inactive: RbRoot, n: RbNode, x: RbNode, t: Tree)
    requires Arranged(f, group, inactive) && n in f.members && Unused(f, x) && GoodTree(t) && t != Leaf
    ensures Arranged(Joined(f, n, x, t), group, inactive) && OnlyGroup(f, Joined(f, n, x, t), n)
  {
    JoinedOnly(f, n, x, t);
    StandsAdd(f.members, f.timers, n, x);
    SeparateAdd(f.deadlines, f.members, n, x);
    GoodTreesSet(f.trees, n, t);
    KeysSet(f.trees, n, t);
    KeysSet(f.members, n, f.members[n] + {x});
    hide GoodTree, GoodTrees, Stands, Separate, Rooted, AddTimer, OnlyGroup;
  }

  lemma JoinedOnly(f: Forest, n: RbNode, x: RbNode, t: Tree)
    requires n in f.members && f.trees.Keys == f.members.Keys
    ensures OnlyGroup(f, Joined(f, n, x, t), n)
  {
  }

  lemma GoodTreesSet(trees: map<RbNode, Tree>, n: RbNode, t: Tree)
    requires GoodTrees(trees) && GoodTree(t) && t != Leaf
    ensures GoodTrees(trees[n := t])
  {
  }

  lemma KeysSet<V>(m: map<RbNode, V>, n: RbNode, v: V)
    ensures m[n := v].Keys == m.Keys + {n}
    ensures n in m ==> m[n := v].Keys == m.Keys
  {
  }

  /** A new deadline with one coroutine. */
  function Planted(f: Forest, n: RbNode, x: RbNode, top: Tree, t: Tree): Forest {
    Forest(top, f.deadlines + {n}, f.trees[n := t], f.members[n := {x}], AddTimer(f.timers, n.key, x.key))
  }

  lemma PlantedShaped(f: Forest, group: map<RbNode, RbRoot>, inactive: RbRoot,
                      n: RbNode, g: RbRoot, x: RbNode, top: Tree, t: Tree)
    requires Arranged(f, group, inactive) && Unused(f, n) && Unused(f, x) && n != x
    requires RedBlack(top) && GoodTree(t) && t != Leaf
    requires g != inactive && forall m :: m in group ==> group[m] != g
    ensures Shaped(Planted(f, n, x, top, t), group[n := g], inactive)
    ensures GoodTree(top) && n.key !in f.timers ==> Arranged(Planted(f, n, x, top, t), group[n := g], inactive)
    ensures !Sorted(InOrder(top)) ==> !Arranged(Planted(f, n, x, top, t), group[n := g], inactive)
  {
    if n.key !in f.timers {
      StandsNew(f.members, f.timers, n, x);
    }
    SeparateNew(f.deadlines, f.members, n, x);
    GoodTreesSet(f.trees, n, t);
    KeysSet(f.trees, n, t);
    KeysSet(f.members, n, {x});
    KeysSet(group, n, g);
    RootedNew(group, inactive, n, g);
    hide RedBlack, Sorted, InOrder, GoodTrees, Stands, Separate, Rooted, AddTimer;
  }

  lemma RootedNew(group: map<RbNode, RbRoot>, inactive: RbRoot, n: RbNode, g: RbRoot)
    requires Rooted(group, inactive) && g != inactive && forall m :: m in group ==> group[m] != g
    ensures Rooted(group[n := g], inactive)
  {
  }

  lemma SeparateNew(deadlines: set<RbNode>, members: map<RbNode, set<RbNode>>, n: RbNode, x: RbNode)
    requires Separate(deadlines, members) && n !in members && n != x
    requires x !in deadlines && forall m :: m in members ==> x !in members[m] && n !in members[m]
    ensures Separate(deadlines + {n}, members[n := {x}])
  {
  }

  lemma FirstLeast(t: Tree, n: RbNode, m: RbNode)
    requires Sorted(InOrder(t)) && InOrder(t) != [] && InOrder(t)[0] == n && m in Nodes(t)
    ensures n.key <= m.key && n in Nodes(t)
  {
    InOrderNodes(t, n);
    InOrderNodes(t, m);
    assert InOrder(t)[0] in InOrder(t);
    var j :| 0 <= j < |InOrder(t)| && InOrder(t)[j] == m;
  }

  lemma Bounds(f: Forest, first: RbNode?)
    requires GoodTree(f.top) && Stands(f.members, f.timers) && f.members.Keys == Nodes(f.top)
    requires (first == null <==> f.top == Leaf) && (first != null ==> InOrder(f.top) != [] && InOrder(f.top)[0] == first)
    ensures first == null ==> forall d :: d !in f.timers
    ensures first != null ==> first in Nodes(f.top) && forall d :: d in f.timers ==> first.key <= d
  {
    if first == null {
      assert forall d :: d in f.timers ==> HasDeadline(f.members, d);
      assert f.members == map[];
    } else {
      InOrderNodes(f.top, first);
      assert InOrder(f.top)[0] in InOrder(f.top);
      forall d | d in f.timers ensures first.key <= d {
        assert HasDeadline(f.members, d);
        var m :| m in f.members && m.key == d;
        FirstLeast(f.top, first, m);
      }
    }
  }

  lemma NothingDropped(timers: map<int, set<int>>, d: int, c: int)
    requires c !in Group(timers, d) && (d in timers ==> timers[d] != {})
    ensures DropTimer(timers, d, c) == timers
  {
    if d in timers {
      assert timers[d] - {c} == timers[d];
    }
  }

  ghost predicate Once(order: seq<int>, ids: set<int>) {
    && (forall i, j :: 0 <= i < j < |order| ==> order[i] != order[j])
    && (forall c :: c in order <==> c in ids)
  }

  /** A deadline gone with its group. */
  function Pruned(f: Forest, n: RbNode, top: Tree): Forest {
    Forest(top, f.deadlines - {n}, f.trees - {n}, f.members - {n}, f.timers - {n.key})
  }

  lemma PrunedArranged(f: Forest, group: map<RbNode, RbRoot>, inactive: RbRoot, n: RbNode, top: Tree)
    requires Arranged(f, group, inactive) && n in f.deadlines && GoodTree(top)
    ensures Arranged(Pruned(f, n, top), group - {n}, inactive)
  {
    StandsGone(f.members, f.timers, n);
    KeysGone(f.trees, n);
    KeysGone(f.members, n);
    KeysGone(group, n);
    PartsGone(f, group, inactive, n);
    hide GoodTree, GoodTrees, Stands, Separate, Rooted;
  }

  lemma KeysGone<V>(m: map<RbNode, V>, n: RbNode)
    ensures (m - {n}).Keys == m.Keys - {n}
  {
  }

  lemma PartsGone(f: Forest, group: map<RbNode, RbRoot>, inactive: RbRoot, n: RbNode)
    requires GoodTrees(f.trees) && Separate(f.deadlines, f.members) && Rooted(group, inactive)
    ensures GoodTrees(f.trees - {n}) && Separate(f.deadlines - {n}, f.members - {n}) && Rooted(group - {n}, inactive)
  {
  }

  /** A coroutine gone from a group that keeps others. */
  function Parted(f: Forest, n: RbNode, x: RbNode, t: Tree): Forest
    requires n in f.members
  {
    f.(trees := f.trees[n := t], members := f.members[n := f.members[n] - {x}],
       timers := DropTimer(f.timers, n.key, x.key))
  }

  lemma PartedArranged(f: Forest, group: map<RbNode, RbRoot>, inactive: RbRoot, n: RbNode, x: RbNode, t: Tree)
    requires Arranged(f, group, inactive) && n in f.members && x in f.members[n] && f.members[n] - {x} != {}
    requires forall y :: y in f.members[n] && y.key == x.key ==> y == x
    requires GoodTree(t) && t != Leaf
    ensures Arranged(Parted(f, n, x, t), group, inactive) && OnlyGroup(f, Parted(f, n, x, t), n)
  {
    PartedOnly(f, n, x, t);
    StandsDrop(f.members, f.timers, n, x);
    SeparateDrop(f.deadlines, f.members, n, x);
    GoodTreesSet(f.trees, n, t);
    KeysSet(f.trees, n, t);
    KeysSet(f.members, n, f.members[n] - {x});
    hide GoodTree, GoodTrees, Stands, Separate, Rooted, DropTimer, OnlyGroup;
  }

  lemma PartedOnly(f: Forest, n: RbNode, x: RbNode, t: Tree)
    requires n in f.members && f.trees.Keys == f.members.Keys
    ensures OnlyGroup(f, Parted(f, n, x, t), n)
  {
  }

  lemma SeparateDrop(deadlines: set<RbNode>, members: map<RbNode, set<RbNode>>, n: RbNode, x: RbNode)
    requires Separate(deadlines, members) && n in members
    ensures Separate(deadlines, members[n := members[n] - {x}])
  {
  }

  /** The linked nodes of one tree. */
  ghost predicate Match(root: RbRoot, t: Tree, nodes: set<RbNode>)
    reads root, nodes
  {
    root.tree == t && Nodes(t) == nodes && root.Valid()
  }

  ghost function AllMembers(f: Forest): set<RbNode> {
    set n, x | n in f.members && x in f.members[n] :: x
  }

  ghost predicate MatchAll(group: map<RbNode, RbRoot>, f: Forest)
    reads group.Values, AllMembers(f)
  {
    forall m :: m in group && m in f.trees && m in f.members ==> Match(group[m], f.trees[m], f.members[m])
  }

  lemma MatchGrown(group: map<RbNode, RbRoot>, f: Forest, n: RbNode, g: RbRoot, after: Forest)
    requires MatchAll(group, f) && n !in group && n in after.trees && n in after.members
    requires group.Keys == f.trees.Keys == f.members.Keys
    requires Match(g, after.trees[n], after.members[n])
    requires after.trees == f.trees[n := after.trees[n]] && after.members == f.members[n := after.members[n]]
    ensures MatchAll(group[n := g], after)
  {
  }

  lemma MatchOne(group: map<RbNode, RbRoot>, f: Forest, n: RbNode)
    requires MatchAll(group, f) && n in group && n in f.trees && n in f.members
    ensures Match(group[n], f.trees[n], f.members[n])
  {
  }

  ghost predicate KeysTell(nodes: set<RbNode>) {
    forall x, y :: x in nodes && y in nodes && x.key == y.key ==> x == y
  }

  lemma GoodTells(t: Tree)
    requires GoodTree(t)
    ensures KeysTell(Nodes(t))
  {
    forall x, y | x in Nodes(t) && y in Nodes(t) && x.key == y.key ensures x == y {
      OneKey(t, x, y);
    }
  }

  lemma OneMore(order: seq<int>, nodes: set<RbNode>, left: set<RbNode>, x: RbNode)
    requires KeysTell(nodes) && left <= nodes && x in left && Once(order, Keys(nodes - left))
    ensures Once(order + [x.key], Keys(nodes - (left - {x})))
  {
    assert nodes - (left - {x}) == (nodes - left) + {x};
    KeysAdd(nodes - left, x);
    assert x.key !in Keys(nodes - left);
  }

  method EraseRoot(g: RbRoot) returns (recent: RbNode)
    requires g.Valid() && GoodTree(g.tree) && g.node != null
    modifies g, Nodes(g.tree)
    ensures recent in old(Nodes(g.tree)) && Nodes(g.tree) == old(Nodes(g.tree)) - {recent}
    ensures g.Valid() && GoodTree(g.tree) && (g.node == null <==> Nodes(g.tree) == {})
  {
    g.EmptyRoot();
    recent := g.node;
    g.Look(Top, g.tree);
    EraseNode(g, recent);
    g.EmptyRoot();
  }

  /** timeout_coroutine_handler: the root of the group, until there is none. */
  method TimeoutHandler(g: RbRoot, ghost nodes: set<RbNode>) returns (order: seq<int>)
    requires Match(g, g.tree, nodes) && GoodTree(g.tree)
    modifies g, nodes
    ensures g.Valid() && Nodes(g.tree) == {} && Once(order, Keys(nodes))
  {
    GoodTells(g.tree);
    g.EmptyRoot();
    assert nodes - Nodes(g.tree) == {};
    hide RbRoot.Valid, GoodTree, Nodes, Once, KeysTell;
    order := [];
    NoneYet();
    while g.node != null
      invariant g.Valid() && GoodTree(g.tree) && (g.node == null <==> Nodes(g.tree) == {}) && Nodes(g.tree) <= nodes
      invariant Once(order, Keys(nodes - Nodes(g.tree)))
      decreases |Nodes(g.tree)|
    {
      ghost var left := Nodes(g.tree);
      var recent := EraseRoot(g);
      OneMore(order, nodes, left, recent);
      order := order + [recent.key];
    }
    assert nodes - Nodes(g.tree) == nodes;
  }

  lemma NoneYet()
    ensures Once([], Keys({}))
  {
  }

  // ---- expiry, on the map ----

  ghost function Later(timers: map<int, set<int>>, now: int): map<int, set<int>> {
    map d | d in timers && now < d :: timers[d]
  }

  predicate NoRepeat(order: seq<(int, int)>) {
    forall i, j :: 0 <= i < j < |order| ==> order[i] != order[j] && order[i].0 <= order[j].0
  }

  /** Pairs of deadline and id: all that are due, once each, by deadline. */
  ghost predicate Expiry(timers: map<int, set<int>>, now: int, order: seq<(int, int)>) {
    && NoRepeat(order)
    && (forall p :: p in order <==> p.0 in timers && p.0 <= now && p.1 in timers[p.0])
  }

  /** Some deadlines are gone, all due and all before those that are left. */
  ghost predicate Taken(was: map<int, set<int>>, timers: map<int, set<int>>, now: int, order: seq<(int, int)>) {
    && (forall d :: d in timers ==> d in was && timers[d] == was[d])
    && (forall d, e :: d in was && d !in timers && e in timers ==> d < e)
    && (forall d :: d in was && d !in timers ==> d <= now)
    && NoRepeat(order)
    && (forall p :: p in order <==> p.0 in was && p.0 !in timers && p.1 in was[p.0])
  }

  function Paired(d: int, ids: seq<int>): seq<(int, int)> {
    seq(|ids|, i requires 0 <= i < |ids| => (d, ids[i]))
  }

  lemma NothingTaken(was: map<int, set<int>>)
    ensures forall now :: Taken(was, was, now, [])
  {
  }

  lemma TakeMore(was: map<int, set<int>>, before: map<int, set<int>>, after: map<int, set<int>>, now: int,
                 order: seq<(int, int)>, d: int, ids: seq<int>)
    requires Taken(was, before, now, order) && d in before && d <= now && after == before - {d}
    requires (forall e :: e in before ==> d <= e) && Once(ids, before[d])
    ensures Taken(was, after, now, order + Paired(d, ids))
  {
    var more := order + Paired(d, ids);
    forall p ensures p in Paired(d, ids) <==> p.0 == d && p.1 in ids {
      PairedHas(d, ids, p);
    }
    forall p ensures p in more <==> p.0 in was && p.0 !in after && p.1 in was[p.0] {
      assert p in more <==> p in order || p in Paired(d, ids);
      PairedHas(d, ids, p);
      assert p.0 in after <==> p.0 in before && p.0 != d;
      OnceHas(ids, before[d], p.1);
    }
    forall i, j | 0 <= i < j < |more| ensures more[i] != more[j] && more[i].0 <= more[j].0 {
      if i < |order| {
        assert more[i] in order;
      }
    }
  }

  lemma OnceHas(order: seq<int>, ids: set<int>, c: int)
    requires Once(order, ids)
    ensures c in order <==> c in ids
  {
  }

  lemma PairedHas(d: int, ids: seq<int>, p: (int, int))
    ensures p in Paired(d, ids) <==> p.0 == d && p.1 in ids
  {
    if p.0 == d && p.1 in ids {
      var i :| 0 <= i < |ids| && ids[i] == p.1;
      assert Paired(d, ids)[i] == p;
    }
  }

  lemma TakenAll(was: map<int, set<int>>, timers: map<int, set<int>>, now: int, order: seq<(int, int)>)
    requires Taken(was, timers, now, order) && forall e :: e in timers ==> now < e
    ensures timers == Later(was, now) && Expiry(was, now, order)
  {
    var later := Later(was, now);
    forall d ensures d in timers <==> d in later {
    }
    assert forall d :: d in timers ==> timers[d] == later[d];
  }

  class TimerTree {
    const inactive: RbRoot
    // From the tree node of a timer node to that node's own tree.
    var group: map<RbNode, RbRoot>
    ghost var f: Forest

    ghost predicate TopOk()
      reads this, inactive, f.deadlines
    {
      Match(inactive, f.top, f.deadlines)
    }

    ghost predicate GroupOk(n: RbNode)
      requires n in group && n in f.trees && n in f.members
      reads this, group[n], f.members[n]
    {
      Match(group[n], f.trees[n], f.members[n])
    }

    ghost predicate OthersOk(n: RbNode)
      reads this, group.Values, AllMembers(f)
    {
      MatchAll(group - {n}, f)
    }

    /** Both levels are red-black trees on consistent links, no node is shared and no group empty. */
    ghost predicate Linked()
      reads this, inactive, f.deadlines, group.Values, AllMembers(f)
    {
      Shaped(f, group, inactive) && TopOk() && MatchAll(group, f)
    }

    /** And the tree of deadlines is in order and stands for the map. */
    ghost predicate Valid()
      reads this, inactive, f.deadlines, group.Values, AllMembers(f)
    {
      Arranged(f, group, inactive) && TopOk() && MatchAll(group, f)
    }

    constructor ()
      ensures Valid() && f.timers == map[] && fresh(inactive)
    {
      inactive := new RbRoot();
      group, f := map[], Forest(Leaf, {}, map[], map[], map[]);
      new;
      EmptyGood();
    }

    static lemma EmptyGood()
      ensures GoodTree(Leaf)
    {
      assert RBT(Leaf, 0);
    }

    /** add_to_timer_node on one group leaves the other trees alone. */
    method GroupAdd(n: RbNode, x: RbNode)
      requires Alone(f, group, inactive, n) && Unused(f, x) && TopOk() && OthersOk(n) && GroupOk(n)
      requires GoodTree(f.trees[n]) && !HasKey(f.trees[n], x.key)
      modifies group[n], x, f.members[n]
      ensures group == old(group) && f == old(f) && TopOk() && OthersOk(n)
      ensures group[n].Valid() && GoodTree(group[n].tree) && Nodes(group[n].tree) == f.members[n] + {x}
    {
      hide RbRoot.Valid, RedBlack, Sorted, InOrder, HasKey, Nodes;
      AddNode(group[n], x);
    }

    /** rb_erase in one group leaves the other trees alone. */
    method GroupErase(n: RbNode, x: RbNode)
      requires Alone(f, group, inactive, n) && TopOk() && OthersOk(n) && GroupOk(n)
      requires GoodTree(f.trees[n]) && x in f.members[n]
      modifies group[n], f.members[n]
      ensures group == old(group) && f == old(f) && TopOk() && OthersOk(n)
      ensures group[n].Valid() && GoodTree(group[n].tree) && Nodes(group[n].tree) == f.members[n] - {x}
    {
      hide RbRoot.Valid, RedBlack, Sorted, InOrder, Nodes;
      EraseNode(group[n], x);
    }

    /** rb_erase in the tree of deadlines leaves every other group alone. */
    method TopErase(n: RbNode)
      requires TopOk() && OthersOk(n) && GoodTree(f.top) && Separate(f.deadlines, f.members) && Rooted(group, inactive)
      requires n in f.deadlines
      modifies inactive, f.deadlines
      ensures group == old(group) && f == old(f) && OthersOk(n) && (old(MatchAll(group, f)) ==> MatchAll(group, f))
      ensures inactive.Valid() && GoodTree(inactive.tree) && Nodes(inactive.tree) == f.deadlines - {n}
    {
      hide RbRoot.Valid, RedBlack, Sorted, InOrder, Nodes;
      EraseNode(inactive, n);
    }

    lemma Opened(n: RbNode)
      requires Valid() && n in f.deadlines
      ensures Alone(f, group, inactive, n) && OthersOk(n) && GroupOk(n) && GoodTree(f.trees[n]) && f.trees[n] != Leaf
      ensures n.key in f.timers && f.timers[n.key] == Keys(f.members[n])
    {
      hide RbRoot.Valid, GoodTree, Nodes;
    }

    /** The ghost state follows a change of one group. */
    ghost method Follow(n: RbNode, after: Forest)
      requires TopOk() && OthersOk(n) && Arranged(after, group, inactive) && n in after.members
      requires OnlyGroup(f, after, n)
      requires group[n].tree == after.trees[n] && Nodes(group[n].tree) == after.members[n] && group[n].Valid()
      modifies `f
      ensures Valid() && f == after
    {
      hide RbRoot.Valid, GoodTree, Nodes, Stands, Separate, Rooted, GoodTrees;
      f := after;
    }

    /** A coroutine joins the group of a deadline already in the tree. */
    method AddHere(n: RbNode, x: RbNode)
      requires Valid() && n in f.deadlines && Unused(f, x) && x.key !in Group(f.timers, n.key)
      modifies this, group[n], x, f.members[n]
      ensures Valid() && group == old(group) && exists t :: f == Joined(old(f), n, x, t)
    {
      Opened(n);
      assert !HasKey(f.trees[n], x.key);
      hide RbRoot.Valid, GoodTree, Nodes, HasKey, Keys, Arranged, Alone, OnlyGroup;
      GroupAdd(n, x);
      ghost var t := group[n].tree;
      assert t != Leaf by { Grown(t, x); }
      JoinedArranged(f, group, inactive, n, x, t);
      Follow(n, Joined(f, n, x, t));
    }

    static lemma Grown(t: Tree, x: RbNode)
      requires x in Nodes(t)
      ensures t != Leaf
    {
    }

    /** The first coroutine of a new deadline: no tree in use changes. */
    method PlantGroup(g: RbRoot, x: RbNode)
      requires TopOk() && MatchAll(group, f) && Unused(f, x) && g != inactive && forall m :: m in group ==> group[m] != g
      modifies g, x
      ensures group == old(group) && f == old(f) && TopOk() && MatchAll(group, f)
      ensures g.Valid() && GoodTree(g.tree) && Nodes(g.tree) == {x}
    {
      EmptyGood();
      assert Nodes(Leaf) == {} && !HasKey(Leaf, x.key);
      hide RbRoot.Valid, RedBlack, Sorted, InOrder, HasKey, Nodes;
      g.Clear();
      AddNode(g, x);
    }

    /** The link of a new deadline: no group changes. */
    method PlantTop(n: RbNode, parent: RbNode?, atLeft: bool, ghost ctx: Ctx)
      requires TopOk() && MatchAll(group, f) && GoodTree(f.top) && Separate(f.deadlines, f.members) && Rooted(group, inactive)
      requires Unused(f, n) && f.top == Plug(ctx, Leaf)
      requires parent == CtxPtr(ctx) && (ctx.InLeft? ==> atLeft) && (ctx.InRight? ==> !atLeft)
      modifies n, inactive, f.deadlines
      ensures group == old(group) && f == old(f) && MatchAll(group, f)
      ensures inactive.Valid() && RedBlack(inactive.tree) && Nodes(inactive.tree) == f.deadlines + {n}
      ensures Sorted(InOrder(inactive.tree)) <==> Between(ctx, n.key)
    {
      hide RbRoot.Valid, RedBlack, Sorted, InOrder, Nodes, Between;
      PutNode(inactive, n, parent, atLeft, ctx);
    }

    /** The bookkeeping after both. */
    method Graft(n: RbNode, g: RbRoot, ghost after: Forest)
      requires Shaped(after, group[n := g], inactive) && MatchAll(group[n := g], after)
      requires Match(inactive, after.top, after.deadlines)
      modifies this
      ensures Linked() && f == after && group == old(group)[n := g]
      ensures Valid() <==> Arranged(after, group, inactive)
    {
      hide Arranged, Shaped, Match;
      group, f := group[n := g], after;
    }

    /**
     * The part of move_to_inactive_tree that fills a timer node, given as its tree
     * node and root, and links it at the empty link where the descent ended: all is
     * well exactly when the deadline belongs there.
     */
    method AddNew(n: RbNode, g: RbRoot, x: RbNode, parent: RbNode?, atLeft: bool, ghost ctx: Ctx)
      requires Valid() && Unused(f, x) && f.top == Plug(ctx, Leaf)
      requires Unused(f, n) && n != x && g != inactive && forall m :: m in group ==> group[m] != g
      requires parent == CtxPtr(ctx) && (ctx.InLeft? ==> atLeft) && (ctx.InRight? ==> !atLeft)
      modifies this, inactive, g, n, x, f.deadlines
      ensures Linked() && f.members == old(f.members)[n := {x}] && f.timers == AddTimer(old(f.timers), n.key, x.key)
      ensures Valid() <==> Between(ctx, n.key)
      ensures !Between(ctx, n.key) ==> !Sorted(InOrder(f.top))
    {
      hide RbRoot.Valid, RedBlack, Sorted, InOrder, Nodes, AddTimer, Between, Separate, Rooted, Arranged, Shaped, MatchAll;
      Parts(ctx, n.key);
      PlantGroup(g, x);
      PlantTop(n, parent, atLeft, ctx);
      ghost var t := g.tree;
      assert t != Leaf by { Grown(t, x); }
      ghost var after := Planted(f, n, x, inactive.tree, t);
      PlantedShaped(f, group, inactive, n, g, x, inactive.tree, t);
      MatchGrown(group, f, n, g, after);
      Graft(n, g, after);
    }

    lemma Parts(ctx: Ctx, d: int)
      requires Valid() && f.top == Plug(ctx, Leaf)
      ensures GoodTree(f.top) && Separate(f.deadlines, f.members) && Rooted(group, inactive)
      ensures group.Keys == f.deadlines == f.trees.Keys == f.members.Keys
      ensures Between(ctx, d) ==> d !in f.timers
    {
      hide RbRoot.Valid, MatchAll, GoodTrees, Separate, Rooted;
      if Between(ctx, d) {
        EmptyGood();
        SearchEnds(f.top, ctx, d);
        TopKeys(f, d);
      }
    }

    /** The bookkeeping after TopErase. */
    method Prune(n: RbNode)
      requires OthersOk(n) && Arranged(Pruned(f, n, inactive.tree), group - {n}, inactive)
      requires inactive.Valid() && Nodes(inactive.tree) == f.deadlines - {n}
      modifies this
      ensures Valid() && f == Pruned(old(f), n, inactive.tree) && group == old(group) - {n}
    {
      hide RbRoot.Valid, GoodTree, Nodes, Stands, Separate, Rooted, GoodTrees;
      group, f := group - {n}, Pruned(f, n, inactive.tree);
    }

    /** The coroutine joined the group of another deadline. */
    ghost predicate Misfiled(was: map<int, set<int>>, d: int, c: int)
      reads this
    {
      exists e :: e in was && e != d && Narrow(d - e) == 0 && f.timers == AddTimer(was, e, c)
    }

    /**
     * move_to_inactive_tree, for a coroutine that is in no timer. The trees stay
     * red-black; they are in order, with the coroutine under its deadline, exactly
     * when the narrowing changes no comparison on the path. Otherwise the coroutine
     * joins another deadline or its node is linked out of order. `n` and `g` are what
     * memcache_alloc gives for a deadline without a node, in use nowhere.
     */
    method Insert(x: RbNode, d: int, n: RbNode, g: RbRoot)
      requires Valid() && Unused(f, x) && forall e :: e in f.timers ==> x.key !in f.timers[e]
      requires n.key == d && Unused(f, n) && n != x && g != inactive && forall m :: m in group ==> group[m] != g
      modifies this, inactive, g, n, x, f.deadlines, group.Values, AllMembers(f)
      ensures Linked()
      ensures Valid() && f.timers == AddTimer(old(f.timers), d, x.key) <==> old(PathAgrees(f.top, d))
      ensures !old(PathAgrees(f.top, d)) ==>
                if Valid() then Misfiled(old(f.timers), d, x.key)
                else !Sorted(InOrder(f.top)) && f.members == old(f.members)[n := {x}]
    {
      ghost var was, top := f.timers, f.top;
      hide RbRoot.Valid, GoodTrees, Nodes, Stands, Separate, HasKey, MatchAll, PathAgrees, AddTimer, Rooted;
      var found, parent, atLeft, ctx, _ := DescendNarrow(inactive, d);
      if found != null {
        InMap(found);
        OtherKey(was, found.key, d, x.key);
        AddHere(found, x);
        ValidLinked();
        assert f.timers == AddTimer(was, found.key, x.key);
      } else {
        PlaceIsBetween(top, d, ctx);
        AddNew(n, g, x, parent, atLeft, ctx);
      }
    }

    lemma InMap(n: RbNode)
      requires Valid() && n in Nodes(f.top)
      ensures n in f.deadlines && n.key in f.timers
    {
      Opened(n);
    }

    lemma ValidLinked()
      requires Valid()
      ensures Linked()
    {
    }

    static lemma PlaceIsBetween(top: Tree, d: int, ctx: Ctx)
      requires top == Plug(ctx, Leaf)
      ensures RightPlace(top, d, null, ctx) <==> Between(ctx, d)
    {
      EmptyGood();
    }

    static lemma OtherKey(timers: map<int, set<int>>, e: int, d: int, c: int)
      requires forall k :: k in timers ==> c !in timers[k]
      ensures AddTimer(timers, e, c) == AddTimer(timers, d, c) <==> e == d
    {
      assert c in AddTimer(timers, d, c)[d];
      if e != d && d in AddTimer(timers, e, c) {
        assert c !in AddTimer(timers, e, c)[d];
      }
    }

    /** The last coroutine of a group takes the deadline with it. */
    method RemoveLast(n: RbNode, ghost x: RbNode)
      requires Arranged(f, group, inactive) && TopOk() && OthersOk(n) && n in f.deadlines
      requires DropTimer(f.timers, n.key, x.key) == f.timers - {n.key}
      modifies this, inactive, f.deadlines
      ensures Valid() && f.timers == DropTimer(old(f.timers), n.key, x.key) && group == old(group) - {n}
    {
      hide RbRoot.Valid, GoodTree, Nodes, Stands, GoodTrees, DropTimer;
      TopErase(n);
      PrunedArranged(f, group, inactive, n, inactive.tree);
      Prune(n);
    }

    method RemoveFrom(n: RbNode, x: RbNode)
      requires Valid() && n in f.deadlines && x in f.members[n]
      modifies this, inactive, f.deadlines, group[n], f.members[n]
      ensures Valid() && f.timers == DropTimer(old(f.timers), n.key, x.key)
    {
      Opened(n);
      forall y | y in f.members[n] && y.key == x.key ensures y == x {
        OneKey(f.trees[n], x, y);
      }
      StandsDrop(f.members, f.timers, n, x);
      hide RbRoot.Valid, GoodTree, Nodes, Stands, GoodTrees, DropTimer, MatchAll, Separate, Rooted;
      GroupErase(n, x);
      ghost var t := group[n].tree;
      group[n].EmptyRoot();
      if group[n].node == null {
        RemoveLast(n, x);
      } else {
        PartedArranged(f, group, inactive, n, x, t);
        Follow(n, Parted(f, n, x, t));
      }
    }

    /** find_timer_node */
    method FindDeadline(d: int) returns (n: RbNode?, ghost turns: nat)
      requires Valid()
      ensures FewTurns(turns, f.top)
      ensures n == null <==> d !in f.timers
      ensures n != null ==> n in f.deadlines && n.key == d
    {
      TopKeys(f, d);
      hide RbRoot.Valid, GoodTrees, Nodes, Stands, Separate, HasKey, Rooted, MatchAll, Searching, FewTurns;
      n, turns := FindKey(inactive, d);
    }

    /** find_in_timer */
    method FindMember(n: RbNode, c: int) returns (x: RbNode?, ghost turns: nat)
      requires Valid() && n in f.deadlines
      ensures FewTurns(turns, f.trees[n])
      ensures x == null <==> c !in Group(f.timers, n.key)
      ensures x != null ==> x in f.members[n] && x.key == c
    {
      Opened(n);
      MemberKeys(f.trees[n], c);
      assert RedBlack(f.trees[n]) && Sorted(InOrder(f.trees[n]));
      hide RbRoot.Valid, GoodTrees, Nodes, Stands, Separate, HasKey, Rooted, MatchAll, Alone, Keys, Sorted,
        RedBlack, FewTurns, InOrder, Arranged;
      x, turns := FindKey(group[n], c);
    }

    static lemma MemberKeys(t: Tree, c: int)
      ensures HasKey(t, c) <==> c in Keys(Nodes(t))
    {
    }

    /** remove_from_inactive_tree; a coroutine that is not there is left alone. */
    method Remove(x: RbNode, d: int)
      requires Valid()
      requires forall n, y :: n in f.members && n.key == d && y in f.members[n] && y.key == x.key ==> y == x
      modifies this, inactive, f.deadlines, group.Values, AllMembers(f)
      ensures Valid() && f.timers == DropTimer(old(f.timers), d, x.key)
    {
      hide RbRoot.Valid, Arranged, MatchAll, Match, DropTimer;
      var n, _ := FindDeadline(d);
      if n == null {
        NothingDropped(f.timers, d, x.key);
        return;
      }
      var y, _ := FindMember(n, x.key);
      if y == null {
        Kept(n);
        NothingDropped(f.timers, d, x.key);
      } else {
        Kept(n);
        RemoveFrom(n, x);
      }
    }

    lemma Kept(n: RbNode)
      requires Valid() && n in f.deadlines
      ensures n in f.members && n in group && n.key in f.timers && f.timers[n.key] != {}
    {
      Opened(n);
      group[n].EmptyRoot();
      if f.members[n] != {} {
        var y :| y in f.members[n];
        assert y.key in Keys(f.members[n]);
      }
    }

    lemma TopParts()
      requires Valid()
      ensures GoodTree(f.top) && Stands(f.members, f.timers) && f.members.Keys == f.deadlines == Nodes(f.top)
      ensures inactive.Valid() && inactive.tree == f.top
    {
    }

    /** get_recent_timer_node */
    method Recent() returns (first: RbNode?)
      requires Valid()
      ensures first == null ==> forall d :: d !in f.timers
      ensures first != null ==> first in f.deadlines && forall d :: d in f.timers ==> first.key <= d
    {
      TopParts();
      hide RbRoot.Valid, Match, Arranged, Nodes, InOrder, MatchAll;
      first := inactive.First();
      Bounds(f, first);
    }

    /** The first half of a turn of check_timeout_coroutine: the earliest deadline leaves the tree if it is due. */
    method TakeEarliest(now: int) returns (g: RbRoot?, n: RbNode?)
      requires Valid()
      modifies this, inactive, f.deadlines
      ensures Valid()
      ensures g == null ==> f == old(f) && group == old(group) && forall d :: d in f.timers ==> now < d
      ensures g != null ==>
                && n != null && n in old(f).deadlines && n in old(f).trees && n in old(f).members && n in old(group)
                && g == old(group)[n] && n.key <= now
                && (forall d :: d in old(f).timers ==> n.key <= d)
                && f == Pruned(old(f), n, f.top) && group == old(group) - {n}
                && Match(g, old(f).trees[n], old(f).members[n]) && GoodTree(old(f).trees[n])
    {
      hide RbRoot.Valid, Match, Nodes, MatchAll, GoodTree, Stands;
      assert forall o :: o in group.Values ==> allocated(o);
      assert forall o :: o in AllMembers(f) ==> allocated(o);
      var first := Recent();
      if first == null || now < first.key {
        return null, null;
      }
      g, n := group[first], first;
      Opened(first);
      TopErase(first);
      PrunedArranged(f, group, inactive, first, inactive.tree);
      assert GroupOk(first) by { MatchOne(group, f, first); }
      Prune(first);
    }

    /** Another tree's nodes may change. */
    ghost predicate Outside(g: RbRoot, nodes: set<RbNode>)
      reads this
    {
      && g != inactive && (forall m :: m in group ==> group[m] != g)
      && (forall x :: x in nodes ==> Unused(f, x))
    }

    lemma TakenOutside(was: Forest, roots: map<RbNode, RbRoot>, n: RbNode)
      requires Arranged(was, roots, inactive) && n in was.deadlines && n in roots && n in was.members
      requires f == Pruned(was, n, f.top) && group == roots - {n}
      ensures Outside(roots[n], was.members[n])
    {
      hide GoodTree, GoodTrees, Stands;
    }

    method Handle(g: RbRoot, ghost nodes: set<RbNode>) returns (order: seq<int>)
      requires Valid() && Outside(g, nodes) && Match(g, g.tree, nodes) && GoodTree(g.tree)
      modifies g, nodes
      ensures Valid() && f == old(f) && group == old(group) && Once(order, Keys(nodes))
    {
      hide RbRoot.Valid, Nodes, GoodTree, Arranged, Once;
      order := TimeoutHandler(g, nodes);
    }

    method ExpireOne(now: int) returns (took: bool, order: seq<int>, d: int)
      requires Valid()
      modifies this, inactive, f.deadlines, group.Values, AllMembers(f)
      ensures Valid() && f.deadlines <= old(f.deadlines)
      ensures group.Values <= old(group.Values) && AllMembers(f) <= old(AllMembers(f))
      ensures !took ==> f == old(f) && forall e :: e in f.timers ==> now < e
      ensures took ==>
                && f.deadlines < old(f.deadlines) && d in old(f).timers && d <= now
                && (forall e :: e in old(f).timers ==> d <= e)
                && f.timers == old(f).timers - {d} && Once(order, old(f).timers[d])
    {
      hide RbRoot.Valid, Nodes, GoodTree, Once, MatchAll, Stands, Separate, GoodTrees, Rooted;
      var g, n := TakeEarliest(now);
      if g == null {
        return false, [], 0;
      }
      TakenOutside(old(f), old(group), n);
      assert old(f).timers[n.key] == Keys(old(f).members[n]) by { StandsAt(old(f).members, old(f).timers, n); }
      order := Handle(g, old(f).members[n]);
      took, d := true, n.key;
    }

    /**
     * check_timeout_coroutine on the linked trees: every coroutine whose
     * deadline has come leaves, once, earlier deadlines first; the map keeps
     * the later deadlines unchanged.
     */
    method CheckTimeout(now: int) returns (order: seq<(int, int)>)
      requires Valid()
      modifies this, inactive, f.deadlines, group.Values, AllMembers(f)
      ensures Valid() && f.timers == Later(old(f.timers), now)
      ensures Expiry(old(f.timers), now, order)
    {
      hide RbRoot.Valid, Valid, Expiry, Once, AllMembers;
      ghost var was := f.timers;
      order := [];
      var took := true;
      NothingTaken(was);
      while took
        invariant Valid() && f.deadlines <= old(f.deadlines)
        invariant group.Values <= old(group.Values) && AllMembers(f) <= old(AllMembers(f))
        invariant Taken(was, f.timers, now, order)
        invariant !took ==> forall e :: e in f.timers ==> now < e
        decreases f.deadlines, took
      {
        ghost var before := f.timers;
        var ids, d;
        took, ids, d := ExpireOne(now);
        if took {
          TakeMore(was, before, f.timers, now, order, d, ids);
          order := order + Paired(d, ids);
        }
      }
      TakenAll(was, f.timers, now, order);
    }
  }
}
