/**
 * The two models of the inactive tree: the forest of linked nodes of TimerTree
 * and the in-order sequence of timer nodes of Scheduler. Read in order, a valid
 * forest is such a sequence, and the sequence is fixed by the map.
 */
module TimerLink {
  import opened RbShape
  import opened RbTree
  import opened Ordered
  import opened Timers
  import T = TimerTree

  /** Ids of coroutines count up from one. */
  ghost predicate Numbered(f: T.Forest) {
    forall n, x :: n in f.members && x in f.members[n] ==> x.key >= 0
  }

  ghost function Ids(nodes: set<RbNode>): set<nat>
    requires forall x :: x in nodes ==> x.key >= 0
  {
    set x | x in nodes :: x.key
  }

  /** The timer nodes in order, each with its address. */
  ghost function Listed(f: T.Forest, at: map<RbNode, nat>): (q: seq<TimerNode>)
    requires Numbered(f) && forall n :: n in InOrder(f.top) ==> n in f.members && n in at
    ensures |q| == |InOrder(f.top)|
  {
    var ns := InOrder(f.top);
    seq(|ns|, i requires 0 <= i < |ns| =>
      assert ns[i] in ns;
      TimerNode(at[ns[i]], ns[i].key, Ids(f.members[ns[i]])))
  }

  lemma InOrderMembers(f: T.Forest, group: map<RbNode, RbRoot>, inactive: RbRoot)
    requires T.Arranged(f, group, inactive) && Nodes(f.top) == f.deadlines
    ensures forall n :: n in InOrder(f.top) ==> n in f.members
    ensures forall n :: n in f.members ==> n in InOrder(f.top)
  {
    forall n | n in InOrder(f.top) ensures n in f.members {
      InOrderNodes(f.top, n);
    }
    forall n | n in f.members ensures n in InOrder(f.top) {
      InOrderNodes(f.top, n);
    }
  }

  /** The same deadlines with the same groups. */
  ghost predicate SameMap(m: map<int, set<nat>>, timers: map<int, set<int>>) {
    && (forall d :: d in m <==> d in timers)
    && (forall d :: d in m && d in timers ==> m[d] == timers[d])
  }

  lemma ListedAt(f: T.Forest, at: map<RbNode, nat>, i: nat)
    requires Numbered(f) && T.Stands(f.members, f.timers)
    requires (forall n :: n in InOrder(f.top) ==> n in f.members && n in at) && i < |InOrder(f.top)|
    ensures var x := Listed(f, at)[i]; x.timeout in f.timers && f.timers[x.timeout] == x.coros
  {
    var n := InOrder(f.top)[i];
    assert n in InOrder(f.top);
    T.StandsAt(f.members, f.timers, n);
    assert T.Keys(f.members[n]) == Ids(f.members[n]);
  }

  lemma ListedHolds(f: T.Forest, at: map<RbNode, nat>, d: int)
    requires Numbered(f) && T.Stands(f.members, f.timers) && d in f.timers
    requires forall n :: n in InOrder(f.top) ==> n in f.members && n in at
    requires forall n :: n in f.members ==> n in InOrder(f.top)
    ensures Holds(Listed(f, at), d)
  {
    assert T.HasDeadline(f.members, d);
    var n :| n in f.members && n.key == d;
    var i :| 0 <= i < |InOrder(f.top)| && InOrder(f.top)[i] == n;
    assert Listed(f, at)[i].timeout == d;
  }

  lemma ListedAscending(f: T.Forest, at: map<RbNode, nat>)
    requires Numbered(f) && Sorted(InOrder(f.top)) && forall n :: n in InOrder(f.top) ==> n in f.members && n in at
    ensures Ascending(Listed(f, at))
  {
  }

  lemma ListedMap(f: T.Forest, at: map<RbNode, nat>, q: seq<TimerNode>, m: map<int, set<nat>>)
    requires Numbered(f) && T.Stands(f.members, f.timers)
    requires forall n :: n in InOrder(f.top) ==> n in f.members && n in at
    requires forall n :: n in f.members ==> n in InOrder(f.top)
    requires q == Listed(f, at) && Timers.Stands(q, m)
    ensures SameMap(m, f.timers)
  {
    hide Listed, InOrder, Numbered, T.Stands;
    forall d | d in m ensures d in f.timers && m[d] == f.timers[d] {
      assert Holds(q, d);
      var i :| 0 <= i < |q| && q[i].timeout == d;
      ListedAt(f, at, i);
    }
    forall d | d in f.timers ensures d in m {
      ListedHolds(f, at, d);
    }
  }

  /** A valid forest in order is an ascending sequence of timer nodes that stands for the same map. */
  lemma ForestListed(f: T.Forest, group: map<RbNode, RbRoot>, inactive: RbRoot, at: map<RbNode, nat>)
    requires T.Arranged(f, group, inactive) && Nodes(f.top) == f.deadlines && Numbered(f) && at.Keys == f.deadlines
    ensures forall n :: n in InOrder(f.top) ==> n in f.members && n in at
    ensures Ascending(Listed(f, at)) && SameMap(AsMap(Listed(f, at)), f.timers)
  {
    InOrderMembers(f, group, inactive);
    assert forall n :: n in InOrder(f.top) ==> n in f.members && n in at;
    assert T.Stands(f.members, f.timers) && Sorted(InOrder(f.top));
    hide AsMap, Listed, InOrder, Nodes, Sorted, Ascending, Numbered, SameMap, T.Stands, T.Arranged, Timers.Stands;
    ListedAscending(f, at);
    AsMapStands(Listed(f, at));
    ListedMap(f, at, Listed(f, at), AsMap(Listed(f, at)));
  }

  /** Two ascending sequences for one map have the same deadlines and groups in the same places. */
  lemma {:induction false} MapFixesNodes(p: seq<TimerNode>, q: seq<TimerNode>)
    requires Ascending(p) && Ascending(q) && AsMap(p) == AsMap(q)
    ensures |p| == |q| && forall i :: 0 <= i < |p| ==> p[i].timeout == q[i].timeout && p[i].coros == q[i].coros
    decreases |p|
  {
    hide AsMap;
    if p != [] || q != [] {
      if p == [] {
        FirstSame(q, p);
        assert false;
      }
      FirstSame(p, q);
      RestMap(p);
      RestMap(q);
      MapFixesNodes(p[1..], q[1..]);
      assert forall i :: 1 <= i < |p| ==> p[i] == p[1..][i - 1] && q[i] == q[1..][i - 1];
    }
  }

  lemma FirstSame(p: seq<TimerNode>, q: seq<TimerNode>)
    requires Ascending(p) && Ascending(q) && AsMap(p) == AsMap(q) && p != []
    ensures q != [] && p[0].timeout == q[0].timeout && p[0].coros == q[0].coros
  {
    AsMapStands(p);
    AsMapStands(q);
    assert Holds(q, p[0].timeout);
    assert Holds(p, q[0].timeout);
  }

  lemma RestMap(q: seq<TimerNode>)
    requires Ascending(q) && q != []
    ensures AsMap(q[1..]) == AsMap(q) - {q[0].timeout}
  {
    AsMapKeys(q[1..], q[0].timeout);
  }
}
