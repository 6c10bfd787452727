/**
 * The inactive tree of src/coro/sched.c as the in-order sequence of its timer
 * nodes, the pool that recycles those nodes, and the map from deadline to
 * coroutines that the two together stand for.
 */
module Timers {
  import opened Seqs
  import opened Sched

  /** `at` is the node's address. */
  datatype TimerNode = TimerNode(at: nat, timeout: int, coros: set<nat>)

  predicate Ascending(q: seq<TimerNode>) {
    forall i, j :: 0 <= i < j < |q| ==> q[i].timeout < q[j].timeout
  }

  predicate Occupied(q: seq<TimerNode>) {
    forall i :: 0 <= i < |q| ==> q[i].coros != {}
  }

  /** No node is in the tree twice, in the pool twice, or in both. */
  predicate Pooled(q: seq<TimerNode>, cache: seq<nat>) {
    && Distinct(cache)
    && (forall i, j :: 0 <= i < j < |q| ==> q[i].at != q[j].at)
    && (forall i :: 0 <= i < |q| ==> q[i].at !in cache)
  }

  predicate Unused(q: seq<TimerNode>, cache: seq<nat>, at: nat) {
    at !in cache && forall i :: 0 <= i < |q| ==> q[i].at != at
  }

  function AsMap(q: seq<TimerNode>): map<int, set<nat>> {
    if q == [] then map[] else AsMap(q[1..])[q[0].timeout := q[0].coros]
  }

  lemma {:induction false} AsMapKeys(q: seq<TimerNode>, d: int)
    ensures d in AsMap(q) <==> exists i :: 0 <= i < |q| && q[i].timeout == d
  {
    if q != [] {
      AsMapKeys(q[1..], d);
      if d in AsMap(q) && q[0].timeout != d {
        var i :| 0 <= i < |q[1..]| && q[1..][i].timeout == d;
        assert q[i + 1].timeout == d;
      }
      if i :| 0 < i < |q| && q[i].timeout == d {
        assert q[1..][i - 1].timeout == d;
      }
    }
  }

  lemma {:induction false} AsMapAt(q: seq<TimerNode>, i: nat)
    requires Ascending(q) && i < |q|
    ensures q[i].timeout in AsMap(q) && AsMap(q)[q[i].timeout] == q[i].coros
  {
    if i > 0 {
      AsMapAt(q[1..], i - 1);
    }
  }

  /** The map is the sequence: same deadlines, same groups. */
  ghost predicate Stands(q: seq<TimerNode>, m: map<int, set<nat>>) {
    && (forall i :: 0 <= i < |q| ==> q[i].timeout in m && m[q[i].timeout] == q[i].coros)
    && (forall d :: d in m ==> Holds(q, d))
  }

  ghost predicate Holds(q: seq<TimerNode>, d: int) {
    exists i :: 0 <= i < |q| && q[i].timeout == d
  }

  lemma AsMapStands(q: seq<TimerNode>)
    requires Ascending(q)
    ensures Stands(q, AsMap(q))
  {
  }

  lemma StandsIs(q: seq<TimerNode>, m: map<int, set<nat>>)
    requires Ascending(q) && Stands(q, m)
    ensures AsMap(q) == m
  {
    AsMapStands(q);
    forall d ensures d in AsMap(q) <==> d in m {
      if d in AsMap(q) {
        assert Holds(q, d);
      }
      if d in m {
        assert Holds(q, d);
      }
    }
    forall d | d in m ensures AsMap(q)[d] == m[d] {
      assert Holds(q, d);
    }
  }

  /** Where a deadline goes when no node has it. */
  predicate Gap(q: seq<TimerNode>, i: nat, d: int) {
    && i <= |q|
    && (forall k :: 0 <= k < i ==> q[k].timeout < d)
    && (forall k :: i <= k < |q| ==> d < q[k].timeout)
  }

  lemma GapMissing(q: seq<TimerNode>, i: nat, d: int)
    requires Ascending(q) && Gap(q, i, d)
    ensures d !in AsMap(q)
  {
    AsMapKeys(q, d);
  }

  /** A new node keeps the order exactly in its gap. */
  lemma PutExact(q: seq<TimerNode>, i: nat, n: TimerNode)
    requires Ascending(q) && i <= |q|
    ensures Ascending(Spliced(q, i, n)) <==> Gap(q, i, n.timeout)
  {
    hide Spliced;
    var p := Spliced(q, i, n);
    if Ascending(p) {
      assert forall k :: 0 <= k < i ==> q[k] == p[k];
      assert forall k :: i <= k < |q| ==> q[k] == p[k + 1];
    }
  }

  /** A new node in its gap is the map with one more deadline. */
  lemma PutIsAdd(q: seq<TimerNode>, i: nat, n: TimerNode)
    requires Ascending(q) && Gap(q, i, n.timeout)
    ensures Ascending(Spliced(q, i, n)) && AsMap(Spliced(q, i, n)) == AsMap(q)[n.timeout := n.coros]
  {
    hide Spliced, AsMap;
    var p, m := Spliced(q, i, n), AsMap(q)[n.timeout := n.coros];
    AsMapStands(q);
    forall d | d in m ensures Holds(p, d) {
      if d == n.timeout {
        assert p[i].timeout == d;
      } else {
        var k :| 0 <= k < |q| && q[k].timeout == d;
        assert p[if k < i then k else k + 1].timeout == d;
      }
    }
    StandsIs(p, m);
  }

  /** Changing one node's group changes the map at its deadline alone. */
  lemma SetIsUpdate(q: seq<TimerNode>, i: nat, g: set<nat>)
    requires Ascending(q) && i < |q|
    ensures Ascending(q[i := q[i].(coros := g)])
    ensures AsMap(q[i := q[i].(coros := g)]) == AsMap(q)[q[i].timeout := g]
  {
    var p, m := q[i := q[i].(coros := g)], AsMap(q)[q[i].timeout := g];
    AsMapStands(q);
    forall d | d in m ensures Holds(p, d) {
      var k :| 0 <= k < |q| && q[k].timeout == d;
      assert p[k].timeout == d;
    }
    StandsIs(p, m);
  }

  lemma DroppedAscending(q: seq<TimerNode>, i: nat)
    requires Ascending(q) && i < |q|
    ensures Ascending(Dropped(q, i))
    ensures forall k :: 0 <= k < |q| - 1 ==> Dropped(q, i)[k].timeout != q[i].timeout
  {
    hide Dropped;
  }

  lemma DroppedHolds(q: seq<TimerNode>, i: nat, d: int)
    requires Holds(q, d) && i < |q| && d != q[i].timeout
    ensures Holds(Dropped(q, i), d)
  {
    hide Dropped;
    var k :| 0 <= k < |q| && q[k].timeout == d;
    assert Dropped(q, i)[if k < i then k else k - 1].timeout == d;
  }

  /** Erasing a node removes its deadline alone. */
  lemma CutIsDrop(q: seq<TimerNode>, i: nat)
    requires Ascending(q) && i < |q|
    ensures Ascending(Dropped(q, i)) && AsMap(Dropped(q, i)) == AsMap(q) - {q[i].timeout}
  {
    hide Dropped, AsMap, Ascending, Holds;
    AsMapStands(q);
    DroppedAscending(q, i);
    var p, m := Dropped(q, i), AsMap(q) - {q[i].timeout};
    forall k | 0 <= k < |p| ensures p[k].timeout in m && m[p[k].timeout] == p[k].coros {
      assert p[k] == q[if k < i then k else k + 1];
    }
    forall d | d in m ensures Holds(p, d) {
      DroppedHolds(q, i, d);
    }
    assert Stands(p, m);
    StandsIs(p, m);
  }

  lemma PutPooled(q: seq<TimerNode>, cache: seq<nat>, i: nat, n: TimerNode)
    requires Pooled(q, cache) && i <= |q|
    requires Unused(q, cache, n.at)
    ensures Pooled(Spliced(q, i, n), cache)
  {
  }
}
