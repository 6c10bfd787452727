/**
 * The descent of move_to_inactive_tree, src/coro/sched.c, over a tree of any
 * shape: it compares deadlines after narrowing their difference to an int.
 * It finds the right place exactly when the narrowing changes no comparison on
 * the path that the full difference would take.
 */
module Descent {
  import opened Seqs
  import opened Sched
  import opened Timers
  import Ordered

  /** The shape of a search tree over the positions of an in-order sequence. */
  datatype Shape = Empty | Fork(at: nat, l: Shape, r: Shape)

  predicate Fits(t: Shape, lo: nat, hi: nat) {
    match t
    case Empty => lo == hi
    case Fork(at, l, r) => lo <= at < hi && Fits(l, lo, at) && Fits(r, at + 1, hi)
  }

  function Walk(q: seq<TimerNode>, d: int, t: Shape, lo: nat, hi: nat): (bool, nat)
    requires Fits(t, lo, hi) && hi <= |q|
  {
    match t
    case Empty => (false, lo)
    case Fork(at, l, r) =>
      var timespan := Ordered.Narrow(d - q[at].timeout);
      if timespan < 0 then Walk(q, d, l, lo, at)
      else if timespan > 0 then Walk(q, d, r, at + 1, hi)
      else (true, at)
  }

  /** The search of find_timer_node over the same tree, with the full difference. */
  function Seek(q: seq<TimerNode>, d: int, t: Shape, lo: nat, hi: nat): (bool, nat)
    requires Fits(t, lo, hi) && hi <= |q|
  {
    match t
    case Empty => (false, lo)
    case Fork(at, l, r) =>
      if d < q[at].timeout then Seek(q, d, l, lo, at)
      else if d > q[at].timeout then Seek(q, d, r, at + 1, hi)
      else (true, at)
  }

  /** The node of that deadline, or the gap where it belongs. */
  predicate Right(q: seq<TimerNode>, d: int, w: (bool, nat)) {
    if w.0 then w.1 < |q| && q[w.1].timeout == d else Gap(q, w.1, d)
  }

  ghost predicate Comparable(q: seq<TimerNode>, d: int) {
    forall i :: 0 <= i < |q| ==> Ordered.SameSign(d - q[i].timeout)
  }

  /** No comparison on the path that the full difference takes is changed by the narrowing. */
  ghost predicate PathSame(q: seq<TimerNode>, d: int, t: Shape, lo: nat, hi: nat)
    requires Fits(t, lo, hi) && hi <= |q|
  {
    match t
    case Empty => true
    case Fork(at, l, r) =>
      && Ordered.SameSign(d - q[at].timeout)
      && (d < q[at].timeout ==> PathSame(q, d, l, lo, at)) && (d > q[at].timeout ==> PathSame(q, d, r, at + 1, hi))
  }

  lemma {:induction false} WalkWithin(q: seq<TimerNode>, d: int, t: Shape, lo: nat, hi: nat)
    requires Fits(t, lo, hi) && hi <= |q|
    ensures var w := Walk(q, d, t, lo, hi); lo <= w.1 <= hi && (w.0 ==> w.1 < hi)
  {
    match t
    case Empty =>
    case Fork(at, l, r) =>
      WalkWithin(q, d, l, lo, at);
      WalkWithin(q, d, r, at + 1, hi);
  }

  lemma {:induction false} WalkExact(q: seq<TimerNode>, d: int, t: Shape, lo: nat, hi: nat)
    requires Ascending(q) && Fits(t, lo, hi) && hi <= |q|
    requires forall k :: 0 <= k < lo ==> q[k].timeout < d
    requires forall k :: hi <= k < |q| ==> d < q[k].timeout
    ensures Right(q, d, Walk(q, d, t, lo, hi)) <==> PathSame(q, d, t, lo, hi)
  {
    match t
    case Empty =>
    case Fork(at, l, r) =>
      if d < q[at].timeout {
        WalkExact(q, d, l, lo, at);
        WalkWithin(q, d, r, at + 1, hi);
      } else if d > q[at].timeout {
        WalkExact(q, d, r, at + 1, hi);
        WalkWithin(q, d, l, lo, at);
      }
  }

  /** In any one tree the narrowed descent is right exactly when its full-width path has no changed comparison. */
  lemma DescentExact(q: seq<TimerNode>, d: int, t: Shape)
    requires Ascending(q) && Fits(t, 0, |q|)
    ensures Right(q, d, Walk(q, d, t, 0, |q|)) <==> PathSame(q, d, t, 0, |q|)
  {
    WalkExact(q, d, t, 0, |q|);
  }

  lemma {:induction false} SeekWithin(q: seq<TimerNode>, d: int, t: Shape, lo: nat, hi: nat)
    requires Fits(t, lo, hi) && hi <= |q|
    ensures var w := Seek(q, d, t, lo, hi); lo <= w.1 <= hi && (w.0 ==> w.1 < hi && q[w.1].timeout == d)
  {
    match t
    case Empty =>
    case Fork(at, l, r) =>
      SeekWithin(q, d, l, lo, at);
      SeekWithin(q, d, r, at + 1, hi);
  }

  /** Over an ascending sequence the search with the full difference is right in every tree. */
  lemma {:induction false} SeekRight(q: seq<TimerNode>, d: int, t: Shape, lo: nat, hi: nat)
    requires Ascending(q) && Fits(t, lo, hi) && hi <= |q|
    requires forall k :: 0 <= k < lo ==> q[k].timeout < d
    requires forall k :: hi <= k < |q| ==> d < q[k].timeout
    ensures Right(q, d, Seek(q, d, t, lo, hi))
  {
    match t
    case Empty =>
    case Fork(at, l, r) =>
      if d < q[at].timeout {
        SeekRight(q, d, l, lo, at);
      } else if d > q[at].timeout {
        SeekRight(q, d, r, at + 1, hi);
      }
  }

  /** A coroutine filed where a descent ended: in the group of a node, or in a node of its own. */
  ghost predicate FiledAt(q: seq<TimerNode>, p: seq<TimerNode>, d: int, c: nat, w: (bool, nat)) {
    if w.0 then w.1 < |q| && p == q[w.1 := q[w.1].(coros := q[w.1].coros + {c})]
    else w.1 <= |q| && exists at: nat :: p == Spliced(q, w.1, TimerNode(at, d, {c}))
  }

  /** The sequence stays ascending with the coroutine under its deadline exactly when the path has no changed comparison. */
  lemma FiledExact(q: seq<TimerNode>, p: seq<TimerNode>, d: int, c: nat, t: Shape)
    requires Ascending(q) && Fits(t, 0, |q|) && c !in Group(AsMap(q), d)
    requires FiledAt(q, p, d, c, Walk(q, d, t, 0, |q|))
    ensures Ascending(p) && AsMap(p) == AddTimer(AsMap(q), d, c) <==> PathSame(q, d, t, 0, |q|)
  {
    DescentExact(q, d, t);
    hide AsMap, Walk, PathSame, Spliced;
    var w := Walk(q, d, t, 0, |q|);
    if w.0 {
      AsMapAt(q, w.1);
      SetIsUpdate(q, w.1, q[w.1].coros + {c});
      OtherNode(AsMap(q), q[w.1].timeout, d, c);
    } else {
      var at: nat :| p == Spliced(q, w.1, TimerNode(at, d, {c}));
      PutExact(q, w.1, TimerNode(at, d, {c}));
      if Gap(q, w.1, d) {
        GapMissing(q, w.1, d);
        PutIsAdd(q, w.1, TimerNode(at, d, {c}));
        assert {} + {c} == {c};
      }
    }
  }

  lemma OtherNode(timers: map<int, set<nat>>, e: int, d: int, c: nat)
    requires c !in Group(timers, d)
    ensures AddTimer(timers, e, c) == AddTimer(timers, d, c) <==> e == d
  {
    assert c in AddTimer(timers, d, c)[d];
  }

  /** So it is in every tree when no live deadline is compared wrongly. */
  lemma {:induction false} ComparableEnough(q: seq<TimerNode>, d: int, t: Shape, lo: nat, hi: nat)
    requires Comparable(q, d) && Fits(t, lo, hi) && hi <= |q|
    ensures PathSame(q, d, t, lo, hi)
  {
    match t
    case Empty =>
    case Fork(at, l, r) =>
      ComparableEnough(q, d, l, lo, at);
      ComparableEnough(q, d, r, at + 1, hi);
  }

  /** But a wrong comparison off the path does no harm: three nodes with the middle one at the root. */
  lemma OffThePath(x: TimerNode, y: TimerNode, z: TimerNode)
    requires x.timeout == 0 && y.timeout == Ordered.TWO31 + 10 && z.timeout == Ordered.TWO31 + 110
    ensures var q, d, t := [x, y, z], Ordered.TWO31 + 60, Fork(1, Fork(0, Empty, Empty), Fork(2, Empty, Empty));
            !Comparable(q, d) && Fits(t, 0, 3) && PathSame(q, d, t, 0, 3)
  {
    var q, d := [x, y, z], Ordered.TWO31 + 60;
    assert !Ordered.SameSign(d - q[0].timeout);
  }

  /** The same, of the map the sequence stands for. */
  ghost predicate Tellable<C>(timers: map<int, set<C>>, d: int) {
    forall e :: e in timers ==> Ordered.SameSign(d - e)
  }

  /** A deadline that can be told from all those of the map is filed right in every tree over it. */
  lemma TellableEnough(q: seq<TimerNode>, d: int, t: Shape)
    requires Ascending(q) && Tellable(AsMap(q), d) && Fits(t, 0, |q|)
    ensures PathSame(q, d, t, 0, |q|)
  {
    forall i | 0 <= i < |q| ensures Ordered.SameSign(d - q[i].timeout) {
      AsMapAt(q, i);
    }
    ComparableEnough(q, d, t, 0, |q|);
  }

  /** Deadlines that all lie in one window of 2^31 ms can be told from each other. */
  lemma WindowEnough<C>(timers: map<int, set<C>>, d: int, lo: int)
    requires lo <= d < lo + Ordered.TWO31 && forall e :: e in timers ==> lo <= e < lo + Ordered.TWO31
    ensures Tellable(timers, d)
  {
    forall e | e in timers ensures Ordered.SameSign(d - e) {
      Ordered.NarrowAgrees(d - e);
    }
  }

  /** Live deadlines within 2^31 ms of the new one are enough. */
  lemma SpanEnough(q: seq<TimerNode>, d: int)
    requires forall i :: 0 <= i < |q| ==> -Ordered.TWO31 < d - q[i].timeout < Ordered.TWO31
    ensures Comparable(q, d)
  {
  }

  /** A deadline 2^32 ms after a live one is filed under that one. */
  lemma DescentConfuses(at: nat, coros: set<nat>, timeout: int)
    ensures var q := [TimerNode(at, timeout, coros)];
            Walk(q, timeout + Ordered.TWO32, Fork(0, Empty, Empty), 0, 1) == (true, 0)
  {
  }

  /** A tree of one node with another linked on its left or right, which needs no rebalancing. */
  function Beside(i: nat): Shape {
    if i == 0 then Fork(1, Fork(0, Empty, Empty), Empty) else Fork(0, Empty, Fork(1, Empty, Empty))
  }

  /** The descent over the tree of x alone links y on the wrong side, where the full search does not find it. */
  ghost predicate Mislinked(x: TimerNode, y: TimerNode) {
    var (found, i) := Walk([x], y.timeout, Fork(0, Empty, Empty), 0, 1);
    && !found && i <= 1 && Fits(Beside(i), 0, 2)
    && !Ascending(Spliced([x], i, y)) && !Seek(Spliced([x], i, y), y.timeout, Beside(i), 0, 2).0
  }

  lemma MislinkedBeside(x: TimerNode, y: TimerNode)
    requires !Ordered.SameSign(y.timeout - x.timeout) && Ordered.Narrow(y.timeout - x.timeout) != 0
    ensures Mislinked(x, y)
  {
    var s := Ordered.Narrow(y.timeout - x.timeout);
    assert if s < 0 then y.timeout > x.timeout else y.timeout < x.timeout;
    hide Ordered.Narrow, Ordered.SameSign;
    var i := if s < 0 then 0 else 1;
    assert Walk([x], y.timeout, Fork(0, Empty, Empty), 0, 1) == (false, i);
    var p := Spliced([x], i, y);
    assert p[0].timeout > p[1].timeout;
    assert Fits(Beside(i), 0, 2) && !Ascending(p);
    if i == 0 {
      assert Seek(p, y.timeout, Beside(0), 0, 2) == Seek(p, y.timeout, Empty, 2, 2);
    } else {
      assert Seek(p, y.timeout, Beside(1), 0, 2) == Seek(p, y.timeout, Empty, 0, 0);
    }
  }
}
