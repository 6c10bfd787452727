/**
 * The global `sched` record of src/coro/sched.c as an object. Each method is
 * tied to the step function it performs; the expiry loops are tied to the one
 * relation that fixes what moves and in what order.
 */
module Scheduler {
  import opened Seqs
  import opened Sched
  import opened Timers
  import opened Descent
  import Ordered

  /** The nodes among the first n hold these coroutines. */
  ghost function Taken(q: seq<TimerNode>, n: nat): set<nat>
    requires n <= |q|
  {
    set i, c | 0 <= i < n && c in q[i].coros :: c
  }

  lemma GroupDue(s: State, q: seq<TimerNode>, i: nat)
    requires Ascending(q) && s.timers == AsMap(q) && Filed(s.timers, s.coros) && i < |q|
    ensures Due(q[i].coros, s.coros, q[i].timeout)
  {
    AsMapAt(q, i);
  }

  lemma TakenDue(s: State, q: seq<TimerNode>, n: nat, c: nat)
    requires Ascending(q) && s.timers == AsMap(q) && Filed(s.timers, s.coros) && n <= |q|
    requires c in Taken(q, n)
    ensures c in s.coros && Sleeps(s, c) && (n > 0 ==> s.coros[c].timeout <= q[n - 1].timeout)
  {
    var i :| 0 <= i < n && c in q[i].coros;
    GroupDue(s, q, i);
    AsMapAt(q, i);
  }

  /** One more node taken: the order so far goes on with that node's coroutines. */
  lemma TakeNode(s: State, q: seq<TimerNode>, n: nat, order: seq<nat>, out: seq<nat>)
    requires Ascending(q) && s.timers == AsMap(q) && Filed(s.timers, s.coros) && n < |q|
    requires Lists(order, Taken(q, n)) && ByDeadline(order, s.coros) && Lists(out, q[n].coros)
    ensures Lists(order + out, Taken(q, n + 1)) && ByDeadline(order + out, s.coros)
  {
    hide AsMap, Sleeps;
    GroupDue(s, q, n);
    forall c | c in order ensures c in s.coros && s.coros[c].timeout < q[n].timeout {
      TakenDue(s, q, n, c);
    }
    DistinctConcat(order, out);
    assert Taken(q, n + 1) == Taken(q, n) + q[n].coros;
  }

  lemma FlagNode(coros: map<nat, Coro>, q: seq<TimerNode>, n: nat)
    requires n < |q|
    ensures Flagged(Flagged(coros, Taken(q, n)), q[n].coros) == Flagged(coros, Taken(q, n + 1))
  {
  }

  lemma LaterNodes(q: seq<TimerNode>, n: nat, now: int)
    requires Ascending(q) && n <= |q| && (forall k :: 0 <= k < n ==> q[k].timeout <= now)
    requires n < |q| ==> now < q[n].timeout
    ensures AsMap(q[n..]) == map d | d in AsMap(q) && now < d :: AsMap(q)[d]
  {
    hide AsMap;
    var m := map d | d in AsMap(q) && now < d :: AsMap(q)[d];
    AsMapStands(q);
    forall d | d in m ensures Holds(q[n..], d) {
      var k :| 0 <= k < |q| && q[k].timeout == d;
      assert q[n..][k - n].timeout == d;
    }
    StandsIs(q[n..], m);
  }

  lemma TakenOverdue(s: State, q: seq<TimerNode>, n: nat, now: int)
    requires Ascending(q) && s.timers == AsMap(q) && Filed(s.timers, s.coros) && n <= |q|
    requires forall k :: 0 <= k < n ==> q[k].timeout <= now
    requires n < |q| ==> now < q[n].timeout
    ensures Taken(q, n) == Overdue(s, now)
  {
    forall c | c in Taken(q, n) ensures c in Overdue(s, now) {
      TakenDue(s, q, n, c);
    }
    AsMapStands(q);
    forall c | c in Overdue(s, now) ensures c in Taken(q, n) {
      assert Holds(q, s.coros[c].timeout);
    }
  }

  class Schedule {
    var max: nat
    var curr: nat
    var nextId: nat
    var current: nat
    var idle: seq<nat>
    var active: seq<nat>
    var inactive: seq<TimerNode>
    var cache: seq<nat>
    var cacheSize: nat
    var coros: map<nat, Coro>

    ghost function View(): State
      reads this
    {
      State(max, curr, nextId, current, idle, active, AsMap(inactive), coros)
    }

    /** No timer node is empty, and none is in the tree or the pool twice or in both. */
    ghost predicate Linked()
      reads this
    {
      Occupied(inactive) && Pooled(inactive, cache) && |cache| <= cacheSize
    }

    /** And the tree is in order. */
    ghost predicate Valid()
      reads this
    {
      Linked() && Ascending(inactive)
    }

    /**
     * schedule_init, with the timer nodes that memcache_create put in the pool; it
     * asserts room for two, so the maximum is at least four.
     */
    constructor (maxCoroSize: nat, pool: seq<nat>)
      requires maxCoroSize >= 4 && Distinct(pool) && |pool| == maxCoroSize / 2 / 4
      ensures Valid() && View() == State(maxCoroSize, 0, 0, MAIN, [], [], map[], map[]) && Placed(View())
    {
      max, curr, nextId, current := maxCoroSize, 0, 0, MAIN;
      idle, active, inactive, coros := [], [], [], map[];
      cache, cacheSize := pool, maxCoroSize / 2;
    }

    method CreateCoroutine(memory: bool) returns (c: nat)
      modifies `curr, `nextId
      ensures c == (if old(curr) == max || !memory then MAIN else old(nextId) + 1)
      ensures curr == old(curr) + (if c == MAIN then 0 else 1)
      ensures nextId == old(nextId) + (if c == MAIN then 0 else 1)
    {
      if curr == max || !memory {
        return MAIN;
      }
      nextId := nextId + 1;
      c := nextId;
      curr := curr + 1;
    }

    method GetCoroutine(memory: bool) returns (c: nat)
      modifies this
      ensures (old(Valid()) ==> Valid()) && (View(), c) == Sched.GetCoroutine(old(View()), memory)
      ensures active == old(active) && (if old(idle) != [] then old(idle) == [c] + idle else idle == [])
    {
      if idle != [] {
        c := idle[0];
        idle := idle[1..];
        coros := coros[c := Coro(0, false)];
        return;
      }
      c := CreateCoroutine(memory);
      if c != MAIN {
        coros := coros[c := Coro(0, false)];
      }
    }

    method DispatchCoro(memory: bool) returns (ok: bool, c: nat)
      modifies this
      ensures (old(Valid()) ==> Valid()) && (View(), c) == Dispatch(old(View()), memory) && (ok <==> c != MAIN)
      ensures old(Placed(View())) ==> Placed(View()) && (ok ==> active == old(active) + [c] && c !in old(active))
      ensures old(Placed(View())) ==> (ok <==> old(idle) != [] || (old(curr) < max && memory))
    {
      hide AsMap;
      ghost var s := View();
      c := GetCoroutine(memory);
      ok := c != MAIN;
      if ok {
        active := active + [c];
      }
      if Placed(s) {
        DispatchPlaced(s, memory);
        assert s.idle != [] ==> s.idle[0] in s.idle && s.idle[0] in s.coros;
      }
    }

    /** find_timer_node over the tree of shape `t`; right whenever the tree is in order. */
    method FindTimerNode(timeout: int, t: Shape) returns (found: bool, i: nat)
      requires Fits(t, 0, |inactive|)
      ensures (found, i) == Seek(inactive, timeout, t, 0, |inactive|)
      ensures Ascending(inactive) ==> Right(inactive, timeout, (found, i))
    {
      if Ascending(inactive) {
        SeekRight(inactive, timeout, t, 0, |inactive|);
      }
      var each := t;
      var lo: nat, hi: nat := 0, |inactive|;
      while each.Fork?
        invariant lo <= hi <= |inactive| && Fits(each, lo, hi)
        invariant Seek(inactive, timeout, each, lo, hi) == Seek(inactive, timeout, t, 0, |inactive|)
        decreases each
      {
        var timespan := timeout - inactive[each.at].timeout;
        if timespan < 0 {
          each, hi := each.l, each.at;
        } else if timespan > 0 {
          each, lo := each.r, each.at + 1;
        } else {
          return true, each.at;
        }
      }
      return false, lo;
    }

    /** The descent of move_to_inactive_tree, which narrows the difference to an int, over the tree of shape `t`. */
    method Descend(timeout: int, t: Shape) returns (found: bool, i: nat)
      requires Fits(t, 0, |inactive|)
      ensures (found, i) == Walk(inactive, timeout, t, 0, |inactive|)
    {
      var newer := t;
      var lo: nat, hi: nat := 0, |inactive|;
      while newer.Fork?
        invariant lo <= hi <= |inactive| && Fits(newer, lo, hi)
        invariant Walk(inactive, timeout, newer, lo, hi) == Walk(inactive, timeout, t, 0, |inactive|)
        decreases newer
      {
        var timespan := Ordered.Narrow(timeout - inactive[newer.at].timeout);
        if timespan < 0 {
          newer, hi := newer.l, newer.at;
        } else if timespan > 0 {
          newer, lo := newer.r, newer.at + 1;
        } else {
          return true, newer.at;
        }
      }
      return false, lo;
    }

    /** memcache_alloc: from the pool, or, if memory is left, a block malloc has not handed out. */
    method MemcacheAlloc(block: nat, memory: bool) returns (ok: bool, at: nat)
      requires Linked() && Unused(inactive, cache, block)
      modifies `cache
      ensures Linked() && (ok <==> old(cache) != [] || memory) && (ok ==> Unused(inactive, cache, at))
      ensures if old(cache) == [] then at == block && cache == [] else old(cache) == cache + [at]
    {
      if cache != [] {
        at := cache[|cache| - 1];
        cache := cache[..|cache| - 1];
        assert old(cache) == cache + [at];
        ok := true;
      } else {
        ok, at := memory, block;
      }
    }

    /** memcache_free: a full pool gives the block back to the system. */
    method MemcacheFree(at: nat)
      requires Linked() && Unused(inactive, cache, at)
      modifies `cache
      ensures Linked() && cache == if |old(cache)| < cacheSize then old(cache) + [at] else old(cache)
    {
      if |cache| < cacheSize {
        cache := cache + [at];
      }
    }

    /** The node move_to_inactive_tree fills and links at place i, right or wrong. */
    method NewTimerNode(i: nat, c: nat, d: int, block: nat, memory: bool) returns (ok: bool)
      requires Linked() && i <= |inactive| && Unused(inactive, cache, block)
      modifies `inactive, `cache
      ensures Linked() && (ok <==> old(cache) != [] || memory)
      ensures if ok then FiledAt(old(inactive), inactive, d, c, (false, i)) else inactive == old(inactive)
    {
      hide Spliced;
      var at;
      ok, at := MemcacheAlloc(block, memory);
      if ok {
        var tmp := TimerNode(at, d, {c});
        PutPooled(inactive, cache, i, tmp);
        inactive := Spliced(inactive, i, tmp);
      }
    }

    /**
     * The coroutine is filed where the narrowed descent over the tree of shape `t`
     * ends: in order and under its deadline exactly when no comparison on the
     * full-width path is changed.
     */
    method MoveToInactiveTree(c: nat, block: nat, memory: bool, t: Shape) returns (ok: bool)
      requires Valid() && c in coros && Fits(t, 0, |inactive|) && Unused(inactive, cache, block)
      modifies `inactive, `cache
      ensures Linked() && (ok <==> Walk(old(inactive), coros[c].timeout, t, 0, |old(inactive)|).0 || old(cache) != [] || memory)
      ensures if ok then FiledAt(old(inactive), inactive, coros[c].timeout, c,
                                 Walk(old(inactive), coros[c].timeout, t, 0, |old(inactive)|))
              else inactive == old(inactive)
      ensures ok && c !in Group(old(AsMap(inactive)), coros[c].timeout) ==>
                (Valid() && AsMap(inactive) == AddTimer(old(AsMap(inactive)), coros[c].timeout, c)
                 <==> PathSame(old(inactive), coros[c].timeout, t, 0, |old(inactive)|))
    {
      hide AsMap, Walk, PathSame;
      var d := coros[c].timeout;
      WalkWithin(inactive, d, t, 0, |inactive|);
      var found, i := Descend(d, t);
      if found {
        inactive := inactive[i := inactive[i].(coros := inactive[i].coros + {c})];
        ok := true;
      } else {
        ok := NewTimerNode(i, c, d, block, memory);
      }
      if ok && c !in Group(old(AsMap(inactive)), d) {
        FiledExact(old(inactive), inactive, d, c, t);
      }
    }

    /** remove_from_inactive_tree over the tree of shape `t`; a node that the search misses stays. */
    method RemoveFromInactiveTree(c: nat, t: Shape)
      requires Linked() && c in coros && Fits(t, 0, |inactive|)
      modifies `inactive, `cache
      ensures Linked()
      ensures old(Valid()) ==> Valid() && AsMap(inactive) == DropTimer(old(AsMap(inactive)), coros[c].timeout, c)
      ensures !Seek(old(inactive), coros[c].timeout, t, 0, |old(inactive)|).0 ==> inactive == old(inactive)
    {
      hide AsMap, Dropped, Seek;
      var d := coros[c].timeout;
      SeekWithin(inactive, d, t, 0, |inactive|);
      var found, i := FindTimerNode(d, t);
      if !found {
        if Ascending(inactive) {
          GapMissing(inactive, i, d);
        }
        return;
      }
      Erased(inactive, i, c);
      var rest := inactive[i].coros - {c};
      if rest == {} {
        var at := inactive[i].at;
        inactive := Dropped(inactive, i);
        MemcacheFree(at);
      } else {
        inactive := inactive[i := inactive[i].(coros := rest)];
      }
    }

    static lemma Erased(q: seq<TimerNode>, i: nat, c: nat)
      requires i < |q|
      ensures Ascending(q) ==>
                var rest := q[i].coros - {c};
                var p := if rest == {} then Dropped(q, i) else q[i := q[i].(coros := rest)];
                Ascending(p) && AsMap(p) == DropTimer(AsMap(q), q[i].timeout, c)
    {
      hide AsMap, Dropped;
      if Ascending(q) {
        AsMapAt(q, i);
        CutIsDrop(q, i);
        SetIsUpdate(q, i, q[i].coros - {c});
      }
    }

    /**
     * schedule_timeout, filed where the descent ends; without memory for a node that
     * is needed the coroutine is lost. Each coroutine is then in one place, in a tree
     * in order, exactly when it is filed and no comparison on the path is changed.
     */
    method ScheduleTimeout(milliseconds: int, now: int, block: nat, memory: bool, t: Shape) returns (ok: bool)
      requires Valid() && current in coros && Fits(t, 0, |inactive|) && Unused(inactive, cache, block)
      modifies this
      ensures Linked() && (ok <==> Walk(old(inactive), now + milliseconds, t, 0, |old(inactive)|).0 || old(cache) != [] || memory)
      ensures if ok then FiledAt(old(inactive), inactive, now + milliseconds, old(current),
                                 Walk(old(inactive), now + milliseconds, t, 0, |old(inactive)|))
              else inactive == old(inactive)
      ensures View() == SleepLost(old(View()), now + milliseconds).(timers := AsMap(inactive))
      ensures current == MAIN && active == old(active) && idle == old(idle)
      ensures old(Placed(View())) && old(current) != MAIN ==>
                (Valid() && Placed(View()) <==> ok && PathSame(old(inactive), now + milliseconds, t, 0, |old(inactive)|))
      ensures old(Placed(View())) && old(current) != MAIN && Valid() && Placed(View()) ==>
                View() == Sleep(old(View()), now + milliseconds)
    {
      hide AsMap, Walk, PathSame, Placed, FiledAt;
      ghost var s, q := View(), inactive;
      var d := now + milliseconds;
      coros := coros[current := coros[current].(timeout := d)];
      ok := MoveToInactiveTree(current, block, memory, t);
      current := MAIN;
      if Placed(s) && s.current != MAIN {
        SleepExact(s, q, inactive, d, t, ok);
      }
    }

    static lemma SleepExact(s: State, q: seq<TimerNode>, p: seq<TimerNode>, d: int, t: Shape, ok: bool)
      requires Placed(s) && s.current != MAIN && s.timers == AsMap(q) && Ascending(q) && Fits(t, 0, |q|)
      requires if ok then FiledAt(q, p, d, s.current, Walk(q, d, t, 0, |q|)) else p == q
      ensures var u := SleepLost(s, d).(timers := AsMap(p));
              && (Ascending(p) && Placed(u) <==> ok && PathSame(q, d, t, 0, |q|))
              && (Ascending(p) && Placed(u) ==> u == Sleep(s, d))
    {
      var c := s.current;
      NotFiled(s, d);
      hide AsMap, Walk, PathSame, Placed;
      var u := SleepLost(s, d).(timers := AsMap(p));
      if !ok {
        LostIsNowhere(s, d);
      } else {
        FiledExact(q, p, d, c, t);
        SleepPlaced(s, d);
        var w := Walk(q, d, t, 0, |q|);
        if w.0 {
          AsMapAt(q, w.1);
          SetIsUpdate(q, w.1, q[w.1].coros + {c});
          MisfiledExact(s, d, q[w.1].timeout);
        } else if Ascending(p) {
          var at: nat :| p == Spliced(q, w.1, TimerNode(at, d, {c}));
          PutExact(q, w.1, TimerNode(at, d, {c}));
          DescentExact(q, d, t);
        }
      }
    }

    static lemma NotFiled(s: State, d: int)
      requires Placed(s) && s.current != MAIN
      ensures s.current in s.coros && s.current !in Group(s.timers, d)
    {
    }

    method IsWakeupByTimeout() returns (byTimeout: bool)
      requires current in coros
      modifies `coros
      ensures (old(Valid()) ==> Valid()) && View() == ClearFlag(old(View()))
      ensures byTimeout == old(coros[current].byTimeout) && !coros[current].byTimeout
    {
      byTimeout := coros[current].byTimeout;
      coros := coros[current := coros[current].(byTimeout := false)];
    }

    method WakeupCoro(c: nat, t: Shape)
      requires Linked() && c in coros && Fits(t, 0, |inactive|)
      modifies this
      ensures Linked() && (old(Valid()) ==> Valid() && View() == Wake(old(View()), c, false))
      ensures !Seek(old(inactive), old(coros[c]).timeout, t, 0, |old(inactive)|).0 ==> View() == WakeMissed(old(View()), c, false)
      ensures active == old(active) + [c]
    {
      coros := coros[c := coros[c].(byTimeout := false)];
      RemoveFromInactiveTree(c, t);
      active := active + [c];
    }

    method WakeupCoroPriority(c: nat, t: Shape)
      requires Linked() && c in coros && Fits(t, 0, |inactive|)
      modifies this
      ensures Linked() && (old(Valid()) ==> Valid() && View() == Wake(old(View()), c, true))
      ensures !Seek(old(inactive), old(coros[c]).timeout, t, 0, |old(inactive)|).0 ==> View() == WakeMissed(old(View()), c, true)
      ensures active == [c] + old(active)
    {
      coros := coros[c := coros[c].(byTimeout := false)];
      RemoveFromInactiveTree(c, t);
      active := [c] + active;
    }

    /** One turn of run_active_coroutine, up to the switch. */
    method RunActive() returns (ran: bool)
      modifies this
      ensures (ran <==> old(active) != []) && (ran ==> old(active) == [current] + active)
      ensures (old(Valid()) ==> Valid()) && View() == (if ran then Pick(old(View())) else old(View()))
    {
      ran := active != [];
      if ran {
        var c := active[0];
        active := active[1..];
        current := c;
      }
    }

    /** The end of coro_routine_proxy. */
    method Return()
      modifies this
      ensures (old(Valid()) ==> Valid()) && View() == Finish(old(View()))
      ensures idle == old(idle) + [old(current)] && current == MAIN && active == old(active)
    {
      idle := idle + [current];
      current := MAIN;
    }

    /**
     * get_recent_timespan, over the first node of the tree. The wait handed to
     * the event policy never runs past the earliest deadline, unless that
     * deadline is more than 2^31 ms in the past.
     */
    method RecentTimespan(now: int) returns (t: int)
      ensures t >= 0 && (inactive == [] ==> t == 10000)
      ensures inactive != [] && -Ordered.TWO31 <= inactive[0].timeout - now ==> t == 0 || now + t <= inactive[0].timeout
      ensures inactive != [] && -Ordered.TWO31 <= inactive[0].timeout - now < Ordered.TWO31 ==>
                t == if inactive[0].timeout < now then 0 else inactive[0].timeout - now
    {
      if inactive == [] {
        return 10000;
      }
      var timespan := Ordered.Narrow(inactive[0].timeout - now);
      t := if timespan < 0 then 0 else timespan;
    }

    /** timeout_coroutine_handler: the coroutines leave in whatever order the tree root yields them. */
    method TimeoutHandler(group: set<nat>) returns (ghost order: seq<nat>)
      requires group <= coros.Keys
      modifies `active, `coros
      ensures Lists(order, group) && active == old(active) + order && coros == Flagged(old(coros), group)
    {
      var root := group;
      order := [];
      while root != {}
        invariant root <= group && Lists(order, group - root)
        invariant active == old(active) + order
        invariant coros == Flagged(old(coros), group - root)
      {
        var c :| c in root;
        root := root - {c};
        coros := coros[c := coros[c].(byTimeout := true)];
        active := active + [c];
        order := order + [c];
        assert group - root == (group - (root + {c})) + {c};
      }
      assert group - root == group;
    }

    /** The body of the loop of check_timeout_coroutine, for a node that is due. */
    method ExpireFirst() returns (ghost out: seq<nat>)
      requires Valid() && inactive != [] && inactive[0].coros <= coros.Keys
      modifies `active, `coros, `inactive, `cache
      ensures Valid() && inactive == old(inactive)[1..] && Lists(out, old(inactive)[0].coros)
      ensures active == old(active) + out && coros == Flagged(old(coros), old(inactive)[0].coros)
    {
      var node := inactive[0];
      inactive := inactive[1..];
      out := TimeoutHandler(node.coros);
      MemcacheFree(node.at);
    }

    method CheckTimeout(now: int) returns (ghost order: seq<nat>)
      requires Valid() && Placed(View())
      modifies `active, `coros, `inactive, `cache
      ensures Valid() && ExpiryOrder(old(View()), now, order) && View() == Expire(old(View()), now, order)
      ensures active == old(active) + order
    {
      hide AsMap, Sleeps, Filed, Apart, Covered, Numbered;
      ghost var q, n := inactive, 0;
      ghost var s := View();
      order := [];
      while inactive != [] && inactive[0].timeout <= now
        invariant Valid() && n <= |q| && inactive == q[n..]
        invariant forall k :: 0 <= k < n ==> q[k].timeout <= now
        invariant Lists(order, Taken(q, n)) && ByDeadline(order, s.coros)
        invariant active == s.active + order && coros == Flagged(s.coros, Taken(q, n))
        decreases |inactive|
      {
        GroupDue(s, q, n);
        ghost var out := ExpireFirst();
        TakeNode(s, q, n, order, out);
        FlagNode(s.coros, q, n);
        order, n := order + out, n + 1;
      }
      LaterNodes(q, n, now);
      TakenOverdue(s, q, n, now);
      assert Elements(order) == Taken(q, n);
    }
  }
}
