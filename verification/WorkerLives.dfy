/**
 * The account of connections over a worker's runs, src/process.c: who was taken,
 * who left, when the process ends, and that it never gets stuck before.
 */
module WorkerLives {
  import opened Seqs
  import opened Sched
  import opened Worker
  import opened WorkerRuns
  import opened WorkerTurns

  // ---- the account ----

  /** The connections that got a coroutine. */
  ghost function Taken(w: World, tr: seq<Label>): nat
    requires Possible(w, tr)
    decreases |tr|
  {
    if tr == [] then 0
    else (if tr[0].Accepted? && Dispatch(w.s, tr[0].memory).1 != MAIN then 1 else 0) + Taken(Next(w, tr[0]), tr[1..])
  }

  /** The handlers that returned, and the accept loop if it did. */
  function Gone(tr: seq<Label>): nat {
    if tr == [] then 0 else (if tr[0].Stopped? || tr[0].Ended? then 1 else 0) + Gone(tr[1..])
  }

  predicate NoQuit(tr: seq<Label>) {
    forall i :: 0 <= i < |tr| ==> !tr[i].Quit?
  }

  lemma {:induction false} PollCounts(w: World, fds: seq<nat>)
    ensures Poll(w, fds).count == w.count && Poll(w, fds).exited == w.exited && Poll(w, fds).granted == w.granted
    ensures Poll(w, fds).accepting == w.accepting && Poll(w, fds).s.idle == w.s.idle
    decreases |fds|
  {
    if fds != [] {
      PollCounts(WakeFd(w, fds[0]), fds[1..]);
    }
  }

  lemma StepCounts(w: World, a: Label)
    requires Enabled(w, a) && w.count > 0
    ensures var v := Next(w, a);
            && v.count == w.count + (if a.Accepted? && Dispatch(w.s, a.memory).1 != MAIN then 1 else 0)
                                  - (if a.Stopped? || a.Ended? then 1 else 0)
            && (v.exited <==> a.Quit? || v.count == 0)
  {
    hide Dispatch;
    if a.Polled? {
      PollCounts(w.(phase := RunSecond), a.fds);
    }
  }

  /**
   * In every run the count is what it was, plus the connections taken, minus the
   * coroutines gone; and the process has ended exactly if it was told to quit or
   * everybody has gone.
   */
  lemma {:induction false} Conserved(w: World, tr: seq<Label>)
    requires Possible(w, tr) && !w.exited && w.count > 0
    ensures After(w, tr).count == w.count + Taken(w, tr) - Gone(tr)
    ensures After(w, tr).exited <==> !NoQuit(tr) || Gone(tr) == w.count + Taken(w, tr)
    decreases |tr|
  {
    hide Next, Enabled, Dispatch;
    if tr != [] {
      var v := Next(w, tr[0]);
      StepCounts(w, tr[0]);
      if v.exited {
        NothingAfter(v, tr[1..]);
      } else {
        Conserved(v, tr[1..]);
        assert NoQuit(tr) <==> !tr[0].Quit? && NoQuit(tr[1..]);
      }
    }
  }

  lemma NothingAfter(w: World, tr: seq<Label>)
    requires Possible(w, tr) && w.exited
    ensures tr == []
  {
  }

  /** The same from the start: one for the accept loop. */
  lemma WholeAccount(w: World, max: nat, listen: nat, tr: seq<Label>)
    requires max >= 4 && Boot(w, max, listen) && Possible(w, tr)
    ensures After(w, tr).count == 1 + Taken(w, tr) - Gone(tr)
    ensures After(w, tr).exited <==> !NoQuit(tr) || Gone(tr) == 1 + Taken(w, tr)
  {
    hide Next, Enabled, Dispatch, Possible, After;
    Conserved(w, tr);
  }

  // ---- the accept lock ----

  /** The last answer of worker_can_accept and the trylock, until the accept that follows it is over. */
  ghost function Held(w: World, tr: seq<Label>): bool
    requires Possible(w, tr)
    decreases |tr|
  {
    if tr == [] then w.granted
    else
      var n := |tr| - 1;
      assert Possible(w, tr[..n]) && Possible(After(w, tr[..n]), tr[n..]) by { Halves(w, tr, n); }
      if tr[n].Asked? then tr[n].lock && After(w, tr[..n]).count < After(w, tr[..n]).s.max
      else !tr[n].Accepted? && !tr[n].Refused? && Held(w, tr[..n])
  }

  lemma GrantStep(w: World, a: Label)
    requires Enabled(w, a)
    ensures Next(w, a).granted <==> if a.Asked? then a.lock && w.count < w.s.max else !a.Accepted? && !a.Refused? && w.granted
  {
    hide Dispatch;
    if a.Polled? {
      PollCounts(w.(phase := RunSecond), a.fds);
    }
  }

  lemma {:induction false} HeldExactly(w: World, tr: seq<Label>)
    requires Possible(w, tr)
    ensures After(w, tr).granted <==> Held(w, tr)
    decreases |tr|
  {
    if tr != [] {
      var n := |tr| - 1;
      Halves(w, tr, n);
      HeldExactly(w, tr[..n]);
      hide Next, Enabled;
      var v := After(w, tr[..n]);
      assert tr[n..] == [tr[n]] + [];
      assert Enabled(v, tr[n]);
      Unfold(v, tr[n], []);
      GrantStep(v, tr[n]);
    }
  }

  // ---- never stuck ----

  /** An order for one expiry pass over any overdue coroutines. */
  lemma {:induction false} SomeOrder(due: set<nat>, coros: map<nat, Coro>) returns (order: seq<nat>)
    requires due <= coros.Keys
    ensures Lists(order, due) && ByDeadline(order, coros)
    decreases |due|
  {
    if due == {} {
      order := [];
    } else {
      var c := Latest(due, coros);
      var rest := SomeOrder(due - {c}, coros);
      order := rest + [c];
    }
  }

  lemma {:induction false} Latest(due: set<nat>, coros: map<nat, Coro>) returns (c: nat)
    requires due != {} && due <= coros.Keys
    ensures c in due && forall x :: x in due ==> coros[x].timeout <= coros[c].timeout
    decreases |due|
  {
    c :| c in due;
    if due != {c} {
      var b := Latest(due - {c}, coros);
      if coros[c].timeout < coros[b].timeout {
        c := b;
      }
    }
  }

  /** A step that keeps the accept loop stopped, or stops it, has its coroutine idle. */
  lemma StoppedStep(w: World, a: Label)
    requires Enabled(w, a) && (w.accepting || ACCEPTOR in w.s.idle)
    ensures Next(w, a).accepting || Next(w, a).exited || ACCEPTOR in Next(w, a).s.idle
  {
    hide Sleeps;
    if a.Polled? {
      PollCounts(w.(phase := RunSecond), a.fds);
    }
  }

  /** Once the accept loop has seen stop, its coroutine stays idle. */
  lemma {:induction false} StoppedIdle(w: World, n: nat)
    requires Reaches(w, n) && !w.exited
    ensures w.accepting || ACCEPTOR in w.s.idle
    decreases n
  {
    if n > 0 {
      var v, a :| Reaches(v, n - 1) && Enabled(v, a) && w == Next(v, a);
      assert !v.exited;
      hide Reaches, Next, Enabled;
      StoppedIdle(v, n - 1);
      StoppedStep(v, a);
    }
  }

  lemma MainGoesOn(w: World, now: int) returns (a: Label)
    requires !w.exited && w.s.current == MAIN
    ensures Enabled(w, a) && (a.Expired? ==> a.now == now)
  {
    match w.phase
    case Check =>
      var order := SomeOrder(Overdue(w.s, now), w.s.coros);
      a := Expired(now, order);
    case Policy => a := Polled([]);
    case _ => a := if w.s.active == [] then Drained else Picked;
  }

  lemma CoroutineGoesOn(w: World) returns (a: Label)
    requires !w.exited && w.s.current != MAIN && Placed(w.s) && Tracked(w.s, w.pc) && (w.accepting || ACCEPTOR in w.s.idle)
    ensures Enabled(w, a) && !a.Expired?
  {
    hide Sleeps, Filed, Covered;
    match w.pc[w.s.current]
    case Waiting(_, _) => a := Resumed(true);
    case Live => a := if w.s.current == ACCEPTOR then Refused else Ended;
    case Fresh => a := Started;
    case Napping => a := Started;
    case Unused => assert false;
  }

  /** Every reachable worker that has not ended can go on, whatever the clock says. */
  lemma NeverStuck(w: World, n: nat, now: int) returns (a: Label)
    requires Reaches(w, n) && !w.exited
    ensures Enabled(w, a) && (a.Expired? ==> a.now == now)
  {
    hide Enabled, Reaches, Placed, Tracked, Wired, FlagsRight;
    AlwaysInv(w, n);
    StoppedIdle(w, n);
    if w.s.current == MAIN {
      a := MainGoesOn(w, now);
    } else {
      a := CoroutineGoesOn(w);
    }
  }
}
