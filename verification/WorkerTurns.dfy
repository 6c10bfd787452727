/**
 * The order of things in a worker's runs: the turns of the main loop of
 * src/coro/sched.c, and the order in which coroutines are woken and run.
 */
module WorkerTurns {
  import opened Seqs
  import opened Sched
  import opened Events
  import opened Worker
  import opened WorkerProof
  import opened WorkerRuns

  /** These steps can be taken one after the other. */
  ghost predicate Possible(w: World, tr: seq<Label>)
    decreases |tr|
  {
    tr == [] || (Enabled(w, tr[0]) && Possible(Next(w, tr[0]), tr[1..]))
  }

  ghost function After(w: World, tr: seq<Label>): World
    requires Possible(w, tr)
    decreases |tr|
  {
    if tr == [] then w else After(Next(w, tr[0]), tr[1..])
  }

  lemma {:induction false} AfterReached(w: World, n: nat, tr: seq<Label>)
    requires Reaches(w, n) && Possible(w, tr)
    ensures Reaches(After(w, tr), n + |tr|)
    decreases |tr|
  {
    hide Reaches, Next, Enabled;
    if tr != [] {
      Steps(w, n, tr[0]);
      AfterReached(Next(w, tr[0]), n + 1, tr[1..]);
    }
  }

  lemma Unfold(w: World, a: Label, tr: seq<Label>)
    requires Enabled(w, a)
    ensures Possible(w, [a] + tr) <==> Possible(Next(w, a), tr)
    ensures Possible(w, [a] + tr) ==> After(w, [a] + tr) == After(Next(w, a), tr)
  {
    hide Next, Enabled;
    assert ([a] + tr)[1..] == tr;
  }

  lemma {:induction false} Halves(w: World, tr: seq<Label>, i: nat)
    requires Possible(w, tr) && i <= |tr|
    ensures Possible(w, tr[..i]) && Possible(After(w, tr[..i]), tr[i..]) && After(After(w, tr[..i]), tr[i..]) == After(w, tr)
    decreases i
  {
    if i == 0 {
      assert tr[..0] == [] && tr[0..] == tr;
    } else {
      assert Enabled(w, tr[0]) && Possible(Next(w, tr[0]), tr[1..]);
      hide Next, Enabled, Possible, After;
      Halves(Next(w, tr[0]), tr[1..], i - 1);
      assert tr == [tr[0]] + tr[1..] && tr[..i] == [tr[0]] + tr[1..][..i - 1] && tr[i..] == tr[1..][i - 1..];
      Unfold(w, tr[0], tr[1..]);
      Unfold(w, tr[0], tr[1..][..i - 1]);
    }
  }

  // ---- the turns of the main loop ----

  predicate NoExpiry(tr: seq<Label>) {
    forall i :: 0 <= i < |tr| ==> !tr[i].Expired?
  }

  predicate NoPolicy(tr: seq<Label>) {
    forall i :: 0 <= i < |tr| ==> !tr[i].Polled?
  }

  /** How often the active list was found drained. */
  function Drains(tr: seq<Label>): nat {
    if tr == [] then 0 else (if tr[0].Drained? then 1 else 0) + Drains(tr[1..])
  }

  lemma PhaseStep(w: World, a: Label)
    requires Enabled(w, a) && !a.Expired? && !a.Polled?
    ensures if a.Drained? then (w.phase == RunFirst && Next(w, a).phase == Policy) || (w.phase == RunSecond && Next(w, a).phase == Check)
            else Next(w, a).phase == w.phase
  {
  }

  lemma {:induction false} WithinRun(w: World, tr: seq<Label>)
    requires Possible(w, tr) && NoExpiry(tr) && NoPolicy(tr)
    ensures || (After(w, tr).phase == w.phase && Drains(tr) == 0)
            || (w.phase == RunFirst && After(w, tr).phase == Policy && Drains(tr) == 1)
            || (w.phase == RunSecond && After(w, tr).phase == Check && Drains(tr) == 1)
    decreases |tr|
  {
    hide Next, Enabled;
    if tr != [] {
      PhaseStep(w, tr[0]);
      WithinRun(Next(w, tr[0]), tr[1..]);
    }
  }

  lemma PolledPhase(w: World, a: Label)
    requires Enabled(w, a) && a.Polled?
    ensures w.phase == Policy && Next(w, a).phase == RunSecond
  {
    PollPhase(w.(phase := RunSecond), a.fds);
  }

  lemma {:induction false} PollPhase(w: World, fds: seq<nat>)
    ensures Poll(w, fds).phase == w.phase
    decreases |fds|
  {
    if fds != [] {
      PollPhase(WakeFd(w, fds[0]), fds[1..]);
    }
  }

  lemma ExpiredPhase(w: World, a: Label)
    requires Enabled(w, a) && a.Expired?
    ensures w.phase == Check && Next(w, a).phase == RunFirst
  {
  }

  /** The first policy step, or the end. */
  function FirstPolicy(tr: seq<Label>): (i: nat)
    ensures i <= |tr| && NoPolicy(tr[..i]) && (i < |tr| ==> tr[i].Polled?)
  {
    if tr == [] || tr[0].Polled? then 0
    else
      var i := FirstPolicy(tr[1..]);
      assert tr[..i + 1] == [tr[0]] + tr[1..][..i];
      i + 1
  }

  /** Up to the first policy step, that step, and the rest. */
  lemma ToPolicy(w: World, tr: seq<Label>)
    requires Possible(w, tr) && NoExpiry(tr)
    ensures var i := FirstPolicy(tr);
            && Possible(w, tr[..i])
            && (i == |tr| ==> tr[..i] == tr)
            && (i < |tr| ==> var u := After(w, tr[..i]);
                             && Enabled(u, tr[i]) && Possible(Next(u, tr[i]), tr[i + 1..])
                             && After(Next(u, tr[i]), tr[i + 1..]) == After(w, tr))
  {
    hide Next, Enabled;
    var i := FirstPolicy(tr);
    Halves(w, tr, i);
    if i < |tr| {
      assert tr[i..][0] == tr[i] && tr[i..][1..] == tr[i + 1..];
    }
  }

  /**
   * Between two expiry passes, whatever else happens, the event policy runs exactly
   * once, and the active list is drained once before it and once after it.
   */
  lemma OneTurn(w: World, first: Label, tr: seq<Label>, second: Label) returns (i: nat)
    requires Enabled(w, first) && first.Expired? && Possible(Next(w, first), tr) && NoExpiry(tr)
    requires Enabled(After(Next(w, first), tr), second) && second.Expired?
    ensures i < |tr| && tr[i].Polled? && NoPolicy(tr[..i]) && NoPolicy(tr[i + 1..])
    ensures Drains(tr[..i]) == 1 && Drains(tr[i + 1..]) == 1
  {
    hide Next, Enabled, Drains;
    var v := Next(w, first);
    ExpiredPhase(w, first);
    ExpiredPhase(After(v, tr), second);
    i := FirstPolicy(tr);
    ToPolicy(v, tr);
    WithinRun(v, tr[..i]);
    var u := After(v, tr[..i]);
    PolledPhase(u, tr[i]);
    SecondHalf(Next(u, tr[i]), tr[i + 1..]);
  }

  /** After the policy the loop ends its turn before the policy can run again. */
  lemma SecondHalf(w: World, tr: seq<Label>)
    requires w.phase == RunSecond && Possible(w, tr) && NoExpiry(tr) && After(w, tr).phase == Check
    ensures NoPolicy(tr) && Drains(tr) == 1
  {
    hide Next, Enabled, Drains;
    var i := FirstPolicy(tr);
    ToPolicy(w, tr);
    WithinRun(w, tr[..i]);
    if i < |tr| {
      PolledPhase(After(w, tr[..i]), tr[i]);
    }
  }

  /** A drained first round is followed by the policy, whatever the kernel reports. */
  lemma PolicyFollows(w: World, fds: seq<nat>)
    requires !w.exited && w.s.current == MAIN && w.phase == RunFirst && w.s.active == []
    requires Distinct(fds) && forall fd :: fd in fds ==> fd in w.l.interest
    ensures Enabled(w, Drained) && Enabled(Next(w, Drained), Polled(fds))
  {
  }

  // ---- the order in which coroutines are woken ----

  predicate InTable(l: Loop, fds: seq<nat>) {
    forall i :: 0 <= i < |fds| ==> fds[i] < |l.slots|
  }

  /** The coroutines that these descriptors wake at the head, last reported first. */
  function UrgentOf(l: Loop, fds: seq<nat>): seq<nat>
    requires InTable(l, fds)
  {
    if fds == [] then []
    else UrgentOf(l, fds[1..]) + if l.slots[fds[0]].urgent then [l.slots[fds[0]].args] else []
  }

  /** And those they wake at the tail, first reported first. */
  function OthersOf(l: Loop, fds: seq<nat>): seq<nat>
    requires InTable(l, fds)
  {
    if fds == [] then []
    else (if l.slots[fds[0]].urgent then [] else [l.slots[fds[0]].args]) + OthersOf(l, fds[1..])
  }

  lemma WakeOrder(w: World, fd: nat)
    requires fd < |w.l.slots| && w.l.slots[fd].args in w.s.coros
    ensures var v, c := WakeFd(w, fd), w.l.slots[fd].args;
            && v.l == w.l && v.s.coros.Keys == w.s.coros.Keys
            && v.s.active == if w.l.slots[fd].urgent then [c] + w.s.active else w.s.active + [c]
  {
  }

  lemma {:induction false} PollOrder(w: World, fds: seq<nat>)
    requires InTable(w.l, fds) && forall i :: 0 <= i < |fds| ==> w.l.slots[fds[i]].args in w.s.coros.Keys
    ensures Poll(w, fds).s.active == UrgentOf(w.l, fds) + w.s.active + OthersOf(w.l, fds)
    decreases |fds|
  {
    hide WakeFd;
    if fds != [] {
      WakeOrder(w, fds[0]);
      PollOrder(WakeFd(w, fds[0]), fds[1..]);
    }
  }

  lemma BatchArgs(w: World, fds: seq<nat>)
    requires Batch(w, fds)
    ensures InTable(w.l, fds) && forall i :: 0 <= i < |fds| ==> w.l.slots[fds[i]].args in w.s.coros.Keys
  {
    assert forall i :: 0 <= i < |fds| ==> fds[i] in fds;
  }

  /** A batch of events queues the priority wakes in reverse order of report, then the others in order of report. */
  lemma BatchOrder(w: World, n: nat, fds: seq<nat>)
    requires Reaches(w, n) && Enabled(w, Polled(fds))
    ensures InTable(w.l, fds) && Next(w, Polled(fds)).s.active == UrgentOf(w.l, fds) + OthersOf(w.l, fds)
  {
    EventBatch(w, n, fds);
    hide Reaches, Poll, UrgentOf, OthersOf, Sleeps;
    BatchArgs(w, fds);
    PollOrder(w.(phase := RunSecond), fds);
    assert UrgentOf(w.l, fds) + [] == UrgentOf(w.l, fds);
  }

  // ---- the order in which coroutines run ----

  /** The coroutines that these steps switch to. */
  ghost function Picks(w: World, tr: seq<Label>): seq<nat>
    requires Possible(w, tr)
    decreases |tr|
  {
    if tr == [] then []
    else (if tr[0].Picked? then [Next(w, tr[0]).s.current] else []) + Picks(Next(w, tr[0]), tr[1..])
  }

  lemma StepQueues(w: World, a: Label)
    requires Enabled(w, a) && !a.Polled?
    ensures if a.Picked? then w.s.active == [Next(w, a).s.current] + Next(w, a).s.active
            else w.s.active <= Next(w, a).s.active
  {
    hide Expire;
    if a.Expired? {
      ExpireQueues(w.s, a.now, a.order);
    }
  }

  lemma ExpireQueues(s: State, now: int, order: seq<nat>)
    ensures s.active <= Expire(s, now, order).active
  {
  }

  /** What is queued is run in the order of the queue, up to the next policy step. */
  lemma {:induction false} PickedInOrder(w: World, tr: seq<Label>)
    requires Possible(w, tr) && NoPolicy(tr)
    ensures w.s.active <= Picks(w, tr) + After(w, tr).s.active
    decreases |tr|
  {
    hide Next, Enabled;
    if tr != [] {
      var v := Next(w, tr[0]);
      StepQueues(w, tr[0]);
      PickedInOrder(v, tr[1..]);
      var more := Picks(v, tr[1..]) + After(v, tr[1..]).s.active;
      if tr[0].Picked? {
        assert Picks(w, tr) + After(w, tr).s.active == [v.s.current] + more;
      } else {
        assert Picks(w, tr) + After(w, tr).s.active == more;
      }
    }
  }

  /** So the coroutines of a batch run in its order before the list is drained. */
  lemma BatchRuns(w: World, n: nat, fds: seq<nat>, tr: seq<Label>)
    requires Reaches(w, n) && Enabled(w, Polled(fds)) && Possible(Next(w, Polled(fds)), tr) && NoPolicy(tr)
    requires After(Next(w, Polled(fds)), tr).s.active == []
    ensures InTable(w.l, fds) && UrgentOf(w.l, fds) + OthersOf(w.l, fds) <= Picks(Next(w, Polled(fds)), tr)
  {
    hide Reaches, Next, Enabled, Possible, Picks, After, UrgentOf, OthersOf;
    BatchOrder(w, n, fds);
    var v := Next(w, Polled(fds));
    PickedInOrder(v, tr);
    assert Picks(v, tr) + [] == Picks(v, tr);
  }

  // ---- what wakes a coroutine ----

  /** A nap, and a hooked wait that is registered, put the running coroutine to sleep until the deadline. */
  lemma FallsAsleep(w: World, n: nat, a: Label)
    requires Reaches(w, n) && Enabled(w, a)
    requires a.Naps? || (a.Waits? && Add(w.l, a.fd, a.what, a.urgent, w.s.current, a.willing).1 == 0)
    ensures var v, c := Next(w, a), w.s.current;
            v.s.current == MAIN && Sleeps(v.s, c) && v.s.coros[c].timeout == a.deadline
  {
  }

  /** A sleeping coroutine stays asleep through every step but an expiry pass at or after its deadline and its event. */
  lemma WakesExactly(w: World, n: nat, a: Label, c: nat)
    requires Reaches(w, n) && Enabled(w, a) && Sleeps(w.s, c)
    ensures !Sleeps(Next(w, a).s, c) <==>
            (a.Expired? && w.s.coros[c].timeout <= a.now) || (a.Polled? && NamedBy(w.l, a.fds, c))
  {
    hide Reaches, NamedBy, Poll, Expire, Inv;
    AlwaysInv(w, n);
    match a
    case Expired(now, order) => ExpiryWakes(w, now, order, c);
    case Polled(fds) => EventBatch(w, n, fds);
    case _ => OtherSteps(w, a, c);
  }

  lemma ExpiryWakes(w: World, now: int, order: seq<nat>, c: nat)
    requires Inv(w) && ExpiryOrder(w.s, now, order) && Sleeps(w.s, c)
    ensures Sleeps(Expire(w.s, now, order), c) <==> now < w.s.coros[c].timeout
  {
    hide Tracked, Wired, FlagsRight, Mirrors, Counted;
  }

  lemma OtherSteps(w: World, a: Label, c: nat)
    requires Inv(w) && Enabled(w, a) && !a.Expired? && !a.Polled? && Sleeps(w.s, c)
    ensures Sleeps(Next(w, a).s, c)
  {
    hide Tracked, Wired, FlagsRight, Mirrors, Counted, Placed, Add, Del, Sleep, Dispatch;
    match a
    case Waits(_, _, _, deadline, _) => SleepSleeps(w.s, deadline);
    case Naps(deadline) => SleepSleeps(w.s, deadline);
    case Accepted(_, memory) => DispatchSleeps(w.s, memory);
    case _ =>
  }

  // ---- a turn with an event ----

  /** A worker of any size waits for a connection, and the event of its listening descriptor wakes it. */
  lemma EventReached(max: nat, d: int) returns (w: World, n: nat)
    requires max >= 4
    ensures Reaches(w, n) && 3 < |w.l.slots| && w.l.slots[3].args == ACCEPTOR
    ensures Enabled(w, Polled([3])) && Next(w, Polled([3])).s.active == [ACCEPTOR]
  {
    hide Reaches, Slots, Poll;
    AcceptingReached(max);
    var a := Waits(3, Readable, true, d, true);
    WaitingState(max, d);
    Steps(Accepting(max), 3, a);
    var v := Next(Accepting(max), a);
    PolicyFollows(v, [3]);
    Steps(v, 4, Drained);
    w, n := Next(v, Drained), 5;
    BatchOrder(w, n, [3]);
    assert UrgentOf(w.l, [3]) + OthersOf(w.l, [3]) == [ACCEPTOR];
  }

  lemma WaitingState(max: nat, d: int)
    requires max >= 4
    ensures var a := Waits(3, Readable, true, d, true);
            && Enabled(Accepting(max), a)
            && (var v := Next(Accepting(max), a);
                && !v.exited && v.s.current == MAIN && v.phase == RunFirst && v.s.active == []
                && 3 in v.l.interest && 3 < |v.l.slots| && v.l.slots[3].args == ACCEPTOR && v.l.slots[3].urgent)
  {
  }
}
