/** What holds in every state that a worker reaches, by any number of steps. */
module WorkerRuns {
  import opened Seqs
  import opened Sched
  import opened Events
  import opened Worker
  import opened WorkerProof
  import opened Timers
  import opened Descent
  import Ordered

  lemma SmallSteps(w: World, a: Label)
    requires Inv(w) && Enabled(w, a) && (a.Drained? || a.Asked? || a.Refused? || a.Quit?)
    ensures Inv(Next(w, a))
  {
    hide Placed, Mirrors, Wired, Tracked, FlagsRight, Poll, Leave, Accept;
  }

  lemma PolledKeeps(w: World, fds: seq<nat>)
    requires Inv(w) && Enabled(w, Polled(fds))
    ensures Batch(w, fds) && Inv(Next(w, Polled(fds)))
  {
    hide Placed, Mirrors, Wired, Tracked, FlagsRight, Sleeps, Poll, Distinct;
    forall fd | fd in fds
      ensures fd < |w.l.slots| && w.l.slots[fd].mask != {} && Sleeps(w.s, w.l.slots[fd].args)
    {
      RegisteredSleep(w, fd);
    }
    PollKeeps(w.(phase := RunSecond), fds);
  }

  lemma StopKeeps(w: World)
    requires Inv(w) && Enabled(w, Stopped)
    ensures Inv(Next(w, Stopped))
  {
    hide Placed, Mirrors, Wired, Tracked, FlagsRight, Leave;
    LeaveKeeps(w.(accepting := false));
  }

  lemma StepKeeps(w: World, a: Label)
    requires Inv(w) && Enabled(w, a)
    ensures Inv(Next(w, a))
  {
    hide Inv, Expire, MarkExpired, Pick, Poll, Resume, Wait, Nap, Accept, Leave, ExpiryOrder;
    match a
    case Expired(now, order) => ExpiredKeeps(w, now, order);
    case Picked => PickedKeeps(w);
    case Polled(fds) => PolledKeeps(w, fds);
    case Started => StartedKeeps(w);
    case Resumed(willing) => ResumedKeeps(w, willing);
    case Waits(fd, what, urgent, deadline, willing) => WaitsKeeps(w, fd, what, urgent, deadline, willing);
    case Naps(deadline) => NapsKeeps(w, deadline);
    case Accepted(fd, memory) => AcceptedKeeps(w, fd, memory);
    case Stopped => StopKeeps(w);
    case Ended => LeaveKeeps(w);
    case _ => SmallSteps(w, a);
  }

  lemma {:induction false} AlwaysInv(w: World, n: nat)
    requires Reaches(w, n)
    ensures Inv(w)
    decreases n
  {
    hide Inv, Next, Enabled, Boot;
    if n == 0 {
      var max: nat, listen: nat :| max >= 4 && Boot(w, max, listen);
      BootInv(w, max, listen);
    } else {
      var v, a :| Reaches(v, n - 1) && Enabled(v, a) && w == Next(v, a);
      AlwaysInv(v, n - 1);
      StepKeeps(v, a);
    }
  }

  /** Each coroutine is in one place, once, and the places add up to the number created. */
  lemma OnePlaceEach(w: World, n: nat)
    requires Reaches(w, n)
    ensures Placed(w.s)
    ensures |w.s.idle| + |w.s.active| + |Sleeping(w.s)| + |Running(w.s)| == w.s.curr <= w.s.max
  {
    AlwaysInv(w, n);
    SizesSum(w.s);
  }

  /**
   * A batch of distinct descriptors reported by the kernel names as many
   * distinct sleeping coroutines; each leaves the timer tree for the active
   * list, which was empty and holds none twice.
   */
  lemma EventBatch(w: World, n: nat, fds: seq<nat>)
    requires Reaches(w, n) && Enabled(w, Polled(fds))
    ensures w.s.active == [] && Batch(w, fds)
    ensures var v := Next(w, Polled(fds));
            && Distinct(v.s.active) && |v.s.active| == |fds|
            && (forall c :: Sleeps(v.s, c) <==> Sleeps(w.s, c) && !NamedBy(w.l, fds, c))
  {
    AlwaysInv(w, n);
    PolledKeeps(w, fds);
    hide Sleeps, Poll, NamedBy, Distinct, Batch, Tracked, Wired, FlagsRight, Mirrors;
    PolledEffect(w, fds);
  }

  lemma PolledEffect(w: World, fds: seq<nat>)
    requires Inv(w) && Enabled(w, Polled(fds)) && Batch(w, fds)
    ensures var v := Poll(w.(phase := RunSecond), fds);
            && |v.s.active| == |fds|
            && (forall c :: Sleeps(v.s, c) <==> Sleeps(w.s, c) && !NamedBy(w.l, fds, c))
  {
    hide Placed, Mirrors, Wired, Tracked, FlagsRight, Sleeps, Poll, NamedBy, Batch;
    var v := w.(phase := RunSecond);
    assert Batch(v, fds) by { BatchSame(w, v, fds); }
    PollKeeps(v, fds);
  }

  lemma BatchSame(w: World, v: World, fds: seq<nat>)
    requires Batch(w, fds) && v.s == w.s && v.l == w.l
    ensures Batch(v, fds)
  {
  }

  /** A coroutine resumed in a hooked call reads the flag as true exactly when expiry woke it. */
  lemma TimeoutFlagExact(w: World, n: nat, willing: bool)
    requires Reaches(w, n) && Enabled(w, Resumed(willing))
    ensures w.s.current in w.byExpiry && w.s.coros[w.s.current].byTimeout == w.byExpiry[w.s.current]
    ensures var fd := w.pc[w.s.current].fd;
            fd < |w.l.slots| && Next(w, Resumed(willing)).l.slots[fd].mask == {} && fd !in Next(w, Resumed(willing)).l.interest
    ensures !Next(w, Resumed(willing)).s.coros[w.s.current].byTimeout
  {
    AlwaysInv(w, n);
    var c := w.s.current;
    InvAt(w, c);
    hide Placed, Tracked, FlagsRight, Counted, Sleeps;
    assert WaitsOn(w.l, w.owner, c, w.pc[c].fd, w.pc[c].what);
    assert Mirrored(w.l, w.pc[c].fd);
    assert {w.pc[c].what} - {w.pc[c].what} == {};
  }

  /** So a running coroutine finds its descriptors unregistered, here and in the kernel. */
  lemma OwnDescriptorsClear(w: World, n: nat, fd: nat)
    requires Reaches(w, n) && Runs(w) && w.pc[w.s.current].Live?
    requires fd in w.owner && w.owner[fd] == w.s.current && fd < |w.l.slots|
    ensures w.l.slots[fd].mask == {} && fd !in w.l.interest
  {
    AlwaysInv(w, n);
    hide Placed, Tracked, FlagsRight, Counted;
    assert Mirrored(w.l, fd);
    if w.l.slots[fd].mask != {} {
      assert false;
    }
  }

  /** At every return to the main loop the count is the number of coroutines not idle. */
  lemma CountIsBusy(w: World, n: nat)
    requires Reaches(w, n) && !w.exited
    ensures w.count == |w.s.active| + |Sleeping(w.s)| + |Running(w.s)| == w.s.curr - |w.s.idle|
    ensures w.accepting ==> ACCEPTOR in w.s.coros && ACCEPTOR !in w.s.idle
  {
    AlwaysInv(w, n);
    SizesSum(w.s);
  }

  /** The count reaches zero only when the accept loop has seen stop and nobody else is left. */
  lemma ZeroIsLast(w: World, n: nat)
    requires Reaches(w, n) && w.count == 0
    ensures w.exited && !w.accepting && forall c :: c in w.s.coros ==> c in w.s.idle || c == w.s.current
  {
    AlwaysInv(w, n);
  }

  /** After a passed worker_can_accept, dispatch does not fail for lack of a slot. */
  lemma GrantedHasSlot(w: World, n: nat)
    requires Reaches(w, n) && w.granted && !w.exited
    ensures Dispatch(w.s, true).1 != MAIN
  {
    AlwaysInv(w, n);
    assert MAIN !in w.s.idle;
    hide Sleeps, Tracked, Wired, FlagsRight, Filed;
  }

  /** And the check passes, with the accept lock, exactly when a coroutine can be dispatched. */
  lemma AskExact(w: World, n: nat, fd: nat)
    requires Reaches(w, n) && Enabled(w, Asked(true)) && fd !in w.owner
    ensures Enabled(Next(w, Asked(true)), Accepted(fd, true)) <==> Dispatch(w.s, true).1 != MAIN
  {
    hide Reaches;
    CountFits(w, n);
    hide Dispatch, Accept;
  }

  /** There is room for one more exactly when dispatch finds a coroutine, idle or new. */
  lemma CountFits(w: World, n: nat)
    requires Reaches(w, n) && !w.exited
    ensures w.count < w.s.max <==> Dispatch(w.s, true).1 != MAIN
  {
    hide Reaches, Tracked, Wired, FlagsRight, Mirrors, Phased;
    AlwaysInv(w, n);
    assert w.s.idle != [] ==> w.s.idle[0] in w.s.idle;
  }

  // ---- a deadline that cannot be told from a live one ----

  /** A hooked wait as the source takes it when the descent stops at another deadline's node. */
  function MisWait(w: World, fd: nat, what: Ev, urgent: bool, deadline: int, node: int): World
    requires Runs(w)
  {
    var c := w.s.current;
    w.(l := Add(w.l, fd, what, urgent, c, true).0, s := SleepUnder(w.s, deadline, node), pc := w.pc[c := Waiting(fd, what)])
  }

  /** A callback of event_cycle when the coroutine's timer node is not found. */
  function WakeFdMissed(w: World, fd: nat): World {
    if fd < |w.l.slots| && w.l.slots[fd].args in w.s.coros then
      var slot := w.l.slots[fd];
      w.(s := WakeMissed(w.s, slot.args, slot.urgent), byExpiry := w.byExpiry[slot.args := false])
    else w
  }

  /** Active and in the timer tree at once. */
  predicate TwoPlaces(s: State, c: nat, node: int) {
    c in s.active && node in s.timers && c in s.timers[node]
  }

  lemma Registers(w: World, n: nat, fd: nat, what: Ev, urgent: bool)
    requires Reaches(w, n) && MayWait(w, fd) && fd < |w.l.slots|
    ensures Placed(w.s) && Add(w.l, fd, what, urgent, w.s.current, true).1 == 0
    ensures var l := Add(w.l, fd, what, urgent, w.s.current, true).0;
            fd < |l.slots| && l.slots[fd].args == w.s.current && l.slots[fd].urgent == urgent
  {
    AlwaysInv(w, n);
    OwnDescriptorsClear(w, n, fd);
  }

  /** The event of a wait filed under another deadline puts the coroutine into the active list as well. */
  lemma MisfiledWait(w: World, n: nat, fd: nat, what: Ev, urgent: bool, deadline: int, node: int)
    requires Reaches(w, n) && MayWait(w, fd) && fd < |w.l.slots| && node in w.s.timers && deadline !in w.s.timers
    ensures var u := WakeFd(MisWait(w, fd, what, urgent, deadline, node), fd);
            TwoPlaces(u.s, w.s.current, node) && !Placed(u.s)
  {
    hide Reaches, Placed;
    Registers(w, n, fd, what, urgent);
    MisfiledTwice(w.s, deadline, node, urgent);
    var u := WakeFd(MisWait(w, fd, what, urgent, deadline, node), fd);
    assert u.s == Wake(SleepUnder(w.s, deadline, node), w.s.current, urgent);
  }

  /** So does the event of a wait whose own node is linked where it is not found. */
  lemma MislinkedWait(w: World, n: nat, fd: nat, what: Ev, urgent: bool, deadline: int)
    requires Reaches(w, n) && MayWait(w, fd) && fd < |w.l.slots|
    ensures var u := WakeFdMissed(Wait(w, fd, what, urgent, deadline, true), fd);
            TwoPlaces(u.s, w.s.current, deadline) && !Placed(u.s)
  {
    hide Reaches, Placed;
    Registers(w, n, fd, what, urgent);
    MissedTwice(w.s, deadline, urgent);
    var u := WakeFdMissed(Wait(w, fd, what, urgent, deadline, true), fd);
    assert u.s == WakeMissed(Sleep(w.s, deadline), w.s.current, urgent);
  }

  lemma Steps(v: World, n: nat, a: Label)
    requires Reaches(v, n) && Enabled(v, a)
    ensures Reaches(Next(v, a), n + 1)
  {
  }

  // A worker of any size, listening on 3, accepts connection 5.

  function Slots(max: nat, third: Slot): seq<Slot> {
    seq(max + 128, i => if i == 3 then third else Slot({}, false, 0))
  }

  lemma SlotsSize(max: nat, third: Slot)
    ensures |Slots(max, third)| == max + 128
  {
  }

  function Start(max: nat): World {
    World(State(max, 1, 1, MAIN, [], [1], map[], map[1 := Coro(0, false)]), Loop(Slots(max, Slot({}, false, 0)), map[]),
          map[1 := Fresh], map[3 := 1], map[1 := false], Check, 1, true, false, false, false)
  }

  /** The accept loop sleeps until d and the handler of connection 5 runs. */
  function Handling(max: nat, d: int): World {
    World(State(max, 2, 2, 2, [], [], map[d := {1}], map[1 := Coro(d, false), 2 := Coro(0, false)]),
          Loop(Slots(max, Slot({Readable}, true, 1)), map[3 := {Readable}]),
          map[1 := Waiting(3, Readable), 2 := Live], map[3 := 1, 5 := 2], map[1 := false, 2 := false],
          RunFirst, 2, true, false, false, false)
  }

  lemma StartReached(max: nat)
    requires max >= 4
    ensures Reaches(Start(max), 0)
  {
    assert Boot(Start(max), max, 3);
  }

  /** The accept loop runs. */
  function Accepting(max: nat): World {
    Start(max).(s := State(max, 1, 1, 1, [], [], map[], map[1 := Coro(0, false)]), pc := map[1 := Live], phase := RunFirst)
  }

  lemma AcceptingReached(max: nat)
    requires max >= 4
    ensures Reaches(Accepting(max), 3)
  {
    hide Reaches, Slots;
    StartReached(max);
    var w0 := Start(max);
    assert ExpiryOrder(w0.s, 0, []);
    Steps(w0, 0, Expired(0, []));
    var w1 := Next(w0, Expired(0, []));
    assert w1.s == w0.s && w1.byExpiry == w0.byExpiry;
    Steps(w1, 1, Picked);
    var w2 := Next(w1, Picked);
    Steps(w2, 2, Started);
    assert Next(w2, Started) == Accepting(max);
  }

  /** It has accepted connection 5. */
  function Dispatched(max: nat): World {
    Accepting(max).(s := State(max, 2, 2, 1, [], [2], map[], map[1 := Coro(0, false), 2 := Coro(0, false)]),
                    pc := map[1 := Live, 2 := Fresh], owner := map[3 := 1, 5 := 2], byExpiry := map[1 := false, 2 := false],
                    count := 2)
  }

  lemma DispatchedReached(max: nat)
    requires max >= 4
    ensures Reaches(Dispatched(max), 4)
  {
    hide Reaches, Slots;
    AcceptingReached(max);
    Steps(Accepting(max), 3, Accepted(5, true));
    assert Next(Accepting(max), Accepted(5, true)) == Dispatched(max);
  }

  /** It waits for the next one. */
  function Listening(max: nat, d: int): World {
    Handling(max, d).(s := Handling(max, d).s.(current := MAIN, active := [2]), pc := map[1 := Waiting(3, Readable), 2 := Fresh])
  }

  lemma ListeningReached(max: nat, d: int)
    requires max >= 4
    ensures Reaches(Listening(max, d), 5)
  {
    hide Reaches;
    DispatchedReached(max);
    var a := Waits(3, Readable, true, d, true);
    Steps(Dispatched(max), 4, a);
    assert {} + {1} == {1} && {} + {Readable} == {Readable};
    var w := Next(Dispatched(max), a);
    assert w.s == Listening(max, d).s;
    assert w.l.slots == Listening(max, d).l.slots && w.l.interest == Listening(max, d).l.interest;
    assert w == Listening(max, d);
  }

  /** Every deadline has a run of every worker that ends there. */
  lemma HandlingReached(max: nat, d: int)
    requires max >= 4
    ensures Reaches(Handling(max, d), 7)
  {
    hide Reaches, Slots;
    ListeningReached(max, d);
    var w5 := Listening(max, d);
    Steps(w5, 5, Picked);
    var w6 := w5.(s := w5.s.(current := 2, active := []));
    assert w6 == Next(w5, Picked);
    Steps(w6, 6, Started);
    assert Next(w6, Started) == Handling(max, d);
  }

  /**
   * The clock is set, forwards or back, between two sleeps, so that the handler is
   * to wait until d while the accept loop waits until e. If the narrowing changes
   * their comparison, the handler is filed under e, or its own node is linked on the
   * wrong side of e and not found again; either way its event leaves it in the active
   * list and in the timer tree.
   */
  lemma ClockSet(max: nat, e: int, d: int, at: nat, block: nat)
    requires max >= 4
    ensures Reaches(Handling(max, e), 7) && AsMap([TimerNode(at, e, {1})]) == Handling(max, e).s.timers
    ensures Enabled(Handling(max, e), Waits(5, Readable, false, d, true)) <==> Ordered.SameSign(d - e)
    ensures !Ordered.SameSign(d - e) ==>
              var w := Handling(max, e);
              if Ordered.Narrow(d - e) == 0 then TwoPlaces(WakeFd(MisWait(w, 5, Readable, false, d, e), 5).s, 2, e)
              else Mislinked(TimerNode(at, e, {1}), TimerNode(block, d, {2}))
                   && TwoPlaces(WakeFdMissed(Wait(w, 5, Readable, false, d, true), 5).s, 2, d)
  {
    hide Reaches, Slots, Placed, Mislinked, Add;
    HandlingReached(max, e);
    var w := Handling(max, e);
    assert |w.l.slots| == max + 128 by { SlotsSize(max, Slot({Readable}, true, 1)); }
    assert e in w.s.timers;
    if !Ordered.SameSign(d - e) {
      if Ordered.Narrow(d - e) == 0 {
        MisfiledWait(w, 7, 5, Readable, false, d, e);
      } else {
        MislinkedBeside(TimerNode(at, e, {1}), TimerNode(block, d, {2}));
        MislinkedWait(w, 7, 5, Readable, false, d);
      }
    }
  }
}
