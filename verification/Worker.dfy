/**
 * One worker process as a transition system: the scheduler of
 * src/coro/sched.c, the descriptor table of src/event.c, the hooked calls of
 * src/syscall_hook.c and the connection accounting of src/process.c. A context
 * switch is one atomic change of `current`; system calls, the clock, memory
 * and the accept lock answer as the labels say. A sleep is taken only until a
 * deadline that the narrowed comparison of the timer tree tells from all live
 * ones, so that it is filed under its own deadline whatever the tree's shape.
 */
module Worker {
  import opened Seqs
  import opened Sched
  import opened Events
  import opened Descent

  /**
   * Where a coroutine is in its function: not started, running, inside a
   * hooked call between registering and deregistering, or asleep without one.
   */
  datatype Pc = Unused | Fresh | Live | Waiting(fd: nat, what: Ev) | Napping

  /** The four parts of the loop body of schedule_cycle. */
  datatype Phase = Check | RunFirst | Policy | RunSecond

  /**
   * `owner` names the coroutine that works on a descriptor. `granted` holds
   * between a passed worker_can_accept and the end of that accept call.
   * `byExpiry` is history: whether expiry was the last to wake a coroutine.
   */
  datatype World = World(
    s: State, l: Loop, pc: map<nat, Pc>, owner: map<nat, nat>, byExpiry: map<nat, bool>,
    phase: Phase, count: int, accepting: bool, granted: bool, exited: bool, many: bool)

  const ACCEPTOR: nat := 1

  datatype Label =
    | Expired(now: int, order: seq<nat>)
    | Picked
    | Drained
    | Polled(fds: seq<nat>)
    | Started
    | Resumed(willing: bool)
    | Waits(fd: nat, what: Ev, urgent: bool, deadline: int, willing: bool)
    | Naps(deadline: int)
    | Asked(lock: bool)
    | Accepted(fd: nat, memory: bool)
    | Refused
    | Stopped
    | Quit
    | Ended

  // ---- steps ----

  ghost predicate Initial(w: World) {
    exists max: nat, listen: nat :: max >= 4 && Boot(w, max, listen)
  }

  /**
   * After schedule_init, which asserts room for two timer nodes, event_loop_init
   * and the first dispatch_coro.
   */
  ghost predicate Boot(w: World, max: nat, listen: nat) {
    && w.s == Dispatch(State(max, 0, 0, MAIN, [], [], map[], map[]), true).0
    && |w.l.slots| == max + 128 && (forall fd :: 0 <= fd < |w.l.slots| ==> w.l.slots[fd].mask == {}) && w.l.interest == map[]
    && w.pc == map[ACCEPTOR := Fresh] && w.owner == map[listen := ACCEPTOR] && w.byExpiry == map[ACCEPTOR := false]
    && w.phase == Check && w.count == 1 && w.accepting && !w.granted && !w.exited
  }

  ghost predicate Enabled(w: World, a: Label) {
    !w.exited &&
    match a
    case Expired(now, order) => w.s.current == MAIN && w.phase == Check && ExpiryOrder(w.s, now, order)
    case Picked => w.s.current == MAIN && w.s.active != [] && (w.phase == RunFirst || w.phase == RunSecond)
    case Drained => w.s.current == MAIN && w.s.active == [] && (w.phase == RunFirst || w.phase == RunSecond)
    case Polled(fds) =>
      w.s.current == MAIN && w.phase == Policy && Distinct(fds) && forall fd :: fd in fds ==> fd in w.l.interest
    case Started => Runs(w) && (w.pc[w.s.current].Fresh? || w.pc[w.s.current].Napping?)
    case Resumed(_) => Runs(w) && w.pc[w.s.current].Waiting?
    case Waits(fd, _, _, deadline, _) => MayWait(w, fd) && Tellable(w.s.timers, deadline)
    case Naps(deadline) =>
      && Runs(w) && w.pc[w.s.current].Live? && (w.s.current == ACCEPTOR ==> !w.granted)
      && Tellable(w.s.timers, deadline)
    case Asked(_) => Accepts(w) && w.many && !w.granted
    case Accepted(fd, _) => Accepts(w) && fd !in w.owner && (w.many ==> w.granted)
    case Refused => Accepts(w)
    case Stopped => Accepts(w) && !w.granted
    case Quit => Accepts(w) && !w.granted
    case Ended => Runs(w) && w.pc[w.s.current].Live? && w.s.current != ACCEPTOR
  }

  predicate Runs(w: World) {
    w.s.current != MAIN && w.s.current in w.pc && w.s.current in w.s.coros
  }

  /** A hooked call is made on a descriptor of one's own. */
  predicate MayWait(w: World, fd: nat) {
    && Runs(w) && w.pc[w.s.current].Live? && fd in w.owner && w.owner[fd] == w.s.current
    && (w.s.current == ACCEPTOR && w.many ==> w.granted)
  }

  predicate Accepts(w: World) {
    Runs(w) && w.s.current == ACCEPTOR && w.pc[ACCEPTOR].Live? && w.accepting
  }

  /** One callback of event_cycle. */
  function WakeFd(w: World, fd: nat): World {
    if fd < |w.l.slots| && w.l.slots[fd].args in w.s.coros then
      var slot := w.l.slots[fd];
      w.(s := Wake(w.s, slot.args, slot.urgent), byExpiry := w.byExpiry[slot.args := false])
    else w
  }

  function Poll(w: World, fds: seq<nat>): World
    decreases |fds|
  {
    if fds == [] then w else Poll(WakeFd(w, fds[0]), fds[1..])
  }

  function MarkExpired(byExpiry: map<nat, bool>, order: seq<nat>): map<nat, bool> {
    map c | c in byExpiry :: c in order || byExpiry[c]
  }

  function Resume(w: World, willing: bool): World
    requires Runs(w) && w.pc[w.s.current].Waiting?
  {
    var c := w.s.current;
    w.(l := Del(w.l, w.pc[c].fd, w.pc[c].what, willing), s := ClearFlag(w.s), pc := w.pc[c := Live])
  }

  function Wait(w: World, fd: nat, what: Ev, urgent: bool, deadline: int, willing: bool): World
    requires Runs(w)
  {
    var c := w.s.current;
    var (l, r) := Add(w.l, fd, what, urgent, c, willing);
    if r != 0 then w else w.(l := l, s := Sleep(w.s, deadline), pc := w.pc[c := Waiting(fd, what)])
  }

  function Nap(w: World, deadline: int): World
    requires Runs(w)
  {
    w.(s := Sleep(w.s, deadline), pc := w.pc[w.s.current := Napping])
  }

  /** accept gave a connection: dispatch a handler for it, or close it. */
  function Accept(w: World, fd: nat, memory: bool): World {
    var (t, c) := Dispatch(w.s, memory);
    if c == MAIN then w.(s := t, granted := false)
    else w.(s := t, granted := false, count := w.count + 1, owner := w.owner[fd := c],
            pc := w.pc[c := Fresh], byExpiry := w.byExpiry[c := false])
  }

  /** decrease_conn_and_check, then back to the idle list unless the process ended. */
  function Leave(w: World): World {
    if w.count == 1 then w.(count := 0, exited := true)
    else
      var c := w.s.current;
      w.(count := w.count - 1, s := Finish(w.s), pc := w.pc[c := Unused],
         owner := map fd | fd in w.owner && w.owner[fd] != c :: w.owner[fd])
  }

  ghost function Next(w: World, a: Label): World
    requires Enabled(w, a)
  {
    match a
    case Expired(now, order) =>
      w.(s := Expire(w.s, now, order), byExpiry := MarkExpired(w.byExpiry, order), phase := RunFirst)
    case Picked => w.(s := Pick(w.s))
    case Drained => w.(phase := if w.phase == RunFirst then Policy else Check)
    case Polled(fds) => Poll(w.(phase := RunSecond), fds)
    case Started => w.(pc := w.pc[w.s.current := Live])
    case Resumed(willing) => Resume(w, willing)
    case Waits(fd, what, urgent, deadline, willing) => Wait(w, fd, what, urgent, deadline, willing)
    case Naps(deadline) => Nap(w, deadline)
    case Asked(lock) => w.(granted := w.count < w.s.max && lock)
    case Accepted(fd, memory) => Accept(w, fd, memory)
    case Refused => w.(granted := false)
    case Stopped => Leave(w.(accepting := false))
    case Quit => w.(exited := true)
    case Ended => Leave(w)
  }

  ghost predicate Reaches(w: World, n: nat)
    decreases n
  {
    if n == 0 then Initial(w)
    else exists v, a :: Reaches(v, n - 1) && Enabled(v, a) && w == Next(v, a)
  }

  // ---- what every run keeps ----

  ghost predicate Phased(s: State, phase: Phase) {
    && (s.current != MAIN ==> phase == RunFirst || phase == RunSecond)
    && (phase == Policy ==> s.active == [])
  }

  predicate Suspended(p: Pc) {
    p.Waiting? || p.Napping?
  }

  /** The stage of each coroutine fits the place it is in. */
  ghost predicate Tracked(s: State, pc: map<nat, Pc>) {
    && (forall c :: c in pc <==> c in s.coros)
    && (forall c :: c in pc ==> (pc[c].Unused? <==> c in s.idle))
    && (forall c :: c in pc && Sleeps(s, c) ==> Suspended(pc[c]))
    && (forall c :: c in pc && pc[c].Live? ==> c == s.current)
  }

  /** A registered descriptor and the coroutine waiting on it name each other. */
  ghost predicate Wired(l: Loop, pc: map<nat, Pc>, owner: map<nat, nat>) {
    && (forall c :: c in pc && pc[c].Waiting? ==> WaitsOn(l, owner, c, pc[c].fd, pc[c].what))
    && (forall fd :: 0 <= fd < |l.slots| && l.slots[fd].mask != {} ==> Named(pc, l.slots[fd].args, fd))
    && (forall fd :: fd in owner ==> owner[fd] in pc && !pc[owner[fd]].Unused?)
  }

  ghost predicate WaitsOn(l: Loop, owner: map<nat, nat>, c: nat, fd: nat, what: Ev) {
    && fd < |l.slots| && l.slots[fd].mask == {what} && l.slots[fd].args == c
    && fd in owner && owner[fd] == c
  }

  ghost predicate Named(pc: map<nat, Pc>, c: nat, fd: nat) {
    c in pc && pc[c].Waiting? && pc[c].fd == fd
  }

  /** Out of the timer tree, the flag says what took the coroutine out. */
  ghost predicate FlagsRight(s: State, pc: map<nat, Pc>, byExpiry: map<nat, bool>) {
    && (forall c :: c in pc <==> c in byExpiry)
    && (forall c :: c in pc && Suspended(pc[c]) && !Sleeps(s, c) ==>
          c in s.coros && s.coros[c].byTimeout == byExpiry[c])
  }

  ghost predicate OthersIdle(s: State) {
    forall c :: c in s.coros ==> c in s.idle || c == s.current
  }

  ghost predicate Counted(s: State, count: int, accepting: bool, granted: bool, exited: bool) {
    && (count != 0 ==> count == s.curr - |s.idle|)
    && (count == 0 ==> exited && !accepting && OthersIdle(s))
    && (accepting ==> ACCEPTOR in s.coros && ACCEPTOR !in s.idle)
    && (granted ==> accepting && count < s.max)
  }

  ghost predicate Inv(w: World) {
    && Placed(w.s) && Phased(w.s, w.phase) && Tracked(w.s, w.pc)
    && Mirrors(w.l) && Wired(w.l, w.pc, w.owner) && FlagsRight(w.s, w.pc, w.byExpiry)
    && Counted(w.s, w.count, w.accepting, w.granted, w.exited)
  }
}
