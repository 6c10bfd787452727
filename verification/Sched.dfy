/**
 * The coroutine scheduler: idle list, active list, timer tree and the step
 * functions of src/coro/sched.c. The timer tree is the finite map it stands
 * for, from a deadline to the coroutines due then.
 */
module Sched {
  import opened Seqs

  datatype Coro = Coro(timeout: int, byTimeout: bool)

  /** `current` is MAIN while the main loop runs. */
  datatype State = State(
    max: nat, curr: nat, nextId: nat, current: nat,
    idle: seq<nat>, active: seq<nat>, timers: map<int, set<nat>>, coros: map<nat, Coro>)

  const MAIN: nat := 0

  predicate Sleeps(s: State, c: nat) {
    c in s.coros && s.coros[c].timeout in s.timers && c in s.timers[s.coros[c].timeout]
  }

  /** No timer node is empty, and each holds only coroutines due at its deadline. */
  ghost predicate Filed(timers: map<int, set<nat>>, coros: map<nat, Coro>) {
    forall d :: d in timers ==> timers[d] != {} && Due(timers[d], coros, d)
  }

  ghost predicate Due(group: set<nat>, coros: map<nat, Coro>, d: int) {
    forall c :: c in group ==> c in coros && coros[c].timeout == d
  }

  ghost predicate Numbered(s: State) {
    s.nextId == s.curr <= s.max && (forall c :: c in s.coros <==> 1 <= c <= s.curr)
  }

  /** Queued coroutines are created, awake and not running; the lists share none. */
  ghost predicate Apart(s: State) {
    && (forall c :: c in s.idle ==> c in s.coros && c !in s.active && !Sleeps(s, c) && c != s.current)
    && (forall c :: c in s.active ==> c in s.coros && !Sleeps(s, c) && c != s.current)
    && (s.current != MAIN ==> s.current in s.coros && !Sleeps(s, s.current))
  }

  ghost predicate Covered(s: State) {
    forall c :: c in s.coros ==> c in s.idle || c in s.active || Sleeps(s, c) || c == s.current
  }

  /** Every created coroutine is in exactly one place, once. */
  ghost predicate Placed(s: State) {
    && Numbered(s) && Distinct(s.idle) && Distinct(s.active)
    && Filed(s.timers, s.coros) && Apart(s) && Covered(s)
  }

  ghost function Sleeping(s: State): set<nat> {
    set c | c in s.coros && Sleeps(s, c)
  }

  lemma UnionSize(a: set<nat>, b: set<nat>, c: set<nat>, d: set<nat>)
    requires a !! b && (a + b) !! c && (a + b + c) !! d
    ensures |a + b + c + d| == |a| + |b| + |c| + |d|
  {
  }

  function Running(s: State): set<nat> {
    if s.current == MAIN then {} else {s.current}
  }

  lemma Partition(s: State)
    requires Placed(s)
    ensures Elements(s.idle) !! Elements(s.active)
    ensures (Elements(s.idle) + Elements(s.active)) !! Sleeping(s)
    ensures (Elements(s.idle) + Elements(s.active) + Sleeping(s)) !! Running(s)
    ensures Elements(s.idle) + Elements(s.active) + Sleeping(s) + Running(s) == s.coros.Keys
  {
  }

  lemma SizesSum(s: State)
    requires Placed(s)
    ensures |s.idle| + |s.active| + |Sleeping(s)| + |Running(s)| == s.curr <= s.max
  {
    hide Distinct, Filed, Apart, Covered, Sleeping, Elements;
    DistinctSize(s.idle);
    DistinctSize(s.active);
    RangeSize(1, s.curr, s.coros.Keys);
    Partition(s);
    UnionSize(Elements(s.idle), Elements(s.active), Sleeping(s), Running(s));
  }

  // ---- the timer tree as a map ----

  function Group<C>(timers: map<int, set<C>>, d: int): set<C> {
    if d in timers then timers[d] else {}
  }

  function AddTimer<C>(timers: map<int, set<C>>, d: int, c: C): map<int, set<C>> {
    timers[d := Group(timers, d) + {c}]
  }

  function DropTimer<C>(timers: map<int, set<C>>, d: int, c: C): map<int, set<C>> {
    if d !in timers then timers
    else if timers[d] - {c} == {} then timers - {d}
    else timers[d := timers[d] - {c}]
  }

  // ---- step functions ----

  function GetCoroutine(s: State, memory: bool): (State, nat) {
    if s.idle != [] then
      (s.(idle := s.idle[1..], coros := s.coros[s.idle[0] := Coro(0, false)]), s.idle[0])
    else if s.curr == s.max || !memory then
      (s, MAIN)
    else
      (s.(nextId := s.nextId + 1, curr := s.curr + 1, coros := s.coros[s.nextId + 1 := Coro(0, false)]),
       s.nextId + 1)
  }

  function Dispatch(s: State, memory: bool): (State, nat) {
    var (t, c) := GetCoroutine(s, memory);
    (if c == MAIN then t else t.(active := t.active + [c]), c)
  }

  /** The running coroutine sleeps until `deadline`, filed under the timer node of deadline `node`. */
  function SleepUnder(s: State, deadline: int, node: int): State
    requires s.current in s.coros
  {
    s.(coros := s.coros[s.current := s.coros[s.current].(timeout := deadline)],
       timers := AddTimer(s.timers, node, s.current),
       current := MAIN)
  }

  function Sleep(s: State, deadline: int): State
    requires s.current in s.coros
  {
    SleepUnder(s, deadline, deadline)
  }

  /** What is left when no timer node can be allocated. */
  function SleepLost(s: State, deadline: int): State
    requires s.current in s.coros
  {
    s.(coros := s.coros[s.current := s.coros[s.current].(timeout := deadline)], current := MAIN)
  }

  function Wake(s: State, c: nat, head: bool): State
    requires c in s.coros
  {
    s.(coros := s.coros[c := s.coros[c].(byTimeout := false)],
       timers := DropTimer(s.timers, s.coros[c].timeout, c),
       active := if head then [c] + s.active else s.active + [c])
  }

  /** The same when find_timer_node does not find the deadline: nothing leaves the tree. */
  function WakeMissed(s: State, c: nat, head: bool): State
    requires c in s.coros
  {
    s.(coros := s.coros[c := s.coros[c].(byTimeout := false)],
       active := if head then [c] + s.active else s.active + [c])
  }

  function Pick(s: State): State
    requires s.active != []
  {
    s.(active := s.active[1..], current := s.active[0])
  }

  function Finish(s: State): State {
    s.(idle := s.idle + [s.current], current := MAIN)
  }

  function ClearFlag(s: State): State
    requires s.current in s.coros
  {
    s.(coros := s.coros[s.current := s.coros[s.current].(byTimeout := false)])
  }

  function Flagged(coros: map<nat, Coro>, group: set<nat>): map<nat, Coro> {
    map c | c in coros :: if c in group then coros[c].(byTimeout := true) else coros[c]
  }

  ghost predicate Lists(q: seq<nat>, group: set<nat>) {
    Distinct(q) && (forall c :: c in q <==> c in group)
  }

  ghost predicate ByDeadline(q: seq<nat>, coros: map<nat, Coro>) {
    && (forall c :: c in q ==> c in coros)
    && (forall i, j :: 0 <= i < j < |q| ==> coros[q[i]].timeout <= coros[q[j]].timeout)
  }

  ghost function Overdue(s: State, now: int): set<nat> {
    set c | c in s.coros && Sleeps(s, c) && s.coros[c].timeout <= now
  }

  function Expire(s: State, now: int, order: seq<nat>): State {
    s.(active := s.active + order,
       timers := map d | d in s.timers && now < d :: s.timers[d],
       coros := Flagged(s.coros, Elements(order)))
  }

  /**
   * The orders in which one expiry pass may move coroutines: all the overdue
   * ones, no other, each once, earlier deadlines first.
   */
  ghost predicate ExpiryOrder(s: State, now: int, order: seq<nat>) {
    Lists(order, Overdue(s, now)) && ByDeadline(order, s.coros)
  }

  // ---- every step keeps every coroutine in exactly one place ----

  lemma SameSleepers(s: State, t: State, c: nat)
    requires Placed(s) && t.timers == s.timers && t.coros == s.coros[c := Coro(0, false)] && !Sleeps(s, c)
    ensures Filed(t.timers, t.coros)
    ensures forall x :: Sleeps(t, x) <==> Sleeps(s, x)
  {
  }

  lemma ReusePlaced(s: State)
    requires Placed(s) && s.idle != []
    ensures Placed(Dispatch(s, true).0)
  {
    var c := s.idle[0];
    var t := Dispatch(s, true).0;
    DistinctConcat(s.active, [c]);
    assert Distinct(t.idle) && c !in t.idle;
    SameSleepers(s, t, c);
    hide Distinct, Filed, Sleeps;
  }

  lemma CreatePlaced(s: State)
    requires Placed(s) && s.idle == [] && s.curr < s.max
    ensures Placed(Dispatch(s, true).0)
  {
    var c := s.nextId + 1;
    var t := Dispatch(s, true).0;
    assert c !in s.coros && c !in s.active;
    DistinctConcat(s.active, [c]);
    SameSleepers(s, t, c);
    hide Distinct, Filed, Sleeps;
  }

  lemma DispatchPlaced(s: State, memory: bool)
    requires Placed(s)
    ensures Placed(Dispatch(s, memory).0)
  {
    if s.idle != [] {
      ReusePlaced(s);
    } else if s.curr < s.max && memory {
      CreatePlaced(s);
    }
  }

  lemma SleepPlaced(s: State, deadline: int)
    requires Placed(s) && s.current != MAIN
    ensures Placed(Sleep(s, deadline))
  {
  }

  /** On the map, sleeping keeps this exactly when the coroutine is filed under its own deadline. */
  lemma MisfiledExact(s: State, deadline: int, node: int)
    requires Placed(s) && s.current != MAIN
    ensures Placed(SleepUnder(s, deadline, node)) <==> node == deadline
  {
    var t := SleepUnder(s, deadline, node);
    if node == deadline {
      SleepPlaced(s, deadline);
    } else {
      assert s.current in t.timers[node];
      assert !Due(t.timers[node], t.coros, node);
    }
  }

  /** Without a timer node the coroutine is in no list and no timer. */
  lemma LostIsNowhere(s: State, deadline: int)
    requires Placed(s) && s.current != MAIN
    ensures var t := SleepLost(s, deadline);
            && s.current in t.coros && s.current !in t.idle && s.current !in t.active && !Sleeps(t, s.current)
            && !Placed(t)
  {
    var t := SleepLost(s, deadline);
    assert !Covered(t);
  }

  /** A misfiled coroutine is woken into the active list and stays in the timer as well. */
  lemma MisfiledTwice(s: State, deadline: int, node: int, head: bool)
    requires Placed(s) && s.current != MAIN && deadline !in s.timers && node != deadline
    ensures var t := Wake(SleepUnder(s, deadline, node), s.current, head);
            s.current in t.active && node in t.timers && s.current in t.timers[node] && !Placed(t)
  {
    var t := Wake(SleepUnder(s, deadline, node), s.current, head);
    assert !Due(t.timers[node], t.coros, node);
  }

  /** So is one whose node is linked out of order and missed. */
  lemma MissedTwice(s: State, deadline: int, head: bool)
    requires Placed(s) && s.current != MAIN
    ensures var t := WakeMissed(Sleep(s, deadline), s.current, head);
            s.current in t.active && deadline in t.timers && s.current in t.timers[deadline] && !Placed(t)
  {
    var t := WakeMissed(Sleep(s, deadline), s.current, head);
    assert Sleeps(t, s.current);
  }

  lemma WakePlaced(s: State, c: nat, head: bool)
    requires Placed(s) && Sleeps(s, c)
    ensures Placed(Wake(s, c, head))
  {
  }

  lemma PickPlaced(s: State)
    requires Placed(s) && s.current == MAIN && s.active != []
    ensures Placed(Pick(s))
  {
  }

  lemma FinishPlaced(s: State)
    requires Placed(s) && s.current != MAIN
    ensures Placed(Finish(s))
  {
  }

  lemma ExpirePlaced(s: State, now: int, order: seq<nat>)
    requires Placed(s) && ExpiryOrder(s, now, order)
    ensures Placed(Expire(s, now, order))
  {
    DistinctConcat(s.active, order);
    hide Distinct;
    var t := Expire(s, now, order);
    assert forall c :: Sleeps(t, c) <==> Sleeps(s, c) && c !in order;
  }
}
