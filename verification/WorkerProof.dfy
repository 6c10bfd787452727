/** Every step of a worker keeps the invariant of Worker, so every run does. */
module WorkerProof {
  import opened Seqs
  import opened Sched
  import opened Events
  import opened Worker

  // ---- which coroutines sleep after each scheduler step ----

  lemma ExpireSleeps(s: State, now: int, order: seq<nat>)
    requires Placed(s) && ExpiryOrder(s, now, order)
    ensures forall c :: Sleeps(Expire(s, now, order), c) <==> Sleeps(s, c) && c !in order
    ensures forall c :: c in order ==> c in s.coros && Sleeps(s, c)
  {
  }

  lemma SleepSleeps(s: State, deadline: int)
    requires Placed(s) && s.current in s.coros
    ensures forall c :: Sleeps(Sleep(s, deadline), c) <==> Sleeps(s, c) || c == s.current
  {
  }

  lemma WakeSleeps(s: State, c: nat, head: bool)
    requires Placed(s) && Sleeps(s, c)
    ensures forall x :: Sleeps(Wake(s, c, head), x) <==> Sleeps(s, x) && x != c
  {
    hide Distinct, Covered, Numbered, Apart;
    var t, d := Wake(s, c, head), s.coros[c].timeout;
    forall x ensures Sleeps(t, x) <==> Sleeps(s, x) && x != c {
      if Sleeps(s, x) && x != c && s.coros[x].timeout == d {
        assert x in s.timers[d] - {c};
      }
    }
  }

  lemma DispatchSleeps(s: State, memory: bool)
    requires Placed(s)
    ensures forall x :: Sleeps(Dispatch(s, memory).0, x) <==> Sleeps(s, x)
    ensures Dispatch(s, memory).1 != MAIN ==> !Sleeps(s, Dispatch(s, memory).1)
  {
  }

  // ---- descriptors ----

  /** A coroutine that moves between two stages, neither waiting nor unused. */
  lemma WiredMove(l: Loop, pc: map<nat, Pc>, owner: map<nat, nat>, c: nat, p: Pc)
    requires Wired(l, pc, owner) && c in pc && !pc[c].Waiting? && !p.Waiting? && !p.Unused?
    ensures Wired(l, pc[c := p], owner)
  {
  }

  lemma WiredAdd(l: Loop, pc: map<nat, Pc>, owner: map<nat, nat>, c: nat, fd: nat, what: Ev, urgent: bool, willing: bool)
    requires Wired(l, pc, owner) && c in pc && !pc[c].Waiting? && fd in owner && owner[fd] == c
    requires Add(l, fd, what, urgent, c, willing).1 == 0
    ensures Wired(Add(l, fd, what, urgent, c, willing).0, pc[c := Waiting(fd, what)], owner)
  {
  }

  lemma WiredDel(l: Loop, pc: map<nat, Pc>, owner: map<nat, nat>, c: nat, willing: bool)
    requires Wired(l, pc, owner) && c in pc && pc[c].Waiting?
    ensures Wired(Del(l, pc[c].fd, pc[c].what, willing), pc[c := Live], owner)
    ensures pc[c].fd < |l.slots| && l.slots[pc[c].fd].mask == {pc[c].what}
  {
    var fd, what := pc[c].fd, pc[c].what;
    assert WaitsOn(l, owner, c, fd, what);
    assert {what} - {what} == {};
  }

  lemma WiredNew(l: Loop, pc: map<nat, Pc>, owner: map<nat, nat>, fd: nat, c: nat)
    requires Wired(l, pc, owner) && fd !in owner && (c in pc ==> pc[c].Unused?)
    ensures Wired(l, pc[c := Fresh], owner[fd := c])
  {
  }

  lemma WiredLeave(l: Loop, pc: map<nat, Pc>, owner: map<nat, nat>, c: nat)
    requires Wired(l, pc, owner) && c in pc && pc[c].Live?
    ensures Wired(l, pc[c := Unused], map fd | fd in owner && owner[fd] != c :: owner[fd])
  {
  }

  // ---- counting ----

  lemma BusySize(s: State, busy: set<nat>)
    requires Placed(s) && (forall c :: c in busy <==> c in s.coros && c !in s.idle)
    ensures |busy| == s.curr - |s.idle|
  {
    hide Distinct, Covered, Filed;
    DistinctSize(s.idle);
    RangeSize(1, s.curr, s.coros.Keys);
    assert busy + Elements(s.idle) == s.coros.Keys;
    assert busy !! Elements(s.idle);
  }

  ghost function Busy(s: State): set<nat> {
    set c | c in s.coros && c !in s.idle
  }

  lemma TwoBusy(s: State, a: nat, b: nat)
    requires Placed(s) && a != b && a in Busy(s) && b in Busy(s)
    ensures s.curr - |s.idle| >= 2
  {
    hide Placed;
    BusySize(s, Busy(s));
    assert Busy(s) == {a, b} + (Busy(s) - {a, b});
    assert |{a, b}| == 2;
  }

  lemma OneBusy(s: State)
    requires Placed(s) && s.current != MAIN && s.curr - |s.idle| == 1
    ensures OthersIdle(s)
  {
    hide Distinct, Covered, Filed;
    forall c | c in s.coros && c !in s.idle ensures c == s.current {
      if c != s.current {
        TwoBusy(s, c, s.current);
        assert false;
      }
    }
  }

  // ---- stages and flags ----

  /** One coroutine changes; the others keep their record, list and sleep. */
  ghost predicate OnlyOne(s: State, t: State, c: nat) {
    && (forall x :: x != c ==> (x in t.coros <==> x in s.coros))
    && (forall x :: x != c ==> (x in t.idle <==> x in s.idle))
    && (forall x :: x != c ==> (Sleeps(t, x) <==> Sleeps(s, x)))
    && (forall x :: x != c && x in s.coros && x in t.coros ==> t.coros[x].byTimeout == s.coros[x].byTimeout)
    && (t.current == s.current || s.current == c || s.current == MAIN)
  }

  lemma TrackedStep(s: State, t: State, pc: map<nat, Pc>, c: nat, p: Pc)
    requires Tracked(s, pc) && MAIN !in s.coros && OnlyOne(s, t, c) && c in t.coros
    requires (p.Unused? <==> c in t.idle) && (Sleeps(t, c) ==> Suspended(p)) && (p.Live? ==> c == t.current)
    ensures Tracked(t, pc[c := p])
  {
  }

  lemma FlagsStep(s: State, t: State, pc: map<nat, Pc>, byExpiry: map<nat, bool>, c: nat, p: Pc, b: bool)
    requires FlagsRight(s, pc, byExpiry) && Tracked(s, pc) && OnlyOne(s, t, c) && c in t.coros
    requires Suspended(p) && !Sleeps(t, c) ==> t.coros[c].byTimeout == b
    ensures FlagsRight(t, pc[c := p], byExpiry[c := b])
  {
    hide Sleeps;
  }

  lemma OneStep(s: State, t: State, pc: map<nat, Pc>, byExpiry: map<nat, bool>, c: nat, p: Pc, b: bool)
    requires Placed(s) && Tracked(s, pc) && FlagsRight(s, pc, byExpiry) && OnlyOne(s, t, c) && c in t.coros
    requires (p.Unused? <==> c in t.idle) && (Sleeps(t, c) ==> Suspended(p)) && (p.Live? ==> c == t.current)
    requires Suspended(p) && !Sleeps(t, c) ==> t.coros[c].byTimeout == b
    ensures Tracked(t, pc[c := p]) && FlagsRight(t, pc[c := p], byExpiry[c := b])
  {
    assert MAIN !in s.coros;
    hide Placed, OnlyOne, Sleeps, Tracked, FlagsRight;
    TrackedStep(s, t, pc, c, p);
    FlagsStep(s, t, pc, byExpiry, c, p, b);
  }

  lemma TrackedExpire(s: State, pc: map<nat, Pc>, now: int, order: seq<nat>)
    requires Tracked(s, pc) && Placed(s) && ExpiryOrder(s, now, order)
    ensures Tracked(Expire(s, now, order), pc)
  {
  }

  lemma FlagsExpire(s: State, pc: map<nat, Pc>, byExpiry: map<nat, bool>, now: int, order: seq<nat>)
    requires FlagsRight(s, pc, byExpiry) && Tracked(s, pc) && Placed(s) && ExpiryOrder(s, now, order)
    ensures FlagsRight(Expire(s, now, order), pc, MarkExpired(byExpiry, order))
  {
    ExpireSleeps(s, now, order);
    hide Placed, Sleeps, ExpiryOrder;
  }

  lemma PickOnly(s: State)
    requires Placed(s) && s.current == MAIN && s.active != []
    ensures var c := s.active[0];
            OnlyOne(s, Pick(s), c) && c in s.coros && c !in s.idle && !Sleeps(Pick(s), c)
  {
  }

  lemma ClearOnly(s: State)
    requires Placed(s) && s.current in s.coros
    ensures Placed(ClearFlag(s)) && OnlyOne(s, ClearFlag(s), s.current)
    ensures s.current !in s.idle && !Sleeps(s, s.current) && !Sleeps(ClearFlag(s), s.current)
  {
    assert s.current != MAIN;
    hide Distinct;
  }

  lemma SleepOnly(s: State, deadline: int)
    requires Placed(s) && s.current in s.coros
    ensures Placed(Sleep(s, deadline)) && OnlyOne(s, Sleep(s, deadline), s.current)
    ensures s.current !in s.idle && Sleeps(Sleep(s, deadline), s.current)
  {
    assert s.current != MAIN;
    SleepPlaced(s, deadline);
    SleepSleeps(s, deadline);
    hide Distinct, Filed, Covered, Sleeps;
  }

  lemma WakeOnly(s: State, c: nat, head: bool)
    requires Placed(s) && Sleeps(s, c)
    ensures Placed(Wake(s, c, head)) && OnlyOne(s, Wake(s, c, head), c) && !Sleeps(Wake(s, c, head), c)
    ensures c !in s.idle
  {
    WakePlaced(s, c, head);
    WakeSleeps(s, c, head);
    hide Distinct, Filed, Covered;
  }

  lemma DispatchOnly(s: State, memory: bool)
    requires Placed(s) && Dispatch(s, memory).1 != MAIN
    ensures var (t, c) := Dispatch(s, memory);
            && Placed(t) && OnlyOne(s, t, c) && c in t.coros && c !in t.idle && !Sleeps(t, c)
            && (c in s.coros <==> c in s.idle) && t.curr - |t.idle| == s.curr - |s.idle| + 1
            && t.current == s.current && t.max == s.max
  {
    DispatchPlaced(s, memory);
    DispatchSleeps(s, memory);
    hide Filed, Covered;
  }

  lemma FinishOnly(s: State)
    requires Placed(s) && s.current in s.coros
    ensures Placed(Finish(s)) && OnlyOne(s, Finish(s), s.current)
    ensures s.current !in s.idle && s.current in Finish(s).idle && !Sleeps(Finish(s), s.current)
  {
    assert s.current != MAIN;
    FinishPlaced(s);
    hide Distinct, Filed, Covered;
  }

  // ---- steps ----

  lemma BootInv(w: World, max: nat, listen: nat)
    requires max >= 4 && Boot(w, max, listen)
    ensures Inv(w)
  {
    assert w.s.active == [1] && w.s.idle == [] && w.s.curr == 1;
  }

  lemma ExpiredKeeps(w: World, now: int, order: seq<nat>)
    requires Inv(w) && w.s.current == MAIN && ExpiryOrder(w.s, now, order)
    ensures Inv(w.(s := Expire(w.s, now, order), byExpiry := MarkExpired(w.byExpiry, order), phase := RunFirst))
  {
    ExpirePlaced(w.s, now, order);
    ExpireSleeps(w.s, now, order);
    TrackedExpire(w.s, w.pc, now, order);
    FlagsExpire(w.s, w.pc, w.byExpiry, now, order);
    hide Placed, Mirrors, Wired, Sleeps, ExpiryOrder, Tracked, FlagsRight, MarkExpired;
  }

  /** What the invariant says of one coroutine. */
  lemma InvAt(w: World, c: nat)
    requires Inv(w)
    ensures c in w.s.coros ==> c in w.pc && c in w.byExpiry
    ensures c in w.pc ==> c in w.s.coros && (w.pc[c].Unused? <==> c in w.s.idle)
    ensures c in w.pc && Suspended(w.pc[c]) && !Sleeps(w.s, c) ==> w.s.coros[c].byTimeout == w.byExpiry[c]
    ensures Sleeps(w.s, c) ==> c in w.pc && Suspended(w.pc[c])
    ensures w.s.current != MAIN ==> w.s.current in w.s.coros && !Sleeps(w.s, w.s.current) && w.s.current !in w.s.idle
  {
  }

  lemma PickedKeeps(w: World)
    requires Inv(w) && w.s.current == MAIN && w.s.active != [] && (w.phase == RunFirst || w.phase == RunSecond)
    ensures Inv(w.(s := Pick(w.s)))
  {
    hide Placed, Mirrors, Wired, Sleeps, Tracked, FlagsRight, OnlyOne;
    var c, t := w.s.active[0], Pick(w.s);
    PickPlaced(w.s);
    PickOnly(w.s);
    InvAt(w, c);
    AwakeFlag(w, c);
    OneStep(w.s, t, w.pc, w.byExpiry, c, w.pc[c], w.byExpiry[c]);
    assert w.pc[c := w.pc[c]] == w.pc && w.byExpiry[c := w.byExpiry[c]] == w.byExpiry;
  }

  lemma AwakeFlag(w: World, c: nat)
    requires Inv(w) && c in w.s.active
    ensures !Sleeps(w.s, c) && c in w.pc && !w.pc[c].Live?
  {
  }

  lemma StartedKeeps(w: World)
    requires Inv(w) && Runs(w) && !w.pc[w.s.current].Waiting? && !w.pc[w.s.current].Unused?
    ensures Inv(w.(pc := w.pc[w.s.current := Live]))
  {
    var c := w.s.current;
    WiredMove(w.l, w.pc, w.owner, c, Live);
    hide Placed, Mirrors, Wired, Sleeps, Tracked, FlagsRight;
    InvAt(w, c);
    assert OnlyOne(w.s, w.s, c);
    OneStep(w.s, w.s, w.pc, w.byExpiry, c, Live, w.byExpiry[c]);
    assert w.byExpiry[c := w.byExpiry[c]] == w.byExpiry;
  }

  lemma ResumedKeeps(w: World, willing: bool)
    requires Inv(w) && !w.exited && Runs(w) && w.pc[w.s.current].Waiting?
    ensures Inv(Resume(w, willing))
  {
    hide Placed, Mirrors, Wired, Sleeps, Tracked, FlagsRight, OnlyOne, Del;
    var c, t := w.s.current, ClearFlag(w.s);
    WiredDel(w.l, w.pc, w.owner, c, willing);
    DelMirrors(w.l, w.pc[c].fd, w.pc[c].what, willing);
    InvAt(w, c);
    ClearOnly(w.s);
    OneStep(w.s, t, w.pc, w.byExpiry, c, Live, w.byExpiry[c]);
    assert w.byExpiry[c := w.byExpiry[c]] == w.byExpiry;
    CountedFrame(w, t);
  }

  /** The account only sees who exists, who is idle and who runs. */
  lemma CountedFrame(w: World, t: State)
    requires Counted(w.s, w.count, w.accepting, w.granted, w.exited) && !w.exited
    requires t.curr == w.s.curr && t.max == w.s.max && t.idle == w.s.idle && t.coros.Keys == w.s.coros.Keys
    ensures Counted(t, w.count, w.accepting, w.granted, w.exited)
  {
  }

  lemma SleepKeeps(w: World, l: Loop, deadline: int, p: Pc)
    requires Inv(w) && !w.exited && Runs(w) && Suspended(p)
    requires Mirrors(l) && Wired(l, w.pc[w.s.current := p], w.owner)
    ensures Inv(w.(l := l, s := Sleep(w.s, deadline), pc := w.pc[w.s.current := p]))
  {
    hide Placed, Mirrors, Wired, Sleeps, Tracked, FlagsRight, OnlyOne;
    var c, t := w.s.current, Sleep(w.s, deadline);
    InvAt(w, c);
    SleepOnly(w.s, deadline);
    OneStep(w.s, t, w.pc, w.byExpiry, c, p, w.byExpiry[c]);
    assert w.byExpiry[c := w.byExpiry[c]] == w.byExpiry;
    assert t.coros.Keys == w.s.coros.Keys;
    CountedFrame(w, t);
  }

  lemma WaitsKeeps(w: World, fd: nat, what: Ev, urgent: bool, deadline: int, willing: bool)
    requires Inv(w) && !w.exited && Runs(w) && w.pc[w.s.current].Live? && fd in w.owner && w.owner[fd] == w.s.current
    ensures Inv(Wait(w, fd, what, urgent, deadline, willing))
  {
    hide Placed, Mirrors, Wired, Sleeps, Tracked, FlagsRight, Add, Counted;
    var c := w.s.current;
    if Add(w.l, fd, what, urgent, c, willing).1 == 0 {
      AddMirrors(w.l, fd, what, urgent, c, willing);
      WiredAdd(w.l, w.pc, w.owner, c, fd, what, urgent, willing);
      SleepKeeps(w, Add(w.l, fd, what, urgent, c, willing).0, deadline, Waiting(fd, what));
    }
  }

  lemma NapsKeeps(w: World, deadline: int)
    requires Inv(w) && !w.exited && Runs(w) && w.pc[w.s.current].Live?
    ensures Inv(Nap(w, deadline))
  {
    hide Placed, Mirrors, Wired, Sleeps, Tracked, FlagsRight, Counted;
    WiredMove(w.l, w.pc, w.owner, w.s.current, Napping);
    SleepKeeps(w, w.l, deadline, Napping);
  }

  lemma AcceptedKeeps(w: World, fd: nat, memory: bool)
    requires Inv(w) && !w.exited && Accepts(w) && fd !in w.owner
    ensures Inv(Accept(w, fd, memory))
  {
    hide Placed, Mirrors, Wired, Sleeps, Tracked, FlagsRight, Dispatch;
    var (t, c) := Dispatch(w.s, memory);
    if c == MAIN {
      DispatchNone(w.s, memory);
    } else {
      DispatchOnly(w.s, memory);
      BusySize(w.s, Busy(w.s));
      InvAt(w, c);
      InvAt(w, ACCEPTOR);
      OneStep(w.s, t, w.pc, w.byExpiry, c, Fresh, false);
      WiredNew(w.l, w.pc, w.owner, fd, c);
      assert w.s.current == ACCEPTOR;
      assert c != ACCEPTOR;
      assert ACCEPTOR in t.coros && ACCEPTOR !in t.idle by { assert OnlyOne(w.s, t, c); }
    }
  }

  lemma DispatchNone(s: State, memory: bool)
    requires Placed(s) && Dispatch(s, memory).1 == MAIN
    ensures Dispatch(s, memory).0 == s
  {
    assert MAIN !in s.idle;
  }

  lemma LeaveKeeps(w: World)
    requires Inv(w) && !w.exited && Runs(w) && w.pc[w.s.current].Live? && (w.accepting ==> w.s.current != ACCEPTOR)
    ensures Inv(Leave(w))
  {
    hide Placed, Mirrors, Wired, Sleeps, Tracked, FlagsRight, OnlyOne;
    var c, t := w.s.current, Finish(w.s);
    InvAt(w, c);
    if w.count == 1 {
      if w.accepting {
        TwoBusy(w.s, c, ACCEPTOR);
        assert false;
      }
      OneBusy(w.s);
    } else {
      FinishOnly(w.s);
      OneStep(w.s, t, w.pc, w.byExpiry, c, Unused, w.byExpiry[c]);
      assert w.byExpiry[c := w.byExpiry[c]] == w.byExpiry;
      WiredLeave(w.l, w.pc, w.owner, c);
    }
  }

  // ---- a batch of events ----

  lemma WakeKeeps(w: World, c: nat, head: bool)
    requires Inv(w) && !w.exited && w.s.current == MAIN && w.phase == RunSecond && c in w.s.coros && Sleeps(w.s, c)
    ensures Inv(w.(s := Wake(w.s, c, head), byExpiry := w.byExpiry[c := false]))
  {
    hide Placed, Mirrors, Wired, Tracked, FlagsRight, OnlyOne, Sleeps;
    var t := Wake(w.s, c, head);
    WakeOnly(w.s, c, head);
    InvAt(w, c);
    OneStep(w.s, t, w.pc, w.byExpiry, c, w.pc[c], false);
    assert w.pc[c := w.pc[c]] == w.pc;
    assert t.coros.Keys == w.s.coros.Keys;
    CountedFrame(w, t);
  }

  lemma WakeFdKeeps(w: World, fd: nat)
    requires Inv(w) && !w.exited && w.s.current == MAIN && w.phase == RunSecond
    requires fd < |w.l.slots| && Sleeps(w.s, w.l.slots[fd].args)
    ensures Inv(WakeFd(w, fd))
    ensures forall x :: Sleeps(WakeFd(w, fd).s, x) <==> Sleeps(w.s, x) && x != w.l.slots[fd].args
  {
    var c := w.l.slots[fd].args;
    SleepsExists(w.s, c);
    assert Placed(w.s);
    hide Inv, Placed, Sleeps;
    WakeKeeps(w, c, w.l.slots[fd].urgent);
    WakeSleeps(w.s, c, w.l.slots[fd].urgent);
  }

  /** Every descriptor of the batch names a coroutine in the timer tree. */
  ghost predicate Batch(w: World, fds: seq<nat>) {
    Distinct(fds) && forall fd :: fd in fds ==> fd < |w.l.slots| && w.l.slots[fd].mask != {} && Sleeps(w.s, w.l.slots[fd].args)
  }

  lemma BatchStep(w: World, v: World, fds: seq<nat>)
    requires Inv(w) && fds != [] && fds[0] < |w.l.slots| && Batch(w, fds) && v.l == w.l
    requires forall x :: Sleeps(v.s, x) <==> Sleeps(w.s, x) && x != w.l.slots[fds[0]].args
    ensures Batch(v, fds[1..])
  {
    hide Placed, Mirrors, Tracked, FlagsRight, Counted, Sleeps;
    assert fds[0] in fds;
    assert Named(w.pc, w.l.slots[fds[0]].args, fds[0]);
    forall fd | fd in fds[1..]
      ensures fd < |v.l.slots| && v.l.slots[fd].mask != {} && Sleeps(v.s, v.l.slots[fd].args)
    {
      assert fd in fds && fd != fds[0];
      assert Named(w.pc, w.l.slots[fd].args, fd);
    }
  }

  ghost predicate NamedBy(l: Loop, fds: seq<nat>, c: nat) {
    exists i :: 0 <= i < |fds| && fds[i] < |l.slots| && l.slots[fds[i]].args == c
  }

  lemma {:induction false} PollKeeps(w: World, fds: seq<nat>)
    requires Inv(w) && !w.exited && w.s.current == MAIN && w.phase == RunSecond && Batch(w, fds)
    ensures Inv(Poll(w, fds)) && Poll(w, fds).l == w.l && Poll(w, fds).s.idle == w.s.idle
    ensures forall c :: Sleeps(Poll(w, fds).s, c) <==> Sleeps(w.s, c) && !NamedBy(w.l, fds, c)
    ensures |Poll(w, fds).s.active| == |w.s.active| + |fds|
    decreases |fds|
  {
    hide Inv, Sleeps;
    if fds != [] {
      var fd, v := fds[0], WakeFd(w, fds[0]);
      assert fd in fds;
      assert w.l.slots[fd].args in w.s.coros by { SleepsExists(w.s, w.l.slots[fd].args); }
      WakeFdKeeps(w, fd);
      BatchStep(w, v, fds);
      PollKeeps(v, fds[1..]);
      forall c ensures NamedBy(w.l, fds, c) <==> c == w.l.slots[fd].args || NamedBy(w.l, fds[1..], c) {
        NamedSplit(w.l, fds, c);
      }
    }
  }

  lemma SleepsExists(s: State, c: nat)
    requires Sleeps(s, c)
    ensures c in s.coros
  {
  }

  lemma NamedSplit(l: Loop, fds: seq<nat>, c: nat)
    requires fds != [] && fds[0] < |l.slots|
    ensures NamedBy(l, fds, c) <==> c == l.slots[fds[0]].args || NamedBy(l, fds[1..], c)
  {
  }

  /** At the policy step every registered descriptor names a coroutine in the timer tree. */
  lemma RegisteredSleep(w: World, fd: nat)
    requires Inv(w) && w.phase == Policy && fd in w.l.interest
    ensures fd < |w.l.slots| && w.l.slots[fd].mask != {} && Sleeps(w.s, w.l.slots[fd].args)
    ensures Named(w.pc, w.l.slots[fd].args, fd)
  {
    hide Distinct, Filed, FlagsRight, Counted;
    assert Mirrored(w.l, fd);
    assert Named(w.pc, w.l.slots[fd].args, fd);
  }
}
