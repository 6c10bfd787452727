/**
 * The life of one log slot, src/logger.c over src/util/cirbuf.h: the process
 * that owns it and the server that drains it, interleaved at every load and
 * store of the shared fields. log_worker_alloc publishes the process id before
 * it resets the two indices one after the other, and the server takes no lock.
 * A worker cannot die inside log_worker_alloc unnoticed, because it holds the
 * lock that the exit handler takes.
 */
module LogLife {
  import opened Wrap

  /** How far the owner is: none or gone, in the four stores of log_worker_alloc, or in possession. */
  datatype Owner = Absent | Claimed | Cleared | Halfway | Owning

  /** Where the server is in copy_to_cache. `stale` says that `start` was reset since it was loaded. */
  datatype Server = Idle | Opening | Loaded(start: nat, stale: bool) | Taking | Emptied | Freeing | Clearing

  /**
   * `written` and `read` are history: every record put into the ring and every
   * record the server took out. `seen` counts the records written when the
   * server last found the ring empty, and `early` says need_init was set then.
   */
  datatype Life = Life(
    pid: int, needInit: bool, start: nat, end: nat, cells: seq<string>, owner: Owner, server: Server,
    seen: nat, early: bool, written: seq<string>, read: seq<string>)

  datatype Step =
    | Claim(pid: int) | ClearFlag | ResetStart | ResetEnd | Write(record: string) | Exit
    | Begin | LoadStart | LoadEnd | Take | Test | Free | Clear

  predicate Enabled(s: Life, a: Step) {
    match a
    case Claim(pid) => s.owner == Absent && s.pid == 0 && pid != 0
    case ClearFlag => s.owner == Claimed
    case ResetStart => s.owner == Cleared
    case ResetEnd => s.owner == Halfway
    case Write(_) => s.owner == Owning
    case Exit => s.owner == Owning
    case Begin => s.server == Idle && s.pid != 0
    case LoadStart => s.server == Opening
    case LoadEnd => s.server.Loaded?
    case Take => s.server == Taking
    case Test => s.server == Emptied
    case Free => s.server == Freeing
    case Clear => s.server == Clearing
  }

  predicate Indexed(s: Life) {
    s.start < |s.cells| && s.end < |s.cells|
  }

  function Next(s: Life, a: Step): Life
    requires Enabled(s, a) && Indexed(s)
  {
    var count := |s.cells|;
    match a
    case Claim(pid) => s.(pid := pid, owner := Claimed)
    case ClearFlag => s.(needInit := false, owner := Cleared)
    case ResetStart =>
      s.(start := 0, owner := Halfway, server := if s.server.Loaded? then s.server.(stale := true) else s.server)
    case ResetEnd => s.(end := 0, owner := Owning)
    case Write(record) =>
      if Inc(count, s.end) == s.start then s
      else s.(cells := s.cells[s.end := record], end := Inc(count, s.end), written := s.written + [record])
    case Exit => s.(needInit := true, owner := Absent)
    case Begin => s.(server := Opening)
    case LoadStart => s.(server := Loaded(s.start, false))
    case LoadEnd =>
      if s.server.start == s.end then s.(server := Emptied, seen := |s.written|, early := s.needInit)
      else s.(server := Taking)
    case Take => s.(start := Inc(count, s.start), read := s.read + [s.cells[s.start]], server := Opening)
    case Test => s.(server := if s.needInit then Freeing else Idle)
    case Free => s.(pid := 0, server := Clearing)
    case Clear => s.(needInit := false, server := Idle)
  }

  // ---------------------------------------------------------------- the records of the owner

  /** The cell i places after `start`. */
  function At(count: nat, start: nat, i: nat): nat {
    if start + i < count then start + i else start + i - count
  }

  function Span(count: nat, start: nat, end: nat): nat
    requires start < count && end < count
  {
    if start <= end then end - start else end + count - start
  }

  function Contents(cells: seq<string>, start: nat, end: nat): (q: seq<string>)
    requires start < |cells| && end < |cells|
    ensures |q| == Span(|cells|, start, end)
  {
    seq(Span(|cells|, start, end), i requires 0 <= i < Span(|cells|, start, end) => cells[At(|cells|, start, i)])
  }

  /** Between the two resets the indices say nothing; the new owner has written no record. */
  function Queue(s: Life): seq<string>
    requires Indexed(s)
  {
    if s.owner == Halfway then [] else Contents(s.cells, s.start, s.end)
  }

  lemma TakeContents(cells: seq<string>, start: nat, end: nat)
    requires start < |cells| && end < |cells| && start != end
    ensures Contents(cells, start, end) == [cells[start]] + Contents(cells, Inc(|cells|, start), end)
  {
  }

  lemma WriteContents(cells: seq<string>, start: nat, end: nat, record: string)
    requires start < |cells| && end < |cells| && Inc(|cells|, end) != start
    ensures Contents(cells[end := record], start, Inc(|cells|, end)) == Contents(cells, start, end) + [record]
  {
    var q, r := Contents(cells, start, end), Contents(cells[end := record], start, Inc(|cells|, end));
    assert |r| == |q| + 1;
    assert forall i :: 0 <= i < |q| ==> At(|cells|, start, i) != end;
  }

  lemma EmptyContents(cells: seq<string>, start: nat, end: nat)
    requires start < |cells| && end < |cells|
    ensures Contents(cells, start, end) == [] <==> start == end
  {
    assert |Contents(cells, start, end)| == Span(|cells|, start, end);
  }

  // ---------------------------------------------------------------- runs

  /** The empty test compares an index of the new owner with one of the old. */
  predicate Straddles(s: Life)
    requires s.server.Loaded?
  {
    (s.owner == Halfway) != s.server.stale
  }

  /**
   * The empty test does not straddle the resets, or the indices it compares
   * happen to tell the truth: nothing to read before the second reset, or the
   * records of a new owner that has begun to write.
   */
  predicate Sound(s: Life, a: Step)
    requires Enabled(s, a)
  {
    a == LoadEnd && Straddles(s) ==>
      if s.owner == Halfway then s.end == 0
      else if s.end == 0 then s.server.start == 0
      else s.server.start != s.end
  }

  /** Nothing was written between the empty test and a test that frees the slot. */
  predicate Quiet(s: Life, a: Step) {
    a == Test && s.needInit ==> |s.written| == s.seen
  }

  /** A free slot of shared memory that was never used. */
  ghost predicate Initial(s: Life, count: nat) {
    |s.cells| == count && s == Life(0, false, 0, 0, s.cells, Absent, Idle, 0, false, [], [])
  }

  /** `fair` restricts the runs to sound and quiet steps. */
  ghost predicate Reaches(s: Life, count: nat, k: nat, fair: bool)
    decreases k
  {
    if k == 0 then Initial(s, count)
    else exists r, a ::
      && Reaches(r, count, k - 1, fair) && Indexed(r) && Enabled(r, a)
      && (fair ==> Sound(r, a) && Quiet(r, a)) && s == Next(r, a)
  }

  /** Every record written is read or still in the ring, in order, and a free slot has none. */
  ghost predicate Account(s: Life) {
    Indexed(s) && s.written == s.read + Queue(s) && (s.pid == 0 ==> Queue(s) == [])
  }

  /** Who can be where. */
  ghost predicate Placed(s: Life) {
    && (s.pid == 0 ==> s.owner == Absent)
    && (s.server != Idle && s.server != Clearing ==> s.pid != 0)
    && (s.needInit && s.server != Clearing ==> s.owner == Absent && s.pid != 0)
    && (s.server == Freeing ==> s.needInit)
  }

  /** What the server has loaded or found is of the ring as it is. */
  ghost predicate Drains(s: Life)
    requires Indexed(s)
  {
    && (s.pid == 0 || s.owner == Claimed || s.owner == Cleared || s.server == Freeing ==> s.start == s.end)
    && (s.owner == Halfway ==> s.start == 0)
    && (s.server.Loaded? && !s.server.stale ==> s.server.start == s.start)
    && (s.server.Loaded? && s.server.stale ==> s.start == 0 && s.owner != Claimed && s.owner != Cleared)
    && (s.server.Loaded? && s.server.stale && s.owner == Halfway ==> s.server.start == s.end)
    && (s.server == Taking ==> Queue(s) != [])
    && (s.server == Emptied ==> s.seen <= |s.written| && Queue(s) == s.written[s.seen..])
    && (s.server == Emptied && s.early ==> s.needInit && s.seen == |s.written|)
  }

  ghost predicate Inv(s: Life) {
    Account(s) && Placed(s) && Drains(s)
  }

  lemma OwnerKeeps(s: Life, a: Step)
    requires Inv(s) && Enabled(s, a) && (a.Claim? || a == ClearFlag || a == ResetStart || a == ResetEnd || a == Exit)
    ensures Inv(Next(s, a)) && |Next(s, a).cells| == |s.cells|
  {
    hide Contents;
    EmptyContents(s.cells, s.start, s.end);
    EmptyContents(s.cells, 0, 0);
  }

  lemma WriteKeeps(s: Life, record: string)
    requires Inv(s) && Enabled(s, Write(record))
    ensures Inv(Next(s, Write(record))) && |Next(s, Write(record)).cells| == |s.cells|
  {
    hide Contents;
    if Inc(|s.cells|, s.end) != s.start {
      WriteContents(s.cells, s.start, s.end, record);
      if s.server == Emptied {
        assert (s.written + [record])[s.seen..] == s.written[s.seen..] + [record];
      }
    }
  }

  /** The empty test answers rightly exactly when it is sound. */
  lemma TestExact(s: Life)
    requires Inv(s) && Enabled(s, LoadEnd)
    ensures (Next(s, LoadEnd).server == Emptied <==> Queue(s) == []) <==> Sound(s, LoadEnd)
  {
    hide Contents;
    EmptyContents(s.cells, s.start, s.end);
  }

  lemma ServerKeeps(s: Life, a: Step)
    requires Inv(s) && Enabled(s, a) && Sound(s, a) && Quiet(s, a)
    requires a == Begin || a == LoadStart || a == LoadEnd || a == Test || a == Free || a == Clear
    ensures Inv(Next(s, a)) && |Next(s, a).cells| == |s.cells|
  {
    if a == LoadEnd {
      TestExact(s);
    }
    hide Contents, Sound;
    EmptyContents(s.cells, s.start, s.end);
  }

  lemma TakeQueue(s: Life)
    requires Inv(s) && Enabled(s, Take)
    ensures s.owner != Halfway && s.start != s.end && Inc(|s.cells|, s.start) < |s.cells|
    ensures Queue(s) == [s.cells[s.start]] + Queue(Next(s, Take))
  {
    hide Contents;
    EmptyContents(s.cells, s.start, s.end);
    TakeContents(s.cells, s.start, s.end);
  }

  lemma TakeKeeps(s: Life)
    requires Inv(s) && Enabled(s, Take)
    ensures Inv(Next(s, Take)) && |Next(s, Take).cells| == |s.cells|
  {
    TakeQueue(s);
    hide Contents, Queue, Inc;
    assert Next(s, Take).read + Queue(Next(s, Take)) == s.read + Queue(s);
  }

  lemma StepKeeps(s: Life, a: Step)
    requires Inv(s) && Enabled(s, a) && Sound(s, a) && Quiet(s, a)
    ensures Inv(Next(s, a)) && |Next(s, a).cells| == |s.cells|
  {
    hide Inv, Sound, Quiet, Next;
    match a
    case Write(record) => WriteKeeps(s, record);
    case Take => TakeKeeps(s);
    case Claim(_) => OwnerKeeps(s, a);
    case ClearFlag => OwnerKeeps(s, a);
    case ResetStart => OwnerKeeps(s, a);
    case ResetEnd => OwnerKeeps(s, a);
    case Exit => OwnerKeeps(s, a);
    case _ => ServerKeeps(s, a);
  }

  lemma InitialInv(s: Life, count: nat)
    requires count > 0 && Initial(s, count)
    ensures Inv(s) && |s.cells| == count
  {
    EmptyContents(s.cells, 0, 0);
  }

  /** What every fair run keeps; so no record is lost, added or reordered, whatever the number of owners. */
  lemma {:induction false} NothingLost(s: Life, count: nat, k: nat)
    requires count > 0 && Reaches(s, count, k, true)
    ensures Inv(s) && |s.cells| == count
    decreases k
  {
    hide Inv, Next, Enabled, Sound, Quiet, Initial;
    if k == 0 {
      InitialInv(s, count);
    } else {
      var r, a :| Reaches(r, count, k - 1, true) && Indexed(r) && Enabled(r, a) && Sound(r, a) && Quiet(r, a) && s == Next(r, a);
      NothingLost(r, count, k - 1);
      StepKeeps(r, a);
    }
  }

  /** A slot is freed empty exactly when nothing was written after the empty test. */
  lemma FreedExact(s: Life)
    requires Inv(s) && Enabled(s, Test) && s.needInit
    ensures var t := Next(Next(s, Test), Free); t.pid == 0 && (Queue(t) == [] <==> Quiet(s, Test))
  {
    hide Contents;
    assert |s.written[s.seen..]| == |s.written| - s.seen;
  }

  /** need_init set before the empty test is enough. */
  lemma EarlyIsQuiet(s: Life)
    requires Inv(s) && Enabled(s, Test) && s.early
    ensures Quiet(s, Test)
  {
  }

  // ---------------------------------------------------------------- what an unfair step does

  /** A record taken from a ring that has none breaks the account. */
  lemma TakeExact(s: Life)
    requires Account(s) && Enabled(s, Take) && |s.cells| > 1 && s.pid != 0
    ensures Account(Next(s, Take)) <==> Queue(s) != []
  {
    hide Contents;
    EmptyContents(s.cells, s.start, s.end);
    if s.start != s.end {
      TakeContents(s.cells, s.start, s.end);
    }
    if Queue(s) == [] {
      assert |Next(s, Take).read| > |s.written|;
    }
  }

  /** An empty test that finds a record, and the read after it, keep the account exactly when the test is sound. */
  lemma PopExact(s: Life)
    requires Inv(s) && Enabled(s, LoadEnd) && Next(s, LoadEnd).server == Taking && |s.cells| > 1
    ensures Account(Next(Next(s, LoadEnd), Take)) <==> Sound(s, LoadEnd)
  {
    TestExact(s);
    hide Sound, Contents;
    TakeExact(Next(s, LoadEnd));
  }

  /** A whole read without interruption keeps the account exactly outside the two resets. */
  lemma ReadExact(s: Life)
    requires Inv(s) && s.server == Opening && s.start != s.end && |s.cells| > 1
    ensures var t := Next(Next(s, LoadStart), LoadEnd);
            t.server == Taking && (Account(Next(t, Take)) <==> s.owner != Halfway)
  {
    var r := Next(s, LoadStart);
    ServerKeeps(s, LoadStart);
    assert r.server == Loaded(s.start, false) && s.owner == Halfway ==> s.start == 0;
    hide Inv, Account;
    PopExact(r);
  }

  /** An unsound test that finds nothing overlooks records; if the owner is gone, the slot is freed with them inside. */
  lemma OverlookedLost(s: Life)
    requires Inv(s) && Enabled(s, LoadEnd) && !Sound(s, LoadEnd) && Next(s, LoadEnd).server == Emptied && s.needInit
    ensures var t := Next(Next(Next(s, LoadEnd), Test), Free); t.pid == 0 && Queue(t) != []
  {
    TestExact(s);
    hide Contents, Sound;
  }

  /** The slot after a test that frees it and the next log_worker_alloc. */
  function Reused(s: Life, pid: int): (t: Life)
    requires Enabled(s, Test) && s.needInit && s.owner == Absent && pid != 0 && Indexed(s)
    ensures t.start == t.end == 0 && t.cells == s.cells && t.owner == Owning && t.written == s.written && t.read == s.read
  {
    Next(Next(Next(Next(Next(Next(s, Test), Free), Claim(pid)), ClearFlag), ResetStart), ResetEnd)
  }

  /** A test that is not quiet loses what was written since: the next owner starts without it. */
  lemma NoisyLoses(s: Life, pid: int)
    requires Inv(s) && Enabled(s, Test) && !Quiet(s, Test) && pid != 0
    ensures var t := Reused(s, pid); t.written == s.written && t.read + Queue(t) < t.written
  {
    var t := Reused(s, pid);
    hide Contents, Reused;
    EmptyContents(t.cells, 0, 0);
    assert t.read + [] == t.read;
    assert |s.written[s.seen..]| > 0;
  }

  lemma Steps(r: Life, count: nat, k: nat, fair: bool, a: Step)
    requires Reaches(r, count, k, fair) && Indexed(r) && Enabled(r, a) && (fair ==> Sound(r, a) && Quiet(r, a))
    ensures Reaches(Next(r, a), count, k + 1, fair)
  {
  }

  // ---------------------------------------------------------------- three runs

  /** The first two stores of log_worker_alloc. */
  lemma Claims(s: Life, n: nat, k: nat, pid: int)
    requires Reaches(s, n, k, true) && Indexed(s) && s.owner == Absent && s.pid == 0 && pid != 0
    ensures Reaches(s.(pid := pid, needInit := false, owner := Cleared), n, k + 2, true)
  {
    hide Reaches;
    Steps(s, n, k, true, Claim(pid));
    Steps(s.(pid := pid, owner := Claimed), n, k + 1, true, ClearFlag);
  }

  /** The server begins a drain and loads the first index. */
  lemma Looks(s: Life, n: nat, k: nat)
    requires Reaches(s, n, k, true) && Indexed(s) && s.server == Idle && s.pid != 0
    ensures Reaches(s.(server := Loaded(s.start, false)), n, k + 2, true)
  {
    hide Reaches;
    Steps(s, n, k, true, Begin);
    Steps(s.(server := Opening), n, k + 1, true, LoadStart);
  }

  /** It takes a record and loads the first index again. */
  lemma Takes(s: Life, n: nat, k: nat)
    requires Reaches(s, n, k, true) && Indexed(s) && s.owner == Owning
    requires s.server == Loaded(s.start, false) && s.start != s.end && s.start + 1 < |s.cells|
    ensures Reaches(s.(start := s.start + 1, read := s.read + [s.cells[s.start]], server := Loaded(s.start + 1, false)),
                    n, k + 3, true)
  {
    hide Reaches;
    Steps(s, n, k, true, LoadEnd);
    Steps(s.(server := Taking), n, k + 1, true, Take);
    Steps(s.(start := s.start + 1, read := s.read + [s.cells[s.start]], server := Opening), n, k + 2, true, LoadStart);
  }

  /** It finds none. */
  lemma FindsNone(s: Life, n: nat, k: nat)
    requires Reaches(s, n, k, true) && Indexed(s) && s.owner == Owning && s.server == Loaded(s.start, false) && s.start == s.end
    ensures Reaches(s.(server := Emptied, seen := |s.written|, early := s.needInit), n, k + 1, true)
  {
    hide Reaches;
    Steps(s, n, k, true, LoadEnd);
  }

  lemma Exits(s: Life, n: nat, k: nat)
    requires Reaches(s, n, k, true) && Indexed(s) && s.owner == Owning
    ensures Reaches(s.(needInit := true, owner := Absent), n, k + 1, true)
  {
    hide Reaches;
    Steps(s, n, k, true, Exit);
  }

  /** It frees the slot of an owner that is gone. */
  lemma Frees(s: Life, n: nat, k: nat)
    requires Reaches(s, n, k, true) && Indexed(s) && s.server == Emptied && s.needInit && s.seen == |s.written|
    ensures Reaches(s.(pid := 0, needInit := false, server := Idle), n, k + 3, true)
  {
    hide Reaches;
    Steps(s, n, k, true, Test);
    Steps(s.(server := Freeing), n, k + 1, true, Free);
    Steps(s.(pid := 0, server := Clearing), n, k + 2, true, Clear);
  }

  lemma Puts(s: Life, n: nat, k: nat, record: string)
    requires Reaches(s, n, k, true) && Indexed(s) && s.owner == Owning && s.start == s.end && s.end + 1 < |s.cells|
    ensures Reaches(s.(cells := s.cells[s.end := record], end := s.end + 1, written := s.written + [record]), n, k + 1, true)
  {
    hide Reaches;
    Steps(s, n, k, true, Write(record));
  }

  /** The other two stores of log_worker_alloc. */
  lemma Resets(s: Life, n: nat, k: nat)
    requires Reaches(s, n, k, true) && Indexed(s) && s.owner == Cleared
    ensures var server := if s.server.Loaded? then s.server.(stale := true) else s.server;
            Reaches(s.(start := 0, end := 0, owner := Owning, server := server), n, k + 2, true)
  {
    hide Reaches;
    Steps(s, n, k, true, ResetStart);
    Steps(Next(s, ResetStart), n, k + 1, true, ResetEnd);
  }

  lemma Begins(s: Life) returns (k: nat)
    requires Initial(s, |s.cells|)
    ensures Reaches(s, |s.cells|, k, true)
  {
    k := 0;
  }

  /** A process owns the unused slot. */
  lemma OwnedReached(cells: seq<string>, pid: int) returns (k: nat)
    requires cells != [] && pid != 0
    ensures Reaches(Life(pid, false, 0, 0, cells, Owning, Idle, 0, false, [], []), |cells|, k, true)
  {
    hide Reaches, Next, Sound, Inc;
    var s0 := Life(0, false, 0, 0, cells, Absent, Idle, 0, false, [], []);
    k := Begins(s0);
    Claims(s0, |cells|, k, pid);
    Resets(s0.(pid := pid, owner := Cleared), |cells|, k + 2);
    k := k + 4;
  }

  /** A last record written and need_init set between the empty test and the test of need_init. */
  lemma LateExitLoses(cells: seq<string>, pid: int, record: string) returns (s: Life, k: nat)
    requires |cells| > 1 && pid != 0
    ensures Reaches(s, |cells|, k, true) && s.written == [record] && s.read == []
    ensures Enabled(s, Test) && s.needInit && !Quiet(s, Test)
  {
    hide Reaches, Next, Sound, Inc;
    k := OwnedReached(cells, pid);
    var n, s0 := |cells|, Life(pid, false, 0, 0, cells, Owning, Idle, 0, false, [], []);
    Looks(s0, n, k);
    FindsNone(s0.(server := Loaded(0, false)), n, k + 2);
    var s1 := s0.(server := Emptied);
    Puts(s1, n, k + 3, record);
    s := s1.(cells := cells[0 := record], end := 1, written := [] + [record]);
    Exits(s, n, k + 4);
    s, k := s.(needInit := true, owner := Absent), k + 5;
  }

  /** It has written a record, and the server has read it and found no other. */
  lemma ReadOnceReached(cells: seq<string>, pid: int, record: string) returns (k: nat)
    requires |cells| > 1 && pid != 0
    ensures Reaches(Life(pid, false, 1, 1, cells[0 := record], Owning, Emptied, 1, false, [record], [record]), |cells|, k, true)
  {
    hide Reaches, Next, Sound, Inc;
    k := OwnedReached(cells, pid);
    assert [] + [record] == [record];
    var n, s0 := |cells|, Life(pid, false, 0, 0, cells, Owning, Idle, 0, false, [], []);
    Puts(s0, n, k, record);
    var s1 := Life(pid, false, 0, 1, cells[0 := record], Owning, Idle, 0, false, [record], []);
    Looks(s1, n, k + 1);
    Takes(s1.(server := Loaded(0, false)), n, k + 3);
    FindsNone(s1.(start := 1, read := [record], server := Loaded(1, false)), n, k + 6);
    k := k + 7;
  }

  /** It has exited, the slot was freed empty, and the next process is about to reset the indices. */
  function Reclaimed(cells: seq<string>, next: int, record: string): Life
    requires cells != []
  {
    Life(next, false, 1, 1, cells[0 := record], Cleared, Idle, 1, false, [record], [record])
  }

  lemma ReclaimedReached(cells: seq<string>, pid: int, next: int, record: string) returns (k: nat)
    requires |cells| > 1 && pid != 0 && next != 0
    ensures Reaches(Reclaimed(cells, next, record), |cells|, k, true)
  {
    hide Reaches, Next, Sound, Inc;
    k := ReadOnceReached(cells, pid, record);
    var n, s0 := |cells|, Life(pid, false, 1, 1, cells[0 := record], Owning, Emptied, 1, false, [record], [record]);
    Exits(s0, n, k);
    var s1 := s0.(needInit := true, owner := Absent);
    Frees(s1, n, k + 1);
    Claims(s1.(pid := 0, needInit := false, server := Idle), n, k + 4, next);
    k := k + 6;
  }

  /** What a server that takes its second look at once then reads. */
  predicate Rereads(s: Life, record: string) {
    && Enabled(s, LoadEnd) && Indexed(s) && Next(s, LoadEnd).server == Taking
    && (var t := Next(Next(s, LoadEnd), Take); t.written == [record] && t.read == [record, record])
  }

  /** How many records the ring seems to hold if the second reset follows. */
  function StaleAfter(s: Life): nat
    requires Enabled(s, LoadEnd) && Indexed(s) && Next(s, LoadEnd).server == Taking && s.owner == Halfway
  {
    |Queue(Next(Next(Next(s, LoadEnd), Take), ResetEnd))|
  }

  lemma ResetsStart(s: Life, n: nat, k: nat)
    requires Reaches(s, n, k, true) && Indexed(s) && s.owner == Cleared && s.server == Idle
    ensures Reaches(s.(start := 0, owner := Halfway), n, k + 1, true)
  {
    hide Reaches;
    Steps(s, n, k, true, ResetStart);
  }

  lemma Between(s: Life, record: string)
    requires Indexed(s) && s.owner == Halfway && s.server == Loaded(0, false) && s.start == 0 && s.end == 1
    requires s.written == s.read == [record] && s.cells[0] == record && |s.cells| > 1
    ensures Rereads(s, record) && !Sound(s, LoadEnd)
    ensures StaleAfter(s) == |s.cells| - 1
  {
    assert [record] + [record] == [record, record];
  }

  lemma Around(s: Life, record: string)
    requires Indexed(s) && s.owner == Owning && s.server == Loaded(1, true) && s.start == 0 && s.end == 0
    requires s.written == s.read == [record] && s.cells[0] == record && |s.cells| > 1
    ensures Rereads(s, record) && !Sound(s, LoadEnd)
  {
    assert [record] + [record] == [record, record];
  }

  /**
   * The server looks between the two resets: it reads the record again, and when
   * the second reset is done the ring seems to hold all the other stale cells.
   */
  lemma LookBetweenRereads(cells: seq<string>, pid: int, next: int, record: string) returns (s: Life, k: nat)
    requires |cells| > 1 && pid != 0 && next != 0
    ensures Reaches(s, |cells|, k, true) && Rereads(s, record) && !Sound(s, LoadEnd)
    ensures s.owner == Halfway && StaleAfter(s) == |cells| - 1
  {
    hide Reaches, Next, Sound, Inc;
    k := ReclaimedReached(cells, pid, next, record);
    var n, s0 := |cells|, Reclaimed(cells, next, record);
    ResetsStart(s0, n, k);
    var s1 := s0.(start := 0, owner := Halfway);
    Looks(s1, n, k + 1);
    s, k := s1.(server := Loaded(0, false)), k + 3;
    Between(s, record);
  }

  /** The server looks around both resets: it loads one index before and the other after them. */
  lemma LookAroundRereads(cells: seq<string>, pid: int, next: int, record: string) returns (s: Life, k: nat)
    requires |cells| > 1 && pid != 0 && next != 0
    ensures Reaches(s, |cells|, k, true) && Rereads(s, record) && !Sound(s, LoadEnd) && s.owner == Owning
  {
    hide Reaches, Next, Sound, Inc;
    k := ReclaimedReached(cells, pid, next, record);
    var n, s0 := |cells|, Reclaimed(cells, next, record);
    Looks(s0, n, k);
    var s1 := s0.(server := Loaded(1, false));
    Resets(s1, n, k + 2);
    s, k := s1.(start := 0, end := 0, owner := Owning, server := Loaded(1, true)), k + 4;
    Around(s, record);
  }
}
