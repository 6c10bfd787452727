/**
 * The ticket lock of src/util/spinlock.h, for any number of processes and any
 * interleaving of their atomic steps. Both counters wrap at `m` (2^32 in the
 * source). `taken`, `entered` and `released` are history: who drew each
 * ticket, who entered in what order, and how many have left.
 */
module TicketLock {
  import opened Seqs
  import opened Wrap

  /**
   * Each pc carries the machine word the process holds and `n`, the same
   * value before wrapping.
   */
  datatype Pc =
    | Out
    | Waiting(word: nat, n: nat)
    | Tried(word: nat, n: nat)
    | Holding(n: nat)
    | Leaving(word: nat, n: nat)

  datatype Lock = Lock(start: nat, ticket: nat, pcs: seq<Pc>, taken: seq<nat>, entered: seq<nat>, released: nat)

  /** Take and Enter make up spin_lock, Read and Swap spin_trylock, Load and Store spin_unlock. */
  datatype Step = Take | Enter | Read | Swap | Load | Store

  ghost predicate Initial(s: Lock, procs: nat) {
    s == Lock(0, 0, seq(procs, _ => Out), [], [], 0)
  }

  predicate Enabled(s: Lock, p: nat, a: Step) {
    p < |s.pcs| &&
    match a
    case Take => s.pcs[p].Out?
    case Enter => s.pcs[p].Waiting? && s.start == s.pcs[p].word
    case Read => s.pcs[p].Out?
    case Swap => s.pcs[p].Tried?
    case Load => s.pcs[p].Holding?
    case Store => s.pcs[p].Leaving?
  }

  function Next(m: nat, s: Lock, p: nat, a: Step): Lock
    requires m > 0 && Enabled(s, p, a)
  {
    match a
    case Take =>
      s.(ticket := Inc(m, s.ticket), taken := s.taken + [p], pcs := s.pcs[p := Waiting(s.ticket, |s.taken|)])
    case Enter =>
      s.(entered := s.entered + [p], pcs := s.pcs[p := Holding(s.pcs[p].n)])
    case Read =>
      s.(pcs := s.pcs[p := Tried(s.start, s.released)])
    case Swap =>
      if s.ticket == s.pcs[p].word then
        s.(ticket := Inc(m, s.pcs[p].word), taken := s.taken + [p], entered := s.entered + [p],
           pcs := s.pcs[p := Holding(|s.taken|)])
      else s.(pcs := s.pcs[p := Out])
    case Load =>
      s.(pcs := s.pcs[p := Leaving(s.start, s.pcs[p].n)])
    case Store =>
      s.(start := Inc(m, s.pcs[p].word), released := s.released + 1, pcs := s.pcs[p := Out])
  }

  /**
   * A swap is taken only if it fails, or is on a free counter: not when a positive
   * multiple of m tickets, some still out, were drawn since the process looked.
   */
  predicate Safe(m: nat, s: Lock, p: nat, a: Step)
    requires m > 0 && Enabled(s, p, a)
  {
    a == Swap && s.pcs[p].n <= |s.taken| ==> !(Multiple(m, |s.taken| - s.pcs[p].n) && |s.taken| > s.released)
  }

  ghost predicate Reaches(m: nat, procs: nat, s: Lock, k: nat)
    requires m > 0
    decreases k
  {
    if k == 0 then Initial(s, procs)
    else exists r, p, a :: Reaches(m, procs, r, k - 1) && Enabled(r, p, a) && s == Next(m, r, p, a)
  }

  ghost predicate ReachesSafe(m: nat, procs: nat, s: Lock, k: nat)
    requires m > 0
    decreases k
  {
    if k == 0 then Initial(s, procs)
    else exists r, p, a ::
      ReachesSafe(m, procs, r, k - 1) && Enabled(r, p, a) && Safe(m, r, p, a) && s == Next(m, r, p, a)
  }

  // ---- what every safe run keeps ----

  predicate Inside(c: Pc) {
    c.Holding? || c.Leaving?
  }

  ghost predicate Counters(m: nat, s: Lock)
    requires m > 0
  {
    && s.start == Word(m, s.released) && s.ticket == Word(m, |s.taken|)
    && s.released <= |s.entered| <= s.released + 1 && |s.entered| <= |s.taken|
    && s.entered == s.taken[..|s.entered|]
  }

  ghost predicate PcOk(m: nat, s: Lock, p: nat)
    requires m > 0 && p < |s.pcs|
  {
    match s.pcs[p]
    case Out => true
    case Waiting(word, n) => word == Word(m, n) && |s.entered| <= n < |s.taken| && s.taken[n] == p
    case Tried(word, n) => word == Word(m, n) && n <= s.released
    case Holding(n) => n == s.released < |s.entered| <= |s.taken| && s.taken[n] == p
    case Leaving(word, n) => word == s.start && n == s.released < |s.entered| <= |s.taken| && s.taken[n] == p
  }

  /** A ticket not yet given back is with the process that drew it. */
  ghost predicate TicketOk(s: Lock, n: nat)
    requires n < |s.taken|
  {
    var p := s.taken[n];
    && p < |s.pcs|
    && (if n < |s.entered| then Inside(s.pcs[p]) else s.pcs[p].Waiting?) && s.pcs[p].n == n
  }

  ghost predicate Inv(m: nat, procs: nat, s: Lock)
    requires m > 0
  {
    && |s.pcs| == procs && Counters(m, s)
    && (forall p :: 0 <= p < procs ==> PcOk(m, s, p))
    && (forall n :: s.released <= n < |s.taken| ==> TicketOk(s, n))
  }

  /** Never more tickets out than processes. */
  lemma TicketsOut(m: nat, procs: nat, s: Lock)
    requires m > 0 && Inv(m, procs, s)
    ensures |s.taken| - s.released <= procs
  {
    var out := s.taken[s.released..];
    forall i | 0 <= i < |out| ensures out[i] < procs && !s.pcs[out[i]].Out? && s.pcs[out[i]].n == s.released + i {
      assert TicketOk(s, s.released + i);
    }
    Pigeonhole(out, procs);
  }

  /** A process that has none leaves one ticket fewer. */
  lemma OthersOut(m: nat, procs: nat, s: Lock, p: nat)
    requires m > 0 && Inv(m, procs, s) && p < procs && s.pcs[p].Out?
    ensures |s.taken| - s.released < procs
  {
    var out := s.taken[s.released..] + [p];
    forall i | 0 <= i < |out| - 1 ensures out[i] < procs && !s.pcs[out[i]].Out? && s.pcs[out[i]].n == s.released + i {
      assert TicketOk(s, s.released + i);
    }
    Pigeonhole(out, procs);
  }

  // ---- steps ----

  lemma TakeKeeps(m: nat, procs: nat, s: Lock, p: nat)
    requires m > 0 && Inv(m, procs, s) && Enabled(s, p, Take)
    ensures Inv(m, procs, Next(m, s, p, Take))
  {
    hide Word, Inc;
    var t := Next(m, s, p, Take);
    assert t.ticket == Word(m, |t.taken|) by { WordNext(m, |s.taken|); }
    forall q | 0 <= q < procs ensures PcOk(m, t, q) {
      assert PcOk(m, s, q);
    }
    forall n | t.released <= n < |t.taken| ensures TicketOk(t, n) {
      if n < |s.taken| {
        assert TicketOk(s, n);
      }
    }
  }

  /** The word compared in the waiting loop stands for the whole counter. */
  lemma EnterExact(m: nat, procs: nat, s: Lock, p: nat)
    requires 0 < m && procs <= m && Inv(m, procs, s) && p < procs && s.pcs[p].Waiting?
    ensures Enabled(s, p, Enter) <==> s.pcs[p].n == s.released
  {
    hide Word, Inc;
    assert PcOk(m, s, p);
    TicketsOut(m, procs, s);
    WordEqual(m, s.released, s.pcs[p].n);
  }

  lemma EnterKeeps(m: nat, procs: nat, s: Lock, p: nat)
    requires 0 < m && procs <= m && Inv(m, procs, s) && Enabled(s, p, Enter)
    ensures Inv(m, procs, Next(m, s, p, Enter))
  {
    hide Word, Inc;
    var t := Next(m, s, p, Enter);
    EnterExact(m, procs, s, p);
    assert PcOk(m, s, p);
    assert s.taken[s.released] == p;
    assert t.entered == t.taken[..|t.entered|];
    forall q | 0 <= q < procs ensures PcOk(m, t, q) {
      assert PcOk(m, s, q);
    }
    forall n | t.released <= n < |t.taken| ensures TicketOk(t, n) {
      assert TicketOk(s, n);
    }
  }

  lemma ReadKeeps(m: nat, procs: nat, s: Lock, p: nat)
    requires m > 0 && Inv(m, procs, s) && Enabled(s, p, Read)
    ensures Inv(m, procs, Next(m, s, p, Read))
  {
    hide Word, Inc;
    var t := Next(m, s, p, Read);
    forall q | 0 <= q < procs ensures PcOk(m, t, q) {
      assert PcOk(m, s, q);
    }
    forall n | t.released <= n < |t.taken| ensures TicketOk(t, n) {
      assert TicketOk(s, n);
    }
  }

  /** A trylock succeeds exactly when the tickets drawn since its read are a multiple of the wrap-around. */
  lemma SwapExact(m: nat, procs: nat, s: Lock, p: nat)
    requires m > 0 && Inv(m, procs, s) && Enabled(s, p, Swap)
    ensures s.pcs[p].n <= |s.taken|
    ensures s.ticket == s.pcs[p].word <==> Multiple(m, |s.taken| - s.pcs[p].n)
  {
    assert PcOk(m, s, p);
    WordsMeet(m, s.pcs[p].n, |s.taken| - s.pcs[p].n);
  }

  /** The lock is free, and nobody waits, exactly when no ticket is out. */
  lemma FreeExact(m: nat, procs: nat, s: Lock)
    requires m > 0 && Inv(m, procs, s)
    ensures Free(s) <==> |s.taken| == s.released
  {
    if |s.taken| == s.released {
      forall q | 0 <= q < |s.pcs| ensures !Inside(s.pcs[q]) && !s.pcs[q].Waiting? {
        assert PcOk(m, s, q);
      }
    } else {
      assert TicketOk(s, s.released);
    }
  }

  /** A trylock that succeeds finds the lock free exactly when the step is safe. */
  lemma SafeExact(m: nat, procs: nat, s: Lock, p: nat)
    requires m > 0 && Inv(m, procs, s) && Enabled(s, p, Swap)
    ensures (s.ticket == s.pcs[p].word ==> Free(s)) <==> Safe(m, s, p, Swap)
  {
    SwapExact(m, procs, s, p);
    FreeExact(m, procs, s);
  }

  /** Fewer than m tickets since the read are enough. */
  lemma SoonIsSafe(m: nat, s: Lock, p: nat)
    requires m > 0 && Enabled(s, p, Swap) && |s.taken| - s.pcs[p].n < m && s.pcs[p].n <= s.released
    ensures Safe(m, s, p, Swap)
  {
  }

  ghost predicate Free(s: Lock) {
    forall q :: 0 <= q < |s.pcs| ==> !Inside(s.pcs[q]) && !s.pcs[q].Waiting?
  }

  lemma SwapKeeps(m: nat, procs: nat, s: Lock, p: nat)
    requires m > 0 && Inv(m, procs, s) && Enabled(s, p, Swap) && Safe(m, s, p, Swap)
    ensures Inv(m, procs, Next(m, s, p, Swap))
  {
    var t := Next(m, s, p, Swap);
    SwapExact(m, procs, s, p);
    assert PcOk(m, s, p);
    hide Word, Inc, Multiple;
    if s.ticket == s.pcs[p].word {
      assert t.ticket == Word(m, |t.taken|) by { WordNext(m, |s.taken|); }
      assert t.entered == t.taken[..|t.entered|];
    }
    forall q | 0 <= q < procs ensures PcOk(m, t, q) {
      assert PcOk(m, s, q);
    }
    forall n | t.released <= n < |t.taken| ensures TicketOk(t, n) {
      if n < |s.taken| {
        assert TicketOk(s, n);
      }
    }
  }

  lemma LoadKeeps(m: nat, procs: nat, s: Lock, p: nat)
    requires m > 0 && Inv(m, procs, s) && Enabled(s, p, Load)
    ensures Inv(m, procs, Next(m, s, p, Load))
  {
    hide Word, Inc;
    var t := Next(m, s, p, Load);
    forall q | 0 <= q < procs ensures PcOk(m, t, q) {
      assert PcOk(m, s, q) && PcOk(m, s, p);
    }
    forall n | t.released <= n < |t.taken| ensures TicketOk(t, n) {
      assert TicketOk(s, n);
    }
  }

  lemma StoreKeeps(m: nat, procs: nat, s: Lock, p: nat)
    requires m > 0 && Inv(m, procs, s) && Enabled(s, p, Store)
    ensures Inv(m, procs, Next(m, s, p, Store))
  {
    hide Word, Inc;
    var t := Next(m, s, p, Store);
    assert PcOk(m, s, p);
    assert t.start == Word(m, t.released) by { WordNext(m, s.released); }
    forall q | 0 <= q < procs ensures PcOk(m, t, q) {
      assert PcOk(m, s, q);
    }
    forall n | t.released <= n < |t.taken| ensures TicketOk(t, n) {
      assert TicketOk(s, n);
    }
  }

  lemma StepKeeps(m: nat, procs: nat, s: Lock, p: nat, a: Step)
    requires 0 < m && procs <= m && Inv(m, procs, s) && Enabled(s, p, a) && Safe(m, s, p, a)
    ensures Inv(m, procs, Next(m, s, p, a))
  {
    hide Inv, Next, Enabled;
    match a
    case Take => TakeKeeps(m, procs, s, p);
    case Enter => EnterKeeps(m, procs, s, p);
    case Read => ReadKeeps(m, procs, s, p);
    case Swap => SwapKeeps(m, procs, s, p);
    case Load => LoadKeeps(m, procs, s, p);
    case Store => StoreKeeps(m, procs, s, p);
  }

  lemma {:induction false} AlwaysInv(m: nat, procs: nat, s: Lock, k: nat)
    requires 0 < m && procs <= m && ReachesSafe(m, procs, s, k)
    ensures Inv(m, procs, s)
    decreases k
  {
    if k > 0 {
      var r, p, a :| ReachesSafe(m, procs, r, k - 1) && Enabled(r, p, a) && Safe(m, r, p, a) && s == Next(m, r, p, a);
      AlwaysInv(m, procs, r, k - 1);
      hide Inv, Next, Enabled;
      StepKeeps(m, procs, r, p, a);
    }
  }

  // ---- safety over whole runs ----

  ghost predicate Exclusive(s: Lock) {
    forall p, q :: 0 <= p < q < |s.pcs| ==> !(Inside(s.pcs[p]) && Inside(s.pcs[q]))
  }

  /** At most one process is inside, and processes have entered in the order they drew tickets. */
  lemma MutualExclusion(m: nat, procs: nat, s: Lock, k: nat)
    requires 0 < m && procs <= m && ReachesSafe(m, procs, s, k)
    ensures Exclusive(s) && s.entered <= s.taken
  {
    AlwaysInv(m, procs, s, k);
    forall p, q | 0 <= p < q < |s.pcs| ensures !(Inside(s.pcs[p]) && Inside(s.pcs[q])) {
      assert PcOk(m, s, p) && PcOk(m, s, q);
    }
  }

  /** A trylock that succeeds, however old its read, finds the lock free and nobody waiting. */
  lemma TryNeverOvertakes(m: nat, procs: nat, s: Lock, k: nat, p: nat)
    requires 0 < m && procs <= m && ReachesSafe(m, procs, s, k)
    requires Enabled(s, p, Swap) && Safe(m, s, p, Swap)
    ensures s.ticket == s.pcs[p].word ==> Free(s)
  {
    AlwaysInv(m, procs, s, k);
    SafeExact(m, procs, s, p);
  }

  /** One unsafe step is one too many: the process enters beside a holder or before a waiter. */
  lemma UnsafeOvertakes(m: nat, procs: nat, s: Lock, k: nat, p: nat)
    requires 0 < m && procs <= m && ReachesSafe(m, procs, s, k)
    requires Enabled(s, p, Swap) && !Safe(m, s, p, Swap)
    ensures !Free(s) && Inside(Next(m, s, p, Swap).pcs[p])
  {
    AlwaysInv(m, procs, s, k);
    SafeExact(m, procs, s, p);
  }

  // ---- when a trylock succeeds ----

  /** The other processes take k safe steps. */
  ghost predicate Meanwhile(m: nat, s: Lock, t: Lock, p: nat, k: nat)
    requires m > 0
    decreases k
  {
    if k == 0 then s == t
    else exists r, q, a ::
      Meanwhile(m, s, r, p, k - 1) && q != p && Enabled(r, q, a) && Safe(m, r, q, a) && t == Next(m, r, q, a)
  }

  lemma {:induction false} MeanwhileKeeps(m: nat, procs: nat, s: Lock, t: Lock, p: nat, k: nat)
    requires 0 < m && procs <= m && Inv(m, procs, s) && p < procs && Meanwhile(m, s, t, p, k)
    ensures Inv(m, procs, t) && t.pcs[p] == s.pcs[p] && |s.taken| <= |t.taken|
    decreases k
  {
    if k > 0 {
      var r, q, a :|
        Meanwhile(m, s, r, p, k - 1) && q != p && Enabled(r, q, a) && Safe(m, r, q, a) && t == Next(m, r, q, a);
      MeanwhileKeeps(m, procs, s, r, p, k - 1);
      hide Inv, Safe;
      StepKeeps(m, procs, r, q, a);
    }
  }

  lemma InvSizes(m: nat, procs: nat, s: Lock)
    requires m > 0 && Inv(m, procs, s)
    ensures |s.pcs| == procs && s.released <= |s.taken|
  {
  }

  /**
   * Whatever the others do after the read, the swap succeeds exactly when the tickets
   * drawn by then, less those given back at the read, are a multiple of the wrap-around.
   */
  lemma TryLater(m: nat, procs: nat, s: Lock, k: nat, p: nat, t: Lock, j: nat)
    requires 0 < m && procs <= m && ReachesSafe(m, procs, s, k) && Enabled(s, p, Read)
    requires Meanwhile(m, Next(m, s, p, Read), t, p, j)
    ensures Enabled(t, p, Swap) && s.released <= |t.taken|
    ensures Inside(Next(m, t, p, Swap).pcs[p]) <==> Multiple(m, |t.taken| - s.released)
  {
    hide ReachesSafe, Meanwhile, Multiple, Inv;
    AlwaysInv(m, procs, s, k);
    InvSizes(m, procs, s);
    ReadKeeps(m, procs, s, p);
    MeanwhileKeeps(m, procs, Next(m, s, p, Read), t, p, j);
    InvSizes(m, procs, t);
    SwapExact(m, procs, t, p);
  }

  /** A trylock without interruption succeeds exactly when the lock is free and nobody waits; otherwise it changes nothing. */
  lemma TryExact(m: nat, procs: nat, s: Lock, k: nat, p: nat)
    requires 0 < m && procs <= m && ReachesSafe(m, procs, s, k) && Enabled(s, p, Read)
    ensures var t := Next(m, s, p, Read);
            && Enabled(t, p, Swap) && (Inside(Next(m, t, p, Swap).pcs[p]) <==> Free(s))
            && (!Free(s) ==> Next(m, t, p, Swap) == s)
  {
    AlwaysInv(m, procs, s, k);
    assert Meanwhile(m, Next(m, s, p, Read), Next(m, s, p, Read), p, 0);
    TryLater(m, procs, s, k, p, Next(m, s, p, Read), 0);
    OthersOut(m, procs, s, p);
    FreeExact(m, procs, s);
  }

  /** `t` is reached from `s` by `j` steps of `p` alone. */
  ghost predicate Alone(m: nat, s: Lock, t: Lock, p: nat, j: nat)
    requires m > 0
    decreases j
  {
    if j == 0 then s == t else exists a :: Enabled(s, p, a) && Alone(m, Next(m, s, p, a), t, p, j - 1)
  }

  lemma AloneNext(m: nat, s: Lock, t: Lock, p: nat, j: nat, a: Step)
    requires m > 0 && Enabled(s, p, a) && Alone(m, Next(m, s, p, a), t, p, j)
    ensures Alone(m, s, t, p, j + 1)
  {
  }

  /** A holder gives the lock back in its own next steps. */
  lemma Unlocks(m: nat, s: Lock, p: nat) returns (t: Lock, j: nat)
    requires m > 0 && p < |s.pcs| && Inside(s.pcs[p])
    ensures j <= 2 && Alone(m, s, t, p, j)
    ensures t.released == s.released + 1 && t.taken == s.taken && t.entered == s.entered && t.pcs == s.pcs[p := Out]
  {
    hide Inc;
    if s.pcs[p].Leaving? {
      t, j := Next(m, s, p, Store), 1;
      assert Alone(m, t, t, p, 0);
      AloneNext(m, s, t, p, 0, Store);
    } else {
      var r := Next(m, s, p, Load);
      t, j := Next(m, r, p, Store), 2;
      assert Alone(m, t, t, p, 0);
      AloneNext(m, r, t, p, 0, Store);
      AloneNext(m, s, t, p, 1, Load);
    }
  }

  /**
   * A lock that is not free never hangs: the process with the oldest ticket out is
   * inside or can enter, and gives the lock back in at most three steps of its own.
   */
  lemma NeverHangs(m: nat, procs: nat, s: Lock, k: nat) returns (p: nat, t: Lock, j: nat)
    requires 0 < m && procs <= m && ReachesSafe(m, procs, s, k) && !Free(s)
    ensures s.released < |s.taken| && p == s.taken[s.released] < procs && j <= 3 && Alone(m, s, t, p, j)
    ensures t.released == s.released + 1 && t.taken == s.taken && t.pcs == s.pcs[p := Out]
  {
    hide ReachesSafe, Word, Inc, Alone;
    AlwaysInv(m, procs, s, k);
    FreeExact(m, procs, s);
    assert TicketOk(s, s.released);
    p := s.taken[s.released];
    if Inside(s.pcs[p]) {
      t, j := Unlocks(m, s, p);
    } else {
      EnterExact(m, procs, s, p);
      var r := Next(m, s, p, Enter);
      t, j := Unlocks(m, r, p);
      AloneNext(m, s, t, p, j, Enter);
      j := j + 1;
    }
  }

  // ---- the wrap-around ----

  lemma Steps(m: nat, procs: nat, r: Lock, k: nat, p: nat, a: Step)
    requires m > 0 && Reaches(m, procs, r, k) && Enabled(r, p, a)
    ensures Reaches(m, procs, Next(m, r, p, a), k + 1)
  {
  }

  function Zeros(j: nat): seq<nat> {
    seq(j, _ => 0)
  }

  /** Process 1 has looked at the counter; since then process 0 has locked and unlocked j times. */
  function Round(m: nat, j: nat): Lock
    requires m > 0
  {
    Lock(Word(m, j), Word(m, j), [Out, Tried(0, 0)], Zeros(j), Zeros(j), j)
  }

  /** Process 0 is inside once more. */
  function RoundInside(m: nat, j: nat): Lock
    requires m > 0
  {
    Lock(Word(m, j), Word(m, j + 1), [Holding(j), Tried(0, 0)], Zeros(j + 1), Zeros(j + 1), j)
  }

  lemma EnterRound(m: nat, j: nat, k: nat)
    requires m > 0 && Reaches(m, 2, Round(m, j), k)
    ensures Reaches(m, 2, RoundInside(m, j), k + 2)
  {
    hide Reaches;
    var r0 := Round(m, j);
    Steps(m, 2, r0, k, 0, Take);
    var r1 := Next(m, r0, 0, Take);
    Steps(m, 2, r1, k + 1, 0, Enter);
    assert Next(m, r1, 0, Enter) == RoundInside(m, j);
  }

  lemma LeaveRound(m: nat, j: nat, k: nat)
    requires m > 0 && Reaches(m, 2, RoundInside(m, j), k)
    ensures Reaches(m, 2, Round(m, j + 1), k + 2)
  {
    hide Reaches;
    var r0 := RoundInside(m, j);
    Steps(m, 2, r0, k, 0, Load);
    var r1 := Next(m, r0, 0, Load);
    Steps(m, 2, r1, k + 1, 0, Store);
    assert Next(m, r1, 0, Store) == Round(m, j + 1);
  }

  lemma RoundZero(m: nat)
    requires m > 0
    ensures Reaches(m, 2, Round(m, 0), 1)
  {
    var r := Lock(0, 0, seq(2, _ => Out), [], [], 0);
    assert Reaches(m, 2, r, 0);
    hide Reaches;
    Steps(m, 2, r, 0, 1, Read);
    assert Next(m, r, 1, Read) == Round(m, 0);
  }

  lemma {:induction false} RoundReached(m: nat, j: nat)
    requires m > 0
    ensures Reaches(m, 2, Round(m, j), 1 + 4 * j)
  {
    hide Reaches, Round, RoundInside;
    if j == 0 {
      RoundZero(m);
    } else {
      RoundReached(m, j - 1);
      EnterRound(m, j - 1, 1 + 4 * (j - 1));
      LeaveRound(m, j - 1, 3 + 4 * (j - 1));
    }
  }

  /** Without the bound exclusion fails, whatever the width: a swap m tickets after its read joins a holder. */
  lemma WrapBreaks(m: nat)
    requires m > 0
    ensures exists s, k :: Reaches(m, 2, s, k) && !Exclusive(s)
  {
    hide Reaches;
    RoundReached(m, m - 1);
    var k := 1 + 4 * (m - 1);
    EnterRound(m, m - 1, k);
    var r := RoundInside(m, m - 1);
    WordPeriod(m, 0);
    assert r.ticket == 0;
    Steps(m, 2, r, k + 2, 1, Swap);
    var s := Next(m, r, 1, Swap);
    assert Inside(s.pcs[0]) && Inside(s.pcs[1]);
    assert Reaches(m, 2, s, k + 3) && !Exclusive(s);
  }
}
