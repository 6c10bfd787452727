/**
 * One pass of the log server over a slot, src/logger.c, when the owner does not
 * interfere: it reads everything and frees the slot of an owner that is gone.
 */
module LogPass {
  import opened LogLife

  /** `t` is reached from `s` by `j` steps of the server alone. */
  ghost predicate ServerRuns(s: Life, t: Life, j: nat)
    decreases j
  {
    if j == 0 then s == t
    else Indexed(s) && exists a :: OfServer(a) && Enabled(s, a) && ServerRuns(Next(s, a), t, j - 1)
  }

  predicate OfServer(a: Step) {
    a.Begin? || a.LoadStart? || a.LoadEnd? || a.Take? || a.Test? || a.Free? || a.Clear?
  }

  lemma ServerNext(s: Life, t: Life, j: nat, a: Step)
    requires Indexed(s) && OfServer(a) && Enabled(s, a) && ServerRuns(Next(s, a), t, j)
    ensures ServerRuns(s, t, j + 1)
  {
  }

  /** What a pass leaves: every record read, in order, and the slot free if its owner was gone. */
  ghost predicate Passed(s: Life, t: Life)
    requires Indexed(s)
  {
    && Indexed(t) && t.server == Idle && t.start == t.end == s.end && t.owner == s.owner && t.written == s.written
    && t.read == s.read + Contents(s.cells, s.start, s.end)
    && t.pid == (if s.needInit then 0 else s.pid) && !t.needInit
  }

  lemma PassEnds(s: Life) returns (t: Life, j: nat)
    requires Indexed(s) && s.server == Emptied && s.start == s.end
    ensures ServerRuns(s, t, j) && Passed(s, t)
  {
    var s1 := Next(s, Test);
    EmptyContents(s.cells, s.start, s.end);
    assert s.read + [] == s.read;
    if s.needInit {
      var s2 := Next(s1, Free);
      t, j := Next(s2, Clear), 3;
      assert ServerRuns(t, t, 0);
      ServerNext(s2, t, 0, Clear);
      ServerNext(s1, t, 1, Free);
      ServerNext(s, t, 2, Test);
    } else {
      t, j := s1, 1;
      assert ServerRuns(t, t, 0);
      ServerNext(s, t, 0, Test);
    }
  }

  /** One read: two loads that find a record, and the copy. */
  function AfterRead(s: Life): Life
    requires Indexed(s) && s.server == Opening && s.start != s.end
  {
    Next(Next(Next(s, LoadStart), LoadEnd), Take)
  }

  lemma ReadsOne(s: Life, t: Life)
    requires Indexed(s) && s.server == Opening && s.start != s.end
    ensures var r := AfterRead(s);
            && Indexed(r) && r.server == Opening && Span(|r.cells|, r.start, r.end) < Span(|s.cells|, s.start, s.end)
            && (Passed(r, t) ==> Passed(s, t))
  {
    var r := AfterRead(s);
    TakeContents(s.cells, s.start, s.end);
    hide Contents;
    var rest := Contents(r.cells, r.start, r.end);
    assert s.read + ([s.cells[s.start]] + rest) == r.read + rest;
  }

  lemma ReadsThen(s: Life, t: Life, j: nat)
    requires Indexed(s) && s.server == Opening && s.start != s.end && ServerRuns(AfterRead(s), t, j)
    ensures ServerRuns(s, t, j + 3)
  {
    hide ServerRuns;
    var s1 := Next(s, LoadStart);
    var s2 := Next(s1, LoadEnd);
    ServerNext(s2, t, j, Take);
    ServerNext(s1, t, j + 1, LoadEnd);
    ServerNext(s, t, j + 2, LoadStart);
  }

  lemma FindsNone(s: Life) returns (t: Life, j: nat)
    requires Indexed(s) && s.server == Opening && s.start == s.end
    ensures ServerRuns(s, t, j) && Passed(s, t)
  {
    hide ServerRuns, Contents;
    var s1 := Next(s, LoadStart);
    var s2 := Next(s1, LoadEnd);
    t, j := PassEnds(s2);
    ServerNext(s1, t, j, LoadEnd);
    ServerNext(s, t, j + 1, LoadStart);
    j := j + 2;
  }

  /** The server alone, from any point between two reads on. */
  lemma {:induction false} PassOn(s: Life) returns (t: Life, j: nat)
    requires Indexed(s) && s.server == Opening
    ensures ServerRuns(s, t, j) && Passed(s, t)
    decreases Span(|s.cells|, s.start, s.end)
  {
    hide ServerRuns, Passed, AfterRead;
    if s.start == s.end {
      t, j := FindsNone(s);
    } else {
      ReadsOne(s, s);
      t, j := PassOn(AfterRead(s));
      ReadsOne(s, t);
      ReadsThen(s, t, j);
      j := j + 3;
    }
  }

  /**
   * A pass over a slot in use that the owner does not touch meanwhile ends with every
   * record read, in order, and the slot free exactly when need_init was set.
   */
  lemma WholePass(s: Life) returns (t: Life, j: nat)
    requires Indexed(s) && s.server == Idle && s.pid != 0
    ensures ServerRuns(s, t, j) && Passed(s, t) && (t.pid == 0 <==> s.needInit)
  {
    hide ServerRuns, Contents;
    t, j := PassOn(Next(s, Begin));
    ServerNext(s, t, j, Begin);
    j := j + 1;
  }
}
