/**
 * The path of a request target, as the request-line machine of
 * `src/http/parse.c` reads it after its first slash: where its arguments and its
 * extension are, and the marks it leaves for later stages.
 */
module HttpTarget {
  import opened HttpLine
  import opened HttpHeaderRoundTrip

  // ---------------------------------------------------------------- paths

  /**
   * A path after its first slash. It may have spaces inside, as long as no 'H'
   * follows one, which would be read as the start of the version.
   */
  predicate PathOk(rest: string) {
    AllValue(rest) && forall i :: 0 <= i < |rest| && rest[i] == ' ' ==> i + 1 < |rest| && rest[i + 1] != 'H'
  }

  /** Just after a slash, pluses aside. */
  predicate AtStart(rest: string, i: nat)
    requires i <= |rest|
  {
    i == 0 || rest[i - 1] == '/' || (rest[i - 1] == '+' && AtStart(rest, i - 1))
  }

  /** A byte after which the path is not looked at closely any more. */
  predicate Stops(rest: string, i: nat)
    requires i < |rest|
  {
    rest[i] in "%?#" || (rest[i] in "./" && AtStart(rest, i))
  }

  /** The first such byte, or the end. */
  function StopFrom(rest: string, i: nat): (k: nat)
    requires i <= |rest|
    ensures i <= k <= |rest| && (forall j :: i <= j < k ==> !Stops(rest, j)) && (k < |rest| ==> Stops(rest, k))
    decreases |rest| - i
  {
    if i == |rest| || Stops(rest, i) then i else StopFrom(rest, i + 1)
  }

  function StopAt(rest: string): (k: nat)
    ensures k <= |rest| && (forall j :: 0 <= j < k ==> !Stops(rest, j)) && (k < |rest| ==> Stops(rest, k))
  {
    StopFrom(rest, 0)
  }

  /** The last dot of the last segment of the first m bytes is at d. */
  predicate DotAt(rest: string, m: nat, d: nat)
    requires m <= |rest|
  {
    d < m && rest[d] == '.' && forall j :: d < j < m ==> rest[j] != '.' && rest[j] != '/'
  }

  /** There is none. */
  predicate NoDot(rest: string, m: nat)
    requires m <= |rest|
  {
    forall d :: 0 <= d < m && rest[d] == '.' ==> exists j :: d < j < m && rest[j] == '/'
  }

  predicate Has(rest: string, m: nat, c: char)
    requires m <= |rest|
  {
    exists j :: 0 <= j < m && rest[j] == c
  }

  /** A space that another byte follows. */
  predicate SpaceInside(rest: string, m: nat)
    requires m <= |rest|
  {
    exists j :: 0 <= j && j + 1 < m && rest[j] == ' ' && rest[j + 1] != ' '
  }

  /** Just past the last dot of the last segment, or nowhere; as before (e0) when there was neither dot nor slash. */
  ghost predicate ExtenNoted(e0: int, e: int, q: nat, rest: string, m: nat)
    requires m <= |rest|
  {
    && (forall d: nat :: DotAt(rest, m, d) ==> e == q + d + 1)
    && (NoDot(rest, m) ==> e == if Has(rest, m, '/') then NULL else e0)
  }

  function Min(a: nat, b: nat): nat { if a < b then a else b }

  /** What is recorded of the first i bytes of a path that starts at q. */
  ghost predicate Noted(r0: Line, r: Line, q: nat, rest: string, i: nat)
    requires i <= |rest|
  {
    var k := StopAt(rest);
    var m := Min(i, k);
    && r.head == r0.head && r.proto == r0.proto
    && r.target.schema == r0.target.schema && r.target.host == r0.target.host && r.target.port == r0.target.port
    && r.target.uri.p == r0.target.uri.p
    && r.target.args == (if k < i && rest[k] == '?' then q + k + 1 else r0.target.args)
    && ExtenNoted(r0.target.exten.p, r.target.exten.p, q, rest, m)
    && (r.flags.plusInUri <==> r0.flags.plusInUri || Has(rest, m, '+'))
    && (r.flags.quotedUri <==> r0.flags.quotedUri || (k < i && rest[k] == '%'))
    && (r.flags.complexUri <==> r0.flags.complexUri || Has(rest, i, '#') || (k < i && rest[k] in "./"))
  }

  ghost predicate SpaceNoted(r0: Line, r: Line, rest: string, i: nat)
    requires i <= |rest|
  {
    r.flags.spaceInUri <==> r0.flags.spaceInUri || SpaceInside(rest, i)
  }

  /** The state after i bytes, the last of them no space. */
  function PathState(rest: string, i: nat): State
    requires i <= |rest|
  {
    if StopAt(rest) < i then Uri else if AtStart(rest, i) then AfterSlashInUri else CheckUri
  }

  // ---------------------------------------------------------------- facts about prefixes

  lemma HasNext(rest: string, m: nat, c: char)
    requires m < |rest|
    ensures Has(rest, m + 1, c) <==> Has(rest, m, c) || rest[m] == c
  {
  }

  lemma NoDotNext(rest: string, m: nat)
    requires m < |rest|
    ensures rest[m] == '/' ==> NoDot(rest, m + 1)
    ensures rest[m] == '.' ==> !NoDot(rest, m + 1)
    ensures rest[m] != '/' && rest[m] != '.' ==> (NoDot(rest, m + 1) <==> NoDot(rest, m))
  {
    if rest[m] != '/' && rest[m] != '.' {
      if NoDot(rest, m + 1) {
        forall d | 0 <= d < m && rest[d] == '.' ensures exists j :: d < j < m && rest[j] == '/' {
          var j :| d < j < m + 1 && rest[j] == '/';
          assert j < m;
        }
      }
    }
  }

  lemma ExtenNext(e0: int, e: int, q: nat, rest: string, m: nat)
    requires m < |rest| && ExtenNoted(e0, e, q, rest, m)
    ensures rest[m] == '/' ==> ExtenNoted(e0, NULL, q, rest, m + 1)
    ensures rest[m] == '.' ==> ExtenNoted(e0, q + m + 1, q, rest, m + 1)
    ensures rest[m] != '/' && rest[m] != '.' ==> ExtenNoted(e0, e, q, rest, m + 1)
  {
    NoDotNext(rest, m);
    HasNext(rest, m, '/');
    if rest[m] != '/' && rest[m] != '.' {
      var n := m + 1;
      forall d: nat | DotAt(rest, n, d) ensures DotAt(rest, m, d) {
      }
    }
  }

  lemma SpaceNext(rest: string, m: nat)
    requires m < |rest|
    ensures SpaceInside(rest, m + 1) <==> SpaceInside(rest, m) || (m > 0 && rest[m - 1] == ' ' && rest[m] != ' ')
  {
    if m > 0 && rest[m - 1] == ' ' && rest[m] != ' ' {
      var j := m - 1;
      assert 0 <= j && j + 1 < m + 1 && rest[j] == ' ' && rest[j + 1] != ' ';
    }
  }

  /** Exactly a path with a space in it. */
  lemma {:induction false} SpaceExact(rest: string, i: nat)
    requires PathOk(rest) && i <= |rest| && (i > 0 ==> rest[i - 1] != ' ')
    ensures SpaceInside(rest, i) <==> Has(rest, i, ' ')
  {
    if Has(rest, i, ' ') {
      var j :| 0 <= j < i && rest[j] == ' ';
      var k := j;
      while rest[k + 1] == ' '
        invariant j <= k && k + 1 < i && rest[k] == ' '
        decreases i - k
      {
        k := k + 1;
      }
    }
  }

  // ---------------------------------------------------------------- reading a path

  /** One byte that is no space, read in the state that the bytes before it lead to. */
  lemma CloseStep(buf: string, r0: Line, r: Line, q: nat, rest: string, i: nat)
    requires i < |rest| && i < StopAt(rest) && q + i < |buf| && buf[q + i] == rest[i] && ValueChar(rest[i]) && rest[i] != ' '
    requires Noted(r0, r, q, rest, i)
    ensures var o := Step(buf, PathState(rest, i), r, q + i);
            && o.Next? && o.state == PathState(rest, i + 1) && o.r.flags.spaceInUri == r.flags.spaceInUri
            && Noted(r0, o.r, q, rest, i + 1)
  {
    hide StopAt, Has, ExtenNoted, SpaceInside;
    var c, o := rest[i], Step(buf, PathState(rest, i), r, q + i);
    assert !Stops(rest, i);
    HasNext(rest, i, '+');
    HasNext(rest, i, '#');
    ExtenNext(r0.target.exten.p, r.target.exten.p, q, rest, i);
  }

  lemma StopStep(buf: string, r0: Line, r: Line, q: nat, rest: string, i: nat)
    requires i < |rest| && i == StopAt(rest) && q + i < |buf| && buf[q + i] == rest[i] && ValueChar(rest[i])
    requires Noted(r0, r, q, rest, i)
    ensures var o := Step(buf, PathState(rest, i), r, q + i);
            && o.Next? && o.state == PathState(rest, i + 1) && o.r.flags.spaceInUri == r.flags.spaceInUri
            && Noted(r0, o.r, q, rest, i + 1)
  {
    hide StopAt, Has, ExtenNoted, SpaceInside;
    assert Stops(rest, i);
    HasNext(rest, i, '#');
  }

  lemma PastStep(buf: string, r0: Line, r: Line, q: nat, rest: string, i: nat)
    requires i < |rest| && StopAt(rest) < i && q + i < |buf| && buf[q + i] == rest[i] && ValueChar(rest[i]) && rest[i] != ' '
    requires Noted(r0, r, q, rest, i)
    ensures var o := Step(buf, PathState(rest, i), r, q + i);
            && o.Next? && o.state == PathState(rest, i + 1) && o.r.flags.spaceInUri == r.flags.spaceInUri
            && Noted(r0, o.r, q, rest, i + 1)
  {
    hide StopAt, Has, ExtenNoted, SpaceInside;
    HasNext(rest, i, '#');
  }

  lemma PathStep(buf: string, r0: Line, r: Line, q: nat, rest: string, i: nat)
    requires i < |rest| && q + i < |buf| && buf[q + i] == rest[i] && ValueChar(rest[i]) && rest[i] != ' '
    requires Noted(r0, r, q, rest, i)
    ensures var o := Step(buf, PathState(rest, i), r, q + i);
            && o.Next? && o.state == PathState(rest, i + 1) && o.r.flags.spaceInUri == r.flags.spaceInUri
            && Noted(r0, o.r, q, rest, i + 1)
  {
    hide Step, PathState, Noted;
    if i < StopAt(rest) {
      CloseStep(buf, r0, r, q, rest, i);
    } else if i == StopAt(rest) {
      StopStep(buf, r0, r, q, rest, i);
    } else {
      PastStep(buf, r0, r, q, rest, i);
    }
  }

  /** The state of spaces after i bytes of the path. */
  function SpaceState(rest: string, i: nat): State
    requires i <= |rest|
  {
    if StopAt(rest) < i then Http09 else CheckUriHttp09
  }

  lemma SpaceKeeps(r0: Line, r: Line, r': Line, q: nat, rest: string, i: nat)
    requires i < |rest| && rest[i] == ' ' && Noted(r0, r, q, rest, i)
    requires r' == r.(target := r.target.(uri := r'.target.uri)) && r'.target.uri.p == r.target.uri.p
    ensures Noted(r0, r', q, rest, i + 1)
  {
    hide StopAt, Has, ExtenNoted, SpaceInside;
    NotStop(rest, i);
    HasNext(rest, i, '+');
    HasNext(rest, i, '#');
    if i < StopAt(rest) {
      ExtenNext(r0.target.exten.p, r.target.exten.p, q, rest, i);
    }
  }

  /** A space adds nothing but an end of the URI that the next byte takes back. */
  lemma SpaceStep(buf: string, r0: Line, r: Line, q: nat, rest: string, i: nat)
    requires i < |rest| && q + i < |buf| && buf[q + i] == rest[i] == ' ' && Noted(r0, r, q, rest, i)
    ensures var o := Step(buf, PathState(rest, i), r, q + i);
            && o.Next? && o.state == SpaceState(rest, i + 1) && o.r.flags == r.flags
            && Noted(r0, o.r, q, rest, i + 1)
    ensures Step(buf, SpaceState(rest, i), r, q + i) == Next(SpaceState(rest, i + 1), r) && Noted(r0, r, q, rest, i + 1)
  {
    hide StopAt, Noted;
    NotStop(rest, i);
    SpaceKeeps(r0, r, r, q, rest, i);
    SpaceKeeps(r0, r, EndUri(r, q + i), q, rest, i);
  }

  lemma NotStop(rest: string, i: nat)
    requires i < |rest| && rest[i] == ' '
    ensures StopAt(rest) != i
  {
  }

  lemma BackStep(buf: string, r: Line, q: nat, rest: string, i: nat)
    requires 0 < i < |rest| && q + i < |buf| && buf[q + i] == rest[i]
    requires ValueChar(rest[i]) && rest[i] != ' ' && rest[i] != 'H' && rest[i - 1] == ' '
    ensures Step(buf, SpaceState(rest, i), r, q + i) == Again(PathState(rest, i), r.(flags := r.flags.(spaceInUri := true)))
  {
    hide StopAt;
  }

  /** One step of the machine, as an equation between runs. */
  lemma LineStep(buf: string, state: State, r: Line, p: nat)
    requires p < |buf|
    ensures var o := Step(buf, state, r, p);
            && (o.Next? ==> Run(buf, state, r, p) == Run(buf, o.state, o.r, p + 1))
            && (o.Again? ==> Run(buf, state, r, p) == Run(buf, o.state, o.r, p))
            && (o.Done? ==> Run(buf, state, r, p) == Ended(Complete(o.r).0, Complete(o.r).1, p + 1))
            && (o.Fail? ==> Run(buf, state, r, p) == Refused(o.code, o.r))
  {
    hide Step, Complete;
  }

  /** The state after i bytes. */
  function StateAt(rest: string, i: nat): State
    requires i <= |rest|
  {
    if i > 0 && rest[i - 1] == ' ' then SpaceState(rest, i) else PathState(rest, i)
  }

  lemma ReadByte(buf: string, r0: Line, r: Line, q: nat, rest: string, i: nat) returns (r': Line)
    requires PathOk(rest) && i < |rest| && q + i < |buf| && buf[q + i] == rest[i]
    requires Noted(r0, r, q, rest, i) && SpaceNoted(r0, r, rest, i)
    ensures Run(buf, StateAt(rest, i), r, q + i) == Run(buf, StateAt(rest, i + 1), r', q + i + 1)
    ensures Noted(r0, r', q, rest, i + 1) && SpaceNoted(r0, r', rest, i + 1)
  {
    hide Run, Step, Noted, SpaceInside, PathState, SpaceState;
    SpaceNext(rest, i);
    LineStep(buf, StateAt(rest, i), r, q + i);
    if rest[i] == ' ' {
      SpaceStep(buf, r0, r, q, rest, i);
      r' := Step(buf, StateAt(rest, i), r, q + i).r;
    } else if i > 0 && rest[i - 1] == ' ' {
      BackStep(buf, r, q, rest, i);
      var r1 := r.(flags := r.flags.(spaceInUri := true));
      assert Noted(r0, r1, q, rest, i) by { FlagApart(r0, r, r1, q, rest, i); }
      PathStep(buf, r0, r1, q, rest, i);
      LineStep(buf, PathState(rest, i), r1, q + i);
      r' := Step(buf, PathState(rest, i), r1, q + i).r;
    } else {
      PathStep(buf, r0, r, q, rest, i);
      r' := Step(buf, PathState(rest, i), r, q + i).r;
    }
  }

  lemma FlagApart(r0: Line, r: Line, r': Line, q: nat, rest: string, i: nat)
    requires i <= |rest| && Noted(r0, r, q, rest, i) && r' == r.(flags := r.flags.(spaceInUri := true))
    ensures Noted(r0, r', q, rest, i)
  {
  }

  /** A whole path. */
  lemma {:induction false} ReadPath(buf: string, r0: Line, r: Line, q: nat, rest: string, i: nat) returns (r': Line)
    requires PathOk(rest) && Here(buf, q, rest) && i <= |rest| && Noted(r0, r, q, rest, i) && SpaceNoted(r0, r, rest, i)
    ensures Run(buf, StateAt(rest, i), r, q + i) == Run(buf, StateAt(rest, |rest|), r', q + |rest|)
    ensures Noted(r0, r', q, rest, |rest|) && SpaceNoted(r0, r', rest, |rest|)
    decreases |rest| - i
  {
    hide Run, Noted, SpaceNoted, Here, StateAt;
    if i == |rest| {
      r' := r;
    } else {
      HereAt(buf, q, rest, i);
      var r1 := ReadByte(buf, r0, r, q, rest, i);
      r' := ReadPath(buf, r0, r1, q, rest, i + 1);
    }
  }

  lemma NothingNoted(r: Line, q: nat, rest: string)
    ensures Noted(r, r, q, rest, 0) && SpaceNoted(r, r, rest, 0) && StateAt(rest, 0) == AfterSlashInUri
  {
  }

  /** Arguments start after the first '?' exactly when no earlier byte stops the close look. */
  lemma ArgsExact(rest: string, a: nat)
    requires a < |rest| && rest[a] == '?' && forall i :: 0 <= i < a ==> rest[i] != '?'
    ensures (StopAt(rest) < |rest| && rest[StopAt(rest)] == '?') <==> forall i :: 0 <= i < a ==> !Stops(rest, i)
  {
    assert Stops(rest, a);
  }

  /** A path has at most one extension, and has one unless no dot is left after the last slash. */
  lemma {:induction false} DotOrNone(rest: string, m: nat) returns (d: nat)
    requires m <= |rest|
    ensures DotAt(rest, m, d) <==> !NoDot(rest, m)
    ensures forall e: nat :: DotAt(rest, m, e) ==> e == d
  {
    if m == 0 {
      d := 0;
    } else {
      var n := m - 1;
      NoDotNext(rest, n);
      d := DotOrNone(rest, n);
      if rest[n] == '.' {
        d := n;
      } else if rest[n] != '/' {
        forall e: nat | DotAt(rest, m, e) ensures DotAt(rest, n, e) {
        }
      }
    }
  }
}
