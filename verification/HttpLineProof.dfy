/**
 * What the request-line machine guarantees: independence from how the bytes
 * were split, and where the recorded spans lie.
 */
module HttpLineProof {
  import opened HttpLine

  // ---------------------------------------------------------------- splitting the input

  /** A step looks at no byte beyond the current one. */
  lemma StepLocal(buf: string, m: nat, state: State, r: Line, p: nat)
    requires p < m <= |buf|
    ensures Step(buf[..m], state, r, p) == Step(buf, state, r, p)
  {
    assert buf[..m][p] == buf[p];
    assert Slice(buf[..m], r.head.methodName.p, p) == Slice(buf, r.head.methodName.p, p);
  }

  /**
   * Parsing the first `m` bytes and then resuming with the saved state gives the
   * same answer as parsing everything in one call, backed-up characters included.
   */
  lemma {:induction false} SplitLine(buf: string, m: nat, state: State, r: Line, p: nat)
    requires p <= m <= |buf|
    ensures match Run(buf[..m], state, r, p)
            case More(state', r') => Run(buf, state, r, p) == Run(buf, state', r', m)
            case early => Run(buf, state, r, p) == early
    decreases m - p, MayReread(state)
  {
    hide Step, Complete;
    if p < m {
      StepLocal(buf, m, state, r, p);
      match Step(buf, state, r, p)
      case Next(state', r') => SplitLine(buf, m, state', r', p + 1);
      case Again(state', r') =>
        SplitLine(buf, m, state', r', p);
      case Done(_) =>
      case Fail(_, _) =>
    }
  }

  /** Parsing after each of a list of receives that end at `cuts`, stopping at the first answer. */
  function Feed(buf: string, cuts: seq<nat>, state: State, r: Line, p: nat): Parsed
    requires p <= |buf| && (forall i :: 0 <= i < |cuts| ==> p <= cuts[i] <= |buf|)
    requires forall i, j :: 0 <= i < j < |cuts| ==> cuts[i] <= cuts[j]
    decreases |cuts|
  {
    if cuts == [] then More(state, r)
    else
      match Run(buf[..cuts[0]], state, r, p)
      case More(state', r') => Feed(buf, cuts[1..], state', r', cuts[0])
      case early => early
  }

  /** However the receives cut the bytes, the outcome is that of one call over all of them. */
  lemma {:induction false} FeedIsRun(buf: string, cuts: seq<nat>, state: State, r: Line, p: nat)
    requires p <= |buf| && (forall i :: 0 <= i < |cuts| ==> p <= cuts[i] <= |buf|)
    requires forall i, j :: 0 <= i < j < |cuts| ==> cuts[i] <= cuts[j]
    requires cuts != []
    ensures Feed(buf, cuts, state, r, p) == Run(buf[..cuts[|cuts| - 1]], state, r, p)
    decreases |cuts|
  {
    hide Run;
    var m, n := cuts[0], cuts[|cuts| - 1];
    SplitLine(buf[..n], m, state, r, p);
    assert buf[..n][..m] == buf[..m];
    match Run(buf[..m], state, r, p)
    case More(state', r') =>
      if |cuts| == 1 {
        assert Run(buf[..n], state', r', m) == More(state', r');
      } else {
        FeedIsRun(buf, cuts[1..], state', r', m);
      }
    case _ =>
  }

  // ---------------------------------------------------------------- where the spans lie

  ghost predicate Blank(buf: string, a: nat, b: nat)
    requires b <= |buf|
  {
    forall i :: a <= i < b ==> buf[i] == '\r' || buf[i] == '\n'
  }

  ghost predicate NoLf(buf: string, a: int, b: nat)
    requires 0 <= a && b <= |buf|
  {
    forall i :: a <= i < b ==> buf[i] != '\n'
  }

  /** Of the fields http_request_handler resets before the first byte, those the spans depend on. */
  ghost predicate Fresh(r: Line) { r.target.exten.p == NULL && r.proto.protocol.p == NULL }

  /** The line started at the method's first byte, after blank lines from `s` on; no LF has come since. */
  ghost predicate InLine(buf: string, s: nat, h: Front, p: nat)
    requires p <= |buf|
  {
    && s <= h.methodName.p < p && h.requestLine.p == h.methodName.p
    && Blank(buf, s, h.methodName.p) && NoLf(buf, h.methodName.p, p)
  }

  function MethodEnd(h: Front): int { h.methodName.p + h.methodName.len }

  function UriEnd(t: Target): int { t.uri.p + t.uri.len }

  /** The method's name has been read and is one of the known ones. */
  ghost predicate MethodKnown(buf: string, h: Front) {
    && 0 <= h.methodName.p && 1 <= h.methodName.len && MethodEnd(h) <= |buf|
    && h.verb != Unknown && h.verb == MethodOf(buf[h.methodName.p..MethodEnd(h)])
  }

  /** The slash that a request for a bare host has for its URI. */
  ghost predicate SchemaKnown(buf: string, h: Front, t: Target, p: nat) {
    && MethodEnd(h) < t.schema.p && 1 <= t.schema.len && t.schema.p + t.schema.len + 1 < p <= |buf|
    && 0 <= t.schema.p && buf[t.schema.p + t.schema.len + 1] == '/'
  }

  ghost predicate UriStarted(buf: string, h: Front, t: Target, p: nat) {
    && MethodEnd(h) < t.uri.p < p <= |buf| && 0 <= t.uri.p && buf[t.uri.p] == '/'
    && (t.exten.p == NULL || t.uri.p < t.exten.p <= p)
  }

  ghost predicate UriKnown(buf: string, h: Front, t: Target, p: nat) {
    && MethodEnd(h) < t.uri.p && 1 <= t.uri.len && UriEnd(t) <= p <= |buf| && 0 <= t.uri.p && buf[t.uri.p] == '/'
    && (t.exten.p == NULL || t.uri.p < t.exten.p <= UriEnd(t))
  }

  ghost predicate ProtocolKnown(t: Target, v: Proto, p: nat) {
    UriEnd(t) <= v.protocol.p && 1 <= v.protocol.len && v.protocol.p + v.protocol.len <= p
  }

  predicate BeforeUri(state: State) {
    state in {SpacesBeforeUri, Schema, SchemaSlash, SchemaSlashSlash, HostStart, Host, HostEnd, HostIpLiteral, Port}
  }

  predicate AfterSchema(state: State) {
    state in {SchemaSlashSlash, HostStart, Host, HostEnd, HostIpLiteral, Port}
  }

  predicate InsideUri(state: State) { state in {AfterSlashInUri, CheckUri, Uri} }

  predicate SpacesAfterUri(state: State) { state in {HostHttp09, CheckUriHttp09, Http09} }

  predicate InProtocol(state: State) {
    state in {HttpH, HttpHT, HttpHTT, HttpHTTP, FirstMajorDigit, MajorDigit, FirstMinorDigit, MinorDigit}
  }

  /** What is known in each state before the byte at `p` is read. */
  ghost predicate Located(buf: string, s: nat, state: State, r: Line, p: nat)
    requires p <= |buf|
  {
    && (if state == Start then s <= p && Blank(buf, s, p) else InLine(buf, s, r.head, p))
    && (state in {Start, InMethod} || BeforeUri(state) ==> Fresh(r))
    && (state !in {Start, InMethod} ==> MethodKnown(buf, r.head) && MethodEnd(r.head) < p)
    && (state == Schema ==> MethodEnd(r.head) < r.target.schema.p < p)
    && (state == SchemaSlash ==>
          MethodEnd(r.head) < r.target.schema.p && 1 <= r.target.schema.len && r.target.schema.p + r.target.schema.len == p - 1)
    && (AfterSchema(state) ==> SchemaKnown(buf, r.head, r.target, p))
    && (InsideUri(state) ==> UriStarted(buf, r.head, r.target, p) && r.proto.protocol.p == NULL)
    && (SpacesAfterUri(state) ==> UriKnown(buf, r.head, r.target, p) && r.proto.protocol.p == NULL)
    && (InProtocol(state) ==> UriKnown(buf, r.head, r.target, p) && UriEnd(r.target) <= r.proto.protocol.p < p)
    && (state == SpacesAfterDigit ==> UriKnown(buf, r.head, r.target, p) && ProtocolKnown(r.target, r.proto, p))
    && (state == AlmostDone ==>
          && p > 0 && UriKnown(buf, r.head, r.target, p - 1) && buf[p - 1] == '\r'
          && (r.proto.protocol.p == NULL || ProtocolKnown(r.target, r.proto, p - 1)))
  }

  /** What is known when the machine jumps to `done` at the LF at `p`. */
  ghost predicate LineRead(buf: string, s: nat, r: Line, p: nat)
    requires p < |buf|
  {
    && buf[p] == '\n' && InLine(buf, s, r.head, p) && MethodKnown(buf, r.head)
    && UriKnown(buf, r.head, r.target, p) && (r.proto.protocol.p == NULL || ProtocolKnown(r.target, r.proto, p))
    && (r.head.requestLine.len == p - r.head.requestLine.p
        || (buf[p - 1] == '\r' && r.head.requestLine.len == p - 1 - r.head.requestLine.p))
  }

  ghost predicate Keeps(buf: string, s: nat, p: nat, o: Outcome)
    requires p < |buf|
  {
    match o
    case Next(state, r) => Located(buf, s, state, r, p + 1)
    case Again(state, r) => Located(buf, s, state, r, p)
    case Done(r) => LineRead(buf, s, r, p)
    case Fail(_, _) => true
  }

  lemma InLineNext(buf: string, s: nat, h: Front, p: nat)
    requires p < |buf| && InLine(buf, s, h, p) && buf[p] != '\n'
    ensures InLine(buf, s, h, p + 1)
  {
  }

  lemma KeepsStart(buf: string, s: nat, r: Line, p: nat)
    requires p < |buf| && Located(buf, s, Start, r, p)
    ensures Keeps(buf, s, p, StepStart(r, p, buf[p]))
  {
  }

  lemma KeepsInMethod(buf: string, s: nat, r: Line, p: nat)
    requires p < |buf| && Located(buf, s, InMethod, r, p)
    ensures Keeps(buf, s, p, StepMethod(buf, r, p, buf[p]))
  {
  }

  lemma KeepsSpacesBeforeUri(buf: string, s: nat, r: Line, p: nat)
    requires p < |buf| && Located(buf, s, SpacesBeforeUri, r, p)
    ensures Keeps(buf, s, p, StepSpacesBeforeUri(r, p, buf[p]))
  {
  }

  lemma KeepsSchema(buf: string, s: nat, r: Line, p: nat)
    requires p < |buf| && Located(buf, s, Schema, r, p)
    ensures Keeps(buf, s, p, StepSchema(r, p, buf[p]))
  {
  }

  lemma KeepsSchemaSlash(buf: string, s: nat, r: Line, p: nat)
    requires p < |buf| && Located(buf, s, SchemaSlash, r, p)
    ensures Keeps(buf, s, p, Want(r, buf[p], '/', SchemaSlashSlash, -6))
  {
  }

  lemma KeepsSchemaSlashSlash(buf: string, s: nat, r: Line, p: nat)
    requires p < |buf| && Located(buf, s, SchemaSlashSlash, r, p)
    ensures Keeps(buf, s, p, Want(r, buf[p], '/', HostStart, -7))
  {
  }

  lemma KeepsHostStart(buf: string, s: nat, r: Line, p: nat)
    requires p < |buf| && Located(buf, s, HostStart, r, p)
    ensures Keeps(buf, s, p, StepHostStart(r, p, buf[p]))
  {
    if buf[p] != '\n' {
      InLineNext(buf, s, r.head, p);
    }
    hide InLine, MethodKnown;
  }

  lemma KeepsHost(buf: string, s: nat, r: Line, p: nat)
    requires p < |buf| && Located(buf, s, Host, r, p)
    ensures Keeps(buf, s, p, StepHost(r, p, buf[p]))
  {
    if buf[p] != '\n' {
      InLineNext(buf, s, r.head, p);
    }
    hide InLine, MethodKnown;
  }

  lemma KeepsHostEnd(buf: string, s: nat, r: Line, p: nat)
    requires p < |buf| && Located(buf, s, HostEnd, r, p)
    ensures Keeps(buf, s, p, StepHostEnd(r, p, buf[p]))
  {
    if buf[p] != '\n' {
      InLineNext(buf, s, r.head, p);
    }
    hide InLine, MethodKnown;
  }

  lemma KeepsHostIpLiteral(buf: string, s: nat, r: Line, p: nat)
    requires p < |buf| && Located(buf, s, HostIpLiteral, r, p)
    ensures Keeps(buf, s, p, StepIpLiteral(r, buf[p]))
  {
  }

  lemma KeepsPort(buf: string, s: nat, r: Line, p: nat)
    requires p < |buf| && Located(buf, s, Port, r, p)
    ensures Keeps(buf, s, p, StepPort(r, p, buf[p]))
  {
    if buf[p] != '\n' {
      InLineNext(buf, s, r.head, p);
    }
    hide InLine, MethodKnown;
  }

  lemma KeepsHostHttp09(buf: string, s: nat, r: Line, p: nat)
    requires p < |buf| && Located(buf, s, HostHttp09, r, p)
    ensures Keeps(buf, s, p, StepHostHttp09(r, p, buf[p]))
  {
    if buf[p] != '\n' {
      InLineNext(buf, s, r.head, p);
    }
    hide InLine, MethodKnown;
  }

  lemma KeepsEndOfUri(buf: string, s: nat, next: State, r: Line, p: nat)
    requires p < |buf| && EndsUri(buf[p]) && InLine(buf, s, r.head, p) && MethodKnown(buf, r.head)
    requires UriStarted(buf, r.head, r.target, p) && r.proto.protocol.p == NULL && SpacesAfterUri(next)
    ensures Keeps(buf, s, p, StepEndOfUri(next, r, p, buf[p]))
  {
  }

  lemma KeepsAfterSlashInUri(buf: string, s: nat, r: Line, p: nat)
    requires p < |buf| && Located(buf, s, AfterSlashInUri, r, p)
    ensures Keeps(buf, s, p, StepAfterSlash(r, p, buf[p]))
  {
    if buf[p] != '\n' {
      InLineNext(buf, s, r.head, p);
    }
    hide InLine, MethodKnown;
    if EndsUri(buf[p]) {
      KeepsEndOfUri(buf, s, CheckUriHttp09, r, p);
    }
  }

  lemma KeepsCheckUri(buf: string, s: nat, r: Line, p: nat)
    requires p < |buf| && Located(buf, s, CheckUri, r, p)
    ensures Keeps(buf, s, p, StepCheckUri(r, p, buf[p]))
  {
    if buf[p] != '\n' {
      InLineNext(buf, s, r.head, p);
    }
    hide InLine, MethodKnown;
    if EndsUri(buf[p]) {
      KeepsEndOfUri(buf, s, CheckUriHttp09, r, p);
    }
  }

  lemma KeepsUri(buf: string, s: nat, r: Line, p: nat)
    requires p < |buf| && Located(buf, s, Uri, r, p)
    ensures Keeps(buf, s, p, StepUri(r, p, buf[p]))
  {
    if buf[p] != '\n' {
      InLineNext(buf, s, r.head, p);
    }
    hide InLine, MethodKnown;
    if EndsUri(buf[p]) {
      KeepsEndOfUri(buf, s, Http09, r, p);
    }
  }

  lemma KeepsMinorDigit(buf: string, s: nat, r: Line, p: nat)
    requires p < |buf| && Located(buf, s, MinorDigit, r, p)
    ensures Keeps(buf, s, p, StepMinorDigit(r, p, buf[p]))
  {
  }

  lemma KeepsCheckUriHttp09(buf: string, s: nat, r: Line, p: nat)
    requires p < |buf| && Located(buf, s, CheckUriHttp09, r, p)
    ensures Keeps(buf, s, p, StepSpacesAfterUri(CheckUriHttp09, CheckUri, r, p, buf[p]))
  {
    if buf[p] != '\n' {
      InLineNext(buf, s, r.head, p);
    }
    hide InLine, MethodKnown;
  }

  lemma KeepsHttp09(buf: string, s: nat, r: Line, p: nat)
    requires p < |buf| && Located(buf, s, Http09, r, p)
    ensures Keeps(buf, s, p, StepSpacesAfterUri(Http09, Uri, r, p, buf[p]))
  {
    if buf[p] != '\n' {
      InLineNext(buf, s, r.head, p);
    }
    hide InLine, MethodKnown;
  }

  lemma KeepsAlmostDone(buf: string, s: nat, r: Line, p: nat)
    requires p < |buf| && Located(buf, s, AlmostDone, r, p)
    ensures Keeps(buf, s, p, StepAlmostDone(r, p, buf[p]))
  {
  }

  lemma KeepsWant(buf: string, s: nat, state: State, next: State, r: Line, p: nat, c: char, code: int)
    requires p < |buf| && Located(buf, s, state, r, p) && InProtocol(state) && InProtocol(next) && c != '\n'
    ensures Keeps(buf, s, p, Want(r, buf[p], c, next, code))
  {
  }

  lemma KeepsFirstMajorDigit(buf: string, s: nat, r: Line, p: nat)
    requires p < |buf| && Located(buf, s, FirstMajorDigit, r, p)
    ensures Keeps(buf, s, p, StepFirstMajorDigit(r, buf[p]))
  {
  }

  lemma KeepsMajorDigit(buf: string, s: nat, r: Line, p: nat)
    requires p < |buf| && Located(buf, s, MajorDigit, r, p)
    ensures Keeps(buf, s, p, StepMajorDigit(r, buf[p]))
  {
    if buf[p] != '\n' {
      InLineNext(buf, s, r.head, p);
    }
    hide InLine, MethodKnown;
  }

  lemma KeepsFirstMinorDigit(buf: string, s: nat, r: Line, p: nat)
    requires p < |buf| && Located(buf, s, FirstMinorDigit, r, p)
    ensures Keeps(buf, s, p, StepFirstMinorDigit(r, buf[p]))
  {
  }

  lemma KeepsSpacesAfterDigit(buf: string, s: nat, r: Line, p: nat)
    requires p < |buf| && Located(buf, s, SpacesAfterDigit, r, p)
    ensures Keeps(buf, s, p, StepSpacesAfterDigit(r, p, buf[p]))
  {
    if buf[p] != '\n' {
      InLineNext(buf, s, r.head, p);
    }
    hide InLine, MethodKnown;
  }

  lemma StepKeeps(buf: string, s: nat, state: State, r: Line, p: nat)
    requires p < |buf| && Located(buf, s, state, r, p)
    ensures Keeps(buf, s, p, Step(buf, state, r, p))
  {
    hide Located, LineRead;
    match state
    case Start => KeepsStart(buf, s, r, p);
    case InMethod => KeepsInMethod(buf, s, r, p);
    case SpacesBeforeUri => KeepsSpacesBeforeUri(buf, s, r, p);
    case Schema => KeepsSchema(buf, s, r, p);
    case SchemaSlash => KeepsSchemaSlash(buf, s, r, p);
    case SchemaSlashSlash => KeepsSchemaSlashSlash(buf, s, r, p);
    case HostStart => KeepsHostStart(buf, s, r, p);
    case Host => KeepsHost(buf, s, r, p);
    case HostEnd => KeepsHostEnd(buf, s, r, p);
    case HostIpLiteral => KeepsHostIpLiteral(buf, s, r, p);
    case Port => KeepsPort(buf, s, r, p);
    case HostHttp09 => KeepsHostHttp09(buf, s, r, p);
    case AfterSlashInUri => KeepsAfterSlashInUri(buf, s, r, p);
    case CheckUri => KeepsCheckUri(buf, s, r, p);
    case CheckUriHttp09 => KeepsCheckUriHttp09(buf, s, r, p);
    case Uri => KeepsUri(buf, s, r, p);
    case Http09 => KeepsHttp09(buf, s, r, p);
    case MinorDigit => KeepsMinorDigit(buf, s, r, p);
    case AlmostDone => KeepsAlmostDone(buf, s, r, p);
    case HttpH => KeepsWant(buf, s, state, HttpHT, r, p, 'T', -15);
    case HttpHT => KeepsWant(buf, s, state, HttpHTT, r, p, 'T', -16);
    case HttpHTT => KeepsWant(buf, s, state, HttpHTTP, r, p, 'P', -17);
    case HttpHTTP => KeepsWant(buf, s, state, FirstMajorDigit, r, p, '/', -18);
    case FirstMajorDigit => KeepsFirstMajorDigit(buf, s, r, p);
    case MajorDigit => KeepsMajorDigit(buf, s, r, p);
    case FirstMinorDigit => KeepsFirstMinorDigit(buf, s, r, p);
    case SpacesAfterDigit => KeepsSpacesAfterDigit(buf, s, r, p);
  }

  /**
   * A finished request line: it ends at the first LF after the method's first
   * byte, and method, URI and protocol lie in this order before that LF.
   */
  ghost predicate LineParsed(buf: string, s: nat, code: int, r: Line, pos: nat) {
    && 0 < pos <= |buf| && LineRead(buf, s, r, pos - 1)
    && (r.target.exten.p != NULL ==> 0 <= r.target.exten.len && r.target.exten.p + r.target.exten.len == UriEnd(r.target))
    && r.proto.version == r.proto.major * 1000 + r.proto.minor && (r.proto.minor == 9 ==> r.proto.version == 9)
    && code == if r.proto.version == 9 && r.head.verb != Get then -25 else 0
  }

  /** What one call leaves, wherever it stops. */
  ghost predicate RunOk(buf: string, s: nat, res: Parsed) {
    && (res.More? ==> Located(buf, s, res.state, res.r, |buf|))
    && (res.Ended? ==> LineParsed(buf, s, res.code, res.r, res.pos))
  }

  lemma CompleteParsed(buf: string, s: nat, r: Line, p: nat)
    requires p < |buf| && LineRead(buf, s, r, p)
    ensures LineParsed(buf, s, Complete(r).0, Complete(r).1, p + 1)
  {
  }

  lemma {:induction false} RunKeeps(buf: string, s: nat, state: State, r: Line, p: nat)
    requires p <= |buf| && Located(buf, s, state, r, p)
    ensures RunOk(buf, s, Run(buf, state, r, p))
    decreases |buf| - p, MayReread(state)
  {
    hide Step, Located, LineRead, LineParsed, Complete;
    if p < |buf| {
      StepKeeps(buf, s, state, r, p);
      match Step(buf, state, r, p)
      case Next(state', r') => RunKeeps(buf, s, state', r', p + 1);
      case Again(state', r') => RunKeeps(buf, s, state', r', p);
      case Done(r') => CompleteParsed(buf, s, r', p);
      case Fail(_, _) =>
    }
  }

  /** Every accepted request line, from the first byte on. */
  lemma LineSpans(buf: string, s: nat, r: Line)
    requires s <= |buf| && Fresh(r)
    ensures RunOk(buf, s, Run(buf, Start, r, s))
  {
    RunKeeps(buf, s, Start, r, s);
  }
}
