/**
 * The request-line machine of `src/http/parse.c`. Positions are offsets into
 * the connection's buffer, so they mean the same thing however the bytes
 * arrived.
 */
module HttpLine {

  const NULL := -1

  /** str_t: a pointer into the buffer and a length. */
  datatype Str = Str(p: int, len: int)

  const NoStr := Str(NULL, 0)

  datatype Method =
    | Unknown | Get | Head | Post | Put | Delete | MkCol | Copy | Move
    | Options | PropFind | PropPatch | Lock | Unlock | Patch | Trace

  /** The fields of struct http_request that the request line fills in, by part of the line. */
  datatype Front = Front(requestLine: Str, methodName: Str, verb: Method)
  datatype Target = Target(schema: Str, host: Str, port: Str, uri: Str, args: int, exten: Str)
  datatype Proto = Proto(protocol: Str, major: int, minor: int, version: int)
  datatype Flags = Flags(complexUri: bool, quotedUri: bool, plusInUri: bool, spaceInUri: bool)
  datatype Line = Line(head: Front, target: Target, proto: Proto, flags: Flags)

  /** enum http_request_line_status. */
  datatype State =
    | Start | InMethod | SpacesBeforeUri | Schema | SchemaSlash | SchemaSlashSlash
    | HostStart | Host | HostEnd | HostIpLiteral | Port | HostHttp09
    | AfterSlashInUri | CheckUri | CheckUriHttp09 | Uri | Http09
    | HttpH | HttpHT | HttpHTT | HttpHTTP
    | FirstMajorDigit | MajorDigit | FirstMinorDigit | MinorDigit | SpacesAfterDigit | AlmostDone

  /** What one character does: move on, read the same character again (`p--`), finish, or fail. */
  datatype Outcome =
    | Next(state: State, r: Line)
    | Again(state: State, r: Line)
    | Done(r: Line)
    | Fail(code: int, r: Line)

  predicate IsUpper(ch: char) { 'A' <= ch <= 'Z' || ch == '_' }

  /** `c = ch | 0x20; c >= 'a' && c <= 'z'`. */
  predicate IsAlpha(ch: char) { 'A' <= ch <= 'Z' || 'a' <= ch <= 'z' }

  predicate IsDigit(ch: char) { '0' <= ch <= '9' }

  function Digit(ch: char): (d: int)
    requires IsDigit(ch)
    ensures 0 <= d <= 9
  {
    ch as int - '0' as int
  }

  /** The `usual` bitmap: characters that need no attention inside a URI. */
  predicate Usual(ch: char) {
    ch !in ['\0', '\n', '\r', ' ', '#', '%', '+', '.', '/', '?']
  }

  /** Characters allowed inside a bracketed host besides letters and digits; ']' is handled apart. */
  predicate IpLiteralChar(ch: char) {
    ch in [':', '-', '.', '_', '~', '!', '$', '&', '\'', '(', ')', '*', '+', ',', ';', '=']
  }

  /** A 16-bit field. */
  function U16(x: int): (r: int)
    ensures 0 <= r < 0x1_0000
  {
    x % 0x1_0000
  }

  /** get_request_method. */
  function MethodOf(name: string): Method {
    match |name|
    case 3 => if name == "GET" then Get else if name == "PUT" then Put else Unknown
    case 4 =>
      if name[1] == 'O' then
        if name[0] == 'P' && name[2] == 'S' && name[3] == 'T' then Post
        else if name[0] == 'C' && name[2] == 'P' && name[3] == 'Y' then Copy
        else if name[0] == 'M' && name[2] == 'V' && name[3] == 'E' then Move
        else if name[0] == 'L' && name[2] == 'C' && name[3] == 'K' then Lock
        else Unknown
      else if name == "HEAD" then Head
      else Unknown
    case 5 => if name == "MKCOL" then MkCol else if name == "PATCH" then Patch else if name == "TRACE" then Trace else Unknown
    case 6 => if name == "DELETE" then Delete else if name == "UNLOCK" then Unlock else Unknown
    case 7 => if name == "OPTIONS" then Options else Unknown
    case 8 => if name == "PROPFIND" then PropFind else Unknown
    case 9 => if name == "PROPPATCH" then PropPatch else Unknown
    case _ => Unknown
  }

  /** The bytes of `buf` in [from, to), nothing if the pointer is not inside. */
  function Slice(buf: string, from: int, to: nat): string
    requires to <= |buf|
  {
    if 0 <= from <= to then buf[from..to] else ""
  }

  function StepStart(r: Line, p: nat, ch: char): Outcome {
    var h := r.head.(requestLine := r.head.requestLine.(p := p));
    if ch == '\r' || ch == '\n' then Next(Start, r.(head := h))
    else if !IsUpper(ch) then Fail(-1, r.(head := h))
    else Next(InMethod, r.(head := h.(methodName := h.methodName.(p := p))))
  }

  function StepMethod(buf: string, r: Line, p: nat, ch: char): Outcome
    requires p <= |buf|
  {
    if ch == ' ' then
      var name := r.head.methodName;
      var h := r.head.(methodName := name.(len := p - name.p), verb := MethodOf(Slice(buf, name.p, p)));
      if h.verb == Unknown then Fail(-2, r.(head := h)) else Next(SpacesBeforeUri, r.(head := h))
    else if !IsUpper(ch) then Fail(-3, r)
    else Next(InMethod, r)
  }

  function StepSpacesBeforeUri(r: Line, p: nat, ch: char): Outcome {
    var t := r.target;
    if ch == '/' then
      Next(AfterSlashInUri, r.(target := t.(uri := t.uri.(p := p), schema := NoStr, host := NoStr, port := NoStr)))
    else if IsAlpha(ch) then Next(Schema, r.(target := t.(schema := t.schema.(p := p))))
    else if ch == ' ' then Next(SpacesBeforeUri, r)
    else Fail(-4, r)
  }

  function StepSchema(r: Line, p: nat, ch: char): Outcome {
    var t := r.target;
    if IsAlpha(ch) then Next(Schema, r)
    else if ch == ':' then Next(SchemaSlash, r.(target := t.(schema := t.schema.(len := p - t.schema.p))))
    else Fail(-5, r)
  }

  /** The URI of a request for a bare host: the first slash after the schema. */
  function HostOnlyUri(t: Target): Str {
    Str(t.schema.p + t.schema.len + 1, 1)
  }

  function StepHostEnd(r: Line, p: nat, ch: char): Outcome {
    var t := r.target.(host := r.target.host.(len := p - r.target.host.p));
    match ch
    case ':' => Next(Port, r.(target := t.(port := t.port.(p := p + 1))))
    case '/' => Next(AfterSlashInUri, r.(target := t.(port := NoStr, uri := t.uri.(p := p))))
    case ' ' => Next(HostHttp09, r.(target := t.(port := NoStr, uri := HostOnlyUri(t))))
    case _ => Fail(-8, r.(target := t))
  }

  function StepHost(r: Line, p: nat, ch: char): Outcome {
    if IsAlpha(ch) || IsDigit(ch) || ch == '.' || ch == '-' then Next(Host, r)
    else StepHostEnd(r, p, ch)
  }

  function StepHostStart(r: Line, p: nat, ch: char): Outcome {
    var r := r.(target := r.target.(host := r.target.host.(p := p)));
    if ch == '[' then Next(HostIpLiteral, r) else StepHost(r, p, ch)
  }

  function StepIpLiteral(r: Line, ch: char): Outcome {
    if IsDigit(ch) || IsAlpha(ch) || IpLiteralChar(ch) then Next(HostIpLiteral, r)
    else if ch == ']' then Next(HostEnd, r)
    else Fail(-9, r)
  }

  function StepPort(r: Line, p: nat, ch: char): Outcome {
    if IsDigit(ch) then Next(Port, r)
    else
      var t := r.target.(port := r.target.port.(len := p - r.target.port.p));
      match ch
      case '/' => Next(AfterSlashInUri, r.(target := t.(uri := t.uri.(p := p))))
      case ' ' => Next(HostHttp09, r.(target := t.(uri := HostOnlyUri(t))))
      case _ => Fail(-10, r.(target := t))
  }

  /** `r->request_line.len = p - r->request_line.p`. */
  function EndLine(r: Line, p: int): Line {
    r.(head := r.head.(requestLine := r.head.requestLine.(len := p - r.head.requestLine.p)))
  }

  /** `r->uri.len = p - r->uri.p`. */
  function EndUri(r: Line, p: nat): Line {
    r.(target := r.target.(uri := r.target.uri.(len := p - r.target.uri.p)))
  }

  /** `r->http_minor = 9`: version 0.9 is assumed. */
  function Assume09(r: Line): Line {
    r.(proto := r.proto.(minor := 9))
  }

  function StartProtocol(r: Line, p: nat): Line {
    r.(proto := r.proto.(protocol := r.proto.protocol.(p := p)))
  }

  function EndProtocol(r: Line, p: nat): Line {
    r.(proto := r.proto.(protocol := r.proto.protocol.(len := p - r.proto.protocol.p)))
  }

  function Complex(r: Line): Line { r.(flags := r.flags.(complexUri := true)) }

  function Quoted(r: Line): Line { r.(flags := r.flags.(quotedUri := true)) }

  function Plus(r: Line): Line { r.(flags := r.flags.(plusInUri := true)) }

  function Args(r: Line, p: nat): Line { r.(target := r.target.(args := p + 1)) }

  function Exten(r: Line, e: Str): Line { r.(target := r.target.(exten := e)) }

  function StepHostHttp09(r: Line, p: nat, ch: char): Outcome {
    match ch
    case ' ' => Next(HostHttp09, r)
    case '\r' => Next(AlmostDone, Assume09(r))
    case '\n' => Done(EndLine(Assume09(r), p))
    case 'H' => Next(HttpH, StartProtocol(r, p))
    case _ => Fail(-11, r)
  }

  predicate EndsUri(ch: char) { ch == ' ' || ch == '\r' || ch == '\n' }

  /** The end of the URI, the same in all three states inside it: a space, or the end of a 0.9 line. */
  function StepEndOfUri(next: State, r: Line, p: nat, ch: char): Outcome
    requires EndsUri(ch)
  {
    if ch == ' ' then Next(next, EndUri(r, p))
    else if ch == '\r' then Next(AlmostDone, Assume09(EndUri(r, p)))
    else Done(EndLine(Assume09(EndUri(r, p)), p))
  }

  function StepAfterSlash(r: Line, p: nat, ch: char): Outcome {
    if Usual(ch) then Next(CheckUri, r)
    else if EndsUri(ch) then StepEndOfUri(CheckUriHttp09, r, p, ch)
    else
      match ch
      case '.' => Next(Uri, Complex(r))
      case '%' => Next(Uri, Quoted(r))
      case '/' => Next(Uri, Complex(r))
      case '?' => Next(Uri, Args(r, p))
      case '#' => Next(Uri, Complex(r))
      case '+' => Next(AfterSlashInUri, Plus(r))
      case '\0' => Fail(-12, r)
      case _ => Next(CheckUri, r)
  }

  function StepCheckUri(r: Line, p: nat, ch: char): Outcome {
    if Usual(ch) then Next(CheckUri, r)
    else if EndsUri(ch) then StepEndOfUri(CheckUriHttp09, r, p, ch)
    else
      match ch
      case '/' => Next(AfterSlashInUri, Exten(r, NoStr))
      case '.' => Next(CheckUri, Exten(r, r.target.exten.(p := p + 1)))
      case '%' => Next(Uri, Quoted(r))
      case '?' => Next(Uri, Args(r, p))
      case '#' => Next(Uri, Complex(r))
      case '+' => Next(CheckUri, Plus(r))
      case '\0' => Fail(-13, r)
      case _ => Next(CheckUri, r)
  }

  function StepUri(r: Line, p: nat, ch: char): Outcome {
    if Usual(ch) then Next(Uri, r)
    else if EndsUri(ch) then StepEndOfUri(Http09, r, p, ch)
    else
      match ch
      case '#' => Next(Uri, Complex(r))
      case '\0' => Fail(-14, r)
      case _ => Next(Uri, r)
  }

  /** Spaces after the URI: a character that starts neither a version nor an end sends the machine back into the URI. */
  function StepSpacesAfterUri(here: State, back: State, r: Line, p: nat, ch: char): Outcome {
    match ch
    case ' ' => Next(here, r)
    case '\r' => Next(AlmostDone, Assume09(r))
    case '\n' => Done(EndLine(Assume09(r), p))
    case 'H' => Next(HttpH, StartProtocol(r, p))
    case _ => Again(back, r.(flags := r.flags.(spaceInUri := true)))
  }

  function Want(r: Line, ch: char, c: char, next: State, code: int): Outcome {
    if ch == c then Next(next, r) else Fail(code, r)
  }

  function StepFirstMajorDigit(r: Line, ch: char): Outcome {
    if !IsDigit(ch) || ch == '0' then Fail(-19, r)
    else Next(MajorDigit, r.(proto := r.proto.(major := Digit(ch))))
  }

  function StepMajorDigit(r: Line, ch: char): Outcome {
    if ch == '.' then Next(FirstMinorDigit, r)
    else if !IsDigit(ch) then Fail(-20, r)
    else Next(MajorDigit, r.(proto := r.proto.(major := U16(r.proto.major * 10 + Digit(ch)))))
  }

  function StepFirstMinorDigit(r: Line, ch: char): Outcome {
    if !IsDigit(ch) then Fail(-21, r)
    else Next(MinorDigit, r.(proto := r.proto.(minor := Digit(ch))))
  }

  function StepMinorDigit(r: Line, p: nat, ch: char): Outcome {
    if ch == '\r' then Next(AlmostDone, EndProtocol(r, p))
    else if ch == '\n' then Done(EndLine(EndProtocol(r, p), p))
    else if ch == ' ' then Next(SpacesAfterDigit, EndProtocol(r, p))
    else if !IsDigit(ch) then Fail(-22, r)
    else Next(MinorDigit, r.(proto := r.proto.(minor := U16(r.proto.minor * 10 + Digit(ch)))))
  }

  function StepSpacesAfterDigit(r: Line, p: nat, ch: char): Outcome {
    match ch
    case ' ' => Next(SpacesAfterDigit, r)
    case '\r' => Next(AlmostDone, r)
    case '\n' => Done(EndLine(r, p))
    case _ => Fail(-23, r)
  }

  function StepAlmostDone(r: Line, p: nat, ch: char): Outcome {
    var r := EndLine(r, p - 1);
    if ch == '\n' then Done(r) else Fail(-24, r)
  }

  /** The body of the loop: one character in one state. */
  function Step(buf: string, state: State, r: Line, p: nat): (o: Outcome)
    requires p < |buf|
    ensures o.Again? ==> MayReread(state) && !MayReread(o.state)
    ensures o.Fail? ==> o.code < 0
  {
    var ch := buf[p];
    match state
    case Start => StepStart(r, p, ch)
    case InMethod => StepMethod(buf, r, p, ch)
    case SpacesBeforeUri => StepSpacesBeforeUri(r, p, ch)
    case Schema => StepSchema(r, p, ch)
    case SchemaSlash => Want(r, ch, '/', SchemaSlashSlash, -6)
    case SchemaSlashSlash => Want(r, ch, '/', HostStart, -7)
    case HostStart => StepHostStart(r, p, ch)
    case Host => StepHost(r, p, ch)
    case HostEnd => StepHostEnd(r, p, ch)
    case HostIpLiteral => StepIpLiteral(r, ch)
    case Port => StepPort(r, p, ch)
    case HostHttp09 => StepHostHttp09(r, p, ch)
    case AfterSlashInUri => StepAfterSlash(r, p, ch)
    case CheckUri => StepCheckUri(r, p, ch)
    case CheckUriHttp09 => StepSpacesAfterUri(CheckUriHttp09, CheckUri, r, p, ch)
    case Uri => StepUri(r, p, ch)
    case Http09 => StepSpacesAfterUri(Http09, Uri, r, p, ch)
    case HttpH => Want(r, ch, 'T', HttpHT, -15)
    case HttpHT => Want(r, ch, 'T', HttpHTT, -16)
    case HttpHTT => Want(r, ch, 'P', HttpHTTP, -17)
    case HttpHTTP => Want(r, ch, '/', FirstMajorDigit, -18)
    case FirstMajorDigit => StepFirstMajorDigit(r, ch)
    case MajorDigit => StepMajorDigit(r, ch)
    case FirstMinorDigit => StepFirstMinorDigit(r, ch)
    case MinorDigit => StepMinorDigit(r, p, ch)
    case SpacesAfterDigit => StepSpacesAfterDigit(r, p, ch)
    case AlmostDone => StepAlmostDone(r, p, ch)
  }

  /** src/http/parse.c:605-613: what happens after `goto done`. */
  function Complete(r: Line): (int, Line) {
    var t := r.target;
    var t := if t.exten.p != NULL then t.(exten := t.exten.(len := t.uri.p + t.uri.len - t.exten.p)) else t;
    var v := if r.proto.minor == 9 then r.proto.(major := 0) else r.proto;
    var v := v.(version := v.major * 1000 + v.minor);
    (if v.version == 9 && r.head.verb != Get then -25 else 0, r.(target := t, proto := v))
  }

  /**
   * What a call to http_parse_request_line leaves: the return code, the fields,
   * and, unless a character was refused, the saved state and position.
   */
  datatype Parsed =
    | More(state: State, r: Line)
    | Ended(code: int, r: Line, pos: nat)
    | Refused(code: int, r: Line)

  /** The two states from which a character is read again. */
  predicate MayReread(state: State) { state == CheckUriHttp09 || state == Http09 }

  /** The loop, over the bytes of `buf` from `p`. */
  function Run(buf: string, state: State, r: Line, p: nat): (res: Parsed)
    requires p <= |buf|
    ensures res.Refused? ==> res.code < 0
    ensures res.Ended? ==> p < res.pos <= |buf| && (res.code == 0 || res.code == -25)
    ensures p == |buf| ==> res == More(state, r)
    decreases |buf| - p, MayReread(state)
  {
    if p == |buf| then More(state, r)
    else
      match Step(buf, state, r, p)
      case Next(state', r') => Run(buf, state', r', p + 1)
      case Again(state', r') => Run(buf, state', r', p)
      case Done(r') => var (code, r'') := Complete(r'); Ended(code, r'', p + 1)
      case Fail(code, r') => Refused(code, r')
  }
}
