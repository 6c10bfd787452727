/**
 * Request lines in every form the request-line machine takes (section 3 of RFC
 * 9112, leading empty lines, bare LF, extra spaces and the simple requests of
 * HTTP/0.9 included), and what the machine records of them.
 */
module HttpLineRoundTrip {
  import opened Seqs
  import opened HttpLine
  import opened HttpHeaderRoundTrip
  import opened HttpTarget

  // ---------------------------------------------------------------- methods

  function NameOf(m: Method): string {
    match m
    case Unknown => ""
    case Get => "GET"
    case Head => "HEAD"
    case Post => "POST"
    case Put => "PUT"
    case Delete => "DELETE"
    case MkCol => "MKCOL"
    case Copy => "COPY"
    case Move => "MOVE"
    case Options => "OPTIONS"
    case PropFind => "PROPFIND"
    case PropPatch => "PROPPATCH"
    case Lock => "LOCK"
    case Unlock => "UNLOCK"
    case Patch => "PATCH"
    case Trace => "TRACE"
  }

  /** get_request_method knows exactly these names, each for its own method. */
  lemma MethodNames(name: string, m: Method)
    requires m != Unknown
    ensures MethodOf(name) == m <==> name == NameOf(m)
  {
  }

  // ---------------------------------------------------------------- numbers

  predicate AllDigits(s: string) { forall c :: c in s ==> IsDigit(c) }

  predicate Digits(s: string) { s != "" && AllDigits(s) }

  function Decimal(s: string): nat
    requires AllDigits(s)
  {
    if s == "" then 0 else Decimal(s[..|s| - 1]) * 10 + Digit(s[|s| - 1])
  }

  lemma DecimalNext(s: string, i: nat)
    requires AllDigits(s) && i < |s|
    ensures Decimal(s[..i + 1]) == Decimal(s[..i]) * 10 + Digit(s[i])
  {
    assert s[..i + 1][..i] == s[..i];
  }

  lemma {:induction false} DecimalGrows(s: string, i: nat)
    requires AllDigits(s) && i <= |s|
    ensures Decimal(s[..i]) <= Decimal(s)
    decreases |s| - i
  {
    if i == |s| {
      assert s[..i] == s;
    } else {
      DecimalNext(s, i);
      DecimalGrows(s, i + 1);
    }
  }

  lemma FirstDigit(s: string)
    requires Digits(s)
    ensures IsDigit(s[0]) && Decimal(s[..1]) == Digit(s[0])
  {
    assert s[0] in s;
    assert s[..1][..0] == "";
    assert s[..1][0] == s[0];
  }

  /** The value that 16 bits keep of a number. */
  function Short(s: string): int
    requires AllDigits(s)
  {
    U16(Decimal(s))
  }

  lemma ShortNext(x: int, d: int)
    ensures U16(U16(x) * 10 + d) == U16(x * 10 + d)
  {
    var r, q := U16(x), x / 0x1_0000;
    assert x == 0x1_0000 * q + r;
    assert x * 10 + d == 0x1_0000 * (10 * q) + (r * 10 + d);
    SameShort(r * 10 + d, 10 * q);
  }

  lemma SameShort(a: int, q: int)
    ensures U16(0x1_0000 * q + a) == U16(a)
  {
  }

  // ---------------------------------------------------------------- the forms of a line

  datatype Authority = Authority(scheme: string, host: string, port: Option<string>)

  /** A version, after spaces and with spaces after it, or none. */
  datatype Tail = Modern(gap: nat, major: string, minor: string, pad: nat) | Simple(gap: nat)

  /** `lead` are the CRs and LFs before the line, `gap` the spaces before the target but one. */
  datatype Form = Form(lead: string, m: Method, gap: nat, authority: Option<Authority>, path: Option<string>, tail: Tail, cr: bool)

  predicate HostChar(c: char) { IsAlpha(c) || IsDigit(c) || c == '.' || c == '-' }

  predicate LiteralChar(c: char) { IsAlpha(c) || IsDigit(c) || IpLiteralChar(c) }

  predicate PlainHost(host: string) { forall i :: 0 <= i < |host| ==> HostChar(host[i]) }

  /** An address in brackets. */
  predicate LiteralHost(host: string) {
    |host| >= 2 && host[0] == '[' && host[|host| - 1] == ']' && forall i :: 0 < i < |host| - 1 ==> LiteralChar(host[i])
  }

  predicate AuthorityOk(a: Authority) {
    && a.scheme != "" && (forall i :: 0 <= i < |a.scheme| ==> IsAlpha(a.scheme[i]))
    && (PlainHost(a.host) || LiteralHost(a.host))
    && (a.port.Some? ==> AllDigits(a.port.value))
  }

  predicate VersionOk(major: string, minor: string) {
    Digits(major) && major[0] != '0' && Digits(minor) && AllDigits(major) && AllDigits(minor)
  }

  predicate LeadOk(lead: string) { forall i :: 0 <= i < |lead| ==> lead[i] == '\r' || lead[i] == '\n' }

  predicate Proper(f: Form) {
    && LeadOk(f.lead) && f.m != Unknown
    && (f.authority.Some? ==> AuthorityOk(f.authority.value)) && (f.path.Some? ==> PathOk(f.path.value))
    && (f.authority.None? ==> f.path.Some?)
    && (f.tail.Modern? ==> VersionOk(f.tail.major, f.tail.minor))
    && (f.path.None? && f.tail.Simple? ==> f.tail.gap > 0)
  }

  function LineEnd(cr: bool): string { if cr then "\r\n" else "\n" }

  function Version(major: string, minor: string): string { "HTTP/" + (major + ("." + minor)) }

  /** What follows the spaces after the target. */
  function PrintVersion(t: Tail, cr: bool): string {
    if t.Modern? then Version(t.major, t.minor) + (Repeat(' ', t.pad) + LineEnd(cr)) else LineEnd(cr)
  }

  function Gap(t: Tail): nat { if t.Modern? then t.gap + 1 else t.gap }

  function PrintRest(t: Tail, cr: bool): string { Repeat(' ', Gap(t)) + PrintVersion(t, cr) }

  function PrintPort(port: Option<string>): string { if port.Some? then ":" + port.value else "" }

  function PrintAuthority(a: Authority): string { a.scheme + ("://" + (a.host + PrintPort(a.port))) }

  function PrintPath(path: Option<string>): string { if path.Some? then "/" + path.value else "" }

  function PrintTarget(f: Form): string {
    (if f.authority.Some? then PrintAuthority(f.authority.value) else "") + PrintPath(f.path)
  }

  function PrintForm(f: Form): string {
    f.lead + (NameOf(f.m) + (" " + (Repeat(' ', f.gap) + (PrintTarget(f) + PrintRest(f.tail, f.cr)))))
  }

  // ---------------------------------------------------------------- the end of a line

  predicate AfterUri(state: State) { state == HostHttp09 || state == CheckUriHttp09 || state == Http09 }

  predicate InPath(state: State) { state == AfterSlashInUri || state == CheckUri || state == Uri }

  predicate MayEnd(state: State) {
    AfterUri(state) || InPath(state) || state == MinorDigit || state == SpacesAfterDigit
  }

  /** The record when the line ends at `p` in such a state. */
  function AtEnd(state: State, r: Line, p: nat): Line {
    if AfterUri(state) then EndLine(Assume09(r), p)
    else if InPath(state) then EndLine(Assume09(EndUri(r, p)), p)
    else if state == MinorDigit then EndLine(EndProtocol(r, p), p)
    else EndLine(r, p)
  }

  lemma ReadLineEnd(buf: string, state: State, r: Line, p: nat, cr: bool)
    requires MayEnd(state) && Here(buf, p, LineEnd(cr))
    ensures var done := AtEnd(state, r, p);
            Run(buf, state, r, p) == Ended(Complete(done).0, Complete(done).1, p + |LineEnd(cr)|)
  {
    hide Run, Complete, Step, AtEnd, MayEnd, Here;
    HereAt(buf, p, LineEnd(cr), 0);
    LineStep(buf, state, r, p);
    if cr {
      HereAt(buf, p, LineEnd(cr), 1);
      var r1 := CrStep(buf, state, r, p);
      LineStep(buf, AlmostDone, r1, p + 1);
    } else {
      LfStep(buf, state, r, p);
    }
  }

  lemma LfStep(buf: string, state: State, r: Line, p: nat)
    requires MayEnd(state) && p < |buf| && buf[p] == '\n'
    ensures Step(buf, state, r, p) == Done(AtEnd(state, r, p))
  {
  }

  lemma CrStep(buf: string, state: State, r: Line, p: nat) returns (r1: Line)
    requires MayEnd(state) && p + 1 < |buf| && buf[p] == '\r' && buf[p + 1] == '\n'
    ensures Step(buf, state, r, p) == Next(AlmostDone, r1) && Step(buf, AlmostDone, r1, p + 1) == Done(AtEnd(state, r, p))
  {
    r1 := CrMark(state, r, p);
    if AfterUri(state) {
      CrAfterUri(buf, state, r, p);
    } else if InPath(state) {
      CrInPath(buf, state, r, p);
    } else {
      CrVersion(buf, state, r, p);
    }
    hide Step;
    AlmostStep(buf, r1, p + 1);
  }

  /** What CR leaves. */
  function CrMark(state: State, r: Line, p: nat): Line {
    if AfterUri(state) then Assume09(r)
    else if InPath(state) then Assume09(EndUri(r, p))
    else if state == MinorDigit then EndProtocol(r, p)
    else r
  }

  lemma CrAfterUri(buf: string, state: State, r: Line, p: nat)
    requires AfterUri(state) && p < |buf| && buf[p] == '\r'
    ensures Step(buf, state, r, p) == Next(AlmostDone, CrMark(state, r, p))
  {
  }

  lemma CrInPath(buf: string, state: State, r: Line, p: nat)
    requires InPath(state) && p < |buf| && buf[p] == '\r'
    ensures Step(buf, state, r, p) == Next(AlmostDone, CrMark(state, r, p))
  {
  }

  lemma CrVersion(buf: string, state: State, r: Line, p: nat)
    requires (state == MinorDigit || state == SpacesAfterDigit) && p < |buf| && buf[p] == '\r'
    ensures Step(buf, state, r, p) == Next(AlmostDone, CrMark(state, r, p))
  {
  }

  lemma AlmostStep(buf: string, r: Line, p: nat)
    requires p < |buf| && buf[p] == '\n'
    ensures Step(buf, AlmostDone, r, p) == Done(EndLine(r, p - 1))
  {
  }

  predicate TakesSpaces(state: State) { AfterUri(state) || state == SpacesBeforeUri || state == SpacesAfterDigit }

  lemma {:induction false} ReadSpaces(buf: string, state: State, r: Line, p: nat, n: nat)
    requires TakesSpaces(state) && Here(buf, p, Repeat(' ', n))
    ensures Run(buf, state, r, p) == Run(buf, state, r, p + n)
    decreases n
  {
    hide Run, Step, Here, TakesSpaces;
    if n > 0 {
      HereAt(buf, p, Repeat(' ', n), 0);
      RepeatNext(' ', n - 1);
      HereSplit(buf, p, " ", Repeat(' ', n - 1));
      LineStep(buf, state, r, p);
      StayStep(buf, state, r, p);
      ReadSpaces(buf, state, r, p + 1, n - 1);
    }
  }

  lemma StayStep(buf: string, state: State, r: Line, p: nat)
    requires TakesSpaces(state) && p < |buf| && buf[p] == ' '
    ensures Step(buf, state, r, p) == Next(state, r)
  {
  }

  lemma MajorStep(buf: string, r: Line, p: nat)
    requires p < |buf| && IsDigit(buf[p])
    ensures Step(buf, MajorDigit, r, p) == Next(MajorDigit, r.(proto := r.proto.(major := U16(r.proto.major * 10 + Digit(buf[p])))))
  {
  }

  lemma {:induction false} ReadMajor(buf: string, s: string, r: Line, p: nat, i: nat)
    requires Here(buf, p, s) && 1 <= i <= |s| && Digits(s) && r.proto.major == Short(s[..i])
    ensures Run(buf, MajorDigit, r, p + i) == Run(buf, MajorDigit, r.(proto := r.proto.(major := Short(s))), p + |s|)
    decreases |s| - i
  {
    hide Run, Step, Decimal, U16, Here;
    if i == |s| {
      assert s[..i] == s;
    } else {
      HereAt(buf, p, s, i);
      assert IsDigit(s[i]);
      DecimalNext(s, i);
      ShortNext(Decimal(s[..i]), Digit(s[i]));
      LineStep(buf, MajorDigit, r, p + i);
      MajorStep(buf, r, p + i);
      ReadMajor(buf, s, r.(proto := r.proto.(major := Short(s[..i + 1]))), p, i + 1);
    }
  }

  lemma MinorStep(buf: string, r: Line, p: nat)
    requires p < |buf| && IsDigit(buf[p])
    ensures Step(buf, MinorDigit, r, p) == Next(MinorDigit, r.(proto := r.proto.(minor := U16(r.proto.minor * 10 + Digit(buf[p])))))
  {
  }

  lemma {:induction false} ReadMinor(buf: string, s: string, r: Line, p: nat, i: nat)
    requires Here(buf, p, s) && 1 <= i <= |s| && Digits(s) && r.proto.minor == Short(s[..i])
    ensures Run(buf, MinorDigit, r, p + i) == Run(buf, MinorDigit, r.(proto := r.proto.(minor := Short(s))), p + |s|)
    decreases |s| - i
  {
    hide Run, Step, Decimal, U16, Here;
    if i == |s| {
      assert s[..i] == s;
    } else {
      HereAt(buf, p, s, i);
      assert IsDigit(s[i]);
      DecimalNext(s, i);
      ShortNext(Decimal(s[..i]), Digit(s[i]));
      LineStep(buf, MinorDigit, r, p + i);
      MinorStep(buf, r, p + i);
      ReadMinor(buf, s, r.(proto := r.proto.(minor := Short(s[..i + 1]))), p, i + 1);
    }
  }

  lemma StartOfVersion(buf: string, state: State, r: Line, p: nat)
    requires AfterUri(state) && p < |buf| && buf[p] == 'H'
    ensures Step(buf, state, r, p) == Next(HttpH, StartProtocol(r, p))
  {
  }

  lemma RestOfHttp(buf: string, r: Line, p: nat)
    requires Here(buf, p, "HTTP/")
    ensures Step(buf, HttpH, r, p + 1) == Next(HttpHT, r) && Step(buf, HttpHT, r, p + 2) == Next(HttpHTT, r)
    ensures Step(buf, HttpHTT, r, p + 3) == Next(HttpHTTP, r) && Step(buf, HttpHTTP, r, p + 4) == Next(FirstMajorDigit, r)
  {
    HereAt(buf, p, "HTTP/", 1);
    HereAt(buf, p, "HTTP/", 2);
    HereAt(buf, p, "HTTP/", 3);
    HereAt(buf, p, "HTTP/", 4);
  }

  lemma FirstDigitStep(buf: string, r: Line, p: nat)
    requires p < |buf| && IsDigit(buf[p]) && buf[p] != '0'
    ensures Step(buf, FirstMajorDigit, r, p) == Next(MajorDigit, r.(proto := r.proto.(major := Digit(buf[p]))))
  {
  }

  /** The five fixed characters of a version and the first digit after them. */
  lemma ReadHttp(buf: string, state: State, r: Line, p: nat)
    requires AfterUri(state) && Here(buf, p, "HTTP/")
    requires p + 5 < |buf| && IsDigit(buf[p + 5]) && buf[p + 5] != '0'
    ensures var r1 := StartProtocol(r, p);
            Run(buf, state, r, p) == Run(buf, MajorDigit, r1.(proto := r1.proto.(major := Digit(buf[p + 5]))), p + 6)
  {
    HereAt(buf, p, "HTTP/", 0);
    hide Run, Step, Here, Digit;
    var r1 := StartProtocol(r, p);
    StartOfVersion(buf, state, r, p);
    RestOfHttp(buf, r1, p);
    FirstDigitStep(buf, r1, p + 5);
    LineStep(buf, state, r, p);
    LineStep(buf, HttpH, r1, p + 1);
    LineStep(buf, HttpHT, r1, p + 2);
    LineStep(buf, HttpHTT, r1, p + 3);
    LineStep(buf, HttpHTTP, r1, p + 4);
    LineStep(buf, FirstMajorDigit, r1, p + 5);
  }

  lemma DotAndDigit(buf: string, r: Line, p: nat)
    requires p + 1 < |buf| && buf[p] == '.' && IsDigit(buf[p + 1])
    ensures Run(buf, MajorDigit, r, p) == Run(buf, MinorDigit, r.(proto := r.proto.(minor := Digit(buf[p + 1]))), p + 2)
  {
    hide Run;
    LineStep(buf, MajorDigit, r, p);
    LineStep(buf, FirstMinorDigit, r, p + 1);
  }

  lemma OneDigit(s: string)
    requires Digits(s)
    ensures IsDigit(s[0]) && AllDigits(s[..1]) && Short(s[..1]) == Digit(s[0])
  {
    FirstDigit(s);
  }

  lemma HereVersion(buf: string, p: nat, major: string, minor: string)
    requires Here(buf, p, Version(major, minor))
    ensures Here(buf, p, "HTTP/") && Here(buf, p + 5, major) && Here(buf, p + 5 + |major|, ".")
    ensures Here(buf, p + 6 + |major|, minor)
  {
    HereSplit(buf, p, "HTTP/", major + ("." + minor));
    HereSplit(buf, p + 5, major, "." + minor);
    HereSplit(buf, p + 5 + |major|, ".", minor);
  }

  /** What a version leaves. */
  function Versioned(r: Line, p: nat, major: string, minor: string): Line
    requires AllDigits(major) && AllDigits(minor)
  {
    r.(proto := Proto(Str(p, r.proto.protocol.len), Short(major), Short(minor), r.proto.version))
  }

  lemma ReadVersion(buf: string, state: State, r: Line, p: nat, major: string, minor: string)
    requires AfterUri(state) && VersionOk(major, minor) && Here(buf, p, Version(major, minor))
    ensures Run(buf, state, r, p) == Run(buf, MinorDigit, Versioned(r, p, major, minor), p + |Version(major, minor)|)
  {
    hide Run, Here, Digit, Decimal, U16;
    HereVersion(buf, p, major, minor);
    OneDigit(major);
    OneDigit(minor);
    HereAt(buf, p + 5, major, 0);
    ReadHttp(buf, state, r, p);
    var r1 := StartProtocol(r, p);
    var r2 := r1.(proto := r1.proto.(major := Digit(major[0])));
    ReadMajor(buf, major, r2, p + 5, 1);
    var r3 := r1.(proto := r1.proto.(major := Short(major)));
    var q := p + 5 + |major|;
    HereAt(buf, q, ".", 0);
    HereAt(buf, q + 1, minor, 0);
    DotAndDigit(buf, r3, q);
    ReadMinor(buf, minor, r3.(proto := r3.proto.(minor := Digit(minor[0]))), q + 1, 1);
  }

  /** The record when a line ends with this tail, whose spaces start at `p`. */
  function Finished(r: Line, p: nat, t: Tail): Line
    requires t.Modern? ==> VersionOk(t.major, t.minor)
  {
    var v := p + Gap(t);
    if t.Simple? then EndLine(Assume09(r), v)
    else
      var e := v + |Version(t.major, t.minor)|;
      EndLine(EndProtocol(Versioned(r, v, t.major, t.minor), e), e + t.pad)
  }

  lemma ReadPad(buf: string, r: Line, p: nat, pad: nat, cr: bool)
    requires Here(buf, p, Repeat(' ', pad) + LineEnd(cr))
    ensures var done := EndLine(EndProtocol(r, p), p + pad);
            Run(buf, MinorDigit, r, p) == Ended(Complete(done).0, Complete(done).1, p + pad + |LineEnd(cr)|)
  {
    hide Run, Complete, Here, LineEnd, Step, EndProtocol, EndLine, AtEnd, MayEnd, TakesSpaces;
    VersionEnds(r, p);
    VersionEnds(EndProtocol(r, p), p + pad);
    HereSplit(buf, p, Repeat(' ', pad), LineEnd(cr));
    if pad == 0 {
      ReadLineEnd(buf, MinorDigit, r, p, cr);
    } else {
      HereAt(buf, p, Repeat(' ', pad), 0);
      RepeatNext(' ', pad - 1);
      HereSplit(buf, p, " ", Repeat(' ', pad - 1));
      LineStep(buf, MinorDigit, r, p);
      PadStep(buf, r, p);
      ReadSpaces(buf, SpacesAfterDigit, EndProtocol(r, p), p + 1, pad - 1);
      ReadLineEnd(buf, SpacesAfterDigit, EndProtocol(r, p), p + pad, cr);
    }
  }

  lemma VersionEnds(r: Line, p: nat)
    ensures MayEnd(MinorDigit) && MayEnd(SpacesAfterDigit) && TakesSpaces(SpacesAfterDigit)
    ensures AtEnd(MinorDigit, r, p) == EndLine(EndProtocol(r, p), p) && AtEnd(SpacesAfterDigit, r, p) == EndLine(r, p)
  {
  }

  lemma PadStep(buf: string, r: Line, p: nat)
    requires p < |buf| && buf[p] == ' '
    ensures Step(buf, MinorDigit, r, p) == Next(SpacesAfterDigit, EndProtocol(r, p))
  {
  }

  /** A tail from the state of spaces after the URI, `n` of its spaces still to come. */
  lemma ReadTailFrom(buf: string, state: State, r: Line, p: nat, n: nat, t: Tail, cr: bool)
    requires AfterUri(state) && (t.Modern? ==> VersionOk(t.major, t.minor)) && n <= Gap(t) <= p + n
    requires Here(buf, p, Repeat(' ', n) + PrintVersion(t, cr))
    ensures var done := Finished(r, p + n - Gap(t), t);
            Run(buf, state, r, p) == Ended(Complete(done).0, Complete(done).1, p + n + |PrintVersion(t, cr)|)
  {
    hide Run, Complete, Here, Version, LineEnd, Digits, AllDigits, Versioned, EndLine, EndProtocol, Assume09, AfterUri;
    HereSplit(buf, p, Repeat(' ', n), PrintVersion(t, cr));
    ReadSpaces(buf, state, r, p, n);
    var v := p + n;
    if t.Simple? {
      ReadLineEnd(buf, state, r, v, cr);
    } else {
      var e := v + |Version(t.major, t.minor)|;
      HereSplit(buf, v, Version(t.major, t.minor), Repeat(' ', t.pad) + LineEnd(cr));
      ReadVersion(buf, state, r, v, t.major, t.minor);
      ReadPad(buf, Versioned(r, v, t.major, t.minor), e, t.pad, cr);
    }
  }

  /** A tail after a path. */
  lemma ReadPathTail(buf: string, state: State, r: Line, p: nat, t: Tail, cr: bool)
    requires InPath(state) && (t.Modern? ==> VersionOk(t.major, t.minor)) && Here(buf, p, PrintRest(t, cr))
    ensures var done := Finished(EndUri(r, p), p, t);
            Run(buf, state, r, p) == Ended(Complete(done).0, Complete(done).1, p + |PrintRest(t, cr)|)
  {
    hide Run, Complete, Here, VersionOk, PrintVersion, Step, EndUri, Finished, InPath;
    var n := Gap(t);
    if n == 0 {
      HereSplit(buf, p, Repeat(' ', 0), PrintVersion(t, cr));
      SimpleEnd(t, cr, state, r, p);
      ReadLineEnd(buf, state, r, p, cr);
    } else {
      RepeatNext(' ', n - 1);
      assert PrintRest(t, cr) == " " + (Repeat(' ', n - 1) + PrintVersion(t, cr));
      HereSplit(buf, p, " ", Repeat(' ', n - 1) + PrintVersion(t, cr));
      HereAt(buf, p, " ", 0);
      LineStep(buf, state, r, p);
      LeavePath(buf, state, r, p);
      var next := Step(buf, state, r, p).state;
      ReadTailFrom(buf, next, EndUri(r, p), p + 1, n - 1, t, cr);
    }
  }

  lemma SimpleEnd(t: Tail, cr: bool, state: State, r: Line, p: nat)
    requires Gap(t) == 0 && InPath(state)
    ensures t.Simple? && PrintVersion(t, cr) == LineEnd(cr) && MayEnd(state)
    ensures AtEnd(state, r, p) == Finished(EndUri(r, p), p, t)
  {
  }

  lemma LeavePath(buf: string, state: State, r: Line, p: nat)
    requires InPath(state) && p < |buf| && buf[p] == ' '
    ensures var o := Step(buf, state, r, p); o.Next? && AfterUri(o.state) && o.r == EndUri(r, p)
  {
  }
}
