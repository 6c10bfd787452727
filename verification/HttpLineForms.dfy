/** Whole request lines of every form, read by the request-line machine. */
module HttpLineForms {
  import opened Seqs
  import opened HttpLine
  import opened HttpHeaderRoundTrip
  import opened HttpTarget
  import opened HttpLineRoundTrip

  // ---------------------------------------------------------------- the method

  lemma BlankStep(buf: string, r: Line, p: nat)
    requires p < |buf| && (buf[p] == '\r' || buf[p] == '\n')
    ensures Step(buf, Start, r, p) == Next(Start, r.(head := r.head.(requestLine := Str(p, r.head.requestLine.len))))
  {
  }

  /** The empty lines before a request. */
  lemma {:induction false} ReadLead(buf: string, lead: string, r: Line, p: nat) returns (r': Line)
    requires LeadOk(lead) && Here(buf, p, lead)
    ensures Run(buf, Start, r, p) == Run(buf, Start, r', p + |lead|)
    ensures r' == r.(head := r.head.(requestLine := Str(r'.head.requestLine.p, r.head.requestLine.len)))
    decreases |lead|
  {
    hide Run, Step, Here;
    if lead == "" {
      r' := r;
    } else {
      HereAt(buf, p, lead, 0);
      assert lead == [lead[0]] + lead[1..];
      HereSplit(buf, p, [lead[0]], lead[1..]);
      LineStep(buf, Start, r, p);
      BlankStep(buf, r, p);
      r' := ReadLead(buf, lead[1..], r.(head := r.head.(requestLine := Str(p, r.head.requestLine.len))), p + 1);
    }
  }

  lemma NameIsUpper(m: Method)
    ensures m != Unknown ==> NameOf(m) != ""
    ensures forall c :: c in NameOf(m) ==> IsUpper(c)
  {
  }

  lemma FirstOfMethod(buf: string, r: Line, p: nat)
    requires p < |buf| && IsUpper(buf[p])
    ensures Step(buf, Start, r, p)
         == Next(InMethod, r.(head := Front(Str(p, r.head.requestLine.len), Str(p, r.head.methodName.len), r.head.verb)))
  {
  }

  lemma UpperStep(buf: string, r: Line, p: nat)
    requires p < |buf| && IsUpper(buf[p])
    ensures Step(buf, InMethod, r, p) == Next(InMethod, r)
  {
  }

  lemma {:induction false} ReadLetters(buf: string, name: string, r: Line, p: nat, i: nat)
    requires Here(buf, p, name) && i <= |name| && (forall c :: c in name ==> IsUpper(c))
    ensures Run(buf, InMethod, r, p + i) == Run(buf, InMethod, r, p + |name|)
    decreases |name| - i
  {
    hide Run, Step, IsUpper, Here;
    if i < |name| {
      HereAt(buf, p, name, i);
      assert IsUpper(name[i]);
      LineStep(buf, InMethod, r, p + i);
      UpperStep(buf, r, p + i);
      ReadLetters(buf, name, r, p, i + 1);
    }
  }

  lemma EndOfMethod(buf: string, r: Line, s: nat, m: Method)
    requires m != Unknown && r.head.methodName.p == s && Here(buf, s, NameOf(m)) && Here(buf, s + |NameOf(m)|, " ")
    ensures Step(buf, InMethod, r, s + |NameOf(m)|)
         == Next(SpacesBeforeUri, r.(head := r.head.(methodName := Str(s, |NameOf(m)|), verb := m)))
  {
    HereAt(buf, s + |NameOf(m)|, " ", 0);
    MethodNames(NameOf(m), m);
    hide NameOf, MethodOf;
  }

  lemma EndHere(buf: string, p: nat)
    requires Here(buf, p, " ")
    ensures p < |buf|
  {
  }

  lemma ReadMethod(buf: string, r: Line, p: nat, m: Method)
    requires m != Unknown && Here(buf, p, NameOf(m)) && Here(buf, p + |NameOf(m)|, " ")
    ensures Run(buf, Start, r, p)
         == Run(buf, SpacesBeforeUri, r.(head := Front(Str(p, r.head.requestLine.len), Str(p, |NameOf(m)|), m)), p + |NameOf(m)| + 1)
  {
    hide Run, Step, Here, NameOf, IsUpper;
    var name := NameOf(m);
    NameIsUpper(m);
    HereAt(buf, p, name, 0);
    assert name[0] in name;
    LineStep(buf, Start, r, p);
    FirstOfMethod(buf, r, p);
    var r1 := r.(head := Front(Str(p, r.head.requestLine.len), Str(p, r.head.methodName.len), r.head.verb));
    ReadLetters(buf, name, r1, p, 1);
    EndHere(buf, p + |name|);
    LineStep(buf, InMethod, r1, p + |name|);
    EndOfMethod(buf, r1, p, m);
  }

  // ---------------------------------------------------------------- the authority

  lemma AlphaStep(buf: string, r: Line, p: nat)
    requires p < |buf| && IsAlpha(buf[p])
    ensures Step(buf, SpacesBeforeUri, r, p) == Next(Schema, r.(target := r.target.(schema := Str(p, r.target.schema.len))))
    ensures Step(buf, Schema, r, p) == Next(Schema, r)
  {
  }

  lemma {:induction false} ReadAlphas(buf: string, s: string, r: Line, p: nat, i: nat)
    requires Here(buf, p, s) && i <= |s| && (forall k :: 0 <= k < |s| ==> IsAlpha(s[k]))
    ensures Run(buf, Schema, r, p + i) == Run(buf, Schema, r, p + |s|)
    decreases |s| - i
  {
    hide Run, Step, IsAlpha, Here;
    if i < |s| {
      HereAt(buf, p, s, i);
      LineStep(buf, Schema, r, p + i);
      AlphaStep(buf, r, p + i);
      ReadAlphas(buf, s, r, p, i + 1);
    }
  }

  lemma ColonSteps(buf: string, r: Line, p: nat)
    requires Here(buf, p, "://")
    ensures p + 2 < |buf|
    ensures var r1 := r.(target := r.target.(schema := Str(r.target.schema.p, p - r.target.schema.p)));
            && Step(buf, Schema, r, p) == Next(SchemaSlash, r1)
            && Step(buf, SchemaSlash, r1, p + 1) == Next(SchemaSlashSlash, r1)
            && Step(buf, SchemaSlashSlash, r1, p + 2) == Next(HostStart, r1)
  {
    HereAt(buf, p, "://", 0);
    HereAt(buf, p, "://", 1);
    HereAt(buf, p, "://", 2);
  }

  lemma ReadScheme(buf: string, s: string, r: Line, p: nat)
    requires s != "" && (forall k :: 0 <= k < |s| ==> IsAlpha(s[k])) && Here(buf, p, s) && Here(buf, p + |s|, "://")
    ensures Run(buf, SpacesBeforeUri, r, p)
         == Run(buf, HostStart, r.(target := r.target.(schema := Str(p, |s|))), p + |s| + 3)
  {
    hide Run, Step, IsAlpha, Here;
    HereAt(buf, p, s, 0);
    LineStep(buf, SpacesBeforeUri, r, p);
    AlphaStep(buf, r, p);
    var r1 := r.(target := r.target.(schema := Str(p, r.target.schema.len)));
    ReadAlphas(buf, s, r1, p, 1);
    var q := p + |s|;
    ColonSteps(buf, r1, q);
    var r2 := r.(target := r.target.(schema := Str(p, |s|)));
    LineStep(buf, Schema, r1, q);
    LineStep(buf, SchemaSlash, r2, q + 1);
    LineStep(buf, SchemaSlashSlash, r2, q + 2);
  }

  /** The host starts here. */
  function HostFrom(r: Line, p: nat): Line { r.(target := r.target.(host := Str(p, r.target.host.len))) }

  lemma HostSteps(buf: string, r: Line, p: nat)
    requires p < |buf|
    ensures HostChar(buf[p]) ==> Step(buf, HostStart, r, p) == Next(Host, HostFrom(r, p)) && Step(buf, Host, r, p) == Next(Host, r)
    ensures buf[p] == '[' ==> Step(buf, HostStart, r, p) == Next(HostIpLiteral, HostFrom(r, p))
    ensures LiteralChar(buf[p]) ==> Step(buf, HostIpLiteral, r, p) == Next(HostIpLiteral, r)
    ensures buf[p] == ']' ==> Step(buf, HostIpLiteral, r, p) == Next(HostEnd, r)
  {
  }

  predicate EndsHost(c: char) { c == ':' || c == '/' || c == ' ' }

  lemma HostEndSteps(buf: string, r: Line, p: nat)
    requires p < |buf| && EndsHost(buf[p])
    ensures Step(buf, HostStart, r, p) == StepHostEnd(HostFrom(r, p), p, buf[p])
    ensures Step(buf, Host, r, p) == StepHostEnd(r, p, buf[p]) && Step(buf, HostEnd, r, p) == StepHostEnd(r, p, buf[p])
    ensures StepHostEnd(r, p, buf[p]).Next?
  {
  }

  lemma {:induction false} ReadHostChars(buf: string, host: string, r: Line, p: nat, i: nat)
    requires Here(buf, p, host) && i <= |host| && PlainHost(host)
    ensures Run(buf, Host, r, p + i) == Run(buf, Host, r, p + |host|)
    decreases |host| - i
  {
    hide Run, Step, HostChar, Here;
    if i < |host| {
      HereAt(buf, p, host, i);
      LineStep(buf, Host, r, p + i);
      HostSteps(buf, r, p + i);
      ReadHostChars(buf, host, r, p, i + 1);
    }
  }

  lemma {:induction false} ReadLiteral(buf: string, host: string, r: Line, p: nat, i: nat)
    requires Here(buf, p, host) && LiteralHost(host) && 1 <= i < |host|
    ensures Run(buf, HostIpLiteral, r, p + i) == Run(buf, HostEnd, r, p + |host|)
    decreases |host| - i
  {
    hide Run, Step, LiteralChar, Here;
    HereAt(buf, p, host, i);
    LineStep(buf, HostIpLiteral, r, p + i);
    HostSteps(buf, r, p + i);
    if i < |host| - 1 {
      ReadLiteral(buf, host, r, p, i + 1);
    }
  }

  /** A host, and the byte that ends it. */
  lemma ReadHost(buf: string, host: string, r: Line, p: nat)
    requires (PlainHost(host) || LiteralHost(host)) && Here(buf, p, host)
    requires p + |host| < |buf| && EndsHost(buf[p + |host|])
    ensures var e := p + |host|;
            var o := StepHostEnd(HostFrom(r, p), e, buf[e]);
            o.Next? && Run(buf, HostStart, r, p) == Run(buf, o.state, o.r, e + 1)
  {
    hide Run, Step, StepHostEnd, HostChar, LiteralChar, Here, HostFrom;
    var e := p + |host|;
    var r1 := HostFrom(r, p);
    HostEndSteps(buf, r, e);
    HostEndSteps(buf, r1, e);
    LineStep(buf, HostStart, r, p);
    if host != "" {
      HereAt(buf, p, host, 0);
      HostSteps(buf, r, p);
      if LiteralHost(host) {
        ReadLiteral(buf, host, r1, p, 1);
        LineStep(buf, HostEnd, r1, e);
      } else {
        ReadHostChars(buf, host, r1, p, 1);
        LineStep(buf, Host, r1, e);
      }
    }
  }

  lemma PortSteps(buf: string, r: Line, p: nat)
    requires p < |buf|
    ensures IsDigit(buf[p]) ==> Step(buf, Port, r, p) == Next(Port, r)
    ensures Step(buf, Port, r, p) == StepPort(r, p, buf[p]) && (buf[p] == '/' || buf[p] == ' ' ==> StepPort(r, p, buf[p]).Next?)
  {
  }

  lemma {:induction false} ReadDigits(buf: string, port: string, r: Line, p: nat, i: nat)
    requires Here(buf, p, port) && i <= |port| && AllDigits(port)
    ensures Run(buf, Port, r, p + i) == Run(buf, Port, r, p + |port|)
    decreases |port| - i
  {
    hide Run, Step, Here, StepPort, IsDigit;
    if i < |port| {
      HereAt(buf, p, port, i);
      assert IsDigit(port[i]);
      LineStep(buf, Port, r, p + i);
      PortSteps(buf, r, p + i);
      ReadDigits(buf, port, r, p, i + 1);
    }
  }

  /** Where an authority printed at `p` puts its parts. */
  function AuthorityAt(t: Target, a: Authority, p: nat): Target {
    var h := p + |a.scheme| + 3;
    t.(schema := Str(p, |a.scheme|), host := Str(h, |a.host|),
       port := if a.port.Some? then Str(h + |a.host| + 1, |a.port.value|) else NoStr)
  }

  /** And the URI after it: its first slash, or the first slash of all when it has none. */
  function UriAfter(t: Target, a: Authority, p: nat, slash: bool): Str {
    if slash then Str(p + |PrintAuthority(a)|, t.uri.len) else Str(p + |a.scheme| + 1, 1)
  }

  lemma HostThen(r: Line, p: nat, e: nat, c: char)
    requires EndsHost(c)
    ensures var o, host := StepHostEnd(HostFrom(r, p), e, c), Str(p, e - p);
            && (c == ':' ==> o == Next(Port, r.(target := r.target.(host := host, port := Str(e + 1, r.target.port.len)))))
            && (c == '/' ==>
                  o == Next(AfterSlashInUri, r.(target := r.target.(host := host, port := NoStr, uri := Str(e, r.target.uri.len)))))
            && (c == ' ' ==> o == Next(HostHttp09, r.(target := r.target.(host := host, port := NoStr, uri := HostOnlyUri(r.target)))))
  {
  }

  lemma PortThen(r: Line, e: nat, c: char)
    requires c == '/' || c == ' '
    ensures var o, port := StepPort(r, e, c), Str(r.target.port.p, e - r.target.port.p);
            && (c == '/' ==> o == Next(AfterSlashInUri, r.(target := r.target.(port := port, uri := Str(e, r.target.uri.len)))))
            && (c == ' ' ==> o == Next(HostHttp09, r.(target := r.target.(port := port, uri := HostOnlyUri(r.target)))))
  {
  }

  lemma AuthorityHere(buf: string, a: Authority, p: nat)
    requires Here(buf, p, PrintAuthority(a))
    ensures var h := p + |a.scheme| + 3;
            && Here(buf, p, a.scheme) && Here(buf, p + |a.scheme|, "://") && Here(buf, h, a.host)
            && Here(buf, h + |a.host|, PrintPort(a.port)) && |PrintAuthority(a)| == |a.scheme| + 3 + |a.host| + |PrintPort(a.port)|
  {
    var h := p + |a.scheme| + 3;
    HereSplit(buf, p, a.scheme, "://" + (a.host + PrintPort(a.port)));
    HereSplit(buf, p + |a.scheme|, "://", a.host + PrintPort(a.port));
    HereSplit(buf, h, a.host, PrintPort(a.port));
  }

  /** The record after an authority and the slash or space that ends it. */
  function AuthorityRead(r: Line, a: Authority, p: nat, slash: bool): Line {
    r.(target := AuthorityAt(r.target, a, p).(uri := UriAfter(r.target, a, p, slash)))
  }

  lemma ReadAuthority(buf: string, a: Authority, r: Line, p: nat)
    requires AuthorityOk(a) && Here(buf, p, PrintAuthority(a))
    requires var e := p + |PrintAuthority(a)|; e < |buf| && (buf[e] == '/' || buf[e] == ' ')
    ensures var e := p + |PrintAuthority(a)|;
            var slash := buf[e] == '/';
            Run(buf, SpacesBeforeUri, r, p)
            == Run(buf, if slash then AfterSlashInUri else HostHttp09, AuthorityRead(r, a, p, slash), e + 1)
  {
    hide Run, Step, Here, StepHostEnd, StepPort, PlainHost, LiteralHost, HostFrom, AllDigits;
    AuthorityHere(buf, a, p);
    var h := p + |a.scheme| + 3;
    var e := h + |a.host|;
    ReadScheme(buf, a.scheme, r, p);
    var r1 := r.(target := r.target.(schema := Str(p, |a.scheme|)));
    if a.port.None? {
      ReadHost(buf, a.host, r1, h);
      HostThen(r1, h, e, buf[e]);
    } else {
      HereAt(buf, e, PrintPort(a.port), 0);
      ReadHost(buf, a.host, r1, h);
      HostThen(r1, h, e, ':');
      var r2 := r1.(target := r1.target.(host := Str(h, |a.host|), port := Str(e + 1, r1.target.port.len)));
      HereSplit(buf, e, ":", a.port.value);
      ReadDigits(buf, a.port.value, r2, e + 1, 0);
      var z := e + 1 + |a.port.value|;
      LineStep(buf, Port, r2, z);
      PortSteps(buf, r2, z);
      PortThen(r2, z, buf[z]);
    }
  }

  // ---------------------------------------------------------------- the target

  /** The marks of a path, beside those the record had. */
  ghost predicate PathRecorded(r0: Line, r: Line, q: nat, rest: string) {
    var k := StopAt(rest);
    && r.target.args == (if k < |rest| && rest[k] == '?' then q + k + 1 else r0.target.args)
    && ExtenNoted(r0.target.exten.p, r.target.exten.p, q, rest, k)
    && (r.flags.plusInUri <==> r0.flags.plusInUri || Has(rest, k, '+'))
    && (r.flags.quotedUri <==> r0.flags.quotedUri || (k < |rest| && rest[k] == '%'))
    && (r.flags.complexUri <==> r0.flags.complexUri || Has(rest, |rest|, '#') || (k < |rest| && rest[k] in "./"))
    && (r.flags.spaceInUri <==> r0.flags.spaceInUri || Has(rest, |rest|, ' '))
  }

  lemma PathDone(r0: Line, r: Line, q: nat, rest: string)
    requires PathOk(rest) && Noted(r0, r, q, rest, |rest|) && SpaceNoted(r0, r, rest, |rest|)
    ensures PathRecorded(r0, r, q, rest)
    ensures r.head == r0.head && r.proto == r0.proto && r.target.uri.p == r0.target.uri.p
    ensures r.target.schema == r0.target.schema && r.target.host == r0.target.host && r.target.port == r0.target.port
    ensures InPath(StateAt(rest, |rest|))
  {
    SpaceExact(rest, |rest|);
    hide StopAt, Has, ExtenNoted, SpaceInside;
  }

  /** A path after its slash, and the rest of the line. */
  lemma ReadPathAndTail(buf: string, r: Line, q: nat, rest: string, t: Tail, cr: bool) returns (r1: Line)
    requires PathOk(rest) && (t.Modern? ==> VersionOk(t.major, t.minor))
    requires Here(buf, q, rest + PrintRest(t, cr))
    ensures var done := Finished(EndUri(r1, q + |rest|), q + |rest|, t);
            Run(buf, AfterSlashInUri, r, q) == Ended(Complete(done).0, Complete(done).1, q + |rest| + |PrintRest(t, cr)|)
    ensures PathRecorded(r, r1, q, rest) && r1.head == r.head && r1.proto == r.proto && r1.target.uri.p == r.target.uri.p
    ensures r1.target.schema == r.target.schema && r1.target.host == r.target.host && r1.target.port == r.target.port
  {
    hide Run, Complete, Here, PathOk, Noted, SpaceNoted, VersionOk, PrintRest, Finished, EndUri, PathRecorded, StateAt, InPath;
    HereSplit(buf, q, rest, PrintRest(t, cr));
    NothingNoted(r, q, rest);
    r1 := ReadPath(buf, r, r, q, rest, 0);
    PathDone(r, r1, q, rest);
    ReadPathTail(buf, StateAt(rest, |rest|), r1, q + |rest|, t, cr);
  }

  lemma SlashStep(buf: string, r: Line, p: nat)
    requires p < |buf| && buf[p] == '/'
    ensures Step(buf, SpacesBeforeUri, r, p)
         == Next(AfterSlashInUri, r.(target := r.target.(schema := NoStr, host := NoStr, port := NoStr, uri := Str(p, r.target.uri.len))))
  {
  }

  /** Where the parts of a target printed at `p` are. */
  ghost predicate TargetRecorded(r0: Line, r: Line, p: nat, f: Form)
    requires f.authority.None? ==> f.path.Some?
  {
    var a := if f.authority.Some? then |PrintAuthority(f.authority.value)| else 0;
    && (if f.authority.None? then r.target.schema == NoStr && r.target.host == NoStr && r.target.port == NoStr
        else var t := AuthorityAt(r0.target, f.authority.value, p);
             r.target.schema == t.schema && r.target.host == t.host && r.target.port == t.port)
    && (if f.path.Some? then r.target.uri == Str(p + a, 1 + |f.path.value|) && PathRecorded(r0, r, p + a + 1, f.path.value)
        else r.target.uri == Str(p + |f.authority.value.scheme| + 1, 1)
             && r.target.args == r0.target.args && r.target.exten.p == r0.target.exten.p && r.flags == r0.flags)
  }

  /** The front of the record, from which the tail is read. */
  lemma SameMarks(r0: Line, r: Line, r1: Line, q: nat, rest: string)
    requires PathRecorded(r, r1, q, rest) && r.flags == r0.flags
    requires r.target.args == r0.target.args && r.target.exten.p == r0.target.exten.p
    ensures PathRecorded(r0, r1, q, rest)
  {
  }

  lemma PathOnly(buf: string, f: Form, r: Line, p: nat) returns (r1: Line)
    requires Proper(f) && f.authority.None? && Here(buf, p, PrintTarget(f) + PrintRest(f.tail, f.cr))
    ensures var e := p + |PrintTarget(f)|;
            var done := Finished(r1, e, f.tail);
            Run(buf, SpacesBeforeUri, r, p) == Ended(Complete(done).0, Complete(done).1, e + |PrintRest(f.tail, f.cr)|)
    ensures TargetRecorded(r, r1, p, f) && r1.head == r.head && r1.proto == r.proto
  {
    hide Run, Complete, Here, PathOk, VersionOk, PrintRest, Finished, PathRecorded, Step, LeadOk;
    var rest := f.path.value;
    assert PrintTarget(f) + PrintRest(f.tail, f.cr) == "/" + (rest + PrintRest(f.tail, f.cr));
    HereSplit(buf, p, "/", rest + PrintRest(f.tail, f.cr));
    HereAt(buf, p, "/", 0);
    LineStep(buf, SpacesBeforeUri, r, p);
    SlashStep(buf, r, p);
    var r0 := Step(buf, SpacesBeforeUri, r, p).r;
    var r2 := ReadPathAndTail(buf, r0, p + 1, rest, f.tail, f.cr);
    SameMarks(r, r0, r2, p + 1, rest);
    r1 := EndUri(r2, p + 1 + |rest|);
    SameMarksEnd(r, r2, r1, p + 1, rest);
  }

  lemma SameMarksEnd(r0: Line, r: Line, r1: Line, q: nat, rest: string)
    requires PathRecorded(r0, r, q, rest) && r1 == r.(target := r.target.(uri := r1.target.uri))
    ensures PathRecorded(r0, r1, q, rest)
  {
  }

  lemma AuthorityAndPath(buf: string, f: Form, r: Line, p: nat) returns (r1: Line)
    requires Proper(f) && f.authority.Some? && f.path.Some?
    requires Here(buf, p, PrintTarget(f) + PrintRest(f.tail, f.cr))
    ensures var e := p + |PrintTarget(f)|;
            var done := Finished(r1, e, f.tail);
            Run(buf, SpacesBeforeUri, r, p) == Ended(Complete(done).0, Complete(done).1, e + |PrintRest(f.tail, f.cr)|)
    ensures TargetRecorded(r, r1, p, f) && r1.head == r.head && r1.proto == r.proto
  {
    hide Run, Complete, Here, PathOk, VersionOk, PrintRest, Finished, PathRecorded, LeadOk, AuthorityOk, PrintAuthority;
    var a, rest := f.authority.value, f.path.value;
    var q := p + |PrintAuthority(a)|;
    assert PrintTarget(f) + PrintRest(f.tail, f.cr) == PrintAuthority(a) + ("/" + (rest + PrintRest(f.tail, f.cr)));
    HereSplit(buf, p, PrintAuthority(a), "/" + (rest + PrintRest(f.tail, f.cr)));
    HereSplit(buf, q, "/", rest + PrintRest(f.tail, f.cr));
    HereAt(buf, q, "/", 0);
    ReadAuthority(buf, a, r, p);
    var r0 := AuthorityRead(r, a, p, true);
    var r2 := ReadPathAndTail(buf, r0, q + 1, rest, f.tail, f.cr);
    SameMarks(r, r0, r2, q + 1, rest);
    r1 := EndUri(r2, q + 1 + |rest|);
    SameMarksEnd(r, r2, r1, q + 1, rest);
  }

  lemma AuthorityOnly(buf: string, f: Form, r: Line, p: nat) returns (r1: Line)
    requires Proper(f) && f.authority.Some? && f.path.None? && Here(buf, p, PrintTarget(f) + PrintRest(f.tail, f.cr))
    ensures var e := p + |PrintTarget(f)|;
            var done := Finished(r1, e, f.tail);
            Run(buf, SpacesBeforeUri, r, p) == Ended(Complete(done).0, Complete(done).1, e + |PrintRest(f.tail, f.cr)|)
    ensures TargetRecorded(r, r1, p, f) && r1.head == r.head && r1.proto == r.proto
  {
    hide Run, Complete, Here, VersionOk, PrintVersion, Finished, LeadOk, AuthorityOk, PrintAuthority;
    var a, n := f.authority.value, Gap(f.tail);
    var e := p + |PrintAuthority(a)|;
    RepeatNext(' ', n - 1);
    assert PrintTarget(f) == PrintAuthority(a);
    assert PrintRest(f.tail, f.cr) == " " + (Repeat(' ', n - 1) + PrintVersion(f.tail, f.cr));
    HereSplit(buf, p, PrintAuthority(a), PrintRest(f.tail, f.cr));
    HereSplit(buf, e, " ", Repeat(' ', n - 1) + PrintVersion(f.tail, f.cr));
    HereAt(buf, e, " ", 0);
    ReadAuthority(buf, a, r, p);
    r1 := AuthorityRead(r, a, p, false);
    ReadTailFrom(buf, HostHttp09, r1, e + 1, n - 1, f.tail, f.cr);
  }

  lemma ReadTarget(buf: string, f: Form, r: Line, p: nat) returns (r1: Line)
    requires Proper(f) && Here(buf, p, PrintTarget(f) + PrintRest(f.tail, f.cr))
    ensures var e := p + |PrintTarget(f)|;
            var done := Finished(r1, e, f.tail);
            Run(buf, SpacesBeforeUri, r, p) == Ended(Complete(done).0, Complete(done).1, e + |PrintRest(f.tail, f.cr)|)
    ensures TargetRecorded(r, r1, p, f) && r1.head == r.head && r1.proto == r.proto
  {
    hide Run, Complete, Here, PrintRest, PrintTarget, Finished, TargetRecorded;
    if f.authority.None? {
      r1 := PathOnly(buf, f, r, p);
    } else if f.path.Some? {
      r1 := AuthorityAndPath(buf, f, r, p);
    } else {
      r1 := AuthorityOnly(buf, f, r, p);
    }
  }

  // ---------------------------------------------------------------- the line

  function MethodAt(f: Form, p: nat): nat { p + |f.lead| }

  function TargetAt(f: Form, p: nat): nat { MethodAt(f, p) + |NameOf(f.m)| + 1 + f.gap }

  function TailAt(f: Form, p: nat): nat { TargetAt(f, p) + |PrintTarget(f)| }

  /** Where the version starts, and where the end of the line does. */
  function VersionAt(f: Form, p: nat): nat { TailAt(f, p) + Gap(f.tail) }

  function EndAt(f: Form, p: nat): nat {
    VersionAt(f, p) + if f.tail.Modern? then |Version(f.tail.major, f.tail.minor)| + f.tail.pad else 0
  }

  lemma FormHere(buf: string, f: Form, p: nat)
    requires Here(buf, p, PrintForm(f))
    ensures Here(buf, p, f.lead) && Here(buf, MethodAt(f, p), NameOf(f.m)) && Here(buf, MethodAt(f, p) + |NameOf(f.m)|, " ")
    ensures Here(buf, MethodAt(f, p) + |NameOf(f.m)| + 1, Repeat(' ', f.gap))
    ensures Here(buf, TargetAt(f, p), PrintTarget(f) + PrintRest(f.tail, f.cr))
    ensures p + |PrintForm(f)| == TailAt(f, p) + |PrintRest(f.tail, f.cr)|
  {
    hide Here, NameOf, PrintTarget, PrintRest;
    var target := PrintTarget(f) + PrintRest(f.tail, f.cr);
    var s := MethodAt(f, p);
    HereSplit(buf, p, f.lead, NameOf(f.m) + (" " + (Repeat(' ', f.gap) + target)));
    HereSplit(buf, s, NameOf(f.m), " " + (Repeat(' ', f.gap) + target));
    HereSplit(buf, s + |NameOf(f.m)|, " ", Repeat(' ', f.gap) + target);
    HereSplit(buf, s + |NameOf(f.m)| + 1, Repeat(' ', f.gap), target);
  }

  /** The machine over a whole line. */
  lemma ReadForm(buf: string, f: Form, r: Line, p: nat) returns (r1: Line)
    requires Proper(f) && Here(buf, p, PrintForm(f))
    ensures var done := Finished(r1, TailAt(f, p), f.tail);
            Run(buf, Start, r, p) == Ended(Complete(done).0, Complete(done).1, p + |PrintForm(f)|)
    ensures TargetRecorded(r, r1, TargetAt(f, p), f) && r1.proto == r.proto
    ensures r1.head == Front(Str(MethodAt(f, p), r.head.requestLine.len), Str(MethodAt(f, p), |NameOf(f.m)|), f.m)
  {
    hide Run, Complete, Here, NameOf, PrintTarget, PrintRest, PrintForm, Finished, TargetRecorded, LeadOk, AuthorityOk, PathOk, VersionOk;
    FormHere(buf, f, p);
    var s := MethodAt(f, p);
    var r2 := ReadLead(buf, f.lead, r, p);
    ReadMethod(buf, r2, s, f.m);
    var r3 := r2.(head := Front(Str(s, r2.head.requestLine.len), Str(s, |NameOf(f.m)|), f.m));
    ReadSpaces(buf, SpacesBeforeUri, r3, s + |NameOf(f.m)| + 1, f.gap);
    r1 := ReadTarget(buf, f, r3, TargetAt(f, p));
    SameTarget(r, r3, r1, TargetAt(f, p), f);
  }

  lemma SameTarget(r0: Line, r: Line, r1: Line, p: nat, f: Form)
    requires (f.authority.None? ==> f.path.Some?) && TargetRecorded(r, r1, p, f) && r.target == r0.target && r.flags == r0.flags
    ensures TargetRecorded(r0, r1, p, f)
  {
    hide StopAt, Has, ExtenNoted, PrintAuthority;
  }

  /** All that is recorded of a line. */
  ghost predicate FormRecorded(r0: Line, r: Line, p: nat, f: Form)
    requires Proper(f)
  {
    var s, v := MethodAt(f, p), VersionAt(f, p);
    && r.head == Front(Str(s, EndAt(f, p) - s), Str(s, |NameOf(f.m)|), f.m)
    && TargetRecorded(r0, r, TargetAt(f, p), f)
    && (r.target.exten.p != NULL ==> r.target.exten.p + r.target.exten.len == r.target.uri.p + r.target.uri.len)
    && (if f.tail.Modern? then
          && r.proto.protocol == Str(v, |Version(f.tail.major, f.tail.minor)|) && r.proto.minor == Short(f.tail.minor)
          && r.proto.major == (if r.proto.minor == 9 then 0 else Short(f.tail.major))
        else r.proto.protocol == r0.proto.protocol && r.proto.minor == 9 && r.proto.major == 0)
    && r.proto.version == r.proto.major * 1000 + r.proto.minor
  }

  lemma Completed(r0: Line, r1: Line, p: nat, f: Form)
    requires Proper(f) && TargetRecorded(r0, r1, TargetAt(f, p), f) && r1.proto == r0.proto
    requires r1.head == Front(Str(MethodAt(f, p), r0.head.requestLine.len), Str(MethodAt(f, p), |NameOf(f.m)|), f.m)
    ensures var (code, r) := Complete(Finished(r1, TailAt(f, p), f.tail));
            FormRecorded(r0, r, p, f) && code == if r.proto.version == 9 && f.m != Get then -25 else 0
  {
    hide StopAt, Has, ExtenNoted, PrintAuthority, NameOf, PrintTarget, Version, Decimal, U16, AuthorityOk, PathOk, LeadOk;
  }

  /**
   * Every line of every form, anywhere in a buffer, is read: its method, the parts of
   * its target with their marks, its version, and where each of them lies. Version 0.9,
   * which a line without a version and any minor version 9 have, is refused for every
   * method but GET.
   */
  lemma FormRead(buf: string, f: Form, r: Line, p: nat) returns (code: int, r': Line)
    requires Proper(f) && Here(buf, p, PrintForm(f))
    ensures Run(buf, Start, r, p) == Ended(code, r', p + |PrintForm(f)|) && FormRecorded(r, r', p, f)
    ensures code == if r'.proto.version == 9 && f.m != Get then -25 else 0
  {
    hide Run, Complete, Here, PrintForm, Finished, TargetRecorded, FormRecorded, LeadOk, AuthorityOk, PathOk, VersionOk, NameOf;
    var r1 := ReadForm(buf, f, r, p);
    Completed(r, r1, p, f);
    var done := Finished(r1, TailAt(f, p), f.tail);
    code, r' := Complete(done).0, Complete(done).1;
  }

  // ---------------------------------------------------------------- the texts

  lemma AuthorityTexts(buf: string, a: Authority, t: Target, p: nat)
    requires Here(buf, p, PrintAuthority(a))
    ensures var at := AuthorityAt(t, a, p);
            && Text(buf, at.schema) == a.scheme && Text(buf, at.host) == a.host
            && (a.port.Some? ==> Text(buf, at.port) == a.port.value) && (a.port.None? ==> at.port == NoStr)
            && Text(buf, Str(p + |a.scheme| + 1, 1)) == "/"
  {
    hide Here, Text, PrintAuthority;
    AuthorityHere(buf, a, p);
    var h := p + |a.scheme| + 3;
    HereText(buf, p, a.scheme);
    HereText(buf, h, a.host);
    if a.port.Some? {
      HereSplit(buf, h + |a.host|, ":", a.port.value);
      HereText(buf, h + |a.host| + 1, a.port.value);
    }
    assert "://" == ":" + ("/" + "/");
    HereSplit(buf, p + |a.scheme|, ":", "/" + "/");
    HereSplit(buf, p + |a.scheme| + 1, "/", "/");
    HereText(buf, p + |a.scheme| + 1, "/");
  }

  /** The URI that is recorded: the path, or a slash when there is none. */
  function UriOf(f: Form): string { if f.path.Some? then "/" + f.path.value else "/" }

  lemma TargetTexts(buf: string, f: Form, r0: Line, r: Line, p: nat)
    requires Proper(f) && TargetRecorded(r0, r, p, f) && Here(buf, p, PrintTarget(f))
    ensures Text(buf, r.target.uri) == UriOf(f)
    ensures f.authority.Some? ==>
              && Text(buf, r.target.schema) == f.authority.value.scheme && Text(buf, r.target.host) == f.authority.value.host
              && (f.authority.value.port.Some? ==> Text(buf, r.target.port) == f.authority.value.port.value)
              && (f.authority.value.port.None? ==> r.target.port == NoStr)
    ensures f.authority.None? ==> r.target.schema == NoStr && r.target.host == NoStr && r.target.port == NoStr
  {
    hide Here, Text, PathRecorded, AuthorityAt, PrintAuthority, AuthorityOk, PathOk, LeadOk, VersionOk;
    var front := if f.authority.Some? then PrintAuthority(f.authority.value) else "";
    HereSplit(buf, p, front, PrintPath(f.path));
    if f.authority.Some? {
      AuthorityTexts(buf, f.authority.value, r0.target, p);
    }
    if f.path.Some? {
      HereText(buf, p + |front|, "/" + f.path.value);
    }
  }

  lemma LineTexts(buf: string, f: Form, p: nat)
    requires Here(buf, p, PrintForm(f))
    ensures var s := MethodAt(f, p);
            && Text(buf, Str(s, |NameOf(f.m)|)) == NameOf(f.m)
            && f.lead + (Text(buf, Str(s, EndAt(f, p) - s)) + LineEnd(f.cr)) == PrintForm(f)
            && (f.tail.Modern? ==>
                  var v := Version(f.tail.major, f.tail.minor); Text(buf, Str(VersionAt(f, p), |v|)) == v)
            && Here(buf, TargetAt(f, p), PrintTarget(f))
  {
    hide Here, Text, NameOf, PrintTarget, Version, LineEnd;
    FormHere(buf, f, p);
    var s := MethodAt(f, p);
    HereText(buf, s, NameOf(f.m));
    HereSplit(buf, TargetAt(f, p), PrintTarget(f), PrintRest(f.tail, f.cr));
    HereSplit(buf, TailAt(f, p), Repeat(' ', Gap(f.tail)), PrintVersion(f.tail, f.cr));
    if f.tail.Modern? {
      HereSplit(buf, VersionAt(f, p), Version(f.tail.major, f.tail.minor), Repeat(' ', f.tail.pad) + LineEnd(f.cr));
      HereText(buf, VersionAt(f, p), Version(f.tail.major, f.tail.minor));
    }
    WholeText(buf, f, p);
  }

  /** The line without what ends it. */
  function Body(f: Form): string {
    NameOf(f.m) + (" " + (Repeat(' ', f.gap) + (PrintTarget(f) + (Repeat(' ', Gap(f.tail))
      + if f.tail.Modern? then Version(f.tail.major, f.tail.minor) + Repeat(' ', f.tail.pad) else ""))))
  }

  lemma BodyEnds(f: Form)
    ensures PrintForm(f) == f.lead + (Body(f) + LineEnd(f.cr))
  {
    hide NameOf, PrintTarget, Version, LineEnd;
    var e := LineEnd(f.cr);
    var v := if f.tail.Modern? then Version(f.tail.major, f.tail.minor) + Repeat(' ', f.tail.pad) else "";
    var g, t := Repeat(' ', Gap(f.tail)), PrintTarget(f);
    var x := Repeat(' ', f.gap) + (t + (g + v));
    if f.tail.Modern? {
      Assoc(Version(f.tail.major, f.tail.minor), Repeat(' ', f.tail.pad), e);
    } else {
      assert v + e == e;
    }
    hide Repeat, PrintForm, Body;
    Assoc(g, v, e);
    Assoc(t, g + v, e);
    Assoc(Repeat(' ', f.gap), t + (g + v), e);
    Assoc(" ", x, e);
    Assoc(NameOf(f.m), " " + x, e);
    BodyParts(f, v, e);
  }

  lemma Assoc(a: string, b: string, c: string)
    ensures a + (b + c) == (a + b) + c
  {
  }

  lemma BodyParts(f: Form, v: string, e: string)
    requires e == LineEnd(f.cr) && v == if f.tail.Modern? then Version(f.tail.major, f.tail.minor) + Repeat(' ', f.tail.pad) else ""
    requires PrintVersion(f.tail, f.cr) == v + e
    ensures var g, t := Repeat(' ', Gap(f.tail)), PrintTarget(f);
            && PrintForm(f) == f.lead + (NameOf(f.m) + (" " + (Repeat(' ', f.gap) + (t + (g + (v + e))))))
            && Body(f) == NameOf(f.m) + (" " + (Repeat(' ', f.gap) + (t + (g + v))))
  {
    hide NameOf, PrintTarget, Version, LineEnd, Repeat, PrintVersion;
  }

  lemma WholeText(buf: string, f: Form, p: nat)
    requires Here(buf, p, PrintForm(f))
    ensures var s := MethodAt(f, p); f.lead + (Text(buf, Str(s, EndAt(f, p) - s)) + LineEnd(f.cr)) == PrintForm(f)
  {
    hide Here, Text, NameOf, PrintTarget, Version, LineEnd, PrintForm;
    BodyEnds(f);
    HereSplit(buf, p, f.lead, Body(f) + LineEnd(f.cr));
    HereSplit(buf, MethodAt(f, p), Body(f), LineEnd(f.cr));
    HereText(buf, MethodAt(f, p), Body(f));
    assert |Body(f)| == EndAt(f, p) - MethodAt(f, p);
  }

  /** What was printed is what is read. */
  lemma LineRoundTrip(pre: string, f: Form, post: string, r: Line) returns (code: int, r': Line)
    requires Proper(f)
    ensures var buf := pre + PrintForm(f) + post;
            && Run(buf, Start, r, |pre|) == Ended(code, r', |pre| + |PrintForm(f)|) && FormRecorded(r, r', |pre|, f)
            && Text(buf, r'.head.methodName) == NameOf(f.m) && r'.head.verb == f.m && Text(buf, r'.target.uri) == UriOf(f)
            && f.lead + (Text(buf, r'.head.requestLine) + LineEnd(f.cr)) == PrintForm(f)
            && (f.tail.Modern? ==> Text(buf, r'.proto.protocol) == Version(f.tail.major, f.tail.minor))
            && (f.authority.Some? ==>
                  && Text(buf, r'.target.schema) == f.authority.value.scheme && Text(buf, r'.target.host) == f.authority.value.host
                  && (f.authority.value.port.Some? ==> Text(buf, r'.target.port) == f.authority.value.port.value))
    ensures code == if r'.proto.version == 9 && f.m != Get then -25 else 0
  {
    hide Run, NameOf, PrintForm, TargetRecorded, Text, LineEnd, Version, Proper;
    var buf, p := pre + PrintForm(f) + post, |pre|;
    assert Here(buf, p, PrintForm(f)) by { assert buf[p..p + |PrintForm(f)|] == PrintForm(f); }
    hide Here;
    code, r' := FormRead(buf, f, r, p);
    LineTexts(buf, f, p);
    TargetTexts(buf, f, r, r', TargetAt(f, p));
  }

  /** The recorded extension is what follows the dot, to the end of the URI. */
  lemma ExtenText(buf: string, f: Form, r0: Line, r: Line, p: nat, d: nat)
    requires Proper(f) && FormRecorded(r0, r, p, f) && Here(buf, p, PrintForm(f))
    requires f.path.Some? && DotAt(f.path.value, StopAt(f.path.value), d)
    ensures Text(buf, r.target.exten) == f.path.value[d + 1..]
  {
    hide NameOf, LineEnd, Version, LeadOk, AuthorityOk, PathOk, VersionOk, Here, Text, PrintForm, PrintAuthority, StopAt;
    LineTexts(buf, f, p);
    ExtenSpan(f, r0, r, TargetAt(f, p), d);
    TargetTail(buf, f, TargetAt(f, p), d);
  }

  lemma ExtenSpan(f: Form, r0: Line, r: Line, p: nat, d: nat)
    requires f.path.Some? && TargetRecorded(r0, r, p, f) && DotAt(f.path.value, StopAt(f.path.value), d)
    requires r.target.exten.p != NULL ==> r.target.exten.p + r.target.exten.len == r.target.uri.p + r.target.uri.len
    ensures r.target.exten == Str(p + (|PrintTarget(f)| - |f.path.value|) + d + 1, |f.path.value| - d - 1)
  {
    hide PrintAuthority, Has, AuthorityAt;
    var front := if f.authority.Some? then PrintAuthority(f.authority.value) else "";
    assert |PrintTarget(f)| == |front| + 1 + |f.path.value|;
  }

  lemma TargetTail(buf: string, f: Form, p: nat, d: nat)
    requires f.path.Some? && d < |f.path.value| && Here(buf, p, PrintTarget(f))
    ensures Text(buf, Str(p + (|PrintTarget(f)| - |f.path.value|) + d + 1, |f.path.value| - d - 1)) == f.path.value[d + 1..]
  {
    hide Here, Text, PrintAuthority;
    var rest := f.path.value;
    var front := if f.authority.Some? then PrintAuthority(f.authority.value) else "";
    var head := front + ("/" + rest[..d + 1]);
    assert rest == rest[..d + 1] + rest[d + 1..];
    assert PrintTarget(f) == head + rest[d + 1..];
    HereSplit(buf, p, head, rest[d + 1..]);
    HereText(buf, p + |head|, rest[d + 1..]);
  }
}
