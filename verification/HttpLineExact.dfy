/** The request-line machine takes no other line than those of HttpLineRoundTrip. */
module HttpLineExact {
  import opened Seqs
  import opened HttpLine
  import opened HttpHeaderRoundTrip
  import opened HttpTarget
  import opened HttpLineRoundTrip
  import opened HttpLineForms

  // ---------------------------------------------------------------- what is left of a line

  function PadEnd(f: Form): string
    requires f.tail.Modern?
  {
    Repeat(' ', f.tail.pad) + LineEnd(f.cr)
  }

  function MinorEnd(f: Form): string
    requires f.tail.Modern?
  {
    f.tail.minor + PadEnd(f)
  }

  function MajorEnd(f: Form): string
    requires f.tail.Modern?
  {
    f.tail.major + ("." + MinorEnd(f))
  }

  function PathEnd(f: Form): string
    requires f.path.Some?
  {
    f.path.value + PrintRest(f.tail, f.cr)
  }

  function TargetEnd(f: Form): string { PrintPath(f.path) + PrintRest(f.tail, f.cr) }

  function PortEnd(f: Form): string
    requires f.authority.Some?
  {
    PrintPort(f.authority.value.port) + TargetEnd(f)
  }

  function HostTail(f: Form): string
    requires f.authority.Some?
  {
    f.authority.value.host + PortEnd(f)
  }

  predicate TailFine(f: Form) { f.tail.Modern? ==> VersionOk(f.tail.major, f.tail.minor) }

  predicate PathFine(f: Form) {
    TailFine(f) && (if f.path.Some? then PathOk(f.path.value) else f.tail.Simple? ==> f.tail.gap > 0)
  }

  predicate PortFine(f: Form) {
    PathFine(f) && f.authority.Some? && (f.authority.value.port.Some? ==> AllDigits(f.authority.value.port.value))
  }

  predicate Literals(s: string) { forall i :: 0 <= i < |s| ==> LiteralChar(s[i]) }

  predicate Alphas(s: string) { forall i :: 0 <= i < |s| ==> IsAlpha(s[i]) }

  predicate HostFine(f: Form) {
    PortFine(f) && (PlainHost(f.authority.value.host) || LiteralHost(f.authority.value.host))
  }

  /** In each state after the method. */
  ghost predicate Left(state: State, f: Form, s: string) {
    match state
    case AlmostDone => s == "\n"
    case SpacesAfterDigit => f.tail.Modern? && s == PadEnd(f)
    case MinorDigit => f.tail.Modern? && AllDigits(f.tail.minor) && s == MinorEnd(f)
    case FirstMinorDigit => f.tail.Modern? && Digits(f.tail.minor) && s == MinorEnd(f)
    case MajorDigit => f.tail.Modern? && AllDigits(f.tail.major) && Digits(f.tail.minor) && s == MajorEnd(f)
    case FirstMajorDigit => f.tail.Modern? && VersionOk(f.tail.major, f.tail.minor) && s == MajorEnd(f)
    case HttpHTTP => f.tail.Modern? && VersionOk(f.tail.major, f.tail.minor) && s == "/" + MajorEnd(f)
    case HttpHTT => f.tail.Modern? && VersionOk(f.tail.major, f.tail.minor) && s == "P/" + MajorEnd(f)
    case HttpHT => f.tail.Modern? && VersionOk(f.tail.major, f.tail.minor) && s == "TP/" + MajorEnd(f)
    case HttpH => f.tail.Modern? && VersionOk(f.tail.major, f.tail.minor) && s == "TTP/" + MajorEnd(f)
    case HostHttp09 => TailFine(f) && " " + s == PrintRest(f.tail, f.cr)
    case CheckUriHttp09 => f.path.Some? && PathFine(f) && " " + s == PathEnd(f)
    case Http09 => f.path.Some? && PathFine(f) && " " + s == PathEnd(f)
    case AfterSlashInUri => f.path.Some? && PathFine(f) && s == PathEnd(f)
    case CheckUri => f.path.Some? && PathFine(f) && s == PathEnd(f)
    case Uri => f.path.Some? && PathFine(f) && s == PathEnd(f)
    case Port => PortFine(f) && f.authority.value.port.Some? && s == f.authority.value.port.value + TargetEnd(f)
    case HostEnd => PortFine(f) && s == PortEnd(f)
    case Host => PortFine(f) && PlainHost(f.authority.value.host) && s == HostTail(f)
    case HostIpLiteral => PortFine(f) && Literals(f.authority.value.host) && s == f.authority.value.host + ("]" + PortEnd(f))
    case HostStart => HostFine(f) && s == HostTail(f)
    case SchemaSlashSlash => HostFine(f) && s == "/" + HostTail(f)
    case SchemaSlash => HostFine(f) && s == "//" + HostTail(f)
    case Schema => HostFine(f) && Alphas(f.authority.value.scheme) && s == f.authority.value.scheme + ("://" + HostTail(f))
    case SpacesBeforeUri => TargetFine(f) && s == Repeat(' ', f.gap) + (PrintTarget(f) + PrintRest(f.tail, f.cr))
    case _ => false
  }

  predicate TargetFine(f: Form) {
    PathFine(f) && (if f.authority.Some? then AuthorityOk(f.authority.value) else f.path.Some?)
  }

  /** A form of which nothing is known yet. */
  const BLANK := Form("", Get, 0, None, None, Simple(0), false)

  lemma VersionIs(f: Form)
    requires f.tail.Modern?
    ensures PrintVersion(f.tail, f.cr) == "HTTP/" + MajorEnd(f)
  {
    hide Repeat, LineEnd;
    var mj, mn, e := f.tail.major, f.tail.minor, PadEnd(f);
    assert (mj + ("." + mn)) + e == mj + ("." + (mn + e));
    assert ("HTTP/" + (mj + ("." + mn))) + e == "HTTP/" + ((mj + ("." + mn)) + e);
  }

  // ---------------------------------------------------------------- the version

  lemma BackVersion(buf: string, state: State, f: Form, s: string, r: Line, p: nat) returns (g: Form)
    requires p < |buf| && state in {HttpH, HttpHT, HttpHTT, HttpHTTP}
    requires var o := Step(buf, state, r, p); o.Next? && Left(o.state, f, s)
    ensures Left(state, g, [buf[p]] + s)
  {
    g := f;
  }

  lemma BackMajor(buf: string, state: State, f: Form, s: string, r: Line, p: nat) returns (g: Form)
    requires p < |buf| && (state == FirstMajorDigit || state == MajorDigit)
    requires var o := Step(buf, state, r, p); o.Next? && Left(o.state, f, s)
    ensures Left(state, g, [buf[p]] + s)
  {
    if state == MajorDigit && buf[p] == '.' {
      g := f.(tail := f.tail.(major := ""));
    } else {
      g := f.(tail := f.tail.(major := [buf[p]] + f.tail.major));
      assert MinorEnd(g) == MinorEnd(f);
    }
  }

  lemma BackMinor(buf: string, state: State, f: Form, s: string, r: Line, p: nat) returns (g: Form)
    requires p < |buf| && (state == FirstMinorDigit || state == MinorDigit)
    requires var o := Step(buf, state, r, p); o.Next? && Left(o.state, f, s)
    ensures Left(state, g, [buf[p]] + s)
  {
    if buf[p] == '\r' {
      g := BLANK.(tail := Modern(0, "", "", 0), cr := true);
      assert Repeat(' ', 0) == "";
    } else if buf[p] == ' ' {
      g := f.(tail := f.tail.(minor := "", pad := f.tail.pad + 1));
      RepeatNext(' ', f.tail.pad);
    } else {
      g := f.(tail := f.tail.(minor := [buf[p]] + f.tail.minor));
      assert PadEnd(g) == PadEnd(f);
    }
  }

  lemma BackPad(buf: string, f: Form, s: string, r: Line, p: nat) returns (g: Form)
    requires p < |buf|
    requires var o := Step(buf, SpacesAfterDigit, r, p); o.Next? && Left(o.state, f, s)
    ensures Left(SpacesAfterDigit, g, [buf[p]] + s)
  {
    if buf[p] == '\r' {
      g := BLANK.(tail := Modern(0, "", "", 0), cr := true);
      assert Repeat(' ', 0) == "";
    } else {
      g := f.(tail := f.tail.(pad := f.tail.pad + 1));
      RepeatNext(' ', f.tail.pad);
    }
  }

  // ---------------------------------------------------------------- after the URI

  /** One more space before the tail. */
  function Wider(t: Tail): Tail { t.(gap := t.gap + 1) }

  lemma WiderRest(f: Form)
    ensures PrintRest(Wider(f.tail), f.cr) == " " + PrintRest(f.tail, f.cr)
  {
    hide LineEnd, Version;
    RepeatNext(' ', Gap(f.tail));
    assert PrintVersion(Wider(f.tail), f.cr) == PrintVersion(f.tail, f.cr);
  }

  lemma RestStarts(t: Tail, cr: bool)
    ensures PrintRest(t, cr) != "" && PrintRest(t, cr)[0] in " \r\n"
  {
    if Gap(t) > 0 {
      RepeatNext(' ', Gap(t) - 1);
    }
  }

  lemma OneSpace(t: Tail, cr: bool)
    ensures Gap(t) == 1 ==> PrintRest(t, cr) == " " + PrintVersion(t, cr)
    ensures Gap(t) == 0 ==> PrintRest(t, cr) == LineEnd(cr)
  {
    RepeatNext(' ', 0);
  }

  /** The version or the end after at least one space. */
  lemma BackTail(buf: string, state: State, f: Form, s: string, r: Line, p: nat) returns (g: Form)
    requires p < |buf| && AfterUri(state) && buf[p] in "\rH"
    requires var o := Step(buf, state, r, p); o.Next? && Left(o.state, f, s)
    ensures TailFine(g) && g.path == Some("") && " " + ([buf[p]] + s) == PrintRest(g.tail, g.cr) && g.tail.Simple? == (buf[p] == '\r')
  {
    hide Step, Left, PrintRest;
    TailNext(buf, state, r, p);
    LeftTail(Step(buf, state, r, p).state, f, s);
    if buf[p] == '\r' {
      g := BLANK.(path := Some(""), tail := Simple(1), cr := true);
      OneSpace(g.tail, g.cr);
      assert PrintVersion(g.tail, g.cr) == ['\r'] + "\n";
    } else {
      g := f.(path := Some(""), tail := f.tail.(gap := 0));
      VersionIs(g);
      OneSpace(g.tail, g.cr);
      assert MajorEnd(g) == MajorEnd(f);
      Assoc("H", "TTP/", MajorEnd(f));
      assert "H" + "TTP/" == "HTTP/";
    }
  }

  lemma TailNext(buf: string, state: State, r: Line, p: nat)
    requires p < |buf| && AfterUri(state) && buf[p] in "\rH"
    ensures Step(buf, state, r, p).Next? && Step(buf, state, r, p).state == if buf[p] == 'H' then HttpH else AlmostDone
  {
  }

  lemma LeftTail(state: State, f: Form, s: string)
    ensures state == AlmostDone && Left(state, f, s) ==> s == "\n"
    ensures state == HttpH && Left(state, f, s) ==>
              f.tail.Modern? && VersionOk(f.tail.major, f.tail.minor) && s == "TTP/" + MajorEnd(f)
  {
    hide MajorEnd, VersionOk;
  }

  lemma BackHost09(buf: string, f: Form, s: string, r: Line, p: nat) returns (g: Form)
    requires p < |buf|
    requires var o := Step(buf, HostHttp09, r, p); o.Next? && Left(o.state, f, s)
    ensures Left(HostHttp09, g, [buf[p]] + s)
  {
    if buf[p] == ' ' {
      g := f.(tail := Wider(f.tail));
      WiderRest(f);
    } else {
      hide Left, Step;
      HostNext(buf, r, p);
      g := BackTail(buf, HostHttp09, f, s, r, p);
      HostLeft(g, [buf[p]] + s);
    }
  }

  lemma HostNext(buf: string, r: Line, p: nat)
    requires p < |buf| && Step(buf, HostHttp09, r, p).Next?
    ensures buf[p] in " \rH"
  {
  }

  lemma HostLeft(g: Form, s: string)
    requires TailFine(g) && " " + s == PrintRest(g.tail, g.cr)
    ensures Left(HostHttp09, g, s)
  {
  }

  // ---------------------------------------------------------------- the path

  lemma PathFront(f: Form, ch: char) returns (g: Form)
    requires f.path.Some? && PathFine(f) && ValueChar(ch)
    requires ch == ' ' ==> f.path.value != "" && f.path.value[0] != 'H'
    ensures g == f.(path := Some([ch] + f.path.value)) && PathFine(g) && PathEnd(g) == [ch] + PathEnd(f)
  {
    hide PrintRest, VersionOk;
    g := f.(path := Some([ch] + f.path.value));
    assert PathEnd(g) == [ch] + (f.path.value + PrintRest(f.tail, f.cr));
  }

  lemma PathNext(buf: string, state: State, r: Line, p: nat)
    requires p < |buf| && InPath(state) && Step(buf, state, r, p).Next?
    ensures var o := Step(buf, state, r, p);
            if buf[p] == ' ' then o.state == CheckUriHttp09 || o.state == Http09
            else if buf[p] == '\r' then o.state == AlmostDone
            else InPath(o.state) && ValueChar(buf[p])
  {
  }

  lemma BackPath(buf: string, state: State, f: Form, s: string, r: Line, p: nat) returns (g: Form)
    requires p < |buf| && InPath(state)
    requires var o := Step(buf, state, r, p); o.Next? && Left(o.state, f, s)
    ensures Left(state, g, [buf[p]] + s)
  {
    hide Step, PathEnd, PathFine, Left, InPath;
    PathNext(buf, state, r, p);
    LeftPath(Step(buf, state, r, p).state, f, s);
    if buf[p] == ' ' {
      g := f;
    } else if buf[p] == '\r' {
      g := BareEnd(true);
    } else {
      g := PathFront(f, buf[p]);
    }
    LeftPath(state, g, [buf[p]] + s);
  }

  lemma LeftPath(state: State, f: Form, s: string)
    ensures InPath(state) ==> (Left(state, f, s) <==> f.path.Some? && PathFine(f) && s == PathEnd(f))
    ensures state == CheckUriHttp09 || state == Http09 ==> (Left(state, f, s) <==> f.path.Some? && PathFine(f) && " " + s == PathEnd(f))
    ensures state == AlmostDone ==> (Left(state, f, s) <==> s == "\n")
  {
    hide PathFine, PathEnd;
  }

  /** No path and no spaces. */
  lemma BareEnd(cr: bool) returns (g: Form)
    ensures g == BLANK.(path := Some(""), cr := cr) && PathFine(g) && PathEnd(g) == LineEnd(cr)
  {
    g := BLANK.(path := Some(""), cr := cr);
    OneSpace(g.tail, cr);
  }

  lemma SpacesNext(buf: string, state: State, r: Line, p: nat)
    requires p < |buf| && (state == CheckUriHttp09 || state == Http09)
    ensures var o := Step(buf, state, r, p);
            && (o.Next? ==> (buf[p] == ' ' && o.state == state) || buf[p] in "\rH")
            && (o.Again? ==> InPath(o.state) && buf[p] !in " \r\nH")
  {
  }

  lemma BackSpaces(buf: string, state: State, f: Form, s: string, r: Line, p: nat) returns (g: Form)
    requires p < |buf| && (state == CheckUriHttp09 || state == Http09)
    requires var o := Step(buf, state, r, p); o.Next? && Left(o.state, f, s)
    ensures Left(state, g, [buf[p]] + s)
  {
    SpacesNext(buf, state, r, p);
    if buf[p] != ' ' {
      hide Left, Step;
      g := BackTail(buf, state, f, s, r, p);
      SpacesLeft(state, g, [buf[p]] + s);
    } else {
      hide Step, PathFine;
      g := MoreSpace(f, s);
    }
  }

  lemma MoreSpace(f: Form, s: string) returns (g: Form)
    requires f.path.Some? && PathFine(f) && " " + s == PathEnd(f)
    ensures g.path.Some? && PathFine(g) && " " + (" " + s) == PathEnd(g)
  {
    hide PrintRest, VersionOk, PathOk;
    if f.path.value == "" {
      g := f.(tail := Wider(f.tail));
      WiderRest(f);
      assert PathEnd(f) == PrintRest(f.tail, f.cr) && PathEnd(g) == PrintRest(g.tail, g.cr);
    } else {
      assert f.path.value[0] == PathEnd(f)[0] == ' ';
      g := PathFront(f, ' ');
    }
  }

  lemma SpacesLeft(state: State, g: Form, s: string)
    requires (state == CheckUriHttp09 || state == Http09) && TailFine(g) && g.path == Some("") && " " + s == PrintRest(g.tail, g.cr)
    ensures Left(state, g, s)
  {
    assert PathEnd(g) == PrintRest(g.tail, g.cr);
  }

  /** A byte read again: the space before it was part of the path. */
  lemma BackAgain(f: Form, s: string) returns (g: Form)
    requires f.path.Some? && PathFine(f) && s != "" && s == PathEnd(f) && s[0] !in " \r\nH"
    ensures g.path.Some? && PathFine(g) && " " + s == PathEnd(g)
  {
    RestStarts(f.tail, f.cr);
    hide PrintRest;
    assert f.path.value != "" && f.path.value[0] == s[0];
    g := PathFront(f, ' ');
  }

  // ---------------------------------------------------------------- the authority

  const NOBODY := Authority("", "", None)

  /** The slash or space after an authority. */
  lemma BackTarget(f: Form, s: string, ch: char, a: Authority) returns (g: Form)
    requires ch == '/' ==> f.path.Some? && PathFine(f) && s == PathEnd(f)
    requires ch == ' ' ==> TailFine(f) && " " + s == PrintRest(f.tail, f.cr)
    requires ch == '/' || ch == ' '
    ensures PathFine(g) && g.authority == Some(a) && TargetEnd(g) == [ch] + s
  {
    if ch == '/' {
      g := f.(authority := Some(a));
      assert "/" + f.path.value + PrintRest(f.tail, f.cr) == "/" + (f.path.value + PrintRest(f.tail, f.cr));
    } else {
      g := f.(authority := Some(a), path := None);
      OneSpace(f.tail, f.cr);
      assert (" " + s)[0] == ' ' && LineEnd(f.cr)[0] != ' ';
    }
  }

  lemma HostEndNext(buf: string, state: State, r: Line, p: nat)
    requires p < |buf| && state in {Port, HostEnd, Host, HostStart} && Step(buf, state, r, p).Next?
    ensures var o := Step(buf, state, r, p);
            match buf[p]
            case '/' => o.state == AfterSlashInUri
            case ' ' => o.state == HostHttp09
            case ':' => o.state == Port && state != Port
            case '[' => o.state == HostIpLiteral && state == HostStart
            case c => if state == Port then o.state == Port && IsDigit(c)
                      else o.state == Host && HostChar(c) && (state == Host || state == HostStart)
  {
  }

  lemma TargetLeft(buf: string, state: State, f: Form, s: string, r: Line, p: nat, a: Authority) returns (g: Form)
    requires p < |buf| && state in {Port, HostEnd, Host, HostStart} && (buf[p] == '/' || buf[p] == ' ')
    requires var o := Step(buf, state, r, p); o.Next? && Left(o.state, f, s)
    ensures PathFine(g) && g.authority == Some(a) && TargetEnd(g) == [buf[p]] + s
  {
    HostEndNext(buf, state, r, p);
    hide Step;
    g := BackTarget(f, s, buf[p], a);
  }

  lemma BackPort(buf: string, f: Form, s: string, r: Line, p: nat) returns (g: Form)
    requires p < |buf|
    requires var o := Step(buf, Port, r, p); o.Next? && Left(o.state, f, s)
    ensures Left(Port, g, [buf[p]] + s)
  {
    HostEndNext(buf, Port, r, p);
    if buf[p] == '/' || buf[p] == ' ' {
      g := TargetLeft(buf, Port, f, s, r, p, Authority("", "", Some("")));
    } else {
      hide Step, TargetEnd, PathFine;
      var a := f.authority.value;
      g := f.(authority := Some(a.(port := Some([buf[p]] + a.port.value))));
      PortMore(f, g, [buf[p]]);
    }
  }

  lemma PortMore(f: Form, g: Form, c: string)
    requires PortFine(f) && f.authority.value.port.Some? && AllDigits(c)
    requires g == f.(authority := Some(f.authority.value.(port := Some(c + f.authority.value.port.value))))
    ensures PortFine(g) && g.authority.value.port.value + TargetEnd(g) == c + (f.authority.value.port.value + TargetEnd(f))
  {
    hide PrintRest, VersionOk, PathOk;
  }

  /** What ends a host. */
  lemma BackHostEnd(buf: string, state: State, f: Form, s: string, r: Line, p: nat) returns (g: Form)
    requires p < |buf| && state in {HostEnd, Host, HostStart} && EndsHost(buf[p])
    requires var o := Step(buf, state, r, p); o.Next? && Left(o.state, f, s)
    ensures PortFine(g) && g.authority.value.host == "" && PortEnd(g) == [buf[p]] + s
  {
    HostEndNext(buf, state, r, p);
    if buf[p] == ':' {
      hide Step, TargetEnd, PathFine;
      var a := f.authority.value;
      g := f.(authority := Some(a.(host := "")));
      assert TargetEnd(g) == TargetEnd(f) && PathFine(g) by { SameEnd(f, g); }
      assert PortEnd(g) == ":" + (a.port.value + TargetEnd(f));
    } else {
      g := TargetLeft(buf, state, f, s, r, p, NOBODY);
    }
  }

  lemma SameEnd(f: Form, g: Form)
    requires g == f.(authority := g.authority)
    ensures TargetEnd(g) == TargetEnd(f) && (PathFine(g) <==> PathFine(f))
  {
  }

  lemma HostMore(f: Form, g: Form, c: string)
    requires f.authority.Some? && g == f.(authority := Some(f.authority.value.(host := c + f.authority.value.host)))
    ensures HostTail(g) == c + HostTail(f) && PortEnd(g) == PortEnd(f) && (PortFine(g) <==> PortFine(f))
  {
    hide PrintRest, VersionOk, PathOk, PrintPath, PrintPort;
  }

  lemma BackHost(buf: string, state: State, f: Form, s: string, r: Line, p: nat) returns (g: Form)
    requires p < |buf| && (state == Host || state == HostEnd)
    requires var o := Step(buf, state, r, p); o.Next? && Left(o.state, f, s)
    ensures Left(state, g, [buf[p]] + s)
  {
    HostEndNext(buf, state, r, p);
    if EndsHost(buf[p]) {
      hide Left, Step, PortFine, PortEnd;
      g := BackHostEnd(buf, state, f, s, r, p);
      EndLeft(state, g, [buf[p]] + s);
    } else {
      hide Step, PortFine, HostTail, PortEnd;
      g := f.(authority := Some(f.authority.value.(host := [buf[p]] + f.authority.value.host)));
      HostMore(f, g, [buf[p]]);
    }
  }

  lemma EndLeft(state: State, g: Form, s: string)
    requires (state == Host || state == HostEnd) && PortFine(g) && g.authority.value.host == "" && PortEnd(g) == s
    ensures Left(state, g, s)
  {
    assert HostTail(g) == PortEnd(g);
  }

  lemma LiteralNext(buf: string, r: Line, p: nat)
    requires p < |buf| && Step(buf, HostIpLiteral, r, p).Next?
    ensures var o := Step(buf, HostIpLiteral, r, p);
            if buf[p] == ']' then o.state == HostEnd else o.state == HostIpLiteral && LiteralChar(buf[p])
  {
  }

  lemma BackLiteral(buf: string, f: Form, s: string, r: Line, p: nat) returns (g: Form)
    requires p < |buf|
    requires var o := Step(buf, HostIpLiteral, r, p); o.Next? && Left(o.state, f, s)
    ensures Left(HostIpLiteral, g, [buf[p]] + s)
  {
    hide Step, PortFine, PortEnd, Left, Literals;
    LiteralNext(buf, r, p);
    LeftLiteral(Step(buf, HostIpLiteral, r, p).state, f, s);
    var a := f.authority.value;
    if buf[p] == ']' {
      g := f.(authority := Some(a.(host := "")));
      SamePort(f, g);
      MoreLiterals(']', "");
      assert "" + ("]" + PortEnd(g)) == "]" + PortEnd(f);
    } else {
      g := f.(authority := Some(a.(host := [buf[p]] + a.host)));
      HostMore(f, g, [buf[p]]);
      MoreLiterals(buf[p], a.host);
      Assoc([buf[p]], a.host, "]" + PortEnd(f));
    }
    LeftLiteral(HostIpLiteral, g, [buf[p]] + s);
  }

  lemma MoreLiterals(c: char, s: string)
    ensures Literals([c] + s) <==> LiteralChar(c) && Literals(s)
    ensures Literals("")
  {
    hide LiteralChar;
    if Literals([c] + s) {
      assert ([c] + s)[0] == c;
      assert forall i :: 0 <= i < |s| ==> s[i] == ([c] + s)[i + 1];
    }
  }

  lemma LeftLiteral(state: State, f: Form, s: string)
    ensures state == HostEnd && Left(state, f, s) ==> f.authority.Some? && PortFine(f) && s == PortEnd(f)
    ensures state == HostIpLiteral && Left(state, f, s) ==>
              f.authority.Some? && PortFine(f) && Literals(f.authority.value.host) && s == f.authority.value.host + ("]" + PortEnd(f))
    ensures f.authority.Some? && PortFine(f) && Literals(f.authority.value.host) && s == f.authority.value.host + ("]" + PortEnd(f)) ==>
              Left(HostIpLiteral, f, s)
  {
  }

  lemma SamePort(f: Form, g: Form)
    requires f.authority.Some? && g.authority.Some? && g == f.(authority := g.authority)
    requires g.authority.value.port == f.authority.value.port
    ensures PortEnd(g) == PortEnd(f) && (PortFine(g) <==> PortFine(f))
  {
  }

  lemma BackHostStart(buf: string, f: Form, s: string, r: Line, p: nat) returns (g: Form)
    requires p < |buf|
    requires var o := Step(buf, HostStart, r, p); o.Next? && Left(o.state, f, s)
    ensures Left(HostStart, g, [buf[p]] + s)
  {
    HostEndNext(buf, HostStart, r, p);
    if EndsHost(buf[p]) {
      hide Left, Step, PortFine, PortEnd;
      g := BackHostEnd(buf, HostStart, f, s, r, p);
      StartLeft(g, [buf[p]] + s);
    } else if buf[p] == '[' {
      hide Step, PortFine, HostTail, PortEnd;
      var a := f.authority.value;
      g := f.(authority := Some(a.(host := "[" + a.host + "]")));
      SamePort(f, g);
      LiteralTail(g, a.host);
    } else {
      hide Step, PortFine, HostTail, PortEnd;
      g := f.(authority := Some(f.authority.value.(host := [buf[p]] + f.authority.value.host)));
      HostMore(f, g, [buf[p]]);
    }
  }

  lemma StartLeft(g: Form, s: string)
    requires PortFine(g) && g.authority.value.host == "" && PortEnd(g) == s
    ensures Left(HostStart, g, s)
  {
    assert HostTail(g) == PortEnd(g);
  }

  lemma LiteralTail(g: Form, inner: string)
    requires g.authority.Some? && g.authority.value.host == "[" + inner + "]" && Literals(inner)
    ensures LiteralHost(g.authority.value.host) && HostTail(g) == "[" + (inner + ("]" + PortEnd(g)))
  {
    hide PortEnd, LiteralChar;
    var host := g.authority.value.host;
    forall i | 0 < i < |host| - 1 ensures LiteralChar(host[i]) {
      assert host[i] == inner[i - 1];
    }
  }

  lemma SchemaNext(buf: string, state: State, r: Line, p: nat)
    requires p < |buf| && state in {Schema, SchemaSlash, SchemaSlashSlash} && Step(buf, state, r, p).Next?
    ensures var o := Step(buf, state, r, p);
            && (state == Schema ==> if buf[p] == ':' then o.state == SchemaSlash else o.state == Schema && IsAlpha(buf[p]))
            && (state == SchemaSlash ==> buf[p] == '/' && o.state == SchemaSlashSlash)
            && (state == SchemaSlashSlash ==> buf[p] == '/' && o.state == HostStart)
  {
  }

  lemma LeftSchema(state: State, f: Form, s: string)
    ensures state == HostStart ==> (Left(state, f, s) <==> HostFine(f) && s == HostTail(f))
    ensures state == SchemaSlashSlash ==> (Left(state, f, s) <==> HostFine(f) && s == "/" + HostTail(f))
    ensures state == SchemaSlash ==> (Left(state, f, s) <==> HostFine(f) && s == "//" + HostTail(f))
    ensures state == Schema ==>
              (Left(state, f, s) <==>
               HostFine(f) && Alphas(f.authority.value.scheme) && s == f.authority.value.scheme + ("://" + HostTail(f)))
  {
    hide HostFine, HostTail, Alphas;
  }

  lemma SchemeMore(f: Form, g: Form, c: string)
    requires HostFine(f) && g == f.(authority := Some(f.authority.value.(scheme := c)))
    ensures HostFine(g) && HostTail(g) == HostTail(f)
  {
    hide PrintRest, VersionOk, PathOk;
  }

  lemma BackSchema(buf: string, state: State, f: Form, s: string, r: Line, p: nat) returns (g: Form)
    requires p < |buf| && state in {Schema, SchemaSlash, SchemaSlashSlash}
    requires var o := Step(buf, state, r, p); o.Next? && Left(o.state, f, s)
    ensures Left(state, g, [buf[p]] + s)
  {
    hide Step, Left, HostFine, HostTail;
    SchemaNext(buf, state, r, p);
    LeftSchema(Step(buf, state, r, p).state, f, s);
    HasAuthority(f);
    if state != Schema {
      g := f;
      Assoc("/", "/", HostTail(f));
    } else if buf[p] == ':' {
      g := SchemeFront(f, "");
      Assoc(":", "//", HostTail(f));
      assert ":" + "//" == "://";
    } else {
      g := SchemeFront(f, [buf[p]] + f.authority.value.scheme);
      Assoc([buf[p]], f.authority.value.scheme, "://" + HostTail(f));
    }
    LeftSchema(state, g, [buf[p]] + s);
  }

  lemma HasAuthority(f: Form)
    requires HostFine(f)
    ensures f.authority.Some?
  {
  }

  lemma SchemeFront(f: Form, c: string) returns (g: Form)
    requires HostFine(f)
    ensures f.authority.Some? && g == f.(authority := Some(f.authority.value.(scheme := c))) && HostFine(g) && HostTail(g) == HostTail(f)
  {
    g := f.(authority := Some(f.authority.value.(scheme := c)));
    SchemeMore(f, g, c);
  }

  // ---------------------------------------------------------------- the target

  lemma SpacesBeforeNext(buf: string, r: Line, p: nat)
    requires p < |buf| && Step(buf, SpacesBeforeUri, r, p).Next?
    ensures var o := Step(buf, SpacesBeforeUri, r, p);
            match buf[p]
            case '/' => o.state == AfterSlashInUri
            case ' ' => o.state == SpacesBeforeUri
            case c => o.state == Schema && IsAlpha(c)
  {
  }

  lemma LeftTarget(f: Form, s: string)
    ensures Left(SpacesBeforeUri, f, s) <==> TargetFine(f) && s == Repeat(' ', f.gap) + (PrintTarget(f) + PrintRest(f.tail, f.cr))
  {
    hide TargetFine, PrintTarget, PrintRest;
  }

  lemma BackBefore(buf: string, f: Form, s: string, r: Line, p: nat) returns (g: Form)
    requires p < |buf|
    requires var o := Step(buf, SpacesBeforeUri, r, p); o.Next? && Left(o.state, f, s)
    ensures Left(SpacesBeforeUri, g, [buf[p]] + s)
  {
    hide Step, Left;
    SpacesBeforeNext(buf, r, p);
    var next := Step(buf, SpacesBeforeUri, r, p).state;
    if buf[p] == ' ' {
      LeftTarget(f, s);
      g := f.(gap := f.gap + 1);
      MoreGap(f, g);
    } else if buf[p] == '/' {
      LeftPath(next, f, s);
      g := f.(authority := None, gap := 0);
      PathIsTarget(f, g);
    } else {
      LeftSchema(next, f, s);
      g := SchemeIsTarget(f, buf[p]);
    }
    LeftTarget(g, [buf[p]] + s);
  }

  lemma MoreGap(f: Form, g: Form)
    requires g == f.(gap := f.gap + 1)
    ensures (TargetFine(g) <==> TargetFine(f)) && PrintTarget(g) == PrintTarget(f)
    ensures Repeat(' ', g.gap) + (PrintTarget(g) + PrintRest(g.tail, g.cr))
         == [' '] + (Repeat(' ', f.gap) + (PrintTarget(f) + PrintRest(f.tail, f.cr)))
  {
    hide PrintRest, PrintAuthority, PrintPath, AuthorityOk, PathOk, VersionOk;
    RepeatNext(' ', f.gap);
    assert PrintTarget(g) == PrintTarget(f);
    Assoc([' '], Repeat(' ', f.gap), PrintTarget(f) + PrintRest(f.tail, f.cr));
  }

  lemma PathIsTarget(f: Form, g: Form)
    requires f.path.Some? && PathFine(f) && g == f.(authority := None, gap := 0)
    ensures TargetFine(g) && Repeat(' ', 0) + (PrintTarget(g) + PrintRest(g.tail, g.cr)) == ['/'] + PathEnd(f)
  {
    hide PrintRest, PathOk, VersionOk;
    Assoc("/", f.path.value, PrintRest(f.tail, f.cr));
    assert PrintTarget(g) == "/" + f.path.value;
    assert Repeat(' ', 0) == "";
  }

  lemma SchemeIsTarget(f: Form, c: char) returns (g: Form)
    requires HostFine(f) && Alphas(f.authority.value.scheme) && IsAlpha(c)
    ensures TargetFine(g) && Repeat(' ', g.gap) + (PrintTarget(g) + PrintRest(g.tail, g.cr))
                             == [c] + (f.authority.value.scheme + ("://" + HostTail(f)))
  {
    var a := f.authority.value;
    g := f.(gap := 0, authority := Some(a.(scheme := [c] + a.scheme)));
    hide PrintRest, PathOk, VersionOk, PlainHost, LiteralHost, AllDigits, IsAlpha;
    var rest, path, port := PrintRest(f.tail, f.cr), PrintPath(f.path), PrintPort(a.port);
    assert Repeat(' ', 0) == "";
    hide PrintPath, PrintPort;
    AuthorityEnd([c] + a.scheme, a.host, port, path, rest);
    Assoc([c], a.scheme, "://" + HostTail(f));
  }

  lemma AuthorityEnd(scheme: string, host: string, port: string, path: string, rest: string)
    ensures ((scheme + ("://" + (host + port))) + path) + rest == scheme + ("://" + (host + (port + (path + rest))))
  {
    Assoc(scheme + ("://" + (host + port)), path, rest);
    Assoc(scheme, "://" + (host + port), path + rest);
    Assoc("://", host + port, path + rest);
    Assoc(host, port, path + rest);
  }

  // ---------------------------------------------------------------- a line from its end

  lemma BackDone(buf: string, state: State, r: Line, p: nat) returns (g: Form)
    requires p < |buf| && Step(buf, state, r, p).Done?
    ensures Left(state, g, [buf[p]])
  {
    hide Step, Left, PathEnd, PathFine;
    DoneStep(buf, state, r, p);
    if state == MinorDigit || state == SpacesAfterDigit {
      g := VersionDone(state);
    } else if state == HostHttp09 {
      g := SpacedEnd();
      HostLeft(g, "\n");
    } else if AfterUri(state) {
      g := SpacedEnd();
      LeftPath(state, g, "\n");
    } else {
      g := BareEnd(false);
      LeftPath(state, g, "\n");
    }
  }

  lemma VersionDone(state: State) returns (g: Form)
    requires state == MinorDigit || state == SpacesAfterDigit
    ensures Left(state, g, "\n")
  {
    g := BLANK.(tail := Modern(0, "", "", 0));
    assert Repeat(' ', 0) == "";
  }

  /** No path and one space. */
  lemma SpacedEnd() returns (g: Form)
    ensures g.path.Some? && PathFine(g) && TailFine(g) && PathEnd(g) == " " + "\n" && PrintRest(g.tail, g.cr) == " " + "\n"
  {
    g := BLANK.(path := Some(""), tail := Simple(1));
    OneSpace(g.tail, g.cr);
  }

  lemma DoneStep(buf: string, state: State, r: Line, p: nat)
    requires p < |buf| && Step(buf, state, r, p).Done?
    ensures buf[p] == '\n' && (MayEnd(state) || state == AlmostDone)
  {
  }

  lemma BackNext(buf: string, state: State, f: Form, s: string, r: Line, p: nat) returns (g: Form)
    requires p < |buf| && state != Start && state != InMethod
    requires var o := Step(buf, state, r, p); o.Next? && Left(o.state, f, s)
    ensures Left(state, g, [buf[p]] + s)
  {
    hide Left, Step;
    if EarlyState(state) {
      g := BackEarly(buf, state, f, s, r, p);
    } else {
      g := BackLate(buf, state, f, s, r, p);
    }
  }

  /** Up to the end of the authority. */
  predicate EarlyState(state: State) {
    state in {SpacesBeforeUri, Schema, SchemaSlash, SchemaSlashSlash, HostStart, Host, HostEnd, HostIpLiteral, Port}
  }

  lemma BackEarly(buf: string, state: State, f: Form, s: string, r: Line, p: nat) returns (g: Form)
    requires p < |buf| && EarlyState(state)
    requires var o := Step(buf, state, r, p); o.Next? && Left(o.state, f, s)
    ensures Left(state, g, [buf[p]] + s)
  {
    hide Left, Step;
    match state
    case SpacesBeforeUri => g := BackBefore(buf, f, s, r, p);
    case HostStart => g := BackHostStart(buf, f, s, r, p);
    case Host => g := BackHost(buf, state, f, s, r, p);
    case HostEnd => g := BackHost(buf, state, f, s, r, p);
    case HostIpLiteral => g := BackLiteral(buf, f, s, r, p);
    case Port => g := BackPort(buf, f, s, r, p);
    case _ => g := BackSchema(buf, state, f, s, r, p);
  }

  lemma BackLate(buf: string, state: State, f: Form, s: string, r: Line, p: nat) returns (g: Form)
    requires p < |buf| && state != Start && state != InMethod && !EarlyState(state)
    requires var o := Step(buf, state, r, p); o.Next? && Left(o.state, f, s)
    ensures Left(state, g, [buf[p]] + s)
  {
    hide Left, Step;
    AlmostEnds(buf, state, r, p);
    if InPath(state) {
      g := BackPath(buf, state, f, s, r, p);
    } else if state == CheckUriHttp09 || state == Http09 {
      g := BackSpaces(buf, state, f, s, r, p);
    } else if state == HostHttp09 {
      g := BackHost09(buf, f, s, r, p);
    } else if state == FirstMajorDigit || state == MajorDigit {
      g := BackMajor(buf, state, f, s, r, p);
    } else if state == FirstMinorDigit || state == MinorDigit {
      g := BackMinor(buf, state, f, s, r, p);
    } else if state == SpacesAfterDigit {
      g := BackPad(buf, f, s, r, p);
    } else {
      g := BackVersion(buf, state, f, s, r, p);
    }
  }

  lemma AlmostEnds(buf: string, state: State, r: Line, p: nat)
    requires p < |buf| && Step(buf, state, r, p).Next?
    ensures state != AlmostDone
  {
  }

  lemma SpacesAgain(state: State, f: Form, s: string, next: State) returns (g: Form)
    requires (state == CheckUriHttp09 || state == Http09) && InPath(next) && Left(next, f, s) && s != "" && s[0] !in " \r\nH"
    ensures Left(state, g, s)
  {
    hide Left, PathFine, PathEnd;
    LeftPath(next, f, s);
    g := BackAgain(f, s);
    LeftPath(state, g, s);
  }

  /** From any state after the method, the machine ends a line only at the end of what is left of one. */
  lemma {:induction false} TakenIsLeft(buf: string, state: State, r: Line, p: nat) returns (f: Form)
    requires p <= |buf| && state != Start && state != InMethod && Run(buf, state, r, p).Ended?
    ensures Left(state, f, buf[p..Run(buf, state, r, p).pos])
    decreases |buf| - p, MayReread(state)
  {
    hide Left, Step, Complete;
    var o, end := Step(buf, state, r, p), Run(buf, state, r, p).pos;
    StaysAfter(buf, state, r, p);
    match o
    case Next(next, r') =>
      var g := TakenIsLeft(buf, next, r', p + 1);
      f := BackNext(buf, state, g, buf[p + 1..end], r, p);
      assert buf[p..end] == [buf[p]] + buf[p + 1..end];
    case Again(next, r') =>
      var g := TakenIsLeft(buf, next, r', p);
      assert buf[p..end][0] == buf[p];
      f := SpacesAgain(state, g, buf[p..end], next);
    case Done(_) =>
      f := BackDone(buf, state, r, p);
      assert buf[p..end] == [buf[p]];
  }

  lemma StaysAfter(buf: string, state: State, r: Line, p: nat)
    requires p < |buf| && state != Start && state != InMethod
    ensures var o := Step(buf, state, r, p);
            && (o.Next? || o.Again? ==> o.state != Start && o.state != InMethod)
            && (o.Again? ==> (state == CheckUriHttp09 || state == Http09) && InPath(o.state) && buf[p] !in " \r\nH")
  {
  }

  // ---------------------------------------------------------------- the method and what is before it

  lemma MethodNext(buf: string, r: Line, p: nat)
    requires p < |buf|
    ensures var o := Step(buf, InMethod, r, p);
            && !o.Again? && !o.Done?
            && (o.Next? ==> if buf[p] == ' ' then o.state == SpacesBeforeUri && MethodOf(Slice(buf, r.head.methodName.p, p)) != Unknown
                            else o.state == InMethod && o.r == r)
  {
  }

  lemma KnownName(name: string)
    requires MethodOf(name) != Unknown
    ensures name == NameOf(MethodOf(name))
  {
    MethodNames(name, MethodOf(name));
  }

  lemma {:induction false} BackMethod(buf: string, r: Line, a: nat, p: nat) returns (f: Form)
    requires a <= p <= |buf| && r.head.methodName.p == a && Run(buf, InMethod, r, p).Ended?
    ensures f.m != Unknown && TargetFine(f)
    ensures var end := Run(buf, InMethod, r, p).pos;
            buf[a..end] == NameOf(f.m) + (" " + (Repeat(' ', f.gap) + (PrintTarget(f) + PrintRest(f.tail, f.cr))))
    decreases |buf| - p
  {
    hide Step, MethodOf, NameOf, TargetFine, PrintTarget, PrintRest, Left, Complete;
    var o, end := Step(buf, InMethod, r, p), Run(buf, InMethod, r, p).pos;
    MethodNext(buf, r, p);
    if buf[p] == ' ' {
      var g := TakenIsLeft(buf, SpacesBeforeUri, o.r, p + 1);
      LeftTarget(g, buf[p + 1..end]);
      KnownName(Slice(buf, a, p));
      f := g.(m := MethodOf(Slice(buf, a, p)));
      SameButMethod(f, g);
      assert buf[a..end] == buf[a..p] + ([buf[p]] + buf[p + 1..end]);
    } else {
      f := BackMethod(buf, r, a, p + 1);
    }
  }

  lemma SameButMethod(f: Form, g: Form)
    requires f == g.(m := f.m, lead := f.lead)
    ensures (TargetFine(f) <==> TargetFine(g)) && PrintTarget(f) == PrintTarget(g)
  {
    hide PrintAuthority, PrintPath, AuthorityOk, PathOk, VersionOk;
  }

  lemma StartNext(buf: string, r: Line, p: nat)
    requires p < |buf|
    ensures var o := Step(buf, Start, r, p);
            && !o.Again? && !o.Done?
            && (o.Next? ==> if buf[p] == '\r' || buf[p] == '\n' then o.state == Start
                            else o.state == InMethod && o.r.head.methodName.p == p)
  {
  }

  lemma FineIsProper(f: Form)
    ensures Proper(f) <==> LeadOk(f.lead) && f.m != Unknown && TargetFine(f)
  {
    hide LeadOk, AuthorityOk, PathOk, VersionOk;
  }

  /** A line that the machine takes has one of the forms, up to its last byte. */
  lemma {:induction false} TakenIsForm(buf: string, r: Line, p: nat) returns (f: Form)
    requires p <= |buf| && Run(buf, Start, r, p).Ended?
    ensures Proper(f) && buf[p..Run(buf, Start, r, p).pos] == PrintForm(f)
    decreases |buf| - p
  {
    hide Step, NameOf, TargetFine, PrintTarget, PrintRest, Proper, Complete;
    var o, end := Step(buf, Start, r, p), Run(buf, Start, r, p).pos;
    StartNext(buf, r, p);
    if buf[p] == '\r' || buf[p] == '\n' {
      var g := TakenIsForm(buf, o.r, p + 1);
      f := g.(lead := [buf[p]] + g.lead);
      FineIsProper(g);
      FineIsProper(f);
      SameButMethod(f, g);
      assert buf[p..end] == [buf[p]] + buf[p + 1..end];
      Assoc([buf[p]], g.lead, NameOf(f.m) + (" " + (Repeat(' ', f.gap) + (PrintTarget(f) + PrintRest(f.tail, f.cr)))));
    } else {
      var g := BackMethod(buf, o.r, p, p + 1);
      f := g.(lead := "");
      FineIsProper(f);
      SameButMethod(f, g);
    }
  }

  /** The machine ends a line exactly when a line of one of the forms is there. */
  lemma TakenExactly(buf: string, r: Line, p: nat)
    requires p <= |buf|
    ensures Run(buf, Start, r, p).Ended? <==> exists f :: Proper(f) && Here(buf, p, PrintForm(f))
  {
    hide PrintForm, Proper, Run;
    if Run(buf, Start, r, p).Ended? {
      var f := TakenIsForm(buf, r, p);
      EndedRoom(buf, r, p);
      assert Here(buf, p, PrintForm(f));
    }
    if f :| Proper(f) && Here(buf, p, PrintForm(f)) {
      var _, _ := FormRead(buf, f, r, p);
    }
  }

  lemma EndedRoom(buf: string, r: Line, p: nat)
    requires p <= |buf| && Run(buf, Start, r, p).Ended?
    ensures p < Run(buf, Start, r, p).pos <= |buf|
  {
  }
}
