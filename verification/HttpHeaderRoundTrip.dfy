/**
 * Header lines (section 5 of RFC 9112, with every liberty the parser takes)
 * and the header machine: each is read back by one call, as
 * `http_process_request_header` makes them, and no other line is taken.
 */
module HttpHeaderRoundTrip {
  import opened HttpLine
  import opened HttpHeader

  // ---------------------------------------------------------------- lines

  function Repeat(c: char, n: nat): (s: string)
    ensures |s| == n && forall i :: 0 <= i < n ==> s[i] == c
  {
    seq(n, _ => c)
  }

  lemma RepeatNext(c: char, n: nat)
    ensures Repeat(c, n + 1) == [c] + Repeat(c, n)
  {
  }

  /** The end of a line: any number of CRs, then LF. */
  function Eol(crs: nat): string { Repeat('\r', crs) + "\n" }

  lemma EolNext(crs: nat)
    ensures Eol(crs + 1) == ['\r'] + Eol(crs)
  {
    RepeatNext('\r', crs);
    assert ['\r'] + Repeat('\r', crs) + "\n" == ['\r'] + (Repeat('\r', crs) + "\n");
  }

  /** A name alone on its line, or a colon and a value between spaces. */
  datatype Layout = Bare(crs: nat) | Colon(before: nat, after: nat, crs: nat)

  datatype Field = Field(name: string, value: string, layout: Layout)

  /** A value and the end of its line. */
  function PrintEnd(f: Field): string { f.value + (Repeat(' ', if f.layout.Colon? then f.layout.after else 0) + Eol(f.layout.crs)) }

  function PrintValue(f: Field): string
    requires f.layout.Colon?
  {
    Repeat(' ', f.layout.before) + PrintEnd(f)
  }

  /** All of a line after the name. */
  function PrintTail(f: Field): string { if f.layout.Colon? then ":" + PrintValue(f) else Eol(f.layout.crs) }

  function Print(f: Field): string { f.name + PrintTail(f) }

  predicate NameChar(c: char) { '0' <= c <= '9' || 'A' <= c <= 'Z' || 'a' <= c <= 'z' || c == '-' }

  predicate ValueChar(c: char) { c != '\r' && c != '\n' && c != '\0' }

  predicate AllValue(s: string) { forall i :: 0 <= i < |s| ==> ValueChar(s[i]) }

  /** Bytes that do not end a name, after its first one. */
  predicate Inner(s: string) { forall i :: 0 <= i < |s| ==> ValueChar(s[i]) && s[i] != ':' }

  predicate NoOuterSpace(s: string) { s != "" ==> s[0] != ' ' && s[|s| - 1] != ' ' }

  predicate ValueOk(f: Field) {
    AllValue(f.value) && NoOuterSpace(f.value) && (f.layout.Bare? ==> f.value == "")
  }

  /** What the machine takes for a header: any name without CR, LF, NUL and, after its first byte, colon. */
  predicate FieldLine(f: Field) {
    f.name != "" && ValueChar(f.name[0]) && Inner(f.name[1..]) && ValueOk(f)
  }

  predicate ValidName(name: string) { forall i :: 0 <= i < |name| ==> NameChar(name[i]) }

  /** And one that handlers see: a name over [0-9A-Za-z-]. */
  predicate Printable(f: Field) { f.name != "" && ValidName(f.name) && ValueOk(f) }

  lemma PrintableLine(f: Field)
    requires Printable(f)
    ensures FieldLine(f)
  {
  }

  function PrintAll(fs: seq<Field>): string {
    if fs == [] then "\r\n" else Print(fs[0]) + PrintAll(fs[1..])
  }

  function Text(buf: string, s: Str): string {
    if 0 <= s.p && 0 <= s.len && s.p + s.len <= |buf| then buf[s.p..s.p + s.len] else ""
  }

  /** `x` is in `buf` at `p`. */
  predicate Here(buf: string, p: nat, x: string) {
    p + |x| <= |buf| && buf[p..p + |x|] == x
  }

  lemma HereAt(buf: string, p: nat, x: string, i: nat)
    requires Here(buf, p, x) && i < |x|
    ensures p + i < |buf| && buf[p + i] == x[i]
  {
  }

  lemma HereSplit(buf: string, p: nat, x: string, y: string)
    requires Here(buf, p, x + y)
    ensures Here(buf, p, x) && Here(buf, p + |x|, y)
  {
    var w := buf[p..p + |x + y|];
    assert w[..|x|] == x && w[|x|..] == y;
    assert w[..|x|] == buf[p..p + |x|] && w[|x|..] == buf[p + |x|..p + |x| + |y|];
  }

  // ---------------------------------------------------------------- hashes of names

  /** The hash goes on from `k` over the name characters alone. */
  function HashOn(k: int, s: string): int {
    if s == "" then k
    else
      var before := HashOn(k, s[..|s| - 1]);
      if NameChar(s[|s| - 1]) then Hash(before, ToLower(s[|s| - 1])) else before
  }

  /** A first byte that is no name character leaves the hash of the header before. */
  function NameHash(k: int, name: string): int { HashOn(if name != "" && NameChar(name[0]) then 0 else k, name) }

  lemma HashOnNext(k: int, s: string, i: nat)
    requires i < |s|
    ensures HashOn(k, s[..i + 1]) == if NameChar(s[i]) then Hash(HashOn(k, s[..i]), ToLower(s[i])) else HashOn(k, s[..i])
  {
    assert s[..i + 1][..i] == s[..i];
  }

  lemma {:induction false} HashOnValid(s: string)
    requires ValidName(s)
    ensures HashOn(0, s) == HashLc(s)
  {
    if s != "" {
      HashOnValid(s[..|s| - 1]);
    }
  }

  lemma HashNext(name: string, i: nat)
    requires i < |name|
    ensures HashLc(name[..i + 1]) == Hash(HashLc(name[..i]), ToLower(name[i]))
  {
    assert name[..i + 1][..i] == name[..i];
  }

  // ---------------------------------------------------------------- reading a line

  /** A step of the machine, as an equation between runs. */
  lemma OneStep(buf: string, state: HState, h: Header, p: nat)
    requires p < |buf|
    ensures var o := HStep(state, h, p, buf[p]);
            && (o.HNext? ==> HRun(buf, state, h, p) == HRun(buf, o.state, o.h, p + 1))
            && (o.HDone? ==> HRun(buf, state, h, p) == HLine(o.h, p + 1))
            && (o.HHeaderDone? ==> HRun(buf, state, h, p) == HEnd(o.h, p + 1))
            && (o.HFail? ==> HRun(buf, state, h, p) == HRefused(o.code, o.h))
  {
  }

  /** The 32 bytes of lowcase_header hold the name in lower case, or its last 32 bytes, going round. */
  ghost predicate Copied(h: Header, name: string) {
    && |h.lowcase| == LC_HEADER_LEN && h.lowIndex == |name| % LC_HEADER_LEN
    && forall k :: 0 <= k < |name| && |name| - LC_HEADER_LEN <= k ==> h.lowcase[k % LC_HEADER_LEN] == ToLower(name[k])
  }

  lemma GoesRound(i: nat)
    ensures (i % LC_HEADER_LEN + 1) % LC_HEADER_LEN == (i + 1) % LC_HEADER_LEN
  {
  }

  lemma NotYetRound(k: nat, i: nat)
    requires k < i < k + LC_HEADER_LEN
    ensures k % LC_HEADER_LEN != i % LC_HEADER_LEN
  {
  }

  lemma CopyNext(h: Header, name: string, i: nat, hash: int)
    requires i < |name| && NameChar(name[i]) && Copied(h, name[..i])
    ensures var h' := PutLow(h, h.lowIndex, Lowcase(name[i]));
            Copied(h'.(hash := hash, lowIndex := (h.lowIndex + 1) % LC_HEADER_LEN), name[..i + 1])
  {
    var x := PutLow(h, h.lowIndex, Lowcase(name[i]));
    GoesRound(i);
    forall k | 0 <= k <= i && i + 1 - LC_HEADER_LEN <= k ensures x.lowcase[k % LC_HEADER_LEN] == ToLower(name[..i + 1][k]) {
      if k < i {
        NotYetRound(k, i);
        assert name[..i][k] == name[k];
      }
    }
  }

  /** What has been recorded of the first bytes of a name. */
  ghost predicate Named(h: Header, h': Header, p: nat, name: string) {
    && h'.name.p == p && h'.hash == NameHash(h.hash, name)
    && (h'.invalid <==> !ValidName(name)) && |h'.lowcase| == |h.lowcase|
    && (ValidName(name) && |h.lowcase| == LC_HEADER_LEN ==> Copied(h', name))
  }

  lemma FirstStep(h: Header, p: nat, ch: char)
    requires ValueChar(ch)
    ensures var o := HStep(HStart, h, p, ch); o.HNext? && o.state == HName && Named(h, o.h, p, [ch])
  {
    assert [ch][..0] == "" && HashOn(0, "") == 0 && HashOn(h.hash, "") == h.hash;
    HashOnNext(if NameChar(ch) then 0 else h.hash, [ch], 0);
    assert [ch][..1] == [ch];
  }

  lemma NameStep(h: Header, h0: Header, p: nat, name: string, i: nat)
    requires 1 <= i < |name| && Inner(name[1..]) && Named(h0, h, p, name[..i])
    ensures var o := HStep(HName, h, p + i, name[i]);
            && o.HNext? && o.state == HName && Named(h0, o.h, p, name[..i + 1])
  {
    assert name[i] == name[1..][i - 1];
    assert name[..i][0] == name[0] == name[..i + 1][0];
    HashOnNext(if NameChar(name[0]) then 0 else h0.hash, name, i);
    ValidNext(name, i);
    if ValidName(name[..i + 1]) && |h0.lowcase| == LC_HEADER_LEN {
      CopyNext(h, name, i, Hash(h.hash, Lowcase(name[i])));
    }
    hide HashOn, Copied, ValidName;
  }

  lemma ValidNext(name: string, i: nat)
    requires i < |name|
    ensures ValidName(name[..i + 1]) <==> ValidName(name[..i]) && NameChar(name[i])
  {
    if ValidName(name[..i + 1]) {
      assert forall k :: 0 <= k <= i ==> name[..i + 1][k] == name[k];
    }
  }

  /** Reading the rest of a name, after its first `i` characters. */
  lemma {:induction false} ReadName(buf: string, name: string, h0: Header, h: Header, p: nat, i: nat) returns (h': Header)
    requires Here(buf, p, name) && 1 <= i <= |name| && Inner(name[1..]) && Named(h0, h, p, name[..i])
    ensures HRun(buf, HName, h, p + i) == HRun(buf, HName, h', p + |name|) && Named(h0, h', p, name)
    decreases |name| - i
  {
    hide HRun, HStep, Named, Here;
    if i == |name| {
      assert name[..i] == name;
      h' := h;
    } else {
      HereAt(buf, p, name, i);
      OneStep(buf, HName, h, p + i);
      NameStep(h, h0, p, name, i);
      h' := ReadName(buf, name, h0, HStep(HName, h, p + i, name[i]).h, p, i + 1);
    }
  }

  lemma ReadWholeName(buf: string, name: string, h: Header, p: nat) returns (h': Header)
    requires name != "" && ValueChar(name[0]) && Inner(name[1..]) && Here(buf, p, name)
    ensures HRun(buf, HStart, h, p) == HRun(buf, HName, h', p + |name|) && Named(h, h', p, name)
  {
    hide HRun, HStep, Named;
    HereAt(buf, p, name, 0);
    FirstStep(h, p, name[0]);
    OneStep(buf, HStart, h, p);
    assert name[..1] == [name[0]];
    h' := ReadName(buf, name, h, HStep(HStart, h, p, name[0]).h, p, 1);
  }

  lemma {:induction false} ReadSpacesBefore(buf: string, n: nat, h: Header, p: nat)
    requires Here(buf, p, Repeat(' ', n))
    ensures HRun(buf, HSpaceBeforeValue, h, p) == HRun(buf, HSpaceBeforeValue, h, p + n)
    decreases n
  {
    if n > 0 {
      HereAt(buf, p, Repeat(' ', n), 0);
      RepeatNext(' ', n - 1);
      HereSplit(buf, p, " ", Repeat(' ', n - 1));
      OneStep(buf, HSpaceBeforeValue, h, p);
      hide HRun;
      ReadSpacesBefore(buf, n - 1, h, p + 1);
    }
  }

  /** The state after some characters of a value: inside it, or in a run of spaces that may still be inner. */
  function ValueState(last: char): HState { if last == ' ' then HSpaceAfterValue else HValue }

  /** Reading the rest of a value, after its first `i` characters. */
  lemma {:induction false} ReadValue(buf: string, value: string, h: Header, p: nat, i: nat) returns (h': Header)
    requires Here(buf, p, value) && 1 <= i <= |value| && AllValue(value) && value[|value| - 1] != ' ' && h.value.p == p
    ensures HRun(buf, ValueState(value[i - 1]), h, p + i) == HRun(buf, HValue, h', p + |value|)
    ensures h'.value.p == p && h' == h.(value := h'.value)
    decreases |value| - i
  {
    if i == |value| {
      h' := h;
    } else {
      HereAt(buf, p, value, i);
      var next := if value[i] == ' ' && value[i - 1] != ' ' then EndValue(h, p + i) else h;
      assert HRun(buf, ValueState(value[i - 1]), h, p + i) == HRun(buf, ValueState(value[i]), next, p + i + 1);
      h' := ReadValue(buf, value, next, p, i + 1);
    }
  }

  lemma {:induction false} ReadSpacesAfter(buf: string, n: nat, h: Header, p: nat)
    requires Here(buf, p, Repeat(' ', n))
    ensures HRun(buf, HSpaceAfterValue, h, p) == HRun(buf, HSpaceAfterValue, h, p + n)
    decreases n
  {
    if n > 0 {
      HereAt(buf, p, Repeat(' ', n), 0);
      RepeatNext(' ', n - 1);
      HereSplit(buf, p, " ", Repeat(' ', n - 1));
      OneStep(buf, HSpaceAfterValue, h, p);
      hide HRun;
      ReadSpacesAfter(buf, n - 1, h, p + 1);
    }
  }

  lemma {:induction false} ReadCrs(buf: string, crs: nat, h: Header, p: nat)
    requires Here(buf, p, Eol(crs))
    ensures HRun(buf, HAlmostDone, h, p) == HLine(h, p + crs + 1)
    decreases crs
  {
    HereAt(buf, p, Eol(crs), 0);
    OneStep(buf, HAlmostDone, h, p);
    if crs > 0 {
      EolNext(crs - 1);
      HereSplit(buf, p, ['\r'], Eol(crs - 1));
      hide HRun, Eol;
      ReadCrs(buf, crs - 1, h, p + 1);
    }
  }

  /** The end of a line, from any state that a line can end in. */
  lemma ReadEol(buf: string, state: HState, crs: nat, h: Header, p: nat) returns (h': Header)
    requires Here(buf, p, Eol(crs)) && state != HStart && state != HHeaderAlmostDone
    ensures HRun(buf, state, h, p) == HLine(h', p + crs + 1)
    ensures h' == match state
                  case HName => EndName(h, p).(value := NoStr)
                  case HSpaceBeforeValue => h.(value := NoStr)
                  case HValue => EndValue(h, p)
                  case _ => h
  {
    HereAt(buf, p, Eol(crs), 0);
    OneStep(buf, state, h, p);
    h' := match state
          case HName => EndName(h, p).(value := NoStr)
          case HSpaceBeforeValue => h.(value := NoStr)
          case HValue => EndValue(h, p)
          case _ => h;
    if crs > 0 {
      EolNext(crs - 1);
      HereSplit(buf, p, ['\r'], Eol(crs - 1));
      ReadCrs(buf, crs - 1, h', p + 1);
    }
  }

  /** Spaces after a value and the end of the line. */
  lemma ReadEnd(buf: string, after: nat, crs: nat, h: Header, p: nat) returns (h': Header)
    requires Here(buf, p, Repeat(' ', after) + Eol(crs))
    ensures HRun(buf, HValue, h, p) == HLine(h', p + after + crs + 1) && h' == EndValue(h, p)
  {
    hide HRun, Eol, Here;
    HereSplit(buf, p, Repeat(' ', after), Eol(crs));
    if after == 0 {
      h' := ReadEol(buf, HValue, crs, h, p);
    } else {
      HereAt(buf, p, Repeat(' ', after), 0);
      RepeatNext(' ', after - 1);
      HereSplit(buf, p, " ", Repeat(' ', after - 1));
      OneStep(buf, HValue, h, p);
      ReadSpacesAfter(buf, after - 1, EndValue(h, p), p + 1);
      h' := ReadEol(buf, HSpaceAfterValue, crs, EndValue(h, p), p + after);
    }
  }

  /** Where the value of a field printed at `p` lies. */
  function ValueSpan(f: Field, p: nat): Str {
    if f.value == "" || f.layout.Bare? then NoStr else Str(p + |f.name| + 1 + f.layout.before, |f.value|)
  }

  lemma ValueHere(buf: string, f: Field, p: nat)
    requires f.layout.Colon? && Here(buf, p, PrintValue(f))
    ensures var q := p + f.layout.before;
            && Here(buf, p, Repeat(' ', f.layout.before)) && Here(buf, q, f.value)
            && Here(buf, q + |f.value|, Repeat(' ', f.layout.after) + Eol(f.layout.crs))
    ensures |PrintValue(f)| == f.layout.before + |f.value| + f.layout.after + f.layout.crs + 1
  {
    HereSplit(buf, p, Repeat(' ', f.layout.before), PrintEnd(f));
    HereSplit(buf, p + f.layout.before, f.value, Repeat(' ', f.layout.after) + Eol(f.layout.crs));
  }

  /** A value between its spaces, and the end of its line. */
  lemma ReadTail(buf: string, f: Field, h: Header, p: nat) returns (h': Header)
    requires ValueOk(f) && f.layout.Colon? && Here(buf, p, PrintValue(f))
    ensures HRun(buf, HSpaceBeforeValue, h, p) == HLine(h', p + |PrintValue(f)|)
    ensures h' == h.(value := if f.value == "" then NoStr else Str(p + f.layout.before, |f.value|))
  {
    hide HRun, Eol, Here, PrintValue;
    var b, a, crs := f.layout.before, f.layout.after, f.layout.crs;
    var q := p + b;
    ValueHere(buf, f, p);
    ReadSpacesBefore(buf, b, h, p);
    if f.value == "" {
      HereSplit(buf, q, Repeat(' ', a), Eol(crs));
      ReadSpacesBefore(buf, a, h, q);
      h' := ReadEol(buf, HSpaceBeforeValue, crs, h, q + a);
    } else {
      h' := ReadFull(buf, f.value, a, crs, h, q);
    }
  }

  lemma ReadFull(buf: string, value: string, after: nat, crs: nat, h: Header, p: nat) returns (h': Header)
    requires value != "" && AllValue(value) && NoOuterSpace(value)
    requires Here(buf, p, value) && Here(buf, p + |value|, Repeat(' ', after) + Eol(crs))
    ensures HRun(buf, HSpaceBeforeValue, h, p) == HLine(h', p + |value| + after + crs + 1)
    ensures h' == h.(value := Str(p, |value|))
  {
    hide HRun, Eol, Here;
    HereAt(buf, p, value, 0);
    OneStep(buf, HSpaceBeforeValue, h, p);
    var h1 := ReadValue(buf, value, h.(value := h.value.(p := p)), p, 1);
    h' := ReadEnd(buf, after, crs, h1, p + |value|);
  }

  /**
   * Every header line, whatever its spaces and its end, is read back by one call:
   * where its name and its value lie, without outer spaces, the hash, whether the
   * name is invalid, and the lower-case copy of one that is not.
   */
  lemma ReadLine(buf: string, f: Field, h: Header, p: nat) returns (h': Header)
    requires FieldLine(f) && Here(buf, p, Print(f))
    ensures HRun(buf, HStart, h, p) == HLine(h', p + |Print(f)|)
    ensures h'.name == Str(p, |f.name|) && h'.value == ValueSpan(f, p)
    ensures (h'.invalid <==> !ValidName(f.name)) && h'.hash == NameHash(h.hash, f.name)
    ensures ValidName(f.name) && |h.lowcase| == LC_HEADER_LEN ==> Copied(h', f.name)
  {
    hide HRun, NameHash, ValidName;
    var q := p + |f.name|;
    HereSplit(buf, p, f.name, PrintTail(f));
    var h1 := ReadWholeName(buf, f.name, h, p);
    if f.layout.Bare? {
      h' := ReadEol(buf, HName, f.layout.crs, h1, q);
    } else {
      HereSplit(buf, q, ":", PrintValue(f));
      HereAt(buf, q, ":", 0);
      OneStep(buf, HName, h1, q);
      h' := ReadTail(buf, f, EndName(h1, q), q + 1);
    }
  }

  lemma SpanText(buf: string, f: Field, p: nat)
    requires Here(buf, p, Print(f)) && (f.layout.Bare? ==> f.value == "")
    ensures Text(buf, Str(p, |f.name|)) == f.name && Text(buf, ValueSpan(f, p)) == f.value
  {
    hide Here, Text, Eol;
    HereSplit(buf, p, f.name, PrintTail(f));
    HereText(buf, p, f.name);
    if f.layout.Colon? {
      var q := p + |f.name|;
      HereSplit(buf, q, ":", PrintValue(f));
      ValueHere(buf, f, q + 1);
      HereText(buf, q + 1 + f.layout.before, f.value);
    }
    assert Text(buf, NoStr) == "" by { NoText(buf); }
  }

  lemma NoText(buf: string)
    ensures Text(buf, NoStr) == ""
  {
  }

  lemma HereText(buf: string, p: nat, x: string)
    requires Here(buf, p, x)
    ensures Text(buf, Str(p, |x|)) == x
  {
  }

  /** A line with a valid name, as a handler sees it. */
  lemma ReadField(buf: string, f: Field, h: Header, p: nat) returns (h': Header)
    requires Printable(f) && Here(buf, p, Print(f))
    ensures HRun(buf, HStart, h, p) == HLine(h', p + |Print(f)|)
    ensures !h'.invalid && Text(buf, h'.name) == f.name && Text(buf, h'.value) == f.value && h'.hash == HashLc(f.name)
    ensures h'.value == ValueSpan(f, p)
  {
    PrintableLine(f);
    hide HRun, HashLc;
    h' := ReadLine(buf, f, h, p);
    SpanText(buf, f, p);
    HashOnValid(f.name);
  }

  // ---------------------------------------------------------------- no other line is taken

  /** What is left of a header line in each state of the machine. */
  ghost predicate Rest(state: HState, f: Field, s: string) {
    match state
    case HStart => FieldLine(f) && s == Print(f)
    case HName => Inner(f.name) && ValueOk(f) && s == Print(f)
    case HSpaceBeforeValue => f.layout.Colon? && ValueOk(f) && s == PrintValue(f)
    case HValue => TailOk(f) && s == PrintEnd(f)
    case HSpaceAfterValue => TailOk(f) && s == PrintEnd(f)
    case HAlmostDone => s == Eol(f.layout.crs)
    case HHeaderAlmostDone => false
  }

  /** The rest of a value may start with a space. */
  predicate TailOk(f: Field) {
    f.layout.Colon? && AllValue(f.value) && (f.value != "" ==> f.value[|f.value| - 1] != ' ')
  }

  lemma BackName(f: Field, s: string, h: Header, p: nat, ch: char) returns (g: Field)
    requires var o := HStep(HName, h, p, ch); o.HNext? && Rest(o.state, f, s)
    ensures Rest(HName, g, [ch] + s)
  {
    if ch == ':' {
      g := Field("", f.value, f.layout);
    } else if ch == '\r' {
      g := Field("", "", Bare(f.layout.crs + 1));
      EolNext(f.layout.crs);
    } else {
      g := f.(name := [ch] + f.name);
      assert PrintTail(g) == PrintTail(f);
      assert Print(g) == [ch] + Print(f);
    }
  }

  lemma BackStart(f: Field, s: string, h: Header, p: nat, ch: char) returns (g: Field)
    requires var o := HStep(HStart, h, p, ch); o.HNext? && Rest(o.state, f, s)
    ensures Rest(HStart, g, [ch] + s)
  {
    g := f.(name := [ch] + f.name);
    assert PrintTail(g) == PrintTail(f) && g.name[1..] == f.name;
    assert Print(g) == [ch] + Print(f);
  }

  lemma BackBefore(f: Field, s: string, h: Header, p: nat, ch: char) returns (g: Field)
    requires var o := HStep(HSpaceBeforeValue, h, p, ch); o.HNext? && Rest(o.state, f, s)
    ensures Rest(HSpaceBeforeValue, g, [ch] + s)
  {
    if ch == ' ' {
      g := f.(layout := f.layout.(before := f.layout.before + 1));
      RepeatNext(' ', f.layout.before);
      assert PrintEnd(g) == PrintEnd(f);
      assert PrintValue(g) == [' '] + PrintValue(f);
    } else if ch == '\r' {
      g := Field("", "", Colon(0, 0, f.layout.crs + 1));
      EolNext(f.layout.crs);
      assert PrintValue(g) == Eol(f.layout.crs + 1);
    } else {
      g := Field("", [ch] + f.value, f.layout.(before := 0));
      assert PrintValue(g) == PrintEnd(g) == [ch] + PrintEnd(f);
    }
  }

  lemma BackValue(f: Field, s: string, state: HState, h: Header, p: nat, ch: char) returns (g: Field)
    requires state == HValue || state == HSpaceAfterValue
    requires var o := HStep(state, h, p, ch); o.HNext? && Rest(o.state, f, s)
    ensures Rest(state, g, [ch] + s)
  {
    if ch == '\r' {
      g := Field("", "", Colon(0, 0, f.layout.crs + 1));
      EolNext(f.layout.crs);
      assert PrintEnd(g) == Eol(f.layout.crs + 1);
    } else if ch == ' ' && f.value == "" {
      g := f.(layout := f.layout.(after := f.layout.after + 1));
      RepeatNext(' ', f.layout.after);
      assert PrintEnd(g) == [' '] + PrintEnd(f);
    } else {
      g := f.(value := [ch] + f.value);
      assert PrintEnd(g) == [ch] + PrintEnd(f);
    }
  }

  lemma BackEnd(state: HState, h: Header, p: nat, ch: char) returns (g: Field)
    requires HStep(state, h, p, ch).HDone?
    ensures Rest(state, g, [ch])
  {
    assert Eol(0) == "\n" && Repeat(' ', 0) == "";
    g := Field("", "", if state == HName then Bare(0) else Colon(0, 0, 0));
  }

  lemma BackOne(state: HState, f: Field, s: string, h: Header, p: nat, ch: char) returns (g: Field)
    requires var o := HStep(state, h, p, ch); o.HNext? && Rest(o.state, f, s)
    ensures Rest(state, g, [ch] + s)
  {
    match state
    case HStart => g := BackStart(f, s, h, p, ch);
    case HName => g := BackName(f, s, h, p, ch);
    case HSpaceBeforeValue => g := BackBefore(f, s, h, p, ch);
    case HValue => g := BackValue(f, s, state, h, p, ch);
    case HSpaceAfterValue => g := BackValue(f, s, state, h, p, ch);
    case HAlmostDone =>
      g := f.(layout := f.layout.(crs := f.layout.crs + 1));
      EolNext(f.layout.crs);
  }

  /** A line that the machine takes is a header line, up to its last byte. */
  lemma {:induction false} TakenIsLine(buf: string, state: HState, h: Header, p: nat) returns (f: Field)
    requires p <= |buf| && HRun(buf, state, h, p).HLine?
    ensures Rest(state, f, buf[p..HRun(buf, state, h, p).pos])
    decreases |buf| - p
  {
    hide Rest, HStep;
    var o, end := HStep(state, h, p, buf[p]), HRun(buf, state, h, p).pos;
    assert buf[p..end] == [buf[p]] + buf[p + 1..end];
    if o.HNext? {
      var g := TakenIsLine(buf, o.state, o.h, p + 1);
      f := BackOne(state, g, buf[p + 1..end], h, p, buf[p]);
    } else {
      f := BackEnd(state, h, p, buf[p]);
      assert buf[p..end] == [buf[p]];
    }
  }

  /** The first LF from `p` on is at `e`. */
  predicate FirstLf(buf: string, p: nat, e: nat) {
    p <= e < |buf| && buf[e] == '\n' && forall i :: p <= i < e ==> buf[i] != '\n'
  }

  lemma LfEnds(state: HState, h: Header, p: nat)
    ensures !HStep(state, h, p, '\n').HNext?
  {
  }

  lemma OnlyLfEnds(state: HState, h: Header, p: nat, ch: char)
    requires ch != '\n'
    ensures !HStep(state, h, p, ch).HDone? && !HStep(state, h, p, ch).HHeaderDone?
  {
  }

  /** A call never runs past the first LF, and ends there unless it refuses a byte before. */
  lemma {:induction false} EndsAtLf(buf: string, state: HState, h: Header, p: nat, e: nat)
    requires FirstLf(buf, p, e)
    ensures var res := HRun(buf, state, h, p);
            !res.HMore? && (res.HLine? || res.HEnd? ==> res.pos == e + 1)
    decreases e - p
  {
    hide HStep;
    var o := HStep(state, h, p, buf[p]);
    if p == e {
      LfEnds(state, h, p);
    } else {
      OnlyLfEnds(state, h, p, buf[p]);
      if o.HNext? {
        EndsAtLf(buf, o.state, o.h, p + 1, e);
      }
    }
  }

  lemma {:induction false} NotBackToStart(buf: string, state: HState, h: Header, p: nat)
    requires p <= |buf| && state != HStart && state != HHeaderAlmostDone
    ensures !HRun(buf, state, h, p).HEnd?
    decreases |buf| - p
  {
    if p < |buf| {
      match HStep(state, h, p, buf[p])
      case HNext(state', h') => NotBackToStart(buf, state', h', p + 1);
      case _ =>
    }
  }

  /** The end of the headers is exactly the empty line. */
  lemma EmptyExact(buf: string, h: Header, p: nat, e: nat)
    requires FirstLf(buf, p, e)
    ensures HRun(buf, HStart, h, p).HEnd? <==> e == p || (e == p + 1 && buf[p] == '\r')
  {
    var o := HStep(HStart, h, p, buf[p]);
    OneStep(buf, HStart, h, p);
    if o.HNext? {
      if o.state == HName {
        NotBackToStart(buf, HName, o.h, p + 1);
      } else {
        OneStep(buf, HHeaderAlmostDone, o.h, p + 1);
      }
    }
  }

  /**
   * The bytes up to an LF are refused exactly when they are neither a header line nor
   * the empty line.
   */
  lemma RefusedExact(buf: string, h: Header, p: nat, e: nat)
    requires FirstLf(buf, p, e)
    ensures HRun(buf, HStart, h, p).HRefused? <==>
            !(e == p || (e == p + 1 && buf[p] == '\r')) && !exists f :: FieldLine(f) && buf[p..e + 1] == Print(f)
  {
    hide HRun, Print, FieldLine;
    EndsAtLf(buf, HStart, h, p, e);
    EmptyExact(buf, h, p, e);
    if HRun(buf, HStart, h, p).HLine? {
      var f := TakenIsLine(buf, HStart, h, p);
      assert FieldLine(f) && buf[p..e + 1] == Print(f);
    }
    if f :| FieldLine(f) && buf[p..e + 1] == Print(f) {
      var _ := ReadLine(buf, f, h, p);
    }
  }

  // ---------------------------------------------------------------- all headers

  /** A header as its handler is called. */
  datatype Seen = Seen(name: string, value: string, hash: int)

  datatype Read = Got(fields: seq<Seen>, pos: nat) | Failed

  /** The lines up to the empty one, each with the hash its handler is looked up by. */
  function ReadAll(buf: string, h: Header, p: nat): Read
    requires p <= |buf|
    decreases |buf| - p
  {
    match HRun(buf, HStart, h, p)
    case HLine(h', pos) =>
      (match ReadAll(buf, h', pos)
       case Got(rest, end) =>
         if h'.invalid then Got(rest, end)
         else Got([Seen(Text(buf, h'.name), Text(buf, h'.value), h'.hash)] + rest, end)
       case Failed => Failed)
    case HEnd(_, pos) => Got([], pos)
    case _ => Failed
  }

  /** What handlers see of a list of header lines: those with a valid name. */
  function Hashed(fs: seq<Field>): seq<Seen> {
    if fs == [] then []
    else (if ValidName(fs[0].name) then [Seen(fs[0].name, fs[0].value, HashLc(fs[0].name))] else []) + Hashed(fs[1..])
  }

  /** The empty line after the last header. */
  lemma ReadEmptyLine(buf: string, h: Header, p: nat)
    requires Here(buf, p, "\r\n")
    ensures ReadAll(buf, h, p) == Got([], p + 2)
  {
    HereAt(buf, p, "\r\n", 0);
    HereAt(buf, p, "\r\n", 1);
    OneStep(buf, HStart, h, p);
    OneStep(buf, HHeaderAlmostDone, HStep(HStart, h, p, '\r').h, p + 1);
  }

  lemma {:induction false} ReadFields(buf: string, fs: seq<Field>, h: Header, p: nat)
    requires (forall f :: f in fs ==> FieldLine(f)) && Here(buf, p, PrintAll(fs))
    ensures ReadAll(buf, h, p) == Got(Hashed(fs), p + |PrintAll(fs)|)
    decreases |fs|
  {
    hide HRun, Print, Text, HashLc, FieldLine, HashOn;
    if fs == [] {
      ReadEmptyLine(buf, h, p);
    } else {
      HereSplit(buf, p, Print(fs[0]), PrintAll(fs[1..]));
      var f := fs[0];
      var h' := ReadLine(buf, f, h, p);
      FieldText(buf, f, p);
      if ValidName(f.name) {
        HashOnValid(f.name);
      }
      ReadFields(buf, fs[1..], h', p + |Print(f)|);
    }
  }

  lemma FieldText(buf: string, f: Field, p: nat)
    requires FieldLine(f) && Here(buf, p, Print(f))
    ensures f.name != "" && Text(buf, Str(p, |f.name|)) == f.name && Text(buf, ValueSpan(f, p)) == f.value
  {
    SpanText(buf, f, p);
  }

  /** Any list of header lines, printed anywhere in a buffer, is read back in order, without those of an invalid name. */
  lemma HeadersRoundTrip(pre: string, fs: seq<Field>, post: string, h: Header)
    requires forall f :: f in fs ==> FieldLine(f)
    ensures ReadAll(pre + PrintAll(fs) + post, h, |pre|) == Got(Hashed(fs), |pre| + |PrintAll(fs)|)
  {
    var buf := pre + PrintAll(fs) + post;
    assert buf[|pre|..|pre| + |PrintAll(fs)|] == PrintAll(fs);
    ReadFields(buf, fs, h, |pre|);
  }
}
