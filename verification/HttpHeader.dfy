/**
 * The header machine of `src/http/parse.c`, the name hash of
 * `src/http/request.c`, and what they guarantee together.
 */
module HttpHeader {
  import opened Seqs
  import opened HttpLine

  const LC_HEADER_LEN := 32
  const U32 := 0x1_0000_0000

  /** The fields of struct http_request that the header machine uses. */
  datatype Header = Header(name: Str, value: Str, invalid: bool, hash: int, lowIndex: int, lowcase: seq<char>)

  datatype HState =
    | HStart | HName | HSpaceBeforeValue | HValue | HSpaceAfterValue | HAlmostDone | HHeaderAlmostDone

  datatype HOutcome =
    | HNext(state: HState, h: Header)
    | HDone(h: Header)
    | HHeaderDone(h: Header)
    | HFail(code: int, h: Header)

  /** The `lowcase` table: the lower-case form of a name character, NUL for every other one. */
  function Lowcase(ch: char): char {
    if '0' <= ch <= '9' || ch == '-' || 'a' <= ch <= 'z' then ch
    else if 'A' <= ch <= 'Z' then ch + 32 as char
    else '\0'
  }

  /** HASH(key, c) on 32-bit unsigned numbers. */
  function Hash(key: int, c: char): (k: int)
    ensures 0 <= k < U32
  {
    (key * 31 + c as int) % U32
  }

  function PutLow(h: Header, i: int, c: char): Header {
    if 0 <= i < |h.lowcase| then h.(lowcase := h.lowcase[i := c]) else h
  }

  function HStepStart(h: Header, p: nat, ch: char): HOutcome {
    var h := h.(name := h.name.(p := p), invalid := false);
    if ch == '\r' then HNext(HHeaderAlmostDone, h.(name := Str(p, 0)))
    else if ch == '\n' then HHeaderDone(h.(name := Str(p, 0)))
    else
      var c := Lowcase(ch);
      if c != '\0' then HNext(HName, PutLow(h, 0, c).(hash := Hash(0, c), lowIndex := 1))
      else if ch == '\0' then HFail(-1, h)
      else HNext(HName, h.(invalid := true))
  }

  function EndName(h: Header, p: nat): Header { h.(name := h.name.(len := p - h.name.p)) }

  function HStepName(h: Header, p: nat, ch: char): HOutcome {
    var c := Lowcase(ch);
    if c != '\0' then
      HNext(HName, PutLow(h, h.lowIndex, c).(hash := Hash(h.hash, c), lowIndex := (h.lowIndex + 1) % LC_HEADER_LEN))
    else if ch == ':' then HNext(HSpaceBeforeValue, EndName(h, p))
    else if ch == '\r' then HNext(HAlmostDone, EndName(h, p).(value := NoStr))
    else if ch == '\n' then HDone(EndName(h, p).(value := NoStr))
    else if ch == '\0' then HFail(-2, h)
    else HNext(HName, h.(invalid := true))
  }

  function HStepSpaceBeforeValue(h: Header, p: nat, ch: char): HOutcome {
    match ch
    case ' ' => HNext(HSpaceBeforeValue, h)
    case '\r' => HNext(HAlmostDone, h.(value := NoStr))
    case '\n' => HDone(h.(value := NoStr))
    case '\0' => HFail(-3, h)
    case _ => HNext(HValue, h.(value := h.value.(p := p)))
  }

  function EndValue(h: Header, p: nat): Header { h.(value := h.value.(len := p - h.value.p)) }

  function HStepValue(h: Header, p: nat, ch: char): HOutcome {
    match ch
    case ' ' => HNext(HSpaceAfterValue, EndValue(h, p))
    case '\r' => HNext(HAlmostDone, EndValue(h, p))
    case '\n' => HDone(EndValue(h, p))
    case '\0' => HFail(-4, h)
    case _ => HNext(HValue, h)
  }

  function HStepSpaceAfterValue(h: Header, ch: char): HOutcome {
    match ch
    case ' ' => HNext(HSpaceAfterValue, h)
    case '\r' => HNext(HAlmostDone, h)
    case '\n' => HDone(h)
    case '\0' => HFail(-5, h)
    case _ => HNext(HValue, h)
  }

  function HStepAlmostDone(h: Header, ch: char): HOutcome {
    match ch
    case '\n' => HDone(h)
    case '\r' => HNext(HAlmostDone, h)
    case _ => HFail(-6, h)
  }

  function HStepHeaderAlmostDone(h: Header, ch: char): HOutcome {
    if ch == '\n' then HHeaderDone(h) else HFail(-7, h)
  }

  /** The body of the loop: one character in one state. */
  function HStep(state: HState, h: Header, p: nat, ch: char): HOutcome {
    match state
    case HStart => HStepStart(h, p, ch)
    case HName => HStepName(h, p, ch)
    case HSpaceBeforeValue => HStepSpaceBeforeValue(h, p, ch)
    case HValue => HStepValue(h, p, ch)
    case HSpaceAfterValue => HStepSpaceAfterValue(h, ch)
    case HAlmostDone => HStepAlmostDone(h, ch)
    case HHeaderAlmostDone => HStepHeaderAlmostDone(h, ch)
  }

  /** What a call leaves: return code 1, 0 (one header), 100 (end of headers) or negative. */
  datatype HParsed =
    | HMore(state: HState, h: Header)
    | HLine(h: Header, pos: nat)
    | HEnd(h: Header, pos: nat)
    | HRefused(code: int, h: Header)

  function HRun(buf: string, state: HState, h: Header, p: nat): (res: HParsed)
    requires p <= |buf|
    ensures res.HLine? || res.HEnd? ==> p < res.pos <= |buf|
    ensures res.HRefused? ==> res.code < 0
    ensures p == |buf| ==> res == HMore(state, h)
    decreases |buf| - p
  {
    if p == |buf| then HMore(state, h)
    else
      match HStep(state, h, p, buf[p])
      case HNext(state', h') => HRun(buf, state', h', p + 1)
      case HDone(h') => HLine(h', p + 1)
      case HHeaderDone(h') => HEnd(h', p + 1)
      case HFail(code, h') => HRefused(code, h')
  }

  // ---------------------------------------------------------------- splitting the input

  /** Parsing the first `m` bytes and then resuming gives the answer of one call. */
  lemma {:induction false} SplitHeader(buf: string, m: nat, state: HState, h: Header, p: nat)
    requires p <= m <= |buf|
    ensures match HRun(buf[..m], state, h, p)
            case HMore(state', h') => HRun(buf, state, h, p) == HRun(buf, state', h', m)
            case early => HRun(buf, state, h, p) == early
    decreases m - p
  {
    if p < m {
      assert buf[..m][p] == buf[p];
      match HStep(state, h, p, buf[p])
      case HNext(state', h') => SplitHeader(buf, m, state', h', p + 1);
      case _ =>
    }
  }

  // ---------------------------------------------------------------- the lower-case copy of the name

  predicate LowOk(h: Header) {
    |h.lowcase| == LC_HEADER_LEN && 0 <= h.lowIndex < LC_HEADER_LEN
  }

  /** The index of lowcase_header that a step writes, if any. */
  function LowWrite(state: HState, h: Header, ch: char): Option<int> {
    if Lowcase(ch) == '\0' then None
    else if state == HStart then Some(0)
    else if state == HName then Some(h.lowIndex)
    else None
  }

  /** From an index inside the 32 bytes every call keeps it inside, and every write on the way. */
  lemma {:induction false} LowKept(buf: string, state: HState, h: Header, p: nat)
    requires LowOk(h) && p <= |buf|
    ensures LowOk(HRun(buf, state, h, p).h)
    ensures p < |buf| && LowWrite(state, h, buf[p]).Some? ==> 0 <= LowWrite(state, h, buf[p]).value < LC_HEADER_LEN
    decreases |buf| - p
  {
    if p < |buf| {
      LowStep(state, h, p, buf[p]);
      match HStep(state, h, p, buf[p])
      case HNext(state', h') => LowKept(buf, state', h', p + 1);
      case _ =>
    }
  }

  lemma LowStep(state: HState, h: Header, p: nat, ch: char)
    requires LowOk(h)
    ensures LowOk(HStep(state, h, p, ch).h)
  {
  }

  /**
   * The index that an earlier header, or an earlier use of the record, left is used
   * again exactly for a name whose first byte is not a name character.
   */
  lemma StaleExact(h: Header, i: int, p: nat, ch: char, next: char)
    requires ch != '\r' && ch != '\n' && ch != '\0' && Lowcase(next) != '\0' && i != h.lowIndex
    ensures var a, b := HStep(HStart, h, p, ch), HStep(HStart, h.(lowIndex := i), p, ch);
            && a.HNext? && b.HNext? && a.state == b.state == HName
            && (LowWrite(HName, a.h, next) != LowWrite(HName, b.h, next) <==> Lowcase(ch) == '\0')
  {
  }

  // ---------------------------------------------------------------- the name hash

  /** tolower on the characters of a header name. */
  function ToLower(ch: char): char {
    if 'A' <= ch <= 'Z' then ch + 32 as char else ch
  }

  function LowerAll(s: string): string {
    seq(|s|, i requires 0 <= i < |s| => ToLower(s[i]))
  }

  /** hash_key_lc, specified. */
  function HashLc(name: string): (k: int)
    ensures 0 <= k < U32
  {
    if name == "" then 0 else Hash(HashLc(name[..|name| - 1]), ToLower(name[|name| - 1]))
  }

  /** hash_key_lc, as the source's loop. */
  method HashKeyLc(data: string) returns (key: int)
    ensures key == HashLc(data)
  {
    key := 0;
    for i := 0 to |data|
      invariant key == HashLc(data[..i])
    {
      assert data[..i + 1][..i] == data[..i];
      key := Hash(key, ToLower(data[i]));
    }
    assert data[..|data|] == data;
  }

  /** The hash does not see the case of a name (section 5.1 of RFC 9110: names are case-insensitive). */
  lemma {:induction false} HashIgnoresCase(a: string, b: string)
    requires LowerAll(a) == LowerAll(b)
    ensures HashLc(a) == HashLc(b)
    decreases |a|
  {
    assert |LowerAll(a)| == |a| == |b|;
    if a != "" {
      var n := |a| - 1;
      assert ToLower(a[n]) == LowerAll(a)[n] == ToLower(b[n]);
      assert LowerAll(a[..n]) == LowerAll(a)[..n] == LowerAll(b[..n]);
      HashIgnoresCase(a[..n], b[..n]);
    }
  }

  lemma {:induction false} HashExtends(a: string, b: string, t: string)
    requires HashLc(a) == HashLc(b)
    ensures HashLc(a + t) == HashLc(b + t)
  {
    if t == "" {
      assert a + t == a && b + t == b;
    } else {
      var n := |t| - 1;
      HashExtends(a, b, t[..n]);
      assert (a + t)[..|a + t| - 1] == a + t[..n] && (b + t)[..|b + t| - 1] == b + t[..n];
    }
  }

  /** Equal hashes do not make equal names, and handlers are found by hash alone: "j1st" has the hash of "Host". */
  lemma HashCollides(t: string)
    ensures LowerAll("j1" + t) != LowerAll("Ho" + t) && HashLc("j1" + t) == HashLc("Ho" + t)
  {
    HashOfTwo('j', '1');
    HashOfTwo('H', 'o');
    HashExtends("j1", "Ho", t);
    assert LowerAll("j1" + t)[0] == 'j' && LowerAll("Ho" + t)[0] == 'h';
  }

  lemma HashOfTwo(c: char, d: char)
    ensures HashLc([c, d]) == Hash(Hash(0, ToLower(c)), ToLower(d))
  {
    var s, t := [c, d], [c];
    assert s[..|s| - 1] == t && t[..|t| - 1] == "";
    assert HashLc(t) == Hash(HashLc(""), ToLower(c));
    assert HashLc(s) == Hash(HashLc(t), ToLower(d));
  }
}
