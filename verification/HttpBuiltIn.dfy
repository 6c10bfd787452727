/**
 * The handlers that `src/http/request.c` always registers: Host, which
 * lower-cases its value in place, and Content-Length.
 */
module HttpBuiltIn {
  import opened HttpLine
  import opened HttpHeader
  import opened HttpHeaderRoundTrip
  import opened HttpLineRoundTrip
  import opened HttpConn
  import opened HttpHost
  import opened HttpDispatch
  import Ordered

  // ---------------------------------------------------------------- Content-Length

  /** The digits a text starts with. */
  function Leading(s: string): (k: nat)
    ensures k <= |s| && (forall c :: c in s[..k] ==> IsDigit(c)) && (k < |s| ==> !IsDigit(s[k]))
  {
    if s == "" || !IsDigit(s[0]) then 0
    else
      var k := Leading(s[1..]);
      assert s[..k + 1] == [s[0]] + s[1..][..k];
      k + 1
  }

  /** The number they spell, as a 32-bit int that wraps. */
  function Number(s: string): (n: int)
    ensures -Ordered.TWO31 <= n < Ordered.TWO31
  {
    Ordered.Narrow(Decimal(s[..Leading(s)]))
  }

  lemma NarrowStep(x: int, d: int)
    ensures Ordered.Narrow(10 * Ordered.Narrow(x) + d) == Ordered.Narrow(10 * x + d)
  {
    var r := Ordered.Narrow(x);
    var q := (x - r) / Ordered.TWO32;
    assert x - r == Ordered.TWO32 * q;
    SameNarrow(10 * r + d, 10 * q);
  }

  lemma {:induction false} SameNarrow(a: int, q: int)
    ensures Ordered.Narrow(a + Ordered.TWO32 * q) == Ordered.Narrow(a)
  {
  }

  /** str_atoi */
  method StrAtoi(s: string) returns (val: int)
    ensures val == Number(s)
  {
    val := 0;
    ghost var k := Leading(s);
    ghost var d := s[..k];
    assert d[..0] == "";
    for i := 0 to |s|
      invariant i <= k && val == Ordered.Narrow(Decimal(d[..i]))
    {
      if !IsDigit(s[i]) {
        assert d[..i] == d;
        return;
      }
      assert i < k;
      DecimalNext(d, i);
      NarrowStep(Decimal(d[..i]), Digit(s[i]));
      val := Ordered.Narrow(10 * val + Digit(s[i]));
    }
    assert d[..|s|] == d;
  }

  /** http_process_content_length: zero and what wraps to a negative number are refused. */
  method ProcessContentLength(value: string) returns (ret: int, length: int)
    ensures length == Number(value) && ret == if length <= 0 then -1 else 0
  {
    length := StrAtoi(value);
    ret := if length <= 0 then -1 else 0;
  }

  lemma {:induction false} LeadingAll(s: string)
    requires forall c :: c in s ==> IsDigit(c)
    ensures Leading(s) == |s| && s[..Leading(s)] == s
  {
    if s != "" {
      assert s[0] in s;
      LeadingAll(s[1..]);
    }
  }

  /** A printed number is read back exactly when an int can hold it. */
  lemma NumberExact(s: string)
    requires Digits(s)
    ensures Number(s) == Decimal(s) <==> Decimal(s) < Ordered.TWO31
  {
    LeadingAll(s);
  }

  // ---------------------------------------------------------------- the table

  const HOST := "Host"
  const CONTENT_LENGTH := "Content-Length"

  /** Functions of the entries. */
  const ON_HOST := 1
  const ON_LENGTH := 2

  const BEFORE: seq<Entry> := [
    Entry(2, "Connection", 0), Entry(3, "If-Modified-Since", 0), Entry(4, "If-Unmodified-Since", 0),
    Entry(5, "If-Match", 0), Entry(6, "If-None-Match", 0), Entry(7, "User-Agent", 0), Entry(8, "Referer", 0)]

  const AFTER: seq<Entry> := [
    Entry(10, "Content-Type", 0), Entry(11, "Range", 0), Entry(12, "If-Range", 0), Entry(13, "Transfer-Encoding", 0),
    Entry(14, "Expect", 0), Entry(15, "Upgrade", 0), Entry(16, "Authorization", 0), Entry(17, "Keep-Alive", 0),
    Entry(18, "Cookie", 0)]

  /** http_headers_handler */
  const BUILT_IN: seq<Entry> :=
    [Entry(1, HOST, ON_HOST)] + (BEFORE + ([Entry(9, CONTENT_LENGTH, ON_LENGTH)] + AFTER))

  lemma {:induction false} NullsSkipped(m: map<nat, nat>, nulls: seq<Entry>, hs: seq<Entry>)
    requires forall e :: e in nulls ==> e.handler == 0 && e.name != ""
    ensures Registry(m, nulls + hs) == Registry(m, hs) && (Clash(m, nulls + hs) <==> Clash(m, hs))
    decreases |nulls|
  {
    if nulls == [] {
      assert nulls + hs == hs;
    } else {
      assert (nulls + hs)[1..] == nulls[1..] + hs;
      NullsSkipped(m, nulls[1..], hs);
    }
  }

  lemma HashStep(s: string, i: nat, k: int, c: char, next: int)
    requires i < |s| && HashLc(s[..i]) == k && ToLower(s[i]) == c && Hash(k, c) == next
    ensures HashLc(s[..i + 1]) == next
  {
    HashNext(s, i);
  }

  lemma HashOfHost()
    ensures HashLc(HOST) == 3208616
  {
    var s := HOST;
    assert s[..0] == "" && s[..4] == s && HashLc("") == 0;
    hide HashLc;
    HashStep(s, 0, 0, 'h', 104);
    HashStep(s, 1, 104, 'o', 3335);
    HashStep(s, 2, 3335, 's', 103500);
    HashStep(s, 3, 103500, 't', 3208616);
  }

  lemma HashOfConte(s: string)
    requires 5 <= |s| && s[..5] == "Conte"
    ensures HashLc(s[..5]) == 94844787
  {
    assert s[0] == 'C' && s[1] == 'o' && s[2] == 'n' && s[3] == 't' && s[4] == 'e';
    assert s[..0] == "" && HashLc("") == 0;
    hide HashLc;
    HashStep(s, 0, 0, 'c', 99);
    HashStep(s, 1, 99, 'o', 3180);
    HashStep(s, 2, 3180, 'n', 98690);
    HashStep(s, 3, 98690, 't', 3059506);
    HashStep(s, 4, 3059506, 'e', 94844787);
  }

  lemma HashOfContentLe(s: string)
    requires 10 <= |s| && s[5..10] == "nt-Le" && HashLc(s[..5]) == 94844787
    ensures HashLc(s[..10]) == 264504141
  {
    hide HashLc;
    assert s[5..10][0] == 'n' && s[5..10][1] == 't' && s[5..10][2] == '-' && s[5..10][3] == 'L' && s[5..10][4] == 'e';
    HashStep(s, 5, 94844787, 'n', 2940188507);
    HashStep(s, 6, 2940188507, 't', 951530617);
    HashStep(s, 7, 951530617, '-', 3727645396);
    HashStep(s, 8, 3727645396, 'l', 3887857688);
    HashStep(s, 9, 3887857688, 'e', 264504141);
  }

  lemma HashOfLength()
    ensures HashLc(CONTENT_LENGTH) == 3162187450
  {
    hide HashLc;
    var s := CONTENT_LENGTH;
    HashOfConte(s);
    HashOfContentLe(s);
    HashStep(s, 10, 264504141, 'n', 3904661185);
    HashStep(s, 11, 3904661185, 'g', 785412550);
    HashStep(s, 12, 785412550, 't', 2872952686);
    HashStep(s, 13, 2872952686, 'h', 3162187450);
    assert s[..14] == s;
  }

  lemma NullsBefore(m: map<nat, nat>, hs: seq<Entry>)
    ensures Registry(m, BEFORE + hs) == Registry(m, hs) && (Clash(m, BEFORE + hs) <==> Clash(m, hs))
  {
    hide Registry, Clash;
    NullsSkipped(m, BEFORE, hs);
  }

  lemma NullsAfter(m: map<nat, nat>)
    ensures Registry(m, AFTER) == m && !Clash(m, AFTER)
  {
    assert Registry(m, []) == m && !Clash(m, []);
    hide Registry, Clash;
    NullsSkipped(m, AFTER, []);
    assert AFTER + [] == AFTER;
  }

  lemma OneMore(m: map<nat, nat>, e: Entry, hs: seq<Entry>)
    requires e.name != "" && e.handler != 0 && HashLc(e.name) !in m
    ensures Registry(m, [e] + hs) == Registry(m[HashLc(e.name) := e.at], hs)
    ensures Clash(m, [e] + hs) <==> Clash(m[HashLc(e.name) := e.at], hs)
  {
    assert ([e] + hs)[1..] == hs;
  }

  /** Of the eighteen entries exactly the two with a function are in the table, and they do not clash. */
  lemma BuiltInTable()
    ensures HashLc(HOST) != HashLc(CONTENT_LENGTH) && !Clash(map[], BUILT_IN)
    ensures Registry(map[], BUILT_IN) == map[HashLc(HOST) := 1, HashLc(CONTENT_LENGTH) := 9]
  {
    HashOfHost();
    HashOfLength();
    hide HashLc, Registry, Clash;
    var e1, e2 := Entry(1, HOST, ON_HOST), Entry(9, CONTENT_LENGTH, ON_LENGTH);
    var m1: map<nat, nat> := map[][HashLc(HOST) := 1];
    OneMore(map[], e1, BEFORE + ([e2] + AFTER));
    NullsBefore(m1, [e2] + AFTER);
    OneMore(m1, e2, AFTER);
    NullsAfter(m1[HashLc(CONTENT_LENGTH) := 9]);
  }

  // ---------------------------------------------------------------- the handlers

  /** handle_http_request_header over that table. */
  function BuiltIn(hash: int, span: Str, value: string, meta: Meta): (reply: Reply)
    ensures |reply.value| == |value|
  {
    if hash == HashLc(HOST) then
      Reply(HostCode(value), HostText(value),
            if HostCode(value) == 0 then meta.(host := Str(span.p, HostLen(value))) else meta)
    else if hash == HashLc(CONTENT_LENGTH) then
      Reply(if Number(value) <= 0 then -1 else 0, value, meta.(length := Number(value)))
    else Reply(0, value, meta)
  }

  /** BuiltIn is the table: it acts on a hash exactly as the entry found under it says. */
  lemma BuiltInIsTable(hash: nat, span: Str, value: string, meta: Meta)
    ensures var table, reply := Registry(map[], BUILT_IN), BuiltIn(hash, span, value, meta);
            && (hash !in table ==> reply == Reply(0, value, meta))
            && (hash in table ==> 1 <= table[hash] <= |BUILT_IN| && BUILT_IN[table[hash] - 1].at == table[hash])
            && (hash in table && BUILT_IN[table[hash] - 1].handler == ON_HOST ==>
                  && reply.code == HostCode(value) && reply.value == HostText(value)
                  && reply.meta == if reply.code == 0 then meta.(host := Str(span.p, HostLen(value))) else meta)
            && (hash in table && BUILT_IN[table[hash] - 1].handler == ON_LENGTH ==>
                  && reply.code == (if Number(value) <= 0 then -1 else 0) && reply.value == value
                  && reply.meta == meta.(length := Number(value)))
  {
    BuiltInTable();
    hide HashLc, Registry, HostCode, HostText, Number;
    assert BUILT_IN[0] == Entry(1, HOST, ON_HOST) && BUILT_IN[8] == Entry(9, CONTENT_LENGTH, ON_LENGTH);
  }
}
