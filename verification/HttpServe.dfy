/**
 * Whole requests: printed by a client, cut into receives anywhere, and answered
 * by the driver of `src/http/request.c` with its built-in handlers.
 */
module HttpServe {
  import opened Seqs
  import opened HttpLine
  import opened HttpLineProof
  import opened HttpHeader
  import opened HttpHeaderRoundTrip
  import opened HttpTarget
  import opened HttpLineRoundTrip
  import opened HttpLineForms
  import opened HttpConn
  import opened HttpHost
  import opened HttpBuiltIn
  import Ordered

  // ---------------------------------------------------------------- headers

  /** Handlers write as many bytes as they were given. */
  ghost predicate KeepLengths(handlers: Handlers) {
    forall hash, span, value, meta :: |handlers(hash, span, value, meta).value| == |value|
  }

  /** A line whose name is not valid is skipped. */
  function FieldReply(handlers: Handlers, f: Field, meta: Meta, p: nat): Reply {
    if ValidName(f.name) then handlers(HashLc(f.name), ValueSpan(f, p), f.value, meta) else Reply(0, f.value, meta)
  }

  /** The handlers' replies to fields printed from `p` on: what they leave in the request, or a refusal. */
  function Replies(handlers: Handlers, fs: seq<Field>, meta: Meta, p: nat): Option<Meta>
    decreases |fs|
  {
    if fs == [] then Some(meta)
    else
      var reply := FieldReply(handlers, fs[0], meta, p);
      if reply.code != 0 then None else Replies(handlers, fs[1..], reply.meta, p + |Print(fs[0])|)
  }

  /** The fields as they then stand in the buffer. */
  function Rewritten(handlers: Handlers, fs: seq<Field>, meta: Meta, p: nat): (r: seq<Field>)
    ensures |r| == |fs|
    decreases |fs|
  {
    if fs == [] then []
    else
      var reply := FieldReply(handlers, fs[0], meta, p);
      [fs[0].(value := reply.value)] + Rewritten(handlers, fs[1..], reply.meta, p + |Print(fs[0])|)
  }

  lemma PrintLength(handlers: Handlers, f: Field, meta: Meta, p: nat)
    requires KeepLengths(handlers)
    ensures |Print(f.(value := FieldReply(handlers, f, meta, p).value))| == |Print(f)|
  {
  }

  lemma {:induction false} RewrittenLength(handlers: Handlers, fs: seq<Field>, meta: Meta, p: nat)
    requires KeepLengths(handlers)
    ensures |PrintAll(Rewritten(handlers, fs, meta, p))| == |PrintAll(fs)|
    decreases |fs|
  {
    hide Print, FieldReply, KeepLengths;
    if fs != [] {
      var reply := FieldReply(handlers, fs[0], meta, p);
      PrintLength(handlers, fs[0], meta, p);
      RewrittenLength(handlers, fs[1..], reply.meta, p + |Print(fs[0])|);
      var r := Rewritten(handlers, fs, meta, p);
      assert r[0] == fs[0].(value := reply.value) && r[1..] == Rewritten(handlers, fs[1..], reply.meta, p + |Print(fs[0])|);
    }
  }

  /** Text with other bytes of the same length from `p` on. */
  function Over(text: string, p: nat, x: string): string
    requires p + |x| <= |text|
  {
    text[..p] + x + text[p + |x|..]
  }

  lemma Cut(total: string, p: nat, q: nat, e: nat)
    requires p <= q <= e <= |total|
    ensures total[..q] == total[..p] + total[p..q] && total[..e][..q] == total[..q] && total[..e][q..] == total[q..e]
  {
  }

  lemma Joined(a: string, b: string, c: string, d: string, e: string)
    ensures ((a + b) + c + d) + e == a + (b + c + d) + e
  {
    assert (a + b) + c + d == a + (b + c + d);
  }

  lemma WriteIsOver(total: string, p: nat, q: nat, e: nat, v: string)
    requires p <= q && q + |v| <= e <= |total| && v != ""
    ensures Rewrite(total, e, Str(q, |v|), v) == Over(total, p, total[p..q] + v + total[q + |v|..e])
  {
    var z := q + |v|;
    Cut(total, p, q, e);
    Cut(total, q, z, e);
    Joined(total[..p], total[p..q], v, total[z..e], total[e..]);
  }

  /** A line around the value. */
  lemma AroundValue(total: string, f: Field, v: string, p: nat)
    requires f.layout.Colon? && Here(total, p, Print(f)) && |v| == |f.value|
    ensures var q, e := p + |f.name| + 1 + f.layout.before, p + |Print(f)|;
            q + |v| <= e <= |total| && Print(f.(value := v)) == total[p..q] + v + total[q + |v|..e]
  {
    hide Here, Eol;
    var spaces, end, q := Repeat(' ', f.layout.before), Repeat(' ', f.layout.after) + Eol(f.layout.crs), p + |f.name| + 1 + f.layout.before;
    var front := f.name + (":" + spaces);
    Around(f.name, ":", spaces, f.value, end);
    Around(f.name, ":", spaces, v, end);
    HereSplit(total, p, front, f.value + end);
    HereSplit(total, q, f.value, end);
    HereIs(total, p, front);
    HereIs(total, q + |v|, end);
  }

  lemma Around(a: string, b: string, c: string, d: string, e: string)
    ensures a + (b + (c + (d + e))) == (a + (b + c)) + (d + e) == (a + (b + c)) + d + e
  {
  }

  lemma HereIs(total: string, p: nat, x: string)
    requires Here(total, p, x)
    ensures p + |x| <= |total| && total[p..p + |x|] == x
  {
  }

  /** Writing over the value of a printed field prints the field with the new value. */
  lemma FieldOver(total: string, f: Field, v: string, p: nat)
    requires Here(total, p, Print(f)) && |v| == |f.value|
    ensures Rewrite(total, p + |Print(f)|, ValueSpan(f, p), v) == Over(total, p, Print(f.(value := v)))
  {
    hide Rewrite, Over;
    if v == "" || f.layout.Bare? {
      assert Print(f.(value := v)) == Print(f);
      SameOver(total, p, Print(f));
      RewriteNone(total, p + |Print(f)|, v);
    } else {
      hide Print;
      AroundValue(total, f, v, p);
      WriteIsOver(total, p, p + |f.name| + 1 + f.layout.before, p + |Print(f)|, v);
    }
  }

  lemma RewriteNone(total: string, e: nat, v: string)
    requires e <= |total|
    ensures Rewrite(total, e, NoStr, v) == total
  {
  }

  lemma TextBefore(total: string, s: Str, pos: nat)
    requires pos <= |total| && s.p + s.len <= pos
    ensures Text(total[..pos], s) == Text(total, s)
  {
  }

  lemma SpanWithin(total: string, f: Field, p: nat)
    requires Here(total, p, Print(f))
    ensures p + |Print(f)| <= |total| && ValueSpan(f, p).p + ValueSpan(f, p).len <= p + |Print(f)|
  {
  }

  lemma NameHashValid(k: int, name: string)
    requires name != "" && ValidName(name)
    ensures NameHash(k, name) == HashOn(0, name)
  {
    hide HashOn;
    assert NameChar(name[0]);
  }

  lemma OneField(total: string, handlers: Handlers, f: Field, h: Header, meta: Meta, p: nat) returns (h': Header)
    requires KeepLengths(handlers) && FieldLine(f) && Here(total, p, Print(f))
    ensures AllHeaders(total, handlers, HStart, h, meta, p)
         == (var reply := FieldReply(handlers, f, meta, p);
             var after := Over(total, p, Print(f.(value := reply.value)));
             if reply.code != 0 then HeadersBad(-1, after)
             else AllHeaders(after, handlers, HStart, h', reply.meta, p + |Print(f)|))
  {
    hide HashLc, ValidName, Inner, AllValue, NoOuterSpace, HRun, AllHeaders, Over, Rewrite, NameHash, Print, Here, Text;
    h' := ReadLine(total, f, h, p);
    if ValidName(f.name) {
      HashOnValid(f.name);
      NameHashValid(h.hash, f.name);
    }
    SpanText(total, f, p);
    HeadersUnfold(total, handlers, HStart, h, meta, p);
    SpanWithin(total, f, p);
    TextBefore(total, h'.value, p + |Print(f)|);
    FieldOver(total, f, FieldReply(handlers, f, meta, p).value, p);
  }

  lemma EmptyLine(total: string, handlers: Handlers, h: Header, meta: Meta, p: nat) returns (h': Header)
    requires Here(total, p, "\r\n")
    ensures AllHeaders(total, handlers, HStart, h, meta, p) == HeadersOk(h', meta, p + 2, total)
  {
    HereAt(total, p, "\r\n", 0);
    HereAt(total, p, "\r\n", 1);
    OneStep(total, HStart, h, p);
    var h1 := HStep(HStart, h, p, '\r').h;
    OneStep(total, HHeaderAlmostDone, h1, p + 1);
    h' := HStep(HHeaderAlmostDone, h1, p + 1, '\n').h;
    hide HRun, AllHeaders;
    HeadersUnfold(total, handlers, HStart, h, meta, p);
  }

  lemma OverOver(total: string, p: nat, a: string, b: string)
    requires p + |a| + |b| <= |total|
    ensures Over(Over(total, p, a), p + |a|, b) == Over(total, p, a + b)
  {
  }

  lemma HereAfter(total: string, p: nat, a: string, x: string)
    requires p + |a| <= |total| && Here(total, p + |a|, x)
    ensures Here(Over(total, p, a), p + |a|, x)
  {
    var after, q := Over(total, p, a), p + |a|;
    assert after[q..] == total[q..];
    assert after[q..q + |x|] == after[q..][..|x|] == total[q..][..|x|] == total[q..q + |x|];
  }

  /** The bytes the printed fields leave. */
  function Left(handlers: Handlers, fs: seq<Field>, meta: Meta, p: nat): string {
    PrintAll(Rewritten(handlers, fs, meta, p))
  }

  lemma LeftNext(handlers: Handlers, fs: seq<Field>, meta: Meta, p: nat)
    requires fs != []
    ensures var reply := FieldReply(handlers, fs[0], meta, p);
            Left(handlers, fs, meta, p)
            == Print(fs[0].(value := reply.value)) + Left(handlers, fs[1..], reply.meta, p + |Print(fs[0])|)
  {
    var reply := FieldReply(handlers, fs[0], meta, p);
    var r := Rewritten(handlers, fs, meta, p);
    assert r[0] == fs[0].(value := reply.value) && r[1..] == Rewritten(handlers, fs[1..], reply.meta, p + |Print(fs[0])|);
  }

  /** The outcome of the header loop is the handlers' replies in order, and it leaves the rewritten fields. */
  ghost predicate Answered(total: string, handlers: Handlers, fs: seq<Field>, h: Header, meta: Meta, p: nat, h': Header)
    requires p <= |total|
  {
    var all, left := AllHeaders(total, handlers, HStart, h, meta, p), Left(handlers, fs, meta, p);
    && p + |left| <= |total| && |left| == |PrintAll(fs)|
    && match Replies(handlers, fs, meta, p)
       case Some(meta') => all == HeadersOk(h', meta', p + |left|, Over(total, p, left))
       case None => all.HeadersBad?
  }

  lemma AnsweredNext(total: string, handlers: Handlers, fs: seq<Field>, h: Header, meta: Meta, p: nat, h1: Header, h': Header)
    requires KeepLengths(handlers) && fs != [] && p + |PrintAll(fs)| <= |total|
    requires var reply := FieldReply(handlers, fs[0], meta, p);
             && reply.code == 0
             && AllHeaders(total, handlers, HStart, h, meta, p)
                == AllHeaders(Over(total, p, Print(fs[0].(value := reply.value))), handlers, HStart, h1, reply.meta, p + |Print(fs[0])|)
             && Answered(Over(total, p, Print(fs[0].(value := reply.value))), handlers, fs[1..], h1, reply.meta, p + |Print(fs[0])|, h')
    ensures Answered(total, handlers, fs, h, meta, p, h')
  {
    hide AllHeaders, Over, Print, FieldReply, Left, KeepLengths;
    var reply := FieldReply(handlers, fs[0], meta, p);
    var line := Print(fs[0].(value := reply.value));
    PrintLength(handlers, fs[0], meta, p);
    LeftNext(handlers, fs, meta, p);
    OverLength(total, p, line);
    OverOver(total, p, line, Left(handlers, fs[1..], reply.meta, p + |Print(fs[0])|));
  }

  lemma AnsweredNone(total: string, handlers: Handlers, h: Header, meta: Meta, p: nat) returns (h': Header)
    requires Here(total, p, "\r\n")
    ensures Answered(total, handlers, [], h, meta, p, h')
  {
    hide AllHeaders, Over;
    h' := EmptyLine(total, handlers, h, meta, p);
    SameOver(total, p, "\r\n");
  }

  lemma AnsweredBad(total: string, handlers: Handlers, fs: seq<Field>, h: Header, meta: Meta, p: nat)
    requires KeepLengths(handlers) && fs != [] && p + |PrintAll(fs)| <= |total|
    requires FieldReply(handlers, fs[0], meta, p).code != 0 && AllHeaders(total, handlers, HStart, h, meta, p).HeadersBad?
    ensures Answered(total, handlers, fs, h, meta, p, h)
  {
    hide AllHeaders, Over, Rewritten, PrintAll, FieldReply, KeepLengths;
    RewrittenLength(handlers, fs, meta, p);
  }

  lemma {:induction false} HeadersPrinted(total: string, handlers: Handlers, fs: seq<Field>, h: Header, meta: Meta, p: nat)
    returns (h': Header)
    requires KeepLengths(handlers) && (forall f :: f in fs ==> FieldLine(f)) && Here(total, p, PrintAll(fs))
    ensures Answered(total, handlers, fs, h, meta, p, h')
    decreases |fs|
  {
    hide AllHeaders, FieldLine, Print, Over, KeepLengths, FieldReply, Answered, Left, Replies, Rewritten;
    if fs == [] {
      h' := AnsweredNone(total, handlers, h, meta, p);
    } else {
      var f, rest, q := fs[0], PrintAll(fs[1..]), p + |Print(fs[0])|;
      HereSplit(total, p, Print(f), rest);
      var h1 := OneField(total, handlers, f, h, meta, p);
      var reply := FieldReply(handlers, f, meta, p);
      var line := Print(f.(value := reply.value));
      if reply.code == 0 {
        PrintLength(handlers, f, meta, p);
        HereAfter(total, p, line, rest);
        hide Here;
        h' := HeadersPrinted(Over(total, p, line), handlers, fs[1..], h1, reply.meta, q);
        AnsweredNext(total, handlers, fs, h, meta, p, h1, h');
      } else {
        h' := h;
        AnsweredBad(total, handlers, fs, h, meta, p);
      }
    }
  }

  lemma SameOver(total: string, p: nat, x: string)
    requires Here(total, p, x)
    ensures Over(total, p, x) == total
  {
  }

  lemma OverLength(total: string, p: nat, x: string)
    requires p + |x| <= |total|
    ensures |Over(total, p, x)| == |total|
  {
  }

  // ---------------------------------------------------------------- the whole request

  function PrintRequest(f: Form, fs: seq<Field>, content: string): string { PrintForm(f) + (PrintAll(fs) + content) }

  const NO_META := Meta(0, NoStr)

  /** The version the driver goes by: 9 for no version and for every minor version 9. */
  function VersionOf(f: Form): int
    requires Proper(f)
  {
    if f.tail.Simple? || Short(f.tail.minor) == 9 then 9 else Short(f.tail.major) * 1000 + Short(f.tail.minor)
  }

  /**
   * A printed request is read back. Version 0.9 is for GET alone; below version 1.0 the
   * line is the request; from 1.0 on the headers are read, or refused.
   */
  lemma RequestRead(f: Form, fs: seq<Field>, content: string, handlers: Handlers, r: Line, h: Header) returns (r': Line, h': Header)
    requires Proper(f)
    requires KeepLengths(handlers) && (forall f :: f in fs ==> FieldLine(f))
    ensures var line, total := PrintForm(f), PrintRequest(f, fs, content);
            var a, left := ReadRequest(total, handlers, r, h, NO_META), Left(handlers, fs, NO_META, |line|);
            && |left| == |PrintAll(fs)|
            && (if VersionOf(f) == 9 && f.m != Get then a.BadRequest?
                else if VersionOf(f) < 1000 then a == Old(r', total)
                else match Replies(handlers, fs, NO_META, |line|)
                     case Some(meta) => a == Answer.Modern(r', h', meta, |line| + |left|, line + (left + content))
                     case None => a.BadRequest?)
    ensures FormRecorded(r, r', 0, f)
  {
    hide AllHeaders, PrintForm, PrintAll, Replies, Left, FormRecorded, Proper;
    var line, total := PrintForm(f), PrintRequest(f, fs, content);
    assert Here(total, 0, line) && Here(total, |line|, PrintAll(fs)) by { RequestHere(line, PrintAll(fs), content); }
    hide Here, Run, FieldLine;
    var code;
    code, r' := FormRead(total, f, r, 0);
    VersionRecorded(r, r', 0, f);
    h' := HeadersPrinted(total, handlers, fs, h, NO_META, |line|);
    OverRequest(line, PrintAll(fs), Left(handlers, fs, NO_META, |line|), content);
  }

  lemma RequestHere(line: string, a: string, content: string)
    ensures var total := line + (a + content); Here(total, 0, line) && Here(total, |line|, a)
  {
    var total := line + (a + content);
    assert total[|line|..|line| + |a|] == a;
  }

  lemma VersionRecorded(r0: Line, r: Line, p: nat, f: Form)
    requires Proper(f) && FormRecorded(r0, r, p, f)
    ensures r.proto.version == VersionOf(f)
  {
    hide TargetRecorded, NameOf, Version, PrintTarget, Decimal;
  }

  lemma OverRequest(line: string, a: string, b: string, content: string)
    requires |a| == |b|
    ensures Over(line + (a + content), |line|, b) == line + (b + content)
  {
  }

  lemma TargetText(f: Form, post: string, r0: Line, r: Line)
    requires Proper(f) && FormRecorded(r0, r, 0, f)
    ensures Text(PrintForm(f) + post, r.target.uri) == UriOf(f)
  {
    hide PrintForm, Proper, TargetRecorded, Text, PrintTarget, LineEnd, Version;
    var buf := PrintForm(f) + post;
    assert Here(buf, 0, PrintForm(f));
    hide Here;
    LineTexts(buf, f, 0);
    TargetTexts(buf, f, r0, r, TargetAt(f, 0));
  }

  /** The method, the target and the first bytes of the content were read from the buffer, which ends with them. */
  ghost predicate ReadBack(c: Connection, f: Form, head: string, content: string, meta: Meta)
    reads c
  {
    && 0 <= meta.length <= |content| && c.meta == meta && c.buf == head + content[..meta.length]
    && c.line.head.verb == f.m && Text(c.buf, c.line.target.uri) == UriOf(f)
    && Text(c.buf, c.body) == content[..meta.length]
  }

  /** A request below version 1.0 is its line. */
  ghost predicate LineAnswered(c: Connection, f: Form, status: int)
    reads c
    requires Proper(f)
  {
    && status == (if VersionOf(f) == 9 && f.m != Get then 400 else 200)
    && (status == 200 ==> c.line.head.verb == f.m && Text(c.Total(), c.line.target.uri) == UriOf(f))
  }

  /**
   * A printed request, cut by the network. Below version 1.0 it is answered by its line
   * alone. From 1.0 on it is 400 exactly when a handler refuses a header, 200 exactly
   * when some receive ends where the announced body does, 507 otherwise. So it is 507
   * under every cutting when less follows than announced, and 200 when just that
   * follows. With 200 the method, the target and the body are read back from a buffer
   * that holds the request up to there, with its header values as the handlers left
   * them.
   */
  method ServePrinted(c: Connection, handlers: Handlers, ghost f: Form, ghost fs: seq<Field>, ghost content: string)
    returns (status: int)
    requires c.Valid() && c.buf == "" && c.pos == 0 && c.state == Start && c.hstate == HStart && Fresh(c.line) && c.meta == NO_META
    requires Proper(f) && KeepLengths(handlers) && (forall f :: f in fs ==> FieldLine(f))
    requires Flat(c.net) == PrintRequest(f, fs, content) && |Flat(c.net)| <= c.size
    modifies c
    ensures VersionOf(f) < 1000 ==> LineAnswered(c, f, status)
    ensures VersionOf(f) >= 1000 ==>
              var line := PrintForm(f);
              var left, meta := Left(handlers, fs, NO_META, |line|), Replies(handlers, fs, NO_META, |line|);
              && (status == 400 <==> meta.None?) && status in {200, 400, 507}
              && (status == 200 <==> meta.Some? && meta.value.length >= 0
                                     && Lands(0, old(c.net), |line| + |left| + meta.value.length))
              && (meta.Some? && meta.value.length > |content| ==> status == 507)
              && (meta.Some? && meta.value.length == |content| ==> status == 200)
              && (status == 200 ==> ReadBack(c, f, line + left, content, meta.value))
  {
    hide Flat, ReadRequest, PrintForm, PrintAll, Replies, Proper, VersionOf, TargetRecorded, Left, Lands, KeepLengths, FieldLine;
    ghost var line := PrintForm(f);
    ghost var left := Left(handlers, fs, NO_META, |line|);
    assert "" + Flat(c.net) == Flat(c.net);
    ghost var net, total, r0 := c.net, c.Total(), c.line;
    ghost var a := ReadRequest(total, handlers, c.line, c.header, NO_META);
    ghost var r, h := RequestRead(f, fs, content, handlers, c.line, c.header);
    if a.Modern? && a.meta.length >= 0 {
      StatusOfExact(a, total, net);
    }
    status := c.HandleRequest(handlers);
    if a.Modern? && status == 200 {
      UpToBody(c.buf, Flat(c.net), line, left, content, a.meta.length);
      TargetText(f, left + content[..a.meta.length], r0, r);
    } else if a.Old? {
      TargetText(f, PrintAll(fs) + content, r0, r);
    }
  }

  /** The bytes of a buffer that ends with the announced body. */
  lemma UpToBody(buf: string, later: string, line: string, left: string, content: string, n: nat)
    requires buf + later == line + (left + content) && |buf| == |line| + |left| + n
    ensures n <= |content| && buf == line + (left + content[..n]) == line + left + content[..n]
    ensures Text(buf, Str(|line| + |left|, n)) == content[..n]
  {
    var total := line + (left + content);
    assert buf == total[..|buf|];
    assert total == line + left + content;
  }

  // ---------------------------------------------------------------- with the built-in handlers

  /** A line that the handler of a name is called for. */
  predicate Named(f: Field, name: string) { ValidName(f.name) && HashLc(f.name) == HashLc(name) }

  /** The built-in handlers take a Host that names one and a positive Content-Length. */
  predicate Accepted(f: Field) {
    && (Named(f, HOST) ==> HostCode(f.value) == 0)
    && (Named(f, CONTENT_LENGTH) ==> Number(f.value) > 0)
  }

  /** The length announced last, or `length` when none is. */
  function Announced(fs: seq<Field>, length: int): int {
    if fs == [] then length
    else Announced(fs[1..], if Named(fs[0], CONTENT_LENGTH) then Number(fs[0].value) else length)
  }

  /** The fields with each Host in lower case. */
  function HostsLowered(fs: seq<Field>): seq<Field> {
    seq(|fs|, i requires 0 <= i < |fs| =>
      if Named(fs[i], HOST) then fs[i].(value := LowerAll(fs[i].value)) else fs[i])
  }

  lemma BuiltInKeeps()
    ensures KeepLengths(BuiltIn)
  {
  }

  lemma OneReply(f: Field, meta: Meta, p: nat)
    ensures var reply := FieldReply(BuiltIn, f, meta, p);
            && (reply.code == 0 <==> Accepted(f))
            && reply.meta.length == Announced([f], meta.length)
            && (Accepted(f) ==> [f.(value := reply.value)] == HostsLowered([f]))
  {
    BuiltInTable();
    var v := f.value;
    assert FirstBad(v, 0) == |v| ==> v[..|v|] == v && HostText(v) == LowerAll(v) + v[|v|..] == LowerAll(v);
  }

  /** All the replies: accepted exactly field by field, the last length wins, and only Hosts change. */
  lemma {:induction false} BuiltInReplies(fs: seq<Field>, meta: Meta, p: nat)
    ensures var replies := Replies(BuiltIn, fs, meta, p);
            && (replies.Some? <==> forall f :: f in fs ==> Accepted(f))
            && (replies.Some? ==> replies.value.length == Announced(fs, meta.length)
                                  && Rewritten(BuiltIn, fs, meta, p) == HostsLowered(fs))
    decreases |fs|
  {
    hide FieldReply, Accepted, HashLc, Print;
    if fs != [] {
      var f, rest := fs[0], fs[1..];
      OneReply(f, meta, p);
      var reply := FieldReply(BuiltIn, f, meta, p);
      assert fs == [f] + rest && HostsLowered(fs) == HostsLowered([f]) + HostsLowered(rest);
      BuiltInReplies(rest, reply.meta, p + |Print(f)|);
    }
  }

  lemma CasingValid(name: string)
    requires LowerAll(name) == LowerAll(CONTENT_LENGTH)
    ensures ValidName(name)
  {
    assert |name| == |LowerAll(name)| == |CONTENT_LENGTH|;
    forall i | 0 <= i < |name| ensures NameChar(name[i]) {
      assert ToLower(name[i]) == LowerAll(name)[i] == LowerAll(CONTENT_LENGTH)[i] == ToLower(CONTENT_LENGTH[i]);
      assert NameChar(CONTENT_LENGTH[i]);
    }
  }

  /** One Content-Length, in any casing, announces its number wherever it stands. */
  lemma {:induction false} AnnouncedBy(fs: seq<Field>, i: nat, length: int)
    requires i < |fs| && LowerAll(fs[i].name) == LowerAll(CONTENT_LENGTH) && Digits(fs[i].value)
    requires forall j :: i < j < |fs| ==> !Named(fs[j], CONTENT_LENGTH)
    ensures Announced(fs, length) == Decimal(fs[i].value) <==> Decimal(fs[i].value) < Ordered.TWO31
  {
    if i == 0 {
      CasingValid(fs[0].name);
      HashIgnoresCase(fs[0].name, CONTENT_LENGTH);
      NumberExact(fs[0].value);
      NoneAnnounced(fs[1..], Number(fs[0].value));
    } else {
      AnnouncedBy(fs[1..], i - 1, if Named(fs[0], CONTENT_LENGTH) then Number(fs[0].value) else length);
    }
  }

  lemma {:induction false} NoneAnnounced(fs: seq<Field>, length: int)
    requires forall f :: f in fs ==> !Named(f, CONTENT_LENGTH)
    ensures Announced(fs, length) == length
  {
    if fs != [] {
      NoneAnnounced(fs[1..], length);
    }
  }

  /** The server as shipped: a printed request is answered by its line, its headers and its content alone. */
  method ServeBuiltIn(c: Connection, ghost f: Form, ghost fs: seq<Field>, ghost content: string) returns (status: int)
    requires c.Valid() && c.buf == "" && c.pos == 0 && c.state == Start && c.hstate == HStart && Fresh(c.line) && c.meta == NO_META
    requires Proper(f) && (forall f :: f in fs ==> FieldLine(f))
    requires Flat(c.net) == PrintRequest(f, fs, content) && |Flat(c.net)| <= c.size
    modifies c
    ensures VersionOf(f) < 1000 ==> LineAnswered(c, f, status)
    ensures VersionOf(f) >= 1000 ==> (status == 400 <==> exists f :: f in fs && !Accepted(f)) && status in {200, 400, 507}
    ensures VersionOf(f) >= 1000 ==>
              var head := PrintRequest(f, HostsLowered(fs), "");
              && (status == 200 <==> (forall f :: f in fs ==> Accepted(f)) && Announced(fs, 0) >= 0
                                     && Lands(0, old(c.net), |head| + Announced(fs, 0)))
              && (status == 200 ==> c.meta.length == Announced(fs, 0) && ReadBack(c, f, head, content, c.meta))
    ensures VersionOf(f) >= 1000 && (forall f :: f in fs ==> Accepted(f)) && Announced(fs, 0) > |content| ==> status == 507
    ensures VersionOf(f) >= 1000 && (forall f :: f in fs ==> Accepted(f)) && Announced(fs, 0) == |content| ==> status == 200
  {
    BuiltInKeeps();
    hide Flat, PrintForm, PrintAll, Replies, Proper, VersionOf, FieldLine, KeepLengths, Accepted, Announced;
    hide HostsLowered, Rewritten, Lands, Text;
    status := ServePrinted(c, BuiltIn, f, fs, content);
    BuiltInReplies(fs, NO_META, |PrintForm(f)|);
    ghost var line, left := PrintForm(f), PrintAll(HostsLowered(fs));
    assert line + (left + "") == line + left;
  }
}
