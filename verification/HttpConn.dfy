/**
 * A connection and its request: the parsing loops of `src/http/parse.c` and
 * the receive loops of `src/http/request.c`.
 *
 * `total` is everything the peer sends; a receive hands over some of it, in
 * pieces the caller does not choose.
 */
module HttpConn {
  import opened HttpLine
  import opened HttpLineProof
  import opened HttpHeader
  import opened HttpHeaderRoundTrip

  /** The fields of the request that header handlers write: the announced length, and the host once it is known. */
  datatype Meta = Meta(length: int, host: Str)

  /** What a header handler does: its return code, the bytes it leaves in place of the value, and those fields. */
  datatype Reply = Reply(code: int, value: string, meta: Meta)

  /** A handler is found by the name's hash and sees the value, where it lies and what it says. */
  type Handlers = (int, Str, string, Meta) -> Reply

  ghost function Flat(net: seq<string>): string {
    if net == [] then "" else net[0] + Flat(net[1..])
  }

  /** Bytes put over a span of the same length. */
  function Write(text: string, s: Str, v: string): (r: string)
    ensures |r| == |text|
  {
    if 0 <= s.p && s.len == |v| && s.p + s.len <= |text| then text[..s.p] + v + text[s.p + s.len..] else text
  }

  /** A handler writes before the end of its line. */
  function Rewrite(text: string, pos: nat, s: Str, v: string): (r: string)
    requires pos <= |text|
    ensures |r| == |text| && r[pos..] == text[pos..]
  {
    Write(text[..pos], s, v) + text[pos..]
  }

  lemma RewriteAppend(buf: string, rest: string, pos: nat, s: Str, v: string)
    requires pos <= |buf|
    ensures Rewrite(buf, pos, s, v) + rest == Rewrite(buf + rest, pos, s, v)
  {
    assert (buf + rest)[..pos] == buf[..pos];
    assert (buf + rest)[pos..] == buf[pos..] + rest;
  }

  /** handle_http_request_header: an invalid header is skipped. */
  function ReplyTo(handlers: Handlers, h: Header, text: string, meta: Meta): Reply {
    if h.invalid then Reply(0, Text(text, h.value), meta) else handlers(h.hash, h.value, Text(text, h.value), meta)
  }

  datatype Headers = HeadersOk(h: Header, meta: Meta, pos: nat, text: string) | HeadersBad(code: int, text: string)

  /** What http_process_request_header makes of a whole input, and what it leaves of the bytes. */
  ghost function AllHeaders(total: string, handlers: Handlers, state: HState, h: Header, meta: Meta, p: nat): (res: Headers)
    requires p <= |total|
    ensures res.HeadersBad? ==> res.code < 0
    ensures |res.text| == |total|
    ensures res.HeadersOk? ==> p < res.pos <= |total| && res.text[res.pos..] == total[res.pos..]
    decreases |total| - p
  {
    match HRun(total, state, h, p)
    case HLine(h', pos) =>
      var reply := ReplyTo(handlers, h', total[..pos], meta);
      var after := Rewrite(total, pos, h'.value, reply.value);
      if reply.code != 0 then HeadersBad(-1, after)
      else
        var res := AllHeaders(after, handlers, HStart, h', reply.meta, pos);
        assert res.HeadersOk? ==> after[pos..][res.pos - pos..] == after[res.pos..] && total[pos..][res.pos - pos..] == total[res.pos..];
        res
    case HMore(_, _) => HeadersBad(-2, total)
    case HEnd(h', pos) => HeadersOk(h', meta, pos, total)
    case HRefused(_, _) => HeadersBad(-3, total)
  }

  /** One line more. */
  lemma HeadersUnfold(total: string, handlers: Handlers, state: HState, h: Header, meta: Meta, p: nat)
    requires p <= |total|
    ensures var run, all := HRun(total, state, h, p), AllHeaders(total, handlers, state, h, meta, p);
            && (run.HMore? ==> all == HeadersBad(-2, total)) && (run.HRefused? ==> all == HeadersBad(-3, total))
            && (run.HEnd? ==> all == HeadersOk(run.h, meta, run.pos, total))
            && (run.HLine? ==>
                  var reply := ReplyTo(handlers, run.h, total[..run.pos], meta);
                  var after := Rewrite(total, run.pos, run.h.value, reply.value);
                  all == if reply.code != 0 then HeadersBad(-1, after)
                         else AllHeaders(after, handlers, HStart, run.h, reply.meta, run.pos))
  {
    hide HRun, Rewrite, ReplyTo;
  }

  /** A run that only read more is no different for the headers. */
  lemma HeadersResume(total: string, handlers: Handlers, state: HState, h: Header, state': HState, h': Header, meta: Meta, p: nat, q: nat)
    requires p <= |total| && q <= |total| && HRun(total, state, h, p) == HRun(total, state', h', q)
    ensures AllHeaders(total, handlers, state, h, meta, p) == AllHeaders(total, handlers, state', h', meta, q)
  {
    hide HRun, Rewrite, ReplyTo;
  }

  /** The header machine does not look back. */
  lemma {:induction false} HRunAhead(a: string, b: string, state: HState, h: Header, p: nat)
    requires p <= |a| == |b| && a[p..] == b[p..]
    ensures HRun(a, state, h, p) == HRun(b, state, h, p)
    decreases |a| - p
  {
    if p < |a| {
      assert a[p] == a[p..][0] == b[p..][0] == b[p];
      assert a[p + 1..] == a[p..][1..] == b[p..][1..] == b[p + 1..];
      var o := HStep(state, h, p, a[p]);
      if o.HNext? {
        HRunAhead(a, b, o.state, o.h, p + 1);
      }
    }
  }

  /** Where the lines end when nobody writes over them. */
  ghost function HeadersEnd(total: string, state: HState, h: Header, p: nat): HParsed
    requires p <= |total|
    decreases |total| - p
  {
    match HRun(total, state, h, p)
    case HLine(h', pos) => HeadersEnd(total, HStart, h', pos)
    case other => other
  }

  lemma {:induction false} HeadersEndAhead(a: string, b: string, state: HState, h: Header, p: nat)
    requires p <= |a| == |b| && a[p..] == b[p..]
    ensures HeadersEnd(a, state, h, p) == HeadersEnd(b, state, h, p)
    decreases |a| - p
  {
    HRunAhead(a, b, state, h, p);
    var o := HRun(a, state, h, p);
    hide HRun;
    if o.HLine? {
      assert a[o.pos..] == a[p..][o.pos - p..] == b[p..][o.pos - p..] == b[o.pos..];
      HeadersEndAhead(a, b, HStart, o.h, o.pos);
    }
  }

  /** What handlers write does not change what is parsed after it. */
  lemma {:induction false} WritesUnread(total: string, handlers: Handlers, state: HState, h: Header, meta: Meta, p: nat)
    requires p <= |total|
    ensures var all := AllHeaders(total, handlers, state, h, meta, p);
            all.HeadersOk? ==> HeadersEnd(total, state, h, p) == HEnd(all.h, all.pos)
    decreases |total| - p
  {
    hide HRun, Rewrite, ReplyTo;
    var o := HRun(total, state, h, p);
    if o.HLine? {
      var reply := ReplyTo(handlers, o.h, total[..o.pos], meta);
      var after := Rewrite(total, o.pos, o.h.value, reply.value);
      WritesUnread(after, handlers, HStart, o.h, reply.meta, o.pos);
      HeadersEndAhead(after, total, HStart, o.h, o.pos);
    }
  }

  class Connection {
    /** The bytes between b->start and b->last, and the room up to b->end. */
    var buf: string
    const size: nat
    var pos: nat
    /** The pieces the network will still deliver; when they run out, a receive fails. */
    var net: seq<string>
    /** What a receive then answers: a timeout, an error or the peer's close. */
    const fault: int

    var state: State
    var line: Line
    var hstate: HState
    var header: Header
    var meta: Meta
    var body: Str

    ghost predicate Valid()
      reads this
    {
      pos <= |buf| <= size && (forall i :: 0 <= i < |net| ==> net[i] != "") && -4 <= fault <= -2
    }

    ghost function Total(): string
      reads this
    {
      buf + Flat(net)
    }

    constructor (size: nat, net: seq<string>, fault: int)
      requires (forall i :: 0 <= i < |net| ==> net[i] != "") && -4 <= fault <= -2
      ensures Valid() && buf == "" && pos == 0 && Total() == Flat(net) && this.net == net && this.size == size
      ensures state == Start && Fresh(line) && meta == Meta(0, NoStr) && hstate == HStart && this.fault == fault
    {
      this.size, this.net, this.fault := size, net, fault;
      buf, pos := "", 0;
      state, hstate := Start, HStart;
      line := Line(Front(NoStr, NoStr, Unknown), Target(NoStr, NoStr, NoStr, NoStr, NULL, NoStr), Proto(NoStr, 0, 0, 0),
                   Flags(false, false, false, false));
      header := Header(NoStr, NoStr, false, 0, 0, seq(LC_HEADER_LEN, _ => '\0'));
      meta, body := Meta(0, NoStr), NoStr;
    }

    /** recv_http_request: at most as much as the buffer has room for. */
    method Receive() returns (ret: int)
      requires Valid()
      modifies this`buf, this`net
      ensures Valid() && Total() == old(Total()) && old(buf) <= buf
      ensures ret == if |old(buf)| == size then -1 else if old(net) == [] then fault else 0
      ensures if ret == 0 then |old(buf)| < |buf| else buf == old(buf) && net == old(net)
      ensures ret == 0 && |old(buf)| + |old(net)[0]| <= size ==> buf == old(buf) + old(net)[0] && net == old(net)[1..]
    {
      if |buf| == size {
        return -1;
      }
      if net == [] {
        return fault;
      }
      var room, piece := size - |buf|, net[0];
      if |piece| <= room {
        buf, net := buf + piece, net[1..];
      } else {
        buf, net := buf + piece[..room], [piece[room..]] + net[1..];
        assert piece == piece[..room] + piece[room..];
      }
      ret := 0;
    }

    /** http_parse_request_line over the bytes received so far. */
    method ParseRequestLine() returns (ret: int)
      requires Valid()
      modifies this`state, this`line, this`pos
      ensures Valid()
      ensures match Run(buf, old(state), old(line), old(pos))
              case More(s, r) => ret == 1 && state == s && line == r && pos == |buf|
              case Ended(code, r, p) => ret == code && state == Start && line == r && pos == p
              case Refused(code, r) => ret == code && state == old(state) && line == r && pos == old(pos)
    {
      hide Step, Complete;
      var p, s := pos, state;
      while p != |buf|
        invariant pos == old(pos) && state == old(state) && pos <= p <= |buf|
        invariant Run(buf, s, line, p) == Run(buf, old(state), old(line), old(pos))
        decreases |buf| - p, MayReread(s)
      {
        match Step(buf, s, line, p) {
          case Next(s', r) =>
            s, line := s', r;
            p := p + 1;
          case Again(s', r) =>
            s, line := s', r;
          case Fail(code, r) =>
            line := r;
            return code;
          case Done(r) =>
            var (code, r') := Complete(r);
            line, pos, state := r', p + 1, Start;
            return code;
        }
      }
      pos, state := p, s;
      ret := 1;
    }

    /** Nothing is left to receive once the buffer holds everything. */
    lemma AllHere()
      requires Valid() && |Total()| <= size
      ensures |buf| == size || net == [] ==> Total() == buf
      ensures Total()[..|buf|] == buf && (net != [] ==> |buf| + |net[0]| <= size)
    {
    }

    /**
     * http_process_request_line. If everything fits the buffer, the answer and
     * the recorded spans are those of one call over all the bytes, however
     * they arrived.
     */
    method ProcessRequestLine() returns (ret: int)
      requires Valid() && pos == |buf| && |Total()| <= size
      modifies this`buf, this`net, this`state, this`line, this`pos
      ensures Valid() && Total() == old(Total())
      ensures ret == 0 ==> SameLandings(|old(buf)|, old(net), |buf|, net, pos)
      ensures match Run(Total(), old(state), old(line), old(pos))
              case More(_, _) => ret == -1
              case Ended(code, r, p) => line == r && (if code == 0 then ret == 0 && state == Start && pos == p else ret == -2)
              case Refused(_, r) => line == r && ret == -2
    {
      hide Run, Flat, Lands, SameLandings;
      ghost var total := Total();
      LandingsSame(|buf|, net, pos);
      while true
        invariant Valid() && pos == |buf| && Total() == total
        invariant SameLandings(|old(buf)|, old(net), |buf|, net, pos)
        invariant Run(total, state, line, pos) == Run(total, old(state), old(line), old(pos))
        decreases size - |buf|
      {
        AllHere();
        LandingsLater(|old(buf)|, old(net), |buf|, net, pos, pos + 1);
        LandingsOn(|old(buf)|, old(net), |buf|, net, pos);
        ghost var from := pos + 1;
        ret := Receive();
        if ret != 0 {
          return -1;
        }
        AllHere();
        SplitLine(total, |buf|, state, line, pos);
        ret := ParseRequestLine();
        if ret >= 0 {
          LandingsLater(|old(buf)|, old(net), |buf|, net, from, pos);
        }
        if ret == 0 {
          return 0;
        }
        if ret < 0 {
          return -2;
        }
      }
    }

    /** http_parse_request_header over the bytes received so far. */
    method ParseRequestHeader() returns (ret: int)
      requires Valid()
      modifies this`hstate, this`header, this`pos
      ensures Valid()
      ensures match HRun(buf, old(hstate), old(header), old(pos))
              case HMore(s, h) => ret == 1 && hstate == s && header == h && pos == |buf|
              case HLine(h, p) => ret == 0 && hstate == HStart && header == h && pos == p
              case HEnd(h, p) => ret == 100 && hstate == HStart && header == h && pos == p
              case HRefused(code, h) =>
                && ret == code && hstate == old(hstate) && pos == old(pos)
                && header == h.(hash := old(header.hash), lowIndex := old(header.lowIndex))
    {
      var p, s := pos, hstate;
      var hash, lowIndex := header.hash, header.lowIndex;
      while p < |buf|
        invariant pos == old(pos) && hstate == old(hstate) && pos <= p <= |buf|
        invariant HRun(buf, s, header, p) == HRun(buf, old(hstate), old(header), old(pos))
      {
        match HStep(s, header, p, buf[p]) {
          case HNext(s', h) =>
            s, header := s', h;
            p := p + 1;
          case HDone(h) =>
            header, pos, hstate := h, p + 1, HStart;
            return 0;
          case HHeaderDone(h) =>
            header, pos, hstate := h, p + 1, HStart;
            return 100;
          case HFail(code, h) =>
            header := h.(hash := hash, lowIndex := lowIndex);
            return code;
        }
      }
      pos, hstate := p, s;
      ret := 1;
    }

    /** The call of a header's handler, which may write over the value. */
    method HandleHeader(handlers: Handlers) returns (code: int)
      requires Valid()
      modifies this`buf, this`meta
      ensures Valid() && |buf| == |old(buf)|
      ensures var reply := ReplyTo(handlers, header, old(Total())[..pos], old(meta));
              code == reply.code && meta == reply.meta && Total() == Rewrite(old(Total()), pos, header.value, reply.value)
    {
      hide Flat, Text;
      assert Total()[..pos] == buf[..pos];
      var reply := ReplyTo(handlers, header, buf[..pos], meta);
      RewriteAppend(buf, Flat(net), pos, header.value, reply.value);
      hide Rewrite;
      buf, meta := Rewrite(buf, pos, header.value, reply.value), reply.meta;
      code := reply.code;
    }

    /**
     * http_process_request_header: the answer, and what the handlers leave of the
     * bytes, depend on the bytes, not on how they arrived.
     */
    method ProcessRequestHeader(handlers: Handlers) returns (ret: int)
      requires Valid() && |Total()| <= size
      modifies this`buf, this`net, this`hstate, this`header, this`pos, this`meta
      ensures Valid() && ret <= 0 && (ret == 0 ==> SameLandings(|old(buf)|, old(net), |buf|, net, pos))
      ensures var res := AllHeaders(old(Total()), handlers, old(hstate), old(header), old(meta), old(pos));
              && Total() == res.text
              && (res.HeadersOk? ==> ret == 0 && header == res.h && meta == res.meta && pos == res.pos)
              && (res.HeadersBad? ==> ret == res.code)
    {
      hide HRun, Flat, Text, Rewrite, ReplyTo, Lands, SameLandings, AllHeaders;
      ghost var res := AllHeaders(Total(), handlers, hstate, header, meta, pos);
      LandingsSame(|buf|, net, pos + 1);
      while true
        invariant Valid() && |Total()| <= size && |old(buf)| <= |buf|
        invariant SameLandings(|old(buf)|, old(net), |buf|, net, pos + 1)
        invariant AllHeaders(Total(), handlers, hstate, header, meta, pos) == res
        decreases 2 * size - |buf| - pos
      {
        AllHere();
        SplitHeader(Total(), |buf|, hstate, header, pos);
        HeadersUnfold(Total(), handlers, hstate, header, meta, pos);
        ghost var from, s, h, p := pos + 1, hstate, header, pos;
        ret := ParseRequestHeader();
        if ret >= 0 {
          LandingsLater(|old(buf)|, old(net), |buf|, net, from, if ret == 100 then pos else pos + 1);
        }
        if ret == 0 {
          var code := HandleHeader(handlers);
          if code != 0 {
            return -1;
          }
        } else if ret == 1 {
          HeadersResume(Total(), handlers, s, h, hstate, header, meta, p, pos);
          AllHere();
          LandingsOn(|old(buf)|, old(net), |buf|, net, pos);
          ret := Receive();
          if ret != 0 {
            return -2;
          }
        } else if ret == 100 {
          return 0;
        } else {
          return -3;
        }
      }
    }

    /** http_process_request_body: it stops only when a receive ends exactly where the announced body does. */
    method ProcessRequestBody() returns (ret: int)
      requires Valid() && |Total()| <= size
      modifies this`buf, this`net, this`body
      ensures Valid() && Total() == old(Total())
      ensures ret == 0 <==> Lands(|old(buf)|, old(net), pos + meta.length)
      ensures ret == 0 ==> body == Str(pos, meta.length) && |buf| == pos + meta.length
      ensures ret != 0 ==> ret == -1
    {
      while |buf| - pos != meta.length
        invariant Valid() && Total() == old(Total())
        invariant Lands(|buf|, net, pos + meta.length) <==> Lands(|old(buf)|, old(net), pos + meta.length)
        decreases size - |buf|
      {
        AllHere();
        ghost var before, pieces := |buf|, net;
        ret := Receive();
        if ret != 0 {
          return -1;
        }
      }
      body := Str(pos, meta.length);
      ret := 0;
    }

    /**
     * __http_request_handler, without the optional line handlers. For a request
     * that fits the buffer, all but the status depends on the bytes alone, and
     * the status on whether some receive ends where the announced body does.
     */
    method HandleRequest(handlers: Handlers) returns (status: int)
      requires Valid() && |Total()| <= size && buf == "" && pos == 0
      requires state == Start && hstate == HStart && Fresh(line)
      modifies this
      ensures Valid()
      ensures var a := ReadRequest(old(Total()), handlers, old(line), old(header), old(meta));
              && Total() == a.text && status == StatusOf(a, old(net))
              && (!a.BadRequest? ==> line == a.r)
              && (a.Modern? ==> header == a.h && meta == a.meta)
              && (a.Modern? && status == 200 ==> body == Str(a.pos, a.meta.length) && |buf| == a.pos + a.meta.length)
    {
      hide Run, AllHeaders, Flat, Lands;
      var ret := ProcessRequestLine();
      if ret != 0 {
        return 400;
      }
      if line.proto.version < 1000 {
        return 200;
      }
      ghost var landed, left := |buf|, net;
      ret := ProcessRequestHeader(handlers);
      if ret != 0 {
        return 400;
      }
      LandingsChain(0, old(net), landed, left, |buf|, net, pos);
      BodyLands(|buf|, net, pos, meta.length);
      ret := ProcessRequestBody();
      status := if ret != 0 then 507 else 200;
    }
  }

  /** The receives to come end at the same places from `from` on. */
  ghost predicate SameLandings(last: nat, net: seq<string>, last': nat, net': seq<string>, from: nat) {
    forall x: int :: x >= from ==> (Lands(last, net, x) <==> Lands(last', net', x))
  }

  lemma LandingsSame(last: nat, net: seq<string>, from: nat)
    ensures SameLandings(last, net, last, net, from)
  {
  }

  lemma LandingsLater(last: nat, net: seq<string>, last': nat, net': seq<string>, from: nat, from': nat)
    requires SameLandings(last, net, last', net', from) && from <= from'
    ensures SameLandings(last, net, last', net', from')
  {
  }

  lemma LandingsOn(last: nat, net: seq<string>, last': nat, net': seq<string>, pos: nat)
    requires SameLandings(last, net, last', net', pos + 1) && last' == pos
    ensures net' != [] ==> SameLandings(last, net, last' + |net'[0]|, net'[1..], pos + 1)
  {
  }

  lemma LandingsChain(a: nat, na: seq<string>, b: nat, nb: seq<string>, c: nat, nc: seq<string>, pos: nat)
    requires exists from: nat :: from <= pos && SameLandings(a, na, b, nb, from)
    requires SameLandings(b, nb, c, nc, pos)
    ensures SameLandings(a, na, c, nc, pos)
  {
    hide Lands;
  }

  /** A body that would end before the bytes already here never does. */
  lemma BodyLands(last: nat, net: seq<string>, pos: nat, length: int)
    requires pos <= last
    ensures length < 0 ==> !Lands(last, net, pos + length)
  {
    if Lands(last, net, pos + length) {
      LandsWithin(last, net, pos + length);
    }
  }

  /** Some receive ends at offset `n`. */
  ghost predicate Lands(last: nat, net: seq<string>, n: int)
    decreases |net|
  {
    last == n || (net != [] && Lands(last + |net[0]|, net[1..], n))
  }

  /** The last receive always ends at the end of the input, so an exact body is always completed. */
  lemma {:induction false} LandsAtEnd(last: nat, net: seq<string>)
    ensures Lands(last, net, last + |Flat(net)|)
    decreases |net|
  {
    if net != [] {
      LandsAtEnd(last + |net[0]|, net[1..]);
    }
  }

  /** A body that the peer never finishes sending is never completed. */
  lemma {:induction false} LandsWithin(last: nat, net: seq<string>, n: int)
    requires Lands(last, net, n)
    ensures last <= n <= last + |Flat(net)|
    decreases |net|
  {
    if last != n {
      LandsWithin(last + |net[0]|, net[1..], n);
    }
  }

  /**
   * With surplus bytes after the announced body the answer does depend on the
   * receives: the same bytes can be cut so that the body is completed, and so
   * that it never is.
   */
  lemma SurplusDependsOnCuts(last: nat, rest: string, n: int)
    requires last < n < last + |rest|
    ensures var k := n - last;
            && Flat([rest]) == Flat([rest[..k], rest[k..]])
            && !Lands(last, [rest], n) && Lands(last, [rest[..k], rest[k..]], n)
  {
    var k := n - last;
    var a, b := rest[..k], rest[k..];
    assert Flat([b]) == b + Flat([]) == b;
    assert [a, b][1..] == [b];
    assert Flat([a, b]) == a + b == rest;
    assert Flat([rest]) == rest + Flat([]) == rest;
    assert !Lands(last + |rest|, [], n);
  }

  /** A way the network may cut some bytes into receives. */
  ghost predicate Cuts(net: seq<string>, bytes: string) {
    Flat(net) == bytes && forall i :: 0 <= i < |net| ==> net[i] != ""
  }

  /** The body step, once `last` bytes are here, comes out the same under any two cuttings of the rest. */
  ghost predicate BodyAgrees(last: nat, rest: string, n: int) {
    forall net, net' :: Cuts(net, rest) && Cuts(net', rest) ==> (Lands(last, net, n) <==> Lands(last, net', n))
  }

  /** Exactly when the body does not end strictly inside the rest. */
  lemma BodyIndependent(last: nat, rest: string, n: int)
    ensures BodyAgrees(last, rest, n) <==> n <= last || n >= last + |rest|
  {
    if n <= last || n >= last + |rest| {
      forall net | Cuts(net, rest) ensures Lands(last, net, n) <==> n == last || n == last + |rest| {
        LandsAtEnd(last, net);
        if Lands(last, net, n) {
          LandsWithin(last, net, n);
        }
      }
    } else {
      var k := n - last;
      SurplusDependsOnCuts(last, rest, n);
      OneAndTwo(rest, k);
      assert Cuts([rest], rest) && Cuts([rest[..k], rest[k..]], rest);
    }
  }

  lemma OneAndTwo(rest: string, k: nat)
    requires 0 < k < |rest|
    ensures Cuts([rest], rest) && Cuts([rest[..k], rest[k..]], rest)
  {
    var one, two := [rest], [rest[..k], rest[k..]];
    assert one[1..] == [] && two[1..] == [rest[k..]] && two[1..][1..] == [];
    assert Flat(one) == rest + Flat([]);
    assert Flat(two) == rest[..k] + (rest[k..] + Flat([]));
  }

  // ---------------------------------------------------------------- the whole request

  datatype Answer =
    | BadRequest(text: string)
    | Old(r: Line, text: string)
    | Modern(r: Line, h: Header, meta: Meta, pos: nat, text: string)

  /** What the request handler makes of all the bytes before the body. */
  ghost function ReadRequest(total: string, handlers: Handlers, r: Line, h: Header, meta: Meta): (a: Answer)
    ensures |a.text| == |total| && (a.Modern? ==> 0 < a.pos <= |total|)
  {
    match Run(total, Start, r, 0)
    case Ended(code, r', p) =>
      if code != 0 then BadRequest(total)
      else if r'.proto.version < 1000 then Old(r', total)
      else
        (match AllHeaders(total, handlers, HStart, h, meta, p)
         case HeadersOk(h', meta', q, text) => Modern(r', h', meta', q, text)
         case HeadersBad(_, text) => BadRequest(text))
    case _ => BadRequest(total)
  }

  ghost function StatusOf(a: Answer, net: seq<string>): int {
    match a
    case BadRequest(_) => 400
    case Old(_, _) => 200
    case Modern(_, _, meta, pos, _) => if meta.length >= 0 && Lands(0, net, pos + meta.length) then 200 else 507
  }

  /** The status is the same under any two cuttings of the request. */
  ghost predicate StatusAgrees(a: Answer, total: string) {
    forall net, net' :: Cuts(net, total) && Cuts(net', total) ==> StatusOf(a, net) == StatusOf(a, net')
  }

  /** Exactly when no byte follows the announced body. */
  lemma StatusIndependent(total: string, handlers: Handlers, r: Line, h: Header, meta: Meta)
    ensures var a := ReadRequest(total, handlers, r, h, meta);
            StatusAgrees(a, total) <==> (a.Modern? && a.meta.length >= 0 ==> |total| - a.pos <= a.meta.length)
  {
    hide ReadRequest;
    var a := ReadRequest(total, handlers, r, h, meta);
    if a.Modern? && a.meta.length >= 0 {
      var n := a.pos + a.meta.length;
      BodyIndependent(0, total, n);
      hide Lands, Cuts;
      if StatusAgrees(a, total) {
        forall net, net' | Cuts(net, total) && Cuts(net', total) ensures Lands(0, net, n) <==> Lands(0, net', n) {
          assert StatusOf(a, net) == StatusOf(a, net');
        }
        assert BodyAgrees(0, total, n);
      }
    }
  }

  /** With exactly the announced body the status is 200 under every cutting, with less it is 507. */
  lemma StatusOfExact(a: Answer, total: string, net: seq<string>)
    requires a.Modern? && a.meta.length >= 0 && Cuts(net, total)
    ensures |total| - a.pos == a.meta.length ==> StatusOf(a, net) == 200
    ensures |total| - a.pos < a.meta.length ==> StatusOf(a, net) == 507
  {
    LandsAtEnd(0, net);
    if Lands(0, net, a.pos + a.meta.length) {
      LandsWithin(0, net, a.pos + a.meta.length);
    }
  }
}
