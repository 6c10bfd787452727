/**
 * http_process_host, src/http/request.c: one pass over the value of a Host
 * header that checks it, lower-cases it in place and finds where the host ends.
 */
module HttpHost {
  import opened HttpHeader

  datatype Mode = Usual | Literal | Rest

  /** NUL, a slash, or a dot right after a dot. */
  predicate Bad(v: string, i: nat)
    requires i < |v|
  {
    v[i] == '\0' || v[i] == '/' || (v[i] == '.' && i > 0 && v[i - 1] == '.')
  }

  /** The first place of a character, or the end. */
  function Find(v: string, c: char, from: nat): (r: nat)
    requires from <= |v|
    ensures from <= r <= |v| && (forall k :: from <= k < r ==> v[k] != c) && (r < |v| ==> v[r] == c)
    decreases |v| - from
  {
    if from == |v| || v[from] == c then from else Find(v, c, from + 1)
  }

  /** The host ends at the first colon, or after the first closing bracket of an address in brackets. */
  function HostEnd(v: string): (h: nat)
    ensures h <= |v|
  {
    if v == "" || v[0] != '[' then Find(v, ':', 0)
    else
      var close := Find(v, ']', 0);
      if close < |v| then close + 1 else close
  }

  /** The last dot before n, or |v| when there is none. */
  predicate LastDot(v: string, n: nat, d: nat)
    requires n <= |v|
  {
    if d < n then v[d] == '.' && forall i :: d < i < n ==> v[i] != '.'
    else d == |v| && forall i :: 0 <= i < n ==> v[i] != '.'
  }

  /** A dot that ends the host goes, unless another dot follows it somewhere in the value. */
  function HostLen(v: string): (n: nat)
    ensures n <= HostEnd(v)
  {
    var g := HostEnd(v);
    if g > 0 && v[g - 1] == '.' && forall i :: g <= i < |v| ==> v[i] != '.' then g - 1 else g
  }

  /** The first bad character, or the end. */
  function FirstBad(v: string, from: nat): (k: nat)
    requires from <= |v|
    ensures from <= k <= |v| && (forall i :: from <= i < k ==> !Bad(v, i)) && (k < |v| ==> Bad(v, k))
    decreases |v| - from
  {
    if from == |v| || Bad(v, from) then from else FirstBad(v, from + 1)
  }

  /** It decides the error; without one only an empty host is refused. */
  function HostCode(v: string): int {
    var k := FirstBad(v, 0);
    if k < |v| then (if v[k] == '/' then -2 else -1) else if HostLen(v) == 0 then -3 else 0
  }

  /** What is left of the bytes: lower-cased up to the first bad character. */
  function HostText(v: string): (w: string)
    ensures |w| == |v|
  {
    LowerAll(v[..FirstBad(v, 0)]) + v[FirstBad(v, 0)..]
  }

  /**
   * A value is accepted exactly if it has no NUL, no slash and no two dots in a row,
   * and does not start where its host ends: it is not empty, has no colon first, and
   * no dot first that ends the host and is the only one.
   */
  lemma CodeExact(v: string)
    ensures HostCode(v) == 0 <==>
              && '\0' !in v && '/' !in v && (forall i :: 0 < i < |v| ==> v[i - 1] != '.' || v[i] != '.')
              && v != "" && v[0] != ':' && !(v[0] == '.' && (|v| == 1 || v[1] == ':') && forall i :: 0 < i < |v| ==> v[i] != '.')
  {
    var k := FirstBad(v, 0);
    if k == |v| {
      forall i | 0 <= i < |v| ensures v[i] != '\0' && v[i] != '/' && (i > 0 ==> v[i - 1] != '.' || v[i] != '.') {
        assert !Bad(v, i);
      }
      LenExact(v);
    } else {
      assert Bad(v, k);
    }
  }

  lemma LenExact(v: string)
    ensures HostLen(v) == 0 <==>
              || v == "" || v[0] == ':'
              || (v[0] == '.' && (|v| == 1 || v[1] == ':') && forall i :: 0 < i < |v| ==> v[i] != '.')
  {
    var g := HostEnd(v);
    if v != "" && v[0] != '[' {
      assert g == Find(v, ':', 0);
    }
  }

  lemma LenByLastDot(v: string, d: nat)
    requires LastDot(v, |v|, d)
    ensures HostLen(v) == if d == HostEnd(v) - 1 then HostEnd(v) - 1 else HostEnd(v)
  {
    hide HostEnd;
  }

  lemma Lowered(v: string, w: string, k: nat)
    requires |w| == |v| && k == FirstBad(v, 0)
    requires (forall i :: 0 <= i < k ==> w[i] == ToLower(v[i])) && (forall i :: k <= i < |v| ==> w[i] == v[i])
    ensures w == HostText(v)
  {
  }

  lemma BadHere(v: string, i: nat)
    requires i < |v| && Bad(v, i) && forall j :: 0 <= j < i ==> !Bad(v, j)
    ensures FirstBad(v, 0) == i
  {
  }

  /** The code, the bytes left in place and, on success, the length of the host. */
  method ProcessHost(value: array<char>) returns (code: int, host: nat)
    modifies value
    ensures code == HostCode(old(value[..])) && value[..] == HostText(old(value[..]))
    ensures code == 0 ==> host == HostLen(old(value[..]))
  {
    hide Find, FirstBad, LowerAll, HostText, HostLen;
    ghost var v := value[..];
    var n := value.Length;
    var mode: Mode, dotPos: nat, hostLen: nat := Usual, n, n;
    for i := 0 to n
      invariant forall k :: 0 <= k < i ==> value[k] == ToLower(v[k])
      invariant forall k :: i <= k < n ==> value[k] == v[k]
      invariant (forall j :: 0 <= j < i ==> !Bad(v, j)) && LastDot(v, i, dotPos)
      invariant mode == Usual ==> hostLen == n && (i > 0 ==> v[0] != '[') && Find(v, ':', 0) >= i
      invariant mode == Literal ==> hostLen == n && i > 0 && v[0] == '[' && Find(v, ']', 0) >= i
      invariant mode == Rest ==> i > 0 && hostLen == HostEnd(v)
    {
      var ch := value[i];
      if Bad(v, i) {
        BadHere(v, i);
        Lowered(v, value[..], i);
      }
      if ch == '.' {
        if dotPos == i - 1 {
          return -1, 0;
        }
        dotPos := i;
      } else if ch == ':' {
        if mode == Usual {
          hostLen, mode := i, Rest;
        }
      } else if ch == '[' {
        if i == 0 {
          mode := Literal;
        }
      } else if ch == ']' {
        if mode == Literal {
          hostLen, mode := i + 1, Rest;
        }
      } else if ch == '\0' {
        return -1, 0;
      } else {
        if ch == '/' {
          return -2, 0;
        }
        if 'A' <= ch <= 'Z' {
          value[i] := ToLower(ch);
        }
      }
    }
    assert FirstBad(v, 0) == n;
    Lowered(v, value[..], n);
    LenByLastDot(v, dotPos);
    if dotPos == hostLen - 1 {
      hostLen := hostLen - 1;
    }
    if hostLen == 0 {
      return -3, 0;
    }
    code, host := 0, hostLen;
  }

  // ---------------------------------------------------------------- printed hosts

  /** Outside brackets the recorded host has no colon. */
  lemma NoColon(v: string)
    requires v == "" || v[0] != '['
    ensures forall i :: 0 <= i < HostLen(v) ==> v[i] != ':'
  {
  }

  /** A port, or nothing. */
  predicate PortPart(rest: string) {
    rest == "" || (rest[0] == ':' && '.' !in rest)
  }

  /** A host with its port is recorded without it, and without one final dot. */
  lemma HostOf(host: string, rest: string)
    requires host != "" && host[0] != '[' && ':' !in host && PortPart(rest)
    ensures HostLen(host + rest) == if host[|host| - 1] == '.' then |host| - 1 else |host|
  {
    var v := host + rest;
    forall k | 0 <= k < |host| ensures v[k] != ':' {
      assert v[k] == host[k] && host[k] in host;
    }
    FindHere(v, ':', |host|);
    assert v[|host| - 1] == host[|host| - 1] && v[0] == host[0];
    forall i | |host| <= i < |v| ensures v[i] != '.' {
      assert v[i] == rest[i - |host|] && rest[i - |host|] in rest;
    }
  }

  /** An address in brackets is recorded with them. */
  lemma LiteralOf(addr: string, rest: string)
    requires ']' !in addr && PortPart(rest)
    ensures HostLen("[" + addr + "]" + rest) == |addr| + 2
  {
    var v := "[" + addr + "]" + rest;
    forall k | 0 <= k <= |addr| ensures v[k] != ']' {
      assert k > 0 ==> v[k] == addr[k - 1] && addr[k - 1] in addr;
    }
    FindHere(v, ']', |addr| + 1);
    assert v[|addr| + 1] == ']';
  }

  lemma FindHere(v: string, c: char, i: nat)
    requires i <= |v| && (forall k :: 0 <= k < i ==> v[k] != c) && (i < |v| ==> v[i] == c)
    ensures Find(v, c, 0) == i
  {
  }
}
