/**
 * Header handlers, src/http/request.c: the entries of a handler list are put
 * into the hash table under the hash of their lower-cased name and looked up by
 * the hash that the header parser gathers. An entry is known by its address;
 * `handler` is the function it names, zero for none.
 */
module HttpDispatch {
  import opened HttpHeader
  import RoundTrip = HttpHeaderRoundTrip
  import opened Seqs
  import opened HashTable

  datatype Entry = Entry(at: nat, name: string, handler: nat)

  /** What add_client_header_handler leaves in the table; an empty name ends the list. */
  function Registry(m: map<nat, nat>, hs: seq<Entry>): map<nat, nat>
    decreases |hs|
  {
    if hs == [] || hs[0].name == "" then m
    else Registry(Entered(m, hs[0]), hs[1..])
  }

  function Entered(m: map<nat, nat>, e: Entry): map<nat, nat> {
    if e.handler == 0 then m else m[HashLc(e.name) := e.at]
  }

  /** Two handlers fall on one hash. */
  predicate Clash(m: map<nat, nat>, hs: seq<Entry>)
    decreases |hs|
  {
    hs != [] && hs[0].name != "" &&
    ((hs[0].handler != 0 && HashLc(hs[0].name) in m) || Clash(Entered(m, hs[0]), hs[1..]))
  }

  /** Or memory runs out; `memory` answers for each entry. */
  predicate Fails(m: map<nat, nat>, hs: seq<Entry>, memory: seq<bool>)
    requires |memory| == |hs|
    decreases |hs|
  {
    hs != [] && hs[0].name != "" &&
    ((hs[0].handler != 0 && (!memory[0] || HashLc(hs[0].name) in m)) || Fails(Entered(m, hs[0]), hs[1..], memory[1..]))
  }

  /** With memory to spare, exactly a clash is a failure. */
  lemma {:induction false} FailsIsClash(m: map<nat, nat>, hs: seq<Entry>, memory: seq<bool>)
    requires |memory| == |hs| && forall i :: 0 <= i < |memory| ==> memory[i]
    ensures Fails(m, hs, memory) <==> Clash(m, hs)
    decreases |hs|
  {
    if hs != [] {
      FailsIsClash(Entered(m, hs[0]), hs[1..], memory[1..]);
    }
  }

  /** add_client_header_handler; a failure ends the process. */
  method AddHandlers(table: Table, hs: seq<Entry>, memory: seq<bool>) returns (ok: bool)
    requires table.Valid() && |memory| == |hs|
    modifies table, table.Nodes()
    ensures table.Valid() && fresh(table.Nodes() - old(table.Nodes()))
    ensures ok <==> !Fails(old(table.contents), hs, memory)
    ensures ok ==> table.contents == Registry(old(table.contents), hs)
  {
    var i := 0;
    while i < |hs| && hs[i].name != ""
      invariant 0 <= i <= |hs| && table.Valid() && fresh(table.Nodes() - old(table.Nodes()))
      invariant Fails(old(table.contents), hs, memory) <==> Fails(table.contents, hs[i..], memory[i..])
      invariant Registry(old(table.contents), hs) == Registry(table.contents, hs[i..])
    {
      assert hs[i..][1..] == hs[i + 1..] && memory[i..][1..] == memory[i + 1..];
      if hs[i].handler != 0 {
        var key := HashKeyLc(hs[i].name);
        var r := table.Add(key, hs[i].at, memory[i]);
        if r != 0 {
          return false;
        }
      }
      i := i + 1;
    }
    ok := true;
  }

  /** handle_http_request_header, up to the call of the handler. */
  method FindHandler(table: Table, h: Header) returns (entry: Option<nat>)
    requires table.Valid() && h.hash >= 0
    ensures entry == if !h.invalid && h.hash in table.contents then Some(table.contents[h.hash]) else None
  {
    if h.invalid {
      return None;
    }
    entry := table.Find(h.hash);
  }

  lemma {:induction false} RegistryKeeps(m: map<nat, nat>, hs: seq<Entry>, k: nat)
    requires !Clash(m, hs) && k in m
    ensures k in Registry(m, hs) && Registry(m, hs)[k] == m[k]
    decreases |hs|
  {
    if hs != [] && hs[0].name != "" {
      RegistryKeeps(Entered(m, hs[0]), hs[1..], k);
    }
  }

  /** Entry i comes before the end of the list and names a function. */
  predicate Listed(hs: seq<Entry>, i: nat) {
    i < |hs| && hs[i].handler != 0 && forall k :: 0 <= k <= i ==> hs[k].name != ""
  }

  lemma {:induction false} RegistryHas(m: map<nat, nat>, hs: seq<Entry>, i: nat)
    requires !Clash(m, hs) && Listed(hs, i)
    ensures HashLc(hs[i].name) in Registry(m, hs) && Registry(m, hs)[HashLc(hs[i].name)] == hs[i].at
    decreases |hs|
  {
    if i == 0 {
      RegistryKeeps(Entered(m, hs[0]), hs[1..], HashLc(hs[0].name));
    } else {
      RegistryHas(Entered(m, hs[0]), hs[1..], i - 1);
    }
  }

  /** Nothing else is in the table: each key is the hash of an entry in the list, and holds that entry. */
  lemma {:induction false} RegistryOnly(m: map<nat, nat>, hs: seq<Entry>, k: nat) returns (i: nat)
    requires !Clash(m, hs) && k in Registry(m, hs) && k !in m
    ensures Listed(hs, i) && HashLc(hs[i].name) == k && Registry(m, hs)[k] == hs[i].at
    decreases |hs|
  {
    var n := Entered(m, hs[0]);
    if k in n {
      i := 0;
      RegistryKeeps(n, hs[1..], k);
    } else {
      var j := RegistryOnly(n, hs[1..], k);
      i := j + 1;
      assert forall l :: 0 < l <= i ==> hs[l] == hs[1..][l - 1];
    }
  }

  /** The entries of the list have different addresses. */
  predicate Apart(hs: seq<Entry>) {
    forall i, j :: 0 <= i < j < |hs| ==> hs[i].at != hs[j].at
  }

  /** A hash finds an entry exactly when it is the hash of that entry's name. */
  lemma FoundExactly(hs: seq<Entry>, i: nat, k: nat)
    requires !Clash(map[], hs) && Listed(hs, i) && Apart(hs)
    ensures (k in Registry(map[], hs) && Registry(map[], hs)[k] == hs[i].at) <==> k == HashLc(hs[i].name)
  {
    if k == HashLc(hs[i].name) {
      RegistryHas(map[], hs, i);
    } else if k in Registry(map[], hs) {
      var j := RegistryOnly(map[], hs, k);
    }
  }

  lemma {:induction false} AllSeen(fs: seq<RoundTrip.Field>, j: nat)
    requires (forall f :: f in fs ==> RoundTrip.Printable(f)) && j < |fs|
    ensures forall f :: f in fs ==> RoundTrip.FieldLine(f)
    ensures |RoundTrip.Hashed(fs)| == |fs| && RoundTrip.Hashed(fs)[j] == RoundTrip.Seen(fs[j].name, fs[j].value, HashLc(fs[j].name))
  {
    hide HashLc;
    assert RoundTrip.Printable(fs[0]) && fs[0] in fs;
    forall f | f in fs ensures RoundTrip.FieldLine(f) {
      RoundTrip.PrintableLine(f);
    }
    if |fs| > 1 {
      AllSeen(fs[1..], if j == 0 then 0 else j - 1);
    }
  }

  /**
   * A printed header reaches an entry exactly when the hashes of the two names
   * are equal, which holds for every casing of the entry's name.
   */
  lemma HeaderReaches(hs: seq<Entry>, i: nat, pre: string, fs: seq<RoundTrip.Field>, post: string, h: Header, j: nat)
    requires !Clash(map[], hs) && Listed(hs, i) && Apart(hs)
    requires (forall f :: f in fs ==> RoundTrip.Printable(f)) && j < |fs|
    ensures var read := RoundTrip.ReadAll(pre + RoundTrip.PrintAll(fs) + post, h, |pre|);
            && read.Got? && |read.fields| == |fs| && read.fields[j].name == fs[j].name && read.fields[j].value == fs[j].value
            && ((read.fields[j].hash in Registry(map[], hs) && Registry(map[], hs)[read.fields[j].hash] == hs[i].at)
                <==> HashLc(fs[j].name) == HashLc(hs[i].name))
    ensures LowerAll(fs[j].name) == LowerAll(hs[i].name) ==> HashLc(fs[j].name) == HashLc(hs[i].name)
  {
    AllSeen(fs, j);
    RoundTrip.HeadersRoundTrip(pre, fs, post, h);
    FoundExactly(hs, i, HashLc(fs[j].name));
    if LowerAll(fs[j].name) == LowerAll(hs[i].name) {
      HashIgnoresCase(fs[j].name, hs[i].name);
    }
  }
}
