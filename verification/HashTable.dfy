/**
 * The hash table of src/util/hashtable.c: an array of circular lists, each
 * kept in ascending key order. It agrees with a finite map.
 */
module HashTable {
  import opened Seqs
  import opened List

  predicate Ascending(q: seq<Node>) {
    forall i, j :: 1 <= i < j < |q| ==> q[i].key < q[j].key
  }

  predicate Residue(q: seq<Node>, b: nat, size: nat)
    requires size > 0
  {
    forall i :: 1 <= i < |q| ==> q[i].key % size == b
  }

  /** The keys of a bucket, and the map's keys of that residue, are the same. */
  ghost predicate Agrees(q: seq<Node>, b: nat, size: nat, m: map<nat, nat>)
    requires size > 0
  {
    && (forall i :: 1 <= i < |q| ==> q[i].key in m && m[q[i].key] == q[i].item)
    && (forall k :: k in m && k % size == b ==> HasKey(q, k))
  }

  ghost predicate HasKey(q: seq<Node>, k: nat) {
    exists i :: 1 <= i < |q| && q[i].key == k
  }

  /** Where the walk of a bucket ends: the first key not below k, or round at the head. */
  ghost predicate Stop(q: seq<Node>, i: nat, k: nat) {
    && i < |q|
    && (i == 0 ==> forall j :: 1 <= j < |q| ==> q[j].key < k)
    && (i > 0 ==> q[i].key >= k && forall j :: 1 <= j < i ==> q[j].key < k)
  }

  /** The loop shared by hash_table_find and hash_table_add. */
  method Walk(bucket: Node, key: nat, ghost q: seq<Node>) returns (loop: Node, ghost i: nat)
    requires Ring(q) && q[0] == bucket && Ascending(q)
    ensures Stop(q, i, key) && loop == q[i] && (loop == bucket || loop.key >= key)
  {
    assert Linked(q, 0);
    loop := bucket.next;
    i := Round(0, |q|);
    while loop != bucket && loop.key < key
      invariant i < |q| && loop == q[i]
      invariant i > 0 ==> forall j :: 1 <= j < i ==> q[j].key < key
      invariant i == 0 ==> forall j :: 1 <= j < |q| ==> q[j].key < key
      decreases if i == 0 then 0 else |q| - i
    {
      assert Linked(q, i);
      loop := loop.next;
      i := Round(i, |q|);
    }
  }

  /** The walk of hash_table_remove, which looks at every node. */
  method Search(bucket: Node, key: nat, ghost q: seq<Node>) returns (found: bool, loop: Node, ghost i: nat)
    requires Ring(q) && q[0] == bucket
    ensures found <==> HasKey(q, key)
    ensures found ==> 1 <= i < |q| && loop == q[i] && loop.key == key
  {
    assert Linked(q, 0);
    loop := bucket.next;
    i := Round(0, |q|);
    while loop != bucket
      invariant i < |q| && loop == q[i]
      invariant i > 0 ==> forall j :: 1 <= j < i ==> q[j].key != key
      invariant i == 0 ==> forall j :: 1 <= j < |q| ==> q[j].key != key
      decreases if i == 0 then 0 else |q| - i
    {
      if loop.key == key {
        return true, loop, i;
      }
      assert Linked(q, i);
      loop := loop.next;
      i := Round(i, |q|);
    }
    found := false;
  }

  // ---- one bucket ----

  /** The early exit is sound: past a larger key there is no equal one. */
  lemma StopFinds(q: seq<Node>, i: nat, k: nat)
    requires Ascending(q) && Stop(q, i, k)
    ensures HasKey(q, k) <==> i > 0 && q[i].key == k
  {
  }

  function Place(q: seq<Node>, i: nat): nat {
    if i == 0 then |q| else i
  }

  lemma SpliceBucket(q: seq<Node>, i: nat, x: Node, b: nat, size: nat, m: map<nat, nat>)
    requires size > 0 && q != [] && Ascending(q) && Residue(q, b, size) && Agrees(q, b, size, m)
    requires Stop(q, i, x.key) && x.key !in m && x.key % size == b
    ensures var r := Spliced(q, Place(q, i), x);
            Ascending(r) && Residue(r, b, size) && Agrees(r, b, size, m[x.key := x.item])
  {
    hide Spliced;
    var p := Place(q, i);
    var r, n := Spliced(q, p, x), m[x.key := x.item];
    assert forall j :: 1 <= j < |q| ==> q[j].key != x.key;
    forall k | k in n && k % size == b ensures HasKey(r, k) {
      if k == x.key {
        assert r[p].key == k;
      } else {
        assert HasKey(q, k);
        var j :| 1 <= j < |q| && q[j].key == k;
        assert r[if j < p then j else j + 1].key == k;
      }
    }
  }

  lemma DropBucket(q: seq<Node>, i: nat, b: nat, size: nat, m: map<nat, nat>)
    requires size > 0 && 1 <= i < |q| && Ascending(q) && Residue(q, b, size) && Agrees(q, b, size, m)
    ensures var r := Dropped(q, i);
            Ascending(r) && Residue(r, b, size) && Agrees(r, b, size, m - {q[i].key})
  {
    hide Dropped;
    var r, n := Dropped(q, i), m - {q[i].key};
    forall k | k in n && k % size == b ensures HasKey(r, k) {
      assert HasKey(q, k);
      var j :| 1 <= j < |q| && q[j].key == k;
      assert r[if j < i then j else j - 1].key == k;
    }
    assert forall j :: 1 <= j < |r| ==> r[j].key != q[i].key;
  }

  lemma OtherBucket(q: seq<Node>, b: nat, size: nat, m: map<nat, nat>, n: map<nat, nat>, key: nat)
    requires size > 0 && Residue(q, b, size) && Agrees(q, b, size, m) && key % size != b
    requires forall k :: k != key ==> (k in n <==> k in m) && (k in m ==> n[k] == m[k])
    ensures Agrees(q, b, size, n)
  {
  }

  // ---- the table ----

  class Table {
    const size: nat
    const buckets: seq<Node>
    ghost var rings: seq<seq<Node>>
    ghost var contents: map<nat, nat>

    ghost function Nodes(): set<Node>
      reads this
    {
      set b, i | 0 <= b < |rings| && 0 <= i < |rings[b]| :: rings[b][i]
    }

    ghost predicate Bucket(b: nat)
      requires b < |rings|
      reads this, rings[b]
    {
      && b < size && b < |buckets|
      && Ring(rings[b]) && rings[b][0] == buckets[b]
      && Ascending(rings[b]) && Residue(rings[b], b, size) && Agrees(rings[b], b, size, contents)
    }

    ghost predicate Apart()
      reads this
    {
      forall b, c, i, j ::
        0 <= b < c < |rings| && 0 <= i < |rings[b]| && 0 <= j < |rings[c]| ==> rings[b][i] != rings[c][j]
    }

    ghost predicate Valid()
      reads this, Nodes()
    {
      && size == |buckets| == |rings| > 0 && Apart()
      && (forall b :: 0 <= b < |rings| ==> Bucket(b))
    }

    /** The heads that hash_table_create makes, each a ring of its own. */
    static method Heads(n: nat) returns (h: seq<Node>)
      ensures |h| == n && fresh(set x | x in h)
      ensures forall b :: 0 <= b < n ==> h[b].next == h[b] && h[b].prev == h[b]
      ensures forall b, c :: 0 <= b < c < n ==> h[b] != h[c]
    {
      h := [];
      while |h| < n
        invariant |h| <= n && fresh(set x | x in h)
        invariant forall b :: 0 <= b < |h| ==> h[b].next == h[b] && h[b].prev == h[b]
        invariant forall b, c :: 0 <= b < c < |h| ==> h[b] != h[c]
      {
        var x := new Node(0, 0);
        h := h + [x];
      }
    }

    constructor (n: nat)
      requires n > 0
      ensures Valid() && fresh(Nodes()) && size == n && contents == map[]
    {
      var heads := Heads(n);
      size, buckets := n, heads;
      rings, contents := seq(n, b requires 0 <= b < n => [heads[b]]), map[];
      new;
      forall b | 0 <= b < n ensures Bucket(b) {
        assert Linked(rings[b], 0);
      }
    }

    /** hash_table_find */
    method Find(key: nat) returns (r: Option<nat>)
      requires Valid()
      ensures r == if key in contents then Some(contents[key]) else None
    {
      ghost var b := key % size;
      assert Bucket(b);
      var loop; ghost var i;
      loop, i := Walk(buckets[key % size], key, rings[b]);
      StopFinds(rings[b], i, key);
      if loop != buckets[key % size] && loop.key == key {
        return Some(loop.item);
      }
      return None;
    }

    /** All buckets but one are rings. */
    ghost predicate OtherRings(b: nat)
      reads this, Nodes()
    {
      forall c :: 0 <= c < |rings| && c != b ==> Ring(rings[c])
    }

    /** And agree with a map. */
    ghost predicate OtherBuckets(b: nat, m: map<nat, nat>)
      reads this
    {
      forall c :: 0 <= c < |rings| && c != b ==>
        c < size && c < |buckets| && rings[c] != [] && rings[c][0] == buckets[c]
        && Ascending(rings[c]) && Residue(rings[c], c, size) && Agrees(rings[c], c, size, m)
    }

    lemma OthersKept(b: nat, m: map<nat, nat>, key: nat)
      requires Valid() && b == key % size
      requires forall k :: k != key ==> (k in m <==> k in contents) && (k in contents ==> m[k] == contents[k])
      ensures OtherBuckets(b, m)
    {
      hide Ascending, Residue, Agrees, Apart, Ring;
      forall c | 0 <= c < |rings| && c != b
        ensures c < size && c < |buckets| && rings[c] != [] && rings[c][0] == buckets[c]
                && Ascending(rings[c]) && Residue(rings[c], c, size) && Agrees(rings[c], c, size, m)
      {
        assert Bucket(c);
        NotEmpty(rings[c]);
        OtherBucket(rings[c], c, size, contents, m, key);
      }
    }

    static lemma NotEmpty(q: seq<Node>)
      requires Ring(q)
      ensures q != []
    {
    }

    ghost method Install(b: nat, r: seq<Node>, m: map<nat, nat>)
      requires size == |buckets| == |rings| > b && Apart() && OtherRings(b) && OtherBuckets(b, m)
      requires Ring(r) && r[0] == buckets[b] && Ascending(r) && Residue(r, b, size) && Agrees(r, b, size, m)
      requires forall c, i, j :: 0 <= c < |rings| && c != b && 0 <= j < |rings[c]| && 0 <= i < |r| ==> rings[c][j] != r[i]
      modifies `rings, `contents
      ensures Valid() && rings == old(rings)[b := r] && contents == m
    {
      hide Ascending, Residue, Agrees, Ring;
      NotEmpty(r);
      assert forall c :: 0 <= c < |rings| && c != b ==> Ring(rings[c]);
      rings, contents := rings[b := r], m;
      forall c | 0 <= c < |rings| ensures Bucket(c) {
        assert Ring(rings[c]);
      }
      assert Apart();
    }

    method Link(elem: Node, loop: Node, ghost b: nat, ghost i: nat)
      requires b < |rings| && Apart() && OtherRings(b) && Ring(rings[b])
      requires elem !in Nodes() && i < |rings[b]| && loop == rings[b][i]
      modifies rings[b], elem
      ensures OtherRings(b) && Ring(Spliced(rings[b], Place(rings[b], i), elem))
    {
      hide Ring, Spliced;
      AddTail(elem, loop, rings[b], i);
    }

    method Unlink(loop: Node, ghost b: nat, ghost i: nat)
      requires b < |rings| && Apart() && OtherRings(b) && Ring(rings[b])
      requires 1 <= i < |rings[b]| && loop == rings[b][i]
      modifies rings[b]
      ensures OtherRings(b) && Ring(Dropped(rings[b], i))
    {
      hide Ring, Dropped;
      DelInit(loop, rings[b], i);
    }

    /** What Valid says of one bucket and of the rest. */
    lemma Open(b: nat)
      requires Valid() && b < size
      ensures OtherRings(b) && Bucket(b) && Apart()
    {
      forall c | 0 <= c < |rings| ensures Ring(rings[c]) {
        assert Bucket(c);
      }
    }

    method InsertAt(elem: Node, loop: Node, ghost b: nat, ghost i: nat)
      requires Valid() && elem !in Nodes() && elem.key !in contents && b == elem.key % size
      requires Stop(rings[b], i, elem.key) && loop == rings[b][i]
      modifies this, rings[b], elem
      ensures Valid() && contents == old(contents)[elem.key := elem.item]
      ensures rings == old(rings)[b := Spliced(old(rings)[b], Place(old(rings)[b], i), elem)]
    {
      Open(b);
      ghost var q, m := rings[b], contents[elem.key := elem.item];
      hide Ring, Spliced, Ascending, Residue, Agrees, Valid;
      OthersKept(b, m, elem.key);
      SpliceBucket(q, i, elem, b, size, contents);
      ghost var p := Spliced(q, Place(q, i), elem);
      assert forall c, j :: 0 <= c < |rings| && 0 <= j < |rings[c]| ==> rings[c][j] != elem;
      Link(elem, loop, b, i);
      Install(b, p, m);
    }

    method RemoveAt(loop: Node, ghost b: nat, ghost i: nat)
      requires Valid() && b < size && 1 <= i < |rings[b]| && loop == rings[b][i]
      modifies this, rings[b]
      ensures Valid() && contents == old(contents) - {loop.key} && rings == old(rings)[b := Dropped(old(rings)[b], i)]
    {
      Open(b);
      ghost var q, m := rings[b], contents - {loop.key};
      assert loop.key % size == b;
      hide Ring, Dropped, Ascending, Residue, Agrees, Valid;
      OthersKept(b, m, loop.key);
      DropBucket(q, i, b, size, contents);
      ghost var p := Dropped(q, i);
      Unlink(loop, b, i);
      Install(b, p, m);
    }

    /** hash_table_add; `memory` says whether malloc succeeds. */
    method Add(key: nat, item: nat, memory: bool) returns (r: int)
      requires Valid()
      modifies this, Nodes()
      ensures Valid() && fresh(Nodes() - old(Nodes()))
      ensures r == if !memory then -1 else if key in old(contents) then -2 else 0
      ensures contents == if r == 0 then old(contents)[key := item] else old(contents)
    {
      if !memory {
        return -1;
      }
      ghost var b := key % size;
      assert Bucket(b);
      var bucket := buckets[key % size];
      var loop; ghost var i;
      loop, i := Walk(bucket, key, rings[b]);
      StopFinds(rings[b], i, key);
      if loop != bucket && loop.key == key {
        return -2;
      }
      hide Ring, Spliced, Ascending, Residue, Agrees, Apart, Bucket;
      var elem := new Node(key, item);
      InsertAt(elem, loop, b, i);
      r := 0;
    }

    /** hash_table_remove */
    method Remove(key: nat) returns (r: Option<nat>)
      requires Valid()
      modifies this, Nodes()
      ensures Valid() && Nodes() <= old(Nodes())
      ensures r == if key in old(contents) then Some(old(contents)[key]) else None
      ensures contents == old(contents) - {key}
    {
      ghost var b := key % size;
      assert Bucket(b);
      var found, loop; ghost var i;
      found, loop, i := Search(buckets[key % size], key, rings[b]);
      if !found {
        return None;
      }
      r := Some(loop.item);
      hide Ring, Dropped, Ascending, Residue, Agrees, Apart, Bucket;
      RemoveAt(loop, b, i);
    }
  }

  // ---- creation ----

  /** Bitwise and. */
  function BitAnd(x: nat, y: nat): nat {
    if x == 0 || y == 0 then 0 else (x % 2) * (y % 2) + 2 * BitAnd(x / 2, y / 2)
  }

  predicate IsPower(n: nat) {
    n == 1 || (n > 1 && n % 2 == 0 && IsPower(n / 2))
  }

  lemma {:induction false} AndSelf(x: nat)
    ensures BitAnd(x, x) == x
  {
    if x > 0 {
      AndSelf(x / 2);
    }
  }

  /** The test of hash_table_create lets exactly the powers of two through. */
  lemma {:induction false} PowerTest(n: nat)
    requires n > 0
    ensures BitAnd(n, n - 1) == 0 <==> IsPower(n)
  {
    if n > 1 {
      if n % 2 == 0 {
        assert (n - 1) / 2 == n / 2 - 1;
        PowerTest(n / 2);
      } else {
        assert (n - 1) / 2 == n / 2;
        AndSelf(n / 2);
      }
    }
  }

  /** hash_table_create */
  method Create(bucketSize: nat, memory: bool) returns (t: Table?)
    ensures t != null <==> IsPower(bucketSize) && memory
    ensures t != null ==> t.Valid() && fresh(t) && fresh(t.Nodes()) && t.size == bucketSize && t.contents == map[]
  {
    if bucketSize == 0 || BitAnd(bucketSize, bucketSize - 1) != 0 {
      if bucketSize > 0 {
        PowerTest(bucketSize);
      }
      return null;
    }
    PowerTest(bucketSize);
    if !memory {
      return null;
    }
    t := new Table(bucketSize);
  }
}
