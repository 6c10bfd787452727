/** Sequences and counting, used throughout. */
module Seqs {
  datatype Option<T> = None | Some(value: T)

  function Spliced<T>(q: seq<T>, i: nat, x: T): (r: seq<T>)
    requires i <= |q|
    ensures |r| == |q| + 1 && r[i] == x
    ensures forall k :: 0 <= k < |r| && k != i ==> r[k] == q[if k < i then k else k - 1]
  {
    q[..i] + [x] + q[i..]
  }

  function Dropped<T>(q: seq<T>, i: nat): (r: seq<T>)
    requires i < |q|
    ensures |r| == |q| - 1
    ensures forall k :: 0 <= k < |r| ==> r[k] == q[if k < i then k else k + 1]
  {
    q[..i] + q[i + 1..]
  }

  predicate Distinct(q: seq<nat>) {
    forall i, j :: 0 <= i < j < |q| ==> q[i] != q[j]
  }

  function Elements(q: seq<nat>): set<nat> {
    set c | c in q
  }

  lemma {:induction false} DistinctSize(q: seq<nat>)
    requires Distinct(q)
    ensures |Elements(q)| == |q|
  {
    if q != [] {
      DistinctSize(q[1..]);
      assert Elements(q) == Elements(q[1..]) + {q[0]};
    }
  }

  lemma DistinctConcat(p: seq<nat>, q: seq<nat>)
    requires Distinct(p) && Distinct(q) && forall c :: c in p ==> c !in q
    ensures Distinct(p + q)
  {
    forall i, j | 0 <= i < j < |p + q| ensures (p + q)[i] != (p + q)[j] {
      if i < |p| <= j {
        assert p[i] in p && q[j - |p|] in q;
      }
    }
  }

  lemma {:induction false} RangeSize(lo: nat, n: nat, ids: set<nat>)
    requires forall c :: c in ids <==> lo <= c < lo + n
    ensures |ids| == n
  {
    if n == 0 {
      assert ids == {};
    } else {
      RangeSize(lo, n - 1, ids - {lo + n - 1});
    }
  }

  function Upto(n: nat): (r: set<nat>)
    ensures forall i: nat :: i in r <==> i < n
  {
    if n == 0 then {} else Upto(n - 1) + {n - 1}
  }

  lemma Pigeonhole(q: seq<nat>, bound: nat)
    requires Distinct(q) && forall c :: c in q ==> c < bound
    ensures |q| <= bound
  {
    DistinctSize(q);
    RangeSize(0, bound, Upto(bound));
    assert Elements(q) <= Upto(bound);
    assert Upto(bound) == Elements(q) + (Upto(bound) - Elements(q));
  }
}
