/** Counters that wrap: the word a machine keeps for an ever-growing count. */
module Wrap {
  /** Unsigned increment of a counter that wraps at m. */
  function Inc(m: nat, word: nat): nat {
    if word + 1 == m then 0 else word + 1
  }

  /** The counter after n increments. */
  function Word(m: nat, n: nat): (w: nat)
    requires m > 0
    ensures w < m
  {
    if n == 0 then 0 else Inc(m, Word(m, n - 1))
  }

  lemma WordNext(m: nat, n: nat)
    requires m > 0
    ensures Inc(m, Word(m, n)) == Word(m, n + 1)
  {
  }

  lemma {:induction false} WordAfter(m: nat, a: nat, d: nat)
    requires d < m
    ensures Word(m, a + d) == if Word(m, a) + d < m then Word(m, a) + d else Word(m, a) + d - m
  {
    if d > 0 {
      WordAfter(m, a, d - 1);
    }
  }

  /** Counters less than m apart are equal exactly when their words are. */
  lemma WordEqual(m: nat, a: nat, b: nat)
    requires m > 0 && a <= b < a + m
    ensures Word(m, a) == Word(m, b) <==> a == b
  {
    WordAfter(m, a, b - a);
  }

  lemma WordPeriod(m: nat, a: nat)
    requires m > 0
    ensures Word(m, a + m) == Word(m, a)
  {
    WordAfter(m, a, m - 1);
    assert Word(m, a + m) == Inc(m, Word(m, a + (m - 1)));
  }

  predicate Multiple(m: nat, d: nat)
    requires m > 0
  {
    d == 0 || (d >= m && Multiple(m, d - m))
  }

  lemma {:induction false} WordsMeet(m: nat, a: nat, d: nat)
    requires m > 0
    ensures Word(m, a) == Word(m, a + d) <==> Multiple(m, d)
    decreases d
  {
    if d < m {
      WordEqual(m, a, a + d);
    } else {
      WordsMeet(m, a, d - m);
      WordPeriod(m, a + (d - m));
    }
  }
}
