/**
 * The circular buffer of src/util/cirbuf.h. CirBuf is the structure with its
 * two operations; Ring is the same buffer between one producer and one
 * consumer whose check, copy and publish steps interleave freely.
 */
module Ring {
  import opened Seqs
  import opened Wrap

  /** The index step of the source: a remainder, but one that wraps at most once. */
  function After(i: nat, count: nat): (r: nat)
    requires i < count
    ensures r == Inc(count, i)
  {
    (i + 1) % count
  }

  class CirBuf<T> {
    const elem: array<T>
    var start: nat
    var end: nat
    ghost var queue: seq<T>

    /** The slot k places after start. */
    ghost function At(k: nat): nat
      reads this
    {
      if start + k < elem.Length then start + k else start + k - elem.Length
    }

    ghost predicate Valid()
      reads this, elem
    {
      && start < elem.Length && |queue| < elem.Length && end == At(|queue|)
      && (forall k :: 0 <= k < |queue| ==> At(k) < elem.Length && elem[At(k)] == queue[k])
    }

    constructor (pages: array<T>)
      requires pages.Length > 0
      ensures Valid() && queue == [] && elem == pages
    {
      elem, start, end, queue := pages, 0, 0, [];
    }

    predicate IsEmpty()
      requires Valid()
      reads this, elem
      ensures IsEmpty() <==> queue == []
    {
      start == end
    }

    predicate IsFull()
      requires Valid()
      reads this, elem
      ensures IsFull() <==> |queue| == elem.Length - 1
    {
      After(end, elem.Length) == start
    }

    method Write(v: T) returns (r: int)
      requires Valid()
      modifies this, elem
      ensures Valid() && r == (if |old(queue)| == elem.Length - 1 then -1 else 0)
      ensures queue == if r == 0 then old(queue) + [v] else old(queue)
    {
      if IsFull() {
        return -1;
      }
      hide After;
      ghost var was := queue;
      assert forall k :: 0 <= k < |was| ==> At(k) != end;
      elem[end] := v;
      assert forall k :: 0 <= k < |was| ==> elem[At(k)] == was[k];
      end := After(end, elem.Length);
      queue := queue + [v];
      r := 0;
    }

    method Read() returns (r: Option<T>)
      requires Valid()
      modifies this
      ensures Valid() && (r.None? <==> old(queue) == [])
      ensures if r.Some? then old(queue) == [r.value] + queue else queue == old(queue)
    {
      if IsEmpty() {
        return None;
      }
      r := Some(elem[start]);
      start := After(start, elem.Length);
      queue := queue[1..];
    }
  }

  // ---- one producer, one consumer ----

  /** A slot under the producer's copy holds no record. */
  datatype Slot = Whole(record: string) | Torn

  datatype Producer = Rests | Checked(record: string) | Copying(record: string) | Copied(record: string)

  datatype Consumer = Sits | Sees | Got(slot: Slot)

  /** `sent` and `got` are history: the records published and the records handed out. */
  datatype Ring = Ring(
    start: nat, end: nat, slots: seq<Slot>, producer: Producer, consumer: Consumer, sent: seq<string>, got: seq<string>)

  datatype Step =
    | CheckFull(record: string) | BeginCopy | EndCopy | PublishEnd
    | CheckEmpty | CopyOut | CopyAgain | PublishStart

  predicate Enabled(s: Ring, a: Step) {
    match a
    case CheckFull(_) => s.producer.Rests?
    case BeginCopy => s.producer.Checked?
    case EndCopy => s.producer.Copying?
    case PublishEnd => s.producer.Copied?
    case CheckEmpty => s.consumer.Sits?
    case CopyOut => s.consumer.Sees?
    case CopyAgain => s.consumer.Got?
    case PublishStart => s.consumer.Got? && s.consumer.slot.Whole?
  }

  function Next(s: Ring, a: Step): Ring
    requires Enabled(s, a) && s.start < |s.slots| && s.end < |s.slots|
  {
    var count := |s.slots|;
    match a
    case CheckFull(record) => if After(s.end, count) == s.start then s else s.(producer := Checked(record))
    case BeginCopy => s.(slots := s.slots[s.end := Torn], producer := Copying(s.producer.record))
    case EndCopy => s.(slots := s.slots[s.end := Whole(s.producer.record)], producer := Copied(s.producer.record))
    case PublishEnd => s.(end := After(s.end, count), sent := s.sent + [s.producer.record], producer := Rests)
    case CheckEmpty => if s.start == s.end then s else s.(consumer := Sees)
    case CopyOut => s.(consumer := Got(s.slots[s.start]))
    case CopyAgain => s.(consumer := Got(s.slots[s.start]))
    case PublishStart => s.(start := After(s.start, count), got := s.got + [s.consumer.slot.record], consumer := Sits)
  }

  ghost predicate Initial(s: Ring, count: nat) {
    |s.slots| == count && s == Ring(0, 0, s.slots, Rests, Sits, [], [])
  }

  ghost predicate Indexed(s: Ring) {
    s.start < |s.slots| && s.end < |s.slots|
  }

  ghost predicate Reaches(s: Ring, count: nat, k: nat)
    decreases k
  {
    if k == 0 then Initial(s, count)
    else exists r, a :: Reaches(r, count, k - 1) && Indexed(r) && Enabled(r, a) && s == Next(r, a)
  }

  /** The published records not handed out yet lie in their slots, in order. */
  ghost predicate Stored(s: Ring) {
    |s.slots| > 0 && forall k :: |s.got| <= k < |s.sent| ==> s.slots[Word(|s.slots|, k)] == Whole(s.sent[k])
  }

  ghost predicate Counters(s: Ring) {
    && |s.slots| > 0 && s.start == Word(|s.slots|, |s.got|) && s.end == Word(|s.slots|, |s.sent|)
    && |s.got| <= |s.sent| < |s.got| + |s.slots|
    && s.got == s.sent[..|s.got|]
  }

  ghost predicate Inv(s: Ring) {
    && Counters(s) && Stored(s)
    && (!s.producer.Rests? ==> |s.sent| + 1 < |s.got| + |s.slots|)
    && (s.producer.Copied? ==> s.slots[s.end] == Whole(s.producer.record))
    && (!s.consumer.Sits? ==> |s.got| < |s.sent|)
    && (s.consumer.Got? ==> s.consumer.slot == Whole(s.sent[|s.got|]))
  }

  /** The full test is exact, and so is the empty test. */
  lemma TestsExact(s: Ring)
    requires Inv(s)
    ensures After(s.end, |s.slots|) == s.start <==> |s.sent| - |s.got| == |s.slots| - 1
    ensures s.start == s.end <==> |s.sent| == |s.got|
  {
    var m := |s.slots|;
    WordEqual(m, |s.got|, |s.sent|);
    WordNext(m, |s.sent|);
    if |s.sent| + 1 == |s.got| + m {
      WordPeriod(m, |s.got|);
    } else {
      WordEqual(m, |s.got|, |s.sent| + 1);
    }
  }

  /** The producer's slot is none of those in use. */
  lemma EndIsFree(s: Ring, k: nat)
    requires Inv(s) && |s.got| <= k < |s.sent|
    ensures Word(|s.slots|, k) != s.end
  {
    WordEqual(|s.slots|, k, |s.sent|);
  }

  lemma CopyKeeps(s: Ring, v: Slot)
    requires Inv(s)
    ensures Stored(s.(slots := s.slots[s.end := v]))
  {
    forall k | |s.got| <= k < |s.sent| ensures Word(|s.slots|, k) != s.end {
      EndIsFree(s, k);
    }
  }

  lemma StepKeeps(s: Ring, a: Step)
    requires Inv(s) && Indexed(s) && Enabled(s, a)
    ensures Inv(Next(s, a)) && |Next(s, a).slots| == |s.slots|
  {
    hide After, Word;
    TestsExact(s);
    CopyKeeps(s, Torn);
    match a
    case EndCopy => CopyKeeps(s, Whole(s.producer.record));
    case PublishEnd => WordNext(|s.slots|, |s.sent|);
    case PublishStart => WordNext(|s.slots|, |s.got|);
    case _ =>
  }

  lemma {:induction false} AlwaysInv(s: Ring, count: nat, k: nat)
    requires count > 0 && Reaches(s, count, k)
    ensures Inv(s) && |s.slots| == count
    decreases k
  {
    if k == 0 {
      assert Inv(s);
    } else {
      hide Inv, Next, Enabled, Indexed;
      var r, a :| Reaches(r, count, k - 1) && Indexed(r) && Enabled(r, a) && s == Next(r, a);
      AlwaysInv(r, count, k - 1);
      StepKeeps(r, a);
    }
  }

  /**
   * A queue of capacity count - 1: records come out once each, unchanged and in
   * the order they went in, and no slot is in both hands at once.
   */
  lemma FirstInFirstOut(s: Ring, count: nat, k: nat)
    requires count > 0 && Reaches(s, count, k)
    ensures s.got <= s.sent && |s.sent| - |s.got| <= count - 1
    ensures s.start < count && s.end < count
    ensures !s.producer.Rests? && !s.consumer.Sits? ==> s.start != s.end
    ensures s.consumer.Got? ==> |s.got| < |s.sent| && s.consumer.slot == Whole(s.sent[|s.got|]) == s.slots[s.start]
  {
    AlwaysInv(s, count, k);
    TestsExact(s);
  }

  /** A write is taken exactly when the ring is not full, and then publishes its record. */
  lemma WriteExact(s: Ring, count: nat, k: nat, record: string)
    requires count > 0 && Reaches(s, count, k) && s.producer.Rests?
    ensures Indexed(s)
    ensures var t := Next(s, CheckFull(record));
            && (t.producer == Checked(record) <==> |s.sent| - |s.got| < count - 1)
            && (t.producer.Checked? ==> Next(Next(Next(t, BeginCopy), EndCopy), PublishEnd).sent == s.sent + [record])
  {
    hide Reaches, Word;
    AlwaysInv(s, count, k);
    TestsExact(s);
  }

  /** A read is taken exactly when the ring is not empty, and then hands out the first record not handed out yet. */
  lemma ReadExact(s: Ring, count: nat, k: nat)
    requires count > 0 && Reaches(s, count, k) && s.consumer.Sits?
    ensures Indexed(s)
    ensures var t := Next(s, CheckEmpty);
            && (t.consumer == Sees <==> |s.got| < |s.sent|)
            && (t.consumer == Sees ==>
                  var u := Next(t, CopyOut);
                  u.consumer.slot.Whole? && Next(u, PublishStart).got == s.got + [s.sent[|s.got|]])
  {
    hide Reaches, Word;
    AlwaysInv(s, count, k);
    TestsExact(s);
  }
}
