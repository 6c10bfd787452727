/**
 * Circular doubly linked lists, src/util/list.h. A list is the sequence of its
 * nodes from the head round; every operation is the splice of that sequence.
 */
module List {
  import opened Seqs

  class Node {
    var next: Node
    var prev: Node
    const key: nat
    const item: nat

    /** INIT_LIST_HEAD on a new node. */
    constructor (key: nat, item: nat)
      ensures this.key == key && this.item == item && next == this && prev == this
    {
      this.key, this.item := key, item;
      next, prev := this, this;
    }
  }

  /** The position after i in a ring of n nodes. */
  function Round(i: nat, n: nat): nat {
    if i + 1 == n then 0 else i + 1
  }

  ghost predicate Linked(q: seq<Node>, i: nat)
    requires i < |q|
    reads q
  {
    q[i].next == q[Round(i, |q|)] && q[Round(i, |q|)].prev == q[i]
  }

  ghost predicate Ring(q: seq<Node>)
    reads q
  {
    && |q| > 0
    && (forall i, j :: 0 <= i < j < |q| ==> q[i] != q[j])
    && (forall i :: 0 <= i < |q| ==> Linked(q, i))
  }

  /** __list_add between q[i] and the node after it. */
  method AddBetween(newer: Node, prev: Node, next: Node, ghost q: seq<Node>, ghost i: nat)
    requires Ring(q) && newer !in q && i < |q| && prev == q[i] && next == q[Round(i, |q|)]
    modifies q, newer
    ensures Ring(Spliced(q, i + 1, newer))
  {
    hide Spliced;
    next.prev := newer;
    newer.next := next;
    newer.prev := prev;
    prev.next := newer;
    ghost var r := Spliced(q, i + 1, newer);
    forall k | 0 <= k < |r| ensures Linked(r, k) {
      if k <= i {
        assert old(Linked(q, k));
      } else if k > i + 1 {
        assert old(Linked(q, k - 1));
      }
    }
  }

  /** list_add: after a known node. */
  method Add(newer: Node, head: Node, ghost q: seq<Node>, ghost i: nat)
    requires Ring(q) && newer !in q && i < |q| && head == q[i]
    modifies q, newer
    ensures Ring(Spliced(q, i + 1, newer))
  {
    assert Linked(q, i);
    AddBetween(newer, head, head.next, q, i);
  }

  /** list_add_tail: before a known node; before the head is at the end. */
  method AddTail(newer: Node, head: Node, ghost q: seq<Node>, ghost i: nat)
    requires Ring(q) && newer !in q && i < |q| && head == q[i]
    modifies q, newer
    ensures Ring(Spliced(q, if i == 0 then |q| else i, newer))
  {
    ghost var before := if i == 0 then |q| - 1 else i - 1;
    assert Linked(q, before);
    AddBetween(newer, head.prev, head, q, before);
  }

  /** list_del_init: out of the ring, and alone. */
  method DelInit(entry: Node, ghost q: seq<Node>, ghost i: nat)
    requires Ring(q) && 0 < i < |q| && entry == q[i]
    modifies q
    ensures Ring(Dropped(q, i)) && Ring([entry])
  {
    hide Dropped;
    assert Linked(q, i) && Linked(q, i - 1);
    var prev, next := entry.prev, entry.next;
    next.prev := prev;
    prev.next := next;
    entry.next, entry.prev := entry, entry;
    ghost var r := Dropped(q, i);
    forall k | 0 <= k < |r| ensures Linked(r, k) {
      assert old(Linked(q, if k < i then k else k + 1));
    }
  }
}
