/**
 * The descriptor table and its mirror in the kernel, src/event.c. Kernel
 * interest is a map from descriptor to the events asked for; adding needs an
 * absent entry, modifying and deleting a present one.
 */
module Events {
  datatype Ev = Readable | Writable

  /** `urgent` says which of the two callbacks `proc` is: the one that queues at the head. */
  datatype Slot = Slot(mask: set<Ev>, urgent: bool, args: nat)

  datatype Loop = Loop(slots: seq<Slot>, interest: map<nat, set<Ev>>)

  datatype Op = CtlAdd | CtlMod | CtlDel

  predicate CtlOk(interest: map<nat, set<Ev>>, op: Op, fd: nat, willing: bool) {
    match op
    case CtlAdd => willing && fd !in interest
    case CtlMod => willing && fd in interest
    case CtlDel => fd in interest
  }

  function Ctl(interest: map<nat, set<Ev>>, op: Op, fd: nat, events: set<Ev>): map<nat, set<Ev>> {
    if op.CtlDel? then interest - {fd} else interest[fd := events]
  }

  function Add(l: Loop, fd: nat, what: Ev, urgent: bool, args: nat, willing: bool): (Loop, int) {
    if fd >= |l.slots| then (l, -1)
    else
      var was := l.slots[fd].mask;
      var op := if was == {} then CtlAdd else CtlMod;
      if !CtlOk(l.interest, op, fd, willing) then (l, -2)
      else
        (Loop(l.slots[fd := Slot(was + {what}, urgent, args)], Ctl(l.interest, op, fd, was + {what})), 0)
  }

  function Del(l: Loop, fd: nat, what: Ev, willing: bool): Loop {
    if fd >= |l.slots| || l.slots[fd].mask == {} then l
    else
      var mask := l.slots[fd].mask - {what};
      var op := if mask == {} then CtlDel else CtlMod;
      Loop(l.slots[fd := l.slots[fd].(mask := mask)],
           if CtlOk(l.interest, op, fd, willing) then Ctl(l.interest, op, fd, mask) else l.interest)
  }

  /** The kernel is asked for exactly what the table records. */
  ghost predicate Mirrors(l: Loop) {
    && (forall fd :: fd in l.interest ==> fd < |l.slots|)
    && (forall fd :: 0 <= fd < |l.slots| ==> Mirrored(l, fd))
  }

  ghost predicate Mirrored(l: Loop, fd: nat)
    requires fd < |l.slots|
  {
    if l.slots[fd].mask == {} then fd !in l.interest else fd in l.interest && l.interest[fd] == l.slots[fd].mask
  }

  lemma AddMirrors(l: Loop, fd: nat, what: Ev, urgent: bool, args: nat, willing: bool)
    requires Mirrors(l)
    ensures Mirrors(Add(l, fd, what, urgent, args, willing).0)
    ensures Add(l, fd, what, urgent, args, willing).1 == (if fd >= |l.slots| then -1 else if willing then 0 else -2)
  {
    if fd < |l.slots| {
      assert Mirrored(l, fd);
    }
    var m := Add(l, fd, what, urgent, args, willing).0;
    forall k | 0 <= k < |m.slots| ensures Mirrored(m, k) {
      assert Mirrored(l, k);
      if fd < |l.slots| {
        assert what in l.slots[fd].mask + {what};
      }
    }
  }

  /** Removing an event keeps the mirror exactly unless the kernel refuses to narrow its interest. */
  lemma DelMirrors(l: Loop, fd: nat, what: Ev, willing: bool)
    requires Mirrors(l)
    ensures Mirrors(Del(l, fd, what, willing))
       <==> (willing || fd >= |l.slots| || what !in l.slots[fd].mask || l.slots[fd].mask == {what})
  {
    var m := Del(l, fd, what, willing);
    if fd < |l.slots| && l.slots[fd].mask != {} {
      assert Mirrored(l, fd);
      assert l.slots[fd].mask - {what} == {} <==> l.slots[fd].mask == {what};
      assert what !in l.slots[fd].mask ==> l.slots[fd].mask - {what} == l.slots[fd].mask;
      assert Mirrors(m) ==> Mirrored(m, fd);
      forall k | 0 <= k < |m.slots| && k != fd ensures Mirrored(m, k) {
        assert Mirrored(l, k);
      }
    }
  }

  ghost predicate SameMasks(l: Loop, m: Loop) {
    && |l.slots| == |m.slots| && l.interest == m.interest
    && (forall fd :: 0 <= fd < |l.slots| ==> l.slots[fd].mask == m.slots[fd].mask)
  }

  /**
   * Registering and deregistering puts every mask and the kernel's interest
   * back, exactly when nobody had that event of that descriptor registered and
   * the kernel does not refuse to leave another event of it registered alone.
   */
  lemma AddDelRestores(l: Loop, fd: nat, what: Ev, urgent: bool, args: nat, willing: bool, after: bool)
    requires Mirrors(l) && Add(l, fd, what, urgent, args, willing).1 == 0
    ensures SameMasks(l, Del(Add(l, fd, what, urgent, args, willing).0, fd, what, after))
       <==> what !in l.slots[fd].mask && (after || l.slots[fd].mask == {})
  {
    var m := Add(l, fd, what, urgent, args, willing).0;
    var n := Del(m, fd, what, after);
    assert Mirrored(l, fd);
    assert what in m.slots[fd].mask;
    if what !in l.slots[fd].mask {
      assert l.slots[fd].mask + {what} - {what} == l.slots[fd].mask;
      if after || l.slots[fd].mask == {} {
        assert l.interest == n.interest;
      } else {
        assert what in n.interest[fd];
      }
    } else {
      assert what !in n.slots[fd].mask;
    }
  }

  class EventLoop {
    const slots: array<Slot>
    var interest: map<nat, set<Ev>>

    ghost function View(): Loop
      reads this, slots
    {
      Loop(slots[..], interest)
    }

    constructor (maxConn: nat)
      ensures fresh(slots) && slots.Length == maxConn + 128 && Mirrors(View())
      ensures forall fd :: 0 <= fd < slots.Length ==> slots[fd].mask == {}
    {
      slots := new Slot[maxConn + 128](_ => Slot({}, false, 0));
      interest := map[];
    }

    method AddFdEvent(fd: nat, what: Ev, urgent: bool, args: nat, willing: bool) returns (r: int)
      modifies this, slots
      ensures (View(), r) == Add(old(View()), fd, what, urgent, args, willing)
    {
      if fd >= slots.Length {
        return -1;
      }
      var op := if slots[fd].mask == {} then CtlAdd else CtlMod;
      var mask := slots[fd].mask + {what};
      if !CtlOk(interest, op, fd, willing) {
        return -2;
      }
      interest := Ctl(interest, op, fd, mask);
      slots[fd] := Slot(mask, urgent, args);
      r := 0;
    }

    method DelFdEvent(fd: nat, what: Ev, willing: bool)
      modifies this, slots
      ensures View() == Del(old(View()), fd, what, willing)
    {
      if fd >= slots.Length || slots[fd].mask == {} {
        return;
      }
      slots[fd] := slots[fd].(mask := slots[fd].mask - {what});
      var mask := slots[fd].mask;
      var op := if mask == {} then CtlDel else CtlMod;
      if CtlOk(interest, op, fd, willing) {
        interest := Ctl(interest, op, fd, mask);
      }
    }
  }
}
