/**
 * The log server of src/logger.c: the shared table of log slots, the records
 * in them, and the page that gathers records on their way to the file. The
 * life of one slot between interleaved processes is in LogLife.
 */
module Logger {
  // ---------------------------------------------------------------- one record

  /** sizeof of the text field of struct log_buff, where size_t has eight bytes. */
  const PAYLOAD := 1016

  /** struct log_buff; a stored length may exceed the text field. */
  datatype LogBuff = LogBuff(len: nat, buff: string)

  predicate Sized(b: LogBuff) {
    |b.buff| == PAYLOAD
  }

  /** The fields hold the whole record. */
  predicate Whole(b: LogBuff) {
    Sized(b) && b.len < PAYLOAD
  }

  /** log_write: snprintf cuts the text to the field, ends it with NUL, and returns the length before the cut. */
  function Stored(text: string, was: LogBuff): (b: LogBuff)
    requires Sized(was)
    ensures Sized(b)
  {
    var n := if |text| < PAYLOAD then |text| else PAYLOAD - 1;
    LogBuff(|text|, text[..n] + ['\0'] + was.buff[n + 1..])
  }

  /** The bytes log_read copies: as many as the length says, `beyond` being what lies after the field. */
  function Copied(b: LogBuff, beyond: string): (text: string)
    requires b.len <= |b.buff| + |beyond|
    ensures |text| == b.len
  {
    (b.buff + beyond)[..b.len]
  }

  /** A record is read back as it was written exactly when it is shorter than the field. */
  lemma StoredExact(text: string, was: LogBuff, beyond: string)
    requires Sized(was) && '\0' !in text && |text| <= PAYLOAD + |beyond|
    ensures Copied(Stored(text, was), beyond) == text <==> |text| < PAYLOAD
  {
    var b := Stored(text, was);
    if |text| >= PAYLOAD {
      assert Copied(b, beyond)[PAYLOAD - 1] == '\0' && text[PAYLOAD - 1] in text;
    } else {
      assert b.buff[..|text|] == text;
      assert Copied(b, beyond) == b.buff[..|text|];
    }
  }

  function TextOf(b: LogBuff): string
    requires Whole(b)
  {
    b.buff[..b.len]
  }

  lemma CopiedWhole(b: LogBuff, beyond: string)
    requires Whole(b)
    ensures Copied(b, beyond) == TextOf(b)
  {
  }

  // ---------------------------------------------------------------- the slots

  /** `queue` holds the records of the slot's circular buffer. */
  datatype LogSlot = LogSlot(pid: int, needInit: bool, queue: seq<LogBuff>)

  predicate AllWhole(q: seq<LogBuff>) {
    forall i :: 0 <= i < |q| ==> Whole(q[i])
  }

  function Concat(q: seq<LogBuff>): string
    requires AllWhole(q)
  {
    if q == [] then "" else TextOf(q[0]) + Concat(q[1..])
  }

  /** One pass of the server over a slot: all its records go, and it is freed if its owner is gone. */
  function Drained(s: LogSlot): LogSlot {
    if s.pid == 0 then s
    else if s.needInit then LogSlot(0, false, [])
    else s.(queue := [])
  }

  function Text(s: LogSlot): string
    requires AllWhole(s.queue)
  {
    if s.pid == 0 then "" else Concat(s.queue)
  }

  predicate Clean(slots: seq<LogSlot>) {
    forall i :: 0 <= i < |slots| ==> AllWhole(slots[i].queue)
  }

  function ScanText(slots: seq<LogSlot>): string
    requires Clean(slots)
  {
    if slots == [] then "" else Text(slots[0]) + ScanText(slots[1..])
  }

  lemma {:induction false} ScanTextNext(slots: seq<LogSlot>, i: nat)
    requires Clean(slots) && i < |slots|
    ensures ScanText(slots[..i + 1]) == ScanText(slots[..i]) + Text(slots[i])
  {
    if i == 0 {
      assert slots[..1][1..] == [];
    } else {
      ScanTextNext(slots[1..], i - 1);
      assert slots[..i + 1][1..] == slots[1..][..i];
      assert slots[..i][1..] == slots[1..][..i - 1];
    }
  }

  lemma IdleSlot(s: LogSlot)
    requires s.pid == 0 && AllWhole(s.queue)
    ensures Drained(s) == s && Text(s) == ""
  {
  }

  lemma EmptyScan(slots: seq<LogSlot>)
    ensures ScanText(slots[..0]) == ""
  {
  }

  class Server {
    const slots: array<LogSlot>
    const pageSize: nat
    const fd: int
    var page: string
    var file: string

    ghost predicate Valid()
      reads this, slots
    {
      |page| <= pageSize && PAYLOAD <= pageSize && Clean(slots[..])
    }

    constructor (workers: nat, size: nat, logFd: int)
      requires size >= PAYLOAD
      ensures Valid() && fresh(slots) && slots.Length == workers + 1 && page == "" && file == ""
      ensures forall i :: 0 <= i < slots.Length ==> slots[i].pid == 0
      ensures pageSize == size && fd == logFd
    {
      slots := new LogSlot[workers + 1](_ => LogSlot(0, false, []));
      pageSize, fd, page, file := size, logFd, "", "";
    }

    /** log_flush; without a file the page is dropped. */
    method Flush()
      modifies `page, `file
      ensures page == "" && file == old(file) + (if fd > 0 then old(page) else "")
    {
      if |page| == 0 {
        return;
      }
      if fd > 0 {
        file := file + page;
      }
      page := "";
    }

    /** log_read: as many bytes as the record says, and no other; the page overflows only for a length beyond its size. */
    method LogRead(b: LogBuff, beyond: string)
      requires |page| <= pageSize && b.len <= |b.buff| + |beyond|
      modifies `page, `file
      ensures |page| <= pageSize <==> b.len <= pageSize
      ensures fd > 0 ==> file + page == old(file) + old(page) + Copied(b, beyond)
      ensures |old(page)| + b.len <= pageSize ==> file == old(file) && page == old(page) + Copied(b, beyond)
    {
      if b.len > pageSize - |page| {
        Flush();
      }
      page := page + (b.buff + beyond)[..b.len];
    }

    /** The reading loop of copy_to_cache. */
    method Drain(queue: seq<LogBuff>)
      requires |page| <= pageSize && PAYLOAD <= pageSize && AllWhole(queue)
      modifies `page, `file
      ensures |page| <= pageSize
      ensures fd > 0 ==> file + page == old(file) + old(page) + Concat(queue)
    {
      hide Whole, TextOf, Copied;
      var rest := queue;
      while rest != []
        invariant |page| <= pageSize && AllWhole(rest)
        invariant fd > 0 ==> file + page + Concat(rest) == old(file) + old(page) + Concat(queue)
        decreases |rest|
      {
        ghost var before := file + page;
        ReadWhole(rest[0]);
        assert fd > 0 ==> file + page == before + TextOf(rest[0]);
        assert before + Concat(rest) == (before + TextOf(rest[0])) + Concat(rest[1..]);
        rest := rest[1..];
      }
    }

    method ReadWhole(b: LogBuff)
      requires |page| <= pageSize && PAYLOAD <= pageSize && Whole(b)
      modifies `page, `file
      ensures |page| <= pageSize && (fd > 0 ==> file + page == old(file) + old(page) + TextOf(b))
    {
      CopiedWhole(b, "");
      LogRead(b, "");
    }

    method CopyToCache(i: nat)
      requires Valid() && i < slots.Length && slots[i].pid != 0
      modifies `page, `file, slots
      ensures Valid() && slots[..] == old(slots[..])[i := Drained(old(slots[i]))]
      ensures fd > 0 ==> file + page == old(file) + old(page) + Text(old(slots[i]))
    {
      Drain(slots[i].queue);
      slots[i] := slots[i].(queue := []);
      if slots[i].needInit {
        slots[i] := slots[i].(pid := 0, needInit := false);
      }
    }

    /** log_scan_write: after a scan the file holds every byte that was in the page or in a slot in use, in order. */
    method ScanWrite()
      requires Valid()
      modifies this, slots
      ensures Valid() && page == ""
      ensures forall i :: 0 <= i < slots.Length ==> slots[i] == Drained(old(slots[i]))
      ensures fd > 0 ==> file == old(file) + old(page) + ScanText(old(slots[..]))
    {
      hide Drained, Text, ScanText, AllWhole;
      ghost var was, before := slots[..], file + page;
      var index := 0;
      EmptyScan(was);
      while index < slots.Length
        invariant 0 <= index <= slots.Length && Valid()
        invariant forall i :: 0 <= i < index ==> slots[i] == Drained(was[i])
        invariant forall i :: index <= i < slots.Length ==> slots[i] == was[i]
        invariant fd > 0 ==> file + page == before + ScanText(was[..index])
      {
        ScanTextNext(was, index);
        if slots[index].pid != 0 {
          CopyToCache(index);
          assert forall i :: 0 <= i < slots.Length ==> slots[i] == slots[..][i];
        } else {
          IdleSlot(was[index]);
        }
        index := index + 1;
      }
      assert was[..index] == was;
      Flush();
    }

    /** log_worker_alloc: the first free slot, emptied, or none when all are taken. */
    method WorkerAlloc(pid: int) returns (r: int, id: nat)
      requires Valid()
      modifies slots
      ensures Valid() && (r == 0 <==> exists i :: 0 <= i < slots.Length && old(slots[i]).pid == 0)
      ensures r == 0 ==> id < slots.Length && old(slots[id]).pid == 0
                         && (forall i :: 0 <= i < id ==> old(slots[i]).pid != 0)
                         && slots[..] == old(slots[..])[id := LogSlot(pid, false, [])]
      ensures r != 0 ==> r == -1 && slots[..] == old(slots[..])
    {
      var index := 0;
      while index < slots.Length
        invariant 0 <= index <= slots.Length && slots[..] == old(slots[..])
        invariant forall i :: 0 <= i < index ==> slots[i].pid != 0
      {
        if slots[index].pid == 0 {
          slots[index] := LogSlot(pid, false, []);
          return 0, index;
        }
        index := index + 1;
      }
      return -1, 0;
    }

    /** log_worker_flush_and_reset */
    method WorkerReset(pid: int)
      requires Valid()
      modifies slots
      ensures Valid()
      ensures forall i :: 0 <= i < slots.Length ==>
                slots[i] == if old(slots[i]).pid == pid then old(slots[i]).(needInit := true) else old(slots[i])
    {
      var index := 0;
      while index < slots.Length
        invariant 0 <= index <= slots.Length && Valid()
        invariant forall i :: index <= i < slots.Length ==> slots[i] == old(slots[i])
        invariant forall i :: 0 <= i < index ==>
                    slots[i] == if old(slots[i]).pid == pid then old(slots[i]).(needInit := true) else old(slots[i])
      {
        if slots[index].pid == pid {
          slots[index] := slots[index].(needInit := true);
        }
        index := index + 1;
      }
    }

    /**
     * The exit of a worker as the master sees it: its handler resets the slots, the
     * next scan frees them, and the worker that replaces it finds a slot.
     */
    method Replace(pid: int, next: int) returns (r: int, id: nat)
      requires Valid() && pid != 0 && next != 0
      requires exists i :: 0 <= i < slots.Length && slots[i].pid == pid
      modifies this, slots
      ensures Valid() && r == 0 && id < slots.Length && slots[id] == LogSlot(next, false, [])
      ensures forall i :: 0 <= i < slots.Length && i != id ==> slots[i].pid != pid
      ensures forall i :: 0 <= i < slots.Length && i != id && old(slots[i]).pid == pid ==> slots[i] == LogSlot(0, false, [])
      ensures forall i :: 0 <= i < slots.Length && i != id && old(slots[i]).pid != pid ==>
                slots[i].pid == old(slots[i]).pid || slots[i].pid == 0
    {
      ghost var at :| 0 <= at < slots.Length && slots[at].pid == pid;
      WorkerReset(pid);
      assert slots[at].needInit && slots[at].pid == pid;
      ScanWrite();
      assert slots[at].pid == 0;
      ghost var freed := slots[..];
      r, id := WorkerAlloc(next);
      assert forall i :: 0 <= i < slots.Length && i != id ==> slots[i] == slots[..][i] == freed[i];
    }
  }
}
