/** `mpsc_bounded_queue<T, Size>`: a multi-producer single-consumer ring buffer
    of `Size` slots (a power of two). Each slot carries a `ready` flag that a
    producer raises after writing the value and the consumer lowers after
    taking it. Viewed on one thread, the producers' claim loop succeeds on its
    first pass. The slots' values and flags are kept as two parallel arrays. */
module MpscQueue {
  import opened Bits
  import opened Ring

  predicate AllSet(s: seq<bool>) {
    forall i :: 0 <= i < |s| ==> s[i]
  }

  /** Raising the flag of cursor `to` behind a fully ready window that does
      not fill the buffer leaves the longer window fully ready. */
  lemma RaiseNext(flags: seq<bool>, from: nat, to: nat)
    requires |flags| > 0 && from <= to < from + |flags| && AllSet(RingItems(flags, from, to))
    ensures AllSet(RingItems(flags[to % |flags| := true], from, to + 1))
  {
    RingPush(flags, from, to, true);
  }

  /** Lowering the flag of cursor `from` of a fully ready window of at most a
      lap leaves the rest of the window fully ready. */
  lemma LowerFirst(flags: seq<bool>, from: nat, to: nat)
    requires |flags| > 0 && from < to <= from + |flags| && AllSet(RingItems(flags, from, to))
    ensures AllSet(RingItems(flags[from % |flags| := false], from + 1, to))
  {
    var rest := RingItems(flags, from + 1, to);
    assert RingItems(flags, from, to) == [flags[from % |flags|]] + rest;
    assert forall i :: 0 <= i < |rest| ==> rest[i] == RingItems(flags, from, to)[i + 1];
    RingRest(flags, from, to, false);
  }

  /** A producer's write of the slot of cursor `to` and the raising of its
      flag, on the window from `from`: the values' window grows as `RingWrite`
      says, and a fully ready window short of a lap stays fully ready. */
  lemma WriteClaimed<T>(vals: seq<T>, flags: seq<bool>, from: nat, to: nat, v: T)
    requires |vals| > 0 && |flags| == |vals| && from <= to
    ensures to - from <= |vals| ==>
              RingItems(vals[to % |vals| := v], from, to + 1)
              == if to - from < |vals| then RingItems(vals, from, to) + [v]
                 else [v] + RingItems(vals, from, to)[1..] + [v]
    ensures to - from < |vals| && AllSet(RingItems(flags, from, to)) ==>
              AllSet(RingItems(flags[to % |flags| := true], from, to + 1))
  {
    if to - from <= |vals| {
      RingWrite(vals, from, to, v);
    }
    if to - from < |vals| && AllSet(RingItems(flags, from, to)) {
      RaiseNext(flags, from, to);
    }
  }

  class MpscQueue<T> {
    const size: nat                // Size, m_buffer_size
    const mask: nat                // m_buffer_mask
    var head: nat                  // m_head
    var tail: nat                  // m_tail
    const values: array<T>         // m_buffer[i].value
    const ready: array<bool>       // m_buffer[i].ready
    /** Everything enqueued and dequeued so far, and whether an enqueue ever
        overwrote an unread slot. */
    ghost var enqueued: seq<T>
    ghost var dequeued: seq<T>
    ghost var overrun: bool

    /** Without an overrun, the unread window holds at most `Size` items,
        every one of its slots is ready, and it is exactly what was enqueued
        and not yet dequeued, in order. */
    ghost predicate Valid()
      reads this, values, ready
    {
      && size > 1 && PowerOfTwoTest(size) && mask == size - 1
      && values.Length == size && ready.Length == size && values as object != ready
      && tail <= head
      && (!overrun ==>
            && head - tail <= size
            && AllSet(RingItems(ready[..], tail, head))
            && enqueued == dequeued + Items())
    }

    /** The unread values, oldest first. */
    ghost function Items(): seq<T>
      reads this, values
      requires values.Length > 0 && tail <= head
    {
      RingItems(values[..], tail, head)
    }

    /** `mpsc_bounded_queue()`: `Size` must exceed 1 and be a power of two.
        The slots start out indeterminate (`initValues`, `initReady`). */
    constructor (size: nat, initValues: seq<T>, initReady: seq<bool>)
      requires size > 1 && PowerOfTwoTest(size) && |initValues| == size && |initReady| == size
      ensures Valid() && fresh(values) && fresh(ready)
      ensures this.size == size && head == 0 && tail == 0
      ensures values[..] == initValues && ready[..] == initReady
      ensures Items() == [] && enqueued == [] && dequeued == [] && !overrun
    {
      this.size := size;
      mask := size - 1;
      values := new T[size](i requires 0 <= i < size => initValues[i]);
      ready := new bool[size](i requires 0 <= i < size => initReady[i]);
      head := 0;
      tail := 0;
      enqueued := [];
      dequeued := [];
      overrun := false;
    }

    /** `try_enqueue(v)` as written. Its capacity test compares the freshly
        loaded head with head itself, so it never refuses: the claim succeeds,
        v is written to the claimed slot `head & mask`, and the slot is marked
        ready. At `Size` unread items that slot is the oldest unread one. */
    method TryEnqueue(v: T) returns (ok: bool)
      requires Valid()
      modifies this, values, ready
      ensures Valid()
      ensures ok
      ensures head == old(head) + 1 && tail == old(tail) && dequeued == old(dequeued)
      ensures values[..] == old(values[..])[old(head) % size := v]
      ensures ready[..] == old(ready[..])[old(head) % size := true]
      ensures enqueued == old(enqueued) + [v]
      ensures old(head - tail) < size ==> Items() == old(Items()) + [v]
      ensures old(head - tail) == size ==> Items() == [v] + old(Items())[1..] + [v]
      ensures overrun <==> old(overrun) || old(head - tail) >= size
    {
      var curHead := head;
      if curHead - head > size {
        return false;
      }
      var index := And(curHead, mask);
      MaskIsModulo(curHead, size);
      WriteClaimed(values[..], ready[..], tail, curHead, v);
      head, enqueued, overrun := curHead + 1, enqueued + [v], overrun || curHead - tail >= size;
      values[index] := v;
      ready[index] := true;
      ok := true;
    }

    /** `try_enqueue(v)` with the capacity test corrected to compare head with
        tail: refused exactly when `Size` items are unread, and then an
        accepted item is always appended behind the unread ones. */
    method TryEnqueueBounded(v: T) returns (ok: bool)
      requires Valid()
      modifies this, values, ready
      ensures Valid()
      ensures ok <==> old(head - tail) < size
      ensures tail == old(tail) && dequeued == old(dequeued) && overrun == old(overrun)
      ensures !ok ==> head == old(head) && values[..] == old(values[..]) && ready[..] == old(ready[..])
                      && enqueued == old(enqueued)
      ensures ok ==> head == old(head) + 1
      ensures ok ==> values[..] == old(values[..])[old(head) % size := v]
      ensures ok ==> ready[..] == old(ready[..])[old(head) % size := true]
      ensures ok ==> enqueued == old(enqueued) + [v] && Items() == old(Items()) + [v]
    {
      var curHead := head;
      if curHead - tail >= size {
        return false;
      }
      var index := And(curHead, mask);
      MaskIsModulo(curHead, size);
      RingPush(values[..], tail, curHead, v);
      if !overrun {
        RaiseNext(ready[..], tail, curHead);
      }
      head, enqueued := curHead + 1, enqueued + [v];
      values[index] := v;
      ready[index] := true;
      ok := true;
    }

    /** `try_dequeue(v)`: refused, with v handed back, when `head == tail` or
        the slot `tail & mask` is not ready; otherwise hands out that slot's
        value, lowers its flag and advances tail. Without an overrun the flag
        test never refuses, so the dequeue succeeds exactly on a non-empty
        queue and hands out the oldest item. */
    method TryDequeue(v: T) returns (ok: bool, out: T)
      requires Valid()
      modifies this, ready
      ensures Valid()
      ensures ok <==> old(head) != old(tail) && old(ready[tail % size])
      ensures !old(overrun) ==> (ok <==> old(head) != old(tail))
      ensures head == old(head) && enqueued == old(enqueued) && overrun == old(overrun)
      ensures values[..] == old(values[..])
      ensures !ok ==> out == v && tail == old(tail) && ready[..] == old(ready[..]) && dequeued == old(dequeued)
      ensures ok ==> out == values[old(tail) % size] && tail == old(tail) + 1
      ensures ok ==> ready[..] == old(ready[..])[old(tail) % size := false]
      ensures ok ==> out == old(Items())[0] && Items() == old(Items())[1..]
      ensures ok ==> dequeued == old(dequeued) + [out]
    {
      if head == tail {
        return false, v;
      }
      var index := And(tail, mask);
      MaskIsModulo(tail, size);
      if !overrun {
        assert RingItems(ready[..], tail, head)[0];
      }
      if !ready[index] {
        return false, v;
      }
      if !overrun {
        LowerFirst(ready[..], tail, head);
      }
      out := values[index];
      tail, dequeued := tail + 1, dequeued + [out];
      ready[index] := false;
      ok := true;
    }
  }

  /** FIFO with the corrected capacity test: offering every item of xs to an
      empty queue of `Size` slots, whatever their initial contents, and then
      draining it hands back exactly the first `Size` items, in order. */
  method DrainBounded<T>(size: nat, initValues: seq<T>, initReady: seq<bool>, blank: T, xs: seq<T>) returns (ys: seq<T>)
    requires size > 1 && PowerOfTwoTest(size) && |initValues| == size && |initReady| == size
    ensures ys == if |xs| <= size then xs else xs[..size]
  {
    var q := new MpscQueue(size, initValues, initReady);
    Fill(q, xs);
    ys := Drain(q, blank);
  }

  /** Offers every item of xs to an empty queue with the corrected test: the
      first `Size` of them are accepted. */
  method Fill<T>(q: MpscQueue<T>, xs: seq<T>)
    requires q.Valid() && !q.overrun && q.tail == 0 && q.head == 0 && q.enqueued == [] && q.dequeued == []
    modifies q, q.values, q.ready
    ensures q.Valid() && !q.overrun && q.dequeued == []
    ensures q.enqueued == if |xs| <= q.size then xs else xs[..q.size]
  {
    var i := 0;
    while i < |xs|
      invariant 0 <= i <= |xs|
      invariant q.Valid() && !q.overrun && q.dequeued == [] && q.tail == 0
      invariant q.enqueued == if i <= q.size then xs[..i] else xs[..q.size]
    {
      var ok := q.TryEnqueueBounded(xs[i]);
      i := i + 1;
    }
  }

  /** Dequeues until refused: without an overrun, that hands back everything
      enqueued and not yet dequeued, in order. */
  method Drain<T>(q: MpscQueue<T>, blank: T) returns (ys: seq<T>)
    requires q.Valid() && !q.overrun && q.dequeued == []
    modifies q, q.ready
    ensures ys == old(q.enqueued)
  {
    ys := [];
    var ok := true;
    while ok
      invariant q.Valid() && !q.overrun && q.enqueued == old(q.enqueued)
      invariant q.dequeued == ys
      invariant !ok ==> q.head == q.tail
      decreases q.head - q.tail, ok
    {
      var y;
      ok, y := q.TryDequeue(blank);
      if ok {
        ys := ys + [y];
      }
    }
    assert q.Items() == [];
  }

  /** The capacity test as written lets a third item into a queue of two
      slots; it overwrites the first, so the first item handed out is the
      third one offered, the second is handed out next, and the queue then
      refuses although one item is still counted between tail and head. */
  method OverrunExample() returns (accepted: seq<bool>, outs: seq<int>, stuck: bool)
    ensures accepted == [true, true, true]
    ensures outs == [3, 2]
    ensures stuck
  {
    var q := new MpscQueue(2, [0, 0], [false, false]);
    assert And(2, 1) == 0;
    var a := q.TryEnqueue(1);
    var b := q.TryEnqueue(2);
    var c := q.TryEnqueue(3);
    accepted := [a, b, c];
    var ok1, x := q.TryDequeue(0);
    var ok2, y := q.TryDequeue(0);
    outs := [x, y];
    var ok3, z := q.TryDequeue(0);
    stuck := !ok3 && q.head != q.tail;
  }
}
