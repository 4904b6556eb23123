/** `spsc_bounded_queue<T>`: a single-producer single-consumer ring buffer of
    `buffer_size` slots (a power of two), indexed by `cursor & mask`. The
    unread items are the window of slots from `tail` up to `head`. */
module SpscQueue {
  import opened Bits
  import opened Ring

  class SpscQueue<T> {
    const bufferSize: nat          // m_buffer_size
    const mask: nat                // m_buffer_mask
    var head: nat                  // m_head
    var tail: nat                  // m_tail
    const buffer: array<T>         // m_buffer
    /** Everything enqueued and dequeued so far, and whether an enqueue ever
        overwrote an unread slot. */
    ghost var enqueued: seq<T>
    ghost var dequeued: seq<T>
    ghost var overrun: bool

    /** Without an overrun, the unread window never holds more than
        `buffer_size` items and is exactly what was enqueued and not yet
        dequeued, in order. */
    ghost predicate Valid()
      reads this, buffer
    {
      && bufferSize > 1 && PowerOfTwoTest(bufferSize) && mask == bufferSize - 1
      && buffer.Length == bufferSize
      && tail <= head <= tail + bufferSize + 1
      && (!overrun ==> head - tail <= bufferSize && enqueued == dequeued + Items())
    }

    /** The unread items, oldest first. */
    ghost function Items(): seq<T>
      reads this, buffer
      requires buffer.Length > 0 && tail <= head
    {
      RingItems(buffer[..], tail, head)
    }

    /** `spsc_bounded_queue(buffer_size)`: the size must exceed 1 and be a power
        of two; every slot holds a value-initialised `T` (`blank`). */
    constructor (bufferSize: nat, blank: T)
      requires bufferSize > 1 && PowerOfTwoTest(bufferSize)
      ensures Valid() && fresh(buffer)
      ensures this.bufferSize == bufferSize && head == 0 && tail == 0
      ensures buffer[..] == seq(bufferSize, _ => blank)
      ensures Items() == [] && enqueued == [] && dequeued == [] && !overrun
    {
      this.bufferSize := bufferSize;
      mask := bufferSize - 1;
      buffer := new T[bufferSize](_ => blank);
      head := 0;
      tail := 0;
      enqueued := [];
      dequeued := [];
      overrun := false;
    }

    /** `try_enqueue(v)` as written: refused only when `head - tail > buffer_size`.
        Otherwise v goes to slot `head & mask` and head advances; at exactly
        `buffer_size` unread items that slot is the oldest unread one. */
    method TryEnqueue(v: T) returns (ok: bool)
      requires Valid()
      modifies this, buffer
      ensures Valid()
      ensures ok <==> old(head - tail) <= bufferSize
      ensures tail == old(tail) && dequeued == old(dequeued)
      ensures !ok ==> head == old(head) && buffer[..] == old(buffer[..])
                      && enqueued == old(enqueued) && overrun == old(overrun)
      ensures ok ==> head == old(head) + 1 && buffer[..] == old(buffer[..])[old(head) % bufferSize := v]
      ensures ok ==> enqueued == old(enqueued) + [v]
      ensures ok && old(head - tail) < bufferSize ==> Items() == old(Items()) + [v]
      ensures ok && old(head - tail) == bufferSize ==> Items() == [v] + old(Items())[1..] + [v]
      ensures overrun <==> old(overrun) || (ok && old(head - tail) == bufferSize)
    {
      var curTail := tail;
      if head - curTail > bufferSize {
        return false;
      }
      var index := And(head, mask);
      MaskIsModulo(head, bufferSize);
      RingWrite(buffer[..], tail, head, v);
      head, enqueued, overrun := head + 1, enqueued + [v], overrun || head - tail == bufferSize;
      buffer[index] := v;
      ok := true;
    }

    /** `try_enqueue(v)` with the capacity test corrected to
        `head - tail >= buffer_size`: refused exactly when full, and then an
        accepted item is always appended behind the unread ones. */
    method TryEnqueueBounded(v: T) returns (ok: bool)
      requires Valid()
      modifies this, buffer
      ensures Valid()
      ensures ok <==> old(head - tail) < bufferSize
      ensures tail == old(tail) && dequeued == old(dequeued) && overrun == old(overrun)
      ensures !ok ==> head == old(head) && buffer[..] == old(buffer[..]) && enqueued == old(enqueued)
      ensures ok ==> head == old(head) + 1 && buffer[..] == old(buffer[..])[old(head) % bufferSize := v]
      ensures ok ==> enqueued == old(enqueued) + [v] && Items() == old(Items()) + [v]
    {
      var curTail := tail;
      if head - curTail >= bufferSize {
        return false;
      }
      var index := And(head, mask);
      MaskIsModulo(head, bufferSize);
      RingPush(buffer[..], tail, head, v);
      head, enqueued := head + 1, enqueued + [v];
      buffer[index] := v;
      ok := true;
    }

    /** `try_dequeue(v)`: refused, with v handed back, when `head == tail`;
        otherwise hands out slot `tail & mask`, the oldest unread item, and
        advances tail. */
    method TryDequeue(v: T) returns (ok: bool, out: T)
      requires Valid()
      modifies this
      ensures Valid()
      ensures ok <==> old(head) != old(tail)
      ensures head == old(head) && enqueued == old(enqueued) && overrun == old(overrun)
      ensures !ok ==> out == v && tail == old(tail) && dequeued == old(dequeued)
      ensures ok ==> out == buffer[old(tail) % bufferSize] && tail == old(tail) + 1
      ensures ok ==> out == old(Items())[0] && Items() == old(Items())[1..]
      ensures ok ==> dequeued == old(dequeued) + [out]
    {
      var curHead := head;
      if curHead == tail {
        return false, v;
      }
      var index := And(tail, mask);
      MaskIsModulo(tail, bufferSize);
      out := buffer[index];
      tail, dequeued := tail + 1, dequeued + [out];
      ok := true;
    }
  }

  /** FIFO with the corrected capacity test: offering every item of xs to an
      empty queue of `buffer_size` slots and then draining it hands back
      exactly the first `buffer_size` items, in order. */
  method DrainBounded<T>(bufferSize: nat, blank: T, xs: seq<T>) returns (ys: seq<T>)
    requires bufferSize > 1 && PowerOfTwoTest(bufferSize)
    ensures ys == if |xs| <= bufferSize then xs else xs[..bufferSize]
  {
    var q := new SpscQueue(bufferSize, blank);
    var i := 0;
    while i < |xs|
      invariant 0 <= i <= |xs|
      invariant q.Valid() && fresh(q) && fresh(q.buffer) && !q.overrun && q.dequeued == []
      invariant q.tail == 0
      invariant q.enqueued == if i <= bufferSize then xs[..i] else xs[..bufferSize]
    {
      var ok := q.TryEnqueueBounded(xs[i]);
      i := i + 1;
    }
    ys := [];
    var ok := true;
    while ok
      invariant q.Valid() && fresh(q) && fresh(q.buffer) && !q.overrun
      invariant q.enqueued == if |xs| <= bufferSize then xs else xs[..bufferSize]
      invariant q.dequeued == ys
      invariant !ok ==> q.head == q.tail
      decreases q.head - q.tail, ok
    {
      var y;
      ok, y := q.TryDequeue(blank);
      if ok {
        ys := ys + [y];
      }
    }
    assert q.Items() == [];
  }

  /** The capacity test as written lets a third item into a queue of two
      slots; it overwrites the first, so the first item handed out is the
      third one offered. */
  method OverrunExample() returns (accepted: seq<bool>, first: int)
    ensures accepted == [true, true, true]
    ensures first == 3
  {
    var q := new SpscQueue(2, 0);
    assert And(2, 1) == 0;
    var a := q.TryEnqueue(1);
    var b := q.TryEnqueue(2);
    var c := q.TryEnqueue(3);
    accepted := [a, b, c];
    var ok;
    ok, first := q.TryDequeue(0);
  }
}
