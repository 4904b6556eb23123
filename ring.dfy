/** The window of a ring buffer: the slots of the cursors `from .. to - 1`,
    each cursor taken modulo the buffer length. Both bounded queues keep
    their unread items in such a window, from `tail` up to `head`. */
module Ring {
  import opened Bits

  /** The slots of cursors `from .. to - 1`, in order. */
  function RingItems<T>(buf: seq<T>, from: nat, to: nat): (r: seq<T>)
    requires |buf| > 0 && from <= to
    ensures |r| == to - from
    decreases (to as int) - from
  {
    if from == to then [] else [buf[from % |buf|]] + RingItems(buf, from + 1, to)
  }

  /** Item i of a window is the slot of cursor `from + i`. */
  lemma {:induction false} RingIndex<T>(buf: seq<T>, from: nat, to: nat, i: nat)
    requires |buf| > 0 && from + i < to
    ensures RingItems(buf, from, to)[i] == buf[(from + i) % |buf|]
    decreases (to as int) - from
  {
    if i > 0 {
      RingIndex(buf, from + 1, to, i - 1);
    }
  }

  /** Two cursors less than a lap apart name different slots. */
  lemma ModDistinct(a: nat, d: nat, n: nat)
    requires 0 < d < n
    ensures (a + d) % n != a % n
  {
    var q, r := a / n, a % n;
    assert a == n * q + r;
    if r + d < n {
      ModOfDecomposition(a + d, n, q, r + d);
    } else {
      assert a + d == n * (q + 1) + (r + d - n);
      ModOfDecomposition(a + d, n, q + 1, r + d - n);
    }
  }

  /** A cursor one lap ahead names the same slot. */
  lemma ModLap(a: nat, n: nat)
    requires n > 0
    ensures (a + n) % n == a % n
  {
    var q, r := a / n, a % n;
    assert a + n == n * (q + 1) + r;
    ModOfDecomposition(a + n, n, q + 1, r);
  }

  /** Writing the slot of cursor `to` behind a window that does not fill the
      buffer appends to the window. */
  lemma RingPush<T>(buf: seq<T>, from: nat, to: nat, v: T)
    requires |buf| > 0 && from <= to < from + |buf|
    ensures RingItems(buf[to % |buf| := v], from, to + 1) == RingItems(buf, from, to) + [v]
  {
    var n := |buf|;
    var after := RingItems(buf[to % n := v], from, to + 1);
    var before := RingItems(buf, from, to);
    forall i | 0 <= i < to + 1 - from
      ensures after[i] == (before + [v])[i]
    {
      RingIndex(buf[to % n := v], from, to + 1, i);
      if from + i < to {
        RingIndex(buf, from, to, i);
        ModDistinct(from + i, to - from - i, n);
        assert from + i + (to - from - i) == to;
      }
    }
  }

  /** Writing the slot of cursor `to` behind a window that fills the buffer
      overwrites its oldest slot: the window then reads the new value both
      first and last. */
  lemma RingOverwrite<T>(buf: seq<T>, from: nat, to: nat, v: T)
    requires |buf| > 0 && to == from + |buf|
    ensures RingItems(buf[to % |buf| := v], from, to + 1) == [v] + RingItems(buf, from, to)[1..] + [v]
  {
    var n := |buf|;
    ModLap(from, n);
    var after := RingItems(buf[to % n := v], from, to + 1);
    var before := RingItems(buf, from, to);
    var expected := [v] + before[1..] + [v];
    forall i | 0 <= i < n + 1
      ensures after[i] == expected[i]
    {
      RingIndex(buf[to % n := v], from, to + 1, i);
      if 0 < i < n {
        RingIndex(buf, from, to, i);
        ModDistinct(from, i, n);
      }
    }
  }

  /** Writing the slot of cursor `to` behind a window of at most a lap: an
      append when the window does not fill the buffer, an overwrite of its
      oldest slot when it does. */
  lemma RingWrite<T>(buf: seq<T>, from: nat, to: nat, v: T)
    requires |buf| > 0 && from <= to <= from + |buf|
    ensures RingItems(buf[to % |buf| := v], from, to + 1)
         == if to - from < |buf| then RingItems(buf, from, to) + [v]
            else [v] + RingItems(buf, from, to)[1..] + [v]
  {
    if to - from < |buf| {
      RingPush(buf, from, to, v);
    } else {
      RingOverwrite(buf, from, to, v);
    }
  }

  /** Rewriting the slot of cursor `from` of a window of at most a lap leaves
      the rest of the window as it was. */
  lemma RingRest<T>(buf: seq<T>, from: nat, to: nat, x: T)
    requires |buf| > 0 && from < to <= from + |buf|
    ensures RingItems(buf[from % |buf| := x], from + 1, to) == RingItems(buf, from + 1, to)
  {
    var n := |buf|;
    var after := RingItems(buf[from % n := x], from + 1, to);
    var before := RingItems(buf, from + 1, to);
    forall i | 0 <= i < to - from - 1
      ensures after[i] == before[i]
    {
      RingIndex(buf[from % n := x], from + 1, to, i);
      RingIndex(buf, from + 1, to, i);
      ModDistinct(from, i + 1, n);
    }
  }
}
