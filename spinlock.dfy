/** The lock words of `spinlock.h`, one call at a time on one thread. Every
    `for (;;)` retry loop is modelled by one pass of its body (an attempt that
    either acquires or undoes itself) and the blocking operation requires
    that first pass to succeed, since on one thread the wait that follows a
    failed pass never ends. Thread ids are nonzero 32-bit values. */
module Spinlock {
  type ThreadId = t: nat | 0 < t < 0x1_0000_0000 witness 1

  /** `spinlock`: one flag, set while held. */
  class Spinlock {
    var locked: bool    // m_lock

    constructor ()
      ensures !locked
    {
      locked := false;
    }

    /** `lock()`: the exchange finds the lock free on the first try. */
    method Lock()
      requires !locked
      modifies this
      ensures locked
    {
      locked := true;
    }

    /** `try_lock()`: a held lock is refused with nothing changed; a free one
        is taken. */
    method TryLock() returns (ok: bool)
      modifies this
      ensures ok <==> !old(locked)
      ensures locked
    {
      if locked {
        return false;
      }
      var was := locked;
      locked := true;
      ok := !was;
    }

    /** `unlock()` */
    method Unlock()
      modifies this
      ensures !locked
    {
      locked := false;
    }
  }

  /** `rw_spinlock`'s word, the bit pattern of an atomic `int32_t`: 12
      writer bits (`0xfff00000`) above 20 reader bits. Increments and
      decrements wrap modulo 2^32. */
  const Modulus32: nat := 0x1_0000_0000
  type Word32 = w: nat | w < Modulus32

  /** One writer: `0x100000`. */
  const WriterUnit: Word32 := 0x10_0000

  /** `w & 0xfff00000`, shifted down: the writer count. */
  function Writers(w: Word32): nat {
    w / 0x10_0000
  }

  /** `w & 0xfffff`: the reader count. */
  function Readers(w: Word32): nat {
    w % 0x10_0000
  }

  function Inc32(w: Word32): Word32 {
    (w + 1) % Modulus32
  }

  function Dec32(w: Word32): Word32 {
    (w - 1) % Modulus32
  }

  /** A reader's increment leaves the writer bits clear exactly when there
      is no writer and the reader count is not yet full, or when the word is
      all ones (-1 as `int32_t`) and wraps to 0; from a writer-free word it
      adds one reader and nothing else. */
  lemma ReaderEntry(w: Word32)
    ensures Writers(Inc32(w)) == 0 <==> (Writers(w) == 0 && Readers(w) < 0xf_ffff) || w == Modulus32 - 1
    ensures Writers(Inc32(w)) == 0 && Writers(w) == 0 ==> Readers(Inc32(w)) == Readers(w) + 1
  {
  }

  /** A writer's addition lands on exactly one writer and no reader only
      from the zero word. */
  lemma WriterEntry(w: Word32)
    ensures (w + WriterUnit) % Modulus32 == WriterUnit <==> w == 0
    ensures Writers(WriterUnit) == 1 && Readers(WriterUnit) == 0
  {
  }

  class RwSpinlock {
    var word: Word32    // m_lock

    constructor ()
      ensures word == 0
    {
      word := 0;
    }

    /** One pass of `lock_shared()`'s loop: increment, keep it when no writer
        bit is set, undo it otherwise. */
    method TryLockSharedOnce() returns (acquired: bool)
      modifies this
      ensures acquired <==> Writers(Inc32(old(word))) == 0
      ensures acquired ==> word == Inc32(old(word))
      ensures !acquired ==> word == old(word)
    {
      var incremented := Inc32(word);
      acquired := Writers(incremented) == 0;
      word := if acquired then incremented else Dec32(incremented);
    }

    /** `lock_shared()`, acquired on the first pass. */
    method LockShared()
      requires Writers(Inc32(word)) == 0
      modifies this
      ensures word == Inc32(old(word))
    {
      var acquired := TryLockSharedOnce();
    }

    /** `unlock_shared()` */
    method UnlockShared()
      modifies this
      ensures word == Dec32(old(word))
    {
      word := Dec32(word);
    }

    /** One pass of `lock()`'s loop: add a writer, keep it when the word then
        holds exactly that writer, undo it otherwise. */
    method TryLockOnce() returns (acquired: bool)
      modifies this
      ensures acquired <==> old(word) == 0
      ensures acquired ==> word == WriterUnit
      ensures !acquired ==> word == old(word)
    {
      var added := (word + WriterUnit) % Modulus32;
      acquired := added == WriterUnit;
      word := if acquired then added else (added - WriterUnit) % Modulus32;
    }

    /** `lock()`, acquired on the first pass: the word was 0. */
    method Lock()
      requires word == 0
      modifies this
      ensures word == WriterUnit
    {
      var acquired := TryLockOnce();
    }

    /** `unlock()` */
    method Unlock()
      modifies this
      ensures word == (old(word) - WriterUnit) % Modulus32
    {
      word := (word - WriterUnit) % Modulus32;
    }
  }

  /** Readers and a writer exclude each other: with two readers inside, a
      writer's attempt fails and changes nothing; once both have left it
      succeeds; while it holds the lock a reader's attempt fails; after its
      unlock the word is 0 again. */
  method RwExclusion() returns (writerAmongReaders: bool, writerAlone: bool, readerWhileWriting: bool, last: Word32)
    ensures !writerAmongReaders && writerAlone && !readerWhileWriting
    ensures last == 0
  {
    var l := new RwSpinlock();
    l.LockShared();
    l.LockShared();
    writerAmongReaders := l.TryLockOnce();
    l.UnlockShared();
    l.UnlockShared();
    writerAlone := l.TryLockOnce();
    readerWhileWriting := l.TryLockSharedOnce();
    l.Unlock();
    last := l.word;
  }

  /** `recursive_spinlock::Free` */
  const Free: nat := 0

  /** `recursive_spinlock`: the owner's id (`Free` when unowned) and the
      recursion depth. */
  class RecursiveSpinlock {
    var owner: nat         // m_owner_id
    var recursion: nat     // m_recursion

    /** The lock is owned exactly while the depth is positive. */
    ghost predicate Valid()
      reads this
    {
      owner == Free <==> recursion == 0
    }

    constructor ()
      ensures Valid() && owner == Free && recursion == 0
    {
      owner := Free;
      recursion := 0;
    }

    /** `lock()` by thread t: the owner only deepens the recursion; otherwise
        the compare-exchange against `Free` succeeds on the first try and t
        becomes the owner at depth 1. */
    method Lock(t: ThreadId)
      requires Valid() && (owner == t || owner == Free)
      modifies this
      ensures Valid() && owner == t
      ensures old(owner) == t ==> recursion == old(recursion) + 1
      ensures old(owner) == Free ==> recursion == 1
    {
      if owner == t {
        recursion := recursion + 1;
        return;
      }
      owner := t;
      assert recursion == 0;
      recursion := 1;
    }

    /** `try_lock()` by thread t: granted to the owner (one level deeper) and
        on a free lock (depth 1); refused with nothing changed when another
        thread owns it. */
    method TryLock(t: ThreadId) returns (ok: bool)
      requires Valid()
      modifies this
      ensures Valid()
      ensures ok <==> old(owner) == t || old(owner) == Free
      ensures ok ==> owner == t && recursion == old(recursion) + 1
      ensures !ok ==> owner == old(owner) && recursion == old(recursion)
    {
      var currentOwner := owner;
      if currentOwner == t {
        recursion := recursion + 1;
        return true;
      }
      var locked := currentOwner == Free;
      if locked {
        owner := t;
        assert recursion == 0;
        recursion := recursion + 1;
      }
      ok := locked;
    }

    /** `unlock()` by thread t: one level shallower; at depth 0, which only
        the owner may reach, the lock is freed. */
    method Unlock(t: ThreadId)
      requires Valid() && recursion > 0 && (recursion == 1 ==> owner == t)
      modifies this
      ensures Valid()
      ensures recursion == old(recursion) - 1
      ensures owner == if recursion == 0 then Free else old(owner)
    {
      recursion := recursion - 1;
      if recursion == 0 {
        assert owner == t;
        owner := Free;
      }
    }
  }

  /** n acquisitions need n releases: after t locks n times and unlocks
      n - 1 times, another thread's `try_lock` is still refused; after the
      n-th unlock it is granted. */
  method RecursiveRelease(t: ThreadId, u: ThreadId, n: nat) returns (beforeLast: bool, afterLast: bool)
    requires t != u && n > 0
    ensures !beforeLast && afterLast
  {
    var l := new RecursiveSpinlock();
    var i := 0;
    while i < n
      invariant i <= n && l.Valid()
      invariant l.recursion == i && (i > 0 ==> l.owner == t) && (i == 0 ==> l.owner == Free)
    {
      l.Lock(t);
      i := i + 1;
    }
    while i > 1
      invariant 1 <= i <= n && l.Valid() && l.recursion == i && l.owner == t
    {
      l.Unlock(t);
      i := i - 1;
    }
    beforeLast := l.TryLock(u);
    l.Unlock(t);
    afterLast := l.TryLock(u);
  }
}

/** `recursive_rw_spinlock`, one call at a time on one thread, as above. */
module RecursiveRwSpinlock {
  import opened Spinlock

  /** `recursive_rw_spinlock`'s word, an atomic `uint64_t`: the owning
      writer's id in the high 32 bits (`0xffffffff00000000`), then 12 writer
      bits (`0xfff00000`) and 20 reader bits (`0xfffff`). Arithmetic wraps
      modulo 2^64. */
  const Modulus64: nat := 0x1_0000_0000_0000_0000
  type Word64 = w: nat | w < Modulus64

  /** One writer: `0x100000`. */
  const ExclusiveUnit: nat := 0x10_0000

  /** `(w & 0xffffffff00000000) >> 32`: the owner id. */
  function OwnerOf(w: Word64): nat {
    w / 0x1_0000_0000
  }

  /** `w & 0xfff00000`, shifted down: the writer count. */
  function ExclusiveOf(w: Word64): nat {
    w / 0x10_0000 % 0x1000
  }

  /** `w & 0xfffff`: the reader count. */
  function SharedOf(w: Word64): nat {
    w % 0x10_0000
  }

  /** `(uint64_t)t << 32` */
  function IdBits(t: ThreadId): Word64 {
    t * 0x1_0000_0000
  }

  /** The word while thread t holds the write lock, `(t << 32) + 0x100000`:
      t's id above one writer and no reader. */
  function HeldBy(t: ThreadId): (w: Word64)
    ensures OwnerOf(w) == t && ExclusiveOf(w) == 1 && SharedOf(w) == 0
  {
    IdBits(t) + ExclusiveUnit
  }

  /** A word of readers only names no owner and holds no writer. */
  lemma ReadersOnly(w: Word64)
    requires w <= 0xf_ffff
    ensures OwnerOf(w) == 0 && ExclusiveOf(w) == 0 && SharedOf(w) == w
  {
  }

  class RecursiveRwSpinlock {
    var word: Word64      // m_lock
    var depth: nat        // m_write_recursion_depth
    /** The owning writer while `depth > 0`. */
    ghost var writer: ThreadId

    /** Without a writer the word holds only readers; with one it is exactly
        the writer's id above one writer bit. */
    ghost predicate Valid()
      reads this
    {
      && (depth == 0 ==> word <= 0xf_ffff)
      && (depth > 0 ==> word == HeldBy(writer))
    }

    constructor ()
      ensures Valid() && word == 0 && depth == 0
    {
      word := 0;
      depth := 0;
    }

    /** `check_for_recursion()` for thread t: the owner field names t. */
    predicate CheckForRecursion(t: ThreadId)
      reads this
    {
      OwnerOf(word) == t
    }

    /** Under `Valid`, the check holds exactly for the owning writer, so it
        only ever holds at a positive depth. */
    lemma CheckMeansOwner(t: ThreadId)
      requires Valid()
      ensures CheckForRecursion(t) <==> depth > 0 && writer == t
    {
      if depth == 0 {
        ReadersOnly(word);
      }
    }

    /** One pass of `lock_shared()`'s loop by a thread that is not the owner. */
    method TryLockSharedOnce() returns (acquired: bool)
      requires Valid()
      modifies this
      ensures Valid() && depth == old(depth) && writer == old(writer)
      ensures acquired <==> ExclusiveOf((old(word) + 1) % Modulus64) == 0
      ensures acquired ==> word == old(word) + 1
      ensures !acquired ==> word == old(word)
    {
      var incremented := (word + 1) % Modulus64;
      acquired := ExclusiveOf(incremented) == 0;
      word := if acquired then incremented else (incremented - 1) % Modulus64;
    }

    /** `lock_shared()` by thread t: nothing for the owning writer; otherwise
        a reader is added on the first pass. */
    method LockShared(t: ThreadId)
      requires Valid() && (CheckForRecursion(t) || ExclusiveOf((word + 1) % Modulus64) == 0)
      modifies this
      ensures Valid() && depth == old(depth)
      ensures old(CheckForRecursion(t)) ==> word == old(word)
      ensures !old(CheckForRecursion(t)) ==> word == old(word) + 1
    {
      CheckMeansOwner(t);
      if CheckForRecursion(t) {
        return;
      }
      var acquired := TryLockSharedOnce();
    }

    /** `unlock_shared()`: nothing while a write lock is held (the owner's
        shared locks were no-ops); otherwise one reader leaves. */
    method UnlockShared()
      requires Valid() && (depth > 0 || word != 0)
      modifies this
      ensures Valid() && depth == old(depth)
      ensures word == if depth == 0 then old(word) - 1 else old(word)
    {
      if depth == 0 {
        word := (word - 1) % Modulus64;
      }
    }

    /** One pass of `lock()`'s loop by a thread that is not the owner: add a
        writer; when the word then holds exactly that writer, add t's id and
        start at depth 1, otherwise undo. */
    method TryLockOnce(t: ThreadId) returns (acquired: bool)
      requires Valid() && !CheckForRecursion(t)
      modifies this
      ensures Valid()
      ensures acquired <==> old(word) == 0
      ensures acquired ==> word == HeldBy(t) && depth == 1
      ensures !acquired ==> word == old(word) && depth == old(depth)
    {
      var added := (word + ExclusiveUnit) % Modulus64;
      acquired := added == ExclusiveUnit;
      if acquired {
        var thisId := IdBits(t);
        assert SharedOf(thisId) == 0 && ExclusiveOf(thisId) == 0;
        word, depth, writer := (added + thisId) % Modulus64, 1, t;
      } else {
        word := (added - ExclusiveUnit) % Modulus64;
      }
    }

    /** `lock()` by thread t: the owner only deepens; otherwise the first pass
        finds the word at 0 and t becomes the owner at depth 1. */
    method Lock(t: ThreadId)
      requires Valid() && (CheckForRecursion(t) || word == 0)
      modifies this
      ensures Valid() && CheckForRecursion(t)
      ensures old(CheckForRecursion(t)) ==> word == old(word) && depth == old(depth) + 1
      ensures !old(CheckForRecursion(t)) ==> word == HeldBy(t) && depth == 1
    {
      if CheckForRecursion(t) {
        depth := depth + 1;
        return;
      }
      var acquired := TryLockOnce(t);
    }

    /** `unlock()` by the owner t: one level shallower; at depth 0 both t's id
        and the writer are taken off, which leaves the word at 0. */
    method Unlock(t: ThreadId)
      requires Valid() && depth > 0 && CheckForRecursion(t)
      modifies this
      ensures Valid()
      ensures depth == old(depth) - 1
      ensures depth > 0 ==> word == old(word)
      ensures depth == 0 ==> word == 0
    {
      CheckMeansOwner(t);
      depth := depth - 1;
      if depth == 0 {
        var thisId := IdBits(t);
        assert word - thisId == ExclusiveUnit;
        word := ((word - thisId) % Modulus64 - ExclusiveUnit) % Modulus64;
      }
    }
  }

  /** The writer t re-enters n times, takes and releases a shared lock
      without effect on the word, and locks out another thread's reader until
      its n-th unlock; the word is then 0 and the reader gets in. */
  method RecursiveRwSession(t: ThreadId, n: nat) returns (readerWhileHeld: bool, readerAfter: bool, owned: Word64)
    requires n > 0
    ensures owned == HeldBy(t)
    ensures !readerWhileHeld && readerAfter
  {
    var l := new RecursiveRwSpinlock();
    var i := 0;
    while i < n
      invariant i <= n && l.Valid() && l.depth == i
      invariant i == 0 ==> l.word == 0
      invariant i > 0 ==> l.word == HeldBy(t)
    {
      l.Lock(t);
      i := i + 1;
    }
    owned := l.word;
    l.LockShared(t);
    l.UnlockShared();
    readerWhileHeld := l.TryLockSharedOnce();
    while i > 0
      invariant i <= n && l.Valid() && l.depth == i
      invariant i == 0 ==> l.word == 0
      invariant i > 0 ==> l.word == HeldBy(t)
    {
      l.Unlock(t);
      i := i - 1;
    }
    readerAfter := l.TryLockSharedOnce();
  }
}
