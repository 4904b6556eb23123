# hope-threading / jerk-thread core, modelled in Dafny

This project models the sequential core of the `hope-threading` (`jerk-thread`) C++ library and proves properties of the model. The core is:

- the sharded, resizable hash storage engine `jt::hash_storage` (a fixed array of `BucketsCount` buckets, each a vector of collision chains) and its two key policies, `map_traits` (`hash_map`) and `set_traits` (`hash_set`);
- the bounded ring-buffer queues `spsc_bounded_queue` and `mpsc_bounded_queue`;
- the lock words of `spinlock`, `rw_spinlock`, `recursive_spinlock` and `recursive_rw_spinlock`;
- the bit-packed `tagged_ptr`;
- the singly linked stack `linked_list`.

Everything is viewed one call at a time, on one thread.

- **Data structures.** Each one whose C++ methods update fields in place is a Dafny `class`, and its methods carry `modifies` clauses.
  - The queues keep their slots in `array`s.
  - The hash storage keeps its buckets as a `seq` of `LockableBucket` values, each a `seq` of chains.
  - The linked list is a chain of heap `Node` objects.
- **Abstract state.** Each class names it in ghost fields or functions, and its methods tie the new state to the old:
  - the queues: the items enqueued and dequeued so far;
  - the hash storage: the multiset of stored values, `Contents()`;
  - the linked list: the sequence of values from the head, `contents`.
- **The hash function** is an abstract parameter `hasher: K -> nat`.
- **The key policy (`TKeyTraits`)** is a datatype of functions (`KeyPolicy`), with a `Lawful` predicate.

Modules: `Bits` (powers of two, bitwise AND on naturals), `Optional`, `Ring` (the unread window of a ring buffer), `SpscQueue`, `MpscQueue`, `HashStorage`, `HashMap`, `HashSet`, `Spinlock`, `RecursiveRwSpinlock`, `TaggedPointer` and `LinkedList`.

### What is proved

- **Hash storage.** Every operation keeps the storage invariant (`HashStorage.Invariant`):
  - every value sits in bucket `hash % BucketsCount` and chain `hash % chains`;
  - keys are unique;
  - `size` counts the stored values;
  - `capacity == BucketsCount * chains`.

  Each operation is also tied to an abstract effect on the stored multiset: `AfterEmplace`, `AfterRemove` or a lookup (`LookupIn`). Resize keeps every bucket's values, and the copy loop's retry ends on its first pass.
- **Queues.** Both are FIFO queues for as long as no enqueue overwrites an unread slot. The as-written capacity tests are modelled next to corrected ones.
- **Locks.** Each lock method's effect on the lock word is stated exactly, and N acquisitions of a recursive lock need N releases.
- **Tagged pointer.** Tag and pointer round-trip through the packed word.
- **Linked list.** It behaves as a LIFO stack.

## Model

Source paths are relative to the repository root.

| member | source | states |
|---|---|---|
| Bits.PowerOfTwoTestCorrect | lib/hope_thread/containers/queue/spsc_bounded_queue.h:26 | for a positive n, the test `n & (n - 1) == 0` holds exactly when n is a power of two |
| Bits.AndLowMask | lib/hope_thread/containers/queue/mpsc_bounded_queue.h:41 | masking with `2^k - 1` keeps the low k bits: `i & (2^k - 1) == i % 2^k` |
| Bits.MaskIsModulo | lib/hope_thread/containers/queue/spsc_bounded_queue.h:24-27 | for a size passing the power-of-two test, `i & (size - 1) == i % size`, so the masked cursor is the ring slot |
| Bits.StaticCheckAdmitsZero | lib/jerk-thread/containers/hashmap/hash_storage.h:38 | the bucket-count check as written, with `n - 1` in 64-bit unsigned arithmetic, accepts 0, which is not a power of two |
| Bits.ValidBucketCountCorrect | lib/jerk-thread/containers/hashmap/hash_storage.h:38 | the corrected check (positive and `n & (n - 1) == 0`) accepts exactly the powers of two |
| Ring.RingPush | lib/hope_thread/containers/queue/spsc_bounded_queue.h:38-41 | writing the slot of cursor `head` behind a window that does not fill the buffer appends the value to the window |
| Ring.RingOverwrite | lib/hope_thread/containers/queue/spsc_bounded_queue.h:35-41 | writing the slot of cursor `head` behind a full window overwrites its oldest item: the window then reads the new value first and last |
| Ring.RingRest | lib/hope_thread/containers/queue/spsc_bounded_queue.h:51-54 | rewriting the slot of cursor `tail` leaves the rest of the window unchanged |
| SpscQueue.SpscQueue.constructor | lib/hope_thread/containers/queue/spsc_bounded_queue.h:23-28 | requires the size to exceed 1 and be a power of two; sets `mask = size - 1`; every slot holds `T{}`; both cursors start at 0 and the queue is empty |
| SpscQueue.SpscQueue.TryEnqueue | lib/hope_thread/containers/queue/spsc_bounded_queue.h:31-43 | refuses, changing nothing, exactly when `head - tail > buffer_size`; otherwise writes slot `head % size`, advances head and keeps tail; the unread window grows by v, or at exactly `buffer_size` unread items its oldest item is overwritten |
| SpscQueue.SpscQueue.TryEnqueueBounded | lib/hope_thread/containers/queue/spsc_bounded_queue.h:31-43 | with the test corrected to `>=`: refuses exactly when full, and otherwise appends v behind the unread items |
| SpscQueue.SpscQueue.TryDequeue | lib/hope_thread/containers/queue/spsc_bounded_queue.h:45-56 | refuses, changing nothing, exactly when `head == tail`; otherwise hands out slot `tail % size`, which is the oldest unread item, advances tail and keeps head |
| SpscQueue.DrainBounded | lib/hope_thread/containers/queue/spsc_bounded_queue.h:31-56 | FIFO: offering xs to an empty queue using the corrected test, then draining it, hands back exactly the first `buffer_size` items of xs in order |
| SpscQueue.OverrunExample | lib/hope_thread/containers/queue/spsc_bounded_queue.h:35-41 | as written, a queue of two slots accepts three items, and the first item handed out is the third one |
| MpscQueue.RaiseNext | lib/hope_thread/containers/queue/mpsc_bounded_queue.h:44 | raising the flag of the claimed slot behind a fully ready window keeps the longer window fully ready |
| MpscQueue.LowerFirst | lib/hope_thread/containers/queue/mpsc_bounded_queue.h:57-59 | lowering the flag of slot `tail` keeps the rest of a fully ready window fully ready |
| MpscQueue.WriteClaimed | lib/hope_thread/containers/queue/mpsc_bounded_queue.h:41-44 | a producer's write and flag raise on the claimed slot change the window of values and flags as a ring write does |
| MpscQueue.MpscQueue.constructor | lib/hope_thread/containers/queue/mpsc_bounded_queue.h:24-28 | requires `Size > 1` and a power of two; sets `mask = Size - 1`; slots keep their indeterminate initial values and flags; the queue is empty |
| MpscQueue.MpscQueue.TryEnqueue | lib/hope_thread/containers/queue/mpsc_bounded_queue.h:31-46 | as written, never refuses: the claim succeeds, v goes to slot `head % Size`, that slot is marked ready and head advances; at `Size` unread items the oldest one is overwritten |
| MpscQueue.MpscQueue.TryEnqueueBounded | lib/hope_thread/containers/queue/mpsc_bounded_queue.h:31-46 | with the capacity test comparing head to tail: refuses exactly when `Size` items are unread, and otherwise appends v and marks its slot ready |
| MpscQueue.MpscQueue.TryDequeue | lib/hope_thread/containers/queue/mpsc_bounded_queue.h:48-61 | refuses, changing nothing, exactly when `head == tail` or slot `tail % Size` is not ready; otherwise hands out that slot's value, lowers its flag and advances tail; without an overrun it refuses only when empty, and hands out the oldest item |
| MpscQueue.Fill | lib/hope_thread/containers/queue/mpsc_bounded_queue.h:31-46 | offering xs to an empty queue using the corrected test enqueues exactly the first `Size` items |
| MpscQueue.Drain | lib/hope_thread/containers/queue/mpsc_bounded_queue.h:48-61 | dequeuing until refused hands back everything enqueued, in order, whatever the slots' initial flags were |
| MpscQueue.DrainBounded | lib/hope_thread/containers/queue/mpsc_bounded_queue.h:24-61 | FIFO: the first `Size` items offered come back in order |
| MpscQueue.OverrunExample | lib/hope_thread/containers/queue/mpsc_bounded_queue.h:34-61 | as written, a queue of two slots accepts three items, hands out the third and then the second, and then refuses although one item is still counted between tail and head |
| HashStorage.FindPos | lib/jerk-thread/containers/hashmap/hash_storage.h:70-73 | `find_if` on a chain: the first position whose key equals k, and none exactly when no value of the chain has key k |
| HashStorage.FindLocked | lib/jerk-thread/containers/hashmap/hash_storage.h:147-154 | a value with key k from chain `hash % chains`, or none exactly when that chain holds no value with key k |
| HashStorage.RemoveMatching | lib/jerk-thread/containers/hashmap/hash_storage.h:116-118 | `remove_if` on a chain drops every copy of x and nothing else; a chain without x is unchanged |
| HashStorage.RemoveMatchingAppend | lib/jerk-thread/containers/hashmap/hash_storage.h:116-118 | `remove_if` keeps the retained values in order: filtering a concatenation is the concatenation of the filtered parts |
| HashStorage.ElementInHomeChain | lib/jerk-thread/containers/hashmap/hash_storage.h:63-68 | in a placed table, a value is stored exactly when the home chain of its key (bucket `hash % BucketsCount`, chain `hash % chains`) holds it |
| HashStorage.FoundIsLookup | lib/jerk-thread/containers/hashmap/hash_storage.h:101-107 | in a placed table with unique keys, scanning the home chain finds exactly the stored value with key k, if any |
| HashStorage.EmplaceSpec | lib/jerk-thread/containers/hashmap/hash_storage.h:75-81 | the abstract `emplace` keeps keys unique and grows the store by one exactly when the key was absent; afterwards the key maps to the built or merged value; values with other keys stay |
| HashStorage.RemoveSpec | lib/jerk-thread/containers/hashmap/hash_storage.h:110-122 | the abstract `remove` keeps keys unique and shrinks the store by one exactly when x was stored; afterwards x's key is absent; a second remove changes nothing |
| HashStorage.EmplaceMerge | lib/jerk-thread/containers/hashmap/hash_storage.h:75-77 | merging into the found value keeps the table placed and exchanges that value for the merged one |
| HashStorage.EmplaceInsert | lib/jerk-thread/containers/hashmap/hash_storage.h:78-81 | prepending a new value to the home chain of an absent key keeps the table placed and adds exactly that value |
| HashStorage.RemoveOnChain | lib/jerk-thread/containers/hashmap/hash_storage.h:114-121 | filtering x out of its home chain keeps the table placed and removes x; the chain shrinks exactly when x was stored |
| HashStorage.EmplaceStep | lib/jerk-thread/containers/hashmap/hash_storage.h:66-83 | one `emplace` on the home chain keeps the storage invariant; the stored multiset becomes `AfterEmplace`; the result is true exactly when the key was absent |
| HashStorage.RemoveStep | lib/jerk-thread/containers/hashmap/hash_storage.h:113-121 | one `remove` on the home chain keeps the invariant; the stored multiset becomes `AfterRemove`; size drops exactly when x was stored |
| HashStorage.RefileChains | lib/jerk-thread/containers/hashmap/hash_storage.h:173-186 | the copy phase produces `bucket_capacity` chains, each value in chain `hash % bucket_capacity`, holding exactly the bucket's values |
| HashStorage.RefileChain | lib/jerk-thread/containers/hashmap/hash_storage.h:181-185 | pushing one old chain's values to the front of their new home chains keeps the new chains placed and adds exactly that chain's values |
| HashStorage.RefiledPlaced | lib/jerk-thread/containers/hashmap/hash_storage.h:180-186 | re-filed chains holding a placed bucket's values are placed in that bucket |
| HashStorage.ResizeStep | lib/jerk-thread/containers/hashmap/hash_storage.h:166-201 | re-filing every bucket into `chains` chains keeps the invariant with capacity `BucketsCount * chains`, and keeps the stored multiset |
| HashStorage.GrowthArithmetic | lib/jerk-thread/containers/hashmap/hash_storage.h:166 | when a resize is due, `capacity * ResizeFactor / BucketsCount` is the old chain count times `ResizeFactor`, and at least 1 |
| HashStorage.HashStorage.constructor | lib/jerk-thread/containers/hashmap/hash_storage.h:54-57 | every bucket starts with one empty chain and its dirty flag set; size 0, capacity `BucketsCount`, nothing stored; the invariant holds |
| HashStorage.HashStorage.EmplaceLocked | lib/jerk-thread/containers/hashmap/hash_storage.h:61-83 | keeps the invariant; the result is true exactly when the key was absent; the stored multiset becomes `AfterEmplace`; size grows by one exactly for a new value; only the home bucket changes, and it becomes dirty |
| HashStorage.HashStorage.Emplace | lib/jerk-thread/containers/hashmap/hash_storage.h:59-88 | as `EmplaceLocked`, then a resize: capacity grows by `ResizeFactor` exactly when `size * ResizeFactor` reached it |
| HashStorage.HashStorage.Obtain | lib/jerk-thread/containers/hashmap/hash_storage.h:90-99 | true exactly when a value with the argument's key is stored, and then the argument is refreshed from it through `assign_value`; otherwise the argument is unchanged; the storage does not change |
| HashStorage.HashStorage.Find | lib/jerk-thread/containers/hashmap/hash_storage.h:101-107 | the stored value with key k, or none exactly when k is absent; the storage does not change |
| HashStorage.HashStorage.Remove | lib/jerk-thread/containers/hashmap/hash_storage.h:109-122 | keeps the invariant; every copy of x leaves the store; size drops by one exactly when x was stored; only the home bucket changes, and it becomes dirty |
| HashStorage.HashStorage.Size | lib/jerk-thread/containers/hashmap/hash_storage.h:142 | the number of stored values |
| HashStorage.HashStorage.Capacity | lib/jerk-thread/containers/hashmap/hash_storage.h:143 | `BucketsCount` times the current number of chains per bucket |
| HashStorage.HashStorage.CopyBuckets | lib/jerk-thread/containers/hashmap/hash_storage.h:167-199 | every bucket is re-filed into `bucket_capacity` clean, placed chains holding its old values; the retry loop of each bucket ends on its first pass |
| HashStorage.HashStorage.Resize | lib/jerk-thread/containers/hashmap/hash_storage.h:156-203 | keeps the invariant, size and stored multiset. When due (`!resizing` and `size * ResizeFactor >= capacity`), capacity and the chain count are multiplied by `ResizeFactor` and every bucket keeps its values. Otherwise nothing changes |
| HashMap.MapPolicy | lib/jerk-thread/containers/hashmap/hash_map.h:48-68 | `map_traits`: the key of a pair is its `key` field, and of an argument pack its first argument; a built pair holds `TValue(args...)`; renewing replaces only the value; refreshing copies only `rhs.value` |
| HashMap.MapPolicyLawful | lib/jerk-thread/containers/hashmap/hash_map.h:51-67 | a built pair carries its arguments' key, and renewing never changes a key |
| HashMap.MapEmplace | lib/jerk-thread/containers/hashmap/hash_map.h:81-84 | after `emplace(k, args...)` the key k holds `TValue(args...)`, and every other key keeps its value |
| HashMap.HashMap.constructor | lib/jerk-thread/containers/hashmap/hash_map.h:70-79 | the default instantiation: a storage of 8 buckets with resize factor 2 and capacity 8, holding no key |
| HashMap.HashMap.Emplace | lib/jerk-thread/containers/hashmap/hash_map.h:81-84 | true exactly when k was absent; afterwards k holds `TValue(args...)`, and every other key is unchanged |
| HashMap.HashMap.Obtain | lib/jerk-thread/containers/hashmap/hash_map.h:86-92 | true exactly when k is present, and then v becomes the stored value; otherwise v is left as it was |
| HashMap.HashMap.Get | lib/jerk-thread/containers/hashmap/hash_map.h:94-101 | the stored value of k, or an empty optional exactly when k is absent |
| HashMap.LolTest | test/hash_storage.cpp:110-120 | after `emplace("lol", "a", " ", "-")`, obtaining "lol" gives `a == "a"`, and `get("lol")` holds `dumb("a", " ", "-")` |
| HashSet.SetPolicy | lib/hope_thread/containers/hashmap/hash_set.h:19-27 | `set_traits`: the key of a value is the value itself, and both `assign_value` overloads leave their target unchanged |
| HashSet.SetPolicyLawful | lib/hope_thread/containers/hashmap/hash_set.h:21-26 | the set policy meets what the storage engine needs of a key policy |
| HashSet.SetLookup | lib/hope_thread/containers/hashmap/hash_set.h:24-26 | with the identity key, looking up k finds k exactly when k is stored |
| HashSet.SetEmplace | lib/hope_thread/containers/hashmap/hash_set.h:21-22 | emplacing a present x leaves the store unchanged; an absent x is added |
| HashSet.NewHashSet | lib/hope_thread/containers/hashmap/hash_set.h:29-39 | the default `hash_set`: set policy, 8 buckets, resize factor 2, empty, capacity 8 |
| HashSet.Emplace | lib/hope_thread/containers/hashmap/hash_set.h:38-39 | true exactly when x was absent; then x is added and size grows by one; otherwise nothing is stored anew |
| HashSet.Find | lib/hope_thread/containers/hashmap/hash_set.h:38-39 | found exactly when k is stored |
| HashSet.AddFind | test/hash_storage.cpp:41-57 | after emplacing `0 .. n-1`, exactly those values are stored, each is found, and `size() == n` |
| HashSet.AddRemove | test/hash_storage.cpp:59-77 | after emplacing and then removing every value of `0 .. n-1`, nothing is stored and `size() == 0` |
| Spinlock.Spinlock.constructor | lib/hope_thread/synchronization/spinlock.h:49 | a new lock is free |
| Spinlock.Spinlock.Lock | lib/hope_thread/synchronization/spinlock.h:25-35 | on a free lock, the lock becomes held |
| Spinlock.Spinlock.TryLock | lib/hope_thread/synchronization/spinlock.h:37-42 | true exactly when the lock was free; afterwards it is held (a held lock is unchanged) |
| Spinlock.Spinlock.Unlock | lib/hope_thread/synchronization/spinlock.h:44-46 | the lock becomes free |
| Spinlock.ReaderEntry | lib/hope_thread/synchronization/spinlock.h:68 | a reader's increment leaves the writer bits `0xfff00000` clear exactly when there was no writer and the reader count was not full, or when the word was all ones; from a writer-free word it adds one reader |
| Spinlock.WriterEntry | lib/hope_thread/synchronization/spinlock.h:89 | adding `0x100000` yields exactly `0x100000` only from the zero word; that word is one writer and no reader |
| Spinlock.RwSpinlock.constructor | lib/hope_thread/synchronization/spinlock.h:110 | the word starts at 0 |
| Spinlock.RwSpinlock.TryLockSharedOnce | lib/hope_thread/synchronization/spinlock.h:66-73 | one pass of `lock_shared`: when the incremented word has no writer bit, it is kept; otherwise the increment is undone |
| Spinlock.RwSpinlock.LockShared | lib/hope_thread/synchronization/spinlock.h:65-79 | when no writer is present, adds one to the word (modulo 2^32) |
| Spinlock.RwSpinlock.UnlockShared | lib/hope_thread/synchronization/spinlock.h:81-83 | subtracts one from the word (modulo 2^32) |
| Spinlock.RwSpinlock.TryLockOnce | lib/hope_thread/synchronization/spinlock.h:86-94 | one pass of `lock`: succeeds exactly on the zero word, leaving `0x100000`; otherwise the addition is undone |
| Spinlock.RwSpinlock.Lock | lib/hope_thread/synchronization/spinlock.h:85-100 | on the zero word, leaves it at `0x100000` |
| Spinlock.RwSpinlock.Unlock | lib/hope_thread/synchronization/spinlock.h:102-104 | subtracts `0x100000` (modulo 2^32) |
| Spinlock.RwExclusion | lib/hope_thread/synchronization/spinlock.h:65-104 | a writer's attempt fails while readers are inside, and succeeds once they leave; a reader's attempt fails while the writer holds the lock; unlocking leaves the word at 0 |
| Spinlock.RecursiveSpinlock.constructor | lib/hope_thread/synchronization/spinlock.h:175-176 | free, at depth 0 |
| Spinlock.RecursiveSpinlock.Lock | lib/hope_thread/synchronization/spinlock.h:119-141 | by the owner, only deepens the recursion by one; on a free lock, the caller becomes the owner at depth 1 |
| Spinlock.RecursiveSpinlock.TryLock | lib/hope_thread/synchronization/spinlock.h:143-163 | true exactly for the owner or on a free lock, and then the caller owns it one level deeper; when another thread owns it, false with nothing changed |
| Spinlock.RecursiveSpinlock.Unlock | lib/hope_thread/synchronization/spinlock.h:165-172 | one level shallower; the owner is freed exactly when the depth reaches 0 |
| Spinlock.RecursiveRelease | lib/hope_thread/synchronization/spinlock.h:119-172 | after n locks and n - 1 unlocks another thread is still refused; after the n-th unlock it is granted |
| RecursiveRwSpinlock.HeldBy | lib/hope_thread/synchronization/spinlock.h:224-228 | the word `(t << 32) + 0x100000` names t as owner, with one writer and no reader |
| RecursiveRwSpinlock.ReadersOnly | lib/hope_thread/synchronization/spinlock.h:263-269 | a word within the reader bits names no owner and holds no writer |
| RecursiveRwSpinlock.RecursiveRwSpinlock.constructor | lib/hope_thread/synchronization/spinlock.h:271-272 | word 0, depth 0 |
| RecursiveRwSpinlock.RecursiveRwSpinlock.CheckMeansOwner | lib/hope_thread/synchronization/spinlock.h:255-261 | `check_for_recursion` holds exactly for the thread owning the write lock, and so only at a positive depth |
| RecursiveRwSpinlock.RecursiveRwSpinlock.TryLockSharedOnce | lib/hope_thread/synchronization/spinlock.h:194-202 | one pass of `lock_shared`: the increment is kept exactly when it leaves the writer bits clear, and undone otherwise |
| RecursiveRwSpinlock.RecursiveRwSpinlock.LockShared | lib/hope_thread/synchronization/spinlock.h:188-209 | a no-op for the owning writer; otherwise adds one reader |
| RecursiveRwSpinlock.RecursiveRwSpinlock.UnlockShared | lib/hope_thread/synchronization/spinlock.h:211-215 | a no-op while a write lock is held; otherwise removes one reader |
| RecursiveRwSpinlock.RecursiveRwSpinlock.TryLockOnce | lib/hope_thread/synchronization/spinlock.h:222-236 | one pass of `lock`: succeeds exactly on word 0, leaving `(t << 32) + 0x100000` at depth 1; otherwise nothing changes |
| RecursiveRwSpinlock.RecursiveRwSpinlock.Lock | lib/hope_thread/synchronization/spinlock.h:217-242 | by the owner, only deepens the recursion; on word 0, t becomes the owner at depth 1 |
| RecursiveRwSpinlock.RecursiveRwSpinlock.Unlock | lib/hope_thread/synchronization/spinlock.h:244-252 | one level shallower; at depth 0 the id and the writer bit are both subtracted, leaving the word at 0 |
| RecursiveRwSpinlock.RecursiveRwSession | lib/hope_thread/synchronization/spinlock.h:188-252 | n re-entrant locks need n unlocks: the owner's shared lock is a no-op; other readers are refused until the n-th unlock and admitted afterwards |
| TaggedPointer.TagMaskWidth | lib/hope_thread/core/tagged_pointer.h:19-20 | `TagMask == (1 << 26) - 1` |
| TaggedPointer.PackRoundTrip | lib/hope_thread/core/tagged_pointer.h:22-40 | packing a tag below 2^26 with a pointer below 2^38 loses neither |
| TaggedPointer.Unpack | lib/hope_thread/core/tagged_pointer.h:22-28 | every word is the packing of its own tag and pointer |
| TaggedPointer.TaggedPtr.constructor | lib/hope_thread/core/tagged_pointer.h:42 | the word starts at 0, so tag and pointer read as 0 |
| TaggedPointer.TaggedPtr.GetPtr | lib/hope_thread/core/tagged_pointer.h:22-24 | the bits above the tag: below 2^38, and together with the tag they rebuild the word |
| TaggedPointer.TaggedPtr.GetTag | lib/hope_thread/core/tagged_pointer.h:26-28 | the low 26 bits: below 2^26, and together with the pointer bits they rebuild the word |
| TaggedPointer.TaggedPtr.SetPtr | lib/hope_thread/core/tagged_pointer.h:30-32 | keeps the tag; the pointer reads back as p truncated to 38 bits |
| TaggedPointer.TaggedPtr.SetTag | lib/hope_thread/core/tagged_pointer.h:34-36 | for a tag below 2^26, the tag reads back and the pointer is kept |
| TaggedPointer.TaggedPtr.SetAll | lib/hope_thread/core/tagged_pointer.h:38-40 | within range, tag and pointer both read back as set |
| LinkedList.Node.constructor | lib/hope_thread/containers/list/linked_list.h:41-44 | a node holds its value and its next link |
| LinkedList.LinkedList.constructor | lib/hope_thread/containers/list/linked_list.h:19 | the list starts empty (`head` null, `linked_list.h:46`), and popping an empty list yields the given `T{}` |
| LinkedList.LinkedList.PushHead | lib/hope_thread/containers/list/linked_list.h:21-25 | a fresh node holding v becomes the head, linked to the old head: the contents become `[v] + old` |
| LinkedList.LinkedList.PopHead | lib/hope_thread/containers/list/linked_list.h:27-37 | on an empty list, returns `T{}` and the list stays empty; otherwise returns the head's value, and the contents lose exactly their first item |
| LinkedList.LinkedList.PopHeadAsWritten | lib/hope_thread/containers/list/linked_list.h:27-37 | the same unlinking, but the result is the unlinked node itself: null on an empty list, and otherwise the old head, which is not null |
| LinkedList.Lifo | lib/hope_thread/containers/list/linked_list.h:21-37 | LIFO: pushing every item of xs and then popping as many returns xs reversed |
| LinkedList.PopReturnsNode | lib/hope_thread/containers/list/linked_list.h:34-36 | with `T = bool`, popping a pushed `false` as written yields `true` |

## Left out

- Concurrency is not modelled. This covers atomics and their memory orders, fences, volatile loads, padding, and the claim that a concurrent resize does not lose writes. Every operation runs to completion before the next one starts.
- Bucket locks and the RAII lock guards are not modelled. `lock_bucket`/`unlock_bucket` (`hash_storage.h:124-140`) are left out: they name a nonexistent `m_hash` and call members that `lockable_bucket` lacks, so they are never instantiated.
- The hash function is an abstract parameter, and `TEqual` is Dafny equality.
- The hash storage of `hope_thread` (`lib/hope_thread/containers/hashmap/hash_storage.h`) is not part of this model. `HashSet` instantiates the `jt::hash_storage` modelled here, which has the same template parameter order. The tests use the `hope_thread` `hash_map` and `hash_set`; they are modelled on the `jt` ones.
- HashMap.HashMap.constructor: the map is modelled only at its default template arguments (`BucketsCount = 8`, `ResizeFactor = 2`, `hash_map.h:76-77`), and the lock type is not modelled.
- HashMap.LolTest: the model passes the key by value. In the C++, `emplace("lol", ...)` binds `extract_key`'s `const TKey&` parameter to a temporary `std::string` (`hash_map.h:64-66`), and `hash_storage.h:61` keeps the returned reference. The later hash and comparisons (`hash_storage.h:62, 72`) then read through a dangling reference. This is an observation, not executed. The test itself uses the `hope_thread` `hash_map`, whose source is not part of this model.
- `hash_map::remove` (`hash_map.h:103-105`) is not modelled. It forwards a `TKey` to `hash_storage::remove`, whose equality test compares a stored `key_value` with the `TKey` (`hash_storage.h:117`). That does not compile for a map.
- HashStorage.HashStorage.Remove: the home chain is chosen by the hash of the value's key. The source hashes the argument itself (`hash_storage.h:111`). For `hash_set`, the only instantiation where `remove` compiles, the two are the same.
- HashStorage.HashStorage.Emplace: the argument pack is one value of type A, and the policy's `construct` plays `emplace_front(args...)`. Perfect forwarding and moved-from arguments are not modelled.
- HashStorage.HashStorage.Resize: the compare-exchange on `m_resizing` is modelled as succeeding. Run alone, the flag is always clear at that point.
- HashStorage.HashStorage.constructor: `m_resizing` (`hash_storage.h:205`) has no initialiser; before C++20 its initial value is indeterminate. The model starts it at false.
- HashStorage.HashStorage.CopyBuckets: the dirty flag is cleared before each copy, and the copy is swapped in when the flag is still clear. Run alone, that happens on the first pass, so another writer's interleaving is not modelled.
- HashStorage.HashStorage.constructor: it requires a lawful key policy and a positive power-of-two bucket count; see Findings for the zero the C++ check admits.
- `size_t` wrap-around is not modelled. Queue cursors, `m_size`, `m_capacity` and `capacity * ResizeFactor` are unbounded naturals.
- SpscQueue.SpscQueue.TryEnqueue: the cursors never wrap past 2^64.
- SpscQueue.SpscQueue.TryDequeue: `std::move` out of the slot (`spsc_bounded_queue.h:52`) leaves it moved-from; the model keeps the slot's value. The difference shows only after an overrun, when the same slot is read a second time, and only for a type whose move is not a copy.
- MpscQueue.MpscQueue.TryEnqueue: the claim loop's compare-exchange succeeds on its first pass, since it runs alone.
- MpscQueue.MpscQueue.constructor: the node array of `Size` slots is modelled as two parallel arrays, one of values and one of `ready` flags. Their initial, indeterminate contents are constructor parameters.
- Spinlock.Spinlock.Lock: the `for (;;)` retry is modelled by one successful attempt, so it requires a free lock. On one thread, the wait after a failed attempt never ends.
- Spinlock.RwSpinlock.LockShared: requires its first pass to find no writer, as above; `TryLockSharedOnce` models one pass in full.
- Spinlock.RwSpinlock.Lock: requires the zero word, as above; `TryLockOnce` models one pass in full.
- Spinlock.RwSpinlock.UnlockShared: the `int32_t` word is modelled as its 32-bit pattern, so a signed overflow wraps modulo 2^32. The masks `0xfff00000` and `0xfffff` are modelled as division and remainder by 2^20.
- Spinlock.RecursiveSpinlock.Lock: requires the caller to own the lock or the lock to be free, as for the other blocking locks.
- Spinlock.RecursiveSpinlock.Unlock: requires a positive depth and the caller to own the lock at depth 1. An unmatched `unlock` would wrap the `size_t` depth, and the source asserts ownership.
- RecursiveRwSpinlock.RecursiveRwSpinlock.LockShared: requires the owner's no-op or a first pass that finds no writer.
- RecursiveRwSpinlock.RecursiveRwSpinlock.Lock: requires the owner's re-entry or word 0.
- RecursiveRwSpinlock.RecursiveRwSpinlock.Unlock: requires a positive depth and the caller to be the owner. An unmatched `unlock` would wrap the depth.
- RecursiveRwSpinlock.RecursiveRwSpinlock.UnlockShared: requires a reader to be inside when no write lock is held. An unmatched `unlock_shared` would wrap the word below 0.
- Thread ids (`get_thread_id`) are a nonzero 32-bit parameter.
- TaggedPointer.TaggedPtr.GetPtr: `get_ptr` and `get_tag` read a misspelt field `Ptr` (`tagged_pointer.h:23, 27`); the model reads `ptr`. `TPtr` is modelled as a 64-bit integer.
- LinkedList.LinkedList.constructor: as written, `linked_list` has no usable constructor. `HOPE_THREADING_CONSTRUCTABLE_ONLY(linked_list)` (`linked_list.h:19`, `foundation.h:17-33`) declares deleted copy and move constructors, which suppresses the implicit default constructor. `head` is private (`linked_list.h:46`), so the class is not an aggregate either, and `linked_list<T> l;` is ill-formed. The spinlocks add `HOPE_THREADING_EXPLICIT_DEFAULT_CONSTRUCTABLE` after the same macro; `linked_list` does not. This is a source observation, not executed. The model supplies the evidently intended default constructor: it starts from an empty list, and the value type's `T{}` is a constructor parameter (`blank`).
- Node deletion (`delete node`) is not modelled, and neither is memory reclamation.
- These files are not part of this model:
  - `backoff.h`: timing only;
  - `threadpool.h`, `worker_thread.h`, `event.h`: OS threads and events;
  - `contention_free_rw_lock.h`: per-CPU concurrency, and ill-formed;
  - `object_safe_wrapper.h`: lock-forwarding proxies;
  - `stl_chunked_set.h`: wraps `std::unordered_set`;
  - the broken `jt` `hash_set.h` alias;
  - `thread_id.h` and `tls.h`: OS calls;
  - `lcsr.h`: compiler fences;
  - `foundation.h`: macros;
  - the samples.

## Findings

| source | as written | input that shows it | evidently intended | confidence | as-written member | corrected member |
|---|---|---|---|---|---|---|
| lib/jerk-thread/containers/hashmap/hash_storage.h:38 | `(BucketsCount & (BucketsCount - 1)) == 0` | `BucketsCount = 0` passes, then every `hash % BucketsCount` divides by zero | a positive power of two | not executed | Bits.StaticCheckAdmitsZero | Bits.ValidBucketCountCorrect |
| lib/hope_thread/containers/queue/spsc_bounded_queue.h:35 | `m_head - cur_tail > m_buffer_size` | buffer of 2: enqueue 1, 2, 3 are all accepted; the third overwrites the first, and dequeue yields 3 | `>=`: refuse a full queue | not executed | SpscQueue.OverrunExample | SpscQueue.SpscQueue.TryEnqueueBounded |
| lib/hope_thread/containers/queue/mpsc_bounded_queue.h:34 | `cur_head - m_head > m_buffer_size` (head compared with itself) | `Size = 2`: enqueue 1, 2, 3 are all accepted; dequeues yield 3 then 2; then the queue refuses while holding one counted item | `cur_head - m_tail >= m_buffer_size` | not executed | MpscQueue.OverrunExample | MpscQueue.MpscQueue.TryEnqueueBounded |
| lib/hope_thread/containers/list/linked_list.h:36 | `return node;` (the deleted node pointer, converted to `T`) | `T = bool`: push `false`, pop yields `true` | `return val;` | not executed | LinkedList.PopReturnsNode | LinkedList.LinkedList.PopHead |
