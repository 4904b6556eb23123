/** The sharded, resizable hash storage engine (`jt::hash_storage`), run on one
    thread. A fixed number of buckets each hold a sequence of collision chains;
    a value lives in bucket `hash % BucketsCount` and, within it, in chain
    `hash % chains`. The engine is generic over a key policy (`TKeyTraits`)
    that extracts keys and merges a new value into an existing one, and over
    an abstract hash function. Locks are left out: every operation runs to
    completion before the next starts. */
module HashStorage {
  import opened Optional
  import opened Bits

  /** The key policy the engine is instantiated with (`TKeyTraits`):
      - keyOf: `extract_key` of a stored value;
      - keyOfArgs: `extract_key` of the arguments passed to `emplace`;
      - construct: the value `emplace_front` builds from those arguments;
      - renew: `assign_value(stored, args...)`, the merge into an existing value;
      - refresh: `assign_value(out, stored)`, the copy `obtain` makes. */
  datatype KeyPolicy<!V, K, !A> = KeyPolicy(
    keyOf: V -> K,
    keyOfArgs: A -> K,
    construct: A -> V,
    renew: (V, A) -> V,
    refresh: (V, V) -> V)

  /** What the engine needs of a policy: the value built from some arguments
      carries the key of those arguments, and a merge never changes a key. */
  ghost predicate Lawful<V(!new), K, A(!new)>(p: KeyPolicy<V, K, A>) {
    && (forall a :: p.keyOf(p.construct(a)) == p.keyOfArgs(a))
    && (forall v, a :: p.keyOf(p.renew(v, a)) == p.keyOf(v))
  }

  /** One bucket (`lockable_bucket`): its collision chains and the dirty flag
      `changed_while_resize`. The bucket's lock is not modelled. */
  datatype LockableBucket<V> = LockableBucket(chains: seq<seq<V>>, changedWhileResize: bool)

  // ---------------------------------------------------------------------------
  // Elements of buckets and tables, as multisets

  ghost function BucketElements<V(!new)>(chains: seq<seq<V>>): multiset<V> {
    if chains == [] then multiset{}
    else BucketElements(chains[..|chains| - 1]) + multiset(chains[|chains| - 1])
  }

  ghost function TableElements<V(!new)>(table: seq<LockableBucket<V>>): multiset<V> {
    if table == [] then multiset{}
    else TableElements(table[..|table| - 1]) + BucketElements(table[|table| - 1].chains)
  }

  /** Replacing chain c changes the bucket's elements by exactly that chain's. */
  lemma {:induction false} BucketElementsUpdate<V(!new)>(chains: seq<seq<V>>, c: nat, t: seq<V>)
    requires c < |chains|
    ensures BucketElements(chains[c := t]) + multiset(chains[c]) == BucketElements(chains) + multiset(t)
    decreases |chains|
  {
    var n := |chains| - 1;
    var u := chains[c := t];
    assert BucketElements(u) == BucketElements(u[..n]) + multiset(u[n]);
    assert BucketElements(chains) == BucketElements(chains[..n]) + multiset(chains[n]);
    if c < n {
      assert u[..n] == chains[..n][c := t];
      assert u[n] == chains[n];
      assert chains[..n][c] == chains[c];
      BucketElementsUpdate(chains[..n], c, t);
      MultisetShift(BucketElements(u[..n]), multiset(chains[c]), multiset(chains[n]),
                    BucketElements(chains[..n]), multiset(t));
    } else {
      assert u[..n] == chains[..n];
      assert u[n] == t;
    }
  }

  /** The elements of two tables side by side are those of each. */
  lemma {:induction false} TableElementsAppend<V(!new)>(front: seq<LockableBucket<V>>, back: seq<LockableBucket<V>>)
    ensures TableElements(front + back) == TableElements(front) + TableElements(back)
    decreases |back|
  {
    if back == [] {
      assert front + back == front;
    } else {
      var m := |back| - 1;
      var whole := front + back;
      assert whole[..|whole| - 1] == front + back[..m];
      assert whole[|whole| - 1] == back[m];
      TableElementsAppend(front, back[..m]);
    }
  }

  /** Replacing bucket b changes the table's elements by exactly that bucket's. */
  lemma TableElementsUpdate<V(!new)>(table: seq<LockableBucket<V>>, b: nat, nb: LockableBucket<V>)
    requires b < |table|
    ensures TableElements(table[b := nb]) + BucketElements(table[b].chains)
         == TableElements(table) + BucketElements(nb.chains)
  {
    var front, back := table[..b], table[b + 1..];
    assert table == front + [table[b]] + back;
    assert table[b := nb] == front + [nb] + back;
    TableElementsAppend(front + [table[b]], back);
    TableElementsAppend(front + [nb], back);
    TableElementsAppend(front, [table[b]]);
    TableElementsAppend(front, [nb]);
    assert [nb][..0] == [];
    assert [table[b]][..0] == [];
  }

  /** A value is an element of a bucket exactly when some chain holds it. */
  lemma {:induction false} BucketMember<V(!new)>(chains: seq<seq<V>>, v: V)
    ensures v in BucketElements(chains) <==> exists c :: 0 <= c < |chains| && v in chains[c]
    decreases |chains|
  {
    if chains != [] {
      var n := |chains| - 1;
      BucketMember(chains[..n], v);
      if v in BucketElements(chains[..n]) {
        var c :| 0 <= c < n && v in chains[..n][c];
        assert chains[..n][c] == chains[c];
      }
      if exists c :: 0 <= c < |chains| && v in chains[c] {
        var c :| 0 <= c < |chains| && v in chains[c];
        if c < n {
          assert chains[..n][c] == chains[c];
        }
      }
    }
  }

  /** A value is an element of a table exactly when some bucket holds it. */
  lemma {:induction false} TableMember<V(!new)>(table: seq<LockableBucket<V>>, v: V)
    ensures v in TableElements(table) <==> exists b :: 0 <= b < |table| && v in BucketElements(table[b].chains)
    decreases |table|
  {
    if table != [] {
      var n := |table| - 1;
      var front := table[..n];
      TableMember(front, v);
      assert TableElements(table) == TableElements(front) + BucketElements(table[n].chains);
      if v in TableElements(front) {
        var b :| 0 <= b < n && v in BucketElements(front[b].chains);
        assert front[b] == table[b];
      } else if v !in BucketElements(table[n].chains) {
        forall b | 0 <= b < |table|
          ensures v !in BucketElements(table[b].chains)
        {
          if b < n {
            assert front[b] == table[b];
          }
        }
      }
    }
  }

  /** A table's elements depend only on the elements of its buckets. */
  lemma {:induction false} TableElementsSame<V(!new)>(t1: seq<LockableBucket<V>>, t2: seq<LockableBucket<V>>)
    requires |t1| == |t2|
    requires forall b :: 0 <= b < |t1| ==> BucketElements(t1[b].chains) == BucketElements(t2[b].chains)
    ensures TableElements(t1) == TableElements(t2)
    decreases |t1|
  {
    if t1 != [] {
      var n := |t1| - 1;
      TableElementsSame(t1[..n], t2[..n]);
    }
  }

  /** A table of buckets that each hold one empty chain has no elements. */
  lemma {:induction false} FreshTableEmpty<V(!new)>(table: seq<LockableBucket<V>>)
    requires forall b :: 0 <= b < |table| ==> table[b].chains == [[]]
    ensures TableElements(table) == multiset{}
    decreases |table|
  {
    if table != [] {
      var n := |table| - 1;
      FreshTableEmpty(table[..n]);
      var chains := table[n].chains;
      assert chains[..0] == [];
      assert BucketElements(chains) == multiset{};
    }
  }

  // ---------------------------------------------------------------------------
  // Placement and key uniqueness

  /** Position t of chain c exists. (The placement quantifiers fire only on an
      explicit `InSlot` term.) */
  ghost predicate InSlot<V>(chains: seq<seq<V>>, c: int, t: int) {
    0 <= c < |chains| && 0 <= t < |chains[c]|
  }

  /** Every element of chain c of bucket b hashes to b modulo the bucket count
      and to c modulo the number of chains. */
  ghost predicate BucketPlaced<V(!new), K, A(!new)>(p: KeyPolicy<V, K, A>, hasher: K -> nat, bucketsCount: nat, b: nat, chains: seq<seq<V>>)
    requires bucketsCount > 0
  {
    forall c, t {:trigger InSlot(chains, c, t)} :: InSlot(chains, c, t) ==>
      hasher(p.keyOf(chains[c][t])) % bucketsCount == b && hasher(p.keyOf(chains[c][t])) % |chains| == c
  }

  /** Every element of chain c hashes to c modulo the number of chains. */
  ghost predicate ChainsPlaced<V(!new), K, A(!new)>(p: KeyPolicy<V, K, A>, hasher: K -> nat, chains: seq<seq<V>>) {
    forall c, t {:trigger InSlot(chains, c, t)} :: InSlot(chains, c, t) ==> hasher(p.keyOf(chains[c][t])) % |chains| == c
  }

  /** u and w carry the same key. */
  ghost predicate SameKey<V(!new), K, A(!new)>(p: KeyPolicy<V, K, A>, u: V, w: V) {
    p.keyOf(u) == p.keyOf(w)
  }

  /** No value is stored twice and no two stored values share a key. (The pair
      quantifier fires only on an explicit `SameKey` term.) */
  ghost predicate UniqueKeys<V(!new), K, A(!new)>(p: KeyPolicy<V, K, A>, contents: multiset<V>) {
    && (forall u :: u in contents ==> contents[u] == 1)
    && (forall u, w {:trigger SameKey(p, u, w)} :: u in contents && w in contents && SameKey(p, u, w) ==> u == w)
  }

  /** Placement of a whole table: every element sits in its home bucket and its home chain. */
  ghost predicate TablePlaced<V(!new), K, A(!new)>(p: KeyPolicy<V, K, A>, hasher: K -> nat, table: seq<LockableBucket<V>>) {
    && |table| > 0
    && (forall b :: 0 <= b < |table| ==> |table[b].chains| > 0)
    && (forall b :: 0 <= b < |table| ==> BucketPlaced(p, hasher, |table|, b, table[b].chains))
  }

  /** The home chain of a key: bucket `hash % BucketsCount`, chain `hash % chains`. */
  ghost function HomeChain<V(!new), K, A(!new)>(p: KeyPolicy<V, K, A>, hasher: K -> nat, table: seq<LockableBucket<V>>, k: K): seq<V>
    requires TablePlaced(p, hasher, table)
  {
    var chains := table[hasher(k) % |table|].chains;
    chains[hasher(k) % |chains|]
  }

  /** In a placed table every element lies in the home chain of its key, so a
      key is present exactly when its home chain holds it. */
  lemma ElementInHomeChain<V(!new), K, A(!new)>(p: KeyPolicy<V, K, A>, hasher: K -> nat, table: seq<LockableBucket<V>>, v: V)
    requires TablePlaced(p, hasher, table)
    ensures v in TableElements(table) <==> v in HomeChain(p, hasher, table, p.keyOf(v))
  {
    var h := hasher(p.keyOf(v));
    var b := h % |table|;
    var chains := table[b].chains;
    var c := h % |chains|;
    TableMember(table, v);
    BucketMember(chains, v);
    if v in TableElements(table) {
      var b' :| 0 <= b' < |table| && v in BucketElements(table[b'].chains);
      BucketMember(table[b'].chains, v);
      var c' :| 0 <= c' < |table[b'].chains| && v in table[b'].chains[c'];
      var t :| 0 <= t < |table[b'].chains[c']| && table[b'].chains[c'][t] == v;
      assert BucketPlaced(p, hasher, |table|, b', table[b'].chains) && InSlot(table[b'].chains, c', t);
      assert b' == b && c' == c;
    }
  }

  // ---------------------------------------------------------------------------
  // The abstract operations on the stored multiset

  /** v carries key k. */
  ghost predicate Carries<V(!new), K, A(!new)>(p: KeyPolicy<V, K, A>, v: V, k: K) {
    p.keyOf(v) == k
  }

  /** The stored value with key k, if any. (Its quantifiers fire only on an
      explicit `Carries` term.) */
  ghost function LookupIn<V(!new), K, A(!new)>(p: KeyPolicy<V, K, A>, contents: multiset<V>, k: K): (r: Option<V>)
    ensures r.Some? ==> r.value in contents && p.keyOf(r.value) == k
    ensures r.None? ==> forall v {:trigger Carries(p, v, k)} :: v in contents ==> !Carries(p, v, k)
  {
    if exists v {:trigger Carries(p, v, k)} :: v in contents && Carries(p, v, k) then
      var v :| v in contents && Carries(p, v, k); Some(v)
    else None
  }

  /** With unique keys the lookup finds the one stored value carrying the key. */
  lemma LookupFinds<V(!new), K, A(!new)>(p: KeyPolicy<V, K, A>, contents: multiset<V>, v: V)
    requires UniqueKeys(p, contents) && v in contents
    ensures LookupIn(p, contents, p.keyOf(v)) == Some(v)
  {
    assert Carries(p, v, p.keyOf(v));
    assert SameKey(p, LookupIn(p, contents, p.keyOf(v)).value, v);
  }

  /** The stored multiset after `emplace(a)`: a new value when the key is
      absent, otherwise the existing value merged with the arguments. */
  ghost function AfterEmplace<V(!new), K, A(!new)>(p: KeyPolicy<V, K, A>, contents: multiset<V>, a: A): multiset<V> {
    match LookupIn(p, contents, p.keyOfArgs(a))
    case None => contents + multiset{p.construct(a)}
    case Some(u) => contents - multiset{u} + multiset{p.renew(u, a)}
  }

  /** `emplace` keeps keys unique, grows the storage by one exactly when the key
      was absent, and afterwards the key maps to the built or merged value. */
  lemma EmplaceSpec<V(!new), K, A(!new)>(p: KeyPolicy<V, K, A>, contents: multiset<V>, a: A)
    requires Lawful(p) && UniqueKeys(p, contents)
    ensures UniqueKeys(p, AfterEmplace(p, contents, a))
    ensures |AfterEmplace(p, contents, a)|
         == |contents| + (if LookupIn(p, contents, p.keyOfArgs(a)).None? then 1 else 0)
    ensures LookupIn(p, AfterEmplace(p, contents, a), p.keyOfArgs(a))
         == match LookupIn(p, contents, p.keyOfArgs(a))
            case None => Some(p.construct(a))
            case Some(u) => Some(p.renew(u, a))
    ensures forall v :: v in contents && p.keyOf(v) != p.keyOfArgs(a) ==> v in AfterEmplace(p, contents, a)
  {
    var k := p.keyOfArgs(a);
    var after := AfterEmplace(p, contents, a);
    match LookupIn(p, contents, k)
    case None =>
      var n := p.construct(a);
      forall v | v in contents
        ensures p.keyOf(v) != k
      {
        assert !Carries(p, v, k);
      }
      assert after == contents + multiset{n};
      assert UniqueKeys(p, after);
      LookupFinds(p, after, n);
    case Some(u) =>
      var n := p.renew(u, a);
      assert p.keyOf(n) == k;
      var rest := contents - multiset{u};
      forall w | w in rest
        ensures p.keyOf(w) != k
      {
        assert SameKey(p, w, u) ==> w == u;
      }
      assert n !in rest;
      assert after == rest + multiset{n};
      assert UniqueKeys(p, after);
      LookupFinds(p, after, n);
  }

  /** The stored multiset after `remove(x)`: every copy of x is gone. */
  ghost function AfterRemove<V(!new)>(contents: multiset<V>, x: V): multiset<V> {
    contents[x := 0]
  }

  /** `remove` keeps keys unique, shrinks the storage by one exactly when x was
      stored, leaves x's key absent if x was stored, and a second `remove` of
      the same value changes nothing. */
  lemma RemoveSpec<V(!new), K, A(!new)>(p: KeyPolicy<V, K, A>, contents: multiset<V>, x: V)
    requires UniqueKeys(p, contents)
    ensures UniqueKeys(p, AfterRemove(contents, x))
    ensures |AfterRemove(contents, x)| == |contents| - (if x in contents then 1 else 0)
    ensures x in contents ==> LookupIn(p, AfterRemove(contents, x), p.keyOf(x)).None?
    ensures AfterRemove(AfterRemove(contents, x), x) == AfterRemove(contents, x)
  {
    if x in contents {
      assert contents == AfterRemove(contents, x) + multiset{x};
      forall v | v in AfterRemove(contents, x)
        ensures p.keyOf(v) != p.keyOf(x)
      {
        assert SameKey(p, v, x) ==> v == x;
      }
    } else {
      assert AfterRemove(contents, x) == contents;
    }
  }

  // ---------------------------------------------------------------------------
  // Chain scans

  /** `std::find_if` over a chain: the position of the first value whose key equals k. */
  function FindPos<V(!new), K(==), A(!new)>(p: KeyPolicy<V, K, A>, chain: seq<V>, k: K): (r: Option<nat>)
    ensures r.Some? ==> r.value < |chain| && p.keyOf(chain[r.value]) == k
    ensures r.Some? ==> forall j :: 0 <= j < r.value ==> p.keyOf(chain[j]) != k
    ensures r.None? <==> forall j :: 0 <= j < |chain| ==> p.keyOf(chain[j]) != k
  {
    if chain == [] then None
    else if p.keyOf(chain[0]) == k then Some(0)
    else match FindPos(p, chain[1..], k)
      case None => None
      case Some(j) => Some(j + 1)
  }

  /** `find_locked`: scan chain `hash % chains` of a bucket for key k. */
  function FindLocked<V(!new), K(==), A(!new)>(p: KeyPolicy<V, K, A>, hash: nat, k: K, chains: seq<seq<V>>): (r: Option<V>)
    requires |chains| > 0
    ensures r.Some? ==> r.value in chains[hash % |chains|] && p.keyOf(r.value) == k
    ensures r.None? ==> forall v :: v in chains[hash % |chains|] ==> p.keyOf(v) != k
  {
    var chain := chains[hash % |chains|];
    match FindPos(p, chain, k)
    case None => None
    case Some(i) => Some(chain[i])
  }

  /** `list::remove_if` with `m_equal(v, x)`: drop every value equal to x, keeping the others in order. */
  function RemoveMatching<V(==,!new)>(chain: seq<V>, x: V): (r: seq<V>)
    ensures multiset(r) == multiset(chain)[x := 0]
    ensures x !in r
    ensures x !in chain ==> r == chain
  {
    if chain == [] then []
    else
      assert chain == [chain[0]] + chain[1..];
      if chain[0] == x then RemoveMatching(chain[1..], x)
      else [chain[0]] + RemoveMatching(chain[1..], x)
  }

  /** `remove_if` keeps the retained values in their order: filtering a
      concatenation filters each part and concatenates the results. */
  lemma {:induction false} RemoveMatchingAppend<V(!new)>(front: seq<V>, back: seq<V>, x: V)
    ensures RemoveMatching(front + back, x) == RemoveMatching(front, x) + RemoveMatching(back, x)
    decreases |front|
  {
    if front == [] {
      assert front + back == back;
    } else {
      assert (front + back)[0] == front[0];
      assert (front + back)[1..] == front[1..] + back;
      RemoveMatchingAppend(front[1..], back, x);
    }
  }

  /** The copy phase of `resize`: every value of every chain is pushed to the
      front of chain `hash % count` of a fresh set of `count` chains. */
  method RefileChains<V(!new), K, A(!new)>(p: KeyPolicy<V, K, A>, hasher: K -> nat, chains: seq<seq<V>>, count: nat)
    returns (refiled: seq<seq<V>>)
    requires count > 0
    ensures |refiled| == count
    ensures ChainsPlaced(p, hasher, refiled)
    ensures BucketElements(refiled) == BucketElements(chains)
  {
    refiled := seq(count, _ => []);
    assert BucketElements(refiled) == multiset{} by {
      assert forall c :: 0 <= c < count ==> refiled[c] == [];
      EmptyChainsEmpty(refiled);
    }
    var j := 0;
    while j < |chains|
      invariant 0 <= j <= |chains|
      invariant |refiled| == count
      invariant ChainsPlaced(p, hasher, refiled)
      invariant BucketElements(refiled) == BucketElements(chains[..j])
    {
      refiled := RefileChain(p, hasher, refiled, chains[j]);
      assert chains[..j + 1][..j] == chains[..j];
      assert BucketElements(chains[..j + 1]) == BucketElements(chains[..j]) + multiset(chains[j]);
      j := j + 1;
    }
    assert chains[..j] == chains;
  }

  /** The inner loop of the copy phase: the values of one old chain are pushed,
      in order, to the front of their home chains among `refiled`. */
  method RefileChain<V(!new), K, A(!new)>(p: KeyPolicy<V, K, A>, hasher: K -> nat, refiled: seq<seq<V>>, chain: seq<V>)
    returns (r: seq<seq<V>>)
    requires |refiled| > 0 && ChainsPlaced(p, hasher, refiled)
    ensures |r| == |refiled|
    ensures ChainsPlaced(p, hasher, r)
    ensures BucketElements(r) == BucketElements(refiled) + multiset(chain)
  {
    r := refiled;
    var k := 0;
    while k < |chain|
      invariant 0 <= k <= |chain|
      invariant |r| == |refiled|
      invariant ChainsPlaced(p, hasher, r)
      invariant BucketElements(r) == BucketElements(refiled) + multiset(chain[..k])
    {
      var v := chain[k];
      var m := hasher(p.keyOf(v)) % |r|;
      PushFrontPlaced(p, hasher, r, v);
      PushFrontElements(r, m, v);
      r := r[m := [v] + r[m]];
      assert chain[..k + 1] == chain[..k] + [v];
      k := k + 1;
    }
    assert chain[..k] == chain;
  }

  /** Pushing a value to the front of chain m adds exactly that value. */
  lemma PushFrontElements<V(!new)>(chains: seq<seq<V>>, m: nat, v: V)
    requires m < |chains|
    ensures BucketElements(chains[m := [v] + chains[m]]) == BucketElements(chains) + multiset{v}
  {
    BucketElementsUpdate(chains, m, [v] + chains[m]);
    assert multiset([v] + chains[m]) == multiset{v} + multiset(chains[m]);
    MultisetCancel(BucketElements(chains[m := [v] + chains[m]]), BucketElements(chains) + multiset{v}, multiset(chains[m]));
  }

  /** Pushing a value to the front of its home chain keeps the chains placed. */
  lemma PushFrontPlaced<V(!new), K, A(!new)>(p: KeyPolicy<V, K, A>, hasher: K -> nat, chains: seq<seq<V>>, v: V)
    requires |chains| > 0 && ChainsPlaced(p, hasher, chains)
    ensures var m := hasher(p.keyOf(v)) % |chains|;
            ChainsPlaced(p, hasher, chains[m := [v] + chains[m]])
  {
    var m := hasher(p.keyOf(v)) % |chains|;
    var pushed := chains[m := [v] + chains[m]];
    forall c, t | 0 <= c < |pushed| && 0 <= t < |pushed[c]|
      ensures hasher(p.keyOf(pushed[c][t])) % |pushed| == c
    {
      if c == m && t > 0 {
        assert pushed[c][t] == chains[m][t - 1] && InSlot(chains, m, t - 1);
      } else if c != m {
        assert InSlot(chains, c, t);
      }
    }
  }

  lemma MultisetCancel<V>(x: multiset<V>, y: multiset<V>, z: multiset<V>)
    requires x + z == y + z
    ensures x == y
  {
    assert forall e :: x[e] == (x + z)[e] - z[e];
    assert forall e :: y[e] == (y + z)[e] - z[e];
  }

  /** Adding z to both sides of x + y == t + w. */
  lemma MultisetShift<V>(x: multiset<V>, y: multiset<V>, z: multiset<V>, t: multiset<V>, w: multiset<V>)
    requires x + y == t + w
    ensures x + z + y == t + z + w
  {
    assert forall e :: (x + z + y)[e] == (x + y)[e] + z[e];
    assert forall e :: (t + z + w)[e] == (t + w)[e] + z[e];
  }

  lemma {:induction false} EmptyChainsEmpty<V(!new)>(chains: seq<seq<V>>)
    requires forall c :: 0 <= c < |chains| ==> chains[c] == []
    ensures BucketElements(chains) == multiset{}
    decreases |chains|
  {
    if chains != [] {
      EmptyChainsEmpty(chains[..|chains| - 1]);
    }
  }

  // ---------------------------------------------------------------------------
  // One step on a home chain

  /** Every value of chain c of bucket b of a placed table hashes to b and to c. */
  lemma HomeChainMembers<V(!new), K, A(!new)>(p: KeyPolicy<V, K, A>, hasher: K -> nat, table: seq<LockableBucket<V>>,
                                              b: nat, c: nat, v: V)
    requires TablePlaced(p, hasher, table) && b < |table| && c < |table[b].chains|
    requires v in table[b].chains[c]
    ensures hasher(p.keyOf(v)) % |table| == b
    ensures hasher(p.keyOf(v)) % |table[b].chains| == c
  {
    var chains := table[b].chains;
    var t :| 0 <= t < |chains[c]| && chains[c][t] == v;
    assert BucketPlaced(p, hasher, |table|, b, chains) && InSlot(chains, c, t);
  }

  /** Every chain's values are among its bucket's. */
  lemma {:induction false} ChainInBucket<V(!new)>(chains: seq<seq<V>>, c: nat)
    requires c < |chains|
    ensures multiset(chains[c]) <= BucketElements(chains)
    decreases |chains|
  {
    var n := |chains| - 1;
    if c < n {
      ChainInBucket(chains[..n], c);
      assert chains[..n][c] == chains[c];
    }
  }

  /** Every bucket's values are among the table's. */
  lemma {:induction false} BucketInTable<V(!new)>(table: seq<LockableBucket<V>>, b: nat)
    requires b < |table|
    ensures BucketElements(table[b].chains) <= TableElements(table)
    decreases |table|
  {
    var n := |table| - 1;
    if b < n {
      BucketInTable(table[..n], b);
      assert table[..n][b] == table[b];
    }
  }

  /** Every chain's values are among the table's. */
  lemma ChainInTable<V(!new)>(table: seq<LockableBucket<V>>, b: nat, c: nat)
    requires b < |table| && c < |table[b].chains|
    ensures multiset(table[b].chains[c]) <= TableElements(table)
  {
    ChainInBucket(table[b].chains, c);
    BucketInTable(table, b);
  }

  /** Replacing chain c of bucket b exchanges the old chain's values for the new chain's. */
  lemma ReplaceChainElements<V(!new)>(table: seq<LockableBucket<V>>, b: nat, c: nat, t: seq<V>, dirty: bool)
    requires b < |table| && c < |table[b].chains|
    ensures TableElements(table[b := LockableBucket(table[b].chains[c := t], dirty)]) + multiset(table[b].chains[c])
         == TableElements(table) + multiset(t)
  {
    var chains := table[b].chains;
    var newChains := chains[c := t];
    var updated := table[b := LockableBucket(newChains, dirty)];
    BucketElementsUpdate(chains, c, t);
    TableElementsUpdate(table, b, LockableBucket(newChains, dirty));
    var x, y, z, w := TableElements(updated), multiset(chains[c]), BucketElements(chains), BucketElements(newChains);
    assert x + z == TableElements(table) + w;
    assert w + y == z + multiset(t);
    calc {
      (x + y) + z;
      (x + z) + y;
      TableElements(table) + (w + y);
      (TableElements(table) + multiset(t)) + z;
    }
    MultisetCancel(x + y, TableElements(table) + multiset(t), z);
  }

  /** Replacing chain c of bucket b by values that all belong there keeps the table placed. */
  lemma ReplaceChainPlaced<V(!new), K, A(!new)>(p: KeyPolicy<V, K, A>, hasher: K -> nat, table: seq<LockableBucket<V>>,
                                                b: nat, c: nat, t: seq<V>, dirty: bool)
    requires TablePlaced(p, hasher, table) && b < |table| && c < |table[b].chains|
    requires forall v :: v in t ==> hasher(p.keyOf(v)) % |table| == b && hasher(p.keyOf(v)) % |table[b].chains| == c
    ensures var updated := table[b := LockableBucket(table[b].chains[c := t], dirty)];
            && |updated| == |table|
            && (forall b' :: 0 <= b' < |table| ==> |updated[b'].chains| == |table[b'].chains|)
            && TablePlaced(p, hasher, updated)
  {
    var chains := table[b].chains;
    var newChains := chains[c := t];
    var updated := table[b := LockableBucket(newChains, dirty)];
    assert BucketPlaced(p, hasher, |table|, b, newChains) by {
      forall i, j | 0 <= i < |newChains| && 0 <= j < |newChains[i]|
        ensures hasher(p.keyOf(newChains[i][j])) % |table| == b
        ensures hasher(p.keyOf(newChains[i][j])) % |newChains| == i
      {
        if i == c {
          assert newChains[i][j] in t;
        } else {
          assert BucketPlaced(p, hasher, |table|, b, chains) && InSlot(chains, i, j);
          assert newChains[i][j] == chains[i][j];
        }
      }
    }
    assert forall b' :: 0 <= b' < |table| && b' != b ==> updated[b'] == table[b'];
  }

  /** The multiset step of a merge: trading one stored u for n. */
  lemma TradeOne<V>(x: multiset<V>, y: multiset<V>, z: multiset<V>, u: V, n: V)
    requires x + z == y + (z - multiset{u} + multiset{n})
    requires u in z && u in y
    ensures x == y - multiset{u} + multiset{n}
  {
    assert forall e :: x[e] == (x + z)[e] - z[e];
    assert forall e :: (y - multiset{u} + multiset{n})[e] == (y + (z - multiset{u} + multiset{n}))[e] - z[e];
  }

  /** The values of a home chain all hash to its bucket and chain. */
  lemma ChainMembersHome<V(!new), K, A(!new)>(p: KeyPolicy<V, K, A>, hasher: K -> nat, table: seq<LockableBucket<V>>,
                                              b: nat, c: nat)
    requires TablePlaced(p, hasher, table) && b < |table| && c < |table[b].chains|
    ensures forall v :: v in table[b].chains[c] ==>
              hasher(p.keyOf(v)) % |table| == b && hasher(p.keyOf(v)) % |table[b].chains| == c
  {
    forall v | v in table[b].chains[c]
      ensures hasher(p.keyOf(v)) % |table| == b && hasher(p.keyOf(v)) % |table[b].chains| == c
    {
      HomeChainMembers(p, hasher, table, b, c, v);
    }
  }

  /** `emplace` of a present key: the value at position i of the home chain is
      the stored value with that key, and the merge replaces it in place. */
  lemma EmplaceMerge<V(!new), K, A(!new)>(p: KeyPolicy<V, K, A>, hasher: K -> nat, table: seq<LockableBucket<V>>,
                                          a: A, b: nat, c: nat, i: nat)
    requires Lawful(p) && TablePlaced(p, hasher, table) && UniqueKeys(p, TableElements(table))
    requires b == hasher(p.keyOfArgs(a)) % |table|
    requires c == hasher(p.keyOfArgs(a)) % |table[b].chains|
    requires i < |table[b].chains[c]| && p.keyOf(table[b].chains[c][i]) == p.keyOfArgs(a)
    ensures var old_ := table[b].chains[c];
            var updated := table[b := LockableBucket(table[b].chains[c := old_[i := p.renew(old_[i], a)]], true)];
            && |updated| == |table|
            && (forall b' :: 0 <= b' < |table| ==> |updated[b'].chains| == |table[b'].chains|)
            && TablePlaced(p, hasher, updated)
            && LookupIn(p, TableElements(table), p.keyOfArgs(a)) == Some(old_[i])
            && TableElements(updated) == AfterEmplace(p, TableElements(table), a)
  {
    var k := p.keyOfArgs(a);
    var oldChain := table[b].chains[c];
    var before := TableElements(table);
    var u := oldChain[i];
    var n := p.renew(u, a);
    var chain := oldChain[i := n];
    var updated := table[b := LockableBucket(table[b].chains[c := chain], true)];
    assert p.keyOf(n) == k;
    ChainMembersHome(p, hasher, table, b, c);
    assert forall j :: 0 <= j < |chain| ==> chain[j] == n || chain[j] == oldChain[j];
    ReplaceChainPlaced(p, hasher, table, b, c, chain, true);
    ChainInTable(table, b, c);
    assert u in multiset(oldChain);
    LookupFinds(p, before, u);
    ReplaceChainElements(table, b, c, chain, true);
    assert multiset(chain) == multiset(oldChain) - multiset{u} + multiset{n};
    TradeOne(TableElements(updated), before, multiset(oldChain), u, n);
  }

  /** No value of a key's home chain carries it, so no stored value does. */
  lemma AbsentKey<V(!new), K, A(!new)>(p: KeyPolicy<V, K, A>, hasher: K -> nat, table: seq<LockableBucket<V>>,
                                       k: K, b: nat, c: nat)
    requires TablePlaced(p, hasher, table)
    requires b == hasher(k) % |table| && c == hasher(k) % |table[b].chains|
    requires forall j :: 0 <= j < |table[b].chains[c]| ==> p.keyOf(table[b].chains[c][j]) != k
    ensures LookupIn(p, TableElements(table), k).None?
  {
    assert HomeChain(p, hasher, table, k) == table[b].chains[c];
    forall w | w in TableElements(table)
      ensures !Carries(p, w, k)
    {
      ElementInHomeChain(p, hasher, table, w);
    }
  }

  /** `emplace` of an absent key: no value of the home chain carries it, so no
      stored value does, and the new value is pushed to the chain's front. */
  lemma EmplaceInsert<V(!new), K, A(!new)>(p: KeyPolicy<V, K, A>, hasher: K -> nat, table: seq<LockableBucket<V>>,
                                           a: A, b: nat, c: nat)
    requires Lawful(p) && TablePlaced(p, hasher, table)
    requires b == hasher(p.keyOfArgs(a)) % |table|
    requires c == hasher(p.keyOfArgs(a)) % |table[b].chains|
    requires forall j :: 0 <= j < |table[b].chains[c]| ==> p.keyOf(table[b].chains[c][j]) != p.keyOfArgs(a)
    ensures var updated := table[b := LockableBucket(table[b].chains[c := [p.construct(a)] + table[b].chains[c]], true)];
            && |updated| == |table|
            && (forall b' :: 0 <= b' < |table| ==> |updated[b'].chains| == |table[b'].chains|)
            && TablePlaced(p, hasher, updated)
            && LookupIn(p, TableElements(table), p.keyOfArgs(a)).None?
            && TableElements(updated) == AfterEmplace(p, TableElements(table), a)
  {
    var k := p.keyOfArgs(a);
    var oldChain := table[b].chains[c];
    var before := TableElements(table);
    var n := p.construct(a);
    var chain := [n] + oldChain;
    var updated := table[b := LockableBucket(table[b].chains[c := chain], true)];
    AbsentKey(p, hasher, table, k, b, c);
    assert p.keyOf(n) == k;
    ChainMembersHome(p, hasher, table, b, c);
    ReplaceChainPlaced(p, hasher, table, b, c, chain, true);
    ReplaceChainElements(table, b, c, chain, true);
    assert multiset(chain) == multiset{n} + multiset(oldChain);
    MultisetCancel(TableElements(updated), before + multiset{n}, multiset(oldChain));
  }

  /** The placement half of one `remove(x)` on x's home chain. */
  lemma RemovePlaced<V(!new), K, A(!new)>(p: KeyPolicy<V, K, A>, hasher: K -> nat, table: seq<LockableBucket<V>>,
                                          x: V, b: nat, c: nat, remaining: seq<V>)
    requires TablePlaced(p, hasher, table) && b < |table| && c < |table[b].chains|
    requires multiset(remaining) <= multiset(table[b].chains[c])
    ensures var updated := table[b := LockableBucket(table[b].chains[c := remaining], true)];
            && |updated| == |table|
            && (forall b' :: 0 <= b' < |table| ==> |updated[b'].chains| == |table[b'].chains|)
            && TablePlaced(p, hasher, updated)
  {
    ChainMembersHome(p, hasher, table, b, c);
    forall v | v in remaining
      ensures hasher(p.keyOf(v)) % |table| == b && hasher(p.keyOf(v)) % |table[b].chains| == c
    {
      assert v in multiset(remaining);
      assert v in table[b].chains[c];
    }
    ReplaceChainPlaced(p, hasher, table, b, c, remaining, true);
  }

  /** The effect of one `remove(x)` on x's home chain. */
  lemma RemoveOnChain<V(!new), K, A(!new)>(p: KeyPolicy<V, K, A>, hasher: K -> nat, table: seq<LockableBucket<V>>,
                                           x: V, b: nat, c: nat)
    requires TablePlaced(p, hasher, table) && UniqueKeys(p, TableElements(table))
    requires b == hasher(p.keyOf(x)) % |table|
    requires c == hasher(p.keyOf(x)) % |table[b].chains|
    ensures var chain := table[b].chains[c];
            var remaining := RemoveMatching(chain, x);
            var updated := table[b := LockableBucket(table[b].chains[c := remaining], true)];
            && |updated| == |table|
            && (forall b' :: 0 <= b' < |table| ==> |updated[b'].chains| == |table[b'].chains|)
            && TablePlaced(p, hasher, updated)
            && TableElements(updated) == AfterRemove(TableElements(table), x)
            && (|chain| != |remaining| <==> x in TableElements(table))
  {
    var chain := table[b].chains[c];
    var remaining := RemoveMatching(chain, x);
    var updated := table[b := LockableBucket(table[b].chains[c := remaining], true)];
    RemovePlaced(p, hasher, table, x, b, c, remaining);
    assert HomeChain(p, hasher, table, p.keyOf(x)) == chain;
    ElementInHomeChain(p, hasher, table, x);
    RemoveElements(table, b, c, x);
  }

  /** The multiset half of one `remove(x)`, for a chain that holds every stored copy of x. */
  lemma RemoveElements<V(!new)>(table: seq<LockableBucket<V>>, b: nat, c: nat, x: V)
    requires b < |table| && c < |table[b].chains|
    requires x in TableElements(table) ==> x in table[b].chains[c]
    requires TableElements(table)[x] <= 1
    ensures var chain := table[b].chains[c];
            var remaining := RemoveMatching(chain, x);
            var updated := table[b := LockableBucket(table[b].chains[c := remaining], true)];
            && TableElements(updated) == AfterRemove(TableElements(table), x)
            && (|chain| != |remaining| <==> x in TableElements(table))
  {
    var chain := table[b].chains[c];
    var remaining := RemoveMatching(chain, x);
    var updated := table[b := LockableBucket(table[b].chains[c := remaining], true)];
    var before := TableElements(table);
    ChainInTable(table, b, c);
    ReplaceChainElements(table, b, c, remaining, true);
    RemoveCounts(before, multiset(chain), TableElements(updated), x);
    RemovedLength(chain, x, before);
  }

  /** Filtering x out of a chain that holds every stored copy of x, of which
      there is at most one, shortens it exactly when x is stored. */
  lemma RemovedLength<V(!new)>(chain: seq<V>, x: V, t: multiset<V>)
    requires multiset(chain) <= t && t[x] <= 1 && (x in t ==> x in chain)
    ensures |chain| != |RemoveMatching(chain, x)| <==> x in t
  {
    var remaining := RemoveMatching(chain, x);
    if x in chain {
      assert multiset(chain) == multiset(remaining) + multiset{x};
    } else {
      assert multiset(remaining) == multiset(chain);
    }
    assert |multiset(remaining)| == |remaining| && |multiset(chain)| == |chain|;
  }

  /** The multiset arithmetic of a removal: a chain holding the one stored copy
      of x loses it, and the table loses it with the chain. */
  lemma RemoveCounts<V>(t: multiset<V>, chain: multiset<V>, u: multiset<V>, x: V)
    requires u + chain == t + chain[x := 0]
    requires chain <= t && t[x] <= 1 && (x in t ==> x in chain)
    ensures u == t[x := 0]
  {
    forall e
      ensures u[e] == t[x := 0][e]
    {
      assert (u + chain)[e] == (t + chain[x := 0])[e];
      assert u[e] + chain[e] == t[e] + chain[x := 0][e];
      assert chain[e] <= t[e];
    }
  }

  // ---------------------------------------------------------------------------
  // The storage invariant and the steps that keep it

  /** bucketsCount buckets of chainCount chains each. */
  ghost predicate Shaped<V>(table: seq<LockableBucket<V>>, bucketsCount: nat, chainCount: nat) {
    && |table| == bucketsCount
    && chainCount >= 1
    && (forall b :: 0 <= b < |table| ==> |table[b].chains| == chainCount)
  }

  /** Replacing one chain keeps the shape of the table. */
  lemma ReplaceChainShaped<V>(table: seq<LockableBucket<V>>, b: nat, c: nat, t: seq<V>, dirty: bool,
                              bucketsCount: nat, chainCount: nat)
    requires Shaped(table, bucketsCount, chainCount) && b < |table| && c < |table[b].chains|
    ensures Shaped(table[b := LockableBucket(table[b].chains[c := t], dirty)], bucketsCount, chainCount)
  {
  }

  /** What holds of the storage between operations: a lawful policy, a
      power-of-two bucket count, equally many chains in every bucket,
      `capacity == BucketsCount * chains`, every value in its home chain,
      unique keys, and `size` counting the stored values. */
  ghost predicate Invariant<V(!new), K, A(!new)>(p: KeyPolicy<V, K, A>, hasher: K -> nat, bucketsCount: nat,
                                                table: seq<LockableBucket<V>>, chainCount: nat, capacity: int, size: int)
  {
    && Lawful(p)
    && ValidBucketCount(bucketsCount)
    && Shaped(table, bucketsCount, chainCount)
    && capacity == bucketsCount * chainCount
    && TablePlaced(p, hasher, table)
    && UniqueKeys(p, TableElements(table))
    && size == |TableElements(table)|
  }

  /** One `emplace` step on the home chain keeps the invariant. */
  lemma EmplaceStep<V(!new), K, A(!new)>(p: KeyPolicy<V, K, A>, hasher: K -> nat, bucketsCount: nat,
                                         table: seq<LockableBucket<V>>, chainCount: nat, capacity: int, size: int,
                                         a: A, b: nat, c: nat, chain: seq<V>, isNew: bool, newSize: int,
                                         updated: seq<LockableBucket<V>>)
    requires Invariant(p, hasher, bucketsCount, table, chainCount, capacity, size)
    requires b == hasher(p.keyOfArgs(a)) % bucketsCount && c == hasher(p.keyOfArgs(a)) % chainCount
    requires var found := FindPos(p, table[b].chains[c], p.keyOfArgs(a));
             && isNew == found.None?
             && chain == (if found.Some? then table[b].chains[c][found.value := p.renew(table[b].chains[c][found.value], a)]
                          else [p.construct(a)] + table[b].chains[c])
    requires newSize == size + (if isNew then 1 else 0)
    requires updated == table[b := LockableBucket(table[b].chains[c := chain], true)]
    ensures Invariant(p, hasher, bucketsCount, updated, chainCount, capacity, newSize)
    ensures TableElements(updated) == AfterEmplace(p, TableElements(table), a)
    ensures isNew <==> LookupIn(p, TableElements(table), p.keyOfArgs(a)).None?
  {
    var found := FindPos(p, table[b].chains[c], p.keyOfArgs(a));
    if found.Some? {
      EmplaceMerge(p, hasher, table, a, b, c, found.value);
    } else {
      EmplaceInsert(p, hasher, table, a, b, c);
    }
    ReplaceChainShaped(table, b, c, chain, true, bucketsCount, chainCount);
    EmplaceSpec(p, TableElements(table), a);
  }

  /** One `remove` step on the home chain keeps the invariant. */
  lemma RemoveStep<V(!new), K, A(!new)>(p: KeyPolicy<V, K, A>, hasher: K -> nat, bucketsCount: nat,
                                        table: seq<LockableBucket<V>>, chainCount: nat, capacity: int, size: int,
                                        x: V, b: nat, c: nat, newSize: int)
    requires Invariant(p, hasher, bucketsCount, table, chainCount, capacity, size)
    requires b == hasher(p.keyOf(x)) % bucketsCount && c == hasher(p.keyOf(x)) % chainCount
    requires newSize == if |table[b].chains[c]| != |RemoveMatching(table[b].chains[c], x)| then size - 1 else size
    ensures var updated := table[b := LockableBucket(table[b].chains[c := RemoveMatching(table[b].chains[c], x)], true)];
            && Invariant(p, hasher, bucketsCount, updated, chainCount, capacity, newSize)
            && TableElements(updated) == AfterRemove(TableElements(table), x)
            && newSize == if x in TableElements(table) then size - 1 else size
  {
    RemoveOnChain(p, hasher, table, x, b, c);
    ReplaceChainShaped(table, b, c, RemoveMatching(table[b].chains[c], x), true, bucketsCount, chainCount);
    RemoveSpec(p, TableElements(table), x);
  }

  /** Every bucket re-filed into `chainCount` placed chains holding the same
      values keeps the invariant, with capacity `BucketsCount * chainCount`. */
  lemma ResizeStep<V(!new), K, A(!new)>(p: KeyPolicy<V, K, A>, hasher: K -> nat, bucketsCount: nat,
                                        table: seq<LockableBucket<V>>, oldChainCount: nat, capacity: int, size: int,
                                        refiled: seq<LockableBucket<V>>, chainCount: nat)
    requires Invariant(p, hasher, bucketsCount, table, oldChainCount, capacity, size)
    requires |refiled| == bucketsCount && chainCount >= 1
    requires forall b :: 0 <= b < bucketsCount ==> Refiled(p, hasher, table[b], refiled[b], chainCount)
    ensures Invariant(p, hasher, bucketsCount, refiled, chainCount, bucketsCount * chainCount, size)
    ensures TableElements(refiled) == TableElements(table)
  {
    TableElementsSame(refiled, table);
    forall b | 0 <= b < bucketsCount
      ensures BucketPlaced(p, hasher, bucketsCount, b, refiled[b].chains)
    {
      RefiledPlaced(p, hasher, bucketsCount, b, table[b].chains, refiled[b].chains);
    }
  }

  /** Re-filed chains holding the values of a placed bucket b are placed in b. */
  lemma RefiledPlaced<V(!new), K, A(!new)>(p: KeyPolicy<V, K, A>, hasher: K -> nat, bucketsCount: nat, b: nat,
                                           before: seq<seq<V>>, after: seq<seq<V>>)
    requires bucketsCount > 0 && BucketPlaced(p, hasher, bucketsCount, b, before)
    requires ChainsPlaced(p, hasher, after) && BucketElements(after) == BucketElements(before)
    ensures BucketPlaced(p, hasher, bucketsCount, b, after)
  {
    forall c, t | 0 <= c < |after| && 0 <= t < |after[c]|
      ensures hasher(p.keyOf(after[c][t])) % bucketsCount == b
    {
      var v := after[c][t];
      BucketMember(after, v);
      BucketMember(before, v);
      var c' :| 0 <= c' < |before| && v in before[c'];
      var t' :| 0 <= t' < |before[c']| && before[c'][t'] == v;
      assert InSlot(before, c', t');
    }
  }

  /** A bucket after its copy phase: clean, with `chainCount` placed chains
      holding the values it held before. */
  ghost predicate Refiled<V(!new), K, A(!new)>(p: KeyPolicy<V, K, A>, hasher: K -> nat,
                                              before: LockableBucket<V>, after: LockableBucket<V>, chainCount: nat)
  {
    && |after.chains| == chainCount
    && !after.changedWhileResize
    && ChainsPlaced(p, hasher, after.chains)
    && BucketElements(after.chains) == BucketElements(before.chains)
  }

  // ---------------------------------------------------------------------------
  // The storage

  class HashStorage<V(==,!new), K(==), A(!new)> {
    const policy: KeyPolicy<V, K, A>
    const hasher: K -> nat                // THasher
    const bucketsCount: nat               // BucketsCount
    const resizeFactor: nat               // ResizeFactor
    var buckets: seq<LockableBucket<V>>   // m_storage
    var size: nat                         // m_size
    var capacity: nat                     // m_capacity
    var resizing: bool                    // m_resizing
    ghost var chainCount: nat             // the number of chains of every bucket

    /** Everything stored, over all buckets and chains. */
    ghost function Contents(): multiset<V>
      reads this
    {
      TableElements(buckets)
    }

    /** A resize is due: none is running and `size * ResizeFactor >= capacity`. */
    predicate ResizeDue()
      reads this
    {
      !resizing && size * resizeFactor >= capacity
    }

    ghost predicate Valid()
      reads this
    {
      Invariant(policy, hasher, bucketsCount, buckets, chainCount, capacity, size) && !resizing
    }

    /** Every bucket starts with one empty chain and its dirty flag set;
        size 0, capacity `BucketsCount`. */
    constructor (policy: KeyPolicy<V, K, A>, hasher: K -> nat, bucketsCount: nat, resizeFactor: nat)
      requires Lawful(policy) && ValidBucketCount(bucketsCount)
      ensures Valid()
      ensures this.policy == policy && this.hasher == hasher
      ensures this.bucketsCount == bucketsCount && this.resizeFactor == resizeFactor
      ensures Contents() == multiset{} && size == 0 && capacity == bucketsCount
      ensures forall b :: 0 <= b < bucketsCount ==> buckets[b] == LockableBucket([[]], true)
    {
      this.policy := policy;
      this.hasher := hasher;
      this.bucketsCount := bucketsCount;
      this.resizeFactor := resizeFactor;
      var storage: seq<LockableBucket<V>> := [];
      var i := 0;
      while i < bucketsCount
        invariant 0 <= i <= bucketsCount && |storage| == i
        invariant forall b :: 0 <= b < i ==> storage[b] == LockableBucket([[]], true)
      {
        storage := storage + [LockableBucket([[]], true)];
        i := i + 1;
      }
      buckets := storage;
      size := 0;
      capacity := bucketsCount;
      resizing := false;
      chainCount := 1;
      new;
      FreshTableEmpty(buckets);
    }

    /** `emplace(args...)`: a new value goes to the front of its home chain and
        size grows by one; an existing key is merged through the policy and
        size stays. A resize is then attempted; when none is due, only the
        home bucket changed. */
    method Emplace(a: A) returns (isNew: bool)
      requires Valid()
      modifies this
      ensures Valid()
      ensures isNew <==> LookupIn(policy, old(Contents()), policy.keyOfArgs(a)).None?
      ensures Contents() == AfterEmplace(policy, old(Contents()), a)
      ensures size == old(size) + (if isNew then 1 else 0)
      ensures capacity == if size * resizeFactor >= old(capacity) then old(capacity) * resizeFactor else old(capacity)
      ensures var b := hasher(policy.keyOfArgs(a)) % bucketsCount;
              size * resizeFactor < old(capacity) ==>
                buckets[b].changedWhileResize && buckets == old(buckets)[b := buckets[b]]
    {
      isNew := EmplaceLocked(a);
      Resize();
    }

    /** The part of `emplace` under the home bucket's exclusive lock: the value
        is merged into the stored one with its key, or built at the front of
        the home chain with size counting it; the bucket is marked dirty.
        Capacity and the other buckets stay. */
    method EmplaceLocked(a: A) returns (isNew: bool)
      requires Valid()
      modifies this
      ensures Valid()
      ensures isNew <==> LookupIn(policy, old(Contents()), policy.keyOfArgs(a)).None?
      ensures Contents() == AfterEmplace(policy, old(Contents()), a)
      ensures size == old(size) + (if isNew then 1 else 0)
      ensures capacity == old(capacity) && chainCount == old(chainCount)
      ensures var b := hasher(policy.keyOfArgs(a)) % bucketsCount;
              buckets[b].changedWhileResize && buckets == old(buckets)[b := buckets[b]]
    {
      var key := policy.keyOfArgs(a);
      var hash := hasher(key);
      var b := hash % bucketsCount;
      var bucket := buckets[b];
      var c := hash % |bucket.chains|;
      var chain := bucket.chains[c];
      var found := FindPos(policy, chain, key);
      isNew := found.None?;
      var updated := if found.Some? then chain[found.value := policy.renew(chain[found.value], a)]
                     else [policy.construct(a)] + chain;
      var newSize := size + if isNew then 1 else 0;
      var newBuckets := buckets[b := LockableBucket(bucket.chains[c := updated], true)];
      ghost var oldBuckets := buckets;
      ghost var oldSize := size;
      buckets, size := newBuckets, newSize;
      EmplaceStep(policy, hasher, bucketsCount, oldBuckets, chainCount, capacity, oldSize, a, b, c, updated, isNew, newSize, newBuckets);
    }

    /** `find_locked` plus the bucket choice of `find`: the stored value with
        key k, if any. The storage is not changed. */
    method Find(k: K) returns (r: Option<V>)
      requires Valid()
      ensures r == LookupIn(policy, Contents(), k)
    {
      var hash := hasher(k);
      var bucket := buckets[hash % bucketsCount];
      r := FindLocked(policy, hash, k, bucket.chains);
      FoundIsLookup(policy, hasher, buckets, k);
    }

    /** `obtain(value)`: when a value with value's key is stored, copy it into
        value through the policy and report true; otherwise leave value as it
        is and report false. The storage is not changed. */
    method Obtain(value: V) returns (found: bool, out: V)
      requires Valid()
      ensures found == LookupIn(policy, Contents(), policy.keyOf(value)).Some?
      ensures found ==> out == policy.refresh(value, LookupIn(policy, Contents(), policy.keyOf(value)).value)
      ensures !found ==> out == value
    {
      var key := policy.keyOf(value);
      var hash := hasher(key);
      var bucket := buckets[hash % bucketsCount];
      var obtained := FindLocked(policy, hash, key, bucket.chains);
      FoundIsLookup(policy, hasher, buckets, key);
      out := value;
      if obtained.Some? {
        out := policy.refresh(value, obtained.value);
      }
      found := obtained.Some?;
    }

    /** `remove(x)`: every value equal to x leaves x's home chain; size drops
        by one exactly when the chain shrank. The bucket is marked dirty. */
    method Remove(x: V)
      requires Valid()
      modifies this
      ensures Valid()
      ensures Contents() == AfterRemove(old(Contents()), x)
      ensures size == if x in old(Contents()) then old(size) - 1 else old(size)
      ensures capacity == old(capacity)
      ensures var b := hasher(policy.keyOf(x)) % bucketsCount;
              buckets[b].changedWhileResize && buckets == old(buckets)[b := buckets[b]]
    {
      var hash := hasher(policy.keyOf(x));
      var b := hash % bucketsCount;
      var bucket := buckets[b];
      var c := hash % |bucket.chains|;
      var chain := bucket.chains[c];
      var prevSize := |chain|;
      var remaining := RemoveMatching(chain, x);
      ghost var before := TableElements(buckets);
      ghost var newSize := if prevSize != |remaining| then size - 1 else size;
      RemoveStep(policy, hasher, bucketsCount, buckets, chainCount, capacity, size, x, b, c, newSize);
      buckets := buckets[b := LockableBucket(bucket.chains[c := remaining], true)];
      assert Invariant(policy, hasher, bucketsCount, buckets, chainCount, capacity, newSize);
      assert TableElements(buckets) == AfterRemove(before, x);
      if prevSize != |remaining| {
        size := size - 1;
      }
      assert Invariant(policy, hasher, bucketsCount, buckets, chainCount, capacity, size);
      assert size == if x in before then old(size) - 1 else old(size);
    }

    /** `size()` */
    method Size() returns (n: nat)
      requires Valid()
      ensures n == |Contents()|
    {
      n := size;
    }

    /** `capacity()`: `BucketsCount` times the current number of chains per bucket. */
    method Capacity() returns (n: nat)
      requires Valid()
      ensures n == bucketsCount * chainCount
    {
      n := capacity;
    }

    /** The copy loop of `resize()`: every bucket in turn is re-filed into
        `bucketCapacity` chains, retrying until no write marked it dirty
        during the copy. */
    method CopyBuckets(bucketCapacity: nat)
      requires bucketCapacity >= 1 && |buckets| == bucketsCount
      modifies this
      ensures |buckets| == bucketsCount
      ensures forall b :: 0 <= b < bucketsCount ==> Refiled(policy, hasher, old(buckets[b]), buckets[b], bucketCapacity)
      ensures size == old(size) && capacity == old(capacity) && chainCount == old(chainCount)
      ensures resizing == old(resizing)
    {
      ghost var oldBuckets := buckets;
      var i := 0;
      while i < bucketsCount
        invariant 0 <= i <= bucketsCount && |buckets| == bucketsCount
        invariant resizing == old(resizing) && size == old(size) && capacity == old(capacity) && chainCount == old(chainCount)
        invariant forall b :: 0 <= b < i ==> Refiled(policy, hasher, oldBuckets[b], buckets[b], bucketCapacity)
        invariant forall b :: i <= b < bucketsCount ==> buckets[b] == oldBuckets[b]
      {
        var copied := false;
        ghost var entry := buckets;
        while !copied
          invariant |buckets| == bucketsCount
          invariant resizing == old(resizing) && size == old(size) && capacity == old(capacity) && chainCount == old(chainCount)
          invariant forall b :: 0 <= b < bucketsCount && b != i ==> buckets[b] == entry[b]
          invariant !copied ==> buckets[i].chains == oldBuckets[i].chains
          invariant copied ==> Refiled(policy, hasher, oldBuckets[i], buckets[i], bucketCapacity)
          decreases if copied then 0 else 1
        {
          // prepare bucket for swap (under the shared lock)
          buckets := buckets[i := buckets[i].(changedWhileResize := false)];
          var newChains := RefileChains(policy, hasher, buckets[i].chains, bucketCapacity);
          // try to swap buckets (under the exclusive lock)
          if !buckets[i].changedWhileResize {
            buckets := buckets[i := buckets[i].(chains := newChains)];
            copied := true;
          }
        }
        i := i + 1;
      }
    }

    /** `resize()`: when due, every bucket is re-filed into
        `capacity * ResizeFactor / BucketsCount` chains, bucket by bucket: the
        dirty flag is cleared, the chains are copied, and the copy is swapped
        in if the flag is still clear (run alone, always, on the first pass).
        Then capacity is published and the resize flag cleared. */
    method Resize()
      requires Valid()
      modifies this
      ensures Valid()
      ensures Contents() == old(Contents()) && size == old(size)
      ensures old(ResizeDue()) ==>
                && capacity == old(capacity) * resizeFactor
                && chainCount == old(chainCount) * resizeFactor
                && (forall b :: 0 <= b < bucketsCount ==> Refiled(policy, hasher, old(buckets[b]), buckets[b], chainCount))
      ensures !old(ResizeDue()) ==> buckets == old(buckets) && capacity == old(capacity)
    {
      if resizing || size * resizeFactor < capacity {
        return;
      }
      // The compare-exchange on the resize flag succeeds: nothing else runs.
      resizing := true;
      var bucketCapacity := capacity * resizeFactor / bucketsCount;
      ghost var oldBuckets := buckets;
      GrowthArithmetic(bucketsCount, chainCount, resizeFactor, size, capacity);
      var grown: nat := bucketsCount * bucketCapacity;
      CopyBuckets(bucketCapacity);
      ResizeStep(policy, hasher, bucketsCount, oldBuckets, chainCount, capacity, size, buckets, bucketCapacity);
      capacity := grown;
      chainCount := bucketCapacity;
      resizing := false;
      assert Invariant(policy, hasher, bucketsCount, buckets, chainCount, capacity, size);
    }
  }

  /** In a placed table the scan of the key's home chain agrees with the lookup. */
  lemma FoundIsLookup<V(!new), K, A(!new)>(p: KeyPolicy<V, K, A>, hasher: K -> nat, table: seq<LockableBucket<V>>, k: K)
    requires TablePlaced(p, hasher, table) && UniqueKeys(p, TableElements(table))
    ensures FindLocked(p, hasher(k), k, table[hasher(k) % |table|].chains) == LookupIn(p, TableElements(table), k)
  {
    var r := FindLocked(p, hasher(k), k, table[hasher(k) % |table|].chains);
    var chains := table[hasher(k) % |table|].chains;
    assert HomeChain(p, hasher, table, k) == chains[hasher(k) % |chains|];
    if r.Some? {
      ElementInHomeChain(p, hasher, table, r.value);
      LookupFinds(p, TableElements(table), r.value);
    } else {
      forall w | w in TableElements(table)
        ensures p.keyOf(w) != k
      {
        ElementInHomeChain(p, hasher, table, w);
      }
    }
  }

  /** The chain count after a due resize: `capacity * ResizeFactor / BucketsCount`
      is `chains * ResizeFactor`, and it is at least 1. */
  lemma GrowthArithmetic(bucketsCount: nat, chains: nat, resizeFactor: nat, size: nat, capacity: nat)
    requires bucketsCount > 0 && chains >= 1 && capacity == bucketsCount * chains
    requires size * resizeFactor >= capacity
    ensures capacity * resizeFactor / bucketsCount == chains * resizeFactor
    ensures chains * resizeFactor >= 1
    ensures bucketsCount * (chains * resizeFactor) == capacity * resizeFactor
  {
    assert capacity * resizeFactor == bucketsCount * (chains * resizeFactor);
    ModOfDecomposition(capacity * resizeFactor, bucketsCount, chains * resizeFactor, 0);
    assert capacity >= 1 by { MulMono(bucketsCount, 1, chains); }
    assert resizeFactor >= 1;
    MulMono(chains, 1, resizeFactor);
  }
}
