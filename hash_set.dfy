/** `hash_set`: the hash storage instantiated with `set_traits`, whose key of
    a stored element is the element itself and whose merge does nothing. */
module HashSet {
  import opened Optional
  import opened Bits
  import opened HashStorage

  /** `set_traits<T>`: `extract_key` is the identity (for a stored value and
      for the one argument of `emplace` alike), `emplace_front(v)` stores v,
      and both `assign_value` overloads leave their target as it is. */
  function SetPolicy<T(!new)>(): (p: KeyPolicy<T, T, T>)
    ensures forall v :: p.keyOf(v) == v && p.keyOfArgs(v) == v && p.construct(v) == v
    ensures forall v, w :: p.renew(v, w) == v && p.refresh(v, w) == v
  {
    KeyPolicy(v => v, a => a, a => a, (v, a) => v, (v, w) => v)
  }

  lemma SetPolicyLawful<T(!new)>()
    ensures Lawful(SetPolicy<T>())
  {
  }

  /** With the identity key, looking up k finds k exactly when k is stored. */
  lemma SetLookup<T(!new)>(contents: multiset<T>, k: T)
    ensures LookupIn(SetPolicy(), contents, k) == if k in contents then Some(k) else None
  {
    var p := SetPolicy<T>();
    var r := LookupIn(p, contents, k);
    if k in contents {
      assert Carries(p, k, k);
    }
  }

  /** `emplace(x)` adds x when absent; when x is already stored the storage
      is left unchanged (the merge is a no-op). */
  lemma SetEmplace<T(!new)>(contents: multiset<T>, x: T)
    ensures AfterEmplace(SetPolicy(), contents, x) == if x in contents then contents else contents + multiset{x}
  {
    SetLookup(contents, x);
    if x in contents {
      assert contents - multiset{x} + multiset{x} == contents;
    }
  }

  /** The default instantiation: 8 buckets and resize factor 2. */
  method NewHashSet<T(==,!new)>(hasher: T -> nat) returns (s: HashStorage<T, T, T>)
    ensures fresh(s) && s.Valid()
    ensures s.policy == SetPolicy() && s.hasher == hasher
    ensures s.bucketsCount == 8 && s.resizeFactor == 2
    ensures s.Contents() == multiset{} && s.size == 0 && s.capacity == 8
  {
    SetPolicyLawful<T>();
    assert And(8, 7) == 0;
    s := new HashStorage(SetPolicy(), hasher, 8, 2);
  }

  /** `hash_set::emplace(x)` in set terms: x is added when absent, the set is
      unchanged when x is present, and `true` is returned exactly for a new x. */
  method Emplace<T(==,!new)>(s: HashStorage<T, T, T>, x: T) returns (isNew: bool)
    requires s.Valid() && s.policy == SetPolicy()
    modifies s
    ensures s.Valid()
    ensures isNew <==> x !in old(s.Contents())
    ensures s.Contents() == if isNew then old(s.Contents()) + multiset{x} else old(s.Contents())
    ensures s.size == old(s.size) + (if isNew then 1 else 0)
  {
    SetLookup(s.Contents(), x);
    SetEmplace(s.Contents(), x);
    isNew := s.Emplace(x);
  }

  /** `hash_set::find(k)`: k is found exactly when it is stored. */
  method Find<T(==,!new)>(s: HashStorage<T, T, T>, k: T) returns (found: bool)
    requires s.Valid() && s.policy == SetPolicy()
    ensures found <==> k in s.Contents()
  {
    SetLookup(s.Contents(), k);
    var r := s.Find(k);
    found := r.Some?;
  }

  /** The add-and-find test run on one thread: after `emplace(i)` for every i
      in `0 .. n-1`, exactly those i are stored, each is found, and `size() == n`. */
  method AddFind(hasher: int -> nat, n: nat) returns (s: HashStorage<int, int, int>)
    ensures fresh(s) && s.Valid() && s.policy == SetPolicy()
    ensures forall j :: j in s.Contents() <==> 0 <= j < n
    ensures forall j :: 0 <= j < n ==> LookupIn(s.policy, s.Contents(), j) == Some(j)
    ensures s.size == n
  {
    s := NewHashSet(hasher);
    var i := 0;
    while i < n
      invariant 0 <= i <= n
      invariant s.Valid() && s.policy == SetPolicy()
      invariant forall j :: j in s.Contents() <==> 0 <= j < i
      invariant s.size == i
    {
      ghost var before := s.Contents();
      var isNew := Emplace(s, i);
      assert s.Contents() == before + multiset{i};
      assert forall j :: j in s.Contents() <==> j in before || j == i;
      var found := Find(s, i);
      i := i + 1;
    }
    forall j | 0 <= j < n
      ensures LookupIn(s.policy, s.Contents(), j) == Some(j)
    {
      SetLookup(s.Contents(), j);
    }
  }

  /** The add-and-remove test run on one thread: after `emplace(i)` and then
      `remove(i)` for every i in `0 .. n-1`, the set is empty and `size() == 0`. */
  method AddRemove(hasher: int -> nat, n: nat) returns (s: HashStorage<int, int, int>)
    ensures fresh(s) && s.Valid()
    ensures s.Contents() == multiset{} && s.size == 0
  {
    s := AddFind(hasher, n);
    var i := 0;
    while i < n
      invariant 0 <= i <= n
      invariant s.Valid() && s.policy == SetPolicy()
      invariant forall j :: j in s.Contents() <==> i <= j < n
      invariant s.size == n - i
    {
      ghost var before := s.Contents();
      s.Remove(i);
      assert s.Contents() == before[i := 0];
      assert forall j :: j in s.Contents() <==> j in before && j != i;
      i := i + 1;
    }
    assert forall j :: j !in s.Contents();
    assert s.Contents() == multiset{};
  }
}
