/** `hash_map`: the hash storage instantiated with `map_traits`, storing
    key/value pairs whose key is the pair's `key` field. */
module HashMap {
  import opened Optional
  import opened Bits
  import opened HashStorage

  /** `key_value<TKey, TValue>` */
  datatype KeyValue<K, Val> = KeyValue(key: K, value: Val)

  /** The argument pack of `emplace(k, args...)`: the key, then the arguments
      of the value's constructor. */
  datatype MapArgs<K, Args> = MapArgs(key: K, args: Args)

  /** `map_traits<TKey, TValue>`, for a value constructor `build` (`TValue(args...)`):
      `extract_key` yields the `key` field of a pair and the first argument of
      a pack; a pair is built as `key_value(k, args...)`; `assign_value(kv, k, args...)`
      replaces only the value by `TValue(args...)`; `assign_value(lhs, rhs)`
      copies only `rhs.value` into `lhs`. */
  function MapPolicy<K(!new), Args(!new), Val(!new)>(build: Args -> Val): (p: KeyPolicy<KeyValue<K, Val>, K, MapArgs<K, Args>>)
    ensures forall kv :: p.keyOf(kv) == kv.key
    ensures forall a :: p.keyOfArgs(a) == a.key
    ensures forall a :: p.construct(a).key == a.key && p.construct(a).value == build(a.args)
    ensures forall kv, a :: p.renew(kv, a).key == kv.key && p.renew(kv, a).value == build(a.args)
    ensures forall lhs, rhs :: p.refresh(lhs, rhs).key == lhs.key && p.refresh(lhs, rhs).value == rhs.value
  {
    KeyPolicy(
      (kv: KeyValue<K, Val>) => kv.key,
      (a: MapArgs<K, Args>) => a.key,
      (a: MapArgs<K, Args>) => KeyValue(a.key, build(a.args)),
      (kv: KeyValue<K, Val>, a: MapArgs<K, Args>) => kv.(value := build(a.args)),
      (lhs: KeyValue<K, Val>, rhs: KeyValue<K, Val>) => lhs.(value := rhs.value))
  }

  /** A built pair carries the key it was built with, and renewing a pair
      never changes its key. */
  lemma MapPolicyLawful<K(!new), Args(!new), Val(!new)>(build: Args -> Val)
    ensures Lawful(MapPolicy<K, Args, Val>(build))
  {
  }

  /** The value stored under k, if any. */
  ghost function ValueOf<K(!new), Args(!new), Val(!new)>(build: Args -> Val, contents: multiset<KeyValue<K, Val>>, k: K): (r: Option<Val>)
    ensures r.Some? <==> LookupIn(MapPolicy(build), contents, k).Some?
    ensures r.Some? ==> KeyValue(k, r.value) in contents
  {
    match LookupIn(MapPolicy(build), contents, k)
    case None => None
    case Some(kv) => Some(kv.value)
  }

  /** Under unique keys, a stored pair is the one the lookup of its key finds. */
  lemma ValueOfStored<K(!new), Args(!new), Val(!new)>(build: Args -> Val, contents: multiset<KeyValue<K, Val>>, kv: KeyValue<K, Val>)
    requires UniqueKeys(MapPolicy(build), contents) && kv in contents
    ensures ValueOf(build, contents, kv.key) == Some(kv.value)
  {
    LookupFinds(MapPolicy(build), contents, kv);
  }

  /** `emplace(k, args...)` on the map: afterwards k holds `TValue(args...)`,
      whether it was new or renewed, and every other key keeps its value. */
  lemma {:induction false} MapEmplace<K(!new), Args(!new), Val(!new)>(build: Args -> Val, contents: multiset<KeyValue<K, Val>>, k: K, args: Args)
    requires UniqueKeys(MapPolicy(build), contents)
    ensures ValueOf(build, AfterEmplace(MapPolicy(build), contents, MapArgs(k, args)), k) == Some(build(args))
    ensures forall j :: j != k ==>
              ValueOf(build, AfterEmplace(MapPolicy(build), contents, MapArgs(k, args)), j) == ValueOf(build, contents, j)
  {
    var p := MapPolicy<K, Args, Val>(build);
    var a := MapArgs(k, args);
    var after := AfterEmplace(p, contents, a);
    MapPolicyLawful<K, Args, Val>(build);
    EmplaceSpec(p, contents, a);
    forall j | j != k
      ensures ValueOf(build, after, j) == ValueOf(build, contents, j)
    {
      match LookupIn(p, contents, j)
      case Some(v) =>
        assert v in after;
        LookupFinds(p, after, v);
      case None =>
        // a value with key j in `after` was already stored: only key k changed
    }
  }

  /** `hash_map` with its default parameters (8 buckets, resize factor 2). */
  class HashMap<K(==,!new), Args(!new), Val(==,!new)> {
    const build: Args -> Val                                             // TValue(args...)
    const blank: Val                                                     // TValue()
    const storage: HashStorage<KeyValue<K, Val>, K, MapArgs<K, Args>>    // m_storage

    ghost predicate Valid()
      reads this, storage
    {
      storage.Valid() && storage.policy == MapPolicy(build)
    }

    /** The value stored under k, if any. */
    ghost function Stored(k: K): Option<Val>
      reads this, storage
    {
      ValueOf(build, storage.Contents(), k)
    }

    constructor (hasher: K -> nat, build: Args -> Val, blank: Val)
      ensures Valid() && fresh(storage)
      ensures this.build == build && this.blank == blank && storage.hasher == hasher
      ensures storage.bucketsCount == 8 && storage.resizeFactor == 2 && storage.capacity == 8
      ensures forall k :: Stored(k) == None
    {
      MapPolicyLawful<K, Args, Val>(build);
      assert And(8, 7) == 0;
      this.build := build;
      this.blank := blank;
      storage := new HashStorage(MapPolicy(build), hasher, 8, 2);
    }

    /** `emplace(k, args...)`: true exactly when k was absent; afterwards k
        holds `TValue(args...)` and no other key changed. */
    method Emplace(k: K, args: Args) returns (isNew: bool)
      requires Valid()
      modifies storage
      ensures Valid()
      ensures isNew <==> old(Stored(k)).None?
      ensures Stored(k) == Some(build(args))
      ensures forall j :: j != k ==> Stored(j) == old(Stored(j))
      ensures storage.size == old(storage.size) + (if isNew then 1 else 0)
    {
      MapEmplace(build, storage.Contents(), k, args);
      isNew := storage.Emplace(MapArgs(k, args));
    }

    /** `obtain(k, v)`: true exactly when k is present, and then the stored
        value is handed out; otherwise v is handed back unchanged. */
    method Obtain(k: K, v: Val) returns (obtained: bool, out: Val)
      requires Valid()
      ensures obtained <==> Stored(k).Some?
      ensures obtained ==> out == Stored(k).value
      ensures !obtained ==> out == v
    {
      var kv := KeyValue(k, blank);    // key_value{ k }
      var found, filled := storage.Obtain(kv);
      out := v;
      if found {
        out := filled.value;
      }
      obtained := found;
    }

    /** `get(k)`: the stored value of k, or an empty optional. */
    method Get(k: K) returns (ov: Option<Val>)
      requires Valid()
      ensures ov == Stored(k)
    {
      var kv := KeyValue(k, blank);    // key_value{ k }
      var found, filled := storage.Obtain(kv);
      ov := None;
      if found {
        ov := Some(filled.value);
      }
    }
  }

  /** The test's value type `dumb`: three strings, each defaulting to "". */
  datatype Dumb = Dumb(a: string, b: string, c: string)

  /** The map test run on one thread: after `emplace("lol", "a", " ", "-")`,
      `obtain("lol", d)` hands out a value with `a == "a"`, and so does `get("lol")`. */
  method LolTest(hasher: string -> nat) returns (d: Dumb, res: Option<Dumb>)
    ensures d.a == "a"
    ensures res == Some(Dumb("a", " ", "-"))
  {
    var m := new HashMap<string, (string, string, string), Dumb>(hasher, (t: (string, string, string)) => Dumb(t.0, t.1, t.2), Dumb("", "", ""));
    var isNew := m.Emplace("lol", ("a", " ", "-"));
    d := Dumb("", "", "");
    var obtained;
    obtained, d := m.Obtain("lol", d);
    res := m.Get("lol");
  }
}
