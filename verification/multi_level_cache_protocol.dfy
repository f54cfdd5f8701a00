/** `MultiLevelCache` as the concrete cache behind `CacheBase`: its operations
    are the primitives of the get-or-populate protocol. A node is one cache
    instance together with the shared store it talks to and its clock. */
module MultiLevelCacheProtocol {
  import opened Wrappers
  import opened Text
  import opened LocalCacheEntry
  import opened CacheKeys
  import opened DictionaryExtensions
  import opened MultiLevelCache
  import opened MultiLevelCacheProperties
  import opened CacheBase

  /** One cache instance, the shared store, and the `Stopwatch` reading the
      next operation takes. */
  datatype Node<V> = Node(cache: Cache<V>, store: SharedStore, clock: int)

  /** A `MultiLevelCache` operation run on a node; the clock moves on. */
  function Tick<V, R>(n: Node<V>, st: Step<V, R>): Outcome<Node<V>, R> {
    Outcome(Node(st.cache, st.store, n.clock + 1), st.result)
  }

  function BatchTick<V>(n: Node<V>, st: Step<V, map<string, Option<V>>>): Outcome<Node<V>, Option<map<string, Option<V>>>> {
    Outcome(Node(st.cache, st.store, n.clock + 1), if st.result.Ok? then Ok(Some(st.result.value)) else Throws(st.result.error))
  }

  /** The overrides of `MultiLevelCache`, for a cache called `name`. */
  function Instance<V>(env: Env<V>, name: string): Primitives<Node<V>, V> {
    Primitives(
      name,
      (n: Node<V>, key: string) => Tick(n, GetOrDefault(env, n.cache, n.store, key, n.clock)),
      (n: Node<V>, keys: seq<string>) => BatchTick(n, GetOrDefaultMany(env, n.cache, n.store, keys, n.clock)),
      (n: Node<V>, key: string, value: Option<V>) => Tick(n, Set(env, n.cache, n.store, key, value, n.clock)),
      (n: Node<V>, values: Dictionary<string, Option<V>>) => Tick(n, SetMany(env, n.cache, n.store, values, n.clock)),
      (n: Node<V>, key: string) => Tick(n, Remove(env, n.cache, n.store, key)),
      (n: Node<V>) => Tick(n, Clear(n.cache, n.store)))
  }

  // ---- Single-key protocol ----

  /** `Get` memoizes: once it has produced a value (read or made by the
      factory), the next `Get` of the key returns that value without calling
      its factory. */
  lemma GetMemoizes<V(!new)>(env: Env<V>, n: Node<V>, key: string, v: V,
                             f: string -> Option<V>, g: string -> Option<V>)
    requires Faithful(env.codec)
    requires Get(Instance(env, n.cache.name), n, key, f).result == Ok(Some(v))
    ensures var p := Instance(env, n.cache.name);
            var r := Get(p, Get(p, n, key, f).state, key, g);
            r.result == Ok(Some(v)) && r.factoryInput.None?
  {
    var p := Instance(env, n.cache.name);
    var r1 := Get(p, n, key, f);
    var o1 := p.getOrDefault(n, key);
    var o2 := p.getOrDefault(o1.state, key);
    if o1.result == Ok(Some(v)) {
      GetOrDefaultStable(env, n.cache, n.store, key, v, n.clock, r1.state.clock);
    } else if o2.result == Ok(Some(v)) {
      GetOrDefaultStable(env, o1.state.cache, o1.state.store, key, v, o1.state.clock, r1.state.clock);
    } else {
      assert r1.factoryInput.Some? && f(key) == Some(v);
      var s2 := o2.state;
      assert r1.state == p.setValue(s2, key, Some(v)).state;
      if IsNullOrWhiteSpace(key) {
        assert false;
      }
      SetThenGet(env, s2.cache, s2.store, key, v, s2.clock, r1.state.clock);
    }
  }

  /** `GetAsync` and `SetAsync` localize the key once more than the cache
      does: the value the factory makes is stored under `Name:Name:key`. */
  lemma GetAsyncStoresDoublyLocalized<V>(env: Env<V>, n: Node<V>, key: string, f: string -> Option<V>)
    requires var p := Instance(env, n.cache.name);
             Get(AsyncPrimitives(p), n, key, f).factoryInput.Some? && f(key).Some?
    ensures var r := GetAsync(Instance(env, n.cache.name), n, key, f);
            var doubly := LocalizedKey(n.cache.name, LocalizedKey(n.cache.name, key));
            doubly in r.state.store.redis && r.state.store.redis[doubly] == env.codec.serialize(f(key))
  {
    var name := n.cache.name;
    assert !IsNullOrWhiteSpace(LocalizedKey(name, key)) by {
      assert LocalizedKey(name, key)[|name|] == ':';
    }
  }

  /** So a value written with `SetAsync` is not what the synchronous read of
      the same key sees. */
  lemma SetAsyncInvisibleToGet<V>(env: Env<V>, n: Node<V>, key: string, value: V)
    requires var k := LocalizedKey(n.cache.name, key);
             !ServedLocally(n.cache, k) && k !in n.store.redis
    requires LocalizedKey(n.cache.name, key) != LocalizedKey(n.cache.name, LocalizedKey(n.cache.name, key))
    ensures var p := Instance(env, n.cache.name);
            var w := AsyncPrimitives(p).setValue(n, key, Some(value));
            p.getOrDefault(w.state, key).result == Ok(None)
  {
    var name := n.cache.name;
    assert !IsNullOrWhiteSpace(LocalizedKey(name, key)) by {
      assert LocalizedKey(name, key)[|name|] == ':';
    }
  }

  // ---- Batch protocol ----

  /** The fast path of the batch `Get` hands back the cache's own map, whose
      keys are the LOCALIZED request keys. */
  lemma GetManyFastPathLocalized<V>(env: Env<V>, n: Node<V>, keys: seq<string>,
                                    f: seq<string> -> Option<Dictionary<string, Option<V>>>)
    requires NoDuplicates(keys)
    requires var r := GetMany(Instance(env, n.cache.name), n, keys, f);
             r.result.Ok? && r.result.value.Some? && r.factoryInput.None?
             && r.result == Instance(env, n.cache.name).getOrDefaultMany(n, keys).result
    ensures var m := GetMany(Instance(env, n.cache.name), n, keys, f).result.value.value;
            forall k :: k in m ==> k in LocalizeAll(n.cache.name, keys)
  {
    var lks := LocalizeAll(n.cache.name, keys);
    GetOrDefaultManyResult(env, n.cache, n.store, keys, n.clock);
    var nf := NotFoundKeys(n.cache, lks);
  }

  /** Keys that are not themselves localized forms of the request keys. */
  predicate RawKeys(name: string, keys: seq<string>) {
    forall i :: 0 <= i < |keys| ==> keys[i] !in LocalizeAll(name, keys)
  }

  /** The node holds none of the keys where the batch read looks: no typed
      near-cache entry and no shared entry under any localized key. */
  predicate Absent<V>(n: Node<V>, keys: seq<string>) {
    forall k :: k in LocalizeAll(n.cache.name, keys) ==> TypedEntry(n.cache, k).None? && k !in n.store.redis
  }

  /** Both batch reads of absent keys come back empty and change nothing but the clock. */
  lemma ReadsOfAbsent<V>(env: Env<V>, n: Node<V>, keys: seq<string>)
    requires NoDuplicates(keys) && Absent(n, keys)
    ensures var p := Instance(env, n.cache.name);
            && p.getOrDefaultMany(n, keys) == Outcome(n.(clock := n.clock + 1), Ok(Some(map[])))
            && p.getOrDefaultMany(n.(clock := n.clock + 1), keys) == Outcome(n.(clock := n.clock + 2), Ok(Some(map[])))
  {
    BatchReadOfAbsent(env, n.cache, n.store, keys, n.clock);
    BatchReadOfAbsent(env, n.cache, n.store, keys, n.clock + 1);
  }

  /** On absent keys the batch `Get` asks the factory for every key. */
  lemma GetManyOfAbsentAsksForAll<V>(env: Env<V>, n: Node<V>, keys: seq<string>,
                                     f: seq<string> -> Option<Dictionary<string, Option<V>>>)
    requires NoDuplicates(keys) && |keys| > 0 && Absent(n, keys)
    ensures GetMany(Instance(env, n.cache.name), n, keys, f).factoryInput == Some(keys)
  {
    ReadsOfAbsent(env, n, keys);
    var empty: map<string, Option<V>> := map[];
    MissingAll(keys, empty);
  }

  /** ... and when the factory answers for exactly those keys, returns the
      answer keyed by the RAW keys, after storing it with the batch `Set`. */
  lemma GetManyOfAbsentAnswers<V>(env: Env<V>, n: Node<V>, keys: seq<string>,
                                  f: seq<string> -> Option<Dictionary<string, Option<V>>>)
    requires NoDuplicates(keys) && |keys| > 0 && Absent(n, keys)
    requires f(keys).Some? && KeysOf(f(keys).value) == keys
    ensures var r := GetMany(Instance(env, n.cache.name), n, keys, f);
            var w := SetMany(env, n.cache, n.store, f(keys).value, n.clock + 2);
            && r.result == Ok(Some(ToMap(f(keys).value)))
            && r.state == Node(w.cache, w.store, n.clock + 3)
  {
    ReadsOfAbsent(env, n, keys);
    var items := f(keys).value;
    assert |items| == |keys|;
    GetManyOfEmptyReads(Instance(env, n.cache.name), n, keys, f);
  }

  /** The batch write of raw keys leaves them absent for the batch read. */
  lemma SetManyLeavesAbsent<V>(env: Env<V>, n: Node<V>, keys: seq<string>, items: Dictionary<string, Option<V>>, now: int)
    requires Absent(n, keys) && RawKeys(n.cache.name, keys) && KeysOf(items) == keys && |items| > 0
    ensures var w := SetMany(env, n.cache, n.store, items, now);
            Absent(Node(w.cache, w.store, now + 1), keys)
  {
    var name := n.cache.name;
    var lks := LocalizeAll(name, keys);
    var w := SetMany(env, n.cache, n.store, items, now);
    forall i | 0 <= i < |keys|
      ensures TypedEntry(w.cache, lks[i]).None? && lks[i] !in w.store.redis
    {
      var k := lks[i];
      assert keys[i] == items[i].0;
      assert w.cache.caches[k].typeArgument == Untyped;
      assert k !in keys;
      assert k in lks && k !in n.store.redis;
    }
  }

  /** At a type other than `object`: on a cache that holds none of the
      keys, the batch `Get` asks the factory for every key and returns its
      answer keyed by the RAW keys; and the next batch `Get` asks the
      factory for every key again: the batch write stores raw keys in the
      shared store and `object` entries locally, and the batch read looks
      for neither. */
  lemma GetManyNeverMemoizes<V>(env: Env<V>, n: Node<V>, keys: seq<string>,
                                f: seq<string> -> Option<Dictionary<string, Option<V>>>,
                                g: seq<string> -> Option<Dictionary<string, Option<V>>>)
    requires NoDuplicates(keys) && |keys| > 0 && RawKeys(n.cache.name, keys) && Absent(n, keys)
    requires f(keys).Some? && KeysOf(f(keys).value) == keys
    ensures var p := Instance(env, n.cache.name);
            var r1 := GetMany(p, n, keys, f);
            && r1.factoryInput == Some(keys)
            && r1.result == Ok(Some(ToMap(f(keys).value)))
            && GetMany(p, r1.state, keys, g).factoryInput == Some(keys)
  {
    GetManyOfAbsentAsksForAll(env, n, keys, f);
    GetManyOfAbsentAnswers(env, n, keys, f);
    SetManyLeavesAbsent(env, n, keys, f(keys).value, n.clock + 2);
    var r1 := GetMany(Instance(env, n.cache.name), n, keys, f);
    GetManyOfAbsentAsksForAll(env, r1.state, keys, g);
  }
}
