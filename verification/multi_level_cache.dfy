/** Beleriand.MultiLevelCache: a near-cache of `LocalCacheEntry` records in
    front of a shared Redis store, kept fresh by a per-instance table of
    16384 slot stamps that the two pub/sub handlers maintain.

    Every operation is a function from the instance state (near-cache, slot
    table) and the shared store (keys and the log of published messages) to
    their new values and the operation's result. `now` is the
    `Stopwatch.GetTimestamp()` reading the operation takes first. */
module MultiLevelCache {
  import opened Wrappers
  import opened Text
  import opened LocalCacheEntry
  import opened DataSync
  import opened CacheKeys
  import opened DictionaryExtensions

  /** `JsonConvert.SerializeObject` / `DeserializeObject<T>` on a nullable value. */
  datatype Codec<!V> = Codec(serialize: Option<V> -> string, deserialize: string -> Option<V>)

  /** Deserializing a serialized value gives it back, and no value serializes
      to the empty string (JSON text never is empty). */
  ghost predicate Faithful<V(!new)>(codec: Codec<V>) {
    forall x :: codec.deserialize(codec.serialize(x)) == x && |codec.serialize(x)| > 0
  }

  /** The collaborators whose source is not part of this model. */
  datatype Env<!V> = Env(hash: HashSlotCalculator, codec: Codec<V>)

  /** `n` zero stamps. */
  function Zeros(n: nat): (r: seq<int>)
    ensures |r| == n && forall i :: 0 <= i < n ==> r[i] == 0
  {
    if n == 0 then [] else Zeros(n - 1) + [0]
  }

  /** `new long[HashSlotCount]`. */
  const InitialStamps: seq<int> := Zeros(HashSlotCount)

  /** `_lastUpdated`: one stamp per slot. */
  type StampTable = s: seq<int> | |s| == HashSlotCount witness InitialStamps

  /** The per-instance state. `caches` holds `LocalCacheEntry` records under
      localized keys; an entry's data may be `null`. */
  datatype Cache<V> = Cache(
    name: string,
    instanceId: InstanceId,
    caches: map<string, Entry<Option<V>>>,
    lastUpdated: StampTable)

  /** The shared store: Redis keys holding serialized values, and every
      message published so far. */
  datatype SharedStore = SharedStore(redis: map<string, string>, published: seq<Published>)

  /** An operation's effect on both states, and its return value or exception. */
  datatype Step<V, R> = Step(cache: Cache<V>, store: SharedStore, result: Result<R>)

  /** A freshly constructed cache: empty near-cache, every stamp zero. */
  function NewCache<V>(name: string, instanceId: InstanceId): (c: Cache<V>)
    ensures c.name == name && c.instanceId == instanceId
    ensures c.caches == map[]
    ensures forall s: Slot :: c.lastUpdated[s] == 0
  {
    Cache(name, instanceId, map[], InitialStamps)
  }

  // ---- Reading the near-cache ----

  /** `_caches.GetOrDefault(key) is LocalCacheEntry<T>`: the entry a typed
      read sees; an entry stored as `LocalCacheEntry<object>` does not match. */
  function TypedEntry<V>(c: Cache<V>, key: string): Option<Entry<Option<V>>> {
    if key in c.caches && c.caches[key].typeArgument == Typed then Some(c.caches[key]) else None
  }

  /** The freshness rule: an entry is trusted iff its slot was last
      invalidated strictly before the entry was written. */
  predicate IsFresh<V>(c: Cache<V>, e: Entry<Option<V>>) {
    c.lastUpdated[e.keyHashSlot] < e.timestamp
  }

  /** The near-cache answers a read of the localized `key` by itself. */
  predicate ServedLocally<V>(c: Cache<V>, key: string) {
    TypedEntry(c, key).Some? && IsFresh(c, TypedEntry(c, key).value)
  }

  /** The slot a read records for `key`: the stale entry's slot if a typed
      entry exists, else the hash slot of the key. */
  function SlotFor<V>(env: Env<V>, c: Cache<V>, key: string): Slot {
    if TypedEntry(c, key).Some? then TypedEntry(c, key).value.keyHashSlot else env.hash(key)
  }

  /** A non-null Redis string after deserialization: an empty string reads as `null`. */
  function Decode<V>(env: Env<V>, s: string): Option<V> {
    if |s| > 0 then env.codec.deserialize(s) else None
  }

  /** What a single-key `GET` of `key` yields once deserialized. */
  function SharedValue<V>(env: Env<V>, store: SharedStore, key: string): Option<V> {
    if key in store.redis then Decode(env, store.redis[key]) else None
  }

  /** `GetOrDefault<T>(key)`: a fresh typed local entry answers directly;
      otherwise the shared value is fetched and, when it deserializes to a
      non-null value, cached under the localized key stamped `now - 1`. */
  function GetOrDefault<V>(env: Env<V>, c: Cache<V>, store: SharedStore, key: string, now: int): (r: Step<V, Option<V>>)
    ensures r.store == store && r.result.Ok?
    ensures r.cache.name == c.name && r.cache.instanceId == c.instanceId && r.cache.lastUpdated == c.lastUpdated
    ensures var k := LocalizedKey(c.name, key);
            ServedLocally(c, k) ==> r.cache == c && r.result.value == c.caches[k].data
    ensures var k := LocalizedKey(c.name, key);
            !ServedLocally(c, k) ==> r.result.value == SharedValue(env, store, k)
    ensures var k := LocalizedKey(c.name, key);
            !ServedLocally(c, k) && SharedValue(env, store, k).None? ==> r.cache == c
    ensures var k := LocalizedKey(c.name, key);
            !ServedLocally(c, k) && SharedValue(env, store, k).Some? ==>
              r.cache.caches == c.caches[k := Entry(SlotFor(env, c, k), now - 1, SharedValue(env, store, k), Typed)]
  {
    var k := LocalizedKey(c.name, key);
    var timestamp := now - 1;
    var local := TypedEntry(c, k);
    if local.Some? && IsFresh(c, local.value) then
      Step(c, store, Ok(local.value.data))
    else if k !in store.redis then
      Step(c, store, Ok(None))
    else
      var serializedData := store.redis[k];
      if |serializedData| == 0 then
        Step(c, store, Ok(None))
      else
        var value := env.codec.deserialize(serializedData);
        if value.None? then
          Step(c, store, Ok(None))
        else
          var keyHashSlot := if local.Some? then local.value.keyHashSlot else env.hash(k);
          Step(c.(caches := c.caches[k := Entry(keyHashSlot, timestamp, value, Typed)]), store, Ok(value))
  }

  // ---- Batch read ----

  /** The localized keys the near-cache answers, with their data (`resultMap`
      after the first loop). */
  function LocallyFound<V>(c: Cache<V>, keys: seq<string>): (m: map<string, Option<V>>)
    ensures forall k :: k in m <==> k in keys && ServedLocally(c, k)
    ensures forall k :: k in m ==> k in c.caches && m[k] == c.caches[k].data
  {
    map k | k in keys && ServedLocally(c, k) :: c.caches[k].data
  }

  /** `notFoundKeys`: the keys the near-cache does not answer, in request order. */
  function NotFoundKeys<V>(c: Cache<V>, keys: seq<string>): (r: seq<string>)
    ensures forall i :: 0 <= i < |r| ==> r[i] in keys && !ServedLocally(c, r[i])
    ensures forall k :: k in keys && !ServedLocally(c, k) ==> k in r
    ensures NoDuplicates(keys) ==> NoDuplicates(r)
  {
    if |keys| == 0 then []
    else
      var rest := NotFoundKeys(c, keys[1..]);
      if ServedLocally(c, keys[0]) then rest else [keys[0]] + rest
  }

  /** The non-null replies of an `MGET` over all `keys`, in key order, each
      deserialized (an empty string becoming `null`). */
  function FetchedValues<V>(env: Env<V>, store: SharedStore, keys: seq<string>): (r: seq<Option<V>>)
    ensures |r| <= |keys|
  {
    if |keys| == 0 then []
    else
      (if keys[0] in store.redis then [Decode(env, store.redis[keys[0]])] else [])
      + FetchedValues(env, store, keys[1..])
  }

  function Min(a: int, b: int): int {
    if a < b then a else b
  }

  /** What the second loop adds to `resultMap`: the `i`-th fetched value
      under the `i`-th not-found key, for as long as both last. */
  function PairedValues<V>(notFound: seq<string>, values: seq<Option<V>>): (ps: seq<(string, Option<V>)>)
    requires NoDuplicates(notFound)
    ensures |ps| == Min(|values|, |notFound|)
    ensures forall i :: 0 <= i < |ps| ==> ps[i] == (notFound[i], values[i])
    ensures IsDictionary(ps)
  {
    var n := Min(|values|, |notFound|);
    var ps := seq(n, i requires 0 <= i < n => (notFound[i], values[i]));
    assert forall i :: 0 <= i < n ==> KeysOf(ps)[i] == notFound[i];
    ps
  }

  /** What the second loop writes into the near-cache: an entry for each
      paired key, with the slot the first loop recorded for it. */
  function PairedEntries<V>(env: Env<V>, c: Cache<V>, notFound: seq<string>, values: seq<Option<V>>,
                            timestamp: int): (ps: seq<(string, Entry<Option<V>>)>)
    requires NoDuplicates(notFound)
    ensures |ps| == Min(|values|, |notFound|)
    ensures forall i :: 0 <= i < |ps| ==>
              ps[i] == (notFound[i], Entry(SlotFor(env, c, notFound[i]), timestamp, values[i], Typed))
    ensures IsDictionary(ps)
  {
    var n := Min(|values|, |notFound|);
    var ps := seq(n, i requires 0 <= i < n =>
      (notFound[i], Entry(SlotFor(env, c, notFound[i]), timestamp, values[i], Typed)));
    assert forall i :: 0 <= i < n ==> KeysOf(ps)[i] == notFound[i];
    ps
  }

  /** The second loop of the batch read: every pair is cached under its
      key; the pairs join `resultMap`, unless there are more fetched values
      than not-found keys, in which case `ElementAt` throws after the pairs
      were cached. */
  function PairFetched<V>(env: Env<V>, c: Cache<V>, store: SharedStore, found: map<string, Option<V>>,
                          notFound: seq<string>, values: seq<Option<V>>, timestamp: int): (r: Step<V, map<string, Option<V>>>)
    requires NoDuplicates(notFound)
    ensures r.store == store
    ensures r.cache.name == c.name && r.cache.instanceId == c.instanceId && r.cache.lastUpdated == c.lastUpdated
    ensures r.result.Throws? <==> |values| > |notFound|
    ensures r.result.Throws? ==> r.result.error == ArgumentOutOfRangeException("index")
  {
    var caches' := MergeFrom(c.caches, PairedEntries(env, c, notFound, values, timestamp), true);
    if |values| > |notFound| then
      Step(c.(caches := caches'), store, Throws(ArgumentOutOfRangeException("index")))
    else
      Step(c.(caches := caches'), store, Ok(found + ToMap(PairedValues(notFound, values))))
  }

  /** The pairing caches exactly the paired keys, each with its paired
      value and the slot recorded for it, and leaves every other entry alone. */
  lemma PairFetchedCaches<V>(env: Env<V>, c: Cache<V>, store: SharedStore, found: map<string, Option<V>>,
                             notFound: seq<string>, values: seq<Option<V>>, timestamp: int)
    requires NoDuplicates(notFound)
    ensures var r := PairFetched(env, c, store, found, notFound, values, timestamp);
            var n := Min(|values|, |notFound|);
            && (forall k :: k in r.cache.caches <==> k in c.caches || k in notFound[..n])
            && (forall i :: 0 <= i < n ==>
                  r.cache.caches[notFound[i]] == Entry(SlotFor(env, c, notFound[i]), timestamp, values[i], Typed))
            && (forall k :: k in c.caches && k !in notFound[..n] ==> r.cache.caches[k] == c.caches[k])
  {
    var entries := PairedEntries(env, c, notFound, values, timestamp);
    StoreAll(c.caches, entries, notFound[..|entries|]);
  }

  /** A successful pairing adds the paired keys with their values to `found`. */
  lemma PairFetchedResult<V>(env: Env<V>, c: Cache<V>, store: SharedStore, found: map<string, Option<V>>,
                             notFound: seq<string>, values: seq<Option<V>>, timestamp: int)
    requires NoDuplicates(notFound)
    requires |values| <= |notFound|
    ensures var m := PairFetched(env, c, store, found, notFound, values, timestamp).result.value;
            && (forall k :: k in m <==> k in found || k in notFound[..|values|])
            && (forall i :: 0 <= i < |values| ==> m[notFound[i]] == values[i])
            && (forall k :: k in found && k !in notFound[..|values|] ==> m[k] == found[k])
  {
    var pairs := PairedValues(notFound, values);
    MergeFromIsUnion(found, pairs, true);
    StoreAll(found, pairs, notFound[..|values|]);
  }

  /** Writing the pairs of `ps`, whose keys are `ks`, one by one with
      `AddOrUpdate` (the replacing `Merge`). */
  lemma StoreAll<K(!new), E>(m: map<K, E>, ps: seq<(K, E)>, ks: seq<K>)
    requires IsDictionary(ps) && KeysOf(ps) == ks
    ensures forall k :: k in MergeFrom(m, ps, true) <==> k in m || k in ks
    ensures forall i :: 0 <= i < |ps| ==> MergeFrom(m, ps, true)[ks[i]] == ps[i].1
    ensures forall k :: k in m && k !in ks ==> MergeFrom(m, ps, true)[k] == m[k]
  {
    MergeFromPointwise(m, ps, true);
  }

  /** `GetOrDefault<T>(keys)`: a repeated key makes a `Dictionary.Add` throw
      before anything changes; when every key is answered locally the local
      map is returned; otherwise an `MGET` over ALL keys is run and its
      non-null replies are paired by position with the not-found keys. Each
      pair is cached; running out of not-found keys is an
      `ArgumentOutOfRangeException` from `ElementAt`, after the earlier pairs
      were cached. The result is keyed by localized keys. */
  function GetOrDefaultMany<V>(env: Env<V>, c: Cache<V>, store: SharedStore, keys: seq<string>, now: int): (r: Step<V, map<string, Option<V>>>)
    ensures r.store == store
    ensures r.cache.name == c.name && r.cache.instanceId == c.instanceId && r.cache.lastUpdated == c.lastUpdated
    ensures !NoDuplicates(keys) ==> r == Step(c, store, Throws(ArgumentException(DuplicateKeyMessage)))
    ensures NoDuplicates(keys) ==>
              var lks := LocalizeAll(c.name, keys);
              var notFound := NotFoundKeys(c, lks);
              var values := FetchedValues(env, store, lks);
              && (r.result.Throws? <==> |notFound| > 0 && |values| > |notFound|)
              && (r.result.Throws? ==> r.result.error == ArgumentOutOfRangeException("index"))
              && (|notFound| == 0 ==> r.cache == c)
  {
    var lks := LocalizeAll(c.name, keys);
    LocalizeAllNoDuplicates(c.name, keys);
    if !NoDuplicates(lks) then
      Step(c, store, Throws(ArgumentException(DuplicateKeyMessage)))
    else
      var found := LocallyFound(c, lks);
      var notFound := NotFoundKeys(c, lks);
      if |notFound| == 0 then
        Step(c, store, Ok(found))
      else
        PairFetched(env, c, store, found, notFound, FetchedValues(env, store, lks), now - 1)
  }

  /** The batch read caches exactly the paired keys, each with its paired
      value and the slot recorded for it, and leaves every other entry alone. */
  lemma GetOrDefaultManyCaches<V>(env: Env<V>, c: Cache<V>, store: SharedStore, keys: seq<string>, now: int)
    requires NoDuplicates(keys)
    ensures var r := GetOrDefaultMany(env, c, store, keys, now);
            var notFound := NotFoundKeys(c, LocalizeAll(c.name, keys));
            var values := FetchedValues(env, store, LocalizeAll(c.name, keys));
            var n := Min(|values|, |notFound|);
            && (forall k :: k in r.cache.caches <==> k in c.caches || k in notFound[..n])
            && (forall i :: 0 <= i < n ==>
                  r.cache.caches[notFound[i]] == Entry(SlotFor(env, c, notFound[i]), now - 1, values[i], Typed))
            && (forall k :: k in c.caches && k !in notFound[..n] ==> r.cache.caches[k] == c.caches[k])
  {
    var lks := LocalizeAll(c.name, keys);
    LocalizeAllNoDuplicates(c.name, keys);
    var notFound := NotFoundKeys(c, lks);
    var values := FetchedValues(env, store, lks);
    if |notFound| > 0 {
      PairFetchedCaches(env, c, store, LocallyFound(c, lks), notFound, values, now - 1);
    }
  }

  /** A successful batch read answers the locally fresh keys from the
      near-cache and the first paired not-found keys with their paired
      values, and nothing else. */
  lemma GetOrDefaultManyResult<V>(env: Env<V>, c: Cache<V>, store: SharedStore, keys: seq<string>, now: int)
    requires NoDuplicates(keys)
    requires GetOrDefaultMany(env, c, store, keys, now).result.Ok?
    ensures var m := GetOrDefaultMany(env, c, store, keys, now).result.value;
            var lks := LocalizeAll(c.name, keys);
            var notFound := NotFoundKeys(c, lks);
            var values := FetchedValues(env, store, lks);
            var n := Min(|values|, |notFound|);
            && (forall k :: k in m <==> (k in lks && ServedLocally(c, k)) || k in notFound[..n])
            && (forall k :: k in lks && ServedLocally(c, k) ==> m[k] == c.caches[k].data)
            && (forall i :: 0 <= i < n ==> m[notFound[i]] == values[i])
  {
    var lks := LocalizeAll(c.name, keys);
    LocalizeAllNoDuplicates(c.name, keys);
    var found := LocallyFound(c, lks);
    var notFound := NotFoundKeys(c, lks);
    var values := FetchedValues(env, store, lks);
    var r := GetOrDefaultMany(env, c, store, keys, now);
    if |notFound| > 0 {
      assert r == PairFetched(env, c, store, found, notFound, values, now - 1);
      assert |values| <= |notFound|;
      PairFetchedResult(env, c, store, found, notFound, values, now - 1);
    } else {
      assert r.result.value == found;
    }
  }

  // ---- Writes ----

  /** `Set<T>(key, value)`: rejects a null/white-space key or a null value;
      otherwise one script sets the serialized value at the localized key and
      publishes one update message for its slot, then the near-cache entry is
      overwritten. */
  function Set<V>(env: Env<V>, c: Cache<V>, store: SharedStore, key: string, value: Option<V>, now: int): (r: Step<V, ()>)
    ensures IsNullOrWhiteSpace(key) ==> r == Step(c, store, Throws(ArgumentNullException("key")))
    ensures !IsNullOrWhiteSpace(key) && value.None? ==> r == Step(c, store, Throws(ArgumentNullException("value")))
    ensures !IsNullOrWhiteSpace(key) && value.Some? ==>
              var k := LocalizedKey(c.name, key);
              && r.result.Ok?
              && r.store.redis == store.redis[k := env.codec.serialize(value)]
              && r.store.published == store.published + [Published(SyncChannelName, DataSyncMessage(c.instanceId, Some(env.hash(k))))]
              && r.cache == c.(caches := c.caches[k := Entry(env.hash(k), now - 1, value, Typed)])
  {
    if IsNullOrWhiteSpace(key) then Step(c, store, Throws(ArgumentNullException("key")))
    else if value.None? then Step(c, store, Throws(ArgumentNullException("value")))
    else
      var k := LocalizedKey(c.name, key);
      var timestamp := now - 1;
      var keyHashSlot := env.hash(k);
      var publishValue := DataSyncMessage(c.instanceId, Some(keyHashSlot));
      var store' := SharedStore(store.redis[k := env.codec.serialize(value)],
                                store.published + [Published(SyncChannelName, publishValue)]);
      Step(c.(caches := c.caches[k := Entry(keyHashSlot, timestamp, value, Typed)]), store', Ok(()))
  }

  /** The arguments of the batch `MSET`: each RAW key with its serialized value. */
  function SerializedPairs<V>(env: Env<V>, values: Dictionary<string, Option<V>>): (ps: seq<(string, string)>)
    ensures |ps| == |values|
    ensures forall i :: 0 <= i < |ps| ==> ps[i] == (values[i].0, env.codec.serialize(values[i].1))
    ensures KeysOf(ps) == KeysOf(values) && IsDictionary(ps)
  {
    seq(|values|, i requires 0 <= i < |values| => (values[i].0, env.codec.serialize(values[i].1)))
  }

  /** The near-cache writes of the batch `Set`: each LOCALIZED key with a
      `LocalCacheEntry<object>` for its value. */
  function LocalEntries<V>(env: Env<V>, name: string, values: Dictionary<string, Option<V>>,
                           timestamp: int): (ps: seq<(string, Entry<Option<V>>)>)
    ensures |ps| == |values|
    ensures forall i :: 0 <= i < |ps| ==>
              var k := LocalizedKey(name, values[i].0);
              ps[i] == (k, Entry(env.hash(k), timestamp, values[i].1, Untyped))
    ensures KeysOf(ps) == LocalizeAll(name, KeysOf(values)) && IsDictionary(ps)
  {
    var ps := seq(|values|, i requires 0 <= i < |values| =>
      var k := LocalizedKey(name, values[i].0);
      (k, Entry(env.hash(k), timestamp, values[i].1, Untyped)));
    assert KeysOf(ps) == LocalizeAll(name, KeysOf(values));
    LocalizeAllNoDuplicates(name, KeysOf(values));
    ps
  }

  /** The update messages of the batch write, one per entry in order. */
  function UpdateMessages<V>(env: Env<V>, c: Cache<V>, values: Dictionary<string, Option<V>>): (r: seq<Published>)
    ensures |r| == |values|
    ensures forall i :: 0 <= i < |values| ==>
              r[i] == Published(SyncChannelName, DataSyncMessage(c.instanceId, Some(env.hash(LocalizedKey(c.name, values[i].0)))))
  {
    seq(|values|, i requires 0 <= i < |values| =>
      Published(SyncChannelName, DataSyncMessage(c.instanceId, Some(env.hash(LocalizedKey(c.name, values[i].0))))))
  }

  /** `Set<T>(values)`: an empty dictionary throws before any change;
      otherwise the `MSET` writes the RAW keys, one update message per entry
      is published, and the near-cache gets an untyped entry per LOCALIZED key. */
  function SetMany<V>(env: Env<V>, c: Cache<V>, store: SharedStore, values: Dictionary<string, Option<V>>, now: int): (r: Step<V, ()>)
    ensures |values| == 0 ==> r == Step(c, store, Throws(GenericException("Values must not be null")))
    ensures |values| > 0 ==>
              && r.result.Ok?
              && r.cache.name == c.name && r.cache.instanceId == c.instanceId && r.cache.lastUpdated == c.lastUpdated
              && (forall k :: k in r.store.redis <==> k in store.redis || k in KeysOf(values))
              && (forall i :: 0 <= i < |values| ==> r.store.redis[values[i].0] == env.codec.serialize(values[i].1))
              && (forall k :: k in store.redis && k !in KeysOf(values) ==> r.store.redis[k] == store.redis[k])
              && r.store.published == store.published + UpdateMessages(env, c, values)
              && (forall k :: k in r.cache.caches <==> k in c.caches || k in LocalizeAll(c.name, KeysOf(values)))
              && (forall i :: 0 <= i < |values| ==>
                    var k := LocalizedKey(c.name, values[i].0);
                    r.cache.caches[k] == Entry(env.hash(k), now - 1, values[i].1, Untyped))
              && (forall k :: k in c.caches && k !in LocalizeAll(c.name, KeysOf(values)) ==> r.cache.caches[k] == c.caches[k])
  {
    if |values| == 0 then Step(c, store, Throws(GenericException("Values must not be null")))
    else
      var timestamp := now - 1;
      var pairs := SerializedPairs(env, values);
      var entries := LocalEntries(env, c.name, values, timestamp);
      StoreAll(store.redis, pairs, KeysOf(values));
      StoreAll(c.caches, entries, LocalizeAll(c.name, KeysOf(values)));
      var redis' := MergeFrom(store.redis, pairs, true);
      var caches' := MergeFrom(c.caches, entries, true);
      Step(c.(caches := caches'), SharedStore(redis', store.published + UpdateMessages(env, c, values)), Ok(()))
  }

  /** `Remove(key)`: publishes one update message for the key's slot and drops
      the localized key from the near-cache; the shared store keeps the key. */
  function Remove<V>(env: Env<V>, c: Cache<V>, store: SharedStore, key: string): (r: Step<V, ()>)
    ensures r.result.Ok?
    ensures r.store.redis == store.redis
    ensures var k := LocalizedKey(c.name, key);
            && r.store.published == store.published + [Published(SyncChannelName, DataSyncMessage(c.instanceId, Some(env.hash(k))))]
            && r.cache == c.(caches := c.caches - {k})
  {
    var k := LocalizedKey(c.name, key);
    var publishValue := DataSyncMessage(c.instanceId, Some(env.hash(k)));
    Step(c.(caches := map k' | k' in c.caches && k' != k :: c.caches[k']),
         store.(published := store.published + [Published(SyncChannelName, publishValue)]),
         Ok(()))
  }

  /** A key the pattern `"{Name}:*"` matches (a cache name is taken to hold
      no glob metacharacters). */
  predicate InNamespace(name: string, key: string) {
    name + ":" <= key
  }

  const DelArityError := "ERR wrong number of arguments for 'del' command"

  /** `Clear()`: one script deletes every shared key under `"{Name}:*"` and
      publishes a clear message; the near-cache is left alone. With no key to
      delete, `DEL` gets no argument and the script aborts before publishing. */
  function Clear<V>(c: Cache<V>, store: SharedStore): (r: Step<V, ()>)
    ensures r.cache == c
    ensures (forall k :: k in store.redis ==> !InNamespace(c.name, k)) ==>
              r == Step(c, store, Throws(RedisServerException(DelArityError)))
    ensures (exists k :: k in store.redis && InNamespace(c.name, k)) ==>
              && r.result.Ok?
              && (forall k :: k in r.store.redis <==> k in store.redis && !InNamespace(c.name, k))
              && (forall k :: k in r.store.redis ==> r.store.redis[k] == store.redis[k])
              && r.store.published == store.published + [Published(ClearSyncChannelName, DataSyncMessage(c.instanceId, None))]
  {
    var doomed := set k | k in store.redis && InNamespace(c.name, k);
    if doomed == {} then
      assert forall k :: k in store.redis && InNamespace(c.name, k) ==> k in doomed;
      Step(c, store, Throws(RedisServerException(DelArityError)))
    else
      var publishValue := DataSyncMessage(c.instanceId, None);
      Step(c, SharedStore(store.redis - doomed, store.published + [Published(ClearSyncChannelName, publishValue)]), Ok(()))
  }

  // ---- Subscriber callbacks ----

  /** `DataSynchronizationMessageHandler`: ignores other channels and this
      instance's own messages; otherwise stamps the message's slot with `now`.
      A message without a slot changes nothing here (the accessor's behaviour
      on a clear message is not part of this model). */
  function OnDataSync<V>(c: Cache<V>, channel: string, message: DataSyncMessage, now: int): (r: Cache<V>)
    ensures !EqualsIgnoreCase(channel, SyncChannelName) ==> r == c
    ensures message.senderInstanceId == c.instanceId ==> r == c
    ensures r.name == c.name && r.instanceId == c.instanceId && r.caches == c.caches
    ensures EqualsIgnoreCase(channel, SyncChannelName) && message.senderInstanceId != c.instanceId
            && message.keyHashSlot.Some? ==>
              && r.lastUpdated[message.keyHashSlot.value] == now
              && forall s: Slot :: s != message.keyHashSlot.value ==> r.lastUpdated[s] == c.lastUpdated[s]
  {
    if !EqualsIgnoreCase(channel, SyncChannelName) then c
    else if message.senderInstanceId == c.instanceId then c
    else match message.keyHashSlot
      case None => c
      case Some(slot) => c.(lastUpdated := c.lastUpdated[slot := now])
  }

  /** `DataClearSynchronizationMessageHandler`: acts only on a message this
      instance itself sent, emptying the near-cache and zeroing every stamp. */
  function OnDataClearSync<V>(c: Cache<V>, channel: string, message: DataSyncMessage): (r: Cache<V>)
    ensures r.name == c.name && r.instanceId == c.instanceId
    ensures !EqualsIgnoreCase(channel, ClearSyncChannelName) || message.senderInstanceId != c.instanceId ==> r == c
    ensures EqualsIgnoreCase(channel, ClearSyncChannelName) && message.senderInstanceId == c.instanceId ==>
              r.caches == map[] && forall s: Slot :: r.lastUpdated[s] == 0
  {
    if !EqualsIgnoreCase(channel, ClearSyncChannelName) then c
    else if message.senderInstanceId != c.instanceId then c
    else c.(caches := map[], lastUpdated := InitialStamps)
  }

  /** Delivery of one published message to this instance's subscriptions:
      each channel's messages reach the handler subscribed to it. */
  function Deliver<V>(c: Cache<V>, p: Published, now: int): (r: Cache<V>)
    ensures p.channel == SyncChannelName ==> r == OnDataSync(c, p.channel, p.message, now)
    ensures p.channel == ClearSyncChannelName ==> r == OnDataClearSync(c, p.channel, p.message)
    ensures p.channel != SyncChannelName && p.channel != ClearSyncChannelName ==> r == c
  {
    if p.channel == SyncChannelName then OnDataSync(c, p.channel, p.message, now)
    else if p.channel == ClearSyncChannelName then OnDataClearSync(c, p.channel, p.message)
    else c
  }
}
