/** What the operations of `MultiLevelCache` add up to: read-after-write,
    invalidation by peers, the clear cycle, and the ways the batch operations
    and `Remove` disagree with the single-key read. */
module MultiLevelCacheProperties {
  import opened Wrappers
  import opened Text
  import opened LocalCacheEntry
  import opened DataSync
  import opened CacheKeys
  import opened DictionaryExtensions
  import opened MultiLevelCache

  // ---- Single-key read and write ----

  /** A read the near-cache answers does not depend on the shared store. */
  lemma LocalHitIgnoresStore<V>(env: Env<V>, c: Cache<V>, s1: SharedStore, s2: SharedStore, key: string, now: int)
    requires ServedLocally(c, LocalizedKey(c.name, key))
    ensures GetOrDefault(env, c, s1, key, now).result == GetOrDefault(env, c, s2, key, now).result
    ensures GetOrDefault(env, c, s1, key, now).cache == GetOrDefault(env, c, s2, key, now).cache
  {
  }

  /** A value the shared read caches is trusted by the next read, as long as
      no invalidation of its slot has been stamped at or after `now - 1`. */
  lemma GetOrDefaultCachesFresh<V>(env: Env<V>, c: Cache<V>, store: SharedStore, key: string, now: int, later: int)
    requires var k := LocalizedKey(c.name, key);
             !ServedLocally(c, k) && SharedValue(env, store, k).Some?
    requires c.lastUpdated[SlotFor(env, c, LocalizedKey(c.name, key))] < now - 1
    ensures var r := GetOrDefault(env, c, store, key, now);
            && ServedLocally(r.cache, LocalizedKey(c.name, key))
            && GetOrDefault(env, r.cache, store, key, later) == Step(r.cache, store, r.result)
  {
  }

  /** Read-after-write: with a faithful serializer, `GetOrDefault` returns what
      `Set` stored, whether the near-cache still trusts its entry or the value
      comes back from the shared store. */
  lemma SetThenGet<V(!new)>(env: Env<V>, c: Cache<V>, store: SharedStore, key: string, value: V, now: int, later: int)
    requires Faithful(env.codec)
    requires !IsNullOrWhiteSpace(key)
    ensures var w := Set(env, c, store, key, Some(value), now);
            GetOrDefault(env, w.cache, w.store, key, later).result == Ok(Some(value))
  {
    var k := LocalizedKey(c.name, key);
    var w := Set(env, c, store, key, Some(value), now);
    assert w.store.redis[k] == env.codec.serialize(Some(value));
    assert |env.codec.serialize(Some(value))| > 0 && env.codec.deserialize(env.codec.serialize(Some(value))) == Some(value);
    assert SharedValue(env, w.store, k) == Some(value);
  }

  /** After `Set`, the writer answers from its near-cache unless the key's slot
      was stamped at or after `now - 1`. */
  lemma SetThenGetServedLocally<V>(env: Env<V>, c: Cache<V>, store: SharedStore, key: string, value: V, now: int)
    requires !IsNullOrWhiteSpace(key)
    requires c.lastUpdated[env.hash(LocalizedKey(c.name, key))] < now - 1
    ensures var w := Set(env, c, store, key, Some(value), now);
            ServedLocally(w.cache, LocalizedKey(c.name, key))
  {
  }

  /** A non-null read is repeated by the next read of the same key, at any
      later clock reading: either the near-cache still answers, or it fell
      back to the unchanged shared store. */
  lemma GetOrDefaultStable<V>(env: Env<V>, c: Cache<V>, store: SharedStore, key: string, v: V, now: int, later: int)
    requires GetOrDefault(env, c, store, key, now).result == Ok(Some(v))
    ensures var r := GetOrDefault(env, c, store, key, now);
            GetOrDefault(env, r.cache, r.store, key, later).result == Ok(Some(v))
  {
  }

  // ---- Invalidation ----

  /** The update message `Set` publishes, delivered back to the writer, changes nothing. */
  lemma OwnUpdateIgnored<V>(env: Env<V>, c: Cache<V>, store: SharedStore, key: string, value: V, now: int, t: int)
    requires !IsNullOrWhiteSpace(key)
    ensures var w := Set(env, c, store, key, Some(value), now);
            Deliver(w.cache, w.store.published[|w.store.published| - 1], t) == w.cache
  {
  }

  /** The same message delivered to a peer makes every entry the peer wrote
      no later than the delivery, in that slot, stale: its next read goes to
      the shared store and sees the writer's value. */
  lemma PeerUpdateInvalidates<V(!new)>(env: Env<V>, writer: Cache<V>, peer: Cache<V>, store: SharedStore,
                                       key: string, value: V, now: int, t: int, later: int)
    requires Faithful(env.codec)
    requires !IsNullOrWhiteSpace(key) && peer.instanceId != writer.instanceId && peer.name == writer.name
    requires var k := LocalizedKey(writer.name, key);
             k in peer.caches ==> peer.caches[k].keyHashSlot == env.hash(k) && peer.caches[k].timestamp <= t
    ensures var w := Set(env, writer, store, key, Some(value), now);
            var p := Deliver(peer, w.store.published[|w.store.published| - 1], t);
            && !ServedLocally(p, LocalizedKey(writer.name, key))
            && GetOrDefault(env, p, w.store, key, later).result == Ok(Some(value))
  {
    var k := LocalizedKey(writer.name, key);
    var w := Set(env, writer, store, key, Some(value), now);
    assert EqualsIgnoreCase(SyncChannelName, SyncChannelName);
    assert w.store.redis[k] == env.codec.serialize(Some(value));
    assert env.codec.deserialize(env.codec.serialize(Some(value))) == Some(value);
    assert SharedValue(env, w.store, k) == Some(value);
  }

  /** An update stamp only ever makes entries staler: a peer's message never
      turns a stale entry fresh, and entries of other slots keep their state. */
  lemma UpdateNeverRefreshes<V>(c: Cache<V>, channel: string, message: DataSyncMessage, now: int, key: string)
    requires forall s: Slot :: c.lastUpdated[s] <= now
    requires key in c.caches
    ensures var d := OnDataSync(c, channel, message, now);
            IsFresh(d, d.caches[key]) ==> IsFresh(c, c.caches[key])
    ensures var d := OnDataSync(c, channel, message, now);
            message.keyHashSlot != Some(c.caches[key].keyHashSlot) ==>
              (IsFresh(d, d.caches[key]) <==> IsFresh(c, c.caches[key]))
  {
  }

  // ---- The clear cycle ----

  /** `Clear` followed by delivery of its own clear message empties the
      writer's near-cache, and every key of the cache then reads as `null`. */
  lemma ClearThenGet<V>(env: Env<V>, c: Cache<V>, store: SharedStore, key: string, t: int, now: int)
    requires Clear(c, store).result.Ok?
    ensures var cl := Clear(c, store);
            var d := Deliver(cl.cache, cl.store.published[|cl.store.published| - 1], t);
            && d.caches == map[]
            && GetOrDefault(env, d, cl.store, key, now).result == Ok(None)
  {
    var cl := Clear(c, store);
    var k := LocalizedKey(c.name, key);
    assert EqualsIgnoreCase(ClearSyncChannelName, ClearSyncChannelName);
    assert InNamespace(c.name, k);
    assert k !in cl.store.redis;
  }

  /** The clear message reaches every instance, but only the sender acts on
      it: a peer's near-cache and stamps are untouched, so a peer keeps
      answering from entries whose shared copies are gone. */
  lemma PeerIgnoresClear<V>(env: Env<V>, c: Cache<V>, peer: Cache<V>, store: SharedStore, key: string, t: int, now: int)
    requires Clear(c, store).result.Ok? && peer.instanceId != c.instanceId
    requires ServedLocally(peer, LocalizedKey(peer.name, key))
    ensures var cl := Clear(c, store);
            var p := Deliver(peer, cl.store.published[|cl.store.published| - 1], t);
            && p == peer
            && GetOrDefault(env, p, cl.store, key, now).result == Ok(peer.caches[LocalizedKey(peer.name, key)].data)
  {
  }

  /** With no key under the cache's prefix, `Clear` fails and publishes
      nothing, so not even the sender's near-cache is emptied. */
  lemma ClearOfEmptyNamespace<V>(c: Cache<V>, store: SharedStore)
    requires forall k :: k in store.redis ==> !InNamespace(c.name, k)
    ensures Clear(c, store).result.Throws?
    ensures Clear(c, store).store.published == store.published
  {
  }

  // ---- Key-space disagreements ----

  /** `Remove` leaves the shared copy in place, so the next read fetches the
      removed value again. */
  lemma RemoveThenGet<V>(env: Env<V>, c: Cache<V>, store: SharedStore, key: string, now: int)
    ensures var rm := Remove(env, c, store, key);
            GetOrDefault(env, rm.cache, rm.store, key, now).result
              == Ok(SharedValue(env, store, LocalizedKey(c.name, key)))
  {
  }

  /** Batch `Set` caches `object` entries, which a read at any other type
      never trusts, and writes the raw keys to the shared store, so such a
      read of a key it just wrote returns whatever the shared store held
      under the localized key before (here: a key whose localized form is
      not itself one of the raw keys written). */
  lemma {:induction false} SetManyThenGet<V>(env: Env<V>, c: Cache<V>, store: SharedStore, values: Dictionary<string, Option<V>>,
                          i: nat, now: int, later: int)
    requires i < |values|
    requires LocalizedKey(c.name, values[i].0) !in KeysOf(values)
    ensures var w := SetMany(env, c, store, values, now);
            var k := LocalizedKey(c.name, values[i].0);
            && !ServedLocally(w.cache, k)
            && GetOrDefault(env, w.cache, w.store, values[i].0, later).result == Ok(SharedValue(env, store, k))
  {
    var w := SetMany(env, c, store, values, now);
    var k := LocalizedKey(c.name, values[i].0);
    assert w.cache.caches[k].typeArgument == Untyped;
    assert k in w.store.redis <==> k in store.redis;
  }

  // ---- Batch read ----

  /** When exactly the keys the near-cache does not answer exist in the
      shared store, the `MGET` replies line up with the not-found keys. */
  lemma {:induction false} FetchedAligned<V>(env: Env<V>, c: Cache<V>, store: SharedStore, ks: seq<string>)
    requires forall i :: 0 <= i < |ks| ==> (ks[i] in store.redis <==> !ServedLocally(c, ks[i]))
    ensures var nf := NotFoundKeys(c, ks);
            var vs := FetchedValues(env, store, ks);
            |vs| == |nf| && forall i :: 0 <= i < |nf| ==> vs[i] == SharedValue(env, store, nf[i])
  {
    if |ks| > 0 {
      FetchedAligned(env, c, store, ks[1..]);
    }
  }

  /** In that aligned case the batch read is correct: every key is answered,
      from the near-cache when it is fresh there and from the shared store
      otherwise. */
  lemma BatchReadAligned<V>(env: Env<V>, c: Cache<V>, store: SharedStore, keys: seq<string>, now: int)
    requires NoDuplicates(keys)
    requires var lks := LocalizeAll(c.name, keys);
             forall i :: 0 <= i < |lks| ==> (lks[i] in store.redis <==> !ServedLocally(c, lks[i]))
    ensures GetOrDefaultMany(env, c, store, keys, now).result.Ok?
    ensures forall k :: k in GetOrDefaultMany(env, c, store, keys, now).result.value <==> k in LocalizeAll(c.name, keys)
    ensures forall k :: k in LocalizeAll(c.name, keys) ==>
              GetOrDefaultMany(env, c, store, keys, now).result.value[k]
                == if ServedLocally(c, k) then c.caches[k].data else SharedValue(env, store, k)
  {
    var lks := LocalizeAll(c.name, keys);
    var nf := NotFoundKeys(c, lks);
    var vs := FetchedValues(env, store, lks);
    FetchedAligned(env, c, store, lks);
    assert |vs| == |nf| && Min(|vs|, |nf|) == |nf| && nf[..|nf|] == nf;
    var r := GetOrDefaultMany(env, c, store, keys, now);
    assert r.result.Ok?;
    GetOrDefaultManyResult(env, c, store, keys, now);
    var m := r.result.value;
    forall k | k in lks
      ensures k in m && m[k] == if ServedLocally(c, k) then c.caches[k].data else SharedValue(env, store, k)
    {
      if !ServedLocally(c, k) {
        assert k in nf;
        var i :| 0 <= i < |nf| && nf[i] == k;
        assert m[nf[i]] == vs[i];
      }
    }
  }

  lemma {:induction false} FetchedNone<V>(env: Env<V>, store: SharedStore, ks: seq<string>)
    requires forall i :: 0 <= i < |ks| ==> ks[i] !in store.redis
    ensures FetchedValues(env, store, ks) == []
  {
    if |ks| > 0 {
      FetchedNone(env, store, ks[1..]);
    }
  }

  /** A batch read of keys that are neither in the near-cache (as typed
      entries) nor in the shared store returns an empty map and changes nothing. */
  lemma BatchReadOfAbsent<V>(env: Env<V>, c: Cache<V>, store: SharedStore, keys: seq<string>, now: int)
    requires NoDuplicates(keys)
    requires forall k :: k in LocalizeAll(c.name, keys) ==> TypedEntry(c, k).None? && k !in store.redis
    ensures GetOrDefaultMany(env, c, store, keys, now) == Step(c, store, Ok(map[]))
  {
    var lks := LocalizeAll(c.name, keys);
    LocalizeAllNoDuplicates(c.name, keys);
    FetchedNone(env, store, lks);
    var found := LocallyFound(c, lks);
    assert found == map[];
    var nf := NotFoundKeys(c, lks);
    if |nf| > 0 {
      var none: seq<Option<V>> := [];
      assert PairedEntries(env, c, nf, none, now - 1) == [];
      assert PairedValues(nf, none) == [];
    }
  }

  /** The non-null replies cover the not-found keys, and a fresh local key
      that also exists in the shared store adds one reply too many. */
  lemma {:induction false} FetchedSurplus<V>(env: Env<V>, c: Cache<V>, store: SharedStore, ks: seq<string>, j: nat)
    requires forall i :: 0 <= i < |ks| && !ServedLocally(c, ks[i]) ==> ks[i] in store.redis
    requires j < |ks| && ServedLocally(c, ks[j]) && ks[j] in store.redis
    ensures |FetchedValues(env, store, ks)| > |NotFoundKeys(c, ks)|
  {
    if j == 0 {
      FetchedCovers(env, c, store, ks[1..]);
    } else {
      FetchedSurplus(env, c, store, ks[1..], j - 1);
    }
  }

  lemma {:induction false} FetchedCovers<V>(env: Env<V>, c: Cache<V>, store: SharedStore, ks: seq<string>)
    requires forall i :: 0 <= i < |ks| && !ServedLocally(c, ks[i]) ==> ks[i] in store.redis
    ensures |FetchedValues(env, store, ks)| >= |NotFoundKeys(c, ks)|
  {
    if |ks| > 0 {
      FetchedCovers(env, c, store, ks[1..]);
    }
  }

  /** The batch read runs its `MGET` over every key instead of the not-found
      ones: if some key it answers locally also exists in the shared store
      while every other key does too, there are more replies than not-found
      keys and the read throws, after caching the not-found keys with
      replies that belong to other keys. */
  lemma BatchReadThrowsOnSharedHit<V>(env: Env<V>, c: Cache<V>, store: SharedStore, keys: seq<string>, j: nat, now: int)
    requires NoDuplicates(keys)
    requires var lks := LocalizeAll(c.name, keys);
             forall i :: 0 <= i < |lks| && !ServedLocally(c, lks[i]) ==> lks[i] in store.redis
    requires var lks := LocalizeAll(c.name, keys);
             j < |lks| && ServedLocally(c, lks[j]) && lks[j] in store.redis
    requires exists i :: 0 <= i < |keys| && !ServedLocally(c, LocalizeAll(c.name, keys)[i])
    ensures var r := GetOrDefaultMany(env, c, store, keys, now);
            && r.result == Throws(ArgumentOutOfRangeException("index"))
            && forall k :: k in NotFoundKeys(c, LocalizeAll(c.name, keys)) ==> k in r.cache.caches
  {
    var lks := LocalizeAll(c.name, keys);
    var nf := NotFoundKeys(c, lks);
    FetchedSurplus(env, c, store, lks, j);
    var i :| 0 <= i < |keys| && !ServedLocally(c, lks[i]);
    assert lks[i] in nf;
    SurplusCachesNotFound(env, c, store, keys, now);
  }

  /** With more replies than not-found keys, every not-found key is cached. */
  lemma SurplusCachesNotFound<V>(env: Env<V>, c: Cache<V>, store: SharedStore, keys: seq<string>, now: int)
    requires NoDuplicates(keys)
    requires var lks := LocalizeAll(c.name, keys);
             |FetchedValues(env, store, lks)| > |NotFoundKeys(c, lks)|
    ensures forall k :: k in NotFoundKeys(c, LocalizeAll(c.name, keys)) ==> k in GetOrDefaultMany(env, c, store, keys, now).cache.caches
  {
    var nf := NotFoundKeys(c, LocalizeAll(c.name, keys));
    GetOrDefaultManyCaches(env, c, store, keys, now);
    assert nf[..|nf|] == nf;
  }


  /** When no key is fresh locally but only some are in the shared store,
      the pairing by position does not throw; it hands the replies to the
      wrong keys. Reading `[b, d]` with only `d` stored answers `b` with
      `d`'s value, caches that value under `b`, and leaves `d` out. */
  lemma BatchReadMisPairs<V>(env: Env<V>, c: Cache<V>, store: SharedStore, b: string, d: string, now: int)
    requires b != d
    requires var lb := LocalizedKey(c.name, b);
             var ld := LocalizedKey(c.name, d);
             !ServedLocally(c, lb) && !ServedLocally(c, ld) && lb !in store.redis && ld in store.redis
    ensures var r := GetOrDefaultMany(env, c, store, [b, d], now);
            var lb := LocalizedKey(c.name, b);
            var ld := LocalizedKey(c.name, d);
            && r.result == Ok(map[lb := SharedValue(env, store, ld)])
            && lb in r.cache.caches && r.cache.caches[lb].data == SharedValue(env, store, ld)
  {
    var lb := LocalizedKey(c.name, b);
    var ld := LocalizedKey(c.name, d);
    MisPairedResult(env, c, store, b, d, now);
    MisPairedCache(env, c, store, b, d, now);
  }

  /** The result half of `BatchReadMisPairs`. */
  lemma MisPairedResult<V>(env: Env<V>, c: Cache<V>, store: SharedStore, b: string, d: string, now: int)
    requires b != d
    requires var lb := LocalizedKey(c.name, b);
             var ld := LocalizedKey(c.name, d);
             !ServedLocally(c, lb) && !ServedLocally(c, ld) && lb !in store.redis && ld in store.redis
    ensures GetOrDefaultMany(env, c, store, [b, d], now).result
              == Ok(map[LocalizedKey(c.name, b) := SharedValue(env, store, LocalizedKey(c.name, d))])
  {
    var lb := LocalizedKey(c.name, b);
    MisPairedReplies(env, c, store, b, d);
    var keys := [b, d];
    LocalizeAllNoDuplicates(c.name, keys);
    var lks := LocalizeAll(c.name, keys);
    var nf := NotFoundKeys(c, lks);
    var vs := FetchedValues(env, store, lks);
    var found := LocallyFound(c, lks);
    assert found == map[];
    var pairs := PairedValues(nf, vs);
    assert pairs == [(lb, vs[0])];
    var answer := found + ToMap(pairs);
    assert answer == map[lb := vs[0]];
    var r := PairFetched(env, c, store, found, nf, vs, now - 1);
    assert r.result == Ok(answer);
    assert GetOrDefaultMany(env, c, store, keys, now) == r;
  }

  /** The near-cache half of `BatchReadMisPairs`. */
  lemma MisPairedCache<V>(env: Env<V>, c: Cache<V>, store: SharedStore, b: string, d: string, now: int)
    requires b != d
    requires var lb := LocalizedKey(c.name, b);
             var ld := LocalizedKey(c.name, d);
             !ServedLocally(c, lb) && !ServedLocally(c, ld) && lb !in store.redis && ld in store.redis
    ensures var caches := GetOrDefaultMany(env, c, store, [b, d], now).cache.caches;
            LocalizedKey(c.name, b) in caches
            && caches[LocalizedKey(c.name, b)].data == SharedValue(env, store, LocalizedKey(c.name, d))
  {
    MisPairedReplies(env, c, store, b, d);
    var keys := [b, d];
    assert NoDuplicates(keys);
    var lks := LocalizeAll(c.name, keys);
    var nf := NotFoundKeys(c, lks);
    var vs := FetchedValues(env, store, lks);
    assert Min(|vs|, |nf|) == 1 && nf[..1] == [nf[0]];
    GetOrDefaultManyCaches(env, c, store, keys, now);
  }

  /** The two lists the batch read pairs in `BatchReadMisPairs`. */
  lemma MisPairedReplies<V>(env: Env<V>, c: Cache<V>, store: SharedStore, b: string, d: string)
    requires b != d
    requires var lb := LocalizedKey(c.name, b);
             var ld := LocalizedKey(c.name, d);
             !ServedLocally(c, lb) && !ServedLocally(c, ld) && lb !in store.redis && ld in store.redis
    ensures var lb := LocalizedKey(c.name, b);
            var ld := LocalizedKey(c.name, d);
            var lks := LocalizeAll(c.name, [b, d]);
            && lb != ld
            && NotFoundKeys(c, lks) == [lb, ld]
            && FetchedValues(env, store, lks) == [SharedValue(env, store, ld)]
  {
    var lb := LocalizedKey(c.name, b);
    var ld := LocalizedKey(c.name, d);
    if lb == ld {
      LocalizedKeyInjective(c.name, b, d);
    }
    var lks := LocalizeAll(c.name, [b, d]);
    assert lks == [lb, ld];
    assert lks[1..] == [ld] && lks[1..][1..] == [];
    assert NotFoundKeys(c, [ld]) == [ld] + NotFoundKeys(c, []) == [ld];
    assert NotFoundKeys(c, lks) == [lb] + NotFoundKeys(c, [ld]);
    assert FetchedValues(env, store, [ld]) == [Decode(env, store.redis[ld])] + FetchedValues(env, store, []);
    assert FetchedValues(env, store, lks) == [] + FetchedValues(env, store, [ld]);
  }
}
