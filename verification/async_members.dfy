/** The asynchronous members of `CacheBase` on a `MultiLevelCache`: each
    localizes the key before calling an override that localizes it again. */
module AsyncMembers {
  import opened Wrappers
  import opened CacheKeys
  import opened MultiLevelCache
  import opened CacheBase
  import opened DataSync
  import opened MultiLevelCacheProtocol

  /** `GetOrDefaultAsync` reads `Name:Name:key`, not the entry the
      synchronous read uses. */
  lemma AsyncReadDoublyLocalized<V>(env: Env<V>, n: Node<V>, key: string)
    ensures var doubly := LocalizedKey(n.cache.name, LocalizedKey(n.cache.name, key));
            var read := AsyncPrimitives(Instance(env, n.cache.name)).getOrDefault(n, key);
            && (ServedLocally(n.cache, doubly) ==> read.result == Ok(n.cache.caches[doubly].data))
            && (!ServedLocally(n.cache, doubly) ==> read.result == Ok(SharedValue(env, n.store, doubly)))
  {
  }

  /** `RemoveAsync` evicts `Name:Name:key` and announces its slot; the entry
      under `Name:key` stays. */
  lemma AsyncRemoveDoublyLocalized<V>(env: Env<V>, n: Node<V>, key: string)
    ensures var doubly := LocalizedKey(n.cache.name, LocalizedKey(n.cache.name, key));
            var removed := AsyncPrimitives(Instance(env, n.cache.name)).remove(n, key);
            && removed.state.cache.caches == n.cache.caches - {doubly}
            && removed.state.store.published
                 == n.store.published + [Published(SyncChannelName, DataSyncMessage(n.cache.instanceId, Some(env.hash(doubly))))]
  {
  }
}
