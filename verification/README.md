# Beleriand multi-level cache, modelled in Dafny

Beleriand is a two-level cache for .NET. Each `MultiLevelCache` instance
keeps a near-cache of `LocalCacheEntry` records in process, in front of a
Redis store that all instances share. Every write publishes an
invalidation message on a Redis pub/sub channel. Each instance keeps a
table of 16384 hash-slot stamps. A local entry is trusted only if its
slot was last invalidated before the entry was written.

`CacheBase` adds the get-or-populate protocol on top of a cache's primitive
operations. It reads, reads again inside a lock, then calls a factory and
stores the answer. A cache manager keeps one cache per name. It creates a
cache on first request and runs the configurators registered for that name.

The model is made of pure functions over immutable datatypes:

- `wrappers.dfy`: `Option` (C# `null`) and `Result`. `Result` is either a
  value or the exception thrown.
- `text.dfy`: the .NET string operations the source relies on. These are
  white space, `Trim`, `Split` with `RemoveEmptyEntries`, `string.Join`,
  LINQ `Distinct`/`Union`, and case-insensitive comparison.
- `dictionary_extensions.dfy`: `DictionaryExtensions`. A dictionary argument
  is a duplicate-free sequence of pairs, in enumeration order.
- `local_cache_entry.dfy`, `data_sync.dfy`, `cache_keys.dfy`: the
  near-cache record, the hash-slot space, the invalidation message and its
  channels, and key localization (`{Name}:{key}`).
- `multi_level_cache.dfy`: the cache as a state machine. Each operation
  maps the instance state and the shared store (keys plus the log of
  published messages) to their new values and a result.
- `multi_level_cache_properties.dfy`: what the operations add up to:
  read-after-write, invalidation, clearing, and the batch read.
- `cache_base.dfy`: the `CacheBase` protocol, written over any cache's
  primitives.
- `multi_level_cache_protocol.dfy`: the protocol run over `MultiLevelCache`.
- `configuration.dfy`, `cache_manager.dfy`: the registry.

Four collaborators whose source is not part of this model become
parameters:

- **JSON serializer**: a `Codec` pair of functions. Read-after-write
  results assume it is `Faithful`: the round trip holds and no value
  serializes to the empty string.
- **`HashSlotCalculator`**: any function into `[0, 16384)`.
- **`Stopwatch` clock**: a `now` argument. In the protocol it is a node
  clock that advances by one per primitive call.
- **`Guid` instance identifier**: a number.

Two behaviours of the code differ from what its design suggests:

- The batch read sends an `MGET` for every requested key, not just the
  ones it could not answer locally. It pairs the non-null replies with the
  not-found keys by position. When the non-null replies outnumber the
  not-found keys (for instance, a key fresh locally is also in Redis while
  every not-found key is too), it throws `ArgumentOutOfRangeException`
  after it has already cached some of the values. When they do not, it
  returns normally but hands replies to the wrong keys: reading `[b, c]`
  with only `c` in Redis answers `b` with `c`'s value, caches that value
  under `b`, and leaves `c` out. The model follows the code.
- The batch write stores raw keys in Redis and `LocalCacheEntry<object>`
  records under localized keys. A batch read at a type other than
  `object` looks for neither, so for such a type the batch `Get` never
  memoizes. The model follows the code, with reads at such a type.

## Model

| member | source | states |
|---|---|---|
| CacheKeys.LocalizedKey | Beleriand/Core/CacheBase.cs:192-195 | the localized key is the name, a colon, then the key, so the key can be read back from it |
| CacheKeys.LocalizedKeyInjective | Beleriand/Core/CacheBase.cs:192-195 | within one cache, two keys localize to the same key only if they are equal |
| CacheKeys.LocalizeAll | Beleriand/Core/CacheBase.cs:36 | localizing a key list keeps its length and order, key by key |
| CacheKeys.LocalizeAllNoDuplicates | Beleriand/MultiLevelCache.cs:137 | the localized list has a repeat if and only if the request list has one |
| CacheKeys.LocalizedKeysCollideAcrossNames | Beleriand/Core/CacheBase.cs:192-195 | caches `a` and `a:b` share keys: `a` + `b:c` and `a:b` + `c` both localize to `a:b:c` |
| DictionaryExtensions.AddRange | Beleriand/Extensions/DictionaryExtensions.cs:9-19 | succeeds if and only if the pairs' keys are new and distinct, giving the union; otherwise throws the duplicate-key `ArgumentException`; entries already present are kept either way |
| DictionaryExtensions.AddRangeSize | Beleriand/Extensions/DictionaryExtensions.cs:9-19 | a successful `AddRange` adds exactly one entry per pair |
| DictionaryExtensions.AddRangeToEmpty | Beleriand/Extensions/DictionaryExtensions.cs:9-19 | `AddRange` of distinct pairs into an empty dictionary succeeds and builds exactly their map |
| DictionaryExtensions.AddRangeKeepsProcessedPairs | Beleriand/Extensions/DictionaryExtensions.cs:11-17 | a throwing `AddRange` stopped at the first clashing pair, and the dictionary holds the pairs added before it |
| DictionaryExtensions.MergeKey | Beleriand/Extensions/DictionaryExtensions.cs:21-27 | the key is stored when replacing or when it is absent; otherwise nothing changes; other keys are untouched |
| DictionaryExtensions.MergeFromIsUnion | Beleriand/Extensions/DictionaryExtensions.cs:29-38 | merging a dictionary is the map union, with `from` winning when replacing and the instance winning otherwise |
| DictionaryExtensions.MergeFromPointwise | Beleriand/Extensions/DictionaryExtensions.cs:29-38 | key by key: keys outside `from` are unchanged; a key of `from` takes its new value if and only if replacing or previously absent |
| DictionaryExtensions.MergeTokens | Beleriand/Extensions/DictionaryExtensions.cs:60-63 | the merged tokens are distinct and non-empty, drawn from both values, include every token of both, and start with the distinct tokens of the first list |
| DictionaryExtensions.AddInValue | Beleriand/Extensions/DictionaryExtensions.cs:50-67 | an absent key gets the value as is; a present key gets the separator-join of the merged tokens; other keys are untouched |
| DictionaryExtensions.AppendInValue | Beleriand/Extensions/DictionaryExtensions.cs:40-43 | the stored tokens come first, then the new ones not already there |
| DictionaryExtensions.PrependInValue | Beleriand/Extensions/DictionaryExtensions.cs:45-48 | the new tokens come first, then the stored ones not already there |
| DictionaryExtensions.TokensOfMerged | Beleriand/Extensions/DictionaryExtensions.cs:60-65 | with a one-character, non-white-space separator and trimmed tokens, splitting the joined result gives the merged tokens back |
| DictionaryExtensions.EmptySeparatorTokens | Beleriand/Extensions/DictionaryExtensions.cs:60-61 | with an empty separator a value is not split: its tokens are the trimmed value alone, or none when that is empty |
| DictionaryExtensions.AppendWithEmptySeparator | Beleriand/Extensions/DictionaryExtensions.cs:50-66 | appending with an empty separator to a present key stores the trimmed old value directly followed by the trimmed new one, when both are non-empty and differ |
| DictionaryExtensions.AppendInValueIdempotent | Beleriand/Extensions/DictionaryExtensions.cs:40-67 | under those conditions, appending the same value to a present key twice is the same as appending it once |
| MultiLevelCache.Zeros | Beleriand/MultiLevelCache.cs:19 | the initial stamp table has 16384 entries, all zero |
| MultiLevelCache.NewCache | Beleriand/MultiLevelCache.cs:19-29 | a new instance has an empty near-cache and every slot stamp at zero |
| MultiLevelCache.GetOrDefault | Beleriand/MultiLevelCache.cs:81-133 | a fresh typed local entry is returned and nothing changes; otherwise the result is the deserialized shared value (an empty string reads as null); a non-null value is cached under the localized key, stamped `now - 1`, in the entry's slot or the key's hash slot; the shared store and stamps never change |
| MultiLevelCache.LocallyFound | Beleriand/MultiLevelCache.cs:148-169 | the first loop's result map holds exactly the request keys the near-cache answers, with their cached data |
| MultiLevelCache.NotFoundKeys | Beleriand/MultiLevelCache.cs:176 | the not-found keys are exactly the request keys the near-cache does not answer, without repeats when the request has none |
| MultiLevelCache.FetchedValues | Beleriand/MultiLevelCache.cs:184-197 | there is at most one non-null `MGET` reply per requested key |
| MultiLevelCache.PairedValues | Beleriand/MultiLevelCache.cs:199-214 | the i-th non-null reply goes to the i-th not-found key, for as many pairs as both lists allow |
| MultiLevelCache.PairedEntries | Beleriand/MultiLevelCache.cs:204-212 | each paired key's new entry has the key's known slot (or its hash slot), the read's timestamp and the reply |
| MultiLevelCache.PairFetched | Beleriand/MultiLevelCache.cs:199-216 | the pairing throws `ArgumentOutOfRangeException` if and only if there are more replies than not-found keys; the shared store, name and stamps are untouched |
| MultiLevelCache.PairFetchedCaches | Beleriand/MultiLevelCache.cs:211-212 | after pairing, the near-cache holds the new entry for each paired key and is unchanged elsewhere |
| MultiLevelCache.PairFetchedResult | Beleriand/MultiLevelCache.cs:211 | when the replies fit, the result holds each paired key with its reply and each locally found key with its data |
| MultiLevelCache.GetOrDefaultMany | Beleriand/MultiLevelCache.cs:135-217 | a repeated key throws the duplicate-key `ArgumentException` before any change; if every key is found locally, nothing changes; otherwise it throws exactly when more replies than not-found keys arrive; the shared store and stamps never change |
| MultiLevelCache.GetOrDefaultManyCaches | Beleriand/MultiLevelCache.cs:199-214 | the batch read's near-cache changes are exactly the entries for the paired not-found keys |
| MultiLevelCache.GetOrDefaultManyResult | Beleriand/MultiLevelCache.cs:148-216 | a successful batch read returns exactly the locally found keys and the paired not-found keys, with their values |
| MultiLevelCache.Set | Beleriand/MultiLevelCache.cs:219-242 | a blank key throws `ArgumentNullException("key")` and a null value throws `ArgumentNullException("value")`, both before any change; otherwise the serialized value is stored under the localized key, one update message for its hash slot is published, and a typed entry stamped `now - 1` is cached |
| MultiLevelCache.SerializedPairs | Beleriand/MultiLevelCache.cs:259-261 | the batch write sends each raw key with its serialized value, in order |
| MultiLevelCache.LocalEntries | Beleriand/MultiLevelCache.cs:269-284 | the batch write caches one `object`-typed entry per localized key, with that key's hash slot |
| MultiLevelCache.UpdateMessages | Beleriand/MultiLevelCache.cs:269-286 | the batch write publishes one update message per entry, in order, for the localized key's slot |
| MultiLevelCache.SetMany | Beleriand/MultiLevelCache.cs:244-287 | an empty dictionary throws before any change; otherwise the raw keys are written to the shared store, one message per entry is published, and the localized keys get `object`-typed entries; all other keys are untouched |
| MultiLevelCache.Remove | Beleriand/MultiLevelCache.cs:289-303 | one update message is published and the localized key leaves the near-cache; the shared store is unchanged |
| MultiLevelCache.Clear | Beleriand/MultiLevelCache.cs:305-316 | every shared key under `{Name}:` is deleted and a clear message published; with no such key the script fails and publishes nothing; the near-cache is untouched |
| MultiLevelCache.OnDataSync | Beleriand/MultiLevelCache.cs:39-57 | a message on the update channel (compared ignoring case) from another instance stamps its slot with `now`; other slots, the entries, and everything else on any other message stay as they were |
| MultiLevelCache.OnDataClearSync | Beleriand/MultiLevelCache.cs:59-79 | only the sender's own clear message acts; it empties the near-cache and zeroes every stamp |
| MultiLevelCache.Deliver | Beleriand/MultiLevelCache.cs:33-36 | a message on the update channel reaches `OnDataSync`, one on the clear channel reaches `OnDataClearSync`, and a message on any other channel leaves the cache unchanged |
| MultiLevelCacheProperties.LocalHitIgnoresStore | Beleriand/MultiLevelCache.cs:89-99 | a read the near-cache answers gives the same result and state whatever the shared store holds |
| MultiLevelCacheProperties.GetOrDefaultCachesFresh | Beleriand/MultiLevelCache.cs:85-127 | a value the read caches is answered locally by later reads, as long as its slot was stamped before the read |
| MultiLevelCacheProperties.SetThenGet | Beleriand/MultiLevelCache.cs:219-242 | with a faithful serializer, a read after `Set` returns the value written |
| MultiLevelCacheProperties.SetThenGetServedLocally | Beleriand/MultiLevelCache.cs:224-241 | after `Set`, the writer answers the key from its near-cache if the slot was stamped before the write |
| MultiLevelCacheProperties.GetOrDefaultStable | Beleriand/MultiLevelCache.cs:81-133 | a non-null read is repeated by the next read of the key, at any later time |
| MultiLevelCacheProperties.OwnUpdateIgnored | Beleriand/MultiLevelCache.cs:48-51 | the update message `Set` publishes, delivered back to the writer, changes nothing |
| MultiLevelCacheProperties.PeerUpdateInvalidates | Beleriand/MultiLevelCache.cs:39-57 | the same message delivered to a peer makes the peer's earlier entry for the key stale, so the peer reads the new value from the shared store |
| MultiLevelCacheProperties.UpdateNeverRefreshes | Beleriand/MultiLevelCache.cs:53-56 | an update stamp never makes a stale entry fresh again |
| MultiLevelCacheProperties.ClearThenGet | Beleriand/MultiLevelCache.cs:305-316 | after `Clear` and delivery of its own message, every key of the cache reads as missing |
| MultiLevelCacheProperties.PeerIgnoresClear | Beleriand/MultiLevelCache.cs:68-71 | another instance's clear message leaves a peer unchanged, and the peer keeps answering from its near-cache |
| MultiLevelCacheProperties.ClearOfEmptyNamespace | Beleriand/MultiLevelCache.cs:310 | with no key under the prefix, `Clear` throws and publishes nothing |
| MultiLevelCacheProperties.RemoveThenGet | Beleriand/MultiLevelCache.cs:289-303 | after `Remove`, the next read fetches the shared copy `Remove` left behind |
| MultiLevelCacheProperties.SetManyThenGet | Beleriand/MultiLevelCache.cs:259-281 | after the batch write, a read at a type other than `object` of a written key does not answer from the near-cache and returns what the shared store held under the localized key before the write |
| MultiLevelCacheProperties.FetchedAligned | Beleriand/MultiLevelCache.cs:184-197 | when exactly the not-found keys are in the shared store, the replies are their values, in order |
| MultiLevelCacheProperties.BatchReadAligned | Beleriand/MultiLevelCache.cs:135-217 | in that case the batch read succeeds and answers every key, locally or from the shared store |
| MultiLevelCacheProperties.FetchedNone | Beleriand/MultiLevelCache.cs:187 | with none of the keys in the shared store, there are no replies |
| MultiLevelCacheProperties.BatchReadOfAbsent | Beleriand/MultiLevelCache.cs:135-217 | a batch read of keys that are neither typed entries nor shared keys returns an empty map and changes nothing |
| MultiLevelCacheProperties.FetchedSurplus | Beleriand/MultiLevelCache.cs:176-197 | a key fresh locally that is also in the shared store gives one reply more than there are not-found keys |
| MultiLevelCacheProperties.FetchedCovers | Beleriand/MultiLevelCache.cs:176-197 | when every not-found key is in the shared store, there are at least as many replies as not-found keys |
| MultiLevelCacheProperties.BatchReadThrowsOnSharedHit | Beleriand/MultiLevelCache.cs:199-202 | when every not-found key and one locally answered key are in the shared store and some key is not found, the batch read throws `ArgumentOutOfRangeException` after caching every not-found key |
| MultiLevelCacheProperties.BatchReadMisPairs | Beleriand/MultiLevelCache.cs:176-212 | reading two keys, neither fresh locally and only the second in the shared store, returns normally with the first key mapped to the second key's value, caches that value under the first key, and leaves the second key out |
| CacheBase.Get | Beleriand/Core/CacheBase.cs:41-64 | the factory is called, with the key, if and only if both reads return null; a non-null first read is returned with its state and nothing else runs; after a null first read, a non-null second read is returned with its state; a null factory answer is returned without a write; a non-null one is stored under the key as given; an exception of either read, or of the write, ends the call with that exception |
| CacheBase.Missing | Beleriand/Core/CacheBase.cs:100 | the missing keys are exactly the requested keys the map lacks, in order |
| CacheBase.Complete | Beleriand/Core/CacheBase.cs:98-118 | the factory is asked if and only if keys are missing, and for exactly those; a null answer throws; a non-empty answer is written with the batch `Set` first, whose exception propagates; an answer repeating a re-read key throws `ArgumentException`; otherwise the result is the union of re-read map and answer, or null when that union's size differs from the key count; nothing missing returns the re-read map, or null if its size is wrong |
| CacheBase.GetMany | Beleriand/Core/CacheBase.cs:91-122 | a non-empty first read is returned as is; any other non-null result has one entry per requested key; the factory gets the keys the re-read map lacks |
| CacheBase.AsyncPrimitives | Beleriand/Core/CacheBase.cs:167-190 | the async members keep the name and pass the batch write and `Clear` through |
| CacheBase.GetAsync | Beleriand/Core/CacheBase.cs:66-89 | the reads and the write use the localized key, while the factory gets the key as given |
| CacheBase.GetManyAsync | Beleriand/Core/CacheBase.cs:124-156 | the reads use the localized keys, while the factory gets the raw keys missing from the re-read map |
| CacheBase.MissingCount | Beleriand/Core/CacheBase.cs:100 | found and missing keys together account for every distinct requested key once |
| CacheBase.MissingSize | Beleriand/Core/CacheBase.cs:100-114 | a map holding only requested keys has exactly as many entries as there are requested keys it does not miss |
| CacheBase.CompleteAnswersAll | Beleriand/Core/CacheBase.cs:98-121 | when the factory answers for exactly the missing keys, the result holds every requested key and no other |
| CacheBase.CompleteOfEmpty | Beleriand/Core/CacheBase.cs:100-111 | from an empty re-read, the factory is asked for all keys and its answer is stored and returned as a map |
| CacheBase.GetManyOfEmptyReads | Beleriand/Core/CacheBase.cs:91-122 | when both reads are empty, the batch `Get` asks for every key, stores the answer with the batch write and returns it |
| CacheBase.MissingAll | Beleriand/Core/CacheBase.cs:100 | a map with none of the keys misses all of them |
| MultiLevelCacheProtocol.GetMemoizes | Beleriand/Core/CacheBase.cs:41-64 | with a faithful serializer, once `Get` has produced a value, the next `Get` returns it without calling its factory |
| MultiLevelCacheProtocol.GetAsyncStoresDoublyLocalized | Beleriand/Core/CacheBase.cs:160-165 | the value `GetAsync` obtains is stored under `Name:Name:key` |
| MultiLevelCacheProtocol.SetAsyncInvisibleToGet | Beleriand/Core/CacheBase.cs:160-165 | a value written with `SetAsync` is not what the synchronous read of the same key sees |
| AsyncMembers.AsyncReadDoublyLocalized | Beleriand/Core/CacheBase.cs:25-30 | `GetOrDefaultAsync(key)` answers from the fresh typed local entry, or else the shared value, of `Name:Name:key` |
| AsyncMembers.AsyncRemoveDoublyLocalized | Beleriand/Core/CacheBase.cs:177-182 | `RemoveAsync(key)` evicts exactly `Name:Name:key` locally and announces that key's slot |
| MultiLevelCacheProtocol.GetManyFastPathLocalized | Beleriand/Core/CacheBase.cs:93-121 | the fast path of the batch `Get` returns a map keyed by the localized request keys |
| MultiLevelCacheProtocol.ReadsOfAbsent | Beleriand/Core/CacheBase.cs:93-98 | both batch reads of absent keys return empty and change only the clock |
| MultiLevelCacheProtocol.GetManyOfAbsentAsksForAll | Beleriand/Core/CacheBase.cs:98-104 | on absent keys, the batch `Get` asks the factory for every key |
| MultiLevelCacheProtocol.GetManyOfAbsentAnswers | Beleriand/Core/CacheBase.cs:104-121 | its result is the factory's answer keyed by the raw keys, after the batch write |
| MultiLevelCacheProtocol.SetManyLeavesAbsent | Beleriand/MultiLevelCache.cs:259-281 | after the batch write of raw keys, those keys are still absent where a batch read at a type other than `object` looks |
| MultiLevelCacheProtocol.GetManyNeverMemoizes | Beleriand/Core/CacheBase.cs:91-122 | at a type other than `object`, the batch `Get` over absent keys calls the factory for every key, and the next batch `Get` calls it for every key again |
| Configuration.ForAllCaches | Beleriand/Core/Configurations/CacheConfigurator.cs:7-10 | the configurator has a null cache name and the given action |
| Configuration.ForCache | Beleriand/Core/Configurations/CacheConfigurator.cs:12-16 | the configurator has the given cache name and action |
| Configuration.NewConfiguration | Beleriand/Core/Configurations/CachingConfiguration.cs:11-14 | a new configuration has no configurators |
| Configuration.ConfigureAll | Beleriand/Core/Configurations/CachingConfiguration.cs:21-24 | appends exactly one configurator, with a null name and the action, and keeps the earlier ones in place |
| Configuration.Configure | Beleriand/Core/Configurations/CachingConfiguration.cs:26-29 | appends exactly one configurator, with the name and the action, and keeps the earlier ones in place |
| Configuration.Configurators | Beleriand/Core/Configurations/CachingConfiguration.cs:16-19 | the snapshot is the registered configurators, in registration order |
| Configuration.RegisterAllAppends | Beleriand/Core/Configurations/CachingConfiguration.cs:21-29 | after any series of registrations, the earlier configurators keep their positions and the i-th new one is the i-th call's |
| Configuration.SnapshotIsPrefix | Beleriand/Core/Configurations/CachingConfiguration.cs:16-19 | a snapshot taken earlier stays the unchanged start of the list |
| Configuration.Applicable | Beleriand/Core/CacheManagerBase.cs:32-33 | the selected configurators are exactly those with a null name or the cache's name |
| Configuration.ApplicableAppend | Beleriand/Core/CacheManagerBase.cs:32-33 | selection keeps registration order: selecting from a concatenation concatenates the selections |
| Configuration.InitActions | Beleriand/Core/CacheManagerBase.cs:35-38 | the actions run are exactly the non-null actions of the selected configurators |
| Configuration.InitActionsAppend | Beleriand/Core/CacheManagerBase.cs:35-38 | the actions run in configurator order |
| Configuration.ConfigureAllReachesEveryCache | Beleriand/Core/Configurations/CachingConfiguration.cs:21-24 | a `ConfigureAll` action runs last on every cache created afterwards, and a null action adds nothing |
| Configuration.ConfigureReachesNamedCache | Beleriand/Core/Configurations/CachingConfiguration.cs:26-29 | a `Configure` action runs on a cache if and only if its name is null or the cache's name |
| CacheManager.NewManager | Beleriand/Core/CacheManagerBase.cs:15-19 | a new manager's registry is empty |
| CacheManager.GetCache | Beleriand/Core/CacheManagerBase.cs:26-42 | a registered name returns its cache and changes nothing; a new name gets a fresh cache, initialized with the actions selected for it and registered, with all other entries kept |
| CacheManager.GetAllCaches | Beleriand/Core/CacheManagerBase.cs:21-24 | the snapshot holds exactly the registered caches |
| CacheManager.Dispose | Beleriand/Core/CacheManagerBase.cs:44-47 | the registry is emptied |
| CacheManager.GetCacheMemoizes | Beleriand/Core/CacheManagerBase.cs:28-41 | a repeated `GetCache` returns the same cache and runs no action, even if the configuration has changed since |
| CacheManager.DisposeThenGetCreatesFresh | Beleriand/Core/CacheManagerBase.cs:26-47 | after `Dispose`, `GetCache` creates a new cache, different from every earlier one, and initializes it afresh |
| CacheManager.GetCachesRegisters | Beleriand/Core/CacheManagerBase.cs:26-42 | after a series of requests, the registry holds exactly the names it held plus those requested, and the earlier caches are untouched |
| CacheManager.DistinctCachesCount | Beleriand/Core/CacheManagerBase.cs:21-24 | a registry whose names never share a cache has as many caches as names |
| CacheManager.OneCachePerName | Beleriand/Core/CacheManagerBase.cs:21-42 | starting from empty, `GetAllCaches` holds one cache per distinct requested name |

## Left out

- Concurrency. `lock`, `AsyncLock` and the `ConcurrentDictionary` are left out: every operation runs atomically. Message delivery is an explicit step, so a peer sees updates only when it is modelled.
- Tasks. The `...Async` members are modelled by what they compute. The one-line wrappers return `Task.FromResult`. The awaits in `GetAsync` and the batch `GetAsync`, on `_asyncLock.LockAsync()` and on the factory's task, are modelled as sequential steps, as the concurrency line above says. The factory's task is taken as its completed value.
- JSON serialization and `DataSyncMessage` serialization. The first is an abstract codec; the second is taken to be the identity.
- `HashSlotCalculator`. It is not part of this model; any function into the slot range stands in for it.
- Non-nullable value types. The cached type `V` stands for a reference type or a `Nullable<T>`, whose `null` is `None`. For a non-nullable value type, the source's `item == null` tests (Core/CacheBase.cs) never hold, so `Get<int>` on a miss returns `0` without calling the factory. The `value == null` guard of `Set` never fires either. Modelling these would need a second, null-free instantiation of every read and write.
- C# `null` strings. Names, keys and separators are never null here. `IsNullOrWhiteSpace` is modelled on non-null strings, and a null key given to the registry's `GetOrAdd` is not modelled.
- Culture-aware case folding. The channel comparison in the handlers folds ASCII letters only.
- Redis glob patterns. The `KEYS {Name}:*` pattern is modelled as a prefix test, so cache names are taken to hold no glob metacharacters.
- `CacheBase.Dispose`. It always throws `NotImplementedException`, and is left out for that reason.
- `MultiLevelCache.OnDataSync`: a message without a slot (the clear message) changes nothing in the model. The source reads `KeyHashSlot` from such a message through code that is not part of this model.
- `DictionaryExtensions.AppendInValueIdempotent` is weaker than an unconditional idempotence. In general the source is not idempotent: tokens with inner white space, multi-character separators and an absent key all break it.
- `DictionaryExtensions.AddInValue` takes the value already converted by `ToString()`, and a map of non-null strings. Object formatting is not modelled. Nor are its two `NullReferenceException` paths: `value.ToString()` on a null value, and `instance[key].ToString()` on a present key holding null.
- `MultiLevelCache.SetMany` does not model Lua's limit on the size of the `MSET` script it builds. The script passes every key and value as literal arguments of one `redis.call` (2n + 1 arguments). Lua 5.1 allows a function at most 250 registers, so from about 124 entries the script fails to compile. `ScriptEvaluate` then throws `RedisServerException` before any write, local entry or publish. The model succeeds for every non-empty dictionary. `MultiLevelCacheProtocol.GetManyOfAbsentAnswers` and `MultiLevelCacheProtocol.GetManyNeverMemoizes` write the factory's answer through this path, so they carry the same gap.
- `MultiLevelCache.GetOrDefaultMany` does not model Lua's `unpack` limit. When some key is not found locally, the script's `MGET unpack(ARGV)` fails once the key count passes the Lua stack limit (about 8000), and the call throws; the model returns normally for any number of keys. The exact limit depends on the Lua build and its stack use.
- `MultiLevelCache.Clear` does not model the same limit. Once more than about 8000 keys match `{Name}:*`, the script's `unpack` fails before `DEL` and `PUBLISH` run; the model deletes every matching key and publishes for any number of keys.
- `LocalCacheEntry.TypeArgument` assumes every typed read is at a type other than `object`. For `T = object`, the `is LocalCacheEntry<T>` tests also match the `LocalCacheEntry<object>` entries that the batch `Set` stores, so such reads would trust those entries.
- `MultiLevelCacheProtocol.GetManyNeverMemoizes` holds only for reads at a type other than `object`. At `T = object` a second batch `Get` can be answered from the entries the first one stored, and does memoize. The same qualification applies to `MultiLevelCacheProperties.SetManyThenGet` and `MultiLevelCacheProtocol.SetManyLeavesAbsent`.
- `CacheManager.GetAllCaches` returns a set, where the source returns `Caches.Values.ToImmutableList()`. Nothing is lost: every registered cache is a distinct instance, and the source does not specify the list's order.
- `LocalCacheEntry`: immutability holds by construction (a datatype), so no member states it.
- `Configuration.ActionId`: what an `InitAction` does to a cache is not modelled. A cache records the actions run on it, in order.
- `CacheManager.GetCache`: `CreateCacheImplementation` (here `new MultiLevelCache`) is modelled as handing out a fresh identity. The configuration is passed in as it stands at the call.
- Factory exceptions in `CacheBase`. A factory is a total function; only its `null` answer is modelled.
- The interfaces `ICache`, `ICacheManager`, `ICachingConfiguration` and `ICacheConfigurator` declare no behaviour, and are left out for that reason.
- The DI registration extension and `MultiLevelCacheManager` only wire up the Redis connection, and are left out for that reason.
