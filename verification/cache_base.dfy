/** Beleriand.Core.CacheBase: the get-or-populate protocol every cache
    inherits, written once over the primitive operations a concrete cache
    supplies. A cache's state is any type `S`; every primitive returns the
    next state together with its result or exception. */
module CacheBase {
  import opened Wrappers
  import opened Text
  import opened CacheKeys
  import opened DictionaryExtensions

  /** A primitive's effect: the next state and the value or exception. */
  datatype Outcome<S, R> = Outcome(state: S, result: Result<R>)

  /** The abstract members of `CacheBase` a concrete cache overrides, and its
      `Name`. A batch read may return `null` (`None`). */
  datatype Primitives<!S, !V> = Primitives(
    name: string,
    getOrDefault: (S, string) -> Outcome<S, Option<V>>,
    getOrDefaultMany: (S, seq<string>) -> Outcome<S, Option<map<string, Option<V>>>>,
    setValue: (S, string, Option<V>) -> Outcome<S, ()>,
    setMany: (S, Dictionary<string, Option<V>>) -> Outcome<S, ()>,
    remove: (S, string) -> Outcome<S, ()>,
    clear: S -> Outcome<S, ()>)

  /** The effect of a `Get`: next state, result, and the argument the factory
      was called with, if it was called (a `Get` calls it at most once). */
  datatype Fetch<S, I, R> = Fetch(state: S, result: Result<R>, factoryInput: Option<I>)

  /** An exception from a primitive ends the protocol there. */
  function Propagate<S, I, R, X>(o: Outcome<S, X>): Fetch<S, I, R>
    requires o.result.Throws?
  {
    Fetch(o.state, Throws(o.result.error), None)
  }

  /** `Get<T>(key, factory)`: read; on a miss, read again (inside the lock)
      and on a second miss ask the factory, storing a non-null answer with
      `Set` under the key as given. */
  function Get<S, V>(p: Primitives<S, V>, s: S, key: string, factory: string -> Option<V>): (r: Fetch<S, string, Option<V>>)
    ensures var o1 := p.getOrDefault(s, key);
            var o2 := p.getOrDefault(o1.state, key);
            && (r.factoryInput.Some? <==> o1.result == Ok(None) && o2.result == Ok(None))
            && (r.factoryInput.Some? ==> r.factoryInput.value == key)
            && (r.result.Ok? && r.result.value.Some? ==>
                  o1.result == r.result || o2.result == r.result || (r.factoryInput.Some? && factory(key) == r.result.value))
            && (r.factoryInput.Some? && factory(key).None? ==> r == Fetch(o2.state, Ok(None), Some(key)))
            && (r.factoryInput.Some? && factory(key).Some? ==>
                  var o3 := p.setValue(o2.state, key, factory(key));
                  && r.state == o3.state
                  && r.result == if o3.result.Ok? then Ok(factory(key)) else Throws(o3.result.error))
            && (o1.result.Throws? ==> r.result == o1.result && r.state == o1.state)
    ensures var o1 := p.getOrDefault(s, key);
            o1.result.Ok? && o1.result.value.Some? ==> r == Fetch(o1.state, o1.result, None)
    ensures var o1 := p.getOrDefault(s, key);
            var o2 := p.getOrDefault(o1.state, key);
            o1.result == Ok(None) && o2.result.Ok? && o2.result.value.Some? ==> r == Fetch(o2.state, o2.result, None)
    ensures var o1 := p.getOrDefault(s, key);
            var o2 := p.getOrDefault(o1.state, key);
            o1.result == Ok(None) && o2.result.Throws? ==> r == Fetch(o2.state, o2.result, None)
  {
    var o1 := p.getOrDefault(s, key);
    if o1.result.Throws? then Propagate(o1)
    else if o1.result.value.Some? then Fetch(o1.state, o1.result, None)
    else
      var o2 := p.getOrDefault(o1.state, key);
      if o2.result.Throws? then Propagate(o2)
      else if o2.result.value.Some? then Fetch(o2.state, o2.result, None)
      else
        var item := factory(key);
        if item.None? then Fetch(o2.state, Ok(None), Some(key))
        else
          var o3 := p.setValue(o2.state, key, item);
          if o3.result.Throws? then Fetch(o3.state, Throws(o3.result.error), Some(key))
          else Fetch(o3.state, Ok(item), Some(key))
  }

  /** `keys.Where(a => !itemMap.Keys.Contains(a))`: the requested keys the
      map lacks, in request order, repeats kept. */
  function Missing<V>(keys: seq<string>, m: map<string, V>): (r: seq<string>)
    ensures |r| <= |keys|
    ensures forall i :: 0 <= i < |r| ==> r[i] in keys && r[i] !in m
    ensures forall k :: k in keys && k !in m ==> k in r
    ensures NoDuplicates(keys) ==> NoDuplicates(r)
  {
    if |keys| == 0 then []
    else
      var rest := Missing(keys[1..], m);
      if keys[0] in m then rest else [keys[0]] + rest
  }

  /** The locked part of the batch `Get`, from the re-read map on: the
      factory is asked for the missing keys (a `null` answer dereferenced is
      a `NullReferenceException`), a non-empty answer is stored with the
      batch `Set` and added to the map, and the result is `null` unless the
      map ends up with as many entries as keys were requested. */
  function Complete<S, V>(p: Primitives<S, V>, s: S, keys: seq<string>, itemMap: map<string, Option<V>>,
                          factory: seq<string> -> Option<Dictionary<string, Option<V>>>): (r: Fetch<S, seq<string>, Option<map<string, Option<V>>>>)
    ensures r.factoryInput.Some? <==> |Missing(keys, itemMap)| > 0
    ensures r.factoryInput.Some? ==> r.factoryInput.value == Missing(keys, itemMap)
    ensures r.result.Ok? && r.result.value.Some? ==> |r.result.value.value| == |keys|
    ensures r.result.Ok? && r.result.value.Some? ==>
              forall k :: k in itemMap ==> k in r.result.value.value && r.result.value.value[k] == itemMap[k]
    ensures |Missing(keys, itemMap)| == 0 ==>
              r == Fetch(s, Ok(if |itemMap| != |keys| then None else Some(itemMap)), None)
    ensures var missing := Missing(keys, itemMap);
            |missing| > 0 && factory(missing).None? ==> r == Fetch(s, Throws(NullReferenceException), Some(missing))
    ensures var missing := Missing(keys, itemMap);
            |missing| > 0 && factory(missing).Some? ==>
              var items := factory(missing).value;
              var o := if |items| != 0 then p.setMany(s, items) else Outcome(s, Ok(()));
              && r.state == o.state
              && (o.result.Throws? ==> r.result == Throws(o.result.error))
              && (o.result.Ok? && !CanAddAll(itemMap, items) ==> r.result == Throws(ArgumentException(DuplicateKeyMessage)))
              && (o.result.Ok? && CanAddAll(itemMap, items) ==>
                    r.result == Ok(var merged := itemMap + ToMap(items); if |merged| != |keys| then None else Some(merged)))
  {
    var notFoundKeys := Missing(keys, itemMap);
    if |notFoundKeys| == 0 then
      Fetch(s, Ok(if |itemMap| != |keys| then None else Some(itemMap)), None)
    else
      var items := factory(notFoundKeys);
      if items.None? then Fetch(s, Throws(NullReferenceException), Some(notFoundKeys))
      else
        var o := if |items.value| != 0 then p.setMany(s, items.value) else Outcome(s, Ok(()));
        if o.result.Throws? then Fetch(o.state, Throws(o.result.error), Some(notFoundKeys))
        else
          var added := AddRange(itemMap, items.value);
          if added.outcome.Throws? then Fetch(o.state, Throws(added.outcome.error), Some(notFoundKeys))
          else Fetch(o.state, Ok(if |added.target| != |keys| then None else Some(added.target)), Some(notFoundKeys))
  }

  /** `Get<T>(keys, factory)`: a non-null, non-empty first read is returned
      as it is; otherwise the keys are read again and completed by
      `Complete`, a `null` re-read being dereferenced. */
  function GetMany<S, V>(p: Primitives<S, V>, s: S, keys: seq<string>,
                         factory: seq<string> -> Option<Dictionary<string, Option<V>>>): (r: Fetch<S, seq<string>, Option<map<string, Option<V>>>>)
    ensures var o1 := p.getOrDefaultMany(s, keys);
            o1.result.Ok? && o1.result.value.Some? && |o1.result.value.value| > 0 ==>
              r == Fetch(o1.state, o1.result, None)
    ensures var o1 := p.getOrDefaultMany(s, keys);
            r.result.Ok? && r.result.value.Some? ==>
              r.result == o1.result || |r.result.value.value| == |keys|
    ensures var o1 := p.getOrDefaultMany(s, keys);
            var o2 := p.getOrDefaultMany(o1.state, keys);
            r.factoryInput.Some? ==>
              && o2.result.Ok? && o2.result.value.Some?
              && r.factoryInput.value == Missing(keys, o2.result.value.value)
              && |r.factoryInput.value| > 0
  {
    var o1 := p.getOrDefaultMany(s, keys);
    if o1.result.Throws? then Propagate(o1)
    else if o1.result.value.Some? && |o1.result.value.value| > 0 then Fetch(o1.state, o1.result, None)
    else
      var o2 := p.getOrDefaultMany(o1.state, keys);
      if o2.result.Throws? then Propagate(o2)
      else if o2.result.value.None? then Fetch(o2.state, Throws(NullReferenceException), None)
      else Complete(p, o2.state, keys, o2.result.value.value, factory)
  }

  // ---- The asynchronous members ----

  /** What the `...Async` members hand to the primitives: `GetOrDefaultAsync`,
      `SetAsync(key, value)` and `RemoveAsync` localize the key (and the
      batch `GetOrDefaultAsync` every key) before calling the primitive,
      which localizes it again; the batch `SetAsync` and `ClearAsync` pass
      through. `GetAsync` is `Get` over these. */
  function AsyncPrimitives<S, V>(p: Primitives<S, V>): (q: Primitives<S, V>)
    ensures q.name == p.name
    ensures q.setMany == p.setMany && q.clear == p.clear
  {
    Primitives(
      p.name,
      (s, key) => p.getOrDefault(s, LocalizedKey(p.name, key)),
      (s, keys) => p.getOrDefaultMany(s, LocalizeAll(p.name, keys)),
      (s, key, value) => p.setValue(s, LocalizedKey(p.name, key), value),
      p.setMany,
      (s, key) => p.remove(s, LocalizedKey(p.name, key)),
      p.clear)
  }

  /** `GetAsync<T>(key, factory)`: `Get` with `GetOrDefaultAsync` and
      `SetAsync`; the factory still receives the key as given. */
  function GetAsync<S, V>(p: Primitives<S, V>, s: S, key: string, factory: string -> Option<V>): (r: Fetch<S, string, Option<V>>)
    ensures var o1 := p.getOrDefault(s, LocalizedKey(p.name, key));
            var o2 := p.getOrDefault(o1.state, LocalizedKey(p.name, key));
            && (r.factoryInput.Some? <==> o1.result == Ok(None) && o2.result == Ok(None))
            && (r.factoryInput.Some? ==> r.factoryInput.value == key)
            && (r.factoryInput.Some? && factory(key).Some? ==>
                  r.state == p.setValue(o2.state, LocalizedKey(p.name, key), factory(key)).state)
  {
    Get(AsyncPrimitives(p), s, key, factory)
  }

  /** `GetAsync<T>(keys, factory)`: the batch `Get` with the batch
      `GetOrDefaultAsync` and `SetAsync`. */
  function GetManyAsync<S, V>(p: Primitives<S, V>, s: S, keys: seq<string>,
                              factory: seq<string> -> Option<Dictionary<string, Option<V>>>): (r: Fetch<S, seq<string>, Option<map<string, Option<V>>>>)
    ensures var o1 := p.getOrDefaultMany(s, LocalizeAll(p.name, keys));
            o1.result.Ok? && o1.result.value.Some? && |o1.result.value.value| > 0 ==>
              r == Fetch(o1.state, o1.result, None)
    ensures var o1 := p.getOrDefaultMany(s, LocalizeAll(p.name, keys));
            var o2 := p.getOrDefaultMany(o1.state, LocalizeAll(p.name, keys));
            r.factoryInput.Some? ==>
              && o2.result.Ok? && o2.result.value.Some?
              && r.factoryInput.value == Missing(keys, o2.result.value.value)
  {
    GetMany(AsyncPrimitives(p), s, keys, factory)
  }

  // ---- Properties of the protocol ----

  /** Splitting the requested keys into those the map holds and the missing
      ones accounts for every key once. */
  lemma {:induction false} MissingCount<V>(keys: seq<string>, m: map<string, V>)
    requires NoDuplicates(keys)
    ensures |(set k | k in keys && k in m)| + |Missing(keys, m)| == |keys|
  {
    if |keys| > 0 {
      var rest := keys[1..];
      MissingCount(rest, m);
      var found := set k | k in keys && k in m;
      var foundRest := set k | k in rest && k in m;
      assert keys[0] !in rest;
      if keys[0] in m {
        assert found == foundRest + {keys[0]};
      } else {
        assert found == foundRest;
      }
    }
  }

  /** A map holding only requested keys has as many entries as the
      requested keys it does not miss. */
  lemma MissingSize<V>(keys: seq<string>, m: map<string, V>)
    requires NoDuplicates(keys)
    requires forall k :: k in m ==> k in keys
    ensures |m| + |Missing(keys, m)| == |keys|
  {
    MissingCount(keys, m);
    assert (set k | k in keys && k in m) == m.Keys;
  }

  /** All or nothing: when the re-read map holds only requested keys and
      the factory answers for exactly the missing ones, the locked part
      returns a map with an entry for every requested key and no other. */
  lemma CompleteAnswersAll<S, V>(p: Primitives<S, V>, s: S, keys: seq<string>, itemMap: map<string, Option<V>>,
                                 factory: seq<string> -> Option<Dictionary<string, Option<V>>>)
    requires NoDuplicates(keys)
    requires forall k :: k in itemMap ==> k in keys
    requires |Missing(keys, itemMap)| > 0 ==>
               && factory(Missing(keys, itemMap)).Some?
               && KeysOf(factory(Missing(keys, itemMap)).value) == Missing(keys, itemMap)
               && p.setMany(s, factory(Missing(keys, itemMap)).value).result.Ok?
    ensures var r := Complete(p, s, keys, itemMap, factory);
            && r.result.Ok? && r.result.value.Some?
            && forall k :: k in r.result.value.value <==> k in keys
  {
    MissingSize(keys, itemMap);
    if |Missing(keys, itemMap)| > 0 {
      CompleteMergesAnswer(p, s, keys, itemMap, factory);
    } else {
      assert Complete(p, s, keys, itemMap, factory).result == Ok(Some(itemMap));
    }
  }

  /** The case of `CompleteAnswersAll` where the factory is asked. */
  lemma CompleteMergesAnswer<S, V>(p: Primitives<S, V>, s: S, keys: seq<string>, itemMap: map<string, Option<V>>,
                                   factory: seq<string> -> Option<Dictionary<string, Option<V>>>)
    requires forall k :: k in itemMap ==> k in keys
    requires |itemMap| + |Missing(keys, itemMap)| == |keys|
    requires var missing := Missing(keys, itemMap);
             && |missing| > 0
             && factory(missing).Some?
             && KeysOf(factory(missing).value) == missing
             && p.setMany(s, factory(missing).value).result.Ok?
    ensures var r := Complete(p, s, keys, itemMap, factory);
            && r.result.Ok? && r.result.value.Some?
            && forall k :: k in r.result.value.value <==> k in keys
  {
    var missing := Missing(keys, itemMap);
    var r := Complete(p, s, keys, itemMap, factory);
    var items := factory(missing).value;
    assert forall i :: 0 <= i < |items| ==> items[i].0 == missing[i];
    assert CanAddAll(itemMap, items);
    AddRangeSize(itemMap, items);
    var target := itemMap + ToMap(items);
    assert |target| == |keys|;
    assert r.result == Ok(Some(target));
    forall k
      ensures k in target <==> k in keys
    {
      assert k in ToMap(items) <==> k in missing;
    }
  }

  /** When both reads come back empty, the batch `Get` asks the factory for
      every key, stores its answer with the batch `Set` and returns it as the
      map of the factory's pairs. */
  lemma GetManyOfEmptyReads<S, V>(p: Primitives<S, V>, s: S, keys: seq<string>,
                                  factory: seq<string> -> Option<Dictionary<string, Option<V>>>)
    requires |keys| > 0
    requires p.getOrDefaultMany(s, keys).result == Ok(Some(map[]))
    requires p.getOrDefaultMany(p.getOrDefaultMany(s, keys).state, keys).result == Ok(Some(map[]))
    requires factory(keys).Some? && KeysOf(factory(keys).value) == keys
    requires var s2 := p.getOrDefaultMany(p.getOrDefaultMany(s, keys).state, keys).state;
             p.setMany(s2, factory(keys).value).result.Ok?
    ensures var s2 := p.getOrDefaultMany(p.getOrDefaultMany(s, keys).state, keys).state;
            GetMany(p, s, keys, factory)
              == Fetch(p.setMany(s2, factory(keys).value).state, Ok(Some(ToMap(factory(keys).value))), Some(keys))
  {
    var o1 := p.getOrDefaultMany(s, keys);
    var o2 := p.getOrDefaultMany(o1.state, keys);
    var empty: map<string, Option<V>> := map[];
    assert o2.result.value.value == empty;
    assert GetMany(p, s, keys, factory) == Complete(p, o2.state, keys, empty, factory);
    CompleteOfEmpty(p, o2.state, keys, factory);
  }

  /** The locked part from an empty re-read: every key is missing, and the
      factory's answer is stored and returned as a map. */
  lemma CompleteOfEmpty<S, V>(p: Primitives<S, V>, s: S, keys: seq<string>,
                              factory: seq<string> -> Option<Dictionary<string, Option<V>>>)
    requires |keys| > 0
    requires factory(keys).Some? && KeysOf(factory(keys).value) == keys
    requires p.setMany(s, factory(keys).value).result.Ok?
    ensures Complete(p, s, keys, map[], factory)
              == Fetch(p.setMany(s, factory(keys).value).state, Ok(Some(ToMap(factory(keys).value))), Some(keys))
  {
    var empty: map<string, Option<V>> := map[];
    var items := factory(keys).value;
    assert Missing(keys, empty) == keys by { MissingAll(keys, empty); }
    assert |items| == |keys|;
    AddRangeToEmpty(items);
  }

  /** `Missing` of keys a map has none of is all of them. */
  lemma {:induction false} MissingAll<V>(keys: seq<string>, m: map<string, V>)
    requires forall i :: 0 <= i < |keys| ==> keys[i] !in m
    ensures Missing(keys, m) == keys
  {
    if |keys| > 0 {
      var rest := keys[1..];
      assert forall i :: 0 <= i < |rest| ==> rest[i] == keys[i + 1];
      MissingAll(rest, m);
      assert keys[0] !in m;
      calc {
        Missing(keys, m);
        [keys[0]] + Missing(rest, m);
        [keys[0]] + rest;
        keys;
      }
    }
  }
}
