/** The cache registry: one cache per name, created on first request by the
    concrete manager and initialized by the configurators meant for it. */
module CacheManager {
  import opened Configuration

  /** The identity of a cache object made by `CreateCacheImplementation`. */
  type CacheId = nat

  /** A created cache: its identity, the name it was made for, and the
      initialization actions run on it, in the order they ran. */
  datatype Created = Created(id: CacheId, name: string, initActions: seq<ActionId>)

  /** The registry (`Caches`) and the next identity object creation hands
      out; identities are never reused, registry or not. */
  datatype Manager = Manager(caches: map<string, Created>, nextId: CacheId)

  /** Each registered cache is under its own name, was created before, and
      no two names share a cache. */
  ghost predicate Valid(m: Manager) {
    && (forall n :: n in m.caches ==> m.caches[n].name == n && m.caches[n].id < m.nextId)
    && (forall a, b :: a in m.caches && b in m.caches && a != b ==> m.caches[a].id != m.caches[b].id)
  }

  /** `new CacheManagerBase(configuration)`: an empty registry. */
  function NewManager(): (m: Manager)
    ensures |m.caches| == 0 && Valid(m)
  {
    Manager(map[], 0)
  }

  datatype Lookup = Lookup(manager: Manager, cache: Created)

  /** `GetCache(name)`: the registered cache, or else a new one, initialized
      with the actions of the configurators for `name` as the configuration
      lists them at this call, and registered. */
  function GetCache(m: Manager, config: CachingConfiguration, name: string): (r: Lookup)
    ensures Valid(m) ==> Valid(r.manager)
    ensures name in r.manager.caches && r.manager.caches[name] == r.cache
    ensures name in m.caches ==> r == Lookup(m, m.caches[name])
    ensures name !in m.caches ==>
              && r.cache == Created(m.nextId, name, ActionsFor(config, name))
              && r.manager.caches.Keys == m.caches.Keys + {name}
              && (forall n :: n in m.caches ==> r.manager.caches[n] == m.caches[n])
              && r.manager.nextId == m.nextId + 1
  {
    if name in m.caches then Lookup(m, m.caches[name])
    else
      var cache := Created(m.nextId, name, ActionsFor(config, name));
      Lookup(Manager(m.caches[name := cache], m.nextId + 1), cache)
  }

  /** `GetAllCaches()`: the registered caches. */
  function GetAllCaches(m: Manager): (r: set<Created>)
    ensures Valid(m) ==> forall c :: c in r <==> c.name in m.caches && m.caches[c.name] == c
  {
    set n | n in m.caches :: m.caches[n]
  }

  /** `Dispose()` empties the registry. */
  function Dispose(m: Manager): (r: Manager)
    ensures |r.caches| == 0 && Valid(r) && r.nextId == m.nextId
  {
    m.(caches := map[])
  }

  /** A repeated `GetCache` returns the same cache, runs no initialization
      action, and leaves the registry as it was, whatever the configuration
      has become meanwhile. */
  lemma GetCacheMemoizes(m: Manager, config: CachingConfiguration, later: CachingConfiguration, name: string)
    ensures var first := GetCache(m, config, name);
            GetCache(first.manager, later, name) == first
  {
    var first := GetCache(m, config, name);
    assert name in first.manager.caches;
  }

  /** After `Dispose`, `GetCache` makes a new cache, distinct from every
      cache handed out before, and initializes it afresh. */
  lemma DisposeThenGetCreatesFresh(m: Manager, config: CachingConfiguration, name: string)
    requires Valid(m)
    ensures var r := GetCache(Dispose(m), config, name);
            && (forall n :: n in m.caches ==> r.cache.id != m.caches[n].id)
            && r.cache.initActions == ActionsFor(config, name)
  {
  }

  /** The caches made by a series of `GetCache` calls, one per call. */
  function GetCaches(m: Manager, config: CachingConfiguration, names: seq<string>): (r: Manager)
    ensures Valid(m) ==> Valid(r)
    decreases |names|
  {
    if |names| == 0 then m else GetCaches(GetCache(m, config, names[0]).manager, config, names[1..])
  }

  /** After requests for `names`, the registry holds exactly the names
      requested and those it held already, and the caches it held are
      untouched. */
  lemma {:induction false} GetCachesRegisters(m: Manager, config: CachingConfiguration, names: seq<string>)
    ensures var r := GetCaches(m, config, names);
            && (forall n :: n in r.caches <==> n in m.caches || n in names)
            && (forall n :: n in m.caches ==> r.caches[n] == m.caches[n])
    decreases |names|
  {
    if |names| > 0 {
      var m1 := GetCache(m, config, names[0]).manager;
      GetCachesRegisters(m1, config, names[1..]);
      assert forall n :: n in names <==> n == names[0] || n in names[1..];
    }
  }

  /** A map that never gives two keys the same cache has as many caches as
      keys. */
  lemma {:induction false} DistinctCachesCount(caches: map<string, Created>)
    requires forall a, b :: a in caches && b in caches && a != b ==> caches[a].id != caches[b].id
    ensures |set n | n in caches :: caches[n]| == |caches|
    decreases |caches|
  {
    if |caches| > 0 {
      var k :| k in caches;
      var rest := caches - {k};
      DistinctCachesCount(rest);
      var all := set n | n in caches :: caches[n];
      var others := set n | n in rest :: rest[n];
      forall c | c in all
        ensures c in others || c == caches[k]
      {
        var n :| n in caches && caches[n] == c;
        if n != k {
          assert n in rest;
        }
      }
      assert all == others + {caches[k]};
      assert caches[k] !in others by {
        forall n | n in rest
          ensures rest[n] != caches[k]
        {
          assert caches[n].id != caches[k].id;
        }
      }
    } else {
      assert caches == map[];
    }
  }

  /** `GetAllCaches` on a registry built from empty by requests for `names`
      holds one cache per distinct name requested, each made for its name. */
  lemma OneCachePerName(config: CachingConfiguration, names: seq<string>)
    ensures var r := GetCaches(NewManager(), config, names);
            var all := GetAllCaches(r);
            && |all| == |set n | n in names|
            && forall n :: n in names <==> exists c :: c in all && c.name == n
  {
    var r := GetCaches(NewManager(), config, names);
    GetCachesRegisters(NewManager(), config, names);
    DistinctCachesCount(r.caches);
    assert r.caches.Keys == set n | n in names;
    forall n | n in names
      ensures exists c :: c in GetAllCaches(r) && c.name == n
    {
      assert r.caches[n] in GetAllCaches(r);
    }
  }
}
