/** The caching configuration: an ordered list of configurators, each an
    initialization action and the name of the cache it is for (`null` for
    every cache). A cache being created runs the actions meant for it in
    registration order. */
module Configuration {
  import opened Wrappers

  /** The identity of an `Action<ICache>` delegate; what it does to the
      cache is not part of this model. */
  type ActionId = nat

  datatype Configurator = Configurator(cacheName: Option<string>, initAction: Option<ActionId>)

  /** `new CacheConfigurator(initAction)`: for every cache. */
  function ForAllCaches(initAction: Option<ActionId>): (c: Configurator)
    ensures c.cacheName.None? && c.initAction == initAction
  {
    Configurator(None, initAction)
  }

  /** `new CacheConfigurator(cacheName, initAction)`. */
  function ForCache(cacheName: Option<string>, initAction: Option<ActionId>): (c: Configurator)
    ensures c.cacheName == cacheName && c.initAction == initAction
  {
    Configurator(cacheName, initAction)
  }

  datatype CachingConfiguration = CachingConfiguration(configurators: seq<Configurator>)

  /** `new CachingConfiguration()`. */
  function NewConfiguration(): (c: CachingConfiguration)
    ensures |c.configurators| == 0
  {
    CachingConfiguration([])
  }

  /** `ConfigureAll(initAction)` appends one configurator for every cache. */
  function ConfigureAll(c: CachingConfiguration, initAction: Option<ActionId>): (r: CachingConfiguration)
    ensures |r.configurators| == |c.configurators| + 1
    ensures r.configurators[..|c.configurators|] == c.configurators
    ensures r.configurators[|c.configurators|] == Configurator(None, initAction)
  {
    CachingConfiguration(c.configurators + [ForAllCaches(initAction)])
  }

  /** `Configure(cacheName, initAction)` appends one configurator for the
      named cache (a `null` name makes it one for every cache). */
  function Configure(c: CachingConfiguration, cacheName: Option<string>, initAction: Option<ActionId>): (r: CachingConfiguration)
    ensures |r.configurators| == |c.configurators| + 1
    ensures r.configurators[..|c.configurators|] == c.configurators
    ensures r.configurators[|c.configurators|] == Configurator(cacheName, initAction)
  {
    CachingConfiguration(c.configurators + [ForCache(cacheName, initAction)])
  }

  /** The `Configurators` property: the list as it stands, handed out as
      an immutable copy. */
  function Configurators(c: CachingConfiguration): (r: seq<Configurator>)
    ensures r == c.configurators
  {
    c.configurators
  }

  /** A registration call, for reasoning about a series of them. */
  datatype Registration =
    | ConfigureAllCall(initAction: Option<ActionId>)
    | ConfigureCall(cacheName: Option<string>, initAction: Option<ActionId>)

  function Register(c: CachingConfiguration, reg: Registration): CachingConfiguration {
    match reg
    case ConfigureAllCall(a) => ConfigureAll(c, a)
    case ConfigureCall(n, a) => Configure(c, n, a)
  }

  /** The configurator a registration call appends. */
  function Registered(reg: Registration): Configurator {
    match reg
    case ConfigureAllCall(a) => Configurator(None, a)
    case ConfigureCall(n, a) => Configurator(n, a)
  }

  function RegisterAll(c: CachingConfiguration, regs: seq<Registration>): CachingConfiguration
    decreases |regs|
  {
    if |regs| == 0 then c else RegisterAll(Register(c, regs[0]), regs[1..])
  }

  /** Registration is append-only: after any series of calls, the earlier
      configurators keep their positions, and the i-th new one is what the
      i-th call registered. */
  lemma {:induction false} RegisterAllAppends(c: CachingConfiguration, regs: seq<Registration>)
    ensures var r := RegisterAll(c, regs).configurators;
            && |r| == |c.configurators| + |regs|
            && r[..|c.configurators|] == c.configurators
            && forall i :: 0 <= i < |regs| ==> r[|c.configurators| + i] == Registered(regs[i])
    decreases |regs|
  {
    if |regs| > 0 {
      var c1 := Register(c, regs[0]);
      assert c1.configurators == c.configurators + [Registered(regs[0])];
      RegisterAllAppends(c1, regs[1..]);
      var r := RegisterAll(c, regs).configurators;
      assert r[..|c1.configurators|] == c1.configurators;
      assert r[..|c.configurators|] == c1.configurators[..|c.configurators|];
      forall i | 0 <= i < |regs|
        ensures r[|c.configurators| + i] == Registered(regs[i])
      {
        if i > 0 {
          assert regs[1..][i - 1] == regs[i];
        } else {
          assert r[|c.configurators|] == c1.configurators[|c.configurators|];
        }
      }
    }
  }

  /** A snapshot taken before further registrations is still the start of
      the list: later calls neither alter nor reorder what it holds. */
  lemma SnapshotIsPrefix(c: CachingConfiguration, regs: seq<Registration>)
    ensures var before := Configurators(c);
            var after := Configurators(RegisterAll(c, regs));
            |before| <= |after| && after[..|before|] == before
  {
    RegisterAllAppends(c, regs);
  }

  /** Whether a configurator is for the cache called `name`: its name is
      `null` or equal to it (ordinal comparison). */
  predicate Matches(c: Configurator, name: string) {
    c.cacheName.None? || c.cacheName.value == name
  }

  /** The configurators for the cache called `name`, in registration order. */
  function Applicable(cs: seq<Configurator>, name: string): (r: seq<Configurator>)
    ensures |r| <= |cs|
    ensures forall c :: c in r <==> c in cs && Matches(c, name)
  {
    if |cs| == 0 then []
    else if Matches(cs[0], name) then [cs[0]] + Applicable(cs[1..], name)
    else Applicable(cs[1..], name)
  }

  /** `Applicable` keeps the order: selecting from a concatenation is
      concatenating the selections. */
  lemma {:induction false} ApplicableAppend(a: seq<Configurator>, b: seq<Configurator>, name: string)
    ensures Applicable(a + b, name) == Applicable(a, name) + Applicable(b, name)
    decreases |a|
  {
    if |a| > 0 {
      assert (a + b)[1..] == a[1..] + b;
      ApplicableAppend(a[1..], b, name);
    } else {
      assert a + b == b;
    }
  }

  /** The actions run on the cache: those of its configurators, in order,
      a `null` action being skipped (`InitAction?.Invoke`). */
  function InitActions(cs: seq<Configurator>): (r: seq<ActionId>)
    ensures |r| <= |cs|
    ensures forall a :: a in r <==> exists i :: 0 <= i < |cs| && cs[i].initAction == Some(a)
  {
    if |cs| == 0 then []
    else
      var rest := InitActions(cs[1..]);
      assert forall i :: 1 <= i < |cs| ==> cs[i] == cs[1..][i - 1];
      if cs[0].initAction.Some? then
        assert forall a :: a in rest ==> exists i :: 0 <= i < |cs| && cs[i].initAction == Some(a);
        [cs[0].initAction.value] + rest
      else rest
  }

  lemma {:induction false} InitActionsAppend(a: seq<Configurator>, b: seq<Configurator>)
    ensures InitActions(a + b) == InitActions(a) + InitActions(b)
    decreases |a|
  {
    if |a| > 0 {
      assert (a + b)[1..] == a[1..] + b;
      InitActionsAppend(a[1..], b);
    } else {
      assert a + b == b;
    }
  }

  /** The actions a cache called `name` receives from a configuration. */
  function ActionsFor(c: CachingConfiguration, name: string): seq<ActionId> {
    InitActions(Applicable(c.configurators, name))
  }

  /** A `ConfigureAll` action runs, last so far, on every cache created
      afterwards; a `null` one adds nothing. */
  lemma ConfigureAllReachesEveryCache(c: CachingConfiguration, initAction: Option<ActionId>, name: string)
    ensures ActionsFor(ConfigureAll(c, initAction), name)
              == ActionsFor(c, name) + (if initAction.Some? then [initAction.value] else [])
  {
    var one := [Configurator(None, initAction)];
    ApplicableAppend(c.configurators, one, name);
    InitActionsAppend(Applicable(c.configurators, name), Applicable(one, name));
  }

  /** A `Configure(cacheName, ...)` action runs on the cache called `name`
      exactly when `cacheName` is `null` or equal to it. */
  lemma ConfigureReachesNamedCache(c: CachingConfiguration, cacheName: Option<string>, initAction: ActionId, name: string)
    ensures ActionsFor(Configure(c, cacheName, Some(initAction)), name)
              == ActionsFor(c, name) + (if cacheName.None? || cacheName.value == name then [initAction] else [])
  {
    var one := [Configurator(cacheName, Some(initAction))];
    ApplicableAppend(c.configurators, one, name);
    InitActionsAppend(Applicable(c.configurators, name), Applicable(one, name));
  }
}
