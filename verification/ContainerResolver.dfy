/** The dependency injection resolver (core/container/resolver.py), resolving one request at a
    time: it agrees with the validator whatever it has cached. */
module ContainerResolver {
  import opened Wrappers
  import opened ContainerValidation

  /** A service object: a registered instance, or the `id`-th object made, with its arguments. */
  datatype Obj = Ready(ofType: Interface) | Made(id: nat, ofType: Interface, args: seq<Arg>)

  datatype Arg = Injected(obj: Obj) | Defaulted

  datatype Outcome = Ok(obj: Obj) | CircularDependency | ResolutionError

  function VerdictOf(r: Outcome): Verdict {
    match r
    case Ok(_) => Fine
    case CircularDependency => Cyclic
    case ResolutionError => Missing
  }

  /** The object has what the registry says: for each parameter in order the resolved service, or
      the default exactly when that service cannot be resolved; every singleton in it is the one
      that is cached. */
  ghost predicate WellMade(reg: Registry, singletons: map<Interface, Obj>, t: Interface, o: Obj)
    decreases o
  {
    && t in reg
    && match reg[t].provider
       case Instance => o == Ready(t)
       case NoTarget => false
       case Target(params, _) =>
         && o.Made? && o.ofType == t
         && (reg[t].lifetime == Singleton ==> t in singletons && singletons[t] == o)
         && |o.args| == |params|
         && forall k :: 0 <= k < |params| ==> WellMadeArg(reg, singletons, params[k], o.args[k])
  }

  ghost predicate WellMadeArg(reg: Registry, singletons: map<Interface, Obj>, p: Param, arg: Arg)
    decreases arg
  {
    && p.annotation.Some?
    && match arg
       case Injected(x) => Verdict0(reg, p.annotation.value) == Fine && WellMade(reg, singletons, p.annotation.value, x)
       case Defaulted => Verdict0(reg, p.annotation.value) == Missing && p.hasDefault
  }

  ghost predicate Extends(before: map<Interface, Obj>, after: map<Interface, Obj>) {
    forall t :: t in before ==> t in after && after[t] == before[t]
  }

  /** Nothing cached is replaced, and nothing new is cached for a type on the chain. */
  ghost predicate Grown(chain: set<Interface>, before: map<Interface, Obj>, after: map<Interface, Obj>) {
    Extends(before, after) && forall t :: t in chain && t in after ==> t in before
  }

  lemma GrownStore(chain: set<Interface>, i: Interface, before: map<Interface, Obj>, after: map<Interface, Obj>, o: Obj)
    requires Grown(chain + {i}, before, after) && i !in chain && i !in before
    ensures Grown(chain, before, after) && Grown(chain, before, after[i := o]) && i !in after
  {
    assert i in chain + {i};
    forall t | t in chain && t in after[i := o]
      ensures t in before
    {
      assert t in chain + {i};
    }
  }

  lemma GrownLess(chain: set<Interface>, i: Interface, before: map<Interface, Obj>, after: map<Interface, Obj>)
    requires Grown(chain + {i}, before, after)
    ensures Grown(chain, before, after)
  {
    assert forall t :: t in chain ==> t in chain + {i};
  }

  /** Caching more singletons does not unmake an object. */
  lemma {:induction false} WellMadeStays(reg: Registry, before: map<Interface, Obj>, after: map<Interface, Obj>,
                                         t: Interface, o: Obj)
    requires Extends(before, after) && WellMade(reg, before, t, o)
    ensures WellMade(reg, after, t, o)
    decreases o
  {
    if reg[t].provider.Target? {
      var params := reg[t].provider.params;
      forall k | 0 <= k < |params|
        ensures WellMadeArg(reg, after, params[k], o.args[k])
      {
        assert WellMadeArg(reg, before, params[k], o.args[k]);
        if o.args[k].Injected? {
          WellMadeStays(reg, before, after, params[k].annotation.value, o.args[k].obj);
        }
      }
    }
  }

  /** What a cache may hold for a type: something made for it, and only if the validator accepts
      the type. */
  ghost predicate Cacheable(reg: Registry, singletons: map<Interface, Obj>, lifetime: Lifetime, t: Interface, o: Obj) {
    && t in reg && reg[t].lifetime == lifetime && reg[t].provider.Target?
    && Verdict0(reg, t) == Fine
    && WellMade(reg, singletons, t, o)
  }

  ghost predicate GoodCache(reg: Registry, singletons: map<Interface, Obj>, lifetime: Lifetime,
                            cache: map<Interface, Obj>) {
    forall t :: t in cache ==> Cacheable(reg, singletons, lifetime, t, cache[t])
  }

  lemma GoodCacheStays(reg: Registry, before: map<Interface, Obj>, after: map<Interface, Obj>, lifetime: Lifetime,
                       cache: map<Interface, Obj>)
    requires Extends(before, after) && GoodCache(reg, before, lifetime, cache)
    ensures GoodCache(reg, after, lifetime, cache)
  {
    forall t | t in cache
      ensures Cacheable(reg, after, lifetime, t, cache[t])
    {
      assert Cacheable(reg, before, lifetime, t, cache[t]);
      WellMadeStays(reg, before, after, t, cache[t]);
    }
  }

  /** The dictionary of scoped instances that a scope hands to the resolver. */
  class Scope {
    var instances: map<Interface, Obj>

    constructor ()
      ensures instances == map[]
    {
      instances := map[];
    }
  }

  class Resolver {
    const registry: Registry
    var singletons: map<Interface, Obj>
    /** The locks that exist, and those that are taken. */
    var locks: set<Interface>
    var held: set<Interface>
    var nextId: nat

    constructor (registry: Registry)
      ensures this.registry == registry && singletons == map[] && held == {}
      ensures GoodCache(registry, singletons, Singleton, singletons)
    {
      this.registry := registry;
      singletons, locks, held, nextId := map[], {}, {}, 0;
    }

    ghost predicate Valid(scope: Scope)
      reads this, scope
    {
      && GoodCache(registry, singletons, Singleton, singletons)
      && GoodCache(registry, singletons, Scoped, scope.instances)
      && held <= locks
    }

    /** Resolving along a chain ends as the validator says for that chain, whatever is cached;
        every lock taken is free when it is taken, and is released. */
    method Resolve(i: Interface, scope: Scope, chain: set<Interface>, ghost trail: seq<Interface>)
        returns (r: Outcome)
      requires Valid(scope) && held <= chain <= registry.Keys
      requires chain == Elements(trail) && Trail(registry, trail + [i])
      modifies this, scope
      ensures Valid(scope) && held == old(held) && old(nextId) <= nextId
      ensures Grown(chain, old(singletons), singletons) && Grown(chain, old(scope.instances), scope.instances)
      ensures VerdictOf(r) == ValidateNode(registry, i, chain)
      ensures r.Ok? ==> WellMade(registry, singletons, i, r.obj)
      ensures r.Ok? && registry[i].lifetime == Transient && r.obj.Made? ==> old(nextId) <= r.obj.id < nextId
      ensures r.Ok? && registry[i].lifetime == Scoped ==>
                if i in old(scope.instances) then r.obj == old(scope.instances)[i]
                else registry[i].provider.Target? ==> i in scope.instances && scope.instances[i] == r.obj
      decreases |Unvisited(registry, chain)|, 1
    {
      if i in chain {
        return CircularDependency;
      }
      if i !in registry {
        return ResolutionError;
      }
      EnterChain(registry, trail, i, chain);
      var descriptor := registry[i];
      if descriptor.lifetime == Singleton {
        if i in singletons {
          assert Cacheable(registry, singletons, Singleton, i, singletons[i]);
          return Ok(singletons[i]);
        }
      } else if descriptor.lifetime == Scoped {
        if i in scope.instances {
          assert Cacheable(registry, singletons, Scoped, i, scope.instances[i]);
          return Ok(scope.instances[i]);
        }
      }
      if descriptor.provider.Instance? {
        return Ok(Ready(i));
      }
      if descriptor.lifetime == Singleton {
        r := BuildSingleton(i, scope, chain, trail);
      } else {
        r := Build(i, scope, chain + {i}, trail);
        if r.Ok? && descriptor.lifetime == Scoped {
          StoreScoped(i, r.obj, scope, chain, old(scope.instances));
        }
      }
    }

    /** The branch that takes the lock of the type: nobody holds it, because whoever does has the
        type on the chain. */
    method BuildSingleton(i: Interface, scope: Scope, chain: set<Interface>, ghost trail: seq<Interface>)
        returns (r: Outcome)
      requires Valid(scope) && held <= chain <= registry.Keys
      requires chain == Elements(trail) && Trail(registry, trail + [i])
      requires i in registry && i !in chain && i !in singletons
      requires registry[i].lifetime == Singleton && !registry[i].provider.Instance?
      modifies this, scope
      ensures Valid(scope) && held == old(held) && old(nextId) <= nextId
      ensures Grown(chain, old(singletons), singletons) && Grown(chain, old(scope.instances), scope.instances)
      ensures VerdictOf(r) == ValidateNode(registry, i, chain)
      ensures r.Ok? ==> WellMade(registry, singletons, i, r.obj) && i in singletons
      decreases |Unvisited(registry, chain)|, 0
    {
      EnterChain(registry, trail, i, chain);
      TakeLock(i);
      r := Build(i, scope, chain + {i}, trail);
      if r.Ok? {
        StoreSingleton(i, r.obj, scope, chain, old(singletons));
      } else {
        GrownLess(chain, i, old(singletons), singletons);
      }
      GrownLess(chain, i, old(scope.instances), scope.instances);
      held := held - {i};
    }

    method TakeLock(i: Interface)
      requires i !in held && held <= locks
      modifies this`locks, this`held
      ensures held == old(held) + {i} && held <= locks
    {
      locks := locks + {i};
      held := held + {i};
    }

    method StoreSingleton(i: Interface, o: Obj, scope: Scope, ghost chain: set<Interface>, ghost start: map<Interface, Obj>)
      requires Valid(scope) && i !in chain && i !in start && Grown(chain + {i}, start, singletons)
      requires i in registry && registry[i].lifetime == Singleton && registry[i].provider.Target?
      requires Verdict0(registry, i) == Fine && MadeFor(registry, singletons, i, o)
      modifies this`singletons
      ensures Valid(scope) && singletons == old(singletons)[i := o] && Grown(chain, start, singletons)
      ensures WellMade(registry, singletons, i, o)
    {
      ghost var before := singletons;
      GrownStore(chain, i, start, before, o);
      singletons := singletons[i := o];
      StoredIsWellMade(registry, before, i, o);
      GoodCacheStays(registry, before, singletons, Singleton, before);
      GoodCacheStays(registry, before, singletons, Scoped, scope.instances);
    }

    method StoreScoped(i: Interface, o: Obj, scope: Scope, ghost chain: set<Interface>, ghost start: map<Interface, Obj>)
      requires Valid(scope) && i !in chain && i !in start && Grown(chain + {i}, start, scope.instances)
      requires i in registry && registry[i].lifetime == Scoped && registry[i].provider.Target?
      requires Verdict0(registry, i) == Fine && MadeFor(registry, singletons, i, o)
      modifies scope`instances
      ensures Valid(scope) && scope.instances == old(scope.instances)[i := o] && Grown(chain, start, scope.instances)
      ensures WellMade(registry, singletons, i, o)
    {
      GrownStore(chain, i, start, scope.instances, o);
      assert Cacheable(registry, singletons, Scoped, i, o);
      scope.instances := scope.instances[i := o];
    }

    /** Fill the parameters in order; each is resolved along the extended chain. */
    method Build(i: Interface, scope: Scope, chain: set<Interface>, ghost trail: seq<Interface>)
        returns (r: Outcome)
      requires Valid(scope) && held <= chain <= registry.Keys
      requires i in registry && !registry[i].provider.Instance? && i !in trail
      requires chain == Elements(trail) + {i} && Trail(registry, trail + [i])
      modifies this, scope
      ensures Valid(scope) && held == old(held) && old(nextId) <= nextId
      ensures Grown(chain, old(singletons), singletons) && Grown(chain, old(scope.instances), scope.instances)
      ensures VerdictOf(r) == BuildVerdict(registry, i, chain)
      ensures r.Ok? ==> MadeFor(registry, singletons, i, r.obj) && old(nextId) <= r.obj.id < nextId
      decreases |Unvisited(registry, chain)|, 3
    {
      if registry[i].provider.NoTarget? {
        return ResolutionError;
      }
      var params := registry[i].provider.params;
      var args: seq<Arg> := [];
      for k := 0 to |params|
        invariant Valid(scope) && held == old(held) && old(nextId) <= nextId
        invariant Grown(chain, old(singletons), singletons) && Grown(chain, old(scope.instances), scope.instances)
        invariant ArgsFor(registry, singletons, params[..k], args)
        invariant ValidateParams(registry, params[k..], chain) == ValidateParams(registry, params, chain)
        invariant forall j :: 0 <= j < k ==> Passes(registry, params[j])
      {
        ghost var before := singletons;
        var arg;
        r, arg := Argument(i, k, scope, chain, trail);
        if arg.None? {
          return;
        }
        ArgsExtend(registry, before, singletons, params, k, args, arg.value);
        args := args + [arg.value];
      }
      assert params[..|params|] == params;
      r := Ok(Made(nextId, i, args));
      nextId := nextId + 1;
    }

    /** The `k`-th argument: the resolved service, the default, or the error to raise. */
    method Argument(i: Interface, k: nat, scope: Scope, chain: set<Interface>, ghost trail: seq<Interface>)
        returns (r: Outcome, arg: Option<Arg>)
      requires Valid(scope) && held <= chain <= registry.Keys
      requires i in registry && registry[i].provider.Target? && k < |registry[i].provider.params| && i !in trail
      requires chain == Elements(trail) + {i} && Trail(registry, trail + [i])
      requires forall j :: 0 <= j < k ==> Passes(registry, registry[i].provider.params[j])
      modifies this, scope
      ensures Valid(scope) && held == old(held) && old(nextId) <= nextId
      ensures Grown(chain, old(singletons), singletons) && Grown(chain, old(scope.instances), scope.instances)
      ensures var params := registry[i].provider.params;
              if arg.None? then
                VerdictOf(r) == ValidateParams(registry, params[k..], chain) && VerdictOf(r) != Fine
              else
                && WellMadeArg(registry, singletons, params[k], arg.value)
                && Passes(registry, params[k])
                && ValidateParams(registry, params[k..], chain) == ValidateParams(registry, params[k + 1..], chain)
      decreases |Unvisited(registry, chain)|, 2
    {
      var params := registry[i].provider.params;
      var p := params[k];
      assert params[k..][0] == p && params[k..][1..] == params[k + 1..];
      if p.annotation.None? {
        return ResolutionError, None;
      }
      var t := p.annotation.value;
      assert Elements(trail + [i]) == chain;
      assert AsksAt(registry, params, k, t);
      ExtendTrail(registry, trail, i, t);
      r := Resolve(t, scope, chain, trail + [i]);
      if t !in trail + [i] {
        ChainIndependent(registry, trail + [i], t);
      }
      match r
      case Ok(o) =>
        arg := Some(Injected(o));
      case CircularDependency =>
        arg := None;
      case ResolutionError =>
        arg := if p.hasDefault then Some(Defaulted) else None;
    }

    /** Resolution from the root, with whatever earlier resolutions have cached: it succeeds,
        reports a cycle, or reports a missing dependency exactly as the validator does. */
    method ResolveRoot(i: Interface) returns (r: Outcome)
      requires GoodCache(registry, singletons, Singleton, singletons) && held == {}
      modifies this
      ensures GoodCache(registry, singletons, Singleton, singletons) && held == {}
      ensures Extends(old(singletons), singletons)
      ensures VerdictOf(r) == Verdict0(registry, i)
      ensures r.Ok? ==> WellMade(registry, singletons, i, r.obj)
      ensures i in old(singletons) ==> r == Ok(old(singletons)[i])
    {
      var scope := new Scope();
      assert Elements([]) == {};
      if i in singletons {
        assert Cacheable(registry, singletons, Singleton, i, singletons[i]);
      }
      held := {};
      r := Resolve(i, scope, {}, []);
    }
  }

  function BuildVerdict(reg: Registry, i: Interface, chain: set<Interface>): Verdict
    requires i in reg
  {
    match reg[i].provider
    case Instance => Fine
    case NoTarget => Missing
    case Target(params, _) => ValidateParams(reg, params, chain)
  }

  lemma EnterChain(reg: Registry, trail: seq<Interface>, i: Interface, chain: set<Interface>)
    requires chain == Elements(trail) && Trail(reg, trail + [i]) && i in reg && i !in chain
    ensures i !in trail && chain + {i} == Elements(trail + [i])
    ensures |Unvisited(reg, chain + {i})| < |Unvisited(reg, chain)|
    ensures ValidateNode(reg, i, chain) == Verdict0(reg, i) == BuildVerdict(reg, i, chain + {i})
  {
    ChainIndependent(reg, trail, i);
    EnterShrinks(reg, trail, i);
  }

  ghost predicate ArgsFor(reg: Registry, singletons: map<Interface, Obj>, params: seq<Param>, args: seq<Arg>) {
    |args| == |params| && forall k :: 0 <= k < |params| ==> WellMadeArg(reg, singletons, params[k], args[k])
  }

  /** Freshly made, not cached yet. */
  ghost predicate MadeFor(reg: Registry, singletons: map<Interface, Obj>, t: Interface, o: Obj) {
    && t in reg && reg[t].provider.Target?
    && o.Made? && o.ofType == t && ArgsFor(reg, singletons, reg[t].provider.params, o.args)
  }

  lemma ArgsStay(reg: Registry, before: map<Interface, Obj>, after: map<Interface, Obj>, params: seq<Param>,
                 args: seq<Arg>)
    requires Extends(before, after) && ArgsFor(reg, before, params, args)
    ensures ArgsFor(reg, after, params, args)
  {
    forall k | 0 <= k < |params|
      ensures WellMadeArg(reg, after, params[k], args[k])
    {
      assert WellMadeArg(reg, before, params[k], args[k]);
      if args[k].Injected? {
        WellMadeStays(reg, before, after, params[k].annotation.value, args[k].obj);
      }
    }
  }

  lemma ArgsExtend(reg: Registry, before: map<Interface, Obj>, after: map<Interface, Obj>, params: seq<Param>,
                   k: nat, args: seq<Arg>, arg: Arg)
    requires k < |params| && Extends(before, after) && ArgsFor(reg, before, params[..k], args)
    requires WellMadeArg(reg, after, params[k], arg)
    ensures ArgsFor(reg, after, params[..k + 1], args + [arg])
  {
    ArgsStay(reg, before, after, params[..k], args);
    assert params[..k + 1] == params[..k] + [params[k]];
  }

  lemma StoredIsWellMade(reg: Registry, singletons: map<Interface, Obj>, i: Interface, o: Obj)
    requires i !in singletons && MadeFor(reg, singletons, i, o)
    ensures WellMade(reg, singletons[i := o], i, o)
  {
    ArgsStay(reg, singletons, singletons[i := o], reg[i].provider.params, o.args);
  }
}
