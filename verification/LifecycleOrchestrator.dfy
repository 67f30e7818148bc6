/** The lifecycle orchestrator itself (core/lifecycle/orchestrator.py): the execution order, the
    startup phase with its rollback, the shutdown phase, and restart. */
module LifecycleOrchestrator {
  import opened Wrappers
  import opened StringOrder
  import opened Sorting
  import opened DependencyGraph
  import opened Lifecycle

  datatype StartupError = UnknownDependency | CircularDependency

  datatype StartupReport = StartupReport(success: bool, started: seq<string>, failed: Option<string>)

  datatype ShutdownReport = ShutdownReport(success: bool, stopped: seq<string>, errors: set<string>)

  // ----- what a startup phase comes to

  function Critical(registry: Registry, n: string): bool {
    n in registry && registry[n].critical
  }

  /** Every attempt succeeded or was of a component that is not critical. */
  ghost predicate Tolerated(registry: Registry, names: seq<string>, oks: seq<bool>)
    requires |names| == |oks|
  {
    forall k :: 0 <= k < |names| ==> oks[k] || !Critical(registry, names[k])
  }

  /** The phase ran to its end. */
  ghost predicate RanThrough(registry: Registry, fails: Failures, up: Drill, names: seq<string>,
                             w: World, w': World, report: StartupReport) {
    var (all, oks) := AttemptAll(fails, up, w, names);
    && Tolerated(registry, names, oks)
    && w' == all
    && report == StartupReport(true, Pick(names, oks, true), None)
  }

  /** The phase stopped at the `n`-th component, the first critical one to fail, and took down
      what it had started, newest first. */
  ghost predicate BrokeAt(registry: Registry, fails: Failures, up: Drill, down: Drill, names: seq<string>, n: nat,
                          w: World, w': World, report: StartupReport) {
    && n < |names|
    && var (reached, oks) := AttemptAll(fails, up, w, names[..n + 1]);
       && Critical(registry, names[n]) && !oks[n]
       && Tolerated(registry, names[..n], oks[..n])
       && report == StartupReport(false, Pick(names[..n], oks[..n], true), Some(names[n]))
       && w' == AttemptAll(fails, down, reached, Reverse(report.started)).0
  }

  ghost predicate StartupDone(registry: Registry, fails: Failures, up: Drill, down: Drill,
                              w: World, w': World, report: StartupReport) {
    if Orderable(registry) then
      exists order :: IsExecutionOrder(registry, order) && StartupOver(registry, fails, up, down, order, w, w', report)
    else
      report == StartupReport(false, [], None) && w' == w
  }

  ghost predicate StartupOver(registry: Registry, fails: Failures, up: Drill, down: Drill, order: seq<string>,
                              w: World, w': World, report: StartupReport) {
    var names := EnabledNames(registry, order);
    || RanThrough(registry, fails, up, names, w, w', report)
    || exists n :: BrokeAt(registry, fails, up, down, names, n, w, w', report)
  }

  // ----- what a shutdown phase comes to

  /** Without an execution order the components are taken by (priority, name). */
  ghost predicate IsFallbackOrder(registry: Registry, order: seq<string>) {
    && Distinct(order) && Members(order) == registry.Keys
    && forall i, j :: 0 <= i < j < |order| ==> KeyLess(KeyOf(RankOf(registry), order[i]), KeyOf(RankOf(registry), order[j]))
  }

  ghost predicate ShutdownDone(registry: Registry, fails: Failures, drill: Drill, order: seq<string>,
                               w: World, w': World, report: ShutdownReport) {
    var names := EnabledNames(registry, Reverse(order));
    var (all, oks) := AttemptAll(fails, drill, w, names);
    && (if Orderable(registry) then IsExecutionOrder(registry, order) else IsFallbackOrder(registry, order))
    && w' == all
    && report.stopped == Pick(names, oks, true)
    && report.errors == Members(Pick(names, oks, false))
    && report.success == (report.errors == {})
  }

  // ----- the orchestrator

  class LifecycleOrchestrator {
    const registry: Registry
    /** How the hooks of the registered instances behave. */
    const fails: Failures
    var health: map<string, ComponentState>
    var calls: seq<Call>

    constructor (registry: Registry, fails: Failures)
      ensures this.registry == registry && this.fails == fails && Now() == World(map[], [])
    {
      this.registry, this.fails := registry, fails;
      health, calls := map[], [];
    }

    ghost function Now(): World
      reads this
    {
      World(health, calls)
    }

    /** Succeeds exactly when every dependency is registered and there is no cycle, and then lists
        the components in the one greedy order by (priority, name). */
    method BuildExecutionOrder() returns (r: Result<seq<Component>, StartupError>)
      requires WellNamed(registry)
      ensures r.Success? <==> Orderable(registry)
      ensures r.Success? ==> IsExecutionOrder(registry, Names(r.value)) && IsListing(registry, r.value, Names(r.value))
      ensures r.Failure? && r.error.UnknownDependency? <==> !Closed(GraphOf(registry))
    {
      ghost var g, rank := GraphOf(registry), RankOf(registry);
      var counted := CountDependencies();
      if counted.None? {
        return Failure(UnknownDependency);
      }
      var order := SortComponents(counted.value.0, counted.value.1);
      RegistrySize(registry);
      if |order| != |registry| {
        return Failure(CircularDependency);
      }
      return Success(order);
    }

    /** The sort proper, up to the length check. */
    method SortComponents(inDegree0: map<string, int>, dependents: map<string, seq<string>>)
        returns (order: seq<Component>)
      requires WellNamed(registry) && Closed(GraphOf(registry))
      requires Counters(GraphOf(registry), {}, [], inDegree0) && Reverses(dependents, GraphOf(registry))
      ensures Greedy(GraphOf(registry), RankOf(registry), Names(order)) && IsListing(registry, order, Names(order))
      ensures |order| == |GraphOf(registry)| <==> !HasCycle(GraphOf(registry))
    {
      ghost var g, rank := GraphOf(registry), RankOf(registry);
      var inDegree := inDegree0;
      var zero := StartList(inDegree);
      SortKeepsReady(g, rank, {}, inDegree, zero);
      zero := SortBy(KeyOrder(RankOf(registry)), zero);
      order := [];
      ghost var names: seq<string> := [];
      KahnStart(g, rank, inDegree, zero);
      while zero != []
        invariant IsListing(registry, order, names)
        invariant KahnState(g, rank, names, inDegree, zero) && Ordered(KeyOrder(rank), zero)
        decreases |g| - |order|
      {
        var current := zero[0];
        inDegree, zero := PlaceHead(g, RankOf(registry), names, dependents, inDegree, zero);
        ListingExtend(registry, order, names, current);
        names := names + [current];
        order := order + [registry[current]];
      }
      DrainedOrCyclic(g, rank, names, inDegree);
      ListingNames(registry, order, names);
    }

    /** The dependencies of one component, counted unless one of them is not registered. */
    method CountComponent(n: string, inDegree: map<string, int>, graph: map<string, seq<string>>, ghost seen: Graph)
        returns (known: bool, inDegree': map<string, int>, graph': map<string, seq<string>>)
      requires n in registry && graph.Keys == registry.Keys
      requires Counted(seen, inDegree, graph) && n in seen && seen[n] == []
      ensures known <==> KnownDependencies(registry, n)
      ensures known ==> graph'.Keys == registry.Keys
      ensures known ==> Counted(seen[n := registry[n].dependencies], inDegree', graph')
    {
      inDegree', graph' := inDegree, graph;
      var deps := registry[n].dependencies;
      ghost var part := seen;
      for j := 0 to |deps|
        invariant part == seen[n := deps[..j]] && Counted(part, inDegree', graph') && graph'.Keys == registry.Keys
        invariant forall i :: 0 <= i < j ==> deps[i] in registry
      {
        if deps[j] !in graph' {
          return false, inDegree', graph';
        }
        ReversesExtend(graph', part, n, deps[j]);
        graph' := graph'[deps[j] := graph'[deps[j]] + [n]];
        inDegree' := inDegree'[n := inDegree'[n] + 1];
        part := part[n := part[n] + [deps[j]]];
        assert deps[..j + 1] == deps[..j] + [deps[j]];
      }
      assert deps[..|deps|] == deps;
      known := true;
    }

    /** The counters and the reversed graph, unless a dependency is not registered. */
    method CountDependencies() returns (r: Option<(map<string, int>, map<string, seq<string>>)>)
      ensures r.Some? <==> Closed(GraphOf(registry))
      ensures r.Some? ==> Counters(GraphOf(registry), {}, [], r.value.0) && Reverses(r.value.1, GraphOf(registry))
    {
      var graph: map<string, seq<string>> := map n | n in registry :: [];
      var inDegree: map<string, int> := map n | n in registry :: 0;
      var todo := registry.Keys;
      assert CountedPart(registry, todo) == map n | n in registry :: [];
      while todo != {}
        invariant todo <= registry.Keys && graph.Keys == registry.Keys
        invariant forall n :: n !in todo ==> KnownDependencies(registry, n)
        invariant Counted(CountedPart(registry, todo), inDegree, graph)
        decreases todo
      {
        var n :| n in todo;
        var known;
        known, inDegree, graph := CountComponent(n, inDegree, graph, CountedPart(registry, todo));
        if !known {
          UnknownIsNotClosed(registry, n);
          return None;
        }
        CountedPartGrows(registry, todo, n);
        todo := todo - {n};
      }
      assert CountedPart(registry, {}) == GraphOf(registry);
      AllKnownIsClosed(registry);
      AllCounted(GraphOf(registry), inDegree, graph);
      return Some((inDegree, graph));
    }

    method StartList(inDegree: map<string, int>) returns (zero: seq<string>)
      requires inDegree.Keys == registry.Keys
      ensures ReadyList(GraphOf(registry), {}, inDegree, zero)
    {
      zero := [];
      var todo := registry.Keys;
      while todo != {}
        invariant todo <= registry.Keys && Distinct(zero)
        invariant forall n :: n in zero <==> n in registry && n !in todo && inDegree[n] == 0
        decreases todo
      {
        var n :| n in todo;
        todo := todo - {n};
        if inDegree[n] == 0 {
          zero := zero + [n];
        }
      }
    }

    // ----- phases

    /** The hook sees the component in the health state of the moment. */
    method ExecuteHook(name: string, hook: Hook) returns (ok: bool)
      requires name in health
      modifies this`calls
      ensures calls == old(calls) + [Call(name, hook, health[name])]
      ensures ok == !fails(old(calls), Call(name, hook, health[name]))
    {
      var call := Call(name, hook, health[name]);
      ok := !fails(calls, call);
      calls := calls + [call];
    }

    /** One component through one drill, with its health states: it succeeds exactly if all hooks are
        called and none raises. */
    method RunDrill(name: string, drill: Drill) returns (ok: bool)
      modifies this
      ensures (Now(), ok) == Attempt(fails, drill, old(Now()), name)
      ensures ok <==> WentWell(fails, calls, |old(calls)|, |calls|, name, drill.hooks, drill.during)
      ensures !ok <==> Raised(fails, calls, |old(calls)|, |calls|, name, drill.hooks, drill.during)
    {
      AttemptTells(fails, drill, Now(), name);
      health := health[name := drill.during];
      ok := true;
      var k := 0;
      while ok && k < |drill.hooks|
        invariant k <= |drill.hooks| && health == old(health)[name := drill.during]
        invariant ok ==>
                    RunHooks(fails, old(calls), name, drill.during, drill.hooks)
                    == RunHooks(fails, calls, name, drill.during, drill.hooks[k..])
        invariant !ok ==> RunHooks(fails, old(calls), name, drill.during, drill.hooks) == (calls, false)
        decreases |drill.hooks| - k, ok
      {
        ok := ExecuteHook(name, drill.hooks[k]);
        k := k + 1;
      }
      health := health[name := if ok then drill.after else Failed];
    }

    method Rollback(started: seq<string>, down: Drill)
      modifies this
      ensures Now() == AttemptAll(fails, down, old(Now()), Reverse(started)).0
    {
      var names := Reverse(started);
      for k := 0 to |names|
        invariant Now() == AttemptAll(fails, down, old(Now()), names[..k]).0
      {
        AttemptAllStep(fails, down, old(Now()), names, k);
        var _ := RunDrill(names[k], down);
      }
      assert names[..|names|] == names;
    }

    method RunStartupPhase(up: Drill, down: Drill) returns (report: StartupReport)
      requires WellNamed(registry)
      modifies this
      ensures StartupDone(registry, fails, up, down, old(Now()), Now(), report)
    {
      var built := BuildExecutionOrder();
      if built.Failure? {
        return StartupReport(false, [], None);
      }
      ghost var order := Names(built.value);
      report := StartInOrder(up, down, built.value, order);
    }

    method StartInOrder(up: Drill, down: Drill, components: seq<Component>, ghost order: seq<string>)
        returns (report: StartupReport)
      requires WellNamed(registry) && IsListing(registry, components, order)
      modifies this
      ensures StartupOver(registry, fails, up, down, order, old(Now()), Now(), report)
    {
      var started: seq<string> := [];
      ghost var w0, names, oks := Now(), [], [];
      for k := 0 to |components|
        invariant names == EnabledNames(registry, order[..k])
        invariant StartProgress(registry, fails, up, names, oks, w0, Now(), started)
      {
        var comp := components[k];
        EnabledStep(registry, order, k);
        if comp.enabled {
          ghost var w := Now();
          var ok := RunDrill(comp.name, up);
          if !ok && comp.critical {
            ghost var w1 := Now();
            Rollback(started, down);
            report := StartupReport(false, started, Some(comp.name));
            StartBroke(registry, fails, up, down, EnabledNames(registry, order), names, oks, w0, w, w1, Now(),
                       started, comp.name);
            return report;
          }
          StartProgressStep(registry, fails, up, names, oks, w0, w, started, comp.name, Now(), ok);
          if ok {
            started := started + [comp.name];
          }
          names, oks := names + [comp.name], oks + [ok];
        }
      }
      assert order[..|components|] == order;
      return StartupReport(true, started, None);
    }

    method RunShutdownPhase(drill: Drill) returns (report: ShutdownReport)
      requires WellNamed(registry)
      modifies this
      ensures exists order :: ShutdownDone(registry, fails, drill, order, old(Now()), Now(), report)
    {
      var built := BuildExecutionOrder();
      var components;
      if built.Success? {
        components := built.value;
      } else {
        components := FallbackOrder();
      }
      ghost var order := Names(components);
      report := StopInOrder(drill, components, order);
      assert ShutdownDone(registry, fails, drill, order, old(Now()), Now(), report);
    }

    /** All components sorted by (priority, name). */
    method FallbackOrder() returns (components: seq<Component>)
      requires WellNamed(registry)
      ensures IsListing(registry, components, Names(components)) && IsFallbackOrder(registry, Names(components))
    {
      var names: seq<string> := [];
      var todo := registry.Keys;
      while todo != {}
        invariant todo <= registry.Keys && Distinct(names)
        invariant forall n :: n in names <==> n in registry && n !in todo
        decreases todo
      {
        var n :| n in todo;
        todo := todo - {n};
        names := names + [n];
      }
      ghost var unsorted := names;
      names := SortBy(KeyOrder(RankOf(registry)), names);
      SortedIsFallback(registry, unsorted);
      components := seq(|names|, k requires 0 <= k < |names| && names[k] in registry => registry[names[k]]);
      ListingNames(registry, components, names);
    }

    method StopInOrder(drill: Drill, components: seq<Component>, ghost order: seq<string>)
        returns (report: ShutdownReport)
      requires WellNamed(registry)
      requires IsListing(registry, components, order)
      requires if Orderable(registry) then IsExecutionOrder(registry, order) else IsFallbackOrder(registry, order)
      modifies this
      ensures ShutdownDone(registry, fails, drill, order, old(Now()), Now(), report)
    {
      var shutdownOrder := Reverse(components);
      ghost var reversed := Reverse(order);
      var stopped: seq<string>, errors: set<string> := [], {};
      ghost var w0, names, oks := Now(), [], [];
      for k := 0 to |shutdownOrder|
        invariant names == EnabledNames(registry, reversed[..k])
        invariant StopProgress(fails, drill, names, oks, w0, Now(), stopped, errors)
      {
        var comp := shutdownOrder[k];
        EnabledStep(registry, reversed, k);
        if comp.enabled {
          ghost var w := Now();
          var ok := RunDrill(comp.name, drill);
          StopProgressStep(fails, drill, names, oks, w0, w, stopped, errors, comp.name, Now(), ok);
          if ok {
            stopped := stopped + [comp.name];
          } else {
            errors := errors + {comp.name};
          }
          names, oks := names + [comp.name], oks + [ok];
        }
      }
      assert reversed[..|shutdownOrder|] == reversed;
      return ShutdownReport(errors == {}, stopped, errors);
    }

    method Boot() returns (report: StartupReport)
      requires WellNamed(registry)
      modifies this
      ensures StartupDone(registry, fails, BOOT, ROLLBACK_BOOT, old(Now()), Now(), report)
    {
      report := RunStartupPhase(BOOT, ROLLBACK_BOOT);
    }

    method Start() returns (report: StartupReport)
      requires WellNamed(registry)
      modifies this
      ensures StartupDone(registry, fails, START, ROLLBACK_START, old(Now()), Now(), report)
    {
      report := RunStartupPhase(START, ROLLBACK_START);
    }

    method Stop() returns (report: ShutdownReport)
      requires WellNamed(registry)
      modifies this
      ensures exists order :: ShutdownDone(registry, fails, STOP, order, old(Now()), Now(), report)
    {
      report := RunShutdownPhase(STOP);
    }

    method Shutdown() returns (report: ShutdownReport)
      requires WellNamed(registry)
      modifies this
      ensures exists order :: ShutdownDone(registry, fails, SHUTDOWN, order, old(Now()), Now(), report)
    {
      report := RunShutdownPhase(SHUTDOWN);
    }

    /** Stop everything; start again only if every component stopped. */
    method Restart() returns (ok: bool)
      requires WellNamed(registry)
      modifies this
      ensures exists order, middle, stopping ::
                && ShutdownDone(registry, fails, STOP, order, old(Now()), middle, stopping)
                && if stopping.success then
                     exists starting :: StartupDone(registry, fails, START, ROLLBACK_START, middle, Now(), starting)
                                        && ok == starting.success
                   else
                     !ok && Now() == middle
    {
      var stopping := Stop();
      if !stopping.success {
        return false;
      }
      ghost var middle := Now();
      var starting := Start();
      assert StartupDone(registry, fails, START, ROLLBACK_START, middle, Now(), starting);
      return starting.success;
    }
  }

  /** One round: place the head of the sorted list and release its neighbours. */
  method PlaceHead(ghost g: Graph, rank: map<string, int>, ghost order: seq<string>,
                   dependents: map<string, seq<string>>, inDegree: map<string, int>, zero: seq<string>)
      returns (inDegree': map<string, int>, zero': seq<string>)
    requires KahnState(g, rank, order, inDegree, zero) && Reverses(dependents, g)
    requires zero != [] && Ordered(KeyOrder(rank), zero)
    ensures KahnState(g, rank, order + [zero[0]], inDegree', zero') && Ordered(KeyOrder(rank), zero')
    ensures zero[0] in g && |order| < |g|
  {
    ghost var placed := Members(order);
    var current := zero[0];
    HeadIsLeast(g, rank, placed, inDegree, zero);
    GreedyExtend(g, rank, order, current);
    PlacedHasNonePending(g, rank, order);
    PlacedFewer(g, rank, order + [current]);
    assert Members(order + [current]) == placed + {current};
    inDegree', zero' := Release(g, placed, rank, current, dependents, inDegree, zero[1..]);
  }

  /** Decrement the counters of the neighbours of `current` in key order. */
  method Release(ghost g: Graph, ghost placed: set<string>, rank: map<string, int>, current: string,
                 dependents: map<string, seq<string>>, inDegree: map<string, int>, zero: seq<string>)
      returns (inDegree': map<string, int>, zero': seq<string>)
    requires Available(g, placed, current) && Reverses(dependents, g)
    requires Counters(g, placed, [], inDegree) && ReadyList(g, placed + {current}, inDegree, zero)
    requires Ordered(KeyOrder(rank), zero)
    requires forall n :: n in placed && n in g ==> Pending(g[n], placed) == 0
    ensures Counters(g, placed + {current}, [], inDegree') && ReadyList(g, placed + {current}, inDegree', zero')
    ensures Ordered(KeyOrder(rank), zero')
  {
    inDegree', zero' := inDegree, zero;
    var neighbors := SortBy(KeyOrder(rank), DependentsOf(dependents, current));
    SortPermutes(KeyOrder(rank), DependentsOf(dependents, current));
    ReleaseBegins(g, placed, current, neighbors, inDegree, zero);
    for j := 0 to |neighbors|
      invariant Releasing(g, placed, current, neighbors, j, inDegree', zero') && Ordered(KeyOrder(rank), zero')
    {
      ReleaseStep(g, placed, current, dependents, neighbors, j, inDegree', zero');
      inDegree', zero' := Decrement(g, placed, rank, current, neighbors, j, inDegree', zero');
    }
    ReleaseEnds(g, placed, current, dependents, neighbors, inDegree', zero');
  }

  /** Decrement one counter; a node whose counter reaches zero joins the list, which is sorted
      again at once. */
  method Decrement(ghost g: Graph, ghost placed: set<string>, rank: map<string, int>, ghost current: string,
                   neighbors: seq<string>, j: nat, inDegree: map<string, int>, zero: seq<string>)
      returns (inDegree': map<string, int>, zero': seq<string>)
    requires j < |neighbors| && neighbors[j] in inDegree && Ordered(KeyOrder(rank), zero)
    requires Releasing(g, placed, current, neighbors, j + 1, inDegree[neighbors[j] := inDegree[neighbors[j]] - 1],
                       if inDegree[neighbors[j]] == 1 then zero + [neighbors[j]] else zero)
    ensures Releasing(g, placed, current, neighbors, j + 1, inDegree', zero') && Ordered(KeyOrder(rank), zero')
  {
    var neighbor := neighbors[j];
    inDegree', zero' := inDegree[neighbor := inDegree[neighbor] - 1], zero;
    if inDegree'[neighbor] == 0 {
      ReleaseSorts(g, placed, current, neighbors, j + 1, inDegree', zero + [neighbor], rank);
      zero' := SortBy(KeyOrder(rank), zero + [neighbor]);
    }
  }

  function Names(components: seq<Component>): (names: seq<string>)
    ensures |names| == |components|
  {
    seq(|components|, i requires 0 <= i < |components| => components[i].name)
  }

  lemma RegistrySize(registry: Registry)
    ensures |GraphOf(registry)| == |registry|
  {
    assert GraphOf(registry).Keys == registry.Keys;
    assert |registry| == |registry.Keys| && |GraphOf(registry)| == |GraphOf(registry).Keys|;
  }

  /** The list holds the registered components of these names. */
  ghost predicate IsListing(registry: Registry, components: seq<Component>, names: seq<string>) {
    && |components| == |names|
    && forall k :: 0 <= k < |names| ==> names[k] in registry && components[k] == registry[names[k]]
  }

  lemma ListingExtend(registry: Registry, components: seq<Component>, names: seq<string>, n: string)
    requires IsListing(registry, components, names) && n in registry
    ensures IsListing(registry, components + [registry[n]], names + [n])
  {
  }

  lemma ListingNames(registry: Registry, components: seq<Component>, names: seq<string>)
    requires WellNamed(registry) && IsListing(registry, components, names)
    ensures Names(components) == names
  {
  }

  // ----- the part of the registry whose dependencies have been counted

  ghost function CountedPart(registry: Registry, todo: set<string>): Graph {
    map n | n in registry :: if n in todo then [] else registry[n].dependencies
  }

  ghost predicate KnownDependencies(registry: Registry, n: string) {
    n in registry ==> forall d :: d in registry[n].dependencies ==> d in registry
  }

  lemma CountedPartGrows(registry: Registry, todo: set<string>, n: string)
    requires n in todo && n in registry
    ensures CountedPart(registry, todo - {n}) == CountedPart(registry, todo)[n := registry[n].dependencies]
  {
  }

  lemma UnknownIsNotClosed(registry: Registry, n: string)
    requires !KnownDependencies(registry, n)
    ensures !Closed(GraphOf(registry))
  {
    var d :| d in registry[n].dependencies && d !in registry;
    assert Edge(GraphOf(registry), n, d);
  }

  lemma AllKnownIsClosed(registry: Registry)
    requires forall n :: KnownDependencies(registry, n)
    ensures Closed(GraphOf(registry))
  {
    forall a, b | Edge(GraphOf(registry), a, b)
      ensures b in GraphOf(registry)
    {
      assert KnownDependencies(registry, a);
    }
  }

  // ----- steps of the phases

  ghost predicate StartProgress(registry: Registry, fails: Failures, up: Drill, names: seq<string>, oks: seq<bool>,
                                w0: World, w: World, started: seq<string>) {
    && |oks| == |names|
    && (w, oks) == AttemptAll(fails, up, w0, names)
    && Tolerated(registry, names, oks)
    && started == Pick(names, oks, true)
  }

  lemma StartProgressStep(registry: Registry, fails: Failures, up: Drill, names: seq<string>, oks: seq<bool>,
                          w0: World, w: World, started: seq<string>, name: string, w': World, ok: bool)
    requires StartProgress(registry, fails, up, names, oks, w0, w, started)
    requires (w', ok) == Attempt(fails, up, w, name) && (ok || !Critical(registry, name))
    ensures StartProgress(registry, fails, up, names + [name], oks + [ok], w0, w',
                          if ok then started + [name] else started)
  {
    assert (names + [name])[..|names|] == names;
    PickStep(names, oks, name, ok);
  }

  lemma StartBroke(registry: Registry, fails: Failures, up: Drill, down: Drill, all: seq<string>, names: seq<string>,
                   oks: seq<bool>, w0: World, w: World, w1: World, w2: World, started: seq<string>, name: string)
    requires StartProgress(registry, fails, up, names, oks, w0, w, started)
    requires (w1, false) == Attempt(fails, up, w, name) && Critical(registry, name)
    requires names + [name] <= all && w2 == AttemptAll(fails, down, w1, Reverse(started)).0
    ensures BrokeAt(registry, fails, up, down, all, |names|, w0, w2, StartupReport(false, started, Some(name)))
  {
    assert all[..|names| + 1] == names + [name] && all[..|names|] == names;
    assert (names + [name])[..|names|] == names && (oks + [false])[..|names|] == oks;
  }

  ghost predicate StopProgress(fails: Failures, drill: Drill, names: seq<string>, oks: seq<bool>, w0: World, w: World,
                               stopped: seq<string>, errors: set<string>) {
    && |oks| == |names|
    && (w, oks) == AttemptAll(fails, drill, w0, names)
    && stopped == Pick(names, oks, true)
    && errors == Members(Pick(names, oks, false))
  }

  lemma StopProgressStep(fails: Failures, drill: Drill, names: seq<string>, oks: seq<bool>, w0: World, w: World,
                         stopped: seq<string>, errors: set<string>, name: string, w': World, ok: bool)
    requires StopProgress(fails, drill, names, oks, w0, w, stopped, errors)
    requires (w', ok) == Attempt(fails, drill, w, name)
    ensures StopProgress(fails, drill, names + [name], oks + [ok], w0, w',
                         if ok then stopped + [name] else stopped, if ok then errors else errors + {name})
  {
    assert (names + [name])[..|names|] == names;
    PickStep(names, oks, name, ok);
  }

  lemma EnabledStep(registry: Registry, order: seq<string>, k: nat)
    requires k < |order|
    ensures EnabledNames(registry, order[..k + 1])
         == EnabledNames(registry, order[..k])
          + if order[k] in registry && registry[order[k]].enabled then [order[k]] else []
    ensures EnabledNames(registry, order[..k + 1]) <= EnabledNames(registry, order)
  {
    assert order[..k + 1][..k] == order[..k];
    EnabledPrefix(registry, order, k + 1);
  }

  lemma {:induction false} EnabledPrefix(registry: Registry, order: seq<string>, k: nat)
    requires k <= |order|
    ensures EnabledNames(registry, order[..k]) <= EnabledNames(registry, order)
  {
    if k < |order| {
      var n := |order| - 1;
      EnabledPrefix(registry, order[..n], k);
      assert order[..n][..k] == order[..k];
    } else {
      assert order[..k] == order;
    }
  }

  lemma PickStep(names: seq<string>, oks: seq<bool>, name: string, ok: bool)
    requires |names| == |oks|
    ensures Pick(names + [name], oks + [ok], true) == Pick(names, oks, true) + if ok then [name] else []
    ensures Members(Pick(names + [name], oks + [ok], false))
         == Members(Pick(names, oks, false)) + if ok then {} else {name}
  {
    assert (names + [name])[..|names|] == names && (oks + [ok])[..|names|] == oks;
  }

  lemma SortedIsFallback(registry: Registry, names: seq<string>)
    requires Distinct(names) && Members(names) == registry.Keys
    ensures IsFallbackOrder(registry, SortBy(KeyOrder(RankOf(registry)), names))
  {
    var rank := RankOf(registry);
    var sorted := SortBy(KeyOrder(rank), names);
    KeyOrderWeak(rank);
    SortOrders(KeyOrder(rank), names);
    SortPermutes(KeyOrder(rank), names);
    SameMembers(sorted, names);
    PermutationKeepsDistinct(names, sorted);
    forall i, j | 0 <= i < j < |sorted|
      ensures KeyLess(KeyOf(rank, sorted[i]), KeyOf(rank, sorted[j]))
    {
      assert !KeyOrder(rank)(sorted[j], sorted[i]);
      KeyLessTotal(KeyOf(rank, sorted[i]), KeyOf(rank, sorted[j]));
    }
  }
}
