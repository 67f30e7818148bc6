/** What the lifecycle orchestrator (core/lifecycle/orchestrator.py) works on, and what running
    lifecycle hooks over a list of components amounts to. */
module Lifecycle {
  import opened StringOrder
  import opened Sorting
  import opened DependencyGraph

  datatype Component = Component(name: string, dependencies: seq<string>, priority: int, enabled: bool, critical: bool)

  type Registry = map<string, Component>

  ghost predicate WellNamed(registry: Registry) {
    forall n :: n in registry ==> registry[n].name == n
  }

  function GraphOf(registry: Registry): Graph {
    map n | n in registry :: registry[n].dependencies
  }

  function RankOf(registry: Registry): map<string, int> {
    map n | n in registry :: registry[n].priority
  }

  /** Every named dependency is registered and no component depends on itself, however remotely. */
  ghost predicate Orderable(registry: Registry) {
    Closed(GraphOf(registry)) && !HasCycle(GraphOf(registry))
  }

  ghost predicate IsExecutionOrder(registry: Registry, order: seq<string>) {
    |order| == |registry| && Greedy(GraphOf(registry), RankOf(registry), order)
  }

  /** An execution order lists every component once, each after all its dependencies. */
  lemma ExecutionOrderSound(registry: Registry, order: seq<string>)
    requires IsExecutionOrder(registry, order)
    ensures Distinct(order) && Members(order) == registry.Keys && Respects(GraphOf(registry), order)
    ensures !HasCycle(GraphOf(registry))
  {
    var g := GraphOf(registry);
    assert g.Keys == registry.Keys;
    assert |g| == |g.Keys| && |registry| == |registry.Keys|;
    FullGreedyIsPermutation(g, RankOf(registry), order);
  }

  /** A registry has at most one execution order. */
  lemma ExecutionOrderUnique(registry: Registry, a: seq<string>, b: seq<string>)
    requires IsExecutionOrder(registry, a) && IsExecutionOrder(registry, b)
    ensures a == b
  {
    GreedyUnique(GraphOf(registry), RankOf(registry), a, b);
  }

  /** Of two components in an execution order that could both have been placed where the first one is,
      the first has the lower priority number, or the same and the earlier name. */
  lemma OrderByPriority(registry: Registry, order: seq<string>, i: nat, j: nat)
    requires IsExecutionOrder(registry, order) && i < j < |order|
    requires order[i] in registry && order[j] in registry
    requires forall d :: d in registry[order[j]].dependencies ==> d in order[..i]
    ensures registry[order[i]].priority < registry[order[j]].priority
         || (registry[order[i]].priority == registry[order[j]].priority && ComesFirst(order[i], order[j]))
  {
    var g, rank := GraphOf(registry), RankOf(registry);
    var placed := Members(order[..i]);
    GreedyRespects(g, rank, order);
    assert LeastAvailable(g, rank, placed, order[i]);
    assert order[j] !in order[..i];
    assert Available(g, placed, order[j]);
    assert KeyLess(KeyOf(rank, order[i]), KeyOf(rank, order[j]));
    LessIsDictionaryOrder(order[i], order[j]);
  }

  // ----- hooks

  datatype ComponentState =
    Created | Booting | Booted | Starting | Running | Stopping | Stopped | ShuttingDown | Failed | Restarting

  datatype Hook =
    BeforeBoot | Boot | AfterBoot | BeforeStart | Start | AfterStart
    | BeforeStop | Stop | AfterStop | BeforeShutdown | Shutdown | AfterShutdown

  /** A hook called, and the health state of the component at that moment. */
  datatype Call = Call(name: string, hook: Hook, state: ComponentState)

  /** Whether a hook call fails may depend on everything called before it. */
  type Failures = (seq<Call>, Call) -> bool

  datatype World = World(health: map<string, ComponentState>, calls: seq<Call>)

  /** Three hooks, the health state while they run, and the state once all three succeeded. */
  datatype Drill = Drill(hooks: seq<Hook>, during: ComponentState, after: ComponentState)

  const BOOT := Drill([BeforeBoot, Boot, AfterBoot], Booting, Booted)
  const START := Drill([BeforeStart, Start, AfterStart], Starting, Running)
  const STOP := Drill([BeforeStop, Stop, AfterStop], Stopping, Stopped)
  const SHUTDOWN := Drill([BeforeShutdown, Shutdown, AfterShutdown], ShuttingDown, Stopped)
  const ROLLBACK_START := Drill([BeforeStop, Stop, AfterStop], ShuttingDown, Stopped)
  const ROLLBACK_BOOT := Drill([BeforeShutdown, Shutdown, AfterShutdown], ShuttingDown, Stopped)

  /** Calling hooks in turn up to the first one that fails. */
  function RunHooks(fails: Failures, calls: seq<Call>, name: string, state: ComponentState, hooks: seq<Hook>)
    : (seq<Call>, bool)
    decreases |hooks|
  {
    if hooks == [] then (calls, true)
    else
      var call := Call(name, hooks[0], state);
      if fails(calls, call) then (calls + [call], false)
      else RunHooks(fails, calls + [call], name, state, hooks[1..])
  }

  function Attempt(fails: Failures, drill: Drill, w: World, name: string): (World, bool) {
    var (calls, ok) := RunHooks(fails, w.calls, name, drill.during, drill.hooks);
    (World(w.health[name := drill.during][name := if ok then drill.after else Failed], calls), ok)
  }

  /** Attempting components in turn, whatever fails; the flags say which ones succeeded. */
  function AttemptAll(fails: Failures, drill: Drill, w: World, names: seq<string>): (r: (World, seq<bool>))
    ensures |r.1| == |names|
  {
    if names == [] then (w, [])
    else
      var (w1, oks) := AttemptAll(fails, drill, w, names[..|names| - 1]);
      var (w2, ok) := Attempt(fails, drill, w1, names[|names| - 1]);
      (w2, oks + [ok])
  }

  /** The names whose flag is `which`, in order. */
  function Pick(names: seq<string>, oks: seq<bool>, which: bool): seq<string>
    requires |names| == |oks|
  {
    if names == [] then []
    else
      var n := |names| - 1;
      Pick(names[..n], oks[..n], which) + if oks[n] == which then [names[n]] else []
  }

  function Reverse<T>(xs: seq<T>): (r: seq<T>)
    ensures |r| == |xs|
    ensures forall k :: 0 <= k < |xs| ==> r[k] == xs[|xs| - 1 - k]
  {
    seq(|xs|, k requires 0 <= k < |xs| => xs[|xs| - 1 - k])
  }

  function EnabledNames(registry: Registry, order: seq<string>): seq<string> {
    if order == [] then []
    else
      var n := |order| - 1;
      EnabledNames(registry, order[..n])
      + if order[n] in registry && registry[order[n]].enabled then [order[n]] else []
  }

  lemma AttemptAllStep(fails: Failures, drill: Drill, w: World, names: seq<string>, n: nat)
    requires n < |names|
    ensures AttemptAll(fails, drill, w, names[..n + 1]).0
         == Attempt(fails, drill, AttemptAll(fails, drill, w, names[..n]).0, names[n]).0
    ensures AttemptAll(fails, drill, w, names[..n + 1]).1
         == AttemptAll(fails, drill, w, names[..n]).1
          + [Attempt(fails, drill, AttemptAll(fails, drill, w, names[..n]).0, names[n]).1]
  {
    assert names[..n + 1][..n] == names[..n];
  }

  /** How the first attempts go does not depend on what is attempted later. */
  lemma {:induction false} AttemptAllPrefix(fails: Failures, drill: Drill, w: World, names: seq<string>, n: nat)
    requires n <= |names|
    ensures AttemptAll(fails, drill, w, names[..n]).1 == AttemptAll(fails, drill, w, names).1[..n]
  {
    if n == |names| {
      assert names[..n] == names;
    } else {
      var m := |names| - 1;
      AttemptAllPrefix(fails, drill, w, names[..m], n);
      assert names[..m][..n] == names[..n];
    }
  }

  // ----- what attempts leave behind: the calls

  /** `calls` consists of one block a component, in the order of `names`; each block holds the
      hooks of that component from the first one on, and all of them unless one failed. */
  ghost predicate CallsInTurn(calls: seq<Call>, names: seq<string>, drill: Drill) {
    if names == [] then calls == []
    else
      var n := |names| - 1;
      exists m :: 0 <= m <= |calls| && Block(calls[m..], names[n], drill) && CallsInTurn(calls[..m], names[..n], drill)
  }

  ghost predicate Block(calls: seq<Call>, name: string, drill: Drill) {
    && 0 < |calls| <= |drill.hooks|
    && forall i :: 0 <= i < |calls| ==> calls[i] == Call(name, drill.hooks[i], drill.during)
  }

  /** The `i`-th call raised, in the history it was made in. */
  ghost predicate CallRaised(fails: Failures, calls: seq<Call>, i: nat) {
    i < |calls| && fails(calls[..i], calls[i])
  }

  /** The calls from `from` to `to` are all hooks of the drill on the component, and none of them
      raised. */
  ghost predicate WentWell(fails: Failures, calls: seq<Call>, from: nat, to: nat, name: string, hooks: seq<Hook>,
                           state: ComponentState) {
    && from <= to <= |calls| && to - from == |hooks|
    && forall i :: from <= i < to ==> calls[i] == Call(name, hooks[i - from], state) && !CallRaised(fails, calls, i)
  }

  /** The calls from `from` to `to` are the first hooks of the drill on the component, of which the last
      one raised, and no other. */
  ghost predicate Raised(fails: Failures, calls: seq<Call>, from: nat, to: nat, name: string, hooks: seq<Hook>,
                         state: ComponentState) {
    && from < to <= |calls| && to - from <= |hooks| && CallRaised(fails, calls, to - 1)
    && (forall i :: from <= i < to ==> calls[i] == Call(name, hooks[i - from], state))
    && (forall i :: from <= i < to - 1 ==> !CallRaised(fails, calls, i))
  }

  lemma RaisedStays(fails: Failures, calls: seq<Call>, longer: seq<Call>)
    requires calls <= longer
    ensures forall i :: 0 <= i < |calls| ==> (CallRaised(fails, calls, i) <==> CallRaised(fails, longer, i))
  {
    forall i | 0 <= i < |calls|
      ensures CallRaised(fails, calls, i) <==> CallRaised(fails, longer, i)
    {
      assert calls[..i] == longer[..i];
    }
  }

  lemma {:induction false} RunHooksTells(fails: Failures, calls: seq<Call>, name: string, state: ComponentState,
                                         hooks: seq<Hook>)
    ensures var (all, ok) := RunHooks(fails, calls, name, state, hooks);
            && calls <= all
            && if ok then WentWell(fails, all, |calls|, |all|, name, hooks, state)
               else Raised(fails, all, |calls|, |all|, name, hooks, state)
    decreases |hooks|
  {
    if hooks != [] {
      var call := Call(name, hooks[0], state);
      var longer := calls + [call];
      assert longer[..|calls|] == calls && longer[|calls|] == call;
      assert CallRaised(fails, longer, |calls|) <==> fails(calls, call);
      if !fails(calls, call) {
        RunHooksTells(fails, longer, name, state, hooks[1..]);
        RaisedStays(fails, longer, RunHooks(fails, longer, name, state, hooks[1..]).0);
      }
    }
  }

  /** An attempt succeeds if and only if all the drill's hooks were called and none of the calls raised;
      if it does not, the last call made is the one that raised. */
  lemma AttemptTells(fails: Failures, drill: Drill, w: World, name: string)
    ensures var (w', ok) := Attempt(fails, drill, w, name);
            && w.calls <= w'.calls
            && (ok <==> WentWell(fails, w'.calls, |w.calls|, |w'.calls|, name, drill.hooks, drill.during))
            && (!ok <==> Raised(fails, w'.calls, |w.calls|, |w'.calls|, name, drill.hooks, drill.during))
  {
    RunHooksTells(fails, w.calls, name, drill.during, drill.hooks);
  }

  lemma AttemptIsBlock(fails: Failures, drill: Drill, w: World, name: string)
    requires drill.hooks != []
    ensures w.calls <= Attempt(fails, drill, w, name).0.calls
    ensures Block(Attempt(fails, drill, w, name).0.calls[|w.calls|..], name, drill)
  {
    AttemptTells(fails, drill, w, name);
  }

  /** The component had all its hooks called, from call `start` on, and none of them raised. */
  ghost predicate HadAll(fails: Failures, calls: seq<Call>, start: nat, name: string, hooks: seq<Hook>,
                         state: ComponentState) {
    exists from: nat, to: nat :: start <= from && WentWell(fails, calls, from, to, name, hooks, state)
  }

  /** The component had its hooks called, from call `start` on, up to one that raised. */
  ghost predicate HadFailure(fails: Failures, calls: seq<Call>, start: nat, name: string, hooks: seq<Hook>,
                             state: ComponentState) {
    exists from: nat, to: nat :: start <= from && Raised(fails, calls, from, to, name, hooks, state)
  }

  lemma HadStays(fails: Failures, calls: seq<Call>, longer: seq<Call>, start: nat, name: string, hooks: seq<Hook>,
                 state: ComponentState)
    requires calls <= longer
    ensures HadAll(fails, calls, start, name, hooks, state) ==> HadAll(fails, longer, start, name, hooks, state)
    ensures HadFailure(fails, calls, start, name, hooks, state) ==> HadFailure(fails, longer, start, name, hooks, state)
  {
    RaisedStays(fails, calls, longer);
    if from: nat, to: nat :| start <= from && WentWell(fails, calls, from, to, name, hooks, state) {
      assert WentWell(fails, longer, from, to, name, hooks, state);
    }
    if from: nat, to: nat :| start <= from && Raised(fails, calls, from, to, name, hooks, state) {
      assert Raised(fails, longer, from, to, name, hooks, state);
    }
  }

  /** Of the components attempted in turn, those flagged as successes had all their hooks called without
      a failure, and the others had a failure. */
  lemma {:induction false} AttemptAllTells(fails: Failures, drill: Drill, w: World, names: seq<string>, k: nat)
    requires k < |names|
    ensures var (all, oks) := AttemptAll(fails, drill, w, names);
            && w.calls <= all.calls
            && if oks[k] then HadAll(fails, all.calls, |w.calls|, names[k], drill.hooks, drill.during)
               else HadFailure(fails, all.calls, |w.calls|, names[k], drill.hooks, drill.during)
  {
    var n := |names| - 1;
    var (w1, oks1) := AttemptAll(fails, drill, w, names[..n]);
    AttemptTells(fails, drill, w1, names[n]);
    var w2 := Attempt(fails, drill, w1, names[n]).0;
    CallsGrow(fails, drill, w, names[..n]);
    if k < n {
      AttemptAllTells(fails, drill, w, names[..n], k);
      HadStays(fails, w1.calls, w2.calls, |w.calls|, names[k], drill.hooks, drill.during);
    }
  }

  lemma {:induction false} CallsGrow(fails: Failures, drill: Drill, w: World, names: seq<string>)
    ensures w.calls <= AttemptAll(fails, drill, w, names).0.calls
  {
    if names != [] {
      var n := |names| - 1;
      CallsGrow(fails, drill, w, names[..n]);
      AttemptTells(fails, drill, AttemptAll(fails, drill, w, names[..n]).0, names[n]);
    }
  }

  lemma {:induction false} AttemptAllCalls(fails: Failures, drill: Drill, w: World, names: seq<string>)
    requires drill.hooks != []
    ensures w.calls <= AttemptAll(fails, drill, w, names).0.calls
    ensures CallsInTurn(AttemptAll(fails, drill, w, names).0.calls[|w.calls|..], names, drill)
  {
    if names != [] {
      var n := |names| - 1;
      AttemptAllCalls(fails, drill, w, names[..n]);
      var w1 := AttemptAll(fails, drill, w, names[..n]).0;
      var w2 := AttemptAll(fails, drill, w, names).0;
      AttemptTells(fails, drill, w1, names[n]);
      AttemptIsBlock(fails, drill, w1, names[n]);
      var calls, m := w2.calls[|w.calls|..], |w1.calls| - |w.calls|;
      assert calls[m..] == w2.calls[|w1.calls|..];
      assert calls[..m] == w1.calls[|w.calls|..];
    }
  }

  // ----- what attempts leave behind: the health states

  lemma {:induction false} AttemptAllHealth(fails: Failures, drill: Drill, w: World, names: seq<string>)
    requires Distinct(names)
    ensures forall k :: 0 <= k < |names| ==>
              && names[k] in AttemptAll(fails, drill, w, names).0.health
              && AttemptAll(fails, drill, w, names).0.health[names[k]]
                 == if AttemptAll(fails, drill, w, names).1[k] then drill.after else Failed
    ensures forall m :: m !in names ==>
              (m in AttemptAll(fails, drill, w, names).0.health <==> m in w.health)
    ensures forall m :: m !in names && m in w.health ==>
              AttemptAll(fails, drill, w, names).0.health[m] == w.health[m]
  {
    if names != [] {
      var n := |names| - 1;
      AttemptAllHealth(fails, drill, w, names[..n]);
      assert names == names[..n] + [names[n]];
    }
  }

  // ----- picked and enabled names

  lemma {:induction false} PickMembers(names: seq<string>, oks: seq<bool>, which: bool)
    requires |names| == |oks|
    ensures forall x :: x in Pick(names, oks, which) <==> exists k :: 0 <= k < |names| && names[k] == x && oks[k] == which
    ensures Distinct(names) ==> Distinct(Pick(names, oks, which))
    ensures |Pick(names, oks, which)| <= |names|
  {
    if names != [] {
      var n := |names| - 1;
      PickMembers(names[..n], oks[..n], which);
      var front := Pick(names[..n], oks[..n], which);
      forall x
        ensures x in Pick(names, oks, which) <==> exists k :: 0 <= k < |names| && names[k] == x && oks[k] == which
      {
        if x in front {
          var k :| 0 <= k < n && names[..n][k] == x && oks[..n][k] == which;
          assert names[k] == x && oks[k] == which;
        }
      }
      if Distinct(names) {
        assert names[n] !in names[..n];
        assert names[n] !in front;
      }
    }
  }

  lemma {:induction false} EnabledMembers(registry: Registry, order: seq<string>)
    ensures forall x :: x in EnabledNames(registry, order) <==> x in order && x in registry && registry[x].enabled
    ensures Distinct(order) ==> Distinct(EnabledNames(registry, order))
  {
    if order != [] {
      var n := |order| - 1;
      EnabledMembers(registry, order[..n]);
      assert order == order[..n] + [order[n]];
    }
  }

  /** Every occurrence of `b` in `xs` comes after one of `a`. */
  ghost predicate Precedes(xs: seq<string>, a: string, b: string) {
    forall k :: 0 <= k < |xs| && xs[k] == b ==> a in xs[..k]
  }

  lemma {:induction false} EnabledKeepsOrder(registry: Registry, order: seq<string>, a: string, b: string)
    requires Precedes(order, a, b) && a in registry && registry[a].enabled
    ensures Precedes(EnabledNames(registry, order), a, b)
  {
    if order != [] {
      var n := |order| - 1;
      var names, front := EnabledNames(registry, order), EnabledNames(registry, order[..n]);
      forall k | 0 <= k < n && order[..n][k] == b
        ensures a in order[..n][..k]
      {
        assert order[..n][..k] == order[..k];
      }
      EnabledKeepsOrder(registry, order[..n], a, b);
      forall k | 0 <= k < |names| && names[k] == b
        ensures a in names[..k]
      {
        if k < |front| {
          assert names[..k] == front[..k];
        } else {
          assert names[..k] == front;
          EnabledMembers(registry, order[..n]);
        }
      }
    }
  }

  lemma LastHasNoFollower(names: seq<string>, a: string, b: string)
    requires Precedes(names, a, b) && Distinct(names) && names != [] && names[|names| - 1] == a
    ensures b !in names
  {
    forall k | 0 <= k < |names|
      ensures names[k] != b
    {
    }
  }

  lemma {:induction false} PickKeepsOrder(names: seq<string>, oks: seq<bool>, which: bool, a: string, b: string)
    requires |names| == |oks| && Precedes(names, a, b)
    requires a in Pick(names, oks, which) && Distinct(names)
    ensures Precedes(Pick(names, oks, which), a, b)
  {
    if names != [] {
      var n := |names| - 1;
      var picked, front := Pick(names, oks, which), Pick(names[..n], oks[..n], which);
      PickMembers(names, oks, which);
      PickMembers(names[..n], oks[..n], which);
      forall k | 0 <= k < n && names[..n][k] == b
        ensures a in names[..n][..k]
      {
        assert names[..n][..k] == names[..k];
      }
      if a in front {
        PickKeepsOrder(names[..n], oks[..n], which, a, b);
        forall k | 0 <= k < |picked| && picked[k] == b
          ensures a in picked[..k]
        {
          assert picked[..k] == if k < |front| then front[..k] else front;
        }
      } else {
        assert a == names[n];
        LastHasNoFollower(names, a, b);
        assert forall k :: 0 <= k < |picked| ==> picked[k] in picked;
      }
    }
  }
}
