/** What the startup and shutdown phases guarantee, for every pattern of hook failures. */
module LifecycleTheorems {
  import opened Wrappers
  import opened StringOrder
  import opened Sorting
  import opened DependencyGraph
  import opened Lifecycle
  import opened LifecycleOrchestrator

  // ----- startup

  lemma {:induction false} DependencyPrecedes(registry: Registry, order: seq<string>, d: string, c: string)
    requires IsExecutionOrder(registry, order) && c in registry && d in registry[c].dependencies
    requires d in registry && registry[d].enabled
    ensures Precedes(order, d, c) && Precedes(EnabledNames(registry, order), d, c)
  {
    ExecutionOrderSound(registry, order);
    assert Edge(GraphOf(registry), c, d);
    forall k | 0 <= k < |order| && order[k] == c
      ensures d in order[..k]
    {
    }
    EnabledKeepsOrder(registry, order, d, c);
  }

  lemma PrefixPrecedes(names: seq<string>, n: nat, a: string, b: string)
    requires n <= |names| && Precedes(names, a, b)
    ensures Precedes(names[..n], a, b)
  {
    forall k | 0 <= k < n && names[..n][k] == b
      ensures a in names[..n][..k]
    {
      assert names[..n][..k] == names[..k];
    }
  }

  /** Among attempted components, a started one comes after each of its dependencies, unless that
      dependency was attempted before it and failed. */
  lemma StartedOrFailed(names: seq<string>, oks: seq<bool>, i: nat, d: string)
    requires |names| == |oks| && Distinct(names) && i < |Pick(names, oks, true)|
    requires Precedes(names, d, Pick(names, oks, true)[i])
    ensures d in Pick(names, oks, true)[..i]
         || (d !in Pick(names, oks, true) && exists j :: 0 <= j < |names| && names[j] == d && !oks[j])
  {
    var started := Pick(names, oks, true);
    var c := started[i];
    PickMembers(names, oks, true);
    assert c in started;
    var k :| 0 <= k < |names| && names[k] == c && oks[k];
    assert d in names[..k];
    var j :| 0 <= j < k && names[j] == d;
    if oks[j] {
      assert d in started;
      PickKeepsOrder(names, oks, true, d, c);
    }
  }

  /** A name with a failed attempt ends up marked as failed. */
  lemma FailedIsMarked(fails: Failures, drill: Drill, w: World, names: seq<string>, j: nat)
    requires Distinct(names) && j < |names| && !AttemptAll(fails, drill, w, names).1[j]
    ensures names[j] in AttemptAll(fails, drill, w, names).0.health
    ensures AttemptAll(fails, drill, w, names).0.health[names[j]] == Failed
  {
    AttemptAllHealth(fails, drill, w, names);
  }

  /** Rolling back leaves the health of everything else alone. */
  lemma RollbackSpares(fails: Failures, down: Drill, w: World, started: seq<string>, m: string)
    requires Distinct(started) && m !in started
    ensures m in AttemptAll(fails, down, w, Reverse(started)).0.health <==> m in w.health
    ensures m in w.health ==> AttemptAll(fails, down, w, Reverse(started)).0.health[m] == w.health[m]
  {
    ReverseMembers(started);
    AttemptAllHealth(fails, down, w, Reverse(started));
  }

  lemma BrokenStartFollows(registry: Registry, fails: Failures, up: Drill, down: Drill, names: seq<string>, n: nat,
                           w: World, w': World, report: StartupReport, i: nat, d: string)
    requires Distinct(names) && BrokeAt(registry, fails, up, down, names, n, w, w', report)
    requires i < |report.started| && Precedes(names, d, report.started[i])
    ensures d in report.started[..i] || (d !in report.started && d in w'.health && w'.health[d] == Failed)
  {
    var (reached, oks) := AttemptAll(fails, up, w, names[..n + 1]);
    PrefixPrecedes(names, n, d, report.started[i]);
    StartedOrFailed(names[..n], oks[..n], i, d);
    if d !in report.started[..i] {
      var j :| 0 <= j < n && names[..n][j] == d && !oks[..n][j];
      assert names[..n + 1][j] == d;
      FailedIsMarked(fails, up, w, names[..n + 1], j);
      ReversedDistinct(report.started, names[..n], oks[..n]);
      RollbackSpares(fails, down, reached, report.started, d);
    }
  }

  /** Every started component comes after all its enabled dependencies that did not fail; a
      dependency that did fail is marked so. */
  lemma StartFollowsDependencies(registry: Registry, fails: Failures, up: Drill, down: Drill, order: seq<string>,
                                 w: World, w': World, report: StartupReport, i: nat, d: string)
    requires IsExecutionOrder(registry, order) && StartupOver(registry, fails, up, down, order, w, w', report)
    requires i < |report.started| && report.started[i] in registry
    requires d in registry[report.started[i]].dependencies && d in registry && registry[d].enabled
    ensures d in report.started[..i] || (d !in report.started && d in w'.health && w'.health[d] == Failed)
  {
    var names := EnabledNames(registry, order);
    EnabledDistinct(registry, order);
    DependencyPrecedes(registry, order, d, report.started[i]);
    if RanThrough(registry, fails, up, names, w, w', report) {
      var oks := AttemptAll(fails, up, w, names).1;
      StartedOrFailed(names, oks, i, d);
      if d !in report.started[..i] {
        var j :| 0 <= j < |names| && names[j] == d && !oks[j];
        FailedIsMarked(fails, up, w, names, j);
      }
    } else {
      var n :| BrokeAt(registry, fails, up, down, names, n, w, w', report);
      BrokenStartFollows(registry, fails, up, down, names, n, w, w', report, i, d);
    }
  }

  lemma EnabledDistinct(registry: Registry, order: seq<string>)
    requires IsExecutionOrder(registry, order)
    ensures Distinct(EnabledNames(registry, order))
  {
    ExecutionOrderSound(registry, order);
    EnabledMembers(registry, order);
  }

  lemma ReverseMembers<T>(xs: seq<T>)
    ensures forall x :: x in Reverse(xs) <==> x in xs
    ensures Distinct(xs) ==> Distinct(Reverse(xs))
  {
    forall x | x in xs
      ensures x in Reverse(xs)
    {
      var k :| 0 <= k < |xs| && xs[k] == x;
      assert Reverse(xs)[|xs| - 1 - k] == x;
    }
  }

  lemma ReversedDistinct(started: seq<string>, names: seq<string>, oks: seq<bool>)
    requires |names| == |oks| && Distinct(names) && started == Pick(names, oks, true)
    ensures Distinct(started) && Distinct(Reverse(started))
  {
    PickMembers(names, oks, true);
    ReverseMembers(started);
  }

  lemma {:induction false} CallsOnlyOf(calls: seq<Call>, names: seq<string>, drill: Drill)
    requires CallsInTurn(calls, names, drill)
    ensures forall c :: c in calls ==> c.name in names && c.hook in drill.hooks
  {
    if names != [] {
      var n := |names| - 1;
      var m :| 0 <= m <= |calls| && Block(calls[m..], names[n], drill) && CallsInTurn(calls[..m], names[..n], drill);
      CallsOnlyOf(calls[..m], names[..n], drill);
      forall c | c in calls
        ensures c.name in names && c.hook in drill.hooks
      {
        var k :| 0 <= k < |calls| && calls[k] == c;
        if k < m {
          assert calls[..m][k] == c;
        } else {
          assert calls[m..][k - m] == Call(names[n], drill.hooks[k - m], drill.during);
        }
      }
    }
  }

  /** When a critical component fails, the components called on the way up are exactly the
      enabled ones up to and including it, and the rollback calls exactly the started ones, in
      exact reverse order; nothing else is called. */
  lemma RollbackCalls(registry: Registry, fails: Failures, up: Drill, down: Drill, names: seq<string>, n: nat,
                      w: World, w': World, report: StartupReport)
    requires up.hooks != [] && down.hooks != []
    requires BrokeAt(registry, fails, up, down, names, n, w, w', report)
    ensures var reached := AttemptAll(fails, up, w, names[..n + 1]).0;
            && w.calls <= reached.calls <= w'.calls
            && CallsInTurn(reached.calls[|w.calls|..], names[..n + 1], up)
            && CallsInTurn(w'.calls[|reached.calls|..], Reverse(report.started), down)
  {
    AttemptAllCalls(fails, up, w, names[..n + 1]);
    AttemptAllCalls(fails, down, AttemptAll(fails, up, w, names[..n + 1]).0, Reverse(report.started));
  }

  /** No hook of a component that was not reached is ever called. */
  lemma RollbackCallsNoOther(registry: Registry, fails: Failures, up: Drill, down: Drill, names: seq<string>, n: nat,
                             w: World, w': World, report: StartupReport, c: Call)
    requires up.hooks != [] && down.hooks != []
    requires BrokeAt(registry, fails, up, down, names, n, w, w', report)
    requires w.calls <= w'.calls && c in w'.calls[|w.calls|..]
    ensures c.name in names[..n + 1]
  {
    var (reached, oks) := AttemptAll(fails, up, w, names[..n + 1]);
    RollbackCalls(registry, fails, up, down, names, n, w, w', report);
    StartedBefore(names, oks, n, report.started);
    ReverseMembers(report.started);
    CallsOfTwoParts(w.calls, reached.calls, w'.calls, names[..n + 1], Reverse(report.started), up, down, c);
  }

  /** Calls made on the way up and calls made on the way down are of components of either list. */
  lemma CallsOfTwoParts(before: seq<Call>, middle: seq<Call>, after: seq<Call>, up: seq<string>, down: seq<string>,
                        upDrill: Drill, downDrill: Drill, c: Call)
    requires before <= middle <= after && c in after[|before|..]
    requires CallsInTurn(middle[|before|..], up, upDrill) && CallsInTurn(after[|middle|..], down, downDrill)
    ensures c.name in up || c.name in down
  {
    CallsOnlyOf(middle[|before|..], up, upDrill);
    CallsOnlyOf(after[|middle|..], down, downDrill);
    assert after[|before|..] == middle[|before|..] + after[|middle|..];
  }

  /** After a broken startup each started component is stopped or failed, the culprit is failed,
      and the health of every component that was not reached is as before. */
  lemma RollbackHealth(registry: Registry, fails: Failures, up: Drill, down: Drill, names: seq<string>, n: nat,
                       w: World, w': World, report: StartupReport, m: string)
    requires Distinct(names) && BrokeAt(registry, fails, up, down, names, n, w, w', report)
    ensures m in report.started ==> m in w'.health && w'.health[m] in {down.after, Failed}
    ensures report.failed == Some(m) ==> m in w'.health && w'.health[m] == Failed
    ensures m !in names[..n + 1] ==> (m in w'.health <==> m in w.health)
    ensures m !in names[..n + 1] && m in w.health ==> w'.health[m] == w.health[m]
  {
    var (reached, oks) := AttemptAll(fails, up, w, names[..n + 1]);
    ReversedDistinct(report.started, names[..n], oks[..n]);
    StartedBefore(names, oks, n, report.started);
    RolledBackHealth(fails, down, reached, report.started);
    if m !in report.started {
      RollbackSpares(fails, down, reached, report.started, m);
    }
    if report.failed == Some(m) {
      assert names[..n + 1][n] == m && m !in names[..n];
      FailedIsMarked(fails, up, w, names[..n + 1], n);
    } else if m !in names[..n + 1] {
      AttemptAllHealth(fails, up, w, names[..n + 1]);
    }
  }

  lemma StartedBefore(names: seq<string>, oks: seq<bool>, n: nat, started: seq<string>)
    requires n < |names| && |oks| == n + 1 && started == Pick(names[..n], oks[..n], true)
    ensures forall s :: s in started ==> s in names[..n] && s in names[..n + 1]
  {
    PickMembers(names[..n], oks[..n], true);
    assert names[..n + 1] == names[..n] + [names[n]];
  }

  lemma RolledBackHealth(fails: Failures, down: Drill, w: World, started: seq<string>)
    requires Distinct(started)
    ensures forall s :: s in started ==>
              && s in AttemptAll(fails, down, w, Reverse(started)).0.health
              && AttemptAll(fails, down, w, Reverse(started)).0.health[s] in {down.after, Failed}
  {
    ReverseMembers(started);
    AttemptAllHealth(fails, down, w, Reverse(started));
    forall s | s in started
      ensures s in AttemptAll(fails, down, w, Reverse(started)).0.health
      ensures AttemptAll(fails, down, w, Reverse(started)).0.health[s] in {down.after, Failed}
    {
      var k :| 0 <= k < |started| && Reverse(started)[k] == s;
    }
  }

  // ----- shutdown

  lemma ShutdownNames(registry: Registry, order: seq<string>)
    requires if Orderable(registry) then IsExecutionOrder(registry, order) else IsFallbackOrder(registry, order)
    ensures Distinct(EnabledNames(registry, Reverse(order)))
    ensures forall n :: n in EnabledNames(registry, Reverse(order)) <==> n in registry && registry[n].enabled
  {
    if Orderable(registry) {
      ExecutionOrderSound(registry, order);
    }
    ReverseMembers(order);
    EnabledMembers(registry, Reverse(order));
    forall n | n in registry
      ensures n in order
    {
      assert n in Members(order);
    }
  }

  /** Shutdown attempts every enabled component exactly once, whatever fails. */
  lemma ShutdownAttemptsAll(registry: Registry, fails: Failures, drill: Drill, order: seq<string>,
                            w: World, w': World, report: ShutdownReport)
    requires ShutdownDone(registry, fails, drill, order, w, w', report) && drill.hooks != []
    ensures var names := EnabledNames(registry, Reverse(order));
            && Distinct(names)
            && (forall n :: n in names <==> n in registry && registry[n].enabled)
            && w.calls <= w'.calls && CallsInTurn(w'.calls[|w.calls|..], names, drill)
  {
    ShutdownNames(registry, order);
    AttemptAllCalls(fails, drill, w, EnabledNames(registry, Reverse(order)));
  }

  /** Each name is picked on exactly one side, and its health tells which. */
  lemma PickedOnce(fails: Failures, drill: Drill, w: World, names: seq<string>, n: string)
    requires Distinct(names)
    ensures var (w', oks) := AttemptAll(fails, drill, w, names);
            && Distinct(Pick(names, oks, true))
            && (n in names <==> n in Pick(names, oks, true) || n in Pick(names, oks, false))
            && !(n in Pick(names, oks, true) && n in Pick(names, oks, false))
            && (n in Pick(names, oks, true) ==> n in w'.health && w'.health[n] == drill.after)
            && (n in Pick(names, oks, false) ==> n in w'.health && w'.health[n] == Failed)
  {
    var oks := AttemptAll(fails, drill, w, names).1;
    AttemptAllHealth(fails, drill, w, names);
    PickMembers(names, oks, true);
    PickMembers(names, oks, false);
    if n in names {
      var k :| 0 <= k < |names| && names[k] == n;
      assert oks[k] == true || oks[k] == false;
    }
  }

  /** The stopped components and those with errors divide the enabled components between them,
      as their health says, and the report is a success exactly when all enabled ones stopped. */
  lemma ShutdownPartition(registry: Registry, fails: Failures, drill: Drill, order: seq<string>,
                          w: World, w': World, report: ShutdownReport)
    requires ShutdownDone(registry, fails, drill, order, w, w', report)
    ensures Distinct(report.stopped)
    ensures forall n :: (n in report.stopped || n in report.errors) <==> n in registry && registry[n].enabled
    ensures forall n :: n in report.stopped ==> n !in report.errors
    ensures forall n :: n in report.stopped ==> n in w'.health && w'.health[n] == drill.after
    ensures forall n :: n in report.errors ==> n in w'.health && w'.health[n] == Failed
    ensures report.success <==> forall n :: n in registry && registry[n].enabled ==> n in report.stopped
  {
    var names := EnabledNames(registry, Reverse(order));
    ShutdownNames(registry, order);
    PickedOnce(fails, drill, w, names, "");
    forall n
      ensures n in names <==> n in report.stopped || n in report.errors
      ensures !(n in report.stopped && n in report.errors)
      ensures n in report.stopped ==> n in w'.health && w'.health[n] == drill.after
      ensures n in report.errors ==> n in w'.health && w'.health[n] == Failed
    {
      PickedOnce(fails, drill, w, names, n);
    }
  }

  /** What comes later in a list comes earlier in the reversed one. */
  lemma ReversedPrecedes(order: seq<string>, i: nat, a: string, b: string)
    requires i < |order| && order[i] == b
    requires forall j :: 0 <= j < |order| && order[j] == a ==> j < i
    ensures Precedes(Reverse(order), b, a)
  {
    var reversed := Reverse(order);
    forall k | 0 <= k < |reversed| && reversed[k] == a
      ensures b in reversed[..k]
    {
      assert order[|order| - 1 - k] == a;
      assert reversed[..k][|order| - 1 - i] == b;
    }
  }

  /** On a valid graph every component is attempted before anything it depends on. */
  lemma ShutdownReversesDependencies(registry: Registry, fails: Failures, drill: Drill, order: seq<string>,
                                     w: World, w': World, report: ShutdownReport, c: string, d: string)
    requires Orderable(registry) && ShutdownDone(registry, fails, drill, order, w, w', report)
    requires c in registry && d in registry[c].dependencies
    requires registry[c].enabled && d in registry && registry[d].enabled
    ensures Precedes(EnabledNames(registry, Reverse(order)), c, d)
  {
    ExecutionOrderSound(registry, order);
    assert c in order by { assert c in Members(order); }
    var i := IndexOf(c, order);
    DependencyIsEarlier(registry, order, i, d);
    ReversedPrecedes(order, i, d, c);
    EnabledKeepsOrder(registry, Reverse(order), c, d);
  }

  lemma DependencyIsEarlier(registry: Registry, order: seq<string>, i: nat, d: string)
    requires IsExecutionOrder(registry, order) && i < |order| && order[i] in registry
    requires d in registry[order[i]].dependencies
    ensures forall j :: 0 <= j < |order| && order[j] == d ==> j < i
  {
    ExecutionOrderSound(registry, order);
    assert Edge(GraphOf(registry), order[i], d);
    var j :| 0 <= j < i && order[..i][j] == d;
    assert order[j] == d;
  }

  /** The order that replaces an execution order goes by ascending priority number, and by name among
      equals. */
  lemma FallbackByPriority(registry: Registry, order: seq<string>, i: nat, j: nat)
    requires IsFallbackOrder(registry, order) && i < j < |order|
    ensures order[i] in registry && order[j] in registry
    ensures registry[order[i]].priority < registry[order[j]].priority
         || (registry[order[i]].priority == registry[order[j]].priority && ComesFirst(order[i], order[j]))
  {
    assert order[i] in Members(order) && order[j] in Members(order);
    assert KeyLess(KeyOf(RankOf(registry), order[i]), KeyOf(RankOf(registry), order[j]));
    LessIsDictionaryOrder(order[i], order[j]);
  }

  /** Without a valid graph the enabled components are attempted by descending (priority, name). */
  lemma FallbackDescends(registry: Registry, fails: Failures, drill: Drill, order: seq<string>,
                         w: World, w': World, report: ShutdownReport, a: string, b: string)
    requires !Orderable(registry) && ShutdownDone(registry, fails, drill, order, w, w', report)
    requires a in registry && registry[a].enabled && b in registry && registry[b].enabled
    requires registry[a].priority < registry[b].priority
          || (registry[a].priority == registry[b].priority && ComesFirst(a, b))
    ensures Precedes(EnabledNames(registry, Reverse(order)), b, a)
  {
    assert b in order by { assert b in Members(order); }
    var i := IndexOf(b, order);
    forall j | 0 <= j < |order| && order[j] == a
      ensures j < i
    {
      FallbackIsAscending(registry, order, i, j);
    }
    ReversedPrecedes(order, i, a, b);
    EnabledKeepsOrder(registry, Reverse(order), b, a);
  }

  lemma FallbackIsAscending(registry: Registry, order: seq<string>, i: nat, j: nat)
    requires IsFallbackOrder(registry, order) && i < |order| && j < |order|
    requires order[i] in registry && order[j] in registry
    requires registry[order[j]].priority < registry[order[i]].priority
          || (registry[order[j]].priority == registry[order[i]].priority && ComesFirst(order[j], order[i]))
    ensures j < i
  {
    var rank := RankOf(registry);
    LessIsDictionaryOrder(order[j], order[i]);
    KeyLessAsymmetric(KeyOf(rank, order[j]), KeyOf(rank, order[i]));
  }
}
