/** What the reports of the lifecycle orchestrator say about the hooks that were called and raised. */
module LifecycleReports {
  import opened Wrappers
  import opened Sorting
  import opened DependencyGraph
  import opened Lifecycle
  import opened LifecycleOrchestrator
  import opened LifecycleTheorems

  /** What a startup report says.  Every component in it is enabled; the started ones had all hooks
      called and none raised; the failed one is critical and the last of its hooks called raised.  In a success
      every enabled component is started, unless it is not critical and a hook raised; otherwise each
      started component has been taken down, or had a hook that raised while it was. */
  ghost predicate TellsUp(registry: Registry, fails: Failures, w: World, w': World, report: StartupReport,
                          hooks: seq<Hook>, during: ComponentState, after: ComponentState,
                          downHooks: seq<Hook>, downDuring: ComponentState, downAfter: ComponentState) {
    && (forall n :: n in report.started ==>
          n in registry && registry[n].enabled && HadAll(fails, w'.calls, |w.calls|, n, hooks, during))
    && (if report.success then
          && report.failed == None
          && (forall n :: n in report.started ==> n in w'.health && w'.health[n] == after)
          && (forall n :: n in registry && registry[n].enabled && n !in report.started ==>
                !registry[n].critical && HadFailure(fails, w'.calls, |w.calls|, n, hooks, during))
        else
          && report.failed.Some? && FailedCritically(registry, fails, w, w', report.failed.value, hooks, during)
          && (forall n :: n in report.started ==>
                TakenDown(fails, w, w', n, downHooks, downDuring, downAfter)))
  }

  ghost predicate FailedCritically(registry: Registry, fails: Failures, w: World, w': World, c: string,
                                   hooks: seq<Hook>, during: ComponentState) {
    && c in registry && registry[c].enabled && registry[c].critical
    && HadFailure(fails, w'.calls, |w.calls|, c, hooks, during) && LastRaised(fails, w'.calls, |w.calls|, c)
    && c in w'.health && w'.health[c] == Failed
  }

  ghost predicate TakenDown(fails: Failures, w: World, w': World, n: string, hooks: seq<Hook>, during: ComponentState,
                            after: ComponentState) {
    && n in w'.health
    && if w'.health[n] == Failed then HadFailure(fails, w'.calls, |w.calls|, n, hooks, during)
       else w'.health[n] == after && HadAll(fails, w'.calls, |w.calls|, n, hooks, during)
  }

  // ----- the last call

  ghost predicate RaisedLast(fails: Failures, calls: seq<Call>, i: nat, name: string) {
    && i < |calls| && calls[i].name == name && CallRaised(fails, calls, i)
    && forall j :: i < j < |calls| ==> calls[j].name != name
  }

  /** Of all calls of the component's hooks from call `start` on, the last one raised. */
  ghost predicate LastRaised(fails: Failures, calls: seq<Call>, start: nat, name: string) {
    exists i: nat :: start <= i && RaisedLast(fails, calls, i, name)
  }

  /** Attempts call the hooks of the components attempted, and no others. */
  lemma {:induction false} CallsAreOf(fails: Failures, drill: Drill, w: World, names: seq<string>)
    ensures w.calls <= AttemptAll(fails, drill, w, names).0.calls
    ensures forall j :: |w.calls| <= j < |AttemptAll(fails, drill, w, names).0.calls| ==>
              AttemptAll(fails, drill, w, names).0.calls[j].name in names
  {
    if names != [] {
      var n := |names| - 1;
      CallsAreOf(fails, drill, w, names[..n]);
      AttemptTells(fails, drill, AttemptAll(fails, drill, w, names[..n]).0, names[n]);
    }
  }

  lemma LastStays(fails: Failures, calls: seq<Call>, longer: seq<Call>, start: nat, name: string)
    requires LastRaised(fails, calls, start, name) && calls <= longer
    requires forall j :: |calls| <= j < |longer| ==> longer[j].name != name
    ensures LastRaised(fails, longer, start, name)
  {
    RaisedStays(fails, calls, longer);
    var i: nat :| start <= i && RaisedLast(fails, calls, i, name);
    assert RaisedLast(fails, longer, i, name);
  }

  /** A component that failed is not called again. */
  lemma {:induction false} FailureIsLast(fails: Failures, drill: Drill, w: World, names: seq<string>, k: nat)
    requires Distinct(names) && k < |names| && !AttemptAll(fails, drill, w, names).1[k]
    ensures LastRaised(fails, AttemptAll(fails, drill, w, names).0.calls, |w.calls|, names[k])
  {
    var n := |names| - 1;
    var w1 := AttemptAll(fails, drill, w, names[..n]).0;
    var w2 := Attempt(fails, drill, w1, names[n]).0;
    AttemptTells(fails, drill, w1, names[n]);
    CallsGrow(fails, drill, w, names[..n]);
    if k < n {
      FailureIsLast(fails, drill, w, names[..n], k);
      LastStays(fails, w1.calls, w2.calls, |w.calls|, names[k]);
    } else {
      assert RaisedLast(fails, w2.calls, |w2.calls| - 1, names[n]);
    }
  }

  // ----- startup

  lemma PickedHadAll(fails: Failures, drill: Drill, w: World, names: seq<string>, m: nat, n: string)
    requires m <= |names|
    requires n in Pick(names[..m], AttemptAll(fails, drill, w, names).1[..m], true)
    ensures HadAll(fails, AttemptAll(fails, drill, w, names).0.calls, |w.calls|, n, drill.hooks, drill.during)
    ensures n in names[..m]
  {
    var oks := AttemptAll(fails, drill, w, names).1;
    PickMembers(names[..m], oks[..m], true);
    var k :| 0 <= k < m && names[..m][k] == n && oks[..m][k] == true;
    AttemptAllTells(fails, drill, w, names, k);
  }

  lemma UnpickedHadFailure(fails: Failures, drill: Drill, w: World, names: seq<string>, n: string)
    requires Distinct(names) && n in names && n !in Pick(names, AttemptAll(fails, drill, w, names).1, true)
    ensures HadFailure(fails, AttemptAll(fails, drill, w, names).0.calls, |w.calls|, n, drill.hooks, drill.during)
    ensures exists k :: 0 <= k < |names| && names[k] == n && !AttemptAll(fails, drill, w, names).1[k]
  {
    var oks := AttemptAll(fails, drill, w, names).1;
    PickMembers(names, oks, true);
    var k :| 0 <= k < |names| && names[k] == n;
    assert !oks[k];
    AttemptAllTells(fails, drill, w, names, k);
  }

  lemma UnpickedIsLast(fails: Failures, drill: Drill, w: World, names: seq<string>, n: string)
    requires Distinct(names) && n in names && n !in Pick(names, AttemptAll(fails, drill, w, names).1, true)
    ensures HadFailure(fails, AttemptAll(fails, drill, w, names).0.calls, |w.calls|, n, drill.hooks, drill.during)
    ensures LastRaised(fails, AttemptAll(fails, drill, w, names).0.calls, |w.calls|, n)
  {
    UnpickedHadFailure(fails, drill, w, names, n);
    var k :| 0 <= k < |names| && names[k] == n && !AttemptAll(fails, drill, w, names).1[k];
    FailureIsLast(fails, drill, w, names, k);
  }

  lemma EnabledAll(registry: Registry, order: seq<string>)
    requires IsExecutionOrder(registry, order)
    ensures Distinct(EnabledNames(registry, order))
    ensures forall n :: n in EnabledNames(registry, order) <==> n in registry && registry[n].enabled
  {
    ExecutionOrderSound(registry, order);
    EnabledMembers(registry, order);
    forall n | n in registry
      ensures n in order
    {
      assert n in Members(order);
    }
  }

  lemma ThroughTells(registry: Registry, fails: Failures, up: Drill, down: Drill, order: seq<string>,
                     w: World, w': World, report: StartupReport)
    requires IsExecutionOrder(registry, order)
    requires RanThrough(registry, fails, up, EnabledNames(registry, order), w, w', report)
    ensures TellsUp(registry, fails, w, w', report, up.hooks, up.during, up.after, down.hooks, down.during, down.after)
  {
    var names := EnabledNames(registry, order);
    var oks := AttemptAll(fails, up, w, names).1;
    EnabledAll(registry, order);
    assert names[..|names|] == names && oks[..|names|] == oks;
    forall n | n in report.started
      ensures n in registry && registry[n].enabled && HadAll(fails, w'.calls, |w.calls|, n, up.hooks, up.during)
      ensures n in w'.health && w'.health[n] == up.after
    {
      PickedHadAll(fails, up, w, names, |names|, n);
      PickedOnce(fails, up, w, names, n);
    }
    forall n | n in registry && registry[n].enabled && n !in report.started
      ensures !registry[n].critical && HadFailure(fails, w'.calls, |w.calls|, n, up.hooks, up.during)
    {
      UnpickedHadFailure(fails, up, w, names, n);
    }
  }

  /** Taking down what was started. */
  lemma TakenDownTells(fails: Failures, down: Drill, w: World, reached: World, started: seq<string>, n: string)
    requires Distinct(started) && n in started && w.calls <= reached.calls && down.after != Failed
    ensures TakenDown(fails, w, AttemptAll(fails, down, reached, Reverse(started)).0, n,
                      down.hooks, down.during, down.after)
  {
    ReverseMembers(started);
    var names := Reverse(started);
    var k :| 0 <= k < |names| && names[k] == n;
    AttemptAllHealth(fails, down, reached, names);
    AttemptAllTells(fails, down, reached, names, k);
    LaterStart(fails, AttemptAll(fails, down, reached, names).0.calls, |w.calls|, |reached.calls|, n,
               down.hooks, down.during);
  }

  lemma LaterStart(fails: Failures, calls: seq<Call>, start: nat, later: nat, n: string, hooks: seq<Hook>,
                   state: ComponentState)
    requires start <= later
    ensures HadAll(fails, calls, later, n, hooks, state) ==> HadAll(fails, calls, start, n, hooks, state)
    ensures HadFailure(fails, calls, later, n, hooks, state) ==> HadFailure(fails, calls, start, n, hooks, state)
  {
  }

  lemma CulpritTells(registry: Registry, fails: Failures, up: Drill, down: Drill, names: seq<string>, n: nat,
                     w: World, w': World, report: StartupReport)
    requires BrokeAt(registry, fails, up, down, names, n, w, w', report) && Distinct(names)
    requires names[n] in registry && registry[names[n]].enabled
    ensures FailedCritically(registry, fails, w, w', names[n], up.hooks, up.during)
  {
    var reached := AttemptAll(fails, up, w, names[..n + 1]).0;
    assert names[..n + 1][n] == names[n];
    AttemptAllTells(fails, up, w, names[..n + 1], n);
    CallsGrow(fails, down, reached, Reverse(report.started));
    HadStays(fails, reached.calls, w'.calls, |w.calls|, names[n], up.hooks, up.during);
    CulpritIsLast(registry, fails, up, down, names, n, w, w', report);
    RollbackHealth(registry, fails, up, down, names, n, w, w', report, names[n]);
  }

  lemma CulpritIsLast(registry: Registry, fails: Failures, up: Drill, down: Drill, names: seq<string>, n: nat,
                      w: World, w': World, report: StartupReport)
    requires BrokeAt(registry, fails, up, down, names, n, w, w', report) && Distinct(names)
    ensures LastRaised(fails, w'.calls, |w.calls|, names[n])
  {
    var (reached, oks) := AttemptAll(fails, up, w, names[..n + 1]);
    assert names[..n + 1][n] == names[n];
    FailureIsLast(fails, up, w, names[..n + 1], n);
    CallsAreOf(fails, down, reached, Reverse(report.started));
    PickMembers(names[..n], oks[..n], true);
    ReverseMembers(report.started);
    assert names[n] !in names[..n];
    assert names[n] !in Reverse(report.started);
    LastStays(fails, reached.calls, w'.calls, |w.calls|, names[n]);
  }

  lemma StartedTells(registry: Registry, fails: Failures, up: Drill, down: Drill, names: seq<string>, n: nat,
                     w: World, w': World, report: StartupReport, c: string)
    requires BrokeAt(registry, fails, up, down, names, n, w, w', report) && Distinct(names)
    requires c in report.started && down.after != Failed
    ensures c in names && HadAll(fails, w'.calls, |w.calls|, c, up.hooks, up.during)
    ensures TakenDown(fails, w, w', c, down.hooks, down.during, down.after)
  {
    var (reached, oks) := AttemptAll(fails, up, w, names[..n + 1]);
    assert names[..n + 1][..n] == names[..n];
    PickedHadAll(fails, up, w, names[..n + 1], n, c);
    CallsGrow(fails, up, w, names[..n + 1]);
    CallsGrow(fails, down, reached, Reverse(report.started));
    HadStays(fails, reached.calls, w'.calls, |w.calls|, c, up.hooks, up.during);
    ReversedDistinct(report.started, names[..n], oks[..n]);
    TakenDownTells(fails, down, w, reached, report.started, c);
  }

  lemma StartupTells(registry: Registry, fails: Failures, up: Drill, down: Drill, w: World, w': World,
                     report: StartupReport)
    requires Orderable(registry) && StartupDone(registry, fails, up, down, w, w', report) && down.after != Failed
    ensures TellsUp(registry, fails, w, w', report, up.hooks, up.during, up.after, down.hooks, down.during, down.after)
  {
    var order :| IsExecutionOrder(registry, order) && StartupOver(registry, fails, up, down, order, w, w', report);
    if RanThrough(registry, fails, up, EnabledNames(registry, order), w, w', report) {
      ThroughTells(registry, fails, up, down, order, w, w', report);
    } else {
      var n :| BrokeAt(registry, fails, up, down, EnabledNames(registry, order), n, w, w', report);
      EnabledAll(registry, order);
      BrokenTells(registry, fails, up, down, EnabledNames(registry, order), n, w, w', report);
    }
  }

  lemma BrokenTells(registry: Registry, fails: Failures, up: Drill, down: Drill, names: seq<string>, n: nat,
                    w: World, w': World, report: StartupReport)
    requires BrokeAt(registry, fails, up, down, names, n, w, w', report) && Distinct(names) && down.after != Failed
    requires forall c :: c in names ==> c in registry && registry[c].enabled
    ensures TellsUp(registry, fails, w, w', report, up.hooks, up.during, up.after, down.hooks, down.during, down.after)
  {
    assert names[n] in names;
    CulpritTells(registry, fails, up, down, names, n, w, w', report);
    forall c | c in report.started
      ensures c in names && HadAll(fails, w'.calls, |w.calls|, c, up.hooks, up.during)
      ensures TakenDown(fails, w, w', c, down.hooks, down.during, down.after)
    {
      StartedTells(registry, fails, up, down, names, n, w, w', report, c);
    }
  }

  /** `start` calls the start hooks, and the stop hooks to take down what it has started. */
  lemma StartTells(registry: Registry, fails: Failures, w: World, w': World, report: StartupReport)
    requires Orderable(registry) && StartupDone(registry, fails, START, ROLLBACK_START, w, w', report)
    ensures TellsUp(registry, fails, w, w', report,
                    [BeforeStart, Hook.Start, AfterStart], Starting, ComponentState.Running,
                    [BeforeStop, Hook.Stop, AfterStop], ShuttingDown, Stopped)
  {
    assert START == Drill([BeforeStart, Hook.Start, AfterStart], Starting, ComponentState.Running);
    assert ROLLBACK_START == Drill([BeforeStop, Hook.Stop, AfterStop], ShuttingDown, Stopped);
    StartupTells(registry, fails, START, ROLLBACK_START, w, w', report);
  }

  /** `boot` calls the boot hooks, and the shutdown hooks to take down what it has booted. */
  lemma BootTells(registry: Registry, fails: Failures, w: World, w': World, report: StartupReport)
    requires Orderable(registry) && StartupDone(registry, fails, BOOT, ROLLBACK_BOOT, w, w', report)
    ensures TellsUp(registry, fails, w, w', report,
                    [BeforeBoot, Hook.Boot, AfterBoot], Booting, Booted,
                    [BeforeShutdown, Hook.Shutdown, AfterShutdown], ShuttingDown, Stopped)
  {
    assert BOOT == Drill([BeforeBoot, Hook.Boot, AfterBoot], Booting, Booted);
    assert ROLLBACK_BOOT == Drill([BeforeShutdown, Hook.Shutdown, AfterShutdown], ShuttingDown, Stopped);
    StartupTells(registry, fails, BOOT, ROLLBACK_BOOT, w, w', report);
  }

  // ----- shutdown

  /** What a shutdown report says: the stopped components had all hooks called and none raised, of those
      with errors the last hook called raised, and these two are the enabled ones. */
  ghost predicate TellsDown(registry: Registry, fails: Failures, w: World, w': World, report: ShutdownReport,
                            hooks: seq<Hook>, during: ComponentState, after: ComponentState) {
    && (forall n :: n in registry && registry[n].enabled <==> n in report.stopped || n in report.errors)
    && (forall n :: n in report.stopped ==>
          HadAll(fails, w'.calls, |w.calls|, n, hooks, during) && n in w'.health && w'.health[n] == after)
    && (forall n :: n in report.errors ==>
          && HadFailure(fails, w'.calls, |w.calls|, n, hooks, during) && LastRaised(fails, w'.calls, |w.calls|, n)
          && n in w'.health && w'.health[n] == Failed)
    && (report.success <==> report.errors == {})
  }

  lemma ShutdownTells(registry: Registry, fails: Failures, drill: Drill, order: seq<string>, w: World, w': World,
                      report: ShutdownReport)
    requires ShutdownDone(registry, fails, drill, order, w, w', report)
    ensures TellsDown(registry, fails, w, w', report, drill.hooks, drill.during, drill.after)
  {
    var names := EnabledNames(registry, Reverse(order));
    var oks := AttemptAll(fails, drill, w, names).1;
    ShutdownNames(registry, order);
    ShutdownPartition(registry, fails, drill, order, w, w', report);
    assert names[..|names|] == names && oks[..|names|] == oks;
    forall n | n in report.stopped
      ensures HadAll(fails, w'.calls, |w.calls|, n, drill.hooks, drill.during)
    {
      PickedHadAll(fails, drill, w, names, |names|, n);
    }
    forall n | n in report.errors
      ensures HadFailure(fails, w'.calls, |w.calls|, n, drill.hooks, drill.during)
      ensures LastRaised(fails, w'.calls, |w.calls|, n)
    {
      UnpickedIsLast(fails, drill, w, names, n);
    }
  }

  /** `stop` calls the stop hooks. */
  lemma StopTells(registry: Registry, fails: Failures, order: seq<string>, w: World, w': World, report: ShutdownReport)
    requires ShutdownDone(registry, fails, STOP, order, w, w', report)
    ensures TellsDown(registry, fails, w, w', report, [BeforeStop, Hook.Stop, AfterStop], Stopping, Stopped)
  {
    assert STOP == Drill([BeforeStop, Hook.Stop, AfterStop], Stopping, Stopped);
    ShutdownTells(registry, fails, STOP, order, w, w', report);
  }

  /** `shutdown` calls the shutdown hooks. */
  lemma ShutdownHooksTell(registry: Registry, fails: Failures, order: seq<string>, w: World, w': World,
                          report: ShutdownReport)
    requires ShutdownDone(registry, fails, SHUTDOWN, order, w, w', report)
    ensures TellsDown(registry, fails, w, w', report,
                      [BeforeShutdown, Hook.Shutdown, AfterShutdown], ShuttingDown, Stopped)
  {
    assert SHUTDOWN == Drill([BeforeShutdown, Hook.Shutdown, AfterShutdown], ShuttingDown, Stopped);
    ShutdownTells(registry, fails, SHUTDOWN, order, w, w', report);
  }
}
