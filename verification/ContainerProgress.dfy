/** Concurrent resolutions can always be brought to an end where they cannot deadlock. */
module ContainerProgress {
  import opened Wrappers
  import opened ContainerValidation
  import opened ContainerTrails
  import opened ContainerResolver
  import opened ContainerInterleaving
  import opened ContainerVerdicts
  import opened ContainerTermination
  import opened ContainerDeadlock
  import opened ContainerScheduling

  /** What the tasks with numbers below `n` have left. */
  function TotalWork(reg: Registry, tasks: map<nat, Task>, n: nat): nat {
    if n == 0 then 0
    else TotalWork(reg, tasks, n - 1) + if n - 1 in tasks then TaskWork(reg, tasks[n - 1]) else 0
  }

  lemma {:induction false} TotalDrops(reg: Registry, s: State, s': State, k: nat, n: nat)
    requires UsesUp(reg, s, s', k)
    ensures if k < n then TotalWork(reg, s'.tasks, n) < TotalWork(reg, s.tasks, n)
            else TotalWork(reg, s'.tasks, n) == TotalWork(reg, s.tasks, n)
  {
    if n > 0 {
      TotalDrops(reg, s, s', k, n - 1);
    }
  }

  lemma {:induction false} Bound(ks: set<nat>) returns (n: nat)
    ensures forall k :: k in ks ==> k < n
  {
    if ks == {} {
      n := 0;
    } else {
      var k :| k in ks;
      var m := Bound(ks - {k});
      n := if k < m then m else k + 1;
      assert forall x :: x in ks ==> x == k || x in ks - {k};
    }
  }

  ghost predicate Settled(s: State) {
    forall k :: !Unfinished(s, k)
  }

  /** The run cannot deadlock: no request is for an interface with a cyclic verdict; or no constructor
      raises and no two singletons need each other; or it is a run of the event loop, and nothing
      suspends, or no constructor raises and there is no tangle. */
  ghost predicate Safe(reg: Registry, events: seq<Event>, loop: bool) {
    && After(reg, events).Some? && (loop ==> LoopRun(reg, events))
    && (|| ClearRoots(reg, After(reg, events).value)
        || (CalmRun(events) && !Knotted(reg))
        || (loop && (NothingSuspends(reg) || (CalmRun(events) && !Tangled(reg)))))
  }

  lemma SafeAdvances(reg: Registry, events: seq<Event>, loop: bool)
    requires Safe(reg, events, loop)
    ensures !Deadlocked(After(reg, events).value)
  {
    var s := After(reg, events).value;
    if Deadlocked(s) {
      if ClearRoots(reg, s) {
        var k :| Unfinished(s, k);
        NoDeadlock(reg, events, k);
      } else if CalmRun(events) && !Knotted(reg) {
        OnlyKnotsDeadlock(reg, events);
      } else if NothingSuspends(reg) {
        NothingSuspendsNoDeadlock(reg, events);
      } else {
        DeadlockIsTangle(reg, events);
      }
    }
  }

  lemma {:induction false} FinishAll(reg: Registry, events: seq<Event>, loop: bool, n: nat) returns (more: seq<Event>)
    requires Safe(reg, events, loop)
    requires forall k :: k in After(reg, events).value.tasks ==> k < n
    ensures Finishes(reg, events, loop, more)
    decreases TotalWork(reg, After(reg, events).value.tasks, n)
  {
    var s := After(reg, events).value;
    if Settled(s) {
      more := [];
      assert events + more == events;
    } else {
      var e := GoOn(reg, events, loop, n);
      var rest := FinishAll(reg, events + [e], loop, n);
      more := [e] + rest;
      FinishesWith(reg, events, loop, e, rest);
    }
  }

  ghost predicate Finishes(reg: Registry, events: seq<Event>, loop: bool, more: seq<Event>) {
    && OnlyGoesOn(more) && After(reg, events + more).Some? && Settled(After(reg, events + more).value)
    && (loop ==> LoopRun(reg, events + more))
  }

  lemma FinishesWith(reg: Registry, events: seq<Event>, loop: bool, e: Event, rest: seq<Event>)
    requires Finishes(reg, events + [e], loop, rest) && e.Advance? && e.call.Succeeds?
    ensures Finishes(reg, events, loop, [e] + rest)
  {
    Regroup(events, e, rest);
  }

  lemma Regroup(events: seq<Event>, e: Event, rest: seq<Event>)
    ensures events + ([e] + rest) == events + [e] + rest
  {
  }

  /** Events that only go on with tasks that are there; no constructor raises. */
  ghost predicate OnlyGoesOn(events: seq<Event>) {
    forall e :: e in events ==> e.Advance? && e.call.Succeeds?
  }

  /** As long as a task is unfinished there is a step that leaves less to do. */
  lemma GoOn(reg: Registry, events: seq<Event>, loop: bool, n: nat) returns (e: Event)
    requires Safe(reg, events, loop) && !Settled(After(reg, events).value)
    requires forall k :: k in After(reg, events).value.tasks ==> k < n
    ensures e.Advance? && e.call.Succeeds? && Safe(reg, events + [e], loop)
    ensures forall k :: k in After(reg, events + [e]).value.tasks ==> k < n
    ensures TotalWork(reg, After(reg, events + [e]).value.tasks, n) < TotalWork(reg, After(reg, events).value.tasks, n)
  {
    var s := After(reg, events).value;
    SafeAdvances(reg, events, loop);
    var m :| CanAdvance(s, m);
    var k := SomeoneSchedulable(reg, events, s, m);
    e := Advance(k, Succeeds);
    AfterOneMore(reg, events, s, e);
    if loop {
      LoopOneMore(reg, events, s, e);
    }
    RunInv(reg, events);
    AdvanceWork(reg, s, k, Succeeds);
    TotalDrops(reg, s, AdvanceTask(reg, s, k, Succeeds), k, n);
    StaysSafe(reg, events, loop, e);
  }

  lemma StaysSafe(reg: Registry, events: seq<Event>, loop: bool, e: Event)
    requires Safe(reg, events, loop) && e.Advance? && Calm(e) && After(reg, events + [e]).Some?
    requires loop ==> LoopRun(reg, events + [e])
    requires UsesUp(reg, After(reg, events).value, After(reg, events + [e]).value, e.task)
    ensures Safe(reg, events + [e], loop)
  {
  }

  /** Where no deadlock can be reached, every run can be continued until all its tasks are finished. */
  lemma EveryRunCanFinish(reg: Registry, events: seq<Event>)
    requires After(reg, events).Some?
    requires ClearRoots(reg, After(reg, events).value) || (CalmRun(events) && !Knotted(reg))
    ensures exists more :: OnlyGoesOn(more) && After(reg, events + more).Some?
                           && Settled(After(reg, events + more).value)
  {
    var n := Bound(After(reg, events).value.tasks.Keys);
    var more := FinishAll(reg, events, false, n);
  }

  /** Every run of the event loop can be continued by the event loop until all its tasks are finished, if
      no request is for an interface with a cyclic verdict, or nothing suspends, or no constructor
      raises and there is no tangle. */
  lemma EveryLoopRunCanFinish(reg: Registry, events: seq<Event>)
    requires LoopRun(reg, events) && After(reg, events).Some?
    requires ClearRoots(reg, After(reg, events).value) || NothingSuspends(reg) || (CalmRun(events) && !Tangled(reg))
    ensures exists more :: OnlyGoesOn(more) && LoopRun(reg, events + more) && After(reg, events + more).Some?
                           && Settled(After(reg, events + more).value)
  {
    var n := Bound(After(reg, events).value.tasks.Keys);
    var more := FinishAll(reg, events, true, n);
  }
}
