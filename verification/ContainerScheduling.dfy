/** The runs that an event loop allows: a task keeps control until it is finished, waits for a lock, or
    suspends in a target, and locks are handed out first come, first served. */
module ContainerScheduling {
  import opened Wrappers
  import opened ContainerValidation
  import opened ContainerTrails
  import opened ContainerResolver
  import opened ContainerInterleaving
  import opened ContainerVerdicts
  import opened ContainerTermination
  import opened ContainerDeadlock

  // ----- who may go on

  /** The task has all arguments together and is about to get the object from its target. */
  predicate AtTarget(reg: Registry, s: State, k: nat) {
    && Unfinished(s, k) && s.tasks[k].reply.None? && Top(s.tasks[k]).pc.Building?
    && Top(s.tasks[k]).ty in reg && reg[Top(s.tasks[k]).ty].provider.Target?
    && |Top(s.tasks[k]).args| >= |reg[Top(s.tasks[k]).ty].provider.params|
  }

  predicate Suspended(reg: Registry, s: State, k: nat) {
    AtTarget(reg, s, k) && Suspends(reg, Top(s.tasks[k]).ty)
  }

  /** When the task was last advanced; -1 if it never was. */
  function LastStep(events: seq<Event>, k: nat): (n: int)
    ensures -1 <= n < |events|
  {
    if events == [] then -1
    else
      var n := |events| - 1;
      if events[n].Advance? && events[n].task == k then n else LastStep(events[..n], k)
  }

  /** The task that was advanced last has control, unless it has let go. */
  function Runner(events: seq<Event>): Option<nat> {
    if events == [] then None
    else
      var n := |events| - 1;
      if events[n].Advance? then Some(events[n].task) else Runner(events[..n])
  }

  predicate Waits(s: State, k: nat, ty: Interface) {
    Unfinished(s, k) && s.tasks[k].reply.None? && Top(s.tasks[k]).pc.Waiting? && Top(s.tasks[k]).ty == ty
  }

  ghost predicate WaitsLonger(events: seq<Event>, s: State, m: nat, k: nat, ty: Interface) {
    m != k && Waits(s, m, ty) && LastStep(events, m) < LastStep(events, k)
  }

  /** The task waits for a lock that is held, or that another task has been waiting for longer. */
  ghost predicate Queued(events: seq<Event>, s: State, k: nat) {
    && Unfinished(s, k) && Waits(s, k, Top(s.tasks[k]).ty)
    && (Top(s.tasks[k]).ty in s.holder || exists m :: WaitsLonger(events, s, m, k, Top(s.tasks[k]).ty))
  }

  ghost predicate LetsGo(reg: Registry, events: seq<Event>, s: State, k: nat) {
    !Unfinished(s, k) || Suspended(reg, s, k) || Queued(events, s, k)
  }

  ghost predicate Schedulable(reg: Registry, events: seq<Event>, s: State, k: nat) {
    && CanAdvance(s, k) && !Queued(events, s, k)
    && (Runner(events).Some? && Runner(events).value != k ==> LetsGo(reg, events, s, Runner(events).value))
  }

  /** Every event was possible under an event loop. */
  ghost predicate LoopRun(reg: Registry, events: seq<Event>) {
    if events == [] then true
    else
      var n := |events| - 1;
      && LoopRun(reg, events[..n]) && After(reg, events[..n]).Some?
      && (events[n].Advance? ==> Schedulable(reg, events[..n], After(reg, events[..n]).value, events[n].task))
  }

  lemma AfterOneMore(reg: Registry, events: seq<Event>, s: State, e: Event)
    requires After(reg, events) == Some(s) && Enabled(s, e)
    ensures After(reg, events + [e]) == Some(Apply(reg, s, e))
  {
    assert (events + [e])[..|events|] == events;
  }

  lemma LoopOneMore(reg: Registry, events: seq<Event>, s: State, e: Event)
    requires LoopRun(reg, events) && After(reg, events) == Some(s) && Enabled(s, e)
    requires e.Advance? ==> Schedulable(reg, events, s, e.task)
    ensures LoopRun(reg, events + [e]) && After(reg, events + [e]) == Some(Apply(reg, s, e))
    ensures Runner(events + [e]) == if e.Advance? then Some(e.task) else Runner(events)
  {
    AfterOneMore(reg, events, s, e);
    RunnerNow(events, e);
    LoopExtends(reg, events, e, events + [e]);
  }

  lemma RunnerNow(events: seq<Event>, e: Event)
    ensures Runner(events + [e]) == if e.Advance? then Some(e.task) else Runner(events)
  {
    assert (events + [e])[..|events|] == events;
  }

  lemma LoopExtends(reg: Registry, events: seq<Event>, e: Event, longer: seq<Event>)
    requires LoopRun(reg, events) && After(reg, events).Some? && longer == events + [e]
    requires e.Advance? ==> Schedulable(reg, events, After(reg, events).value, e.task)
    ensures LoopRun(reg, longer)
  {
    var n := |longer| - 1;
    assert longer[..n] == events && longer[n] == e;
  }

  /** Where a task can go on, the event loop can have some task go on. */
  lemma SomeoneSchedulable(reg: Registry, events: seq<Event>, s: State, m: nat) returns (k: nat)
    requires CanAdvance(s, m)
    ensures Schedulable(reg, events, s, k)
  {
    if Runner(events).Some? && !LetsGo(reg, events, s, Runner(events).value) {
      k := Runner(events).value;
    } else {
      k := FirstInLine(events, s, m);
    }
  }

  lemma {:induction false} FirstInLine(events: seq<Event>, s: State, m: nat) returns (k: nat)
    requires CanAdvance(s, m)
    ensures CanAdvance(s, k) && !Queued(events, s, k)
    decreases LastStep(events, m) + 1
  {
    if Queued(events, s, m) {
      var n :| WaitsLonger(events, s, n, m, Top(s.tasks[m]).ty);
      k := FirstInLine(events, s, n);
    } else {
      k := m;
    }
  }

  // ----- a task without control comes to suspend

  /** In calm runs: building the type comes to suspend; otherwise: something suspends. */
  ghost predicate Hung(reg: Registry, calm: bool, ty: Interface) {
    if calm then Hangs(reg, ty) else !NothingSuspends(reg)
  }

  ghost predicate StackHung(reg: Registry, calm: bool, t: Task) {
    forall j :: 0 <= j < |t.stack| ==> Hung(reg, calm, t.stack[j].ty)
  }

  /** The task has not begun. */
  predicate Fresh(t: Task) {
    t.stack != [] && Top(t).pc.Entering? && |t.stack| == 1 && t.reply.None?
  }

  ghost predicate IdleHung(reg: Registry, calm: bool, events: seq<Event>, s: State) {
    forall k :: Unfinished(s, k) && Runner(events) != Some(k) ==> Fresh(s.tasks[k]) || StackHung(reg, calm, s.tasks[k])
  }

  /** What hangs further up the stack hangs further down. */
  lemma HungBelow(reg: Registry, calm: bool, t: Task)
    requires StackOk(reg, t) && TaskTells(reg, calm, t) && t.stack != [] && Hung(reg, calm, Top(t).ty)
    ensures StackHung(reg, calm, t)
  {
    if calm {
      StackIsTrail(reg, calm, t);
      var types := TypeSeq(t.stack);
      forall j | 0 <= j < |types|
        ensures Hangs(reg, types[j])
      {
        if j < |types| - 1 {
          PartIsTrail(reg, types, j, |types|);
          assert IsTrailFrom(reg, types[j..|types|], types[j], Top(t).ty);
          HangsThrough(reg, types[j], Top(t).ty);
        }
      }
    }
  }

  lemma SuspendedHangs(reg: Registry, calm: bool, s: State, k: nat)
    requires Inv(reg, s) && AllTell(reg, calm, s) && Suspended(reg, s, k)
    ensures Hung(reg, calm, Top(s.tasks[k]).ty)
  {
    var f := Top(s.tasks[k]);
    if calm {
      AllArgsTell(reg, true, f, Ready(f.ty));
      assert HangsAt(reg, f.ty, f.ty);
    }
  }

  /** A task that builds or waits somewhere is not fresh. */
  lemma QueuedHangs(reg: Registry, calm: bool, events: seq<Event>, s: State, k: nat)
    requires Inv(reg, s) && IdleHung(reg, calm, events, s) && Queued(events, s, k)
    requires Runner(events) == Some(k)
    ensures Hung(reg, calm, Top(s.tasks[k]).ty)
  {
    var t := s.tasks[k];
    var ty := Top(t).ty;
    if ty in s.holder {
      HeldByOther(reg, s, k);
      var m := s.holder[ty];
      var j :| 0 <= j < |s.tasks[m].stack| && s.tasks[m].stack[j].ty == ty && s.tasks[m].stack[j].pc.Building?;
      assert Unfinished(s, m) && !Fresh(s.tasks[m]);
    } else {
      var m :| WaitsLonger(events, s, m, k, ty);
      assert s.tasks[m].stack[|s.tasks[m].stack| - 1].ty == ty;
    }
  }

  lemma HeldByOther(reg: Registry, s: State, k: nat)
    requires Inv(reg, s) && Unfinished(s, k) && Top(s.tasks[k]).pc.Waiting? && Top(s.tasks[k]).ty in s.holder
    ensures s.holder[Top(s.tasks[k]).ty] in s.tasks && s.holder[Top(s.tasks[k]).ty] != k
    ensures Holds(s.tasks[s.holder[Top(s.tasks[k]).ty]], Top(s.tasks[k]).ty)
  {
    var t := s.tasks[k];
    var ty := Top(t).ty;
    TopIsNew(reg, t);
    HoldsSplit(t, ty);
    HoldsBelowNotTop(reg, t);
    assert Shared(reg, ty);
  }

  lemma LetGoHangs(reg: Registry, calm: bool, events: seq<Event>, s: State, k: nat)
    requires Inv(reg, s) && AllTell(reg, calm, s) && IdleHung(reg, calm, events, s)
    requires Unfinished(s, k) && Runner(events) == Some(k) && LetsGo(reg, events, s, k)
    ensures StackHung(reg, calm, s.tasks[k])
  {
    if Suspended(reg, s, k) {
      SuspendedHangs(reg, calm, s, k);
    } else {
      QueuedHangs(reg, calm, events, s, k);
    }
    HungBelow(reg, calm, s.tasks[k]);
  }

  lemma IdleStep(reg: Registry, calm: bool, events: seq<Event>, s: State, e: Event)
    requires Inv(reg, s) && AllTell(reg, calm, s) && IdleHung(reg, calm, events, s)
    requires After(reg, events) == Some(s) && Enabled(s, e)
    requires e.Advance? ==> Schedulable(reg, events, s, e.task)
    ensures IdleHung(reg, calm, events + [e], Apply(reg, s, e))
  {
    var s' := Apply(reg, s, e);
    assert (events + [e])[..|events|] == events;
    if e.Advance? {
      AdvanceWork(reg, s, e.task, e.call);
      OthersStayHung(reg, calm, events, s, s', e.task);
    } else {
      assert Fresh(s'.tasks[e.task]);
    }
  }

  lemma OthersStayHung(reg: Registry, calm: bool, events: seq<Event>, s: State, s': State, k: nat)
    requires Inv(reg, s) && AllTell(reg, calm, s) && IdleHung(reg, calm, events, s)
    requires UsesUp(reg, s, s', k)
    requires Runner(events).Some? && Runner(events).value != k ==> LetsGo(reg, events, s, Runner(events).value)
    ensures forall m :: Unfinished(s', m) && m != k ==> Fresh(s'.tasks[m]) || StackHung(reg, calm, s'.tasks[m])
  {
    forall m | Unfinished(s', m) && m != k
      ensures Fresh(s'.tasks[m]) || StackHung(reg, calm, s'.tasks[m])
    {
      assert s'.tasks[m] == s.tasks[m];
      if Runner(events) == Some(m) {
        LetGoHangs(reg, calm, events, s, m);
      }
    }
  }

  /** In every run of the event loop each task that is neither fresh nor finished and has no control
      comes to suspend with whatever it is at. */
  lemma {:induction false} RunIdleHung(reg: Registry, calm: bool, events: seq<Event>)
    requires LoopRun(reg, events) && After(reg, events).Some? && (calm ==> CalmRun(events))
    ensures IdleHung(reg, calm, events, After(reg, events).value)
  {
    if events != [] {
      var n := |events| - 1;
      assert forall e :: e in events[..n] ==> e in events;
      RunIdleHung(reg, calm, events[..n]);
      RunInv(reg, events[..n]);
      RunTells(reg, calm, events[..n]);
      IdleStep(reg, calm, events[..n], After(reg, events[..n]).value, events[n]);
      assert events[..n] + [events[n]] == events;
    }
  }

  // ----- deadlocks of the event loop

  /** In a deadlock every unfinished task hangs, the one with control included. */
  lemma DeadlockHangs(reg: Registry, calm: bool, events: seq<Event>, k: nat)
    requires LoopRun(reg, events) && After(reg, events).Some? && (calm ==> CalmRun(events))
    requires Deadlocked(After(reg, events).value) && Unfinished(After(reg, events).value, k)
    ensures StackHung(reg, calm, After(reg, events).value.tasks[k])
  {
    var s := After(reg, events).value;
    RunInv(reg, events);
    RunTells(reg, calm, events);
    RunIdleHung(reg, calm, events);
    assert !CanAdvance(s, k);
    if Runner(events) == Some(k) {
      assert Queued(events, s, k);
      LetGoHangs(reg, calm, events, s, k);
    }
  }

  lemma NotHung(reg: Registry, t: Task)
    requires NothingSuspends(reg) && t.stack != []
    ensures !StackHung(reg, false, t)
  {
    assert !Hung(reg, false, t.stack[0].ty);
  }

  /** Where no target suspends the event loop never deadlocks, whatever goes round and whatever
      constructors raise. */
  lemma NothingSuspendsNoDeadlock(reg: Registry, events: seq<Event>)
    requires NothingSuspends(reg) && LoopRun(reg, events) && After(reg, events).Some?
    ensures !Deadlocked(After(reg, events).value)
  {
    var s := After(reg, events).value;
    if Deadlocked(s) {
      var k :| Unfinished(s, k);
      NotHung(reg, s.tasks[k]);
      DeadlockHangs(reg, false, events, k);
    }
  }

  /** A deadlock of the event loop in which no constructor has raised is a tangle. */
  lemma DeadlockIsTangle(reg: Registry, events: seq<Event>)
    requires LoopRun(reg, events) && CalmRun(events) && After(reg, events).Some?
    requires Deadlocked(After(reg, events).value)
    ensures Tangled(reg)
  {
    var s := After(reg, events).value;
    RunInv(reg, events);
    RunTells(reg, true, events);
    var x, y := DeadlockIsKnot(reg, true, s);
    var k :| k in s.tasks && Unfinished(s, k) && Top(s.tasks[k]).ty == x;
    DeadlockHangs(reg, true, events, k);
    assert Hung(reg, true, s.tasks[k].stack[|s.tasks[k].stack| - 1].ty);
  }
}
