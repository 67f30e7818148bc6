/** Two singletons that need each other: exactly when requests for them deadlock in the runs of an event
    loop. */
module ContainerKnots {
  import opened Wrappers
  import opened Sorting
  import opened ContainerValidation
  import opened ContainerTrails
  import opened ContainerResolver
  import opened ContainerInterleaving
  import opened ContainerVerdicts
  import opened ContainerTermination
  import opened ContainerDeadlock
  import opened ContainerScheduling
  import opened ContainerSuspending

  // ----- a task on its way round

  /** The task started at the way's first type, has not got through to its last, and has not met a
      cycle. */
  ghost predicate OnTheWay(c: seq<Interface>, t: Task)
    requires c != []
  {
    && t.stack != [] && t.root == c[0] && t.stack[0].ty == c[0]
    && t.reply != Some(Raise(Circular))
    && forall i :: 0 <= i < |t.stack| && t.stack[i].ty == c[|c| - 1] ==> !t.stack[i].pc.Building?
  }

  /** As long as its types have the verdict "cyclic", the stack follows the way. */
  lemma {:induction false} FollowsWay(reg: Registry, c: seq<Interface>, t: Task, j: nat)
    requires Way(reg, c) && OnTheWay(c, t) && StackOk(reg, t) && Trail(reg, TypeSeq(t.stack))
    requires j < |t.stack| && Verdict0(reg, t.stack[j].ty) == Cyclic
    ensures j < |c| && forall i :: 0 <= i <= j ==> t.stack[i].ty == c[i]
  {
    if j > 0 {
      var types := TypeSeq(t.stack);
      assert Asks(reg, types[j - 1], types[j]);
      if Verdict0(reg, types[j - 1]) != Cyclic {
        AskedStaysClear(reg, types[j - 1], types[j]);
      }
      FollowsWay(reg, c, t, j - 1);
      assert Awaits(reg, t.stack[j - 1], t.stack[j].ty);
      assert j - 1 < |c| - 1;
      assert Asks(reg, c[j - 1], c[j]);
      OneCyclicRequest(reg, c[j - 1], c[j], types[j]);
    }
  }

  /** The task waits for the last type of the way, or for a lock that is taken. */
  ghost predicate Arrived(c: seq<Interface>, s: State, k: nat)
    requires c != []
  {
    && Unfinished(s, k) && s.tasks[k].reply.None? && Top(s.tasks[k]).pc.Waiting?
    && (Top(s.tasks[k]).ty == c[|c| - 1] || Top(s.tasks[k]).ty in s.holder)
  }

  ghost predicate Driving(reg: Registry, c: seq<Interface>, s: State, k: nat) {
    && Way(reg, c) && Inv(reg, s) && AllTell(reg, true, s)
    && k in s.tasks && OnTheWay(c, s.tasks[k])
  }

  lemma NoRepeatOnTheWay(reg: Registry, c: seq<Interface>, s: State, k: nat)
    requires Driving(reg, c, s, k)
    ensures Top(s.tasks[k]).ty !in Types(Below(s.tasks[k]))
  {
    var t := s.tasks[k];
    StackIsTrail(reg, true, t);
    if Top(t).ty in Types(Below(t)) {
      RepeatedIsCyclic(reg, t);
      FollowsWay(reg, c, t, |t.stack| - 1);
    }
  }

  /** What a step makes of the task, but for the reply it may end with. */
  ghost predicate KeepsGoing(reg: Registry, c: seq<Interface>, t: Task, t': Task)
    requires c != []
  {
    && t'.root == t.root && (t'.stack != [] ==> t'.stack[0].ty == c[0])
    && t'.reply != Some(Raise(Circular))
    && forall i :: 0 <= i < |t'.stack| && t'.stack[i].ty == c[|c| - 1] ==> !t'.stack[i].pc.Building?
  }

  lemma ReturnKeeps(reg: Registry, c: seq<Interface>, t: Task, reply: Reply)
    requires c != [] && OnTheWay(c, t) && reply != Raise(Circular)
    ensures KeepsGoing(reg, c, t, t.(stack := Below(t), reply := Some(reply)))
  {
  }

  lemma SetTopKeeps(reg: Registry, c: seq<Interface>, t: Task, f: Frame)
    requires c != [] && OnTheWay(c, t) && f.ty == Top(t).ty
    requires f.pc.Building? ==> f.ty != c[|c| - 1]
    ensures KeepsGoing(reg, c, t, t.(stack := Below(t) + [f], reply := None))
  {
  }

  lemma PushKeeps(reg: Registry, c: seq<Interface>, t: Task, ty: Interface)
    requires c != [] && OnTheWay(c, t)
    ensures KeepsGoing(reg, c, t, t.(stack := t.stack + [Frame(ty, Entering, [])]))
  {
  }

  lemma EnterKeeps(reg: Registry, c: seq<Interface>, s: State, k: nat)
    requires |c| > 0 && Unfinished(s, k) && OnTheWay(c, s.tasks[k])
    requires Shared(reg, c[|c| - 1]) && Top(s.tasks[k]).ty !in Types(Below(s.tasks[k]))
    ensures KeepsGoing(reg, c, s.tasks[k], Enter(reg, s, k).tasks[k])
  {
    var t := s.tasks[k];
    var ty := Top(t).ty;
    if ty !in reg {
      ReturnKeeps(reg, c, t, Raise(Resolution));
    } else if reg[ty].lifetime == Singleton && ty in s.singletons {
      ReturnKeeps(reg, c, t, Value(s.singletons[ty]));
    } else if reg[ty].lifetime == Scoped && (t.scope, ty) in s.scoped {
      ReturnKeeps(reg, c, t, Value(s.scoped[(t.scope, ty)]));
    } else if reg[ty].provider.Instance? {
      ReturnKeeps(reg, c, t, Value(Ready(ty)));
    } else if reg[ty].lifetime == Singleton {
      SetTopKeeps(reg, c, t, Frame(ty, Waiting, []));
    } else {
      SetTopKeeps(reg, c, t, Frame(ty, Building, []));
    }
  }

  lemma AcquireKeeps(reg: Registry, c: seq<Interface>, s: State, k: nat)
    requires |c| > 0 && Unfinished(s, k) && OnTheWay(c, s.tasks[k]) && Top(s.tasks[k]).ty != c[|c| - 1]
    ensures KeepsGoing(reg, c, s.tasks[k], Acquire(s, k).tasks[k])
  {
    var t := s.tasks[k];
    var ty := Top(t).ty;
    if ty in s.singletons {
      ReturnKeeps(reg, c, t, Value(s.singletons[ty]));
    } else {
      SetTopKeeps(reg, c, t, Frame(ty, Building, []));
    }
  }

  lemma BuildKeeps(reg: Registry, c: seq<Interface>, s: State, k: nat)
    requires |c| > 0 && Unfinished(s, k) && OnTheWay(c, s.tasks[k]) && Top(s.tasks[k]).ty in reg
    ensures KeepsGoing(reg, c, s.tasks[k], Build(reg, s, k, Succeeds).tasks[k])
  {
    var t := s.tasks[k];
    var f := Top(t);
    match reg[f.ty].provider
    case Instance =>
    case NoTarget => ReturnKeeps(reg, c, t, Raise(Resolution));
    case Target(params, _) =>
      if |f.args| >= |params| {
        ReturnKeeps(reg, c, t, Value(Made(s.nextId, f.ty, f.args)));
        ConstructTask(reg, s, k);
      } else if params[|f.args|].annotation.None? {
        ReturnKeeps(reg, c, t, Raise(Resolution));
      } else {
        PushKeeps(reg, c, t, params[|f.args|].annotation.value);
      }
  }

  lemma ReceiveKeeps(reg: Registry, c: seq<Interface>, s: State, k: nat, reply: Reply)
    requires |c| > 0 && Unfinished(s, k) && OnTheWay(c, s.tasks[k]) && Top(s.tasks[k]).ty in reg
    requires s.tasks[k].reply == Some(reply) && Top(s.tasks[k]).pc.Building?
    ensures KeepsGoing(reg, c, s.tasks[k], Receive(reg, s, k, reply).tasks[k])
  {
    var t := s.tasks[k];
    var f := Top(t);
    assert t.stack[|t.stack| - 1] == f;
    match reply
    case Value(o) => SetTopKeeps(reg, c, t, f.(args := f.args + [Injected(o)]));
    case Raise(e) =>
      SetTopKeeps(reg, c, t, f.(args := f.args + [Defaulted]));
      ReturnKeeps(reg, c, t, Raise(e));
  }

  lemma ArrivedOrOn(reg: Registry, c: seq<Interface>, s: State, k: nat)
    requires Driving(reg, c, s, k) && !Arrived(c, s, k)
    ensures CanAdvance(s, k)
  {
  }

  lemma AdvanceKeeps(reg: Registry, c: seq<Interface>, s: State, k: nat, s': State)
    requires Driving(reg, c, s, k) && !Arrived(c, s, k) && CanAdvance(s, k)
    requires s' == AdvanceTask(reg, s, k, Succeeds) && k in s'.tasks
    ensures KeepsGoing(reg, c, s.tasks[k], s'.tasks[k])
  {
    var t := s.tasks[k];
    assert FrameOk(reg, t.stack[|t.stack| - 1]);
    if t.reply.Some? {
      assert AwaitsSome(reg, Top(t));
      ReceiveKeeps(reg, c, s, k, t.reply.value);
    } else {
      match Top(t).pc
      case Entering =>
        NoRepeatOnTheWay(reg, c, s, k);
        EnterKeeps(reg, c, s, k);
      case Waiting => AcquireKeeps(reg, c, s, k);
      case Building => BuildKeeps(reg, c, s, k);
    }
  }

  /** The task cannot be finished: it would have told a cycle. */
  lemma StaysOnTheWay(reg: Registry, c: seq<Interface>, t: Task, t': Task)
    requires Way(reg, c) && OnTheWay(c, t) && KeepsGoing(reg, c, t, t') && TaskTells(reg, true, t')
    ensures OnTheWay(c, t')
  {
    assert Verdict0(reg, c[0]) == Cyclic;
  }

  /** Until it has arrived, a task on the way can go on, and stays on the way. */
  lemma StepOnTheWay(reg: Registry, c: seq<Interface>, s: State, k: nat)
    requires Driving(reg, c, s, k) && !Arrived(c, s, k)
    ensures CanAdvance(s, k)
    ensures Driving(reg, c, AdvanceTask(reg, s, k, Succeeds), k)
    ensures UsesUp(reg, s, AdvanceTask(reg, s, k, Succeeds), k)
  {
    var e := Advance(k, Succeeds);
    ArrivedOrOn(reg, c, s, k);
    AdvanceWork(reg, s, k, Succeeds);
    AdvanceKeeps(reg, c, s, k, AdvanceTask(reg, s, k, Succeeds));
    StepInv(reg, s, e);
    StepTells(reg, true, s, e);
    NextDriving(reg, c, s, AdvanceTask(reg, s, k, Succeeds), k);
  }

  lemma NextDriving(reg: Registry, c: seq<Interface>, s: State, s': State, k: nat)
    requires Driving(reg, c, s, k) && Inv(reg, s') && AllTell(reg, true, s') && k in s'.tasks
    requires KeepsGoing(reg, c, s.tasks[k], s'.tasks[k])
    ensures Driving(reg, c, s', k)
  {
    StaysOnTheWay(reg, c, s.tasks[k], s'.tasks[k]);
  }

  // ----- the first task comes to suspend

  /** A task alone that has arrived has been through the whole way, and asked for everything that is
      asked for before. */
  lemma AlonePausesFirst(reg: Registry, events: seq<Event>, c: seq<Interface>, s: State, j: nat, t: Interface)
    requires Alone(reg, events, s) && Driving(reg, c, s, 0) && j < |c| - 1 && PausesAt(reg, c[j], t)
    ensures !Arrived(c, s, 0)
  {
    if Arrived(c, s, 0) {
      var task := s.tasks[0];
      var last := |task.stack| - 1;
      AloneAdvances(reg, events, s);
      StackIsTrail(reg, true, task);
      FollowsWay(reg, c, task, last);
      assert last == |c| - 1;
      assert Awaits(reg, task.stack[j], task.stack[j + 1].ty);
      CollectedBefore(reg, task.stack[j], c[j + 1], t);
    }
  }

  /** What is asked for before the request that goes round has been collected when that one is made. */
  lemma CollectedBefore(reg: Registry, f: Frame, b: Interface, t: Interface)
    requires FrameTells(reg, true, f) && Awaits(reg, f, b) && Verdict0(reg, b) == Cyclic && PausesAt(reg, f.ty, t)
    ensures !LightArgs(reg, f)
  {
    var params := reg[f.ty].provider.params;
    AsksNext(reg, true, f, b);
    var i :| 0 <= i < |params| && AsksAt(reg, params, i, t);
    CyclicRequestIsLast(reg, params, i, t, |f.args|, b);
  }

  /** A task alone on a way with a pause comes to suspend before its end. */
  lemma {:induction false} ComesToSuspend(reg: Registry, events: seq<Event>, c: seq<Interface>, s: State, j: nat,
                                          t: Interface)
      returns (run: seq<Event>, s': State)
    requires Alone(reg, events, s) && Driving(reg, c, s, 0) && j < |c| - 1 && PausesAt(reg, c[j], t)
    ensures Alone(reg, run, s') && Driving(reg, c, s', 0) && Suspended(reg, s', 0)
    decreases TaskWork(reg, s.tasks[0])
  {
    if Suspended(reg, s, 0) {
      run, s' := events, s;
    } else {
      AlonePausesFirst(reg, events, c, s, j, t);
      NoRepeatOnTheWay(reg, c, s, 0);
      StepOnTheWay(reg, c, s, 0);
      var s1 := AloneSteps(reg, events, s);
      run, s' := ComesToSuspend(reg, events + [Advance(0, Succeeds)], c, s1, j, t);
    }
  }

  // ----- the second task takes its lock

  /** A run of the event loop in which no constructor raises, and where it has come to. */
  ghost predicate Running(reg: Registry, run: seq<Event>, s: State) {
    && LoopRun(reg, run) && CalmRun(run) && After(reg, run) == Some(s)
    && Inv(reg, s) && AllTell(reg, true, s)
  }

  lemma RunsOn(reg: Registry, run: seq<Event>, s: State, e: Event)
    requires Running(reg, run, s) && Enabled(s, e) && Calm(e)
    requires e.Advance? ==> Schedulable(reg, run, s, e.task)
    ensures Running(reg, run + [e], Apply(reg, s, e))
  {
    LoopOneMore(reg, run, s, e);
    StepInv(reg, s, e);
    StepTells(reg, true, s, e);
  }

  /** Task 1 is at its first call, task 0 is suspended on its way. */
  ghost predicate Second(reg: Registry, run: seq<Event>, c: seq<Interface>, d: seq<Interface>, s: State, pc: Pc) {
    && Running(reg, run, s) && Loop(reg, c, d) && s.tasks.Keys == {0, 1}
    && Driving(reg, c, s, 0) && Suspended(reg, s, 0)
    && s.tasks[1] == Task(d[0], 1, [Frame(d[0], pc, [])], None)
  }

  lemma SecondArrives(reg: Registry, run: seq<Event>, c: seq<Interface>, d: seq<Interface>, s: State)
    requires Alone(reg, run, s) && Driving(reg, c, s, 0) && Suspended(reg, s, 0) && Loop(reg, c, d)
    ensures Second(reg, run + [Spawn(1, d[0], 1)], c, d, Apply(reg, s, Spawn(1, d[0], 1)), Entering)
    ensures Runner(run + [Spawn(1, d[0], 1)]) == Runner(run)
  {
    var e := Spawn(1, d[0], 1);
    assert 1 !in s.tasks.Keys;
    RunsOn(reg, run, s, e);
    RunnerNow(run, e);
    var s' := Apply(reg, s, e);
    assert s'.tasks[0] == s.tasks[0];
  }

  lemma SecondIsFree(reg: Registry, run: seq<Event>, c: seq<Interface>, d: seq<Interface>, s: State, pc: Pc)
    requires Second(reg, run, c, d, s, pc) && !pc.Building?
    requires Runner(run) in {None, Some(0), Some(1)}
    ensures d[0] !in s.holder && d[0] !in s.singletons && Schedulable(reg, run, s, 1)
  {
    var t := s.tasks[0];
    forall j | 0 <= j < |t.stack| && t.stack[j].ty == d[0]
      ensures !t.stack[j].pc.Building?
    {
    }
    assert !Holds(s.tasks[0], d[0]);
    assert !Holds(s.tasks[1], d[0]);
    forall m
      ensures !WaitsLonger(run, s, m, 1, d[0])
    {
      assert m in s.tasks.Keys ==> m == 0 || m == 1;
    }
  }

  lemma SecondEnters(reg: Registry, run: seq<Event>, c: seq<Interface>, d: seq<Interface>, s: State)
    requires Second(reg, run, c, d, s, Entering) && Runner(run) in {None, Some(0)}
    ensures CanAdvance(s, 1)
    ensures Second(reg, run + [Advance(1, Succeeds)], c, d, Enter(reg, s, 1), Waiting)
    ensures Runner(run + [Advance(1, Succeeds)]) == Some(1)
  {
    SecondIsFree(reg, run, c, d, s, Entering);
    assert Below(s.tasks[1]) == [] && Types([]) == {};
    assert Enter(reg, s, 1) == SetTop(s, 1, Frame(d[0], Waiting, []));
    SecondSets(s, d[0], Waiting);
    RunsOn(reg, run, s, Advance(1, Succeeds));
    RunnerNow(run, Advance(1, Succeeds));
    SecondStill(reg, run, run + [Advance(1, Succeeds)], c, d, s, Enter(reg, s, 1), Entering, Waiting);
  }

  lemma SecondStill(reg: Registry, run: seq<Event>, longer: seq<Event>, c: seq<Interface>, d: seq<Interface>, s: State,
                    s': State, pc: Pc, pc': Pc)
    requires Second(reg, run, c, d, s, pc) && Running(reg, longer, s')
    requires s'.tasks == s.tasks[1 := Task(d[0], 1, [Frame(d[0], pc', [])], None)]
    ensures Second(reg, longer, c, d, s', pc')
  {
    DrivingOther(reg, c, s, s', 0);
  }

  lemma SecondSets(s: State, ty: Interface, pc: Pc)
    requires Unfinished(s, 1) && |s.tasks[1].stack| == 1
    ensures SetTop(s, 1, Frame(ty, pc, [])).tasks
         == s.tasks[1 := s.tasks[1].(stack := [Frame(ty, pc, [])], reply := None)]
  {
    assert Below(s.tasks[1]) == [];
    assert [] + [Frame(ty, pc, [])] == [Frame(ty, pc, [])];
  }

  lemma SecondAcquires(reg: Registry, run: seq<Event>, c: seq<Interface>, d: seq<Interface>, s: State)
    requires Second(reg, run, c, d, s, Waiting) && Runner(run) == Some(1)
    ensures CanAdvance(s, 1)
    ensures Second(reg, run + [Advance(1, Succeeds)], c, d, Acquire(s, 1), Building)
  {
    SecondIsFree(reg, run, c, d, s, Waiting);
    SecondSets(s.(holder := s.holder[d[0] := 1]), d[0], Building);
    RunsOn(reg, run, s, Advance(1, Succeeds));
    SecondStill(reg, run, run + [Advance(1, Succeeds)], c, d, s, Acquire(s, 1), Waiting, Building);
  }

  // ----- both hold what the other needs

  /** Both tasks are on their ways, each with its first lock. */
  ghost predicate Gripped(reg: Registry, c: seq<Interface>, d: seq<Interface>, s: State) {
    && Loop(reg, c, d) && s.tasks.Keys == {0, 1}
    && Driving(reg, c, s, 0) && s.tasks[0].stack[0].pc.Building?
    && Driving(reg, d, s, 1) && s.tasks[1].stack[0].pc.Building?
  }

  lemma SecondGrips(reg: Registry, run: seq<Event>, c: seq<Interface>, d: seq<Interface>, s: State)
    requires Second(reg, run, c, d, s, Building)
    ensures Gripped(reg, c, d, s)
  {
    var t := s.tasks[0];
    var f := Top(t);
    AllArgsTell(reg, true, f, Ready(f.ty));
    assert f.ty != c[0];
    assert Awaits(reg, t.stack[0], t.stack[1].ty);
  }

  /** The last type of the way is held by the other task, so one that can go on has not arrived. */
  lemma NotArrived(reg: Registry, c: seq<Interface>, s: State, k: nat, other: nat)
    requires Driving(reg, c, s, k) && CanAdvance(s, k) && other in s.tasks
    requires s.tasks[other].stack != [] && s.tasks[other].stack[0] == Frame(c[|c| - 1], Building, s.tasks[other].stack[0].args)
    ensures !Arrived(c, s, k)
  {
    assert s.tasks[other].stack[0].ty == c[|c| - 1];
    assert Holds(s.tasks[other], c[|c| - 1]);
  }

  /** The first frame of a task that does not finish keeps building. */
  lemma FirstKeepsBuilding(reg: Registry, s: State, k: nat)
    requires Inv(reg, s) && CanAdvance(s, k) && s.tasks[k].stack[0].pc.Building?
    requires k in AdvanceTask(reg, s, k, Succeeds).tasks && AdvanceTask(reg, s, k, Succeeds).tasks[k].stack != []
    ensures AdvanceTask(reg, s, k, Succeeds).tasks[k].stack[0].pc.Building?
  {
    var t := s.tasks[k];
    assert FrameOk(reg, t.stack[|t.stack| - 1]);
    if |t.stack| == 1 {
      if t.reply.None? {
        BuildKeepsFirst(reg, s, k);
      }
    } else {
      LowerKeeps(reg, s, k);
    }
  }

  lemma BuildKeepsFirst(reg: Registry, s: State, k: nat)
    requires Unfinished(s, k) && Top(s.tasks[k]).ty in reg && Top(s.tasks[k]).pc.Building? && |s.tasks[k].stack| == 1
    requires k in Build(reg, s, k, Succeeds).tasks && Build(reg, s, k, Succeeds).tasks[k].stack != []
    ensures Build(reg, s, k, Succeeds).tasks[k].stack[0].pc.Building?
  {
    if reg[Top(s.tasks[k]).ty].provider.Target? {
      ConstructTask(reg, s, k);
    }
  }

  lemma LowerKeeps(reg: Registry, s: State, k: nat)
    requires Inv(reg, s) && CanAdvance(s, k) && |s.tasks[k].stack| > 1 && k in AdvanceTask(reg, s, k, Succeeds).tasks
    ensures AdvanceTask(reg, s, k, Succeeds).tasks[k].stack != []
    ensures AdvanceTask(reg, s, k, Succeeds).tasks[k].stack[0] == s.tasks[k].stack[0]
  {
    var t := s.tasks[k];
    assert FrameOk(reg, t.stack[|t.stack| - 1]);
    if t.reply.Some? {
      ReceiveLower(reg, s, k, t.reply.value);
    } else {
      match Top(t).pc
      case Entering => EnterLower(reg, s, k);
      case Waiting =>
      case Building => BuildLower(reg, s, k);
    }
  }

  ghost predicate KeepsLower(s: State, s': State, k: nat) {
    && Unfinished(s, k) && k in s'.tasks && s'.tasks[k].stack != []
    && s'.tasks[k].stack[0] == s.tasks[k].stack[0]
  }

  lemma ReceiveLower(reg: Registry, s: State, k: nat, reply: Reply)
    requires Unfinished(s, k) && |s.tasks[k].stack| > 1 && Top(s.tasks[k]).ty in reg
    ensures KeepsLower(s, Receive(reg, s, k, reply), k)
  {
  }

  lemma EnterLower(reg: Registry, s: State, k: nat)
    requires Unfinished(s, k) && |s.tasks[k].stack| > 1
    ensures KeepsLower(s, Enter(reg, s, k), k)
  {
  }

  lemma BuildLower(reg: Registry, s: State, k: nat)
    requires Unfinished(s, k) && |s.tasks[k].stack| > 1 && Top(s.tasks[k]).ty in reg
    ensures KeepsLower(s, Build(reg, s, k, Succeeds), k)
  {
    if reg[Top(s.tasks[k]).ty].provider.Target? {
      ConstructLower(reg, s, k);
    }
  }

  lemma ConstructLower(reg: Registry, s: State, k: nat)
    requires Unfinished(s, k) && |s.tasks[k].stack| > 1 && Top(s.tasks[k]).ty in reg
    ensures KeepsLower(s, Construct(reg, s, k, Succeeds), k)
  {
    ConstructTask(reg, s, k);
  }

  lemma GripStays(reg: Registry, c: seq<Interface>, d: seq<Interface>, s: State, k: nat)
    requires Gripped(reg, c, d, s) && CanAdvance(s, k)
    ensures Gripped(reg, c, d, AdvanceTask(reg, s, k, Succeeds))
    ensures UsesUp(reg, s, AdvanceTask(reg, s, k, Succeeds), k)
  {
    assert k in s.tasks.Keys;
    var way := if k == 0 then c else d;
    NotArrived(reg, way, s, k, 1 - k);
    StepOnTheWay(reg, way, s, k);
    FirstKeepsBuilding(reg, s, k);
    OtherStays(reg, c, d, s, AdvanceTask(reg, s, k, Succeeds), k);
  }

  lemma OtherStays(reg: Registry, c: seq<Interface>, d: seq<Interface>, s: State, s': State, k: nat)
    requires Gripped(reg, c, d, s) && UsesUp(reg, s, s', k) && Driving(reg, if k == 0 then c else d, s', k)
    requires s'.tasks[k].stack[0].pc.Building?
    ensures Gripped(reg, c, d, s')
  {
    assert k in s.tasks.Keys;
    if k == 0 {
      DrivingOther(reg, d, s, s', 1);
    } else {
      DrivingOther(reg, c, s, s', 0);
    }
  }

  lemma DrivingOther(reg: Registry, c: seq<Interface>, s: State, s': State, m: nat)
    requires Driving(reg, c, s, m) && Inv(reg, s') && AllTell(reg, true, s')
    requires m in s'.tasks && s'.tasks[m] == s.tasks[m]
    ensures Driving(reg, c, s', m)
  {
  }

  /** From there every run of the event loop can only end in a deadlock. */
  lemma {:induction false} GripDeadlocks(reg: Registry, run: seq<Event>, c: seq<Interface>, d: seq<Interface>, s: State)
    requires Running(reg, run, s) && Gripped(reg, c, d, s)
    ensures exists longer, s' :: Running(reg, longer, s') && Deadlocked(s')
    decreases TaskWork(reg, s.tasks[0]) + TaskWork(reg, s.tasks[1])
  {
    assert Unfinished(s, 0);
    if m :| CanAdvance(s, m) {
      var k := SomeoneSchedulable(reg, run, s, m);
      assert k in s.tasks.Keys;
      GripStays(reg, c, d, s, k);
      RunsOn(reg, run, s, Advance(k, Succeeds));
      LessInAll(reg, s, AdvanceTask(reg, s, k, Succeeds), k);
      GripDeadlocks(reg, run + [Advance(k, Succeeds)], c, d, AdvanceTask(reg, s, k, Succeeds));
    }
  }

  lemma LessInAll(reg: Registry, s: State, s': State, k: nat)
    requires UsesUp(reg, s, s', k) && s.tasks.Keys == {0, 1}
    ensures 0 in s'.tasks && 1 in s'.tasks
    ensures TaskWork(reg, s'.tasks[0]) + TaskWork(reg, s'.tasks[1]) < TaskWork(reg, s.tasks[0]) + TaskWork(reg, s.tasks[1])
  {
    assert k in s.tasks.Keys;
    assert 0 in s'.tasks.Keys && 1 in s'.tasks.Keys;
  }

  /** From a way with a pause the event loop comes to a deadlock. */
  lemma PauseDeadlocks(reg: Registry, c: seq<Interface>, d: seq<Interface>, j: nat, t: Interface)
    requires Loop(reg, c, d) && j < |c| - 1 && PausesAt(reg, c[j], t)
    ensures exists run, s :: Running(reg, run, s) && Deadlocked(s)
  {
    var s0 := AloneAtFirst(reg, c[0], 0);
    assert c[0] != c[|c| - 1];
    var run, s := ComesToSuspend(reg, [Spawn(0, c[0], 0)], c, s0, j, t);
    SecondArrives(reg, run, c, d, s);
    SecondGoesOn(reg, run + [Spawn(1, d[0], 1)], c, d, Apply(reg, s, Spawn(1, d[0], 1)));
  }

  lemma SecondGoesOn(reg: Registry, run: seq<Event>, c: seq<Interface>, d: seq<Interface>, s: State)
    requires Second(reg, run, c, d, s, Entering) && Runner(run) in {None, Some(0)}
    ensures exists longer, s' :: Running(reg, longer, s') && Deadlocked(s')
  {
    SecondEnters(reg, run, c, d, s);
    var run1, s1 := run + [Advance(1, Succeeds)], Enter(reg, s, 1);
    SecondAcquires(reg, run1, c, d, s1);
    var run2, s2 := run1 + [Advance(1, Succeeds)], Acquire(s1, 1);
    SecondGrips(reg, run2, c, d, s2);
    GripDeadlocks(reg, run2, c, d, s2);
  }

  /** For two singletons that need each other, and come to suspend, there is a run of the event loop with
      two requests, without any constructor raising, that ends in a deadlock; alone, each request
      raises an error. */
  lemma KnotDeadlocks(reg: Registry, x: Interface, y: Interface)
    requires Knot(reg, x, y) && Hangs(reg, x)
    ensures Verdict0(reg, x) == Cyclic && Verdict0(reg, y) == Cyclic
    ensures exists run :: LoopRun(reg, run) && CalmRun(run) && After(reg, run).Some?
                          && Deadlocked(After(reg, run).value)
  {
    KnotIsCyclic(reg, x, y);
    var c, d, j, t := TangleHasPause(reg, x, y);
    PauseDeadlocks(reg, c, d, j, t);
    var run, s :| Running(reg, run, s) && Deadlocked(s);
    assert After(reg, run).value == s;
  }

  /** In the runs of an event loop in which no constructor raises, a deadlock can be reached if and only
      if two different singletons need each other and building them comes to suspend. */
  lemma DeadlockExactly(reg: Registry)
    ensures (exists run :: LoopRun(reg, run) && CalmRun(run) && After(reg, run).Some?
                           && Deadlocked(After(reg, run).value))
       <==> Tangled(reg)
  {
    if run :| LoopRun(reg, run) && CalmRun(run) && After(reg, run).Some? && Deadlocked(After(reg, run).value) {
      DeadlockIsTangle(reg, run);
    }
    if x, y :| Knot(reg, x, y) && Hangs(reg, x) {
      KnotDeadlocks(reg, x, y);
    }
  }
}
