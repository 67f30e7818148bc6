/** Until a task first suspends, nothing behind which a target suspends has been resolved. */
module ContainerSuspending {
  import opened Wrappers
  import opened ContainerValidation
  import opened ContainerTrails
  import opened ContainerResolver
  import opened ContainerInterleaving
  import opened ContainerVerdicts
  import opened ContainerTermination
  import opened ContainerDeadlock
  import opened ContainerScheduling

  ghost predicate LightArgs(reg: Registry, f: Frame) {
    f.pc.Building? && f.ty in reg && reg[f.ty].provider.Target? ==>
      var params := reg[f.ty].provider.params;
      forall i :: 0 <= i < |f.args| && i < |params| && params[i].annotation.Some? ==>
        !Hangs(reg, params[i].annotation.value)
  }

  ghost predicate LightTask(reg: Registry, t: Task) {
    && (forall j :: 0 <= j < |t.stack| ==> LightArgs(reg, t.stack[j]))
    && (t.reply.Some? ==> !Hangs(reg, Asked(reg, t)))
  }

  ghost predicate LightCaches(reg: Registry, s: State) {
    && (forall ty :: ty in s.singletons ==> !Hangs(reg, ty))
    && (forall key :: key in s.scoped ==> !Hangs(reg, key.1))
  }

  ghost predicate Light(reg: Registry, s: State, k: nat) {
    k in s.tasks && LightTask(reg, s.tasks[k]) && LightCaches(reg, s)
  }

  lemma NothingToAsk(reg: Registry, ty: Interface)
    requires ty !in reg || !reg[ty].provider.Target?
    ensures !Hangs(reg, ty)
  {
    if Hangs(reg, ty) {
      var b := HangsFirst(reg, ty);
    }
  }

  /** A construction that ends here, with what it has collected, has asked for nothing that hangs. */
  lemma EndsLight(reg: Registry, f: Frame)
    requires LightArgs(reg, f) && f.pc.Building? && f.ty in reg && reg[f.ty].provider.Target?
    requires !(Suspends(reg, f.ty) && Verdict0(reg, f.ty) == Fine)
    requires var params := reg[f.ty].provider.params;
             |f.args| < |params| ==>
               && !Passes(reg, params[|f.args|])
               && (params[|f.args|].annotation.Some? ==> !Hangs(reg, params[|f.args|].annotation.value))
    ensures !Hangs(reg, f.ty)
  {
    if Hangs(reg, f.ty) {
      var b := HangsFirst(reg, f.ty);
    }
  }

  lemma ReturnLight(reg: Registry, s: State, k: nat, reply: Reply)
    requires Unfinished(s, k) && StackOk(reg, s.tasks[k]) && TaskTells(reg, true, s.tasks[k])
    requires Light(reg, s, k) && !Hangs(reg, Top(s.tasks[k]).ty)
    ensures Light(reg, Return(s, k, reply), k)
  {
    var t := s.tasks[k];
    var n := |t.stack|;
    if n >= 2 {
      assert Awaits(reg, t.stack[n - 2], t.stack[n - 1].ty);
    }
    assert Asked(reg, t.(stack := Below(t), reply := Some(reply))) == Top(t).ty;
  }

  lemma FinishLight(reg: Registry, s: State, k: nat, reply: Reply)
    requires Unfinished(s, k) && StackOk(reg, s.tasks[k]) && TaskTells(reg, true, s.tasks[k])
    requires Light(reg, s, k) && !Hangs(reg, Top(s.tasks[k]).ty)
    ensures Light(reg, Finish(reg, s, k, reply), k)
  {
    var ty := Top(s.tasks[k]).ty;
    ReturnLight(reg, if Shared(reg, ty) then s.(holder := s.holder - {ty}) else s, k, reply);
  }

  lemma SetTopLight(reg: Registry, s: State, k: nat, f: Frame)
    requires Unfinished(s, k) && Light(reg, s, k) && LightArgs(reg, f)
    ensures Light(reg, SetTop(s, k, f), k)
  {
  }

  lemma EnterLight(reg: Registry, s: State, k: nat)
    requires Telling(reg, true, s, k) && Light(reg, s, k) && s.tasks[k].reply.None?
    requires Top(s.tasks[k]).ty !in Types(Below(s.tasks[k]))
    ensures Light(reg, Enter(reg, s, k), k)
  {
    var t := s.tasks[k];
    var ty := Top(t).ty;
    if ty !in reg {
      NothingToAsk(reg, ty);
      ReturnLight(reg, s, k, Raise(Resolution));
    } else if reg[ty].lifetime == Singleton && ty in s.singletons {
      ReturnLight(reg, s, k, Value(s.singletons[ty]));
    } else if reg[ty].lifetime == Scoped && (t.scope, ty) in s.scoped {
      ReturnLight(reg, s, k, Value(s.scoped[(t.scope, ty)]));
    } else if reg[ty].provider.Instance? {
      NothingToAsk(reg, ty);
      ReturnLight(reg, s, k, Value(Ready(ty)));
    } else if reg[ty].lifetime == Singleton {
      SetTopLight(reg, s, k, Frame(ty, Waiting, []));
    } else {
      SetTopLight(reg, s, k, Frame(ty, Building, []));
    }
  }

  lemma AcquireLight(reg: Registry, s: State, k: nat)
    requires Telling(reg, true, s, k) && Light(reg, s, k)
    ensures Light(reg, Acquire(s, k), k)
  {
    var ty := Top(s.tasks[k]).ty;
    if ty in s.singletons {
      ReturnLight(reg, s, k, Value(s.singletons[ty]));
    } else {
      SetTopLight(reg, s.(holder := s.holder[ty := k]), k, Frame(ty, Building, []));
    }
  }

  lemma StoreLight(reg: Registry, s: State, k: nat, scope: nat, ty: Interface, o: Obj)
    requires Light(reg, s, k) && ty in reg && !Hangs(reg, ty)
    ensures Light(reg, Store(reg, s, scope, ty, o), k) && Store(reg, s, scope, ty, o).tasks == s.tasks
  {
  }

  lemma ConstructLight(reg: Registry, s: State, k: nat)
    requires Telling(reg, true, s, k) && Light(reg, s, k) && Top(s.tasks[k]).pc.Building?
    requires AtTarget(reg, s, k) && !Suspended(reg, s, k)
    ensures Light(reg, Construct(reg, s, k, Succeeds), k)
  {
    var t := s.tasks[k];
    var f := Top(t);
    assert FrameOk(reg, t.stack[|t.stack| - 1]);
    EndsLight(reg, f);
    var o := Made(s.nextId, f.ty, f.args);
    StoreLight(reg, s, k, t.scope, f.ty, o);
    FinishLight(reg, Store(reg, s, t.scope, f.ty, o), k, Value(o));
  }

  lemma BuildLight(reg: Registry, s: State, k: nat)
    requires Telling(reg, true, s, k) && Light(reg, s, k) && Top(s.tasks[k]).pc.Building?
    requires s.tasks[k].reply.None? && Top(s.tasks[k]).ty in reg && !Suspended(reg, s, k)
    ensures Light(reg, Build(reg, s, k, Succeeds), k)
  {
    var t := s.tasks[k];
    var f := Top(t);
    assert FrameOk(reg, t.stack[|t.stack| - 1]);
    match reg[f.ty].provider
    case Instance =>
    case NoTarget =>
      NothingToAsk(reg, f.ty);
      FinishLight(reg, s, k, Raise(Resolution));
    case Target(params, _) =>
      if |f.args| >= |params| {
        ConstructLight(reg, s, k);
      } else if params[|f.args|].annotation.None? {
        ErrorTells(reg, f);
        EndsLight(reg, f);
        FinishLight(reg, s, k, Raise(Resolution));
      }
  }

  lemma ReceiveLight(reg: Registry, s: State, k: nat, reply: Reply)
    requires Telling(reg, true, s, k) && Light(reg, s, k) && s.tasks[k].reply == Some(reply)
    requires Top(s.tasks[k]).ty in reg
    ensures Light(reg, Receive(reg, s, k, reply), k)
  {
    var f := Top(s.tasks[k]);
    assert AwaitsSome(reg, f) && LightArgs(reg, f) && FrameTells(reg, true, f);
    assert ReplyTells(true, Verdict0(reg, Asked(reg, s.tasks[k])), reply);
    match reply
    case Value(o) => SetTopLight(reg, s, k, f.(args := f.args + [Injected(o)]));
    case Raise(e) =>
      if e == Resolution && AwaitsDefault(reg, f) {
        SetTopLight(reg, s, k, f.(args := f.args + [Defaulted]));
      } else {
        ErrorTells(reg, f);
        EndsLight(reg, f);
        FinishLight(reg, s, k, Raise(e));
      }
  }

  /** A step that completes no suspending target, and does not meet its own chain, keeps it so. */
  lemma StepLight(reg: Registry, s: State, k: nat)
    requires Telling(reg, true, s, k) && Light(reg, s, k) && !Suspended(reg, s, k)
    requires Top(s.tasks[k]).ty !in Types(Below(s.tasks[k]))
    ensures Light(reg, AdvanceTask(reg, s, k, Succeeds), k)
  {
    var t := s.tasks[k];
    assert FrameOk(reg, t.stack[|t.stack| - 1]);
    if t.reply.Some? {
      ReceiveLight(reg, s, k, t.reply.value);
    } else {
      match Top(t).pc
      case Entering => EnterLight(reg, s, k);
      case Waiting => AcquireLight(reg, s, k);
      case Building => BuildLight(reg, s, k);
    }
  }

  // ----- a task alone

  /** The only task, in a run of the event loop in which no constructor has raised or suspended. */
  ghost predicate Alone(reg: Registry, events: seq<Event>, s: State) {
    && LoopRun(reg, events) && CalmRun(events) && After(reg, events) == Some(s)
    && Inv(reg, s) && AllTell(reg, true, s) && s.tasks.Keys == {0}
    && (Runner(events) == None || Runner(events) == Some(0)) && Light(reg, s, 0)
  }

  lemma AloneAdvances(reg: Registry, events: seq<Event>, s: State)
    requires Alone(reg, events, s) && Unfinished(s, 0)
    ensures Schedulable(reg, events, s, 0)
  {
    var t := s.tasks[0];
    assert FrameOk(reg, t.stack[|t.stack| - 1]);
    if !CanAdvance(s, 0) {
      HeldByOther(reg, s, 0);
    }
    forall m
      ensures !WaitsLonger(events, s, m, 0, Top(t).ty)
    {
      assert m in s.tasks.Keys ==> m == 0;
    }
  }

  /** One step of a task that is alone. */
  lemma AloneSteps(reg: Registry, events: seq<Event>, s: State) returns (s': State)
    requires Alone(reg, events, s) && Unfinished(s, 0) && !Suspended(reg, s, 0)
    requires Top(s.tasks[0]).ty !in Types(Below(s.tasks[0]))
    ensures CanAdvance(s, 0) && s' == AdvanceTask(reg, s, 0, Succeeds)
    ensures Alone(reg, events + [Advance(0, Succeeds)], s') && UsesUp(reg, s, s', 0)
  {
    var e := Advance(0, Succeeds);
    AloneAdvances(reg, events, s);
    s' := AdvanceTask(reg, s, 0, Succeeds);
    LoopOneMore(reg, events, s, e);
    StepInv(reg, s, e);
    StepTells(reg, true, s, e);
    AdvanceWork(reg, s, 0, Succeeds);
    StepLight(reg, s, 0);
  }

  lemma AloneAtFirst(reg: Registry, root: Interface, scope: nat) returns (s: State)
    ensures Alone(reg, [Spawn(0, root, scope)], s)
    ensures s.tasks[0] == Task(root, scope, [Frame(root, Entering, [])], None)
  {
    var e := Spawn(0, root, scope);
    RunInv(reg, []);
    RunTells(reg, true, []);
    LoopOneMore(reg, [], INITIAL, e);
    StepInv(reg, INITIAL, e);
    StepTells(reg, true, INITIAL, e);
    s := Apply(reg, INITIAL, e);
    assert [] + [e] == [e];
  }
}
