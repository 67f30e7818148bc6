/** What concurrent resolutions hand out: every object is assembled from what its parameters resolved
    to. */
module ContainerAssembly {
  import opened Wrappers
  import opened ContainerValidation
  import opened ContainerTrails
  import opened ContainerResolver
  import opened ContainerInterleaving
  import opened ContainerVerdicts

  type Handed = seq<(Interface, Obj)>

  /** The argument is an object that was handed out for the parameter's type, or the default of a
      parameter that has one; and it agrees with the verdict on the type. */
  predicate ArgFits(reg: Registry, calm: bool, handed: Handed, p: Param, arg: Arg) {
    ArgTells(reg, calm, p, arg) && (arg.Injected? ==> (p.annotation.value, arg.obj) in handed)
  }

  ghost predicate ArgsFit(reg: Registry, calm: bool, handed: Handed, params: seq<Param>, args: seq<Arg>) {
    |args| <= |params| && forall k :: 0 <= k < |args| ==> ArgFits(reg, calm, handed, params[k], args[k])
  }

  /** The registered instance, or an object made for the type with one argument for each parameter, in
      order. */
  ghost predicate IsAssembled(reg: Registry, calm: bool, handed: Handed, ty: Interface, o: Obj) {
    && ty in reg
    && match reg[ty].provider
       case Instance => o == Ready(ty)
       case NoTarget => false
       case Target(params, _) =>
         o.Made? && o.ofType == ty && |o.args| == |params| && ArgsFit(reg, calm, handed, params, o.args)
  }

  /** Objects made differ in their number. */
  predicate Numbered(nextId: nat, handed: Handed, o: Obj) {
    o.Made? ==> o.id < nextId && forall h :: h in handed && h.1.Made? && h.1.id == o.id ==> h.1 == o
  }

  ghost predicate FrameFits(reg: Registry, calm: bool, handed: Handed, f: Frame) {
    f.pc.Building? && f.ty in reg && reg[f.ty].provider.Target? ==>
      ArgsFit(reg, calm, handed, reg[f.ty].provider.params, f.args)
  }

  ghost predicate TaskFits(reg: Registry, calm: bool, handed: Handed, t: Task) {
    && (forall j :: 0 <= j < |t.stack| ==> FrameFits(reg, calm, handed, t.stack[j]))
    && (t.reply.Some? && t.reply.value.Value? ==> (Asked(reg, t), t.reply.value.obj) in handed)
  }

  ghost predicate CachesFit(s: State, handed: Handed) {
    && (forall ty :: ty in s.singletons ==> (ty, s.singletons[ty]) in handed)
    && (forall key :: key in s.scoped ==> (key.1, s.scoped[key]) in handed)
  }

  ghost predicate HandedFit(reg: Registry, calm: bool, nextId: nat, handed: Handed) {
    forall h :: h in handed ==> IsAssembled(reg, calm, handed, h.0, h.1) && Numbered(nextId, handed, h.1)
  }

  /** The invariant, for a history that may be one object ahead of the state's. */
  ghost predicate Fits(reg: Registry, calm: bool, s: State, handed: Handed) {
    && HandedFit(reg, calm, s.nextId, handed) && CachesFit(s, handed)
    && forall k :: k in s.tasks ==> TaskFits(reg, calm, handed, s.tasks[k])
  }

  // ----- a longer history

  lemma ArgsStillFit(reg: Registry, calm: bool, handed: Handed, longer: Handed, params: seq<Param>, args: seq<Arg>)
    requires ArgsFit(reg, calm, handed, params, args) && forall h :: h in handed ==> h in longer
    ensures ArgsFit(reg, calm, longer, params, args)
  {
    forall k | 0 <= k < |args|
      ensures ArgFits(reg, calm, longer, params[k], args[k])
    {
      assert ArgFits(reg, calm, handed, params[k], args[k]);
    }
  }

  lemma StillAssembled(reg: Registry, calm: bool, handed: Handed, longer: Handed, ty: Interface, o: Obj)
    requires IsAssembled(reg, calm, handed, ty, o) && forall h :: h in handed ==> h in longer
    ensures IsAssembled(reg, calm, longer, ty, o)
  {
    if reg[ty].provider.Target? {
      ArgsStillFit(reg, calm, handed, longer, reg[ty].provider.params, o.args);
    }
  }

  lemma TaskStillFits(reg: Registry, calm: bool, handed: Handed, longer: Handed, t: Task)
    requires TaskFits(reg, calm, handed, t) && forall h :: h in handed ==> h in longer
    ensures TaskFits(reg, calm, longer, t)
  {
    forall j | 0 <= j < |t.stack|
      ensures FrameFits(reg, calm, longer, t.stack[j])
    {
      var f := t.stack[j];
      assert FrameFits(reg, calm, handed, f);
      if f.pc.Building? && f.ty in reg && reg[f.ty].provider.Target? {
        ArgsStillFit(reg, calm, handed, longer, reg[f.ty].provider.params, f.args);
      }
    }
  }

  lemma HandedMoreFit(reg: Registry, calm: bool, nextId: nat, handed: Handed, ty: Interface, o: Obj, later: nat)
    requires HandedFit(reg, calm, nextId, handed) && IsAssembled(reg, calm, handed, ty, o) && nextId <= later
    requires Numbered(later, handed, o)
    ensures HandedFit(reg, calm, later, handed + [(ty, o)])
  {
    var longer := handed + [(ty, o)];
    forall h | h in longer
      ensures IsAssembled(reg, calm, longer, h.0, h.1) && Numbered(later, longer, h.1)
    {
      StillAssembled(reg, calm, handed, longer, h.0, h.1);
    }
  }

  /** Handing out an object that fits. */
  lemma HandOut(reg: Registry, calm: bool, s: State, handed: Handed, ty: Interface, o: Obj)
    requires Fits(reg, calm, s, handed) && IsAssembled(reg, calm, handed, ty, o) && Numbered(s.nextId, handed, o)
    ensures Fits(reg, calm, s, handed + [(ty, o)])
  {
    var longer := handed + [(ty, o)];
    HandedMoreFit(reg, calm, s.nextId, handed, ty, o, s.nextId);
    forall k | k in s.tasks
      ensures TaskFits(reg, calm, longer, s.tasks[k])
    {
      TaskStillFits(reg, calm, handed, longer, s.tasks[k]);
    }
  }

  // ----- the updates

  /** Task `k` has become `t'`, everything else that matters is as before. */
  lemma OneTaskFits(reg: Registry, calm: bool, s: State, s': State, k: nat, t': Task, handed: Handed)
    requires Fits(reg, calm, s, handed) && TaskFits(reg, calm, handed, t') && s'.tasks == s.tasks[k := t']
    requires s'.singletons == s.singletons && s'.scoped == s.scoped && s'.nextId == s.nextId
    ensures Fits(reg, calm, s', handed)
  {
  }

  lemma ReturnFits(reg: Registry, calm: bool, s: State, k: nat, reply: Reply, handed: Handed)
    requires Unfinished(s, k) && StackOk(reg, s.tasks[k]) && TaskTells(reg, calm, s.tasks[k])
    requires Fits(reg, calm, s, handed) && (reply.Value? ==> (Top(s.tasks[k]).ty, reply.obj) in handed)
    ensures Fits(reg, calm, Return(s, k, reply), handed)
  {
    var t := s.tasks[k];
    var t' := t.(stack := Below(t), reply := Some(reply));
    var n := |t.stack|;
    if n >= 2 {
      assert Awaits(reg, t.stack[n - 2], t.stack[n - 1].ty);
    }
    assert Asked(reg, t') == Top(t).ty;
    assert forall j :: 0 <= j < n - 1 ==> t'.stack[j] == t.stack[j];
    OneTaskFits(reg, calm, s, Return(s, k, reply), k, t', handed);
  }

  lemma FinishFits(reg: Registry, calm: bool, s: State, k: nat, reply: Reply, handed: Handed)
    requires Unfinished(s, k) && StackOk(reg, s.tasks[k]) && TaskTells(reg, calm, s.tasks[k])
    requires Fits(reg, calm, s, handed) && (reply.Value? ==> (Top(s.tasks[k]).ty, reply.obj) in handed)
    ensures Fits(reg, calm, Finish(reg, s, k, reply), handed)
  {
    var ty := Top(s.tasks[k]).ty;
    ReturnFits(reg, calm, if Shared(reg, ty) then s.(holder := s.holder - {ty}) else s, k, reply, handed);
  }

  lemma SetTopFits(reg: Registry, calm: bool, s: State, k: nat, f: Frame, handed: Handed)
    requires Unfinished(s, k) && Fits(reg, calm, s, handed) && FrameFits(reg, calm, handed, f)
    ensures Fits(reg, calm, SetTop(s, k, f), handed)
  {
    var t := s.tasks[k];
    OneTaskFits(reg, calm, s, SetTop(s, k, f), k, t.(stack := Below(t) + [f], reply := None), handed);
  }

  /** A value that was handed out before is handed out again. */
  lemma ReturnKnown(reg: Registry, calm: bool, s: State, k: nat, o: Obj)
    requires Unfinished(s, k) && StackOk(reg, s.tasks[k]) && TaskTells(reg, calm, s.tasks[k])
    requires Fits(reg, calm, s, s.handed) && (Top(s.tasks[k]).ty, o) in s.handed
    ensures Fits(reg, calm, Return(s, k, Value(o)), Return(s, k, Value(o)).handed)
  {
    var ty := Top(s.tasks[k]).ty;
    assert (ty, o).1 == o && (ty, o).0 == ty;
    HandOut(reg, calm, s, s.handed, ty, o);
    ReturnFits(reg, calm, s, k, Value(o), s.handed + [(ty, o)]);
  }

  ghost predicate AtHand(reg: Registry, calm: bool, s: State, k: nat) {
    && Unfinished(s, k) && StackOk(reg, s.tasks[k]) && TaskTells(reg, calm, s.tasks[k]) && Fits(reg, calm, s, s.handed)
  }

  lemma EnterFits(reg: Registry, calm: bool, s: State, k: nat)
    requires AtHand(reg, calm, s, k)
    ensures Fits(reg, calm, Enter(reg, s, k), Enter(reg, s, k).handed)
  {
    var t := s.tasks[k];
    var ty := Top(t).ty;
    if ty in Types(Below(t)) {
      ReturnFits(reg, calm, s, k, Raise(Circular), s.handed);
    } else if ty !in reg {
      ReturnFits(reg, calm, s, k, Raise(Resolution), s.handed);
    } else if reg[ty].lifetime == Singleton && ty in s.singletons {
      ReturnKnown(reg, calm, s, k, s.singletons[ty]);
    } else if reg[ty].lifetime == Scoped && (t.scope, ty) in s.scoped {
      assert (t.scope, ty).1 == ty;
      ReturnKnown(reg, calm, s, k, s.scoped[(t.scope, ty)]);
    } else if reg[ty].provider.Instance? {
      HandOut(reg, calm, s, s.handed, ty, Ready(ty));
      ReturnFits(reg, calm, s, k, Value(Ready(ty)), s.handed + [(ty, Ready(ty))]);
    } else if reg[ty].lifetime == Singleton {
      SetTopFits(reg, calm, s, k, Frame(ty, Waiting, []), s.handed);
    } else {
      SetTopFits(reg, calm, s, k, Frame(ty, Building, []), s.handed);
    }
  }

  lemma AcquireFits(reg: Registry, calm: bool, s: State, k: nat)
    requires AtHand(reg, calm, s, k)
    ensures Fits(reg, calm, Acquire(s, k), Acquire(s, k).handed)
  {
    var ty := Top(s.tasks[k]).ty;
    if ty in s.singletons {
      ReturnKnown(reg, calm, s, k, s.singletons[ty]);
    } else {
      SetTopFits(reg, calm, s.(holder := s.holder[ty := k]), k, Frame(ty, Building, []), s.handed);
    }
  }

  /** A new object gets a number of its own, and goes into the cache and the history. */
  lemma StoreFits(reg: Registry, calm: bool, s: State, scope: nat, ty: Interface, o: Obj)
    requires Fits(reg, calm, s, s.handed) && IsAssembled(reg, calm, s.handed, ty, o) && o.Made? && o.id == s.nextId
    ensures Fits(reg, calm, Store(reg, s, scope, ty, o), s.handed + [(ty, o)])
    ensures Store(reg, s, scope, ty, o).tasks == s.tasks && Store(reg, s, scope, ty, o).handed == s.handed
  {
    var longer := s.handed + [(ty, o)];
    HandedMoreFit(reg, calm, s.nextId, s.handed, ty, o, s.nextId + 1);
    StoredCachesFit(reg, s, scope, ty, o);
    TasksStillFit(reg, calm, s, longer);
  }

  lemma StoredCachesFit(reg: Registry, s: State, scope: nat, ty: Interface, o: Obj)
    requires CachesFit(s, s.handed) && ty in reg
    ensures CachesFit(Store(reg, s, scope, ty, o), s.handed + [(ty, o)])
    ensures Store(reg, s, scope, ty, o).tasks == s.tasks && Store(reg, s, scope, ty, o).handed == s.handed
    ensures Store(reg, s, scope, ty, o).nextId == s.nextId + 1
  {
  }

  lemma TasksStillFit(reg: Registry, calm: bool, s: State, longer: Handed)
    requires forall k :: k in s.tasks ==> TaskFits(reg, calm, s.handed, s.tasks[k])
    requires forall h :: h in s.handed ==> h in longer
    ensures forall k :: k in s.tasks ==> TaskFits(reg, calm, longer, s.tasks[k])
  {
    forall k | k in s.tasks
      ensures TaskFits(reg, calm, longer, s.tasks[k])
    {
      TaskStillFits(reg, calm, s.handed, longer, s.tasks[k]);
    }
  }

  lemma ConstructFits(reg: Registry, calm: bool, s: State, k: nat, call: CallOutcome)
    requires AtHand(reg, calm, s, k) && Top(s.tasks[k]).pc.Building? && Top(s.tasks[k]).ty in reg
    requires reg[Top(s.tasks[k]).ty].provider.Target?
    requires |Top(s.tasks[k]).args| >= |reg[Top(s.tasks[k]).ty].provider.params|
    ensures Fits(reg, calm, Construct(reg, s, k, call), Construct(reg, s, k, call).handed)
  {
    var t := s.tasks[k];
    var f := Top(t);
    match call
    case Fails(e) => FinishFits(reg, calm, s, k, Raise(e), s.handed);
    case Succeeds =>
      var o := Made(s.nextId, f.ty, f.args);
      assert FrameFits(reg, calm, s.handed, t.stack[|t.stack| - 1]);
      StoreFits(reg, calm, s, t.scope, f.ty, o);
      FinishFits(reg, calm, Store(reg, s, t.scope, f.ty, o), k, Value(o), s.handed + [(f.ty, o)]);
  }

  lemma BuildFits(reg: Registry, calm: bool, s: State, k: nat, call: CallOutcome)
    requires AtHand(reg, calm, s, k) && Top(s.tasks[k]).pc.Building? && Top(s.tasks[k]).ty in reg
    requires s.tasks[k].reply.None?
    ensures Fits(reg, calm, Build(reg, s, k, call), Build(reg, s, k, call).handed)
  {
    var t := s.tasks[k];
    var f := Top(t);
    match reg[f.ty].provider
    case Instance =>
    case NoTarget => FinishFits(reg, calm, s, k, Raise(Resolution), s.handed);
    case Target(params, _) =>
      if |f.args| >= |params| {
        ConstructFits(reg, calm, s, k, call);
      } else if params[|f.args|].annotation.None? {
        FinishFits(reg, calm, s, k, Raise(Resolution), s.handed);
      } else {
        var t' := t.(stack := t.stack + [Frame(params[|f.args|].annotation.value, Entering, [])]);
        OneTaskFits(reg, calm, s, Build(reg, s, k, call), k, t', s.handed);
      }
  }

  lemma ReceiveFits(reg: Registry, calm: bool, s: State, k: nat, reply: Reply)
    requires AtHand(reg, calm, s, k) && s.tasks[k].reply == Some(reply) && Top(s.tasks[k]).ty in reg
    ensures Fits(reg, calm, Receive(reg, s, k, reply), Receive(reg, s, k, reply).handed)
  {
    var t := s.tasks[k];
    var f := Top(t);
    assert AwaitsSome(reg, f);
    assert FrameFits(reg, calm, s.handed, t.stack[|t.stack| - 1]);
    match reply
    case Value(o) => SetTopFits(reg, calm, s, k, f.(args := f.args + [Injected(o)]), s.handed);
    case Raise(e) =>
      if e == Resolution && AwaitsDefault(reg, f) {
        SetTopFits(reg, calm, s, k, f.(args := f.args + [Defaulted]), s.handed);
      } else {
        FinishFits(reg, calm, s, k, Raise(e), s.handed);
      }
  }

  lemma StepFits(reg: Registry, calm: bool, s: State, e: Event)
    requires Inv(reg, s) && AllTell(reg, calm, s) && Enabled(s, e) && Fits(reg, calm, s, s.handed)
    ensures Fits(reg, calm, Apply(reg, s, e), Apply(reg, s, e).handed)
  {
    match e
    case Spawn(k, root, scope) =>
      OneTaskFits(reg, calm, s, Apply(reg, s, e), k, Task(root, scope, [Frame(root, Entering, [])], None), s.handed);
    case Advance(k, call) =>
      var t := s.tasks[k];
      assert FrameOk(reg, t.stack[|t.stack| - 1]);
      if t.reply.Some? {
        ReceiveFits(reg, calm, s, k, t.reply.value);
      } else {
        match Top(t).pc
        case Entering => EnterFits(reg, calm, s, k);
        case Waiting => AcquireFits(reg, calm, s, k);
        case Building => BuildFits(reg, calm, s, k, call);
      }
  }

  lemma {:induction false} RunFits(reg: Registry, calm: bool, events: seq<Event>)
    requires After(reg, events).Some? && (calm ==> CalmRun(events))
    ensures Fits(reg, calm, After(reg, events).value, After(reg, events).value.handed)
  {
    if events != [] {
      var n := |events| - 1;
      RunFits(reg, calm, events[..n]);
      RunInv(reg, events[..n]);
      RunTells(reg, calm, events[..n]);
      StepFits(reg, calm, After(reg, events[..n]).value, events[n]);
    }
  }

  // ----- the theorems

  /** In every interleaving, whatever constructors raise, an object handed out is the registered instance,
      or made for its type with one argument for each parameter in order: the default of a parameter that
      has one, or an object itself handed out for the parameter's type, which is the cached one if that is
      a singleton.  Different objects have different numbers. */
  lemma HandedOutIsAssembled(reg: Registry, events: seq<Event>, ty: Interface, o: Obj)
    requires After(reg, events).Some? && (ty, o) in After(reg, events).value.handed
    ensures ty in reg && !reg[ty].provider.NoTarget?
    ensures reg[ty].provider.Instance? ==> o == Ready(ty)
    ensures reg[ty].provider.Target? ==>
              var s, params := After(reg, events).value, reg[ty].provider.params;
              && o.Made? && o.ofType == ty && |o.args| == |params|
              && forall k :: 0 <= k < |params| ==>
                   match o.args[k]
                   case Defaulted => params[k].hasDefault
                   case Injected(x) =>
                     && params[k].annotation.Some?
                     && (params[k].annotation.value, x) in s.handed
                     && (Shared(reg, params[k].annotation.value) ==>
                           params[k].annotation.value in s.singletons && s.singletons[params[k].annotation.value] == x)
    ensures o.Made? ==> forall h :: h in After(reg, events).value.handed && h.1.Made? && h.1.id == o.id ==> h.1 == o
  {
    RunFits(reg, false, events);
    RunInv(reg, events);
    var s := After(reg, events).value;
    assert (ty, o).0 == ty && (ty, o).1 == o;
    assert IsAssembled(reg, false, s.handed, ty, o);
    if reg[ty].provider.Target? {
      AssembledArgs(reg, s, reg[ty].provider.params, o.args);
    }
  }

  lemma AssembledArgs(reg: Registry, s: State, params: seq<Param>, args: seq<Arg>)
    requires ArgsFit(reg, false, s.handed, params, args) && HistoryOk(reg, s)
    ensures forall k :: 0 <= k < |args| ==>
              match args[k]
              case Defaulted => params[k].hasDefault
              case Injected(x) =>
                && params[k].annotation.Some?
                && (params[k].annotation.value, x) in s.handed
                && (Shared(reg, params[k].annotation.value) ==>
                      params[k].annotation.value in s.singletons && s.singletons[params[k].annotation.value] == x)
  {
    forall k | 0 <= k < |args| && args[k].Injected?
      ensures params[k].annotation.Some? && (params[k].annotation.value, args[k].obj) in s.handed
      ensures Shared(reg, params[k].annotation.value) ==>
                params[k].annotation.value in s.singletons && s.singletons[params[k].annotation.value] == args[k].obj
    {
      assert ArgFits(reg, false, s.handed, params[k], args[k]);
      var h := (params[k].annotation.value, args[k].obj);
      assert h in s.handed && h.0 == params[k].annotation.value && h.1 == args[k].obj;
    }
    forall k | 0 <= k < |args| && args[k].Defaulted?
      ensures params[k].hasDefault
    {
      assert ArgFits(reg, false, s.handed, params[k], args[k]);
    }
  }

  /** As long as no constructor raises, the default is used exactly if the validator reports the
      parameter's type as missing a dependency, and every object used is of an accepted type. */
  lemma DefaultsAreForMissing(reg: Registry, events: seq<Event>, ty: Interface, o: Obj, k: nat)
    requires After(reg, events).Some? && CalmRun(events) && (ty, o) in After(reg, events).value.handed
    requires o.Made? && k < |o.args|
    ensures ty in reg && reg[ty].provider.Target? && k < |reg[ty].provider.params|
    ensures var p := reg[ty].provider.params[k];
            && p.annotation.Some?
            && (o.args[k].Defaulted? <==> Verdict0(reg, p.annotation.value) == Missing)
            && (o.args[k].Injected? <==> Verdict0(reg, p.annotation.value) == Fine)
  {
    RunFits(reg, true, events);
    var s := After(reg, events).value;
    assert (ty, o).0 == ty && (ty, o).1 == o;
    assert IsAssembled(reg, true, s.handed, ty, o);
    assert ArgFits(reg, true, s.handed, reg[ty].provider.params[k], o.args[k]);
  }

  /** The value that a finished request returns was handed out for its interface. */
  lemma FinishedIsHandedOut(reg: Registry, events: seq<Event>, k: nat)
    requires After(reg, events).Some? && k in After(reg, events).value.tasks
    requires !Unfinished(After(reg, events).value, k)
    ensures var s := After(reg, events).value;
            && s.tasks[k].reply.Some?
            && (s.tasks[k].reply.value.Value? ==> (s.tasks[k].root, s.tasks[k].reply.value.obj) in s.handed)
  {
    RunFits(reg, false, events);
    RunTells(reg, false, events);
  }
}
