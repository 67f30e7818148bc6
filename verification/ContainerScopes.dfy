/** Scoped instances under concurrency: they are built without a lock, so two tasks of one scope can
    both build one. */
module ContainerScopes {
  import opened Wrappers
  import opened ContainerValidation
  import opened ContainerTrails
  import opened ContainerResolver
  import opened ContainerInterleaving
  import opened ContainerVerdicts
  import opened ContainerTermination
  import opened ContainerDeadlock
  import opened ContainerScheduling
  import opened ContainerSuspending
  import opened ContainerKnots
  import opened ContainerProgress

  /** A scoped type that is built from parameters. */
  predicate PerScope(reg: Registry, ty: Interface) {
    ty in reg && reg[ty].lifetime == Scoped && reg[ty].provider.Target?
  }

  /** The task of this event is at a call for `ty` in the scope, with this program counter. */
  predicate At(s: State, e: Event, scope: nat, ty: Interface, pc: Pc) {
    && e.Advance? && Unfinished(s, e.task) && s.tasks[e.task].scope == scope && s.tasks[e.task].reply.None?
    && Top(s.tasks[e.task]).ty == ty && Top(s.tasks[e.task]).pc == pc
  }

  /** The event starts building the type in the scope: it is neither on the chain nor cached. */
  predicate Starts(s: State, e: Event, scope: nat, ty: Interface) {
    At(s, e, scope, ty, Entering) && ty !in Types(Below(s.tasks[e.task])) && (scope, ty) !in s.scoped
  }

  /** The event completes an instance of the type for the scope. */
  predicate Completes(reg: Registry, s: State, e: Event, scope: nat, ty: Interface)
    requires PerScope(reg, ty)
  {
    && At(s, e, scope, ty, Building) && e.call.Succeeds?
    && |Top(s.tasks[e.task]).args| >= |reg[ty].provider.params|
  }

  ghost function Builders(s: State, scope: nat, ty: Interface): set<nat> {
    set k | k in s.tasks && s.tasks[k].scope == scope && Holds(s.tasks[k], ty)
  }

  /** How often the type has been started, and completed, in the scope. */
  function Started(reg: Registry, events: seq<Event>, scope: nat, ty: Interface): nat {
    if events == [] then 0
    else
      var n := |events| - 1;
      var before := After(reg, events[..n]);
      Started(reg, events[..n], scope, ty)
      + if before.Some? && Starts(before.value, events[n], scope, ty) then 1 else 0
  }

  function Completed(reg: Registry, events: seq<Event>, scope: nat, ty: Interface): nat
    requires PerScope(reg, ty)
  {
    if events == [] then 0
    else
      var n := |events| - 1;
      var before := After(reg, events[..n]);
      Completed(reg, events[..n], scope, ty)
      + if before.Some? && Completes(reg, before.value, events[n], scope, ty) then 1 else 0
  }

  // ----- what a step does to the builders

  lemma ReturnHolds(t: Task, ty: Interface, reply: Reply)
    requires t.stack != []
    ensures Holds(t, ty) <==>
              Holds(t.(stack := Below(t), reply := Some(reply)), ty) || (Top(t).pc.Building? && Top(t).ty == ty)
  {
    HoldsSplit(t, ty);
    SameStackHolds(t.(stack := Below(t)), t.(stack := Below(t), reply := Some(reply)), ty);
  }

  lemma SetTopHolds(t: Task, ty: Interface, f: Frame)
    requires t.stack != [] && f.ty == Top(t).ty
    requires Top(t).ty == ty ==> f.pc.Building? == Top(t).pc.Building?
    ensures Holds(t.(stack := Below(t) + [f], reply := None), ty) <==> Holds(t, ty)
  {
    HoldsSplit(t, ty);
    HoldsSetTop(t, f, ty);
  }

  lemma PushHolds(t: Task, ty: Interface, asked: Interface)
    requires t.stack != []
    ensures Holds(t.(stack := t.stack + [Frame(asked, Entering, [])]), ty) <==> Holds(t, ty)
  {
    var t' := t.(stack := t.stack + [Frame(asked, Entering, [])]);
    assert Below(t') == t.stack;
    HoldsSplit(t', ty);
    SameStackHolds(t, t'.(stack := Below(t')), ty);
  }

  /** A call that raises is not for a type that the validator accepts: it would tell otherwise. */
  lemma RaiseIsNotFine(reg: Registry, t: Task, reply: Reply)
    requires t.stack != [] && StackOk(reg, t) && TaskTells(reg, true, t) && reply.Raise?
    requires TaskTells(reg, true, t.(stack := Below(t), reply := Some(reply)))
    ensures Verdict0(reg, Top(t).ty) != Fine
  {
    var n := |t.stack|;
    if n >= 2 {
      assert Awaits(reg, t.stack[n - 2], t.stack[n - 1].ty);
    }
    assert Asked(reg, t.(stack := Below(t), reply := Some(reply))) == Top(t).ty;
  }

  lemma RaiseHolds(reg: Registry, t: Task, ty: Interface, reply: Reply)
    requires t.stack != [] && StackOk(reg, t) && TaskTells(reg, true, t) && reply.Raise?
    requires TaskTells(reg, true, t.(stack := Below(t), reply := Some(reply))) && Verdict0(reg, ty) == Fine
    ensures Holds(t.(stack := Below(t), reply := Some(reply)), ty) <==> Holds(t, ty)
  {
    ReturnHolds(t, ty, reply);
    RaiseIsNotFine(reg, t, reply);
  }

  /** An advancing task of a telling state, and what it has become. */
  ghost predicate Moves(reg: Registry, s: State, k: nat, ty: Interface, t': Task) {
    && Telling(reg, true, s, k) && TaskTells(reg, true, t') && PerScope(reg, ty) && Verdict0(reg, ty) == Fine
  }

  lemma EnterHolds(reg: Registry, s: State, k: nat, ty: Interface, t': Task)
    requires Moves(reg, s, k, ty, t') && t' == Enter(reg, s, k).tasks[k] && Top(s.tasks[k]).pc.Entering?
    ensures Holds(t', ty) <==>
              Holds(s.tasks[k], ty)
              || (Top(s.tasks[k]).ty == ty && ty !in Types(Below(s.tasks[k])) && (s.tasks[k].scope, ty) !in s.scoped)
  {
    var t := s.tasks[k];
    var f := Top(t);
    if f.ty in Types(Below(t)) || f.ty !in reg {
      ReturnHolds(t, ty, t'.reply.value);
    } else if f.ty == ty {
      EnterScopedHolds(reg, s, k, ty, t');
    } else {
      EnterOtherHolds(reg, s, k, ty, t');
    }
  }

  lemma EnterScopedHolds(reg: Registry, s: State, k: nat, ty: Interface, t': Task)
    requires Unfinished(s, k) && PerScope(reg, ty) && Top(s.tasks[k]).ty == ty && Top(s.tasks[k]).pc.Entering?
    requires t' == Enter(reg, s, k).tasks[k] && ty !in Types(Below(s.tasks[k]))
    ensures Holds(t', ty) <==> Holds(s.tasks[k], ty) || (s.tasks[k].scope, ty) !in s.scoped
  {
    var t := s.tasks[k];
    if (t.scope, ty) in s.scoped {
      ReturnHolds(t, ty, Value(s.scoped[(t.scope, ty)]));
    } else {
      HoldsSetTop(t, Frame(ty, Building, []), ty);
    }
  }

  lemma EnterOtherHolds(reg: Registry, s: State, k: nat, ty: Interface, t': Task)
    requires Unfinished(s, k) && Top(s.tasks[k]).ty != ty && t' == Enter(reg, s, k).tasks[k]
    ensures Holds(t', ty) <==> Holds(s.tasks[k], ty)
  {
    var t := s.tasks[k];
    var f := Top(t);
    if f.ty in Types(Below(t)) || f.ty !in reg
       || (reg[f.ty].lifetime == Singleton && f.ty in s.singletons)
       || (reg[f.ty].lifetime == Scoped && (t.scope, f.ty) in s.scoped) || reg[f.ty].provider.Instance? {
      ReturnHolds(t, ty, t'.reply.value);
    } else if reg[f.ty].lifetime == Singleton {
      SetTopHolds(t, ty, Frame(f.ty, Waiting, []));
    } else {
      SetTopHolds(t, ty, Frame(f.ty, Building, []));
    }
  }

  lemma AcquireHolds(reg: Registry, s: State, k: nat, ty: Interface, t': Task)
    requires Moves(reg, s, k, ty, t') && t' == Acquire(s, k).tasks[k] && Top(s.tasks[k]).pc.Waiting?
    ensures Holds(t', ty) <==> Holds(s.tasks[k], ty)
  {
    var t := s.tasks[k];
    assert FrameOk(reg, t.stack[|t.stack| - 1]);
    if t'.reply.Some? {
      ReturnHolds(t, ty, t'.reply.value);
    } else {
      SetTopHolds(t, ty, Frame(Top(t).ty, Building, []));
    }
  }

  lemma ConstructHolds(reg: Registry, s: State, k: nat, ty: Interface)
    requires Unfinished(s, k) && Top(s.tasks[k]).ty in reg && Top(s.tasks[k]).pc.Building?
    requires Top(s.tasks[k]).ty !in Types(Below(s.tasks[k]))
    ensures Holds(Construct(reg, s, k, Succeeds).tasks[k], ty) <==> Holds(s.tasks[k], ty) && Top(s.tasks[k]).ty != ty
  {
    var t := s.tasks[k];
    HoldsBelowNotTop(reg, t);
    ConstructTask(reg, s, k);
    HoldsSplit(t, ty);
    SameStackHolds(Construct(reg, s, k, Succeeds).tasks[k], t.(stack := Below(t)), ty);
  }

  lemma BuildHolds(reg: Registry, s: State, k: nat, ty: Interface, t': Task)
    requires Moves(reg, s, k, ty, t') && Top(s.tasks[k]).pc.Building? && Top(s.tasks[k]).ty in reg
    requires s.tasks[k].reply.None? && t' == Build(reg, s, k, Succeeds).tasks[k]
    ensures Holds(t', ty) <==>
              Holds(s.tasks[k], ty)
              && !(Top(s.tasks[k]).ty == ty && |Top(s.tasks[k]).args| >= |reg[ty].provider.params|)
  {
    var t := s.tasks[k];
    var f := Top(t);
    assert FrameOk(reg, t.stack[|t.stack| - 1]);
    TopIsNew(reg, t);
    HoldsSplit(t, ty);
    match reg[f.ty].provider
    case Instance =>
    case NoTarget => RaiseHolds(reg, t, ty, Raise(Resolution));
    case Target(params, _) =>
      if |f.args| >= |params| {
        ConstructHolds(reg, s, k, ty);
      } else if params[|f.args|].annotation.None? {
        RaiseHolds(reg, t, ty, Raise(Resolution));
      } else {
        PushHolds(t, ty, params[|f.args|].annotation.value);
      }
  }

  lemma ReceiveHolds(reg: Registry, s: State, k: nat, ty: Interface, reply: Reply, t': Task)
    requires Moves(reg, s, k, ty, t') && s.tasks[k].reply == Some(reply) && Top(s.tasks[k]).ty in reg
    requires t' == Receive(reg, s, k, reply).tasks[k]
    ensures Holds(t', ty) <==> Holds(s.tasks[k], ty)
  {
    var t := s.tasks[k];
    var f := Top(t);
    assert AwaitsSome(reg, f);
    match reply
    case Value(o) => SetTopHolds(t, ty, f.(args := f.args + [Injected(o)]));
    case Raise(e) =>
      if e == Resolution && AwaitsDefault(reg, f) {
        SetTopHolds(t, ty, f.(args := f.args + [Defaulted]));
      } else {
        RaiseHolds(reg, t, ty, Raise(e));
      }
  }

  lemma AdvanceHolds(reg: Registry, s: State, k: nat, scope: nat, ty: Interface, t': Task)
    requires Moves(reg, s, k, ty, t') && CanAdvance(s, k) && s.tasks[k].scope == scope
    requires k in AdvanceTask(reg, s, k, Succeeds).tasks && t' == AdvanceTask(reg, s, k, Succeeds).tasks[k]
    ensures var e := Advance(k, Succeeds);
            Holds(t', ty) <==> Starts(s, e, scope, ty) || (Holds(s.tasks[k], ty) && !Completes(reg, s, e, scope, ty))
  {
    var t := s.tasks[k];
    assert FrameOk(reg, t.stack[|t.stack| - 1]);
    if t.reply.Some? {
      assert AwaitsSome(reg, Top(t));
      ReceiveHolds(reg, s, k, ty, t.reply.value, t');
    } else {
      match Top(t).pc
      case Entering => EnterHolds(reg, s, k, ty, t');
      case Waiting => AcquireHolds(reg, s, k, ty, t');
      case Building => BuildHolds(reg, s, k, ty, t');
    }
  }

  /** The state before a calm step, and the state after it. */
  ghost predicate CalmStep(reg: Registry, s: State, e: Event, s': State, ty: Interface) {
    && Inv(reg, s) && AllTell(reg, true, s) && AllTell(reg, true, s') && Enabled(s, e) && Calm(e)
    && s' == Apply(reg, s, e) && PerScope(reg, ty) && Verdict0(reg, ty) == Fine
  }

  lemma BuildersAfter(reg: Registry, s: State, e: Event, s': State, scope: nat, ty: Interface)
    requires CalmStep(reg, s, e, s', ty)
    ensures |Builders(s', scope, ty)|
         == |Builders(s, scope, ty)| + (if Starts(s, e, scope, ty) then 1 else 0)
          - if Completes(reg, s, e, scope, ty) then 1 else 0
  {
    match e
    case Spawn(k, root, sc) =>
      assert !Holds(s'.tasks[k], ty);
      assert Builders(s', scope, ty) == Builders(s, scope, ty);
    case Advance(k, _) =>
      AdvanceWork(reg, s, k, Succeeds);
      AdvanceBuilders(reg, s, k, s', scope, ty);
  }

  lemma AdvanceBuilders(reg: Registry, s: State, k: nat, s': State, scope: nat, ty: Interface)
    requires CalmStep(reg, s, Advance(k, Succeeds), s', ty) && UsesUp(reg, s, s', k)
    ensures |Builders(s', scope, ty)|
         == |Builders(s, scope, ty)| + (if Starts(s, Advance(k, Succeeds), scope, ty) then 1 else 0)
          - if Completes(reg, s, Advance(k, Succeeds), scope, ty) then 1 else 0
  {
    if s.tasks[k].scope == scope {
      AdvanceHolds(reg, s, k, scope, ty, s'.tasks[k]);
      OneBuilderMore(reg, s, k, scope, ty, Builders(s, scope, ty), Builders(s', scope, ty));
    } else {
      assert Builders(s', scope, ty) == Builders(s, scope, ty);
    }
  }

  /** A task that starts was not building before, one that completes was. */
  lemma OneBuilderMore(reg: Registry, s: State, k: nat, scope: nat, ty: Interface, b: set<nat>, b': set<nat>)
    requires Inv(reg, s) && CanAdvance(s, k) && PerScope(reg, ty) && s.tasks[k].scope == scope
    requires k in b <==> Holds(s.tasks[k], ty)
    requires forall m :: m != k ==> (m in b' <==> m in b)
    requires k in b' <==> Starts(s, Advance(k, Succeeds), scope, ty)
                          || (k in b && !Completes(reg, s, Advance(k, Succeeds), scope, ty))
    ensures |b'| == |b| + (if Starts(s, Advance(k, Succeeds), scope, ty) then 1 else 0)
                  - if Completes(reg, s, Advance(k, Succeeds), scope, ty) then 1 else 0
  {
    var t := s.tasks[k];
    HoldsSplit(t, ty);
    if Starts(s, Advance(k, Succeeds), scope, ty) {
      HoldsBelowNotTop(reg, t);
      assert b' == b + {k};
    } else if Completes(reg, s, Advance(k, Succeeds), scope, ty) {
      assert b == b' + {k};
    } else {
      assert b' == b;
    }
  }

  lemma CachedAfter(reg: Registry, s: State, e: Event, s': State, scope: nat, ty: Interface)
    requires CalmStep(reg, s, e, s', ty)
    ensures (scope, ty) in s'.scoped <==> (scope, ty) in s.scoped || Completes(reg, s, e, scope, ty)
  {
    if e.Advance? {
      var t := s.tasks[e.task];
      assert FrameOk(reg, t.stack[|t.stack| - 1]);
      if t.reply.None? && Top(t).pc.Building? {
        BuildCachesScoped(reg, s, e.task, scope, ty);
      } else {
        OthersCacheNothing(reg, s, e.task);
      }
    }
  }

  lemma BuildCachesScoped(reg: Registry, s: State, k: nat, scope: nat, ty: Interface)
    requires Unfinished(s, k) && Top(s.tasks[k]).ty in reg && PerScope(reg, ty)
    ensures (scope, ty) in Build(reg, s, k, Succeeds).scoped <==>
              || (scope, ty) in s.scoped
              || (s.tasks[k].scope == scope && Top(s.tasks[k]).ty == ty
                  && |Top(s.tasks[k]).args| >= |reg[ty].provider.params|)
  {
    var t := s.tasks[k];
    if reg[Top(t).ty].provider.Target? && |Top(t).args| >= |reg[Top(t).ty].provider.params| {
      assert Construct(reg, s, k, Succeeds).scoped
          == Store(reg, s, t.scope, Top(t).ty, Made(s.nextId, Top(t).ty, Top(t).args)).scoped;
    }
  }

  lemma OthersCacheNothing(reg: Registry, s: State, k: nat)
    requires Unfinished(s, k) && (s.tasks[k].reply.Some? || !Top(s.tasks[k]).pc.Building?)
    ensures AdvanceTask(reg, s, k, Succeeds).scoped == s.scoped
  {
  }

  // ----- counting

  lemma RunStep(reg: Registry, events: seq<Event>, ty: Interface)
    requires After(reg, events).Some? && CalmRun(events) && events != []
    requires PerScope(reg, ty) && Verdict0(reg, ty) == Fine
    ensures var n := |events| - 1;
            && After(reg, events[..n]).Some? && CalmRun(events[..n])
            && CalmStep(reg, After(reg, events[..n]).value, events[n], After(reg, events).value, ty)
  {
    var n := |events| - 1;
    assert forall e :: e in events[..n] ==> e in events;
    assert events[n] in events;
    RunInv(reg, events[..n]);
    RunTells(reg, true, events[..n]);
    RunTells(reg, true, events);
  }

  /** Every start is completed or still at work, and what is completed is cached. */
  lemma {:induction false} CountsAgree(reg: Registry, events: seq<Event>, scope: nat, ty: Interface)
    requires After(reg, events).Some? && CalmRun(events) && PerScope(reg, ty) && Verdict0(reg, ty) == Fine
    ensures var s := After(reg, events).value;
            && Started(reg, events, scope, ty) == Completed(reg, events, scope, ty) + |Builders(s, scope, ty)|
            && ((scope, ty) in s.scoped <==> Completed(reg, events, scope, ty) >= 1)
  {
    if events == [] {
      assert Builders(INITIAL, scope, ty) == {};
    } else {
      var n := |events| - 1;
      RunStep(reg, events, ty);
      CountsAgree(reg, events[..n], scope, ty);
      var s, s' := After(reg, events[..n]).value, After(reg, events).value;
      BuildersAfter(reg, s, events[n], s', scope, ty);
      CachedAfter(reg, s, events[n], s', scope, ty);
    }
  }

  /** The `n`-th event starts building the type while another task of the scope is building it. */
  ghost predicate OverlapsAt(reg: Registry, events: seq<Event>, n: nat, scope: nat, ty: Interface) {
    && n < |events| && After(reg, events[..n]).Some?
    && Starts(After(reg, events[..n]).value, events[n], scope, ty)
    && Builders(After(reg, events[..n]).value, scope, ty) != {}
  }

  lemma {:induction false} StartedOnce(reg: Registry, events: seq<Event>, scope: nat, ty: Interface)
    requires After(reg, events).Some? && CalmRun(events) && PerScope(reg, ty) && Verdict0(reg, ty) == Fine
    requires forall n :: !OverlapsAt(reg, events, n, scope, ty)
    ensures Started(reg, events, scope, ty) <= 1
  {
    if events != [] {
      var last := |events| - 1;
      RunStep(reg, events, ty);
      forall n: nat
        ensures !OverlapsAt(reg, events[..last], n, scope, ty)
      {
        assert n < last ==> events[..last][..n] == events[..n];
        assert !OverlapsAt(reg, events, n, scope, ty);
      }
      StartedOnce(reg, events[..last], scope, ty);
      CountsAgree(reg, events[..last], scope, ty);
      assert !OverlapsAt(reg, events, last, scope, ty);
    }
  }

  lemma {:induction false} OverlapStartsTwice(reg: Registry, events: seq<Event>, n: nat, scope: nat, ty: Interface)
    requires After(reg, events).Some? && CalmRun(events) && PerScope(reg, ty) && Verdict0(reg, ty) == Fine
    requires OverlapsAt(reg, events, n, scope, ty)
    ensures Started(reg, events, scope, ty) >= 2
    decreases |events|
  {
    var last := |events| - 1;
    assert forall e :: e in events[..last] ==> e in events;
    if n < last {
      assert events[..last][..n] == events[..n];
      OverlapStartsTwice(reg, events[..last], n, scope, ty);
    } else {
      SecondStart(reg, events, scope, ty);
    }
  }

  lemma SecondStart(reg: Registry, events: seq<Event>, scope: nat, ty: Interface)
    requires events != [] && CalmRun(events[..|events| - 1]) && PerScope(reg, ty) && Verdict0(reg, ty) == Fine
    requires OverlapsAt(reg, events, |events| - 1, scope, ty)
    ensures Started(reg, events, scope, ty) >= 2
  {
    CountsAgree(reg, events[..|events| - 1], scope, ty);
  }

  /** Once all tasks of a run in which no constructor raises are finished, a scoped type that the
      validator accepts has been built more than once for one scope if and only if some task started
      building it while another task of the scope was at it. */
  lemma ScopedTwiceExactly(reg: Registry, events: seq<Event>, scope: nat, ty: Interface)
    requires After(reg, events).Some? && CalmRun(events) && Settled(After(reg, events).value)
    requires PerScope(reg, ty) && Verdict0(reg, ty) == Fine
    ensures Completed(reg, events, scope, ty) >= 2 <==> exists n :: OverlapsAt(reg, events, n, scope, ty)
  {
    var s := After(reg, events).value;
    forall k | k in s.tasks
      ensures !Holds(s.tasks[k], ty)
    {
      assert !Unfinished(s, k);
    }
    assert Builders(s, scope, ty) == {};
    CountsAgree(reg, events, scope, ty);
    if n: nat :| OverlapsAt(reg, events, n, scope, ty) {
      OverlapStartsTwice(reg, events, n, scope, ty);
    } else {
      StartedOnce(reg, events, scope, ty);
    }
  }

  // ----- the event loop builds twice only what suspends

  lemma {:induction false} LoopPrefix(reg: Registry, events: seq<Event>, n: nat)
    requires LoopRun(reg, events) && n < |events|
    ensures LoopRun(reg, events[..n]) && After(reg, events[..n]).Some?
    ensures events[n].Advance? ==> Schedulable(reg, events[..n], After(reg, events[..n]).value, events[n].task)
    decreases |events|
  {
    var last := |events| - 1;
    if n < last {
      LoopPrefix(reg, events[..last], n);
      assert events[..last][..n] == events[..n];
    }
  }

  lemma OverlapHangs(reg: Registry, events: seq<Event>, n: nat, scope: nat, ty: Interface)
    requires LoopRun(reg, events) && CalmRun(events) && OverlapsAt(reg, events, n, scope, ty)
    ensures Hangs(reg, ty)
  {
    var before := events[..n];
    var s, m := After(reg, before).value, events[n].task;
    assert forall e :: e in before ==> e in events;
    LoopPrefix(reg, events, n);
    RunInv(reg, before);
    RunTells(reg, true, before);
    RunIdleHung(reg, true, before);
    HoldsSplit(s.tasks[m], ty);
    HoldsBelowNotTop(reg, s.tasks[m]);
    var k :| k in Builders(s, scope, ty);
    BuilderHangs(reg, before, s, k, m, ty);
  }

  lemma BuilderHangs(reg: Registry, events: seq<Event>, s: State, k: nat, m: nat, ty: Interface)
    requires Inv(reg, s) && AllTell(reg, true, s) && IdleHung(reg, true, events, s)
    requires Schedulable(reg, events, s, m) && m != k && k in s.tasks && Holds(s.tasks[k], ty)
    ensures Hangs(reg, ty)
  {
    var j :| 0 <= j < |s.tasks[k].stack| && s.tasks[k].stack[j].ty == ty && s.tasks[k].stack[j].pc.Building?;
    assert Unfinished(s, k) && !Fresh(s.tasks[k]);
    if Runner(events) == Some(k) {
      LetGoHangs(reg, true, events, s, k);
    }
    assert Hung(reg, true, s.tasks[k].stack[j].ty);
  }

  lemma TwiceHangs(reg: Registry, events: seq<Event>, scope: nat, ty: Interface)
    requires LoopRun(reg, events) && CalmRun(events) && After(reg, events).Some?
    requires PerScope(reg, ty) && Verdict0(reg, ty) == Fine && Completed(reg, events, scope, ty) >= 2
    ensures Hangs(reg, ty)
  {
    CountsAgree(reg, events, scope, ty);
    if n: nat :| OverlapsAt(reg, events, n, scope, ty) {
      OverlapHangs(reg, events, n, scope, ty);
    } else {
      StartedOnce(reg, events, scope, ty);
    }
  }

  // ----- and builds twice what does

  /** The only task was started for the type, in the scope, and has not suspended yet. */
  ghost predicate FirstAlone(reg: Registry, events: seq<Event>, s: State, scope: nat, ty: Interface) {
    && Alone(reg, events, s) && s.tasks[0].root == ty && s.tasks[0].scope == scope
    && PerScope(reg, ty) && Verdict0(reg, ty) == Fine && Hangs(reg, ty)
    && (Unfinished(s, 0) ==> Fresh(s.tasks[0]) || s.tasks[0].stack[0].pc.Building?)
  }

  lemma FirstIsUnfinished(reg: Registry, events: seq<Event>, s: State, scope: nat, ty: Interface)
    requires FirstAlone(reg, events, s, scope, ty)
    ensures Unfinished(s, 0) && s.tasks[0].stack[0].ty == ty && (scope, ty) !in s.scoped
    ensures Top(s.tasks[0]).ty !in Types(Below(s.tasks[0]))
  {
    var t := s.tasks[0];
    StackIsTrail(reg, true, t);
    if Top(t).ty in Types(Below(t)) {
      RepeatedIsCyclic(reg, t);
      StackStaysClear(reg, true, t, |t.stack| - 1);
    }
  }

  lemma FirstEnters(reg: Registry, events: seq<Event>, s: State, scope: nat, ty: Interface)
    requires FirstAlone(reg, events, s, scope, ty) && Unfinished(s, 0) && Fresh(s.tasks[0])
    ensures Enter(reg, s, 0).tasks[0].stack == [Frame(ty, Building, [])]
  {
    FirstIsUnfinished(reg, events, s, scope, ty);
    assert Below(s.tasks[0]) == [];
    assert [] + [Frame(ty, Building, [])] == [Frame(ty, Building, [])];
    assert Enter(reg, s, 0) == SetTop(s, 0, Frame(ty, Building, []));
  }

  lemma {:induction false} FirstSuspends(reg: Registry, events: seq<Event>, s: State, scope: nat, ty: Interface)
      returns (run: seq<Event>, s': State)
    requires FirstAlone(reg, events, s, scope, ty)
    ensures FirstAlone(reg, run, s', scope, ty) && Suspended(reg, s', 0)
    decreases TaskWork(reg, s.tasks[0])
  {
    FirstIsUnfinished(reg, events, s, scope, ty);
    if Suspended(reg, s, 0) {
      run, s' := events, s;
    } else {
      var s1 := AloneSteps(reg, events, s);
      if Fresh(s.tasks[0]) {
        FirstEnters(reg, events, s, scope, ty);
      } else if s1.tasks[0].stack != [] {
        FirstKeepsBuilding(reg, s, 0);
      }
      run, s' := FirstSuspends(reg, events + [Advance(0, Succeeds)], s1, scope, ty);
    }
  }

  /** The first task is suspended while it builds, and the second is to begin. */
  ghost predicate BothAsked(reg: Registry, run: seq<Event>, s: State, scope: nat, ty: Interface) {
    && Running(reg, run, s) && s.tasks.Keys == {0, 1} && Runner(run) in {None, Some(0)}
    && Suspended(reg, s, 0) && s.tasks[0].stack[0].ty == ty && s.tasks[0].scope == scope && s.tasks[0].root == ty
    && (Fresh(s.tasks[0]) || s.tasks[0].stack[0].pc.Building?)
    && s.tasks[1] == Task(ty, scope, [Frame(ty, Entering, [])], None) && (scope, ty) !in s.scoped
  }

  lemma SecondAsks(reg: Registry, run: seq<Event>, s: State, scope: nat, ty: Interface)
    requires FirstAlone(reg, run, s, scope, ty) && Suspended(reg, s, 0)
    ensures BothAsked(reg, run + [Spawn(1, ty, scope)], Apply(reg, s, Spawn(1, ty, scope)), scope, ty)
  {
    var e := Spawn(1, ty, scope);
    FirstIsUnfinished(reg, run, s, scope, ty);
    assert 1 !in s.tasks.Keys;
    RunsOn(reg, run, s, e);
    RunnerNow(run, e);
    FirstStays(reg, s, Apply(reg, s, e));
  }

  lemma FirstStays(reg: Registry, s: State, s': State)
    requires Suspended(reg, s, 0) && 0 in s'.tasks && s'.tasks[0] == s.tasks[0]
    ensures Suspended(reg, s', 0)
  {
  }

  /** While the first task is suspended, the second one starts to build. */
  lemma SecondOverlaps(reg: Registry, run: seq<Event>, s: State, scope: nat, ty: Interface)
    requires BothAsked(reg, run, s, scope, ty) && Verdict0(reg, ty) == Fine
    ensures var longer := run + [Advance(1, Succeeds)];
            && LoopRun(reg, longer) && CalmRun(longer) && After(reg, longer).Some?
            && ClearRoots(reg, After(reg, longer).value)
            && OverlapsAt(reg, longer, |run|, scope, ty)
  {
    var go := Advance(1, Succeeds);
    SecondStarts(reg, run, s, scope, ty);
    RunsOn(reg, run, s, go);
    AdvanceWork(reg, s, 1, Succeeds);
    RootsStayClear(reg, s, AdvanceTask(reg, s, 1, Succeeds), ty);
    assert (run + [go])[..|run|] == run;
  }

  lemma RootsStayClear(reg: Registry, s: State, s': State, ty: Interface)
    requires UsesUp(reg, s, s', 1) && s.tasks.Keys == {0, 1} && s.tasks[0].root == ty && s.tasks[1].root == ty
    requires Verdict0(reg, ty) == Fine
    ensures ClearRoots(reg, s')
  {
    forall k | k in s'.tasks
      ensures s'.tasks[k].root == ty
    {
      assert k in s.tasks.Keys;
    }
  }

  lemma SecondStarts(reg: Registry, run: seq<Event>, s: State, scope: nat, ty: Interface)
    requires BothAsked(reg, run, s, scope, ty)
    ensures Starts(s, Advance(1, Succeeds), scope, ty) && Schedulable(reg, run, s, 1)
    ensures Builders(s, scope, ty) != {}
  {
    assert Below(s.tasks[1]) == [] && Types([]) == {};
    assert Holds(s.tasks[0], ty);
    assert 0 in Builders(s, scope, ty);
  }

  /** For every scoped type that the validator accepts and that comes to suspend, there is a run of the
      event loop with two requests in one scope, without any constructor raising, that builds it twice
      and finishes both. */
  lemma ScopedBuiltTwice(reg: Registry, scope: nat, ty: Interface)
    requires PerScope(reg, ty) && Verdict0(reg, ty) == Fine && Hangs(reg, ty)
    ensures exists run :: LoopRun(reg, run) && CalmRun(run) && After(reg, run).Some?
                          && Settled(After(reg, run).value) && Completed(reg, run, scope, ty) >= 2
  {
    var s0 := AloneAtFirst(reg, ty, scope);
    var run, s := FirstSuspends(reg, [Spawn(0, ty, scope)], s0, scope, ty);
    SecondAsks(reg, run, s, scope, ty);
    var run1 := run + [Spawn(1, ty, scope)];
    SecondOverlaps(reg, run1, Apply(reg, s, Spawn(1, ty, scope)), scope, ty);
    OverlapFinishes(reg, run1 + [Advance(1, Succeeds)], |run1|, scope, ty);
  }

  lemma OverlapFinishes(reg: Registry, events: seq<Event>, n: nat, scope: nat, ty: Interface)
    requires PerScope(reg, ty) && Verdict0(reg, ty) == Fine && OverlapsAt(reg, events, n, scope, ty)
    requires LoopRun(reg, events) && CalmRun(events) && After(reg, events).Some?
    requires ClearRoots(reg, After(reg, events).value)
    ensures exists run :: LoopRun(reg, run) && CalmRun(run) && After(reg, run).Some?
                          && Settled(After(reg, run).value) && Completed(reg, run, scope, ty) >= 2
  {
    EveryLoopRunCanFinish(reg, events);
    var more :| OnlyGoesOn(more) && LoopRun(reg, events + more) && After(reg, events + more).Some?
                && Settled(After(reg, events + more).value);
    OverlapStays(reg, events, more, n, scope, ty);
    ScopedTwiceExactly(reg, events + more, scope, ty);
  }

  lemma OverlapStays(reg: Registry, events: seq<Event>, more: seq<Event>, n: nat, scope: nat, ty: Interface)
    requires OverlapsAt(reg, events, n, scope, ty) && CalmRun(events) && OnlyGoesOn(more)
    ensures OverlapsAt(reg, events + more, n, scope, ty) && CalmRun(events + more)
  {
    assert (events + more)[..n] == events[..n] && (events + more)[n] == events[n];
  }

  /** In the runs of an event loop in which no constructor raises, a scoped type that the validator
      accepts can be built more than once for one scope if and only if building it comes to suspend. */
  lemma ScopedTwiceReachable(reg: Registry, scope: nat, ty: Interface)
    requires PerScope(reg, ty) && Verdict0(reg, ty) == Fine
    ensures (exists run :: LoopRun(reg, run) && CalmRun(run) && After(reg, run).Some?
                           && Completed(reg, run, scope, ty) >= 2)
       <==> Hangs(reg, ty)
  {
    if run :| LoopRun(reg, run) && CalmRun(run) && After(reg, run).Some? && Completed(reg, run, scope, ty) >= 2 {
      TwiceHangs(reg, run, scope, ty);
    }
    if Hangs(reg, ty) {
      ScopedBuiltTwice(reg, scope, ty);
    }
  }
}
