/** Concurrent resolutions and the validator's verdicts: what a request returns, in every
    interleaving. */
module ContainerVerdicts {
  import opened Wrappers
  import opened ContainerValidation
  import opened ContainerResolver
  import opened ContainerTrails
  import opened ContainerInterleaving

  /** The event is not a constructor or factory raising something. */
  predicate Calm(e: Event) {
    e.Advance? ==> e.call.Succeeds?
  }

  /** The reply of a call for a type with this verdict.  With constructors that raise, all that is
      certain is that nothing is handed out for a type with a missing dependency. */
  predicate ReplyTells(calm: bool, v: Verdict, reply: Reply) {
    match reply
    case Value(_) => if calm then v == Fine else v != Missing
    case Raise(e) => calm ==> (e == Circular && v == Cyclic) || (e == Resolution && v == Missing)
  }

  predicate ArgTells(reg: Registry, calm: bool, p: Param, arg: Arg) {
    && p.annotation.Some?
    && var v := Verdict0(reg, p.annotation.value);
       match arg
       case Injected(_) => if calm then v == Fine else v != Missing
       case Defaulted => p.hasDefault && (calm ==> v == Missing)
  }

  ghost predicate ArgsTell(reg: Registry, calm: bool, params: seq<Param>, args: seq<Arg>) {
    |args| <= |params| && forall j :: 0 <= j < |args| ==> ArgTells(reg, calm, params[j], args[j])
  }

  ghost predicate FrameTells(reg: Registry, calm: bool, f: Frame) {
    f.pc.Building? && f.ty in reg && reg[f.ty].provider.Target? ==>
      ArgsTell(reg, calm, reg[f.ty].provider.params, f.args)
  }

  /** The type that the reply at hand was asked for. */
  function Asked(reg: Registry, t: Task): Interface {
    if t.stack == [] then t.root
    else if AwaitsSome(reg, Top(t)) then reg[Top(t).ty].provider.params[|Top(t).args|].annotation.value
    else ""
  }

  ghost predicate TaskTells(reg: Registry, calm: bool, t: Task) {
    && (forall j :: 0 <= j < |t.stack| ==> FrameTells(reg, calm, t.stack[j]))
    && (t.reply.Some? ==> ReplyTells(calm, Verdict0(reg, Asked(reg, t)), t.reply.value))
    && (if t.stack == [] then t.reply.Some? else t.stack[0].ty == t.root)
  }

  ghost predicate CachesTell(reg: Registry, calm: bool, s: State) {
    && (forall ty :: ty in s.singletons ==> ReplyTells(calm, Verdict0(reg, ty), Value(s.singletons[ty])))
    && (forall key :: key in s.scoped ==> ReplyTells(calm, Verdict0(reg, key.1), Value(s.scoped[key])))
    && (forall key :: key in s.scoped ==> key.1 in reg && reg[key.1].lifetime == Scoped)
  }

  // ----- stacks are trails

  function TypeSeq(frames: seq<Frame>): (types: seq<Interface>)
    ensures |types| == |frames|
    ensures forall i :: 0 <= i < |frames| ==> types[i] == frames[i].ty
  {
    seq(|frames|, i requires 0 <= i < |frames| => frames[i].ty)
  }

  /** The arguments that a construction has collected passed the validator, too: always in calm runs,
      and otherwise if its type is not cyclic. */
  lemma {:induction false} CollectedPass(reg: Registry, calm: bool, f: Frame, n: nat)
    requires calm || Verdict0(reg, f.ty) != Cyclic
    requires FrameTells(reg, calm, f) && f.pc.Building? && f.ty in reg && reg[f.ty].provider.Target?
    requires n <= |f.args|
    ensures forall j :: 0 <= j < n ==> j < |reg[f.ty].provider.params| && Passes(reg, reg[f.ty].provider.params[j])
  {
    if n > 0 {
      CollectedPass(reg, calm, f, n - 1);
      var params := reg[f.ty].provider.params;
      assert ArgTells(reg, calm, params[n - 1], f.args[n - 1]);
      if !calm {
        var ty := params[n - 1].annotation.value;
        assert AsksAt(reg, params, n - 1, ty);
        AskedStaysClear(reg, f.ty, ty);
      }
    }
  }

  /** A frame asks for its next parameter as the validator follows it. */
  lemma AsksNext(reg: Registry, calm: bool, f: Frame, ty: Interface)
    requires calm || Verdict0(reg, f.ty) != Cyclic
    requires FrameTells(reg, calm, f) && Awaits(reg, f, ty)
    ensures Asks(reg, f.ty, ty)
    ensures AsksAt(reg, reg[f.ty].provider.params, |f.args|, ty)
  {
    CollectedPass(reg, calm, f, |f.args|);
    assert AsksAt(reg, reg[f.ty].provider.params, |f.args|, ty);
  }

  /** The types asked for on behalf of a request that is not cyclic are not cyclic, either. */
  lemma {:induction false} StackStaysClear(reg: Registry, calm: bool, t: Task, j: nat)
    requires StackOk(reg, t) && TaskTells(reg, calm, t) && Verdict0(reg, t.root) != Cyclic && j < |t.stack|
    ensures Verdict0(reg, t.stack[j].ty) != Cyclic
  {
    if j > 0 {
      StackStaysClear(reg, calm, t, j - 1);
      assert Awaits(reg, t.stack[j - 1], t.stack[j].ty);
      AsksNext(reg, calm, t.stack[j - 1], t.stack[j].ty);
      AskedStaysClear(reg, t.stack[j - 1].ty, t.stack[j].ty);
    }
  }

  lemma StackIsTrail(reg: Registry, calm: bool, t: Task)
    requires calm || Verdict0(reg, t.root) != Cyclic
    requires StackOk(reg, t) && TaskTells(reg, calm, t)
    ensures Trail(reg, TypeSeq(t.stack))
  {
    var types := TypeSeq(t.stack);
    forall m, n | 0 <= m && n == m + 1 < |types|
      ensures Asks(reg, types[m], types[n])
    {
      assert Awaits(reg, t.stack[m], t.stack[n].ty);
      if !calm {
        StackStaysClear(reg, calm, t, m);
      }
      AsksNext(reg, calm, t.stack[m], t.stack[n].ty);
    }
  }

  /** A type asked for while it is on the chain has the verdict "cyclic". */
  lemma RepeatedIsCyclic(reg: Registry, t: Task)
    requires t.stack != [] && Trail(reg, TypeSeq(t.stack)) && Top(t).ty in Types(Below(t))
    ensures Verdict0(reg, Top(t).ty) == Cyclic
  {
    var f :| f in Below(t) && f.ty == Top(t).ty;
    var i :| 0 <= i < |Below(t)| && Below(t)[i] == f;
    var types := TypeSeq(t.stack);
    var lasso := types[i..|types|];
    PartIsTrail(reg, types, i, |types|);
    assert lasso[..|lasso| - 1][0] == lasso[|lasso| - 1];
    LassoIsCyclic(reg, lasso);
  }

  // ----- what the arguments collected so far say about a type

  lemma {:induction false} NoGap(reg: Registry, params: seq<Param>, chain: set<Interface>)
    requires forall j :: 0 <= j < |params| ==>
               params[j].annotation.Some?
               && (Verdict0(reg, params[j].annotation.value) == Missing ==> params[j].hasDefault)
    ensures ValidateParams(reg, params, chain) != Missing
  {
    if params != [] {
      var t := params[0].annotation.value;
      if ValidateNode(reg, t, chain) == Missing {
        SmallerChain(reg, t, chain, {});
      }
      NoGap(reg, params[1..], chain);
    }
  }

  /** Asked for by a construction that starts at the root, a type has its verdict from the root. */
  lemma AskedFromRoot(reg: Registry, a: Interface, b: Interface)
    requires Asks(reg, a, b) && Verdict0(reg, b) != Cyclic
    ensures ValidateNode(reg, b, {a}) == Verdict0(reg, b)
  {
    if a == b {
      assert [a, a][..1][0] == a;
      LassoIsCyclic(reg, [a, a]);
    } else {
      assert [a] + [b] == [a, b] && Elements([a]) == {a};
      ChainIndependent(reg, [a], b);
    }
  }

  /** Parameters that pass leave the verdict to the rest. */
  lemma {:induction false} PassThrough(reg: Registry, ty: Interface, k: nat)
    requires ty in reg && reg[ty].provider.Target? && k <= |reg[ty].provider.params|
    requires forall j :: 0 <= j < k ==> Passes(reg, reg[ty].provider.params[j])
    ensures Verdict0(reg, ty) == ValidateParams(reg, reg[ty].provider.params[k..], {ty})
  {
    var params := reg[ty].provider.params;
    assert {} + {ty} == {ty};
    if k == 0 {
      assert params[0..] == params;
    } else {
      PassThrough(reg, ty, k - 1);
      var p := params[k - 1];
      assert params[k - 1..][0] == p && params[k - 1..][1..] == params[k..];
      assert Passes(reg, p);
      assert AsksAt(reg, params, k - 1, p.annotation.value);
      AskedFromRoot(reg, ty, p.annotation.value);
    }
  }

  lemma FirstStop(reg: Registry, params: seq<Param>) returns (k: nat)
    ensures k <= |params| && (forall j :: 0 <= j < k ==> Passes(reg, params[j]))
    ensures k < |params| ==> !Passes(reg, params[k])
  {
    k := 0;
    while k < |params| && Passes(reg, params[k])
      invariant k <= |params| && forall j :: 0 <= j < k ==> Passes(reg, params[j])
    {
      k := k + 1;
    }
  }

  /** The first parameter at which a construction stops. */
  ghost predicate StopsMissing(reg: Registry, params: seq<Param>, k: nat) {
    && k < |params| && (forall j :: 0 <= j < k ==> Passes(reg, params[j]))
    && (params[k].annotation.None? || (Verdict0(reg, params[k].annotation.value) == Missing && !params[k].hasDefault))
  }

  ghost predicate StopsCyclic(reg: Registry, params: seq<Param>, k: nat) {
    && k < |params| && (forall j :: 0 <= j < k ==> Passes(reg, params[j]))
    && params[k].annotation.Some? && Verdict0(reg, params[k].annotation.value) == Cyclic
  }

  /** The verdicts from the root in terms of each other: an interface is fine if it is an instance, or all
      its parameters are fine or missing with a default; otherwise the first other parameter decides. */
  lemma VerdictExactly(reg: Registry, ty: Interface)
    ensures Verdict0(reg, ty) == Fine <==>
              ty in reg && (reg[ty].provider.Instance?
                            || (reg[ty].provider.Target? && forall p :: p in reg[ty].provider.params ==> Passes(reg, p)))
    ensures Verdict0(reg, ty) == Missing <==>
              ty !in reg || reg[ty].provider.NoTarget?
              || (reg[ty].provider.Target? && exists k :: StopsMissing(reg, reg[ty].provider.params, k))
    ensures Verdict0(reg, ty) == Cyclic <==>
              ty in reg && reg[ty].provider.Target? && exists k :: StopsCyclic(reg, reg[ty].provider.params, k)
  {
    if ty in reg && reg[ty].provider.Target? {
      var params := reg[ty].provider.params;
      var k := FirstStop(reg, params);
      PassThrough(reg, ty, k);
      if k == |params| {
        assert params[k..] == [];
      } else {
        StopDecides(reg, ty, k);
        assert params[k] in params;
      }
    }
  }

  lemma StopDecides(reg: Registry, ty: Interface, k: nat)
    requires ty in reg && reg[ty].provider.Target? && k < |reg[ty].provider.params|
    requires forall j :: 0 <= j < k ==> Passes(reg, reg[ty].provider.params[j])
    requires !Passes(reg, reg[ty].provider.params[k])
    ensures StopsMissing(reg, reg[ty].provider.params, k) || StopsCyclic(reg, reg[ty].provider.params, k)
    ensures Verdict0(reg, ty) == if StopsMissing(reg, reg[ty].provider.params, k) then Missing else Cyclic
  {
    var params := reg[ty].provider.params;
    var p := params[k];
    PassThrough(reg, ty, k);
    assert params[k..][0] == p;
    if p.annotation.Some? {
      assert AsksAt(reg, params, k, p.annotation.value);
      if Verdict0(reg, p.annotation.value) != Cyclic {
        AskedFromRoot(reg, ty, p.annotation.value);
      } else if Verdict0(reg, ty) != Cyclic {
        AskedStaysClear(reg, ty, p.annotation.value);
      }
    }
  }

  lemma CalmArgsPass(reg: Registry, f: Frame)
    requires FrameTells(reg, true, f) && f.pc.Building? && f.ty in reg && reg[f.ty].provider.Target?
    ensures |f.args| <= |reg[f.ty].provider.params|
    ensures Verdict0(reg, f.ty) == ValidateParams(reg, reg[f.ty].provider.params[|f.args|..], {f.ty})
  {
    CollectedPass(reg, true, f, |f.args|);
    PassThrough(reg, f.ty, |f.args|);
  }

  /** With all its arguments together a type can be built. */
  lemma AllArgsTell(reg: Registry, calm: bool, f: Frame, o: Obj)
    requires FrameTells(reg, calm, f) && f.pc.Building? && f.ty in reg && reg[f.ty].provider.Target?
    requires |f.args| >= |reg[f.ty].provider.params|
    ensures ReplyTells(calm, Verdict0(reg, f.ty), Value(o))
  {
    var params := reg[f.ty].provider.params;
    if calm {
      CalmArgsPass(reg, f);
      assert params[|f.args|..] == [];
    } else {
      forall j | 0 <= j < |params|
        ensures params[j].annotation.Some?
        ensures Verdict0(reg, params[j].annotation.value) == Missing ==> params[j].hasDefault
      {
        assert ArgTells(reg, calm, params[j], f.args[j]);
      }
      NoGap(reg, params, {} + {f.ty});
    }
  }

  /** A parameter without an annotation, and an error that no default swallows, decide the verdict. */
  lemma ErrorTells(reg: Registry, f: Frame)
    requires FrameTells(reg, true, f) && f.pc.Building? && f.ty in reg && reg[f.ty].provider.Target?
    requires |f.args| < |reg[f.ty].provider.params|
    ensures var p := reg[f.ty].provider.params[|f.args|];
            if p.annotation.None? then Verdict0(reg, f.ty) == Missing
            else
              && (Verdict0(reg, p.annotation.value) == Cyclic ==> Verdict0(reg, f.ty) == Cyclic)
              && (Verdict0(reg, p.annotation.value) == Missing && !p.hasDefault ==> Verdict0(reg, f.ty) == Missing)
  {
    var params := reg[f.ty].provider.params;
    var p := params[|f.args|];
    CalmArgsPass(reg, f);
    assert params[|f.args|..][0] == p;
    if p.annotation.Some? {
      var t := p.annotation.value;
      AsksNext(reg, true, f, t);
      if Verdict0(reg, t) != Cyclic {
        AskedFromRoot(reg, f.ty, t);
      } else if Verdict0(reg, f.ty) != Cyclic {
        AskedIsNotCyclic(reg, f.ty, t);
      }
    }
  }

  // ----- every step keeps it

  /** The step turns task `k` into `t'`, which tells, and so do the caches. */
  ghost predicate StillTells(reg: Registry, calm: bool, s: State, s': State, k: nat) {
    && k in s'.tasks && s'.tasks == s.tasks[k := s'.tasks[k]]
    && TaskTells(reg, calm, s'.tasks[k]) && CachesTell(reg, calm, s')
  }

  lemma ReturnTells(reg: Registry, calm: bool, s: State, k: nat, reply: Reply)
    requires Unfinished(s, k) && StackOk(reg, s.tasks[k]) && TaskTells(reg, calm, s.tasks[k])
    requires CachesTell(reg, calm, s) && ReplyTells(calm, Verdict0(reg, Top(s.tasks[k]).ty), reply)
    ensures StillTells(reg, calm, s, Return(s, k, reply), k)
  {
    var t := s.tasks[k];
    var t' := t.(stack := Below(t), reply := Some(reply));
    var n := |t.stack|;
    if n >= 2 {
      assert Awaits(reg, t.stack[n - 2], t.stack[n - 1].ty);
    }
    assert Asked(reg, t') == Top(t).ty;
    assert forall j :: 0 <= j < n - 1 ==> t'.stack[j] == t.stack[j];
  }

  lemma FinishTells(reg: Registry, calm: bool, s: State, k: nat, reply: Reply)
    requires Unfinished(s, k) && StackOk(reg, s.tasks[k]) && TaskTells(reg, calm, s.tasks[k])
    requires CachesTell(reg, calm, s) && ReplyTells(calm, Verdict0(reg, Top(s.tasks[k]).ty), reply)
    ensures StillTells(reg, calm, s, Finish(reg, s, k, reply), k)
  {
    var ty := Top(s.tasks[k]).ty;
    ReturnTells(reg, calm, if Shared(reg, ty) then s.(holder := s.holder - {ty}) else s, k, reply);
  }

  lemma SetTopTells(reg: Registry, calm: bool, s: State, k: nat, f: Frame)
    requires Unfinished(s, k) && TaskTells(reg, calm, s.tasks[k]) && CachesTell(reg, calm, s)
    requires FrameTells(reg, calm, f) && f.ty == Top(s.tasks[k]).ty
    ensures StillTells(reg, calm, s, SetTop(s, k, f), k)
  {
  }

  lemma PushTells(reg: Registry, calm: bool, s: State, k: nat, ty: Interface)
    requires Unfinished(s, k) && TaskTells(reg, calm, s.tasks[k]) && CachesTell(reg, calm, s)
    requires s.tasks[k].reply.None?
    ensures StillTells(reg, calm, s, Push(s, k, ty), k)
  {
  }

  ghost predicate Telling(reg: Registry, calm: bool, s: State, k: nat) {
    Inv(reg, s) && Unfinished(s, k) && TaskTells(reg, calm, s.tasks[k]) && CachesTell(reg, calm, s)
  }

  lemma EnterTells(reg: Registry, calm: bool, s: State, k: nat)
    requires Telling(reg, calm, s, k) && Top(s.tasks[k]).pc.Entering? && s.tasks[k].reply.None?
    ensures StillTells(reg, calm, s, Enter(reg, s, k), k)
  {
    var t := s.tasks[k];
    var ty := Top(t).ty;
    if ty in Types(Below(t)) {
      if calm {
        StackIsTrail(reg, calm, t);
        RepeatedIsCyclic(reg, t);
      }
      ReturnTells(reg, calm, s, k, Raise(Circular));
    } else if ty !in reg {
      ReturnTells(reg, calm, s, k, Raise(Resolution));
    } else if reg[ty].lifetime == Singleton && ty in s.singletons {
      ReturnTells(reg, calm, s, k, Value(s.singletons[ty]));
    } else if reg[ty].lifetime == Scoped && (t.scope, ty) in s.scoped {
      ReturnTells(reg, calm, s, k, Value(s.scoped[(t.scope, ty)]));
    } else if reg[ty].provider.Instance? {
      ReturnTells(reg, calm, s, k, Value(Ready(ty)));
    } else if reg[ty].lifetime == Singleton {
      SetTopTells(reg, calm, s, k, Frame(ty, Waiting, []));
    } else {
      SetTopTells(reg, calm, s, k, Frame(ty, Building, []));
    }
  }

  lemma AcquireTells(reg: Registry, calm: bool, s: State, k: nat)
    requires Telling(reg, calm, s, k) && Top(s.tasks[k]).pc.Waiting? && s.tasks[k].reply.None?
    ensures StillTells(reg, calm, s, Acquire(s, k), k)
  {
    var ty := Top(s.tasks[k]).ty;
    if ty in s.singletons {
      ReturnTells(reg, calm, s, k, Value(s.singletons[ty]));
    } else {
      SetTopTells(reg, calm, s.(holder := s.holder[ty := k]), k, Frame(ty, Building, []));
    }
  }

  lemma ConstructTells(reg: Registry, calm: bool, s: State, k: nat, call: CallOutcome)
    requires Telling(reg, calm, s, k) && Top(s.tasks[k]).pc.Building? && Top(s.tasks[k]).ty in reg
    requires reg[Top(s.tasks[k]).ty].provider.Target? && (calm ==> call.Succeeds?)
    requires |Top(s.tasks[k]).args| >= |reg[Top(s.tasks[k]).ty].provider.params|
    ensures StillTells(reg, calm, s, Construct(reg, s, k, call), k)
  {
    var t := s.tasks[k];
    var ty := Top(t).ty;
    match call
    case Fails(e) => FinishTells(reg, calm, s, k, Raise(e));
    case Succeeds =>
      var o := Made(s.nextId, ty, Top(t).args);
      AllArgsTell(reg, calm, Top(t), o);
      StoreTells(reg, calm, s, t.scope, ty, o);
      FinishTells(reg, calm, Store(reg, s, t.scope, ty, o), k, Value(o));
  }

  lemma StoreTells(reg: Registry, calm: bool, s: State, scope: nat, ty: Interface, o: Obj)
    requires CachesTell(reg, calm, s) && ty in reg && ReplyTells(calm, Verdict0(reg, ty), Value(o))
    ensures CachesTell(reg, calm, Store(reg, s, scope, ty, o)) && Store(reg, s, scope, ty, o).tasks == s.tasks
  {
  }

  lemma BuildTells(reg: Registry, calm: bool, s: State, k: nat, call: CallOutcome)
    requires Telling(reg, calm, s, k) && Top(s.tasks[k]).pc.Building? && s.tasks[k].reply.None?
    requires Top(s.tasks[k]).ty in reg && (calm ==> call.Succeeds?)
    ensures StillTells(reg, calm, s, Build(reg, s, k, call), k)
  {
    var f := Top(s.tasks[k]);
    match reg[f.ty].provider
    case Instance =>
    case NoTarget => FinishTells(reg, calm, s, k, Raise(Resolution));
    case Target(params, _) =>
      if |f.args| >= |params| {
        ConstructTells(reg, calm, s, k, call);
      } else if params[|f.args|].annotation.None? {
        if calm {
          ErrorTells(reg, f);
        }
        FinishTells(reg, calm, s, k, Raise(Resolution));
      } else {
        PushTells(reg, calm, s, k, params[|f.args|].annotation.value);
      }
  }

  lemma ReceiveTells(reg: Registry, calm: bool, s: State, k: nat, reply: Reply)
    requires Telling(reg, calm, s, k) && s.tasks[k].reply == Some(reply) && Top(s.tasks[k]).ty in reg
    ensures StillTells(reg, calm, s, Receive(reg, s, k, reply), k)
  {
    var f := Top(s.tasks[k]);
    assert AwaitsSome(reg, f);
    assert FrameTells(reg, calm, f);
    match reply
    case Value(o) =>
      ArgsTellMore(reg, calm, f, Injected(o));
      SetTopTells(reg, calm, s, k, f.(args := f.args + [Injected(o)]));
    case Raise(e) =>
      if e == Resolution && AwaitsDefault(reg, f) {
        ArgsTellMore(reg, calm, f, Defaulted);
        SetTopTells(reg, calm, s, k, f.(args := f.args + [Defaulted]));
      } else {
        if calm {
          ErrorTells(reg, f);
        }
        FinishTells(reg, calm, s, k, Raise(e));
      }
  }

  lemma ArgsTellMore(reg: Registry, calm: bool, f: Frame, arg: Arg)
    requires AwaitsSome(reg, f) && FrameTells(reg, calm, f)
    requires ArgTells(reg, calm, reg[f.ty].provider.params[|f.args|], arg)
    ensures FrameTells(reg, calm, f.(args := f.args + [arg]))
  {
  }

  lemma AdvanceTells(reg: Registry, calm: bool, s: State, k: nat, call: CallOutcome)
    requires Telling(reg, calm, s, k) && (calm ==> call.Succeeds?)
    ensures StillTells(reg, calm, s, AdvanceTask(reg, s, k, call), k)
  {
    var t := s.tasks[k];
    assert FrameOk(reg, t.stack[|t.stack| - 1]);
    if t.reply.Some? {
      ReceiveTells(reg, calm, s, k, t.reply.value);
    } else {
      match Top(t).pc
      case Entering => EnterTells(reg, calm, s, k);
      case Waiting => AcquireTells(reg, calm, s, k);
      case Building => BuildTells(reg, calm, s, k, call);
    }
  }

  ghost predicate AllTell(reg: Registry, calm: bool, s: State) {
    CachesTell(reg, calm, s) && forall k :: k in s.tasks ==> TaskTells(reg, calm, s.tasks[k])
  }

  lemma StepTells(reg: Registry, calm: bool, s: State, e: Event)
    requires Inv(reg, s) && Enabled(s, e) && AllTell(reg, calm, s) && (calm ==> Calm(e))
    ensures AllTell(reg, calm, Apply(reg, s, e))
  {
    match e
    case Spawn(k, root, scope) =>
    case Advance(k, call) => AdvanceTells(reg, calm, s, k, call);
  }

  ghost predicate CalmRun(events: seq<Event>) {
    forall e :: e in events ==> Calm(e)
  }

  /** After every run all that is held, cached or replied agrees with the verdicts. */
  lemma {:induction false} RunTells(reg: Registry, calm: bool, events: seq<Event>)
    requires After(reg, events).Some? && (calm ==> CalmRun(events))
    ensures AllTell(reg, calm, After(reg, events).value)
  {
    if events != [] {
      var n := |events| - 1;
      assert forall e :: e in events[..n] ==> e in events;
      RunTells(reg, calm, events[..n]);
      RunInv(reg, events[..n]);
      assert events[n] in events;
      StepTells(reg, calm, After(reg, events[..n]).value, events[n]);
    }
  }

  // ----- the theorems

  /** On every registry and in every interleaving in which no constructor raises, a request that is
      finished returned a value, raised a circular dependency, or raised a missing one exactly as
      the validator says for its interface. */
  lemma RunsEndAsValidated(reg: Registry, events: seq<Event>, k: nat)
    requires After(reg, events).Some? && CalmRun(events)
    requires k in After(reg, events).value.tasks && !Unfinished(After(reg, events).value, k)
    ensures var t := After(reg, events).value.tasks[k];
            && t.reply.Some?
            && (t.reply.value.Value? <==> Verdict0(reg, t.root) == Fine)
            && (t.reply.value == Raise(Circular) <==> Verdict0(reg, t.root) == Cyclic)
            && (t.reply.value == Raise(Resolution) <==> Verdict0(reg, t.root) == Missing)
  {
    RunTells(reg, true, events);
  }

  /** Whatever constructors raise, nothing is ever returned for an interface that the validator
      reports as missing a dependency. */
  lemma MissingNeverResolves(reg: Registry, events: seq<Event>, k: nat)
    requires After(reg, events).Some?
    requires k in After(reg, events).value.tasks && !Unfinished(After(reg, events).value, k)
    requires Verdict0(reg, After(reg, events).value.tasks[k].root) == Missing
    ensures After(reg, events).value.tasks[k].reply.Some? && After(reg, events).value.tasks[k].reply.value.Raise?
  {
    RunTells(reg, false, events);
  }

  /** In a clean registry every request for a registered interface that finishes, finishes with a
      value, in every interleaving in which no constructor raises. */
  lemma CleanRunsSucceed(reg: Registry, events: seq<Event>, k: nat)
    requires Clean(reg) && After(reg, events).Some? && CalmRun(events)
    requires k in After(reg, events).value.tasks && !Unfinished(After(reg, events).value, k)
    requires After(reg, events).value.tasks[k].root in reg
    ensures After(reg, events).value.tasks[k].reply.Some? && After(reg, events).value.tasks[k].reply.value.Value?
  {
    RunsEndAsValidated(reg, events, k);
  }
}
