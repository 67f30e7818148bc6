/** Concurrent resolutions do not go on for ever: on every registry, cyclic ones included, a task
    takes a bounded number of steps. */
module ContainerTermination {
  import opened Wrappers
  import opened ContainerValidation
  import opened ContainerResolver
  import opened ContainerTrails
  import opened ContainerInterleaving

  // ----- how many steps are left at most

  /** Resolving `ty` along a chain: enter, acquire, construct, and two steps more for each
      parameter besides its own resolution. */
  function Work(reg: Registry, ty: Interface, chain: set<Interface>): (n: nat)
    ensures n >= 3
    decreases |Unvisited(reg, chain)|, 0
  {
    if ty in chain || ty !in reg || !reg[ty].provider.Target? then 3
    else
      assert Unvisited(reg, chain + {ty}) == Unvisited(reg, chain) - {ty};
      3 + ParamsWork(reg, reg[ty].provider.params, chain + {ty})
  }

  function ParamsWork(reg: Registry, params: seq<Param>, chain: set<Interface>): nat
    decreases |Unvisited(reg, chain)|, |params| + 1
  {
    if params == [] then 0
    else
      (match params[0].annotation
       case None => 0
       case Some(t) => 2 + Work(reg, t, chain))
      + ParamsWork(reg, params[1..], chain)
  }

  /** What is left of the parameters of a type from the `n`-th on. */
  function RestWork(reg: Registry, ty: Interface, n: nat, chain: set<Interface>): nat {
    if ty in reg && reg[ty].provider.Target? && n <= |reg[ty].provider.params| then
      ParamsWork(reg, reg[ty].provider.params[n..], chain + {ty})
    else 0
  }

  /** A call that waits for a parameter has that one behind it but for taking up the reply. */
  function FrameWork(reg: Registry, f: Frame, chain: set<Interface>, awaiting: bool): (n: nat)
    ensures n >= 1
  {
    match f.pc
    case Entering => Work(reg, f.ty, chain)
    case Waiting => 2 + RestWork(reg, f.ty, 0, chain)
    case Building =>
      if awaiting then 2 + RestWork(reg, f.ty, |f.args| + 1, chain) else 1 + RestWork(reg, f.ty, |f.args|, chain)
  }

  function StackWork(reg: Registry, stack: seq<Frame>, awaiting: bool): nat {
    if stack == [] then 0
    else
      var n := |stack| - 1;
      FrameWork(reg, stack[n], Types(stack[..n]), awaiting) + StackWork(reg, stack[..n], true)
  }

  function TaskWork(reg: Registry, t: Task): nat {
    StackWork(reg, t.stack, t.reply.Some?)
  }

  // ----- every step uses some of it up

  lemma SetTopWork(reg: Registry, t: Task, f: Frame)
    requires t.stack != []
    requires FrameWork(reg, f, Types(Below(t)), false) < FrameWork(reg, Top(t), Types(Below(t)), t.reply.Some?)
    ensures TaskWork(reg, t.(stack := Below(t) + [f], reply := None)) < TaskWork(reg, t)
  {
    assert (Below(t) + [f])[..|t.stack| - 1] == Below(t);
  }

  lemma PopWork(reg: Registry, t: Task, reply: Reply)
    requires t.stack != []
    ensures TaskWork(reg, t.(stack := Below(t), reply := Some(reply))) < TaskWork(reg, t)
  {
  }

  lemma PushWork(reg: Registry, t: Task, ty: Interface)
    requires t.stack != [] && t.reply.None? && Awaits(reg, Top(t), ty)
    ensures TaskWork(reg, t.(stack := t.stack + [Frame(ty, Entering, [])])) < TaskWork(reg, t)
  {
    var f, n := Top(t), |Top(t).args|;
    PushedWork(reg, t.stack, ty);
    NextParamWork(reg, reg[f.ty].provider.params, n, ty, Types(Below(t)) + {f.ty});
    TypesWithTop(t);
  }

  lemma PushedWork(reg: Registry, stack: seq<Frame>, ty: Interface)
    ensures StackWork(reg, stack + [Frame(ty, Entering, [])], false)
         == Work(reg, ty, Types(stack)) + StackWork(reg, stack, true)
  {
    assert (stack + [Frame(ty, Entering, [])])[..|stack|] == stack;
  }

  lemma TypesWithTop(t: Task)
    requires t.stack != []
    ensures Types(t.stack) == Types(Below(t)) + {Top(t).ty}
  {
    assert t.stack == Below(t) + [Top(t)];
  }

  lemma NextParamWork(reg: Registry, params: seq<Param>, n: nat, ty: Interface, chain: set<Interface>)
    requires n < |params| && params[n].annotation == Some(ty)
    ensures ParamsWork(reg, params[n..], chain) == 2 + Work(reg, ty, chain) + ParamsWork(reg, params[n + 1..], chain)
  {
    assert params[n..][0] == params[n] && params[n..][1..] == params[n + 1..];
  }

  /** The step changes task `k` only, and leaves it less to do. */
  ghost predicate UsesUp(reg: Registry, s: State, s': State, k: nat) {
    && k in s.tasks && s'.tasks.Keys == s.tasks.Keys
    && (forall m :: m in s.tasks && m != k ==> s'.tasks[m] == s.tasks[m])
    && s'.tasks[k].root == s.tasks[k].root && s'.tasks[k].scope == s.tasks[k].scope
    && TaskWork(reg, s'.tasks[k]) < TaskWork(reg, s.tasks[k])
  }

  lemma EnterWork(reg: Registry, s: State, k: nat)
    requires Unfinished(s, k) && Top(s.tasks[k]).pc.Entering? && s.tasks[k].reply.None?
    ensures UsesUp(reg, s, Enter(reg, s, k), k)
  {
    var t := s.tasks[k];
    var ty := Top(t).ty;
    if ty in Types(Below(t)) {
      ReturnWork(reg, s, k, Raise(Circular));
    } else if ty !in reg {
      ReturnWork(reg, s, k, Raise(Resolution));
    } else if reg[ty].lifetime == Singleton && ty in s.singletons {
      ReturnWork(reg, s, k, Value(s.singletons[ty]));
    } else if reg[ty].lifetime == Scoped && (t.scope, ty) in s.scoped {
      ReturnWork(reg, s, k, Value(s.scoped[(t.scope, ty)]));
    } else if reg[ty].provider.Instance? {
      ReturnWork(reg, s, k, Value(Ready(ty)));
    } else {
      EnteredWork(reg, ty, Types(Below(t)));
      SetTopWork(reg, t, Frame(ty, Waiting, []));
      SetTopWork(reg, t, Frame(ty, Building, []));
    }
  }

  lemma EnteredWork(reg: Registry, ty: Interface, chain: set<Interface>)
    requires ty in reg && ty !in chain
    ensures FrameWork(reg, Frame(ty, Waiting, []), chain, false) < Work(reg, ty, chain)
    ensures FrameWork(reg, Frame(ty, Building, []), chain, false) < Work(reg, ty, chain)
  {
    if reg[ty].provider.Target? {
      assert reg[ty].provider.params[0..] == reg[ty].provider.params;
    }
  }

  lemma ReturnWork(reg: Registry, s: State, k: nat, reply: Reply)
    requires Unfinished(s, k)
    ensures UsesUp(reg, s, Return(s, k, reply), k)
  {
    PopWork(reg, s.tasks[k], reply);
  }

  lemma AcquireWork(reg: Registry, s: State, k: nat)
    requires Unfinished(s, k) && Top(s.tasks[k]).pc.Waiting? && s.tasks[k].reply.None?
    ensures UsesUp(reg, s, Acquire(s, k), k)
  {
    var t := s.tasks[k];
    var ty := Top(t).ty;
    if ty in s.singletons {
      PopWork(reg, t, Value(s.singletons[ty]));
    } else {
      SetTopWork(reg, t, Frame(ty, Building, []));
    }
  }

  lemma FinishWork(reg: Registry, s: State, s1: State, k: nat, reply: Reply)
    requires Unfinished(s, k) && s1.tasks == s.tasks
    ensures UsesUp(reg, s, Finish(reg, s1, k, reply), k)
  {
    PopWork(reg, s.tasks[k], reply);
  }

  lemma ConstructWork(reg: Registry, s: State, k: nat, call: CallOutcome)
    requires Unfinished(s, k) && Top(s.tasks[k]).ty in reg
    ensures UsesUp(reg, s, Construct(reg, s, k, call), k)
  {
    var t := s.tasks[k];
    match call
    case Fails(e) => FinishWork(reg, s, s, k, Raise(e));
    case Succeeds =>
      var o := Made(s.nextId, Top(t).ty, Top(t).args);
      FinishWork(reg, s, Store(reg, s, t.scope, Top(t).ty, o), k, Value(o));
  }

  lemma BuildWork(reg: Registry, s: State, k: nat, call: CallOutcome)
    requires Inv(reg, s) && Unfinished(s, k) && Top(s.tasks[k]).pc.Building? && s.tasks[k].reply.None?
    requires Top(s.tasks[k]).ty in reg
    ensures UsesUp(reg, s, Build(reg, s, k, call), k)
  {
    var t := s.tasks[k];
    var f := Top(t);
    assert FrameOk(reg, t.stack[|t.stack| - 1]);
    match reg[f.ty].provider
    case Instance =>
    case NoTarget => FinishWork(reg, s, s, k, Raise(Resolution));
    case Target(params, _) =>
      if |f.args| >= |params| {
        ConstructWork(reg, s, k, call);
      } else if params[|f.args|].annotation.None? {
        FinishWork(reg, s, s, k, Raise(Resolution));
      } else {
        PushWork(reg, t, params[|f.args|].annotation.value);
      }
  }

  lemma ReceiveWork(reg: Registry, s: State, k: nat, reply: Reply)
    requires Inv(reg, s) && Unfinished(s, k) && s.tasks[k].reply == Some(reply) && Top(s.tasks[k]).ty in reg
    ensures UsesUp(reg, s, Receive(reg, s, k, reply), k)
  {
    var t := s.tasks[k];
    var f := Top(t);
    assert AwaitsSome(reg, f);
    match reply
    case Value(o) => SetTopWork(reg, t, f.(args := f.args + [Injected(o)]));
    case Raise(e) =>
      if e == Resolution && AwaitsDefault(reg, f) {
        SetTopWork(reg, t, f.(args := f.args + [Defaulted]));
      } else {
        FinishWork(reg, s, s, k, Raise(e));
      }
  }

  lemma AdvanceWork(reg: Registry, s: State, k: nat, call: CallOutcome)
    requires Inv(reg, s) && CanAdvance(s, k)
    ensures UsesUp(reg, s, AdvanceTask(reg, s, k, call), k)
  {
    var t := s.tasks[k];
    assert FrameOk(reg, t.stack[|t.stack| - 1]);
    if t.reply.Some? {
      ReceiveWork(reg, s, k, t.reply.value);
    } else {
      match Top(t).pc
      case Entering => EnterWork(reg, s, k);
      case Waiting => AcquireWork(reg, s, k);
      case Building => BuildWork(reg, s, k, call);
    }
  }

  // ----- no task goes on for ever

  /** How many steps a task takes in a run. */
  function Steps(events: seq<Event>, k: nat): nat {
    if events == [] then 0
    else
      var n := |events| - 1;
      Steps(events[..n], k) + if events[n].Advance? && events[n].task == k then 1 else 0
  }

  /** On every registry and in every interleaving, the steps that a task has taken and those it
      has left are no more than the work of its request from the root. */
  lemma {:induction false} StepsBounded(reg: Registry, events: seq<Event>, k: nat)
    requires After(reg, events).Some? && k in After(reg, events).value.tasks
    ensures Steps(events, k) + TaskWork(reg, After(reg, events).value.tasks[k])
         <= Work(reg, After(reg, events).value.tasks[k].root, {})
  {
    var n := |events| - 1;
    assert events != [];
    var s, e := After(reg, events[..n]).value, events[n];
    RunInv(reg, events[..n]);
    if k in s.tasks {
      StepsBounded(reg, events[..n], k);
      if e.Advance? {
        AdvanceWork(reg, s, e.task, e.call);
      }
    } else {
      NoStepsYet(reg, events[..n], k);
      if e.Advance? {
        AdvanceWork(reg, s, e.task, e.call);
      }
      SpawnedWork(reg, e.root);
    }
  }

  lemma SpawnedWork(reg: Registry, root: Interface)
    ensures StackWork(reg, [Frame(root, Entering, [])], false) == Work(reg, root, {})
  {
    var stack := [Frame(root, Entering, [])];
    assert stack[..0] == [] && Types([]) == {};
    assert StackWork(reg, stack[..0], true) == 0;
  }

  lemma {:induction false} NoStepsYet(reg: Registry, events: seq<Event>, k: nat)
    requires After(reg, events).Some? && k !in After(reg, events).value.tasks
    ensures Steps(events, k) == 0
  {
    if events != [] {
      var n := |events| - 1;
      var s, e := After(reg, events[..n]).value, events[n];
      RunInv(reg, events[..n]);
      if e.Advance? {
        AdvanceWork(reg, s, e.task, e.call);
      }
      NoStepsYet(reg, events[..n], k);
    }
  }
}
