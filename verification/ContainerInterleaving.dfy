/** Many tasks resolving at once (core/container/resolver.py): every await is a step boundary,
    singletons are built under per-type locks with a second look at the cache. */
module ContainerInterleaving {
  import opened Wrappers
  import opened Sorting
  import opened ContainerValidation
  import opened ContainerResolver
  import opened ContainerTrails

  /** Where a `resolve` call is: about to look at the caches, waiting for the lock of its type, or
      building (with the lock if the type is a singleton). */
  datatype Pc = Entering | Waiting | Building

  /** One `resolve` call of a task, with the arguments it has collected. */
  datatype Frame = Frame(ty: Interface, pc: Pc, args: seq<Arg>)

  datatype Raised = Circular | Resolution | Other

  datatype Reply = Value(obj: Obj) | Raise(error: Raised)

  /** `stack` holds the nested calls, innermost last; `reply` is what the innermost finished call
      handed back and nobody has taken up yet. */
  datatype Task = Task(root: Interface, scope: nat, stack: seq<Frame>, reply: Option<Reply>)

  /** `builds` and `handed` are the history: the singletons built, and every value returned. */
  datatype State = State(
    tasks: map<nat, Task>,
    singletons: map<Interface, Obj>,
    scoped: map<(nat, Interface), Obj>,
    holder: map<Interface, nat>,
    nextId: nat,
    builds: seq<Interface>,
    handed: seq<(Interface, Obj)>)

  const INITIAL := State(map[], map[], map[], map[], 0, [], [])

  /** A constructor or factory returns an object or raises something. */
  datatype CallOutcome = Succeeds | Fails(error: Raised)

  datatype Event = Spawn(task: nat, root: Interface, scope: nat) | Advance(task: nat, call: CallOutcome)

  function Top(t: Task): Frame
    requires t.stack != []
  {
    t.stack[|t.stack| - 1]
  }

  function Below(t: Task): seq<Frame>
    requires t.stack != []
  {
    t.stack[..|t.stack| - 1]
  }

  function Types(frames: seq<Frame>): set<Interface> {
    set f | f in frames :: f.ty
  }

  // ----- one step of one task

  predicate Unfinished(s: State, k: nat) {
    k in s.tasks && s.tasks[k].stack != []
  }

  /** A task can go on unless it waits for a lock that somebody holds. */
  predicate CanAdvance(s: State, k: nat) {
    && Unfinished(s, k)
    && var t := s.tasks[k];
       t.reply.Some? || !Top(t).pc.Waiting? || Top(t).ty !in s.holder
  }

  /** Replace the innermost frame. */
  function SetTop(s: State, k: nat, f: Frame): State
    requires Unfinished(s, k)
  {
    var t := s.tasks[k];
    s.(tasks := s.tasks[k := t.(stack := Below(t) + [f], reply := None)])
  }

  /** Call `resolve` for a parameter. */
  function Push(s: State, k: nat, ty: Interface): State
    requires Unfinished(s, k)
  {
    var t := s.tasks[k];
    s.(tasks := s.tasks[k := t.(stack := t.stack + [Frame(ty, Entering, [])])])
  }

  /** Leave the innermost call with a reply. */
  function Return(s: State, k: nat, reply: Reply): State
    requires Unfinished(s, k)
  {
    var t := s.tasks[k];
    s.(tasks := s.tasks[k := t.(stack := Below(t), reply := Some(reply))],
       handed := if reply.Value? then s.handed + [(Top(t).ty, reply.obj)] else s.handed)
  }

  /** Leave `async with lock`, if the innermost call is inside one, and return. */
  function Finish(reg: Registry, s: State, k: nat, reply: Reply): State
    requires Unfinished(s, k)
  {
    var ty := Top(s.tasks[k]).ty;
    Return(if Shared(reg, ty) then s.(holder := s.holder - {ty}) else s, k, reply)
  }

  function Enter(reg: Registry, s: State, k: nat): State
    requires Unfinished(s, k)
  {
    var t := s.tasks[k];
    var ty := Top(t).ty;
    if ty in Types(Below(t)) then Return(s, k, Raise(Circular))
    else if ty !in reg then Return(s, k, Raise(Resolution))
    else if reg[ty].lifetime == Singleton && ty in s.singletons then Return(s, k, Value(s.singletons[ty]))
    else if reg[ty].lifetime == Scoped && (t.scope, ty) in s.scoped then
      Return(s, k, Value(s.scoped[(t.scope, ty)]))
    else if reg[ty].provider.Instance? then Return(s, k, Value(Ready(ty)))
    else if reg[ty].lifetime == Singleton then SetTop(s, k, Frame(ty, Waiting, []))
    else SetTop(s, k, Frame(ty, Building, []))
  }

  /** The lock is free: take it and look at the cache once more. */
  function Acquire(s: State, k: nat): State
    requires Unfinished(s, k)
  {
    var ty := Top(s.tasks[k]).ty;
    if ty in s.singletons then Return(s, k, Value(s.singletons[ty]))
    else SetTop(s.(holder := s.holder[ty := k]), k, Frame(ty, Building, []))
  }

  /** Put a new object into the cache that its lifetime calls for. */
  function Store(reg: Registry, s: State, scope: nat, ty: Interface, o: Obj): State
    requires ty in reg
  {
    match reg[ty].lifetime
    case Singleton => s.(singletons := s.singletons[ty := o], builds := s.builds + [ty], nextId := s.nextId + 1)
    case Scoped => s.(scoped := s.scoped[(scope, ty) := o], nextId := s.nextId + 1)
    case Transient => s.(nextId := s.nextId + 1)
  }

  /** All arguments are there: call the target and cache what it returns. */
  function Construct(reg: Registry, s: State, k: nat, call: CallOutcome): State
    requires Unfinished(s, k) && Top(s.tasks[k]).ty in reg
  {
    var t := s.tasks[k];
    var ty := Top(t).ty;
    match call
    case Fails(e) => Finish(reg, s, k, Raise(e))
    case Succeeds =>
      var o := Made(s.nextId, ty, Top(t).args);
      Finish(reg, Store(reg, s, t.scope, ty, o), k, Value(o))
  }

  function Build(reg: Registry, s: State, k: nat, call: CallOutcome): State
    requires Unfinished(s, k) && Top(s.tasks[k]).ty in reg
  {
    var f := Top(s.tasks[k]);
    match reg[f.ty].provider
    case Instance => s
    case NoTarget => Finish(reg, s, k, Raise(Resolution))
    case Target(params, _) =>
      if |f.args| >= |params| then Construct(reg, s, k, call)
      else if params[|f.args|].annotation.None? then Finish(reg, s, k, Raise(Resolution))
      else Push(s, k, params[|f.args|].annotation.value)
  }

  /** The calling `_build` gets the reply of the parameter it asked for. */
  function Receive(reg: Registry, s: State, k: nat, reply: Reply): State
    requires Unfinished(s, k) && Top(s.tasks[k]).ty in reg
  {
    var f := Top(s.tasks[k]);
    match reply
    case Value(o) => SetTop(s, k, f.(args := f.args + [Injected(o)]))
    case Raise(e) =>
      if e == Resolution && AwaitsDefault(reg, f) then SetTop(s, k, f.(args := f.args + [Defaulted]))
      else Finish(reg, s, k, Raise(e))
  }

  /** The parameter that a building frame is at has a default. */
  predicate AwaitsDefault(reg: Registry, f: Frame) {
    f.ty in reg && reg[f.ty].provider.Target? && |f.args| < |reg[f.ty].provider.params|
    && reg[f.ty].provider.params[|f.args|].hasDefault
  }

  function AdvanceTask(reg: Registry, s: State, k: nat, call: CallOutcome): State
    requires Unfinished(s, k)
  {
    var t := s.tasks[k];
    if t.reply.Some? then (if Top(t).ty in reg then Receive(reg, s, k, t.reply.value) else s)
    else
      match Top(t).pc
      case Entering => Enter(reg, s, k)
      case Waiting => Acquire(s, k)
      case Building => if Top(t).ty in reg then Build(reg, s, k, call) else s
  }

  predicate Enabled(s: State, e: Event) {
    match e
    case Spawn(k, _, _) => k !in s.tasks
    case Advance(k, _) => CanAdvance(s, k)
  }

  function Apply(reg: Registry, s: State, e: Event): State
    requires Enabled(s, e)
  {
    match e
    case Spawn(k, root, scope) => s.(tasks := s.tasks[k := Task(root, scope, [Frame(root, Entering, [])], None)])
    case Advance(k, call) => AdvanceTask(reg, s, k, call)
  }

  /** The state after a sequence of events from the start, if each was possible in its turn. */
  function After(reg: Registry, events: seq<Event>): Option<State> {
    if events == [] then Some(INITIAL)
    else
      var n := |events| - 1;
      match After(reg, events[..n])
      case None => None
      case Some(s) => if Enabled(s, events[n]) then Some(Apply(reg, s, events[n])) else None
  }

  /** A successful construction hands back the new object. */
  lemma ConstructTask(reg: Registry, s: State, k: nat)
    requires Unfinished(s, k) && Top(s.tasks[k]).ty in reg
    ensures var t := s.tasks[k];
            Construct(reg, s, k, Succeeds).tasks[k]
            == t.(stack := Below(t), reply := Some(Value(Made(s.nextId, Top(t).ty, Top(t).args))))
  {
  }

  // ----- the invariant

  /** The frame is at its parameter `ty`. */
  predicate Awaits(reg: Registry, f: Frame, ty: Interface) {
    && f.pc.Building? && f.ty in reg && reg[f.ty].provider.Target?
    && |f.args| < |reg[f.ty].provider.params|
    && reg[f.ty].provider.params[|f.args|].annotation == Some(ty)
  }

  predicate AwaitsSome(reg: Registry, f: Frame) {
    f.ty in reg && reg[f.ty].provider.Target? && |f.args| < |reg[f.ty].provider.params|
    && reg[f.ty].provider.params[|f.args|].annotation.Some? && f.pc.Building?
  }

  predicate FrameOk(reg: Registry, f: Frame) {
    f.pc != Entering ==>
      && f.ty in reg && !reg[f.ty].provider.Instance?
      && (f.pc.Waiting? ==> Shared(reg, f.ty))
      && (reg[f.ty].provider.Target? ==> |f.args| <= |reg[f.ty].provider.params|)
  }

  ghost predicate StackOk(reg: Registry, t: Task) {
    && (forall j :: 0 <= j < |t.stack| ==> FrameOk(reg, t.stack[j]))
    && (forall i, j :: 0 <= i && j == i + 1 < |t.stack| ==> Awaits(reg, t.stack[i], t.stack[j].ty))
    && (forall i, j :: 0 <= i < j < |t.stack| && t.stack[j].pc != Entering ==> t.stack[i].ty != t.stack[j].ty)
    && (t.reply.Some? && t.stack != [] ==> AwaitsSome(reg, Top(t)))
  }

  ghost predicate Holds(t: Task, ty: Interface) {
    exists j :: 0 <= j < |t.stack| && t.stack[j].ty == ty && t.stack[j].pc.Building?
  }

  /** A lock is held by a task exactly while the task builds that singleton, which is then not
      cached. */
  ghost predicate LocksOk(reg: Registry, s: State) {
    && (forall k, ty :: k in s.tasks && Shared(reg, ty) ==>
          (Holds(s.tasks[k], ty) <==> ty in s.holder && s.holder[ty] == k))
    && (forall ty :: ty in s.holder ==> Shared(reg, ty) && s.holder[ty] in s.tasks && ty !in s.singletons)
  }

  ghost predicate HistoryOk(reg: Registry, s: State) {
    && Distinct(s.builds)
    && (forall ty :: ty in s.builds <==> ty in s.singletons)
    && (forall h :: h in s.handed && Shared(reg, h.0) ==> h.0 in s.singletons && s.singletons[h.0] == h.1)
    && (forall ty :: ty in s.singletons ==> Shared(reg, ty))
  }

  ghost predicate Inv(reg: Registry, s: State) {
    && (forall k :: k in s.tasks ==> StackOk(reg, s.tasks[k]))
    && LocksOk(reg, s)
    && HistoryOk(reg, s)
  }

  // ----- every step keeps it

  lemma SetTopStack(reg: Registry, t: Task, f: Frame)
    requires t.stack != [] && StackOk(reg, t)
    requires FrameOk(reg, f) && f.ty == Top(t).ty && f.ty !in Types(Below(t))
    ensures StackOk(reg, t.(stack := Below(t) + [f], reply := None))
  {
    var t' := t.(stack := Below(t) + [f], reply := None);
    forall i, j | 0 <= i < j < |t'.stack| && t'.stack[j].pc != Entering
      ensures t'.stack[i].ty != t'.stack[j].ty
    {
      assert t'.stack[i] in Below(t);
    }
    forall i, j | 0 <= i && j == i + 1 < |t'.stack|
      ensures Awaits(reg, t'.stack[i], t'.stack[j].ty)
    {
      assert Awaits(reg, t.stack[i], t.stack[j].ty);
    }
  }

  lemma PopStack(reg: Registry, t: Task, reply: Reply)
    requires t.stack != [] && StackOk(reg, t)
    ensures StackOk(reg, t.(stack := Below(t), reply := Some(reply)))
  {
    var n := |t.stack|;
    if n >= 2 {
      assert Awaits(reg, t.stack[n - 2], t.stack[n - 1].ty);
    }
    forall i, j | 0 <= i && j == i + 1 < n - 1
      ensures Awaits(reg, Below(t)[i], Below(t)[j].ty)
    {
      assert Awaits(reg, t.stack[i], t.stack[j].ty);
    }
  }

  lemma PushStack(reg: Registry, t: Task, ty: Interface)
    requires t.stack != [] && StackOk(reg, t) && Awaits(reg, Top(t), ty) && t.reply == None
    ensures StackOk(reg, t.(stack := t.stack + [Frame(ty, Entering, [])]))
  {
    var t' := t.(stack := t.stack + [Frame(ty, Entering, [])]);
    forall i, j | 0 <= i && j == i + 1 < |t'.stack|
      ensures Awaits(reg, t'.stack[i], t'.stack[j].ty)
    {
      if j < |t.stack| {
        assert Awaits(reg, t.stack[i], t.stack[j].ty);
      }
    }
  }

  /** A building frame is the only one of its type. */
  lemma TopIsNew(reg: Registry, t: Task)
    requires t.stack != [] && StackOk(reg, t) && Top(t).pc != Entering
    ensures Top(t).ty !in Types(Below(t)) && Top(t).ty in reg
  {
    forall f | f in Below(t)
      ensures f.ty != Top(t).ty
    {
      var i :| 0 <= i < |t.stack| - 1 && t.stack[i] == f;
    }
    assert FrameOk(reg, Top(t));
  }

  lemma HoldsSetTop(t: Task, f: Frame, ty: Interface)
    requires t.stack != [] && f.ty == Top(t).ty
    ensures Holds(t.(stack := Below(t) + [f], reply := None), ty)
       <==> Holds(t.(stack := Below(t)), ty) || (f.pc.Building? && ty == f.ty)
  {
    var t', b := t.(stack := Below(t) + [f], reply := None), t.(stack := Below(t));
    if Holds(b, ty) {
      var j :| 0 <= j < |b.stack| && b.stack[j].ty == ty && b.stack[j].pc.Building?;
      assert t'.stack[j] == b.stack[j];
    }
    if Holds(t', ty) {
      var j :| 0 <= j < |t'.stack| && t'.stack[j].ty == ty && t'.stack[j].pc.Building?;
      if j < |b.stack| {
        assert b.stack[j] == t'.stack[j];
      }
    }
    if f.pc.Building? && ty == f.ty {
      assert t'.stack[|b.stack|] == f;
    }
  }

  /** What a task holds, split into its innermost frame and the rest. */
  lemma HoldsSplit(t: Task, ty: Interface)
    requires t.stack != []
    ensures Holds(t, ty) <==> Holds(t.(stack := Below(t)), ty) || (Top(t).pc.Building? && ty == Top(t).ty)
  {
    HoldsSetTop(t, Top(t), ty);
    assert Below(t) + [Top(t)] == t.stack;
    SameStackHolds(t, t.(stack := Below(t) + [Top(t)], reply := None), ty);
  }

  lemma SameStackHolds(t: Task, t': Task, ty: Interface)
    requires t.stack == t'.stack
    ensures Holds(t, ty) <==> Holds(t', ty)
  {
  }

  lemma HoldsBelowNotTop(reg: Registry, t: Task)
    requires t.stack != [] && Top(t).ty !in Types(Below(t))
    ensures !Holds(t.(stack := Below(t)), Top(t).ty)
  {
    forall j | 0 <= j < |Below(t)|
      ensures Below(t)[j].ty != Top(t).ty
    {
      assert Below(t)[j].ty in Types(Below(t));
    }
  }

  // ----- the locks

  ghost predicate SameHolds(reg: Registry, t: Task, t': Task) {
    forall ty :: Shared(reg, ty) ==> (Holds(t, ty) <==> Holds(t', ty))
  }

  lemma KeepsLocks(reg: Registry, s: State, s': State, k: nat, t': Task)
    requires LocksOk(reg, s) && k in s.tasks && SameHolds(reg, s.tasks[k], t')
    requires s'.tasks == s.tasks[k := t'] && s'.holder == s.holder && s'.singletons == s.singletons
    ensures LocksOk(reg, s')
  {
    forall m, ty | m in s'.tasks && Shared(reg, ty)
      ensures Holds(s'.tasks[m], ty) <==> ty in s'.holder && s'.holder[ty] == m
    {
      assert Holds(s.tasks[m], ty) <==> ty in s.holder && s.holder[ty] == m;
    }
  }

  lemma TakesLock(reg: Registry, s: State, s': State, k: nat, t': Task, lock: Interface)
    requires LocksOk(reg, s) && k in s.tasks && Shared(reg, lock)
    requires lock !in s.holder && lock !in s.singletons
    requires forall ty :: Shared(reg, ty) ==> (Holds(t', ty) <==> Holds(s.tasks[k], ty) || ty == lock)
    requires s'.tasks == s.tasks[k := t'] && s'.holder == s.holder[lock := k] && s'.singletons == s.singletons
    ensures LocksOk(reg, s')
  {
    forall m, ty | m in s'.tasks && Shared(reg, ty)
      ensures Holds(s'.tasks[m], ty) <==> ty in s'.holder && s'.holder[ty] == m
    {
      assert Holds(s.tasks[m], ty) <==> ty in s.holder && s.holder[ty] == m;
    }
  }

  lemma DropsLock(reg: Registry, s: State, s': State, k: nat, t': Task, lock: Interface)
    requires LocksOk(reg, s) && k in s.tasks && Shared(reg, lock) && Holds(s.tasks[k], lock)
    requires forall ty :: Shared(reg, ty) ==> (Holds(t', ty) <==> Holds(s.tasks[k], ty) && ty != lock)
    requires s'.tasks == s.tasks[k := t'] && s'.holder == s.holder - {lock}
    requires forall ty :: ty in s'.singletons ==> ty in s.singletons || ty == lock
    ensures LocksOk(reg, s')
  {
    forall m, ty | m in s'.tasks && Shared(reg, ty)
      ensures Holds(s'.tasks[m], ty) <==> ty in s'.holder && s'.holder[ty] == m
    {
      assert Holds(s.tasks[m], ty) <==> ty in s.holder && s.holder[ty] == m;
      assert Holds(s.tasks[k], lock) <==> lock in s.holder && s.holder[lock] == k;
    }
  }

  // ----- the updates

  /** Replacing the innermost frame by one that holds the same locks. */
  lemma SetTopInv(reg: Registry, s: State, k: nat, f: Frame)
    requires Inv(reg, s) && Unfinished(s, k)
    requires FrameOk(reg, f) && f.ty == Top(s.tasks[k]).ty && f.ty !in Types(Below(s.tasks[k]))
    requires Shared(reg, f.ty) ==> f.pc.Building? == Top(s.tasks[k]).pc.Building?
    ensures Inv(reg, SetTop(s, k, f))
  {
    var t := s.tasks[k];
    var t' := t.(stack := Below(t) + [f], reply := None);
    SetTopStack(reg, t, f);
    forall ty | Shared(reg, ty)
      ensures Holds(t, ty) <==> Holds(t', ty)
    {
      HoldsSplit(t, ty);
      HoldsSetTop(t, f, ty);
    }
    KeepsLocks(reg, s, SetTop(s, k, f), k, t');
  }

  lemma PushInv(reg: Registry, s: State, k: nat, ty: Interface)
    requires Inv(reg, s) && Unfinished(s, k) && Awaits(reg, Top(s.tasks[k]), ty) && s.tasks[k].reply == None
    ensures Inv(reg, Push(s, k, ty))
  {
    var t := s.tasks[k];
    var t' := t.(stack := t.stack + [Frame(ty, Entering, [])]);
    PushStack(reg, t, ty);
    forall x | Shared(reg, x)
      ensures Holds(t, x) <==> Holds(t', x)
    {
      assert Below(t') == t.stack;
      HoldsSplit(t', x);
      SameStackHolds(t, t'.(stack := Below(t')), x);
    }
    KeepsLocks(reg, s, Push(s, k, ty), k, t');
  }

  ghost predicate GoodReply(reg: Registry, s: State, ty: Interface, reply: Reply) {
    reply.Value? && Shared(reg, ty) ==> ty in s.singletons && s.singletons[ty] == reply.obj
  }

  /** Returning from a call that is not building a singleton. */
  lemma ReturnInv(reg: Registry, s: State, k: nat, reply: Reply)
    requires Inv(reg, s) && Unfinished(s, k) && GoodReply(reg, s, Top(s.tasks[k]).ty, reply)
    requires Shared(reg, Top(s.tasks[k]).ty) ==> !Top(s.tasks[k]).pc.Building?
    ensures Inv(reg, Return(s, k, reply))
  {
    var t := s.tasks[k];
    var t' := t.(stack := Below(t), reply := Some(reply));
    PopStack(reg, t, reply);
    forall ty | Shared(reg, ty)
      ensures Holds(t, ty) <==> Holds(t', ty)
    {
      HoldsSplit(t, ty);
      SameStackHolds(t', t.(stack := Below(t)), ty);
    }
    KeepsLocks(reg, s, Return(s, k, reply), k, t');
  }

  /** Leaving a building call, with its lock if it is a singleton's; the object it made may have
      been cached just before. */
  lemma FinishInv(reg: Registry, s: State, s1: State, k: nat, reply: Reply)
    requires Inv(reg, s) && Unfinished(s, k) && Top(s.tasks[k]).pc.Building?
    requires s1.tasks == s.tasks && s1.holder == s.holder
    requires forall ty :: ty in s1.singletons ==> ty in s.singletons || (Shared(reg, ty) && ty == Top(s.tasks[k]).ty)
    requires HistoryOk(reg, s1) && GoodReply(reg, s1, Top(s.tasks[k]).ty, reply)
    ensures Inv(reg, Finish(reg, s1, k, reply))
  {
    var t := s.tasks[k];
    PopStack(reg, t, reply);
    FinishLocks(reg, s, s1, k, reply);
    FinishHistory(reg, s1, k, reply);
  }

  lemma FinishHistory(reg: Registry, s: State, k: nat, reply: Reply)
    requires HistoryOk(reg, s) && Unfinished(s, k) && GoodReply(reg, s, Top(s.tasks[k]).ty, reply)
    ensures HistoryOk(reg, Finish(reg, s, k, reply))
  {
  }

  lemma FinishLocks(reg: Registry, s: State, s1: State, k: nat, reply: Reply)
    requires Unfinished(s, k) && StackOk(reg, s.tasks[k]) && LocksOk(reg, s) && Top(s.tasks[k]).pc.Building?
    requires s1.tasks == s.tasks && s1.holder == s.holder
    requires forall ty :: ty in s1.singletons ==> ty in s.singletons || (Shared(reg, ty) && ty == Top(s.tasks[k]).ty)
    ensures LocksOk(reg, Finish(reg, s1, k, reply))
  {
    var t := s.tasks[k];
    var lock := Top(t).ty;
    var t' := t.(stack := Below(t), reply := Some(reply));
    var s' := Finish(reg, s1, k, reply);
    TopIsNew(reg, t);
    HoldsBelowNotTop(reg, t);
    forall ty | Shared(reg, ty)
      ensures Holds(t', ty) <==> Holds(t, ty) && ty != lock
    {
      HoldsSplit(t, ty);
      SameStackHolds(t', t.(stack := Below(t)), ty);
    }
    HoldsSplit(t, lock);
    if Shared(reg, lock) {
      DropsLock(reg, s, s', k, t', lock);
    } else {
      assert s1.singletons.Keys <= s.singletons.Keys;
      KeepsLocksLess(reg, s, s', k, t');
    }
  }

  lemma KeepsLocksLess(reg: Registry, s: State, s': State, k: nat, t': Task)
    requires LocksOk(reg, s) && k in s.tasks && SameHolds(reg, s.tasks[k], t')
    requires s'.tasks == s.tasks[k := t'] && s'.holder == s.holder && s'.singletons.Keys <= s.singletons.Keys
    ensures LocksOk(reg, s')
  {
    KeepsLocks(reg, s, s'.(singletons := s.singletons), k, t');
  }

  // ----- the steps

  lemma SpawnInv(reg: Registry, s: State, k: nat, root: Interface, scope: nat)
    requires Inv(reg, s) && k !in s.tasks
    ensures Inv(reg, Apply(reg, s, Spawn(k, root, scope)))
  {
    var t := Task(root, scope, [Frame(root, Entering, [])], None);
    assert StackOk(reg, t);
    SpawnLocks(reg, s, Apply(reg, s, Spawn(k, root, scope)), k, t);
  }

  lemma SpawnLocks(reg: Registry, s: State, s': State, k: nat, t: Task)
    requires LocksOk(reg, s) && k !in s.tasks && forall ty :: !Holds(t, ty)
    requires s'.tasks == s.tasks[k := t] && s'.holder == s.holder && s'.singletons == s.singletons
    ensures LocksOk(reg, s')
  {
    forall m, ty | m in s'.tasks && Shared(reg, ty)
      ensures Holds(s'.tasks[m], ty) <==> ty in s'.holder && s'.holder[ty] == m
    {
      assert m != k ==> (Holds(s.tasks[m], ty) <==> ty in s.holder && s.holder[ty] == m);
    }
  }

  lemma EnterInv(reg: Registry, s: State, k: nat)
    requires Inv(reg, s) && Unfinished(s, k) && Top(s.tasks[k]).pc.Entering? && s.tasks[k].reply == None
    ensures Inv(reg, Enter(reg, s, k))
  {
    var t := s.tasks[k];
    var ty := Top(t).ty;
    if ty in Types(Below(t)) {
      ReturnInv(reg, s, k, Raise(Circular));
    } else if ty !in reg {
      ReturnInv(reg, s, k, Raise(Resolution));
    } else if reg[ty].lifetime == Singleton && ty in s.singletons {
      ReturnInv(reg, s, k, Value(s.singletons[ty]));
    } else if reg[ty].lifetime == Scoped && (t.scope, ty) in s.scoped {
      ReturnInv(reg, s, k, Value(s.scoped[(t.scope, ty)]));
    } else if reg[ty].provider.Instance? {
      ReturnInv(reg, s, k, Value(Ready(ty)));
    } else if reg[ty].lifetime == Singleton {
      SetTopInv(reg, s, k, Frame(ty, Waiting, []));
    } else {
      SetTopInv(reg, s, k, Frame(ty, Building, []));
    }
  }

  lemma AcquireInv(reg: Registry, s: State, k: nat)
    requires Inv(reg, s) && Unfinished(s, k) && Top(s.tasks[k]).pc.Waiting? && s.tasks[k].reply == None
    requires Top(s.tasks[k]).ty !in s.holder
    ensures Inv(reg, Acquire(s, k))
  {
    var t := s.tasks[k];
    var lock := Top(t).ty;
    if lock in s.singletons {
      ReturnInv(reg, s, k, Value(s.singletons[lock]));
    } else {
      var f := Frame(lock, Building, []);
      var t' := t.(stack := Below(t) + [f], reply := None);
      TopIsNew(reg, t);
      assert FrameOk(reg, Top(t));
      SetTopStack(reg, t, f);
      forall ty | Shared(reg, ty)
        ensures Holds(t', ty) <==> Holds(t, ty) || ty == lock
      {
        HoldsSplit(t, ty);
        HoldsSetTop(t, f, ty);
      }
      TakesLock(reg, s, Acquire(s, k), k, t', lock);
    }
  }

  /** Caching a singleton just built: it was not cached, and nobody has been handed one. */
  lemma StoreHistory(reg: Registry, s: State, k: nat, o: Obj)
    requires Inv(reg, s) && Unfinished(s, k) && Top(s.tasks[k]).pc.Building?
    requires Top(s.tasks[k]).ty in reg && !reg[Top(s.tasks[k]).ty].provider.Instance?
    ensures var s1 := Store(reg, s, s.tasks[k].scope, Top(s.tasks[k]).ty, o);
            HistoryOk(reg, s1) && GoodReply(reg, s1, Top(s.tasks[k]).ty, Value(o))
  {
    var t := s.tasks[k];
    var ty := Top(t).ty;
    HoldsSplit(t, ty);
    assert Holds(s.tasks[k], ty);
    assert Shared(reg, ty) ==> ty !in s.singletons && ty !in s.builds;
  }

  lemma ConstructInv(reg: Registry, s: State, k: nat, call: CallOutcome)
    requires Inv(reg, s) && Unfinished(s, k) && Top(s.tasks[k]).pc.Building? && Top(s.tasks[k]).ty in reg
    ensures Inv(reg, Construct(reg, s, k, call))
  {
    var t := s.tasks[k];
    var ty := Top(t).ty;
    assert FrameOk(reg, t.stack[|t.stack| - 1]);
    match call
    case Fails(e) => FinishInv(reg, s, s, k, Raise(e));
    case Succeeds =>
      var o := Made(s.nextId, ty, Top(t).args);
      StoreHistory(reg, s, k, o);
      FinishInv(reg, s, Store(reg, s, t.scope, ty, o), k, Value(o));
  }

  lemma BuildInv(reg: Registry, s: State, k: nat, call: CallOutcome)
    requires Inv(reg, s) && Unfinished(s, k) && Top(s.tasks[k]).pc.Building? && s.tasks[k].reply == None
    requires Top(s.tasks[k]).ty in reg
    ensures Inv(reg, Build(reg, s, k, call))
  {
    var f := Top(s.tasks[k]);
    match reg[f.ty].provider
    case Instance =>
    case NoTarget => FinishInv(reg, s, s, k, Raise(Resolution));
    case Target(params, _) =>
      if |f.args| >= |params| {
        ConstructInv(reg, s, k, call);
      } else if params[|f.args|].annotation.None? {
        FinishInv(reg, s, s, k, Raise(Resolution));
      } else {
        PushInv(reg, s, k, params[|f.args|].annotation.value);
      }
  }

  lemma ReceiveInv(reg: Registry, s: State, k: nat, reply: Reply)
    requires Inv(reg, s) && Unfinished(s, k) && s.tasks[k].reply == Some(reply) && Top(s.tasks[k]).ty in reg
    ensures Inv(reg, Receive(reg, s, k, reply))
  {
    var t := s.tasks[k];
    var f := Top(t);
    assert FrameOk(reg, t.stack[|t.stack| - 1]) && AwaitsSome(reg, f);
    TopIsNew(reg, t);
    match reply
    case Value(o) => SetTopInv(reg, s, k, f.(args := f.args + [Injected(o)]));
    case Raise(e) =>
      if e == Resolution && AwaitsDefault(reg, f) {
        SetTopInv(reg, s, k, f.(args := f.args + [Defaulted]));
      } else {
        FinishInv(reg, s, s, k, Raise(e));
      }
  }

  lemma StepInv(reg: Registry, s: State, e: Event)
    requires Inv(reg, s) && Enabled(s, e)
    ensures Inv(reg, Apply(reg, s, e))
  {
    match e
    case Spawn(k, root, scope) => SpawnInv(reg, s, k, root, scope);
    case Advance(k, call) =>
      var t := s.tasks[k];
      if t.reply.Some? {
        if Top(t).ty in reg {
          ReceiveInv(reg, s, k, t.reply.value);
        }
      } else {
        match Top(t).pc
        case Entering => EnterInv(reg, s, k);
        case Waiting => AcquireInv(reg, s, k);
        case Building =>
          if Top(t).ty in reg {
            BuildInv(reg, s, k, call);
          }
      }
  }

  /** The invariant holds after every run. */
  lemma {:induction false} RunInv(reg: Registry, events: seq<Event>)
    requires After(reg, events).Some?
    ensures Inv(reg, After(reg, events).value)
  {
    if events != [] {
      var n := |events| - 1;
      RunInv(reg, events[..n]);
      StepInv(reg, After(reg, events[..n]).value, events[n]);
    }
  }
}
