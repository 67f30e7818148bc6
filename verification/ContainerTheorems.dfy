/** What holds of every interleaving of concurrent resolutions over one registry. */
module ContainerTheorems {
  import opened Wrappers
  import opened Sorting
  import opened ContainerValidation
  import opened ContainerResolver
  import opened ContainerTrails
  import opened ContainerInterleaving
  import opened ContainerTermination

  // ----- one instance a singleton

  /** In every interleaving, constructor failures included, each singleton is built successfully
      at most once, and everyone who gets it gets the one that is cached. */
  lemma SingletonsBuiltOnce(reg: Registry, events: seq<Event>, ty: Interface, a: Obj, b: Obj)
    requires After(reg, events).Some? && Shared(reg, ty)
    requires (ty, a) in After(reg, events).value.handed && (ty, b) in After(reg, events).value.handed
    ensures a == b && ty in After(reg, events).value.singletons && After(reg, events).value.singletons[ty] == a
    ensures multiset(After(reg, events).value.builds)[ty] == 1
  {
    RunInv(reg, events);
    var s := After(reg, events).value;
    DistinctByMultiset(s.builds);
    assert (ty, a).0 in s.singletons;
    assert ty in s.builds;
    assert ty in multiset(s.builds);
  }

  /** What is cached stays cached, unchanged, for the rest of the run. */
  lemma {:induction false} CachedForGood(reg: Registry, events: seq<Event>, n: nat, ty: Interface)
    requires n <= |events| && After(reg, events).Some?
    requires After(reg, events[..n]).Some? && ty in After(reg, events[..n]).value.singletons
    ensures ty in After(reg, events).value.singletons
    ensures After(reg, events).value.singletons[ty] == After(reg, events[..n]).value.singletons[ty]
  {
    if n == |events| {
      assert events[..n] == events;
    } else {
      var last := |events| - 1;
      assert events[..last][..n] == events[..n];
      CachedForGood(reg, events[..last], n, ty);
      RunInv(reg, events[..last]);
      StepKeepsCached(reg, After(reg, events[..last]).value, events[last], ty);
    }
  }

  lemma StepKeepsCached(reg: Registry, s: State, e: Event, ty: Interface)
    requires Inv(reg, s) && Enabled(s, e) && ty in s.singletons
    ensures ty in Apply(reg, s, e).singletons && Apply(reg, s, e).singletons[ty] == s.singletons[ty]
  {
    if e.Advance? {
      var t := s.tasks[e.task];
      var f := Top(t);
      if t.reply.None? && f.pc.Building? && f.ty in reg {
        HoldsSplit(t, f.ty);
        BuildCaches(reg, s, e.task, e.call);
        assert FrameOk(reg, t.stack[|t.stack| - 1]);
        assert Shared(reg, f.ty) ==> Holds(s.tasks[e.task], f.ty);
      } else {
        OtherStepsCacheNothing(reg, s, e.task, e.call);
      }
    }
  }

  lemma BuildCaches(reg: Registry, s: State, k: nat, call: CallOutcome)
    requires Unfinished(s, k) && Top(s.tasks[k]).ty in reg
    ensures CachesAtMost(reg, s, Build(reg, s, k, call), Top(s.tasks[k]).ty)
  {
    var f := Top(s.tasks[k]);
    match reg[f.ty].provider
    case Instance =>
    case NoTarget => FinishCaches(reg, s, k, Raise(Resolution));
    case Target(params, _) =>
      if |f.args| >= |params| {
        ConstructCaches(reg, s, k, call);
      } else if params[|f.args|].annotation.None? {
        FinishCaches(reg, s, k, Raise(Resolution));
      }
  }

  ghost predicate CachesAtMost(reg: Registry, s: State, s': State, ty: Interface) {
    || s'.singletons == s.singletons
    || (Shared(reg, ty) && ty in s'.singletons && s'.singletons == s.singletons[ty := s'.singletons[ty]])
  }

  lemma FinishCaches(reg: Registry, s: State, k: nat, reply: Reply)
    requires Unfinished(s, k)
    ensures Finish(reg, s, k, reply).singletons == s.singletons
  {
  }

  lemma StoreCaches(reg: Registry, s: State, scope: nat, ty: Interface, o: Obj)
    requires ty in reg && reg[ty].provider.Target?
    ensures CachesAtMost(reg, s, Store(reg, s, scope, ty, o), ty) && Store(reg, s, scope, ty, o).tasks == s.tasks
  {
  }

  lemma ConstructCaches(reg: Registry, s: State, k: nat, call: CallOutcome)
    requires Unfinished(s, k) && Top(s.tasks[k]).ty in reg && reg[Top(s.tasks[k]).ty].provider.Target?
    ensures CachesAtMost(reg, s, Construct(reg, s, k, call), Top(s.tasks[k]).ty)
  {
    var t := s.tasks[k];
    match call
    case Fails(e) => FinishCaches(reg, s, k, Raise(e));
    case Succeeds =>
      var o := Made(s.nextId, Top(t).ty, Top(t).args);
      StoreCaches(reg, s, t.scope, Top(t).ty, o);
      FinishCaches(reg, Store(reg, s, t.scope, Top(t).ty, o), k, Value(o));
  }

  lemma OtherStepsCacheNothing(reg: Registry, s: State, k: nat, call: CallOutcome)
    requires Unfinished(s, k)
    requires s.tasks[k].reply.Some? || !Top(s.tasks[k]).pc.Building? || Top(s.tasks[k]).ty !in reg
    ensures AdvanceTask(reg, s, k, call).singletons == s.singletons
  {
  }

  // ----- errors

  /** An error that is not about a missing dependency is never swallowed: a cycle, or whatever else a
      constructor raises, is what the whole request raises. */
  lemma {:induction false} NeverSwallowed(reg: Registry, events: seq<Event>, n: nat, k: nat, e: Raised)
    requires n <= |events| && After(reg, events).Some? && After(reg, events[..n]).Some? && e != Resolution
    requires k in After(reg, events[..n]).value.tasks
    requires After(reg, events[..n]).value.tasks[k].reply == Some(Raise(e))
    ensures k in After(reg, events).value.tasks
    ensures After(reg, events).value.tasks[k].reply == Some(Raise(e))
    decreases |events|
  {
    if n == |events| {
      assert events[..n] == events;
    } else {
      var last := |events| - 1;
      assert events[..last][..n] == events[..n];
      NeverSwallowed(reg, events[..last], n, k, e);
      RunInv(reg, events[..last]);
      StepPassesOn(reg, After(reg, events[..last]).value, events[last], k, e);
    }
  }

  lemma StepPassesOn(reg: Registry, s: State, event: Event, k: nat, e: Raised)
    requires Inv(reg, s) && Enabled(s, event) && k in s.tasks && s.tasks[k].reply == Some(Raise(e)) && e != Resolution
    ensures k in Apply(reg, s, event).tasks && Apply(reg, s, event).tasks[k].reply == Some(Raise(e))
  {
    if event.Advance? {
      AdvanceWork(reg, s, event.task, event.call);
      if event.task == k {
        assert AwaitsSome(reg, Top(s.tasks[k]));
      }
    }
  }

  /** The innermost call has all its arguments and calls its target next. */
  predicate CallsTarget(reg: Registry, s: State, k: nat) {
    && Unfinished(s, k) && s.tasks[k].reply.None?
    && var f := Top(s.tasks[k]);
       f.pc.Building? && f.ty in reg && reg[f.ty].provider.Target? && |f.args| == |reg[f.ty].provider.params|
  }

  /** What a constructor raises is what its request raises: nothing is cached or handed out, and the lock
      of a singleton is free again. */
  lemma TargetRaises(reg: Registry, s: State, k: nat, e: Raised)
    requires CallsTarget(reg, s, k)
    ensures var s' := Apply(reg, s, Advance(k, Fails(e)));
            && s'.tasks[k] == s.tasks[k].(stack := Below(s.tasks[k]), reply := Some(Raise(e)))
            && s'.singletons == s.singletons && s'.scoped == s.scoped && s'.handed == s.handed
            && Top(s.tasks[k]).ty !in (if Shared(reg, Top(s.tasks[k]).ty) then s'.holder.Keys else {})
  {
  }

  /** An error other than a missing dependency that a constructor raises is raised by the whole request,
      through all the calls it is nested in, defaults or not. */
  lemma RaisedIsRaised(reg: Registry, events: seq<Event>, n: nat, k: nat, e: Raised)
    requires n < |events| && After(reg, events).Some? && After(reg, events[..n]).Some? && e != Resolution
    requires CallsTarget(reg, After(reg, events[..n]).value, k) && events[n] == Advance(k, Fails(e))
    ensures k in After(reg, events).value.tasks
    ensures After(reg, events).value.tasks[k].reply == Some(Raise(e))
  {
    var longer := events[..n + 1];
    assert longer[..n] == events[..n] && longer[n] == events[n];
    TargetRaises(reg, After(reg, events[..n]).value, k, e);
    NeverSwallowed(reg, events, n + 1, k, e);
  }
}
