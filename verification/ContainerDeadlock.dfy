/** When concurrent resolutions cannot deadlock on the singleton locks, however they interleave. */
module ContainerDeadlock {
  import opened Wrappers
  import opened Sorting
  import DependencyGraph
  import opened ContainerValidation
  import opened ContainerTrails
  import opened ContainerResolver
  import opened ContainerInterleaving
  import opened ContainerVerdicts

  ghost predicate Deadlocked(s: State) {
    (exists k :: Unfinished(s, k)) && forall m :: !CanAdvance(s, m)
  }

  /** No request is for an interface with a cyclic verdict. */
  ghost predicate ClearRoots(reg: Registry, s: State) {
    forall k :: k in s.tasks ==> Verdict0(reg, s.tasks[k].root) != Cyclic
  }

  // ----- a deadlock is a knot

  /** A task that cannot go on waits for a lock, and some task is building what is wanted. */
  lemma BlockedBy(reg: Registry, s: State, k: nat) returns (m: nat, j: nat)
    requires Inv(reg, s) && Unfinished(s, k) && !CanAdvance(s, k)
    ensures Unfinished(s, m) && j < |s.tasks[m].stack| && s.tasks[m].stack[j].pc.Building?
    ensures s.tasks[m].stack[j].ty == Top(s.tasks[k]).ty && Shared(reg, Top(s.tasks[k]).ty)
    ensures j == |s.tasks[m].stack| - 1 ==> CanAdvance(s, m)
  {
    var ty := Top(s.tasks[k]).ty;
    m := s.holder[ty];
    assert Shared(reg, ty);
    assert Holds(s.tasks[m], ty);
    j :| 0 <= j < |s.tasks[m].stack| && s.tasks[m].stack[j].ty == ty && s.tasks[m].stack[j].pc.Building?;
  }

  /** What the unfinished tasks wait for, in a deadlock. */
  ghost function Wanted(s: State): set<Interface> {
    set k | k in s.tasks && Unfinished(s, k) :: Top(s.tasks[k]).ty
  }

  ghost predicate NeedsNext(reg: Registry, s: State, x: Interface, y: Interface) {
    x != y && y in Wanted(s) && Shared(reg, x) && Shared(reg, y) && Reaches(reg, x, y)
  }

  lemma WantedNeeds(reg: Registry, calm: bool, s: State, x: Interface) returns (y: Interface)
    requires Inv(reg, s) && AllTell(reg, calm, s) && (calm || ClearRoots(reg, s))
    requires Deadlocked(s) && x in Wanted(s)
    ensures NeedsNext(reg, s, x, y)
  {
    var k :| k in s.tasks && Unfinished(s, k) && Top(s.tasks[k]).ty == x;
    assert !CanAdvance(s, k);
    var m, j := BlockedBy(reg, s, k);
    assert !CanAdvance(s, m);
    BuilderNeeds(reg, calm, s.tasks[m], j);
    y := Top(s.tasks[m]).ty;
  }

  lemma BuilderNeeds(reg: Registry, calm: bool, t: Task, j: nat)
    requires StackOk(reg, t) && TaskTells(reg, calm, t) && (calm || Verdict0(reg, t.root) != Cyclic)
    requires j < |t.stack| - 1 && Top(t).pc.Waiting?
    ensures t.stack[j].ty != Top(t).ty && Shared(reg, Top(t).ty) && Reaches(reg, t.stack[j].ty, Top(t).ty)
  {
    var types := TypeSeq(t.stack);
    assert FrameOk(reg, t.stack[|t.stack| - 1]);
    StackIsTrail(reg, calm, t);
    PartIsTrail(reg, types, j, |types|);
    assert IsTrailFrom(reg, types[j..|types|], t.stack[j].ty, Top(t).ty);
  }

  ghost predicate Chain(reg: Registry, p: seq<Interface>) {
    forall i, j :: 0 <= i && j == i + 1 < |p| ==> Reaches(reg, p[i], p[j])
  }

  lemma {:induction false} ChainReaches(reg: Registry, p: seq<Interface>, i: nat)
    requires Chain(reg, p) && i < |p| - 1
    ensures Reaches(reg, p[i], p[|p| - 1])
    decreases |p| - i
  {
    assert Reaches(reg, p[i], p[i + 1]);
    if i + 1 < |p| - 1 {
      ChainReaches(reg, p, i + 1);
      ReachesThrough(reg, p[i], p[i + 1], p[|p| - 1]);
    }
  }

  /** Following who waits for whom finds two singletons that need each other. */
  lemma {:induction false} WalkFindsKnot(reg: Registry, calm: bool, s: State, p: seq<Interface>)
      returns (x: Interface, y: Interface)
    requires Inv(reg, s) && AllTell(reg, calm, s) && (calm || ClearRoots(reg, s)) && Deadlocked(s)
    requires p != [] && Distinct(p) && Chain(reg, p) && DependencyGraph.Members(p) <= Wanted(s)
    ensures Knot(reg, x, y) && x in Wanted(s)
    decreases |Wanted(s)| - |p|
  {
    x := p[|p| - 1];
    assert x in DependencyGraph.Members(p);
    y := WantedNeeds(reg, calm, s, x);
    if y in p {
      var i :| 0 <= i < |p| && p[i] == y;
      ChainReaches(reg, p, i);
    } else {
      WalkGrows(s, p, y);
      ChainGrows(reg, p, y);
      x, y := WalkFindsKnot(reg, calm, s, p + [y]);
    }
  }

  lemma WalkGrows(s: State, p: seq<Interface>, y: Interface)
    requires Distinct(p) && DependencyGraph.Members(p) <= Wanted(s) && y in Wanted(s) && y !in p
    ensures Distinct(p + [y]) && DependencyGraph.Members(p + [y]) <= Wanted(s)
    ensures |p| < |Wanted(s)|
  {
    var members := DependencyGraph.Members(p + [y]);
    assert members == DependencyGraph.Members(p) + {y};
    DistinctLength(p + [y]);
    DependencyGraph.SubsetSize(members, Wanted(s));
  }

  lemma ChainGrows(reg: Registry, p: seq<Interface>, y: Interface)
    requires p != [] && Chain(reg, p) && Reaches(reg, p[|p| - 1], y)
    ensures Chain(reg, p + [y])
  {
    forall i, j | 0 <= i && j == i + 1 < |p + [y]|
      ensures Reaches(reg, (p + [y])[i], (p + [y])[j])
    {
      if j < |p| {
        assert Reaches(reg, p[i], p[j]);
      }
    }
  }

  /** In a deadlock two different singletons need each other, and one of them is waited for. */
  lemma DeadlockIsKnot(reg: Registry, calm: bool, s: State) returns (x: Interface, y: Interface)
    requires Inv(reg, s) && AllTell(reg, calm, s) && (calm || ClearRoots(reg, s))
    requires Deadlocked(s)
    ensures Knot(reg, x, y) && x in Wanted(s)
  {
    var k :| Unfinished(s, k);
    var start := Top(s.tasks[k]).ty;
    assert start in Wanted(s);
    assert DependencyGraph.Members([start]) == {start};
    x, y := WalkFindsKnot(reg, calm, s, [start]);
  }

  // ----- no deadlock

  /** If no request is for an interface with a cyclic verdict, some task can go on as long as one is
      unfinished. */
  lemma SomeoneAdvances(reg: Registry, s: State, k: nat)
    requires ClearRoots(reg, s) && Inv(reg, s) && AllTell(reg, false, s) && Unfinished(s, k)
    ensures exists m :: CanAdvance(s, m)
  {
    if forall m :: !CanAdvance(s, m) {
      var x, y := DeadlockIsKnot(reg, false, s);
      KnotIsCyclic(reg, x, y);
      var m :| m in s.tasks && Unfinished(s, m) && Top(s.tasks[m]).ty == x;
      StackStaysClear(reg, false, s.tasks[m], |s.tasks[m].stack| - 1);
    }
  }

  /** When no request is for an interface that the validator reports as cyclic, whatever else is
      registered and whatever constructors raise, no reachable state of any number of concurrent
      resolutions is deadlocked. */
  lemma NoDeadlock(reg: Registry, events: seq<Event>, k: nat)
    requires After(reg, events).Some? && Unfinished(After(reg, events).value, k)
    requires ClearRoots(reg, After(reg, events).value)
    ensures exists m :: CanAdvance(After(reg, events).value, m)
  {
    RunInv(reg, events);
    RunTells(reg, false, events);
    SomeoneAdvances(reg, After(reg, events).value, k);
  }

  /** A registry that the validator accepts never deadlocks. */
  lemma CleanNeverDeadlocks(reg: Registry, events: seq<Event>)
    requires Clean(reg) && After(reg, events).Some?
    ensures !Deadlocked(After(reg, events).value)
  {
    var s := After(reg, events).value;
    forall k | k in s.tasks
      ensures Verdict0(reg, s.tasks[k].root) != Cyclic
    {
      assert s.tasks[k].root in reg ==> Verdict0(reg, s.tasks[k].root) == Fine;
    }
    if k :| Unfinished(s, k) {
      NoDeadlock(reg, events, k);
    }
  }

  /** In runs in which no constructor raises, only two different singletons that need each other can
      deadlock. */
  lemma OnlyKnotsDeadlock(reg: Registry, events: seq<Event>)
    requires CalmRun(events) && After(reg, events).Some? && Deadlocked(After(reg, events).value)
    ensures Knotted(reg)
  {
    RunInv(reg, events);
    RunTells(reg, true, events);
    var x, y := DeadlockIsKnot(reg, true, After(reg, events).value);
  }
}
