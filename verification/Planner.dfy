/** The planner's execution graph (core/planner/graph.py): building the graph, the depth-first
    cycle check, and the priority Kahn sort. */
module Planner {
  import opened Wrappers
  import opened StringOrder
  import opened Sorting
  import opened DependencyGraph

  datatype Task = Task(id: string, goalId: string, name: string, dependencies: seq<string>, priority: int)

  datatype PlanError = UnknownDependency(taskId: string, dependency: string) | CycleDetected

  // ----- what a list of tasks means

  /** The dictionary from ids to tasks: of several tasks with one id the last one stays. */
  function TaskMap(tasks: seq<Task>): map<string, Task> {
    if tasks == [] then map[]
    else
      var last := tasks[|tasks| - 1];
      TaskMap(tasks[..|tasks| - 1])[last.id := last]
  }

  function GraphOf(tasks: seq<Task>): Graph {
    map id | id in TaskMap(tasks) :: TaskMap(tasks)[id].dependencies
  }

  function RankOf(tasks: seq<Task>): map<string, int> {
    map id | id in TaskMap(tasks) :: -TaskMap(tasks)[id].priority
  }

  function TaskIds(tasks: seq<Task>): set<string> {
    set t | t in tasks :: t.id
  }

  function Ids(tasks: seq<Task>): (ids: seq<string>)
    ensures |ids| == |tasks|
  {
    seq(|tasks|, i requires 0 <= i < |tasks| => tasks[i].id)
  }

  lemma IdsExtend(tasks: seq<Task>, t: Task)
    ensures Ids(tasks + [t]) == Ids(tasks) + [t.id]
  {
  }

  ghost predicate HasUnknown(tasks: seq<Task>) {
    exists t, d :: t in tasks && d in t.dependencies && d !in TaskIds(tasks)
  }

  /** `plan` lists every task kept under its id exactly once, in the greedy order: each position
      holds the least (-priority, id) among the unplaced tasks whose dependencies are placed. */
  ghost predicate IsPlan(tasks: seq<Task>, plan: seq<Task>) {
    && |plan| == |TaskMap(tasks)|
    && (forall t :: t in plan ==> t.id in TaskMap(tasks) && TaskMap(tasks)[t.id] == t)
    && Greedy(GraphOf(tasks), RankOf(tasks), Ids(plan))
  }

  lemma {:induction false} TaskMapMembers(tasks: seq<Task>)
    ensures TaskMap(tasks).Keys == TaskIds(tasks)
    ensures forall id :: id in TaskMap(tasks) ==> TaskMap(tasks)[id] in tasks && TaskMap(tasks)[id].id == id
  {
    if tasks != [] {
      var front, last := tasks[..|tasks| - 1], tasks[|tasks| - 1];
      TaskMapMembers(front);
      assert tasks == front + [last];
      assert TaskIds(tasks) == TaskIds(front) + {last.id};
    }
  }

  lemma GraphSize(tasks: seq<Task>)
    ensures GraphOf(tasks).Keys == TaskMap(tasks).Keys
    ensures |GraphOf(tasks)| == |TaskMap(tasks)|
  {
    assert GraphOf(tasks).Keys == TaskMap(tasks).Keys;
    assert |GraphOf(tasks)| == |GraphOf(tasks).Keys|;
    assert |TaskMap(tasks)| == |TaskMap(tasks).Keys|;
  }

  lemma GraphClosed(tasks: seq<Task>)
    requires !HasUnknown(tasks)
    ensures Closed(GraphOf(tasks))
  {
    TaskMapMembers(tasks);
    forall a, b | Edge(GraphOf(tasks), a, b)
      ensures b in GraphOf(tasks)
    {
      assert TaskMap(tasks)[a] in tasks;
    }
  }

  // ----- the depth-first cycle check

  /** Everything a search can come to: the nodes and whatever they name. */
  function Universe(g: Graph): set<string> {
    g.Keys + set a, d | a in g && d in g[a] :: d
  }

  function Neighbors(g: Graph, n: string): seq<string> {
    if n in g then g[n] else []
  }

  /** The two sets that the nested `visit` function shares.  `trail` is the stack in call order,
      `finished` lists the visited nodes in the order in which they were finished. */
  class CycleSearch {
    const graph: Graph
    ghost const universe: set<string>
    var visited: set<string>
    var stack: set<string>
    ghost var trail: seq<string>
    ghost var finished: seq<string>

    ghost predicate Valid()
      reads this
    {
      && (forall a, b :: Edge(graph, a, b) ==> b in universe)
      && stack == Members(trail)
      && (trail == [] || IsPath(graph, trail))
      && visited == Members(finished)
      && Respects(graph, finished)
    }

    constructor (g: Graph)
      ensures Valid() && graph == g && universe == Universe(g) && visited == {} && trail == []
    {
      graph := g;
      universe := Universe(g);
      visited, stack := {}, {};
      trail, finished := [], [];
    }

    /** `stack.add(node)` for a node that the top of the stack depends on. */
    method Push(node: string)
      requires Valid() && node in universe && node !in stack
      requires trail == [] || Edge(graph, trail[|trail| - 1], node)
      modifies this`stack, this`trail
      ensures Valid() && stack == old(stack) + {node} && trail == old(trail) + [node]
      ensures |universe - stack| < |universe - old(stack)|
    {
      if trail != [] {
        ExtendsPath(graph, trail, node);
      }
      assert universe - (stack + {node}) == (universe - stack) - {node};
      stack := stack + {node};
      trail := trail + [node];
    }

    /** `stack.remove(node)` and `visited.add(node)` once all dependencies are visited. */
    method Finish(node: string)
      requires Valid() && trail != [] && trail[|trail| - 1] == node && node !in trail[..|trail| - 1]
      requires forall d :: d in Neighbors(graph, node) ==> d in visited
      modifies this
      ensures Valid() && stack == old(stack) - {node} && trail == old(trail)[..|old(trail)| - 1]
      ensures visited == old(visited) + {node}
    {
      FinishedRespects(graph, finished, node);
      stack := stack - {node};
      visited := visited + {node};
      finished := finished + [node];
      trail := trail[..|trail| - 1];
    }

    lemma OnStackIsCycle(node: string)
      requires Valid() && node in stack && Edge(graph, trail[|trail| - 1], node)
      ensures HasCycle(graph)
    {
      var i :| 0 <= i < |trail| && trail[i] == node;
      ClosesCycle(graph, trail, i, node);
    }

    /** Visiting a node either meets a cycle or finishes the node and all it depends on, and then
        leaves the stack as it was. */
    method Visit(node: string) returns (ok: bool)
      requires Valid() && node in universe
      requires trail == [] || Edge(graph, trail[|trail| - 1], node)
      modifies this
      ensures ok ==> Valid() && stack == old(stack) && trail == old(trail)
      ensures ok ==> old(visited) <= visited && node in visited
      ensures !ok ==> HasCycle(graph)
      decreases |universe - stack|
    {
      if node in stack {
        OnStackIsCycle(node);
        return false;
      }
      if node in visited {
        return true;
      }
      Push(node);
      var neighbors := Neighbors(graph, node);
      for k := 0 to |neighbors|
        invariant Valid() && trail == old(trail) + [node] && stack == old(stack) + {node}
        invariant old(visited) <= visited
        invariant forall j :: 0 <= j < k ==> neighbors[j] in visited
      {
        assert Edge(graph, node, neighbors[k]);
        var fine := Visit(neighbors[k]);
        if !fine {
          return false;
        }
      }
      Finish(node);
      assert trail == old(trail);
      return true;
    }
  }

  lemma FinishedRespects(g: Graph, finished: seq<string>, node: string)
    requires Respects(g, finished) && forall d :: d in Neighbors(g, node) ==> d in finished
    ensures Respects(g, finished + [node])
  {
    var longer := finished + [node];
    forall k, d | 0 <= k < |longer| && Edge(g, longer[k], d)
      ensures d in longer[..k]
    {
      if k < |finished| {
        assert longer[..k] == finished[..k];
      } else {
        assert longer[..k] == finished;
      }
    }
  }

  /** The search accepts exactly the graphs without a directed cycle, in whatever order it takes
      the nodes. */
  method ValidateNoCycle(g: Graph) returns (ok: bool)
    ensures ok <==> !HasCycle(g)
  {
    var search := new CycleSearch(g);
    var todo := g.Keys;
    while todo != {}
      invariant todo <= g.Keys && search.Valid() && search.graph == g && search.universe == Universe(g) && search.trail == []
      invariant g.Keys - todo <= search.visited
      decreases todo
    {
      var node :| node in todo;
      todo := todo - {node};
      if node !in search.visited {
        var fine := search.Visit(node);
        if !fine {
          return false;
        }
      }
    }
    assert forall n :: n in g ==> n in g.Keys - todo;
    OrderMeansAcyclic(g, search.finished);
    return true;
  }

  // ----- build

  method Build(tasks: seq<Task>) returns (r: Result<Graph, PlanError>)
    ensures r.Success? ==> r.value == GraphOf(tasks) && !HasUnknown(tasks) && !HasCycle(GraphOf(tasks))
    ensures r.Failure? && r.error.CycleDetected? ==> !HasUnknown(tasks) && HasCycle(GraphOf(tasks))
    ensures r.Failure? && r.error.UnknownDependency? ==>
              && r.error.dependency !in TaskIds(tasks)
              && exists t :: t in tasks && t.id == r.error.taskId && r.error.dependency in t.dependencies
  {
    var graph: Graph := map[];
    var taskIds := TaskIds(tasks);
    for i := 0 to |tasks|
      invariant graph == GraphOf(tasks[..i])
      invariant forall t, d :: t in tasks[..i] && d in t.dependencies ==> d in taskIds
    {
      var task := tasks[i];
      for j := 0 to |task.dependencies|
        invariant forall d :: d in task.dependencies[..j] ==> d in taskIds
      {
        var dep := task.dependencies[j];
        if dep !in taskIds {
          return Failure(UnknownDependency(task.id, dep));
        }
      }
      graph := graph[task.id := task.dependencies];
      assert tasks[..i + 1][..i] == tasks[..i];
    }
    assert tasks[..|tasks|] == tasks;
    var acyclic := ValidateNoCycle(graph);
    if !acyclic {
      return Failure(CycleDetected);
    }
    return Success(graph);
  }

  // ----- topological sort

  method CountDependenciesOf(n: string, deps: seq<string>, inDegree: map<string, int>,
                             dependents: map<string, seq<string>>, ghost seen: Graph)
      returns (inDegree': map<string, int>, dependents': map<string, seq<string>>)
    requires Counted(seen, inDegree, dependents) && n in seen && seen[n] == []
    ensures Counted(seen[n := deps], inDegree', dependents')
  {
    inDegree', dependents' := inDegree, dependents;
    ghost var part := seen;
    for j := 0 to |deps|
      invariant part == seen[n := deps[..j]] && Counted(part, inDegree', dependents')
    {
      ReversesExtend(dependents', part, n, deps[j]);
      dependents' := dependents'[deps[j] := DependentsOf(dependents', deps[j]) + [n]];
      inDegree' := inDegree'[n := inDegree'[n] + 1];
      part := part[n := part[n] + [deps[j]]];
      assert deps[..j + 1] == deps[..j] + [deps[j]];
    }
    assert deps[..|deps|] == deps;
  }

  method CountDependencies(g: Graph) returns (inDegree: map<string, int>, dependents: map<string, seq<string>>)
    ensures Counters(g, {}, [], inDegree) && Reverses(dependents, g)
  {
    inDegree := map n | n in g :: 0;
    dependents := map[];
    var todo := g.Keys;
    ghost var seen: Graph := map n | n in g :: [];
    while todo != {}
      invariant todo <= g.Keys && seen.Keys == g.Keys
      invariant forall n :: n in g ==> seen[n] == if n in todo then [] else g[n]
      invariant Counted(seen, inDegree, dependents)
      decreases todo
    {
      var n :| n in todo;
      todo := todo - {n};
      inDegree, dependents := CountDependenciesOf(n, g[n], inDegree, dependents, seen);
      seen := seen[n := g[n]];
    }
    assert seen == g;
    AllCounted(g, inDegree, dependents);
  }

  method TopologicalSort(tasks: seq<Task>) returns (r: Result<seq<Task>, PlanError>)
    ensures r.Success? ==> IsPlan(tasks, r.value)
    ensures r.Success? <==> !HasUnknown(tasks) && !HasCycle(GraphOf(tasks))
    ensures r.Failure? && r.error.CycleDetected? <==> !HasUnknown(tasks) && HasCycle(GraphOf(tasks))
  {
    var built := Build(tasks);
    if built.Failure? {
      return Failure(built.error);
    }
    var graph := built.value;
    GraphClosed(tasks);
    GraphSize(tasks);
    var ordered := KahnSort(tasks, graph);
    if |ordered| != |TaskMap(tasks)| {
      // the final length check never fires
      assert false;
    }
    return Success(ordered);
  }

  /** The sort proper, up to the length check. */
  method KahnSort(tasks: seq<Task>, graph: Graph) returns (ordered: seq<Task>)
    requires graph == GraphOf(tasks) && Closed(graph)
    ensures forall t :: t in ordered ==> t.id in TaskMap(tasks) && TaskMap(tasks)[t.id] == t
    ensures Greedy(graph, RankOf(tasks), Ids(ordered))
    ensures |ordered| == |graph| <==> !HasCycle(graph)
  {
    var taskMap, rank := TaskMap(tasks), RankOf(tasks);
    TaskMapMembers(tasks);
    var inDegree, dependents := CountDependencies(graph);
    var ready := StartList(graph, inDegree);
    ordered := [];
    ghost var ids: seq<string> := [];
    KahnStart(graph, rank, inDegree, ready);
    while ready != []
      invariant ids == Ids(ordered) && KahnState(graph, rank, ids, inDegree, ready)
      invariant forall t :: t in ordered ==> t.id in taskMap && taskMap[t.id] == t
      decreases |graph| - |ordered|
    {
      var currentId;
      currentId, inDegree, ready := PlaceLeast(graph, rank, ids, dependents, inDegree, ready);
      IdsExtend(ordered, taskMap[currentId]);
      ids := ids + [currentId];
      ordered := ordered + [taskMap[currentId]];
    }
    DrainedOrCyclic(graph, rank, ids, inDegree);
  }

  /** One round: sort the ready list, place its head, release what depends on it. */
  method PlaceLeast(g: Graph, rank: map<string, int>, ghost order: seq<string>, dependents: map<string, seq<string>>,
                    inDegree: map<string, int>, ready: seq<string>)
      returns (currentId: string, inDegree': map<string, int>, ready': seq<string>)
    requires KahnState(g, rank, order, inDegree, ready) && Reverses(dependents, g) && ready != []
    ensures KahnState(g, rank, order + [currentId], inDegree', ready')
    ensures currentId in g && |order| < |g|
  {
    ghost var placed := Members(order);
    SortKeepsReady(g, rank, placed, inDegree, ready);
    ready' := SortBy(KeyOrder(rank), ready);
    HeadIsLeast(g, rank, placed, inDegree, ready');
    GreedyExtend(g, rank, order, ready'[0]);
    PlacedHasNonePending(g, rank, order);
    PlacedFewer(g, rank, order + [ready'[0]]);
    currentId := ready'[0];
    assert Members(order + [currentId]) == placed + {currentId};
    inDegree', ready' := Release(g, placed, currentId, dependents, inDegree, ready'[1..]);
  }

  /** The ids whose counter is zero, in any order. */
  method StartList(g: Graph, inDegree: map<string, int>) returns (ready: seq<string>)
    requires inDegree.Keys == g.Keys
    ensures ReadyList(g, {}, inDegree, ready)
  {
    ready := [];
    var todo := inDegree.Keys;
    while todo != {}
      invariant todo <= g.Keys && Distinct(ready)
      invariant forall n :: n in ready <==> n in g && n !in todo && inDegree[n] == 0
      decreases todo
    {
      var n :| n in todo;
      todo := todo - {n};
      if inDegree[n] == 0 {
        ready := ready + [n];
      }
    }
  }

  /** Decrementing the counters of all dependents of the node just placed. */
  method Release(g: Graph, ghost placed: set<string>, c: string, dependents: map<string, seq<string>>,
                 inDegree: map<string, int>, ready: seq<string>)
      returns (inDegree': map<string, int>, ready': seq<string>)
    requires Available(g, placed, c) && Reverses(dependents, g)
    requires Counters(g, placed, [], inDegree) && ReadyList(g, placed + {c}, inDegree, ready)
    requires forall n :: n in placed && n in g ==> Pending(g[n], placed) == 0
    ensures Counters(g, placed + {c}, [], inDegree') && ReadyList(g, placed + {c}, inDegree', ready')
  {
    inDegree', ready' := inDegree, ready;
    var deps := DependentsOf(dependents, c);
    ReleaseBegins(g, placed, c, deps, inDegree, ready);
    for j := 0 to |deps|
      invariant Releasing(g, placed, c, deps, j, inDegree', ready')
    {
      ReleaseStep(g, placed, c, dependents, deps, j, inDegree', ready');
      inDegree', ready' := Decrement(g, placed, c, deps, j, inDegree', ready');
    }
    ReleaseEnds(g, placed, c, dependents, deps, inDegree', ready');
  }

  /** Decrement one counter; a task whose counter reaches zero is ready. */
  method Decrement(ghost g: Graph, ghost placed: set<string>, ghost c: string, deps: seq<string>, j: nat,
                   inDegree: map<string, int>, ready: seq<string>)
      returns (inDegree': map<string, int>, ready': seq<string>)
    requires j < |deps| && deps[j] in inDegree
    requires Releasing(g, placed, c, deps, j + 1, inDegree[deps[j] := inDegree[deps[j]] - 1],
                       if inDegree[deps[j]] == 1 then ready + [deps[j]] else ready)
    ensures Releasing(g, placed, c, deps, j + 1, inDegree', ready')
  {
    var dependent := deps[j];
    inDegree', ready' := inDegree[dependent := inDegree[dependent] - 1], ready;
    if inDegree'[dependent] == 0 {
      ready' := ready + [dependent];
    }
  }

  // ----- what a plan guarantees

  /** Tasks with distinct ids are all kept: the plan is a permutation of the input. */
  lemma PlanIsPermutation(tasks: seq<Task>, plan: seq<Task>)
    requires IsPlan(tasks, plan) && Distinct(Ids(tasks))
    ensures multiset(plan) == multiset(tasks)
  {
    var g, rank := GraphOf(tasks), RankOf(tasks);
    GraphSize(tasks);
    FullGreedyIsPermutation(g, rank, Ids(plan));
    TaskMapMembers(tasks);
    DistinctIdsKept(tasks);
    DistinctIdsDistinct(plan);
    DistinctIdsDistinct(tasks);
    forall t: Task
      ensures t in plan <==> t in tasks
    {
      if t in tasks {
        assert t.id in Members(Ids(plan));
        var k :| 0 <= k < |plan| && Ids(plan)[k] == t.id;
        assert plan[k] in plan;
        assert plan[k] == TaskMap(tasks)[t.id] == t;
      }
    }
    SameMembersDistinct(plan, tasks);
  }

  lemma DistinctIdsDistinct(tasks: seq<Task>)
    requires Distinct(Ids(tasks))
    ensures Distinct(tasks)
  {
    forall i, j | 0 <= i < j < |tasks|
      ensures tasks[i] != tasks[j]
    {
      assert Ids(tasks)[i] != Ids(tasks)[j];
    }
  }

  lemma {:induction false} DistinctIdsKept(tasks: seq<Task>)
    requires Distinct(Ids(tasks))
    ensures forall t :: t in tasks ==> t.id in TaskMap(tasks) && TaskMap(tasks)[t.id] == t
  {
    if tasks != [] {
      var n := |tasks| - 1;
      var front := tasks[..n];
      assert forall i :: 0 <= i < n ==> Ids(front)[i] == Ids(tasks)[i];
      DistinctIdsKept(front);
      forall t | t in tasks
        ensures t.id in TaskMap(tasks) && TaskMap(tasks)[t.id] == t
      {
        var i :| 0 <= i < |tasks| && tasks[i] == t;
        if i < n {
          assert front[i] in front;
          assert Ids(tasks)[i] != Ids(tasks)[n];
        }
      }
    }
  }

  /** In a plan every task comes after each task it depends on. */
  lemma PlanFollowsDependencies(tasks: seq<Task>, plan: seq<Task>, k: nat, d: string)
    requires IsPlan(tasks, plan) && k < |plan| && d in plan[k].dependencies
    ensures exists i :: 0 <= i < k && plan[i].id == d
  {
    var g := GraphOf(tasks);
    GraphSize(tasks);
    FullGreedyIsPermutation(g, RankOf(tasks), Ids(plan));
    assert plan[k] in plan;
    assert Edge(g, Ids(plan)[k], d);
    assert d in Ids(plan)[..k];
    var i :| 0 <= i < k && Ids(plan)[..k][i] == d;
    assert Ids(plan)[i] == plan[i].id;
  }

  /** Of two tasks in a plan that could both have been placed where the first one is, the first has the
      higher priority, or the same and the earlier id. */
  lemma PlanByPriority(tasks: seq<Task>, plan: seq<Task>, i: nat, j: nat)
    requires IsPlan(tasks, plan) && i < j < |plan|
    requires forall d :: d in plan[j].dependencies ==> exists k :: 0 <= k < i && plan[k].id == d
    ensures plan[i].priority > plan[j].priority
         || (plan[i].priority == plan[j].priority && ComesFirst(plan[i].id, plan[j].id))
  {
    var g, rank, ids := GraphOf(tasks), RankOf(tasks), Ids(plan);
    var placed := Members(ids[..i]);
    GraphSize(tasks);
    GreedyRespects(g, rank, ids);
    assert plan[i] in plan && plan[j] in plan;
    assert LeastAvailable(g, rank, placed, ids[i]);
    forall d | d in plan[j].dependencies
      ensures d in placed
    {
      var k :| 0 <= k < i && plan[k].id == d;
      assert ids[..i][k] == d;
    }
    assert ids[j] !in ids[..i];
    assert Available(g, placed, ids[j]);
    assert KeyLess(KeyOf(rank, ids[i]), KeyOf(rank, ids[j]));
    LessIsDictionaryOrder(plan[i].id, plan[j].id);
  }

  /** The plan depends only on which tasks are given, not on their order. */
  lemma PlanIgnoresInputOrder(tasks: seq<Task>, tasks': seq<Task>, plan: seq<Task>, plan': seq<Task>)
    requires multiset(tasks) == multiset(tasks') && Distinct(Ids(tasks))
    requires IsPlan(tasks, plan) && IsPlan(tasks', plan')
    ensures plan == plan'
  {
    SameMembers(tasks, tasks');
    DistinctIdsKept(tasks);
    PermutedIdsDistinct(tasks, tasks');
    DistinctIdsKept(tasks');
    TaskMapMembers(tasks);
    TaskMapMembers(tasks');
    assert TaskIds(tasks) == TaskIds(tasks');
    assert TaskMap(tasks) == TaskMap(tasks');
    GreedyUnique(GraphOf(tasks), RankOf(tasks), Ids(plan), Ids(plan'));
    forall k | 0 <= k < |plan|
      ensures plan[k] == plan'[k]
    {
      assert Ids(plan)[k] == Ids(plan')[k];
      assert plan[k] in plan && plan'[k] in plan';
    }
  }

  lemma PermutedIdsDistinct(tasks: seq<Task>, tasks': seq<Task>)
    requires multiset(tasks) == multiset(tasks') && Distinct(Ids(tasks))
    ensures Distinct(Ids(tasks'))
  {
    DistinctIdsDistinct(tasks);
    PermutationKeepsDistinct(tasks, tasks');
    SameMembers(tasks, tasks');
    forall i, j | 0 <= i < j < |tasks'|
      ensures Ids(tasks')[i] != Ids(tasks')[j]
    {
      assert tasks'[i] in tasks && tasks'[j] in tasks;
      var a :| 0 <= a < |tasks| && tasks[a] == tasks'[i];
      var b :| 0 <= b < |tasks| && tasks[b] == tasks'[j];
      assert a != b;
      assert Ids(tasks)[a] != Ids(tasks)[b];
    }
  }
}
