/** Dependency graphs as the planner and the lifecycle orchestrator see them: every node lists
    what it depends on, repetitions included.  Cycles, dependency-respecting orders, the greedy
    order, and the bookkeeping of a Kahn sort. */
module DependencyGraph {
  import opened StringOrder
  import opened Sorting

  type Graph = map<string, seq<string>>

  // ----- paths and cycles

  predicate Edge(g: Graph, a: string, b: string) {
    a in g && b in g[a]
  }

  ghost predicate IsPath(g: Graph, p: seq<string>) {
    && |p| > 0
    && forall i, j :: 0 <= i && j == i + 1 < |p| ==> Edge(g, p[i], p[j])
  }

  ghost predicate IsCycle(g: Graph, p: seq<string>) {
    |p| >= 2 && IsPath(g, p) && p[0] == p[|p| - 1]
  }

  ghost predicate HasCycle(g: Graph) {
    exists p :: IsCycle(g, p)
  }

  /** Every named dependency is itself a node. */
  ghost predicate Closed(g: Graph) {
    forall a, b :: Edge(g, a, b) ==> b in g
  }

  function Members(xs: seq<string>): set<string> {
    set x | x in xs
  }

  ghost predicate Continues(g: Graph, s: set<string>, n: string) {
    exists d :: d in s && Edge(g, n, d)
  }

  /** A nonempty set of nodes in which every node depends on another of the set holds a cycle. */
  lemma StuckSetHasCycle(g: Graph, s: set<string>)
    requires s != {}
    requires forall n {:trigger Continues(g, s, n)} :: n in s ==> Continues(g, s, n)
    ensures HasCycle(g)
  {
    var n :| n in s;
    WalkFindsCycle(g, s, [n]);
  }

  lemma {:induction false} WalkFindsCycle(g: Graph, s: set<string>, p: seq<string>)
    requires forall n {:trigger Continues(g, s, n)} :: n in s ==> Continues(g, s, n)
    requires IsPath(g, p) && Distinct(p) && Members(p) <= s
    ensures HasCycle(g)
    decreases |s| - |p|
  {
    DistinctLength(p);
    SubsetSize(Members(p), s);
    var last := p[|p| - 1];
    assert last in Members(p);
    assert Continues(g, s, last);
    var d :| d in s && Edge(g, last, d);
    if d in p {
      var i :| 0 <= i < |p| && p[i] == d;
      ClosesCycle(g, p, i, d);
    } else {
      ExtendsPath(g, p, d);
      assert Members(p + [d]) == Members(p) + {d};
      DistinctLength(p + [d]);
      SubsetSize(Members(p + [d]), s);
      WalkFindsCycle(g, s, p + [d]);
    }
  }

  lemma ClosesCycle(g: Graph, p: seq<string>, i: nat, d: string)
    requires IsPath(g, p) && i < |p| && p[i] == d && Edge(g, p[|p| - 1], d)
    ensures HasCycle(g)
  {
    var q := p[i..] + [d];
    forall a, b | 0 <= a && b == a + 1 < |q|
      ensures Edge(g, q[a], q[b])
    {
      if b < |q| - 1 {
        assert Edge(g, p[i + a], p[i + b]);
      }
    }
    assert IsCycle(g, q);
  }

  lemma ExtendsPath(g: Graph, p: seq<string>, d: string)
    requires IsPath(g, p) && Edge(g, p[|p| - 1], d)
    ensures IsPath(g, p + [d])
    ensures Distinct(p) && d !in p ==> Distinct(p + [d])
  {
    var q := p + [d];
    forall a, b | 0 <= a && b == a + 1 < |q|
      ensures Edge(g, q[a], q[b])
    {
      if b < |p| {
        assert Edge(g, p[a], p[b]);
      }
    }
  }

  lemma {:induction false} SubsetSize<T>(a: set<T>, b: set<T>)
    requires a <= b
    ensures |a| <= |b|
  {
    assert b == a + (b - a);
  }

  // ----- orders

  /** Every entry comes after everything it depends on. */
  ghost predicate Respects(g: Graph, order: seq<string>) {
    forall k, d :: 0 <= k < |order| && Edge(g, order[k], d) ==> d in order[..k]
  }

  function IndexOf(x: string, xs: seq<string>): (i: nat)
    requires x in xs
    ensures i < |xs| && xs[i] == x
    ensures forall j :: 0 <= j < |xs| && xs[j] == x ==> i <= j
  {
    if xs[0] == x then 0 else 1 + IndexOf(x, xs[1..])
  }

  lemma {:induction false} PathDescends(g: Graph, order: seq<string>, p: seq<string>)
    requires Respects(g, order) && IsPath(g, p) && |p| >= 2
    requires forall n :: n in g ==> n in order
    ensures p[0] in order && p[|p| - 1] in order
    ensures IndexOf(p[|p| - 1], order) < IndexOf(p[0], order)
  {
    assert Edge(g, p[0], p[1]);
    var k := IndexOf(p[0], order);
    assert p[1] in order[..k];
    var i :| 0 <= i < k && order[i] == p[1];
    if |p| > 2 {
      var q := p[1..];
      forall i, j | 0 <= i && j == i + 1 < |q|
        ensures Edge(g, q[i], q[j])
      {
        assert Edge(g, p[i + 1], p[j + 1]);
      }
      PathDescends(g, order, q);
    }
  }

  /** A graph all of whose nodes can be listed after their dependencies has no cycle. */
  lemma OrderMeansAcyclic(g: Graph, order: seq<string>)
    requires Respects(g, order)
    requires forall n :: n in g ==> n in order
    ensures !HasCycle(g)
  {
    forall p | IsCycle(g, p)
      ensures false
    {
      PathDescends(g, order, p);
    }
  }

  // ----- the greedy order

  /** Node `n` is not placed yet and all its dependencies are. */
  ghost predicate Available(g: Graph, placed: set<string>, n: string) {
    n in g && n !in placed && forall d :: d in g[n] ==> d in placed
  }

  function KeyOf(rank: map<string, int>, n: string): Key {
    Key(if n in rank then rank[n] else 0, n)
  }

  ghost predicate LeastAvailable(g: Graph, rank: map<string, int>, placed: set<string>, n: string) {
    && Available(g, placed, n)
    && forall m :: Available(g, placed, m) && m != n ==> KeyLess(KeyOf(rank, n), KeyOf(rank, m))
  }

  /** Each position holds the least key among the unplaced nodes whose dependencies are placed. */
  ghost predicate Greedy(g: Graph, rank: map<string, int>, order: seq<string>) {
    forall k :: 0 <= k < |order| ==> LeastAvailable(g, rank, Members(order[..k]), order[k])
  }

  lemma {:induction false} GreedyUnique(g: Graph, rank: map<string, int>, a: seq<string>, b: seq<string>)
    requires Greedy(g, rank, a) && Greedy(g, rank, b)
    requires |a| == |b|
    ensures a == b
  {
    if a != [] {
      var n := |a| - 1;
      forall k | 0 <= k < n
        ensures LeastAvailable(g, rank, Members(a[..n][..k]), a[..n][k])
        ensures LeastAvailable(g, rank, Members(b[..n][..k]), b[..n][k])
      {
        assert a[..n][..k] == a[..k] && b[..n][..k] == b[..k];
      }
      GreedyUnique(g, rank, a[..n], b[..n]);
      assert LeastAvailable(g, rank, Members(a[..n]), a[n]);
      assert LeastAvailable(g, rank, Members(b[..n]), b[n]);
      if a[n] != b[n] {
        KeyLessAsymmetric(KeyOf(rank, a[n]), KeyOf(rank, b[n]));
      }
      assert a == a[..n] + [a[n]] && b == b[..n] + [b[n]];
    }
  }

  lemma GreedyExtend(g: Graph, rank: map<string, int>, order: seq<string>, n: string)
    requires Greedy(g, rank, order) && LeastAvailable(g, rank, Members(order), n)
    ensures Greedy(g, rank, order + [n])
  {
    var longer := order + [n];
    forall k | 0 <= k < |longer|
      ensures LeastAvailable(g, rank, Members(longer[..k]), longer[k])
    {
      if k < |order| {
        assert longer[..k] == order[..k];
      } else {
        assert longer[..k] == order;
      }
    }
  }

  /** A greedy order lists nodes without repetition, each after all its dependencies. */
  lemma GreedyRespects(g: Graph, rank: map<string, int>, order: seq<string>)
    requires Greedy(g, rank, order)
    ensures Distinct(order) && Members(order) <= g.Keys && Respects(g, order)
  {
    forall k | 0 <= k < |order|
      ensures Available(g, Members(order[..k]), order[k])
    {
      assert LeastAvailable(g, rank, Members(order[..k]), order[k]);
    }
    forall i, j | 0 <= i < j < |order|
      ensures order[i] != order[j]
    {
      assert order[..j][i] in Members(order[..j]);
    }
    forall k, d | 0 <= k < |order| && Edge(g, order[k], d)
      ensures d in order[..k]
    {
      assert d in Members(order[..k]);
    }
  }

  /** A greedy order as long as the graph has all its nodes, and the graph is then acyclic. */
  lemma FullGreedyIsPermutation(g: Graph, rank: map<string, int>, order: seq<string>)
    requires Greedy(g, rank, order) && |order| == |g|
    ensures Distinct(order) && Members(order) == g.Keys && Respects(g, order) && !HasCycle(g)
  {
    GreedyRespects(g, rank, order);
    DistinctLength(order);
    assert |Members(order)| == |g.Keys|;
    FullSubset(Members(order), g.Keys);
    assert forall n :: n in g ==> n in Members(order);
    OrderMeansAcyclic(g, order);
  }

  lemma FullSubset<T>(a: set<T>, b: set<T>)
    requires a <= b && |a| == |b|
    ensures a == b
  {
    assert b == a + (b - a);
    assert |b| == |a| + |b - a|;
  }

  /** When nothing is available and nodes are left over, the left-over nodes hold a cycle. */
  lemma StuckMeansCycle(g: Graph, placed: set<string>)
    requires Closed(g) && placed <= g.Keys && placed != g.Keys
    requires forall n :: !Available(g, placed, n)
    ensures HasCycle(g)
  {
    var rest := g.Keys - placed;
    assert g.Keys == placed + rest;
    forall n | n in rest
      ensures Continues(g, rest, n)
    {
      assert !Available(g, placed, n);
      var d :| d in g[n] && d !in placed;
      assert Edge(g, n, d);
    }
    StuckSetHasCycle(g, rest);
  }

  // ----- the counters of a Kahn sort

  /** How many entries of `deps` are not placed yet, repeated entries counted again. */
  function Pending(deps: seq<string>, placed: set<string>): nat {
    if deps == [] then 0
    else (if deps[0] in placed then 0 else 1) + Pending(deps[1..], placed)
  }

  lemma {:induction false} PendingZero(deps: seq<string>, placed: set<string>)
    ensures Pending(deps, placed) == 0 <==> forall d :: d in deps ==> d in placed
  {
    if deps != [] {
      PendingZero(deps[1..], placed);
      assert deps == [deps[0]] + deps[1..];
    }
  }

  lemma {:induction false} PendingNone(deps: seq<string>)
    ensures Pending(deps, {}) == |deps|
  {
    if deps != [] {
      PendingNone(deps[1..]);
    }
  }

  lemma {:induction false} PendingPlace(deps: seq<string>, placed: set<string>, c: string)
    requires c !in placed
    ensures Pending(deps, placed + {c}) == Pending(deps, placed) - multiset(deps)[c]
  {
    if deps != [] {
      PendingPlace(deps[1..], placed, c);
      assert deps == [deps[0]] + deps[1..];
    }
  }

  function DependentsOf(dependents: map<string, seq<string>>, d: string): seq<string> {
    if d in dependents then dependents[d] else []
  }

  /** `dependents` is the graph turned around, multiplicities included. */
  ghost predicate Reverses(dependents: map<string, seq<string>>, g: Graph) {
    && (forall d, n :: n in g ==> multiset(DependentsOf(dependents, d))[n] == multiset(g[n])[d])
    && (forall d, n :: n in DependentsOf(dependents, d) ==> n in g)
  }

  lemma ReversesExtend(dependents: map<string, seq<string>>, g: Graph, n: string, d: string)
    requires n in g && Reverses(dependents, g)
    ensures Reverses(dependents[d := DependentsOf(dependents, d) + [n]], g[n := g[n] + [d]])
  {
    var dependents', g' := dependents[d := DependentsOf(dependents, d) + [n]], g[n := g[n] + [d]];
    forall e, m | m in g'
      ensures multiset(DependentsOf(dependents', e))[m] == multiset(g'[m])[e]
    {
      assert multiset(DependentsOf(dependents, e))[m] == multiset(g[m])[e];
    }
    forall e, m | m in DependentsOf(dependents', e)
      ensures m in g'
    {
      assert m in DependentsOf(dependents, e) || m == n;
    }
  }

  /** The counters half-way through the dependents of the node `c` just placed: `seen` are the
      dependents already decremented, `placed` does not hold `c` yet. */
  ghost predicate Counters(g: Graph, placed: set<string>, seen: seq<string>, inDegree: map<string, int>) {
    && inDegree.Keys == g.Keys
    && forall n :: n in g ==> inDegree[n] == Pending(g[n], placed) - multiset(seen)[n]
  }

  /** The ready list holds exactly the unplaced nodes whose counter is zero. */
  ghost predicate ReadyList(g: Graph, placed: set<string>, inDegree: map<string, int>, ready: seq<string>) {
    && inDegree.Keys == g.Keys
    && Distinct(ready)
    && forall n :: n in ready <==> n in g && n !in placed && inDegree[n] == 0
  }

  lemma ReadyIsAvailable(g: Graph, placed: set<string>, inDegree: map<string, int>, ready: seq<string>)
    requires Counters(g, placed, [], inDegree) && ReadyList(g, placed, inDegree, ready)
    ensures forall n :: n in ready <==> Available(g, placed, n)
  {
    forall n
      ensures n in ready <==> Available(g, placed, n)
    {
      if n in g {
        PendingZero(g[n], placed);
      }
    }
  }

  lemma CountersAfter(g: Graph, placed: set<string>, c: string, dependents: map<string, seq<string>>,
                      deps: seq<string>, inDegree: map<string, int>)
    requires c !in placed && Reverses(dependents, g)
    requires multiset(deps) == multiset(DependentsOf(dependents, c))
    requires Counters(g, placed, deps, inDegree)
    ensures Counters(g, placed + {c}, [], inDegree)
  {
    forall n | n in g
      ensures inDegree[n] == Pending(g[n], placed + {c})
    {
      PendingPlace(g[n], placed, c);
    }
  }

  /** The next dependent is a node with a positive counter that is neither placed nor ready. */
  lemma NextDependent(g: Graph, placed: set<string>, c: string, dependents: map<string, seq<string>>, j: nat,
                      inDegree: map<string, int>, deps: seq<string>)
    requires Available(g, placed, c) && Reverses(dependents, g)
    requires multiset(deps) == multiset(DependentsOf(dependents, c)) && j < |deps|
    requires Counters(g, placed, deps[..j], inDegree)
    requires forall n :: n in placed && n in g ==> Pending(g[n], placed) == 0
    ensures deps[j] in g && inDegree[deps[j]] >= 1 && deps[j] !in placed && deps[j] != c
  {
    var n := deps[j];
    SameMembers(deps, DependentsOf(dependents, c));
    assert n in DependentsOf(dependents, c);
    assert deps == deps[..j] + [n] + deps[j + 1..];
    assert multiset(deps)[n] == multiset(g[n])[c];
    PendingPlace(g[n], placed, c);
    PendingZero(g[c], placed);
  }

  lemma DecrementCounters(g: Graph, placed: set<string>, deps: seq<string>, j: nat, inDegree: map<string, int>)
    requires j < |deps| && Counters(g, placed, deps[..j], inDegree) && deps[j] in g
    ensures Counters(g, placed, deps[..j + 1], inDegree[deps[j] := inDegree[deps[j]] - 1])
  {
    assert deps[..j + 1] == deps[..j] + [deps[j]];
  }

  /** Decrementing a positive counter, and appending the node to the ready list when the counter
      reaches zero, keeps the ready list exact. */
  lemma DecrementReady(g: Graph, placed: set<string>, inDegree: map<string, int>, ready: seq<string>, n: string)
    requires ReadyList(g, placed, inDegree, ready)
    requires n in g && n !in placed && inDegree[n] >= 1
    ensures ReadyList(g, placed, inDegree[n := inDegree[n] - 1],
                      if inDegree[n] == 1 then ready + [n] else ready)
  {
    assert n !in ready;
  }

  /** Half-way through the dependents `deps` of the node `c` just placed: the first `j` counters
      are decremented. */
  ghost predicate Releasing(g: Graph, placed: set<string>, c: string, deps: seq<string>, j: nat,
                            inDegree: map<string, int>, ready: seq<string>) {
    j <= |deps| && Counters(g, placed, deps[..j], inDegree) && ReadyList(g, placed + {c}, inDegree, ready)
  }

  lemma ReleaseBegins(g: Graph, placed: set<string>, c: string, deps: seq<string>, inDegree: map<string, int>,
                      ready: seq<string>)
    requires Counters(g, placed, [], inDegree) && ReadyList(g, placed + {c}, inDegree, ready)
    ensures Releasing(g, placed, c, deps, 0, inDegree, ready)
  {
    assert deps[..0] == [];
  }

  lemma ReleaseStep(g: Graph, placed: set<string>, c: string, dependents: map<string, seq<string>>, deps: seq<string>,
                    j: nat, inDegree: map<string, int>, ready: seq<string>)
    requires Available(g, placed, c) && Reverses(dependents, g)
    requires multiset(deps) == multiset(DependentsOf(dependents, c)) && j < |deps|
    requires forall n :: n in placed && n in g ==> Pending(g[n], placed) == 0
    requires Releasing(g, placed, c, deps, j, inDegree, ready)
    ensures deps[j] in g && deps[j] !in placed && deps[j] != c && inDegree[deps[j]] >= 1
    ensures Releasing(g, placed, c, deps, j + 1, inDegree[deps[j] := inDegree[deps[j]] - 1],
                      if inDegree[deps[j]] == 1 then ready + [deps[j]] else ready)
  {
    NextDependent(g, placed, c, dependents, j, inDegree, deps);
    ReleaseOne(g, placed, c, deps, j, inDegree, ready);
  }

  lemma ReleaseOne(g: Graph, placed: set<string>, c: string, deps: seq<string>, j: nat, inDegree: map<string, int>,
                   ready: seq<string>)
    requires j < |deps| && Releasing(g, placed, c, deps, j, inDegree, ready)
    requires deps[j] in g && deps[j] !in placed && deps[j] != c && inDegree[deps[j]] >= 1
    ensures Releasing(g, placed, c, deps, j + 1, inDegree[deps[j] := inDegree[deps[j]] - 1],
                      if inDegree[deps[j]] == 1 then ready + [deps[j]] else ready)
  {
    DecrementCounters(g, placed, deps, j, inDegree);
    DecrementReady(g, placed + {c}, inDegree, ready, deps[j]);
  }

  lemma ReleaseSorts(g: Graph, placed: set<string>, c: string, deps: seq<string>, j: nat,
                     inDegree: map<string, int>, ready: seq<string>, rank: map<string, int>)
    requires Releasing(g, placed, c, deps, j, inDegree, ready)
    ensures Releasing(g, placed, c, deps, j, inDegree, SortBy(KeyOrder(rank), ready))
    ensures Ordered(KeyOrder(rank), SortBy(KeyOrder(rank), ready))
  {
    SortKeepsReady(g, rank, placed + {c}, inDegree, ready);
  }

  lemma ReleaseEnds(g: Graph, placed: set<string>, c: string, dependents: map<string, seq<string>>, deps: seq<string>,
                    inDegree: map<string, int>, ready: seq<string>)
    requires Available(g, placed, c) && Reverses(dependents, g)
    requires multiset(deps) == multiset(DependentsOf(dependents, c))
    requires Releasing(g, placed, c, deps, |deps|, inDegree, ready)
    ensures Counters(g, placed + {c}, [], inDegree) && ReadyList(g, placed + {c}, inDegree, ready)
  {
    assert deps[..|deps|] == deps;
    CountersAfter(g, placed, c, dependents, deps, inDegree);
  }

  /** What is placed in a greedy order has no pending dependency. */
  lemma PlacedHasNonePending(g: Graph, rank: map<string, int>, order: seq<string>)
    requires Greedy(g, rank, order)
    ensures forall n :: n in Members(order) && n in g ==> Pending(g[n], Members(order)) == 0
  {
    GreedyRespects(g, rank, order);
    forall n | n in Members(order) && n in g
      ensures Pending(g[n], Members(order)) == 0
    {
      var k :| 0 <= k < |order| && order[k] == n;
      forall d | d in g[n]
        ensures d in Members(order)
      {
        assert Edge(g, order[k], d);
        assert d in order[..k];
      }
      PendingZero(g[n], Members(order));
    }
  }

  // ----- the sorted ready list

  function KeyOrder(rank: map<string, int>): (string, string) -> bool {
    (a, b) => KeyLess(KeyOf(rank, a), KeyOf(rank, b))
  }

  lemma KeyOrderWeak(rank: map<string, int>)
    ensures WeakOrder(KeyOrder(rank))
  {
    var less := KeyOrder(rank);
    forall x, y | less(x, y)
      ensures !less(y, x)
    {
      KeyLessAsymmetric(KeyOf(rank, x), KeyOf(rank, y));
    }
    forall x, y, z | !less(y, x) && !less(z, y)
      ensures !less(z, x)
    {
      KeyLessTotal(KeyOf(rank, x), KeyOf(rank, y));
      KeyLessTotal(KeyOf(rank, y), KeyOf(rank, z));
      if less(z, x) {
        if less(x, y) {
          KeyLessTransitive(KeyOf(rank, z), KeyOf(rank, x), KeyOf(rank, y));
        }
      }
    }
  }

  lemma SortKeepsReady(g: Graph, rank: map<string, int>, placed: set<string>, inDegree: map<string, int>,
                       ready: seq<string>)
    requires ReadyList(g, placed, inDegree, ready)
    ensures ReadyList(g, placed, inDegree, SortBy(KeyOrder(rank), ready))
    ensures Ordered(KeyOrder(rank), SortBy(KeyOrder(rank), ready))
    ensures |SortBy(KeyOrder(rank), ready)| == |ready|
  {
    var sorted := SortBy(KeyOrder(rank), ready);
    KeyOrderWeak(rank);
    SortOrders(KeyOrder(rank), ready);
    SortPermutes(KeyOrder(rank), ready);
    SameMembers(sorted, ready);
    PermutationKeepsDistinct(ready, sorted);
  }

  /** The head of the sorted ready list is the least available node. */
  lemma HeadIsLeast(g: Graph, rank: map<string, int>, placed: set<string>, inDegree: map<string, int>,
                    ready: seq<string>)
    requires Counters(g, placed, [], inDegree) && ReadyList(g, placed, inDegree, ready)
    requires ready != [] && Ordered(KeyOrder(rank), ready)
    ensures LeastAvailable(g, rank, placed, ready[0])
    ensures ReadyList(g, placed + {ready[0]}, inDegree, ready[1..])
    ensures ready[0] !in placed
  {
    ReadyIsAvailable(g, placed, inDegree, ready);
    assert ready[0] in ready;
    forall m | Available(g, placed, m) && m != ready[0]
      ensures KeyLess(KeyOf(rank, ready[0]), KeyOf(rank, m))
    {
      var k :| 0 <= k < |ready| && ready[k] == m;
      assert !KeyOrder(rank)(ready[k], ready[0]);
      KeyLessTotal(KeyOf(rank, ready[0]), KeyOf(rank, m));
    }
    forall n
      ensures n in ready[1..] <==> n in g && n !in placed + {ready[0]} && inDegree[n] == 0
    {
      assert ready == [ready[0]] + ready[1..];
    }
  }

  /** A drained Kahn sort placed every node, or the graph has a cycle. */
  lemma DrainedOrCyclic(g: Graph, rank: map<string, int>, order: seq<string>, inDegree: map<string, int>)
    requires Closed(g) && Greedy(g, rank, order)
    requires Counters(g, Members(order), [], inDegree) && ReadyList(g, Members(order), inDegree, [])
    ensures |order| == |g| <==> !HasCycle(g)
    ensures |order| == |g| || HasCycle(g)
  {
    GreedyRespects(g, rank, order);
    DistinctLength(order);
    if |order| == |g| {
      FullGreedyIsPermutation(g, rank, order);
    } else {
      ReadyIsAvailable(g, Members(order), inDegree, []);
      assert Members(order) != g.Keys;
      StuckMeansCycle(g, Members(order));
    }
  }

  // ----- filling the counters, and the state between two rounds

  /** The part of the graph that has been gone through, entry by entry. */
  ghost predicate Counted(seen: Graph, inDegree: map<string, int>, dependents: map<string, seq<string>>) {
    && inDegree.Keys == seen.Keys
    && (forall n :: n in seen ==> inDegree[n] == |seen[n]|)
    && Reverses(dependents, seen)
  }

  lemma AllCounted(g: Graph, inDegree: map<string, int>, dependents: map<string, seq<string>>)
    requires Counted(g, inDegree, dependents)
    ensures Counters(g, {}, [], inDegree) && Reverses(dependents, g)
  {
    forall n | n in g
      ensures inDegree[n] == Pending(g[n], {})
    {
      PendingNone(g[n]);
    }
  }

  /** Between two rounds of the sort: `order` is placed greedily, the counters are exact, and the
      ready list holds what is available. */
  ghost predicate KahnState(g: Graph, rank: map<string, int>, order: seq<string>, inDegree: map<string, int>,
                            ready: seq<string>) {
    && Greedy(g, rank, order)
    && Counters(g, Members(order), [], inDegree)
    && ReadyList(g, Members(order), inDegree, ready)
  }

  lemma KahnStart(g: Graph, rank: map<string, int>, inDegree: map<string, int>, ready: seq<string>)
    requires Counters(g, {}, [], inDegree) && ReadyList(g, {}, inDegree, ready)
    ensures KahnState(g, rank, [], inDegree, ready)
  {
    assert Members([]) == {};
  }

  lemma PlacedFewer(g: Graph, rank: map<string, int>, order: seq<string>)
    requires Greedy(g, rank, order)
    ensures |order| <= |g|
  {
    GreedyRespects(g, rank, order);
    DistinctLength(order);
    SubsetSize(Members(order), g.Keys);
  }
}
