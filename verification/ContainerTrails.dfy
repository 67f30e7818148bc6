/** The requests that constructions make of each other: trails of requests, singletons that need each
    other, and services behind which a construction comes to suspend. */
module ContainerTrails {
  import opened Wrappers
  import opened Sorting
  import opened ContainerValidation

  /** A singleton that is built, not registered as an instance. */
  predicate Shared(reg: Registry, t: Interface) {
    t in reg && reg[t].lifetime == Singleton && !reg[t].provider.Instance?
  }

  /** Calling the target suspends. */
  predicate Suspends(reg: Registry, t: Interface) {
    t in reg && reg[t].provider.Target? && reg[t].provider.suspends
  }

  /** Building `x` comes to ask for `y`, directly or through others. */
  ghost predicate Reaches(reg: Registry, x: Interface, y: Interface) {
    exists trail :: IsTrailFrom(reg, trail, x, y)
  }

  ghost predicate IsTrailFrom(reg: Registry, trail: seq<Interface>, x: Interface, y: Interface) {
    |trail| >= 2 && Trail(reg, trail) && trail[0] == x && trail[|trail| - 1] == y
  }

  /** Two different singletons need each other. */
  ghost predicate Knot(reg: Registry, x: Interface, y: Interface) {
    x != y && Shared(reg, x) && Shared(reg, y) && Reaches(reg, x, y) && Reaches(reg, y, x)
  }

  ghost predicate Knotted(reg: Registry) {
    exists x, y :: Knot(reg, x, y)
  }

  /** Building `x` comes to call a suspending target: its own, or one behind what it asks for. */
  ghost predicate Hangs(reg: Registry, x: Interface) {
    exists u :: HangsAt(reg, x, u)
  }

  ghost predicate HangsAt(reg: Registry, x: Interface, u: Interface) {
    (u == x || Reaches(reg, x, u)) && Suspends(reg, u) && Verdict0(reg, u) == Fine
  }

  /** Two different singletons need each other, and building them comes to suspend. */
  ghost predicate Tangled(reg: Registry) {
    exists x, y :: Knot(reg, x, y) && Hangs(reg, x)
  }

  ghost predicate NothingSuspends(reg: Registry) {
    forall u :: !Suspends(reg, u)
  }

  // ----- trails

  lemma PartIsTrail(reg: Registry, trail: seq<Interface>, a: nat, b: nat)
    requires Trail(reg, trail) && a <= b <= |trail|
    ensures Trail(reg, trail[a..b])
  {
    forall m, n | 0 <= m && n == m + 1 < b - a
      ensures Asks(reg, trail[a..b][m], trail[a..b][n])
    {
      assert Asks(reg, trail[a + m], trail[a + n]);
    }
  }

  lemma JoinTrails(reg: Registry, a: seq<Interface>, b: seq<Interface>)
    requires a != [] && b != [] && Trail(reg, a) && Trail(reg, b) && a[|a| - 1] == b[0]
    ensures Trail(reg, a + b[1..])
  {
    var all := a + b[1..];
    forall m, n | 0 <= m && n == m + 1 < |all|
      ensures Asks(reg, all[m], all[n])
    {
      if n < |a| {
        assert Asks(reg, a[m], a[n]);
      } else {
        assert all[n] == b[n - |a| + 1] && all[m] == b[m - |a| + 1];
        assert Asks(reg, b[m - |a| + 1], b[n - |a| + 1]);
      }
    }
  }

  lemma ReachesThrough(reg: Registry, x: Interface, y: Interface, z: Interface)
    requires Reaches(reg, x, y) && Reaches(reg, y, z)
    ensures Reaches(reg, x, z)
  {
    var a :| IsTrailFrom(reg, a, x, y);
    var b :| IsTrailFrom(reg, b, y, z);
    JoinTrails(reg, a, b);
    assert IsTrailFrom(reg, a + b[1..], x, z);
  }

  lemma AskedIsReached(reg: Registry, x: Interface, y: Interface)
    requires Asks(reg, x, y)
    ensures Reaches(reg, x, y)
  {
    assert IsTrailFrom(reg, [x, y], x, y);
  }

  lemma ReachesItself(reg: Registry, x: Interface)
    requires Reaches(reg, x, x)
    ensures Verdict0(reg, x) == Cyclic
  {
    var trail :| IsTrailFrom(reg, trail, x, x);
    assert trail[..|trail| - 1][0] == x;
    LassoIsCyclic(reg, trail);
  }

  lemma KnotIsCyclic(reg: Registry, x: Interface, y: Interface)
    requires Knot(reg, x, y)
    ensures Verdict0(reg, x) == Cyclic && Verdict0(reg, y) == Cyclic
  {
    ReachesThrough(reg, x, y, x);
    ReachesThrough(reg, y, x, y);
    ReachesItself(reg, x);
    ReachesItself(reg, y);
  }

  lemma {:induction false} SimpleTrail(reg: Registry, trail: seq<Interface>, x: Interface, y: Interface)
      returns (c: seq<Interface>)
    requires IsTrailFrom(reg, trail, x, y) && x != y
    ensures IsTrailFrom(reg, c, x, y) && Distinct(c)
    decreases |trail|
  {
    if Distinct(trail) {
      c := trail;
    } else {
      var i, j :| 0 <= i < j < |trail| && trail[i] == trail[j];
      var front, back := trail[0..i + 1], trail[j..|trail|];
      PartIsTrail(reg, trail, 0, i + 1);
      PartIsTrail(reg, trail, j, |trail|);
      JoinTrails(reg, front, back);
      var shorter := front + back[1..];
      assert shorter[|shorter| - 1] == y;
      assert |shorter| >= 2;
      c := SimpleTrail(reg, shorter, x, y);
    }
  }

  // ----- cyclic verdicts along trails

  /** What a type asks for is not cyclic if the type itself is not. */
  lemma AskedStaysClear(reg: Registry, a: Interface, b: Interface)
    requires Asks(reg, a, b) && Verdict0(reg, a) != Cyclic
    ensures Verdict0(reg, b) != Cyclic
  {
    if b in reg {
      AskedIsNotCyclic(reg, a, b);
    }
  }

  /** All types before one with the verdict "cyclic" have it, too. */
  lemma {:induction false} CyclicBefore(reg: Registry, trail: seq<Interface>, i: nat)
    requires Trail(reg, trail) && i < |trail| && Verdict0(reg, trail[|trail| - 1]) == Cyclic
    ensures Verdict0(reg, trail[i]) == Cyclic
    decreases |trail| - i
  {
    if i < |trail| - 1 {
      CyclicBefore(reg, trail, i + 1);
      assert Asks(reg, trail[i], trail[i + 1]);
      if Verdict0(reg, trail[i]) != Cyclic {
        AskedStaysClear(reg, trail[i], trail[i + 1]);
      }
    }
  }

  /** A type asks for at most one type with the verdict "cyclic", and for it last. */
  lemma OneCyclicRequest(reg: Registry, a: Interface, b: Interface, b': Interface)
    requires Asks(reg, a, b) && Asks(reg, a, b') && Verdict0(reg, b) == Cyclic && Verdict0(reg, b') == Cyclic
    ensures b == b'
  {
    var params := reg[a].provider.params;
    var k :| 0 <= k < |params| && AsksAt(reg, params, k, b);
    var k' :| 0 <= k' < |params| && AsksAt(reg, params, k', b');
    assert k < k' ==> Passes(reg, params[k]);
    assert k' < k ==> Passes(reg, params[k']);
  }

  lemma CyclicRequestIsLast(reg: Registry, params: seq<Param>, i: nat, t: Interface, n: nat, b: Interface)
    requires i < |params| && n < |params| && AsksAt(reg, params, i, t) && AsksAt(reg, params, n, b)
    requires Verdict0(reg, t) != Cyclic && Verdict0(reg, b) == Cyclic
    ensures i < n
  {
    assert !Passes(reg, params[n]);
  }

  /** A way from one singleton to another on which every type has the verdict "cyclic". */
  ghost predicate Way(reg: Registry, c: seq<Interface>) {
    && |c| >= 2 && Distinct(c) && Trail(reg, c)
    && Shared(reg, c[0]) && Shared(reg, c[|c| - 1])
    && forall i :: 0 <= i < |c| ==> Verdict0(reg, c[i]) == Cyclic
  }

  lemma KnotHasWay(reg: Registry, x: Interface, y: Interface) returns (c: seq<Interface>)
    requires Knot(reg, x, y)
    ensures Way(reg, c) && c[0] == x && c[|c| - 1] == y
  {
    KnotIsCyclic(reg, x, y);
    var trail :| IsTrailFrom(reg, trail, x, y);
    c := SimpleTrail(reg, trail, x, y);
    forall i | 0 <= i < |c|
      ensures Verdict0(reg, c[i]) == Cyclic
    {
      CyclicBefore(reg, c, i);
    }
  }

  // ----- suspending

  lemma HangsThrough(reg: Registry, x: Interface, y: Interface)
    requires Reaches(reg, x, y) && Hangs(reg, y)
    ensures Hangs(reg, x)
  {
    var u :| HangsAt(reg, y, u);
    if u != y {
      ReachesThrough(reg, x, y, u);
    }
    assert HangsAt(reg, x, u);
  }

  /** A construction suspends in its own target or behind something it asks for. */
  lemma HangsFirst(reg: Registry, x: Interface) returns (b: Interface)
    requires Hangs(reg, x) && !(Suspends(reg, x) && Verdict0(reg, x) == Fine)
    ensures Asks(reg, x, b) && Hangs(reg, b)
  {
    var u :| HangsAt(reg, x, u);
    var trail :| IsTrailFrom(reg, trail, x, u);
    b := trail[1];
    assert Asks(reg, trail[0], trail[1]);
    if |trail| > 2 {
      PartIsTrail(reg, trail, 1, |trail|);
      assert IsTrailFrom(reg, trail[1..|trail|], b, u);
    }
    assert HangsAt(reg, b, u);
  }

  /** Where a construction goes round, it asks for something else first, and suspends behind that. */
  ghost predicate PausesAt(reg: Registry, z: Interface, t: Interface) {
    Verdict0(reg, z) == Cyclic && Asks(reg, z, t) && Verdict0(reg, t) != Cyclic && Hangs(reg, t)
  }

  /** A construction that goes round and comes to suspend has such a pause on its way. */
  lemma {:induction false} HangsPauses(reg: Registry, trail: seq<Interface>, u: Interface)
      returns (i: nat)
    requires |trail| >= 2 && Trail(reg, trail) && trail[|trail| - 1] == u
    requires Verdict0(reg, trail[0]) == Cyclic && Suspends(reg, u) && Verdict0(reg, u) == Fine
    ensures i < |trail| - 1 && PausesAt(reg, trail[i], trail[i + 1])
    ensures forall j :: 0 <= j <= i ==> Verdict0(reg, trail[j]) == Cyclic
    decreases |trail|
  {
    assert Asks(reg, trail[0], trail[1]);
    if Verdict0(reg, trail[1]) == Cyclic {
      PartIsTrail(reg, trail, 1, |trail|);
      var k := HangsPauses(reg, trail[1..|trail|], u);
      i := k + 1;
      forall j | 0 <= j <= i
        ensures Verdict0(reg, trail[j]) == Cyclic
      {
        if j > 0 {
          assert trail[1..|trail|][j - 1] == trail[j];
        }
      }
    } else {
      i := 0;
      if |trail| > 2 {
        PartIsTrail(reg, trail, 1, |trail|);
        assert IsTrailFrom(reg, trail[1..|trail|], trail[1], u);
      }
      assert HangsAt(reg, trail[1], u);
    }
  }

  /** Two ways that make up a loop. */
  ghost predicate Loop(reg: Registry, c: seq<Interface>, d: seq<Interface>) {
    Way(reg, c) && Way(reg, d) && c[0] == d[|d| - 1] && d[0] == c[|c| - 1]
  }

  /** Following the requests with cyclic verdicts from the loop one stays on it. */
  lemma {:induction false} StaysOnLoop(reg: Registry, c: seq<Interface>, d: seq<Interface>, trail: seq<Interface>, i: nat)
    requires Loop(reg, c, d) && Trail(reg, trail) && i < |trail| && trail[0] == c[0]
    requires forall j :: 0 <= j <= i ==> Verdict0(reg, trail[j]) == Cyclic
    ensures trail[i] in c[..|c| - 1] || trail[i] in d[..|d| - 1]
  {
    if i == 0 {
      assert c[..|c| - 1][0] == c[0];
    } else {
      StaysOnLoop(reg, c, d, trail, i - 1);
      assert Asks(reg, trail[i - 1], trail[i]);
      if trail[i - 1] in c[..|c| - 1] {
        NextOnWay(reg, c, d, trail[i - 1], trail[i]);
      } else {
        NextOnWay(reg, d, c, trail[i - 1], trail[i]);
      }
    }
  }

  lemma NextOnWay(reg: Registry, c: seq<Interface>, d: seq<Interface>, a: Interface, b: Interface)
    requires Loop(reg, c, d) && a in c[..|c| - 1] && Asks(reg, a, b) && Verdict0(reg, b) == Cyclic
    ensures b in c[..|c| - 1] || b in d[..|d| - 1]
  {
    var j :| 0 <= j < |c| - 1 && c[j] == a;
    assert Asks(reg, c[j], c[j + 1]);
    OneCyclicRequest(reg, a, b, c[j + 1]);
    if j + 1 < |c| - 1 {
      assert c[..|c| - 1][j + 1] == b;
    } else {
      assert d[..|d| - 1][0] == b;
    }
  }

  /** A tangle has a way with a pause before its end. */
  lemma TangleHasPause(reg: Registry, x: Interface, y: Interface)
      returns (c: seq<Interface>, d: seq<Interface>, j: nat, t: Interface)
    requires Knot(reg, x, y) && Hangs(reg, x)
    ensures Loop(reg, c, d) && j < |c| - 1 && PausesAt(reg, c[j], t)
    ensures (c[0] == x && d[0] == y) || (c[0] == y && d[0] == x)
  {
    c := KnotHasWay(reg, x, y);
    d := KnotHasWay(reg, y, x);
    KnotIsCyclic(reg, x, y);
    var u :| HangsAt(reg, x, u);
    var trail :| IsTrailFrom(reg, trail, x, u);
    var i := HangsPauses(reg, trail, u);
    t := trail[i + 1];
    StaysOnLoop(reg, c, d, trail, i);
    if trail[i] !in c[..|c| - 1] {
      c, d := d, c;
    }
    j :| 0 <= j < |c| - 1 && c[j] == trail[i];
  }

  /** Two singletons that need each other come to suspend exactly if some type on the way from one to
      the other or back asks, before the request that leads on, for something behind which a target
      suspends. */
  lemma TangleIsPause(reg: Registry, x: Interface, y: Interface)
    requires Knot(reg, x, y)
    ensures Hangs(reg, x) <==>
              exists c, d, j, t :: Loop(reg, c, d) && c[0] in {x, y} && d[0] in {x, y} && 0 <= j < |c| - 1
                                   && PausesAt(reg, c[j], t)
  {
    if Hangs(reg, x) {
      var c, d, j, t := TangleHasPause(reg, x, y);
    }
    if c, d, j, t :| Loop(reg, c, d) && c[0] in {x, y} && d[0] in {x, y} && 0 <= j < |c| - 1 && PausesAt(reg, c[j], t) {
      AskedIsReached(reg, c[j], t);
      HangsThrough(reg, c[j], t);
      if j > 0 {
        PartIsTrail(reg, c, 0, j + 1);
        assert IsTrailFrom(reg, c[0..j + 1], c[0], c[j]);
        HangsThrough(reg, c[0], c[j]);
      }
      if c[0] == y {
        HangsThrough(reg, x, y);
      }
    }
  }
}
