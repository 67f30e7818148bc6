/** The dependency injection container's registry and its static validator
    (core/container/validation.py). */
module ContainerValidation {
  import opened Wrappers

  type Interface = string

  datatype Lifetime = Singleton | Scoped | Transient

  /** A constructor or factory parameter after introspection. */
  datatype Param = Param(name: string, annotation: Option<Interface>, hasDefault: bool)

  /** How a descriptor provides its service: a ready instance, something to call with parameters,
      which may be a coroutine that suspends before it returns, or (a falsy factory) nothing usable. */
  datatype Provider = Instance | Target(params: seq<Param>, suspends: bool) | NoTarget

  datatype Descriptor = Descriptor(lifetime: Lifetime, provider: Provider)

  type Registry = map<Interface, Descriptor>

  /** `Missing` stands for every error that is not a cycle: no registration, no annotation, no
      target. */
  datatype Verdict = Fine | Cyclic | Missing

  function Unvisited(reg: Registry, chain: set<Interface>): set<Interface> {
    reg.Keys - chain
  }

  /** `_validate_node`: cycles are never swallowed, other errors are when there is a default. */
  function ValidateNode(reg: Registry, i: Interface, chain: set<Interface>): Verdict
    decreases |Unvisited(reg, chain)|, 0
  {
    if i in chain then Cyclic
    else if i !in reg then Missing
    else
      match reg[i].provider
      case Instance => Fine
      case NoTarget => Missing
      case Target(params, _) =>
        assert Unvisited(reg, chain + {i}) == Unvisited(reg, chain) - {i};
        ValidateParams(reg, params, chain + {i})
  }

  function ValidateParams(reg: Registry, params: seq<Param>, chain: set<Interface>): Verdict
    decreases |Unvisited(reg, chain)|, |params| + 1
  {
    if params == [] then Fine
    else
      match params[0].annotation
      case None => Missing
      case Some(t) =>
        if t !in reg && params[0].hasDefault then ValidateParams(reg, params[1..], chain)
        else
          match ValidateNode(reg, t, chain)
          case Cyclic => Cyclic
          case Fine => ValidateParams(reg, params[1..], chain)
          case Missing => if params[0].hasDefault then ValidateParams(reg, params[1..], chain) else Missing
  }

  function Verdict0(reg: Registry, i: Interface): Verdict {
    ValidateNode(reg, i, {})
  }

  /** The interfaces for which `validate` reports an error, each at most once. */
  method Validate(reg: Registry) returns (errors: seq<(Interface, Verdict)>)
    ensures forall e :: e in errors ==> e.0 in reg && e.1 == Verdict0(reg, e.0) && e.1 != Fine
    ensures forall i :: i in reg && Verdict0(reg, i) != Fine ==> (i, Verdict0(reg, i)) in errors
    ensures |errors| <= |reg|
    ensures errors == [] <==> Clean(reg)
  {
    errors := [];
    var todo := reg.Keys;
    while todo != {}
      invariant todo <= reg.Keys && |errors| <= |reg.Keys| - |todo|
      invariant forall e :: e in errors ==> e.0 in reg && e.1 == Verdict0(reg, e.0) && e.1 != Fine
      invariant forall i :: i in reg && i !in todo && Verdict0(reg, i) != Fine ==> (i, Verdict0(reg, i)) in errors
      decreases todo
    {
      var i :| i in todo;
      todo := todo - {i};
      var verdict := ValidateNode(reg, i, {});
      if verdict != Fine {
        errors := errors + [(i, verdict)];
      }
    }
    if errors != [] {
      assert errors[0] in errors;
    }
  }

  ghost predicate Clean(reg: Registry) {
    forall i :: i in reg ==> Verdict0(reg, i) == Fine
  }

  // ----- the verdict and the chain

  /** A verdict other than "cyclic" stays the same for every smaller chain. */
  lemma {:induction false} SmallerChain(reg: Registry, i: Interface, chain: set<Interface>, sub: set<Interface>)
    requires sub <= chain && ValidateNode(reg, i, chain) != Cyclic
    ensures ValidateNode(reg, i, sub) == ValidateNode(reg, i, chain)
    decreases |Unvisited(reg, chain)|, 0
  {
    if i in reg && reg[i].provider.Target? {
      assert Unvisited(reg, chain + {i}) == Unvisited(reg, chain) - {i};
      SmallerChainParams(reg, reg[i].provider.params, chain + {i}, sub + {i});
    }
  }

  lemma {:induction false} SmallerChainParams(reg: Registry, params: seq<Param>, chain: set<Interface>,
                                              sub: set<Interface>)
    requires sub <= chain && ValidateParams(reg, params, chain) != Cyclic
    ensures ValidateParams(reg, params, sub) == ValidateParams(reg, params, chain)
    decreases |Unvisited(reg, chain)|, |params| + 1
  {
    if params != [] && params[0].annotation.Some? {
      var t := params[0].annotation.value;
      if t !in reg && params[0].hasDefault {
        SmallerChainParams(reg, params[1..], chain, sub);
      } else {
        SmallerChain(reg, t, chain, sub);
        if ValidateNode(reg, t, chain) == Fine || params[0].hasDefault {
          SmallerChainParams(reg, params[1..], chain, sub);
        }
      }
    }
  }

  /** A parameter that does not stop the construction when its type is looked at from the root. */
  predicate Passes(reg: Registry, p: Param) {
    && p.annotation.Some?
    && (Verdict0(reg, p.annotation.value) == Fine
        || (Verdict0(reg, p.annotation.value) == Missing && p.hasDefault))
  }

  /** Building `a` comes to ask for `b`: every parameter before passes. */
  ghost predicate Asks(reg: Registry, a: Interface, b: Interface) {
    && a in reg && reg[a].provider.Target?
    && exists k :: 0 <= k < |reg[a].provider.params| && AsksAt(reg, reg[a].provider.params, k, b)
  }

  predicate AsksAt(reg: Registry, params: seq<Param>, k: nat, b: Interface)
    requires k < |params|
  {
    params[k].annotation == Some(b) && forall j :: 0 <= j < k ==> Passes(reg, params[j])
  }

  /** A resolution chain in the order in which it came about. */
  ghost predicate Trail(reg: Registry, trail: seq<Interface>) {
    forall m, n :: 0 <= m && n == m + 1 < |trail| ==> Asks(reg, trail[m], trail[n])
  }

  /** Looking again at an interface of the trail, while the trail's end is on the chain, always
      ends in a cycle. */
  lemma {:induction false} TrailReturns(reg: Registry, trail: seq<Interface>, m: nat, chain: set<Interface>)
    requires Trail(reg, trail) && m < |trail| && trail[|trail| - 1] in chain && chain <= reg.Keys
    ensures ValidateNode(reg, trail[m], chain) == Cyclic
    decreases |Unvisited(reg, chain)|, 0
  {
    if trail[m] !in chain {
      var a, b := trail[m], trail[m + 1];
      assert Asks(reg, a, b);
      var params := reg[a].provider.params;
      var k :| 0 <= k < |params| && AsksAt(reg, params, k, b);
      assert Unvisited(reg, chain + {a}) == Unvisited(reg, chain) - {a};
      TrailReturns(reg, trail, m + 1, chain + {a});
      assert b in reg by { if m + 2 < |trail| { assert Asks(reg, trail[m + 1], trail[m + 2]); } }
      ReturnsThroughParams(reg, params, k, chain + {a}, b);
    }
  }

  lemma {:induction false} ReturnsThroughParams(reg: Registry, params: seq<Param>, k: nat, chain: set<Interface>,
                                                b: Interface)
    requires k < |params| && AsksAt(reg, params, k, b) && ValidateNode(reg, b, chain) == Cyclic
    requires chain <= reg.Keys && b in reg
    ensures ValidateParams(reg, params, chain) == Cyclic
    decreases k
  {
    if k > 0 {
      assert Passes(reg, params[0]);
      var t := params[0].annotation.value;
      if ValidateNode(reg, t, chain) != Cyclic {
        SmallerChain(reg, t, chain, {});
        assert AsksAt(reg, params[1..], k - 1, b) by {
          assert forall j :: 0 <= j < k - 1 ==> params[1..][j] == params[j + 1];
        }
        ReturnsThroughParams(reg, params[1..], k - 1, chain, b);
      }
    }
  }

  // ----- the verdict does not depend on how one came to ask

  lemma Shrinks(reg: Registry, chain: set<Interface>, x: Interface)
    requires x in reg && x !in chain
    ensures |Unvisited(reg, chain + {x})| < |Unvisited(reg, chain)|
  {
    assert Unvisited(reg, chain + {x}) == Unvisited(reg, chain) - {x};
  }

  lemma UnionSwap(a: set<Interface>, b: set<Interface>, c: set<Interface>)
    ensures a + b + c == a + c + b
  {
  }

  /** Once `i` is on the chain, only types off the trail can have a verdict that is not cyclic. */
  lemma OffTheTrail(reg: Registry, trail: seq<Interface>, i: Interface, x: Interface, chain: set<Interface>)
    requires Trail(reg, trail + [i]) && i in chain && chain <= reg.Keys
    requires ValidateNode(reg, x, chain) != Cyclic
    ensures x !in trail
  {
    forall m | 0 <= m < |trail|
      ensures trail[m] != x
    {
      TrailReturns(reg, trail + [i], m, chain);
    }
  }

  /** Along a trail that leads to `i`, and once `i` itself is on the chain, the interfaces of the
      trail make no difference to a verdict that is not cyclic. */
  lemma {:induction false} TrailAddsNothing(reg: Registry, trail: seq<Interface>, i: Interface, x: Interface,
                                            chain: set<Interface>)
    requires Trail(reg, trail + [i]) && i in reg && chain <= reg.Keys
    requires i in chain || (x == i && i !in trail)
    requires ValidateNode(reg, x, chain) != Cyclic
    ensures ValidateNode(reg, x, chain + Elements(trail)) == ValidateNode(reg, x, chain)
    decreases |Unvisited(reg, chain)|, 0
  {
    if i in chain {
      OffTheTrail(reg, trail, i, x, chain);
    }
    if x in reg && reg[x].provider.Target? {
      Shrinks(reg, chain, x);
      TrailAddsNothingParams(reg, trail, i, reg[x].provider.params, chain + {x});
      UnionSwap(chain, {x}, Elements(trail));
    }
  }

  lemma {:induction false} TrailAddsNothingParams(reg: Registry, trail: seq<Interface>, i: Interface,
                                                  params: seq<Param>, chain: set<Interface>)
    requires Trail(reg, trail + [i]) && i in reg && chain <= reg.Keys && i in chain
    requires ValidateParams(reg, params, chain) != Cyclic
    ensures ValidateParams(reg, params, chain + Elements(trail)) == ValidateParams(reg, params, chain)
    decreases |Unvisited(reg, chain)|, |params| + 1
  {
    if params != [] && params[0].annotation.Some? {
      var t := params[0].annotation.value;
      if t !in reg && params[0].hasDefault {
        TrailAddsNothingParams(reg, trail, i, params[1..], chain);
      } else {
        TrailAddsNothing(reg, trail, i, t, chain);
        if ValidateNode(reg, t, chain) == Fine || params[0].hasDefault {
          TrailAddsNothingParams(reg, trail, i, params[1..], chain);
        }
      }
    }
  }

  function Elements(xs: seq<Interface>): set<Interface> {
    set x | x in xs
  }

  /** The verdict on an interface asked for along a chain is its verdict from the root. */
  lemma ChainIndependent(reg: Registry, trail: seq<Interface>, i: Interface)
    requires Trail(reg, trail + [i]) && i !in trail
    ensures ValidateNode(reg, i, Elements(trail)) == Verdict0(reg, i)
  {
    if i in reg {
      if Verdict0(reg, i) != Cyclic {
        TrailAddsNothing(reg, trail, i, i, {});
        assert {} + Elements(trail) == Elements(trail);
      } else if ValidateNode(reg, i, Elements(trail)) != Cyclic {
        SmallerChain(reg, i, Elements(trail), {});
      }
    }
  }

  // ----- what a cyclic verdict means

  /** A trail whose last interface occurs before: the requests go round. */
  ghost predicate Lasso(reg: Registry, trail: seq<Interface>) {
    && |trail| >= 2 && Trail(reg, trail)
    && trail[|trail| - 1] in trail[..|trail| - 1]
  }

  lemma AskedIsNotCyclic(reg: Registry, a: Interface, b: Interface)
    requires Asks(reg, a, b) && Verdict0(reg, a) != Cyclic && b in reg
    ensures ValidateNode(reg, b, {a}) != Cyclic && Verdict0(reg, b) != Cyclic
  {
    var params := reg[a].provider.params;
    var k :| 0 <= k < |params| && AsksAt(reg, params, k, b);
    assert {} + {a} == {a};
    if ValidateNode(reg, b, {a}) == Cyclic {
      ReturnsThroughParams(reg, params, k, {a}, b);
    } else {
      SmallerChain(reg, b, {a}, {});
    }
  }

  lemma {:induction false} LassoIsCyclic(reg: Registry, trail: seq<Interface>)
    requires Lasso(reg, trail)
    ensures Verdict0(reg, trail[0]) == Cyclic
    decreases |trail|
  {
    var n := |trail| - 1;
    var y := trail[n];
    var m :| 0 <= m < n && trail[m] == y;
    assert Asks(reg, trail[m], trail[m + 1]);
    if Verdict0(reg, trail[0]) != Cyclic {
      assert Asks(reg, trail[0], trail[1]);
      assert trail[1] in reg by {
        if 1 < n { assert Asks(reg, trail[1], trail[2]); }
      }
      AskedIsNotCyclic(reg, trail[0], trail[1]);
      if m == 0 {
        TrailReturns(reg, trail, 1, {y});
      } else {
        TailIsTrail(reg, trail);
        assert trail[1..][m - 1] == y;
        LassoIsCyclic(reg, trail[1..]);
      }
    }
  }

  lemma TailIsTrail(reg: Registry, trail: seq<Interface>)
    requires Trail(reg, trail) && trail != []
    ensures Trail(reg, trail[1..])
  {
    forall m, n | 0 <= m && n == m + 1 < |trail[1..]|
      ensures Asks(reg, trail[1..][m], trail[1..][n])
    {
      assert Asks(reg, trail[m + 1], trail[n + 1]);
    }
  }

  lemma ExtendTrail(reg: Registry, trail: seq<Interface>, a: Interface, b: Interface)
    requires Trail(reg, trail + [a]) && Asks(reg, a, b)
    ensures Trail(reg, trail + [a] + [b])
  {
    var longer := trail + [a] + [b];
    forall m, n | 0 <= m && n == m + 1 < |longer|
      ensures Asks(reg, longer[m], longer[n])
    {
      if n < |trail| + 1 {
        assert longer[m] == (trail + [a])[m] && longer[n] == (trail + [a])[n];
      }
    }
  }

  lemma EnterShrinks(reg: Registry, trail: seq<Interface>, i: Interface)
    requires i in reg && i !in trail
    ensures Elements(trail + [i]) == Elements(trail) + {i}
    ensures |Unvisited(reg, Elements(trail + [i]))| < |Unvisited(reg, Elements(trail))|
  {
    assert Elements(trail + [i]) == Elements(trail) + {i};
    assert Unvisited(reg, Elements(trail + [i])) == Unvisited(reg, Elements(trail)) - {i};
  }

  lemma RepeatIsLasso(reg: Registry, trail: seq<Interface>, i: Interface)
    requires Trail(reg, trail + [i]) && i in trail
    ensures Lasso(reg, trail + [i])
  {
    assert (trail + [i])[..|trail|] == trail;
  }

  lemma {:induction false} CyclicHasLasso(reg: Registry, trail: seq<Interface>, i: Interface)
    requires Trail(reg, trail + [i]) && ValidateNode(reg, i, Elements(trail)) == Cyclic
    ensures exists lasso :: Lasso(reg, lasso) && trail + [i] <= lasso
    decreases |Unvisited(reg, Elements(trail))|, 0
  {
    if i in trail {
      RepeatIsLasso(reg, trail, i);
    } else {
      var params := reg[i].provider.params;
      assert params[0..] == params;
      EnterShrinks(reg, trail, i);
      CyclicParamHasLasso(reg, trail, i, 0);
    }
  }

  lemma {:induction false} CyclicParamHasLasso(reg: Registry, trail: seq<Interface>, i: Interface, k: nat)
    requires Trail(reg, trail + [i]) && i in reg && i !in trail && reg[i].provider.Target?
    requires k <= |reg[i].provider.params|
    requires forall j :: 0 <= j < k ==> Passes(reg, reg[i].provider.params[j])
    requires ValidateParams(reg, reg[i].provider.params[k..], Elements(trail + [i])) == Cyclic
    ensures exists lasso :: Lasso(reg, lasso) && trail + [i] <= lasso
    decreases |Unvisited(reg, Elements(trail + [i]))|, |reg[i].provider.params| - k + 1
  {
    var params := reg[i].provider.params;
    var p, chain := params[k], Elements(trail + [i]);
    var t := p.annotation.value;
    assert params[k..][1..] == params[k + 1..];
    if t !in reg && p.hasDefault {
      CyclicParamHasLasso(reg, trail, i, k + 1);
    } else if ValidateNode(reg, t, chain) == Cyclic {
      assert AsksAt(reg, params, k, t);
      ExtendTrail(reg, trail, i, t);
      CyclicHasLasso(reg, trail + [i], t);
      var lasso :| Lasso(reg, lasso) && trail + [i] + [t] <= lasso;
      assert trail + [i] <= lasso;
    } else {
      SmallerChain(reg, t, chain, {});
      CyclicParamHasLasso(reg, trail, i, k + 1);
    }
  }

  /** The validator reports a cycle for an interface exactly when following the requests that a
      construction would make from it can go round. */
  lemma CyclicExactly(reg: Registry, i: Interface)
    ensures Verdict0(reg, i) == Cyclic <==> exists lasso :: Lasso(reg, lasso) && lasso[0] == i
  {
    if Verdict0(reg, i) == Cyclic {
      assert Elements([]) == {};
      CyclicHasLasso(reg, [], i);
      var lasso :| Lasso(reg, lasso) && [] + [i] <= lasso;
      assert lasso[0] == i;
    }
    forall lasso | Lasso(reg, lasso) && lasso[0] == i
      ensures Verdict0(reg, i) == Cyclic
    {
      LassoIsCyclic(reg, lasso);
    }
  }
}
