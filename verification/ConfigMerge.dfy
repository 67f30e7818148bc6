/** Layered configuration (core/config/loader.py): the recursive merge of two dictionaries, and the
    fold over all providers, lowest priority first. */
module ConfigMerge {
  import opened Wrappers

  /** A configuration value; a provider's data is a dictionary. */
  datatype Value = Leaf(text: string) | Dict(entries: map<string, Value>)

  type Path = seq<string>

  function At(v: Value, p: Path): Option<Value>
    decreases |p|
  {
    if p == [] then Some(v)
    else if v.Dict? && p[0] in v.entries then At(v.entries[p[0]], p[1..])
    else None
  }

  predicate LeafAt(v: Value, p: Path) {
    At(v, p).Some? && At(v, p).value.Leaf?
  }

  predicate DictAt(v: Value, p: Path) {
    At(v, p).Some? && At(v, p).value.Dict?
  }

  /** The value has a leaf at the path or at a prefix of it. */
  ghost predicate CutsOff(v: Value, p: Path) {
    exists n :: 0 <= n <= |p| && LeafAt(v, p[..n])
  }

  /** A provider that has the last word about a leaf at the path. */
  ghost predicate Overrides(v: Value, p: Path) {
    CutsOff(v, p) || DictAt(v, p)
  }

  lemma CutsOffBelow(v: Value, key: string, p: Path)
    requires v.Dict?
    ensures CutsOff(v, [key] + p) <==> key in v.entries && CutsOff(v.entries[key], p)
  {
    var whole := [key] + p;
    forall n | 0 <= n <= |whole| && LeafAt(v, whole[..n])
      ensures key in v.entries && CutsOff(v.entries[key], p)
    {
      assert n > 0;
      WholePrefix(key, p, n - 1);
    }
    forall n | 0 <= n <= |p| && key in v.entries && LeafAt(v.entries[key], p[..n])
      ensures LeafAt(v, whole[..n + 1])
    {
      WholePrefix(key, p, n);
    }
  }

  lemma WholePrefix(key: string, p: Path, n: nat)
    requires n <= |p|
    ensures ([key] + p)[..n + 1] == [key] + p[..n] && ([key] + p)[..n + 1][1..] == p[..n]
  {
  }

  lemma {:induction false} SomethingAbove(v: Value, p: Path, n: nat)
    requires n <= |p| && At(v, p).Some?
    ensures At(v, p[..n]).Some?
    ensures n < |p| ==> DictAt(v, p[..n])
    decreases |p|
  {
    if n > 0 {
      assert p[..n][1..] == p[1..][..n - 1];
      SomethingAbove(v.entries[p[0]], p[1..], n - 1);
    }
  }

  /** Two values with the same leaves and the same dictionaries at every path are equal. */
  lemma {:induction false} SameEverywhere(v: Value, w: Value)
    requires forall p :: LeafAt(v, p) ==> At(w, p) == At(v, p)
    requires forall p :: LeafAt(w, p) ==> At(v, p) == At(w, p)
    requires forall p :: DictAt(v, p) <==> DictAt(w, p)
    ensures v == w
    decreases v
  {
    assert At(v, []) == Some(v) && At(w, []) == Some(w);
    if v.Leaf? {
      assert LeafAt(v, []);
    } else {
      assert DictAt(v, []);
      forall key
        ensures key in v.entries <==> key in w.entries
        ensures key in v.entries ==> v.entries[key] == w.entries[key]
      {
        assert [key][1..] == [];
        assert At(v, [key]).Some? <==> key in v.entries;
        assert At(w, [key]).Some? <==> key in w.entries;
        assert LeafAt(v, [key]) || LeafAt(w, [key]) || (DictAt(v, [key]) <==> DictAt(w, [key]));
        if key in v.entries {
          forall p
            ensures At(v.entries[key], p) == At(v, [key] + p)
            ensures At(w.entries[key], p) == At(w, [key] + p)
            ensures DictAt(v.entries[key], p) <==> DictAt(w.entries[key], p)
          {
            assert ([key] + p)[1..] == p;
            assert DictAt(v, [key] + p) <==> DictAt(w, [key] + p);
          }
          SameEverywhere(v.entries[key], w.entries[key]);
        }
      }
      assert v.entries == w.entries;
    }
  }

  // ----- the merge

  /** Dictionaries under one key are merged, anything else is replaced. */
  function Merge(base: Value, override: Value): Value
    requires base.Dict? && override.Dict?
    decreases override
  {
    Dict(map key | key in base.entries.Keys + override.entries.Keys ::
           if key !in override.entries then base.entries[key]
           else if key in base.entries && base.entries[key].Dict? && override.entries[key].Dict? then
             Merge(base.entries[key], override.entries[key])
           else override.entries[key])
  }

  method DeepMerge(base: Value, override: Value) returns (merged: Value)
    requires base.Dict? && override.Dict?
    ensures merged == Merge(base, override)
    decreases override
  {
    var entries := base.entries;
    var todo := override.entries.Keys;
    while todo != {}
      invariant todo <= override.entries.Keys
      invariant entries.Keys == base.entries.Keys + (override.entries.Keys - todo)
      invariant forall key :: key in entries ==>
                  entries[key] == if key in todo then base.entries[key] else Merge(base, override).entries[key]
      decreases todo
    {
      var key :| key in todo;
      todo := todo - {key};
      var value := override.entries[key];
      if key in entries && entries[key].Dict? && value.Dict? {
        var deeper := DeepMerge(entries[key], value);
        entries := entries[key := deeper];
      } else {
        entries := entries[key := value];
      }
    }
    merged := Dict(entries);
  }

  lemma {:induction false} MergedLeaf(base: Value, override: Value, p: Path, text: string)
    requires base.Dict? && override.Dict?
    ensures At(Merge(base, override), p) == Some(Leaf(text)) <==>
              || At(override, p) == Some(Leaf(text))
              || (At(base, p) == Some(Leaf(text)) && !Overrides(override, p))
    decreases |p|
  {
    if p == [] {
      assert p[..0] == [];
    } else {
      var key, rest := p[0], p[1..];
      assert p == [key] + rest;
      CutsOffBelow(override, key, rest);
      if key in override.entries && override.entries[key].Leaf? {
        assert LeafAt(override.entries[key], rest[..0]);
      } else if key in override.entries && key in base.entries && base.entries[key].Dict? {
        MergedLeaf(base.entries[key], override.entries[key], rest, text);
      }
    }
  }

  lemma {:induction false} MergedDict(base: Value, override: Value, p: Path)
    requires base.Dict? && override.Dict?
    ensures DictAt(Merge(base, override), p) <==>
              DictAt(override, p) || (DictAt(base, p) && !CutsOff(override, p))
    decreases |p|
  {
    if p != [] {
      var key, rest := p[0], p[1..];
      assert p == [key] + rest;
      CutsOffBelow(override, key, rest);
      if key in override.entries && override.entries[key].Leaf? {
        assert LeafAt(override.entries[key], rest[..0]);
      } else if key in override.entries && key in base.entries && base.entries[key].Dict? {
        MergedDict(base.entries[key], override.entries[key], rest);
      } else if key in override.entries {
        assert key in base.entries ==> At(base.entries[key], rest) == if rest == [] then Some(base.entries[key]) else None;
      } else {
        assert !CutsOff(override, p) && !DictAt(override, p);
      }
    }
  }

  // ----- folding the providers

  predicate AllDicts(providers: seq<Value>) {
    forall i :: 0 <= i < |providers| ==> providers[i].Dict?
  }

  function Load(providers: seq<Value>): (merged: Value)
    requires AllDicts(providers)
    ensures merged.Dict?
  {
    if providers == [] then Dict(map[])
    else Merge(Load(providers[..|providers| - 1]), providers[|providers| - 1])
  }

  method LoadRaw(providers: seq<Value>) returns (merged: Value)
    requires AllDicts(providers)
    ensures merged == Load(providers)
  {
    merged := Dict(map[]);
    for i := 0 to |providers|
      invariant merged == Load(providers[..i])
    {
      assert providers[..i + 1][..i] == providers[..i];
      merged := DeepMerge(merged, providers[i]);
    }
    assert providers[..|providers|] == providers;
  }

  /** Provider `i` says what the leaf at the path is: it has the leaf, and no later provider has a leaf
      at the path or above it, or a dictionary at it. */
  ghost predicate Decides(providers: seq<Value>, i: nat, p: Path, text: string) {
    && i < |providers|
    && At(providers[i], p) == Some(Leaf(text))
    && forall j :: i < j < |providers| ==> !Overrides(providers[j], p)
  }

  lemma {:induction false} LastWriterWins(providers: seq<Value>, p: Path, text: string)
    requires AllDicts(providers)
    ensures At(Load(providers), p) == Some(Leaf(text)) <==> exists i :: Decides(providers, i, p, text)
    decreases |providers|
  {
    if providers != [] {
      var n := |providers| - 1;
      var earlier := providers[..n];
      LastWriterWins(earlier, p, text);
      MergedLeaf(Load(earlier), providers[n], p, text);
      if At(providers[n], p) == Some(Leaf(text)) {
        assert Decides(providers, n, p, text);
      }
      forall i | Decides(earlier, i, p, text) && !Overrides(providers[n], p)
        ensures Decides(providers, i, p, text)
      {
      }
      forall i: nat | Decides(providers, i, p, text) && i < n
        ensures Decides(earlier, i, p, text) && !Overrides(providers[n], p)
      {
      }
    }
  }

  ghost predicate Keeps(providers: seq<Value>, i: nat, p: Path) {
    && i < |providers|
    && DictAt(providers[i], p)
    && forall j :: i < j < |providers| ==> !CutsOff(providers[j], p)
  }

  lemma {:induction false} DictionariesSurvive(providers: seq<Value>, p: Path)
    requires AllDicts(providers) && p != []
    ensures DictAt(Load(providers), p) <==> exists i :: Keeps(providers, i, p)
    decreases |providers|
  {
    if providers != [] {
      var n := |providers| - 1;
      var earlier := providers[..n];
      DictionariesSurvive(earlier, p);
      MergedDict(Load(earlier), providers[n], p);
      if DictAt(providers[n], p) {
        assert Keeps(providers, n, p);
      }
      forall i | Keeps(earlier, i, p) && !CutsOff(providers[n], p)
        ensures Keeps(providers, i, p)
      {
      }
      forall i: nat | Keeps(providers, i, p) && i < n
        ensures Keeps(earlier, i, p) && !CutsOff(providers[n], p)
      {
      }
    }
  }

  // ----- laws

  lemma {:induction false} MergeTwice(base: Value, override: Value)
    requires base.Dict? && override.Dict?
    ensures Merge(Merge(base, override), override) == Merge(base, override)
    decreases override
  {
    var once := Merge(base, override);
    var twice := Merge(once, override);
    forall key | key in once.entries
      ensures twice.entries[key] == once.entries[key]
    {
      if key in override.entries && override.entries[key].Dict? {
        if key in base.entries && base.entries[key].Dict? {
          MergeTwice(base.entries[key], override.entries[key]);
        } else {
          MergeSelf(override.entries[key]);
        }
      }
    }
    assert twice.entries == once.entries;
  }

  lemma {:induction false} MergeSelf(v: Value)
    requires v.Dict?
    ensures Merge(v, v) == v
    decreases v
  {
    forall key | key in v.entries && v.entries[key].Dict?
      ensures Merge(v.entries[key], v.entries[key]) == v.entries[key]
    {
      MergeSelf(v.entries[key]);
    }
    assert Merge(v, v).entries == v.entries;
  }

  /** Loading the last provider once more changes nothing. */
  lemma ReloadingLastChangesNothing(providers: seq<Value>)
    requires AllDicts(providers) && providers != []
    ensures Load(providers + [providers[|providers| - 1]]) == Load(providers)
  {
    var n := |providers| - 1;
    assert (providers + [providers[n]])[..n + 1] == providers;
    MergeTwice(Load(providers[..n]), providers[n]);
  }

  /** A path of the first value that the second hides under a leaf, and the third opens again as a
      dictionary without saying anything about the path itself. */
  ghost predicate Revived(a: Value, b: Value, c: Value, p: Path) {
    && At(a, p).Some? && !Overrides(c, p)
    && exists n :: 0 <= n < |p| && LeafAt(b, p[..n]) && DictAt(c, p[..n])
  }

  lemma OneLeafOnTheWay(v: Value, p: Path, n: nat, m: nat)
    requires n < m <= |p| && LeafAt(v, p[..n])
    ensures At(v, p[..m]).None?
  {
    assert p[..m][..n] == p[..n];
    if At(v, p[..m]).Some? {
      SomethingAbove(v, p[..m], n);
    }
  }

  lemma CutsOffMerged(b: Value, c: Value, p: Path)
    requires b.Dict? && c.Dict? && !CutsOff(c, p)
    ensures CutsOff(Merge(b, c), p) <==>
              exists n :: 0 <= n <= |p| && LeafAt(b, p[..n]) && !DictAt(c, p[..n])
  {
    forall n | 0 <= n <= |p|
      ensures LeafAt(Merge(b, c), p[..n]) <==> LeafAt(b, p[..n]) && !DictAt(c, p[..n])
    {
      forall m | 0 <= m <= n
        ensures !LeafAt(c, p[..n][..m])
      {
        assert p[..n][..m] == p[..m];
      }
      assert !LeafAt(c, p[..n]);
      assert !CutsOff(c, p[..n]);
      if LeafAt(b, p[..n]) {
        MergedLeaf(b, c, p[..n], At(b, p[..n]).value.text);
      }
      if LeafAt(Merge(b, c), p[..n]) {
        MergedLeaf(b, c, p[..n], At(Merge(b, c), p[..n]).value.text);
      }
    }
  }

  /** Where the first layer has something that is not revived, the other two merged hide it when one
      of them does. */
  lemma UnrevivedCuts(a: Value, b: Value, c: Value, p: Path)
    requires b.Dict? && c.Dict? && At(a, p).Some? && !Revived(a, b, c, p)
    ensures !Overrides(c, p) ==> (CutsOff(Merge(b, c), p) <==> CutsOff(b, p))
    ensures CutsOff(c, p) ==> CutsOff(Merge(b, c), p) && !DictAt(c, p)
  {
    assert p[..|p|] == p;
    if CutsOff(c, p) {
      CutsOffStays(b, c, p);
      var n :| 0 <= n <= |p| && LeafAt(c, p[..n]);
      if n < |p| {
        OneLeafOnTheWay(c, p, n, |p|);
      }
    } else {
      CutsOffMerged(b, c, p);
    }
  }

  /** Grouping matters at a path only if the path is revived. */
  lemma UnrevivedLeaf(a: Value, b: Value, c: Value, p: Path, text: string)
    requires a.Dict? && b.Dict? && c.Dict? && !Revived(a, b, c, p)
    ensures At(Merge(Merge(a, b), c), p) == Some(Leaf(text)) <==> At(Merge(a, Merge(b, c)), p) == Some(Leaf(text))
  {
    MergedLeaf(Merge(a, b), c, p, text);
    MergedLeaf(a, b, p, text);
    MergedLeaf(a, Merge(b, c), p, text);
    MergedLeaf(b, c, p, text);
    if At(a, p).Some? {
      MergedDict(b, c, p);
      UnrevivedCuts(a, b, c, p);
    }
  }

  lemma UnrevivedDict(a: Value, b: Value, c: Value, p: Path)
    requires a.Dict? && b.Dict? && c.Dict? && !Revived(a, b, c, p)
    ensures DictAt(Merge(Merge(a, b), c), p) <==> DictAt(Merge(a, Merge(b, c)), p)
  {
    MergedDict(Merge(a, b), c, p);
    MergedDict(a, b, p);
    MergedDict(a, Merge(b, c), p);
    MergedDict(b, c, p);
    if At(a, p).Some? {
      UnrevivedCuts(a, b, c, p);
    }
  }

  lemma CutsOffStays(b: Value, c: Value, p: Path)
    requires b.Dict? && c.Dict? && CutsOff(c, p)
    ensures CutsOff(Merge(b, c), p)
  {
    var n :| 0 <= n <= |p| && LeafAt(c, p[..n]);
    MergedLeaf(b, c, p[..n], At(c, p[..n]).value.text);
  }

  lemma RevivedPath(a: Value, b: Value, c: Value, p: Path)
    requires a.Dict? && b.Dict? && c.Dict? && Revived(a, b, c, p)
    ensures At(Merge(Merge(a, b), c), p).None?
    ensures At(Merge(a, Merge(b, c)), p).Some?
  {
    var n :| 0 <= n < |p| && LeafAt(b, p[..n]) && DictAt(c, p[..n]);
    assert p[..|p|] == p;
    OneLeafOnTheWay(b, p, n, |p|);
    CutsOffMerged(b, c, p);
    forall m | 0 <= m <= |p| && LeafAt(b, p[..m])
      ensures m == n
    {
      if m < n {
        OneLeafOnTheWay(b, p, m, n);
      } else if n < m {
        OneLeafOnTheWay(b, p, n, m);
      }
    }
    MergedDict(Merge(a, b), c, p);
    MergedDict(a, b, p);
    MergedDict(a, Merge(b, c), p);
    MergedDict(b, c, p);
    var left := At(Merge(Merge(a, b), c), p);
    if left.Some? && left.value.Leaf? {
      MergedLeaf(Merge(a, b), c, p, left.value.text);
      MergedLeaf(a, b, p, left.value.text);
    }
    if At(a, p).value.Leaf? {
      MergedLeaf(a, Merge(b, c), p, At(a, p).value.text);
    }
  }

  /** Three layers may be grouped either way exactly when no path is revived. */
  lemma AssociativeExactly(a: Value, b: Value, c: Value)
    requires a.Dict? && b.Dict? && c.Dict?
    ensures Merge(Merge(a, b), c) == Merge(a, Merge(b, c)) <==> !exists p :: Revived(a, b, c, p)
  {
    if p :| Revived(a, b, c, p) {
      RevivedPath(a, b, c, p);
    } else {
      NothingRevived(a, b, c, Merge(Merge(a, b), c), Merge(a, Merge(b, c)));
    }
  }

  lemma NothingRevived(a: Value, b: Value, c: Value, left: Value, right: Value)
    requires a.Dict? && b.Dict? && c.Dict?
    requires left == Merge(Merge(a, b), c) && right == Merge(a, Merge(b, c))
    requires forall p :: !Revived(a, b, c, p)
    ensures left == right
  {
    forall p, text
      ensures At(left, p) == Some(Leaf(text)) <==> At(right, p) == Some(Leaf(text))
    {
      UnrevivedLeaf(a, b, c, p, text);
    }
    forall p
      ensures DictAt(left, p) <==> DictAt(right, p)
    {
      UnrevivedDict(a, b, c, p);
    }
    SameContents(left, right);
  }

  lemma SameContents(v: Value, w: Value)
    requires forall p, text :: At(v, p) == Some(Leaf(text)) <==> At(w, p) == Some(Leaf(text))
    requires forall p :: DictAt(v, p) <==> DictAt(w, p)
    ensures v == w
  {
    forall p
      ensures LeafAt(v, p) ==> At(w, p) == At(v, p)
      ensures LeafAt(w, p) ==> At(v, p) == At(w, p)
    {
      SameAtOnePath(v, w, p);
    }
    SameEverywhere(v, w);
  }

  lemma SameAtOnePath(v: Value, w: Value, p: Path)
    requires forall text :: At(v, p) == Some(Leaf(text)) <==> At(w, p) == Some(Leaf(text))
    ensures LeafAt(v, p) ==> At(w, p) == At(v, p)
    ensures LeafAt(w, p) ==> At(v, p) == At(w, p)
  {
  }

  /** Three layers for which the grouping matters. */
  lemma GroupingMatters()
    ensures exists a: Value, b: Value, c: Value ::
              a.Dict? && b.Dict? && c.Dict? && Merge(Merge(a, b), c) != Merge(a, Merge(b, c))
  {
    var a := Dict(map["k" := Dict(map["x" := Leaf("1")])]);
    var b := Dict(map["k" := Leaf("2")]);
    var c := Dict(map["k" := Dict(map["y" := Leaf("3")])]);
    var p := ["k", "x"];
    assert p[..0] == [] && p[..1] == ["k"] && p[..2] == p && p[1..] == ["x"] && p[1..][1..] == [] && p[..1][1..] == [];
    assert At(c, ["k"]) == Some(c.entries["k"]);
    assert At(c, p).None?;
    assert LeafAt(b, p[..1]) && DictAt(c, p[..1]);
    GroupingMattersIf(a, b, c, p);
  }

  lemma GroupingMattersIf(a: Value, b: Value, c: Value, p: Path)
    requires a.Dict? && b.Dict? && c.Dict? && Revived(a, b, c, p)
    ensures exists a': Value, b': Value, c': Value ::
              a'.Dict? && b'.Dict? && c'.Dict? && Merge(Merge(a', b'), c') != Merge(a', Merge(b', c'))
  {
    RevivedPath(a, b, c, p);
  }
}
