/** Stable sorting by a comparison, as Python's `list.sort(key=...)` does it. */
module Sorting {

  /** `less` compares keys: asymmetric, and "not less" is transitive (ties are allowed). */
  ghost predicate WeakOrder<T(!new)>(less: (T, T) -> bool) {
    && (forall x, y :: less(x, y) ==> !less(y, x))
    && (forall x, y, z :: !less(y, x) && !less(z, y) ==> !less(z, x))
  }

  ghost predicate Ordered<T>(less: (T, T) -> bool, xs: seq<T>) {
    forall i, j :: 0 <= i < j < |xs| ==> !less(xs[j], xs[i])
  }

  function Insert<T>(less: (T, T) -> bool, x: T, xs: seq<T>): seq<T> {
    if xs == [] || !less(xs[0], x) then [x] + xs
    else [xs[0]] + Insert(less, x, xs[1..])
  }

  function SortBy<T>(less: (T, T) -> bool, xs: seq<T>): seq<T> {
    if xs == [] then [] else Insert(less, xs[0], SortBy(less, xs[1..]))
  }

  lemma {:induction false} InsertPermutes<T>(less: (T, T) -> bool, x: T, xs: seq<T>)
    ensures multiset(Insert(less, x, xs)) == multiset([x] + xs)
  {
    if xs != [] && less(xs[0], x) {
      InsertPermutes(less, x, xs[1..]);
      assert xs == [xs[0]] + xs[1..];
    }
  }

  lemma {:induction false} SortPermutes<T>(less: (T, T) -> bool, xs: seq<T>)
    ensures multiset(SortBy(less, xs)) == multiset(xs)
    ensures |SortBy(less, xs)| == |xs|
  {
    if xs != [] {
      SortPermutes(less, xs[1..]);
      InsertPermutes(less, xs[0], SortBy(less, xs[1..]));
      assert xs == [xs[0]] + xs[1..];
    }
    SameSize(SortBy(less, xs), xs);
  }

  lemma SameSize<T>(xs: seq<T>, ys: seq<T>)
    requires multiset(xs) == multiset(ys)
    ensures |xs| == |ys|
  {
    assert |multiset(xs)| == |xs| && |multiset(ys)| == |ys|;
  }

  lemma SameMembers<T>(xs: seq<T>, ys: seq<T>)
    requires multiset(xs) == multiset(ys)
    ensures forall x :: x in xs <==> x in ys
  {
    forall x
      ensures x in xs <==> x in ys
    {
      assert x in xs <==> x in multiset(xs);
      assert x in ys <==> x in multiset(ys);
    }
  }

  lemma {:induction false} InsertOrdered<T(!new)>(less: (T, T) -> bool, x: T, xs: seq<T>)
    requires WeakOrder(less) && Ordered(less, xs)
    ensures Ordered(less, Insert(less, x, xs))
  {
    if xs == [] || !less(xs[0], x) {
      forall i, j | 0 <= i < j < |[x] + xs|
        ensures !less(([x] + xs)[j], ([x] + xs)[i])
      {
        if i == 0 && j > 1 {
          assert !less(xs[j - 1], xs[0]);
        }
      }
    } else {
      var rest := Insert(less, x, xs[1..]);
      InsertOrdered(less, x, xs[1..]);
      InsertPermutes(less, x, xs[1..]);
      SameMembers(rest, [x] + xs[1..]);
      forall j | 0 <= j < |rest|
        ensures !less(rest[j], xs[0])
      {
        assert rest[j] in [x] + xs[1..];
      }
    }
  }

  /** Sorting orders any list. */
  lemma {:induction false} SortOrders<T(!new)>(less: (T, T) -> bool, xs: seq<T>)
    requires WeakOrder(less)
    ensures Ordered(less, SortBy(less, xs))
  {
    if xs != [] {
      SortOrders(less, xs[1..]);
      InsertOrdered(less, xs[0], SortBy(less, xs[1..]));
    }
  }

  predicate Distinct<T(==)>(xs: seq<T>) {
    forall i, j :: 0 <= i < j < |xs| ==> xs[i] != xs[j]
  }

  lemma DistinctByMultiset<T>(xs: seq<T>)
    ensures Distinct(xs) <==> forall x :: multiset(xs)[x] <= 1
  {
    if Distinct(xs) {
      DistinctCounts(xs);
    } else {
      var i, j :| 0 <= i < j < |xs| && xs[i] == xs[j];
      assert xs == xs[..j] + [xs[j]] + xs[j + 1..];
      assert xs[i] in xs[..j];
      assert multiset(xs)[xs[i]] >= 2;
    }
  }

  lemma {:induction false} DistinctCounts<T>(xs: seq<T>)
    requires Distinct(xs)
    ensures forall x :: multiset(xs)[x] <= 1
  {
    if xs != [] {
      var last := xs[|xs| - 1];
      var front := xs[..|xs| - 1];
      DistinctCounts(front);
      assert xs == front + [last];
      assert last !in front;
      assert last !in multiset(front);
    }
  }

  lemma PermutationKeepsDistinct<T>(xs: seq<T>, ys: seq<T>)
    requires multiset(xs) == multiset(ys) && Distinct(xs)
    ensures Distinct(ys)
  {
    DistinctByMultiset(xs);
    DistinctByMultiset(ys);
  }

  /** A list without repetitions is as long as the set of its elements. */
  lemma {:induction false} DistinctLength<T>(xs: seq<T>)
    requires Distinct(xs)
    ensures |xs| == |set x | x in xs|
  {
    if xs == [] {
      assert (set x | x in xs) == {};
    } else {
      var last := xs[|xs| - 1];
      var front := xs[..|xs| - 1];
      DistinctLength(front);
      assert (set x | x in xs) == (set x | x in front) + {last};
    }
  }

  lemma SameMembersDistinct<T>(xs: seq<T>, ys: seq<T>)
    requires Distinct(xs) && Distinct(ys) && forall x :: x in xs <==> x in ys
    ensures multiset(xs) == multiset(ys)
  {
    DistinctByMultiset(xs);
    DistinctByMultiset(ys);
    forall x
      ensures multiset(xs)[x] == multiset(ys)[x]
    {
      assert x in multiset(xs) <==> x in xs;
      assert x in multiset(ys) <==> x in ys;
    }
  }

  /** Nothing after a prefix of an ordered list ranks strictly before something in the prefix. */
  lemma PrefixRanksFirst<T>(less: (T, T) -> bool, sorted: seq<T>, n: nat, h: T, o: T)
    requires Ordered(less, sorted) && n <= |sorted|
    requires h in sorted[..n] && o in sorted && o !in sorted[..n]
    ensures !less(o, h)
  {
    var prefix := sorted[..n];
    var i :| 0 <= i < n && sorted[i] == h;
    var j :| 0 <= j < |sorted| && sorted[j] == o;
    assert j < n ==> o in prefix;
  }

  lemma PrefixStays<T>(less: (T, T) -> bool, xs: seq<T>, n: nat)
    requires n <= |xs|
    ensures Ordered(less, xs) ==> Ordered(less, xs[..n])
    ensures Distinct(xs) ==> Distinct(xs[..n])
    ensures forall x :: x in xs[..n] ==> x in xs
  {
  }
}
