/** Lexicographic order on strings by code point, the order Python gives `str` values, and the
    order on the (rank, name) tuples that the planner and the lifecycle orchestrator sort by. */
module StringOrder {

  predicate Less(a: string, b: string) {
    && |b| > 0
    && (|a| == 0 || a[0] < b[0] || (a[0] == b[0] && Less(a[1..], b[1..])))
  }

  lemma {:induction false} LessTotal(a: string, b: string)
    ensures Less(a, b) || a == b || Less(b, a)
  {
    if |a| > 0 && |b| > 0 && a[0] == b[0] {
      LessTotal(a[1..], b[1..]);
      assert a == [a[0]] + a[1..] && b == [b[0]] + b[1..];
    }
  }

  lemma {:induction false} LessTransitive(a: string, b: string, c: string)
    requires Less(a, b) && Less(b, c)
    ensures Less(a, c)
  {
    if |a| > 0 && a[0] == b[0] && b[0] == c[0] {
      LessTransitive(a[1..], b[1..], c[1..]);
    }
  }

  lemma {:induction false} LessIrreflexive(a: string)
    ensures !Less(a, a)
  {
    if |a| > 0 {
      LessIrreflexive(a[1..]);
    }
  }

  /** `a` comes before `b` in a dictionary: it is a proper prefix, or has the smaller character at the
      first place where the two differ. */
  ghost predicate ComesFirst(a: string, b: string) {
    exists n :: 0 <= n <= |a| && n < |b| && a[..n] == b[..n] && (n == |a| || a[n] < b[n])
  }

  lemma {:induction false} LessComesFirst(a: string, b: string)
    requires Less(a, b)
    ensures ComesFirst(a, b)
  {
    if |a| == 0 || a[0] < b[0] {
      assert a[..0] == b[..0];
    } else {
      LessComesFirst(a[1..], b[1..]);
      var n :| 0 <= n <= |a| - 1 && n < |b| - 1 && a[1..][..n] == b[1..][..n] && (n == |a| - 1 || a[1..][n] < b[1..][n]);
      assert a[..n + 1] == [a[0]] + a[1..][..n] && b[..n + 1] == [b[0]] + b[1..][..n];
    }
  }

  lemma {:induction false} ComesFirstIsLess(a: string, b: string)
    requires ComesFirst(a, b)
    ensures Less(a, b)
  {
    var n :| 0 <= n <= |a| && n < |b| && a[..n] == b[..n] && (n == |a| || a[n] < b[n]);
    if n > 0 {
      assert a[0] == a[..n][0] == b[..n][0] == b[0];
      assert a[1..][..n - 1] == a[..n][1..] == b[..n][1..] == b[1..][..n - 1];
      ComesFirstIsLess(a[1..], b[1..]);
    }
  }

  lemma LessIsDictionaryOrder(a: string, b: string)
    ensures Less(a, b) <==> ComesFirst(a, b)
  {
    if Less(a, b) {
      LessComesFirst(a, b);
    }
    if ComesFirst(a, b) {
      ComesFirstIsLess(a, b);
    }
  }

  /** A sort key: an integer compared first, then a name. */
  datatype Key = Key(rank: int, name: string)

  predicate KeyLess(x: Key, y: Key) {
    x.rank < y.rank || (x.rank == y.rank && Less(x.name, y.name))
  }

  lemma KeyLessTotal(x: Key, y: Key)
    ensures KeyLess(x, y) || x == y || KeyLess(y, x)
  {
    LessTotal(x.name, y.name);
  }

  lemma KeyLessTransitive(x: Key, y: Key, z: Key)
    requires KeyLess(x, y) && KeyLess(y, z)
    ensures KeyLess(x, z)
  {
    if x.rank == y.rank == z.rank {
      LessTransitive(x.name, y.name, z.name);
    }
  }

  lemma KeyLessAsymmetric(x: Key, y: Key)
    requires KeyLess(x, y)
    ensures !KeyLess(y, x)
  {
    if KeyLess(y, x) {
      KeyLessTransitive(x, y, x);
      LessIrreflexive(x.name);
    }
  }
}
