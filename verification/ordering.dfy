/** The orders pandas sorts a pivot table by: Python's string comparison
    (lexicographic by code point) and the lexicographic order on
    (country, year) pairs; and the sorted list of distinct values that a
    pivot index or pivot column header holds. */
module Ordering {

  /** Python's `a < b` on strings. */
  predicate StrLess(a: string, b: string)
  {
    if |a| == 0 then |b| > 0
    else if |b| == 0 then false
    else if a[0] != b[0] then a[0] < b[0]
    else StrLess(a[1..], b[1..])
  }

  lemma {:induction false} StrLessIrreflexive(a: string)
    ensures !StrLess(a, a)
  {
    if |a| > 0 {
      StrLessIrreflexive(a[1..]);
    }
  }

  lemma {:induction false} StrLessTransitive(a: string, b: string, c: string)
    requires StrLess(a, b) && StrLess(b, c)
    ensures StrLess(a, c)
  {
    if |a| > 0 && a[0] == b[0] && b[0] == c[0] {
      StrLessTransitive(a[1..], b[1..], c[1..]);
    }
  }

  lemma {:induction false} StrLessTotal(a: string, b: string)
    requires a != b
    ensures StrLess(a, b) || StrLess(b, a)
  {
    if |a| > 0 && |b| > 0 && a[0] == b[0] {
      assert a == [a[0]] + a[1..] && b == [b[0]] + b[1..];
      StrLessTotal(a[1..], b[1..]);
    }
  }

  /** A pivot-table row key: (country, year). */
  type Key = (string, int)

  /** Python's `<` on `(country, year)` tuples. */
  predicate KeyLess(x: Key, y: Key)
  {
    StrLess(x.0, y.0) || (x.0 == y.0 && x.1 < y.1)
  }

  ghost predicate StrictTotalOrder<T(!new)>(less: (T, T) -> bool)
  {
    && (forall x :: !less(x, x))
    && (forall x, y, z :: less(x, y) && less(y, z) ==> less(x, z))
    && (forall x, y :: x != y ==> less(x, y) || less(y, x))
  }

  lemma StrLessIsStrictTotalOrder()
    ensures StrictTotalOrder(StrLess)
  {
    forall x: string
      ensures !StrLess(x, x)
    {
      StrLessIrreflexive(x);
    }
    forall x: string, y: string, z: string | StrLess(x, y) && StrLess(y, z)
      ensures StrLess(x, z)
    {
      StrLessTransitive(x, y, z);
    }
    forall x: string, y: string | x != y
      ensures StrLess(x, y) || StrLess(y, x)
    {
      StrLessTotal(x, y);
    }
  }

  lemma KeyLessIsStrictTotalOrder()
    ensures StrictTotalOrder(KeyLess)
  {
    StrLessIsStrictTotalOrder();
  }

  ghost predicate StrictlySorted<T>(s: seq<T>, less: (T, T) -> bool)
  {
    forall i, j :: 0 <= i < j < |s| ==> less(s[i], s[j])
  }

  /** Insert `x` into a sorted list of distinct values, unless present. */
  function Insert<T(==,!new)>(x: T, s: seq<T>, less: (T, T) -> bool): (r: seq<T>)
    ensures forall y :: y in r <==> y == x || y in s
  {
    if s == [] then [x]
    else if x == s[0] then s
    else if less(x, s[0]) then [x] + s
    else
      assert s == [s[0]] + s[1..];
      [s[0]] + Insert(x, s[1..], less)
  }

  /** Inserting into a strictly sorted list keeps it strictly sorted. */
  lemma {:induction false} InsertCorrect<T(!new)>(x: T, s: seq<T>, less: (T, T) -> bool)
    requires StrictTotalOrder(less) && StrictlySorted(s, less)
    ensures StrictlySorted(Insert(x, s, less), less)
  {
    if s != [] && x != s[0] && !less(x, s[0]) {
      InsertCorrect(x, s[1..], less);
      var r := Insert(x, s, less);
      assert r == [s[0]] + Insert(x, s[1..], less);
      forall j | 0 < j < |r|
        ensures less(r[0], r[j])
      {
        assert r[j] in Insert(x, s[1..], less);
      }
    }
  }

  /** The distinct values of `xs`, in ascending order. */
  function SortedDistinct<T(==,!new)>(xs: seq<T>, less: (T, T) -> bool): (r: seq<T>)
    ensures forall y :: y in r <==> y in xs
  {
    if xs == [] then []
    else
      var n := |xs| - 1;
      assert xs == xs[..n] + [xs[n]];
      Insert(xs[n], SortedDistinct(xs[..n], less), less)
  }

  /** Under a strict total order the distinct values come out strictly
      sorted. */
  lemma {:induction false} SortedDistinctCorrect<T(!new)>(xs: seq<T>, less: (T, T) -> bool)
    requires StrictTotalOrder(less)
    ensures StrictlySorted(SortedDistinct(xs, less), less)
  {
    if xs != [] {
      var n := |xs| - 1;
      SortedDistinctCorrect(xs[..n], less);
      InsertCorrect(xs[n], SortedDistinct(xs[..n], less), less);
    }
  }
}
