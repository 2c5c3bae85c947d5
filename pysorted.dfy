/** Python's ordering of `str` values and the built-in `sorted` with a key. */
module PySorted {
  import opened Seqs

  /** `a < b` on Python strings: lexicographic by code point, a proper
      prefix before any longer string. */
  predicate Less(a: string, b: string) {
    if a == [] then b != []
    else if b == [] then false
    else if a[0] != b[0] then a[0] < b[0]
    else Less(a[1..], b[1..])
  }

  lemma {:induction false} LessIrreflexive(a: string)
    ensures !Less(a, a)
  {
    if a != [] {
      LessIrreflexive(a[1..]);
    }
  }

  lemma {:induction false} LessTransitive(a: string, b: string, c: string)
    requires Less(a, b) && Less(b, c)
    ensures Less(a, c)
  {
    if a != [] && a[0] == b[0] && b[0] == c[0] {
      LessTransitive(a[1..], b[1..], c[1..]);
    }
  }

  /** Any two different strings are ordered one way or the other. */
  lemma {:induction false} LessTotal(a: string, b: string)
    ensures a == b || Less(a, b) || Less(b, a)
  {
    if a != [] && b != [] && a[0] == b[0] {
      LessTotal(a[1..], b[1..]);
      if a[1..] == b[1..] {
        assert a == [a[0]] + a[1..] && b == [b[0]] + b[1..];
      }
    }
  }

  lemma {:induction false} LessAsymmetric(a: string, b: string)
    requires Less(a, b)
    ensures !Less(b, a)
  {
    if Less(b, a) {
      LessTransitive(a, b, a);
      LessIrreflexive(a);
    }
  }

  /** `not (b < a)`, the order `sorted` keeps between neighbours. */
  predicate NotAfter(a: string, b: string) {
    !Less(b, a)
  }

  lemma NotAfterTransitive(a: string, b: string, c: string)
    requires NotAfter(a, b) && NotAfter(b, c)
    ensures NotAfter(a, c)
  {
    LessTotal(a, b);
    if Less(c, a) && Less(a, b) {
      LessTransitive(c, a, b);
    }
  }

  /** Every pair of elements is in key order. */
  ghost predicate SortedBy<T>(s: seq<T>, key: T -> string) {
    forall i, j :: 0 <= i < j < |s| ==> NotAfter(key(s[i]), key(s[j]))
  }

  /** Places `x` before the first element whose key is not below its own. */
  function Insert<T(!new)>(x: T, ys: seq<T>, key: T -> string): (r: seq<T>)
    ensures multiset(r) == multiset(ys) + multiset{x}
  {
    if ys == [] || !Less(key(ys[0]), key(x)) then [x] + ys
    else
      assert ys == [ys[0]] + ys[1..];
      [ys[0]] + Insert(x, ys[1..], key)
  }

  lemma {:induction false} InsertSorted<T(!new)>(x: T, ys: seq<T>, key: T -> string)
    requires SortedBy(ys, key)
    ensures SortedBy(Insert(x, ys, key), key)
  {
    var r := Insert(x, ys, key);
    if ys == [] {
    } else if !Less(key(ys[0]), key(x)) {
      forall j | 0 < j < |r|
        ensures NotAfter(key(r[0]), key(r[j]))
      {
        if j > 1 {
          NotAfterTransitive(key(x), key(ys[0]), key(ys[j - 1]));
        }
      }
    } else {
      InsertSorted(x, ys[1..], key);
      var tail := Insert(x, ys[1..], key);
      assert r == [ys[0]] + tail;
      forall j | 0 <= j < |tail|
        ensures NotAfter(key(ys[0]), key(tail[j]))
      {
        assert tail[j] in multiset(tail);
        if tail[j] == x {
          LessAsymmetric(key(ys[0]), key(x));
        } else {
          assert tail[j] in multiset(ys[1..]);
          var k :| 0 <= k < |ys[1..]| && ys[1..][k] == tail[j];
          assert ys[k + 1] == tail[j];
        }
      }
    }
  }

  /** `sorted(xs, key=key)`: the elements of `xs` in key order, those with
      equal keys in their original order. */
  function SortBy<T(!new)>(xs: seq<T>, key: T -> string): (r: seq<T>)
    ensures multiset(r) == multiset(xs)
    ensures SortedBy(r, key)
  {
    if xs == [] then []
    else
      assert xs == [xs[0]] + xs[1..];
      var tail := SortBy(xs[1..], key);
      InsertSorted(xs[0], tail, key);
      Insert(xs[0], tail, key)
  }

  /** The elements having key `k`. */
  function WithKey<T>(key: T -> string, k: string): T -> bool {
    e => key(e) == k
  }

  lemma {:induction false} InsertStable<T(!new)>(x: T, ys: seq<T>, key: T -> string, k: string)
    ensures Filter(Insert(x, ys, key), WithKey(key, k))
            == Filter([x], WithKey(key, k)) + Filter(ys, WithKey(key, k))
  {
    var p := WithKey(key, k);
    if ys == [] || !Less(key(ys[0]), key(x)) {
      FilterAppend([x], ys, p);
    } else {
      var t := ys[1..];
      var fx, f0 := Filter([x], p), Filter([ys[0]], p);
      calc {
        Filter(Insert(x, ys, key), p);
        { assert Insert(x, ys, key) == [ys[0]] + Insert(x, t, key); }
        Filter([ys[0]] + Insert(x, t, key), p);
        { FilterAppend([ys[0]], Insert(x, t, key), p); }
        f0 + Filter(Insert(x, t, key), p);
        { InsertStable(x, t, key, k); }
        f0 + (fx + Filter(t, p));
        { assert fx == [] || f0 == [] by {
            FilterSingleton(x, p); FilterSingleton(ys[0], p); LessIrreflexive(key(x));
          }
        }
        fx + (f0 + Filter(t, p));
        { FilterAppend([ys[0]], t, p); assert [ys[0]] + t == ys; }
        fx + Filter(ys, p);
      }
    }
  }

  /** `sorted` is stable: among the elements sharing one key, the output
      keeps the input's order. */
  lemma {:induction false} SortByStable<T(!new)>(xs: seq<T>, key: T -> string, k: string)
    ensures Filter(SortBy(xs, key), WithKey(key, k)) == Filter(xs, WithKey(key, k))
  {
    if xs != [] {
      var tail := SortBy(xs[1..], key);
      assert SortBy(xs, key) == Insert(xs[0], tail, key);
      SortByStable(xs[1..], key, k);
      InsertStable(xs[0], tail, key, k);
      assert [xs[0]] + xs[1..] == xs;
      FilterAppend([xs[0]], xs[1..], WithKey(key, k));
    }
  }

  /** There is only one stable sort: two lists sorted by `key` whose elements
      of each key come in the same order are equal. So the insertion sort
      above gives exactly what Python's `sorted` gives. */
  lemma {:induction false} StableSortUnique<T(!new)>(r1: seq<T>, r2: seq<T>, key: T -> string)
    requires SortedBy(r1, key) && SortedBy(r2, key)
    requires forall k :: Filter(r1, WithKey(key, k)) == Filter(r2, WithKey(key, k))
    ensures r1 == r2
    decreases |r1| + |r2|
  {
    assert r1 == [] <==> r2 == [] by {
      if r2 != [] {
        FilterUnfold(r2, WithKey(key, key(r2[0])));
        assert Filter(r1, WithKey(key, key(r2[0]))) != [];
      }
      if r1 != [] {
        FilterUnfold(r1, WithKey(key, key(r1[0])));
        assert Filter(r2, WithKey(key, key(r1[0]))) != [];
      }
    }
    if r1 != [] {
      var k1, k2 := key(r1[0]), key(r2[0]);
      FilterUnfold(r1, WithKey(key, k1));
      FilterUnfold(r2, WithKey(key, k2));
      FilterWitness(r2, WithKey(key, k1));
      FilterWitness(r1, WithKey(key, k2));
      var j2 :| 0 <= j2 < |r2| && key(r2[j2]) == k1;
      var j1 :| 0 <= j1 < |r1| && key(r1[j1]) == k2;
      assert NotAfter(k2, k1) by {
        if j2 > 0 { assert NotAfter(key(r2[0]), key(r2[j2])); } else { LessIrreflexive(k1); }
      }
      assert NotAfter(k1, k2) by {
        if j1 > 0 { assert NotAfter(key(r1[0]), key(r1[j1])); } else { LessIrreflexive(k2); }
      }
      LessTotal(k1, k2);
      assert k1 == k2;
      assert Filter(r1, WithKey(key, k1)) == Filter(r2, WithKey(key, k1));
      assert Filter(r1, WithKey(key, k1))[0] == r1[0];
      assert r1[0] == r2[0];
      forall k
        ensures Filter(r1[1..], WithKey(key, k)) == Filter(r2[1..], WithKey(key, k))
      {
        FilterUnfold(r1, WithKey(key, k));
        FilterUnfold(r2, WithKey(key, k));
        var f1, f2 := Filter(r1, WithKey(key, k)), Filter(r2, WithKey(key, k));
        assert f1 == f2;
        if k == k1 {
          assert f1[1..] == Filter(r1[1..], WithKey(key, k));
          assert f2[1..] == Filter(r2[1..], WithKey(key, k));
        } else {
          assert key(r2[0]) != k;
          assert f1 == Filter(r1[1..], WithKey(key, k));
          assert f2 == Filter(r2[1..], WithKey(key, k));
        }
      }
      StableSortUnique(r1[1..], r2[1..], key);
      assert r1 == [r1[0]] + r1[1..] && r2 == [r2[0]] + r2[1..];
    }
  }

  /** Any list sorted by `key` that keeps the input's order within each key
      is the result of `SortBy`. */
  lemma SortByIsTheStableSort<T(!new)>(xs: seq<T>, key: T -> string, s: seq<T>)
    requires SortedBy(s, key)
    requires forall k :: Filter(s, WithKey(key, k)) == Filter(xs, WithKey(key, k))
    ensures s == SortBy(xs, key)
  {
    forall k
      ensures Filter(s, WithKey(key, k)) == Filter(SortBy(xs, key), WithKey(key, k))
    {
      SortByStable(xs, key, k);
    }
    StableSortUnique(s, SortBy(xs, key), key);
  }

  /** `a` comes no later than `b` in the order by `primary`, then by `secondary`. */
  predicate LexNotAfter<T>(a: T, b: T, primary: T -> string, secondary: T -> string) {
    || Less(primary(a), primary(b))
    || (primary(a) == primary(b) && NotAfter(secondary(a), secondary(b)))
  }

  ghost predicate LexSortedBy<T>(s: seq<T>, primary: T -> string, secondary: T -> string) {
    forall i, j :: 0 <= i < j < |s| ==> LexNotAfter(s[i], s[j], primary, secondary)
  }

  lemma {:induction false} InsertLexSorted<T(!new)>(x: T, ys: seq<T>, primary: T -> string, secondary: T -> string)
    requires LexSortedBy(ys, primary, secondary)
    requires forall j :: 0 <= j < |ys| ==> NotAfter(secondary(x), secondary(ys[j]))
    ensures LexSortedBy(Insert(x, ys, primary), primary, secondary)
  {
    var r := Insert(x, ys, primary);
    if ys == [] {
    } else if !Less(primary(ys[0]), primary(x)) {
      forall j | 0 <= j < |ys|
        ensures LexNotAfter(x, ys[j], primary, secondary)
      {
        LessTotal(primary(x), primary(ys[0]));
        if j > 0 && Less(primary(x), primary(ys[0])) && primary(ys[0]) != primary(ys[j]) {
          LessTransitive(primary(x), primary(ys[0]), primary(ys[j]));
        }
        if j > 0 && primary(x) == primary(ys[0]) {
          assert LexNotAfter(ys[0], ys[j], primary, secondary);
        }
      }
      assert r == [x] + ys;
    } else {
      InsertLexSorted(x, ys[1..], primary, secondary);
      var tail := Insert(x, ys[1..], primary);
      assert r == [ys[0]] + tail;
      forall j | 0 <= j < |tail|
        ensures LexNotAfter(ys[0], tail[j], primary, secondary)
      {
        assert tail[j] in multiset(tail);
        if tail[j] != x {
          assert tail[j] in multiset(ys[1..]);
          var k :| 0 <= k < |ys[1..]| && ys[1..][k] == tail[j];
          assert ys[k + 1] == tail[j];
        }
      }
    }
  }

  /** Sorting by `primary` a list already sorted by `secondary` orders it
      by `primary`, then by `secondary`: that is what stability buys. */
  lemma {:induction false} SortBySecondaryFirst<T(!new)>(xs: seq<T>, primary: T -> string, secondary: T -> string)
    requires SortedBy(xs, secondary)
    ensures LexSortedBy(SortBy(xs, primary), primary, secondary)
  {
    if xs != [] {
      SortBySecondaryFirst(xs[1..], primary, secondary);
      var tail := SortBy(xs[1..], primary);
      forall j | 0 <= j < |tail|
        ensures NotAfter(secondary(xs[0]), secondary(tail[j]))
      {
        assert tail[j] in multiset(tail);
        assert tail[j] in multiset(xs[1..]);
        var k :| 0 <= k < |xs[1..]| && xs[1..][k] == tail[j];
        assert xs[k + 1] == tail[j];
      }
      InsertLexSorted(xs[0], tail, primary, secondary);
    }
  }

  /** Two stable sorts, first by `secondary` and then by `primary`, give a
      permutation of the input ordered by (`primary`, `secondary`). */
  lemma TwoPassSort<T(!new)>(xs: seq<T>, primary: T -> string, secondary: T -> string)
    ensures multiset(SortBy(SortBy(xs, secondary), primary)) == multiset(xs)
    ensures LexSortedBy(SortBy(SortBy(xs, secondary), primary), primary, secondary)
  {
    SortBySecondaryFirst(SortBy(xs, secondary), primary, secondary);
  }

  /** An order by (`primary`, `secondary`) is in particular an order by `primary`. */
  lemma LexSortedIsSortedByPrimary<T>(s: seq<T>, primary: T -> string, secondary: T -> string)
    requires LexSortedBy(s, primary, secondary)
    ensures SortedBy(s, primary)
  {
    forall i, j | 0 <= i < j < |s|
      ensures NotAfter(primary(s[i]), primary(s[j]))
    {
      if Less(primary(s[i]), primary(s[j])) {
        LessAsymmetric(primary(s[i]), primary(s[j]));
      } else {
        LessIrreflexive(primary(s[i]));
      }
    }
  }
}
