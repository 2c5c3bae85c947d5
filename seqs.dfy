/** Sequence operations behind Python list comprehensions. */
module Seqs {

  /** `[x for x in s if p(x)]`: keeps exactly the elements satisfying `p`,
      each as often as it occurs in `s`. */
  function Filter<T(!new)>(s: seq<T>, p: T -> bool): (r: seq<T>)
    ensures |r| <= |s|
    ensures forall i :: 0 <= i < |r| ==> p(r[i])
  {
    if s == [] then []
    else (if p(s[0]) then [s[0]] else []) + Filter(s[1..], p)
  }

  /** The filter keeps every element satisfying `p` as often as it occurs in
      the input, and no other element. */
  lemma {:induction false} FilterCount<T(!new)>(s: seq<T>, p: T -> bool)
    ensures forall x :: multiset(Filter(s, p))[x] == if p(x) then multiset(s)[x] else 0
  {
    if s != [] {
      FilterCount(s[1..], p);
      assert s == [s[0]] + s[1..];
    }
  }

  /** Filtering one element keeps it or drops it. */
  lemma FilterSingleton<T(!new)>(x: T, p: T -> bool)
    ensures Filter([x], p) == if p(x) then [x] else []
  {
    assert [x][1..] == [];
  }

  /** One step of the comprehension: the head is kept or dropped, and the
      rest of the input is filtered after it. */
  lemma FilterUnfold<T(!new)>(s: seq<T>, p: T -> bool)
    requires s != []
    ensures Filter(s, p) == (if p(s[0]) then [s[0]] else []) + Filter(s[1..], p)
  {
  }

  /** A non-empty filter result has a witness in the input. */
  lemma FilterWitness<T(!new)>(s: seq<T>, p: T -> bool)
    requires Filter(s, p) != []
    ensures exists j :: 0 <= j < |s| && p(s[j])
  {
    var x := Filter(s, p)[0];
    FilterCount(s, p);
    assert x in multiset(Filter(s, p));
    assert x in multiset(s);
  }

  /** Filtering preserves order: it distributes over concatenation, so the
      kept elements appear in the order they have in the input. */
  lemma {:induction false} FilterAppend<T(!new)>(a: seq<T>, b: seq<T>, p: T -> bool)
    ensures Filter(a + b, p) == Filter(a, p) + Filter(b, p)
  {
    if a == [] {
      assert a + b == b;
    } else {
      var head := if p(a[0]) then [a[0]] else [];
      assert (a + b)[0] == a[0];
      assert (a + b)[1..] == a[1..] + b;
      assert Filter(a + b, p) == head + Filter(a[1..] + b, p);
      FilterAppend(a[1..], b, p);
      assert Filter(a, p) == head + Filter(a[1..], p);
    }
  }

  /** A filter that rejects every element gives the empty list. */
  lemma {:induction false} FilterNone<T(!new)>(s: seq<T>, p: T -> bool)
    requires forall i :: 0 <= i < |s| ==> !p(s[i])
    ensures Filter(s, p) == []
  {
    if s != [] {
      FilterNone(s[1..], p);
    }
  }

  /** `[i for i, x in enumerate(s) if p(x)]`: the positions of the elements
      satisfying `p`, in ascending order. */
  function Positions<T>(s: seq<T>, p: T -> bool): (r: seq<nat>)
    ensures forall j :: 0 <= j < |r| ==> r[j] < |s| && p(s[r[j]])
    ensures forall i, j :: 0 <= i < j < |r| ==> r[i] < r[j]
  {
    if s == [] then []
    else
      var n := |s| - 1;
      var prev := Positions(s[..n], p);
      assert forall j :: 0 <= j < |prev| ==> s[..n][prev[j]] == s[prev[j]];
      prev + (if p(s[n]) then [n] else [])
  }

  /** Every position whose element satisfies `p` is listed. */
  lemma {:induction false} PositionsComplete<T>(s: seq<T>, p: T -> bool, l: int)
    requires 0 <= l < |s| && p(s[l])
    ensures l in Positions(s, p)
  {
    var n := |s| - 1;
    if l < n {
      assert s[..n][l] == s[l];
      PositionsComplete(s[..n], p, l);
    }
  }
}
