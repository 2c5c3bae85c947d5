/** `itertools.groupby`: runs of consecutive elements sharing a key. */
module PyGroupBy {
  import opened PySorted

  datatype Group<T> = Group(key: string, items: seq<T>)

  /** The groups' elements, one group after the other. */
  function Flatten<T>(gs: seq<Group<T>>): seq<T> {
    if gs == [] then [] else gs[0].items + Flatten(gs[1..])
  }

  /** Flattening a list of groups that starts with `g`. */
  lemma FlattenCons<T>(g: Group<T>, gs: seq<Group<T>>)
    ensures Flatten([g] + gs) == g.items + Flatten(gs)
  {
    assert ([g] + gs)[1..] == gs;
  }

  /** `itertools.groupby(xs, key=key)`: splits `xs` into maximal runs of
      equal key, each run paired with its key. */
  function GroupBy<T>(xs: seq<T>, key: T -> string): (gs: seq<Group<T>>)
    ensures Flatten(gs) == xs
    ensures forall i :: 0 <= i < |gs| ==> gs[i].items != []
    ensures forall i :: 0 < i < |gs| ==> gs[i - 1].key != gs[i].key
    ensures xs != [] ==> gs != [] && gs[0].key == key(xs[0])
  {
    if xs == [] then []
    else
      var rest := GroupBy(xs[1..], key);
      var k := key(xs[0]);
      if rest != [] && rest[0].key == k then
        var merged := Group(k, [xs[0]] + rest[0].items);
        assert Flatten([merged] + rest[1..]) == xs by {
          FlattenCons(rest[0], rest[1..]);
          assert rest == [rest[0]] + rest[1..];
          FlattenCons(merged, rest[1..]);
          assert xs == [xs[0]] + xs[1..];
        }
        [merged] + rest[1..]
      else
        assert Flatten([Group(k, [xs[0]])] + rest) == xs by {
          FlattenCons(Group(k, [xs[0]]), rest);
          assert xs == [xs[0]] + xs[1..];
        }
        [Group(k, [xs[0]])] + rest
  }

  /** Every element of a group has the group's key. */
  lemma {:induction false} GroupByUniform<T>(xs: seq<T>, key: T -> string)
    ensures forall i, j :: 0 <= i < |GroupBy(xs, key)| && 0 <= j < |GroupBy(xs, key)[i].items| ==>
              key(GroupBy(xs, key)[i].items[j]) == GroupBy(xs, key)[i].key
  {
    if xs != [] {
      var rest := GroupBy(xs[1..], key);
      var gs := GroupBy(xs, key);
      GroupByUniform(xs[1..], key);
      if rest != [] && rest[0].key == key(xs[0]) {
        assert gs == [Group(key(xs[0]), [xs[0]] + rest[0].items)] + rest[1..];
        assert forall j :: 0 < j < |gs[0].items| ==> gs[0].items[j] == rest[0].items[j - 1];
        assert forall i :: 0 < i < |gs| ==> gs[i] == rest[i];
      } else {
        assert gs == [Group(key(xs[0]), [xs[0]])] + rest;
        assert forall i :: 0 < i < |gs| ==> gs[i] == rest[i - 1];
      }
    }
  }

  /** The keys the elements have, as Python's `set(...)` of them. */
  function KeySet<T>(xs: seq<T>, key: T -> string): set<string> {
    set i | 0 <= i < |xs| :: key(xs[i])
  }

  /** Reordering the elements does not change the set of their keys. */
  lemma KeySetOfPermutation<T>(a: seq<T>, b: seq<T>, key: T -> string)
    requires multiset(a) == multiset(b)
    ensures KeySet(a, key) == KeySet(b, key)
  {
    forall c | c in KeySet(a, key) ensures c in KeySet(b, key) {
      var i :| 0 <= i < |a| && key(a[i]) == c;
      assert a[i] in multiset(b);
      var j :| 0 <= j < |b| && b[j] == a[i];
    }
    forall c | c in KeySet(b, key) ensures c in KeySet(a, key) {
      var j :| 0 <= j < |b| && key(b[j]) == c;
      assert b[j] in multiset(a);
      var i :| 0 <= i < |a| && a[i] == b[j];
    }
  }

  /** The keys of the groups. */
  ghost function GroupKeySet<T>(gs: seq<Group<T>>): set<string> {
    set i | 0 <= i < |gs| :: gs[i].key
  }

  /** On a list sorted by key the groups come in strictly ascending key order. */
  lemma {:induction false} GroupKeysAscending<T>(xs: seq<T>, key: T -> string)
    requires SortedBy(xs, key)
    ensures forall i, j :: 0 <= i < j < |GroupBy(xs, key)| ==>
              Less(GroupBy(xs, key)[i].key, GroupBy(xs, key)[j].key)
  {
    if xs != [] {
      var rest := GroupBy(xs[1..], key);
      GroupKeysAscending(xs[1..], key);
      var gs := GroupBy(xs, key);
      if !(rest != [] && rest[0].key == key(xs[0])) && rest != [] {
        assert gs == [Group(key(xs[0]), [xs[0]])] + rest;
        assert rest[0].key == key(xs[1..][0]);
        assert NotAfter(key(xs[0]), key(xs[1]));
        LessTotal(key(xs[0]), rest[0].key);
        forall j | 0 < j < |gs|
          ensures Less(gs[0].key, gs[j].key)
        {
          if j > 1 {
            LessTransitive(gs[0].key, rest[0].key, rest[j - 1].key);
          }
        }
      }
    }
  }

  /** The keys of a non-empty list: the first element's and the rest's. */
  lemma KeySetCons<T>(xs: seq<T>, key: T -> string)
    requires xs != []
    ensures KeySet(xs, key) == {key(xs[0])} + KeySet(xs[1..], key)
  {
    forall c | c in KeySet(xs, key) ensures c in {key(xs[0])} + KeySet(xs[1..], key) {
      var i :| 0 <= i < |xs| && key(xs[i]) == c;
      if i > 0 { assert key(xs[1..][i - 1]) == c; }
    }
    forall c | c in KeySet(xs[1..], key) ensures c in KeySet(xs, key) {
      var i :| 0 <= i < |xs[1..]| && key(xs[1..][i]) == c;
      assert key(xs[i + 1]) == c;
    }
  }

  /** The keys of a non-empty list of groups: the first group's and the rest's. */
  lemma GroupKeySetCons<T>(gs: seq<Group<T>>)
    requires gs != []
    ensures GroupKeySet(gs) == {gs[0].key} + GroupKeySet(gs[1..])
  {
    forall c | c in GroupKeySet(gs) ensures c in {gs[0].key} + GroupKeySet(gs[1..]) {
      var i :| 0 <= i < |gs| && gs[i].key == c;
      if i > 0 { assert gs[1..][i - 1].key == c; }
    }
    forall c | c in GroupKeySet(gs[1..]) ensures c in GroupKeySet(gs) {
      var i :| 0 <= i < |gs[1..]| && gs[1..][i].key == c;
      assert gs[i + 1].key == c;
    }
  }

  /** The groups carry exactly the keys of the elements. */
  lemma {:induction false} GroupKeysAreElementKeys<T>(xs: seq<T>, key: T -> string)
    ensures GroupKeySet(GroupBy(xs, key)) == KeySet(xs, key)
  {
    if xs != [] {
      var rest := GroupBy(xs[1..], key);
      var gs := GroupBy(xs, key);
      GroupKeysAreElementKeys(xs[1..], key);
      KeySetCons(xs, key);
      GroupKeySetCons(gs);
      if rest != [] && rest[0].key == key(xs[0]) {
        GroupKeySetCons(rest);
        assert gs[1..] == rest[1..];
      } else {
        assert gs[1..] == rest;
      }
    }
  }

  /** A list of pairwise different keys has as many keys as its set has. */
  lemma {:induction false} DistinctKeysCount<T>(gs: seq<Group<T>>)
    requires forall i, j :: 0 <= i < j < |gs| ==> gs[i].key != gs[j].key
    ensures |GroupKeySet(gs)| == |gs|
  {
    if gs != [] {
      DistinctKeysCount(gs[1..]);
      GroupKeySetCons(gs);
      assert gs[0].key !in GroupKeySet(gs[1..]);
    }
  }

  /** On a list sorted by key every key labels exactly one group, so there
      are as many groups as distinct keys. */
  lemma GroupPerKey<T>(xs: seq<T>, key: T -> string)
    requires SortedBy(xs, key)
    ensures forall i, j :: 0 <= i < j < |GroupBy(xs, key)| ==> GroupBy(xs, key)[i].key != GroupBy(xs, key)[j].key
    ensures GroupKeySet(GroupBy(xs, key)) == KeySet(xs, key)
    ensures |GroupBy(xs, key)| == |KeySet(xs, key)|
  {
    var gs := GroupBy(xs, key);
    GroupKeysAscending(xs, key);
    forall i, j | 0 <= i < j < |gs| ensures gs[i].key != gs[j].key {
      LessIrreflexive(gs[i].key);
    }
    GroupKeysAreElementKeys(xs, key);
    DistinctKeysCount(gs);
  }
}
