/** Python dict comprehensions over an insertion-ordered dictionary. */
module PyDict {

  /** Entry `i` is kept, has key `k`, and no later kept entry has key `k`:
      its value is the one a dict comprehension leaves under `k`. */
  ghost predicate LastWithKey<V>(entries: seq<(string, V)>, keep: (string, V) -> bool,
                                 keyOf: string -> string, k: string, i: int) {
    && 0 <= i < |entries|
    && keep(entries[i].0, entries[i].1)
    && keyOf(entries[i].0) == k
    && forall j :: i < j < |entries| ==> !(keep(entries[j].0, entries[j].1) && keyOf(entries[j].0) == k)
  }

  /** The index of the last kept entry with key `k`, or -1 when there is none. */
  function LastIndex<V>(entries: seq<(string, V)>, keep: (string, V) -> bool,
                        keyOf: string -> string, k: string): (i: int)
    ensures -1 <= i < |entries|
  {
    if entries == [] then -1
    else
      var n := |entries| - 1;
      if keep(entries[n].0, entries[n].1) && keyOf(entries[n].0) == k then n
      else LastIndex(entries[..n], keep, keyOf, k)
  }

  /** `LastIndex` finds the last kept entry with key `k`, and finds none
      exactly when no kept entry has that key. */
  lemma {:induction false} LastIndexIsLast<V>(entries: seq<(string, V)>, keep: (string, V) -> bool,
                                              keyOf: string -> string, k: string)
    ensures LastIndex(entries, keep, keyOf, k) >= 0 ==>
              LastWithKey(entries, keep, keyOf, k, LastIndex(entries, keep, keyOf, k))
    ensures LastIndex(entries, keep, keyOf, k) < 0 ==>
              forall j :: 0 <= j < |entries| ==> !(keep(entries[j].0, entries[j].1) && keyOf(entries[j].0) == k)
  {
    if entries != [] {
      var n := |entries| - 1;
      if !(keep(entries[n].0, entries[n].1) && keyOf(entries[n].0) == k) {
        LastIndexIsLast(entries[..n], keep, keyOf, k);
        assert forall j :: 0 <= j < n ==> entries[..n][j] == entries[j];
      }
    }
  }

  /** `{keyOf(name): v for name, v in entries if keep(name, v)}`, visiting
      the entries in order, so a later entry overwrites an earlier one with
      the same key: a key is present iff a kept entry has it, and it holds
      the value of the last such entry. */
  function Comprehend<V>(entries: seq<(string, V)>, keep: (string, V) -> bool,
                         keyOf: string -> string): (r: map<string, V>)
    ensures forall k :: k in r <==> LastIndex(entries, keep, keyOf, k) >= 0
    ensures forall k :: k in r ==> r[k] == entries[LastIndex(entries, keep, keyOf, k)].1
  {
    if entries == [] then map[]
    else
      var n := |entries| - 1;
      var prev := Comprehend(entries[..n], keep, keyOf);
      var (name, v) := entries[n];
      if keep(name, v) then prev[keyOf(name) := v] else prev
  }
}
