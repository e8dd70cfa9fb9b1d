/**
 A Python dictionary keeps its keys in insertion order, and a comprehension
 over a sequence with repeated keys keeps the first position of each key.
 */
module Dicts {

  /** No element occurs twice. */
  predicate NoDuplicates(s: seq<int>)
  {
    forall i, j :: 0 <= i < j < |s| ==> s[i] != s[j]
  }

  /** The keys of `{x: ... for x in s}`, in the order they were first inserted. */
  function Distinct(s: seq<int>): (r: seq<int>)
    ensures forall x :: x in r <==> x in s
    ensures NoDuplicates(r)
    ensures |r| <= |s|
    decreases |s|
  {
    if s == [] then []
    else
      var front := Distinct(s[..|s| - 1]);
      var last := s[|s| - 1];
      assert s == s[..|s| - 1] + [last];
      if last in front then front else front + [last]
  }

  /** Without repetitions there is nothing to drop. */
  lemma {:induction false} DistinctOfDistinct(s: seq<int>)
    requires NoDuplicates(s)
    ensures Distinct(s) == s
    decreases |s|
  {
    if s != [] {
      var init := s[..|s| - 1];
      assert NoDuplicates(init);
      DistinctOfDistinct(init);
      assert s[|s| - 1] !in init by {
        forall i | 0 <= i < |init| ensures init[i] != s[|s| - 1] {
          assert init[i] == s[i];
        }
      }
      assert s == init + [s[|s| - 1]];
    }
  }

  /** Two dictionaries with the same keys and the same value at every key are equal. */
  lemma EqualMaps<V>(x: map<int, V>, y: map<int, V>)
    requires x.Keys == y.Keys
    requires forall m :: m in x ==> x[m] == y[m]
    ensures x == y
  {
    assert forall m :: m in x ==> m in y && x[m] == y[m];
    assert forall m :: m in y ==> m in x;
  }
}
