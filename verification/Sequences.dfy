/** Sequences without repetition, removing one element, and the size of a subset. */
module Sequences {

  ghost predicate Distinct<N>(s: seq<N>) {
    forall i, j :: 0 <= i < j < |s| ==> s[i] != s[j]
  }

  function RemoveAt<N>(s: seq<N>, k: nat): (r: seq<N>)
    requires k < |s|
  {
    s[..k] + s[k + 1..]
  }

  lemma SubsetSize<T>(a: set<T>, b: set<T>)
    requires a <= b
    ensures |a| <= |b|
    ensures a != b ==> |a| < |b|
  {
    assert b == a + (b - a);
  }
}
