/** Counting the entries of a sequence without repetitions. */
module Counting {
  predicate Distinct<T(==)>(s: seq<T>) {
    forall i, j :: 0 <= i < j < |s| ==> s[i] != s[j]
  }

  /** A sequence without repetitions that lists exactly the members of a set is as long as the set is large. */
  lemma {:induction false} DistinctListing<T>(s: seq<T>, members: set<T>)
    requires Distinct(s)
    requires forall i :: 0 <= i < |s| ==> s[i] in members
    requires forall m :: m in members ==> m in s
    ensures |s| == |members|
  {
    if s != [] {
      var n := |s| - 1;
      var init := s[..n];
      forall m | m in members - {s[n]} ensures m in init {
        var i :| 0 <= i < |s| && s[i] == m;
        assert i != n;
        assert init[i] == m;
      }
      DistinctListing(init, members - {s[n]});
    }
  }
}
