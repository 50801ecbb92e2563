/** Order-preserving selection from a sequence, the shape shared by every
    list-building loop of the classifier and the exporter. */
module Sequences {

  /** The elements of `s` that satisfy `keep`, in their original order
      (the list `[x for x in s if keep(x)]`).  `FilterMembers` says which
      elements remain, `FilterCounts` how often. */
  function Filter<T(!new)>(s: seq<T>, keep: T -> bool): (r: seq<T>)
    ensures |r| <= |s|
    decreases |s|
  {
    if s == [] then []
    else
      var init := s[..|s| - 1];
      assert s == init + [s[|s| - 1]];
      Filter(init, keep) + (if keep(s[|s| - 1]) then [s[|s| - 1]] else [])
  }

  lemma FilterStep<T(!new)>(s: seq<T>, x: T, keep: T -> bool)
    ensures Filter(s + [x], keep) == Filter(s, keep) + (if keep(x) then [x] else [])
  {
    assert (s + [x])[..|s + [x]| - 1] == s;
  }

  /** An element is kept exactly when it is in `s` and satisfies `keep`. */
  lemma {:induction false} FilterMembers<T(!new)>(s: seq<T>, keep: T -> bool)
    ensures forall x :: x in Filter(s, keep) <==> x in s && keep(x)
    decreases |s|
  {
    if s != [] {
      var init := s[..|s| - 1];
      var last := s[|s| - 1];
      assert s == init + [last];
      FilterMembers(init, keep);
      FilterStep(init, last, keep);
    }
  }

  /** `a` is obtained from `b` by deleting elements: `idx` lists, in
      strictly increasing order, where each element of `a` sits in `b`. */
  ghost predicate SubsequenceBy<T>(a: seq<T>, b: seq<T>, idx: seq<nat>) {
    && |idx| == |a|
    && (forall i :: 0 <= i < |a| ==> idx[i] < |b| && a[i] == b[idx[i]])
    && (forall i, j :: 0 <= i < j < |a| ==> idx[i] < idx[j])
  }

  ghost predicate IsSubsequence<T>(a: seq<T>, b: seq<T>) {
    exists idx :: SubsequenceBy(a, b, idx)
  }

  /** Filtering keeps the relative order of what it keeps. */
  lemma {:induction false} FilterIndices<T(!new)>(s: seq<T>, keep: T -> bool) returns (idx: seq<nat>)
    ensures SubsequenceBy(Filter(s, keep), s, idx)
    decreases |s|
  {
    if s == [] {
      idx := [];
    } else {
      var init := s[..|s| - 1];
      var last := s[|s| - 1];
      var prev := FilterIndices(init, keep);
      var f := Filter(init, keep);
      FilterStep(init, last, keep);
      assert init + [last] == s;
      if keep(last) {
        idx := prev + [|s| - 1];
        var r := f + [last];
        assert Filter(s, keep) == r;
        forall i | 0 <= i < |r|
          ensures idx[i] < |s| && r[i] == s[idx[i]]
        {
          if i < |f| {
            assert r[i] == f[i] && idx[i] == prev[i];
            assert s[prev[i]] == init[prev[i]];
          }
        }
        forall i, j | 0 <= i < j < |r|
          ensures idx[i] < idx[j]
        {
          if j < |f| {
            assert idx[i] == prev[i] && idx[j] == prev[j];
          } else {
            assert idx[i] == prev[i] < |init|;
          }
        }
      } else {
        idx := prev;
        assert Filter(s, keep) == f;
        forall i | 0 <= i < |f|
          ensures idx[i] < |s| && f[i] == s[idx[i]]
        {
          assert s[prev[i]] == init[prev[i]];
        }
      }
    }
  }

  /** Multiplicities: an element keeps every occurrence when it satisfies
      `keep` and loses all of them otherwise. */
  lemma {:induction false} FilterCounts<T(!new)>(s: seq<T>, keep: T -> bool, x: T)
    ensures multiset(Filter(s, keep))[x] == if keep(x) then multiset(s)[x] else 0
    decreases |s|
  {
    if s != [] {
      var init := s[..|s| - 1];
      var last := s[|s| - 1];
      assert s == init + [last];
      FilterCounts(init, keep, x);
      FilterStep(init, last, keep);
    }
  }

  lemma FilterIsSubsequence<T(!new)>(s: seq<T>, keep: T -> bool)
    ensures IsSubsequence(Filter(s, keep), s)
  {
    var idx := FilterIndices(s, keep);
  }

  /** The filtered sequence is empty exactly when nothing satisfies `keep`. */
  lemma FilterEmpty<T(!new)>(s: seq<T>, keep: T -> bool)
    ensures Filter(s, keep) == [] <==> forall x :: x in s ==> !keep(x)
  {
    FilterMembers(s, keep);
    if Filter(s, keep) != [] {
      assert Filter(s, keep)[0] in Filter(s, keep);
    }
  }
}
