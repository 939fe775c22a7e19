/** Order-preserving filters over sequences: the shape of every row-rejecting stage. */
module Sequences {

  /** `t` is obtained from `s` by deleting elements, keeping the rest in order. */
  predicate IsSubsequence<T(==)>(t: seq<T>, s: seq<T>)
    decreases |s|
  {
    t == [] ||
    (s != [] &&
     ((t[|t| - 1] == s[|s| - 1] && IsSubsequence(t[..|t| - 1], s[..|s| - 1])) ||
      IsSubsequence(t, s[..|s| - 1])))
  }

  lemma {:induction false} SubsequenceOfItself<T>(s: seq<T>)
    ensures IsSubsequence(s, s)
    decreases |s|
  {
    if s != [] {
      SubsequenceOfItself(s[..|s| - 1]);
    }
  }

  /** The elements of `s` that satisfy `p`, in their original order (pandas' `df[mask]`). */
  function Filter<T>(s: seq<T>, p: T -> bool): (r: seq<T>)
    ensures |r| <= |s|
    ensures forall i :: 0 <= i < |r| ==> p(r[i])
    decreases |s|
  {
    if s == [] then []
    else Filter(s[..|s| - 1], p) + (if p(s[|s| - 1]) then [s[|s| - 1]] else [])
  }

  /** Everything a filter keeps comes from its input and passes the test, and nothing that passes is lost. */
  lemma {:induction false} FilterMembers<T>(s: seq<T>, p: T -> bool)
    ensures forall x :: x in Filter(s, p) <==> x in s && p(x)
    decreases |s|
  {
    if s != [] {
      var s' := s[..|s| - 1];
      FilterMembers(s', p);
      assert s == s' + [s[|s| - 1]];
    }
  }

  /** A filter keeps every copy of an element that passes and no copy of one that fails. */
  lemma {:induction false} FilterCounts<T>(s: seq<T>, p: T -> bool)
    ensures forall x :: multiset(Filter(s, p))[x] == (if p(x) then multiset(s)[x] else 0)
    decreases |s|
  {
    if s != [] {
      var s' := s[..|s| - 1];
      FilterCounts(s', p);
      assert s == s' + [s[|s| - 1]];
    }
  }

  /** A filter deletes elements and never reorders what it keeps. */
  lemma {:induction false} FilterIsSubsequence<T>(s: seq<T>, p: T -> bool)
    ensures IsSubsequence(Filter(s, p), s)
    decreases |s|
  {
    if s != [] {
      var s' := s[..|s| - 1];
      var r := Filter(s, p);
      FilterIsSubsequence(s', p);
      if p(s[|s| - 1]) {
        assert r[..|r| - 1] == Filter(s', p);
      } else {
        assert r == Filter(s', p);
      }
    }
  }

  /** A filter that every element passes removes nothing. */
  lemma {:induction false} FilterKeepsAll<T>(s: seq<T>, p: T -> bool)
    requires forall i :: 0 <= i < |s| ==> p(s[i])
    ensures Filter(s, p) == s
    decreases |s|
  {
    if s != [] {
      FilterKeepsAll(s[..|s| - 1], p);
    }
  }

  /** The elements of `s` at the positions where `keep` is true (pandas' boolean indexing). */
  function Select<T>(s: seq<T>, keep: seq<bool>): seq<T>
    requires |keep| == |s|
    decreases |s|
  {
    if s == [] then []
    else Select(s[..|s| - 1], keep[..|s| - 1]) + (if keep[|s| - 1] then [s[|s| - 1]] else [])
  }

  /** Selecting by a mask computed from a test is filtering by that test. */
  lemma {:induction false} SelectByTestIsFilter<T>(s: seq<T>, keep: seq<bool>, p: T -> bool)
    requires |keep| == |s|
    requires forall i :: 0 <= i < |s| ==> keep[i] == p(s[i])
    ensures Select(s, keep) == Filter(s, p)
    decreases |s|
  {
    if s != [] {
      SelectByTestIsFilter(s[..|s| - 1], keep[..|s| - 1], p);
    }
  }

  /** Deleting elements keeps distinct keys distinct. */
  lemma {:induction false} SubsequenceKeepsDistinct<T, K>(t: seq<T>, s: seq<T>, key: T -> K)
    requires IsSubsequence(t, s)
    requires forall i, j :: 0 <= i < j < |s| ==> key(s[i]) != key(s[j])
    ensures forall i, j :: 0 <= i < j < |t| ==> key(t[i]) != key(t[j])
    decreases |s|
  {
    if t != [] {
      var s' := s[..|s| - 1];
      if t[|t| - 1] == s[|s| - 1] && IsSubsequence(t[..|t| - 1], s') {
        var t' := t[..|t| - 1];
        SubsequenceKeepsDistinct(t', s', key);
        SubsequenceMembers(t', s');
        forall i | 0 <= i < |t'|
          ensures key(t'[i]) != key(s[|s| - 1])
        {
          var k :| 0 <= k < |s'| && s'[k] == t'[i];
        }
      } else {
        SubsequenceKeepsDistinct(t, s', key);
      }
    }
  }

  lemma {:induction false} SubsequenceMembers<T>(t: seq<T>, s: seq<T>)
    requires IsSubsequence(t, s)
    ensures forall i :: 0 <= i < |t| ==> exists k :: 0 <= k < |s| && s[k] == t[i]
    decreases |s|
  {
    if t != [] {
      var s' := s[..|s| - 1];
      if t[|t| - 1] == s[|s| - 1] && IsSubsequence(t[..|t| - 1], s') {
        SubsequenceMembers(t[..|t| - 1], s');
        forall i | 0 <= i < |t|
          ensures exists k :: 0 <= k < |s| && s[k] == t[i]
        {
          if i == |t| - 1 {
            assert s[|s| - 1] == t[i];
          } else {
            assert t[..|t| - 1][i] == t[i];
            var k :| 0 <= k < |s'| && s'[k] == t[i];
            assert s[k] == t[i];
          }
        }
      } else {
        SubsequenceMembers(t, s');
        forall i | 0 <= i < |t|
          ensures exists k :: 0 <= k < |s| && s[k] == t[i]
        {
          var k :| 0 <= k < |s'| && s'[k] == t[i];
          assert s[k] == t[i];
        }
      }
    }
  }

  /** Deleting elements never makes a sequence longer. */
  lemma {:induction false} SubsequenceLength<T>(t: seq<T>, s: seq<T>)
    requires IsSubsequence(t, s)
    ensures |t| <= |s|
    decreases |s|
  {
    if t != [] {
      if t[|t| - 1] == s[|s| - 1] && IsSubsequence(t[..|t| - 1], s[..|s| - 1]) {
        SubsequenceLength(t[..|t| - 1], s[..|s| - 1]);
      } else {
        SubsequenceLength(t, s[..|s| - 1]);
      }
    }
  }
}
