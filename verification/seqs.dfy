/** Order-preserving filtering (`Array.prototype.filter`) and the subsequence relation it produces. */
module Seqs {

  /** `r` is `s` with some elements removed and the rest kept in order. */
  predicate IsSubsequence<T(==)>(r: seq<T>, s: seq<T>)
    decreases |s|
  {
    if |r| == 0 then true
    else if |s| == 0 then false
    else if r[|r| - 1] == s[|s| - 1] then IsSubsequence(r[..|r| - 1], s[..|s| - 1])
    else IsSubsequence(r, s[..|s| - 1])
  }

  /** `s.filter(p)`: the elements of `s` that satisfy `p`, in their original order. */
  function Filter<T>(s: seq<T>, p: T -> bool): (r: seq<T>)
    ensures |r| <= |s|
    ensures IsSubsequence(r, s)
  {
    if |s| == 0 then []
    else
      var init := Filter(s[..|s| - 1], p);
      var last := s[|s| - 1];
      assert s == s[..|s| - 1] + [last];
      if p(last) then
        var r := init + [last];
        assert r[..|r| - 1] == init;
        r
      else
        SubsequenceOfPrefix(init, s[..|s| - 1], last);
        init
  }

  /** Filter keeps exactly the elements that satisfy the predicate. */
  lemma {:induction false} FilterMembers<T>(s: seq<T>, p: T -> bool)
    ensures forall x :: x in Filter(s, p) <==> x in s && p(x)
    decreases |s|
  {
    if |s| > 0 {
      FilterMembers(s[..|s| - 1], p);
      assert s == s[..|s| - 1] + [s[|s| - 1]];
    }
  }

  /** `s.some(p)`: whether some element of `s` satisfies `p`. */
  function Any<T(==,!new)>(s: seq<T>, p: T -> bool): (found: bool)
    ensures found <==> exists x :: x in s && p(x)
  {
    if |s| == 0 then false
    else
      assert forall x :: x in s <==> x == s[0] || x in s[1..];
      p(s[0]) || Any(s[1..], p)
  }

  /** A subsequence of `s` stays one when `s` grows at the end. */
  lemma {:induction false} SubsequenceOfPrefix<T>(r: seq<T>, s: seq<T>, x: T)
    requires IsSubsequence(r, s)
    ensures IsSubsequence(r, s + [x])
    decreases |s|, 1
  {
    var t := s + [x];
    assert t[..|t| - 1] == s;
    if |r| > 0 && r[|r| - 1] == x {
      SubsequenceDropLast(r, s);
    }
  }

  lemma {:induction false} SubsequenceDropLast<T>(r: seq<T>, s: seq<T>)
    requires |r| > 0 && IsSubsequence(r, s)
    ensures IsSubsequence(r[..|r| - 1], s)
    decreases |s|, 0
  {
    var init := s[..|s| - 1];
    assert s == init + [s[|s| - 1]];
    if r[|r| - 1] != s[|s| - 1] {
      SubsequenceDropLast(r, init);
    }
    SubsequenceOfPrefix(r[..|r| - 1], init, s[|s| - 1]);
  }

  /** `s.map(f)` */
  function Map<T, U>(s: seq<T>, f: T -> U): (r: seq<U>)
    ensures |r| == |s|
    ensures forall k :: 0 <= k < |s| ==> r[k] == f(s[k])
  {
    seq(|s|, k requires 0 <= k < |s| => f(s[k]))
  }

  /** A filter that accepts everything returns the sequence unchanged. */
  lemma {:induction false} FilterKeepsAll<T>(s: seq<T>, p: T -> bool)
    requires forall k :: 0 <= k < |s| ==> p(s[k])
    ensures Filter(s, p) == s
    decreases |s|
  {
    if |s| > 0 {
      FilterKeepsAll(s[..|s| - 1], p);
      assert s == s[..|s| - 1] + [s[|s| - 1]];
    }
  }

  /**
   * Mapping and filtering commute when the filter's verdict on a mapped
   * element is its verdict on the original one.
   */
  lemma {:induction false} FilterMap<T>(s: seq<T>, f: T -> T, p: T -> bool, q: T -> bool)
    requires forall k :: 0 <= k < |s| ==> q(f(s[k])) == p(s[k])
    ensures Filter(Map(s, f), q) == Map(Filter(s, p), f)
    decreases |s|
  {
    if |s| > 0 {
      var init := s[..|s| - 1];
      FilterMap(init, f, p, q);
      assert Map(s, f)[..|s| - 1] == Map(init, f);
      if p(s[|s| - 1]) {
        assert Map(Filter(init, p) + [s[|s| - 1]], f) == Map(Filter(init, p), f) + [f(s[|s| - 1])];
      }
    }
  }

  lemma FilteredFrom<T>(s: seq<T>, p: T -> bool, i: nat)
    requires i < |Filter(s, p)|
    ensures Filter(s, p)[i] in s
  {
    FilterMembers(s, p);
    assert Filter(s, p)[i] in Filter(s, p);
  }

  /** Filtering keeps keys pairwise different when they were in the input. */
  lemma {:induction false} FilterDistinctKeys<T, K>(s: seq<T>, p: T -> bool, key: T -> K)
    requires forall i, j :: 0 <= i < j < |s| ==> key(s[i]) != key(s[j])
    ensures forall i, j :: 0 <= i < j < |Filter(s, p)| ==> key(Filter(s, p)[i]) != key(Filter(s, p)[j])
    decreases |s|
  {
    if |s| > 0 {
      var init := s[..|s| - 1];
      var last := s[|s| - 1];
      FilterDistinctKeys(init, p, key);
      var kept := Filter(init, p);
      forall i | 0 <= i < |kept|
        ensures key(kept[i]) != key(last)
      {
        FilteredFrom(init, p, i);
        var k :| 0 <= k < |init| && init[k] == kept[i];
        assert key(s[k]) != key(s[|s| - 1]);
      }
    }
  }
}
