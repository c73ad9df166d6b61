/** Option, the value-or-nothing wrapper used for C#'s nullable results. */
module Wrappers {
  datatype Option<+T> = None | Some(value: T)
}

/**
 * The LINQ sequence operators the controller relies on (Where, Skip, Take),
 * written as functions on sequences.
 */
module Sequences {

  /** LINQ `Where`: the elements of `s` that satisfy `p`, in their original order. */
  function Filter<T(!new)>(s: seq<T>, p: T -> bool): (r: seq<T>)
    ensures |r| <= |s|
    ensures forall x :: x in r <==> x in s && p(x)
    decreases |s|
  {
    if s == [] then []
    else if p(s[0]) then [s[0]] + Filter(s[1..], p)
    else Filter(s[1..], p)
  }

  /** `a` can be obtained from `b` by deleting elements: `a` keeps the order of `b`. */
  ghost predicate IsSubsequence<T>(a: seq<T>, b: seq<T>)
    decreases |b|
  {
    a == [] ||
    (b != [] && ((a[0] == b[0] && IsSubsequence(a[1..], b[1..])) || IsSubsequence(a, b[1..])))
  }

  /**
   * Filter keeps every element that satisfies `p`, as often as it occurs,
   * drops every other element, and does not reorder: it is exactly the
   * subsequence of `s` made of the elements satisfying `p`.
   */
  lemma {:induction false} FilterExact<T(!new)>(s: seq<T>, p: T -> bool)
    ensures IsSubsequence(Filter(s, p), s)
    ensures forall x :: multiset(Filter(s, p))[x] == if p(x) then multiset(s)[x] else 0
    decreases |s|
  {
    if s != [] {
      FilterExact(s[1..], p);
      assert s == [s[0]] + s[1..];
      assert multiset(s) == multiset{s[0]} + multiset(s[1..]);
      if p(s[0]) {
        var r := Filter(s, p);
        assert r[0] == s[0] && r[1..] == Filter(s[1..], p);
      } else {
        var r := Filter(s, p);
        assert r == Filter(s[1..], p);
        if r != [] {
          SubsequenceOfTail(r, s);
        }
      }
    }
  }

  /** When every element satisfies `p`, Filter keeps the sequence as it is. */
  lemma {:induction false} FilterKeepsAll<T(!new)>(s: seq<T>, p: T -> bool)
    requires forall x :: x in s ==> p(x)
    ensures Filter(s, p) == s
    decreases |s|
  {
    if s != [] {
      assert forall x :: x in s[1..] ==> x in s;
      FilterKeepsAll(s[1..], p);
    }
  }

  /** When no element satisfies `p`, Filter keeps nothing. */
  lemma {:induction false} FilterDropsAll<T(!new)>(s: seq<T>, p: T -> bool)
    requires forall x :: x in s ==> !p(x)
    ensures Filter(s, p) == []
    decreases |s|
  {
    if s != [] {
      assert forall x :: x in s[1..] ==> x in s;
      FilterDropsAll(s[1..], p);
    }
  }

  /** A subsequence of the tail of `b` is a subsequence of `b`. */
  lemma SubsequenceOfTail<T>(a: seq<T>, b: seq<T>)
    requires b != [] && IsSubsequence(a, b[1..])
    ensures IsSubsequence(a, b)
  {
  }

  /** A count clamped into `0 .. hi`: how many elements a LINQ count of `n` really reaches. */
  function Clamp(n: int, hi: nat): (c: nat)
    ensures c <= hi
    ensures 0 <= n <= hi ==> c == n
  {
    if n <= 0 then 0 else if n >= hi then hi else n
  }

  /**
   * LINQ `Skip`: drops the first `n` elements, none for a count of zero or
   * less and all of them for a count past the end.
   */
  function Skip<T>(s: seq<T>, n: int): (r: seq<T>)
    ensures |r| == |s| - Clamp(n, |s|)
    ensures forall i :: 0 <= i < |r| ==> r[i] == s[Clamp(n, |s|) + i]
  {
    if n <= 0 then s else if n >= |s| then [] else s[n..]
  }

  /**
   * LINQ `Take`: keeps the first `n` elements, none for a count of zero or
   * less and all of them for a count past the end.
   */
  function Take<T>(s: seq<T>, n: int): (r: seq<T>)
    ensures |r| == Clamp(n, |s|)
    ensures forall i :: 0 <= i < |r| ==> r[i] == s[i]
  {
    if n <= 0 then [] else if n >= |s| then s else s[..n]
  }
}
