/** Linear search and order-preserving filtering over sequences. */
module Sequences {
  import opened Wrappers

  /** Index of the first element of `s` that satisfies `p`, scanning from the front. */
  function FirstIndex<T>(s: seq<T>, p: T -> bool): (r: Option<nat>)
    ensures r.Some? ==> r.value < |s| && p(s[r.value])
    ensures r.Some? ==> forall j :: 0 <= j < r.value ==> !p(s[j])
    ensures r.None? <==> forall j :: 0 <= j < |s| ==> !p(s[j])
  {
    if s == [] then None
    else if p(s[0]) then Some(0)
    else match FirstIndex(s[1..], p)
      case None => None
      case Some(i) => Some(i + 1)
  }

  /** `a` can be obtained from `b` by deleting elements (order is kept). */
  predicate IsSubsequence<T(==)>(a: seq<T>, b: seq<T>)
    decreases |b|, |a|
  {
    if a == [] then true
    else if b == [] then false
    else if a[0] == b[0] then IsSubsequence(a[1..], b[1..])
    else IsSubsequence(a, b[1..])
  }

  /** The elements of `s` satisfying `p`, in their original order (a list comprehension with a guard). */
  function Filter<T>(s: seq<T>, p: T --> bool): (r: seq<T>)
    requires forall i :: 0 <= i < |s| ==> p.requires(s[i])
    ensures |r| <= |s|
  {
    if s == [] then []
    else (if p(s[0]) then [s[0]] else []) + Filter(s[1..], p)
  }

  /** Every element Filter keeps comes from `s` and satisfies `p`; every element of `s` satisfying `p` is kept. */
  lemma {:induction false} FilterMembers<T>(s: seq<T>, p: T --> bool)
    requires forall i :: 0 <= i < |s| ==> p.requires(s[i])
    ensures forall x :: x in Filter(s, p) ==> x in s && p.requires(x) && p(x)
    ensures forall i :: 0 <= i < |s| && p(s[i]) ==> s[i] in Filter(s, p)
  {
    if s != [] {
      FilterMembers(s[1..], p);
      forall i | 0 <= i < |s| && p(s[i])
        ensures s[i] in Filter(s, p)
      {
        if i > 0 {
          assert s[i] == s[1..][i - 1];
        }
      }
    }
  }

  /** Filter keeps the relative order of the elements it keeps. */
  lemma {:induction false} FilterIsSubsequence<T>(s: seq<T>, p: T --> bool)
    requires forall i :: 0 <= i < |s| ==> p.requires(s[i])
    ensures IsSubsequence(Filter(s, p), s)
  {
    if s != [] {
      FilterIsSubsequence(s[1..], p);
      var rest := Filter(s[1..], p);
      if p(s[0]) {
        assert Filter(s, p) == [s[0]] + rest;
        assert ([s[0]] + rest)[1..] == rest;
      } else {
        assert Filter(s, p) == rest;
        SubsequenceOfTail(rest, s);
      }
    }
  }

  /** A subsequence of the tail of `b` is a subsequence of `b`. */
  lemma {:induction false} SubsequenceOfTail<T>(a: seq<T>, b: seq<T>)
    requires b != [] && IsSubsequence(a, b[1..])
    ensures IsSubsequence(a, b)
    decreases |b|, |a|
  {
    if a != [] && a[0] == b[0] {
      if |b| > 1 && a[1..] != [] {
        SubsequenceDropHead(a, b[1..]);
      }
    }
  }

  /** Dropping the first element of a subsequence leaves a subsequence. */
  lemma {:induction false} SubsequenceDropHead<T>(a: seq<T>, b: seq<T>)
    requires a != [] && IsSubsequence(a, b)
    ensures IsSubsequence(a[1..], b)
    decreases |b|, |a|
  {
    assert b != [];
    if a[0] == b[0] {
      if a[1..] != [] {
        SubsequenceOfTail(a[1..], b);
      }
    } else {
      SubsequenceDropHead(a, b[1..]);
      if a[1..] != [] {
        SubsequenceOfTail(a[1..], b);
      }
    }
  }

  /** Filter keeps every occurrence of an element that satisfies `p` and none of the others. */
  lemma {:induction false} FilterMultiplicity<T>(s: seq<T>, p: T --> bool, x: T)
    requires forall i :: 0 <= i < |s| ==> p.requires(s[i])
    requires x in s
    ensures multiset(Filter(s, p))[x] == if p(x) then multiset(s)[x] else 0
  {
    if s != [] {
      assert s == [s[0]] + s[1..];
      if x in s[1..] {
        FilterMultiplicity(s[1..], p, x);
      } else {
        FilterMembers(s[1..], p);
        assert multiset(s[1..])[x] == 0;
      }
    }
  }

  /** Filtering a sequence extended by one element extends the filtered sequence by that element when it is kept. */
  lemma {:induction false} FilterSnoc<T>(s: seq<T>, x: T, p: T --> bool)
    requires forall i :: 0 <= i < |s| ==> p.requires(s[i])
    requires p.requires(x)
    ensures forall i :: 0 <= i < |s + [x]| ==> p.requires((s + [x])[i])
    ensures Filter(s + [x], p) == Filter(s, p) + (if p(x) then [x] else [])
  {
    assert forall i :: 0 <= i < |s + [x]| ==> p.requires((s + [x])[i]) by {
      forall i | 0 <= i < |s + [x]|
        ensures p.requires((s + [x])[i])
      {
        if i < |s| {
          assert (s + [x])[i] == s[i];
        }
      }
    }
    if s != [] {
      assert (s + [x])[1..] == s[1..] + [x];
      FilterSnoc(s[1..], x, p);
    }
  }
}
