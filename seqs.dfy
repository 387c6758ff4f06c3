/**
 * Array `filter` as the pages use it: keep, in order, the elements a predicate
 * accepts. Every list view of the application is built from it.
 */
module Seqs {

  /** `a` can be obtained from `b` by deleting elements, keeping the order of the rest. */
  predicate IsSubseq<T(==)>(a: seq<T>, b: seq<T>)
    decreases |b|
  {
    if a == [] then true
    else if b == [] then false
    else (a[0] == b[0] && IsSubseq(a[1..], b[1..])) || IsSubseq(a, b[1..])
  }

  /** JavaScript's `s.filter(p)`. */
  function Filter<T(==,!new)>(s: seq<T>, p: T -> bool): (r: seq<T>)
    ensures |r| <= |s|
    ensures forall x :: x in r <==> x in s && p(x)
    ensures IsSubseq(r, s)
  {
    if s == [] then []
    else if p(s[0]) then [s[0]] + Filter(s[1..], p)
    else Filter(s[1..], p)
  }

  /** Number of elements of `s` that `p` accepts. */
  function CountIf<T>(s: seq<T>, p: T -> bool): nat {
    if s == [] then 0 else (if p(s[0]) then 1 else 0) + CountIf(s[1..], p)
  }

  /** Filtering keeps exactly as many elements as the predicate accepts. */
  lemma {:induction false} FilterLength<T(!new)>(s: seq<T>, p: T -> bool)
    ensures |Filter(s, p)| == CountIf(s, p)
  {
    if s != [] {
      FilterLength(s[1..], p);
    }
  }

  /** Filtering a concatenation filters each part. */
  lemma {:induction false} FilterAppend<T(!new)>(a: seq<T>, b: seq<T>, p: T -> bool)
    ensures Filter(a + b, p) == Filter(a, p) + Filter(b, p)
  {
    if a == [] {
      assert a + b == b;
    } else {
      assert (a + b)[1..] == a[1..] + b;
      FilterAppend(a[1..], b, p);
    }
  }

  /** A filter that accepts every element returns the list unchanged. */
  lemma {:induction false} FilterAll<T(!new)>(s: seq<T>, p: T -> bool)
    requires forall x :: x in s ==> p(x)
    ensures Filter(s, p) == s
  {
    if s != [] {
      FilterAll(s[1..], p);
    }
  }

  /** A filter that rejects every element returns the empty list. */
  lemma {:induction false} FilterNone<T(!new)>(s: seq<T>, p: T -> bool)
    requires forall x :: x in s ==> !p(x)
    ensures Filter(s, p) == []
  {
    if s != [] {
      FilterNone(s[1..], p);
    }
  }

  /** Two filters in a row equal one filter with both conditions. */
  lemma {:induction false} FilterTwice<T(!new)>(s: seq<T>, p: T -> bool, q: T -> bool, pq: T -> bool)
    requires forall x :: pq(x) == (p(x) && q(x))
    ensures Filter(Filter(s, p), q) == Filter(s, pq)
  {
    if s != [] {
      FilterTwice(s[1..], p, q, pq);
      if p(s[0]) {
        assert Filter(s, p) == [s[0]] + Filter(s[1..], p);
        assert Filter(s, p)[1..] == Filter(s[1..], p);
      }
    }
  }

  /** Filters whose predicates agree on the elements of `s` give the same result. */
  lemma {:induction false} FilterCongruent<T(!new)>(s: seq<T>, p: T -> bool, q: T -> bool)
    requires forall x :: x in s ==> p(x) == q(x)
    ensures Filter(s, p) == Filter(s, q)
  {
    if s != [] {
      FilterCongruent(s[1..], p, q);
    }
  }

  /**
   * Filtering by `p` and by its negation splits `s`: the two results together
   * hold every element of `s` exactly as often as `s` does.
   */
  lemma {:induction false} FilterPartition<T(!new)>(s: seq<T>, p: T -> bool, notP: T -> bool)
    requires forall x :: x in s ==> notP(x) == !p(x)
    ensures multiset(Filter(s, p)) + multiset(Filter(s, notP)) == multiset(s)
  {
    if s != [] {
      var x, rest := s[0], s[1..];
      FilterPartition(rest, p, notP);
      assert s == [x] + rest;
      var a, b := Filter(rest, p), Filter(rest, notP);
      if p(x) {
        assert Filter(s, p) == [x] + a;
        assert Filter(s, notP) == b;
        assert multiset([x] + a) == multiset{x} + multiset(a);
      } else {
        assert Filter(s, p) == a;
        assert Filter(s, notP) == [x] + b;
        assert multiset([x] + b) == multiset{x} + multiset(b);
      }
      assert multiset(s) == multiset{x} + multiset(rest);
    }
  }

  /** The sum of `f` over the list, added from the left as `reduce` does. */
  function SumOf<T>(s: seq<T>, f: T -> int): int {
    if s == [] then 0 else SumOf(s[..|s| - 1], f) + f(s[|s| - 1])
  }

  /** Sums over a concatenation add up. */
  lemma {:induction false} SumOfAppend<T>(a: seq<T>, b: seq<T>, f: T -> int)
    ensures SumOf(a + b, f) == SumOf(a, f) + SumOf(b, f)
    decreases |b|
  {
    if b == [] {
      assert a + b == a;
    } else {
      assert (a + b)[..|a + b| - 1] == a + b[..|b| - 1];
      SumOfAppend(a, b[..|b| - 1], f);
    }
  }

  /** The sums over the two halves of a split by `p` add up to the whole sum. */
  lemma {:induction false} SumOfPartition<T(!new)>(s: seq<T>, p: T -> bool, notP: T -> bool, f: T -> int)
    requires forall x :: notP(x) == !p(x)
    ensures SumOf(Filter(s, p), f) + SumOf(Filter(s, notP), f) == SumOf(s, f)
  {
    if s != [] {
      var x, rest := s[0], s[1..];
      SumOfPartition(rest, p, notP, f);
      SumOfAppend([x], rest, f);
      assert [x] + rest == s;
      assert SumOf([x], f) == f(x) by {
        assert [x][..0] == [];
      }
      if p(x) {
        SumOfAppend([x], Filter(rest, p), f);
      } else {
        SumOfAppend([x], Filter(rest, notP), f);
      }
    }
  }
}
