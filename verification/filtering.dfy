/**
 Order-preserving filtering of a sequence, the model of `Array.prototype.filter`
 that every query of the user store and every statistic of the about page is built on.
 */
module Filtering {

  /** The elements of `xs` that satisfy `p`, each as often as it occurs, in their original order. */
  function Filter<T(!new)>(xs: seq<T>, p: T -> bool): (r: seq<T>)
    ensures |r| <= |xs|
    ensures forall x :: x in r ==> p(x)
    ensures forall x :: multiset(r)[x] == if p(x) then multiset(xs)[x] else 0
  {
    if |xs| == 0 then []
    else
      assert xs == [xs[0]] + xs[1..];
      (if p(xs[0]) then [xs[0]] else []) + Filter(xs[1..], p)
  }

  /** Filtering a sequence with a known first element. */
  lemma FilterCons<T(!new)>(x: T, xs: seq<T>, p: T -> bool)
    ensures Filter([x] + xs, p) == (if p(x) then [x] else []) + Filter(xs, p)
  {
    assert ([x] + xs)[1..] == xs;
  }

  /** Filtering distributes over concatenation: the kept elements stay in store order. */
  lemma {:induction false} FilterConcat<T(!new)>(a: seq<T>, b: seq<T>, p: T -> bool)
    ensures Filter(a + b, p) == Filter(a, p) + Filter(b, p)
  {
    if |a| == 0 {
      assert a + b == b;
    } else {
      assert (a + b)[1..] == a[1..] + b;
      FilterConcat(a[1..], b, p);
    }
  }

  /** Two complementary filters split a sequence without losing or duplicating anything. */
  lemma {:induction false} FilterPartition<T(!new)>(xs: seq<T>, p: T -> bool, q: T -> bool)
    requires forall x :: q(x) == !p(x)
    ensures multiset(Filter(xs, p)) + multiset(Filter(xs, q)) == multiset(xs)
    ensures |Filter(xs, p)| + |Filter(xs, q)| == |xs|
  {
  }

  /** A filter that keeps everything returns its input unchanged. */
  lemma {:induction false} FilterAll<T(!new)>(xs: seq<T>, p: T -> bool)
    requires forall i :: 0 <= i < |xs| ==> p(xs[i])
    ensures Filter(xs, p) == xs
  {
    if |xs| > 0 {
      FilterAll(xs[1..], p);
    }
  }

  /** The filter's result is empty exactly when no element satisfies the predicate. */
  lemma {:induction false} FilterEmpty<T(!new)>(xs: seq<T>, p: T -> bool)
    ensures |Filter(xs, p)| == 0 <==> forall i :: 0 <= i < |xs| ==> !p(xs[i])
  {
    var r := Filter(xs, p);
    if |r| == 0 {
      forall i | 0 <= i < |xs|
        ensures !p(xs[i])
      {
        assert multiset(xs)[xs[i]] > 0;
        assert multiset(r)[xs[i]] == 0;
      }
    } else {
      assert r[0] in r;
      assert multiset(r)[r[0]] > 0;
      assert r[0] in xs;
    }
  }

  /** Filters with predicates that agree on every element give the same result. */
  lemma {:induction false} FilterCongruent<T(!new)>(xs: seq<T>, p: T -> bool, q: T -> bool)
    requires forall i :: 0 <= i < |xs| ==> p(xs[i]) == q(xs[i])
    ensures Filter(xs, p) == Filter(xs, q)
  {
    if |xs| > 0 {
      FilterCongruent(xs[1..], p, q);
    }
  }
}
