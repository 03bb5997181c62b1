/** Sum, minimum and maximum of a sequence of reals: the arithmetic behind
    Python's `sum(xs) / len(xs)`. */
module RealSeq {

  /** `sum(s)` as Python evaluates it: start at 0 and add the elements from
      the left. */
  function SumFromLeft(s: seq<real>): real
  {
    if s == [] then 0.0 else SumFromLeft(s[..|s| - 1]) + s[|s| - 1]
  }

  /** Peeling off the first element of Python's left-to-right sum. */
  lemma {:induction false} SumFromLeftFirst(s: seq<real>)
    requires s != []
    ensures SumFromLeft(s) == s[0] + SumFromLeft(s[1..])
  {
    if |s| > 1 {
      var init := s[..|s| - 1];
      assert init[1..] == s[1..][..|s| - 2];
      SumFromLeftFirst(init);
    }
  }

  /** The sum of `s`, taken from the front; it is the value Python's
      left-to-right `sum` produces. */
  function Sum(s: seq<real>): (r: real)
    ensures r == SumFromLeft(s)
  {
    if s == [] then 0.0
    else
      SumFromLeftFirst(s);
      s[0] + Sum(s[1..])
  }

  function Min(s: seq<real>): (m: real)
    requires s != []
    ensures m in s
    ensures forall i | 0 <= i < |s| :: m <= s[i]
  {
    if |s| == 1 then s[0]
    else
      var rest := Min(s[1..]);
      assert rest in s;
      if s[0] <= rest then s[0] else rest
  }

  function Max(s: seq<real>): (m: real)
    requires s != []
    ensures m in s
    ensures forall i | 0 <= i < |s| :: s[i] <= m
  {
    if |s| == 1 then s[0]
    else
      var rest := Max(s[1..]);
      assert rest in s;
      if s[0] >= rest then s[0] else rest
  }

  lemma {:induction false} SumConcat(a: seq<real>, b: seq<real>)
    ensures Sum(a + b) == Sum(a) + Sum(b)
  {
    if a == [] {
      assert a + b == b;
    } else {
      assert (a + b)[1..] == a[1..] + b;
      SumConcat(a[1..], b);
    }
  }

  /** Taking out the element at position `j` takes its value out of the sum. */
  lemma {:induction false} SumRemove(s: seq<real>, j: nat)
    requires j < |s|
    ensures Sum(s) == s[j] + Sum(s[..j] + s[j + 1..])
  {
    var pre, rest, post := s[..j], s[j..], s[j + 1..];
    assert s == pre + rest;
    SumConcat(pre, rest);
    assert rest[1..] == post;
    SumConcat(pre, post);
  }

  /** Taking out the element at position `j` takes one copy of it out of the multiset. */
  lemma {:induction false} MultisetRemove<T>(s: seq<T>, j: nat)
    requires j < |s|
    ensures multiset(s[..j] + s[j + 1..]) == multiset(s) - multiset{s[j]}
  {
    assert s == s[..j] + [s[j]] + s[j + 1..];
  }

  /** Taking the first element out of `a` and an equal one out of its
      permutation `b` leaves two permutations of each other. */
  lemma {:induction false} RemoveMatching<T>(a: seq<T>, b: seq<T>, j: nat)
    requires multiset(a) == multiset(b)
    requires a != [] && j < |b| && b[j] == a[0]
    ensures multiset(a[1..]) == multiset(b[..j] + b[j + 1..])
  {
    MultisetRemove(a, 0);
    assert a[..0] + a[1..] == a[1..];
    MultisetRemove(b, j);
  }

  /** The sum depends only on the multiset of elements, not on their order. */
  lemma {:induction false} SumPermutation(a: seq<real>, b: seq<real>)
    requires multiset(a) == multiset(b)
    ensures Sum(a) == Sum(b)
    decreases |a|
  {
    if a == [] {
      assert |b| == |multiset(b)| == 0;
    } else {
      var x := a[0];
      assert x in b by {
        assert x in multiset(a);
      }
      var j :| 0 <= j < |b| && b[j] == x;
      var rest := b[..j] + b[j + 1..];
      RemoveMatching(a, b, j);
      SumPermutation(a[1..], rest);
      SumRemove(b, j);
    }
  }

  /** Every element lies in [lo, hi], so the sum lies in [n*lo, n*hi]. */
  lemma {:induction false} SumBounds(s: seq<real>, lo: real, hi: real)
    requires forall i | 0 <= i < |s| :: lo <= s[i] <= hi
    ensures |s| as real * lo <= Sum(s) <= |s| as real * hi
  {
    if s != [] {
      SumBounds(s[1..], lo, hi);
    }
  }

  /** Dividing by a positive count keeps a bound scaled by that count. */
  lemma DivideBounds(x: real, n: real, lo: real, hi: real)
    requires n > 0.0
    requires n * lo <= x <= n * hi
    ensures lo <= x / n <= hi
  {
    var q := x / n;
    assert x == n * q;
    assert n * (q - lo) >= 0.0;
    assert n * (hi - q) >= 0.0;
  }

  /** When every element lies in [lo, hi], so does the mean. */
  lemma {:induction false} MeanWithin(s: seq<real>, lo: real, hi: real)
    requires s != []
    requires forall i | 0 <= i < |s| :: lo <= s[i] <= hi
    ensures lo <= Sum(s) / |s| as real <= hi
  {
    SumBounds(s, lo, hi);
    DivideBounds(Sum(s), |s| as real, lo, hi);
  }

  /** The mean of a non-empty sequence lies between its minimum and maximum. */
  lemma {:induction false} MeanBetweenMinAndMax(s: seq<real>)
    requires s != []
    ensures Min(s) <= Sum(s) / |s| as real <= Max(s)
  {
    MeanWithin(s, Min(s), Max(s));
  }
}
