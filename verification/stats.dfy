/** Extremes and the median of a sequence of reals (`max`, `min` and
    `statistics.median`). */
module Stats {
  import opened Sorting

  /** `m` is an element of `xs` and no element exceeds it. */
  predicate IsMax(xs: seq<real>, m: real) {
    m in xs && forall i :: 0 <= i < |xs| ==> xs[i] <= m
  }

  /** `m` is an element of `xs` and no element is below it. */
  predicate IsMin(xs: seq<real>, m: real) {
    m in xs && forall i :: 0 <= i < |xs| ==> m <= xs[i]
  }

  function MaxOf(xs: seq<real>): (m: real)
    requires xs != []
    ensures IsMax(xs, m)
  {
    if |xs| == 1 then xs[0]
    else
      var t := MaxOf(xs[1..]);
      assert forall i :: 1 <= i < |xs| ==> xs[i] == xs[1..][i - 1];
      if xs[0] >= t then xs[0] else t
  }

  function MinOf(xs: seq<real>): (m: real)
    requires xs != []
    ensures IsMin(xs, m)
  {
    if |xs| == 1 then xs[0]
    else
      var t := MinOf(xs[1..]);
      assert forall i :: 1 <= i < |xs| ==> xs[i] == xs[1..][i - 1];
      if xs[0] <= t then xs[0] else t
  }

  /** The middle of an ascending sequence. */
  function Middle(s: seq<real>): real
    requires s != []
  {
    var n := |s|;
    if n % 2 == 1 then s[n / 2] else (s[n / 2 - 1] + s[n / 2]) / 2.0
  }

  /** `statistics.median`: the middle element of the sorted data, or the
      mean of the two middle elements when the count is even. */
  function Median(xs: seq<real>): (m: real)
    requires xs != []
    ensures MinOf(xs) <= m <= MaxOf(xs)
  {
    RealLeIsPreorder();
    var s := SortBy(xs, RealLe);
    MedianWithinRange(xs, s);
    Middle(s)
  }

  lemma MedianWithinRange(xs: seq<real>, s: seq<real>)
    requires xs != [] && multiset(s) == multiset(xs) && SortedBy(s, RealLe)
    ensures |s| == |xs|
    ensures forall i :: 0 <= i < |s| ==> MinOf(xs) <= s[i] <= MaxOf(xs)
  {
    assert |s| == |multiset(s)| == |multiset(xs)| == |xs|;
    forall i | 0 <= i < |s|
      ensures MinOf(xs) <= s[i] <= MaxOf(xs)
    {
      assert s[i] in multiset(xs);
    }
  }

  /** The median depends only on the collection of values, not on their
      order. */
  lemma MedianIgnoresOrder(xs: seq<real>, ys: seq<real>)
    requires xs != [] && multiset(xs) == multiset(ys)
    ensures ys != []
    ensures Median(xs) == Median(ys)
  {
    assert |ys| == |multiset(ys)| == |multiset(xs)| == |xs|;
    RealLeIsPreorder();
    var s := SortBy(xs, RealLe);
    var t := SortBy(ys, RealLe);
    SortedRealsUnique(s, t);
    assert Median(xs) == Middle(s);
    assert Median(ys) == Middle(t);
  }

  // ---------------------------------------------------------------------
  // Order statistics

  /** The number of elements of `xs` that satisfy `p`. */
  function CountIf(xs: seq<real>, p: real -> bool): (n: nat)
    ensures n <= |xs|
  {
    if xs == [] then 0 else (if p(xs[0]) then 1 else 0) + CountIf(xs[1..], p)
  }

  function LessThan(v: real): real -> bool {
    x => x < v
  }

  function AtMost(v: real): real -> bool {
    x => x <= v
  }

  /** `v` is the `k`-th smallest element of `xs`, counting from 1: fewer
      than `k` elements are below it and at least `k` are at most it. */
  predicate IsKthSmallest(xs: seq<real>, k: nat, v: real) {
    CountIf(xs, LessThan(v)) < k <= CountIf(xs, AtMost(v))
  }

  lemma {:induction false} CountAppend(a: seq<real>, b: seq<real>, p: real -> bool)
    ensures CountIf(a + b, p) == CountIf(a, p) + CountIf(b, p)
    decreases |a|
  {
    if a == [] {
      assert a + b == b;
    } else {
      assert (a + b)[0] == a[0];
      assert (a + b)[1..] == a[1..] + b;
      CountAppend(a[1..], b, p);
    }
  }

  /** Taking out the element at index `j`. */
  lemma RemoveAt<T>(ys: seq<T>, j: nat)
    requires j < |ys|
    ensures ys == ys[..j] + [ys[j]] + ys[j + 1..]
    ensures multiset(ys[..j] + ys[j + 1..]) == multiset(ys) - multiset{ys[j]}
  {
    assert ys == ys[..j] + [ys[j]] + ys[j + 1..];
  }

  lemma CountAround(ys: seq<real>, j: nat, p: real -> bool)
    requires j < |ys|
    ensures CountIf(ys, p) == CountIf(ys[..j] + ys[j + 1..], p) + (if p(ys[j]) then 1 else 0)
  {
    RemoveAt(ys, j);
    CountAppend(ys[..j] + [ys[j]], ys[j + 1..], p);
    CountAppend(ys[..j], [ys[j]], p);
    CountAppend(ys[..j], ys[j + 1..], p);
  }

  /** Where the first element of `xs` sits in a permutation `ys`, and what
      is left of both once it is taken out. */
  lemma MatchFirst(xs: seq<real>, ys: seq<real>) returns (j: nat)
    requires xs != [] && multiset(xs) == multiset(ys)
    ensures j < |ys| && ys[j] == xs[0]
    ensures multiset(xs[1..]) == multiset(ys[..j] + ys[j + 1..])
  {
    assert xs[0] in multiset(ys);
    j :| 0 <= j < |ys| && ys[j] == xs[0];
    RemoveAt(ys, j);
    assert xs == [xs[0]] + xs[1..];
  }

  /** Counting does not depend on the order of the elements. */
  lemma {:induction false} CountPermutation(xs: seq<real>, ys: seq<real>, p: real -> bool)
    requires multiset(xs) == multiset(ys)
    ensures CountIf(xs, p) == CountIf(ys, p)
    decreases |xs|
  {
    if xs == [] {
      assert |ys| == |multiset(ys)| == 0;
    } else {
      var j := MatchFirst(xs, ys);
      CountPermutation(xs[1..], ys[..j] + ys[j + 1..], p);
      CountAround(ys, j, p);
    }
  }

  lemma {:induction false} CountAtMostAll(xs: seq<real>, v: real)
    requires forall i :: 0 <= i < |xs| ==> xs[i] <= v
    ensures CountIf(xs, AtMost(v)) == |xs|
    decreases |xs|
  {
    if xs != [] {
      CountAtMostAll(xs[1..], v);
    }
  }

  lemma {:induction false} CountLessThanNone(xs: seq<real>, v: real)
    requires forall i :: 0 <= i < |xs| ==> v <= xs[i]
    ensures CountIf(xs, LessThan(v)) == 0
    decreases |xs|
  {
    if xs != [] {
      CountLessThanNone(xs[1..], v);
    }
  }

  /** Every element at most `v` is below a larger `w`. */
  lemma {:induction false} CountAtMostLessThan(xs: seq<real>, v: real, w: real)
    requires v < w
    ensures CountIf(xs, AtMost(v)) <= CountIf(xs, LessThan(w))
    decreases |xs|
  {
    if xs != [] {
      CountAtMostLessThan(xs[1..], v, w);
    }
  }

  /** The `k`-th smallest element is unique. */
  lemma KthSmallestUnique(xs: seq<real>, k: nat, v: real, w: real)
    requires IsKthSmallest(xs, k, v) && IsKthSmallest(xs, k, w)
    ensures v == w
  {
    if v < w {
      CountAtMostLessThan(xs, v, w);
    } else if w < v {
      CountAtMostLessThan(xs, w, v);
    }
  }

  /** In an ascending sequence the element at index `i` is the `(i+1)`-th
      smallest. */
  lemma SortedKth(s: seq<real>, i: nat)
    requires SortedBy(s, RealLe) && i < |s|
    ensures IsKthSmallest(s, i + 1, s[i])
  {
    var v := s[i];
    var lo, hi := s[..i + 1], s[i..];
    assert s == s[..i] + hi;
    CountAppend(s[..i], hi, LessThan(v));
    forall j | 0 <= j < |hi| ensures v <= hi[j] {
      assert j == 0 || RealLe(s[i], s[i + j]);
    }
    CountLessThanNone(hi, v);
    assert s == lo + s[i + 1..];
    CountAppend(lo, s[i + 1..], AtMost(v));
    forall j | 0 <= j < |lo| ensures lo[j] <= v {
      assert j == i || RealLe(s[j], s[i]);
    }
    CountAtMostAll(lo, v);
  }

  lemma KthOfPermutation(xs: seq<real>, s: seq<real>, k: nat, v: real)
    requires multiset(s) == multiset(xs) && IsKthSmallest(s, k, v)
    ensures IsKthSmallest(xs, k, v)
  {
    CountPermutation(s, xs, LessThan(v));
    CountPermutation(s, xs, AtMost(v));
  }

  /** `m` is the mean of a `k1`-th and a `k2`-th smallest element. */
  ghost predicate MeanOfKth(xs: seq<real>, k1: nat, k2: nat, m: real) {
    exists a, b :: IsKthSmallest(xs, k1, a) && IsKthSmallest(xs, k2, b) && m == (a + b) / 2.0
  }

  /** The middle of an ascending sequence is its middle order statistic. */
  lemma MiddleOfSorted(s: seq<real>)
    requires s != [] && SortedBy(s, RealLe)
    ensures IsMiddleValue(s, Middle(s))
  {
    var n := |s|;
    SortedKth(s, n / 2);
    if n % 2 == 0 {
      SortedKth(s, n / 2 - 1);
      assert IsKthSmallest(s, n / 2, s[n / 2 - 1]);
    }
  }

  lemma MeanOfKthOfPermutation(xs: seq<real>, s: seq<real>, k1: nat, k2: nat, m: real)
    requires multiset(s) == multiset(xs) && MeanOfKth(s, k1, k2, m)
    ensures MeanOfKth(xs, k1, k2, m)
  {
    var a, b :| IsKthSmallest(s, k1, a) && IsKthSmallest(s, k2, b) && m == (a + b) / 2.0;
    KthOfPermutation(xs, s, k1, a);
    KthOfPermutation(xs, s, k2, b);
  }

  lemma MiddleValueOfPermutation(xs: seq<real>, s: seq<real>, m: real)
    requires multiset(s) == multiset(xs) && IsMiddleValue(s, m)
    ensures IsMiddleValue(xs, m)
  {
    var n := |s|;
    assert n == |multiset(s)| == |xs|;
    if n % 2 == 1 {
      KthOfPermutation(xs, s, n / 2 + 1, m);
    } else {
      MeanOfKthOfPermutation(xs, s, n / 2, n / 2 + 1, m);
    }
  }

  /** The sorted data `Median` takes the middle of. */
  lemma MedianSorted(xs: seq<real>) returns (s: seq<real>)
    requires xs != []
    ensures s != [] && |s| == |xs| && SortedBy(s, RealLe)
    ensures multiset(s) == multiset(xs) && Median(xs) == Middle(s)
  {
    RealLeIsPreorder();
    s := SortBy(xs, RealLe);
    MedianWithinRange(xs, s);
  }

  /** `m` is the middle order statistic of `xs`: for an odd count `n` the
      `(n/2+1)`-th smallest value, for an even count the mean of the
      `(n/2)`-th and `(n/2+1)`-th smallest values. With `KthSmallestUnique`
      at most one value qualifies. */
  ghost predicate IsMiddleValue(xs: seq<real>, m: real) {
    && (|xs| % 2 == 1 ==> IsKthSmallest(xs, |xs| / 2 + 1, m))
    && (|xs| % 2 == 0 ==> MeanOfKth(xs, |xs| / 2, |xs| / 2 + 1, m))
  }

  /** The median is the middle order statistic of the data. */
  lemma MedianIsMiddle(xs: seq<real>)
    requires xs != []
    ensures IsMiddleValue(xs, Median(xs))
  {
    var s := MedianSorted(xs);
    MiddleOfSorted(s);
    MiddleValueOfPermutation(xs, s, Middle(s));
  }
}
