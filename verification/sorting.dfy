/** Insertion sort on sequences, parameterised by a total preorder. It stands
    for Python's `sorted` with a key: the result is ordered, is a
    permutation of the input, and is stable. */
module Sorting {

  /** `le` is total and transitive, as a comparison of sort keys is. */
  ghost predicate TotalPreorder<T(!new)>(le: (T, T) -> bool) {
    && (forall a, b :: le(a, b) || le(b, a))
    && (forall a, b, c :: le(a, b) && le(b, c) ==> le(a, c))
  }

  predicate SortedBy<T>(s: seq<T>, le: (T, T) -> bool) {
    forall i, j :: 0 <= i < j < |s| ==> le(s[i], s[j])
  }

  /** Inserts `x` before the first element whose key is at least its own,
      so it goes in front of the elements it ties with (`InsertByTies`). */
  function InsertBy<T(!new)>(x: T, s: seq<T>, le: (T, T) -> bool): (r: seq<T>)
    requires TotalPreorder(le) && SortedBy(s, le)
    ensures multiset(r) == multiset(s) + multiset{x}
    ensures SortedBy(r, le)
  {
    if s == [] then [x]
    else if le(x, s[0]) then
      InsertFront(x, s, le);
      [x] + s
    else
      var t := InsertBy(x, s[1..], le);
      InsertAfterHead(x, s, t, le);
      [s[0]] + t
  }

  lemma InsertFront<T(!new)>(x: T, s: seq<T>, le: (T, T) -> bool)
    requires TotalPreorder(le) && SortedBy(s, le)
    requires s != [] && le(x, s[0])
    ensures SortedBy([x] + s, le)
  {
    forall i, j | 0 <= i < j < |[x] + s|
      ensures le(([x] + s)[i], ([x] + s)[j])
    {
      if i == 0 && j > 1 {
        assert le(s[0], s[j - 1]);
      }
    }
  }

  lemma InsertAfterHead<T(!new)>(x: T, s: seq<T>, t: seq<T>, le: (T, T) -> bool)
    requires TotalPreorder(le) && SortedBy(s, le)
    requires s != [] && !le(x, s[0])
    requires multiset(t) == multiset(s[1..]) + multiset{x} && SortedBy(t, le)
    ensures SortedBy([s[0]] + t, le)
    ensures multiset([s[0]] + t) == multiset(s) + multiset{x}
  {
    assert s == [s[0]] + s[1..];
    forall j | 0 <= j < |t|
      ensures le(s[0], t[j])
    {
      assert t[j] in multiset(t);
      if t[j] != x {
        assert t[j] in multiset(s[1..]);
        var k :| 0 <= k < |s[1..]| && s[1..][k] == t[j];
        assert s[k + 1] == t[j];
      }
    }
    forall i, j | 0 <= i < j < |[s[0]] + t|
      ensures le(([s[0]] + t)[i], ([s[0]] + t)[j])
    {
      if i == 0 {
        assert ([s[0]] + t)[j] == t[j - 1];
      } else {
        assert ([s[0]] + t)[i] == t[i - 1] && ([s[0]] + t)[j] == t[j - 1];
      }
    }
  }

  /** `sorted(s, key=...)`: an ordered permutation of `s`. */
  function SortBy<T(!new)>(s: seq<T>, le: (T, T) -> bool): (r: seq<T>)
    requires TotalPreorder(le)
    ensures multiset(r) == multiset(s)
    ensures SortedBy(r, le)
  {
    if s == [] then []
    else
      assert s == [s[0]] + s[1..];
      InsertBy(s[0], SortBy(s[1..], le), le)
  }

  predicate RealLe(a: real, b: real) {
    a <= b
  }

  lemma RealLeIsPreorder()
    ensures TotalPreorder(RealLe)
  {
  }

  lemma SortedTail<T>(s: seq<T>, le: (T, T) -> bool)
    requires s != [] && SortedBy(s, le)
    ensures SortedBy(s[1..], le)
  {
    forall i, j | 0 <= i < j < |s[1..]|
      ensures le(s[1..][i], s[1..][j])
    {
      assert s[1..][i] == s[i + 1] && s[1..][j] == s[j + 1];
    }
  }

  /** The first element of an ascending sequence is its least element. */
  lemma SortedHeadIsLeast(s: seq<real>, x: real)
    requires s != [] && SortedBy(s, RealLe) && x in multiset(s)
    ensures s[0] <= x
  {
    var i :| 0 <= i < |s| && s[i] == x;
    assert i == 0 || RealLe(s[0], s[i]);
  }

  /** Two ascending sequences of reals with the same elements start alike
      and agree on the elements after the first. */
  lemma SortedRealsSameHead(a: seq<real>, b: seq<real>)
    requires a != [] && SortedBy(a, RealLe) && SortedBy(b, RealLe)
    requires multiset(a) == multiset(b)
    ensures b != [] && a[0] == b[0]
    ensures multiset(a[1..]) == multiset(b[1..])
  {
    assert |b| == |multiset(b)| == |multiset(a)| == |a|;
    SortedHeadIsLeast(a, b[0]);
    SortedHeadIsLeast(b, a[0]);
    assert a == [a[0]] + a[1..];
    assert b == [b[0]] + b[1..];
    assert multiset(a[1..]) == multiset(a) - multiset{a[0]};
    assert multiset(b[1..]) == multiset(b) - multiset{b[0]};
  }

  /** Two ascending sequences of reals with the same elements are equal: the
      sorted form of a collection does not depend on the input order. */
  lemma {:induction false} SortedRealsUnique(a: seq<real>, b: seq<real>)
    requires SortedBy(a, RealLe) && SortedBy(b, RealLe)
    requires multiset(a) == multiset(b)
    ensures a == b
    decreases |a|
  {
    if a == [] {
      assert |b| == |multiset(b)| == 0;
    } else {
      SortedRealsSameHead(a, b);
      SortedTail(a, RealLe);
      SortedTail(b, RealLe);
      SortedRealsUnique(a[1..], b[1..]);
      assert a == [a[0]] + a[1..];
      assert b == [b[0]] + b[1..];
    }
  }

  // ---------------------------------------------------------------------
  // Stability

  /** The elements of `s` whose key ties with that of `k`, in their order
      in `s`. */
  function TiesWith<T>(s: seq<T>, le: (T, T) -> bool, k: T): seq<T> {
    if s == [] then []
    else (if le(s[0], k) && le(k, s[0]) then [s[0]] else []) + TiesWith(s[1..], le, k)
  }

  lemma TiesWithCons<T>(x: T, s: seq<T>, le: (T, T) -> bool, k: T)
    ensures TiesWith([x] + s, le, k) == TiesWith([x], le, k) + TiesWith(s, le, k)
  {
    assert ([x] + s)[0] == x && ([x] + s)[1..] == s;
  }

  /** Inserting `x` puts it before every element whose key ties with its
      own, and leaves the order of the others alone. */
  lemma {:induction false} InsertByTies<T(!new)>(x: T, s: seq<T>, le: (T, T) -> bool, k: T)
    requires TotalPreorder(le) && SortedBy(s, le)
    ensures TiesWith(InsertBy(x, s, le), le, k) == TiesWith([x], le, k) + TiesWith(s, le, k)
    decreases |s|
  {
    if s != [] {
      assert s == [s[0]] + s[1..];
      if le(x, s[0]) {
        TiesWithCons(x, s, le, k);
      } else {
        SortedTail(s, le);
        var t := InsertBy(x, s[1..], le);
        InsertByTies(x, s[1..], le, k);
        TiesWithCons(s[0], t, le, k);
        TiesWithCons(s[0], s[1..], le, k);
        assert !(le(x, k) && le(k, s[0]));
      }
    }
  }

  /** `sorted` is stable: the elements whose keys tie keep their input
      order. */
  lemma {:induction false} SortByStable<T(!new)>(s: seq<T>, le: (T, T) -> bool, k: T)
    requires TotalPreorder(le)
    ensures TiesWith(SortBy(s, le), le, k) == TiesWith(s, le, k)
    decreases |s|
  {
    if s != [] {
      SortByStable(s[1..], le, k);
      InsertByTies(s[0], SortBy(s[1..], le), le, k);
      TiesWithCons(s[0], s[1..], le, k);
      assert s == [s[0]] + s[1..];
    }
  }
}
