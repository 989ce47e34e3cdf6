/** Order-preserving selections from a sequence, described by the indices
    they keep. Filtering loops of the original (`[x for x in xs if p(x)]`,
    `for x in xs: if p(x): out.append(x)`) are selections. */
module Indices {

  predicate Increasing(ix: seq<nat>) {
    forall a, b :: 0 <= a < b < |ix| ==> ix[a] < ix[b]
  }

  /** Every index is below `n`. */
  predicate Below(ix: seq<nat>, n: nat) {
    forall m :: 0 <= m < |ix| ==> ix[m] < n
  }

  /** The indices from `from` up to `n` that satisfy `keep`, in order:
      each kept index satisfies `keep` and every index that satisfies it is
      kept. */
  function Select(n: nat, from: nat, keep: nat -> bool): (ix: seq<nat>)
    requires from <= n
    ensures Increasing(ix) && Below(ix, n)
    ensures forall m :: 0 <= m < |ix| ==> from <= ix[m] && keep(ix[m])
    ensures forall j: nat :: from <= j < n && keep(j) ==> j in ix
    decreases n - from
  {
    if from == n then []
    else
      var rest := Select(n, from + 1, keep);
      if keep(from) then
        SelectCons(n, from, keep, rest);
        [from] + rest
      else rest
  }

  /** Putting the kept index `from` in front of the selection above it. */
  lemma SelectCons(n: nat, from: nat, keep: nat -> bool, rest: seq<nat>)
    requires from < n && keep(from)
    requires Increasing(rest) && Below(rest, n)
    requires forall m :: 0 <= m < |rest| ==> from + 1 <= rest[m] && keep(rest[m])
    requires forall j: nat :: from + 1 <= j < n && keep(j) ==> j in rest
    ensures var ix := [from] + rest;
      && Increasing(ix) && Below(ix, n)
      && (forall m :: 0 <= m < |ix| ==> from <= ix[m] && keep(ix[m]))
      && (forall j: nat :: from <= j < n && keep(j) ==> j in ix)
  {
    var ix := [from] + rest;
    assert forall m :: 0 < m < |ix| ==> ix[m] == rest[m - 1];
  }

  /** The elements at the given indices. */
  function Pick<T>(xs: seq<T>, ix: seq<nat>): (ys: seq<T>)
    requires Below(ix, |xs|)
    ensures |ys| == |ix| && forall m :: 0 <= m < |ix| ==> ys[m] == xs[ix[m]]
  {
    seq(|ix|, m requires 0 <= m < |ix| => xs[ix[m]])
  }

  /** An increasing selection is determined by the set of indices it keeps. */
  lemma {:induction false} IncreasingUnique(a: seq<nat>, b: seq<nat>)
    requires Increasing(a) && Increasing(b)
    requires forall j :: j in a <==> j in b
    ensures a == b
    decreases |a|
  {
    assert b != [] ==> b[0] in b;
    if a != [] {
      assert a[0] in b;
      assert b != [];
      assert b[0] in a;
      assert a[0] == b[0] by {
        var i :| 0 <= i < |b| && b[i] == a[0];
        var j :| 0 <= j < |a| && a[j] == b[0];
      }
      forall j ensures j in a[1..] <==> j in b[1..] {
        if j in a[1..] {
          TailMember(a, b, j);
        }
        if j in b[1..] {
          TailMember(b, a, j);
        }
      }
      IncreasingUnique(a[1..], b[1..]);
    }
  }

  lemma TailMember(a: seq<nat>, b: seq<nat>, j: nat)
    requires Increasing(a) && Increasing(b) && a != [] && b != [] && a[0] == b[0]
    requires forall x :: x in a <==> x in b
    requires j in a[1..]
    ensures j in b[1..]
  {
    var i :| 1 <= i < |a| && a[i] == j;
    assert j in a;
    var k :| 0 <= k < |b| && b[k] == j;
    assert k != 0;
    assert b[1..][k - 1] == j;
  }

  /** `ys` is the subsequence of `xs` at exactly the indices that satisfy
      `keep`, in their original order. */
  ghost predicate IsSelection<T>(xs: seq<T>, ys: seq<T>, keep: nat -> bool) {
    exists ix :: Increasing(ix) && Below(ix, |xs|) && ys == Pick(xs, ix)
      && forall j: nat :: j in ix <==> j < |xs| && keep(j)
  }

  lemma SelectIsSelection<T>(xs: seq<T>, keep: nat -> bool)
    ensures IsSelection(xs, Pick(xs, Select(|xs|, 0, keep)), keep)
  {
    var ix := Select(|xs|, 0, keep);
    forall j: nat ensures j in ix <==> j < |xs| && keep(j) {
      if j in ix {
        var m :| 0 <= m < |ix| && ix[m] == j;
      }
    }
  }

  /** The selection is determined by `keep`: selecting is a function of the
      sequence and the test. */
  lemma SelectionUnique<T>(xs: seq<T>, ys: seq<T>, zs: seq<T>, keep: nat -> bool)
    requires IsSelection(xs, ys, keep) && IsSelection(xs, zs, keep)
    ensures ys == zs
  {
    var a :| Increasing(a) && Below(a, |xs|) && ys == Pick(xs, a)
      && forall j: nat :: j in a <==> j < |xs| && keep(j);
    var b :| Increasing(b) && Below(b, |xs|) && zs == Pick(xs, b)
      && forall j: nat :: j in b <==> j < |xs| && keep(j);
    IncreasingUnique(a, b);
  }

  /** An increasing selection below `n` has at most `n` entries. */
  lemma {:induction false} IncreasingBelowLength(ix: seq<nat>, n: nat)
    requires Increasing(ix) && Below(ix, n)
    ensures |ix| <= n
    decreases |ix|
  {
    if ix != [] {
      var last := ix[|ix| - 1];
      var init := ix[..|ix| - 1];
      assert Below(init, last) by {
        forall m | 0 <= m < |init| ensures init[m] < last {
          assert init[m] == ix[m];
        }
      }
      IncreasingBelowLength(init, last);
    }
  }

  /** A selection has at most as many elements as its source. */
  lemma SelectedCount<T>(xs: seq<T>, keep: nat -> bool)
    ensures |Pick(xs, Select(|xs|, 0, keep))| <= |xs|
  {
    IncreasingBelowLength(Select(|xs|, 0, keep), |xs|);
  }

  /** The `m`-th selected element sits at a kept index of the source. */
  lemma SelectedSource<T>(xs: seq<T>, keep: nat -> bool, m: nat) returns (j: nat)
    requires m < |Select(|xs|, 0, keep)|
    ensures j < |xs| && keep(j) && Pick(xs, Select(|xs|, 0, keep))[m] == xs[j]
  {
    j := Select(|xs|, 0, keep)[m];
  }

  /** The element at a kept index is selected. */
  lemma SelectedTarget<T>(xs: seq<T>, keep: nat -> bool, j: nat)
    requires j < |xs| && keep(j)
    ensures xs[j] in Pick(xs, Select(|xs|, 0, keep))
  {
    var ix := Select(|xs|, 0, keep);
    var m :| 0 <= m < |ix| && ix[m] == j;
    assert Pick(xs, ix)[m] == xs[j];
  }
}
