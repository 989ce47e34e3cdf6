/** Running headers and footers (`detect_repeated`): a lower-cased line
    text that occurs on at least 40% of the pages. Several occurrences on one
    page count once. */
module Repetition {
  import opened Chars
  import opened Records

  /** The default `min_frac`. */
  const MinFrac: real := 0.4

  /** `max(page) + 1`, or 0 for no lines. */
  function PageCount(lines: seq<Line>): (n: nat)
    ensures forall i :: 0 <= i < |lines| ==> lines[i].page < n
    ensures n == 0 <==> lines == []
    ensures n > 0 ==> exists i :: 0 <= i < |lines| && lines[i].page == n - 1
  {
    if lines == [] then 0
    else
      var rest := PageCount(lines[1..]);
      assert forall i :: 1 <= i < |lines| ==> lines[i] == lines[1..][i - 1];
      if lines[0].page + 1 >= rest then lines[0].page + 1 else rest
  }

  /** The key a line is counted under. */
  function Key(ln: Line): string {
    Lower(ln.text)
  }

  /** The (page, key) pairs of the first `n` lines. */
  function Seen(lines: seq<Line>, n: nat): set<(nat, string)>
    requires n <= |lines|
  {
    set j | 0 <= j < n :: (lines[j].page, Key(lines[j]))
  }

  /** The pages among the first `n` lines that hold a line with key `key`. */
  function PagesWith(lines: seq<Line>, n: nat, key: string): set<nat>
    requires n <= |lines|
  {
    set j | 0 <= j < n && Key(lines[j]) == key :: lines[j].page
  }

  /** The count of `key`, 0 when the counter has never seen it. */
  function Count(counts: map<string, nat>, key: string): nat {
    if key in counts then counts[key] else 0
  }

  /** Every counter entry is the number of distinct pages of its key. */
  ghost predicate CountsPages(lines: seq<Line>, n: nat, counts: map<string, nat>)
    requires n <= |lines|
  {
    forall key :: Count(counts, key) == |PagesWith(lines, n, key)|
  }

  /** The counting loop of `detect_repeated` from line `i` on, with the
      (page, key) pairs `seen` so far and the per-key page counts. */
  function Tally(lines: seq<Line>, i: nat, seen: set<(nat, string)>, counts: map<string, nat>): (r: map<string, nat>)
    requires i <= |lines|
    requires seen == Seen(lines, i) && CountsPages(lines, i, counts)
    ensures CountsPages(lines, |lines|, r)
    decreases |lines| - i
  {
    if i == |lines| then counts
    else
      var key := Key(lines[i]);
      if (lines[i].page, key) in seen then
        SeenStep(lines, i);
        PagesStepSeen(lines, i);
        Tally(lines, i + 1, seen, counts)
      else
        SeenStep(lines, i);
        PagesStepNew(lines, i, counts);
        Tally(lines, i + 1, seen + {(lines[i].page, key)}, counts[key := Count(counts, key) + 1])
  }

  lemma SeenStep(lines: seq<Line>, i: nat)
    requires i < |lines|
    ensures Seen(lines, i + 1) == Seen(lines, i) + {(lines[i].page, Key(lines[i]))}
  {
  }

  /** A page is among the pages of a key exactly when the pair was seen. */
  lemma PagesWithSeen(lines: seq<Line>, n: nat, p: nat, key: string)
    requires n <= |lines|
    ensures p in PagesWith(lines, n, key) <==> (p, key) in Seen(lines, n)
  {
    if (p, key) in Seen(lines, n) {
      var j :| 0 <= j < n && (lines[j].page, Key(lines[j])) == (p, key);
      assert lines[j].page in PagesWith(lines, n, key);
    }
  }

  lemma PagesStepSeen(lines: seq<Line>, i: nat)
    requires i < |lines| && (lines[i].page, Key(lines[i])) in Seen(lines, i)
    ensures forall key :: PagesWith(lines, i + 1, key) == PagesWith(lines, i, key)
  {
    PagesWithSeen(lines, i, lines[i].page, Key(lines[i]));
    forall key ensures PagesWith(lines, i + 1, key) == PagesWith(lines, i, key) {
      if key == Key(lines[i]) {
        assert PagesWith(lines, i + 1, key) == PagesWith(lines, i, key) + {lines[i].page};
      } else {
        assert PagesWith(lines, i + 1, key) == PagesWith(lines, i, key);
      }
    }
  }

  lemma PagesStepNew(lines: seq<Line>, i: nat, counts: map<string, nat>)
    requires i < |lines| && (lines[i].page, Key(lines[i])) !in Seen(lines, i)
    requires CountsPages(lines, i, counts)
    ensures CountsPages(lines, i + 1, counts[Key(lines[i]) := Count(counts, Key(lines[i])) + 1])
  {
    var k := Key(lines[i]);
    var p := lines[i].page;
    PagesWithSeen(lines, i, p, k);
    assert PagesWith(lines, i + 1, k) == PagesWith(lines, i, k) + {p};
    var c := counts[k := Count(counts, k) + 1];
    forall key ensures Count(c, key) == |PagesWith(lines, i + 1, key)| {
      if key != k {
        assert PagesWith(lines, i + 1, key) == PagesWith(lines, i, key);
      }
    }
  }

  /** Reaching the threshold: at least `MinFrac` of the pages. */
  predicate Frequent(pages: nat, count: nat) {
    count as real >= pages as real * MinFrac
  }

  /** `detect_repeated(lines)`: no repeated text in a document of one page
      or none; otherwise exactly the keys found on at least 40% of the
      pages. */
  function DetectRepeated(lines: seq<Line>): (r: set<string>)
    ensures PageCount(lines) <= 1 ==> r == {}
    ensures PageCount(lines) > 1 ==>
      forall key :: key in r <==> Frequent(PageCount(lines), |PagesWith(lines, |lines|, key)|)
  {
    var pages := PageCount(lines);
    if pages <= 1 then {}
    else
      var counts := Tally(lines, 0, {}, map[]);
      RepeatedKeysCounted(lines, counts);
      set key | key in counts && Frequent(pages, counts[key])
  }

  /** A key that reaches the threshold of a multi-page document has been
      counted. */
  lemma RepeatedKeysCounted(lines: seq<Line>, counts: map<string, nat>)
    requires PageCount(lines) > 1 && CountsPages(lines, |lines|, counts)
    ensures forall key :: Frequent(PageCount(lines), |PagesWith(lines, |lines|, key)|) ==> key in counts
  {
  }

  // ---------------------------------------------------------------------
  // Properties

  /** The page count is determined by the (page, key) pairs. */
  lemma PageCountFromSeen(a: seq<Line>, b: seq<Line>)
    requires Seen(a, |a|) == Seen(b, |b|)
    ensures PageCount(a) == PageCount(b)
  {
    var na, nb := PageCount(a), PageCount(b);
    if na > 0 {
      var i :| 0 <= i < |a| && a[i].page == na - 1;
      assert (a[i].page, Key(a[i])) in Seen(a, |a|);
      var j :| 0 <= j < |b| && (b[j].page, Key(b[j])) == (a[i].page, Key(a[i]));
    }
    if nb > 0 {
      var j :| 0 <= j < |b| && b[j].page == nb - 1;
      assert (b[j].page, Key(b[j])) in Seen(b, |b|);
      var i :| 0 <= i < |a| && (a[i].page, Key(a[i])) == (b[j].page, Key(b[j]));
    }
  }

  /** The repeated texts depend only on which keys occur on which pages:
      neither the order of the lines nor a second occurrence of a text on
      the same page changes them. */
  lemma RepeatedDependsOnPairs(a: seq<Line>, b: seq<Line>)
    requires Seen(a, |a|) == Seen(b, |b|)
    ensures DetectRepeated(a) == DetectRepeated(b)
  {
    PageCountFromSeen(a, b);
    forall key ensures PagesWith(a, |a|, key) == PagesWith(b, |b|, key) {
      forall p ensures p in PagesWith(a, |a|, key) <==> p in PagesWith(b, |b|, key) {
        PagesWithSeen(a, |a|, p, key);
        PagesWithSeen(b, |b|, p, key);
      }
    }
  }

  /** The page numbers below `n`. */
  function PagesUpTo(n: nat): (r: set<nat>)
    ensures |r| == n
    ensures forall p: nat :: p in r <==> p < n
  {
    if n == 0 then {} else PagesUpTo(n - 1) + {n - 1}
  }

  lemma {:induction false} SubsetCard(a: set<nat>, b: set<nat>)
    requires a <= b
    ensures |a| <= |b|
    decreases |a|
  {
    if a != {} {
      var x :| x in a;
      SubsetCard(a - {x}, b - {x});
    }
  }

  /** A text found on every page of a multi-page document is repeated. */
  lemma OnEveryPageIsRepeated(lines: seq<Line>, key: string)
    requires PageCount(lines) > 1
    requires forall p: nat :: p < PageCount(lines) ==> p in PagesWith(lines, |lines|, key)
    ensures key in DetectRepeated(lines)
  {
    var n := PageCount(lines);
    SubsetCard(PagesUpTo(n), PagesWith(lines, |lines|, key));
  }
}
