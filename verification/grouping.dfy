/** Grouping segments into visual lines (`group_segments_to_lines` and
    `_finalize_line` in main.py). */
module Grouping {
  import opened Chars
  import opened Text
  import opened Sorting
  import opened Stats
  import opened Records

  /** Default tolerances of `group_segments_to_lines`. */
  const YTol: real := 3.0
  const FontTol: real := 1.0

  function Abs(x: real): real {
    if x < 0.0 then -x else x
  }

  /** The sort key (page, y, x) of the segments, as an order. */
  predicate ReadingOrder(a: Segment, b: Segment) {
    a.page < b.page || (a.page == b.page && (a.y < b.y || (a.y == b.y && a.x <= b.x)))
  }

  lemma ReadingOrderIsPreorder()
    ensures TotalPreorder(ReadingOrder)
  {
  }

  /** `s` extends a group whose last member is `last`: same page, and the
      vertical position and the font size each within their tolerance. */
  predicate Continues(last: Segment, s: Segment, yTol: real, fontTol: real) {
    && s.page == last.page
    && Abs(s.y - last.y) <= yTol
    && Abs(s.font - last.font) <= fontTol
  }

  /** Every member of `g` continues the one before it. */
  predicate Chained(g: seq<Segment>, yTol: real, fontTol: real) {
    forall j :: 0 < j < |g| ==> Continues(g[j - 1], g[j], yTol, fontTol)
  }

  /** Every group is non-empty and chained. */
  predicate AllChained(gs: seq<seq<Segment>>, yTol: real, fontTol: real) {
    forall i :: 0 <= i < |gs| ==> gs[i] != [] && Chained(gs[i], yTol, fontTol)
  }

  /** At every boundary the first member of a group does not continue the
      last member of the group before it. */
  predicate Separated(gs: seq<seq<Segment>>, yTol: real, fontTol: real)
    requires forall i :: 0 <= i < |gs| ==> gs[i] != []
  {
    forall i :: 0 < i < |gs| ==> !Continues(gs[i - 1][|gs[i - 1]| - 1], gs[i][0], yTol, fontTol)
  }

  function Flatten<T>(gs: seq<seq<T>>): seq<T> {
    if gs == [] then [] else gs[0] + Flatten(gs[1..])
  }

  lemma FlattenCons<T>(g: seq<T>, gs: seq<seq<T>>)
    ensures Flatten([g] + gs) == g + Flatten(gs)
  {
    assert ([g] + gs)[1..] == gs;
  }

  /** The streaming merge: `cur` is the open group, `rest` the segments not
      yet seen. */
  function GroupFrom(cur: seq<Segment>, rest: seq<Segment>, yTol: real, fontTol: real): (gs: seq<seq<Segment>>)
    requires cur != [] && Chained(cur, yTol, fontTol)
    ensures gs != [] && AllChained(gs, yTol, fontTol)
    ensures Separated(gs, yTol, fontTol)
    ensures Flatten(gs) == cur + rest
    ensures |gs[0]| >= |cur| && gs[0][..|cur|] == cur
    decreases |rest|
  {
    if rest == [] then
      assert Flatten([cur]) == cur + [];
      [cur]
    else if Continues(cur[|cur| - 1], rest[0], yTol, fontTol) then
      var gs := GroupFrom(cur + [rest[0]], rest[1..], yTol, fontTol);
      ExtendStep(cur, rest, gs);
      gs
    else
      var tail := GroupFrom([rest[0]], rest[1..], yTol, fontTol);
      CloseStep(cur, rest, tail, yTol, fontTol);
      [cur] + tail
  }

  lemma ExtendStep(cur: seq<Segment>, rest: seq<Segment>, gs: seq<seq<Segment>>)
    requires cur != [] && rest != [] && gs != []
    requires Flatten(gs) == (cur + [rest[0]]) + rest[1..]
    requires |gs[0]| >= |cur| + 1 && gs[0][..|cur| + 1] == cur + [rest[0]]
    ensures Flatten(gs) == cur + rest
    ensures |gs[0]| >= |cur| && gs[0][..|cur|] == cur
  {
    assert (cur + [rest[0]]) + rest[1..] == cur + rest;
    assert gs[0][..|cur|] == gs[0][..|cur| + 1][..|cur|];
  }

  lemma CloseStep(cur: seq<Segment>, rest: seq<Segment>, tail: seq<seq<Segment>>, yTol: real, fontTol: real)
    requires cur != [] && Chained(cur, yTol, fontTol) && rest != []
    requires !Continues(cur[|cur| - 1], rest[0], yTol, fontTol)
    requires tail != [] && AllChained(tail, yTol, fontTol) && Separated(tail, yTol, fontTol)
    requires Flatten(tail) == [rest[0]] + rest[1..]
    requires |tail[0]| >= 1 && tail[0][..1] == [rest[0]]
    ensures AllChained([cur] + tail, yTol, fontTol)
    ensures Separated([cur] + tail, yTol, fontTol)
    ensures Flatten([cur] + tail) == cur + rest
    ensures |([cur] + tail)[0]| >= |cur| && ([cur] + tail)[0][..|cur|] == cur
  {
    var gs := [cur] + tail;
    assert forall i :: 0 < i < |gs| ==> gs[i] == tail[i - 1];
    assert tail[0][0] == rest[0];
    FlattenCons(cur, tail);
    assert [rest[0]] + rest[1..] == rest;
  }

  /** The groups of a segment sequence, in the order given. */
  function Group(segs: seq<Segment>, yTol: real, fontTol: real): (gs: seq<seq<Segment>>)
    ensures AllChained(gs, yTol, fontTol) && Separated(gs, yTol, fontTol)
    ensures Flatten(gs) == segs
    ensures gs == [] <==> segs == []
  {
    if segs == [] then []
    else
      assert [segs[0]] + segs[1..] == segs;
      GroupFrom([segs[0]], segs[1..], yTol, fontTol)
  }

  /** `group_segments_to_lines` before finalisation: sort by (page, y, x),
      then merge. */
  function GroupSegments(segs: seq<Segment>, yTol: real, fontTol: real): (gs: seq<seq<Segment>>)
    ensures AllChained(gs, yTol, fontTol) && Separated(gs, yTol, fontTol)
    ensures multiset(Flatten(gs)) == multiset(segs)
    ensures SortedBy(Flatten(gs), ReadingOrder)
    ensures gs == [] <==> segs == []
  {
    ReadingOrderIsPreorder();
    var sorted := SortBy(segs, ReadingOrder);
    assert sorted == [] <==> segs == [] by {
      assert |sorted| == |multiset(sorted)| == |multiset(segs)| == |segs|;
    }
    Group(sorted, yTol, fontTol)
  }

  // ---------------------------------------------------------------------
  // Finalisation of one group

  function Fonts(g: seq<Segment>): (r: seq<real>)
    ensures |r| == |g| && forall i :: 0 <= i < |g| ==> r[i] == g[i].font
  {
    seq(|g|, i requires 0 <= i < |g| => g[i].font)
  }

  function Lefts(g: seq<Segment>): (r: seq<real>)
    ensures |r| == |g| && forall i :: 0 <= i < |g| ==> r[i] == g[i].x
  {
    seq(|g|, i requires 0 <= i < |g| => g[i].x)
  }

  function Rights(g: seq<Segment>): (r: seq<real>)
    ensures |r| == |g| && forall i :: 0 <= i < |g| ==> r[i] == g[i].x + g[i].width
  {
    seq(|g|, i requires 0 <= i < |g| => g[i].x + g[i].width)
  }

  function Tops(g: seq<Segment>): (r: seq<real>)
    ensures |r| == |g| && forall i :: 0 <= i < |g| ==> r[i] == g[i].y
  {
    seq(|g|, i requires 0 <= i < |g| => g[i].y)
  }

  function Texts(g: seq<Segment>): (r: seq<string>)
    ensures |r| == |g| && forall i :: 0 <= i < |g| ==> r[i] == g[i].text
  {
    seq(|g|, i requires 0 <= i < |g| => g[i].text)
  }

  /** The OR of all members' style flags. */
  function OrFlags(g: seq<Segment>): (r: bv32)
    ensures IsBoldFlags(r) <==> exists i :: 0 <= i < |g| && IsBoldFlags(g[i].flags)
  {
    if g == [] then 0
    else
      var t := OrFlags(g[1..]);
      assert forall i :: 1 <= i < |g| ==> g[i] == g[1..][i - 1];
      assert ((g[0].flags | t) & 2 != 0) <==> (g[0].flags & 2 != 0 || t & 2 != 0);
      g[0].flags | t
  }

  predicate NonNegativeWidths(g: seq<Segment>) {
    forall i :: 0 <= i < |g| ==> g[i].width >= 0.0
  }

  predicate IsBoldFlags(flags: bv32) {
    flags & 2 != 0
  }

  /** `_finalize_line`: a group becomes one line. */
  function Finalize(g: seq<Segment>): Line
    requires g != []
  {
    var x0 := MinOf(Lefts(g));
    Line(
      page := g[0].page,
      text := CleanText(JoinSpace(Texts(g))),
      font := MaxOf(Fonts(g)),
      isBold := IsBoldFlags(OrFlags(g)),
      x := x0,
      y := MinOf(Tops(g)),
      width := MaxOf(Rights(g)) - x0,
      pageW := g[0].pageW,
      pageH := g[0].pageH)
  }

  /** The finalised line takes its page and page size from the first member,
      its font from the largest member font, its bold bit from the OR of the
      members' flags, and its top-left corner from the smallest member
      coordinates. */
  lemma FinalizeProperties(g: seq<Segment>)
    requires g != []
    ensures var ln := Finalize(g);
      && ln.page == g[0].page && ln.pageW == g[0].pageW && ln.pageH == g[0].pageH
      && Normalized(ln.text)
      && IsMax(Fonts(g), ln.font)
      && (ln.isBold <==> exists i :: 0 <= i < |g| && IsBoldFlags(g[i].flags))
      && IsMin(Lefts(g), ln.x) && IsMin(Tops(g), ln.y)
  {
  }

  /** The right edge of the line is the rightmost member edge, so the line
      spans every member; its width is never negative when no member's is. */
  lemma FinalizeSpan(g: seq<Segment>)
    requires g != []
    ensures IsMax(Rights(g), Finalize(g).x + Finalize(g).width)
    ensures NonNegativeWidths(g) ==> Finalize(g).width >= 0.0
  {
    var ln := Finalize(g);
    var x0 := MinOf(Lefts(g));
    var x1 := MaxOf(Rights(g));
    assert ln.x == x0 && ln.width == x1 - x0;
    assert ln.x + ln.width == x1;
    SpanOf(g, x0, x1);
  }

  lemma SpanOf(g: seq<Segment>, x0: real, x1: real)
    requires g != [] && IsMin(Lefts(g), x0) && IsMax(Rights(g), x1)
    ensures NonNegativeWidths(g) ==> x1 - x0 >= 0.0
  {
    var k :| 0 <= k < |g| && Lefts(g)[k] == x0;
    assert Rights(g)[k] <= x1;
  }

  /** The line's text keeps every non-blank character of the members' texts,
      in order, once the leading bullets are gone. */
  lemma FinalizeKeepsText(g: seq<Segment>)
    requires g != []
    ensures NonWs(Finalize(g).text) == NonWs(DropWhile(JoinSpace(Texts(g)), IsBulletOrWhitespace))
  {
    CleanTextKeepsContent(JoinSpace(Texts(g)));
  }

  /** The sort before the merge is stable: read group by group, segments
      whose (page, y, x) keys tie keep their input order. */
  lemma GroupSegmentsStable(segs: seq<Segment>, yTol: real, fontTol: real, k: Segment)
    ensures TiesWith(Flatten(GroupSegments(segs, yTol, fontTol)), ReadingOrder, k)
         == TiesWith(segs, ReadingOrder, k)
  {
    ReadingOrderIsPreorder();
    SortByStable(segs, ReadingOrder, k);
  }

  /** `group_segments_to_lines`: one finalised line per group. */
  function GroupSegmentsToLines(segs: seq<Segment>, yTol: real, fontTol: real): (lines: seq<Line>)
    ensures var gs := GroupSegments(segs, yTol, fontTol);
      |lines| == |gs| && forall i :: 0 <= i < |gs| ==> lines[i] == Finalize(gs[i])
    ensures lines == [] <==> segs == []
  {
    var gs: seq<seq<Segment>> := GroupSegments(segs, yTol, fontTol);
    seq(|gs|, i requires 0 <= i < |gs| => Finalize(gs[i]))
  }

  /** Every line text is normalised: trimmed, without bullets in front and
      with single spaces. */
  lemma LinesNormalized(segs: seq<Segment>, yTol: real, fontTol: real)
    ensures var lines := GroupSegmentsToLines(segs, yTol, fontTol);
      forall i :: 0 <= i < |lines| ==> Normalized(lines[i].text)
  {
    var gs: seq<seq<Segment>> := GroupSegments(segs, yTol, fontTol);
    forall i | 0 <= i < |gs| ensures Normalized(Finalize(gs[i]).text) {
      FinalizeProperties(gs[i]);
    }
  }

  // ---------------------------------------------------------------------
  // Pages

  /** Every member of a chained group is on the page of its first member. */
  lemma {:induction false} ChainedSamePage(g: seq<Segment>, yTol: real, fontTol: real, k: nat)
    requires Chained(g, yTol, fontTol) && k < |g|
    ensures g[k].page == g[0].page
    decreases k
  {
    if k > 0 {
      ChainedSamePage(g, yTol, fontTol, k - 1);
    }
  }

  /** Segments on different pages never share a line: every member of a
      group is on the page of the line made from it. */
  lemma GroupsStayOnOnePage(segs: seq<Segment>, yTol: real, fontTol: real)
    ensures var gs := GroupSegments(segs, yTol, fontTol);
      forall i, k :: 0 <= i < |gs| && 0 <= k < |gs[i]| ==> gs[i][k].page == Finalize(gs[i]).page
  {
    var gs: seq<seq<Segment>> := GroupSegments(segs, yTol, fontTol);
    forall i, k | 0 <= i < |gs| && 0 <= k < |gs[i]|
      ensures gs[i][k].page == Finalize(gs[i]).page
    {
      ChainedSamePage(gs[i], yTol, fontTol, k);
    }
  }

  /** The first member of every group occurs in the concatenation. */
  lemma {:induction false} HeadInFlatten(gs: seq<seq<Segment>>, j: nat)
    requires j < |gs| && gs[j] != []
    ensures gs[j][0] in Flatten(gs)
    decreases j
  {
    if j == 0 {
      assert Flatten(gs)[0] == gs[0][0];
    } else {
      HeadInFlatten(gs[1..], j - 1);
      assert gs[1..][j - 1] == gs[j];
    }
  }

  lemma SortedSuffix(a: seq<Segment>, b: seq<Segment>)
    requires SortedBy(a + b, ReadingOrder)
    ensures SortedBy(b, ReadingOrder)
    ensures forall x, y :: x in a && y in b ==> ReadingOrder(x, y)
  {
    forall i, j | 0 <= i < j < |b| ensures ReadingOrder(b[i], b[j]) {
      assert b[i] == (a + b)[|a| + i] && b[j] == (a + b)[|a| + j];
    }
    forall x, y | x in a && y in b ensures ReadingOrder(x, y) {
      var i :| 0 <= i < |a| && a[i] == x;
      var j :| 0 <= j < |b| && b[j] == y;
      assert (a + b)[i] == x && (a + b)[|a| + j] == y;
    }
  }

  /** When the concatenation is in reading order, the groups start in page
      order. */
  lemma {:induction false} GroupHeadsInPageOrder(gs: seq<seq<Segment>>)
    requires forall i :: 0 <= i < |gs| ==> gs[i] != []
    requires SortedBy(Flatten(gs), ReadingOrder)
    ensures forall i, j :: 0 <= i < j < |gs| ==> gs[i][0].page <= gs[j][0].page
  {
    if gs != [] {
      var rest := gs[1..];
      assert Flatten(gs) == gs[0] + Flatten(rest);
      SortedSuffix(gs[0], Flatten(rest));
      GroupHeadsInPageOrder(rest);
      forall i, j | 0 <= i < j < |gs| ensures gs[i][0].page <= gs[j][0].page {
        assert gs[j] == rest[j - 1];
        if i == 0 {
          HeadInFlatten(rest, j - 1);
          assert ReadingOrder(gs[0][0], gs[j][0]);
        } else {
          assert gs[i] == rest[i - 1];
        }
      }
    }
  }

  /** Lines come out in page order, which is what lets the title scan stop
      at the first line past page 1. */
  lemma LinesInPageOrder(segs: seq<Segment>, yTol: real, fontTol: real)
    ensures var lines := GroupSegmentsToLines(segs, yTol, fontTol);
      forall i, j :: 0 <= i < j < |lines| ==> lines[i].page <= lines[j].page
  {
    var gs: seq<seq<Segment>> := GroupSegments(segs, yTol, fontTol);
    GroupHeadsInPageOrder(gs);
  }
}
