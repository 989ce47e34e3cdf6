/** Level assignment (`assign_levels`): the distinct candidate font sizes,
    largest first, give the dense ranks H1, H2, ...; the entries are the
    candidates in reading order, each labelled with the rank of its font. */
module Levels {
  import opened Records
  import opened Sorting
  import opened Candidates

  /** Strictly decreasing, hence free of duplicates. */
  predicate StrictlyDesc(s: seq<real>) {
    forall i, j :: 0 <= i < j < |s| ==> s[i] > s[j]
  }

  function Members(s: seq<real>): set<real> {
    set x | x in s
  }

  /** The distinct font sizes of the candidates. */
  function DistinctFonts(cands: seq<Line>): set<real> {
    Members(LineFonts(cands))
  }

  /** The dense rank of size `f` among `sizes`: one more than the number of
      distinct sizes larger than `f`. */
  function Rank(sizes: set<real>, f: real): nat {
    1 + |Above(sizes, f)|
  }

  function Above(sizes: set<real>, f: real): set<real> {
    set g | g in sizes && g > f
  }

  /** Adds `x` to a strictly decreasing sequence, dropping it when present. */
  function InsertDesc(x: real, s: seq<real>): (r: seq<real>)
    requires StrictlyDesc(s)
    ensures StrictlyDesc(r)
    ensures forall y :: y in r <==> y in s || y == x
  {
    if s == [] then [x]
    else if x > s[0] then
      ConsDesc(x, s);
      [x] + s
    else if x == s[0] then s
    else
      var t := InsertDesc(x, s[1..]);
      ConsDesc(s[0], t);
      [s[0]] + t
  }

  /** Putting a larger element in front keeps a sequence strictly
      decreasing. */
  lemma ConsDesc(h: real, t: seq<real>)
    requires StrictlyDesc(t) && (t == [] || h > t[0])
    ensures StrictlyDesc([h] + t)
    ensures forall y :: y in [h] + t <==> y == h || y in t
  {
    forall i, j | 0 <= i < j < |[h] + t| ensures ([h] + t)[i] > ([h] + t)[j] {
      if i == 0 && j > 1 {
        assert t[0] > t[j - 1];
      }
    }
  }

  /** `sorted(set(fonts), reverse=True)`. */
  function FontRanks(fonts: seq<real>): (r: seq<real>)
    ensures StrictlyDesc(r)
    ensures forall y :: y in r <==> y in fonts
  {
    if fonts == [] then []
    else InsertDesc(fonts[0], FontRanks(fonts[1..]))
  }

  /** The dictionary built by the loop `font_to_level[size] = i + 1` over the
      first `n` ranks. */
  function LevelTable(ranks: seq<real>, n: nat): (m: map<real, nat>)
    requires n <= |ranks|
    ensures forall y :: y in m <==> y in ranks[..n]
    ensures StrictlyDesc(ranks) ==> forall i :: 0 <= i < n ==> ranks[i] in m && m[ranks[i]] == i + 1
  {
    if n == 0 then map[]
    else
      var m := LevelTable(ranks, n - 1);
      assert ranks[..n] == ranks[..n - 1] + [ranks[n - 1]];
      m[ranks[n - 1] := n]
  }

  /** `font_to_level.get(font, "H1")`. */
  function LevelOf(table: map<real, nat>, f: real): nat {
    if f in table then table[f] else 1
  }

  /** The sort key `(page, y)` as an order. */
  predicate Before(a: Line, b: Line) {
    a.page < b.page || (a.page == b.page && a.y <= b.y)
  }

  lemma BeforeIsPreorder()
    ensures TotalPreorder(Before)
  {
  }

  /** The candidates sorted by `(page, y)`. */
  function Ordered(cands: seq<Line>): (r: seq<Line>)
    ensures multiset(r) == multiset(cands) && |r| == |cands|
    ensures SortedBy(r, Before)
  {
    BeforeIsPreorder();
    var r := SortBy(cands, Before);
    assert |r| == |multiset(r)| == |multiset(cands)| == |cands|;
    r
  }

  /** The line at position `i` of the reading order is a candidate. */
  lemma OrderedFromCandidates(cands: seq<Line>, i: nat)
    requires i < |Ordered(cands)|
    ensures Ordered(cands)[i].font in DistinctFonts(cands)
  {
    var o := Ordered(cands);
    assert o[i] in multiset(cands);
    var j :| 0 <= j < |cands| && cands[j] == o[i];
    assert LineFonts(cands)[j] == o[i].font;
  }

  /** Every candidate appears somewhere in the reading order. */
  lemma CandidateOrdered(cands: seq<Line>, j: nat)
    requires j < |cands|
    ensures exists i :: 0 <= i < |Ordered(cands)| && Ordered(cands)[i] == cands[j]
  {
    var o := Ordered(cands);
    assert cands[j] in multiset(o);
  }

  function TitleText(title: Option<Line>): string {
    if title.Some? then title.value.text else ""
  }

  function Table(cands: seq<Line>): map<real, nat> {
    var ranks := FontRanks(LineFonts(cands));
    LevelTable(ranks, |ranks|)
  }

  /** `assign_levels(cands, title)`. */
  function AssignLevels(cands: seq<Line>, title: Option<Line>): (r: Outline)
    ensures |r.entries| == |cands|
    ensures title.None? ==> r.title == ""
    ensures title.Some? ==> r.title == title.value.text
  {
    var table := Table(cands);
    var ordered := Ordered(cands);
    Outline(TitleText(title),
            seq(|ordered|, i requires 0 <= i < |ordered| =>
              Entry(LevelOf(table, ordered[i].font), ordered[i].text, ordered[i].page)))
  }

  // ---------------------------------------------------------------------
  // Properties

  /** `FontRanks` is `sorted(set(fonts), reverse=True)`: any strictly
      decreasing sequence of exactly the same sizes is this one. */
  lemma {:induction false} FontRanksUnique(a: seq<real>, b: seq<real>)
    requires StrictlyDesc(a) && StrictlyDesc(b)
    requires forall y :: y in a <==> y in b
    ensures a == b
    decreases |a| + |b|
  {
    assert Members(a) == Members(b);
    MembersCount(a);
    MembersCount(b);
    if a != [] {
      assert a[0] in a && b[0] in b;
      HeadIsLargest(a);
      HeadIsLargest(b);
      TailMembers(a);
      TailMembers(b);
      FontRanksUnique(a[1..], b[1..]);
      assert a == [a[0]] + a[1..] && b == [b[0]] + b[1..];
    }
  }

  lemma HeadIsLargest(s: seq<real>)
    requires StrictlyDesc(s) && s != []
    ensures forall y :: y in s ==> y <= s[0]
  {
  }

  /** The tail holds exactly the members below the head. */
  lemma TailMembers(s: seq<real>)
    requires StrictlyDesc(s) && s != []
    ensures forall y :: y in s[1..] <==> y in s && y < s[0]
  {
    forall y ensures y in s[1..] <==> y in s && y < s[0] {
      if y in s && y < s[0] {
        var j :| 0 <= j < |s| && s[j] == y;
        assert s[1..][j - 1] == y;
      }
    }
  }

  /** A duplicate-free sequence has as many members as elements. */
  lemma {:induction false} MembersCount(t: seq<real>)
    requires StrictlyDesc(t)
    ensures |Members(t)| == |t|
  {
    if t != [] {
      assert Members(t) == {t[0]} + Members(t[1..]);
      assert t[0] !in Members(t[1..]);
      MembersCount(t[1..]);
    }
  }

  /** The size at position `i` of the ranks has rank `i + 1`. */
  lemma RankAt(s: seq<real>, i: nat)
    requires StrictlyDesc(s) && i < |s|
    ensures Rank(Members(s), s[i]) == i + 1
  {
    assert Above(Members(s), s[i]) == Members(s[..i]) by {
      forall g ensures g in Members(s) && g > s[i] <==> g in Members(s[..i]) {
        if g in s {
          var j :| 0 <= j < |s| && s[j] == g;
          assert j < i <==> g > s[i];
          if j < i { assert s[..i][j] == g; }
        }
        if g in s[..i] {
          var j :| 0 <= j < i && s[..i][j] == g;
          assert s[j] == g;
        }
      }
    }
    MembersCount(s[..i]);
  }

  /** Every candidate's font is in the table: the "H1" fallback of the
      lookup never applies, and the looked-up level is the font's dense
      rank. */
  lemma LevelIsRank(cands: seq<Line>, f: real)
    requires f in DistinctFonts(cands)
    ensures f in Table(cands)
    ensures LevelOf(Table(cands), f) == Rank(DistinctFonts(cands), f)
  {
    var ranks := FontRanks(LineFonts(cands));
    assert Members(ranks) == DistinctFonts(cands);
    var i :| 0 <= i < |ranks| && ranks[i] == f;
    RankAt(ranks, i);
  }

  /** Each entry is the candidate at the same position of the reading order,
      labelled with the dense rank of its font among all candidate fonts. */
  lemma EntriesAreRankedCandidates(cands: seq<Line>, title: Option<Line>)
    ensures var r := AssignLevels(cands, title);
      var ordered := Ordered(cands);
      && r.title == (if title.Some? then title.value.text else "")
      && |ordered| == |r.entries|
      && forall i :: 0 <= i < |r.entries| ==>
           && r.entries[i].text == ordered[i].text
           && r.entries[i].page == ordered[i].page
           && r.entries[i].level == Rank(DistinctFonts(cands), ordered[i].font)
  {
    var r := AssignLevels(cands, title);
    var ordered := Ordered(cands);
    forall i | 0 <= i < |r.entries|
      ensures r.entries[i].level == Rank(DistinctFonts(cands), ordered[i].font)
    {
      OrderedFromCandidates(cands, i);
      LevelIsRank(cands, ordered[i].font);
    }
  }

  /** The entries hold the candidates, each exactly as often as in the
      input, ordered by page and then by vertical position: the pages of the
      entries never decrease, and candidates whose (page, y) keys tie keep
      their input order, as Python's stable `sorted` keeps them. */
  lemma EntriesInReadingOrder(cands: seq<Line>, title: Option<Line>, k: Line)
    ensures multiset(Ordered(cands)) == multiset(cands)
    ensures forall i, j :: 0 <= i < j < |Ordered(cands)| ==>
      var a := Ordered(cands)[i];
      var b := Ordered(cands)[j];
      a.page < b.page || (a.page == b.page && a.y <= b.y)
    ensures var e := AssignLevels(cands, title).entries;
      forall i, j :: 0 <= i < j < |e| ==> e[i].page <= e[j].page
    ensures TiesWith(Ordered(cands), Before, k) == TiesWith(cands, Before, k)
  {
    var o := Ordered(cands);
    assert SortedBy(o, Before);
    forall i, j | 0 <= i < j < |o| ensures Before(o[i], o[j]) {
    }
    EntriesAreRankedCandidates(cands, title);
    BeforeIsPreorder();
    SortByStable(cands, Before, k);
  }

  /** A larger font has a smaller (higher) level, equal fonts the same
      level. */
  lemma RankFollowsSize(sizes: set<real>, f: real, g: real)
    requires f in sizes && g in sizes
    ensures f > g <==> Rank(sizes, f) < Rank(sizes, g)
    ensures f == g <==> Rank(sizes, f) == Rank(sizes, g)
  {
    if f > g {
      LargerRanksHigher(sizes, f, g);
    } else if g > f {
      LargerRanksHigher(sizes, g, f);
    }
  }

  lemma LargerRanksHigher(sizes: set<real>, f: real, g: real)
    requires f in sizes && f > g
    ensures Rank(sizes, f) < Rank(sizes, g)
  {
    var af := Above(sizes, f);
    var ag := Above(sizes, g);
    assert f in ag && f !in af;
    var bf := af + {f};
    assert |bf| == |af| + 1;
    assert ag == bf + (ag - bf);
    assert bf * (ag - bf) == {};
  }

  /** Between any two entries, the one from the larger font has the smaller
      (higher) level, and entries from equal fonts share a level. */
  lemma LevelsFollowFontSize(cands: seq<Line>, title: Option<Line>, i: nat, j: nat)
    requires i < |AssignLevels(cands, title).entries| && j < |AssignLevels(cands, title).entries|
    ensures var e := AssignLevels(cands, title).entries;
      var o := Ordered(cands);
      && (o[i].font > o[j].font <==> e[i].level < e[j].level)
      && (o[i].font == o[j].font <==> e[i].level == e[j].level)
  {
    var o := Ordered(cands);
    EntriesAreRankedCandidates(cands, title);
    OrderedFromCandidates(cands, i);
    OrderedFromCandidates(cands, j);
    RankFollowsSize(DistinctFonts(cands), o[i].font, o[j].font);
  }

  /** With two distinct sizes among the candidates (such as 18, 14 and 14),
      the larger gives H1 and the smaller H2. */
  lemma TwoSizes(cands: seq<Line>, title: Option<Line>, hi: real, lo: real)
    requires DistinctFonts(cands) == {hi, lo} && hi > lo
    ensures var e := AssignLevels(cands, title).entries;
      var o := Ordered(cands);
      forall i :: 0 <= i < |e| ==> e[i].level == (if o[i].font == hi then 1 else 2)
  {
    var e := AssignLevels(cands, title).entries;
    var o := Ordered(cands);
    EntriesAreRankedCandidates(cands, title);
    forall i | 0 <= i < |e| ensures e[i].level == (if o[i].font == hi then 1 else 2) {
      OrderedFromCandidates(cands, i);
      RankOfTwo(DistinctFonts(cands), o[i].font, hi, lo);
    }
  }

  lemma RankOfTwo(sizes: set<real>, f: real, hi: real, lo: real)
    requires sizes == {hi, lo} && hi > lo && f in sizes
    ensures Rank(sizes, f) == if f == hi then 1 else 2
  {
    assert Above(sizes, hi) == {};
    assert Above(sizes, lo) == {hi};
  }

  /** The levels in use are exactly 1 to k, where k is the number of
      distinct candidate font sizes: dense ranking, no gaps. */
  lemma LevelsDense(cands: seq<Line>, title: Option<Line>)
    ensures var r := AssignLevels(cands, title);
      var k := |DistinctFonts(cands)|;
      && (forall i :: 0 <= i < |r.entries| ==> 1 <= r.entries[i].level <= k)
      && (forall l :: 1 <= l <= k ==> UsesLevel(r.entries, l))
  {
    var r := AssignLevels(cands, title);
    var ranks := FontRanks(LineFonts(cands));
    assert Members(ranks) == DistinctFonts(cands);
    MembersCount(ranks);
    forall i | 0 <= i < |r.entries| ensures 1 <= r.entries[i].level <= |ranks| {
      LevelInRange(cands, title, i);
    }
    forall l | 1 <= l <= |ranks| ensures UsesLevel(r.entries, l) {
      LevelUsed(cands, title, l);
    }
  }

  lemma LevelInRange(cands: seq<Line>, title: Option<Line>, i: nat)
    requires i < |AssignLevels(cands, title).entries|
    ensures 1 <= AssignLevels(cands, title).entries[i].level <= |FontRanks(LineFonts(cands))|
  {
    var ranks := FontRanks(LineFonts(cands));
    var ordered := Ordered(cands);
    EntriesAreRankedCandidates(cands, title);
    OrderedFromCandidates(cands, i);
    assert Members(ranks) == DistinctFonts(cands);
    var n :| 0 <= n < |ranks| && ranks[n] == ordered[i].font;
    RankAt(ranks, n);
  }

  lemma LevelUsed(cands: seq<Line>, title: Option<Line>, l: nat)
    requires 1 <= l <= |FontRanks(LineFonts(cands))|
    ensures UsesLevel(AssignLevels(cands, title).entries, l)
  {
    var r := AssignLevels(cands, title);
    var ranks := FontRanks(LineFonts(cands));
    var ordered := Ordered(cands);
    assert Members(ranks) == DistinctFonts(cands);
    RankAt(ranks, l - 1);
    assert ranks[l - 1] in LineFonts(cands);
    var j :| 0 <= j < |cands| && LineFonts(cands)[j] == ranks[l - 1];
    CandidateOrdered(cands, j);
    var i :| 0 <= i < |ordered| && ordered[i] == cands[j];
    EntriesAreRankedCandidates(cands, title);
    assert r.entries[i].level == l;
  }

  /** Some entry has level `l`. */
  ghost predicate UsesLevel(entries: seq<Entry>, l: nat) {
    exists i :: 0 <= i < |entries| && entries[i].level == l
  }
}
