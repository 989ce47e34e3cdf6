/** Heading candidate selection (`heading_candidates`): the lines that
    stand out from body text by size or case, minus the title, running
    headers and implausible texts. */
module Candidates {
  import opened Chars
  import opened Text
  import opened Stats
  import opened Records
  import opened Indices
  import opened Repetition
  import opened TitleDetection

  /** The body font assumed when no line has text. */
  const DefaultBodyFont: real := 12.0
  /** A heading's font is at least this multiple of the body font. */
  const HeadingShare: real := 1.25
  /** The shortest heading text. */
  const MinHeadingLength: nat := 3

  function LineFonts(lines: seq<Line>): (fs: seq<real>)
    ensures |fs| == |lines| && forall i :: 0 <= i < |lines| ==> fs[i] == lines[i].font
  {
    seq(|lines|, i requires 0 <= i < |lines| => lines[i].font)
  }

  /** Line `j` has a non-empty text. */
  function HasText(lines: seq<Line>): nat -> bool {
    (j: nat) => j < |lines| && lines[j].text != []
  }

  /** The fonts of the lines with text, in document order. */
  function BodyFonts(lines: seq<Line>): seq<real> {
    LineFonts(Pick(lines, Select(|lines|, 0, HasText(lines))))
  }

  /** `body_med`: the median of the body fonts, 12.0 when there are none. */
  function BodyMedian(lines: seq<Line>): (m: real)
    ensures BodyFonts(lines) == [] ==> m == DefaultBodyFont
    ensures BodyFonts(lines) != [] ==> MinOf(BodyFonts(lines)) <= m <= MaxOf(BodyFonts(lines))
  {
    var fs := BodyFonts(lines);
    if fs == [] then DefaultBodyFont else Median(fs)
  }

  /** The exact (page, text) pair of the title. */
  predicate IsTitlePair(ln: Line, title: Option<Line>) {
    title.Some? && ln.page == title.value.page && ln.text == title.value.text
  }

  /** Large enough against the body font, or written in capitals. */
  predicate Salient(ln: Line, med: real) {
    ln.font >= med * HeadingShare || IsUpperText(ln.text)
  }

  /** The tests of `heading_candidates` other than the title test. */
  predicate Stands(ln: Line, repeated: set<string>, med: real) {
    && Lower(ln.text) !in repeated
    && Plausible(ln.text)
    && |ln.text| >= MinHeadingLength
    && Salient(ln, med)
  }

  /** Line `j` is kept by the loop of `heading_candidates`. */
  function KeptAsWritten(lines: seq<Line>, title: Option<Line>, repeated: set<string>, med: real): nat -> bool {
    (j: nat) => j < |lines| && !IsTitlePair(lines[j], title) && Stands(lines[j], repeated, med)
  }

  /** The indices of the lines `heading_candidates` keeps. */
  function CandidateIndices(lines: seq<Line>, title: Option<Line>): seq<nat> {
    Select(|lines|, 0, KeptAsWritten(lines, title, DetectRepeated(lines), BodyMedian(lines)))
  }

  /** `heading_candidates(lines, title)`: the qualifying lines in document
      order, and the body font median. */
  function HeadingCandidates(lines: seq<Line>, title: Option<Line>): (r: (seq<Line>, real))
    ensures r.1 == BodyMedian(lines)
    ensures IsSelection(lines, r.0, KeptAsWritten(lines, title, DetectRepeated(lines), r.1))
  {
    var med := BodyMedian(lines);
    SelectIsSelection(lines, KeptAsWritten(lines, title, DetectRepeated(lines), med));
    (Pick(lines, CandidateIndices(lines, title)), med)
  }

  // ---------------------------------------------------------------------
  // Properties

  /** The body median is the middle order statistic of the fonts of the
      lines with text (`Stats.IsMiddleValue`). */
  lemma BodyMedianIsMiddle(lines: seq<Line>)
    ensures BodyFonts(lines) != [] ==> IsMiddleValue(BodyFonts(lines), BodyMedian(lines))
  {
    var fs := BodyFonts(lines);
    if fs != [] {
      MedianIsMiddle(fs);
    }
  }

  /** The selection contract of `HeadingCandidates` determines it: any
      sequence that selects, in order, exactly the lines the loop keeps is
      the candidate list. */
  lemma HeadingCandidatesDetermined(lines: seq<Line>, title: Option<Line>, cs: seq<Line>)
    requires IsSelection(lines, cs, KeptAsWritten(lines, title, DetectRepeated(lines), BodyMedian(lines)))
    ensures cs == HeadingCandidates(lines, title).0
  {
    var keep := KeptAsWritten(lines, title, DetectRepeated(lines), BodyMedian(lines));
    SelectionUnique(lines, cs, HeadingCandidates(lines, title).0, keep);
  }

  /** Every candidate is a line of the input that is not the title pair and
      passes the other tests (`Stands`: not running furniture, passes
      base_checks, at least 3 characters, large or in capitals); every such
      line is a candidate. */
  lemma CandidatesQualify(lines: seq<Line>, title: Option<Line>)
    ensures var cands := HeadingCandidates(lines, title).0;
      var med := BodyMedian(lines);
      var repeated := DetectRepeated(lines);
      && |cands| <= |lines|
      && (forall m :: 0 <= m < |cands| ==>
            cands[m] in lines && !IsTitlePair(cands[m], title) && Stands(cands[m], repeated, med))
      && (forall j :: 0 <= j < |lines| && !IsTitlePair(lines[j], title) && Stands(lines[j], repeated, med) ==>
            lines[j] in cands)
  {
    var med := BodyMedian(lines);
    var repeated := DetectRepeated(lines);
    var keep := KeptAsWritten(lines, title, repeated, med);
    var cands := HeadingCandidates(lines, title).0;
    assert cands == Pick(lines, Select(|lines|, 0, keep));
    SelectedCount(lines, keep);
    forall m | 0 <= m < |cands|
      ensures cands[m] in lines && !IsTitlePair(cands[m], title) && Stands(cands[m], repeated, med)
    {
      var j := SelectedSource(lines, keep, m);
      assert keep(j);
    }
    forall j | 0 <= j < |lines| && !IsTitlePair(lines[j], title) && Stands(lines[j], repeated, med)
      ensures lines[j] in cands
    {
      SelectedTarget(lines, keep, j);
    }
  }

  /** A letterless text (digits and punctuation only, such as "12345") is
      never a heading, whatever its font. */
  lemma LetterlessNeverCandidate(lines: seq<Line>, title: Option<Line>)
    ensures var cands := HeadingCandidates(lines, title).0;
      forall m :: 0 <= m < |cands| ==> HasLetter(cands[m].text)
  {
    CandidatesQualify(lines, title);
    var cands := HeadingCandidates(lines, title).0;
    forall m | 0 <= m < |cands| ensures HasLetter(cands[m].text) {
      BaseChecksCharacterized(cands[m].text, MaxWords, MaxLen);
    }
  }

  /** The body median depends only on the collection of body fonts. */
  lemma BodyMedianIgnoresOrder(a: seq<Line>, b: seq<Line>)
    requires multiset(BodyFonts(a)) == multiset(BodyFonts(b))
    ensures BodyMedian(a) == BodyMedian(b)
  {
    if BodyFonts(a) != [] {
      MedianIgnoresOrder(BodyFonts(a), BodyFonts(b));
    } else {
      assert |BodyFonts(b)| == |multiset(BodyFonts(b))| == 0;
    }
  }

  // ---------------------------------------------------------------------
  // Title exclusivity

  /** The indices of the lines merged into the title built on line `k`. */
  function TitleMembers(lines: seq<Line>, k: nat): (ms: set<nat>)
    requires k < |lines|
  {
    var ix := Followers(lines, k + 1, lines[k].page, lines[k].font);
    {k} + set m | 0 <= m < |ix| :: ix[m]
  }

  /** As written, the title test compares a line with the merged title
      text. When the title spans more than one line, the base line's own
      text differs from the merged text, so the base line is kept as a
      heading whenever it passes the other tests: the title appears twice
      in the outline. */
  lemma AsWrittenKeepsTitleBase(lines: seq<Line>, k: nat)
    requires k < |lines| && Normalized(lines[k].text)
    requires var ix := Followers(lines, k + 1, lines[k].page, lines[k].font);
      ix != [] && Normalized(lines[ix[0]].text) && lines[ix[0]].text != []
    requires Stands(lines[k], DetectRepeated(lines), BodyMedian(lines))
    ensures k in TitleMembers(lines, k)
    ensures k in CandidateIndices(lines, Some(TitleLine(lines, k)))
  {
    var t := TitleLine(lines, k);
    TitleTextDiffers(lines, k);
    KeptUnlessSameText(lines, k, t, DetectRepeated(lines), BodyMedian(lines));
  }

  /** A line that passes the other tests is kept when its text is not the
      title's. */
  lemma KeptUnlessSameText(lines: seq<Line>, k: nat, t: Line, repeated: set<string>, med: real)
    requires k < |lines| && t.text != lines[k].text && Stands(lines[k], repeated, med)
    ensures k in Select(|lines|, 0, KeptAsWritten(lines, Some(t), repeated, med))
  {
    assert KeptAsWritten(lines, Some(t), repeated, med)(k);
  }

  /** The merged text of a title with a non-blank follower is not the base
      line's text. */
  lemma TitleTextDiffers(lines: seq<Line>, k: nat)
    requires k < |lines| && Normalized(lines[k].text) && lines[k].text != []
    requires var ix := Followers(lines, k + 1, lines[k].page, lines[k].font);
      ix != [] && Normalized(lines[ix[0]].text) && lines[ix[0]].text != []
    ensures TitleLine(lines, k).text != lines[k].text
  {
    var ix := Followers(lines, k + 1, lines[k].page, lines[k].font);
    var rest := TextsAt(lines, ix);
    assert TitleParts(lines, k) == [lines[k].text] + rest;
    assert rest[0] == lines[ix[0]].text;
    TitleKeepsContent(lines, k);
    JoinAddsContent(lines[k].text, rest);
  }

  /** Line `j` is kept by the corrected selection: as written, and not one
      of the lines merged into the title. */
  function KeptExclusive(lines: seq<Line>, title: Option<Line>, members: set<nat>, repeated: set<string>, med: real): nat -> bool {
    (j: nat) => j < |lines| && j !in members && !IsTitlePair(lines[j], title) && Stands(lines[j], repeated, med)
  }

  function CandidateIndicesExclusive(lines: seq<Line>, title: Option<Line>, members: set<nat>): seq<nat> {
    Select(|lines|, 0, KeptExclusive(lines, title, members, DetectRepeated(lines), BodyMedian(lines)))
  }

  /** `heading_candidates` with the title test made to exclude every line
      merged into the title. */
  function HeadingCandidatesExclusive(lines: seq<Line>, title: Option<Line>, members: set<nat>): (r: (seq<Line>, real))
    ensures r.1 == BodyMedian(lines)
    ensures IsSelection(lines, r.0, KeptExclusive(lines, title, members, DetectRepeated(lines), r.1))
  {
    var med := BodyMedian(lines);
    SelectIsSelection(lines, KeptExclusive(lines, title, members, DetectRepeated(lines), med));
    (Pick(lines, CandidateIndicesExclusive(lines, title, members)), med)
  }

  /** The corrected selection keeps none of the title's lines, and differs
      from the selection as written on exactly those lines. */
  lemma ExclusiveOmitsTitle(lines: seq<Line>, title: Option<Line>, members: set<nat>)
    ensures forall j :: j in members ==> j !in CandidateIndicesExclusive(lines, title, members)
    ensures forall j: nat :: j !in members ==>
      (j in CandidateIndicesExclusive(lines, title, members) <==> j in CandidateIndices(lines, title))
  {
    var ex := CandidateIndicesExclusive(lines, title, members);
    var aw := CandidateIndices(lines, title);
    forall j: nat | j in ex ensures j !in members && j in aw {
      var m :| 0 <= m < |ex| && ex[m] == j;
    }
    forall j: nat | j in aw && j !in members ensures j in ex {
      var m :| 0 <= m < |aw| && aw[m] == j;
    }
  }
}
