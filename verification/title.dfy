/** Title detection (`has_title_hint` is in Text; `detect_title` here). The
    scan looks at the lines before the first line past page 1 (for lines in
    page order, those of pages 0 and 1), keeps the first line with the
    strictly largest font among the eligible ones, and extends it with later
    lines of the same page whose font is close to it. */
module TitleDetection {
  import opened Chars
  import opened Text
  import opened Records
  import opened Indices

  /** The scan stops at the first line past this page. */
  const LastTitlePage: nat := 1
  /** A line narrower than this share of the page needs a hint word. */
  const MinWidthShare: real := 0.25
  /** A later line joins the title when its font is at least this share of
      the base line's font. */
  const ExtendShare: real := 0.9

  /** The index of the first line at or after `from` that lies past page
      `last`, or `|lines|` when there is none. */
  function PastPage(lines: seq<Line>, from: nat, last: nat): (e: nat)
    requires from <= |lines|
    ensures from <= e <= |lines|
    ensures forall j :: from <= j < e ==> lines[j].page <= last
    ensures e < |lines| ==> lines[e].page > last
    decreases |lines| - from
  {
    if from == |lines| || lines[from].page > last then from
    else PastPage(lines, from + 1, last)
  }

  /** The lines before this index are the ones the scan looks at. */
  function ScanLimit(lines: seq<Line>): nat {
    PastPage(lines, 0, LastTitlePage)
  }

  /** A line on which the width test divides by a zero page width. */
  predicate Faults(ln: Line) {
    Plausible(ln.text) && ln.pageW == 0.0
  }

  /** A line that may become the title: plausible text, and either wide
      enough or carrying a hint word. */
  predicate Eligible(ln: Line) {
    && Plausible(ln.text)
    && ln.pageW != 0.0
    && (ln.width / ln.pageW >= MinWidthShare || HasTitleHint(ln.text))
  }

  /** No line before index `n` satisfies `bad`. */
  predicate NoneBefore(lines: seq<Line>, n: nat, bad: Line -> bool)
    requires n <= |lines|
  {
    forall j :: 0 <= j < n ==> !bad(lines[j])
  }

  /** The font the scan has to beat: the candidate's, or 0 without one. */
  function Bar(lines: seq<Line>, best: Option<nat>): real {
    match best
    case None => 0.0
    case Some(k) => if k < |lines| then lines[k].font else 0.0
  }

  /** `best` is the scan's choice among the first `n` lines under the
      eligibility test `elig`: without a candidate no eligible line has a
      positive font; with one, it is eligible, has a positive font, no
      eligible line has a larger one and every eligible line before it has a
      smaller one. */
  predicate BestAmong(lines: seq<Line>, n: nat, best: Option<nat>, elig: Line -> bool)
    requires n <= |lines|
  {
    match best
    case None =>
      forall j :: 0 <= j < n && elig(lines[j]) ==> lines[j].font <= 0.0
    case Some(k) =>
      && k < n
      && elig(lines[k])
      && lines[k].font > 0.0
      && (forall j :: 0 <= j < n && elig(lines[j]) ==> lines[j].font <= lines[k].font)
      && (forall j :: 0 <= j < k && elig(lines[j]) ==> lines[j].font < lines[k].font)
  }

  /** The loop of `detect_title` from line `i` on, with the candidate index
      `best` and the font `biggest` it has to beat. */
  function Scan(lines: seq<Line>, i: nat, best: Option<nat>, biggest: real): (r: Result<Option<nat>>)
    requires i <= ScanLimit(lines)
    requires NoneBefore(lines, i, Faults) && BestAmong(lines, i, best, Eligible) && biggest == Bar(lines, best)
    ensures r.Failure? <==> !NoneBefore(lines, ScanLimit(lines), Faults)
    ensures r.Success? ==> BestAmong(lines, ScanLimit(lines), r.value, Eligible)
    decreases |lines| - i
  {
    if i == |lines| || lines[i].page > LastTitlePage then
      StopStep(lines, i);
      Success(best)
    else if !Plausible(lines[i].text) then
      StopStep(lines, i);
      SkipStep(lines, i, best, Eligible);
      NoneStep(lines, i, Faults);
      Scan(lines, i + 1, best, biggest)
    else if lines[i].pageW == 0.0 then
      StopStep(lines, i);
      Failure(DivisionByZero)
    else if lines[i].width / lines[i].pageW < MinWidthShare && !HasTitleHint(lines[i].text) then
      StopStep(lines, i);
      SkipStep(lines, i, best, Eligible);
      NoneStep(lines, i, Faults);
      Scan(lines, i + 1, best, biggest)
    else if lines[i].font > biggest then
      StopStep(lines, i);
      TakeStep(lines, i, best, Eligible);
      NoneStep(lines, i, Faults);
      Scan(lines, i + 1, Some(i), lines[i].font)
    else
      StopStep(lines, i);
      KeepStep(lines, i, best, Eligible);
      NoneStep(lines, i, Faults);
      Scan(lines, i + 1, best, biggest)
  }

  /** The scan stops exactly at the limit. */
  lemma StopStep(lines: seq<Line>, i: nat)
    requires i <= ScanLimit(lines)
    ensures i == |lines| || lines[i].page > LastTitlePage <==> i == ScanLimit(lines)
  {
  }

  lemma NoneStep(lines: seq<Line>, i: nat, bad: Line -> bool)
    requires i < |lines| && NoneBefore(lines, i, bad) && !bad(lines[i])
    ensures NoneBefore(lines, i + 1, bad)
  {
  }

  lemma SkipStep(lines: seq<Line>, i: nat, best: Option<nat>, elig: Line -> bool)
    requires i < |lines| && BestAmong(lines, i, best, elig) && !elig(lines[i])
    ensures BestAmong(lines, i + 1, best, elig)
  {
  }

  lemma TakeStep(lines: seq<Line>, i: nat, best: Option<nat>, elig: Line -> bool)
    requires i < |lines| && BestAmong(lines, i, best, elig)
    requires elig(lines[i]) && lines[i].font > Bar(lines, best)
    ensures BestAmong(lines, i + 1, Some(i), elig)
    ensures Bar(lines, Some(i)) == lines[i].font
  {
  }

  lemma KeepStep(lines: seq<Line>, i: nat, best: Option<nat>, elig: Line -> bool)
    requires i < |lines| && BestAmong(lines, i, best, elig)
    requires elig(lines[i]) && lines[i].font <= Bar(lines, best)
    ensures BestAmong(lines, i + 1, best, elig)
  {
  }

  /** The base line is determined: two choices that both meet `BestAmong`
      are the same, so the scan result is the only one. */
  lemma BestUnique(lines: seq<Line>, n: nat, a: Option<nat>, b: Option<nat>, elig: Line -> bool)
    requires n <= |lines| && BestAmong(lines, n, a, elig) && BestAmong(lines, n, b, elig)
    ensures a == b
  {
  }

  // ---------------------------------------------------------------------
  // Extending the base line

  /** The index of the first line at or after `from` that is not on page
      `page`, or `|lines|`. */
  function RunEnd(lines: seq<Line>, from: nat, page: nat): (e: nat)
    requires from <= |lines|
    ensures from <= e <= |lines|
    ensures forall j :: from <= j < e ==> lines[j].page == page
    ensures e < |lines| ==> lines[e].page != page
    decreases |lines| - from
  {
    if from == |lines| || lines[from].page != page then from
    else RunEnd(lines, from + 1, page)
  }

  /** A later line joins a title whose base font is `base`. */
  predicate Joins(ln: Line, base: real) {
    ln.font >= base * ExtendShare
  }

  /** The indices of the lines from `from` on that the extension loop of
      `detect_title` appends: in order, every line of the run on `page`
      whose font reaches the threshold, and no other. A line below the
      threshold is skipped without ending the run. */
  function Followers(lines: seq<Line>, from: nat, page: nat, base: real): (ix: seq<nat>)
    requires from <= |lines|
    ensures Increasing(ix)
    ensures forall m :: 0 <= m < |ix| ==> from <= ix[m] < RunEnd(lines, from, page) && Joins(lines[ix[m]], base)
    ensures forall j :: from <= j < RunEnd(lines, from, page) && Joins(lines[j], base) ==> j in ix
    decreases |lines| - from
  {
    if from == |lines| || lines[from].page != page then []
    else if Joins(lines[from], base) then
      var rest := Followers(lines, from + 1, page, base);
      assert forall m :: 0 < m < |[from] + rest| ==> ([from] + rest)[m] == rest[m - 1];
      [from] + rest
    else
      Followers(lines, from + 1, page, base)
  }

  /** The texts of the lines at the given indices. */
  function TextsAt(lines: seq<Line>, ix: seq<nat>): (ts: seq<string>)
    requires Below(ix, |lines|)
    ensures |ts| == |ix| && forall m :: 0 <= m < |ix| ==> ts[m] == lines[ix[m]].text
  {
    seq(|ix|, m requires 0 <= m < |ix| => lines[ix[m]].text)
  }

  /** The texts merged into the title: the base text, then the followers'. */
  function TitleParts(lines: seq<Line>, k: nat): seq<string>
    requires k < |lines|
  {
    var ix := Followers(lines, k + 1, lines[k].page, lines[k].font);
    [lines[k].text] + TextsAt(lines, ix)
  }

  /** The title built on base line `k`: the base line with the merged text. */
  function TitleLine(lines: seq<Line>, k: nat): (t: Line)
    requires k < |lines|
    ensures Normalized(t.text)
    ensures t.(text := lines[k].text) == lines[k]
  {
    lines[k].(text := CleanText(JoinSpace(TitleParts(lines, k))))
  }

  /** Line `k` is the base of the title: the scan's choice. */
  predicate IsTitleBase(lines: seq<Line>, k: nat) {
    ScanLimit(lines) <= |lines| && BestAmong(lines, ScanLimit(lines), Some(k), Eligible)
  }

  /** No line before the first line past page 1 can become the title. */
  predicate NoTitleCandidate(lines: seq<Line>) {
    ScanLimit(lines) <= |lines| && BestAmong(lines, ScanLimit(lines), None, Eligible)
  }

  /** Page numbers never decrease along `lines`, as for grouped lines. */
  predicate InPageOrder(lines: seq<Line>) {
    forall i, j :: 0 <= i < j < |lines| ==> lines[i].page <= lines[j].page
  }

  /** No eligible line of pages 0 and 1 has a positive font. */
  predicate NoFirstPagesCandidate(lines: seq<Line>) {
    forall j :: 0 <= j < |lines| && lines[j].page <= LastTitlePage && Eligible(lines[j]) ==>
      lines[j].font <= 0.0
  }

  /** Some plausible line of pages 0 and 1 has a zero page width. */
  predicate FirstPagesFault(lines: seq<Line>) {
    exists j :: 0 <= j < |lines| && lines[j].page <= LastTitlePage && Faults(lines[j])
  }

  /** On page-ordered lines the scan looks at exactly the lines of pages 0
      and 1. Without the order it does not: the loop stops at the first
      line past page 1, wherever it sits. */
  lemma ScanCoversFirstPages(lines: seq<Line>)
    requires InPageOrder(lines)
    ensures forall j :: 0 <= j < |lines| ==>
      (j < ScanLimit(lines) <==> lines[j].page <= LastTitlePage)
  {
    var e := ScanLimit(lines);
    forall j | 0 <= j < |lines| && e <= j ensures lines[j].page > LastTitlePage {
      assert lines[e].page <= lines[j].page;
    }
  }

  /** On page-ordered lines, "no candidate before the scan limit" and "a
      fault before the scan limit" are statements about pages 0 and 1. */
  lemma FirstPagesBound(lines: seq<Line>)
    requires InPageOrder(lines)
    ensures NoTitleCandidate(lines) <==> NoFirstPagesCandidate(lines)
    ensures NoneBefore(lines, ScanLimit(lines), Faults) <==> !FirstPagesFault(lines)
  {
    ScanCoversFirstPages(lines);
  }

  /** `t` is the title built on the scan's base line. */
  predicate IsTitle(lines: seq<Line>, t: Line) {
    exists k :: 0 <= k < |lines| && IsTitleBase(lines, k) && t == TitleLine(lines, k)
  }

  /** The first loop of `detect_title`: the index of the base line. A zero
      page width met by the width test is the division error of the
      original; otherwise there is no base exactly when no eligible line
      before the first line past page 1 has a positive font, and else the
      base is the line the scan chose. */
  function TitleBase(lines: seq<Line>): (r: Result<Option<nat>>)
    ensures r.Failure? <==> !NoneBefore(lines, ScanLimit(lines), Faults)
    ensures r.Success? ==> (r.value.None? <==> NoTitleCandidate(lines))
    ensures r.Success? && r.value.Some? ==> r.value.value < |lines| && IsTitleBase(lines, r.value.value)
  {
    ScanStart(lines);
    var s := Scan(lines, 0, None, 0.0);
    if s.Success? && s.value.Some? then
      ScanChoice(lines, s.value.value);
      s
    else s
  }

  /** `detect_title`: the title built on the base line, if there is one. */
  function DetectTitle(lines: seq<Line>): (r: Result<Option<Line>>)
    ensures r.Failure? <==> !NoneBefore(lines, ScanLimit(lines), Faults)
    ensures r.Success? ==> (r.value.None? <==> NoTitleCandidate(lines))
    ensures r.Success? && r.value.Some? ==> IsTitle(lines, r.value.value)
  {
    match TitleBase(lines)
    case Failure(e) => Failure(e)
    case Success(None) => Success(None)
    case Success(Some(k)) =>
      var t := TitleLine(lines, k);
      assert IsTitle(lines, t) by {
        assert 0 <= k < |lines| && IsTitleBase(lines, k) && t == TitleLine(lines, k);
      }
      Success(Some(t))
  }

  /** The state the scan starts from meets its preconditions. */
  lemma ScanStart(lines: seq<Line>)
    ensures 0 <= ScanLimit(lines) && NoneBefore(lines, 0, Faults)
    ensures BestAmong(lines, 0, None, Eligible) && 0.0 == Bar(lines, None)
  {
  }

  lemma ScanChoice(lines: seq<Line>, k: nat)
    requires ScanLimit(lines) <= |lines| && BestAmong(lines, ScanLimit(lines), Some(k), Eligible)
    ensures k < |lines| && IsTitleBase(lines, k) && !NoTitleCandidate(lines)
  {
    if NoTitleCandidate(lines) {
      BestUnique(lines, ScanLimit(lines), Some(k), None, Eligible);
    }
  }

  // ---------------------------------------------------------------------
  // Properties of the title

  /** The title comes from page 0 or 1, passes the plausibility and width
      tests, and has a positive font: a line with a font of 0 or less can
      never be the title, since the scan starts from 0. */
  lemma TitleFromFirstPages(lines: seq<Line>, t: Line)
    requires IsTitle(lines, t)
    ensures t.page <= LastTitlePage && t.font > 0.0 && t.pageW != 0.0
    ensures exists k :: 0 <= k < |lines| && Eligible(lines[k]) && t.font == lines[k].font
  {
    var k :| 0 <= k < |lines| && IsTitleBase(lines, k) && t == TitleLine(lines, k);
    assert k < ScanLimit(lines);
  }

  /** A letterless text (digits and punctuation only, such as "12345") is
      never the base of the title, whatever its font. */
  lemma LetterlessNeverTitle(lines: seq<Line>, k: nat)
    requires k < |lines| && IsTitleBase(lines, k)
    ensures HasLetter(lines[k].text)
  {
    assert Eligible(lines[k]);
    BaseChecksCharacterized(lines[k].text, MaxWords, MaxLen);
  }

  /** A title is never empty: its base line has a letter, and the merged
      text keeps it. */
  lemma TitleTextNonEmpty(lines: seq<Line>, k: nat)
    requires k < |lines| && IsTitleBase(lines, k) && Normalized(lines[k].text)
    ensures TitleLine(lines, k).text != []
  {
    LetterlessNeverTitle(lines, k);
    MergedTextKeepsLetter(lines, k);
  }

  lemma MergedTextKeepsLetter(lines: seq<Line>, k: nat)
    requires k < |lines| && HasLetter(lines[k].text) && Normalized(lines[k].text)
    ensures TitleLine(lines, k).text != []
  {
    assert TitleParts(lines, k)[0] == lines[k].text;
    CleanJoinKeepsLetter(TitleParts(lines, k));
  }

  /** Every line merged into the title is on the base line's page, follows
      it, and has a font of at least 90% of the base font. */
  lemma FollowersOnBasePage(lines: seq<Line>, k: nat)
    requires k < |lines|
    ensures var ix := Followers(lines, k + 1, lines[k].page, lines[k].font);
      forall m :: 0 <= m < |ix| ==>
        k < ix[m] < |lines| && lines[ix[m]].page == lines[k].page
        && lines[ix[m]].font >= lines[k].font * ExtendShare
  {
  }

  /** A smaller line does not end the extension: with a line below the
      threshold between them, a later line of the same page that reaches it
      still joins the title. */
  lemma ExtensionSkipsSmallerLine(lines: seq<Line>, k: nat)
    requires k + 2 < |lines|
    requires lines[k + 1].page == lines[k].page && lines[k + 2].page == lines[k].page
    requires lines[k + 1].font < lines[k].font * ExtendShare
    requires lines[k + 2].font >= lines[k].font * ExtendShare
    ensures var ix := Followers(lines, k + 1, lines[k].page, lines[k].font);
      !(k + 1 in ix) && k + 2 in ix
  {
    var e := RunEnd(lines, k + 1, lines[k].page);
    assert e == RunEnd(lines, k + 3, lines[k].page);
  }

  /** A title without followers whose base text is already clean is the
      base line itself. */
  lemma SingleLineTitle(lines: seq<Line>, k: nat)
    requires k < |lines| && Normalized(lines[k].text)
    requires Followers(lines, k + 1, lines[k].page, lines[k].font) == []
    ensures TitleLine(lines, k) == lines[k]
  {
    assert TitleParts(lines, k) == [lines[k].text];
    CleanTextFixesNormalized(lines[k].text);
  }

  /** The title text holds exactly the non-blank characters of the merged
      parts, in order, when the base text is clean and not empty. */
  lemma TitleKeepsContent(lines: seq<Line>, k: nat)
    requires k < |lines| && Normalized(lines[k].text) && lines[k].text != []
    ensures NonWs(TitleLine(lines, k).text) == NonWs(JoinSpace(TitleParts(lines, k)))
  {
    var parts := TitleParts(lines, k);
    var j := JoinSpace(parts);
    CleanTextKeepsContent(j);
    JoinSpaceStartsWith(parts);
    assert j[0] == lines[k].text[0];
    assert DropWhile(j, IsBulletOrWhitespace) == j;
  }
}
