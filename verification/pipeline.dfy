/** The per-document pipeline of `process_pdf`: lines from segments, then
    the title, the heading candidates and the levelled outline. */
module Pipeline {
  import opened Records
  import opened Grouping
  import opened TitleDetection
  import opened Candidates
  import opened Levels

  /** The visual lines of a document, with the default tolerances. */
  function Lines(segs: seq<Segment>): seq<Line> {
    GroupSegmentsToLines(segs, YTol, FontTol)
  }

  /** The core of `process_pdf` as written. The only fault is the division
      by a zero page width while looking for the title. */
  function ProcessAsWritten(segs: seq<Segment>): (r: Result<Outline>)
    ensures r.Failure? <==> !NoneBefore(Lines(segs), ScanLimit(Lines(segs)), Faults)
  {
    var lines := Lines(segs);
    match DetectTitle(lines)
    case Failure(e) => Failure(e)
    case Success(title) =>
      Success(AssignLevels(HeadingCandidates(lines, title).0, title))
  }

  /** The pipeline with the title test of the candidate selection excluding
      every line merged into the title. It fails exactly when the original
      does and finds the same title. */
  function Process(segs: seq<Segment>): (r: Result<Outline>)
    ensures r.Failure? <==> !NoneBefore(Lines(segs), ScanLimit(Lines(segs)), Faults)
    ensures r.Success? ==> r.value.title == ProcessAsWritten(segs).value.title
  {
    var lines := Lines(segs);
    match TitleBase(lines)
    case Failure(e) => Failure(e)
    case Success(None) =>
      Success(AssignLevels(HeadingCandidatesExclusive(lines, None, {}).0, None))
    case Success(Some(k)) =>
      var title := Some(TitleLine(lines, k));
      Success(AssignLevels(HeadingCandidatesExclusive(lines, title, TitleMembers(lines, k)).0, title))
  }

  // ---------------------------------------------------------------------
  // Properties

  /** Grouped lines come in page order, so the title scan looks at exactly
      the lines of pages 0 and 1. */
  lemma LinesScanFirstPages(segs: seq<Segment>)
    ensures var lines := Lines(segs);
      forall j :: 0 <= j < |lines| ==> (j < ScanLimit(lines) <==> lines[j].page <= LastTitlePage)
    ensures NoTitleCandidate(Lines(segs)) <==> NoFirstPagesCandidate(Lines(segs))
    ensures NoneBefore(Lines(segs), ScanLimit(Lines(segs)), Faults) <==> !FirstPagesFault(Lines(segs))
  {
    LinesInPageOrder(segs, YTol, FontTol);
    ScanCoversFirstPages(Lines(segs));
    FirstPagesBound(Lines(segs));
  }

  /** Both pipelines fail exactly when a plausible line of pages 0 and 1 has
      a zero page width. */
  lemma FailsIffFirstPagesFault(segs: seq<Segment>)
    ensures ProcessAsWritten(segs).Failure? <==> FirstPagesFault(Lines(segs))
    ensures Process(segs).Failure? <==> FirstPagesFault(Lines(segs))
  {
    LinesScanFirstPages(segs);
  }

  /** The outline's title is empty exactly when no line of pages 0 and 1
      qualifies as the title. */
  lemma EmptyTitleIffNoCandidate(segs: seq<Segment>)
    requires Process(segs).Success?
    ensures Process(segs).value.title == "" <==> NoTitleCandidate(Lines(segs))
    ensures Process(segs).value.title == "" <==> NoFirstPagesCandidate(Lines(segs))
  {
    EmptyTitleAtScan(segs);
    LinesScanFirstPages(segs);
  }

  /** The title is empty exactly when the scan finds no candidate. */
  lemma EmptyTitleAtScan(segs: seq<Segment>)
    requires Process(segs).Success?
    ensures Process(segs).value.title == "" <==> NoTitleCandidate(Lines(segs))
  {
    var lines := Lines(segs);
    var base := TitleBase(lines);
    if base.Success? && base.value.Some? {
      LinesNormalized(segs, YTol, FontTol);
      TitleTextNonEmpty(lines, base.value.value);
    }
  }

  /** A document without segments gives an empty title and an empty
      outline, and no fault. */
  lemma EmptyDocument()
    ensures Process([]) == Success(Outline("", []))
    ensures ProcessAsWritten([]) == Success(Outline("", []))
  {
    var lines := Lines([]);
    assert lines == [];
    NoLinesNoTitle(lines);
    NoLinesNoCandidates(lines);
  }

  lemma NoLinesNoTitle(lines: seq<Line>)
    requires lines == []
    ensures TitleBase(lines) == Success(None) && DetectTitle(lines) == Success(None)
  {
    assert NoneBefore(lines, ScanLimit(lines), Faults);
    assert NoTitleCandidate(lines);
  }

  lemma NoLinesNoCandidates(lines: seq<Line>)
    requires lines == []
    ensures HeadingCandidates(lines, None).0 == []
    ensures HeadingCandidatesExclusive(lines, None, {}).0 == []
    ensures AssignLevels([], None) == Outline("", [])
  {
  }

  /** The corrected pipeline never lists a line of the title as a heading:
      its candidates are exactly the lines the pipeline as written keeps,
      minus the lines merged into the title. */
  lemma ExclusiveDropsOnlyTitleLines(segs: seq<Segment>, k: nat)
    requires TitleBase(Lines(segs)) == Success(Some(k))
    ensures var lines := Lines(segs);
      var title := Some(TitleLine(lines, k));
      var members := TitleMembers(lines, k);
      && (forall j :: j in members ==> j !in CandidateIndicesExclusive(lines, title, members))
      && (forall j: nat :: j !in members ==>
            (j in CandidateIndicesExclusive(lines, title, members) <==> j in CandidateIndices(lines, title)))
  {
    var lines := Lines(segs);
    ExclusiveOmitsTitle(lines, Some(TitleLine(lines, k)), TitleMembers(lines, k));
  }
}
