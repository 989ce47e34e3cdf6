# Outline inference from text layout, modelled in Dafny

This project models the heuristic core of `main.py`, which infers a
document outline from text spans and their layout. The outline is a title
plus a ranked list of headings, each with its page. The Dafny model follows
the stages of the original:

- **Text** (`text.dfy`, `chars.dfy`). `clean_text` turns newlines into
  spaces, strips, drops a leading run of bullets and whitespace, collapses
  whitespace runs and strips again. `base_checks` rejects empty and
  letterless texts, texts of more than 40 words and texts of more than 200
  characters. `has_title_hint` looks for a title hint word among the
  whitespace-separated tokens.
- **Grouping** (`grouping.dfy`). `group_segments_to_lines` sorts segments
  by (page, y, x). It extends the open group while the next segment is on
  the same page as the group's last member, within 3.0 of its y and within
  1.0 of its font size. `_finalize_line` merges each group into one line.
- **Title** (`title.dfy`). `detect_title` scans the lines up to the first
  line past page 1 for the first plausible, wide-enough (or hinted) line
  with a strictly largest font. Grouped lines come in page order, so these
  are the lines of pages 0 and 1. It then appends every later line of the same page whose
  font is at least 90% of the base font.
- **Running furniture** (`repeated.dfy`). `detect_repeated` returns the
  lower-cased texts found on at least 40% of the pages. It returns none for
  documents of one page or none.
- **Candidates** (`candidates.dfy`, `indices.dfy`, `stats.dfy`).
  `heading_candidates` keeps, in document order, every line that:
  - is not the (title page, title text) pair;
  - is not running furniture;
  - passes `base_checks` and has at least 3 characters;
  - has a font of at least 1.25 times the body median, or is written in
    capitals.
- **Levels** (`levels.dfy`, `sorting.dfy`). `assign_levels` gives the k-th
  largest distinct candidate font the level Hk. It lists the candidates
  ordered by (page, y).
- **Pipeline** (`pipeline.dfy`). These stages compose as in `process_pdf`.

Records are immutable datatypes (`records.dfy`), and collections are
sequences and sets. Font sizes and coordinates are `real`. The only fault
the core can raise is Python's `ZeroDivisionError`. It happens when the
width test divides by a zero page width. The model returns it as
`Failure(DivisionByZero)`.

The title extension at `main.py:135-139` does not stop at the first line
below 90% of the base font. It skips that line and stops only at a page
change (`TitleDetection.ExtensionSkipsSmallerLine`).

## Model

| member | source | states |
|---|---|---|
| Text.CleanText | main.py:24-27 | the result has no leading or trailing whitespace, no two whitespace characters in a row, only plain spaces as whitespace, and does not start with a bullet |
| Text.CleanTextKeepsContent | main.py:24-27 | cleaning loses no content: the non-blank characters of the result are those of the input once its leading bullets and whitespace are gone |
| Text.CleanTextIdempotent | main.py:24-27 | cleaning a cleaned text changes nothing |
| Text.CleanTextFixesNormalized | main.py:24-27 | every text of the normalised shape is a fixed point of cleaning |
| Text.Collapse | main.py:27 | replacing whitespace runs by one space leaves no double whitespace, only spaces, the same non-blank content, and an empty result only for an empty input |
| Text.CollapseLast | main.py:27 | the end of the text is kept: a trailing whitespace run becomes one final space, and a final non-blank character stays last |
| Text.Words | main.py:32 | `split()` yields non-empty whitespace-free words whose concatenation is exactly the text's non-blank content |
| Text.WordsOfCollapse | main.py:27 | collapsing whitespace runs keeps the words: the collapsed text splits into exactly the words of the original |
| Text.JoinWordsOfNormalized | main.py:32 | a normalised text is its words joined by single spaces, so its word boundaries are exactly its spaces |
| Text.WordsOfCleanText | main.py:24-27 | cleaning keeps the words: the cleaned text splits into exactly the words of the input after its leading run of bullets and whitespace |
| Text.WordsOfJoin | main.py:32 | splitting a space-joined list of words gives back that list |
| Text.BaseChecksCharacterized | main.py:29-37 | `base_checks` accepts exactly the texts with a letter, at most `max_words` words and at most `max_len` characters; the empty text is rejected |
| Text.BaseChecks | main.py:29-37 | `base_checks`; it is characterised by Text.BaseChecksCharacterized |
| Text.HasTitleHintOfJoin | main.py:112-114 | on a space-joined word list, a hint is found iff some word, stripped of `.,:;()` and lower-cased, is a hint word |
| Text.HasTitleHint | main.py:112-114 | `has_title_hint`; it is characterised by Text.HasTitleHintOfJoin |
| Text.HintTokenIgnoresCase | main.py:113 | upper-casing in the text does not hide a hint word |
| Sorting.SortBy | main.py:66 | `sorted` returns an ordered permutation of its input |
| Sorting.SortByStable | main.py:66 | `sorted` is stable: for every key, the elements whose keys tie with it appear in the result in their input order |
| Grouping.GroupFrom | main.py:69-84 | the streaming merge yields non-empty chained groups separated at every boundary, whose concatenation is the open group followed by the remaining segments |
| Grouping.GroupSegments | main.py:65-85 | the groups partition the segments: concatenated they are the (page, y, x)-sorted segments; each is non-empty and chained; no boundary could have been merged; no groups iff no segments |
| Grouping.GroupSegmentsStable | main.py:66 | read group by group, segments whose (page, y, x) keys tie keep their input order |
| Grouping.GroupSegmentsToLines | main.py:65-85 | one line per group, in group order, each the finalisation of its group; no lines iff no segments |
| Grouping.Finalize | main.py:87-109 | `_finalize_line`; it is characterised by Grouping.FinalizeProperties, Grouping.FinalizeSpan and Grouping.FinalizeKeepsText |
| Grouping.FinalizeProperties | main.py:87-109 | a line takes page and page size from its first segment, the largest segment font, the bold bit from the OR of the flags, the smallest x and y, and a normalised text |
| Grouping.FinalizeSpan | main.py:93-94 | the line's right edge is the rightmost segment edge, and its width is not negative when no segment's is |
| Grouping.FinalizeKeepsText | main.py:88 | the line text keeps every non-blank character of the joined segment texts after the leading bullets |
| Grouping.GroupsStayOnOnePage | main.py:74-79 | every segment of a line is on that line's page: segments of different pages are never merged |
| Grouping.LinesInPageOrder | main.py:65-85 | lines come out in non-decreasing page order |
| Grouping.LinesNormalized | main.py:88 | every line text is normalised |
| Stats.MedianIgnoresOrder | main.py:162 | the median depends only on the collection of values |
| Stats.MedianIsMiddle | main.py:162 | for an odd count n the median is the (n/2+1)-th smallest value (fewer than n/2+1 values lie below it, at least n/2+1 are at most it); for an even count it is the mean of the (n/2)-th and (n/2+1)-th smallest |
| Stats.KthSmallestUnique | main.py:162 | the k-th smallest value is unique, so the characterisation above determines the median |
| Candidates.BodyMedian | main.py:161-162 | the body font is 12.0 when no line has text, otherwise it lies between the smallest and largest font of the lines with text |
| Candidates.BodyMedianIsMiddle | main.py:161-162 | with at least one line with text, the body font is the middle order statistic of those lines' fonts |
| Candidates.BodyMedianIgnoresOrder | main.py:161-162 | the body font depends only on the collection of body fonts |
| TitleDetection.PastPage | main.py:119-121 | the scan limit is the first line past the given page, and every line before it is on or before that page |
| TitleDetection.Scan | main.py:117-128 | the loop fails iff a plausible line before the limit has a zero page width; otherwise it ends at the first eligible line with a strictly largest positive font, or with none when no eligible line has a positive font |
| TitleDetection.BestUnique | main.py:119-128 | the scan's choice is unique |
| TitleDetection.TitleBase | main.py:116-130 | the base line is absent exactly when no eligible line before the first line past page 1 has a positive font, and otherwise is the scan's choice; a plausible line with a zero page width there is the division fault |
| TitleDetection.Followers | main.py:135-139 | the appended lines are, in order, exactly the lines of the base line's page run whose font reaches 90% of the base font |
| TitleDetection.TitleLine | main.py:140-143 | the title is the base line with only its text replaced by a normalised text |
| TitleDetection.DetectTitle | main.py:116-143 | no title iff no eligible line before the first line past page 1 has a positive font; otherwise the title is built on the scan's choice; the division fault is reported as a failure |
| TitleDetection.ScanCoversFirstPages | main.py:119-121 | on lines in page order, the lines before the first line past page 1 are exactly the lines of pages 0 and 1 |
| TitleDetection.FirstPagesBound | main.py:116-130 | on lines in page order, "no title candidate" and "a division fault" in the scan are the same as no eligible positive-font line, and some plausible zero-width line, on pages 0 and 1 |
| TitleDetection.TitleFromFirstPages | main.py:118-128 | a title comes from page 0 or 1, has a positive font and a non-zero page width, and has the font of an eligible line |
| TitleDetection.LetterlessNeverTitle | main.py:123 | a letterless text such as "12345" is never the base of the title |
| TitleDetection.TitleTextNonEmpty | main.py:123-142 | a title built on a clean line never has an empty text |
| TitleDetection.FollowersOnBasePage | main.py:135-139 | appended lines follow the base line, are on its page and reach 90% of its font |
| TitleDetection.ExtensionSkipsSmallerLine | main.py:135-139 | a smaller line does not end the extension: a later line of the same page still joins |
| TitleDetection.SingleLineTitle | main.py:132-143 | without followers, the title built on a clean line is that line unchanged |
| TitleDetection.TitleKeepsContent | main.py:133-142 | the title text has exactly the non-blank characters of the joined parts |
| Repetition.PageCount | main.py:147 | the page count exceeds every page index, is 0 only for no lines, and is attained by some line |
| Repetition.Tally | main.py:149-156 | the counter ends with each key's number of distinct pages |
| Repetition.DetectRepeated | main.py:146-157 | no repeated text in a document of at most one page; otherwise a key is repeated iff its distinct pages reach 40% of the page count |
| Repetition.RepeatedDependsOnPairs | main.py:151-156 | only the set of (page, text) pairs matters: line order and repeats on one page change nothing |
| Repetition.OnEveryPageIsRepeated | main.py:157 | a text on every page of a multi-page document is repeated |
| Candidates.HeadingCandidates | main.py:160-177 | the candidates are the lines selected, in input order, by the loop's tests, and the body font median is returned alongside |
| Candidates.HeadingCandidatesDetermined | main.py:160-177 | any sequence that selects, in input order, exactly the lines the loop keeps is the candidate list, so the selection contract determines it |
| Candidates.CandidatesQualify | main.py:165-176 | every candidate is an input line that is not the title pair, not running furniture, plausible, at least 3 long and large or in capitals; every such line is a candidate |
| Candidates.LetterlessNeverCandidate | main.py:171 | a letterless text such as "12345" is never a heading |
| Candidates.TitleTextDiffers | main.py:133-142 | with a non-blank follower, the merged title text differs from the base line's text |
| Candidates.AsWrittenKeepsTitleBase | main.py:167 | as written, the base of a multi-line title stays a heading candidate whenever it passes the other tests |
| Candidates.HeadingCandidatesExclusive | main.py:160-177 | the corrected selection picks, in input order, the lines that pass all tests and are not among the title's lines |
| Candidates.ExclusiveOmitsTitle | main.py:167 | the corrected selection keeps no title line, and otherwise agrees with the selection as written |
| Levels.InsertDesc | main.py:182 | inserting into a strictly decreasing list keeps it strictly decreasing and adds just the new size |
| Levels.FontRanks | main.py:182 | the ranked sizes are strictly decreasing and are exactly the candidate sizes |
| Levels.FontRanksUnique | main.py:182 | any strictly decreasing list of the same sizes equals the ranked sizes, i.e. `sorted(set, reverse=True)` |
| Levels.LevelTable | main.py:183-185 | the table maps exactly the ranked sizes, the k-th largest to level k |
| Levels.LevelIsRank | main.py:183-188 | every candidate font is in the table, so the "H1" fallback never applies, and its level is one more than the number of larger distinct sizes |
| Levels.Ordered | main.py:187 | the reading order is a permutation of the candidates sorted by (page, y) |
| Levels.AssignLevels | main.py:180-190 | one outline entry per candidate; the outline title is the title line's text, or "" without a title |
| Levels.EntriesAreRankedCandidates | main.py:186-190 | entry i holds the text and page of the i-th candidate in reading order and the dense rank of its font; the title is "" without a title |
| Levels.EntriesInReadingOrder | main.py:187-189 | the entries hold the candidates, each as often as given, ordered by page and then by y; entry pages never decrease; candidates whose (page, y) keys tie keep their input order |
| Levels.RankFollowsSize | main.py:182-185 | a larger size has a smaller rank, and equal sizes share one |
| Levels.LevelsFollowFontSize | main.py:182-188 | between two entries, the larger font has the smaller level number, and equal fonts share a level |
| Levels.LevelsDense | main.py:182-188 | the levels used are exactly 1 to k, for k distinct candidate fonts |
| Levels.TwoSizes | main.py:182-188 | with two distinct sizes (say 18, 14, 14), the larger gives H1 and the smaller H2 |
| Pipeline.ProcessAsWritten | main.py:197-201 | the pipeline fails exactly when the title scan meets a plausible line with a zero page width |
| Pipeline.EmptyTitleIffNoCandidate | main.py:116-130 | the outline's title is "" exactly when the scan finds no candidate, which for grouped lines means that no eligible line of pages 0 and 1 has a positive font |
| Pipeline.EmptyDocument | main.py:196-201 | no segments give the title "" and an empty outline, without a fault |
| Pipeline.Process | main.py:197-201 | the corrected pipeline fails exactly when the title scan meets a plausible line with a zero page width, and gives the title of the pipeline as written |
| Pipeline.LinesScanFirstPages | main.py:119-121 | grouped lines come in page order, so the title scan looks at exactly the lines of pages 0 and 1 |
| Pipeline.FailsIffFirstPagesFault | main.py:119-124 | both pipelines fail exactly when a plausible line of pages 0 and 1 has a zero page width |
| Pipeline.ExclusiveDropsOnlyTitleLines | main.py:167 | the corrected pipeline lists no line of the title, and otherwise the same lines as the original |

## Left out

- `collect_segments` (main.py:40-63) reads the PDF through PyMuPDF. It is replaced by its output: the model's input is a sequence of `Segment` records.
- `process_pdf`'s `try`/`except`, `fitz.open` and `process_pdfs` (main.py:193-214) do file I/O, JSON output and printing. `Pipeline.Process` and `Pipeline.ProcessAsWritten` return the division fault as a `Failure` instead of an error record.
- The unused constants `SECTION_NUM_RE` and `FORM_KEYWORDS` (main.py:14, 21) are not modelled.
- Character classes are ASCII only. Whitespace is the ASCII characters Python counts as whitespace: space, U+0009 to U+000D and U+001C to U+001F. A letter is A-Z or a-z, and lower-casing maps only A-Z. Python's Unicode tables are not modelled.
- Font sizes and coordinates are exact reals. Floating-point rounding, infinities and NaN are not modelled, and neither are real comparisons of width ratios that are close to 0.25.
- Style flags are 32-bit vectors. Python integers are unbounded, but only bit 1 is ever read.
- Sorting.SortBy, Levels.Ordered, Grouping.GroupSegments: their contracts state an ordered permutation. Stability among equal keys is stated separately, by Sorting.SortByStable, Levels.EntriesInReadingOrder and Grouping.GroupSegmentsStable.
- TitleDetection.TitleKeepsContent, TitleDetection.SingleLineTitle and TitleDetection.TitleTextNonEmpty: they require a normalised base text. Every line from the grouping stage has one (`Grouping.LinesNormalized`).
- Candidates.AsWrittenKeepsTitleBase: it requires the first appended line to have a normalised, non-empty text. This holds for every line from the grouping stage, except that an empty text is possible in principle.
- Labels "H1", "H2", ... are the numbers 1, 2, ... in `Entry.level`.

## Findings

| source | as written | input that shows it | evidently intended | confidence | as-written member | corrected member |
|---|---|---|---|---|---|---|
| main.py:167 | A line is excluded as the title only if its text equals the merged title text. A title built from several lines has a merged text that no single line has, so its base line and followers stay heading candidates. | One page, two full-width lines "ANNUAL REPORT" and "FISCAL YEAR" at font 20. The title is "ANNUAL REPORT FISCAL YEAR". Both lines are in capitals, so both are also listed as H1 headings. | No line that makes up the title is ever a heading candidate. | not executed | Candidates.AsWrittenKeepsTitleBase | Candidates.ExclusiveOmitsTitle |

`Pipeline.ProcessAsWritten` keeps the original behaviour. `Pipeline.Process`,
the pipeline the model stands by, uses the corrected selection
(`Candidates.HeadingCandidatesExclusive`), which excludes every line merged
into the title.
