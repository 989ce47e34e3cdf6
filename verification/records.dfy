/** The records that flow through the outline pipeline. The source passes
    them around as dictionaries; here each is a datatype with named fields. */
module Records {

  datatype Option<T> = None | Some(value: T)

  /** The only fault the core itself can raise: `width / page_w` with a zero
      page width while looking for the title. */
  datatype Error = DivisionByZero

  datatype Result<T> = Success(value: T) | Failure(error: Error)

  /** One text span as the extraction adapter reports it: 0-based page index,
      stripped text, font size, style flags (bit 1, which
      the source reads as bold), top-left corner,
      width, and the page's size. */
  datatype Segment = Segment(
    page: nat,
    text: string,
    font: real,
    flags: bv32,
    x: real,
    y: real,
    width: real,
    pageW: real,
    pageH: real)

  /** One visual line: the merge of one or more segments. */
  datatype Line = Line(
    page: nat,
    text: string,
    font: real,
    isBold: bool,
    x: real,
    y: real,
    width: real,
    pageW: real,
    pageH: real)

  /** One outline item; `level` k stands for the label "Hk". */
  datatype Entry = Entry(level: nat, text: string, page: nat)

  /** The document result: title text ("" without a title) and the ordered
      heading entries. */
  datatype Outline = Outline(title: string, entries: seq<Entry>)
}
