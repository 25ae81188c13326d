/** The values a conversion specifier works on while matching a log line. */
module Pattern {

  /** The part of a log line a specifier has claimed: its text and its offsets
      (`to` exclusive). */
  datatype ProcessedString = ProcessedString(processed: string, from: int, to: int)

  /** The result of rendering one specifier against a line: the literal it matched
      and where it lies. */
  datatype RenderedLogEvent = RenderedLogEvent(literal: string, from: int, to: int)
}
