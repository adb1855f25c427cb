/** The part of the word-processor document model that the parser reads:
    paragraphs with their text, formatting runs and style chain. The
    parser never changes any of it, so these are values. */
module Docx {
  import opened Wrappers

  /** The value of `font.underline`: not set (None), False, True, the
      enumeration member SINGLE, or any other member (double, dotted,
      wavy, ...). */
  datatype UnderlineValue = Unset | Off | On | Single | OtherKind

  datatype Font = Font(underline: UnderlineValue)

  /** A character or paragraph style, as far as its font goes. */
  datatype Style = Style(font: Font)

  /** A formatting run: its text, its direct font formatting and its
      character style, if any. */
  datatype Run = Run(text: string, font: Font, style: Option<Style>)

  /** A paragraph. `styleChain` is the paragraph style followed by its base
      style, that style's base style, and so on; it is empty when the
      paragraph has no style. */
  datatype Paragraph = Paragraph(text: string, runs: seq<Run>, styleChain: seq<Style>)
}
