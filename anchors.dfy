/**
 * Anchors: the parsed form of one `!DACDOC…!` placeholder.
 *
 * The parser that builds an Anchor from the placeholder's full text
 * (`Anchor.from`) is not part of this model; it reaches the model as a
 * function-typed parameter.  An Anchor is a value: two anchors are equal
 * exactly when all of their fields are equal.  The parser is expected to
 * derive the other fields from the placeholder text it keeps in `text`, but
 * nothing in this model relies on that.
 */
module Anchors {
  import opened Wrappers

  /** A file is identified by its path, as java.io.File equality is. */
  type File = string

  datatype AnchorType = Primitive | Composite

  datatype Anchor = Anchor(
    text: string,           // the full placeholder text, framing included
    anchorType: AnchorType,
    id: Option<string>,     // the `id=` parameter, if declared
    ids: seq<string>,       // the `ids=` references of a composite anchor, in order
    testId: string,         // the `test=` parameter, defaulted by the parser
    argument: string)       // the bare argument of a primitive anchor

  /** Why the parser refused a placeholder; its wording is the parser's business. */
  datatype ParseError = MalformedPlaceholder(message: string)

  /** The test id that selects the URL-existence check. */
  const DefaultTestId: string := "dacdoc-url"
}
