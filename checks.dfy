/**
 * Checks: the objects the resolver attaches to anchors.
 *
 * One class with a kind tag stands for the source's Check hierarchy:
 * a URL check (a file and the URI to verify), a composite check (a list of
 * sub-checks, filled in place) and the unknown check.  Running a check is not
 * part of this model.
 */
module Checks {
  import opened Anchors

  datatype CheckKind = UrlKind | CompositeKind | UnknownKind

  class Check {
    const kind: CheckKind
    /** The file the URL check resolves relative links against. */
    const file: File
    /** The URI a URL check verifies. */
    const uri: string
    /** The sub-checks of a composite check, in the order of its anchor's `ids`. */
    var checks: seq<Check>

    /** `new CompositeCheck(new ArrayList())`: a composite with no sub-checks yet. */
    constructor Composite()
      ensures kind == CompositeKind && checks == []
    {
      kind := CompositeKind;
      file := "";
      uri := "";
      checks := [];
    }

    /** `new UrlCheck(file, uri)`. */
    constructor Url(file: File, uri: string)
      ensures kind == UrlKind && this.file == file && this.uri == uri && checks == []
    {
      kind := UrlKind;
      this.file := file;
      this.uri := uri;
      checks := [];
    }

    /** The object behind `Check.unknownCheck`. */
    constructor Unknown()
      ensures kind == UnknownKind && checks == []
    {
      kind := UnknownKind;
      file := "";
      uri := "";
      checks := [];
    }
  }
}
