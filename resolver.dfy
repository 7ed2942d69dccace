/**
 * Reader.createCheckMap: attach a check to every (file, anchor) occurrence.
 *
 * Pass 1 gives every occurrence its own check: an empty composite, a URL
 * check, or the shared unknown check.  Pass 2 then fills each composite's
 * list by looking up, for every id it references, an occurrence that declares
 * that id, and appending the very check pass 1 stored for it.
 *
 * `UrlCheck.extractMarkdownUri` is the parameter `extractUri`; a URI it
 * refuses aborts the whole call with that error, as its
 * `DacDocParseException` does.  The shared `Check.unknownCheck` object is the
 * parameter `unknown`.
 */
module Resolver {
  import opened Wrappers
  import opened Anchors
  import opened Checks

  /** FileAnchorTuple: equal exactly when both file and anchor are equal. */
  datatype Occurrence = Occurrence(file: File, anchor: Anchor)

  predicate IsComposite(t: Occurrence)
  {
    t.anchor.anchorType == Composite
  }

  /** t's anchor declares `id=` with exactly this id. */
  predicate Declares(t: Occurrence, id: string)
  {
    t.anchor.id == Some(id)
  }

  // ---------------------------------------------------------------------
  // Flattening the file → anchors map
  // ---------------------------------------------------------------------

  /** The set of (file, anchor) occurrences of a file → anchors map. */
  function Flatten(fileAnchorMap: map<File, set<Anchor>>): (tuples: set<Occurrence>)
    ensures forall f, a :: Occurrence(f, a) in tuples <==> f in fileAnchorMap && a in fileAnchorMap[f]
    ensures forall t :: t in tuples ==> t.file in fileAnchorMap && t.anchor in fileAnchorMap[t.file]
  {
    set f, a | f in fileAnchorMap && a in fileAnchorMap[f] :: Occurrence(f, a)
  }

  ghost function PickFile(files: set<File>): File
    requires files != {}
  {
    var f :| f in files; f
  }

  /** The number of anchors of the map, summed file by file. */
  ghost function AnchorCount(fileAnchorMap: map<File, set<Anchor>>): nat
    decreases fileAnchorMap.Keys
  {
    if fileAnchorMap.Keys == {} then 0
    else
      var f := PickFile(fileAnchorMap.Keys);
      |fileAnchorMap[f]| + AnchorCount(fileAnchorMap - {f})
  }

  /** The occurrences of one file are as many as its anchors. */
  lemma {:induction false} FileOccurrenceCount(f: File, anchors: set<Anchor>)
    ensures |set a | a in anchors :: Occurrence(f, a)| == |anchors|
    decreases anchors
  {
    if anchors != {} {
      var a :| a in anchors;
      FileOccurrenceCount(f, anchors - {a});
      assert (set b | b in anchors :: Occurrence(f, b))
          == (set b | b in anchors - {a} :: Occurrence(f, b)) + {Occurrence(f, a)};
    }
  }

  /** Taking one file out splits the occurrences into that file's and the rest's. */
  lemma FlattenSplit(fileAnchorMap: map<File, set<Anchor>>, f: File)
    requires f in fileAnchorMap
    ensures Flatten(fileAnchorMap)
         == Flatten(fileAnchorMap - {f}) + set a | a in fileAnchorMap[f] :: Occurrence(f, a)
    ensures Flatten(fileAnchorMap - {f}) !! set a | a in fileAnchorMap[f] :: Occurrence(f, a)
  {
  }

  /**
   * Flattening loses nothing beyond the sets themselves: one occurrence per
   * anchor of each file, so an anchor shared by two files yields two
   * occurrences.
   */
  lemma {:induction false} FlattenCount(fileAnchorMap: map<File, set<Anchor>>)
    ensures |Flatten(fileAnchorMap)| == AnchorCount(fileAnchorMap)
    decreases fileAnchorMap.Keys
  {
    if fileAnchorMap.Keys != {} {
      var f := PickFile(fileAnchorMap.Keys);
      FlattenCount(fileAnchorMap - {f});
      FileOccurrenceCount(f, fileAnchorMap[f]);
      FlattenSplit(fileAnchorMap, f);
    }
  }

  // ---------------------------------------------------------------------
  // What the two passes produce
  // ---------------------------------------------------------------------

  /** t is a primitive occurrence with the test id of the URL check. */
  predicate NeedsUri(t: Occurrence)
  {
    !IsComposite(t) && t.anchor.testId == DefaultTestId
  }

  /** The URI extractor accepts the argument of every URL occurrence. */
  ghost predicate UrisExtract(tuples: set<Occurrence>, extractUri: string -> Result<string, ParseError>)
  {
    forall t :: t in tuples && NeedsUri(t) ==> extractUri(t.anchor.argument).Success?
  }

  /** e is the error the URI extractor gives for the argument of some URL occurrence. */
  ghost predicate RefusedUri(tuples: set<Occurrence>, extractUri: string -> Result<string, ParseError>, e: ParseError)
  {
    exists t :: t in tuples && NeedsUri(t) && extractUri(t.anchor.argument) == Failure(e)
  }

  /** The check pass 1 assigns to occurrence t. */
  ghost predicate InitialCheck(t: Occurrence, c: Check, unknown: Check,
                               extractUri: string -> Result<string, ParseError>)
    reads c
  {
    if IsComposite(t) then c.kind == CompositeKind && c.checks == []
    else if NeedsUri(t) then
      c.kind == UrlKind && c.file == t.file && extractUri(t.anchor.argument) == Success(c.uri)
    else c == unknown
  }

  /** Every check other than the unknown one belongs to a single occurrence. */
  ghost predicate OwnChecks(tuples: set<Occurrence>, result: map<Occurrence, Check>, unknown: Check)
    requires tuples <= result.Keys
  {
    forall t, u :: t in tuples && u in tuples && t != u && result[t] != unknown ==> result[t] != result[u]
  }

  /**
   * c is what a reference to `id` resolves to: the check of some occurrence
   * declaring `id`, or the unknown check when no occurrence declares it.
   */
  predicate ResolvesTo(tuples: set<Occurrence>, result: map<Occurrence, Check>, unknown: Check, id: string, c: Check)
    requires tuples <= result.Keys
  {
    if exists u :: u in tuples && Declares(u, id) then
      exists u :: u in tuples && Declares(u, id) && result[u] == c
    else
      c == unknown
  }

  /** subs lists, position by position, what each of `ids` resolves to. */
  ghost predicate Wired(tuples: set<Occurrence>, result: map<Occurrence, Check>, unknown: Check,
                        ids: seq<string>, subs: seq<Check>)
    requires tuples <= result.Keys
  {
    |subs| == |ids| &&
    forall i :: 0 <= i < |ids| ==> ResolvesTo(tuples, result, unknown, ids[i], subs[i])
  }

  /** `after` is `before` followed by the resolution of `ids`. */
  ghost predicate AppendsWired(tuples: set<Occurrence>, result: map<Occurrence, Check>, unknown: Check,
                               ids: seq<string>, before: seq<Check>, after: seq<Check>)
    requires tuples <= result.Keys
  {
    |before| <= |after| && after[..|before|] == before &&
    Wired(tuples, result, unknown, ids, after[|before|..])
  }

  /** The checks pass 2 may change: those of the composite occurrences. */
  function CompositeChecks(tuples: set<Occurrence>, result: map<Occurrence, Check>): (checks: set<Check>)
    requires tuples <= result.Keys
    ensures forall t :: t in tuples && IsComposite(t) ==> result[t] in checks
  {
    set t | t in tuples && IsComposite(t) :: result[t]
  }

  /** When exactly one occurrence declares `id`, a reference to it has one possible check. */
  lemma UniqueDeclarationResolves(tuples: set<Occurrence>, result: map<Occurrence, Check>, unknown: Check,
                                  id: string, u: Occurrence, c: Check)
    requires tuples <= result.Keys
    requires u in tuples && Declares(u, id)
    requires forall v :: v in tuples && Declares(v, id) ==> v == u
    ensures ResolvesTo(tuples, result, unknown, id, c) <==> c == result[u]
  {
  }

  /** A one-id list whose id exactly one occurrence declares holds that occurrence's check. */
  lemma WiredSingleDeclaration(tuples: set<Occurrence>, result: map<Occurrence, Check>, unknown: Check,
                               id: string, u: Occurrence, subs: seq<Check>)
    requires tuples <= result.Keys
    requires u in tuples && Declares(u, id)
    requires forall v :: v in tuples && Declares(v, id) ==> v == u
    requires Wired(tuples, result, unknown, [id], subs)
    ensures subs == [result[u]]
  {
    UniqueDeclarationResolves(tuples, result, unknown, id, u, subs[0]);
  }

  /** A reference to an id no occurrence declares resolves to the unknown check. */
  lemma MissingDeclarationResolves(tuples: set<Occurrence>, result: map<Occurrence, Check>, unknown: Check,
                                   ids: seq<string>, subs: seq<Check>, i: nat)
    requires tuples <= result.Keys
    requires Wired(tuples, result, unknown, ids, subs)
    requires i < |ids| && forall v :: v in tuples ==> !Declares(v, ids[i])
    ensures subs[i] == unknown
  {
  }

  // ---------------------------------------------------------------------
  // The passes
  // ---------------------------------------------------------------------

  /**
   * Pass 1, fillChecksInitial: give every occurrence its check, or stop with
   * the error of a URL occurrence whose argument the URI extractor refuses.
   */
  method FillChecksInitial(tuples: set<Occurrence>, unknown: Check,
                           extractUri: string -> Result<string, ParseError>)
    returns (r: Result<map<Occurrence, Check>, ParseError>)
    requires unknown.kind == UnknownKind
    ensures r.Success? <==> UrisExtract(tuples, extractUri)
    ensures r.Failure? ==> RefusedUri(tuples, extractUri, r.error)
    ensures r.Success? ==> r.value.Keys == tuples
    ensures r.Success? ==> forall t :: t in tuples ==> InitialCheck(t, r.value[t], unknown, extractUri)
    ensures r.Success? ==> forall t :: t in tuples && r.value[t] != unknown ==> fresh(r.value[t])
    ensures r.Success? ==> forall t :: t in tuples && IsComposite(t) ==> fresh(r.value[t])
    ensures r.Success? ==> OwnChecks(tuples, r.value, unknown)
  {
    var result: map<Occurrence, Check> := map[];
    var remaining := tuples;
    while remaining != {}
      invariant remaining <= tuples
      invariant result.Keys == tuples - remaining
      invariant forall t :: t in result ==> InitialCheck(t, result[t], unknown, extractUri)
      invariant forall t :: t in result && result[t] != unknown ==> fresh(result[t])
      invariant forall t :: t in result && IsComposite(t) ==> fresh(result[t])
      invariant OwnChecks(result.Keys, result, unknown)
      decreases remaining
    {
      var t :| t in remaining;
      var check: Check;
      if t.anchor.anchorType == Composite {
        check := new Check.Composite();
      } else if t.anchor.testId == DefaultTestId {
        var uri := extractUri(t.anchor.argument);
        if uri.Failure? {
          return Failure(uri.error);
        }
        check := new Check.Url(t.file, uri.value);
      } else {
        check := unknown;
      }
      result := result[t := check];
      remaining := remaining - {t};
    }
    assert forall t :: t in tuples ==> InitialCheck(t, result[t], unknown, extractUri);
    r := Success(result);
  }

  /**
   * The lookup for one referenced id: the check of an occurrence declaring
   * it, or the unknown check when there is none.
   */
  method LookupSubCheck(tuples: set<Occurrence>, result: map<Occurrence, Check>, unknown: Check, id: string)
    returns (subCheck: Check)
    requires result.Keys == tuples
    ensures ResolvesTo(tuples, result, unknown, id, subCheck)
  {
    if exists u :: u in tuples && Declares(u, id) {
      var u :| u in tuples && Declares(u, id);
      subCheck := result[u];
    } else {
      subCheck := unknown;
    }
  }

  /** Resolve the ids of one composite and append the results to its list. */
  method AppendSubChecks(tuples: set<Occurrence>, result: map<Occurrence, Check>, unknown: Check,
                         composite: Check, ids: seq<string>)
    requires result.Keys == tuples
    modifies composite
    ensures AppendsWired(tuples, result, unknown, ids, old(composite.checks), composite.checks)
  {
    ghost var before := composite.checks;
    for j := 0 to |ids|
      invariant |composite.checks| == |before| + j && composite.checks[..|before|] == before
      invariant forall i :: 0 <= i < j ==>
        ResolvesTo(tuples, result, unknown, ids[i], composite.checks[|before| + i])
    {
      var subCheck := LookupSubCheck(tuples, result, unknown, ids[j]);
      composite.checks := composite.checks + [subCheck];
    }
  }

  /**
   * Pass 2, fillChecksComposite: append to each composite's list, in the
   * order of its `ids`, the check each id resolves to.  Only the composite
   * checks' lists change; the map itself is not touched.
   */
  method FillChecksComposite(tuples: set<Occurrence>, result: map<Occurrence, Check>, unknown: Check)
    requires result.Keys == tuples
    requires forall t :: t in tuples && IsComposite(t) ==> result[t].kind == CompositeKind
    requires forall t, u :: t in tuples && u in tuples && t != u && IsComposite(t) ==> result[t] != result[u]
    modifies CompositeChecks(tuples, result)
    ensures forall t :: t in tuples && IsComposite(t) ==>
      AppendsWired(tuples, result, unknown, t.anchor.ids, old(result[t].checks), result[t].checks)
  {
    var todo := set t | t in tuples && IsComposite(t);
    while todo != {}
      invariant todo <= tuples && forall t :: t in todo ==> IsComposite(t)
      invariant forall t :: t in tuples && IsComposite(t) && t !in todo ==>
        AppendsWired(tuples, result, unknown, t.anchor.ids, old(result[t].checks), result[t].checks)
      invariant forall t :: t in todo ==> result[t].checks == old(result[t].checks)
      decreases todo
    {
      var t :| t in todo;
      AppendSubChecks(tuples, result, unknown, result[t], t.anchor.ids);
      todo := todo - {t};
    }
  }

  /**
   * createCheckMap: every occurrence of the map gets exactly one check; each
   * composite's sub-checks follow its `ids` one for one.  A URI the extractor
   * refuses aborts the call before pass 2.
   */
  method CreateCheckMap(fileAnchorMap: map<File, set<Anchor>>, unknown: Check,
                        extractUri: string -> Result<string, ParseError>)
    returns (r: Result<map<Occurrence, Check>, ParseError>)
    requires unknown.kind == UnknownKind
    ensures r.Success? <==> UrisExtract(Flatten(fileAnchorMap), extractUri)
    ensures r.Failure? ==> RefusedUri(Flatten(fileAnchorMap), extractUri, r.error)
    ensures r.Success? ==> r.value.Keys == Flatten(fileAnchorMap)
    ensures r.Success? ==> forall t :: t in r.value && !IsComposite(t) ==>
      InitialCheck(t, r.value[t], unknown, extractUri)
    ensures r.Success? ==> forall t :: t in r.value && IsComposite(t) ==>
      r.value[t].kind == CompositeKind && Wired(r.value.Keys, r.value, unknown, t.anchor.ids, r.value[t].checks)
    ensures r.Success? ==> forall t :: t in r.value && r.value[t] != unknown ==> fresh(r.value[t])
    ensures r.Success? ==> forall t :: t in r.value && IsComposite(t) ==> fresh(r.value[t])
    ensures r.Success? ==> OwnChecks(r.value.Keys, r.value, unknown)
  {
    var tuples := Flatten(fileAnchorMap);
    var initial := FillChecksInitial(tuples, unknown, extractUri);
    if initial.Failure? {
      return Failure(initial.error);
    }
    var result := initial.value;
    FillChecksComposite(tuples, result, unknown);
    r := Success(result);
  }

  /**
   * Two composites in one file that reference each other: resolution still
   * finishes, and each one's only sub-check is the other's check object.
   */
  method CyclicCompositesResolve(extractUri: string -> Result<string, ParseError>) returns (a: Check, b: Check)
    ensures a != b && a.kind == CompositeKind && b.kind == CompositeKind
    ensures a.checks == [b] && b.checks == [a]
  {
    var unknown := new Check.Unknown();
    var anchorA := Anchor("!DACDOC ids=b;id=a!", Composite, Some("a"), ["b"], DefaultTestId, "");
    var anchorB := Anchor("!DACDOC ids=a;id=b!", Composite, Some("b"), ["a"], DefaultTestId, "");
    var ta, tb := Occurrence("doc.md", anchorA), Occurrence("doc.md", anchorB);
    var files := map["doc.md" := {anchorA, anchorB}];
    assert Flatten(files) == {ta, tb};
    var r := CreateCheckMap(files, unknown, extractUri);
    var result := r.value;
    assert result.Keys == {ta, tb};
    a, b := result[ta], result[tb];
    WiredSingleDeclaration(result.Keys, result, unknown, "b", tb, a.checks);
    WiredSingleDeclaration(result.Keys, result, unknown, "a", ta, b.checks);
  }
}
