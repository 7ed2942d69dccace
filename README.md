# DacDoc placeholder reader and check resolver, in Dafny

DacDoc checks claims embedded in markdown documentation.  An author writes a
placeholder such as `!DACDOC[Example](http://example.com);id=a!` or
`!DACDOC ids=a,b!` in a `.md` file.  The `Reader` class finds the placeholders
of every file, turns each one into an `Anchor`, and then builds the table that
attaches a `Check` to every (file, anchor) occurrence:

- a primitive anchor whose test id is `dacdoc-url` gets a URL check built from
  the occurrence's file and the URI taken from the anchor's argument;
- any other primitive anchor gets the shared unknown check;
- a composite anchor gets its own composite check, whose list of sub-checks a
  second pass fills with the checks of the anchors its `ids` name, in order,
  using the unknown check for an id that no anchor declares.

This project models that core in Dafny 4.11:

- `wrappers.dfy`: `Option` and `Result`.
- `anchors.dfy` (module `Anchors`): the `Anchor` value, the files, the
  default test id `dacdoc-url`.
- `placeholder_pattern.dfy` (module `PlaceholderPattern`): the pattern
  `!DACDOC((.|\n|\r)*?)!` and the way `Matcher.find()` walks a text with it,
  written as pure functions, with the proof that the scan yields exactly the
  successive leftmost, non-overlapping matches.
- `reader.dfy` (module `Reader`): the `while (find())` loop of `parseFiles` and
  the loop over the files, as methods proved against that scan.
- `checks.dfy` (module `Checks`): the `Check` class with its three kinds; a
  composite's sub-check list is a field that the resolver updates in place.
- `resolver.dfy` (module `Resolver`): the flattening of the file → anchors map
  into occurrences, pass 1 (`fillChecksInitial`), pass 2
  (`fillChecksComposite`) and `createCheckMap`.  The body of pass 2's loop
  over one composite is written as two methods: `LookupSubCheck` for the
  search of one id and `AppendSubChecks` for the loop over the `ids`.

The anchor parser `Anchor.from` and `UrlCheck.extractMarkdownUri` are not part
of this model; they enter as function-typed parameters (`anchorFrom`,
`extractUri`), so every property holds whatever they compute.  Both may refuse
their input with a `ParseError`, which stands for `DacDocParseException`.  The shared
`Check.unknownCheck` object is the parameter `unknown`.  File reading is not
modelled: `ParseFiles` receives every file's contents.

Three behaviours of the code worth stating:

- The code aborts `parseFiles` altogether when one placeholder fails to parse;
  it does not carry on with the other files.
- The code does not detect reference cycles between composites.  Pass 2 only
  appends references, so it terminates anyway, and a composite may end up in
  its own sub-check graph (`CyclicCompositesResolve`).
- When several occurrences declare the same id, the code takes the first one
  in hash-set order.  The model lets pass 2 take any of them.

## Model

| member | source | states |
|---|---|---|
| `PlaceholderPattern.CloseFrom` | dacdoc-core/src/main/java/org/flussig/documentation/text/Reader.java:23-27 | the reluctant body followed by `!` ends just after position e exactly when s[e-1] is `!` and no `!` or line separator (U+0085, U+2028, U+2029) comes before it |
| `PlaceholderPattern.MatchAt` | dacdoc-core/src/main/java/org/flussig/documentation/text/Reader.java:23-27 | the pattern tried at i ends at e if and only if `s[i..e]` is `!DACDOC`, a body with no `!` and no line separator, then `!` |
| `PlaceholderPattern.Find` | dacdoc-core/src/main/java/org/flussig/documentation/text/Reader.java:66 | `find()` returns a match starting at or after `from` with no match starting before it, and returns nothing only when no match starts at or after `from` |
| `PlaceholderPattern.Spans` | dacdoc-core/src/main/java/org/flussig/documentation/text/Reader.java:64-67 | every region the `find()` loop visits is a match of the pattern at or after its start point |
| `PlaceholderPattern.SpansAreLeftmost` | dacdoc-core/src/main/java/org/flussig/documentation/text/Reader.java:64-67 | the visited regions are in order, do not overlap, and no match starts in any gap before, between or after them |
| `PlaceholderPattern.LeftmostMatchesUnique` | dacdoc-core/src/main/java/org/flussig/documentation/text/Reader.java:64-67 | any sequence of leftmost non-overlapping matches is the one the loop visits, so the scan is fully determined by the text |
| `PlaceholderPattern.Placeholders` | dacdoc-core/src/main/java/org/flussig/documentation/text/Reader.java:64-67 | the texts `group()` returns, in order: one per region the `find()` loop visits, each the text of that region |
| `PlaceholderPattern.PlaceholderShape` | dacdoc-core/src/main/java/org/flussig/documentation/text/Reader.java:23-27 | every text `group()` returns starts with `!DACDOC`, ends at the first `!` after it, and holds no line separator |
| `Reader.ExtractAnchors` | dacdoc-core/src/main/java/org/flussig/documentation/text/Reader.java:58-72 | succeeds if and only if every placeholder of the file parses, and then returns exactly the set of their anchors; otherwise returns the error of the first placeholder, in text order, that fails |
| `Reader.ParseFiles` | dacdoc-core/src/main/java/org/flussig/documentation/text/Reader.java:54-76 | succeeds if and only if every placeholder of every file parses; the result's keys are exactly the input files, each mapped to its anchors (empty when it has no placeholder); a failure carries the first error of some file |
| `Checks.Check.Composite` | dacdoc-core/src/main/java/org/flussig/documentation/text/Reader.java:138 | a new composite check has an empty sub-check list |
| `Checks.Check.Url` | dacdoc-core/src/main/java/org/flussig/documentation/text/Reader.java:142-144 | a new URL check holds the given file and URI |
| `Checks.Check.Unknown` | dacdoc-core/src/main/java/org/flussig/documentation/text/Reader.java:146 | the unknown check is of the unknown kind |
| `Resolver.Flatten` | dacdoc-core/src/main/java/org/flussig/documentation/text/Reader.java:83-85 | (f, a) is an occurrence if and only if f is a file of the map and a is one of its anchors |
| `Resolver.FlattenCount` | dacdoc-core/src/main/java/org/flussig/documentation/text/Reader.java:176-181 | since occurrences are equal only when file and anchor are both equal, there are as many occurrences as anchors summed over the files |
| `Resolver.UniqueDeclarationResolves` | dacdoc-core/src/main/java/org/flussig/documentation/text/Reader.java:117-123 | when a single occurrence declares an id, a reference to that id resolves to that occurrence's check and nothing else |
| `Resolver.MissingDeclarationResolves` | dacdoc-core/src/main/java/org/flussig/documentation/text/Reader.java:119-120 | a reference to an id that no occurrence declares becomes the unknown check |
| `Resolver.FillChecksInitial` | dacdoc-core/src/main/java/org/flussig/documentation/text/Reader.java:130-156 | fails if and only if the URI extractor refuses the argument of some `dacdoc-url` primitive, with that error; otherwise every occurrence gets a check: a fresh empty composite for a composite anchor, a fresh URL check with the occurrence's file and the extracted URI for test id `dacdoc-url`, the shared unknown check otherwise; no two occurrences share a check other than the unknown one |
| `Resolver.LookupSubCheck` | dacdoc-core/src/main/java/org/flussig/documentation/text/Reader.java:115-123 | the sub-check for an id is the very check stored for some occurrence declaring that id, or the unknown check when none does |
| `Resolver.AppendSubChecks` | dacdoc-core/src/main/java/org/flussig/documentation/text/Reader.java:111-126 | a composite's list keeps its old entries and gains one entry per id, in order, each the resolution of that id |
| `Resolver.FillChecksComposite` | dacdoc-core/src/main/java/org/flussig/documentation/text/Reader.java:107-128 | each composite occurrence's list gains the resolutions of its own ids, in order; only composite checks change, and the map is left as it is |
| `Resolver.CreateCheckMap` | dacdoc-core/src/main/java/org/flussig/documentation/text/Reader.java:81-97 | fails if and only if the URI extractor refuses the argument of some `dacdoc-url` primitive, with that error; otherwise the keys are exactly the occurrences; primitive occurrences keep their pass-1 checks; each composite's list has one entry per id, in order, each the resolution of that id |
| `Resolver.CyclicCompositesResolve` | dacdoc-core/src/main/java/org/flussig/documentation/text/Reader.java:106-128 | two composites that reference each other resolve, each to a list holding just the other's check |

## Left out

- `findMarkdownFiles` (the directory walk keeping `.md` files) is file-system I/O and is not modelled.
- `Files.readString` and its `IOException` are I/O: `ParseFiles` receives each file's contents instead.
- `replaceAnchorsWithResults` has an empty body and nothing to model.
- The local set `checks` in `fillChecksInitial` never reaches the result and is not modelled.
- Running checks (the URL request, evaluating composites) happens outside the reader and is not modelled.
- `Anchor.from`, `UrlCheck.extractMarkdownUri` and the sources of `Anchor`, `Check`, `CompositeCheck`, `UrlCheck` and `DacDocParseException` are not part of this model; the first two are parameters, the others are represented by `Anchors.Anchor`, `Checks.Check` and `Anchors.ParseError`.
- An anchor without an `id=` is taken never to match a reference; what `getId()` returns for it is not part of this model.
- Characters are Unicode scalar values, while Java strings are UTF-16; the pattern treats both alike, since it only looks for ASCII and single line-separator characters.
- `Resolver.FillChecksComposite`: when several occurrences declare the same id, each lookup may take any of them; the contract does not capture that one run of the code, following one hash-set order, always takes the same one.
- `Resolver.CreateCheckMap`: when several occurrences declare the same id, two references to it may resolve to different declarers' checks; the code, following one hash-set order within a call, always resolves them to the same one.
- `Resolver.CreateCheckMap`: when several URL arguments are refused, the failure carries the error of some refused argument, not the first in hash-set order.
- `Resolver.LookupSubCheck`: for the same reason, it promises only some declaring occurrence, not the first in hash-set order.
- `Reader.ParseFiles`: files are visited in an unspecified order, as with the source's hash set, so a failure carries the error of some failing file, not a particular one.
- `Resolver.FillChecksInitial` returns the map it builds, where the source fills a map passed in by `createCheckMap`; that map is always empty on entry.
