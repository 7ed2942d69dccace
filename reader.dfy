/**
 * Reader.parseFiles: extract the anchors of every file.
 *
 * Reading a file is not part of this model: each file arrives with its
 * contents.  The anchor parser (`Anchor.from`) is the parameter `anchorFrom`;
 * a placeholder it refuses aborts the whole call with that error.
 */
module Reader {
  import opened Wrappers
  import opened Anchors
  import opened PlaceholderPattern

  /** The parser accepts every placeholder in `texts`. */
  ghost predicate AllParse(texts: seq<string>, anchorFrom: string -> Result<Anchor, ParseError>)
  {
    forall j :: 0 <= j < |texts| ==> anchorFrom(texts[j]).Success?
  }

  /** The anchors parsed from `texts`, collected into a set. */
  ghost function AnchorsOf(texts: seq<string>, anchorFrom: string -> Result<Anchor, ParseError>): set<Anchor>
  {
    set j | 0 <= j < |texts| && anchorFrom(texts[j]).Success? :: anchorFrom(texts[j]).value
  }

  /** `e` is the error of the first placeholder in `texts` the parser refuses. */
  ghost predicate FirstFailure(texts: seq<string>, anchorFrom: string -> Result<Anchor, ParseError>, e: ParseError)
  {
    exists j :: 0 <= j < |texts| && anchorFrom(texts[j]) == Failure(e) && AllParse(texts[..j], anchorFrom)
  }

  /** Parsing one more accepted placeholder adds its anchor to the set. */
  lemma AnchorsOfSnoc(texts: seq<string>, t: string, anchorFrom: string -> Result<Anchor, ParseError>)
    requires anchorFrom(t).Success?
    ensures AnchorsOf(texts + [t], anchorFrom) == AnchorsOf(texts, anchorFrom) + {anchorFrom(t).value}
  {
    var xs := texts + [t];
    assert forall j :: 0 <= j < |texts| ==> xs[j] == texts[j];
    assert xs[|texts|] == t;
  }

  /**
   * The `while (matcher.find())` loop for one file: parse every placeholder
   * in order and collect the anchors, or stop at the first one the parser
   * refuses.
   */
  method ExtractAnchors(content: string, anchorFrom: string -> Result<Anchor, ParseError>)
    returns (r: Result<set<Anchor>, ParseError>)
    ensures r.Success? <==> AllParse(Placeholders(content), anchorFrom)
    ensures r.Success? ==> r.value == AnchorsOf(Placeholders(content), anchorFrom)
    ensures r.Failure? ==> FirstFailure(Placeholders(content), anchorFrom, r.error)
  {
    ghost var all := Spans(content, 0);
    ghost var texts := Placeholders(content);
    ghost var n := 0;
    var anchors: set<Anchor> := {};
    var pos := 0;
    var next := Find(content, pos);
    while next.Some?
      invariant pos <= |content| && n <= |all|
      invariant next == Find(content, pos)
      invariant Spans(content, pos) == all[n..]
      invariant AllParse(texts[..n], anchorFrom)
      invariant anchors == AnchorsOf(texts[..n], anchorFrom)
      decreases |content| - pos
    {
      var span := next.value;
      assert all[n..] == [span] + Spans(content, span.end);
      assert all[n] == span;
      var text := content[span.start..span.end];
      assert texts[n] == text;
      var anchor := anchorFrom(text);
      if anchor.Failure? {
        assert anchorFrom(texts[n]) == Failure(anchor.error) && AllParse(texts[..n], anchorFrom);
        return Failure(anchor.error);
      }
      assert texts[..n + 1] == texts[..n] + [text];
      AnchorsOfSnoc(texts[..n], text, anchorFrom);
      anchors := anchors + {anchor.value};
      pos := span.end;
      next := Find(content, pos);
      n := n + 1;
      assert all[n..] == all[n - 1..][1..];
    }
    assert texts[..n] == texts;
    r := Success(anchors);
  }

  /**
   * Reader.parseFiles: map every file to the set of anchors of its
   * placeholders, or fail with the parser's error for some refused
   * placeholder of some file.
   */
  method ParseFiles(contents: map<File, string>, anchorFrom: string -> Result<Anchor, ParseError>)
    returns (r: Result<map<File, set<Anchor>>, ParseError>)
    ensures r.Success? <==> forall f :: f in contents ==> AllParse(Placeholders(contents[f]), anchorFrom)
    ensures r.Success? ==> r.value.Keys == contents.Keys
    ensures r.Success? ==> forall f :: f in contents ==> r.value[f] == AnchorsOf(Placeholders(contents[f]), anchorFrom)
    ensures r.Failure? ==> exists f :: f in contents && FirstFailure(Placeholders(contents[f]), anchorFrom, r.error)
  {
    var result: map<File, set<Anchor>> := map[];
    var remaining := contents.Keys;
    while remaining != {}
      invariant remaining <= contents.Keys
      invariant result.Keys == contents.Keys - remaining
      invariant forall f :: f in result ==> AllParse(Placeholders(contents[f]), anchorFrom)
      invariant forall f :: f in result ==> result[f] == AnchorsOf(Placeholders(contents[f]), anchorFrom)
      decreases remaining
    {
      var f :| f in remaining;
      var anchors := ExtractAnchors(contents[f], anchorFrom);
      if anchors.Failure? {
        assert !AllParse(Placeholders(contents[f]), anchorFrom);
        return Failure(anchors.error);
      }
      result := result[f := anchors.value];
      remaining := remaining - {f};
    }
    r := Success(result);
  }
}
