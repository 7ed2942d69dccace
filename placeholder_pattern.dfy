/**
 * The placeholder pattern `!DACDOC((.|\n|\r)*?)!` and the way a
 * java.util.regex.Matcher walks a text with it.
 *
 * `.` matches every character except the line terminators; the pattern
 * admits `\n` and `\r` explicitly, so a body may hold any character except
 * U+0085, U+2028 and U+2029.  The quantifier is reluctant, so a match ends
 * at the first `!` after the keyword.  Successive calls to `find()` return
 * the leftmost match that starts at or after the end of the previous one.
 */
module PlaceholderPattern {
  import opened Wrappers

  const Framing: char := '!'
  const Keyword: string := "DACDOC"
  /** `!DACDOC`: every placeholder starts with it. */
  const Opening: string := [Framing] + Keyword

  /** The line terminators that neither `.` nor the explicit `\n|\r` admit. */
  predicate IsLineSeparator(c: char)
  {
    c == '\U{85}' || c == '\U{2028}' || c == '\U{2029}'
  }

  /** s[lo..hi] can be consumed by the reluctant body without passing a `!`. */
  ghost predicate BodyFree(s: string, lo: int, hi: int)
    requires 0 <= lo && hi <= |s|
  {
    forall j :: lo <= j < hi ==> s[j] != Framing && !IsLineSeparator(s[j])
  }

  /** s[i..e] is the match the pattern finds when tried at position i. */
  ghost predicate IsMatch(s: string, i: int, e: int)
  {
    0 <= i && i + |Opening| < e <= |s| &&
    s[i..i + |Opening|] == Opening &&
    s[e - 1] == Framing &&
    BodyFree(s, i + |Opening|, e - 1)
  }

  /** No match of the pattern starts in [lo, hi). */
  ghost predicate NoMatchIn(s: string, lo: int, hi: int)
  {
    forall p, e :: lo <= p < hi ==> !IsMatch(s, p, e)
  }

  /** A found region of the text: s[start..end] is a placeholder. */
  datatype Span = Span(start: nat, end: nat)

  /**
   * The end of the reluctant body plus closing `!` that starts at k: the
   * position just after the first `!` from k on, unless a line separator
   * comes first or there is none.
   */
  function CloseFrom(s: string, k: nat): (r: Option<nat>)
    ensures forall e :: (k < e <= |s| && s[e - 1] == Framing && BodyFree(s, k, e - 1)) <==> r == Some(e)
    decreases |s| - k
  {
    if k >= |s| then None
    else if s[k] == Framing then Some(k + 1)
    else if IsLineSeparator(s[k]) then None
    else CloseFrom(s, k + 1)
  }

  /** The end of the match tried at position i, if the pattern matches there. */
  function MatchAt(s: string, i: nat): (r: Option<nat>)
    ensures forall e :: IsMatch(s, i, e) <==> r == Some(e)
  {
    if i + |Opening| <= |s| && s[i..i + |Opening|] == Opening then CloseFrom(s, i + |Opening|)
    else None
  }

  /** Matcher.find(): the leftmost match starting at or after `from`. */
  function Find(s: string, from: nat): (r: Option<Span>)
    ensures r.Some? ==> from <= r.value.start && IsMatch(s, r.value.start, r.value.end)
    ensures r.Some? ==> NoMatchIn(s, from, r.value.start)
    ensures r.None? ==> NoMatchIn(s, from, |s|)
    decreases |s| - from
  {
    if from >= |s| then None
    else match MatchAt(s, from)
      case Some(e) => Some(Span(from, e))
      case None => Find(s, from + 1)
  }

  /** The spans of all matches the `while (find())` loop visits, starting at `from`. */
  function Spans(s: string, from: nat): (r: seq<Span>)
    ensures forall j :: 0 <= j < |r| ==> from <= r[j].start && IsMatch(s, r[j].start, r[j].end)
    decreases |s| - from
  {
    match Find(s, from)
    case None => []
    case Some(sp) => [sp] + Spans(s, sp.end)
  }

  /**
   * Independent description of the matches of a scan from `from`: each is a
   * match, they come in order without overlapping, and no match starts in
   * any gap before, between or after them.
   */
  ghost predicate LeftmostMatches(s: string, from: nat, sp: seq<Span>)
  {
    (forall j :: 0 <= j < |sp| ==> IsMatch(s, sp[j].start, sp[j].end)) &&
    (|sp| == 0 ==> NoMatchIn(s, from, |s|)) &&
    (|sp| > 0 ==> from <= sp[0].start && NoMatchIn(s, from, sp[0].start)
                  && NoMatchIn(s, sp[|sp| - 1].end, |s|)) &&
    (forall j :: 0 <= j < |sp| - 1 ==>
       sp[j].end <= sp[j + 1].start && NoMatchIn(s, sp[j].end, sp[j + 1].start))
  }

  /** The text of every match found in s, in order: what `group()` returns. */
  function Placeholders(s: string): (r: seq<string>)
    ensures |r| == |Spans(s, 0)|
    ensures forall j :: 0 <= j < |r| ==> r[j] == s[Spans(s, 0)[j].start..Spans(s, 0)[j].end]
  {
    var sp := Spans(s, 0);
    seq(|sp|, j requires 0 <= j < |sp| => s[sp[j].start..sp[j].end])
  }

  /** The pattern can match at position i with only one end. */
  lemma MatchEndUnique(s: string, i: nat, e: nat, e': nat)
    requires IsMatch(s, i, e) && IsMatch(s, i, e')
    ensures e == e'
  {
    assert MatchAt(s, i) == Some(e) && MatchAt(s, i) == Some(e');
  }

  /** A match with no match before it, followed by leftmost matches, is a leftmost sequence. */
  lemma LeftmostCons(s: string, from: nat, sp: Span, rest: seq<Span>)
    requires from <= sp.start && IsMatch(s, sp.start, sp.end) && NoMatchIn(s, from, sp.start)
    requires LeftmostMatches(s, sp.end, rest)
    ensures LeftmostMatches(s, from, [sp] + rest)
  {
    var all := [sp] + rest;
    assert all[0] == sp;
    assert forall j :: 1 <= j < |all| ==> all[j] == rest[j - 1];
    if |rest| > 0 {
      assert all[|all| - 1] == rest[|rest| - 1];
      assert sp.end <= rest[0].start && NoMatchIn(s, sp.end, rest[0].start);
    }
  }

  /** The spans the scan visits are the successive leftmost matches. */
  lemma {:induction false} SpansAreLeftmost(s: string, from: nat)
    ensures LeftmostMatches(s, from, Spans(s, from))
    decreases |s| - from
  {
    match Find(s, from)
    case None =>
    case Some(sp) =>
      SpansAreLeftmost(s, sp.end);
      LeftmostCons(s, from, sp, Spans(s, sp.end));
  }

  /** The first of the leftmost matches is the one `find()` returns. */
  lemma FindIsFirstLeftmost(s: string, from: nat, sp: seq<Span>)
    requires LeftmostMatches(s, from, sp)
    ensures Find(s, from) == if |sp| == 0 then None else Some(sp[0])
  {
    var x := Find(s, from);
    if |sp| == 0 {
      if x.Some? {
        assert false;
      }
    } else {
      assert IsMatch(s, sp[0].start, sp[0].end);
      if x.None? {
        assert false;
      }
      assert IsMatch(s, x.value.start, x.value.end);
      assert x.value.start == sp[0].start;
      MatchEndUnique(s, sp[0].start, x.value.end, sp[0].end);
    }
  }

  /** Dropping the first of the leftmost matches leaves those after its end. */
  lemma LeftmostTail(s: string, from: nat, sp: seq<Span>)
    requires LeftmostMatches(s, from, sp) && |sp| > 0
    ensures LeftmostMatches(s, sp[0].end, sp[1..])
  {
    var tail := sp[1..];
    if |tail| > 0 {
      assert tail[0] == sp[1];
      assert tail[|tail| - 1] == sp[|sp| - 1];
    }
  }

  /** No other sequence of spans is the successive leftmost matches. */
  lemma {:induction false} LeftmostMatchesUnique(s: string, from: nat, sp: seq<Span>)
    requires LeftmostMatches(s, from, sp)
    ensures sp == Spans(s, from)
    decreases |sp|
  {
    FindIsFirstLeftmost(s, from, sp);
    if |sp| > 0 {
      LeftmostTail(s, from, sp);
      LeftmostMatchesUnique(s, sp[0].end, sp[1..]);
      assert sp == [sp[0]] + sp[1..];
    }
  }

  /**
   * Every placeholder the scan yields starts with `!DACDOC`, ends with the
   * first `!` after it, and holds no line separator in between.
   */
  lemma PlaceholderShape(s: string, k: nat)
    requires k < |Placeholders(s)|
    ensures var t := Placeholders(s)[k];
      |Opening| < |t| && t[..|Opening|] == Opening && t[|t| - 1] == Framing &&
      forall j :: |Opening| <= j < |t| - 1 ==> t[j] != Framing && !IsLineSeparator(t[j])
  {
    var sp := Spans(s, 0)[k];
    assert IsMatch(s, sp.start, sp.end);
    var t := Placeholders(s)[k];
    assert t == s[sp.start..sp.end];
    forall j | |Opening| <= j < |t| - 1
      ensures t[j] != Framing && !IsLineSeparator(t[j])
    {
      assert t[j] == s[sp.start + j];
    }
  }
}
