/**
 * The `parts` computation of the `HighlightText` component: the text is
 * split on every case-insensitive occurrence of the query, the pieces are
 * labelled plain or highlighted, and empty pieces are dropped.
 *
 * The query is escaped and wrapped in a capturing group, so that `split`
 * keeps each matched piece at an odd position of its result. Both the
 * regular-expression engine and `split` are modelled here for this one
 * pattern shape: a group around a run of literal characters.
 */
module HighlightText {
  import opened Text

  /** One rendered piece of the text. */
  datatype Part = Part(text: string, highlighted: bool)

  datatype Option<T> = None | Some(value: T)

  // ---------------------------------------------------------------------
  // Escaping the query
  // ---------------------------------------------------------------------

  /** The characters the component escapes: `. * + ? ^ $ { } ( ) | [ ] \`. */
  predicate IsMeta(c: char)
  {
    c in ".*+?^${}()|[]\\"
  }

  /** `query.replace(/[.*+?^${}()|[\]\\]/g, '\\$&')`: a backslash before every meta character. */
  function Escape(query: string): (r: string)
    ensures |query| <= |r| <= 2 * |query|
  {
    if query == [] then []
    else (if IsMeta(query[0]) then ['\\', query[0]] else [query[0]]) + Escape(query[1..])
  }

  /**
   * How a regular-expression source made of literal atoms reads: `\c` for a
   * meta character `c` stands for `c`, any other character stands for
   * itself; an unescaped meta character, or a backslash before anything
   * else, is an operator or a class and not a literal (`None`).
   */
  function ReadLiterals(source: string): Option<string>
    decreases |source|
  {
    if source == [] then Some([])
    else if source[0] == '\\' then
      if |source| >= 2 && IsMeta(source[1]) then
        match ReadLiterals(source[2..])
        case Some(rest) => Some([source[1]] + rest)
        case None => None
      else None
    else if IsMeta(source[0]) then None
    else
      match ReadLiterals(source[1..])
      case Some(rest) => Some([source[0]] + rest)
      case None => None
  }

  /** The escaped query reads back as exactly the query: every character is matched literally. */
  lemma {:induction false} EscapeReadsLiterally(query: string)
    ensures ReadLiterals(Escape(query)) == Some(query)
  {
    if query != [] {
      EscapeReadsLiterally(query[1..]);
      var e := Escape(query);
      if IsMeta(query[0]) {
        assert e[0] == '\\' && e[1] == query[0] && e[2..] == Escape(query[1..]);
      } else {
        assert query[0] != '\\';
        assert e[0] == query[0] && e[1..] == Escape(query[1..]);
      }
      assert [query[0]] + query[1..] == query;
    }
  }

  // ---------------------------------------------------------------------
  // Splitting on the case-insensitive literal
  // ---------------------------------------------------------------------

  /** The pattern `(literal)` with the `i` flag matches at position `i` of `text`. */
  predicate MatchAt(text: string, literal: string, i: int)
  {
    OccursAt(LowerStr(text), LowerStr(literal), i)
  }

  /**
   * The left-to-right scan of `split`: `p` is where the current plain piece
   * started, `i` the position tried next. A match at `i` ends the plain piece,
   * adds the captured text and resumes just after it.
   */
  function SplitFrom(text: string, literal: string, p: nat, i: nat): (r: seq<string>)
    requires |literal| > 0 && p <= i <= |text|
    ensures |r| % 2 == 1
    decreases |text| - i
  {
    if i == |text| then [text[p..]]
    else if MatchAt(text, literal, i) then
      [text[p..i], text[i..i + |literal|]] + SplitFrom(text, literal, i + |literal|, i + |literal|)
    else SplitFrom(text, literal, p, i + 1)
  }

  /**
   * `text.split(/(literal)/i)`; the empty text is a special case of `split`.
   * The pieces alternate plain and matched, starting and ending with a plain
   * piece, and together they give back the text.
   */
  function Split(text: string, literal: string): (r: seq<string>)
    requires |literal| > 0
    ensures |r| % 2 == 1
    ensures Concat(r) == text
    ensures Alternates(r, literal)
  {
    if |text| == 0 then
      if MatchAt(text, literal, 0) then []
      else
        NoMatchInside(text, literal, 0, 0);
        assert text[0..0] == text;
        [text]
    else
      SplitFromConcat(text, literal, 0, 0);
      SplitFromAlternates(text, literal, 0, 0);
      SplitFrom(text, literal, 0, 0)
  }

  /** `segments.map((seg, i) => ({ text: seg, highlighted: i % 2 === 1 }))`, from index `i` on. */
  function LabelFrom(segments: seq<string>, i: nat): (r: seq<Part>)
    requires i <= |segments|
    ensures |r| == |segments| - i
    ensures forall k :: 0 <= k < |r| ==> r[k] == Part(segments[i + k], (i + k) % 2 == 1)
    decreases |segments| - i
  {
    if i == |segments| then []
    else [Part(segments[i], i % 2 == 1)] + LabelFrom(segments, i + 1)
  }

  /** The strings one after the other. */
  function Concat(ss: seq<string>): string
  {
    if ss == [] then [] else ss[0] + Concat(ss[1..])
  }

  /** The parts' texts one after the other: what the component shows. */
  function ConcatParts(parts: seq<Part>): string
  {
    if parts == [] then [] else parts[0].text + ConcatParts(parts[1..])
  }

  /** `.filter((seg) => seg.text !== '')`: keeps the non-empty parts in order, so the shown text is unchanged. */
  function DropEmpty(parts: seq<Part>): (r: seq<Part>)
    ensures forall x :: x in r ==> x in parts && x.text != []
    ensures ConcatParts(r) == ConcatParts(parts)
  {
    if parts == [] then []
    else if parts[0].text == [] then DropEmpty(parts[1..])
    else [parts[0]] + DropEmpty(parts[1..])
  }

  /** The component's `parts`: put together, they are exactly the text, casing included. */
  function Highlight(text: string, query: string): (r: seq<Part>)
    ensures ConcatParts(r) == text
  {
    if IsBlank(query) then [Part(text, false)]
    else
      EscapeReadsLiterally(query);
      var literal := ReadLiterals(Escape(query)).value;
      var segments := Split(text, literal);
      LabelFromConcat(segments, 0);
      assert segments[0..] == segments;
      DropEmpty(LabelFrom(segments, 0))
  }

  // ---------------------------------------------------------------------
  // What the scan produces
  // ---------------------------------------------------------------------

  /** A stretch with no match at any of its positions contains no occurrence of the literal. */
  lemma NoMatchInside(text: string, literal: string, p: nat, i: nat)
    requires |literal| > 0 && p <= i <= |text|
    requires forall j :: p <= j < i ==> !MatchAt(text, literal, j)
    ensures !ContainsIgnoringCase(text[p..i], literal)
  {
    var s, t := LowerStr(text[p..i]), LowerStr(literal);
    ContainsIff(s, t);
    LowerSlice(text, p, i);
    forall j | OccursAt(s, t, j)
      ensures false
    {
      OccursInSlice(LowerStr(text), t, p, i, j);
      assert MatchAt(text, literal, p + j);
    }
  }

  /** An occurrence inside the slice `s[p..i]` is an occurrence in `s`, shifted by `p`. */
  lemma OccursInSlice(s: string, t: string, p: nat, i: nat, j: int)
    requires p <= i <= |s| && OccursAt(s[p..i], t, j)
    ensures OccursAt(s, t, p + j)
  {
    forall k | 0 <= k < |t|
      ensures s[p + j..p + j + |t|][k] == t[k]
    {
      assert s[p..i][j..j + |t|][k] == t[k];
    }
  }

  /** A plain piece and a matched piece in front of pieces that give back `text[e..]` give back `text[p..]`. */
  lemma ConcatStep(text: string, p: nat, i: nat, e: nat, rest: seq<string>)
    requires p <= i <= e <= |text| && Concat(rest) == text[e..]
    ensures Concat([text[p..i], text[i..e]] + rest) == text[p..]
  {
    var segs := [text[p..i], text[i..e]] + rest;
    assert segs[1..][1..] == rest;
    assert text[p..i] + (text[i..e] + text[e..]) == text[p..];
  }

  /** The scan gives back the text from `p` on. */
  lemma {:induction false} SplitFromConcat(text: string, literal: string, p: nat, i: nat)
    requires |literal| > 0 && p <= i <= |text|
    ensures Concat(SplitFrom(text, literal, p, i)) == text[p..]
    decreases |text| - i
  {
    if i == |text| {
    } else if MatchAt(text, literal, i) {
      var e := i + |literal|;
      SplitFromConcat(text, literal, e, e);
      ConcatStep(text, p, i, e, SplitFrom(text, literal, e, e));
    } else {
      SplitFromConcat(text, literal, p, i + 1);
    }
  }

  /** Even positions hold plain pieces with no occurrence of the literal, odd positions matched pieces. */
  predicate Alternates(segs: seq<string>, literal: string)
  {
    (forall k :: 0 <= k < |segs| && k % 2 == 0 ==> !ContainsIgnoringCase(segs[k], literal)) &&
    (forall k :: 0 <= k < |segs| && k % 2 == 1 ==> SameIgnoringCase(segs[k], literal))
  }

  /** A plain piece and a matched piece in front of alternating pieces still alternate. */
  lemma AlternatesStep(a: string, b: string, rest: seq<string>, literal: string)
    requires !ContainsIgnoringCase(a, literal) && SameIgnoringCase(b, literal)
    requires Alternates(rest, literal)
    ensures Alternates([a, b] + rest, literal)
  {
    var segs := [a, b] + rest;
    forall k | 2 <= k < |segs|
      ensures segs[k] == rest[k - 2]
    {
    }
  }

  /** A matched piece is the literal, ignoring case. */
  lemma MatchedPiece(text: string, literal: string, i: nat)
    requires MatchAt(text, literal, i)
    ensures SameIgnoringCase(text[i..i + |literal|], literal)
  {
    LowerSlice(text, i, i + |literal|);
  }

  /** The last plain piece of the scan, with no match anywhere in it, alternates on its own. */
  lemma AlternatesLast(text: string, literal: string, p: nat)
    requires |literal| > 0 && p <= |text|
    requires forall j :: p <= j < |text| ==> !MatchAt(text, literal, j)
    ensures Alternates(SplitFrom(text, literal, p, |text|), literal)
  {
    NoMatchInside(text, literal, p, |text|);
    assert text[p..|text|] == text[p..];
    assert SplitFrom(text, literal, p, |text|) == [text[p..]];
  }

  /** A match at `i` puts a plain and a matched piece in front of the alternating rest of the scan. */
  lemma AlternatesAtMatch(text: string, literal: string, p: nat, i: nat)
    requires |literal| > 0 && p <= i < |text| && MatchAt(text, literal, i)
    requires forall j :: p <= j < i ==> !MatchAt(text, literal, j)
    requires Alternates(SplitFrom(text, literal, i + |literal|, i + |literal|), literal)
    ensures Alternates(SplitFrom(text, literal, p, i), literal)
  {
    var e := i + |literal|;
    NoMatchInside(text, literal, p, i);
    MatchedPiece(text, literal, i);
    var rest := SplitFrom(text, literal, e, e);
    assert SplitFrom(text, literal, p, i) == [text[p..i], text[i..e]] + rest;
    AlternatesStep(text[p..i], text[i..e], rest, literal);
  }

  /** The scan alternates: plain pieces hold no occurrence of the literal, matched pieces are the literal. */
  lemma {:induction false} SplitFromAlternates(text: string, literal: string, p: nat, i: nat)
    requires |literal| > 0 && p <= i <= |text|
    requires forall j :: p <= j < i ==> !MatchAt(text, literal, j)
    ensures Alternates(SplitFrom(text, literal, p, i), literal)
    decreases |text| - i
  {
    if i == |text| {
      AlternatesLast(text, literal, p);
    } else if MatchAt(text, literal, i) {
      SplitFromAlternates(text, literal, i + |literal|, i + |literal|);
      AlternatesAtMatch(text, literal, p, i);
    } else {
      assert forall j :: p <= j < i + 1 ==> !MatchAt(text, literal, j);
      SplitFromAlternates(text, literal, p, i + 1);
    }
  }

  lemma {:induction false} LabelFromConcat(segments: seq<string>, i: nat)
    requires i <= |segments|
    ensures ConcatParts(LabelFrom(segments, i)) == Concat(segments[i..])
    decreases |segments| - i
  {
    if i < |segments| {
      LabelFromConcat(segments, i + 1);
      assert segments[i..][1..] == segments[i + 1..];
    }
  }

  /** Dropping empty parts distributes over putting lists together. */
  lemma {:induction false} DropEmptyAppend(a: seq<Part>, b: seq<Part>)
    ensures DropEmpty(a + b) == DropEmpty(a) + DropEmpty(b)
    decreases |a|
  {
    if a == [] {
      assert a + b == b;
    } else {
      assert (a + b)[1..] == a[1..] + b;
      DropEmptyAppend(a[1..], b);
    }
  }

  /** A single part is kept exactly when its text is not empty. */
  lemma DropEmptyOne(x: Part)
    ensures DropEmpty([x]) == if x.text == [] then [] else [x]
  {
  }

  // ---------------------------------------------------------------------
  // The scan takes the leftmost matches
  // ---------------------------------------------------------------------

  /**
   * The parts, laid out one after the other from position `p` of `text`,
   * follow the matches of the literal: a highlighted part starts where the
   * literal matches, and no match starts at any position a plain part covers.
   */
  predicate FollowsMatches(text: string, literal: string, parts: seq<Part>, p: int)
    decreases |parts|
  {
    parts == [] ||
    ((if parts[0].highlighted then MatchAt(text, literal, p)
      else forall j :: p <= j < p + |parts[0].text| ==> !MatchAt(text, literal, j))
     && FollowsMatches(text, literal, parts[1..], p + |parts[0].text|))
  }

  lemma LabelOne(a: string)
    ensures LabelFrom([a], 0) == [Part(a, false)]
  {
  }

  lemma LabelPair(a: string, b: string, rest: seq<string>)
    ensures LabelFrom([a, b] + rest, 0) == [Part(a, false), Part(b, true)] + LabelFrom(rest, 0)
  {
    var l, r := LabelFrom([a, b] + rest, 0), LabelFrom(rest, 0);
    assert forall k :: 2 <= k < |l| ==> l[k] == r[k - 2];
  }

  /** The last plain piece follows the matches when no match starts inside it. */
  lemma FollowsLast(text: string, literal: string, p: nat)
    requires p <= |text|
    requires forall j :: p <= j < |text| ==> !MatchAt(text, literal, j)
    ensures FollowsMatches(text, literal, [Part(text[p..], false)], p)
  {
    assert [Part(text[p..], false)][1..] == [];
  }

  /** A plain piece with no match in it, then a matched piece, in front of pieces that follow the matches. */
  lemma FollowsPair(text: string, literal: string, p: nat, i: nat, e: nat, rest: seq<Part>)
    requires p <= i <= e <= |text|
    requires forall j :: p <= j < i ==> !MatchAt(text, literal, j)
    requires MatchAt(text, literal, i) && FollowsMatches(text, literal, rest, e)
    ensures FollowsMatches(text, literal, [Part(text[p..i], false), Part(text[i..e], true)] + rest, p)
  {
    var l := [Part(text[p..i], false), Part(text[i..e], true)] + rest;
    assert l[1..][1..] == rest;
    assert FollowsMatches(text, literal, l[1..], i);
  }

  /** The scan's labelled pieces, laid out from `p`, follow the matches. */
  lemma {:induction false} SplitFromFollowsMatches(text: string, literal: string, p: nat, i: nat)
    requires |literal| > 0 && p <= i <= |text|
    requires forall j :: p <= j < i ==> !MatchAt(text, literal, j)
    ensures FollowsMatches(text, literal, LabelFrom(SplitFrom(text, literal, p, i), 0), p)
    decreases |text| - i
  {
    var segs := SplitFrom(text, literal, p, i);
    if i == |text| {
      assert segs == [text[p..]];
      LabelOne(text[p..]);
      FollowsLast(text, literal, p);
    } else if MatchAt(text, literal, i) {
      var e := i + |literal|;
      var rest := SplitFrom(text, literal, e, e);
      assert segs == [text[p..i], text[i..e]] + rest;
      SplitFromFollowsMatches(text, literal, e, e);
      LabelPair(text[p..i], text[i..e], rest);
      FollowsPair(text, literal, p, i, e, LabelFrom(rest, 0));
    } else {
      assert segs == SplitFrom(text, literal, p, i + 1);
      SplitFromFollowsMatches(text, literal, p, i + 1);
    }
  }

  /** Dropping empty parts keeps the layout following the matches. */
  lemma {:induction false} DropEmptyFollowsMatches(text: string, literal: string, parts: seq<Part>, p: int)
    requires FollowsMatches(text, literal, parts, p)
    ensures FollowsMatches(text, literal, DropEmpty(parts), p)
    decreases |parts|
  {
    if parts != [] {
      DropEmptyFollowsMatches(text, literal, parts[1..], p + |parts[0].text|);
      if parts[0].text != [] {
        assert ([parts[0]] + DropEmpty(parts[1..]))[1..] == DropEmpty(parts[1..]);
      }
    }
  }

  // ---------------------------------------------------------------------
  // The properties of `parts`
  // ---------------------------------------------------------------------

  /** A blank query gives one plain part holding the whole text, even an empty one. */
  lemma HighlightBlankQuery(text: string, query: string)
    requires forall k :: 0 <= k < |query| ==> IsSpace(query[k])
    ensures Highlight(text, query) == [Part(text, false)]
  {
  }

  /**
   * For a query that is not blank: no part is empty; each highlighted part
   * equals the query ignoring case; no plain part contains the query
   * ignoring case.
   */
  lemma HighlightParts(text: string, query: string)
    requires !IsBlank(query)
    ensures forall x :: x in Highlight(text, query) ==> x.text != []
    ensures forall x :: x in Highlight(text, query) && x.highlighted ==> SameIgnoringCase(x.text, query)
    ensures forall x :: x in Highlight(text, query) && !x.highlighted ==> !ContainsIgnoringCase(x.text, query)
  {
    EscapeReadsLiterally(query);
    var segs := Split(text, query);
    LabelledAlternates(segs, query);
    assert Highlight(text, query) == DropEmpty(LabelFrom(segs, 0));
  }

  /** Labelling alternating pieces marks exactly the matched ones as highlighted. */
  lemma LabelledAlternates(segs: seq<string>, literal: string)
    requires Alternates(segs, literal)
    ensures forall x :: x in LabelFrom(segs, 0) && x.highlighted ==> SameIgnoringCase(x.text, literal)
    ensures forall x :: x in LabelFrom(segs, 0) && !x.highlighted ==> !ContainsIgnoringCase(x.text, literal)
  {
    var labelled := LabelFrom(segs, 0);
    forall x | x in labelled
      ensures x.highlighted ==> SameIgnoringCase(x.text, literal)
      ensures !x.highlighted ==> !ContainsIgnoringCase(x.text, literal)
    {
      var k :| 0 <= k < |labelled| && labelled[k] == x;
      assert x == Part(segs[k], k % 2 == 1);
      if k % 2 == 0 {
        assert !ContainsIgnoringCase(segs[k], literal);
      } else {
        assert SameIgnoringCase(segs[k], literal);
      }
    }
  }

  lemma HighlightFollowsMatches(text: string, query: string)
    requires !IsBlank(query)
    ensures FollowsMatches(text, query, Highlight(text, query), 0)
  {
    EscapeReadsLiterally(query);
    var segs := Split(text, query);
    if |text| > 0 {
      SplitFromFollowsMatches(text, query, 0, 0);
    } else {
      assert segs == [text];
      assert LabelFrom(segs, 0)[1..] == [];
    }
    DropEmptyFollowsMatches(text, query, LabelFrom(segs, 0), 0);
  }

  /** No two plain parts are next to each other. */
  predicate PlainNotAdjacent(parts: seq<Part>)
  {
    forall k :: 0 <= k < |parts| - 1 ==> parts[k].highlighted || parts[k + 1].highlighted
  }

  /** Neighbouring parts differ in kind, and every highlighted part has some text. */
  predicate StrictlyAlternating(parts: seq<Part>)
  {
    (forall k :: 0 <= k < |parts| - 1 ==> parts[k].highlighted != parts[k + 1].highlighted) &&
    (forall k :: 0 <= k < |parts| && parts[k].highlighted ==> parts[k].text != [])
  }

  /** Strings equal ignoring case have the same length. */
  lemma SameIgnoringCaseLength(a: string, b: string)
    requires SameIgnoringCase(a, b)
    ensures |a| == |b|
  {
    assert |LowerStr(a)| == |LowerStr(b)|;
  }

  /** Labelling alternating pieces of a non-empty literal gives strictly alternating parts. */
  lemma LabelledStrictlyAlternating(segs: seq<string>, literal: string)
    requires |literal| > 0 && Alternates(segs, literal)
    ensures StrictlyAlternating(LabelFrom(segs, 0))
  {
    var labelled := LabelFrom(segs, 0);
    forall k | 0 <= k < |labelled| - 1
      ensures labelled[k].highlighted != labelled[k + 1].highlighted
    {
      assert labelled[k].highlighted == (k % 2 == 1);
      assert labelled[k + 1].highlighted == ((k + 1) % 2 == 1);
    }
    forall k | 0 <= k < |labelled| && labelled[k].highlighted
      ensures labelled[k].text != []
    {
      assert labelled[k] == Part(segs[k], k % 2 == 1);
      SameIgnoringCaseLength(segs[k], literal);
    }
  }

  /** Dropping empty parts from a strictly alternating list only removes plain parts, so no two plain parts meet. */
  lemma {:induction false} DropEmptyPlainNotAdjacent(parts: seq<Part>)
    requires StrictlyAlternating(parts)
    ensures PlainNotAdjacent(DropEmpty(parts))
    decreases |parts|
  {
    if parts != [] {
      var tail := parts[1..];
      assert StrictlyAlternating(tail) by {
        forall k | 0 <= k < |tail|
          ensures tail[k] == parts[k + 1]
        {
        }
      }
      DropEmptyPlainNotAdjacent(tail);
      var d := DropEmpty(tail);
      if |parts| > 1 && !parts[0].highlighted {
        assert tail[0] == parts[1] && parts[1].highlighted && parts[1].text != [];
        assert d == [parts[1]] + DropEmpty(tail[1..]);
      }
      if parts[0].text != [] {
        var r := [parts[0]] + d;
        assert DropEmpty(parts) == r;
        forall k | 0 <= k < |r| - 1
          ensures r[k].highlighted || r[k + 1].highlighted
        {
          if k > 0 {
            assert r[k] == d[k - 1] && r[k + 1] == d[k];
          }
        }
      } else {
        assert DropEmpty(parts) == d;
      }
    }
  }

  /**
   * For a query that is not blank, two plain parts are never next to each
   * other: the matched pieces are never empty, so the filter removes only
   * plain pieces, and what stays still has a highlighted part between any
   * two plain ones.
   */
  lemma HighlightPlainNotAdjacent(text: string, query: string)
    requires !IsBlank(query)
    ensures PlainNotAdjacent(Highlight(text, query))
  {
    EscapeReadsLiterally(query);
    var segs := Split(text, query);
    LabelledStrictlyAlternating(segs, query);
    DropEmptyPlainNotAdjacent(LabelFrom(segs, 0));
    assert Highlight(text, query) == DropEmpty(LabelFrom(segs, 0));
  }

  /** The query is not trimmed: every highlighted part is as long as the query as typed, trailing white space included. */
  lemma HighlightedLength(text: string, query: string)
    requires !IsBlank(query)
    ensures forall x :: x in Highlight(text, query) && x.highlighted ==> |x.text| == |query|
  {
    HighlightParts(text, query);
  }

  /** For a query that is not blank the split is on the query as typed. */
  lemma HighlightSplitsOnUntrimmedQuery(text: string, query: string)
    requires !IsBlank(query)
    ensures Highlight(text, query) == DropEmpty(LabelFrom(Split(text, query), 0))
  {
    EscapeReadsLiterally(query);
  }

  lemma SplitBackToBack()
    ensures Split("aa", "a") == ["", "a", "", "a", ""]
  {
    var t: string := "aa";
    assert LowerStr(t) == t && LowerStr("a") == "a";
    assert MatchAt(t, "a", 0) && MatchAt(t, "a", 1);
    assert t[2..] == [] && t[1..1] == [] && t[0..0] == [];
    assert t[0..1] == "a" && t[1..2] == "a";
    assert SplitFrom(t, "a", 2, 2) == [""];
    assert SplitFrom(t, "a", 1, 1) == ["", "a", ""];
  }

  /** Back-to-back occurrences give adjacent highlighted parts: the parts need not alternate. */
  lemma AdjacentHighlights(text: string, query: string)
    requires text == "aa" && query == "a"
    ensures Highlight(text, query) == [Part("a", true), Part("a", true)]
  {
    assert !IsSpace(query[0]);
    HighlightSplitsOnUntrimmedQuery(text, query);
    SplitBackToBack();
    LabelBackToBack();
  }

  lemma LabelBackToBack()
    ensures DropEmpty(LabelFrom(["", "a", "", "a", ""], 0)) == [Part("a", true), Part("a", true)]
  {
    var segs: seq<string> := ["", "a", "", "a", ""];
    var labelled := LabelFrom(segs, 0);
    assert labelled[0] == Part("", false) && labelled[1] == Part("a", true);
    assert labelled[2] == Part("", false) && labelled[3] == Part("a", true);
    assert labelled[4] == Part("", false);
    DropBackToBack(labelled);
  }

  lemma DropBackToBack(labelled: seq<Part>)
    requires labelled == [Part("", false), Part("a", true), Part("", false), Part("a", true), Part("", false)]
    ensures DropEmpty(labelled) == [Part("a", true), Part("a", true)]
  {
    assert DropEmpty(labelled[4..]) == [];
    assert DropEmpty(labelled[3..]) == [Part("a", true)];
    assert DropEmpty(labelled[2..]) == [Part("a", true)];
    assert DropEmpty(labelled[1..]) == [Part("a", true), Part("a", true)];
  }
}
