/**
 * The body stage of the PDF renderer (src/pdfRenderer.ts): `parseContent` turns each physical
 * line of the body into one classified block, and `formatText` strips the `**` and `*` pairs
 * from a preambular clause before it is wrapped.
 */
module Blocks {
  import opened Wrappers
  import opened Strings
  import opened Types

  /** `\d` of a regular expression without the `u` flag: the ASCII digits. */
  predicate IsDigit(c: char) {
    '0' <= c <= '9'
  }

  /** End of the run of digits that starts at `i`. */
  function DigitsEnd(t: string, i: nat): (j: nat)
    requires i <= |t|
    ensures i <= j <= |t|
    ensures forall k :: i <= k < j ==> IsDigit(t[k])
    ensures j < |t| ==> !IsDigit(t[j])
    decreases |t| - i
  {
    if i == |t| || !IsDigit(t[i]) then i else DigitsEnd(t, i + 1)
  }

  /** `t.match(/^\d+\./)`, read off the maximal run of leading digits. */
  predicate IsNumbered(t: string) {
    var j := DigitsEnd(t, 0);
    0 < j < |t| && t[j] == '.'
  }

  /** The pattern `^\d+\.` matches exactly when some non-empty all-digit prefix is followed by a
      dot: backtracking into a shorter run of digits can never find the dot. */
  lemma NumberedMeansPattern(t: string)
    ensures IsNumbered(t) <==>
      exists j :: 0 < j < |t| && (forall k :: 0 <= k < j ==> IsDigit(t[k])) && t[j] == '.'
  {
    var e := DigitsEnd(t, 0);
    if exists j :: 0 < j < |t| && (forall k :: 0 <= k < j ==> IsDigit(t[k])) && t[j] == '.' {
      var j :| 0 < j < |t| && (forall k :: 0 <= k < j ==> IsDigit(t[k])) && t[j] == '.';
      assert !IsDigit(t[j]);
      assert e == j;
    }
  }

  /** The block of one physical line: the line is trimmed and matched in a fixed priority
      order, `## `, `# `, a bold clause ending in `**,`, a numbered clause, a bullet, empty,
      and otherwise a paragraph. */
  function Classify(line: string): Block {
    var t := Trim(line);
    if StartsWith(t, "## ") then Heading(2, t[3..])
    else if StartsWith(t, "# ") then Heading(1, t[2..])
    else if StartsWith(t, "**") && Contains(t, "**,") then Preambular(t)
    else if IsNumbered(t) then Operative(t)
    else if StartsWith(t, "- ") || StartsWith(t, "* ") then Bullet(t[2..])
    else if |t| == 0 then Empty
    else Paragraph(t)
  }

  /** The trimmed lines a block can come from: the marker in front of the content, or the
      content itself for the block types that keep the whole line. */
  predicate WrittenAs(b: Block, t: string) {
    match b
    case Heading(level, c) => (level == 2 && t == "## " + c) || (level == 1 && t == "# " + c)
    case Preambular(c) => t == c && StartsWith(c, "**") && Contains(c, "**,")
    case Operative(c) => t == c && IsNumbered(c)
    case Bullet(c) => t == "- " + c || t == "* " + c
    case Empty => t == ""
    case Paragraph(c) => t == c && |c| > 0
  }

  /** Nothing of a line is lost but its surrounding whitespace and the marker its block type
      stands for: the trimmed line is the block written back out. */
  lemma ClassifyWrittenAs(line: string)
    ensures WrittenAs(Classify(line), Trim(line))
  {
    var t := Trim(line);
    if StartsWith(t, "## ") {
      assert t == t[..3] + t[3..];
    } else if StartsWith(t, "# ") {
      assert t == t[..2] + t[2..];
    } else if !(StartsWith(t, "**") && Contains(t, "**,")) && !IsNumbered(t)
      && (StartsWith(t, "- ") || StartsWith(t, "* ")) {
      assert t == t[..2] + t[2..];
    }
  }

  /** An empty block comes exactly from a blank line, and a paragraph from no marker at all. */
  lemma ClassifyFallThrough(line: string)
    ensures Classify(line) == Empty <==> AllSpace(line)
    ensures Classify(line).Paragraph? <==>
      var t := Trim(line);
      && |t| > 0
      && !StartsWith(t, "## ") && !StartsWith(t, "# ")
      && !(StartsWith(t, "**") && Contains(t, "**,"))
      && !IsNumbered(t)
      && !StartsWith(t, "- ") && !StartsWith(t, "* ")
  {
  }

  /** `parseContent`: one block per `\n`-separated line, in order. */
  function ParseContent(text: string): (r: seq<Block>)
    ensures |r| == |Split(text, '\n')| == Count(text, '\n') + 1
    ensures forall i :: 0 <= i < |r| ==> r[i] == Classify(Split(text, '\n')[i])
  {
    var lines := Split(text, '\n');
    SplitLength(text, '\n');
    seq(|lines|, i requires 0 <= i < |lines| => Classify(lines[i]))
  }

  /** A heading marker wins over everything after it: `## **x**,` is a level-2 heading. */
  lemma HeadingBeforePreambular(line: string)
    requires line == "## **x**,"
    ensures Classify(line) == Heading(2, "**x**,")
  {
    TrimNoSpaceEnds(line);
    assert line[..3] == "## ";
    assert line[3..] == "**x**,";
  }

  /** A bare `##` has no space after its marker, so it is a paragraph. */
  lemma BareHashesAreParagraph(line: string)
    requires line == "##"
    ensures Classify(line) == Paragraph("##")
  {
    TrimNoSpaceEnds(line);
    assert !StartsWith(line, "**");
    assert DigitsEnd(line, 0) == 0;
  }

  /** JavaScript's line terminators, which `.` in a regular expression does not match. */
  predicate IsLineTerminator(c: char) {
    c == '\n' || c == '\r' || c == '\U{2028}' || c == '\U{2029}'
  }

  /** The lazy body `(.*?)` followed by `d`, starting at `q`: the first place `d` occurs, unless a
      line terminator comes first. */
  function CloseFrom(s: string, d: string, q: nat): (r: Option<nat>)
    requires q <= |s|
    ensures r.Some? ==> q <= r.value && OccursAt(s, d, r.value)
    ensures r.Some? ==> forall k :: q <= k < r.value ==> !OccursAt(s, d, k) && !IsLineTerminator(s[k])
    decreases |s| - q
  {
    if OccursAt(s, d, q) then Some(q)
    else if q == |s| || IsLineTerminator(s[q]) then None
    else CloseFrom(s, d, q + 1)
  }

  /** When no closing delimiter is found, every later delimiter lies past a line terminator. */
  lemma {:induction false} CloseFromNone(s: string, d: string, q: nat)
    requires q <= |s| && CloseFrom(s, d, q).None?
    ensures forall e :: q <= e && OccursAt(s, d, e) ==> exists k :: q <= k < e && IsLineTerminator(s[k])
    decreases |s| - q
  {
    if !OccursAt(s, d, q) && q < |s| && !IsLineTerminator(s[q]) {
      CloseFromNone(s, d, q + 1);
      forall e | q <= e && OccursAt(s, d, e)
        ensures exists k :: q <= k < e && IsLineTerminator(s[k])
      {
        assert e != q;
        var k :| q + 1 <= k < e && IsLineTerminator(s[k]);
      }
    }
  }

  /** Where the span opened by a delimiter `d` at `p` closes, if one is opened there. */
  function Opening(s: string, d: string, p: nat): (r: Option<nat>)
    requires p <= |s|
    ensures r.Some? ==> OccursAt(s, d, p) && p + |d| <= r.value && OccursAt(s, d, r.value)
  {
    if OccursAt(s, d, p) then CloseFrom(s, d, p + |d|) else None
  }

  /** `s.replace(/d(.*?)d/g, "$1")` from position `p`, for a delimiter `d` of stars: each
      `d`-delimited span on one line loses its delimiters, scanning left to right; a `d` without
      a partner on its line stays. */
  function Strip(s: string, d: string, p: nat): string
    requires p <= |s| && |d| > 0
    decreases |s| - p
  {
    if p == |s| then "" else Piece(s, d, p) + Strip(s, d, Next(s, d, p))
  }

  /** What the text from `p` up to `Next` becomes: the body of a span opened at `p`, or the
      character at `p` itself. */
  function Piece(s: string, d: string, p: nat): string
    requires p < |s| && |d| > 0
  {
    match Opening(s, d, p)
    case Some(e) => s[p + |d|..e]
    case None => [s[p]]
  }

  /** Where stripping continues after position `p`: past the closing delimiter of a span opened
      at `p`, or at the next character. */
  function Next(s: string, d: string, p: nat): (r: nat)
    requires p < |s| && |d| > 0
    ensures p < r <= |s|
  {
    match Opening(s, d, p)
    case Some(e) => e + |d|
    case None => p + 1
  }

  /** Stripping a star delimiter only deletes stars. */
  lemma {:induction false} StripDeletesStars(s: string, d: string, p: nat)
    requires p <= |s| && |d| > 0 && forall i :: 0 <= i < |d| ==> d[i] == '*'
    ensures DeletesOnly(Strip(s, d, p), s[p..], {'*'})
    decreases |s| - p
  {
    if p == |s| {
      DeletesOnlyRefl([], {'*'});
    } else {
      StripDeletesStars(s, d, Next(s, d, p));
      StepDeletesStars(s, d, p, Strip(s, d, Next(s, d, p)));
    }
  }

  /** One step of `StripDeletesStars`: a span loses its delimiters, any other character stays. */
  lemma StepDeletesStars(s: string, d: string, p: nat, rest: string)
    requires p < |s| && |d| > 0 && forall i :: 0 <= i < |d| ==> d[i] == '*'
    requires DeletesOnly(rest, s[Next(s, d, p)..], {'*'})
    ensures DeletesOnly(Piece(s, d, p) + rest, s[p..], {'*'})
  {
    match Opening(s, d, p)
    case Some(e) =>
      PairStep(s, d, p, e, rest);
    case None =>
      KeepStep(s, p, rest);
  }

  /** The text from an opening delimiter at `p` is the delimiter, the body up to the closing
      delimiter at `e`, and that delimiter with what follows it. */
  lemma PairSlices(s: string, d: string, p: nat, e: nat)
    requires p + |d| <= e && OccursAt(s, d, p) && OccursAt(s, d, e)
    ensures s[p..] == d + s[p + |d|..e] + (d + s[e + |d|..])
  {
    var n := |d|;
    assert s[p..p + n] == d && s[e..e + n] == d;
    SliceConcat(s, p, p + n, e);
    assert s[p..] == s[p..e] + s[e..];
    assert s[e..] == s[e..e + n] + s[e + n..];
  }

  /** A delimited span loses its two delimiters. */
  lemma PairStep(s: string, d: string, p: nat, e: nat, rest: string)
    requires |d| > 0 && forall i :: 0 <= i < |d| ==> d[i] == '*'
    requires p + |d| <= e && OccursAt(s, d, p) && OccursAt(s, d, e)
    requires DeletesOnly(rest, s[e + |d|..], {'*'})
    ensures DeletesOnly(s[p + |d|..e] + rest, s[p..], {'*'})
  {
    var body := s[p + |d|..e];
    var after := s[e + |d|..];
    PairSlices(s, d, p, e);
    DeletesSpan(d, body, rest, after);
  }

  /** Deleting two star delimiters around a body, and only stars after it. */
  lemma DeletesSpan(d: string, body: string, rest: string, after: string)
    requires forall i :: 0 <= i < |d| ==> d[i] == '*'
    requires DeletesOnly(rest, after, {'*'})
    ensures DeletesOnly(body + rest, d + body + (d + after), {'*'})
  {
    var stars := {'*'};
    DeletesOnlyMarks(d, stars);
    DeletesOnlyRefl(body, stars);
    DeletesOnlyConcat([], d, body, body, stars);
    assert [] + body == body;
    DeletesOnlyConcat([], d, rest, after, stars);
    assert [] + rest == rest;
    DeletesOnlyConcat(body, d + body, rest, d + after, stars);
  }

  /** A character outside any span is kept. */
  lemma KeepStep(s: string, p: nat, rest: string)
    requires p < |s|
    requires DeletesOnly(rest, s[p + 1..], {'*'})
    ensures DeletesOnly([s[p]] + rest, s[p..], {'*'})
  {
    DeletesOnlyRefl([s[p]], {'*'});
    DeletesOnlyConcat([s[p]], [s[p]], rest, s[p + 1..], {'*'});
    assert s[p..] == [s[p]] + s[p + 1..];
  }

  /** `formatText`: the `**` pairs first, then the `*` pairs. */
  function FormatText(s: string): string {
    var bold := Strip(s, "**", 0);
    Strip(bold, "*", 0)
  }

  /** The formatted clause is the input with some stars deleted and nothing else changed. */
  lemma FormatTextDeletesStars(s: string)
    ensures DeletesOnly(FormatText(s), s, {'*'})
  {
    var bold := Strip(s, "**", 0);
    StripDeletesStars(s, "**", 0);
    StripDeletesStars(bold, "*", 0);
    assert s[0..] == s && bold[0..] == bold;
    DeletesOnlyTrans(FormatText(s), bold, s, {'*'});
  }

  /** A clause without stars is left as it is. */
  lemma FormatTextWithoutStars(s: string)
    requires Avoids(s, {'*'})
    ensures FormatText(s) == s
  {
    FormatTextDeletesStars(s);
    DeletesOnlyAvoids(FormatText(s), s, {'*'});
  }
}
