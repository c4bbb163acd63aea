/**
 * The styled word-wrap of `renderMarkdownParagraph` (src/MarkdownParser.ts:147-237): the
 * segments of a line are cut into words and whitespace runs, the tokens fill lines greedily
 * against the page width, and each line is painted one line height below the previous one,
 * with a new page whenever the cursor passes the bottom limit.
 *
 * The specification is split in two: `Greedy` decides the lines and `Place` decides their
 * vertical positions; `RenderParagraph` is the source's single loop, proved to produce the
 * same paint operations and final cursor.
 */
module Flow {
  import opened Strings
  import opened Types
  import Emphasis

  /** A word or a whitespace run, painted in the style of the segment it came from. */
  datatype Token = Token(text: string, style: Style)

  /** The concatenation of a sequence of sequences. */
  function Flatten<T>(xss: seq<seq<T>>): seq<T>
    decreases |xss|
  {
    if |xss| == 0 then [] else xss[0] + Flatten(xss[1..])
  }

  lemma {:induction false} FlattenConcat<T>(a: seq<seq<T>>, b: seq<seq<T>>)
    ensures Flatten(a + b) == Flatten(a) + Flatten(b)
    decreases |a|
  {
    if |a| == 0 {
      assert a + b == b;
    } else {
      assert (a + b)[1..] == a[1..] + b;
      FlattenConcat(a[1..], b);
    }
  }

  /** All characters of `w` agree with its first on being whitespace. */
  predicate Uniform(w: string) {
    forall k :: 0 <= k < |w| ==> IsSpace(w[k]) == IsSpace(w[0])
  }

  /** End of the run that starts at index 0, scanning from `i`. */
  function RunEnd(s: string, i: nat): (j: nat)
    requires 0 < i <= |s|
    ensures i <= j <= |s|
    ensures forall k :: i <= k < j ==> IsSpace(s[k]) == IsSpace(s[0])
    ensures j < |s| ==> IsSpace(s[j]) != IsSpace(s[0])
    decreases |s| - i
  {
    if i == |s| || IsSpace(s[i]) != IsSpace(s[0]) then i else RunEnd(s, i + 1)
  }

  /** `content.split(/(\s+)/)` with the empty pieces dropped: the maximal runs of whitespace
      and of non-whitespace, in order. */
  function Runs(s: string): (r: seq<string>)
    ensures Flatten(r) == s
    ensures forall i :: 0 <= i < |r| ==> |r[i]| > 0 && Uniform(r[i])
    ensures forall i :: 0 <= i < |r| - 1 ==> IsSpace(r[i][0]) != IsSpace(r[i + 1][0])
    ensures |r| > 0 ==> r[0][0] == s[0]
    decreases |s|
  {
    if |s| == 0 then []
    else
      var j := RunEnd(s, 1);
      var rest := Runs(s[j..]);
      assert s == s[..j] + s[j..];
      [s[..j]] + rest
  }

  /** Any cut of `s` into non-empty, uniform, alternating pieces is the one `Runs` gives. */
  lemma {:induction false} RunsUnique(s: string, r: seq<string>)
    requires Flatten(r) == s
    requires forall i :: 0 <= i < |r| ==> |r[i]| > 0 && Uniform(r[i])
    requires forall i :: 0 <= i < |r| - 1 ==> IsSpace(r[i][0]) != IsSpace(r[i + 1][0])
    ensures r == Runs(s)
    decreases |r|
  {
    if |r| > 0 {
      var n := |r[0]|;
      assert s == r[0] + Flatten(r[1..]);
      assert s[..n] == r[0];
      RunsUnique(s[n..], r[1..]);
      if n < |s| {
        assert |r| > 1;
        assert s[n] == Flatten(r[1..])[0] == r[1][0];
      }
      assert forall k :: 1 <= k < n ==> s[k] == r[0][k];
      RunEndAt(s, n);
      assert s[n..] == Flatten(r[1..]);
    }
  }

  lemma {:induction false} RunEndAt(s: string, n: nat)
    requires 0 < n <= |s|
    requires forall k :: 0 <= k < n ==> IsSpace(s[k]) == IsSpace(s[0])
    requires n < |s| ==> IsSpace(s[n]) != IsSpace(s[0])
    ensures RunEnd(s, 1) == n
  {
    RunEndFrom(s, 1, n);
  }

  lemma {:induction false} RunEndFrom(s: string, i: nat, n: nat)
    requires 0 < i <= n <= |s|
    requires forall k :: i <= k < n ==> IsSpace(s[k]) == IsSpace(s[0])
    requires n < |s| ==> IsSpace(s[n]) != IsSpace(s[0])
    ensures RunEnd(s, i) == n
    decreases n - i
  {
    if i < n {
      RunEndFrom(s, i + 1, n);
    }
  }

  /** The tokens of one segment. */
  function SegmentTokens(seg: Segment): (r: seq<Token>)
    ensures |r| == |Runs(seg.content)|
    ensures forall i :: 0 <= i < |r| ==> r[i] == Token(Runs(seg.content)[i], seg.style)
  {
    var rs := Runs(seg.content);
    seq(|rs|, i requires 0 <= i < |rs| => Token(rs[i], seg.style))
  }

  /** The tokens of all segments in order: the nested loop over segments and their words. */
  function Tokens(segs: seq<Segment>): seq<Token>
    decreases |segs|
  {
    if |segs| == 0 then [] else SegmentTokens(segs[0]) + Tokens(segs[1..])
  }

  /** The texts of tokens, in order. */
  function Texts(toks: seq<Token>): (r: seq<string>)
    ensures |r| == |toks|
    ensures forall i :: 0 <= i < |toks| ==> r[i] == toks[i].text
  {
    seq(|toks|, i requires 0 <= i < |toks| => toks[i].text)
  }

  /** Cutting into tokens loses and adds nothing: the token texts spell the segment contents. */
  lemma {:induction false} TokensSpellSegments(segs: seq<Segment>)
    ensures Flatten(Texts(Tokens(segs))) == Emphasis.Text(segs)
    decreases |segs|
  {
    if |segs| > 0 {
      var head := SegmentTokens(segs[0]);
      var tail := Tokens(segs[1..]);
      TokensSpellSegments(segs[1..]);
      assert Texts(head + tail) == Texts(head) + Texts(tail);
      FlattenConcat(Texts(head), Texts(tail));
      assert Texts(head) == Runs(segs[0].content);
    }
  }

  /** Every token is a non-empty word or whitespace run: the empty pieces of the split are skipped. */
  lemma {:induction false} TokensNonEmpty(segs: seq<Segment>)
    ensures forall i :: 0 <= i < |Tokens(segs)| ==> |Tokens(segs)[i].text| > 0 && Uniform(Tokens(segs)[i].text)
    decreases |segs|
  {
    if |segs| > 0 {
      TokensNonEmpty(segs[1..]);
      var head: seq<Token> := SegmentTokens(segs[0]);
      var tail: seq<Token> := Tokens(segs[1..]);
      forall i | 0 <= i < |head + tail|
        ensures |(head + tail)[i].text| > 0 && Uniform((head + tail)[i].text)
      {
        if i >= |head| {
          assert (head + tail)[i] == tail[i - |head|];
        }
      }
    }
  }

  /** The layout parameters of one call; `lineHeight` is `fontSize × lineHeightMultiplier`,
      computed once on entry (see `ParamsOf`). */
  datatype Params = Params(
    startX: real,
    startY: real,
    maxWidth: real,
    fontSize: int,
    lineHeight: real,
    pageHeight: real,
    bottomMargin: real)

  /** The parameters of a call with the given arguments. */
  function ParamsOf(startX: real, startY: real, maxWidth: real, fontSize: int, multiplier: real,
                    pageHeight: real, bottomMargin: real): Params
  {
    Params(startX, startY, maxWidth, fontSize, fontSize as real * multiplier, pageHeight, bottomMargin)
  }

  /** The cursor may not pass this value without a new page. */
  function Limit(p: Params): real {
    p.pageHeight - p.bottomMargin
  }

  /** The width of a token in its own style at the paragraph's font size. */
  function TokenWidth(t: Token, w: Measure, size: int): real {
    w(t.text, t.style, size)
  }

  /** The summed width of a line's tokens. */
  function Width(line: seq<Token>, w: Measure, size: int): real
    decreases |line|
  {
    if |line| == 0 then 0.0
    else Width(line[..|line| - 1], w, size) + TokenWidth(line[|line| - 1], w, size)
  }

  lemma WidthSnoc(line: seq<Token>, t: Token, w: Measure, size: int)
    ensures Width(line + [t], w, size) == Width(line, w, size) + TokenWidth(t, w, size)
  {
    assert (line + [t])[..|line|] == line;
  }

  lemma {:induction false} WidthCons(t: Token, line: seq<Token>, w: Measure, size: int)
    ensures Width([t] + line, w, size) == TokenWidth(t, w, size) + Width(line, w, size)
    decreases |line|
  {
    if |line| == 0 {
      assert [t] + line == [t];
      assert [t][..0] == [];
    } else {
      var init := line[..|line| - 1];
      WidthCons(t, init, w, size);
      assert ([t] + line)[..|line|] == [t] + init;
    }
  }

  /** Greedy line filling from a partly filled line `buf` of width `bw`: a token closes the
      current line exactly when the line is non-empty and the token would push it past the
      maximum width; the last partial line is kept. */
  function Greedy(toks: seq<Token>, buf: seq<Token>, bw: real, w: Measure, size: int, max: real): seq<seq<Token>>
    decreases |toks|
  {
    if |toks| == 0 then
      if |buf| > 0 then [buf] else []
    else
      var t := toks[0];
      var wt := TokenWidth(t, w, size);
      if |buf| > 0 && bw + wt > max then [buf] + Greedy(toks[1..], [t], wt, w, size, max)
      else Greedy(toks[1..], buf + [t], bw + wt, w, size, max)
  }

  /** What greedy filling guarantees, when `bw` is the width of `buf` and `buf` fits unless it is
      a single token: the lines spell the tokens in order; no line is empty; a line of two or
      more tokens fits the maximum width, so only a single token can be over-long; and each
      line is full, in that the first token of the next line would not have fitted on it. */
  lemma GreedyLines(toks: seq<Token>, buf: seq<Token>, bw: real, w: Measure, size: int, max: real)
    requires bw == Width(buf, w, size)
    requires |buf| >= 2 ==> bw <= max
    ensures var r := Greedy(toks, buf, bw, w, size, max);
      && Flatten(r) == buf + toks
      && (forall i :: 0 <= i < |r| ==> |r[i]| > 0)
      && (forall i :: 0 <= i < |r| ==> |r[i]| >= 2 ==> Width(r[i], w, size) <= max)
      && (forall i :: 0 <= i < |r| - 1 ==> Width(r[i], w, size) + TokenWidth(r[i + 1][0], w, size) > max)
      && (|buf| > 0 ==> |r| > 0 && r[0][0] == buf[0])
      && (|r| == 0 <==> |buf| == 0 && |toks| == 0)
  {
    GreedySpells(toks, buf, bw, w, size, max);
    GreedyFits(toks, buf, bw, w, size, max);
  }

  /** The lines spell the buffered and the remaining tokens in order, none is empty, and the
      first starts with the buffered line. */
  lemma {:induction false} GreedySpells(toks: seq<Token>, buf: seq<Token>, bw: real, w: Measure, size: int, max: real)
    ensures var r := Greedy(toks, buf, bw, w, size, max);
      && Flatten(r) == buf + toks
      && (forall i :: 0 <= i < |r| ==> |r[i]| > 0)
      && (|buf| > 0 ==> |r| > 0 && r[0][0] == buf[0])
      && (|r| == 0 <==> |buf| == 0 && |toks| == 0)
    decreases |toks|
  {
    if |toks| > 0 {
      var t := toks[0];
      var wt := TokenWidth(t, w, size);
      if |buf| > 0 && bw + wt > max {
        GreedySpells(toks[1..], [t], wt, w, size, max);
        var rest := Greedy(toks[1..], [t], wt, w, size, max);
        assert [t] + toks[1..] == toks;
        var r := [buf] + rest;
        assert r[1..] == rest;
      } else {
        GreedySpells(toks[1..], buf + [t], bw + wt, w, size, max);
        assert buf + [t] + toks[1..] == buf + toks;
      }
    }
  }

  /** Lines of two or more tokens fit, and each line is full. */
  lemma {:induction false} GreedyFits(toks: seq<Token>, buf: seq<Token>, bw: real, w: Measure, size: int, max: real)
    requires bw == Width(buf, w, size)
    requires |buf| >= 2 ==> bw <= max
    ensures var r := Greedy(toks, buf, bw, w, size, max);
      && (forall i :: 0 <= i < |r| ==> |r[i]| > 0)
      && (forall i :: 0 <= i < |r| ==> |r[i]| >= 2 ==> Width(r[i], w, size) <= max)
      && (forall i :: 0 <= i < |r| - 1 ==> Width(r[i], w, size) + TokenWidth(r[i + 1][0], w, size) > max)
    decreases |toks|
  {
    GreedySpells(toks, buf, bw, w, size, max);
    if |toks| > 0 {
      var t := toks[0];
      var wt := TokenWidth(t, w, size);
      WidthSnoc(buf, t, w, size);
      if |buf| > 0 && bw + wt > max {
        WidthSnoc([], t, w, size);
        assert [] + [t] == [t];
        GreedyFits(toks[1..], [t], wt, w, size, max);
        GreedySpells(toks[1..], [t], wt, w, size, max);
        var rest := Greedy(toks[1..], [t], wt, w, size, max);
        var r := [buf] + rest;
        assert forall i :: 0 < i < |r| ==> r[i] == rest[i - 1];
      } else {
        GreedyFits(toks[1..], buf + [t], bw + wt, w, size, max);
        assert Greedy(toks, buf, bw, w, size, max) == Greedy(toks[1..], buf + [t], bw + wt, w, size, max);
      }
    }
  }

  /** The lines of a token sequence. */
  function Lines(toks: seq<Token>, w: Measure, size: int, max: real): seq<seq<Token>> {
    Greedy(toks, [], 0.0, w, size, max)
  }

  /** A line with its cursor position and whether a new page follows it. */
  datatype Placed = Placed(tokens: seq<Token>, y: real, breakAfter: bool)

  /** Placed lines and the cursor left behind. */
  datatype Placement = Placement(lines: seq<Placed>, y: real)

  /** Vertical placement from cursor `y`: every line but the last moves the cursor down one
      line height and starts a new page at `startY` when that passes the limit; the last line
      moves it down with no check. */
  function Place(lines: seq<seq<Token>>, y: real, p: Params): (r: Placement)
    ensures |r.lines| == |lines|
    decreases |lines|
  {
    if |lines| == 0 then Placement([], y)
    else if |lines| == 1 then Placement([Placed(lines[0], y, false)], y + p.lineHeight)
    else
      var next := y + p.lineHeight;
      var brk := next > Limit(p);
      var rest := Place(lines[1..], if brk then p.startY else next, p);
      Placement([Placed(lines[0], y, brk)] + rest.lines, rest.y)
  }

  /** The placement line by line: each line keeps its tokens, the first sits at `y`, a page
      break follows a line exactly when the next line would pass the limit, the line after a
      break sits at `startY` and any other one line height lower, and the cursor ends one line
      height below the last line (or at `y` when there are no lines). */
  lemma PlaceSteps(lines: seq<seq<Token>>, y: real, p: Params)
    ensures var r := Place(lines, y, p);
      && (forall i :: 0 <= i < |lines| ==> r.lines[i].tokens == lines[i])
      && (|lines| == 0 ==> r.y == y)
      && (|lines| > 0 ==> r.lines[0].y == y)
      && (forall i :: 0 <= i < |lines| - 1 ==>
            (r.lines[i].breakAfter <==> r.lines[i].y + p.lineHeight > Limit(p)))
      && (forall i :: 0 <= i < |lines| - 1 ==>
            r.lines[i + 1].y == if r.lines[i].breakAfter then p.startY else r.lines[i].y + p.lineHeight)
      && (|lines| > 0 ==> !r.lines[|lines| - 1].breakAfter && r.y == r.lines[|lines| - 1].y + p.lineHeight)
  {
    PlaceKeepsTokens(lines, y, p);
    PlaceBreaks(lines, y, p);
    PlaceEnds(lines, y, p);
  }

  /** One line placed ahead of the rest. */
  lemma PlaceStep(lines: seq<seq<Token>>, y: real, p: Params)
    requires |lines| > 1
    ensures var next := y + p.lineHeight;
      var rest := Place(lines[1..], if next > Limit(p) then p.startY else next, p);
      && Place(lines, y, p).lines[0] == Placed(lines[0], y, next > Limit(p))
      && (forall i :: 0 < i < |lines| ==> Place(lines, y, p).lines[i] == rest.lines[i - 1])
      && Place(lines, y, p).y == rest.y
  {
  }

  lemma {:induction false} PlaceKeepsTokens(lines: seq<seq<Token>>, y: real, p: Params)
    ensures forall i :: 0 <= i < |lines| ==> Place(lines, y, p).lines[i].tokens == lines[i]
    decreases |lines|
  {
    if |lines| > 1 {
      var next := y + p.lineHeight;
      PlaceKeepsTokens(lines[1..], if next > Limit(p) then p.startY else next, p);
      PlaceStep(lines, y, p);
    }
  }

  lemma {:induction false} PlaceBreaks(lines: seq<seq<Token>>, y: real, p: Params)
    ensures var r := Place(lines, y, p);
      && (forall i :: 0 <= i < |lines| - 1 ==>
            (r.lines[i].breakAfter <==> r.lines[i].y + p.lineHeight > Limit(p)))
      && (forall i :: 0 <= i < |lines| - 1 ==>
            r.lines[i + 1].y == if r.lines[i].breakAfter then p.startY else r.lines[i].y + p.lineHeight)
    decreases |lines|
  {
    if |lines| > 1 {
      var next := y + p.lineHeight;
      var y' := if next > Limit(p) then p.startY else next;
      PlaceBreaks(lines[1..], y', p);
      PlaceEnds(lines[1..], y', p);
      PlaceStep(lines, y, p);
    }
  }

  lemma {:induction false} PlaceEnds(lines: seq<seq<Token>>, y: real, p: Params)
    ensures var r := Place(lines, y, p);
      && (|lines| == 0 ==> r.y == y)
      && (|lines| > 0 ==> r.lines[0].y == y)
      && (|lines| > 0 ==> !r.lines[|lines| - 1].breakAfter && r.y == r.lines[|lines| - 1].y + p.lineHeight)
    decreases |lines|
  {
    if |lines| > 1 {
      var next := y + p.lineHeight;
      PlaceEnds(lines[1..], if next > Limit(p) then p.startY else next, p);
      PlaceStep(lines, y, p);
    }
  }

  /** Every line after the first is painted within the page, or at `startY` on a fresh page. */
  lemma PlaceWithinPage(lines: seq<seq<Token>>, y: real, p: Params)
    ensures var r := Place(lines, y, p);
      forall i :: 0 < i < |r.lines| ==> r.lines[i].y <= Limit(p) || (r.lines[i - 1].breakAfter && r.lines[i].y == p.startY)
  {
    var r := Place(lines, y, p);
    PlaceSteps(lines, y, p);
    forall i | 0 < i < |r.lines|
      ensures r.lines[i].y <= Limit(p) || (r.lines[i - 1].breakAfter && r.lines[i].y == p.startY)
    {
      assert r.lines[i].y == if r.lines[i - 1].breakAfter then p.startY else r.lines[i - 1].y + p.lineHeight;
    }
  }

  /** When the cursor never passes the limit before the last line, there is no page break and
      the cursor ends one line height per line below where it started. */
  lemma {:induction false} PlaceNoBreak(lines: seq<seq<Token>>, y: real, p: Params)
    requires p.lineHeight >= 0.0
    requires |lines| > 0 ==> y + (|lines| - 1) as real * p.lineHeight <= Limit(p)
    ensures forall i :: 0 <= i < |lines| ==> !Place(lines, y, p).lines[i].breakAfter
    ensures Place(lines, y, p).y == y + |lines| as real * p.lineHeight
    decreases |lines|
  {
    if |lines| > 1 {
      var lh := p.lineHeight;
      var k := (|lines| - 2) as real;
      assert (|lines| - 1) as real * lh == k * lh + lh;
      assert |lines| as real * lh == (k + 1.0) * lh + lh;
      NonNegProduct(k, lh);
      assert y + lh <= Limit(p);
      PlaceNoBreak(lines[1..], y + lh, p);
      var r := Place(lines, y, p);
      assert r.lines == [Placed(lines[0], y, false)] + Place(lines[1..], y + lh, p).lines;
      forall i | 0 <= i < |lines|
        ensures !r.lines[i].breakAfter
      {
        if i > 0 {
          assert r.lines[i] == Place(lines[1..], y + lh, p).lines[i - 1];
        }
      }
    }
  }

  lemma NonNegProduct(a: real, b: real)
    requires a >= 0.0 && b >= 0.0
    ensures a * b >= 0.0
  {
  }

  /** The paint operations of one line: each token in turn, the pen moving right by the
      token's width (`drawX += width`). */
  function LineEvents(line: seq<Token>, x: real, y: real, w: Measure, size: int): (r: seq<Event>)
    ensures |r| == |line|
    decreases |line|
  {
    if |line| == 0 then []
    else [Text(line[0].text, line[0].style, size, x, y)] + LineEvents(line[1..], x + TokenWidth(line[0], w, size), y, w, size)
  }

  /** Each token of a line is painted, in its style, at the left edge plus the widths of the
      tokens before it. */
  lemma {:induction false} LineEventsAt(line: seq<Token>, x: real, y: real, w: Measure, size: int)
    ensures forall i :: 0 <= i < |line| ==>
      LineEvents(line, x, y, w, size)[i] == Text(line[i].text, line[i].style, size, x + Width(line[..i], w, size), y)
    decreases |line|
  {
    if |line| > 0 {
      var x' := x + TokenWidth(line[0], w, size);
      LineEventsAt(line[1..], x', y, w, size);
      var r := LineEvents(line, x, y, w, size);
      var rest := LineEvents(line[1..], x', y, w, size);
      assert Width(line[..0], w, size) == 0.0 by { assert line[..0] == []; }
      forall i | 0 < i < |line|
        ensures r[i] == Text(line[i].text, line[i].style, size, x + Width(line[..i], w, size), y)
      {
        assert r[i] == rest[i - 1];
        WidthCons(line[0], line[1..][..i - 1], w, size);
        assert [line[0]] + line[1..][..i - 1] == line[..i];
      }
    }
  }

  /** The paint operations of placed lines: each line, then a new page if one follows it. */
  function Events(placed: seq<Placed>, p: Params, w: Measure): seq<Event>
    decreases |placed|
  {
    if |placed| == 0 then []
    else
      LineEvents(placed[0].tokens, p.startX, placed[0].y, w, p.fontSize)
      + (if placed[0].breakAfter then [NewPage] else [])
      + Events(placed[1..], p, w)
  }

  /** The layout of a token sequence: its lines, placed from `startY`, painted. */
  function LayoutOf(toks: seq<Token>, p: Params, w: Measure): Layout {
    var placement := Place(Lines(toks, w, p.fontSize, p.maxWidth), p.startY, p);
    Layout(Events(placement.lines, p, w), placement.y)
  }

  /** The specification of the paragraph. */
  function Render(text: string, p: Params, w: Measure): Layout {
    LayoutOf(Tokens(Emphasis.Segments(text)), p, w)
  }

  /** `renderMarkdownParagraph`: cut the text into styled tokens and lay them out. */
  method RenderParagraph(text: string, p: Params, w: Measure) returns (events: seq<Event>, y: real)
    ensures Layout(events, y) == Render(text, p, w)
  {
    events, y := LayoutTokens(Tokens(Emphasis.Segments(text)), p, w);
  }

  /** The source's loop over the tokens, with the line buffer and its width, flushing a line
      before a token that does not fit and painting the buffered line at the end. */
  method LayoutTokens(toks: seq<Token>, p: Params, w: Measure) returns (events: seq<Event>, y: real)
    ensures Layout(events, y) == LayoutOf(toks, p, w)
  {
    var size := p.fontSize;
    ghost var spec := LayoutOf(toks, p, w);
    y := p.startY;
    events := [];
    var line: seq<Token> := [];
    var lineWidth := 0.0;
    assert toks[0..] == toks;
    for i := 0 to |toks|
      invariant lineWidth == Width(line, w, size)
      invariant |line| >= 2 ==> lineWidth <= p.maxWidth
      invariant Remaining(toks[i..], line, lineWidth, y, p, w, events) == spec
    {
      assert toks[i..] == [toks[i]] + toks[i + 1..];
      line, lineWidth, events, y := Advance(toks[i + 1..], toks[i], line, lineWidth, y, p, w, events);
    }
    LastStep(line, lineWidth, y, p, w, events);
    if |line| > 0 {
      events := events + LineEvents(line, p.startX, y, w, size);
      y := y + p.lineHeight;
    }
  }

  /** One pass of the loop: the token joins the buffered line when it fits (or the line is
      empty), and otherwise the line is flushed and the token starts the next one. */
  method Advance(toks: seq<Token>, t: Token, line: seq<Token>, lw: real, y: real, p: Params, w: Measure, done: seq<Event>)
    returns (line': seq<Token>, lw': real, events: seq<Event>, y': real)
    requires lw == Width(line, w, p.fontSize) && (|line| >= 2 ==> lw <= p.maxWidth)
    ensures lw' == Width(line', w, p.fontSize) && (|line'| >= 2 ==> lw' <= p.maxWidth)
    ensures Remaining([t] + toks, line, lw, y, p, w, done) == Remaining(toks, line', lw', y', p, w, events)
  {
    var wt := w(t.text, t.style, p.fontSize);
    if |line| > 0 && lw + wt > p.maxWidth {
      events, y' := Flush(toks, line, lw, t, y, p, w, done);
      line' := [t];
      lw' := wt;
    } else {
      KeepStep(toks, line, lw, t, y, p, w, done);
      line' := line + [t];
      lw' := lw + wt;
      events := done;
      y' := y;
    }
  }

  /** The loop's flush before a token that does not fit: the buffered line is painted, the cursor
      moves down one line height, and past the limit a new page starts and the cursor goes back
      to `startY`. What remains to be produced is then that of the token on a line of its own. */
  method Flush(toks: seq<Token>, line: seq<Token>, lw: real, t: Token, y: real, p: Params, w: Measure, done: seq<Event>)
    returns (events: seq<Event>, y': real)
    requires |line| > 0 && lw == Width(line, w, p.fontSize) && (|line| >= 2 ==> lw <= p.maxWidth)
    requires lw + TokenWidth(t, w, p.fontSize) > p.maxWidth
    ensures Width([t], w, p.fontSize) == TokenWidth(t, w, p.fontSize)
    ensures done < events
    ensures y' <= Limit(p) || y' == p.startY
    ensures Remaining([t] + toks, line, lw, y, p, w, done)
      == Remaining(toks, [t], TokenWidth(t, w, p.fontSize), y', p, w, events)
  {
    FlushStep(toks, line, lw, t, y, p, w, done);
    events := done + LineEvents(line, p.startX, y, w, p.fontSize);
    y' := y + p.lineHeight;
    if y' > Limit(p) {
      events := events + [NewPage];
      y' := p.startY;
    }
  }

  /** What the loop will have produced when it ends, from a state with `toks` still to come:
      the operations issued so far followed by those of the rest of the layout. */
  function Remaining(toks: seq<Token>, line: seq<Token>, lw: real, y: real, p: Params, w: Measure, done: seq<Event>): Layout {
    var rest := Place(Greedy(toks, line, lw, w, p.fontSize, p.maxWidth), y, p);
    Layout(done + Events(rest.lines, p, w), rest.y)
  }

  /** A token that fits joins the current line. */
  lemma KeepStep(toks: seq<Token>, line: seq<Token>, lw: real, t: Token, y: real, p: Params, w: Measure, done: seq<Event>)
    requires lw == Width(line, w, p.fontSize) && (|line| >= 2 ==> lw <= p.maxWidth)
    requires !(|line| > 0 && lw + TokenWidth(t, w, p.fontSize) > p.maxWidth)
    ensures Width(line + [t], w, p.fontSize) == lw + TokenWidth(t, w, p.fontSize)
    ensures |line + [t]| >= 2 ==> lw + TokenWidth(t, w, p.fontSize) <= p.maxWidth
    ensures Remaining([t] + toks, line, lw, y, p, w, done)
      == Remaining(toks, line + [t], lw + TokenWidth(t, w, p.fontSize), y, p, w, done)
  {
    WidthSnoc(line, t, w, p.fontSize);
    var all := [t] + toks;
    assert all[0] == t && all[1..] == toks;
  }

  /** After the loop the buffered line, if any, is painted and the cursor moves down once more. */
  lemma LastStep(line: seq<Token>, lw: real, y: real, p: Params, w: Measure, done: seq<Event>)
    ensures Remaining([], line, lw, y, p, w, done)
      == if |line| > 0 then Layout(done + LineEvents(line, p.startX, y, w, p.fontSize), y + p.lineHeight)
         else Layout(done, y)
  {
    if |line| > 0 {
      var pl := Placed(line, y, false);
      assert Place([line], y, p) == Placement([pl], y + p.lineHeight);
      EventsCons(pl, [], p, w);
      assert [pl] + [] == [pl];
    } else {
      assert done + [] == done;
    }
  }

  /** One flush of the loop, against the specification: the buffered line is painted, the
      cursor moves down (to a new page if it passes the limit), and the token starts a new line. */
  lemma FlushStep(toks: seq<Token>, line: seq<Token>, lw: real, t: Token, y: real, p: Params, w: Measure, done: seq<Event>)
    requires |line| > 0 && lw == Width(line, w, p.fontSize) && (|line| >= 2 ==> lw <= p.maxWidth)
    requires lw + TokenWidth(t, w, p.fontSize) > p.maxWidth
    ensures Width([t], w, p.fontSize) == TokenWidth(t, w, p.fontSize)
    ensures y + p.lineHeight > Limit(p) ==>
      Remaining([t] + toks, line, lw, y, p, w, done)
        == Remaining(toks, [t], TokenWidth(t, w, p.fontSize), p.startY, p, w,
                     done + LineEvents(line, p.startX, y, w, p.fontSize) + [NewPage])
    ensures y + p.lineHeight <= Limit(p) ==>
      Remaining([t] + toks, line, lw, y, p, w, done)
        == Remaining(toks, [t], TokenWidth(t, w, p.fontSize), y + p.lineHeight, p, w,
                     done + LineEvents(line, p.startX, y, w, p.fontSize))
  {
    var size := p.fontSize;
    var wt := TokenWidth(t, w, size);
    WidthSnoc([], t, w, size);
    assert [] + [t] == [t];
    GreedySpells(toks, [t], wt, w, size, p.maxWidth);
    GreedyFlush(toks, line, lw, t, w, size, p.maxWidth);
    FlushPlaced(toks, line, lw, t, y, p, w, done);
  }

  /** The flush against the placement: the flushed line is placed first and the token's line
      after it, on a new page when the cursor passes the limit. */
  lemma FlushPlaced(toks: seq<Token>, line: seq<Token>, lw: real, t: Token, y: real, p: Params, w: Measure, done: seq<Event>)
    requires var rest := Greedy(toks, [t], TokenWidth(t, w, p.fontSize), w, p.fontSize, p.maxWidth);
      |rest| > 0 && Greedy([t] + toks, line, lw, w, p.fontSize, p.maxWidth) == [line] + rest
    ensures y + p.lineHeight > Limit(p) ==>
      Remaining([t] + toks, line, lw, y, p, w, done)
        == Remaining(toks, [t], TokenWidth(t, w, p.fontSize), p.startY, p, w,
                     done + LineEvents(line, p.startX, y, w, p.fontSize) + [NewPage])
    ensures y + p.lineHeight <= Limit(p) ==>
      Remaining([t] + toks, line, lw, y, p, w, done)
        == Remaining(toks, [t], TokenWidth(t, w, p.fontSize), y + p.lineHeight, p, w,
                     done + LineEvents(line, p.startX, y, w, p.fontSize))
  {
    var size := p.fontSize;
    var wt := TokenWidth(t, w, size);
    var rest := Greedy(toks, [t], wt, w, size, p.maxWidth);
    var next := y + p.lineHeight;
    var brk := next > Limit(p);
    var y' := if brk then p.startY else next;
    PlaceCons(line, rest, y, p);
    var after := Place(rest, y', p);
    var before := Place([line] + rest, y, p);
    EventsCons(Placed(line, y, brk), after.lines, p, w);
    var le := LineEvents(line, p.startX, y, w, size);
    var nb: seq<Event> := if brk then [NewPage] else [];
    var ea := Events(after.lines, p, w);
    assert Events(before.lines, p, w) == le + nb + ea;
    Associate(done, le, nb, ea);
    RemainingIs([t] + toks, line, lw, y, p, w, done, before);
    RemainingIs(toks, [t], wt, y', p, w, done + le + nb, after);
  }

  lemma RemainingIs(toks: seq<Token>, line: seq<Token>, lw: real, y: real, p: Params, w: Measure, done: seq<Event>, r: Placement)
    requires r == Place(Greedy(toks, line, lw, w, p.fontSize, p.maxWidth), y, p)
    ensures Remaining(toks, line, lw, y, p, w, done) == Layout(done + Events(r.lines, p, w), r.y)
  {
  }

  lemma Associate<T>(a: seq<T>, b: seq<T>, c: seq<T>, d: seq<T>)
    ensures a + (b + c + d) == a + b + c + d
  {
  }

  lemma GreedyFlush(toks: seq<Token>, line: seq<Token>, lw: real, t: Token, w: Measure, size: int, max: real)
    requires |line| > 0 && lw == Width(line, w, size) && (|line| >= 2 ==> lw <= max)
    requires lw + TokenWidth(t, w, size) > max
    requires Width([t], w, size) == TokenWidth(t, w, size)
    ensures Greedy([t] + toks, line, lw, w, size, max) == [line] + Greedy(toks, [t], TokenWidth(t, w, size), w, size, max)
  {
    var all := [t] + toks;
    assert all[0] == t && all[1..] == toks;
  }

  lemma PlaceCons(line: seq<Token>, rest: seq<seq<Token>>, y: real, p: Params)
    requires |rest| > 0
    ensures
      var next := y + p.lineHeight;
      var y' := if next > Limit(p) then p.startY else next;
      Place([line] + rest, y, p) == Placement([Placed(line, y, next > Limit(p))] + Place(rest, y', p).lines, Place(rest, y', p).y)
  {
    assert ([line] + rest)[1..] == rest;
  }

  lemma EventsCons(pl: Placed, rest: seq<Placed>, p: Params, w: Measure)
    ensures Events([pl] + rest, p, w)
      == LineEvents(pl.tokens, p.startX, pl.y, w, p.fontSize) + (if pl.breakAfter then [NewPage] else []) + Events(rest, p, w)
  {
    assert ([pl] + rest)[1..] == rest;
  }

  /** The tokens of placed lines, in order. */
  function AllTokens(placed: seq<Placed>): seq<Token>
    decreases |placed|
  {
    if |placed| == 0 then [] else placed[0].tokens + AllTokens(placed[1..])
  }

  lemma {:induction false} TextsConcat(a: seq<Token>, b: seq<Token>)
    ensures Texts(a + b) == Texts(a) + Texts(b)
  {
  }

  lemma {:induction false} PaintedLine(line: seq<Token>, x: real, y: real, w: Measure, size: int)
    ensures Painted(LineEvents(line, x, y, w, size)) == Texts(line)
    decreases |line|
  {
    if |line| > 0 {
      var x' := x + TokenWidth(line[0], w, size);
      var e := Text(line[0].text, line[0].style, size, x, y);
      PaintedLine(line[1..], x', y, w, size);
      PaintedConcat([e], LineEvents(line[1..], x', y, w, size));
      assert Painted([e]) == [line[0].text] by { assert [e][1..] == []; }
      assert Texts(line) == [line[0].text] + Texts(line[1..]);
    }
  }

  /** The strings painted for placed lines are the texts of their tokens; page breaks paint nothing. */
  lemma {:induction false} PaintedEvents(placed: seq<Placed>, p: Params, w: Measure)
    ensures Painted(Events(placed, p, w)) == Texts(AllTokens(placed))
    decreases |placed|
  {
    if |placed| > 0 {
      var le := LineEvents(placed[0].tokens, p.startX, placed[0].y, w, p.fontSize);
      var nb: seq<Event> := if placed[0].breakAfter then [NewPage] else [];
      PaintedEvents(placed[1..], p, w);
      PaintedLine(placed[0].tokens, p.startX, placed[0].y, w, p.fontSize);
      PaintedConcat(le + nb, Events(placed[1..], p, w));
      PaintedConcat(le, nb);
      assert Painted(nb) == [] by { if placed[0].breakAfter { assert nb[1..] == []; } }
      TextsConcat(placed[0].tokens, AllTokens(placed[1..]));
    }
  }

  lemma {:induction false} PlacedTokens(lines: seq<seq<Token>>, y: real, p: Params)
    ensures AllTokens(Place(lines, y, p).lines) == Flatten(lines)
    decreases |lines|
  {
    if |lines| > 1 {
      var next := y + p.lineHeight;
      var y' := if next > Limit(p) then p.startY else next;
      PlacedTokens(lines[1..], y', p);
      var r := Place(lines, y, p);
      assert r.lines[1..] == Place(lines[1..], y', p).lines;
    } else if |lines| == 1 {
      assert lines[1..] == [];
      assert Place(lines, y, p).lines[1..] == [];
    }
  }

  /** No page break among placed lines means no new page in their paint operations. */
  lemma {:induction false} EventsWithoutBreaks(placed: seq<Placed>, p: Params, w: Measure)
    requires forall i :: 0 <= i < |placed| ==> !placed[i].breakAfter
    ensures PageCount(Events(placed, p, w)) == 0
    decreases |placed|
  {
    if |placed| > 0 {
      var le := LineEvents(placed[0].tokens, p.startX, placed[0].y, w, p.fontSize);
      EventsWithoutBreaks(placed[1..], p, w);
      LineWithoutPages(placed[0].tokens, p.startX, placed[0].y, w, p.fontSize);
      assert le + [] == le;
      PageCountConcat(le, Events(placed[1..], p, w));
    }
  }

  lemma {:induction false} LineWithoutPages(line: seq<Token>, x: real, y: real, w: Measure, size: int)
    ensures PageCount(LineEvents(line, x, y, w, size)) == 0
    decreases |line|
  {
    if |line| > 0 {
      var x' := x + TokenWidth(line[0], w, size);
      LineWithoutPages(line[1..], x', y, w, size);
      var r := LineEvents(line, x, y, w, size);
      assert r[1..] == LineEvents(line[1..], x', y, w, size);
    }
  }

  /** The strings painted for a token sequence are the tokens' texts, in order, wherever the
      page breaks fall. */
  lemma LayoutPaintsTokens(toks: seq<Token>, p: Params, w: Measure)
    ensures Painted(LayoutOf(toks, p, w).events) == Texts(toks)
  {
    var lines := Lines(toks, w, p.fontSize, p.maxWidth);
    GreedySpells(toks, [], 0.0, w, p.fontSize, p.maxWidth);
    assert [] + toks == toks;
    PlacedTokens(lines, p.startY, p);
    PaintedEvents(Place(lines, p.startY, p).lines, p, w);
  }

  /** Nothing of the text is lost or invented: the painted strings, concatenated, are the
      segment contents, which are the markdown line with only emphasis markers removed. */
  lemma RenderPaintsText(text: string, p: Params, w: Measure)
    ensures Flatten(Painted(Render(text, p, w).events)) == Emphasis.Text(Emphasis.Segments(text))
    ensures DeletesOnly(Flatten(Painted(Render(text, p, w).events)), text, Emphasis.Marks)
  {
    RenderPaintsTokens(text, p, w);
    TokensSpellSegments(Emphasis.Segments(text));
    Emphasis.SegmentsDeleteOnlyMarks(text);
  }

  /** The strings painted are the paragraph's tokens, wherever the paragraph starts and
      wherever its page breaks fall. */
  lemma RenderPaintsTokens(text: string, p: Params, w: Measure)
    ensures Painted(Render(text, p, w).events) == Texts(Tokens(Emphasis.Segments(text)))
  {
    LayoutPaintsTokens(Tokens(Emphasis.Segments(text)), p, w);
  }

  /** An empty paragraph paints nothing and leaves the cursor where it was. */
  lemma RenderEmpty(p: Params, w: Measure)
    ensures Render("", p, w) == Layout([], p.startY)
  {
    Emphasis.SegmentsOfEmpty();
  }

  /** When the lines all fit below `startY` on one page, there is no new page and the cursor
      ends one line height per line lower. */
  lemma LayoutOnOnePage(toks: seq<Token>, p: Params, w: Measure, lines: seq<seq<Token>>)
    requires lines == Lines(toks, w, p.fontSize, p.maxWidth)
    requires p.lineHeight >= 0.0
    requires |lines| > 0 ==> p.startY + (|lines| - 1) as real * p.lineHeight <= Limit(p)
    ensures PageCount(LayoutOf(toks, p, w).events) == 0
    ensures LayoutOf(toks, p, w).y == p.startY + |lines| as real * p.lineHeight
  {
    PlaceNoBreak(lines, p.startY, p);
    EventsWithoutBreaks(Place(lines, p.startY, p).lines, p, w);
  }

  /** The same for a paragraph of markdown, with `lines` its lines. */
  lemma RenderOnOnePage(text: string, p: Params, w: Measure, lines: seq<seq<Token>>)
    requires lines == Lines(Tokens(Emphasis.Segments(text)), w, p.fontSize, p.maxWidth)
    requires p.lineHeight >= 0.0
    requires |lines| > 0 ==> p.startY + (|lines| - 1) as real * p.lineHeight <= Limit(p)
    ensures PageCount(Render(text, p, w).events) == 0
    ensures Render(text, p, w).y == p.startY + |lines| as real * p.lineHeight
  {
    LayoutOnOnePage(Tokens(Emphasis.Segments(text)), p, w, lines);
  }
}
