/**
 * The body of the document in src/pdfRenderer.ts: `addSection` lays out one classified block
 * from the cursor, `addContent` lays out all blocks of the body with a page break before a
 * block that would start too low, and `createPdfDocument` puts the header above the body.
 */
module Sections {
  import opened Types
  import opened Strings
  import Wrap
  import Blocks
  import Emphasis
  import Flow
  import Header

  const PageHeight: real := 297.0
  const Margin: real := Header.Margin
  const LineHeight: real := Header.LineHeight
  /** The width of the text column. */
  const MaxWidth: real := Header.PageWidth - 2.0 * Margin
  /** A heading line starting below this goes to a new page. */
  const HeadingLimit: real := PageHeight - Margin - 20.0
  /** A clause or bullet line starting below this goes to a new page. */
  const ClauseLimit: real := PageHeight - Margin - 15.0
  /** A block starting below this goes to a new page. */
  const BlockLimit: real := PageHeight - Margin - 30.0

  /** The new page that comes before a line or block whose cursor `y` has passed `limit`. */
  function Break(y: real, limit: real): seq<Event> {
    if y > limit then [NewPage] else []
  }

  /** The cursor after the page check: the top margin of the new page, or `y` itself. */
  function TopAt(y: real, limit: real): real {
    if y > limit then Margin else y
  }

  lemma BreakPaintsNothing(y: real, limit: real)
    ensures Painted(Break(y, limit)) == []
    ensures PageCount(Break(y, limit)) == if y > limit then 1 else 0
  {
    if y > limit {
      assert Break(y, limit)[1..] == [];
    }
  }

  /** Lines painted one below the other from `y`, `step` apart: a line whose cursor has passed
      `limit` is moved to the top margin of a new page. The first line is painted at `xFirst`
      and the others at `xRest`. */
  function PlaceLines(lines: seq<string>, style: Style, size: int, xFirst: real, xRest: real,
                      y: real, limit: real, step: real): Layout
    decreases |lines|
  {
    if |lines| == 0 then Layout([], y)
    else
      var rest := PlaceLines(lines[1..], style, size, xRest, xRest, TopAt(y, limit) + step, limit, step);
      Layout(Break(y, limit) + [Text(lines[0], style, size, xFirst, TopAt(y, limit))] + rest.events, rest.y)
  }

  /** The first line and the lines after it. */
  lemma PlaceLinesCons(lines: seq<string>, style: Style, size: int, xFirst: real, xRest: real,
                       y: real, limit: real, step: real, rest: Layout)
    requires |lines| > 0
    requires rest == PlaceLines(lines[1..], style, size, xRest, xRest, TopAt(y, limit) + step, limit, step)
    ensures PlaceLines(lines, style, size, xFirst, xRest, y, limit, step)
      == Layout(Break(y, limit) + [Text(lines[0], style, size, xFirst, TopAt(y, limit))] + rest.events, rest.y)
  {
  }

  /** The lines are painted in order, each once, with at most one new page before each. */
  lemma {:induction false} PlaceLinesPaints(lines: seq<string>, style: Style, size: int, xFirst: real, xRest: real,
                                            y: real, limit: real, step: real)
    ensures Painted(PlaceLines(lines, style, size, xFirst, xRest, y, limit, step).events) == lines
    ensures PageCount(PlaceLines(lines, style, size, xFirst, xRest, y, limit, step).events) <= |lines|
    decreases |lines|
  {
    if |lines| > 0 {
      var rest := PlaceLines(lines[1..], style, size, xRest, xRest, TopAt(y, limit) + step, limit, step);
      var nb := Break(y, limit);
      var t := Text(lines[0], style, size, xFirst, TopAt(y, limit));
      PlaceLinesCons(lines, style, size, xFirst, xRest, y, limit, step, rest);
      PlaceLinesPaints(lines[1..], style, size, xRest, xRest, TopAt(y, limit) + step, limit, step);
      PaintedText(t);
      BreakPaintsNothing(y, limit);
      PaintedConcat(nb, [t]);
      PaintedConcat(nb + [t], rest.events);
      PageCountConcat(nb, [t]);
      PageCountConcat(nb + [t], rest.events);
    }
  }

  /** With the top margin above the limit, no line is painted below the limit. */
  lemma {:induction false} PlaceLinesWithinPage(lines: seq<string>, style: Style, size: int, xFirst: real, xRest: real,
                                                y: real, limit: real, step: real)
    requires Margin <= limit
    ensures var r := PlaceLines(lines, style, size, xFirst, xRest, y, limit, step);
      forall i :: 0 <= i < |r.events| && r.events[i].Text? ==> r.events[i].y <= limit
    decreases |lines|
  {
    if |lines| > 0 {
      var rest := PlaceLines(lines[1..], style, size, xRest, xRest, TopAt(y, limit) + step, limit, step);
      var head := Break(y, limit) + [Text(lines[0], style, size, xFirst, TopAt(y, limit))];
      PlaceLinesCons(lines, style, size, xFirst, xRest, y, limit, step, rest);
      PlaceLinesWithinPage(lines[1..], style, size, xRest, xRest, TopAt(y, limit) + step, limit, step);
      var r := PlaceLines(lines, style, size, xFirst, xRest, y, limit, step);
      assert r.events == head + rest.events;
      assert forall i :: 0 <= i < |head| && head[i].Text? ==> head[i].y <= limit;
      assert forall i :: 0 <= i < |head| ==> r.events[i] == head[i];
      assert forall i :: |head| <= i < |r.events| ==> r.events[i] == rest.events[i - |head|];
    }
  }

  /** When the cursor never passes the limit before the last line, no page is started, and
      line `i` is painted at `y + i * step`, the first at `xFirst` and the others at `xRest`. */
  lemma {:induction false} PlaceLinesNoBreak(lines: seq<string>, style: Style, size: int, xFirst: real, xRest: real,
                                             y: real, limit: real, step: real)
    requires step >= 0.0
    requires |lines| > 0 ==> y + (|lines| - 1) as real * step <= limit
    ensures var r := PlaceLines(lines, style, size, xFirst, xRest, y, limit, step);
      && |r.events| == |lines|
      && (forall i :: 0 <= i < |lines| ==>
            r.events[i] == Text(lines[i], style, size, if i == 0 then xFirst else xRest, y + i as real * step))
    decreases |lines|
  {
    if |lines| > 0 {
      var n := |lines|;
      StepFits(y, limit, step, n);
      PlaceLinesNoBreak(lines[1..], style, size, xRest, xRest, y + step, limit, step);
      var rest := PlaceLines(lines[1..], style, size, xRest, xRest, y + step, limit, step);
      PlaceLinesCons(lines, style, size, xFirst, xRest, y, limit, step, rest);
      ShiftLines(PlaceLines(lines, style, size, xFirst, xRest, y, limit, step).events, rest.events,
                 lines, style, size, xFirst, xRest, y, step);
    }
  }

  /** A first line at `y` and `xFirst` in front of the other lines painted from one step lower
      at `xRest`. */
  lemma ShiftLines(events: seq<Event>, rest: seq<Event>, lines: seq<string>, style: Style, size: int,
                   xFirst: real, xRest: real, y: real, step: real)
    requires |lines| > 0 && |rest| == |lines| - 1
    requires events == [Text(lines[0], style, size, xFirst, y)] + rest
    requires forall i :: 0 <= i < |lines| - 1 ==>
      rest[i] == Text(lines[1..][i], style, size, if i == 0 then xRest else xRest, (y + step) + i as real * step)
    ensures |events| == |lines|
    ensures forall i :: 0 <= i < |lines| ==>
      events[i] == Text(lines[i], style, size, if i == 0 then xFirst else xRest, y + i as real * step)
  {
    forall i | 0 < i < |lines|
      ensures events[i] == Text(lines[i], style, size, xRest, y + i as real * step)
    {
      assert events[i] == rest[i - 1];
      StepMore(y, step, i);
    }
  }

  /** Under the same condition the cursor ends one step per line lower. */
  lemma {:induction false} PlaceLinesNoBreakCursor(lines: seq<string>, style: Style, size: int, xFirst: real, xRest: real,
                                                   y: real, limit: real, step: real)
    requires step >= 0.0
    requires |lines| > 0 ==> y + (|lines| - 1) as real * step <= limit
    ensures PlaceLines(lines, style, size, xFirst, xRest, y, limit, step).y == y + |lines| as real * step
    decreases |lines|
  {
    if |lines| > 0 {
      var n := |lines|;
      StepFits(y, limit, step, n);
      PlaceLinesNoBreakCursor(lines[1..], style, size, xRest, xRest, y + step, limit, step);
      var rest := PlaceLines(lines[1..], style, size, xRest, xRest, y + step, limit, step);
      PlaceLinesCons(lines, style, size, xFirst, xRest, y, limit, step, rest);
      StepMore(y, step, n);
    }
  }

  /** The cursor arithmetic of one more line: `n` lines from `y` fit below `limit` exactly when
      the first does and the `n - 1` after it do from one step lower. */
  lemma StepFits(y: real, limit: real, step: real, n: int)
    requires step >= 0.0 && n > 0
    requires y + (n - 1) as real * step <= limit
    ensures y <= limit
    ensures n > 1 ==> (y + step) + (n - 2) as real * step <= limit
  {
    Flow.NonNegProduct((n - 1) as real, step);
    assert (n - 1) as real * step == (n - 2) as real * step + step;
  }

  lemma StepMore(y: real, step: real, i: int)
    ensures (y + step) + (i - 1) as real * step == y + i as real * step
  {
    assert (i - 1) as real * step + step == i as real * step;
  }

  /** A page break comes before a line exactly when the cursor has passed the limit, and none
      comes before the first line when it starts within the page. */
  lemma PlaceLinesFirstBreak(lines: seq<string>, style: Style, size: int, xFirst: real, xRest: real,
                             y: real, limit: real, step: real)
    requires |lines| > 0
    ensures var r := PlaceLines(lines, style, size, xFirst, xRest, y, limit, step);
      && (r.events[0].NewPage? <==> y > limit)
      && (y > limit ==> r.events[1] == Text(lines[0], style, size, xFirst, Margin))
      && (y <= limit ==> r.events[0] == Text(lines[0], style, size, xFirst, y))
  {
    var rest := PlaceLines(lines[1..], style, size, xRest, xRest, TopAt(y, limit) + step, limit, step);
    PlaceLinesCons(lines, style, size, xFirst, xRest, y, limit, step, rest);
  }

  /** The font size of a heading: 16 for the first level, 14 otherwise. */
  function HeadingSize(level: nat): int {
    if level == 1 then 16 else 14
  }

  function HeadingLines(level: nat, content: string, w: Measure): seq<string> {
    Wrap.WrapText(content, s => w(s, Bold, HeadingSize(level)), MaxWidth)
  }

  /** A preambular clause is painted with its emphasis stars removed. */
  function PreambularLines(content: string, w: Measure): seq<string> {
    Wrap.WrapText(Blocks.FormatText(content), s => w(s, Normal, 12), MaxWidth)
  }

  /** `• ${content}` */
  function BulletText(content: string): string {
    "\U{2022} " + content
  }

  /** A bullet is wrapped 15 units narrower than the column. */
  function BulletLines(content: string, w: Measure): seq<string> {
    Wrap.WrapText(BulletText(content), s => w(s, Normal, 12), MaxWidth - 15.0)
  }

  /** The call of `renderMarkdownParagraph` for operative clauses and plain paragraphs: at the
      margin, across the column, size 12, half the size as line height, no bottom margin. */
  function ParagraphParams(y: real): Flow.Params {
    Flow.ParamsOf(Margin, y, MaxWidth, 12, 0.5, PageHeight, 0.0)
  }

  /** `addSection`: the paint operations of one block from the cursor `y`, and the cursor
      after it. */
  function AddSection(b: Block, y: real, w: Measure): Layout {
    match b
    case Heading(level, content) =>
      var l := PlaceLines(HeadingLines(level, content, w), Bold, HeadingSize(level), Margin, Margin,
                          y + 8.0, HeadingLimit, LineHeight + 2.0);
      Layout(l.events, l.y + 5.0)
    case Preambular(content) =>
      var l := PlaceLines(PreambularLines(content, w), Normal, 12, Margin, Margin + 10.0,
                          y, ClauseLimit, LineHeight + 1.0);
      Layout(l.events, l.y + 3.0)
    case Operative(content) =>
      Flow.Render(content, ParagraphParams(y), w)
    case Bullet(content) =>
      PlaceLines(BulletLines(content, w), Normal, 12, Margin + 10.0, Margin + 15.0,
                 y, ClauseLimit, LineHeight + 1.0)
    case Empty =>
      Layout([], y + LineHeight)
    case Paragraph(content) =>
      Flow.Render(content, ParagraphParams(y), w)
  }

  /** The strings a block paints, which do not depend on where it starts. */
  function SectionText(b: Block, w: Measure): seq<string> {
    match b
    case Heading(level, content) => HeadingLines(level, content, w)
    case Preambular(content) => PreambularLines(content, w)
    case Operative(content) => Flow.Texts(Flow.Tokens(Emphasis.Segments(content)))
    case Bullet(content) => BulletLines(content, w)
    case Empty => []
    case Paragraph(content) => Flow.Texts(Flow.Tokens(Emphasis.Segments(content)))
  }

  /** Wherever a block starts and wherever its page breaks fall, it paints the same strings. */
  lemma SectionPaints(b: Block, y: real, w: Measure)
    ensures Painted(AddSection(b, y, w).events) == SectionText(b, w)
  {
    match b
    case Heading(level, content) =>
      PlaceLinesPaints(HeadingLines(level, content, w), Bold, HeadingSize(level), Margin, Margin,
                       y + 8.0, HeadingLimit, LineHeight + 2.0);
    case Preambular(content) =>
      PlaceLinesPaints(PreambularLines(content, w), Normal, 12, Margin, Margin + 10.0,
                       y, ClauseLimit, LineHeight + 1.0);
    case Operative(content) =>
      Flow.RenderPaintsTokens(content, ParagraphParams(y), w);
    case Bullet(content) =>
      PlaceLinesPaints(BulletLines(content, w), Normal, 12, Margin + 10.0, Margin + 15.0,
                       y, ClauseLimit, LineHeight + 1.0);
    case Empty =>
    case Paragraph(content) =>
      Flow.RenderPaintsTokens(content, ParagraphParams(y), w);
  }

  /** A heading whose words are separated by single spaces is painted whole: its lines joined
      by spaces give the heading back. */
  lemma HeadingRoundTrip(level: nat, content: string, y: real, w: Measure)
    requires forall i :: 0 <= i < |Split(content, ' ')| ==> Split(content, ' ')[i] != ""
    ensures JoinWith(Painted(AddSection(Heading(level, content), y, w).events), " ") == content
  {
    SectionPaints(Heading(level, content), y, w);
    Wrap.WrapRoundTrip(content, s => w(s, Bold, HeadingSize(level)), MaxWidth);
  }

  /** A preambular clause is painted as its text with emphasis stars deleted and nothing else
      changed. */
  lemma PreambularRoundTrip(content: string, y: real, w: Measure)
    requires var f := Blocks.FormatText(content);
      forall i :: 0 <= i < |Split(f, ' ')| ==> Split(f, ' ')[i] != ""
    ensures var painted := JoinWith(Painted(AddSection(Preambular(content), y, w).events), " ");
      painted == Blocks.FormatText(content) && DeletesOnly(painted, content, {'*'})
  {
    SectionPaints(Preambular(content), y, w);
    Wrap.WrapRoundTrip(Blocks.FormatText(content), s => w(s, Normal, 12), MaxWidth);
    Blocks.FormatTextDeletesStars(content);
  }

  /** A bullet is painted as a bullet sign, a space and its content. */
  lemma BulletRoundTrip(content: string, y: real, w: Measure)
    requires var t := BulletText(content);
      forall i :: 0 <= i < |Split(t, ' ')| ==> Split(t, ' ')[i] != ""
    ensures JoinWith(Painted(AddSection(Bullet(content), y, w).events), " ") == BulletText(content)
  {
    SectionPaints(Bullet(content), y, w);
    Wrap.WrapRoundTrip(BulletText(content), s => w(s, Normal, 12), MaxWidth - 15.0);
  }

  /** An operative clause is painted as its markdown with only emphasis markers removed. */
  lemma OperativeKeepsText(content: string, y: real, w: Measure)
    ensures DeletesOnly(Flow.Flatten(Painted(AddSection(Operative(content), y, w).events)), content, Emphasis.Marks)
  {
    assert AddSection(Operative(content), y, w) == Flow.Render(content, ParagraphParams(y), w);
    Flow.RenderPaintsText(content, ParagraphParams(y), w);
  }

  /** So is a plain paragraph. */
  lemma ParagraphKeepsText(content: string, y: real, w: Measure)
    ensures DeletesOnly(Flow.Flatten(Painted(AddSection(Paragraph(content), y, w).events)), content, Emphasis.Marks)
  {
    assert AddSection(Paragraph(content), y, w) == Flow.Render(content, ParagraphParams(y), w);
    Flow.RenderPaintsText(content, ParagraphParams(y), w);
  }

  /** A heading that fits on the page moves the cursor down 8 before it, 7 per line and 5
      after it, with its lines at the margin. */
  lemma HeadingSpacing(level: nat, content: string, y: real, w: Measure)
    requires var n := |HeadingLines(level, content, w)|;
      n > 0 ==> y + 8.0 + (n - 1) as real * 7.0 <= HeadingLimit
    ensures var n := |HeadingLines(level, content, w)|;
      && PageCount(AddSection(Heading(level, content), y, w).events) == 0
      && AddSection(Heading(level, content), y, w).y == y + 13.0 + n as real * 7.0
  {
    var lines := HeadingLines(level, content, w);
    PlaceLinesNoBreak(lines, Bold, HeadingSize(level), Margin, Margin, y + 8.0, HeadingLimit, 7.0);
    PlaceLinesNoBreakCursor(lines, Bold, HeadingSize(level), Margin, Margin, y + 8.0, HeadingLimit, 7.0);
    PlaceLinesPaints(lines, Bold, HeadingSize(level), Margin, Margin, y + 8.0, HeadingLimit, 7.0);
    NoTextNoPage(PlaceLines(lines, Bold, HeadingSize(level), Margin, Margin, y + 8.0, HeadingLimit, 7.0).events);
  }

  /** A preambular clause that fits on the page has its first line at the margin and the
      others indented by 10, 6 apart, and moves the cursor 3 further. */
  lemma PreambularSpacing(content: string, y: real, w: Measure)
    requires var n := |PreambularLines(content, w)|;
      n > 0 ==> y + (n - 1) as real * 6.0 <= ClauseLimit
    ensures var lines := PreambularLines(content, w);
      var r := AddSection(Preambular(content), y, w);
      && |r.events| == |lines|
      && (forall i :: 0 <= i < |lines| ==>
            r.events[i] == Text(lines[i], Normal, 12, if i == 0 then Margin else Margin + 10.0, y + i as real * 6.0))
      && r.y == y + 3.0 + |lines| as real * 6.0
  {
    PlaceLinesNoBreak(PreambularLines(content, w), Normal, 12, Margin, Margin + 10.0, y, ClauseLimit, 6.0);
    PlaceLinesNoBreakCursor(PreambularLines(content, w), Normal, 12, Margin, Margin + 10.0, y, ClauseLimit, 6.0);
  }

  /** A bullet that fits on the page has its first line indented by 10 and the others by 15,
      6 apart, and moves the cursor no further. */
  lemma BulletSpacing(content: string, y: real, w: Measure)
    requires var n := |BulletLines(content, w)|;
      n > 0 ==> y + (n - 1) as real * 6.0 <= ClauseLimit
    ensures var lines := BulletLines(content, w);
      var r := AddSection(Bullet(content), y, w);
      && |r.events| == |lines|
      && (forall i :: 0 <= i < |lines| ==>
            r.events[i] == Text(lines[i], Normal, 12, if i == 0 then Margin + 10.0 else Margin + 15.0, y + i as real * 6.0))
      && r.y == y + |lines| as real * 6.0
  {
    PlaceLinesNoBreak(BulletLines(content, w), Normal, 12, Margin + 10.0, Margin + 15.0, y, ClauseLimit, 6.0);
    PlaceLinesNoBreakCursor(BulletLines(content, w), Normal, 12, Margin + 10.0, Margin + 15.0, y, ClauseLimit, 6.0);
  }

  /** An empty line only moves the cursor one line height down. */
  lemma EmptySpacing(y: real, w: Measure)
    ensures AddSection(Empty, y, w) == Layout([], y + 5.0)
  {
  }

  /** Events whose painted strings number as many as the events start no page. */
  lemma {:induction false} NoTextNoPage(events: seq<Event>)
    requires |Painted(events)| == |events|
    ensures PageCount(events) == 0
    decreases |events|
  {
    if |events| > 0 {
      assert |Painted(events[1..])| <= |events[1..]| by { PaintedAtMost(events[1..]); }
      NoTextNoPage(events[1..]);
    }
  }

  lemma {:induction false} PaintedAtMost(events: seq<Event>)
    ensures |Painted(events)| <= |events|
    decreases |events|
  {
    if |events| > 0 {
      PaintedAtMost(events[1..]);
    }
  }

  /** The cursor a block starts at: the same, or the top margin of a new page when it has
      passed the block limit. */
  function Top(y: real): real {
    TopAt(y, BlockLimit)
  }

  /** `addContent`: the blocks laid out one after the other from the cursor `y`. */
  function AddContent(blocks: seq<Block>, y: real, w: Measure): Layout
    decreases |blocks|
  {
    if |blocks| == 0 then Layout([], y)
    else
      var s := AddSection(blocks[0], Top(y), w);
      var rest := AddContent(blocks[1..], s.y, w);
      Layout(Break(y, BlockLimit) + s.events + rest.events, rest.y)
  }

  /** The first block and the blocks after it. */
  lemma AddContentCons(blocks: seq<Block>, y: real, w: Measure, s: Layout, rest: Layout)
    requires |blocks| > 0
    requires s == AddSection(blocks[0], Top(y), w)
    requires rest == AddContent(blocks[1..], s.y, w)
    ensures AddContent(blocks, y, w) == Layout(Break(y, BlockLimit) + s.events + rest.events, rest.y)
  {
  }

  /** The strings all blocks paint, in order. */
  function ContentText(blocks: seq<Block>, w: Measure): seq<string>
    decreases |blocks|
  {
    if |blocks| == 0 then [] else SectionText(blocks[0], w) + ContentText(blocks[1..], w)
  }

  /** The page breaks of the body never lose, repeat or reorder text: the body paints what its
      blocks paint, one after the other. */
  lemma {:induction false} ContentPaints(blocks: seq<Block>, y: real, w: Measure)
    ensures Painted(AddContent(blocks, y, w).events) == ContentText(blocks, w)
    decreases |blocks|
  {
    if |blocks| > 0 {
      var s := AddSection(blocks[0], Top(y), w);
      var rest := AddContent(blocks[1..], s.y, w);
      var nb := Break(y, BlockLimit);
      AddContentCons(blocks, y, w, s, rest);
      ContentPaints(blocks[1..], s.y, w);
      SectionPaints(blocks[0], Top(y), w);
      BreakPaintsNothing(y, BlockLimit);
      PaintedAfterBreak(nb, s.events, rest.events);
    }
  }

  lemma PaintedAfterBreak(nb: seq<Event>, a: seq<Event>, b: seq<Event>)
    requires Painted(nb) == []
    ensures Painted(nb + a + b) == Painted(a) + Painted(b)
  {
    PaintedConcat(nb, a);
    PaintedConcat(nb + a, b);
  }

  /** The cursors the blocks start at. */
  function Tops(blocks: seq<Block>, y: real, w: Measure): (r: seq<real>)
    ensures |r| == |blocks|
    decreases |blocks|
  {
    if |blocks| == 0 then []
    else [Top(y)] + Tops(blocks[1..], AddSection(blocks[0], Top(y), w).y, w)
  }

  /** No block starts below the block limit, and each starts where the previous one left the
      cursor, unless that was below the limit and the block starts on a new page at the top
      margin. */
  lemma {:induction false} TopsWithinPage(blocks: seq<Block>, y: real, w: Measure)
    ensures var t := Tops(blocks, y, w);
      && (forall i :: 0 <= i < |blocks| ==> t[i] <= BlockLimit)
      && (|blocks| > 0 ==> t[0] == Top(y))
      && (forall i :: 0 < i < |blocks| ==>
            var prev := AddSection(blocks[i - 1], t[i - 1], w).y;
            t[i] == if prev > BlockLimit then Margin else prev)
    decreases |blocks|
  {
    if |blocks| > 0 {
      var next := AddSection(blocks[0], Top(y), w).y;
      TopsWithinPage(blocks[1..], next, w);
      var t := Tops(blocks, y, w);
      var rest := Tops(blocks[1..], next, w);
      assert forall i :: 0 < i < |blocks| ==> t[i] == rest[i - 1];
      assert forall j :: 0 <= j < |blocks| - 1 ==> blocks[1..][j] == blocks[j + 1];
    }
  }

  /** `createPdfDocument`: the header from the top margin, then the body from where the header
      left the cursor. `lineGap` is the spacing of a committee name broken into two lines. */
  function RenderDocument(meta: ResolutionMetadata, content: string, w: Measure, lineGap: real): Layout {
    var h := Header.AddHeader(meta, Margin, w, lineGap);
    var body := AddContent(Blocks.ParseContent(content), h.y, w);
    Layout(h.events + body.events, body.y)
  }

  /** The document paints the header's strings and then every block's. */
  lemma DocumentPaints(meta: ResolutionMetadata, content: string, w: Measure, lineGap: real)
    ensures Painted(RenderDocument(meta, content, w, lineGap).events)
      == Painted(Header.AddHeader(meta, Margin, w, lineGap).events) + ContentText(Blocks.ParseContent(content), w)
  {
    var h := Header.AddHeader(meta, Margin, w, lineGap);
    var blocks := Blocks.ParseContent(content);
    PaintedConcat(h.events, AddContent(blocks, h.y, w).events);
    ContentPaints(blocks, h.y, w);
  }

  /** The body's first block starts below the header: 90 units from the top of the page, 6 per
      countries line and 8 per title line, or at the top of a second page when that is below
      the block limit. */
  lemma BodyStart(meta: ResolutionMetadata, content: string, w: Measure, lineGap: real)
    ensures var h := Header.AddHeader(meta, Margin, w, lineGap);
      var blocks := Blocks.ParseContent(content);
      && h.y == 90.0 + 6.0 * |Header.CountryLines(meta, w)| as real + 8.0 * |Header.TitleLines(meta, w)| as real
      && |blocks| > 0
      && Tops(blocks, h.y, w)[0] == if h.y > BlockLimit then Margin else h.y
  {
    Header.HeaderHeight(meta, Margin, w, lineGap);
  }
}
