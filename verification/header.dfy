/**
 * The resolution header of src/pdfRenderer.ts (`addHeader`): the committee name, shrunk to fit
 * its box or broken into two lines when it would become too small, the sponsoring countries
 * and the resolution type, the title, and the line naming the committee with its article.
 * The model keeps what decides the text and the vertical cursor; the logo, the horizontal
 * rule and the right-aligned document symbol, distribution note and date are not painted.
 */
module Header {
  import opened Types
  import opened Committees
  import opened Wrap

  const PageWidth: real := 210.0
  const Margin: real := 20.0
  /** The base line height of the document. */
  const LineHeight: real := 5.0

  /** The width left for the committee name between the logo and the right-hand block. */
  const MaxNameWidth: real := PageWidth - Margin * 2.0 - 20.0 - 45.0
  /** Below this size the name is broken into two lines instead. */
  const MinReadableSize: int := 14
  const StartSize: int := 24
  const MinSize: int := 8
  /** The size of a name broken into two lines. */
  const TwoLineSize: int := 18
  /** The width the countries and the title are wrapped to. */
  const TextWidth: real := PageWidth - 2.0 * Margin

  /** The loop that shrinks the committee name: one point at a time, from `size` down, while
      the name at that size (`width(size)`) is wider than its box and the size is above the
      minimum. */
  function Shrink(width: int -> real, size: int): int
    requires MinSize <= size
    decreases size
  {
    if width(size) > MaxNameWidth && size > MinSize then Shrink(width, size - 1) else size
  }

  function FontSize(width: int -> real): int {
    Shrink(width, StartSize)
  }

  /** `r` is the largest size from the minimum up to the start size at which the name fits,
      or the minimum when it fits at none. */
  predicate LargestFitting(width: int -> real, r: int) {
    && MinSize <= r <= StartSize
    && (width(r) <= MaxNameWidth || r == MinSize)
    && forall s :: r < s <= StartSize ==> width(s) > MaxNameWidth
  }

  lemma {:induction false} ShrinkFits(width: int -> real, size: int)
    requires MinSize <= size <= StartSize
    requires forall s :: size < s <= StartSize ==> width(s) > MaxNameWidth
    ensures LargestFitting(width, Shrink(width, size))
    decreases size
  {
    if width(size) > MaxNameWidth && size > MinSize {
      ShrinkFits(width, size - 1);
    }
  }

  /** The shrinking loop finds the largest fitting size. */
  lemma FontSizeFits(width: int -> real)
    ensures LargestFitting(width, FontSize(width))
  {
    ShrinkFits(width, StartSize);
  }

  /** There is only one largest fitting size. */
  lemma LargestFittingUnique(width: int -> real, a: int, b: int)
    requires LargestFitting(width, a) && LargestFitting(width, b)
    ensures a == b
  {
  }

  /** The name is broken into two lines exactly when it is too wide at every size from the
      smallest readable one up to the start size. */
  lemma TwoLinesWhenNothingReadableFits(width: int -> real)
    ensures FontSize(width) < MinReadableSize <==>
      forall s :: MinReadableSize <= s <= StartSize ==> width(s) > MaxNameWidth
  {
    FontSizeFits(width);
  }

  /** The shrinking loop as the source writes it. */
  method CommitteeFontSize(width: int -> real) returns (size: int)
    ensures size == FontSize(width)
    ensures LargestFitting(width, size)
  {
    size := StartSize;
    while width(size) > MaxNameWidth && size > MinSize
      invariant MinSize <= size <= StartSize
      invariant Shrink(width, size) == FontSize(width)
      invariant forall s :: size < s <= StartSize ==> width(s) > MaxNameWidth
      decreases size
    {
      size := size - 1;
    }
  }

  /** The committee name as painted at the cursor `y`: on one line at the size found, or, when
      that size is below the readable minimum, as the two halves of `splitIntoTwoLines` at the
      two-line size, raised by the base line height less one. `lineGap` is the distance the
      page surface puts between the two lines of a multi-line text. */
  function NameEvents(name: string, size: int, y: real, lineGap: real): seq<Event> {
    var x := Margin + 20.0;
    if size < MinReadableSize then
      var halves := SplitTwo(name);
      [Text(halves.0, Bold, TwoLineSize, x, y - LineHeight + 1.0),
       Text(halves.1, Bold, TwoLineSize, x, y - LineHeight + 1.0 + lineGap)]
    else
      [Text(name, Bold, size, x, y)]
  }

  /** Whatever the size, the painted name is the committee name: whole, or its two halves
      around the space nearest the middle. */
  lemma NameEventsSpellName(name: string, size: int, y: real, lineGap: real)
    ensures var p := Painted(NameEvents(name, size, y, lineGap));
      && (size >= MinReadableSize ==> p == [name])
      && (size < MinReadableSize && ' ' in name ==> |p| == 2 && p[0] + " " + p[1] == name)
      && (size < MinReadableSize && ' ' !in name ==> p == [name, ""])
  {
    var e := NameEvents(name, size, y, lineGap);
    assert Painted(e) == [e[0].s] + Painted(e[1..]);
    if size < MinReadableSize {
      assert Painted(e[1..]) == [e[1].s] + Painted(e[2..]);
      if ' ' in name {
        SplitTwoRoundTrip(name);
      } else {
        SplitTwoNoSpace(name);
      }
    }
  }

  lemma NameEventsNoPage(name: string, size: int, y: real, lineGap: real)
    ensures PageCount(NameEvents(name, size, y, lineGap)) == 0
  {
    var e := NameEvents(name, size, y, lineGap);
    PaintedText(e[0]);
    if |e| == 2 {
      PaintedText(e[1]);
      PageCountConcat([e[0]], [e[1]]);
      assert e == [e[0]] + [e[1]];
    } else {
      assert e == [e[0]];
    }
  }

  /** `lines` painted one below the other from `y`, `step` apart, at `x`. */
  function LinesAt(lines: seq<string>, style: Style, size: int, x: real, y: real, step: real): (r: seq<Event>)
    ensures |r| == |lines|
    decreases |lines|
  {
    if |lines| == 0 then []
    else [Text(lines[0], style, size, x, y)] + LinesAt(lines[1..], style, size, x, y + step, step)
  }

  /** Line `i` is painted at `y + i * step`. */
  lemma {:induction false} LinesAtIndex(lines: seq<string>, style: Style, size: int, x: real, y: real, step: real)
    ensures forall i :: 0 <= i < |lines| ==>
      LinesAt(lines, style, size, x, y, step)[i] == Text(lines[i], style, size, x, y + i as real * step)
    decreases |lines|
  {
    forall i | 0 <= i < |lines|
      ensures LinesAt(lines, style, size, x, y, step)[i] == Text(lines[i], style, size, x, y + i as real * step)
    {
      LineAt(lines, style, size, x, y, step, i);
    }
  }

  lemma {:induction false} LineAt(lines: seq<string>, style: Style, size: int, x: real, y: real, step: real, i: nat)
    requires i < |lines|
    ensures LinesAt(lines, style, size, x, y, step)[i] == Text(lines[i], style, size, x, y + i as real * step)
    decreases i
  {
    if i > 0 {
      LineAt(lines[1..], style, size, x, y + step, step, i - 1);
      assert LinesAt(lines, style, size, x, y, step)[i] == LinesAt(lines[1..], style, size, x, y + step, step)[i - 1];
    }
  }

  /** The lines are painted in order, and no page is started. */
  lemma {:induction false} LinesAtPaints(lines: seq<string>, style: Style, size: int, x: real, y: real, step: real)
    ensures Painted(LinesAt(lines, style, size, x, y, step)) == lines
    ensures PageCount(LinesAt(lines, style, size, x, y, step)) == 0
    decreases |lines|
  {
    if |lines| > 0 {
      var rest := LinesAt(lines[1..], style, size, x, y + step, step);
      LinesAtPaints(lines[1..], style, size, x, y + step, step);
      assert LinesAt(lines, style, size, x, y, step)[1..] == rest;
    }
  }

  /** `${Lander}: ${Typ}` */
  function CountriesText(meta: ResolutionMetadata): string {
    meta.Lander + ": " + meta.Typ
  }

  /** The countries line wrapped in bold 13 to the text width. */
  function CountryLines(meta: ResolutionMetadata, w: Measure): seq<string> {
    WrapText(CountriesText(meta), s => w(s, Bold, 13), TextWidth)
  }

  /** The title wrapped in bold 16 to the text width. */
  function TitleLines(meta: ResolutionMetadata, w: Measure): seq<string> {
    WrapText(meta.title, s => w(s, Bold, 16), TextWidth)
  }

  /** `${article} ${name},` */
  function ArticleLine(c: CommitteeInfo): string {
    ArticleText(c.article) + " " + c.name + ","
  }

  /** `addHeader`: the paint operations of the header from the cursor `y0` and the cursor it
      returns. */
  function AddHeader(meta: ResolutionMetadata, y0: real, w: Measure, lineGap: real): Layout {
    var c := Lookup(meta.Ausschuss);
    var name := NameEvents(c.name, FontSize(s => w(c.name, Bold, s)), y0 + 15.0, lineGap);
    HeaderLayout(c, name, CountryLines(meta, w), TitleLines(meta, w), y0)
  }

  /** The header around the painted committee name `name`, once the countries and the title
      are wrapped. The title's x is the page centre, where the source centres it. */
  function HeaderLayout(c: CommitteeInfo, name: seq<Event>, countries: seq<string>, titles: seq<string>, y0: real): Layout {
    var y2 := y0 + 15.0 + 10.0 + 10.0;
    var y3 := y2 + |countries| as real * (LineHeight + 1.0) + 5.0;
    var y4 := y3 + |titles| as real * (LineHeight + 3.0) + 15.0;
    Layout(
      [Text("Vereinte Nationen", Bold, 18, Margin, y0)]
      + name
      + LinesAt(countries, Bold, 13, Margin, y2, LineHeight + 1.0)
      + LinesAt(titles, Bold, 16, PageWidth / 2.0, y3, LineHeight + 3.0)
      + [Text(ArticleLine(c), Italic, 12, Margin, y4)],
      y4 + 15.0)
  }

  /** Around a name that starts no page, the header paints its parts in order on the current
      page. */
  lemma HeaderLayoutPaints(c: CommitteeInfo, name: seq<Event>, countries: seq<string>, titles: seq<string>, y0: real)
    requires PageCount(name) == 0
    ensures Painted(HeaderLayout(c, name, countries, titles, y0).events)
      == ["Vereinte Nationen"] + Painted(name) + countries + titles + [ArticleLine(c)]
    ensures PageCount(HeaderLayout(c, name, countries, titles, y0).events) == 0
  {
    var y2 := y0 + 15.0 + 10.0 + 10.0;
    var y3 := y2 + |countries| as real * (LineHeight + 1.0) + 5.0;
    var y4 := y3 + |titles| as real * (LineHeight + 3.0) + 15.0;
    var e0 := [Text("Vereinte Nationen", Bold, 18, Margin, y0)];
    var e1 := LinesAt(countries, Bold, 13, Margin, y2, LineHeight + 1.0);
    var e2 := LinesAt(titles, Bold, 16, PageWidth / 2.0, y3, LineHeight + 3.0);
    var e3 := [Text(ArticleLine(c), Italic, 12, Margin, y4)];
    LinesAtPaints(countries, Bold, 13, Margin, y2, LineHeight + 1.0);
    LinesAtPaints(titles, Bold, 16, PageWidth / 2.0, y3, LineHeight + 3.0);
    PaintedText(e0[0]);
    PaintedText(e3[0]);
    FiveParts(e0, name, e1, e2, e3);
  }

  /** The countries text always has the colon, so it always gives at least one line. */
  lemma CountriesNonEmpty(meta: ResolutionMetadata, w: Measure)
    ensures |CountryLines(meta, w)| >= 1
  {
    var t := CountriesText(meta);
    assert t[|meta.Lander|] == ':';
    WrapTextSomeLine(t, s => w(s, Bold, 13), TextWidth, |meta.Lander|);
  }

  /** The header's height: 70 units of fixed spacing, 6 per countries line and 8 per title
      line, and at least 76 since the countries take a line. */
  lemma HeaderHeight(meta: ResolutionMetadata, y0: real, w: Measure, lineGap: real)
    ensures AddHeader(meta, y0, w, lineGap).y
      == y0 + 70.0 + 6.0 * |CountryLines(meta, w)| as real + 8.0 * |TitleLines(meta, w)| as real
    ensures AddHeader(meta, y0, w, lineGap).y >= y0 + 76.0
  {
    CountriesNonEmpty(meta, w);
  }

  /** The header paints, in order, the organisation's name, the committee name, the countries
      lines, the title lines and the article line, all on the current page. */
  lemma HeaderPaints(meta: ResolutionMetadata, y0: real, w: Measure, lineGap: real)
    ensures var c := Lookup(meta.Ausschuss);
      Painted(AddHeader(meta, y0, w, lineGap).events)
        == ["Vereinte Nationen"]
           + Painted(NameEvents(c.name, FontSize(s => w(c.name, Bold, s)), y0 + 15.0, lineGap))
           + CountryLines(meta, w) + TitleLines(meta, w) + [ArticleLine(c)]
    ensures PageCount(AddHeader(meta, y0, w, lineGap).events) == 0
  {
    var c := Lookup(meta.Ausschuss);
    var name := NameEvents(c.name, FontSize(s => w(c.name, Bold, s)), y0 + 15.0, lineGap);
    NameEventsNoPage(c.name, FontSize(s => w(c.name, Bold, s)), y0 + 15.0, lineGap);
    HeaderLayoutPaints(c, name, CountryLines(meta, w), TitleLines(meta, w), y0);
  }

  /** Painting five runs of events one after the other paints their texts in that order and
      starts as many pages as they do together. */
  lemma FiveParts(a: seq<Event>, b: seq<Event>, c: seq<Event>, d: seq<Event>, e: seq<Event>)
    ensures Painted(a + b + c + d + e) == Painted(a) + Painted(b) + Painted(c) + Painted(d) + Painted(e)
    ensures PageCount(a + b + c + d + e) == PageCount(a) + PageCount(b) + PageCount(c) + PageCount(d) + PageCount(e)
  {
    PaintedConcat(a, b);
    PaintedConcat(a + b, c);
    PaintedConcat(a + b + c, d);
    PaintedConcat(a + b + c + d, e);
    PageCountConcat(a, b);
    PageCountConcat(a + b, c);
    PageCountConcat(a + b + c, d);
    PageCountConcat(a + b + c + d, e);
  }

  /** An unknown committee abbreviation gives the Security Council's article line. */
  lemma UnknownCommitteeLine(meta: ResolutionMetadata)
    requires meta.Ausschuss !in Table
    ensures ArticleLine(Lookup(meta.Ausschuss)) == "Der Sicherheitsrat,"
  {
  }

  /** The General Assembly is introduced with its feminine article. */
  lemma GeneralAssemblyLine(meta: ResolutionMetadata)
    requires meta.Ausschuss == "GV"
    ensures ArticleLine(Lookup(meta.Ausschuss)) == "Die Generalversammlung,"
  {
    GeneralAssembly();
    var c := Lookup(meta.Ausschuss);
    assert ArticleText(c.article) == "Die";
    assert ArticleLine(c) == "Die" + " " + "Generalversammlung" + ",";
  }
}
