/**
 * The records the renderer passes between its stages: the parsed resolution, the styled
 * text segments of a line, the classified blocks of the body, and the paint operations
 * the layout issues against the page surface.
 */
module Types {

  /** The font variants of the body face. */
  datatype Style = Normal | Bold | Italic | BoldItalic

  /** A run of text painted in one style. */
  datatype Segment = Segment(content: string, style: Style)

  /** The five front-matter fields the header reads. */
  datatype ResolutionMetadata = ResolutionMetadata(
    title: string,
    Datum: string,
    Lander: string,
    Ausschuss: string,
    Typ: string)

  /** A parsed resolution: the front matter as a key/value record, and the body text after it. */
  datatype Resolution = Resolution(metadata: map<string, string>, content: string)

  /** One classified physical line of the body. */
  datatype Block =
    | Heading(level: nat, content: string)
    | Preambular(content: string)
    | Operative(content: string)
    | Bullet(content: string)
    | Paragraph(content: string)
    | Empty

  /** Text-measurement oracle of the page surface: the width of a string in a style at a font size. */
  type Measure = (string, Style, int) -> real

  /** One operation against the page surface: place a string with its top-left at (x, y), or start a new page. */
  datatype Event =
    | Text(s: string, style: Style, size: int, x: real, y: real)
    | NewPage

  /** The paint operations a layout step issued and the vertical cursor it left behind. */
  datatype Layout = Layout(events: seq<Event>, y: real)

  function PageCount(events: seq<Event>): nat
    decreases |events|
  {
    if |events| == 0 then 0
    else (if events[0].NewPage? then 1 else 0) + PageCount(events[1..])
  }

  /** The strings painted by `events`, in order. */
  function Painted(events: seq<Event>): seq<string>
    decreases |events|
  {
    if |events| == 0 then []
    else (if events[0].Text? then [events[0].s] else []) + Painted(events[1..])
  }

  /** One text operation paints its string and starts no page. */
  lemma PaintedText(e: Event)
    requires e.Text?
    ensures Painted([e]) == [e.s]
    ensures PageCount([e]) == 0
  {
    assert [e][1..] == [];
  }

  lemma {:induction false} PaintedConcat(a: seq<Event>, b: seq<Event>)
    ensures Painted(a + b) == Painted(a) + Painted(b)
    decreases |a|
  {
    if |a| > 0 {
      assert (a + b)[1..] == a[1..] + b;
      PaintedConcat(a[1..], b);
    } else {
      assert a + b == b;
    }
  }

  lemma {:induction false} PageCountConcat(a: seq<Event>, b: seq<Event>)
    ensures PageCount(a + b) == PageCount(a) + PageCount(b)
    decreases |a|
  {
    if |a| > 0 {
      assert (a + b)[1..] == a[1..] + b;
      PageCountConcat(a[1..], b);
    } else {
      assert a + b == b;
    }
  }
}
