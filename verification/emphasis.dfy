/**
 * The inline emphasis tokenizer `parseMarkdownToSegments` (src/MarkdownParser.ts:62-132).
 *
 * The source drives a global regular expression with six alternatives, tried in a fixed
 * order at each position: `***x***`, `**x**`, `*x*`, `__x__`, `_x_`, and a plain run of
 * characters that are neither `*` nor `_`. Positions where nothing matches are skipped, and
 * the skipped characters come out as `normal` text. Here the regex is an explicit scanner:
 * `Matches` says what it means for one alternative to match at a position (independently of
 * how a regex engine finds it), `TryAlt` and `MatchAt` compute matches, and `Scan` walks
 * the line the way the `exec` loop does.
 */
module Emphasis {
  import opened Wrappers
  import opened Strings
  import opened Types

  /** The six alternatives of the tokenizer's pattern. */
  datatype Alt = TripleStar | DoubleStar | SingleStar | DoubleUnderscore | SingleUnderscore | Plain

  /** Position of the alternative in the pattern: lower ranks are tried first. */
  function Rank(a: Alt): nat {
    match a
    case TripleStar => 0
    case DoubleStar => 1
    case SingleStar => 2
    case DoubleUnderscore => 3
    case SingleUnderscore => 4
    case Plain => 5
  }

  /** The delimiter written on both sides of the body (none for a plain run). */
  function Delimiter(a: Alt): string {
    match a
    case TripleStar => "***"
    case DoubleStar => "**"
    case SingleStar => "*"
    case DoubleUnderscore => "__"
    case SingleUnderscore => "_"
    case Plain => ""
  }

  const Marks: set<char> := {'*', '_'}

  /** Characters the body of the alternative may not contain: `[^*]`, `[^_]` or `[^_*]`. */
  function Forbidden(a: Alt): set<char> {
    match a
    case TripleStar => {'*'}
    case DoubleStar => {'*'}
    case SingleStar => {'*'}
    case DoubleUnderscore => {'_'}
    case SingleUnderscore => {'_'}
    case Plain => Marks
  }

  /** The style the source assigns to a match of the alternative. */
  function StyleOf(a: Alt): Style {
    match a
    case TripleStar => BoldItalic
    case DoubleStar => Bold
    case SingleStar => Italic
    case DoubleUnderscore => Bold
    case SingleUnderscore => Italic
    case Plain => Normal
  }

  /** Alternative `a` matches at position `p` of `s` with body `b`: the text at `p` is the
      delimiter, a non-empty body free of the forbidden characters, and the delimiter again;
      a plain run is as long as possible (the greedy `[^_*]+`). */
  predicate Matches(s: string, p: nat, a: Alt, b: string) {
    var n := |Delimiter(a)|;
    && |b| > 0
    && p + n + |b| + n <= |s|
    && s[p..p + n] == Delimiter(a)
    && s[p + n..p + n + |b|] == b
    && s[p + n + |b|..p + n + |b| + n] == Delimiter(a)
    && Avoids(b, Forbidden(a))
    && (a == Plain ==> p + |b| == |s| || s[p + |b|] in Marks)
  }

  /** End of the run of characters outside `stop` that begins at `i`. */
  function RunEnd(s: string, i: nat, stop: set<char>): (j: nat)
    requires i <= |s|
    ensures i <= j <= |s|
    ensures forall k :: i <= k < j ==> s[k] !in stop
    ensures j < |s| ==> s[j] in stop
    decreases |s| - i
  {
    if i == |s| || s[i] in stop then i else RunEnd(s, i + 1, stop)
  }

  lemma {:induction false} RunEndIs(s: string, i: nat, stop: set<char>, j: nat)
    requires i <= j <= |s|
    requires forall k :: i <= k < j ==> s[k] !in stop
    requires j < |s| ==> s[j] in stop
    ensures RunEnd(s, i, stop) == j
    decreases j - i
  {
    if i < j {
      RunEndIs(s, i + 1, stop, j);
    }
  }

  /** The regex engine's attempt at one alternative: the delimiter, then the run of allowed
      characters (lazy and greedy agree, since the run must stop at the first forbidden
      character), then the delimiter again. */
  function Attempt(s: string, p: nat, a: Alt): Option<string>
    requires p <= |s|
  {
    var d := Delimiter(a);
    if !OccursAt(s, d, p) then None
    else
      var e := RunEnd(s, p + |d|, Forbidden(a));
      if e > p + |d| && OccursAt(s, d, e) then Some(s[p + |d|..e]) else None
  }

  lemma AttemptSound(s: string, p: nat, a: Alt)
    requires p <= |s|
    ensures Attempt(s, p, a).Some? ==> Matches(s, p, a, Attempt(s, p, a).value)
  {
    var d := Delimiter(a);
    if Attempt(s, p, a).Some? {
      var e := RunEnd(s, p + |d|, Forbidden(a));
      var body := s[p + |d|..e];
      assert Attempt(s, p, a) == Some(body);
      RunAvoids(s, p + |d|, e, Forbidden(a));
      MatchesOfParts(s, p, a, body, e);
    }
  }

  /** A run of allowed characters avoids the forbidden ones. */
  lemma RunAvoids(s: string, i: nat, e: nat, stop: set<char>)
    requires i <= e <= |s|
    requires forall k :: i <= k < e ==> s[k] !in stop
    ensures Avoids(s[i..e], stop)
  {
    var body := s[i..e];
    forall k | 0 <= k < |body| ensures body[k] !in stop {
      assert body[k] == s[i + k];
    }
  }

  /** The pieces of a match, found one after the other, make a match. */
  lemma MatchesOfParts(s: string, p: nat, a: Alt, body: string, e: nat)
    requires OccursAt(s, Delimiter(a), p) && OccursAt(s, Delimiter(a), e)
    requires e == p + |Delimiter(a)| + |body| && |body| > 0
    requires body == s[p + |Delimiter(a)|..e] && Avoids(body, Forbidden(a))
    requires a == Plain ==> e == |s| || s[e] in Marks
    ensures Matches(s, p, a, body)
  {
  }

  /** The body of a match is exactly the run of allowed characters after the opening delimiter,
      and the closing delimiter follows it. */
  lemma AttemptComplete(s: string, p: nat, a: Alt, b: string)
    requires Matches(s, p, a, b)
    ensures Attempt(s, p, a) == Some(b)
  {
    var n := |Delimiter(a)|;
    PartsOfMatches(s, p, a, b);
    RunEndIs(s, p + n, Forbidden(a), p + n + |b|);
  }

  /** A match is the delimiter, a run of allowed characters ended by a forbidden one or by the
      end of the line, and the delimiter again. */
  lemma PartsOfMatches(s: string, p: nat, a: Alt, b: string)
    requires Matches(s, p, a, b)
    ensures var n := |Delimiter(a)|;
      && OccursAt(s, Delimiter(a), p) && OccursAt(s, Delimiter(a), p + n + |b|)
      && b == s[p + n..p + n + |b|]
      && (forall k :: p + n <= k < p + n + |b| ==> s[k] !in Forbidden(a))
      && (p + n + |b| < |s| ==> s[p + n + |b|] in Forbidden(a))
  {
    var d := Delimiter(a);
    var n := |d|;
    forall k | p + n <= k < p + n + |b|
      ensures s[k] !in Forbidden(a)
    {
      assert s[k] == s[p + n..p + n + |b|][k - p - n] == b[k - p - n];
    }
    if a != Plain {
      assert s[p + n + |b|] == s[p + n + |b|..p + n + |b| + n][0] == d[0];
    }
  }

  /** Tries one alternative at `p`. Each alternative matches in at most one way, and this finds it. */
  function TryAlt(s: string, p: nat, a: Alt): (r: Option<string>)
    requires p <= |s|
    ensures r.Some? ==> Matches(s, p, a, r.value)
    ensures forall b :: Matches(s, p, a, b) ==> r == Some(b)
  {
    AttemptSound(s, p, a);
    assert forall b :: Matches(s, p, a, b) ==> Attempt(s, p, a) == Some(b) by {
      forall b | Matches(s, p, a, b) ensures Attempt(s, p, a) == Some(b) {
        AttemptComplete(s, p, a, b);
      }
    }
    Attempt(s, p, a)
  }

  /** The alternative that the pattern selects at `p`, with its body. */
  function MatchAt(s: string, p: nat): Option<(Alt, string)>
    requires p <= |s|
  {
    FirstMatch(s, p, 0)
  }

  /** The pattern selects the first alternative, in rank order, that matches at `p`, and
      selects nothing when none does. */
  lemma MatchAtSelects(s: string, p: nat)
    requires p <= |s|
    ensures MatchAt(s, p).Some? ==> Matches(s, p, MatchAt(s, p).value.0, MatchAt(s, p).value.1)
    ensures MatchAt(s, p).Some? ==> forall a, b :: Rank(a) < Rank(MatchAt(s, p).value.0) ==> !Matches(s, p, a, b)
    ensures MatchAt(s, p).None? ==> forall a, b :: !Matches(s, p, a, b)
  {
  }

  function AltOfRank(k: nat): (a: Alt)
    requires k < 6
    ensures Rank(a) == k
  {
    if k == 0 then TripleStar
    else if k == 1 then DoubleStar
    else if k == 2 then SingleStar
    else if k == 3 then DoubleUnderscore
    else if k == 4 then SingleUnderscore
    else Plain
  }

  /** Tries the alternatives of rank `k` and above, in order. */
  function FirstMatch(s: string, p: nat, k: nat): (r: Option<(Alt, string)>)
    requires p <= |s| && k <= 6
    ensures r.Some? ==> Matches(s, p, r.value.0, r.value.1) && k <= Rank(r.value.0)
    ensures r.Some? ==> forall a, b :: k <= Rank(a) < Rank(r.value.0) ==> !Matches(s, p, a, b)
    ensures r.None? ==> forall a, b :: k <= Rank(a) ==> !Matches(s, p, a, b)
    decreases 6 - k
  {
    if k == 6 then None
    else
      var a := AltOfRank(k);
      assert forall a' :: Rank(a') == k ==> a' == a;
      match TryAlt(s, p, a)
      case Some(b) => Some((a, b))
      case None => FirstMatch(s, p, k + 1)
  }

  /** Any character other than `*` and `_` starts a match (at least the plain run). */
  lemma NonMarkMatches(s: string, p: nat)
    requires p < |s| && s[p] !in Marks
    ensures MatchAt(s, p).Some?
  {
    var e := RunEnd(s, p, Marks);
    assert Matches(s, p, Plain, s[p..e]);
    MatchAtSelects(s, p);
  }

  /** One step of the tokenizer's output: a matched alternative, or characters where nothing matched. */
  datatype Piece = Match(alt: Alt, body: string) | Gap(text: string)

  /** The input text a piece was read from. */
  function Raw(pc: Piece): string {
    match pc
    case Match(a, b) => Delimiter(a) + b + Delimiter(a)
    case Gap(t) => t
  }

  /** The segment the source pushes for a piece. */
  function SegmentOf(pc: Piece): Segment {
    match pc
    case Match(a, b) => Segment(b, StyleOf(a))
    case Gap(t) => Segment(t, Normal)
  }

  predicate WellFormed(pc: Piece) {
    match pc
    case Match(a, b) => |b| > 0 && Avoids(b, Forbidden(a))
    case Gap(t) => |t| > 0 && forall i :: 0 <= i < |t| ==> t[i] in Marks
  }

  function RawText(ps: seq<Piece>): string
    decreases |ps|
  {
    if |ps| == 0 then "" else Raw(ps[0]) + RawText(ps[1..])
  }

  lemma {:induction false} RawTextConcat(a: seq<Piece>, b: seq<Piece>)
    ensures RawText(a + b) == RawText(a) + RawText(b)
    decreases |a|
  {
    if |a| == 0 {
      assert a + b == b;
    } else {
      assert (a + b)[1..] == a[1..] + b;
      RawTextConcat(a[1..], b);
    }
  }

  /** What the pattern selects at each position of the line, the end included. */
  function Selections(s: string): (sel: seq<Option<(Alt, string)>>)
    ensures |sel| == |s| + 1
    ensures forall k :: 0 <= k <= |s| ==> sel[k] == MatchAt(s, k)
  {
    seq(|s| + 1, k requires 0 <= k <= |s| => MatchAt(s, k))
  }

  /** Every selection fits in the rest of the line and has a non-empty body. */
  predicate Fits(s: string, sel: seq<Option<(Alt, string)>>) {
    && |sel| == |s| + 1
    && forall k :: 0 <= k <= |s| && sel[k].Some? ==>
      |sel[k].value.1| > 0 && k + Size(Match(sel[k].value.0, sel[k].value.1)) <= |s|
  }

  /** What is selected at `k` could be the pattern's choice: a match, or nothing at a `*`, a `_`
      or the end of the line. */
  predicate Selected(s: string, sel: seq<Option<(Alt, string)>>, k: nat)
    requires |sel| == |s| + 1 && k <= |s|
  {
    if sel[k].None? then k == |s| || s[k] in Marks
    else Matches(s, k, sel[k].value.0, sel[k].value.1)
  }

  /** A selection table that could be the pattern's at every position from `k` on. */
  predicate ValidFrom(s: string, sel: seq<Option<(Alt, string)>>, k: nat)
    requires |sel| == |s| + 1 && k <= |s| + 1
    decreases |s| + 1 - k
  {
    k == |s| + 1 || (Selected(s, sel, k) && ValidFrom(s, sel, k + 1))
  }

  lemma {:induction false} ValidAt(s: string, sel: seq<Option<(Alt, string)>>, j: nat, k: nat)
    requires |sel| == |s| + 1 && j <= k <= |s| && ValidFrom(s, sel, j)
    ensures Selected(s, sel, k)
    decreases k - j
  {
    if j < k {
      ValidAt(s, sel, j + 1, k);
    }
  }

  lemma {:induction false} ValidFromEach(s: string, sel: seq<Option<(Alt, string)>>, j: nat)
    requires |sel| == |s| + 1 && j <= |s| + 1
    requires forall k :: j <= k <= |s| ==> Selected(s, sel, k)
    ensures ValidFrom(s, sel, j)
    decreases |s| + 1 - j
  {
    if j <= |s| {
      ValidFromEach(s, sel, j + 1);
    }
  }

  /** The pattern's own selections fit the line and are valid at every position. */
  lemma SelectionsValid(s: string)
    ensures Fits(s, Selections(s)) && ValidFrom(s, Selections(s), 0)
  {
    var sel := Selections(s);
    forall k | 0 <= k <= |s|
      ensures Selected(s, sel, k)
      ensures sel[k].Some? ==> |sel[k].value.1| > 0 && k + Size(Match(sel[k].value.0, sel[k].value.1)) <= |s|
    {
      SelectionAt(s, k);
    }
    ValidFromEach(s, sel, 0);
  }

  lemma SelectionAt(s: string, k: nat)
    requires k <= |s|
    ensures Selected(s, Selections(s), k)
    ensures var m := Selections(s)[k];
      m.Some? ==> |m.value.1| > 0 && k + Size(Match(m.value.0, m.value.1)) <= |s|
  {
    var m := Selections(s)[k];
    MatchAtSelects(s, k);
    if m.Some? {
      MatchedText(s, k, m.value.0, m.value.1);
    } else if k < |s| {
      NoMatchIsMark(s, k);
    }
  }

  /** The `exec` loop from position `p`, with `last` the end of the previous match and `sel`
      what the pattern selects at each position: the text from `last` up to the next match is a
      gap, and after the last match the rest of the line is a gap. */
  function Scan(s: string, sel: seq<Option<(Alt, string)>>, last: nat, p: nat): seq<Piece>
    requires last <= p <= |s| && Fits(s, sel)
    decreases |s| - p
  {
    if p == |s| then
      if last < p then [Gap(s[last..])] else []
    else
      if sel[p].None? then Scan(s, sel, last, p + 1)
      else
        var pc := Match(sel[p].value.0, sel[p].value.1);
        var e := p + Size(pc);
        (if last < p then [Gap(s[last..p])] else []) + [pc] + Scan(s, sel, e, e)
  }

  lemma ScanAtMatch(s: string, sel: seq<Option<(Alt, string)>>, last: nat, p: nat, a: Alt, b: string, e: nat)
    requires last <= p < |s| && Fits(s, sel) && sel[p] == Some((a, b))
    requires e == p + Size(Match(a, b)) && e <= |s|
    ensures Scan(s, sel, last, p) == (if last < p then [Gap(s[last..p])] else []) + [Match(a, b)] + Scan(s, sel, e, e)
  {
  }

  lemma NoMatchIsMark(s: string, p: nat)
    requires p < |s| && MatchAt(s, p).None?
    ensures s[p] in Marks
  {
    if s[p] !in Marks {
      NonMarkMatches(s, p);
    }
  }

  /** A match occupies exactly its raw text. */
  lemma MatchedText(s: string, p: nat, a: Alt, b: string)
    requires Matches(s, p, a, b)
    ensures p + Size(Match(a, b)) <= |s| && s[p..p + Size(Match(a, b))] == Raw(Match(a, b))
  {
    var d := Delimiter(a);
    DelimiterLengthIs(a);
    Enclosed(s, p, d, b);
    assert Raw(Match(a, b)) == d + b + d;
  }

  lemma Enclosed(s: string, p: nat, d: string, b: string)
    requires p + |d| + |b| + |d| <= |s|
    requires s[p..p + |d|] == d && s[p + |d|..p + |d| + |b|] == b
    requires s[p + |d| + |b|..p + |d| + |b| + |d|] == d
    ensures s[p..p + |d| + |b| + |d|] == d + b + d
  {
    var q := p + |d| + |b|;
    SliceConcat(s, p, p + |d|, q);
    SliceConcat(s, p, q, q + |d|);
  }

  lemma DelimiterLengthIs(a: Alt)
    ensures |Delimiter(a)| == DelimiterLength(a)
  {
  }

  /** A piece that occupies `s[q..m]`, followed by pieces that give back `s[m..]`, gives back `s[q..]`. */
  lemma ConsStep(s: string, q: nat, m: nat, x: Piece, rest: seq<Piece>)
    requires q <= m <= |s| && Raw(x) == s[q..m] && RawText(rest) == s[m..]
    requires WellFormed(x) && forall i :: 0 <= i < |rest| ==> WellFormed(rest[i])
    ensures RawText([x] + rest) == s[q..]
    ensures forall i :: 0 <= i < |[x] + rest| ==> WellFormed(([x] + rest)[i])
  {
    var xs := [x] + rest;
    assert xs[0] == x && xs[1..] == rest;
    SliceConcat(s, q, m, |s|);
  }

  /** Piece `pc`, read at position `p` of `s`, is what the pattern's `exec` finds there, given
      the selections `sel` at each position: a match is the alternative selected at `p`, and a
      gap is a non-empty run of the line at which nothing is selected, ended by the end of the
      line or by a position where something is. */
  predicate ReadsAt(s: string, sel: seq<Option<(Alt, string)>>, p: nat, pc: Piece)
    requires p <= |s| && |sel| == |s| + 1
  {
    match pc
    case Match(a, b) => |b| > 0 && sel[p] == Some((a, b))
    case Gap(t) =>
      && |t| > 0 && p + |t| <= |s| && t == s[p..p + |t|]
      && (forall k :: p <= k < p + |t| ==> sel[k].None?)
      && (p + |t| == |s| || sel[p + |t|].Some?)
  }

  /** The number of characters of the line a piece was read from. */
  function Size(pc: Piece): nat {
    match pc
    case Match(a, b) => DelimiterLength(a) * 2 + |b|
    case Gap(t) => |t|
  }

  function DelimiterLength(a: Alt): nat {
    match a
    case TripleStar => 3
    case DoubleStar => 2
    case SingleStar => 1
    case DoubleUnderscore => 2
    case SingleUnderscore => 1
    case Plain => 0
  }

  lemma SizeOfRaw(pc: Piece)
    ensures Size(pc) == |Raw(pc)|
  {
  }

  /** `ps`, laid end to end from `p`, reads the rest of the line the way the `exec` loop does. */
  predicate ReadFrom(s: string, sel: seq<Option<(Alt, string)>>, p: nat, ps: seq<Piece>)
    requires p <= |s| && |sel| == |s| + 1
    decreases |ps|
  {
    if |ps| == 0 then p == |s|
    else
      && p + Size(ps[0]) <= |s|
      && ReadsAt(s, sel, p, ps[0])
      && ReadFrom(s, sel, p + Size(ps[0]), ps[1..])
  }

  lemma ReadFromCons(s: string, sel: seq<Option<(Alt, string)>>, p: nat, pc: Piece, ps: seq<Piece>)
    requires |sel| == |s| + 1 && p + Size(pc) <= |s|
    requires ReadsAt(s, sel, p, pc) && ReadFrom(s, sel, p + Size(pc), ps)
    ensures ReadFrom(s, sel, p, [pc] + ps)
  {
    var qs := [pc] + ps;
    assert qs[0] == pc;
    assert qs[1..] == ps;
  }

  /** `MatchAt` picks `a` with body `b` when they match and every alternative tried before `a`
      fails at its opening delimiter already. */
  lemma MatchAtIs(s: string, p: nat, a: Alt, b: string)
    requires Matches(s, p, a, b)
    requires forall a' :: Rank(a') < Rank(a) ==> !OccursAt(s, Delimiter(a'), p)
    ensures MatchAt(s, p) == Some((a, b))
  {
    MatchAtSelects(s, p);
    var m := MatchAt(s, p);
    assert m.Some?;
    var c := m.value.0;
    assert !(Rank(a) < Rank(c));
    assert OccursAt(s, Delimiter(c), p);
    assert !(Rank(c) < Rank(a));
    assert c == a;
    var t := TryAlt(s, p, a);
    assert t == Some(b) && t == Some(m.value.1);
  }

  /** The scan from `p`, after a run from `last` at which nothing is selected, reads the line
      as the pattern does. */
  lemma {:induction false} ScanReads(s: string, sel: seq<Option<(Alt, string)>>, last: nat, p: nat)
    requires last <= p <= |s| && Fits(s, sel)
    requires forall k :: last <= k < p ==> sel[k].None?
    ensures ReadFrom(s, sel, last, Scan(s, sel, last, p))
    decreases |s| - p
  {
    if p == |s| {
      if last < p {
        var g := Gap(s[last..]);
        assert Scan(s, sel, last, p) == [g] + [];
        ReadFromCons(s, sel, last, g, []);
      }
    } else if sel[p].None? {
      ScanReads(s, sel, last, p + 1);
    } else {
      var a, b := sel[p].value.0, sel[p].value.1;
      var e := p + Size(Match(a, b));
      ScanReads(s, sel, e, e);
      ScanReadsMatch(s, sel, last, p, a, b, e);
    }
  }

  lemma ScanReadsMatch(s: string, sel: seq<Option<(Alt, string)>>, last: nat, p: nat, a: Alt, b: string, e: nat)
    requires last <= p < |s| && Fits(s, sel) && sel[p] == Some((a, b))
    requires forall k :: last <= k < p ==> sel[k].None?
    requires e == p + Size(Match(a, b)) && e <= |s|
    requires ReadFrom(s, sel, e, Scan(s, sel, e, e))
    ensures ReadFrom(s, sel, last, Scan(s, sel, last, p))
  {
    var pc := Match(a, b);
    var rest := Scan(s, sel, e, e);
    ScanAtMatch(s, sel, last, p, a, b, e);
    ReadFromCons(s, sel, p, pc, rest);
    if last < p {
      var g := Gap(s[last..p]);
      ReadFromCons(s, sel, last, g, [pc] + rest);
      assert [g] + [pc] + rest == [g] + ([pc] + rest);
    }
  }


  /** A reading under a valid selection table gives back the line, in well-formed pieces. */
  lemma {:induction false} ReadingText(s: string, sel: seq<Option<(Alt, string)>>, p: nat, ps: seq<Piece>)
    requires p <= |s| && |sel| == |s| + 1 && ValidFrom(s, sel, p) && ReadFrom(s, sel, p, ps)
    ensures RawText(ps) == s[p..]
    ensures forall i :: 0 <= i < |ps| ==> WellFormed(ps[i])
    decreases |ps|
  {
    if |ps| > 0 {
      var x := ps[0];
      var q := p + Size(x);
      ReadFromFirst(s, sel, p, ps);
      ValidLater(s, sel, p, q);
      ReadingText(s, sel, q, ps[1..]);
      PieceText(s, sel, p, x);
      ConsStep(s, p, q, x, ps[1..]);
      assert ps == [x] + ps[1..];
    }
  }

  /** A piece read under a valid selection table occupies its raw text and is well formed. */
  lemma PieceText(s: string, sel: seq<Option<(Alt, string)>>, p: nat, x: Piece)
    requires p + Size(x) <= |s| && |sel| == |s| + 1 && ValidFrom(s, sel, p) && ReadsAt(s, sel, p, x)
    ensures Raw(x) == s[p..p + Size(x)] && WellFormed(x)
  {
    match x
    case Match(a, b) =>
      ValidAt(s, sel, p, p);
      MatchedText(s, p, a, b);
    case Gap(t) =>
      forall i | 0 <= i < |t|
        ensures t[i] in Marks
      {
        ValidAt(s, sel, p, p + i);
        assert t[i] == s[p + i] && sel[p + i].None?;
      }
  }

  lemma {:induction false} ValidLater(s: string, sel: seq<Option<(Alt, string)>>, j: nat, k: nat)
    requires |sel| == |s| + 1 && j <= k <= |s| + 1 && ValidFrom(s, sel, j)
    ensures ValidFrom(s, sel, k)
    decreases k - j
  {
    if j < k {
      ValidLater(s, sel, j + 1, k);
    }
  }

  /** Two readings of the same text from the same position are the same pieces: what is
      selected at each position decides the pieces. */
  lemma {:induction false} ReadFromUnique(s: string, sel: seq<Option<(Alt, string)>>, p: nat, ps: seq<Piece>, qs: seq<Piece>)
    requires p <= |s| && |sel| == |s| + 1
    requires ReadFrom(s, sel, p, ps) && ReadFrom(s, sel, p, qs)
    ensures ps == qs
    decreases |ps|
  {
    if |ps| > 0 && |qs| > 0 {
      var x, y := ps[0], qs[0];
      ReadFromFirst(s, sel, p, ps);
      ReadFromFirst(s, sel, p, qs);
      SameFirstPiece(s, sel, p, x, y);
      var q := p + Size(x);
      ReadFromUnique(s, sel, q, ps[1..], qs[1..]);
      assert ps == [x] + ps[1..] && qs == [y] + qs[1..];
    }
  }

  lemma ReadFromFirst(s: string, sel: seq<Option<(Alt, string)>>, p: nat, ps: seq<Piece>)
    requires p <= |s| && |sel| == |s| + 1 && |ps| > 0 && ReadFrom(s, sel, p, ps)
    ensures p + Size(ps[0]) <= |s| && ReadsAt(s, sel, p, ps[0])
    ensures ReadFrom(s, sel, p + Size(ps[0]), ps[1..])
  {
  }

  lemma SameFirstPiece(s: string, sel: seq<Option<(Alt, string)>>, p: nat, x: Piece, y: Piece)
    requires p <= |s| && |sel| == |s| + 1
    requires ReadsAt(s, sel, p, x) && ReadsAt(s, sel, p, y)
    ensures x == y
  {
  }

  /** The tokenizer reads the line the way the pattern does. */
  lemma TokenizeReads(s: string)
    ensures ReadFrom(s, Selections(s), 0, Tokenize(s))
  {
    SelectionsValid(s);
    ScanReads(s, Selections(s), 0, 0);
  }

  /** The pieces the tokenizer reads from a line. */
  function Tokenize(s: string): (r: seq<Piece>)
    ensures RawText(r) == s
    ensures forall i :: 0 <= i < |r| ==> WellFormed(r[i])
  {
    SelectionsValid(s);
    ScanReads(s, Selections(s), 0, 0);
    ReadingText(s, Selections(s), 0, Scan(s, Selections(s), 0, 0));
    Scan(s, Selections(s), 0, 0)
  }

  /** The pieces of a line are exactly the reading that follows the pattern from the start. */
  lemma TokenizeIsTheReading(s: string, ps: seq<Piece>)
    ensures ReadFrom(s, Selections(s), 0, ps) <==> ps == Tokenize(s)
  {
    TokenizeReads(s);
    if ReadFrom(s, Selections(s), 0, ps) {
      ReadFromUnique(s, Selections(s), 0, ps, Tokenize(s));
    }
  }

  /** Where piece `i` of `ps` starts: after the text of the pieces before it. */
  function Offset(ps: seq<Piece>, i: nat): nat
    requires i <= |ps|
  {
    |RawText(ps[..i])|
  }

  /** Each piece of a reading from `p` is read at its own offset from `p`. */
  lemma {:induction false} ReadAtOffsets(s: string, sel: seq<Option<(Alt, string)>>, p: nat, ps: seq<Piece>, i: nat)
    requires |sel| == |s| + 1 && p <= |s| && ReadFrom(s, sel, p, ps) && i < |ps|
    ensures p + Offset(ps, i) + Size(ps[i]) <= |s| && ReadsAt(s, sel, p + Offset(ps, i), ps[i])
    decreases i
  {
    if i > 0 {
      var q := p + Size(ps[0]);
      ReadAtOffsets(s, sel, q, ps[1..], i - 1);
      assert ps[..i] == [ps[0]] + ps[1..][..i - 1];
      RawTextConcat([ps[0]], ps[1..][..i - 1]);
      assert RawText([ps[0]]) == Raw(ps[0]) + RawText([ps[0]][1..]);
      assert [ps[0]][1..] == [];
      SizeOfRaw(ps[0]);
    } else {
      assert ps[..0] == [];
    }
  }

  /** The tokenizer follows the pattern position by position: a matched piece is the alternative
      the pattern selects where the piece starts, and an unmatched run covers positions where
      the pattern selects nothing, up to the end of the line or the next position where it
      selects something. */
  lemma TokenizeFollowsPattern(s: string, i: nat)
    requires i < |Tokenize(s)|
    ensures var pc := Tokenize(s)[i];
      var o := Offset(Tokenize(s), i);
      && o + Size(pc) <= |s|
      && (pc.Match? ==> MatchAt(s, o) == Some((pc.alt, pc.body)))
      && (pc.Gap? ==> (forall k :: o <= k < o + |pc.text| ==> MatchAt(s, k).None?)
                      && (o + |pc.text| == |s| || MatchAt(s, o + |pc.text|).Some?))
  {
    var ps := Tokenize(s);
    TokenizeReads(s);
    ReadAtStart(s, Selections(s), ps, i);
    PieceFollowsPattern(s, Selections(s), Offset(ps, i), ps[i]);
  }

  lemma ReadAtStart(s: string, sel: seq<Option<(Alt, string)>>, ps: seq<Piece>, i: nat)
    requires |sel| == |s| + 1 && ReadFrom(s, sel, 0, ps) && i < |ps|
    ensures Offset(ps, i) + Size(ps[i]) <= |s| && ReadsAt(s, sel, Offset(ps, i), ps[i])
  {
    ReadAtOffsets(s, sel, 0, ps, i);
  }

  /** A piece read at `o` against the pattern's selections is what the pattern selects there. */
  lemma PieceFollowsPattern(s: string, sel: seq<Option<(Alt, string)>>, o: nat, pc: Piece)
    requires sel == Selections(s)
    requires o + Size(pc) <= |s| && ReadsAt(s, sel, o, pc)
    ensures && (pc.Match? ==> MatchAt(s, o) == Some((pc.alt, pc.body)))
            && (pc.Gap? ==> (forall k :: o <= k < o + |pc.text| ==> MatchAt(s, k).None?)
                            && (o + |pc.text| == |s| || MatchAt(s, o + |pc.text|).Some?))
  {
    match pc
    case Match(a, b) =>
      assert sel[o] == Some((a, b));
    case Gap(t) =>
      assert forall k :: o <= k < o + |t| ==> sel[k].None?;
      assert o + |t| == |s| || sel[o + |t|].Some?;
  }

  /** `parseMarkdownToSegments`: one segment per piece of the tokenizer, in order. The ensures
      only unfold this definition for callers; what the segments mean is stated by
      `SegmentsStyles`, `SegmentsDeleteOnlyMarks` and `TokenizeFollowsPattern`. */
  function Segments(s: string): (r: seq<Segment>)
    ensures |r| == |Tokenize(s)|
    ensures forall i :: 0 <= i < |r| ==> r[i] == SegmentOf(Tokenize(s)[i])
  {
    var ps := Tokenize(s);
    seq(|ps|, i requires 0 <= i < |ps| => SegmentOf(ps[i]))
  }

  /** No segment is empty, and `bolditalic` comes only from a `***x***` span whose body is the
      segment's content. */
  lemma SegmentsStyles(s: string)
    ensures forall i :: 0 <= i < |Segments(s)| ==> |Segments(s)[i].content| > 0
    ensures forall i :: 0 <= i < |Segments(s)| && Segments(s)[i].style == BoldItalic ==>
      Raw(Tokenize(s)[i]) == "***" + Segments(s)[i].content + "***"
  {
    var r := Segments(s);
    var ps := Tokenize(s);
    forall i | 0 <= i < |r|
      ensures |r[i].content| > 0
      ensures r[i].style == BoldItalic ==> Raw(ps[i]) == "***" + r[i].content + "***"
    {
      assert WellFormed(ps[i]);
      assert r[i] == SegmentOf(ps[i]);
    }
  }

  /** The text of segments, concatenated in order. */
  function Text(segs: seq<Segment>): string
    decreases |segs|
  {
    if |segs| == 0 then "" else segs[0].content + Text(segs[1..])
  }

  function Contents(ps: seq<Piece>): string
    decreases |ps|
  {
    if |ps| == 0 then "" else SegmentOf(ps[0]).content + Contents(ps[1..])
  }

  lemma {:induction false} PieceDeletesOnlyMarks(pc: Piece)
    requires WellFormed(pc)
    ensures DeletesOnly(SegmentOf(pc).content, Raw(pc), Marks)
  {
    match pc
    case Gap(t) =>
      DeletesOnlyRefl(t, Marks);
    case Match(a, b) =>
      var d := Delimiter(a);
      assert forall i :: 0 <= i < |d| ==> d[i] in Marks;
      DeletesOnlyMarks(d, Marks);
      DeletesOnlyRefl(b, Marks);
      DeletesOnlyConcat([], d, b, b, Marks);
      assert [] + b == b;
      DeletesOnlyConcat(b, d + b, [], d, Marks);
      assert b + [] == b;
  }

  lemma {:induction false} ContentsDeleteOnlyMarks(ps: seq<Piece>)
    requires forall i :: 0 <= i < |ps| ==> WellFormed(ps[i])
    ensures DeletesOnly(Contents(ps), RawText(ps), Marks)
    decreases |ps|
  {
    if |ps| == 0 {
    } else {
      PieceDeletesOnlyMarks(ps[0]);
      ContentsDeleteOnlyMarks(ps[1..]);
      DeletesOnlyConcat(SegmentOf(ps[0]).content, Raw(ps[0]), Contents(ps[1..]), RawText(ps[1..]), Marks);
    }
  }

  lemma {:induction false} TextOfPieces(ps: seq<Piece>, segs: seq<Segment>)
    requires |segs| == |ps| && forall i :: 0 <= i < |ps| ==> segs[i] == SegmentOf(ps[i])
    ensures Text(segs) == Contents(ps)
    decreases |ps|
  {
    if |ps| > 0 {
      TextOfPieces(ps[1..], segs[1..]);
    }
  }

  /** The segments' text is the line with some `*` and `_` characters deleted and nothing else changed:
      only delimiters of matched spans disappear, unmatched markers survive as normal text. */
  lemma SegmentsDeleteOnlyMarks(s: string)
    ensures DeletesOnly(Text(Segments(s)), s, Marks)
  {
    TextOfPieces(Tokenize(s), Segments(s));
    ContentsDeleteOnlyMarks(Tokenize(s));
  }

  /** An empty line gives no segments. */
  lemma SegmentsOfEmpty()
    ensures Segments("") == []
  {
  }

  /** No delimiter opens at a character other than `*` and `_`. */
  lemma NoDelimiterAt(s: string, p: nat)
    requires p < |s| && s[p] !in Marks
    ensures forall a :: a != Plain ==> !OccursAt(s, Delimiter(a), p)
  {
    forall a | a != Plain
      ensures !OccursAt(s, Delimiter(a), p)
    {
      var d := Delimiter(a);
      assert |d| > 0 && d[0] in Marks;
      if p + |d| <= |s| {
        assert s[p..p + |d|][0] == s[p];
      }
    }
  }

  /** A non-empty line without `*` and `_` is one normal segment holding the whole line. */
  lemma SegmentsWithoutMarks(s: string)
    requires |s| > 0 && Avoids(s, Marks)
    ensures Segments(s) == [Segment(s, Normal)]
  {
    var pc := Match(Plain, s);
    assert Matches(s, 0, Plain, s);
    NoDelimiterAt(s, 0);
    MatchAtIs(s, 0, Plain, s);
    ReadFromCons(s, Selections(s), 0, pc, []);
    assert [pc] + [] == [pc];
    TokenizeIsTheReading(s, [pc]);
  }

  /** The alternatives take precedence in the pattern's order: `***` before `**` before `*`,
      and `__` before `_`; the spaces between the spans are plain runs. */
  lemma SegmentsPrecedence()
    ensures Segments("***a*** **b** *c* __d__ _e_") == [
      Segment("a", BoldItalic), Segment(" ", Normal), Segment("b", Bold), Segment(" ", Normal),
      Segment("c", Italic), Segment(" ", Normal), Segment("d", Bold), Segment(" ", Normal),
      Segment("e", Italic)]
  {
    SampleShapeOf("***a*** **b** *c* __d__ _e_");
    SegmentsOfSample("***a*** **b** *c* __d__ _e_");
  }

  /** The characters of the sample line, one by one. */
  predicate SampleShape(s: string) {
    && |s| == 27
    && s[0] == s[1] == s[2] == s[4] == s[5] == s[6] == s[8] == s[9] == s[11] == s[12] == s[14] == s[16] == '*'
    && s[18] == s[19] == s[21] == s[22] == s[24] == s[26] == '_'
    && s[7] == s[13] == s[17] == s[23] == ' '
    && s[3] == 'a' && s[10] == 'b' && s[15] == 'c' && s[20] == 'd' && s[25] == 'e'
  }

  lemma SampleShapeOf(s: string)
    requires s == "***a*** **b** *c* __d__ _e_"
    ensures SampleShape(s)
  {
  }

  lemma SegmentsOfSample(s: string)
    requires SampleShape(s)
    ensures Segments(s) == [
      Segment("a", BoldItalic), Segment(" ", Normal), Segment("b", Bold), Segment(" ", Normal),
      Segment("c", Italic), Segment(" ", Normal), Segment("d", Bold), Segment(" ", Normal),
      Segment("e", Italic)]
  {
    SampleTokens(s);
    SegmentsList(Segments(s), Tokenize(s));
  }

  /** The sample line is read as its spans and the spaces between them. */
  lemma SampleTokens(s: string)
    requires SampleShape(s)
    ensures Tokenize(s) == [
      Match(TripleStar, "a"), Match(Plain, " "), Match(DoubleStar, "b"), Match(Plain, " "),
      Match(SingleStar, "c"), Match(Plain, " "), Match(DoubleUnderscore, "d"), Match(Plain, " "),
      Match(SingleUnderscore, "e")]
  {
    SampleSpans(s);
    SampleSpaces(s);
    SampleReading(s, Selections(s));
    TokenizeIsTheReading(s, [
      Match(TripleStar, "a"), Match(Plain, " "), Match(DoubleStar, "b"), Match(Plain, " "),
      Match(SingleStar, "c"), Match(Plain, " "), Match(DoubleUnderscore, "d"), Match(Plain, " "),
      Match(SingleUnderscore, "e")]);
  }

  lemma SegmentsList(r: seq<Segment>, ps: seq<Piece>)
    requires ps == [
      Match(TripleStar, "a"), Match(Plain, " "), Match(DoubleStar, "b"), Match(Plain, " "),
      Match(SingleStar, "c"), Match(Plain, " "), Match(DoubleUnderscore, "d"), Match(Plain, " "),
      Match(SingleUnderscore, "e")]
    requires |r| == |ps| && forall i :: 0 <= i < |ps| ==> r[i] == SegmentOf(ps[i])
    ensures r == [
      Segment("a", BoldItalic), Segment(" ", Normal), Segment("b", Bold), Segment(" ", Normal),
      Segment("c", Italic), Segment(" ", Normal), Segment("d", Bold), Segment(" ", Normal),
      Segment("e", Italic)]
  {
  }

  /** The selections at the starts of the sample's pieces, in order, read it as those pieces. */
  lemma SampleReading(s: string, sel: seq<Option<(Alt, string)>>)
    requires |s| == 27 && |sel| == |s| + 1
    requires sel[0] == Some((TripleStar, "a")) && sel[8] == Some((DoubleStar, "b"))
    requires sel[14] == Some((SingleStar, "c")) && sel[18] == Some((DoubleUnderscore, "d"))
    requires sel[24] == Some((SingleUnderscore, "e"))
    requires sel[7] == sel[13] == sel[17] == sel[23] == Some((Plain, " "))
    ensures ReadFrom(s, sel, 0, [
      Match(TripleStar, "a"), Match(Plain, " "), Match(DoubleStar, "b"), Match(Plain, " "),
      Match(SingleStar, "c"), Match(Plain, " "), Match(DoubleUnderscore, "d"), Match(Plain, " "),
      Match(SingleUnderscore, "e")])
  {
    var sp := Match(Plain, " ");
    var t4 := [Match(SingleStar, "c"), sp, Match(DoubleUnderscore, "d"), sp, Match(SingleUnderscore, "e")];
    SampleReadingTail(s, sel);
    var t3 := [sp] + t4;
    ReadFromCons(s, sel, 13, sp, t4);
    var t2 := [Match(DoubleStar, "b")] + t3;
    ReadFromCons(s, sel, 8, t2[0], t3);
    var t1 := [sp] + t2;
    ReadFromCons(s, sel, 7, sp, t2);
    var t0 := [Match(TripleStar, "a")] + t1;
    ReadFromCons(s, sel, 0, t0[0], t1);
    assert t0 == [
      Match(TripleStar, "a"), Match(Plain, " "), Match(DoubleStar, "b"), Match(Plain, " "),
      Match(SingleStar, "c"), Match(Plain, " "), Match(DoubleUnderscore, "d"), Match(Plain, " "),
      Match(SingleUnderscore, "e")];
  }

  lemma SampleReadingTail(s: string, sel: seq<Option<(Alt, string)>>)
    requires |s| == 27 && |sel| == |s| + 1
    requires sel[14] == Some((SingleStar, "c")) && sel[18] == Some((DoubleUnderscore, "d"))
    requires sel[24] == Some((SingleUnderscore, "e"))
    requires sel[17] == sel[23] == Some((Plain, " "))
    ensures ReadFrom(s, sel, 14, [
      Match(SingleStar, "c"), Match(Plain, " "), Match(DoubleUnderscore, "d"), Match(Plain, " "),
      Match(SingleUnderscore, "e")])
  {
    var sp := Match(Plain, " ");
    var t8 := [Match(SingleUnderscore, "e")];
    ReadFromCons(s, sel, 24, t8[0], []);
    assert [t8[0]] + [] == t8;
    var t7 := [sp] + t8;
    ReadFromCons(s, sel, 23, sp, t8);
    var t6 := [Match(DoubleUnderscore, "d")] + t7;
    ReadFromCons(s, sel, 18, t6[0], t7);
    var t5 := [sp] + t6;
    ReadFromCons(s, sel, 17, sp, t6);
    var t4 := [Match(SingleStar, "c")] + t5;
    ReadFromCons(s, sel, 14, t4[0], t5);
    assert t4 == [
      Match(SingleStar, "c"), Match(Plain, " "), Match(DoubleUnderscore, "d"), Match(Plain, " "),
      Match(SingleUnderscore, "e")];
  }

  lemma SampleSpans(s: string)
    requires SampleShape(s)
    ensures MatchAt(s, 0) == Some((TripleStar, "a"))
    ensures MatchAt(s, 8) == Some((DoubleStar, "b"))
    ensures MatchAt(s, 14) == Some((SingleStar, "c"))
    ensures MatchAt(s, 18) == Some((DoubleUnderscore, "d"))
    ensures MatchAt(s, 24) == Some((SingleUnderscore, "e"))
  {
    SampleSpanShapes(s);
    SpanAt(s, 0, TripleStar, 'a');
    SpanAt(s, 8, DoubleStar, 'b');
    SpanAt(s, 14, SingleStar, 'c');
    SampleUnderscoreSpans(s);
  }

  lemma SampleUnderscoreSpans(s: string)
    requires SampleShape(s)
    ensures MatchAt(s, 18) == Some((DoubleUnderscore, "d"))
    ensures MatchAt(s, 24) == Some((SingleUnderscore, "e"))
  {
    SampleSpanShapes(s);
    SpanAt(s, 18, DoubleUnderscore, 'd');
    SpanAt(s, 24, SingleUnderscore, 'e');
  }

  lemma SampleSpanShapes(s: string)
    requires SampleShape(s)
    ensures SpanShape(s, 0, TripleStar, 'a') && SpanShape(s, 8, DoubleStar, 'b')
    ensures SpanShape(s, 14, SingleStar, 'c') && SpanShape(s, 18, DoubleUnderscore, 'd')
    ensures SpanShape(s, 24, SingleUnderscore, 'e')
  {
  }

  /** `s` holds, at `p`, the delimiter of `a`, the one character `c`, and the delimiter again. */
  predicate SpanShape(s: string, p: nat, a: Alt, c: char) {
    && p + 2 * DelimiterLength(a) + 1 <= |s| && s[p + DelimiterLength(a)] == c
    && (forall i :: p <= i < p + DelimiterLength(a) ==> s[i] == MarkOf(a))
    && (forall i :: p + DelimiterLength(a) < i <= p + 2 * DelimiterLength(a) ==> s[i] == MarkOf(a))
  }

  /** The marker character a delimiter repeats. */
  function MarkOf(a: Alt): char {
    if Rank(a) < 3 then '*' else '_'
  }

  lemma DelimiterChars(a: Alt)
    ensures |Delimiter(a)| == DelimiterLength(a)
    ensures forall i :: 0 <= i < |Delimiter(a)| ==> Delimiter(a)[i] == MarkOf(a)
  {
  }

  /** A one-character body between delimiters of `a` is selected as `a`: an alternative tried
      earlier either uses the other marker or needs a longer delimiter than the text has. */
  lemma SpanAt(s: string, p: nat, a: Alt, c: char)
    requires a != Plain && c !in Marks && SpanShape(s, p, a, c)
    ensures MatchAt(s, p) == Some((a, [c]))
  {
    var d := Delimiter(a);
    var n := |d|;
    DelimiterChars(a);
    assert s[p..p + n] == d;
    assert s[p + n..p + n + 1] == [c];
    assert s[p + n + 1..p + n + 1 + n] == d;
    assert Matches(s, p, a, [c]);
    forall a' | Rank(a') < Rank(a)
      ensures !OccursAt(s, Delimiter(a'), p)
    {
      DelimiterChars(a');
      EarlierDelimiter(a', a);
      var d' := Delimiter(a');
      if p + |d'| <= |s| {
        if MarkOf(a') != MarkOf(a) {
          assert s[p..p + |d'|][0] != d'[0];
        } else {
          assert s[p..p + |d'|][n] != d'[n];
        }
      }
    }
    MatchAtIs(s, p, a, [c]);
  }

  /** An alternative tried before `a` either uses the other marker or a longer delimiter. */
  lemma EarlierDelimiter(a': Alt, a: Alt)
    requires Rank(a') < Rank(a) && a != Plain
    ensures DelimiterLength(a') > 0
    ensures MarkOf(a') == MarkOf(a) ==> DelimiterLength(a') > DelimiterLength(a)
  {
  }

  lemma SampleSpaces(s: string)
    requires SampleShape(s)
    ensures forall p :: p in {7, 13, 17, 23} ==> MatchAt(s, p) == Some((Plain, " "))
  {
    forall p | p in {7, 13, 17, 23}
      ensures MatchAt(s, p) == Some((Plain, " "))
    {
      SpaceBeforeMark(s, p);
    }
  }

  /** A space followed by a `*` or `_` is a plain run of its own. */
  lemma SpaceBeforeMark(s: string, p: nat)
    requires p + 1 < |s| && s[p] == ' ' && s[p + 1] in Marks
    ensures MatchAt(s, p) == Some((Plain, " "))
  {
    assert s[p..p + 1] == " ";
    assert Matches(s, p, Plain, " ");
    NoDelimiterAt(s, p);
    MatchAtIs(s, p, Plain, " ");
  }
}
