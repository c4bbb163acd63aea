/**
 * The front-matter reader of the earlier HTML preview (main.js): each non-blank line is split
 * on a colon and the whitespace after it, the first piece lower-cased becomes the key and the
 * other pieces, joined again with `": "` and trimmed, become the value. The preview then reads
 * title, date, countries and committee from the record, with `""` for any that is missing.
 */
module Legacy {
  import opened Wrappers
  import opened Strings
  import FrontMatter

  /** `s.split(/:\s*\/)`: each separator is one colon together with the whole run of whitespace
      after it, so every piece but the first starts past that run. */
  function SplitColonSpace(s: string): (r: seq<string>)
    ensures |r| >= 1
    decreases |s|
  {
    match IndexFrom(s, ':', 0)
    case None => [s]
    case Some(i) => [s[..i]] + SplitColonSpace(TrimStart(s[i + 1..]))
  }

  /** `TrimStart` applied to every piece. */
  function TrimAll(pieces: seq<string>): (r: seq<string>)
    ensures |r| == |pieces|
    ensures forall i :: 0 <= i < |r| ==> r[i] == TrimStart(pieces[i])
  {
    seq(|pieces|, i requires 0 <= i < |pieces| => TrimStart(pieces[i]))
  }

  lemma TrimAllCons(x: string, rest: seq<string>)
    ensures TrimAll([x] + rest) == [TrimStart(x)] + TrimAll(rest)
  {
    assert forall i :: 1 <= i < |rest| + 1 ==> ([x] + rest)[i] == rest[i - 1];
  }

  /** The same split written the other way round: split on the colons alone, then drop the
      leading whitespace of every piece after the first. */
  function TrimLater(pieces: seq<string>): seq<string>
    requires |pieces| >= 1
  {
    [pieces[0]] + TrimAll(pieces[1..])
  }

  /** Cutting the end off a string does not change how much leading whitespace it loses, as long
      as the cut is not inside that whitespace. */
  lemma {:induction false} TrimStartPrefix(s: string, j: nat)
    requires |s| - |TrimStart(s)| <= j <= |s|
    ensures TrimStart(s[..j]) == s[|s| - |TrimStart(s)|..j]
    decreases |s|
  {
    if |s| > 0 && IsSpace(s[0]) {
      var t := s[1..];
      TrimStartPrefix(t, j - 1);
      TrimStartPrefixStep(s, t, j);
    } else if j > 0 {
      assert s[..j][0] == s[0];
    }
  }

  lemma TrimStartPrefixStep(s: string, t: string, j: nat)
    requires |s| > 0 && IsSpace(s[0]) && t == s[1..] && |s| - |TrimStart(s)| <= j <= |s|
    requires |t| - |TrimStart(t)| <= j - 1 && TrimStart(t[..j - 1]) == t[|t| - |TrimStart(t)|..j - 1]
    ensures TrimStart(s[..j]) == s[|s| - |TrimStart(s)|..j]
  {
    var k := |s| - |TrimStart(s)|;
    var p := s[..j];
    TrimStartSkip(s);
    assert |TrimStart(s)| == |TrimStart(t)|;
    if j > 0 {
      assert p[0] == s[0];
      TrimStartSkip(p);
      assert p[1..] == t[..j - 1];
    }
    assert t[k - 1..j - 1] == s[k..j];
  }

  /** Where the first colon of `t` is found again after a colon-free prefix is cut off. */
  lemma IndexAfterPrefix(t: string, k: nat, j: nat)
    requires k <= |t| && forall n :: 0 <= n < k ==> IsSpace(t[n])
    requires IndexFrom(t, ':', 0) == Some(j)
    ensures k <= j && IndexFrom(t[k..], ':', 0) == Some(j - k)
  {
    assert !IsSpace(':');
    assert t[k..][j - k] == ':';
  }

  /** A string without colons stays without colons when its start is cut off. */
  lemma NoIndexAfterPrefix(t: string, k: nat)
    requires k <= |t| && IndexFrom(t, ':', 0).None?
    ensures IndexFrom(t[k..], ':', 0).None?
  {
  }

  /** Dropping leading whitespace before splitting on colons only trims the first piece. */
  lemma SplitTrimStart(t: string)
    ensures var u := TrimStart(t);
      && Split(u, ':')[0] == TrimStart(Split(t, ':')[0])
      && Split(u, ':')[1..] == Split(t, ':')[1..]
  {
    var u := TrimStart(t);
    var k := |t| - |u|;
    var first := IndexFrom(t, ':', 0);
    if first.Some? {
      IndexAfterPrefix(t, k, first.value);
      SplitTrimStartAt(t, u, k, first.value);
    } else {
      NoIndexAfterPrefix(t, k);
      SplitTrimStartNone(t, u);
    }
  }

  lemma SplitTrimStartNone(t: string, u: string)
    requires u == TrimStart(t) && IndexFrom(t, ':', 0).None? && IndexFrom(u, ':', 0).None?
    ensures Split(u, ':')[0] == TrimStart(Split(t, ':')[0])
    ensures Split(u, ':')[1..] == Split(t, ':')[1..]
  {
    SplitNoColon(t);
    SplitNoColon(u);
  }

  lemma SplitNoColon(s: string)
    requires IndexFrom(s, ':', 0).None?
    ensures Split(s, ':') == [s]
  {
  }

  lemma SplitTrimStartAt(t: string, u: string, k: nat, j: nat)
    requires u == TrimStart(t) && k == |t| - |u| && t[k..] == u && k <= j
    requires IndexFrom(t, ':', 0) == Some(j) && IndexFrom(u, ':', 0) == Some(j - k)
    ensures Split(u, ':')[0] == TrimStart(Split(t, ':')[0])
    ensures Split(u, ':')[1..] == Split(t, ':')[1..]
  {
    SplitAtFirst(t, j);
    SplitAtFirst(u, j - k);
    DropDrop(t, k, j - k + 1);
    TakeDrop(t, k, j);
    TrimStartPrefix(t, j);
  }

  lemma SplitAtFirst(s: string, i: nat)
    requires IndexFrom(s, ':', 0) == Some(i)
    ensures Split(s, ':') == [s[..i]] + Split(s[i + 1..], ':')
  {
  }

  lemma DropDrop(s: string, a: nat, b: nat)
    requires a + b <= |s|
    ensures s[a..][b..] == s[a + b..]
  {
  }

  lemma TakeDrop(s: string, a: nat, b: nat)
    requires a <= b <= |s|
    ensures s[a..][..b - a] == s[a..b]
  {
  }

  /** The colon-and-whitespace split agrees with splitting on colons and trimming the later
      pieces. */
  lemma {:induction false} SplitColonSpaceIsSplitThenTrim(s: string)
    ensures SplitColonSpace(s) == TrimLater(Split(s, ':'))
    decreases |s|
  {
    var first := IndexFrom(s, ':', 0);
    if first.Some? {
      var i := first.value;
      var u := TrimStart(s[i + 1..]);
      SplitColonSpaceIsSplitThenTrim(u);
      SplitThenTrimStep(s, i, u);
    } else {
      assert Split(s, ':') == [s];
    }
  }

  lemma SplitThenTrimStep(s: string, i: nat, u: string)
    requires IndexFrom(s, ':', 0) == Some(i) && u == TrimStart(s[i + 1..])
    requires SplitColonSpace(u) == TrimLater(Split(u, ':'))
    ensures SplitColonSpace(s) == TrimLater(Split(s, ':'))
  {
    var t := s[i + 1..];
    var qs, vs := Split(t, ':'), Split(u, ':');
    SplitTrimStart(t);
    SplitAtFirst(s, i);
    SplitColonSpaceAt(s, i, u);
    TrimLaterStep(s[..i], qs, vs);
  }

  lemma SplitColonSpaceAt(s: string, i: nat, u: string)
    requires IndexFrom(s, ':', 0) == Some(i) && u == TrimStart(s[i + 1..])
    ensures SplitColonSpace(s) == [s[..i]] + SplitColonSpace(u)
  {
  }

  /** Putting one more piece in front of two splits that differ only in the leading whitespace
      of their first piece. */
  lemma TrimLaterStep(h: string, qs: seq<string>, vs: seq<string>)
    requires |qs| >= 1 && |vs| >= 1 && vs[0] == TrimStart(qs[0]) && vs[1..] == qs[1..]
    ensures TrimLater([h] + qs) == [h] + TrimLater(vs)
  {
    assert ([h] + qs)[1..] == qs;
    assert qs == [qs[0]] + qs[1..];
    TrimAllCons(qs[0], qs[1..]);
  }

  /** The first piece of the split is the text before the first colon, and there is a second
      piece exactly when there is a colon. */
  lemma SplitColonSpaceHead(s: string)
    ensures var parts := SplitColonSpace(s);
      match IndexFrom(s, ':', 0)
      case None => parts == [s]
      case Some(i) => |parts| >= 2 && parts[0] == s[..i]
  {
  }

  /** One line of the front matter: blank lines and lines without a colon define nothing. */
  function Entry(line: string): (r: Option<(string, string)>)
    ensures r.Some? <==> ':' in Trim(line)
  {
    var t := Trim(line);
    if |t| == 0 then None
    else
      var parts := SplitColonSpace(t);
      SplitColonSpaceHead(t);
      if |parts| < 2 then None
      else Some((ToLower(parts[0]), Trim(JoinWith(parts[1..], ": "))))
  }

  /** The key is the text before the first colon, lower-cased but not trimmed; the value is what
      follows, split on the remaining colons, each piece's leading whitespace dropped, the pieces
      joined with `": "` and the result trimmed. */
  lemma EntryKeyValue(line: string, i: nat)
    requires i < |Trim(line)| && Trim(line)[i] == ':' && ':' !in Trim(line)[..i]
    ensures var t := Trim(line);
      Entry(line) == Some((ToLower(t[..i]), Trim(JoinWith(TrimAll(Split(t, ':')[1..]), ": "))))
  {
    var t := Trim(line);
    assert IndexFrom(t, ':', 0) == Some(i);
    SplitColonSpaceHead(t);
    SplitColonSpaceIsSplitThenTrim(t);
  }

  /** Lower-casing never produces or removes a colon. */
  lemma ToLowerColonFree(s: string)
    requires ':' !in s
    ensures ':' !in ToLower(s)
  {
    forall n | 0 <= n < |s|
      ensures ToLower(s)[n] != ':'
    {
      assert s[n] != ':';
    }
  }

  /** Keys carry no colon and are already lower case. */
  lemma EntryKeyLowerCase(line: string)
    requires Entry(line).Some?
    ensures ':' !in Entry(line).value.0
    ensures ToLower(Entry(line).value.0) == Entry(line).value.0
  {
    var t := Trim(line);
    SplitColonSpaceIsSplitThenTrim(t);
    var head := Split(t, ':')[0];
    assert SplitColonSpace(t)[0] == head;
    assert ':' !in head;
    ToLowerColonFree(head);
    ToLowerIdempotent(head);
  }

  /** The parsed record: one entry per line, a later duplicate key overwriting an earlier one. */
  function Parse(content: string): map<string, string> {
    FrontMatter.Collect(Split(content, '\n'), Entry)
  }

  /** Every key of the record is already in lower case, so differently-cased spellings of one
      field land on the same key. */
  lemma ParseKeysLowerCase(content: string, k: string)
    requires k in Parse(content)
    ensures ToLower(k) == k
  {
    var lines := Split(content, '\n');
    FrontMatter.CollectKeys(lines, Entry, k);
    var i :| 0 <= i < |lines| && FrontMatter.Defines(lines[i], Entry, k);
    EntryKeyLowerCase(lines[i]);
  }

  /** A key holds the value of the last line that defines it. */
  lemma ParseLastWins(content: string, k: string, i: int)
    requires FrontMatter.LastDefines(Split(content, '\n'), Entry, k, i)
    ensures k in Parse(content) && Parse(content)[k] == Entry(Split(content, '\n')[i]).value.1
  {
    FrontMatter.CollectLast(Split(content, '\n'), Entry, k, i);
  }

  /** A trimmed line written as colon-free pieces joined by colons: the key is the first piece
      lower-cased, the value the other pieces with their leading whitespace dropped, joined with
      `": "` and trimmed. */
  lemma EntryOfPieces(line: string, pieces: seq<string>)
    requires |pieces| >= 2 && forall i :: 0 <= i < |pieces| ==> ':' !in pieces[i]
    requires line == JoinWith(pieces, ":") && Trim(line) == line
    ensures Entry(line) == Some((ToLower(pieces[0]), Trim(JoinWith(TrimAll(pieces[1..]), ": "))))
  {
    JoinSplit(pieces, ':');
    var key := pieces[0];
    var rest := JoinWith(pieces[1..], ":");
    assert line == key + ":" + rest;
    KeyBeforeColon(line, key, rest);
    EntryKeyValue(line, |key|);
  }

  lemma KeyBeforeColon(line: string, key: string, rest: string)
    requires line == key + ":" + rest && ':' !in key
    ensures |key| < |line| && line[|key|] == ':' && line[..|key|] == key
  {
    assert line[..|key|] == (key + ":")[..|key|];
  }

  /** The key is not trimmed: whitespace before the first colon stays in it, while the value
      loses the whitespace around it. */
  lemma KeyKeepsSpace(key: string, value: string)
    requires ':' !in key && ':' !in value
    requires |key| > 0 && !IsSpace(key[0]) && |value| > 0 && !IsSpace(value[|value| - 1])
    ensures Entry(key + ":" + value) == Some((ToLower(key), Trim(value)))
  {
    var line := key + ":" + value;
    var pieces := [key, value];
    JoinTwo(key, value);
    NoSpaceEnds(line);
    EntryOfPieces(line, pieces);
    TrimAllOne(pieces[1..], value);
    TrimStartTrim(value);
  }

  lemma JoinTwo(x: string, y: string)
    ensures JoinWith([x, y], ":") == x + ":" + y
    ensures [x, y][1..] == [y]
  {
    JoinPair(x, y, ":");
  }

  lemma JoinPair(x: string, y: string, sep: string)
    ensures JoinWith([x, y], sep) == x + sep + y
    ensures [x, y][1..] == [y]
  {
    assert [x, y][1..] == [y];
  }

  lemma JoinThree(x: string, y: string, z: string)
    ensures JoinWith([x, y, z], ":") == x + ":" + y + ":" + z
    ensures [x, y, z][1..] == [y, z]
  {
    assert [x, y, z][1..] == [y, z];
    JoinTwo(y, z);
    assert x + ":" + (y + ":" + z) == x + ":" + y + ":" + z;
  }

  lemma TrimAllOne(pieces: seq<string>, y: string)
    requires pieces == [y]
    ensures JoinWith(TrimAll(pieces), ": ") == TrimStart(y)
  {
    TrimAllSingle(y);
  }

  lemma TrimAllSingle(y: string)
    ensures TrimAll([y]) == [TrimStart(y)]
  {
  }

  lemma TrimAllTwo(pieces: seq<string>, y: string, z: string)
    requires pieces == [y, z]
    ensures JoinWith(TrimAll(pieces), ": ") == TrimStart(y) + ": " + TrimStart(z)
  {
    assert pieces == [y] + [z];
    TrimAllCons(y, [z]);
    TrimAllSingle(z);
    assert [TrimStart(y)] + [TrimStart(z)] == [TrimStart(y), TrimStart(z)];
    JoinPair(TrimStart(y), TrimStart(z), ": ");
  }

  /** Trimming after dropping leading whitespace is trimming. */
  lemma TrimStartTrim(s: string)
    ensures Trim(TrimStart(s)) == Trim(s)
  {
    assert TrimStart(TrimStart(s)) == TrimStart(s);
  }

  /** A colon inside the value comes back as a colon and one space, whatever whitespace
      followed it. */
  lemma InnerColonRespaced(key: string, a: string, b: string)
    requires ':' !in key && ':' !in a && ':' !in b
    requires |key| > 0 && !IsSpace(key[0]) && |b| > 0 && !IsSpace(b[|b| - 1])
    ensures Entry(key + ":" + a + ":" + b) == Some((ToLower(key), Trim(TrimStart(a) + ": " + TrimStart(b))))
  {
    var line := key + ":" + a + ":" + b;
    var pieces := [key, a, b];
    JoinThree(key, a, b);
    NoSpaceEnds(line);
    EntryOfPieces(line, pieces);
    TrimAllTwo(pieces[1..], a, b);
  }

  /** The key keeps the space written before the colon: `a : b` has the key `a `. */
  lemma KeyNotTrimmed(line: string)
    requires line == "a : b"
    ensures Entry(line) == Some(("a ", "b"))
  {
    var key, value := "a ", " b";
    assert line == key + ":" + value;
    KeySpaceFacts(key, value);
    KeyKeepsSpace(key, value);
  }

  /** `t: 10:30` reads as `10: 30`. */
  lemma InnerColonGetsSpace(line: string)
    requires line == "t: 10:30"
    ensures Entry(line) == Some(("t", "10: 30"))
  {
    var key, a, b := "t", " 10", "30";
    assert line == key + ":" + a + ":" + b;
    TimeFacts(key, a, b);
    InnerColonRespaced(key, a, b);
  }

  lemma LeadingSpaceDropped(a: string, s: string)
    requires |s| > 0 && !IsSpace(s[0]) && !IsSpace(s[|s| - 1]) && a == [' '] + s
    ensures TrimStart(a) == s
  {
    TrimStartOneSpace(s);
  }

  lemma NoLeadingSpace(s: string)
    requires |s| > 0 && !IsSpace(s[0])
    ensures TrimStart(s) == s
  {
  }

  lemma NoSpaceEnds(s: string)
    requires |s| > 0 && !IsSpace(s[0]) && !IsSpace(s[|s| - 1])
    ensures Trim(s) == s
  {
    TrimNoSpaceEnds(s);
  }

  lemma TrimStartOneSpace(s: string)
    requires |s| > 0 && !IsSpace(s[0]) && !IsSpace(s[|s| - 1])
    ensures TrimStart([' '] + s) == s
  {
    FrontMatter.TrimOneSpace(s);
    assert ([' '] + s)[1..] == s;
  }

  /** The header fields the preview reads. */
  datatype Header = Header(title: string, date: string, lander: string, ausschuss: string)

  /** `parsedData[key] || ""`: the value, or the empty string for a missing key. */
  function FieldOr(data: map<string, string>, key: string): (r: string)
    ensures r != "" ==> key in data && data[key] == r
    ensures key in data ==> r == data[key]
  {
    if key in data then data[key] else ""
  }

  /** The header of a front-matter block, read from the lower-cased keys. */
  function HeaderOf(content: string): Header {
    var data := Parse(content);
    Header(FieldOr(data, "title"), FieldOr(data, "datum"), FieldOr(data, "lander"), FieldOr(data, "ausschuss"))
  }

  /** A field no line defines is read as the empty string. */
  lemma HeaderMissingTitle(content: string)
    requires forall i :: 0 <= i < |Split(content, '\n')| ==> !FrontMatter.Defines(Split(content, '\n')[i], Entry, "title")
    ensures HeaderOf(content).title == ""
  {
    FrontMatter.CollectKeys(Split(content, '\n'), Entry, "title");
  }

  /** A capitalised field name still reaches the header: `Title: Draft` sets the title. */
  lemma CapitalisedTitle(content: string)
    requires content == "Title: Draft"
    ensures HeaderOf(content).title == "Draft"
  {
    var key, value := "Title", " Draft";
    assert content == key + ":" + value;
    TitleNoBreak(content);
    TitleFacts(key, value);
    KeyKeepsSpace(key, value);
    OneLine(content);
    CollectOne(content, "title", "Draft");
  }

  /** A single line that defines one field gives the record of just that field. */
  lemma CollectOne(line: string, k: string, v: string)
    requires Entry(line) == Some((k, v))
    ensures FrontMatter.Collect([line], Entry) == map[k := v]
  {
    assert [line][..0] == [];
  }

  /** Text without a line break is a single line. */
  lemma OneLine(s: string)
    requires '\n' !in s
    ensures Split(s, '\n') == [s]
  {
    assert IndexFrom(s, '\n', 0).None?;
  }

  // Facts about the literal lines of KeyNotTrimmed, InnerColonGetsSpace and CapitalisedTitle,
  // one small lemma each so that every proof stays within the solver's budget.

  lemma KeySpaceFacts(key: string, value: string)
    requires key == "a " && value == " b"
    ensures ':' !in key && ':' !in value
    ensures |key| > 0 && !IsSpace(key[0]) && |value| > 0 && !IsSpace(value[|value| - 1])
    ensures ToLower(key) == key && Trim(value) == "b"
  {
    ColonFreeKey(key);
    ColonFreeValue(value);
    TrimSpaceB(value);
    ToLowerPlain(key);
  }

  lemma ColonFreeKey(key: string)
    requires key == "a "
    ensures ':' !in key && |key| > 0 && !IsSpace(key[0])
  {
  }

  lemma ColonFreeValue(value: string)
    requires value == " b"
    ensures ':' !in value && |value| > 0 && !IsSpace(value[|value| - 1])
  {
  }

  lemma TrimSpaceB(s: string)
    requires s == " b"
    ensures Trim(s) == "b"
  {
    assert s == [' '] + "b";
    FrontMatter.TrimOneSpace("b");
  }

  lemma TimeFacts(key: string, a: string, b: string)
    requires key == "t" && a == " 10" && b == "30"
    ensures ':' !in key && ':' !in a && ':' !in b
    ensures |key| > 0 && !IsSpace(key[0]) && |b| > 0 && !IsSpace(b[|b| - 1])
    ensures ToLower(key) == key
    ensures Trim(TrimStart(a) + ": " + TrimStart(b)) == "10: 30"
  {
    TimeKey(key);
    TimeMinutes(a, b);
    TimeParts(a, b);
  }

  lemma TimeKey(key: string)
    requires key == "t"
    ensures ':' !in key && |key| > 0 && !IsSpace(key[0]) && ToLower(key) == key
  {
    ToLowerPlain(key);
  }

  lemma TimeMinutes(a: string, b: string)
    requires a == " 10" && b == "30"
    ensures ':' !in a && ':' !in b && |b| > 0 && !IsSpace(b[|b| - 1])
  {
  }

  lemma TimeParts(a: string, b: string)
    requires a == " 10" && b == "30"
    ensures Trim(TrimStart(a) + ": " + TrimStart(b)) == "10: 30"
  {
    var x: string, z: string := "10", "30";
    assert |x| > 0 && !IsSpace(x[0]) && !IsSpace(x[|x| - 1]);
    assert |z| > 0 && !IsSpace(z[0]) && !IsSpace(z[|z| - 1]);
    assert a == [' '] + x;
    TrimmedPairJoin(a, b, x, z);
    TimeJoin(x, ": ", z);
  }

  /** A piece with one leading space and a bare piece, both trimmed at the start and joined by
      `": "`, are left alone by the final trim. */
  lemma TrimmedPairJoin(a: string, b: string, x: string, z: string)
    requires |x| > 0 && !IsSpace(x[0]) && !IsSpace(x[|x| - 1]) && a == [' '] + x
    requires |z| > 0 && !IsSpace(z[0]) && !IsSpace(z[|z| - 1]) && b == z
    ensures Trim(TrimStart(a) + ": " + TrimStart(b)) == x + ": " + z
  {
    assert TrimStart(a) == x by { LeadingSpaceDropped(a, x); }
    assert TrimStart(b) == z by { NoLeadingSpace(b); }
    var j := x + ": " + z;
    assert Trim(j) == j by {
      assert j[0] == x[0] && j[|j| - 1] == z[|z| - 1];
      NoSpaceEnds(j);
    }
  }

  lemma TimeJoin(x: string, y: string, z: string)
    requires x == "10" && y == ": " && z == "30"
    ensures x + y + z == "10: 30"
  {
  }

  lemma TitleNoBreak(content: string)
    requires content == "Title: Draft"
    ensures '\n' !in content
  {
  }

  lemma TitleFacts(key: string, value: string)
    requires key == "Title" && value == " Draft"
    ensures ':' !in key && ':' !in value
    ensures |key| > 0 && !IsSpace(key[0]) && |value| > 0 && !IsSpace(value[|value| - 1])
    ensures ToLower(key) == "title" && Trim(value) == "Draft"
  {
    TitleColonFree(key, value);
    TitleLower(key);
    TitleTrim(value);
  }

  lemma TitleColonFree(key: string, value: string)
    requires key == "Title" && value == " Draft"
    ensures ':' !in key && ':' !in value
    ensures |key| > 0 && !IsSpace(key[0]) && |value| > 0 && !IsSpace(value[|value| - 1])
  {
  }

  lemma TitleLower(key: string)
    requires key == "Title"
    ensures ToLower(key) == "title"
  {
    var rest := "itle";
    assert key == "T" + rest;
    ToLowerConcat("T", rest);
    assert LowerChar('T') == 't';
    ToLowerPlain(rest);
  }

  lemma TitleTrim(value: string)
    requires value == " Draft"
    ensures Trim(value) == "Draft"
  {
    var word := "Draft";
    assert value == [' '] + word;
    FrontMatter.TrimOneSpace(word);
  }
}
