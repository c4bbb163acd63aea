/**
 * The front-matter stage of the markdown parser (src/MarkdownParser.ts): the text must open
 * with a `---` line, the front matter runs up to the first later `---` line, and each of its
 * `key: value` lines becomes one entry of the metadata record.
 */
module FrontMatter {
  import opened Wrappers
  import opened Strings
  import opened Types

  const Open: string := "---\n"
  const Close: string := "\n---\n"
  const MissingFrontMatter: string := "Invalid markdown format - missing frontmatter"

  /** The regex `^---\n([\s\S]*?)\n---\n([\s\S]*)$`: the raw front matter (shortest possible) and
      the rest of the text, or `None` when the text does not have that shape. */
  function SplitFrontMatter(text: string): (r: Option<(string, string)>)
    ensures r.Some? ==> text == Open + r.value.0 + Close + r.value.1
    ensures r.Some? ==> forall j :: |Open| <= j < |Open| + |r.value.0| ==> !OccursAt(text, Close, j)
    ensures r.None? <==> !StartsWith(text, Open) || forall j :: |Open| <= j ==> !OccursAt(text, Close, j)
  {
    if StartsWith(text, Open) then
      match FindFrom(text, Close, |Open|)
      case None => None
      case Some(i) =>
        assert text == text[..|Open|] + text[|Open|..i] + text[i..i + |Close|] + text[i + |Close|..];
        Some((text[|Open|..i], text[i + |Close|..]))
    else None
  }

  /** Wrapping front matter and content in the delimiters and splitting again gives them back,
      provided the front matter cannot end the block early. */
  lemma FrontMatterRoundTrip(fm: string, content: string)
    requires !Contains(fm + "\n---", Close)
    ensures SplitFrontMatter(Open + fm + Close + content) == Some((fm, content))
  {
    var text := Open + fm + Close + content;
    var tail := fm + "\n---";
    assert OccursAt(text, Close, |Open| + |fm|);
    forall j | |Open| <= j < |Open| + |fm|
      ensures !OccursAt(text, Close, j)
    {
      NoEarlyClose(fm, content, j);
    }
    assert StartsWith(text, Open);
    var i := FindFrom(text, Close, |Open|);
    assert i == Some(|Open| + |fm|);
    assert text[|Open|..|Open| + |fm|] == fm;
    assert text[|Open| + |fm| + |Close|..] == content;
  }

  /** The closing delimiter cannot start inside front matter that does not contain it. */
  lemma NoEarlyClose(fm: string, content: string, j: int)
    requires !Contains(fm + "\n---", Close)
    requires |Open| <= j < |Open| + |fm|
    ensures !OccursAt(Open + fm + Close + content, Close, j)
  {
    var text := Open + fm + Close + content;
    var tail := fm + "\n---";
    var m := j - |Open|;
    assert text == Open + tail + "\n" + content;
    var window := text[|Open|..|Open| + |tail|];
    assert window == tail;
    assert m + |Close| <= |tail|;
    assert !OccursAt(tail, Close, m);
    assert window[m..m + |Close|] == text[j..j + |Close|];
  }

  /** One front-matter line `key: value` (src/MarkdownParser.ts:37-41): split on `:`; a line
      whose first piece is empty or that has no `:` is ignored; otherwise the trimmed first
      piece maps to the trimmed rest re-joined with `:`. */
  function FieldOf(line: string): Option<(string, string)> {
    var parts := Split(line, ':');
    if parts[0] != "" && |parts| > 1
    then Some((Trim(parts[0]), Trim(JoinWith(parts[1..], ":"))))
    else None
  }

  /** A line without a colon defines nothing. */
  lemma FieldOfNoColon(line: string)
    requires ':' !in line
    ensures FieldOf(line) == None
  {
  }

  /** The field a line defines, stated without `split`: with `i` the first colon, a line that
      starts with its colon defines nothing, and otherwise the key is the trimmed text before
      the colon and the value the trimmed text after it, inner colons included. */
  lemma FieldOfAt(line: string, i: nat)
    requires i < |line| && line[i] == ':' && ':' !in line[..i]
    ensures FieldOf(line) == if i == 0 then None else Some((Trim(line[..i]), Trim(line[i + 1..])))
  {
    var r := IndexFrom(line, ':', 0);
    assert r == Some(i);
    var parts := Split(line, ':');
    assert parts == [line[..i]] + Split(line[i + 1..], ':');
    assert parts[1..] == Split(line[i + 1..], ':');
    SplitJoin(line[i + 1..], ':');
  }

  /** The record built by applying `field` to each line in order, later entries overwriting earlier ones. */
  function Collect(lines: seq<string>, field: string -> Option<(string, string)>): map<string, string>
    decreases |lines|
  {
    if |lines| == 0 then map[]
    else
      var m := Collect(lines[..|lines| - 1], field);
      match field(lines[|lines| - 1])
      case None => m
      case Some((k, v)) => m[k := v]
  }

  predicate Defines(line: string, field: string -> Option<(string, string)>, k: string) {
    field(line).Some? && field(line).value.0 == k
  }

  /** Line `i` is the last line that defines `k`. */
  predicate LastDefines(lines: seq<string>, field: string -> Option<(string, string)>, k: string, i: int) {
    && 0 <= i < |lines|
    && Defines(lines[i], field, k)
    && forall j :: i < j < |lines| ==> !Defines(lines[j], field, k)
  }

  /** A key is in the record exactly when some line defines it. */
  lemma {:induction false} CollectKeys(lines: seq<string>, field: string -> Option<(string, string)>, k: string)
    ensures k in Collect(lines, field) <==> exists i :: 0 <= i < |lines| && Defines(lines[i], field, k)
    decreases |lines|
  {
    if |lines| > 0 {
      var n := |lines|;
      var init := lines[..n - 1];
      CollectKeys(init, field, k);
      if Defines(lines[n - 1], field, k) {
        assert k in Collect(lines, field);
      } else {
        assert k in Collect(lines, field) <==> k in Collect(init, field);
        if k in Collect(lines, field) {
          var i :| 0 <= i < n - 1 && Defines(init[i], field, k);
          assert init[i] == lines[i];
        } else {
          forall i | 0 <= i < n
            ensures !Defines(lines[i], field, k)
          {
            if i < n - 1 {
              assert init[i] == lines[i];
            }
          }
        }
      }
    }
  }

  /** A defined key holds the value of the last line that defines it: later lines overwrite earlier ones. */
  lemma {:induction false} CollectLast(lines: seq<string>, field: string -> Option<(string, string)>, k: string, i: int)
    requires LastDefines(lines, field, k, i)
    ensures k in Collect(lines, field) && Collect(lines, field)[k] == field(lines[i]).value.1
    decreases |lines|
  {
    var n := |lines|;
    var init := lines[..n - 1];
    if i < n - 1 {
      assert !Defines(lines[n - 1], field, k);
      assert init[i] == lines[i];
      assert forall j :: i < j < n - 1 ==> init[j] == lines[j];
      CollectLast(init, field, k, i);
    }
  }

  /** `parseFrontMatter` (src/MarkdownParser.ts:32-45). */
  function ParseFrontMatter(frontMatter: string): map<string, string> {
    Collect(Split(frontMatter, '\n'), FieldOf)
  }

  /** `extractFrontMatter` (src/MarkdownParser.ts:15-30), also the whole of `parseMarkdown`:
      fails with the source's message unless the text opens with `---` and has a later
      `---` line, and otherwise parses the front matter, which ends at the first such line, and
      keeps the rest as content. */
  function ExtractFrontMatter(text: string): (r: Result<Resolution, string>)
    ensures r.Failure? <==> !StartsWith(text, Open) || forall j :: |Open| <= j ==> !OccursAt(text, Close, j)
    ensures r.Failure? ==> r.error == MissingFrontMatter
    ensures r.Success? ==> |Open| + |Close| + |r.value.content| <= |text|
    ensures r.Success? ==>
      var fm := text[|Open|..|text| - |Close| - |r.value.content|];
      && text == Open + fm + Close + r.value.content
      && r.value.metadata == ParseFrontMatter(fm)
      && forall j :: |Open| <= j < |Open| + |fm| ==> !OccursAt(text, Close, j)
  {
    match SplitFrontMatter(text)
    case None => Failure(MissingFrontMatter)
    case Some((fm, content)) =>
      assert text[|Open|..|text| - |Close| - |content|] == fm;
      Success(Resolution(ParseFrontMatter(fm), content))
  }

  lemma TrimOneSpace(s: string)
    requires |s| > 0 && !IsSpace(s[0]) && !IsSpace(s[|s| - 1])
    ensures Trim([' '] + s) == s
  {
    assert ([' '] + s)[1..] == s;
    assert TrimStart([' '] + s) == TrimStart(s) == s;
    TrimNoSpaceEnds(s);
  }

  lemma FieldOfTimeLine(l: string)
    requires l == "t: 10:30"
    ensures FieldOf(l) == Some((Trim("t"), Trim(" 10:30")))
  {
    assert l[..1] == "t";
    assert l[1] == ':';
    assert ':' !in l[..1];
    FieldOfAt(l, 1);
    assert l[2..] == " 10:30";
  }

  lemma TrimTimeParts()
    ensures Trim("t") == "t" && Trim(" 10:30") == "10:30"
  {
    TrimNoSpaceEnds("t");
    TrimOneSpace("10:30");
  }

  /** Inner colons of the value survive: `t: 10:30` gives `t` mapped to `10:30`. */
  lemma FieldOfInnerColon(l: string)
    requires l == "t: 10:30"
    ensures FieldOf(l) == Some(("t", "10:30"))
  {
    FieldOfTimeLine(l);
    TrimTimeParts();
  }

  lemma FieldOfIgnored()
    ensures FieldOf("no colon here") == None
    ensures FieldOf(": value") == None
  {
    FieldOfNoColon("no colon here");
    FieldOfAt(": value", 0);
  }
}
