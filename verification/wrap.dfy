/**
 * The two plain-text line breakers of the PDF renderer (src/pdfRenderer.ts): `splitTextToLines`
 * fills lines word by word against a width oracle for whole strings, and `splitIntoTwoLines`
 * cuts a committee name at the space nearest its middle.
 */
module Wrap {
  import opened Wrappers
  import opened Strings

  /** The line after appending `word` to `cur`: joined with a space, or the word alone when the
      line is still empty. */
  function Extend(cur: string, word: string): string {
    if cur != "" then cur + " " + word else word
  }

  /** The loop of `splitTextToLines` from the line `cur` on, over the remaining words: a word
      that makes the line too wide while the line is non-empty closes the line and starts the
      next one; the last non-empty line is kept. */
  function WrapFrom(words: seq<string>, cur: string, width: string -> real, max: real): seq<string>
    decreases |words|
  {
    if |words| == 0 then
      if cur != "" then [cur] else []
    else
      var test := Extend(cur, words[0]);
      if width(test) > max && cur != "" then [cur] + WrapFrom(words[1..], words[0], width, max)
      else WrapFrom(words[1..], test, width, max)
  }

  /** `splitTextToLines`: the words are the pieces of `text.split(" ")`. */
  function WrapText(text: string, width: string -> real, max: real): seq<string> {
    WrapFrom(Split(text, ' '), "", width, max)
  }

  /** No emitted line is empty. */
  lemma {:induction false} WrapNoEmptyLine(words: seq<string>, cur: string, width: string -> real, max: real)
    ensures forall i :: 0 <= i < |WrapFrom(words, cur, width, max)| ==> WrapFrom(words, cur, width, max)[i] != ""
    decreases |words|
  {
    if |words| > 0 {
      var test := Extend(cur, words[0]);
      if width(test) > max && cur != "" {
        WrapNoEmptyLine(words[1..], words[0], width, max);
        var rest := WrapFrom(words[1..], words[0], width, max);
        assert forall i :: 0 < i < |[cur] + rest| ==> ([cur] + rest)[i] == rest[i - 1];
      } else {
        WrapNoEmptyLine(words[1..], test, width, max);
      }
    }
  }

  /** Empty text gives no lines. */
  lemma WrapEmpty(width: string -> real, max: real)
    ensures WrapText("", width, max) == []
  {
    assert IndexFrom("", ' ', 0).None?;
    assert Split("", ' ') == [""];
    assert [""][1..] == [];
  }

  /** Every line is one of the words of `all`, or fits the maximum width: only a single word
      that is too wide by itself may overflow. */
  lemma {:induction false} WrapFits(words: seq<string>, cur: string, width: string -> real, max: real, all: seq<string>)
    requires forall i :: 0 <= i < |words| ==> words[i] in all
    requires cur == "" || cur in all || width(cur) <= max
    ensures forall i :: 0 <= i < |WrapFrom(words, cur, width, max)| ==>
      var l := WrapFrom(words, cur, width, max)[i];
      l in all || width(l) <= max
    decreases |words|
  {
    if |words| > 0 {
      var test := Extend(cur, words[0]);
      var r := WrapFrom(words, cur, width, max);
      if width(test) > max && cur != "" {
        WrapFits(words[1..], words[0], width, max, all);
        var rest := WrapFrom(words[1..], words[0], width, max);
        WrapNoEmptyLine(words, cur, width, max);
        assert forall i :: 0 < i < |r| ==> r[i] == rest[i - 1];
      } else {
        WrapFits(words[1..], test, width, max, all);
      }
    } else if cur != "" {
      WrapNoEmptyLine(words, cur, width, max);
    }
  }

  /** The line-width guarantee of `splitTextToLines`. */
  lemma WrapTextFits(text: string, width: string -> real, max: real)
    ensures forall i :: 0 <= i < |WrapText(text, width, max)| ==>
      var l := WrapText(text, width, max)[i];
      l in Split(text, ' ') || width(l) <= max
  {
    WrapFits(Split(text, ' '), "", width, max, Split(text, ' '));
  }

  /** With no empty word, the lines joined by single spaces give back the line so far and the
      remaining words joined by single spaces. */
  lemma {:induction false} WrapJoin(words: seq<string>, cur: string, width: string -> real, max: real)
    requires forall i :: 0 <= i < |words| ==> words[i] != ""
    ensures JoinWith(WrapFrom(words, cur, width, max), " ")
      == if cur == "" then JoinWith(words, " ")
         else if |words| == 0 then cur
         else cur + " " + JoinWith(words, " ")
    decreases |words|
  {
    if |words| > 0 {
      var w0 := words[0];
      var test := Extend(cur, w0);
      assert test != "";
      if width(test) > max && cur != "" {
        WrapJoin(words[1..], w0, width, max);
        var rest := WrapFrom(words[1..], w0, width, max);
        WrapNoEmptyLine(words[1..], w0, width, max);
        assert |rest| > 0 by { WrapNonEmpty(words[1..], w0, width, max); }
        assert JoinWith([cur] + rest, " ") == cur + " " + JoinWith(rest, " ") by {
          assert ([cur] + rest)[1..] == rest;
        }
        JoinCons(words);
      } else {
        WrapJoin(words[1..], test, width, max);
        JoinCons(words);
      }
    }
  }

  lemma {:induction false} WrapNonEmpty(words: seq<string>, cur: string, width: string -> real, max: real)
    requires cur != ""
    ensures |WrapFrom(words, cur, width, max)| > 0
    decreases |words|
  {
    if |words| > 0 {
      var test := Extend(cur, words[0]);
      if !(width(test) > max && cur != "") {
        assert test != "";
        WrapNonEmpty(words[1..], test, width, max);
      }
    }
  }

  /** No line comes out exactly when the line so far and every remaining word are empty. */
  lemma {:induction false} WrapNoLines(words: seq<string>, cur: string, width: string -> real, max: real)
    ensures |WrapFrom(words, cur, width, max)| == 0 <==>
      cur == "" && forall i :: 0 <= i < |words| ==> words[i] == ""
    decreases |words|
  {
    if |words| > 0 {
      var test := Extend(cur, words[0]);
      if !(width(test) > max && cur != "") {
        WrapNoLines(words[1..], test, width, max);
        assert test == "" <==> cur == "" && words[0] == "";
        assert forall i :: 0 < i < |words| ==> words[i] == words[1..][i - 1];
      }
    }
  }

  /** Empty pieces joined by spaces give spaces only. */
  lemma {:induction false} JoinEmptyPieces(ps: seq<string>)
    requires forall i :: 0 <= i < |ps| ==> ps[i] == ""
    ensures forall k :: 0 <= k < |JoinWith(ps, " ")| ==> JoinWith(ps, " ")[k] == ' '
    decreases |ps|
  {
    if |ps| > 1 {
      JoinEmptyPieces(ps[1..]);
    }
  }

  /** Text holding a character other than a space gives at least one line. */
  lemma WrapTextSomeLine(text: string, width: string -> real, max: real, k: nat)
    requires k < |text| && text[k] != ' '
    ensures |WrapText(text, width, max)| > 0
  {
    var words := Split(text, ' ');
    SplitJoin(text, ' ');
    if forall i :: 0 <= i < |words| ==> words[i] == "" {
      JoinEmptyPieces(words);
      assert false;
    }
    WrapNoLines(words, "", width, max);
  }

  lemma JoinCons(words: seq<string>)
    requires |words| > 0
    ensures JoinWith(words, " ") == if |words| == 1 then words[0] else words[0] + " " + JoinWith(words[1..], " ")
  {
  }

  /** The round trip of `splitTextToLines`: when the text has no leading, trailing or doubled
      space, joining the lines with single spaces gives the text back. */
  lemma WrapRoundTrip(text: string, width: string -> real, max: real)
    requires forall i :: 0 <= i < |Split(text, ' ')| ==> Split(text, ' ')[i] != ""
    ensures JoinWith(WrapText(text, width, max), " ") == text
  {
    WrapJoin(Split(text, ' '), "", width, max);
    SplitJoin(text, ' ');
  }

  /** The first word of a line. */
  function FirstWord(l: string): string {
    Split(l, ' ')[0]
  }

  lemma FirstWordOf(w: string, rest: string)
    requires ' ' !in w
    ensures FirstWord(w) == w
    ensures FirstWord(w + " " + rest) == w
  {
    assert IndexFrom(w, ' ', 0).None?;
    var l := w + " " + rest;
    assert l[|w|] == ' ';
    assert forall j :: 0 <= j < |w| ==> l[j] == w[j];
    assert IndexFrom(l, ' ', 0) == Some(|w|);
    assert l[..|w|] == w;
  }

  /** Each line but the last is full: the first word of the next line, added to it, would
      have made it too wide. */
  predicate Full(r: seq<string>, width: string -> real, max: real) {
    forall i :: 0 <= i < |r| - 1 ==> width(r[i] + " " + FirstWord(r[i + 1])) > max
  }

  /** Each line is full: with no empty word, the first word of the next line, added to a
      line, would have made it too wide. */
  lemma {:induction false} WrapFull(words: seq<string>, cur: string, width: string -> real, max: real)
    requires forall i :: 0 <= i < |words| ==> words[i] != "" && ' ' !in words[i]
    ensures Full(WrapFrom(words, cur, width, max), width, max)
    ensures |WrapFrom(words, cur, width, max)| > 0 && cur != "" ==>
      FirstWord(WrapFrom(words, cur, width, max)[0]) == FirstWord(cur)
    decreases |words|
  {
    if |words| > 0 {
      var w0 := words[0];
      var test := Extend(cur, w0);
      var r := WrapFrom(words, cur, width, max);
      if width(test) > max && cur != "" {
        FirstWordOf(w0, "");
        WrapFull(words[1..], w0, width, max);
        WrapNonEmpty(words[1..], w0, width, max);
        var rest := WrapFrom(words[1..], w0, width, max);
        assert r == [cur] + rest;
        assert FirstWord(rest[0]) == w0;
        assert forall i :: 0 < i < |r| ==> r[i] == rest[i - 1];
      } else {
        if cur != "" {
          FirstWordAfter(cur, w0);
        } else {
          FirstWordOf(w0, "");
        }
        WrapFull(words[1..], test, width, max);
      }
    }
  }

  lemma FirstWordAfter(cur: string, w: string)
    requires cur != ""
    ensures FirstWord(cur + " " + w) == FirstWord(cur)
  {
    var l := cur + " " + w;
    match IndexFrom(cur, ' ', 0)
    case None =>
      FirstWordOf(cur, w);
    case Some(i) =>
      assert l[i] == ' ' && forall j :: 0 <= j < i ==> l[j] == cur[j];
      assert IndexFrom(l, ' ', 0) == Some(i);
      assert l[..i] == cur[..i];
  }

  /** The greedy guarantee of `splitTextToLines` for text without empty words. */
  lemma WrapTextFull(text: string, width: string -> real, max: real)
    requires forall i :: 0 <= i < |Split(text, ' ')| ==> Split(text, ' ')[i] != ""
    ensures Full(WrapText(text, width, max), width, max)
  {
    var words := Split(text, ' ');
    assert forall i :: 0 <= i < |words| ==> words[i] != "" && ' ' !in words[i];
    WrapFull(words, "", width, max);
  }

  /** The index `splitIntoTwoLines` cuts at: of the last space at or before the middle index
      `|s| / 2` and the first space after it, the nearer one; the later one on a tie, since the
      comparison is strict. */
  function Cut(s: string): Option<nat> {
    var middle := |s| / 2;
    var before := LastIndexUpTo(s, ' ', middle);
    var after := IndexFrom(s, ' ', middle + 1);
    if before.None? then after
    else if after.None? then before
    else if middle - before.value < after.value - middle then before
    else after
  }

  /** `splitIntoTwoLines`: the text before and after the cut, or the whole text and an empty
      second line when there is no space. */
  function SplitTwo(s: string): (string, string) {
    match Cut(s)
    case None => (s, "")
    case Some(b) => if b < |s| then (s[..b], s[b + 1..]) else (s, "")
  }

  /** Distance of an index from the middle of `s`. */
  function Dist(s: string, j: int): nat {
    var m := |s| / 2;
    if j <= m then m - j else j - m
  }

  /** `b` is at least as near the middle as `j`, and later than `j` if equally near. */
  predicate Nearer(s: string, b: int, j: int) {
    Dist(s, b) < Dist(s, j) || (Dist(s, b) == Dist(s, j) && j <= b)
  }

  /** The cut is a space exactly when there is one, and it is the space nearest the middle,
      the later of two equally near ones. */
  lemma CutNearest(s: string)
    ensures Cut(s).None? <==> ' ' !in s
    ensures Cut(s).Some? ==> Cut(s).value < |s| && s[Cut(s).value] == ' '
    ensures Cut(s).Some? ==> forall j :: 0 <= j < |s| && s[j] == ' ' ==> Nearer(s, Cut(s).value, j)
  {
    var m := |s| / 2;
    var before := LastIndexUpTo(s, ' ', m);
    var after := IndexFrom(s, ' ', m + 1);
    if ' ' in s {
      var k :| 0 <= k < |s| && s[k] == ' ';
      if k <= m { assert before.Some?; } else { assert after.Some?; }
      var b := Cut(s).value;
      forall j | 0 <= j < |s| && s[j] == ' '
        ensures Nearer(s, b, j)
      {
        if j <= m {
          assert before.Some? && j <= before.value;
        } else {
          assert after.Some? && after.value <= j;
        }
      }
    }
  }

  /** A name without a space stays whole on the first line. */
  lemma SplitTwoNoSpace(s: string)
    requires ' ' !in s
    ensures SplitTwo(s) == (s, "")
  {
    CutNearest(s);
  }

  /** A name with a space is cut at its nearest space to the middle, and the two lines with a
      space between them give the name back. */
  lemma SplitTwoRoundTrip(s: string)
    requires ' ' in s
    ensures SplitTwo(s) == (s[..Cut(s).value], s[Cut(s).value + 1..])
    ensures s == SplitTwo(s).0 + " " + SplitTwo(s).1
  {
    CutNearest(s);
    var b := Cut(s).value;
    assert s == s[..b] + [s[b]] + s[b + 1..];
  }

  /** `AAAA BBBB` has its space at the middle and splits into its two words. */
  lemma SplitTwoExample(s: string)
    requires s == "AAAA BBBB"
    ensures SplitTwo(s) == ("AAAA", "BBBB")
  {
    assert s[4] == ' ';
    assert LastIndexUpTo(s, ' ', 4) == Some(4);
    assert Cut(s) == Some(4);
    assert s[..4] == "AAAA" && s[5..] == "BBBB";
  }

  /** `abc d efg` has spaces one before and one after the middle index 4; the later one wins. */
  lemma SplitTwoTie(s: string)
    requires s == "abc d efg"
    ensures SplitTwo(s) == ("abc d", "efg")
  {
    assert s[3] == ' ' && s[4] != ' ' && s[5] == ' ';
    assert LastIndexUpTo(s, ' ', 4) == Some(3);
    assert IndexFrom(s, ' ', 5) == Some(5);
    assert Cut(s) == Some(5);
    assert s[..5] == "abc d" && s[6..] == "efg";
  }
}
