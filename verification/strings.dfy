/**
 * The JavaScript string primitives the resolution renderer relies on: `trim`, `startsWith`,
 * `includes`, `indexOf`, `lastIndexOf`, `split` on one character, `join`, `toLowerCase`,
 * and the relation "t is s with some marker characters deleted" used to state what the
 * emphasis strippers may remove.
 */
module Strings {
  import opened Wrappers

  /** The characters JavaScript's `trim` removes and its regex class `\s` matches
      (WhiteSpace and LineTerminator of ECMA-262). */
  predicate IsSpace(c: char) {
    || c == ' '
    || '\t' <= c <= '\r'  // tab, line feed, vertical tab, form feed, carriage return
    || c == '\U{00A0}' || c == '\U{1680}'
    || '\U{2000}' <= c <= '\U{200A}'
    || c == '\U{2028}' || c == '\U{2029}' || c == '\U{202F}' || c == '\U{205F}'
    || c == '\U{3000}' || c == '\U{FEFF}'
  }

  predicate AllSpace(s: string) {
    forall i :: 0 <= i < |s| ==> IsSpace(s[i])
  }

  /** `s` contains no character of `marks`. */
  predicate Avoids(s: string, marks: set<char>) {
    forall i :: 0 <= i < |s| ==> s[i] !in marks
  }

  /** The index of the first character at or after `i` that is not a space. */
  function LeadEnd(s: string, i: nat): (k: nat)
    requires i <= |s|
    ensures i <= k <= |s|
    ensures forall j :: i <= j < k ==> IsSpace(s[j])
    ensures k < |s| ==> !IsSpace(s[k])
    decreases |s| - i
  {
    if i < |s| && IsSpace(s[i]) then LeadEnd(s, i + 1) else i
  }

  /** The index after the last character before `j` that is not a space. */
  function TrailStart(s: string, j: nat): (k: nat)
    requires j <= |s|
    ensures k <= j
    ensures forall i :: k <= i < j ==> IsSpace(s[i])
    ensures k > 0 ==> !IsSpace(s[k - 1])
    decreases j
  {
    if j > 0 && IsSpace(s[j - 1]) then TrailStart(s, j - 1) else j
  }

  /** `s.trimStart()`: the maximal all-space prefix is dropped. */
  function TrimStart(s: string): (r: string)
    ensures |r| <= |s| && r == s[|s| - |r|..]
    ensures forall i :: 0 <= i < |s| - |r| ==> IsSpace(s[i])
    ensures |r| > 0 ==> !IsSpace(r[0])
  {
    s[LeadEnd(s, 0)..]
  }

  /** `s.trimEnd()`: the maximal all-space suffix is dropped. */
  function TrimEnd(s: string): (r: string)
    ensures |r| <= |s| && r == s[..|r|]
    ensures forall i :: |r| <= i < |s| ==> IsSpace(s[i])
    ensures |r| > 0 ==> !IsSpace(r[|r| - 1])
  {
    s[..TrailStart(s, |s|)]
  }

  /** A suffix of `s` after an all-space prefix that starts with a non-space is `TrimStart(s)`. */
  lemma TrimStartUnique(s: string, k: nat)
    requires k <= |s|
    requires forall i :: 0 <= i < k ==> IsSpace(s[i])
    requires k < |s| ==> !IsSpace(s[k])
    ensures TrimStart(s) == s[k..]
  {
    var n := |s| - |TrimStart(s)|;
    assert n < |s| ==> !IsSpace(s[n]);
  }

  /** A leading space is dropped by `TrimStart`. */
  lemma TrimStartSkip(s: string)
    requires |s| > 0 && IsSpace(s[0])
    ensures TrimStart(s) == TrimStart(s[1..])
  {
    var t := s[1..];
    var k := |t| - |TrimStart(t)|;
    assert forall i :: 1 <= i < k + 1 ==> s[i] == t[i - 1];
    TrimStartUnique(s, k + 1);
    assert s[k + 1..] == t[k..];
  }

  /** A string starting with a non-space is its own `TrimStart`. */
  lemma TrimStartKeep(s: string)
    requires |s| == 0 || !IsSpace(s[0])
    ensures TrimStart(s) == s
  {
    TrimStartUnique(s, 0);
  }

  /** Number of leading space characters of `s`. */
  function Lead(s: string): nat {
    |s| - |TrimStart(s)|
  }

  /** `s.trim()`: `s` with its maximal leading and trailing space runs removed. */
  function Trim(s: string): (r: string)
    ensures Lead(s) + |r| <= |s| && r == s[Lead(s)..Lead(s) + |r|]
    ensures forall i :: 0 <= i < Lead(s) ==> IsSpace(s[i])
    ensures forall i :: Lead(s) + |r| <= i < |s| ==> IsSpace(s[i])
    ensures |r| > 0 ==> !IsSpace(r[0]) && !IsSpace(r[|r| - 1])
    ensures r == [] <==> AllSpace(s)
  {
    TrimIsSlice(s);
    TrimLeading(s);
    TrimTrailingOf(s);
    TrimEndsOf(s);
    TrimEmptyOf(s);
    TrimEnd(TrimStart(s))
  }

  lemma TrimIsSlice(s: string)
    ensures Lead(s) + |TrimEnd(TrimStart(s))| <= |s|
    ensures TrimEnd(TrimStart(s)) == s[Lead(s)..Lead(s) + |TrimEnd(TrimStart(s))|]
  {
    var t := TrimStart(s);
    TrimSlice(s, t, TrimEnd(t), |s| - |t|);
  }

  lemma TrimLeading(s: string)
    ensures forall i :: 0 <= i < Lead(s) ==> IsSpace(s[i])
  {
  }

  lemma TrimTrailingOf(s: string)
    ensures forall i :: Lead(s) + |TrimEnd(TrimStart(s))| <= i < |s| ==> IsSpace(s[i])
  {
    var t := TrimStart(s);
    TrimTrailing(s, t, TrimEnd(t), |s| - |t|);
  }

  lemma TrimEndsOf(s: string)
    ensures var r := TrimEnd(TrimStart(s));
      |r| > 0 ==> !IsSpace(r[0]) && !IsSpace(r[|r| - 1])
  {
    TrimEnds(s, TrimStart(s), TrimEnd(TrimStart(s)));
  }

  lemma TrimEmptyOf(s: string)
    ensures TrimEnd(TrimStart(s)) == [] <==> AllSpace(s)
  {
    TrimEmpty(s, TrimStart(s), TrimEnd(TrimStart(s)));
  }

  lemma TrimSlice(s: string, t: string, r: string, k: nat)
    requires k + |t| == |s| && t == s[k..]
    requires |r| <= |t| && r == t[..|r|]
    ensures r == s[k..k + |r|]
  {
    assert forall i :: 0 <= i < |r| ==> r[i] == t[i] == s[k + i];
  }

  lemma TrimTrailing(s: string, t: string, r: string, k: nat)
    requires k + |t| == |s| && t == s[k..]
    requires forall i :: |r| <= i < |t| ==> IsSpace(t[i])
    ensures forall i :: k + |r| <= i < |s| ==> IsSpace(s[i])
  {
    forall i | k + |r| <= i < |s|
      ensures IsSpace(s[i])
    {
      assert s[i] == t[i - k];
    }
  }

  lemma TrimEnds(s: string, t: string, r: string)
    requires t == TrimStart(s) && r == TrimEnd(t)
    ensures |r| > 0 ==> !IsSpace(r[0]) && !IsSpace(r[|r| - 1])
  {
    assert |r| > 0 ==> r[0] == t[0];
  }

  lemma TrimEmpty(s: string, t: string, r: string)
    requires t == TrimStart(s) && r == TrimEnd(t)
    ensures r == [] <==> AllSpace(s)
  {
    var k := |s| - |t|;
    assert t == s[k..];
    assert |t| > 0 ==> t[0] == s[k] && !IsSpace(t[0]);
    assert |t| > 0 ==> |r| > 0;
  }

  /** A string with no space at either end is its own trim. */
  lemma TrimNoSpaceEnds(s: string)
    requires |s| > 0 && !IsSpace(s[0]) && !IsSpace(s[|s| - 1])
    ensures Trim(s) == s
  {
    assert Lead(s) == 0;
  }

  /** Adjacent slices concatenate. */
  lemma SliceConcat(s: string, a: nat, b: nat, c: nat)
    requires a <= b <= c <= |s|
    ensures s[a..c] == s[a..b] + s[b..c]
  {
    assert forall k :: 0 <= k < c - a ==> s[a..c][k] == (s[a..b] + s[b..c])[k];
  }

  /** `p` occurs in `s` at index `i`. */
  predicate OccursAt(s: string, p: string, i: int) {
    0 <= i && i + |p| <= |s| && s[i..i + |p|] == p
  }

  /** `s.startsWith(p)` */
  predicate StartsWith(s: string, p: string) {
    OccursAt(s, p, 0)
  }

  /** `s.indexOf(p, from)` for a non-empty pattern: the first occurrence at or after `from`. */
  function FindFrom(s: string, p: string, from: nat): (r: Option<nat>)
    ensures r.Some? ==> from <= r.value && OccursAt(s, p, r.value)
    ensures r.Some? ==> forall j :: from <= j < r.value ==> !OccursAt(s, p, j)
    ensures r.None? ==> forall j :: from <= j ==> !OccursAt(s, p, j)
    decreases |s| - from
  {
    if from + |p| > |s| then None
    else if OccursAt(s, p, from) then Some(from)
    else FindFrom(s, p, from + 1)
  }

  /** `s.includes(p)` */
  predicate Contains(s: string, p: string) {
    FindFrom(s, p, 0).Some?
  }

  /** `s.indexOf(c, from)` for a single character. */
  function IndexFrom(s: string, c: char, from: nat): (r: Option<nat>)
    ensures r.Some? ==> from <= r.value < |s| && s[r.value] == c
    ensures r.Some? ==> forall j :: from <= j < r.value ==> s[j] != c
    ensures r.None? ==> forall j :: from <= j < |s| ==> s[j] != c
    decreases |s| - from
  {
    if from >= |s| then None
    else if s[from] == c then Some(from)
    else IndexFrom(s, c, from + 1)
  }

  /** `s.lastIndexOf(c, at)` for a single character: the last occurrence at or before `at`. */
  function LastIndexUpTo(s: string, c: char, at: int): (r: Option<nat>)
    ensures r.Some? ==> r.value <= at && r.value < |s| && s[r.value] == c
    ensures r.Some? ==> forall j :: r.value < j <= at && j < |s| ==> s[j] != c
    ensures r.None? ==> forall j :: 0 <= j <= at && j < |s| ==> s[j] != c
    decreases at + 1
  {
    if at < 0 then None
    else if at >= |s| then LastIndexUpTo(s, c, |s| - 1)
    else if s[at] == c then Some(at)
    else LastIndexUpTo(s, c, at - 1)
  }

  /** `xs.join(sep)` */
  function JoinWith(xs: seq<string>, sep: string): string
    decreases |xs|
  {
    if |xs| == 0 then ""
    else if |xs| == 1 then xs[0]
    else xs[0] + sep + JoinWith(xs[1..], sep)
  }

  /** `s.split(c)` for a one-character separator: the pieces between the occurrences of `c`.
      As in JavaScript, the empty string splits into one empty piece. */
  function Split(s: string, c: char): (r: seq<string>)
    ensures |r| >= 1
    ensures forall i :: 0 <= i < |r| ==> c !in r[i]
    decreases |s|
  {
    match IndexFrom(s, c, 0)
    case None => [s]
    case Some(i) => [s[..i]] + Split(s[i + 1..], c)
  }

  /** Number of occurrences of `c` in `s`. */
  function Count(s: string, c: char): nat
    decreases |s|
  {
    if |s| == 0 then 0 else (if s[0] == c then 1 else 0) + Count(s[1..], c)
  }

  lemma {:induction false} CountSplit(s: string, c: char, i: nat)
    requires i < |s| && s[i] == c && c !in s[..i]
    ensures Count(s, c) == 1 + Count(s[i + 1..], c)
    decreases i
  {
    if i > 0 {
      assert s[0] != c by { assert s[0] == s[..i][0]; }
      assert s[1..][..i - 1] == s[1..i];
      assert c !in s[1..][..i - 1];
      CountSplit(s[1..], c, i - 1);
      assert s[1..][i..] == s[i + 1..];
    }
  }

  lemma {:induction false} CountAbsent(s: string, c: char)
    requires c !in s
    ensures Count(s, c) == 0
    decreases |s|
  {
    if |s| > 0 {
      assert s[1..] == s[1..];
      CountAbsent(s[1..], c);
    }
  }

  /** Splitting on `c` yields one more piece than `s` has occurrences of `c`. */
  lemma {:induction false} SplitLength(s: string, c: char)
    ensures |Split(s, c)| == Count(s, c) + 1
    decreases |s|
  {
    match IndexFrom(s, c, 0)
    case None =>
      CountAbsent(s, c);
    case Some(i) =>
      assert c !in s[..i];
      CountSplit(s, c, i);
      SplitLength(s[i + 1..], c);
  }

  /** Joining the pieces of a split with the separator gives back the original string. */
  lemma {:induction false} SplitJoin(s: string, c: char)
    ensures JoinWith(Split(s, c), [c]) == s
    decreases |s|
  {
    match IndexFrom(s, c, 0)
    case None =>
    case Some(i) =>
      var rest := Split(s[i + 1..], c);
      SplitJoin(s[i + 1..], c);
      assert Split(s, c) == [s[..i]] + rest;
      assert (Split(s, c))[1..] == rest;
      assert s == s[..i] + [c] + s[i + 1..];
  }

  /** Splitting a join of separator-free pieces gives back the pieces. */
  lemma {:induction false} JoinSplit(xs: seq<string>, c: char)
    requires |xs| >= 1
    requires forall i :: 0 <= i < |xs| ==> c !in xs[i]
    ensures Split(JoinWith(xs, [c]), c) == xs
    decreases |xs|
  {
    var s := JoinWith(xs, [c]);
    if |xs| == 1 {
    } else {
      var tail := JoinWith(xs[1..], [c]);
      assert s == xs[0] + [c] + tail;
      var k := |xs[0]|;
      assert s[k] == c;
      var r := IndexFrom(s, c, 0);
      assert r.Some? && r.value <= k;
      assert s[..k] == xs[0];
      assert s[k + 1..] == tail;
      JoinSplit(xs[1..], c);
      assert Split(s, c) == [xs[0]] + xs[1..];
    }
  }

  /** The last piece of `s.split(c)` is the text after the last `c`. */
  lemma {:induction false} SplitLastAfter(s: string, c: char, k: nat)
    requires k < |s| && s[k] == c
    requires forall j :: k < j < |s| ==> s[j] != c
    ensures Split(s, c)[|Split(s, c)| - 1] == s[k + 1..]
    decreases |s|
  {
    var i := IndexFrom(s, c, 0).value;
    var t := s[i + 1..];
    assert Split(s, c) == [s[..i]] + Split(t, c);
    if i == k {
      SplitWithoutSeparator(t, c);
    } else {
      SplitLastAfter(t, c, k - i - 1);
      assert t[k - i..] == s[k + 1..];
    }
  }

  /** A string without the separator splits into itself alone. */
  lemma SplitWithoutSeparator(s: string, c: char)
    requires forall j :: 0 <= j < |s| ==> s[j] != c
    ensures Split(s, c) == [s]
  {
    assert IndexFrom(s, c, 0).None?;
  }

  /** The last piece of a split when there is a separator at `k` and none after it. */
  lemma SplitLastAt(s: string, c: char, k: nat)
    requires LastIndexUpTo(s, c, |s| - 1) == Some(k)
    ensures Split(s, c)[|Split(s, c)| - 1] == s[k + 1..]
  {
    SplitLastAfter(s, c, k);
  }

  /** With no separator the split is the whole string. */
  lemma SplitWithout(s: string, c: char)
    requires LastIndexUpTo(s, c, |s| - 1).None?
    ensures Split(s, c) == [s]
  {
    SplitWithoutSeparator(s, c);
  }

  /** The lower-case form of one character, for the ASCII and Latin-1 capitals. */
  function LowerChar(c: char): char {
    if 'A' <= c <= 'Z' || ('\U{00C0}' <= c <= '\U{00DE}' && c != '\U{00D7}')
    then (c as int + 32) as char
    else c
  }

  /** `s.toLowerCase()` */
  function ToLower(s: string): (r: string)
    ensures |r| == |s|
    ensures forall i :: 0 <= i < |s| ==> r[i] == LowerChar(s[i])
  {
    seq(|s|, i requires 0 <= i < |s| => LowerChar(s[i]))
  }

  /** Lower-casing twice is lower-casing once. */
  lemma ToLowerIdempotent(s: string)
    ensures ToLower(ToLower(s)) == ToLower(s)
  {
  }

  /** Text without capitals (no ASCII capital and nothing from Latin-1 on) is its own lower case. */
  lemma ToLowerPlain(s: string)
    requires forall i :: 0 <= i < |s| ==> s[i] < 'A' || 'Z' < s[i] < '\U{00C0}'
    ensures ToLower(s) == s
  {
  }

  /** Lower-casing works character by character. */
  lemma ToLowerConcat(a: string, b: string)
    ensures ToLower(a + b) == ToLower(a) + ToLower(b)
  {
  }

  /** `t` is `s` with some (possibly none) of its characters from `marks` deleted, and nothing else changed. */
  predicate DeletesOnly(t: string, s: string, marks: set<char>)
    decreases |s|
  {
    if |s| == 0 then |t| == 0
    else
      || (s[0] in marks && DeletesOnly(t, s[1..], marks))
      || (|t| > 0 && t[0] == s[0] && DeletesOnly(t[1..], s[1..], marks))
  }

  lemma {:induction false} DeletesOnlyRefl(s: string, marks: set<char>)
    ensures DeletesOnly(s, s, marks)
    decreases |s|
  {
    if |s| > 0 {
      DeletesOnlyRefl(s[1..], marks);
    }
  }

  /** A string made only of marks may be deleted entirely. */
  lemma {:induction false} DeletesOnlyMarks(d: string, marks: set<char>)
    requires forall i :: 0 <= i < |d| ==> d[i] in marks
    ensures DeletesOnly([], d, marks)
    decreases |d|
  {
    if |d| > 0 {
      DeletesOnlyMarks(d[1..], marks);
    }
  }

  /** Deletion works piecewise on concatenations. */
  lemma {:induction false} DeletesOnlyConcat(t1: string, s1: string, t2: string, s2: string, marks: set<char>)
    requires DeletesOnly(t1, s1, marks) && DeletesOnly(t2, s2, marks)
    ensures DeletesOnly(t1 + t2, s1 + s2, marks)
    decreases |s1|
  {
    if |s1| == 0 {
      assert t1 + t2 == t2 && s1 + s2 == s2;
    } else {
      assert (s1 + s2)[0] == s1[0] && (s1 + s2)[1..] == s1[1..] + s2;
      if s1[0] in marks && DeletesOnly(t1, s1[1..], marks) {
        DeletesOnlyConcat(t1, s1[1..], t2, s2, marks);
      } else {
        DeletesOnlyConcat(t1[1..], s1[1..], t2, s2, marks);
        assert (t1 + t2)[0] == t1[0] && (t1 + t2)[1..] == t1[1..] + t2;
      }
    }
  }

  /** Two rounds of deleting marks are one round of deleting marks. */
  lemma {:induction false} DeletesOnlyTrans(a: string, b: string, c: string, marks: set<char>)
    requires DeletesOnly(a, b, marks) && DeletesOnly(b, c, marks)
    ensures DeletesOnly(a, c, marks)
    decreases |c|
  {
    if |c| > 0 {
      if c[0] in marks && DeletesOnly(b, c[1..], marks) {
        DeletesOnlyTrans(a, b, c[1..], marks);
      } else {
        assert |b| > 0 && b[0] == c[0] && DeletesOnly(b[1..], c[1..], marks);
        if b[0] in marks && DeletesOnly(a, b[1..], marks) {
          DeletesOnlyTrans(a, b[1..], c[1..], marks);
        } else {
          DeletesOnlyTrans(a[1..], b[1..], c[1..], marks);
        }
      }
    }
  }

  /** A string with no marks in it can only be "deleted" to itself. */
  lemma {:induction false} DeletesOnlyAvoids(t: string, s: string, marks: set<char>)
    requires Avoids(s, marks) && DeletesOnly(t, s, marks)
    ensures t == s
    decreases |s|
  {
    if |s| > 0 {
      assert s[0] !in marks;
      DeletesOnlyAvoids(t[1..], s[1..], marks);
      assert t == [t[0]] + t[1..];
    }
  }
}
