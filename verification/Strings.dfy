/**
 The JavaScript string operations the models share, on `seq<char>`: searching, splitting,
 joining, and cutting a text into the physical lines a line reader sees.
 */
module Strings {

  datatype Option<+T> = None | Some(value: T)

  datatype Result<+T, +E> = Ok(value: T) | Err(error: E)

  /** `text.indexOf(c, from)`: the first position at or after `from` that holds `c`, or -1. */
  function IndexOf(s: string, c: char, from: nat): (r: int)
    ensures r == -1 ==> forall k :: from <= k < |s| ==> s[k] != c
    ensures r != -1 ==> from <= r < |s| && s[r] == c && forall k :: from <= k < r ==> s[k] != c
    decreases if from < |s| then |s| - from else 0
  {
    if from >= |s| then -1
    else if s[from] == c then from
    else IndexOf(s, c, from + 1)
  }

  predicate StartsWith(s: string, prefix: string) {
    prefix <= s
  }

  predicate EndsWith(s: string, suffix: string) {
    |suffix| <= |s| && forall k :: 0 <= k < |suffix| ==> s[|s| - |suffix| + k] == suffix[k]
  }

  /** `text.split(c)`: the pieces between the occurrences of `c`; never empty. */
  function Split(s: string, c: char): (parts: seq<string>)
    ensures |parts| >= 1
    decreases |s|
  {
    var i := IndexOf(s, c, 0);
    if i == -1 then [s] else [s[..i]] + Split(s[i + 1..], c)
  }

  /** `parts.join(c)`. */
  function Join(parts: seq<string>, c: char): string {
    if |parts| == 0 then ""
    else if |parts| == 1 then parts[0]
    else parts[0] + [c] + Join(parts[1..], c)
  }

  lemma SplitFirst(u: string, c: char, rest: string)
    requires c !in u
    ensures Split(u, c) == [u]
    ensures Split(u + [c] + rest, c) == [u] + Split(rest, c)
  {
    var s := u + [c] + rest;
    assert s[|u|] == c;
    assert IndexOf(s, c, 0) == |u|;
    assert s[..|u|] == u && s[|u| + 1..] == rest;
  }

  /** No piece holds the separator. */
  lemma {:induction false} PiecesHoldNoSeparator(s: string, c: char)
    ensures Free(Split(s, c), c)
    decreases |s|
  {
    var i := IndexOf(s, c, 0);
    if i != -1 {
      PiecesHoldNoSeparator(s[i + 1..], c);
      FrontIsFree(s, c, i);
      FreeFirst(s[..i], Split(s[i + 1..], c), c);
    } else {
      FreeFirst(s, [], c);
      assert [s] + [] == [s];
    }
  }

  lemma FrontIsFree(s: string, c: char, i: nat)
    requires i == IndexOf(s, c, 0)
    ensures i < |s| && c !in s[..i]
  {
  }

  /** Joining what was split gives the text back. */
  lemma {:induction false} JoinOfSplit(s: string, c: char)
    ensures Join(Split(s, c), c) == s
    decreases |s|
  {
    var i := IndexOf(s, c, 0);
    if i != -1 {
      JoinOfSplit(s[i + 1..], c);
      assert s == s[..i] + [c] + s[i + 1..];
      var parts := Split(s, c);
      assert parts[1..] == Split(s[i + 1..], c);
    }
  }

  predicate Free(parts: seq<string>, c: char) {
    |parts| > 0 ==> c !in parts[0] && Free(parts[1..], c)
  }

  lemma {:induction false} FreeAt(parts: seq<string>, c: char, k: nat)
    requires k < |parts| && Free(parts, c)
    ensures c !in parts[k]
    decreases k
  {
    if k > 0 {
      FreeAt(parts[1..], c, k - 1);
    }
  }

  /** Splitting what was joined gives the pieces back, when none of them holds the separator. */
  lemma {:induction false} SplitOfJoin(parts: seq<string>, c: char)
    requires |parts| >= 1 && Free(parts, c)
    ensures Split(Join(parts, c), c) == parts
  {
    HeadAndTail(parts);
    if |parts| == 1 {
      SplitFirst(parts[0], c, "");
    } else {
      SplitOfJoin(parts[1..], c);
      SplitFirst(parts[0], c, Join(parts[1..], c));
    }
  }

  /** `text.replace(/pattern/g, '')` for a literal pattern. */
  function RemoveAll(s: string, pattern: string): string
    requires pattern != ""
    decreases |s|
  {
    if s == "" then ""
    else if pattern <= s then RemoveAll(s[|pattern|..], pattern)
    else [s[0]] + RemoveAll(s[1..], pattern)
  }

  // ---------- Physical lines ----------

  /** Where the line that starts at `from` ends: at the next newline, or at the end of the text. */
  function LineEnd(text: string, from: nat): (e: nat)
    requires from <= |text|
    ensures from <= e <= |text|
    decreases |text| - from
  {
    if from == |text| || text[from] == '\n' then from else LineEnd(text, from + 1)
  }

  lemma {:induction false} LineEndIs(text: string, from: nat)
    requires from <= |text|
    ensures var e := LineEnd(text, from);
      && (e < |text| ==> text[e] == '\n' && IndexOf(text, '\n', from) == e)
      && (e == |text| ==> IndexOf(text, '\n', from) == -1)
      && (forall k :: from <= k < e ==> text[k] != '\n')
    decreases |text| - from
  {
    if from < |text| && text[from] != '\n' {
      LineEndIs(text, from + 1);
    }
  }

  /** The line that starts at `from`. */
  function LineAt(text: string, from: nat): string
    requires from <= |text|
    decreases |text| - from
  {
    if from == |text| || text[from] == '\n' then "" else [text[from]] + LineAt(text, from + 1)
  }

  lemma {:induction false} LineAtIs(text: string, from: nat)
    requires from <= |text|
    ensures LineAt(text, from) == text[from..LineEnd(text, from)]
    decreases |text| - from
  {
    if from < |text| && text[from] != '\n' {
      LineAtIs(text, from + 1);
      assert text[from..LineEnd(text, from)] == [text[from]] + text[from + 1..LineEnd(text, from + 1)];
    }
  }

  /** The lines of a text from offset `from` on. */
  function Lines(text: string, from: nat): seq<string>
    decreases if from < |text| then |text| - from else 0
  {
    if from >= |text| then [] else [LineAt(text, from)] + Lines(text, LineEnd(text, from) + 1)
  }

  /** A text in which every line is ended by a newline. */
  function Unlines(lines: seq<string>): string {
    if |lines| == 0 then "" else lines[0] + "\n" + Unlines(lines[1..])
  }

  lemma FirstLine(text: string, from: nat, l: string, rest: string)
    requires from <= |text| && text[from..] == l + "\n" + rest && '\n' !in l
    ensures from < |text| && LineEnd(text, from) == from + |l| && LineAt(text, from) == l
    ensures text[from + |l| + 1..] == rest
  {
    var tail, e := text[from..], from + |l|;
    assert text[e] == tail[|l|] == '\n';
    assert forall k :: from <= k < e ==> text[k] == tail[k - from] == l[k - from];
    LineEndIs(text, from);
    LineAtIs(text, from);
    assert text[e + 1..] == tail[|l| + 1..];
  }

  lemma HeadAndTail<T>(s: seq<T>)
    requires |s| > 0
    ensures s == [s[0]] + s[1..]
  {
  }

  lemma Uncons<T>(s: seq<T>, p: nat, x: T, rest: seq<T>)
    requires p <= |s| && s[p..] == [x] + rest
    ensures p < |s| && s[p] == x && s[p + 1..] == rest
  {
    assert s[p] == s[p..][0];
    assert s[p + 1..] == s[p..][1..] == ([x] + rest)[1..] == rest;
  }

  /** The lines of a text made of newline-free lines are those lines. */
  lemma {:induction false} LinesOfUnlines(text: string, from: nat, lines: seq<string>)
    requires from <= |text| && text[from..] == Unlines(lines)
    requires Free(lines, '\n')
    ensures Lines(text, from) == lines
    decreases |lines|
  {
    if |lines| > 0 {
      FirstLine(text, from, lines[0], Unlines(lines[1..]));
      LinesOfUnlines(text, from + |lines[0]| + 1, lines[1..]);
      HeadAndTail(lines);
    }
  }

  lemma {:induction false} UnlinesAppend(a: seq<string>, b: seq<string>)
    ensures Unlines(a + b) == Unlines(a) + Unlines(b)
  {
    if |a| == 0 {
      assert a + b == b;
    } else {
      assert (a + b)[1..] == a[1..] + b;
      UnlinesAppend(a[1..], b);
    }
  }

  lemma {:induction false} LinesHoldNoNewline(text: string, from: nat)
    ensures Free(Lines(text, from), '\n')
    decreases if from < |text| then |text| - from else 0
  {
    if from < |text| {
      var e := LineEnd(text, from);
      LinesHoldNoNewline(text, e + 1);
      LineHoldsNoNewline(text, from);
      FreeFirst(LineAt(text, from), Lines(text, e + 1), '\n');
    }
  }

  lemma FreeFirst(l: string, rest: seq<string>, c: char)
    requires c !in l && Free(rest, c)
    ensures Free([l] + rest, c)
  {
    assert ([l] + rest)[1..] == rest;
  }

  lemma LineHoldsNoNewline(text: string, from: nat)
    requires from <= |text|
    ensures '\n' !in LineAt(text, from)
  {
    LineEndIs(text, from);
    LineAtIs(text, from);
  }

  /** The index behind the last line: the end of the text, or the newline it ends with. */
  function TextEnd(text: string): (e: nat)
    ensures e <= |text|
  {
    if text != "" && text[|text| - 1] == '\n' then |text| - 1 else |text|
  }

  /** The lines of a text, joined again, are the text up to a newline at its end. */
  lemma {:induction false} JoinOfLines(text: string, from: nat)
    requires from < |text|
    ensures Join(Lines(text, from), '\n') == text[from..TextEnd(text)]
    decreases |text| - from
  {
    var e := LineEnd(text, from);
    LineEndIs(text, from);
    LineAtIs(text, from);
    if e + 1 < |text| {
      JoinOfLines(text, e + 1);
      JoinFirst(text[from..e], Lines(text, e + 1), '\n');
      CutAt(text, from, e, TextEnd(text));
    }
  }

  lemma JoinFirst(first: string, rest: seq<string>, c: char)
    requires |rest| > 0
    ensures Join([first] + rest, c) == first + [c] + Join(rest, c)
  {
    assert ([first] + rest)[1..] == rest;
  }

  lemma CutAt(text: string, from: nat, e: nat, end: nat)
    requires from <= e < end <= |text|
    ensures text[from..end] == text[from..e] + [text[e]] + text[e + 1..end]
  {
  }

  lemma {:induction false} JoinOneMore(parts: seq<string>, c: char, last: string)
    requires |parts| > 0
    ensures Join(parts + [last], c) == Join(parts, c) + [c] + last
  {
    if |parts| > 1 {
      JoinOneMore(parts[1..], c, last);
      assert (parts + [last])[1..] == parts[1..] + [last];
      Associate4(parts[0] + [c], Join(parts[1..], c), [c], last);
    }
  }

  lemma Associate<T>(a: seq<T>, b: seq<T>, c: seq<T>)
    ensures a + (b + c) == a + b + c
  {
  }

  lemma Associate4(a: string, b: string, c: string, d: string)
    ensures a + (b + c + d) == a + b + c + d
    ensures a + b + (c + d) == a + (b + c + d)
  {
  }
}
