/**
 `app/src/lib/parse-carriage-return.ts`: folding carriage returns line by line, and the terminal it imitates,
 character by character.
 */
module CarriageReturn {
  import opened Strings

  // ---------- Folding ----------

  /** Writing `cur` over the beginning of `buf`. */
  function Overwrite(buf: string, cur: string): string {
    if |cur| >= |buf| then cur else cur + buf[|cur|..]
  }

  /** `parts.reduce(...)` with `buf` in front of the parts. */
  function Fold(buf: string, parts: seq<string>): string
    decreases parts
  {
    if |parts| == 0 then buf else Fold(Overwrite(buf, parts[0]), parts[1..])
  }

  /** A line has at least one part. */
  function FoldLine(line: string): string {
    var parts := Split(line, '\r');
    Fold(parts[0], parts[1..])
  }

  function FoldLines(lines: seq<string>): seq<string> {
    if |lines| == 0 then [] else [FoldLine(lines[0])] + FoldLines(lines[1..])
  }

  /** The text with every line folded. */
  function Folded(text: string): string {
    Join(FoldLines(Split(text, '\n')), '\n')
  }

  function ParseCarriageReturn(text: string): string {
    if IndexOf(text, '\r', 0) < 0 then text else Folded(text)
  }

  // ---------- The terminal ----------

  /** What is above the current line, the current line, and the column of the cursor. */
  datatype Screen = Screen(above: string, line: string, column: nat)

  function Feed(s: Screen, c: char): Screen {
    if c == '\r' then s.(column := 0)
    else if c == '\n' then Screen(s.above + s.line + "\n", "", 0)
    else if s.column < |s.line| then s.(line := s.line[s.column := c], column := s.column + 1)
    else s.(line := s.line + [c], column := s.column + 1)
  }

  /** The screen after the characters of the text from `k` on. */
  function Type(s: Screen, text: string, k: nat): Screen
    decreases |text| - k
  {
    if k >= |text| then s else Type(Feed(s, text[k]), text, k + 1)
  }

  function Shown(s: Screen): string {
    s.above + s.line
  }

  function Terminal(text: string): string {
    Shown(Type(Screen("", "", 0), text, 0))
  }

  // ---------- Refinement ----------

  /** Typing up to the next control character overwrites from the cursor on. */
  lemma {:induction false} TypePlain(s: Screen, text: string, k: nat, e: nat)
    requires k <= e <= |text| && s.column <= |s.line|
    requires forall j :: k <= j < e ==> text[j] != '\r' && text[j] != '\n'
    ensures Type(s, text, k) == Type(Written(s, text[k..e]), text, e)
    decreases e - k
  {
    if k == e {
      WriteNothing(s);
      assert text[k..e] == "";
    } else {
      TypePlain(Feed(s, text[k]), text, k + 1, e);
      assert text[k..e] == [text[k]] + text[k + 1..e];
      WriteOne(s, text[k], text[k + 1..e]);
    }
  }

  /** The screen after some characters were written at the cursor. */
  function Written(s: Screen, u: string): Screen
    requires s.column <= |s.line|
  {
    var end := s.column + |u|;
    Screen(s.above, s.line[..s.column] + u + (if end < |s.line| then s.line[end..] else ""), end)
  }

  lemma WriteNothing(s: Screen)
    requires s.column <= |s.line|
    ensures Written(s, "") == s
  {
    assert Written(s, "").line == s.line;
  }

  lemma WriteOne(s: Screen, c: char, u: string)
    requires s.column <= |s.line| && c != '\r' && c != '\n'
    ensures Feed(s, c).column <= |Feed(s, c).line| && Written(Feed(s, c), u) == Written(s, [c] + u)
  {
    assert Written(Feed(s, c), u).line == Written(s, [c] + u).line;
  }

  /** From column 0 that is what the fold does. */
  lemma WrittenIsOverwrite(s: Screen, u: string)
    requires s.column == 0
    ensures Written(s, u).above == s.above && Written(s, u).line == Overwrite(s.line, u)
  {
  }

  /** Splitting the text from `k` up to `e` cuts it at `r`, the first separator, or not at all. */
  ghost predicate CutsAt(text: string, k: nat, e: nat, c: char, r: nat) {
    && k <= r <= e <= |text| && (forall j :: k <= j < r ==> text[j] != c)
    && (r < e ==> text[r] == c)
    && Split(text[k..e], c) == if r == e then [text[k..e]] else [text[k..r]] + Split(text[r + 1..e], c)
  }

  lemma FirstCut(text: string, k: nat, e: nat, c: char) returns (r: nat)
    requires k <= e <= |text|
    ensures CutsAt(text, k, e, c, r)
  {
    var i := IndexOf(text[k..e], c, 0);
    r := if i == -1 then e else k + i;
    NoneBefore(text, k, e, text[k..e], c, r);
    SplitAtFirst(text[k..e], c);
    if i != -1 {
      PiecesOf(text, k, e, i);
    }
  }

  lemma NoneBefore(text: string, k: nat, e: nat, line: string, c: char, r: nat)
    requires k <= e <= |text| && line == text[k..e]
    requires r == if IndexOf(line, c, 0) == -1 then e else k + IndexOf(line, c, 0)
    ensures k <= r <= e && (r < e ==> text[r] == c) && forall j :: k <= j < r ==> text[j] != c
  {
    forall j | k <= j < e ensures text[j] == line[j - k] {
    }
  }

  lemma SplitAtFirst(line: string, c: char)
    ensures var i := IndexOf(line, c, 0);
      Split(line, c) == if i == -1 then [line] else [line[..i]] + Split(line[i + 1..], c)
  {
  }

  lemma PiecesOf(text: string, k: nat, e: nat, i: nat)
    requires k + i < e <= |text|
    ensures text[k..e][..i] == text[k..k + i] && text[k..e][i + 1..] == text[k + i + 1..e]
  {
  }

  /** One line from `k` up to `e`: the terminal shows the fold of its parts. */
  lemma {:induction false} TypeLine(s: Screen, text: string, k: nat, e: nat) returns (s': Screen)
    requires k <= e <= |text| && s.column == 0 && forall j :: k <= j < e ==> text[j] != '\n'
    ensures Type(s, text, k) == Type(s', text, e)
    ensures s'.above == s.above && s'.line == Fold(s.line, Split(text[k..e], '\r'))
    decreases e - k
  {
    var r := FirstCut(text, k, e, '\r');
    var w := TypePart(s, text, k, r);
    if r == e {
      s' := w;
      FoldOne(s.line, text[k..e]);
    } else {
      s' := TypeLine(w.(column := 0), text, r + 1, e);
      FoldFirst(s.line, text[k..r], Split(text[r + 1..e], '\r'));
    }
  }

  /** One part of a line. */
  lemma TypePart(s: Screen, text: string, k: nat, r: nat) returns (w: Screen)
    requires k <= r <= |text| && s.column == 0
    requires (forall j :: k <= j < r ==> text[j] != '\n') && (forall j :: k <= j < r ==> text[j] != '\r')
    ensures Type(s, text, k) == Type(w, text, r)
    ensures w.above == s.above && w.line == Overwrite(s.line, text[k..r])
  {
    w := Written(s, text[k..r]);
    TypePlain(s, text, k, r);
    WrittenIsOverwrite(s, text[k..r]);
  }

  lemma FoldOne(buf: string, line: string)
    ensures Fold(buf, [line]) == Overwrite(buf, line)
  {
    assert [line][1..] == [];
  }

  lemma FoldFirst(buf: string, first: string, rest: seq<string>)
    ensures Fold(buf, [first] + rest) == Fold(Overwrite(buf, first), rest)
  {
    assert ([first] + rest)[1..] == rest;
  }

  /** Folding from an empty line is folding from the first part. */
  lemma FoldFromEmpty(line: string)
    ensures Fold("", Split(line, '\r')) == FoldLine(line)
  {
    var parts := Split(line, '\r');
    HeadAndTail(parts);
    FoldFirst("", parts[0], parts[1..]);
  }

  /** From the start of a line on, the terminal shows the folded lines. */
  ghost predicate ShowsFolded(above: string, text: string, k: nat)
    requires k <= |text|
  {
    Shown(Type(Screen(above, "", 0), text, k)) == above + Join(FoldLines(Split(text[k..|text|], '\n')), '\n')
  }

  lemma {:induction false} TypeLines(above: string, text: string, k: nat)
    requires k <= |text|
    ensures ShowsFolded(above, text, k)
    decreases |text| - k
  {
    var r := FirstCut(text, k, |text|, '\n');
    var s := TypeLine(Screen(above, "", 0), text, k, r);
    FoldFromEmpty(text[k..r]);
    if r == |text| {
      LastLine(text[k..r]);
    } else {
      TypeLines(s.above + s.line + "\n", text, r + 1);
      FirstOfLines(text[k..r], Split(text[r + 1..|text|], '\n'), above);
    }
  }

  lemma LastLine(line: string)
    ensures Join(FoldLines([line]), '\n') == FoldLine(line)
  {
    assert FoldLines([line]) == [FoldLine(line)];
  }

  lemma FirstOfLines(line: string, rest: seq<string>, above: string)
    requires |rest| > 0
    ensures above + Join(FoldLines([line] + rest), '\n') == above + FoldLine(line) + "\n" + Join(FoldLines(rest), '\n')
  {
    assert ([line] + rest)[1..] == rest;
    JoinFirst(FoldLine(line), FoldLines(rest), '\n');
    Associate4(above, FoldLine(line), "\n", Join(FoldLines(rest), '\n'));
  }

  /** Without a carriage return the fold is the text itself: the fast path agrees with it. */
  lemma {:induction false} FoldWithoutReturn(lines: seq<string>)
    requires Free(lines, '\r')
    ensures FoldLines(lines) == lines
  {
    if |lines| > 0 {
      FoldWithoutReturn(lines[1..]);
      HeadAndTail(lines);
      assert IndexOf(lines[0], '\r', 0) == -1;
    }
  }

  lemma {:induction false} SplitIsFree(text: string, c: char, d: char)
    requires d !in text
    ensures Free(Split(text, c), d)
    decreases |text|
  {
    var i := IndexOf(text, c, 0);
    if i == -1 {
      assert [text][1..] == [];
    } else {
      SplitIsFree(text[i + 1..], c, d);
      FreeFirst(text[..i], Split(text[i + 1..], c), d);
    }
  }

  lemma FastPathAgrees(text: string)
    requires IndexOf(text, '\r', 0) < 0
    ensures Folded(text) == text
  {
    SplitIsFree(text, '\n', '\r');
    FoldWithoutReturn(Split(text, '\n'));
    JoinOfSplit(text, '\n');
  }

  /** For every text, what is parsed is what a terminal shows. */
  lemma ParsedIsShown(text: string)
    ensures ParseCarriageReturn(text) == Terminal(text)
  {
    TypeLines("", text, 0);
    assert text[0..|text|] == text;
    var folded := Join(FoldLines(Split(text, '\n')), '\n');
    assert "" + folded == folded;
    if IndexOf(text, '\r', 0) < 0 {
      FastPathAgrees(text);
    }
  }
}
