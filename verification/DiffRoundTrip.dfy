/**
 The parser reads back what the formatter prints: the same hunks, with the same headers, lines and
 flags. So what was proved of the patch as hunks holds of its text.
 */
module DiffRoundTrip {
  import opened Strings
  import opened Decimal
  import opened UnifiedDiff
  import opened PatchFormatter
  import opened PartialPatch
  import opened DiffParsing
  import opened ParsedDiff
  import opened DiffGrammar

  // ---------- Hunk headers ----------

  function NumeralOfCount(count: nat): string {
    if count == 1 then "" else Numeral(count)
  }

  lemma NumeralIsRead(n: nat)
    ensures IsDigits(Numeral(n)) && Value(Numeral(n), 0, |Numeral(n)|) == n
  {
    assert Numeral(n)[0..|Numeral(n)|] == Numeral(n);
    ValueOfNumeral(n, Numeral(n), 0);
  }

  /** A printed hunk header, whatever its heading, is parsed as itself: also where a count of 1 is left out. */
  lemma HunkHeaderRoundTrip(h: HunkHeader, heading: string)
    ensures ParseHunkHeader(HunkHeaderLine(h, heading)) == Ok(h)
  {
    var a, b := Numeral(h.oldStartLine), NumeralOfCount(h.oldLineCount);
    var c, d := Numeral(h.newStartLine), NumeralOfCount(h.newLineCount);
    NumeralIsRead(h.oldStartLine);
    NumeralIsRead(h.oldLineCount);
    NumeralIsRead(h.newStartLine);
    NumeralIsRead(h.newLineCount);
    RangeIs(h.oldStartLine, h.oldLineCount, "@@ -");
    RangeIs(h.newStartLine, h.newLineCount, "@@ -" + a + CountText(b) + " +");
    HeaderAccepted(HunkHeaderLine(h, heading), a, b, c, d, if heading == "" then "" else " " + heading);
  }

  lemma RangeIs(start: nat, count: nat, front: string)
    ensures front + FormatRange(start, count) == front + Numeral(start) + CountText(NumeralOfCount(count))
  {
    if count != 1 {
      Associate(Numeral(start), ",", Numeral(count));
    }
    Associate(front, Numeral(start), CountText(NumeralOfCount(count)));
    assert Numeral(start) + "" == Numeral(start);
  }

  /** A count is printed, behind a comma, exactly if it is not 1; a heading comes last, behind a space. */
  lemma HunkHeaderIsShort(h: HunkHeader, heading: string)
    ensures ',' in FormatRange(h.oldStartLine, h.oldLineCount) <==> h.oldLineCount != 1
    ensures ',' in FormatRange(h.newStartLine, h.newLineCount) <==> h.newLineCount != 1
    ensures var line := HunkHeaderLine(h, heading);
      var end := if heading == "" then " @@" else " @@ " + heading;
      |end| <= |line| && line[|line| - |end|..] == end
  {
    NumeralIsRead(h.oldStartLine);
    NumeralIsRead(h.newStartLine);
    var line := HunkHeaderLine(h, heading);
    var end := if heading == "" then " @@" else " @@ " + heading;
    var front := "@@ -" + FormatRange(h.oldStartLine, h.oldLineCount)
                 + " +" + FormatRange(h.newStartLine, h.newLineCount);
    assert line == front + end;
  }

  // ---------- Printed lines ----------

  /** A line that can be printed: a newline-free line with the prefix of its kind. */
  predicate WellFormed(l: PatchLine) {
    l.kind != Hunk && l.text != "" && l.text[0] == PrefixChar(l.kind) && '\n' !in l.text
  }

  predicate WellFormedBody(body: seq<PatchLine>) {
    |body| > 0 ==> WellFormed(body[0]) && WellFormedBody(body[1..])
  }

  /** Every hunk has a line, and every line is well-formed. */
  predicate WellFormedPatch(patch: seq<PatchHunk>) {
    |patch| > 0 ==> patch[0].body != [] && WellFormedBody(patch[0].body) && WellFormedPatch(patch[1..])
  }

  /** The physical lines of a printed body, and `rest` behind them. */
  function BodyLines(body: seq<PatchLine>, rest: seq<string>): seq<string> {
    if |body| == 0 then rest
    else
      var behind := BodyLines(body[1..], rest);
      [body[0].text] + (if body[0].noEol then [NO_NEWLINE_MARKER] + behind else behind)
  }

  function PatchLines(patch: seq<PatchHunk>): seq<string> {
    if |patch| == 0 then []
    else [HunkHeaderLine(patch[0].header, "")] + BodyLines(patch[0].body, PatchLines(patch[1..]))
  }

  /** The printed body is the text of those lines. */
  lemma {:induction false} BodyTextIs(body: seq<PatchLine>, rest: seq<string>)
    ensures Unlines(BodyLines(body, rest)) == BodyText(body) + Unlines(rest)
  {
    if |body| == 0 {
      EmptyText(Unlines(rest));
    } else {
      BodyTextIs(body[1..], rest);
      LineTextIs(body[0], BodyLines(body[1..], rest));
      Associate(LineText(body[0]), BodyText(body[1..]), Unlines(rest));
    }
  }

  lemma LineTextIs(l: PatchLine, behind: seq<string>)
    ensures Unlines([l.text] + (if l.noEol then [NO_NEWLINE_MARKER] + behind else behind))
         == LineText(l) + Unlines(behind)
  {
    if l.noEol {
      UnlinesFirst(l.text, [NO_NEWLINE_MARKER] + behind);
      UnlinesFirst(NO_NEWLINE_MARKER, behind);
      Associate(l.text + "\n", NO_NEWLINE_MARKER + "\n", Unlines(behind));
    } else {
      UnlinesFirst(l.text, behind);
    }
  }

  lemma UnlinesFirst(l: string, rest: seq<string>)
    ensures Unlines([l] + rest) == l + "\n" + Unlines(rest)
  {
    assert ([l] + rest)[1..] == rest;
  }

  lemma {:induction false} PatchTextIs(patch: seq<PatchHunk>)
    ensures Unlines(PatchLines(patch)) == PatchText(patch)
  {
    if |patch| > 0 {
      var header, rest := HunkHeaderLine(patch[0].header, ""), PatchLines(patch[1..]);
      PatchTextIs(patch[1..]);
      BodyTextIs(patch[0].body, rest);
      UnlinesFirst(header, BodyLines(patch[0].body, rest));
      Associate(header + "\n", BodyText(patch[0].body), Unlines(rest));
    }
  }

  // ---------- Reading a printed hunk ----------

  lemma {:induction false} BodySnoc(lines: seq<DiffLine>, l: DiffLine, n: nat)
    requires n <= |lines| && l.kind != Hunk
    ensures Body(lines + [l], n) == Body(lines, n) + [AsPatchLine(l)]
    decreases |lines| - n
  {
    if n == |lines| {
      assert Body(lines + [l], n + 1) == [];
      assert [AsPatchLine(l)] + [] == [] + [AsPatchLine(l)];
    } else {
      BodySnoc(lines, l, n + 1);
      Associate([AsPatchLine(lines[n])], Body(lines, n + 1), [AsPatchLine(l)]);
    }
  }

  /** The line of the diff that a printed line is read as. */
  function LineRead(l: PatchLine, c: Counters): DiffLine
    requires l.text != ""
  {
    MakeLine(l.text, c.(number := c.number + 1)).(noTrailingNewLine := l.noEol)
  }

  /** What is known of the lines of a hunk after one more printed line was read. */
  function After(s: BodyState, l: PatchLine): BodyState
    requires l.text != ""
  {
    var c := Advance(s.c.(number := s.c.number + 1), l.kind);
    BodyState(s.lines + [LineRead(l, s.c)], if l.noEol then c.(number := c.number + 1) else c)
  }

  lemma LineReadIs(l: PatchLine, c: Counters)
    requires WellFormed(l)
    ensures AsPatchLine(LineRead(l, c)) == l
  {
  }

  lemma MarkLast(lines: seq<DiffLine>, l: DiffLine)
    ensures Mark(lines + [l]) == lines + [l.(noTrailingNewLine := true)]
  {
  }

  lemma StateAfter(s: BodyState, l: PatchLine)
    requires WellFormed(l) && |s.lines| > 0
    ensures InBody(l.text) && InBody(NO_NEWLINE_MARKER)
    ensures ReadBodyLine(l.text, s).Ok?
    ensures !l.noEol ==> ReadBodyLine(l.text, s) == Ok(After(s, l))
    ensures l.noEol ==> ReadBodyLine(NO_NEWLINE_MARKER, ReadBodyLine(l.text, s).value) == Ok(After(s, l))
  {
    MarkLast(s.lines, MakeLine(l.text, s.c.(number := s.c.number + 1)));
  }

  lemma ReadsLine(lines: seq<string>, p: nat, s: BodyState, l: PatchLine, behind: seq<string>) returns (p': nat)
    requires WellFormed(l) && |s.lines| > 0 && p <= |lines|
    requires lines[p..] == [l.text] + (if l.noEol then [NO_NEWLINE_MARKER] + behind else behind)
    ensures p' <= |lines| && lines[p'..] == behind
    ensures ReadBody(lines, p, s) == ReadBody(lines, p', After(s, l))
  {
    StateAfter(s, l);
    p' := p + 1;
    if l.noEol {
      Uncons(lines, p, l.text, [NO_NEWLINE_MARKER] + behind);
      Uncons(lines, p + 1, NO_NEWLINE_MARKER, behind);
      p' := p + 2;
    } else {
      Uncons(lines, p, l.text, behind);
    }
  }

  lemma {:induction false} ReadsBody(lines: seq<string>, p: nat, s: BodyState, body: seq<PatchLine>, rest: seq<string>)
    requires WellFormedBody(body) && |s.lines| > 0 && p <= |lines|
    requires lines[p..] == BodyLines(body, rest)
    requires |rest| > 0 ==> !InBody(rest[0])
    ensures ReadBody(lines, p, s).Ok?
    ensures var (out, p') := ReadBody(lines, p, s).value;
      lines[p'..] == rest && Body(out, 0) == Body(s.lines, 0) + body && |out| == |s.lines| + |body|
    decreases |body|
  {
    if |body| == 0 {
      if p < |lines| {
        assert lines[p] == lines[p..][0];
      }
      assert Body(s.lines, 0) + [] == Body(s.lines, 0);
    } else {
      var p' := ReadsLine(lines, p, s, body[0], BodyLines(body[1..], rest));
      LineReadIs(body[0], s.c);
      BodySnoc(s.lines, LineRead(body[0], s.c), 0);
      ReadsBody(lines, p', After(s, body[0]), body[1..], rest);
      HeadAndTail(body);
      Associate(Body(s.lines, 0), [body[0]], body[1..]);
    }
  }

  function AsPatchHunk(h: DiffHunk): PatchHunk {
    PatchHunk(h.header, Body(h.lines, 0))
  }

  lemma ReadsHunk(lines: seq<string>, p: nat, linesConsumed: nat, h: PatchHunk, rest: seq<string>)
    returns (read: DiffHunk, p': nat)
    requires h.body != [] && WellFormedBody(h.body) && p <= |lines|
    requires lines[p..] == [HunkHeaderLine(h.header, "")] + BodyLines(h.body, rest)
    requires |rest| > 0 ==> !InBody(rest[0])
    ensures ReadHunk(lines, p, linesConsumed) == Ok((read, p')) && AsPatchHunk(read) == h
    ensures p' <= |lines| && lines[p'..] == rest
  {
    var headerLine := HunkHeaderLine(h.header, "");
    var s := StartBody(headerLine, h.header, linesConsumed);
    Uncons(lines, p, headerLine, BodyLines(h.body, rest));
    StartIsEmpty(headerLine, h.header, linesConsumed, h.body);
    ReadsBody(lines, p + 1, s, h.body, rest);
    HunkHeaderRoundTrip(h.header, "");
    HeaderStarts(h.header);
    var result := ReadBody(lines, p + 1, s).value;
    var out := result.0;
    p' := result.1;
    read := DiffHunk(h.header, out, linesConsumed, linesConsumed + |out| - 1);
    ReadHunkIs(lines, p, linesConsumed, h.header, out, p');
  }

  lemma HeaderStarts(h: HunkHeader)
    ensures HunkHeaderLine(h, "") != "" && HunkHeaderLine(h, "")[0] == '@'
  {
  }

  lemma StartIsEmpty(headerLine: string, header: HunkHeader, linesConsumed: nat, body: seq<PatchLine>)
    ensures Body(StartBody(headerLine, header, linesConsumed).lines, 0) + body == body
  {
    assert Body(StartBody(headerLine, header, linesConsumed).lines, 1) == [];
  }

  lemma ReadHunkIs(lines: seq<string>, p: nat, linesConsumed: nat, header: HunkHeader, body: seq<DiffLine>, p': nat)
    requires p < |lines| && lines[p] != "" && ParseHunkHeader(lines[p]) == Ok(header)
    requires ReadBody(lines, p + 1, StartBody(lines[p], header, linesConsumed)) == Ok((body, p')) && |body| > 1
    ensures ReadHunk(lines, p, linesConsumed)
         == Ok((DiffHunk(header, body, linesConsumed, linesConsumed + |body| - 1), p'))
  {
  }

  lemma {:induction false} AsPatchSnoc(hunks: seq<DiffHunk>, h: DiffHunk, k: nat)
    requires k <= |hunks|
    ensures AsPatch(hunks + [h], k) == AsPatch(hunks, k) + [AsPatchHunk(h)]
    decreases |hunks| - k
  {
    if k == |hunks| {
      assert AsPatch(hunks + [h], k + 1) == [];
      assert [AsPatchHunk(h)] + [] == [] + [AsPatchHunk(h)];
    } else {
      AsPatchSnoc(hunks, h, k + 1);
      Associate([AsPatchHunk(hunks[k])], AsPatch(hunks, k + 1), [AsPatchHunk(h)]);
    }
  }

  /** The parser reads the lines of a printed patch as that patch. */
  lemma {:induction false} ReadsPatch(lines: seq<string>, p: nat, linesConsumed: nat, acc: seq<DiffHunk>,
                                      patch: seq<PatchHunk>)
    returns (hunks: seq<DiffHunk>)
    requires WellFormedPatch(patch) && patch != [] && p <= |lines| && lines[p..] == PatchLines(patch)
    ensures ReadHunks(lines, p, linesConsumed, acc) == Ok(hunks)
    ensures AsPatch(hunks, 0) == AsPatch(acc, 0) + patch
    decreases |patch|
  {
    var rest := patch[1..];
    PatchStarts(rest);
    var h, p' := ReadsHunk(lines, p, linesConsumed, patch[0], PatchLines(rest));
    HunksStep(lines, p, linesConsumed, acc, h, p', Ok(acc + [h]), linesConsumed + |h.lines|);
    if rest == [] {
      hunks := acc + [h];
    } else {
      hunks := ReadsPatch(lines, p', linesConsumed + |h.lines|, acc + [h], rest);
    }
    OneMoreRead(acc, h, patch, hunks);
  }

  lemma PatchStarts(patch: seq<PatchHunk>)
    ensures |PatchLines(patch)| > 0 <==> |patch| > 0
    ensures |patch| > 0 ==> !InBody(PatchLines(patch)[0])
  {
    if |patch| > 0 {
      HeaderStarts(patch[0].header);
    }
  }

  lemma OneMoreRead(acc: seq<DiffHunk>, h: DiffHunk, patch: seq<PatchHunk>, hunks: seq<DiffHunk>)
    requires |patch| > 0 && AsPatchHunk(h) == patch[0]
    requires if |patch| == 1 then hunks == acc + [h] else AsPatch(hunks, 0) == AsPatch(acc + [h], 0) + patch[1..]
    ensures AsPatch(hunks, 0) == AsPatch(acc, 0) + patch
  {
    AsPatchSnoc(acc, h, 0);
    HeadAndTail(patch);
    Associate(AsPatch(acc, 0), [patch[0]], patch[1..]);
    if |patch| == 1 {
      assert [patch[0]] == patch;
    }
  }

  // ---------- The printed text ----------

  predicate PlainPath(path: Option<string>) {
    path.Some? ==> '\n' !in path.value
  }

  lemma HeaderIsRead(from: Option<string>, to: Option<string>, rest: seq<string>)
    ensures ReadDiffHeader(FileHeaderLines(from, to) + rest, 0) == (Textual, 2)
  {
    var lines := FileHeaderLines(from, to) + rest;
    assert lines[0][0] == '-' && lines[0][1] == '-';
    assert lines[1][0] == '+' && lines[1][1] == '+' && lines[1][2] == '+';
    assert HeaderLineInfo(lines[0]) == None;
    assert "+++" <= lines[1];
    assert HeaderLineInfo(lines[1]) == Some(Textual);
    assert ReadDiffHeader(lines, 1) == (Textual, 2);
  }

  lemma HeaderLinesAreFree(from: Option<string>, to: Option<string>)
    requires PlainPath(from) && PlainPath(to)
    ensures Free(FileHeaderLines(from, to), '\n')
  {
    var lines := FileHeaderLines(from, to);
    assert lines[1..][1..] == [];
  }

  lemma {:induction false} NumeralHoldsNoNewline(n: nat)
    ensures '\n' !in Numeral(n)
  {
    if n >= 10 {
      NumeralHoldsNoNewline(n / 10);
    }
  }

  lemma HunkHeaderHoldsNoNewline(h: HunkHeader)
    ensures '\n' !in HunkHeaderLine(h, "")
  {
    NumeralHoldsNoNewline(h.oldStartLine);
    NumeralHoldsNoNewline(h.oldLineCount);
    NumeralHoldsNoNewline(h.newStartLine);
    NumeralHoldsNoNewline(h.newLineCount);
  }

  lemma {:induction false} BodyLinesAreFree(body: seq<PatchLine>, rest: seq<string>)
    requires WellFormedBody(body) && Free(rest, '\n')
    ensures Free(BodyLines(body, rest), '\n')
  {
    if |body| > 0 {
      var behind := BodyLines(body[1..], rest);
      BodyLinesAreFree(body[1..], rest);
      FreeFirst(NO_NEWLINE_MARKER, behind, '\n');
      FreeFirst(body[0].text, if body[0].noEol then [NO_NEWLINE_MARKER] + behind else behind, '\n');
    }
  }

  lemma {:induction false} PatchLinesAreFree(patch: seq<PatchHunk>)
    requires WellFormedPatch(patch)
    ensures Free(PatchLines(patch), '\n')
  {
    if |patch| > 0 {
      var rest := PatchLines(patch[1..]);
      PatchLinesAreFree(patch[1..]);
      BodyLinesAreFree(patch[0].body, rest);
      HunkHeaderHoldsNoNewline(patch[0].header);
      FreeFirst(HunkHeaderLine(patch[0].header, ""), BodyLines(patch[0].body, rest), '\n');
    }
  }

  lemma {:induction false} FreeAppend(a: seq<string>, b: seq<string>, c: char)
    requires Free(a, c) && Free(b, c)
    ensures Free(a + b, c)
  {
    if |a| == 0 {
      assert a + b == b;
    } else {
      FreeAppend(a[1..], b, c);
      assert (a + b)[1..] == a[1..] + b;
    }
  }

  function PrintedPatch(from: Option<string>, to: Option<string>, patch: seq<PatchHunk>): string {
    FormatPatchHeader(from, to) + PatchText(patch)
  }

  lemma LinesOfPrinted(from: Option<string>, to: Option<string>, patch: seq<PatchHunk>)
    requires PlainPath(from) && PlainPath(to) && WellFormedPatch(patch)
    ensures Lines(PrintedPatch(from, to, patch), 0) == FileHeaderLines(from, to) + PatchLines(patch)
  {
    var lines := FileHeaderLines(from, to) + PatchLines(patch);
    HeaderLinesAreFree(from, to);
    PatchLinesAreFree(patch);
    FreeAppend(FileHeaderLines(from, to), PatchLines(patch), '\n');
    UnlinesAppend(FileHeaderLines(from, to), PatchLines(patch));
    PatchTextIs(patch);
    LinesFromStart(PrintedPatch(from, to, patch), lines);
  }

  lemma LinesFromStart(text: string, lines: seq<string>)
    requires text == Unlines(lines) && Free(lines, '\n')
    ensures Lines(text, 0) == lines
  {
    assert text[0..] == text;
    LinesOfUnlines(text, 0, lines);
  }

  /**
   Whatever patch is printed, the parser reads it back: the same headers and lines in the same
   order, numbered from the headers on, with consecutive indices from 0.
   */
  lemma PrintedPatchParses(from: Option<string>, to: Option<string>, patch: seq<PatchHunk>)
    requires PlainPath(from) && PlainPath(to) && WellFormedPatch(patch) && patch != []
    ensures var r := ReadDiff(Lines(PrintedPatch(from, to, patch), 0));
      && r.Ok? && !r.value.isBinary && AsPatch(r.value.hunks, 0) == patch
      && r.value.header == "--- " + (if from.Some? && from.value != "" then "a/" + from.value else "/dev/null")
                           + "\n+++ " + (if to.Some? && to.value != "" then "b/" + to.value else "/dev/null")
      && (forall h :: h in r.value.hunks ==> GoodHunk(h))
      && Consecutive(r.value.hunks, 0,
                     if r.value.hunks == [] then 0 else r.value.hunks[|r.value.hunks| - 1].unifiedDiffEnd + 1)
  {
    PatchIsRead(FileHeaderLines(from, to), PatchLines(patch), from, to, patch);
    HeaderJoined(from, to);
    LinesOfPrinted(from, to, patch);
    ParsedDiffIsGood(PrintedPatch(from, to, patch));
  }

  lemma HeaderJoined(from: Option<string>, to: Option<string>)
    ensures Join(FileHeaderLines(from, to), '\n')
         == "--- " + (if from.Some? && from.value != "" then "a/" + from.value else "/dev/null")
            + "\n+++ " + (if to.Some? && to.value != "" then "b/" + to.value else "/dev/null")
  {
    var lines := FileHeaderLines(from, to);
    assert Join(lines[1..], '\n') == lines[1];
  }

  lemma PatchIsRead(header: seq<string>, rest: seq<string>, from: Option<string>, to: Option<string>,
                    patch: seq<PatchHunk>)
    requires header == FileHeaderLines(from, to) && rest == PatchLines(patch) && WellFormedPatch(patch) && patch != []
    ensures var r := ReadDiff(header + rest);
      r.Ok? && !r.value.isBinary && AsPatch(r.value.hunks, 0) == patch && r.value.header == Join(header, '\n')
  {
    HeaderIsRead(from, to, rest);
    assert (header + rest)[..2] == header;
    assert (header + rest)[2..] == rest;
    var hunks := ReadsPatch(header + rest, 2, 0, [], patch);
    assert AsPatch([], 0) + patch == patch;
  }

  // ---------- The formatter's patches ----------

  /** Beside header lines the lines of a hunk are well-formed; so they are in every parsed hunk. */
  ghost predicate Printable(h: DiffHunk) {
    forall n :: 0 <= n < |h.lines| ==> h.lines[n].kind == Hunk || WellFormedLine(h.lines[n])
  }

  lemma GoodIsPrintable(h: DiffHunk)
    requires GoodHunk(h)
    ensures Printable(h)
  {
  }

  ghost predicate DropsHeaders(mode: Mode) {
    mode.role(Hunk, true) == mode.role(Hunk, false) == Hunk
  }

  lemma HeaderIsDropped(mode: Mode, isSelected: bool)
    requires DropsHeaders(mode)
    ensures mode.role(Hunk, isSelected) == Hunk
  {
    assert isSelected == true || isSelected == false;
  }

  lemma EmitLineIsWellFormed(l: DiffLine, role: LineKind)
    requires WellFormedLine(l) && role != Hunk
    ensures WellFormed(EmitLine(l, role))
  {
  }

  lemma {:induction false} EmitBodyIsWellFormed(h: DiffHunk, n: nat, selected: Selection, mode: Mode)
    requires Printable(h) && DropsHeaders(mode)
    ensures WellFormedBody(EmitBody(h, n, selected, mode))
    decreases |h.lines| - n
  {
    if n < |h.lines| {
      var l, isSelected, rest := h.lines[n], selected(h.unifiedDiffStart + n), EmitBody(h, n + 1, selected, mode);
      EmitBodyIsWellFormed(h, n + 1, selected, mode);
      EmittedStep(l, isSelected, mode, rest, EmitBody(h, n, selected, mode));
    }
  }

  lemma EmittedStep(l: DiffLine, isSelected: bool, mode: Mode, rest: seq<PatchLine>, body: seq<PatchLine>)
    requires (l.kind == Hunk || WellFormedLine(l)) && DropsHeaders(mode) && WellFormedBody(rest)
    requires var role := mode.role(l.kind, isSelected);
      body == if role == Hunk then rest else [EmitLine(l, role)] + rest
    ensures WellFormedBody(body)
  {
    HeaderIsDropped(mode, isSelected);
    var role := mode.role(l.kind, isSelected);
    if role != Hunk {
      EmitLineIsWellFormed(l, role);
      WellFormedFirst(EmitLine(l, role), rest);
    }
  }

  lemma {:induction false} SelectedIsEmitted(h: DiffHunk, n: nat, selected: Selection, mode: Mode)
    requires DropsNoSelected(mode) && AnySelected(h, n, selected)
    ensures |EmitBody(h, n, selected, mode)| > 0
    decreases |h.lines| - n
  {
    var role := mode.role(h.lines[n].kind, selected(h.unifiedDiffStart + n));
    if role == Hunk {
      SelectedIsEmitted(h, n + 1, selected, mode);
    }
  }

  lemma WellFormedFirst(l: PatchLine, rest: seq<PatchLine>)
    requires WellFormed(l) && WellFormedBody(rest)
    ensures WellFormedBody([l] + rest)
  {
    assert ([l] + rest)[1..] == rest;
  }

  lemma {:induction false} EmitPatchIsWellFormed(hunks: seq<DiffHunk>, k: nat, selected: Selection, mode: Mode)
    requires forall h :: h in hunks ==> Printable(h)
    requires DropsHeaders(mode) && DropsNoSelected(mode)
    ensures WellFormedPatch(EmitPatch(hunks, k, selected, mode))
    decreases |hunks| - k
  {
    if k < |hunks| {
      var rest := EmitPatch(hunks, k + 1, selected, mode);
      EmitPatchIsWellFormed(hunks, k + 1, selected, mode);
      EmitBodyIsWellFormed(hunks[k], 0, selected, mode);
      if AnySelected(hunks[k], 0, selected) {
        SelectedIsEmitted(hunks[k], 0, selected, mode);
      }
      assert ([EmitHunk(hunks[k], selected, mode)] + rest)[1..] == rest;
    }
  }

  lemma ModesDropHeaders(isNew: bool)
    ensures DropsHeaders(Commit(isNew)) && DropsNoSelected(Commit(isNew))
    ensures DropsHeaders(Discard()) && DropsNoSelected(Discard())
  {
  }

  /**
   From the text of a diff to the file: the patch that `FormatPatch` prints is parsed back as the
   patch it printed, and that patch makes exactly the selected changes happen.
   */
  lemma PrintedCommitPatchCommits(path: string, status: FileStatus, before: seq<FileLine>, after: seq<FileLine>,
                                  hunks: seq<DiffHunk>, selected: Selection)
    requires '\n' !in path && (forall h :: h in hunks ==> Printable(h))
    requires TakesTo(before, 0, after, 0, hunks, 0) && (IsNewFile(status) ==> before == [])
    requires EmitPatch(hunks, 0, selected, Commit(IsNewFile(status))) != []
    ensures ReadsBackAs(FormatPatchHeaderForFile(path, status),
                        EmitPatch(hunks, 0, selected, Commit(IsNewFile(status))),
                        if path == "" || status == New || status == Untracked then "/dev/null" else "a/" + path,
                        if path == "" then "/dev/null" else "b/" + path,
                        before, Chosen(before, 0, hunks, 0, selected))
  {
    var patch := EmitPatch(hunks, 0, selected, Commit(IsNewFile(status)));
    ModesDropHeaders(IsNewFile(status));
    EmitPatchIsWellFormed(hunks, 0, selected, Commit(IsNewFile(status)));
    PrintedPatchParses(if IsNewFile(status) then None else Some(path), Some(path), patch);
    CommitPatchCommits(before, after, hunks, selected, IsNewFile(status));
  }

  /**
   The text of a patch is parsed as that patch, with a header that names the two files; and what was
   parsed, applied to `file`, gives `result`.
   */
  ghost predicate ReadsBackAs(header: string, patch: seq<PatchHunk>, oldName: string, newName: string,
                              file: seq<FileLine>, result: seq<FileLine>) {
    var r := ReadDiff(Lines(header + PatchText(patch), 0));
    && r.Ok? && r.value.header == "--- " + oldName + "\n+++ " + newName
    && AsPatch(r.value.hunks, 0) == patch
    && Apply(file, 0, AsPatch(r.value.hunks, 0)) == Some(result)
  }

  /** The same for the patch that `FormatPatchToDiscardChanges` prints, applied to the new file. */
  lemma PrintedDiscardPatchDiscards(path: string, before: seq<FileLine>, after: seq<FileLine>,
                                    hunks: seq<DiffHunk>, discarded: Selection)
    requires '\n' !in path && (forall h :: h in hunks ==> Printable(h)) && TakesTo(before, 0, after, 0, hunks, 0)
    requires EmitPatch(hunks, 0, discarded, Discard()) != []
    ensures ReadsBackAs(FormatPatchHeader(Some(path), Some(path)), EmitPatch(hunks, 0, discarded, Discard()),
                        if path == "" then "/dev/null" else "a/" + path,
                        if path == "" then "/dev/null" else "b/" + path,
                        after, Chosen(before, 0, hunks, 0, Others(discarded)))
  {
    var patch := EmitPatch(hunks, 0, discarded, Discard());
    ModesDropHeaders(false);
    EmitPatchIsWellFormed(hunks, 0, discarded, Discard());
    PrintedPatchParses(Some(path), Some(path), patch);
    DiscardPatchDiscards(before, after, hunks, discarded);
  }

  // ---------- From the text of a diff ----------

  lemma ParsedHunksArePrintable(diff: string)
    requires ReadDiff(Lines(diff, 0)).Ok?
    ensures forall h :: h in ReadDiff(Lines(diff, 0)).value.hunks ==> Printable(h)
  {
    ParsedDiffIsGood(diff);
    forall h | h in ReadDiff(Lines(diff, 0)).value.hunks ensures Printable(h) {
      GoodIsPrintable(h);
    }
  }

  /**
   For every diff the parser accepts: print the commit patch of its hunks, parse that text and apply it to
   the old file, and exactly the selected changes have happened.
   */
  lemma ParsedDiffIsCommitted(diff: string, path: string, status: FileStatus,
                              before: seq<FileLine>, after: seq<FileLine>, selected: Selection)
    requires ReadDiff(Lines(diff, 0)).Ok? && '\n' !in path
    requires var hunks := ReadDiff(Lines(diff, 0)).value.hunks;
      && TakesTo(before, 0, after, 0, hunks, 0) && (IsNewFile(status) ==> before == [])
      && EmitPatch(hunks, 0, selected, Commit(IsNewFile(status))) != []
    ensures var hunks := ReadDiff(Lines(diff, 0)).value.hunks;
      ReadsBackAs(FormatPatchHeaderForFile(path, status), EmitPatch(hunks, 0, selected, Commit(IsNewFile(status))),
                  if path == "" || status == New || status == Untracked then "/dev/null" else "a/" + path,
                  if path == "" then "/dev/null" else "b/" + path,
                  before, Chosen(before, 0, hunks, 0, selected))
  {
    ParsedHunksArePrintable(diff);
    PrintedCommitPatchCommits(path, status, before, after, ReadDiff(Lines(diff, 0)).value.hunks, selected);
  }

  /** The same of its discard patch: applied to the new file it leaves exactly the changes that are not discarded. */
  lemma ParsedDiffIsDiscarded(diff: string, path: string, before: seq<FileLine>, after: seq<FileLine>,
                              discarded: Selection)
    requires ReadDiff(Lines(diff, 0)).Ok? && '\n' !in path
    requires var hunks := ReadDiff(Lines(diff, 0)).value.hunks;
      TakesTo(before, 0, after, 0, hunks, 0) && EmitPatch(hunks, 0, discarded, Discard()) != []
    ensures var hunks := ReadDiff(Lines(diff, 0)).value.hunks;
      ReadsBackAs(FormatPatchHeader(Some(path), Some(path)), EmitPatch(hunks, 0, discarded, Discard()),
                  if path == "" then "/dev/null" else "a/" + path, if path == "" then "/dev/null" else "b/" + path,
                  after, Chosen(before, 0, hunks, 0, Others(discarded)))
  {
    ParsedHunksArePrintable(diff);
    PrintedDiscardPatchDiscards(path, before, after, ReadDiff(Lines(diff, 0)).value.hunks, discarded);
  }
}
