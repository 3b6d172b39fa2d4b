/**
 What holds of every diff the parser accepts: how its lines are numbered and indexed, and when its
 contents are just the texts of its lines.
 */
module ParsedDiff {
  import opened Strings
  import opened UnifiedDiff
  import opened DiffParsing

  // ---------- Line numbers ----------

  /** How many of the first `n` lines are in the old file. */
  function OldBefore(lines: seq<DiffLine>, n: nat): nat
    requires n <= |lines|
  {
    if n == 0 then 0
    else if InOld(lines[n - 1].kind) then OldBefore(lines, n - 1) + 1 else OldBefore(lines, n - 1)
  }

  /** How many of the first `n` lines are in the new file. */
  function NewBefore(lines: seq<DiffLine>, n: nat): nat
    requires n <= |lines|
  {
    if n == 0 then 0
    else if InNew(lines[n - 1].kind) then NewBefore(lines, n - 1) + 1 else NewBefore(lines, n - 1)
  }

  function PrefixChar(kind: LineKind): char {
    match kind
    case Hunk => '@'
    case Context => ' '
    case Add => '+'
    case Delete => '-'
  }

  /** The text of a line is a newline-free line with the prefix of its kind. */
  predicate WellFormedLine(l: DiffLine) {
    l.kind != Hunk && l.text != "" && l.text[0] == PrefixChar(l.kind) && '\n' !in l.text
  }

  /** A line has a number on each side it is on: the start in the header plus the lines before it on that side. */
  predicate Numbered(lines: seq<DiffLine>, n: nat, header: HunkHeader)
    requires n < |lines|
  {
    && lines[n].oldLineNumber ==
       (if InOld(lines[n].kind) then Some(header.oldStartLine + OldBefore(lines, n)) else None)
    && lines[n].newLineNumber ==
       (if InNew(lines[n].kind) then Some(header.newStartLine + NewBefore(lines, n)) else None)
  }

  /** The lines of a hunk: a header line, then well-formed lines, all of them numbered. */
  ghost predicate GoodLines(lines: seq<DiffLine>, header: HunkHeader) {
    && |lines| > 0 && lines[0].kind == Hunk
    && (forall n {:trigger lines[n]} :: 0 < n < |lines| ==> WellFormedLine(lines[n]))
    && (forall n {:trigger Numbered(lines, n, header)} :: 0 <= n < |lines| ==> Numbered(lines, n, header))
  }

  ghost predicate GoodState(s: BodyState, header: HunkHeader) {
    && GoodLines(s.lines, header)
    && s.c.before == header.oldStartLine + OldBefore(s.lines, |s.lines|)
    && s.c.after == header.newStartLine + NewBefore(s.lines, |s.lines|)
  }

  lemma {:induction false} SameKinds(a: seq<DiffLine>, b: seq<DiffLine>, n: nat)
    requires n <= |a| && n <= |b|
    requires forall m :: 0 <= m < n ==> a[m].kind == b[m].kind
    ensures OldBefore(a, n) == OldBefore(b, n) && NewBefore(a, n) == NewBefore(b, n)
  {
    if n > 0 {
      SameKinds(a, b, n - 1);
    }
  }

  /** Lines that agree with good lines in all but their flags are good. */
  lemma SameLines(a: seq<DiffLine>, b: seq<DiffLine>, header: HunkHeader)
    requires GoodLines(a, header) && |a| == |b|
    requires forall m :: 0 <= m < |a| ==> b[m] == a[m].(noTrailingNewLine := b[m].noTrailingNewLine)
    ensures GoodLines(b, header)
  {
    forall n | 0 <= n < |b| ensures Numbered(b, n, header) {
      SameKinds(a, b, n);
      assert Numbered(a, n, header);
    }
    forall n | 0 < n < |b| ensures WellFormedLine(b[n]) {
      assert WellFormedLine(a[n]);
    }
  }

  lemma OneMoreLine(a: seq<DiffLine>, l: DiffLine, header: HunkHeader)
    requires GoodLines(a, header) && WellFormedLine(l)
    requires l.oldLineNumber == if InOld(l.kind) then Some(header.oldStartLine + OldBefore(a, |a|)) else None
    requires l.newLineNumber == if InNew(l.kind) then Some(header.newStartLine + NewBefore(a, |a|)) else None
    ensures GoodLines(a + [l], header)
  {
    var b := a + [l];
    forall n | 0 <= n < |b| ensures Numbered(b, n, header) {
      SameKinds(a, b, n);
      if n < |a| {
        assert Numbered(a, n, header);
      }
    }
    forall n | 0 < n < |b| ensures WellFormedLine(b[n]) {
      if n < |a| {
        assert WellFormedLine(a[n]);
      }
    }
  }

  lemma GoodStep(line: string, s: BodyState, header: HunkHeader)
    requires GoodState(s, header) && line != "" && IsLinePrefix(line[0]) && '\n' !in line
    requires ReadBodyLine(line, s).Ok?
    ensures GoodState(ReadBodyLine(line, s).value, header)
  {
    var s' := ReadBodyLine(line, s).value;
    if line[0] == '\\' {
      SameLines(s.lines, s'.lines, header);
      SameKinds(s.lines, s'.lines, |s.lines|);
    } else {
      OneMoreLine(s.lines, s'.lines[|s.lines|], header);
      SameKinds(s.lines, s'.lines, |s.lines|);
    }
  }

  lemma {:induction false} GoodBody(lines: seq<string>, p: nat, s: BodyState, header: HunkHeader)
    requires p <= |lines| && Free(lines, '\n') && GoodState(s, header) && ReadBody(lines, p, s).Ok?
    ensures GoodLines(ReadBody(lines, p, s).value.0, header)
    decreases |lines| - p
  {
    if p < |lines| && InBody(lines[p]) {
      FreeAt(lines, '\n', p);
      GoodStep(lines[p], s, header);
      GoodBody(lines, p + 1, ReadBodyLine(lines[p], s).value, header);
    }
  }

  /** A parsed hunk: its lines are good, there is at least one beside the header, and its index range is theirs. */
  ghost predicate GoodHunk(h: DiffHunk) {
    GoodLines(h.lines, h.header) && |h.lines| >= 2 && h.unifiedDiffEnd == h.unifiedDiffStart + |h.lines| - 1
  }

  lemma GoodReadHunk(lines: seq<string>, p: nat, linesConsumed: nat)
    requires p <= |lines| && Free(lines, '\n') && ReadHunk(lines, p, linesConsumed).Ok?
    ensures var h := ReadHunk(lines, p, linesConsumed).value.0; GoodHunk(h) && h.unifiedDiffStart == linesConsumed
  {
    var header := ParseHunkHeader(lines[p]).value;
    var s := StartBody(lines[p], header, linesConsumed);
    assert OldBefore(s.lines, 1) == OldBefore(s.lines, 0) && NewBefore(s.lines, 1) == NewBefore(s.lines, 0);
    GoodBody(lines, p + 1, s, header);
  }

  // ---------- Original line numbers ----------

  /** Counted from `base` on, the physical line with the line's original number is the line's text. */
  predicate Located(lines: seq<string>, base: int, l: DiffLine) {
    0 <= base + l.originalLineNumber < |lines| && lines[base + l.originalLineNumber] == l.text
  }

  ghost predicate AllLocated(lines: seq<string>, base: int, body: seq<DiffLine>) {
    forall n :: 0 < n < |body| ==> Located(lines, base, body[n])
  }

  lemma LocatedStep(lines: seq<string>, p: nat, s: BodyState, base: int)
    requires p < |lines| && lines[p] != "" && |s.lines| > 0 && ReadBodyLine(lines[p], s).Ok?
    requires AllLocated(lines, base, s.lines) && base + s.c.number + 1 == p
    ensures var s' := ReadBodyLine(lines[p], s).value; AllLocated(lines, base, s'.lines) && base + s'.c.number == p
  {
    var s' := ReadBodyLine(lines[p], s).value;
    forall n | 0 < n < |s'.lines| ensures Located(lines, base, s'.lines[n]) {
      if n < |s.lines| {
        assert Located(lines, base, s.lines[n]);
      }
    }
  }

  lemma {:induction false} LocatedBody(lines: seq<string>, p: nat, s: BodyState, base: int)
    requires p <= |lines| && |s.lines| > 0 && ReadBody(lines, p, s).Ok?
    requires AllLocated(lines, base, s.lines) && base + s.c.number + 1 == p
    ensures AllLocated(lines, base, ReadBody(lines, p, s).value.0)
    decreases |lines| - p
  {
    if p < |lines| && InBody(lines[p]) {
      LocatedStep(lines, p, s, base);
      LocatedBody(lines, p + 1, ReadBodyLine(lines[p], s).value, base);
    }
  }

  /**
   A line's original number counts the physical lines of its hunk, markers included, from the number of
   lines consumed before: so it finds the line's text among the lines of the diff.
   */
  lemma OriginalNumbersFindLines(lines: seq<string>, p: nat, linesConsumed: nat)
    requires p <= |lines| && ReadHunk(lines, p, linesConsumed).Ok?
    ensures var h := ReadHunk(lines, p, linesConsumed).value.0;
      forall n :: 0 < n < |h.lines| ==> Located(lines, p - linesConsumed, h.lines[n])
  {
    LocatedBody(lines, p + 1, StartBody(lines[p], ParseHunkHeader(lines[p]).value, linesConsumed), p - linesConsumed);
  }

  // ---------- Absolute indices ----------

  /** The hunks' index ranges follow one another without a gap, from `first` up to `end`. */
  ghost predicate Consecutive(hunks: seq<DiffHunk>, first: nat, end: nat) {
    if |hunks| == 0 then first == end
    else
      var h := hunks[|hunks| - 1];
      h.unifiedDiffEnd + 1 == end && Consecutive(hunks[..|hunks| - 1], first, h.unifiedDiffStart)
  }

  lemma {:induction false} GoodHunks(lines: seq<string>, p: nat, linesConsumed: nat, acc: seq<DiffHunk>)
    requires p <= |lines| && Free(lines, '\n') && ReadHunks(lines, p, linesConsumed, acc).Ok?
    requires Consecutive(acc, 0, linesConsumed)
    requires forall h :: h in acc ==> GoodHunk(h)
    ensures var hunks := ReadHunks(lines, p, linesConsumed, acc).value;
      && |hunks| > 0 && (forall h :: h in hunks ==> GoodHunk(h))
      && Consecutive(hunks, 0, hunks[|hunks| - 1].unifiedDiffEnd + 1)
    decreases |lines| - p
  {
    var (h, p') := ReadHunk(lines, p, linesConsumed).value;
    GoodReadHunk(lines, p, linesConsumed);
    var acc' := acc + [h];
    assert acc'[..|acc|] == acc;
    if p' < |lines| {
      GoodHunks(lines, p', linesConsumed + |h.lines|, acc');
    }
  }

  /**
   Every accepted diff with hunks: index ranges from 0 without a gap, numbered lines, prefixed
   newline-free texts.
   */
  lemma ParsedDiffIsGood(diff: string)
    requires ReadDiff(Lines(diff, 0)).Ok?
    ensures var hunks := ReadDiff(Lines(diff, 0)).value.hunks;
      && (forall h :: h in hunks ==> GoodHunk(h))
      && Consecutive(hunks, 0, if hunks == [] then 0 else hunks[|hunks| - 1].unifiedDiffEnd + 1)
  {
    var lines := Lines(diff, 0);
    var (info, p) := ReadDiffHeader(lines, 0);
    LinesHoldNoNewline(diff, 0);
    if info == Textual {
      GoodHunks(lines, p, 0, []);
    }
  }
}
