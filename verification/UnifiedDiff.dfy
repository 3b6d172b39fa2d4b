/**
 Unified diffs: the hunks and lines the diff parser builds, the hunks a patch prints, and what
 such a patch means for a file.
 */
module UnifiedDiff {
  import opened Strings

  /** The line that says that the line before it is the last of its file and no newline ends it. */
  const NO_NEWLINE_MARKER := "\\ No newline at end of file"

  datatype LineKind = Hunk | Context | Add | Delete

  datatype DiffLine = DiffLine(
    text: string,
    kind: LineKind,
    originalLineNumber: nat,
    oldLineNumber: Option<nat>,
    newLineNumber: Option<nat>,
    noTrailingNewLine: bool)

  datatype HunkHeader = HunkHeader(oldStartLine: nat, oldLineCount: nat, newStartLine: nat, newLineCount: nat)

  /** `unifiedDiffStart` and `unifiedDiffEnd` are absolute indices into the lines of the whole diff. */
  datatype DiffHunk = DiffHunk(header: HunkHeader, lines: seq<DiffLine>, unifiedDiffStart: nat, unifiedDiffEnd: nat)

  /** A line of a file. Whether a newline ends it is part of the line. */
  datatype FileLine = FileLine(text: string, noEol: bool)

  /** A line of a printed hunk: `text` carries the prefix character. */
  datatype PatchLine = PatchLine(kind: LineKind, text: string, noEol: bool)

  datatype PatchHunk = PatchHunk(header: HunkHeader, body: seq<PatchLine>)

  /** `text.substring(1)`. */
  function Tail(text: string): string {
    if text == "" then "" else text[1..]
  }

  function Content(l: PatchLine): FileLine {
    FileLine(Tail(l.text), l.noEol)
  }

  predicate InOld(kind: LineKind) {
    kind == Context || kind == Delete
  }

  predicate InNew(kind: LineKind) {
    kind == Context || kind == Add
  }

  /** The lines of the preimage that a hunk body shows. */
  function OldSide(body: seq<PatchLine>): seq<FileLine> {
    if |body| == 0 then []
    else if InOld(body[0].kind) then [Content(body[0])] + OldSide(body[1..])
    else OldSide(body[1..])
  }

  /** The lines of the postimage that a hunk body shows. */
  function NewSide(body: seq<PatchLine>): seq<FileLine> {
    if |body| == 0 then []
    else if InNew(body[0].kind) then [Content(body[0])] + NewSide(body[1..])
    else NewSide(body[1..])
  }

  lemma SidesOfOneMore(l: PatchLine, body: seq<PatchLine>)
    ensures OldSide([l] + body) == if InOld(l.kind) then [Content(l)] + OldSide(body) else OldSide(body)
    ensures NewSide([l] + body) == if InNew(l.kind) then [Content(l)] + NewSide(body) else NewSide(body)
  {
    assert ([l] + body)[1..] == body;
  }

  /** The index a hunk range names: a range of no lines names the line before it. */
  function Anchor(start: nat, count: nat): int {
    if count == 0 then start else start - 1
  }

  function OldAnchor(h: HunkHeader): int {
    Anchor(h.oldStartLine, h.oldLineCount)
  }

  function NewAnchor(h: HunkHeader): int {
    Anchor(h.newStartLine, h.newLineCount)
  }

  /** The header's counts are the tallies of the body. */
  predicate Tallied(h: PatchHunk) {
    && h.header.oldLineCount == |OldSide(h.body)|
    && h.header.newLineCount == |NewSide(h.body)|
  }

  /** `part` stands in `file` at index `at`, not before index `from`. */
  predicate Matches(file: seq<FileLine>, from: nat, at: int, part: seq<FileLine>) {
    && from <= at && at + |part| <= |file|
    && file[at..at + |part|] == part
  }

  /**
   Applying a patch to the lines of `file` from index `from` on. Hunks are placed where their
   preimage range says; a hunk that is mistallied, out of order, or whose preimage is not there
   makes the whole patch fail.
   */
  function Apply(file: seq<FileLine>, from: nat, patch: seq<PatchHunk>): Option<seq<FileLine>>
    requires from <= |file|
    decreases |patch|
  {
    if |patch| == 0 then Some(file[from..])
    else
      var h := patch[0];
      var at, pre := OldAnchor(h.header), OldSide(h.body);
      if Tallied(h) && Matches(file, from, at, pre) then
        match Apply(file, at + |pre|, patch[1..])
        case None => None
        case Some(rest) => Some(file[from..at] + NewSide(h.body) + rest)
      else None
  }

  /** Applying a patch that begins with `h` writes the postimage of `h` behind what precedes it. */
  lemma ApplyFirst(file: seq<FileLine>, i: nat, h: PatchHunk, rest: seq<PatchHunk>)
    requires Tallied(h) && Matches(file, i, OldAnchor(h.header), OldSide(h.body))
    requires Apply(file, OldAnchor(h.header) + |OldSide(h.body)|, rest).Some?
    ensures var at := OldAnchor(h.header);
      var tail := Apply(file, at + |OldSide(h.body)|, rest).value;
      Apply(file, i, [h] + rest) == Some(file[i..at] + NewSide(h.body) + tail)
  {
    assert ([h] + rest)[1..] == rest;
  }

  /** Without its first hunk, a patch leaves the lines that hunk stood on as they were. */
  lemma ApplySkipped(file: seq<FileLine>, i: nat, at: int, pre: seq<FileLine>, rest: seq<PatchHunk>)
    requires Matches(file, i, at, pre)
    requires Apply(file, at + |pre|, rest).Some?
    ensures Apply(file, i, rest) == Some(file[i..at] + pre + Apply(file, at + |pre|, rest).value)
  {
    ApplyFromEarlier(file, i, at + |pre|, rest);
    assert file[i..at] + pre == file[i..at + |pre|];
  }

  lemma ThreeParts(file: seq<FileLine>, i: nat, at: int, part: seq<FileLine>)
    requires Matches(file, i, at, part)
    ensures file[i..at] + part + file[at + |part|..] == file[i..]
  {
  }

  /** Starting earlier only copies more of the file, when the first hunk lies ahead. */
  lemma ApplyFromEarlier(file: seq<FileLine>, i: nat, k: nat, patch: seq<PatchHunk>)
    requires i <= k <= |file|
    requires Apply(file, k, patch).Some?
    ensures Apply(file, i, patch) == Some(file[i..k] + Apply(file, k, patch).value)
  {
    if |patch| == 0 {
      assert file[i..] == file[i..k] + file[k..];
    } else {
      var at, post := OldAnchor(patch[0].header), NewSide(patch[0].body);
      var rest := Apply(file, at + |OldSide(patch[0].body)|, patch[1..]).value;
      assert file[i..at] == file[i..k] + file[k..at];
      assert file[i..k] + (file[k..at] + post + rest) == file[i..at] + post + rest;
    }
  }

  // ---------- Parsed hunks as a patch ----------

  function AsPatchLine(l: DiffLine): PatchLine {
    PatchLine(l.kind, l.text, l.noTrailingNewLine)
  }

  /** The lines of a parsed hunk from `n` on as lines of a patch: all but the header line. */
  function Body(lines: seq<DiffLine>, n: nat): seq<PatchLine>
    decreases |lines| - n
  {
    if n >= |lines| then []
    else if lines[n].kind == Hunk then Body(lines, n + 1)
    else [AsPatchLine(lines[n])] + Body(lines, n + 1)
  }

  function AsPatch(hunks: seq<DiffHunk>, k: nat): seq<PatchHunk>
    decreases |hunks| - k
  {
    if k >= |hunks| then []
    else [PatchHunk(hunks[k].header, Body(hunks[k].lines, 0))] + AsPatch(hunks, k + 1)
  }

  /** The lines of the old file among the lines of a parsed hunk from `n` on. */
  function OldLines(lines: seq<DiffLine>, n: nat): seq<FileLine>
    decreases |lines| - n
  {
    if n >= |lines| then []
    else if InOld(lines[n].kind) then [Content(AsPatchLine(lines[n]))] + OldLines(lines, n + 1)
    else OldLines(lines, n + 1)
  }

  /** The lines of the new file among them. */
  function NewLines(lines: seq<DiffLine>, n: nat): seq<FileLine>
    decreases |lines| - n
  {
    if n >= |lines| then []
    else if InNew(lines[n].kind) then [Content(AsPatchLine(lines[n]))] + NewLines(lines, n + 1)
    else NewLines(lines, n + 1)
  }

  lemma {:induction false} BodySides(lines: seq<DiffLine>, n: nat)
    ensures OldSide(Body(lines, n)) == OldLines(lines, n)
    ensures NewSide(Body(lines, n)) == NewLines(lines, n)
    decreases |lines| - n
  {
    if n < |lines| {
      BodySides(lines, n + 1);
      SidesOfOneMore(AsPatchLine(lines[n]), Body(lines, n + 1));
    }
  }

  function Preimage(h: DiffHunk): seq<FileLine> {
    OldLines(h.lines, 0)
  }

  function Postimage(h: DiffHunk): seq<FileLine> {
    NewLines(h.lines, 0)
  }

  // ---------- What a diff is ----------

  /**
   A hunk of a diff shows what stands at its two ranges, its counts are right, and what lies between
   the hunk before it and itself is the same in both files.
   */
  predicate Shows(h: DiffHunk, before: seq<FileLine>, i: nat, after: seq<FileLine>, j: nat) {
    var a, b := OldAnchor(h.header), NewAnchor(h.header);
    && h.header.oldLineCount == |Preimage(h)| && h.header.newLineCount == |Postimage(h)|
    && Matches(before, i, a, Preimage(h)) && Matches(after, j, b, Postimage(h))
    && before[i..a] == after[j..b]
  }

  /** The hunks from `k` on are a diff from `before[i..]` to `after[j..]`: in order, disjoint, complete. */
  predicate TakesTo(before: seq<FileLine>, i: nat, after: seq<FileLine>, j: nat, hunks: seq<DiffHunk>, k: nat)
    requires i <= |before| && j <= |after|
    decreases |hunks| - k
  {
    if k >= |hunks| then before[i..] == after[j..]
    else
      var h := hunks[k];
      && Shows(h, before, i, after, j)
      && TakesTo(before, OldAnchor(h.header) + |Preimage(h)|, after, NewAnchor(h.header) + |Postimage(h)|, hunks, k + 1)
  }

  /** A diff from `before` to `after`, applied to `before` as it is, gives `after`. */
  lemma {:induction false} ApplyFollowsDiff(before: seq<FileLine>, i: nat, after: seq<FileLine>, j: nat,
                                            hunks: seq<DiffHunk>, k: nat)
    requires i <= |before| && j <= |after| && TakesTo(before, i, after, j, hunks, k)
    ensures Apply(before, i, AsPatch(hunks, k)) == Some(after[j..])
    decreases |hunks| - k
  {
    if k < |hunks| {
      var h := hunks[k];
      var b, post := NewAnchor(h.header), Postimage(h);
      ApplyFollowsDiff(before, OldAnchor(h.header) + |Preimage(h)|, after, b + |post|, hunks, k + 1);
      BodySides(h.lines, 0);
      ApplyFirst(before, i, PatchHunk(h.header, Body(h.lines, 0)), AsPatch(hunks, k + 1));
      ThreeParts(after, j, b, post);
    }
  }
}
