/**
 `app/src/lib/patch-formatter.ts`: printing a patch that commits, or one that discards, only the
 selected lines of a diff; and what such a patch does to the file.
 */
module PatchFormatter {
  import opened Strings
  import opened Decimal
  import opened UnifiedDiff

  datatype FileStatus = New | Untracked | Renamed | Deleted | Modified | Copied | Conflicted

  datatype FormatError = NoChanges

  /** A selection answers for absolute indices into the lines of the whole diff. */
  type Selection = int -> bool

  /**
   The kind of patch: what a line of the diff is in it (`Hunk` if it is not in the patch at all), and
   whether it leads from the new file back to the old one.
   */
  datatype Mode = Mode(role: (LineKind, bool) -> LineKind, reverse: bool)

  /** The patch that commits the selected changes; in a new file, what is not selected never existed. */
  function Commit(isNew: bool): Mode {
    Mode((kind: LineKind, isSelected: bool) =>
           if kind == Hunk || kind == Context || isSelected then kind
           else if kind == Delete && !isNew then Context
           else Hunk,
         false)
  }

  /** The patch that discards the selected changes. */
  function Discard(): Mode {
    Mode((kind: LineKind, isSelected: bool) =>
           match kind
           case Hunk => Hunk
           case Context => Context
           case Add => if isSelected then Delete else Context
           case Delete => if isSelected then Add else Hunk,
         true)
  }

  predicate IsNewFile(status: FileStatus) {
    status == New || status == Untracked
  }

  // ---------- Headers ----------

  /** A missing or empty path stands for a file that does not exist. */
  function FileHeaderLines(from: Option<string>, to: Option<string>): seq<string> {
    ["--- " + (if from.Some? && from.value != "" then "a/" + from.value else "/dev/null"),
     "+++ " + (if to.Some? && to.value != "" then "b/" + to.value else "/dev/null")]
  }

  function FormatPatchHeader(from: Option<string>, to: Option<string>): string {
    Unlines(FileHeaderLines(from, to))
  }

  function FormatPatchHeaderForFile(path: string, status: FileStatus): string {
    if IsNewFile(status) then FormatPatchHeader(None, Some(path))
    else FormatPatchHeader(Some(path), Some(path))
  }

  /** The text starts with the lines that name the old and the new file. */
  ghost predicate NamesFiles(text: string, oldName: string, newName: string) {
    "--- " + oldName + "\n+++ " + newName + "\n" <= text
  }

  /** What the two lines say of a file that exists, or did not exist before, and of one without a path. */
  lemma HeaderNamesFiles(from: Option<string>, to: Option<string>, rest: string)
    ensures FormatPatchHeader(from, to)
         == "--- " + (if from.Some? && from.value != "" then "a/" + from.value else "/dev/null")
            + "\n+++ " + (if to.Some? && to.value != "" then "b/" + to.value else "/dev/null") + "\n"
    ensures FormatPatchHeader(from, to) <= FormatPatchHeader(from, to) + rest
  {
    var lines := FileHeaderLines(from, to);
    assert Unlines(lines[1..]) == lines[1] + "\n" + Unlines([]);
  }

  function FormatRange(start: nat, count: nat): string {
    if count == 1 then Numeral(start) else Numeral(start) + "," + Numeral(count)
  }

  function HunkHeaderLine(h: HunkHeader, heading: string): string {
    "@@ -" + FormatRange(h.oldStartLine, h.oldLineCount)
    + " +" + FormatRange(h.newStartLine, h.newLineCount)
    + " @@" + (if heading == "" then "" else " " + heading)
  }

  function FormatHunkHeader(oldStart: nat, oldCount: nat, newStart: nat, newCount: nat, heading: string): string {
    HunkHeaderLine(HunkHeader(oldStart, oldCount, newStart, newCount), heading) + "\n"
  }

  // ---------- The printed patch ----------

  function LineText(l: PatchLine): string {
    if l.noEol then l.text + "\n" + (NO_NEWLINE_MARKER + "\n") else l.text + "\n"
  }

  function BodyText(body: seq<PatchLine>): string {
    if |body| == 0 then "" else LineText(body[0]) + BodyText(body[1..])
  }

  function HunkText(h: PatchHunk): string {
    HunkHeaderLine(h.header, "") + "\n" + BodyText(h.body)
  }

  function PatchText(patch: seq<PatchHunk>): string {
    if |patch| == 0 then "" else HunkText(patch[0]) + PatchText(patch[1..])
  }

  // ---------- What is selected ----------

  predicate IsChange(l: DiffLine) {
    l.kind == Add || l.kind == Delete
  }

  /** Some addition or deletion among the lines from `n` on is selected. */
  predicate AnySelected(h: DiffHunk, n: nat, selected: Selection)
    decreases |h.lines| - n
  {
    n < |h.lines| && ((IsChange(h.lines[n]) && selected(h.unifiedDiffStart + n)) || AnySelected(h, n + 1, selected))
  }

  predicate Stays(kind: LineKind, isSelected: bool) {
    match kind
    case Hunk => false
    case Context => true
    case Add => isSelected
    case Delete => !isSelected
  }

  /**
   The file lines that a hunk leaves, from its line `n` on, when exactly the selected additions and
   deletions happen: a context line stays, an addition is there if selected, a deletion is still
   there if not.
   */
  function Kept(h: DiffHunk, n: nat, selected: Selection): seq<FileLine>
    decreases |h.lines| - n
  {
    if n >= |h.lines| then []
    else if Stays(h.lines[n].kind, selected(h.unifiedDiffStart + n))
    then [Content(AsPatchLine(h.lines[n]))] + Kept(h, n + 1, selected)
    else Kept(h, n + 1, selected)
  }

  /** `before[from..]` in which exactly the selected changes of the hunks from `k` on happened. */
  function Chosen(before: seq<FileLine>, from: nat, hunks: seq<DiffHunk>, k: nat, selected: Selection): seq<FileLine>
    requires from <= |before|
    decreases |hunks| - k
  {
    if k >= |hunks| then before[from..]
    else
      var h := hunks[k];
      var at := OldAnchor(h.header);
      var next := at + h.header.oldLineCount;
      if from <= at && next <= |before| then
        before[from..at] + Kept(h, 0, selected) + Chosen(before, next, hunks, k + 1, selected)
      else []
  }

  // ---------- The patch as hunks ----------

  function Prefix(kind: LineKind): string {
    match kind
    case Hunk => "@"
    case Context => " "
    case Add => "+"
    case Delete => "-"
  }

  /** A line that keeps its role is printed as it is, any other gets the prefix of its new role. */
  function EmitLine(l: DiffLine, role: LineKind): PatchLine {
    PatchLine(role, if role == l.kind then l.text else Prefix(role) + Tail(l.text), l.noTrailingNewLine)
  }

  /** What the lines of a hunk from `n` on become. */
  function EmitBody(h: DiffHunk, n: nat, selected: Selection, mode: Mode): seq<PatchLine>
    decreases |h.lines| - n
  {
    if n >= |h.lines| then []
    else
      var role := mode.role(h.lines[n].kind, selected(h.unifiedDiffStart + n));
      if role == Hunk then EmitBody(h, n + 1, selected, mode)
      else [EmitLine(h.lines[n], role)] + EmitBody(h, n + 1, selected, mode)
  }

  /** The counts are the body's own; the starts are copied from the hunk, swapped when discarding. */
  function EmitHunk(h: DiffHunk, selected: Selection, mode: Mode): PatchHunk {
    var body := EmitBody(h, 0, selected, mode);
    var (from, to) := if mode.reverse then (h.header.newStartLine, h.header.oldStartLine)
                      else (h.header.oldStartLine, h.header.newStartLine);
    PatchHunk(HunkHeader(from, |OldSide(body)|, to, |NewSide(body)|), body)
  }

  /** What the hunks from `k` on become; those without a selected change are skipped. */
  function EmitPatch(hunks: seq<DiffHunk>, k: nat, selected: Selection, mode: Mode): seq<PatchHunk>
    decreases |hunks| - k
  {
    if k >= |hunks| then []
    else if AnySelected(hunks[k], 0, selected)
    then [EmitHunk(hunks[k], selected, mode)] + EmitPatch(hunks, k + 1, selected, mode)
    else EmitPatch(hunks, k + 1, selected, mode)
  }

  // ---------- formatPatch and formatPatchToDiscardChanges ----------

  /** The buffers of the loop over the lines of a hunk: text, preimage and postimage tallies, change flag. */
  type HunkBuffer = (string, int, int, bool)

  const EMPTY_BUFFER: HunkBuffer := ("", 0, 0, false)

  /** The buffers after one more line. */
  function AddLine(b: HunkBuffer, l: DiffLine, isSelected: bool, mode: Mode): HunkBuffer {
    var role := mode.role(l.kind, isSelected);
    if role == Hunk then b
    else (b.0 + LineText(EmitLine(l, role)),
          if InOld(role) then b.1 + 1 else b.1,
          if InNew(role) then b.2 + 1 else b.2,
          b.3 || (IsChange(l) && isSelected))
  }

  /** The buffers `b` after the lines of the hunk from `n` on. */
  ghost function Gather(h: DiffHunk, n: nat, selected: Selection, mode: Mode, b: HunkBuffer): HunkBuffer
    decreases |h.lines| - n
  {
    if n >= |h.lines| then b
    else Gather(h, n + 1, selected, mode, AddLine(b, h.lines[n], selected(h.unifiedDiffStart + n), mode))
  }

  /** The loop body of `FormatPatch`: one line of a hunk. */
  method FormatCommitLine(line: DiffLine, isSelected: bool, status: FileStatus, b: HunkBuffer)
    returns (r: HunkBuffer)
    ensures r == AddLine(b, line, isSelected, Commit(IsNewFile(status)))
  {
    var (hunkBuf, oldCount, newCount, anyAdditionsOrDeletions) := b;
    var text := line.text + "\n";
    if line.kind == Hunk {
      return b;
    }
    if line.kind == Context {
      oldCount, newCount := oldCount + 1, newCount + 1;
    } else if isSelected {
      if line.kind == Add {
        newCount := newCount + 1;
      }
      if line.kind == Delete {
        oldCount := oldCount + 1;
      }
      anyAdditionsOrDeletions := true;
    } else {
      if status == New || status == Untracked {
        return b;
      }
      if line.kind == Add {
        return b;
      }
      text := " " + Tail(line.text) + "\n";
      oldCount, newCount := oldCount + 1, newCount + 1;
    }
    if line.noTrailingNewLine {
      text := text + (NO_NEWLINE_MARKER + "\n");
    }
    r := (hunkBuf + text, oldCount, newCount, anyAdditionsOrDeletions);
  }

  /** The loop body of `FormatPatchToDiscardChanges`, where `newCount` tallies the preimage. */
  method FormatDiscardLine(line: DiffLine, isSelected: bool, b: HunkBuffer) returns (r: HunkBuffer)
    ensures r == AddLine(b, line, isSelected, Discard())
  {
    var (hunkBuf, newCount, oldCount, anyAdditionsOrDeletions) := b;
    var text := line.text + "\n";
    if line.kind == Hunk {
      return b;
    }
    if line.kind == Context {
      oldCount, newCount := oldCount + 1, newCount + 1;
    } else if isSelected {
      if line.kind == Add {
        text := "-" + Tail(line.text) + "\n";
        newCount := newCount + 1;
      } else {
        text := "+" + Tail(line.text) + "\n";
        oldCount := oldCount + 1;
      }
      anyAdditionsOrDeletions := true;
    } else {
      if line.kind == Delete {
        return b;
      }
      oldCount, newCount := oldCount + 1, newCount + 1;
      text := " " + Tail(line.text) + "\n";
    }
    if line.noTrailingNewLine {
      text := text + (NO_NEWLINE_MARKER + "\n");
    }
    r := (hunkBuf + text, newCount, oldCount, anyAdditionsOrDeletions);
  }

  /** The loop body of either. */
  method FormatLine(line: DiffLine, isSelected: bool, mode: Mode, status: FileStatus, b: HunkBuffer)
    returns (r: HunkBuffer)
    requires IsModeFor(mode, status)
    ensures r == AddLine(b, line, isSelected, mode)
  {
    if mode.reverse {
      r := FormatDiscardLine(line, isSelected, b);
    } else {
      r := FormatCommitLine(line, isSelected, status, b);
    }
  }

  ghost predicate IsModeFor(mode: Mode, status: FileStatus) {
    mode == if mode.reverse then Discard() else Commit(IsNewFile(status))
  }

  /** The loop over the lines of one hunk. */
  method FormatHunkBody(hunk: DiffHunk, selected: Selection, mode: Mode, status: FileStatus, start: HunkBuffer)
    returns (b: HunkBuffer)
    requires IsModeFor(mode, status)
    ensures b == Gather(hunk, 0, selected, mode, start)
  {
    b := start;
    for n := 0 to |hunk.lines|
      invariant Gather(hunk, n, selected, mode, b) == Gather(hunk, 0, selected, mode, start)
    {
      var absoluteIndex := hunk.unifiedDiffStart + n;
      b := FormatLine(hunk.lines[n], selected(absoluteIndex), mode, status, b);
    }
  }

  /** Prints the patch that commits the selected changes. */
  method FormatPatch(path: string, status: FileStatus, hunks: seq<DiffHunk>, selected: Selection)
    returns (r: Result<string, FormatError>)
    ensures var patch := EmitPatch(hunks, 0, selected, Commit(IsNewFile(status)));
      r == if patch == [] then Err(NoChanges) else Ok(FormatPatchHeaderForFile(path, status) + PatchText(patch))
    ensures r.Ok? ==>
      NamesFiles(r.value, if path == "" || status == New || status == Untracked then "/dev/null" else "a/" + path,
                 if path == "" then "/dev/null" else "b/" + path)
  {
    var patch, mode := "", Commit(IsNewFile(status));
    ghost var whole := EmitPatch(hunks, 0, selected, mode);
    EmptyText(PatchText(whole));
    for k := 0 to |hunks|
      invariant patch + PatchText(EmitPatch(hunks, k, selected, mode)) == PatchText(whole)
    {
      var hunk := hunks[k];
      var b := FormatHunkBody(hunk, selected, mode, status, EMPTY_BUFFER);
      var (hunkBuf, oldCount, newCount, any) := b;
      GatherHunk(hunk, selected, mode);
      if !any {
        continue;
      }
      var header := FormatHunkHeader(hunk.header.oldStartLine, oldCount, hunk.header.newStartLine, newCount, "");
      OneMoreHunk(patch, EmitHunk(hunk, selected, mode), EmitPatch(hunks, k + 1, selected, mode));
      patch := patch + (header + hunkBuf);
    }
    EmptyText(patch);
    PrintsSomething(whole);
    if |patch| == 0 {
      return Err(NoChanges);
    }
    HeaderNamesFiles(if IsNewFile(status) then None else Some(path), Some(path), patch);
    r := Ok(FormatPatchHeaderForFile(path, status) + patch);
  }

  /** Prints the patch that discards the selected changes, or nothing if there are none. */
  method FormatPatchToDiscardChanges(path: string, hunks: seq<DiffHunk>, selected: Selection)
    returns (r: Option<string>)
    ensures var patch := EmitPatch(hunks, 0, selected, Discard());
      r == if patch == [] then None else Some(FormatPatchHeader(Some(path), Some(path)) + PatchText(patch))
    ensures r.Some? ==>
      NamesFiles(r.value, if path == "" then "/dev/null" else "a/" + path,
                 if path == "" then "/dev/null" else "b/" + path)
  {
    var patch, mode := "", Discard();
    ghost var whole := EmitPatch(hunks, 0, selected, mode);
    EmptyText(PatchText(whole));
    for k := 0 to |hunks|
      invariant patch + PatchText(EmitPatch(hunks, k, selected, mode)) == PatchText(whole)
    {
      var hunk := hunks[k];
      var b := FormatHunkBody(hunk, selected, mode, Modified, EMPTY_BUFFER);
      var (hunkBuf, newCount, oldCount, any) := b;
      GatherHunk(hunk, selected, mode);
      if !any {
        continue;
      }
      var header := FormatHunkHeader(hunk.header.newStartLine, newCount, hunk.header.oldStartLine, oldCount, "");
      OneMoreHunk(patch, EmitHunk(hunk, selected, mode), EmitPatch(hunks, k + 1, selected, mode));
      patch := patch + (header + hunkBuf);
    }
    EmptyText(patch);
    PrintsSomething(whole);
    if |patch| == 0 {
      return None;
    }
    HeaderNamesFiles(Some(path), Some(path), patch);
    r := Some(FormatPatchHeader(Some(path), Some(path)) + patch);
  }

  /** What the lines of a hunk from `n` on yield: text, tallies and change flag. */
  ghost function Yield(h: DiffHunk, n: nat, selected: Selection, mode: Mode): HunkBuffer
    decreases |h.lines| - n
  {
    if n >= |h.lines| then EMPTY_BUFFER
    else
      var l, isSelected, rest := h.lines[n], selected(h.unifiedDiffStart + n), Yield(h, n + 1, selected, mode);
      var role := mode.role(l.kind, isSelected);
      if role == Hunk then rest
      else (LineText(EmitLine(l, role)) + rest.0,
            if InOld(role) then 1 + rest.1 else rest.1,
            if InNew(role) then 1 + rest.2 else rest.2,
            (IsChange(l) && isSelected) || rest.3)
  }

  /** The loop over the lines of a hunk puts what they yield behind the buffers it starts with. */
  ghost predicate PutsBehind(h: DiffHunk, n: nat, selected: Selection, mode: Mode, b: HunkBuffer) {
    var y, g := Yield(h, n, selected, mode), Gather(h, n, selected, mode, b);
    g.0 == b.0 + y.0 && g.1 == b.1 + y.1 && g.2 == b.2 + y.2 && g.3 == (b.3 || y.3)
  }

  lemma {:induction false} GatherFrom(h: DiffHunk, n: nat, selected: Selection, mode: Mode, b: HunkBuffer)
    ensures PutsBehind(h, n, selected, mode, b)
    decreases |h.lines| - n
  {
    if n < |h.lines| {
      var l, isSelected := h.lines[n], selected(h.unifiedDiffStart + n);
      GatherFrom(h, n + 1, selected, mode, AddLine(b, l, isSelected, mode));
      Associate(b.0, LineText(EmitLine(l, mode.role(l.kind, isSelected))), Yield(h, n + 1, selected, mode).0);
    } else {
      EmptyText(b.0);
    }
  }

  /** What a hunk yields is its emitted body, printed and tallied. */
  lemma {:induction false} YieldIsBody(h: DiffHunk, n: nat, selected: Selection, mode: Mode)
    requires DropsNoSelected(mode)
    ensures var y, body := Yield(h, n, selected, mode), EmitBody(h, n, selected, mode);
      y.0 == BodyText(body) && y.1 == |OldSide(body)| && y.2 == |NewSide(body)| && y.3 == AnySelected(h, n, selected)
    decreases |h.lines| - n
  {
    if n < |h.lines| {
      YieldIsBody(h, n + 1, selected, mode);
      var role := mode.role(h.lines[n].kind, selected(h.unifiedDiffStart + n));
      OneMoreLine(EmitLine(h.lines[n], role), EmitBody(h, n + 1, selected, mode));
    }
  }

  /** A selected change is always in the patch. */
  ghost predicate DropsNoSelected(mode: Mode) {
    forall kind :: kind == Add || kind == Delete ==> mode.role(kind, true) != Hunk
  }

  lemma OneMoreLine(l: PatchLine, rest: seq<PatchLine>)
    ensures BodyText([l] + rest) == LineText(l) + BodyText(rest)
    ensures |OldSide([l] + rest)| == if InOld(l.kind) then 1 + |OldSide(rest)| else |OldSide(rest)|
    ensures |NewSide([l] + rest)| == if InNew(l.kind) then 1 + |NewSide(rest)| else |NewSide(rest)|
  {
    assert ([l] + rest)[1..] == rest;
  }

  /** The loop over the lines of a hunk gathers its printed body, its tallies and its change flag. */
  lemma GatherHunk(h: DiffHunk, selected: Selection, mode: Mode)
    requires DropsNoSelected(mode)
    ensures var body, b := EmitBody(h, 0, selected, mode), Gather(h, 0, selected, mode, EMPTY_BUFFER);
      && b.0 == BodyText(body) && b.3 == AnySelected(h, 0, selected)
      && b.1 == |OldSide(body)| && b.2 == |NewSide(body)|
  {
    GatherFrom(h, 0, selected, mode, EMPTY_BUFFER);
    YieldIsBody(h, 0, selected, mode);
    EmptyText(Yield(h, 0, selected, mode).0);
  }

  lemma OneMoreHunk(printed: string, h: PatchHunk, rest: seq<PatchHunk>)
    ensures printed + PatchText([h] + rest) == printed + HunkText(h) + PatchText(rest)
  {
    assert ([h] + rest)[1..] == rest;
    Associate(printed, HunkText(h), PatchText(rest));
  }

  lemma EmptyText(s: string)
    ensures "" + s == s && s + "" == s
  {
  }

  lemma PrintsSomething(patch: seq<PatchHunk>)
    ensures PatchText(patch) == "" <==> patch == []
  {
    if |patch| > 0 {
      var head := HunkHeaderLine(patch[0].header, "") + "\n";
      assert |head| > 0;
    }
  }

  // ---------- What is printed at all ----------

  /** Line `m` of the hunk is an addition or deletion that is selected. */
  predicate SelectedChange(h: DiffHunk, m: nat, selected: Selection) {
    m < |h.lines| && (h.lines[m].kind == Add || h.lines[m].kind == Delete) && selected(h.unifiedDiffStart + m)
  }

  lemma {:induction false} AnySelectedIff(h: DiffHunk, n: nat, selected: Selection)
    ensures AnySelected(h, n, selected) <==> exists m: nat :: n <= m && SelectedChange(h, m, selected)
    decreases |h.lines| - n
  {
    if n < |h.lines| {
      AnySelectedIff(h, n + 1, selected);
      assert SelectedChange(h, n, selected) <==> IsChange(h.lines[n]) && selected(h.unifiedDiffStart + n);
    }
  }

  /** The patch is empty, so that there is nothing to commit or discard, exactly if no change is selected. */
  lemma {:induction false} PatchIsEmptyIff(hunks: seq<DiffHunk>, k: nat, selected: Selection, mode: Mode)
    ensures EmitPatch(hunks, k, selected, mode) == []
       <==> forall i: nat, m: nat :: k <= i < |hunks| ==> !SelectedChange(hunks[i], m, selected)
    decreases |hunks| - k
  {
    if k < |hunks| {
      PatchIsEmptyIff(hunks, k + 1, selected, mode);
      AnySelectedIff(hunks[k], 0, selected);
    }
  }

  /** A selected change is printed as a change. */
  ghost predicate KeepsChanges(mode: Mode) {
    forall kind :: kind == Add || kind == Delete ==>
      var role := mode.role(kind, true); role == Add || role == Delete
  }

  /** Some line of the printed hunk is an addition or deletion. */
  ghost predicate Changes(body: seq<PatchLine>) {
    exists i :: 0 <= i < |body| && (body[i].kind == Add || body[i].kind == Delete)
  }

  lemma {:induction false} BodyChanges(h: DiffHunk, n: nat, selected: Selection, mode: Mode)
    requires KeepsChanges(mode) && AnySelected(h, n, selected)
    ensures Changes(EmitBody(h, n, selected, mode))
    decreases |h.lines| - n
  {
    var body, rest := EmitBody(h, n, selected, mode), EmitBody(h, n + 1, selected, mode);
    if IsChange(h.lines[n]) && selected(h.unifiedDiffStart + n) {
      assert body[0].kind == Add || body[0].kind == Delete;
    } else {
      BodyChanges(h, n + 1, selected, mode);
      var i :| 0 <= i < |rest| && (rest[i].kind == Add || rest[i].kind == Delete);
      assert body == rest || body[i + 1] == rest[i];
    }
  }

  /** No hunk is printed that changes nothing. */
  lemma {:induction false} EveryHunkChanges(hunks: seq<DiffHunk>, k: nat, selected: Selection, mode: Mode)
    requires KeepsChanges(mode)
    ensures forall h :: h in EmitPatch(hunks, k, selected, mode) ==> Changes(h.body)
    decreases |hunks| - k
  {
    if k < |hunks| {
      EveryHunkChanges(hunks, k + 1, selected, mode);
      if AnySelected(hunks[k], 0, selected) {
        BodyChanges(hunks[k], 0, selected, mode);
      }
    }
  }

  lemma ModesKeepChanges(isNew: bool)
    ensures KeepsChanges(Commit(isNew)) && KeepsChanges(Discard())
  {
  }
}
