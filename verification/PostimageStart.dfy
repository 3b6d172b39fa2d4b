/**
 Where the lines of a partially committed or discarded hunk end up. The formatters copy the postimage start of a
 hunk from the diff: what the hunks before it leave out can make that start wrong, and so can a range that
 becomes empty, because an empty range names the line before it.
 */
module PostimageStart {
  import opened Strings
  import opened UnifiedDiff
  import opened PatchFormatter
  import opened PartialPatch

  /** The unselected additions less the unselected deletions of a hunk, from its line `n` on. */
  function Skew(h: DiffHunk, n: nat, selected: Selection): int
    decreases |h.lines| - n
  {
    if n >= |h.lines| then 0
    else
      var rest := Skew(h, n + 1, selected);
      if selected(h.unifiedDiffStart + n) then rest
      else match h.lines[n].kind
        case Add => rest + 1
        case Delete => rest - 1
        case _ => rest
  }

  lemma {:induction false} SkewIs(h: DiffHunk, n: nat, selected: Selection)
    ensures |NewLines(h.lines, n)| == |Kept(h, n, selected)| + Skew(h, n, selected)
    decreases |h.lines| - n
  {
    if n < |h.lines| {
      SkewIs(h, n + 1, selected);
    }
  }

  /** The skew of the hunks from `k` up to `t`. */
  function TotalSkew(hunks: seq<DiffHunk>, k: nat, t: nat, selected: Selection): int
    requires t <= |hunks|
    decreases t - k
  {
    if k >= t then 0 else Skew(hunks[k], 0, selected) + TotalSkew(hunks, k + 1, t, selected)
  }

  /** The index at which what is kept of hunk `t` stands in what is chosen of `before[i..]` by the hunks from `k` on. */
  function Place(i: int, hunks: seq<DiffHunk>, k: nat, t: nat, selected: Selection): int
    requires k <= t < |hunks|
    decreases t - k
  {
    var h := hunks[k];
    var at := OldAnchor(h.header) - i;
    if k == t then at
    else at + |Kept(h, 0, selected)| + Place(OldAnchor(h.header) + |Preimage(h)|, hunks, k + 1, t, selected)
  }

  /** That is where it stands, and the diff's own place in the new file is off by the skew of the hunks before. */
  ghost predicate StandsAtPlace(before: seq<FileLine>, i: nat, j: nat, hunks: seq<DiffHunk>, k: nat, t: nat,
                                selected: Selection)
    requires i <= |before| && k <= t < |hunks|
  {
    var file, p, part := Chosen(before, i, hunks, k, selected), Place(i, hunks, k, t, selected),
                         Kept(hunks[t], 0, selected);
    && Matches(file, 0, p, part)
    && NewAnchor(hunks[t].header) - j == p + TotalSkew(hunks, k, t, selected)
  }

  lemma {:induction false} StandsFrom(before: seq<FileLine>, i: nat, after: seq<FileLine>, j: nat,
                                      hunks: seq<DiffHunk>, k: nat, t: nat, selected: Selection)
    requires i <= |before| && j <= |after| && k <= t < |hunks| && TakesTo(before, i, after, j, hunks, k)
    ensures StandsAtPlace(before, i, j, hunks, k, t, selected)
    decreases t - k
  {
    var h := hunks[k];
    if k == t {
      FirstStands(before, i, after, j, hunks, k, selected);
    } else {
      var i', j' := OldAnchor(h.header) + |Preimage(h)|, NewAnchor(h.header) + |Postimage(h)|;
      StandsFrom(before, i', after, j', hunks, k + 1, t, selected);
      LaterStands(before, i, after, j, hunks, k, t, selected);
    }
  }

  lemma ShownLengths(h: DiffHunk, before: seq<FileLine>, i: nat, after: seq<FileLine>, j: nat)
    requires Shows(h, before, i, after, j)
    ensures OldAnchor(h.header) - i == NewAnchor(h.header) - j
  {
    assert |before[i..OldAnchor(h.header)]| == |after[j..NewAnchor(h.header)]|;
  }

  lemma FirstStands(before: seq<FileLine>, i: nat, after: seq<FileLine>, j: nat, hunks: seq<DiffHunk>, k: nat,
                    selected: Selection)
    requires k < |hunks| && Shows(hunks[k], before, i, after, j)
    ensures StandsAtPlace(before, i, j, hunks, k, k, selected)
  {
    var a := OldAnchor(hunks[k].header);
    ShownLengths(hunks[k], before, i, after, j);
    PartInTheMiddle(before[i..a], Kept(hunks[k], 0, selected),
                    Chosen(before, a + |Preimage(hunks[k])|, hunks, k + 1, selected));
  }

  lemma PartInTheMiddle(a: seq<FileLine>, part: seq<FileLine>, b: seq<FileLine>)
    ensures Matches(a + part + b, 0, |a|, part)
  {
    assert (a + part + b)[|a|..|a| + |part|] == part;
  }

  lemma PartBehind(a: seq<FileLine>, b: seq<FileLine>, p: int, part: seq<FileLine>)
    requires Matches(b, 0, p, part)
    ensures Matches(a + b, 0, |a| + p, part)
  {
    assert (a + b)[|a| + p..|a| + p + |part|] == b[p..p + |part|];
  }

  lemma LaterStands(before: seq<FileLine>, i: nat, after: seq<FileLine>, j: nat, hunks: seq<DiffHunk>, k: nat, t: nat,
                    selected: Selection)
    requires k < t < |hunks| && Shows(hunks[k], before, i, after, j)
    requires StandsAtPlace(before, OldAnchor(hunks[k].header) + |Preimage(hunks[k])|,
                           NewAnchor(hunks[k].header) + |Postimage(hunks[k])|, hunks, k + 1, t, selected)
    ensures StandsAtPlace(before, i, j, hunks, k, t, selected)
  {
    var a, h := OldAnchor(hunks[k].header), hunks[k];
    var next := a + |Preimage(h)|;
    ShownLengths(h, before, i, after, j);
    SkewIs(h, 0, selected);
    PartBehind(before[i..a] + Kept(h, 0, selected), Chosen(before, next, hunks, k + 1, selected),
               Place(next, hunks, k + 1, t, selected), Kept(hunks[t], 0, selected));
  }

  /** How the anchor of a range moves when its count becomes, or ceases to be, 0. */
  function AnchorShift(count: nat, newCount: nat): int {
    (if newCount == 0 then 1 else 0) - (if count == 0 then 1 else 0)
  }

  /**
   The postimage range that `FormatPatch` prints for hunk `t` names the place where its lines stand in the chosen
   file exactly if the additions less the deletions that the hunks before leave unselected make up for the
   shift of the hunk's own range: 1 if only the printed range is empty, -1 if only the diff's is, and else 0.
   A new file had no lines before.
   */
  lemma PostimageStartIsRightIff(before: seq<FileLine>, after: seq<FileLine>, hunks: seq<DiffHunk>, t: nat,
                                 selected: Selection, isNew: bool)
    requires TakesTo(before, 0, after, 0, hunks, 0) && t < |hunks| && (isNew ==> before == [])
    ensures var file, part := Chosen(before, 0, hunks, 0, selected), Kept(hunks[t], 0, selected);
      var place, emitted := Place(0, hunks, 0, t, selected), EmitHunk(hunks[t], selected, Commit(isNew));
      && Matches(file, 0, place, part)
      && emitted.header.newLineCount == |part|
      && (NewAnchor(emitted.header) == place
          <==> TotalSkew(hunks, 0, t, selected) + AnchorShift(hunks[t].header.newLineCount, |part|) == 0)
  {
    StandsFrom(before, 0, after, 0, hunks, 0, t, selected);
    if isNew {
      NewFileHasNoDeletions(after, 0, hunks, 0, t, selected);
    }
    CommitSides(hunks[t], selected, isNew);
  }

  // ---------- Discarding ----------

  /** The selected additions less the selected deletions of a hunk, from its line `n` on. */
  function Growth(h: DiffHunk, n: nat, selected: Selection): int
    decreases |h.lines| - n
  {
    if n >= |h.lines| then 0
    else
      var rest := Growth(h, n + 1, selected);
      if !selected(h.unifiedDiffStart + n) then rest
      else match h.lines[n].kind
        case Add => rest + 1
        case Delete => rest - 1
        case _ => rest
  }

  lemma {:induction false} GrowthIs(h: DiffHunk, n: nat, selected: Selection)
    ensures |Kept(h, n, selected)| == |OldLines(h.lines, n)| + Growth(h, n, selected)
    decreases |h.lines| - n
  {
    if n < |h.lines| {
      GrowthIs(h, n + 1, selected);
    }
  }

  function TotalGrowth(hunks: seq<DiffHunk>, k: nat, t: nat, selected: Selection): int
    requires t <= |hunks|
    decreases t - k
  {
    if k >= t then 0 else Growth(hunks[k], 0, selected) + TotalGrowth(hunks, k + 1, t, selected)
  }

  lemma {:induction false} PlaceGrows(i: int, hunks: seq<DiffHunk>, k: nat, t: nat, selected: Selection)
    requires k <= t < |hunks|
    ensures Place(i, hunks, k, t, selected) == OldAnchor(hunks[t].header) - i + TotalGrowth(hunks, k, t, selected)
    decreases t - k
  {
    if k < t {
      GrowthIs(hunks[k], 0, selected);
      PlaceGrows(OldAnchor(hunks[k].header) + |Preimage(hunks[k])|, hunks, k + 1, t, selected);
    }
  }

  /**
   The discard patch copies the old start as postimage start: right exactly if the additions less the deletions
   that stay in the hunks before are the shift of the hunk's own range.
   */
  lemma DiscardPostimageStartIsRightIff(before: seq<FileLine>, after: seq<FileLine>, hunks: seq<DiffHunk>, t: nat,
                                        discarded: Selection)
    requires TakesTo(before, 0, after, 0, hunks, 0) && t < |hunks|
    ensures var kept := Others(discarded);
      var file, part := Chosen(before, 0, hunks, 0, kept), Kept(hunks[t], 0, kept);
      var place, emitted := Place(0, hunks, 0, t, kept), EmitHunk(hunks[t], discarded, Discard());
      && Matches(file, 0, place, part)
      && emitted.header.newLineCount == |part|
      && (NewAnchor(emitted.header) == place
          <==> TotalGrowth(hunks, 0, t, kept) == AnchorShift(hunks[t].header.oldLineCount, |part|))
  {
    var kept := Others(discarded);
    StandsFrom(before, 0, after, 0, hunks, 0, t, kept);
    DiscardSides(hunks[t], 0, discarded, kept);
    PlaceGrows(0, hunks, 0, t, kept);
  }

  // ---------- Starts that are wrong ----------

  /** `@@ -1 +1 @@`: the line "a" becomes "b". */
  function OneLineChange(): DiffHunk {
    DiffHunk(HunkHeader(1, 1, 1, 1),
             [DiffLine("@@ -1 +1 @@", Hunk, 1, None, None, false),
              DiffLine("-a", Delete, 1, Some(1), None, false),
              DiffLine("+b", Add, 2, None, Some(1), false)],
             0, 2)
  }

  /** With only the deletion selected both patches print a postimage range one line off, and no hunk is before. */
  lemma EmptiedRangeIsOff()
    ensures var h, selected := OneLineChange(), (i: int) => i == 1;
      && TakesTo([FileLine("a", false)], 0, [FileLine("b", false)], 0, [h], 0)
      && TotalSkew([h], 0, 0, selected) == TotalGrowth([h], 0, 0, selected) == 0
      && Place(0, [h], 0, 0, selected) == 0
      && NewAnchor(EmitHunk(h, selected, Commit(false)).header) == 1
      && NewAnchor(EmitHunk(h, Others(selected), Discard()).header) == 1
  {
    var h, selected := OneLineChange(), (i: int) => i == 1;
    assert OldLines(h.lines, 2) == [] && OldLines(h.lines, 1) == [FileLine("a", false)] == OldLines(h.lines, 0);
    assert NewLines(h.lines, 2) == [FileLine("b", false)] == NewLines(h.lines, 1) == NewLines(h.lines, 0);
    assert [FileLine("a", false)][0..0] == [FileLine("b", false)][0..0];
    assert [FileLine("a", false)][0..1] == [FileLine("a", false)];
    assert [FileLine("b", false)][0..1] == [FileLine("b", false)];
    assert [FileLine("a", false)][1..] == [FileLine("b", false)][1..];
    assert Kept(h, 2, selected) == Kept(h, 1, selected) == Kept(h, 0, selected) == [];
    CommitSides(h, selected, false);
    DiscardSides(h, 0, Others(selected), selected);
  }

  /** A hunk that adds one line, with the index of its header line. */
  function Insertion(header: HunkHeader, text: string, start: nat): DiffHunk {
    DiffHunk(header, [DiffLine("@@", Hunk, 1, None, None, false),
                      DiffLine(text, Add, start + 1, None, Some(header.newStartLine), false)],
             start, start + 1)
  }

  lemma InsertionIs(header: HunkHeader, text: string, start: nat, selected: Selection)
    ensures var h, line := Insertion(header, text, start), FileLine(Tail(text), false);
      && Preimage(h) == [] && Postimage(h) == [line]
      && Kept(h, 0, selected) == (if selected(start + 1) then [line] else [])
      && Skew(h, 0, selected) == (if selected(start + 1) then 0 else 1)
  {
    var h := Insertion(header, text, start);
    assert OldLines(h.lines, 1) == OldLines(h.lines, 2) == [];
    assert NewLines(h.lines, 2) == [] && NewLines(h.lines, 1) == [FileLine(Tail(text), false)];
    assert Kept(h, 2, selected) == [];
    assert Kept(h, 1, selected) == if selected(start + 1) then [FileLine(Tail(text), false)] else [];
    assert Skew(h, 2, selected) == 0;
    assert Skew(h, 1, selected) == if selected(start + 1) then 0 else 1;
  }

  /**
   A line before and a line behind "x" are added. Committing only the second, its patch says line 3, but the
   line becomes line 2; discarding only the second, its patch says behind line 1, but it stood behind line 2.
   */
  lemma SkewedStartIsOff()
    ensures var first, second := Insertion(HunkHeader(0, 0, 1, 1), "+a", 0), Insertion(HunkHeader(1, 0, 3, 1), "+b", 2);
      var a, x, b := FileLine("a", false), FileLine("x", false), FileLine("b", false);
      var hunks, onlySecond, onlyFirst := [first, second], (i: int) => i == 3, (i: int) => i == 1;
      && TakesTo([x], 0, [a, x, b], 0, hunks, 0)
      && Place(0, hunks, 0, 1, onlySecond) == 1 && NewAnchor(EmitHunk(second, onlySecond, Commit(false)).header) == 2
      && Place(0, hunks, 0, 1, onlyFirst) == 2 && NewAnchor(EmitHunk(second, Others(onlyFirst), Discard()).header) == 1
  {
    var first, second := Insertion(HunkHeader(0, 0, 1, 1), "+a", 0), Insertion(HunkHeader(1, 0, 3, 1), "+b", 2);
    var onlySecond, onlyFirst := (i: int) => i == 3, (i: int) => i == 1;
    InsertionIs(first.header, "+a", 0, onlySecond);
    InsertionIs(second.header, "+b", 2, onlySecond);
    InsertionIs(first.header, "+a", 0, onlyFirst);
    InsertionIs(second.header, "+b", 2, onlyFirst);
    CommitSides(second, onlySecond, false);
    DiscardSides(second, 0, Others(onlyFirst), onlyFirst);
    TwoInsertions(first, second);
  }

  lemma TwoInsertions(first: DiffHunk, second: DiffHunk)
    requires first.header == HunkHeader(0, 0, 1, 1)
    requires Preimage(first) == [] && Postimage(first) == [FileLine("a", false)]
    requires second.header == HunkHeader(1, 0, 3, 1)
    requires Preimage(second) == [] && Postimage(second) == [FileLine("b", false)]
    ensures TakesTo([FileLine("x", false)], 0, [FileLine("a", false), FileLine("x", false), FileLine("b", false)], 0,
                    [first, second], 0)
  {
    var before, after := [FileLine("x", false)], [FileLine("a", false), FileLine("x", false), FileLine("b", false)];
    assert before[0..0] == [] == after[0..0] && before[1..1] == [];
    assert after[0..1] == [FileLine("a", false)] && before[0..1] == after[1..2];
    assert after[2..3] == [FileLine("b", false)];
    assert before[1..] == after[3..];
    assert TakesTo(before, 1, after, 3, [first, second], 2);
    assert TakesTo(before, 0, after, 1, [first, second], 1);
  }
}
