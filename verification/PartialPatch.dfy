/**
 What the patches of `PatchFormatter` do: applied to the old file, the commit patch makes exactly the
 selected changes happen; applied to the new file, the discard patch makes exactly the selected
 changes undone; and the two meet in the same file when their selections are opposite.
 */
module PartialPatch {
  import opened Strings
  import opened UnifiedDiff
  import opened PatchFormatter

  /** The selection of just what `selected` does not select. */
  function Others(selected: Selection): Selection {
    i => !selected(i)
  }

  /** Each index is selected by just one of the two. */
  ghost predicate Opposite(discarded: Selection, kept: Selection) {
    forall i :: discarded(i) != kept(i)
  }

  /** No deletion of the hunk, from its line `n` on, is left unselected. */
  predicate DeletionsSelected(h: DiffHunk, n: nat, selected: Selection)
    decreases |h.lines| - n
  {
    n < |h.lines| ==>
      (h.lines[n].kind == Delete ==> selected(h.unifiedDiffStart + n)) && DeletionsSelected(h, n + 1, selected)
  }

  // ---------- One hunk ----------

  lemma ContentKept(l: DiffLine, role: LineKind)
    ensures Content(EmitLine(l, role)) == Content(AsPatchLine(l))
  {
    assert Tail(Prefix(role) + Tail(l.text)) == Tail(l.text);
  }

  lemma {:induction false} ShownAndKept(h: DiffHunk, n: nat, selected: Selection, isNew: bool)
    requires isNew ==> DeletionsSelected(h, n, selected)
    ensures OldSide(EmitBody(h, n, selected, Commit(isNew))) == OldLines(h.lines, n)
    ensures NewSide(EmitBody(h, n, selected, Commit(isNew))) == Kept(h, n, selected)
    decreases |h.lines| - n
  {
    if n < |h.lines| {
      ShownAndKept(h, n + 1, selected, isNew);
      OneMoreEmitted(h, n, selected, Commit(isNew));
    }
  }

  /** The sides of a hunk's emitted body grow by a line's own content, on the sides of its role. */
  lemma OneMoreEmitted(h: DiffHunk, n: nat, selected: Selection, mode: Mode)
    requires n < |h.lines|
    ensures var role := mode.role(h.lines[n].kind, selected(h.unifiedDiffStart + n));
      var c := Content(AsPatchLine(h.lines[n]));
      var body, rest := EmitBody(h, n, selected, mode), EmitBody(h, n + 1, selected, mode);
      && OldSide(body) == (if InOld(role) then [c] + OldSide(rest) else OldSide(rest))
      && NewSide(body) == (if InNew(role) then [c] + NewSide(rest) else NewSide(rest))
  {
    var role := mode.role(h.lines[n].kind, selected(h.unifiedDiffStart + n));
    ContentKept(h.lines[n], role);
    SidesOfOneMore(EmitLine(h.lines[n], role), EmitBody(h, n + 1, selected, mode));
  }

  /**
   In a new file the commit patch drops unselected deletions instead of keeping them as context: its hunk
   shows as many preimage lines as the diff's hunk exactly if there are none.
   */
  ghost predicate DroppedShows(h: DiffHunk, n: nat, selected: Selection) {
    var shown, all := |OldSide(EmitBody(h, n, selected, Commit(true)))|, |OldLines(h.lines, n)|;
    if DeletionsSelected(h, n, selected) then shown == all else shown < all
  }

  lemma {:induction false} NewFilePreimage(h: DiffHunk, n: nat, selected: Selection)
    ensures DroppedShows(h, n, selected)
    decreases |h.lines| - n
  {
    if n < |h.lines| {
      NewFilePreimage(h, n + 1, selected);
      OneMoreEmitted(h, n, selected, Commit(true));
    }
  }

  /**
   For every hunk, selection and status: the commit patch's hunk shows the whole preimage of the diff's hunk and
   keeps what was chosen, unless the file is new and a deletion is unselected; then it shows less.
   */
  lemma CommitSides(h: DiffHunk, selected: Selection, isNew: bool)
    ensures var body := EmitBody(h, 0, selected, Commit(isNew));
      && (OldSide(body) == Preimage(h) && NewSide(body) == Kept(h, 0, selected)
          <==> (isNew ==> DeletionsSelected(h, 0, selected)))
      && (|OldSide(body)| < |Preimage(h)| <==> isNew && !DeletionsSelected(h, 0, selected))
  {
    NewFilePreimage(h, 0, selected);
    if isNew ==> DeletionsSelected(h, 0, selected) {
      ShownAndKept(h, 0, selected, isNew);
    }
  }

  lemma NewFilePreimageCount(h: DiffHunk, selected: Selection)
    ensures EmitHunk(h, selected, Commit(true)).header.oldLineCount == |Preimage(h)|
       <==> DeletionsSelected(h, 0, selected)
  {
    CommitSides(h, selected, true);
  }

  lemma {:induction false} NothingToDelete(h: DiffHunk, n: nat, selected: Selection)
    requires |OldLines(h.lines, n)| == 0
    ensures DeletionsSelected(h, n, selected)
    decreases |h.lines| - n
  {
    if n < |h.lines| {
      NothingToDelete(h, n + 1, selected);
    }
  }

  /** A diff from a file that does not exist has no deletions, so none that could be left unselected. */
  lemma {:induction false} NewFileHasNoDeletions(after: seq<FileLine>, j: nat, hunks: seq<DiffHunk>, k: nat, m: nat,
                                                 selected: Selection)
    requires j <= |after| && k <= m < |hunks| && TakesTo([], 0, after, j, hunks, k)
    ensures DeletionsSelected(hunks[m], 0, selected)
    decreases |hunks| - k
  {
    var h := hunks[k];
    if k == m {
      NothingToDelete(h, 0, selected);
    } else {
      NewFileHasNoDeletions(after, NewAnchor(h.header) + |Postimage(h)|, hunks, k + 1, m, selected);
    }
  }

  /** The discard patch's hunk shows the whole postimage and keeps what the opposite selection chooses. */
  lemma {:induction false} DiscardSides(h: DiffHunk, n: nat, discarded: Selection, kept: Selection)
    requires Opposite(discarded, kept)
    ensures OldSide(EmitBody(h, n, discarded, Discard())) == NewLines(h.lines, n)
    ensures NewSide(EmitBody(h, n, discarded, Discard())) == Kept(h, n, kept)
    decreases |h.lines| - n
  {
    if n < |h.lines| {
      DiscardSides(h, n + 1, discarded, kept);
      OneMoreEmitted(h, n, discarded, Discard());
      assert discarded(h.unifiedDiffStart + n) != kept(h.unifiedDiffStart + n);
    }
  }

  /** A hunk of which nothing is selected stays as it was. */
  lemma {:induction false} NothingSelected(h: DiffHunk, n: nat, selected: Selection)
    requires !AnySelected(h, n, selected)
    ensures Kept(h, n, selected) == OldLines(h.lines, n)
    decreases |h.lines| - n
  {
    if n < |h.lines| {
      NothingSelected(h, n + 1, selected);
    }
  }

  /** A hunk of which nothing is discarded happens in full. */
  lemma {:induction false} NothingDiscarded(h: DiffHunk, n: nat, discarded: Selection, kept: Selection)
    requires Opposite(discarded, kept) && !AnySelected(h, n, discarded)
    ensures Kept(h, n, kept) == NewLines(h.lines, n)
    decreases |h.lines| - n
  {
    if n < |h.lines| {
      NothingDiscarded(h, n + 1, discarded, kept);
      assert discarded(h.unifiedDiffStart + n) != kept(h.unifiedDiffStart + n);
    }
  }

  // ---------- The whole patch ----------

  /** A hunk, emitted or skipped, leaves `keep` where the file has `pre`. */
  ghost predicate Leaves(h: DiffHunk, selected: Selection, mode: Mode, at: int, pre: seq<FileLine>,
                         keep: seq<FileLine>) {
    if AnySelected(h, 0, selected) then
      var e := EmitHunk(h, selected, mode);
      OldAnchor(e.header) == at && OldSide(e.body) == pre && NewSide(e.body) == keep
    else keep == pre
  }

  lemma ApplyEmitted(file: seq<FileLine>, i: nat, hunks: seq<DiffHunk>, k: nat, selected: Selection, mode: Mode,
                     at: int, pre: seq<FileLine>, keep: seq<FileLine>)
    requires k < |hunks| && Leaves(hunks[k], selected, mode, at, pre, keep) && Matches(file, i, at, pre)
    requires Apply(file, at + |pre|, EmitPatch(hunks, k + 1, selected, mode)).Some?
    ensures Apply(file, i, EmitPatch(hunks, k, selected, mode))
         == Some(file[i..at] + keep + Apply(file, at + |pre|, EmitPatch(hunks, k + 1, selected, mode)).value)
  {
    var rest := EmitPatch(hunks, k + 1, selected, mode);
    if AnySelected(hunks[k], 0, selected) {
      ApplyFirst(file, i, EmitHunk(hunks[k], selected, mode), rest);
    } else {
      ApplySkipped(file, i, at, pre, rest);
    }
  }

  lemma CommitLeaves(h: DiffHunk, selected: Selection, isNew: bool)
    requires h.header.oldLineCount == |Preimage(h)|
    requires isNew && AnySelected(h, 0, selected) ==> DeletionsSelected(h, 0, selected)
    ensures Leaves(h, selected, Commit(isNew), OldAnchor(h.header), Preimage(h), Kept(h, 0, selected))
  {
    if AnySelected(h, 0, selected) {
      ShownAndKept(h, 0, selected, isNew);
    } else {
      NothingSelected(h, 0, selected);
    }
  }

  lemma DiscardLeaves(h: DiffHunk, discarded: Selection, kept: Selection)
    requires h.header.newLineCount == |Postimage(h)| && Opposite(discarded, kept)
    ensures Leaves(h, discarded, Discard(), NewAnchor(h.header), Postimage(h), Kept(h, 0, kept))
  {
    if AnySelected(h, 0, discarded) {
      DiscardSides(h, 0, discarded, kept);
    } else {
      NothingDiscarded(h, 0, discarded, kept);
    }
  }

  /** The commit patch of the hunks from `k` on, applied to `before[i..]`, gives what is chosen. */
  ghost predicate Commits(before: seq<FileLine>, i: nat, hunks: seq<DiffHunk>, k: nat, selected: Selection, isNew: bool)
    requires i <= |before|
  {
    Apply(before, i, EmitPatch(hunks, k, selected, Commit(isNew))) == Some(Chosen(before, i, hunks, k, selected))
  }

  /** The discard patch of the hunks from `k` on, applied to `after[j..]`, gives what is kept of `before[i..]`. */
  ghost predicate Discards(before: seq<FileLine>, i: nat, after: seq<FileLine>, j: nat, hunks: seq<DiffHunk>, k: nat,
                           discarded: Selection, kept: Selection)
    requires i <= |before| && j <= |after|
  {
    Apply(after, j, EmitPatch(hunks, k, discarded, Discard())) == Some(Chosen(before, i, hunks, k, kept))
  }

  lemma CommitHunkStep(before: seq<FileLine>, i: nat, hunks: seq<DiffHunk>, k: nat, selected: Selection, isNew: bool)
    requires k < |hunks| && hunks[k].header.oldLineCount == |Preimage(hunks[k])|
    requires Matches(before, i, OldAnchor(hunks[k].header), Preimage(hunks[k]))
    requires isNew && AnySelected(hunks[k], 0, selected) ==> DeletionsSelected(hunks[k], 0, selected)
    requires Commits(before, OldAnchor(hunks[k].header) + |Preimage(hunks[k])|, hunks, k + 1, selected, isNew)
    ensures Commits(before, i, hunks, k, selected, isNew)
  {
    var h := hunks[k];
    CommitLeaves(h, selected, isNew);
    ApplyEmitted(before, i, hunks, k, selected, Commit(isNew), OldAnchor(h.header), Preimage(h), Kept(h, 0, selected));
  }

  lemma DiscardHunkStep(before: seq<FileLine>, i: nat, after: seq<FileLine>, j: nat,
                        hunks: seq<DiffHunk>, k: nat, discarded: Selection, kept: Selection)
    requires k < |hunks| && Shows(hunks[k], before, i, after, j) && Opposite(discarded, kept)
    requires Discards(before, OldAnchor(hunks[k].header) + |Preimage(hunks[k])|,
                      after, NewAnchor(hunks[k].header) + |Postimage(hunks[k])|, hunks, k + 1, discarded, kept)
    ensures Discards(before, i, after, j, hunks, k, discarded, kept)
  {
    var h := hunks[k];
    DiscardLeaves(h, discarded, kept);
    ApplyEmitted(after, j, hunks, k, discarded, Discard(), NewAnchor(h.header), Postimage(h), Kept(h, 0, kept));
  }

  lemma {:induction false} HunksCommit(before: seq<FileLine>, i: nat, after: seq<FileLine>, j: nat,
                                       hunks: seq<DiffHunk>, k: nat, selected: Selection, isNew: bool)
    requires i <= |before| && j <= |after| && TakesTo(before, i, after, j, hunks, k)
    requires isNew ==>
      forall m :: k <= m < |hunks| && AnySelected(hunks[m], 0, selected) ==> DeletionsSelected(hunks[m], 0, selected)
    ensures Commits(before, i, hunks, k, selected, isNew)
    decreases |hunks| - k
  {
    if k < |hunks| {
      var h := hunks[k];
      HunksCommit(before, OldAnchor(h.header) + |Preimage(h)|, after, NewAnchor(h.header) + |Postimage(h)|,
                  hunks, k + 1, selected, isNew);
      CommitHunkStep(before, i, hunks, k, selected, isNew);
    }
  }

  lemma {:induction false} HunksDiscard(before: seq<FileLine>, i: nat, after: seq<FileLine>, j: nat,
                                        hunks: seq<DiffHunk>, k: nat, discarded: Selection, kept: Selection)
    requires i <= |before| && j <= |after| && TakesTo(before, i, after, j, hunks, k) && Opposite(discarded, kept)
    ensures Discards(before, i, after, j, hunks, k, discarded, kept)
    decreases |hunks| - k
  {
    if k < |hunks| {
      var h := hunks[k];
      HunksDiscard(before, OldAnchor(h.header) + |Preimage(h)|, after, NewAnchor(h.header) + |Postimage(h)|,
                   hunks, k + 1, discarded, kept);
      DiscardHunkStep(before, i, after, j, hunks, k, discarded, kept);
    }
  }

  /**
   Applied to the old file, the patch of `FormatPatch` gives the file in which exactly the selected
   additions and deletions happened. A new file had no lines before.
   */
  lemma CommitPatchCommits(before: seq<FileLine>, after: seq<FileLine>, hunks: seq<DiffHunk>,
                           selected: Selection, isNew: bool)
    requires TakesTo(before, 0, after, 0, hunks, 0) && (isNew ==> before == [])
    ensures Apply(before, 0, EmitPatch(hunks, 0, selected, Commit(isNew)))
         == Some(Chosen(before, 0, hunks, 0, selected))
  {
    if isNew {
      forall m | 0 <= m < |hunks| ensures DeletionsSelected(hunks[m], 0, selected) {
        NewFileHasNoDeletions(after, 0, hunks, 0, m, selected);
      }
    }
    HunksCommit(before, 0, after, 0, hunks, 0, selected, isNew);
  }

  /**
   Applied to the new file, the patch of `FormatPatchToDiscardChanges` gives the file in which exactly
   the changes that are not discarded happened.
   */
  lemma DiscardPatchDiscards(before: seq<FileLine>, after: seq<FileLine>, hunks: seq<DiffHunk>, discarded: Selection)
    requires TakesTo(before, 0, after, 0, hunks, 0)
    ensures Apply(after, 0, EmitPatch(hunks, 0, discarded, Discard()))
         == Some(Chosen(before, 0, hunks, 0, Others(discarded)))
  {
    HunksDiscard(before, 0, after, 0, hunks, 0, discarded, Others(discarded));
  }

  /** Committing a selection to the old file and discarding all else from the new one give the same file. */
  lemma CommitDiscardDuality(before: seq<FileLine>, after: seq<FileLine>, hunks: seq<DiffHunk>,
                             selected: Selection, discarded: Selection, isNew: bool)
    requires TakesTo(before, 0, after, 0, hunks, 0) && (isNew ==> before == []) && Opposite(discarded, selected)
    ensures Apply(before, 0, EmitPatch(hunks, 0, selected, Commit(isNew))).Some?
    ensures Apply(before, 0, EmitPatch(hunks, 0, selected, Commit(isNew)))
         == Apply(after, 0, EmitPatch(hunks, 0, discarded, Discard()))
  {
    CommitPatchCommits(before, after, hunks, selected, isNew);
    HunksDiscard(before, 0, after, 0, hunks, 0, discarded, selected);
  }

  // ---------- The two ends ----------

  lemma {:induction false} KeptAll(h: DiffHunk, n: nat, selected: Selection, all: bool)
    requires forall i :: selected(i) == all
    ensures Kept(h, n, selected) == if all then NewLines(h.lines, n) else OldLines(h.lines, n)
    decreases |h.lines| - n
  {
    if n < |h.lines| {
      KeptAll(h, n + 1, selected, all);
    }
  }

  /** What is chosen from `before[i..]` by the hunks from `k` on is `file[j..]`. */
  ghost predicate Chooses(before: seq<FileLine>, i: nat, hunks: seq<DiffHunk>, k: nat, selected: Selection,
                          file: seq<FileLine>, j: nat)
    requires i <= |before| && j <= |file|
  {
    Chosen(before, i, hunks, k, selected) == file[j..]
  }

  lemma {:induction false} AllChosen(before: seq<FileLine>, i: nat, after: seq<FileLine>, j: nat,
                                     hunks: seq<DiffHunk>, k: nat, selected: Selection)
    requires i <= |before| && j <= |after| && TakesTo(before, i, after, j, hunks, k)
    requires forall i :: selected(i) == true
    ensures Chooses(before, i, hunks, k, selected, after, j)
    decreases |hunks| - k
  {
    if k < |hunks| {
      var h := hunks[k];
      AllChosen(before, OldAnchor(h.header) + |Preimage(h)|, after, NewAnchor(h.header) + |Postimage(h)|,
                hunks, k + 1, selected);
      KeptAll(h, 0, selected, true);
      PostimageKept(before, i, after, j, hunks, k, selected);
    }
  }

  lemma {:induction false} NoneChosen(before: seq<FileLine>, i: nat, after: seq<FileLine>, j: nat,
                                      hunks: seq<DiffHunk>, k: nat, selected: Selection)
    requires i <= |before| && j <= |after| && TakesTo(before, i, after, j, hunks, k)
    requires forall i :: selected(i) == false
    ensures Chooses(before, i, hunks, k, selected, before, i)
    decreases |hunks| - k
  {
    if k < |hunks| {
      var h := hunks[k];
      NoneChosen(before, OldAnchor(h.header) + |Preimage(h)|, after, NewAnchor(h.header) + |Postimage(h)|,
                 hunks, k + 1, selected);
      KeptAll(h, 0, selected, false);
      PreimageKept(before, i, after, j, hunks, k, selected);
    }
  }

  lemma PostimageKept(before: seq<FileLine>, i: nat, after: seq<FileLine>, j: nat,
                      hunks: seq<DiffHunk>, k: nat, selected: Selection)
    requires k < |hunks| && Shows(hunks[k], before, i, after, j) && Kept(hunks[k], 0, selected) == Postimage(hunks[k])
    requires Chooses(before, OldAnchor(hunks[k].header) + |Preimage(hunks[k])|, hunks, k + 1, selected,
                     after, NewAnchor(hunks[k].header) + |Postimage(hunks[k])|)
    ensures Chooses(before, i, hunks, k, selected, after, j)
  {
    ThreeParts(after, j, NewAnchor(hunks[k].header), Postimage(hunks[k]));
  }

  lemma PreimageKept(before: seq<FileLine>, i: nat, after: seq<FileLine>, j: nat,
                     hunks: seq<DiffHunk>, k: nat, selected: Selection)
    requires k < |hunks| && Shows(hunks[k], before, i, after, j) && Kept(hunks[k], 0, selected) == Preimage(hunks[k])
    requires Chooses(before, OldAnchor(hunks[k].header) + |Preimage(hunks[k])|, hunks, k + 1, selected,
                     before, OldAnchor(hunks[k].header) + |Preimage(hunks[k])|)
    ensures Chooses(before, i, hunks, k, selected, before, i)
  {
    ThreeParts(before, i, OldAnchor(hunks[k].header), Preimage(hunks[k]));
  }

  /** With every change selected the chosen file is the new file. */
  lemma ChosenAll(before: seq<FileLine>, after: seq<FileLine>, hunks: seq<DiffHunk>, selected: Selection)
    requires TakesTo(before, 0, after, 0, hunks, 0) && forall i :: selected(i) == true
    ensures Chosen(before, 0, hunks, 0, selected) == after
  {
    AllChosen(before, 0, after, 0, hunks, 0, selected);
    assert after[0..] == after;
  }

  /** With none selected it is the old file. */
  lemma ChosenNone(before: seq<FileLine>, after: seq<FileLine>, hunks: seq<DiffHunk>, selected: Selection)
    requires TakesTo(before, 0, after, 0, hunks, 0) && forall i :: selected(i) == false
    ensures Chosen(before, 0, hunks, 0, selected) == before
  {
    NoneChosen(before, 0, after, 0, hunks, 0, selected);
    assert before[0..] == before;
  }
}
