/**
 When the contents of a parsed diff are just the texts of its lines: exactly when every marker line
 of the diff is git's standard one.
 */
module DiffContents {
  import opened Strings
  import opened UnifiedDiff
  import opened DiffParsing
  import opened ParsedDiff

  predicate IsMarker(line: string) {
    line != "" && line[0] == '\\'
  }

  function Unmarked(lines: seq<string>): seq<string> {
    if |lines| == 0 then []
    else if IsMarker(lines[0]) then Unmarked(lines[1..])
    else [lines[0]] + Unmarked(lines[1..])
  }

  predicate AllMarkersAre(lines: seq<string>, marker: string) {
    |lines| > 0 ==> (IsMarker(lines[0]) ==> lines[0] == marker) && AllMarkersAre(lines[1..], marker)
  }

  // ---------- Removing markers from joined lines ----------

  /** The lines, each behind a newline. */
  function Tailed(lines: seq<string>): string {
    if |lines| == 0 then "" else "\n" + lines[0] + Tailed(lines[1..])
  }

  /** What is left of them when a newline followed by the marker is removed wherever it stands. */
  function Stripped(lines: seq<string>, marker: string): string {
    if |lines| == 0 then ""
    else (if marker <= lines[0] then lines[0][|marker|..] else "\n" + lines[0]) + Stripped(lines[1..], marker)
  }

  predicate StartsLine(t: string) {
    t == "" || t[0] == '\n'
  }

  /** Nothing is removed from within a line. */
  lemma {:induction false} RemoveKeepsLine(l: string, t: string, marker: string)
    requires '\n' !in l && StartsLine(t)
    ensures RemoveAll(l + t, "\n" + marker) == l + RemoveAll(t, "\n" + marker)
  {
    if l == "" {
      assert l + t == t;
      assert l + RemoveAll(t, "\n" + marker) == RemoveAll(t, "\n" + marker);
    } else {
      var s := l + t;
      assert s[0] == l[0] != '\n' && s[1..] == l[1..] + t;
      RemoveKeepsLine(l[1..], t, marker);
      assert [l[0]] + (l[1..] + RemoveAll(t, "\n" + marker)) == l + RemoveAll(t, "\n" + marker);
    }
  }

  /** At the start of a line the marker is found exactly if the line starts with it. */
  lemma MarkerAtLine(l: string, t: string, marker: string)
    requires '\n' !in l && '\n' !in marker && StartsLine(t)
    ensures ("\n" + marker <= "\n" + l + t) <==> marker <= l
    ensures marker <= l ==> ("\n" + l + t)[|marker| + 1..] == l[|marker|..] + t
    ensures ("\n" + l + t)[1..] == l + t
  {
    var s, p := "\n" + l + t, "\n" + marker;
    assert s[1..] == l + t;
    assert forall k :: 0 <= k < |marker| ==> p[k + 1] == marker[k];
    assert forall k :: 0 <= k < |l| ==> s[k + 1] == l[k];
    if |l| < |marker| {
      assert marker[|l|] != '\n' && p[|l| + 1] == marker[|l|];
      assert t != "" ==> s[|l| + 1] == t[0];
    } else if p <= s {
      assert forall k :: 0 <= k < |marker| ==> marker[k] == p[k + 1] == s[k + 1] == l[k];
    }
    if marker <= l {
      assert forall k :: 0 <= k < |marker| ==> p[k + 1] == l[k] == s[k + 1];
    }
  }

  lemma RemovedAtLine(l: string, t: string, marker: string)
    requires '\n' !in l && '\n' !in marker && StartsLine(t) && marker <= l
    ensures RemoveAll("\n" + l + t, "\n" + marker) == RemoveAll(l[|marker|..] + t, "\n" + marker)
  {
    MarkerAtLine(l, t, marker);
  }

  lemma KeptAtLine(l: string, t: string, marker: string)
    requires '\n' !in l && '\n' !in marker && StartsLine(t) && !(marker <= l)
    ensures RemoveAll("\n" + l + t, "\n" + marker) == "\n" + RemoveAll(l + t, "\n" + marker)
  {
    MarkerAtLine(l, t, marker);
  }

  lemma StrippedStep(l: string, rest: seq<string>, marker: string)
    requires '\n' !in l && '\n' !in marker
    requires RemoveAll(Tailed(rest), "\n" + marker) == Stripped(rest, marker)
    ensures RemoveAll("\n" + l + Tailed(rest), "\n" + marker)
         == (if marker <= l then l[|marker|..] else "\n" + l) + Stripped(rest, marker)
  {
    var t := Tailed(rest);
    if marker <= l {
      RemovedAtLine(l, t, marker);
      RemoveKeepsLine(l[|marker|..], t, marker);
    } else {
      KeptAtLine(l, t, marker);
      RemoveKeepsLine(l, t, marker);
      Associate("\n", l, Stripped(rest, marker));
    }
  }

  lemma {:induction false} RemoveIsStripped(lines: seq<string>, marker: string)
    requires Free(lines, '\n') && '\n' !in marker
    ensures RemoveAll(Tailed(lines), "\n" + marker) == Stripped(lines, marker)
  {
    if |lines| > 0 {
      RemoveIsStripped(lines[1..], marker);
      StrippedStep(lines[0], lines[1..], marker);
    }
  }

  /** How much longer the stripped lines are than the unmarked ones. */
  function Excess(lines: seq<string>, marker: string): nat {
    if |lines| == 0 then 0
    else
      var rest := Excess(lines[1..], marker);
      if !IsMarker(lines[0]) then rest
      else if marker <= lines[0] then rest + |lines[0]| - |marker|
      else rest + |lines[0]| + 1
  }

  lemma {:induction false} StrippedLength(lines: seq<string>, marker: string)
    requires IsMarker(marker)
    ensures |Stripped(lines, marker)| == |Tailed(Unmarked(lines))| + Excess(lines, marker)
    ensures Excess(lines, marker) == 0 <==> AllMarkersAre(lines, marker)
  {
    if |lines| > 0 {
      StrippedLength(lines[1..], marker);
      TailedFirst(lines[0], Unmarked(lines[1..]));
      if IsMarker(lines[0]) && marker <= lines[0] && |lines[0]| == |marker| {
        assert lines[0] == marker;
      }
    }
  }

  lemma TailedFirst(l: string, rest: seq<string>)
    ensures Tailed([l] + rest) == "\n" + l + Tailed(rest)
  {
    assert ([l] + rest)[1..] == rest;
  }

  lemma {:induction false} StandardStripped(lines: seq<string>, marker: string)
    requires IsMarker(marker) && AllMarkersAre(lines, marker)
    ensures Stripped(lines, marker) == Tailed(Unmarked(lines))
  {
    if |lines| > 0 {
      StandardStripped(lines[1..], marker);
      TailedFirst(lines[0], Unmarked(lines[1..]));
      if IsMarker(lines[0]) {
        assert lines[0][|marker|..] == "";
        assert "" + Stripped(lines[1..], marker) == Stripped(lines[1..], marker);
      }
    }
  }

  // ---------- Joined lines ----------

  lemma {:induction false} JoinIsTailed(first: string, rest: seq<string>)
    ensures Join([first] + rest, '\n') == first + Tailed(rest)
    decreases |rest|
  {
    if |rest| == 0 {
      assert first + "" == first;
    } else {
      JoinFirst(first, rest, '\n');
      HeadAndTail(rest);
      JoinIsTailed(rest[0], rest[1..]);
      Associate4(first, "\n", rest[0], Tailed(rest[1..]));
    }
  }

  /** The marker, removed wherever it follows a newline, leaves the unmarked lines: just if every marker line is it. */
  lemma RemoveMarkers(first: string, rest: seq<string>, marker: string)
    requires '\n' !in first && Free(rest, '\n') && '\n' !in marker && IsMarker(marker)
    ensures RemoveAll(Join([first] + rest, '\n'), "\n" + marker) == Join([first] + Unmarked(rest), '\n')
       <==> AllMarkersAre(rest, marker)
  {
    JoinIsTailed(first, rest);
    JoinIsTailed(first, Unmarked(rest));
    RemoveKeepsLine(first, Tailed(rest), marker);
    RemoveIsStripped(rest, marker);
    StrippedLength(rest, marker);
    if AllMarkersAre(rest, marker) {
      StandardStripped(rest, marker);
    }
  }

  // ---------- The parser's contents ----------

  function Texts(lines: seq<DiffLine>): seq<string> {
    if |lines| == 0 then [] else Texts(lines[..|lines| - 1]) + [lines[|lines| - 1].text]
  }

  /** The texts of the lines of the hunks, in the order of their absolute indices. */
  function AllTexts(hunks: seq<DiffHunk>): seq<string> {
    if |hunks| == 0 then [] else AllTexts(hunks[..|hunks| - 1]) + Texts(hunks[|hunks| - 1].lines)
  }

  lemma {:induction false} BodyTexts(lines: seq<string>, p: nat, s: BodyState)
    requires p <= |lines| && |s.lines| > 0 && ReadBody(lines, p, s).Ok?
    ensures var (body, p') := ReadBody(lines, p, s).value;
      Texts(body) + UnmarkedFrom(lines, p') == Texts(s.lines) + UnmarkedFrom(lines, p)
    decreases |lines| - p
  {
    if p < |lines| && InBody(lines[p]) {
      BodyLineTexts(lines[p], s, UnmarkedFrom(lines, p + 1));
      BodyTexts(lines, p + 1, ReadBodyLine(lines[p], s).value);
    }
  }

  /** The unmarked ones of the lines from index `p` on. */
  function UnmarkedFrom(lines: seq<string>, p: nat): seq<string>
    requires p <= |lines|
    decreases |lines| - p
  {
    if p == |lines| then []
    else if IsMarker(lines[p]) then UnmarkedFrom(lines, p + 1)
    else [lines[p]] + UnmarkedFrom(lines, p + 1)
  }

  lemma {:induction false} UnmarkedFromIs(lines: seq<string>, p: nat)
    requires p <= |lines|
    ensures UnmarkedFrom(lines, p) == Unmarked(lines[p..])
    decreases |lines| - p
  {
    if p < |lines| {
      UnmarkedFromIs(lines, p + 1);
      assert lines[p..][1..] == lines[p + 1..];
    }
  }

  lemma BodyLineTexts(line: string, s: BodyState, rest: seq<string>)
    requires line != "" && |s.lines| > 0 && ReadBodyLine(line, s).Ok?
    ensures var s' := ReadBodyLine(line, s).value;
      Texts(s'.lines) + rest == Texts(s.lines) + (if IsMarker(line) then rest else [line] + rest)
  {
    var s' := ReadBodyLine(line, s).value;
    if IsMarker(line) {
      assert Mark(s.lines)[..|s.lines| - 1] == s.lines[..|s.lines| - 1];
    } else {
      assert s'.lines[..|s.lines|] == s.lines;
      Associate(Texts(s.lines), [line], rest);
    }
  }

  lemma UnmarkedFirst(line: string, rest: seq<string>)
    ensures Unmarked([line] + rest) == if IsMarker(line) then Unmarked(rest) else [line] + Unmarked(rest)
  {
    assert ([line] + rest)[1..] == rest;
  }

  lemma HunkTexts(lines: seq<string>, p: nat, linesConsumed: nat)
    requires p <= |lines| && ReadHunk(lines, p, linesConsumed).Ok?
    ensures var (h, p') := ReadHunk(lines, p, linesConsumed).value;
      && Texts(h.lines) + UnmarkedFrom(lines, p') == UnmarkedFrom(lines, p)
      && !IsMarker(lines[p])
  {
    var first := DiffLine(lines[p], Hunk, 1, None, None, false);
    BodyTexts(lines, p + 1, StartBody(lines[p], ParseHunkHeader(lines[p]).value, linesConsumed));
    assert [first][..0] == [] && Texts([first]) == [lines[p]];
  }

  lemma {:induction false} HunksTexts(lines: seq<string>, p: nat, linesConsumed: nat, acc: seq<DiffHunk>)
    requires p <= |lines| && ReadHunks(lines, p, linesConsumed, acc).Ok?
    ensures AllTexts(ReadHunks(lines, p, linesConsumed, acc).value) == AllTexts(acc) + UnmarkedFrom(lines, p)
    decreases |lines| - p
  {
    var (h, p') := ReadHunk(lines, p, linesConsumed).value;
    HunkTexts(lines, p, linesConsumed);
    assert (acc + [h])[..|acc|] == acc;
    Associate(AllTexts(acc), Texts(h.lines), UnmarkedFrom(lines, p'));
    if p' < |lines| {
      HunksTexts(lines, p', linesConsumed + |h.lines|, acc + [h]);
    } else {
      assert AllTexts(acc + [h]) + [] == AllTexts(acc + [h]);
    }
  }

  // ---------- The theorem ----------

  /**
   For every accepted diff with hunks: its contents, split at newlines, are the texts of its lines in
   the order of their indices exactly if every marker line behind the header is git's standard one.
   */
  lemma ContentsAreTexts(diff: string)
    requires ReadDiff(Lines(diff, 0)).Ok? && ReadDiffHeader(Lines(diff, 0), 0).0 == Textual
    ensures var lines := Lines(diff, 0);
      var raw, behind := ReadDiff(lines).value, lines[ReadDiffHeader(lines, 0).1..];
      Split(raw.contents, '\n') == AllTexts(raw.hunks) <==> AllMarkersAre(behind, NO_NEWLINE_MARKER)
  {
    var lines := Lines(diff, 0);
    var p := ReadDiffHeader(lines, 0).1;
    LinesHoldNoNewline(diff, 0);
    FreeFrom(lines, '\n', p);
    ContentsFrom(lines, p, ReadHunks(lines, p, 0, []).value);
  }

  lemma {:induction false} FreeFrom(lines: seq<string>, c: char, p: nat)
    requires p <= |lines| && Free(lines, c)
    ensures Free(lines[p..], c)
    decreases p
  {
    if p == 0 {
      assert lines[0..] == lines;
    } else {
      FreeFrom(lines[1..], c, p - 1);
      assert lines[1..][p - 1..] == lines[p..];
    }
  }

  /** The same of the lines behind a header. */
  lemma ContentsFrom(lines: seq<string>, p: nat, hunks: seq<DiffHunk>)
    requires p <= |lines| && Free(lines[p..], '\n') && ReadHunks(lines, p, 0, []) == Ok(hunks)
    ensures Split(Contents(lines[p..]), '\n') == AllTexts(hunks) <==> AllMarkersAre(lines[p..], NO_NEWLINE_MARKER)
  {
    TextsOfHunks(lines, p, hunks);
    SplitContents(lines[p..]);
  }

  lemma TextsOfHunks(lines: seq<string>, p: nat, hunks: seq<DiffHunk>)
    requires p <= |lines| && ReadHunks(lines, p, 0, []) == Ok(hunks)
    ensures p < |lines| && !IsMarker(lines[p..][0])
    ensures AllTexts(hunks) == Unmarked(lines[p..])
  {
    HunksTexts(lines, p, 0, []);
    HunkTexts(lines, p, 0);
    UnmarkedFromIs(lines, p);
    assert [] + UnmarkedFrom(lines, p) == UnmarkedFrom(lines, p);
  }

  lemma SplitContents(lines: seq<string>)
    requires |lines| > 0 && Free(lines, '\n') && !IsMarker(lines[0])
    ensures Split(Contents(lines), '\n') == Unmarked(lines) <==> AllMarkersAre(lines, NO_NEWLINE_MARKER)
  {
    HeadAndTail(lines);
    SplitJoinUnmarked(Contents(lines), lines[0], lines[1..], NO_NEWLINE_MARKER);
  }

  lemma SplitJoinUnmarked(contents: string, first: string, rest: seq<string>, marker: string)
    requires '\n' !in first && Free(rest, '\n') && !IsMarker(first) && '\n' !in marker && IsMarker(marker)
    requires contents == RemoveAll(Join([first] + rest, '\n'), "\n" + marker)
    ensures Split(contents, '\n') == Unmarked([first] + rest) <==> AllMarkersAre([first] + rest, marker)
  {
    RemoveMarkers(first, rest, marker);
    UnmarkedFirst(first, rest);
    UnmarkedNewlineFree(rest);
    SplitIffJoin(contents, first, Unmarked(rest));
    assert ([first] + rest)[1..] == rest;
  }

  lemma {:induction false} UnmarkedNewlineFree(lines: seq<string>)
    requires Free(lines, '\n')
    ensures Free(Unmarked(lines), '\n')
  {
    if |lines| > 0 {
      UnmarkedNewlineFree(lines[1..]);
      if !IsMarker(lines[0]) {
        FreeFirst(lines[0], Unmarked(lines[1..]), '\n');
      }
    }
  }

  lemma SplitIffJoin(text: string, first: string, rest: seq<string>)
    requires '\n' !in first && Free(rest, '\n')
    ensures Split(text, '\n') == [first] + rest <==> text == Join([first] + rest, '\n')
  {
    var parts := [first] + rest;
    JoinOfSplit(text, '\n');
    FreeFirst(first, rest, '\n');
    SplitOfJoin(parts, '\n');
  }
}
