/**
 Which texts the diff parser accepts and what it makes of them, said of the physical lines alone: binary
 markers, hunk headers, the lines of a hunk and its no-newline markers.
 */
module DiffGrammar {
  import opened Strings
  import opened Decimal
  import opened UnifiedDiff
  import opened DiffParsing
  import opened ParsedDiff
  import opened DiffContents

  // ---------- The diff header ----------

  predicate SaysBinary(line: string) {
    "Binary files " <= line && |line| >= 6 && line[|line| - 6..] == "differ"
  }

  predicate NamesNewFile(line: string) {
    "+++" <= line
  }

  /** Line `k` says that the files are binary, and no line before it is empty or names the new file. */
  ghost predicate BinaryAt(lines: seq<string>, k: nat) {
    k < |lines| && SaysBinary(lines[k]) && forall j :: 0 <= j < k ==> lines[j] != "" && !NamesNewFile(lines[j])
  }

  /** The line is not empty, names no new file and does not say that the files are binary. */
  predicate IsPassed(line: string) {
    line != "" && !NamesNewFile(line) && !SaysBinary(line)
  }

  /** All lines before line `k` are passed. */
  ghost predicate Reaches(lines: seq<string>, k: nat) {
    k <= |lines| && forall j :: 0 <= j < k ==> IsPassed(lines[j])
  }

  /** Line `k` names the new file, and all lines before it are passed. */
  ghost predicate TextualAt(lines: seq<string>, k: nat) {
    Reaches(lines, k) && k < |lines| && NamesNewFile(lines[k])
  }

  lemma SuffixIs(s: string, suffix: string)
    requires |suffix| <= |s|
    ensures EndsWith(s, suffix) <==> s[|s| - |suffix|..] == suffix
  {
    var tail := s[|s| - |suffix|..];
    assert forall k :: 0 <= k < |suffix| ==> tail[k] == s[|s| - |suffix| + k];
  }

  lemma LineInfoIs(line: string)
    ensures HeaderLineInfo(line) == if SaysBinary(line) then Some(Binary)
                                    else if NamesNewFile(line) then Some(Textual) else None
    ensures SaysBinary(line) ==> !NamesNewFile(line) && line != ""
  {
    if |line| >= 6 {
      SuffixIs(line, "differ");
    }
    if SaysBinary(line) {
      assert line[0] == "Binary files "[0] == 'B';
    }
  }

  /** The search for the header's end passes lines up to the first that is not passed. */
  lemma {:induction false} SearchStops(lines: seq<string>, p: nat) returns (k: nat)
    requires Reaches(lines, p)
    ensures p <= k <= |lines| && Reaches(lines, k) && (k < |lines| ==> !IsPassed(lines[k]))
    ensures ReadDiffHeader(lines, p) ==
      if k == |lines| then (NotFound, k)
      else (if SaysBinary(lines[k]) then Binary else if NamesNewFile(lines[k]) then Textual else NotFound, k + 1)
    decreases |lines| - p
  {
    k := p;
    if p < |lines| {
      LineInfoIs(lines[p]);
      if IsPassed(lines[p]) {
        k := SearchStops(lines, p + 1);
      }
    }
  }

  /** Where the search stops decides what kind of diff it is. */
  lemma KindIs(lines: seq<string>) returns (k: nat)
    ensures Reaches(lines, k) && (k < |lines| ==> !IsPassed(lines[k]))
    ensures ReadDiffHeader(lines, 0) ==
      if k == |lines| then (NotFound, k)
      else (if SaysBinary(lines[k]) then Binary else if NamesNewFile(lines[k]) then Textual else NotFound, k + 1)
    ensures k < |lines| && SaysBinary(lines[k]) <==> exists m: nat :: BinaryAt(lines, m)
    ensures forall m: nat :: TextualAt(lines, m) <==> m == k < |lines| && NamesNewFile(lines[k])
  {
    k := SearchStops(lines, 0);
    if k < |lines| {
      LineInfoIs(lines[k]);
      assert SaysBinary(lines[k]) ==> BinaryAt(lines, k);
    }
    forall m: nat | BinaryAt(lines, m) ensures k < |lines| && SaysBinary(lines[k]) {
      assert !IsPassed(lines[m]);
      assert k <= m;
    }
    forall m: nat | TextualAt(lines, m) ensures m == k {
      assert !IsPassed(lines[m]);
    }
  }

  /**
   A diff is binary exactly if a line says so before any line is empty or names the new file. Then, and when
   no line names the new file, it has no hunks and no contents.
   */
  lemma BinaryDiffIff(diff: string)
    ensures var lines, r := Lines(diff, 0), ReadDiff(Lines(diff, 0));
      && (r.Ok? && r.value.isBinary <==> exists k: nat :: BinaryAt(lines, k))
      && ((forall k: nat :: !TextualAt(lines, k)) ==> r.Ok? && r.value.hunks == [] && r.value.contents == "")
  {
    var lines := Lines(diff, 0);
    var k := KindIs(lines);
    assert k < |lines| && NamesNewFile(lines[k]) ==> TextualAt(lines, k);
  }

  /** The header of an accepted diff is its lines up to the one that ends the search, if any does. */
  lemma HeaderTextIs(diff: string, k: nat)
    requires var lines := Lines(diff, 0); Reaches(lines, k) && (k < |lines| ==> !IsPassed(lines[k]))
    requires ReadDiff(Lines(diff, 0)).Ok?
    ensures var lines := Lines(diff, 0);
      ReadDiff(lines).value.header == Join(lines[..if k < |lines| then k + 1 else k], '\n')
  {
    var lines := Lines(diff, 0);
    var m := SearchStops(lines, 0);
    assert k == m;
  }

  // ---------- Hunk headers ----------

  /** A count as a hunk header has it: left out, or digits behind a comma. */
  predicate IsCount(count: string) {
    count != "" ==> IsDigits(count)
  }

  function CountText(count: string): string {
    if count == "" then "" else "," + count
  }

  function CountOf(count: string): nat {
    if count == "" then 1 else Value(count, 0, |count|)
  }

  /** `@@ -a,b +c,d @@` and a heading, where `b` and `d` can be missing. */
  ghost predicate IsHunkHeader(line: string, a: string, b: string, c: string, d: string, heading: string) {
    && IsDigits(a) && IsCount(b) && IsDigits(c) && IsCount(d)
    && line == "@@ -" + a + CountText(b) + " +" + c + CountText(d) + " @@" + heading
  }

  /** The text stands in the line at index `k`. */
  predicate StandsAt(line: string, k: nat, text: string) {
    k + |text| <= |line| && forall i :: 0 <= i < |text| ==> text[i] == line[k + i]
  }

  lemma {:induction false} SameValue(line: string, k: nat, a: string, n: nat)
    requires StandsAt(line, k, a) && n <= |a|
    ensures Value(line, k, k + n) == Value(a, 0, n)
  {
    if n > 0 {
      SameValue(line, k, a, n - 1);
    }
  }

  lemma NumberRead(line: string, k: nat, a: string, e: nat)
    requires StandsAt(line, k, a) && IsDigits(a) && e == k + |a| < |line| && !IsDigit(line[e])
    ensures DigitsEnd(line, k) == e && Value(line, k, e) == Value(a, 0, |a|)
  {
    assert forall m :: k <= m < e ==> a[m - k] == line[m];
    DigitsEndAt(line, k, e);
    SameValue(line, k, a, |a|);
  }

  lemma CountRead(line: string, k: nat, count: string, e: nat)
    requires StandsAt(line, k, CountText(count)) && IsCount(count)
    requires e == k + |CountText(count)| < |line| && line[e] == ' '
    ensures ReadCount(line, k) == (CountOf(count), e)
  {
    if count != "" {
      var text := CountText(count);
      assert text[0] == line[k] == ',';
      assert forall i :: 0 <= i < |count| ==> count[i] == text[i + 1] == line[k + 1 + i];
      NumberRead(line, k + 1, count, e);
    }
  }

  /** Where the two ranges of a hunk header stand, and what stands around them. */
  predicate Frames(line: string, e: nat, f: nat) {
    && 4 <= e && e + 2 <= f && f + 3 <= |line|
    && line[0] == '@' && line[1] == '@' && line[2] == ' ' && line[3] == '-'
    && line[e] == ' ' && line[e + 1] == '+' && line[f] == ' ' && line[f + 1] == '@' && line[f + 2] == '@'
  }

  lemma RangesAreParsed(line: string, h: HunkHeader, a: nat, e: nat, c: nat, f: nat)
    requires Frames(line, e, f) && 4 < a <= |line| && e + 2 < c <= |line|
    requires DigitsEnd(line, 4) == a && Value(line, 4, a) == h.oldStartLine && ReadCount(line, a) == (h.oldLineCount, e)
    requires DigitsEnd(line, e + 2) == c && Value(line, e + 2, c) == h.newStartLine
    requires ReadCount(line, c) == (h.newLineCount, f)
    ensures ParseHunkHeader(line) == Ok(h)
  {
  }

  /** A number and a count that stand at `k` before a space are read. */
  lemma RangeRead(line: string, k: nat, a: string, m: nat, b: string, e: nat)
    requires StandsAt(line, k, a) && IsDigits(a) && StandsAt(line, m, CountText(b)) && IsCount(b)
    requires m == k + |a| && e == m + |CountText(b)| < |line| && line[e] == ' '
    ensures DigitsEnd(line, k) == m && Value(line, k, m) == Value(a, 0, |a|) && ReadCount(line, m) == (CountOf(b), e)
  {
    assert b != "" ==> CountText(b)[0] == line[m] == ',';
    CountRead(line, m, b, e);
    NumberRead(line, k, a, m);
  }

  /** The pieces of a hunk header stand one behind the other. */
  lemma PiecesStand(line: string, a: string, b: string, c: string, d: string, heading: string)
    returns (m: nat, e: nat, n: nat, f: nat)
    requires line == "@@ -" + a + b + " +" + c + d + " @@" + heading
    ensures m == 4 + |a| && e == m + |b| && n == e + 2 + |c| && f == n + |d|
    ensures StandsAt(line, 4, a) && StandsAt(line, m, b) && StandsAt(line, e + 2, c) && StandsAt(line, n, d)
    ensures Frames(line, e, f)
  {
    m := 4 + |a|;
    e := m + |b|;
    n := e + 2 + |c|;
    f := n + |d|;
  }

  lemma HeaderAccepted(line: string, a: string, b: string, c: string, d: string, heading: string)
    requires IsHunkHeader(line, a, b, c, d, heading)
    ensures ParseHunkHeader(line) == Ok(HunkHeader(Value(a, 0, |a|), CountOf(b), Value(c, 0, |c|), CountOf(d)))
  {
    var m, e, n, f := PiecesStand(line, a, CountText(b), c, CountText(d), heading);
    StandingIsRead(line, a, b, c, d, m, e, n, f);
  }

  lemma StandingIsRead(line: string, a: string, b: string, c: string, d: string, m: nat, e: nat, n: nat, f: nat)
    requires IsDigits(a) && IsCount(b) && IsDigits(c) && IsCount(d) && Frames(line, e, f)
    requires m == 4 + |a| && e == m + |CountText(b)| && n == e + 2 + |c| && f == n + |CountText(d)|
    requires StandsAt(line, 4, a) && StandsAt(line, m, CountText(b))
    requires StandsAt(line, e + 2, c) && StandsAt(line, n, CountText(d))
    ensures ParseHunkHeader(line) == Ok(HunkHeader(Value(a, 0, |a|), CountOf(b), Value(c, 0, |c|), CountOf(d)))
  {
    RangeRead(line, 4, a, m, b, e);
    RangeRead(line, e + 2, c, n, d, f);
    RangesAreParsed(line, HunkHeader(Value(a, 0, |a|), CountOf(b), Value(c, 0, |c|), CountOf(d)), m, e, n, f);
  }

  /** The count read at `k` is one that stands there. */
  lemma CountStands(line: string, k: nat) returns (count: string)
    requires k <= |line|
    ensures IsCount(count) && CountText(count) == line[k..ReadCount(line, k).1]
  {
    var (n, e) := ReadCount(line, k);
    count := if e == k then "" else line[k + 1..e];
    if k < |line| {
      DigitsEndIs(line, k + 1);
    }
    if e > k {
      assert line[k..e] == "," + count;
    }
  }

  /** The digits read at `k` are digits. */
  lemma DigitsStand(line: string, k: nat) returns (a: string)
    requires k <= |line| && DigitsEnd(line, k) > k
    ensures IsDigits(a) && a == line[k..DigitsEnd(line, k)]
  {
    DigitsEndIs(line, k);
    a := line[k..DigitsEnd(line, k)];
  }

  /** Where the pieces of a line that is read as a hunk header end. */
  lemma RangesStand(line: string) returns (e: nat, f: nat, g: nat, h: nat)
    requires ParseHunkHeader(line).Ok?
    ensures 4 < e <= f && f + 2 < g <= h && Frames(line, f, h)
    ensures DigitsEnd(line, 4) == e && ReadCount(line, e).1 == f
    ensures DigitsEnd(line, f + 2) == g && ReadCount(line, g).1 == h
  {
    e := DigitsEnd(line, 4);
    f := ReadCount(line, e).1;
    g := DigitsEnd(line, f + 2);
    h := ReadCount(line, g).1;
  }

  lemma HeaderHasForm(line: string) returns (a: string, b: string, c: string, d: string, heading: string)
    requires ParseHunkHeader(line).Ok?
    ensures IsHunkHeader(line, a, b, c, d, heading)
  {
    var e, f, g, h := RangesStand(line);
    a := DigitsStand(line, 4);
    b := CountStands(line, e);
    c := DigitsStand(line, f + 2);
    d := CountStands(line, g);
    heading := SixPieces(line, e, f, g, h, a, CountText(b), c, CountText(d));
  }

  lemma SixPieces(line: string, e: nat, f: nat, g: nat, h: nat, a: string, b: string, c: string, d: string)
    returns (heading: string)
    requires 4 <= e <= f && f + 2 <= g <= h && Frames(line, f, h)
    requires a == line[4..e] && b == line[e..f] && c == line[f + 2..g] && d == line[g..h]
    ensures line == "@@ -" + a + b + " +" + c + d + " @@" + heading
  {
    heading := line[h + 3..];
    assert line[..4] == "@@ -" && line[f..f + 2] == " +" && line[h..h + 3] == " @@";
    assert line == line[..4] + line[4..e] + line[e..f] + line[f..f + 2] + line[f + 2..g] + line[g..h]
                   + line[h..h + 3] + line[h + 3..];
  }

  /** The line has the form of a hunk header, and these are the numbers in it. */
  ghost predicate Announces(line: string, header: HunkHeader) {
    exists a, b, c, d, heading :: IsHunkHeader(line, a, b, c, d, heading)
      && header == HunkHeader(Value(a, 0, |a|), CountOf(b), Value(c, 0, |c|), CountOf(d))
  }

  /** A line is read as a hunk header exactly if it has the form of one, and then its numbers are those in it. */
  lemma HunkHeaderIff(line: string, header: HunkHeader)
    ensures ParseHunkHeader(line) == Ok(header) <==> Announces(line, header)
  {
    if ParseHunkHeader(line).Ok? {
      var a, b, c, d, heading := HeaderHasForm(line);
      HeaderAccepted(line, a, b, c, d, heading);
    }
    forall a, b, c, d, heading | IsHunkHeader(line, a, b, c, d, heading)
      ensures ParseHunkHeader(line) == Ok(HunkHeader(Value(a, 0, |a|), CountOf(b), Value(c, 0, |c|), CountOf(d)))
    {
      HeaderAccepted(line, a, b, c, d, heading);
    }
  }

  // ---------- The lines of a hunk ----------

  /** The line is one of a hunk: an addition, a deletion, a context line or a marker. */
  predicate IsHunkLine(line: string) {
    line != "" && (line[0] == '+' || line[0] == '-' || line[0] == ' ' || line[0] == '\\')
  }

  /** Behind nothing but markers, from line `k` on, comes a line of a hunk that is none. */
  predicate LineFollows(lines: seq<string>, k: nat)
    decreases |lines| - k
  {
    k < |lines| && IsHunkLine(lines[k]) && (IsMarker(lines[k]) ==> LineFollows(lines, k + 1))
  }

  /** Where the lines of a hunk from `k` on end. */
  function HunkEnd(lines: seq<string>, k: nat): (e: nat)
    requires k <= |lines|
    ensures k <= e <= |lines|
    decreases |lines| - k
  {
    if k == |lines| || !IsHunkLine(lines[k]) then k else HunkEnd(lines, k + 1)
  }

  lemma {:induction false} HunkEndIs(lines: seq<string>, k: nat)
    requires k <= |lines|
    ensures forall m :: k <= m < HunkEnd(lines, k) ==> IsHunkLine(lines[m])
    ensures HunkEnd(lines, k) < |lines| ==> !IsHunkLine(lines[HunkEnd(lines, k)])
    decreases |lines| - k
  {
    if k < |lines| && IsHunkLine(lines[k]) {
      HunkEndIs(lines, k + 1);
    }
  }

  /** The markers among the lines from `p` up to `e` are long enough. */
  ghost predicate LongMarkers(lines: seq<string>, p: nat, e: nat) {
    forall k :: p <= k < e <= |lines| && IsMarker(lines[k]) ==> |lines[k]| >= 12
  }

  /** What becomes of the lines from `p` on, read behind those of `s`. */
  ghost predicate BodyReadAs(lines: seq<string>, p: nat, s: BodyState)
    requires p <= |lines| && |s.lines| > 0
  {
    var r := ReadBody(lines, p, s);
    && (r.Ok? <==> LongMarkers(lines, p, HunkEnd(lines, p)))
    && (r.Ok? ==> r.value.1 == HunkEnd(lines, p) && |r.value.0| >= |s.lines|)
    && (r.Ok? ==> (|r.value.0| > |s.lines| <==> LineFollows(lines, p)))
  }

  lemma {:induction false} BodyIsRead(lines: seq<string>, p: nat, s: BodyState)
    requires p <= |lines| && |s.lines| > 0
    ensures BodyReadAs(lines, p, s)
    decreases |lines| - p
  {
    if p < |lines| && IsHunkLine(lines[p]) {
      var next := ReadBodyLine(lines[p], s);
      if next.Ok? {
        BodyIsRead(lines, p + 1, next.value);
      }
      BodyReadStep(lines, p, s, next);
    }
  }

  lemma BodyReadStep(lines: seq<string>, p: nat, s: BodyState, next: Result<BodyState, ParseError>)
    requires p < |lines| && |s.lines| > 0 && IsHunkLine(lines[p]) && next == ReadBodyLine(lines[p], s)
    requires next.Ok? ==> BodyReadAs(lines, p + 1, next.value)
    ensures BodyReadAs(lines, p, s)
  {
    var e := HunkEnd(lines, p + 1);
    assert LongMarkers(lines, p, e) <==>
      (IsMarker(lines[p]) ==> |lines[p]| >= 12) && LongMarkers(lines, p + 1, e);
  }

  // ---------- Accepted diffs ----------

  ghost predicate HasHeaderForm(line: string) {
    exists a, b, c, d, heading :: IsHunkHeader(line, a, b, c, d, heading)
  }

  /**
   Line `k` is in its place behind the header of a diff: a hunk header with a line of its hunk behind it, or a
   line of a hunk, which is at least 12 characters long if it is a marker.
   */
  ghost predicate InPlace(lines: seq<string>, k: nat)
    requires k < |lines|
  {
    if HasHeaderForm(lines[k]) then LineFollows(lines, k + 1)
    else IsHunkLine(lines[k]) && (IsMarker(lines[k]) ==> |lines[k]| >= 12)
  }

  /** The lines from `p` on are one hunk or more. */
  ghost predicate AreHunks(lines: seq<string>, p: nat) {
    p < |lines| && HasHeaderForm(lines[p]) && forall k :: p <= k < |lines| ==> InPlace(lines, k)
  }

  lemma HeaderFormIs(line: string)
    ensures HasHeaderForm(line) <==> ParseHunkHeader(line).Ok?
    ensures HasHeaderForm(line) ==> line != "" && line[0] == '@' && !IsHunkLine(line)
  {
    if ParseHunkHeader(line).Ok? {
      var a, b, c, d, heading := HeaderHasForm(line);
    }
    if HasHeaderForm(line) {
      var a, b, c, d, heading :| IsHunkHeader(line, a, b, c, d, heading);
      HeaderAccepted(line, a, b, c, d, heading);
    }
  }

  lemma HunkIsRead(lines: seq<string>, p: nat, linesConsumed: nat)
    requires p <= |lines|
    ensures var r := ReadHunk(lines, p, linesConsumed);
      && (r.Ok? <==> p < |lines| && HasHeaderForm(lines[p]) && LineFollows(lines, p + 1)
                     && LongMarkers(lines, p + 1, HunkEnd(lines, p + 1)))
      && (r.Ok? ==> r.value.1 == HunkEnd(lines, p + 1))
  {
    if p < |lines| {
      HeaderFormIs(lines[p]);
      if HasHeaderForm(lines[p]) {
        BodyIsRead(lines, p + 1, StartBody(lines[p], ParseHunkHeader(lines[p]).value, linesConsumed));
      }
    }
  }

  lemma {:induction false} HunksAreRead(lines: seq<string>, p: nat, linesConsumed: nat, acc: seq<DiffHunk>)
    requires p <= |lines|
    ensures ReadHunks(lines, p, linesConsumed, acc).Ok? <==> AreHunks(lines, p)
    decreases |lines| - p
  {
    var accepts := false;
    if ReadHunk(lines, p, linesConsumed).Ok? {
      var (h, e) := ReadHunk(lines, p, linesConsumed).value;
      if e < |lines| {
        HunksAreRead(lines, e, linesConsumed + |h.lines|, acc + [h]);
        accepts := AreHunks(lines, e);
      } else {
        accepts := true;
      }
    }
    FirstHunkDecides(lines, p, linesConsumed, accepts);
  }

  /** The lines from `p` on are hunks exactly if one is read there and hunks are behind it, if anything is. */
  lemma FirstHunkDecides(lines: seq<string>, p: nat, linesConsumed: nat, accepts: bool)
    requires p <= |lines|
    requires accepts <==> var r := ReadHunk(lines, p, linesConsumed);
      r.Ok? && (r.value.1 < |lines| ==> AreHunks(lines, r.value.1))
    ensures accepts <==> AreHunks(lines, p)
  {
    HunkIsRead(lines, p, linesConsumed);
    if p < |lines| && HasHeaderForm(lines[p]) {
      OneHunkMore(lines, p, HunkEnd(lines, p + 1));
    }
  }

  /** Of hunks from `p` on, the first ends at `e`. */
  lemma OneHunkMore(lines: seq<string>, p: nat, e: nat)
    requires p < |lines| && HasHeaderForm(lines[p]) && e == HunkEnd(lines, p + 1)
    ensures AreHunks(lines, p) <==>
      LineFollows(lines, p + 1) && LongMarkers(lines, p + 1, e) && (e < |lines| ==> AreHunks(lines, e))
  {
    HunkEndIs(lines, p + 1);
    forall k | p < k < e ensures !HasHeaderForm(lines[k]) {
      HeaderFormIs(lines[k]);
    }
    if AreHunks(lines, p) {
      FirstOfHunks(lines, p, e);
    } else if LineFollows(lines, p + 1) && LongMarkers(lines, p + 1, e) && (e < |lines| ==> AreHunks(lines, e)) {
      HunksBehind(lines, p, e);
    }
  }

  lemma FirstOfHunks(lines: seq<string>, p: nat, e: nat)
    requires AreHunks(lines, p) && p < e <= |lines| && forall k :: p < k < e ==> !HasHeaderForm(lines[k])
    requires e < |lines| ==> !IsHunkLine(lines[e])
    ensures LineFollows(lines, p + 1) && LongMarkers(lines, p + 1, e) && (e < |lines| ==> AreHunks(lines, e))
  {
    assert InPlace(lines, p);
    forall k | p + 1 <= k < e && IsMarker(lines[k]) ensures |lines[k]| >= 12 {
      assert InPlace(lines, k);
    }
    if e < |lines| {
      assert InPlace(lines, e);
    }
  }

  lemma HunksBehind(lines: seq<string>, p: nat, e: nat)
    requires p < e <= |lines| && HasHeaderForm(lines[p]) && LineFollows(lines, p + 1) && LongMarkers(lines, p + 1, e)
    requires forall k :: p < k < e ==> IsHunkLine(lines[k]) && !HasHeaderForm(lines[k])
    requires e < |lines| ==> AreHunks(lines, e)
    ensures AreHunks(lines, p)
  {
    forall k | p <= k < |lines| ensures InPlace(lines, k) {
    }
  }

  /**
   A diff is accepted exactly if no line names the new file, or the lines behind the one that does are hunks.
   */
  lemma AcceptedIff(diff: string)
    ensures ReadDiff(Lines(diff, 0)).Ok?
       <==> forall k: nat :: TextualAt(Lines(diff, 0), k) ==> AreHunks(Lines(diff, 0), k + 1)
  {
    var lines := Lines(diff, 0);
    var k := KindIs(lines);
    if k < |lines| && NamesNewFile(lines[k]) {
      LineInfoIs(lines[k]);
      assert TextualAt(lines, k);
      HunksAreRead(lines, k + 1, 0, []);
    }
  }

  // ---------- No-newline flags ----------

  /** The line is flagged exactly if the physical line behind it, index `at` counted from `base`, is a marker. */
  predicate FlaggedRight(lines: seq<string>, at: int, l: DiffLine) {
    0 <= at && (l.noTrailingNewLine <==> at + 1 < |lines| && IsMarker(lines[at + 1]))
  }

  /** The physical index of line `n` of a hunk whose header is line `p`. */
  function PhysicalIndex(p: nat, linesConsumed: nat, body: seq<DiffLine>, n: nat): int
    requires n < |body|
  {
    if n == 0 then p else p - linesConsumed + body[n].originalLineNumber
  }

  /** While line `q` is to be read: all lines but the last are flagged right, and the last by the markers behind it. */
  ghost predicate FlagsSoFar(lines: seq<string>, p: nat, linesConsumed: nat, q: nat, s: BodyState) {
    && |s.lines| > 0 && p - linesConsumed + s.c.number + 1 == q <= |lines|
    && (forall n {:trigger s.lines[n]} :: 0 <= n < |s.lines| - 1 ==>
          FlaggedRight(lines, PhysicalIndex(p, linesConsumed, s.lines, n), s.lines[n]))
    && var last := PhysicalIndex(p, linesConsumed, s.lines, |s.lines| - 1);
       && 0 <= last < q && (s.lines[|s.lines| - 1].noTrailingNewLine <==> last + 1 < q)
       && (last + 1 < q ==> IsMarker(lines[last + 1]))
  }

  lemma FlagStep(lines: seq<string>, p: nat, linesConsumed: nat, q: nat, s: BodyState)
    requires FlagsSoFar(lines, p, linesConsumed, q, s) && q < |lines| && IsHunkLine(lines[q])
    requires ReadBodyLine(lines[q], s).Ok?
    ensures FlagsSoFar(lines, p, linesConsumed, q + 1, ReadBodyLine(lines[q], s).value)
  {
    var s' := ReadBodyLine(lines[q], s).value;
    forall n | 0 <= n < |s'.lines| - 1
      ensures FlaggedRight(lines, PhysicalIndex(p, linesConsumed, s'.lines, n), s'.lines[n])
    {
      assert s'.lines[n] == s.lines[n];
    }
  }

  ghost predicate AllFlagged(lines: seq<string>, p: nat, linesConsumed: nat, body: seq<DiffLine>) {
    forall n :: 0 <= n < |body| ==> FlaggedRight(lines, PhysicalIndex(p, linesConsumed, body, n), body[n])
  }

  lemma {:induction false} FlagsOfBody(lines: seq<string>, p: nat, linesConsumed: nat, q: nat, s: BodyState)
    requires FlagsSoFar(lines, p, linesConsumed, q, s) && ReadBody(lines, q, s).Ok?
    ensures AllFlagged(lines, p, linesConsumed, ReadBody(lines, q, s).value.0)
    decreases |lines| - q
  {
    if q < |lines| && IsHunkLine(lines[q]) {
      FlagStep(lines, p, linesConsumed, q, s);
      FlagsOfBody(lines, p, linesConsumed, q + 1, ReadBodyLine(lines[q], s).value);
    } else {
      forall n | 0 <= n < |s.lines|
        ensures FlaggedRight(lines, PhysicalIndex(p, linesConsumed, s.lines, n), s.lines[n])
      {
        assert n < |s.lines| - 1 ==> s.lines[n] == s.lines[n];
      }
    }
  }

  /** A line is flagged to end its file without a newline exactly if a marker, whatever its text, is behind it. */
  lemma FlaggedIffMarkerBehind(lines: seq<string>, p: nat, linesConsumed: nat)
    requires p <= |lines| && ReadHunk(lines, p, linesConsumed).Ok?
    ensures AllFlagged(lines, p, linesConsumed, ReadHunk(lines, p, linesConsumed).value.0.lines)
  {
    FlagsOfBody(lines, p, linesConsumed, p + 1,
                StartBody(lines[p], ParseHunkHeader(lines[p]).value, linesConsumed));
  }

  // ---------- The header line ----------

  lemma {:induction false} FirstLineStays(lines: seq<string>, q: nat, s: BodyState)
    requires q <= |lines| && |s.lines| > 0 && ReadBody(lines, q, s).Ok?
    ensures var body := ReadBody(lines, q, s).value.0;
      |body| > 0 && body[0].(noTrailingNewLine := false) == s.lines[0].(noTrailingNewLine := false)
    decreases |lines| - q
  {
    if q < |lines| && IsHunkLine(lines[q]) {
      FirstLineStays(lines, q + 1, ReadBodyLine(lines[q], s).value);
    }
  }

  /** The first line of a hunk is its header line, numbered 1, and its header has the numbers of that line. */
  lemma HeaderLineIsFirst(lines: seq<string>, p: nat, linesConsumed: nat)
    requires p <= |lines| && ReadHunk(lines, p, linesConsumed).Ok?
    ensures var h := ReadHunk(lines, p, linesConsumed).value.0;
      && p < |lines| && Announces(lines[p], h.header) && h.lines[0].text == lines[p]
      && h.lines[0].kind == Hunk && h.lines[0].originalLineNumber == 1
  {
    var header := ParseHunkHeader(lines[p]).value;
    HunkHeaderIff(lines[p], header);
    FirstLineStays(lines, p + 1, StartBody(lines[p], header, linesConsumed));
  }
}
