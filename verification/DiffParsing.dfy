/**
 `app/src/lib/diff-parser.ts`: the cursor machine that reads a GNU unified diff. The functions say what
 is read from an offset of the diff on; the class moves its cursor over the diff and is proved to
 read just that.
 */
module DiffParsing {
  import opened Strings
  import opened Decimal
  import opened UnifiedDiff

  datatype ParseError = NoHunkHeader | InvalidHunkHeader | ShortMarker | EmptyHunk

  datatype HeaderInfo = NotFound | Binary | Textual

  datatype RawDiff = RawDiff(header: string, contents: string, hunks: seq<DiffHunk>, isBinary: bool)

  // ---------- The diff header ----------

  /** What a line of the diff header says about the diff, if it says anything. */
  function HeaderLineInfo(line: string): Option<HeaderInfo> {
    if StartsWith(line, "Binary files ") && EndsWith(line, "differ") then Some(Binary)
    else if StartsWith(line, "+++") then Some(Textual)
    else None
  }

  /**
   The diff header ends with the `+++` line or a binary marker; an empty line or the end of the diff
   ends the search. Gives the index behind the last line read.
   */
  function ReadDiffHeader(lines: seq<string>, p: nat): (r: (HeaderInfo, nat))
    requires p <= |lines|
    ensures p <= r.1 <= |lines|
    decreases |lines| - p
  {
    if p == |lines| then (NotFound, p)
    else if lines[p] == "" then (NotFound, p + 1)
    else match HeaderLineInfo(lines[p])
      case Some(info) => (info, p + 1)
      case None => ReadDiffHeader(lines, p + 1)
  }

  // ---------- Hunk headers ----------

  /** A count, behind a comma, at index `k`; if there is none it is 1. Gives the index behind it. */
  function ReadCount(line: string, k: nat): (r: (nat, nat))
    requires k <= |line|
    ensures k <= r.1 <= |line|
  {
    if k < |line| && line[k] == ',' && DigitsEnd(line, k + 1) > k + 1
    then (Value(line, k + 1, DigitsEnd(line, k + 1)), DigitsEnd(line, k + 1))
    else (1, k)
  }

  predicate HasChar(line: string, k: nat, c: char) {
    k < |line| && line[k] == c
  }

  /** `@@ -l,s +l,s @@`; what follows is the section heading and is not read. */
  function ParseHunkHeader(line: string): Result<HunkHeader, ParseError> {
    if !(HasChar(line, 0, '@') && HasChar(line, 1, '@') && HasChar(line, 2, ' ') && HasChar(line, 3, '-'))
    then Err(InvalidHunkHeader)
    else
      var a := DigitsEnd(line, 4);
      var (oldCount, b) := ReadCount(line, a);
      if a == 4 || !(HasChar(line, b, ' ') && HasChar(line, b + 1, '+')) then Err(InvalidHunkHeader)
      else
        var c := DigitsEnd(line, b + 2);
        var (newCount, d) := ReadCount(line, c);
        if c == b + 2 || !(HasChar(line, d, ' ') && HasChar(line, d + 1, '@') && HasChar(line, d + 2, '@'))
        then Err(InvalidHunkHeader)
        else Ok(HunkHeader(Value(line, 4, a), oldCount, Value(line, b + 2, c), newCount))
  }

  // ---------- Hunks ----------

  const MIN_MARKER_LENGTH := 12

  predicate IsLinePrefix(c: char) {
    c == '+' || c == '-' || c == ' ' || c == '\\'
  }

  /** The line belongs to the body of the current hunk. */
  predicate InBody(line: string) {
    line != "" && IsLinePrefix(line[0])
  }

  /** The two line counters of a hunk and the counter of the diff's own lines. */
  datatype Counters = Counters(before: nat, after: nat, number: nat)

  /** The line that a `+`, `-` or context line becomes. `c.number` already counts it. */
  function MakeLine(line: string, c: Counters): DiffLine
    requires line != ""
  {
    if line[0] == '+' then DiffLine(line, Add, c.number, None, Some(c.after), false)
    else if line[0] == '-' then DiffLine(line, Delete, c.number, Some(c.before), None, false)
    else DiffLine(line, Context, c.number, Some(c.before), Some(c.after), false)
  }

  /** The counters behind that line. */
  function Advance(c: Counters, kind: LineKind): Counters {
    Counters(if InOld(kind) then c.before + 1 else c.before, if InNew(kind) then c.after + 1 else c.after, c.number)
  }

  function Mark(lines: seq<DiffLine>): seq<DiffLine>
    requires |lines| > 0
  {
    lines[|lines| - 1 := lines[|lines| - 1].(noTrailingNewLine := true)]
  }

  /** The lines of a hunk read so far, and the counters. */
  datatype BodyState = BodyState(lines: seq<DiffLine>, c: Counters)

  /** One line of a hunk body: a marker line marks the line before it, any other is a line of its own. */
  function ReadBodyLine(line: string, s: BodyState): (r: Result<BodyState, ParseError>)
    requires line != "" && |s.lines| > 0
    ensures r.Ok? ==> |r.value.lines| >= |s.lines|
  {
    var c := s.c.(number := s.c.number + 1);
    if line[0] == '\\' then
      if |line| < MIN_MARKER_LENGTH then Err(ShortMarker) else Ok(BodyState(Mark(s.lines), c))
    else
      var l := MakeLine(line, c);
      Ok(BodyState(s.lines + [l], Advance(c, l.kind)))
  }

  /** Reads lines behind those of `s` as long as they belong to a hunk body. */
  function ReadBody(lines: seq<string>, p: nat, s: BodyState): (r: Result<(seq<DiffLine>, nat), ParseError>)
    requires p <= |lines| && |s.lines| > 0
    ensures r.Ok? ==> |r.value.0| > 0 && p <= r.value.1 <= |lines|
    decreases |lines| - p
  {
    if p == |lines| || !InBody(lines[p]) then Ok((s.lines, p))
    else match ReadBodyLine(lines[p], s)
      case Err(e) => Err(e)
      case Ok(s') => ReadBody(lines, p + 1, s')
  }

  function ReadHunk(lines: seq<string>, p: nat, linesConsumed: nat): (r: Result<(DiffHunk, nat), ParseError>)
    requires p <= |lines|
    ensures r.Ok? ==> p < r.value.1 <= |lines|
  {
    if p == |lines| || lines[p] == "" then Err(NoHunkHeader)
    else match ParseHunkHeader(lines[p])
      case Err(e) => Err(e)
      case Ok(header) => ReadHunkBody(lines, p + 1, linesConsumed, lines[p], header)
  }

  /** A hunk begins with its header line. */
  function StartBody(headerLine: string, header: HunkHeader, linesConsumed: nat): (s: BodyState)
    ensures |s.lines| == 1
  {
    BodyState([DiffLine(headerLine, Hunk, 1, None, None, false)],
              Counters(header.oldStartLine, header.newStartLine, linesConsumed))
  }

  function ReadHunkBody(lines: seq<string>, p: nat, linesConsumed: nat, headerLine: string, header: HunkHeader)
    : (r: Result<(DiffHunk, nat), ParseError>)
    requires p <= |lines|
    ensures r.Ok? ==> p <= r.value.1 <= |lines|
  {
    match ReadBody(lines, p, StartBody(headerLine, header, linesConsumed))
    case Err(e) => Err(e)
    case Ok((body, p')) =>
      if |body| == 1 then Err(EmptyHunk)
      else Ok((DiffHunk(header, body, linesConsumed, linesConsumed + |body| - 1), p'))
  }

  /** Reads hunks behind those of `acc` until the diff ends. */
  function ReadHunks(lines: seq<string>, p: nat, linesConsumed: nat, acc: seq<DiffHunk>): Result<seq<DiffHunk>,
                     ParseError>
    requires p <= |lines|
    decreases |lines| - p
  {
    match ReadHunk(lines, p, linesConsumed)
    case Err(e) => Err(e)
    case Ok((h, p')) =>
      if p' == |lines| then Ok(acc + [h])
      else ReadHunks(lines, p', linesConsumed + |h.lines|, acc + [h])
  }

  // ---------- Diffs ----------

  /** A diff without a `+++` line is empty, one with a binary marker has no hunks; any other is read to its end. */
  function ReadDiff(lines: seq<string>): Result<RawDiff, ParseError> {
    var (info, p) := ReadDiffHeader(lines, 0);
    var header := Join(lines[..p], '\n');
    match info
    case NotFound => Ok(RawDiff(header, "", [], false))
    case Binary => Ok(RawDiff(header, "", [], true))
    case Textual =>
      match ReadHunks(lines, p, 0, [])
      case Err(e) => Err(e)
      case Ok(hunks) => Ok(RawDiff(header, Contents(lines[p..]), hunks, false))
  }

  /** The lines behind the header as one text, without the standard markers. */
  function Contents(lines: seq<string>): string {
    RemoveAll(Join(lines, '\n'), "\n" + NO_NEWLINE_MARKER)
  }

  // ---------- The cursor machine ----------

  class DiffParser {
    /** Where the current line starts. */
    var ls: int
    /** Where the current line ends: at its newline, at the end of the text, or -1 before the first line. */
    var le: int
    var text: string

    ghost predicate Valid()
      reads this
    {
      && -1 <= le <= |text|
      && (0 <= le < |text| ==> text[le] == '\n')
      && (0 <= le == |text| ==> TextEnd(text) == |text|)
    }

    /** The lines not read yet are those of `lines` from index `p` on. */
    ghost predicate At(lines: seq<string>, p: nat)
      requires Valid()
      reads this
    {
      p <= |lines| && Lines(text, le + 1) == lines[p..]
    }

    constructor ()
      ensures Valid() && ls == 0 && le == -1 && text == ""
    {
      ls, le, text := 0, -1, "";
    }

    method Reset()
      modifies this
      ensures Valid() && ls == 0 && le == -1 && text == ""
    {
      ls, le, text := 0, -1, "";
    }

    /** Moves to the next line. False at the end of the diff and at an empty line, which is passed nevertheless. */
    method NextLine(ghost lines: seq<string>, ghost p: nat) returns (ok: bool)
      requires Valid() && At(lines, p)
      modifies this`ls, this`le
      ensures Valid() && ls == old(le) + 1
      ensures p == |lines| ==> !ok && le == old(le)
      ensures p < |lines| ==> At(lines, p + 1) && ok == (lines[p] != "")
      ensures p < |lines| ==> ls < |text| && le == LineEnd(text, ls) && LineAt(text, ls) == lines[p]
    {
      ls := le + 1;
      NextOfLines(text, ls, lines, p);
      if ls >= |text| {
        return false;
      }
      LineEndIs(text, ls);
      le := IndexOf(text, '\n', ls);
      if le == -1 {
        le := |text|;
      }
      return ls != le;
    }

    method ReadLine(ghost lines: seq<string>, ghost p: nat) returns (line: Option<string>)
      requires Valid() && At(lines, p)
      modifies this`ls, this`le
      ensures Valid() && le >= old(le)
      ensures p == |lines| ==> line == None && le == old(le)
      ensures p < |lines| ==> At(lines, p + 1) && le > old(le)
      ensures p < |lines| ==> line == if lines[p] == "" then None else Some(lines[p])
      ensures p < |lines| ==> old(le) + 1 < |text|
    {
      var ok := NextLine(lines, p);
      if ok {
        LineAtIs(text, ls);
        line := Some(text[ls..le]);
      } else {
        line := None;
      }
    }

    /** `text.startsWith(s, ls)`. */
    predicate LineStartsWith(s: string)
      requires 0 <= ls <= |text|
      reads this
    {
      s <= text[ls..]
    }

    /** `text.endsWith(s, le)`. */
    predicate LineEndsWith(s: string)
      requires 0 <= le <= |text|
      reads this
    {
      EndsWith(text[..le], s)
    }

    /** The first character of the next line, if there is one; a newline if the next line is empty. */
    method Peek(ghost lines: seq<string>, ghost p: nat) returns (c: Option<char>)
      requires Valid() && At(lines, p)
      ensures p == |lines| <==> c == None
      ensures c == None <==> le + 1 >= |text|
      ensures p < |lines| && lines[p] != "" ==> c == Some(lines[p][0])
      ensures p < |lines| && lines[p] == "" ==> c == Some('\n')
    {
      var q := le + 1;
      NextOfLines(text, q, lines, p);
      if q < |text| {
        c := Some(text[q]);
      } else {
        c := None;
      }
    }

    method ReadHeaderInfo() returns (info: Option<HeaderInfo>)
      requires 0 <= ls < |text| && le == LineEnd(text, ls) && (ls > 0 ==> text[ls - 1] == '\n')
      ensures info == HeaderLineInfo(LineAt(text, ls))
    {
      StartsWithinLine(text, ls, "Binary files ");
      EndsWithinLine(text, ls, "differ");
      StartsWithinLine(text, ls, "+++");
      if LineStartsWith("Binary files ") && LineEndsWith("differ") {
        return Some(Binary);
      }
      if LineStartsWith("+++") {
        return Some(Textual);
      }
      info := None;
    }

    method ParseDiffHeader(ghost lines: seq<string>) returns (info: HeaderInfo, ghost p: nat)
      requires Valid() && le == -1 && At(lines, 0)
      modifies this`ls, this`le
      ensures Valid() && At(lines, p)
      ensures (info, p) == ReadDiffHeader(lines, 0)
      ensures HoldsHeader(text, le, lines, p)
    {
      p := 0;
      while true
        invariant Valid()
        invariant At(lines, p) && HoldsHeader(text, le, lines, p)
        invariant ReadDiffHeader(lines, p) == ReadDiffHeader(lines, 0)
        decreases |text| - le
      {
        ghost var end := le;
        var ok := NextLine(lines, p);
        if p < |lines| {
          LineAtIs(text, ls);
          HeaderGrows(text, end, le, lines, p);
          p := p + 1;
        }
        if !ok {
          return NotFound, p;
        }
        var found := ReadHeaderInfo();
        if found.Some? {
          return found.value, p;
        }
      }
    }

    method ParseHunk(linesConsumed: nat, ghost lines: seq<string>, ghost p: nat)
      returns (r: Result<DiffHunk, ParseError>, ghost p': nat)
      requires Valid() && At(lines, p)
      modifies this`ls, this`le
      ensures Valid() && (r.Ok? ==> At(lines, p') && le > old(le) && old(le) + 1 < |text|)
      ensures ReadHunk(lines, p, linesConsumed) == if r.Ok? then Ok((r.value, p')) else Err(r.error)
    {
      p' := p;
      var headerLine := ReadLine(lines, p);
      if headerLine.None? {
        return Err(NoHunkHeader), p;
      }
      var header := ParseHunkHeader(headerLine.value);
      if header.Err? {
        return Err(header.error), p;
      }
      r, p' := ParseHunkBody(linesConsumed, headerLine.value, header.value, lines, p + 1);
    }

    method ParseHunkBody(linesConsumed: nat, headerLine: string, header: HunkHeader, ghost lines: seq<string>,
                         ghost p: nat)
      returns (r: Result<DiffHunk, ParseError>, ghost p': nat)
      requires Valid() && At(lines, p)
      modifies this`ls, this`le
      ensures Valid() && le >= old(le) && (r.Ok? ==> At(lines, p'))
      ensures ReadHunkBody(lines, p, linesConsumed, headerLine, header)
           == if r.Ok? then Ok((r.value, p')) else Err(r.error)
    {
      var start := StartBody(headerLine, header, linesConsumed);
      var body;
      body, p' := ParseBodyLines(start, lines, p);
      if body.Err? {
        return Err(body.error), p';
      }
      if |body.value| == 1 {
        return Err(EmptyHunk), p';
      }
      r := Ok(DiffHunk(header, body.value, linesConsumed, linesConsumed + |body.value| - 1));
    }

    /** The loop over the lines of a hunk. */
    method ParseBodyLines(start: BodyState, ghost lines: seq<string>, ghost p: nat)
      returns (r: Result<seq<DiffLine>, ParseError>, ghost p': nat)
      requires Valid() && At(lines, p) && |start.lines| > 0
      modifies this`ls, this`le
      ensures Valid() && le >= old(le) && (r.Ok? ==> At(lines, p'))
      ensures ReadBody(lines, p, start) == if r.Ok? then Ok((r.value, p')) else Err(r.error)
    {
      var s := start;
      p' := p;
      while true
        invariant Valid() && le >= old(le) && At(lines, p') && |s.lines| > 0
        invariant ReadBody(lines, p', s) == ReadBody(lines, p, start)
        decreases |text| - le
      {
        var prefix := Peek(lines, p');
        if prefix.None? || !IsLinePrefix(prefix.value) {
          return Ok(s.lines), p';
        }
        var line := ReadLine(lines, p');
        var next := AddBodyLine(prefix.value, line.value, s);
        if next.Err? {
          return Err(next.error), p';
        }
        s, p' := next.value, p' + 1;
      }
    }

    /** The body of that loop: pushes a line, or marks the last one pushed. */
    static method AddBodyLine(prefix: char, line: string, s: BodyState) returns (r: Result<BodyState, ParseError>)
      requires line != "" && line[0] == prefix && |s.lines| > 0
      ensures r == ReadBodyLine(line, s)
    {
      var lines, c := s.lines, s.c.(number := s.c.number + 1);
      if prefix == '\\' {
        if |line| < MIN_MARKER_LENGTH {
          return Err(ShortMarker);
        }
        lines := lines[|lines| - 1 := lines[|lines| - 1].(noTrailingNewLine := true)];
        return Ok(BodyState(lines, c));
      }
      var diffLine;
      if prefix == '+' {
        diffLine := DiffLine(line, Add, c.number, None, Some(c.after), false);
        c := c.(after := c.after + 1);
      } else if prefix == '-' {
        diffLine := DiffLine(line, Delete, c.number, Some(c.before), None, false);
        c := c.(before := c.before + 1);
      } else {
        diffLine := DiffLine(line, Context, c.number, Some(c.before), Some(c.after), false);
        c := c.(before := c.before + 1, after := c.after + 1);
      }
      lines := lines + [diffLine];
      r := Ok(BodyState(lines, c));
    }

    /** Parses a whole diff; whatever happens, the parser is ready for the next one. */
    method Parse(diff: string) returns (r: Result<RawDiff, ParseError>)
      requires Valid() && le == -1
      modifies this
      ensures r == ReadDiff(Lines(diff, 0))
      ensures Valid() && ls == 0 && le == -1 && text == ""
    {
      text := diff;
      r := ParseText(Lines(text, 0));
      Reset();
    }

    method ParseText(ghost lines: seq<string>) returns (r: Result<RawDiff, ParseError>)
      requires Valid() && le == -1 && lines == Lines(text, 0)
      modifies this`ls, this`le
      ensures Valid()
      ensures r == ReadDiff(lines)
    {
      assert lines[0..] == lines;
      var info, p := ParseDiffHeader(lines);
      var headerEnd := le;
      var header := if headerEnd < 0 then "" else text[..headerEnd];
      if info == NotFound {
        return Ok(RawDiff(header, "", [], false));
      }
      if info == Binary {
        return Ok(RawDiff(header, "", [], true));
      }
      var hunks := ParseHunks(lines, p);
      if hunks.Err? {
        return Err(hunks.error);
      }
      JoinOfLines(text, headerEnd + 1);
      var contents := RemoveAll(text[headerEnd + 1..le], "\n" + NO_NEWLINE_MARKER);
      r := Ok(RawDiff(header, contents, hunks.value, false));
    }

    /** The loop over the hunks of a diff. */
    method ParseHunks(ghost lines: seq<string>, ghost p: nat) returns (r: Result<seq<DiffHunk>, ParseError>)
      requires Valid() && At(lines, p)
      modifies this`ls, this`le
      ensures Valid()
      ensures r.Ok? ==> old(le) + 1 < |text| && le == TextEnd(text)
      ensures r == ReadHunks(lines, p, 0, [])
    {
      var hunks: seq<DiffHunk>, linesConsumed: nat := [], 0;
      ghost var q := p;
      while true
        invariant Valid() && At(lines, q)
        invariant le == old(le) || old(le) + 1 < |text|
        invariant ReadHunks(lines, q, linesConsumed, hunks) == ReadHunks(lines, p, 0, [])
        decreases |text| - le
      {
        var next;
        r, linesConsumed, next, q := ParseNextHunk(linesConsumed, hunks, lines, q);
        if next.None? {
          return;
        }
        hunks := r.value;
      }
    }

    /** The body of that loop: pushes a hunk and looks whether there is another. */
    method ParseNextHunk(linesConsumed: nat, hunks: seq<DiffHunk>, ghost lines: seq<string>, ghost p: nat)
      returns (r: Result<seq<DiffHunk>, ParseError>, linesConsumed': nat, next: Option<char>, ghost p': nat)
      requires Valid() && At(lines, p)
      modifies this`ls, this`le
      ensures Valid() && (r.Ok? ==> At(lines, p') && le > old(le) && old(le) + 1 < |text|)
      ensures next.None? && r.Ok? ==> le == TextEnd(text)
      ensures next.None? ==> r == ReadHunks(lines, p, linesConsumed, hunks)
      ensures next.Some? ==> r.Ok?
      ensures next.Some? ==> ReadHunks(lines, p, linesConsumed, hunks) == ReadHunks(lines, p', linesConsumed', r.value)
    {
      var hunk;
      linesConsumed', next := linesConsumed, None;
      hunk, p' := ParseHunk(linesConsumed, lines, p);
      if hunk.Err? {
        return Err(hunk.error), linesConsumed, None, p';
      }
      r := Ok(hunks + [hunk.value]);
      linesConsumed' := linesConsumed + |hunk.value.lines|;
      HunksStep(lines, p, linesConsumed, hunks, hunk.value, p', r, linesConsumed');
      next := Peek(lines, p');
    }
  }

  lemma HunksStep(lines: seq<string>, p: nat, linesConsumed: nat, acc: seq<DiffHunk>, h: DiffHunk, p': nat,
                  acc': Result<seq<DiffHunk>, ParseError>, linesConsumed': nat)
    requires p <= |lines| && ReadHunk(lines, p, linesConsumed) == Ok((h, p'))
    requires acc' == Ok(acc + [h]) && linesConsumed' == linesConsumed + |h.lines|
    ensures p' == |lines| ==> ReadHunks(lines, p, linesConsumed, acc) == acc'
    ensures p' != |lines| ==>
      ReadHunks(lines, p, linesConsumed, acc) == ReadHunks(lines, p', linesConsumed', acc'.value)
  {
  }

  /** Whether there is a next line, which it is, and what comes behind it. */
  lemma NextOfLines(text: string, o: nat, lines: seq<string>, p: nat)
    requires p <= |lines| && Lines(text, o) == lines[p..]
    ensures o >= |text| <==> p == |lines|
    ensures p < |lines| ==> LineAt(text, o) == lines[p] && Lines(text, LineEnd(text, o) + 1) == lines[p + 1..]
    ensures p < |lines| ==> (lines[p] == "" <==> text[o] == '\n') && (lines[p] != "" ==> lines[p][0] == text[o])
  {
    if o < |text| {
      var rest := Lines(text, LineEnd(text, o) + 1);
      assert lines[p] == lines[p..][0];
      assert lines[p + 1..] == lines[p..][1..] == ([LineAt(text, o)] + rest)[1..] == rest;
    }
  }

  /** The text up to the cursor is the first `p` lines. */
  ghost predicate HoldsHeader(text: string, le: int, lines: seq<string>, p: nat)
    requires p <= |lines|
  {
    if p == 0 then le == -1
    else 0 <= le <= |text| && text[..le] == Join(lines[..p], '\n')
  }

  lemma HeaderGrows(text: string, le: int, le': int, lines: seq<string>, p: nat)
    requires -1 <= le < le' <= |text| && (0 <= le ==> text[le] == '\n')
    requires p < |lines| && HoldsHeader(text, le, lines, p) && lines[p] == text[le + 1..le']
    ensures HoldsHeader(text, le', lines, p + 1)
  {
    TakeOneMore(lines, p);
    if p > 0 {
      JoinOneMore(lines[..p], '\n', lines[p]);
      LineBehind(text, le, le');
    } else {
      assert lines[..0] + [lines[0]] == [lines[0]];
    }
  }

  lemma TakeOneMore<T>(s: seq<T>, p: nat)
    requires p < |s|
    ensures s[..p + 1] == s[..p] + [s[p]]
  {
    assert s[..p + 1] == s[..p] + [s[p]];
  }

  lemma LineBehind(text: string, le: nat, le': nat)
    requires le < le' <= |text| && text[le] == '\n'
    ensures text[..le'] == text[..le] + ['\n'] + text[le + 1..le']
  {
    assert text[..le'] == text[..le] + ['\n'] + text[le + 1..le'];
  }

  /** Whether the text, read from the start of a line on, starts with `prefix` is decided within the line. */
  lemma StartsWithinLine(text: string, ls: nat, prefix: string)
    requires ls < |text| && '\n' !in prefix
    ensures prefix <= text[ls..] <==> StartsWith(LineAt(text, ls), prefix)
  {
    LineEndIs(text, ls);
    LineAtIs(text, ls);
    var rest, line := text[ls..], LineAt(text, ls);
    assert forall k :: 0 <= k < |line| ==> line[k] == rest[k];
    assert |line| < |rest| ==> rest[|line|] == '\n';
    if |line| < |prefix| {
      assert forall c :: c in prefix ==> c != '\n';
    }
  }

  /** Whether the text up to the end of a line ends with `suffix` is decided within the line. */
  lemma EndsWithinLine(text: string, ls: nat, suffix: string)
    requires ls < |text| && (ls > 0 ==> text[ls - 1] == '\n')
    requires '\n' !in suffix
    ensures EndsWith(text[..LineEnd(text, ls)], suffix) <==> EndsWith(LineAt(text, ls), suffix)
  {
    LineAtIs(text, ls);
    var front, line := text[..LineEnd(text, ls)], LineAt(text, ls);
    assert forall k :: 0 <= k < |line| ==> line[k] == front[ls + k];
    if |line| < |suffix| <= |front| {
      var m := |suffix| - |line| - 1;
      assert suffix[m] != '\n' == text[ls - 1] == front[|front| - |suffix| + m];
    }
  }
}
