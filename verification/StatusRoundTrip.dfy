/**
 Reading what git writes: every list of headers and entries, serialized as git-status does with `-z`, is
 parsed back as the items it stands for.
 */
module StatusRoundTrip {
  import opened Strings
  import opened Decimal
  import opened StatusParser

  // ---------- Records ----------

  /** What git reports of an entry beside its path. */
  datatype Info = Info(code: string, sub: string, modes: seq<string>, hashes: seq<string>)

  datatype Record =
    | HeaderLine(value: string)
    | Changed(info: Info, path: string)
    | RenamedOrCopied(info: Info, score: string, path: string, oldPath: string)
    | Unmerged(info: Info, path: string)
    | Untracked(path: string)
    | Ignored(path: string)

  predicate AllIn(s: string, cls: CharClass) {
    |s| > 0 ==> cls(s[0]) && AllIn(s[1..], cls)
  }

  predicate Runs(parts: seq<string>, cls: CharClass) {
    |parts| > 0 ==> parts[0] != "" && AllIn(parts[0], cls) && Runs(parts[1..], cls)
  }

  /** The two characters of a status, and those of an unmerged one. */
  const CODES: set<char> := {'M', 'A', 'D', 'R', 'C', 'U', 'T', 'X', '?', '!', '.'}

  const UNMERGED_CODES: set<char> := {'D', 'A', 'U'}

  /** No submodule, or one with a new commit, modifications and untracked files, or a dot for each it has not. */
  predicate IsSubmodule(s: string) {
    s == "N..." || (|s| == 4 && s[0] == 'S' && (s[1] == 'C' || s[1] == '.') && (s[2] == 'M' || s[2] == '.')
                    && (s[3] == 'U' || s[3] == '.'))
  }

  predicate IsNumber(s: string) {
    s != "" && forall k :: 0 <= k < |s| ==> '0' <= s[k] <= '9'
  }

  predicate IsHash(s: string) {
    s != "" && forall k :: 0 <= k < |s| ==> '0' <= s[k] <= '9' || 'a' <= s[k] <= 'f'
  }

  predicate WellFormedInfo(info: Info, codes: set<char>, modes: nat, hashes: nat) {
    && |info.code| == 2 && info.code[0] in codes && info.code[1] in codes && IsSubmodule(info.sub)
    && |info.modes| == modes && (forall k :: 0 <= k < modes ==> IsNumber(info.modes[k]))
    && |info.hashes| == hashes && (forall k :: 0 <= k < hashes ==> IsHash(info.hashes[k]))
  }

  /** The same by the classes the parser goes by. */
  predicate FitsParser(info: Info, code: CharClass, modes: nat, hashes: nat) {
    && |info.code| == 2 && code(info.code[0]) && code(info.code[1]) && IsSubmoduleCode(info.sub)
    && |info.modes| == modes && Runs(info.modes, c => IsDigit(c))
    && |info.hashes| == hashes && Runs(info.hashes, c => IsHex(c))
  }

  lemma {:induction false} AllInIs(s: string, cls: CharClass)
    ensures AllIn(s, cls) <==> forall k :: 0 <= k < |s| ==> cls(s[k])
  {
    if |s| > 0 {
      AllInIs(s[1..], cls);
      assert forall k :: 0 < k < |s| ==> s[k] == s[1..][k - 1];
    }
  }

  lemma {:induction false} RunsIs(parts: seq<string>, cls: CharClass)
    ensures Runs(parts, cls) <==> forall k :: 0 <= k < |parts| ==> parts[k] != "" && AllIn(parts[k], cls)
  {
    if |parts| > 0 {
      RunsIs(parts[1..], cls);
      assert forall k :: 0 < k < |parts| ==> parts[k] == parts[1..][k - 1];
    }
  }

  lemma InfoFits(info: Info, codes: set<char>, code: CharClass, modes: nat, hashes: nat)
    requires forall c :: c in codes <==> code(c)
    ensures WellFormedInfo(info, codes, modes, hashes) <==> FitsParser(info, code, modes, hashes)
  {
    RunsIs(info.modes, c => IsDigit(c));
    RunsIs(info.hashes, c => IsHex(c));
    forall k | 0 <= k < |info.modes|
      ensures IsNumber(info.modes[k]) <==> info.modes[k] != "" && AllIn(info.modes[k], c => IsDigit(c))
    {
      AllInIs(info.modes[k], c => IsDigit(c));
    }
    forall k | 0 <= k < |info.hashes|
      ensures IsHash(info.hashes[k]) <==> info.hashes[k] != "" && AllIn(info.hashes[k], c => IsHex(c))
    {
      AllInIs(info.hashes[k], c => IsHex(c));
    }
  }

  predicate IsScore(s: string) {
    s != "" && (s[0] == 'R' || s[0] == 'C') && IsNumber(s[1..])
  }

  /** What git can report: paths hold no NUL, and an old path is not empty. */
  predicate WellFormed(r: Record) {
    match r
    case HeaderLine(value) => value != "" && '\0' !in value
    case Changed(info, path) => WellFormedInfo(info, CODES, 3, 2) && '\0' !in path
    case RenamedOrCopied(info, score, path, oldPath) =>
      WellFormedInfo(info, CODES, 3, 2) && IsScore(score) && '\0' !in path && oldPath != "" && '\0' !in oldPath
    case Unmerged(info, path) => WellFormedInfo(info, UNMERGED_CODES, 4, 3) && '\0' !in path
    case Untracked(path) => '\0' !in path
    case Ignored(path) => '\0' !in path
  }

  /** The item a record stands for; ignored files are passed over. */
  function Item(r: Record): Option<StatusItem> {
    match r
    case HeaderLine(value) => Some(Header(value))
    case Changed(info, path) => Some(Entry(info.code, info.sub, path, None))
    case RenamedOrCopied(info, _, path, oldPath) => Some(Entry(info.code, info.sub, path, Some(oldPath)))
    case Unmerged(info, path) => Some(Entry(info.code, info.sub, path, None))
    case Untracked(path) => Some(Entry("??", "????", path, None))
    case Ignored(_) => None
  }

  function Items(records: seq<Record>): seq<StatusItem> {
    if |records| == 0 then []
    else
      var rest := Items(records[1..]);
      if Item(records[0]).Some? then [Item(records[0]).value] + rest else rest
  }

  // ---------- Serialization ----------

  /** The parts, each behind a space, and `rest` behind them. */
  function Spaced(parts: seq<string>, rest: string): string {
    if |parts| == 0 then rest else " " + parts[0] + Spaced(parts[1..], rest)
  }

  function EntryField(kind: char, info: Info, rest: string): string {
    [kind] + " " + info.code + " " + info.sub + Spaced(info.modes, Spaced(info.hashes, rest))
  }

  function Field(r: Record): string {
    match r
    case HeaderLine(value) => "# " + value
    case Changed(info, path) => EntryField('1', info, " " + path)
    case RenamedOrCopied(info, score, path, _) => EntryField('2', info, " " + score + (" " + path))
    case Unmerged(info, path) => EntryField('u', info, " " + path)
    case Untracked(path) => "? " + path
    case Ignored(path) => "! " + path
  }

  /** The tokens of the records; a rename has its old path behind it. */
  function Tokens(records: seq<Record>, rest: seq<string>): seq<string> {
    if |records| == 0 then rest
    else
      var behind := Tokens(records[1..], rest);
      [Field(records[0])] + (if records[0].RenamedOrCopied? then [records[0].oldPath] + behind else behind)
  }

  /** Every token is ended by a NUL. */
  function Terminated(tokens: seq<string>): string {
    if |tokens| == 0 then "" else tokens[0] + "\0" + Terminated(tokens[1..])
  }

  function Serialize(records: seq<Record>): string {
    Terminated(Tokens(records, []))
  }

  // ---------- Reading a field ----------

  lemma {:induction false} RunIsRead(f: string, k: nat, run: string, rest: string, cls: CharClass)
    requires k <= |f| && f[k..] == run + rest && AllIn(run, cls) && (rest != "" ==> !cls(rest[0]))
    ensures RunEnd(f, k, cls) == k + |run| && f[k + |run|..] == rest
    decreases |run|
  {
    if run == "" {
      assert f[k..] == rest;
    } else {
      assert f[k] == f[k..][0] == run[0];
      assert f[k + 1..] == f[k..][1..] == run[1..] + rest;
      RunIsRead(f, k + 1, run[1..], rest, cls);
    }
  }

  /** The runs that stand at `k` are read, and `rest` is what is behind them. */
  ghost predicate RunsRead(f: string, k: nat, n: nat, rest: string, cls: CharClass)
    requires k <= |f|
  {
    var e := RunsEnd(f, k, n, cls);
    e.Some? && f[e.value..] == rest
  }

  lemma {:induction false} RunsAreRead(f: string, k: nat, parts: seq<string>, rest: string, cls: CharClass)
    requires k <= |f| && f[k..] == Spaced(parts, rest) && Runs(parts, cls) && !cls(' ') && StartsWithSpace(rest)
    ensures RunsRead(f, k, |parts|, rest, cls)
    decreases |parts|
  {
    if |parts| > 0 {
      var behind := Spaced(parts[1..], rest);
      SpacedStarts(parts[1..], rest);
      FirstPart(f, k, parts[0], behind);
      RunIsRead(f, k + 1, parts[0], behind, cls);
      RunsAreRead(f, k + 1 + |parts[0]|, parts[1..], rest, cls);
    }
  }

  predicate StartsWithSpace(s: string) {
    s != "" && s[0] == ' '
  }

  lemma SpacedStarts(parts: seq<string>, rest: string)
    requires StartsWithSpace(rest)
    ensures StartsWithSpace(Spaced(parts, rest))
  {
  }

  lemma FirstPart(f: string, k: nat, part: string, behind: string)
    requires k <= |f| && f[k..] == " " + part + behind
    ensures k < |f| && f[k] == ' ' && f[k + 1..] == part + behind
  {
    assert f[k] == f[k..][0];
    assert f[k + 1..] == f[k..][1..];
  }

  lemma ScoreIsRead(f: string, k: nat, score: string, rest: string)
    requires k <= |f| && f[k..] == " " + score + rest && IsScore(score) && StartsWithSpace(rest)
    ensures var e := ScoreEnd(f, k); e.Some? && f[e.value..] == rest
  {
    FirstPart(f, k, score, rest);
    assert f[k + 1] == f[k + 1..][0];
    assert f[k + 2..] == f[k + 1..][1..] == score[1..] + rest;
    AllInIs(score[1..], c => IsDigit(c));
    RunIsRead(f, k + 2, score[1..], rest, c => IsDigit(c));
  }

  lemma EntryBegins(f: string, kind: char, info: Info, tail: string)
    requires f == [kind] + " " + info.code + " " + info.sub + tail && |info.code| == 2 && |info.sub| == 4
    ensures |f| >= 9 && f[0] == kind && f[1] == ' ' && f[4] == ' ' && f[2] == info.code[0] && f[3] == info.code[1]
    ensures f[2..4] == info.code && f[5..9] == info.sub && f[9..] == tail
  {
    assert f[2..4] == info.code;
    assert f[5..9] == info.sub;
    assert f[9..] == tail;
  }

  /** Behind modes and hashes the rest of the field is reached. */
  lemma InfoIsRead(f: string, info: Info, rest: string, modes: nat, hashes: nat) returns (a: nat, b: nat)
    requires |f| >= 9 && f[9..] == Spaced(info.modes, Spaced(info.hashes, rest)) && StartsWithSpace(rest)
    requires |info.modes| == modes && Runs(info.modes, c => IsDigit(c))
    requires |info.hashes| == hashes && Runs(info.hashes, c => IsHex(c))
    ensures RunsEnd(f, 9, modes, c => IsDigit(c)) == Some(a) && a <= |f|
    ensures RunsEnd(f, a, hashes, c => IsHex(c)) == Some(b) && b <= |f| && f[b..] == rest
  {
    SpacedStarts(info.hashes, rest);
    RunsAreRead(f, 9, info.modes, Spaced(info.hashes, rest), c => IsDigit(c));
    a := RunsEnd(f, 9, modes, c => IsDigit(c)).value;
    RunsAreRead(f, a, info.hashes, rest, c => IsHex(c));
    b := RunsEnd(f, a, hashes, c => IsHex(c)).value;
  }

  /** Behind them stands the score, if there is one, and then the path. */
  lemma RestIsRead(f: string, b: nat, rest: string, path: string, scored: bool, score: string) returns (d: nat)
    requires b <= |f| && f[b..] == rest
    requires rest == (if scored then " " + score + (" " + path) else " " + path) && (scored ==> IsScore(score))
    ensures (if scored then ScoreEnd(f, b) else Some(b)) == Some(d)
    ensures d < |f| && f[d] == ' ' && f[d + 1..] == path
  {
    d := b;
    if scored {
      ScoreIsRead(f, b, score, " " + path);
      d := ScoreEnd(f, b).value;
    }
    FirstPart(f, d, path, "");
    assert path + "" == path;
  }

  lemma PathIsFound(f: string, info: Info, rest: string, path: string, modes: nat, hashes: nat, scored: bool,
                    score: string)
    requires |f| >= 9 && f[9..] == Spaced(info.modes, Spaced(info.hashes, rest))
    requires |info.modes| == modes && Runs(info.modes, c => IsDigit(c))
    requires |info.hashes| == hashes && Runs(info.hashes, c => IsHex(c))
    requires rest == (if scored then " " + score + (" " + path) else " " + path) && (scored ==> IsScore(score))
    ensures var k := PathStart(f, modes, hashes, scored); k.Some? && f[k.value..] == path
  {
    var a, b := InfoIsRead(f, info, rest, modes, hashes);
    var d := RestIsRead(f, b, rest, path, scored, score);
  }

  lemma EntryIsRead(f: string, kind: char, info: Info, rest: string, path: string, codes: set<char>, code: CharClass,
                    modes: nat, hashes: nat, scored: bool, score: string)
    requires forall c :: c in codes <==> code(c)
    requires f == EntryField(kind, info, rest) && WellFormedInfo(info, codes, modes, hashes)
    requires rest == (if scored then " " + score + (" " + path) else " " + path) && (scored ==> IsScore(score))
    ensures |f| > 0 && f[0] == kind
    ensures ParseEntry(f, code, modes, hashes, scored) == Some(Entry(info.code, info.sub, path, None))
  {
    InfoFits(info, codes, code, modes, hashes);
    EntryBegins(f, kind, info, Spaced(info.modes, Spaced(info.hashes, rest)));
    PathIsFound(f, info, rest, path, modes, hashes, scored, score);
  }

  // ---------- Only what git prints is accepted ----------

  lemma {:induction false} RunIsMade(f: string, k: nat, cls: CharClass)
    requires k <= |f|
    ensures AllIn(f[k..RunEnd(f, k, cls)], cls)
    decreases |f| - k
  {
    var e := RunEnd(f, k, cls);
    if k < e {
      RunIsMade(f, k + 1, cls);
      assert f[k..e][1..] == f[k + 1..e];
    }
  }

  lemma {:induction false} RunsAreMade(f: string, k: nat, n: nat, cls: CharClass) returns (parts: seq<string>)
    requires k <= |f| && RunsEnd(f, k, n, cls).Some?
    ensures |parts| == n && Runs(parts, cls) && f[k..] == Spaced(parts, f[RunsEnd(f, k, n, cls).value..])
    decreases n
  {
    if n == 0 {
      parts := [];
    } else {
      var e := RunEnd(f, k + 1, cls);
      var rest := RunsAreMade(f, e, n - 1, cls);
      RunIsMade(f, k + 1, cls);
      parts := [f[k + 1..e]] + rest;
      assert parts[1..] == rest;
      assert f[k..] == " " + f[k + 1..e] + f[e..];
    }
  }

  /** The rest of an entry field: the score, if there is one, and the path. */
  function Rest(scored: bool, score: string, path: string): string {
    if scored then " " + score + (" " + path) else " " + path
  }

  lemma RestIsMade(f: string, b: nat, scored: bool, d: nat) returns (score: string)
    requires b <= |f| && (if scored then ScoreEnd(f, b) else Some(b)) == Some(d) && d < |f| && f[d] == ' '
    ensures (scored ==> IsScore(score)) && f[b..] == Rest(scored, score, f[d + 1..])
  {
    score := "";
    assert f[d..] == " " + f[d + 1..];
    if scored {
      score := f[b + 1..d];
      RunIsMade(f, b + 2, c => IsDigit(c));
      AllInIs(f[b + 2..d], c => IsDigit(c));
      assert score[1..] == f[b + 2..d];
      assert f[b..] == " " + score + f[d..];
    }
  }

  /** A field that git prints for an entry. */
  predicate Prints(f: string, kind: char, info: Info, scored: bool, score: string, path: string,
                   codes: set<char>, modes: nat, hashes: nat) {
    && WellFormedInfo(info, codes, modes, hashes) && (scored ==> IsScore(score))
    && f == EntryField(kind, info, Rest(scored, score, path))
  }

  lemma EntryIsMade(f: string, kind: char, codes: set<char>, code: CharClass, modes: nat, hashes: nat, scored: bool)
    returns (info: Info, score: string, path: string)
    requires forall c :: c in codes <==> code(c)
    requires f != "" && f[0] == kind && ParseEntry(f, code, modes, hashes, scored).Some?
    ensures Prints(f, kind, info, scored, score, path, codes, modes, hashes)
  {
    var a := RunsEnd(f, 9, modes, c => IsDigit(c)).value;
    var b := RunsEnd(f, a, hashes, c => IsHex(c)).value;
    var d := (if scored then ScoreEnd(f, b) else Some(b)).value;
    var ms := RunsAreMade(f, 9, modes, c => IsDigit(c));
    var hs := RunsAreMade(f, a, hashes, c => IsHex(c));
    score := RestIsMade(f, b, scored, d);
    info, path := Info(f[2..4], f[5..9], ms, hs), f[d + 1..];
    InfoFits(info, codes, code, modes, hashes);
    EntryIsAssembled(f, kind, info, Spaced(ms, Spaced(hs, Rest(scored, score, path))));
  }

  lemma EntryIsAssembled(f: string, kind: char, info: Info, tail: string)
    requires |f| >= 9 && f[0] == kind && f[1] == ' ' && f[4] == ' ' && info.code == f[2..4] && info.sub == f[5..9]
    requires f[9..] == tail
    ensures f == [kind] + " " + info.code + " " + info.sub + tail
  {
  }

  /**
   An entry field is accepted exactly if git can print it: two status characters, a submodule code, the
   right number of modes and hashes, a score just if there should be one, and any path. It is read as the
   entry with those codes and that path.
   */
  lemma AcceptsJustWhatIsPrinted(f: string, kind: char, codes: set<char>, code: CharClass, modes: nat, hashes: nat,
                                 scored: bool, item: StatusItem)
    requires f != "" && f[0] == kind && forall c :: c in codes <==> code(c)
    ensures ParseEntry(f, code, modes, hashes, scored) == Some(item)
       <==> exists info, score, path :: Prints(f, kind, info, scored, score, path, codes, modes, hashes)
              && item == Entry(info.code, info.sub, path, None)
  {
    if ParseEntry(f, code, modes, hashes, scored).Some? {
      var info, score, path := EntryIsMade(f, kind, codes, code, modes, hashes, scored);
      EntryIsRead(f, kind, info, Rest(scored, score, path), path, codes, code, modes, hashes, scored, score);
    }
    forall info, score, path | Prints(f, kind, info, scored, score, path, codes, modes, hashes)
      ensures ParseEntry(f, code, modes, hashes, scored) == Some(Entry(info.code, info.sub, path, None))
    {
      EntryIsRead(f, kind, info, Rest(scored, score, path), path, codes, code, modes, hashes, scored, score);
    }
  }

  // ---------- What a token means ----------

  /** The field is that of an entry of a kind, and the item has its codes, its path and the old path. */
  ghost predicate MeansEntry(f: string, kind: char, codes: set<char>, modes: nat, hashes: nat, scored: bool,
                             oldPath: Option<string>, item: StatusItem) {
    exists info, score, path :: Prints(f, kind, info, scored, score, path, codes, modes, hashes)
      && item == Entry(info.code, info.sub, path, oldPath)
  }

  /** What a token means when `behind` is the token behind it: an item, or nothing if git prints no such token. */
  ghost predicate Means(f: string, behind: Option<string>, item: Option<StatusItem>) {
    if "# " <= f && |f| > 2 then item == Some(Header(f[2..]))
    else if f != "" && f[0] == '1' then item.Some? && MeansEntry(f, '1', CODES, 3, 2, false, None, item.value)
    else if f != "" && f[0] == '2' then
      && behind.Some? && behind.value != ""
      && item.Some? && MeansEntry(f, '2', CODES, 3, 2, true, behind, item.value)
    else if f != "" && f[0] == 'u' then item.Some? && MeansEntry(f, 'u', UNMERGED_CODES, 4, 3, false, None, item.value)
    else if f != "" && f[0] == '?' then item == Some(Entry("??", "????", if |f| < 2 then "" else f[2..], None))
    else item == None
  }

  lemma ClassesAre(c: char)
    ensures c in CODES <==> IsCode(c)
    ensures c in UNMERGED_CODES <==> IsUnmergedCode(c)
  {
  }

  lemma AllClassesAre()
    ensures forall c :: c in CODES <==> IsCode(c)
    ensures forall c :: c in UNMERGED_CODES <==> IsUnmergedCode(c)
  {
    forall c ensures (c in CODES <==> IsCode(c)) && (c in UNMERGED_CODES <==> IsUnmergedCode(c)) {
      ClassesAre(c);
    }
  }

  lemma ChangedIff(f: string, item: StatusItem)
    requires f != "" && f[0] == '1'
    ensures ParseChangedEntry(f) == Ok(item) <==> MeansEntry(f, '1', CODES, 3, 2, false, None, item)
  {
    AllClassesAre();
    AcceptsJustWhatIsPrinted(f, '1', CODES, c => IsCode(c), 3, 2, false, item);
  }

  lemma UnmergedIff(f: string, item: StatusItem)
    requires f != "" && f[0] == 'u'
    ensures ParseUnmergedEntry(f) == Ok(item) <==> MeansEntry(f, 'u', UNMERGED_CODES, 4, 3, false, None, item)
  {
    AllClassesAre();
    AcceptsJustWhatIsPrinted(f, 'u', UNMERGED_CODES, c => IsUnmergedCode(c), 4, 3, false, item);
  }

  lemma RenamedIsParsed(f: string, behind: Option<string>, item: StatusItem)
    ensures ParseRenamedOrCopiedEntry(f, behind) == Ok(item)
       <==> behind.Some? && behind.value != "" && item.Entry? && item.oldPath == behind
            && ParseEntry(f, c => IsCode(c), 3, 2, true) == Some(item.(oldPath := None))
  {
  }

  lemma RenamedMeans(f: string, behind: Option<string>, item: StatusItem)
    ensures MeansEntry(f, '2', CODES, 3, 2, true, behind, item)
       <==> item.Entry? && item.oldPath == behind
            && MeansEntry(f, '2', CODES, 3, 2, true, None, item.(oldPath := None))
  {
  }

  lemma RenamedOrCopiedIff(f: string, behind: Option<string>, item: StatusItem)
    requires f != "" && f[0] == '2'
    ensures ParseRenamedOrCopiedEntry(f, behind) == Ok(item)
       <==> behind.Some? && behind.value != "" && MeansEntry(f, '2', CODES, 3, 2, true, behind, item)
  {
    RenamedIsParsed(f, behind, item);
    RenamedMeans(f, behind, item);
    if item.Entry? {
      AllClassesAre();
      AcceptsJustWhatIsPrinted(f, '2', CODES, c => IsCode(c), 3, 2, true, item.(oldPath := None));
    }
  }

  /**
   A token is read exactly if it means something, as what it means, and a rename with the token behind it;
   any other token is an error.
   */
  lemma TokenIff(tokens: seq<string>, i: nat, item: Option<StatusItem>, next: nat)
    requires i < |tokens|
    ensures ReadToken(tokens, i) == Ok((item, next))
       <==> Means(tokens[i], if i + 1 < |tokens| then Some(tokens[i + 1]) else None, item)
            && next == if "2" <= tokens[i] then i + 2 else i + 1
  {
    var f, behind := tokens[i], if i + 1 < |tokens| then Some(tokens[i + 1]) else None;
    if item.Some? && f != "" {
      if f[0] == '1' {
        ChangedIff(f, item.value);
      } else if f[0] == '2' {
        RenamedOrCopiedIff(f, behind, item.value);
      } else if f[0] == 'u' {
        UnmergedIff(f, item.value);
      }
    }
  }

  // ---------- Reading the tokens ----------

  /** What the field of a record is read as, when `oldPath` is the token behind it. */
  ghost predicate ReadAs(r: Record, f: string, oldPath: Option<string>) {
    match r
    case HeaderLine(value) => StartsWith(f, "# ") && |f| > 2 && f[2..] == value
    case Changed(_, _) => f != "" && f[0] == '1' && Item(r).Some? && ParseChangedEntry(f) == Ok(Item(r).value)
    case RenamedOrCopied(_, _, _, _) =>
      f != "" && f[0] == '2' && Item(r).Some? && ParseRenamedOrCopiedEntry(f, oldPath) == Ok(Item(r).value)
    case Unmerged(_, _) => f != "" && f[0] == 'u' && Item(r).Some? && ParseUnmergedEntry(f) == Ok(Item(r).value)
    case Untracked(path) => |f| >= 2 && f[0] == '?' && f[2..] == path
    case Ignored(_) => f != "" && f[0] == '!'
  }

  lemma ChangedIsRead(f: string, info: Info, path: string)
    requires f == EntryField('1', info, " " + path) && WellFormedInfo(info, CODES, 3, 2)
    ensures f != "" && f[0] == '1' && ParseChangedEntry(f) == Ok(Entry(info.code, info.sub, path, None))
  {
    AllClassesAre();
    EntryIsRead(f, '1', info, " " + path, path, CODES, c => IsCode(c), 3, 2, false, "");
  }

  lemma RenamedIsRead(f: string, info: Info, score: string, path: string, oldPath: string)
    requires f == EntryField('2', info, " " + score + (" " + path)) && WellFormedInfo(info, CODES, 3, 2)
    requires IsScore(score) && oldPath != ""
    ensures f != "" && f[0] == '2'
    ensures ParseRenamedOrCopiedEntry(f, Some(oldPath)) == Ok(Entry(info.code, info.sub, path, Some(oldPath)))
  {
    AllClassesAre();
    EntryIsRead(f, '2', info, " " + score + (" " + path), path, CODES, c => IsCode(c), 3, 2, true, score);
  }

  lemma UnmergedIsRead(f: string, info: Info, path: string)
    requires f == EntryField('u', info, " " + path) && WellFormedInfo(info, UNMERGED_CODES, 4, 3)
    ensures f != "" && f[0] == 'u' && ParseUnmergedEntry(f) == Ok(Entry(info.code, info.sub, path, None))
  {
    AllClassesAre();
    EntryIsRead(f, 'u', info, " " + path, path, UNMERGED_CODES, c => IsUnmergedCode(c), 4, 3, false, "");
  }

  lemma FieldIsRead(r: Record)
    requires WellFormed(r)
    ensures ReadAs(r, Field(r), if r.RenamedOrCopied? then Some(r.oldPath) else None)
  {
    match r
    case HeaderLine(value) => assert Field(r)[2..] == value;
    case Changed(info, path) => ChangedIsRead(Field(r), info, path);
    case RenamedOrCopied(info, score, path, oldPath) => RenamedIsRead(Field(r), info, score, path, oldPath);
    case Unmerged(info, path) => UnmergedIsRead(Field(r), info, path);
    case Untracked(path) => assert Field(r)[2..] == path;
    case Ignored(path) =>
  }

  /** One record is read as its item, and the reading goes on behind its tokens. */
  lemma TokenIsRead(tokens: seq<string>, i: nat, r: Record)
    requires i < |tokens| && ReadAs(r, tokens[i], if i + 1 < |tokens| then Some(tokens[i + 1]) else None)
    ensures ReadToken(tokens, i) == Ok((Item(r), if r.RenamedOrCopied? then i + 2 else i + 1))
  {
  }

  lemma RecordIsRead(tokens: seq<string>, i: nat, r: Record)
    requires WellFormed(r) && i < |tokens| && tokens[i] == Field(r)
    requires r.RenamedOrCopied? ==> i + 1 < |tokens| && tokens[i + 1] == r.oldPath
    ensures ReadToken(tokens, i) == Ok((Item(r), if r.RenamedOrCopied? then i + 2 else i + 1))
  {
    FieldIsRead(r);
    TokenIsRead(tokens, i, r);
  }

  predicate AllWellFormed(records: seq<Record>) {
    |records| > 0 ==> WellFormed(records[0]) && AllWellFormed(records[1..])
  }

  lemma {:induction false} TokensAreRead(tokens: seq<string>, i: nat, records: seq<Record>)
    requires AllWellFormed(records) && i <= |tokens| && tokens[i..] == Tokens(records, [""])
    ensures ReadTokens(tokens, i) == Ok(Items(records))
    decreases |records|
  {
    if |records| == 0 {
      assert [""] + [] == [""];
      Uncons(tokens, i, "", []);
    } else {
      var next := RecordTokens(tokens, i, records[0], Tokens(records[1..], [""]));
      RecordIsRead(tokens, i, records[0]);
      TokensAreRead(tokens, next, records[1..]);
    }
  }

  lemma RecordTokens(tokens: seq<string>, i: nat, r: Record, behind: seq<string>) returns (next: nat)
    requires i <= |tokens|
    requires tokens[i..] == [Field(r)] + (if r.RenamedOrCopied? then [r.oldPath] + behind else behind)
    ensures i < |tokens| && tokens[i] == Field(r)
    ensures r.RenamedOrCopied? ==> i + 1 < |tokens| && tokens[i + 1] == r.oldPath
    ensures next == (if r.RenamedOrCopied? then i + 2 else i + 1) && next <= |tokens| && tokens[next..] == behind
  {
    next := i + 1;
    if r.RenamedOrCopied? {
      Uncons(tokens, i, Field(r), [r.oldPath] + behind);
      Uncons(tokens, i + 1, r.oldPath, behind);
      next := i + 2;
    } else {
      Uncons(tokens, i, Field(r), behind);
    }
  }

  // ---------- Splitting the output ----------

  lemma {:induction false} TerminatedIsJoined(tokens: seq<string>)
    ensures Join(tokens + [""], '\0') == Terminated(tokens)
  {
    if |tokens| == 0 {
      assert tokens + [""] == [""];
    } else {
      TerminatedIsJoined(tokens[1..]);
      assert (tokens + [""])[1..] == tokens[1..] + [""];
    }
  }

  lemma {:induction false} TokensEnd(records: seq<Record>)
    ensures Tokens(records, []) + [""] == Tokens(records, [""])
  {
    if |records| == 0 {
      assert [] + [""] == [""];
    } else {
      TokensEnd(records[1..]);
      OneMoreToken(Tokens(records[1..], []), Field(records[0]), records[0]);
    }
  }

  lemma OneMoreToken(behind: seq<string>, field: string, r: Record)
    ensures r.RenamedOrCopied? ==> [field] + ([r.oldPath] + behind) + [""] == [field] + ([r.oldPath] + (behind + [""]))
    ensures [field] + behind + [""] == [field] + (behind + [""])
  {
  }

  lemma {:induction false} AllInHolds(s: string, cls: CharClass, x: char)
    requires AllIn(s, cls) && !cls(x)
    ensures x !in s
  {
    if s != "" {
      AllInHolds(s[1..], cls, x);
    }
  }

  lemma {:induction false} SpacedHoldsNoNul(parts: seq<string>, rest: string, cls: CharClass)
    requires Runs(parts, cls) && !cls('\0') && '\0' !in rest
    ensures '\0' !in Spaced(parts, rest)
  {
    if |parts| > 0 {
      SpacedHoldsNoNul(parts[1..], rest, cls);
      AllInHolds(parts[0], cls, '\0');
    }
  }

  lemma EntryHoldsNoNul(kind: char, info: Info, rest: string, codes: set<char>, modes: nat, hashes: nat)
    requires WellFormedInfo(info, codes, modes, hashes) && '\0' !in codes && kind != '\0' && '\0' !in rest
    ensures '\0' !in EntryField(kind, info, rest)
  {
    InfoFits(info, codes, c => c in codes, modes, hashes);
    SpacedHoldsNoNul(info.hashes, rest, c => IsHex(c));
    SpacedHoldsNoNul(info.modes, Spaced(info.hashes, rest), c => IsDigit(c));
  }

  lemma FieldHoldsNoNul(r: Record)
    requires WellFormed(r)
    ensures '\0' !in Field(r)
  {
    match r
    case HeaderLine(value) =>
    case Changed(info, path) => EntryHoldsNoNul('1', info, " " + path, CODES, 3, 2);
    case RenamedOrCopied(info, score, path, oldPath) =>
      assert forall k :: 0 <= k < |score| - 1 ==> score[1..][k] == score[k + 1];
      EntryHoldsNoNul('2', info, " " + score + (" " + path), CODES, 3, 2);
    case Unmerged(info, path) => EntryHoldsNoNul('u', info, " " + path, UNMERGED_CODES, 4, 3);
    case Untracked(path) =>
    case Ignored(path) =>
  }

  lemma {:induction false} TokensAreFree(records: seq<Record>)
    requires AllWellFormed(records)
    ensures Free(Tokens(records, [""]), '\0')
  {
    if |records| > 0 {
      var behind := Tokens(records[1..], [""]);
      TokensAreFree(records[1..]);
      FieldHoldsNoNul(records[0]);
      if records[0].RenamedOrCopied? {
        FreeFirst(records[0].oldPath, behind, '\0');
        FreeFirst(Field(records[0]), [records[0].oldPath] + behind, '\0');
      } else {
        FreeFirst(Field(records[0]), behind, '\0');
      }
    }
  }

  lemma SplitOfSerialized(records: seq<Record>)
    requires AllWellFormed(records)
    ensures Split(Serialize(records), '\0') == Tokens(records, [""])
  {
    TerminatedIsJoined(Tokens(records, []));
    TokensEnd(records);
    TokensAreFree(records);
    SplitOfJoin(Tokens(records, [""]), '\0');
  }

  /**
   Parsing gives back every list of records that git can serialize: headers and entries in their order,
   with their codes and paths, and the old path of a rename, whatever it begins with, as part of its entry.
   */
  lemma StatusRoundTrips(records: seq<Record>)
    requires AllWellFormed(records)
    ensures Porcelain(Serialize(records)) == Ok(Items(records))
  {
    var tokens := Split(Serialize(records), '\0');
    SplitOfSerialized(records);
    assert tokens[0..] == tokens;
    TokensAreRead(tokens, 0, records);
  }
}
