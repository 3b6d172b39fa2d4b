/**
 `app/src/lib/status-parser.ts`: reading the output of `git status --porcelain=2 -z`, as git-status describes it
 under "Porcelain Format Version 2". The small regular expressions are written as cursor functions.
 */
module StatusParser {
  import opened Strings
  import opened Decimal

  datatype StatusItem =
    | Header(value: string)
    | Entry(statusCode: string, submoduleStatusCode: string, path: string, oldPath: Option<string>)

  datatype StatusError = BadChangedEntry | BadRenamedOrCopiedEntry | NoOldPath | BadUnmergedEntry

  type CharClass = char -> bool

  // ---------- Fields ----------

  /** `[MADRCUTX?!.]` */
  predicate IsCode(c: char) {
    c in "MADRCUTX?!."
  }

  /** `[DAU]` */
  predicate IsUnmergedCode(c: char) {
    c in "DAU"
  }

  /** `[a-f0-9]` */
  predicate IsHex(c: char) {
    'a' <= c <= 'f' || IsDigit(c)
  }

  /** `N\.\.\.|S[C.][M.][U.]` */
  predicate IsSubmoduleCode(s: string) {
    |s| == 4 && (s == "N..." || (s[0] == 'S' && s[1] in "C." && s[2] in "M." && s[3] in "U."))
  }

  /** Where a run of characters of a class that starts at `k` ends. */
  function RunEnd(f: string, k: nat, cls: CharClass): (e: nat)
    requires k <= |f|
    ensures k <= e <= |f|
    decreases |f| - k
  {
    if k == |f| || !cls(f[k]) then k else RunEnd(f, k + 1, cls)
  }

  /** The index behind `n` runs, each behind a space. */
  function RunsEnd(f: string, k: nat, n: nat, cls: CharClass): (e: Option<nat>)
    requires k <= |f|
    ensures e.Some? ==> e.value <= |f|
    decreases n
  {
    if n == 0 then Some(k)
    else if k == |f| || f[k] != ' ' || RunEnd(f, k + 1, cls) == k + 1 then None
    else RunsEnd(f, RunEnd(f, k + 1, cls), n - 1, cls)
  }

  /** What every entry begins with: its kind, the status code and the submodule code. */
  predicate BeginsEntry(f: string, code: CharClass) {
    |f| >= 9 && f[1] == ' ' && code(f[2]) && code(f[3]) && f[4] == ' ' && IsSubmoduleCode(f[5..9])
  }

  /** ` [RC]\d+` */
  function ScoreEnd(f: string, k: nat): (e: Option<nat>)
    requires k <= |f|
    ensures e.Some? ==> e.value <= |f|
  {
    if k + 1 < |f| && f[k] == ' ' && (f[k + 1] == 'R' || f[k + 1] == 'C') && RunEnd(f, k + 2, c => IsDigit(c)) > k + 2
    then Some(RunEnd(f, k + 2, c => IsDigit(c))) else None
  }

  /** The index of the path: behind modes, hashes, the score if there is one, and a space. */
  function PathStart(f: string, modes: nat, hashes: nat, scored: bool): (k: Option<nat>)
    requires |f| >= 9
    ensures k.Some? ==> k.value <= |f|
  {
    match RunsEnd(f, 9, modes, c => IsDigit(c))
    case None => None
    case Some(a) =>
      match RunsEnd(f, a, hashes, c => IsHex(c))
      case None => None
      case Some(b) =>
        match if scored then ScoreEnd(f, b) else Some(b)
        case None => None
        case Some(d) => if d < |f| && f[d] == ' ' then Some(d + 1) else None
  }

  /** The entry a field holds. */
  function ParseEntry(f: string, code: CharClass, modes: nat, hashes: nat, scored: bool): Option<StatusItem> {
    if !BeginsEntry(f, code) then None
    else match PathStart(f, modes, hashes, scored)
      case None => None
      case Some(k) => Some(Entry(f[2..4], f[5..9], f[k..], None))
  }

  function ParseChangedEntry(f: string): Result<StatusItem, StatusError> {
    match ParseEntry(f, c => IsCode(c), 3, 2, false)
    case None => Err(BadChangedEntry)
    case Some(e) => Ok(e)
  }

  function ParseRenamedOrCopiedEntry(f: string, oldPath: Option<string>): Result<StatusItem, StatusError> {
    match ParseEntry(f, c => IsCode(c), 3, 2, true)
    case None => Err(BadRenamedOrCopiedEntry)
    case Some(e) => if oldPath.None? || oldPath.value == "" then Err(NoOldPath) else Ok(e.(oldPath := oldPath))
  }

  function ParseUnmergedEntry(f: string): Result<StatusItem, StatusError> {
    match ParseEntry(f, c => IsUnmergedCode(c), 4, 3, false)
    case None => Err(BadUnmergedEntry)
    case Some(e) => Ok(e)
  }

  function ParseUntrackedEntry(f: string): StatusItem {
    Entry("??", "????", if |f| >= 2 then f[2..] else "", None)
  }

  // ---------- The token loop ----------

  /** What the token at `i` is read as, and the index of the next token; a token of another kind is passed over. */
  function ReadToken(tokens: seq<string>, i: nat): Result<(Option<StatusItem>, nat), StatusError>
    requires i < |tokens|
  {
    var f := tokens[i];
    if StartsWith(f, "# ") && |f| > 2 then Ok((Some(Header(f[2..])), i + 1))
    else if f == "" then Ok((None, i + 1))
    else if f[0] == '1' then One(ParseChangedEntry(f), i + 1)
    else if f[0] == '2' then
      One(ParseRenamedOrCopiedEntry(f, if i + 1 < |tokens| then Some(tokens[i + 1]) else None), i + 2)
    else if f[0] == 'u' then One(ParseUnmergedEntry(f), i + 1)
    else if f[0] == '?' then Ok((Some(ParseUntrackedEntry(f)), i + 1))
    else Ok((None, i + 1))
  }

  function One(r: Result<StatusItem, StatusError>, next: nat): Result<(Option<StatusItem>, nat), StatusError> {
    match r
    case Err(e) => Err(e)
    case Ok(item) => Ok((Some(item), next))
  }

  function Before(item: Option<StatusItem>, rest: Result<seq<StatusItem>, StatusError>): Result<seq<StatusItem>,
                  StatusError> {
    if item.None? || rest.Err? then rest else Ok([item.value] + rest.value)
  }

  lemma ReadAdvances(tokens: seq<string>, i: nat)
    requires i < |tokens| && ReadToken(tokens, i).Ok?
    ensures i < ReadToken(tokens, i).value.1
  {
  }

  /** The items of the tokens from `i` on. */
  function ReadTokens(tokens: seq<string>, i: nat): Result<seq<StatusItem>, StatusError>
    decreases |tokens| - i
  {
    if i >= |tokens| then Ok([])
    else match ReadToken(tokens, i)
      case Err(e) => Err(e)
      case Ok((item, next)) =>
        ReadAdvances(tokens, i);
        Before(item, ReadTokens(tokens, next))
  }

  function Porcelain(output: string): Result<seq<StatusItem>, StatusError> {
    ReadTokens(Split(output, '\0'), 0)
  }

  /** `entries` in front of what is still to be read. */
  function Behind(entries: seq<StatusItem>, rest: Result<seq<StatusItem>, StatusError>): Result<seq<StatusItem>,
                  StatusError> {
    if rest.Err? then rest else Ok(entries + rest.value)
  }

  method ParsePorcelainStatus(output: string) returns (r: Result<seq<StatusItem>, StatusError>)
    ensures r == Porcelain(output)
  {
    var entries: seq<StatusItem> := [];
    var tokens := Split(output, '\0');
    var i := 0;
    NothingBefore(ReadTokens(tokens, 0));
    while i < |tokens|
      invariant 0 <= i
      invariant Behind(entries, ReadTokens(tokens, i)) == ReadTokens(tokens, 0)
      decreases |tokens| - i
    {
      var item, next := ParseToken(tokens, i);
      if item.Err? {
        return Err(item.error);
      }
      ReadAdvances(tokens, i);
      if item.value.Some? {
        OneMoreEntry(entries, item.value.value, ReadTokens(tokens, next));
        entries := entries + [item.value.value];
      }
      i := next;
    }
    NothingBehind(entries);
    r := Ok(entries);
  }

  /** The body of that loop; `next` skips the old path of a rename. */
  method ParseToken(tokens: seq<string>, i: nat) returns (item: Result<Option<StatusItem>, StatusError>, next: nat)
    requires i < |tokens|
    ensures item.Err? ==> ReadToken(tokens, i) == Err(item.error)
    ensures item.Ok? ==> ReadToken(tokens, i) == Ok((item.value, next))
  {
    var field := tokens[i];
    next := i + 1;
    if StartsWith(field, "# ") && |field| > 2 {
      return Ok(Some(Header(field[2..]))), next;
    }
    var entryKind := if field == "" then "" else [field[0]];
    var entry: Result<StatusItem, StatusError>;
    if entryKind == "1" {
      entry := ParseChangedEntry(field);
    } else if entryKind == "2" {
      entry := ParseRenamedOrCopiedEntry(field, if next < |tokens| then Some(tokens[next]) else None);
      next := next + 1;
    } else if entryKind == "u" {
      entry := ParseUnmergedEntry(field);
    } else if entryKind == "?" {
      entry := Ok(ParseUntrackedEntry(field));
    } else {
      return Ok(None), next;
    }
    item := if entry.Err? then Err(entry.error) else Ok(Some(entry.value));
  }

  lemma NothingBefore(r: Result<seq<StatusItem>, StatusError>)
    ensures Behind([], r) == r
  {
    if r.Ok? {
      assert [] + r.value == r.value;
    }
  }

  lemma NothingBehind(entries: seq<StatusItem>)
    ensures Behind(entries, Ok([])) == Ok(entries)
  {
    assert entries + [] == entries;
  }

  lemma OneMoreEntry(entries: seq<StatusItem>, item: StatusItem, rest: Result<seq<StatusItem>, StatusError>)
    ensures Behind(entries + [item], rest) == Behind(entries, Before(Some(item), rest))
  {
    if rest.Ok? {
      assert entries + [item] + rest.value == entries + ([item] + rest.value);
    }
  }
}
