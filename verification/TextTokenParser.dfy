/**
 `app/src/lib/text-token-parser.ts`: the look-ahead scanner that finds emoji, issues, mentions and links in
 the text of a commit message. Lower-casing and the emoji map are given from outside.
 */
module TextTokenParser {
  import opened Strings
  import opened Decimal

  datatype Token =
    | Text(text: string)
    | Emoji(text: string, path: string)
    | Link(text: string, url: string)

  datatype GitHubRepository = GitHubRepository(htmlURL: Option<string>, endpointURL: string)

  datatype Env = Env(emoji: map<string, string>, repository: Option<GitHubRepository>, lower: string -> string)

  // ---------- Characters and words ----------

  /** What `.` in a regular expression does not match. */
  predicate IsLineTerminator(c: char) {
    c == '\n' || c == '\r' || c == '\U{2028}' || c == '\U{2029}'
  }

  /** What `\s` matches. */
  predicate IsSpace(c: char) {
    || c == ' ' || '\t' <= c <= '\r' || c == '\U{00A0}' || c == '\U{1680}' || '\U{2000}' <= c <= '\U{200A}'
    || c == '\U{2028}' || c == '\U{2029}' || c == '\U{202F}' || c == '\U{205F}' || c == '\U{3000}' || c == '\U{FEFF}'
  }

  predicate IsNameChar(c: char) {
    'a' <= c <= 'z' || 'A' <= c <= 'Z' || IsDigit(c) || c == '-'
  }

  /** The index of the first space or newline from `k` on, or the end of the text. */
  function WordEnd(text: string, k: nat): (e: nat)
    requires k <= |text|
    ensures k <= e <= |text|
    decreases |text| - k
  {
    if k == |text| || text[k] == ' ' || text[k] == '\n' then k else WordEnd(text, k + 1)
  }

  /** `/^:.*?:$/` */
  predicate IsEmojiText(w: string) {
    |w| >= 2 && w[0] == ':' && w[|w| - 1] == ':' && forall k :: 1 <= k < |w| - 1 ==> !IsLineTerminator(w[k])
  }

  /** `/^#\d+$/` */
  predicate IsIssueText(w: string) {
    |w| >= 2 && w[0] == '#' && DigitsEnd(w, 1) == |w|
  }

  /** `/^@[a-zA-Z0-9\-]+$/` */
  predicate IsMentionText(w: string) {
    |w| >= 2 && w[0] == '@' && forall k :: 1 <= k < |w| ==> IsNameChar(w[k])
  }

  /** `/^https?:\/\/.+/` */
  predicate IsHyperlinkText(w: string) {
    || ("http://" <= w && |w| > 7 && !IsLineTerminator(w[7]))
    || ("https://" <= w && |w| > 8 && !IsLineTerminator(w[8]))
  }

  /** `/\/issues\/(\d+)/`: the digits of the first match at or behind `k`. */
  function IssueIdIn(w: string, k: nat): Option<string>
    requires k <= |w|
    decreases |w| - k
  {
    if k == |w| then None
    else if k + 8 < |w| && w[k..k + 8] == "/issues/" && IsDigit(w[k + 8]) then Some(w[k + 8..DigitsEnd(w, k + 8)])
    else IssueIdIn(w, k + 1)
  }

  // ---------- Matches ----------

  /** One character less, if the text from `i` up to `e` ends with `c`. */
  function StripOne(text: string, i: nat, e: nat, c: char): (r: nat)
    requires i < e <= |text| && text[i] != c
    ensures i < r <= e
  {
    if text[e - 1] == c then e - 1 else e
  }

  function EmojiAt(env: Env, text: string, i: nat): Option<(Token, nat)>
    requires i < |text|
  {
    var e := WordEnd(text, i + 1);
    var w := text[i..e];
    if IsEmojiText(w) && w in env.emoji && env.emoji[w] != "" then Some((Emoji(w, env.emoji[w]), e)) else None
  }

  /** Behind an issue a closing parenthesis, a full stop and a comma are no part of it. */
  function IssueEnd(text: string, i: nat): (e: nat)
    requires i < |text| && text[i] == '#'
    ensures i < e <= |text|
  {
    StripOne(text, i, StripOne(text, i, StripOne(text, i, WordEnd(text, i + 1), ')'), '.'), ',')
  }

  function HtmlURL(r: GitHubRepository): string {
    if r.htmlURL.Some? then r.htmlURL.value else "null"
  }

  function IssueAt(r: GitHubRepository, text: string, i: nat): Option<(Token, nat)>
    requires i < |text| && text[i] == '#'
  {
    var e := IssueEnd(text, i);
    var w := text[i..e];
    if IsIssueText(w) then Some((Link(w, HtmlURL(r) + "/issues/" + Numeral(Value(w, 1, |w|))), e)) else None
  }

  /** What was read before ends with something but whitespace. */
  predicate WithinWord(current: string) {
    current != "" && !IsSpace(current[|current| - 1])
  }

  function MentionEnd(text: string, i: nat): (e: nat)
    requires i < |text| && text[i] == '@'
    ensures i < e <= |text|
  {
    var e := WordEnd(text, i + 1);
    if text[e - 1] == '!' || text[e - 1] == ',' then e - 1 else e
  }

  function MentionAt(r: GitHubRepository, text: string, i: nat, current: string): Option<(Token, nat)>
    requires i < |text| && text[i] == '@'
  {
    var e := MentionEnd(text, i);
    var w := text[i..e];
    if !WithinWord(current) && IsMentionText(w) then Some((Link(w, r.endpointURL + "/" + w[1..]), e)) else None
  }

  /** The text of a link to an issue of the repository is short. */
  function HyperlinkText(env: Env, w: string): string {
    match env.repository
    case Some(GitHubRepository(Some(url), _)) =>
      if url != "" && env.lower(url) + "/issues/" <= env.lower(w) && IssueIdIn(w, 0).Some?
      then "#" + IssueIdIn(w, 0).value else w
    case _ => w
  }

  function HyperlinkAt(env: Env, text: string, i: nat, current: string): Option<(Token, nat)>
    requires i < |text|
  {
    var e := WordEnd(text, i + 1);
    var w := text[i..e];
    if !WithinWord(current) && IsHyperlinkText(w) then Some((Link(HyperlinkText(env, w), w), e)) else None
  }

  /** The token that starts at `i`, if one does, and the index behind it; `current` is the text pending before it. */
  function MatchAt(env: Env, text: string, i: nat, current: string): Option<(Token, nat)>
    requires i < |text|
  {
    var c := text[i];
    if c == ':' then EmojiAt(env, text, i)
    else if c == 'h' then HyperlinkAt(env, text, i, current)
    else if env.repository.None? then None
    else if c == '#' then IssueAt(env.repository.value, text, i)
    else if c == '@' then MentionAt(env.repository.value, text, i, current)
    else None
  }

  /** A match moves forward and stays within the text. */
  lemma MatchAdvances(env: Env, text: string, i: nat, current: string)
    requires i < |text| && MatchAt(env, text, i, current).Some?
    ensures i < MatchAt(env, text, i, current).value.1 <= |text|
  {
  }

  // ---------- Scanning ----------

  /** A token and the piece of the text it was made of. */
  datatype Scanned = Scanned(token: Token, source: string)

  function FlushThen(current: string, rest: seq<Scanned>): seq<Scanned> {
    if current == "" then rest else [Scanned(Text(current), current)] + rest
  }

  /** The tokens of the text from `i` on, when `current` is pending before it. */
  function Scan(env: Env, text: string, i: nat, current: string): seq<Scanned>
    requires i <= |text|
    decreases |text| - i
  {
    if i == |text| then FlushThen(current, [])
    else
      var m := MatchAt(env, text, i, current);
      if m.None? then Scan(env, text, i + 1, current + [text[i]])
      else
        MatchAdvances(env, text, i, current);
        FlushThen(current, [Scanned(m.value.0, text[i..m.value.1])] + Scan(env, text, m.value.1, ""))
  }

  function Plain(s: seq<Scanned>): seq<Token> {
    seq(|s|, k requires 0 <= k < |s| => s[k].token)
  }

  function Tokenize(env: Env, text: string): seq<Token> {
    Plain(Scan(env, text, 0, ""))
  }

  /** `text.indexOf('\n', index + 1)` and `text.indexOf(' ', index + 1)`, whichever comes first. */
  function ScanForEndOfWord(text: string, index: nat): int {
    var newline, space := IndexOf(text, '\n', index + 1), IndexOf(text, ' ', index + 1);
    if newline > -1 && space > -1 then (if newline <= space then newline else space)
    else if newline > -1 then newline
    else if space > -1 then space
    else |text|
  }

  lemma EndOfWordIsWordEnd(text: string, index: nat)
    requires index < |text|
    ensures ScanForEndOfWord(text, index) == WordEnd(text, index + 1)
  {
    WordEndIs(text, index + 1);
  }

  lemma {:induction false} WordEndIs(text: string, k: nat)
    requires k <= |text|
    ensures var e := WordEnd(text, k);
      && (e < |text| ==> text[e] == ' ' || text[e] == '\n')
      && forall j :: k <= j < e ==> text[j] != ' ' && text[j] != '\n'
    decreases |text| - k
  {
    if k < |text| && text[k] != ' ' && text[k] != '\n' {
      WordEndIs(text, k + 1);
    }
  }

  function Flushed(results: seq<Token>, current: string): seq<Token> {
    if current == "" then results else results + [Text(current)]
  }

  /** A scanner that matched `m` flushed the pending text and pushed its token; one that did not changed nothing. */
  ghost predicate Took(before: seq<Token>, current: string, m: Option<(Token, nat)>,
                       results: seq<Token>, current': string, next: Option<nat>) {
    if m.None? then results == before && current' == current && next == None
    else results == Flushed(before, current) + [m.value.0] && current' == "" && next == Some(m.value.1)
  }

  /** The results so far, and what is still to come, are all tokens. */
  ghost predicate Continues(results: seq<Token>, rest: seq<Scanned>, all: seq<Token>) {
    results + Plain(rest) == all
  }

  lemma FlushPlain(results: seq<Token>, current: string, rest: seq<Scanned>)
    ensures results + Plain(FlushThen(current, rest)) == Flushed(results, current) + Plain(rest)
  {
  }

  lemma PushPlain(results: seq<Token>, s: Scanned, rest: seq<Scanned>)
    ensures results + Plain([s] + rest) == results + [s.token] + Plain(rest)
  {
  }

  lemma MatchContinues(results: seq<Token>, env: Env, text: string, i: nat, current: string, all: seq<Token>)
    requires i < |text| && MatchAt(env, text, i, current).Some?
    requires Continues(results, Scan(env, text, i, current), all)
    ensures var (token, next) := MatchAt(env, text, i, current).value;
      next <= |text| && Continues(Flushed(results, current) + [token], Scan(env, text, next, ""), all)
  {
    var (token, next) := MatchAt(env, text, i, current).value;
    MatchAdvances(env, text, i, current);
    var s, rest := Scanned(token, text[i..next]), Scan(env, text, next, "");
    FlushPlain(results, current, [s] + rest);
    PushPlain(Flushed(results, current), s, rest);
  }

  lemma NothingBehind(results: seq<Token>, current: string)
    ensures results + Plain(FlushThen(current, [])) == Flushed(results, current)
  {
    FlushPlain(results, current, []);
    assert Flushed(results, current) + Plain([]) == Flushed(results, current);
  }

  class Tokenizer {
    const env: Env
    var results: seq<Token>
    var currentString: string

    constructor (env: Env)
      ensures this.env == env && results == [] && currentString == ""
    {
      this.env := env;
      results, currentString := [], "";
    }

    method Reset()
      modifies this
      ensures results == [] && currentString == ""
    {
      results, currentString := [], "";
    }

    method Append(c: char)
      modifies this`currentString
      ensures currentString == old(currentString) + [c]
    {
      currentString := currentString + [c];
    }

    method Flush()
      modifies this`results, this`currentString
      ensures currentString == ""
      ensures results == Flushed(old(results), old(currentString))
    {
      if |currentString| > 0 {
        results := results + [Text(currentString)];
        currentString := "";
      }
    }

    /** Pushes a token behind the pending text. */
    method Push(token: Token)
      modifies this`results, this`currentString
      ensures currentString == ""
      ensures results == Flushed(old(results), old(currentString)) + [token]
    {
      Flush();
      results := results + [token];
    }

    method ScanForEmoji(text: string, index: nat) returns (next: Option<nat>)
      requires index < |text|
      modifies this`results, this`currentString
      ensures Took(old(results), old(currentString), EmojiAt(env, text, index), results, currentString, next)
    {
      EndOfWordIsWordEnd(text, index);
      var nextIndex := ScanForEndOfWord(text, index);
      var maybeEmoji := text[index..nextIndex];
      if !IsEmojiText(maybeEmoji) {
        return None;
      }
      if maybeEmoji !in env.emoji || env.emoji[maybeEmoji] == "" {
        return None;
      }
      Push(Emoji(maybeEmoji, env.emoji[maybeEmoji]));
      next := Some(nextIndex);
    }

    method ScanForIssue(text: string, index: nat, repository: GitHubRepository) returns (next: Option<nat>)
      requires index < |text| && text[index] == '#'
      modifies this`results, this`currentString
      ensures Took(old(results), old(currentString), IssueAt(repository, text, index), results, currentString, next)
    {
      EndOfWordIsWordEnd(text, index);
      var nextIndex := ScanForEndOfWord(text, index);
      nextIndex := StripOne(text, index, nextIndex, ')');
      nextIndex := StripOne(text, index, nextIndex, '.');
      nextIndex := StripOne(text, index, nextIndex, ',');
      var maybeIssue := text[index..nextIndex];
      if !IsIssueText(maybeIssue) {
        return None;
      }
      var id := Value(maybeIssue, 1, |maybeIssue|);
      Push(Link(maybeIssue, HtmlURL(repository) + "/issues/" + Numeral(id)));
      next := Some(nextIndex);
    }

    method ScanForMention(text: string, index: nat, repository: GitHubRepository) returns (next: Option<nat>)
      requires index < |text| && text[index] == '@'
      modifies this`results, this`currentString
      ensures Took(old(results), old(currentString), MentionAt(repository, text, index, old(currentString)),
                   results, currentString, next)
    {
      if WithinWord(currentString) {
        return None;
      }
      EndOfWordIsWordEnd(text, index);
      var nextIndex := ScanForEndOfWord(text, index);
      if text[nextIndex - 1] == '!' || text[nextIndex - 1] == ',' {
        nextIndex := nextIndex - 1;
      }
      var maybeMention := text[index..nextIndex];
      if !IsMentionText(maybeMention) {
        return None;
      }
      Push(Link(maybeMention, repository.endpointURL + "/" + maybeMention[1..]));
      next := Some(nextIndex);
    }

    method ScanForHyperlink(text: string, index: nat) returns (next: Option<nat>)
      requires index < |text|
      modifies this`results, this`currentString
      ensures Took(old(results), old(currentString), HyperlinkAt(env, text, index, old(currentString)),
                   results, currentString, next)
    {
      if WithinWord(currentString) {
        return None;
      }
      EndOfWordIsWordEnd(text, index);
      var nextIndex := ScanForEndOfWord(text, index);
      var maybeHyperlink := text[index..nextIndex];
      if !IsHyperlinkText(maybeHyperlink) {
        return None;
      }
      if env.repository.Some? && env.repository.value.htmlURL.Some? && env.repository.value.htmlURL.value != "" {
        var compare := env.lower(env.repository.value.htmlURL.value);
        if StartsWith(env.lower(maybeHyperlink), compare + "/issues/") {
          var issueMatch := IssueIdIn(maybeHyperlink, 0);
          if issueMatch.Some? {
            Push(Link("#" + issueMatch.value, maybeHyperlink));
            return Some(nextIndex);
          }
        }
      }
      Push(Link(maybeHyperlink, maybeHyperlink));
      next := Some(nextIndex);
    }

    /** Looks for a token at `index`: with a repository also for issues and mentions. */
    method Inspect(text: string, index: nat) returns (next: Option<nat>)
      requires index < |text|
      modifies this`results, this`currentString
      ensures Took(old(results), old(currentString), MatchAt(env, text, index, old(currentString)),
                   results, currentString, next)
    {
      var element := text[index];
      if element == ':' {
        next := ScanForEmoji(text, index);
      } else if element == 'h' {
        next := ScanForHyperlink(text, index);
      } else if element == '#' && env.repository.Some? {
        next := ScanForIssue(text, index, env.repository.value);
      } else if element == '@' && env.repository.Some? {
        next := ScanForMention(text, index, env.repository.value);
      } else {
        next := None;
      }
    }

    method TokenizeText(text: string) returns (tokens: seq<Token>)
      modifies this
      ensures tokens == Tokenize(env, text)
    {
      Reset();
      ghost var all := Tokenize(env, text);
      var i := 0;
      assert [] + all == all;
      while i < |text|
        invariant 0 <= i <= |text|
        invariant Continues(results, Scan(env, text, i, currentString), all)
        decreases |text| - i
      {
        ghost var before, current := results, currentString;
        var next := Inspect(text, i);
        if next.Some? {
          MatchAdvances(env, text, i, current);
          MatchContinues(before, env, text, i, current, all);
          i := next.value;
        } else {
          Append(text[i]);
          i := i + 1;
        }
      }
      NothingBehind(results, currentString);
      Flush();
      tokens := results;
    }
  }

  // ---------- What tokenizing keeps ----------

  /** The pieces of text the tokens were made of, in order. */
  function Sources(s: seq<Scanned>): string {
    if |s| == 0 then "" else s[0].source + Sources(s[1..])
  }

  /** A token shows its piece of text, or, if it is a scanned hyperlink, has it as its url; it is never empty. */
  predicate Faithful(s: Scanned) {
    && s.source != "" && s.token.text != ""
    && (if s.token.Link? && s.source[0] == 'h' then s.token.url == s.source else s.token.text == s.source)
  }

  /** All tokens are faithful, and no two text tokens stand side by side. */
  predicate WellFormed(s: seq<Scanned>) {
    |s| > 0 ==>
      && Faithful(s[0])
      && (s[0].token.Text? && |s| > 1 ==> !s[1].token.Text?)
      && WellFormed(s[1..])
  }

  lemma SourcesFirst(s: Scanned, rest: seq<Scanned>)
    ensures Sources([s] + rest) == s.source + Sources(rest)
  {
    assert ([s] + rest)[1..] == rest;
  }

  /** The pending text and what is behind it. */
  function Behind(current: string, text: string): string {
    if current == "" then text else current + text
  }

  lemma SourcesFlush(current: string, rest: seq<Scanned>)
    ensures Sources(FlushThen(current, rest)) == Behind(current, Sources(rest))
  {
    if current != "" {
      SourcesFirst(Scanned(Text(current), current), rest);
    }
  }

  /** The pieces of what is scanned from `i` on are the pending text and the text from `i` on. */
  ghost predicate Covers(env: Env, text: string, i: nat, current: string)
    requires i <= |text|
  {
    Sources(Scan(env, text, i, current)) == Behind(current, text[i..])
  }

  lemma {:induction false} ScanCovers(env: Env, text: string, i: nat, current: string)
    requires i <= |text|
    ensures Covers(env, text, i, current)
    decreases |text| - i
  {
    if i == |text| {
      SourcesFlush(current, []);
      assert text[i..] == "";
    } else if MatchAt(env, text, i, current).None? {
      ScanCovers(env, text, i + 1, current + [text[i]]);
      OneMoreCharacter(text, i, current);
    } else {
      MatchAdvances(env, text, i, current);
      var (token, next) := MatchAt(env, text, i, current).value;
      ScanCovers(env, text, next, "");
      MatchCovers(current, Scanned(token, text[i..next]), Scan(env, text, next, ""), text, i, next);
    }
  }

  lemma OneMoreCharacter(text: string, i: nat, current: string)
    requires i < |text|
    ensures Behind(current + [text[i]], text[i + 1..]) == Behind(current, text[i..])
  {
    assert current + [text[i]] + text[i + 1..] == current + text[i..];
    if current == "" {
      assert current + text[i..] == text[i..];
    }
  }

  lemma MatchCovers(current: string, s: Scanned, rest: seq<Scanned>, text: string, i: nat, next: nat)
    requires i < next <= |text| && s.source == text[i..next] && Sources(rest) == text[next..]
    ensures Sources(FlushThen(current, [s] + rest)) == Behind(current, text[i..])
  {
    SourcesFlush(current, [s] + rest);
    SourcesFirst(s, rest);
    assert text[i..next] + text[next..] == text[i..];
  }

  /** Tokenizing loses nothing: the pieces of text the tokens were made of are the text. */
  lemma TokenizingIsLossless(env: Env, text: string)
    ensures Sources(Scan(env, text, 0, "")) == text
  {
    ScanCovers(env, text, 0, "");
    assert text[0..] == text;
  }

  lemma MatchIsFaithful(env: Env, text: string, i: nat, current: string)
    requires i < |text| && MatchAt(env, text, i, current).Some?
    ensures var (token, next) := MatchAt(env, text, i, current).value;
      i < next <= |text| && !token.Text? && Faithful(Scanned(token, text[i..next]))
  {
    MatchAdvances(env, text, i, current);
    assert text[i..MatchAt(env, text, i, current).value.1][0] == text[i];
  }

  lemma {:induction false} ScanIsWellFormed(env: Env, text: string, i: nat, current: string)
    requires i <= |text|
    ensures WellFormed(Scan(env, text, i, current))
    decreases |text| - i
  {
    if i == |text| {
      FlushIsWellFormed(current, []);
    } else if MatchAt(env, text, i, current).None? {
      ScanIsWellFormed(env, text, i + 1, current + [text[i]]);
    } else {
      MatchIsFaithful(env, text, i, current);
      var (token, next) := MatchAt(env, text, i, current).value;
      ScanIsWellFormed(env, text, next, "");
      MatchIsWellFormed(current, Scanned(token, text[i..next]), Scan(env, text, next, ""));
    }
  }

  lemma FlushIsWellFormed(current: string, rest: seq<Scanned>)
    requires WellFormed(rest) && (|rest| > 0 ==> !rest[0].token.Text?)
    ensures WellFormed(FlushThen(current, rest))
  {
    if current != "" {
      assert ([Scanned(Text(current), current)] + rest)[1..] == rest;
    }
  }

  lemma MatchIsWellFormed(current: string, s: Scanned, rest: seq<Scanned>)
    requires Faithful(s) && !s.token.Text? && WellFormed(rest)
    ensures WellFormed(FlushThen(current, [s] + rest))
  {
    assert ([s] + rest)[1..] == rest;
    FlushIsWellFormed(current, [s] + rest);
  }

  /** Each token shows, or links to, its piece of text; none is empty, and no two text tokens are adjacent. */
  lemma TokensAreWellFormed(env: Env, text: string)
    ensures WellFormed(Scan(env, text, 0, ""))
    ensures |Tokenize(env, text)| == |Scan(env, text, 0, "")|
    ensures forall k :: 0 <= k < |Tokenize(env, text)| ==> Tokenize(env, text)[k] == Scan(env, text, 0, "")[k].token
  {
    ScanIsWellFormed(env, text, 0, "");
  }

  // ---------- Where mentions and hyperlinks start ----------

  predicate OpensWord(text: string, i: int) {
    i == 0 || (0 < i <= |text| && IsSpace(text[i - 1]))
  }

  /** A mention or a hyperlink. */
  predicate NeedsWordStart(s: Scanned) {
    s.token.Link? && s.source != "" && (s.source[0] == '@' || s.source[0] == 'h')
  }

  /** Laid out along the text from `i` on, every mention and hyperlink starts the text or follows whitespace. */
  predicate LinksOpenWords(text: string, s: seq<Scanned>, i: int) {
    |s| > 0 ==> (NeedsWordStart(s[0]) ==> OpensWord(text, i)) && LinksOpenWords(text, s[1..], i + |s[0].source|)
  }

  /** The pending text ends before `i`; if there is none, neither a mention nor a hyperlink starts at `i`. */
  predicate Pending(text: string, i: nat, current: string)
    requires i <= |text|
  {
    if current == "" then i == 0 || i == |text| || (text[i] != '@' && text[i] != 'h')
    else |current| <= i && current[|current| - 1] == text[i - 1]
  }

  /** Behind a match stands whitespace, a stripped character, or nothing. */
  lemma MatchLeavesNoStart(env: Env, text: string, i: nat, current: string)
    requires i < |text| && MatchAt(env, text, i, current).Some?
    ensures var next := MatchAt(env, text, i, current).value.1; next <= |text| && Pending(text, next, "")
  {
    WordEndIs(text, i + 1);
    MatchAdvances(env, text, i, current);
  }

  /** A match that needs it starts a word. */
  lemma MatchOpensWord(env: Env, text: string, i: nat, current: string, s: Scanned, next: nat)
    requires i < |text| && Pending(text, i, current) && MatchAt(env, text, i, current) == Some((s.token, next))
    requires i < next <= |text| && s.source == text[i..next]
    ensures NeedsWordStart(s) ==> OpensWord(text, i)
  {
    assert text[i..next][0] == text[i];
  }

  lemma LinksBehind(text: string, i: nat, current: string, s: Scanned, rest: seq<Scanned>)
    requires NeedsWordStart(s) ==> OpensWord(text, i)
    requires LinksOpenWords(text, rest, i + |s.source|)
    ensures LinksOpenWords(text, FlushThen(current, [s] + rest), i - |current|)
  {
    assert ([s] + rest)[1..] == rest;
    assert LinksOpenWords(text, [s] + rest, i);
    if current != "" {
      assert ([Scanned(Text(current), current)] + ([s] + rest))[1..] == [s] + rest;
    }
  }

  ghost predicate ScansOpenWords(env: Env, text: string, i: nat, current: string)
    requires i <= |text|
  {
    LinksOpenWords(text, Scan(env, text, i, current), i - |current|)
  }

  lemma {:induction false} ScanOpensWords(env: Env, text: string, i: nat, current: string)
    requires i <= |text| && Pending(text, i, current)
    ensures ScansOpenWords(env, text, i, current)
    decreases |text| - i
  {
    if i < |text| {
      var m := MatchAt(env, text, i, current);
      if m.None? {
        ScanOpensWords(env, text, i + 1, current + [text[i]]);
      } else {
        MatchAdvances(env, text, i, current);
        MatchLeavesNoStart(env, text, i, current);
        ScanOpensWords(env, text, m.value.1, "");
        MatchStep(env, text, i, current, m.value.0, m.value.1);
      }
    }
  }

  lemma MatchStep(env: Env, text: string, i: nat, current: string, token: Token, next: nat)
    requires i < next <= |text| && Pending(text, i, current) && MatchAt(env, text, i, current) == Some((token, next))
    requires ScansOpenWords(env, text, next, "")
    ensures ScansOpenWords(env, text, i, current)
  {
    var s := Scanned(token, text[i..next]);
    MatchOpensWord(env, text, i, current, s, next);
    LinksBehind(text, i, current, s, Scan(env, text, next, ""));
  }

  /** No mention and no hyperlink is found within a word, such as an email address. */
  lemma LinksAreNoPartOfWords(env: Env, text: string)
    ensures LinksOpenWords(text, Scan(env, text, 0, ""), 0)
  {
    ScanOpensWords(env, text, 0, "");
  }
}
