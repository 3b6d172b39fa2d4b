/**
 What the tokens of a text are, said of the text alone: at which index which emoji, issue, mention or link
 stands, and how the tokens are laid out along the text.
 */
module TokenLayout {
  import opened Strings
  import opened Decimal
  import opened TextTokenParser

  // ---------- Characters ----------

  /** What `\s` matches. */
  const WHITESPACE: set<char> := {'\t', '\n', '\U{000B}', '\U{000C}', '\r', ' ', '\U{00A0}', '\U{1680}', '\U{2000}',
    '\U{2001}', '\U{2002}', '\U{2003}', '\U{2004}', '\U{2005}', '\U{2006}', '\U{2007}', '\U{2008}', '\U{2009}',
    '\U{200A}', '\U{2028}', '\U{2029}', '\U{202F}', '\U{205F}', '\U{3000}', '\U{FEFF}'}

  /** What `.` does not match. */
  const LINE_TERMINATORS: set<char> := {'\n', '\r', '\U{2028}', '\U{2029}'}

  lemma CharactersAre(c: char)
    ensures IsSpace(c) <==> c in WHITESPACE
    ensures IsLineTerminator(c) <==> c in LINE_TERMINATORS
  {
  }

  // ---------- Words ----------

  /** The text up to a space, a newline or the end; its first character can be anything. */
  ghost predicate IsWord(text: string, i: nat, e: nat) {
    && i < e <= |text| && (e < |text| ==> text[e] == ' ' || text[e] == '\n')
    && forall k :: i < k < e ==> text[k] != ' ' && text[k] != '\n'
  }

  lemma WordIs(text: string, i: nat, e: nat)
    requires i < |text|
    ensures IsWord(text, i, e) <==> e == WordEnd(text, i + 1)
  {
    WordEndIs(text, i + 1);
  }

  /** Index `i` is where the text starts, or behind whitespace. */
  predicate IsWordStart(text: string, i: nat) {
    i == 0 || (i <= |text| && text[i - 1] in WHITESPACE)
  }

  /** The text from `i` up to `e` is one digit or more. */
  ghost predicate AreDigits(text: string, i: nat, e: nat) {
    i < e <= |text| && forall k :: i <= k < e ==> '0' <= text[k] <= '9'
  }

  // ---------- Emoji ----------

  /** A word between colons that the map knows. */
  ghost predicate EmojiStands(env: Env, text: string, i: nat, e: nat, token: Token) {
    && IsWord(text, i, e) && e - i >= 2 && text[i] == ':' && text[e - 1] == ':'
    && (forall k :: i < k < e - 1 ==> text[k] !in LINE_TERMINATORS)
    && text[i..e] in env.emoji && env.emoji[text[i..e]] != ""
    && token == Emoji(text[i..e], env.emoji[text[i..e]])
  }

  lemma EmojiIff(env: Env, text: string, i: nat, e: nat, token: Token)
    requires i < |text|
    ensures text[i] == ':' && EmojiAt(env, text, i) == Some((token, e)) <==> EmojiStands(env, text, i, e, token)
  {
    WordIs(text, i, e);
    var w := text[i..WordEnd(text, i + 1)];
    assert forall k :: 0 <= k < |w| ==> w[k] == text[i + k];
    if IsEmojiText(w) {
      forall k | i < k < i + |w| - 1 ensures text[k] !in LINE_TERMINATORS {
        assert text[k] == w[k - i];
      }
    }
  }

  // ---------- Issues ----------

  /** What can stand behind an issue in its word: a comma, a full stop and a closing parenthesis, in that order. */
  predicate IsIssueTail(tail: string) {
    || tail == "" || tail == "," || tail == "." || tail == ")"
    || tail == ",." || tail == ",)" || tail == ".)" || tail == ",.)"
  }

  /** `#` and digits, with such a tail up to the end of the word. */
  ghost predicate IssueStands(env: Env, text: string, i: nat, e: nat, token: Token) {
    && env.repository.Some? && i < |text| && text[i] == '#' && AreDigits(text, i + 1, e)
    && (exists w: nat :: IsWord(text, i, w) && e <= w && IsIssueTail(text[e..w]))
    && token == Link(text[i..e], RepositoryURL(env.repository.value) + "/issues/" + Numeral(Value(text, i + 1, e)))
  }

  /** As a template literal prints it. */
  function RepositoryURL(repository: GitHubRepository): string {
    match repository.htmlURL
    case Some(url) => url
    case None => "null"
  }

  lemma IssueTextIs(text: string, i: nat, e: nat)
    requires i < e <= |text| && text[i] == '#'
    ensures IsIssueText(text[i..e]) <==> AreDigits(text, i + 1, e)
    ensures Value(text[i..e], 1, e - i) == Value(text, i + 1, e)
  {
    var w := text[i..e];
    assert forall k :: 0 <= k < e - i ==> w[k] == text[i + k];
    DigitsEndIs(w, 1);
    if AreDigits(text, i + 1, e) {
      DigitsEndAt(w, 1, |w|);
    } else if IsIssueText(w) {
      forall k | i + 1 <= k < e ensures '0' <= text[k] <= '9' {
        assert text[k] == w[k - i];
      }
    }
    ValueOfSlice(w, 1, |w|);
    ValueOfSlice(text, i + 1, e);
    assert w[1..|w|] == text[i + 1..e];
  }

  /** The three strips end behind the digits exactly if what is behind them is such a tail. */
  lemma IssueEndIff(text: string, i: nat, e: nat, w: nat)
    requires i < e <= w <= |text| && text[i] == '#' && AreDigits(text, i + 1, e) && w == WordEnd(text, i + 1)
    ensures e == IssueEnd(text, i) <==> IsIssueTail(text[e..w])
  {
    var tail := text[e..w];
    assert '0' <= text[e - 1] <= '9';
    assert forall k :: 0 <= k < |tail| ==> tail[k] == text[e + k];
    var a := StripOne(text, i, w, ')');
    var b := StripOne(text, i, a, '.');
    if e == StripOne(text, i, b, ',') {
      TailOfStrips(tail);
    }
  }

  /** A text of which nothing is left when a parenthesis, a full stop and a comma are taken from its end. */
  lemma TailOfStrips(tail: string)
    requires |tail| <= 3
    requires |tail| == 1 ==> tail[0] == ',' || tail[0] == '.' || tail[0] == ')'
    requires |tail| == 2 ==> tail[0] == ',' || tail[0] == '.'
    requires |tail| == 2 ==> tail[1] == ')' || (tail[0] == ',' && tail[1] == '.')
    requires |tail| == 3 ==> tail[0] == ',' && tail[1] == '.' && tail[2] == ')'
    ensures IsIssueTail(tail)
  {
  }

  lemma IssueIff(env: Env, text: string, i: nat, e: nat, token: Token)
    requires i < |text|
    ensures text[i] == '#' && env.repository.Some? && IssueAt(env.repository.value, text, i) == Some((token, e))
       <==> IssueStands(env, text, i, e, token)
  {
    var w := WordEnd(text, i + 1);
    WordIs(text, i, w);
    if text[i] == '#' && env.repository.Some? && i < e <= |text| {
      IssueTextIs(text, i, e);
      if AreDigits(text, i + 1, e) {
        DigitsAreInWord(text, i, e, w);
        IssueEndIff(text, i, e, w);
      }
      forall v: nat | IsWord(text, i, v) ensures v == w {
        WordIs(text, i, v);
      }
    }
  }

  lemma DigitsAreInWord(text: string, i: nat, e: nat, w: nat)
    requires i < |text| && AreDigits(text, i + 1, e) && IsWord(text, i, w)
    ensures e <= w
  {
  }

  // ---------- Mentions ----------

  /** At the start of a word, `@` and a name, with an exclamation mark, a comma or nothing behind it in its word. */
  ghost predicate MentionStands(env: Env, text: string, i: nat, e: nat, token: Token) {
    && env.repository.Some? && IsWordStart(text, i) && i + 1 < e <= |text| && text[i] == '@'
    && (forall k :: i < k < e ==> IsInName(text[k]))
    && (exists w: nat :: IsWord(text, i, w) && e <= w && (text[e..w] == "" || text[e..w] == "!" || text[e..w] == ","))
    && token == Link(text[i..e], env.repository.value.endpointURL + "/" + text[i + 1..e])
  }

  predicate IsInName(c: char) {
    'a' <= c <= 'z' || 'A' <= c <= 'Z' || '0' <= c <= '9' || c == '-'
  }

  lemma MentionTextIs(text: string, i: nat, e: nat)
    requires i < e <= |text|
    ensures IsMentionText(text[i..e]) <==> i + 1 < e && text[i] == '@' && forall k :: i < k < e ==> IsInName(text[k])
    ensures text[i..e][1..] == text[i + 1..e]
  {
    var w := text[i..e];
    assert forall k :: 0 <= k < |w| ==> w[k] == text[i + k];
    if IsMentionText(w) {
      forall k | i < k < e ensures IsInName(text[k]) {
        assert text[k] == w[k - i];
      }
    }
  }

  lemma MentionEndIff(text: string, i: nat, e: nat, w: nat)
    requires i + 1 < e <= w <= |text| && text[i] == '@' && IsInName(text[e - 1]) && w == WordEnd(text, i + 1)
    ensures e == MentionEnd(text, i) <==> text[e..w] == "" || text[e..w] == "!" || text[e..w] == ","
  {
    var tail := text[e..w];
    assert forall k :: 0 <= k < |tail| ==> tail[k] == text[e + k];
    if e == MentionEnd(text, i) && e < w {
      assert |tail| == 1;
    }
  }

  lemma MentionIff(env: Env, text: string, i: nat, e: nat, token: Token, current: string)
    requires i < |text| && Pending(text, i, current)
    ensures text[i] == '@' && env.repository.Some?
            && MentionAt(env.repository.value, text, i, current) == Some((token, e))
       <==> MentionStands(env, text, i, e, token)
  {
    var w := WordEnd(text, i + 1);
    WordIs(text, i, w);
    if text[i] == '@' && env.repository.Some? && i < e <= |text| {
      StartIs(text, i, current);
      MentionTextIs(text, i, e);
      if i + 1 < e && forall k :: i < k < e ==> IsInName(text[k]) {
        assert IsInName(text[e - 1]);
        assert e <= w;
        MentionEndIff(text, i, e, w);
      }
      forall v: nat | IsWord(text, i, v) ensures v == w {
        WordIs(text, i, v);
      }
    }
  }

  lemma StartIs(text: string, i: nat, current: string)
    requires i < |text| && Pending(text, i, current) && (text[i] == '@' || text[i] == 'h')
    ensures WithinWord(current) <==> !IsWordStart(text, i)
  {
    if i > 0 {
      CharactersAre(text[i - 1]);
    }
  }

  // ---------- Hyperlinks ----------

  /** At the start of a word, the scheme and something behind it. */
  ghost predicate HyperlinkStands(env: Env, text: string, i: nat, e: nat, token: Token) {
    && IsWordStart(text, i) && IsWord(text, i, e) && HasScheme(text[i..e])
    && token.Link? && token.url == text[i..e] && IsShownAs(env, text[i..e], token.text)
  }

  predicate HasScheme(w: string) {
    || ("http://" <= w && |w| > 7 && w[7] !in LINE_TERMINATORS)
    || ("https://" <= w && |w| > 8 && w[8] !in LINE_TERMINATORS)
  }

  /** `/issues/` stands at `k`, and the digits behind it are the id. */
  ghost predicate HasIssueId(w: string, k: nat, id: string) {
    && k + 8 + |id| <= |w| && w[k..k + 8] == "/issues/" && w[k + 8..k + 8 + |id|] == id
    && AreDigits(w, k + 8, k + 8 + |id|) && (k + 8 + |id| < |w| ==> !('0' <= w[k + 8 + |id|] <= '9'))
  }

  /** The first place at which `/issues/` and digits stand has these digits. */
  ghost predicate IsFirstIssueId(w: string, id: string) {
    exists k: nat :: HasIssueId(w, k, id) && forall j: nat, other :: j < k ==> !HasIssueId(w, j, other)
  }

  /** The address begins, but for upper and lower case, with that of the issues of the repository. */
  predicate IsOfRepository(env: Env, w: string) {
    env.repository.Some? && env.repository.value.htmlURL.Some? && env.repository.value.htmlURL.value != ""
    && env.lower(env.repository.value.htmlURL.value) + "/issues/" <= env.lower(w)
  }

  /** An issue of the repository is shown as `#` and its id, any other address as it is. */
  ghost predicate IsShownAs(env: Env, w: string, shown: string) {
    if IsOfRepository(env, w) && exists id :: IsFirstIssueId(w, id)
    then exists id :: IsFirstIssueId(w, id) && shown == "#" + id
    else shown == w
  }

  lemma IssueIdAt(w: string, k: nat)
    requires k <= |w|
    ensures k + 8 < |w| && w[k..k + 8] == "/issues/" && IsDigit(w[k + 8])
       ==> HasIssueId(w, k, w[k + 8..DigitsEnd(w, k + 8)])
    ensures forall id :: HasIssueId(w, k, id) ==>
              k + 8 < |w| && w[k..k + 8] == "/issues/" && IsDigit(w[k + 8]) && id == w[k + 8..DigitsEnd(w, k + 8)]
  {
    if k + 8 < |w| {
      DigitsEndIs(w, k + 8);
    }
    forall id | HasIssueId(w, k, id)
      ensures k + 8 < |w| && IsDigit(w[k + 8]) && id == w[k + 8..DigitsEnd(w, k + 8)]
    {
      DigitsEndAt(w, k + 8, k + 8 + |id|);
    }
  }

  /** The search from `k` on finds the first place at which an id stands. */
  ghost predicate IdFoundFrom(w: string, k: nat, found: Option<string>) {
    if found.None? then forall j: nat, id :: k <= j ==> !HasIssueId(w, j, id)
    else exists m: nat :: k <= m && HasIssueId(w, m, found.value)
                          && forall j: nat, id :: k <= j < m ==> !HasIssueId(w, j, id)
  }

  lemma {:induction false} IssueIdIs(w: string, k: nat)
    requires k <= |w|
    ensures IdFoundFrom(w, k, IssueIdIn(w, k))
    decreases |w| - k
  {
    if k < |w| {
      IssueIdAt(w, k);
      if !(k + 8 < |w| && w[k..k + 8] == "/issues/" && IsDigit(w[k + 8])) {
        IssueIdIs(w, k + 1);
      }
    }
  }

  lemma FirstIssueIdIs(w: string, id: string)
    ensures IsFirstIssueId(w, id) <==> IssueIdIn(w, 0) == Some(id)
  {
    IssueIdIs(w, 0);
    if IsFirstIssueId(w, id) && IssueIdIn(w, 0).Some? {
      var k: nat :| HasIssueId(w, k, id) && forall j: nat, other :: j < k ==> !HasIssueId(w, j, other);
      var found := IssueIdIn(w, 0).value;
      var m: nat :| HasIssueId(w, m, found) && forall j: nat, other :: j < m ==> !HasIssueId(w, j, other);
      assert k == m;
      IssueIdAt(w, k);
    }
  }

  lemma ShownAsIs(env: Env, w: string, shown: string)
    ensures shown == HyperlinkText(env, w) <==> IsShownAs(env, w, shown)
  {
    forall id ensures IsFirstIssueId(w, id) <==> IssueIdIn(w, 0) == Some(id) {
      FirstIssueIdIs(w, id);
    }
  }

  lemma HyperlinkIff(env: Env, text: string, i: nat, e: nat, token: Token, current: string)
    requires i < |text| && Pending(text, i, current)
    ensures text[i] == 'h' && HyperlinkAt(env, text, i, current) == Some((token, e))
       <==> HyperlinkStands(env, text, i, e, token)
  {
    WordIs(text, i, e);
    var w := text[i..WordEnd(text, i + 1)];
    assert w[0] == text[i];
    if text[i] == 'h' {
      StartIs(text, i, current);
    }
    if |w| > 7 {
      CharactersAre(w[7]);
    }
    if |w| > 8 {
      CharactersAre(w[8]);
    }
    if token.Link? {
      ShownAsIs(env, w, token.text);
    }
  }

  // ---------- The layout ----------

  /** The token stands in the text from `i` up to `e`. */
  ghost predicate Stands(env: Env, text: string, i: nat, e: nat, token: Token) {
    || EmojiStands(env, text, i, e, token) || IssueStands(env, text, i, e, token)
    || MentionStands(env, text, i, e, token) || HyperlinkStands(env, text, i, e, token)
  }

  lemma MatchIff(env: Env, text: string, i: nat, e: nat, token: Token, current: string)
    requires i < |text| && Pending(text, i, current)
    ensures MatchAt(env, text, i, current) == Some((token, e)) <==> Stands(env, text, i, e, token)
  {
    EmojiIff(env, text, i, e, token);
    IssueIff(env, text, i, e, token);
    MentionIff(env, text, i, e, token, current);
    HyperlinkIff(env, text, i, e, token, current);
  }

  /** Which token stands in a text from which index up to which. */
  type Tokens = (nat, nat, Token) -> bool

  ghost function StandingTokens(env: Env, text: string): Tokens {
    (i: nat, e: nat, token: Token) => Stands(env, text, i, e, token)
  }

  ghost predicate NothingStands(tokens: Tokens, i: nat) {
    forall e: nat, token :: !tokens(i, e, token)
  }

  /** What was scanned is the text from `i` up to `e`: a token that stands there, or text in which nothing stands. */
  ghost predicate Explained(text: string, tokens: Tokens, i: nat, e: nat, s: Scanned) {
    && i < e <= |text| && s.source == text[i..e]
    && if s.token.Text? then s.token.text == s.source && forall j: nat :: i <= j < e ==> NothingStands(tokens, j)
       else tokens(i, e, s.token)
  }

  /** One behind the other from `i` up to the end of the text, all that was scanned is explained. */
  ghost predicate LaidOut(text: string, tokens: Tokens, s: seq<Scanned>, i: nat)
    decreases |s|
  {
    if |s| == 0 then i == |text|
    else Explained(text, tokens, i, i + |s[0].source|, s[0]) && LaidOut(text, tokens, s[1..], i + |s[0].source|)
  }

  lemma FirstLaidOut(text: string, tokens: Tokens, i: nat, s: Scanned, rest: seq<Scanned>)
    requires Explained(text, tokens, i, i + |s.source|, s) && LaidOut(text, tokens, rest, i + |s.source|)
    ensures LaidOut(text, tokens, [s] + rest, i)
  {
    assert ([s] + rest)[1..] == rest;
  }

  // ---------- There is one layout ----------

  /** At one index at most one token stands. */
  ghost predicate StandOnce(tokens: Tokens) {
    forall i: nat, e: nat, token, e': nat, token' :: tokens(i, e, token) && tokens(i, e', token') ==>
      e == e' && token == token'
  }

  /** Layouts in which no two texts are adjacent are the same. */
  lemma {:induction false} LayoutIsUnique(text: string, tokens: Tokens, s: seq<Scanned>, t: seq<Scanned>, i: nat)
    requires StandOnce(tokens) && WellFormed(s) && WellFormed(t)
    requires LaidOut(text, tokens, s, i) && LaidOut(text, tokens, t, i)
    ensures s == t
    decreases |s|
  {
    if |s| > 0 && |t| > 0 {
      FirstOfLayout(text, tokens, s, i);
      FirstOfLayout(text, tokens, t, i);
      FirstIsSame(text, tokens, s, t, i);
      LayoutIsUnique(text, tokens, s[1..], t[1..], i + |s[0].source|);
      HeadAndTail(s);
      HeadAndTail(t);
    }
  }

  /** What comes first is explained, and a text that does goes on until a token stands, or to the end. */
  ghost predicate FirstIs(text: string, tokens: Tokens, s: seq<Scanned>, i: nat) {
    |s| > 0 &&
    var e := i + |s[0].source|;
    Explained(text, tokens, i, e, s[0]) && (s[0].token.Text? && e < |text| ==> !NothingStands(tokens, e))
  }

  lemma FirstOfLayout(text: string, tokens: Tokens, s: seq<Scanned>, i: nat)
    requires |s| > 0 && LaidOut(text, tokens, s, i) && WellFormed(s)
    ensures FirstIs(text, tokens, s, i)
  {
    var e := i + |s[0].source|;
    if s[0].token.Text? && |s| > 1 {
      assert s[1..][0] == s[1];
      assert Explained(text, tokens, e, e + |s[1].source|, s[1]);
    }
  }

  lemma FirstIsSame(text: string, tokens: Tokens, s: seq<Scanned>, t: seq<Scanned>, i: nat)
    requires StandOnce(tokens) && FirstIs(text, tokens, s, i) && FirstIs(text, tokens, t, i)
    ensures s[0] == t[0]
  {
    assert s[0].token.Text? || t[0].token.Text? ==> NothingStands(tokens, i);
  }

  lemma TokensStandOnce(env: Env, text: string)
    ensures StandOnce(StandingTokens(env, text))
  {
    forall i: nat, e: nat, token, e': nat, token' | Stands(env, text, i, e, token) && Stands(env, text, i, e', token')
      ensures e == e' && token == token'
    {
      var current := if i == 0 then "" else [text[i - 1]];
      MatchIff(env, text, i, e, token, current);
      MatchIff(env, text, i, e', token', current);
    }
  }

  // ---------- Scanning gives it ----------

  /** The pending text, in which nothing stands, is the text before `i`. */
  ghost predicate IsPending(text: string, tokens: Tokens, i: nat, current: string) {
    && |current| <= i <= |text| && Pending(text, i, current) && current == text[i - |current|..i]
    && forall j: nat :: i - |current| <= j < i ==> NothingStands(tokens, j)
  }

  lemma FlushLaidOut(text: string, tokens: Tokens, i: nat, current: string, rest: seq<Scanned>)
    requires IsPending(text, tokens, i, current) && LaidOut(text, tokens, rest, i)
    ensures LaidOut(text, tokens, FlushThen(current, rest), i - |current|)
  {
    if current != "" {
      FirstLaidOut(text, tokens, i - |current|, Scanned(Text(current), current), rest);
    }
  }

  ghost predicate ScanLaidOut(env: Env, text: string, tokens: Tokens, i: nat, current: string) {
    |current| <= i <= |text| && LaidOut(text, tokens, Scan(env, text, i, current), i - |current|)
  }

  lemma {:induction false} ScanIsLaidOut(env: Env, text: string, tokens: Tokens, i: nat, current: string)
    requires tokens == StandingTokens(env, text) && IsPending(text, tokens, i, current)
    ensures ScanLaidOut(env, text, tokens, i, current)
    decreases |text| - i
  {
    if i == |text| {
      FlushLaidOut(text, tokens, i, current, []);
    } else {
      var m := MatchAt(env, text, i, current);
      forall e: nat, token ensures m == Some((token, e)) <==> tokens(i, e, token) {
        MatchIff(env, text, i, e, token, current);
      }
      if m.None? {
        StillPending(text, tokens, i, current);
        ScanIsLaidOut(env, text, tokens, i + 1, current + [text[i]]);
      } else {
        var (token, next) := m.value;
        MatchIsFaithful(env, text, i, current);
        MatchLeavesNoStart(env, text, i, current);
        ScanIsLaidOut(env, text, tokens, next, "");
        MatchLaidOut(env, text, tokens, i, current, token, next);
      }
    }
  }

  lemma StillPending(text: string, tokens: Tokens, i: nat, current: string)
    requires i < |text| && IsPending(text, tokens, i, current) && NothingStands(tokens, i)
    ensures IsPending(text, tokens, i + 1, current + [text[i]])
  {
    assert text[i - |current|..i] + [text[i]] == text[i - |current|..i + 1];
  }

  lemma MatchLaidOut(env: Env, text: string, tokens: Tokens, i: nat, current: string, token: Token, next: nat)
    requires i < next <= |text| && IsPending(text, tokens, i, current)
    requires MatchAt(env, text, i, current) == Some((token, next)) && !token.Text?
    requires tokens(i, next, token) && ScanLaidOut(env, text, tokens, next, "")
    ensures ScanLaidOut(env, text, tokens, i, current)
  {
    var s, rest := Scanned(token, text[i..next]), Scan(env, text, next, "");
    FirstLaidOut(text, tokens, i, s, rest);
    FlushLaidOut(text, tokens, i, current, [s] + rest);
  }

  /**
   The tokens of a text are those of its only layout: every token but a text is an emoji, an issue, a mention or
   a link that stands there, with its path or url; no text holds an index at which one stands; and no two texts
   are adjacent.
   */
  lemma TokensAreAllThatStand(env: Env, text: string)
    ensures exists s :: LaidOut(text, StandingTokens(env, text), s, 0) && WellFormed(s)
    ensures forall s :: LaidOut(text, StandingTokens(env, text), s, 0) && WellFormed(s) ==>
              Tokenize(env, text) == Plain(s)
  {
    var tokens := StandingTokens(env, text);
    ScanIsLaidOut(env, text, tokens, 0, "");
    ScanIsWellFormed(env, text, 0, "");
    TokensStandOnce(env, text);
    forall s | LaidOut(text, tokens, s, 0) && WellFormed(s) ensures s == Scan(env, text, 0, "") {
      LayoutIsUnique(text, tokens, s, Scan(env, text, 0, ""), 0);
    }
  }
}
