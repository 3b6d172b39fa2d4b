/**
 `app/src/lib/wrap-rich-text-commit-message.ts`: cutting a tokenized commit summary at a width and moving
 what overflows into the body.
 */
module WrapCommitMessage {
  import opened Strings
  import opened TextTokenParser
  import opened TokenLayout

  const MAX_SUMMARY_LENGTH := 72
  const ELLIPSIS := Text("\U{2026}")
  const PARAGRAPH := Text("\n\n")

  /** `text.trimRight()` */
  function TrimRight(s: string): string {
    if s != "" && IsSpace(s[|s| - 1]) then TrimRight(s[..|s| - 1]) else s
  }

  /** An emoji counts as two characters. */
  function CharCount(token: Token): nat {
    if token.Emoji? then 2 else |token.text|
  }

  /** What becomes of a token: it stays in the summary, overflows, or is cut in two. */
  datatype Place = Fits | Overflows | CutInto(head: Token, tail: Token)

  /** Text is cut anywhere, links but those to issues are cut when there is room for more than 5 characters. */
  function PlaceOf(token: Token, room: int): Place {
    if room <= 0 then Overflows
    else if room >= CharCount(token) then Fits
    else match token
      case Text(t) => CutInto(Text(t[..room]), Text(t[room..]))
      case Emoji(_, _) => Overflows
      case Link(t, _) => if t[0] != '#' && room > 5 then CutInto(Link(t[..room], t), Link(t[room..], t)) else Overflows
  }

  function RoomBehind(token: Token, room: int): int {
    if room <= 0 then room else if room >= CharCount(token) then room - CharCount(token) else 0
  }

  type Pair = (seq<Token>, seq<Token>)

  /** Summary and overflow `rest` with a token before it. */
  function Before(token: Token, place: Place, rest: Pair): Pair {
    match place
    case Fits => ([token] + rest.0, rest.1)
    case Overflows => (rest.0, [token] + rest.1)
    case CutInto(head, tail) => ([head] + rest.0, [tail] + rest.1)
  }

  /** Summary and overflow `front` with a token behind it. */
  function Behind(front: Pair, token: Token, place: Place): Pair {
    match place
    case Fits => (front.0 + [token], front.1)
    case Overflows => (front.0, front.1 + [token])
    case CutInto(head, tail) => (front.0 + [head], front.1 + [tail])
  }

  /** The summary tokens and the overflowing tokens of the tokens from `k` on, with that much room left. */
  function Split(tokens: seq<Token>, k: nat, room: int): Pair
    decreases |tokens| - k
  {
    if k >= |tokens| then ([], [])
    else Before(tokens[k], PlaceOf(tokens[k], room), Split(tokens, k + 1, RoomBehind(tokens[k], room)))
  }

  datatype Wrapped = Wrapped(summary: seq<Token>, body: seq<Token>)

  /** What wrapping gives for a tokenized summary and a tokenized body. */
  function Wrap(summary: seq<Token>, body: seq<Token>, maxSummaryLength: int): Wrapped {
    var (s, o) := Split(summary, 0, maxSummaryLength);
    if o == [] then Wrapped(s, body)
    else Wrapped(s + [ELLIPSIS], if body == [] then [ELLIPSIS] + o else [ELLIPSIS] + o + [PARAGRAPH] + body)
  }

  method WrapRichTextCommitMessage(summaryText: string, bodyText: string, tokenizer: Tokenizer,
                                   maxSummaryLength: int := MAX_SUMMARY_LENGTH)
    returns (r: Wrapped)
    modifies tokenizer
    ensures r == Wrap(Tokenize(tokenizer.env, TrimRight(summaryText)), Tokenize(tokenizer.env, TrimRight(bodyText)),
                      maxSummaryLength)
  {
    var tokens := tokenizer.TokenizeText(TrimRight(summaryText));
    var summary, overflow := SplitTokens(tokens, maxSummaryLength);
    var body := tokenizer.TokenizeText(TrimRight(bodyText));
    if |overflow| > 0 {
      summary := summary + [ELLIPSIS];
      if |body| > 0 {
        body := [ELLIPSIS] + overflow + [PARAGRAPH] + body;
      } else {
        body := [ELLIPSIS] + overflow;
      }
    }
    r := Wrapped(summary, body);
  }

  /** The loop over the tokens of the summary. */
  method SplitTokens(tokens: seq<Token>, maxSummaryLength: int) returns (summary: seq<Token>, overflow: seq<Token>)
    ensures (summary, overflow) == Split(tokens, 0, maxSummaryLength)
  {
    summary, overflow := [], [];
    var remainder := maxSummaryLength;
    NothingBefore(Split(tokens, 0, maxSummaryLength));
    for k := 0 to |tokens|
      invariant Joined((summary, overflow), Split(tokens, k, remainder), Split(tokens, 0, maxSummaryLength))
    {
      JoinStep((summary, overflow), tokens[k], PlaceOf(tokens[k], remainder),
               Split(tokens, k + 1, RoomBehind(tokens[k], remainder)), Split(tokens, 0, maxSummaryLength));
      summary, overflow, remainder := PlaceToken(tokens[k], remainder, summary, overflow);
    }
    NothingBehind(summary, overflow);
  }

  /** The body of that loop. */
  method PlaceToken(token: Token, remainder: int, summary: seq<Token>, overflow: seq<Token>)
    returns (summary': seq<Token>, overflow': seq<Token>, remainder': int)
    ensures (summary', overflow') == Behind((summary, overflow), token, PlaceOf(token, remainder))
    ensures remainder' == RoomBehind(token, remainder)
  {
    var charCount := if token.Emoji? then 2 else |token.text|;
    summary', overflow', remainder' := summary, overflow, remainder;
    if remainder <= 0 {
      overflow' := overflow + [token];
    } else if remainder >= charCount {
      summary' := summary + [token];
      remainder' := remainder - charCount;
    } else {
      if token.Text? {
        summary' := summary + [Text(token.text[..remainder])];
        overflow' := overflow + [Text(token.text[remainder..])];
      } else if token.Emoji? {
        overflow' := overflow + [token];
      } else {
        if !StartsWith(token.text, "#") && remainder > 5 {
          summary' := summary + [Link(token.text[..remainder], token.text)];
          overflow' := overflow + [Link(token.text[remainder..], token.text)];
        } else {
          overflow' := overflow + [token];
        }
      }
      remainder' := 0;
    }
  }

  /** Two pairs of lists, joined, are a third. */
  ghost predicate Joined(a: Pair, b: Pair, c: Pair) {
    a.0 + b.0 == c.0 && a.1 + b.1 == c.1
  }

  lemma JoinStep(front: Pair, token: Token, place: Place, rest: Pair, all: Pair)
    requires Joined(front, Before(token, place, rest), all)
    ensures Joined(Behind(front, token, place), rest, all)
  {
    OneAfterAnother(front.0, if place.CutInto? then place.head else token, rest.0);
    OneAfterAnother(front.1, if place.CutInto? then place.tail else token, rest.1);
  }

  lemma OneAfterAnother(a: seq<Token>, t: Token, b: seq<Token>)
    ensures a + ([t] + b) == a + [t] + b
  {
  }

  lemma NothingBefore(c: Pair)
    ensures Joined(([], []), c, c)
  {
    assert [] + c.0 == c.0 && [] + c.1 == c.1;
  }

  lemma NothingBehind(a: seq<Token>, b: seq<Token>)
    ensures a + [] == a && b + [] == b
  {
  }

  // ---------- What wrapping keeps ----------

  /** The text that tokens show. */
  function ShownText(tokens: seq<Token>): string {
    if |tokens| == 0 then "" else tokens[0].text + ShownText(tokens[1..])
  }

  /** An emoji is as wide as two characters. */
  function Width(tokens: seq<Token>): nat {
    if |tokens| == 0 then 0 else (if tokens[0].Emoji? then 2 else |tokens[0].text|) + Width(tokens[1..])
  }

  function Max(a: int, b: int): int {
    if a >= b then a else b
  }

  lemma FirstToken(t: Token, rest: seq<Token>)
    ensures ShownText([t] + rest) == t.text + ShownText(rest)
    ensures Width([t] + rest) == CharCount(t) + Width(rest)
  {
    assert ([t] + rest)[1..] == rest;
  }

  lemma TokensFrom(tokens: seq<Token>, k: nat)
    requires k < |tokens|
    ensures ShownText(tokens[k..]) == tokens[k].text + ShownText(tokens[k + 1..])
    ensures Width(tokens[k..]) == CharCount(tokens[k]) + Width(tokens[k + 1..])
  {
    assert tokens[k..][1..] == tokens[k + 1..];
  }

  /** Without room everything overflows. */
  lemma {:induction false} Overflow(tokens: seq<Token>, k: nat, room: int)
    requires k <= |tokens| && room <= 0
    ensures Split(tokens, k, room) == ([], tokens[k..])
    decreases |tokens| - k
  {
    if k < |tokens| {
      Overflow(tokens, k + 1, room);
      assert [tokens[k]] + tokens[k + 1..] == tokens[k..];
    } else {
      assert tokens[k..] == [];
    }
  }

  /** Summary and overflow show the text of the tokens from `k` on. */
  ghost predicate Conserves(tokens: seq<Token>, k: nat, room: int)
    requires k <= |tokens|
  {
    var (s, o) := Split(tokens, k, room);
    ShownText(s) + ShownText(o) == ShownText(tokens[k..])
  }

  lemma {:induction false} SplitConserves(tokens: seq<Token>, k: nat, room: int)
    requires k <= |tokens|
    ensures Conserves(tokens, k, room)
    decreases |tokens| - k
  {
    if k < |tokens| {
      var t := tokens[k];
      var room' := RoomBehind(t, room);
      SplitConserves(tokens, k + 1, room');
      if PlaceOf(t, room) != Fits {
        Overflow(tokens, k + 1, room');
      }
      TokensFrom(tokens, k);
      BeforeConserves(t, room, Split(tokens, k + 1, room'), ShownText(tokens[k + 1..]));
    } else {
      assert "" + "" == "";
    }
  }

  lemma BeforeConserves(t: Token, room: int, rest: Pair, shown: string)
    requires ShownText(rest.0) + ShownText(rest.1) == shown
    requires PlaceOf(t, room) == Fits || rest.0 == []
    ensures var (s, o) := Before(t, PlaceOf(t, room), rest); ShownText(s) + ShownText(o) == t.text + shown
  {
    match PlaceOf(t, room)
    case Fits =>
      FirstToken(t, rest.0);
      Associate(t.text, ShownText(rest.0), ShownText(rest.1));
    case Overflows =>
      FirstToken(t, rest.1);
      assert "" + (t.text + ShownText(rest.1)) == t.text + ("" + ShownText(rest.1));
    case CutInto(head, tail) =>
      FirstToken(head, rest.0);
      FirstToken(tail, rest.1);
      assert t.text == head.text + tail.text;
      assert head.text + "" + (tail.text + ShownText(rest.1)) == t.text + ("" + ShownText(rest.1));
  }

  /** A token that is never cut with that much room left. */
  predicate Atomic(t: Token, room: int) {
    t.Emoji? || (t.Link? && (StartsWith(t.text, "#") || room <= 5))
  }

  /**
   The summary is no wider than the room; something overflows exactly if the tokens are wider; and then
   the summary fills the room, or the first thing to overflow does not fit and is never cut.
   */
  ghost predicate FillsRoom(tokens: seq<Token>, k: nat, room: int)
    requires k <= |tokens|
  {
    var (s, o) := Split(tokens, k, room);
    && Width(s) <= Max(0, room)
    && (o != [] <==> Width(tokens[k..]) > Max(0, room))
    && (o != [] ==> Width(s) == Max(0, room)
                    || (Width(s) + CharCount(o[0]) > room && Atomic(o[0], room - Width(s)) && o[0] in tokens))
  }

  ghost predicate NoneEmpty(tokens: seq<Token>) {
    forall k :: 0 <= k < |tokens| ==> CharCount(tokens[k]) >= 1
  }

  lemma {:induction false} SplitFillsRoom(tokens: seq<Token>, k: nat, room: int)
    requires k <= |tokens| && NoneEmpty(tokens)
    ensures FillsRoom(tokens, k, room)
    decreases |tokens| - k
  {
    if k < |tokens| {
      var t := tokens[k];
      var room' := RoomBehind(t, room);
      SplitFillsRoom(tokens, k + 1, room');
      if PlaceOf(t, room) != Fits {
        Overflow(tokens, k + 1, room');
      }
      TokensFrom(tokens, k);
      FillStep(tokens, k, room);
    }
  }

  lemma FillStep(tokens: seq<Token>, k: nat, room: int)
    requires k < |tokens| && CharCount(tokens[k]) >= 1
    requires FillsRoom(tokens, k + 1, RoomBehind(tokens[k], room))
    requires PlaceOf(tokens[k], room) == Fits || Split(tokens, k + 1, RoomBehind(tokens[k], room)).0 == []
    requires Width(tokens[k..]) == CharCount(tokens[k]) + Width(tokens[k + 1..])
    ensures FillsRoom(tokens, k, room)
  {
    var t, rest := tokens[k], Split(tokens, k + 1, RoomBehind(tokens[k], room));
    match PlaceOf(t, room)
    case Fits => FirstToken(t, rest.0);
    case Overflows =>
    case CutInto(head, tail) => FirstToken(head, rest.0);
  }

  lemma {:induction false} NothingOverflows(tokens: seq<Token>, k: nat, room: int)
    requires k <= |tokens| && Split(tokens, k, room).1 == []
    ensures Split(tokens, k, room).0 == tokens[k..]
    decreases |tokens| - k
  {
    if k < |tokens| {
      NothingOverflows(tokens, k + 1, RoomBehind(tokens[k], room));
      assert [tokens[k]] + tokens[k + 1..] == tokens[k..];
    } else {
      assert tokens[k..] == [];
    }
  }

  /** Everything `Split` promises, of all tokens. */
  lemma SplitIsExact(tokens: seq<Token>, room: int)
    requires NoneEmpty(tokens)
    ensures var (s, o) := Split(tokens, 0, room);
      && ShownText(s) + ShownText(o) == ShownText(tokens)
      && Width(s) <= Max(0, room)
      && (o != [] <==> Width(tokens) > Max(0, room))
      && (o == [] ==> s == tokens)
  {
    assert tokens[0..] == tokens;
    SplitConserves(tokens, 0, room);
    SplitFillsRoom(tokens, 0, room);
    if Split(tokens, 0, room).1 == [] {
      NothingOverflows(tokens, 0, room);
    }
  }

  /** A summary that is narrow enough, and its body, are left alone. */
  lemma NarrowSummaryIsKept(tokens: seq<Token>, body: seq<Token>, maxSummaryLength: int)
    requires NoneEmpty(tokens) && Width(tokens) <= Max(0, maxSummaryLength)
    ensures Wrap(tokens, body, maxSummaryLength) == Wrapped(tokens, body)
  {
    SplitIsExact(tokens, maxSummaryLength);
  }

  /**
   A summary that is too wide ends with an ellipsis and is no wider than allowed before it; the body
   begins with an ellipsis and what overflowed, up to index `m`, and between them they show the text of
   the summary; the old body follows behind a blank line.
   */
  ghost predicate WrappedAt(w: Wrapped, tokens: seq<Token>, body: seq<Token>, maxSummaryLength: int, m: nat) {
    var n := |w.summary| - 1;
    && n >= 0 && w.summary[n] == Text("\U{2026}") && Width(w.summary[..n]) <= Max(0, maxSummaryLength)
    && 1 < m <= |w.body| && w.body[0] == Text("\U{2026}")
    && ShownText(w.summary[..n]) + ShownText(w.body[1..m]) == ShownText(tokens)
    && w.body[m..] == if body == [] then [] else [Text("\n\n")] + body
  }

  lemma WideSummaryIsWrapped(tokens: seq<Token>, body: seq<Token>, maxSummaryLength: int) returns (m: nat)
    requires NoneEmpty(tokens) && Width(tokens) > Max(0, maxSummaryLength)
    ensures var w := Wrap(tokens, body, maxSummaryLength);
      && WrappedAt(w, tokens, body, maxSummaryLength, m)
      && Split(tokens, 0, maxSummaryLength) == (w.summary[..|w.summary| - 1], w.body[1..m])
  {
    var (s, o) := Split(tokens, 0, maxSummaryLength);
    var w := Wrap(tokens, body, maxSummaryLength);
    SplitIsExact(tokens, maxSummaryLength);
    m := 1 + |o|;
    SummaryPieces(w.summary, s);
    assert [ELLIPSIS] + o + [] == [ELLIPSIS] + o;
    Associate([ELLIPSIS] + o, [PARAGRAPH], body);
    BodyPieces(w.body, o, if body == [] then [] else [PARAGRAPH] + body);
  }

  lemma SummaryPieces(w: seq<Token>, s: seq<Token>)
    requires w == s + [ELLIPSIS]
    ensures |w| == |s| + 1 && w[|s|] == ELLIPSIS && w[..|s|] == s
  {
  }

  lemma BodyPieces(w: seq<Token>, o: seq<Token>, rest: seq<Token>)
    requires w == [ELLIPSIS] + o + rest
    ensures |w| >= 1 + |o| && w[0] == ELLIPSIS && w[1..1 + |o|] == o && w[1 + |o|..] == rest
  {
  }

  /** No token of a tokenized text is empty, so both hold of every summary text. */
  lemma TokensAreNotEmpty(env: Env, text: string)
    ensures NoneEmpty(Tokenize(env, text))
  {
    TokensAreWellFormed(env, text);
    forall k | 0 <= k < |Tokenize(env, text)| ensures CharCount(Tokenize(env, text)[k]) >= 1 {
      FaithfulAt(Scan(env, text, 0, ""), k);
    }
  }

  lemma {:induction false} FaithfulAt(s: seq<Scanned>, k: nat)
    requires WellFormed(s) && k < |s|
    ensures Faithful(s[k])
    decreases k
  {
    if k > 0 {
      FaithfulAt(s[1..], k - 1);
    }
  }

  // ---------- Where a summary is cut ----------

  /** What is left of a text when the whitespace at its end is trimmed. */
  ghost predicate IsTrimmed(text: string, trimmed: string) {
    && trimmed <= text && (trimmed != "" ==> trimmed[|trimmed| - 1] !in WHITESPACE)
    && forall k :: |trimmed| <= k < |text| ==> text[k] in WHITESPACE
  }

  lemma {:induction false} TrimRightIff(text: string, trimmed: string)
    ensures TrimRight(text) == trimmed <==> IsTrimmed(text, trimmed)
    decreases |text|
  {
    if text != "" {
      CharactersAre(text[|text| - 1]);
      TrimmedStep(text, trimmed);
      if text[|text| - 1] in WHITESPACE {
        TrimRightIff(text[..|text| - 1], trimmed);
      }
    }
  }

  lemma TrimmedStep(text: string, trimmed: string)
    requires text != ""
    ensures text[|text| - 1] in WHITESPACE ==> (IsTrimmed(text, trimmed) <==> IsTrimmed(text[..|text| - 1], trimmed))
    ensures text[|text| - 1] !in WHITESPACE ==> (IsTrimmed(text, trimmed) <==> trimmed == text)
  {
    var front := text[..|text| - 1];
    assert forall k :: 0 <= k < |front| ==> text[k] == front[k];
    assert trimmed <= text && |trimmed| == |text| ==> trimmed == text;
    assert trimmed <= front ==> trimmed <= text;
    assert trimmed <= text && |trimmed| < |text| ==> trimmed <= front;
  }

  /** With so much room left, the token is cut: a text always, a link if it is none to an issue and room is over 5. */
  predicate IsCut(t: Token, room: int) {
    0 < room < CharCount(t) && (t.Text? || (t.Link? && room > 5 && !("#" <= t.text)))
  }

  /** The part of a token up to, or from, a character on. The parts of a link lead to the link's text. */
  function Part(t: Token, part: string): Token {
    match t
    case Text(_) => Text(part)
    case Emoji(_, path) => Emoji(part, path)
    case Link(text, _) => Link(part, text)
  }

  /** Of the tokens from `k` on, those before `n` stay whole, and token `n` is cut or, with all behind it, moved. */
  ghost predicate CutAt(tokens: seq<Token>, k: nat, room: int, n: nat, p: Pair) {
    && k <= n <= |tokens| && Width(tokens[k..n]) <= Max(0, room)
    && if n == |tokens| then p == (tokens[k..], [])
       else
         var t, left := tokens[n], Max(0, room) - Width(tokens[k..n]);
         && left < CharCount(t)
         && p == if IsCut(t, left)
                 then (tokens[k..n] + [Part(t, t.text[..left])], [Part(t, t.text[left..])] + tokens[n + 1..])
                 else (tokens[k..n], tokens[n..])
  }

  lemma {:induction false} SplitCutsAt(tokens: seq<Token>, k: nat, room: int) returns (n: nat)
    requires k <= |tokens| && NoneEmpty(tokens)
    ensures CutAt(tokens, k, room, n, Split(tokens, k, room))
    decreases |tokens| - k
  {
    if k == |tokens| {
      n := k;
      assert tokens[k..] == [] && tokens[k..k] == [];
    } else if 0 < room && CharCount(tokens[k]) <= room {
      n := SplitCutsAt(tokens, k + 1, room - CharCount(tokens[k]));
      WholeStep(tokens, k, room, n, Split(tokens, k + 1, room - CharCount(tokens[k])));
    } else {
      n := k;
      Overflow(tokens, k + 1, RoomBehind(tokens[k], room));
      FirstStep(tokens, k, room);
    }
  }

  lemma FirstStep(tokens: seq<Token>, k: nat, room: int)
    requires k < |tokens| && CharCount(tokens[k]) >= 1 && !(0 < room && CharCount(tokens[k]) <= room)
    requires Split(tokens, k + 1, RoomBehind(tokens[k], room)) == ([], tokens[k + 1..])
    ensures CutAt(tokens, k, room, k, Split(tokens, k, room))
  {
    var t := tokens[k];
    assert tokens[k..k] == [] && [t] + tokens[k + 1..] == tokens[k..];
    if IsCut(t, room) {
      assert [] + [Part(t, t.text[..room])] == [Part(t, t.text[..room])] + [];
    }
  }

  lemma WholeStep(tokens: seq<Token>, k: nat, room: int, n: nat, rest: Pair)
    requires k < |tokens| && 0 < room && 1 <= CharCount(tokens[k]) <= room
    requires rest == Split(tokens, k + 1, room - CharCount(tokens[k]))
    requires CutAt(tokens, k + 1, room - CharCount(tokens[k]), n, rest)
    ensures CutAt(tokens, k, room, n, Split(tokens, k, room))
  {
    var t := tokens[k];
    assert [t] + tokens[k + 1..] == tokens[k..] && [t] + tokens[k + 1..n] == tokens[k..n];
    FirstToken(t, tokens[k + 1..n]);
    if n < |tokens| {
      var left := room - Width(tokens[k..n]);
      if IsCut(tokens[n], left) {
        OneAfterAnother([t], Part(tokens[n], tokens[n].text[..left]), []);
        assert [t] + (tokens[k + 1..n] + [Part(tokens[n], tokens[n].text[..left])])
            == tokens[k..n] + [Part(tokens[n], tokens[n].text[..left])];
      }
    }
  }

  // ---------- Where the parts of a link lead ----------

  /** Every token but a text stands somewhere in the text. */
  lemma {:induction false} StandsSomewhere(text: string, tokens: Tokens, s: seq<Scanned>, i: nat, k: nat)
    returns (j: nat, e: nat)
    requires LaidOut(text, tokens, s, i) && k < |s| && !s[k].token.Text?
    ensures tokens(j, e, s[k].token) && j < e <= |text|
    decreases k
  {
    if k == 0 {
      j, e := i, i + |s[0].source|;
    } else {
      j, e := StandsSomewhere(text, tokens, s[1..], i + |s[0].source|, k - 1);
    }
  }

  /** The parts of a link that is cut lead where the link leads exactly if it is no mention. */
  lemma CutLinkLeadsOnIff(env: Env, text: string, t: Token, room: int, part: string)
    requires t in Tokenize(env, text) && t.Link? && IsCut(t, room)
    ensures Part(t, part).url == t.url <==> !("@" <= t.text)
  {
    var s := Scan(env, text, 0, "");
    ScanIsLaidOut(env, text, StandingTokens(env, text), 0, "");
    var k :| 0 <= k < |s| && s[k].token == t;
    var j, e := StandsSomewhere(text, StandingTokens(env, text), s, 0, k);
    StandingLink(env, text, j, e, t);
  }

  lemma StandingLink(env: Env, text: string, i: nat, e: nat, t: Token)
    requires i < e <= |text| && Stands(env, text, i, e, t) && t.Link? && !("#" <= t.text)
    ensures t.url == t.text <==> !("@" <= t.text)
  {
    assert text[i..e][0] == text[i];
    if MentionStands(env, text, i, e, t) {
      assert t.text[0] == '@';
      assert t.url[|env.repository.value.endpointURL|] == '/';
    }
  }

  // ---------- Whole messages ----------

  /**
   Whatever the texts, the map, the repository and the width: of the texts without the whitespace at their
   ends, summary and body are kept if the summary is not too wide. Otherwise it is wrapped, with `m` the end of
   what overflowed, and cut at token `n`.
   */
  lemma CommitMessageIsWrapped(env: Env, summaryText: string, bodyText: string, maxSummaryLength: int,
                               summary: string, body: string) returns (m: nat, n: nat)
    requires IsTrimmed(summaryText, summary) && IsTrimmed(bodyText, body)
    ensures var tokens, rest := Tokenize(env, summary), Tokenize(env, body);
      var w := Wrap(Tokenize(env, TrimRight(summaryText)), Tokenize(env, TrimRight(bodyText)), maxSummaryLength);
      if Width(tokens) <= Max(0, maxSummaryLength) then w == Wrapped(tokens, rest)
      else WrappedAt(w, tokens, rest, maxSummaryLength, m)
           && CutAt(tokens, 0, maxSummaryLength, n, (w.summary[..|w.summary| - 1], w.body[1..m]))
  {
    TrimRightIff(summaryText, summary);
    TrimRightIff(bodyText, body);
    var tokens, rest := Tokenize(env, summary), Tokenize(env, body);
    m, n := 0, 0;
    TokensAreNotEmpty(env, summary);
    if Width(tokens) <= Max(0, maxSummaryLength) {
      NarrowSummaryIsKept(tokens, rest, maxSummaryLength);
    } else {
      m := WideSummaryIsWrapped(tokens, rest, maxSummaryLength);
      n := SplitCutsAt(tokens, 0, maxSummaryLength);
    }
  }
}
