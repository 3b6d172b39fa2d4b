/**
 The three request filters that `app/src/main-process/main.ts` installs, in this order: `same-origin-filter.ts`,
 `alive-origin-filter.ts` and `authenticated-image-filter.ts`. Parsing urls, lower-casing and the endpoints of
 github.com are given from outside.
 */
module RequestFilters {
  import opened Strings
  import opened OrderedWebRequest

  const SAFE_PROTOCOLS := ["devtools:", "file:", "chrome-extension:"]
  const UNSAFE_HEADERS := ["authentication", "authorization", "cookie"]
  const ALIVE_ORIGIN := "https://desktop.github.com"

  type Lower = string -> string

  // ---------- The filters ----------

  function AsResponse(headers: Headers): Response {
    Response(false, Some(map k | k in headers :: One(headers[k])))
  }

  const NO_CHANGE := Response(false, None)

  function Sanitized(lower: Lower, headers: Headers): Headers {
    map k | k in headers && lower(k) !in UNSAFE_HEADERS :: headers[k]
  }

  /** The loop over the headers of a cross-origin request. */
  method SanitizeHeaders(lower: Lower, headers: Headers) returns (sanitizedHeaders: Headers)
    ensures sanitizedHeaders == Sanitized(lower, headers)
  {
    sanitizedHeaders := map[];
    var rest := headers.Keys;
    while rest != {}
      invariant rest <= headers.Keys
      invariant sanitizedHeaders == map k | k in headers && k !in rest && lower(k) !in UNSAFE_HEADERS :: headers[k]
      decreases |rest|
    {
      var k :| k in rest;
      if lower(k) !in UNSAFE_HEADERS {
        sanitizedHeaders := sanitizedHeaders[k := headers[k]];
      }
      rest := rest - {k};
    }
  }

  /** The request goes to another origin than the one it was first made to. */
  predicate IsCrossOrigin(requestOrigin: map<int, string>, details: Details) {
    details.id in requestOrigin && requestOrigin[details.id] != details.url.origin
  }

  function SameOriginListener(lower: Lower, requestOrigin: map<int, string>): HeadersListener {
    (details: Details) =>
      AsResponse(if IsCrossOrigin(requestOrigin, details) then Sanitized(lower, details.requestHeaders)
                 else details.requestHeaders)
  }

  /** `/(^|\.)github\.com$/` */
  predicate IsAlive(url: Url) {
    url.protocol == "wss:" && (url.host == "github.com" || EndsWith(url.host, ".github.com"))
  }

  function AliveOriginListener(): HeadersListener {
    (details: Details) =>
      if IsAlive(details.url) then AsResponse(details.requestHeaders["Origin" := ALIVE_ORIGIN]) else NO_CHANGE
  }

  predicate IsEnterpriseAvatarPath(pathname: string) {
    StartsWith(pathname, "/api/v3/enterprise/avatars/")
  }

  /** `/^\/[^/]+\/[^/]+\/assets\/[^/]+\/[^/]+\/?$/` */
  predicate IsGitHubRepoAssetPath(pathname: string) {
    var parts := Split(pathname, '/');
    && (|parts| == 6 || (|parts| == 7 && parts[6] == ""))
    && parts[0] == "" && parts[1] != "" && parts[2] != "" && parts[3] == "assets" && parts[4] != "" && parts[5] != ""
  }

  predicate NeedsToken(pathname: string) {
    IsEnterpriseAvatarPath(pathname) || IsGitHubRepoAssetPath(pathname)
  }

  /** The token that is added to a request. */
  function AddedToken(originTokens: map<string, string>, url: Url): Option<string> {
    if url.origin in originTokens && originTokens[url.origin] != "" && NeedsToken(url.pathname)
    then Some(originTokens[url.origin]) else None
  }

  function AuthenticatedImageListener(originTokens: map<string, string>): HeadersListener {
    (details: Details) =>
      var token := AddedToken(originTokens, details.url);
      if token.Some? then AsResponse(details.requestHeaders["Authorization" := "token " + token.value]) else NO_CHANGE
  }

  function Listeners(lower: Lower, requestOrigin: map<int, string>,
                     originTokens: map<string, string>): seq<HeadersListener> {
    [SameOriginListener(lower, requestOrigin), AliveOriginListener(), AuthenticatedImageListener(originTokens)]
  }

  // ---------- The header pipeline ----------

  lemma FlattenAsResponse(headers: Headers)
    ensures FlattenHeaders(AsResponse(headers).requestHeaders.value) == headers
  {
  }

  lemma ThreeStages(a: HeadersListener, b: HeadersListener, c: HeadersListener, details: Details)
    requires !a(details).cancel && !b(Stage(a, details)).cancel && !c(Stage(b, Stage(a, details))).cancel
    ensures AfterListeners([a, b, c], 0, details) == Stage(c, Stage(b, Stage(a, details)))
  {
    var l := [a, b, c];
    assert AfterListeners(l, 3, Stage(c, Stage(b, Stage(a, details)))) == Stage(c, Stage(b, Stage(a, details)));
    assert AfterListeners(l, 2, Stage(b, Stage(a, details)))
        == AfterListeners(l, 3, Stage(c, Stage(b, Stage(a, details))));
  }

  /** The headers a request is sent with: sanitized if it is cross-origin, then with the two overrides. */
  function SentHeaders(lower: Lower, requestOrigin: map<int, string>, originTokens: map<string, string>,
                       details: Details): Headers {
    var passed := if IsCrossOrigin(requestOrigin, details) then Sanitized(lower, details.requestHeaders)
                  else details.requestHeaders;
    var withOrigin := if IsAlive(details.url) then passed["Origin" := ALIVE_ORIGIN] else passed;
    var token := AddedToken(originTokens, details.url);
    if token.Some? then withOrigin["Authorization" := "token " + token.value] else withOrigin
  }

  lemma PipelineIs(lower: Lower, requestOrigin: map<int, string>, originTokens: map<string, string>, details: Details)
    ensures AfterListeners(Listeners(lower, requestOrigin, originTokens), 0, details)
         == details.(requestHeaders := SentHeaders(lower, requestOrigin, originTokens, details))
  {
    var a, b, c := SameOriginListener(lower, requestOrigin), AliveOriginListener(),
                   AuthenticatedImageListener(originTokens);
    ThreeStages(a, b, c, details);
    var passed := if IsCrossOrigin(requestOrigin, details) then Sanitized(lower, details.requestHeaders)
                  else details.requestHeaders;
    FlattenAsResponse(passed);
    FlattenAsResponse(passed["Origin" := ALIVE_ORIGIN]);
    var withOrigin := if IsAlive(details.url) then passed["Origin" := ALIVE_ORIGIN] else passed;
    var token := AddedToken(originTokens, details.url);
    if token.Some? {
      FlattenAsResponse(withOrigin["Authorization" := "token " + token.value]);
    }
  }

  // ---------- Tokens ----------

  /** The origin of an account's endpoint, and its token. */
  datatype Account = Account(origin: string, token: string)

  /** The api endpoint of github.com and the address of its pages. */
  datatype DotCom = DotCom(api: string, html: string)

  function TokensByOrigin(accounts: seq<Account>): map<string, string> {
    if |accounts| == 0 then map[]
    else TokensByOrigin(accounts[..|accounts| - 1])[accounts[|accounts| - 1].origin := accounts[|accounts| - 1].token]
  }

  /** The token table for a list of accounts: that of api.github.com also serves github.com. */
  function TokenTable(accounts: seq<Account>, dotCom: DotCom): map<string, string> {
    var tokens := TokensByOrigin(accounts);
    if dotCom.api in tokens && tokens[dotCom.api] != "" then tokens[dotCom.html := tokens[dotCom.api]] else tokens
  }

  /** The token of the last account with that origin. */
  function LastToken(accounts: seq<Account>, n: nat, origin: string): Option<string>
    requires n <= |accounts|
  {
    if n == 0 then None
    else if accounts[n - 1].origin == origin then Some(accounts[n - 1].token)
    else LastToken(accounts, n - 1, origin)
  }

  function Lookup<K, V>(m: map<K, V>, k: K): Option<V> {
    if k in m then Some(m[k]) else None
  }

  lemma {:induction false} TokensAreLast(accounts: seq<Account>, n: nat, origin: string)
    requires n <= |accounts|
    ensures Lookup(TokensByOrigin(accounts[..n]), origin) == LastToken(accounts, n, origin)
  {
    if n > 0 {
      TokensAreLast(accounts, n - 1, origin);
      assert accounts[..n][..n - 1] == accounts[..n - 1];
    }
  }

  /** Each origin gets the token of its last account, but github.com that of its api, if there is one. */
  lemma TokenTableServes(accounts: seq<Account>, dotCom: DotCom, origin: string)
    ensures var api := LastToken(accounts, |accounts|, dotCom.api);
      Lookup(TokenTable(accounts, dotCom), origin)
      == if origin == dotCom.html && api.Some? && api.value != "" then api else LastToken(accounts, |accounts|, origin)
  {
    assert accounts[..|accounts|] == accounts;
    TokensAreLast(accounts, |accounts|, origin);
    TokensAreLast(accounts, |accounts|, dotCom.api);
  }

  // ---------- Events ----------

  datatype Event =
    | BeforeRequest(id: int, url: Url)
    | Completed(id: int)
    | AccountsUpdated(accounts: seq<Account>)

  datatype State = State(requestOrigin: map<int, string>, originTokens: map<string, string>)

  function Step(s: State, e: Event, dotCom: DotCom): State {
    match e
    case BeforeRequest(id, url) =>
      if url.protocol !in SAFE_PROTOCOLS && id !in s.requestOrigin
      then s.(requestOrigin := s.requestOrigin[id := url.origin])
      else s
    case Completed(id) => s.(requestOrigin := s.requestOrigin - {id})
    case AccountsUpdated(accounts) => s.(originTokens := TokenTable(accounts, dotCom))
  }

  /** The state after the first `n` events of a history. */
  function StateAfter(history: seq<Event>, n: nat, dotCom: DotCom): State
    requires n <= |history|
  {
    if n == 0 then State(map[], map[]) else Step(StateAfter(history, n - 1, dotCom), history[n - 1], dotCom)
  }

  class InstalledFilters {
    const lower: Lower
    const dotCom: DotCom
    var requestOrigin: map<int, string>
    var originTokens: map<string, string>

    ghost function Current(): State
      reads this
    {
      State(requestOrigin, originTokens)
    }

    constructor (lower: Lower, dotCom: DotCom)
      ensures this.lower == lower && this.dotCom == dotCom
      ensures Current() == StateAfter([], 0, dotCom)
    {
      this.lower, this.dotCom := lower, dotCom;
      requestOrigin, originTokens := map[], map[];
    }

    method OnBeforeRequest(id: int, url: Url)
      modifies this`requestOrigin
      ensures Current() == Step(old(Current()), BeforeRequest(id, url), dotCom)
    {
      if url.protocol !in SAFE_PROTOCOLS && id !in requestOrigin {
        requestOrigin := requestOrigin[id := url.origin];
      }
    }

    method OnCompleted(id: int)
      modifies this`requestOrigin
      ensures Current() == Step(old(Current()), Completed(id), dotCom)
    {
      requestOrigin := requestOrigin - {id};
    }

    method UpdateAccounts(accounts: seq<Account>)
      modifies this`originTokens
      ensures Current() == Step(old(Current()), AccountsUpdated(accounts), dotCom)
    {
      originTokens := TokensByOrigin(accounts);
      if dotCom.api in originTokens && originTokens[dotCom.api] != "" {
        originTokens := originTokens[dotCom.html := originTokens[dotCom.api]];
      }
    }

    /** Sending the headers of a request changes no state. */
    method OnBeforeSendHeaders(details: Details) returns (sent: Details)
      ensures sent == details.(requestHeaders := SentHeaders(lower, requestOrigin, originTokens, details))
    {
      PipelineIs(lower, requestOrigin, originTokens, details);
      sent := CallInOrder(Listeners(lower, requestOrigin, originTokens), details);
    }
  }

  // ---------- What every run keeps ----------

  /** How many events there are up to the last completion of `id`. */
  function LastCompletion(history: seq<Event>, n: nat, id: int): (k: nat)
    requires n <= |history|
    ensures k <= n
  {
    if n == 0 then 0 else if history[n - 1] == Completed(id) then n else LastCompletion(history, n - 1, id)
  }

  predicate IsRecorded(e: Event, id: int) {
    && e.BeforeRequest? && e.id == id
    && e.url.protocol != "devtools:" && e.url.protocol != "file:" && e.url.protocol != "chrome-extension:"
  }

  /** The origin of the first recorded request of `id` among the events from `k` up to `n`. */
  function FirstOrigin(history: seq<Event>, k: nat, n: nat, id: int): Option<string>
    requires n <= |history|
    decreases n - k
  {
    if k >= n then None
    else if IsRecorded(history[k], id) then Some(history[k].url.origin)
    else FirstOrigin(history, k + 1, n, id)
  }

  lemma {:induction false} OneMoreEvent(history: seq<Event>, k: nat, n: nat, id: int)
    requires k <= n < |history|
    ensures FirstOrigin(history, k, n + 1, id)
         == if FirstOrigin(history, k, n, id).Some? then FirstOrigin(history, k, n, id)
            else if IsRecorded(history[n], id) then Some(history[n].url.origin) else None
    decreases n - k
  {
    if k < n && !IsRecorded(history[k], id) {
      OneMoreEvent(history, k + 1, n, id);
    }
  }

  /** In every run, what is recorded for an id is the origin of its first recorded request since its last completion. */
  lemma {:induction false} RecordedOriginIsInitial(history: seq<Event>, n: nat, id: int, dotCom: DotCom)
    requires n <= |history|
    ensures Lookup(StateAfter(history, n, dotCom).requestOrigin, id)
         == FirstOrigin(history, LastCompletion(history, n, id), n, id)
  {
    if n > 0 {
      RecordedOriginIsInitial(history, n - 1, id, dotCom);
      OneMoreEvent(history, LastCompletion(history, n - 1, id), n - 1, id);
    }
  }

  /** The accounts of the last update among the first `n` events. */
  function LastAccounts(history: seq<Event>, n: nat): seq<Account>
    requires n <= |history|
  {
    if n == 0 then []
    else if history[n - 1].AccountsUpdated? then history[n - 1].accounts
    else LastAccounts(history, n - 1)
  }

  /** The token that a list of accounts has for an origin: that of api.github.com also serves github.com. */
  function ServedToken(accounts: seq<Account>, dotCom: DotCom, origin: string): Option<string> {
    var api := LastToken(accounts, |accounts|, dotCom.api);
    if origin == dotCom.html && api.Some? && api.value != "" then api else LastToken(accounts, |accounts|, origin)
  }

  /** In every run the token table serves the accounts of the last update. */
  lemma {:induction false} TokensAreLatest(history: seq<Event>, n: nat, dotCom: DotCom, origin: string)
    requires n <= |history|
    ensures Lookup(StateAfter(history, n, dotCom).originTokens, origin)
         == ServedToken(LastAccounts(history, n), dotCom, origin)
  {
    if n > 0 {
      if history[n - 1].AccountsUpdated? {
        TokenTableServes(history[n - 1].accounts, dotCom, origin);
      } else {
        TokensAreLatest(history, n - 1, dotCom, origin);
      }
    }
  }

  // ---------- Which requests are changed ----------

  /** A secure web socket of github.com or of a host below it. */
  ghost predicate GoesToGitHubSocket(url: Url) {
    url.protocol == "wss:" && (url.host == "github.com" || exists sub :: url.host == sub + ".github.com")
  }

  /** A non-empty piece of a path. */
  predicate IsPiece(s: string) {
    s != "" && '/' !in s
  }

  ghost predicate IsAssetPath(path: string, a: string, b: string, c: string, d: string, end: string) {
    && IsPiece(a) && IsPiece(b) && IsPiece(c) && IsPiece(d) && (end == "" || end == "/")
    && path == "/" + a + "/" + b + "/assets/" + c + "/" + d + end
  }

  /** The path of an avatar of an enterprise server, or of an asset of a repository. */
  ghost predicate IsImagePath(path: string) {
    "/api/v3/enterprise/avatars/" <= path || exists a, b, c, d, end :: IsAssetPath(path, a, b, c, d, end)
  }

  lemma SocketIff(url: Url)
    ensures IsAlive(url) <==> GoesToGitHubSocket(url)
  {
    var host, suffix := url.host, ".github.com";
    if EndsWith(host, suffix) {
      assert host == host[..|host| - |suffix|] + suffix;
    }
  }

  /** The pieces of the path of an asset. */
  function AssetPieces(a: string, b: string, c: string, d: string, end: string): seq<string> {
    ["", a, b, "assets", c] + (if end == "" then [d] else [d, ""])
  }

  lemma AssetPathIsJoined(a: string, b: string, c: string, d: string, end: string)
    requires end == "" || end == "/"
    ensures Join(AssetPieces(a, b, c, d, end), '/') == "/" + a + "/" + b + "/assets/" + c + "/" + d + end
  {
    var last := if end == "" then [d] else [d, ""];
    LastPieces(d, end, last);
    JoinTwo("assets", c, last, d + end);
    JoinBehindRoot(a, b, ["assets"] + ([c] + last), "assets/" + c + "/" + (d + end));
    assert AssetPieces(a, b, c, d, end) == [""] + ([a] + ([b] + (["assets"] + ([c] + last))));
    assert "/" + a + "/" + b + "/" + ("assets/" + c + "/" + (d + end))
        == "/" + a + "/" + b + "/assets/" + c + "/" + d + end;
  }

  lemma JoinTwo(a: string, b: string, rest: seq<string>, joined: string)
    requires |rest| > 0 && Join(rest, '/') == joined
    ensures Join([a] + ([b] + rest), '/') == a + "/" + b + "/" + joined
  {
    JoinAfter(b, rest, joined);
    JoinAfter(a, [b] + rest, b + "/" + joined);
  }

  lemma JoinBehindRoot(a: string, b: string, rest: seq<string>, joined: string)
    requires |rest| > 0 && Join(rest, '/') == joined
    ensures Join([""] + ([a] + ([b] + rest)), '/') == "/" + a + "/" + b + "/" + joined
  {
    JoinTwo(a, b, rest, joined);
    JoinAtRoot([a] + ([b] + rest), a + "/" + b + "/" + joined);
    Flattened(a, b, joined);
  }

  lemma JoinAtRoot(rest: seq<string>, joined: string)
    requires |rest| > 0 && Join(rest, '/') == joined
    ensures Join([""] + rest, '/') == "/" + joined
  {
    JoinAfter("", rest, joined);
    assert "" + "/" == "/";
  }

  lemma Flattened(a: string, b: string, c: string)
    ensures "/" + (a + "/" + b + "/" + c) == "/" + a + "/" + b + "/" + c
  {
  }

  lemma LastPieces(d: string, end: string, last: seq<string>)
    requires end == "" || end == "/"
    requires last == if end == "" then [d] else [d, ""]
    ensures Join(last, '/') == d + end
  {
    if end == "/" {
      JoinFirst(d, [""], '/');
      assert [d] + [""] == last && d + ['/'] + "" == d + end;
    }
  }

  lemma JoinAfter(first: string, rest: seq<string>, joined: string)
    requires |rest| > 0 && Join(rest, '/') == joined
    ensures Join([first] + rest, '/') == first + "/" + joined
  {
    JoinFirst(first, rest, '/');
  }

  lemma AssetPathIff(path: string)
    ensures IsGitHubRepoAssetPath(path) <==> exists a, b, c, d, end :: IsAssetPath(path, a, b, c, d, end)
  {
    var parts := Split(path, '/');
    PiecesHoldNoSeparator(path, '/');
    JoinOfSplit(path, '/');
    if IsGitHubRepoAssetPath(path) {
      var end := if |parts| == 6 then "" else "/";
      PiecesAre(parts, end);
      AssetPathIsJoined(parts[1], parts[2], parts[4], parts[5], end);
      assert IsAssetPath(path, parts[1], parts[2], parts[4], parts[5], end);
    }
    forall a, b, c, d, end | IsAssetPath(path, a, b, c, d, end) ensures IsGitHubRepoAssetPath(path) {
      AssetPathIsJoined(a, b, c, d, end);
      PiecesAreFree(a, b, c, d, end);
      SplitOfJoin(AssetPieces(a, b, c, d, end), '/');
    }
  }

  lemma PiecesAre(parts: seq<string>, end: string)
    requires Free(parts, '/') && |parts| == (if end == "" then 6 else 7)
    requires parts[0] == "" && parts[3] == "assets" && (|parts| == 7 ==> parts[6] == "")
    ensures parts == AssetPieces(parts[1], parts[2], parts[4], parts[5], end)
    ensures '/' !in parts[1] && '/' !in parts[2] && '/' !in parts[4] && '/' !in parts[5]
  {
    FreeAt(parts, '/', 1);
    FreeAt(parts, '/', 2);
    FreeAt(parts, '/', 4);
    FreeAt(parts, '/', 5);
  }

  lemma PiecesAreFree(a: string, b: string, c: string, d: string, end: string)
    requires '/' !in a && '/' !in b && '/' !in c && '/' !in d
    ensures Free(AssetPieces(a, b, c, d, end), '/')
  {
    var last := if end == "" then [d] else [d, ""];
    assert Free(last, '/') by {
      FreeFirst("", [], '/');
      FreeFirst(d, last[1..], '/');
      assert last == [d] + last[1..];
    }
    FreeFirst(c, last, '/');
    FreeFirst("assets", [c] + last, '/');
    FreeFirst(b, ["assets"] + ([c] + last), '/');
    FreeFirst(a, [b] + (["assets"] + ([c] + last)), '/');
    FreeFirst("", [a] + ([b] + (["assets"] + ([c] + last))), '/');
    assert AssetPieces(a, b, c, d, end) == [""] + ([a] + ([b] + (["assets"] + ([c] + last))));
  }

  /** Lower-casing does what it says to the two headers the filters write. */
  predicate LowersOwnHeaders(lower: Lower) {
    lower("Authorization") == "authorization" && lower("Origin") == "origin"
  }

  /**
   On a request to another origin than its initial one: no authentication or cookie header is sent; an
   authorization header only if it is the one added for the origin the request goes to; every other
   header is sent as it is, but for the origin override; and no header beside those is sent.
   */
  lemma CrossOriginHeaders(lower: Lower, history: seq<Event>, details: Details, dotCom: DotCom, k: string)
    requires LowersOwnHeaders(lower)
    requires var initial := FirstOrigin(history, LastCompletion(history, |history|, details.id), |history|, details.id);
      initial.Some? && initial.value != details.url.origin
    ensures var s := StateAfter(history, |history|, dotCom);
      var sent := Lookup(SentHeaders(lower, s.requestOrigin, s.originTokens, details), k);
      var token := ServedToken(LastAccounts(history, |history|), dotCom, details.url.origin);
      if lower(k) == "authentication" || lower(k) == "cookie" then sent == None
      else if lower(k) == "authorization" then
        sent == if k == "Authorization" && token.Some? && token.value != "" && IsImagePath(details.url.pathname)
                then Some("token " + token.value) else None
      else sent == if k == "Origin" && GoesToGitHubSocket(details.url) then Some("https://desktop.github.com")
                   else Lookup(details.requestHeaders, k)
  {
    RecordedOriginIsInitial(history, |history|, details.id, dotCom);
    TokensAreLatest(history, |history|, dotCom, details.url.origin);
    AssetPathIff(details.url.pathname);
    SocketIff(details.url);
  }

  /** On any other request only the two overrides are made. */
  lemma SameOriginHeaders(lower: Lower, history: seq<Event>, details: Details, dotCom: DotCom, k: string)
    requires var initial := FirstOrigin(history, LastCompletion(history, |history|, details.id), |history|, details.id);
      initial.Some? ==> initial.value == details.url.origin
    ensures var s := StateAfter(history, |history|, dotCom);
      var sent := Lookup(SentHeaders(lower, s.requestOrigin, s.originTokens, details), k);
      var token := ServedToken(LastAccounts(history, |history|), dotCom, details.url.origin);
      sent == if k == "Authorization" && token.Some? && token.value != "" && IsImagePath(details.url.pathname)
              then Some("token " + token.value)
              else if k == "Origin" && GoesToGitHubSocket(details.url) then Some("https://desktop.github.com")
              else Lookup(details.requestHeaders, k)
  {
    RecordedOriginIsInitial(history, |history|, details.id, dotCom);
    TokensAreLatest(history, |history|, dotCom, details.url.origin);
    AssetPathIff(details.url.pathname);
    SocketIff(details.url);
  }
}
