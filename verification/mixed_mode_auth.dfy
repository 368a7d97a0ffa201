/** The mixed-mode request authorizer (MixedModeRequestAuthorizer): the
    single-use token store, the routing of a request to the OAuth or the
    Windows authorizer, and token generation with its cleanup. Time is in
    .NET ticks (10,000,000 per second); the clock and the fresh token
    string are parameters. */
module MixedModeAuth {
  import opened Wrappers
  import opened Text
  import opened Authorization
  import OAuth = OAuthAuth
  import Windows = WindowsAuth

  const UnknownTokenMessage: string := "Unknown single use token, maybe it was already used?"
  const WrongDatabaseMessage: string := "This single use token cannot be used for this database"
  const ExpiredTokenMessage: string := "This single use token has expired"

  /** 2.5 minutes: the lifetime of a single-use token. */
  const SingleUseLifetime: int := 1_500_000_000
  /** 5 minutes: the age past which generation cleans a token up. */
  const CleanupAge: int := 3_000_000_000
  /** The store is cleaned only once it holds more tokens than this. */
  const CleanupThreshold: int := 25

  datatype OneTimeToken = OneTimeToken(databaseName: Option<string>, generatedAt: int, user: Option<Principal>)

  type Tokens = map<string, OneTimeToken>

  /** Database names match ignoring case; two missing names match, one
      missing name does not. */
  predicate SameDatabase(a: Option<string>, b: Option<string>) {
    if a.None? || b.None? then a == b else EqualsIgnoreCase(a.value, b.value)
  }

  /** The token is known, was issued for this database and is at most
      2.5 minutes old. */
  predicate SingleUseValid(tokens: Tokens, token: string, databaseName: Option<string>, now: int) {
    && token in tokens
    && SameDatabase(tokens[token].databaseName, databaseName)
    && now - tokens[token].generatedAt <= SingleUseLifetime
  }

  /** AuthorizeOSingleUseAuthToken: the token is taken out of the store
      whatever the outcome; the request passes as the token's user when
      the token was valid, and is refused with 403 otherwise. */
  function AuthorizeSingleUse(tokens: Tokens, token: string, databaseName: Option<string>, now: int)
    : (r: (Decision, Tokens, Option<Principal>))
    ensures token !in r.1
    ensures forall k :: k != token ==> (k in r.1 <==> k in tokens)
    ensures forall k :: k in r.1 ==> r.1[k] == tokens[k]
    ensures r.0 == Allow <==> SingleUseValid(tokens, token, databaseName, now)
    ensures r.0 == Allow ==> r.2 == tokens[token].user
    ensures r.0.Deny? ==> r.0.status == 403 && r.2.None?
  {
    if token !in tokens then (Deny(403, UnknownTokenMessage), tokens, None)
    else
      var value := tokens[token];
      var rest := tokens - {token};
      if !SameDatabase(value.databaseName, databaseName) then
        (Deny(403, WrongDatabaseMessage), rest, None)
      else if now - value.generatedAt > SingleUseLifetime then
        (Deny(403, ExpiredTokenMessage), rest, None)
      else (Allow, rest, value.user)
  }

  /** A single-use token works at most once. */
  lemma {:induction false} SingleUseTokenWorksOnce(tokens: Tokens, token: string, databaseName: Option<string>, now: int,
                                                   later: int)
    ensures
      var first := AuthorizeSingleUse(tokens, token, databaseName, now);
      AuthorizeSingleUse(first.1, token, databaseName, later).0.Deny?
  {
    var first := AuthorizeSingleUse(tokens, token, databaseName, now);
    assert token !in first.1;
  }

  /** The request goes to the OAuth authorizer when it says it has an API
      key ("True" in any case), carries the OAuth cookie, or has an
      Authorization header starting with "Bearer " (case-sensitive). */
  predicate UsesOAuth(hasApiKeyHeader: Option<string>, hasOAuthCookie: bool, authorization: Option<string>): (r: bool)
    ensures hasOAuthCookie ==> r
    ensures hasApiKeyHeader.Some? && EqualsIgnoreCase(hasApiKeyHeader.value, "True") ==> r
    ensures hasApiKeyHeader.None? && !hasOAuthCookie ==>
      (r <==> authorization.Some? && StartsWith(authorization.value, "Bearer "))
  {
    || (hasApiKeyHeader.Some? && EqualsIgnoreCase(hasApiKeyHeader.value, "True"))
    || hasOAuthCookie
    || (authorization.Some? && authorization.value != [] && StartsWith(authorization.value, "Bearer "))
  }

  /** The routing test is case-sensitive although the OAuth authorizer
      accepts the prefix in any case: a lower-case bearer header with no
      cookie and no API key goes to the Windows authorizer. */
  lemma LowerCaseBearerGoesToWindows(token: string)
    ensures !UsesOAuth(None, false, Some("bearer " + token))
  {
    assert ("bearer " + token)[..7] == "bearer ";
  }

  /** One request as the mixed-mode authorizer sees it. */
  datatype Request = Request(
    url: string,
    httpMethod: string,
    path: string,
    databaseName: Option<string>,
    authorization: Option<string>,
    singleUseToken: Option<string>,
    hasApiKeyHeader: Option<string>,
    oauthCookie: Option<string>,
    user: Option<Principal>)

  /** The settings and collaborators both inner authorizers need. */
  datatype Config = Config(
    mode: AnonymousAccess,
    neverSecret: set<string>,
    ignoreDb: set<string>,
    windows: Windows.WindowsSettings,
    unescape: string -> string,
    tryParse: string -> Option<AccessTokenBody>,
    isAuthorized: (AccessTokenBody, Option<string>, bool) -> bool)

  /** Authorize: never-secret URLs pass; a non-empty single-use token
      header decides alone; otherwise the request is routed to the OAuth
      or the Windows authorizer, with the database check waived for the
      URLs that ignore it. Only the single-use path changes the store. */
  function Authorize(cfg: Config, tokens: Tokens, req: Request, now: int): (r: (Decision, Tokens))
    requires req.user.None? || !req.user.value.OAuthPrincipal?
    ensures req.url in cfg.neverSecret ==> r == (Allow, tokens)
    ensures req.url !in cfg.neverSecret && req.singleUseToken.Some? && req.singleUseToken.value != [] ==>
      var t := req.singleUseToken.value;
      && (r.0 == Allow <==> SingleUseValid(tokens, t, req.databaseName, now))
      && r.1 == tokens - {t}
    ensures req.url !in cfg.neverSecret && (req.singleUseToken.None? || req.singleUseToken.value == []) ==>
      && r.1 == tokens
      && (UsesOAuth(req.hasApiKeyHeader, req.oauthCookie.Some?, req.authorization) ==>
            r.0 == OAuth.Authorize(cfg.mode, req.httpMethod, req.path, req.databaseName,
                                   OAuth.GetToken(req.authorization, req.oauthCookie, cfg.unescape),
                                   req.hasApiKeyHeader.Some? && EqualsIgnoreCase(req.hasApiKeyHeader.value, "True"),
                                   req.url in cfg.ignoreDb, cfg.tryParse, cfg.isAuthorized).0)
      && (!UsesOAuth(req.hasApiKeyHeader, req.oauthCookie.Some?, req.authorization) ==>
            r.0 == Windows.Authorize(cfg.windows, cfg.mode, req.user, req.databaseName, req.httpMethod, req.path,
                                     req.url in cfg.ignoreDb))
  {
    if req.url in cfg.neverSecret then (Allow, tokens)
    else if req.singleUseToken.Some? && req.singleUseToken.value != [] then
      var (d, rest, _) := AuthorizeSingleUse(tokens, req.singleUseToken.value, req.databaseName, now);
      assert rest == tokens - {req.singleUseToken.value};
      (d, rest)
    else
      var hasApiKey := req.hasApiKeyHeader.Some? && EqualsIgnoreCase(req.hasApiKeyHeader.value, "True");
      var ignoreDb := req.url in cfg.ignoreDb;
      if UsesOAuth(req.hasApiKeyHeader, req.oauthCookie.Some?, req.authorization) then
        var token := OAuth.GetToken(req.authorization, req.oauthCookie, cfg.unescape);
        (OAuth.Authorize(cfg.mode, req.httpMethod, req.path, req.databaseName, token, hasApiKey, ignoreDb,
                         cfg.tryParse, cfg.isAuthorized).0, tokens)
      else
        (Windows.Authorize(cfg.windows, cfg.mode, req.user, req.databaseName, req.httpMethod, req.path, ignoreDb),
         tokens)
  }

  /** GetUser: the OAuth authorizer's user when the request is routed to
      it (the API key flag read from the query string), the Windows
      authorizer's otherwise. */
  function GetUser(cfg: Config, req: Request, hasApiKeyQuery: Option<string>): (r: Result<Principal, Decision>)
    requires req.user.None? || !req.user.value.OAuthPrincipal?
    ensures UsesOAuth(hasApiKeyQuery, req.oauthCookie.Some?, req.authorization) ==>
      r == OAuth.GetUser(OAuth.GetToken(req.authorization, req.oauthCookie, cfg.unescape),
                         hasApiKeyQuery.Some? && EqualsIgnoreCase(hasApiKeyQuery.value, "True"), cfg.tryParse)
    ensures !UsesOAuth(hasApiKeyQuery, req.oauthCookie.Some?, req.authorization) ==> r == Windows.GetUser(cfg.windows, req.user)
  {
    if UsesOAuth(hasApiKeyQuery, req.oauthCookie.Some?, req.authorization) then
      OAuth.GetUser(OAuth.GetToken(req.authorization, req.oauthCookie, cfg.unescape),
                    hasApiKeyQuery.Some? && EqualsIgnoreCase(hasApiKeyQuery.value, "True"), cfg.tryParse)
    else Windows.GetUser(cfg.windows, req.user)
  }

  /** GetApprovedDatabases: routed on the Authorization header alone. */
  function GetApprovedDatabases(user: Option<Principal>, authorization: Option<string>): (r: seq<string>)
    ensures UsesOAuth(None, false, authorization) ==> r == OAuth.GetApprovedDatabases(user)
    ensures !UsesOAuth(None, false, authorization) ==> r == Windows.GetApprovedDatabases(user)
  {
    if authorization.Some? && authorization.value != [] && StartsWith(authorization.value, "Bearer ") then
      OAuth.GetApprovedDatabases(user)
    else Windows.GetApprovedDatabases(user)
  }

  /** The store after adding a token: an existing key is left as it was. */
  function TryAdd(tokens: Tokens, key: string, token: OneTimeToken): (r: Tokens)
    ensures key in r && r.Keys == tokens.Keys + {key}
    ensures forall k :: k in tokens ==> r[k] == tokens[k]
    ensures key !in tokens ==> r[key] == token
  {
    if key in tokens then tokens else tokens[key := token]
  }

  /** The tokens of the store that satisfy `keep`. */
  function KeepOnly(tokens: Tokens, keep: OneTimeToken -> bool): (r: Tokens)
    ensures forall k :: k in r <==> k in tokens && keep(tokens[k])
    ensures forall k :: k in r ==> r[k] == tokens[k]
  {
    map k | k in tokens && keep(tokens[k]) :: tokens[k]
  }

  /** GenerateSingleUseAuthToken as written: after adding the token, once
      the store holds more than 25 tokens, those whose generation time
      lies more than 5 minutes AFTER now are removed. */
  function GenerateSingleUseAuthToken(tokens: Tokens, key: string, databaseName: Option<string>, user: Option<Principal>,
                                      now: int): (r: Tokens)
    ensures key !in tokens ==> key in r && r[key] == OneTimeToken(databaseName, now, user)
    ensures forall k :: k in r ==> k in tokens || k == key
    ensures forall k :: k in tokens && tokens[k].generatedAt - now <= CleanupAge ==> k in r && r[k] == tokens[k]
    ensures var added := TryAdd(tokens, key, OneTimeToken(databaseName, now, user));
      && (|added| <= CleanupThreshold ==> r == added)
      && (|added| > CleanupThreshold ==>
            forall k :: k in r <==> k in added && added[k].generatedAt - now <= CleanupAge)
      && forall k :: k in r ==> r[k] == added[k]
  {
    var added := TryAdd(tokens, key, OneTimeToken(databaseName, now, user));
    if |added| > CleanupThreshold then KeepOnly(added, (t: OneTimeToken) => !(t.generatedAt - now > CleanupAge))
    else added
  }

  /** The cleanup as written never removes a token generated in the past,
      so expired tokens pile up however large the store grows. */
  lemma {:induction false} GenerateKeepsEveryPastToken(tokens: Tokens, key: string, databaseName: Option<string>,
                                                       user: Option<Principal>, now: int)
    requires forall k :: k in tokens ==> tokens[k].generatedAt <= now
    ensures GenerateSingleUseAuthToken(tokens, key, databaseName, user, now)
            == TryAdd(tokens, key, OneTimeToken(databaseName, now, user))
  {
    var added := TryAdd(tokens, key, OneTimeToken(databaseName, now, user));
    var r := GenerateSingleUseAuthToken(tokens, key, databaseName, user, now);
    assert forall k :: k in added ==> added[k].generatedAt <= now;
    assert r.Keys == added.Keys;
  }

  /** A store of 26 tokens, each generated ten minutes before now, keeps
      all of them after generating one more. */
  lemma ExpiredTokensSurviveCleanup(tokens: Tokens, key: string, now: int)
    requires |tokens| == 26 && key in tokens
    requires forall k :: k in tokens ==> tokens[k].generatedAt == now - 2 * CleanupAge
    ensures var r := GenerateSingleUseAuthToken(tokens, key, None, None, now);
      |r| > CleanupThreshold && forall k :: k in r ==> now - r[k].generatedAt > CleanupAge
  {
    GenerateKeepsEveryPastToken(tokens, key, None, None, now);
  }

  /** GenerateSingleUseAuthToken as evidently intended: the cleanup
      removes the tokens generated more than 5 minutes BEFORE now. */
  function GenerateSingleUseAuthTokenFixed(tokens: Tokens, key: string, databaseName: Option<string>,
                                           user: Option<Principal>, now: int): (r: Tokens)
    ensures key !in tokens ==> key in r && r[key] == OneTimeToken(databaseName, now, user)
    ensures forall k :: k in r ==> (k in tokens || k == key)
    ensures forall k :: k in r ==> r[k] == TryAdd(tokens, key, OneTimeToken(databaseName, now, user))[k]
    ensures |TryAdd(tokens, key, OneTimeToken(databaseName, now, user))| > CleanupThreshold ==>
      forall k :: k in r ==> now - r[k].generatedAt <= CleanupAge
    ensures forall k :: k in tokens && now - tokens[k].generatedAt <= CleanupAge ==> k in r
  {
    var added := TryAdd(tokens, key, OneTimeToken(databaseName, now, user));
    if |added| > CleanupThreshold then KeepOnly(added, (t: OneTimeToken) => now - t.generatedAt <= CleanupAge)
    else added
  }

  /** With the corrected cleanup, a full store of expired tokens is
      emptied down to the new one. */
  lemma ExpiredTokensRemovedByFixedCleanup(tokens: Tokens, key: string, now: int)
    requires |tokens| == 26 && key !in tokens
    requires forall k :: k in tokens ==> tokens[k].generatedAt == now - 2 * CleanupAge
    ensures GenerateSingleUseAuthTokenFixed(tokens, key, None, None, now) == map[key := OneTimeToken(None, now, None)]
  {
    var added := TryAdd(tokens, key, OneTimeToken(None, now, None));
    assert added.Keys == tokens.Keys + {key};
    assert |added| == 27;
  }
}
