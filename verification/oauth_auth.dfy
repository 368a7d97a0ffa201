/** The OAuth request authorizer (OAuthRequestAuthorizer and
    OAuthPrincipal): extracting the bearer token, the decision chain over
    a token, and the role and database queries of a token's principal.
    Verifying a token's signature and reading its body, the clock behind
    expiry and the per-database scope check are not visible here: the
    parser and the scope check are parameters, expiry is a field. */
module OAuthAuth {
  import opened Wrappers
  import opened Text
  import opened Authorization

  const BearerPrefix: string := "Bearer "

  /** GetToken: the Authorization header, or else the OAuth-Token cookie
      unescaped, must be longer than the prefix and start with "Bearer "
      in any case; the token is the rest. */
  function GetToken(header: Option<string>, cookie: Option<string>, unescape: string -> string): (r: Option<string>)
    ensures header.None? && cookie.None? ==> r.None?
    ensures r.Some? ==>
      var auth := if header.Some? then header.value else unescape(cookie.value);
      && |auth| > |BearerPrefix|
      && r.value != []
      && auth == auth[..|BearerPrefix|] + r.value
      && EqualsIgnoreCase(auth[..|BearerPrefix|], BearerPrefix)
  {
    var auth := if header.Some? then header else if cookie.Some? then Some(unescape(cookie.value)) else None;
    if auth.None? || |auth.value| <= |BearerPrefix| || !StartsWithIgnoreCase(auth.value, BearerPrefix) then None
    else
      assert auth.value == auth.value[..|BearerPrefix|] + auth.value[|BearerPrefix|..];
      Some(auth.value[|BearerPrefix|..])
  }

  /** A non-empty token sent as "Bearer <token>" comes back unchanged, and
      the prefix may be written in any case. */
  lemma GetTokenRoundTrip(token: string, cookie: Option<string>, unescape: string -> string)
    requires token != []
    ensures GetToken(Some(BearerPrefix + token), cookie, unescape) == Some(token)
    ensures GetToken(Some("bearer " + token), cookie, unescape) == Some(token)
    ensures GetToken(None, Some(BearerPrefix + token), (c: string) => c) == Some(token)
  {
    assert (BearerPrefix + token)[..|BearerPrefix|] == BearerPrefix;
    assert (BearerPrefix + token)[|BearerPrefix|..] == token;
    assert ("bearer " + token)[..|BearerPrefix|] == "bearer ";
    assert ("bearer " + token)[|BearerPrefix|..] == token;
    assert Fold("bearer ") == Fold(BearerPrefix);
  }

  /** The header, when present, decides alone: the cookie is not read. */
  lemma GetTokenHeaderWins(header: string, cookie: Option<string>, unescape: string -> string)
    ensures GetToken(Some(header), cookie, unescape) == GetToken(Some(header), None, unescape)
  {
  }

  /** A bare prefix carries no token. */
  lemma GetTokenRejectsBarePrefix(cookie: Option<string>, unescape: string -> string)
    ensures GetToken(Some(BearerPrefix), cookie, unescape).None?
  {
  }

  /** The anonymous access mode lets the request through without a token. */
  predicate AllowUnauthenticated(mode: AnonymousAccess, isGet: bool) {
    mode == AnonAll || mode == AnonAdmin || (mode == AnonGet && isGet)
  }

  /** The token is present, readable, unexpired and grants the access the
      request needs. */
  predicate ValidFor(token: Option<string>, tryParse: string -> Option<AccessTokenBody>,
                     isAuthorized: (AccessTokenBody, Option<string>, bool) -> bool,
                     databaseName: Option<string>, writeAccess: bool)
  {
    && token.Some?
    && tryParse(token.value).Some?
    && !tryParse(token.value).value.expired
    && isAuthorized(tryParse(token.value).value, databaseName, writeAccess)
  }

  /** Authorize: the decision for one request and the principal installed
      for it, if any. Each refusal carries the status and OAuth error code
      of the step that failed; the anonymous access mode, or for the scope
      step alone `ignoreDbAccess`, turns a refusal into an anonymous pass. */
  function Authorize(mode: AnonymousAccess, httpMethod: string, path: string, databaseName: Option<string>,
                     token: Option<string>, hasApiKey: bool, ignoreDbAccess: bool,
                     tryParse: string -> Option<AccessTokenBody>,
                     isAuthorized: (AccessTokenBody, Option<string>, bool) -> bool): (r: (Decision, Option<Principal>))
    ensures var isGet := IsGetRequest(httpMethod, path);
      && (r.1.Some? <==> ValidFor(token, tryParse, isAuthorized, databaseName, !isGet))
      && (r.1.Some? ==> r.1.value == OAuthPrincipal(tryParse(token.value).value, databaseName))
      && (AllowUnauthenticated(mode, isGet) ==> r.0 == Allow)
      && (!AllowUnauthenticated(mode, isGet) ==>
            && (token.None? ==> r.0 == Deny(if hasApiKey then 412 else 401, "invalid_request"))
            && (token.Some? && tryParse(token.value).None? ==> r.0 == Deny(401, "invalid_token"))
            && (token.Some? && tryParse(token.value).Some? && tryParse(token.value).value.expired ==>
                  r.0 == Deny(401, "invalid_token"))
            && (token.Some? && tryParse(token.value).Some? && !tryParse(token.value).value.expired
                && !isAuthorized(tryParse(token.value).value, databaseName, !isGet) ==>
                  r.0 == (if ignoreDbAccess then Allow else Deny(403, "insufficient_scope"))))
  {
    var isGet := IsGetRequest(httpMethod, path);
    var anonymous := AllowUnauthenticated(mode, isGet);
    if token.None? then
      (if anonymous then Allow else Deny(if hasApiKey then 412 else 401, "invalid_request"), None)
    else
      var body := tryParse(token.value);
      if body.None? then (if anonymous then Allow else Deny(401, "invalid_token"), None)
      else if body.value.expired then (if anonymous then Allow else Deny(401, "invalid_token"), None)
      else if !isAuthorized(body.value, databaseName, !isGet) then
        (if anonymous || ignoreDbAccess then Allow else Deny(403, "insufficient_scope"), None)
      else (Allow, Some(OAuthPrincipal(body.value, databaseName)))
  }

  /** Whatever the mode, a request is allowed exactly when the mode admits
      it anonymously, the token is valid for it, or the token is valid
      except for its scope and the database check is waived. */
  lemma AuthorizeAllowsExactly(mode: AnonymousAccess, httpMethod: string, path: string, databaseName: Option<string>,
                               token: Option<string>, hasApiKey: bool, ignoreDbAccess: bool,
                               tryParse: string -> Option<AccessTokenBody>,
                               isAuthorized: (AccessTokenBody, Option<string>, bool) -> bool)
    ensures var isGet := IsGetRequest(httpMethod, path);
      Authorize(mode, httpMethod, path, databaseName, token, hasApiKey, ignoreDbAccess, tryParse, isAuthorized).0 == Allow
      <==>
      || AllowUnauthenticated(mode, isGet)
      || ValidFor(token, tryParse, isAuthorized, databaseName, !isGet)
      || (ignoreDbAccess && token.Some? && tryParse(token.value).Some? && !tryParse(token.value).value.expired)
  {
  }

  /** GetUser: the principal of a readable token, with no database and no
      expiry check; a missing or unreadable token is refused as in
      Authorize. */
  function GetUser(token: Option<string>, hasApiKey: bool, tryParse: string -> Option<AccessTokenBody>)
    : (r: Result<Principal, Decision>)
    ensures r.Success? <==> token.Some? && tryParse(token.value).Some?
    ensures r.Success? ==> r.value == OAuthPrincipal(tryParse(token.value).value, None)
    ensures r.Failure? ==> r.error.Deny? && r.error.status in {401, 412}
    ensures r.Failure? && token.Some? ==> r.error == Deny(401, "invalid_token")
  {
    if token.None? then Failure(Deny(if hasApiKey then 412 else 401, "invalid_request"))
    else
      var body := tryParse(token.value);
      if body.None? then Failure(Deny(401, "invalid_token"))
      else Success(OAuthPrincipal(body.value, None))
  }

  /** An access entry applies to the principal's tenant: the same tenant
      ignoring case, or the wildcard. */
  predicate AppliesTo(a: DatabaseAccess, tenantId: Option<string>) {
    (tenantId.Some? && EqualsIgnoreCase(a.tenantId, tenantId.value)) || a.tenantId == "*"
  }

  function AnyAdminFor(xs: seq<DatabaseAccess>, tenantId: Option<string>): (r: bool)
    ensures r <==> exists i :: 0 <= i < |xs| && xs[i].admin && AppliesTo(xs[i], tenantId)
  {
    if xs == [] then false
    else
      assert forall i :: 1 <= i < |xs| ==> xs[i] == xs[1..][i - 1];
      (xs[0].admin && AppliesTo(xs[0], tenantId)) || AnyAdminFor(xs[1..], tenantId)
  }

  /** OAuthPrincipal.IsInRole: only the Administrators role (any case) is
      known, and the principal holds it when an admin entry applies to its
      tenant. */
  function IsInRole(body: AccessTokenBody, tenantId: Option<string>, role: string): (r: bool)
    ensures r <==> EqualsIgnoreCase(role, "Administrators")
                   && exists a :: a in body.authorizedDatabases && a.admin && AppliesTo(a, tenantId)
  {
    var any := AnyAdminFor(body.authorizedDatabases, tenantId);
    assert any ==> exists a :: a in body.authorizedDatabases && a.admin && AppliesTo(a, tenantId);
    assert (exists a :: a in body.authorizedDatabases && a.admin && AppliesTo(a, tenantId)) ==> any by {
      if exists a :: a in body.authorizedDatabases && a.admin && AppliesTo(a, tenantId) {
        var a :| a in body.authorizedDatabases && a.admin && AppliesTo(a, tenantId);
        var i :| 0 <= i < |body.authorizedDatabases| && body.authorizedDatabases[i] == a;
      }
    }
    EqualsIgnoreCase(role, "Administrators") && any
  }

  /** An admin grant on the wildcard makes the principal an administrator
      of every tenant, even without one. */
  lemma WildcardAdminIsAdministrator(body: AccessTokenBody, tenantId: Option<string>)
    requires DatabaseAccess("*", true, false) in body.authorizedDatabases
    ensures IsInRole(body, tenantId, "administrators")
  {
    assert Fold("administrators") == Fold("Administrators");
  }

  /** GetApprovedDatabases: the tenant of every access entry of an OAuth
      principal's token, in order; none for any other principal. */
  function GetApprovedDatabases(user: Option<Principal>): (r: seq<string>)
    ensures user.None? || !user.value.OAuthPrincipal? ==> r == []
    ensures user.Some? && user.value.OAuthPrincipal? ==>
      var dbs := user.value.body.authorizedDatabases;
      |r| == |dbs| && forall i :: 0 <= i < |dbs| ==> r[i] == dbs[i].tenantId
  {
    if user.Some? && user.value.OAuthPrincipal? then Tenants(user.value.body.authorizedDatabases) else []
  }
}
