/** Shared vocabulary of the request authorizers: read-request
    classification (AbstractRequestAuthorizer.IsGetRequest), the anonymous
    access mode, the decision an authorizer reaches, the per-database
    access lists and the principals a request can carry. */
module Authorization {
  import opened Wrappers
  import opened Text

  /** AnonymousUserAccessMode: what an unauthenticated caller may do. */
  datatype AnonymousAccess = AnonNone | AnonGet | AnonAll | AnonAdmin

  /** The outcome of authorizing one request: allowed, or refused with an
      HTTP status and an error code (empty when the original sends none). */
  datatype Decision = Allow | Deny(status: int, error: string)

  /** IsGetRequest: GET and HEAD read; POST reads only for the multi-get
      endpoint; every other method writes. Method names compare exactly. */
  predicate IsGetRequest(httpMethod: string, requestPath: string): (r: bool)
    ensures r ==> httpMethod == "GET" || httpMethod == "HEAD" || httpMethod == "POST"
    ensures httpMethod == "GET" || httpMethod == "HEAD" ==> r
    ensures httpMethod == "POST" ==> (r <==> requestPath == "/multi_get/" || requestPath == "/multi_get")
  {
    (httpMethod == "GET" || httpMethod == "HEAD")
    || (httpMethod == "POST" && (requestPath == "/multi_get/" || requestPath == "/multi_get"))
  }

  /** The path matters only for POST: any other method is a read on every
      path or on none. */
  lemma PathMattersOnlyForPost(httpMethod: string, path: string, other: string)
    requires httpMethod != "POST"
    ensures IsGetRequest(httpMethod, path) == IsGetRequest(httpMethod, other)
  {
  }

  lemma LowerCaseGetIsWrite(path: string)
    ensures !IsGetRequest("get", path) && !IsGetRequest("Put", path) && !IsGetRequest("DELETE", path)
  {
  }

  /** One entry of a user's or token's database access list. */
  datatype DatabaseAccess = DatabaseAccess(tenantId: string, admin: bool, readOnly: bool)

  /** The three lists a Windows principal with database access carries. */
  datatype DatabaseLists = DatabaseLists(admin: seq<string>, readOnly: seq<string>, readWrite: seq<string>)

  /** An authenticated-or-not Windows user. Whether the user is an
      administrator or a backup operator is decided by code outside this
      model and is given. */
  datatype WindowsUser = WindowsUser(
    name: string,
    authenticated: bool,
    roles: set<string>,
    administrator: bool,
    backupOperator: bool)

  /** The contents of an OAuth access token. Expiry depends on the clock
      and is given. */
  datatype AccessTokenBody = AccessTokenBody(userId: string, authorizedDatabases: seq<DatabaseAccess>, expired: bool)

  /** The principals a request can carry. */
  datatype Principal =
    | WindowsPrincipal(user: WindowsUser)
    | WithDatabaseAccess(user: WindowsUser, lists: DatabaseLists)
    | OAuthPrincipal(body: AccessTokenBody, tenantId: Option<string>)

  /** The tenant ids of a sequence of access entries, in order. */
  function Tenants(xs: seq<DatabaseAccess>): (r: seq<string>)
    ensures |r| == |xs|
    ensures forall i :: 0 <= i < |xs| ==> r[i] == xs[i].tenantId
  {
    if xs == [] then [] else [xs[0].tenantId] + Tenants(xs[1..])
  }

  lemma {:induction false} TenantsAppend(xs: seq<DatabaseAccess>, ys: seq<DatabaseAccess>)
    ensures Tenants(xs + ys) == Tenants(xs) + Tenants(ys)
  {
  }
}
