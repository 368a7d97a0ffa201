/** The Windows request authorizer (WindowsRequestAuthorizer): the
    required users and groups read from the settings document, the
    classification of a user's database access into three lists, and the
    allow/reject decision table. */
module WindowsAuth {
  import opened Wrappers
  import opened Text
  import opened Authorization

  /** The name under which the system database is addressed when a request
      names no database. */
  const SystemDatabase: string := "<system>"

  /** One required user or group of the settings document. */
  datatype WindowsAuthData = WindowsAuthData(name: string, enabled: bool, databases: seq<DatabaseAccess>)

  /** The settings document; either list may be missing. */
  datatype WindowsAuthDocument = WindowsAuthDocument(
    requiredGroups: Option<seq<WindowsAuthData>>,
    requiredUsers: Option<seq<WindowsAuthData>>)

  /** What reading the settings document yields: no document, a document
      that does not deserialize, or the document. */
  datatype SettingsSource = Missing | Unreadable | Found(doc: WindowsAuthDocument)

  datatype WindowsSettings = WindowsSettings(requiredGroups: seq<WindowsAuthData>, requiredUsers: seq<WindowsAuthData>)

  function EnabledOnly(xs: seq<WindowsAuthData>): (r: seq<WindowsAuthData>)
    ensures forall i :: 0 <= i < |r| ==> r[i].enabled && r[i] in xs
    ensures forall i :: 0 <= i < |xs| && xs[i].enabled ==> xs[i] in r
  {
    Filter(xs, (d: WindowsAuthData) => d.enabled)
  }

  /** UpdateSettings: only enabled users and groups are kept; a missing
      or unreadable document, or a missing list, gives empty lists. */
  function UpdateSettings(src: SettingsSource): (r: WindowsSettings)
    ensures forall i :: 0 <= i < |r.requiredGroups| ==> r.requiredGroups[i].enabled
    ensures forall i :: 0 <= i < |r.requiredUsers| ==> r.requiredUsers[i].enabled
    ensures !src.Found? ==> r == WindowsSettings([], [])
    ensures src.Found? && src.doc.requiredGroups.None? ==> r.requiredGroups == []
    ensures src.Found? && src.doc.requiredUsers.None? ==> r.requiredUsers == []
    ensures src.Found? && src.doc.requiredGroups.Some? ==>
      forall g :: g in src.doc.requiredGroups.value ==> (g in r.requiredGroups <==> g.enabled)
    ensures src.Found? && src.doc.requiredUsers.Some? ==>
      forall u :: u in src.doc.requiredUsers.value ==> (u in r.requiredUsers <==> u.enabled)
  {
    match src
    case Missing => WindowsSettings([], [])
    case Unreadable => WindowsSettings([], [])
    case Found(doc) =>
      WindowsSettings(
        if doc.requiredGroups.Some? then EnabledOnly(doc.requiredGroups.value) else [],
        if doc.requiredUsers.Some? then EnabledOnly(doc.requiredUsers.value) else [])
  }

  /** The access entries granted to a user: those of the required users
      with the user's name (ignoring case), then those of the required
      groups the user is in. */
  function GrantedAccess(settings: WindowsSettings, user: WindowsUser): (r: seq<DatabaseAccess>)
    ensures forall a :: a in r <==>
      || (exists d :: d in settings.requiredUsers && EqualsIgnoreCase(user.name, d.name) && a in d.databases)
      || (exists d :: d in settings.requiredGroups && d.name in user.roles && a in d.databases)
  {
    var byName := (d: WindowsAuthData) => EqualsIgnoreCase(user.name, d.name);
    var byGroup := (d: WindowsAuthData) => d.name in user.roles;
    FlattenFilterMembers(settings.requiredUsers, byName);
    FlattenFilterMembers(settings.requiredGroups, byGroup);
    Flatten(Filter(settings.requiredUsers, byName)) + Flatten(Filter(settings.requiredGroups, byGroup))
  }

  /** All access entries of the given users or groups, in order. */
  function Flatten(xs: seq<WindowsAuthData>): (r: seq<DatabaseAccess>)
    ensures forall a :: a in r <==> exists d :: d in xs && a in d.databases
  {
    if xs == [] then []
    else
      var rest := Flatten(xs[1..]);
      assert forall d :: d in xs <==> d == xs[0] || d in xs[1..];
      xs[0].databases + rest
  }

  lemma FlattenFilterMembers(xs: seq<WindowsAuthData>, p: WindowsAuthData -> bool)
    ensures forall a :: a in Flatten(Filter(xs, p)) <==> exists d :: d in xs && p(d) && a in d.databases
  {
    var f := Filter(xs, p);
    forall a | a in Flatten(f)
      ensures exists d :: d in xs && p(d) && a in d.databases
    {
      var d :| d in f && a in d.databases;
      var k :| 0 <= k < |f| && f[k] == d;
    }
    forall a | exists d :: d in xs && p(d) && a in d.databases
      ensures a in Flatten(f)
    {
      var d :| d in xs && p(d) && a in d.databases;
      var k :| 0 <= k < |xs| && xs[k] == d;
    }
  }

  predicate IsAdminAccess(a: DatabaseAccess) { a.admin }
  predicate IsReadOnlyAccess(a: DatabaseAccess) { !a.admin && a.readOnly }
  predicate IsReadWriteAccess(a: DatabaseAccess) { !a.admin && !a.readOnly }

  /** Reference classification: admin first, then read-only, else read-write. */
  function Classify(accesses: seq<DatabaseAccess>): (r: DatabaseLists)
    ensures forall t :: t in r.admin <==> exists a :: a in accesses && a.admin && a.tenantId == t
    ensures forall t :: t in r.readOnly <==> exists a :: a in accesses && !a.admin && a.readOnly && a.tenantId == t
    ensures forall t :: t in r.readWrite <==> exists a :: a in accesses && !a.admin && !a.readOnly && a.tenantId == t
  {
    TenantsOfFilterMembers(accesses, IsAdminAccess);
    TenantsOfFilterMembers(accesses, IsReadOnlyAccess);
    TenantsOfFilterMembers(accesses, IsReadWriteAccess);
    DatabaseLists(
      Tenants(Filter(accesses, IsAdminAccess)),
      Tenants(Filter(accesses, IsReadOnlyAccess)),
      Tenants(Filter(accesses, IsReadWriteAccess)))
  }

  /** The tenants of the entries that pass a test are exactly those of
      some passing entry. */
  lemma TenantsOfFilterMembers(xs: seq<DatabaseAccess>, p: DatabaseAccess -> bool)
    ensures forall t :: t in Tenants(Filter(xs, p)) <==> exists a :: a in xs && p(a) && a.tenantId == t
  {
    var f := Filter(xs, p);
    forall t | t in Tenants(f) ensures exists a :: a in xs && p(a) && a.tenantId == t {
      var k :| 0 <= k < |f| && Tenants(f)[k] == t;
      assert f[k] in xs && p(f[k]);
    }
    forall t | exists a :: a in xs && p(a) && a.tenantId == t ensures t in Tenants(f) {
      var a :| a in xs && p(a) && a.tenantId == t;
      var k :| 0 <= k < |f| && f[k] == a;
      assert Tenants(f)[k] == t;
    }
  }

  /** Each access entry lands in exactly one of the three lists. */
  lemma {:induction false} ClassifyIsPartition(accesses: seq<DatabaseAccess>)
    ensures |Classify(accesses).admin| + |Classify(accesses).readOnly| + |Classify(accesses).readWrite| == |accesses|
  {
    if accesses != [] {
      ClassifyIsPartition(accesses[1..]);
    }
  }

  /** Filtering one more entry appends its tenant when it passes. */
  lemma {:induction false} TenantsOfFilterStep(xs: seq<DatabaseAccess>, a: DatabaseAccess, p: DatabaseAccess -> bool)
    ensures Tenants(Filter(xs + [a], p)) == Tenants(Filter(xs, p)) + (if p(a) then [a.tenantId] else [])
  {
    FilterAppend(xs, [a], p);
    assert Filter([a], p) == (if p(a) then [a] else []) + Filter([a][1..], p);
    assert [a][1..] == [];
    TenantsAppend(Filter(xs, p), Filter([a], p));
  }

  /** Classifying one more entry appends its tenant to exactly one list:
      the admin list when it grants admin, else the read-only list when it
      is read-only, else the read-write list. */
  lemma ClassifyStep(xs: seq<DatabaseAccess>, a: DatabaseAccess)
    ensures Classify(xs + [a]).admin == Classify(xs).admin + (if a.admin then [a.tenantId] else [])
    ensures Classify(xs + [a]).readOnly == Classify(xs).readOnly + (if !a.admin && a.readOnly then [a.tenantId] else [])
    ensures Classify(xs + [a]).readWrite == Classify(xs).readWrite + (if !a.admin && !a.readOnly then [a.tenantId] else [])
  {
    TenantsOfFilterStep(xs, a, IsAdminAccess);
    TenantsOfFilterStep(xs, a, IsReadOnlyAccess);
    TenantsOfFilterStep(xs, a, IsReadWriteAccess);
  }

  /** UpdateUserPrincipal: a principal that already carries database lists
      keeps them; otherwise the lists are built from the granted entries,
      one entry at a time. */
  method UpdateUserPrincipal(principal: Principal, accesses: seq<DatabaseAccess>) returns (lists: DatabaseLists)
    requires !principal.OAuthPrincipal?
    ensures principal.WithDatabaseAccess? ==> lists == principal.lists
    ensures principal.WindowsPrincipal? ==> lists == Classify(accesses)
  {
    if principal.WithDatabaseAccess? {
      return principal.lists;
    }
    var admin, readOnly, readWrite := [], [], [];
    var i := 0;
    assert accesses[..0] == [];
    while i < |accesses|
      invariant 0 <= i <= |accesses|
      invariant admin == Classify(accesses[..i]).admin
      invariant readOnly == Classify(accesses[..i]).readOnly
      invariant readWrite == Classify(accesses[..i]).readWrite
    {
      var a := accesses[i];
      assert accesses[..i + 1] == accesses[..i] + [a];
      ClassifyStep(accesses[..i], a);
      if a.admin {
        admin := admin + [a.tenantId];
      } else if a.readOnly {
        readOnly := readOnly + [a.tenantId];
      } else {
        readWrite := readWrite + [a.tenantId];
      }
      i := i + 1;
    }
    assert accesses[..i] == accesses;
    lists := DatabaseLists(admin, readOnly, readWrite);
  }

  /** The lists the authorizer checks for an authenticated principal. */
  function ListsOf(settings: WindowsSettings, principal: Principal): DatabaseLists
    requires !principal.OAuthPrincipal?
  {
    if principal.WithDatabaseAccess? then principal.lists
    else Classify(GrantedAccess(settings, principal.user))
  }

  /** The rules of access mode None for an authenticated user. */
  predicate GrantsUnderNone(lists: DatabaseLists, databaseName: string, isGet: bool, ignoreDb: bool) {
    (databaseName in lists.admin || "*" in lists.admin || ignoreDb)
    || (databaseName in lists.readWrite || "*" in lists.readWrite)
    || (isGet && (databaseName in lists.readOnly || "*" in lists.readOnly))
  }

  predicate Authenticated(user: Option<Principal>) {
    user.Some? && !user.value.OAuthPrincipal? && user.value.user.authenticated
  }

  /** Authorize: the decision for one request. A missing or
      unauthenticated user is refused with 401 and an authenticated one
      with 403. */
  function Authorize(settings: WindowsSettings, mode: AnonymousAccess, user: Option<Principal>,
                     databaseName: Option<string>, httpMethod: string, path: string, ignoreDb: bool): (r: Decision)
    requires user.None? || !user.value.OAuthPrincipal?
    ensures r == Allow <==>
      || mode == AnonAll || mode == AnonAdmin
      || (mode == AnonGet && IsGetRequest(httpMethod, path))
      || (Authenticated(user) && (user.value.user.administrator || user.value.user.backupOperator))
      || (Authenticated(user) && GrantsUnderNone(ListsOf(settings, user.value), databaseName.GetOr(SystemDatabase),
                                                 IsGetRequest(httpMethod, path), ignoreDb))
    ensures r.Deny? ==> r.status == (if Authenticated(user) then 403 else 401)
  {
    var db := databaseName.GetOr(SystemDatabase);
    var userCreated := Authenticated(user);
    var reject := if userCreated then Deny(403, "") else Deny(401, "");
    if mode == AnonNone && !userCreated then reject
    else if userCreated && (user.value.user.administrator || user.value.user.backupOperator) then Allow
    else
      var isGet := IsGetRequest(httpMethod, path);
      match mode
      case AnonAdmin => Allow
      case AnonAll => Allow
      case AnonGet =>
        if isGet then Allow
        else if userCreated && GrantsUnderNone(ListsOf(settings, user.value), db, isGet, ignoreDb) then Allow
        else reject
      case AnonNone =>
        if userCreated && GrantsUnderNone(ListsOf(settings, user.value), db, isGet, ignoreDb) then Allow
        else reject
  }

  /** In mode None a request without an authenticated user is refused. */
  lemma UnauthenticatedRefusedInNone(settings: WindowsSettings, user: Option<Principal>, databaseName: Option<string>,
                                     httpMethod: string, path: string, ignoreDb: bool)
    requires user.None? || !user.value.OAuthPrincipal?
    requires !Authenticated(user)
    ensures Authorize(settings, AnonNone, user, databaseName, httpMethod, path, ignoreDb) == Deny(401, "")
  {
  }

  /** A read-only grant on "*" admits reads but not writes in mode None. */
  lemma {:induction false} ReadOnlyWildcard(settings: WindowsSettings, u: WindowsUser, db: string, path: string)
    requires u.authenticated && !u.administrator && !u.backupOperator
    ensures
      var p := Some(WithDatabaseAccess(u, DatabaseLists([], ["*"], [])));
      && Authorize(settings, AnonNone, p, Some(db), "GET", path, false) == Allow
      && Authorize(settings, AnonNone, p, Some(db), "PUT", path, false) == Deny(403, "")
  {
    assert "*" in ["*"];
    assert !("*" in []) && !(db in []);
  }

  /** GetUser: for an authenticated user, the principal TryCreateUser
      leaves on the request. UpdateUserPrincipal keeps a principal that
      already carries database lists and replaces a Windows principal by
      one carrying the lists its granted entries classify into. A missing
      or unauthenticated user is refused with 401. */
  function GetUser(settings: WindowsSettings, user: Option<Principal>): (r: Result<Principal, Decision>)
    requires user.None? || !user.value.OAuthPrincipal?
    ensures r.Success? <==> Authenticated(user)
    ensures r.Success? ==> r.value.WithDatabaseAccess? && r.value.user == user.value.user
    ensures r.Success? && user.value.WithDatabaseAccess? ==> r.value == user.value
    ensures r.Success? && user.value.WindowsPrincipal? ==>
      r.value.lists == Classify(GrantedAccess(settings, user.value.user))
    ensures r.Failure? ==> r.error == Deny(401, "")
  {
    if Authenticated(user) then Success(WithDatabaseAccess(user.value.user, ListsOf(settings, user.value)))
    else Failure(Deny(401, ""))
  }

  /** The principal GetUser installs is kept by a later GetUser: the
      classification happens once per request. */
  lemma GetUserInstallsOnce(settings: WindowsSettings, other: WindowsSettings, user: Option<Principal>)
    requires user.None? || !user.value.OAuthPrincipal?
    requires GetUser(settings, user).Success?
    ensures GetUser(other, Some(GetUser(settings, user).value)) == GetUser(settings, user)
  {
  }

  /** GetApprovedDatabases: the admin, read-only and read-write lists in
      that order for a principal with database access, none otherwise. */
  function GetApprovedDatabases(user: Option<Principal>): (r: seq<string>)
    ensures user.None? || !user.value.WithDatabaseAccess? ==> r == []
    ensures user.Some? && user.value.WithDatabaseAccess? ==>
      var l := user.value.lists;
      && |r| == |l.admin| + |l.readOnly| + |l.readWrite|
      && r[..|l.admin|] == l.admin
      && r[|l.admin|..|l.admin| + |l.readOnly|] == l.readOnly
      && r[|l.admin| + |l.readOnly|..] == l.readWrite
  {
    if user.None? || !user.value.WithDatabaseAccess? then []
    else
      var l := user.value.lists;
      var r := l.admin + l.readOnly + l.readWrite;
      assert r[..|l.admin|] == l.admin;
      assert r[|l.admin|..|l.admin| + |l.readOnly|] == l.readOnly;
      r
  }

  /** The databases an authenticated Windows user is approved for are the
      tenants of the user's granted entries: admin grants first, then
      read-only, then read-write, as UpdateUserPrincipal files them. */
  lemma ApprovedDatabasesOfWindowsUser(settings: WindowsSettings, u: WindowsUser)
    requires u.authenticated
    ensures var g := GrantedAccess(settings, u);
      GetApprovedDatabases(Some(GetUser(settings, Some(WindowsPrincipal(u))).value))
      == Tenants(Filter(g, IsAdminAccess)) + Tenants(Filter(g, IsReadOnlyAccess)) + Tenants(Filter(g, IsReadWriteAccess))
  {
  }

  /** A user granted read-write access to one database by name is
      approved for exactly that database. */
  lemma {:induction false} GrantedDatabaseIsApproved(u: WindowsUser, db: string)
    requires u.authenticated
    ensures var settings := WindowsSettings([], [WindowsAuthData(u.name, true, [DatabaseAccess(db, false, false)])]);
      GetApprovedDatabases(Some(GetUser(settings, Some(WindowsPrincipal(u))).value)) == [db]
  {
    var a := DatabaseAccess(db, false, false);
    var d := WindowsAuthData(u.name, true, [a]);
    var settings := WindowsSettings([], [d]);
    var byName := (x: WindowsAuthData) => EqualsIgnoreCase(u.name, x.name);
    var byGroup := (x: WindowsAuthData) => x.name in u.roles;
    assert Filter([d], byName) == [d];
    assert Flatten([d]) == [a];
    assert GrantedAccess(settings, u) == [a];
    assert Filter([a], IsAdminAccess) == [];
    assert Filter([a], IsReadOnlyAccess) == [];
    assert Filter([a], IsReadWriteAccess) == [a];
  }
}
