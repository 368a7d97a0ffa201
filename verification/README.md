# RavenDB / RavenFS core rules in Dafny

This project models, as pure functions over immutable values, four parts
of RavenDB and RavenFS.

- **In-memory storage (RAM storage).** `RamState` holds the containers, with keys that compare case-insensitively. The indexing accessor keeps the per-index statistics and touch counters. The staleness oracle answers whether an index has work outstanding. The mapped-results accessor stores and deletes map and reduce rows.
- **Request authorizers.** The shared read/write rule is `AbstractRequestAuthorizer.IsGetRequest`. The Windows authorizer checks required users and groups, anonymous access modes and database access lists. The OAuth authorizer handles bearer tokens, their scope and the OAuth principal's roles. The mixed-mode authorizer routes each request between those two and issues single-use tokens that expire after 2.5 minutes.
- **HTTP helpers.**
  - The RavenFS client's multipart parser: lines, headers, the boundary parameter, and the search for the delimiter.
  - The `RavenApiController` query-string and header helpers: start, page size, etags, transaction header, highlights, query inputs.
  - The replication last-etag endpoint: GET and PUT.
  - The studio's file-size range clause builder.
- **RavenFS synchronization rules.** The file lock manager takes, releases and times out per-file synchronization locks. The conflict artifact manager creates and deletes conflict artifacts. `FoldersController.Subdirectories` lists a directory's direct subdirectories.

Collaborators whose code is not part of this model are function parameters. These include:
- Etag and GUID parsers;
- token parsing and the scope check;
- `RavenFileNameHelper` naming;
- the clock, given as `now` in ticks;
- the etag generator;
- the map-bucket function;
- the index term lookup.

Etags are naturals, with `Guid.Empty` as 0. Timestamps and `TimeSpan`s are ticks.

The corrections described under "## Findings" are each modelled twice, once as written and once as evidently intended. Where later operations depend on them, they use the corrected version. The affected members say so in their doc comments and in "## Left out".

## Model

| member | source | states |
|---|---|---|
| CaseInsensitive.Get | Raven.Database/Storage/RAM/RamState.cs:30-62 | A lookup succeeds exactly when some stored key equals the name ignoring case |
| CaseInsensitive.Set | Raven.Database/Storage/RAM/RamState.cs:30-62 | After a set the name (any spelling) maps to the value, every name not equal to it ignoring case keeps its value, and well-formedness is kept |
| CaseInsensitive.Remove | Raven.Database/Storage/RAM/RamState.cs:30-62 | After a remove no spelling of the name is found and every other name keeps its value |
| CaseInsensitive.GetOrAdd | Raven.Database/Storage/RAM/RamState.cs:44-63 | The existing value is returned with the dictionary unchanged, else the default is stored and returned; either way the name then maps to the returned value |
| CaseInsensitive.HasExactKeyIsScan | Raven.Database/Storage/RAM/RamIndexingStorageActions.cs:108-116 | The ordinal `Any(pair => pair.Key == name)` test holds exactly when the name is one of the stored spellings |
| CaseInsensitive.LookupIgnoresCase | Raven.Database/Storage/RAM/RamState.cs:30-62 | A value stored under one spelling is found under every spelling equal to it ignoring case |
| CaseInsensitive.ExactKeyIsCaseSensitive | Raven.Database/Storage/RAM/RamIndexingStorageActions.cs:108-116 | A differently cased spelling of a stored key is found by lookup but fails the exact-key scan |
| RamState.NewIndexStats | Raven.Database/Storage/RAM/RamIndexingStorageActions.cs:32-37 | New statistics carry the name, the empty etag, the minimum timestamp, zero counters, null reduce counters and no last-reduced pair |
| RamState.Initial | Raven.Database/Storage/RAM/RamState.cs:26-64 | The fresh state is well formed and knows no index statistics and no mapped results |
| RamState.GetOrAddMappedResults | Raven.Database/Storage/RAM/RamState.cs:44-46 | A view without rows gets an empty list; an existing list is returned with the state unchanged; no other container changes |
| RamState.GetOrAddReducedResults | Raven.Database/Storage/RAM/RamState.cs:47-49 | Same contract for the reduced-results container |
| RamState.GetOrAddScheduledReductions | Raven.Database/Storage/RAM/RamState.cs:50-52 | Same contract for the scheduled-reductions container |
| RamState.GetOrAddIdentity | Raven.Database/Storage/RAM/RamState.cs:62-63 | An identity counter starts at 0 on first use and is otherwise read unchanged |
| RamIndexing.LiftedAdd | Raven.Database/Storage/RAM/RamIndexingStorageActions.cs:160-162 | C#'s lifted `int? + int`: the result is null exactly when the counter is null, and otherwise grows by the delta |
| RamIndexing.HasReduce | Raven.Database/Storage/RAM/RamIndexingStorageActions.cs:169-178 | Fails exactly for an unknown index; otherwise says whether reduce statistics exist |
| RamIndexing.AddIndex | Raven.Database/Storage/RAM/RamIndexingStorageActions.cs:30-50 | The name gets fresh map statistics and a zero touch counter, plus fresh reduce statistics exactly when map-reduce is requested; every other name and container is unchanged |
| RamIndexing.DeleteIndex | Raven.Database/Storage/RAM/RamIndexingStorageActions.cs:52-69 | Statistics, reduce statistics and the three result lists of the index are gone; the touch counter is removed only when it is non-zero; nothing else changes |
| RamIndexing.DeleteIndexFixed | Raven.Database/Storage/RAM/RamIndexingStorageActions.cs:52-69 | As DeleteIndex but the touch counter is always removed |
| RamIndexing.GetFailureRate | Raven.Database/Storage/RAM/RamIndexingStorageActions.cs:71-84 | Fails exactly for an unknown index; reports the map counters, and the reduce counters when reduce statistics exist (null otherwise) |
| RamIndexing.UpdateLastIndexed | Raven.Database/Storage/RAM/RamIndexingStorageActions.cs:86-95 | Fails exactly for an unknown index; otherwise only the last-indexed etag and timestamp of that index change |
| RamIndexing.UpdateLastReduced | Raven.Database/Storage/RAM/RamIndexingStorageActions.cs:97-106 | Fails exactly when the index has no reduce statistics; otherwise only its last-indexed pair there changes |
| RamIndexing.TouchIndexEtag | Raven.Database/Storage/RAM/RamIndexingStorageActions.cs:108-116 | Fails unless a counter is stored under exactly this spelling; otherwise that counter grows by one and nothing else changes |
| RamIndexing.UpdateIndexingStats | Raven.Database/Storage/RAM/RamIndexingStorageActions.cs:118-140 | Fails exactly for an unknown index; attempts, errors and successes each grow by the work reported and every other field and index is unchanged |
| RamIndexing.UpdateIndexingStatsAdditive | Raven.Database/Storage/RAM/RamIndexingStorageActions.cs:118-140 | Two reports in a row equal one report of their sum |
| RamIndexing.UpdateReduceStats | Raven.Database/Storage/RAM/RamIndexingStorageActions.cs:142-167 | As written: without reduce statistics nothing changes; with them the map statistics of that index are overwritten by the reduce statistics plus the lifted work, every other index keeps its map statistics, and the reduce statistics stay as they were |
| RamIndexing.UpdateReduceStatsFixed | Raven.Database/Storage/RAM/RamIndexingStorageActions.cs:142-167 | Corrected: only the reduce counters of that index's reduce statistics change, each growing by the work with a null counter taken as 0; every other field and every other index is unchanged, and so are the map statistics |
| RamStaleness.MaxExists | Raven.Database/Storage/RAM/RamStalenessStorageActions.cs:115-126 | Every non-empty finite set of etags has a greatest element |
| RamStaleness.MaxOf | Raven.Database/Storage/RAM/RamStalenessStorageActions.cs:115-126 | The chosen element belongs to the set and bounds every element |
| RamStaleness.GetMostRecentDocumentEtag | Raven.Database/Storage/RAM/RamStalenessStorageActions.cs:115-126 | The empty etag without documents; otherwise an etag some document has, and no document's etag exceeds it |
| RamStaleness.GetMostRecentAttachmentEtag | Raven.Database/Storage/RAM/RamStalenessStorageActions.cs:128-136 | Same contract over attachments |
| RamStaleness.IsMapStale | Raven.Database/Storage/RAM/RamStalenessStorageActions.cs:79-90 | An unknown index is not stale; it fails exactly for a known index with no documents; otherwise it holds exactly when some document is newer than the index's last-indexed etag |
| RamStaleness.IsMapStaleFixed | Raven.Database/Storage/RAM/RamStalenessStorageActions.cs:79-90 | Holds exactly when the index is known and some document is newer than what it indexed |
| RamStaleness.IsReduceStale | Raven.Database/Storage/RAM/RamStalenessStorageActions.cs:74-77 | Holds exactly when scheduled reductions are stored under this exact spelling of the name |
| RamStaleness.LatestTask | Raven.Database/Storage/RAM/RamStalenessStorageActions.cs:55-63 | No task exactly when none is queued; otherwise the queued task with the greatest id |
| RamStaleness.TaskRule | Raven.Database/Storage/RAM/RamStalenessStorageActions.cs:55-71 | Stale through tasks exactly when a task is queued and, with a cutoff, the latest was added no later than it |
| RamStaleness.Decide | Raven.Database/Storage/RAM/RamStalenessStorageActions.cs:16-72 | Stale exactly when there is a map or reduce backlog that the cutoff admits, or the task rule fires |
| RamStaleness.IsIndexStale | Raven.Database/Storage/RAM/RamStalenessStorageActions.cs:16-72 | An unknown index is not stale; fails exactly when a known index is asked about with no documents; otherwise backlog admitted by the cutoff, or the task rule |
| RamStaleness.IsIndexStaleFixed | Raven.Database/Storage/RAM/RamStalenessStorageActions.cs:16-72 | Corrected oracle: never fails, same backlog-or-task characterisation |
| RamStaleness.IsIndexStaleFixedAgrees | Raven.Database/Storage/RAM/RamStalenessStorageActions.cs:16-72 | Wherever the original answers, the corrected oracle gives the same answer |
| RamStaleness.StaleMonotoneInCutoffTime | Raven.Database/Storage/RAM/RamStalenessStorageActions.cs:27-71 | A later cutoff time never makes a stale index fresh |
| RamStaleness.StaleMonotoneInCutoffEtag | Raven.Database/Storage/RAM/RamStalenessStorageActions.cs:42-48 | Without a cutoff time, a greater cutoff etag never makes a stale index fresh |
| RamStaleness.IndexLastUpdatedAt | Raven.Database/Storage/RAM/RamStalenessStorageActions.cs:92-113 | Unknown index fails; a map-only index gives its last-indexed pair; a map-reduce index fails exactly when its last-reduced pair is null |
| RamStaleness.IndexLastUpdatedAtFixed | Raven.Database/Storage/RAM/RamStalenessStorageActions.cs:92-113 | Never fails for a known index; a map-reduce index gives the pair UpdateLastReduced writes |
| RamStaleness.GetIndexTouchCount | Raven.Database/Storage/RAM/RamStalenessStorageActions.cs:143-150 | -1 for an unknown index, else the statistics' touch count |
| RamStaleness.GetIndexTouchCountFixed | Raven.Database/Storage/RAM/RamStalenessStorageActions.cs:143-150 | -1 for an unknown index, else the counter TouchIndexEtag maintains (0 when absent) |
| RamMappedResults.PutMappedResult | Raven.Database/Storage/RAM/RamMappedResultStrageAction.cs:22-44 | The view's list gains exactly one row at its end, for this document, key, bucket and etag; every other view is unchanged |
| RamMappedResults.PutReducedResult | Raven.Database/Storage/RAM/RamMappedResultStrageAction.cs:213-233 | The view's list gains one document-less row at the given level and bucket; every other view is unchanged |
| RamMappedResults.DeleteMappedResultsForDocumentId | Raven.Database/Storage/RAM/RamMappedResultStrageAction.cs:46-66 | An unknown view changes nothing; otherwise the kept rows are the rows of other documents in their original order and multiplicity, and the removed set grows by the key and bucket of each deleted row |
| RamMappedResults.DeleteMappedResultsForView | Raven.Database/Storage/RAM/RamMappedResultStrageAction.cs:68-87 | The view's rows are gone and every other view keeps its rows |
| RamMappedResults.DebugRows | Raven.Database/Storage/RAM/RamMappedResultStrageAction.cs:151-164 | One debug row per stored row, in order |
| RamMappedResults.GetMappedResultsForDebug | Raven.Database/Storage/RAM/RamMappedResultStrageAction.cs:144-191 | Fails exactly for an unknown view; returns the first `take` rows with the asked reduce key, each copying its bucket, size, timestamp and etag, with its document as source and the loaded data |
| RamMappedResults.GetMappedResultsReduceKeysAfter | Raven.Database/Storage/RAM/RamMappedResultStrageAction.cs:89-142 | As written: fails exactly for an unknown view, and otherwise always returns nothing |
| RamMappedResults.CollectByKey | Raven.Database/Storage/RAM/RamMappedResultStrageAction.cs:97-112 | The keys are exactly the selected rows' reduce keys, and the last row decides its key's entry |
| RamMappedResults.CollectByKeyLastWins | Raven.Database/Storage/RAM/RamMappedResultStrageAction.cs:97-112 | A row whose key no later row repeats is the entry kept for that key |
| RamMappedResults.GetMappedResultsReduceKeysAfterFixed | Raven.Database/Storage/RAM/RamMappedResultStrageAction.cs:89-142 | Corrected: fails exactly for an unknown view; the result is empty exactly when no row is selected, and its keys are the selected rows' reduce keys |
| StorageScenarios.AddIndexThenFailureRate | Raven.Database/Storage/RAM/RamIndexingStorageActions.cs:30-84 | A new map index reports zero attempts and null reduce counters |
| StorageScenarios.DeletedIndexIsUnknown | Raven.Database/Storage/RAM/RamStalenessStorageActions.cs:18-21 | After deletion the failure rate fails and the index is never stale |
| StorageScenarios.IndexedUpToLatestIsNotStale | Raven.Database/Storage/RAM/RamStalenessStorageActions.cs:16-90 | An index that indexed up to the newest document, with no reduce side and no tasks, is not stale |
| StorageScenarios.BehindDocumentIsStale | Raven.Database/Storage/RAM/RamStalenessStorageActions.cs:79-90 | An index behind some document is stale when asked without a cutoff, in both versions |
| StorageScenarios.SplitOffNewRow | Raven.Database/Storage/RAM/RamMappedResultStrageAction.cs:46-66 | A row appended after rows of other documents is exactly what deletion for its document removes |
| StorageScenarios.PutThenDeleteRestores | Raven.Database/Storage/RAM/RamMappedResultStrageAction.cs:22-66 | Putting a row for a document new to the view and deleting the document's rows restores the view and reports only that row's key and bucket |
| StorageScenarios.DeleteForDocumentIdempotent | Raven.Database/Storage/RAM/RamMappedResultStrageAction.cs:46-66 | Deleting a document's rows twice is deleting them once, and the second pass reports nothing |
| StorageScenarios.DeleteForViewIsolated | Raven.Database/Storage/RAM/RamMappedResultStrageAction.cs:68-87 | Deleting one view leaves every other view's rows alone |
| StorageScenarios.UpdateReduceStatsReplacesMapCounters | Raven.Database/Storage/RAM/RamIndexingStorageActions.cs:142-167 | As written, after a reduce report the map counters read back are the reduce statistics' counters |
| StorageScenarios.UpdateReduceStatsLosesMapCounters | Raven.Database/Storage/RAM/RamIndexingStorageActions.cs:151 | One counted map attempt is lost by the next reduce report, and the reduce counters stay null |
| StorageScenarios.UpdateReduceStatsFixedKeepsMapCounters | Raven.Database/Storage/RAM/RamIndexingStorageActions.cs:142-167 | Corrected, map counters survive and the reduce counters grow by the reported work |
| StorageScenarios.TouchCountNeverMoves | Raven.Database/Storage/RAM/RamStalenessStorageActions.cs:143-150 | As written, touching an index leaves its reported touch count at 0 |
| StorageScenarios.TouchCountFixedCounts | Raven.Database/Storage/RAM/RamStalenessStorageActions.cs:143-150 | Corrected, each touch adds one to the reported count |
| StorageScenarios.DeleteIndexKeepsTouchCounter | Raven.Database/Storage/RAM/RamIndexingStorageActions.cs:58-60 | As written, a never-touched deleted index can still be touched |
| StorageScenarios.DeleteIndexFixedForgetsTouch | Raven.Database/Storage/RAM/RamIndexingStorageActions.cs:52-69 | Corrected, touching a deleted index fails |
| StorageScenarios.IndexLastUpdatedAtFailsAfterReduce | Raven.Database/Storage/RAM/RamStalenessStorageActions.cs:104 | As written, a map-reduce index's last update cannot be read even after UpdateLastReduced |
| StorageScenarios.UpdateLastReducedThenLastUpdated | Raven.Database/Storage/RAM/RamStalenessStorageActions.cs:92-113 | Corrected, a map-reduce index reports the pair UpdateLastReduced wrote |
| StorageScenarios.UpdateLastIndexedThenLastUpdated | Raven.Database/Storage/RAM/RamStalenessStorageActions.cs:92-113 | A map-only index reports the pair UpdateLastIndexed wrote, in both versions |
| StorageScenarios.StalenessFailsWithoutDocuments | Raven.Database/Storage/RAM/RamStalenessStorageActions.cs:88 | As written, asking about a new index in a store with no documents fails |
| StorageScenarios.NoDocumentsNoTasksNotStale | Raven.Database/Storage/RAM/RamStalenessStorageActions.cs:16-90 | Corrected, an index with no documents to index and no task is not stale |
| StorageScenarios.ReduceKeysAfterReturnsNothing | Raven.Database/Storage/RAM/RamMappedResultStrageAction.cs:99 | As written, a row just put is never returned |
| StorageScenarios.ReduceKeysAfterFixedReturnsPut | Raven.Database/Storage/RAM/RamMappedResultStrageAction.cs:89-142 | Corrected, a row put at the asked etag is returned under its reduce key |
| Authorization.IsGetRequest | RavenDB/Server/Raven.Database/Server/Security/AbstractRequestAuthorizer.cs:28-32 | Only GET, HEAD and POST can read; GET and HEAD always read; a POST reads exactly on "/multi_get/" and "/multi_get" |
| Authorization.PathMattersOnlyForPost | RavenDB/Server/Raven.Database/Server/Security/AbstractRequestAuthorizer.cs:28-32 | For every method but POST the answer is the same on every path |
| Authorization.LowerCaseGetIsWrite | RavenDB/Server/Raven.Database/Server/Security/AbstractRequestAuthorizer.cs:28-32 | The method comparison is case-sensitive: "get" is a write |
| Authorization.TenantsAppend | RavenDB/Server/Raven.Database/Server/Security/Windows/WindowsRequestAuthorizer.cs:209-221 | Tenant ids of a concatenation are the concatenation of tenant ids |
| WindowsAuth.EnabledOnly | RavenDB/Server/Raven.Database/Server/Security/Windows/WindowsRequestAuthorizer.cs:55-60 | Exactly the enabled entries are kept |
| WindowsAuth.UpdateSettings | RavenDB/Server/Raven.Database/Server/Security/Windows/WindowsRequestAuthorizer.cs:36-61 | A missing or unreadable document gives empty lists; a missing list gives an empty list; only enabled users and groups are kept |
| WindowsAuth.GrantedAccess | RavenDB/Server/Raven.Database/Server/Security/Windows/WindowsRequestAuthorizer.cs:144-148 | An access entry is granted exactly when it belongs to a required user with the user's name or a required group the user is in |
| WindowsAuth.Flatten | RavenDB/Server/Raven.Database/Server/Security/Windows/WindowsRequestAuthorizer.cs:144-148 | An entry is in the flattening exactly when some user or group lists it |
| WindowsAuth.FlattenFilterMembers | RavenDB/Server/Raven.Database/Server/Security/Windows/WindowsRequestAuthorizer.cs:144-148 | Flattening the users that pass a filter yields exactly their entries |
| WindowsAuth.Classify | RavenDB/Server/Raven.Database/Server/Security/Windows/WindowsRequestAuthorizer.cs:192-200 | A tenant is in the admin list exactly when some entry grants it admin; in the read-only list exactly when some non-admin entry is read-only; in the read-write list exactly when some entry is neither |
| WindowsAuth.TenantsOfFilterMembers | RavenDB/Server/Raven.Database/Server/Security/Windows/WindowsRequestAuthorizer.cs:192-200 | The tenants collected from the entries that pass a test are exactly the tenants of passing entries |
| WindowsAuth.ClassifyIsPartition | RavenDB/Server/Raven.Database/Server/Security/Windows/WindowsRequestAuthorizer.cs:192-200 | Every access entry lands in exactly one of the admin, read-only and read-write lists |
| WindowsAuth.ClassifyStep | RavenDB/Server/Raven.Database/Server/Security/Windows/WindowsRequestAuthorizer.cs:192-200 | One more entry appends its tenant to exactly the list its flags select |
| WindowsAuth.UpdateUserPrincipal | RavenDB/Server/Raven.Database/Server/Security/Windows/WindowsRequestAuthorizer.cs:184-206 | A principal already carrying lists keeps them; a Windows principal gets the admin-first classification of its access entries |
| WindowsAuth.Authorize | RavenDB/Server/Raven.Database/Server/Security/Windows/WindowsRequestAuthorizer.cs:63-119 | Allowed exactly when the anonymous mode admits it, the user is an administrator or backup operator, or the user's lists grant the database for this kind of request; a refusal is 401 without an authenticated user and 403 with one |
| WindowsAuth.UnauthenticatedRefusedInNone | RavenDB/Server/Raven.Database/Server/Security/Windows/WindowsRequestAuthorizer.cs:68-72 | In mode None a request without an authenticated user is refused with 401 |
| WindowsAuth.ReadOnlyWildcard | RavenDB/Server/Raven.Database/Server/Security/Windows/WindowsRequestAuthorizer.cs:100-116 | A read-only grant on "*" admits reads of any database and refuses writes with 403 |
| WindowsAuth.GetUser | RavenDB/Server/Raven.Database/Server/Security/Windows/WindowsRequestAuthorizer.cs:228-236 | An authenticated user gets the principal UpdateUserPrincipal leaves on the request: one already carrying lists is returned as it is, a Windows principal comes back carrying the classification of its granted entries; a missing or unauthenticated user is refused with 401 |
| WindowsAuth.GetUserInstallsOnce | RavenDB/Server/Raven.Database/Server/Security/Windows/WindowsRequestAuthorizer.cs:184-188 | Asking again with the returned principal gives it back unchanged, whatever the settings: the lists are computed once |
| WindowsAuth.ApprovedDatabasesOfWindowsUser | RavenDB/Server/Raven.Database/Server/Security/Windows/WindowsRequestAuthorizer.cs:184-221 | The databases approved for an authenticated Windows user are the tenants of its admin grants, then its read-only grants, then its read-write grants |
| WindowsAuth.GrantedDatabaseIsApproved | RavenDB/Server/Raven.Database/Server/Security/Windows/WindowsRequestAuthorizer.cs:144-149 | A user granted read-write access to one database under its own name is approved for exactly that database |
| WindowsAuth.GetApprovedDatabases | RavenDB/Server/Raven.Database/Server/Security/Windows/WindowsRequestAuthorizer.cs:209-221 | The admin, read-only and read-write lists concatenated for a principal that carries them, else nothing |
| OAuthAuth.GetToken | RavenDB/Server/Raven.Database/Server/Security/OAuth/OAuthRequestAuthorizer.cs:94-112 | No header and no cookie give no token; a token returned is what follows the "Bearer " prefix (any case) of the header, or else of the unescaped cookie |
| OAuthAuth.GetTokenRoundTrip | RavenDB/Server/Raven.Database/Server/Security/OAuth/OAuthRequestAuthorizer.cs:94-112 | A non-empty token sent as "Bearer <token>" or "bearer <token>", or in the cookie, comes back unchanged |
| OAuthAuth.GetTokenHeaderWins | RavenDB/Server/Raven.Database/Server/Security/OAuth/OAuthRequestAuthorizer.cs:98-104 | When the header is present the cookie is never read |
| OAuthAuth.GetTokenRejectsBarePrefix | RavenDB/Server/Raven.Database/Server/Security/OAuth/OAuthRequestAuthorizer.cs:105-107 | A bare "Bearer " prefix yields no token |
| OAuthAuth.Authorize | RavenDB/Server/Raven.Database/Server/Security/OAuth/OAuthRequestAuthorizer.cs:17-79 | A principal is installed exactly for a readable, unexpired token with the needed scope; without anonymous admission each failing step gives its status and error code (412/401 invalid_request, 401 invalid_token, 403 insufficient_scope unless the database check is waived) |
| OAuthAuth.AuthorizeAllowsExactly | RavenDB/Server/Raven.Database/Server/Security/OAuth/OAuthRequestAuthorizer.cs:17-79 | Allowed exactly when the mode admits the request anonymously, the token is valid for it, or only the scope fails and the database check is waived |
| OAuthAuth.GetUser | RavenDB/Server/Raven.Database/Server/Security/OAuth/OAuthRequestAuthorizer.cs:140-160 | A principal exactly for a readable token; otherwise 401 invalid_token for a present token and 401 or 412 for a missing one |
| OAuthAuth.AnyAdminFor | RavenDB/Server/Raven.Database/Server/Security/OAuth/OAuthRequestAuthorizer.cs:174-185 | Holds exactly when some entry is an admin grant for the tenant or for "*" |
| OAuthAuth.IsInRole | RavenDB/Server/Raven.Database/Server/Security/OAuth/OAuthRequestAuthorizer.cs:174-185 | A role other than "Administrators" (any case) is never held |
| OAuthAuth.WildcardAdminIsAdministrator | RavenDB/Server/Raven.Database/Server/Security/OAuth/OAuthRequestAuthorizer.cs:174-185 | An admin grant on "*" makes the principal an administrator of every tenant |
| OAuthAuth.GetApprovedDatabases | RavenDB/Server/Raven.Database/Server/Security/OAuth/OAuthRequestAuthorizer.cs:81-87 | The tenant of each access entry of an OAuth principal, in order; nothing for any other principal |
| MixedModeAuth.AuthorizeSingleUse | RavenDB/Server/Raven.Database/Server/Security/MixedModeRequestAuthorizer.cs:86-125 | The token is always taken out of the store and nothing else is; allowed exactly when it was known, issued for this database (ignoring case) and at most 2.5 minutes old, in which case its user is installed; refusals are 403 |
| MixedModeAuth.SingleUseTokenWorksOnce | RavenDB/Server/Raven.Database/Server/Security/MixedModeRequestAuthorizer.cs:89-97 | A second use of the same token is refused |
| MixedModeAuth.UsesOAuth | RavenDB/Server/Raven.Database/Server/Security/MixedModeRequestAuthorizer.cs:75-79 | A request with the OAuth cookie, or with an API-key header reading "True" in any case, goes to OAuth; without either it goes to OAuth exactly when its Authorization header starts with "Bearer " |
| MixedModeAuth.LowerCaseBearerGoesToWindows | RavenDB/Server/Raven.Database/Server/Security/MixedModeRequestAuthorizer.cs:75-79 | The routing test is case-sensitive: "bearer …" goes to the Windows authorizer |
| MixedModeAuth.Authorize | RavenDB/Server/Raven.Database/Server/Security/MixedModeRequestAuthorizer.cs:63-84 | Never-secret URLs pass untouched; a non-empty single-use token decides alone and is consumed; otherwise the decision is the OAuth or the Windows authorizer's, as routed, and the store is unchanged |
| MixedModeAuth.GetUser | RavenDB/Server/Raven.Database/Server/Security/MixedModeRequestAuthorizer.cs:127-138 | The user comes from the authorizer the request is routed to; on the Windows side it is the principal carrying the classified database lists |
| MixedModeAuth.GetApprovedDatabases | RavenDB/Server/Raven.Database/Server/Security/MixedModeRequestAuthorizer.cs:140-149 | The approved databases come from the authorizer the Authorization header routes to |
| MixedModeAuth.TryAdd | RavenDB/Server/Raven.Database/Server/Security/MixedModeRequestAuthorizer.cs:167 | The key is added when new; existing entries are never overwritten |
| MixedModeAuth.KeepOnly | RavenDB/Server/Raven.Database/Server/Security/MixedModeRequestAuthorizer.cs:169-176 | Exactly the entries satisfying the predicate remain, unchanged |
| MixedModeAuth.GenerateSingleUseAuthToken | RavenDB/Server/Raven.Database/Server/Security/MixedModeRequestAuthorizer.cs:157-179 | As written: the token is added unless its key exists; with at most 25 tokens after adding, the store is exactly that; past 25, exactly the tokens not generated more than five minutes after now remain, unchanged |
| MixedModeAuth.GenerateKeepsEveryPastToken | RavenDB/Server/Raven.Database/Server/Security/MixedModeRequestAuthorizer.cs:171 | As written, cleanup never removes a token generated in the past |
| MixedModeAuth.ExpiredTokensSurviveCleanup | RavenDB/Server/Raven.Database/Server/Security/MixedModeRequestAuthorizer.cs:171 | A full store of tokens ten minutes old keeps all of them |
| MixedModeAuth.GenerateSingleUseAuthTokenFixed | RavenDB/Server/Raven.Database/Server/Security/MixedModeRequestAuthorizer.cs:157-179 | Corrected: the new token is stored, tokens at most five minutes old survive, and past the threshold older ones are dropped |
| MixedModeAuth.ExpiredTokensRemovedByFixedCleanup | RavenDB/Server/Raven.Database/Server/Security/MixedModeRequestAuthorizer.cs:167-176 | Corrected cleanup of a full store of expired tokens leaves only the new token |
| MultiPartParser.Decode | RavenFS/RavenFS.Client/MultiPartParser.cs:82 | `(char)b` for each byte: same length, same code points |
| MultiPartParser.Latin1 | RavenFS/RavenFS.Client/MultiPartParser.cs:82 | The byte string decoding to a one-byte-per-character string: decode inverts it |
| MultiPartParser.Utf8Char | RavenFS/RavenFS.Client/MultiPartParser.cs:26 | One to four bytes per character, one exactly for ASCII, which encodes as itself |
| MultiPartParser.Utf8OfAscii | RavenFS/RavenFS.Client/MultiPartParser.cs:26 | An ASCII string's UTF-8 bytes are its one-byte encoding |
| MultiPartParser.ReadLine | RavenFS/RavenFS.Client/MultiPartParser.cs:64-87 | No line exactly when there is no LF (the rest is then consumed); otherwise the decoded bytes before the first LF, one trailing CR dropped, and the input after that LF |
| MultiPartParser.ReadLineRoundTrip | RavenFS/RavenFS.Client/MultiPartParser.cs:64-87 | A line written with CRLF, or with LF when it does not end in CR, is read back with the rest unchanged |
| MultiPartParser.ReadHeaderLines | RavenFS/RavenFS.Client/MultiPartParser.cs:48-60 | Reading stops at the first empty line or end of input without adding a header there; what is left is a suffix of the input; the only failure is a line without ": " |
| MultiPartParser.ReadHeaders | RavenFS/RavenFS.Client/MultiPartParser.cs:44-62 | What is left is a suffix of the input; the only failure is a header line without ": " |
| MultiPartParser.ReadHeaderLineStep | RavenFS/RavenFS.Client/MultiPartParser.cs:50-58 | A "name: value" line is stored under its name, with the value keeping the space, and reading goes on after it |
| MultiPartParser.ReadHeaderLinesEnd | RavenFS/RavenFS.Client/MultiPartParser.cs:50-52 | An empty line ends the headers and leaves the rest of the stream |
| MultiPartParser.ReadHeaderLinesRoundTrip | RavenFS/RavenFS.Client/MultiPartParser.cs:48-60 | Any number of header lines written with CRLF and ended by an empty line read back as those headers, stored in order, with the rest of the stream left unread |
| MultiPartParser.ReadHeadersRoundTrip | RavenFS/RavenFS.Client/MultiPartParser.cs:44-62 | After a boundary line, a header block reads back into a fresh collection as exactly its headers |
| MultiPartParser.HeaderLineSplits | RavenFS/RavenFS.Client/MultiPartParser.cs:54-58 | A "name: value" line splits at its first ": " into the name and a value keeping the space |
| MultiPartParser.GetParameter | RavenFS/RavenFS.Client/MultiPartParser.cs:110-129 | As written: no attribute or nothing after it gives none; a quoted value is the text between the quotes; an unquoted one is the rest of the header when no space follows, and otherwise the text from one past its start up to the next space |
| MultiPartParser.GetParameterDropsFirstCharacter | RavenFS/RavenFS.Client/MultiPartParser.cs:128 | As written, an unquoted value followed by a space loses its first character |
| MultiPartParser.BoundaryExample | RavenFS/RavenFS.Client/MultiPartParser.cs:128 | "; boundary=ab c" yields "b" as written and "ab" corrected |
| MultiPartParser.GetParameterFixed | RavenFS/RavenFS.Client/MultiPartParser.cs:110-129 | Corrected: none without the attribute or a value; an unquoted value is non-empty and holds no space after its first character; a quoted value holds no quote |
| MultiPartParser.FixedValueAt | RavenFS/RavenFS.Client/MultiPartParser.cs:116-128 | At a known attribute position the corrected value is the quoted text, the text up to the next space, or the rest of the header |
| MultiPartParser.GetParameterFixedUnquoted | RavenFS/RavenFS.Client/MultiPartParser.cs:120-128 | An unquoted value followed by a space is read back whole |
| MultiPartParser.GetParameterFixedUnquotedAtEnd | RavenFS/RavenFS.Client/MultiPartParser.cs:120-128 | An unquoted value ending the header is read back whole |
| MultiPartParser.GetParameterFixedQuoted | RavenFS/RavenFS.Client/MultiPartParser.cs:120-128 | A quoted value is read back without its quotes |
| MultiPartParser.BoundaryParameter | RavenFS/RavenFS.Client/MultiPartParser.cs:21-24 | A missing Content-Type is an error; otherwise the boundary parameter of the header |
| MultiPartParser.Delimiter | RavenFS/RavenFS.Client/MultiPartParser.cs:26 | The delimiter starts with "--" |
| MultiPartParser.Create | RavenFS/RavenFS.Client/MultiPartParser.cs:18-27 | Header errors propagate; a created parser's delimiter starts with "--" |
| MultiPartParser.ScanBoundary | RavenFS/RavenFS.Client/MultiPartParser.cs:89-107 | A position reported by the scan ends a real occurrence of the delimiter |
| MultiPartParser.ReadUntilBoundary | RavenFS/RavenFS.Client/MultiPartParser.cs:89-107 | As written: when it reports a delimiter, the rest is what follows some real occurrence; otherwise the input is consumed |
| MultiPartParser.ReadUntilBoundaryMissesOverlap | RavenFS/RavenFS.Client/MultiPartParser.cs:101-104 | "---a" with delimiter "--a" is missed as written and found when corrected |
| MultiPartParser.ReadUntilBoundaryFixed | RavenFS/RavenFS.Client/MultiPartParser.cs:89-107 | Corrected: succeeds exactly when the delimiter occurs, leaving what follows its first occurrence |
| MultiPartParser.ReadUntilBoundarySound | RavenFS/RavenFS.Client/MultiPartParser.cs:89-107 | Whatever the scan as written finds, the corrected search finds too |
| MultiPartParser.Next | RavenFS/RavenFS.Client/MultiPartParser.cs:29-42 | No delimiter ends the parse; a returned part comes from the input after a delimiter; the boundary is kept and the input never grows |
| MultiPartParser.NextFindsFilePart | RavenFS/RavenFS.Client/MultiPartParser.cs:29-42 | A part with a filename right after the first delimiter is the one returned, with the parser positioned after its headers |
| ApiQuery.GetQueryStringValue | RavenDB/Server/Raven.Database/Server/Controllers/RavenApiController.cs:125-128 | None exactly when no pair has the key; otherwise the value of the first pair with the key |
| ApiQuery.GetQueryStringValues | RavenDB/Server/Raven.Database/Server/Controllers/RavenApiController.cs:130-133 | The values of the pairs with the key, one per pair, in query order and with repeats kept |
| ApiQuery.GetQueryStringValuesAppend | RavenDB/Server/Raven.Database/Server/Controllers/RavenApiController.cs:130-133 | The values of two query strings in a row are those of the first followed by those of the second |
| ApiQuery.GetQueryStringValuesOfPair | RavenDB/Server/Raven.Database/Server/Controllers/RavenApiController.cs:130-133 | One pair contributes its value exactly when its key is the key asked for |
| ApiQuery.ValueIsFirstOfValues | RavenDB/Server/Raven.Database/Server/Controllers/RavenApiController.cs:125-133 | The single value is the first of the values, none when there are none |
| ApiQuery.GetStart | RavenDB/Server/Raven.Database/Server/Controllers/RavenApiController.cs:91-96 | Never negative: the parsed "start" clamped at 0, or 0 when missing or unparsable |
| ApiQuery.GetStartRoundTrip | RavenDB/Server/Raven.Database/Server/Controllers/RavenApiController.cs:91-96 | A non-negative 32-bit start written in decimal is read back |
| ApiQuery.GetPageSize | RavenDB/Server/Raven.Database/Server/Controllers/RavenApiController.cs:98-106 | Never above the maximum: the parsed "pageSize", or 25 when it is missing, unparsable or negative, then capped |
| ApiQuery.GetPageSizeHonoursRequest | RavenDB/Server/Raven.Database/Server/Controllers/RavenApiController.cs:98-106 | A page size within the cap is honoured; a missing one gives 25 or the cap |
| ApiQuery.EtagHeaderToEtag | RavenDB/Server/Raven.Database/Server/Controllers/RavenApiController.cs:113-123 | An absent or empty "If-None-Match" value is the invalid etag, a value starting with a quote loses its first and last characters before parsing, a lone quote fails, and an unparsable value is an error |
| ApiQuery.EtagHeaderRoundTrip | RavenDB/Server/Raven.Database/Server/Controllers/RavenApiController.cs:113-123 | An etag sent quoted, or bare when it does not start with a quote, is read back as its parse |
| ApiQuery.QuotedIsStartsAndEnds | RavenDB/Server/Raven.Database/Server/Controllers/RavenApiController.cs:438 | A value counts as quoted exactly when it starts and ends with a quote |
| ApiQuery.GetEtag | RavenDB/Server/Raven.Database/Server/Controllers/RavenApiController.cs:432-447 | If-None-Match wins over If-Match; no header gives no etag; a lone quote fails the Substring call; otherwise the result is the parse of the header with its quotes stripped when it is quoted, and a value that does not parse is a bad request |
| ApiQuery.GetEtagBare | RavenDB/Server/Raven.Database/Server/Controllers/RavenApiController.cs:432-447 | An etag sent bare in either header, not itself wrapped in quotes, is read as it is, or refused as a bad request when it does not parse |
| ApiQuery.GetEtagUnquotes | RavenDB/Server/Raven.Database/Server/Controllers/RavenApiController.cs:432-447 | A quoted etag in either header is read without its quotes |
| ApiQuery.GetRequestTransaction | RavenDB/Server/Raven.Database/Server/Controllers/RavenApiController.cs:145-160 | No or empty header means no transaction; otherwise exactly two non-empty parts separated by ", " with a parseable timeout, else an error; the id never holds ", " |
| ApiQuery.PartsHaveNoSeparator | RavenDB/Server/Raven.Database/Server/Controllers/RavenApiController.cs:152 | The non-empty parts of the split are free of the separator |
| ApiQuery.GetRequestTransactionRoundTrip | RavenDB/Server/Raven.Database/Server/Controllers/RavenApiController.cs:145-160 | "<id>, <timeout>" is read back as that id and the parsed timeout |
| ApiQuery.SplitTwo | RavenDB/Server/Raven.Database/Server/Controllers/RavenApiController.cs:152 | Splitting "<a>, <b>" on ", " gives a and b when neither holds the separator |
| ApiQuery.FieldsOf | RavenDB/Server/Raven.Database/Server/Controllers/RavenApiController.cs:265-273 | The set of field names is exactly those of the highlights |
| ApiQuery.ParseHighlights | RavenDB/Server/Raven.Database/Server/Controllers/RavenApiController.cs:264-280 | Succeeds exactly when every value parses and no field repeats, giving the parses in order; otherwise a bad request |
| ApiQuery.GetHighlightedFields | RavenDB/Server/Raven.Database/Server/Controllers/RavenApiController.cs:262-281 | The parsed "highlight" values in order, or a bad request as above |
| ApiQuery.InputKeyNames | RavenDB/Server/Raven.Database/Server/Controllers/RavenApiController.cs:286-294 | A key names input k exactly when it is "qp-" followed by k |
| ApiQuery.NamesFromMeaning | RavenDB/Server/Raven.Database/Server/Controllers/RavenApiController.cs:286-294 | k is named from a position on exactly when a later key is "qp-" + k |
| ApiQuery.CollectInputs | RavenDB/Server/Raven.Database/Server/Controllers/RavenApiController.cs:286-294 | The loop adds exactly the named inputs, each with its first value |
| ApiQuery.ExtractQueryInputs | RavenDB/Server/Raven.Database/Server/Controllers/RavenApiController.cs:283-296 | The inputs are exactly the names of the "qp-" keys, each mapped to the first value of its key |
| ReplicationLastEtag.TrimTrailingSlashes | RavenDB/Server/Raven.Database/Bundles/Replication/Controllers/ReplicationLastEtagController.cs:32-33 | A prefix of the source that does not end in '/', with only '/' cut off |
| ReplicationLastEtag.TrimTrailingSlashesRoundTrip | RavenDB/Server/Raven.Database/Bundles/Replication/Controllers/ReplicationLastEtagController.cs:32-33 | Any number of slashes appended to a source without one is trimmed back to it |
| ReplicationLastEtag.TrimTrailingSlashesIdempotent | RavenDB/Server/Raven.Database/Bundles/Replication/Controllers/ReplicationLastEtagController.cs:32-33 | Trimming twice is trimming once |
| ReplicationLastEtag.CheckRequest | RavenDB/Server/Raven.Database/Bundles/Replication/Controllers/ReplicationLastEtagController.cs:22-38 | A dbid equal to this database's id is refused; otherwise failure exactly when "from" is missing, empty or only slashes; the source is "from" without its trailing slashes |
| ReplicationLastEtag.LastEtagGet | RavenDB/Server/Raven.Database/Bundles/Replication/Controllers/ReplicationLastEtagController.cs:20-68 | Fails exactly when the checks fail; the record stored under any letter-case spelling of the source's key, with this database's id, or a record holding only the source when there is none |
| ReplicationLastEtag.ParseOptionalEtag | RavenDB/Server/Raven.Database/Bundles/Replication/Controllers/ReplicationLastEtagController.cs:97-113 | An etag exactly when the value is present and parses |
| ReplicationLastEtag.LastEtagPut | RavenDB/Server/Raven.Database/Bundles/Replication/Controllers/ReplicationLastEtagController.cs:71-151 | Fails exactly when the checks fail; the document is looked up ignoring letter case; a new record takes the supplied etags or Empty; a stored one keeps its source, its metadata and each etag not supplied; the server id is the parsed dbid else this database's; the expected etag is the stored document's or Empty |
| ReplicationLastEtag.ApplyPut | RavenDB/Server/Raven.Database/Bundles/Replication/Controllers/ReplicationLastEtagController.cs:147 | Every letter-case spelling of the key reads the new document; no second document is added for a recased key; documents under keys differing other than by case are unchanged |
| ReplicationLastEtag.SourceKeyIgnoresCase | RavenDB/Server/Raven.Database/Bundles/Replication/Controllers/ReplicationLastEtagController.cs:42 | Sources equal ignoring case give document keys equal ignoring case |
| ReplicationLastEtag.RecasedSourceSharesRecord | RavenDB/Server/Raven.Database/Bundles/Replication/Controllers/ReplicationLastEtagController.cs:42-59 | A source differing from a recorded one only in letter case reads that record, and its PUT expects the stored etag, keeps the metadata and overwrites that one document |
| ReplicationLastEtag.PutThenGet | RavenDB/Server/Raven.Database/Bundles/Replication/Controllers/ReplicationLastEtagController.cs:20-151 | A GET after a PUT from the same source reads back the etags the PUT recorded |
| ReplicationLastEtag.PutWithoutEtagsKeepsRecord | RavenDB/Server/Raven.Database/Bundles/Replication/Controllers/ReplicationLastEtagController.cs:119-138 | A PUT supplying no etag keeps a stored record's etags |
| ReplicationLastEtag.TrailingSlashesShareRecord | RavenDB/Server/Raven.Database/Bundles/Replication/Controllers/ReplicationLastEtagController.cs:27-38 | Sources differing only in trailing slashes address the same record |
| FileLock.ReplicationTimeout | RavenFS/Synchronization/FileLockManager.cs:13-21 | The configured timeout when one is stored, else ten minutes |
| FileLock.LockOf | RavenFS/Synchronization/FileLockManager.cs:46-47 | A lock exactly when the file's lock name holds a lock record |
| FileLock.Lock | RavenFS/Synchronization/FileLockManager.cs:23-34 | The file then holds a lock by this server taken now; only its lock entry is added or replaced |
| FileLock.Unlock | RavenFS/Synchronization/FileLockManager.cs:36-40 | The file's lock entry is gone and nothing else changes |
| FileLock.TimeoutExceeded | RavenFS/Synchronization/FileLockManager.cs:42-59 | True without a lock; otherwise exactly when more than the timeout has passed since locking |
| FileLock.LockLapsesAfterTimeout | RavenFS/Synchronization/FileLockManager.cs:23-50 | A lock taken at some time has lapsed exactly when more than the timeout has passed since |
| FileLock.FreshLockHolds | RavenFS/Synchronization/FileLockManager.cs:23-50 | A lock has not lapsed at the moment it is taken |
| FileLock.UnlockedHasTimedOut | RavenFS/Synchronization/FileLockManager.cs:36-50 | An unlocked file counts as timed out |
| FileLock.LockIsPerFile | RavenFS/Synchronization/FileLockManager.cs:23-50 | Locking one file leaves every other file's lock state unchanged |
| ConflictArtifacts.Create | RavenFS/RavenFS/Synchronization/Conflictuality/ConflictArtifactManager.cs:22-37 | A missing file fails; otherwise the conflict is stored under the file's conflict name, the file's conflict flag is "True" and indexed, and nothing else changes |
| ConflictArtifacts.Delete | RavenFS/RavenFS/Synchronization/Conflictuality/ConflictArtifactManager.cs:39-67 | A missing file fails; otherwise the conflict entry and the conflict and resolution keys are gone, and nothing else changes |
| ConflictArtifacts.CreateThenDelete | RavenFS/RavenFS/Synchronization/Conflictuality/ConflictArtifactManager.cs:22-67 | Create then Delete leaves the metadata as it was minus the conflict and resolution keys and no conflict entry |
| Folders.SearchPrefix | RavenFS/Server/RavenFS/Controllers/FoldersController.cs:12-13 | "/" followed by the directory, or "/" alone |
| Folders.Nesting | RavenFS/Server/RavenFS/Controllers/FoldersController.cs:12-14 | One '/' at the root; under a directory, those of its path plus one |
| Folders.PageMembers | RavenFS/Server/RavenFS/Controllers/FoldersController.cs:15-24 | A page holds at most the page size, and only terms that pass the filter |
| Folders.Subdirectories | RavenFS/Server/RavenFS/Controllers/FoldersController.cs:10-25 | The single pass equals filtering the terms, skipping `start` matches and taking `pageSize` |
| Folders.RootListsTopLevel | RavenFS/Server/RavenFS/Controllers/FoldersController.cs:10-25 | At the root every listed path has a single, leading '/' |
| Folders.ChildrenAreDirect | RavenFS/Server/RavenFS/Controllers/FoldersController.cs:10-25 | Under a directory each listed path starts with its path and has one more '/' after it |
| Folders.SiblingChildListed | RavenFS/Server/RavenFS/Controllers/FoldersController.cs:18 | As written, "/ab/c" is listed under "a"; corrected, it is not |
| Folders.SubdirectoriesFixed | RavenFS/Server/RavenFS/Controllers/FoldersController.cs:15-24 | Corrected: a page of at most the page size, holding only terms that continue the directory's path with a '/' and have its nesting |
| Folders.FixedAgreesAtRoot | RavenFS/Server/RavenFS/Controllers/FoldersController.cs:10-25 | At the root the corrected listing is the listing as written |
| Folders.FixedMatchesDirectChildren | RavenFS/Server/RavenFS/Controllers/FoldersController.cs:18 | The corrected filter accepts exactly "/dir/" followed by a name without '/' |
| Folders.FixedChildrenAreDirect | RavenFS/Server/RavenFS/Controllers/FoldersController.cs:18 | Every entry of the corrected listing is a direct child |
| FileSizeClause.RunEnd | RavenFS/RavenFS.Studio/Features/Search/ClauseBuilders/FileSizeRangeClauseBuilder.cs:12 | The end of the longest run of matching characters |
| FileSizeClause.MatchInput | RavenFS/RavenFS.Studio/Features/Search/ClauseBuilders/FileSizeRangeClauseBuilder.cs:12 | A match yields at least one digit and a unit of word characters |
| FileSizeClause.MatchSplits | RavenFS/RavenFS.Studio/Features/Search/ClauseBuilders/FileSizeRangeClauseBuilder.cs:12 | Digits, spaces and a unit match as those digits and that unit |
| FileSizeClause.Multiplier | RavenFS/RavenFS.Studio/Features/Search/ClauseBuilders/FileSizeRangeClauseBuilder.cs:51-66 | 1, 2^10, 2^20 or 2^30; 1 exactly when the unit has no 'k', 'm' or 'g' in any case |
| FileSizeClause.MultiplierPrecedence | RavenFS/RavenFS.Studio/Features/Search/ClauseBuilders/FileSizeRangeClauseBuilder.cs:51-66 | 'k' is looked for first, then 'm', then 'g' |
| FileSizeClause.KiloCheckedFirst | RavenFS/RavenFS.Studio/Features/Search/ClauseBuilders/FileSizeRangeClauseBuilder.cs:56-60 | "MK" means kilo |
| FileSizeClause.ConvertAsWritten | RavenFS/RavenFS.Studio/Features/Search/ClauseBuilders/FileSizeRangeClauseBuilder.cs:34-49 | As written: empty or unmatched input is open; otherwise the number times the multiplier wrapped to 64 bits, or an overflow when the digits exceed a long |
| FileSizeClause.HugeSizeWrapsNegative | RavenFS/RavenFS.Studio/Features/Search/ClauseBuilders/FileSizeRangeClauseBuilder.cs:46 | "8589934592 GB" gives long.MinValue as written and an overflow corrected |
| FileSizeClause.CheckedBytes | RavenFS/RavenFS.Studio/Features/Search/ClauseBuilders/FileSizeRangeClauseBuilder.cs:43-46 | Succeeds exactly when the product fits in a long, and then is the product |
| FileSizeClause.Convert | RavenFS/RavenFS.Studio/Features/Search/ClauseBuilders/FileSizeRangeClauseBuilder.cs:34-49 | Corrected: open bound as above; otherwise the decimal product, or an overflow exactly when it exceeds a long |
| FileSizeClause.ConvertAgreesWithinRange | RavenFS/RavenFS.Studio/Features/Search/ClauseBuilders/FileSizeRangeClauseBuilder.cs:34-49 | Both conversions agree wherever the product fits in a long |
| FileSizeClause.ConvertRoundTrip | RavenFS/RavenFS.Studio/Features/Search/ClauseBuilders/FileSizeRangeClauseBuilder.cs:34-66 | "<n> <unit>" converts to n times the unit's multiplier, and "<n>" to n |
| FileSizeClause.ConvertAsWrittenRoundTrip | RavenFS/RavenFS.Studio/Features/Search/ClauseBuilders/FileSizeRangeClauseBuilder.cs:34-66 | As written, the same input converts to the product wrapped to 64 bits |
| FileSizeClause.Clause | RavenFS/RavenFS.Studio/Features/Search/ClauseBuilders/FileSizeRangeClauseBuilder.cs:24-32 | Succeeds exactly when both bounds convert, giving the range over the size field from lower to upper |
| FileSizeClause.ClauseRoundTrip | RavenFS/RavenFS.Studio/Features/Search/ClauseBuilders/FileSizeRangeClauseBuilder.cs:24-66 | A range written "<lo> <unit>" to "<hi> <unit>" gives the clause over the byte counts |
| FileSizeClause.OpenClauseRoundTrip | RavenFS/RavenFS.Studio/Features/Search/ClauseBuilders/FileSizeRangeClauseBuilder.cs:24-49 | A missing upper bound is open |
| FileSizeClause.KilobytesExample | RavenFS/RavenFS.Studio/Features/Search/ClauseBuilders/FileSizeRangeClauseBuilder.cs:24-66 | "10 KB" with no upper bound is the range from 10240 to open |

## Left out

- **Stream mechanics of the multipart parser.** The `BoundedStream` class, buffering and partial reads are left out. The input is the remaining bytes as a sequence, and a part's body is what follows its headers.
- **Case-insensitive comparison.** It is modelled on ASCII letters only. .NET's invariant-culture folding of other characters is not modelled. The regular expression classes `\s` and `\w` are also modelled on ASCII, plus the two Latin-1 spaces.
- **Collaborators not part of this model.** Their results are parameters:
  - `RavenFileNameHelper` names and the timeout setting's name;
  - `Etag.Parse`, `Guid.TryParse`, `TimeSpan.ParseExact` and `HighlightedField.TryParse`;
  - the access-token parser and its scope check;
  - the Windows group membership test;
  - the index term lookup;
  - the map-bucket function, the etag generator and the clock.
- **Request context side effects.** Left out are the writes of `CurrentOperationContext.User`, `HttpContext.Current.User` and `Thread.CurrentPrincipal` as state. The principal UpdateUserPrincipal installs there is what WindowsAuth.GetUser returns and what WindowsAuth.Authorize checks, so only its storage in those fields is not modelled. Also left out are the `WWW-Authenticate` and `OAuth-Source` headers, and `ProvideDebugAuthInfo`'s debug body. A decision carries only the status and the OAuth error code.
- **Storage operations that throw `NotImplementedException`.** `GetReducedResultsForDebug`, `ScheduleReductions`, `GetItemsToReduce`, `DeleteScheduledReduction` and `GetMostRecentReducedEtag` have no behaviour to model.
- **`RemoveReduceResults`.** It is left out because it calls the Esent API, which is not part of this model.
- **Transactions.** The transactional dictionaries' commit and rollback, and the concurrency of `ConcurrentDictionary`, are not modelled. Each operation is one atomic step.
- **`Database.Put`.** Its concurrency check is reduced to `ReplicationLastEtag.ApplyPut`, which stores under a fresh etag.
- **Source replication defaults.** Fields of `SourceReplicationInformation` that were never set are `None`.
- **The system database name.** `WindowsAuth.SystemDatabase` is assumed to be `"<system>"`. The constant's definition is not part of this model.
- **The conflict metadata key.** `ConflictArtifacts.ConflictKey` is assumed to be `"Raven-Synchronization-Conflict"`. The definition of `SynchronizationConstants.RavenSynchronizationConflict` is not part of this model.
- **Logging.** The `log.Debug` calls of the file lock manager (RavenFS/Synchronization/FileLockManager.cs:33 and :39) write only to the log, so FileLock.Lock and FileLock.Unlock leave them out.
- **Culture-sensitive string search and integer parsing.** .NET's culture-sensitive `string.StartsWith`, `EndsWith` and `IndexOf(string)` are modelled as ordinal comparisons. This covers MultiPartParser.cs:54, :112 and :124, RavenApiController.cs:289 and :438, MixedModeRequestAuthorizer.cs:79, :133 and :143, ReplicationLastEtagController.cs:32 and :83, and FoldersController.cs:18. A culture comparison ignores characters such as U+00AD SOFT HYPHEN, so for `from="http://a/\u00AD"` the source's loop trims to "http://a" while ReplicationLastEtag.TrimTrailingSlashes keeps the text. Likewise `int.TryParse` accepts trailing NUL characters, so the source reads a start of "5\0" as 5, while Numbers.TryParseInt32 rejects it and the start is 0.
- **`RavenApiController` helpers outside the named core.** `GetIndexQuery`, `GetCutOff`, `GetCutOffEtag`, `GetSkipTransformResults`, `GetAggregationOperation`, `WriteData`, `GetDateString` and the response writers are left out.
- WindowsAuth.Authorize: requires a principal that is not an OAuth principal, because the source casts the user to a Windows or database-access principal and throws otherwise.
- WindowsAuth.GetUser: requires a principal that is not an OAuth principal, for the same cast.
- WindowsAuth.UpdateUserPrincipal: requires a principal that is not an OAuth principal, for the same cast.
- MixedModeAuth.Authorize: requires a principal that is not an OAuth principal, because the Windows authorizer it delegates to makes the same cast.
- MixedModeAuth.GetUser: requires a principal that is not an OAuth principal, because the Windows authorizer it delegates to makes the same cast.
- RamIndexing.UpdateIndexingStats: does not model 32-bit wrap-around of the `int` counters, because a counter overflowing past 2^31 indexing runs is outside what the storage is used for.
- RamIndexing.TouchIndexEtag: does not model 32-bit wrap-around of the `int` touch counter, for the same reason.
- RamIndexing.UpdateReduceStatsFixed: a null reduce counter counts as 0 in the corrected version. The source's lifted addition would keep it null forever, and which of the two was meant is a design choice.
- MultiPartParser.Create: reads the boundary with the corrected `GetParameterFixed`. The as-written version is modelled and compared separately.
- MultiPartParser.Next: searches with the corrected `ReadUntilBoundaryFixed`. The as-written version is modelled and compared separately.
- MultiPartParser.ReadHeaders: the headers read are stated by the round-trip lemma MultiPartParser.ReadHeadersRoundTrip for well-formed header blocks, not by an ensures covering every input.
- MultiPartParser.ReadHeaderLines: the same holds, through MultiPartParser.ReadHeaderLinesRoundTrip. A line of one-byte characters is assumed; other byte patterns are read but not characterised.
- MultiPartParser.BoundaryParameter: a missing Content-Type header is an error value. The source would throw a null reference.
- FileSizeClause.MatchInput: the greedy split of `^(\d+)\s*(\w*)$` is stated as the shape of any match and proved for inputs built as digits, spaces and a unit (FileSizeClause.MatchSplits). It is not stated as an if-and-only-if over all strings.
- FileSizeClause.MatchInput: `\d` is modelled as the ASCII digits 0-9, while .NET's `\d` matches every Unicode decimal digit. For a bound such as "٣" (ARABIC-INDIC DIGIT THREE) the source's pattern matches and `long.Parse` then throws a `FormatException` (FileSizeRangeClauseBuilder.cs:43); the model finds no match and the bound becomes "*".
- FileSizeClause.Clause: uses the corrected, overflow-checked `Convert`.
- ApiQuery.GetHighlightedFields: the source builds its sequence lazily, so a bad value throws only when the sequence is enumerated. The model evaluates it eagerly.
- Folders.Subdirectories: `start` and `pageSize` are plain integer parameters. The paging defaults come from the controller base, which is not part of this model.

## Findings

| source | as written | input that shows it | evidently intended | confidence | as-written member | corrected member |
|---|---|---|---|---|---|---|
| Raven.Database/Storage/RAM/RamIndexingStorageActions.cs:151 | UpdateReduceStats writes the updated reduce counters into the map statistics (`IndexesStats`), copying the reduce statistics' map counters over the real ones | AddIndex("v", map-reduce), UpdateIndexingStats with one attempt, then UpdateReduceStats: the failure rate reports 0 attempts and null reduce counters | update `IndexesReduceStats` | not executed | StorageScenarios.UpdateReduceStatsLosesMapCounters | StorageScenarios.UpdateReduceStatsFixedKeepsMapCounters |
| Raven.Database/Storage/RAM/RamStalenessStorageActions.cs:143-150 | GetIndexTouchCount reads `IndexStats.TouchCount`, which no operation changes, while TouchIndexEtag bumps `IndexesEtag` | AddIndex("v"), TouchIndexEtag("v"): the touch count is still 0 | read the counter TouchIndexEtag maintains | not executed | StorageScenarios.TouchCountNeverMoves | StorageScenarios.TouchCountFixedCounts |
| Raven.Database/Storage/RAM/RamIndexingStorageActions.cs:58-60 | DeleteIndex removes the touch counter only when it is non-zero | AddIndex("v"), DeleteIndex("v"), TouchIndexEtag("v") succeeds on a deleted index | remove the counter unconditionally | not executed | StorageScenarios.DeleteIndexKeepsTouchCounter | StorageScenarios.DeleteIndexFixedForgetsTouch |
| RavenFS/RavenFS.Client/MultiPartParser.cs:128 | the unquoted value is taken from one past its start | "; boundary=ab c" yields "b" | take the value from its first character | not executed | MultiPartParser.GetParameterDropsFirstCharacter | MultiPartParser.GetParameterFixedUnquoted |
| RavenDB/Server/Raven.Database/Server/Security/MixedModeRequestAuthorizer.cs:171 | cleanup removes tokens whose `generatedAt - now` exceeds five minutes, that is tokens from the future | 26 tokens generated ten minutes ago plus a new one: none is removed | remove tokens older than five minutes | not executed | MixedModeAuth.ExpiredTokensSurviveCleanup | MixedModeAuth.ExpiredTokensRemovedByFixedCleanup |
| Raven.Database/Storage/RAM/RamStalenessStorageActions.cs:104 | IndexLastUpdatedAt casts the never-set `LastReducedTimestamp` of a map-reduce index | AddIndex("v", map-reduce), UpdateLastReduced("v", 7, 9), IndexLastUpdatedAt("v") throws | read the pair UpdateLastReduced writes | not executed | StorageScenarios.IndexLastUpdatedAtFailsAfterReduce | StorageScenarios.UpdateLastReducedThenLastUpdated |
| RavenFS/RavenFS.Client/MultiPartParser.cs:101-104 | after a partial match the scan restarts at the next byte without re-examining the matched bytes | "---a" with delimiter "--a" is not found | a search that finds every occurrence | not executed | MultiPartParser.ReadUntilBoundaryMissesOverlap | MultiPartParser.ReadUntilBoundarySound |
| Raven.Database/Storage/RAM/RamStalenessStorageActions.cs:88 | IsMapStale casts the latest document etag, which is null when there are no documents | AddIndex("v") in an empty store, IsIndexStale("v") throws | no documents means nothing to index | not executed | StorageScenarios.StalenessFailsWithoutDocuments | StorageScenarios.NoDocumentsNoTasksNotStale |
| Raven.Database/Storage/RAM/RamMappedResultStrageAction.cs:99 | GetMappedResultsReduceKeysAfter iterates the freshly created, empty `results` instead of the selected rows | PutMappedResult("v", "doc", "key") then GetMappedResultsReduceKeysAfter("v") returns nothing | iterate the selected rows | not executed | StorageScenarios.ReduceKeysAfterReturnsNothing | StorageScenarios.ReduceKeysAfterFixedReturnsPut |
| RavenFS/RavenFS.Studio/Features/Search/ClauseBuilders/FileSizeRangeClauseBuilder.cs:46 | `value *= multiplier` is unchecked and wraps at 64 bits | "8589934592 GB" gives -9223372036854775808 | reject sizes that do not fit in a long | not executed | FileSizeClause.HugeSizeWrapsNegative | FileSizeClause.ConvertRoundTrip |
| RavenFS/Server/RavenFS/Controllers/FoldersController.cs:18 | the prefix test does not require a '/' after the directory | under "a", "/ab/c" is listed | list only paths continuing with "/" | not executed | Folders.SiblingChildListed | Folders.FixedChildrenAreDirect |
