/** The in-memory storage state of the indexing core (RamState) and the
    records stored in it. Every container is an immutable value; an
    operation returns the next state. Etags are naturals (the empty etag
    is 0) and timestamps are natural tick counts (the minimum date is 0). */
module RamState {
  import opened Wrappers
  import opened Text
  import CI = CaseInsensitive

  type Etag = nat
  type Time = nat

  const EmptyEtag: Etag := 0
  const MinTime: Time := 0

  /** The exceptions the accessors throw: `IndexDoesNotExistsException`,
      the `InvalidOperationException` of casting a null value to a
      non-nullable one, and the `ArgumentNullException` of querying a
      missing (null) collection. */
  datatype StorageError = IndexDoesNotExist(name: string) | NullValueCast | NullSource

  /** Serialized JSON payload; its structure is not modelled. */
  type Json = string

  /** Per-index statistics. The reduce counters and the last-reduced pair
      are nullable in the original, and C#'s lifted `+` keeps a null
      counter null. */
  datatype IndexStats = IndexStats(
    name: string,
    indexingAttempts: int,
    indexingErrors: int,
    indexingSuccesses: int,
    lastIndexedEtag: Etag,
    lastIndexedTimestamp: Time,
    lastQueryTimestamp: Option<Time>,
    lastReducedEtag: Option<Etag>,
    lastReducedTimestamp: Option<Time>,
    reduceIndexingAttempts: Option<int>,
    reduceIndexingErrors: Option<int>,
    reduceIndexingSuccesses: Option<int>,
    touchCount: int)

  /** The statistics `AddIndex` creates: empty etag, minimum timestamp,
      every other field at its default. */
  function NewIndexStats(name: string): (s: IndexStats)
    ensures s.name == name && s.lastIndexedEtag == EmptyEtag && s.lastIndexedTimestamp == MinTime
    ensures s.indexingAttempts == 0 && s.indexingErrors == 0 && s.indexingSuccesses == 0
    ensures s.reduceIndexingAttempts.None? && s.lastReducedTimestamp.None? && s.touchCount == 0
  {
    IndexStats(name, 0, 0, 0, EmptyEtag, MinTime, None, None, None, None, None, None, 0)
  }

  /** One map or reduce output row. */
  datatype MappedResultInfo = MappedResultInfo(
    reduceKey: string,
    bucket: int,
    data: Option<Json>,
    size: int,
    timestamp: Time,
    etag: Etag,
    source: Option<string>)

  /** A row of the mapped-results container: the result and the view,
      document key, level and source bucket it belongs to. The source
      bucket is declared as a string but assigned an int; it is an optional
      int here, absent where the original leaves it null. */
  datatype MappedResultsWrapper = MappedResultsWrapper(
    info: MappedResultInfo,
    view: string,
    documentKey: Option<string>,
    level: int,
    sourceBucket: Option<int>)

  datatype ReducedResultsWrapper = ReducedResultsWrapper(
    info: MappedResultInfo,
    view: string,
    level: int,
    sourceBucket: int)

  datatype ScheduledReductionInfo = ScheduledReductionInfo(etag: Etag, timestamp: Time)

  datatype ScheduledReductionsWrapper = ScheduledReductionsWrapper(
    info: ScheduledReductionInfo,
    level: int,
    view: string,
    reduceKey: string,
    sourceBucket: int)

  /** A queued background task; only the time it was added matters here. */
  datatype TaskWrapper = TaskWrapper(addedAt: Time)

  datatype Document = Document(etag: Etag)
  datatype Attachment = Attachment(etag: Etag)

  /** The containers of the original state. Tasks of one index are keyed
      by their identifier, ordered as the identifiers are. */
  datatype State = State(
    documents: CI.Dict<Document>,
    attachments: CI.Dict<Attachment>,
    identities: CI.Dict<int>,
    tasks: CI.Dict<map<nat, TaskWrapper>>,
    indexesStats: CI.Dict<IndexStats>,
    indexesReduceStats: CI.Dict<IndexStats>,
    indexesEtag: CI.Dict<int>,
    mappedResults: CI.Dict<seq<MappedResultsWrapper>>,
    reducedResults: CI.Dict<seq<ReducedResultsWrapper>>,
    scheduledReductions: CI.Dict<seq<ScheduledReductionsWrapper>>)

  /** Every container is a well-formed case-insensitive dictionary. */
  ghost predicate Valid(s: State) {
    && CI.Valid(s.documents) && CI.Valid(s.attachments) && CI.Valid(s.identities)
    && CI.Valid(s.tasks) && CI.Valid(s.indexesStats) && CI.Valid(s.indexesReduceStats)
    && CI.Valid(s.indexesEtag) && CI.Valid(s.mappedResults) && CI.Valid(s.reducedResults)
    && CI.Valid(s.scheduledReductions)
  }

  function Initial(): (s: State)
    ensures Valid(s)
    ensures forall name :: CI.Get(s.indexesStats, name).None? && CI.Get(s.mappedResults, name).None?
  {
    State(CI.Empty(), CI.Empty(), CI.Empty(), CI.Empty(), CI.Empty(), CI.Empty(),
          CI.Empty(), CI.Empty(), CI.Empty(), CI.Empty())
  }

  /** `MappedResults.GetOrAdd(view)`: the view's rows, created empty on
      first use. */
  function GetOrAddMappedResults(s: State, view: string): (r: (seq<MappedResultsWrapper>, State))
    ensures !CI.Has(s.mappedResults, view) ==> r.0 == [] && CI.Get(r.1.mappedResults, view) == Some([])
    ensures CI.Has(s.mappedResults, view) ==> r == (CI.Get(s.mappedResults, view).value, s)
    ensures r.1 == s.(mappedResults := r.1.mappedResults)
    ensures Valid(s) ==> Valid(r.1)
  {
    var (rows, m) := CI.GetOrAdd(s.mappedResults, view, []);
    (rows, s.(mappedResults := m))
  }

  /** `ReducedResults.GetOrAdd(view)`. */
  function GetOrAddReducedResults(s: State, view: string): (r: (seq<ReducedResultsWrapper>, State))
    ensures !CI.Has(s.reducedResults, view) ==> r.0 == [] && CI.Get(r.1.reducedResults, view) == Some([])
    ensures CI.Has(s.reducedResults, view) ==> r == (CI.Get(s.reducedResults, view).value, s)
    ensures r.1 == s.(reducedResults := r.1.reducedResults)
    ensures Valid(s) ==> Valid(r.1)
  {
    var (rows, m) := CI.GetOrAdd(s.reducedResults, view, []);
    (rows, s.(reducedResults := m))
  }

  /** `ScheduledReductions.GetOrAdd(view)`. */
  function GetOrAddScheduledReductions(s: State, view: string): (r: (seq<ScheduledReductionsWrapper>, State))
    ensures !CI.Has(s.scheduledReductions, view) ==> r.0 == [] && CI.Get(r.1.scheduledReductions, view) == Some([])
    ensures CI.Has(s.scheduledReductions, view) ==> r == (CI.Get(s.scheduledReductions, view).value, s)
    ensures r.1 == s.(scheduledReductions := r.1.scheduledReductions)
    ensures Valid(s) ==> Valid(r.1)
  {
    var (rows, m) := CI.GetOrAdd(s.scheduledReductions, view, []);
    (rows, s.(scheduledReductions := m))
  }

  /** `Identities.GetOrAdd(name)`: a counter that starts at 0 on first access. */
  function GetOrAddIdentity(s: State, name: string): (r: (int, State))
    ensures !CI.Has(s.identities, name) ==> r.0 == 0 && CI.Get(r.1.identities, name) == Some(0)
    ensures CI.Has(s.identities, name) ==> r == (CI.Get(s.identities, name).value, s)
    ensures r.1 == s.(identities := r.1.identities)
    ensures Valid(s) ==> Valid(r.1)
  {
    var (v, m) := CI.GetOrAdd(s.identities, name, 0);
    (v, s.(identities := m))
  }
}
