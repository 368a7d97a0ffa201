/** The indexing-statistics accessor of the in-memory storage
    (RamIndexingStorageActions): adding and deleting indexes, replacing the
    last-indexed and last-reduced marks, additive counters and the failure
    rate. Each operation is one sequential step from a state to the next;
    `IndexDoesNotExistsException` becomes a `Failure`. */
module RamIndexing {
  import opened Wrappers
  import opened Text
  import opened RamState
  import CI = CaseInsensitive

  /** The work counted by one indexing run (IndexingWorkStats). */
  datatype WorkStats = WorkStats(
    indexingAttempts: int,
    indexingErrors: int,
    indexingSuccesses: int,
    reduceAttempts: int,
    reduceErrors: int,
    reduceSuccesses: int)

  datatype FailureInformation = FailureInformation(
    name: string,
    attempts: int,
    errors: int,
    successes: int,
    reduceAttempts: Option<int>,
    reduceErrors: Option<int>,
    reduceSuccesses: Option<int>)

  /** C#'s lifted `int? + int`: a null counter stays null. */
  function LiftedAdd(a: Option<int>, delta: int): (r: Option<int>)
    ensures r.None? <==> a.None?
    ensures r.Some? ==> r.value - a.value == delta
  {
    if a.None? then None else Some(a.value + delta)
  }

  /** SetCurrentIndexStatsToImpl: fails for an unknown index, otherwise
      tells whether the index has reduce statistics. */
  function HasReduce(s: State, index: string): (r: Result<bool, StorageError>)
    ensures r.Failure? <==> !CI.Has(s.indexesStats, index)
    ensures r.Success? ==> (r.value <==> CI.Has(s.indexesReduceStats, index))
  {
    if !CI.Has(s.indexesStats, index) then Failure(IndexDoesNotExist(index))
    else Success(CI.Has(s.indexesReduceStats, index))
  }

  /** AddIndex: fresh map statistics and a zero touch counter always;
      fresh reduce statistics only for a map-reduce index. */
  function AddIndex(s: State, name: string, createMapReduce: bool): (r: State)
    ensures CI.Get(r.indexesStats, name) == Some(NewIndexStats(name))
    ensures CI.Get(r.indexesEtag, name) == Some(0)
    ensures createMapReduce ==> CI.Get(r.indexesReduceStats, name) == Some(NewIndexStats(name))
    ensures !createMapReduce ==> r.indexesReduceStats == s.indexesReduceStats
    ensures forall n :: !EqualsIgnoreCase(n, name) ==>
      CI.Get(r.indexesStats, n) == CI.Get(s.indexesStats, n)
      && CI.Get(r.indexesReduceStats, n) == CI.Get(s.indexesReduceStats, n)
      && CI.Get(r.indexesEtag, n) == CI.Get(s.indexesEtag, n)
    ensures r == s.(indexesStats := r.indexesStats, indexesEtag := r.indexesEtag,
                    indexesReduceStats := r.indexesReduceStats)
    ensures Valid(s) ==> Valid(r)
  {
    var s1 := s.(indexesStats := CI.Set(s.indexesStats, name, NewIndexStats(name)),
                 indexesEtag := CI.Set(s.indexesEtag, name, 0));
    if !createMapReduce then s1
    else s1.(indexesReduceStats := CI.Set(s1.indexesReduceStats, name, NewIndexStats(name)))
  }

  /** DeleteIndex as written: the map statistics, reduce statistics,
      mapped results, reduced results and scheduled reductions of the name
      go, but the touch counter is removed only when it is not 0. */
  function DeleteIndex(s: State, name: string): (r: State)
    ensures CI.Get(r.indexesStats, name).None? && CI.Get(r.indexesReduceStats, name).None?
    ensures CI.Get(r.mappedResults, name).None? && CI.Get(r.reducedResults, name).None?
    ensures CI.Get(r.scheduledReductions, name).None?
    ensures CI.Get(r.indexesEtag, name) ==
      (if CI.Get(s.indexesEtag, name).GetOr(0) != 0 then None else CI.Get(s.indexesEtag, name))
    ensures forall n :: !EqualsIgnoreCase(n, name) ==>
      CI.Get(r.indexesStats, n) == CI.Get(s.indexesStats, n)
      && CI.Get(r.indexesReduceStats, n) == CI.Get(s.indexesReduceStats, n)
      && CI.Get(r.indexesEtag, n) == CI.Get(s.indexesEtag, n)
      && CI.Get(r.mappedResults, n) == CI.Get(s.mappedResults, n)
      && CI.Get(r.reducedResults, n) == CI.Get(s.reducedResults, n)
      && CI.Get(r.scheduledReductions, n) == CI.Get(s.scheduledReductions, n)
    ensures r.documents == s.documents && r.tasks == s.tasks && r.identities == s.identities
    ensures Valid(s) ==> Valid(r)
  {
    var etag := CI.Get(s.indexesEtag, name).GetOr(0);
    s.(indexesStats := CI.Remove(s.indexesStats, name),
       indexesEtag := if etag != 0 then CI.Remove(s.indexesEtag, name) else s.indexesEtag,
       indexesReduceStats := CI.Remove(s.indexesReduceStats, name),
       mappedResults := CI.Remove(s.mappedResults, name),
       reducedResults := CI.Remove(s.reducedResults, name),
       scheduledReductions := CI.Remove(s.scheduledReductions, name))
  }

  /** DeleteIndex with the touch counter removed unconditionally, as the
      rest of the deletion evidently intends. */
  function DeleteIndexFixed(s: State, name: string): (r: State)
    ensures CI.Get(r.indexesStats, name).None? && CI.Get(r.indexesReduceStats, name).None?
    ensures CI.Get(r.mappedResults, name).None? && CI.Get(r.reducedResults, name).None?
    ensures CI.Get(r.scheduledReductions, name).None? && CI.Get(r.indexesEtag, name).None?
    ensures forall n :: !EqualsIgnoreCase(n, name) ==>
      CI.Get(r.indexesStats, n) == CI.Get(s.indexesStats, n)
      && CI.Get(r.indexesReduceStats, n) == CI.Get(s.indexesReduceStats, n)
      && CI.Get(r.indexesEtag, n) == CI.Get(s.indexesEtag, n)
      && CI.Get(r.mappedResults, n) == CI.Get(s.mappedResults, n)
      && CI.Get(r.reducedResults, n) == CI.Get(s.reducedResults, n)
      && CI.Get(r.scheduledReductions, n) == CI.Get(s.scheduledReductions, n)
    ensures r.documents == s.documents && r.tasks == s.tasks && r.identities == s.identities
    ensures Valid(s) ==> Valid(r)
  {
    s.(indexesStats := CI.Remove(s.indexesStats, name),
       indexesEtag := CI.Remove(s.indexesEtag, name),
       indexesReduceStats := CI.Remove(s.indexesReduceStats, name),
       mappedResults := CI.Remove(s.mappedResults, name),
       reducedResults := CI.Remove(s.reducedResults, name),
       scheduledReductions := CI.Remove(s.scheduledReductions, name))
  }

  /** GetFailureRate: the map counters, and the reduce counters of the
      reduce statistics when the index has them (null otherwise). */
  function GetFailureRate(s: State, index: string): (r: Result<FailureInformation, StorageError>)
    ensures r.Failure? <==> !CI.Has(s.indexesStats, index)
    ensures r.Success? ==>
      var st := CI.Get(s.indexesStats, index).value;
      && r.value.name == index
      && r.value.attempts == st.indexingAttempts
      && r.value.errors == st.indexingErrors
      && r.value.successes == st.indexingSuccesses
    ensures r.Success? && !CI.Has(s.indexesReduceStats, index) ==>
      r.value.reduceAttempts.None? && r.value.reduceErrors.None? && r.value.reduceSuccesses.None?
    ensures r.Success? && CI.Has(s.indexesReduceStats, index) ==>
      var rs := CI.Get(s.indexesReduceStats, index).value;
      && r.value.reduceAttempts == rs.reduceIndexingAttempts
      && r.value.reduceErrors == rs.reduceIndexingErrors
      && r.value.reduceSuccesses == rs.reduceIndexingSuccesses
  {
    var hasReduce :- HasReduce(s, index);
    var st := CI.Get(s.indexesStats, index).value;
    var rs := CI.Get(s.indexesReduceStats, index);
    Success(FailureInformation(
      index, st.indexingAttempts, st.indexingErrors, st.indexingSuccesses,
      if hasReduce then rs.value.reduceIndexingAttempts else None,
      if hasReduce then rs.value.reduceIndexingErrors else None,
      if hasReduce then rs.value.reduceIndexingSuccesses else None))
  }

  /** UpdateLastIndexed: replaces exactly the last-indexed etag and
      timestamp of the map statistics. */
  function UpdateLastIndexed(s: State, index: string, etag: Etag, timestamp: Time): (r: Result<State, StorageError>)
    ensures r.Failure? <==> !CI.Has(s.indexesStats, index)
    ensures r.Success? ==>
      && CI.Get(r.value.indexesStats, index) ==
           Some(CI.Get(s.indexesStats, index).value.(lastIndexedEtag := etag, lastIndexedTimestamp := timestamp))
      && (forall n :: !EqualsIgnoreCase(n, index) ==> CI.Get(r.value.indexesStats, n) == CI.Get(s.indexesStats, n))
      && r.value == s.(indexesStats := r.value.indexesStats)
    ensures r.Success? && Valid(s) ==> Valid(r.value)
  {
    var st := CI.Get(s.indexesStats, index);
    if st.None? then Failure(IndexDoesNotExist(index))
    else
      var updated := st.value.(lastIndexedEtag := etag, lastIndexedTimestamp := timestamp);
      Success(s.(indexesStats := CI.Set(s.indexesStats, index, updated)))
  }

  /** UpdateLastReduced: the same replacement on the reduce statistics;
      an index without reduce statistics fails. */
  function UpdateLastReduced(s: State, index: string, etag: Etag, timestamp: Time): (r: Result<State, StorageError>)
    ensures r.Failure? <==> !CI.Has(s.indexesReduceStats, index)
    ensures r.Success? ==>
      && CI.Get(r.value.indexesReduceStats, index) ==
           Some(CI.Get(s.indexesReduceStats, index).value.(lastIndexedEtag := etag, lastIndexedTimestamp := timestamp))
      && (forall n :: !EqualsIgnoreCase(n, index) ==> CI.Get(r.value.indexesReduceStats, n) == CI.Get(s.indexesReduceStats, n))
      && r.value == s.(indexesReduceStats := r.value.indexesReduceStats)
    ensures r.Success? && Valid(s) ==> Valid(r.value)
  {
    var st := CI.Get(s.indexesReduceStats, index);
    if st.None? then Failure(IndexDoesNotExist(index))
    else
      var updated := st.value.(lastIndexedEtag := etag, lastIndexedTimestamp := timestamp);
      Success(s.(indexesReduceStats := CI.Set(s.indexesReduceStats, index, updated)))
  }

  /** TouchIndexEtag: fails unless a touch counter is stored under exactly
      this spelling (the check compares `pair.Key == index`), otherwise
      adds one to it. */
  function TouchIndexEtag(s: State, index: string): (r: Result<State, StorageError>)
    ensures r.Failure? <==> !CI.HasExactKey(s.indexesEtag, index)
    ensures r.Success? ==>
      && CI.Get(r.value.indexesEtag, index) == Some(CI.Get(s.indexesEtag, index).value + 1)
      && (forall n :: !EqualsIgnoreCase(n, index) ==> CI.Get(r.value.indexesEtag, n) == CI.Get(s.indexesEtag, n))
      && r.value == s.(indexesEtag := r.value.indexesEtag)
    ensures r.Success? && Valid(s) ==> Valid(r.value)
  {
    if !CI.HasExactKey(s.indexesEtag, index) then Failure(IndexDoesNotExist(index))
    else
      var touch := CI.Get(s.indexesEtag, index).GetOr(0);
      Success(s.(indexesEtag := CI.Set(s.indexesEtag, index, touch + 1)))
  }

  /** The map counters after adding one run's work. */
  function AddIndexingWork(st: IndexStats, work: WorkStats): IndexStats {
    st.(indexingAttempts := st.indexingAttempts + work.indexingAttempts,
        indexingErrors := st.indexingErrors + work.indexingErrors,
        indexingSuccesses := st.indexingSuccesses + work.indexingSuccesses)
  }

  /** UpdateIndexingStats: attempts, errors and successes each grow by the
      supplied delta; every other field is copied. */
  function UpdateIndexingStats(s: State, index: string, work: WorkStats): (r: Result<State, StorageError>)
    ensures r.Failure? <==> !CI.Has(s.indexesStats, index)
    ensures r.Success? ==> CI.Has(r.value.indexesStats, index)
    ensures r.Success? ==>
      var before := CI.Get(s.indexesStats, index).value;
      var after := CI.Get(r.value.indexesStats, index).value;
      && after.indexingAttempts - before.indexingAttempts == work.indexingAttempts
      && after.indexingErrors - before.indexingErrors == work.indexingErrors
      && after.indexingSuccesses - before.indexingSuccesses == work.indexingSuccesses
      && after == before.(indexingAttempts := after.indexingAttempts,
                          indexingErrors := after.indexingErrors,
                          indexingSuccesses := after.indexingSuccesses)
      && (forall n :: !EqualsIgnoreCase(n, index) ==> CI.Get(r.value.indexesStats, n) == CI.Get(s.indexesStats, n))
      && r.value == s.(indexesStats := r.value.indexesStats)
    ensures r.Success? && Valid(s) ==> Valid(r.value)
  {
    var _ :- HasReduce(s, index);
    var st := CI.Get(s.indexesStats, index).value;
    Success(s.(indexesStats := CI.Set(s.indexesStats, index, AddIndexingWork(st, work))))
  }

  /** Two updates in a row add up: the counters are additive deltas. */
  lemma UpdateIndexingStatsAdditive(s: State, index: string, a: WorkStats, b: WorkStats)
    requires CI.Has(s.indexesStats, index)
    ensures UpdateIndexingStats(s, index, a).Success?
    ensures UpdateIndexingStats(UpdateIndexingStats(s, index, a).value, index, b) ==
      UpdateIndexingStats(s, index, WorkStats(
        a.indexingAttempts + b.indexingAttempts, a.indexingErrors + b.indexingErrors,
        a.indexingSuccesses + b.indexingSuccesses, a.reduceAttempts + b.reduceAttempts,
        a.reduceErrors + b.reduceErrors, a.reduceSuccesses + b.reduceSuccesses))
  {
    var k := Fold(index);
    var st := s.indexesStats[k].value;
    var sum := WorkStats(
        a.indexingAttempts + b.indexingAttempts, a.indexingErrors + b.indexingErrors,
        a.indexingSuccesses + b.indexingSuccesses, a.reduceAttempts + b.reduceAttempts,
        a.reduceErrors + b.reduceErrors, a.reduceSuccesses + b.reduceSuccesses);
    var s1 := s.(indexesStats := CI.Set(s.indexesStats, index, AddIndexingWork(st, a)));
    assert UpdateIndexingStats(s, index, a) == Success(s1);
    assert s1.indexesStats[k] == CI.Entry(s.indexesStats[k].key, AddIndexingWork(st, a));
    assert AddIndexingWork(AddIndexingWork(st, a), b) == AddIndexingWork(st, sum);
    assert CI.Set(s1.indexesStats, index, AddIndexingWork(st, sum))
        == CI.Set(s.indexesStats, index, AddIndexingWork(st, sum));
  }

  /** The reduce counters after adding one run's work, with C#'s lifted
      addition. */
  function AddReduceWorkLifted(st: IndexStats, work: WorkStats): IndexStats {
    st.(reduceIndexingAttempts := LiftedAdd(st.reduceIndexingAttempts, work.reduceAttempts),
        reduceIndexingErrors := LiftedAdd(st.reduceIndexingErrors, work.reduceErrors),
        reduceIndexingSuccesses := LiftedAdd(st.reduceIndexingSuccesses, work.reduceSuccesses))
  }

  /** UpdateReduceStats as written: an index without reduce statistics is
      left unchanged; otherwise a copy of the REDUCE statistics, with the
      reduce counters lifted-added, is stored into the MAP statistics. */
  function UpdateReduceStats(s: State, index: string, work: WorkStats): (r: Result<State, StorageError>)
    ensures r.Failure? <==> !CI.Has(s.indexesStats, index)
    ensures r.Success? && !CI.Has(s.indexesReduceStats, index) ==> r.value == s
    ensures r.Success? && CI.Has(s.indexesReduceStats, index) ==>
      var rs := CI.Get(s.indexesReduceStats, index).value;
      && CI.Get(r.value.indexesStats, index) == Some(AddReduceWorkLifted(rs, work))
      && (forall n :: !EqualsIgnoreCase(n, index) ==> CI.Get(r.value.indexesStats, n) == CI.Get(s.indexesStats, n))
      && r.value.indexesReduceStats == s.indexesReduceStats
      && r.value == s.(indexesStats := r.value.indexesStats)
  {
    var _ :- HasReduce(s, index);
    var rs := CI.Get(s.indexesReduceStats, index);
    if rs.None? then Success(s)
    else Success(s.(indexesStats := CI.Set(s.indexesStats, index, AddReduceWorkLifted(rs.value, work))))
  }

  /** The reduce counters after adding one run's work, a missing counter
      counting as 0. */
  function AddReduceWork(st: IndexStats, work: WorkStats): IndexStats {
    st.(reduceIndexingAttempts := Some(st.reduceIndexingAttempts.GetOr(0) + work.reduceAttempts),
        reduceIndexingErrors := Some(st.reduceIndexingErrors.GetOr(0) + work.reduceErrors),
        reduceIndexingSuccesses := Some(st.reduceIndexingSuccesses.GetOr(0) + work.reduceSuccesses))
  }

  /** UpdateReduceStats as intended: the reduce counters of the reduce
      statistics grow by the supplied deltas and the map statistics are
      untouched. */
  function UpdateReduceStatsFixed(s: State, index: string, work: WorkStats): (r: Result<State, StorageError>)
    ensures r.Failure? <==> !CI.Has(s.indexesStats, index)
    ensures r.Success? && !CI.Has(s.indexesReduceStats, index) ==> r.value == s
    ensures r.Success? ==> CI.Has(s.indexesReduceStats, index) == CI.Has(r.value.indexesReduceStats, index)
    ensures r.Success? && CI.Has(s.indexesReduceStats, index) ==>
      var before := CI.Get(s.indexesReduceStats, index).value;
      var after := CI.Get(r.value.indexesReduceStats, index).value;
      && after.reduceIndexingAttempts.Some?
      && after.reduceIndexingAttempts.value - before.reduceIndexingAttempts.GetOr(0) == work.reduceAttempts
      && after.reduceIndexingErrors.Some?
      && after.reduceIndexingErrors.value - before.reduceIndexingErrors.GetOr(0) == work.reduceErrors
      && after.reduceIndexingSuccesses.Some?
      && after.reduceIndexingSuccesses.value - before.reduceIndexingSuccesses.GetOr(0) == work.reduceSuccesses
      && after == before.(reduceIndexingAttempts := after.reduceIndexingAttempts,
                          reduceIndexingErrors := after.reduceIndexingErrors,
                          reduceIndexingSuccesses := after.reduceIndexingSuccesses)
      && (forall n :: !EqualsIgnoreCase(n, index) ==>
            CI.Get(r.value.indexesReduceStats, n) == CI.Get(s.indexesReduceStats, n))
      && r.value.indexesStats == s.indexesStats
      && r.value == s.(indexesReduceStats := r.value.indexesReduceStats)
    ensures r.Success? && Valid(s) ==> Valid(r.value)
  {
    var _ :- HasReduce(s, index);
    var rs := CI.Get(s.indexesReduceStats, index);
    if rs.None? then Success(s)
    else Success(s.(indexesReduceStats := CI.Set(s.indexesReduceStats, index, AddReduceWork(rs.value, work))))
  }
}
