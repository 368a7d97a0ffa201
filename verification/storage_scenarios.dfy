/** Properties of the in-memory storage that relate several operations:
    the life cycle of an index, staleness after indexing, mapped results
    written and deleted again, and the behaviours where the code departs
    from what the surrounding design promises. */
module StorageScenarios {
  import opened Wrappers
  import opened Text
  import opened RamState
  import opened RamIndexing
  import opened RamStaleness
  import opened RamMappedResults
  import CI = CaseInsensitive

  /** A newly added index has zero counters and, without reduce
      statistics, null reduce counters. */
  lemma AddIndexThenFailureRate(s: State, name: string)
    requires !CI.Has(s.indexesReduceStats, name)
    ensures GetFailureRate(AddIndex(s, name, false), name).Success?
    ensures GetFailureRate(AddIndex(s, name, false), name).value.attempts == 0
    ensures GetFailureRate(AddIndex(s, name, false), name).value.reduceAttempts.None?
  {
  }

  /** After deletion an index is unknown: its failure rate fails and it is
      never stale. */
  lemma {:induction false} DeletedIndexIsUnknown(s: State, name: string, cutOff: Option<Time>, cutoffEtag: Option<Etag>)
    ensures GetFailureRate(DeleteIndexFixed(s, name), name).Failure?
    ensures !IsIndexStaleFixed(DeleteIndexFixed(s, name), name, cutOff, cutoffEtag)
    ensures IsIndexStale(DeleteIndexFixed(s, name), name, cutOff, cutoffEtag) == Success(false)
  {
    assert !CI.Has(DeleteIndexFixed(s, name).indexesStats, name);
  }

  /** An index that has indexed up to the most recent document etag, with
      no reduce side and no queued task, is not stale when asked without a
      cutoff. */
  lemma {:induction false} IndexedUpToLatestIsNotStale(s: State, name: string, t: Time)
    requires CI.Has(s.indexesStats, name)
    requires !CI.Has(s.indexesReduceStats, name)
    requires !CI.Has(s.tasks, name)
    ensures UpdateLastIndexed(s, name, GetMostRecentDocumentEtag(s), t).Success?
    ensures !IsIndexStaleFixed(UpdateLastIndexed(s, name, GetMostRecentDocumentEtag(s), t).value, name, None, None)
  {
    var s1 := UpdateLastIndexed(s, name, GetMostRecentDocumentEtag(s), t).value;
    assert s1.documents == s.documents && s1.tasks == s.tasks;
    assert !HasUnindexedDocument(s1, CI.Get(s1.indexesStats, name).value);
    assert !CI.Has(s1.indexesReduceStats, name);
  }

  /** Asked without a cutoff, an index whose last-indexed etag is behind
      some document is stale. */
  lemma {:induction false} BehindDocumentIsStale(s: State, name: string, docKey: string)
    requires CI.Has(s.indexesStats, name)
    requires CI.Has(s.documents, docKey)
    requires CI.Get(s.documents, docKey).value.etag > CI.Get(s.indexesStats, name).value.lastIndexedEtag
    ensures IsIndexStaleFixed(s, name, None, None)
    ensures IsIndexStale(s, name, None, None) == Success(true)
  {
    assert Fold(docKey) in s.documents;
    assert HasUnindexedDocument(s, CI.Get(s.indexesStats, name).value);
  }

  lemma {:induction false} NoRowOfDocument(before: seq<MappedResultsWrapper>, docId: string)
    requires forall i :: 0 <= i < |before| ==> !OfDocument(before[i], docId)
    ensures Filter(before, OfDoc(docId)) == []
  {
    FilterNone(before, OfDoc(docId));
  }

  lemma {:induction false} KeysOfNewRow(before: seq<MappedResultsWrapper>, row: MappedResultsWrapper, docId: string)
    requires forall i :: 0 <= i < |before| ==> !OfDocument(before[i], docId)
    requires OfDocument(row, docId)
    ensures KeysOfDocument(before + [row], docId) == {ReduceKeyAndBucket(row.info.bucket, row.info.reduceKey)}
  {
    var rows := before + [row];
    assert rows[|before|] == row;
    assert forall i :: 0 <= i < |before| ==> rows[i] == before[i];
  }

  /** Rows without any row of the document, followed by one row of it:
      the document's rows are that one row, and the others are the prefix. */
  lemma {:induction false} SplitOffNewRow(before: seq<MappedResultsWrapper>, row: MappedResultsWrapper, docId: string)
    requires forall i :: 0 <= i < |before| ==> !OfDocument(before[i], docId)
    requires OfDocument(row, docId)
    ensures Filter(before + [row], OfDoc(docId)) == [row]
    ensures Filter(before + [row], NotOfDoc(docId)) == before
    ensures KeysOfDocument(before + [row], docId) == {ReduceKeyAndBucket(row.info.bucket, row.info.reduceKey)}
  {
    FilterAppend(before, [row], OfDoc(docId));
    FilterAppend(before, [row], NotOfDoc(docId));
    FilterAll(before, NotOfDoc(docId));
    NoRowOfDocument(before, docId);
    assert Filter([row], OfDoc(docId)) == [row];
    assert Filter([row], NotOfDoc(docId)) == [];
    KeysOfNewRow(before, row, docId);
  }

  /** A row put for a document that had none in the view is exactly what
      deleting the document's rows removes: the view's rows return to
      what they were and the removed set gains only the new row's key and
      bucket. */
  lemma {:induction false} PutThenDeleteRestores(s: State, view: string, docId: string, reduceKey: string, data: Json,
                                                etag: Etag, now: Time, mapBucket: string -> int)
    requires forall i :: 0 <= i < |CI.Get(s.mappedResults, view).GetOr([])| ==>
      !OfDocument(CI.Get(s.mappedResults, view).GetOr([])[i], docId)
    ensures
      var r := DeleteMappedResultsForDocumentId(PutMappedResult(s, view, docId, reduceKey, data, etag, now, mapBucket),
                                                docId, view, {});
      && r.1 == {ReduceKeyAndBucket(mapBucket(docId), reduceKey)}
      && CI.Get(r.0.mappedResults, view) == Some(CI.Get(s.mappedResults, view).GetOr([]))
  {
    var before := CI.Get(s.mappedResults, view).GetOr([]);
    var row := MappedResultsWrapper(MappedResultInfo(reduceKey, mapBucket(docId), Some(data), 0, now, etag, None),
                                    view, Some(docId), 0, None);
    var s1 := PutMappedResult(s, view, docId, reduceKey, data, etag, now, mapBucket);
    assert CI.Get(s1.mappedResults, view) == Some(before + [row]);
    SplitOffNewRow(before, row, docId);
    var m := CI.Set(s1.mappedResults, view, before);
    assert DeleteMappedResultsForDocumentId(s1, docId, view, {})
      == (s1.(mappedResults := m), {} + KeysOfDocument(before + [row], docId));
    assert CI.Get(m, view) == Some(before);
  }

  /** Deleting a document's rows a second time changes nothing and
      reports nothing new. */
  lemma {:induction false} DeleteForDocumentIdempotent(s: State, docId: string, view: string)
    ensures
      var once := DeleteMappedResultsForDocumentId(s, docId, view, {});
      DeleteMappedResultsForDocumentId(once.0, docId, view, {}) == (once.0, {})
  {
    var once := DeleteMappedResultsForDocumentId(s, docId, view, {});
    if CI.Has(s.mappedResults, view) {
      var kept := CI.Get(once.0.mappedResults, view).value;
      NoRowOfDocument(kept, docId);
    }
  }

  /** Deleting one view's rows leaves every other view's rows alone. */
  lemma {:induction false} DeleteForViewIsolated(s: State, view: string, other: string)
    requires !EqualsIgnoreCase(view, other)
    ensures CI.Get(DeleteMappedResultsForView(s, view).mappedResults, other) == CI.Get(s.mappedResults, other)
    ensures CI.Get(DeleteMappedResultsForView(s, view).mappedResults, view).None?
  {
  }

  // ---- Findings: the code as written, and the corrected behaviour ----

  const Map1: WorkStats := WorkStats(1, 0, 1, 0, 0, 0)

  /** As written, reporting reduce work on a map-reduce index replaces its
      map counters with the counters of the reduce statistics. */
  lemma {:induction false} UpdateReduceStatsReplacesMapCounters(s: State, index: string, work: WorkStats)
    requires CI.Has(s.indexesStats, index) && CI.Has(s.indexesReduceStats, index)
    ensures UpdateReduceStats(s, index, work).Success?
    ensures
      var rs := CI.Get(s.indexesReduceStats, index).value;
      var after := GetFailureRate(UpdateReduceStats(s, index, work).value, index).value;
      && after.attempts == rs.indexingAttempts
      && after.errors == rs.indexingErrors
      && after.successes == rs.indexingSuccesses
      && after.reduceAttempts == rs.reduceIndexingAttempts
  {
    var s1 := UpdateReduceStats(s, index, work).value;
    assert CI.Has(s1.indexesStats, index) && CI.Has(s1.indexesReduceStats, index);
  }

  /** Concretely: on a new map-reduce index, one counted map attempt is
      lost by the next reduce report, and the reduce counters stay null. */
  lemma {:induction false} UpdateReduceStatsLosesMapCounters(name: string, work: WorkStats)
    ensures
      var s1 := AddIndex(Initial(), name, true);
      var s2 := UpdateIndexingStats(s1, name, Map1).value;
      && UpdateIndexingStats(s1, name, Map1).Success?
      && GetFailureRate(s2, name).value.attempts == 1
      && UpdateReduceStats(s2, name, work).Success?
      && GetFailureRate(UpdateReduceStats(s2, name, work).value, name).value.attempts == 0
      && GetFailureRate(UpdateReduceStats(s2, name, work).value, name).value.reduceAttempts.None?
  {
    var s1 := AddIndex(Initial(), name, true);
    assert CI.Get(s1.indexesStats, name) == Some(NewIndexStats(name));
    assert CI.Get(s1.indexesReduceStats, name) == Some(NewIndexStats(name));
    var s2 := UpdateIndexingStats(s1, name, Map1).value;
    assert CI.Get(s2.indexesStats, name).value.indexingAttempts == 1;
    assert s2.indexesReduceStats == s1.indexesReduceStats;
    UpdateReduceStatsReplacesMapCounters(s2, name, work);
  }

  /** Corrected, the map counters survive and the failure rate reports the
      reduce work. */
  lemma {:induction false} UpdateReduceStatsFixedKeepsMapCounters(s: State, index: string, work: WorkStats)
    requires CI.Has(s.indexesStats, index) && CI.Has(s.indexesReduceStats, index)
    ensures UpdateReduceStatsFixed(s, index, work).Success?
    ensures
      var before := GetFailureRate(s, index).value;
      var after := GetFailureRate(UpdateReduceStatsFixed(s, index, work).value, index).value;
      && after.attempts == before.attempts
      && after.errors == before.errors
      && after.successes == before.successes
      && after.reduceAttempts == Some(before.reduceAttempts.GetOr(0) + work.reduceAttempts)
      && after.reduceErrors == Some(before.reduceErrors.GetOr(0) + work.reduceErrors)
      && after.reduceSuccesses == Some(before.reduceSuccesses.GetOr(0) + work.reduceSuccesses)
  {
    var s1 := UpdateReduceStatsFixed(s, index, work).value;
    assert CI.Has(s1.indexesReduceStats, index);
  }

  /** As written, touching an index never moves its reported touch count. */
  lemma TouchCountNeverMoves()
    ensures
      var s1 := AddIndex(Initial(), "v", false);
      var s2 := TouchIndexEtag(s1, "v").value;
      && TouchIndexEtag(s1, "v").Success?
      && GetIndexTouchCount(s1, "v") == 0
      && GetIndexTouchCount(s2, "v") == 0
  {
    var s1 := AddIndex(Initial(), "v", false);
    assert CI.HasExactKey(s1.indexesEtag, "v");
  }

  /** Corrected, every touch adds one to the reported count. */
  lemma {:induction false} TouchCountFixedCounts(s: State, index: string)
    requires CI.Has(s.indexesStats, index) && CI.HasExactKey(s.indexesEtag, index)
    ensures TouchIndexEtag(s, index).Success?
    ensures GetIndexTouchCountFixed(TouchIndexEtag(s, index).value, index) == GetIndexTouchCountFixed(s, index) + 1
  {
    var s1 := TouchIndexEtag(s, index).value;
    assert s1.indexesStats == s.indexesStats;
  }

  /** As written, deleting a never-touched index keeps its zero touch
      counter, so touching the deleted index still succeeds. */
  lemma DeleteIndexKeepsTouchCounter()
    ensures TouchIndexEtag(DeleteIndex(AddIndex(Initial(), "v", false), "v"), "v").Success?
  {
    var s1 := AddIndex(Initial(), "v", false);
    assert CI.HasExactKey(DeleteIndex(s1, "v").indexesEtag, "v");
  }

  /** Corrected, touching a deleted index fails as for any unknown index. */
  lemma {:induction false} DeleteIndexFixedForgetsTouch(s: State, name: string)
    ensures TouchIndexEtag(DeleteIndexFixed(s, name), name).Failure?
  {
    assert !CI.Has(DeleteIndexFixed(s, name).indexesEtag, name);
  }

  /** As written, a map-reduce index's last update cannot be read even
      after UpdateLastReduced: it reads the last-reduced pair, which no
      operation sets. */
  lemma IndexLastUpdatedAtFailsAfterReduce()
    ensures
      var s1 := AddIndex(Initial(), "v", true);
      && UpdateLastReduced(s1, "v", 7, 9).Success?
      && IndexLastUpdatedAt(UpdateLastReduced(s1, "v", 7, 9).value, "v") == Failure(NullValueCast)
  {
    var s1 := AddIndex(Initial(), "v", true);
    assert CI.Has(UpdateLastReduced(s1, "v", 7, 9).value.indexesReduceStats, "v");
  }

  /** Corrected, a map-reduce index reports the pair UpdateLastReduced set. */
  lemma {:induction false} UpdateLastReducedThenLastUpdated(s: State, name: string, etag: Etag, t: Time)
    requires CI.Has(s.indexesStats, name) && CI.Has(s.indexesReduceStats, name)
    ensures UpdateLastReduced(s, name, etag, t).Success?
    ensures IndexLastUpdatedAtFixed(UpdateLastReduced(s, name, etag, t).value, name) == Success((t, etag))
  {
    var s1 := UpdateLastReduced(s, name, etag, t).value;
    assert CI.Has(s1.indexesStats, name) && CI.Has(s1.indexesReduceStats, name);
  }

  /** A map-only index reports the pair UpdateLastIndexed set, in both versions. */
  lemma {:induction false} UpdateLastIndexedThenLastUpdated(s: State, name: string, etag: Etag, t: Time)
    requires CI.Has(s.indexesStats, name) && !CI.Has(s.indexesReduceStats, name)
    ensures UpdateLastIndexed(s, name, etag, t).Success?
    ensures IndexLastUpdatedAt(UpdateLastIndexed(s, name, etag, t).value, name) == Success((t, etag))
    ensures IndexLastUpdatedAtFixed(UpdateLastIndexed(s, name, etag, t).value, name) == Success((t, etag))
  {
    var s1 := UpdateLastIndexed(s, name, etag, t).value;
    assert CI.Has(s1.indexesStats, name) && !CI.Has(s1.indexesReduceStats, name);
  }

  /** As written, asking whether a freshly added index is stale in a
      store without documents fails. */
  lemma StalenessFailsWithoutDocuments()
    ensures IsIndexStale(AddIndex(Initial(), "v", false), "v", None, None) == Failure(NullValueCast)
  {
    assert CI.Has(AddIndex(Initial(), "v", false).indexesStats, "v");
  }

  /** Corrected, an index with nothing to index and no queued task is not stale. */
  lemma {:induction false} NoDocumentsNoTasksNotStale(s: State, name: string, cutOff: Option<Time>, cutoffEtag: Option<Etag>)
    requires s.documents == map[] && !CI.Has(s.tasks, name)
    requires !CI.Has(s.indexesReduceStats, name)
    ensures !IsIndexStaleFixed(s, name, cutOff, cutoffEtag)
  {
  }

  /** As written, the reduce keys selected for a view are never returned. */
  lemma ReduceKeysAfterReturnsNothing(s: State, etag: Etag, now: Time, mapBucket: string -> int)
    ensures
      var s1 := PutMappedResult(s, "v", "doc", "key", "{}", etag, now, mapBucket);
      GetMappedResultsReduceKeysAfter(s1, "v", etag, false, 10) == Success(map[])
  {
    var s1 := PutMappedResult(s, "v", "doc", "key", "{}", etag, now, mapBucket);
    assert CI.Has(s1.mappedResults, "v");
  }

  /** Corrected, a row put at the asked etag into an empty view is returned
      under its reduce key. */
  lemma {:induction false} ReduceKeysAfterFixedReturnsPut(s: State, view: string, docId: string, reduceKey: string,
                                                         etag: Etag, now: Time, mapBucket: string -> int,
                                                         load: string -> Option<Json>)
    requires !CI.Has(s.mappedResults, view)
    ensures
      var s1 := PutMappedResult(s, view, docId, reduceKey, "{}", etag, now, mapBucket);
      var r := GetMappedResultsReduceKeysAfterFixed(s1, view, etag, false, 10, load);
      r.Success? && r.value.Keys == {reduceKey}
  {
    var s1 := PutMappedResult(s, view, docId, reduceKey, "{}", etag, now, mapBucket);
    var rows := CI.Get(s1.mappedResults, view).value;
    assert |rows| == 1 && rows[0].info.etag == etag && rows[0].info.reduceKey == reduceKey;
    var p := (w: MappedResultsWrapper) => w.info.etag == etag;
    assert Filter(rows, p) == [rows[0]];
    var selected := Take(Filter(rows, p), 10);
    assert selected == [rows[0]];
    assert (set i | 0 <= i < |selected| :: selected[i].info.reduceKey) == {reduceKey};
  }
}
