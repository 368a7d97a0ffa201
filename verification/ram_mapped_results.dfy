/** The mapped-results accessor of the in-memory storage
    (RamMappedResultStrageAction). The etag generator, the clock, the
    bucket function and the loader of mapped data are parameters: each
    call receives the etag and time it would have drawn. */
module RamMappedResults {
  import opened Wrappers
  import opened Text
  import opened RamState
  import CI = CaseInsensitive

  datatype ReduceKeyAndBucket = ReduceKeyAndBucket(bucket: int, reduceKey: string)

  /** PutMappedResult: appends one row for the document to the view's
      list, creating the list on first use. */
  function PutMappedResult(s: State, view: string, docId: string, reduceKey: string, data: Json,
                           etag: Etag, now: Time, mapBucket: string -> int): (r: State)
    ensures CI.Get(r.mappedResults, view) == Some(CI.Get(s.mappedResults, view).GetOr([]) + [
      MappedResultsWrapper(MappedResultInfo(reduceKey, mapBucket(docId), Some(data), 0, now, etag, None),
                           view, Some(docId), 0, None)])
    ensures forall n :: !EqualsIgnoreCase(n, view) ==> CI.Get(r.mappedResults, n) == CI.Get(s.mappedResults, n)
    ensures r == s.(mappedResults := r.mappedResults)
    ensures Valid(s) ==> Valid(r)
  {
    var row := MappedResultsWrapper(
      MappedResultInfo(reduceKey, mapBucket(docId), Some(data), 0, now, etag, None),
      view, Some(docId), 0, None);
    var (rows, s1) := GetOrAddMappedResults(s, view);
    s1.(mappedResults := CI.Set(s1.mappedResults, view, rows + [row]))
  }

  /** PutReducedResult: appends a document-less row at the given level to
      the view's mapped-results list. */
  function PutReducedResult(s: State, view: string, reduceKey: string, level: int, sourceBucket: int,
                            bucket: int, data: Json, etag: Etag, now: Time): (r: State)
    ensures CI.Get(r.mappedResults, view) == Some(CI.Get(s.mappedResults, view).GetOr([]) + [
      MappedResultsWrapper(MappedResultInfo(reduceKey, bucket, Some(data), 0, now, etag, None),
                           view, None, level, Some(sourceBucket))])
    ensures forall n :: !EqualsIgnoreCase(n, view) ==> CI.Get(r.mappedResults, n) == CI.Get(s.mappedResults, n)
    ensures r == s.(mappedResults := r.mappedResults)
    ensures Valid(s) ==> Valid(r)
  {
    var row := MappedResultsWrapper(
      MappedResultInfo(reduceKey, bucket, Some(data), 0, now, etag, None),
      view, None, level, Some(sourceBucket));
    var (rows, s1) := GetOrAddMappedResults(s, view);
    s1.(mappedResults := CI.Set(s1.mappedResults, view, rows + [row]))
  }

  /** The row belongs to the document (an ordinal key comparison). */
  predicate OfDocument(w: MappedResultsWrapper, docId: string) {
    w.documentKey == Some(docId)
  }

  function OfDoc(docId: string): MappedResultsWrapper -> bool {
    w => OfDocument(w, docId)
  }

  function NotOfDoc(docId: string): MappedResultsWrapper -> bool {
    w => !OfDocument(w, docId)
  }

  function WithReduceKey(key: string): MappedResultsWrapper -> bool {
    (w: MappedResultsWrapper) => w.info.reduceKey == key
  }

  function WithEtag(etag: Etag): MappedResultsWrapper -> bool {
    (w: MappedResultsWrapper) => w.info.etag == etag
  }

  /** The reduce key and bucket every row of the document contributes. */
  function KeysOfDocument(rows: seq<MappedResultsWrapper>, docId: string): set<ReduceKeyAndBucket> {
    set i | 0 <= i < |rows| && OfDocument(rows[i], docId) :: ReduceKeyAndBucket(rows[i].info.bucket, rows[i].info.reduceKey)
  }

  /** DeleteMappedResultsForDocumentId: removes every row of the document
      from the view's list and adds the reduce key and bucket of each to
      `removed`; nothing happens when the view has no list or no row of
      the document. */
  function DeleteMappedResultsForDocumentId(s: State, docId: string, view: string, removed: set<ReduceKeyAndBucket>)
    : (r: (State, set<ReduceKeyAndBucket>))
    ensures !CI.Has(s.mappedResults, view) ==> r == (s, removed)
    ensures CI.Has(s.mappedResults, view) ==>
      var rows := CI.Get(s.mappedResults, view).value;
      var kept := CI.Get(r.0.mappedResults, view);
      && kept.Some?
      && kept.value == Filter(rows, NotOfDoc(docId))
      && (forall i :: 0 <= i < |kept.value| ==> kept.value[i] in rows && !OfDocument(kept.value[i], docId))
      && (forall i :: 0 <= i < |rows| && !OfDocument(rows[i], docId) ==> rows[i] in kept.value)
      && r.1 == removed + KeysOfDocument(rows, docId)
    ensures forall n :: !EqualsIgnoreCase(n, view) ==> CI.Get(r.0.mappedResults, n) == CI.Get(s.mappedResults, n)
    ensures r.0 == s.(mappedResults := r.0.mappedResults)
    ensures Valid(s) ==> Valid(r.0)
  {
    var rows := CI.Get(s.mappedResults, view);
    if rows.None? then (s, removed)
    else
      var doomed := Filter(rows.value, OfDoc(docId));
      if |doomed| == 0 then
        assert forall i :: 0 <= i < |rows.value| ==> !OfDocument(rows.value[i], docId);
        FilterAll(rows.value, NotOfDoc(docId));
        (s, removed)
      else
        var kept := Filter(rows.value, NotOfDoc(docId));
        (s.(mappedResults := CI.Set(s.mappedResults, view, kept)), removed + KeysOfDocument(rows.value, docId))
  }

  /** DeleteMappedResultsForView: the view's list is gone; every other
      view keeps its list. */
  function DeleteMappedResultsForView(s: State, view: string): (r: State)
    ensures CI.Get(r.mappedResults, view).None?
    ensures forall n :: !EqualsIgnoreCase(n, view) ==> CI.Get(r.mappedResults, n) == CI.Get(s.mappedResults, n)
    ensures r == s.(mappedResults := r.mappedResults)
    ensures Valid(s) ==> Valid(r)
  {
    if !CI.Has(s.mappedResults, view) then s
    else s.(mappedResults := CI.Remove(s.mappedResults, view))
  }

  /** A debug row: the stored result with the document key as its source
      and the data re-loaded by reduce key. */
  function DebugRow(w: MappedResultsWrapper, key: string, load: string -> Option<Json>): MappedResultInfo {
    MappedResultInfo(key, w.info.bucket, load(key), w.info.size, w.info.timestamp, w.info.etag, w.documentKey)
  }

  function DebugRows(rows: seq<MappedResultsWrapper>, key: string, load: string -> Option<Json>): (r: seq<MappedResultInfo>)
    ensures |r| == |rows|
    ensures forall i :: 0 <= i < |rows| ==> r[i] == DebugRow(rows[i], key, load)
  {
    if rows == [] then [] else [DebugRow(rows[0], key, load)] + DebugRows(rows[1..], key, load)
  }

  /** GetMappedResultsForDebug: the first `take` rows of the view whose
      reduce key is `key` (ordinal), each with its document as source and
      the data loaded by key. A view without a list fails, as querying the
      null list does. */
  function GetMappedResultsForDebug(s: State, indexName: string, key: string, take: int,
                                    load: string -> Option<Json>): (r: Result<seq<MappedResultInfo>, StorageError>)
    ensures r.Failure? <==> !CI.Has(s.mappedResults, indexName)
    ensures r.Success? ==>
      var matching := Filter(CI.Get(s.mappedResults, indexName).value, WithReduceKey(key));
      && |r.value| == |Take(matching, take)|
      && (take <= 0 ==> r.value == [])
      && forall i :: 0 <= i < |r.value| ==>
           r.value[i] == MappedResultInfo(key, matching[i].info.bucket, load(key), matching[i].info.size,
                                          matching[i].info.timestamp, matching[i].info.etag, matching[i].documentKey)
  {
    var rows := CI.Get(s.mappedResults, indexName);
    if rows.None? then Failure(NullSource)
    else Success(DebugRows(Take(Filter(rows.value, WithReduceKey(key)), take), key, load))
  }

  /** GetMappedResultsReduceKeysAfter as written: fails on a view without
      a list; otherwise the loop runs over the freshly created, empty
      result dictionary, so nothing is ever returned. */
  function GetMappedResultsReduceKeysAfter(s: State, indexName: string, lastReducedEtag: Etag, loadData: bool,
                                           take: int): (r: Result<map<string, MappedResultInfo>, StorageError>)
    ensures r.Failure? <==> !CI.Has(s.mappedResults, indexName)
    ensures r.Success? ==> r.value == map[]
  {
    if !CI.Has(s.mappedResults, indexName) then Failure(NullSource) else Success(map[])
  }

  /** The summary of one selected row. */
  function KeyRow(w: MappedResultsWrapper, loadData: bool, load: string -> Option<Json>): MappedResultInfo {
    MappedResultInfo(w.info.reduceKey, 0, if loadData then load(w.info.reduceKey) else None,
                     w.info.size, w.info.timestamp, w.info.etag, None)
  }

  /** `results[key] = info` over the selected rows in order: the last row
      of each reduce key wins. */
  function CollectByKey(rows: seq<MappedResultsWrapper>, loadData: bool, load: string -> Option<Json>)
    : (r: map<string, MappedResultInfo>)
    ensures r.Keys == set i | 0 <= i < |rows| :: rows[i].info.reduceKey
    ensures rows != [] ==> r[rows[|rows| - 1].info.reduceKey] == KeyRow(rows[|rows| - 1], loadData, load)
    decreases |rows|
  {
    if rows == [] then map[]
    else
      var last := rows[|rows| - 1];
      var prefix := rows[..|rows| - 1];
      var m := CollectByKey(prefix, loadData, load);
      assert (set i | 0 <= i < |rows| :: rows[i].info.reduceKey)
          == (set i | 0 <= i < |prefix| :: prefix[i].info.reduceKey) + {last.info.reduceKey};
      m[last.info.reduceKey := KeyRow(last, loadData, load)]
  }

  /** A row whose reduce key no later row repeats is the one kept. */
  lemma {:induction false} CollectByKeyLastWins(rows: seq<MappedResultsWrapper>, loadData: bool,
                                                load: string -> Option<Json>, i: int)
    requires 0 <= i < |rows|
    requires forall j :: i < j < |rows| ==> rows[j].info.reduceKey != rows[i].info.reduceKey
    ensures rows[i].info.reduceKey in CollectByKey(rows, loadData, load)
    ensures CollectByKey(rows, loadData, load)[rows[i].info.reduceKey] == KeyRow(rows[i], loadData, load)
    decreases |rows|
  {
    if i < |rows| - 1 {
      var prefix := rows[..|rows| - 1];
      CollectByKeyLastWins(prefix, loadData, load, i);
    }
  }

  /** GetMappedResultsReduceKeysAfter as evidently intended: the loop runs
      over the selected rows (the first `take` rows of the view whose etag
      is `lastReducedEtag`), keyed by reduce key. */
  function GetMappedResultsReduceKeysAfterFixed(s: State, indexName: string, lastReducedEtag: Etag, loadData: bool,
                                                take: int, load: string -> Option<Json>)
    : (r: Result<map<string, MappedResultInfo>, StorageError>)
    ensures r.Failure? <==> !CI.Has(s.mappedResults, indexName)
    ensures r.Success? ==>
      var selected := Take(Filter(CI.Get(s.mappedResults, indexName).value, WithEtag(lastReducedEtag)), take);
      && (r.value == map[] <==> selected == [])
      && r.value.Keys == set i | 0 <= i < |selected| :: selected[i].info.reduceKey
  {
    var rows := CI.Get(s.mappedResults, indexName);
    if rows.None? then Failure(NullSource)
    else
      var selected := Take(Filter(rows.value, WithEtag(lastReducedEtag)), take);
      var m := CollectByKey(selected, loadData, load);
      assert selected != [] ==> selected[0].info.reduceKey in m;
      Success(m)
  }
}
