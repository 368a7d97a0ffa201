/** The staleness oracle of the in-memory storage
    (RamStalenessStorageActions): whether an index has caught up with the
    documents, the reduce backlog and its queued tasks, as of an optional
    cutoff time or cutoff etag. */
module RamStaleness {
  import opened Wrappers
  import opened Text
  import opened RamState
  import CI = CaseInsensitive

  /** Every non-empty finite set of naturals has a greatest element. */
  lemma {:induction false} MaxExists(xs: set<nat>)
    requires xs != {}
    ensures exists m :: m in xs && forall x :: x in xs ==> x <= m
    decreases |xs|
  {
    var y :| y in xs;
    var rest := xs - {y};
    if rest != {} {
      MaxExists(rest);
      var m :| m in rest && forall x :: x in rest ==> x <= m;
      var top := if y <= m then m else y;
      forall x | x in xs
        ensures x <= top
      {
        if x != y { assert x in rest; }
      }
    } else {
      assert xs == {y};
    }
  }

  /** The greatest element (`OrderByDescending(...).First()`). */
  function MaxOf(xs: set<nat>): (m: nat)
    requires xs != {}
    ensures m in xs && forall x :: x in xs ==> x <= m
  {
    MaxExists(xs);
    var m :| m in xs && forall x :: x in xs ==> x <= m;
    m
  }

  function DocumentEtags(s: State): set<Etag> {
    set k | k in s.documents :: s.documents[k].value.etag
  }

  function AttachmentEtags(s: State): set<Etag> {
    set k | k in s.attachments :: s.attachments[k].value.etag
  }

  /** GetMostRecentDocumentEtag: the greatest document etag, or the empty
      etag when there are no documents. */
  function GetMostRecentDocumentEtag(s: State): (r: Etag)
    ensures s.documents == map[] ==> r == EmptyEtag
    ensures forall k :: k in s.documents ==> s.documents[k].value.etag <= r
    ensures s.documents != map[] ==> exists k :: k in s.documents && s.documents[k].value.etag == r
  {
    var etags := DocumentEtags(s);
    if s.documents == map[] then EmptyEtag
    else
      assert etags != {} by {
        var k :| k in s.documents;
        assert s.documents[k].value.etag in etags;
      }
      assert forall k :: k in s.documents ==> s.documents[k].value.etag in etags;
      MaxOf(etags)
  }

  /** GetMostRecentAttachmentEtag: `FirstOrDefault` of a non-nullable etag,
      so the empty etag when there are no attachments. */
  function GetMostRecentAttachmentEtag(s: State): (r: Etag)
    ensures s.attachments == map[] ==> r == EmptyEtag
    ensures forall k :: k in s.attachments ==> s.attachments[k].value.etag <= r
    ensures s.attachments != map[] ==> exists k :: k in s.attachments && s.attachments[k].value.etag == r
  {
    var etags := AttachmentEtags(s);
    if s.attachments == map[] then EmptyEtag
    else
      assert etags != {} by {
        var k :| k in s.attachments;
        assert s.attachments[k].value.etag in etags;
      }
      assert forall k :: k in s.attachments ==> s.attachments[k].value.etag in etags;
      MaxOf(etags)
  }

  /** Some document was written after the index's last-indexed etag. */
  ghost predicate HasUnindexedDocument(s: State, st: IndexStats) {
    exists k :: k in s.documents && s.documents[k].value.etag > st.lastIndexedEtag
  }

  /** IsMapStale as written: an unknown index is not stale; with no
      documents the latest etag is null and its cast to a non-nullable etag
      fails; otherwise the index is stale when the latest document etag is
      greater than its last-indexed etag. */
  function IsMapStale(s: State, name: string): (r: Result<bool, StorageError>)
    ensures !CI.Has(s.indexesStats, name) ==> r == Success(false)
    ensures r.Failure? <==> CI.Has(s.indexesStats, name) && s.documents == map[]
    ensures r.Success? && CI.Has(s.indexesStats, name) ==>
      (r.value <==> HasUnindexedDocument(s, CI.Get(s.indexesStats, name).value))
  {
    var st := CI.Get(s.indexesStats, name);
    if st.None? then Success(false)
    else if s.documents == map[] then Failure(NullValueCast)
    else Success(GetMostRecentDocumentEtag(s) > st.value.lastIndexedEtag)
  }

  /** IsMapStale with a missing latest etag read as the empty etag, as
      GetMostRecentDocumentEtag reads it. */
  function IsMapStaleFixed(s: State, name: string): (r: bool)
    ensures r <==> CI.Has(s.indexesStats, name) && HasUnindexedDocument(s, CI.Get(s.indexesStats, name).value)
  {
    var st := CI.Get(s.indexesStats, name);
    st.Some? && GetMostRecentDocumentEtag(s) > st.value.lastIndexedEtag
  }

  /** IsReduceStale: some scheduled-reduction list is stored under exactly
      this spelling (an ordinal comparison against the stored key). */
  function IsReduceStale(s: State, name: string): (r: bool)
    ensures Valid(s) ==> (r <==> name in CI.StoredKeys(s.scheduledReductions))
    ensures r ==> CI.Has(s.scheduledReductions, name)
  {
    CI.HasExactKeyIsScan(s.scheduledReductions, name);
    CI.HasExactKey(s.scheduledReductions, name)
  }

  /** The task with the greatest identifier, if any. */
  function LatestTask(tasks: map<nat, TaskWrapper>): (r: Option<TaskWrapper>)
    ensures r.None? <==> tasks == map[]
    ensures r.Some? ==> exists id :: id in tasks && tasks[id] == r.value && forall j :: j in tasks ==> j <= id
  {
    if tasks == map[] then None
    else
      assert tasks.Keys != {} by {
        var id :| id in tasks;
        assert id in tasks.Keys;
      }
      Some(tasks[MaxOf(tasks.Keys)])
  }

  /** The task rule that ends IsIndexStale: stale when a task is queued for
      the index and either no cutoff time is given or the latest task was
      added at or before it. */
  function TaskRule(s: State, name: string, cutOff: Option<Time>): (r: bool)
    ensures r <==> (CI.Has(s.tasks, name) && CI.Get(s.tasks, name).value != map[]
                    && (cutOff.None? || cutOff.value >= LatestTask(CI.Get(s.tasks, name).value).value.addedAt))
  {
    var tasks := CI.Get(s.tasks, name);
    if tasks.None? then false
    else
      var last := LatestTask(tasks.value);
      if last.None? then false
      else if cutOff.None? then true
      else cutOff.value >= last.value.addedAt
  }

  /** The index has work outstanding: documents it has not mapped, or a
      reduce backlog when it is a map-reduce index. */
  function HasBacklog(s: State, name: string, mapStale: bool): bool {
    mapStale || (CI.Has(s.indexesReduceStats, name) && IsReduceStale(s, name))
  }

  /** The cutoff lets the backlog count: with a cutoff time, the index (or
      its reduce side) was last indexed at or before it; otherwise with a
      cutoff etag, the index was last indexed before it; with neither,
      always. */
  ghost predicate CutoffAdmits(s: State, name: string, cutOff: Option<Time>, cutoffEtag: Option<Etag>)
    requires CI.Has(s.indexesStats, name)
  {
    var st := CI.Get(s.indexesStats, name).value;
    var rs := CI.Get(s.indexesReduceStats, name);
    if cutOff.Some? then
      cutOff.value >= st.lastIndexedTimestamp || (rs.Some? && cutOff.value >= rs.value.lastIndexedTimestamp)
    else if cutoffEtag.Some? then st.lastIndexedEtag < cutoffEtag.value
    else true
  }

  /** The decision of IsIndexStale for a known index, given the map
      staleness, in the branch order of the original. */
  function Decide(s: State, name: string, cutOff: Option<Time>, cutoffEtag: Option<Etag>, mapStale: bool): (r: bool)
    requires CI.Has(s.indexesStats, name)
    ensures r <==> (HasBacklog(s, name, mapStale) && CutoffAdmits(s, name, cutOff, cutoffEtag))
                   || TaskRule(s, name, cutOff)
  {
    var st := CI.Get(s.indexesStats, name).value;
    var rs := CI.Get(s.indexesReduceStats, name);
    if HasBacklog(s, name, mapStale) then
      if cutOff.Some? then
        if cutOff.value >= st.lastIndexedTimestamp then true
        else if rs.Some? && cutOff.value >= rs.value.lastIndexedTimestamp then true
        else TaskRule(s, name, cutOff)
      else if cutoffEtag.Some? then
        if st.lastIndexedEtag < cutoffEtag.value then true
        else TaskRule(s, name, cutOff)
      else true
    else TaskRule(s, name, cutOff)
  }

  /** IsIndexStale as written, failing where IsMapStale fails. */
  function IsIndexStale(s: State, name: string, cutOff: Option<Time>, cutoffEtag: Option<Etag>): (r: Result<bool, StorageError>)
    ensures !CI.Has(s.indexesStats, name) ==> r == Success(false)
    ensures r.Failure? <==> CI.Has(s.indexesStats, name) && s.documents == map[]
    ensures r.Success? && CI.Has(s.indexesStats, name) ==>
      (r.value <==> (HasBacklog(s, name, HasUnindexedDocument(s, CI.Get(s.indexesStats, name).value))
                     && CutoffAdmits(s, name, cutOff, cutoffEtag))
                    || TaskRule(s, name, cutOff))
  {
    if !CI.Has(s.indexesStats, name) then Success(false)
    else
      var mapStale :- IsMapStale(s, name);
      Success(Decide(s, name, cutOff, cutoffEtag, mapStale))
  }

  /** IsIndexStale over the corrected map staleness: never fails. */
  function IsIndexStaleFixed(s: State, name: string, cutOff: Option<Time>, cutoffEtag: Option<Etag>): (r: bool)
    ensures !CI.Has(s.indexesStats, name) ==> !r
    ensures CI.Has(s.indexesStats, name) ==>
      (r <==> (HasBacklog(s, name, HasUnindexedDocument(s, CI.Get(s.indexesStats, name).value))
               && CutoffAdmits(s, name, cutOff, cutoffEtag))
              || TaskRule(s, name, cutOff))
  {
    CI.Has(s.indexesStats, name) && Decide(s, name, cutOff, cutoffEtag, IsMapStaleFixed(s, name))
  }

  /** Wherever the original answers, the corrected oracle gives the same answer. */
  lemma IsIndexStaleFixedAgrees(s: State, name: string, cutOff: Option<Time>, cutoffEtag: Option<Etag>)
    requires IsIndexStale(s, name, cutOff, cutoffEtag).Success?
    ensures IsIndexStale(s, name, cutOff, cutoffEtag).value == IsIndexStaleFixed(s, name, cutOff, cutoffEtag)
  {
  }

  /** A later cutoff time can only make an index staler. */
  lemma {:induction false} StaleMonotoneInCutoffTime(s: State, name: string, c: Time, later: Time, cutoffEtag: Option<Etag>)
    requires c <= later
    requires IsIndexStaleFixed(s, name, Some(c), cutoffEtag)
    ensures IsIndexStaleFixed(s, name, Some(later), cutoffEtag)
  {
    var tasks := CI.Get(s.tasks, name);
    if TaskRule(s, name, Some(c)) {
      assert TaskRule(s, name, Some(later));
    }
  }

  /** Without a cutoff time, a greater cutoff etag can only make an index staler. */
  lemma StaleMonotoneInCutoffEtag(s: State, name: string, e: Etag, later: Etag)
    requires e <= later
    requires IsIndexStaleFixed(s, name, None, Some(e))
    ensures IsIndexStaleFixed(s, name, None, Some(later))
  {
  }

  /** IndexLastUpdatedAt as written: unknown index fails; a map-reduce
      index answers with the last-reduced pair of its reduce statistics,
      whose null values fail the cast; any other index answers with its
      last-indexed pair. */
  function IndexLastUpdatedAt(s: State, name: string): (r: Result<(Time, Etag), StorageError>)
    ensures !CI.Has(s.indexesStats, name) ==> r == Failure(IndexDoesNotExist(name))
    ensures CI.Has(s.indexesStats, name) && !CI.Has(s.indexesReduceStats, name) ==>
      var st := CI.Get(s.indexesStats, name).value;
      r == Success((st.lastIndexedTimestamp, st.lastIndexedEtag))
    ensures CI.Has(s.indexesStats, name) && CI.Has(s.indexesReduceStats, name) ==>
      var rs := CI.Get(s.indexesReduceStats, name).value;
      && (r.Failure? <==> rs.lastReducedTimestamp.None? || rs.lastReducedEtag.None?)
      && (r.Success? ==> r.value == (rs.lastReducedTimestamp.value, rs.lastReducedEtag.value))
  {
    var st := CI.Get(s.indexesStats, name);
    if st.None? then Failure(IndexDoesNotExist(name))
    else
      var rs := CI.Get(s.indexesReduceStats, name);
      if rs.Some? then
        if rs.value.lastReducedTimestamp.None? || rs.value.lastReducedEtag.None? then Failure(NullValueCast)
        else Success((rs.value.lastReducedTimestamp.value, rs.value.lastReducedEtag.value))
      else Success((st.value.lastIndexedTimestamp, st.value.lastIndexedEtag))
  }

  /** IndexLastUpdatedAt reading the pair that UpdateLastReduced writes
      for a map-reduce index. */
  function IndexLastUpdatedAtFixed(s: State, name: string): (r: Result<(Time, Etag), StorageError>)
    ensures !CI.Has(s.indexesStats, name) ==> r == Failure(IndexDoesNotExist(name))
    ensures CI.Has(s.indexesStats, name) ==> r.Success?
    ensures CI.Has(s.indexesStats, name) && !CI.Has(s.indexesReduceStats, name) ==>
      var st := CI.Get(s.indexesStats, name).value;
      r.value == (st.lastIndexedTimestamp, st.lastIndexedEtag)
    ensures CI.Has(s.indexesStats, name) && CI.Has(s.indexesReduceStats, name) ==>
      var rs := CI.Get(s.indexesReduceStats, name).value;
      r.value == (rs.lastIndexedTimestamp, rs.lastIndexedEtag)
  {
    var st := CI.Get(s.indexesStats, name);
    if st.None? then Failure(IndexDoesNotExist(name))
    else
      var rs := CI.Get(s.indexesReduceStats, name);
      if rs.Some? then Success((rs.value.lastIndexedTimestamp, rs.value.lastIndexedEtag))
      else Success((st.value.lastIndexedTimestamp, st.value.lastIndexedEtag))
  }

  /** GetIndexTouchCount as written: -1 for an unknown index, otherwise the
      statistics' touch count. */
  function GetIndexTouchCount(s: State, name: string): (r: int)
    ensures !CI.Has(s.indexesStats, name) ==> r == -1
    ensures CI.Has(s.indexesStats, name) ==> r == CI.Get(s.indexesStats, name).value.touchCount
  {
    var st := CI.Get(s.indexesStats, name);
    if st.None? then -1 else st.value.touchCount
  }

  /** GetIndexTouchCount reading the counter TouchIndexEtag maintains. */
  function GetIndexTouchCountFixed(s: State, name: string): (r: int)
    ensures !CI.Has(s.indexesStats, name) ==> r == -1
    ensures CI.Has(s.indexesStats, name) ==> r == CI.Get(s.indexesEtag, name).GetOr(0)
  {
    var st := CI.Get(s.indexesStats, name);
    if st.None? then -1 else CI.Get(s.indexesEtag, name).GetOr(0)
  }
}
