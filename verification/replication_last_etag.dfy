/** The replication last-etag endpoint (ReplicationLastEtagController):
    a replication source asks for, or records, the last document and
    attachment etags this database has received from it. The stored record
    lives in a document under the replication-sources base path. Reading
    and writing documents, parsing etags and GUIDs are not visible here:
    the documents are a case-insensitive dictionary, as the database's
    document keys are, the parsers are parameters, and PUT returns the
    write it asks the database to make. */
module ReplicationLastEtag {
  import opened Wrappers
  import opened Text
  import ApiQuery
  import CI = CaseInsensitive

  /** A GUID in its canonical text form. */
  type Guid = string

  /** SourceReplicationInformation. A field that was never set holds its
      default (`None`). */
  datatype SourceInfo = SourceInfo(
    source: string,
    serverInstanceId: Option<Guid>,
    lastDocumentEtag: Option<nat>,
    lastAttachmentEtag: Option<nat>)

  /** A stored document: its etag, the record it holds and its metadata. */
  datatype StoredDoc = StoredDoc(etag: nat, info: SourceInfo, metadata: map<string, string>)

  /** The database's documents, keyed ignoring case. */
  type Documents = CI.Dict<StoredDoc>

  datatype ReplicationError =
    | SelfReplication(message: string)   // InvalidOperationException
    | BadRequest                         // HTTP 400

  /** The Put the endpoint asks the database to make: key, expected etag,
      new record and metadata. */
  datatype PutCommand = PutCommand(key: string, expectedEtag: nat, info: SourceInfo, metadata: map<string, string>)

  /** `n` slashes. */
  function Slashes(n: nat): (r: string)
    ensures |r| == n && forall i :: 0 <= i < n ==> r[i] == '/'
  {
    if n == 0 then "" else Slashes(n - 1) + "/"
  }

  /** The source with every trailing '/' removed. */
  function TrimTrailingSlashes(s: string): (r: string)
    ensures |r| <= |s| && r == s[..|r|]
    ensures r == "" || r[|r| - 1] != '/'
    ensures forall i :: |r| <= i < |s| ==> s[i] == '/'
  {
    if s != "" && s[|s| - 1] == '/' then TrimTrailingSlashes(s[..|s| - 1]) else s
  }

  /** Any number of slashes appended to a source without a trailing one
      are removed again: the source is addressed by one document key. */
  lemma {:induction false} TrimTrailingSlashesRoundTrip(src: string, n: nat)
    requires src == "" || src[|src| - 1] != '/'
    ensures TrimTrailingSlashes(src + Slashes(n)) == src
  {
    if n > 0 {
      var s := src + Slashes(n);
      assert s[|s| - 1] == '/';
      assert s[..|s| - 1] == src + Slashes(n - 1);
      TrimTrailingSlashesRoundTrip(src, n - 1);
    } else {
      assert src + Slashes(0) == src;
    }
  }

  /** Trimming twice is trimming once. */
  lemma TrimTrailingSlashesIdempotent(s: string)
    ensures TrimTrailingSlashes(TrimTrailingSlashes(s)) == TrimTrailingSlashes(s)
  {
  }

  const SameIdMessage: string := "Both source and target databases have database id = "
  const SelfReplicationMessage: string := "\r\nDatabase cannot replicate to itself."

  /** The checks both verbs make before touching the database: a dbid equal
      to this database's id is refused; a missing or empty "from", or one
      made only of slashes, is a bad request; the result is the source
      without its trailing slashes. */
  function CheckRequest(q: ApiQuery.Query, localId: Guid): (r: Result<string, ReplicationError>)
    ensures var dbid := ApiQuery.GetQueryStringValue(q, "dbid");
      var from := ApiQuery.GetQueryStringValue(q, "from");
      && (dbid == Some(localId) ==> r.Failure? && r.error.SelfReplication?)
      && (dbid != Some(localId) ==>
            && (r.Failure? <==> from.None? || TrimTrailingSlashes(from.value) == "")
            && (r.Failure? ==> r.error == BadRequest)
            && (r.Success? ==> r.value == TrimTrailingSlashes(from.value) && r.value != ""
                               && from.value == r.value + Slashes(|from.value| - |r.value|)))
  {
    var dbid := ApiQuery.GetQueryStringValue(q, "dbid");
    var from := ApiQuery.GetQueryStringValue(q, "from");
    if dbid == Some(localId) then
      Failure(SelfReplication(SameIdMessage + localId + SelfReplicationMessage))
    else if from.None? || from.value == "" then Failure(BadRequest)
    else
      var src := TrimTrailingSlashes(from.value);
      if src == "" then Failure(BadRequest)
      else
        assert from.value == src + Slashes(|from.value| - |src|);
        Success(src)
  }

  /** The key of the document recording a source. */
  function SourceKey(basePath: string, src: string): string {
    basePath + "/" + src
  }

  /** ReplicationLastEtagGet: the stored record for the source, with this
      database's id as its server instance id; a record holding only the
      source when none is stored under any spelling of its key. */
  function LastEtagGet(q: ApiQuery.Query, localId: Guid, basePath: string, docs: Documents)
    : (r: Result<SourceInfo, ReplicationError>)
    ensures r.Failure? <==> CheckRequest(q, localId).Failure?
    ensures r.Success? ==>
      var stored := CI.Get(docs, SourceKey(basePath, CheckRequest(q, localId).value));
      && (stored.None? ==> r.value == SourceInfo(CheckRequest(q, localId).value, None, None, None))
      && (stored.Some? ==> r.value == stored.value.info.(serverInstanceId := Some(localId)))
  {
    var src :- CheckRequest(q, localId);
    var stored := CI.Get(docs, SourceKey(basePath, src));
    if stored.None? then Success(SourceInfo(src, None, None, None))
    else Success(stored.value.info.(serverInstanceId := Some(localId)))
  }

  /** Etag.Parse of a query value, whose failure (a missing or malformed
      value) is swallowed into "none supplied". */
  function ParseOptionalEtag(value: Option<string>, parseEtag: string -> Option<nat>): (r: Option<nat>)
    ensures r.Some? <==> value.Some? && parseEtag(value.value).Some?
    ensures r.Some? ==> r.value == parseEtag(value.value).value
  {
    if value.None? then None else parseEtag(value.value)
  }

  /** ReplicationLastEtagPut: the write recording the etags a source
      reports. The server instance id is the dbid when it parses as a GUID,
      else this database's id. A new record takes the supplied etags or
      Empty (0); a stored record keeps each etag that was not supplied
      parseable. The expected etag and the metadata are the stored
      document's, or Empty and none. */
  function LastEtagPut(q: ApiQuery.Query, localId: Guid, basePath: string, docs: Documents,
                       parseEtag: string -> Option<nat>, parseGuid: string -> Option<Guid>)
    : (r: Result<PutCommand, ReplicationError>)
    ensures r.Failure? <==> CheckRequest(q, localId).Failure?
    ensures r.Success? ==>
      var src := CheckRequest(q, localId).value;
      var key := SourceKey(basePath, src);
      var stored := CI.Get(docs, key);
      var docEtag := ParseOptionalEtag(ApiQuery.GetQueryStringValue(q, "docEtag"), parseEtag);
      var attachmentEtag := ParseOptionalEtag(ApiQuery.GetQueryStringValue(q, "attachmentEtag"), parseEtag);
      var dbid := ApiQuery.GetQueryStringValue(q, "dbid");
      && r.value.key == key
      && r.value.info.serverInstanceId ==
           Some(if dbid.Some? && parseGuid(dbid.value).Some? then parseGuid(dbid.value).value else localId)
      && (stored.None? ==>
            && r.value.expectedEtag == 0 && r.value.metadata == map[]
            && r.value.info.source == src
            && r.value.info.lastDocumentEtag == Some(docEtag.GetOr(0))
            && r.value.info.lastAttachmentEtag == Some(attachmentEtag.GetOr(0)))
      && (stored.Some? ==>
            && r.value.expectedEtag == stored.value.etag && r.value.metadata == stored.value.metadata
            && r.value.info.source == stored.value.info.source
            && r.value.info.lastDocumentEtag == (if docEtag.Some? then docEtag else stored.value.info.lastDocumentEtag)
            && r.value.info.lastAttachmentEtag ==
                 (if attachmentEtag.Some? then attachmentEtag else stored.value.info.lastAttachmentEtag))
  {
    var src :- CheckRequest(q, localId);
    var key := SourceKey(basePath, src);
    var docEtag := ParseOptionalEtag(ApiQuery.GetQueryStringValue(q, "docEtag"), parseEtag);
    var attachmentEtag := ParseOptionalEtag(ApiQuery.GetQueryStringValue(q, "attachmentEtag"), parseEtag);
    var dbid := ApiQuery.GetQueryStringValue(q, "dbid");
    var parsedId := if dbid.None? then None else parseGuid(dbid.value);
    var serverInstanceId := if parsedId.Some? then parsedId.value else localId;
    var found := CI.Get(docs, key);
    if found.None? then
      Success(PutCommand(key, 0, SourceInfo(src, Some(serverInstanceId), Some(docEtag.GetOr(0)), Some(attachmentEtag.GetOr(0))), map[]))
    else
      var stored := found.value;
      var info := stored.info.(serverInstanceId := Some(serverInstanceId),
                               lastDocumentEtag := if docEtag.Some? then docEtag else stored.info.lastDocumentEtag,
                               lastAttachmentEtag := if attachmentEtag.Some? then attachmentEtag else stored.info.lastAttachmentEtag);
      Success(PutCommand(key, stored.etag, info, stored.metadata))
  }

  /** The database carrying out a Put: the one document stored under any
      spelling of the key now holds the record under a new etag; every
      other document is untouched. */
  function ApplyPut(docs: Documents, cmd: PutCommand, newEtag: nat): (r: Documents)
    ensures CI.Get(r, cmd.key) == Some(StoredDoc(newEtag, cmd.info, cmd.metadata))
    ensures forall k :: !EqualsIgnoreCase(k, cmd.key) ==> CI.Get(r, k) == CI.Get(docs, k)
    ensures r.Keys == docs.Keys + {Fold(cmd.key)}
    ensures CI.Valid(docs) ==> CI.Valid(r)
  {
    CI.Set(docs, cmd.key, StoredDoc(newEtag, cmd.info, cmd.metadata))
  }

  /** Sources that differ only in letter case address one document. */
  lemma {:induction false} SourceKeyIgnoresCase(basePath: string, src: string, other: string)
    requires EqualsIgnoreCase(src, other)
    ensures EqualsIgnoreCase(SourceKey(basePath, src), SourceKey(basePath, other))
  {
    FoldAppend(basePath + "/", src);
    FoldAppend(basePath + "/", other);
  }

  /** A GET whose source differs from a recorded one only in letter case
      reads that record; a PUT from it expects the stored document's etag
      and keeps its metadata, and the database then overwrites that
      document instead of adding a second one. */
  lemma RecasedSourceSharesRecord(q: ApiQuery.Query, other: ApiQuery.Query, localId: Guid, basePath: string,
                                  docs: Documents, parseEtag: string -> Option<nat>, parseGuid: string -> Option<Guid>,
                                  newEtag: nat)
    requires CheckRequest(q, localId).Success? && CheckRequest(other, localId).Success?
    requires EqualsIgnoreCase(CheckRequest(q, localId).value, CheckRequest(other, localId).value)
    requires CI.Has(docs, SourceKey(basePath, CheckRequest(q, localId).value))
    ensures LastEtagGet(other, localId, basePath, docs) == LastEtagGet(q, localId, basePath, docs)
    ensures var cmd := LastEtagPut(other, localId, basePath, docs, parseEtag, parseGuid);
      var stored := CI.Get(docs, SourceKey(basePath, CheckRequest(q, localId).value)).value;
      && cmd.Success?
      && cmd.value.expectedEtag == stored.etag && cmd.value.metadata == stored.metadata
      && ApplyPut(docs, cmd.value, newEtag).Keys == docs.Keys
  {
    var key := SourceKey(basePath, CheckRequest(q, localId).value);
    var otherKey := SourceKey(basePath, CheckRequest(other, localId).value);
    SourceKeyIgnoresCase(basePath, CheckRequest(q, localId).value, CheckRequest(other, localId).value);
    assert CI.Get(docs, otherKey) == CI.Get(docs, key);
  }

  /** A GET after a PUT from the same source reads back the etags the PUT
      recorded, under this database's id. */
  lemma PutThenGet(q: ApiQuery.Query, localId: Guid, basePath: string, docs: Documents,
                   parseEtag: string -> Option<nat>, parseGuid: string -> Option<Guid>, newEtag: nat)
    requires LastEtagPut(q, localId, basePath, docs, parseEtag, parseGuid).Success?
    ensures var cmd := LastEtagPut(q, localId, basePath, docs, parseEtag, parseGuid).value;
      var got := LastEtagGet(q, localId, basePath, ApplyPut(docs, cmd, newEtag));
      && got.Success?
      && got.value.lastDocumentEtag == cmd.info.lastDocumentEtag
      && got.value.lastAttachmentEtag == cmd.info.lastAttachmentEtag
      && got.value.source == cmd.info.source
      && got.value.serverInstanceId == Some(localId)
  {
  }

  /** A PUT that supplies no etag leaves a stored record's etags as they
      were. */
  lemma PutWithoutEtagsKeepsRecord(q: ApiQuery.Query, localId: Guid, basePath: string, docs: Documents,
                                   parseEtag: string -> Option<nat>, parseGuid: string -> Option<Guid>)
    requires CheckRequest(q, localId).Success?
    requires CI.Has(docs, SourceKey(basePath, CheckRequest(q, localId).value))
    requires ApiQuery.GetQueryStringValue(q, "docEtag").None?
    requires ApiQuery.GetQueryStringValue(q, "attachmentEtag").None?
    ensures var stored := CI.Get(docs, SourceKey(basePath, CheckRequest(q, localId).value)).value.info;
      var cmd := LastEtagPut(q, localId, basePath, docs, parseEtag, parseGuid);
      && cmd.Success?
      && cmd.value.info.lastDocumentEtag == stored.lastDocumentEtag
      && cmd.value.info.lastAttachmentEtag == stored.lastAttachmentEtag
  {
  }

  /** "from" values that differ only in trailing slashes address the same
      record. */
  lemma TrailingSlashesShareRecord(src: string, n: nat, rest: ApiQuery.Query, localId: Guid)
    requires src != "" && src[|src| - 1] != '/'
    requires forall i :: 0 <= i < |rest| ==> rest[i].0 != "dbid"
    ensures CheckRequest([("from", src + Slashes(n))] + rest, localId) == Success(src)
  {
    TrimTrailingSlashesRoundTrip(src, n);
    var q := [("from", src + Slashes(n))] + rest;
    assert forall i :: 0 <= i < |q| ==> q[i].0 != "dbid";
    assert src + Slashes(n) != "" by { assert |src + Slashes(n)| > 0; }
  }
}
