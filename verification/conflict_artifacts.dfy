/** ConflictArtifactManager: a synchronization conflict on a file leaves two
    artifacts, a configuration entry describing the conflict and a flag in
    the file's metadata; Delete removes both, and the resolution flag too.
    Each operation is one storage batch: when the file is missing the batch
    fails and the storage is unchanged. On success the operation also hands
    the new metadata to the search index, returned here as `indexed`. */
module ConflictArtifacts {
  import opened Wrappers
  import opened Text
  import CI = CaseInsensitive
  import opened SyncStorage

  /** SynchronizationConstants.RavenSynchronizationConflict, the metadata
      key of the conflict flag; the key of the chosen resolution is
      `naming.resolutionKey`. */
  const ConflictKey: string := "Raven-Synchronization-Conflict"

  datatype ArtifactError = FileNotFound(fileName: string)

  /** The outcome of a batch: the new storage and the metadata indexed. */
  datatype Outcome = Outcome(storage: Storage, indexed: Metadata)

  /** Create: record the conflict under the file's conflict name and set
      the file's conflict flag to "True"; every other configuration entry,
      file and metadata key is unchanged. */
  function Create(s: Storage, naming: Naming, fileName: string, conflict: seq<(string, string)>)
    : (r: Result<Outcome, ArtifactError>)
    ensures r.Failure? <==> fileName !in s.files
    ensures r.Success? ==>
      var t := r.value.storage;
      && t.config.Keys == s.config.Keys + {naming.conflictName(fileName)}
      && t.config[naming.conflictName(fileName)] == ConflictConfig(conflict)
      && (forall k :: k in s.config && k != naming.conflictName(fileName) ==> t.config[k] == s.config[k])
      && t.files.Keys == s.files.Keys
      && (forall f :: f in s.files && f != fileName ==> t.files[f] == s.files[f])
      && CI.Get(t.files[fileName], ConflictKey) == Some("True")
      && (forall n :: !EqualsIgnoreCase(n, ConflictKey) ==> CI.Get(t.files[fileName], n) == CI.Get(s.files[fileName], n))
      && r.value.indexed == t.files[fileName]
  {
    if fileName !in s.files then Failure(FileNotFound(fileName))
    else
      var config := s.config[naming.conflictName(fileName) := ConflictConfig(conflict)];
      var metadata := CI.Set(s.files[fileName], ConflictKey, "True");
      Success(Outcome(Storage(config, s.files[fileName := metadata]), metadata))
  }

  /** Delete: drop the conflict entry and remove the conflict and
      resolution keys from the file's metadata; every other configuration
      entry, file and metadata key is unchanged. */
  function Delete(s: Storage, naming: Naming, fileName: string): (r: Result<Outcome, ArtifactError>)
    ensures r.Failure? <==> fileName !in s.files
    ensures r.Success? ==>
      var t := r.value.storage;
      && t.config.Keys == s.config.Keys - {naming.conflictName(fileName)}
      && (forall k :: k in t.config ==> t.config[k] == s.config[k])
      && t.files.Keys == s.files.Keys
      && (forall f :: f in s.files && f != fileName ==> t.files[f] == s.files[f])
      && CI.Get(t.files[fileName], ConflictKey).None?
      && CI.Get(t.files[fileName], naming.resolutionKey).None?
      && (forall n :: !EqualsIgnoreCase(n, ConflictKey) && !EqualsIgnoreCase(n, naming.resolutionKey) ==>
            CI.Get(t.files[fileName], n) == CI.Get(s.files[fileName], n))
      && r.value.indexed == t.files[fileName]
  {
    if fileName !in s.files then Failure(FileNotFound(fileName))
    else
      var config := s.config - {naming.conflictName(fileName)};
      var metadata := CI.Remove(CI.Remove(s.files[fileName], ConflictKey), naming.resolutionKey);
      Success(Outcome(Storage(config, s.files[fileName := metadata]), metadata))
  }

  /** Create then Delete leaves the file's metadata as it was minus the
      conflict and resolution keys, and no conflict entry behind. */
  lemma CreateThenDelete(s: Storage, naming: Naming, fileName: string, conflict: seq<(string, string)>)
    requires fileName in s.files
    ensures var c := Create(s, naming, fileName, conflict);
      && c.Success?
      && var d := Delete(c.value.storage, naming, fileName);
      && d.Success?
      && d.value.storage.files[fileName] == CI.Remove(CI.Remove(s.files[fileName], ConflictKey), naming.resolutionKey)
      && naming.conflictName(fileName) !in d.value.storage.config
      && d.value.storage.config == s.config - {naming.conflictName(fileName)}
  {
    var m := s.files[fileName];
    var k := Fold(ConflictKey);
    var set1 := CI.Set(m, ConflictKey, "True");
    assert CI.Remove(set1, ConflictKey) == CI.Remove(m, ConflictKey) by {
      assert set1 == m[k := CI.Entry(if k in m then m[k].key else ConflictKey, "True")];
    }
    var c := s.config[naming.conflictName(fileName) := ConflictConfig(conflict)];
    assert c - {naming.conflictName(fileName)} == s.config - {naming.conflictName(fileName)};
  }
}
