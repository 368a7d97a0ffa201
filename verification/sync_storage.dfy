/** The part of the RavenFS storage the synchronization rules touch: the
    configuration entries and each file's metadata. How configuration
    names are derived from file names (RavenFileNameHelper) and the value
    of the timeout setting's name are not visible here and are carried in
    `Naming`. */
module SyncStorage {
  import CI = CaseInsensitive

  /** A configuration value, by the type it is stored as. */
  datatype ConfigValue =
    | SyncLock(sourceServerId: string, fileLockedAt: int)   // SynchronizationLock
    | Timeout(ticks: int)                                   // TimeSpan
    | ConflictConfig(entries: seq<(string, string)>)        // ConflictItem.AsConfig()
    | OtherConfig(text: string)

  /** File metadata: a NameValueCollection, whose keys compare ignoring case. */
  type Metadata = CI.Dict<string>

  datatype Storage = Storage(config: map<string, ConfigValue>, files: map<string, Metadata>)

  /** RavenFileNameHelper.SyncLockNameForFile and ConflictConfigNameForFile,
      the name of the synchronization timeout setting and the metadata key
      of a conflict's chosen resolution. */
  datatype Naming = Naming(syncLockName: string -> string, conflictName: string -> string,
                           timeoutKey: string, resolutionKey: string)
}
