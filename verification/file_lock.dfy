/** FileLockManager: a file under synchronization is locked by a
    configuration entry recording the source server and the lock time; the
    lock lapses once it is older than the replication timeout. The clock is
    the parameter `now`, in ticks. */
module FileLock {
  import opened Wrappers
  import opened SyncStorage

  /** TimeSpan.FromMinutes(10), in ticks. */
  const DefaultTimeout: int := 6_000_000_000

  /** ReplicationTimeout: the configured timeout, else ten minutes. */
  function ReplicationTimeout(s: Storage, naming: Naming): (r: int)
    ensures naming.timeoutKey in s.config && s.config[naming.timeoutKey].Timeout? ==> r == s.config[naming.timeoutKey].ticks
    ensures !(naming.timeoutKey in s.config && s.config[naming.timeoutKey].Timeout?) ==> r == DefaultTimeout
  {
    if naming.timeoutKey in s.config && s.config[naming.timeoutKey].Timeout? then s.config[naming.timeoutKey].ticks
    else DefaultTimeout
  }

  /** The lock record of a file, if it holds one. */
  function LockOf(s: Storage, naming: Naming, fileName: string): (r: Option<ConfigValue>)
    ensures r.Some? ==> r.value.SyncLock?
    ensures r.Some? <==> naming.syncLockName(fileName) in s.config && s.config[naming.syncLockName(fileName)].SyncLock?
  {
    var key := naming.syncLockName(fileName);
    if key in s.config && s.config[key].SyncLock? then Some(s.config[key]) else None
  }

  /** LockByCreatingSyncConfiguration: record the source server and the
      lock time under the file's lock name; nothing else changes. */
  function Lock(s: Storage, naming: Naming, fileName: string, sourceServerId: string, now: int): (r: Storage)
    ensures LockOf(r, naming, fileName) == Some(SyncLock(sourceServerId, now))
    ensures forall k :: k in s.config && k != naming.syncLockName(fileName) ==> k in r.config && r.config[k] == s.config[k]
    ensures r.config.Keys == s.config.Keys + {naming.syncLockName(fileName)}
    ensures r.files == s.files
  {
    s.(config := s.config[naming.syncLockName(fileName) := SyncLock(sourceServerId, now)])
  }

  /** UnlockByDeletingSyncConfiguration: drop the file's lock entry; nothing
      else changes. */
  function Unlock(s: Storage, naming: Naming, fileName: string): (r: Storage)
    ensures naming.syncLockName(fileName) !in r.config
    ensures LockOf(r, naming, fileName).None?
    ensures r.config.Keys == s.config.Keys - {naming.syncLockName(fileName)}
    ensures forall k :: k in r.config ==> r.config[k] == s.config[k]
    ensures r.files == s.files
  {
    s.(config := s.config - {naming.syncLockName(fileName)})
  }

  /** TimeoutExceeded: true without a lock; otherwise true exactly when the
      lock is strictly older than the replication timeout. */
  function TimeoutExceeded(s: Storage, naming: Naming, fileName: string, now: int): (r: bool)
    ensures LockOf(s, naming, fileName).None? ==> r
    ensures LockOf(s, naming, fileName).Some? ==>
      (r <==> now - LockOf(s, naming, fileName).value.fileLockedAt > ReplicationTimeout(s, naming))
  {
    var l := LockOf(s, naming, fileName);
    if l.None? then true
    else now - l.value.fileLockedAt > ReplicationTimeout(s, naming)
  }

  /** A lock taken at `lockedAt` has lapsed at `now` exactly when more than
      the timeout in force has passed, whatever was stored before. */
  lemma LockLapsesAfterTimeout(s: Storage, naming: Naming, fileName: string, id: string, lockedAt: int, now: int)
    requires naming.syncLockName(fileName) != naming.timeoutKey
    ensures TimeoutExceeded(Lock(s, naming, fileName, id, lockedAt), naming, fileName, now)
            <==> now - lockedAt > ReplicationTimeout(s, naming)
  {
  }

  /** A fresh lock has not lapsed at the moment it is taken, unless the
      configured timeout is negative. */
  lemma FreshLockHolds(s: Storage, naming: Naming, fileName: string, id: string, now: int)
    requires ReplicationTimeout(s, naming) >= 0
    ensures !TimeoutExceeded(Lock(s, naming, fileName, id, now), naming, fileName, now)
  {
    var r := Lock(s, naming, fileName, id, now);
    assert ReplicationTimeout(r, naming) >= 0;
  }

  /** An unlocked file always counts as timed out. */
  lemma UnlockedHasTimedOut(s: Storage, naming: Naming, fileName: string, now: int)
    ensures TimeoutExceeded(Unlock(s, naming, fileName), naming, fileName, now)
  {
  }

  /** Locking one file leaves the lock state of every file with another
      lock name as it was. */
  lemma LockIsPerFile(s: Storage, naming: Naming, fileName: string, other: string, id: string, lockedAt: int, now: int)
    requires naming.syncLockName(other) != naming.syncLockName(fileName)
    requires naming.syncLockName(fileName) != naming.timeoutKey
    ensures TimeoutExceeded(Lock(s, naming, fileName, id, lockedAt), naming, other, now) == TimeoutExceeded(s, naming, other, now)
  {
  }
}
