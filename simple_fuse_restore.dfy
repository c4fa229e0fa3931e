/**
 * simple_fuse_restore.c: a test build of the file system in which the kill
 * condition is forced, so that every write, unlink and rename takes the
 * rollback path. No score registry is used; the restore module's backup and
 * restore entry points are external calls.
 */
module SimpleFuseRestore {
  import opened Syscalls
  import opened Paths

  /** KILL_THRESHOLD of this build. */
  const KillThreshold: int := 1

  /** `is_malicious_enough_to_kill`: twice the threshold, so the (inclusive) kill test always passes. */
  function IsMaliciousEnoughToKill(): (r: int)
    ensures r >= KillThreshold
  {
    2 * KillThreshold
  }

  /**
   * `myfs_write`: a copy-on-write backup of `path` is requested first, then,
   * the kill test having passed, a restore of `path`, and the write is denied
   * with `-EIO`; `pwrite` is never reached. No process is killed.
   */
  method MyfsWrite(path: string, fh: int, size: nat, offset: int, io: SysResult)
    returns (res: int, calls: seq<Call>)
    ensures calls == [BackupOnWrite(path), RestoreBackup(path)]
    ensures res == -EIO
  {
    calls := [BackupOnWrite(path)];
    if IsMaliciousEnoughToKill() >= KillThreshold {
      calls := calls + [RestoreBackup(path)];
      return -EIO, calls;
    }
    calls := calls + [PWrite(fh, size, offset)];
    res := PassThrough(io);
  }

  /** `myfs_unlink`: a restore of `path` is requested and the unlink is denied; `unlinkat` is never reached. */
  method MyfsUnlink(path: string, io: SysResult) returns (res: int, calls: seq<Call>)
    ensures calls == [RestoreBackup(path)]
    ensures res == -EIO
  {
    if IsMaliciousEnoughToKill() >= KillThreshold {
      calls := [RestoreBackup(path)];
      return -EIO, calls;
    }
    var relpath := RelativePath(path);
    calls := [UnlinkAt(relpath)];
    res := if io.Failed? then PassThrough(io) else 0;
  }

  /**
   * `myfs_rename`: a restore of the source path `from` (not of `to`) is
   * requested and the rename is denied; `renameat` is never reached.
   */
  method MyfsRename(from: string, to: string, flags: nat, io: SysResult) returns (res: int, calls: seq<Call>)
    ensures calls == [RestoreBackup(from)]
    ensures res == -EIO
  {
    if IsMaliciousEnoughToKill() >= KillThreshold {
      calls := [RestoreBackup(from)];
      return -EIO, calls;
    }
    var relfrom := RelativePath(from);
    var relto := RelativePath(to);
    calls := [RenameAt(relfrom, relto)];
    res := if io.Failed? then PassThrough(io) else 0;
  }
}
