/**
 * The calls the FUSE handlers make into the kernel and into the restore
 * module. The model does not perform them: a handler returns the list of
 * calls it issues, in order, and receives the results it needs as inputs.
 */
module Syscalls {

  /** EIO from <errno.h>; a denied operation returns `-EIO`. */
  const EIO: int := 5

  /** One external call issued by a handler. */
  datatype Call =
    | Kill(pid: int)                         // kill(pid, SIGKILL)
    | PWrite(fh: int, size: nat, offset: int) // pwrite(fi->fh, buf, size, offset)
    | UnlinkAt(relpath: string)              // unlinkat(base_fd, relpath, 0)
    | RenameAt(relfrom: string, relto: string) // renameat(base_fd, relfrom, base_fd, relto)
    | Close(fh: int)                         // close(fi->fh)
    | BackupOnWrite(path: string)            // restore_backup_on_write(path, base_fd)
    | RestoreBackup(path: string)            // restore_backup_file(path, base_fd)

  /** An `errno` value: error numbers are positive. */
  type Errno = e: int | e > 0 witness 1

  /** What a system call gave back: a non-negative result, or -1 with `errno` set. */
  datatype SysResult = Done(n: nat) | Failed(errno: Errno)

  /** The `res = call(...); if (res == -1) res = -errno;` idiom of the pass-through paths. */
  function PassThrough(io: SysResult): (res: int)
    ensures io.Done? ==> res == io.n as int
    ensures io.Failed? ==> res == -(io.errno as int) && res < 0
    ensures res >= 0 <==> io.Done?
  {
    match io
    case Done(n) => n
    case Failed(e) => -(e as int)
  }

  /**
   * `myfs_release` (identical in blue2.c, fuse.c and simple_fuse_restore.c):
   * close the handle and report success. It has no access to the score
   * registry, so a release never resets a score.
   */
  method MyfsRelease(fh: int) returns (res: int, calls: seq<Call>)
    ensures res == 0 && calls == [Close(fh)]
  {
    calls := [Close(fh)];
    res := 0;
  }
}
