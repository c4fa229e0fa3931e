/**
 * fuse.c: the score registry (module Registry) and the path normaliser
 * (module Paths) are verbatim copies of blue2.c's; its write handler has no
 * scoring at all.
 */
module Fuse {
  import opened Syscalls

  /** `myfs_write` of fuse.c: a plain forward to `pwrite`, whose result is returned. */
  method MyfsWrite(fh: int, size: nat, offset: int, io: SysResult) returns (res: int, calls: seq<Call>)
    ensures calls == [PWrite(fh, size, offset)]
    ensures res == PassThrough(io)
  {
    calls := [PWrite(fh, size, offset)];
    res := PassThrough(io);
  }
}
