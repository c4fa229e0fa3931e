# Behavioural ransomware guard: decision core in Dafny

The repository is a FUSE pass-through file system that tries to stop
ransomware by scoring the processes that write to a protected directory.
This project models the parts of it that make decisions:

- the bounded per-process **score registry** (`g_score_table`,
  `g_process_count` and the four functions around them, shared verbatim by
  `blue2.c` and `fuse.c`), as pure functions on the used prefix of the table
  and as a class `Registry.ScoreTable` over a 100-slot array whose methods
  are proved to act as those functions;
- the **kill decision** of `blue2.c`'s write handler: +10 per write, kill
  and `-EIO` once the score is strictly above 80, with lemmas on which write
  numbers are denied;
- the **path normaliser** `get_relative_path` (present in all three FUSE
  files);
- the forced-kill **rollback build** `simple_fuse_restore.c`: which backup
  and restore requests its write, unlink and rename handlers issue, and in
  what order;
- the **byte histogram** of `calculate_entropy` in `entropy.c`, with the
  list of (bucket, probability) terms that the floating-point sum runs over.

External calls (`kill`, `pwrite`, `unlinkat`, `renameat`, `close`, and the
restore module's `restore_backup_on_write` / `restore_backup_file`) are not
performed: each handler returns the ordered list of `Syscalls.Call` values it
issues, and receives the result of a forwarded system call as a
`Syscalls.SysResult` input. The clock (`time(NULL)`) is an input `now`.

Files: `wrappers.dfy` (Option), `paths.dfy`, `registry.dfy`,
`syscalls.dfy`, `blue2.dfy`, `fuse.dfy`, `simple_fuse_restore.dfy`,
`entropy.dfy`.

## What the code does

- A process that has no entry in a full table is never scored: the lookup
  returns NULL (blue2.c:57-59), `update_malice_score` skips the update
  (blue2.c:66), `get_malice_score` returns 0, and every write is forwarded
  (`Blue2.FullTableNeverDenies`).
- Nothing calls `reset_malice_score` (blue2.c:86-93). In every FUSE file
  `myfs_release` only closes the handle (`Syscalls.MyfsRelease`); the comment
  at simple_fuse_restore.c:132 records that the reset was removed from it.
- The kill test is strict (`> 80`, blue2.c:213) in `blue2.c` and inclusive
  (`>=`, simple_fuse_restore.c:149, with a forced value of 2 against a
  threshold of 1) in `simple_fuse_restore.c`.
- `blue2.c` kills and denies but requests no restore. `simple_fuse_restore.c`
  requests a restore and denies but kills nothing. Its write handler asks
  for a backup on every write, not only the first.
- The handlers weigh every write the same (+10); they keep no time window and
  never call `calculate_entropy`.

## Model

| member | source | states |
|---|---|---|
| `Paths.RelativePath` | blue2.c:96-104 | `"/"` and `""` give `"."`; otherwise the input is the result with exactly one `'/'` put back in front, or the input did not start with `'/'` and is returned unchanged; the result is never empty and fits PATH_MAX whenever the input does (same function at fuse.c:96-104 and simple_fuse_restore.c:27-35) |
| `Paths.RelativePathOfAbsolute` | fuse.c:96-104 | normalising `"/" + name` gives `name` back for every non-empty `name` |
| `Paths.RelativePathStripsOneSlash` | simple_fuse_restore.c:31-33 | only one leading slash is removed: a path starting with `"//"` keeps a leading `'/'` |
| `Registry.Find` | blue2.c:37-42 | the linear search returns the first used slot holding the pid, and returns nothing exactly when no used slot holds it |
| `Registry.FindOrCreate` | blue2.c:35-60 | a slot comes back iff the pid is tracked or the table has room; a tracked pid gets its own slot and the table is unchanged; an unseen pid with room gets slot `count` with score 0, the table growing by exactly that entry; a full table with an unseen pid gives NULL and no change; the invariant (at most 100 entries, distinct pids) is preserved; afterwards the pid is tracked iff there was room (same code at fuse.c:35-60) |
| `Registry.FindOrCreateKeepsSlots` | blue2.c:45-54 | find-or-create grows the table by at most one entry and keeps every earlier slot: the count never decreases and no entry is removed |
| `Registry.FindOrCreateScores` | fuse.c:45-54 | find-or-create changes no pid's score, because a created entry starts at 0 |
| `Registry.AddScore` | blue2.c:63-74 | the pid's score rises by exactly `added` when it has or gets an entry; every other pid's score is unchanged; when the table is full and the pid unseen the table is unchanged; no slot changes pid; the invariant is preserved (same code at fuse.c:63-74) |
| `Registry.GetScore` | blue2.c:77-83 | the read returns the stored score, or 0 for a pid just given an entry or not trackable; it changes no pid's score and leaves the table as find-or-create does (same code at fuse.c:77-83) |
| `Registry.Reset` | blue2.c:86-93 | the pid's score becomes 0 and other scores are unchanged; the entry is kept (the pid is tracked afterwards iff there was room); a tracked pid leaves the count unchanged; the invariant is preserved (same code at fuse.c:86-93) |
| `Registry.ScoreTable.constructor` | blue2.c:31-32 | the global table starts with 100 slots and none in use |
| `Registry.ScoreTable.FindOrCreateScoreEntry` | fuse.c:35-60 | the in-place search loop and append produce exactly the table and slot of `FindOrCreate`, keep the invariant, never decrease `count`, and leave the unused slots untouched |
| `Registry.ScoreTable.UpdateMaliceScore` | fuse.c:63-74 | updating the slot through the returned index leaves the table equal to `AddScore` of the old table, keeping the invariant |
| `Registry.ScoreTable.GetMaliceScore` | fuse.c:77-83 | returns `GetScore`'s score and leaves `GetScore`'s table |
| `Registry.ScoreTable.ResetMaliceScore` | fuse.c:86-93 | leaves the table equal to `Reset` of the old table, keeping the invariant |
| `Syscalls.PassThrough` | blue2.c:222-227 | a successful system call's own result (the byte count of `pwrite`) is returned unchanged; a failed one returns `-errno`, which is negative; so the result is non-negative exactly when the call succeeded |
| `Syscalls.MyfsRelease` | simple_fuse_restore.c:130-134 | release issues only `close(fh)` and returns 0; it has no access to the registry, so no score is reset (same handler at blue2.c:231-234) |
| `Fuse.MyfsWrite` | fuse.c:200-209 | fuse.c's write issues only `pwrite` and returns its result, with no scoring |
| `Blue2.WriteStep` | blue2.c:206-214 | a write's scoring leaves the table as `AddScore(+10)` does (the two reads change nothing); the verdict is Deny iff the updated score is strictly above 80; other pids' scores are unchanged; tracked pids stay tracked; the invariant is preserved |
| `Blue2.WritesAccumulate` | blue2.c:206-207 | while a pid has or can get an entry, `n` writes raise its score by exactly `10 * n` whatever the clock reads at each write, and it keeps its entry |
| `Blue2.NinthWriteDenied` | blue2.c:206-220 | from a zero score, for any sequence of clock readings, the `n`-th write is denied iff `n >= 9`: writes 1 to 8 are forwarded, every later one is denied |
| `Blue2.DenialPersists` | blue2.c:214-219 | once a write is denied, the same pid's next write is denied too |
| `Blue2.AfterResetNinthDenied` | blue2.c:86-93 | after `reset_malice_score`, the 9th following write is the first to be denied |
| `Blue2.FullTableUnchanged` | blue2.c:57-59 | with the table full and the pid unseen, any number of writes leave the table unchanged |
| `Blue2.FullTableNeverDenies` | blue2.c:64-66 | with the table full and the pid unseen, every one of those writes is forwarded |
| `Blue2.MyfsWrite` | blue2.c:200-228 | the handler leaves the registry as `WriteStep` says; on Deny it issues `kill(pid)` and returns `-EIO` without calling `pwrite`; on Forward it issues only `pwrite` and returns its pass-through result |
| `SimpleFuseRestore.IsMaliciousEnoughToKill` | simple_fuse_restore.c:38-41 | the forced value is at least KILL_THRESHOLD (1), so the inclusive kill test always passes |
| `SimpleFuseRestore.MyfsWrite` | simple_fuse_restore.c:142-163 | the write requests a backup of `path`, then a restore of `path`, and returns `-EIO`; `pwrite` is never issued and no process is killed |
| `SimpleFuseRestore.MyfsUnlink` | simple_fuse_restore.c:166-186 | the unlink requests only a restore of `path` and returns `-EIO`; `unlinkat` is never issued |
| `SimpleFuseRestore.MyfsRename` | simple_fuse_restore.c:189-211 | the rename requests only a restore of `from` (not `to`) and returns `-EIO`; `renameat` is never issued |
| `Entropy.UnsignedChar` | entropy.c:14 | the `(unsigned char)` cast maps every `char` to a bucket index below 256: non-negative values stay, negative ones gain 256 |
| `Entropy.CountSnoc` | entropy.c:13-15 | counting one more byte adds one to its own bucket and to no other |
| `Entropy.CalculateEntropy` | entropy.c:5-42 | size 0 gives the 0.0 result without counting; otherwise the zeroed `counts` array, the counting loop and the skipping loop produce exactly the terms of the histogram of `buffer[0..size)` |
| `Entropy.TermsUpTo` | entropy.c:19-24 | every term is a bucket with a non-zero count and probability `count / size`; the buckets appear in increasing order, so each at most once |
| `Entropy.TermsCoverNonEmpty` | entropy.c:19-22 | every bucket with a non-zero count has a term: only empty buckets are skipped |
| `Entropy.CountBounded` | entropy.c:13-15 | no bucket counts more bytes than were counted |
| `Entropy.HistogramTotal` | entropy.c:10-15 | the 256 counts, all zero at the start, add up to the number of bytes counted |
| `Entropy.TermsAreProbabilities` | entropy.c:24 | every term's probability lies in (0, 1] |
| `Entropy.TotalProbabilityUpTo` | entropy.c:19-24 | the terms of the first `n` buckets carry the sum of those counts divided by the size |
| `Entropy.ProbabilitiesSumToOne` | entropy.c:19-24 | the probabilities of a non-empty buffer's terms add up to exactly 1 |
| `Entropy.CountRepeated` | entropy.c:43-45 | in a buffer of one repeated byte, that byte's bucket counts every position and every other bucket is 0 |
| `Entropy.RepeatedByteSingleTerm` | entropy.c:43-45 | a buffer of one repeated byte yields a single term, for that byte, with probability 1 |

## Left out

- The pass-through FUSE callbacks (`myfs_getattr`, `myfs_readdir`, `myfs_open`, `myfs_create`, `myfs_read`, `myfs_mkdir`, `myfs_rmdir`, `myfs_utimens`, and `myfs_unlink` / `myfs_rename` of blue2.c and fuse.c), the `fuse_operations` tables and `main`: they relay system calls and make no decision.
- restore.c and restore.h are not part of this model beyond the two calls the handlers make: `restore_init` only creates directories, and `restore_backup_on_write`, `restore_backup_file` and `copy_file_data` are empty stubs, so backup and restore appear only as `Syscalls.Call` values.
- The floating-point value of the entropy (`log2`, `double` accumulation): the model stops at the list of terms that are summed.
- Concurrency: the registry is mutated from FUSE worker threads without a lock; the model is sequential.
- `time(NULL)`: taken as an input `now`, read once per operation (the C code may read it twice in one update); `Blue2.RunWrites` takes one reading per write. Only `lastWriteTime` depends on it, and nothing reads that field.
- `proc_name`: never written or read, so not modelled.
- Logging (`fprintf`) and the outcome of `kill`, which is only logged.
- Integer widths: `malice_score` and the counts are unbounded integers, so the 32-bit overflow of a score after about 200 million writes is not modelled.
- The `strncpy(relpath, path, PATH_MAX)` buffer: paths are sequences of characters; the PATH_MAX bound is stated only as "a path that fits gives a result that fits", and it counts characters, whereas PATH_MAX counts bytes, so a path holding multi-byte UTF-8 characters is not bounded the way the C buffer is.
- `char` is taken to be signed 8-bit (x86-64 Linux); on an unsigned-char platform the cast is the identity, which the same `Entropy.UnsignedChar` contract covers for non-negative values.
