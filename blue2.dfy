/**
 * The scoring and kill decision of blue2.c's write handler (lines 200-228).
 * Every write adds 10 to the calling process's score; when the updated score
 * is strictly above KILL_THRESHOLD the process is sent SIGKILL and the write
 * is denied with `-EIO`, otherwise it is forwarded to `pwrite`.
 */
module Blue2 {
  import opened Registry
  import opened Syscalls

  /** KILL_THRESHOLD */
  const KillThreshold: int := 80

  /** `added_score`: the fixed weight of one write. */
  const WriteScore: int := 10

  datatype Verdict = Forward | Deny

  /** The table after one write's scoring, and the write's verdict. */
  datatype Step = Step(entries: seq<ProcessScore>, verdict: Verdict)

  /**
   * The registry part of `myfs_write`: add the write's score, read the score
   * for the debug log, read it again for the threshold test. The two reads
   * change nothing, so the table ends as the update left it.
   */
  function WriteStep(entries: seq<ProcessScore>, pid: int, now: int): (r: Step)
    ensures r.entries == AddScore(entries, pid, WriteScore, now)
    ensures r.verdict == Deny <==> ScoreOf(r.entries, pid) > KillThreshold
    ensures forall q :: q != pid ==> ScoreOf(r.entries, q) == ScoreOf(entries, q)
    ensures forall q :: Tracked(entries, q) ==> Tracked(r.entries, q)
    ensures Inv(entries) ==> Inv(r.entries)
  {
    var added := AddScore(entries, pid, WriteScore, now);
    var logged := GetScore(added, pid, now);
    var checked := GetScore(logged.entries, pid, now);
    Step(checked.entries, if checked.score > KillThreshold then Deny else Forward)
  }

  /**
   * The table after consecutive writes by `pid`, with no reset in between;
   * write `k` reads the clock as `clock[k]`.
   */
  function RunWrites(entries: seq<ProcessScore>, pid: int, clock: seq<int>): seq<ProcessScore>
  {
    if clock == [] then entries
    else WriteStep(RunWrites(entries, pid, clock[..|clock| - 1]), pid, clock[|clock| - 1]).entries
  }

  /** The verdict on the `n`-th of those writes (counting from 1). */
  function NthWriteVerdict(entries: seq<ProcessScore>, pid: int, clock: seq<int>, n: nat): Verdict
    requires 1 <= n <= |clock|
  {
    WriteStep(RunWrites(entries, pid, clock[..n - 1]), pid, clock[n - 1]).verdict
  }

  /**
   * While the pid has (or can get) an entry, each write adds exactly
   * WriteScore, whatever the clock reads.
   */
  lemma {:induction false} WritesAccumulate(entries: seq<ProcessScore>, pid: int, clock: seq<int>)
    requires HasRoom(entries, pid)
    ensures ScoreOf(RunWrites(entries, pid, clock), pid) == ScoreOf(entries, pid) + WriteScore * |clock|
    ensures HasRoom(RunWrites(entries, pid, clock), pid)
  {
    if clock != [] {
      var n := |clock|;
      var before := RunWrites(entries, pid, clock[..n - 1]);
      WritesAccumulate(entries, pid, clock[..n - 1]);
      var after := WriteStep(before, pid, clock[n - 1]).entries;
      assert ScoreOf(after, pid) == ScoreOf(before, pid) + WriteScore;
      assert WriteScore * n == WriteScore * (n - 1) + WriteScore;
    }
  }

  /**
   * From a zero score, writes 1 to 8 are forwarded and every write from the
   * 9th on is denied: 80 is not above the threshold, 90 is.
   */
  lemma NinthWriteDenied(entries: seq<ProcessScore>, pid: int, clock: seq<int>, n: nat)
    requires HasRoom(entries, pid) && ScoreOf(entries, pid) == 0 && 1 <= n <= |clock|
    ensures NthWriteVerdict(entries, pid, clock, n) == Deny <==> n >= 9
  {
    WritesAccumulate(entries, pid, clock[..n - 1]);
  }

  /** Scores only grow between resets, so once a pid's write is denied, so is its next one. */
  lemma DenialPersists(entries: seq<ProcessScore>, pid: int, clock: seq<int>, n: nat)
    requires HasRoom(entries, pid) && 1 <= n < |clock|
    requires NthWriteVerdict(entries, pid, clock, n) == Deny
    ensures NthWriteVerdict(entries, pid, clock, n + 1) == Deny
  {
    WritesAccumulate(entries, pid, clock[..n - 1]);
    WritesAccumulate(entries, pid, clock[..n]);
  }

  /**
   * After `reset_malice_score` (at clock reading `resetTime`), counting starts
   * afresh: the 9th following write is the first one denied.
   */
  lemma AfterResetNinthDenied(entries: seq<ProcessScore>, pid: int, resetTime: int, clock: seq<int>, n: nat)
    requires HasRoom(entries, pid) && 1 <= n <= |clock|
    ensures NthWriteVerdict(Reset(entries, pid, resetTime), pid, clock, n) == Deny <==> n >= 9
  {
    NinthWriteDenied(Reset(entries, pid, resetTime), pid, clock, n);
  }

  /**
   * With the table full, a pid that has no entry is never scored: its writes
   * leave the table as it is, however many there are.
   */
  lemma {:induction false} FullTableUnchanged(entries: seq<ProcessScore>, pid: int, clock: seq<int>)
    requires !HasRoom(entries, pid)
    ensures RunWrites(entries, pid, clock) == entries
  {
    if clock != [] {
      FullTableUnchanged(entries, pid, clock[..|clock| - 1]);
    }
  }

  /** With the table full and the pid unseen, every write is forwarded. */
  lemma FullTableNeverDenies(entries: seq<ProcessScore>, pid: int, clock: seq<int>, n: nat)
    requires !HasRoom(entries, pid) && 1 <= n <= |clock|
    ensures NthWriteVerdict(entries, pid, clock, n) == Forward
  {
    FullTableUnchanged(entries, pid, clock[..n - 1]);
  }

  /**
   * `myfs_write` of blue2.c. The kill is issued whether or not it succeeds (a
   * failure is only logged), and `pwrite` is reached only when the write is
   * forwarded; its outcome `io` is then returned the pass-through way.
   */
  method MyfsWrite(scores: ScoreTable, pid: int, fh: int, size: nat, offset: int, now: int, io: SysResult)
    returns (res: int, calls: seq<Call>)
    requires scores.Valid()
    modifies scores, scores.table
    ensures scores.Valid()
    ensures var step := WriteStep(old(scores.Entries()), pid, now);
            && scores.Entries() == step.entries
            && (step.verdict == Deny ==> res == -EIO && calls == [Kill(pid)])
            && (step.verdict == Forward ==> res == PassThrough(io) && calls == [PWrite(fh, size, offset)])
  {
    scores.UpdateMaliceScore(pid, WriteScore, now);
    var logged := scores.GetMaliceScore(pid, now);
    var score := scores.GetMaliceScore(pid, now);
    if score > KillThreshold {
      calls := [Kill(pid)];
      return -EIO, calls;
    }
    calls := [PWrite(fh, size, offset)];
    res := PassThrough(io);
  }
}
