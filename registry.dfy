/**
 * The bounded per-process malice-score registry of blue2.c (lines 22-93),
 * repeated unchanged in fuse.c (lines 22-93).
 *
 * The C code keeps a global array of MAX_TRACKED_PIDS `ProcessScore` slots and
 * a fill counter. Slots `[0, count)` are in use; an entry is never removed.
 * The first half of this module describes that table as a value (the used
 * prefix, a `seq<ProcessScore>`) and gives each registry operation as a
 * function on it; the class `ScoreTable` at the end is the table itself,
 * updated in place, and each of its methods is proved to act exactly as the
 * corresponding function.
 */
module Registry {
  import opened Wrappers

  /** MAX_TRACKED_PIDS */
  const MaxTrackedPids: nat := 100

  /**
   * One slot of `g_score_table`. `lastWriteTime` is the `time(NULL)` reading
   * stored on creation and on every score update; nothing reads it back.
   * The unused `proc_name` buffer is not modelled.
   */
  datatype ProcessScore = ProcessScore(pid: int, maliceScore: int, lastWriteTime: int)

  /** The table after a find-or-create, and the slot index returned (`None` for NULL). */
  datatype Lookup = Lookup(entries: seq<ProcessScore>, slot: Option<nat>)

  /** The table after `get_malice_score`, and the score it returned. */
  datatype Reading = Reading(entries: seq<ProcessScore>, score: int)

  /** Some used slot belongs to `pid`. */
  predicate Tracked(entries: seq<ProcessScore>, pid: int)
  {
    exists i :: 0 <= i < |entries| && entries[i].pid == pid
  }

  /** No two used slots hold the same pid. */
  predicate DistinctPids(entries: seq<ProcessScore>)
  {
    forall i, j :: 0 <= i < j < |entries| ==> entries[i].pid != entries[j].pid
  }

  /** The registry invariant: within capacity, at most one entry per pid. */
  predicate Inv(entries: seq<ProcessScore>)
  {
    |entries| <= MaxTrackedPids && DistinctPids(entries)
  }

  /** The pid has an entry, or there is a free slot to create one in. */
  predicate HasRoom(entries: seq<ProcessScore>, pid: int)
  {
    Tracked(entries, pid) || |entries| < MaxTrackedPids
  }

  /** The first used slot that belongs to `pid`, as the linear search of blue2.c:37-42 finds it. */
  function Find(entries: seq<ProcessScore>, pid: int): (r: Option<nat>)
    ensures r.Some? ==> r.value < |entries| && entries[r.value].pid == pid
    ensures r.Some? ==> forall j :: 0 <= j < r.value ==> entries[j].pid != pid
    ensures r.None? <==> !Tracked(entries, pid)
  {
    if entries == [] then
      None
    else if entries[0].pid == pid then
      Some(0)
    else
      match Find(entries[1..], pid)
      case None => None
      case Some(k) => Some(k + 1)
  }

  /** The score the table holds for `pid`; 0 for a pid it does not track. */
  function ScoreOf(entries: seq<ProcessScore>, pid: int): int
  {
    match Find(entries, pid)
    case None => 0
    case Some(i) => entries[i].maliceScore
  }

  /** The first slot holding `pid` is the one `Find` returns. */
  lemma FindFirst(entries: seq<ProcessScore>, pid: int, i: nat)
    requires i < |entries| && entries[i].pid == pid
    requires forall j :: 0 <= j < i ==> entries[j].pid != pid
    ensures Find(entries, pid) == Some(i)
  {
  }

  /** `Find` looks at pids only: tables with the same pids in the same slots agree on it. */
  lemma FindSamePids(a: seq<ProcessScore>, b: seq<ProcessScore>, pid: int)
    requires |a| == |b|
    requires forall i :: 0 <= i < |a| ==> a[i].pid == b[i].pid
    ensures Find(a, pid) == Find(b, pid)
  {
    match Find(a, pid)
    case None =>
    case Some(i) => FindFirst(b, pid, i);
  }

  /**
   * `find_or_create_score_entry` (blue2.c:35-60, fuse.c:35-60): an existing
   * entry is returned and nothing changes; an unseen pid gets a fresh
   * zero-score entry in slot `count` when there is room; otherwise NULL is
   * returned and nothing changes.
   */
  function FindOrCreate(entries: seq<ProcessScore>, pid: int, now: int): (r: Lookup)
    ensures r.slot.Some? <==> HasRoom(entries, pid)
    ensures r.slot.Some? ==> r.slot.value < |r.entries| && r.entries[r.slot.value].pid == pid
    ensures Tracked(entries, pid) ==> r.entries == entries && r.slot == Find(entries, pid)
    ensures !Tracked(entries, pid) && |entries| < MaxTrackedPids ==>
              r.entries == entries + [ProcessScore(pid, 0, now)] && r.slot == Some(|entries|)
    ensures !HasRoom(entries, pid) ==> r.entries == entries
    ensures Inv(entries) ==> Inv(r.entries)
    ensures Tracked(r.entries, pid) <==> HasRoom(entries, pid)
  {
    match Find(entries, pid)
    case Some(i) => Lookup(entries, Some(i))
    case None =>
      if |entries| < MaxTrackedPids then
        var created := ProcessScore(pid, 0, now);
        assert (entries + [created])[|entries|] == created;
        Lookup(entries + [created], Some(|entries|))
      else
        Lookup(entries, None)
  }

  /** The table after a find-or-create keeps every earlier slot and grows by at most one. */
  lemma FindOrCreateKeepsSlots(entries: seq<ProcessScore>, pid: int, now: int)
    ensures var r := FindOrCreate(entries, pid, now).entries;
            |entries| <= |r| <= |entries| + 1 && r[..|entries|] == entries
  {
  }

  /** The table after a slot's score (and write time) is overwritten. */
  function SetScore(entries: seq<ProcessScore>, i: nat, score: int, now: int, touchTime: bool): seq<ProcessScore>
    requires i < |entries|
  {
    entries[i := entries[i].(maliceScore := score,
                             lastWriteTime := if touchTime then now else entries[i].lastWriteTime)]
  }

  /** Overwriting the score of the first slot of `pid` changes `pid`'s score and no other pid's. */
  lemma SetScoreEffect(entries: seq<ProcessScore>, pid: int, score: int, now: int, touchTime: bool)
    requires Find(entries, pid).Some?
    ensures var r := SetScore(entries, Find(entries, pid).value, score, now, touchTime);
            && ScoreOf(r, pid) == score
            && (forall q :: q != pid ==> ScoreOf(r, q) == ScoreOf(entries, q))
            && (forall q :: Tracked(r, q) <==> Tracked(entries, q))
  {
    var i := Find(entries, pid).value;
    var r := SetScore(entries, i, score, now, touchTime);
    forall q ensures Find(r, q) == Find(entries, q) && (Tracked(r, q) <==> Tracked(entries, q)) {
      FindSamePids(r, entries, q);
    }
  }

  /**
   * `update_malice_score` (blue2.c:63-74, fuse.c:63-74): after a find-or-create,
   * the pid's score is raised by exactly `added`; every other pid keeps its
   * score; when the table is full and the pid unseen, nothing changes.
   */
  function AddScore(entries: seq<ProcessScore>, pid: int, added: int, now: int): (r: seq<ProcessScore>)
    ensures ScoreOf(r, pid) == ScoreOf(entries, pid) + (if HasRoom(entries, pid) then added else 0)
    ensures forall q :: q != pid ==> ScoreOf(r, q) == ScoreOf(entries, q)
    ensures Tracked(r, pid) <==> HasRoom(entries, pid)
    ensures !HasRoom(entries, pid) ==> r == entries
    ensures |r| == |FindOrCreate(entries, pid, now).entries|
    ensures forall i :: 0 <= i < |entries| ==> r[i].pid == entries[i].pid
    ensures Inv(entries) ==> Inv(r)
  {
    var l := FindOrCreate(entries, pid, now);
    match l.slot
    case None => l.entries
    case Some(i) =>
      FindFirst(l.entries, pid, i);
      FindOrCreateScores(entries, pid, now);
      SetScoreEffect(l.entries, pid, l.entries[i].maliceScore + added, now, true);
      SetScore(l.entries, i, l.entries[i].maliceScore + added, now, true)
  }

  /**
   * `get_malice_score` (blue2.c:77-83, fuse.c:77-83): the stored score, or 0
   * for a pid just given a fresh entry, or 0 when the table is full. The read
   * creates an entry as a side effect but changes no pid's score.
   */
  function GetScore(entries: seq<ProcessScore>, pid: int, now: int): (r: Reading)
    ensures r.score == ScoreOf(entries, pid)
    ensures HasRoom(entries, pid) && !Tracked(entries, pid) ==> r.score == 0
    ensures forall q :: ScoreOf(r.entries, q) == ScoreOf(entries, q)
    ensures r.entries == FindOrCreate(entries, pid, now).entries
    ensures Inv(entries) ==> Inv(r.entries)
  {
    var l := FindOrCreate(entries, pid, now);
    match l.slot
    case None => Reading(l.entries, 0)
    case Some(i) =>
      FindFirst(l.entries, pid, i);
      FindOrCreateScores(entries, pid, now);
      Reading(l.entries, l.entries[i].maliceScore)
  }

  /** A find-or-create changes no pid's score: an appended entry starts at 0. */
  lemma FindOrCreateScores(entries: seq<ProcessScore>, pid: int, now: int)
    ensures forall q :: ScoreOf(FindOrCreate(entries, pid, now).entries, q) == ScoreOf(entries, q)
  {
    var l := FindOrCreate(entries, pid, now);
    if !Tracked(entries, pid) && |entries| < MaxTrackedPids {
      forall q ensures ScoreOf(l.entries, q) == ScoreOf(entries, q) {
        match Find(entries, q)
        case None =>
          if q == pid {
            FindFirst(l.entries, q, |entries|);
          } else {
            assert !Tracked(l.entries, q);
          }
        case Some(i) =>
          FindFirst(l.entries, q, i);
      }
    }
  }

  /**
   * `reset_malice_score` (blue2.c:86-93, fuse.c:86-93): the pid's score becomes
   * 0 and its entry stays in the table; other pids are untouched; the count is
   * that of the find-or-create, so a tracked pid leaves it unchanged.
   */
  function Reset(entries: seq<ProcessScore>, pid: int, now: int): (r: seq<ProcessScore>)
    ensures ScoreOf(r, pid) == 0
    ensures forall q :: q != pid ==> ScoreOf(r, q) == ScoreOf(entries, q)
    ensures Tracked(r, pid) <==> HasRoom(entries, pid)
    ensures Tracked(entries, pid) ==> |r| == |entries|
    ensures |r| == |FindOrCreate(entries, pid, now).entries|
    ensures forall i :: 0 <= i < |entries| ==> r[i].pid == entries[i].pid
    ensures Inv(entries) ==> Inv(r)
  {
    var l := FindOrCreate(entries, pid, now);
    FindOrCreateScores(entries, pid, now);
    match l.slot
    case None => l.entries
    case Some(i) =>
      FindFirst(l.entries, pid, i);
      SetScoreEffect(l.entries, pid, 0, now, false);
      SetScore(l.entries, i, 0, now, false)
  }

  /**
   * `g_score_table` and `g_process_count`, updated in place. The slots past
   * `count` are never read; only the used prefix is the registry's content.
   */
  class ScoreTable {
    const table: array<ProcessScore>
    var count: nat

    ghost predicate Valid()
      reads this, table
    {
      table.Length == MaxTrackedPids && count <= MaxTrackedPids && Inv(table[..count])
    }

    /** The used slots `[0, count)`. */
    ghost function Entries(): seq<ProcessScore>
      reads this, table
      requires count <= table.Length
    {
      table[..count]
    }

    /** The zero-initialised global table: 100 slots, none in use. */
    constructor ()
      ensures Valid() && fresh(table) && Entries() == []
    {
      table := new ProcessScore[MaxTrackedPids](_ => ProcessScore(0, 0, 0));
      count := 0;
    }

    /** `find_or_create_score_entry`: the search loop, then append or NULL. */
    method FindOrCreateScoreEntry(pid: int, now: int) returns (slot: Option<nat>)
      requires Valid()
      modifies this, table
      ensures Valid() && old(count) <= count
      ensures var l := FindOrCreate(old(Entries()), pid, now); Entries() == l.entries && slot == l.slot
      ensures forall j :: count <= j < table.Length ==> table[j] == old(table[j])
    {
      for i := 0 to count
        invariant forall j :: 0 <= j < i ==> table[j].pid != pid
      {
        if table[i].pid == pid {
          FindFirst(Entries(), pid, i);
          return Some(i);
        }
      }
      assert !Tracked(Entries(), pid);
      if count < MaxTrackedPids {
        table[count] := ProcessScore(pid, 0, now);
        count := count + 1;
        assert Entries() == old(Entries()) + [ProcessScore(pid, 0, now)];
        slot := Some(count - 1);
      } else {
        slot := None;
      }
    }

    /** `update_malice_score`: find or create, then add to that slot's score and stamp its time. */
    method UpdateMaliceScore(pid: int, added: int, now: int)
      requires Valid()
      modifies this, table
      ensures Valid() && Entries() == AddScore(old(Entries()), pid, added, now)
    {
      var slot := FindOrCreateScoreEntry(pid, now);
      if slot.Some? {
        var i := slot.value;
        table[i] := table[i].(maliceScore := table[i].maliceScore + added, lastWriteTime := now);
        assert Entries() == old(FindOrCreate(Entries(), pid, now)).entries[i := table[i]];
      }
    }

    /** `get_malice_score`: find or create, then the slot's score, or 0 for NULL. */
    method GetMaliceScore(pid: int, now: int) returns (score: int)
      requires Valid()
      modifies this, table
      ensures Valid()
      ensures var g := GetScore(old(Entries()), pid, now); Entries() == g.entries && score == g.score
    {
      var slot := FindOrCreateScoreEntry(pid, now);
      if slot.Some? {
        score := table[slot.value].maliceScore;
      } else {
        score := 0;
      }
    }

    /** `reset_malice_score`: find or create, then zero that slot's score; the entry stays. */
    method ResetMaliceScore(pid: int, now: int)
      requires Valid()
      modifies this, table
      ensures Valid() && Entries() == Reset(old(Entries()), pid, now)
    {
      var slot := FindOrCreateScoreEntry(pid, now);
      if slot.Some? {
        var i := slot.value;
        table[i] := table[i].(maliceScore := 0);
        assert Entries() == old(FindOrCreate(Entries(), pid, now)).entries[i := table[i]];
      }
    }
  }
}
