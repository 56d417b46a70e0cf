/** The deletion of old task runs in batches. */
module TaskCleanup {
  import opened Chronology
  import opened Counting

  datatype TaskRun = TaskRun(id: nat, createdAt: int)

  function IsOld(cutoff: int): TaskRun -> bool {
    (r: TaskRun) => r.createdAt < cutoff
  }

  function IsRecent(cutoff: int): TaskRun -> bool {
    (r: TaskRun) => r.createdAt >= cutoff
  }

  ghost predicate UniqueIds(runs: seq<TaskRun>) {
    forall r, s | r in runs && s in runs && r.id == s.id :: r == s
  }

  function Without(runs: seq<TaskRun>, ids: set<nat>): seq<TaskRun> {
    if runs == [] then []
    else (if runs[0].id in ids then [] else [runs[0]]) + Without(runs[1..], ids)
  }

  lemma {:induction false} WithoutMembers(runs: seq<TaskRun>, ids: set<nat>, r: TaskRun)
    ensures r in Without(runs, ids) <==> r in runs && r.id !in ids
  {
    if runs != [] {
      WithoutMembers(runs[1..], ids, r);
    }
  }

  /** Deleting old runs deletes no recent one and keeps the order. */
  lemma {:induction false} WithoutOld(runs: seq<TaskRun>, ids: set<nat>, cutoff: int)
    requires forall r | r in runs && r.id in ids :: r.createdAt < cutoff
    ensures Select(Without(runs, ids), IsRecent(cutoff)) == Select(runs, IsRecent(cutoff))
    ensures |Select(Without(runs, ids), IsOld(cutoff))| + |runs| ==
            |Select(runs, IsOld(cutoff))| + |Without(runs, ids)|
  {
    if runs != [] {
      assert forall r | r in runs[1..] :: r in runs;
      assert runs[0] in runs;
      WithoutOld(runs[1..], ids, cutoff);
      if runs[0].id in ids {
        assert IsOld(cutoff)(runs[0]) && !IsRecent(cutoff)(runs[0]);
        assert Without(runs, ids) == Without(runs[1..], ids);
      } else {
        assert Without(runs, ids)[1..] == Without(runs[1..], ids);
      }
    }
  }

  lemma {:induction false} WithoutShrinks(runs: seq<TaskRun>, ids: set<nat>)
    ensures |Without(runs, ids)| <= |runs|
    ensures (exists r :: r in runs && r.id in ids) ==> |Without(runs, ids)| < |runs|
  {
    if runs != [] {
      WithoutShrinks(runs[1..], ids);
      if r :| r in runs && r.id in ids && r != runs[0] {
        assert r in runs[1..];
      }
    }
  }

  /** A batch of old runs names old runs only. */
  lemma OldIds(runs: seq<TaskRun>, cutoff: int, batch: seq<TaskRun>, ids: set<nat>)
    requires UniqueIds(runs) && ids == set r | r in batch :: r.id
    requires forall r | r in batch :: r in runs && r.createdAt < cutoff
    ensures forall r | r in runs && r.id in ids :: r.createdAt < cutoff
  {
  }

  lemma {:induction false} AllRecent(runs: seq<TaskRun>, cutoff: int)
    requires Select(runs, IsOld(cutoff)) == []
    ensures Select(runs, IsRecent(cutoff)) == runs
  {
    if runs != [] {
      assert !IsOld(cutoff)(runs[0]);
      AllRecent(runs[1..], cutoff);
    }
  }

  lemma OldCount(runs: seq<TaskRun>, cutoff: int)
    ensures |Select(runs, IsOld(cutoff))| == |set n | 0 <= n < |runs| && runs[n].createdAt < cutoff|
  {
    SelectCount(runs, IsOld(cutoff));
    hide Select, Tally;
    TallyIsSize(runs, IsOld(cutoff), set n | 0 <= n < |runs| && runs[n].createdAt < cutoff);
  }

  class TaskRuns {
    var runs: seq<TaskRun>

    constructor (runs: seq<TaskRun>)
      ensures this.runs == runs
    {
      this.runs := runs;
    }

    /** For any batch size of at least one the loop ends, exactly the old runs are gone, the recent ones keep their
        order, and the total is the number deleted. */
    method CleanUp(cutoff: int, batchSize: nat) returns (deletedTotal: nat)
      requires batchSize >= 1 && UniqueIds(runs)
      modifies this
      ensures runs == Select(old(runs), IsRecent(cutoff))
      ensures deletedTotal == |Select(old(runs), IsOld(cutoff))|
      ensures forall r :: r in runs <==> r in old(runs) && r.createdAt >= cutoff
      ensures deletedTotal == |set n | 0 <= n < |old(runs)| && old(runs)[n].createdAt < cutoff|
    {
      OldCount(runs, cutoff);
      deletedTotal := 0;
      while true
        invariant UniqueIds(runs)
        invariant Select(runs, IsRecent(cutoff)) == Select(old(runs), IsRecent(cutoff))
        invariant deletedTotal + |Select(runs, IsOld(cutoff))| == |Select(old(runs), IsOld(cutoff))|
        decreases |runs|
      {
        var oldRuns := Select(runs, IsOld(cutoff));
        if oldRuns == [] {
          break;
        }
        var batch := if batchSize < |oldRuns| then oldRuns[..batchSize] else oldRuns;
        var ids := set r | r in batch :: r.id;
        assert batch[0] in batch && batch[0] in oldRuns;
        WithoutShrinks(runs, ids);
        OldIds(runs, cutoff, batch, ids);
        WithoutOld(runs, ids, cutoff);
        var kept := Without(runs, ids);
        forall r | r in kept ensures r in runs {
          WithoutMembers(runs, ids, r);
        }
        deletedTotal := deletedTotal + (|runs| - |kept|);
        runs := kept;
      }
      AllRecent(runs, cutoff);
    }
  }
}
