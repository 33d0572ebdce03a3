/** The registry's operations on its own fields, in the order the source performs
    them; each is proved to take the steps of the recovery machine. */
module Registries {
  import opened Patches
  import opened Wals
  import opened Recovery

  class Registry {
    const target: Target
    const wal: WAL
    var snap: Snapshot
    /** The commits the stored snapshot reflects. */
    ghost var archived: seq<Commit>

    /** What the recovery machine sees when no commit is in flight. */
    ghost function View(phase: Phase): (s: State)
      reads this, target, wal
    {
      State(ApplyPatch, target.doc, [], snap, wal.log, phase, archived)
    }

    /** NewRegistry on what is stored: load the snapshot, replay what follows its checkpoint. */
    constructor Boot(stored: Snapshot, log: WAL, ghost past: seq<Commit>)
      ensures snap == stored && wal == log && fresh(target) && archived == past
      ensures target.doc == Recover(View(Idle)).doc
    {
      target := new Target(stored.doc);
      wal := log;
      snap := stored;
      archived := past;
      new;
      var ok := wal.ReplaySince(target, snap.checkpoint);
    }

    /** A successful commit is applied and logged; a failed one is not logged but leaves
        in memory what its patch did before failing. */
    method CommitOps(ops: seq<PatchOp>, id: string) returns (ok: bool)
      modifies target, wal
      ensures ok == ApplyPatch(old(target.doc), ops).ok
      ensures ok ==> View(Idle) == Next(Next(old(View(Idle)), ApplyOps(ops)), Append(id))
      ensures !ok ==> wal.log == old(wal.log) && target.doc == ApplyPatch(old(target.doc), ops).doc
    {
      ok := target.Run(ops);
      if !ok {
        return;
      }
      var _ := wal.Append(id, ops);
      assert [ops][1..] == [];
    }

    method PersistForceSnapshot()
      modifies this, wal
      ensures View(Written) == Next(Next(old(View(Idle)), WriteSnapshot), ClearLog)
    {
      archived := History(View(Idle));
      var last := wal.LastCommitID();
      snap := Snapshot(target.doc, last);
      wal.Clear();
    }

    /** Stores a snapshot, clears the log, then clears it again. */
    method Compact()
      modifies this, wal
      ensures View(Idle) == Next(Next(Next(old(View(Idle)), WriteSnapshot), ClearLog), Unlock)
    {
      PersistForceSnapshot();
      wal.Clear();
    }

    /** Reloads the snapshot, replays the log from its start up to the target, stores the
        result and clears the log. On failure nothing stored has changed, and memory is left
        with what was replayed before. */
    method RollbackTo(commitID: string) returns (ok: bool)
      modifies this, wal, target
      ensures ok == ReplayAll(ApplyPatch, old(snap).doc, UpTo(old(wal.log), commitID)).ok
      ensures ok ==> View(Written) == Next(Next(old(View(Idle)), RollbackWrite(commitID)), ClearLog)
      ensures !ok ==> snap == old(snap) && wal.log == old(wal.log)
      ensures !ok ==> target.doc == ReplayAll(ApplyPatch, old(snap).doc, UpTo(old(wal.log), commitID)).doc
    {
      target.doc := snap.doc;
      ok := wal.ReplayUntil(target, commitID);
      if !ok {
        return;
      }
      PersistForceSnapshot();
      archived := old(archived) + UpTo(old(wal.log), commitID);
    }
  }
}
