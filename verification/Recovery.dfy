/** Crash recovery of the configuration registry as a state machine over memory,
    the stored snapshot and the log: config/registry_impl.go, config/loader.go,
    config/compactor.go and config/rollback.go. */
module Recovery {
  import opened Patches
  import opened Wals

  datatype Snapshot = Snapshot(doc: Node, checkpoint: string)

  /** `Written`: a snapshot has been stored and the registry lock is still held. */
  datatype Phase = Idle | Written

  /** `inflight` holds commits applied to memory but not yet appended to the log, in
      the order they were applied and still without an id; `archived` the commits the snapshot already reflects. */
  datatype State = State(apply: Engine, mem: Node, inflight: seq<Commit>, snap: Snapshot, log: seq<Commit>, phase: Phase, archived: seq<Commit>)

  datatype Step =
    | ApplyOps(ops: seq<PatchOp>)   // first half of CommitOps, under the lock
    | Append(id: string)            // second half, after the lock is released
    | WriteSnapshot                 // persistLocked
    | ClearLog                      // wal.Clear
    | Unlock
    | RollbackWrite(id: string)     // RollbackTo up to and including its snapshot
    | Crash                         // and restart through NewRegistry

  /** What recovery replays: the commits after the checkpoint. */
  function Rest(s: State): (r: seq<Commit>) {
    Suffix(s.log, s.snap.checkpoint)
  }

  /** NewRegistry: load the snapshot, replay the rest. */
  function Recover(s: State): (r: Outcome) {
    ReplayAll(s.apply, s.snap.doc, Rest(s))
  }

  /** The acknowledged commits that count, in order. */
  function History(s: State): (r: seq<Commit>) {
    s.archived + Rest(s)
  }

  predicate Fresh(s: State, id: string) {
    id != "" && id != s.snap.checkpoint && !Contains(s.log, id)
  }

  predicate Enabled(s: State, step: Step) {
    match step
    case ApplyOps(ops) => s.phase.Idle? && s.apply(s.mem, ops).ok
    case Append(id) => s.inflight != [] && Fresh(s, id)
    case WriteSnapshot => s.phase.Idle? && s.inflight == []
    case ClearLog => s.phase.Written?
    case Unlock => s.phase.Written?
    case RollbackWrite(id) =>
      s.phase.Idle? && s.inflight == [] && id != "" && Contains(s.log, id) && !Contains(s.log, s.snap.checkpoint)
    case Crash => true
  }

  function Next(s: State, step: Step): (t: State) {
    match step
    case ApplyOps(ops) => s.(mem := s.apply(s.mem, ops).doc, inflight := s.inflight + [Commit("", ops)])
    case Append(id) =>
      if s.inflight == [] then s
      else
        var c := s.inflight[0].(id := id);
        s.(inflight := s.inflight[1..], log := s.log + [c])
    case WriteSnapshot => s.(snap := Snapshot(s.mem, LastId(s.log)), phase := Written, archived := History(s))
    case ClearLog => s.(log := [])
    case Unlock => s.(phase := Idle)
    case RollbackWrite(id) =>
      var doc := ReplayAll(s.apply, s.snap.doc, UpTo(s.log, id)).doc;
      s.(mem := doc, snap := Snapshot(doc, LastId(s.log)), phase := Written, archived := s.archived + UpTo(s.log, id))
    case Crash => s.(mem := Recover(s).doc, inflight := [], phase := Idle)
  }

  predicate CanRun(s: State, steps: seq<Step>)
    decreases |steps|
  {
    steps == [] || (Enabled(s, steps[0]) && CanRun(Next(s, steps[0]), steps[1..]))
  }

  function Ran(s: State, steps: seq<Step>): (t: State)
    decreases |steps|
  {
    if steps == [] then s else Ran(Next(s, steps[0]), steps[1..])
  }

  /** A registry just loaded from `doc`, with no log. */
  function Initial(apply: Engine, doc: Node): (s: State) {
    State(apply, doc, [], Snapshot(doc, ""), [], Idle, [])
  }

  // ----- the invariant

  /** The snapshot is the document after the archived commits, the rest replays, and
      memory is one application of the commits still in flight away from it. */
  ghost predicate Inv(d0: Node, s: State) {
    && Distinct(s.log)
    && ReplayAll(s.apply, d0, s.archived) == Outcome(s.snap.doc, true)
    && Recover(s).ok
    && ReplayAll(s.apply, Recover(s).doc, s.inflight) == Outcome(s.mem, true)
    && (s.phase.Written? ==> s.inflight == [] && Rest(s) == [])
  }

  /** Recovery rebuilds the document after every acknowledged commit, each applied
      once and in order. */
  lemma RecoverExact(d0: Node, s: State)
    requires Inv(d0, s)
    ensures Recover(s) == ReplayAll(s.apply, d0, History(s)) && Recover(s).ok
    ensures s.inflight == [] ==> Recover(s) == Outcome(s.mem, true)
  {
    ReplayConcat(s.apply, d0, s.archived, Rest(s));
  }

  lemma AppendKeeps(d0: Node, s: State, id: string)
    requires Inv(d0, s) && Enabled(s, Append(id))
    ensures Inv(d0, Next(s, Append(id)))
    ensures History(Next(s, Append(id))) == History(s) + [s.inflight[0].(id := id)]
  {
    var t, c := Next(s, Append(id)), s.inflight[0].(id := id);
    SuffixAppend(s.log, c, s.snap.checkpoint);
    ReplayConcat(s.apply, s.snap.doc, Rest(s), [c]);
    assert [c][1..] == [];
    assert Distinct(t.log) by {
      forall i | 0 <= i < |s.log| ensures s.log[i].id != id { assert Contains(s.log, s.log[i].id); }
    }
    assert t.phase.Idle?;
  }

  lemma SnapshotKeeps(d0: Node, s: State)
    requires Inv(d0, s) && Enabled(s, WriteSnapshot)
    ensures Inv(d0, Next(s, WriteSnapshot)) && History(Next(s, WriteSnapshot)) == History(s)
  {
    SuffixOfLast(s.log);
    RecoverExact(d0, s);
  }

  lemma UpToSplits(s: State, id: string)
    requires id != "" && Contains(s.log, id) && !Contains(s.log, s.snap.checkpoint)
    ensures var keep := UpTo(s.log, id);
      && keep <= s.log && keep != [] && keep[|keep| - 1].id == id
      && s.log == keep + s.log[|keep|..] && Rest(s) == s.log
  {
  }

  /** A rollback reaches the document at its target and keeps history up to it. */
  lemma RollbackKeeps(d0: Node, s: State, id: string)
    requires Inv(d0, s) && Enabled(s, RollbackWrite(id))
    ensures Inv(d0, Next(s, RollbackWrite(id)))
    ensures History(Next(s, RollbackWrite(id))) == s.archived + UpTo(s.log, id)
    ensures s.archived + UpTo(s.log, id) <= History(s)
  {
    var keep := UpTo(s.log, id);
    UpToSplits(s, id);
    SuffixOfLast(s.log);
    ReplayConcat(s.apply, s.snap.doc, keep, s.log[|keep|..]);
    ReplayConcat(s.apply, d0, s.archived, keep);
    assert Rest(Next(s, RollbackWrite(id))) == [];
  }

  lemma StepKeeps(d0: Node, s: State, step: Step)
    requires Inv(d0, s) && Enabled(s, step)
    ensures Inv(d0, Next(s, step))
  {
    match step {
      case ApplyOps(ops) =>
        ReplayConcat(s.apply, Recover(s).doc, s.inflight, [Commit("", ops)]);
        ReplayOnly(s.apply, s.mem, Commit("", ops));
      case Append(id) => AppendKeeps(d0, s, id);
      case WriteSnapshot => SnapshotKeeps(d0, s);
      case ClearLog =>
      case Unlock =>
      case RollbackWrite(id) => RollbackKeeps(d0, s, id);
      case Crash => RecoverExact(d0, s);
    }
  }

  /** Over every run, with crashes between any two steps: recovery succeeds and gives the document
      after the acknowledged commits, which is memory whenever nothing is in flight. */
  lemma {:induction false} RunSafe(d0: Node, s: State, steps: seq<Step>)
    requires Inv(d0, s) && CanRun(s, steps)
    ensures var t := Ran(s, steps);
      && Inv(d0, t)
      && Recover(t) == ReplayAll(s.apply, d0, History(t)) && Recover(t).ok
      && (t.inflight == [] ==> Recover(t) == Outcome(t.mem, true))
    decreases |steps|
  {
    if steps == [] {
      RecoverExact(d0, s);
    } else {
      StepKeeps(d0, s, steps[0]);
      RunSafe(d0, Next(s, steps[0]), steps[1..]);
    }
  }

  lemma InitialInv(apply: Engine, doc: Node)
    ensures Inv(doc, Initial(apply, doc))
  {
  }

  /** The same from a freshly loaded registry with the real patch engine. */
  lemma RegistryRecovers(doc: Node, steps: seq<Step>)
    requires CanRun(Initial(ApplyPatch, doc), steps)
    ensures var t := Ran(Initial(ApplyPatch, doc), steps);
      && Recover(t) == ReplayAll(ApplyPatch, doc, History(t)) && Recover(t).ok
      && (t.inflight == [] ==> Recover(t) == Outcome(t.mem, true))
  {
    InitialInv(ApplyPatch, doc);
    RunSafe(doc, Initial(ApplyPatch, doc), steps);
  }

  lemma StepDurable(d0: Node, s: State, step: Step)
    requires Inv(d0, s) && Enabled(s, step) && !step.RollbackWrite?
    ensures History(s) <= History(Next(s, step))
  {
    match step {
      case Append(id) => AppendKeeps(d0, s, id);
      case WriteSnapshot => SnapshotKeeps(d0, s);
      case _ =>
    }
  }

  /** Without a rollback, an acknowledged commit stays in history for ever. */
  lemma {:induction false} RunDurable(d0: Node, s: State, steps: seq<Step>)
    requires Inv(d0, s) && CanRun(s, steps) && forall i :: 0 <= i < |steps| ==> !steps[i].RollbackWrite?
    ensures History(s) <= History(Ran(s, steps))
    decreases |steps|
  {
    if steps != [] {
      StepKeeps(d0, s, steps[0]);
      StepDurable(d0, s, steps[0]);
      RunDurable(d0, Next(s, steps[0]), steps[1..]);
    }
  }

  // ----- rollback

  /** A crash between any two steps of a rollback recovers either the document before it or
      the document at its target: before the snapshot is stored, between snapshot and
      log clear (the checkpoint names the last commit, not the target), and after. */
  lemma RollbackAtomic(d0: Node, s: State, id: string)
    requires Inv(d0, s) && Enabled(s, RollbackWrite(id))
    ensures Recover(s) == Outcome(s.mem, true)
    ensures var w := Next(s, RollbackWrite(id));
      var c := Next(w, ClearLog);
      && ReplayAll(s.apply, d0, s.archived + UpTo(s.log, id)) == Outcome(w.mem, true)
      && Recover(w) == Outcome(w.mem, true)
      && Recover(c) == Outcome(w.mem, true) && c.mem == w.mem
  {
    RecoverExact(d0, s);
    RollbackKeeps(d0, s, id);
    var w := Next(s, RollbackWrite(id));
    RecoverExact(d0, w);
    StepKeeps(d0, w, ClearLog);
    RecoverExact(d0, Next(w, ClearLog));
  }
}
