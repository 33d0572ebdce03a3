/** The conditions under which the registry recovers exactly, shown to be the
    right ones: what happens when a snapshot falls between the two halves of a
    commit, when appends overtake each other, when a patch fails half way, when
    an id is reused, and when a rollback starts from a checkpoint in the log. */
module RecoveryLimits {
  import opened Text
  import opened Patches
  import opened PatchLaws
  import opened Wals
  import opened Recovery

  /** Appended commits are replayed, in log order, on what was recovered before. */
  lemma RecoverAppended(s: State, cs: seq<Commit>)
    requires Recover(s).ok && forall i :: 0 <= i < |cs| ==> cs[i].id != s.snap.checkpoint
    ensures Recover(s.(log := s.log + cs)) == ReplayAll(s.apply, Recover(s).doc, cs)
  {
    SuffixAppends(s.log, cs, s.snap.checkpoint);
    ReplayConcat(s.apply, s.snap.doc, Rest(s), cs);
  }

  /** The commits in flight under the ids their appends give them. */
  function Named(inflight: seq<Commit>, ids: seq<string>): (cs: seq<Commit>)
    requires |ids| == |inflight|
    ensures |cs| == |ids| && forall i :: 0 <= i < |ids| ==> cs[i] == inflight[i].(id := ids[i])
  {
    seq(|ids|, i requires 0 <= i < |ids| => inflight[i].(id := ids[i]))
  }

  lemma {:induction false} SameOps(apply: Engine, doc: Node, a: seq<Commit>, b: seq<Commit>)
    requires |a| == |b| && forall i :: 0 <= i < |a| ==> a[i].ops == b[i].ops
    ensures ReplayAll(apply, doc, a) == ReplayAll(apply, doc, b)
    decreases |a|
  {
    if a != [] {
      SameOps(apply, apply(doc, a[0].ops).doc, a[1..], b[1..]);
    }
  }

  function Appends(ids: seq<string>): (steps: seq<Step>)
    ensures |steps| == |ids| && forall i :: 0 <= i < |ids| ==> steps[i] == Append(ids[i])
  {
    seq(|ids|, i requires 0 <= i < |ids| => Append(ids[i]))
  }

  lemma {:induction false} AppendsRun(s: State, ids: seq<string>)
    requires |ids| == |s.inflight|
    ensures Ran(s, Appends(ids)) == s.(log := s.log + Named(s.inflight, ids), inflight := [])
    decreases |ids|
  {
    if ids == [] {
      assert s.log + Named(s.inflight, ids) == s.log;
    } else {
      var t := Next(s, Append(ids[0]));
      assert Appends(ids)[1..] == Appends(ids[1..]);
      AppendsRun(t, ids[1..]);
      assert t.log + Named(t.inflight, ids[1..]) == s.log + Named(s.inflight, ids);
    }
  }

  /** A snapshot taken while commits are between their two halves already holds them, and after
      their appends recovery applies them again: it gives memory back if and only if doing
      them twice is the same as doing them once. */
  lemma SnapshotRaceIff(d0: Node, s: State, ids: seq<string>)
    requires Inv(d0, s) && |ids| == |s.inflight|
    requires forall i :: 0 <= i < |ids| ==> ids[i] != LastId(s.log)
    ensures var raced := Ran(Next(s, WriteSnapshot), Appends(ids));
      var once := s.inflight;
      && raced.mem == s.mem
      && (Recover(raced) == Outcome(s.mem, true)
          <==> ReplayAll(s.apply, Recover(s).doc, once + once) == ReplayAll(s.apply, Recover(s).doc, once))
  {
    var cs := Named(s.inflight, ids);
    SuffixOfLast(s.log);
    AppendsRun(Next(s, WriteSnapshot), ids);
    SuffixAppends(s.log, cs, LastId(s.log));
    assert [] + cs == cs;
    SameOps(s.apply, s.mem, cs, s.inflight);
    ReplayConcat(s.apply, Recover(s).doc, s.inflight, s.inflight);
  }

  /** Whatever list the appends leave in the log, the commits in flight in any other order among
      them: recovery gives memory back if and only if that list and the order of application
      agree on the recovered document. */
  lemma OutOfOrderIff(d0: Node, s: State, cs: seq<Commit>)
    requires Inv(d0, s) && forall i :: 0 <= i < |cs| ==> cs[i].id != s.snap.checkpoint
    ensures Recover(s.(log := s.log + cs)) == Outcome(s.mem, true)
       <==> ReplayAll(s.apply, Recover(s).doc, cs) == ReplayAll(s.apply, Recover(s).doc, s.inflight)
  {
    RecoverAppended(s, cs);
  }

  /** A commit that fails is not logged, yet what its patch did before failing stays in memory.
      Recovery agrees with memory if and only if the operations before the failing one have no
      net effect and that one loses nothing, or what it loses undoes their effect. */
  lemma FailedCommitIff(d0: Node, s: State, ops: seq<PatchOp>)
    requires Inv(d0, s) && s.apply == ApplyPatch && s.inflight == [] && !ApplyPatch(s.mem, ops).ok
    ensures var k := FailsAt(s.mem, ops);
      var before := ApplyPatch(s.mem, ops[..k]).doc;
      var t := s.(mem := ApplyPatch(s.mem, ops).doc);
      Recover(t) == Outcome(t.mem, true) <==>
        if Loses(before, ops[k]) then Apply(before, PathParts(ops[k].from), Drop) == Some(s.mem) else before == s.mem
  {
    RecoverExact(d0, s);
    FailedPatchIff(s.mem, ops);
  }

  /** A failing commit whose patch is guarded never parts recovery from memory. */
  lemma GuardedCommitSafe(d0: Node, s: State, ops: seq<PatchOp>)
    requires Inv(d0, s) && s.apply == ApplyPatch && s.inflight == [] && !ApplyPatch(s.mem, ops).ok && Guarded(ops)
    ensures var t := s.(mem := ApplyPatch(s.mem, ops).doc); Recover(t) == Outcome(t.mem, true)
  {
    RecoverExact(d0, s);
    GuardedAtomic(s.mem, ops);
  }

  /** A commit that reuses the id of a checkpoint no longer in the log is taken for an
      old one, with everything before it: recovery gives the bare snapshot. */
  lemma ReusedIdIff(d0: Node, s: State, id: string)
    requires Inv(d0, s) && |s.inflight| == 1 && id == s.snap.checkpoint && id != "" && !Contains(s.log, id)
    ensures Recover(Next(s, Append(id))) == Outcome(s.snap.doc, true)
    ensures Recover(Next(s, Append(id))) == Outcome(s.mem, true) <==> s.mem == s.snap.doc
  {
    var t := Next(s, Append(id));
    assert t.log[|s.log|].id == id;
    assert First(t.log, id) == |s.log| by {
      forall j | 0 <= j < |s.log| ensures t.log[j].id != id { assert t.log[j] == s.log[j]; assert Contains(s.log, s.log[j].id); }
    }
    assert Rest(t) == [];
  }

  /** A snapshot records the id of the last commit, and recovery resumes after the first commit
      so called. It gives memory back if and only if repeating the commits after that one
      changes nothing. */
  lemma DuplicateIdIff(s: State, base: Node)
    requires s.log != [] && LastId(s.log) != "" && ReplayAll(s.apply, base, s.log) == Outcome(s.mem, true)
    ensures Contains(s.log, LastId(s.log))
    ensures var after := s.log[First(s.log, LastId(s.log)) + 1..];
      Recover(Next(s, WriteSnapshot)) == Outcome(s.mem, true) <==>
        ReplayAll(s.apply, base, s.log + after) == ReplayAll(s.apply, base, s.log)
  {
    assert s.log[|s.log| - 1].id == LastId(s.log);
    ReplayConcat(s.apply, base, s.log, s.log[First(s.log, LastId(s.log)) + 1..]);
  }

  // ----- rollback from a checkpoint that is still in the log

  /** `base` is the document before the first logged commit. */
  ghost predicate LoggedFrom(s: State, base: Node) {
    if s.snap.checkpoint != "" && Contains(s.log, s.snap.checkpoint)
    then ReplayAll(s.apply, base, s.log[..First(s.log, s.snap.checkpoint) + 1]) == Outcome(s.snap.doc, true)
    else base == s.snap.doc
  }

  /** On good documents every logged commit succeeds and adds one to the measure. */
  ghost predicate Growing(apply: Engine, cs: seq<Commit>, good: Node -> bool, mu: Node -> int) {
    forall i, d {:trigger apply(d, cs[i].ops)} :: 0 <= i < |cs| && good(d) ==>
      var r := apply(d, cs[i].ops); r.ok && good(r.doc) && mu(r.doc) == mu(d) + 1
  }

  lemma {:induction false} Grows(apply: Engine, cs: seq<Commit>, good: Node -> bool, mu: Node -> int, doc: Node)
    requires Growing(apply, cs, good, mu) && good(doc)
    ensures var r := ReplayAll(apply, doc, cs); r.ok && good(r.doc) && mu(r.doc) == mu(doc) + |cs|
    decreases |cs|
  {
    if cs != [] {
      assert Growing(apply, cs[1..], good, mu) by {
        forall i, d | 0 <= i < |cs[1..]| && good(d)
          ensures var r := apply(d, cs[1..][i].ops); r.ok && good(r.doc) && mu(r.doc) == mu(d) + 1
        {
          assert cs[1..][i] == cs[i + 1];
          assert apply(d, cs[i + 1].ops).ok;
        }
      }
      assert apply(doc, cs[0].ops).ok;
      Grows(apply, cs[1..], good, mu, apply(doc, cs[0].ops).doc);
    }
  }

  lemma GrowingPrefix(apply: Engine, cs: seq<Commit>, n: nat, good: Node -> bool, mu: Node -> int)
    requires Growing(apply, cs, good, mu) && n <= |cs|
    ensures Growing(apply, cs[..n], good, mu)
  {
    forall i, d | 0 <= i < |cs[..n]| && good(d)
      ensures var r := apply(d, cs[..n][i].ops); r.ok && good(r.doc) && mu(r.doc) == mu(d) + 1
    {
      assert cs[..n][i] == cs[i];
      assert apply(d, cs[i].ops).ok;
    }
  }

  /** The logged commits the stored snapshot already reflects. */
  function Reflected(s: State): (cs: seq<Commit>) {
    if s.snap.checkpoint != "" && Contains(s.log, s.snap.checkpoint) then s.log[..First(s.log, s.snap.checkpoint) + 1] else []
  }

  /** On every log, RollbackTo repeats the reflected commits before those up to its target. */
  lemma RollbackRepeats(s: State, base: Node, id: string)
    requires LoggedFrom(s, base)
    ensures ReplayAll(s.apply, s.snap.doc, UpTo(s.log, id)) == ReplayAll(s.apply, base, Reflected(s) + UpTo(s.log, id))
  {
    ReplayConcat(s.apply, base, Reflected(s), UpTo(s.log, id));
  }

  /** The log leads from `base` to the recovered document. */
  lemma LoggedReaches(d0: Node, s: State, base: Node)
    requires Inv(d0, s) && s.inflight == [] && LoggedFrom(s, base)
    ensures ReplayAll(s.apply, base, s.log) == Outcome(s.mem, true)
  {
    RecoverExact(d0, s);
    if s.snap.checkpoint != "" && Contains(s.log, s.snap.checkpoint) {
      var k := First(s.log, s.snap.checkpoint) + 1;
      assert s.log == s.log[..k] + s.log[k..];
      ReplayConcat(s.apply, base, s.log[..k], s.log[k..]);
    }
  }

  /** Rolling back to an id the log does not hold replays the whole log on the snapshot. It gives
      the current document if and only if doing the reflected commits once more before the log
      makes no difference. */
  lemma RollbackUnknownIff(d0: Node, s: State, base: Node, id: string)
    requires Inv(d0, s) && s.inflight == [] && LoggedFrom(s, base) && !Contains(s.log, id)
    ensures ReplayAll(s.apply, s.snap.doc, UpTo(s.log, id)) == Outcome(s.mem, true)
       <==> ReplayAll(s.apply, base, Reflected(s) + s.log) == ReplayAll(s.apply, base, s.log)
  {
    LoggedReaches(d0, s, base);
    RollbackRepeats(s, base, id);
  }

  // ----- a rollback that fails

  /** The operations of a list of commits, in order. */
  function Flat(cs: seq<Commit>): (ops: seq<PatchOp>) {
    if cs == [] then [] else cs[0].ops + Flat(cs[1..])
  }

  lemma {:induction false} PatchStops(doc: Node, a: seq<PatchOp>, b: seq<PatchOp>)
    requires !ApplyPatch(doc, a).ok
    ensures ApplyPatch(doc, a + b) == ApplyPatch(doc, a)
    decreases |a|
  {
    assert (a + b)[1..] == a[1..] + b;
    if ApplyOp(doc, a[0]).ok { PatchStops(ApplyOp(doc, a[0]).doc, a[1..], b); }
  }

  /** Replaying commits is one long patch, failures included. */
  lemma {:induction false} ReplayIsPatch(doc: Node, cs: seq<Commit>)
    ensures ReplayAll(ApplyPatch, doc, cs) == ApplyPatch(doc, Flat(cs))
    decreases |cs|
  {
    if cs != [] {
      if ApplyPatch(doc, cs[0].ops).ok {
        PatchConcat(doc, cs[0].ops, Flat(cs[1..]));
        ReplayIsPatch(ApplyPatch(doc, cs[0].ops).doc, cs[1..]);
      } else {
        PatchStops(doc, cs[0].ops, Flat(cs[1..]));
      }
    }
  }

  /** A rollback fails only when the snapshot reflects commits that are still in the log. */
  lemma RollbackFailsOnlyIf(d0: Node, s: State, id: string)
    requires Inv(d0, s) && !ReplayAll(s.apply, s.snap.doc, UpTo(s.log, id)).ok
    ensures s.snap.checkpoint != "" && Contains(s.log, s.snap.checkpoint)
  {
    var keep := UpTo(s.log, id);
    UpToPrefix(s.log, id);
    assert s.log == keep + s.log[|keep|..];
    ReplayConcat(s.apply, s.snap.doc, keep, s.log[|keep|..]);
  }

  /** It leaves its partial replay in memory. Recovery still agrees with memory if and only if the
      operations before the failing one, done on the snapshot, give the document there was and it
      loses nothing, or what it loses leads there. */
  lemma FailedRollbackIff(d0: Node, s: State, id: string)
    requires Inv(d0, s) && s.apply == ApplyPatch && s.inflight == [] && !ReplayAll(ApplyPatch, s.snap.doc, UpTo(s.log, id)).ok
    ensures !ApplyPatch(s.snap.doc, Flat(UpTo(s.log, id))).ok
    ensures var ops := Flat(UpTo(s.log, id));
      var k := FailsAt(s.snap.doc, ops);
      var before := ApplyPatch(s.snap.doc, ops[..k]).doc;
      var t := s.(mem := ReplayAll(ApplyPatch, s.snap.doc, UpTo(s.log, id)).doc);
      Recover(t) == Outcome(t.mem, true) <==>
        if Loses(before, ops[k]) then Apply(before, PathParts(ops[k].from), Drop) == Some(s.mem) else before == s.mem
  {
    var ops := Flat(UpTo(s.log, id));
    RecoverExact(d0, s);
    ReplayIsPatch(s.snap.doc, UpTo(s.log, id));
    FailsAtOp(s.snap.doc, ops);
    FailedOpIff(ApplyPatch(s.snap.doc, ops[..FailsAt(s.snap.doc, ops)]).doc, ops[FailsAt(s.snap.doc, ops)]);
  }

  /** On logs of growing commits a rollback, to whatever id, reaches the document at its target
      if and only if the snapshot reflects no logged commit. */
  lemma RollbackIff(s: State, base: Node, id: string, good: Node -> bool, mu: Node -> int)
    requires LoggedFrom(s, base) && good(base) && Growing(s.apply, s.log, good, mu)
    ensures ReplayAll(s.apply, s.snap.doc, UpTo(s.log, id)) == ReplayAll(s.apply, base, UpTo(s.log, id))
       <==> s.snap.checkpoint == "" || !Contains(s.log, s.snap.checkpoint)
  {
    if s.snap.checkpoint != "" && Contains(s.log, s.snap.checkpoint) {
      var k, n := First(s.log, s.snap.checkpoint) + 1, |UpTo(s.log, id)|;
      assert UpTo(s.log, id) == s.log[..n];
      GrowingPrefix(s.apply, s.log, k, good, mu);
      GrowingPrefix(s.apply, s.log, n, good, mu);
      Grows(s.apply, s.log[..k], good, mu, base);
      Grows(s.apply, s.log[..n], good, mu, base);
      Grows(s.apply, s.log[..n], good, mu, s.snap.doc);
    }
  }

  // ----- the same with the real patch engine

  function AppendOp(v: Node): (op: PatchOp) {
    PatchOp("add", "/-", "", Some(v))
  }

  /** Appending to a list document grows it by one: such logs are growing. */
  lemma AppendOpGrows(s: seq<Node>, v: Node)
    ensures ApplyPatch(List(s), [AppendOp(v)]) == Outcome(List(s + [v]), true)
  {
    var op := AppendOp(v);
    assert op.path[1..] == "-" && "-"[1..] == "";
    assert Split("", '/') == [""];
    assert Split("-", '/') == ["-"] by { assert ['-'] + "" == "-"; }
    assert Atoi("-") == None;
    assert Apply(List(s), ["-"], Put(v)) == Some(List(s + [v]));
    assert ApplyOp(List(s), op) == Outcome(List(s + [v]), true);
    assert [op][1..] == [];
  }

  /** Every commit appends one value to a list document. */
  predicate AppendLog(log: seq<Commit>) {
    forall i :: 0 <= i < |log| ==> |log[i].ops| == 1 && log[i].ops[0].value.Some? && log[i].ops[0] == AppendOp(log[i].ops[0].value.value)
  }

  lemma AppendLogGrows(log: seq<Commit>)
    requires AppendLog(log)
    ensures Growing(ApplyPatch, log, (d: Node) => d.List?, (d: Node) => if d.List? then |d.items| else 0)
  {
    forall i, d: Node | 0 <= i < |log| && d.List?
      ensures var r := ApplyPatch(d, log[i].ops); r.ok && r.doc.List? && |r.doc.items| == |d.items| + 1
    {
      var v := log[i].ops[0].value.value;
      assert log[i].ops == [AppendOp(v)];
      AppendOpGrows(d.items, v);
    }
  }

  /** The same on the patch engine: with a log of appends a rollback reaches its target if and
      only if the snapshot reflects no logged commit. */
  lemma AppendRollbackIff(s: State, items: seq<Node>, id: string)
    requires s.apply == ApplyPatch && AppendLog(s.log) && LoggedFrom(s, List(items))
    ensures ReplayAll(ApplyPatch, s.snap.doc, UpTo(s.log, id)) == ReplayAll(ApplyPatch, List(items), UpTo(s.log, id))
       <==> s.snap.checkpoint == "" || !Contains(s.log, s.snap.checkpoint)
  {
    AppendLogGrows(s.log);
    RollbackIff(s, List(items), id, (d: Node) => d.List?, (d: Node) => if d.List? then |d.items| else 0);
  }

  /** With a log of appends, an unknown target gives the current document if and only if the
      checkpoint is not in the log. */
  lemma AppendUnknownIff(d0: Node, s: State, items: seq<Node>, id: string)
    requires Inv(d0, s) && s.inflight == [] && s.apply == ApplyPatch && AppendLog(s.log) && LoggedFrom(s, List(items)) && !Contains(s.log, id)
    ensures ReplayAll(ApplyPatch, s.snap.doc, UpTo(s.log, id)) == Outcome(s.mem, true) <==> !Contains(s.log, s.snap.checkpoint)
  {
    LoggedReaches(d0, s, List(items));
    AppendRollbackIff(s, items, id);
  }

  /** With a log of appends, a snapshot recovers memory if and only if its last id does not occur
      earlier in the log. */
  lemma AppendDuplicateIff(s: State, items: seq<Node>)
    requires s.apply == ApplyPatch && s.log != [] && LastId(s.log) != "" && AppendLog(s.log)
    requires ReplayAll(ApplyPatch, List(items), s.log) == Outcome(s.mem, true)
    ensures Contains(s.log, LastId(s.log))
    ensures Recover(Next(s, WriteSnapshot)) == Outcome(s.mem, true) <==> First(s.log, LastId(s.log)) == |s.log| - 1
  {
    DuplicateIdIff(s, List(items));
    var after := s.log[First(s.log, LastId(s.log)) + 1..];
    assert s.log + [] == s.log;
    AppendLogLength(items, s.log);
    AppendLogLength(items, s.log + after);
  }

  lemma AppendLogLength(items: seq<Node>, log: seq<Commit>)
    requires AppendLog(log)
    ensures var r := ReplayAll(ApplyPatch, List(items), log); r.doc.List? && |r.doc.items| == |items| + |log|
  {
    AppendLogGrows(log);
    Grows(ApplyPatch, log, (d: Node) => d.List?, (d: Node) => if d.List? then |d.items| else 0, List(items));
  }

  /** A registry over a list document after one append was applied to it. */
  lemma OneApplied(items: seq<Node>, v: Node)
    ensures var s0 := Initial(ApplyPatch, List(items));
      && Enabled(s0, ApplyOps([AppendOp(v)]))
      && Next(s0, ApplyOps([AppendOp(v)])) == s0.(mem := List(items + [v]), inflight := [Commit("", [AppendOp(v)])])
  {
    AppendOpGrows(items, v);
  }

  /** Apply an append, store a snapshot before it is logged, log it, restart: the element is
      there twice. */
  lemma RaceDoubles(items: seq<Node>, v: Node)
    ensures var s1 := Next(Initial(ApplyPatch, List(items)), ApplyOps([AppendOp(v)]));
      var raced := Next(Next(s1, WriteSnapshot), Append("c1"));
      raced.mem == List(items + [v]) && Next(raced, Crash).mem == List(items + [v, v])
  {
    OneApplied(items, v);
    AppendOpGrows(items + [v], v);
    var c := Commit("c1", [AppendOp(v)]);
    ReplayOnly(ApplyPatch, List(items + [v]), c);
    assert [] + [c] == [c] && items + [v] + [v] == items + [v, v];
  }

  /** Two appends applied in one order and logged in the other: restarting swaps the elements. */
  lemma OvertakingSwaps(items: seq<Node>, u: Node, v: Node)
    ensures var s1 := Next(Initial(ApplyPatch, List(items)), ApplyOps([AppendOp(u)]));
      var s2 := Next(s1, ApplyOps([AppendOp(v)]));
      var t := s2.(log := [Commit("c2", [AppendOp(v)]), Commit("c1", [AppendOp(u)])]);
      && t.mem == List(items + [u, v]) && Next(t, Crash).mem == List(items + [v, u])
      && (u != v ==> t.mem != Next(t, Crash).mem)
  {
    OneApplied(items, u);
    AppendOpGrows(items + [u], v);
    AppendOpGrows(items, v);
    AppendOpGrows(items + [v], u);
    var a, b := Commit("c1", [AppendOp(u)]), Commit("c2", [AppendOp(v)]);
    var log := [b, a];
    assert log[1..] == [a];
    ReplayOnly(ApplyPatch, List(items + [v]), a);
    assert items + [u] + [v] == items + [u, v] && items + [v] + [u] == items + [v, u];
    assert (items + [u, v])[|items|] == u && (items + [v, u])[|items|] == v;
  }

  /** A registry compacted after one commit. */
  lemma OneCompacted(items: seq<Node>, u: Node)
    ensures var s1 := Next(Next(Initial(ApplyPatch, List(items)), ApplyOps([AppendOp(u)])), Append("c1"));
      var s2 := Next(Next(Next(s1, WriteSnapshot), ClearLog), Unlock);
      var d := List(items + [u]);
      s2.apply == ApplyPatch && s2.mem == d && s2.inflight == [] && s2.snap == Snapshot(d, "c1") && s2.log == []
  {
    OneApplied(items, u);
  }

  lemma ReuseLoses(s: State, items: seq<Node>, v: Node)
    requires s.apply == ApplyPatch && s.mem == List(items) && s.inflight == [] && s.snap == Snapshot(s.mem, "c1") && s.log == []
    ensures var t := Next(Next(s, ApplyOps([AppendOp(v)])), Append("c1"));
      t.mem == List(items + [v]) && Next(t, Crash).mem == List(items)
  {
    AppendOpGrows(items, v);
    var log := [Commit("c1", [AppendOp(v)])];
    FirstIs(log, "c1", 0);
    assert Suffix(log, "c1") == [];
    assert Next(Next(s, ApplyOps([AppendOp(v)])), Append("c1")).log == log;
  }

  /** Compact after a commit and use its id again: restarting loses the new element. */
  lemma ReusedIdLoses(items: seq<Node>, u: Node, v: Node)
    ensures var s1 := Next(Next(Initial(ApplyPatch, List(items)), ApplyOps([AppendOp(u)])), Append("c1"));
      var s2 := Next(Next(Next(s1, WriteSnapshot), ClearLog), Unlock);
      var t := Next(Next(s2, ApplyOps([AppendOp(v)])), Append("c1"));
      t.mem == List(items + [u, v]) && Next(t, Crash).mem == List(items + [u])
  {
    OneCompacted(items, u);
    var s1 := Next(Next(Initial(ApplyPatch, List(items)), ApplyOps([AppendOp(u)])), Append("c1"));
    ReuseLoses(Next(Next(Next(s1, WriteSnapshot), ClearLog), Unlock), items + [u], v);
    assert items + [u] + [v] == items + [u, v];
  }

  /** A whole commit of one append. */
  function Committed(s: State, v: Node, id: string): (t: State) {
    Next(Next(s, ApplyOps([AppendOp(v)])), Append(id))
  }

  lemma CommittedIs(s: State, items: seq<Node>, v: Node, id: string)
    requires s.apply == ApplyPatch && s.mem == List(items) && s.inflight == []
    ensures Committed(s, v, id) == s.(mem := List(items + [v]), log := s.log + [Commit(id, [AppendOp(v)])])
  {
    AppendOpGrows(items, v);
  }

  lemma ThreeCommitted(items: seq<Node>, u: Node, v: Node, w: Node)
    ensures var s := Committed(Committed(Committed(Initial(ApplyPatch, List(items)), u, "c1"), v, "c2"), w, "c1");
      && s.apply == ApplyPatch && s.mem == List(items + [u, v, w])
      && s.log == [Commit("c1", [AppendOp(u)]), Commit("c2", [AppendOp(v)]), Commit("c1", [AppendOp(w)])]
  {
    var s0 := Initial(ApplyPatch, List(items));
    CommittedIs(s0, items, u, "c1");
    var s1 := Committed(s0, u, "c1");
    CommittedIs(s1, items + [u], v, "c2");
    CommittedIs(Committed(s1, v, "c2"), items + [u] + [v], w, "c1");
    assert items + [u] + [v] + [w] == items + [u, v, w];
  }

  /** Three commits, the first and the last under one id, then a snapshot and a crash before the
      log is cleared: the last two elements are there twice. */
  lemma DuplicateIdDoubles(items: seq<Node>, u: Node, v: Node, w: Node)
    ensures var s := Committed(Committed(Committed(Initial(ApplyPatch, List(items)), u, "c1"), v, "c2"), w, "c1");
      s.mem == List(items + [u, v, w]) && Next(Next(s, WriteSnapshot), Crash).mem == List(items + [u, v, w] + [v, w])
  {
    ThreeCommitted(items, u, v, w);
    var s := Committed(Committed(Committed(Initial(ApplyPatch, List(items)), u, "c1"), v, "c2"), w, "c1");
    DuplicateLogDoubles(s, items + [u, v, w], u, v, w);
  }

  lemma DuplicateLogDoubles(s: State, items: seq<Node>, u: Node, v: Node, w: Node)
    requires s.apply == ApplyPatch && s.mem == List(items)
    requires s.log == [Commit("c1", [AppendOp(u)]), Commit("c2", [AppendOp(v)]), Commit("c1", [AppendOp(w)])]
    ensures Next(Next(s, WriteSnapshot), Crash).mem == List(items + [v, w])
  {
    FirstIs(s.log, "c1", 0);
    assert s.log[1..] == [Commit("c2", [AppendOp(v)]), Commit("c1", [AppendOp(w)])];
    TwoAppends(items, v, w);
  }

  lemma TwoAppends(items: seq<Node>, v: Node, w: Node)
    ensures ReplayAll(ApplyPatch, List(items), [Commit("c2", [AppendOp(v)]), Commit("c1", [AppendOp(w)])]) == Outcome(List(items + [v, w]), true)
  {
    var b, c := Commit("c2", [AppendOp(v)]), Commit("c1", [AppendOp(w)]);
    var log := [b, c];
    assert log[1..] == [c];
    AppendOpGrows(items, v);
    AppendOpGrows(items + [v], w);
    ReplayOnly(ApplyPatch, List(items + [v]), c);
    assert items + [v] + [w] == items + [v, w];
  }

  function DropFirst(): (op: PatchOp) {
    PatchOp("remove", "/0", "", None)
  }

  lemma DropFirstDrops(s: seq<Node>)
    ensures ApplyPatch(List(s), [DropFirst()]) == if s == [] then Outcome(List(s), false) else Outcome(List(s[1..]), true)
  {
    var op := DropFirst();
    assert op.path[1..] == "0";
    SplitPlain("0", '/');
    assert "0"[..0] == "" && DigitsValue("") == 0;
    assert DigitsValue("0") == 0;
    assert Atoi("0") == Some(0);
    if s != [] { assert s[..0] + s[1..] == s[1..]; }
    OneOp(List(s), op);
  }

  /** Remove the only element, store a snapshot, lose power before the log is cleared, restart,
      roll back to an unknown id: the removal is done again and fails. */
  lemma UnknownRollbackFails(v: Node)
    ensures var s0 := Initial(ApplyPatch, List([v]));
      var steps := [ApplyOps([DropFirst()]), Append("c1"), WriteSnapshot, Crash];
      && CanRun(s0, steps)
      && var s := Ran(s0, steps);
      s.mem == List([]) && !Contains(s.log, "zz") && !ReplayAll(s.apply, s.snap.doc, UpTo(s.log, "zz")).ok
  {
    var s0 := Initial(ApplyPatch, List([v]));
    var items := [v];
    DropFirstDrops(items);
    assert items[1..] == [];
    var none: seq<Node> := [];
    DropFirstDrops(none);
    var s1 := Next(s0, ApplyOps([DropFirst()]));
    var c := Commit("c1", [DropFirst()]);
    assert s1.mem == List(none) && s1.inflight == [Commit("", [DropFirst()])];
    var s2 := Next(s1, Append("c1"));
    assert Enabled(s1, Append("c1")) && s2.log == [c] && s2.inflight == [];
    var s3 := Next(s2, WriteSnapshot);
    FirstIs([c], "c1", 0);
    assert Suffix([c], "c1") == [];
    assert s3.snap == Snapshot(List(none), "c1") && s3.log == [c];
    ReplayOnly(ApplyPatch, List(none), c);
    FourSteps(s0, ApplyOps([DropFirst()]), Append("c1"), WriteSnapshot, Crash);
  }

  /** A test that the whole document is the given one. */
  function TestIs(doc: Node): (op: PatchOp) {
    PatchOp("test", "", "", Some(doc))
  }

  lemma TestIsTests(doc: Node, want: Node)
    ensures ApplyPatch(doc, [TestIs(want)]) == Outcome(doc, doc == want)
  {
    OneOp(doc, TestIs(want));
    assert PathParts("") == [""];
  }

  /** Append, then a commit that tests the result, then a snapshot and a crash before the log is
      cleared. Rolling back to the test appends again and fails: memory has the element twice, and
      recovery once. */
  lemma FailedRollbackDiverges(u: Node, s: State)
    requires s.apply == ApplyPatch && s.snap == Snapshot(List([u]), "c2")
    requires s.log == [Commit("c1", [AppendOp(u)]), Commit("c2", [TestIs(List([u]))])]
    ensures ReplayAll(ApplyPatch, s.snap.doc, UpTo(s.log, "c2")) == Outcome(List([u, u]), false)
    ensures Recover(s) == Outcome(List([u]), true)
  {
    var c, items := Commit("c2", [TestIs(List([u]))]), [u];
    FirstIs(s.log, "c2", 1);
    assert s.log[..2] == s.log && s.log[2..] == [] && s.log[1..] == [c];
    AppendOpGrows(items, u);
    assert items + [u] == [u, u];
    ReplayOnly(ApplyPatch, List([u, u]), c);
    TestIsTests(List([u, u]), List([u]));
    assert |[u, u]| != |items|;
  }

  /** That state is reached from an empty list. */
  lemma FailedRollbackReached(u: Node)
    ensures var s1 := Committed(Initial(ApplyPatch, List([])), u, "c1");
      var s := Next(Next(Next(Next(s1, ApplyOps([TestIs(List([u]))])), Append("c2")), WriteSnapshot), Crash);
      && Enabled(s1, ApplyOps([TestIs(List([u]))]))
      && s.apply == ApplyPatch && s.mem == List([u]) && s.snap == Snapshot(List([u]), "c2")
      && s.log == [Commit("c1", [AppendOp(u)]), Commit("c2", [TestIs(List([u]))])]
  {
    var none: seq<Node> := [];
    CommittedIs(Initial(ApplyPatch, List(none)), none, u, "c1");
    assert none + [u] == [u];
    TestCommitted(Committed(Initial(ApplyPatch, List(none)), u, "c1"), u);
  }

  lemma TestCommitted(s1: State, u: Node)
    requires s1.apply == ApplyPatch && s1.mem == List([u]) && s1.inflight == [] && s1.log == [Commit("c1", [AppendOp(u)])] && s1.phase.Idle?
    ensures var s := Next(Next(Next(Next(s1, ApplyOps([TestIs(List([u]))])), Append("c2")), WriteSnapshot), Crash);
      && Enabled(s1, ApplyOps([TestIs(List([u]))]))
      && s.apply == ApplyPatch && s.mem == List([u]) && s.snap == Snapshot(List([u]), "c2")
      && s.log == [Commit("c1", [AppendOp(u)]), Commit("c2", [TestIs(List([u]))])]
  {
    TestIsTests(List([u]), List([u]));
    var s2 := Next(Next(s1, ApplyOps([TestIs(List([u]))])), Append("c2"));
    assert s2.mem == List([u]) && s2.log == [Commit("c1", [AppendOp(u)]), Commit("c2", [TestIs(List([u]))])];
    FailedRollbackDiverges(u, Next(s2, WriteSnapshot));
  }

  /** An append followed by an operation that fails: memory has the element, recovery does not. */
  lemma FailedCommitDiverges(items: seq<Node>, v: Node)
    ensures var s := Initial(ApplyPatch, List(items));
      var r := ApplyPatch(s.mem, [AppendOp(v), PatchOp("remove", "", "", None)]);
      && !r.ok && r.doc == List(items + [v])
      && Recover(s.(mem := r.doc)) == Outcome(List(items), true) && List(items) != r.doc
  {
    var fail := PatchOp("remove", "", "", None);
    AppendOpGrows(items, v);
    OneOp(List(items), AppendOp(v));
    TwoOps(List(items), AppendOp(v), fail);
    assert PathParts("") == [""];
    assert |items + [v]| != |items|;
  }

  lemma StoredTwice(items: seq<Node>, v: Node)
    ensures var c := Commit("c1", [AppendOp(v)]);
      && Suffix([c], "c1") == []
      && ReplayAll(ApplyPatch, List(items + [v]), UpTo([c], "c1")) == Outcome(List(items + [v, v]), true)
  {
    var c := Commit("c1", [AppendOp(v)]);
    FirstIs([c], "c1", 0);
    assert UpTo([c], "c1") == [c];
    AppendOpGrows(items + [v], v);
    ReplayOnly(ApplyPatch, List(items + [v]), c);
    assert items + [v] + [v] == items + [v, v];
  }

  /** From a fresh registry: append, store a snapshot, lose power before the log is
      cleared, restart, roll back to that append: the element is there twice. */
  lemma RollbackDoubles(items: seq<Node>, v: Node)
    ensures var s0 := Initial(ApplyPatch, List(items));
      var steps := [ApplyOps([AppendOp(v)]), Append("c1"), WriteSnapshot, Crash];
      && CanRun(s0, steps)
      && var s := Ran(s0, steps);
      && s.mem == List(items + [v])
      && ReplayAll(s.apply, s.snap.doc, UpTo(s.log, "c1")) == Outcome(List(items + [v, v]), true)
  {
    OneApplied(items, v);
    StoredTwice(items, v);
    var s0 := Initial(ApplyPatch, List(items));
    var c, d := Commit("c1", [AppendOp(v)]), List(items + [v]);
    var s1 := Next(s0, ApplyOps([AppendOp(v)]));
    var s2 := Next(s1, Append("c1"));
    assert Enabled(s1, Append("c1")) && s2.log == [c] && s2.inflight == [];
    var s3 := Next(s2, WriteSnapshot);
    assert Enabled(s2, WriteSnapshot) && s3.snap == Snapshot(d, "c1") && s3.log == [c];
    assert Next(s3, Crash).mem == d;
    FourSteps(s0, ApplyOps([AppendOp(v)]), Append("c1"), WriteSnapshot, Crash);
  }

  /** A commit can always be made: its two halves are possible one after the other. */
  lemma CommitRuns(d0: Node, s: State, ops: seq<PatchOp>, id: string)
    requires Inv(d0, s) && s.phase.Idle? && s.inflight == [] && s.apply(s.mem, ops).ok
    requires id != "" && id != s.snap.checkpoint && !Contains(s.log, id)
    ensures Enabled(s, ApplyOps(ops)) && Enabled(Next(s, ApplyOps(ops)), Append(id))
    ensures var t := Next(Next(s, ApplyOps(ops)), Append(id));
      t == s.(mem := s.apply(s.mem, ops).doc, log := s.log + [Commit(id, ops)])
  {
  }

  /** Two commits and a rollback to the first, stored and cleared: the run is possible, and memory,
      snapshot and recovery have the first element only. */
  lemma RollbackWorks(items: seq<Node>, u: Node, v: Node)
    ensures var s := Committed(Committed(Initial(ApplyPatch, List(items)), u, "c1"), v, "c2");
      && s.mem == List(items + [u, v])
      && Enabled(s, RollbackWrite("c1"))
      && var w := Next(s, RollbackWrite("c1"));
      && w.mem == List(items + [u]) && w.snap == Snapshot(List(items + [u]), "c2")
      && Enabled(w, ClearLog) && Enabled(Next(w, ClearLog), Unlock)
      && Recover(Next(Next(w, ClearLog), Unlock)) == Outcome(List(items + [u]), true)
  {
    var s0 := Initial(ApplyPatch, List(items));
    CommittedIs(s0, items, u, "c1");
    CommittedIs(Committed(s0, u, "c1"), items + [u], v, "c2");
    assert items + [u] + [v] == items + [u, v];
    var s := Committed(Committed(s0, u, "c1"), v, "c2");
    var a := Commit("c1", [AppendOp(u)]);
    FirstIs(s.log, "c1", 0);
    assert UpTo(s.log, "c1") == [a];
    AppendOpGrows(items, u);
    ReplayOnly(ApplyPatch, List(items), a);
  }

  lemma FourSteps(s: State, a: Step, b: Step, c: Step, d: Step)
    requires Enabled(s, a) && Enabled(Next(s, a), b) && Enabled(Next(Next(s, a), b), c) && Enabled(Next(Next(Next(s, a), b), c), d)
    ensures CanRun(s, [a, b, c, d]) && Ran(s, [a, b, c, d]) == Next(Next(Next(Next(s, a), b), c), d)
  {
    assert [a, b, c, d][1..] == [b, c, d] && [b, c, d][1..] == [c, d] && [c, d][1..] == [d] && [d][1..] == [];
    var s1, s2, s3 := Next(s, a), Next(Next(s, a), b), Next(Next(Next(s, a), b), c);
    assert CanRun(s3, [d]) && Ran(s3, [d]) == Next(s3, d);
    assert CanRun(s2, [c, d]) && Ran(s2, [c, d]) == Next(s3, d);
    assert CanRun(s1, [b, c, d]) && Ran(s1, [b, c, d]) == Next(s3, d);
  }
}
