/** The write-ahead log of config/wal.go: an append-only list of commits and the
    scans that replay it. */
module Wals {
  import opened Patches

  datatype Commit = Commit(id: string, ops: seq<PatchOp>)

  /** A way to apply a patch; the registry's is `ApplyPatch`. */
  type Engine = (Node, seq<PatchOp>) -> Outcome

  // ----- what the scans compute

  /** Apply commits in order; stop at the first that fails. */
  function ReplayAll(apply: Engine, doc: Node, cs: seq<Commit>): (r: Outcome)
    decreases |cs|
  {
    if cs == [] then Outcome(doc, true)
    else
      var first := apply(doc, cs[0].ops);
      if first.ok then ReplayAll(apply, first.doc, cs[1..]) else first
  }

  predicate Contains(log: seq<Commit>, id: string) {
    exists i :: 0 <= i < |log| && log[i].id == id
  }

  /** The commits after the first one called `since`; all of them if there is none. */
  function Suffix(log: seq<Commit>, since: string): (r: seq<Commit>) {
    if since == "" || !Contains(log, since) then log else log[First(log, since) + 1..]
  }

  /** The position of the first commit called `id`. */
  function First(log: seq<Commit>, id: string): (k: nat)
    requires Contains(log, id)
    ensures k < |log| && log[k].id == id
    ensures forall j :: 0 <= j < k ==> log[j].id != id
  {
    FirstFrom(log, id, 0)
  }

  function FirstFrom(log: seq<Commit>, id: string, i: nat): (k: nat)
    requires Contains(log, id) && forall j :: 0 <= j < i ==> j < |log| && log[j].id != id
    ensures k < |log| && log[k].id == id
    ensures forall j :: 0 <= j < k ==> log[j].id != id
    decreases |log| - i
  {
    if log[i].id == id then i else FirstFrom(log, id, i + 1)
  }

  /** Where the commits after `since` start. */
  function StartAfter(log: seq<Commit>, since: string): (k: nat)
    ensures k <= |log| && Suffix(log, since) == log[k..]
  {
    if since == "" || !Contains(log, since) then 0 else First(log, since) + 1
  }

  /** The commits up to and including the first one called `id`; all if there is none. */
  function UpTo(log: seq<Commit>, id: string): (r: seq<Commit>)
  {
    if id == "" || !Contains(log, id) then log else log[..First(log, id) + 1]
  }

  function LastId(log: seq<Commit>): (id: string) {
    if log == [] then "" else log[|log| - 1].id
  }

  // ----- the file and its scans

  /** Replays the first of the commits that remain. */
  method ReplayOne(target: Target, ops: seq<PatchOp>, ghost rest: seq<Commit>) returns (ok: bool)
    requires rest != [] && rest[0].ops == ops
    modifies target
    ensures old(ReplayAll(ApplyPatch, target.doc, rest)) ==
      if ok then ReplayAll(ApplyPatch, target.doc, rest[1..]) else Outcome(target.doc, false)
  {
    ok := target.Run(ops);
  }

  class WAL {
    var log: seq<Commit>

    constructor ()
      ensures log == []
    {
      log := [];
    }

    method Append(id: string, ops: seq<PatchOp>) returns (c: Commit)
      modifies this
      ensures c == Commit(id, ops) && log == old(log) + [c]
    {
      c := Commit(id, ops);
      log := log + [c];
    }

    method ReplayUntil(target: Target, commitID: string) returns (ok: bool)
      modifies target
      ensures Outcome(target.doc, ok) == ReplayAll(ApplyPatch, old(target.doc), UpTo(log, commitID))
    {
      ghost var goal := UpTo(log, commitID);
      ghost var want := ReplayAll(ApplyPatch, target.doc, goal);
      UpToPrefix(log, commitID);
      var i := 0;
      while i < |log|
        invariant 0 <= i <= |goal|
        invariant i == |log| || i < |goal|
        invariant want == ReplayAll(ApplyPatch, target.doc, goal[i..])
      {
        var commit := log[i];
        UpToEnds(log, commitID, i);
        ok := ReplayOne(target, commit.ops, goal[i..]);
        if !ok {
          return false;
        }
        assert goal[i..][1..] == goal[i + 1..];
        if commitID != "" && commit.id == commitID {
          assert goal[i + 1..] == [];
          return true;
        }
        i := i + 1;
      }
      assert goal[i..] == [];
      ok := true;
    }

    method LastCommitID() returns (lastID: string)
      ensures lastID == LastId(log)
    {
      lastID := "";
      for i := 0 to |log|
        invariant lastID == LastId(log[..i])
      {
        lastID := log[i].id;
      }
      assert log[..|log|] == log;
    }

    method ContainsCommit(commitID: string) returns (found: bool)
      ensures found == Contains(log, commitID)
    {
      for i := 0 to |log|
        invariant !Contains(log[..i], commitID)
      {
        if log[i].id == commitID {
          return true;
        }
        assert log[..i + 1] == log[..i] + [log[i]];
      }
      assert log[..|log|] == log;
      found := false;
    }

    /** The checkpoint to skip to: none when it is empty or not in the log. */
    method EffectiveSince(sinceCommitID: string) returns (effectiveSince: string)
      ensures effectiveSince == if Contains(log, sinceCommitID) then sinceCommitID else ""
    {
      effectiveSince := sinceCommitID;
      if effectiveSince != "" {
        var found := ContainsCommit(effectiveSince);
        if !found {
          effectiveSince := "";
        }
      }
    }

    method ReplaySince(target: Target, sinceCommitID: string) returns (ok: bool)
      modifies target
      ensures Outcome(target.doc, ok) == ReplayAll(ApplyPatch, old(target.doc), Suffix(log, sinceCommitID))
    {
      var effectiveSince := EffectiveSince(sinceCommitID);
      var commits := log;
      ghost var start := StartAfter(commits, sinceCommitID);
      ghost var todo := commits[start..];
      ghost var want := ReplayAll(ApplyPatch, target.doc, todo);
      var skipping := effectiveSince != "";
      var i := 0;
      while i < |commits|
        invariant 0 <= i <= |commits|
        invariant skipping == (i < start)
        invariant todo == commits[if skipping then start else i..]
        invariant want == ReplayAll(ApplyPatch, target.doc, todo)
      {
        if skipping {
          FirstMeets(commits, effectiveSince, i);
          if commits[i].id == effectiveSince {
            skipping := false;
          }
        } else {
          ok := ReplayOne(target, commits[i].ops, todo);
          if !ok {
            return false;
          }
          todo := todo[1..];
        }
        i := i + 1;
      }
      ok := true;
    }

    method Clear()
      modifies this
      ensures log == []
    {
      log := [];
    }
  }

  // ----- laws of the scans

  lemma FirstMeets(log: seq<Commit>, id: string, i: nat)
    requires Contains(log, id) && i <= First(log, id)
    ensures log[i].id == id <==> i == First(log, id)
  {
  }

  lemma FirstIs(log: seq<Commit>, id: string, k: nat)
    requires k < |log| && log[k].id == id && forall j :: 0 <= j < k ==> log[j].id != id
    ensures Contains(log, id) && First(log, id) == k
  {
    assert Contains(log, id);
  }

  lemma UpToPrefix(log: seq<Commit>, id: string)
    ensures UpTo(log, id) <= log && (UpTo(log, id) == [] ==> log == [])
  {
  }

  /** Where the commits up to an id end: at the first one so called, or with the log. */
  lemma UpToEnds(log: seq<Commit>, id: string, i: nat)
    requires i < |UpTo(log, id)|
    ensures UpTo(log, id)[i] == log[i]
    ensures |UpTo(log, id)| == i + 1 <==> (id != "" && log[i].id == id) || i + 1 == |log|
  {
    if id != "" && Contains(log, id) {
      FirstMeets(log, id, i);
    }
  }

  lemma {:induction false} ReplayConcat(apply: Engine, doc: Node, a: seq<Commit>, b: seq<Commit>)
    ensures ReplayAll(apply, doc, a + b) ==
      if ReplayAll(apply, doc, a).ok then ReplayAll(apply, ReplayAll(apply, doc, a).doc, b) else ReplayAll(apply, doc, a)
    decreases |a|
  {
    if a == [] {
      assert a + b == b;
    } else {
      assert (a + b)[0] == a[0] && (a + b)[1..] == a[1..] + b;
      ReplayConcat(apply, apply(doc, a[0].ops).doc, a[1..], b);
    }
  }

  lemma ReplayOnly(apply: Engine, doc: Node, c: Commit)
    ensures ReplayAll(apply, doc, [c]) == apply(doc, c.ops)
  {
    var cs := [c];
    assert cs[1..] == [];
  }

  ghost predicate Distinct(log: seq<Commit>) {
    (forall i :: 0 <= i < |log| ==> log[i].id != "") &&
    (forall i, j :: 0 <= i < j < |log| ==> log[i].id != log[j].id)
  }

  /** A snapshot that records the last id of the log needs none of the log. */
  lemma SuffixOfLast(log: seq<Commit>)
    requires Distinct(log)
    ensures Suffix(log, LastId(log)) == []
  {
    if log != [] {
      var n := |log| - 1;
      assert log[n].id == LastId(log);
      assert log[First(log, LastId(log))].id == log[n].id;
    }
  }

  /** Commits under other ids than the checkpoint are appended to what recovery replays. */
  lemma SuffixAppends(log: seq<Commit>, cs: seq<Commit>, since: string)
    requires forall i :: 0 <= i < |cs| ==> cs[i].id != since
    ensures Suffix(log + cs, since) == Suffix(log, since) + cs
  {
    var t := log + cs;
    if since != "" && Contains(log, since) {
      var k := First(log, since);
      forall j | 0 <= j < k ensures t[j].id != since { assert t[j] == log[j]; }
      FirstIs(t, since, k);
      assert t[k + 1..] == log[k + 1..] + cs;
    } else if since != "" {
      NotContained(log, cs, since);
    }
  }

  lemma SuffixAppend(log: seq<Commit>, c: Commit, since: string)
    requires c.id != since
    ensures Suffix(log + [c], since) == Suffix(log, since) + [c]
  {
    SuffixAppends(log, [c], since);
  }

  lemma NotContained(log: seq<Commit>, cs: seq<Commit>, id: string)
    requires !Contains(log, id) && forall i :: 0 <= i < |cs| ==> cs[i].id != id
    ensures !Contains(log + cs, id)
  {
    var t := log + cs;
    forall i | 0 <= i < |t| ensures t[i].id != id {
      if i < |log| { assert t[i] == log[i]; } else { assert t[i] == cs[i - |log|]; }
    }
  }
}
