/** Forking a task graph at a step (core/fork.go:57-126): reachability by a depth-first
    search with a visited set, and the reset of everything downstream. */
module Forks {

  datatype Status = Pending | Running | OK | Failed | Suspended | Other(name: string)
  datatype Step = Step(status: Status, dependsOn: seq<string>, retryCount: int, lastError: string, autoRefineCount: int)

  type Steps = map<string, Step>

  function Deps(steps: Steps, id: string): (r: seq<string>) {
    if id in steps then steps[id].dependsOn else []
  }

  /** A dependency path: each element depends on the next. */
  ghost predicate Path(steps: Steps, p: seq<string>) {
    |p| >= 1 && forall i {:trigger p[i]} :: 0 <= i < |p| - 1 ==> p[i + 1] in Deps(steps, p[i])
  }

  /** `id` depends on `target`, directly or through other steps. */
  ghost predicate Downstream(steps: Steps, id: string, target: string) {
    exists p :: Path(steps, p) && |p| >= 2 && p[0] == id && p[|p| - 1] == target
  }

  lemma PrependPath(steps: Steps, id: string, dep: string, target: string)
    requires dep in Deps(steps, id) && Downstream(steps, dep, target)
    ensures Downstream(steps, id, target)
  {
    var p :| Path(steps, p) && |p| >= 2 && p[0] == dep && p[|p| - 1] == target;
    var q := [id] + p;
    forall i | 0 <= i < |q| - 1 ensures q[i + 1] in Deps(steps, q[i]) {
      if i > 0 { assert p[i - 1 + 1] in Deps(steps, p[i - 1]); }
    }
    assert Path(steps, q) && |q| >= 2 && q[0] == id && q[|q| - 1] == target;
  }

  lemma DirectPath(steps: Steps, id: string, target: string)
    requires target in Deps(steps, id)
    ensures Downstream(steps, id, target)
  {
    var p := [id, target];
    assert Path(steps, p) && |p| >= 2 && p[0] == id && p[|p| - 1] == target;
  }

  /** No dependency of `v` is the target, and all of them have been visited. */
  ghost predicate Explored(steps: Steps, target: string, visited: set<string>, v: string) {
    forall dep :: dep in Deps(steps, v) ==> dep != target && dep in visited
  }

  lemma {:induction false} ClosedHasNoPath(steps: Steps, target: string, visited: set<string>, p: seq<string>)
    requires forall v :: v in visited ==> Explored(steps, target, visited, v)
    requires Path(steps, p) && |p| >= 2 && p[0] in visited
    ensures p[|p| - 1] != target
    decreases |p|
  {
    assert p[0 + 1] in Deps(steps, p[0]);
    assert Explored(steps, target, visited, p[0]);
    if |p| > 2 {
      var q := p[1..];
      forall i | 0 <= i < |q| - 1 ensures q[i + 1] in Deps(steps, q[i]) {
        assert p[i + 1 + 1] in Deps(steps, p[i + 1]);
      }
      ClosedHasNoPath(steps, target, visited, q);
    }
  }

  /** The recursive search of the source; `visited` is its shared map. */
  method Check(steps: Steps, target: string, id: string, visited: set<string>) returns (found: bool, visited': set<string>)
    ensures visited <= visited'
    ensures found ==> Downstream(steps, id, target)
    ensures !found ==> id in visited' && forall v :: v in visited' - visited ==> Explored(steps, target, visited', v)
    decreases steps.Keys - visited, 1
  {
    if id in visited {
      return false, visited;
    }
    visited' := visited + {id};
    if id !in steps {
      return false, visited';
    }
    assert steps.Keys - visited' < steps.Keys - visited by { assert id in steps.Keys - visited; }
    found, visited' := CheckDeps(steps, target, id, steps[id].dependsOn, visited');
  }

  /** The loop over the dependencies of one step. */
  method CheckDeps(steps: Steps, target: string, id: string, deps: seq<string>, visited: set<string>) returns (found: bool, visited': set<string>)
    requires id in visited && deps == Deps(steps, id)
    ensures visited <= visited'
    ensures found ==> Downstream(steps, id, target)
    ensures !found ==> Explored(steps, target, visited', id) && forall v :: v in visited' - visited ==> Explored(steps, target, visited', v)
    decreases steps.Keys - visited, 2
  {
    visited' := visited;
    for i := 0 to |deps|
      invariant visited <= visited'
      invariant forall j :: 0 <= j < i ==> deps[j] != target && deps[j] in visited'
      invariant forall v :: v in visited' - visited ==> Explored(steps, target, visited', v)
    {
      if deps[i] == target {
        DirectPath(steps, id, target);
        return true, visited';
      }
      ghost var before := visited';
      found, visited' := Check(steps, target, deps[i], visited');
      if found {
        PrependPath(steps, id, deps[i], target);
        return true, visited';
      }
      forall v | v in visited' - visited ensures Explored(steps, target, visited', v) {
        if v in before { assert Explored(steps, target, before, v); }
      }
    }
    found := false;
  }

  /** True exactly when a non-empty dependency path leads to the target, on any graph,
      cyclic or not. */
  method IsDownstream(stepID: string, targetStepID: string, steps: Steps) returns (r: bool)
    ensures r <==> Downstream(steps, stepID, targetStepID)
  {
    var visited;
    r, visited := Check(steps, targetStepID, stepID, {});
    if !r {
      forall p | Path(steps, p) && |p| >= 2 && p[0] == stepID ensures p[|p| - 1] != targetStepID {
        ClosedHasNoPath(steps, targetStepID, visited, p);
      }
    }
  }

  // ----- the fork

  function Reset(s: Step): (r: Step) {
    s.(status := Pending, retryCount := 0, lastError := "", autoRefineCount := 0)
  }

  /** The step after the fork. */
  ghost function Forked(steps: Steps, target: string, id: string): (r: Step)
    requires id in steps
  {
    if id == target then steps[id].(status := OK)
    else if Downstream(steps, id, target) then Reset(steps[id])
    else steps[id]
  }

  ghost predicate SameDeps(a: Steps, b: Steps) {
    a.Keys == b.Keys && forall id :: id in a ==> a[id].dependsOn == b[id].dependsOn
  }

  lemma SameDownstream(a: Steps, b: Steps, id: string, target: string)
    requires SameDeps(a, b)
    ensures Downstream(a, id, target) <==> Downstream(b, id, target)
  {
    if Downstream(a, id, target) { KeepsPaths(a, b, id, target); }
    if Downstream(b, id, target) { KeepsPaths(b, a, id, target); }
  }

  lemma KeepsPaths(a: Steps, b: Steps, id: string, target: string)
    requires SameDeps(a, b) && Downstream(a, id, target)
    ensures Downstream(b, id, target)
  {
    var p :| Path(a, p) && |p| >= 2 && p[0] == id && p[|p| - 1] == target;
    assert Path(b, p);
  }

  class TaskGraph {
    var steps: Steps

    /** Rewrites the steps one by one, in any order, deciding each on the graph as it
        stands at that moment. */
    method Fork(targetStepID: string) returns (ok: bool)
      modifies this
      ensures ok <==> targetStepID in old(steps)
      ensures !ok ==> steps == old(steps)
      ensures ok ==> targetStepID in steps && steps[targetStepID] == old(steps)[targetStepID].(status := OK)
      ensures ok ==> steps.Keys == old(steps).Keys && forall id :: id in steps ==> steps[id] == Forked(old(steps), targetStepID, id)
    {
      if targetStepID !in steps {
        return false;
      }
      var todo := steps.Keys;
      while todo != {}
        invariant todo <= steps.Keys && SameDeps(steps, old(steps))
        invariant forall id :: id in steps ==>
          steps[id] == if id in todo then old(steps)[id] else Forked(old(steps), targetStepID, id)
        decreases todo
      {
        var stepID :| stepID in todo;
        todo := todo - {stepID};
        if stepID == targetStepID {
          steps := steps[stepID := steps[stepID].(status := OK)];
          continue;
        }
        SameDownstream(steps, old(steps), stepID, targetStepID);
        var down := IsDownstream(stepID, targetStepID, steps);
        if down {
          steps := steps[stepID := steps[stepID].(status := Pending, retryCount := 0, lastError := "", autoRefineCount := 0)];
        }
      }
      ok := true;
    }
  }

  /** A fork leaves no stale step: whatever depends on a reset step, or on the target, is itself
      pending again with nothing left of its earlier attempts, unless it is the target. */
  lemma ForkClosed(steps: Steps, target: string, id: string, dep: string)
    requires id in steps && dep in steps && id != target && dep in Deps(steps, id)
    requires dep == target || Downstream(steps, dep, target)
    ensures Forked(steps, target, id) == Step(Pending, steps[id].dependsOn, 0, "", 0)
  {
    if dep == target { DirectPath(steps, id, target); } else { PrependPath(steps, id, dep, target); }
  }

  /** In an acyclic graph nothing the target is built on is touched. */
  lemma ForkKeepsUpstream(steps: Steps, target: string, id: string)
    requires id in steps && id != target && Downstream(steps, target, id)
    requires !Downstream(steps, target, target)
    ensures Forked(steps, target, id) == steps[id]
  {
    if Downstream(steps, id, target) { Compose(steps, target, id, target); }
  }

  lemma Compose(steps: Steps, a: string, b: string, c: string)
    requires Downstream(steps, a, b) && Downstream(steps, b, c)
    ensures Downstream(steps, a, c)
  {
    var p :| Path(steps, p) && |p| >= 2 && p[0] == a && p[|p| - 1] == b;
    var q :| Path(steps, q) && |q| >= 2 && q[0] == b && q[|q| - 1] == c;
    var r := p + q[1..];
    forall i | 0 <= i < |r| - 1 ensures r[i + 1] in Deps(steps, r[i]) {
      if i < |p| - 1 {
        assert r[i] == p[i] && r[i + 1] == p[i + 1];
      } else {
        assert r[i] == q[i - (|p| - 1)] && r[i + 1] == q[i - (|p| - 1) + 1];
      }
    }
    assert Path(steps, r) && |r| >= 2 && r[0] == a && r[|r| - 1] == c;
  }
}
