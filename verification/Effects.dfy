/** Compensation of a step's external effects (core/effect_tracker.go:181-366): reverse order, the
    review flag over whole runs, and what a second compensation does. */
module Effects {
  import opened Text

  datatype EffectClass = NoEffect | FileEffect | External
  datatype Probe = NotApplied | Applied | Unknown
  datatype Action = Skipped | FileRollback | Compensated | NeedsReview
  datatype Contract = Contract(compensatable: bool, action: string)
  datatype Effect = Effect(opID: string, stepID: string, tool: string, kind: EffectClass, compensatable: bool, compensator: string, review: bool)
  datatype Result = Result(opID: string, action: Action)

  /** What is applied outside, and the registered contracts, probers and compensators; a
      compensator returns what is applied after it, or fails. */
  type Outside = set<string>
  datatype Registered = Registered(contracts: map<string, Contract>, probers: map<string, (Effect, Outside) -> Probe>,
                                   compensators: map<string, (Effect, Outside) -> Option<Outside>>)

  // ----- one effect

  function ProbeOf(w: Registered, e: Effect, out: Outside): (p: Probe) {
    if e.tool in w.probers then w.probers[e.tool](e, out) else Unknown
  }

  /** The contract in force now takes precedence over what was recorded. */
  predicate Reversible(w: Registered, e: Effect) {
    if e.tool in w.contracts then w.contracts[e.tool].compensatable && w.contracts[e.tool].action != ""
    else e.compensatable && e.compensator != ""
  }

  function CompensatorOf(w: Registered, e: Effect, out: Outside): (r: Option<Outside>) {
    if e.tool in w.compensators then w.compensators[e.tool](e, out) else None
  }

  function One(w: Registered, e: Effect, out: Outside): (r: (Action, Outside)) {
    match e.kind
    case NoEffect => (Skipped, out)
    case FileEffect => (FileRollback, out)
    case External =>
      match ProbeOf(w, e, out)
      case NotApplied => (Skipped, out)
      case Unknown => (NeedsReview, out)
      case Applied =>
        if !Reversible(w, e) || e.tool !in w.compensators then (NeedsReview, out)
        else match CompensatorOf(w, e, out)
          case None => (NeedsReview, out)
          case Some(out') => (Compensated, out')
  }

  // ----- a step's effects, last first

  /** Positions below `n`, in ascending order. */
  predicate Rising(idx: seq<nat>, n: nat) {
    (forall k :: 0 <= k < |idx| ==> idx[k] < n) && forall a, b :: 0 <= a < b < |idx| ==> idx[a] < idx[b]
  }

  /** The positions of a step's effects, in the order they were recorded. */
  function StepIndices(es: seq<Effect>, step: string): (idx: seq<nat>)
    ensures Rising(idx, |es|)
    ensures forall i :: 0 <= i < |es| ==> (i in idx <==> es[i].stepID == step)
  {
    if es == [] then []
    else
      var n := |es| - 1;
      var idx := StepIndices(es[..n], step);
      if es[n].stepID == step then idx + [n] else idx
  }

  datatype Sweep = Sweep(results: seq<Result>, effects: seq<Effect>, outside: Outside)

  function Marked(es: seq<Effect>, i: nat, a: Action): (r: seq<Effect>)
    requires i < |es|
    ensures |r| == |es|
  {
    if a.NeedsReview? then es[i := es[i].(review := true)] else es
  }

  /** From the last of the given effects to the first. */
  function Swept(w: Registered, es: seq<Effect>, idx: seq<nat>, out: Outside): (r: Sweep)
    requires Rising(idx, |es|)
    ensures |r.results| == |idx| && |r.effects| == |es|
    decreases |idx|
  {
    if idx == [] then Sweep([], es, out)
    else
      var n := |idx| - 1;
      var (a, out') := One(w, es[idx[n]], out);
      var rest := Swept(w, Marked(es, idx[n], a), idx[..n], out');
      Sweep([Result(es[idx[n]].opID, a)] + rest.results, rest.effects, rest.outside)
  }

  /** CompensateStep. */
  function StepSwept(w: Registered, es: seq<Effect>, step: string, out: Outside): (r: Sweep)
    ensures |r.effects| == |es|
  {
    Swept(w, es, StepIndices(es, step), out)
  }

  class EffectTracker {
    var effects: seq<Effect>

    constructor ()
      ensures effects == []
    {
      effects := [];
    }

    method RecordEffect(e: Effect)
      modifies this
      ensures effects == old(effects) + [e]
    {
      effects := effects + [e];
    }

    method GetByStep(stepID: string) returns (idx: seq<nat>)
      ensures idx == StepIndices(effects, stepID)
    {
      idx := [];
      for i := 0 to |effects|
        invariant idx == StepIndices(effects[..i], stepID)
      {
        assert effects[..i + 1][..i] == effects[..i];
        if effects[i].stepID == stepID {
          idx := idx + [i];
        }
      }
      assert effects[..|effects|] == effects;
    }

    method CompensateOne(w: Registered, i: nat, out: Outside) returns (result: Result, out': Outside)
      requires i < |effects|
      modifies this
      ensures result == Result(old(effects)[i].opID, One(w, old(effects)[i], out).0) && out' == One(w, old(effects)[i], out).1
      ensures effects == Marked(old(effects), i, result.action)
    {
      var e := effects[i];
      var (a, now) := One(w, e, out);
      if a.NeedsReview? {
        effects := effects[i := e.(review := true)];
      }
      result, out' := Result(e.opID, a), now;
    }

    /** Compensates the effects of a step from the last to the first. */
    method CompensateStep(w: Registered, stepID: string, out: Outside) returns (results: seq<Result>, out': Outside)
      modifies this
      ensures Sweep(results, effects, out') == StepSwept(w, old(effects), stepID, out)
    {
      var idx := GetByStep(stepID);
      ghost var goal, todo := Swept(w, effects, idx, out), idx;
      results, out' := [], out;
      var k := |idx|;
      LeftAll(w, effects, idx, out);
      while k > 0
        invariant 0 <= k <= |idx| && todo == idx[..k] && |effects| == |old(effects)|
        invariant Left(w, goal, results, effects, todo, out')
        decreases k
      {
        k := k - 1;
        var i := idx[k];
        assert todo[k] == i && todo[..k] == idx[..k];
        LeftNext(w, goal, results, effects, todo, out');
        ghost var before, e := effects, effects[i];
        var result;
        result, out' := CompensateOne(w, i, out');
        assert effects == Marked(before, i, result.action) && result.opID == e.opID;
        results, todo := results + [result], todo[..k];
      }
      LeftNone(w, goal, results, effects, out');
    }
  }

  /** The goal is what was done already followed by the sweep over what is left to do. */
  ghost predicate Left(w: Registered, goal: Sweep, results: seq<Result>, es: seq<Effect>, todo: seq<nat>, out: Outside) {
    Rising(todo, |es|) &&
    var r := Swept(w, es, todo, out);
    goal.results == results + r.results && goal.effects == r.effects && goal.outside == r.outside
  }

  lemma LeftAll(w: Registered, es: seq<Effect>, idx: seq<nat>, out: Outside)
    requires Rising(idx, |es|)
    ensures Left(w, Swept(w, es, idx, out), [], es, idx, out) && idx[..|idx|] == idx
  {
  }

  lemma LeftNone(w: Registered, goal: Sweep, results: seq<Result>, es: seq<Effect>, out: Outside)
    requires Left(w, goal, results, es, [], out)
    ensures goal == Sweep(results, es, out)
  {
  }

  lemma LeftNext(w: Registered, goal: Sweep, results: seq<Result>, es: seq<Effect>, todo: seq<nat>, out: Outside)
    requires todo != [] && Left(w, goal, results, es, todo, out)
    ensures var n := |todo| - 1;
      && todo[n] < |es|
      && var one := One(w, es[todo[n]], out);
      Left(w, goal, results + [Result(es[todo[n]].opID, one.0)], Marked(es, todo[n], one.0), todo[..n], one.1)
  {
    var n := |todo| - 1;
    var (a, out') := One(w, es[todo[n]], out);
    var rest := Swept(w, Marked(es, todo[n], a), todo[..n], out').results;
    assert results + ([Result(es[todo[n]].opID, a)] + rest) == results + [Result(es[todo[n]].opID, a)] + rest;
  }

  // ----- order and flags of one call

  /** The effects are the same but for review flags, and no flag is cleared. */
  ghost predicate Keeps(es: seq<Effect>, fs: seq<Effect>) {
    |es| == |fs| && forall i :: 0 <= i < |es| ==> fs[i] == es[i].(review := fs[i].review) && (es[i].review ==> fs[i].review)
  }

  lemma KeepsTrans(a: seq<Effect>, b: seq<Effect>, c: seq<Effect>)
    requires Keeps(a, b) && Keeps(b, c)
    ensures Keeps(a, c)
  {
  }

  /** The position in the results of the effect at position `k` of the list. */
  function Turn(idx: seq<nat>, k: nat): (j: nat)
    requires k < |idx|
    ensures j < |idx|
  {
    |idx| - 1 - k
  }

  lemma MarkedKeeps(es: seq<Effect>, i: nat, a: Action)
    requires i < |es|
    ensures Keeps(es, Marked(es, i, a))
  {
  }

  lemma {:induction false} SweptKeeps(w: Registered, es: seq<Effect>, idx: seq<nat>, out: Outside)
    requires Rising(idx, |es|)
    ensures Keeps(es, Swept(w, es, idx, out).effects)
    decreases |idx|
  {
    if idx != [] {
      var last, front := idx[|idx| - 1], idx[..|idx| - 1];
      var (a, out') := One(w, es[last], out);
      var es' := Marked(es, last, a);
      MarkedKeeps(es, last, a);
      SweptKeeps(w, es', front, out');
      KeepsTrans(es, es', Swept(w, es', front, out').effects);
    }
  }

  lemma {:induction false} SweptUntouched(w: Registered, es: seq<Effect>, idx: seq<nat>, out: Outside, i: nat)
    requires Rising(idx, |es|) && i < |es| && i !in idx
    ensures Swept(w, es, idx, out).effects[i] == es[i]
    decreases |idx|
  {
    if idx != [] {
      var last, front := idx[|idx| - 1], idx[..|idx| - 1];
      assert last in idx;
      var (a, out') := One(w, es[last], out);
      SweptUntouched(w, Marked(es, last, a), front, out', i);
    }
  }

  /** The result of the effect at position `k` names it, and it is flagged afterwards if and only if
      it was before or that result asks for a review. */
  predicate Told(es: seq<Effect>, idx: seq<nat>, r: Sweep, k: nat)
    requires Rising(idx, |es|) && |r.results| == |idx| && |r.effects| == |es| && k < |idx|
  {
    var result := r.results[Turn(idx, k)];
    result.opID == es[idx[k]].opID && (r.effects[idx[k]].review <==> es[idx[k]].review || result.action.NeedsReview?)
  }

  lemma {:induction false} SweptTold(w: Registered, es: seq<Effect>, idx: seq<nat>, out: Outside, k: nat)
    requires Rising(idx, |es|) && k < |idx|
    ensures Told(es, idx, Swept(w, es, idx, out), k)
    decreases |idx|
  {
    var n := |idx| - 1;
    var last, front := idx[n], idx[..n];
    var (a, out') := One(w, es[last], out);
    var es' := Marked(es, last, a);
    if k == n {
      SweptUntouched(w, es', front, out', last);
    } else {
      SweptTold(w, es', front, out', k);
      assert es'[idx[k]] == es[idx[k]] && front[k] == idx[k];
    }
  }

  /** What is applied outside when the turn of the effect at position `k` comes. */
  function Meanwhile(w: Registered, es: seq<Effect>, idx: seq<nat>, out: Outside, k: nat): (r: Outside)
    requires Rising(idx, |es|) && k < |idx|
    decreases |idx|
  {
    var n := |idx| - 1;
    if k == n then out
    else
      var (a, out') := One(w, es[idx[n]], out);
      Meanwhile(w, Marked(es, idx[n], a), idx[..n], out', k)
  }

  /** Each result is the decision on its own effect, as recorded, on what is applied at its turn. */
  lemma {:induction false} SweptDecides(w: Registered, es: seq<Effect>, idx: seq<nat>, out: Outside, k: nat)
    requires Rising(idx, |es|) && k < |idx|
    ensures Swept(w, es, idx, out).results[Turn(idx, k)].action == One(w, es[idx[k]], Meanwhile(w, es, idx, out, k)).0
    decreases |idx|
  {
    var n := |idx| - 1;
    if k < n {
      var (a, out') := One(w, es[idx[n]], out);
      var es' := Marked(es, idx[n], a);
      SweptDecides(w, es', idx[..n], out', k);
      assert es'[idx[k]] == es[idx[k]];
    }
  }

  /** A prober registered for the tool gives this answer. */
  predicate Probed(w: Registered, e: Effect, now: Outside, p: Probe) {
    e.tool in w.probers && w.probers[e.tool](e, now) == p
  }

  /** A compensator is declared, by the contract in force or else by the record, is registered for
      the tool, and succeeds. */
  predicate Undoes(w: Registered, e: Effect, now: Outside) {
    && (e.tool in w.contracts ==> w.contracts[e.tool].compensatable && w.contracts[e.tool].action != "")
    && (e.tool !in w.contracts ==> e.compensatable && e.compensator != "")
    && e.tool in w.compensators && w.compensators[e.tool](e, now).Some?
  }

  /** An external effect is skipped if and only if it is probed not applied, compensated if and only
      if it is probed applied and its compensator undoes it, and is up for review in every other case. */
  lemma ActionIff(w: Registered, es: seq<Effect>, idx: seq<nat>, out: Outside, k: nat)
    requires Rising(idx, |es|) && k < |idx|
    ensures var e, now := es[idx[k]], Meanwhile(w, es, idx, out, k);
      var a := Swept(w, es, idx, out).results[Turn(idx, k)].action;
      && (a.Skipped? <==> e.kind.NoEffect? || (e.kind.External? && Probed(w, e, now, NotApplied)))
      && (a.FileRollback? <==> e.kind.FileEffect?)
      && (a.Compensated? <==> e.kind.External? && Probed(w, e, now, Applied) && Undoes(w, e, now))
      && (a.NeedsReview? <==> e.kind.External? && !Probed(w, e, now, NotApplied) && !a.Compensated?)
  {
    SweptDecides(w, es, idx, out, k);
  }

  /** Results come in reverse order, one per effect, with the flags they ask for; no flag is
      cleared and nothing else changes. */
  lemma SweptMeaning(w: Registered, es: seq<Effect>, idx: seq<nat>, out: Outside)
    requires Rising(idx, |es|)
    ensures var r := Swept(w, es, idx, out);
      && Keeps(es, r.effects)
      && (forall k :: 0 <= k < |idx| ==> Told(es, idx, r, k))
      && (forall i :: 0 <= i < |es| && i !in idx ==> r.effects[i] == es[i])
  {
    SweptKeeps(w, es, idx, out);
    forall k | 0 <= k < |idx| ensures Told(es, idx, Swept(w, es, idx, out), k) { SweptTold(w, es, idx, out, k); }
    forall i | 0 <= i < |es| && i !in idx ensures Swept(w, es, idx, out).effects[i] == es[i] { SweptUntouched(w, es, idx, out, i); }
  }

  // ----- whole runs

  datatype Call = Call(w: Registered, step: string)

  /** The state after a run of calls; contracts and compensators may differ from call to call. */
  function After(es: seq<Effect>, out: Outside, run: seq<Call>): (r: Sweep)
    ensures |r.effects| == |es|
    decreases |run|
  {
    if run == [] then Sweep([], es, out)
    else
      var n := |run| - 1;
      var before := After(es, out, run[..n]);
      StepSwept(run[n].w, before.effects, run[n].step, before.outside)
  }

  /** The call, made in the given state, finds that effect `i` needs a review. */
  ghost predicate Flags(call: Call, before: Sweep, i: nat) {
    var idx := StepIndices(before.effects, call.step);
    var r := Swept(call.w, before.effects, idx, before.outside);
    exists k :: 0 <= k < |idx| && idx[k] == i && r.results[Turn(idx, k)].action.NeedsReview?
  }

  /** Some call of the run flags effect `i`. */
  ghost predicate EverFlagged(es: seq<Effect>, out: Outside, run: seq<Call>, i: nat)
    decreases |run|
  {
    run != [] &&
    var n := |run| - 1;
    EverFlagged(es, out, run[..n], i) || Flags(run[n], After(es, out, run[..n]), i)
  }

  lemma LastCall(es: seq<Effect>, out: Outside, run: seq<Call>, i: nat)
    requires run != [] && i < |es|
    ensures var n := |run| - 1;
      var before := After(es, out, run[..n]).effects;
      && Keeps(before, After(es, out, run).effects)
      && (After(es, out, run).effects[i].review <==> before[i].review || Flags(run[n], After(es, out, run[..n]), i))
  {
    var n := |run| - 1;
    var before := After(es, out, run[..n]);
    var idx := StepIndices(before.effects, run[n].step);
    SweptMeaning(run[n].w, before.effects, idx, before.outside);
    if i in idx {
      var k :| 0 <= k < |idx| && idx[k] == i;
      assert Told(before.effects, idx, StepSwept(run[n].w, before.effects, run[n].step, before.outside), k);
    }
  }

  /** Over every run of compensations nothing but review flags changes, none is ever cleared, and
      an effect is flagged at the end if and only if it was at the start or some call flagged it,
      even when a later call has compensated it. */
  lemma {:induction false} FlagsIff(es: seq<Effect>, out: Outside, run: seq<Call>, i: nat)
    requires i < |es|
    ensures Keeps(es, After(es, out, run).effects)
    ensures After(es, out, run).effects[i].review <==> es[i].review || EverFlagged(es, out, run, i)
    decreases |run|
  {
    if run != [] {
      var n := |run| - 1;
      FlagsIff(es, out, run[..n], i);
      LastCall(es, out, run, i);
      KeepsTrans(es, After(es, out, run[..n]).effects, After(es, out, run).effects);
    }
  }

  // ----- a second compensation

  /** The registered probers tell what is applied, and the registered compensators undo their effect
      and nothing else. */
  ghost predicate Truthful(w: Registered) {
    && (forall e: Effect, out: Outside :: e.tool in w.probers ==> ProbeOf(w, e, out) == if e.opID in out then Applied else NotApplied)
    && (forall e: Effect, out: Outside :: e.tool in w.compensators ==> CompensatorOf(w, e, out) == Some(out - {e.opID}))
  }

  /** One tool, with a prober and a compensator that are truthful. */
  function Honest(tool: string): (w: Registered) {
    Registered(map[tool := Contract(true, "undo")],
               map[tool := (e: Effect, out: Outside) => if e.opID in out then Applied else NotApplied],
               map[tool := (e: Effect, out: Outside) => Some(out - {e.opID})])
  }

  lemma HonestIsTruthful(tool: string)
    ensures Truthful(Honest(tool)) && tool in Honest(tool).probers && tool in Honest(tool).compensators
  {
  }

  /** What can be undone is undone. */
  predicate Undone(w: Registered, e: Effect, out: Outside) {
    e.kind.External? && e.tool in w.probers && Reversible(w, e) && e.tool in w.compensators ==> e.opID !in out
  }

  lemma OneUndoes(w: Registered, e: Effect, out: Outside)
    requires Truthful(w)
    ensures One(w, e, out).1 <= out && Undone(w, e, One(w, e, out).1)
    ensures Undone(w, e, out) ==> One(w, e, out).1 == out && !One(w, e, out).0.Compensated?
  {
    assert e.tool in w.probers ==> ProbeOf(w, e, out) == if e.opID in out then Applied else NotApplied;
    assert e.tool in w.compensators ==> CompensatorOf(w, e, out) == Some(out - {e.opID});
  }

  lemma {:induction false} SweptUndoes(w: Registered, es: seq<Effect>, idx: seq<nat>, out: Outside)
    requires Truthful(w) && Rising(idx, |es|)
    ensures var r := Swept(w, es, idx, out); r.outside <= out && forall k :: 0 <= k < |idx| ==> Undone(w, es[idx[k]], r.outside)
    decreases |idx|
  {
    if idx != [] {
      var n := |idx| - 1;
      var last, front := idx[n], idx[..n];
      var (a, out') := One(w, es[last], out);
      OneUndoes(w, es[last], out);
      var es' := Marked(es, last, a);
      SweptUndoes(w, es', front, out');
      forall k | 0 <= k < n ensures Undone(w, es[idx[k]], Swept(w, es', front, out').outside) {
        assert front[k] == idx[k] && es'[idx[k]] == es[idx[k]];
      }
    }
  }

  lemma {:induction false} SweptIdle(w: Registered, es: seq<Effect>, idx: seq<nat>, out: Outside)
    requires Truthful(w) && Rising(idx, |es|) && forall k :: 0 <= k < |idx| ==> Undone(w, es[idx[k]], out)
    ensures var r := Swept(w, es, idx, out); r.outside == out && forall j :: 0 <= j < |idx| ==> !r.results[j].action.Compensated?
    decreases |idx|
  {
    if idx != [] {
      var n := |idx| - 1;
      var last, front := idx[n], idx[..n];
      OneUndoes(w, es[last], out);
      var es' := Marked(es, last, One(w, es[last], out).0);
      forall k | 0 <= k < |front| ensures Undone(w, es'[front[k]], out) {
        assert front[k] == idx[k] && Undone(w, es[idx[k]], out) && es'[idx[k]] == es[idx[k]];
      }
      SweptIdle(w, es', front, out);
    }
  }

  /** With truthful probers a second compensation of a step compensates nothing again. */
  lemma SecondIdle(w: Registered, es: seq<Effect>, step: string, out: Outside)
    requires Truthful(w)
    ensures var first := StepSwept(w, es, step, out);
      var second := StepSwept(w, first.effects, step, first.outside);
      second.outside == first.outside && forall j :: 0 <= j < |second.results| ==> !second.results[j].action.Compensated?
  {
    var idx := StepIndices(es, step);
    var first := Swept(w, es, idx, out);
    SweptMeaning(w, es, idx, out);
    SweptUndoes(w, es, idx, out);
    SameIndices(es, first.effects, step);
    forall k | 0 <= k < |idx| ensures Undone(w, first.effects[idx[k]], first.outside) { assert Undone(w, es[idx[k]], first.outside); }
    SweptIdle(w, first.effects, idx, first.outside);
  }

  /** Nothing is registered. */
  const BARE := Registered(map[], map[], map[])

  lemma HonestOne(e: Effect, out: Outside)
    requires e.kind.External? && e.opID in out
    ensures One(Honest(e.tool), e, out) == (Compensated, out - {e.opID})
    ensures One(BARE, e, out) == (NeedsReview, out)
  {
  }

  /** An effect flagged while its tool had no prober and compensated once it has one: it is undone
      and still flagged. */
  lemma StaleFlag(e: Effect, out: Outside)
    requires e.kind.External? && e.opID in out
    ensures var first := StepSwept(BARE, [e], e.stepID, out);
      var second := StepSwept(Honest(e.tool), first.effects, e.stepID, first.outside);
      && first.results == [Result(e.opID, NeedsReview)]
      && second.results == [Result(e.opID, Compensated)] && second.outside == out - {e.opID} && second.effects == [e.(review := true)]
  {
    var f := e.(review := true);
    HonestOne(e, out);
    HonestOne(f, out);
    OneSwept(BARE, e, out);
    OneSwept(Honest(e.tool), f, out);
  }

  lemma OneSwept(w: Registered, e: Effect, out: Outside)
    ensures var (a, out') := One(w, e, out);
      StepSwept(w, [e], e.stepID, out) == Sweep([Result(e.opID, a)], if a.NeedsReview? then [e.(review := true)] else [e], out')
  {
    OnlyIndex(e);
    OnlySwept(w, e, out);
  }

  lemma OnlyIndex(e: Effect)
    ensures StepIndices([e], e.stepID) == [0]
  {
    var es := [e];
    assert es[..0] == [];
  }

  lemma OnlySwept(w: Registered, e: Effect, out: Outside)
    ensures var one := One(w, e, out);
      Swept(w, [e], [0], out) == Sweep([Result(e.opID, one.0)], if one.0.NeedsReview? then [e.(review := true)] else [e], one.1)
  {
    var idx: seq<nat> := [0];
    assert idx[..0] == [];
    var rest := Swept(w, Marked([e], 0, One(w, e, out).0), [], One(w, e, out).1);
    assert [Result(e.opID, One(w, e, out).0)] + rest.results == [Result(e.opID, One(w, e, out).0)];
  }

  lemma {:induction false} SameIndices(es: seq<Effect>, fs: seq<Effect>, step: string)
    requires Keeps(es, fs)
    ensures StepIndices(es, step) == StepIndices(fs, step)
    decreases |es|
  {
    if es != [] { SameIndices(es[..|es| - 1], fs[..|es| - 1], step); }
  }
}
