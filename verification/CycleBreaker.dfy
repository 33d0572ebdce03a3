/** The cycle breaker (core/cycle_breaker.go:12-171): a signature per step and its
    dependencies, a retry counter per signature, and a fuse. */
module CycleBreakers {
  import opened Text

  // ----- signatures

  predicate Leq(a: string, b: string) {
    a == "" || (b != "" && (if a[0] != b[0] then a[0] < b[0] else Leq(a[1..], b[1..])))
  }

  lemma {:induction false} LeqTotal(a: string, b: string)
    ensures Leq(a, b) || Leq(b, a)
  {
    if a != "" && b != "" && a[0] == b[0] { LeqTotal(a[1..], b[1..]); }
  }

  lemma {:induction false} LeqAntisymmetric(a: string, b: string)
    requires Leq(a, b) && Leq(b, a)
    ensures a == b
  {
    if a != "" && b != "" {
      LeqAntisymmetric(a[1..], b[1..]);
      assert a == [a[0]] + a[1..] && b == [b[0]] + b[1..];
    }
  }

  lemma {:induction false} LeqTransitive(a: string, b: string, c: string)
    requires Leq(a, b) && Leq(b, c)
    ensures Leq(a, c)
  {
    if a != "" && b != "" && c != "" && a[0] == b[0] == c[0] { LeqTransitive(a[1..], b[1..], c[1..]); }
  }

  ghost predicate Sorted(s: seq<string>) {
    forall i, j :: 0 <= i < j < |s| ==> Leq(s[i], s[j])
  }

  function Insert(x: string, s: seq<string>): (r: seq<string>) {
    if s == [] then [x]
    else if Leq(x, s[0]) then [x] + s
    else [s[0]] + Insert(x, s[1..])
  }

  function Sort(s: seq<string>): (r: seq<string>) {
    if s == [] then [] else Insert(s[0], Sort(s[1..]))
  }

  lemma {:induction false} InsertMultiset(x: string, s: seq<string>)
    ensures multiset(Insert(x, s)) == multiset(s) + multiset{x}
  {
    if s != [] {
      assert s == [s[0]] + s[1..];
      if !Leq(x, s[0]) { InsertMultiset(x, s[1..]); }
    }
  }

  lemma {:induction false} SortMultiset(s: seq<string>)
    ensures multiset(Sort(s)) == multiset(s)
  {
    if s != [] {
      SortMultiset(s[1..]);
      InsertMultiset(s[0], Sort(s[1..]));
      assert s == [s[0]] + s[1..];
    }
  }

  lemma ConsSorted(x: string, s: seq<string>)
    requires Sorted(s) && forall y :: y in s ==> Leq(x, y)
    ensures Sorted([x] + s)
  {
    var t := [x] + s;
    forall i, j | 0 <= i < j < |t| ensures Leq(t[i], t[j]) {
      assert t[j] == s[j - 1];
      if i > 0 { assert t[i] == s[i - 1]; }
    }
  }

  lemma {:induction false} InsertSorted(x: string, s: seq<string>)
    requires Sorted(s)
    ensures Sorted(Insert(x, s))
  {
    if s == [] {
    } else if Leq(x, s[0]) {
      forall y | y in s ensures Leq(x, y) {
        if y != s[0] {
          var j :| 0 < j < |s| && s[j] == y;
          assert Leq(s[0], s[j]);
          LeqTransitive(x, s[0], y);
        }
      }
      ConsSorted(x, s);
    } else {
      LeqTotal(x, s[0]);
      InsertSorted(x, s[1..]);
      InsertMultiset(x, s[1..]);
      forall y | y in Insert(x, s[1..]) ensures Leq(s[0], y) {
        assert y in multiset(Insert(x, s[1..]));
        if y != x {
          assert y in s[1..];
          var j :| 0 <= j < |s[1..]| && s[1..][j] == y;
          assert Leq(s[0], s[j + 1]);
        }
      }
      ConsSorted(s[0], Insert(x, s[1..]));
    }
  }

  lemma {:induction false} SortSorted(s: seq<string>)
    ensures Sorted(Sort(s))
  {
    if s != [] {
      SortSorted(s[1..]);
      InsertSorted(s[0], Sort(s[1..]));
    }
  }

  lemma HeadsEqual(s: seq<string>, t: seq<string>)
    requires Sorted(s) && Sorted(t) && multiset(s) == multiset(t) && s != [] && t != []
    ensures s[0] == t[0]
  {
    assert s[0] in multiset(t) && t[0] in multiset(s);
    HeadLeast(s, t[0]);
    HeadLeast(t, s[0]);
    LeqAntisymmetric(s[0], t[0]);
  }

  lemma TailMultiset(s: seq<string>)
    requires s != []
    ensures multiset(s[1..]) == multiset(s) - multiset{s[0]}
  {
    assert s == [s[0]] + s[1..];
  }

  /** A sorted list is determined by what it holds. */
  lemma {:induction false} SortedUnique(s: seq<string>, t: seq<string>)
    requires Sorted(s) && Sorted(t) && multiset(s) == multiset(t)
    ensures s == t
    decreases |s|
  {
    assert |multiset(s)| == |s| && |multiset(t)| == |t|;
    if s != [] {
      HeadsEqual(s, t);
      TailMultiset(s);
      TailMultiset(t);
      SortedUnique(s[1..], t[1..]);
      assert s == [s[0]] + s[1..] && t == [t[0]] + t[1..];
    }
  }

  lemma HeadLeast(s: seq<string>, x: string)
    requires Sorted(s) && x in s
    ensures Leq(s[0], x)
  {
    var j :| 0 <= j < |s| && s[j] == x;
    if j == 0 { LeqTotal(x, x); }
  }

  /** makeCycleID. */
  function CycleID(trigger: string, dependsOn: seq<string>): (id: string) {
    Join(Sort([trigger] + dependsOn), ':')
  }

  predicate Plain(id: string) {
    ':' !in id
  }

  /** With ids free of colons, two signatures agree exactly when the two lists hold the
      same ids, however they are split into step and dependencies. */
  lemma SignatureIff(a: string, da: seq<string>, b: string, db: seq<string>)
    requires Plain(a) && Plain(b) && (forall x :: x in da ==> Plain(x)) && (forall x :: x in db ==> Plain(x))
    ensures CycleID(a, da) == CycleID(b, db) <==> multiset([a] + da) == multiset([b] + db)
  {
    var s, t := Sort([a] + da), Sort([b] + db);
    SortMultiset([a] + da);
    SortMultiset([b] + db);
    SortSorted([a] + da);
    SortSorted([b] + db);
    if multiset([a] + da) == multiset([b] + db) { SortedUnique(s, t); }
    forall x | x in s ensures ':' !in x { assert x in multiset(s); assert x in [a] + da; }
    forall x | x in t ensures ':' !in x { assert x in multiset(t); assert x in [b] + db; }
    assert |multiset(s)| == |s| && |multiset(t)| == |t|;
    SplitJoin(s, ':');
    SplitJoin(t, ':');
  }

  /** Distinct steps share a signature only when they depend on each other. */
  lemma SharedSignatureMutual(a: string, da: seq<string>, b: string, db: seq<string>)
    requires Plain(a) && Plain(b) && (forall x :: x in da ==> Plain(x)) && (forall x :: x in db ==> Plain(x))
    requires a != b && CycleID(a, da) == CycleID(b, db)
    ensures a in db && b in da
  {
    SignatureIff(a, da, b, db);
    assert a in multiset([a] + da) && b in multiset([b] + db);
    assert a in multiset([b] + db) && b in multiset([a] + da);
    assert a in [b] + db && b in [a] + da;
  }

  /** Colons in ids let unrelated steps share a signature. */
  lemma ColonsCollide()
    ensures CycleID("a:b", ["c"]) == CycleID("a", ["b:c"])
  {
    assert ["a:b"] + ["c"] == ["a:b", "c"] && ["a"] + ["b:c"] == ["a", "b:c"];
    assert ["a:b", "c"][1..] == ["c"] && ["a", "b:c"][1..] == ["b:c"] && ["c"][1..] == [] && ["b:c"][1..] == [];
    assert Leq("a:b", "c") && Leq("a", "b:c");
    assert Sort(["c"]) == ["c"] && Sort(["b:c"]) == ["b:c"];
    assert Sort(["a:b", "c"]) == ["a:b", "c"] && Sort(["a", "b:c"]) == ["a", "b:c"];
    assert Join(["a:b", "c"], ':') == "a:b" + ":" + "c" == "a:b:c";
    assert Join(["a", "b:c"], ':') == "a" + ":" + "b:c" == "a:b:c";
  }

  // ----- counters and fuse

  datatype Status = Pending | Suspended | Other(name: string)
  datatype Step = Step(status: Status, dependsOn: seq<string>, maxLoopRounds: int)
  datatype Verdict = NotApplicable | Backtracked | Fused

  function Counter(counters: map<string, int>, sig: string): (n: int) {
    if sig in counters then counters[sig] else 0
  }

  function Decide(counters: map<string, int>, id: string, step: Step, missing: bool): (v: Verdict) {
    if !missing || step.dependsOn == [] || step.maxLoopRounds == 0 then NotApplicable
    else if Counter(counters, CycleID(id, step.dependsOn)) + 1 <= step.maxLoopRounds then Backtracked
    else Fused
  }

  function NextCounters(counters: map<string, int>, id: string, step: Step, missing: bool): (r: map<string, int>) {
    var sig := CycleID(id, step.dependsOn);
    match Decide(counters, id, step, missing)
    case NotApplicable => counters
    case Backtracked => counters[sig := Counter(counters, sig) + 1]
    case Fused => counters - {sig}
  }

  class Graph {
    var steps: map<string, Step>
    var counters: map<string, int>

    /** Under the limit the step and its dependencies go back to pending; at the limit they
        are suspended and the counter is dropped. Other steps keep their status. */
    method TryBacktrack(id: string, missing: bool) returns (handled: bool)
      requires id in steps
      modifies this
      ensures handled == !Decide(old(counters), id, old(steps)[id], missing).NotApplicable?
      ensures counters == NextCounters(old(counters), id, old(steps)[id], missing)
      ensures steps.Keys == old(steps).Keys
      ensures forall x :: x in steps ==>
        steps[x] == if handled && (x == id || x in old(steps)[id].dependsOn)
                    then old(steps)[x].(status := if Decide(old(counters), id, old(steps)[id], missing).Backtracked? then Pending else Suspended)
                    else old(steps)[x]
    {
      var step := steps[id];
      if !missing || |step.dependsOn| == 0 || step.maxLoopRounds == 0 {
        return false;
      }
      var sig := CycleID(id, step.dependsOn);
      counters := counters[sig := Counter(counters, sig) + 1];
      var currentRound := counters[sig];
      if currentRound <= step.maxLoopRounds {
        SetStatus(step.dependsOn, Pending);
        steps := steps[id := steps[id].(status := Pending)];
        return true;
      }
      SetStatus(step.dependsOn, Suspended);
      steps := steps[id := steps[id].(status := Suspended)];
      counters := counters - {sig};
      assert counters == old(counters) - {sig};
      return true;
    }

    /** The loop over the dependencies that are in the graph. */
    method SetStatus(deps: seq<string>, status: Status)
      modifies this`steps
      ensures steps.Keys == old(steps).Keys
      ensures forall x :: x in steps ==> steps[x] == if x in deps then old(steps)[x].(status := status) else old(steps)[x]
    {
      for i := 0 to |deps|
        invariant steps.Keys == old(steps).Keys
        invariant forall x :: x in steps ==> steps[x] == if x in deps[..i] then old(steps)[x].(status := status) else old(steps)[x]
      {
        if deps[i] in steps {
          steps := steps[deps[i] := steps[deps[i]].(status := status)];
        }
      }
    }
  }

  // ----- runs

  type Steps = map<string, Step>

  /** Counters together with, per step, its backtracks since its own last fuse. */
  datatype Tally = Tally(counters: map<string, int>, rounds: map<string, int>)

  function Report(steps: Steps, t: Tally, id: string): (r: Tally)
    requires id in steps
  {
    var v := Decide(t.counters, id, steps[id], true);
    Tally(NextCounters(t.counters, id, steps[id], true),
          if v.Backtracked? then t.rounds[id := Counter(t.rounds, id) + 1] else if v.Fused? then t.rounds[id := 0] else t.rounds)
  }

  function Reported(steps: Steps, t: Tally, run: seq<string>): (r: Tally)
    requires forall id :: id in run ==> id in steps
    decreases |run|
  {
    if run == [] then t else Report(steps, Reported(steps, t, run[..|run| - 1]), run[|run| - 1])
  }

  ghost predicate Eligible(steps: Steps, id: string) {
    id in steps && steps[id].dependsOn != [] && steps[id].maxLoopRounds != 0
  }

  function Limit(step: Step): (n: nat) {
    if step.maxLoopRounds > 0 then step.maxLoopRounds else 0
  }

  function Sig(steps: Steps, id: string): (sig: string)
    requires id in steps
  {
    CycleID(id, steps[id].dependsOn)
  }

  /** No eligible step with a positive limit shares its signature with another eligible step. */
  ghost predicate NoClash(steps: Steps) {
    forall a, b :: Eligible(steps, a) && Eligible(steps, b) && a != b && steps[a].maxLoopRounds > 0 ==> Sig(steps, a) != Sig(steps, b)
  }

  const NO_TALLY := Tally(map[], map[])

  ghost predicate OfSteps(steps: Steps, run: seq<string>) {
    forall id :: id in run ==> id in steps
  }

  ghost predicate WithinLimits(steps: Steps, t: Tally) {
    forall id :: id in steps ==> Counter(t.rounds, id) <= Limit(steps[id])
  }

  /** Over every run each step is backtracked at most its limit between two of its fuses. */
  ghost predicate KeepsLimits(steps: Steps) {
    forall run :: OfSteps(steps, run) ==> WithinLimits(steps, Reported(steps, NO_TALLY, run))
  }

  ghost predicate OwnCounter(steps: Steps, t: Tally, id: string)
    requires id in steps
  {
    if Eligible(steps, id) && steps[id].maxLoopRounds > 0
    then Counter(t.counters, Sig(steps, id)) == Counter(t.rounds, id) <= Limit(steps[id])
    else Counter(t.rounds, id) == 0
  }

  ghost predicate NonNegative(counters: map<string, int>) {
    forall sig :: sig in counters ==> counters[sig] >= 0
  }

  /** Each retried step's counter is its own tally, and is within its limit. */
  ghost predicate OwnCounters(steps: Steps, t: Tally) {
    && NonNegative(t.counters)
    && forall id :: id in steps ==> OwnCounter(steps, t, id)
  }

  lemma ReportKeeps(steps: Steps, t: Tally, id: string)
    requires NoClash(steps) && OwnCounters(steps, t) && id in steps
    ensures OwnCounters(steps, Report(steps, t, id))
  {
    var r := Report(steps, t, id);
    assert OwnCounter(steps, t, id);
    forall x | x in steps ensures OwnCounter(steps, r, x) {
      assert OwnCounter(steps, t, x);
      if x != id && Eligible(steps, x) && steps[x].maxLoopRounds > 0 && Eligible(steps, id) {
        assert Sig(steps, x) != Sig(steps, id);
      }
    }
  }

  lemma {:induction false} RoundsBounded(steps: Steps, run: seq<string>)
    requires NoClash(steps) && OfSteps(steps, run)
    ensures OwnCounters(steps, Reported(steps, NO_TALLY, run))
    decreases |run|
  {
    if run != [] {
      var n := |run| - 1;
      RoundsBounded(steps, run[..n]);
      ReportKeeps(steps, Reported(steps, NO_TALLY, run[..n]), run[n]);
    }
  }

  /** Without a clash, after every run: reporting an eligible step with a positive limit fuses if
      and only if its backtracks since its own last fuse have reached the limit, and backtracks it
      otherwise. */
  lemma FusesIff(steps: Steps, run: seq<string>, id: string)
    requires NoClash(steps) && OfSteps(steps, run) && Eligible(steps, id) && steps[id].maxLoopRounds > 0
    ensures var t := Reported(steps, NO_TALLY, run);
      && (Decide(t.counters, id, steps[id], true).Fused? <==> Counter(t.rounds, id) == steps[id].maxLoopRounds)
      && (Decide(t.counters, id, steps[id], true).Backtracked? <==> Counter(t.rounds, id) < steps[id].maxLoopRounds)
  {
    RoundsBounded(steps, run);
    assert OwnCounter(steps, Reported(steps, NO_TALLY, run), id);
  }

  /** On every graph, after every run: nothing happens without missing context, without
      dependencies or with limit zero, and a negative limit fuses at once. */
  lemma OtherReports(steps: Steps, run: seq<string>, id: string, missing: bool)
    requires OfSteps(steps, run) && id in steps
    ensures var t := Reported(steps, NO_TALLY, run);
      && (Decide(t.counters, id, steps[id], missing).NotApplicable? <==> !missing || !Eligible(steps, id))
      && (missing && Eligible(steps, id) && steps[id].maxLoopRounds < 0 ==> Decide(t.counters, id, steps[id], missing).Fused?)
  {
    CountersNonNegative(steps, run);
  }

  lemma {:induction false} CountersNonNegative(steps: Steps, run: seq<string>)
    requires OfSteps(steps, run)
    ensures NonNegative(Reported(steps, NO_TALLY, run).counters)
    decreases |run|
  {
    if run != [] { CountersNonNegative(steps, run[..|run| - 1]); }
  }

  /** How often a step is reported. */
  function Times(run: seq<string>, id: string): (n: nat) {
    multiset(run)[id]
  }

  /** Without a clash, in a run where a step is reported no more often than its limit, whatever
      is reported in between, each of those reports backtracks it; the next one fuses it. */
  lemma {:induction false} ExactlyTheLimit(steps: Steps, run: seq<string>, id: string)
    requires NoClash(steps) && OfSteps(steps, run) && Eligible(steps, id)
    requires Times(run, id) <= steps[id].maxLoopRounds
    ensures Counter(Reported(steps, NO_TALLY, run).rounds, id) == Times(run, id)
    ensures steps[id].maxLoopRounds > 0 ==>
      var v := Decide(Reported(steps, NO_TALLY, run).counters, id, steps[id], true);
      v == if Times(run, id) < steps[id].maxLoopRounds then Backtracked else Fused
    decreases |run|
  {
    if run != [] {
      var n := |run| - 1;
      assert run == run[..n] + [run[n]];
      ExactlyTheLimit(steps, run[..n], id);
    }
    if steps[id].maxLoopRounds > 0 { FusesIff(steps, run, id); }
  }

  /** Ids free of colons, with no two steps that depend on each other, never clash. */
  lemma WellNamedNoClash(steps: Steps)
    requires forall id :: id in steps ==> Plain(id) && forall d :: d in steps[id].dependsOn ==> Plain(d)
    requires forall a, b :: a in steps && b in steps && a in steps[b].dependsOn ==> b !in steps[a].dependsOn
    ensures NoClash(steps)
  {
    forall a, b | Eligible(steps, a) && Eligible(steps, b) && a != b ensures Sig(steps, a) != Sig(steps, b) {
      if Sig(steps, a) == Sig(steps, b) {
        SharedSignatureMutual(a, steps[a].dependsOn, b, steps[b].dependsOn);
      }
    }
  }

  // ----- a shared counter is retried without end

  lemma ReportedSnoc(steps: Steps, t: Tally, run: seq<string>, id: string)
    requires id in steps && OfSteps(steps, run)
    ensures Reported(steps, t, run + [id]) == Report(steps, Reported(steps, t, run), id)
  {
    assert (run + [id])[..|run|] == run;
  }

  /** Reporting the other step until its fuse clears the shared counter. */
  lemma {:induction false} Cleared(steps: Steps, a: string, b: string, run: seq<string>) returns (more: seq<string>)
    requires Eligible(steps, a) && Eligible(steps, b) && a != b && Sig(steps, a) == Sig(steps, b) && OfSteps(steps, run)
    ensures OfSteps(steps, more)
    ensures var t, r := Reported(steps, NO_TALLY, run), Reported(steps, NO_TALLY, more);
      Counter(r.counters, Sig(steps, a)) == 0 && Counter(r.rounds, a) == Counter(t.rounds, a)
    decreases steps[b].maxLoopRounds - Counter(Reported(steps, NO_TALLY, run).counters, Sig(steps, b))
  {
    var t := Reported(steps, NO_TALLY, run);
    ReportedSnoc(steps, NO_TALLY, run, b);
    if Decide(t.counters, b, steps[b], true).Fused? {
      more := run + [b];
    } else {
      more := Cleared(steps, a, b, run + [b]);
    }
  }

  /** A step whose counter another step's fuse clears is backtracked any number of times
      without a fuse of its own. */
  lemma {:induction false} MixedCounters(steps: Steps, a: string, b: string, k: nat) returns (run: seq<string>)
    requires Eligible(steps, a) && Eligible(steps, b) && a != b && Sig(steps, a) == Sig(steps, b) && steps[a].maxLoopRounds > 0
    ensures OfSteps(steps, run)
    ensures var t := Reported(steps, NO_TALLY, run); Counter(t.counters, Sig(steps, a)) == 0 && Counter(t.rounds, a) == k
  {
    if k == 0 {
      run := [];
    } else {
      var before := MixedCounters(steps, a, b, k - 1);
      ReportedSnoc(steps, NO_TALLY, before, a);
      run := Cleared(steps, a, b, before + [a]);
    }
  }

  /** Every run keeps every step's backtracks within its limit if and only if no eligible step
      with a positive limit shares its signature with another eligible step. */
  lemma LimitsKeptIff(steps: Steps)
    ensures KeepsLimits(steps) <==> NoClash(steps)
  {
    if NoClash(steps) {
      forall run | OfSteps(steps, run) ensures WithinLimits(steps, Reported(steps, NO_TALLY, run)) {
        RoundsBounded(steps, run);
        forall id | id in steps ensures Counter(Reported(steps, NO_TALLY, run).rounds, id) <= Limit(steps[id]) {
          assert OwnCounter(steps, Reported(steps, NO_TALLY, run), id);
        }
      }
    } else {
      var a, b :| Eligible(steps, a) && Eligible(steps, b) && a != b && steps[a].maxLoopRounds > 0 && Sig(steps, a) == Sig(steps, b);
      var run := MixedCounters(steps, a, b, Limit(steps[a]) + 1);
      assert !WithinLimits(steps, Reported(steps, NO_TALLY, run));
    }
  }

  /** The two unrelated steps of `ColonsCollide` in one graph. */
  lemma CollidingSteps()
    ensures var steps: Steps := map["a:b" := Step(Pending, ["c"], 2), "a" := Step(Pending, ["b:c"], 1)]; !KeepsLimits(steps)
  {
    var steps: Steps := map["a:b" := Step(Pending, ["c"], 2), "a" := Step(Pending, ["b:c"], 1)];
    ColonsCollide();
    assert Eligible(steps, "a:b") && Eligible(steps, "a") && "a:b" != "a" && Sig(steps, "a:b") == Sig(steps, "a");
    LimitsKeptIff(steps);
  }

  // ----- runs without a fuse end, on every graph

  function Backtracks(steps: Steps, t: Tally, run: seq<string>): (n: nat)
    requires forall id :: id in run ==> id in steps
    decreases |run|
  {
    if run == [] then 0
    else
      var n := |run| - 1;
      Backtracks(steps, t, run[..n]) + (if Decide(Reported(steps, t, run[..n]).counters, run[n], steps[run[n]], true).Backtracked? then 1 else 0)
  }

  ghost predicate NeverFuses(steps: Steps, t: Tally, run: seq<string>)
    requires forall id :: id in run ==> id in steps
  {
    forall k :: 0 <= k < |run| ==> !Decide(Reported(steps, t, run[..k]).counters, run[k], steps[run[k]], true).Fused?
  }

  /** Sums over a list of step ids. */
  function Used(ids: seq<string>, rounds: map<string, int>): (n: int) {
    if ids == [] then 0 else Used(ids[..|ids| - 1], rounds) + Counter(rounds, ids[|ids| - 1])
  }

  function Budget(steps: Steps, ids: seq<string>): (n: nat)
    requires forall id :: id in ids ==> id in steps
  {
    if ids == [] then 0 else Budget(steps, ids[..|ids| - 1]) + Limit(steps[ids[|ids| - 1]])
  }

  ghost predicate Unique(ids: seq<string>) {
    forall i, j :: 0 <= i < j < |ids| ==> ids[i] != ids[j]
  }

  lemma {:induction false} UsedSet(ids: seq<string>, shares: map<string, int>, id: string, n: int)
    requires Unique(ids)
    ensures Used(ids, shares[id := n]) == Used(ids, shares) + (if id in ids then n - Counter(shares, id) else 0)
    decreases |ids|
  {
    if ids != [] {
      var k := |ids| - 1;
      UsedSet(ids[..k], shares, id, n);
      assert ids == ids[..k] + [ids[k]];
    }
  }

  type Owners = map<string, string>

  /** The count of a signature is booked on one step with that signature. */
  ghost predicate OwnerOk(steps: Steps, ids: seq<string>, counters: map<string, int>, owner: Owners, shares: map<string, int>, sig: string) {
    if sig in owner
    then owner[sig] in ids && owner[sig] in steps && Sig(steps, owner[sig]) == sig && Counter(shares, owner[sig]) == Counter(counters, sig)
    else Counter(counters, sig) == 0
  }

  /** A step carries a booking within its limit, and only as owner of its signature. */
  ghost predicate ShareOk(steps: Steps, owner: Owners, shares: map<string, int>, id: string)
    requires id in steps
  {
    && Counter(shares, id) <= Limit(steps[id])
    && (Counter(shares, id) != 0 ==> Sig(steps, id) in owner && owner[Sig(steps, id)] == id)
  }

  ghost predicate Booked(steps: Steps, ids: seq<string>, counters: map<string, int>, owner: Owners, shares: map<string, int>) {
    && (forall sig :: OwnerOk(steps, ids, counters, owner, shares, sig))
    && (forall id :: id in steps ==> ShareOk(steps, owner, shares, id))
  }

  lemma {:induction false} UsedWithin(steps: Steps, shares: map<string, int>, ids: seq<string>)
    requires forall id :: id in ids ==> id in steps && Counter(shares, id) <= Limit(steps[id])
    ensures Used(ids, shares) <= Budget(steps, ids)
    decreases |ids|
  {
    if ids != [] {
      UsedWithin(steps, shares, ids[..|ids| - 1]);
      assert ids[|ids| - 1] in ids;
    }
  }

  /** The bookings after a backtrack of `id`: it takes over its signature, one higher. */
  function Rebooked(shares: map<string, int>, owner: Owners, sig: string, id: string, n: int): (r: map<string, int>) {
    (if sig in owner then shares[owner[sig] := 0] else shares)[id := n]
  }

  lemma RebookedUsed(steps: Steps, ids: seq<string>, counters: map<string, int>, owner: Owners, shares: map<string, int>, id: string)
    requires id in ids && id in steps && Unique(ids) && Booked(steps, ids, counters, owner, shares)
    ensures var sig := Sig(steps, id);
      Used(ids, Rebooked(shares, owner, sig, id, Counter(counters, sig) + 1)) == Used(ids, shares) + 1
  {
    var sig := Sig(steps, id);
    var n := Counter(counters, sig) + 1;
    assert OwnerOk(steps, ids, counters, owner, shares, sig) && ShareOk(steps, owner, shares, id);
    if sig in owner {
      UsedSet(ids, shares, owner[sig], 0);
      UsedSet(ids, shares[owner[sig] := 0], id, n);
    } else {
      UsedSet(ids, shares, id, n);
    }
  }

  lemma Book(steps: Steps, ids: seq<string>, counters: map<string, int>, owner: Owners, shares: map<string, int>, id: string)
    requires id in ids && id in steps && Booked(steps, ids, counters, owner, shares)
    requires Decide(counters, id, steps[id], true).Backtracked?
    ensures var sig := Sig(steps, id);
      Booked(steps, ids, NextCounters(counters, id, steps[id], true), owner[sig := id], Rebooked(shares, owner, sig, id, Counter(counters, sig) + 1))
  {
    var mine := Sig(steps, id);
    var n := Counter(counters, mine) + 1;
    var counters' := counters[mine := n];
    var owner', shares' := owner[mine := id], Rebooked(shares, owner, mine, id, n);
    assert OwnerOk(steps, ids, counters, owner, shares, mine);
    forall sig ensures OwnerOk(steps, ids, counters', owner', shares', sig) {
      assert OwnerOk(steps, ids, counters, owner, shares, sig);
    }
    forall x | x in steps ensures ShareOk(steps, owner', shares', x) {
      assert ShareOk(steps, owner, shares, x);
    }
  }

  lemma NeverFusesPrefix(steps: Steps, t: Tally, run: seq<string>)
    requires run != [] && OfSteps(steps, run) && NeverFuses(steps, t, run)
    ensures NeverFuses(steps, t, run[..|run| - 1])
    ensures !Decide(Reported(steps, t, run[..|run| - 1]).counters, run[|run| - 1], steps[run[|run| - 1]], true).Fused?
  {
    var n := |run| - 1;
    forall k | 0 <= k < n ensures !Decide(Reported(steps, t, run[..n][..k]).counters, run[..n][k], steps[run[..n][k]], true).Fused? {
      assert run[..n][..k] == run[..k];
      assert !Decide(Reported(steps, t, run[..k]).counters, run[k], steps[run[k]], true).Fused?;
    }
  }

  lemma BookNext(steps: Steps, ids: seq<string>, counters: map<string, int>, owner: Owners, shares: map<string, int>, id: string)
    returns (owner': Owners, shares': map<string, int>)
    requires id in ids && id in steps && Unique(ids) && Booked(steps, ids, counters, owner, shares)
    requires !Decide(counters, id, steps[id], true).Fused?
    ensures Booked(steps, ids, NextCounters(counters, id, steps[id], true), owner', shares')
    ensures Used(ids, shares') == Used(ids, shares) + (if Decide(counters, id, steps[id], true).Backtracked? then 1 else 0)
  {
    owner', shares' := owner, shares;
    if Decide(counters, id, steps[id], true).Backtracked? {
      Book(steps, ids, counters, owner, shares, id);
      RebookedUsed(steps, ids, counters, owner, shares, id);
      var sig := Sig(steps, id);
      owner', shares' := owner[sig := id], Rebooked(shares, owner, sig, id, Counter(counters, sig) + 1);
    }
  }

  lemma BookedEmpty(steps: Steps, ids: seq<string>)
    ensures Booked(steps, ids, map[], map[], map[]) && Used(ids, map[]) == 0
  {
    UsedEmpty(ids);
  }

  lemma {:induction false} BacktracksBooked(steps: Steps, run: seq<string>, ids: seq<string>) returns (owner: Owners, shares: map<string, int>)
    requires Unique(ids) && OfSteps(steps, run) && (forall id :: id in run ==> id in ids) && NeverFuses(steps, NO_TALLY, run)
    ensures Booked(steps, ids, Reported(steps, NO_TALLY, run).counters, owner, shares)
    ensures Backtracks(steps, NO_TALLY, run) == Used(ids, shares)
    decreases |run|
  {
    if run == [] {
      owner, shares := map[], map[];
      BookedEmpty(steps, ids);
    } else {
      var n := |run| - 1;
      NeverFusesPrefix(steps, NO_TALLY, run);
      owner, shares := BacktracksBooked(steps, run[..n], ids);
      owner, shares := BookNext(steps, ids, Reported(steps, NO_TALLY, run[..n]).counters, owner, shares, run[n]);
    }
  }

  lemma {:induction false} UsedEmpty(ids: seq<string>)
    ensures Used(ids, map[]) == 0
    decreases |ids|
  {
    if ids != [] { UsedEmpty(ids[..|ids| - 1]); }
  }

  /** On every graph, clashes included, a run without a fuse backtracks at most as often as
      the limits of all steps together. */
  lemma BacktracksBounded(steps: Steps, run: seq<string>, ids: seq<string>)
    requires Unique(ids) && OfSteps(steps, run) && OfSteps(steps, ids) && forall id :: id in run ==> id in ids
    requires NeverFuses(steps, NO_TALLY, run)
    ensures Backtracks(steps, NO_TALLY, run) <= Budget(steps, ids)
  {
    var owner, shares := BacktracksBooked(steps, run, ids);
    forall id | id in ids ensures Counter(shares, id) <= Limit(steps[id]) { assert ShareOk(steps, owner, shares, id); }
    UsedWithin(steps, shares, ids);
  }
}
