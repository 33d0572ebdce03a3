/** Kruskal's greedy selection as a function of the edge order (core/forest_optimizer.go:172-193):
    acyclic, spanning, heaviest exactly when it is, and which edges survive every order of ties. */
module Forests {
  import opened Graphs
  import opened Seqs
  import opened Sorting

  // ----- greedy selection as a function of the processing order

  /** The total weight of the first `n` edges. */
  function WeightTo(es: seq<WeightedEdge>, n: nat): (w: real)
    requires n <= |es|
  {
    if n == 0 then 0.0 else WeightTo(es, n - 1) + es[n - 1].weight
  }

  function Weight(es: seq<WeightedEdge>): (w: real) {
    WeightTo(es, |es|)
  }

  /** Scan the edges in order, keeping each one whose ends are not yet connected. */
  ghost function Greedy(es: seq<WeightedEdge>): (f: seq<WeightedEdge>) {
    if es == [] then []
    else
      var n := |es| - 1;
      var f := Greedy(es[..n]);
      if Connected(f, es[n].from, es[n].to) then f else f + [es[n]]
  }

  ghost predicate Descending(es: seq<WeightedEdge>) {
    forall i, j :: 0 <= i < j < |es| ==> es[i].weight >= es[j].weight
  }

  /** `a` picks some of the edges of `es`, each at most as often as it occurs. */
  ghost predicate Picks(a: seq<WeightedEdge>, es: seq<WeightedEdge>) {
    multiset(a) <= multiset(es)
  }

  ghost function Ends(es: seq<WeightedEdge>): (s: set<string>)
    ensures Within(es, s)
  {
    (set e | e in es :: e.from) + (set e | e in es :: e.to)
  }

  lemma PicksMembers(a: seq<WeightedEdge>, es: seq<WeightedEdge>)
    requires Picks(a, es)
    ensures forall e :: e in a ==> e in es
  {
    forall e | e in a ensures e in es { assert e in multiset(a); assert e in multiset(es); }
  }

  lemma {:induction false} GreedyPicks(es: seq<WeightedEdge>)
    ensures Picks(Greedy(es), es)
    decreases |es|
  {
    if es != [] {
      var n := |es| - 1;
      GreedyPicks(es[..n]);
      assert es == es[..n] + [es[n]];
    }
  }

  lemma GreedyMembers(es: seq<WeightedEdge>)
    ensures forall e :: e in Greedy(es) ==> e in es
  {
    GreedyPicks(es);
    PicksMembers(Greedy(es), es);
  }

  /** The greedy forest connects exactly what all edges connect. */
  lemma {:induction false} GreedySpans(es: seq<WeightedEdge>, a: string, b: string)
    ensures Connected(Greedy(es), a, b) <==> Connected(es, a, b)
  {
    GreedyMembers(es);
    if Connected(Greedy(es), a, b) { Mono(Greedy(es), es, a, b); }
    if Connected(es, a, b) {
      forall e | e in es ensures Connected(Greedy(es), e.from, e.to) { GreedyKeepsEdge(es, e); }
      RefineAll(es, Greedy(es), a, b);
    }
  }

  lemma {:induction false} GreedyKeepsEdge(es: seq<WeightedEdge>, e: WeightedEdge)
    requires e in es
    ensures Connected(Greedy(es), e.from, e.to)
    decreases |es|
  {
    var n := |es| - 1;
    var f := Greedy(es[..n]);
    if e in es[..n] {
      GreedyKeepsEdge(es[..n], e);
      Mono(f, Greedy(es), e.from, e.to);
    } else if !Connected(f, e.from, e.to) {
      EdgeConnects(Greedy(es), e);
    }
  }

  lemma {:induction false} GreedyAcyclic(es: seq<WeightedEdge>)
    ensures Acyclic(Greedy(es))
    decreases |es|
  {
    if es != [] {
      var n := |es| - 1;
      var f := Greedy(es[..n]);
      GreedyAcyclic(es[..n]);
      if !Connected(f, es[n].from, es[n].to) {
        var g := f + [es[n]];
        var nodes := Ends(g);
        assert g[..|g| - 1] == f;
        AcyclicCount(nodes, f);
        LastEdgeCount(nodes, g);
        CountAcyclic(nodes, g);
      }
    }
  }

  // ----- optimality

  lemma {:induction false} WeightConcatTo(a: seq<WeightedEdge>, b: seq<WeightedEdge>, n: nat)
    requires n <= |a| + |b|
    ensures WeightTo(a + b, n) == if n <= |a| then WeightTo(a, n) else WeightTo(a, |a|) + WeightTo(b, n - |a|)
  {
    if n > 0 { WeightConcatTo(a, b, n - 1); }
  }

  lemma WeightConcat(a: seq<WeightedEdge>, b: seq<WeightedEdge>)
    ensures Weight(a + b) == Weight(a) + Weight(b)
  {
    WeightConcatTo(a, b, |a| + |b|);
  }

  lemma WeightSnoc(a: seq<WeightedEdge>, e: WeightedEdge)
    ensures Weight(a + [e]) == Weight(a) + e.weight
  {
    WeightConcat(a, [e]);
    assert WeightTo([e], 1) == WeightTo([e], 0) + e.weight;
  }

  lemma WeightParts(l: seq<WeightedEdge>, e: WeightedEdge, r: seq<WeightedEdge>)
    ensures Weight(l + [e] + r) == Weight(l + r) + e.weight
  {
    WeightConcat(l, r);
    WeightSnoc(l, e);
    WeightConcat(l + [e], r);
  }

  lemma WeightWithout(a: seq<WeightedEdge>, i: nat)
    requires i < |a|
    ensures Weight(a) == Weight(Without(a, i)) + a[i].weight
  {
    WeightParts(a[..i], a[i], a[i + 1..]);
    assert a == a[..i] + [a[i]] + a[i + 1..];
  }

  lemma PicksWithout(a: seq<WeightedEdge>, i: nat, fs: seq<WeightedEdge>)
    requires i < |a| && Picks(a, fs + [a[i]])
    ensures Picks(Without(a, i), fs)
  {
    var l, e, r := a[..i], a[i], a[i + 1..];
    assert a == l + [e] + r;
    forall x ensures multiset(l + r)[x] <= multiset(fs)[x] {
      assert multiset(a)[x] == multiset(l + r)[x] + multiset{e}[x];
      assert multiset(fs + [e])[x] == multiset(fs)[x] + multiset{e}[x];
      assert multiset(a)[x] <= multiset(fs + [e])[x];
    }
  }

  lemma AcyclicWithout(a: seq<WeightedEdge>, i: nat)
    requires Acyclic(a) && i < |a|
    ensures Acyclic(Without(a, i))
  {
    var b := Without(a, i);
    var nodes := Ends(a);
    PickedWithin(b, a, nodes);
    AcyclicCount(nodes, a);
    ClassesLower(nodes, b);
    var c := b + [a[i]];
    assert c[..|c| - 1] == b;
    LastEdgeCount(nodes, c);
    forall e | e in c ensures Connected(a, e.from, e.to) { EdgeConnects(a, e); }
    forall e | e in a ensures Connected(c, e.from, e.to) { WithoutOnly(a, i, e); EdgeConnects(c, e); }
    ConnectedCount(nodes, a, c);
    ConnectedCount(nodes, c, a);
    assert !Connected(b, a[i].from, a[i].to);
    CountAcyclic(nodes, b);
  }

  lemma PickedWithin(b: seq<WeightedEdge>, a: seq<WeightedEdge>, nodes: set<string>)
    requires Within(a, nodes) && forall e :: e in b ==> e in a
    ensures Within(b, nodes)
  {
  }

  /** No acyclic pick has more edges than the greedy forest. */
  lemma GreedyLargest(es: seq<WeightedEdge>, a: seq<WeightedEdge>)
    requires Picks(a, es) && Acyclic(a)
    ensures |a| <= |Greedy(es)|
  {
    var nodes := Ends(es);
    PicksMembers(a, es);
    GreedyMembers(es);
    forall e | e in a ensures Connected(Greedy(es), e.from, e.to) { GreedyKeepsEdge(es, e); }
    GreedyAcyclic(es);
    RankLemma(nodes, a, Greedy(es));
  }

  /** The exchange-free core of Kruskal: over edges sorted by descending weight the
      greedy forest leads every acyclic pick by at least the lightest weight per
      missing edge. */
  lemma {:induction false} GreedyLeads(es: seq<WeightedEdge>, a: seq<WeightedEdge>, low: real)
    requires Descending(es) && Picks(a, es) && Acyclic(a)
    requires forall e :: e in es ==> low <= e.weight
    ensures Leads(Greedy(es), a, low)
    decreases |es|
  {
    if es == [] {
      PicksMembers(a, es);
      assert a == [];
    } else {
      var n := |es| - 1;
      var e, fs := es[n], es[..n];
      assert es == fs + [e];
      var b := Dropped(a, e, fs);
      GreedyLeads(fs, b, e.weight);
      GreedyLargest(es, a);
      GreedyDiffer(fs, e);
      LeadStep(Greedy(fs), Greedy(es), e, a, b, low);
    }
  }

  /** Removes `e` once from a pick, if it is there. */
  lemma Dropped(a: seq<WeightedEdge>, e: WeightedEdge, fs: seq<WeightedEdge>) returns (b: seq<WeightedEdge>)
    requires Picks(a, fs + [e]) && Acyclic(a)
    ensures Picks(b, fs) && Acyclic(b)
    ensures Differ(a, b, e)
  {
    b := a;
    if e in a {
      var i :| 0 <= i < |a| && a[i] == e;
      b := Without(a, i);
      WeightWithout(a, i);
      AcyclicWithout(a, i);
      PicksWithout(a, i, fs);
    } else {
      PicksFewer(a, fs, e);
    }
  }

  /** `a` weighs as much as `b`, or has one edge more, of the weight of `e`. */
  ghost predicate Differ(a: seq<WeightedEdge>, b: seq<WeightedEdge>, e: WeightedEdge) {
    (|a| == |b| && Weight(a) == Weight(b)) || (|a| == |b| + 1 && Weight(a) == Weight(b) + e.weight)
  }

  lemma GreedyDiffer(fs: seq<WeightedEdge>, e: WeightedEdge)
    ensures Differ(Greedy(fs + [e]), Greedy(fs), e)
  {
    assert (fs + [e])[..|fs|] == fs;
    WeightSnoc(Greedy(fs), e);
  }

  /** `w` taken `n` times. */
  ghost function Scaled(w: real, n: nat): (r: real) {
    if n == 0 then 0.0 else Scaled(w, n - 1) + w
  }

  lemma {:induction false} ScaledMono(low: real, w: real, n: nat)
    requires low <= w
    ensures Scaled(low, n) <= Scaled(w, n)
  {
    if n > 0 { ScaledMono(low, w, n - 1); }
  }

  ghost predicate Leads(f: seq<WeightedEdge>, a: seq<WeightedEdge>, w: real) {
    |a| <= |f| && Weight(f) - Weight(a) >= Scaled(w, |f| - |a|)
  }

  lemma LeadStep(f: seq<WeightedEdge>, g: seq<WeightedEdge>, e: WeightedEdge, a: seq<WeightedEdge>, b: seq<WeightedEdge>, low: real)
    requires Differ(a, b, e) && Differ(g, f, e) && low <= e.weight
    requires |a| <= |g| && Leads(f, b, e.weight)
    ensures Leads(g, a, low)
  {
    ScaledMono(low, e.weight, |g| - |a|);
  }

  lemma PicksFewer(a: seq<WeightedEdge>, fs: seq<WeightedEdge>, e: WeightedEdge)
    requires Picks(a, fs + [e]) && e !in a
    ensures Picks(a, fs)
  {
    forall x ensures multiset(a)[x] <= multiset(fs)[x] {
      if x == e { assert x !in multiset(a); }
    }
  }

  // ----- when the greedy forest is the heaviest of all

  ghost predicate Heaviest(f: seq<WeightedEdge>, es: seq<WeightedEdge>) {
    forall a :: Picks(a, es) && Acyclic(a) ==> Weight(a) <= Weight(f)
  }

  function NonNegative(es: seq<WeightedEdge>): (r: seq<WeightedEdge>) {
    Filter(es, (e: WeightedEdge) => e.weight >= 0.0)
  }

  /** Every edge of negative weight has its ends connected without such edges. */
  ghost predicate NegativeRedundant(es: seq<WeightedEdge>) {
    forall e :: e in es && e.weight < 0.0 ==> Connected(NonNegative(es), e.from, e.to)
  }

  /** Among acyclic picks of the same size nothing outweighs the greedy forest,
      whatever the signs of the weights. */
  lemma GreedyHeaviestOfSize(es: seq<WeightedEdge>, a: seq<WeightedEdge>)
    requires Descending(es) && Picks(a, es) && Acyclic(a) && |a| == |Greedy(es)|
    ensures Weight(a) <= Weight(Greedy(es))
  {
    var low := if es == [] then 0.0 else es[|es| - 1].weight;
    GreedyLeads(es, a, low);
  }

  lemma {:induction false} NonNegativePrefix(es: seq<WeightedEdge>) returns (k: nat)
    requires Descending(es)
    ensures k <= |es| && NonNegative(es) == es[..k]
    ensures forall i :: 0 <= i < |es| ==> (es[i].weight >= 0.0 <==> i < k)
    decreases |es|
  {
    if es == [] {
      k := 0;
    } else {
      var n := |es| - 1;
      k := NonNegativePrefix(es[..n]);
      assert forall i :: 0 <= i < n ==> es[..n][i] == es[i];
      if es[n].weight >= 0.0 {
        assert forall i :: 0 <= i < n ==> es[i].weight >= 0.0;
        k := |es|;
        assert es[..k] == es[..n] + [es[n]];
      } else {
        assert es[..n][..k] == es[..k];
      }
    }
  }

  /** Past the point where weights turn negative, greedy only loses weight. */
  lemma {:induction false} NegativeTail(es: seq<WeightedEdge>, k: nat)
    requires k <= |es| && forall i :: k <= i < |es| ==> es[i].weight < 0.0
    ensures Greedy(es) == Greedy(es[..k]) || Weight(Greedy(es)) < Weight(Greedy(es[..k]))
    decreases |es|
  {
    if k == |es| {
      assert es[..k] == es;
    } else {
      var n := |es| - 1;
      NegativeTail(es[..n], k);
      assert es[..n][..k] == es[..k];
      assert es == es[..n] + [es[n]];
      WeightSnoc(Greedy(es[..n]), es[n]);
    }
  }

  lemma NonNegativePick(es: seq<WeightedEdge>, a: seq<WeightedEdge>)
    requires Descending(es) && Picks(a, es) && Acyclic(a)
    requires forall e :: e in es ==> e.weight >= 0.0
    ensures Weight(a) <= Weight(Greedy(es))
  {
    GreedyLeads(es, a, 0.0);
    LeadsByNothing(Greedy(es), a);
  }

  lemma LeadsByNothing(f: seq<WeightedEdge>, a: seq<WeightedEdge>)
    requires Leads(f, a, 0.0)
    ensures Weight(a) <= Weight(f)
  {
    ScaledZero(|f| - |a|);
  }

  /** A pick gains by giving up its edges of negative weight. */
  lemma {:induction false} NegativePick(heavy: seq<WeightedEdge>, light: seq<WeightedEdge>, a: seq<WeightedEdge>)
    requires Descending(heavy) && forall e :: e in heavy ==> e.weight >= 0.0
    requires forall e :: e in light ==> e.weight < 0.0
    requires Picks(a, heavy + light) && Acyclic(a)
    ensures Weight(a) <= Weight(Greedy(heavy))
    decreases |light|
  {
    if light == [] {
      assert heavy + light == heavy;
      NonNegativePick(heavy, a);
    } else {
      var n := |light| - 1;
      assert heavy + light == heavy + light[..n] + [light[n]];
      var b := Dropped(a, light[n], heavy + light[..n]);
      NegativePick(heavy, light[..n], b);
    }
  }

  lemma {:induction false} ScaledZero(n: nat)
    ensures Scaled(0.0, n) == 0.0
  {
    if n > 0 { ScaledZero(n - 1); }
  }

  /** The greedy forest outweighs every acyclic pick if and only if edges of
      negative weight never join what the others leave apart. */
  lemma GreedyHeaviestIff(es: seq<WeightedEdge>)
    requires Descending(es)
    ensures Heaviest(Greedy(es), es) <==> NegativeRedundant(es)
  {
    var k := NonNegativePrefix(es);
    var heavy := es[..k];
    NegativeTail(es, k);
    if NegativeRedundant(es) {
      assert Greedy(es) == Greedy(heavy) by {
        forall i | k <= i < |es| ensures Connected(heavy, es[i].from, es[i].to) { assert es[i] in es; }
        RedundantTail(es, k);
      }
      forall a | Picks(a, es) && Acyclic(a) ensures Weight(a) <= Weight(Greedy(es)) {
        assert es == heavy + es[k..];
        NegativePick(heavy, es[k..], a);
      }
    }
    if Heaviest(Greedy(es), es) {
      GreedyAcyclic(heavy);
      GreedyPicks(heavy);
      assert es == heavy + es[k..];
      assert Picks(Greedy(heavy), es);
      forall e | e in es && e.weight < 0.0 ensures Connected(heavy, e.from, e.to) {
        GreedyKeepsEdge(es, e);
        GreedySpans(heavy, e.from, e.to);
      }
    }
  }

  lemma {:induction false} RedundantTail(es: seq<WeightedEdge>, k: nat)
    requires k <= |es| && forall i :: k <= i < |es| ==> Connected(es[..k], es[i].from, es[i].to)
    ensures Greedy(es) == Greedy(es[..k])
    decreases |es|
  {
    if k == |es| {
      assert es[..k] == es;
    } else {
      var n := |es| - 1;
      assert es[..n][..k] == es[..k];
      RedundantTail(es[..n], k);
      GreedySpans(es[..k], es[n].from, es[n].to);
    }
  }

  // ----- which edges survive whatever the order of ties

  /** The other edges that may be scanned before `e`. */
  function Rivals(es: seq<WeightedEdge>, e: WeightedEdge): (r: seq<WeightedEdge>) {
    Filter(es, (x: WeightedEdge) => x != e && x.weight >= e.weight)
  }

  lemma {:induction false} GreedyGrows(es: seq<WeightedEdge>, k: nat)
    requires k <= |es|
    ensures forall e :: e in Greedy(es[..k]) ==> e in Greedy(es)
    decreases |es|
  {
    if k == |es| {
      assert es[..k] == es;
    } else {
      var n := |es| - 1;
      assert es[..n][..k] == es[..k];
      GreedyGrows(es[..n], k);
    }
  }

  lemma ScannedBefore(order: seq<WeightedEdge>, i: nat)
    requires Descending(order) && i < |order|
    ensures forall x :: x in Greedy(order[..i]) && x != order[i] ==> x in Rivals(order, order[i])
  {
    var e := order[i];
    GreedyMembers(order[..i]);
    FilterMembers(order, (x: WeightedEdge) => x != e && x.weight >= e.weight);
    forall x | x in Greedy(order[..i]) && x != e ensures x in Rivals(order, e) {
      var j :| 0 <= j < i && order[..i][j] == x;
      assert order[j].weight >= order[i].weight;
    }
  }

  lemma SurvivesInOrder(order: seq<WeightedEdge>, e: WeightedEdge)
    requires Descending(order) && e in order
    requires !Connected(Rivals(order, e), e.from, e.to)
    ensures e in Greedy(order)
  {
    var i :| 0 <= i < |order| && order[i] == e;
    var f := Greedy(order[..i]);
    GreedyGrows(order, i);
    GreedyGrows(order, i + 1);
    ScannedBefore(order, i);
    assert order[..i + 1][..i] == order[..i];
    if e !in f && Connected(f, e.from, e.to) {
      Mono(f, Rivals(order, e), e.from, e.to);
    }
  }

  lemma {:induction false} NotTaken(rs: seq<WeightedEdge>, rest: seq<WeightedEdge>, e: WeightedEdge)
    requires e !in rs && Connected(rs, e.from, e.to)
    ensures e !in Greedy(rs + rest)
    decreases |rest|
  {
    if rest == [] {
      assert rs + rest == rs;
      GreedyMembers(rs);
    } else {
      var n := |rest| - 1;
      NotTaken(rs, rest[..n], e);
      assert (rs + rest)[..|rs| + n] == rs + rest[..n];
      if rest[n] == e {
        Mono(rs, rs + rest[..n], e.from, e.to);
        GreedySpans(rs + rest[..n], e.from, e.to);
      }
    }
  }

  /** An edge is in the forest for every order of ties if and only if the other
      edges at least as heavy leave its ends apart. */
  lemma SurvivesIff(es: seq<WeightedEdge>, e: WeightedEdge)
    requires e in es
    ensures (forall order :: multiset(order) == multiset(es) && Descending(order) ==> e in Greedy(order))
       <==> !Connected(Rivals(es, e), e.from, e.to)
  {
    if !Connected(Rivals(es, e), e.from, e.to) {
      forall order | multiset(order) == multiset(es) && Descending(order) ensures e in Greedy(order) {
        PermutedMembers(order, es);
        FilterPermuted(order, es, (x: WeightedEdge) => x != e && x.weight >= e.weight);
        PermutedMembers(Rivals(order, e), Rivals(es, e));
        if Connected(Rivals(order, e), e.from, e.to) { Mono(Rivals(order, e), Rivals(es, e), e.from, e.to); }
        SurvivesInOrder(order, e);
      }
    } else {
      var order := RivalsFirst(es, e);
      assert multiset(order) == multiset(es) && Descending(order);
    }
  }

  lemma RivalsFirst(es: seq<WeightedEdge>, e: WeightedEdge) returns (order: seq<WeightedEdge>)
    requires e in es && Connected(Rivals(es, e), e.from, e.to)
    ensures multiset(order) == multiset(es) && Descending(order) && e !in Greedy(order)
  {
    var isRival := (x: WeightedEdge) => x != e && x.weight >= e.weight;
    var other := (x: WeightedEdge) => !isRival(x);
    var key := (x: WeightedEdge) => -x.weight;
    var rs := SortExists(Filter(es, isRival), key);
    var rest := SortExists(Filter(es, other), key);
    FilterMembers(es, isRival);
    FilterMembers(es, other);
    PermutedMembers(rs, Filter(es, isRival));
    PermutedMembers(rest, Filter(es, other));
    assert Descending(rs) && Descending(rest) by {
      assert forall i, j :: 0 <= i < j < |rs| ==> key(rs[i]) <= key(rs[j]);
      assert forall i, j :: 0 <= i < j < |rest| ==> key(rest[i]) <= key(rest[j]);
    }
    order := rs + rest;
    forall x ensures multiset(order)[x] == multiset(es)[x] {
      FilterMultiset(es, isRival, x);
      FilterMultiset(es, other, x);
      assert multiset(order)[x] == multiset(rs)[x] + multiset(rest)[x];
    }
    DescendingConcat(rs, rest, e.weight);
    Mono(Rivals(es, e), rs, e.from, e.to);
    NotTaken(rs, rest, e);
  }

  lemma DescendingConcat(a: seq<WeightedEdge>, b: seq<WeightedEdge>, w: real)
    requires Descending(a) && Descending(b)
    requires forall x :: x in a ==> x.weight >= w
    requires forall x :: x in b ==> x.weight <= w
    ensures Descending(a + b)
  {
    forall i, j | 0 <= i < j < |a + b| ensures (a + b)[i].weight >= (a + b)[j].weight {
      if i < |a| <= j { assert (a + b)[i] in a && (a + b)[j] in b; }
    }
  }

  /** Schema edges that form no cycle among themselves and outweigh every semantic
      edge all survive. */
  lemma SchemaSurvives(order: seq<WeightedEdge>, schema: seq<WeightedEdge>, semantic: seq<WeightedEdge>)
    requires multiset(order) == multiset(schema + semantic) && Descending(order)
    requires Acyclic(schema)
    requires forall s, m :: s in schema && m in semantic ==> m.weight < s.weight
    ensures forall s :: s in schema ==> s in Greedy(order)
  {
    PermutedMembers(order, schema + semantic);
    forall s | s in schema ensures s in Greedy(order) {
      var i :| 0 <= i < |schema| && schema[i] == s;
      FilterMembers(order, (x: WeightedEdge) => x != s && x.weight >= s.weight);
      if Connected(Rivals(order, s), s.from, s.to) {
        forall x | x in Rivals(order, s) ensures x in Without(schema, i) { WithoutOnly(schema, i, x); }
        Mono(Rivals(order, s), Without(schema, i), s.from, s.to);
      }
      SurvivesInOrder(order, s);
    }
  }

  /** Three schema edges in a triangle cannot all be kept. */
  lemma SchemaDropped()
    ensures exists schema :: Descending(schema) && exists s :: s in schema && s !in Greedy(schema)
  {
    var a, b, c := WeightedEdge("a", "b", 1.0, "schema"), WeightedEdge("b", "c", 1.0, "schema"), WeightedEdge("a", "c", 1.0, "schema");
    var schema := [a, b, c];
    EdgeConnects([a, b], a);
    EdgeConnects([a, b], b);
    Trans([a, b], "a", "b", "c");
    NotTaken([a, b], [c], c);
    assert schema == [a, b] + [c];
    assert c in schema && c !in Greedy(schema);
  }
}
