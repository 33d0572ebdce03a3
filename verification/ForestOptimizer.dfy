/** MaxWeightForest itself, in the steps of core/forest_optimizer.go:137-214. */
module ForestOptimizer {
  import opened Graphs
  import opened Seqs
  import opened Sorting
  import opened Forests
  import UF = UnionFinds

  const MAX_SEED_COUNT := 48

  predicate Among(seeds: seq<string>, e: WeightedEdge) {
    e.from in seeds && e.to in seeds
  }

  function EligibleSchema(seeds: seq<string>, schema: seq<WeightedEdge>): (r: seq<WeightedEdge>) {
    Filter(schema, (e: WeightedEdge) => Among(seeds, e))
  }

  function EligibleSemantic(seeds: seq<string>, semantic: seq<WeightedEdge>, threshold: real): (r: seq<WeightedEdge>) {
    Filter(semantic, (e: WeightedEdge) => e.weight <= threshold && Among(seeds, e))
  }

  function Chosen(seeds: seq<string>, touched: set<string>): (r: seq<string>) {
    Filter(seeds, id => id in touched)
  }

  /** The seeds touched by the forest, cut to the budget; with no forest, the
      first seeds. A budget below one still lets one touched seed through. */
  function Budgeted(seeds: seq<string>, touched: set<string>, k: int): (r: seq<string>) {
    var t := Chosen(seeds, touched);
    if t != [] then t[..if k < 1 then 1 else if k < |t| then k else |t|]
    else seeds[..if k < 0 then 0 else if k < |seeds| then k else |seeds|]
  }

  lemma ConnectedSnoc(fs: seq<WeightedEdge>, e: WeightedEdge, a: string, b: string)
    ensures Connected(fs + [e], a, b) <==>
      Connected(fs, a, b) || (Connected(fs, a, e.from) && Connected(fs, b, e.to)) || (Connected(fs, a, e.to) && Connected(fs, b, e.from))
  {
    var gs := fs + [e];
    var nodes := Ends(gs) + {a, b};
    assert e in gs && gs[..|fs|] == fs;
    assert forall x :: x in fs ==> x in gs;
    LabelsDecide(nodes, gs, a, b);
    LabelsDecide(nodes, fs, a, b);
    LabelsDecide(nodes, fs, a, e.from);
    LabelsDecide(nodes, fs, b, e.to);
    LabelsDecide(nodes, fs, a, e.to);
    LabelsDecide(nodes, fs, b, e.from);
  }

  method IndexNodes(seeds: seq<string>) returns (index: map<string, nat>)
    ensures forall id :: id in index <==> id in seeds
    ensures forall id :: id in index ==> index[id] < |seeds| && seeds[index[id]] == id
  {
    index := map[];
    for i := 0 to |seeds|
      invariant forall id :: id in index <==> id in seeds[..i]
      invariant forall id :: id in index ==> index[id] < i && seeds[index[id]] == id
    {
      index := index[seeds[i] := i];
    }
  }

  method PruneSemantic(seeds: seq<string>, index: map<string, nat>, semantic: seq<WeightedEdge>, threshold: real)
    returns (kept: seq<WeightedEdge>)
    requires forall id :: id in index <==> id in seeds
    ensures kept == EligibleSemantic(seeds, semantic, threshold)
  {
    kept := [];
    for i := 0 to |semantic|
      invariant kept == EligibleSemantic(seeds, semantic[..i], threshold)
    {
      var e := semantic[i];
      assert semantic[..i + 1] == semantic[..i] + [e];
      FilterSnoc(semantic[..i], e, (e: WeightedEdge) => e.weight <= threshold && Among(seeds, e));
      if e.weight > threshold {
        continue;
      }
      if e.from in index {
        if e.to in index {
          kept := kept + [e];
        }
      }
    }
    assert semantic[..|semantic|] == semantic;
  }

  /** The union-find joins two seeds exactly when the forest connects them. */
  ghost predicate Tracks(uf: UF.UnionFind, index: map<string, nat>, forest: seq<WeightedEdge>)
    reads uf, uf.parent, uf.rank
  {
    && uf.Valid()
    && (forall a :: a in index ==> index[a] < |uf.root|)
    && (forall a, b :: a in index && b in index ==> (uf.root[index[a]] == uf.root[index[b]] <==> Connected(forest, a, b)))
  }

  method Offer(uf: UF.UnionFind, index: map<string, nat>, ghost forest: seq<WeightedEdge>, e: WeightedEdge)
    returns (merged: bool)
    requires Tracks(uf, index, forest) && e.from in index && e.to in index
    modifies uf`root, uf.parent, uf.rank
    ensures merged == !Connected(forest, e.from, e.to)
    ensures Tracks(uf, index, if merged then forest + [e] else forest)
  {
    ghost var root := uf.root;
    merged := uf.Union(index[e.from], index[e.to]);
    if merged {
      forall a, b | a in index && b in index
        ensures uf.root[index[a]] == uf.root[index[b]] <==> Connected(forest + [e], a, b)
      {
        ConnectedSnoc(forest, e, a, b);
        assert uf.Same(index[a], index[b]) <==> Connected(forest + [e], a, b);
      }
    }
  }

  method Singletons(n: nat, index: map<string, nat>) returns (uf: UF.UnionFind)
    requires forall a :: a in index ==> index[a] < n
    requires forall a, b :: a in index && b in index && index[a] == index[b] ==> a == b
    ensures fresh(uf) && fresh(uf.parent) && fresh(uf.rank) && Tracks(uf, index, [])
  {
    uf := new UF.UnionFind(n);
    forall a, b | a in index && b in index
      ensures uf.root[index[a]] == uf.root[index[b]] <==> Connected([], a, b)
    {
      LabelsDecide({a, b}, [], a, b);
    }
  }

  lemma EndsSnoc(forest: seq<WeightedEdge>, e: WeightedEdge)
    ensures Ends(forest + [e]) == Ends(forest) + {e.from} + {e.to}
  {
    assert forall x :: x in forest + [e] <==> x in forest || x == e;
  }

  /** The selection loop computes the greedy forest of the edges among the seeds. */
  method SelectEdges(seeds: seq<string>, index: map<string, nat>, edges: seq<WeightedEdge>)
    returns (forest: seq<WeightedEdge>, selected: set<string>)
    requires forall id :: id in index <==> id in seeds
    requires forall id :: id in index ==> index[id] < |seeds| && seeds[index[id]] == id
    ensures forest == Greedy(EligibleSchema(seeds, edges))
    ensures selected == Ends(forest)
  {
    var uf := Singletons(|seeds|, index);
    forest, selected := [], {};
    for i := 0 to |edges|
      invariant fresh(uf) && fresh(uf.parent) && fresh(uf.rank)
      invariant Tracks(uf, index, forest)
      invariant forest == Greedy(EligibleSchema(seeds, edges[..i]))
      invariant selected == Ends(forest)
    {
      var e := edges[i];
      NextEligible(seeds, edges, i);
      if e.from !in index || e.to !in index {
        continue;
      }
      var merged := Offer(uf, index, forest, e);
      if merged {
        EndsSnoc(forest, e);
        forest := forest + [e];
        selected := selected + {e.from} + {e.to};
      }
    }
    assert edges[..|edges|] == edges;
  }

  lemma NextEligible(seeds: seq<string>, edges: seq<WeightedEdge>, i: nat)
    requires i < |edges|
    ensures var e, f := edges[i], Greedy(EligibleSchema(seeds, edges[..i]));
      Greedy(EligibleSchema(seeds, edges[..i + 1])) ==
      if Among(seeds, e) && !Connected(f, e.from, e.to) then f + [e] else f
  {
    var order := EligibleSchema(seeds, edges[..i]);
    assert edges[..i + 1] == edges[..i] + [edges[i]];
    FilterSnoc(edges[..i], edges[i], (e: WeightedEdge) => Among(seeds, e));
    assert (order + [edges[i]])[..|order|] == order;
  }

  lemma ChosenNext(seeds: seq<string>, touched: set<string>, i: nat)
    requires i < |seeds|
    ensures Chosen(seeds[..i + 1], touched) == Chosen(seeds[..i], touched) + if seeds[i] in touched then [seeds[i]] else []
  {
    assert seeds[..i + 1] == seeds[..i] + [seeds[i]];
    FilterSnoc(seeds[..i], seeds[i], id => id in touched);
  }

  /** Leaving the loop early loses nothing within the budget. */
  lemma EnoughChosen(seeds: seq<string>, touched: set<string>, k: int, i: nat)
    requires i <= |seeds| && |Chosen(seeds[..i], touched)| == if k < 1 then 1 else k
    ensures Chosen(seeds[..i], touched) == Budgeted(seeds, touched, k)
  {
    var t := Chosen(seeds[..i], touched);
    assert seeds == seeds[..i] + seeds[i..];
    FilterConcat(seeds[..i], seeds[i..], id => id in touched);
    assert Chosen(seeds, touched) == t + Chosen(seeds[i..], touched);
    assert Chosen(seeds, touched)[..|t|] == t;
  }

  method CollectNodes(seeds: seq<string>, selected: set<string>, k: int) returns (nodes: seq<string>)
    ensures nodes == Budgeted(seeds, selected, k)
  {
    nodes := [];
    var i := 0;
    while i < |seeds|
      invariant 0 <= i <= |seeds|
      invariant nodes == Chosen(seeds[..i], selected)
      invariant nodes == [] || |nodes| < k
    {
      ChosenNext(seeds, selected, i);
      if seeds[i] in selected {
        nodes := nodes + [seeds[i]];
        if |nodes| >= k {
          EnoughChosen(seeds, selected, k, i + 1);
          return;
        }
      }
      i := i + 1;
    }
    assert seeds[..|seeds|] == seeds;
    if |nodes| == 0 && |seeds| > 0 {
      nodes := FirstSeeds(seeds, k);
    }
  }

  /** The fallback loop. */
  method FirstSeeds(seeds: seq<string>, k: int) returns (nodes: seq<string>)
    ensures nodes == seeds[..if k < 0 then 0 else if k < |seeds| then k else |seeds|]
  {
    nodes := [];
    var j := 0;
    while j < k && j < |seeds|
      invariant 0 <= j <= |seeds| && (j <= k || j == 0)
      invariant nodes == seeds[..j]
    {
      nodes := nodes + [seeds[j]];
      j := j + 1;
    }
  }

  /** What a selection achieves on given seeds: it picks from the edges among them, is acyclic,
      spans, is heaviest exactly when negative edges are redundant, keeps schema edges that are
      acyclic and outweigh the others, and selects the budgeted nodes. */
  ghost predicate Solves(seeds: seq<string>, schemaEdges: seq<WeightedEdge>, semanticEdges: seq<WeightedEdge>, threshold: real, k: int,
                         nodes: seq<string>, forest: seq<WeightedEdge>) {
    var schema := EligibleSchema(seeds, schemaEdges);
    var semantic := EligibleSemantic(seeds, semanticEdges, threshold);
    && Picks(forest, schema + semantic) && Acyclic(forest)
    && (forall a, b :: Connected(forest, a, b) <==> Connected(schema + semantic, a, b))
    && (Heaviest(forest, schema + semantic) <==> NegativeRedundant(schema + semantic))
    && (forall a :: Picks(a, schema + semantic) && Acyclic(a) && |a| == |forest| ==> Weight(a) <= Weight(forest))
    && (Acyclic(schema) && (forall s, m :: s in schema && m in semantic ==> m.weight < s.weight) ==>
          forall s :: s in schema ==> s in forest)
    && nodes == Budgeted(seeds, Ends(forest), k)
  }

  /** Said of the edges themselves: the forest has schema edges and semantic edges within the
      threshold, both ends among the seeds; every such edge joins nodes the forest connects. The
      selected nodes are ends of the forest, as many as the budget (at least one) or all of them;
      without a forest they are the first seeds within the budget. */
  ghost predicate Serves(seeds: seq<string>, schemaEdges: seq<WeightedEdge>, semanticEdges: seq<WeightedEdge>, threshold: real, k: int,
                         nodes: seq<string>, forest: seq<WeightedEdge>) {
    && (forall e :: e in forest ==> e.from in seeds && e.to in seeds && (e in schemaEdges || (e in semanticEdges && e.weight <= threshold)))
    && (forall e :: e in schemaEdges && e.from in seeds && e.to in seeds ==> Connected(forest, e.from, e.to))
    && (forall e :: e in semanticEdges && e.weight <= threshold && e.from in seeds && e.to in seeds ==> Connected(forest, e.from, e.to))
    && Selects(seeds, k, nodes, forest)
  }

  predicate IsEnd(forest: seq<WeightedEdge>, n: string) {
    exists e :: e in forest && (n == e.from || n == e.to)
  }

  ghost predicate Selects(seeds: seq<string>, k: int, nodes: seq<string>, forest: seq<WeightedEdge>) {
    && (forall n :: n in nodes ==> n in seeds)
    && (forest != [] ==>
          && (forall n :: n in nodes ==> IsEnd(forest, n))
          && |nodes| <= (if k < 1 then 1 else k)
          && (|nodes| == (if k < 1 then 1 else k) || forall n :: n in seeds && IsEnd(forest, n) ==> n in nodes))
    && (forest == [] ==> nodes <= seeds && |nodes| == if k < 0 then 0 else if k < |seeds| then k else |seeds|)
  }

  /** The eligible edges are the schema edges and the light semantic edges among the seeds. */
  lemma EligibleIff(seeds: seq<string>, schemaEdges: seq<WeightedEdge>, semanticEdges: seq<WeightedEdge>, threshold: real, e: WeightedEdge)
    ensures e in EligibleSchema(seeds, schemaEdges) + EligibleSemantic(seeds, semanticEdges, threshold) <==>
      e.from in seeds && e.to in seeds && (e in schemaEdges || (e in semanticEdges && e.weight <= threshold))
  {
    FilterMembers(schemaEdges, (e: WeightedEdge) => Among(seeds, e));
    FilterMembers(semanticEdges, (e: WeightedEdge) => e.weight <= threshold && Among(seeds, e));
  }

  lemma PickedFrom(forest: seq<WeightedEdge>, all: seq<WeightedEdge>, e: WeightedEdge)
    requires Picks(forest, all) && e in forest
    ensures e in all
  {
    assert e in multiset(forest) && e in multiset(all);
  }

  lemma JoinsServed(forest: seq<WeightedEdge>, all: seq<WeightedEdge>, e: WeightedEdge)
    requires (forall a, b :: Connected(forest, a, b) <==> Connected(all, a, b)) && e in all
    ensures Connected(forest, e.from, e.to)
  {
    EdgeConnects(all, e);
  }

  lemma SolvesServes(seeds: seq<string>, schemaEdges: seq<WeightedEdge>, semanticEdges: seq<WeightedEdge>, threshold: real, k: int,
                     nodes: seq<string>, forest: seq<WeightedEdge>)
    requires var all := EligibleSchema(seeds, schemaEdges) + EligibleSemantic(seeds, semanticEdges, threshold);
      Picks(forest, all) && forall a, b :: Connected(forest, a, b) <==> Connected(all, a, b)
    requires nodes == Budgeted(seeds, Ends(forest), k)
    ensures Serves(seeds, schemaEdges, semanticEdges, threshold, k, nodes, forest)
  {
    var all := EligibleSchema(seeds, schemaEdges) + EligibleSemantic(seeds, semanticEdges, threshold);
    forall e | e in forest ensures e.from in seeds && e.to in seeds && (e in schemaEdges || (e in semanticEdges && e.weight <= threshold)) {
      PickedFrom(forest, all, e);
      EligibleIff(seeds, schemaEdges, semanticEdges, threshold, e);
    }
    forall e: WeightedEdge | e.from in seeds && e.to in seeds && (e in schemaEdges || (e in semanticEdges && e.weight <= threshold))
      ensures Connected(forest, e.from, e.to)
    {
      EligibleIff(seeds, schemaEdges, semanticEdges, threshold, e);
      JoinsServed(forest, all, e);
    }
    NodesChosen(seeds, forest, k);
  }

  lemma EndsAre(forest: seq<WeightedEdge>, n: string)
    ensures n in Ends(forest) <==> IsEnd(forest, n)
  {
  }

  lemma NodesChosen(seeds: seq<string>, forest: seq<WeightedEdge>, k: int)
    requires forall e :: e in forest ==> e.from in seeds
    ensures Selects(seeds, k, Budgeted(seeds, Ends(forest), k), forest)
  {
    var t := Chosen(seeds, Ends(forest));
    FilterMembers(seeds, id => id in Ends(forest));
    forall n ensures n in Ends(forest) <==> IsEnd(forest, n) { EndsAre(forest, n); }
    if forest != [] {
      assert forest[0] in forest && IsEnd(forest, forest[0].from);
      assert forest[0].from in t;
    } else {
      if t != [] { assert t[0] in t && IsEnd(forest, t[0]); }
    }
  }

  /** Up to 48 seeds are all used; of more, the first 48. */
  method MaxWeightForest(seedNodes: seq<string>, schemaEdges: seq<WeightedEdge>, semanticEdges: seq<WeightedEdge>,
                         redundancyThreshold: real, k: int)
    returns (nodes: seq<string>, forest: seq<WeightedEdge>)
    ensures |seedNodes| <= 48 ==> Solves(seedNodes, schemaEdges, semanticEdges, redundancyThreshold, k, nodes, forest)
    ensures |seedNodes| > 48 ==> Solves(seedNodes[..48], schemaEdges, semanticEdges, redundancyThreshold, k, nodes, forest)
    ensures Serves(if |seedNodes| <= 48 then seedNodes else seedNodes[..48], schemaEdges, semanticEdges, redundancyThreshold, k, nodes, forest)
  {
    var seeds := seedNodes;
    if |seeds| > MAX_SEED_COUNT {
      seeds := seeds[..MAX_SEED_COUNT];
    }
    var index := IndexNodes(seeds);
    var filtered := PruneSemantic(seeds, index, semanticEdges, redundancyThreshold);
    var all := schemaEdges + filtered;
    var sorted := SortBy(all, (e: WeightedEdge) => -e.weight);
    var selected;
    forest, selected := SelectEdges(seeds, index, sorted);
    nodes := CollectNodes(seeds, selected, k);
    KruskalResult(seeds, schemaEdges, semanticEdges, redundancyThreshold, sorted);
    SolvesServes(seeds, schemaEdges, semanticEdges, redundancyThreshold, k, nodes, forest);
  }

  /** What greedy selection over any sorted order of the edges achieves. */
  lemma KruskalResult(seeds: seq<string>, schemaEdges: seq<WeightedEdge>, semanticEdges: seq<WeightedEdge>,
                      threshold: real, sorted: seq<WeightedEdge>)
    requires multiset(sorted) == multiset(schemaEdges + EligibleSemantic(seeds, semanticEdges, threshold))
    requires SortedBy(sorted, (e: WeightedEdge) => -e.weight)
    ensures var schema := EligibleSchema(seeds, schemaEdges);
      var semantic := EligibleSemantic(seeds, semanticEdges, threshold);
      var forest := Greedy(EligibleSchema(seeds, sorted));
      && Picks(forest, schema + semantic) && Acyclic(forest)
      && (forall a, b :: Connected(forest, a, b) <==> Connected(schema + semantic, a, b))
      && (Heaviest(forest, schema + semantic) <==> NegativeRedundant(schema + semantic))
      && (forall a :: Picks(a, schema + semantic) && Acyclic(a) && |a| == |forest| ==> Weight(a) <= Weight(forest))
      && (Acyclic(schema) && (forall s, m :: s in schema && m in semantic ==> m.weight < s.weight) ==>
            forall s :: s in schema ==> s in forest)
  {
    var schema, semantic := EligibleSchema(seeds, schemaEdges), EligibleSemantic(seeds, semanticEdges, threshold);
    var el, order := schema + semantic, EligibleSchema(seeds, sorted);
    OrderOfEligible(seeds, schemaEdges, semanticEdges, threshold, sorted);
    PermutedMembers(order, el);
    GreedyPicks(order);
    GreedyAcyclic(order);
    forall a, b ensures Connected(Greedy(order), a, b) <==> Connected(el, a, b) {
      GreedySpans(order, a, b);
      SameMembers(order, el, a, b);
    }
    GreedyHeaviestIff(order);
    RedundantPermuted(order, el);
    assert Heaviest(Greedy(order), el) <==> Heaviest(Greedy(order), order);
    forall a | Picks(a, el) && Acyclic(a) && |a| == |Greedy(order)| ensures Weight(a) <= Weight(Greedy(order)) {
      GreedyHeaviestOfSize(order, a);
    }
    if Acyclic(schema) && (forall s, m :: s in schema && m in semantic ==> m.weight < s.weight) {
      SchemaSurvives(order, schema, semantic);
    }
  }

  lemma OrderOfEligible(seeds: seq<string>, schemaEdges: seq<WeightedEdge>, semanticEdges: seq<WeightedEdge>,
                        threshold: real, sorted: seq<WeightedEdge>)
    requires multiset(sorted) == multiset(schemaEdges + EligibleSemantic(seeds, semanticEdges, threshold))
    requires SortedBy(sorted, (e: WeightedEdge) => -e.weight)
    ensures Descending(EligibleSchema(seeds, sorted))
    ensures multiset(EligibleSchema(seeds, sorted))
         == multiset(EligibleSchema(seeds, schemaEdges) + EligibleSemantic(seeds, semanticEdges, threshold))
  {
    var among := (e: WeightedEdge) => Among(seeds, e);
    var semantic := EligibleSemantic(seeds, semanticEdges, threshold);
    FilterPermuted(sorted, schemaEdges + semantic, among);
    FilterConcat(schemaEdges, semantic, among);
    FilterMembers(semanticEdges, (e: WeightedEdge) => e.weight <= threshold && Among(seeds, e));
    FilterAll(semantic, among);
    var key := (e: WeightedEdge) => -e.weight;
    assert forall i, j :: 0 <= i < j < |sorted| ==> key(sorted[i]) <= key(sorted[j]);
    FilterDescending(sorted, among);
  }

  lemma {:induction false} FilterAll(s: seq<WeightedEdge>, keep: WeightedEdge -> bool)
    requires forall e :: e in s ==> keep(e)
    ensures Filter(s, keep) == s
    decreases |s|
  {
    if s != [] { FilterAll(s[..|s| - 1], keep); }
  }

  lemma {:induction false} FilterDescending(s: seq<WeightedEdge>, keep: WeightedEdge -> bool)
    requires Descending(s)
    ensures Descending(Filter(s, keep))
    decreases |s|
  {
    if s != [] {
      var n := |s| - 1;
      FilterDescending(s[..n], keep);
      FilterMembers(s[..n], keep);
      var r := Filter(s[..n], keep);
      forall i | 0 <= i < |r| ensures r[i].weight >= s[n].weight {
        assert r[i] in s[..n];
      }
    }
  }

  lemma SameMembers(es: seq<WeightedEdge>, fs: seq<WeightedEdge>, a: string, b: string)
    requires forall e :: e in es <==> e in fs
    ensures Connected(es, a, b) <==> Connected(fs, a, b)
  {
    if Connected(es, a, b) { Mono(es, fs, a, b); }
    if Connected(fs, a, b) { Mono(fs, es, a, b); }
  }

  lemma RedundantPermuted(es: seq<WeightedEdge>, fs: seq<WeightedEdge>)
    requires forall e :: e in es <==> e in fs
    ensures NegativeRedundant(es) <==> NegativeRedundant(fs)
  {
    FilterMembers(es, (e: WeightedEdge) => e.weight >= 0.0);
    FilterMembers(fs, (e: WeightedEdge) => e.weight >= 0.0);
    forall e: WeightedEdge ensures Connected(NonNegative(es), e.from, e.to) <==> Connected(NonNegative(fs), e.from, e.to) {
      SameMembers(NonNegative(es), NonNegative(fs), e.from, e.to);
    }
  }

  /** The documented budget of k nodes holds exactly when k is at least one, or is
      zero and no seed is touched. */
  lemma BudgetIff(seeds: seq<string>, touched: set<string>, k: int)
    ensures |Budgeted(seeds, touched, k)| <= k <==> k >= 1 || (k == 0 && forall id :: id in seeds ==> id !in touched)
  {
    var t := Chosen(seeds, touched);
    FilterMembers(seeds, id => id in touched);
    assert t != [] ==> t[0] in t;
  }
}
