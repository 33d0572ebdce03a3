/** Connectivity and acyclicity of weighted edge lists, with the counting
    argument that ties them together: a forest on n nodes with c classes has
    exactly n - c edges. */
module Graphs {
  import opened Seqs

  datatype WeightedEdge = WeightedEdge(from: string, to: string, weight: real, edgeType: string)

  ghost predicate Joins(e: WeightedEdge, a: string, b: string) {
    (e.from == a && e.to == b) || (e.from == b && e.to == a)
  }

  ghost predicate Linked(es: seq<WeightedEdge>, a: string, b: string) {
    exists e :: e in es && Joins(e, a, b)
  }

  ghost predicate Hop(es: seq<WeightedEdge>, p: seq<string>, i: int)
    requires 0 <= i < |p| - 1
  {
    Linked(es, p[i], p[i + 1])
  }

  ghost predicate Walk(es: seq<WeightedEdge>, p: seq<string>) {
    |p| >= 1 && forall i {:trigger Hop(es, p, i)} :: 0 <= i < |p| - 1 ==> Hop(es, p, i)
  }

  ghost predicate WalkFrom(es: seq<WeightedEdge>, p: seq<string>, a: string, b: string) {
    Walk(es, p) && p[0] == a && p[|p| - 1] == b
  }

  ghost predicate Connected(es: seq<WeightedEdge>, a: string, b: string) {
    exists p :: WalkFrom(es, p, a, b)
  }

  function Without(es: seq<WeightedEdge>, i: nat): (r: seq<WeightedEdge>)
    requires i < |es|
    ensures |r| == |es| - 1
    ensures forall e :: e in r ==> e in es
  {
    es[..i] + es[i + 1..]
  }

  /** No edge has its two ends connected by the remaining edges (so no cycle,
      no self loop and no parallel edges). */
  ghost predicate Acyclic(es: seq<WeightedEdge>) {
    forall i {:trigger es[i]} :: 0 <= i < |es| ==> !Connected(Without(es, i), es[i].from, es[i].to)
  }

  ghost predicate Within(es: seq<WeightedEdge>, nodes: set<string>) {
    forall e :: e in es ==> e.from in nodes && e.to in nodes
  }

  // ----- connectivity is an equivalence, monotone in the edges

  lemma Refl(es: seq<WeightedEdge>, a: string)
    ensures Connected(es, a, a)
  {
    assert WalkFrom(es, [a], a, a);
  }

  lemma Trans(es: seq<WeightedEdge>, a: string, b: string, c: string)
    requires Connected(es, a, b) && Connected(es, b, c)
    ensures Connected(es, a, c)
  {
    var p :| WalkFrom(es, p, a, b);
    var q :| WalkFrom(es, q, b, c);
    var r := p + q[1..];
    forall i | 0 <= i < |r| - 1 ensures Hop(es, r, i) {
      if i < |p| - 1 {
        assert Hop(es, p, i) && r[i] == p[i] && r[i + 1] == p[i + 1];
      } else {
        var j := i - (|p| - 1);
        assert Hop(es, q, j) && r[i] == q[j] && r[i + 1] == q[j + 1];
      }
    }
    assert WalkFrom(es, r, a, c);
  }

  lemma LinkedSym(es: seq<WeightedEdge>, a: string, b: string)
    requires Linked(es, a, b)
    ensures Linked(es, b, a)
  {
    var e :| e in es && Joins(e, a, b);
    assert Joins(e, b, a);
  }

  lemma Sym(es: seq<WeightedEdge>, a: string, b: string)
    requires Connected(es, a, b)
    ensures Connected(es, b, a)
  {
    var p :| WalkFrom(es, p, a, b);
    var r := seq(|p|, i requires 0 <= i < |p| => p[|p| - 1 - i]);
    forall i | 0 <= i < |r| - 1 ensures Hop(es, r, i) {
      var j := |p| - 2 - i;
      assert Hop(es, p, j);
      LinkedSym(es, p[j], p[j + 1]);
    }
    assert WalkFrom(es, r, b, a);
  }

  lemma Mono(es: seq<WeightedEdge>, fs: seq<WeightedEdge>, a: string, b: string)
    requires Connected(es, a, b)
    requires forall e :: e in es ==> e in fs
    ensures Connected(fs, a, b)
  {
    var p :| WalkFrom(es, p, a, b);
    forall i | 0 <= i < |p| - 1 ensures Hop(fs, p, i) {
      assert Hop(es, p, i);
      var e :| e in es && Joins(e, p[i], p[i + 1]);
      assert e in fs;
    }
    assert WalkFrom(fs, p, a, b);
  }

  lemma EdgeConnects(es: seq<WeightedEdge>, e: WeightedEdge)
    requires e in es
    ensures Connected(es, e.from, e.to)
  {
    var p := [e.from, e.to];
    assert Joins(e, p[0], p[1]);
    assert Hop(es, p, 0);
    assert WalkFrom(es, p, e.from, e.to);
  }

  lemma WalkPrefix(es: seq<WeightedEdge>, p: seq<string>)
    requires Walk(es, p) && |p| > 1
    ensures Walk(es, p[..|p| - 1]) && Linked(es, p[|p| - 2], p[|p| - 1])
  {
    var q := p[..|p| - 1];
    forall i | 0 <= i < |q| - 1 ensures Hop(es, q, i) { assert Hop(es, p, i); }
    assert Hop(es, p, |p| - 2);
  }

  /** Replacing every edge by a connection keeps what is connected. */
  lemma {:induction false} Refine(es: seq<WeightedEdge>, fs: seq<WeightedEdge>, p: seq<string>)
    requires Walk(es, p)
    requires forall e :: e in es ==> Connected(fs, e.from, e.to)
    ensures Connected(fs, p[0], p[|p| - 1])
    decreases |p|
  {
    if |p| == 1 {
      Refl(fs, p[0]);
    } else {
      var n := |p| - 1;
      WalkPrefix(es, p);
      Refine(es, fs, p[..n]);
      var e :| e in es && Joins(e, p[n - 1], p[n]);
      assert Connected(fs, e.from, e.to);
      Sym(fs, e.from, e.to);
      Trans(fs, p[0], p[n - 1], p[n]);
    }
  }

  lemma RefineAll(es: seq<WeightedEdge>, fs: seq<WeightedEdge>, a: string, b: string)
    requires Connected(es, a, b)
    requires forall e :: e in es ==> Connected(fs, e.from, e.to)
    ensures Connected(fs, a, b)
  {
    var p :| WalkFrom(es, p, a, b);
    Refine(es, fs, p);
  }

  // ----- class labels, computed edge by edge

  ghost function Merge(m: map<string, string>, u: string, v: string): (r: map<string, string>)
    requires u in m && v in m
    ensures r.Keys == m.Keys
  {
    map x | x in m :: if m[x] == m[u] then m[v] else m[x]
  }

  ghost function Labels(nodes: set<string>, es: seq<WeightedEdge>): (m: map<string, string>)
    requires Within(es, nodes)
    ensures m.Keys == nodes
  {
    if es == [] then map x | x in nodes :: x
    else
      var n := |es| - 1;
      Merge(Labels(nodes, es[..n]), es[n].from, es[n].to)
  }

  ghost function Classes(nodes: set<string>, es: seq<WeightedEdge>): (c: nat)
    requires Within(es, nodes)
  {
    |Labels(nodes, es).Values|
  }

  lemma {:induction false} SameLabelConnected(nodes: set<string>, es: seq<WeightedEdge>, a: string, b: string)
    requires Within(es, nodes) && a in nodes && b in nodes
    requires Labels(nodes, es)[a] == Labels(nodes, es)[b]
    ensures Connected(es, a, b)
    decreases |es|
  {
    if es == [] {
      Refl(es, a);
    } else {
      var n := |es| - 1;
      var fs, u, v := es[..n], es[n].from, es[n].to;
      var m := Labels(nodes, fs);
      EdgeConnects(es, es[n]);
      Sym(es, u, v);
      forall x, y | x in nodes && y in nodes && m[x] == m[y] ensures Connected(es, x, y) {
        SameLabelConnected(nodes, fs, x, y);
        Mono(fs, es, x, y);
      }
      if m[a] != m[b] {
        if m[a] == m[u] {
          Trans(es, a, u, v);
          Trans(es, a, v, b);
        } else {
          Trans(es, a, v, u);
          Trans(es, a, u, b);
        }
      }
    }
  }

  lemma {:induction false} EdgeSameLabel(nodes: set<string>, es: seq<WeightedEdge>, i: nat)
    requires Within(es, nodes) && i < |es|
    ensures es[i].from in nodes && es[i].to in nodes && Labels(nodes, es)[es[i].from] == Labels(nodes, es)[es[i].to]
    decreases |es|
  {
    var n := |es| - 1;
    LabelsStep(nodes, es);
    var m := Labels(nodes, es[..n]);
    if i == n {
      MergeJoins(m, es[n].from, es[n].to);
    } else {
      EdgeSameLabel(nodes, es[..n], i);
      MergeKeepsEqual(m, es[n].from, es[n].to, es[i].from, es[i].to);
    }
  }

  lemma LabelsStep(nodes: set<string>, es: seq<WeightedEdge>)
    requires Within(es, nodes) && es != []
    ensures var n := |es| - 1;
      && Within(es[..n], nodes) && es[n].from in nodes && es[n].to in nodes
      && Labels(nodes, es) == Merge(Labels(nodes, es[..n]), es[n].from, es[n].to)
  {
  }

  lemma MergeJoins(m: map<string, string>, u: string, v: string)
    requires u in m && v in m
    ensures Merge(m, u, v)[u] == Merge(m, u, v)[v]
  {
  }

  lemma MergeKeepsEqual(m: map<string, string>, u: string, v: string, a: string, b: string)
    requires u in m && v in m && a in m && b in m && m[a] == m[b]
    ensures Merge(m, u, v)[a] == Merge(m, u, v)[b]
  {
  }

  lemma LinkSameLabel(nodes: set<string>, es: seq<WeightedEdge>, a: string, b: string)
    requires Within(es, nodes) && Linked(es, a, b)
    ensures a in nodes && b in nodes && Labels(nodes, es)[a] == Labels(nodes, es)[b]
  {
    var e :| e in es && Joins(e, a, b);
    var i :| 0 <= i < |es| && es[i] == e;
    EdgeSameLabel(nodes, es, i);
  }

  lemma {:induction false} WalkSameLabel(nodes: set<string>, es: seq<WeightedEdge>, p: seq<string>)
    requires Within(es, nodes) && Walk(es, p) && p[0] in nodes
    ensures p[|p| - 1] in nodes && Labels(nodes, es)[p[0]] == Labels(nodes, es)[p[|p| - 1]]
    decreases |p|
  {
    if |p| > 1 {
      var n := |p| - 1;
      WalkPrefix(es, p);
      WalkSameLabel(nodes, es, p[..n]);
      LinkSameLabel(nodes, es, p[n - 1], p[n]);
    }
  }

  /** Labels decide connectivity. */
  lemma LabelsDecide(nodes: set<string>, es: seq<WeightedEdge>, a: string, b: string)
    requires Within(es, nodes) && a in nodes && b in nodes
    ensures Connected(es, a, b) <==> Labels(nodes, es)[a] == Labels(nodes, es)[b]
  {
    if Connected(es, a, b) {
      var p :| WalkFrom(es, p, a, b);
      WalkSameLabel(nodes, es, p);
    } else if Labels(nodes, es)[a] == Labels(nodes, es)[b] {
      SameLabelConnected(nodes, es, a, b);
    }
  }

  // ----- counting classes

  lemma MergeCount(m: map<string, string>, u: string, v: string)
    requires u in m && v in m
    ensures |Merge(m, u, v).Values| == |m.Values| - (if m[u] == m[v] then 0 else 1)
  {
    var r := Merge(m, u, v);
    if m[u] == m[v] {
      assert r == m;
    } else {
      assert r.Values == m.Values - {m[u]} by {
        forall y | y in m.Values - {m[u]} ensures y in r.Values {
          var x :| x in m && m[x] == y;
          assert r[x] == y;
        }
        forall y | y in r.Values ensures y in m.Values - {m[u]} {
          var x :| x in r && r[x] == y;
          assert m[x] in m.Values && m[v] in m.Values;
        }
      }
    }
  }

  lemma IdentityValues(nodes: set<string>)
    ensures (map x | x in nodes :: x).Values == nodes
  {
    var m := map x | x in nodes :: x;
    forall y | y in nodes ensures y in m.Values { assert m[y] == y; }
  }

  lemma LastEdgeCount(nodes: set<string>, es: seq<WeightedEdge>)
    requires Within(es, nodes) && es != []
    ensures var n := |es| - 1;
      Classes(nodes, es) == Classes(nodes, es[..n]) - (if Connected(es[..n], es[n].from, es[n].to) then 0 else 1)
  {
    var n := |es| - 1;
    MergeCount(Labels(nodes, es[..n]), es[n].from, es[n].to);
    LabelsDecide(nodes, es[..n], es[n].from, es[n].to);
  }

  lemma {:induction false} ClassesLower(nodes: set<string>, es: seq<WeightedEdge>)
    requires Within(es, nodes)
    ensures Classes(nodes, es) >= |nodes| - |es|
    decreases |es|
  {
    if es == [] {
      IdentityValues(nodes);
    } else {
      ClassesLower(nodes, es[..|es| - 1]);
      LastEdgeCount(nodes, es);
    }
  }

  lemma {:induction false} ImageSize(s: set<string>, f: map<string, string>)
    requires s <= f.Keys
    ensures |set y | y in s :: f[y]| <= |s|
  {
    if s == {} {
      assert (set y | y in s :: f[y]) == {};
    } else {
      var x :| x in s;
      ImageSize(s - {x}, f);
      assert (set y | y in s :: f[y]) == (set y | y in s - {x} :: f[y]) + {f[x]};
    }
  }

  /** A coarser labelling has no more labels. */
  lemma CoarserCount(m: map<string, string>, c: map<string, string>)
    requires m.Keys == c.Keys
    requires forall x, y :: x in m && y in m && m[x] == m[y] ==> c[x] == c[y]
    ensures |c.Values| <= |m.Values|
  {
    var rep: map<string, string> := map l | l in m.Values :: var x :| x in m && m[x] == l; c[x];
    ImageSize(m.Values, rep);
    var img := set l | l in m.Values :: rep[l];
    forall y | y in c.Values ensures y in img {
      var x :| x in c && c[x] == y;
      assert m[x] in m.Values && rep[m[x]] == y;
    }
    assert c.Values <= img;
    SubsetSize(c.Values, img);
  }

  /** If every connection of `es` is one of `fs`, then `fs` has no more classes. */
  lemma ConnectedCount(nodes: set<string>, es: seq<WeightedEdge>, fs: seq<WeightedEdge>)
    requires Within(es, nodes) && Within(fs, nodes)
    requires forall e :: e in es ==> Connected(fs, e.from, e.to)
    ensures Classes(nodes, fs) <= Classes(nodes, es)
  {
    var m, c := Labels(nodes, es), Labels(nodes, fs);
    forall x, y | x in m && y in m && m[x] == m[y] ensures c[x] == c[y] {
      LabelsDecide(nodes, es, x, y);
      RefineAll(es, fs, x, y);
      LabelsDecide(nodes, fs, x, y);
    }
    CoarserCount(m, c);
  }

  // ----- forests, by counting

  lemma {:induction false} AcyclicCount(nodes: set<string>, es: seq<WeightedEdge>)
    requires Within(es, nodes) && Acyclic(es)
    ensures Classes(nodes, es) == |nodes| - |es|
    decreases |es|
  {
    if es == [] {
      IdentityValues(nodes);
    } else {
      var n := |es| - 1;
      var fs := es[..n];
      AcyclicPrefix(es, n);
      AcyclicCount(nodes, fs);
      assert Without(es, n) == fs;
      assert !Connected(Without(es, n), es[n].from, es[n].to);
      LastEdgeCount(nodes, es);
    }
  }

  lemma AcyclicPrefix(es: seq<WeightedEdge>, n: nat)
    requires Acyclic(es) && n <= |es|
    ensures Acyclic(es[..n])
  {
    var fs := es[..n];
    forall i | 0 <= i < n ensures !Connected(Without(fs, i), fs[i].from, fs[i].to) {
      assert !Connected(Without(es, i), es[i].from, es[i].to);
      if Connected(Without(fs, i), fs[i].from, fs[i].to) {
        WithoutPrefix(es, n, i);
        Mono(Without(fs, i), Without(es, i), fs[i].from, fs[i].to);
      }
    }
  }

  lemma WithoutPrefix(es: seq<WeightedEdge>, n: nat, i: nat)
    requires i < n <= |es|
    ensures forall e :: e in Without(es[..n], i) ==> e in Without(es, i)
  {
    assert Without(es, i) == Without(es[..n], i) + es[n..];
  }

  lemma WithoutOnly(es: seq<WeightedEdge>, i: nat, e: WeightedEdge)
    requires i < |es| && e in es
    ensures e in Without(es, i) || e == es[i]
  {
    assert es == es[..i] + [es[i]] + es[i + 1..];
  }

  lemma CountAcyclic(nodes: set<string>, es: seq<WeightedEdge>)
    requires Within(es, nodes) && Classes(nodes, es) == |nodes| - |es|
    ensures Acyclic(es)
  {
    forall i | 0 <= i < |es| ensures !Connected(Without(es, i), es[i].from, es[i].to) {
      var fs := Without(es, i);
      if Connected(fs, es[i].from, es[i].to) {
        forall e | e in es ensures Connected(fs, e.from, e.to) {
          WithoutOnly(es, i, e);
          if e in fs { EdgeConnects(fs, e); }
        }
        ConnectedCount(nodes, es, fs);
        ClassesLower(nodes, fs);
        assert false;
      }
    }
  }

  /** The counting characterisation of forests. */
  lemma ForestByCounting(nodes: set<string>, es: seq<WeightedEdge>)
    requires Within(es, nodes)
    ensures Acyclic(es) <==> Classes(nodes, es) == |nodes| - |es|
  {
    if Acyclic(es) { AcyclicCount(nodes, es); }
    if Classes(nodes, es) == |nodes| - |es| { CountAcyclic(nodes, es); }
  }

  /** An acyclic list has no more edges than any edge list connecting at least as much
      has edges in a spanning forest. */
  lemma RankLemma(nodes: set<string>, a: seq<WeightedEdge>, f: seq<WeightedEdge>)
    requires Within(a, nodes) && Within(f, nodes) && Acyclic(a) && Acyclic(f)
    requires forall e :: e in a ==> Connected(f, e.from, e.to)
    ensures |a| <= |f|
  {
    AcyclicCount(nodes, a);
    AcyclicCount(nodes, f);
    ConnectedCount(nodes, a, f);
  }
}
