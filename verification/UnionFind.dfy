/** The disjoint-set structure of core/forest_optimizer.go: path compression in
    Find, union by rank in Union, both on arrays rewritten in place. */
module UnionFinds {
  import opened Seqs

  ghost function Pow2(n: nat): (p: nat)
    ensures p >= 1
  {
    if n == 0 then 1 else 2 * Pow2(n - 1)
  }

  /** The members of the class whose representative is `r`. */
  ghost function Members(root: seq<nat>, r: nat): (s: set<nat>) {
    set x: nat | x < |root| && root[x] == r
  }

  /** The partition after joining the classes of `x` and `y` under `keep`. */
  ghost function Joined(root: seq<nat>, gone: nat, keep: nat): (s: seq<nat>)
    ensures |s| == |root|
    ensures forall i :: 0 <= i < |s| ==> s[i] == if root[i] == gone then keep else root[i]
  {
    seq(|root|, i requires 0 <= i < |root| => if root[i] == gone then keep else root[i])
  }

  lemma JoinedMembers(root: seq<nat>, gone: nat, keep: nat)
    requires gone != keep
    ensures |Members(Joined(root, gone, keep), keep)| == |Members(root, keep)| + |Members(root, gone)|
    ensures forall r :: r != gone && r != keep ==> Members(Joined(root, gone, keep), r) == Members(root, r)
  {
    var a, b := Members(root, keep), Members(root, gone);
    assert Members(Joined(root, gone, keep), keep) == a + b;
    assert a !! b;
  }

  /** Element `x` sits correctly in the forest `parent`: its parent link stays
      inside its class, climbs strictly in rank and ends at the representative. */
  ghost predicate Placed(parent: seq<nat>, rank: seq<nat>, root: seq<nat>, x: nat)
    requires |parent| == |rank| == |root| && x < |root|
  {
    && parent[x] < |root| && root[x] < |root|
    && root[root[x]] == root[x] && parent[root[x]] == root[x]
    && root[parent[x]] == root[x]
    && (parent[x] == x ==> root[x] == x)
    && (parent[x] != x ==> rank[x] < rank[parent[x]])
    && rank[x] <= rank[root[x]]
  }

  /** Every element is placed, and a representative of rank r has at least 2^r members. */
  ghost predicate Forest(parent: seq<nat>, rank: seq<nat>, root: seq<nat>) {
    && |parent| == |rank| == |root|
    && (forall x: nat {:trigger Placed(parent, rank, root, x)} :: x < |root| ==> Placed(parent, rank, root, x))
    && (forall r: nat {:trigger Members(root, r)} :: r < |root| && root[r] == r ==> Pow2(rank[r]) <= |Members(root, r)|)
  }

  /** Path compression: pointing an element at its representative keeps the same partition. */
  lemma CompressKeeps(parent: seq<nat>, rank: seq<nat>, root: seq<nat>, x: nat)
    requires Forest(parent, rank, root)
    requires x < |root| && root[x] != x
    ensures root[x] < |root| && Forest(parent[x := root[x]], rank, root)
  {
    assert Placed(parent, rank, root, x);
    assert Placed(parent, rank, root, parent[x]);
    var p' := parent[x := root[x]];
    forall y: nat | y < |root| ensures Placed(p', rank, root, y) {
      assert Placed(parent, rank, root, y);
      assert Placed(parent, rank, root, root[y]);
    }
  }

  /** Union by rank: hanging one representative under another of no smaller rank. */
  lemma LinkKeeps(parent: seq<nat>, rank: seq<nat>, root: seq<nat>, gone: nat, keep: nat, rank': seq<nat>)
    requires Forest(parent, rank, root)
    requires gone < |root| && keep < |root| && gone != keep
    requires root[gone] == gone && root[keep] == keep && rank[gone] <= rank[keep]
    requires rank' == if rank[gone] == rank[keep] then rank[keep := rank[keep] + 1] else rank
    ensures Forest(parent[gone := keep], rank', Joined(root, gone, keep))
  {
    var p', r' := parent[gone := keep], Joined(root, gone, keep);
    assert Placed(parent, rank, root, gone) && Placed(parent, rank, root, keep);
    forall y: nat | y < |root| ensures Placed(p', rank', r', y) {
      assert Placed(parent, rank, root, y);
    }
    JoinedMembers(root, gone, keep);
    assert Pow2(rank[keep]) <= |Members(root, keep)| && Pow2(rank[gone]) <= |Members(root, gone)|;
    forall r: nat | r < |root| && r'[r] == r ensures Pow2(rank'[r]) <= |Members(r', r)| {
      assert Placed(parent, rank, root, r);
      assert r != gone;
      if r != keep { assert Members(r', r) == Members(root, r); }
    }
  }

  class UnionFind {
    const parent: array<nat>
    const rank: array<nat>
    /** The representative of every element: the abstract partition. */
    ghost var root: seq<nat>

    ghost predicate Valid()
      reads this, parent, rank
    {
      parent != rank && Forest(parent[..], rank[..], root)
    }

    ghost predicate Same(x: nat, y: nat)
      requires x < |root| && y < |root|
      reads this
    {
      root[x] == root[y]
    }

    constructor (n: nat)
      ensures Valid() && fresh(parent) && fresh(rank)
      ensures |root| == n && forall x :: 0 <= x < n ==> root[x] == x
    {
      parent := new nat[n](i => i);
      rank := new nat[n](i => 0);
      root := seq(n, i => i);
      new;
      forall r: nat | r < n ensures Pow2(rank[..][r]) <= |Members(root, r)| {
        assert Members(root, r) == {r};
      }
    }

    /** Returns the representative; the partition and the ranks are untouched. */
    method Find(x: nat) returns (r: nat)
      requires Valid() && x < |root|
      modifies parent
      ensures Valid() && r == root[x]
      ensures parent[x] == r
      decreases assert Placed(parent[..], rank[..], root, x); rank[root[x]] - rank[x]
    {
      assert Placed(parent[..], rank[..], root, x);
      if parent[x] != x {
        assert Placed(parent[..], rank[..], root, parent[x]);
        var p := Find(parent[x]);
        ghost var before := parent[..];
        CompressKeeps(before, rank[..], root, x);
        parent[x] := p;
        assert parent[..] == before[x := root[x]];
      }
      return parent[x];
    }

    /** False exactly when the two were already joined; otherwise the two
        classes, and no others, become one. */
    method Union(x: nat, y: nat) returns (merged: bool)
      requires Valid() && x < |root| && y < |root|
      modifies this`root, parent, rank
      ensures Valid() && |root| == old(|root|)
      ensures merged == !old(Same(x, y))
      ensures forall a: nat, b: nat :: a < |root| && b < |root| ==>
        (Same(a, b) <==> old(Same(a, b)) || (old(Same(a, x)) && old(Same(b, y))) || (old(Same(a, y)) && old(Same(b, x))))
      ensures !merged ==> root == old(root) && rank[..] == old(rank[..])
    {
      var px := Find(x);
      var py := Find(y);
      if px == py {
        return false;
      }
      assert Placed(parent[..], rank[..], root, x) && Placed(parent[..], rank[..], root, y);
      if rank[px] < rank[py] {
        px, py := py, px;
      }
      ghost var p, k := parent[..], rank[..];
      parent[py] := px;
      if rank[px] == rank[py] {
        rank[px] := rank[px] + 1;
      }
      LinkKeeps(p, k, root, py, px, rank[..]);
      root := Joined(root, py, px);
      assert parent[..] == p[py := px];
      merged := true;
    }
  }

  /** Ranks stay logarithmic: a representative of rank r needs at least 2^r elements. */
  lemma RankBound(parent: seq<nat>, rank: seq<nat>, root: seq<nat>, x: nat)
    requires Forest(parent, rank, root) && x < |root|
    ensures Pow2(rank[x]) <= |root|
  {
    assert Placed(parent, rank, root, x);
    var r := root[x];
    assert Pow2(rank[r]) <= |Members(root, r)|;
    MembersFit(root, r);
    Pow2Mono(rank[x], rank[r]);
  }

  lemma {:induction false} Pow2Mono(a: nat, b: nat)
    requires a <= b
    ensures Pow2(a) <= Pow2(b)
    decreases b
  {
    if a < b { Pow2Mono(a, b - 1); }
  }

  lemma {:induction false} MembersFit(root: seq<nat>, r: nat)
    ensures |Members(root, r)| <= |root|
  {
    if root != [] {
      var n := |root| - 1;
      MembersFit(root[..n], r);
      assert Members(root, r) <= Members(root[..n], r) + {n};
      SubsetSize(Members(root, r), Members(root[..n], r) + {n});
    }
  }
}
