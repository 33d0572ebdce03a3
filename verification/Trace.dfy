/** Bounded breadth-first search over segment links (core/context_segmentation.go:266-314). */
module Traces {

  function Links(links: map<string, seq<string>>, id: string): (r: seq<string>) {
    if id in links then links[id] else []
  }

  /** The ids at link distance at most `d` from `start`. */
  ghost function Within(links: map<string, seq<string>>, start: string, d: int): (s: set<string>) {
    if d <= 0 then {start}
    else
      var w := Within(links, start, d - 1);
      w + set u, v | u in w && v in Links(links, u) :: v
  }

  lemma {:induction false} WithinGrows(links: map<string, seq<string>>, start: string, a: int, b: int)
    requires a <= b
    ensures Within(links, start, a) <= Within(links, start, b)
    decreases b - a
  {
    if a < b && 0 < b { WithinGrows(links, start, a, b - 1); }
  }

  lemma WithinStep(links: map<string, seq<string>>, start: string, d: int, u: string, v: string)
    requires 0 <= d && u in Within(links, start, d) && v in Links(links, u)
    ensures v in Within(links, start, d + 1)
  {
  }

  // ----- the invariant of the search

  /** `depth` records the distance at which each visited id was found; an id is
      finished when it has left the queue. */
  ghost predicate Sound(links: map<string, seq<string>>, start: string, bound: int, depth: map<string, int>) {
    && start in depth && depth[start] == 0
    && (forall v :: v in depth ==> 0 <= depth[v] <= bound)
    && (forall v {:trigger Reached(links, start, depth, v)} :: v in depth ==> Reached(links, start, depth, v))
  }

  ghost predicate Reached(links: map<string, seq<string>>, start: string, depth: map<string, int>, v: string)
    requires v in depth
  {
    v in Within(links, start, depth[v])
  }

  lemma SoundGrows(links: map<string, seq<string>>, start: string, bound: int, depth: map<string, int>, u: string, v: string)
    requires Sound(links, start, bound, depth) && u in depth && depth[u] < bound && v in Links(links, u) && v !in depth
    ensures Sound(links, start, bound, depth[v := depth[u] + 1])
  {
    var depth' := depth[v := depth[u] + 1];
    forall w | w in depth' ensures Reached(links, start, depth', w) {
      if w == v {
        assert Reached(links, start, depth, u);
        WithinStep(links, start, depth[u], u, v);
      } else {
        assert Reached(links, start, depth, w);
      }
    }
  }

  ghost predicate Queued(queue: seq<(string, int)>, depth: map<string, int>, low: int) {
    && (forall i :: 0 <= i < |queue| ==> queue[i].0 in depth && depth[queue[i].0] == queue[i].1)
    && (forall i, j :: 0 <= i < j < |queue| ==> queue[i].1 <= queue[j].1)
    && (forall i :: 0 <= i < |queue| ==> low <= queue[i].1 <= low + 1)
  }

  /** Every visited id is finished or waiting. */
  ghost predicate Covered(queue: seq<(string, int)>, depth: map<string, int>, finished: set<string>) {
    forall v :: v in depth ==> v in finished || exists i :: 0 <= i < |queue| && queue[i].0 == v
  }

  /** The links of `u` have been followed. */
  ghost predicate Followed(links: map<string, seq<string>>, depth: map<string, int>, u: string) {
    u in depth && forall v :: v in Links(links, u) ==> v in depth && depth[v] <= depth[u] + 1
  }

  ghost predicate Finished(links: map<string, seq<string>>, bound: int, depth: map<string, int>, finished: set<string>, low: int) {
    forall u :: u in finished ==> u in depth && depth[u] <= low && (depth[u] < bound ==> Followed(links, depth, u))
  }

  lemma FinishedGrows(links: map<string, seq<string>>, bound: int, depth: map<string, int>, finished: set<string>, low: int, id: string, d: int)
    requires Finished(links, bound, depth, finished, low) && id !in depth
    ensures Finished(links, bound, depth[id := d], finished, low)
  {
    forall u | u in finished && depth[u] < bound ensures Followed(links, depth[id := d], u) {
      assert Followed(links, depth, u);
    }
  }

  /** When the queue is empty, everything within the bound has been visited. */
  lemma {:induction false} Complete(links: map<string, seq<string>>, start: string, bound: int, depth: map<string, int>, low: int, d: int, v: string)
    requires Sound(links, start, bound, depth) && Finished(links, bound, depth, depth.Keys, low)
    requires 0 <= d <= bound && v in Within(links, start, d)
    ensures v in depth && depth[v] <= d
    decreases d
  {
    if d > 0 {
      if v in Within(links, start, d - 1) {
        Complete(links, start, bound, depth, low, d - 1, v);
      } else {
        var u :| u in Within(links, start, d - 1) && v in Links(links, u);
        Complete(links, start, bound, depth, low, d - 1, u);
        assert Followed(links, depth, u);
      }
    }
  }

  // ----- the search

  ghost function Universe(links: map<string, seq<string>>): (s: set<string>) {
    set k, v | k in links && v in links[k] :: v
  }

  /** The whole invariant while the links of `cur` are being followed. */
  ghost predicate Following(links: map<string, seq<string>>, start: string, bound: int, cur: (string, int),
                            queue: seq<(string, int)>, depth: map<string, int>, finished: set<string>)
  {
    && Sound(links, start, bound, depth)
    && cur.0 in depth && depth[cur.0] == cur.1 < bound
    && Queued(queue, depth, cur.1) && Covered(queue, depth, finished + {cur.0})
    && Finished(links, bound, depth, finished, cur.1)
  }

  lemma Discovered(links: map<string, seq<string>>, start: string, bound: int, cur: (string, int),
                   queue: seq<(string, int)>, depth: map<string, int>, finished: set<string>, n: string)
    requires Following(links, start, bound, cur, queue, depth, finished)
    requires n in Links(links, cur.0) && n !in depth
    ensures Following(links, start, bound, cur, queue + [(n, cur.1 + 1)], depth[n := cur.1 + 1], finished)
  {
    SoundGrows(links, start, bound, depth, cur.0, n);
    FinishedGrows(links, bound, depth, finished, cur.1, n, cur.1 + 1);
    Enqueued(queue, depth, cur.1, n, finished + {cur.0});
  }

  /** Puts the unvisited neighbours of the current id on the queue. */
  method Expand(links: map<string, seq<string>>, ghost start: string, ghost bound: int, cur: (string, int), queue0: seq<(string, int)>,
                visited0: set<string>, ghost depth0: map<string, int>, ghost finished: set<string>)
    returns (queue: seq<(string, int)>, visited: set<string>, ghost depth: map<string, int>)
    requires visited0 == depth0.Keys && Following(links, start, bound, cur, queue0, depth0, finished)
    ensures visited == depth.Keys && Following(links, start, bound, cur, queue, depth, finished)
    ensures Followed(links, depth, cur.0)
    ensures visited0 <= visited && (visited == visited0 ==> queue == queue0)
    ensures visited <= visited0 + Universe(links)
  {
    queue, visited, depth := queue0, visited0, depth0;
    var neighbors := Links(links, cur.0);
    for i := 0 to |neighbors|
      invariant visited == depth.Keys && Following(links, start, bound, cur, queue, depth, finished)
      invariant SeenTo(neighbors, i, depth, cur.1 + 1)
      invariant visited0 <= visited && (visited == visited0 ==> queue == queue0)
      invariant visited <= visited0 + Universe(links)
    {
      var n := neighbors[i];
      if n !in visited {
        Discovered(links, start, bound, cur, queue, depth, finished, n);
        visited := visited + {n};
        queue := queue + [(n, cur.1 + 1)];
        SeenGrows(neighbors, i, depth, cur.1 + 1, n);
        depth := depth[n := cur.1 + 1];
      } else {
        Bounded(queue, depth, finished, cur, n, links, bound);
      }
    }
  }

  ghost predicate SeenTo(neighbors: seq<string>, i: int, depth: map<string, int>, limit: int) {
    i <= |neighbors| && forall j :: 0 <= j < i ==> neighbors[j] in depth && depth[neighbors[j]] <= limit
  }

  lemma SeenGrows(neighbors: seq<string>, i: nat, depth: map<string, int>, limit: int, n: string)
    requires i < |neighbors| && SeenTo(neighbors, i, depth, limit) && neighbors[i] == n
    ensures SeenTo(neighbors, i + 1, depth[n := limit], limit)
  {
  }

  lemma Enqueued(queue: seq<(string, int)>, depth: map<string, int>, low: int, n: string, finished: set<string>)
    requires Queued(queue, depth, low) && Covered(queue, depth, finished) && n !in depth
    ensures Queued(queue + [(n, low + 1)], depth[n := low + 1], low)
    ensures Covered(queue + [(n, low + 1)], depth[n := low + 1], finished)
  {
    var q := queue + [(n, low + 1)];
    forall v | v in depth[n := low + 1] && v !in finished ensures exists i :: 0 <= i < |q| && q[i].0 == v {
      if v == n {
        assert q[|queue|].0 == v;
      } else {
        var i :| 0 <= i < |queue| && queue[i].0 == v;
        assert q[i].0 == v;
      }
    }
  }

  lemma Bounded(queue: seq<(string, int)>, depth: map<string, int>, finished: set<string>, cur: (string, int), n: string,
                links: map<string, seq<string>>, bound: int)
    requires Queued(queue, depth, cur.1) && Covered(queue, depth, finished + {cur.0})
    requires Finished(links, bound, depth, finished, cur.1)
    requires cur.0 in depth && depth[cur.0] == cur.1 && n in depth
    ensures depth[n] <= cur.1 + 1
  {
    if n !in finished + {cur.0} {
      var i :| 0 <= i < |queue| && queue[i].0 == n;
    }
  }

  /** Visits exactly the ids at link distance at most `bound`. */
  method Visit(links: map<string, seq<string>>, start: string, bound: nat) returns (visited: set<string>)
    ensures visited == Within(links, start, bound)
  {
    visited := {start};
    var queue: seq<(string, int)> := [(start, 0)];
    ghost var depth: map<string, int> := map[start := 0];
    ghost var finished: set<string> := {};
    ghost var low := 0;
    ghost var universe := {start} + Universe(links);
    Started(links, start, bound);
    while |queue| > 0
      invariant visited == depth.Keys && visited <= universe
      invariant Searching(links, start, bound, queue, depth, finished, low)
      decreases universe - visited, |queue|
    {
      var cur := queue[0];
      Dequeued(queue, depth, finished, low, links, bound);
      queue := queue[1..];
      if cur.1 < bound {
        queue, visited, depth := Expand(links, start, bound, cur, queue, visited, depth, finished);
      }
      Closed(links, start, bound, cur, queue, depth, finished);
      low, finished := cur.1, finished + {cur.0};
    }
    Exact(links, start, bound, depth, finished, low);
  }

  /** The whole invariant between two ids taken from the queue. */
  ghost predicate Searching(links: map<string, seq<string>>, start: string, bound: int,
                            queue: seq<(string, int)>, depth: map<string, int>, finished: set<string>, low: int)
  {
    && Sound(links, start, bound, depth)
    && Queued(queue, depth, low) && Covered(queue, depth, finished)
    && Finished(links, bound, depth, finished, low)
  }

  lemma Started(links: map<string, seq<string>>, start: string, bound: nat)
    ensures Searching(links, start, bound, [(start, 0)], map[start := 0], {}, 0)
  {
    var queue := [(start, 0)];
    assert queue[0].0 == start;
    assert Reached(links, start, map[start := 0], start);
  }

  lemma Closed(links: map<string, seq<string>>, start: string, bound: int, cur: (string, int),
               queue: seq<(string, int)>, depth: map<string, int>, finished: set<string>)
    requires Sound(links, start, bound, depth) && cur.0 in depth && depth[cur.0] == cur.1
    requires Queued(queue, depth, cur.1) && Covered(queue, depth, finished + {cur.0})
    requires Finished(links, bound, depth, finished, cur.1)
    requires cur.1 < bound ==> Followed(links, depth, cur.0)
    ensures Searching(links, start, bound, queue, depth, finished + {cur.0}, cur.1)
  {
  }

  lemma Exact(links: map<string, seq<string>>, start: string, bound: nat, depth: map<string, int>, finished: set<string>, low: int)
    requires Searching(links, start, bound, [], depth, finished, low)
    ensures depth.Keys == Within(links, start, bound)
  {
    assert Finished(links, bound, depth, depth.Keys, low);
    forall v | v in Within(links, start, bound) ensures v in depth {
      Complete(links, start, bound, depth, low, bound, v);
    }
    forall v | v in depth ensures v in Within(links, start, bound) {
      assert Reached(links, start, depth, v);
      WithinGrows(links, start, depth[v], bound);
    }
  }

  lemma Dequeued(queue: seq<(string, int)>, depth: map<string, int>, finished: set<string>, low: int, links: map<string, seq<string>>, bound: int)
    requires queue != [] && Queued(queue, depth, low) && Covered(queue, depth, finished)
    requires Finished(links, bound, depth, finished, low)
    ensures Queued(queue[1..], depth, queue[0].1) && Covered(queue[1..], depth, finished + {queue[0].0})
    ensures Finished(links, bound, depth, finished, queue[0].1)
  {
    forall v | v in depth && v !in finished + {queue[0].0} ensures exists i :: 0 <= i < |queue[1..]| && queue[1..][i].0 == v {
      var i :| 0 <= i < |queue| && queue[i].0 == v;
      assert queue[1..][i - 1].0 == v;
    }
  }

  // ----- symmetry

  ghost predicate LinkedTo(links: map<string, seq<string>>, a: string, b: string) {
    b in Links(links, a)
  }

  ghost predicate Symmetric(links: map<string, seq<string>>) {
    forall a, b :: LinkedTo(links, a, b) ==> LinkedTo(links, b, a)
  }

  /** Distance can be counted from either end. */
  lemma {:induction false} WithinPrepend(links: map<string, seq<string>>, a: string, b: string, v: string, d: int)
    requires 0 <= d && b in Links(links, a) && v in Within(links, b, d)
    ensures v in Within(links, a, d + 1)
    decreases d
  {
    if d <= 0 {
      WithinStep(links, a, 0, a, b);

    } else if v in Within(links, b, d - 1) {
      WithinPrepend(links, a, b, v, d - 1);
    } else {
      var u :| u in Within(links, b, d - 1) && v in Links(links, u);
      WithinPrepend(links, a, b, u, d - 1);
    }
  }

  /** With symmetric links, b is in a's trace exactly when a is in b's. */
  lemma {:induction false} TraceSymmetric(links: map<string, seq<string>>, a: string, b: string, d: int)
    requires Symmetric(links) && 0 <= d && b in Within(links, a, d)
    ensures a in Within(links, b, d)
    decreases d
  {
    if d > 0 {
      if b in Within(links, a, d - 1) {
        TraceSymmetric(links, a, b, d - 1);
        WithinGrows(links, b, d - 1, d);
      } else {
        var u :| u in Within(links, a, d - 1) && b in Links(links, u);
        TraceSymmetric(links, a, u, d - 1);
        assert LinkedTo(links, u, b);
        WithinPrepend(links, b, u, a, d - 1);
      }
    }
  }
}
