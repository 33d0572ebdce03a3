/** Topic segmentation of chat memory (core/context_segmentation.go:39-314): a
    stream of items cut into segments per scope, and links between sealed segments. */
module Segments {
  import opened Seqs
  import opened Sorting
  import opened Traces
  import Calendar

  const SEAL_THRESHOLD := 0.05
  const LINK_THRESHOLD := 0.75
  const MAX_ITEMS := 50
  const LINK_WINDOW := 20
  const DEFAULT_DEPTH := 3

  datatype Segment = Segment(id: string, scope: string, itemIDs: seq<string>, itemCount: nat, start: int, end: int, isSealed: bool, summary: string)

  // ----- what is conserved

  /** The items of the sealed segments of a scope, in sealing order. */
  ghost function SealedItems(segs: seq<Segment>, scope: string): (r: seq<string>) {
    if segs == [] then []
    else
      var n := |segs| - 1;
      SealedItems(segs[..n], scope) + (if segs[n].scope == scope then segs[n].itemIDs else [])
  }

  ghost function ActiveItems(active: map<string, Segment>, scope: string): (r: seq<string>) {
    if scope in active then active[scope].itemIDs else []
  }

  ghost function Stream(sealed: seq<Segment>, active: map<string, Segment>, scope: string): (r: seq<string>) {
    SealedItems(sealed, scope) + ActiveItems(active, scope)
  }

  predicate SegmentOk(seg: Segment) {
    1 <= |seg.itemIDs| <= MAX_ITEMS && seg.itemCount == |seg.itemIDs|
  }

  lemma SealedSnoc(segs: seq<Segment>, seg: Segment, scope: string)
    ensures SealedItems(segs + [seg], scope) == SealedItems(segs, scope) + (if seg.scope == scope then seg.itemIDs else [])
  {
    assert (segs + [seg])[..|segs|] == segs;
  }

  ghost function AddedTo(added: map<string, seq<string>>, scope: string): (r: seq<string>) {
    if scope in added then added[scope] else []
  }

  /** Every scope's segments hold exactly the items added to it, in order. */
  ghost predicate Conserved(sealed: seq<Segment>, active: map<string, Segment>, added: map<string, seq<string>>) {
    forall sc :: Stream(sealed, active, sc) == AddedTo(added, sc)
  }

  lemma ExtendStream(sealed: seq<Segment>, active: map<string, Segment>, scope: string, seg: Segment, node: string, sc: string)
    requires seg.itemIDs == ActiveItems(active, scope) + [node]
    ensures Stream(sealed, active[scope := seg], sc) == Stream(sealed, active, sc) + if sc == scope then [node] else []
  {
    if sc == scope {
      assert ActiveItems(active[scope := seg], sc) == ActiveItems(active, sc) + [node];
    } else {
      assert ActiveItems(active[scope := seg], sc) == ActiveItems(active, sc);
      assert Stream(sealed, active, sc) + [] == Stream(sealed, active, sc);
    }
  }

  lemma ExtendConserved(sealed: seq<Segment>, active: map<string, Segment>, added: map<string, seq<string>>, scope: string, seg: Segment, node: string)
    requires seg.itemIDs == ActiveItems(active, scope) + [node]
    requires Conserved(sealed, active, added)
    ensures Conserved(sealed, active[scope := seg], added[scope := AddedTo(added, scope) + [node]])
  {
    var added' := added[scope := AddedTo(added, scope) + [node]];
    forall sc ensures Stream(sealed, active[scope := seg], sc) == AddedTo(added', sc) {
      ExtendStream(sealed, active, scope, seg, node, sc);
      assert Stream(sealed, active, sc) == AddedTo(added, sc);
    }
  }

  lemma SealStream(sealed: seq<Segment>, active: map<string, Segment>, scope: string, seg: Segment, sc: string)
    requires scope in active && seg.scope == scope && seg.itemIDs == active[scope].itemIDs
    ensures Stream(sealed + [seg], active - {scope}, sc) == Stream(sealed, active, sc)
  {
    SealedSnoc(sealed, seg, sc);
    ActiveWithout(active, scope, sc);
    var s := SealedItems(sealed, sc);
    if sc == scope {
      NothingAfter(s + seg.itemIDs);
    } else {
      NothingAfter(s);
    }
  }

  lemma NothingAfter(s: seq<string>)
    ensures s + [] == s
  {
  }

  lemma ActiveWithout(active: map<string, Segment>, scope: string, sc: string)
    ensures ActiveItems(active - {scope}, sc) == if sc == scope then [] else ActiveItems(active, sc)
  {
  }

  /** Moving the active segment of a scope to the sealed list keeps every stream. */
  lemma SealConserved(sealed: seq<Segment>, active: map<string, Segment>, added: map<string, seq<string>>, scope: string, seg: Segment)
    requires scope in active && seg.scope == scope && seg.itemIDs == active[scope].itemIDs
    requires Conserved(sealed, active, added)
    ensures Conserved(sealed + [seg], active - {scope}, added)
  {
    forall sc ensures Stream(sealed + [seg], active - {scope}, sc) == AddedTo(added, sc) {
      SealStream(sealed, active, scope, seg, sc);
    }
  }

  /** A dropped segment takes its items off the end of its scope's stream and off no other. */
  lemma DropStream(sealed: seq<Segment>, active: map<string, Segment>, scope: string, sc: string)
    requires scope in active
    ensures Stream(sealed, active, sc) == Stream(sealed, active - {scope}, sc) + if sc == scope then active[scope].itemIDs else []
  {
    ActiveWithout(active, scope, sc);
    NothingAfter(SealedItems(sealed, sc));
    NothingAfter(Stream(sealed, active, sc));
  }

  // ----- links

  /** How often `b` is linked from `a`. */
  function Count(links: map<string, seq<string>>, a: string, b: string): (n: nat) {
    multiset(Links(links, a))[b]
  }

  /** Links come in pairs, with multiplicity. */
  ghost predicate Paired(links: map<string, seq<string>>) {
    forall a, b :: Count(links, a, b) == Count(links, b, a)
  }

  function AddLink(links: map<string, seq<string>>, a: string, b: string): (r: map<string, seq<string>>) {
    links[a := Links(links, a) + [b]]
  }

  lemma AddLinkCount(links: map<string, seq<string>>, a: string, b: string, x: string, y: string)
    ensures Count(AddLink(links, a, b), x, y) == Count(links, x, y) + (if x == a && y == b then 1 else 0)
  {
  }

  lemma PairedSymmetric(links: map<string, seq<string>>)
    requires Paired(links)
    ensures Symmetric(links)
  {
    forall a, b | LinkedTo(links, a, b) ensures LinkedTo(links, b, a) {
      assert b in multiset(Links(links, a));
      assert Count(links, a, b) == Count(links, b, a);
      assert a in multiset(Links(links, b));
    }
  }

  /** The links after pairing `seg` with each similar segment among `others`. */
  function LinkedUp(links: map<string, seq<string>>, seg: Segment, others: seq<Segment>, affinity: (Segment, Segment) -> real): (r: map<string, seq<string>>) {
    if others == [] then links
    else
      var n := |others| - 1;
      var r := LinkedUp(links, seg, others[..n], affinity);
      if others[n].id != seg.id && affinity(seg, others[n]) >= 0.75
      then AddLink(AddLink(r, seg.id, others[n].id), others[n].id, seg.id) else r
  }

  /** The similar segments called `id`, other than the segment itself. */
  function SimilarCalled(seg: Segment, others: seq<Segment>, affinity: (Segment, Segment) -> real, id: string): (r: seq<Segment>) {
    Filter(others, (o: Segment) => o.id == id && o.id != seg.id && affinity(seg, o) >= 0.75)
  }

  /** Linking adds one link each way per similar segment, and no other. */
  lemma {:induction false} LinkedUpCount(links: map<string, seq<string>>, seg: Segment, others: seq<Segment>, affinity: (Segment, Segment) -> real, x: string, y: string)
    ensures Count(LinkedUp(links, seg, others, affinity), x, y) == Count(links, x, y)
      + (if x == seg.id then |SimilarCalled(seg, others, affinity, y)| else if y == seg.id then |SimilarCalled(seg, others, affinity, x)| else 0)
    decreases |others|
  {
    if others != [] {
      var n := |others| - 1;
      var o, r := others[n], LinkedUp(links, seg, others[..n], affinity);
      LinkedUpCount(links, seg, others[..n], affinity, x, y);
      AddLinkCount(r, seg.id, o.id, x, y);
      AddLinkCount(AddLink(r, seg.id, o.id), o.id, seg.id, x, y);
    }
  }

  lemma LinkedUpPaired(links: map<string, seq<string>>, seg: Segment, others: seq<Segment>, affinity: (Segment, Segment) -> real)
    requires Paired(links)
    ensures Paired(LinkedUp(links, seg, others, affinity))
  {
    var r := LinkedUp(links, seg, others, affinity);
    forall a, b ensures Count(r, a, b) == Count(r, b, a) {
      LinkedUpCount(links, seg, others, affinity, a, b);
      LinkedUpCount(links, seg, others, affinity, b, a);
      assert Count(links, a, b) == Count(links, b, a);
    }
  }

  /** The last twenty sealed segments. */
  function Window(sealed: seq<Segment>): (r: seq<Segment>) {
    if |sealed| > 20 then sealed[|sealed| - 20..] else sealed
  }

  /** What every operation keeps. */
  ghost predicate Good(active: map<string, Segment>, sealed: seq<Segment>, links: map<string, seq<string>>, added: map<string, seq<string>>, dropped: bool) {
    && (forall sc :: sc in active ==> active[sc].scope == sc && SegmentOk(active[sc]) && !active[sc].isSealed)
    && (forall i :: 0 <= i < |sealed| ==> SegmentOk(sealed[i]) && sealed[i].isSealed)
    && Paired(links)
    && (!dropped ==> Conserved(sealed, active, added))
  }

  lemma SealGood(active: map<string, Segment>, sealed: seq<Segment>, links: map<string, seq<string>>, added: map<string, seq<string>>, dropped: bool,
                 scope: string, seg: Segment, affinity: (Segment, Segment) -> real)
    requires Good(active, sealed, links, added, dropped) && scope in active
    requires seg.scope == scope && seg.itemIDs == active[scope].itemIDs && seg.itemCount == active[scope].itemCount && seg.isSealed
    ensures Good(active - {scope}, sealed + [seg], LinkedUp(links, seg, Window(sealed + [seg]), affinity), added, dropped)
  {
    LinkedUpPaired(links, seg, Window(sealed + [seg]), affinity);
    if !dropped { SealConserved(sealed, active, added, scope, seg); }
  }

  lemma ExtendGood(active: map<string, Segment>, sealed: seq<Segment>, links: map<string, seq<string>>, added: map<string, seq<string>>, dropped: bool,
                   scope: string, seg: Segment, node: string)
    requires Good(active, sealed, links, added, dropped)
    requires seg.scope == scope && SegmentOk(seg) && !seg.isSealed && seg.itemIDs == ActiveItems(active, scope) + [node]
    ensures Good(active[scope := seg], sealed, links, added[scope := AddedTo(added, scope) + [node]], dropped)
  {
    if !dropped { ExtendConserved(sealed, active, added, scope, seg, node); }
  }

  /** A time, in minutes, whose year has four digits. */
  predicate TimeEncodes(t: int) {
    0 <= Calendar.YearOf(t / Calendar.DAY) <= 9999
  }

  class SegmentManager {
    var active: map<string, Segment>
    var sealed: seq<Segment>
    var links: map<string, seq<string>>
    /** Whether a file for sealed segments is configured. */
    const hasFile: bool
    /** The similarity of two sealed segments, whichever measure is in use. */
    const affinity: (Segment, Segment) -> real
    const summarize: Segment -> string
    /** The items ever added, per scope, and whether a segment was dropped on sealing. */
    ghost var added: map<string, seq<string>>
    ghost var dropped: bool

    ghost predicate Valid()
      reads this
    {
      Good(active, sealed, links, added, dropped)
    }

    constructor (file: bool, aff: (Segment, Segment) -> real, sum: Segment -> string)
      ensures Valid() && active == map[] && sealed == [] && links == map[] && added == map[] && !dropped
    {
      active, sealed, links := map[], [], map[];
      hasFile, affinity, summarize := file, aff, sum;
      added, dropped := map[], false;
    }

    /** Adds the item to the open segment of its scope, or seals that one (when it is
        full or too different) and opens another; `stamp` is the time of the item and `now`
        the clock. */
    method AddItem(node: string, scope: string, similarity: Segment -> real, newID: string, stamp: int, now: int) returns (seg: Segment)
      requires Valid()
      modifies this
      ensures Valid() && scope in active && seg == active[scope]
      ensures added == old(added)[scope := AddedTo(old(added), scope) + [node]]
      ensures var cut := scope in old(active) &&
          (|old(active)[scope].itemIDs| >= 50 || similarity(old(active)[scope]) < 0.05);
        && (cut || scope !in old(active) ==> seg == Segment(newID, scope, [node], 1, stamp, stamp, false, ""))
        && (scope in old(active) && !cut ==>
              seg == old(active)[scope].(itemIDs := old(active)[scope].itemIDs + [node], itemCount := old(active)[scope].itemCount + 1, end := stamp))
        && (cut ==> dropped == (old(dropped) || !Encodes(old(active)[scope], now)))
        && sealed == (if cut then AfterSealing(old(sealed), old(active)[scope], now) else old(sealed))
        && links == (if cut then AfterLinking(old(sealed), old(links), old(active)[scope], now) else old(links))
        && (!cut ==> dropped == old(dropped))
        && active.Keys == old(active).Keys + {scope}
        && (forall sc :: sc != scope && sc in active ==> active[sc] == old(active)[sc])
    {
      if scope !in active || |active[scope].itemIDs| >= MAX_ITEMS || similarity(active[scope]) < SEAL_THRESHOLD {
        if scope in active {
          SealSegment(scope, now);
        }
        seg := Segment(newID, scope, [node], 1, stamp, stamp, false, "");
      } else {
        seg := active[scope].(itemIDs := active[scope].itemIDs + [node], itemCount := active[scope].itemCount + 1, end := stamp);
      }
      ExtendGood(active, sealed, links, added, dropped, scope, seg, node);
      active := active[scope := seg];
      added := added[scope := AddedTo(added, scope) + [node]];
    }

    method SealActive(scope: string, now: int)
      requires Valid()
      modifies this
      ensures Valid() && added == old(added)
      ensures active == old(active) - {scope}
      ensures scope in old(active) ==> dropped == (old(dropped) || !Encodes(old(active)[scope], now))
      ensures scope !in old(active) ==> dropped == old(dropped)
      ensures sealed == if scope in old(active) then AfterSealing(old(sealed), old(active)[scope], now) else old(sealed)
      ensures links == if scope in old(active) then AfterLinking(old(sealed), old(links), old(active)[scope], now) else old(links)
    {
      if scope in active {
        SealSegment(scope, now);
      }
    }

    /** The end time is the clock at sealing. */
    function Sealed(seg: Segment, now: int): (r: Segment) {
      var s := seg.(isSealed := true, end := now);
      s.(summary := summarize(s))
    }

    /** JSON encodes no time outside the years 0 to 9999; without a file nothing is encoded. */
    predicate Encodes(seg: Segment, now: int) {
      !hasFile || (TimeEncodes(Sealed(seg, now).start) && TimeEncodes(Sealed(seg, now).end))
    }

    function AfterSealing(segs: seq<Segment>, seg: Segment, now: int): (r: seq<Segment>) {
      if Encodes(seg, now) then segs + [Sealed(seg, now)] else segs
    }

    function AfterLinking(segs: seq<Segment>, ls: map<string, seq<string>>, seg: Segment, now: int): (r: map<string, seq<string>>) {
      if Encodes(seg, now) then LinkedUp(ls, Sealed(seg, now), Window(segs + [Sealed(seg, now)]), affinity) else ls
    }

    /** The segment as it is sealed, and whether it can be written. */
    method Closed(open: Segment, now: int) returns (seg: Segment, written: bool)
      ensures seg == Sealed(open, now) && written == Encodes(open, now)
    {
      seg := open.(isSealed := true, end := now);
      seg := seg.(summary := summarize(seg));
      written := !hasFile || (TimeEncodes(seg.start) && TimeEncodes(seg.end));
    }

    /** Moves the open segment of a scope to the sealed list and links it; a segment
        that cannot be encoded is dropped instead. */
    method SealSegment(scope: string, now: int)
      requires Valid() && scope in active
      modifies this
      ensures Valid() && added == old(added) && active == old(active) - {scope}
      ensures dropped == (old(dropped) || !Encodes(old(active)[scope], now))
      ensures sealed == AfterSealing(old(sealed), old(active)[scope], now)
      ensures links == AfterLinking(old(sealed), old(links), old(active)[scope], now)
      ensures !old(dropped) ==> (Conserved(sealed, active, added) <==> Encodes(old(active)[scope], now))
    {
      if !dropped { SealConservesIff(this, sealed, active, added, scope, now); }
      var seg, written := Closed(active[scope], now);
      if !written {
        active, dropped := active - {scope}, true;
        return;
      }
      SealGood(active, sealed, links, added, dropped, scope, seg, affinity);
      sealed := sealed + [seg];
      active := active - {scope};
      LinkSealed(seg);
    }

    /** Links a newly sealed segment with the similar ones among the last twenty. */
    method LinkSealed(seg: Segment)
      modifies this`links
      ensures links == LinkedUp(old(links), seg, Window(sealed), affinity)
    {
      var start := if |sealed| > LINK_WINDOW then |sealed| - LINK_WINDOW else 0;
      ghost var window := Window(sealed);
      for i := start to |sealed|
        invariant links == LinkedUp(old(links), seg, window[..i - start], affinity)
      {
        var other := sealed[i];
        assert window[..i + 1 - start][..i - start] == window[..i - start] && window[i - start] == other;
        if other.id == seg.id {
          continue;
        }
        if affinity(seg, other) >= LINK_THRESHOLD {
          links := AddLink(AddLink(links, seg.id, other.id), other.id, seg.id);
        }
      }
      assert window[..|window|] == window;
    }

    /** The sealed segments at link distance at most the given depth (three by default),
        each as often as it was sealed, in order of start time. */
    method FollowTrace(segmentID: string, maxDepth: int) returns (trace: seq<Segment>)
      ensures var reach := Within(links, segmentID, if maxDepth <= 0 then 3 else maxDepth);
        multiset(trace) == multiset(Filter(sealed, (s: Segment) => s.id in reach))
      ensures SortedBy(trace, (s: Segment) => s.start as real)
    {
      var depth := if maxDepth <= 0 then DEFAULT_DEPTH else maxDepth;
      var visited := Visit(links, segmentID, depth);
      var found: seq<Segment> := [];
      for i := 0 to |sealed|
        invariant found == Filter(sealed[..i], (s: Segment) => s.id in visited)
      {
        assert sealed[..i + 1] == sealed[..i] + [sealed[i]];
        FilterSnoc(sealed[..i], sealed[i], (s: Segment) => s.id in visited);
        if sealed[i].id in visited {
          found := found + [sealed[i]];
        }
      }
      assert sealed[..|sealed|] == sealed;
      trace := SortBy(found, (s: Segment) => s.start as real);
    }
  }

  /** Sealing keeps the streams if and only if the segment encodes; otherwise its scope's stream
      loses exactly the items of the segment, from its end, and the others stay. */
  lemma SealConservesIff(m: SegmentManager, sealed: seq<Segment>, active: map<string, Segment>, added: map<string, seq<string>>, scope: string, now: int)
    requires scope in active && active[scope].scope == scope && SegmentOk(active[scope]) && Conserved(sealed, active, added)
    ensures Conserved(m.AfterSealing(sealed, active[scope], now), active - {scope}, added) <==> m.Encodes(active[scope], now)
    ensures !m.Encodes(active[scope], now) ==> forall sc ::
      AddedTo(added, sc) == Stream(m.AfterSealing(sealed, active[scope], now), active - {scope}, sc) + if sc == scope then active[scope].itemIDs else []
  {
    if m.Encodes(active[scope], now) {
      SealConserved(sealed, active, added, scope, m.Sealed(active[scope], now));
    } else {
      forall sc ensures AddedTo(added, sc) == Stream(sealed, active - {scope}, sc) + if sc == scope then active[scope].itemIDs else [] {
        DropStream(sealed, active, scope, sc);
        assert Stream(sealed, active, sc) == AddedTo(added, sc);
      }
      var s := Stream(sealed, active - {scope}, scope);
      assert |s + active[scope].itemIDs| > |s|;
      assert Stream(sealed, active - {scope}, scope) != AddedTo(added, scope);
    }
  }

  /** With a sealed file, and only then, sealing drops a segment if and only if the year of its start
      or of the clock is outside 0 to 9999. */
  lemma DroppedIff(m: SegmentManager, sealed: seq<Segment>, seg: Segment, now: int)
    ensures m.AfterSealing(sealed, seg, now) == sealed <==> m.hasFile && !(TimeEncodes(seg.start) && TimeEncodes(now))
  {
    assert |sealed + [m.Sealed(seg, now)]| != |sealed|;
  }

  /** A segment that encodes is sealed last, under its id, with its items and start, and ends now. */
  lemma SealedLast(m: SegmentManager, sealed: seq<Segment>, seg: Segment, now: int)
    requires m.Encodes(seg, now)
    ensures m.AfterSealing(sealed, seg, now) == sealed + [Segment(seg.id, seg.scope, seg.itemIDs, seg.itemCount, seg.start, now, true,
                                                                 m.summarize(seg.(isSealed := true, end := now)))]
  {
  }

  /** What sealing does to the links: none of a dropped segment; otherwise, each way, one more for
      every similar segment of that id among the last twenty sealed, itself not counted. */
  lemma SealLinks(m: SegmentManager, segs: seq<Segment>, ls: map<string, seq<string>>, seg: Segment, now: int, x: string, y: string)
    ensures !m.Encodes(seg, now) ==> m.AfterLinking(segs, ls, seg, now) == ls
    ensures m.Encodes(seg, now) ==>
      var all := m.AfterSealing(segs, seg, now);
      var last := if |all| > 20 then all[|all| - 20..] else all;
      Count(m.AfterLinking(segs, ls, seg, now), x, y) == Count(ls, x, y)
        + if x == seg.id then |SimilarCalled(m.Sealed(seg, now), last, m.affinity, y)|
          else if y == seg.id then |SimilarCalled(m.Sealed(seg, now), last, m.affinity, x)| else 0
  {
    if m.Encodes(seg, now) {
      LinkedUpCount(ls, m.Sealed(seg, now), Window(segs + [m.Sealed(seg, now)]), m.affinity, x, y);
    }
  }

  /** The times that encode: from the start of the year 0 to the end of the year 9999. */
  lemma TimeEncodesIff(t: int)
    ensures TimeEncodes(t) <==> Calendar.DaysBeforeYear(0) * Calendar.DAY <= t < Calendar.DaysBeforeYear(10_000) * Calendar.DAY
  {
    var n := t / Calendar.DAY;
    YearsBetween(n, Calendar.YearOf(n));
  }

  lemma YearsBetween(n: int, y: int)
    requires Calendar.DaysBeforeYear(y) <= n < Calendar.DaysBeforeYear(y + 1)
    ensures y < 0 ==> n < Calendar.DaysBeforeYear(0)
    ensures y >= 0 ==> n >= Calendar.DaysBeforeYear(0)
    ensures y < 10_000 ==> n < Calendar.DaysBeforeYear(10_000)
    ensures y >= 10_000 ==> n >= Calendar.DaysBeforeYear(10_000)
  {
    Calendar.YearLength(0);
    Calendar.YearLength(10_000);
    if y < 0 { Calendar.YearsOrdered(y, 0); }
    if y > 0 { Calendar.YearsOrdered(0, y); }
    if y < 10_000 { Calendar.YearsOrdered(y, 10_000); }
    if y > 10_000 { Calendar.YearsOrdered(10_000, y); }
  }

  /** A segment that starts with the year 10000 is such a one. */
  lemma YearTenThousand(m: SegmentManager, sealed: seq<Segment>, seg: Segment, now: int)
    requires m.hasFile && seg.start == Calendar.DaysBeforeYear(10_000) * Calendar.DAY
    ensures m.AfterSealing(sealed, seg, now) == sealed
  {
    var n := Calendar.DaysBeforeYear(10_000);
    assert seg.start / Calendar.DAY == n;
    Calendar.YearLength(10_000);
    Calendar.YearUnique(n, 10_000);
    DroppedIff(m, sealed, seg, now);
  }

  /** Linking in pairs makes traces mutual: b is within reach of a exactly when a is of b. */
  lemma TraceMutual(links: map<string, seq<string>>, a: string, b: string, depth: nat)
    requires Paired(links)
    ensures b in Within(links, a, depth) <==> a in Within(links, b, depth)
  {
    PairedSymmetric(links);
    if b in Within(links, a, depth) { TraceSymmetric(links, a, b, depth); }
    if a in Within(links, b, depth) { TraceSymmetric(links, b, a, depth); }
  }
}
