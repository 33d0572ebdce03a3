/** Incremental folding of sealed segments (core/fold_engine.go:41-247): per scope,
    new sealed segments become tier-1 blocks, and ten of those merge into a tier-2 block. */
module Folds {
  import opened Seqs
  import opened Sorting
  import opened Segments

  const TIER2_TRIGGER := 10
  const CHARS_PER_TOKEN := 4

  datatype FoldBlock = FoldBlock(segmentID: string, itemIDs: seq<string>, tier: int, createdAt: int)
  datatype FoldState = FoldState(blocks: seq<FoldBlock>, baseline: nat)

  // ----- what the blocks cover

  ghost function Covered(blocks: seq<FoldBlock>): (s: set<string>) {
    set b, id | b in blocks && id in b.itemIDs :: id
  }

  ghost function ItemsOf(segs: seq<Segment>): (s: set<string>) {
    set g, id | g in segs && id in g.itemIDs :: id
  }

  lemma CoveredConcat(a: seq<FoldBlock>, b: seq<FoldBlock>)
    ensures Covered(a + b) == Covered(a) + Covered(b)
  {
    forall id | id in Covered(a + b) ensures id in Covered(a) + Covered(b) {
      var x :| x in a + b && id in x.itemIDs;
      assert x in a || x in b;
    }
  }

  lemma ItemsSnoc(segs: seq<Segment>, g: Segment)
    ensures ItemsOf(segs + [g]) == ItemsOf(segs) + (set id | id in g.itemIDs)
  {
    forall id | id in ItemsOf(segs + [g]) ensures id in ItemsOf(segs) + (set id | id in g.itemIDs) {
      var x :| x in segs + [g] && id in x.itemIDs;
      assert x in segs || x == g;
    }
    assert g in segs + [g];
  }

  lemma CoveredMembers(a: seq<FoldBlock>, b: seq<FoldBlock>)
    requires multiset(a) == multiset(b)
    ensures Covered(a) == Covered(b)
  {
    PermutedMembers(a, b);
  }

  ghost predicate NoDuplicates(s: seq<string>) {
    forall i, j :: 0 <= i < j < |s| ==> s[i] != s[j]
  }

  // ----- tier-2 merge

  /** One block with the distinct item ids of the given blocks. */
  method MergeItems(toMerge: seq<FoldBlock>) returns (ids: seq<string>)
    ensures NoDuplicates(ids) && (set id | id in ids) == Covered(toMerge)
  {
    ids := [];
    var seen: set<string> := {};
    for i := 0 to |toMerge|
      invariant NoDuplicates(ids) && seen == (set id | id in ids)
      invariant seen == Covered(toMerge[..i])
    {
      var items := toMerge[i].itemIDs;
      assert toMerge[..i + 1] == toMerge[..i] + [toMerge[i]];
      CoveredConcat(toMerge[..i], [toMerge[i]]);
      CoveredOne(toMerge[i]);
      ghost var before := seen;
      for j := 0 to |items|
        invariant NoDuplicates(ids) && seen == (set id | id in ids)
        invariant seen == before + (set id | id in items[..j])
      {
        assert items[..j + 1] == items[..j] + [items[j]];
        if items[j] !in seen {
          ids := ids + [items[j]];
          seen := seen + {items[j]};
        }
      }
      assert items[..|items|] == items;
    }
    assert toMerge[..|toMerge|] == toMerge;
  }

  lemma CoveredOne(b: FoldBlock)
    ensures Covered([b]) == set id | id in b.itemIDs
  {
    assert b in [b];
  }

  /** What one merge does: the ten oldest tier-1 blocks become one duplicate-free tier-2
      block; every other block stays. */
  ghost predicate MergedInto(before: seq<FoldBlock>, after: seq<FoldBlock>, oldest: seq<FoldBlock>, rest: seq<FoldBlock>, block: FoldBlock) {
    && |oldest| == TIER2_TRIGGER && multiset(oldest + rest) == multiset(TierOne(before))
    && (forall a, b :: a in oldest && b in rest ==> a.createdAt <= b.createdAt)
    && block.tier == 2 && block.segmentID == "" && NoDuplicates(block.itemIDs)
    && (set id | id in block.itemIDs) == Covered(oldest)
    && after == TierTwo(before) + [block] + rest
  }

  ghost predicate Merged(before: seq<FoldBlock>, after: seq<FoldBlock>) {
    exists oldest, rest, block :: MergedInto(before, after, oldest, rest, block)
  }

  function TierOne(blocks: seq<FoldBlock>): (r: seq<FoldBlock>) {
    Filter(blocks, (b: FoldBlock) => b.tier == 1)
  }

  function TierTwo(blocks: seq<FoldBlock>): (r: seq<FoldBlock>) {
    Filter(blocks, (b: FoldBlock) => b.tier != 1)
  }

  method Tier2Merge(blocks: seq<FoldBlock>, now: int) returns (r: seq<FoldBlock>)
    ensures |TierOne(blocks)| < TIER2_TRIGGER ==> r == blocks
    ensures |TierOne(blocks)| >= TIER2_TRIGGER ==> Merged(blocks, r)
  {
    var tier1, tier2 := [], [];
    for i := 0 to |blocks|
      invariant tier1 == TierOne(blocks[..i]) && tier2 == TierTwo(blocks[..i])
    {
      var b := blocks[i];
      assert blocks[..i + 1] == blocks[..i] + [b];
      FilterSnoc(blocks[..i], b, (b: FoldBlock) => b.tier == 1);
      FilterSnoc(blocks[..i], b, (b: FoldBlock) => b.tier != 1);
      if b.tier == 1 {
        tier1 := tier1 + [b];
      } else {
        tier2 := tier2 + [b];
      }
    }
    assert blocks[..|blocks|] == blocks;
    if |tier1| < TIER2_TRIGGER {
      return blocks;
    }
    var key := (b: FoldBlock) => b.createdAt as real;
    var sorted := SortBy(tier1, key);
    PermutedLength(sorted, tier1);
    var oldest, rest := sorted[..TIER2_TRIGGER], sorted[TIER2_TRIGGER..];
    OldestFirst(sorted);
    var ids := MergeItems(oldest);
    var block := FoldBlock("", ids, 2, now);
    r := tier2 + [block] + rest;
    assert oldest + rest == sorted;
    assert MergedInto(blocks, r, oldest, rest, block);
  }

  lemma OldestFirst(sorted: seq<FoldBlock>)
    requires SortedBy(sorted, (b: FoldBlock) => b.createdAt as real) && |sorted| >= TIER2_TRIGGER
    ensures forall a, b :: a in sorted[..TIER2_TRIGGER] && b in sorted[TIER2_TRIGGER..] ==> a.createdAt <= b.createdAt
  {
    var key := (b: FoldBlock) => b.createdAt as real;
    forall a, b | a in sorted[..TIER2_TRIGGER] && b in sorted[TIER2_TRIGGER..] ensures a.createdAt <= b.createdAt {
      var i :| 0 <= i < TIER2_TRIGGER && sorted[i] == a;
      var j :| TIER2_TRIGGER <= j < |sorted| && sorted[j] == b;
      assert key(sorted[i]) <= key(sorted[j]);
    }
  }

  lemma MergeCovers(before: seq<FoldBlock>, after: seq<FoldBlock>, oldest: seq<FoldBlock>, rest: seq<FoldBlock>, block: FoldBlock)
    requires MergedInto(before, after, oldest, rest, block)
    ensures Covered(after) == Covered(TierTwo(before)) + Covered(oldest) + Covered(rest)
    ensures Covered(oldest) + Covered(rest) == Covered(TierOne(before))
  {
    CoveredConcat(TierTwo(before) + [block], rest);
    CoveredConcat(TierTwo(before), [block]);
    CoveredOne(block);
    CoveredConcat(oldest, rest);
    CoveredMembers(oldest + rest, TierOne(before));
  }

  /** A merge covers the same items and leaves nine blocks fewer. */
  lemma MergeKeeps(before: seq<FoldBlock>, after: seq<FoldBlock>)
    requires Merged(before, after)
    ensures Covered(after) == Covered(before) && |after| == |before| - 9
  {
    var oldest, rest, block :| MergedInto(before, after, oldest, rest, block);
    TiersPartition(before);
    assert Covered(after) == Covered(before) by { MergeCovers(before, after, oldest, rest, block); }
    PermutedLength(oldest + rest, TierOne(before));
  }

  lemma {:induction false} TiersPartition(blocks: seq<FoldBlock>)
    ensures Covered(blocks) == Covered(TierOne(blocks)) + Covered(TierTwo(blocks))
    ensures |TierOne(blocks)| + |TierTwo(blocks)| == |blocks|
    decreases |blocks|
  {
    FilterMembers(blocks, (b: FoldBlock) => b.tier == 1);
    FilterMembers(blocks, (b: FoldBlock) => b.tier != 1);
    if blocks != [] { TiersPartition(blocks[..|blocks| - 1]); }
  }

  /** Decompress finds a folded segment by its id. */
  predicate Findable(blocks: seq<FoldBlock>, segmentID: string) {
    exists b :: b in blocks && b.segmentID == segmentID
  }

  lemma FoundAfter(before: seq<FoldBlock>, after: seq<FoldBlock>, oldest: seq<FoldBlock>, rest: seq<FoldBlock>, block: FoldBlock, b: FoldBlock)
    requires MergedInto(before, after, oldest, rest, block) && b.segmentID != ""
    ensures b in after <==> (b in before && b.tier != 1) || b in rest
  {
    FilterMembers(before, (b: FoldBlock) => b.tier != 1);
    assert b in after <==> b in TierTwo(before) || b == block || b in rest;
  }

  /** No two blocks were created at the same time. */
  ghost predicate DistinctTimes(blocks: seq<FoldBlock>) {
    && (forall x :: x in blocks ==> multiset(blocks)[x] == 1)
    && (forall x, y :: x in blocks && y in blocks && x.createdAt == y.createdAt ==> x == y)
  }

  /** How many tier-1 blocks are older than a time. */
  function OlderThan(blocks: seq<FoldBlock>, time: int): (n: nat) {
    |Filter(TierOne(blocks), (x: FoldBlock) => x.createdAt < time)|
  }

  lemma OlderThanSplit(before: seq<FoldBlock>, oldest: seq<FoldBlock>, rest: seq<FoldBlock>, time: int)
    requires multiset(oldest + rest) == multiset(TierOne(before))
    ensures var older := (x: FoldBlock) => x.createdAt < time;
      OlderThan(before, time) == |Filter(oldest, older)| + |Filter(rest, older)|
  {
    var older := (x: FoldBlock) => x.createdAt < time;
    FilterPermuted(oldest + rest, TierOne(before), older);
    PermutedLength(Filter(oldest + rest, older), Filter(TierOne(before), older));
    FilterConcat(oldest, rest, older);
  }

  /** The ten merged blocks are those with fewer than ten older ones. */
  lemma SparedIff(before: seq<FoldBlock>, after: seq<FoldBlock>, oldest: seq<FoldBlock>, rest: seq<FoldBlock>, block: FoldBlock, b: FoldBlock)
    requires MergedInto(before, after, oldest, rest, block) && DistinctTimes(TierOne(before))
    requires b in TierOne(before)
    ensures b in rest <==> OlderThan(before, b.createdAt) >= TIER2_TRIGGER
  {
    var older := (x: FoldBlock) => x.createdAt < b.createdAt;
    OlderThanSplit(before, oldest, rest, b.createdAt);
    PermutedMembers(oldest + rest, TierOne(before));
    assert b in oldest + rest;
    if b in rest {
      forall j | 0 <= j < |oldest| ensures older(oldest[j]) { NotTwice(before, oldest, rest, oldest[j], b); }
      FilterPrefix(oldest, older, |oldest|);
    } else {
      assert b in oldest && !older(b);
      FilterShorter(oldest, older);
      FilterPrefix(rest, older, 0);
    }
  }

  lemma NotTwice(before: seq<FoldBlock>, oldest: seq<FoldBlock>, rest: seq<FoldBlock>, a: FoldBlock, b: FoldBlock)
    requires multiset(oldest + rest) == multiset(TierOne(before)) && DistinctTimes(TierOne(before)) && a in oldest && b in rest
    ensures a.createdAt != b.createdAt
  {
    PermutedMembers(oldest + rest, TierOne(before));
    assert a in oldest + rest && b in oldest + rest;
    if a == b {
      assert multiset(oldest + rest)[a] == multiset(oldest)[a] + multiset(rest)[a];
    }
  }

  /** After a merge a segment can still be decompressed if and only if one of its blocks was
      of the second tier or had ten older blocks of the first. */
  lemma MergeForgetsIff(before: seq<FoldBlock>, after: seq<FoldBlock>, segmentID: string)
    requires Merged(before, after) && DistinctTimes(TierOne(before)) && segmentID != ""
    ensures Findable(after, segmentID) <==>
      exists b :: b in before && b.segmentID == segmentID && (b.tier != 1 || OlderThan(before, b.createdAt) >= TIER2_TRIGGER)
  {
    var oldest, rest, block :| MergedInto(before, after, oldest, rest, block);
    FilterMembers(before, (b: FoldBlock) => b.tier == 1);
    PermutedMembers(oldest + rest, TierOne(before));
    forall b: FoldBlock | b.segmentID == segmentID
      ensures b in after <==> b in before && (b.tier != 1 || OlderThan(before, b.createdAt) >= TIER2_TRIGGER)
    {
      FoundAfter(before, after, oldest, rest, block, b);
      if b in rest { assert b in oldest + rest; }
      if b in TierOne(before) { SparedIff(before, after, oldest, rest, block, b); }
    }
  }

  // ----- folding

  function EstimateTokens(blocks: seq<string>): (n: nat) {
    if blocks == [] then 0 else EstimateTokens(blocks[..|blocks| - 1]) + |blocks[|blocks| - 1]| / CHARS_PER_TOKEN
  }

  function Chars(blocks: seq<string>): (n: nat) {
    if blocks == [] then 0 else Chars(blocks[..|blocks| - 1]) + |blocks[|blocks| - 1]|
  }

  /** The estimate is a quarter of the characters, rounded down block by block. */
  lemma {:induction false} EstimateBounds(blocks: seq<string>)
    ensures 4 * EstimateTokens(blocks) <= Chars(blocks) <= 4 * EstimateTokens(blocks) + 3 * |blocks|
    decreases |blocks|
  {
    if blocks != [] { EstimateBounds(blocks[..|blocks| - 1]); }
  }

  method EstimateFoldTokens(blocks: seq<string>) returns (total: nat)
    ensures total == EstimateTokens(blocks)
  {
    total := 0;
    for i := 0 to |blocks|
      invariant total == EstimateTokens(blocks[..i])
    {
      assert blocks[..i + 1][..i] == blocks[..i];
      total := total + |blocks[i]| / CHARS_PER_TOKEN;
    }
    assert blocks[..|blocks|] == blocks;
  }

  class FoldEngine {
    var states: map<string, FoldState>
    const segMgr: SegmentManager
    /** The length of the summary text of a list of blocks. */
    const summaryLength: seq<FoldBlock> -> nat

    constructor (mgr: SegmentManager, length: seq<FoldBlock> -> nat)
      ensures states == map[] && segMgr == mgr && Valid()
    {
      states := map[];
      segMgr := mgr;
      summaryLength := length;
    }

    /** In every scope the blocks cover exactly the items of the segments sealed up to
        the baseline: each such segment was folded, and none twice. */
    ghost predicate Valid()
      reads this, segMgr
    {
      forall sc :: sc in states ==> Faithful(states[sc], segMgr.sealed)
    }

    static ghost predicate Faithful(state: FoldState, sealed: seq<Segment>) {
      state.baseline <= |sealed| && Covered(state.blocks) == ItemsOf(sealed[..state.baseline])
    }

    /** Returns whether a summary block is inserted into the prompt. */
    method FoldSealedSegments(blocks: seq<string>, taskScope: string, budgetTokens: int, clock: nat -> int) returns (folded: bool)
      requires Valid()
      modifies this
      ensures Valid()
      ensures forall sc :: sc != taskScope ==> (sc in states <==> sc in old(states)) && (sc in states ==> states[sc] == old(states)[sc])
      ensures var state := if taskScope in old(states) then old(states)[taskScope] else FoldState([], 0);
        && taskScope in states
        && folded == (|segMgr.sealed| > state.baseline && EstimateTokens(blocks) > budgetTokens)
        && (!folded ==> states[taskScope] == state)
        && (folded ==> states[taskScope].baseline == |segMgr.sealed|)
        && (folded ==> FoldedOnce(state, segMgr.sealed, clock, states[taskScope].blocks))
    {
      var state := if taskScope in states then states[taskScope] else FoldState([], 0);
      states := states[taskScope := state];
      var sealedCount := |segMgr.sealed|;
      assert Faithful(state, segMgr.sealed) by {
        if taskScope !in old(states) { assert segMgr.sealed[..0] == []; }
      }
      var totalTokens := EstimateFoldTokens(blocks);
      if sealedCount <= state.baseline || totalTokens <= budgetTokens {
        return false;
      }
      var newSealed := segMgr.sealed[state.baseline..];
      var all := FoldNew(state.blocks, newSealed, blocks, budgetTokens, clock);
      CoverNew(state.blocks, segMgr.sealed, state.baseline, clock, newSealed);
      all := MergeIfMany(all, clock(|newSealed|));
      states := states[taskScope := FoldState(all, sealedCount)];
      assert segMgr.sealed[..sealedCount] == segMgr.sealed;
      return true;
    }

    method MergeIfMany(all: seq<FoldBlock>, now: int) returns (r: seq<FoldBlock>)
      ensures Covered(r) == Covered(all)
      ensures if |all| > TIER2_TRIGGER && |TierOne(all)| >= TIER2_TRIGGER then Merged(all, r) else r == all
    {
      r := all;
      if |all| > TIER2_TRIGGER {
        r := Tier2Merge(all, now);
        if |TierOne(all)| >= TIER2_TRIGGER { MergeKeeps(all, r); }
      }
    }

    /** One tier-1 block per new segment. The test for stopping early compares the whole
        prompt with the budget again, and the prompt has not changed: it never stops. */
    method FoldNew(old0: seq<FoldBlock>, newSealed: seq<Segment>, blocks: seq<string>, budgetTokens: int, clock: nat -> int)
      returns (all: seq<FoldBlock>)
      requires EstimateTokens(blocks) > budgetTokens
      ensures all == WithNew(old0, newSealed, clock)
    {
      all := old0;
      for i := 0 to |newSealed|
        invariant all == WithNew(old0, newSealed[..i], clock)
      {
        assert newSealed[..i + 1][..i] == newSealed[..i];
        all := all + [FoldBlock(newSealed[i].id, newSealed[i].itemIDs, 1, clock(i))];
        var total := EstimateFoldTokens(blocks);
        if summaryLength(all) / CHARS_PER_TOKEN + total <= budgetTokens {
          break;
        }
      }
      assert newSealed[..|newSealed|] == newSealed;
    }
  }

  function WithNew(blocks: seq<FoldBlock>, segs: seq<Segment>, clock: nat -> int): (r: seq<FoldBlock>) {
    if segs == [] then blocks
    else
      var n := |segs| - 1;
      WithNew(blocks, segs[..n], clock) + [FoldBlock(segs[n].id, segs[n].itemIDs, 1, clock(n))]
  }

  /** Every segment sealed since the baseline gets its block; then at most one merge. */
  ghost predicate FoldedOnce(state: FoldState, sealed: seq<Segment>, clock: nat -> int, blocks: seq<FoldBlock>)
    requires state.baseline <= |sealed|
  {
    var all := WithNew(state.blocks, sealed[state.baseline..], clock);
    if |all| > TIER2_TRIGGER && |TierOne(all)| >= TIER2_TRIGGER then Merged(all, blocks) else blocks == all
  }

  lemma {:induction false} CoverNew(blocks: seq<FoldBlock>, sealed: seq<Segment>, baseline: nat, clock: nat -> int, segs: seq<Segment>)
    requires baseline <= |sealed| && segs <= sealed[baseline..]
    requires Covered(blocks) == ItemsOf(sealed[..baseline])
    ensures Covered(WithNew(blocks, segs, clock)) == ItemsOf(sealed[..baseline + |segs|])
    decreases |segs|
  {
    if segs != [] {
      var n := |segs| - 1;
      CoverNew(blocks, sealed, baseline, clock, segs[..n]);
      var b := FoldBlock(segs[n].id, segs[n].itemIDs, 1, clock(n));
      CoveredConcat(WithNew(blocks, segs[..n], clock), [b]);
      CoveredOne(b);
      assert segs[n] == sealed[baseline + n];
      assert sealed[..baseline + n + 1] == sealed[..baseline + n] + [segs[n]];
      ItemsSnoc(sealed[..baseline + n], segs[n]);
    }
  }

  lemma {:induction false} WithNewAt(segs: seq<Segment>, clock: nat -> int, i: nat)
    requires i < |segs|
    ensures |WithNew([], segs, clock)| == |segs|
    ensures WithNew([], segs, clock)[i] == FoldBlock(segs[i].id, segs[i].itemIDs, 1, clock(i))
    decreases |segs|
  {
    var n := |segs| - 1;
    if i < n { WithNewAt(segs[..n], clock, i); } else if n > 0 { WithNewAt(segs[..n], clock, 0); }
  }

  /** First-tier blocks in order of age. */
  ghost predicate Aging(all: seq<FoldBlock>) {
    && (forall i :: 0 <= i < |all| ==> all[i].tier == 1)
    && (forall i, j :: 0 <= i < j < |all| ==> all[i].createdAt < all[j].createdAt)
  }

  lemma {:induction false} OnceOnly(all: seq<FoldBlock>, x: FoldBlock)
    requires Aging(all)
    ensures multiset(all)[x] == if x in all then 1 else 0
    decreases |all|
  {
    if all != [] {
      var n := |all| - 1;
      OnceOnly(all[..n], x);
      assert all == all[..n] + [all[n]];
    }
  }

  lemma AgingTimes(all: seq<FoldBlock>)
    requires Aging(all)
    ensures TierOne(all) == all && DistinctTimes(all)
  {
    FilterPrefix(all, (b: FoldBlock) => b.tier == 1, |all|);
    forall x | x in all ensures multiset(all)[x] == 1 { OnceOnly(all, x); }
  }

  lemma AgingOlder(all: seq<FoldBlock>, i: nat)
    requires Aging(all) && i < |all|
    ensures OlderThan(all, all[i].createdAt) == i
  {
    AgingTimes(all);
    var time := all[i].createdAt;
    forall j | 0 <= j < |all| ensures all[j].createdAt < time <==> j < i {
      if j > i { assert all[i].createdAt < all[j].createdAt; }
    }
    FilterPrefix(all, (x: FoldBlock) => x.createdAt < time, i);
  }

  lemma {:induction false} NewBlocksAge(segs: seq<Segment>, clock: nat -> int)
    requires forall i, j :: 0 <= i < j < |segs| ==> clock(i) < clock(j)
    ensures |WithNew([], segs, clock)| == |segs| && Aging(WithNew([], segs, clock))
    ensures forall i :: 0 <= i < |segs| ==> WithNew([], segs, clock)[i].segmentID == segs[i].id
  {
    var all := WithNew([], segs, clock);
    if segs != [] { WithNewAt(segs, clock, 0); }
    forall i | 0 <= i < |segs| ensures all[i].tier == 1 && all[i].createdAt == clock(i) && all[i].segmentID == segs[i].id {
      WithNewAt(segs, clock, i);
    }
  }

  /** A merge of blocks in order of age forgets the ids of the first ten and of no other. */
  lemma AgingForgets(all: seq<FoldBlock>, blocks: seq<FoldBlock>, i: nat)
    requires Aging(all) && Merged(all, blocks) && i < |all| && all[i].segmentID != ""
    requires forall j :: 0 <= j < |all| && j != i ==> all[j].segmentID != all[i].segmentID
    ensures Findable(blocks, all[i].segmentID) <==> i >= TIER2_TRIGGER
  {
    AgingTimes(all);
    AgingOlder(all, i);
    MergeForgetsIff(all, blocks, all[i].segmentID);
    assert all[i] in all;
  }

  /** A first fold, with a clock that advances, forgets the id of a segment if and only if there are
      more than ten and it is among the ten oldest. */
  lemma {:induction false} FirstFoldForgets(sealed: seq<Segment>, clock: nat -> int, blocks: seq<FoldBlock>, i: nat)
    requires i < |sealed| && FoldedOnce(FoldState([], 0), sealed, clock, blocks)
    requires forall j, k :: 0 <= j < k < |sealed| ==> clock(j) < clock(k)
    requires sealed[i].id != "" && forall j :: 0 <= j < |sealed| && j != i ==> sealed[j].id != sealed[i].id
    ensures Findable(blocks, sealed[i].id) <==> |sealed| <= 10 || i >= 10
  {
    assert sealed[0..] == sealed;
    var all := WithNew([], sealed, clock);
    NewBlocksAge(sealed, clock);
    AgingTimes(all);
    if |sealed| > 10 {
      assert Merged(all, blocks);
      AgingForgets(all, blocks, i);
    } else {
      assert blocks == all && all[i] in all;
    }
  }

  // ----- scopes

  ghost function OwnItems(segs: seq<Segment>, scope: string): (s: set<string>) {
    set g, id | g in segs && g.scope == scope && id in g.itemIDs :: id
  }

  /** New segments are taken from every scope. The blocks of a scope cover its own items and no
      others if and only if the folded segments of other scopes bring no other items. */
  lemma ScopeOwnIff(state: FoldState, sealed: seq<Segment>, scope: string)
    requires FoldEngine.Faithful(state, sealed)
    ensures var folded := sealed[..state.baseline];
      Covered(state.blocks) == OwnItems(folded, scope) <==>
        forall g, id :: g in folded && g.scope != scope && id in g.itemIDs ==> id in OwnItems(folded, scope)
  {
    var folded := sealed[..state.baseline];
    var own := OwnItems(folded, scope);
    assert own <= ItemsOf(folded);
    if forall g, id :: g in folded && g.scope != scope && id in g.itemIDs ==> id in own {
      forall id | id in ItemsOf(folded) ensures id in own {
        var g :| g in folded && id in g.itemIDs;
        if g.scope == scope { assert id in own; }
      }
    }
  }

  /** When every item belongs to one scope, that means that no other scope has sealed anything. */
  lemma ScopeAloneIff(state: FoldState, sealed: seq<Segment>, scope: string)
    requires FoldEngine.Faithful(state, sealed) && forall g :: g in sealed ==> SegmentOk(g)
    requires forall g, h, id :: g in sealed && h in sealed && id in g.itemIDs && id in h.itemIDs ==> g.scope == h.scope
    ensures Covered(state.blocks) == OwnItems(sealed[..state.baseline], scope)
       <==> forall g :: g in sealed[..state.baseline] ==> g.scope == scope
  {
    var folded := sealed[..state.baseline];
    ScopeOwnIff(state, sealed, scope);
    forall g | g in folded && g.scope != scope ensures exists id :: id in g.itemIDs && id !in OwnItems(folded, scope) {
      assert g in sealed && g.itemIDs[0] in g.itemIDs;
    }
  }

  /** A first fold covers the items of a segment sealed in any scope. */
  lemma FoldCrossesScopes(g: Segment, clock: nat -> int, blocks: seq<FoldBlock>, id: string)
    requires FoldedOnce(FoldState([], 0), [g], clock, blocks) && id in g.itemIDs
    ensures id in Covered(blocks)
  {
    var sealed := [g];
    assert sealed[0..] == sealed && sealed[..0] == [];
    WithNewAt(sealed, clock, 0);
    assert blocks == WithNew([], sealed, clock) && blocks[0] in blocks;
  }

  /** Sealing more segments keeps a fold state faithful. */
  lemma FaithfulGrows(state: FoldState, sealed: seq<Segment>, more: seq<Segment>)
    requires FoldEngine.Faithful(state, sealed)
    ensures FoldEngine.Faithful(state, sealed + more)
  {
    assert (sealed + more)[..state.baseline] == sealed[..state.baseline];
  }
}
