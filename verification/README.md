# Vortex: verified models of its stateful cores

This project models, in Dafny 4.11, the parts of the Vortex orchestration engine that carry
its hardest logic, and proves what they keep, compute and promise.

* **Maximum-weight forest** (`core/forest_optimizer.go`): a union-find with path compression
  and union by rank on arrays; Kruskal's loop over it; the redundancy filter and the node budget.
* **Crash-safe configuration log** (`config/wal.go`, `loader.go`, `registry_impl.go`,
  `compactor.go`, `rollback.go`): memory, stored snapshot with checkpoint, and write-ahead log as a
  state machine with crashes between any two steps, and snapshots torn by a crash while they are
  stored in sections.
* **Patch engine** (`config/patch.go`): RFC 6902 operations on value trees, at any depth.
* **Cron** (`core/cron_parser.go`): expression parser and next-run search over the Gregorian
  calendar in UTC.
* **Chat memory** (`core/context_segmentation.go`, `core/fold_engine.go`): segmentation of a
  stream, the link graph and its bounded search, and the tiered folding of sealed segments.
* **Task graphs** (`core/fork.go`, `core/cycle_breaker.go`): depth-first reachability, fork reset,
  and the retry fuse keyed by a signature.
* **Request multiplexer** (`client/client.go`): callers, reader, timeouts and reader death as
  interleaved steps.
* **JSON compression** (`core/context_manager.go`), **split section files**
  (`config/config_split.go`) and **effect compensation** (`core/effect_tracker.go`).

State that the source updates in place is modelled by classes and methods proved against
specification functions; protocols are state machines with an invariant over every run. Similarity
measures, summaries, clocks, generated ids, probes of the outside world and the order of sort ties
are parameters or left unspecified, so the results hold for all of them.

## What the source does differently from what it says

Each point is a theorem below; the code is modelled as it is.

* Schema edges are not "always included": an edge survives every order of ties exactly when the
  other edges at least as heavy leave its ends apart (`Forests.SurvivesIff`, `Forests.SchemaDropped`).
* With a budget below one, one node is still selected as soon as some seed is touched
  (`ForestOptimizer.BudgetIff`).
* A snapshot taken between the two halves of a commit makes recovery apply that commit twice, and
  appends that overtake each other recover another document; both are harmless exactly when the
  commits repeat, respectively commute (`RecoveryLimits.SnapshotRaceIff`, `RecoveryLimits.OutOfOrderIff`;
  runs that go wrong: `RecoveryLimits.RaceDoubles`, `RecoveryLimits.OvertakingSwaps`). A commit id used
  again after a compaction hides the new commit (`RecoveryLimits.ReusedIdIff`, `RecoveryLimits.ReusedIdLoses`),
  and one used twice within the log makes recovery repeat what follows its first use
  (`RecoveryLimits.DuplicateIdIff`, `RecoveryLimits.DuplicateIdDoubles`); ids are eight characters of a UUID.
* In the split layout sections are stored before the main file that holds the checkpoint. A crash in
  between repeats commits that are stored already, which is harmless exactly when repeating the
  operations in the stored sections is; for edits of map items it always is
  (`TornStore.TornStoreIff`, `TornStore.SectionsTornIff`, `TornStore.ItemsTornSafe`; runs that go wrong:
  `TornStore.TornStoreDoubles`, `TornStore.SectionDoubles`).
* A patch that fails half way stays half applied in memory and is not logged; it leaves the document
  alone exactly when what came before the failing operation has no net effect, moves apart
  (`PatchLaws.FailedPatchIff`, `RecoveryLimits.FailedCommitIff`, `RecoveryLimits.FailedCommitDiverges`).
* `RollbackTo` replays from the start of the log even when the snapshot already reflects part of it
  (`RecoveryLimits.RollbackRepeats`, `RecoveryLimits.AppendRollbackIff`, `RecoveryLimits.RollbackDoubles`);
  an unknown target replays the whole log, which can fail when the snapshot reflects part of it
  (`RecoveryLimits.RollbackUnknownIff`, `RecoveryLimits.UnknownRollbackFails`). A rollback that fails
  leaves its partial replay in memory (`RecoveryLimits.FailedRollbackIff`, `RecoveryLimits.FailedRollbackDiverges`).
* "replace" inserts into slices and adds missing map keys, unlike section 4.3 of RFC 6902
  (`PatchLaws.ReplaceAgreesIff`); a failed move has lost its source unless that was not found or is a
  struct field that cannot be cleared or is zero (`PatchLaws.FailedMoveIff`, `PatchLaws.FailedMoveLoses`).
* `nextRun` returns a time strictly after `from`, not at or after it, and a schedule that only names
  29 February, or a day its months lack, can be missed (`Cron.NextRun`, `Cron.CompleteIff`).
* The step of a cron field is added in 64-bit arithmetic: a step that takes the start of its range to
  2^63 or beyond wraps, and the loop then walks down from the start. `59/9223372036854775807` is read as
  every odd minute (`CronParse.SteppedIff`, `CronParse.WrappedValues`, `CronParse.WrappedMinute`).
* The fold loop's test for stopping early can never succeed, so every sealed segment is folded
  (`Folds.FoldEngine.FoldNew`); merged segments can no longer be decompressed by id, and a first fold of
  more than ten segments loses exactly the ten oldest (`Folds.MergeForgetsIff`, `Folds.FirstFoldForgets`).
* Folding takes new segments from every scope, so a scope's blocks cover only its own items exactly
  when the folded segments of other scopes bring no other items (`Folds.ScopeOwnIff`, `Folds.FoldCrossesScopes`).
* A segment that cannot be encoded, one with a time outside the years 0 to 9999, is dropped on sealing
  (`Segments.SealConservesIff`, `Segments.DroppedIff`, `Segments.YearTenThousand`).
* Ids with colons let unrelated steps share a retry counter. Limits are kept over every run exactly
  when no retried step shares its signature; otherwise it is retried without end
  (`CycleBreakers.LimitsKeptIff`, `CycleBreakers.MixedCounters`, `CycleBreakers.CollidingSteps`).
* Responses to requests numbered from one million on are dropped, because the decoded number is
  rendered with an exponent (`Multiplexer.DeliveryIff`).
* Compressing compressed JSON again changes it exactly when some long array keeps an element in its
  middle and has a gap longer than one, which then reads as one (`JsonRecompress.CompressTwiceIff`,
  `JsonRecompress.RecompressionMiscounts`). Kept elements that look like markers spoil the count
  (`JsonCompress.ShrunkExpandsIff`).
* The change flag of JSON compression misses changes inside long arrays that drop nothing, and the
  compressed text is then discarded; it is also set when a lone marker of one is dropped
  (`JsonFlag.FlagIff`, `JsonFlag.OutputIff`, `JsonFlag.FlagMisses`, `JsonFlag.FlagFalseAlarm`).
* An effect once flagged for review stays flagged, even after it has been compensated
  (`Effects.FlagsIff`, `Effects.StaleFlag`).
* A section file and a section directory cannot replace each other, and files named `.JSON` are
  loaded but never pruned (`SplitStore.Section.Write`, `SplitStore.RoundTripIff`).

## Model

| member | source | states |
|---|---|---|
| UnionFinds.UnionFind.Find | core/forest_optimizer.go:26-31 | terminates, returns the representative, and path compression leaves partition and ranks unchanged |
| UnionFinds.UnionFind.Union | core/forest_optimizer.go:33-46 | false exactly when already joined; otherwise those two classes and no others become one; keeps the rank invariant |
| UnionFinds.CompressKeeps | core/forest_optimizer.go:27-29 | pointing an element at its representative keeps every element correctly placed |
| UnionFinds.LinkKeeps | core/forest_optimizer.go:38-44 | union by rank keeps parent ranks strictly climbing and a representative of rank r with at least 2^r members |
| UnionFinds.RankBound | core/forest_optimizer.go:33-46 | 2^rank never exceeds the number of elements |
| Graphs.ForestByCounting | core/forest_optimizer.go:134-136 | an edge list is acyclic if and only if it has nodes minus classes edges |
| Graphs.RankLemma | core/forest_optimizer.go:134-136 | an acyclic list has no more edges than a forest that connects at least as much |
| Forests.GreedyAcyclic | core/forest_optimizer.go:180-193 | the greedy forest is acyclic for every edge order |
| Forests.GreedySpans | core/forest_optimizer.go:180-193 | the greedy forest connects exactly what all edges connect |
| Forests.GreedyLeads | core/forest_optimizer.go:172-193 | over descending weights the greedy forest leads every acyclic pick by the lightest weight per missing edge |
| Forests.GreedyHeaviestOfSize | core/forest_optimizer.go:172-193 | no acyclic pick of the same size outweighs the greedy forest, whatever the signs of weights |
| Forests.GreedyHeaviestIff | core/forest_optimizer.go:134-193 | the forest outweighs every acyclic pick if and only if negative edges never join what the others leave apart |
| Forests.SurvivesIff | core/forest_optimizer.go:135-193 | an edge is chosen for every order of ties if and only if the other edges at least as heavy leave its ends apart |
| Forests.SchemaSurvives | core/forest_optimizer.go:154-193 | schema edges that are acyclic and outweigh every semantic edge are all chosen |
| Forests.SchemaDropped | core/forest_optimizer.go:135-136 | schema edges in a triangle are not all chosen |
| ForestOptimizer.SelectEdges | core/forest_optimizer.go:175-193 | the union-find loop computes the greedy forest of the edges among the seeds and the set of its ends |
| ForestOptimizer.PruneSemantic | core/forest_optimizer.go:154-165 | keeps, in order, exactly the semantic edges at or below the threshold with both ends among the seeds |
| ForestOptimizer.CollectNodes | core/forest_optimizer.go:195-211 | the touched seeds in seed order cut to the budget, or the first seeds when none is touched |
| ForestOptimizer.MaxWeightForest | core/forest_optimizer.go:137-214 | on all seeds up to 48, else on the first 48: acyclic, spanning, heaviest under the exact condition, schema edges kept under theirs; and on the edges themselves, which may be in the forest, which it must connect, and which nodes are selected |
| ForestOptimizer.BudgetIff | core/forest_optimizer.go:195-211 | at most k nodes are selected if and only if k is at least one, or is zero with no seed touched |
| Patches.Navigate | config/patch.go:285-339 | the cursor loop finds the container that the recursive definition names, or fails with it |
| Patches.Target.Run | config/patch.go:29-37 | applies operations in order, stops at the first failure and keeps what was done |
| Patches.PatchConcat | config/patch.go:29-37 | a patch that succeeds composes with what follows it |
| PatchLaws.UnknownOp | config/patch.go:62-63 | an operation of any other name than the six fails and leaves the document alone |
| PatchLaws.RefusedOps | config/patch.go:71-195 | writing or removing the whole document, and a write or test without a value, fail and leave it alone |
| PatchLaws.TestOpIff | config/patch.go:171-195 | "test" passes if and only if exactly that value is found, and changes nothing |
| PatchLaws.BarePathReads | config/patch.go:46-49 | a path reads the same without its leading slash |
| PatchLaws.PutDropIff | config/patch.go:71-169 | at any depth, put then remove restores the tree if and only if the container admits it |
| PatchLaws.DropPutIff | config/patch.go:122-169 | at any depth, remove then put back restores the tree if and only if the container admits it |
| PatchLaws.PutGet | config/patch.go:236-283 | what was put is found again unless it was appended with "-" |
| PatchLaws.ParentOfEdit | config/patch.go:285-390 | an edit succeeds exactly when its container is found and takes it, and replaces that container only |
| PatchLaws.EditFrame | config/patch.go:285-390 | everything off the edited spine is unchanged: branches above the container, other map keys and struct fields in it, and list positions, shifted by one behind the edit |
| PatchLaws.MoveBack | config/patch.go:197-219 | moving there and back restores the document in spite of index shifts, when both containers admit it |
| PatchLaws.ReplaceAgreesIff | config/patch.go:341-390 | at any depth "replace" is the RFC's if and only if the container is missing or the target is neither a missing map key nor a slice position |
| PatchLaws.RfcReplaceMeaning | config/patch.go:341-390 | the RFC reference succeeds exactly where a value is found, puts the new one there and is undone by the old one |
| PatchLaws.ReplaceOpIff | config/patch.go:51-53 | the same for the "replace" operation on path strings |
| PatchLaws.AddRemoveOps | config/patch.go:40-65 | "add" then "remove" of a path, as a patch on path strings, restores the document if and only if the container admits it |
| PatchLaws.AddTestOps | config/patch.go:171-195 | "test" after "add" passes if and only if the value was not appended with "-" |
| PatchLaws.MoveAndCopyOps | config/patch.go:197-234 | "move" is "remove" then "add" of the value taken, partial effects included, and "copy" is "add" of the value found |
| PatchLaws.MoveFailsIff | config/patch.go:197-219 | a move fails if and only if the source is not found, its removal fails, or without it the target's container is missing or refuses the value |
| PatchLaws.FailedMoveIff | config/patch.go:208-218 | a failed move leaves the document as it was if and only if the source is not found or is a struct field that removal does not find or finds zero |
| PatchLaws.FailedMoveLoses | config/patch.go:208-218 | a failed move that lost its source, on a map |
| PatchLaws.FailedOpIff | config/patch.go:40-65 | a failing operation changes the document if and only if it is a move that loses its source |
| PatchLaws.FailedPatchIff | config/patch.go:29-37 | a failing patch leaves the document as it was if and only if the operations before the failing one have no net effect and it loses nothing, or its loss undoes them |
| PatchLaws.GuardedAtomic | config/patch.go:29-37 | tests followed by one operation that is not a move are all or nothing on every document |
| Wals.WAL.Append | config/wal.go:34-62 | the commit is added at the end of the log |
| Wals.WAL.ReplayUntil | config/wal.go:71-115 | replays up to and including the first commit with the id, or everything |
| Wals.WAL.LastCommitID | config/wal.go:121-145 | the id of the last commit, empty for an empty log |
| Wals.WAL.ContainsCommit | config/wal.go:211-233 | whether some commit has the id |
| Wals.WAL.ReplaySince | config/wal.go:162-207 | replays what follows the checkpoint, everything when it is empty or not in the log |
| Wals.SuffixOfLast | config/wal.go:147-154 | a snapshot that records the last id needs none of the log |
| Wals.SuffixAppend | config/wal.go:158-175 | appending a commit other than the checkpoint appends it to what recovery replays |
| Registries.Registry.CommitOps | config/registry_impl.go:588-608 | a success takes the machine's two commit steps; a failure logs nothing and keeps the partial patch |
| Registries.Registry.PersistForceSnapshot | config/registry_impl.go:610-618 | stores memory with the last log id, then clears the log |
| Registries.Registry.Compact | config/compactor.go:74-89 | snapshot, clear and clear again, as machine steps |
| Registries.Registry.RollbackTo | config/rollback.go:9-33 | reload, replay to the target, store and clear; on failure nothing stored changes and memory is the partial replay |
| Registries.Registry.Boot | config/loader.go:30-65 | memory is the recovered document |
| Recovery.RecoverExact | config/loader.go:46-65 | recovery succeeds and gives the document after every acknowledged commit, each once and in order |
| Recovery.RunSafe | config/loader.go:46-65 | over every run with crashes between any two steps, snapshots stored whole, recovery is exact, and is memory whenever nothing is in flight |
| Recovery.RegistryRecovers | config/loader.go:30-65 | the same for every run from a freshly loaded registry with the real patch engine, snapshots stored whole |
| Recovery.RunDurable | config/wal.go:33-62 | without a rollback an acknowledged commit stays in history for ever |
| Recovery.SnapshotKeeps | config/loader.go:650-660 | recording the last log id as checkpoint keeps the invariant and the history |
| Recovery.AppendKeeps | config/registry_impl.go:602-606 | appending adds exactly that commit to the history |
| RecoveryLimits.CommitRuns | config/registry_impl.go:588-606 | a commit whose patch succeeds can be made under any new id, and changes memory and log only |
| Recovery.RollbackAtomic | config/rollback.go:9-33 | a crash between any two steps of a rollback, its snapshot stored whole, recovers the document before it or at its target |
| RecoveryLimits.RollbackWorks | config/rollback.go:9-33 | a run of two commits and a rollback to the first that ends with the first only, in memory, snapshot and recovery |
| RecoveryLimits.RollbackUnknownIff | config/rollback.go:22-26 | a target not in the log gives the current document if and only if doing the reflected commits once more before the log makes no difference |
| RecoveryLimits.AppendUnknownIff | config/rollback.go:22-26 | with a log of appends, if and only if the checkpoint is not in the log |
| RecoveryLimits.UnknownRollbackFails | config/rollback.go:22-26 | a reachable run in which rolling back to an unknown id fails |
| RecoveryLimits.RollbackFailsOnlyIf | config/rollback.go:17-26 | a rollback fails only when the snapshot reflects commits still in the log |
| RecoveryLimits.FailedRollbackIff | config/rollback.go:17-26 | after a failed rollback recovery agrees with memory if and only if the operations before the failing one lead from the snapshot to the document there was and it loses nothing, or its loss leads there |
| RecoveryLimits.FailedRollbackDiverges | config/rollback.go:17-26 | a failed rollback that leaves an element twice in memory and once in recovery |
| RecoveryLimits.FailedRollbackReached | config/rollback.go:17-26 | that state is reached from an empty list |
| RecoveryLimits.SnapshotRaceIff | config/registry_impl.go:589-606 | a snapshot between the halves of the commits in flight recovers memory, once they are appended, if and only if doing them twice is doing them once |
| RecoveryLimits.RaceDoubles | config/registry_impl.go:589-606 | a run in which that race leaves an element twice |
| RecoveryLimits.OutOfOrderIff | config/registry_impl.go:599-606 | whatever order or list the appends leave, recovery gives memory if and only if that list agrees with the order of application on the recovered document |
| RecoveryLimits.OvertakingSwaps | config/registry_impl.go:599-606 | a run in which overtaking appends swap two elements |
| RecoveryLimits.FailedCommitIff | config/registry_impl.go:592-596 | after a failed commit recovery agrees with memory if and only if the operations before the failing one have no net effect and it loses nothing, or its loss undoes them |
| RecoveryLimits.FailedCommitDiverges | config/registry_impl.go:592-596 | a failed commit whose element is in memory and not recovered |
| RecoveryLimits.GuardedCommitSafe | config/registry_impl.go:592-596 | a failed commit of tests and one operation that is not a move never parts recovery from memory |
| RecoveryLimits.ReusedIdIff | config/wal.go:158-175 | reusing a checkpoint's id makes recovery give the bare snapshot |
| RecoveryLimits.ReusedIdLoses | config/wal.go:158-175 | a run in which a reused id loses an element |
| RecoveryLimits.DuplicateIdIff | config/wal.go:121-175 | a snapshot recovers memory if and only if repeating the commits after the first use of its last id changes nothing |
| RecoveryLimits.AppendDuplicateIff | config/wal.go:121-175 | with a log of appends, if and only if that id does not occur earlier |
| RecoveryLimits.DuplicateIdDoubles | config/wal.go:121-175 | a run in which an id used twice doubles two elements |
| TornStore.StoredWhole | config/config_split.go:145-182 | storing the document and then the main file is the snapshot step |
| TornStore.TornStoreIff | config/config_split.go:145-182 | a crash between the two recovers memory if and only if doing the replayed commits twice is doing them once |
| TornStore.TornStoreDoubles | config/config_split.go:145-182 | a run in which such a crash doubles an element |
| TornStore.SectionsTornIff | config/config_split.go:145-182 | a crash after any set of sections, with operations that each work in one section, recovers memory if and only if repeating the operations in the stored ones changes nothing |
| TornStore.SectionDoubles | config/config_split.go:145-182 | a struct with two list sections where a crash after the first doubles its element only |
| TornStore.Local | config/patch.go:40-65 | an operation that works in one top-level field depends on that field and changes no other |
| TornStore.InsideOps | config/patch.go:40-65 | every edit and test but of the whole document works in one section, and so do moves and copies inside one |
| TornStore.ItemsTornSafe | config/config_split.go:184-254 | with edits of map items every mixture of old and new item files recovers memory |
| TornStore.RegisterIsKeyed | tools/subsystems_config.go:339-385 | registering or unregistering an item under its id is an edit of a map item |
| TornStore.TornRollbackIff | config/rollback.go:9-33 | a rollback torn before its checkpoint recovers the document before it if and only if the kept commits can be repeated before the log |
| TornStore.ItemsTornRollback | config/rollback.go:9-33 | with edits of map items a rollback torn between any two item files recovers the document before it |
| RecoveryLimits.RollbackRepeats | config/rollback.go:17-26 | on every log a rollback repeats the commits the snapshot reflects before those up to its target |
| RecoveryLimits.RollbackIff | config/rollback.go:17-26 | on logs that grow a measure a rollback reaches its target's document if and only if the snapshot reflects no logged commit |
| RecoveryLimits.AppendRollbackIff | config/rollback.go:17-26 | the same on the patch engine for every log of appends |
| RecoveryLimits.RollbackDoubles | config/rollback.go:17-26 | a concrete run in which a rollback leaves an element twice |
| Calendar.DateRoundTrip | core/cron_parser.go:159-160 | days and Gregorian dates correspond one to one, within the span of their year |
| Calendar.WeekdaysAnchored | core/cron_parser_test.go:57-61 | 16 January 2026 is a Friday and the days run through the week |
| Calendar.WeekdaysRepeat | core/cron_parser.go:159-160 | the calendar, weekdays included, repeats every 400 years |
| Cron.NextRun | core/cron_parser.go:143-156 | the least matching minute strictly after the instant if one lies within 366 days, nothing otherwise |
| Cron.MatchesOn | core/cron_parser.go:158-174 | a valid date and time match if and only if minute, hour and month are listed and the day is, by either day field when both are restricted and by both otherwise |
| Cron.EitherIff | core/cron_parser.go:168-172 | with both day fields restricted a minute matches if and only if it matches with one of them left open |
| Cron.ThirteenthMatches | core/cron_parser.go:168-172 | the 13th of a month or any Friday matches on Tuesday 13 January 2026 |
| Cron.CompleteIff | core/cron_parser.go:141-174 | for every accepted schedule a run is found from every instant if and only if the weekday is restricted or some listed month has a listed day every year |
| Cron.NextOccurrence | core/cron_parser.go:145-153 | every yearly date comes round within the window, across leap years |
| Cron.WeekdayOccurrence | core/cron_parser.go:158-174 | every weekday of every month comes round within the window |
| CronParse.ParsePart | core/cron_parser.go:61-101 | adds exactly the values the step loop sets in 64-bit arithmetic, or fails with the part |
| CronParse.StepsIff | core/cron_parser.go:97-99 | the values a range with a step denotes are those up to its end at a whole number of steps from its start |
| CronParse.SteppedIff | core/cron_parser.go:97-99 | the loop sets every step-th value of the range if and only if start plus step stays below 2^63; otherwise also a negative one |
| CronParse.WrappedValues | core/cron_parser.go:97-99 | a wrapping step sets the values downwards from the start, in jumps of twice its distance from 2^63 |
| CronParse.WrappedMinute | core/cron_parser.go:97-99 | 59/9223372036854775807 denotes minute 59 and is read as every odd minute |
| CronParse.ParseField | core/cron_parser.go:42-59 | the union over the comma-separated parts, or failure if any part fails |
| CronParse.ParseSoundIff | core/cron_parser.go:104-139 | every accepted expression has fields that meet their ranges, full ones where unrestricted; they stay within range if and only if no step wraps |
| CronParse.FieldReadsIff | core/cron_parser.go:40-101 | every well-formed field is accepted, and reads back as the union of what its items denote if and only if no step wraps |
| CronParse.ParseReadsIff | core/cron_parser.go:103-139 | every well-formed expression is accepted, and reads back as the schedule it denotes if and only if no step wraps |
| CronParse.SpacingIrrelevant | core/cron_parser.go:104-106 | an expression reads the same however its fields are spaced |
| CronParse.SpaceIff | core/cron_parser.go:105 | which characters separate fields |
| CronParse.WrongCountRejected | core/cron_parser.go:105-108 | any other number of fields than five is rejected |
| CronParse.ForeignRejected | core/cron_parser.go:61-95 | an expression with a character other than digits, signs, star, slash, comma and white space is rejected |
| CronParse.NamesRejected | core/cron_parser.go:61-95 | names of weekdays are rejected |
| Text.AtoiIff | core/cron_parser.go:67-90 | a text is read as a number if and only if it is an optional sign and digits with that value, within 64 bits |
| Segments.SegmentManager.AddItem | core/context_segmentation.go:60-98 | joins or cuts as decided, keeps every stream conserved and segments within 50 items |
| Segments.SegmentManager.SealActive | core/context_segmentation.go:101-108 | seals the open segment of the scope, if any, and nothing else |
| Segments.SegmentManager.SealSegment | core/context_segmentation.go:172-194 | moves the segment to the sealed list and links it, or drops it when it does not encode; the streams stay conserved exactly in the first case |
| Segments.SegmentManager.LinkSealed | core/context_segmentation.go:199-226 | pairs the segment with the similar ones among the last twenty |
| Segments.LinkedUpCount | core/context_segmentation.go:207-225 | one link each way per similar segment, and no other |
| Segments.SealLinks | core/context_segmentation.go:184-226 | sealing adds, each way, one link for every similar segment among the last twenty, and none for a dropped one |
| Segments.SealedLast | core/context_segmentation.go:172-192 | a segment that encodes is sealed last, with its id, scope, items and start, and ends now |
| Segments.SealConservesIff | core/context_segmentation.go:184-192 | sealing keeps the streams if and only if the segment encodes; otherwise its scope loses exactly its items from the end and other scopes nothing |
| Segments.DroppedIff | core/context_segmentation.go:172-191 | a segment is dropped if and only if there is a sealed file and the year of its start or of the clock is outside 0 to 9999 |
| Segments.TimeEncodesIff | core/context_segmentation.go:184-188 | the times that encode reach from the start of the year 0 to the end of the year 9999 |
| Segments.YearTenThousand | core/context_segmentation.go:184-191 | a segment starting with the year 10000 is dropped |
| Segments.SegmentManager.FollowTrace | core/context_segmentation.go:266-314 | the sealed segments within the depth, each as often as sealed, in order of start |
| Segments.TraceMutual | core/context_segmentation.go:259-299 | with links in pairs, b is in a's trace exactly when a is in b's |
| Traces.Visit | core/context_segmentation.go:276-299 | the bounded search visits exactly the ids at link distance at most the bound |
| Folds.FoldEngine.FoldSealedSegments | core/fold_engine.go:98-181 | folds each segment sealed since the baseline exactly once, so the blocks cover exactly the items sealed up to it |
| Folds.FoldEngine.FoldNew | core/fold_engine.go:132-156 | one tier-1 block for every new segment: the loop never stops early |
| Folds.Tier2Merge | core/fold_engine.go:186-237 | the ten oldest tier-1 blocks become one duplicate-free block, everything else stays |
| Folds.MergeKeeps | core/fold_engine.go:205-237 | a merge covers the same items with nine blocks fewer |
| Folds.MergeForgetsIff | core/fold_engine.go:186-281 | when no two tier-1 blocks share a creation time, a segment is found by id after a merge if and only if one of its blocks was of the second tier or had ten older ones of the first |
| Folds.FirstFoldForgets | core/fold_engine.go:98-237 | with a clock that advances, a first fold forgets the id of a segment if and only if there are more than ten and it is among the ten oldest |
| Folds.EstimateFoldTokens | core/fold_engine.go:411-417 | the loop computes the estimate |
| Folds.EstimateBounds | core/fold_engine.go:411-417 | the estimate is a quarter of the characters, short of it by less than one per block |
| Folds.FaithfulGrows | core/fold_engine.go:115-130 | sealing more segments keeps a fold state faithful |
| Folds.ScopeOwnIff | core/fold_engine.go:115-130 | a scope's blocks cover exactly its own items if and only if folded segments of other scopes bring no other items |
| Folds.ScopeAloneIff | core/fold_engine.go:115-130 | when items belong to one scope each, if and only if every folded segment is of that scope |
| Folds.FoldCrossesScopes | core/context_segmentation.go:120-129 | a first fold covers the items of a segment sealed in any scope |
| Forks.IsDownstream | core/fork.go:103-126 | true exactly when a non-empty dependency path leads to the target, on any graph |
| Forks.TaskGraph.Fork | core/fork.go:28-70 | the target becomes OK, what is downstream is reset, everything else is unchanged |
| Forks.ForkClosed | core/fork.go:57-70 | whatever depends on the target or on a reset step is pending again, with no retries, error or refinements left |
| Forks.ForkKeepsUpstream | core/fork.go:57-70 | in an acyclic graph nothing the target depends on is touched |
| CycleBreakers.SignatureIff | core/cycle_breaker.go:12-19 | colon-free signatures agree if and only if the two lists hold the same ids |
| CycleBreakers.SharedSignatureMutual | core/cycle_breaker.go:12-19 | distinct steps share a signature only when they depend on each other |
| CycleBreakers.ColonsCollide | core/cycle_breaker.go:15-19 | ids with colons give unrelated steps one signature |
| CycleBreakers.Graph.TryBacktrack | core/cycle_breaker.go:82-171 | counter, fuse and statuses after a call; other steps keep their status |
| CycleBreakers.LimitsKeptIff | core/cycle_breaker.go:94-171 | every run keeps each step within its limit between its fuses if and only if no eligible step with a positive limit shares its signature with another eligible step |
| CycleBreakers.FusesIff | core/cycle_breaker.go:94-171 | without a clash, after every run, a report fuses if and only if the step's backtracks since its own last fuse have reached its limit, and backtracks it otherwise |
| CycleBreakers.ExactlyTheLimit | core/cycle_breaker.go:94-171 | without a clash, whatever is reported in between, exactly as many reports as the limit backtrack a step and the next one fuses it |
| CycleBreakers.OtherReports | core/cycle_breaker.go:82-97 | on every graph after every run, when a report does not apply, and a negative limit fuses at once |
| CycleBreakers.RoundsBounded | core/cycle_breaker.go:94-171 | without such a clash each retried step's counter is its own tally after every run |
| CycleBreakers.WellNamedNoClash | core/cycle_breaker.go:12-19 | colon-free ids without mutual dependencies never clash |
| CycleBreakers.BacktracksBounded | core/cycle_breaker.go:94-171 | on every graph a run without a fuse backtracks at most as often as all limits together |
| CycleBreakers.MixedCounters | core/cycle_breaker.go:94-171 | a step that shares its signature can be backtracked any number of times without a fuse of its own |
| CycleBreakers.CollidingSteps | core/cycle_breaker.go:94-171 | a graph of two unrelated steps that does not keep its limits |
| Multiplexer.NoCrossedResponses | client/client.go:192-319 | in every interleaving a call only gets a line with its own rendered id, no line goes to two calls, channels hold at most one message |
| Multiplexer.StepKeeps | client/client.go:192-319 | every step of caller or reader keeps the invariant |
| Multiplexer.ClosedStepsProgress | client/client.go:285-299 | once the reader is gone every possible step brings exactly one call closer to returning |
| Multiplexer.DeadReaderDrains | client/client.go:229-299 | from every reachable state with the reader gone all calls can return without a timeout, leaving nothing pending |
| Multiplexer.NumericMatchIff | client/client.go:204-211 | a numeric id selects a request if and only if it is that number and below one million |
| Multiplexer.DeliveryIff | client/client.go:200-219 | the response echoing a waiting call's number reaches it if and only if the number is below one million |
| Multiplexer.RenderMeaning | client/client.go:204-208 | how numbers from one million on are rendered |
| Responses.AnswersExplained | client/client.go:229-299 | over every interleaving a call returns a timeout if and only if its own fired, a failed write if and only if its own failed, a line if and only if it took that line, and the reader's death only when the reader is gone |
| Responses.RoundTrip | client/client.go:192-299 | from every state in which the reader reads, a new call below one million whose response echoes its number returns that response and leaves nothing pending |
| Responses.ResponseReturned | client/client.go:200-299 | a line whose rendered id is that of a waiting call is what the call returns |
| Responses.QuotedReturned | client/client.go:204-211 | so is a response that carries the number as a string, of any size |
| Responses.LateDropped | client/client.go:217-218 | a response to a call that has returned changes nothing |
| Responses.NoIdDropped | client/client.go:204-218 | a line without an id is dropped |
| Responses.WokenReturnsDead | client/client.go:221-240 | a waiting call woken by the ending reader returns its death |
| Responses.DoneReturnsDead | client/client.go:289-293 | a waiting call that is not woken returns it once the done channel is closed |
| Responses.TimesOut | client/client.go:294-296 | a waiting call can time out at any moment and returns that |
| Responses.WriteFails | client/client.go:270-280 | a call whose write fails returns that and leaves nothing pending |
| JsonCompress.CompressNode | core/context_manager.go:712-776 | the loops compute the compression and the change flag |
| JsonFlag.UnalteredIff | core/context_manager.go:712-776 | for every tree compression leaves it as it is if and only if dropped elements are lone markers of one and kept ones are themselves unaltered |
| JsonFlag.ChangedIff | core/context_manager.go:712-776 | for every tree the flag is set if and only if a long array reached through short ones and objects drops an element |
| JsonFlag.FlagIff | core/context_manager.go:712-776 | for every tree the flag says whether compression changes it if and only if something is dropped and the tree is altered, or nothing is dropped and no alteration is hidden in a long array |
| JsonFlag.OutputIff | core/context_manager.go:700-710 | the text handed on is the compressed one if and only if something is dropped or nothing is hidden |
| JsonFlag.FlagMisses | core/context_manager.go:728-751 | a changed tree without the flag |
| JsonFlag.FlagFalseAlarm | core/context_manager.go:728-751 | an unchanged tree with the flag |
| JsonCompress.ErrorsPreserved | core/context_manager.go:712-801 | for every tree the error test answers the same before and after |
| JsonErrors.ContainsErrorIff | core/context_manager.go:778-801 | for every tree the test answers whether a text spells one of five words, or a key one of three, in any mixture of cases at any position and depth |
| JsonErrors.SpelledInside | core/context_manager.go:780-782 | a word is found wherever it stands in a text, however its letters are cased |
| JsonErrors.CaseBlind | core/context_manager.go:778-801 | changing the case of letters anywhere changes no answer |
| JsonErrors.ErrorsStand | core/context_manager.go:735-745 | in every long array the ends, and every element that mentions an error at any depth, stand in the output, compressed |
| JsonErrors.OthersCounted | core/context_manager.go:735-748 | an element in the middle is kept if and only if it mentions an error |
| JsonErrors.Shouted | core/context_manager.go:780-782 | an error in capitals is kept |
| JsonCompress.ShrunkExpandsIff | core/context_manager.go:728-759 | reading the markers back gives every position, kept elements in order and counts that fill the gaps, if and only if no kept element looks like a marker |
| JsonCompress.CompressionAccountsIff | core/context_manager.go:712-776 | the same for every long array, on its own elements |
| JsonRecompress.CompressTwiceIff | core/context_manager.go:712-776 | for every tree a second compression changes nothing if and only if, in every long array that counts, nothing in the middle is kept or no two neighbours are dropped |
| JsonRecompress.SecondPass | core/context_manager.go:735-751 | a second pass over a long result turns every gap into one of one |
| JsonRecompress.ShortIff | core/context_manager.go:714-751 | a long array shrinks to five elements or fewer if and only if nothing in its middle is kept |
| JsonRecompress.RecompressionMiscounts | core/context_manager.go:735-751 | an array whose gap of two reads as one after a second compression |
| SplitStore.Section.Write | config/config_split.go:184-254 | when a write succeeds, what the directory or array file then holds, orphans removed |
| SplitStore.Section.Load | config/config_split.go:65-116 | appends the array in order, or each readable directory file once |
| SplitStore.RoundTripIff | config/config_split.go:65-254 | writing then loading gives exactly the items, whatever was there, if and only if no stray file was |
| SplitStore.LoadableIff | config/config_split.go:85 | a file is loaded if and only if its name ends in ".json" in any mixture of cases |
| Effects.EffectTracker.CompensateStep | core/effect_tracker.go:243-277 | the reverse loop computes the sweep: results, flags and what is applied outside |
| Effects.SweptMeaning | core/effect_tracker.go:243-358 | one result per effect in reverse order, a flag exactly where it was or its result asks for it, and nothing else changed |
| Effects.ActionIff | core/effect_tracker.go:259-351 | exactly when an effect is skipped, delegated, compensated or up for review, from its probe and compensator at its turn |
| Effects.FlagsIff | core/effect_tracker.go:243-358 | over every run of compensations no flag is cleared, and an effect is flagged at the end if and only if it was at the start or some call flagged it |
| Effects.StaleFlag | core/effect_tracker.go:334-358 | an effect flagged by one call and compensated by the next stays flagged |
| Effects.SecondIdle | core/effect_tracker.go:284-351 | when the registered probers and compensators are truthful a second compensation compensates nothing |
| Effects.HonestIsTruthful | core/effect_tracker.go:284-351 | a tool with a prober and a compensator that are truthful |

## Left out

- BuildSemanticEdges: the mutual nearest-neighbour edges are an input; cosine similarity on floats is not modelled.
- Weights are real numbers, not 64-bit floats.
- Patches: reflection (field lookup is a given table per struct type, with the narrower table removal uses), pointer aliasing after "copy" and slices that share storage are not modelled; documents are value trees rebuilt along the path.
- Patches.Target.Run: "test" compares trees rather than their JSON encodings, and a value that does not decode for its target type is an input.
- PatchLaws.MoveBack: gives sufficient conditions only; a struct field that is overwritten on the way back can hide that the target container did not admit the undo.
- Recovery: torn log lines, disk errors, quarantine renames, external edits, hot reload, and fields a snapshot does not write; snapshot encoding is the identity.
- Recovery.RunSafe: commits enter a run when their patch succeeds, ids are fresh, appends follow the order of application, snapshots and rollbacks start with nothing in flight, rollbacks with a known target and a checkpoint outside the log, and snapshots are stored whole; the theorems of RecoveryLimits and TornStore show what each condition is for.
- Registries: a registry without a log, which persists on every commit, and the optimistic check against external edits.
- Cron: times with a daylight-saving zone; the search is modelled in UTC.
- Segments: similarity measures, embeddings, summaries, time zones and the contents of the sealed file; only whether a segment encodes matters.
- Folds: concurrent sealing between the two reads of one call, and the text of summaries.
- Forks: workspace copy, persistence and scheduling of the forked task.
- CycleBreakers: prompt texts and archive summaries; the decision after a fuse.
- Multiplexer: the server, stderr capture and result decoding; the wake-up pass may miss calls, as sync.Map allows.
- SplitStore: ids with path separators, and case-insensitive file systems.
- TornStore.SectionsTornIff: moves and copies from one section to another are not covered, because what they do depends on both; TornStoreIff covers every operation once all sections are stored.
- Effects: how tools are classified, and the texts of results and review reasons.
- Prompt budgets, hybrid search, redaction, providers, hooks, HTTP and logging: plumbing around foreign calls.
