# RisingWave streaming hash join, state table, batch update and CREATE DATABASE, in Dafny

This project models four parts of RisingWave, a streaming database, and proves properties
about them.

- **Streaming hash join** (`src/stream/src/executor/hash_join.rs`). The join-type predicates
  and the output schema. The append-only optimisation decided in `HashJoinExecutor::new`.
  `row_concat`. The per-row body of `eq_join_oneside`: an Insert/UpdateInsert or
  Delete/UpdateDelete row of one side is matched against the other side's hash table. Matched
  rows have their degree raised or lowered, and the changelog records of
  `HashJoinChunkBuilder` are emitted. Files: `join_types.dfy` (pure predicates, schema,
  `row_concat` over an array), `join_step.dfy` (the per-row step as functions over the two
  sides' states, and its lemmas), `join_executor.dfy` (class `HashJoinExecutor`, whose two
  hash tables are updated in place by loops proved against `join_step.dfy`).
  The executor follows the source as written: its condition row and its delete records are
  the source's. The step functions take a `DeleteMode`, so the corrected delete records of
  the findings below are available beside the source's, and each round-trip lemma says for
  which of the two it holds.
- **State table** (`src/stream/src/common/table/state_table.rs`). Class `StateTable` over a
  key-value store. Rows are written under `vnode ++ encoded pk`. Also modelled: the vnode
  bitmap, watermarks, and epoch sealing with the delete ranges of watermark cleaning. The
  range conversion `prefix_range_to_memcomparable` is in `memcomparable.dfy`, over keys
  ordered byte-wise.
- **Batch update** (`src/batch/src/executor/update.rs`). Class `UpdateExecutor`: each input
  chunk becomes a chunk of (UpdateDelete, UpdateInsert) pairs, old row then updated row. The
  chunk is built column by column and written to the table's DML channel. The result is the
  number of rows updated, as one Int64.
- **CREATE DATABASE** (`src/frontend/src/handler/create_database.rs`). The admission checks
  run in source order: session user, privilege, existence and IF NOT EXISTS, owner, resource
  group. Then come the threshold notices and the write to the catalog (class `Catalog`).

`wrappers.dfy` holds `Option`, `Result`, rows (`seq<Option<int>>`, NULL is `None`),
changelog ops and `Project`.

Things the source takes from elsewhere are parameters:
- the non-equi join condition, as a function of the concatenated row;
- the pk and value encodings, the vnode hash and the vnode byte encoding;
- the update expressions;
- the resource-group resolution, the license check and the catalog writer's outcome;
- the two notice thresholds and the default resource group.

## Model

| member | source | states |
|---|---|---|
| JoinTypes.IsOuterSide | src/stream/src/executor/hash_join.rs:71-75 | definition of `is_outer_side` (no contract; its relation to `outer_side_null` is `OuterSideTable`) |
| JoinTypes.OuterSideNull | src/stream/src/executor/hash_join.rs:77-81 | definition of `outer_side_null` (no contract; see `OuterSideTable`) |
| JoinTypes.ForwardExactlyOnce | src/stream/src/executor/hash_join.rs:83-90 | definition of `forward_exactly_once` (no contract; see `ForwardingModesPartition`) |
| JoinTypes.OnlyForwardMatchedSide | src/stream/src/executor/hash_join.rs:92-100 | definition of `only_forward_matched_side` (no contract; see `ForwardingModesPartition`) |
| JoinTypes.IsSemi | src/stream/src/executor/hash_join.rs:102-104 | definition of `is_semi` (no contract) |
| JoinTypes.IsAnti | src/stream/src/executor/hash_join.rs:106-108 | definition of `is_anti` (no contract) |
| JoinTypes.IsSemiOrAnti | src/stream/src/executor/hash_join.rs:110-112 | definition of `is_semi_or_anti` (no contract) |
| JoinTypes.OuterSideTable | src/stream/src/executor/hash_join.rs:71-81 | `outer_side_null` holds on a side exactly when `is_outer_side` holds on the other side; neither holds for inner, semi or anti joins |
| JoinTypes.ForwardingModesPartition | src/stream/src/executor/hash_join.rs:85-112 | for a semi/anti join exactly one of `forward_exactly_once` and `only_forward_matched_side` holds on each side; for inner and outer joins neither does |
| JoinTypes.OutputSchema | src/stream/src/executor/hash_join.rs:388-396 | left semi/anti output the left schema, right semi/anti the right one, every other join left ++ right |
| JoinTypes.CountContained | src/stream/src/executor/hash_join.rs:422-431 | the filter-and-count of pk columns found among the join keys is at most the pk length |
| JoinTypes.CountContainedAll | src/stream/src/executor/hash_join.rs:422-431 | the count equals the pk length iff every pk column is a join-key column |
| JoinTypes.AppendOnlyOptimize | src/stream/src/executor/hash_join.rs:419-435 | definition of the append-only decision, used by the executor's constructor (no contract; see `AppendOnlyOptimizeCharacterised`) |
| JoinTypes.AppendOnlyOptimizeCharacterised | src/stream/src/executor/hash_join.rs:419-435 | the optimisation is on iff append-only is requested and on both sides every pk column is a join-key column |
| JoinTypes.RowConcat | src/stream/src/executor/hash_join.rs:771-786 | the array filled in two loops has width \|u\|+\|m\|; `m` sits at its start, `u` at its start where `m` does not cover it, NULL elsewhere |
| JoinTypes.ConcatDetermined | src/stream/src/executor/hash_join.rs:771-786 | those three facts determine the row: it is the reference `Concat` |
| JoinTypes.ConditionRowAsWritten | src/stream/src/executor/hash_join.rs:816-846 | the condition row as the source builds it (both start positions 0 for semi/anti joins); the executor's `Condition` evaluates on this one (no contract; see the three lemmas below) |
| JoinTypes.ConditionRow | src/stream/src/executor/hash_join.rs:816-846 | the corrected condition row, left ++ right for every join type; a reference the executor does not use (no contract; see `ConditionRowLeftRight`) |
| JoinTypes.ConditionRowLeftRight | src/stream/src/executor/hash_join.rs:816-846 | (corrected) the corrected condition row is left ++ right whichever side is updated |
| JoinTypes.ConditionRowAsWrittenAgrees | src/stream/src/executor/hash_join.rs:816-846 | outside semi/anti joins the condition row as written equals the corrected one |
| JoinTypes.ConditionRowAsWrittenLosesUpdate | src/stream/src/executor/hash_join.rs:816-820 | for semi/anti joins, with both start positions 0, the matched row overwrites the update row |
| JoinTypes.ConditionRowAsWrittenCounterexample | src/stream/src/executor/hash_join.rs:816-846 | left semi join, rows (1,4) and (1,8): the condition sees (1,8,NULL,NULL) instead of (1,4,1,8) |
| JoinStep.Upsert | src/stream/src/executor/hash_join.rs:906-914 | `JoinEntryState::insert`: the stored row is present and the pk set grows by its pk; a new pk is appended at the end; for a stored pk the entry keeps its length and exactly the rows with that pk are replaced by the new row, the others unchanged |
| JoinStep.RemovePk | src/stream/src/executor/hash_join.rs:918-921 | removing by pk: exactly that pk leaves the pk set, a row stays iff it was there and has another pk, the entry does not grow, and an absent pk leaves it unchanged |
| JoinStep.WithMatchOnInsert | src/stream/src/executor/hash_join.rs:250-293 | `with_match_on_insert`, as written, used by both the step functions and the executor (no contract; its balance with the delete records is `MatchRoundTripBalanced`) |
| JoinStep.WithMatchOnDeleteAsWritten | src/stream/src/executor/hash_join.rs:294-336 | `with_match_on_delete` as written: the padded-side case emits U- and U+ of the padded matched row; this is the one the executor uses (no contract; see `WithMatchOnDeleteAsWrittenUnbalanced`) |
| JoinStep.WithMatchOnDelete | src/stream/src/executor/hash_join.rs:294-336 | (corrected) `with_match_on_delete` retracting the joined row in the padded-side case; a reference selected by `DeleteMode.Corrected` (no contract; see `MatchRoundTripBalanced`) |
| JoinStep.WithMatchOnDeleteBy | src/stream/src/executor/hash_join.rs:294-336 | the delete records of the chosen `DeleteMode`: `AsWritten` for the source (the executor), `Corrected` for the reference (no contract) |
| JoinStep.RetractsJoined | src/stream/src/executor/hash_join.rs:314-325 | the condition under which the chosen delete records retract what the insert records added: always for `Corrected`, and off the NULL-padded side for `AsWritten` (no contract) |
| JoinStep.AsWrittenAgreesOffPaddedSide | src/stream/src/executor/hash_join.rs:294-336 | away from the NULL-padded side of an outer join the source's delete records equal the corrected ones |
| JoinStep.ForwardIfNotMatched | src/stream/src/executor/hash_join.rs:353-360 | an unmatched row is forwarded alone iff the side is an outer side or the kept side of an anti join |
| JoinStep.ForwardExactlyOnceIfMatched | src/stream/src/executor/hash_join.rs:339-350 | a matched row is forwarded alone iff the join is semi and the side is its kept side |
| JoinStep.InsertScan | src/stream/src/executor/hash_join.rs:859-879 | the insert loop over a matched entry (used by the executor): the entry keeps its length and the match count is at most its length; contents in `InsertScanEntries`/`InsertScanMatches` |
| JoinStep.DeleteScan | src/stream/src/executor/hash_join.rs:923-937 | the delete loop, parameterised by `DeleteMode` (the executor uses `AsWritten`): on success the entry keeps its length and the match count is at most its length; contents in `DeleteScanEntries`/`DeleteScanMatches` |
| JoinStep.InsertScanEntries | src/stream/src/executor/hash_join.rs:860-871 | after the insert loop every matched row meeting the condition has one more degree; the others are unchanged |
| JoinStep.InsertScanMatches | src/stream/src/executor/hash_join.rs:857-871 | the degree computed equals the number of matched rows meeting the condition; records are emitted only if one matched and the side is not forwarded exactly once |
| JoinStep.DeleteScanFails | src/stream/src/executor/hash_join.rs:925-928 | the delete loop fails iff some matched row meeting the condition has degree zero |
| JoinStep.DeleteScanEntries | src/stream/src/executor/hash_join.rs:925-936 | after a successful delete loop every matched row meeting the condition has one degree less; the others are unchanged |
| JoinStep.DeleteScanMatches | src/stream/src/executor/hash_join.rs:923-936 | a successful delete loop counts the matched rows meeting the condition; records only when one matched |
| JoinStep.MatchedEntries | src/stream/src/executor/hash_join.rs:759-769 | `hash_eq_match`: a key with a NULL, or one the other side lacks, finds nothing (no contract; see `UnmatchedKeyForwarded`) |
| JoinStep.InsertStep | src/stream/src/executor/hash_join.rs:855-916 | the insert half of one row of `eq_join_oneside` (no contract; see `InsertStepFrame`, `InsertStores`, `InsertCountsMatches`, the append-only lemmas) |
| JoinStep.DeleteStep | src/stream/src/executor/hash_join.rs:917-954 | the delete half, parameterised by `DeleteMode` (no contract; see `DeleteStepFrame`, `DeleteDropsMatches`, `DeleteRemovesPk`) |
| JoinStep.Step | src/stream/src/executor/hash_join.rs:849-954 | one row: inserts for Insert/UpdateInsert, deletes for Delete/UpdateDelete; the executor runs it with `AsWritten` (no contract; see `StepKeepsWidths` and the round-trip lemmas) |
| JoinStep.InsertStepFrame | src/stream/src/executor/hash_join.rs:849-916 | an insert changes only the update side's entry under the row's key and at most the matched side's entry under it |
| JoinStep.DeleteStepFrame | src/stream/src/executor/hash_join.rs:917-954 | a successful delete changes at most the two sides' entries under the row's key |
| JoinStep.UnmatchedKeyForwarded | src/stream/src/executor/hash_join.rs:760-769 | a key with a NULL, or one the other side lacks, leaves the other side alone and forwards the row as unmatched |
| JoinStep.MatchRoundTripBalanced | src/stream/src/executor/hash_join.rs:250-336 | (corrected) the records of `with_match_on_insert` and the corrected `with_match_on_delete` for the same degree cancel out, for every join type and side |
| JoinStep.WithMatchOnDeleteAsWrittenUnbalanced | src/stream/src/executor/hash_join.rs:314-325 | `with_match_on_delete` as written: LeftOuter, deleting the only match leaves the joined row (2,5,2,7) downstream |
| JoinStep.OppositePairBalanced | src/stream/src/executor/hash_join.rs:250-336 | a row added and then retracted (or the reverse) leaves nothing downstream |
| JoinStep.SwapBackBalanced | src/stream/src/executor/hash_join.rs:272-284 | replacing x by y and then y by x leaves nothing downstream |
| JoinStep.ForwardPairBalanced | src/stream/src/executor/hash_join.rs:880-895 | unmatched forwarding of an insert and of the matching delete cancel out |
| JoinStep.BalancedInterleave | src/stream/src/executor/hash_join.rs:849-954 | two balanced exchanges interleaved are balanced together |
| JoinStep.ScanRoundTripState | src/stream/src/executor/hash_join.rs:860-936 | for either `DeleteMode`, deleting right after inserting walks the matched entry back and sees the same number of matches |
| JoinStep.ScanRoundTrip | src/stream/src/executor/hash_join.rs:860-936 | whenever `RetractsJoined` holds (the source's records off the NULL-padded side, the corrected ones everywhere), the delete loop retracts everything the insert loop emitted |
| JoinStep.RowRoundTripBalanced | src/stream/src/executor/hash_join.rs:250-336 | whenever `RetractsJoined` holds, the insert records of one matched row and the delete records of the same row after the degree round trip cancel out |
| JoinStep.InsertThenDeleteRestores | src/stream/src/executor/hash_join.rs:849-954 | for either `DeleteMode`, inserting a row with a new pk and then deleting it restores both sides (the update side keeps a possibly empty entry under the key); whenever `RetractsJoined` holds the changelog is balanced; every join type and side, optimisation off |
| JoinStep.UpdateSideRoundTrip | src/stream/src/executor/hash_join.rs:906-921 | the update side gets its entry back after insert then delete |
| JoinStep.UnmatchedRoundTrip | src/stream/src/executor/hash_join.rs:891-895 | without matches the other side is untouched and the forwarded rows cancel |
| JoinStep.MatchedRoundTripState | src/stream/src/executor/hash_join.rs:859-936 | with matches, the other side's entry is walked back to where it was |
| JoinStep.MatchedRoundTripBalanced | src/stream/src/executor/hash_join.rs:859-948 | with matches and `RetractsJoined`, everything the insert emitted is retracted by the delete |
| JoinStep.UpsertThenRemove | src/stream/src/executor/hash_join.rs:914-920 | a new pk stored then removed leaves the entry as it was |
| JoinStep.InsertStores | src/stream/src/executor/hash_join.rs:856-914 | without the optimisation an insert stores the row under its key and pk, with degree = its matches (none for a NULL key) |
| JoinStep.DeleteStepUpdate | src/stream/src/executor/hash_join.rs:918-921 | a delete removes the row's pk from its own side, whatever its key |
| JoinStep.InsertCountsMatches | src/stream/src/executor/hash_join.rs:859-871 | an insert that finds the other side's entry stores degree = its matches and bumps exactly those rows |
| JoinStep.DeleteDropsMatches | src/stream/src/executor/hash_join.rs:923-936 | a delete that finds the other side's entry fails iff a matching row has degree zero, otherwise lowers exactly those rows |
| JoinStep.DeleteRemovesPk | src/stream/src/executor/hash_join.rs:918-921 | a delete takes the pk out of its own side's entry under the key |
| JoinStep.NoMatchForwarded | src/stream/src/executor/hash_join.rs:880-895 | an insert that meets no row is forwarded as unmatched, and so is the matching delete |
| JoinStep.OuterFirstMatchSwaps | src/stream/src/executor/hash_join.rs:272-284 | on the NULL-padded side, for any matched row at degree zero anywhere in the entry, the insert loop's records are those of the rows before it, then U- of the padded matched row and U+ of the joined row, then those of the rows after it |
| JoinStep.OuterLastMatchSwapsBack | src/stream/src/executor/hash_join.rs:314-325 | on the NULL-padded side, for any matched row going from degree one to zero anywhere in the entry, the delete loop emits at its place U- of the padded matched row (as written) or of the joined row (corrected), then U+ of the padded matched row |
| JoinStep.SemiAntiInsertEmitsOnFirstMatch | src/stream/src/executor/hash_join.rs:256-270 | semi/anti, on the matched side, for any matched row anywhere in the entry: at its place the insert loop emits the matched row only at degree zero, an insert for semi and a delete for anti |
| JoinStep.SemiAntiDeleteEmitsOnLastMatch | src/stream/src/executor/hash_join.rs:298-312 | semi/anti, on the matched side, for any matched row anywhere in the entry: at its place a delete taking its degree from one to zero retracts it for semi and adds it back for anti |
| JoinStep.InsertScanOut | src/stream/src/executor/hash_join.rs:859-879 | the insert loop's records are the concatenation, row by row of the entry, of each matching row's `with_match_on_insert` records (none on a forwarded-exactly-once side) |
| JoinStep.DeleteScanOut | src/stream/src/executor/hash_join.rs:923-937 | a successful delete loop's records are the concatenation, row by row, of each matching row's delete records for its lowered degree |
| JoinStep.InsertRecordsAt | src/stream/src/executor/hash_join.rs:859-879 | the row-by-row insert records split at any row into those before it, its own, and those after it |
| JoinStep.DeleteRecordsAt | src/stream/src/executor/hash_join.rs:923-937 | the same split of the row-by-row delete records |
| JoinStep.AppendOnlyMatchConsumes | src/stream/src/executor/hash_join.rs:897-905 | with the optimisation, an insert that finds rows removes the first from the other side and is not stored |
| JoinStep.AppendOnlyNoMatchStores | src/stream/src/executor/hash_join.rs:906-911 | with the optimisation, an insert that finds nothing is stored with degree zero |
| JoinStep.StepKeepsWidths | src/stream/src/executor/hash_join.rs:849-954 | a step keeps every stored row at its side's width |
| JoinExecutor.HashJoinExecutor.constructor | src/stream/src/executor/hash_join.rs:370-482 | schema per join type, the append-only decision, empty hash tables |
| JoinExecutor.HashJoinExecutor.Condition | src/stream/src/executor/hash_join.rs:816-846 | the executor's join condition as a function of the two rows, evaluated on `ConditionRowAsWritten` (no contract; `CheckJoinCondition` computes it) |
| JoinExecutor.HashJoinExecutor.CheckJoinCondition | src/stream/src/executor/hash_join.rs:816-846 | with no condition the result is true; otherwise the condition evaluated on the row `row_concat` builds at the source's start positions (both 0 for semi/anti joins), which is `ConditionRowAsWritten` |
| JoinExecutor.HashJoinExecutor.ScanInsert | src/stream/src/executor/hash_join.rs:859-879 | the loop over matched rows computes the insert scan (new entries, degree, records) under the executor's condition |
| JoinExecutor.HashJoinExecutor.ScanDelete | src/stream/src/executor/hash_join.rs:923-937 | the loop computes the delete scan with the source's delete records (`AsWritten`), failing with the degree error at the first zero-degree match |
| JoinExecutor.HashJoinExecutor.MatchOnInsert | src/stream/src/executor/hash_join.rs:861-871 | one matched row on insert: the hit is the join condition, the row gains one degree exactly on a hit, and records are emitted (for the row before its degree rises) exactly on a hit outside forward-exactly-once |
| JoinExecutor.HashJoinExecutor.MatchOnDelete | src/stream/src/executor/hash_join.rs:925-933 | one matched row on delete: the hit is the join condition, a hit with a positive degree loses one degree, and the source's `with_match_on_delete` records are emitted for the lowered row exactly on a hit outside forward-exactly-once |
| JoinExecutor.HashJoinExecutor.InsertRow | src/stream/src/executor/hash_join.rs:855-916 | the insert half of one row computes `InsertStep` under the executor's condition |
| JoinExecutor.HashJoinExecutor.DeleteRow | src/stream/src/executor/hash_join.rs:917-954 | the delete half of one row computes `DeleteStep` with `AsWritten` |
| JoinExecutor.HashJoinExecutor.ProcessRow | src/stream/src/executor/hash_join.rs:849-955 | the side's two tables become those of `RowStep` (the source's step, `AsWritten`) and its records are returned; on the degree error both are left as they were |
| JoinExecutor.HashJoinExecutor.RowStep | src/stream/src/executor/hash_join.rs:849-955 | `Step` with `AsWritten`, the executor's join type, condition, optimisation flag and key and pk projections (no contract) |
| JoinExecutor.HashJoinExecutor.ChunkResult | src/stream/src/executor/hash_join.rs:799-960 | the rows of a chunk through `RowStep` in order: the final tables and all records, or the first error (no contract; see `ChunkStaysFailed`) |
| JoinExecutor.HashJoinExecutor.ChunkTables | src/stream/src/executor/hash_join.rs:799-960 | the tables after the longest prefix of the chunk that did not fail (no contract; see `ChunkFailsAt`, `ChunkTablesAfterFailure`) |
| JoinExecutor.HashJoinExecutor.ProcessChunk | src/stream/src/executor/hash_join.rs:799-960 | every row of the chunk in order; on success the records and tables are those of `ChunkResult`; on the first error the error is returned and the tables are `ChunkTables`, those left by the rows before the failing one |
| JoinExecutor.HashJoinExecutor.ChunkStaysFailed | src/stream/src/executor/hash_join.rs:849-955 | once a prefix of the chunk fails, every longer prefix fails |
| JoinExecutor.HashJoinExecutor.ChunkFailsAt | src/stream/src/executor/hash_join.rs:849-955 | if the first i rows succeed and row i fails, the whole chunk fails and its tables are those after the first i rows |
| JoinExecutor.HashJoinExecutor.ChunkTablesAfterFailure | src/stream/src/executor/hash_join.rs:849-955 | once a prefix fails, every longer prefix leaves the same tables |
| JoinExecutor.DeleteScanStaysFailed | src/stream/src/executor/hash_join.rs:925-928 | once the delete loop fails on a prefix, it fails on every longer one |
| Memcomparable.EndBoundOfPrefix | src/stream/src/common/table/state_table.rs:1062-1066 | `end_bound_of_prefix` as used for an included upper bound: the exclusive successor, or unbounded without one; `key.rs` is not part of this model (no contract; its meaning is proved in `SuccessorSeparates`) |
| Memcomparable.StartBoundOfExcludedPrefix | src/stream/src/common/table/state_table.rs:1070-1076 | `start_bound_of_excluded_prefix` as used for an excluded lower bound: the successor, included (no contract; see `SuccessorSeparates`) |
| Memcomparable.Successor | src/stream/src/common/table/state_table.rs:1062-1078 | the prefix successor: trailing 0xFF bytes are dropped and the last remaining byte is incremented; none iff every byte is 0xFF |
| Memcomparable.SuccessorSeparates | src/stream/src/common/table/state_table.rs:1062-1078 | a key is below the successor iff it is below the prefix or starts with it |
| Memcomparable.ToMemcomparable | src/stream/src/common/table/state_table.rs:1051-1080 | unbounded stays unbounded; lower included and upper excluded keep the encoded prefix; upper included becomes an exclusive end or unbounded; lower excluded an included start |
| Memcomparable.PrefixRangeToMemcomparable | src/stream/src/common/table/state_table.rs:1041-1049 | `prefix_range_to_memcomparable`: the lower bound converted as a lower bound, the upper as an upper bound (no contract; see `PrefixRangeToMemcomparableExact`) |
| Memcomparable.PrefixRangeToMemcomparableExact | src/stream/src/common/table/state_table.rs:1041-1049 | for every key, the converted bounds hold iff the pk-prefix bounds do, in both directions |
| StateTables.NormaliseValueIndices | src/stream/src/common/table/state_table.rs:204-212 | value indices covering every column in order become none (no contract; see `NormaliseValueIndicesKeepsValues`) |
| StateTables.NormaliseValueIndicesKeepsValues | src/stream/src/common/table/state_table.rs:204-212 | value indices become none exactly for the identity list, and the stored columns are unchanged |
| StateTables.Position | src/stream/src/common/table/state_table.rs:185-192 | the first position of the vnode column in the pk, or none |
| StateTables.DistKeyInPk | src/stream/src/common/table/state_table.rs:166 | every distribution-key column is found at its position in the pk |
| StateTables.SealWatermarks | src/stream/src/common/table/state_table.rs:691-700 | a seal counts a commit with a watermark and cleans (resetting the count) iff the count reaches 5 |
| StateTables.CommitWatermarks | src/stream/src/common/table/state_table.rs:665-700 | a commit: `update_watermark`'s count then the seal's (no contract; see `CommitCountsTwice`, `CleaningEveryThirdCommit`) |
| StateTables.CommitCountsTwice | src/stream/src/common/table/state_table.rs:665-700 | a commit with a watermark raises the count by two |
| StateTables.CleaningEveryThirdCommit | src/stream/src/common/table/state_table.rs:665-767 | from a clean state, with a watermark before each commit, the third commit cleans and the first two do not |
| StateTables.DeleteRanges | src/stream/src/common/table/state_table.rs:753-759 | one range `vnode ++ begin`..`vnode ++ end` per set vnode, in vnode order (no contract; see `DeleteRangesPerVnode`) |
| StateTables.DeleteRangesPerVnode | src/stream/src/common/table/state_table.rs:753-759 | one delete range per set vnode: each set vnode's range is present, each range belongs to a set vnode, and there are as many as set bits |
| StateTables.StateTable.constructor | src/stream/src/common/table/state_table.rs:133-232 | pk, dist key in pk, the given bitmap or the fallback with no dist key, vnode column position, normalised value indices, no watermark |
| StateTables.StateTable.PrefixVnodeDefined | src/stream/src/common/table/state_table.rs:409-416 | when `compute_prefix_vnode` does not panic: the vnode column is present and non-NULL in the prefix, or the prefix covers every dist-key-in-pk position (no contract; the precondition of `PrefixVnode`) |
| StateTables.StateTable.PrefixVnode | src/stream/src/common/table/state_table.rs:407-418 | `compute_prefix_vnode`: the vnode column's value, or the vnode hash of the dist key within the prefix (no contract; see `PrefixVnodeIsRowVnode`) |
| StateTables.StateTable.PkKey | src/stream/src/common/table/state_table.rs:574-578 | the key `insert`/`delete` build: the pk's prefix vnode, then the encoded pk (no contract; see `PkKeysDistinct`) |
| StateTables.StateTable.ChunkKey | src/stream/src/common/table/state_table.rs:624-636 | the key `write_chunk` builds: the row's vnode bytes, then the encoded pk (no contract; `WriteChunk` and `ApplyChunk` use it) |
| StateTables.StateTable.SerialiseValue | src/stream/src/common/table/state_table.rs:546-552 | `serialize_value`: the value columns (all columns when value indices are none), encoded (no contract; `Insert`, `Update`, `WriteChunk` store it) |
| StateTables.StateTable.PrefixVnodeIsRowVnode | src/stream/src/common/table/state_table.rs:407-422 | without a vnode column, the vnode of the pk equals the vnode of the row when the dist key in pk points at the dist key's columns |
| StateTables.StateTable.PkKeysDistinct | src/stream/src/common/table/state_table.rs:577 | with an injective pk encoding and fixed-width vnodes, different pks get different keys |
| StateTables.StateTable.GetCompactedRow | src/stream/src/common/table/state_table.rs:473-500 | returns the value under the pk's key iff the key is stored |
| StateTables.StateTable.UpdateVnodeBitmap | src/stream/src/common/table/state_table.rs:504-521 | on a clean table, same length, unchanged without a dist key: the old bitmap is returned and both watermarks are cleared |
| StateTables.StateTable.Insert | src/stream/src/common/table/state_table.rs:574-580 | the encoded row is stored under its pk's key |
| StateTables.StateTable.Delete | src/stream/src/common/table/state_table.rs:584-590 | the pk's key is removed |
| StateTables.StateTable.Update | src/stream/src/common/table/state_table.rs:593-607 | with equal pks, the new encoded row replaces the old under the key |
| StateTables.StateTable.WriteChunk | src/stream/src/common/table/state_table.rs:612-659 | each visible row is put (Insert/UpdateInsert) or removed (Delete/UpdateDelete) under its vnode ++ pk key; the table becomes dirty iff some row was visible |
| StateTables.StateTable.ApplyChunk | src/stream/src/common/table/state_table.rs:612-659 | the store after the first n rows of a chunk, each visible row put or removed under its key (no contract; `WriteChunk` computes it) |
| StateTables.StateTable.InvisibleChunkUnchanged | src/stream/src/common/table/state_table.rs:639-648 | a chunk with no visible row leaves the store unchanged |
| StateTables.StateTable.UpdateWatermark | src/stream/src/common/table/state_table.rs:661-663 | the latest watermark is set; nothing else changes |
| StateTables.StateTable.CanClean | src/stream/src/common/table/state_table.rs:703-713 | cleaning unwraps the pk prefix serializer, so a seal that cleans needs a non-empty pk (no contract; the precondition of `SealCurrentEpoch`) |
| StateTables.StateTable.SealCurrentEpoch | src/stream/src/common/table/state_table.rs:691-769 | the watermark state is `SealWatermarks`; the store is given one delete range per set vnode when cleaning, none otherwise; epoch advanced, clean |
| StateTables.StateTable.Commit | src/stream/src/common/table/state_table.rs:665-671 | at the previous epoch: count a watermark, then seal |
| StateTables.StateTable.CommitNoDataExpected | src/stream/src/common/table/state_table.rs:681-688 | a clean table at the previous epoch is sealed with no delete range; watermarks untouched |
| BatchUpdate.Interleave | src/batch/src/executor/update.rs:113-117 | old and updated rows alternating, old first (no contract; see `InterleavePairs`) |
| BatchUpdate.UpdateOps | src/batch/src/executor/update.rs:124-128 | `UpdateDelete`, `UpdateInsert` cycled over 2n rows (no contract; see `UpdateOpsPairs`) |
| BatchUpdate.UpdateChunk | src/batch/src/executor/update.rs:110-130 | the stream chunk written for one input chunk: those ops over the columns of the interleaved rows (no contract; see `UpdateChunkPairs`) |
| BatchUpdate.InterleavePairs | src/batch/src/executor/update.rs:113-117 | row 2i is old row i and row 2i+1 its update |
| BatchUpdate.UpdateOpsPairs | src/batch/src/executor/update.rs:124-128 | the ops are n pairs (UpdateDelete, UpdateInsert) |
| BatchUpdate.UpdateChunkPairs | src/batch/src/executor/update.rs:110-130 | in every column, row 2i holds old row i's datum and 2i+1 the updated one; the ops alternate U-, U+ |
| BatchUpdate.SwapColumnsExample | src/batch/src/executor/update.rs:216-305 | the test's column swap, for n rows (1,2), (3,4), ...: column 0 reads 1, 2, ..., 2n and column 1 reads 2, 1, 4, 3, ... |
| BatchUpdate.SwapColumns | src/batch/src/executor/update.rs:226-229 | updating two-column rows with the swapping expressions yields, in column 0, each old value followed by the other old value of its row, and in column 1 the same pairs swapped, for every row count |
| BatchUpdate.AsI64 | src/batch/src/executor/update.rs:149 | the count as i64: unchanged below 2^63, wrapped two's-complement above |
| BatchUpdate.NotifiersCountPairs | src/batch/src/executor/update.rs:137-144 | half the notifiers' total is the number of input rows |
| BatchUpdate.DmlManager.WriteChunk | src/batch/src/executor/update.rs:132 | a table with a reader queues the chunk and returns its row count; otherwise an error, nothing queued |
| BatchUpdate.UpdateExecutor.constructor | src/batch/src/executor/update.rs:48-72 | requires the child's types to be the expressions' return types; the schema is one Int64 column |
| BatchUpdate.UpdateExecutor.BuildOps | src/batch/src/executor/update.rs:124-128 | the cycled ops are `UpdateOps(n)` |
| BatchUpdate.UpdateExecutor.BuildColumns | src/batch/src/executor/update.rs:112-122 | the builders filled row by row hold the columns of the interleaved rows |
| BatchUpdate.UpdateExecutor.Execute | src/batch/src/executor/update.rs:91-156 | with a reader: every input chunk is written as its update chunk, in order, and the result is the input row count as one Int64; without one: an error for non-empty input, nothing written; with no input chunk the result is 0 and nothing is written, reader or not |
| CreateDatabase.ResolveResourceGroup | src/frontend/src/handler/create_database.rs:84-95 | no value, or a value resolving to the default, gives the default group; invalid iff a value is given and does not resolve; unlicensed iff it resolves to a named group without the license; a group that resolves by name, even the default's, is returned only with the license |
| CreateDatabase.Notices | src/frontend/src/handler/create_database.rs:97-110 | a barrier-interval notice iff the interval is given and >= its threshold, likewise for the checkpoint frequency; as many notices as those conditions hold, the barrier one first and the checkpoint one last |
| CreateDatabase.Decide | src/frontend/src/handler/create_database.rs:42-110 | unknown session user: PermissionDenied; no privilege: denied; skip with the "exists" notice iff permitted, existing and IF NOT EXISTS; existing otherwise: duplicated; a permitted statement for a new name whose owner and resource group resolve is created, carrying them, the given options and the threshold notices; with a resolving owner, a failing resource group gives that group's error |
| CreateDatabase.PrivilegeBeforeExistence | src/frontend/src/handler/create_database.rs:42-69 | without the privilege the answer is the same denial whatever databases exist and whatever the statement |
| CreateDatabase.OwnerResolution | src/frontend/src/handler/create_database.rs:71-82 | past the privilege and existence checks, an unknown named owner refuses the statement whatever its resource group; a created database is owned by the named user or, with none named, by the session user |
| CreateDatabase.NoticesNeverBlock | src/frontend/src/handler/create_database.rs:97-110 | changing the barrier interval and checkpoint frequency changes neither admission nor owner nor group |
| CreateDatabase.Catalog.Admit | src/frontend/src/handler/create_database.rs:39-110 | the early-return checks and notice accumulation compute `Decide` |
| CreateDatabase.Catalog.CollectNotices | src/frontend/src/handler/create_database.rs:97-110 | the notices accumulated as the response builder does are `Notices` |
| CreateDatabase.Catalog.HandleCreateDatabase | src/frontend/src/handler/create_database.rs:28-124 | errors and skips leave the catalog unchanged; a create adds the database when the writer succeeds, and fails with nothing written otherwise |
| CreateDatabase.CreateDatabaseScenario | src/frontend/src/handler/create_database.rs:130-183 | the handler's test: the superuser creates `database`, a user with neither privilege is denied `database2`, a user with the create-db privilege then creates it, owned by itself in the default group; both databases exist |

## Left out

- The join hash tables' LRU cache, their persistence to the state store (`flush_data`) and the
  async prefetch and AIMD queue-depth logic of `into_stream`/`prefetch_message`. The model is
  the sequential per-row step over in-memory tables.
- The chunk builder's splitting of output into chunks of `PROCESSING_WINDOW_SIZE` rows, and
  its column layout. Records carry the left and right parts of an output row instead.
- Errors raised by the join condition expression and the panic on a NULL condition result.
  The condition is a total boolean function.
- JoinExecutor.HashJoinExecutor.ProcessRow: when `dec_degree` fails part-way, the source has
  already changed some degrees and removed the row from its own side. The model returns the
  error with both tables unchanged.
- `JoinEntryState` is modelled as a sequence of rows in insertion order, not as its B-tree
  ordered by pk. So the records for several matched rows come out in insertion order, where
  the source emits them in pk order. The append-only optimisation's "first" matched row is
  likewise the first inserted, not the smallest pk.
- JoinStep.ScanRoundTrip: proved only where `RetractsJoined` holds. For the source's delete
  records on the NULL-padded side of an outer join it fails (see Findings).
- JoinStep.InsertThenDeleteRestores: the balanced changelog is proved only where
  `RetractsJoined` holds; the restored state holds for both modes.
- JoinStep.MatchedRoundTripBalanced: proved only where `RetractsJoined` holds, as above.
- JoinStep.RowRoundTripBalanced: proved only where `RetractsJoined` holds, as above.
- JoinStep.MatchRoundTripBalanced: proved for the corrected delete records only.
- The pk and value encodings (`OrderedRowSerde`), `compute_vnode` and the vnode byte encoding
  are parameters.
- The mem-table conflict panic of `insert_inner`/`delete_inner` is left out. "Dirty" means
  written since the last seal.
- Delete ranges are recorded as handed to the store, not applied to it.
- The sanity checks, the bloom-filter read options, the `prefix_hint_len` debug assertion, and
  the iterator functions of the state table are left out.
- Memcomparable.Successor: `end_bound_of_prefix` and `start_bound_of_excluded_prefix` live in
  `key.rs`, which is not part of this model. They are defined here as the prefix successor.
  A lower excluded bound whose encoding is all 0xFF is excluded by a precondition.
- StateTables.DistKeyInPk: `get_dist_key_in_pk_indices` panics when a distribution-key column
  is not in the pk. The model states that as a precondition of the constructor.
- `DataChunk::compact()` is left out: the input chunks are their visible rows.
- Errors from evaluating the update expressions are left out; expressions are total.
- The real DML manager is left out. It is modelled as a map from table to queued chunks.
- BatchUpdate.UpdateExecutor.Execute: a notifier resolves to the written chunk's row count, and
  a failed wait is not modelled.
- `Binder::resolve_database_name` / `resolve_user_name` are left out: names arrive resolved.
- The response builder's statement type and the notice texts: notices are tagged values.
- `resolve_resource_group`, the license check and the catalog writer RPC are parameters.
- The values of `NOTICE_BARRIER_INTERVAL_MS`, `NOTICE_CHECKPOINT_FREQUENCY` and
  `DEFAULT_RESOURCE_GROUP` are parameters, because they are defined outside this model.
- Integer widths: degrees, counts, epochs, the barrier interval (u32) and the checkpoint
  frequency (u64) are unbounded. Only the final i64 cast of the update count is written out.

## Findings

The executor keeps the behaviour as written for both rows below. The corrected definitions
are references, and the lemmas named in the last column are proved about them.

| source | as written | input that shows it | evidently intended | confidence | as-written member | corrected member |
|---|---|---|---|---|---|---|
| src/stream/src/executor/hash_join.rs:314-325 | when a delete takes a matched row on the NULL-padded side of an outer join to degree zero, `with_match_on_delete` emits U- of the padded matched row and U+ of the same padded row | LeftOuter, left row (2,5) stored, right row (2,7) inserted (adds (2,5,2,7)) then deleted: (2,5,2,7) is never retracted | U- of the joined row, then U+ of the padded matched row, mirroring `with_match_on_insert` | not executed | JoinStep.WithMatchOnDeleteAsWrittenUnbalanced | JoinStep.MatchRoundTripBalanced |
| src/stream/src/executor/hash_join.rs:816-846 | for semi/anti joins both start positions are 0, and `check_join_condition` concatenates with them, so the matched row overwrites the update row | left semi join, left row (1,4), right row (1,8): the condition sees (1,8,NULL,NULL) | the condition sees left ++ right, (1,4,1,8) | not executed | JoinTypes.ConditionRowAsWrittenCounterexample | JoinTypes.ConditionRowLeftRight |
