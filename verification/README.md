# Flagr: deciding variants, serving them, editing them

Flagr decides which variant of a flag an entity gets. This project models the three layers
behind a decision and proves what they guarantee together.

1. **Bucketing and rollout.** Percentages become prefix sums over 1000 buckets, a binary
   search finds the entry of an entity's bucket, and unsigned integer arithmetic admits a
   prefix of that entry's buckets (`Bucketing.dfy`, `Shares.dfy`).
2. **Evaluation and its cache.** A first-match walk over ordered segments
   (`Preparation.dfy`, `Evaluation.dfy`), served from ID, key and tag indexes that are rebuilt
   in the background and swapped under a readers-writer lock (`EvalCacheIndexes.dfy`,
   `EvalCacheService.dfy`, `Batches.dfy`, `CacheProtocol.dfy`, `CacheProgress.dfy`).
3. **Editing.** Eighteen request handlers mutate soft-deleted tables and append snapshots
   (`Tables.dfy`, `Database.dfy`, `Handlers.dfy`, `Store.dfy`). `Handlers.Step` is one request,
   `Handlers.Execute` a run from empty tables; `Store.CRUD` is the mutable store whose methods
   are proved to leave behind exactly the tables of the step, so that a run of the store is
   a run of the steps (`Store.CRUD.Run`).

What is proved over whole runs is in `Integrity.dfy`, `Agreement.dfy`, `Frames.dfy`,
`Audit.dfy`, `AuditLimits.dfy`, `SnapshotChain.dfy`, `Ordering.dfy` and `Tagging.dfy`; what
single edits do to the tables and to everybody's answers is in `FlagLife.dfy`,
`SegmentLife.dfy`, `VariantLife.dfy`, `DistributionOrder.dfy`, `Templates.dfy`,
`Constraints.dfy` and `EditEffects.dfy`.
`Serving.dfy` joins the tables to the answers of a reloaded cache, and `EndToEnd.dfy` runs the
mutable store and the mutable cache one after the other.

## Reading the statements

- A `Library` holds the two external libraries: the checksum and the constraint language.
  Every theorem is for every checksum, every parser and every evaluator.
- `AllInBounds` is what the request schema enforces before a handler runs: percentages and
  rollout percentages from 0 to 100, positive variant IDs.
- `AllWellAddressed` says that the segment, variant or constraint in each request's path, where
  it exists, belongs to the flag in the path, and that distributions and constraints are put
  under segments that exist. The handlers do not check this. Theorems that need it say so.
  What goes wrong without it is shown on two runs, each beside the exact condition:
  `StrayDistributionsDouble` beside `StepKeepsSumsExactly`, and `MisaddressedEditIsNoticed`
  beside `MisaddressedPutSegment`.
- `JoinsParse` says that the constraint parser accepts two expressions it accepts when they are
  joined by AND; `Readable` that the evaluator reads a segment's joined expression as the
  conjunction of its constraints. Both are about the external constraint language; theorems
  that need them say so.
- `SameAnswer` compares whole evaluation results but for the snapshot ID they report.
- A panic of the source is an outcome of the model (`Panic`, `Crashed`), not a precondition.

## Where code and documentation part

- The comment on `FlagSnapshot` says that any change of a flag creates a snapshot. Of the
  requests addressed to a live flag exactly two change it without one: deleting the flag, and
  deleting a variant that is refused after zero-percent rows were deleted (`UnrecordedExactly`;
  `RefusedDeletionIsUnrecorded` is a run that does). A request addressed to a flag that is not
  live takes none either, even if it is accepted, unless it restores the flag
  (`SnapshotTakenExactly`), and one that reaches another flag's rows takes none of that flag
  (`MisaddressedPutSegment`). In well-addressed runs evaluation cannot tell
  (`AuditEquivalence`).
- The percentages of a segment are meant to sum to 100. A template flag created while
  distributions wait under the next segment ID starts with more, and nothing else breaks the
  sums (`StepKeepsSumsExactly`, `SumsExactThroughout`).
- The overview says that an R percent rollout admits the first R percent of a variant's
  buckets. The code rounds: up if the fraction of a bucket that is left over reaches R
  hundredths, else down, so the promise is exact if and only if R percent of the width is a
  whole number of buckets (`AdmittedIsWithinOneBucket`).
- The API says that a flag ID or a flag key resolves to the same flag, either works. A key
  made of digits is also looked up as an ID and the other way round; `LookupExactly` gives the
  exact condition under which the lookup is the simple one, `DigitKeyFindsAnID` a case where
  it is not.
- The batch limit counts a tag query once per entity however many flags it selects;
  `BatchSize` says exactly when the results outnumber the limit's count.

## Model

| member | source | states |
|---|---|---|
| Bucketing.Crc32Num | pkg/entity/distribution.go:99-103 | the bucket number is below 1000 for every checksum |
| Bucketing.SameBucketExactly | pkg/entity/distribution.go:99-103 | two entities share a bucket under every checksum if and only if their salted IDs are the same text |
| Bucketing.SearchSplits | pkg/entity/distribution.go:74-77 | on a non-decreasing list the binary search finds the split between the elements below the key and the others |
| Bucketing.BucketByNumFindsTheInterval | pkg/entity/distribution.go:74-77 | the index found is the only entry whose interval contains the bucket; there is none exactly when the bucket is past ten times the percent sum |
| Bucketing.ZeroPercentNeverChosen | pkg/entity/distribution.go:74-77 | the entry found has a positive percentage |
| Bucketing.ArrayTabulates | pkg/entity/segment.go:67-74 | the prefix sums, without wrap-around, are the upper edges of consecutive intervals of ten buckets per percent |
| Bucketing.AdmitsIsPrefix | pkg/entity/distribution.go:79-97 | on the bucket's own entry the unsigned subtraction and products do not wrap, and exactly the first `Admitted` buckets of the interval are admitted |
| Bucketing.RolloutRefinesWalk | pkg/entity/distribution.go:74-97 | prefix sums, binary search and word arithmetic compute the walk along the intervals, for every bucket, every rollout percentage and every list of percentages that fits the word, whatever its sum |
| Bucketing.RolloutPanicsExactly | pkg/entity/distribution.go:46-77 | the rollout indexes out of range, at any rollout percentage, if and only if it consults a non-empty list and the bucket is at or past ten times the percent sum |
| Bucketing.RolloutMonotone | pkg/entity/distribution.go:46-97 | an entity assigned at R is assigned the same variant at every R' from R on; nobody at 0; everybody with an ID at 100 |
| Bucketing.SamePrunedSameRollout | pkg/entity/distribution.go:46-97 | two lists that agree up to zero-percent entries roll out alike for every entity, salt and percentage |
| Shares.ExactShares | pkg/entity/distribution.go:74-97 | the number of the 1000 buckets assigned to a variant is the sum of the admitted parts of its entries, repeated variants included |
| Shares.VariantShare | pkg/entity/distribution.go:79-97 | with distinct variants the assigned buckets are one interval from the entry's edge, `Admitted(10*p, R)` long |
| Shares.AdmittedIsWithinOneBucket | pkg/entity/distribution.go:87-96 | the admitted number is all at 100, none at 0, between them w*R/100 rounded up exactly when the remainder reaches R, less than one bucket off, and exact if and only if R percent of the width is whole |
| Shares.ReassignmentStability | pkg/entity/distribution.go:74-77 | changing the percentages of the same ordered variants moves at most as many buckets as the interior boundaries moved, exactly so for two variants |
| Preparation.SegmentRecord.PrepareEvaluation | pkg/entity/segment.go:50-78 | the filled arrays and the parsed expression are the segment's evaluation; on a parse error nothing changes |
| Preparation.FlagRecord.PrepareEvaluation | pkg/entity/flag.go:70-83 | succeeds exactly when every segment prepares, and then the flag is the prepared flag |
| Preparation.PrepareAfterSerialize | pkg/entity/flag.go:28 | preparation recomputes whatever the JSON form drops, so a serialized flag prepares to the same flag or fails likewise |
| Preparation.VariantsMapFinds | pkg/entity/flag.go:79-81 | the variant map holds exactly the listed IDs, and with distinct IDs the listed variants |
| Evaluation.FirstMatch | pkg/handler/eval.go:228-240 | the index is that of the first segment whose constraints match, or the number of segments |
| Evaluation.MakeBlankResult | pkg/handler/eval.go:144-171 | the tag loop yields the blank result with every tag value in order |
| Evaluation.EvalFlagWithContext | pkg/handler/eval.go:199-253 | the segment loop with its early exit and its crash path computes the first-match reference for every flag, found or not, enabled or not |
| Evaluation.LaterSegmentsDoNotMatter | pkg/handler/eval.go:237-239 | once a segment matches, appended segments do not change the decision, even if the match is not rolled out |
| Evaluation.NoMatchMeansNoVariant | pkg/handler/eval.go:224-250 | without a match the variant is 0 and the last segment is reported |
| Evaluation.UndecidedAnswersBlank | pkg/handler/eval.go:203-214 | a disabled flag, one without segments and one that is not found answer segment 0, variant 0, no key and no attachment to everybody, the last under the ID and key asked for |
| Evaluation.AnswersNameWhatWasAsked | pkg/handler/eval.go:144-171 | every answer names the flag, its key, snapshot and tag values, the entity, and where a segment decides a non-empty entity ID and the flag's entity type |
| Evaluation.AnswerReadsTheEntity | pkg/handler/eval.go:199-253 | for a flag that is found only the entity's ID, type and context matter, not the ID, key and tags asked for |
| Evaluation.FlagsRollOutIndependently | pkg/handler/eval.go:343-347 | rollouts are salted by the flag: for any two buckets some checksum puts the same entity into the one for the one flag and into the other for the other |
| Text.DecimalInjective | pkg/handler/eval_cache_fetcher.go:51-53 | different IDs have different index keys |
| EvalCacheIndexes.IndexAllIndexes | pkg/handler/eval_cache_fetcher.go:45-65 | for distinct IDs and keys the three maps agree with the list in both directions |
| EvalCacheIndexes.FailsWith | pkg/handler/eval_cache_fetcher.go:45-49 | preparing the list fails exactly when some flag of it fails |
| EvalCacheIndexes.BuildIgnoresOrder | pkg/handler/eval_cache_fetcher.go:35-67 | lists of the same flags in any order build equal indexes or fail alike |
| EvalCacheIndexes.TagQueryScans | pkg/handler/eval_cache.go:66-131 | ANY selects exactly the flags with at least one of the tags, ALL exactly those with every one, none for no tags |
| EvalCacheIndexes.LookupExactly | pkg/handler/eval.go:173-182 | the lookup is by ID, else by key, else nothing, if and only if a flag has the ID or ID and key cannot be taken for one another |
| EvalCacheIndexes.DigitFreeLookup | pkg/handler/eval.go:173-182 | it is when neither the requested key nor any flag key is all digits |
| EvalCacheIndexes.DigitKeyFindsAnID | pkg/handler/eval_cache.go:134-145 | it is not when the key "7", which no flag has, is asked of a flag with ID 7 |
| EvalCacheIndexes.ExportImportRoundTrip | pkg/handler/eval_cache_fetcher.go:22-67 | rebuilding from the JSON form of an export, whatever its order, gives back the same three indexes |
| EvalCacheService.Deduplicate | pkg/handler/eval.go:58-82 | the loop keeps the first occurrences |
| EvalCacheService.UniqueKeepsFirstOccurrences | pkg/handler/eval.go:58-82 | nothing lost, nothing repeated, first occurrences in their order |
| EvalCacheService.BatchSize | pkg/handler/eval.go:84-96 | the number of results of a batch, and that it exceeds what the limit counts exactly when a tag query selects more than one flag |
| EvalCacheService.EvalCache.FetchAllFlags | pkg/handler/eval_cache_fetcher.go:35-67 | the nested loops build the indexes of the prepared list; any fetch or preparation error yields nothing |
| EvalCacheService.EvalCache.ReloadMapCache | pkg/handler/eval_cache.go:147-170 | the shared container is replaced on success and untouched on failure |
| EvalCacheService.EvalCache.GetByTagsAny | pkg/handler/eval_cache.go:85-98 | the copy loop computes the union over the known tags |
| EvalCacheService.EvalCache.GetByTagsAll | pkg/handler/eval_cache.go:100-131 | the loop with its deletions and early exits computes the flags under every tag |
| EvalCacheService.EvalCache.GetByTags | pkg/handler/eval_cache.go:66-83 | lists each selected flag once, in some order; an unknown operator selects none |
| EvalCacheService.EvalCache.Export | pkg/handler/eval_cache_fetcher.go:22-33 | lists the ID index, each flag once, in some order |
| EvalCacheService.EvalCache.EvalFlag | pkg/handler/eval.go:194-197 | evaluates the looked-up flag; crashes only if a cached flag can |
| EvalCacheService.EvalCache.EvalFlagsByTags | pkg/handler/eval.go:184-192 | one evaluation for each selected flag |
| EvalCacheService.EvalCache.PostEvaluationBatch | pkg/handler/eval.go:50-141 | refused exactly when a positive limit is below the charge; otherwise, entity by entity, tagged flags, then deduplicated IDs, then deduplicated keys |
| Batches.IDResultIsSingle | pkg/handler/eval.go:112-123 | a batch result for an ID is what asking for that ID alone answers in every context with the entity's ID, type and context |
| Batches.KeyResultIsSingle | pkg/handler/eval.go:124-135 | the same for a key |
| Batches.TagResultsAreSingle | pkg/handler/eval.go:100-111 | the same for each flag that the tags select |
| Batches.BlockAnswersIDs | pkg/handler/eval.go:99-136 | an entity's results are, behind those for the tags, the single evaluations of each different ID in order |
| Batches.BlockAnswersKeys | pkg/handler/eval.go:99-136 | and behind those of each different key in order |
| Batches.BatchIsEntityByEntity | pkg/handler/eval.go:98-141 | a batch of many entities is, at computable places, the batches of each of them |
| CacheProtocol.SingleGenerationReads | pkg/handler/eval_cache.go:85-170 | in every interleaving of readers and builders each reply is what its query answers on one container that was installed, the empty one or one built from one successfully fetched list |
| CacheProtocol.ReadersSeeNoSwap | pkg/handler/eval_cache.go:137-168 | no generation is installed between a reader's lock and unlock, and no builder holds the lock meanwhile |
| CacheProtocol.ReadsAreScans | pkg/handler/eval_cache.go:85-145 | with distinct IDs and keys each reply is a scan of one generation of the flag list |
| CacheProtocol.FailedReloadChangesNothing | pkg/handler/eval_cache.go:152-156 | a failed fetch or preparation changes nothing |
| CacheProgress.FetchedIsServed | pkg/handler/eval_cache.go:147-170 | after a builder swaps, and until one swaps again, every reply is what its query answers on the list that this builder fetched, whatever is interleaved |
| CacheProgress.ReloadCompletes | pkg/handler/eval_cache.go:147-170 | a builder that meets no reader installs what it fetched and releases the lock |
| CacheProgress.ReadCompletes | pkg/handler/eval_cache.go:85-145 | a reader that finds the lock free answers, after a number of accesses bounded by its query, on the container it found |
| Store.CRUD.HandleCreateFlag | pkg/handler/crud_flag_creation.go:11-61 | leaves exactly the tables of the step, the failing branches none of it |
| Store.CRUD.HandlePutFlag | pkg/handler/crud.go:225-275 | leaves exactly the tables and the status of the step |
| Store.CRUD.HandlePutSegmentsReorder | pkg/handler/crud.go:468-491 | the loop leaves every listed segment the rank of its last position; a missing segment rolls everything back |
| Store.CRUD.ValidatePutDistributions | pkg/handler/validate.go:10-47 | accepts exactly the requests whose percentages are given and sum to 100 and whose variants are live ones of a live flag under their current keys |
| Store.CRUD.HandlePutDistributions | pkg/handler/crud.go:574-607 | the segment's rows are replaced by the requested ones in order, other rows stay |
| Store.CRUD.ValidateDeleteVariant | pkg/handler/validate.go:49-70 | deletes exactly the zero-percent rows visited before the first other one, and accepts exactly when there is no other one |
| Store.CRUD.HandleDeleteVariant | pkg/handler/crud.go:702-713 | leaves exactly the tables and the status of the step, the partial deletions of a refusal included |
| Store.CRUD.Run | pkg/handler/crud.go:225-713 | handling any requests one after the other leaves the store in the state of the run, from wherever earlier requests have led |
| Agreement.ExecuteKeepsSumsReach | pkg/handler/validate.go:10-20 | after any requests in bounds, whatever they address, a segment's live percentages are absent or sum to 100, or to 200 in an existing segment |
| Agreement.StepKeepsSumsExactly | pkg/handler/crud_flag_creation.go:85-94 | a request keeps every segment's live percentages absent or at exactly 100 if and only if it does not create a template flag while live distributions wait under the next segment ID |
| Agreement.SumsExactThroughout | pkg/handler/crud.go:574-607 | they are so throughout a run if and only if no such creation occurs in it |
| Agreement.StrayDistributionsDouble | pkg/handler/crud_flag_creation.go:85-94 | a run of three requests that ends with a sum of 200 because one did not |
| Agreement.EvaluationNeverCrashes | pkg/entity/distribution.go:74-77 | after any requests in bounds no flag indexes out of range for any entity |
| Agreement.ExecuteKeepsSound | pkg/handler/validate.go:28-44 | after well-addressed requests every live distribution names a variant of its segment's flag by the current key, a live one if the segment is live |
| Agreement.AssignedKeysAgree | pkg/handler/eval.go:245-249 | an assigned variant is always found: a live variant of the flag with a positive percentage in the deciding segment, reported by its current key, which is also the distribution's, and attachment |
| Frames.StepLeavesOthers | pkg/handler/crud.go:225-713 | a well-addressed request leaves every other flag's row and everything it loads unchanged |
| Tagging.CreateTagTags | pkg/handler/crud.go:385-404 | afterwards a flag carries a value if and only if it did or it is the flag and the value of the request |
| Tagging.DeleteTagUntags | pkg/handler/crud.go:330-342 | afterwards a flag carries a value if and only if it did and the two are not the flag and the tag of the request |
| Tagging.CarriedTags | pkg/handler/crud.go:330-404 | after any requests a flag carries a value if and only if the last accepted tag request about the two created it |
| Audit.AlikeEvaluateAlike | pkg/handler/eval.go:199-253 | flags that differ only in zero-percent rows, snapshot, updater and variants that cannot be assigned prepare alike and answer every entity alike |
| Audit.AuditEquivalence | pkg/entity/flag_snapshot.go:24-73 | between any two requests of a well-addressed run the flag stored in a live flag's snapshot answers every entity as the live flag does |
| Audit.DeleteVariantIsInvisible | pkg/handler/crud.go:702-713 | deleting a variant, done or refused part-way, changes no flag's answer to any entity |
| AuditLimits.SnapshotTakenExactly | pkg/entity/flag_snapshot.go:24-41 | a request takes a snapshot if and only if it is accepted, does not delete a flag, and its flag was live before or is created or restored |
| AuditLimits.UnrecordedExactly | pkg/entity/flag_snapshot.go:14-15 | a request to a live flag changes what it loads, or its life, without a snapshot if and only if it deletes the flag, or is a variant deletion that meets a zero-percent row first and another one later |
| AuditLimits.RefusedDeletionIsUnrecorded | pkg/handler/validate.go:56-67 | a well-addressed run of six requests whose last, a refused deletion, does |
| AuditLimits.MisaddressedPutSegment | pkg/handler/crud.go:444-466 | after a segment is put through a flag's path another flag stays audited if and only if the segment is not a live one of it or keeps its percentage and description |
| AuditLimits.MisaddressedEditIsNoticed | pkg/handler/crud.go:444-466 | a run whose only misaddressed request is the last, after which a live flag and its snapshot answer differently |
| SnapshotChain.SnapshotsFormChains | pkg/entity/flag_snapshot.go:27-68 | after any requests every flag points to its newest snapshot, 0 if none, and every snapshot body carries the ID of the one before |
| SnapshotChain.ChainVisitsEverySnapshot | pkg/entity/flag_snapshot.go:45-68 | following the stored IDs from a flag visits all its snapshots and no other, newest first |
| SnapshotChain.SnapshotsAreKept | pkg/entity/flag_snapshot.go:45-46 | snapshots are never altered or removed |
| Ordering.LoadOrder | pkg/entity/flag.go:46-49 | segments load by rank, then by ID |
| Ordering.NewSegmentIsLast | pkg/handler/crud.go:406-423 | a new segment loads last if and only if no segment of the flag ranks beyond the default |
| Ordering.CreateSegmentNeverPreempts | pkg/handler/crud.go:406-423 | when no reorder listed more than 1000 IDs, every entity that matched an existing segment keeps its answer |
| Ordering.ReorderIsObeyed | pkg/handler/crud.go:468-491 | listed segments load in the requested relative order; of repeated IDs the last position counts |
| Ordering.ReorderIsExact | pkg/handler/crud.go:468-491 | a permutation of the flag's live segments is loaded exactly as requested |
| EditEffects.RequestedSharesAreDelivered | pkg/handler/crud.go:574-607 | after an accepted request each variant is assigned exactly the admitted part of ten buckets per requested percent, at every rollout percentage |
| DistributionOrder.DistributionsLoadInOrder | pkg/entity/segment.go:27-35 | distributions load by variant ID, then by row ID |
| DistributionOrder.RequestOrderDoesNotMatter | pkg/handler/crud.go:574-607 | two accepted requests that list the same bodies in any order, each variant once, give every entity of every flag the same answer |
| DistributionOrder.RequestsReassignFew | pkg/entity/distribution.go:12-17 | between two accepted requests that name the same variants in any order at most as many buckets change hands as the boundaries moved, and for two variants exactly ten per percent |
| EditEffects.PutVariantReassignsNobody | pkg/handler/validate.go:72-82 | putting a variant keeps every entity's segment and variant, and the whole answer unless that variant is assigned |
| EditEffects.RestoreUndoesDelete | pkg/handler/crud.go:300-328 | a deleted and restored flag loads as before but for the new snapshot |
| FlagLife.RestoringRestores | pkg/handler/crud.go:300-328 | and gives everybody the answer from before |
| FlagLife.DisablingSilences | pkg/handler/crud.go:277-298 | after a flag is disabled every answer of it is blank |
| FlagLife.EnablingRestores | pkg/handler/crud.go:277-298 | enabling it again gives everybody the answer from before |
| FlagLife.SegmentReportedExactly | pkg/handler/eval.go:208-214 | an answer reports a segment, a live one of the flag, if and only if the flag is enabled and loads any |
| FlagLife.NewFlagLoads | pkg/handler/crud_flag_creation.go:11-61 | an accepted creation adds a live, disabled flag as described, under its key and first snapshot; any other leaves no trace |
| FlagLife.NewFlagAnswersBlank | pkg/handler/crud_flag_creation.go:11-61 | so it answers blank to everybody until it is enabled |
| FlagLife.PatchedFlagLoads | pkg/handler/crud.go:225-275 | an accepted patch writes exactly the given fields; any other leaves no trace |
| FlagLife.PatchReassignsNobody | pkg/handler/crud.go:225-275 | a patch changes nobody's segment, variant, key or attachment |
| FlagLife.AnswersNameTheFlag | pkg/handler/eval.go:144-171 | after any requests an answer names the flag's ID, current key and newest snapshot, and the tags that the last requests about them created |
| FlagLife.SnapshotRecordsTheRequest | pkg/entity/flag_snapshot.go:45-68 | a snapshot is of the flag as it then loads, by the sender, and the flag then names both |
| SegmentLife.DeletedSegmentLoads | pkg/handler/crud.go:493-500 | every flag loads its segments but for the deleted one, in the same order |
| SegmentLife.DeletionConcernsItsOwn | pkg/handler/crud.go:493-500 | whoever is decided by another segment keeps the whole answer |
| SegmentLife.PutSegmentWrites | pkg/handler/crud.go:444-466 | every flag loads its segments in the same order, the put one as described; a missing segment leaves no trace |
| SegmentLife.RaisingTakesNothingAway | pkg/handler/crud.go:444-466 | raising a segment's rollout percentage, after any requests in bounds, changes no answer that assigned a variant |
| VariantLife.DeletionDeletesExactly | pkg/handler/crud.go:702-713 | a variant is live afterwards if and only if it was and is not the one whose deletion was accepted |
| VariantLife.DeletionLoads | pkg/handler/crud.go:702-713 | every flag loads its variants but for the deleted one, in the same order |
| VariantLife.DeletionLeavesNoRow | pkg/handler/validate.go:49-70 | after a well-addressed one no live distribution of a live segment names the variant |
| VariantLife.DeletedVariantStaysDeleted | pkg/handler/validate.go:28-44 | whatever is requested later it stays deleted, no flag loads it, and every request for distributions that names it is refused |
| VariantLife.CreatedVariantLoads | pkg/handler/crud.go:625-649 | a created variant loads last, with the key and attachment sent; a malformed request leaves no trace |
| VariantLife.CreatedVariantIsInvisible | pkg/handler/crud.go:625-649 | it changes nobody's answer |
| VariantLife.PutVariantIsReported | pkg/handler/crud.go:667-700 | whoever is assigned a put variant is told the new key and attachment |
| EditEffects.CreatedConstraintSparesTheSatisfied | pkg/handler/crud.go:502-522 | an entity that satisfies a created constraint keeps its whole answer from every flag |
| Templates.TemplateServesEverybody | pkg/handler/crud_flag_creation.go:65-101 | a flag created from the template serves every entity its variant "on" once enabled, unless stray rows waited under its IDs |
| Constraints.InvalidConstraintIsRefused | pkg/handler/crud.go:510-512 | a constraint that misses a part, has an unknown operator or does not parse is refused without a trace |
| Constraints.OppositeOperators | pkg/entity/constraint.go:26-39 | opposite operators have opposite expressions |
| Constraints.MatchesEveryConstraint | pkg/entity/constraint.go:78-95 | an entity matches a prepared segment if and only if it satisfies each constraint alone, object context or not, constraints or none |
| Constraints.CreatedConstraintNarrows | pkg/handler/crud.go:502-522 | afterwards its segment matches who matched and satisfies the new constraint; other segments match as before |
| Constraints.PutConstraintReplaces | pkg/handler/crud.go:535-560 | afterwards its segment matches who satisfies the others and the new one |
| Constraints.DeletedConstraintWidens | pkg/handler/crud.go:562-571 | afterwards its segment matches who satisfies the others, and everybody who matched before |
| Constraints.DeleteUndoesCreate | pkg/handler/crud.go:502-571 | creating a constraint and deleting it again leaves every flag loading as before, but for the snapshots of the flag in the path |
| Constraints.PreparesExactly | pkg/entity/segment.go:59-65 | after any requests every constraint has an expression, and a flag prepares if and only if each segment's joined expression parses |
| Serving.ExecuteKeepsUniqueKeys | pkg/entity/flag.go:14 | flag keys stay distinct, deleted flags included |
| Serving.FetchedFlagsAreDistinct | pkg/handler/eval_cache_fetcher.go:145-151 | a fetch from the database has distinct non-zero IDs and distinct keys, as the index theorems require |
| Serving.FetchFailsExactly | pkg/handler/eval_cache_fetcher.go:35-49 | a fetched list fails to build if and only if some live flag does not prepare |
| Serving.EveryFetchBuilds | pkg/handler/crud.go:510-512 | constraints are checked before they are stored, so after any requests every fetch builds, given a parser that accepts what it accepts when joined |
| Serving.ServingNeverCrashes | pkg/handler/eval_cache.go:147-170 | no flag of a cache reloaded after any requests in bounds crashes for any entity |
| Serving.LiveFlagIsServed | pkg/handler/eval.go:173-182 | a live flag asked for by ID is served as prepared from the tables, whatever the keys look like |
| Serving.KeyedFlagIsServed | pkg/handler/eval.go:173-182 | so is one asked for by its key, where no live flag has the ID asked for and ID and key cannot be taken for one another |
| Serving.TaggedFlagsAreServed | pkg/handler/eval_cache.go:66-83 | a tag query serves exactly the live flags that carry the tags in the tables, as prepared from them |
| Tagging.TagQueryObeysTheRequests | pkg/handler/eval_cache.go:66-131 | so after any requests and a reload it serves a live flag if and only if the last requests about it and the queried tags, one of them or all, created them |
| Serving.ServedAnswersAreAudited | pkg/handler/eval.go:194-253 | after a well-addressed run and a reload, asking for a live flag by ID answers as the flag stored in its snapshot does |
| Serving.KeyedAnswersAreAudited | pkg/handler/eval.go:194-253 | so does asking for it by its key |
| Serving.TaggedAnswersAreAudited | pkg/handler/eval.go:184-192 | and so does every flag that a tag query selects |
| EndToEnd.RunAll | pkg/entity/flag_snapshot.go:24-73 | the mutable store, after any well-addressed requests in bounds, holds for every live flag a snapshot that evaluates like it |
| EndToEnd.Fetch | pkg/handler/eval_cache_fetcher.go:145-151 | loads each live flag once |
| EndToEnd.EditThenEvaluate | pkg/handler/eval.go:194-197 | requests to the store, a reload of the cache, then an evaluation: it never crashes, and answers for a live flag asked for by ID as the flag in its snapshot does |

## Left out

- RolloutRefinesWalk: lists whose prefix sums, or their product with the rollout percentage, exceed a 64-bit word are not covered; the editing API cannot store them, a hand-written JSON file can.
- RolloutPanicsExactly: lists whose prefix sums exceed a signed 64-bit word are not covered, for the same reason.
- MatchesEveryConstraint: assumes that the evaluator reads the joined expression as a conjunction; the constraints are joined as text, and a value may contain operators of its own.
- PostEvaluationBatch: a reload that lands between two lookups of one batch is not modelled; each single read under interleaved reloads is (`CacheProtocol`).
- SingleGenerationReads: says that a read is consistent, not that it is recent; a builder that outlives its timeout may install an older list (`FetchedIsServed` says whose list is served).
- RequestOrderDoesNotMatter: requests that name a variant more than once are not covered; such rows load in the order of the request.
- AuditEquivalence: compares answers, not the order in which the JSON form lists rows with equal sort keys.
- CRC-32 and the constraint language (`zhouzhuojie/conditions`, which is not part of this model): arbitrary functions.
- Equal variant IDs in one segment load in the order of their row IDs, and constraints by row ID instead of creation time; the database leaves these ties open.
- Storage failures other than "not found" and a taken flag key, and handlers running concurrently. IDs are taken without gaps. Foreign keys are not enforced, as in SQLite's default.
- IDs above 2^63, where the conversions between signed and unsigned would wrap.
- Flags fetched from JSON files or over HTTP: they bypass the handlers, so only the theorems about lists of flags apply to them.
- JSON bytes: serialization keeps every field but the evaluation fields, which it drops.
- Debug logs, timestamps, the text of messages, metrics, data recorders, rate limits.
- The read-only handlers (finding flags, segments, tags, snapshots), entity type rows, the SQLite export, configuration, authentication, generated routing, the user interface.
