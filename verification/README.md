# Verified model of the country-flags builders

This project models the two offline builders of the country-flags repository, and the ranking
part of its admin workspace, and proves what they promise.

- **Content pipeline** (`tools/content-pipeline/src`): patches from several sources are matched
  to editorial entities, grouped, decided by priority, written into records by dotted path and
  credited to their source; decks are resolved to cards and cards to drawings; the result is
  written as canonical JSON and compared with the previous release.
- **Boundary generator** (`ios/Scripts/generate-country-boundaries.py`): outlines are simplified,
  clipped to Web Mercator, cut into bands for the fill and opened into coasts.
- **Admin workspace** (`admin/src/app/workspace-model.ts`): the newest activity and the queue of
  decks that still need work.

Modules follow the source files. `Types`, `Geometry`, `Numerals`, `Sorting`, `Sets` and `Reachability`
are shared, and `Shores` and `CatalogKeys` hold what is proved about coasts and catalog keys across several
modules. `Sorting.StableSortUnique` shows that a stable sort has only one possible result, so the
insertion sort in it stands for the sort of either runtime.

Loops of the source are methods with loops, proved equal to a function or to an independent
specification (an edit script, a path, a derivation, the records a value denotes). The records that
`mergeContent` mutates are objects on the heap (`Records.MutableRecord`), and so are the matcher,
the merge state and the editorial document. The worker pool is a state machine over its events.

What comes from libraries or tables is a parameter: collation (`localeCompare`), slugging,
`toLowerCase`, SHA-256, the text of a number, rounding to three decimals, the tolerance of a ring,
the classification of a country code. Each proof states what it needs of them.

## Findings

Where a promise does not hold without a condition, the model keeps the code as it is and proves the
exact condition.

- The order of the patches can change the identifier map. With one identifier to a reference it
  cannot, exactly when no two derivations disagree (`Matching.OrderIndependenceIff`); with two
  identifiers it can (`Matching.TwoIdentifiersOrderMatters`).
- Written paths all read back exactly when winners at overlapping paths agree
  (`Merge.WinnersShownIff`; `Merge.ContinuedPathLosesWinner` loses one). Provenance is right exactly when
  no two groups of different sources share an `entity/path` name (`Merge.ProvenanceIff`;
  `Merge.SharedNameMiscredits` is a pair that does). Keys without NUL and slash, of which no path
  continues another, have neither trouble (`Merge.MergedAsChosen`).
- The value selected from a group is independent of its order exactly when the patches nothing outranks
  agree (`PatchChoice.SelectionIgnoresOrderIff`): two editorial statements about one path are settled by
  their order and reported as not blocking (`PatchChoice.EditorialTieDependsOnOrder`).
- Canonical JSON hides key order exactly when the collation never finds two different keys equal
  (`StableJson.HidesKeyOrderIff`).
- Refreshing the selection twice is refreshing it once exactly when Taiwan is settled: a record for it
  meets an entity for it, or is named so that it gets the usual key, which nobody else holds or wants
  (`Selection.RefreshIdempotentIff`, `Selection.RenamedTaiwanIsRefreshedTwice`).
- The keys of a refreshed catalog repeat when a record for Taiwan meets an entity for it
  (`CatalogKeys.TaiwanRecordRepeats`), when an entity with a custom code is selected by its ISO code
  (`CatalogKeys.CarriedAndRebuiltRepeats`), and when a new record takes a key stated later
  (`CatalogKeys.LaterKeyRepeats`), if need be a numbered one that two records of one name lead to
  (`CatalogKeys.NumberedKeyRepeats`). They are distinct exactly when the stated keys are and no new record
  comes to a key stated after it (`CatalogKeys.CatalogKeysDifferIff`).
- The comment on `coast` says that no artificial edge - a clip chord, an antimeridian seam - enters it, by
  construction (`ios/Scripts/generate-country-boundaries.py:30-31`). Three things break it. An outline that
  leaves the floor twice gets an edge from shore to shore (`Shores.TwoDipsJoinShores`); one that runs along
  the ceiling at 85 degrees north keeps that edge, as does one that crosses it and comes back
  (`Shores.PoleChordIsDrawn`); and nothing removes a seam (`Shores.SeamIsDrawn`). The comment is right
  exactly when the simplified outline leaves the floor at most once, does not run along the ceiling and has
  no seam (`Shores.NothingArtificialIff`).
- `validate` never fails on a single ring or line. It fails, or the script stops before it, exactly when
  `Outline.ShapeAcceptedIff` says.
- Two requests with one key count as one (`Learning.RequestsHonouredIff`, `Learning.SharedKeyIsLost`). It
  takes a colon in a template code, which the schema of the editorial document forbids
  (`contracts/schemas/content/editorial-catalog.v3.schema.json:93`): only a document that was never checked
  against the schema can carry such a pair.
- A card whose only drawing is a raster is resolved as published and then refused by the build
  (`Learning.PublishedCardsBuildIff`, `Learning.RasterOnlyIsRefused`).
- A deck of 200 cards or more can show 100 per cent and still miss a drawing (`Workspace.QueueItem`,
  `Workspace.BlockedDeckShows100`).

## Model

| member | source | states |
|---|---|---|
| `EditDistance.Levenshtein` | tools/content-pipeline/src/matching.ts:119-135 | The one-row table overwritten in place returns the least cost of any script of insertions, deletions and substitutions that turns one string into the other |
| `EditDistance.TableIsEditDistance` | tools/content-pipeline/src/matching.ts:119-135 | The recurrence behind the table is attained by a script and undercut by none |
| `EditDistance.DistanceLaws` | tools/content-pipeline/src/matching.ts:119-135 | The distance is zero exactly on equal strings, symmetric, and at most the longer length |
| `EditDistance.TriangleInequality` | tools/content-pipeline/src/matching.ts:119-135 | Going through a third string is never cheaper |
| `EditDistance.SimilarityShare` | tools/content-pipeline/src/matching.ts:114-117 | What similarity lacks to one is the distance as a share of the longer string |
| `EditDistance.SimilarityRange` | tools/content-pipeline/src/matching.ts:114-117 | It lies in [0, 1], is 1 exactly on equal strings and is symmetric |
| `EditDistance.SuggestionsAreTheBest` | tools/content-pipeline/src/matching.ts:81-98 | At most three keys, each scoring 0.55 or more, best first; equals in catalog order; nothing left out scores higher, and nothing is left out while there is room |
| `Matching.ResolveReferenceMeaning` | tools/content-pipeline/src/matching.ts:102-112 | A reference resolves to a key exactly when that is the only key its identifiers lead to |
| `Matching.SeedIdentifiers` | tools/content-pipeline/src/matching.ts:30-36 | The seeding loops leave exactly the identifiers that the entities state, each with the key of the last entity that states it |
| `Matching.SeedsMeaning` | tools/content-pipeline/src/matching.ts:30-36 | The fold behind the loops holds exactly what is stated by key or identifier, the last statement winning |
| `Matching.LearnsMeaning` | tools/content-pipeline/src/matching.ts:46-60 | A patch at one of the four identifying paths teaches the string it states, as the kind its path ends in |
| `Matching.CloseIdentifiers` | tools/content-pipeline/src/matching.ts:38-63 | The `while (changed)` loop ends in the closure, after at most one pass more than there are identifying patches |
| `Matching.ClosedAtExit` | tools/content-pipeline/src/matching.ts:40-63 | At exit every identifying patch whose entity resolves has its identifier in the map |
| `Matching.ClosureStaysEditorial` | tools/content-pipeline/src/matching.ts:30-63 | The closure maps only to keys of editorial entities and changes no seed |
| `Matching.ClosureIsDerived` | tools/content-pipeline/src/matching.ts:40-63 | Every entry follows from a seed by a chain of patches, whatever the references and the order |
| `Matching.ClosureIsLeastFixpoint` | tools/content-pipeline/src/matching.ts:30-63 | When no identifier is derived with two keys, the map is exactly what can be derived, and the least map that holds the seeds and follows every patch |
| `Matching.AgreementGivesOrderIndependence` | tools/content-pipeline/src/matching.ts:38-63 | Then every list of the same patches closes to the same map |
| `Matching.OrderIndependenceIff` | tools/content-pipeline/src/matching.ts:38-63 | With one identifier to a reference, every permutation of the patches gives the same map if and only if no two derivations disagree |
| `Matching.TwoIdentifiersOrderMatters` | tools/content-pipeline/src/matching.ts:38-63 | With two identifiers to a reference the order decides whether an identifier is learnt at all |
| `Matching.Matcher.constructor` | tools/content-pipeline/src/matching.ts:26-63 | A new matcher holds the closure of the seeds under the patches, and every stated identifier with the last entity that states it |
| `Matching.Matcher.Resolve` | tools/content-pipeline/src/matching.ts:66-80 | The one key the identifiers lead to; if they lead to none or to several, the alias of the first value that has one in the source |
| `Matching.StatedIsResolved` | tools/content-pipeline/src/matching.ts:30-80 | An identifier that the catalog states leads to the last entity that states it, whatever the patches say and whoever asks |
| `WorkerPool.Job.NextInvariant` | tools/content-pipeline/src/adapters.ts:19-39 | Every event of every worker keeps the pool's invariant |
| `WorkerPool.Job.WhatMayHappen` | tools/content-pipeline/src/adapters.ts:26-37 | Which events are possible for a worker: a waiting one may see its value mapped or rejected, a ready one takes the next value or finishes when there is none |
| `WorkerPool.Job.EveryRunIsSafe` | tools/content-pipeline/src/adapters.ts:19-39 | Under every interleaving each index below the cursor is claimed once and in order, what is in the output is right, what is missing is in flight or lost, and there are `concurrency` workers, or one a value if that is fewer |
| `WorkerPool.Job.StuckMeansDone` | tools/content-pipeline/src/adapters.ts:26-37 | Some event is possible until every worker has finished or failed |
| `WorkerPool.Job.EveryRunEnds` | tools/content-pipeline/src/adapters.ts:26-37 | No run is longer than two events a value and one a worker |
| `WorkerPool.Job.CompleteRunMapsEverything` | tools/content-pipeline/src/adapters.ts:19-39 | A complete run without rejections leaves `map(values[i])` at every `i` if and only if there is a worker or nothing to map |
| `WorkerPool.Job.SurvivorsFinishTheJob` | tools/content-pipeline/src/adapters.ts:26-38 | After rejections the surviving workers still map every value but the rejected ones |
| `Containment.FindPath` | tools/content-pipeline/src/adapters.ts:515-541 | On any data the search ends and returns a path from parent to target along containment exactly when one avoids `visited`; the path repeats no group and takes the first branch that works |
| `Containment.Locate` | tools/content-pipeline/src/adapters.ts:542-563 | A territory gets a region directly under the world and a subregion directly above it, or nothing exactly when it is not contained or contained directly |
| `Taxonomy.ChildrenByParent` | tools/content-pipeline/src/merge.ts:100-108 | The index lists exactly the `contains` edges |
| `Taxonomy.Walk` | tools/content-pipeline/src/merge.ts:115-129 | On any relations the queue runs out, having collected exactly the learnable keys other than the root that can be reached |
| `Taxonomy.DeckMembers` | tools/content-pipeline/src/merge.ts:99-137 | The result is that set, sorted and without repetition; the two errors occur exactly when the root has no children and when the set is empty |
| `PatchChoice.ChoosePatch` | tools/content-pipeline/src/merge.ts:324-371 | Selects the first patch of those with the highest priority and, at it, the first source; reports a conflict exactly when the group wants two values, which ranks one candidate a value and blocks exactly when patches of the highest priority disagree and no editor has decided |
| `PatchChoice.WinnerIsTop` | tools/content-pipeline/src/merge.ts:330-338 | No patch of the group has a higher priority than the winner, and none of its priority comes from an earlier source |
| `PatchChoice.WinnerLeadsFirst` | tools/content-pipeline/src/merge.ts:330-338 | And none before it in the group ranks as high |
| `PatchChoice.CandidateIsBest` | tools/content-pipeline/src/merge.ts:339-344 | The patch reported for a value leads the patches that want it, in priority and source |
| `PatchChoice.CandidatesRank` | tools/content-pipeline/src/merge.ts:339-363 | The candidates reported are one for every value wanted, each made from a patch that leads those that want it, by priority and then by source |
| `PatchChoice.ConflictIffValuesDiffer` | tools/content-pipeline/src/merge.ts:339-369 | A conflict is reported exactly when two patches want different values |
| `PatchChoice.BlockingIffTopDisagrees` | tools/content-pipeline/src/merge.ts:345-351 | It blocks exactly when patches of the highest priority disagree and the winner is not editorial |
| `PatchChoice.SelectionIgnoresOrderIff` | tools/content-pipeline/src/merge.ts:330-338 | Every permutation of the group selects the same value if and only if the patches nothing outranks agree |
| `PatchChoice.UnblockedSelectionIgnoresOrder` | tools/content-pipeline/src/merge.ts:324-371 | A group that neither blocks nor is settled by an editor selects one value in every order |
| `PatchChoice.EditorialTieDependsOnOrder` | tools/content-pipeline/src/merge.ts:330-351 | Two editorial statements of one priority: their order selects the value, and nothing blocks |
| `Records.MutableRecord.Write` | tools/content-pipeline/src/merge.ts:196-210 | The write in place, creating records on the way, leaves what the write on values says |
| `PathWrites.ReadWritten` | tools/content-pipeline/src/merge.ts:196-210 | Below a written path one reads what the written value holds |
| `PathWrites.ReadElsewhere` | tools/content-pipeline/src/merge.ts:196-210 | Paths that do not overlap the written one read as before |
| `PathWrites.ReadBackIffCompatible` | tools/content-pipeline/src/merge.ts:196-210 | After any list of writes all of them read back if and only if overlapping ones agree |
| `PathWrites.CompatibleOrderIndependent` | tools/content-pipeline/src/merge.ts:196-210 | Compatible writes give the same record in every order |
| `Merge.GroupPatches` | tools/content-pipeline/src/merge.ts:302-322 | The groups hold, under keys in order of first occurrence, exactly their patches in order; the rest is reported unresolved |
| `Merge.GroupKeyMeaning` | tools/content-pipeline/src/merge.ts:302-322 | A patch goes to the group named after its path and the entity its reference resolves to for its own source, or to none |
| `Merge.GroupsInOrder` | tools/content-pipeline/src/merge.ts:302-322 | A group holds exactly the patches with its key, in their order, and so do the unresolved ones |
| `Merge.KeysInOrder` | tools/content-pipeline/src/merge.ts:302-322 | The groups come in the order in which their keys first occur |
| `Merge.EveryPatchOnce` | tools/content-pipeline/src/merge.ts:302-322 | Every patch sits in exactly one group or is reported once |
| `Merge.GroupKeyRoundTrip` | tools/content-pipeline/src/merge.ts:454-458 | A group key splits back into its entity and path if and only if neither holds a NUL |
| `Merge.MergeState.ApplyGroup` | tools/content-pipeline/src/merge.ts:454-465 | One turn of the loop writes the winner and its provenance and reports the conflict, in place, changing no other entity |
| `Merge.MergeState.ApplyPatches` | tools/content-pipeline/src/merge.ts:450-465 | The loop leaves the fold of all groups over the records, and the unresolved patches in order |
| `Merge.ConflictsReported` | tools/content-pipeline/src/merge.ts:450-465 | The merge reports every group that wants more than one value, in order, and no other, whether or not there is a record to write to |
| `Merge.WinnersShownIff` | tools/content-pipeline/src/merge.ts:454-465 | Every written path of an entity reads back its group's winner if and only if winners at overlapping paths agree |
| `Merge.ApartWinnersShown` | tools/content-pipeline/src/merge.ts:454-465 | In particular for groups with keys and paths without NUL of which no path continues another |
| `Merge.GroupOrderIrrelevant` | tools/content-pipeline/src/merge.ts:454-465 | Then the order of the groups does not change the record |
| `Merge.SameBytesWhateverOrder` | tools/content-pipeline/src/stable-json.ts:19-21 | And the record prints the same bytes, whatever the order of groups and of inserted keys |
| `Merge.ProvenanceIff` | tools/content-pipeline/src/merge.ts:459-464 | Every written path is credited to its winner if and only if no two groups with different sources share an `entity/path` name |
| `Merge.SlashFreeNamesDiffer` | tools/content-pipeline/src/merge.ts:463 | Entity keys without a slash keep those names apart |
| `Merge.MergedAsChosen` | tools/content-pipeline/src/merge.ts:302-322 | From plain names of which no path continues another: after the loop over the groups of any patches every record shows each of its groups' winning values and credits them to their patches |
| `Merge.ContinuedPathLosesWinner` | tools/content-pipeline/src/merge.ts:196-210 | Two patches for paths `a` and `a.b` of one entity: the value at `a` is lost |
| `Merge.SharedNameMiscredits` | tools/content-pipeline/src/merge.ts:459-464 | Two patches for path `b/c` of `a` and path `c` of `a/b`: one is credited to the other's source |
| `EditorialSchema.MigrateKeepsMeaningIff` | tools/content-pipeline/src/editorial-schema.ts:57-83 | A current catalog is read as it is and a version 2 one becomes version 3 with the same decks and overrides, flags declared and drawings current; it keeps what every member of every deck teaches if and only if it is current or its decks declare nothing but the flag template |
| `EditorialSchema.LiftKeepsMeaningIff` | tools/content-pipeline/src/editorial-schema.ts:30-36 | Lifting keeps what every member teaches if and only if the deck declares nothing but the flag template; a bare member becomes the version 1 flag variant, an explicit one stays what it is |
| `EditorialSchema.MemberOrderIsLexicographic` | tools/content-pipeline/src/merge.ts:64-97 | Explicit members are ordered by entity, then by template, a bare key first |
| `EditorialSchema.BareListSortsByKey` | tools/content-pipeline/src/merge.ts:81-97 | A list of bare keys keeps plain key order |
| `Sorting.TextLeqMeaning` | tools/content-pipeline/src/merge.ts:92-96 | The plain comparison: one string begins the other, or has the smaller unit where they first differ |
| `Learning.VariantKeyFaithful` | tools/content-pipeline/src/learning.ts:73-77 | Cards with colon-free template codes share a key only if they are the same |
| `Learning.ResolveCardVariants` | tools/content-pipeline/src/learning.ts:130-174 | The loop and the two sorts return the first request of each key, drawn and undrawn, in collation order |
| `Learning.SplitIsExact` | tools/content-pipeline/src/learning.ts:141-173 | Requested keys are split without loss or repetition, a card being published exactly when its drawing exists |
| `Learning.SplitIsOrdered` | tools/content-pipeline/src/learning.ts:160-173 | Both lists come out by entity and, within one, by template |
| `Learning.RequestsHonouredIff` | tools/content-pipeline/src/learning.ts:141-158 | Every request is published or missing as its drawing says, if and only if no two different requests share a key |
| `Learning.ColonFreeIsFaithful` | tools/content-pipeline/src/learning.ts:73-77 | Template codes without a colon, such as the two there are, give that |
| `Learning.SharedKeyIsLost` | tools/content-pipeline/src/learning.ts:141-158 | Of two different requests with one key the second is neither published nor missing |
| `Learning.ColonsShareAKey` | tools/content-pipeline/src/learning.ts:73-77 | Template `b:c` of `a` and template `c` of `a:b` share a key; the schema admits no such template code |
| `Learning.DeckHoldsItsRequest` | tools/content-pipeline/src/merge.ts:698-706 | A deck holds its request in order minus what is not drawn, each card published once |
| `Learning.BuildLearningContent` | tools/content-pipeline/src/learning.ts:182-250 | One card a variant, in order, with exactly the used templates; it fails exactly when some card cannot be built |
| `Learning.CardMeaning` | tools/content-pipeline/src/learning.ts:190-225 | A card asks with the drawing of its entity that its template wants and whose key comes first; its fingerprint is made of the checksum of that drawing's first vector; it cannot be built exactly when there is no such drawing or no vector |
| `Learning.CardsIgnoreAssetOrder` | tools/content-pipeline/src/learning.ts:194-199 | With distinct asset keys the card built for a variant does not depend on the order of the assets |
| `Learning.PublishedCardsBuildIff` | tools/content-pipeline/src/learning.ts:96-119 | A published card has a prompt drawing, and builds if and only if that drawing has a vector |
| `Learning.RasterOnlyIsRefused` | tools/content-pipeline/src/learning.ts:96-119 | A card whose drawing is a raster is published and then refused |
| `Learning.BuildPublished` | tools/content-pipeline/src/learning.ts:182-250 | With a vector for every prompt drawing the build of the resolved cards succeeds; it can fail for no other reason, and emits exactly the templates some card uses, flags first |
| `Decks.DeckMembers` | tools/content-pipeline/src/merge.ts:73-137 | Who a deck of each of the three kinds holds, and when it is an error |
| `Decks.AssembleCards` | tools/content-pipeline/src/merge.ts:669-728 | Decks and learning cards agree: a deck holds what is asked for under its key minus what is not drawn; every card a deck asks for and every learnable flag has exactly one learning card or is reported missing; and nothing else is built or reported |
| `StableJson.TextReadsBack` | tools/content-pipeline/src/stable-json.ts:19-21 | A reader of JSON that takes any layout reads the text back as the canonical value, with nothing left but the newline at its end |
| `StableJson.CanonicalInOrder` | tools/content-pipeline/src/stable-json.ts:8-14 | The keys of every object, at any depth, come in the order of the collation |
| `StableJson.ArrayLaidOut` | tools/content-pipeline/src/stable-json.ts:19-21 | Two spaces a level and one line an item |
| `StableJson.ObjectLaidOut` | tools/content-pipeline/src/stable-json.ts:19-21 | And so the entries of an object, a space behind each colon |
| `StableJson.TextIsCanonicalTree` | tools/content-pipeline/src/stable-json.ts:19-21 | Two values print the same text exactly when their canonical trees are the same |
| `StableJson.CanonicalKeepsMeaning` | tools/content-pipeline/src/stable-json.ts:5-17 | Canonicalising changes no value |
| `StableJson.SameTextIffSameMeaning` | tools/content-pipeline/src/stable-json.ts:5-21 | Two values have equal text if and only if they differ only in object key order |
| `StableJson.HidesKeyOrderIff` | tools/content-pipeline/src/stable-json.ts:9-13 | Key order is hidden for all values if and only if the collation has no ties between different keys |
| `Diff.IndexHoldsLast` | tools/content-pipeline/src/diff.ts:10-20 | Under every key that some value has, the index holds the last value with it |
| `Diff.KeyOfMeaning` | tools/content-pipeline/src/diff.ts:14-18 | The key of a record is the string it has, as a value, under the field |
| `Diff.Writer.CompareMeaning` | tools/content-pipeline/src/diff.ts:22-46 | Added, removed and changed keys are what they say, each once and in order |
| `Diff.Writer.NoDifferenceIff` | tools/content-pipeline/src/diff.ts:22-46 | Nothing is reported if and only if both sides index the same records up to key order |
| `Diff.Writer.CompareSwaps` | tools/content-pipeline/src/diff.ts:22-46 | Swapping the sides swaps added with removed and keeps changed |
| `Numerals.DecimalReads` | tools/content-pipeline/src/selection.ts:108 | The numeral put behind a key stands for its number, in digits and without a leading zero |
| `Selection.EntityKey` | tools/content-pipeline/src/selection.ts:97-112 | The suffix loop ends on any set of used keys: with the base, or its first number from two on that is free |
| `Selection.SelectEntities` | tools/content-pipeline/src/selection.ts:179-207 | The loop over the records builds the selected entities in order, or stops at the first unclassified code |
| `Selection.Editorial.SyncSelection` | tools/content-pipeline/src/selection.ts:161-291 | If every code is classified the entity list becomes, by key, the entities of the records, Taiwan, what is carried over and the regions; otherwise it stays as it was, and the first unclassified code is named |
| `Selection.RefreshedMeaning` | tools/content-pipeline/src/selection.ts:161-291 | What each of these is, told from what goes in: kind, recognition and code from the source, key, status, config and the rest from the last entity with the code, else the first free key and the defaults; carried over are subdivisions and entities with a code of their own that are no regions and do not hold Taiwan's key |
| `Selection.CarriedOver` | tools/content-pipeline/src/selection.ts:165-178 | An entity about which the refresh has no opinion, such as a state, stays in the catalog unchanged |
| `Selection.RefreshKeepsDecisions` | tools/content-pipeline/src/selection.ts:180-207 | A known entity that is selected again keeps key, status, config and all the source does not state, and its recognition date unless it is partially recognised; kind and recognition are the source's |
| `Selection.RefreshIdempotentIff` | tools/content-pipeline/src/selection.ts:161-291 | With unique codes a second refresh changes nothing if and only if Taiwan is settled, told from the records and entities that go in |
| `Selection.TaiwanKeyedIff` | tools/content-pipeline/src/selection.ts:179-187 | A new record for Taiwan gets `country.taiwan` if and only if that is the key its name makes, no preserved entity holds it, and no earlier record states it or makes it |
| `Selection.RenamedTaiwanIsRefreshedTwice` | tools/content-pipeline/src/selection.ts:208-220 | A record for Taiwan under another name, in a catalog without one, makes the second refresh change the catalog again |
| `CatalogKeys.InUseIsUsed` | tools/content-pipeline/src/selection.ts:178-187 | Which keys are in use at each record is told from the preserved entities, the keys earlier records state and the names of earlier new records |
| `CatalogKeys.CatalogKeysDifferIff` | tools/content-pipeline/src/selection.ts:161-291 | The keys of the whole refreshed catalog are distinct if and only if the stated ones are and no new record comes to a key that is stated after it and not preserved |
| `CatalogKeys.CatalogKeysDiffer` | tools/content-pipeline/src/selection.ts:161-291 | In particular when no stated key is a candidate of an earlier new record |
| `CatalogKeys.TaiwanRecordRepeats` | tools/content-pipeline/src/selection.ts:208-220 | A record for Taiwan and an entity for it: one key twice |
| `CatalogKeys.CarriedAndRebuiltRepeats` | tools/content-pipeline/src/selection.ts:279-291 | An entity with a code of its own that is selected again is rebuilt and carried over under one key |
| `CatalogKeys.LaterKeyRepeats` | tools/content-pipeline/src/selection.ts:178-187 | A new record takes the key of a known entity later in the list |
| `CatalogKeys.NumberedKeyRepeats` | tools/content-pipeline/src/selection.ts:97-112 | Two new records of one name: the second takes the numbered key of a known entity later in the list |
| `Simplify.Simplify` | ios/Scripts/generate-country-boundaries.py:144-172 | The stack algorithm terminates with exactly the vertices the recursive Douglas-Peucker keeps: in order, from the first to the last, and within the tolerance of all the others |
| `Simplify.DistSqIsLeast` | ios/Scripts/generate-country-boundaries.py:160-165 | The distance is the least from any point of the line through the two ends, or from the end when they coincide |
| `Simplify.SimplifiedStaysClose` | ios/Scripts/generate-country-boundaries.py:144-172 | Of any ring the result picks vertices in order from first to last, and for every vertex it drops some point of the line through the kept vertices around it is within the tolerance |
| `Simplify.KeptSticksOut` | ios/Scripts/generate-country-boundaries.py:159-171 | Every vertex kept was needed: between two other kept ones it is the first of those farthest from their line, and beyond the tolerance |
| `Simplify.KeptNothingIff` | ios/Scripts/generate-country-boundaries.py:159-171 | Nothing is kept between two vertices exactly when the line through them comes within the tolerance of all between them |
| `Simplify.TooFewLeftIff` | ios/Scripts/generate-country-boundaries.py:144-172 | Fewer than three vertices are left if and only if there were no more, or the line from first to last comes within the tolerance of all |
| `Clip.ClipRing` | ios/Scripts/generate-country-boundaries.py:103-113 | The loop emits, edge by edge, the kept vertices and the crossings |
| `Clip.CrossBetween` | ios/Scripts/generate-country-boundaries.py:116-136 | An inserted vertex lies on the boundary and between the ends of its edge even after rounding, with no division by zero |
| `Clip.CrossingIff` | ios/Scripts/generate-country-boundaries.py:116-136 | It is the point in which the line through the two ends meets the boundary, rounded, and no other |
| `Clip.ClippedInside` | ios/Scripts/generate-country-boundaries.py:103-113 | A pass leaves only points of the half-plane and widens the ring on no axis |
| `Clip.UnchangedIffInside` | ios/Scripts/generate-country-boundaries.py:103-113 | A ring comes back unchanged if and only if it is inside and not degenerate |
| `Clip.ClippedEmptyIff` | ios/Scripts/generate-country-boundaries.py:103-113 | A pass leaves nothing if and only if no vertex is inside, or there were fewer than three and all are |
| `Clip.KeptVertexSurvives` | ios/Scripts/generate-country-boundaries.py:103-113 | No vertex inside is lost from a ring of three or more |
| `Clip.ClippedEdgesHonest` | ios/Scripts/generate-country-boundaries.py:103-113 | Every edge of the result, the closing one included, runs along one edge of the ring or along the boundary; an inserted vertex counts only where the edge's own line meets the boundary |
| `Shores.ClosedPieces` | ios/Scripts/generate-country-boundaries.py:103-113 | Going around the result one meets, besides the boundary, exactly what the half-plane leaves of each edge |
| `Clip.ClipBetween` | ios/Scripts/generate-country-boundaries.py:116-141 | Both clips are their two passes |
| `Clip.ClippedBetweenFits` | ios/Scripts/generate-country-boundaries.py:116-141 | Both passes together confine the ring to the range, keep every other bound, and change nothing that fits |
| `Clip.ClippedBetweenEmptyIff` | ios/Scripts/generate-country-boundaries.py:116-141 | Both passes leave nothing if and only if the ring lies wholly below or wholly above |
| `Clip.FillPolygons` | ios/Scripts/generate-country-boundaries.py:197-204 | A ring up to 170 degrees wide is its own fill, a wider one its non-empty bands |
| `Clip.FillDrawable` | ios/Scripts/generate-country-boundaries.py:252-260 | The size, width and Mercator assertions on fill rings cannot fail |
| `Clip.FillMeaning` | ios/Scripts/generate-country-boundaries.py:197-204 | A ring up to 170 degrees wide is its own fill; a wider one is cut into rings that each lie in one quarter of the map and together hold every vertex it has on the map |
| `Clip.FillEmptyIff` | ios/Scripts/generate-country-boundaries.py:197-204 | A ring leaves no fill if and only if it is wider than 170 degrees and lies wholly beyond one antimeridian |
| `Coast.Coastline` | ios/Scripts/generate-country-boundaries.py:207-227 | The loop finds the first vertex that leaves the floor and opens the ring behind it |
| `Coast.CoastMeaning` | ios/Scripts/generate-country-boundaries.py:207-227 | An unclipped ring is its own coast, a clipped one loses exactly its floor vertices, and there is no beginning exactly when it has no others |
| `Coast.CoastIsOneStretchIff` | ios/Scripts/generate-country-boundaries.py:207-227 | The coast is one unbroken stretch of the clipped ring if and only if the ring leaves the floor at most once |
| `Coast.CoastDrawsShore` | ios/Scripts/generate-country-boundaries.py:207-227 | Then its edges are exactly the ring's edges off the floor |
| `Coast.CoastLosesNoShore` | ios/Scripts/generate-country-boundaries.py:223-227 | Turning and filtering keeps every vertex off the floor, as often as it occurs |
| `Shores.FloorMetIff` | ios/Scripts/generate-country-boundaries.py:313 | The clipped ring meets the floor, and counts as clipped, if and only if the outline does |
| `Shores.ClippingKeepsLeaves` | ios/Scripts/generate-country-boundaries.py:103-141 | Clipping does not change how often the outline leaves the floor |
| `Shores.ChartedEdges` | ios/Scripts/generate-country-boundaries.py:116-141 | After both passes every edge, the closing one included, runs along the floor, along the ceiling, or lies on an edge of the outline |
| `Shores.DrawnIffCoastEdge` | ios/Scripts/generate-country-boundaries.py:116-141 | But for edges along the ceiling, the clipped ring draws exactly what the ceiling leaves of the outline's edges off the floor |
| `Shores.CeilingDrawnIff` | ios/Scripts/generate-country-boundaries.py:116-141 | It draws an edge along the ceiling if and only if an edge of the outline touches the ceiling, the outline both meets the floor and climbs over the ceiling, or it comes down from above having been down before |
| `Shores.CoastGenuineIff` | ios/Scripts/generate-country-boundaries.py:30-31 | No clip chord enters a coast - it is one stretch, none of its edges runs along the ceiling, each lies on an edge of the simplified outline - if and only if the outline leaves the floor at most once and does not run along the ceiling in that sense |
| `Shores.NothingArtificialIff` | ios/Scripts/generate-country-boundaries.py:30-31 | Neither a clip chord nor a seam enters a coast if and only if, besides, no edge the outline has on the coast runs along the antimeridian |
| `Shores.LowCoastGenuineIff` | ios/Scripts/generate-country-boundaries.py:30-31 | For an outline below the ceiling: if and only if it leaves the floor at most once |
| `Shores.PoleChordIsDrawn` | ios/Scripts/generate-country-boundaries.py:30-31 | An outline over the pole leaves the floor once and its coast is not genuine |
| `Shores.TwoDipsJoinShores` | ios/Scripts/generate-country-boundaries.py:207-227 | An outline that dips twice gets a coast edge that no one drew |
| `Shores.UnclippedCoast` | ios/Scripts/generate-country-boundaries.py:217-218 | An outline that needs no clipping is its own coast |
| `Shores.SeamIsDrawn` | ios/Scripts/generate-country-boundaries.py:30-31 | So an outline cut at the antimeridian has the seam in its coast |
| `Shores.LowDrawnIff` | ios/Scripts/generate-country-boundaries.py:116-141 | Of an outline that does not climb, clipping draws exactly the edges off the floor |
| `Shores.LowSeamIff` | ios/Scripts/generate-country-boundaries.py:30-31 | Its coast, if in one stretch, has a seam edge if and only if the outline has one off the floor |
| `Outline.PreparedMeaning` | ios/Scripts/generate-country-boundaries.py:307-312 | What is drawn has at least three vertices, all within 85 degrees; nothing is drawn if and only if the simplified ring has too few vertices or lies wholly beyond 85 degrees on one side |
| `Outline.BuildShape` | ios/Scripts/generate-country-boundaries.py:304-318 | The loop over the rings builds the shape of the country or stops where a coast has no beginning |
| `Outline.ShapesJoin` | ios/Scripts/generate-country-boundaries.py:304-318 | Drawing two lists of rings one after the other gives both their shapes, in order |
| `Outline.ShapeOfOne` | ios/Scripts/generate-country-boundaries.py:304-318 | One ring is drawn as its fill and, if it has at least two points, its coast |
| `Outline.ShapeIsValid` | ios/Scripts/generate-country-boundaries.py:252-264 | The script stops if and only if some simplified outline has a vertex at 85 degrees south and none north of it; otherwise every ring and line passes `validate`, the fill is empty if and only if every outline is lost or off the map, and the coast if and only if every outline is lost or a spike |
| `Outline.ShapeAcceptedIff` | ios/Scripts/generate-country-boundaries.py:252-264 | With longitudes within 180 degrees the whole of `validate` passes if and only if no outline stops the script and some outline is neither lost nor a spike |
| `Workspace.RecentActivity` | admin/src/app/workspace-model.ts:385-462 | Every item shown tells of the draft, its report, an upload or a run, at its own time; with distinct asset ids the items are the newest `limit` of everything, newest first, each id once, equally old ones in order |
| `Workspace.CutUploadsHarmless` | admin/src/app/workspace-model.ts:426-462 | With distinct asset ids cutting the uploads first changes nothing |
| `Workspace.QueueItem` | admin/src/app/workspace-model.ts:173-231 | The counts of a resolved deck are those of its cards and add up, its percentage is the nearest whole one and 100 exactly when at most one card in 200 is broken, and its readiness follows |
| `Workspace.MembersAreTaught` | admin/src/app/workspace-model.ts:144-165 | The queue counts the cards the pipeline would ask for: an explicit deck's own members, or the listed active entities in order, each as the card it stands for |
| `Workspace.IndexIsLast` | admin/src/app/workspace-model.ts:172 | Of two entities with one key the last one counts |
| `Workspace.BlockedDeckShows100` | admin/src/app/workspace-model.ts:204-231 | A deck of 200 cards with one flag missing is blocked and shows 100 per cent |
| `Workspace.WorkQueue` | admin/src/app/workspace-model.ts:167-236 | One item a deck, a taxonomy deck's being unresolved; the queue is a permutation of them, the least complete first, equally complete ones in order, the unresolved last |

## Left out

- Fetching, retries, snapshot files, schema validation, SVG sanitising, rasterising and signing: I/O and foreign libraries. An asset is a record with a type, a variant and representations.
- Parsing of source payloads, SPARQL, HTML and Unicode slugging: abstract functions or inputs.
- Fact tables, fact names, missing translations, licence reports and asset overrides of `mergeContent`: single-branch bookkeeping around the merge.
- `Records.MutableRecord.Write`: a written object is copied when a later path goes below it. The source writes into the patch's own object then, so a conflict report that still shows it changes with it; this can only happen where paths overlap.
- `Records.MutableRecord.Write`: one call stands for one turn of the source's loop, because the records above the cursor have to be put in order again behind it.
- `Merge.MergeState.ApplyPatches`: an unresolved report is the patch itself; its suggestions are `EditDistance.SuggestionsAreTheBest`.
- `Decks.AssembleCards`: preview cards, access and the derived entity list are not modelled.
- `EditDistance.SimilarityRange`: scores are exact fractions, not floating point.
- `Workspace.QueueItem`: the percentage is rounded from the exact fraction, not from floating point; hrefs, names and labels are not modelled.
- `Workspace.RecentActivity`: titles and hrefs are not modelled, and `limit` is not negative.
- `Shores.CoastGenuineIff`: an edge along 85 degrees north counts as artificial even where the outline itself has one.
- `Selection.RefreshIdempotentIff`: the region and subregion entities are a function of the records, the classification tables are a parameter, and the key written back into each record is not modelled. Missing and empty identifiers are the same.
- `Learning.VariantKeyFaithful`: schema versions are natural numbers.
- `StableJson.SameTextIffSameMeaning`: a number is an integer with some faithful text, so negative zero is not distinguished; lone surrogates in strings, which `JSON.stringify` escapes, are not modelled. A JavaScript object prints integer-like keys first; that is part of the key order.
- `Simplify.Simplify`: distances are exact and compared squared; `Clip.CrossBetween` rounds the exact crossing. Floating-point error is not modelled.
- `Outline.BuildShape`: dropping small rings and all but the eighty largest happens before it and is not modelled.
- Strings are sequences of characters, one for each UTF-16 unit of the source.
