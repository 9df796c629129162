# Nether-fortress cluster finder: a Dafny model

The program searches Minecraft Nether regions for clusters of fortress
bridge crossings. For each region the generator reports either no fortress,
a fortress at a non-viable position, or the list of its structure pieces.
The finder then works in three steps:

- It keeps only the bridge crossings.
- For every crossing it looks for neighbours on the same level at offsets
  of 19 and 38 blocks.
- It labels the crossing with the first matching pattern, in the order
  Quad, T-Shape, L-Shape, Triple.

Worker loops claim work in one of two modes:

- In area mode they claim rows of regions around the origin for one seed.
- In sweep mode they claim whole seeds and scan a small square of regions
  for each.

What the workers find is merged into a shared result list without
duplicates. The operator can clear the area-scan results, sort the list by
distance, and delete single entries.

The model is written in terms of immutable values:

- `cluster.dfy` (module `Cluster`) holds the pattern codes, positions,
  pieces and the `ClusterResult` record with its identity comparison.
- `classifier.dfy` (module `Classifier`) holds crossing extraction,
  neighbour flags, pattern precedence and the results of one region.
- `result_store.dfy` (module `ResultStore`) holds the result list as a
  sequence, with merge, clear-scan-results, sort and delete.
- `scheduler.dfy` (module `Scheduler`) holds the area-mode row claims and
  their coverage of the square, and the sweep radius. It also holds the
  worker loop of each mode, written for any *finder*: a function from a
  claimed row or a seed to what it yields. The area and sweep scans are
  these loops with the finders built from the classifier.
- `scan_properties.dfy` (module `ScanProperties`) holds what a finished or
  interrupted loop holds, and resuming a stopped scan.

The generator is a parameter `oracle: (seed, rx, rz) -> Probe`.

A few details of the code that the model keeps exactly:

- The reported centre is the anchor plus 9 on x and z (main.cpp:143).
- `distSq` is taken from the anchor, not from the reported centre
  (main.cpp:144).
- The early exit tests the number of pieces, `count < 3`, not the number
  of crossings (main.cpp:122). `Classifier.RegionResults` proves that this
  never loses a result.
- In area mode the scan ends at the claim numbered 2R + 1, the first one
  whose row lies past the radius (main.cpp:166-167).

## Model

| member | source | states |
|---|---|---|
| `Cluster.PatternCode` | main.cpp:31-33 | every pattern has a code below `PAT_COUNT` = 4 |
| `Cluster.PatternFromCode` | main.cpp:31-33 | a code names a pattern exactly when it lies in 0..3, and that pattern's code is the code given |
| `Cluster.PatternCodeRoundTrip` | main.cpp:31-33 | codes are one-to-one and decoding a pattern's code returns the pattern |
| `Cluster.SameIsIdentityEquality` | main.cpp:43-46 | two results are equal under `operator==` exactly when seed, centre and pattern agree; changing `distSq` or `isPermanent` never breaks equality |
| `Classifier.Crossings` | main.cpp:124-128 | a position is among the extracted crossings exactly when some piece of type bridge crossing sits there; there are never more crossings than pieces |
| `Classifier.CrossingsAppend` | main.cpp:126-128 | extraction keeps the piece order: extracting from a concatenation gives the two extractions one after the other |
| `Classifier.ScanFlags` | main.cpp:132-141 | after the neighbour loop each of the five flags is set exactly when some crossing on the anchor's y level lies at that flag's offset (19 or 38 on x or z, or 19 on both) |
| `Classifier.AnchorNeverSetsFlag` | main.cpp:133-141 | the anchor itself never sets a flag, so a lone crossing has no neighbours |
| `Classifier.NeighboursDependOnlyOnLevel` | main.cpp:133-134 | crossings on other y levels are ignored: two crossing lists that agree on the anchor's level give the same flags, whatever their order or repetitions |
| `Classifier.Classify` | main.cpp:146-150 | each label is chosen exactly under its precedence condition: Quad iff R1, D1 and DR; T iff R1, R2 and D1 but not DR; L iff R1 and D1 but neither R2 nor DR; Triple iff not (R1 and D1) but R1 and R2 or D1 and D2; none otherwise |
| `Classifier.QuadBeatsTriple` | main.cpp:146-150 | an anchor meeting both the Quad and the Triple conditions is reported only as Quad |
| `Classifier.AnchorResult` | main.cpp:142-151 | an anchor yields a result exactly when some pattern matches; the result carries the seed, centre (x + 9, y, z + 9), the anchor's squared distance x² + z² ≥ 0, the matched pattern and the permanence flag |
| `Classifier.ClassifyAnchors` | main.cpp:130-152 | there are never more results than anchors, every result is the result of some anchor, and every anchor with a match contributes its result |
| `Classifier.ClassifyOneAnchor` | main.cpp:142-151 | one anchor gives no result when no pattern matches and exactly its own result when one does |
| `Classifier.ClassifyAnchorsAppend` | main.cpp:130-152 | the anchor loop keeps anchor order: the results for a concatenation of anchors are the results of the two parts one after the other, so there is one result per qualifying anchor, in anchor order |
| `Classifier.ClassifyCrossings` | main.cpp:130 | every crossing is an anchor: each crossing with a matching pattern contributes its result, nothing else is reported, and there are never more results than crossings |
| `Classifier.PatternNeedsThreeCrossings` | main.cpp:146-150 | any matched pattern implies at least three crossings |
| `Classifier.FewCrossingsNoResults` | main.cpp:130-152 | fewer than three crossings give no results |
| `Classifier.RegionResults` | main.cpp:114-153 | no fortress or a non-viable one gives nothing; fewer than 3 pieces gives nothing; otherwise the results are the classification of the extracted crossings, so the piece-count exit loses no result |
| `Classifier.SquareAnchors` | main.cpp:130-151 | in a 19-block square of four crossings only the lower corner qualifies, as a Quad |
| `Classifier.SquareIsOneQuad` | main.cpp:130-151 | such a square yields exactly one result: a Quad centred at the corner plus 9, with the corner's squared distance |
| `ResultStore.Ids` | main.cpp:43-46 | the identity set holds an identity exactly when some entry is equal to it under `operator==`, and never has more identities than the list has entries |
| `ResultStore.NoDupIdsCount` | main.cpp:43-46 | a list without two entries equal under `operator==` holds exactly as many identities as entries |
| `ResultStore.Insert` | main.cpp:180 | after inserting, the result is present; it is appended exactly when no equal entry existed, otherwise the list is unchanged |
| `ResultStore.InsertKeepsNoDup` | main.cpp:180 | inserting into a duplicate-free list keeps it duplicate-free |
| `ResultStore.Merge` | main.cpp:179-180 | merging only appends: the old entries stay in place and at most one entry is added per batch element |
| `ResultStore.MergeHoldsBatch` | main.cpp:179-180 | after merging, every batch element is present under `operator==` |
| `ResultStore.MergeAddsOnlyBatch` | main.cpp:179-180 | every entry a merge adds is an element of the batch |
| `ResultStore.MergeKeepsNoDup` | main.cpp:179-180 | merging into a duplicate-free list keeps it duplicate-free |
| `ResultStore.MergeContains` | main.cpp:179-180 | after merging, an identity is present exactly when it was in the list or in the batch |
| `ResultStore.MergeIds` | main.cpp:179-180 | the identities after a merge are the union of the list's and the batch's |
| `ResultStore.MergeCountsDistinctIdentities` | main.cpp:179-180 | a merge into a duplicate-free list leaves as many entries as distinct identities seen |
| `ResultStore.MergePresent` | main.cpp:179-180 | merging a batch whose elements are all present changes nothing |
| `ResultStore.MergeIdempotent` | main.cpp:179-180 | merging the same batch twice equals merging it once |
| `ResultStore.MergeOrderIrrelevant` | main.cpp:179-180 | two batches merged in either order leave the same identities, so worker timing does not change the result set |
| `ResultStore.ClearScan` | main.cpp:218 | clearing keeps exactly the permanent entries, never grows the list, and keeps it duplicate-free |
| `ResultStore.ClearScanAppend` | main.cpp:218 | clearing keeps relative order: clearing a concatenation clears each part |
| `ResultStore.ClearScanKeepsPermanent` | main.cpp:218 | a list of permanent entries only is left unchanged |
| `ResultStore.ClearScanIdempotent` | main.cpp:218 | clearing twice equals clearing once |
| `ResultStore.ClearScanNoPermanent` | main.cpp:218 | a list without permanent entries is cleared completely |
| `ResultStore.ClearScanDropsMergedScanResults` | main.cpp:177-181 | merging a batch of area-scan (non-permanent) results and then clearing gives the same list as clearing alone |
| `ResultStore.PermanentResultMaskedByScanEntry` | main.cpp:43-46 | because equality ignores permanence, a sweep result equal to an existing area entry is not added, and clearing then removes the only entry with that identity |
| `ResultStore.InsertSorted` | main.cpp:265-267 | inserting into a sorted list gives a sorted permutation of the list plus the new entry |
| `ResultStore.SortedCons` | main.cpp:265-267 | an entry in order with the head of a sorted list may be put in front of it |
| `ResultStore.SortByDist` | main.cpp:265-267 | the sorted list is a permutation of the input, non-decreasing by `distSq` when ascending and non-increasing when descending |
| `ResultStore.PermutationIds` | main.cpp:265-267 | reordering keeps the identity set |
| `ResultStore.DuplicateShrinksIds` | main.cpp:43-46 | a list with two equal entries holds fewer identities than entries |
| `ResultStore.PermutationKeepsNoDup` | main.cpp:265-267 | any permutation of a duplicate-free list is duplicate-free |
| `ResultStore.SortKeepsNoDup` | main.cpp:265-267 | sorting keeps the list duplicate-free |
| `ResultStore.DeleteAt` | main.cpp:297 | deleting index i removes exactly that entry: earlier entries stay, later ones move down by one, the rest of the multiset is unchanged, and a duplicate-free list stays so |
| `ResultStore.DeleteScanEntryKeepsPermanent` | main.cpp:294-297 | deleting a non-permanent entry (the only kind offered for deletion) never changes the permanent entries |
| `Scheduler.Claim` | main.cpp:166-167 | claim k names a row exactly when k < 2R + 1, and the row it names lies in [-R, R] |
| `Scheduler.ClaimsCoverRowsOnce` | main.cpp:166-167 | every row in [-R, R] is named by claim rx + R, and no two claims name the same row |
| `Scheduler.RowCells` | main.cpp:168 | a row covers exactly the regions (rx, rz) with rz in [-R, R], each once |
| `Scheduler.CellsOfRows` | main.cpp:166-168 | the regions of a list of rows are exactly those rows' regions, each once when the rows are distinct |
| `Scheduler.SquareRows` | main.cpp:166-167 | the rows in claim order are -R .. R |
| `Scheduler.SquareCoverage` | main.cpp:166-168 | the claimed rows visit every region of the square exactly once, (2R + 1)² regions in all, and none for a negative radius |
| `Scheduler.CellsResults` | main.cpp:168 | the results of a list of regions are exactly the clusters of those regions, all for the seed and with the requested permanence |
| `Scheduler.MergeFound` | main.cpp:177-181 | merging what one unit found keeps the old entries in place |
| `Scheduler.MergeFoundContents` | main.cpp:177-181 | after merging one unit, all it found is present and every added entry is one of its results |
| `Scheduler.AreaLoop` | main.cpp:160-168 | the counter advances one per claim up to the last row, and a run that passes the end stops one past the last row |
| `Scheduler.AreaScan` | main.cpp:163-168 | the area-mode worker for one seed: each claim below 2R + 1 scans one row, and a run that passes the end stops one past the last row |
| `Scheduler.SweepLoop` | main.cpp:171-181 | the next seed advances by one per seed checked |
| `Scheduler.RowResults` | main.cpp:168 | a row's results are exactly the non-permanent clusters of its regions for the seed |
| `Scheduler.SweepRadius` | main.cpp:173 | the radius is blocks / 432 + 1 with C++ division truncating toward zero: for a non-negative limit, (r - 1) · 432 ≤ blocks < r · 432, so r ≥ 1; for a negative limit the quotient rounds up, (r - 2) · 432 < blocks ≤ (r - 1) · 432 |
| `Scheduler.SweepRegionCount` | main.cpp:173-175 | a non-negative limit gives (2r + 1)² ≥ 9 regions; a limit of -864 or less gives none |
| `Scheduler.SeedResults` | main.cpp:173-175 | a seed's results are exactly the permanent clusters of the regions of its sweep square |
| `Scheduler.SweepScan` | main.cpp:171-175 | the sweep-mode worker: each step checks the next seed over its whole sweep square, so the next seed advances by one per seed |
| `ScanProperties.AreaLoopExtends` | main.cpp:177-181 | the area loop only appends: entries stored before it stay where they are |
| `ScanProperties.AreaLoopStep` | main.cpp:166-181 | a claim naming a row merges that row's results and continues from the next claim |
| `ScanProperties.AfterLastRow` | main.cpp:166-167 | past the last row the loop adds nothing and the counter moves once |
| `ScanProperties.AreaLoopComplete` | main.cpp:166-181 | everything found in a row claimed during the loop ends up in the list |
| `ScanProperties.AreaLoopSound` | main.cpp:166-181 | every entry the loop adds was found in a row claimed during the loop |
| `ScanProperties.AreaLoopKeepsNoDup` | main.cpp:177-181 | the loop never creates a duplicate |
| `ScanProperties.AreaLoopResume` | main.cpp:160-168 | stopping and later resuming from the in-memory counter gives the same list as one uninterrupted run, and the same counter unless the first run had already claimed past the end |
| `ScanProperties.SweepLoopExtends` | main.cpp:177-181 | the sweep loop only appends: entries stored before it stay where they are |
| `ScanProperties.SweepLoopStep` | main.cpp:171-181 | checking one seed merges its results and continues from the next seed |
| `ScanProperties.SweepLoopComplete` | main.cpp:171-181 | everything found for a seed checked during the loop ends up in the list |
| `ScanProperties.SweepLoopSound` | main.cpp:171-181 | every entry the loop adds was found for one of the seeds checked |
| `ScanProperties.SweepLoopKeepsNoDup` | main.cpp:177-181 | the sweep loop never creates a duplicate |
| `ScanProperties.AreaScanComplete` | main.cpp:163-168 | every cluster of every region in a claimed row ends up in the list |
| `ScanProperties.AreaScanSound` | main.cpp:163-168 | every entry an area scan adds is a non-permanent result for the scanned seed of a region in a claimed row |
| `ScanProperties.AreaScanKeepsNoDup` | main.cpp:160-181 | an area scan never creates a duplicate |
| `ScanProperties.AreaScanResume` | main.cpp:161-167 | an area scan stopped and resumed gives the same list as one run |
| `ScanProperties.FullAreaScan` | main.cpp:166-168 | a scan from claim 0 run to its end holds every cluster of the square, adds only area results for the seed, and leaves the counter at 2R + 2 for R ≥ 0 (1 otherwise) |
| `ScanProperties.SweepScanComplete` | main.cpp:171-175 | every cluster of every swept seed's square ends up in the list |
| `ScanProperties.SweepScanSound` | main.cpp:171-175 | every entry a sweep adds is a permanent cluster of one of the swept seeds |
| `ScanProperties.SweepScanKeepsNoDup` | main.cpp:170-181 | a sweep never creates a duplicate |

## Left out

- The generator calls (`getStructurePos`, `isViableStructurePos`, `getFortressPieces`, `setupGenerator`, `applySeed`) are a foreign library. They are the parameter `oracle`, whose `Probe` says no structure, not viable, or the pieces found.
- The 1000-piece buffer and the chunk shift `pos.x >> 4` belong to the generator call and are left to the oracle.
- Threads, the mutex, the atomics and their interleavings are not modelled. The loops are one worker taking claims from a sequential counter. Each merge is one atomic step, as it is under the lock.
- Pausing is only a delay before the next claim, so it is covered by stopping and resuming (`AreaLoopResume`).
- `Reset Progress` (setting the counter to 0) is the loop's `cursor` argument.
- Thread priority is a Windows call.
- `std::stoll` and its exception path are library parsing.
- Persistence to `config.cfg` and `results.dat` is stream I/O. In the code, that file does not hold the area counter `currentRxIndex`, so a restart begins the area scan at claim 0.
- The user interface is left out: display limits, the progress bar, the `sqrt` distance shown, the `/tp` text and the clipboard.
- Integer widths are not modelled: `int` coordinates and radius, the `long long` seed counter and `distSq`. For `distSq` each square is at most 2^62, so the sum overflows `long long` only when x = z = -2^31; the model computes the exact sum there. `rx = -R + k`, `x + 9` and the seed counter are not wrapped.
- ResultStore.SortByDist: does not fix the order of entries with equal distance, because `std::sort` is not stable and leaves that order unspecified.
- Scheduler.SweepLoop: checks seeds in order from one worker. With several workers, seeds are claimed in order but finish in any order.
