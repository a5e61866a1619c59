# Verified models of the OverGraph storage cores

OverGraph is an embedded graph database. This project models the parts of its engine in which a fast
structure must agree with a simple one, or a protocol must survive every interleaving or crash, and
proves that they do. `dafny verify dfyconfig.toml` checks everything.

* **Vector index** (`src/dense_hnsw.rs`): the parallel build of an HNSW graph as an interleaving of
  worker steps, neighbour pruning, the plain and the scoped beam search, the two files and their
  validator. `BuildOutput` joins them: any finished interleaving is written, accepted and searched.
* **Numeric keys** (`src/property_value_semantics.rs`): one exact key for i64, u64 and f64 values, its
  order-preserving 24-byte form and validator, exact conversions and ranges.
* **Degree cache** (`src/degree_cache.rs`): the copy-on-write overlay, the sidecar file with its two-level
  lookup, and the streaming fold. `DegreeFlush` joins overlay and file.
* **Sparse postings** (`src/sparse_postings.rs`): both lookup strategies against each other and against
  dot products, from the written files on.
* **Manifest** (`src/manifest.rs`): three files, a crash after any step of a write or of a recovery.
* **Edge metadata** (`src/edge_metadata.rs`) and the **log operation codec** (`src/encoding.rs`).

## How it is modelled

Loops and objects that change in place are methods and classes; each is proved against a
specification function, and the lemmas are about those functions. Distances are pairs: the first part is
what the floating-point `<` compares, the pair what `total_cmp` orders, so equal distances with
different bits are covered. Weight sums, posting scores and checksums are unknown functions, so the results about
them hold for any rounding. Binary32 and binary64 values are bit patterns; their numeric meaning is an
integer number of least subnormals.

A step of a build worker is one critical section (one list under its lock, one load or store of the entry
word, one use of the promotion lock) with the private work up to the next. A load of the entry word
may return any value the word has ever had, which covers its relaxed ordering.

## What the proofs found

* No interleaving of the parallel build ever puts a point into its own list, although nothing in the layer
  search excludes the point being inserted (`NoSelfLoops`). The repository asserts this of the finished graph.
* The scoped search tests its visited bitmap before it checks a link's range, so a base-level link past the
  bitmap's last 64-bit word makes it index out of bounds. `FarLinkSearches` shows it on an index of two points
  on which the plain search reports corruption; `OutOfBoundsExactly` says when it happens, and `SearchScoped`
  that it never does while every base-level link is within the bitmap. On files the full validator accepted
  neither search fails, but the repository calls that validator in tests only: the check with which the
  program opens files reads no link (src/dense_hnsw.rs:438-526) and accepts such files (`FarLinkOpens`).
* A manifest load fails for good when there is no current file and the temporary file ends inside a
  multi-byte character: reading it as text is an error, not a reason to try the previous file.
  `EveryLoadRecovers` shows this is the only way to fail, `AcknowledgedButUnreadable` a run that gets there with an
  acknowledged state in the previous file.
* A crash inside a repairing load can take back a state that the read-only loader had shown but nothing had
  acknowledged: `CrashedLoadAnswer` says exactly when, `ShownButTakenBack` is a run in which it happens.
* Entering a token with the last 32-bit id leaves a namespace the validator rejects, because the next id cannot
  move past it (`StagedTokensStayValid`); ids given out by the program stop before that one.
* The last check of the sort-key validator, re-encoding, can never fail; nor does finishing an overlay
  edit ever find a zero entry to drop. A weight bound that is a NaN rejects nothing.

## Model

| member | source | states |
|---|---|---|
| `Pruning.PrunedSelection` | src/dense_hnsw.rs:1051-1113 | pruning keeps exactly min(m, distinct candidates) candidates, without duplicates, the nearest one first |
| `Pruning.PrunedDiversity` | src/dense_hnsw.rs:1073-1109 | with more than m candidates the result is a diverse part, in which no member is closer to an earlier one than to the point, followed by the nearest of the skipped ones in order; every skipped one is occluded by the diverse part |
| `Pruning.PruneNeighbors` | src/dense_hnsw.rs:1126-1153 | scoring, sorting, deduplicating, sifting and refilling a list gives exactly the pruned list the two lemmas above describe |
| `Pruning.SortAndDedup` | src/dense_hnsw.rs:1065-1070 | sorting and removing adjacent duplicates gives each candidate once, by distance and then by number |
| `Beams.VisitKeepsBest` | src/dense_hnsw.rs:1018-1036 | after each visit the beam holds the best visited points: at most ef of them, none farther than a visited point left out |
| `Beams.TopSize` | src/dense_hnsw.rs:642-703 | the beam holds exactly min(ef, visited points in scope) members |
| `Beams.StoppingRulesAgree` | src/dense_hnsw.rs:1505-1514 | with everything in scope the scoped stopping rule is the plain one, although it waits for a full beam |
| `Beams.StopMeansFinished` | src/dense_hnsw.rs:642-703 | when the loop stops, every member of the beam has been expanded |
| `Beams.NoCloserLink` | src/dense_hnsw.rs:642-703 | at the end no neighbour of a member that is outside the beam is strictly closer than the beam's farthest member |
| `Beams.CompleteWhenNotFull` | src/dense_hnsw.rs:1489-1603 | a beam that ends with fewer than ef members holds every point in scope that links can reach from its start |
| `VectorSearch.GreedyBestIsClosest` | src/dense_hnsw.rs:613-635 | one pass over a neighbour list ends at a point no farther than the start and than every neighbour |
| `VectorSearch.Descend` | src/dense_hnsw.rs:608-640 | the greedy descent terminates by strictly decreasing distance, ends at an existing point no farther than the entry and locally nearest on level 1, and fails only on an index with a bad link |
| `VectorSearch.BeamPlain` | src/dense_hnsw.rs:642-703 | the plain beam search terminates with a finished beam that visited only reachable points |
| `VectorSearch.BeamScoped` | src/dense_hnsw.rs:1489-1603 | the scoped beam search, with its second hops through points out of scope, terminates with a finished beam that admitted points in scope only, or fails with the outcome of the first bad link of a point it could reach |
| `VectorSearch.FirstBadDecides` | src/dense_hnsw.rs:1520-1536 | links are met in order and the first that names no point decides: out of bounds exactly when it lies past the visited bitmap, reported otherwise |
| `VectorSearch.VisitSecondHop` | src/dense_hnsw.rs:1559-1600 | expanding a neighbour out of scope visits that neighbour's own links, or ends with the outcome of the first of them that names no point |
| `VectorSearch.ExpandScoped` | src/dense_hnsw.rs:1516-1600 | expanding a candidate meets each of its links, and after one to a new point out of scope that point's own; it succeeds exactly when all name points and otherwise has the outcome of the first that does not |
| `VectorSearch.SortAndTruncate` | src/dense_hnsw.rs:705-721 | the hits are the best `limit` members in order |
| `VectorSearch.Search` | src/dense_hnsw.rs:560-723 | a query on a sound index always answers: the exact ranking when ef covers all points, otherwise the best of a finished beam from the descent's end |
| `VectorSearch.SearchScoped` | src/dense_hnsw.rs:1408-1623 | the same for a query restricted to a scope; a failing query failed at the first bad link of a point it could reach, and runs out of bounds only if some base-level link lies past the visited bitmap |
| `VectorSearch.OutOfBoundsExactly` | src/dense_hnsw.rs:1489-1603 | with fewer points in scope than the beam is wide, a query answers exactly when no reachable point has a bad link, and where no reachable bad link is a reported one it runs out of bounds exactly when there is one |
| `VectorSearch.FarLinkSearches` | src/dense_hnsw.rs:1516-1524 | on one index of two points, whatever the query and scope, the plain search reports corruption and the scoped search runs out of bounds |
| `VectorSearch.ScopedAnswer` | src/dense_hnsw.rs:1489-1623 | every hit is in scope and reachable; a beam that did not fill gives the best of all reachable points in scope, a full one leaves out only visited points no closer than any hit |
| `ParallelBuild.PackRoundTrip` | src/dense_hnsw.rs:777-788 | the packed entry word gives back the point and the level it was made from |
| `ParallelBuild.EveryRunStructured` | src/dense_hnsw.rs:790-928 | in every interleaving every unlocked list is within capacity, without duplicates, of existing points that have the list's level; the entry names a point of the stored level; no worker indexes a missing level |
| `ParallelBuild.EntryLevelMonotone` | src/dense_hnsw.rs:900-916 | the stored maximum level never decreases |
| `ParallelBuild.FinalEntryIsHighest` | src/dense_hnsw.rs:900-923 | when all workers are done the entry point has the highest level of all points |
| `NoSelfLoops.NoSelfLoops` | src/dense_hnsw.rs:790-898 | in every interleaving, at every moment, no point is in its own neighbour list on any level |
| `BuildProgress.RunsAreBounded` | src/dense_hnsw.rs:790-918 | no interleaving of the workers runs forever |
| `BuildProgress.NeverStuck` | src/dense_hnsw.rs:903-916 | no interleaving deadlocks: until all workers are done some worker can move |
| `BuildStructures.SearchMarks.Begin` | src/dense_hnsw.rs:124-149 | starting a search empties the visited set, also when the generation counter wraps around |
| `BuildStructures.SearchMarks.Mark` | src/dense_hnsw.rs:151-159 | marking a point adds it and tells whether it was new |
| `BuildStructures.VisitedBitmap.Contains` | src/dense_hnsw.rs:726-731 | reading a bit tells membership |
| `BuildStructures.VisitedBitmap.Add` | src/dense_hnsw.rs:733-737 | setting a bit adds that point and no other |
| `BuildStructures.NeighborList.Link` | src/dense_hnsw.rs:857-893 | adding links under the lock leaves the list deduplicated and pruned to its capacity |
| `BuildStructures.SearchLayer` | src/dense_hnsw.rs:981-1049 | the search used while building, with other workers changing the lists between its reads, reads each list at most once and terminates with a beam that is finished with regard to the lists as it read them, returned by distance and then by number |
| `HnswFiles.PointTable` | src/dense_hnsw.rs:930-953 | the offset computed for each point is the number of bytes the writer emits before its lists |
| `HnswFiles.WriteGraph` | src/dense_hnsw.rs:1821-1859 | the writer emits every list of every point in order |
| `HnswFiles.LevelNeighborSpan` | src/dense_hnsw.rs:1771-1808 | walking over a point's lists ends at the span of the wanted level, an empty one above the point's top level, or an error when the data ends |
| `HnswFiles.WrittenListsRead` | src/dense_hnsw.rs:1771-1859 | from written files every neighbour list of every point is read back at every level |
| `HnswFiles.WrittenMetaReads` | src/dense_hnsw.rs:1821-1901 | the header and every row of the point table are read back |
| `HnswValidation.ValidateFiles` | src/dense_hnsw.rs:254-436 | the full validator, loop by loop, decides as its specification does |
| `HnswValidation.WrittenFilesAccepted` | src/dense_hnsw.rs:254-436 | the validator accepts every pair of files the writer produces |
| `HnswValidation.WrittenIndexLoads` | src/dense_hnsw.rs:1771-1859 | the index a search sees in the written files is the graph that was built |
| `HnswValidation.AcceptedFilesAreSound` | src/dense_hnsw.rs:254-436 | in accepted files every stored link and the entry point name existing points |
| `HnswValidation.OpeningAcceptsMore` | src/dense_hnsw.rs:438-526 | whatever the full validator accepts the opening check accepts, and that check cannot tell two graph files apart |
| `HnswValidation.FarLinkOpens` | src/dense_hnsw.rs:438-526 | for every configuration there are files that the opening check accepts and the full validator rejects, and that load as the index on which the scoped search runs out of bounds |
| `BuildOutput.ListsFit` | src/dense_hnsw.rs:1847-1853 | with m at most 32767 every list of every interleaving fits its 16-bit length |
| `BuildOutput.BuildWriteSearch` | src/dense_hnsw.rs:745-968 | whatever the interleaving, the finished build is written, accepted by the validator and loaded back as the graph that was built, on which every search answers |
| `NumericKeys.KeyMeans` | src/property_value_semantics.rs:197-282 | a key exists exactly for finite numbers and stands for the exact value |
| `NumericKeys.CompareIsValueOrder` | src/property_value_semantics.rs:284-294 | comparing keys compares exact values |
| `NumericKeys.SameValueSameKey` | src/property_value_semantics.rs:161-181 | two canonical keys are one key exactly when their values are equal |
| `NumericKeys.EqualityMeans` | src/property_value_semantics.rs:303-308 | finite numbers of any types are equal exactly when their values are; anything else equals itself only, and nothing that holds a NaN |
| `NumericKeys.RawEqualIsIdentity` | src/property_value_semantics.rs:523-551 | structural equality is identity without a NaN anywhere inside |
| `NumericSortKeys.EmittableExactly` | src/property_value_semantics.rs:125-146 | the emittable check passes exactly the nonzero keys that some i64, u64 or finite f64 has |
| `NumericSortKeys.DecodeInverts` | src/property_value_semantics.rs:76-123 | the decoder inverts the encoder on every key, whose rank, exponent and the sum on the way fit 32 bits and whose shifts stay within 128 |
| `NumericSortKeys.EncodeInverts` | src/property_value_semantics.rs:37-123 | re-encoding what was decoded gives the same bytes, so the final comparison of the validator never fails |
| `NumericSortKeys.AcceptsExactlySortKeys` | src/property_value_semantics.rs:37-74 | the validator accepts a 24-byte string exactly when it is the sort key of some i64, u64 or finite f64 |
| `NumericSortKeys.SortKeyOrder` | src/property_value_semantics.rs:338-361 | byte order of sort keys is key order, and equal bytes are equal keys |
| `NumericSortKeys.SortKeysOrderValues` | src/property_value_semantics.rs:284-365 | across all three number types byte order, key order and value order are one, and equal bytes mean equal values |
| `NumericSortKeys.EqualityKeysMatchEquality` | src/property_value_semantics.rs:310-320 | two numbers have one equality key exactly when they are semantically equal |
| `NumericCasts.RoundedIsNearest` | src/property_value_semantics.rs:217-245 | the modelled cast picks the nearest multiple, and the even one of two equally near |
| `NumericCasts.ExactIntToFloatMeans` | src/property_value_semantics.rs:217-230 | a signed conversion succeeds exactly when the odd part fits 53 bits, and gives the same number |
| `NumericCasts.ExactUIntToFloatMeans` | src/property_value_semantics.rs:232-245 | the same for unsigned integers |
| `NumericRanges.WithinMeans` | src/property_value_semantics.rs:377-472 | bounds are valid exactly when one is given and all are finite numbers; a value is within the range exactly when it lies between them as a number |
| `NumericRanges.RawCheckMeans` | src/property_value_semantics.rs:411-442 | when the unvalidated check answers, the answer is the truth about the exact values |
| `NumericRanges.ChecksAgree` | src/property_value_semantics.rs:411-472 | with valid bounds both membership checks give one answer |
| `NumericRanges.IntersectMeans` | src/property_value_semantics.rs:481-498 | a key is in the intersection of two ranges exactly when it is in both |
| `NumericRanges.EmptyHoldsNothing` | src/property_value_semantics.rs:591-597 | a range whose bounds are found empty holds no key |
| `DegreeOverlay.AddDeltaMeans` | src/degree_cache.rs:283-318 | adding a delta changes one node in one edit, and nothing any other edit or snapshot shows |
| `DegreeOverlay.FinishChangesNothing` | src/degree_cache.rs:295-308 | finishing an edit removes nothing, because no shard holds a zero |
| `DegreeOverlay.EveryRunShowsFlatMaps` | src/degree_cache.rs:205-321 | over every run of creating, editing, finishing and dropping, with any number of edits open, each reference shows exactly its own flat map of summed deltas with zeros left out, every entry in its own shard |
| `DegreeOverlay.SnapshotsNeverChange` | src/degree_cache.rs:276-318 | a snapshot shows the same delta for every node as long as it is held |
| `DegreeOverlay.ExactSums` | src/degree_cache.rs:65-73 | when addition is exact, leaving zeros out loses nothing: a node's delta is the sum of all added to it |
| `DegreeOverlayEdits.Overlays.OwnGroup` | src/degree_cache.rs:310-314 | afterwards the edit is the only holder of its group, and every edit and snapshot shows what it showed before |
| `DegreeOverlayEdits.Overlays.OwnShard` | src/degree_cache.rs:315-317 | the same for a shard of a group the edit holds alone |
| `DegreeOverlayEdits.Overlays.AddDelta` | src/degree_cache.rs:283-293 | the edit as the source performs it has the effect stated for adding a delta |
| `DegreeOverlayEdits.Overlays.Finish` | src/degree_cache.rs:295-308 | the loop of finishing leaves the overlay as it was |
| `DegreeOverlayEdits.SortedEntries` | src/degree_cache.rs:246-261 | listing a snapshot gives every nonzero node once, by ascending id |
| `DegreeOverlayEdits.CheckEntries` | src/degree_cache.rs:515-531 | the writer's check, as a loop |
| `DegreeOverlayEdits.WriterAcceptsExactly` | src/degree_cache.rs:515-531 | the writer accepts exactly strictly ascending lists without zeros |
| `DegreeOverlayEdits.ListingsAreWritable` | src/degree_cache.rs:246-261 | a snapshot's listing always passes the writer's check |
| `DegreeSidecar.EncodeSorted` | src/degree_cache.rs:545-586 | the encoder writes header, block index, entries and checksum |
| `DegreeSidecar.Validate` | src/degree_cache.rs:863-922 | the full check, loop by loop, decides as its specification does |
| `DegreeSidecar.AcceptsExactlyEncodings` | src/degree_cache.rs:792-922 | the full check accepts exactly the encodings of strictly ascending lists without zero deltas |
| `DegreeSidecar.EncodedEntriesRead` | src/degree_cache.rs:925-949 | the entries of an encoding are read back |
| `DegreeLookup.FindBlock` | src/degree_cache.rs:370-383 | the first binary search ends between a block that starts at or before the node and one that starts after it |
| `DegreeLookup.FindInBlock` | src/degree_cache.rs:389-401 | the second binary search finds the node in its block exactly when it is there |
| `DegreeLookup.Lookup` | src/degree_cache.rs:364-404 | on any data of the right shape the lookup stays in bounds and ends; on sorted entries under a right index it is lookup in the list, zero for absent nodes |
| `DegreeLookup.AcceptedIsInOrder` | src/degree_cache.rs:863-922 | what the full check accepts is sorted under a right index |
| `DegreeFold.FoldEntries` | src/degree_cache.rs:685-731 | the heap-driven merge emits, ascending, each node whose sum in sidecar order is not zero, and no other |
| `DegreeFold.SumNode` | src/degree_cache.rs:705-727 | all cursors at one node are taken in the order of the sidecars |
| `DegreeFold.Consume` | src/degree_cache.rs:733-753 | taking a cursor adds its delta, moves it on and puts its next node in the heap |
| `DegreeFold.FoldIsUnique` | src/degree_cache.rs:600-656 | both passes over the same sidecars emit the same entries |
| `DegreeFold.CountAndIndex` | src/degree_cache.rs:608-617 | the first pass counts the entries and records the first of each block |
| `DegreeFold.WriteFolded` | src/degree_cache.rs:600-656 | the streamed bytes are the plain encoding of the fold, written exactly when every sidecar is accepted; looking any node up in them gives its sum over the sidecars |
| `DegreeFold.FoldLooksUpSums` | src/degree_cache.rs:600-731 | looking a node up in the fold gives the sum over the sidecars |
| `DegreeFold.FoldedFileFinds` | src/degree_cache.rs:364-656 | the file of a fold passes the full check, is in order for the two-level lookup, and holds for each node the sum over the sidecars |
| `DegreeFold.FoldIsCanonical` | src/degree_cache.rs:685-731 | a fold is strictly ascending and without zeros |
| `DegreeFlush.FlushedSnapshotReadsBack` | src/degree_cache.rs:246-586 | a snapshot's listing passes the writer, its file passes the full check, and looking any node up in the file gives what the snapshot gives |
| `SparseIndex.ValidateShape` | src/sparse_postings.rs:468-547 | the shape check, as a loop |
| `SparseIndex.ValidRowsAscend` | src/sparse_postings.rs:468-547 | in an index of valid shape all rows can be read and their dimensions ascend strictly |
| `SparseIndex.FindDimensionFinds` | src/sparse_postings.rs:205-227 | the binary search finds a dimension's row exactly when there is one |
| `SparseIndex.BoundSplits` | src/sparse_postings.rs:135-173 | both bound searches end where the rows below and above the target meet |
| `SparseIndex.FindDimension` | src/sparse_postings.rs:205-227 | the search loop |
| `SparseIndex.LowerBound` | src/sparse_postings.rs:135-153 | the lower bound loop |
| `SparseIndex.UpperBound` | src/sparse_postings.rs:155-173 | the upper bound loop |
| `SparseScores.CeilLog2Means` | src/sparse_postings.rs:127-133 | the logarithm is rounded up exactly |
| `SparseScores.ChooseStrategy` | src/sparse_postings.rs:175-203 | over ascending rows the choice never fails; a merge walks exactly the rows between the query's least and greatest dimension, and seeking is chosen exactly for small inputs or when its cost is at most that walk |
| `SparseScores.Scores.AddAll` | src/sparse_postings.rs:620-634 | adding one row's postings, stopping at the first bad one |
| `SparseScores.Scores.SeekEach` | src/sparse_postings.rs:594-636 | the seeking loop |
| `SparseScores.Scores.MergeAll` | src/sparse_postings.rs:637-697 | the merging loop |
| `SparseScores.Scores.AccumulateScores` | src/sparse_postings.rs:579-699 | scoring in place, by the strategy chosen |
| `SparseScores.StrategiesAgree` | src/sparse_postings.rs:579-699 | over a validated index and an ascending query both strategies give the same scores and the same outcome, also when a bad posting stops them half way |
| `SparseScores.SparseDotScore` | src/sparse_postings.rs:701-717 | the dot product loop |
| `SparseScores.DotIsLookup` | src/sparse_postings.rs:701-717 | merging two ascending lists adds the same products in the same order as looking each dimension up |
| `SparseMeaning.ScoresAreDotProducts` | src/sparse_postings.rs:579-717 | on success every node that shares a dimension with the query gets the dot product with its vector, added onto what it had, and no other score changes |
| `SparseFiles.WriteFiles` | src/sparse_postings.rs:252-305 | the writer emits the rows and postings of the groups, or fails on an empty group or a bad weight |
| `SparseFiles.WrittenFilesRead` | src/sparse_postings.rs:252-305 | written files pass the shape check and every node's vector is read back |
| `SparseFiles.WrittenScoresAreDotProducts` | src/sparse_postings.rs:252-699 | scoring against written postings always succeeds with the dot products of the original groups |
| `Manifest.Directory.WriteManifest` | src/manifest.rs:21-50 | a write cut short after any step leaves the disk its specification says |
| `Manifest.Directory.LoadManifest` | src/manifest.rs:55-113 | a load cut short after any step gives the outcome and the disk its specification says |
| `Manifest.Directory.LoadManifestReadOnly` | src/manifest.rs:250-265 | the read-only loader changes nothing |
| `Manifest.LoadAgreesWithReadOnly` | src/manifest.rs:55-265 | on any disk a completed load answers what the read-only loader answers, and leaves a disk that keeps answering it and needs no repair |
| `Manifest.CrashedLoadAnswer` | src/manifest.rs:64-86 | a crash inside a load leaves the answer as it was but for one moment, and what the answer is then |
| `Manifest.EveryLoadRecovers` | src/manifest.rs:21-113 | after any run of writes and loads cut short anywhere, also between the last rename and returning, a load that completes answers the acknowledged state or one in flight, and fails exactly on a disk without a current file whose temporary file cannot be read as text |
| `Manifest.AnswerIsStable` | src/manifest.rs:55-88 | once a load has answered, every later completed load gives the same answer until the next write |
| `Manifest.LoadedStateStays` | src/manifest.rs:55-88 | what one load has answered, every later load that completes answers too, whatever is cut short in between, until the next write |
| `Manifest.NeverStuck` | src/manifest.rs:94-113 | when half-written text can always be decoded no load fails |
| `Manifest.AcknowledgedButUnreadable` | src/manifest.rs:64-105 | a run after which every load fails although an acknowledged state is in the previous file |
| `Manifest.ShownButTakenBack` | src/manifest.rs:64-86 | a run in which the read-only loader shows a written state and after a crashed repair an older one, which is the acknowledged one |
| `Manifest.ValidateTokenNamespace` | src/manifest.rs:198-230 | a namespace is accepted exactly when names are valid and ids are distinct, nonzero and below the next id |
| `Manifest.StagedTokensStayValid` | src/engine/write.rs:244-274 | a token entered into a valid namespace leaves one the validator accepts exactly when its name was known or its id is neither 0 nor the last one |
| `Manifest.NextTokenIsFresh` | src/engine/write.rs:49-60 | giving a new name the next id, while one is left, always succeeds, the id was unused, and the namespace stays valid |
| `EdgeMetadata.KeyOrderIsWeightOrder` | src/edge_metadata.rs:103-114 | every weight but NaN has a key, and keys are ordered as weights are, both zeros sharing one |
| `EdgeMetadata.WeightMatchesAsKey` | src/edge_metadata.rs:138-161 | a weight matches its bounds exactly when its key lies between the bounds' keys; a bound that is a NaN rejects nothing |
| `EdgeMetadata.IndexEntries.Push` | src/edge_metadata.rs:32-47 | an edge is added to every index, to the weight index only when its weight has a key |
| `EdgeMetadata.PushedEdge` | src/edge_metadata.rs:32-47 | the indexes stay those of the edges pushed |
| `EdgeMetadata.IndexEntries.SortAll` | src/edge_metadata.rs:49-54 | sorting orders every index and keeps its entries |
| `EdgeMetadata.SelectionIsOneRun` | src/edge_metadata.rs:116-136 | in a sorted index the entries of one label within bounds are one unbroken run |
| `EdgeMetadata.WeightScanIsExact` | src/edge_metadata.rs:32-161 | selecting by keys finds exactly the edges whose weights match the bounds |
| `WalBuffers.EncodeInto` | src/encoding.rs:177-271 | encoding fills the buffer with the operation's bytes whatever it held before, and fails exactly when a limit is exceeded or the properties cannot be packed |
| `WalBuffers.DecodeOp` | src/encoding.rs:291-437 | the decoder, moving its cursor field by field, decodes as its specification does |
| `WalBuffers.Cursor.ReadLabels` | src/encoding.rs:147-172 | the label list is read and checked in order |
| `WalBuffers.Cursor.ReadVectors` | src/encoding.rs:309-355 | both vectors are read under their flags to the end of the data |
| `WalCodec.DecodeInvertsEncode` | src/encoding.rs:177-437 | decoding an encoded operation gives it back with a zero write sequence, and the same bytes with anything after them are rejected |
| `WalCodec.EncodingIsUnique` | src/encoding.rs:177-271 | operations with one encoding differ at most in the write sequence |
| `WalCodec.DecodedNodeIsSound` | src/encoding.rs:147-172 | whatever the bytes, a decoded node has one to ten nonzero, strictly ascending labels |

## Left out

- NaN distances: a distance is assumed comparable with every other one.
- Floating-point arithmetic of distances, norms, scores and weight sums: unknown functions; no claim about recall, nor that the graph stays connected.
- `assign_level` and its hash: levels are arbitrary (at most 32 where a file is written).
- Memory-model effects beyond stale loads of the entry word; locks are taken to be sequentially consistent.
- Input/output, memory mapping, fsync, directory entries and the Windows branch: files are values, renames are atomic and happen in order.
- Allocation failure, and integer overflow at sizes beyond 64-bit addressing; the checked additions of the source then fail, the model has no such sizes.
- Checksum strength, MessagePack, JSON and UTF-8: unknown functions, with packing assumed to round-trip and schema normalization assumed idempotent.
- Component identity headers, schema validation and secondary-index checks of the manifest: their bodies are in other files.
- Reads through raw pointers and their alignment: modelled as reading bytes.
- Deltas built from edges, and turning a delta into a reported degree: plain constructors; how deltas are applied at both ends of an edge is decided elsewhere.
- The cheaper validator used on opening sparse posting files, exact searches used as fallbacks with a cutoff, and test-only writers.
- Error texts, thread pool, bindings and benchmarks.
- BuildOutput.BuildWriteSearch: requires m at most 32767, because a longer list does not fit its 16-bit length field.
- WalBuffers.EncodeInto: does not state which bytes a failed encoding leaves in the buffer; the next one clears them.
- DegreeOverlayEdits.Overlays.AddDelta: reference counts are not stored; a group or shard counts as unshared when no other held edit or snapshot leads to it.
- BuildStructures.SearchLayer: the two binary heaps are sets with a nearest and a farthest element; what other workers do shows only as lists changing between two reads, every one of them well formed.
- DegreeFold.FoldEntries: the binary heap is a set from which the first entry is taken.
