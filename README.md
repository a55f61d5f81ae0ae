# Coherent mesh slicing and field I/O, modelled in Dafny

This project models the coherent layer of foam-extend. In the coherent
format a case holds each mesh array once, in a global order, with the cells
of each partition held contiguously. Every process reads the contiguous slice of cells
that belongs to its partition. It then builds a decomposed mesh from that slice.
The faces that border higher partitions become processor patches with
synthetic negative patch ids. Faces and points are renumbered into the
canonical order a polyMesh expects. Fields are written back as coherent
arrays, together with a dictionary that holds everything else.

The model keeps the sequential logic of that layer. Messages between
processes become parameters and results of methods. Collective results
such as the global index of per-partition sizes, reductions and
gathered lists are input sequences. The storage engine is a parameter or a
block of data handed in.

Modules, one per file:

- `OffsetTables`, `CoherentOffsets`, `SliceOffsets`: the per-partition
  `[lower, upper)` tables of the coherent mesh and of the slice mesh. They
  are built by prefix sum with a monotone clamp. The 64-bit wrap-around and
  the abort on a decreasing sum of the slice-mesh table are modelled.
- `OrderedSets`, `StableSorts`, `LabelNames`, `FileNames`, `Wrappers`: the
  behaviour of the library pieces the code relies on. These are
  `std::set<label>`, `std::stable_sort`, `Foam::name(label)`, fileName
  joining and splitting, and optional values.
- `CoherentSlices`, `SliceMeshSlices`: the slice `[bottom, top)` and the
  import map it shares between copies. The map hands out consecutive local
  ids to imported global ids. The slice mesh's `exist` has the opposite
  polarity.
- `SliceHelpers`: patch id encoding, `partitionByFirst`, `renumberFaces`,
  `permutationOfSorted`, `applyPermutation`, `subset` and the small vector
  helpers.
- `FragmentPermutations`, `SlicePermutations`, `PointNumbering`,
  `SliceMeshPermutations`: the face permutations in both directions and
  the first-appearance numbering of points.
- `ProcessorPatches`: the selection of the faces and points a processor
  patch shares with its partner, and the encoding of its faces in the
  neighbour list.
- `MeshLayout`, `CoherentMeshes`: the cutting of the linearized faces, the
  run-length owner list, and the order in which received faces and points
  are appended. They also cover the patch starts and sizes and the phases of
  the coherent mesh constructor.
- `OffsetStrategies`, `InitStrategies`, `CoherenceComposite`: the tree of
  named index components. Each component computes its window from its
  parent's data, is initialized lazily and is extracted destructively. The
  slice decorator caches the slice of a wrapped component.
- `FieldTags`: the uniformity of field data and its reduction over ranks.
- `SurfaceFields`: the split of a coherent surface field into internal and
  processor-patch data on reading, with its sign flip, and the
  interleaving on writing.
- `OSstreams`, `OFstreams`, `OFCstreams`, `SliceStreams`,
  `IOstreamOptions`: string escaping and line counting of the output
  stream. They also cover the block-name stack and block ids of the file
  stream, the dictionary the coherent stream builds and the fields it writes,
  the stream type and path of a slice stream, and the stream option enums.
- `SpanBuffers`: `mapped_copy` into the storage engine's span.
- `TarSystemCall`: the split of a path into instance, local and name.

## Model

| member | source | states |
|---|---|---|
| CoherentOffsets.GlobalIndexOffsets | src/foam/meshes/polyMesh/CoherentMesh/Offsets.C:15 | the global index starts at 0 and entry p+1 is the running sum of the values up to p with reduce, the value of p without |
| CoherentOffsets.Offsets.constructor | src/foam/meshes/polyMesh/CoherentMesh/Offsets.H:52-67 | the default table holds nProcs pairs (0, 0) and is chained |
| CoherentOffsets.Offsets.Build | src/foam/meshes/polyMesh/CoherentMesh/Offsets.C:7-10 | constructing with a value runs `set`: the table is the chained table of the clamped global offsets |
| CoherentOffsets.Offsets.Set | src/foam/meshes/polyMesh/CoherentMesh/Offsets.C:13-33 | after `set` the table is chained and every upper bound is the clamped global offset (the running maximum) of the values with this process's value in its slot |
| CoherentOffsets.Offsets.ClampUppers | src/foam/meshes/polyMesh/CoherentMesh/Offsets.C:17-26 | the first loop leaves upper bound p equal to the largest global offset of partitions 0..p |
| CoherentOffsets.Offsets.ChainLowers | src/foam/meshes/polyMesh/CoherentMesh/Offsets.C:28-32 | the second loop makes every lower bound the previous upper bound and leaves the upper bounds alone |
| CoherentOffsets.Offsets.LowerBound | src/foam/meshes/polyMesh/CoherentMesh/Offsets.C:36-39 | partition 0 starts at 0 and every other partition starts where its predecessor ends |
| CoherentOffsets.Offsets.UpperBound | src/foam/meshes/polyMesh/CoherentMesh/Offsets.C:42-45 | an upper bound never exceeds the next partition's upper bound |
| CoherentOffsets.Offsets.Count | src/foam/meshes/polyMesh/CoherentMesh/Offsets.C:48-51 | lower bound plus count is the upper bound; counts of partitions after the first are never negative |
| CoherentOffsets.Offsets.Size | src/foam/meshes/polyMesh/CoherentMesh/Offsets.C:54-57 | the count of the own partition, with the same two properties |
| CoherentOffsets.Offsets.Pair | src/foam/meshes/polyMesh/CoherentMesh/Offsets.C:72-76 | the pair of partition i is (lowerBound(i), upperBound(i)) |
| CoherentOffsets.SetTable | src/foam/meshes/polyMesh/CoherentMesh/Offsets.C:13-33 | the table `set` builds, pair by pair: (previous clamped offset or 0, clamped offset) |
| CoherentOffsets.SetTableChained | src/foam/meshes/polyMesh/CoherentMesh/Offsets.C:13-33 | that table is chained for every own partition number |
| CoherentOffsets.TableAfterSet | src/foam/meshes/polyMesh/CoherentMesh/Offsets.C:28-32 | a chained table with the clamped upper bounds is exactly the table of `set` |
| CoherentOffsets.ReducedUpperIsRunningSum | src/foam/meshes/polyMesh/CoherentMesh/Offsets.C:13-26 | with reduce and non-negative sizes the clamp changes nothing: upper bound p is the sum of sizes 0..p |
| CoherentOffsets.UnreducedUpperIsLargestValue | src/foam/meshes/polyMesh/CoherentMesh/Offsets.C:17-26 | without reduce, upper bound p is the largest value of partitions 0..p (an upper bound of all of them, attained by one) |
| CoherentOffsets.CountAfterReducedSet | src/foam/meshes/polyMesh/CoherentMesh/Offsets.C:13-51 | after a reducing `set` with non-negative sizes every partition's count is the size it contributed |
| OffsetTables.PrefixSums | src/foam/meshes/polyMesh/sliceMesh/Offsets.C:5-23 | entry i of the reduced table is the sum of entries 0..i |
| OffsetTables.RunningMaxIsMaximum | src/foam/meshes/polyMesh/sliceMesh/Offsets.C:42-48 | the clamped entry p bounds entries 0..p from above and equals one of them |
| OffsetTables.RunningMaxMonotone | src/foam/meshes/polyMesh/sliceMesh/Offsets.C:42-48 | clamped entries never decrease along the partitions |
| OffsetTables.RunningMaxOfNonDecreasing | src/foam/meshes/polyMesh/sliceMesh/Offsets.C:42-48 | on an already non-decreasing table the clamp changes nothing |
| OffsetTables.PrefixSumsOfSizes | src/foam/meshes/polyMesh/sliceMesh/Offsets.C:5-23 | running sums of non-negative sizes are non-negative and non-decreasing |
| OffsetTables.PrefixSumsDifference | src/foam/meshes/polyMesh/sliceMesh/Offsets.C:5-23 | consecutive running sums differ by exactly the partition's own size |
| SliceOffsets.AddLabels | src/foam/meshes/polyMesh/sliceMesh/Offsets.C:11 | 64-bit label addition: the exact sum when it fits, otherwise wrapped around by 2^64 |
| SliceOffsets.AddStep | src/foam/meshes/polyMesh/sliceMesh/Offsets.C:10-20 | the wrapped sum drops below the running offset exactly when the size is negative or the exact sum overflows |
| SliceOffsets.Offsets.constructor | src/foam/meshes/polyMesh/sliceMesh/Offsets.C:26-29 | the table starts as nProcs zeros (the state `set` is then applied to) |
| SliceOffsets.Offsets.DoReduce | src/foam/meshes/polyMesh/sliceMesh/Offsets.C:5-23 | aborts exactly when some size is negative or some running sum overflows a label; otherwise the offsets become their running sums |
| SliceOffsets.Offsets.Set | src/foam/meshes/polyMesh/sliceMesh/Offsets.C:32-49 | aborts exactly when reducing aborts; otherwise the offsets are the clamped (running-maximum) reduced or gathered values and never decrease |
| SliceOffsets.Offsets.ClampToPredecessor | src/foam/meshes/polyMesh/sliceMesh/Offsets.C:42-48 | every offset becomes the largest of the offsets up to it, so the table never decreases |
| SliceOffsets.Offsets.LowerBound | src/foam/meshes/polyMesh/sliceMesh/Offsets.C:52-55 | 0 for the first partition, else the previous partition's upper bound |
| SliceOffsets.Offsets.UpperBound | src/foam/meshes/polyMesh/sliceMesh/Offsets.C:58-61 | never after any later partition's upper bound |
| SliceOffsets.Offsets.Count | src/foam/meshes/polyMesh/sliceMesh/Offsets.C:64-67 | lower bound plus count is the upper bound; non-negative after the first partition |
| SliceOffsets.Offsets.Front | src/foam/meshes/polyMesh/sliceMesh/Offsets.C:70-73 | 0 on the first process, else the previous offset |
| SliceOffsets.Offsets.Back | src/foam/meshes/polyMesh/sliceMesh/Offsets.C:76-79 | the own offset, never before front() after the first process |
| SliceOffsets.Offsets.Size | src/foam/meshes/polyMesh/sliceMesh/Offsets.C:82-85 | front() plus size() is back(); non-negative after the first process |
| SliceOffsets.ReduceOfFittingSizes | src/foam/meshes/polyMesh/sliceMesh/Offsets.C:5-49 | non-negative sizes whose total fits in a label never abort, and each partition's count is then its own size |
| SliceOffsets.OverflowingSizesAbort | src/foam/meshes/polyMesh/sliceMesh/Offsets.C:5-23 | a total beyond the label range always aborts the reduction |
| IOstreamOptions.FormatEnum | src/foam/db/IOstreams/IOstreams/IOstreamOption.C:32-55 | "binary" and "coherent" select their formats; every other word, "ascii" or unknown, gives ASCII |
| IOstreamOptions.FormatName | src/foam/db/IOstreams/IOstreams/IOstreamOption.C:134-154 | every format is written with a non-empty name |
| IOstreamOptions.FormatNameRoundTrip | src/foam/db/IOstreams/IOstreams/IOstreamOption.C:32-154 | reading a format's written name back with formatEnum gives the format |
| IOstreamOptions.FormatNameInjective | src/foam/db/IOstreams/IOstreams/IOstreamOption.C:134-154 | different formats are written with different names |
| IOstreamOptions.CompressionEnum | src/foam/db/IOstreams/IOstreams/IOstreamOption.C:58-85 | a word the Switch recognises decides by its truth value; otherwise only "compressed" gives COMPRESSED |
| IOstreamOptions.ModeEnum | src/foam/db/IOstreams/IOstreams/IOstreamOption.C:88-107 | DEFERRED exactly for "deferred", SYNC for every other word |
| IOstreamOptions.DestinationEnum | src/foam/db/IOstreams/IOstreams/IOstreamOption.C:110-129 | CASE exactly for "case", TIME for every other word |
| LabelNames.LabelName | src/foam/meshes/polyMesh/CoherentMesh/ProcessorPatch.C:38-40 | the text of a label is non-empty, starts with '-' exactly for negative labels and is otherwise made of decimal digits |
| LabelNames.LabelNameRoundTrip | src/foam/meshes/polyMesh/CoherentMesh/ProcessorPatch.C:38-40 | parsing the text of a label gives the label back |
| LabelNames.DigitsRoundTrip | src/foam/meshes/polyMesh/CoherentMesh/ProcessorPatch.C:38-40 | the decimal digits of a natural number read back as that number |
| OrderedSets.Insert | src/foam/meshes/polyMesh/CoherentMesh/CoherentMesh.C:352 | std::set insertion keeps the ids strictly ascending, adds exactly the new id and changes nothing when it is present |
| OrderedSets.FromSeq | src/foam/meshes/polyMesh/CoherentMesh/CoherentMesh.C:352 | the set built from a list is strictly ascending and holds exactly the list's ids |
| OrderedSets.AscendingUnique | src/foam/meshes/polyMesh/CoherentMesh/ProcessorPatch.C:139 | two strictly ascending lists with the same ids are equal: a set's iteration order is fixed by its contents |
| SliceHelpers.EncodeSlicePatchId | src/foam/meshes/polyMesh/CoherentMesh/sliceMeshHelper.C:6-9 | the encoded id decodes back to the patch number, and it is negative exactly for non-negative patch numbers |
| SliceHelpers.DecodeSlicePatchId | src/foam/meshes/polyMesh/CoherentMesh/sliceMeshHelper.C:12-15 | negative neighbour ids decode to non-negative patch numbers and only they do |
| SliceHelpers.DecodeEncodeInverse | src/foam/meshes/polyMesh/CoherentMesh/sliceMeshHelper.C:6-15 | decoding then encoding gives the id back, and the encoding reverses the order of patch numbers |
| SliceHelpers.PositivesMembers | src/foam/meshes/polyMesh/CoherentMesh/sliceMeshHelper.C:20-28 | stable_partition keeps in front exactly the pairs whose neighbour is positive |
| SliceHelpers.PartitionByFirstPermutes | src/foam/meshes/polyMesh/CoherentMesh/sliceMeshHelper.C:18-50 | partitionByFirst only reorders: same length, same multiset of pairs |
| SliceHelpers.PartitionByFirstLayout | src/foam/meshes/polyMesh/CoherentMesh/sliceMeshHelper.C:18-50 | positive neighbours come first in their original order; the rest follows non-positive, by first descending, stable among equal firsts |
| SliceHelpers.SortedRestLayout | src/foam/meshes/polyMesh/CoherentMesh/sliceMeshHelper.C:29-49 | the sorted rest is non-positive, descending and keeps the original order within each value |
| SliceHelpers.PartitionByFirstInPlace | src/foam/meshes/polyMesh/CoherentMesh/sliceMeshHelper.C:18-50 | the caller's pair vector becomes its partitionByFirst arrangement |
| SliceHelpers.RenumberFace | src/foam/meshes/polyMesh/CoherentMesh/sliceMeshHelper.C:62-71 | a face keeps its length and point j becomes map[point j] |
| SliceHelpers.RenumberedFaces | src/foam/meshes/polyMesh/CoherentMesh/sliceMeshHelper.C:53-74 | every face of the list is renumbered through the map |
| SliceHelpers.RenumberFaces | src/foam/meshes/polyMesh/CoherentMesh/sliceMeshHelper.C:53-74 | renumbering in place replaces every face by its renumbered face |
| SliceHelpers.IndexIota | src/foam/meshes/polyMesh/CoherentMesh/sliceMeshHelperI.H:32-42 | size entries start, start+1, ... |
| SliceHelpers.GenerateIndexedPairs | src/foam/meshes/polyMesh/CoherentMesh/sliceMeshHelperI.H:9-29 | entry i is (input[i], i) |
| SliceHelpers.Zip | src/foam/meshes/polyMesh/CoherentMesh/sliceMeshHelperI.H:45-68 | entry i pairs the two containers' entries i, over the first container's length |
| SliceHelpers.ExtractNth | src/foam/meshes/polyMesh/CoherentMesh/sliceMeshHelperI.H:106-123 | the operation applied to every element, in order |
| SliceHelpers.IndexSort | src/foam/meshes/polyMesh/CoherentMesh/sliceMeshHelperI.H:71-84 | the indices are rearranged (same multiset) so that their data values ascend |
| SliceHelpers.PermutationOfSorted | src/foam/meshes/polyMesh/CoherentMesh/sliceMeshHelper.C:77-84 | the stable argsort: positions in range, listed by ascending value and, for equal values, by ascending position |
| SliceHelpers.PermutationOfSortedIsPermutation | src/foam/meshes/polyMesh/CoherentMesh/sliceMeshHelper.C:77-84 | every position of the input occurs in the argsort, so it is a permutation |
| SliceHelpers.FindFrom | src/foam/meshes/polyMesh/CoherentMesh/sliceMeshHelperI.H:135-152 | find_if: the first position at or after the start whose test holds, the end when none does |
| SliceHelpers.FindValueExtend | src/foam/meshes/polyMesh/CoherentMesh/sliceMeshHelperI.H:126-153 | [begin, end) is the first maximal run of the value at or after begin; nothing before it holds the value |
| SliceHelpers.ApplyPermutation | src/foam/meshes/polyMesh/CoherentMesh/sliceMeshHelperI.H:157-171 | slot i receives the old data[perm[i]] for every i below the permutation's length; later slots keep their values |
| SliceHelpers.Permuted | src/foam/meshes/polyMesh/CoherentMesh/sliceMeshHelperI.H:157-171 | the vector applyPermutation leaves, slot by slot |
| SliceHelpers.PermutedIsRearrangement | src/foam/meshes/polyMesh/CoherentMesh/sliceMeshHelperI.H:157-171 | gathering through a permutation of all positions only rearranges the data (same multiset) |
| SliceHelpers.Onto | src/foam/meshes/polyMesh/CoherentMesh/sliceMeshHelperI.H:157-171 | n distinct positions below n cover every position |
| SliceHelpers.Subset | src/foam/meshes/polyMesh/CoherentMesh/sliceMeshHelperI.H:207-240 | every id subset collects satisfies the predicate |
| SliceHelpers.Filter | src/foam/meshes/polyMesh/CoherentMesh/sliceMeshHelperI.H:174-204 | copy_if keeps exactly the elements that satisfy the predicate |
| SliceHelpers.SubsetIsFilterOfFlatten | src/foam/meshes/polyMesh/CoherentMesh/sliceMeshHelperI.H:207-240 | subset over nested ranges is the filter of their concatenation |
| SliceHelpers.FilterAppend | src/foam/meshes/polyMesh/CoherentMesh/sliceMeshHelperI.H:174-204 | filtering a concatenation concatenates the filtered parts |
| SliceHelpers.SubsetMembers | src/foam/meshes/polyMesh/CoherentMesh/sliceMeshHelperI.H:207-240 | an id is in the subset iff it satisfies the predicate and some inner range holds it |
| SliceHelpers.FlattenRenumbered | src/foam/meshes/polyMesh/CoherentMesh/sliceMeshHelper.C:53-74 | renumbering every face renumbers the flattened point list |
| StableSorts.SortByKey | src/foam/meshes/polyMesh/CoherentMesh/sliceMeshHelperI.H:71-84 | std::stable_sort by key: a permutation (same multiset) whose keys ascend |
| StableSorts.SortIsStable | src/foam/meshes/polyMesh/CoherentMesh/sliceMeshHelperI.H:71-84 | for every key, the elements carrying it keep their original order |
| StableSorts.InsertKeepsSorted | src/foam/meshes/polyMesh/CoherentMesh/sliceMeshHelperI.H:71-84 | inserting before the first not-smaller key keeps the keys ascending |
| StableSorts.InsertKeepsKeyOrder | src/foam/meshes/polyMesh/CoherentMesh/sliceMeshHelperI.H:71-84 | that insertion puts the element in front of its key's run and leaves the other runs alone |
| StableSorts.SortOfAscendingIsLex | src/foam/meshes/polyMesh/CoherentMesh/sliceMeshHelperI.H:86-104 | stably sorting strictly ascending indices orders them by (key, index) |
| StableSorts.InsertSmallestIsLex | src/foam/meshes/polyMesh/CoherentMesh/sliceMeshHelperI.H:86-104 | inserting an index smaller than all others keeps the (key, index) order |
| FragmentPermutations.PairsArePermutation | src/foam/meshes/polyMesh/CoherentMesh/FragmentPermutation.C:34-43 | the partitioned (neighbour, face) pairs keep every face's own neighbour and list each face exactly once |
| FragmentPermutations.PairsKeepNeighbours | src/foam/meshes/polyMesh/CoherentMesh/FragmentPermutation.C:34-43 | every pair is (sliceNeighbours[f], f) for a face f of the slice |
| FragmentPermutations.PairsDistinct | src/foam/meshes/polyMesh/CoherentMesh/FragmentPermutation.C:34-43 | no face index occurs in two pairs |
| FragmentPermutations.FacePermutationIsPermutation | src/foam/meshes/polyMesh/CoherentMesh/FragmentPermutation.C:48-75 | facePermutation_ is a permutation of the faces and polyNeighboursAndPatches_ reads the neighbours through it |
| FragmentPermutations.PositivesKeepOrder | src/foam/meshes/polyMesh/CoherentMesh/sliceMeshHelper.C:20-28 | the stable partition keeps the internal faces in ascending face order |
| FragmentPermutations.NeighboursAndPatchesLayout | src/foam/meshes/polyMesh/CoherentMesh/FragmentPermutation.C:48-75 | internal faces first, positive and in original order; then the encoded patch ids, non-positive and descending |
| FragmentPermutations.PairsLayout | src/foam/meshes/polyMesh/CoherentMesh/FragmentPermutation.C:34-43 | the same layout stated on the pairs |
| FragmentPermutations.PatchBegin | src/foam/meshes/polyMesh/CoherentMesh/FragmentPermutationI.H:15 | findPatchBegin: the first position from the start whose neighbour is not positive, everything before it positive |
| FragmentPermutations.PatchBeginIsNumInternal | src/foam/meshes/polyMesh/CoherentMesh/FragmentPermutationI.H:11-28 | on the partitioned list the patch begin is the number of internal faces |
| FragmentPermutations.PatchBeginAt | src/foam/meshes/polyMesh/CoherentMesh/FragmentPermutationI.H:15 | the patch begin is the end of the leading run of positive neighbours |
| FragmentPermutations.FragmentPermutation.constructor | src/foam/meshes/polyMesh/CoherentMesh/FragmentPermutation.C:48-75 | both lists are the projections of the partitioned pairs, and the pair vector is left empty |
| FragmentPermutations.FragmentPermutation.Permute | src/foam/meshes/polyMesh/CoherentMesh/FragmentPermutation.C:82-85 | permute(id) gives the original face now at id, which carries the neighbour now at id |
| FragmentPermutations.FragmentPermutation.PermuteContainer | src/foam/meshes/polyMesh/CoherentMesh/FragmentPermutationI.H:4-8 | slot i receives the old entry facePermutation_[i]; the contents are only rearranged |
| FragmentPermutations.FragmentPermutation.RetrieveNeighbours | src/foam/meshes/polyMesh/CoherentMesh/FragmentPermutationI.H:11-18 | the neighbours of the internal faces, all positive |
| FragmentPermutations.FragmentPermutation.RetrievePatches | src/foam/meshes/polyMesh/CoherentMesh/FragmentPermutationI.H:21-28 | the encoded patch ids of the boundary faces, non-positive and descending |
| FragmentPermutations.RetrievedPartsCompose | src/foam/meshes/polyMesh/CoherentMesh/FragmentPermutationI.H:11-28 | the retrieved neighbours followed by the retrieved patches are the whole permuted list, with one patch entry per boundary face |
| PointNumbering.FirstAppearances | src/foam/meshes/polyMesh/CoherentMesh/SlicePermutation.C:41-55 | the ids visited, each once: same members as the input, distinct, no longer than it |
| PointNumbering.IndexOf | src/foam/meshes/polyMesh/CoherentMesh/SlicePermutation.C:48-52 | the slice id a point gets: the position of its first appearance |
| PointNumbering.IndexOfAppend | src/foam/meshes/polyMesh/CoherentMesh/SlicePermutation.C:48-52 | a later point does not change an earlier point's number; a new point gets the next number |
| PointNumbering.NumberedStep | src/foam/meshes/polyMesh/CoherentMesh/SlicePermutation.C:48-53 | a point is unnumbered (-1) iff it was not seen, and numbering it keeps both vectors consistent |
| PointNumbering.FirstAppearancesSnoc | src/foam/meshes/polyMesh/CoherentMesh/SlicePermutation.C:44-55 | visiting one more point adds it to the numbering iff it is new |
| PointNumbering.CreatePointPermutation | src/foam/meshes/polyMesh/CoherentMesh/SlicePermutation.C:35-56 | both vectors have nPoints entries and hold the first-appearance numbering of the faces' points, -1 elsewhere |
| PointNumbering.NumberFace | src/foam/meshes/polyMesh/CoherentMesh/SlicePermutation.C:46-54 | the inner loop extends the numbering by the points of one face |
| PointNumbering.VisitPoint | src/foam/meshes/polyMesh/CoherentMesh/SlicePermutation.C:48-53 | a new point gets the next slice id in both vectors, a known point changes nothing |
| PointNumbering.IndexOfDistinct | src/foam/meshes/polyMesh/CoherentMesh/SlicePermutation.C:48-52 | in a list of distinct ids the first appearance of entry k is at k |
| PointNumbering.NumberingIsInverse | src/foam/meshes/polyMesh/CoherentMesh/SlicePermutation.C:35-56 | on numbered points the two vectors are mutual inverses, and a point is numbered iff some face uses it |
| PointNumbering.ToPoly | src/foam/meshes/polyMesh/CoherentMesh/SlicePermutation.C:41-55 | permutationToPolyPoint_ as a function of the numbering |
| PointNumbering.NumberedIsToPoly | src/foam/meshes/polyMesh/CoherentMesh/SlicePermutation.C:35-56 | the vector the loop builds is that function of the numbering |
| PointNumbering.RenumberSnoc | src/foam/meshes/polyMesh/CoherentMesh/sliceMeshHelper.C:62-71 | renumbering a list with one more point appends that point's new id |
| PointNumbering.MappedMembership | src/foam/meshes/polyMesh/CoherentMesh/sliceMeshHelper.C:53-74 | under an injective map a point is in a list iff its image is in the renumbered list |
| PointNumbering.FirstAppearancesRenumbered | src/foam/meshes/polyMesh/CoherentMesh/SlicePermutation.C:83-84 | injective renumbering commutes with taking first appearances |
| PointNumbering.ExtendedToPoly | src/foam/meshes/polyMesh/CoherentMesh/SlicePermutation.C:41-55 | the numbering with unused points sent past the used ones |
| PointNumbering.ExtendedToPolyInjective | src/foam/meshes/polyMesh/CoherentMesh/SlicePermutation.C:41-55 | that extension is injective |
| PointNumbering.NumberingOfAppearances | src/foam/meshes/polyMesh/CoherentMesh/SlicePermutation.C:35-56 | the numbering sends the k-th new point to k |
| PointNumbering.CanonicalNumbering | src/foam/meshes/polyMesh/CoherentMesh/SlicePermutation.C:83-84 | after renumbering, the faces use point ids 0, 1, 2, ... in order of first appearance |
| PointNumbering.ExtensionAgrees | src/foam/meshes/polyMesh/CoherentMesh/SlicePermutation.C:41-55 | on used points the extension is the numbering |
| SlicePermutations.PermutedWithin | src/foam/meshes/polyMesh/CoherentMesh/SlicePermutation.C:82 | permuting faces keeps their point ids within nPoints |
| SlicePermutations.SliceOrderFaces | src/foam/meshes/polyMesh/CoherentMesh/SlicePermutation.C:76-82 | the faces gathered through the owner argsort keep the face count |
| SlicePermutations.OrderFaces | src/foam/meshes/polyMesh/CoherentMesh/SlicePermutation.C:74-82 | a fresh copy of the faces, permuted into owner order, point ids still within range |
| SlicePermutations.SliceFacesAreCanonical | src/foam/meshes/polyMesh/CoherentMesh/SlicePermutation.C:66-85 | the stored faces are ordered by owner, keep their sizes, and use slice point ids 0, 1, 2, ... in order of first appearance |
| SlicePermutations.SliceNeighbours | src/foam/meshes/polyMesh/CoherentMesh/SlicePermutation.C:113-132 | a boundary face gets its encoded patch id, which decodes back to the patch; an internal face its polyMesh neighbour |
| SlicePermutations.SlicePermutation.constructor | src/foam/meshes/polyMesh/CoherentMesh/SlicePermutation.C:66-85 | permutationToSlice_ is the owner argsort, the point vectors number the owner-ordered faces, and faces_ are those faces renumbered |
| SlicePermutations.SlicePermutation.PermutePoints | src/foam/meshes/polyMesh/CoherentMesh/SlicePermutation.C:94-97 | point data gathered through permutationToSlicePoint_ |
| SlicePermutations.SlicePermutation.Permute | src/foam/meshes/polyMesh/CoherentMesh/SlicePermutationI.H:4-8 | face data gathered through permutationToSlice_ |
| SlicePermutations.SlicePermutation.ApplyFaces | src/foam/meshes/polyMesh/CoherentMesh/SlicePermutation.C:100-104 | faces permuted into slice order and then renumbered to slice point ids |
| SlicePermutations.SlicePermutation.RetrieveFaces | src/foam/meshes/polyMesh/CoherentMesh/SlicePermutation.C:107-110 | the faces the constructor stored |
| SlicePermutations.SlicePermutation.RetrieveNeighbours | src/foam/meshes/polyMesh/CoherentMesh/SlicePermutation.C:113-132 | one neighbour per slice face: encoded patch id on the boundary, polyMesh neighbour inside |
| SliceMeshPermutations.SlicePermutation.FromNeighbours | src/foam/meshes/polyMesh/sliceMesh/slicePermutation.C:92-119 | the neighbour list and face permutation of the partitioned pairs; the pairs are cleared and the other vectors stay empty |
| SliceMeshPermutations.SlicePermutation.FromOwner | src/foam/meshes/polyMesh/sliceMesh/slicePermutation.C:132-144 | permutationToSlice_ is the owner argsort and the point vectors number the owner-ordered faces |
| SliceMeshPermutations.SlicePermutation.MapPointsToSlice | src/foam/meshes/polyMesh/sliceMesh/slicePermutation.C:153-156 | point data gathered through permutationToSlicePoint_ |
| SliceMeshPermutations.SlicePermutation.MapToSlice | src/foam/meshes/polyMesh/sliceMesh/slicePermutation.C:159-162 | the polyMesh face at slice position id, a valid face position |
| SliceMeshPermutations.SlicePermutation.MapToPoly | src/foam/meshes/polyMesh/sliceMesh/slicePermutation.C:199-202 | the slice face stored for polyMesh face id is a valid slice face, and it is the one whose neighbour (or encoded patch) the polyMesh face id carries |
| SliceMeshPermutations.SlicePermutation.GenerateSlice | src/foam/meshes/polyMesh/sliceMesh/slicePermutation.C:165-170 | faces permuted into slice order and renumbered in place, and the result returned |
| SliceMeshPermutations.SlicePermutation.GenerateSliceNeighbours | src/foam/meshes/polyMesh/sliceMesh/slicePermutation.C:173-194 | one neighbour per slice face: encoded patch id on the boundary, polyMesh neighbour inside |
| SliceMeshPermutations.OwnerNumberingIsInverse | src/foam/meshes/polyMesh/sliceMesh/slicePermutation.C:48-69 | on numbered points the two point vectors the owner constructor builds are mutual inverses |
| CoherentSlices.AppendedKeys | src/foam/meshes/polyMesh/CoherentMesh/sliceMapI.H:4-21 | after append the keys are the old keys plus the listed ids, and an id already mapped keeps its local id (std::inserter does not overwrite) |
| CoherentSlices.AppendedFirstOccurrence | src/foam/meshes/polyMesh/CoherentMesh/sliceMapI.H:8-19 | a new id at its first position i in the list gets local id start + i |
| CoherentSlices.AppendedDistinctIds | src/foam/meshes/polyMesh/CoherentMesh/sliceMapI.H:4-21 | distinct new ids get consecutive, strictly increasing local ids from the start value |
| CoherentSlices.SliceMap.constructor | src/foam/meshes/polyMesh/CoherentMesh/sliceMap.C:6-10 | an empty map with the given native count |
| CoherentSlices.SliceMap.Exist | src/foam/meshes/polyMesh/CoherentMesh/sliceMap.C:19-22 | true iff the id has been imported |
| CoherentSlices.SliceMap.Lookup | src/foam/meshes/polyMesh/CoherentMesh/sliceMap.C:14-17 | the stored local id; an absent id is inserted with 0 and 0 is returned |
| CoherentSlices.SliceMap.Append | src/foam/meshes/polyMesh/CoherentMesh/sliceMapI.H:4-21 | the ids are numbered from numNativeEntities_ + the map's size, one counter step per listed id |
| CoherentSlices.Slice.constructor | src/foam/meshes/polyMesh/CoherentMesh/Slice.C:33-44 | the given partition and range, with a fresh import map whose native count is the range's width |
| CoherentSlices.Slice.FromOffsets | src/foam/meshes/polyMesh/CoherentMesh/Slice.C:8-20 | the partition's lower and upper bound from the offsets table, native count = its count |
| CoherentSlices.Slice.FromRange | src/foam/meshes/polyMesh/CoherentMesh/Slice.C:23-30 | partition -1 and the given range |
| CoherentSlices.Slice.Copy | src/foam/meshes/polyMesh/CoherentMesh/Slice.C:40-43 | a copy shares the import map (shared_ptr) with the original |
| CoherentSlices.Slice.Shift | src/foam/meshes/polyMesh/CoherentMesh/Slice.C:48-51 | the id relative to the bottom of the slice |
| CoherentSlices.Slice.Exist | src/foam/meshes/polyMesh/CoherentMesh/Slice.C:67-70 | true iff the id is native (in [bottom, top)) or imported |
| CoherentSlices.Slice.Convert | src/foam/meshes/polyMesh/CoherentMesh/Slice.C:73-76 | a native id maps into [0, top - bottom); a foreign one to its import, inserting 0 when unknown |
| CoherentSlices.Slice.ConvertList | src/foam/meshes/polyMesh/CoherentMesh/SliceI.H:40-56 | every entry converted in place, and the import map as after converting them in order |
| CoherentSlices.Slice.ConvertedUnaffected | src/foam/meshes/polyMesh/CoherentMesh/SliceI.H:40-56 | converting earlier entries does not change what a later entry converts to |
| CoherentSlices.Slice.Append | src/foam/meshes/polyMesh/CoherentMesh/SliceI.H:59-63 | delegates to the shared map's append |
| CoherentSlices.ImportedIdsFollowNative | src/foam/meshes/polyMesh/CoherentMesh/sliceMapI.H:8 | distinct foreign ids imported into a fresh slice convert to width + position, never colliding with native ids |
| CoherentSlices.NumCellsFromSlice | src/foam/meshes/polyMesh/CoherentMesh/SliceI.H:4-17 | the count of neighbours in the slice, equal to the list's length iff all are inside |
| CoherentSlices.AppendTransformed | src/foam/meshes/polyMesh/CoherentMesh/SliceI.H:20-36 | the input is transformed in place and the result is ret followed by it |
| SliceMeshSlices.Slice.constructor | src/foam/meshes/polyMesh/sliceMesh/Slice.C:31-41 | the partition's bounds from the offsets, native count = its count |
| SliceMeshSlices.Slice.Shift | src/foam/meshes/polyMesh/sliceMesh/Slice.C:45-48 | the id relative to the bottom of the slice |
| SliceMeshSlices.Slice.Exist | src/foam/meshes/polyMesh/sliceMesh/Slice.C:64-67 | true iff the id is neither imported nor native |
| SliceMeshSlices.Slice.Convert | src/foam/meshes/polyMesh/sliceMesh/Slice.C:70-73 | native ids shifted, foreign ids looked up, an unknown one inserted with 0 |
| SliceMeshSlices.ExistIsInverted | src/foam/meshes/polyMesh/sliceMesh/Slice.C:64-67 | on the same range and map this exist is the negation of the coherent slice's |
| SliceMeshSlices.PointSubset | src/foam/meshes/polyMesh/sliceMesh/Slice.C:14 | the distinct point ids of the faces in ascending order |
| SliceMeshSlices.KeepMissing | src/foam/meshes/polyMesh/sliceMesh/Slice.C:16-25 | copy_if into a std::set: exactly the listed ids the slice reports, ascending |
| SliceMeshSlices.MissingPoints | src/foam/meshes/polyMesh/sliceMesh/Slice.C:8-27 | exactly the face points neither native nor imported, ascending and distinct |
| SliceMeshSlices.ImportingMissingPointsResolvesThem | src/foam/meshes/polyMesh/sliceMesh/Slice.C:8-27 | once the missing points are imported every face point is native or imported |
| ProcessorPatches.InstanceCounter.constructor | src/foam/meshes/polyMesh/CoherentMesh/ProcessorPatch.C:10 | the static instance count starts at 0 |
| ProcessorPatches.InRangeIndices | src/foam/meshes/polyMesh/CoherentMesh/ProcessorPatch.C:110-126 | positions of the neighbours, each within the list |
| ProcessorPatches.CountInRange | src/foam/meshes/polyMesh/CoherentMesh/ProcessorPatch.C:23-34 | count_if of the slice's range test, at most the list's length |
| ProcessorPatches.InRangeIndicesSpec | src/foam/meshes/polyMesh/CoherentMesh/ProcessorPatch.C:110-126 | the face ids are as many as count_if counts, ascending, and are exactly the positions whose neighbour lies in the slice |
| ProcessorPatches.CountPrefix | src/foam/meshes/polyMesh/CoherentMesh/ProcessorPatch.C:110-126 | the write iterator never passes the end of the list count_if sized |
| ProcessorPatches.FillFaceIds | src/foam/meshes/polyMesh/CoherentMesh/ProcessorPatch.C:110-126 | determineFaceIDs fills the list with exactly the positions of the neighbours inside the slice |
| ProcessorPatches.Encoded | src/foam/meshes/polyMesh/CoherentMesh/ProcessorPatch.C:181-193 | the transformed neighbour list keeps its length |
| ProcessorPatches.EncodedReplacesPatchFaces | src/foam/meshes/polyMesh/CoherentMesh/ProcessorPatch.C:181-193 | afterwards no neighbour lies in the slice, and an entry is the patch id iff it was a patch face (or already held the id) |
| ProcessorPatches.EncodeInRange | src/foam/meshes/polyMesh/CoherentMesh/ProcessorPatch.C:181-193 | encodePatch rewrites the list in place to its encoded form |
| ProcessorPatches.AppendPatchIds | src/foam/meshes/polyMesh/CoherentMesh/ProcessorPatch.C:196-215 | the list keeps its entries and gains numPatchFaces copies of the patch id |
| ProcessorPatches.Extractor | src/foam/meshes/polyMesh/CoherentMesh/ProcessorPatchI.H:4-21 | entry k is input[extractorList[k]] |
| ProcessorPatches.ExtractFacesInSlice | src/foam/meshes/polyMesh/CoherentMesh/ProcessorPatchI.H:25-29 | extracting the neighbours at the patch's face ids gives exactly the neighbours inside the slice, in order |
| ProcessorPatches.Shifted | src/foam/meshes/polyMesh/CoherentMesh/ProcessorPatch.C:147-157 | each id minus bottomPointId |
| ProcessorPatches.ShiftedAscending | src/foam/meshes/polyMesh/CoherentMesh/ProcessorPatch.C:147-157 | shifting keeps the ids ascending and shifts membership |
| ProcessorPatches.PatchPointIdsSpec | src/foam/meshes/polyMesh/CoherentMesh/ProcessorPatch.C:129-158 | the local point ids are ascending and distinct, and are exactly the face points at or above bottomPointId, shifted down by it |
| ProcessorPatches.SlicePatchPointIdsAgree | src/foam/meshes/polyMesh/sliceMesh/sliceProcPatch.C:130-152 | the slice mesh patch computes the same point ids as the coherent mesh patch |
| ProcessorPatches.SplitAtTo | src/foam/meshes/polyMesh/CoherentMesh/ProcessorPatch.C:37-40 | a label name followed by "to" and another splits uniquely at the "to" |
| ProcessorPatches.ProcBoundaryNameInjective | src/foam/meshes/polyMesh/CoherentMesh/ProcessorPatch.C:35-41 | the name procBoundary<me>to<partner> determines both processor numbers |
| ProcessorPatches.ProcessorPatch.constructor | src/foam/meshes/polyMesh/CoherentMesh/ProcessorPatch.C:14-46 | face ids are the in-slice positions, no point ids yet, the name procBoundary<me>to<partner>, the count one higher, and id = encodeSlicePatchId(numBoundaries - 1 + count) |
| ProcessorPatches.ProcessorPatch.Copy | src/foam/meshes/polyMesh/CoherentMesh/ProcessorPatch.C:50-59 | every field copied and the count one higher |
| ProcessorPatches.ProcessorPatch.Destroy | src/foam/meshes/polyMesh/CoherentMesh/ProcessorPatch.C:73-76 | the count one lower |
| ProcessorPatches.ProcessorPatch.Swap | src/foam/meshes/polyMesh/CoherentMesh/ProcessorPatch.C:80-89 | every field exchanged; the static counter swapped with itself is unchanged |
| ProcessorPatches.ProcessorPatch.Assign | src/foam/meshes/polyMesh/CoherentMesh/ProcessorPatch.C:63-69 | the fields of the other patch, and the count back where it was |
| ProcessorPatches.ProcessorPatch.DeterminePointIds | src/foam/meshes/polyMesh/CoherentMesh/ProcessorPatch.C:129-158 | localPointIDs_ are the patch's shifted point ids; the other fields are unchanged |
| ProcessorPatches.ProcessorPatch.AppendOwner | src/foam/meshes/polyMesh/CoherentMesh/ProcessorPatch.C:161-178 | the received owners converted in place through the slice and appended to the owners; the import map as after converting them |
| ProcessorPatches.ProcessorPatch.EncodePatch | src/foam/meshes/polyMesh/CoherentMesh/ProcessorPatch.C:181-193 | neighbours inside the slice replaced by the patch id |
| ProcessorPatches.ProcessorPatch.EncodePatchAppend | src/foam/meshes/polyMesh/CoherentMesh/ProcessorPatch.C:196-215 | numPatchFaces copies of the patch id appended |
| ProcessorPatches.ProcessorPatch.ExtractPoints | src/foam/meshes/polyMesh/CoherentMesh/ProcessorPatch.C:218-234 | entry k is input[localPointIDs_[k]] |
| ProcessorPatches.ProcessorPatch.ExtractFaces | src/foam/meshes/polyMesh/CoherentMesh/ProcessorPatchI.H:25-29 | entry k is input[localFaceIDs_[k]] |
| ProcessorPatches.SliceProcPatch.constructor | src/foam/meshes/polyMesh/sliceMesh/sliceProcPatch.C:15-47 | as the coherent mesh patch: in-slice face ids, the name, the count one higher, the encoded id |
| ProcessorPatches.SliceProcPatch.Copy | src/foam/meshes/polyMesh/sliceMesh/sliceProcPatch.C:51-60 | every field copied and the count one higher |
| ProcessorPatches.SliceProcPatch.Destroy | src/foam/meshes/polyMesh/sliceMesh/sliceProcPatch.C:74-77 | the count one lower |
| ProcessorPatches.SliceProcPatch.Swap | src/foam/meshes/polyMesh/sliceMesh/sliceProcPatch.C:81-90 | every field exchanged |
| ProcessorPatches.SliceProcPatch.Assign | src/foam/meshes/polyMesh/sliceMesh/sliceProcPatch.C:64-70 | the fields of the other patch, and the count back where it was |
| ProcessorPatches.SliceProcPatch.DeterminePointIds | src/foam/meshes/polyMesh/sliceMesh/sliceProcPatch.C:130-152 | localPointIDs_ are the shifted ascending point ids at or above bottomPointId |
| ProcessorPatches.SliceProcPatch.AppendOwner | src/foam/meshes/polyMesh/sliceMesh/sliceProcPatch.C:155-172 | received owners converted and appended; earlier imports kept, each unknown foreign owner imported with local id 0 and nothing else added |
| ProcessorPatches.SliceProcPatch.EncodePatch | src/foam/meshes/polyMesh/sliceMesh/sliceProcPatch.C:175-187 | neighbours inside the slice replaced by the patch id |
| ProcessorPatches.SliceProcPatch.EncodePatchAppend | src/foam/meshes/polyMesh/sliceMesh/sliceProcPatch.C:190-209 | numPatchFaces copies of the patch id appended |
| ProcessorPatches.SliceProcPatch.ExtractPoints | src/foam/meshes/polyMesh/sliceMesh/sliceProcPatch.C:212-228 | entry k is input[localPointIDs_[k]] |
| MeshLayout.Deserialized | src/foam/meshes/polyMesh/CoherentMesh/CoherentMesh.C:379-396 | one face fewer than face starts, face i as long as the gap between starts i and i+1 |
| MeshLayout.DeserializeFaces | src/foam/meshes/polyMesh/CoherentMesh/CoherentMesh.C:379-396 | deserializeFaces cuts the linearized list at the starts, taken relative to the first start |
| MeshLayout.FaceStarts | src/foam/meshes/polyMesh/CoherentMesh/CoherentMesh.C:379-396 | the starts of a face list: one more entry than faces |
| MeshLayout.FlattenPrefix | src/foam/meshes/polyMesh/CoherentMesh/CoherentMesh.C:379-396 | the points of the first k faces are a prefix of all points |
| MeshLayout.FaceStartsFront | src/foam/meshes/polyMesh/CoherentMesh/CoherentMesh.C:379-396 | the first start is the given offset |
| MeshLayout.FaceStartsWellFormed | src/foam/meshes/polyMesh/CoherentMesh/CoherentMesh.C:379-396 | the starts of a face list are ascending and span the linearized list |
| MeshLayout.FaceAtStart | src/foam/meshes/polyMesh/CoherentMesh/CoherentMesh.C:388-394 | the slice between a face's starts is that face |
| MeshLayout.DeserializeRoundTrip | src/foam/meshes/polyMesh/CoherentMesh/CoherentMesh.C:379-396 | deserializing the linearized faces at their own starts gives the faces back |
| MeshLayout.SerializeOwner | src/foam/meshes/polyMesh/CoherentMesh/CoherentMesh.C:399-416 | the owner list has ownerStarts.back() - ownerStarts.front() entries and the run of cell c holds c |
| MeshLayout.RunCovers | src/foam/meshes/polyMesh/CoherentMesh/CoherentMesh.C:405-415 | the runs cover the whole owner list |
| MeshLayout.OwnerRunsSorted | src/foam/meshes/polyMesh/CoherentMesh/CoherentMesh.C:399-416 | the decoded owner list is ascending and holds only the run cells |
| MeshLayout.ReverseFace | src/foam/meshes/polyMesh/CoherentMesh/CoherentMesh.C:323-332 | face::reverseFace keeps the first point and reverses the rest |
| MeshLayout.ReverseFaceInvolution | src/foam/meshes/polyMesh/CoherentMesh/CoherentMesh.C:323-332 | reversing twice gives the face back, and a reversed face has the same points |
| MeshLayout.ReverseFaces | src/foam/meshes/polyMesh/CoherentMesh/CoherentMesh.C:323-332 | every received face is reversed |
| MeshLayout.MinOf | src/foam/meshes/polyMesh/CoherentMesh/CoherentMesh.C:216-220 | std::min_element: a member not above any entry |
| MeshLayout.MaxOf | src/foam/meshes/polyMesh/CoherentMesh/CoherentMesh.C:222 | maxOp reduction: a member not below any entry |
| MeshLayout.PatchNumbersBelowNumBoundaries | src/foam/meshes/polyMesh/CoherentMesh/CoherentMesh.C:216-222 | after the max-reduction every patch number any process decodes from its neighbours lies in [0, numBoundaries_) |
| MeshLayout.FindIndex | src/foam/meshes/polyMesh/CoherentMesh/CoherentMesh.C:751-752 | std::find: the first position holding the value, the end iff it is absent |
| MeshLayout.PhysicalPatchBounds | src/foam/meshes/polyMesh/CoherentMesh/CoherentMesh.C:741-771 | one (startFace, nFaces) per patch entry, each computed from the previous entry's end as polyPatches does |
| MeshLayout.ProcessorPatchBounds | src/foam/meshes/polyMesh/CoherentMesh/CoherentMesh.C:780-788 | a processor patch starts at its first face and holds at most all boundary faces |
| MeshLayout.OccurrencesBound | src/foam/meshes/polyMesh/CoherentMesh/CoherentMesh.C:757 | std::count is at most the range's length |
| MeshLayout.FindInDescending | src/foam/meshes/polyMesh/CoherentMesh/CoherentMesh.C:751-757 | in a descending patch list the first id sits after all larger ids, and counting from it counts them all |
| MeshLayout.CountAboveStep | src/foam/meshes/polyMesh/CoherentMesh/CoherentMesh.C:741-771 | counting above id - 1 adds the faces carrying id |
| MeshLayout.NoneAbove | src/foam/meshes/polyMesh/CoherentMesh/CoherentMesh.C:741-771 | with no entry above the value nothing is counted above it |
| MeshLayout.PatchWalkSnoc | src/foam/meshes/polyMesh/CoherentMesh/CoherentMesh.C:741-771 | one more loop step extends the walk |
| MeshLayout.PhysicalPatchesTile | src/foam/meshes/polyMesh/CoherentMesh/CoherentMesh.C:720-808 | with the descending patch list, patch i starts after all faces of patches before it and holds every face carrying its id: the patches tile the boundary faces |
| MeshLayout.TileAt | src/foam/meshes/polyMesh/CoherentMesh/CoherentMesh.C:741-771 | the tiling for one patch |
| MeshLayout.OccurrencesAbsent | src/foam/meshes/polyMesh/CoherentMesh/CoherentMesh.C:757 | an absent id is counted zero times |
| CoherentMeshes.RangesOf | src/foam/meshes/polyMesh/CoherentMesh/CoherentMesh.C:424-436 | the slices built from the offset pairs of partitions lo..hi-1: slice i is partition lo+i with that partition's (lower, upper) pair as its range |
| CoherentMeshes.DefaultSlices | src/foam/meshes/polyMesh/CoherentMesh/CoherentMesh.C:424 | the pre-sized slice vector holds n default slices, each the empty range of partition 0 |
| CoherentMeshes.EmptySliceSharesNothing | src/foam/meshes/polyMesh/CoherentMesh/CoherentMesh.C:424-452 | a default slice selects no id, so the pre-sized entries never enter the partner map |
| CoherentMeshes.SelectedOfEmpty | src/foam/meshes/polyMesh/CoherentMesh/CoherentMesh.C:424-453 | a run of default slices selects nothing at all |
| CoherentMeshes.SelectedPadded | src/foam/meshes/polyMesh/CoherentMesh/CoherentMesh.C:424-453 | the default slices in front of the appended ranges leave the selection equal to the selection over the ranges alone |
| CoherentMeshes.SelectShared | src/foam/meshes/polyMesh/CoherentMesh/CoherentMesh.C:438-453 | the planning loop returns exactly the non-empty shares, slice by slice, each under its slice's partition |
| CoherentMeshes.Sizes | src/foam/meshes/polyMesh/CoherentMesh/CoherentMesh.C:451 | one entry per recorded share: the partner with the number of ids it shares |
| CoherentMeshes.SelectedEntries | src/foam/meshes/polyMesh/CoherentMesh/CoherentMesh.C:439-452 | every recorded entry is one slice's share, and it is non-empty |
| CoherentMeshes.SelectedCovers | src/foam/meshes/polyMesh/CoherentMesh/CoherentMesh.C:439-452 | every slice with a non-empty share is recorded |
| CoherentMeshes.SelectedAscending | src/foam/meshes/polyMesh/CoherentMesh/CoherentMesh.C:438-458 | over slices of ascending partitions the recorded partners ascend, the order in which the std::map is walked |
| CoherentMeshes.SelectedRanges | src/foam/meshes/polyMesh/CoherentMesh/CoherentMesh.C:424-453 | over the ranges of partitions lo..hi-1 the selection holds exactly the partitions of that window whose cell range holds an id, with their shares, in ascending order |
| CoherentMeshes.UpperSelection | src/foam/meshes/polyMesh/CoherentMesh/CoherentMesh.C:424-453 | commSlicePatches plans exactly the partitions above myProcNo that neighbour a face, ascending, each with its shared neighbours |
| CoherentMeshes.LowerSelection | src/foam/meshes/polyMesh/CoherentMesh/CoherentMesh.C:485-515 | commSharedPoints asks exactly the partitions below myProcNo that hold a missing point, ascending, each with its shared ids |
| CoherentMeshes.UpperPartners | src/foam/meshes/polyMesh/CoherentMesh/CoherentMesh.C:424-453 | the planned partners lie strictly between myProcNo and nProcs, each with a positive count, in strictly ascending order |
| CoherentMeshes.SharedCountIsPatchSize | src/foam/meshes/polyMesh/CoherentMesh/CoherentMesh.C:449-451 | the number of neighbours a slice shares is the number of faces the processor patch towards it selects |
| CoherentMeshes.RecvPointIdsCover | src/foam/meshes/polyMesh/CoherentMesh/CoherentMesh.C:349-359 | every point of a received face that lies in the sender's point range is among the ids collected for import |
| CoherentMeshes.RecvPointsImported | src/foam/meshes/polyMesh/CoherentMesh/CoherentMesh.C:349-362 | after the append every such point is a key of the point slice's import map |
| CoherentMeshes.ImportRecvPoints | src/foam/meshes/polyMesh/CoherentMesh/CoherentMesh.C:349-362 | the point slice's import map becomes the old map with the collected point ids appended, numbered on from numNative plus the old map size |
| CoherentMeshes.BuildSendPatch | src/foam/meshes/polyMesh/CoherentMesh/CoherentMesh.C:284-305 | the patch towards the slice raises the instance count by one and gets the next patch number and the procBoundary name; the faces and neighbours sent are those at its ascending face ids, the points sent are the points at its local point ids, and the neighbour list comes back with the shared entries encoded |
| CoherentMeshes.SendPatchData | src/foam/meshes/polyMesh/CoherentMesh/CoherentMesh.C:287-301 | faces and neighbours are extracted at the patch's face ids, its point ids are determined from the sent faces and the points are gathered at them |
| CoherentMeshes.EncodeNeighbours | src/foam/meshes/polyMesh/CoherentMesh/CoherentMesh.C:303-304 | encodePatch on the neighbour list: the entries inside the partner's range become the patch id |
| CoherentMeshes.ReceivedSnoc | src/foam/meshes/polyMesh/CoherentMesh/CoherentMesh.C:318-368 | each further received message appends its faces, reversed, and its points after those of the messages before it |
| CoherentMeshes.CollectedTogether | src/foam/meshes/polyMesh/CoherentMesh/CoherentMesh.C:636-657 | the collected face ids and patch numbers have the same length and each face id sits beside the number of a patch whose partner's cell range holds that face's neighbour |
| CoherentMeshes.CollectedCover | src/foam/meshes/polyMesh/CoherentMesh/CoherentMesh.C:636-657 | every face whose neighbour lies in the k-th partner's range is collected beside patch number first + k |
| CoherentMeshes.TotalSizeCollected | src/foam/meshes/polyMesh/CoherentMesh/CoherentMesh.C:617-630 | the accumulated share sizes are the number of face ids the patches fill in, so the resized lists are filled exactly |
| CoherentMeshes.PlanSizes | src/foam/meshes/polyMesh/CoherentMesh/CoherentMesh.C:600-615 | the planned partners lie above myProcNo and each planned size is the number of faces the patch towards that partner selects |
| CoherentMeshes.PlanCovers | src/foam/meshes/polyMesh/CoherentMesh/CoherentMesh.C:600-615 | a partition above myProcNo that an internal face neighbours is planned |
| CoherentMeshes.SortedAlongAscending | src/foam/meshes/polyMesh/CoherentMesh/CoherentMesh.C:661-662 | sorting by permutationOfSorted leaves the face ids non-decreasing |
| CoherentMeshes.SortedAlongKeeps | src/foam/meshes/polyMesh/CoherentMesh/CoherentMesh.C:661-662 | the sort loses no face id |
| CoherentMeshes.MappedWithin | src/foam/meshes/polyMesh/CoherentMesh/CoherentMesh.C:636-663 | after the fill and the shared permutation each face id still sits beside the number of a patch whose partner holds its neighbour |
| CoherentMeshes.MappedCovers | src/foam/meshes/polyMesh/CoherentMesh/CoherentMesh.C:578-663 | an internal face whose neighbour lies in a partition above myProcNo ends in internalFaceIDs_ |
| CoherentMeshes.SurfaceFieldMappings | src/foam/meshes/polyMesh/CoherentMesh/CoherentMesh.C:575-664 | both lists have the accumulated size, the face ids ascend, each sits beside the number of a patch whose partner holds its neighbour, and a face is listed exactly when it is an internal face whose neighbour lies in a partition above myProcNo |
| CoherentMeshes.CopyAt | src/foam/meshes/polyMesh/CoherentMesh/CoherentMesh.C:643-649 | std::copy: the destination's prefix up to the position is kept and the source follows it |
| CoherentMeshes.FillAt | src/foam/meshes/polyMesh/CoherentMesh/CoherentMesh.C:651-657 | std::fill_n: the destination's prefix is kept and n copies of the value follow it |
| CoherentMeshes.SortMappings | src/foam/meshes/polyMesh/CoherentMesh/CoherentMesh.C:659-663 | the face ids and the patch numbers are both permuted by the one permutation that sorts the face ids |
| CoherentMeshes.CoherentMesh.ReadMesh | src/foam/meshes/polyMesh/CoherentMesh/CoherentMesh.C:199-255 | the owner list is the run-length decoded owner starts, the faces are cut from the linearized list at the face starts, the points and neighbours are those read, numBoundaries_ is the maximum over processes of the decoded smallest neighbour plus one, and the cell and point slices cover this partition's ranges with empty import maps |
| CoherentMeshes.CoherentMesh.SendSliceFaces | src/foam/meshes/polyMesh/CoherentMesh/CoherentMesh.C:275-306 | one more stored patch, facing the partition and numbered next; the faces, neighbours and points sent are the ones at its face and point ids; the neighbours it shares become its patch id; faces, owners and points are unchanged |
| CoherentMeshes.CoherentMesh.BuildKeptPatch | src/foam/meshes/polyMesh/CoherentMesh/CoherentMesh.C:370-374 | the stored copy of a new patch towards the partition: the count rises by one net of the destroyed original, the patch is numbered next and selects the faces whose neighbour lies in the partner's cell range |
| CoherentMeshes.CoherentMesh.ConvertRecvOwner | src/foam/meshes/polyMesh/CoherentMesh/CoherentMesh.C:334-347 | each received owner becomes cellSlice_.convert of it, the foreign cells being imported in order |
| CoherentMeshes.CoherentMesh.AppendRecvCells | src/foam/meshes/polyMesh/CoherentMesh/CoherentMesh.C:318-347 | the received faces are appended reversed and the received owners appended converted, everything before them unchanged |
| CoherentMeshes.CoherentMesh.RecvSliceFaces | src/foam/meshes/polyMesh/CoherentMesh/CoherentMesh.C:309-375 | faces appended reversed, owners appended converted, the received faces' points of the sender's range imported into the point slice before the same number of points is appended, and the patch id appended once per received face; one more stored patch facing the partition |
| CoherentMeshes.CoherentMesh.RecvFacesAndPoints | src/foam/meshes/polyMesh/CoherentMesh/CoherentMesh.C:318-368 | the faces, owners, imported point ids and points of recvSliceFaces, with the neighbours and stored patches unchanged |
| CoherentMeshes.CoherentMesh.RecvPoints | src/foam/meshes/polyMesh/CoherentMesh/CoherentMesh.C:349-368 | the point ids are imported before the received points are appended after the old ones |
| CoherentMeshes.CoherentMesh.RecvPatch | src/foam/meshes/polyMesh/CoherentMesh/CoherentMesh.C:370-374 | one more stored patch facing the partition, numbered next, and the neighbour list extended by one patch id per received face |
| CoherentMeshes.CoherentMesh.ClearSlicePatches | src/foam/meshes/polyMesh/CoherentMesh/CoherentMesh.C:457 | the stored patches are gone and the instance count drops by their number |
| CoherentMeshes.CoherentMesh.PlanSlicePatches | src/foam/meshes/polyMesh/CoherentMesh/CoherentMesh.C:424-453 | the planned (partner, count) pairs are the non-empty shares of the upper slices |
| CoherentMeshes.CoherentMesh.SendSlicePatches | src/foam/meshes/polyMesh/CoherentMesh/CoherentMesh.C:458-461 | one stored patch per planned partner, in plan order, and one message per partner whose face, owner and point counts are the patch's |
| CoherentMeshes.CoherentMesh.SendOne | src/foam/meshes/polyMesh/CoherentMesh/CoherentMesh.C:460 | sendSliceFaces as the send loop sees it: one more patch facing the partner and a message sized by its faces and points |
| CoherentMeshes.CoherentMesh.RecvNext | src/foam/meshes/polyMesh/CoherentMesh/CoherentMesh.C:463-466 | one turn of the receive loop appends that message's faces and points after the earlier ones and stores a patch facing its sender |
| CoherentMeshes.CoherentMesh.RecvSlicePatches | src/foam/meshes/polyMesh/CoherentMesh/CoherentMesh.C:463-466 | the messages' faces and points appended in message order, and one stored patch per sender in that order |
| CoherentMeshes.CoherentMesh.ExchangeSlicePatches | src/foam/meshes/polyMesh/CoherentMesh/CoherentMesh.C:457-466 | the stored patches face the send partners and then the receive partners, in that order, and the faces and points of every received message are appended |
| CoherentMeshes.CoherentMesh.CommSlicePatches | src/foam/meshes/polyMesh/CoherentMesh/CoherentMesh.C:419-467 | the send partners are the partitions above myProcNo that neighbour a face, ascending, with positive counts; the old patches are dropped; the stored patches face the send and then the receive partners; received faces and points are appended in order |
| CoherentMeshes.CoherentMesh.RenumberFaces | src/foam/meshes/polyMesh/CoherentMesh/CoherentMesh.C:557-572 | every face keeps its length and every point id becomes pointSlice_.convert of it, the unknown points being imported in face order |
| CoherentMeshes.CoherentMesh.RenumberFace | src/foam/meshes/polyMesh/CoherentMesh/CoherentMesh.C:559-571 | one face converted through the point slice, the other faces unchanged |
| CoherentMeshes.CoherentMesh.CollectPatch | src/foam/meshes/polyMesh/CoherentMesh/CoherentMesh.C:636-657 | one partner's patch is stored; its face ids are copied after the ones collected so far and its patch number filled beside them |
| CoherentMeshes.CoherentMesh.FillSurfaceMappings | src/foam/meshes/polyMesh/CoherentMesh/CoherentMesh.C:632-658 | after the fill loop the two lists are the face ids of the planned patches one after another, each beside its patch's number, and one patch is stored per partner; the mesh is unchanged |
| CoherentMeshes.CoherentMesh.FillStep | src/foam/meshes/polyMesh/CoherentMesh/CoherentMesh.C:636-657 | one turn of the fill loop extends both lists by the next partner's patch |
| CoherentMeshes.CoherentMesh.PlanSurfaceMappings | src/foam/meshes/polyMesh/CoherentMesh/CoherentMesh.C:577-615 | the internal faces' neighbours in fragment order, and the (partner, shared count) pairs of the partitions above myProcNo they neighbour |
| CoherentMeshes.CoherentMesh.InitializeSurfaceFieldMappings | src/foam/meshes/polyMesh/CoherentMesh/CoherentMesh.C:575-664 | internalFaceIDs_ and procBoundaryIDs_ end as the sorted lists SurfaceFieldMappings describes, one patch per planned partner is stored in plan order, and the mesh itself is unchanged |
| CoherentMeshes.CoherentMesh.ComputeMappings | src/foam/meshes/polyMesh/CoherentMesh/CoherentMesh.C:577-663 | the plan, then the filled lists sorted by face id with the patch numbers permuted alongside |
| CoherentMeshes.CoherentMesh.FillAndSort | src/foam/meshes/polyMesh/CoherentMesh/CoherentMesh.C:617-663 | lists sized by the accumulated shares are filled patch by patch and then sorted by face id, the patch numbers following |
| SurfaceFields.FreePositions | src/finiteVolume/fields/surfaceFields/surfaceFieldsI.H:225-236 | the coherent positions the split sends to the internal field are below the data size and are not processor faces |
| SurfaceFields.PatchPositions | src/finiteVolume/fields/surfaceFields/surfaceFieldsI.H:225-236 | the coherent positions of processor patch q's faces are below the data size and at most one per processor face |
| SurfaceFields.InternalOf | src/finiteVolume/fields/surfaceFields/surfaceFieldsI.H:225-236 | the internal field left by the split is the coherent data at the free positions, in order |
| SurfaceFields.PatchDataOf | src/finiteVolume/fields/surfaceFields/surfaceFieldsI.H:225-236 | the data of processor patch q left by the split is the coherent data at that patch's face positions, in order |
| SurfaceFields.WalkTest | src/finiteVolume/fields/surfaceFields/surfaceFieldsI.H:227 | while the cursor pfI sits at the first processor face not below i, the test "pfI < size and i == pf[pfI]" holds exactly when i is a processor face |
| SurfaceFields.SplitToPatch | src/finiteVolume/fields/surfaceFields/surfaceFieldsI.H:227-231 | a processor face's value goes to the next free slot of its patch and that patch's counter moves on, keeping the walk's invariant |
| SurfaceFields.SplitToInternal | src/finiteVolume/fields/surfaceFields/surfaceFieldsI.H:232-235 | any other position's value goes to the next internal face, keeping the walk's invariant |
| SurfaceFields.SplitStep | src/finiteVolume/fields/surfaceFields/surfaceFieldsI.H:227-235 | one position of the walk keeps the invariant that the internal field and the patches hold the data of all positions before the next one |
| SurfaceFields.SplitWalk | src/finiteVolume/fields/surfaceFields/surfaceFieldsI.H:223-237 | after the walk the internal field holds the internal data and every patch its own faces' data |
| SurfaceFields.CopyCoherent | src/finiteVolume/fields/surfaceFields/surfaceFieldsI.H:215-222 | with no processor faces the coherent data is copied to the internal field unchanged |
| SurfaceFields.SplitCoherent | src/finiteVolume/fields/surfaceFields/surfaceFieldsI.H:197-237 | the internal field starts with InternalOf the coherent data and is otherwise unchanged; every processor patch list starts with PatchDataOf its faces and keeps its old tail |
| SurfaceFields.ProcBelow | src/finiteVolume/fields/surfaceFields/surfaceFieldsI.H:227 | the processor faces below n and the free positions below n add up to n |
| SurfaceFields.ProcBelowSplitsPf | src/finiteVolume/fields/surfaceFields/surfaceFieldsI.H:227 | in an ascending processor face list the first ProcBelow(pf, i) entries are below i and the rest are not |
| SurfaceFields.CombinedOfSplit | src/finiteVolume/fields/surfaceFields/surfaceFieldsI.H:362-384 | interleaving the internal field and patch data that the split produced gives back the coherent data |
| SurfaceFields.SplitOfCombined | src/finiteVolume/fields/surfaceFields/surfaceFieldsI.H:215-236 | splitting the interleaved field gives back the internal field and every patch's data it was made of |
| SurfaceFields.CombinedWithoutProcessorFaces | src/finiteVolume/fields/surfaceFields/surfaceFieldsI.H:365-368 | with no processor faces the interleaved field is the internal field |
| SurfaceFields.CombineStep | src/finiteVolume/fields/surfaceFields/surfaceFieldsI.H:371-383 | one position of the combine walk writes CombinedAt for it, moves the cursors past it and changes no other entry |
| SurfaceFields.CombineWalk | src/finiteVolume/fields/surfaceFields/surfaceFieldsI.H:362-384 | the combine walk produces the interleaved field Combined |
| SurfaceFields.CombineCoherentInternal | src/finiteVolume/fields/surfaceFields/surfaceFieldsI.H:291-384 | with no processor faces the consolidated field is the internal field; otherwise it is the interleave of internal and processor patch data |
| SurfaceFields.FirstForm | src/finiteVolume/fields/surfaceFields/surfaceFieldsI.H:57-142 | the entry has no form exactly when no token is a compound or the word "uniform" (the fatal case) |
| SurfaceFields.ClassifyInternalField | src/finiteVolume/fields/surfaceFields/surfaceFieldsI.H:57-142 | the token loop returns the form of the first compound token or "uniform" word, and none when the tokens run out |
| SurfaceFields.ProcessorPatches | src/finiteVolume/fields/surfaceFields/surfaceFieldsI.H:122-135 | the processor patches of the boundary are at most as many as its patches |
| SurfaceFields.ProcessorPatchesMembers | src/finiteVolume/fields/surfaceFields/surfaceFieldsI.H:122-135 | every listed patch is a processor patch of the boundary, and every processor patch of the boundary is listed |
| SurfaceFields.UniformProcessorEntries | src/finiteVolume/fields/surfaceFields/surfaceFieldsI.H:117-141 | the uniform branch gives each processor patch, in boundary order, an entry whose value is the internal field's own tokens |
| SurfaceFields.ProcessorPatchLists | src/finiteVolume/fields/surfaceFields/surfaceFieldsI.H:150-194 | the non-uniform branch creates one list per processor patch, in boundary order, sized like that patch |
| SurfaceFields.Negated | src/finiteVolume/fields/surfaceFields/surfaceFieldsI.H:279-282 | each negated value added to its original gives zero |
| SurfaceFields.NegatedTwice | src/finiteVolume/fields/surfaceFields/surfaceFieldsI.H:277-282 | flipping the sign twice gives back the data |
| SurfaceFields.FlipSign | src/finiteVolume/fields/surfaceFields/surfaceFieldsI.H:279-282 | the loop multiplying every value by -1 returns the negated list |
| SurfaceFields.Sends | src/finiteVolume/fields/surfaceFields/surfaceFieldsI.H:243-259 | every list sent is the data of one of the processor patches |
| SurfaceFields.SendToHigher | src/finiteVolume/fields/surfaceFields/surfaceFieldsI.H:243-259 | the send loop sends, in boundary order, each processor patch's data to its neighbour when that neighbour is higher |
| SurfaceFields.ReceiveFromLower | src/finiteVolume/fields/surfaceFields/surfaceFieldsI.H:261-285 | a patch towards a lower neighbour takes the received data with its sign flipped; every other patch keeps its data |
| SurfaceFields.ExchangeAgreesAcrossBoundary | src/finiteVolume/fields/surfaceFields/surfaceFieldsI.H:239-285 | on the higher side of a processor boundary the data after the exchange, flipped back, is what the lower side sent |
| SurfaceFields.CoherentFieldSize | src/finiteVolume/fields/surfaceFields/surfaceFields.C:52-56 | the coherent surface field size is the own count of the internal surface field offsets |
| SurfaceFields.ReadWindowsAdjacent | src/finiteVolume/fields/surfaceFields/surfaceFieldsI.H:94-109 | the read windows of consecutive ranks touch: each starts where the previous ends |
| SurfaceFields.ReadWindowStartsAtLowerBound | src/finiteVolume/fields/surfaceFields/surfaceFieldsI.H:94-109 | when each process passes its chained offset count, its read window starts at its partition's lower bound |
| CoherenceComposite.DefaultTable | src/foam/meshes/polyMesh/CoherentMesh/CoherenceComposite/strategies/InitStrategies.H:64 | a strategy without its own table hands out the default Offsets: one (0, 0) pair per rank |
| CoherenceComposite.NewIndex | src/foam/meshes/polyMesh/CoherentMesh/CoherenceComposite/IndexComponent.C:37-54 | a new index component has the given name and type, no data, no children and is not initialized |
| CoherenceComposite.Accept | src/foam/meshes/polyMesh/CoherentMesh/CoherenceComposite/IndexComponent.C:59-63 | without a strategy the answer is -1; otherwise it is the strategy applied to the node's data, and undefined where the strategy reads an element of empty data |
| CoherenceComposite.Execute | src/foam/meshes/polyMesh/CoherentMesh/CoherenceComposite/strategies/InitStrategies.C:31-48 | the base strategy leaves the data alone; a storage read gives the block's window; InitOffsets sets its table from the start or, when accumulating, the count, and makes the data the own partition's bounds; only InitOffsets changes its state |
| CoherenceComposite.Init | src/foam/meshes/polyMesh/CoherentMesh/CoherenceComposite/IndexComponent.C:102-112 | init computes (start, count) from the parent, or from the node itself without one, runs the strategy on the data and sets the initialized flag; nothing else changes |
| CoherenceComposite.ExtractOffsets | src/foam/meshes/polyMesh/CoherentMesh/CoherenceComposite/IndexComponent.C:200-205 | only an initialized "offsets" component hands out Offsets, its strategy's table; a decorator forwards to its wrapped component |
| CoherenceComposite.SliceOf | src/foam/meshes/polyMesh/CoherentMesh/CoherenceComposite/decorators/SliceDecorator.C:38-40 | the slice built from an Offsets table is the own partition's lower and upper bound |
| CoherenceComposite.Initialize | src/foam/meshes/polyMesh/CoherentMesh/CoherenceComposite/IndexComponent.C:152-160 | an index component runs init only when it is uninitialized and not the head, then initializes every child; a decorator initializes its wrapped component and builds its slice on the first call only, keeping it afterwards; names and types never change |
| CoherenceComposite.InitializeAll | src/foam/meshes/polyMesh/CoherentMesh/CoherenceComposite/IndexComponent.C:115-135 | every child is initialized in map order and the number of children is kept |
| CoherenceComposite.InitializeIdempotent | src/foam/meshes/polyMesh/CoherentMesh/CoherenceComposite/IndexComponent.C:152-160 | a second initialize changes nothing: initialized nodes are not read again and cached slices are kept |
| CoherenceComposite.ExtractIndex | src/foam/meshes/polyMesh/CoherentMesh/CoherenceComposite/IndexComponent.C:182-197 | extracting moves the data out and leaves the component empty and uninitialized; a decorator forwards and keeps its slice |
| CoherenceComposite.ExtractTwiceIsEmpty | src/foam/meshes/polyMesh/CoherentMesh/CoherenceComposite/IndexComponent.C:182-197 | a second extraction yields nothing |
| CoherenceComposite.ExtractSlice | src/foam/meshes/polyMesh/CoherentMesh/CoherenceComposite/decorators/SliceDecorator.C:46-49 | exactly a decorator hands out a slice, a copy of its cached one, and stays unchanged |
| CoherenceComposite.BeforeTotal | src/foam/meshes/polyMesh/CoherentMesh/CoherenceComposite/IndexComponent.C:138-149 | the name order of the component map is total and asymmetric |
| CoherenceComposite.BeforeTransitive | src/foam/meshes/polyMesh/CoherentMesh/CoherenceComposite/IndexComponent.C:138-149 | the name order of the component map is transitive |
| CoherenceComposite.ChildNamed | src/foam/meshes/polyMesh/CoherentMesh/CoherenceComposite/IndexComponent.C:141 | the lookup finds a child carrying the name, or reports that none does |
| CoherenceComposite.InsertChild | src/foam/meshes/polyMesh/CoherentMesh/CoherenceComposite/IndexComponent.C:138-149 | adding keeps the map ordered with unique names, contains the new child, keeps every child of another name, adds nothing else, and grows only when the name was new |
| CoherenceComposite.Add | src/foam/meshes/polyMesh/sliceMesh/CoherenceComposite/DataComponent.C:65-70 | add returns the component it was given, which is then a child of the holding index component; every other child is kept and the tree stays well formed |
| CoherenceComposite.Holder | src/foam/meshes/polyMesh/CoherentMesh/CoherenceComposite/decorators/ComponentDecorator.H:63-66 | a chain of decorators ends in the index component that holds the children |
| CoherenceComposite.FirstMatch | src/foam/meshes/polyMesh/CoherentMesh/CoherenceComposite/IndexComponent.C:162-180 | the intended lookup finds a node of that name exactly when one lies below the component |
| CoherenceComposite.DecoratorDropsEarlierMatch | src/foam/meshes/polyMesh/CoherentMesh/CoherenceComposite/decorators/ComponentDecorator.H:68-75 | with a decorator pulled after a match, node("x") comes back empty although "x" is in the tree |
| CoherenceComposite.PullNode | src/foam/meshes/polyMesh/CoherentMesh/CoherenceComposite/IndexComponent.C:162-180 | an output already set is kept; otherwise the output is the first match, direct children before subtrees |
| CoherenceComposite.PullAll | src/foam/meshes/polyMesh/CoherentMesh/CoherenceComposite/IndexComponent.C:175-178 | pulling through the children in map order keeps a set output and otherwise finds the first match among them |
| CoherenceComposite.Node | src/foam/meshes/polyMesh/sliceMesh/CoherenceComposite/DataComponent.C:79-89 | the empty name finds nothing; any other name finds the first match, which carries that name and lies below the component |
| CoherenceComposite.ParentName | src/foam/meshes/polyMesh/sliceMesh/CoherenceComposite/DataComponent.C:44-48 | the parent's name, or the empty string without a parent |
| CoherenceComposite.ParentComponentOf | src/foam/meshes/polyMesh/sliceMesh/CoherenceComposite/DataComponent.C:105-116 | the node named as parent, or the asking component itself when no node has that name |
| OffsetStrategies.CountAtLeast | src/foam/meshes/polyMesh/CoherentMesh/CoherenceComposite/strategies/OffsetStrategies.C:32-46 | count_geq counts at most every entry; it counts all of them exactly when all are at least the value, and none exactly when all are below it |
| OffsetStrategies.CountEqIsDifference | src/foam/meshes/polyMesh/CoherentMesh/CoherenceComposite/strategies/OffsetStrategies.C:32-63 | count_eq(v) is count_geq(v) less count_geq(v + 1) |
| OffsetStrategies.CountAtLeastAntitone | src/foam/meshes/polyMesh/CoherentMesh/CoherenceComposite/strategies/OffsetStrategies.C:32-46 | count_geq counts fewer entries for a larger threshold |
| OffsetStrategies.MaxTable | src/foam/meshes/polyMesh/CoherentMesh/CoherenceComposite/strategies/OffsetStrategies.C:122-135 | the Offsets(max + 1) table is chained across the ranks |
| OffsetStrategies.Apply | src/foam/meshes/polyMesh/CoherentMesh/CoherenceComposite/strategies/OffsetStrategies.C:32-135 | each strategy's value: the counts, the maximum plus one (above every entry, one more than some entry), size less one, the rank, two, the front, back less front (plus one), the size, and the own lower bound and count of the Offsets(max + 1) table |
| OffsetStrategies.MaxValues | src/foam/meshes/polyMesh/CoherentMesh/CoherenceComposite/strategies/OffsetStrategies.C:122-135 | every rank contributes a value to the Offsets(max + 1) table, the own one being the maximum plus one |
| OffsetStrategies.StartFromMaxIsLargestBelow | src/foam/meshes/polyMesh/CoherentMesh/CoherenceComposite/strategies/OffsetStrategies.C:122-127 | start_from_max is 0 on rank 0 and otherwise the largest max + 1 among the ranks below |
| OffsetStrategies.CountFromMaxBounds | src/foam/meshes/polyMesh/CoherentMesh/CoherenceComposite/strategies/OffsetStrategies.C:130-135 | count_from_max is never negative above rank 0 and is the own maximum plus one on rank 0 |
| InitStrategies.WindowList | src/foam/meshes/polyMesh/CoherentMesh/CoherenceComposite/strategies/InitStrategies.H:117-122 | a start or count of -1 becomes an empty list, any other value a one-entry list holding it |
| InitStrategies.ReadWindow | src/foam/meshes/polyMesh/CoherentMesh/CoherenceComposite/strategies/InitStrategies.H:117-131 | empty start and count lists read the whole block; one-entry lists read exactly the selected entries; any other request or one outside the block is refused |
| InitStrategies.ReadFromStorage | src/foam/meshes/polyMesh/CoherentMesh/CoherenceComposite/strategies/InitStrategies.H:111-132 | a window of -1s reads the whole block; a window inside the block reads exactly its entries; a read with a count gives that many entries |
| InitStrategies.HasData | src/foam/meshes/polyMesh/CoherentMesh/CoherenceComposite/strategies/InitStrategies.H:104-107 | the strategy converts to true exactly when the stored block is non-empty |
| InitStrategies.ReadPrimitives | src/foam/meshes/polyMesh/CoherentMesh/CoherenceComposite/strategies/InitStrategies.H:185-207 | the data is resized to the count before reading; a window inside the block reads exactly its entries |
| InitStrategies.TruncDiv | src/foam/meshes/polyMesh/CoherentMesh/CoherenceComposite/strategies/InitStrategies.H:251 | C++ integer division truncates toward zero |
| InitStrategies.NaiveWindowsOverlapByOne | src/foam/meshes/polyMesh/CoherentMesh/CoherenceComposite/strategies/InitStrategies.H:249-257 | the next rank's window starts at the last entry of this rank's window |
| InitStrategies.NaiveWindowsSpanBlock | src/foam/meshes/polyMesh/CoherentMesh/CoherenceComposite/strategies/InitStrategies.H:249-257 | the first window starts at 0 and the last one ends at the end of the block |
| InitStrategies.NaiveWindowWithinBlock | src/foam/meshes/polyMesh/CoherentMesh/CoherenceComposite/strategies/InitStrategies.H:249-257 | for a non-empty block every window lies inside it and holds at least one entry |
| InitStrategies.ReadNaivePartition | src/foam/meshes/polyMesh/CoherentMesh/CoherenceComposite/strategies/InitStrategies.H:239-261 | a non-empty block is always read, and what is read is this rank's naive window |
| InitStrategies.OffsetsTable | src/foam/meshes/polyMesh/CoherentMesh/CoherenceComposite/strategies/InitStrategies.C:37-40 | the table set from the start or the count is chained across the ranks |
| InitStrategies.OffsetsData | src/foam/meshes/polyMesh/CoherentMesh/CoherenceComposite/strategies/InitStrategies.C:41-47 | the data becomes the own partition's lower and upper bound |
| InitStrategies.OffsetsDataOrdered | src/foam/meshes/polyMesh/CoherentMesh/CoherenceComposite/strategies/InitStrategies.C:37-47 | the own window is ordered above rank 0, and on rank 0 for a non-negative value; accumulating non-negative values makes it exactly the value wide |
| InitStrategies.InitOffsets.constructor | src/foam/meshes/polyMesh/CoherentMesh/CoherenceComposite/strategies/InitStrategies.H:143-161 | a new strategy keeps the accumulate flag and holds the default table |
| InitStrategies.InitOffsets.Execute | src/foam/meshes/polyMesh/CoherentMesh/CoherenceComposite/strategies/InitStrategies.C:31-48 | execute sets the kept table from the start or the count and returns the own bounds |
| FieldTags.DetermineUniformity | src/foam/db/IOstreams/SliceStreams/UListProxy.C:143-169 | the loop returns the uniformity the list has: EMPTY exactly for an empty list, UNIFORM when every element equals the first, NONUNIFORM otherwise |
| FieldTags.CompareTag | src/foam/db/IOstreams/A2streams/fieldTag.C:41-69 | NONUNIFORM on either side wins; EMPTY on the left takes the right tag; UNIFORM stays UNIFORM against EMPTY and becomes NONUNIFORM against UNIFORM exactly when the first elements differ |
| FieldTags.UniformityCompareOp | src/foam/db/IOstreams/A2streams/fieldTag.C:30-73 | the reduction of two tag lists is entry by entry and keeps the first list's length |
| FieldTags.CompareTagCommutes | src/foam/db/IOstreams/A2streams/fieldTag.C:30-73 | the reduction gives the same meaning whichever rank's tags come first |
| FieldTags.CompareTagAssociates | src/foam/db/IOstreams/A2streams/fieldTag.C:30-73 | the reduction is associative on what the tags mean, so the order in which ranks are combined does not matter |
| FieldTags.CompareTagOfConcatenation | src/foam/db/IOstreams/A2streams/fieldTag.C:30-73 | reducing the tags of two lists gives the tag of their concatenation |
| FieldTags.FirstElement | src/foam/db/IOstreams/SliceStreams/fieldDataEntry.C:37-61 | a missing or empty list has no first element; otherwise it is the first element's components |
| FieldTags.TagOf | src/foam/db/IOstreams/SliceStreams/fieldDataEntry.C:80-84 | a list is tagged EMPTY exactly when it has no elements, and a UNIFORM tag's first element equals every element |
| FieldTags.FieldDataEntry.constructor | src/foam/db/IOstreams/SliceStreams/fieldDataEntry.C:68-85 | a new entry has an empty name, counts no global elements and carries the tag of its list |
| FieldTags.FieldDataEntry.Uniform | src/foam/db/IOstreams/SliceStreams/fieldDataEntry.H:154-162 | uniform() holds exactly for a UNIFORM tag, so an entry over an empty list is not uniform |
| FieldTags.FieldDataEntry.Id | src/foam/db/IOstreams/SliceStreams/fieldDataEntry.H:146-152 | the id has no "::" left, and a name without "::" is its own id |
| FieldTags.FieldDataEntry.WriteTokens | src/foam/db/IOstreams/SliceStreams/fieldDataEntry.C:138-164 | write emits the keyword (the last path part of the id), then "uniform" and the first element, or "nonuniform", the compound token name, the global element count and the id; then the end of the statement |
| FieldTags.FieldDataEntry.Stream | src/foam/db/IOstreams/SliceStreams/fieldDataEntry.C:105-113 | stream() on a field entry is a fatal error |
| FieldTags.ReplaceScope | src/foam/db/IOstreams/SliceStreams/fieldDataEntry.C:140-142 | replacing "::" by "/" leaves no "::" and changes nothing in a name without one |
| FieldTags.BaseName | src/foam/db/IOstreams/SliceStreams/fieldDataEntry.C:143 | the last path part holds no '/', is a suffix of the name, and is the whole name when it has no '/' |
| FileNames.Slash | src/foam/db/IOstreams/A2streams/OFCstream.C:134 | operator/ joins two names with one separator, or gives the non-empty one of them |
| FileNames.FirstComponent | src/foam/db/IOstreams/A2streams/OFCstream.C:127 | the first component is the prefix of the name up to its first separator |
| FileNames.ComponentsAreComponents | src/foam/db/IOstreams/A2streams/OFCstream.C:127 | every piece components() returns is non-empty and holds no separator |
| FileNames.ComponentsAroundSep | src/foam/db/IOstreams/A2streams/OFCstream.C:127 | a separator splits the components: those before it, then those after it |
| FileNames.ComponentsOfSlash | src/foam/db/IOstreams/A2streams/OFCstream.C:127-135 | the components of a/b are those of a followed by those of b |
| FileNames.ComponentsOfJoin | src/foam/db/IOstreams/A2streams/OFCstream.C:127-135 | joining components with operator/ and splitting again gives them back |
| FileNames.SlashExtendsJoin | src/foam/db/IOstreams/A2streams/OFCstream.C:130-136 | appending one more non-empty name with operator/ extends the join by that name |
| FileNames.JoinEmpty | src/foam/db/IOstreams/A2streams/OFCstream.C:128-136 | a join of non-empty names is empty only when there are none |
| FileNames.Find | src/foam/db/IOstreams/A2streams/OFCstream.C:132 | find returns -1 or a position from which the pattern occurs |
| FileNames.FindFailsIffAbsent | src/foam/db/IOstreams/A2streams/OFCstream.C:132 | find returns npos exactly when the pattern does not occur from the start position on |
| FileNames.FindFromStart | src/foam/db/IOstreams/A2streams/OFCstream.C:132 | a search from the start succeeds exactly when the name contains the pattern |
| OFstreams.Reversed | src/foam/db/IOstreams/Fstreams/OFstream.C:187-198 | the names in push order: entry i is the stack's entry counted from the bottom |
| OFstreams.BlockIdOfPush | src/foam/db/IOstreams/Fstreams/OFstream.C:182-210 | pushing a name adds it as the last component of the block id |
| OFstreams.BlockIdComponents | src/foam/db/IOstreams/Fstreams/OFstream.C:182-210 | with component names, the block id's components are the relative file name's, then the stacked names from the bottom of the stack to its top |
| OFstreams.SliceStreamRepo.constructor | src/foam/db/IOstreams/SliceStreams/SliceStreamRepo.C:58 | a new repository starts at boundary 0 |
| OFstreams.SliceStreamRepo.Push | src/foam/db/IOstreams/SliceStreams/SliceStreamRepo.C:96-99 | push sets the boundary counter to the given value |
| OFstreams.OFstream.constructor | src/foam/db/IOstreams/Fstreams/OFstream.C:105-152 | a new stream starts at line 1 with no indentation, an empty name stack, no boundary counted, no string stream and no coherent write; it is bad when the file could not be opened |
| OFstreams.OFstream.GetBlockId | src/foam/db/IOstreams/Fstreams/OFstream.C:182-210 | the loop builds the block id: the relative file name, a '/', then the stacked names from the bottom to the top separated by '/' |
| OFstreams.OFstream.PopBlockNamesStack | src/foam/db/IOstreams/Fstreams/OFstream.C:299-317 | the top name is popped; an empty stack stays empty; nothing else changes |
| OFstreams.OFstream.IncrBlock | src/foam/db/IOstreams/Fstreams/OFstream.C:242-261 | the name is pushed and returned; the indented name and an indented opening brace go on lines of their own and the indentation grows by one level |
| OFstreams.OFstream.DecrBlock | src/foam/db/IOstreams/Fstreams/OFstream.C:264-276 | the top name is popped, the indentation shrinks by one level (not below zero) and an indented closing brace is written |
| OFstreams.OFstream.WriteKeyword | src/foam/db/IOstreams/Fstreams/OFstream.C:279-296 | the keyword is pushed; a "type" keyword counts one more boundary and passes the count to the repository, which otherwise keeps its value |
| OFstreams.OFstream.WriteData | src/foam/db/IOstreams/Fstreams/OFstream.C:320-343 | in coherent format the data becomes one coherent write under the block id, counted in scalars, and nothing is written to the stream; otherwise it is written as a binary buffer, which fails unless the format is binary |
| OFstreams.OFstream.Parwrite | src/foam/db/IOstreams/Fstreams/OFstream.C:346-358 | parwrite succeeds exactly in coherent format |
| OFstreams.OFstream.StringStream | src/foam/db/IOstreams/Fstreams/OFstream.C:361-379 | a string stream is created exactly when the format is coherent and none exists yet; otherwise the call is fatal |
| OSstreams.Backslashes | src/foam/db/IOstreams/Sstreams/OSstream.C:166-170 | the run of pending backslashes: n characters, all backslashes |
| OSstreams.CountAppend | src/foam/db/IOstreams/Sstreams/OSstream.C:107 | newlines counted in a concatenation add up |
| OSstreams.EscapeAppend | src/foam/db/IOstreams/Sstreams/OSstream.C:144-176 | escaping a concatenation escapes the first part, then the second with the backslashes the first part held back |
| OSstreams.TrailingBackslashDropped | src/foam/db/IOstreams/Sstreams/OSstream.C:175-178 | a trailing backslash does not appear in the written string |
| OSstreams.EscapeLength | src/foam/db/IOstreams/Sstreams/OSstream.C:144-176 | the escaped text and the held-back backslashes are the input plus one escape per newline or quote |
| OSstreams.PendingIsTrailing | src/foam/db/IOstreams/Sstreams/OSstream.C:144-176 | the backslashes held back at the end are exactly the trailing backslashes of the string |
| OSstreams.EscapedLength | src/foam/db/IOstreams/Sstreams/OSstream.C:131-182 | a written string holds every character but the trailing backslashes, plus one escape per newline or quote |
| OSstreams.EscapeWithoutBackslashes | src/foam/db/IOstreams/Sstreams/OSstream.C:144-173 | without backslashes, escaping puts one backslash before each newline and quote and keeps everything else |
| OSstreams.EscapeSnoc | src/foam/db/IOstreams/Sstreams/OSstream.C:145-173 | one more character: a backslash is held back; any other character releases the held-back run, one more for a newline or quote, then itself |
| OSstreams.OSstream.constructor | src/foam/db/IOstreams/Fstreams/OFstream.C:119 | a new stream is empty, good and unindented, with the given format and line number |
| OSstreams.OSstream.WriteChar | src/foam/db/IOstreams/Sstreams/OSstream.C:74-92 | a character is appended and a newline advances the line number |
| OSstreams.OSstream.WriteVerbatim | src/foam/db/IOstreams/Sstreams/OSstream.C:95-111 | the text is appended as it is and the line number advances by its newlines |
| OSstreams.OSstream.WriteWord | src/foam/db/IOstreams/Sstreams/OSstream.C:114-128 | a word is appended as it is and the line number does not change |
| OSstreams.OSstream.EmitEscaped | src/foam/db/IOstreams/Sstreams/OSstream.C:155-172 | a character other than a backslash releases the pending backslashes, one more before a newline or quote, then is written itself |
| OSstreams.OSstream.WriteString | src/foam/db/IOstreams/Sstreams/OSstream.C:131-182 | a string is written between quotes with newlines and quotes escaped and trailing backslashes dropped; the line number advances by its newlines |
| OSstreams.OSstream.WriteQuoted | src/foam/db/IOstreams/Sstreams/OSstream.C:185-253 | quoted, as a string; unquoted, the text as it is; either way the line number advances by its newlines |
| OSstreams.OSstream.WriteBuffer | src/foam/db/IOstreams/Sstreams/OSstream.C:288-304 | binary data is written between parentheses, and the call is fatal on a stream that is not binary |
| OSstreams.OSstream.WriteToken | src/foam/db/IOstreams/Sstreams/OSstream.C:39-71 | a verbatim string is written between "#{" and "#}", a variable as it is, and any other token writes nothing |
| OSstreams.OSstream.Indent | src/foam/db/IOstreams/Sstreams/OSstream.C:323-329 | indent writes indentLevel times indentSize spaces |
| OSstreams.OSstream.IncrIndent | src/foam/db/IOstreams/Fstreams/OFstream.C:258 | the indentation grows by one level and nothing is written |
| OSstreams.OSstream.DecrIndent | src/foam/db/IOstreams/Fstreams/OFstream.C:273 | the indentation shrinks by one level, not below zero, and nothing is written |
| OSstreams.OSstream.TakeBuffer | src/foam/db/IOstreams/Fstreams/OFstream.C:158-167 | the text of a string stream is taken out and the stream is left empty |
| OSstreams.OSstream.NotImplemented | src/foam/db/IOstreams/Sstreams/OSstream.C:307-320 | parwrite and stringStream on this stream only mark it bad |
| OFCstreams.FormattingKeysDistinct | src/foam/db/IOstreams/A2streams/OFCstream.C:234-236 | different counters give different formatting keys ASCII_F<n>, so no formatting entry is dropped as a duplicate |
| OFCstreams.KeyIndex | src/foam/db/IOstreams/A2streams/OFCstream.C:162 | the lookup of a key finds an entry with that key, or reports that none has it |
| OFCstreams.AddEntry | src/foam/db/IOstreams/A2streams/OFCstream.C:162 | dictionary::add appends an entry with a new key and drops one whose key is taken |
| OFCstreams.AddKeepsPaths | src/foam/db/IOstreams/A2streams/OFCstream.C:185-205 | adding an entry anywhere keeps every path to a sub-dictionary valid |
| OFCstreams.KeysKept | src/foam/db/IOstreams/A2streams/OFCstream.C:162 | adding keeps every key, position and kind of the existing entries |
| OFCstreams.AddLandsAtPath | src/foam/db/IOstreams/A2streams/OFCstream.C:162 | adding at the current path adds to the sub-dictionary that path leads to |
| OFCstreams.ResolvesDeeper | src/foam/db/IOstreams/A2streams/OFCstream.C:190-193 | entering a sub-dictionary of the current one extends the path one level |
| OFCstreams.ResolvesParent | src/foam/db/IOstreams/A2streams/OFCstream.C:199-205 | returning to the parent keeps a path to a sub-dictionary |
| OFCstreams.GatheredAreTheFields | src/foam/db/IOstreams/A2streams/OFCstream.C:39-60 | gathering misses no field entry of the dictionary tree and invents none |
| OFCstreams.GatherFieldDataEntries | src/foam/db/IOstreams/A2streams/OFCstream.C:39-60 | the walk collects the field entries depth first in entry order |
| OFCstreams.WindowFits | src/foam/db/IOstreams/A2streams/OFCstream.C:346-358 | the window globalIndex gives a rank lies inside the global array |
| OFCstreams.TransfersFit | src/foam/db/IOstreams/A2streams/OFCstream.C:330-365 | every field not uniform on all ranks is written exactly once, and each write's window lies inside its global array |
| OFCstreams.NonProcessor | src/foam/db/IOstreams/A2streams/OFCstream.C:130-136 | the kept components are at most all of them |
| OFCstreams.NonProcessorKeeps | src/foam/db/IOstreams/A2streams/OFCstream.C:132 | a component is kept exactly when it does not mention "processor" |
| OFCstreams.NonProcessorOfComponents | src/foam/db/IOstreams/A2streams/OFCstream.C:130-136 | the kept components are still path components, in order |
| OFCstreams.Names | src/foam/db/IOstreams/A2streams/OFCstream.C:330-365 | the names of the gathered entries, one per entry |
| OFCstreams.Tags | src/foam/db/IOstreams/A2streams/OFCstream.C:322-325 | the tags prepared for the reduction, one per gathered entry |
| OFCstreams.Lens | src/foam/db/IOstreams/A2streams/OFCstream.C:343 | the element count of every gathered entry |
| OFCstreams.Ids | src/foam/db/IOstreams/A2streams/OFCstream.C:355 | the id of each entry: its name with "::" replaced by "/" |
| OFCstreams.Counts | src/foam/db/IOstreams/A2streams/OFCstream.C:363 | the global element counts the gathered entries record |
| OFCstreams.Totals | src/foam/db/IOstreams/A2streams/OFCstream.C:346-347 | the global size of each field is the sum of its counts over the ranks |
| OFCstreams.MovedKeepsBlockName | src/foam/db/IOstreams/A2streams/OFCstream.C:185-193 | storing the buffered text keeps a usable block name usable |
| OFCstreams.EnterNewBlock | src/foam/db/IOstreams/A2streams/OFCstream.C:190-193 | adding a sub-dictionary called name lets the path enter it |
| OFCstreams.OFCstream.constructor | src/foam/db/IOstreams/A2streams/OFCstream.C:82-105 | a new stream has an empty dictionary, is at its top, with no keyword, no compound token name and formatting counter 0 |
| OFCstreams.OFCstream.GetGlobalId | src/foam/db/IOstreams/A2streams/OFCstream.C:123-139 | the global id is the block id without its processor directories: its components are exactly the block id's components that do not mention "processor" |
| OFCstreams.OFCstream.MoveStreamBufferToDict | src/foam/db/IOstreams/A2streams/OFCstream.C:225-239 | non-empty buffered text becomes the formatting entry ASCII_F<n> of the current sub-dictionary and the counter advances; the buffer is emptied; nothing else changes |
| OFCstreams.OFCstream.WriteKeyword | src/foam/db/IOstreams/A2streams/OFCstream.C:142-149 | the keyword is remembered and the text written before it is stored |
| OFCstreams.OFCstream.WriteToken | src/foam/db/IOstreams/A2streams/OFCstream.C:152-168 | an end of statement stores the text since the keyword as the keyword's primitive entry and empties the buffer; other tokens change nothing |
| OFCstreams.OFCstream.WriteWord | src/foam/db/IOstreams/A2streams/OFCstream.C:171-182 | a compound token name is only remembered; any other word is written to the buffer |
| OFCstreams.OFCstream.IncrBlock | src/foam/db/IOstreams/A2streams/OFCstream.C:185-196 | the buffered text is stored, an empty sub-dictionary called name is added and becomes current |
| OFCstreams.OFCstream.DecrBlock | src/foam/db/IOstreams/A2streams/OFCstream.C:199-205 | the buffered text is stored and the parent dictionary becomes current |
| OFCstreams.OFCstream.Parwrite | src/foam/db/IOstreams/A2streams/OFCstream.C:208-222 | a new field entry for the current keyword and compound token name, tagged by its data, is added to the current sub-dictionary exactly when the keyword is free there |
| OFCstreams.OFCstream.WriteGlobalGeometricField | src/foam/db/IOstreams/A2streams/OFCstream.C:313-382 | the field entries are gathered, their tags reduced with the other ranks', each entry takes its reduced tag, every entry not uniform is written at this rank's offset and records its global count; the master then stores the buffered text |
| OFCstreams.WriteFields | src/foam/db/IOstreams/A2streams/OFCstream.C:315-365 | the field part of writing: gather, reduce, apply the reduced tags and write the entries that are not uniform |
| OFCstreams.CollectTags | src/foam/db/IOstreams/A2streams/OFCstream.C:319-325 | the tags of the gathered entries, in order |
| OFCstreams.ApplyReducedTags | src/foam/db/IOstreams/A2streams/OFCstream.C:330-365 | after the loop every entry holds its reduced tag and count, and the writes are those of the entries not uniform, in order |
| OFCstreams.ApplyReducedTagAt | src/foam/db/IOstreams/A2streams/OFCstream.C:330-365 | one iteration applies the reduced tag to entry i and leaves the others as they were |
| OFCstreams.ApplyReducedTag | src/foam/db/IOstreams/A2streams/OFCstream.C:332-364 | the entry takes the reduced tag; unless it is uniform, its elements are written at this rank's offset and it records the global element count |
| SliceStreams.SliceStreamType | src/foam/db/IOstreams/SliceStreams/SliceStream.C:23-33 | the type is "mesh" exactly when the id mentions "polyMesh" or "region", and "fields" otherwise |
| SliceStreams.SliceStream.constructor | src/foam/db/IOstreams/SliceStreams/SliceStreamPaths.C:30-39 | a new stream knows its mesh and data directory names and has no type and no path name yet |
| SliceStreams.SliceStream.SetPath | src/foam/db/IOstreams/SliceStreams/SliceStream.C:37-48 | "mesh" selects the mesh directory below the path, "fields" the data directory, each with the path's components followed by the directory's; any other type keeps the path name |
| SliceStreams.SliceStream.Access | src/foam/db/IOstreams/SliceStreams/SliceStream.C:52-57 | access records the type and then selects the path as setPath does |
| SpanBuffers.CountBelow | src/foam/db/IOstreams/SliceStreams/buffer/spanBuffer.H:56-57 | the mapping entries below a position are at most all of them |
| SpanBuffers.CountBelowGap | src/foam/db/IOstreams/SliceStreams/buffer/spanBuffer.H:54-69 | between two consecutive entries of a sorted mapping, exactly the entries before the gap lie below |
| SpanBuffers.NoneBelow | src/foam/db/IOstreams/SliceStreams/buffer/spanBuffer.H:54-69 | no entry lies below a position at or under every entry |
| SpanBuffers.OutputCheckAsWrittenAdmitsOverrun | src/foam/db/IOstreams/SliceStreams/buffer/spanBuffer.H:47-50 | the extent check as written lets an empty output through for the mapping [0], although the first copy writes output element 0 |
| SpanBuffers.EntryAtLeastIndex | src/foam/db/IOstreams/SliceStreams/buffer/spanBuffer.H:54-69 | every entry of a sorted mapping is at least its index |
| SpanBuffers.CopyRun | src/foam/db/IOstreams/SliceStreams/buffer/spanBuffer.H:64 | copy_n writes n input elements to the output from the given position and leaves the rest of the output alone |
| SpanBuffers.ScatterMapped | src/foam/db/IOstreams/SliceStreams/buffer/spanBuffer.H:54-69 | unmasked, input element k lands at output position mapping[k] and no other output position changes |
| SpanBuffers.FillUnmasked | src/foam/db/IOstreams/SliceStreams/buffer/spanBuffer.H:54-69 | masked, every output position before the end of the mapping that the mapping does not list is filled in order from the input; listed positions and those beyond are left alone |
| SpanBuffers.GapsGrow | src/foam/db/IOstreams/SliceStreams/buffer/spanBuffer.H:54-69 | the distance of an entry from its index never shrinks along a sorted mapping |
| SpanBuffers.MappedCopy | src/foam/db/IOstreams/SliceStreams/buffer/spanBuffer.H:34-76 | the copy succeeds exactly when the output holds the largest mapped element and, masked, enough input remains for the rest of the output; unmasked, input k lands at mapping[k] and the rest of the input follows the last mapped element; masked, every unlisted position holds the input in order and listed positions are left alone |
| TarSystemCall.FirstSep | applications/tarmodules/tarSystemCall/tarSystemCall.C:99 | find('/') gives the position of a separator, or -1 exactly when there is none |
| TarSystemCall.FirstSepIsFirst | applications/tarmodules/tarSystemCall/tarSystemCall.C:99 | no separator comes before the one find('/') returns |
| TarSystemCall.LastSep | applications/tarmodules/tarSystemCall/tarSystemCall.C:110 | rfind('/') gives the position of a separator with none after it, or -1 exactly when there is none |
| TarSystemCall.Stripped | applications/tarmodules/tarSystemCall/tarSystemCall.C:121 | stripping invalid characters never lengthens the name and leaves a valid name as it is |
| TarSystemCall.Result | applications/tarmodules/tarSystemCall/tarSystemCall.C:120-138 | the instance and local parts are returned as split, and on success the name as well |
| TarSystemCall.FileNameComponentsAsWritten | applications/tarmodules/tarSystemCall/tarSystemCall.C:71-139 | as written: a successful split returns a non-empty name made of valid characters only |
| TarSystemCall.RawName | applications/tarmodules/tarSystemCall/tarSystemCall.C:117 | the name before the check is the tail of the path after its last separator, and holds no separator |
| TarSystemCall.AllValidIff | applications/tarmodules/tarSystemCall/tarSystemCall.C:121 | a name passes stripInvalid unchanged exactly when every one of its characters is valid |
| TarSystemCall.SplitAsWritten | applications/tarmodules/tarSystemCall/tarSystemCall.C:99-118 | as written, a path with a separator has as instance the text before the first separator, and as local part the text between the first and the last (empty when they coincide) |
| TarSystemCall.NoSeparatorAsWritten | applications/tarmodules/tarSystemCall/tarSystemCall.C:101-138 | as written, a path without a separator gives no instance and no local part; the name is the whole path when the call succeeds, and the path stripped of its invalid characters when it fails |
| TarSystemCall.OkIffValidAsWritten | applications/tarmodules/tarSystemCall/tarSystemCall.C:120-138 | as written, the call returns true exactly when the text after the last separator is non-empty and all valid, and that text is the name; on failure the name is that text stripped of its invalid characters |
| TarSystemCall.AbsolutePathLosesRoot | applications/tarmodules/tarSystemCall/tarSystemCall.C:66 | as written, "/XXX/bar" comes out as ("", "XXX", "bar") instead of the documented ("/XXX", "", "bar") |
| TarSystemCall.FileNameComponents | applications/tarmodules/tarSystemCall/tarSystemCall.C:60-139 | the split with absolute paths as documented: on success the name is a valid word without a separator |
| TarSystemCall.RelativeSplit | applications/tarmodules/tarSystemCall/tarSystemCall.C:106-118 | a relative path with a separator has as instance the text before the first separator, which holds none, and as local part the text between the first and the last separator, empty when they coincide |
| TarSystemCall.AbsoluteSplit | applications/tarmodules/tarSystemCall/tarSystemCall.C:66 | an absolute path has as instance everything before its last separator and no local part, as the behaviour table documents |
| TarSystemCall.NoSeparator | applications/tarmodules/tarSystemCall/tarSystemCall.C:101-138 | a path without a separator gives no instance and no local part; the name is the whole path when the call succeeds, and the path stripped of its invalid characters when it fails |
| TarSystemCall.OkIffValid | applications/tarmodules/tarSystemCall/tarSystemCall.C:120-138 | the call returns true exactly when the text after the last separator is non-empty and all valid, and that text is the name; on failure the name is that text stripped of its invalid characters |
| TarSystemCall.AbsolutePathAsDocumented | applications/tarmodules/tarSystemCall/tarSystemCall.C:66 | the corrected split gives "/XXX/bar" the documented parts ("/XXX", "", "bar") |
| TarSystemCall.PartsKeepComponents | applications/tarmodules/tarSystemCall/tarSystemCall.C:99-118 | instance, local and name together hold exactly the components of the path, in order |
| TarSystemCall.PiecesKeepComponents | applications/tarmodules/tarSystemCall/tarSystemCall.C:99-118 | the three pieces, before the name check, hold exactly the components of the path |
| TarSystemCall.AbsolutePathKeepsRoot | applications/tarmodules/tarSystemCall/tarSystemCall.C:66 | an absolute path with a name below a directory keeps its root in the instance, has no local part, and instance / name gives the path back |

## Left out

- The non-blocking consensus of the coherent mesh (nonblockConsensus.C) is not modelled. Its point is concurrency.
- Blocking sends and receives (OPstream, IPstream) are not modelled. Each received message is a method parameter, and only the order in which a process appends the data is modelled.
- Collective calls (`globalIndex`, `reduce`, `returnReduce`, `gatherList`, `scatterList`, `scatter`) are modelled by their results, given as input sequences. `reduce` of per-partition sizes is the inclusive prefix sum.
- The storage engine (ADIOS2) is not modelled. Buffer synchronisation, buffer sizes, `get`/`put`, variable definition and the engines and repositories behind a slice stream are outside the model. The stored block an initialization strategy reads is a parameter.
- File and directory I/O is not modelled: opening and closing files, gz compression, the `isDir` warning of the tar call, `mkDir`, and the OFstream destructor's write of the local string. `SliceStreams` keeps only the path a stream opens.
- The dictionary text output of OFCstream (`writeDict`) and `removeProcPatchesFromDict` are not modelled. They depend on the dictionary printer, which is not part of this model. The dictionary entries the stream builds are modelled.
- Numbers are written by the stream's own formatter, which is not part of this model. OSstream's `flush`, `endl`, `flags`, `width` and `precision` only forward to std::ostream and are not modelled. Labels are named through `LabelNames`, and scalars are opaque values.
- The wall-clock timing of the coherent mesh constructor is not modelled.
- Floating point is not modelled. Dafny's exact `real` stands in for `scalar`, so rounding is not captured, and the sign flip of processor-face fluxes is exact negation.
- polyMesh and polyBoundaryMesh queries (`whichPatch`, `faceNeighbour`) are function parameters. So is the word check of `stripInvalid`, as a `valid` predicate. fileName cleaning is not modelled.
- CoherentMeshes: only the partner plan of `commSharedPoints` is modelled, namely which lower partitions are asked for which points. The point transfer itself is a message parameter.
- ProcessorPatches: a patch's `begin`/`end` range is taken to be its local face ids. ProcessorPatch.H is a declaration-only header and is not part of this model.
- ProcessorPatches: the static live-instance counter is an `InstanceCounter` object passed to the constructor and destructor.
- CoherentMeshes: the slice built from a table of cell pairs stands in for the constructor taking an offsets table. Both give the same `[bottom, top)`.
- CoherenceComposite: the component tree is modelled as a value. Every operation returns the updated tree, so aliasing of a shared child between two parents is not captured.
- FieldTags.FieldDataEntry.WriteTokens: the source raises a fatal error when it writes the first element of a null list (UListProxy.C:40-58). The model writes the first element held in the entry's tag, so that error path is not modelled.
- FieldTags: the uniformity-state accessors of fieldDataEntry.H (lines 186-195) are plain field reads.
- SurfaceFields: the scalar `readToDict` of surfaceFields.C repeats the template reader of surfaceFieldsI.H. Only the template reader is modelled.
- SpanBuffers.MappedCopy: requires a non-empty mapping. An empty mapping has undefined behaviour in the source, and its caller (SliceStreamImpl.H) uses the variable buffer in that case.
- SpanBuffers.MappedCopy: also requires the input to hold at least the elements the mapping loop reads, which the source does not check. It further requires that, whenever the output check passes, the input left after the mapped part fits into the output after the last mapped position. The source copies that trailing input unchecked, so a longer input writes past the span.
- OSstreams.OSstream.Indent: the source counts the spaces in an `unsigned short` (OSstream.C:325). Once indentLevel times indentSize exceeds 65535 the counter wraps before reaching it, and the loop does not end. The model writes exactly that many spaces.
- OFstreams.OFstream.WriteKeyword: the keyword text that Ostream::writeKeyword emits (the keyword, padded to the keyword width) is not modelled. Ostream.C is not part of this model; only the block-name stack and the boundary counter are.
- OFCstreams.OFCstream.IncrBlock: requires the block name to be none of the formatting keys ASCII_F<n> and not the key of an entry that is not a sub-dictionary. For such a name the source's `subDictPtr` returns null, and the stream goes on with a null current dictionary.
- SpanBuffers: the `+1` on `data_end` in `v_transfer` is not modelled. The input range is a parameter in element units, and the `serialization` width is folded into the element.
- InitStrategies.ReadPrimitives: requires the count of the window not to be -1. With count -1 the source indexes the first element of an empty list.
- SlicePermutations.SlicePermutation.PermutePoints: requires every point to be referenced by a face. An unreferenced point has permutation entry -1, which the source would use as an index.
- SliceOffsets: only this table models the 64-bit label wrap-around. All other labels are unbounded integers, and the meshes are taken to fit in a label.

## Findings

| source | as written | input that shows it | evidently intended | confidence | as-written member | corrected member |
|---|---|---|---|---|---|---|
| src/foam/meshes/polyMesh/CoherentMesh/CoherenceComposite/decorators/ComponentDecorator.H:68-75 | the decorator's `_v_pull_node_` assigns `output = component_->node(name)` even when an earlier sibling already set `output` | a head whose children are a component `a` that holds `"x"` and then a decorator `b`: `node("x")` yields null although `"x"` exists | a match found earlier is kept, as `IndexComponent::_v_pull_node_` does | not executed | CoherenceComposite.DecoratorDropsEarlierMatch, CoherenceComposite.NodeAsWritten | CoherenceComposite.PullNode |
| src/foam/db/IOstreams/SliceStreams/buffer/spanBuffer.H:47-50 | the output extent is checked against the largest mapped index itself, not against that index plus one | the mapping `[0]` with an empty output passes the check, and the copy then writes position 0 | the output must hold position `max_index`, so its size must be at least `max_index + 1` | not executed | SpanBuffers.OutputCheckAsWrittenAdmitsOverrun | SpanBuffers.MappedCopy |
| applications/tarmodules/tarSystemCall/tarSystemCall.C:99-118 | the instance is the text before the first `/`, so an absolute path loses its root | `"/XXX/bar"` gives instance `""`, local `"XXX"`, name `"bar"`, while the behaviour table at line 66 documents `"/XXX"`, `""`, `"bar"` | an absolute path keeps its root directory in the instance | not executed | TarSystemCall.AbsolutePathLosesRoot | TarSystemCall.FileNameComponents |
