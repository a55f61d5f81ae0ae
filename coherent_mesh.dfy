// The coherent mesh (CoherentMesh/CoherentMesh.C): the process-local part of
// a mesh read in coherent (partition-contiguous) numbering, and the steps
// that turn it into a decomposed mesh: exchanging the faces whose neighbour
// cell lies in a higher partition, fetching the points other partitions
// own, renumbering face points to local ids, and laying out the processor
// and physical patches.
//
// Messages between processes are parameters and results of the methods:
// what a method sends is returned, what it receives is passed in.
module CoherentMeshes {
  import opened OrderedSets
  import SliceHelpers
  import MeshLayout
  import CoherentOffsets
  import CoherentSlices
  import ProcessorPatches
  import FragmentPermutations

  type Point = MeshLayout.Point

  // ----- the slices the exchanges are planned with ---------------------------

  /** A slice as the planning loops use it: a partition and its range. */
  datatype SliceRange = SliceRange(partition: int, bottom: int, top: int)

  /** A default-constructed slice: it holds no ids. */
  const EmptySlice := SliceRange(0, 0, 0)

  /** The slices of partitions lo .. hi-1 as the offset pairs give them. */
  function RangesOf(pairs: seq<(int, int)>, lo: nat, hi: nat): (r: seq<SliceRange>)
    requires lo <= hi <= |pairs|
    ensures |r| == hi - lo
    ensures forall i :: 0 <= i < |r| ==> r[i] == SliceRange(lo + i, pairs[lo + i].0, pairs[lo + i].1)
  {
    seq(hi - lo, i requires 0 <= i < hi - lo => SliceRange(lo + i, pairs[lo + i].0, pairs[lo + i].1))
  }

  /** `std::vector<Slice> slices(n)`: n default-constructed slices. */
  function DefaultSlices(n: nat): (r: seq<SliceRange>)
    ensures |r| == n && forall i :: 0 <= i < n ==> r[i] == EmptySlice
  {
    seq(n, _ => EmptySlice)
  }

  /** `std::vector<Slice> slices(n)` followed by back-insertion of the slices
      of partitions myProcNo+1 .. nProcs-1: n default slices first. */
  function UpperSlices(pairs: seq<(int, int)>, myProcNo: nat): seq<SliceRange>
    requires myProcNo < |pairs|
  {
    DefaultSlices(|pairs| - (myProcNo + 1)) + RangesOf(pairs, myProcNo + 1, |pairs|)
  }

  /** `std::vector<Slice> slices(myProcNo)` followed by the slices of
      partitions 0 .. myProcNo-1. */
  function LowerSlices(pairs: seq<(int, int)>, myProcNo: nat): seq<SliceRange>
    requires myProcNo <= |pairs|
  {
    DefaultSlices(myProcNo) + RangesOf(pairs, 0, myProcNo)
  }

  /** subset(ids, slice): the ids inside the slice, in order. */
  function SharedIds(ids: seq<int>, s: SliceRange): seq<int>
  {
    SliceHelpers.Filter(ids, ProcessorPatches.InSlice(s.bottom, s.top))
  }

  /** The map partition -> shared ids that the planning loops fill, for the
      slices whose share is non-empty, as the sequence of its entries. */
  function Selected(slices: seq<SliceRange>, ids: seq<int>): seq<(int, seq<int>)>
  {
    if |slices| == 0 then []
    else
      var s := slices[|slices| - 1];
      var shared := SharedIds(ids, s);
      Selected(slices[..|slices| - 1], ids) + (if |shared| > 0 then [(s.partition, shared)] else [])
  }

  /** The planning loop of commSlicePatches, initializeSurfaceFieldMappings
      and commSharedPoints: subset the ids by each slice and record the
      non-empty shares under the slice's partition. */
  method SelectShared(slices: seq<SliceRange>, ids: seq<int>) returns (shared: seq<(int, seq<int>)>)
    ensures shared == Selected(slices, ids)
  {
    shared := [];
    var i := 0;
    while i < |slices|
      invariant 0 <= i <= |slices|
      invariant shared == Selected(slices[..i], ids)
    {
      assert slices[..i + 1][..i] == slices[..i];
      var sharedIds := SharedIds(ids, slices[i]);
      if |sharedIds| > 0 {
        shared := shared + [(slices[i].partition, sharedIds)];
      }
      i := i + 1;
    }
    assert slices[..|slices|] == slices;
  }

  /** The sizes of the shares: sendNumPartitionFaces and
      procPatchIDsAndSizes. */
  function Sizes(shared: seq<(int, seq<int>)>): (r: seq<(int, int)>)
    ensures |r| == |shared|
    ensures forall k :: 0 <= k < |r| ==> r[k] == (shared[k].0, |shared[k].1|)
  {
    seq(|shared|, k requires 0 <= k < |shared| => (shared[k].0, |shared[k].1|))
  }

  lemma {:induction false} EmptySliceSharesNothing(ids: seq<int>)
    ensures SharedIds(ids, EmptySlice) == []
  {
    if |ids| > 0 {
      EmptySliceSharesNothing(ids[..|ids| - 1]);
    }
  }

  lemma {:induction false} SelectedAppend(a: seq<SliceRange>, b: seq<SliceRange>, ids: seq<int>)
    ensures Selected(a + b, ids) == Selected(a, ids) + Selected(b, ids)
  {
    if |b| > 0 {
      assert (a + b)[..|a + b| - 1] == a + b[..|b| - 1];
      SelectedAppend(a, b[..|b| - 1], ids);
    } else {
      assert a + b == a;
    }
  }

  lemma {:induction false} SelectedOfEmpty(n: nat, ids: seq<int>)
    ensures Selected(DefaultSlices(n), ids) == []
  {
    EmptySliceSharesNothing(ids);
    if n > 0 {
      assert DefaultSlices(n)[..n - 1] == DefaultSlices(n - 1);
      SelectedOfEmpty(n - 1, ids);
    }
  }

  predicate AscendingPartitions(slices: seq<SliceRange>)
  {
    forall i, j :: 0 <= i < j < |slices| ==> slices[i].partition < slices[j].partition
  }

  /** Every slice's share, in slice order. */
  function Shares(slices: seq<SliceRange>, ids: seq<int>): (r: seq<(int, seq<int>)>)
    ensures |r| == |slices|
    ensures forall i :: 0 <= i < |slices| ==> r[i] == (slices[i].partition, SharedIds(ids, slices[i]))
  {
    seq(|slices|, i requires 0 <= i < |slices| => (slices[i].partition, SharedIds(ids, slices[i])))
  }

  /** The selection holds only non-empty shares of the slices... */
  lemma {:induction false} SelectedEntries(slices: seq<SliceRange>, ids: seq<int>)
    ensures forall k :: 0 <= k < |Selected(slices, ids)| ==>
              Selected(slices, ids)[k] in Shares(slices, ids) && |Selected(slices, ids)[k].1| > 0
  {
    if |slices| > 0 {
      var init := slices[..|slices| - 1];
      SelectedEntries(init, ids);
      assert Shares(init, ids) == Shares(slices, ids)[..|slices| - 1];
      assert Shares(slices, ids)[|slices| - 1] in Shares(slices, ids);
    }
  }

  /** ...and every non-empty one. */
  lemma {:induction false} SelectedCovers(slices: seq<SliceRange>, ids: seq<int>)
    ensures forall i :: 0 <= i < |slices| && |SharedIds(ids, slices[i])| > 0 ==>
              Shares(slices, ids)[i] in Selected(slices, ids)
  {
    if |slices| > 0 {
      var init := slices[..|slices| - 1];
      SelectedCovers(init, ids);
      assert forall i :: 0 <= i < |init| ==> Shares(init, ids)[i] == Shares(slices, ids)[i];
    }
  }

  /** Over slices of ascending partitions the selection ascends too: the
      order in which iterating the std::map visits it. */
  lemma {:induction false} SelectedAscending(slices: seq<SliceRange>, ids: seq<int>)
    requires AscendingPartitions(slices)
    ensures forall k, l :: 0 <= k < l < |Selected(slices, ids)| ==>
              Selected(slices, ids)[k].0 < Selected(slices, ids)[l].0
  {
    if |slices| > 0 {
      var init := slices[..|slices| - 1];
      var last := slices[|slices| - 1];
      SelectedAscending(init, ids);
      SelectedEntries(init, ids);
      var r0 := Selected(init, ids);
      forall k | 0 <= k < |r0|
        ensures r0[k].0 < last.partition
      {
        var i :| 0 <= i < |init| && Shares(init, ids)[i] == r0[k];
        assert init[i] == slices[i];
      }
    }
  }

  /** What the planning loop yields over partitions lo .. hi-1: each entry
      is a partition in the window with its non-empty share, every
      partition with a non-empty share has an entry, and the entries ascend
      by partition. */
  predicate SelectionOf(r: seq<(int, seq<int>)>, ids: seq<int>, pairs: seq<(int, int)>, lo: nat, hi: nat)
    requires lo <= hi <= |pairs|
  {
    EntriesInWindow(r, ids, pairs, lo, hi) && CoversWindow(r, ids, pairs, lo, hi)
    && (forall k, l :: 0 <= k < l < |r| ==> r[k].0 < r[l].0)
  }

  predicate EntriesInWindow(r: seq<(int, seq<int>)>, ids: seq<int>, pairs: seq<(int, int)>, lo: nat, hi: nat)
    requires lo <= hi <= |pairs|
  {
    forall k :: 0 <= k < |r| ==>
      lo <= r[k].0 < hi
      && r[k].1 == SharedIds(ids, SliceRange(r[k].0, pairs[r[k].0].0, pairs[r[k].0].1))
      && |r[k].1| > 0
  }

  predicate CoversWindow(r: seq<(int, seq<int>)>, ids: seq<int>, pairs: seq<(int, int)>, lo: nat, hi: nat)
    requires lo <= hi <= |pairs|
  {
    forall p :: (lo <= p < hi && |SharedIds(ids, SliceRange(p, pairs[p].0, pairs[p].1))| > 0) ==>
      exists k :: 0 <= k < |r| && r[k].0 == p
  }

  lemma {:induction false} SelectedRanges(pairs: seq<(int, int)>, lo: nat, hi: nat, ids: seq<int>)
    requires lo <= hi <= |pairs|
    ensures SelectionOf(Selected(RangesOf(pairs, lo, hi), ids), ids, pairs, lo, hi)
  {
    var ranges := RangesOf(pairs, lo, hi);
    SelectedRangesEntries(pairs, lo, hi, ids);
    SelectedRangesCover(pairs, lo, hi, ids);
    assert AscendingPartitions(ranges);
    SelectedAscending(ranges, ids);
  }

  /** Each entry of the selection is a partition of the window with its
      non-empty share. */
  lemma SelectedRangesEntries(pairs: seq<(int, int)>, lo: nat, hi: nat, ids: seq<int>)
    requires lo <= hi <= |pairs|
    ensures EntriesInWindow(Selected(RangesOf(pairs, lo, hi), ids), ids, pairs, lo, hi)
  {
    var ranges := RangesOf(pairs, lo, hi);
    SelectedEntries(ranges, ids);
    var r := Selected(ranges, ids);
    forall k | 0 <= k < |r|
      ensures lo <= r[k].0 < hi
      ensures r[k].1 == SharedIds(ids, SliceRange(r[k].0, pairs[r[k].0].0, pairs[r[k].0].1))
    {
      var i :| 0 <= i < hi - lo && Shares(ranges, ids)[i] == r[k];
    }
  }

  /** Every partition of the window with a non-empty share has an entry. */
  lemma SelectedRangesCover(pairs: seq<(int, int)>, lo: nat, hi: nat, ids: seq<int>)
    requires lo <= hi <= |pairs|
    ensures CoversWindow(Selected(RangesOf(pairs, lo, hi), ids), ids, pairs, lo, hi)
  {
    var ranges := RangesOf(pairs, lo, hi);
    SelectedCovers(ranges, ids);
    var r := Selected(ranges, ids);
    forall p | lo <= p < hi && |SharedIds(ids, SliceRange(p, pairs[p].0, pairs[p].1))| > 0
      ensures exists k :: 0 <= k < |r| && r[k].0 == p
    {
      assert Shares(ranges, ids)[p - lo] in r;
      var k :| 0 <= k < |r| && r[k] == Shares(ranges, ids)[p - lo];
    }
  }

  /** The empty slices in front of the ranges select nothing. */
  lemma SelectedPadded(pairs: seq<(int, int)>, n: nat, lo: nat, hi: nat, ids: seq<int>)
    requires lo <= hi <= |pairs|
    ensures Selected(DefaultSlices(n) + RangesOf(pairs, lo, hi), ids) == Selected(RangesOf(pairs, lo, hi), ids)
  {
    var ranges := RangesOf(pairs, lo, hi);
    SelectedAppend(DefaultSlices(n), ranges, ids);
    SelectedOfEmpty(n, ids);
    assert [] + Selected(ranges, ids) == Selected(ranges, ids);
  }

  /** The selection over the upper slices (commSlicePatches,
      initializeSurfaceFieldMappings): the partitions above myProcNo whose
      cell range holds a neighbour. */
  lemma {:induction false} UpperSelection(pairs: seq<(int, int)>, myProcNo: nat, ids: seq<int>)
    requires myProcNo < |pairs|
    ensures SelectionOf(Selected(UpperSlices(pairs, myProcNo), ids), ids, pairs, myProcNo + 1, |pairs|)
  {
    var lo, hi := myProcNo + 1, |pairs|;
    assert Selected(UpperSlices(pairs, myProcNo), ids) == Selected(RangesOf(pairs, lo, hi), ids) by {
      SelectedPadded(pairs, hi - lo, lo, hi, ids);
    }
    SelectedRanges(pairs, lo, hi, ids);
  }

  /** The selection over the lower slices (commSharedPoints): the
      partitions below myProcNo whose point range holds a missing point. */
  lemma {:induction false} LowerSelection(pairs: seq<(int, int)>, myProcNo: nat, ids: seq<int>)
    requires myProcNo <= |pairs|
    ensures SelectionOf(Selected(LowerSlices(pairs, myProcNo), ids), ids, pairs, 0, myProcNo)
  {
    assert Selected(LowerSlices(pairs, myProcNo), ids) == Selected(RangesOf(pairs, 0, myProcNo), ids) by {
      SelectedPadded(pairs, myProcNo, 0, myProcNo, ids);
    }
    SelectedRanges(pairs, 0, myProcNo, ids);
  }

  /** The number of shared ids is the number of ids in the range, which is
      the size of the processor patch built on that range. */
  lemma SharedCountIsPatchSize(ids: seq<int>, bottom: int, top: int)
    ensures |SharedIds(ids, SliceRange(0, bottom, top))| == ProcessorPatches.CountInRange(ids, bottom, top)
  {
    ProcessorPatches.ExtractFacesInSlice(ids, bottom, top);
    ProcessorPatches.InRangeIndicesSpec(ids, bottom, top);
  }

  // ----- received point ids --------------------------------------------------

  /** pointIDs in recvSliceFaces: the points of the (reversed) received faces
      that lie in the partner's point range, as an ordered set. */
  function RecvPointIds(recvFaces: seq<seq<int>>, bottom: int, top: int): seq<int>
  {
    FromSeq(SliceHelpers.Subset(MeshLayout.ReverseFaces(recvFaces), ProcessorPatches.InSlice(bottom, top)))
  }

  /** Every point of a received face inside the partner's range is among
      the received point ids. */
  lemma RecvPointIdsCover(recvFaces: seq<seq<int>>, bottom: int, top: int, f: seq<int>, x: int)
    requires f in recvFaces && x in f && bottom <= x < top
    ensures x in RecvPointIds(recvFaces, bottom, top)
  {
    var reversed := MeshLayout.ReverseFaces(recvFaces);
    var i :| 0 <= i < |recvFaces| && recvFaces[i] == f;
    MeshLayout.ReverseFaceInvolution(f);
    assert reversed[i] in reversed;
    SliceHelpers.SubsetMembers(reversed, ProcessorPatches.InSlice(bottom, top), x);
  }

  /** After the import, every point of a received face that lies in the
      partner's range is a key of the point slice's import map. */
  lemma RecvPointsImported(m: map<int, int>, recvFaces: seq<seq<int>>, bottom: int, top: int, next: int)
    ensures forall f, x :: f in recvFaces && x in f && bottom <= x < top ==>
              x in CoherentSlices.Appended(m, RecvPointIds(recvFaces, bottom, top), next)
  {
    forall f, x | f in recvFaces && x in f && bottom <= x < top
      ensures x in CoherentSlices.Appended(m, RecvPointIds(recvFaces, bottom, top), next)
    {
      RecvPointIdsCover(recvFaces, bottom, top, f, x);
      CoherentSlices.AppendedKeys(m, RecvPointIds(recvFaces, bottom, top), next);
    }
  }

  /** The points of the partner's range used by the received faces (the
      last faces appended to the mesh, reversed) imported into the point
      slice. */
  method ImportRecvPoints(pointSlice: CoherentSlices.Slice, bottom: int, top: int, recvFaces: seq<seq<int>>)
    modifies pointSlice.imports
    ensures pointSlice.imports.mapping
            == CoherentSlices.Appended(old(pointSlice.imports.mapping), RecvPointIds(recvFaces, bottom, top),
                                       pointSlice.imports.numNative + |old(pointSlice.imports.mapping)|)
  {
    pointSlice.Append(RecvPointIds(recvFaces, bottom, top));
  }

  /** The processor patch over `slice` as sendSliceFaces builds it, with the
      faces, neighbours and points it sends and the neighbour list with the
      shared faces encoded; the patch returned is the copy that is stored,
      the original having been destroyed. */
  method BuildSendPatch(slice: CoherentSlices.Slice, neighbours: seq<int>, faces: seq<seq<int>>,
                        points: seq<Point>, bottomPointId: int, numBoundaries: int, myProcNo: int,
                        counter: ProcessorPatches.InstanceCounter)
    returns (kept: ProcessorPatches.ProcessorPatch, sendFaces: seq<seq<int>>, sendNeighbours: seq<int>,
             sendPoints: seq<Point>, encoded: seq<int>)
    requires |neighbours| == |faces|
    requires forall f, x :: f in faces && x in f && x >= bottomPointId ==> x < bottomPointId + |points|
    modifies counter
    ensures counter.count == old(counter.count) + 1
    ensures fresh(kept)
    ensures kept.slice == slice
    ensures kept.procBoundaryName == ProcessorPatches.ProcBoundaryName(myProcNo, slice.partition)
    ensures SliceHelpers.DecodeSlicePatchId(kept.id) == numBoundaries - 1 + counter.count
    ensures kept.localFaceIds == ProcessorPatches.InRangeIndices(neighbours, slice.bottom, slice.top)
    ensures sendFaces == ProcessorPatches.Extractor(faces, kept.localFaceIds)
    ensures sendNeighbours == ProcessorPatches.Extractor(neighbours, kept.localFaceIds)
    ensures kept.localPointIds == ProcessorPatches.PatchPointIds(sendFaces, bottomPointId)
    ensures |sendPoints| == |kept.localPointIds|
    ensures forall k :: 0 <= k < |sendPoints| ==>
              0 <= kept.localPointIds[k] < |points| && sendPoints[k] == points[kept.localPointIds[k]]
    ensures encoded == ProcessorPatches.Encoded(neighbours, slice.bottom, slice.top, kept.id)
  {
    var procPatch := new ProcessorPatches.ProcessorPatch(slice, neighbours, numBoundaries, myProcNo, counter);
    sendFaces, sendNeighbours, sendPoints := SendPatchData(procPatch, neighbours, faces, points, bottomPointId);
    encoded := EncodeNeighbours(procPatch, neighbours);
    kept := new ProcessorPatches.ProcessorPatch.Copy(procPatch, counter);
    procPatch.Destroy(counter);
  }

  /** The faces, neighbours and points sendSliceFaces sends through a new
      patch, after the patch has determined its point ids. */
  method SendPatchData(procPatch: ProcessorPatches.ProcessorPatch, neighbours: seq<int>, faces: seq<seq<int>>,
                       points: seq<Point>, bottomPointId: int)
    returns (sendFaces: seq<seq<int>>, sendNeighbours: seq<int>, sendPoints: seq<Point>)
    requires |neighbours| == |faces|
    requires procPatch.localFaceIds == ProcessorPatches.InRangeIndices(neighbours, procPatch.slice.bottom, procPatch.slice.top)
    requires forall f, x :: f in faces && x in f && x >= bottomPointId ==> x < bottomPointId + |points|
    modifies procPatch
    ensures procPatch.id == old(procPatch.id) && procPatch.slice == old(procPatch.slice)
    ensures procPatch.localFaceIds == old(procPatch.localFaceIds)
    ensures procPatch.procBoundaryName == old(procPatch.procBoundaryName)
    ensures sendFaces == ProcessorPatches.Extractor(faces, procPatch.localFaceIds)
    ensures sendNeighbours == ProcessorPatches.Extractor(neighbours, procPatch.localFaceIds)
    ensures procPatch.localPointIds == ProcessorPatches.PatchPointIds(sendFaces, bottomPointId)
    ensures |sendPoints| == |procPatch.localPointIds|
    ensures forall k :: 0 <= k < |sendPoints| ==>
              0 <= procPatch.localPointIds[k] < |points| && sendPoints[k] == points[procPatch.localPointIds[k]]
  {
    sendFaces := procPatch.ExtractFaces(faces);
    procPatch.DeterminePointIds(sendFaces, bottomPointId);
    sendNeighbours := procPatch.ExtractFaces(neighbours);
    forall f, x | f in sendFaces && x in f && x >= bottomPointId
      ensures x < bottomPointId + |points|
    {
      var k :| 0 <= k < |sendFaces| && sendFaces[k] == f;
      assert f in faces;
    }
    PatchPointsWithin(sendFaces, bottomPointId, |points|);
    sendPoints := procPatch.ExtractPoints(points);
  }

  /** encodePatch on a copy of the neighbour list. */
  method EncodeNeighbours(procPatch: ProcessorPatches.ProcessorPatch, neighbours: seq<int>) returns (encoded: seq<int>)
    ensures encoded == ProcessorPatches.Encoded(neighbours, procPatch.slice.bottom, procPatch.slice.top, procPatch.id)
  {
    var list := new int[|neighbours|](i requires 0 <= i < |neighbours| => neighbours[i]);
    assert list[..] == neighbours;
    procPatch.EncodePatch(list);
    encoded := list[..];
  }

  /** The local point ids of a patch over faces whose points at or above
      the bottom lie below bottom + n index a point list of length n. */
  lemma PatchPointsWithin(faces: seq<seq<int>>, bottom: int, n: int)
    requires forall f, x :: f in faces && x in f && x >= bottom ==> x < bottom + n
    ensures forall k :: 0 <= k < |ProcessorPatches.PatchPointIds(faces, bottom)| ==>
              0 <= ProcessorPatches.PatchPointIds(faces, bottom)[k] < n
  {
    var ids := ProcessorPatches.PatchPointIds(faces, bottom);
    forall k | 0 <= k < |ids|
      ensures 0 <= ids[k] < n
    {
      ProcessorPatches.PatchPointIdsSpec(faces, bottom, ids[k]);
    }
  }

  // ----- face exchange messages ----------------------------------------------

  /** What sendSliceFaces sends to a higher partition: the shared faces,
      their neighbour cells (the receiver's owners) and the points of this
      partition they use. */
  datatype SliceFacesMessage = SliceFacesMessage(faces: seq<seq<int>>, cells: seq<int>, points: seq<Point>)

  /** The faces a sequence of received messages appends, each reversed. */
  function ReceivedFaces(msgs: seq<SliceFacesMessage>): (r: seq<seq<int>>)
    ensures msgs == [] ==> r == []
  {
    if |msgs| == 0 then [] else ReceivedFaces(msgs[..|msgs| - 1]) + MeshLayout.ReverseFaces(msgs[|msgs| - 1].faces)
  }

  /** The points a sequence of received messages appends. */
  function ReceivedPoints(msgs: seq<SliceFacesMessage>): (r: seq<Point>)
    ensures msgs == [] ==> r == []
  {
    if |msgs| == 0 then [] else ReceivedPoints(msgs[..|msgs| - 1]) + msgs[|msgs| - 1].points
  }

  /** One more message appends its reversed faces and its points. */
  lemma ReceivedSnoc(msgs: seq<SliceFacesMessage>, i: nat)
    requires i < |msgs|
    ensures ReceivedFaces(msgs[..i + 1]) == ReceivedFaces(msgs[..i]) + MeshLayout.ReverseFaces(msgs[i].faces)
    ensures ReceivedPoints(msgs[..i + 1]) == ReceivedPoints(msgs[..i]) + msgs[i].points
  {
    assert msgs[..i + 1][..i] == msgs[..i];
  }

  /** The partners of commSlicePatches are above this partition, each with
      a positive face count, in ascending order. */
  lemma UpperPartners(pairs: seq<(int, int)>, myProcNo: nat, ids: seq<int>)
    requires myProcNo < |pairs|
    ensures var sizes := Sizes(Selected(UpperSlices(pairs, myProcNo), ids));
            (forall k :: 0 <= k < |sizes| ==> myProcNo < sizes[k].0 < |pairs| && sizes[k].1 > 0)
            && (forall k, l :: 0 <= k < l < |sizes| ==> sizes[k].0 < sizes[l].0)
  {
    UpperSelection(pairs, myProcNo, ids);
  }

  /** The partitions of a (partition, size) list. */
  function Partners(sizes: seq<(int, int)>): (r: seq<int>)
    ensures |r| == |sizes| && forall k :: 0 <= k < |r| ==> r[k] == sizes[k].0
  {
    seq(|sizes|, k requires 0 <= k < |sizes| => sizes[k].0)
  }

  lemma PartnersSnoc(sizes: seq<(int, int)>, i: nat)
    requires i < |sizes|
    ensures Partners(sizes[..i + 1]) == Partners(sizes[..i]) + [sizes[i].0]
  {
  }

  lemma AppendAssociates<T>(a: seq<T>, b: seq<T>, c: seq<T>)
    ensures (a + b) + c == a + (b + c)
  {
  }

  // ----- surface field mappings ----------------------------------------------

  /** The neighbours initializeSurfaceFieldMappings plans with: those of the
      internal faces, in the order of the fragment permutation built on the
      mesh's neighbours. */
  function InternalNeighbours(nb: seq<int>): seq<int>
  {
    InternalNeighboursFrom(nb, 1)
  }

  /** The definition of InternalNeighbours, one recursive step down so that a
      contract naming InternalNeighbours does not unfold it into every proof about the
      mesh (the verifier unfolds a recursive function only one level at a
      time); InternalNeighboursIs states it where a proof needs it. */
  function InternalNeighboursFrom(nb: seq<int>, steps: nat): seq<int>
  {
    if steps == 0 then
      var nap := FragmentPermutations.NeighboursAndPatches(nb);
      nap[..FragmentPermutations.PatchBegin(nap, 0)]
    else InternalNeighboursFrom(nb, steps - 1)
  }

  lemma InternalNeighboursIs(nb: seq<int>)
    ensures InternalNeighbours(nb) == FragmentPermutations.NeighboursAndPatches(nb)[..FragmentPermutations.PatchBegin(FragmentPermutations.NeighboursAndPatches(nb), 0)]
  {
    assert InternalNeighboursFrom(nb, 0) == FragmentPermutations.NeighboursAndPatches(nb)[..FragmentPermutations.PatchBegin(FragmentPermutations.NeighboursAndPatches(nb), 0)];
  }

  /** procPatchIDsAndSizes: (partner, shared internal faces) for every
      partition above myProcNo that an internal face neighbours. */
  function SurfacePlan(pairs: seq<(int, int)>, myProcNo: nat, nb: seq<int>): seq<(int, int)>
    requires myProcNo < |pairs|
  {
    SurfacePlanFrom(pairs, myProcNo, nb, 1)
  }

  /** The definition of SurfacePlan, one recursive step down so that a
      contract naming SurfacePlan does not unfold it into every proof about the
      mesh (the verifier unfolds a recursive function only one level at a
      time); SurfacePlanIs states it where a proof needs it. */
  function SurfacePlanFrom(pairs: seq<(int, int)>, myProcNo: nat, nb: seq<int>, steps: nat): seq<(int, int)>
    requires myProcNo < |pairs|
  {
    if steps == 0 then Sizes(Selected(UpperSlices(pairs, myProcNo), InternalNeighbours(nb)))
    else SurfacePlanFrom(pairs, myProcNo, nb, steps - 1)
  }

  lemma SurfacePlanIs(pairs: seq<(int, int)>, myProcNo: nat, nb: seq<int>)
    requires myProcNo < |pairs|
    ensures SurfacePlan(pairs, myProcNo, nb) == Sizes(Selected(UpperSlices(pairs, myProcNo), InternalNeighbours(nb)))
  {
    assert SurfacePlanFrom(pairs, myProcNo, nb, 0) == Sizes(Selected(UpperSlices(pairs, myProcNo), InternalNeighbours(nb)));
  }

  predicate PartnersIn(parts: seq<int>, n: int)
  {
    forall k :: 0 <= k < |parts| ==> 0 <= parts[k] < n
  }

  /** The face ids of the processor patch towards partition p. */
  function PatchFaces(nb: seq<int>, pairs: seq<(int, int)>, p: int): seq<int>
    requires 0 <= p < |pairs|
  {
    ProcessorPatches.InRangeIndices(nb, pairs[p].0, pairs[p].1)
  }

  /** internalFaceIDs_ before the sort: the face ids of the patches towards
      `parts`, patch after patch. */
  function CollectedFaces(nb: seq<int>, pairs: seq<(int, int)>, parts: seq<int>): seq<int>
    requires PartnersIn(parts, |pairs|)
  {
    if |parts| == 0 then []
    else CollectedFaces(nb, pairs, parts[..|parts| - 1]) + PatchFaces(nb, pairs, parts[|parts| - 1])
  }

  /** procBoundaryIDs_ before the sort: the k-th patch's number, first + k,
      once for every face of that patch. */
  function CollectedNumbers(nb: seq<int>, pairs: seq<(int, int)>, parts: seq<int>, first: int): seq<int>
    requires PartnersIn(parts, |pairs|)
  {
    if |parts| == 0 then []
    else CollectedNumbers(nb, pairs, parts[..|parts| - 1], first)
         + Repeated(|PatchFaces(nb, pairs, parts[|parts| - 1])|, first + |parts| - 1)
  }

  /** n copies of v. */
  function Repeated(n: nat, v: int): (r: seq<int>)
    ensures |r| == n && forall j :: 0 <= j < n ==> r[j] == v
  {
    seq(n, _ => v)
  }

  /** std::accumulate of the sizes. */
  function TotalSize(sizes: seq<(int, int)>): int
  {
    if |sizes| == 0 then 0 else TotalSize(sizes[..|sizes| - 1]) + sizes[|sizes| - 1].1
  }

  /** `data` gathered through permutationOfSorted(keys), as applyPermutation
      leaves it. The definition sits one recursive step down, in
      SortedAlongFrom, so that a contract naming SortedAlong does not pull
      the whole argsort into every proof about the mesh; SortedAlongIs
      states it where a proof needs it. */
  function SortedAlong<T>(keys: seq<int>, data: seq<T>): (r: seq<T>)
    requires |data| == |keys|
    ensures |r| == |keys|
  {
    SortedAlongFrom(keys, data, 1)
  }

  function SortedAlongFrom<T>(keys: seq<int>, data: seq<T>, steps: nat): (r: seq<T>)
    requires |data| == |keys|
    ensures |r| == |keys|
  {
    if steps == 0 then SliceHelpers.Permuted(data, SliceHelpers.PermutationOfSorted(keys))
    else SortedAlongFrom(keys, data, steps - 1)
  }

  lemma SortedAlongIs<T>(keys: seq<int>, data: seq<T>)
    requires |data| == |keys|
    ensures SortedAlong(keys, data) == SliceHelpers.Permuted(data, SliceHelpers.PermutationOfSorted(keys))
  {
    assert SortedAlongFrom(keys, data, 0) == SliceHelpers.Permuted(data, SliceHelpers.PermutationOfSorted(keys));
  }

  /** Face f and patch number n belong together: n numbers one of the
      patches, and f is an internal face whose neighbour lies in that
      patch's partner partition. */
  predicate Belongs(nb: seq<int>, pairs: seq<(int, int)>, parts: seq<int>, first: int, f: int, n: int)
  {
    first <= n < first + |parts| && 0 <= parts[n - first] < |pairs|
    && 0 <= f < |nb| && pairs[parts[n - first]].0 <= nb[f] < pairs[parts[n - first]].1
  }

  /** There is one patch number per collected face. */
  lemma {:induction false} CollectedLengths(nb: seq<int>, pairs: seq<(int, int)>, parts: seq<int>, first: int)
    requires PartnersIn(parts, |pairs|)
    ensures |CollectedFaces(nb, pairs, parts)| == |CollectedNumbers(nb, pairs, parts, first)|
  {
    if |parts| > 0 {
      CollectedLengths(nb, pairs, parts[..|parts| - 1], first);
    }
  }

  /** Position by position, the collected faces and patch numbers belong
      together. */
  lemma {:induction false} CollectedTogether(nb: seq<int>, pairs: seq<(int, int)>, parts: seq<int>, first: int)
    requires PartnersIn(parts, |pairs|)
    ensures |CollectedFaces(nb, pairs, parts)| == |CollectedNumbers(nb, pairs, parts, first)|
    ensures forall i :: 0 <= i < |CollectedFaces(nb, pairs, parts)| ==>
              Belongs(nb, pairs, parts, first, CollectedFaces(nb, pairs, parts)[i], CollectedNumbers(nb, pairs, parts, first)[i])
  {
    if |parts| > 0 {
      var init := parts[..|parts| - 1];
      var p := parts[|parts| - 1];
      CollectedTogether(nb, pairs, init, first);
      ProcessorPatches.InRangeIndicesSpec(nb, pairs[p].0, pairs[p].1);
      var faces0, numbers0 := CollectedFaces(nb, pairs, init), CollectedNumbers(nb, pairs, init, first);
      var faces, numbers := CollectedFaces(nb, pairs, parts), CollectedNumbers(nb, pairs, parts, first);
      forall i | 0 <= i < |faces|
        ensures Belongs(nb, pairs, parts, first, faces[i], numbers[i])
      {
        if i < |faces0| {
          assert faces[i] == faces0[i] && numbers[i] == numbers0[i];
          assert Belongs(nb, pairs, init, first, faces0[i], numbers0[i]);
        } else {
          assert faces[i] == PatchFaces(nb, pairs, p)[i - |faces0|];
          assert numbers[i] == first + |parts| - 1;
        }
      }
    }
  }

  /** Every face of the k-th patch is collected with the k-th number. */
  lemma {:induction false} CollectedCover(nb: seq<int>, pairs: seq<(int, int)>, parts: seq<int>, first: int, k: nat, f: int)
    requires PartnersIn(parts, |pairs|) && k < |parts|
    requires 0 <= f < |nb| && pairs[parts[k]].0 <= nb[f] < pairs[parts[k]].1
    ensures exists i :: 0 <= i < |CollectedFaces(nb, pairs, parts)| && i < |CollectedNumbers(nb, pairs, parts, first)|
              && CollectedFaces(nb, pairs, parts)[i] == f && CollectedNumbers(nb, pairs, parts, first)[i] == first + k
  {
    var init := parts[..|parts| - 1];
    if k < |init| {
      CollectedCover(nb, pairs, init, first, k, f);
      var faces0, numbers0 := CollectedFaces(nb, pairs, init), CollectedNumbers(nb, pairs, init, first);
      var i :| 0 <= i < |faces0| && i < |numbers0| && faces0[i] == f && numbers0[i] == first + k;
      assert CollectedFaces(nb, pairs, parts)[i] == f;
      assert CollectedNumbers(nb, pairs, parts, first)[i] == first + k;
    } else {
      CollectedCoverLast(nb, pairs, parts, first, f);
    }
  }

  /** Every face of the last patch is collected with the last number. */
  lemma CollectedCoverLast(nb: seq<int>, pairs: seq<(int, int)>, parts: seq<int>, first: int, f: int)
    requires PartnersIn(parts, |pairs|) && 0 < |parts|
    requires 0 <= f < |nb| && pairs[parts[|parts| - 1]].0 <= nb[f] < pairs[parts[|parts| - 1]].1
    ensures exists i :: 0 <= i < |CollectedFaces(nb, pairs, parts)| && i < |CollectedNumbers(nb, pairs, parts, first)|
              && CollectedFaces(nb, pairs, parts)[i] == f && CollectedNumbers(nb, pairs, parts, first)[i] == first + |parts| - 1
  {
    var init := parts[..|parts| - 1];
    var p := parts[|parts| - 1];
    var faces0 := CollectedFaces(nb, pairs, init);
    CollectedLengths(nb, pairs, init, first);
    ProcessorPatches.InRangeIndicesSpec(nb, pairs[p].0, pairs[p].1);
    var j :| 0 <= j < |PatchFaces(nb, pairs, p)| && PatchFaces(nb, pairs, p)[j] == f;
    assert CollectedFaces(nb, pairs, parts)[|faces0| + j] == f;
    assert CollectedNumbers(nb, pairs, parts, first)[|faces0| + j] == first + |parts| - 1;
  }

  /** A prefix of the partners collects no more faces. */
  lemma {:induction false} CollectedPrefix(nb: seq<int>, pairs: seq<(int, int)>, parts: seq<int>, i: nat)
    requires PartnersIn(parts, |pairs|) && i <= |parts|
    ensures |CollectedFaces(nb, pairs, parts[..i])| <= |CollectedFaces(nb, pairs, parts)|
    decreases |parts|
  {
    if i < |parts| {
      CollectedPrefix(nb, pairs, parts[..|parts| - 1], i);
      assert parts[..|parts| - 1][..i] == parts[..i];
    } else {
      assert parts[..i] == parts;
    }
  }

  /** Collecting one more partner appends its patch's faces and numbers. */
  lemma CollectedSnoc(nb: seq<int>, pairs: seq<(int, int)>, parts: seq<int>, p: int, first: int)
    requires PartnersIn(parts, |pairs|) && 0 <= p < |pairs|
    ensures PartnersIn(parts + [p], |pairs|)
    ensures CollectedFaces(nb, pairs, parts + [p]) == CollectedFaces(nb, pairs, parts) + PatchFaces(nb, pairs, p)
    ensures CollectedNumbers(nb, pairs, parts + [p], first)
            == CollectedNumbers(nb, pairs, parts, first) + Repeated(|PatchFaces(nb, pairs, p)|, first + |parts|)
  {
    assert (parts + [p])[..|parts|] == parts;
  }

  /** One more planned partner: its patch's faces and numbers follow those
      of the partners before it, within all that the plan collects. */
  lemma CollectedStep(nb: seq<int>, pairs: seq<(int, int)>, sizes: seq<(int, int)>, i: nat, first: int, parts: seq<int>)
    requires i < |sizes| && PartnersIn(Partners(sizes), |pairs|)
    ensures PartnersIn(Partners(sizes[..i]), |pairs|) && PartnersIn(Partners(sizes[..i + 1]), |pairs|)
    ensures 0 <= sizes[i].0 < |pairs| && |Partners(sizes[..i])| == i
    ensures parts + Partners(sizes[..i + 1]) == (parts + Partners(sizes[..i])) + [sizes[i].0]
    ensures CollectedFaces(nb, pairs, Partners(sizes[..i + 1]))
            == CollectedFaces(nb, pairs, Partners(sizes[..i])) + PatchFaces(nb, pairs, sizes[i].0)
    ensures CollectedNumbers(nb, pairs, Partners(sizes[..i + 1]), first)
            == CollectedNumbers(nb, pairs, Partners(sizes[..i]), first) + Repeated(|PatchFaces(nb, pairs, sizes[i].0)|, first + i)
    ensures |CollectedFaces(nb, pairs, Partners(sizes[..i + 1]))| <= |CollectedFaces(nb, pairs, Partners(sizes))|
  {
    PartnersSnoc(sizes, i);
    assert Partners(sizes)[..i + 1] == Partners(sizes[..i + 1]);
    CollectedPrefix(nb, pairs, Partners(sizes), i + 1);
    CollectedSnoc(nb, pairs, Partners(sizes[..i]), sizes[i].0, first);
    AppendAssociates(parts, Partners(sizes[..i]), [sizes[i].0]);
  }

  /** The accumulated sizes are the number of collected faces: the two
      lists are resized exactly to what the patches fill. */
  lemma {:induction false} TotalSizeCollected(nb: seq<int>, pairs: seq<(int, int)>, sizes: seq<(int, int)>)
    requires forall k :: 0 <= k < |sizes| ==> 0 <= sizes[k].0 < |pairs|
    requires forall k :: 0 <= k < |sizes| ==> sizes[k].1 == |PatchFaces(nb, pairs, sizes[k].0)|
    ensures PartnersIn(Partners(sizes), |pairs|)
    ensures TotalSize(sizes) == |CollectedFaces(nb, pairs, Partners(sizes))|
  {
    if |sizes| > 0 {
      var init := sizes[..|sizes| - 1];
      TotalSizeCollected(nb, pairs, init);
      PartnersSnoc(sizes, |sizes| - 1);
      assert sizes[..|sizes|] == sizes;
      CollectedSnoc(nb, pairs, Partners(init), sizes[|sizes| - 1].0, 0);
    }
  }

  /** The plan's partners lie above myProcNo and each size is the number of
      faces of the patch towards that partner. */
  lemma PlanSizes(pairs: seq<(int, int)>, myProcNo: nat, nb: seq<int>)
    requires myProcNo < |pairs|
    ensures forall k :: 0 <= k < |SurfacePlan(pairs, myProcNo, nb)| ==>
              myProcNo < SurfacePlan(pairs, myProcNo, nb)[k].0 < |pairs|
              && SurfacePlan(pairs, myProcNo, nb)[k].1
                 == |PatchFaces(InternalNeighbours(nb), pairs, SurfacePlan(pairs, myProcNo, nb)[k].0)|
  {
    var ids := InternalNeighbours(nb);
    var plan := SurfacePlan(pairs, myProcNo, nb);
    SurfacePlanIs(pairs, myProcNo, nb);
    UpperSelection(pairs, myProcNo, ids);
    forall k | 0 <= k < |plan|
      ensures plan[k].1 == |PatchFaces(ids, pairs, plan[k].0)|
    {
      var p := plan[k].0;
      SharedCountIsPatchSize(ids, pairs[p].0, pairs[p].1);
      ProcessorPatches.InRangeIndicesSpec(ids, pairs[p].0, pairs[p].1);
    }
  }

  /** The planned partners all number partitions. */
  lemma PlanPartnersIn(pairs: seq<(int, int)>, myProcNo: nat, nb: seq<int>)
    requires myProcNo < |pairs|
    ensures PartnersIn(Partners(SurfacePlan(pairs, myProcNo, nb)), |pairs|)
  {
    PlanSizes(pairs, myProcNo, nb);
  }

  /** internalFaceIDs_ once initializeSurfaceFieldMappings is done. */
  function MappedFaces(pairs: seq<(int, int)>, myProcNo: nat, nb: seq<int>): seq<int>
    requires myProcNo < |pairs|
  {
    PlanPartnersIn(pairs, myProcNo, nb);
    var faces := CollectedFaces(InternalNeighbours(nb), pairs, Partners(SurfacePlan(pairs, myProcNo, nb)));
    SortedAlong(faces, faces)
  }

  /** procBoundaryIDs_ once initializeSurfaceFieldMappings is done, the
      first patch being numbered `first`. */
  function MappedNumbers(pairs: seq<(int, int)>, myProcNo: nat, nb: seq<int>, first: int): seq<int>
    requires myProcNo < |pairs|
  {
    PlanPartnersIn(pairs, myProcNo, nb);
    var parts := Partners(SurfacePlan(pairs, myProcNo, nb));
    var ids := InternalNeighbours(nb);
    CollectedLengths(ids, pairs, parts, first);
    SortedAlong(CollectedFaces(ids, pairs, parts), CollectedNumbers(ids, pairs, parts, first))
  }

  /** What the fill of initializeSurfaceFieldMappings needs of its plan:
      real partners, and sizes adding up to the faces collected. */
  lemma PlanReady(pairs: seq<(int, int)>, myProcNo: nat, nb: seq<int>)
    requires myProcNo < |pairs|
    ensures forall k :: 0 <= k < |SurfacePlan(pairs, myProcNo, nb)| ==> myProcNo < SurfacePlan(pairs, myProcNo, nb)[k].0 < |pairs|
    ensures PartnersIn(Partners(SurfacePlan(pairs, myProcNo, nb)), |pairs|)
    ensures TotalSize(SurfacePlan(pairs, myProcNo, nb))
            == |CollectedFaces(InternalNeighbours(nb), pairs, Partners(SurfacePlan(pairs, myProcNo, nb)))|
  {
    PlanSizes(pairs, myProcNo, nb);
    TotalSizeCollected(InternalNeighbours(nb), pairs, SurfacePlan(pairs, myProcNo, nb));
  }

  /** MappedFaces and MappedNumbers spelled out. */
  lemma MappedIs(pairs: seq<(int, int)>, myProcNo: nat, nb: seq<int>, first: int)
    requires myProcNo < |pairs|
    ensures PartnersIn(Partners(SurfacePlan(pairs, myProcNo, nb)), |pairs|)
    ensures |CollectedNumbers(InternalNeighbours(nb), pairs, Partners(SurfacePlan(pairs, myProcNo, nb)), first)|
            == |CollectedFaces(InternalNeighbours(nb), pairs, Partners(SurfacePlan(pairs, myProcNo, nb)))|
    ensures MappedFaces(pairs, myProcNo, nb)
            == SortedAlong(CollectedFaces(InternalNeighbours(nb), pairs, Partners(SurfacePlan(pairs, myProcNo, nb))),
                           CollectedFaces(InternalNeighbours(nb), pairs, Partners(SurfacePlan(pairs, myProcNo, nb))))
    ensures MappedNumbers(pairs, myProcNo, nb, first)
            == SortedAlong(CollectedFaces(InternalNeighbours(nb), pairs, Partners(SurfacePlan(pairs, myProcNo, nb))),
                           CollectedNumbers(InternalNeighbours(nb), pairs, Partners(SurfacePlan(pairs, myProcNo, nb)), first))
  {
    PlanPartnersIn(pairs, myProcNo, nb);
    CollectedLengths(InternalNeighbours(nb), pairs, Partners(SurfacePlan(pairs, myProcNo, nb)), first);
  }

  /** Sorting by the keys leaves the keys non-decreasing. */
  lemma SortedAlongAscending(keys: seq<int>)
    ensures forall i, j :: 0 <= i < j < |keys| ==> SortedAlong(keys, keys)[i] <= SortedAlong(keys, keys)[j]
  {
    var perm := SliceHelpers.PermutationOfSorted(keys);
    SortedAlongIs(keys, keys);
    var sk := SortedAlong(keys, keys);
    forall i, j | 0 <= i < j < |keys|
      ensures sk[i] <= sk[j]
    {
      assert sk[i] == keys[perm[i]] && sk[j] == keys[perm[j]];
    }
  }

  /** Cell c belongs to a partition above myProcNo. */
  ghost predicate CellAbove(pairs: seq<(int, int)>, myProcNo: nat, c: int)
  {
    exists p :: myProcNo < p < |pairs| && pairs[p].0 <= c < pairs[p].1
  }

  /** Each listed face sits beside the number of a patch whose partner, a
      partition above myProcNo, holds its neighbour. */
  lemma MappedWithin(pairs: seq<(int, int)>, myProcNo: nat, nb: seq<int>, first: int)
    requires myProcNo < |pairs|
    ensures |MappedFaces(pairs, myProcNo, nb)| == |MappedNumbers(pairs, myProcNo, nb, first)|
    ensures forall i :: 0 <= i < |MappedFaces(pairs, myProcNo, nb)| ==>
              Belongs(InternalNeighbours(nb), pairs, Partners(SurfacePlan(pairs, myProcNo, nb)), first,
                      MappedFaces(pairs, myProcNo, nb)[i], MappedNumbers(pairs, myProcNo, nb, first)[i])
  {
    PlanSizes(pairs, myProcNo, nb);
    var ids := InternalNeighbours(nb);
    var parts := Partners(SurfacePlan(pairs, myProcNo, nb));
    var faces, numbers := CollectedFaces(ids, pairs, parts), CollectedNumbers(ids, pairs, parts, first);
    CollectedTogether(ids, pairs, parts, first);
    var perm := SliceHelpers.PermutationOfSorted(faces);
    SortedAlongIs(faces, faces);
    SortedAlongIs(faces, numbers);
    var mapped, mappedNumbers := SortedAlong(faces, faces), SortedAlong(faces, numbers);
    forall i | 0 <= i < |faces|
      ensures Belongs(ids, pairs, parts, first, mapped[i], mappedNumbers[i])
    {
      var j := perm[i];
      assert mapped[i] == faces[j] && mappedNumbers[i] == numbers[j];
      assert Belongs(ids, pairs, parts, first, faces[j], numbers[j]);
    }
  }

  /** Sorting by the keys loses no key. */
  lemma SortedAlongKeeps(keys: seq<int>, i: nat)
    requires i < |keys|
    ensures keys[i] in SortedAlong(keys, keys)
  {
    var perm := SliceHelpers.PermutationOfSorted(keys);
    SliceHelpers.PermutationOfSortedIsPermutation(keys, i);
    SortedAlongIs(keys, keys);
    var j :| 0 <= j < |perm| && perm[j] == i;
    assert SortedAlong(keys, keys)[j] == keys[i];
  }

  /** A partition above myProcNo that an internal face neighbours is
      planned. */
  lemma PlanCovers(pairs: seq<(int, int)>, myProcNo: nat, nb: seq<int>, f: int, p: int)
    requires myProcNo < p < |pairs|
    requires 0 <= f < |InternalNeighbours(nb)| && pairs[p].0 <= InternalNeighbours(nb)[f] < pairs[p].1
    ensures exists k :: 0 <= k < |SurfacePlan(pairs, myProcNo, nb)| && SurfacePlan(pairs, myProcNo, nb)[k].0 == p
  {
    var ids := InternalNeighbours(nb);
    var bottom, top := pairs[p].0, pairs[p].1;
    ProcessorPatches.InRangeIndicesSpec(ids, bottom, top);
    assert f in ProcessorPatches.InRangeIndices(ids, bottom, top);
    SharedCountIsPatchSize(ids, bottom, top);
    assert SharedIds(ids, SliceRange(p, bottom, top)) == SharedIds(ids, SliceRange(0, bottom, top));
    var sel := Selected(UpperSlices(pairs, myProcNo), ids);
    UpperSelection(pairs, myProcNo, ids);
    assert CoversWindow(sel, ids, pairs, myProcNo + 1, |pairs|);
    var k :| 0 <= k < |sel| && sel[k].0 == p;
    SurfacePlanIs(pairs, myProcNo, nb);
    assert SurfacePlan(pairs, myProcNo, nb)[k].0 == p;
  }

  /** An internal face whose neighbour lies in a partition above myProcNo is
      listed. */
  lemma MappedCovers(pairs: seq<(int, int)>, myProcNo: nat, nb: seq<int>, f: int, p: int)
    requires myProcNo < p < |pairs|
    requires 0 <= f < |InternalNeighbours(nb)| && pairs[p].0 <= InternalNeighbours(nb)[f] < pairs[p].1
    ensures f in MappedFaces(pairs, myProcNo, nb)
  {
    PlanSizes(pairs, myProcNo, nb);
    var ids := InternalNeighbours(nb);
    var plan := SurfacePlan(pairs, myProcNo, nb);
    var parts := Partners(plan);
    var faces := CollectedFaces(ids, pairs, parts);
    PlanCovers(pairs, myProcNo, nb, f, p);
    var k :| 0 <= k < |plan| && plan[k].0 == p;
    CollectedCover(ids, pairs, parts, 0, k, f);
    var i :| 0 <= i < |faces| && faces[i] == f;
    SortedAlongKeeps(faces, i);
  }

  /** What initializeSurfaceFieldMappings leaves: both lists have the
      accumulated size, the face ids ascend, each face id sits beside the
      number of a patch whose partner holds its neighbour, and the listed
      faces are exactly the internal faces whose neighbour lies in a
      partition above myProcNo. */
  lemma SurfaceFieldMappings(pairs: seq<(int, int)>, myProcNo: nat, nb: seq<int>, first: int)
    requires myProcNo < |pairs|
    ensures |MappedFaces(pairs, myProcNo, nb)| == |MappedNumbers(pairs, myProcNo, nb, first)|
            == TotalSize(SurfacePlan(pairs, myProcNo, nb))
    ensures forall i, j :: 0 <= i < j < |MappedFaces(pairs, myProcNo, nb)| ==>
              MappedFaces(pairs, myProcNo, nb)[i] <= MappedFaces(pairs, myProcNo, nb)[j]
    ensures forall i :: 0 <= i < |MappedFaces(pairs, myProcNo, nb)| ==>
              Belongs(InternalNeighbours(nb), pairs, Partners(SurfacePlan(pairs, myProcNo, nb)), first,
                      MappedFaces(pairs, myProcNo, nb)[i], MappedNumbers(pairs, myProcNo, nb, first)[i])
    ensures forall f :: f in MappedFaces(pairs, myProcNo, nb) <==>
              0 <= f < |InternalNeighbours(nb)| && CellAbove(pairs, myProcNo, InternalNeighbours(nb)[f])
  {
    PlanSizes(pairs, myProcNo, nb);
    var ids := InternalNeighbours(nb);
    var plan := SurfacePlan(pairs, myProcNo, nb);
    TotalSizeCollected(ids, pairs, plan);
    SortedAlongAscending(CollectedFaces(ids, pairs, Partners(plan)));
    MappedWithin(pairs, myProcNo, nb, first);
    var mapped, numbers := MappedFaces(pairs, myProcNo, nb), MappedNumbers(pairs, myProcNo, nb, first);
    forall f | f in mapped
      ensures 0 <= f < |ids| && CellAbove(pairs, myProcNo, ids[f])
    {
      var i :| 0 <= i < |mapped| && mapped[i] == f;
      assert Belongs(ids, pairs, Partners(plan), first, mapped[i], numbers[i]);
      var p := Partners(plan)[numbers[i] - first];
      assert myProcNo < p < |pairs| && pairs[p].0 <= ids[f] < pairs[p].1;
    }
    forall f | 0 <= f < |ids| && CellAbove(pairs, myProcNo, ids[f])
      ensures f in mapped
    {
      var p :| myProcNo < p < |pairs| && pairs[p].0 <= ids[f] < pairs[p].1;
      MappedCovers(pairs, myProcNo, nb, f, p);
    }
  }

  /** std::copy of `src` into `dst` from position `at`. */
  method CopyAt(dst: array<int>, at: nat, src: seq<int>)
    requires at + |src| <= dst.Length
    modifies dst
    ensures dst[..at + |src|] == old(dst[..at]) + src
  {
    var k := 0;
    while k < |src|
      invariant 0 <= k <= |src|
      invariant forall j :: 0 <= j < at ==> dst[j] == old(dst[j])
      invariant forall j :: 0 <= j < k ==> dst[at + j] == src[j]
    {
      dst[at + k] := src[k];
      k := k + 1;
    }
    assert dst[..at + |src|] == old(dst[..at]) + src;
  }

  /** std::fill_n: `n` copies of `value` into `dst` from position `at`. */
  method FillAt(dst: array<int>, at: nat, n: nat, value: int)
    requires at + n <= dst.Length
    modifies dst
    ensures dst[..at + n] == old(dst[..at]) + Repeated(n, value)
  {
    var k := 0;
    while k < n
      invariant 0 <= k <= n
      invariant forall j :: 0 <= j < at ==> dst[j] == old(dst[j])
      invariant forall j :: at <= j < at + k ==> dst[j] == value
    {
      dst[at + k] := value;
      k := k + 1;
    }
    assert dst[..at + n] == old(dst[..at]) + Repeated(n, value);
  }

  /** The closing sort of initializeSurfaceFieldMappings: the face ids
      sorted, the patch numbers permuted alongside. */
  method SortMappings(faceIds: array<int>, patchIds: array<int>)
    requires faceIds != patchIds && faceIds.Length == patchIds.Length
    modifies faceIds, patchIds
    ensures faceIds[..] == SortedAlong(old(faceIds[..]), old(faceIds[..]))
    ensures patchIds[..] == SortedAlong(old(faceIds[..]), old(patchIds[..]))
  {
    var sortedPermutation := SliceHelpers.PermutationOfSorted(faceIds[..]);
    SliceHelpers.ApplyPermutation(faceIds, sortedPermutation);
    SliceHelpers.ApplyPermutation(patchIds, sortedPermutation);
    SortedAlongIs(old(faceIds[..]), old(faceIds[..]));
    SortedAlongIs(old(faceIds[..]), old(patchIds[..]));
  }

  // ----- the mesh ------------------------------------------------------------

  class CoherentMesh {
    const myProcNo: nat
    const nProcs: nat
    var numBoundaries: int
    var globalNeighbours: seq<int>
    var localOwner: seq<int>
    var globalFaces: seq<seq<int>>
    var allPoints: seq<Point>
    /** cellOffsets_ and pointOffsets_: the (lower, upper) pair of every
        partition, copied out of the coherence tree. */
    const cellPairs: seq<(int, int)>
    const pointPairs: seq<(int, int)>
    const cellSlice: CoherentSlices.Slice
    const pointSlice: CoherentSlices.Slice
    var slicePatches: seq<ProcessorPatches.ProcessorPatch>
    var internalFaceIds: seq<int>
    var procBoundaryIds: seq<int>
    /** ProcessorPatch::instanceCount_, shared by every processor patch. */
    const counter: ProcessorPatches.InstanceCounter

    /** The offset tables describe this process and the two slices keep
        separate import maps. */
    predicate Tables()
    {
      CoherentOffsets.Chained(cellPairs, nProcs, myProcNo)
      && CoherentOffsets.Chained(pointPairs, nProcs, myProcNo)
      && cellSlice.imports != pointSlice.imports
    }

    /** The tables hold, and there is one neighbour and one owner per face. */
    ghost predicate Valid()
      reads this
    {
      Tables() && |globalNeighbours| == |globalFaces| == |localOwner|
    }

    /** Where this partition's points start. */
    function PointBottom(): int
      requires Tables()
    {
      pointPairs[myProcNo].0
    }

    /** Every face point at or above this partition's first point is one of
        the points held: true of the mesh as read, before any exchange. */
    ghost predicate PointsWithin()
      reads this
      requires Tables()
    {
      forall f, x :: f in globalFaces && x in f && x >= PointBottom() ==> x < PointBottom() + |allPoints|
    }

    /** readMesh after the coherence tree has been initialized: the owner
        list from the owner starts, the faces from the face starts, the
        points, the neighbours, the number of boundary patches reduced over
        all processes (the other processes' values are `peerNumBoundaries`),
        and the cell and point slices of this partition. */
    constructor ReadMesh(myProcNo: nat, nProcs: nat,
                         cellPairs: seq<(int, int)>, pointPairs: seq<(int, int)>,
                         counter: ProcessorPatches.InstanceCounter,
                         ownerStarts: seq<int>, faceStarts: seq<int>, linearizedFaces: seq<int>,
                         points: seq<Point>, neighbours: seq<int>, peerNumBoundaries: seq<int>)
      requires CoherentOffsets.Chained(cellPairs, nProcs, myProcNo)
      requires CoherentOffsets.Chained(pointPairs, nProcs, myProcNo)
      requires MeshLayout.RunStarts(ownerStarts)
      requires MeshLayout.WellFormedStarts(faceStarts, |linearizedFaces|)
      requires |neighbours| > 0 && |peerNumBoundaries| == nProcs
      requires |neighbours| == |faceStarts| - 1 == ownerStarts[|ownerStarts| - 1] - ownerStarts[0]
      ensures Valid()
      ensures this.myProcNo == myProcNo && this.nProcs == nProcs && this.counter == counter
      ensures this.cellPairs == cellPairs && this.pointPairs == pointPairs
      ensures MeshLayout.OwnerRuns(localOwner, ownerStarts)
      ensures globalFaces == MeshLayout.Deserialized(faceStarts, linearizedFaces)
      ensures allPoints == points && globalNeighbours == neighbours
      ensures numBoundaries == MeshLayout.MaxOf(peerNumBoundaries[myProcNo := MeshLayout.LocalNumBoundaries(neighbours)])
      ensures cellSlice.partition == myProcNo && pointSlice.partition == myProcNo
      ensures cellSlice.bottom == cellPairs[myProcNo].0 && cellSlice.top == cellPairs[myProcNo].1
      ensures pointSlice.bottom == pointPairs[myProcNo].0 && pointSlice.top == pointPairs[myProcNo].1
      ensures fresh(cellSlice.imports) && fresh(pointSlice.imports)
      ensures cellSlice.imports.mapping == map[] && pointSlice.imports.mapping == map[]
      ensures slicePatches == [] && internalFaceIds == [] && procBoundaryIds == []
    {
      this.myProcNo := myProcNo;
      this.nProcs := nProcs;
      this.cellPairs := cellPairs;
      this.pointPairs := pointPairs;
      this.counter := counter;
      var owner := MeshLayout.SerializeOwner(ownerStarts);
      var faces := MeshLayout.DeserializeFaces(faceStarts, linearizedFaces);
      localOwner := owner;
      globalFaces := faces;
      allPoints := points;
      numBoundaries := MeshLayout.MaxOf(peerNumBoundaries[myProcNo := MeshLayout.LocalNumBoundaries(neighbours)]);
      globalNeighbours := neighbours;
      cellSlice := new CoherentSlices.Slice(myProcNo, cellPairs[myProcNo].0, cellPairs[myProcNo].1);
      pointSlice := new CoherentSlices.Slice(myProcNo, pointPairs[myProcNo].0, pointPairs[myProcNo].1);
      slicePatches := [];
      internalFaceIds := [];
      procBoundaryIds := [];
    }

    /** sendSliceFaces(partition, _): builds the processor patch towards a
        higher partition, returns the faces, neighbours and points sent to
        it, turns the shared faces' neighbours into the patch id and keeps
        a copy of the patch. */
    method SendSliceFaces(partition: nat) returns (sendFaces: seq<seq<int>>, sendNeighbours: seq<int>, sendPoints: seq<Point>)
      requires Valid() && partition < nProcs && PointsWithin()
      modifies this, counter
      ensures Valid() && PointsWithin()
      ensures globalFaces == old(globalFaces) && localOwner == old(localOwner) && allPoints == old(allPoints)
      ensures numBoundaries == old(numBoundaries)
      ensures internalFaceIds == old(internalFaceIds) && procBoundaryIds == old(procBoundaryIds)
      ensures |slicePatches| == |old(slicePatches)| + 1 && slicePatches[..|old(slicePatches)|] == old(slicePatches)
      ensures counter.count == old(counter.count) + 1
      ensures var patch := slicePatches[|slicePatches| - 1];
              var bottom := cellPairs[partition].0;
              var top := cellPairs[partition].1;
              fresh(patch)
              && patch.slice.partition == partition
              && patch.procBoundaryName == ProcessorPatches.ProcBoundaryName(myProcNo, partition)
              && SliceHelpers.DecodeSlicePatchId(patch.id) == numBoundaries - 1 + counter.count
              && patch.localFaceIds == ProcessorPatches.InRangeIndices(old(globalNeighbours), bottom, top)
              && sendFaces == ProcessorPatches.Extractor(globalFaces, patch.localFaceIds)
              && sendNeighbours == ProcessorPatches.Extractor(old(globalNeighbours), patch.localFaceIds)
              && patch.localPointIds == ProcessorPatches.PatchPointIds(sendFaces, PointBottom())
              && |sendPoints| == |patch.localPointIds|
              && (forall k :: 0 <= k < |sendPoints| ==>
                    0 <= patch.localPointIds[k] < |allPoints| && sendPoints[k] == allPoints[patch.localPointIds[k]])
              && globalNeighbours == ProcessorPatches.Encoded(old(globalNeighbours), bottom, top, patch.id)
    {
      var slice := new CoherentSlices.Slice(partition, cellPairs[partition].0, cellPairs[partition].1);
      var kept, encoded;
      kept, sendFaces, sendNeighbours, sendPoints, encoded :=
        BuildSendPatch(slice, globalNeighbours, globalFaces, allPoints, PointBottom(),
                       numBoundaries, myProcNo, counter);
      globalNeighbours := encoded;
      slicePatches := slicePatches + [kept];
    }

    /** The stored copy of the processor patch that recvSliceFaces and
        initializeSurfaceFieldMappings build towards `partition` over the
        given neighbours: the patch is built, pushed back as a copy, and
        destroyed at the end of its scope. */
    method BuildKeptPatch(partition: nat, neighbours: seq<int>) returns (kept: ProcessorPatches.ProcessorPatch)
      requires Tables() && partition < nProcs
      modifies counter
      ensures counter.count == old(counter.count) + 1
      ensures fresh(kept)
      ensures kept.slice.partition == partition
      ensures kept.procBoundaryName == ProcessorPatches.ProcBoundaryName(myProcNo, partition)
      ensures SliceHelpers.DecodeSlicePatchId(kept.id) == numBoundaries - 1 + counter.count
      ensures kept.localFaceIds == ProcessorPatches.InRangeIndices(neighbours, cellPairs[partition].0, cellPairs[partition].1)
    {
      var slice := new CoherentSlices.Slice(partition, cellPairs[partition].0, cellPairs[partition].1);
      var procPatch := new ProcessorPatches.ProcessorPatch(slice, neighbours, numBoundaries, myProcNo, counter);
      kept := new ProcessorPatches.ProcessorPatch.Copy(procPatch, counter);
      procPatch.Destroy(counter);
    }

    /** The received owners converted to local cell ids through the cell
        slice, importing the foreign cells. */
    method ConvertRecvOwner(recvOwner: seq<int>) returns (converted: seq<int>)
      modifies cellSlice.imports
      ensures |converted| == |recvOwner|
      ensures forall i :: 0 <= i < |recvOwner| ==>
                converted[i] == cellSlice.Converted(old(cellSlice.imports.mapping), recvOwner[i])
      ensures cellSlice.imports.mapping == cellSlice.AfterConvertAll(old(cellSlice.imports.mapping), recvOwner)
    {
      var n := |recvOwner|;
      var owners := new int[n](i requires 0 <= i < n => recvOwner[i]);
      assert owners[..] == recvOwner;
      converted := cellSlice.ConvertList(owners);
    }

    /** The cell half of recvSliceFaces: the received faces appended
        reversed and their owners converted to local cell ids. */
    method AppendRecvCells(recvFaces: seq<seq<int>>, recvOwner: seq<int>)
      modifies this, cellSlice.imports
      ensures globalFaces == old(globalFaces) + MeshLayout.ReverseFaces(recvFaces)
      ensures |localOwner| == |old(localOwner)| + |recvOwner|
      ensures localOwner[..|old(localOwner)|] == old(localOwner)
      ensures forall i :: 0 <= i < |recvOwner| ==>
                localOwner[|old(localOwner)| + i] == cellSlice.Converted(old(cellSlice.imports.mapping), recvOwner[i])
      ensures cellSlice.imports.mapping == cellSlice.AfterConvertAll(old(cellSlice.imports.mapping), recvOwner)
      ensures allPoints == old(allPoints) && globalNeighbours == old(globalNeighbours)
      ensures numBoundaries == old(numBoundaries) && slicePatches == old(slicePatches)
      ensures internalFaceIds == old(internalFaceIds) && procBoundaryIds == old(procBoundaryIds)
    {
      globalFaces := globalFaces + MeshLayout.ReverseFaces(recvFaces);
      var converted := ConvertRecvOwner(recvOwner);
      localOwner := localOwner + converted;
    }

    /** recvSliceFaces(partition, numberOfPartitionFaces): appends the
        received faces reversed, their owners converted to local cell ids,
        imports the points of the partner's range they use and appends the
        same number of received points, and appends the patch id for the
        new faces to the neighbours. */
    method RecvSliceFaces(partition: nat, numberOfPartitionFaces: nat,
                          recvFaces: seq<seq<int>>, recvOwner: seq<int>, recvPoints: seq<Point>,
                          ghost parts: seq<int>)
      requires Valid() && partition < nProcs
      requires |recvFaces| == numberOfPartitionFaces && |recvOwner| == numberOfPartitionFaces
      requires |recvPoints| == |RecvPointIds(recvFaces, pointPairs[partition].0, pointPairs[partition].1)|
      modifies this, counter, cellSlice.imports, pointSlice.imports
      ensures Valid()
      ensures globalFaces == old(globalFaces) + MeshLayout.ReverseFaces(recvFaces)
      ensures |localOwner| == |old(localOwner)| + numberOfPartitionFaces
      ensures localOwner[..|old(localOwner)|] == old(localOwner)
      ensures forall i :: 0 <= i < numberOfPartitionFaces ==>
                localOwner[|old(localOwner)| + i] == cellSlice.Converted(old(cellSlice.imports.mapping), recvOwner[i])
      ensures cellSlice.imports.mapping == cellSlice.AfterConvertAll(old(cellSlice.imports.mapping), recvOwner)
      ensures pointSlice.imports.mapping
              == CoherentSlices.Appended(old(pointSlice.imports.mapping),
                                         RecvPointIds(recvFaces, pointPairs[partition].0, pointPairs[partition].1),
                                         pointSlice.imports.numNative + |old(pointSlice.imports.mapping)|)
      ensures allPoints == old(allPoints) + recvPoints
      ensures numBoundaries == old(numBoundaries)
      ensures internalFaceIds == old(internalFaceIds) && procBoundaryIds == old(procBoundaryIds)
      ensures |slicePatches| == |old(slicePatches)| + 1 && slicePatches[..|old(slicePatches)|] == old(slicePatches)
      ensures counter.count == old(counter.count) + 1
      ensures old(PatchPartners(parts)) ==> PatchPartners(parts + [partition])
      ensures var patch := slicePatches[|slicePatches| - 1];
              fresh(patch)
              && patch.slice.partition == partition
              && patch.procBoundaryName == ProcessorPatches.ProcBoundaryName(myProcNo, partition)
              && SliceHelpers.DecodeSlicePatchId(patch.id) == numBoundaries - 1 + counter.count
              && patch.localFaceIds == ProcessorPatches.InRangeIndices(old(globalNeighbours),
                                         cellPairs[partition].0, cellPairs[partition].1)
              && globalNeighbours == ProcessorPatches.AppendPatchIds(old(globalNeighbours), numberOfPartitionFaces, patch.id)
    {
      RecvFacesAndPoints(partition, recvFaces, recvOwner, recvPoints);
      RecvPatch(partition, numberOfPartitionFaces, parts);
    }

    /** The data half of recvSliceFaces: faces, owners, point ids, points. */
    method RecvFacesAndPoints(partition: nat, recvFaces: seq<seq<int>>, recvOwner: seq<int>, recvPoints: seq<Point>)
      requires Tables() && partition < nProcs
      modifies this, cellSlice.imports, pointSlice.imports
      ensures globalFaces == old(globalFaces) + MeshLayout.ReverseFaces(recvFaces)
      ensures |localOwner| == |old(localOwner)| + |recvOwner|
      ensures localOwner[..|old(localOwner)|] == old(localOwner)
      ensures forall i :: 0 <= i < |recvOwner| ==>
                localOwner[|old(localOwner)| + i] == cellSlice.Converted(old(cellSlice.imports.mapping), recvOwner[i])
      ensures cellSlice.imports.mapping == cellSlice.AfterConvertAll(old(cellSlice.imports.mapping), recvOwner)
      ensures pointSlice.imports.mapping
              == CoherentSlices.Appended(old(pointSlice.imports.mapping),
                                         RecvPointIds(recvFaces, pointPairs[partition].0, pointPairs[partition].1),
                                         pointSlice.imports.numNative + |old(pointSlice.imports.mapping)|)
      ensures allPoints == old(allPoints) + recvPoints
      ensures globalNeighbours == old(globalNeighbours) && numBoundaries == old(numBoundaries)
      ensures slicePatches == old(slicePatches)
      ensures internalFaceIds == old(internalFaceIds) && procBoundaryIds == old(procBoundaryIds)
    {
      RecvPoints(partition, recvFaces, recvPoints);
      AppendRecvCells(recvFaces, recvOwner);
    }

    /** The point half of recvSliceFaces: the point ids imported, then the
        received points appended. */
    method RecvPoints(partition: nat, recvFaces: seq<seq<int>>, recvPoints: seq<Point>)
      requires Tables() && partition < nProcs
      modifies this, pointSlice.imports
      ensures pointSlice.imports.mapping
              == CoherentSlices.Appended(old(pointSlice.imports.mapping),
                                         RecvPointIds(recvFaces, pointPairs[partition].0, pointPairs[partition].1),
                                         pointSlice.imports.numNative + |old(pointSlice.imports.mapping)|)
      ensures allPoints == old(allPoints) + recvPoints
      ensures globalFaces == old(globalFaces) && localOwner == old(localOwner)
      ensures globalNeighbours == old(globalNeighbours) && numBoundaries == old(numBoundaries)
      ensures slicePatches == old(slicePatches)
      ensures internalFaceIds == old(internalFaceIds) && procBoundaryIds == old(procBoundaryIds)
    {
      ImportRecvPoints(pointSlice, pointPairs[partition].0, pointPairs[partition].1, recvFaces);
      allPoints := allPoints + recvPoints;
    }

    /** The patch half of recvSliceFaces: the stored patch and the patch id
        appended once per received face. */
    method RecvPatch(partition: nat, numberOfPartitionFaces: nat, ghost parts: seq<int>)
      requires Tables() && partition < nProcs
      modifies this, counter
      ensures globalFaces == old(globalFaces) && localOwner == old(localOwner) && allPoints == old(allPoints)
      ensures numBoundaries == old(numBoundaries)
      ensures internalFaceIds == old(internalFaceIds) && procBoundaryIds == old(procBoundaryIds)
      ensures |slicePatches| == |old(slicePatches)| + 1 && slicePatches[..|old(slicePatches)|] == old(slicePatches)
      ensures counter.count == old(counter.count) + 1
      ensures old(PatchPartners(parts)) ==> PatchPartners(parts + [partition])
      ensures var patch := slicePatches[|slicePatches| - 1];
              fresh(patch)
              && patch.slice.partition == partition
              && patch.procBoundaryName == ProcessorPatches.ProcBoundaryName(myProcNo, partition)
              && SliceHelpers.DecodeSlicePatchId(patch.id) == numBoundaries - 1 + counter.count
              && patch.localFaceIds == ProcessorPatches.InRangeIndices(old(globalNeighbours),
                                         cellPairs[partition].0, cellPairs[partition].1)
              && globalNeighbours == ProcessorPatches.AppendPatchIds(old(globalNeighbours), numberOfPartitionFaces, patch.id)
    {
      ghost var patches0 := slicePatches;
      ghost var partnered := PatchPartners(parts);
      var kept := BuildKeptPatch(partition, globalNeighbours);
      globalNeighbours := ProcessorPatches.AppendPatchIds(globalNeighbours, numberOfPartitionFaces, kept.id);
      slicePatches := slicePatches + [kept];
      if partnered {
        forall j | 0 <= j < |parts| + 1
          ensures slicePatches[j].slice.partition == (parts + [partition])[j]
        {
          if j < |patches0| {
            assert slicePatches[j] == patches0[j];
          }
        }
      }
    }

    /** slicePatches_.clear(): every stored patch is destroyed. */
    method ClearSlicePatches()
      modifies this, counter
      ensures slicePatches == [] && counter.count == old(counter.count) - |old(slicePatches)|
      ensures globalNeighbours == old(globalNeighbours) && globalFaces == old(globalFaces)
      ensures localOwner == old(localOwner) && allPoints == old(allPoints)
      ensures numBoundaries == old(numBoundaries)
      ensures internalFaceIds == old(internalFaceIds) && procBoundaryIds == old(procBoundaryIds)
    {
      var i := 0;
      while i < |slicePatches|
        invariant 0 <= i <= |slicePatches| && slicePatches == old(slicePatches)
        invariant counter.count == old(counter.count) - i
        modifies counter
      {
        slicePatches[i].Destroy(counter);
        i := i + 1;
      }
      slicePatches := [];
    }

    /** A message received from `partition` with `numFaces` faces fits what
        recvSliceFaces reads: one owner per face and one point per imported
        point id. */
    predicate Receivable(partition: int, numFaces: int, msg: SliceFacesMessage)
      requires Tables()
    {
      0 <= partition < nProcs && 0 <= numFaces
      && |msg.faces| == numFaces && |msg.cells| == numFaces
      && |msg.points| == |RecvPointIds(msg.faces, pointPairs[partition].0, pointPairs[partition].1)|
    }

    /** The planning part of commSlicePatches: (partition, number of shared
        faces) for every partition above this one that neighbours a face. */
    method PlanSlicePatches() returns (sendSizes: seq<(int, int)>)
      requires Tables()
      ensures sendSizes == Sizes(Selected(UpperSlices(cellPairs, myProcNo), globalNeighbours))
    {
      var shared := SelectShared(UpperSlices(cellPairs, myProcNo), globalNeighbours);
      sendSizes := Sizes(shared);
    }

    /** The send loop of commSlicePatches: one processor patch per planned
        partner, stored in plan order, and the message sent to each. */
    method SendSlicePatches(sendSizes: seq<(int, int)>) returns (sent: seq<SliceFacesMessage>)
      requires Valid() && PointsWithin()
      requires forall k :: 0 <= k < |sendSizes| ==> 0 <= sendSizes[k].0 < nProcs
      modifies this, counter
      ensures Valid() && PointsWithin()
      ensures globalFaces == old(globalFaces) && localOwner == old(localOwner) && allPoints == old(allPoints)
      ensures numBoundaries == old(numBoundaries)
      ensures internalFaceIds == old(internalFaceIds) && procBoundaryIds == old(procBoundaryIds)
      ensures |slicePatches| == |old(slicePatches)| + |sendSizes|
      ensures slicePatches[..|old(slicePatches)|] == old(slicePatches)
      ensures counter.count == old(counter.count) + |sendSizes|
      ensures |sent| == |sendSizes|
      ensures forall k :: 0 <= k < |sendSizes| ==>
                var patch := slicePatches[|old(slicePatches)| + k];
                patch.slice.partition == sendSizes[k].0
                && |sent[k].faces| == |patch.localFaceIds|
                && |sent[k].cells| == |patch.localFaceIds|
                && |sent[k].points| == |patch.localPointIds|
    {
      sent := [];
      var i := 0;
      while i < |sendSizes|
        invariant 0 <= i <= |sendSizes| && |sent| == i
        invariant Valid() && PointsWithin()
        invariant globalFaces == old(globalFaces) && localOwner == old(localOwner) && allPoints == old(allPoints)
        invariant numBoundaries == old(numBoundaries)
        invariant internalFaceIds == old(internalFaceIds) && procBoundaryIds == old(procBoundaryIds)
        invariant |slicePatches| == |old(slicePatches)| + i
        invariant slicePatches[..|old(slicePatches)|] == old(slicePatches)
        invariant counter.count == old(counter.count) + i
        invariant forall k :: 0 <= k < i ==>
                    var patch := slicePatches[|old(slicePatches)| + k];
                    patch.slice.partition == sendSizes[k].0
                    && |sent[k].faces| == |patch.localFaceIds|
                    && |sent[k].cells| == |patch.localFaceIds|
                    && |sent[k].points| == |patch.localPointIds|
      {
        var msg := SendOne(sendSizes[i].0);
        sent := sent + [msg];
        i := i + 1;
      }
    }

    /** sendSliceFaces as the send loop sees it. */
    method SendOne(partition: nat) returns (msg: SliceFacesMessage)
      requires Valid() && partition < nProcs && PointsWithin()
      modifies this, counter
      ensures Valid() && PointsWithin()
      ensures globalFaces == old(globalFaces) && localOwner == old(localOwner) && allPoints == old(allPoints)
      ensures numBoundaries == old(numBoundaries)
      ensures internalFaceIds == old(internalFaceIds) && procBoundaryIds == old(procBoundaryIds)
      ensures |slicePatches| == |old(slicePatches)| + 1 && slicePatches[..|old(slicePatches)|] == old(slicePatches)
      ensures counter.count == old(counter.count) + 1
      ensures var patch := slicePatches[|slicePatches| - 1];
              patch.slice.partition == partition
              && |msg.faces| == |patch.localFaceIds| && |msg.cells| == |patch.localFaceIds|
              && |msg.points| == |patch.localPointIds|
    {
      var faces, cells, points := SendSliceFaces(partition);
      msg := SliceFacesMessage(faces, cells, points);
    }

    /** The stored patches face the given partitions, in order. */
    ghost predicate PatchPartners(parts: seq<int>)
      reads this, slicePatches
    {
      |slicePatches| == |parts| && forall j :: 0 <= j < |parts| ==> slicePatches[j].slice.partition == parts[j]
    }

    /** One turn of the receive loop of commSlicePatches: recvSliceFaces
        for the i-th partner, keeping the faces and points appended so far
        in message order and the patches in partner order. */
    method RecvNext(ghost faces0: seq<seq<int>>, ghost points0: seq<Point>, ghost parts: seq<int>,
                    recvSizes: seq<(int, int)>, received: seq<SliceFacesMessage>, i: nat)
      requires Valid() && i < |recvSizes| == |received|
      requires Receivable(recvSizes[i].0, recvSizes[i].1, received[i])
      requires globalFaces == faces0 + ReceivedFaces(received[..i])
      requires allPoints == points0 + ReceivedPoints(received[..i])
      requires PatchPartners(parts)
      modifies this, counter, cellSlice.imports, pointSlice.imports
      ensures Valid()
      ensures globalFaces == faces0 + ReceivedFaces(received[..i + 1])
      ensures allPoints == points0 + ReceivedPoints(received[..i + 1])
      ensures numBoundaries == old(numBoundaries)
      ensures internalFaceIds == old(internalFaceIds) && procBoundaryIds == old(procBoundaryIds)
      ensures PatchPartners(parts + [recvSizes[i].0])
      ensures counter.count == old(counter.count) + 1
    {
      var msg := received[i];
      ReceivedSnoc(received, i);
      RecvSliceFaces(recvSizes[i].0, recvSizes[i].1, msg.faces, msg.cells, msg.points, parts);
      AppendAssociates(faces0, ReceivedFaces(received[..i]), MeshLayout.ReverseFaces(msg.faces));
      AppendAssociates(points0, ReceivedPoints(received[..i]), msg.points);
    }

    /** The receive loop of commSlicePatches: the messages' faces and points
        appended in order, one processor patch per partner. */
    method RecvSlicePatches(ghost parts: seq<int>, recvSizes: seq<(int, int)>, received: seq<SliceFacesMessage>)
      requires Valid() && |received| == |recvSizes| && PatchPartners(parts)
      requires forall k :: 0 <= k < |recvSizes| ==> Receivable(recvSizes[k].0, recvSizes[k].1, received[k])
      modifies this, counter, cellSlice.imports, pointSlice.imports
      ensures Valid()
      ensures globalFaces == old(globalFaces) + ReceivedFaces(received)
      ensures allPoints == old(allPoints) + ReceivedPoints(received)
      ensures numBoundaries == old(numBoundaries)
      ensures internalFaceIds == old(internalFaceIds) && procBoundaryIds == old(procBoundaryIds)
      ensures PatchPartners(parts + Partners(recvSizes))
      ensures counter.count == old(counter.count) + |recvSizes|
    {
      var i := 0;
      while i < |recvSizes|
        invariant 0 <= i <= |recvSizes|
        invariant Valid()
        invariant globalFaces == old(globalFaces) + ReceivedFaces(received[..i])
        invariant allPoints == old(allPoints) + ReceivedPoints(received[..i])
        invariant numBoundaries == old(numBoundaries)
        invariant internalFaceIds == old(internalFaceIds) && procBoundaryIds == old(procBoundaryIds)
        invariant PatchPartners(parts + Partners(recvSizes[..i]))
        invariant counter.count == old(counter.count) + i
      {
        RecvNext(old(globalFaces), old(allPoints), parts + Partners(recvSizes[..i]), recvSizes, received, i);
        PartnersSnoc(recvSizes, i);
        AppendAssociates(parts, Partners(recvSizes[..i]), [recvSizes[i].0]);
        i := i + 1;
      }
      assert received[..|recvSizes|] == received;
      assert recvSizes[..|recvSizes|] == recvSizes;
    }

    /** The send and receive loops of commSlicePatches, run on an empty
        patch list. */
    method ExchangeSlicePatches(sendSizes: seq<(int, int)>, recvSizes: seq<(int, int)>, received: seq<SliceFacesMessage>)
      returns (sent: seq<SliceFacesMessage>)
      requires Valid() && PointsWithin() && |received| == |recvSizes| && slicePatches == []
      requires forall k :: 0 <= k < |sendSizes| ==> 0 <= sendSizes[k].0 < nProcs
      requires forall k :: 0 <= k < |recvSizes| ==> Receivable(recvSizes[k].0, recvSizes[k].1, received[k])
      modifies this, counter, cellSlice.imports, pointSlice.imports
      ensures Valid()
      ensures |sent| == |sendSizes|
      ensures globalFaces == old(globalFaces) + ReceivedFaces(received)
      ensures allPoints == old(allPoints) + ReceivedPoints(received)
      ensures PatchPartners(Partners(sendSizes) + Partners(recvSizes))
      ensures counter.count == old(counter.count) + |sendSizes| + |recvSizes|
    {
      sent := SendSlicePatches(sendSizes);
      assert PatchPartners(Partners(sendSizes));
      RecvSlicePatches(Partners(sendSizes), recvSizes, received);
    }

    /** commSlicePatches: the partners above this partition are planned from
        the neighbours, the stored patches are cleared, faces are sent to
        every planned partner and then received from every partner that
        sends (`recvSizes` and `received` come from the other processes). */
    method CommSlicePatches(recvSizes: seq<(int, int)>, received: seq<SliceFacesMessage>)
      returns (sendSizes: seq<(int, int)>, sent: seq<SliceFacesMessage>)
      requires Valid() && PointsWithin() && |received| == |recvSizes|
      requires forall k :: 0 <= k < |recvSizes| ==> Receivable(recvSizes[k].0, recvSizes[k].1, received[k])
      modifies this, counter, cellSlice.imports, pointSlice.imports
      ensures Valid()
      ensures sendSizes == Sizes(Selected(UpperSlices(cellPairs, myProcNo), old(globalNeighbours)))
      ensures forall k :: 0 <= k < |sendSizes| ==> myProcNo < sendSizes[k].0 < nProcs && sendSizes[k].1 > 0
      ensures |sent| == |sendSizes|
      ensures globalFaces == old(globalFaces) + ReceivedFaces(received)
      ensures allPoints == old(allPoints) + ReceivedPoints(received)
      ensures PatchPartners(Partners(sendSizes) + Partners(recvSizes))
      ensures counter.count == old(counter.count) - |old(slicePatches)| + |sendSizes| + |recvSizes|
    {
      sendSizes := PlanSlicePatches();
      UpperPartners(cellPairs, myProcNo, globalNeighbours);
      ClearSlicePatches();
      sent := ExchangeSlicePatches(sendSizes, recvSizes, received);
    }

    /** renumberFaces: every face keeps its length and each point id is
        replaced by what pointSlice_.convert gives for it; the foreign
        points not yet imported enter the point slice's import map in face
        order. */
    method RenumberFaces()
      modifies this, pointSlice.imports
      ensures |globalFaces| == |old(globalFaces)|
      ensures forall i :: 0 <= i < |globalFaces| ==> |globalFaces[i]| == |old(globalFaces)[i]|
      ensures forall i, j :: 0 <= i < |globalFaces| && 0 <= j < |globalFaces[i]| ==>
                globalFaces[i][j] == pointSlice.Converted(old(pointSlice.imports.mapping), old(globalFaces)[i][j])
      ensures pointSlice.imports.mapping
              == pointSlice.AfterConvertAll(old(pointSlice.imports.mapping), SliceHelpers.Flatten(old(globalFaces)))
      ensures globalNeighbours == old(globalNeighbours) && localOwner == old(localOwner) && allPoints == old(allPoints)
      ensures numBoundaries == old(numBoundaries) && slicePatches == old(slicePatches)
      ensures internalFaceIds == old(internalFaceIds) && procBoundaryIds == old(procBoundaryIds)
    {
      ghost var m0 := pointSlice.imports.mapping;
      ghost var faces0 := globalFaces;
      var i := 0;
      while i < |globalFaces|
        invariant 0 <= i <= |globalFaces| == |faces0|
        invariant forall k :: i <= k < |faces0| ==> globalFaces[k] == faces0[k]
        invariant forall k :: 0 <= k < i ==> |globalFaces[k]| == |faces0[k]|
        invariant forall k, j :: 0 <= k < i && 0 <= j < |globalFaces[k]| ==>
                    globalFaces[k][j] == pointSlice.Converted(m0, faces0[k][j])
        invariant pointSlice.imports.mapping == pointSlice.AfterConvertAll(m0, SliceHelpers.Flatten(faces0[..i]))
        invariant globalNeighbours == old(globalNeighbours) && localOwner == old(localOwner) && allPoints == old(allPoints)
        invariant numBoundaries == old(numBoundaries) && slicePatches == old(slicePatches)
        invariant internalFaceIds == old(internalFaceIds) && procBoundaryIds == old(procBoundaryIds)
      {
        RenumberFace(i, m0, faces0);
        i := i + 1;
      }
      assert faces0[..|faces0|] == faces0;
    }

    /** One face of renumberFaces, converted in place through the point
        slice. */
    method RenumberFace(i: nat, ghost m0: map<int, int>, ghost faces0: seq<seq<int>>)
      requires i < |globalFaces| == |faces0| && globalFaces[i] == faces0[i]
      requires pointSlice.imports.mapping == pointSlice.AfterConvertAll(m0, SliceHelpers.Flatten(faces0[..i]))
      modifies this, pointSlice.imports
      ensures |globalFaces| == |old(globalFaces)|
      ensures forall k :: 0 <= k < |globalFaces| && k != i ==> globalFaces[k] == old(globalFaces)[k]
      ensures |globalFaces[i]| == |faces0[i]|
      ensures forall j :: 0 <= j < |globalFaces[i]| ==> globalFaces[i][j] == pointSlice.Converted(m0, faces0[i][j])
      ensures pointSlice.imports.mapping == pointSlice.AfterConvertAll(m0, SliceHelpers.Flatten(faces0[..i + 1]))
      ensures globalNeighbours == old(globalNeighbours) && localOwner == old(localOwner) && allPoints == old(allPoints)
      ensures numBoundaries == old(numBoundaries) && slicePatches == old(slicePatches)
      ensures internalFaceIds == old(internalFaceIds) && procBoundaryIds == old(procBoundaryIds)
    {
      var face := globalFaces[i];
      var list := new int[|face|](j requires 0 <= j < |face| => face[j]);
      assert list[..] == face;
      ghost var before := SliceHelpers.Flatten(faces0[..i]);
      var converted := pointSlice.ConvertList(list);
      pointSlice.AfterConvertAllAppend(m0, before, face);
      MeshLayout.FlattenStep(faces0, i);
      forall j | 0 <= j < |face|
        ensures converted[j] == pointSlice.Converted(m0, face[j])
      {
        pointSlice.ConvertedUnaffected(m0, before, face[j]);
      }
      globalFaces := globalFaces[i := converted];
    }

    /** The mesh proper, which building the surface mappings leaves as it
        was. */
    ghost function MeshData(): (seq<seq<int>>, seq<int>, seq<Point>, seq<int>, int)
      reads this
    {
      (globalFaces, localOwner, allPoints, globalNeighbours, numBoundaries)
    }

    /** The fill loop of initializeSurfaceFieldMappings for one partner: the
        processor patch towards `partition` is built over the internal
        neighbours and a copy stored, its face ids are copied to position
        `at` of `faceIds` and its patch number filled beside them in
        `patchIds`. */
    method CollectPatch(partition: nat, neighbours: seq<int>, faceIds: array<int>, patchIds: array<int>,
                        at: nat, ghost parts: seq<int>) returns (next: nat)
      requires Tables() && partition < nProcs && faceIds != patchIds && PatchPartners(parts)
      requires at + |PatchFaces(neighbours, cellPairs, partition)| <= faceIds.Length == patchIds.Length
      modifies this, counter, faceIds, patchIds
      ensures next == at + |PatchFaces(neighbours, cellPairs, partition)|
      ensures faceIds[..next] == old(faceIds[..at]) + PatchFaces(neighbours, cellPairs, partition)
      ensures patchIds[..next] == old(patchIds[..at])
                                  + Repeated(|PatchFaces(neighbours, cellPairs, partition)|, numBoundaries + old(counter.count))
      ensures counter.count == old(counter.count) + 1
      ensures PatchPartners(parts + [partition])
      ensures MeshData() == old(MeshData())
    {
      ghost var patches0 := slicePatches;
      var kept := BuildKeptPatch(partition, neighbours);
      slicePatches := slicePatches + [kept];
      forall j | 0 <= j < |parts| + 1
        ensures slicePatches[j].slice.partition == (parts + [partition])[j]
      {
        if j < |patches0| {
          assert slicePatches[j] == patches0[j];
        }
      }
      var ids := kept.localFaceIds;
      CopyAt(faceIds, at, ids);
      FillAt(patchIds, at, |ids|, SliceHelpers.DecodeSlicePatchId(kept.id));
      next := at + |ids|;
    }

    /** The fill loop of initializeSurfaceFieldMappings: one processor patch
        per planned partner, stored in plan order, with the face ids and
        patch numbers collected patch after patch. */
    method FillSurfaceMappings(neighbours: seq<int>, sizes: seq<(int, int)>,
                               faceIds: array<int>, patchIds: array<int>, ghost parts: seq<int>)
      requires Tables() && PatchPartners(parts) && faceIds != patchIds
      requires forall k :: 0 <= k < |sizes| ==> 0 <= sizes[k].0 < nProcs
      requires PartnersIn(Partners(sizes), |cellPairs|)
      requires faceIds.Length == patchIds.Length == |CollectedFaces(neighbours, cellPairs, Partners(sizes))|
      modifies this, counter, faceIds, patchIds
      ensures faceIds[..] == CollectedFaces(neighbours, cellPairs, Partners(sizes))
      ensures patchIds[..] == CollectedNumbers(neighbours, cellPairs, Partners(sizes), numBoundaries + old(counter.count))
      ensures counter.count == old(counter.count) + |sizes|
      ensures PatchPartners(parts + Partners(sizes))
      ensures MeshData() == old(MeshData())
    {
      ghost var first := numBoundaries + counter.count;
      var i, at := 0, 0;
      assert Partners(sizes[..0]) == [] && parts + [] == parts;
      while i < |sizes|
        invariant 0 <= i <= |sizes|
        invariant at == |CollectedFaces(neighbours, cellPairs, Partners(sizes[..i]))| <= faceIds.Length
        invariant faceIds[..at] == CollectedFaces(neighbours, cellPairs, Partners(sizes[..i]))
        invariant patchIds[..at] == CollectedNumbers(neighbours, cellPairs, Partners(sizes[..i]), first)
        invariant counter.count == old(counter.count) + i
        invariant PatchPartners(parts + Partners(sizes[..i]))
        invariant MeshData() == old(MeshData())
      {
        at := FillStep(neighbours, sizes, faceIds, patchIds, i, at, first, parts);
        i := i + 1;
      }
      assert sizes[..|sizes|] == sizes;
      assert faceIds[..] == faceIds[..at];
      assert patchIds[..] == patchIds[..at];
    }

    /** One turn of the fill loop: the lists and the stored patches grow by
        the i-th partner's patch. */
    method FillStep(neighbours: seq<int>, sizes: seq<(int, int)>, faceIds: array<int>, patchIds: array<int>,
                    i: nat, at: nat, ghost first: int, ghost parts: seq<int>) returns (next: nat)
      requires Tables() && faceIds != patchIds && i < |sizes|
      requires forall k :: 0 <= k < |sizes| ==> 0 <= sizes[k].0 < nProcs
      requires PartnersIn(Partners(sizes), |cellPairs|)
      requires faceIds.Length == patchIds.Length == |CollectedFaces(neighbours, cellPairs, Partners(sizes))|
      requires at == |CollectedFaces(neighbours, cellPairs, Partners(sizes[..i]))| <= faceIds.Length
      requires faceIds[..at] == CollectedFaces(neighbours, cellPairs, Partners(sizes[..i]))
      requires patchIds[..at] == CollectedNumbers(neighbours, cellPairs, Partners(sizes[..i]), first)
      requires numBoundaries + counter.count == first + i
      requires PatchPartners(parts + Partners(sizes[..i]))
      modifies this, counter, faceIds, patchIds
      ensures next == |CollectedFaces(neighbours, cellPairs, Partners(sizes[..i + 1]))| <= faceIds.Length
      ensures faceIds[..next] == CollectedFaces(neighbours, cellPairs, Partners(sizes[..i + 1]))
      ensures patchIds[..next] == CollectedNumbers(neighbours, cellPairs, Partners(sizes[..i + 1]), first)
      ensures counter.count == old(counter.count) + 1
      ensures PatchPartners(parts + Partners(sizes[..i + 1]))
      ensures MeshData() == old(MeshData())
    {
      CollectedStep(neighbours, cellPairs, sizes, i, first, parts);
      next := CollectPatch(sizes[i].0, neighbours, faceIds, patchIds, at, parts + Partners(sizes[..i]));
    }

    /** The planning part of initializeSurfaceFieldMappings: the internal
        faces' neighbours in fragment order and (partner, shared face count)
        for every partition above this one that they neighbour. */
    method PlanSurfaceMappings() returns (neighbours: seq<int>, sizes: seq<(int, int)>)
      requires Tables()
      ensures neighbours == InternalNeighbours(globalNeighbours)
      ensures sizes == SurfacePlan(cellPairs, myProcNo, globalNeighbours)
    {
      var permutation := new FragmentPermutations.FragmentPermutation(globalNeighbours);
      neighbours := permutation.RetrieveNeighbours();
      FragmentPermutations.PatchBeginIsNumInternal(globalNeighbours);
      InternalNeighboursIs(globalNeighbours);
      var shared := SelectShared(UpperSlices(cellPairs, myProcNo), neighbours);
      sizes := Sizes(shared);
      SurfacePlanIs(cellPairs, myProcNo, globalNeighbours);
    }

    /** initializeSurfaceFieldMappings: the processor patches towards the
        partitions above this one that an internal face neighbours are built
        and stored in partition order, numbered on from the live patches;
        internalFaceIDs_ ends as their face ids in ascending order and
        procBoundaryIDs_ as the patch number of each, permuted alongside. */
    method InitializeSurfaceFieldMappings(ghost parts: seq<int>)
      requires Tables() && PatchPartners(parts)
      modifies this, counter
      ensures internalFaceIds == MappedFaces(cellPairs, myProcNo, globalNeighbours)
      ensures procBoundaryIds == MappedNumbers(cellPairs, myProcNo, globalNeighbours, numBoundaries + old(counter.count))
      ensures counter.count == old(counter.count) + |SurfacePlan(cellPairs, myProcNo, globalNeighbours)|
      ensures PatchPartners(parts + Partners(SurfacePlan(cellPairs, myProcNo, globalNeighbours)))
      ensures globalFaces == old(globalFaces) && localOwner == old(localOwner) && allPoints == old(allPoints)
      ensures globalNeighbours == old(globalNeighbours) && numBoundaries == old(numBoundaries)
    {
      ghost var nb, first := globalNeighbours, numBoundaries + counter.count;
      var faces, numbers, neighbours, sizes := ComputeMappings(parts);
      StoreMappings(faces, numbers);
      MappedIs(cellPairs, myProcNo, nb, first);
    }

    /** The planning, fill and sort of initializeSurfaceFieldMappings, the
        two lists being returned for storing with the plan they follow. */
    method ComputeMappings(ghost parts: seq<int>)
      returns (faces: seq<int>, numbers: seq<int>, neighbours: seq<int>, sizes: seq<(int, int)>)
      requires Tables() && PatchPartners(parts)
      modifies this, counter
      ensures neighbours == InternalNeighbours(globalNeighbours)
      ensures sizes == SurfacePlan(cellPairs, myProcNo, globalNeighbours)
      ensures PartnersIn(Partners(sizes), |cellPairs|)
      ensures |CollectedNumbers(neighbours, cellPairs, Partners(sizes), numBoundaries + old(counter.count))|
              == |CollectedFaces(neighbours, cellPairs, Partners(sizes))|
      ensures faces == SortedAlong(CollectedFaces(neighbours, cellPairs, Partners(sizes)),
                                   CollectedFaces(neighbours, cellPairs, Partners(sizes)))
      ensures numbers == SortedAlong(CollectedFaces(neighbours, cellPairs, Partners(sizes)),
                                     CollectedNumbers(neighbours, cellPairs, Partners(sizes), numBoundaries + old(counter.count)))
      ensures counter.count == old(counter.count) + |sizes|
      ensures PatchPartners(parts + Partners(sizes))
      ensures MeshData() == old(MeshData())
    {
      neighbours, sizes := PlanSurfaceMappings();
      PlanReady(cellPairs, myProcNo, globalNeighbours);
      assert |cellPairs| == nProcs;
      faces, numbers := FillAndSort(neighbours, sizes, TotalSize(sizes), parts);
    }

    /** The fill and sort of initializeSurfaceFieldMappings, on lists sized
        by the accumulated patch sizes. */
    method FillAndSort(neighbours: seq<int>, sizes: seq<(int, int)>, total: int, ghost parts: seq<int>)
      returns (faces: seq<int>, numbers: seq<int>)
      requires Tables() && PatchPartners(parts)
      requires forall k :: 0 <= k < |sizes| ==> 0 <= sizes[k].0 < nProcs
      requires PartnersIn(Partners(sizes), |cellPairs|)
      requires total == |CollectedFaces(neighbours, cellPairs, Partners(sizes))|
      modifies this, counter
      ensures |CollectedNumbers(neighbours, cellPairs, Partners(sizes), numBoundaries + old(counter.count))|
              == |CollectedFaces(neighbours, cellPairs, Partners(sizes))|
      ensures faces == SortedAlong(CollectedFaces(neighbours, cellPairs, Partners(sizes)),
                                   CollectedFaces(neighbours, cellPairs, Partners(sizes)))
      ensures numbers == SortedAlong(CollectedFaces(neighbours, cellPairs, Partners(sizes)),
                                     CollectedNumbers(neighbours, cellPairs, Partners(sizes), numBoundaries + old(counter.count)))
      ensures counter.count == old(counter.count) + |sizes|
      ensures PatchPartners(parts + Partners(sizes))
      ensures MeshData() == old(MeshData())
    {
      CollectedLengths(neighbours, cellPairs, Partners(sizes), numBoundaries + counter.count);
      var faceIds := new int[total];
      var patchIds := new int[total];
      FillSurfaceMappings(neighbours, sizes, faceIds, patchIds, parts);
      SortMappings(faceIds, patchIds);
      faces, numbers := faceIds[..], patchIds[..];
    }

    /** internalFaceIDs_ and procBoundaryIDs_ take the given lists. */
    method StoreMappings(faces: seq<int>, numbers: seq<int>)
      modifies this
      ensures internalFaceIds == faces && procBoundaryIds == numbers
      ensures slicePatches == old(slicePatches) && numBoundaries == old(numBoundaries)
      ensures globalFaces == old(globalFaces) && localOwner == old(localOwner) && allPoints == old(allPoints)
      ensures globalNeighbours == old(globalNeighbours)
    {
      internalFaceIds, procBoundaryIds := faces, numbers;
    }
  }
}
