// The processor patches of the coherent mesh (CoherentMesh/ProcessorPatch.C,
// ProcessorPatchI.H) and of the slice mesh (sliceMesh/sliceProcPatch.C).
// A processor patch collects the faces whose neighbour cell lies in a partner
// partition's slice, the points of the faces received from the partner, and
// encodes its faces in the neighbour list with a negative patch id. Both
// classes count their live instances in a static counter, which the model
// passes in as an InstanceCounter object.
module ProcessorPatches {
  import opened OrderedSets
  import SliceHelpers
  import LabelNames
  import CoherentSlices
  import SliceMeshSlices

  /** The static instanceCount_ of a processor patch class. */
  class InstanceCounter {
    var count: int

    constructor()
      ensures count == 0
    {
      count := 0;
    }
  }

  // ----- faces in a slice ----------------------------------------------------

  /** Positions of the neighbours inside [bottom, top), in order. */
  function InRangeIndices(nb: seq<int>, bottom: int, top: int): (r: seq<int>)
    ensures forall k :: 0 <= k < |r| ==> 0 <= r[k] < |nb|
  {
    if |nb| == 0 then []
    else InRangeIndices(nb[..|nb| - 1], bottom, top)
         + (if bottom <= nb[|nb| - 1] < top then [|nb| - 1] else [])
  }

  /** count_if of the slice's range test over the neighbours. */
  function CountInRange(nb: seq<int>, bottom: int, top: int): (r: nat)
    ensures r <= |nb|
  {
    if |nb| == 0 then 0
    else CountInRange(nb[..|nb| - 1], bottom, top) + (if bottom <= nb[|nb| - 1] < top then 1 else 0)
  }

  /** The face ids of a patch: as many as count_if counts, ascending, and
      exactly the positions of neighbours inside the slice. */
  lemma {:induction false} InRangeIndicesSpec(nb: seq<int>, bottom: int, top: int)
    ensures |InRangeIndices(nb, bottom, top)| == CountInRange(nb, bottom, top)
    ensures StrictlyAscending(InRangeIndices(nb, bottom, top))
    ensures forall i :: i in InRangeIndices(nb, bottom, top) <==> 0 <= i < |nb| && bottom <= nb[i] < top
  {
    if |nb| > 0 {
      var init := nb[..|nb| - 1];
      var r0 := InRangeIndices(init, bottom, top);
      InRangeIndicesSpec(init, bottom, top);
      var r := InRangeIndices(nb, bottom, top);
      forall i
        ensures i in r <==> 0 <= i < |nb| && bottom <= nb[i] < top
      {
        if 0 <= i < |init| {
          assert init[i] == nb[i];
        }
      }
    }
  }

  /** A prefix of the neighbours holds at most as many faces in the slice. */
  lemma {:induction false} CountPrefix(nb: seq<int>, bottom: int, top: int, k: nat)
    requires k <= |nb|
    ensures |InRangeIndices(nb[..k], bottom, top)| <= CountInRange(nb, bottom, top)
  {
    if k < |nb| {
      CountPrefix(nb[..|nb| - 1], bottom, top, k);
      assert nb[..|nb| - 1][..k] == nb[..k];
    } else {
      assert nb[..k] == nb;
      InRangeIndicesSpec(nb, bottom, top);
    }
  }

  lemma IndicesStep(nb: seq<int>, bottom: int, top: int, k: nat)
    requires k < |nb|
    ensures InRangeIndices(nb[..k + 1], bottom, top)
            == InRangeIndices(nb[..k], bottom, top) + (if bottom <= nb[k] < top then [k] else [])
  {
    assert nb[..k + 1][..k] == nb[..k];
  }

  /** determineFaceIDs: walks the neighbours and writes the position of each
      one inside the slice into the list sized by count_if. */
  method FillFaceIds(ids: array<int>, neighbours: seq<int>, bottom: int, top: int)
    requires ids.Length == CountInRange(neighbours, bottom, top)
    modifies ids
    ensures ids[..] == InRangeIndices(neighbours, bottom, top)
  {
    var faceIdIter := 0;
    var k := 0;
    while k < |neighbours|
      invariant 0 <= k <= |neighbours|
      invariant faceIdIter == |InRangeIndices(neighbours[..k], bottom, top)| <= ids.Length
      invariant forall j :: 0 <= j < faceIdIter ==> ids[j] == InRangeIndices(neighbours[..k], bottom, top)[j]
    {
      ghost var before := InRangeIndices(neighbours[..k], bottom, top);
      IndicesStep(neighbours, bottom, top, k);
      CountPrefix(neighbours, bottom, top, k + 1);
      if bottom <= neighbours[k] && neighbours[k] < top {
        ids[faceIdIter] := k;
        faceIdIter := faceIdIter + 1;
      }
      k := k + 1;
    }
    assert neighbours[..k] == neighbours;
    InRangeIndicesSpec(neighbours, bottom, top);
  }

  // ----- encoding the patch in the neighbour list ------------------------------

  /** The neighbour list with every entry inside [bottom, top) replaced by id. */
  function Encoded(nb: seq<int>, bottom: int, top: int, id: int): (r: seq<int>)
    ensures |r| == |nb|
  {
    if |nb| == 0 then []
    else Encoded(nb[..|nb| - 1], bottom, top, id)
         + [if bottom <= nb[|nb| - 1] < top then id else nb[|nb| - 1]]
  }

  /** With a patch id outside the slice, encoding leaves no neighbour in the
      slice, and the entries equal to the patch id are exactly the patch's
      faces (and any entries that held the id before). */
  lemma {:induction false} EncodedReplacesPatchFaces(nb: seq<int>, bottom: int, top: int, id: int)
    requires !(bottom <= id < top)
    ensures CountInRange(Encoded(nb, bottom, top, id), bottom, top) == 0
    ensures forall i :: 0 <= i < |nb| ==>
              (Encoded(nb, bottom, top, id)[i] == id <==> i in InRangeIndices(nb, bottom, top) || nb[i] == id)
  {
    InRangeIndicesSpec(nb, bottom, top);
    if |nb| > 0 {
      var init := nb[..|nb| - 1];
      EncodedReplacesPatchFaces(init, bottom, top, id);
      InRangeIndicesSpec(init, bottom, top);
      var e := Encoded(nb, bottom, top, id);
      assert e[..|nb| - 1] == Encoded(init, bottom, top, id);
      forall i | 0 <= i < |nb| - 1
        ensures e[i] == id <==> i in InRangeIndices(nb, bottom, top) || nb[i] == id
      {
        assert e[i] == Encoded(init, bottom, top, id)[i];
        assert init[i] == nb[i];
      }
    }
  }

  /** encodePatch(neighbours): the in-place transform of the neighbour list. */
  method EncodeInRange(neighbours: array<int>, bottom: int, top: int, id: int)
    modifies neighbours
    ensures neighbours[..] == Encoded(old(neighbours[..]), bottom, top, id)
  {
    ghost var nb := neighbours[..];
    var i := 0;
    while i < neighbours.Length
      invariant 0 <= i <= neighbours.Length
      invariant neighbours[..i] == Encoded(nb[..i], bottom, top, id)
      invariant forall j :: i <= j < neighbours.Length ==> neighbours[j] == nb[j]
    {
      assert nb[..i + 1][..i] == nb[..i];
      if bottom <= neighbours[i] && neighbours[i] < top {
        neighbours[i] := id;
      }
      assert neighbours[..i + 1] == neighbours[..i] + [neighbours[i]];
      i := i + 1;
    }
    assert nb[..i] == nb;
    assert neighbours[..i] == neighbours[..];
  }

  /** encodePatch(neighbours, numPatchFaces), for a std::vector and for a
      labelList: the list grows by the patch's faces, each holding the
      patch id. */
  function AppendPatchIds(neighbours: seq<int>, numPatchFaces: nat, id: int): (r: seq<int>)
    ensures |r| == |neighbours| + numPatchFaces
    ensures r[..|neighbours|] == neighbours
    ensures forall i :: |neighbours| <= i < |r| ==> r[i] == id
  {
    neighbours + seq(numPatchFaces, _ => id)
  }

  // ----- extraction ----------------------------------------------------------

  /** extractor(input, extractorList): the input entries at the listed
      positions, in the list's order. */
  function Extractor<T>(input: seq<T>, idx: seq<int>): (r: seq<T>)
    requires forall k :: 0 <= k < |idx| ==> 0 <= idx[k] < |input|
    ensures |r| == |idx|
    ensures forall k :: 0 <= k < |idx| ==> r[k] == input[idx[k]]
  {
    seq(|idx|, k requires 0 <= k < |idx| => input[idx[k]])
  }

  function InSlice(bottom: int, top: int): int -> bool
  {
    id => bottom <= id < top
  }

  /** Extracting the neighbours at the patch's face ids gives the neighbours
      inside the slice, in their order. */
  lemma {:induction false} ExtractFacesInSlice(nb: seq<int>, bottom: int, top: int)
    ensures Extractor(nb, InRangeIndices(nb, bottom, top)) == SliceHelpers.Filter(nb, InSlice(bottom, top))
  {
    if |nb| > 0 {
      var init, last := nb[..|nb| - 1], nb[|nb| - 1];
      var idx0 := InRangeIndices(init, bottom, top);
      var tail: seq<int> := if bottom <= last < top then [|nb| - 1] else [];
      assert InRangeIndices(nb, bottom, top) == idx0 + tail;
      assert SliceHelpers.Filter(nb, InSlice(bottom, top))
             == SliceHelpers.Filter(init, InSlice(bottom, top)) + (if bottom <= last < top then [last] else []);
      ExtractFacesInSlice(init, bottom, top);
      assert Extractor(nb, idx0) == Extractor(init, idx0);
      assert Extractor(nb, tail) == (if bottom <= last < top then [last] else []);
      assert Extractor(nb, idx0 + tail) == Extractor(nb, idx0) + Extractor(nb, tail);
    }
  }

  // ----- point ids -----------------------------------------------------------

  function AtLeast(bottom: int): int -> bool
  {
    id => bottom <= id
  }

  /** The transform by `id - bottomPointId`. */
  function Shifted(xs: seq<int>, bottom: int): (r: seq<int>)
    ensures |r| == |xs|
    ensures forall k :: 0 <= k < |xs| ==> r[k] + bottom == xs[k]
  {
    seq(|xs|, k requires 0 <= k < |xs| => xs[k] - bottom)
  }

  /** determinePointIDs of the coherent mesh patch: the std::set of face
      point ids at or above bottomPointId, shifted by it. */
  function PatchPointIds(faces: seq<seq<int>>, bottomPointId: int): seq<int>
  {
    Shifted(FromSeq(SliceHelpers.Subset(faces, AtLeast(bottomPointId))), bottomPointId)
  }

  /** determinePointIDs of the slice mesh patch, through pointSubset(faces,
      pred): the std::set of flattened face points that pass the test. */
  function SlicePatchPointIds(faces: seq<seq<int>>, bottomPointId: int): seq<int>
  {
    Shifted(FromSeq(SliceHelpers.Filter(SliceHelpers.Flatten(faces), AtLeast(bottomPointId))), bottomPointId)
  }

  lemma ShiftedAscending(xs: seq<int>, bottom: int)
    requires StrictlyAscending(xs)
    ensures StrictlyAscending(Shifted(xs, bottom))
    ensures forall x :: x in Shifted(xs, bottom) <==> x + bottom in xs
  {
    var r := Shifted(xs, bottom);
    forall x
      ensures x in r <==> x + bottom in xs
    {
      if x in r {
        var k :| 0 <= k < |r| && r[k] == x;
        assert xs[k] == x + bottom;
      }
      if x + bottom in xs {
        var k :| 0 <= k < |xs| && xs[k] == x + bottom;
        assert r[k] == x;
      }
    }
  }

  /** The patch's local point ids are ascending and distinct, and are the
      offsets from bottomPointId of the face points at or above it. */
  lemma PatchPointIdsSpec(faces: seq<seq<int>>, bottomPointId: int, x: int)
    ensures StrictlyAscending(PatchPointIds(faces, bottomPointId))
    ensures x in PatchPointIds(faces, bottomPointId) <==>
              0 <= x && exists f :: f in faces && x + bottomPointId in f
  {
    var s := FromSeq(SliceHelpers.Subset(faces, AtLeast(bottomPointId)));
    ShiftedAscending(s, bottomPointId);
    SliceHelpers.SubsetMembers(faces, AtLeast(bottomPointId), x + bottomPointId);
  }

  /** Both meshes' processor patches compute the same point ids. */
  lemma SlicePatchPointIdsAgree(faces: seq<seq<int>>, bottomPointId: int)
    ensures SlicePatchPointIds(faces, bottomPointId) == PatchPointIds(faces, bottomPointId)
  {
    SliceHelpers.SubsetIsFilterOfFlatten(faces, AtLeast(bottomPointId));
  }

  // ----- names ---------------------------------------------------------------

  /** "procBoundary" + name(myProcNo) + "to" + name(partner). */
  function ProcBoundaryName(myProcNo: int, partner: int): string
  {
    "procBoundary" + LabelNames.LabelName(myProcNo) + "to" + LabelNames.LabelName(partner)
  }

  /** A label name followed by "to" can be split at the "to": the name's
      characters after the first are digits. */
  lemma SplitAtTo(a: int, b: int, c: int, d: int)
    requires LabelNames.LabelName(a) + "to" + LabelNames.LabelName(b)
             == LabelNames.LabelName(c) + "to" + LabelNames.LabelName(d)
    ensures LabelNames.LabelName(a) == LabelNames.LabelName(c)
    ensures LabelNames.LabelName(b) == LabelNames.LabelName(d)
  {
    var A, B := LabelNames.LabelName(a), LabelNames.LabelName(b);
    var C, D := LabelNames.LabelName(c), LabelNames.LabelName(d);
    var s := A + "to" + B;
    assert s[|A|] == 't' && !LabelNames.IsDigit(s[|A|]);
    assert s == C + "to" + D && s[|C|] == 't';
    assert |A| == |C|;
    assert A == s[..|A|] == C;
    assert B == s[|A| + 2..] == D;
  }

  /** The name after "procBoundary": the two labels joined by "to". */
  lemma NameAfterPrefix(myProcNo: int, partner: int)
    ensures ProcBoundaryName(myProcNo, partner)[12..] == LabelNames.LabelName(myProcNo) + "to" + LabelNames.LabelName(partner)
  {
  }

  /** The name of a processor patch determines both processor numbers, so
      patches between different processor pairs have different names. */
  lemma ProcBoundaryNameInjective(myProcNo: int, partner: int, otherProcNo: int, otherPartner: int)
    requires ProcBoundaryName(myProcNo, partner) == ProcBoundaryName(otherProcNo, otherPartner)
    ensures myProcNo == otherProcNo && partner == otherPartner
  {
    NameAfterPrefix(myProcNo, partner);
    NameAfterPrefix(otherProcNo, otherPartner);
    SplitAtTo(myProcNo, partner, otherProcNo, otherPartner);
    LabelNames.LabelNameRoundTrip(myProcNo);
    LabelNames.LabelNameRoundTrip(otherProcNo);
    LabelNames.LabelNameRoundTrip(partner);
    LabelNames.LabelNameRoundTrip(otherPartner);
  }

  // ----- the coherent mesh processor patch -----------------------------------

  class ProcessorPatch {
    var id: int
    var slice: CoherentSlices.Slice
    var localFaceIds: seq<int>
    var localPointIds: seq<int>
    var procBoundaryName: string

    /** ProcessorPatch(slice, neighbours, numBoundaries): the faces whose
        neighbour lies in the slice, the name from both processor numbers,
        and, after counting the new instance, the patch number following the
        non-processor patches and the live processor patches. */
    constructor(slice: CoherentSlices.Slice, neighbours: seq<int>, numBoundaries: int,
                myProcNo: int, counter: InstanceCounter)
      modifies counter
      ensures this.slice == slice
      ensures localFaceIds == InRangeIndices(neighbours, slice.bottom, slice.top)
      ensures localPointIds == []
      ensures procBoundaryName == ProcBoundaryName(myProcNo, slice.partition)
      ensures counter.count == old(counter.count) + 1
      ensures SliceHelpers.DecodeSlicePatchId(id) == numBoundaries - 1 + counter.count
    {
      this.slice := slice;
      var ids := new int[CountInRange(neighbours, slice.bottom, slice.top)];
      FillFaceIds(ids, neighbours, slice.bottom, slice.top);
      localFaceIds := ids[..];
      localPointIds := [];
      procBoundaryName := ProcBoundaryName(myProcNo, slice.partition);
      new;
      counter.count := counter.count + 1;
      id := SliceHelpers.EncodeSlicePatchId((numBoundaries - 1) + counter.count);
    }

    /** Copy construction copies every field and counts one more instance. */
    constructor Copy(other: ProcessorPatch, counter: InstanceCounter)
      modifies counter
      ensures id == other.id && slice == other.slice
      ensures localFaceIds == other.localFaceIds && localPointIds == other.localPointIds
      ensures procBoundaryName == other.procBoundaryName
      ensures counter.count == old(counter.count) + 1
    {
      id := other.id;
      slice := other.slice;
      localFaceIds := other.localFaceIds;
      localPointIds := other.localPointIds;
      procBoundaryName := other.procBoundaryName;
      new;
      counter.count := counter.count + 1;
    }

    /** The destructor: one instance fewer. */
    method Destroy(counter: InstanceCounter)
      modifies counter
      ensures counter.count == old(counter.count) - 1
    {
      counter.count := counter.count - 1;
    }

    /** swap: exchanges every field; the static counter is swapped with
        itself and keeps its value. */
    method Swap(other: ProcessorPatch)
      modifies this, other
      ensures id == old(other.id) && other.id == old(id)
      ensures slice == old(other.slice) && other.slice == old(slice)
      ensures localFaceIds == old(other.localFaceIds) && other.localFaceIds == old(localFaceIds)
      ensures localPointIds == old(other.localPointIds) && other.localPointIds == old(localPointIds)
      ensures procBoundaryName == old(other.procBoundaryName)
      ensures other.procBoundaryName == old(procBoundaryName)
    {
      id, other.id := other.id, id;
      slice, other.slice := other.slice, slice;
      localFaceIds, other.localFaceIds := other.localFaceIds, localFaceIds;
      localPointIds, other.localPointIds := other.localPointIds, localPointIds;
      procBoundaryName, other.procBoundaryName := other.procBoundaryName, procBoundaryName;
    }

    /** operator=: copy into a temporary, swap with it, destroy it. The patch
        takes the other's fields and the instance count is unchanged. */
    method Assign(other: ProcessorPatch, counter: InstanceCounter)
      modifies this, counter
      ensures id == old(other.id) && slice == old(other.slice)
      ensures localFaceIds == old(other.localFaceIds) && localPointIds == old(other.localPointIds)
      ensures procBoundaryName == old(other.procBoundaryName)
      ensures counter.count == old(counter.count)
    {
      var tmp := new ProcessorPatch.Copy(other, counter);
      Swap(tmp);
      tmp.Destroy(counter);
    }

    function Id(): int
      reads this
    {
      id
    }

    function Name(): string
      reads this
    {
      procBoundaryName
    }

    /** partner(): the partition of the patch's slice. */
    function Partner(): int
      reads this
    {
      slice.partition
    }

    /** determinePointIDs(faces, bottomPointId). */
    method DeterminePointIds(faces: seq<seq<int>>, bottomPointId: int)
      modifies this
      ensures localPointIds == PatchPointIds(faces, bottomPointId)
      ensures id == old(id) && slice == old(slice) && localFaceIds == old(localFaceIds)
      ensures procBoundaryName == old(procBoundaryName)
    {
      var pointIds := FromSeq(SliceHelpers.Subset(faces, AtLeast(bottomPointId)));
      localPointIds := Shifted(pointIds, bottomPointId);
    }

    /** appendOwner(owner, recvOwner): converts the received owners to local
        ids in place and returns the owner list extended by them. */
    method AppendOwner(owner: seq<int>, recvOwner: array<int>) returns (r: seq<int>)
      modifies recvOwner, slice.imports
      ensures |r| == |owner| + recvOwner.Length && r[..|owner|] == owner
      ensures forall i :: 0 <= i < recvOwner.Length ==>
                r[|owner| + i] == recvOwner[i]
                == slice.Converted(old(slice.imports.mapping), old(recvOwner[i]))
      ensures slice.imports.mapping
              == slice.AfterConvertAll(old(slice.imports.mapping), old(recvOwner[..]))
    {
      var converted := slice.ConvertList(recvOwner);
      r := owner + converted;
    }

    /** encodePatch(neighbours): the neighbours in the slice become the
        patch id. */
    method EncodePatch(neighbours: array<int>)
      modifies neighbours
      ensures neighbours[..] == Encoded(old(neighbours[..]), slice.bottom, slice.top, id)
    {
      EncodeInRange(neighbours, slice.bottom, slice.top, id);
    }

    /** encodePatch(neighbours, numPatchFaces). */
    function EncodePatchAppend(neighbours: seq<int>, numPatchFaces: nat): (r: seq<int>)
      reads this
      ensures |r| == |neighbours| + numPatchFaces && r[..|neighbours|] == neighbours
      ensures forall i :: |neighbours| <= i < |r| ==> r[i] == id
    {
      AppendPatchIds(neighbours, numPatchFaces, id)
    }

    /** extractPoints(input): the points at the patch's local point ids. */
    function ExtractPoints<P>(input: seq<P>): (r: seq<P>)
      reads this
      requires forall k :: 0 <= k < |localPointIds| ==> 0 <= localPointIds[k] < |input|
      ensures |r| == |localPointIds|
      ensures forall k :: 0 <= k < |r| ==> r[k] == input[localPointIds[k]]
    {
      Extractor(input, localPointIds)
    }

    /** extractFaces(input): the entries at the patch's face ids. */
    function ExtractFaces<F>(input: seq<F>): (r: seq<F>)
      reads this
      requires forall k :: 0 <= k < |localFaceIds| ==> 0 <= localFaceIds[k] < |input|
      ensures |r| == |localFaceIds|
      ensures forall k :: 0 <= k < |r| ==> r[k] == input[localFaceIds[k]]
    {
      Extractor(input, localFaceIds)
    }
  }

  // ----- the slice mesh processor patch --------------------------------------

  /** Local id of `id` as the slice mesh slice's convert returns it under
      import map m. */
  function MeshConverted(s: SliceMeshSlices.Slice, m: map<int, int>, id: int): int
  {
    if s.Contains(id) then s.Shift(id) else if id in m then m[id] else 0
  }

  class SliceProcPatch {
    var id: int
    var slice: SliceMeshSlices.Slice
    var localFaceIds: seq<int>
    var localPointIds: seq<int>
    var procBoundaryName: string

    /** sliceProcPatch(slice, neighbours, numBoundaries), as for the
        coherent mesh. */
    constructor(slice: SliceMeshSlices.Slice, neighbours: seq<int>, numBoundaries: int,
                myProcNo: int, counter: InstanceCounter)
      modifies counter
      ensures this.slice == slice
      ensures localFaceIds == InRangeIndices(neighbours, slice.bottom, slice.top)
      ensures localPointIds == []
      ensures procBoundaryName == ProcBoundaryName(myProcNo, slice.partition)
      ensures counter.count == old(counter.count) + 1
      ensures SliceHelpers.DecodeSlicePatchId(id) == numBoundaries - 1 + counter.count
    {
      this.slice := slice;
      var ids := new int[CountInRange(neighbours, slice.bottom, slice.top)];
      FillFaceIds(ids, neighbours, slice.bottom, slice.top);
      localFaceIds := ids[..];
      localPointIds := [];
      procBoundaryName := ProcBoundaryName(myProcNo, slice.partition);
      new;
      counter.count := counter.count + 1;
      id := SliceHelpers.EncodeSlicePatchId((numBoundaries - 1) + counter.count);
    }

    constructor Copy(other: SliceProcPatch, counter: InstanceCounter)
      modifies counter
      ensures id == other.id && slice == other.slice
      ensures localFaceIds == other.localFaceIds && localPointIds == other.localPointIds
      ensures procBoundaryName == other.procBoundaryName
      ensures counter.count == old(counter.count) + 1
    {
      id := other.id;
      slice := other.slice;
      localFaceIds := other.localFaceIds;
      localPointIds := other.localPointIds;
      procBoundaryName := other.procBoundaryName;
      new;
      counter.count := counter.count + 1;
    }

    method Destroy(counter: InstanceCounter)
      modifies counter
      ensures counter.count == old(counter.count) - 1
    {
      counter.count := counter.count - 1;
    }

    method Swap(other: SliceProcPatch)
      modifies this, other
      ensures id == old(other.id) && other.id == old(id)
      ensures slice == old(other.slice) && other.slice == old(slice)
      ensures localFaceIds == old(other.localFaceIds) && other.localFaceIds == old(localFaceIds)
      ensures localPointIds == old(other.localPointIds) && other.localPointIds == old(localPointIds)
      ensures procBoundaryName == old(other.procBoundaryName)
      ensures other.procBoundaryName == old(procBoundaryName)
    {
      id, other.id := other.id, id;
      slice, other.slice := other.slice, slice;
      localFaceIds, other.localFaceIds := other.localFaceIds, localFaceIds;
      localPointIds, other.localPointIds := other.localPointIds, localPointIds;
      procBoundaryName, other.procBoundaryName := other.procBoundaryName, procBoundaryName;
    }

    method Assign(other: SliceProcPatch, counter: InstanceCounter)
      modifies this, counter
      ensures id == old(other.id) && slice == old(other.slice)
      ensures localFaceIds == old(other.localFaceIds) && localPointIds == old(other.localPointIds)
      ensures procBoundaryName == old(other.procBoundaryName)
      ensures counter.count == old(counter.count)
    {
      var tmp := new SliceProcPatch.Copy(other, counter);
      Swap(tmp);
      tmp.Destroy(counter);
    }

    function Id(): int
      reads this
    {
      id
    }

    function Name(): string
      reads this
    {
      procBoundaryName
    }

    function Partner(): int
      reads this
    {
      slice.partition
    }

    method DeterminePointIds(faces: seq<seq<int>>, bottomPointId: int)
      modifies this
      ensures localPointIds == SlicePatchPointIds(faces, bottomPointId)
      ensures id == old(id) && slice == old(slice) && localFaceIds == old(localFaceIds)
      ensures procBoundaryName == old(procBoundaryName)
    {
      var pointIds := FromSeq(SliceHelpers.Filter(SliceHelpers.Flatten(faces), AtLeast(bottomPointId)));
      localPointIds := Shifted(pointIds, bottomPointId);
    }

    /** appendOwner(owner, recvOwner): every received owner is converted in
        place; a foreign owner not yet imported reads as local id 0 and is
        entered into the import map with that id. */
    method AppendOwner(owner: seq<int>, recvOwner: array<int>) returns (r: seq<int>)
      modifies recvOwner, slice.imports
      ensures |r| == |owner| + recvOwner.Length && r[..|owner|] == owner
      ensures forall i :: 0 <= i < recvOwner.Length ==>
                r[|owner| + i] == recvOwner[i]
                == MeshConverted(slice, old(slice.imports.mapping), old(recvOwner[i]))
      ensures forall k :: k in old(slice.imports.mapping) ==>
                k in slice.imports.mapping && slice.imports.mapping[k] == old(slice.imports.mapping)[k]
      ensures forall k :: k in slice.imports.mapping <==>
                k in old(slice.imports.mapping) || (k in old(recvOwner[..]) && !slice.Contains(k))
      ensures forall k :: k in slice.imports.mapping && k !in old(slice.imports.mapping) ==>
                slice.imports.mapping[k] == 0
    {
      ghost var m0 := slice.imports.mapping;
      ghost var ids := recvOwner[..];
      var i := 0;
      while i < recvOwner.Length
        invariant 0 <= i <= recvOwner.Length
        invariant forall j :: 0 <= j < i ==> recvOwner[j] == MeshConverted(slice, m0, ids[j])
        invariant forall j :: i <= j < recvOwner.Length ==> recvOwner[j] == ids[j]
        invariant forall k :: k in m0 ==> k in slice.imports.mapping && slice.imports.mapping[k] == m0[k]
        invariant forall k :: k in slice.imports.mapping <==>
                    k in m0 || (k in ids[..i] && !slice.Contains(k))
        invariant forall k :: k in slice.imports.mapping && k !in m0 ==> slice.imports.mapping[k] == 0
      {
        assert ids[..i + 1] == ids[..i] + [ids[i]];
        recvOwner[i] := slice.Convert(recvOwner[i]);
        i := i + 1;
      }
      assert ids[..i] == ids;
      r := owner + recvOwner[..];
    }

    method EncodePatch(neighbours: array<int>)
      modifies neighbours
      ensures neighbours[..] == Encoded(old(neighbours[..]), slice.bottom, slice.top, id)
    {
      EncodeInRange(neighbours, slice.bottom, slice.top, id);
    }

    function EncodePatchAppend(neighbours: seq<int>, numPatchFaces: nat): (r: seq<int>)
      reads this
      ensures |r| == |neighbours| + numPatchFaces && r[..|neighbours|] == neighbours
      ensures forall i :: |neighbours| <= i < |r| ==> r[i] == id
    {
      AppendPatchIds(neighbours, numPatchFaces, id)
    }

    function ExtractPoints<P>(input: seq<P>): (r: seq<P>)
      reads this
      requires forall k :: 0 <= k < |localPointIds| ==> 0 <= localPointIds[k] < |input|
      ensures |r| == |localPointIds|
      ensures forall k :: 0 <= k < |r| ==> r[k] == input[localPointIds[k]]
    {
      Extractor(input, localPointIds)
    }
  }
}
