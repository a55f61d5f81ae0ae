// SlicePermutation (CoherentMesh/SlicePermutation.C, SlicePermutationI.H):
// the reordering of a polyMesh's faces into slice order (faces sorted by
// owner) and the renumbering of their points by first appearance.
module SlicePermutations {
  import opened SliceHelpers
  import opened PointNumbering

  lemma PermutedWithin(faces: seq<seq<int>>, perm: seq<int>, n: int)
    requires |perm| <= |faces| && forall i :: 0 <= i < |perm| ==> 0 <= perm[i] < |faces|
    requires FacesWithin(faces, n)
    ensures FacesWithin(Permuted(faces, perm), n)
  {
    var p := Permuted(faces, perm);
    forall i, j | 0 <= i < |p| && 0 <= j < |p[i]|
      ensures 0 <= p[i][j] < n
    {
      if i < |perm| {
        assert p[i] == faces[perm[i]];
      }
    }
  }

  /** The faces in slice order: sorted by owner, stably. */
  function SliceOrderFaces(faceOwner: seq<int>, allFaces: seq<seq<int>>): (r: seq<seq<int>>)
    requires |faceOwner| <= |allFaces|
    ensures |r| == |allFaces|
  {
    Permuted(allFaces, PermutationOfSorted(faceOwner))
  }

  /** The constructor's first step: a copy of allFaces permuted into slice
      order. */
  method OrderFaces(faceOwner: seq<int>, allFaces: seq<seq<int>>, nPoints: nat) returns (sliceFaces: array<seq<int>>)
    requires |faceOwner| <= |allFaces| && FacesWithin(allFaces, nPoints)
    ensures fresh(sliceFaces)
    ensures sliceFaces[..] == SliceOrderFaces(faceOwner, allFaces) && FacesWithin(sliceFaces[..], nPoints)
  {
    sliceFaces := new seq<int>[|allFaces|](i requires 0 <= i < |allFaces| => allFaces[i]);
    assert sliceFaces[..] == allFaces;
    ApplyPermutation(sliceFaces, PermutationOfSorted(faceOwner));
    PermutedWithin(allFaces, PermutationOfSorted(faceOwner), nPoints);
  }

  /** The faces a SlicePermutation holds after construction: in slice order
      and renumbered to slice point ids. */
  function SliceFaces(faceOwner: seq<int>, allFaces: seq<seq<int>>, nPoints: nat): seq<seq<int>>
    requires |faceOwner| <= |allFaces| && FacesWithin(allFaces, nPoints)
  {
    var ordered := SliceOrderFaces(faceOwner, allFaces);
    PermutedWithin(allFaces, PermutationOfSorted(faceOwner), nPoints);
    RenumberedFaces(ordered, ToPoly(FirstAppearances(Flatten(ordered)), nPoints))
  }

  /** The faces of the slice are ordered by owner and their points are
      numbered 0, 1, 2, ... in order of first appearance. */
  lemma SliceFacesAreCanonical(faceOwner: seq<int>, allFaces: seq<seq<int>>, nPoints: nat)
    requires |faceOwner| == |allFaces| && FacesWithin(allFaces, nPoints)
    ensures var perm := PermutationOfSorted(faceOwner);
      var faces := SliceFaces(faceOwner, allFaces, nPoints);
      (forall i, j :: 0 <= i < j < |perm| ==> faceOwner[perm[i]] <= faceOwner[perm[j]])
      && |faces| == |allFaces|
      && (forall i :: 0 <= i < |faces| ==> |faces[i]| == |allFaces[perm[i]]|)
      && FirstAppearances(Flatten(faces))
         == IndexIota(|FirstAppearances(Flatten(SliceOrderFaces(faceOwner, allFaces)))|, 0)
  {
    var ordered := SliceOrderFaces(faceOwner, allFaces);
    PermutedWithin(allFaces, PermutationOfSorted(faceOwner), nPoints);
    CanonicalNumbering(ordered, nPoints);
  }

  /** The neighbour a slice face gets: the encoded patch id of a boundary
      face, else the polyMesh neighbour. */
  function SliceNeighbour(fragFaceId: int, whichPatch: int -> int, faceNeighbour: seq<int>): int
    requires whichPatch(fragFaceId) == -1 ==> 0 <= fragFaceId < |faceNeighbour|
  {
    var patchId := whichPatch(fragFaceId);
    if patchId != -1 then EncodeSlicePatchId(patchId) else faceNeighbour[fragFaceId]
  }

  /** retrieveNeighbours / generateSlice(neighbours, mesh): the neighbour
      list in slice order. */
  method SliceNeighbours(perm: seq<int>, whichPatch: int -> int, faceNeighbour: seq<int>)
    returns (sliceNeighbours: seq<int>)
    requires forall i :: 0 <= i < |perm| && whichPatch(perm[i]) == -1 ==>
               0 <= perm[i] < |faceNeighbour|
    ensures |sliceNeighbours| == |perm|
    ensures forall i :: 0 <= i < |perm| ==>
              sliceNeighbours[i] == SliceNeighbour(perm[i], whichPatch, faceNeighbour)
    ensures forall i :: 0 <= i < |perm| && whichPatch(perm[i]) != -1 ==>
              DecodeSlicePatchId(sliceNeighbours[i]) == whichPatch(perm[i])
  {
    sliceNeighbours := [];
    var i := 0;
    while i < |perm|
      invariant 0 <= i <= |perm| && |sliceNeighbours| == i
      invariant forall k :: 0 <= k < i ==>
                  sliceNeighbours[k] == SliceNeighbour(perm[k], whichPatch, faceNeighbour)
    {
      sliceNeighbours := sliceNeighbours + [SliceNeighbour(perm[i], whichPatch, faceNeighbour)];
      i := i + 1;
    }
  }

  class SlicePermutation {
    /** permutationToSlice_: slice face position to polyMesh face position. */
    var permutationToSlice: seq<int>
    /** permutationToSlicePoint_: slice point id to polyMesh point id. */
    var permutationToSlicePoint: seq<int>
    /** permutationToPolyPoint_: polyMesh point id to slice point id. */
    var permutationToPolyPoint: seq<int>
    /** faces_: the faces in slice order and slice point numbering. */
    var faces: seq<seq<int>>
    ghost const nPoints: nat

    ghost predicate Valid()
      reads this
    {
      (forall i :: 0 <= i < |permutationToSlice| ==> 0 <= permutationToSlice[i] < |permutationToSlice|)
      && |permutationToPolyPoint| == |permutationToSlicePoint| == nPoints
    }

    /** SlicePermutation(faceOwner, allFaces, nPoints). */
    constructor(faceOwner: seq<int>, allFaces: seq<seq<int>>, nPoints: nat)
      requires |faceOwner| <= |allFaces| && FacesWithin(allFaces, nPoints)
      ensures Valid() && this.nPoints == nPoints
      ensures permutationToSlice == PermutationOfSorted(faceOwner)
      ensures Numbered(permutationToPolyPoint, permutationToSlicePoint,
                       FirstAppearances(Flatten(SliceOrderFaces(faceOwner, allFaces))), nPoints)
      ensures faces == SliceFaces(faceOwner, allFaces, nPoints)
    {
      var perm := PermutationOfSorted(faceOwner);
      var sliceFaces := OrderFaces(faceOwner, allFaces, nPoints);
      var toPoly, toSlice := CreatePointPermutation(sliceFaces[..], nPoints);
      NumberedIsToPoly(toPoly, toSlice, FirstAppearances(Flatten(sliceFaces[..])), nPoints);
      RenumberFaces(sliceFaces, toPoly);
      permutationToSlice := perm;
      permutationToSlicePoint := toSlice;
      permutationToPolyPoint := toPoly;
      faces := sliceFaces[..];
      this.nPoints := nPoints;
    }

    /** permute(allPoints): point data into slice point order. Every slot
        of permutationToSlicePoint_ is read, so every point must be used by
        some face. */
    method PermutePoints<P>(allPoints: array<P>)
      requires Valid() && nPoints <= allPoints.Length
      requires forall i :: 0 <= i < nPoints ==> 0 <= permutationToSlicePoint[i] < allPoints.Length
      modifies allPoints
      ensures allPoints[..] == Permuted(old(allPoints[..]), permutationToSlicePoint)
    {
      ApplyPermutation(allPoints, permutationToSlicePoint);
    }

    /** permute(container) and the generic apply(x): face data into slice
        order; the permutation state is left as it is. */
    method Permute<T>(input: array<T>)
      requires Valid() && |permutationToSlice| == input.Length
      modifies input
      ensures input[..] == Permuted(old(input[..]), permutationToSlice)
    {
      ApplyPermutation(input, permutationToSlice);
    }

    /** apply(faces): faces into slice order, then renumbered to slice
        point ids. */
    method ApplyFaces(allFaces: array<seq<int>>)
      requires Valid() && |permutationToSlice| == allFaces.Length
      requires FacesWithin(allFaces[..], nPoints)
      modifies allFaces
      ensures FacesWithin(Permuted(old(allFaces[..]), permutationToSlice), nPoints)
      ensures allFaces[..] == RenumberedFaces(Permuted(old(allFaces[..]), permutationToSlice),
                                              permutationToPolyPoint)
    {
      PermutedWithin(allFaces[..], permutationToSlice, nPoints);
      Permute(allFaces);
      RenumberFaces(allFaces, permutationToPolyPoint);
    }

    /** retrieveFaces(): the faces built by the constructor. */
    function RetrieveFaces(): (r: seq<seq<int>>)
      reads this
      ensures r == faces
    {
      faces
    }

    /** retrieveNeighbours(sliceNeighbours, mesh). */
    method RetrieveNeighbours(whichPatch: int -> int, faceNeighbour: seq<int>)
      returns (sliceNeighbours: seq<int>)
      requires forall i :: 0 <= i < |permutationToSlice| && whichPatch(permutationToSlice[i]) == -1 ==>
                 0 <= permutationToSlice[i] < |faceNeighbour|
      ensures |sliceNeighbours| == |permutationToSlice|
      ensures forall i :: 0 <= i < |permutationToSlice| ==>
                sliceNeighbours[i] == SliceNeighbour(permutationToSlice[i], whichPatch, faceNeighbour)
    {
      sliceNeighbours := SliceNeighbours(permutationToSlice, whichPatch, faceNeighbour);
    }
  }
}
