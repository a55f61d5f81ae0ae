// slicePermutation of the slice mesh (sliceMesh/slicePermutation.C): one
// class holding both directions, the slice-to-polyMesh neighbour ordering
// (as FragmentPermutation) and the polyMesh-to-slice face and point ordering
// (as SlicePermutation), each filled by its own constructor.
module SliceMeshPermutations {
  import opened SliceHelpers
  import opened PointNumbering
  import FragmentPermutations
  import SlicePermutations

  class SlicePermutation {
    /** polyNeighboursPermutation_: emptied once the lists exist. */
    var pairs: seq<(int, int)>
    /** polyNeighboursAndPatches_ */
    var neighboursAndPatches: seq<int>
    /** permutationToPoly_: polyMesh face position to slice face position. */
    var permutationToPoly: seq<int>
    /** permutationToSlice_: slice face position to polyMesh face position. */
    var permutationToSlice: seq<int>
    var permutationToSlicePoint: seq<int>
    var permutationToPolyPoint: seq<int>
    ghost var nPoints: nat
    /** The slice neighbours the polyMesh direction was built from. */
    ghost var sliceNeighbours: seq<int>

    ghost predicate Valid()
      reads this
    {
      (forall i :: 0 <= i < |permutationToSlice| ==> 0 <= permutationToSlice[i] < |permutationToSlice|)
      && |permutationToPolyPoint| == |permutationToSlicePoint| == nPoints
      && |permutationToPoly| == |sliceNeighbours| <= |neighboursAndPatches|
      && (forall i :: 0 <= i < |permutationToPoly| ==>
            0 <= permutationToPoly[i] < |permutationToPoly|
            && neighboursAndPatches[i] == sliceNeighbours[permutationToPoly[i]])
    }

    /** slicePermutation(sliceNeighbours): the direction towards the
        polyMesh; the other vectors stay empty. */
    constructor FromNeighbours(sliceNeighbours: seq<int>)
      ensures Valid() && pairs == [] && this.sliceNeighbours == sliceNeighbours
      ensures neighboursAndPatches == FragmentPermutations.NeighboursAndPatches(sliceNeighbours)
      ensures permutationToPoly == FragmentPermutations.FacePermutation(sliceNeighbours)
      ensures permutationToSlice == [] && permutationToSlicePoint == [] && permutationToPolyPoint == []
    {
      var ps := FragmentPermutations.PolyNeighbourPermutation(sliceNeighbours);
      pairs := ps;
      neighboursAndPatches := FragmentPermutations.NeighboursAndPatches(sliceNeighbours);
      permutationToPoly := FragmentPermutations.FacePermutation(sliceNeighbours);
      permutationToSlice := [];
      permutationToSlicePoint := [];
      permutationToPolyPoint := [];
      nPoints := 0;
      this.sliceNeighbours := sliceNeighbours;
      FragmentPermutations.FacePermutationIsPermutation(sliceNeighbours);
      new;
      pairs := pairs[..0];
    }

    /** slicePermutation(faceOwner, allFaces, nPoints): faces sorted by
        owner number the points; the faces themselves are not kept, so they
        stay in polyMesh point numbering. */
    constructor FromOwner(faceOwner: seq<int>, allFaces: seq<seq<int>>, nPoints: nat)
      requires |faceOwner| <= |allFaces| && FacesWithin(allFaces, nPoints)
      ensures Valid() && this.nPoints == nPoints
      ensures permutationToSlice == PermutationOfSorted(faceOwner)
      ensures Numbered(permutationToPolyPoint, permutationToSlicePoint,
                       FirstAppearances(Flatten(SlicePermutations.SliceOrderFaces(faceOwner, allFaces))),
                       nPoints)
      ensures pairs == [] && neighboursAndPatches == [] && permutationToPoly == []
    {
      var perm := PermutationOfSorted(faceOwner);
      var sliceFaces := new seq<int>[|allFaces|](i requires 0 <= i < |allFaces| => allFaces[i]);
      assert sliceFaces[..] == allFaces;
      ApplyPermutation(sliceFaces, perm);
      SlicePermutations.PermutedWithin(allFaces, perm, nPoints);
      var toPoly, toSlice := CreatePointPermutation(sliceFaces[..], nPoints);
      pairs := [];
      neighboursAndPatches := [];
      permutationToPoly := [];
      permutationToSlice := perm;
      permutationToSlicePoint := toSlice;
      permutationToPolyPoint := toPoly;
      this.nPoints := nPoints;
      sliceNeighbours := [];
    }

    /** mapToSlice(allPoints): point data into slice point order. */
    method MapPointsToSlice<P>(allPoints: array<P>)
      requires Valid() && nPoints <= allPoints.Length
      requires forall i :: 0 <= i < nPoints ==> 0 <= permutationToSlicePoint[i] < allPoints.Length
      modifies allPoints
      ensures allPoints[..] == Permuted(old(allPoints[..]), permutationToSlicePoint)
    {
      ApplyPermutation(allPoints, permutationToSlicePoint);
    }

    /** mapToSlice(id): the polyMesh face at slice position id. */
    function MapToSlice(id: int): (r: int)
      reads this
      requires Valid() && 0 <= id < |permutationToSlice|
      ensures 0 <= r < |permutationToSlice|
    {
      permutationToSlice[id]
    }

    /** mapToPoly(id): the slice face at polyMesh position id, the one whose
        neighbour (or encoded patch) the polyMesh face id carries. */
    function MapToPoly(id: int): (r: int)
      reads this
      requires Valid() && 0 <= id < |permutationToPoly|
      ensures 0 <= r < |sliceNeighbours| && neighboursAndPatches[id] == sliceNeighbours[r]
    {
      permutationToPoly[id]
    }

    /** generateSlice(allFaces): faces into slice order and slice point
        numbering, in place, and a copy of the result. */
    method GenerateSlice(allFaces: array<seq<int>>) returns (r: seq<seq<int>>)
      requires Valid() && |permutationToSlice| == allFaces.Length
      requires FacesWithin(allFaces[..], nPoints)
      modifies allFaces
      ensures FacesWithin(Permuted(old(allFaces[..]), permutationToSlice), nPoints)
      ensures allFaces[..] == RenumberedFaces(Permuted(old(allFaces[..]), permutationToSlice),
                                              permutationToPolyPoint)
      ensures r == allFaces[..]
    {
      SlicePermutations.PermutedWithin(allFaces[..], permutationToSlice, nPoints);
      ApplyPermutation(allFaces, permutationToSlice);
      RenumberFaces(allFaces, permutationToPolyPoint);
      r := allFaces[..];
    }

    /** generateSlice(sliceNeighbours, mesh). */
    method GenerateSliceNeighbours(whichPatch: int -> int, faceNeighbour: seq<int>)
      returns (sliceNeighbours: seq<int>)
      requires forall i :: 0 <= i < |permutationToSlice| && whichPatch(permutationToSlice[i]) == -1 ==>
                 0 <= permutationToSlice[i] < |faceNeighbour|
      ensures |sliceNeighbours| == |permutationToSlice|
      ensures forall i :: 0 <= i < |permutationToSlice| ==>
                sliceNeighbours[i] == SlicePermutations.SliceNeighbour(permutationToSlice[i], whichPatch, faceNeighbour)
    {
      sliceNeighbours := SlicePermutations.SliceNeighbours(permutationToSlice, whichPatch, faceNeighbour);
    }
  }

  /** The owner constructor numbers points by first appearance in the
      owner-sorted faces, the same numbering SlicePermutation renumbers its
      faces with; on numbered points the two vectors are inverse. */
  lemma OwnerNumberingIsInverse(toPoly: seq<int>, toSlice: seq<int>, faceOwner: seq<int>,
                                allFaces: seq<seq<int>>, nPoints: nat)
    requires |faceOwner| <= |allFaces|
    requires Numbered(toPoly, toSlice,
                      FirstAppearances(Flatten(SlicePermutations.SliceOrderFaces(faceOwner, allFaces))), nPoints)
    ensures forall p :: 0 <= p < nPoints && toPoly[p] != -1 ==>
              0 <= toPoly[p] < nPoints && toSlice[toPoly[p]] == p
    ensures forall k :: 0 <= k < nPoints && toSlice[k] != -1 ==> toPoly[toSlice[k]] == k
  {
    var faces := SlicePermutations.SliceOrderFaces(faceOwner, allFaces);
    NumberingIsInverse(toPoly, toSlice, faces, nPoints);
  }
}
