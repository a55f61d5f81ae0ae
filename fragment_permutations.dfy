// FragmentPermutation (CoherentMesh/FragmentPermutation.C,
// FragmentPermutationI.H): the reordering of a slice's faces into the order
// a polyMesh expects, internal faces (positive neighbour) first in their
// original order, then the boundary faces grouped by patch.
module FragmentPermutations {
  import opened SliceHelpers

  function First(p: (int, int)): int
  {
    p.0
  }

  function Second(p: (int, int)): int
  {
    p.1
  }

  /** createPolyNeighbourPermutation: (neighbour, face) pairs, partitioned
      and sorted by neighbour. */
  function PolyNeighbourPermutation(sliceNeighbours: seq<int>): seq<(int, int)>
  {
    PartitionByFirst(GenerateIndexedPairs(sliceNeighbours))
  }

  /** polyNeighboursAndPatches_: the neighbours in the new face order. */
  function NeighboursAndPatches(sliceNeighbours: seq<int>): seq<int>
  {
    ExtractNth(PolyNeighbourPermutation(sliceNeighbours), First)
  }

  /** facePermutation_: new face position to old face position. */
  function FacePermutation(sliceNeighbours: seq<int>): seq<int>
  {
    ExtractNth(PolyNeighbourPermutation(sliceNeighbours), Second)
  }

  lemma TwoOccurrences<T>(s: seq<T>, i: nat, j: nat)
    requires i < j < |s| && s[i] == s[j]
    ensures multiset(s)[s[i]] >= 2
  {
    assert s == s[..j] + [s[j]] + s[j + 1..];
    assert s[i] in s[..j];
  }

  lemma {:induction false} DistinctCountsOne<T>(s: seq<T>)
    requires forall i, j :: 0 <= i < j < |s| ==> s[i] != s[j]
    ensures forall x :: multiset(s)[x] <= 1
  {
    if |s| > 0 {
      var init := s[..|s| - 1];
      DistinctCountsOne(init);
      assert s == init + [s[|s| - 1]];
      assert s[|s| - 1] !in init;
    }
  }

  /** Every pair keeps its face's neighbour, and every face occurs once. */
  lemma PairsArePermutation(sliceNeighbours: seq<int>)
    ensures var ps := PolyNeighbourPermutation(sliceNeighbours);
      |ps| == |sliceNeighbours|
      && (forall i :: 0 <= i < |ps| ==> 0 <= ps[i].1 < |ps| && ps[i].0 == sliceNeighbours[ps[i].1])
      && (forall i, j :: 0 <= i < j < |ps| ==> ps[i].1 != ps[j].1)
  {
    PairsKeepNeighbours(sliceNeighbours);
    PairsDistinct(sliceNeighbours);
  }

  /** Every pair of the permutation is an (id, index) pair of the input. */
  lemma PairsKeepNeighbours(sliceNeighbours: seq<int>)
    ensures var ps := PolyNeighbourPermutation(sliceNeighbours);
      |ps| == |sliceNeighbours|
      && (forall i :: 0 <= i < |ps| ==> 0 <= ps[i].1 < |ps| && ps[i].0 == sliceNeighbours[ps[i].1])
  {
    var gip := GenerateIndexedPairs(sliceNeighbours);
    var ps := PolyNeighbourPermutation(sliceNeighbours);
    PartitionByFirstPermutes(gip);
    forall i | 0 <= i < |ps|
      ensures 0 <= ps[i].1 < |ps| && ps[i].0 == sliceNeighbours[ps[i].1]
    {
      assert ps[i] in multiset(gip);
    }
  }

  /** No index occurs twice in the permutation. */
  lemma PairsDistinct(sliceNeighbours: seq<int>)
    ensures var ps := PolyNeighbourPermutation(sliceNeighbours);
      forall i, j :: 0 <= i < j < |ps| ==> ps[i].1 != ps[j].1
  {
    var gip := GenerateIndexedPairs(sliceNeighbours);
    var ps := PolyNeighbourPermutation(sliceNeighbours);
    PairsKeepNeighbours(sliceNeighbours);
    PartitionByFirstPermutes(gip);
    DistinctCountsOne(gip);
    forall i, j | 0 <= i < j < |ps|
      ensures ps[i].1 != ps[j].1
    {
      if ps[i].1 == ps[j].1 {
        assert ps[i] == ps[j];
        TwoOccurrences(ps, i, j);
      }
    }
  }

  /** facePermutation_ is a permutation of 0..n-1, and the new neighbour
      list reads the old one through it. */
  lemma FacePermutationIsPermutation(sliceNeighbours: seq<int>)
    ensures var fp := FacePermutation(sliceNeighbours);
      var nap := NeighboursAndPatches(sliceNeighbours);
      |fp| == |nap| == |sliceNeighbours|
      && (forall i :: 0 <= i < |fp| ==> 0 <= fp[i] < |fp| && nap[i] == sliceNeighbours[fp[i]])
      && (forall i, j :: 0 <= i < j < |fp| ==> fp[i] != fp[j])
  {
    PairsArePermutation(sliceNeighbours);
  }

  lemma {:induction false} PositivesKeepOrder(xs: seq<(int, int)>)
    requires forall i, j :: 0 <= i < j < |xs| ==> xs[i].1 < xs[j].1
    ensures forall i, j :: 0 <= i < j < |Positives(xs)| ==> Positives(xs)[i].1 < Positives(xs)[j].1
  {
    if |xs| > 0 {
      var rest := Positives(xs[1..]);
      PositivesKeepOrder(xs[1..]);
      forall x | x in rest
        ensures xs[0].1 < x.1
      {
        PositivesMembers(xs[1..], x);
        var k :| 0 <= k < |xs[1..]| && xs[1..][k] == x;
        assert xs[k + 1] == x;
      }
    }
  }

  /** The number of internal faces: the positive neighbours. */
  function NumInternal(sliceNeighbours: seq<int>): nat
  {
    |Positives(GenerateIndexedPairs(sliceNeighbours))|
  }

  /** Internal faces come first, in their original order, with a positive
      neighbour; the boundary faces follow with patch ids in descending
      order (so patch -1 first). */
  lemma NeighboursAndPatchesLayout(sliceNeighbours: seq<int>)
    ensures var nap := NeighboursAndPatches(sliceNeighbours);
      var fp := FacePermutation(sliceNeighbours);
      var n := NumInternal(sliceNeighbours);
      n <= |nap| == |fp|
      && (forall i :: 0 <= i < n ==> nap[i] > 0)
      && (forall i, j :: 0 <= i < j < n ==> fp[i] < fp[j])
      && (forall i :: n <= i < |nap| ==> nap[i] <= 0)
      && (forall i, j :: n <= i < j < |nap| ==> nap[i] >= nap[j])
  {
    PairsLayout(sliceNeighbours);
  }

  /** The layout of the sorted (neighbour, face) pairs themselves. */
  lemma PairsLayout(sliceNeighbours: seq<int>)
    ensures var ps := PolyNeighbourPermutation(sliceNeighbours);
      var n := NumInternal(sliceNeighbours);
      n <= |ps|
      && (forall i :: 0 <= i < n ==> ps[i].0 > 0)
      && (forall i, j :: 0 <= i < j < n ==> ps[i].1 < ps[j].1)
      && (forall i :: n <= i < |ps| ==> ps[i].0 <= 0)
      && (forall i, j :: n <= i < j < |ps| ==> ps[i].0 >= ps[j].0)
  {
    var gip := GenerateIndexedPairs(sliceNeighbours);
    PartitionByFirstLayout(gip);
    PositivesKeepOrder(gip);
    var ps := PolyNeighbourPermutation(sliceNeighbours);
    var n := NumInternal(sliceNeighbours);
    assert ps[..n] == Positives(gip);
    forall i, j | 0 <= i < j < n
      ensures ps[i].1 < ps[j].1
    {
      assert ps[i] == Positives(gip)[i] && ps[j] == Positives(gip)[j];
    }
  }

  /** findPatchBegin: the first position whose neighbour is not positive. */
  function PatchBegin(nap: seq<int>, from: nat): (r: nat)
    requires from <= |nap|
    ensures from <= r <= |nap|
    ensures forall i :: from <= i < r ==> nap[i] > 0
    ensures r < |nap| ==> nap[r] <= 0
    decreases |nap| - from
  {
    if from == |nap| || nap[from] <= 0 then from else PatchBegin(nap, from + 1)
  }

  /** On the partitioned list the patch begin is the internal face count. */
  lemma PatchBeginIsNumInternal(sliceNeighbours: seq<int>)
    ensures PatchBegin(NeighboursAndPatches(sliceNeighbours), 0) == NumInternal(sliceNeighbours)
  {
    NeighboursAndPatchesLayout(sliceNeighbours);
    PatchBeginAt(NeighboursAndPatches(sliceNeighbours), 0, NumInternal(sliceNeighbours));
  }

  lemma {:induction false} PatchBeginAt(nap: seq<int>, from: nat, n: nat)
    requires from <= n <= |nap|
    requires forall i :: from <= i < n ==> nap[i] > 0
    requires n < |nap| ==> nap[n] <= 0
    ensures PatchBegin(nap, from) == n
    decreases n - from
  {
    if from < n {
      PatchBeginAt(nap, from + 1, n);
    }
  }

  class FragmentPermutation {
    /** polyNeighboursPermutation_: emptied once the two lists exist. */
    var pairs: seq<(int, int)>
    /** polyNeighboursAndPatches_ */
    const neighboursAndPatches: seq<int>
    /** facePermutation_ */
    const facePermutation: seq<int>
    /** The neighbour list the permutation was built from. */
    ghost const sliceNeighbours: seq<int>

    ghost predicate Valid()
    {
      neighboursAndPatches == NeighboursAndPatches(sliceNeighbours)
      && facePermutation == FacePermutation(sliceNeighbours)
      && |facePermutation| == |neighboursAndPatches| == |sliceNeighbours|
      && (forall i :: 0 <= i < |facePermutation| ==> 0 <= facePermutation[i] < |facePermutation|)
    }

    constructor(sliceNeighbours: seq<int>)
      ensures this.sliceNeighbours == sliceNeighbours && Valid()
      ensures pairs == []
    {
      this.sliceNeighbours := sliceNeighbours;
      var ps := PolyNeighbourPermutation(sliceNeighbours);
      neighboursAndPatches := ExtractNth(ps, First);
      facePermutation := ExtractNth(ps, Second);
      new;
      FacePermutationIsPermutation(sliceNeighbours);
      pairs := ps;
      pairs := [];
    }

    /** permute(id): the old position of the face now at `id`, whose
        neighbour it carries. */
    function Permute(id: int): (r: int)
      requires Valid() && 0 <= id < |sliceNeighbours|
      ensures 0 <= r < |sliceNeighbours| && sliceNeighbours[r] == neighboursAndPatches[id]
    {
      FacePermutationIsPermutation(sliceNeighbours);
      facePermutation[id]
    }

    /** permute(container): reorders face data into the new face order. */
    method PermuteContainer<T>(input: array<T>)
      requires Valid() && input.Length == |sliceNeighbours|
      modifies input
      ensures forall i :: 0 <= i < input.Length ==> input[i] == old(input[facePermutation[i]])
      ensures multiset(input[..]) == multiset(old(input[..]))
    {
      FacePermutationIsPermutation(sliceNeighbours);
      ghost var before := input[..];
      ApplyPermutation(input, facePermutation);
      PermutedIsRearrangement(before, facePermutation, input[..]);
    }

    /** retrieveNeighbours: the positive neighbours of the internal faces. */
    method RetrieveNeighbours() returns (neighbours: seq<int>)
      requires Valid()
      ensures neighbours == neighboursAndPatches[..NumInternal(sliceNeighbours)]
      ensures forall i :: 0 <= i < |neighbours| ==> neighbours[i] > 0
    {
      PatchBeginIsNumInternal(sliceNeighbours);
      var polyPatchBegin := PatchBegin(neighboursAndPatches, 0);
      neighbours := neighboursAndPatches[..polyPatchBegin];
    }

    /** retrievePatches: the encoded patch ids of the boundary faces. */
    method RetrievePatches() returns (patches: seq<int>)
      requires Valid()
      ensures patches == neighboursAndPatches[NumInternal(sliceNeighbours)..]
      ensures forall i :: 0 <= i < |patches| ==> patches[i] <= 0
      ensures forall i, j :: 0 <= i < j < |patches| ==> patches[i] >= patches[j]
    {
      PatchBeginIsNumInternal(sliceNeighbours);
      NeighboursAndPatchesLayout(sliceNeighbours);
      var polyPatchBegin := PatchBegin(neighboursAndPatches, 0);
      patches := neighboursAndPatches[polyPatchBegin..];
    }
  }

  /** The retrieved neighbours followed by the retrieved patches give the
      whole permuted neighbour list back. */
  lemma RetrievedPartsCompose(sliceNeighbours: seq<int>)
    ensures var nap := NeighboursAndPatches(sliceNeighbours);
      var b := PatchBegin(nap, 0);
      nap[..b] + nap[b..] == nap && |nap[b..]| == |sliceNeighbours| - NumInternal(sliceNeighbours)
  {
    PatchBeginIsNumInternal(sliceNeighbours);
    FacePermutationIsPermutation(sliceNeighbours);
  }
}
