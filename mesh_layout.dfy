// The sequential layout steps that the coherent mesh (CoherentMesh/CoherentMesh.C)
// and the slice mesh (sliceMesh/sliceMesh.C) share: cutting the linearized
// face list at the face starts, decoding the run-length owner list, reversing
// received faces, the number of boundary patches, and the start and size of
// every patch in the permuted neighbour list.
module MeshLayout {
  import SliceHelpers

  /** A mesh point. */
  datatype Point = Point(x: real, y: real, z: real)

  // ----- deserializeFaces ----------------------------------------------------

  /** Face starts that deserializeFaces can cut with: at least one entry,
      never decreasing, and spanning no more than the linearized faces. */
  predicate WellFormedStarts(fs: seq<int>, n: int)
  {
    |fs| > 0
    && (forall i, j :: 0 <= i <= j < |fs| ==> fs[i] <= fs[j])
    && fs[|fs| - 1] - fs[0] <= n
  }

  /** Face i is the slice [fs[i] - fs[0], fs[i+1] - fs[0]) of the linearized
      faces. */
  function Deserialized(fs: seq<int>, lin: seq<int>): (r: seq<seq<int>>)
    requires WellFormedStarts(fs, |lin|)
    ensures |r| == |fs| - 1
    ensures forall i :: 0 <= i < |r| ==> |r[i]| == fs[i + 1] - fs[i]
  {
    seq(|fs| - 1, i requires 0 <= i < |fs| - 1 => lin[fs[i] - fs[0]..fs[i + 1] - fs[0]])
  }

  /** deserializeFaces(faceStarts, linearizedFaces): one face per pair of
      consecutive starts. */
  method DeserializeFaces(faceStarts: seq<int>, linearizedFaces: seq<int>) returns (faces: seq<seq<int>>)
    requires WellFormedStarts(faceStarts, |linearizedFaces|)
    ensures faces == Deserialized(faceStarts, linearizedFaces)
  {
    ghost var cut := Deserialized(faceStarts, linearizedFaces);
    var front := faceStarts[0];
    var globalFaces := new seq<int>[|faceStarts| - 1];
    var i := 0;
    while i < globalFaces.Length
      invariant 0 <= i <= globalFaces.Length
      invariant forall k :: 0 <= k < i ==> globalFaces[k] == cut[k]
    {
      assert 0 <= faceStarts[i] - front <= faceStarts[i + 1] - front <= |linearizedFaces|;
      globalFaces[i] := linearizedFaces[faceStarts[i] - front..faceStarts[i + 1] - front];
      i := i + 1;
    }
    faces := globalFaces[..];
  }

  /** The face starts of a face list that begins at s0: each start is s0 plus
      the number of points of the faces before it. */
  function FaceStarts(faces: seq<seq<int>>, s0: int): (r: seq<int>)
    ensures |r| == |faces| + 1
  {
    seq(|faces| + 1, i requires 0 <= i <= |faces| => s0 + |SliceHelpers.Flatten(faces[..i])|)
  }

  lemma {:induction false} FlattenPrefix(faces: seq<seq<int>>, k: nat)
    requires k <= |faces|
    ensures SliceHelpers.Flatten(faces[..k]) <= SliceHelpers.Flatten(faces)
  {
    if k < |faces| {
      FlattenPrefix(faces[..|faces| - 1], k);
      assert faces[..|faces| - 1][..k] == faces[..k];
    } else {
      assert faces[..k] == faces;
    }
  }

  lemma FlattenStep(faces: seq<seq<int>>, i: nat)
    requires i < |faces|
    ensures SliceHelpers.Flatten(faces[..i + 1]) == SliceHelpers.Flatten(faces[..i]) + faces[i]
  {
    assert faces[..i + 1][..i] == faces[..i];
  }

  lemma FaceStartsFront(faces: seq<seq<int>>, s0: int)
    ensures FaceStarts(faces, s0)[0] == s0
  {
    assert faces[..0] == [];
  }

  lemma FaceStartsWellFormed(faces: seq<seq<int>>, s0: int)
    ensures WellFormedStarts(FaceStarts(faces, s0), |SliceHelpers.Flatten(faces)|)
  {
    var fs := FaceStarts(faces, s0);
    FaceStartsFront(faces, s0);
    forall i, j | 0 <= i <= j < |fs|
      ensures fs[i] <= fs[j]
    {
      FlattenPrefix(faces[..j], i);
      assert faces[..j][..i] == faces[..i];
    }
    assert faces[..|faces|] == faces;
  }

  lemma FaceAtStart(faces: seq<seq<int>>, s0: int, i: nat)
    requires i < |faces|
    requires WellFormedStarts(FaceStarts(faces, s0), |SliceHelpers.Flatten(faces)|)
    ensures Deserialized(FaceStarts(faces, s0), SliceHelpers.Flatten(faces))[i] == faces[i]
  {
    var fs := FaceStarts(faces, s0);
    var all := SliceHelpers.Flatten(faces);
    FaceStartsFront(faces, s0);
    FlattenStep(faces, i);
    FlattenPrefix(faces, i + 1);
    var a := |SliceHelpers.Flatten(faces[..i])|;
    assert fs[i] - fs[0] == a;
    assert fs[i + 1] - fs[0] == a + |faces[i]|;
    var pre := SliceHelpers.Flatten(faces[..i + 1]);
    assert pre == all[..a + |faces[i]|];
    assert pre[a..] == faces[i];
    assert all[a..a + |faces[i]|] == pre[a..];
  }

  /** Deserializing the flattened faces at their own starts gives the faces
      back: deserializeFaces inverts the linearized storage. */
  lemma DeserializeRoundTrip(faces: seq<seq<int>>, s0: int)
    ensures WellFormedStarts(FaceStarts(faces, s0), |SliceHelpers.Flatten(faces)|)
    ensures Deserialized(FaceStarts(faces, s0), SliceHelpers.Flatten(faces)) == faces
  {
    FaceStartsWellFormed(faces, s0);
    var r := Deserialized(FaceStarts(faces, s0), SliceHelpers.Flatten(faces));
    forall i | 0 <= i < |faces|
      ensures r[i] == faces[i]
    {
      FaceAtStart(faces, s0, i);
    }
  }

  // ----- serializeOwner ------------------------------------------------------

  /** Owner starts: at least one entry, never decreasing. */
  predicate RunStarts(os: seq<int>)
  {
    |os| > 0 && forall i, j :: 0 <= i <= j < |os| ==> os[i] <= os[j]
  }

  /** The owner list spans the owner starts, and every position in the run
      of cell c holds c. */
  predicate OwnerRuns(owner: seq<int>, os: seq<int>)
    requires RunStarts(os)
  {
    |owner| == os[|os| - 1] - os[0]
    && forall c, k :: 0 <= c < |os| - 1 && os[c] - os[0] <= k < os[c + 1] - os[0] ==> owner[k] == c
  }

  /** serializeOwner(ownerStarts): the run-length decoding of the owner
      starts, filling run i with cell id i. */
  method SerializeOwner(ownerStarts: seq<int>) returns (owner: seq<int>)
    requires RunStarts(ownerStarts)
    ensures OwnerRuns(owner, ownerStarts)
  {
    var front := ownerStarts[0];
    var localOwner := new int[ownerStarts[|ownerStarts| - 1] - front];
    var ownerCellId := 0;
    var i := 0;
    while i < |ownerStarts| - 1
      invariant 0 <= i <= |ownerStarts| - 1 && ownerCellId == i
      invariant forall c, k :: 0 <= c < i && ownerStarts[c] - front <= k < ownerStarts[c + 1] - front
                  ==> localOwner[k] == c
    {
      var j := ownerStarts[i] - front;
      while j < ownerStarts[i + 1] - front
        invariant ownerStarts[i] - front <= j <= ownerStarts[i + 1] - front
        invariant forall c, k :: 0 <= c < i && ownerStarts[c] - front <= k < ownerStarts[c + 1] - front
                    ==> localOwner[k] == c
        invariant forall k :: ownerStarts[i] - front <= k < j ==> localOwner[k] == i
      {
        localOwner[j] := ownerCellId;
        j := j + 1;
      }
      ownerCellId := ownerCellId + 1;
      i := i + 1;
    }
    owner := localOwner[..];
  }

  /** Every owner position lies in the run of some cell. */
  lemma {:induction false} RunCovers(os: seq<int>, k: int)
    requires RunStarts(os) && 0 <= k < os[|os| - 1] - os[0]
    ensures exists c :: 0 <= c < |os| - 1 && os[c] - os[0] <= k < os[c + 1] - os[0]
  {
    var n := |os|;
    if k < os[n - 2] - os[0] {
      RunCovers(os[..n - 1], k);
      var c :| 0 <= c < n - 2 && os[..n - 1][c] - os[0] <= k < os[..n - 1][c + 1] - os[0];
      assert os[c] - os[0] <= k < os[c + 1] - os[0];
    } else {
      assert os[n - 2] - os[0] <= k < os[n - 1] - os[0];
    }
  }

  /** The decoded owner list is sorted and holds only cell ids of the runs:
      owners ascend with the face order. */
  lemma OwnerRunsSorted(owner: seq<int>, os: seq<int>)
    requires RunStarts(os) && OwnerRuns(owner, os)
    ensures forall k :: 0 <= k < |owner| ==> 0 <= owner[k] < |os| - 1
    ensures forall i, j :: 0 <= i <= j < |owner| ==> owner[i] <= owner[j]
  {
    forall k | 0 <= k < |owner|
      ensures 0 <= owner[k] < |os| - 1
    {
      RunCovers(os, k);
    }
    forall i, j | 0 <= i <= j < |owner|
      ensures owner[i] <= owner[j]
    {
      RunCovers(os, i);
      RunCovers(os, j);
      var ci :| 0 <= ci < |os| - 1 && os[ci] - os[0] <= i < os[ci + 1] - os[0];
      var cj :| 0 <= cj < |os| - 1 && os[cj] - os[0] <= j < os[cj + 1] - os[0];
    }
  }

  // ----- face::reverseFace ---------------------------------------------------

  /** face::reverseFace: the first point stays, the others are reversed. */
  function ReverseFace(f: seq<int>): (r: seq<int>)
    ensures |r| == |f|
    ensures |f| > 0 ==> r[0] == f[0]
    ensures forall k :: 0 < k < |f| ==> r[k] == f[|f| - k]
  {
    if |f| == 0 then [] else [f[0]] + seq(|f| - 1, k requires 0 <= k < |f| - 1 => f[|f| - 1 - k])
  }

  /** Reversing twice gives the face back, and a reversed face has the same
      points. */
  lemma ReverseFaceInvolution(f: seq<int>)
    ensures ReverseFace(ReverseFace(f)) == f
    ensures forall x :: x in ReverseFace(f) <==> x in f
  {
    var r := ReverseFace(f);
    forall x
      ensures x in r <==> x in f
    {
      if x in r {
        var k :| 0 <= k < |r| && r[k] == x;
        if k > 0 {
          assert f[|f| - k] == x;
        }
      }
      if x in f {
        var k :| 0 <= k < |f| && f[k] == x;
        if k > 0 {
          assert r[|f| - k] == x;
        }
      }
    }
  }

  function ReverseFaces(faces: seq<seq<int>>): (r: seq<seq<int>>)
    ensures |r| == |faces|
    ensures forall i :: 0 <= i < |faces| ==> r[i] == ReverseFace(faces[i])
  {
    seq(|faces|, i requires 0 <= i < |faces| => ReverseFace(faces[i]))
  }

  // ----- numBoundaries -------------------------------------------------------

  function MinOf(xs: seq<int>): (m: int)
    requires |xs| > 0
    ensures m in xs && forall i :: 0 <= i < |xs| ==> m <= xs[i]
  {
    if |xs| == 1 then xs[0]
    else
      var m := MinOf(xs[1..]);
      assert forall i :: 1 <= i < |xs| ==> xs[i] == xs[1..][i - 1];
      if xs[0] <= m then xs[0] else m
  }

  function MaxOf(xs: seq<int>): (m: int)
    requires |xs| > 0
    ensures m in xs && forall i :: 0 <= i < |xs| ==> xs[i] <= m
  {
    if |xs| == 1 then xs[0]
    else
      var m := MaxOf(xs[1..]);
      assert forall i :: 1 <= i < |xs| ==> xs[i] == xs[1..][i - 1];
      if xs[0] >= m then xs[0] else m
  }

  /** numBoundaries_ before the reduction: the decoded smallest neighbour
      plus one. */
  function LocalNumBoundaries(neighbours: seq<int>): int
    requires |neighbours| > 0
  {
    SliceHelpers.DecodeSlicePatchId(MinOf(neighbours)) + 1
  }

  /** numBoundaries_ after the max-reduction over all processes' neighbour
      lists: every patch number any process refers to lies below it. */
  lemma PatchNumbersBelowNumBoundaries(all: seq<seq<int>>, p: nat, i: nat)
    requires |all| > 0 && forall q :: 0 <= q < |all| ==> |all[q]| > 0
    requires p < |all| && i < |all[p]| && all[p][i] < 0
    ensures 0 <= SliceHelpers.DecodeSlicePatchId(all[p][i])
              < MaxOf(seq(|all|, q requires 0 <= q < |all| => LocalNumBoundaries(all[q])))
  {
    var locals := seq(|all|, q requires 0 <= q < |all| => LocalNumBoundaries(all[q]));
    assert locals[p] == LocalNumBoundaries(all[p]);
    assert MinOf(all[p]) <= all[p][i];
  }

  // ----- patch starts and sizes ----------------------------------------------

  /** std::find: the first position holding v, or |xs|. */
  function FindIndex(xs: seq<int>, v: int): (r: nat)
    ensures r <= |xs|
    ensures r < |xs| ==> xs[r] == v
    ensures forall k :: 0 <= k < r ==> xs[k] != v
    ensures r == |xs| <==> v !in xs
  {
    if |xs| == 0 then 0
    else if xs[0] == v then 0
    else
      assert forall k :: 1 <= k < |xs| ==> xs[k] == xs[1..][k - 1];
      1 + FindIndex(xs[1..], v)
  }

  /** std::count. */
  function Occurrences(xs: seq<int>, v: int): nat
  {
    if |xs| == 0 then 0 else (if xs[0] == v then 1 else 0) + Occurrences(xs[1..], v)
  }

  /** The number of entries greater than v. */
  function CountAbove(xs: seq<int>, v: int): nat
  {
    if |xs| == 0 then 0 else (if xs[0] > v then 1 else 0) + CountAbove(xs[1..], v)
  }

  /** Start and size of the physical patch `patchi`, given where the
      previous patch ended: found patches start at their first face, absent
      ones are empty and start at the previous end. */
  function PhysicalPatch(patches: seq<int>, numInternalFaces: int, patchi: nat, nextPatchStart: int): (int, int)
  {
    var id := SliceHelpers.EncodeSlicePatchId(patchi);
    var at := FindIndex(patches, id);
    if at < |patches| then (numInternalFaces + at, Occurrences(patches[at..], id))
    else (nextPatchStart, 0)
  }

  /** polyPatches(boundary), physical patches: the start and size set into
      each patch entry, walking the entries with the running next start. */
  method PhysicalPatchBounds(patches: seq<int>, numInternalFaces: int, numEntries: nat)
    returns (bounds: seq<(int, int)>)
    ensures |bounds| == numEntries
    ensures PatchWalk(patches, numInternalFaces, bounds)
  {
    bounds := [];
    var nextPatchStart := numInternalFaces;
    var patchi := 0;
    while patchi < numEntries
      invariant 0 <= patchi <= numEntries && |bounds| == patchi
      invariant nextPatchStart == if patchi == 0 then numInternalFaces
                                  else bounds[patchi - 1].0 + bounds[patchi - 1].1
      invariant PatchWalk(patches, numInternalFaces, bounds)
    {
      var patchStart := nextPatchStart;
      var patchSize := 0;
      var slicePatchId := SliceHelpers.EncodeSlicePatchId(patchi);
      var at := FindIndex(patches, slicePatchId);
      if at < |patches| {
        patchStart := numInternalFaces + at;
        patchSize := Occurrences(patches[at..], slicePatchId);
      }
      assert (patchStart, patchSize) == PhysicalPatch(patches, numInternalFaces, patchi, nextPatchStart);
      PatchWalkSnoc(patches, numInternalFaces, bounds, (patchStart, patchSize));
      bounds := bounds + [(patchStart, patchSize)];
      nextPatchStart := patchStart + patchSize;
      patchi := patchi + 1;
    }
  }

  /** polyPatches(boundary), processor patches: the start at the first face
      carrying the patch id and the count from there on. */
  function ProcessorPatchBounds(patches: seq<int>, numInternalFaces: int, id: int): (r: (int, int))
    ensures r.1 <= |patches|
  {
    var at := FindIndex(patches, id);
    OccurrencesBound(patches[at..], id);
    (numInternalFaces + at, Occurrences(patches[at..], id))
  }

  lemma {:induction false} OccurrencesBound(xs: seq<int>, v: int)
    ensures Occurrences(xs, v) <= |xs|
  {
    if |xs| > 0 {
      OccurrencesBound(xs[1..], v);
    }
  }

  predicate Descending(xs: seq<int>)
  {
    forall i, j :: 0 <= i <= j < |xs| ==> xs[i] >= xs[j]
  }

  /** In a descending list the first v sits after all larger entries, and
      every v follows it. */
  lemma {:induction false} FindInDescending(xs: seq<int>, v: int)
    requires Descending(xs) && v in xs
    ensures FindIndex(xs, v) == CountAbove(xs, v)
    ensures Occurrences(xs[FindIndex(xs, v)..], v) == Occurrences(xs, v)
  {
    if xs[0] != v {
      assert xs[0] > v by {
        var k :| 0 <= k < |xs| && xs[k] == v;
      }
      assert v in xs[1..] by {
        var k :| 0 <= k < |xs| && xs[k] == v;
        assert xs[1..][k - 1] == v;
      }
      FindInDescending(xs[1..], v);
      assert xs[FindIndex(xs, v)..] == xs[1..][FindIndex(xs[1..], v)..];
    } else {
      assert xs[0..] == xs;
      NoneAbove(xs, v);
    }
  }

  /** Counting above v - 1 counts above v and the v's. */
  lemma {:induction false} CountAboveStep(xs: seq<int>, v: int)
    ensures CountAbove(xs, v - 1) == CountAbove(xs, v) + Occurrences(xs, v)
  {
    if |xs| > 0 {
      CountAboveStep(xs[1..], v);
    }
  }

  lemma {:induction false} NoneAbove(xs: seq<int>, v: int)
    requires forall k :: 0 <= k < |xs| ==> xs[k] <= v
    ensures CountAbove(xs, v) == 0
  {
    if |xs| > 0 {
      NoneAbove(xs[1..], v);
    }
  }

  /** Each entry's bounds as polyPatches sets them, from the previous
      entry's end. */
  predicate PatchWalk(patches: seq<int>, numInternalFaces: int, bounds: seq<(int, int)>)
  {
    forall i :: 0 <= i < |bounds| ==>
      bounds[i] == PhysicalPatch(patches, numInternalFaces, i,
                                 if i == 0 then numInternalFaces else bounds[i - 1].0 + bounds[i - 1].1)
  }

  lemma PatchWalkSnoc(patches: seq<int>, numInternalFaces: int, bounds: seq<(int, int)>, b: (int, int))
    requires PatchWalk(patches, numInternalFaces, bounds)
    requires b == PhysicalPatch(patches, numInternalFaces, |bounds|,
                                if |bounds| == 0 then numInternalFaces
                                else bounds[|bounds| - 1].0 + bounds[|bounds| - 1].1)
    ensures PatchWalk(patches, numInternalFaces, bounds + [b])
  {
    var nb := bounds + [b];
    forall i | 0 <= i < |nb|
      ensures nb[i] == PhysicalPatch(patches, numInternalFaces, i,
                                     if i == 0 then numInternalFaces else nb[i - 1].0 + nb[i - 1].1)
    {
      if i < |bounds| {
        assert nb[i] == bounds[i];
        if i > 0 {
          assert nb[i - 1] == bounds[i - 1];
        }
      }
    }
  }

  /** With the patch list in descending order (as retrievePatches leaves it)
      and no entry above -1, physical patch i starts after all faces of the
      patches before it and holds all faces carrying its id: the physical
      patches tile the boundary faces in patch order. */
  lemma {:induction false} PhysicalPatchesTile(patches: seq<int>, numInternalFaces: int, bounds: seq<(int, int)>)
    requires Descending(patches)
    requires forall k :: 0 <= k < |patches| ==> patches[k] < 0
    requires PatchWalk(patches, numInternalFaces, bounds)
    ensures forall i :: 0 <= i < |bounds| ==>
              bounds[i] == (numInternalFaces + CountAbove(patches, SliceHelpers.EncodeSlicePatchId(i)),
                            Occurrences(patches, SliceHelpers.EncodeSlicePatchId(i)))
  {
    forall i | 0 <= i < |bounds|
      ensures bounds[i] == (numInternalFaces + CountAbove(patches, SliceHelpers.EncodeSlicePatchId(i)),
                            Occurrences(patches, SliceHelpers.EncodeSlicePatchId(i)))
    {
      TileAt(patches, numInternalFaces, bounds, i);
    }
  }

  lemma {:induction false} TileAt(patches: seq<int>, numInternalFaces: int, bounds: seq<(int, int)>, i: nat)
    requires Descending(patches)
    requires forall k :: 0 <= k < |patches| ==> patches[k] < 0
    requires PatchWalk(patches, numInternalFaces, bounds)
    requires i < |bounds|
    ensures bounds[i] == (numInternalFaces + CountAbove(patches, SliceHelpers.EncodeSlicePatchId(i)),
                          Occurrences(patches, SliceHelpers.EncodeSlicePatchId(i)))
  {
    var id := SliceHelpers.EncodeSlicePatchId(i);
    var prev := if i == 0 then numInternalFaces else bounds[i - 1].0 + bounds[i - 1].1;
    assert bounds[i] == PhysicalPatch(patches, numInternalFaces, i, prev);
    if id in patches {
      FindInDescending(patches, id);
    } else {
      OccurrencesAbsent(patches, id);
      if i == 0 {
        NoneAbove(patches, -1);
      } else {
        TileAt(patches, numInternalFaces, bounds, i - 1);
        CountAboveStep(patches, SliceHelpers.EncodeSlicePatchId(i - 1));
      }
    }
  }

  lemma {:induction false} OccurrencesAbsent(xs: seq<int>, v: int)
    requires v !in xs
    ensures Occurrences(xs, v) == 0
  {
    if |xs| > 0 {
      assert xs[0] != v;
      assert v !in xs[1..];
      OccurrencesAbsent(xs[1..], v);
    }
  }
}
