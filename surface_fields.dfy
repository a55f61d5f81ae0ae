// Reading and writing of surface fields in the coherent format
// (finiteVolume/fields/surfaceFields/surfaceFieldsI.H and surfaceFields.C).
// On storage, the internal surface field of a partition also holds the faces
// it shares with higher partitions (its processor faces). Reading splits that
// coherent list into FOAM's internal field and one list per processor patch;
// writing interleaves them back. pf (internalFaceIDsFromBoundaries) lists the
// coherent positions that belong to processor patches, in ascending order,
// and pfpi (boundryIDsFromInternalFaces) the boundary patch of each.
module SurfaceFields {
  import opened Wrappers
  import opened OffsetTables
  import CoherentOffsets

  // ----- where every coherent position goes ---------------------------------

  /** pf is sorted without repetitions and never negative. */
  predicate Ascending(pf: seq<int>)
  {
    (forall k :: 0 <= k < |pf| ==> 0 <= pf[k])
    && forall k, l :: 0 <= k < l < |pf| ==> pf[k] < pf[l]
  }

  /** The coherent positions below n that hold internal faces, in order. */
  function FreePositions(pf: seq<int>, n: nat): (r: seq<int>)
    ensures |r| <= n
    ensures forall j :: 0 <= j < |r| ==> 0 <= r[j] < n && r[j] !in pf
  {
    if n == 0 then [] else FreePositions(pf, n - 1) + (if n - 1 in pf then [] else [n - 1])
  }

  /** The patch-data index of processor face k: its boundary patch id less
      the number of non-processor patches. */
  function PatchIndex(pfpi: seq<int>, nNonProc: int, k: nat): int
    requires k < |pfpi|
  {
    pfpi[k] - nNonProc
  }

  /** The coherent positions below n of the faces of processor patch q, in
      the order pf lists them. */
  function PatchPositions(pf: seq<int>, pfpi: seq<int>, nNonProc: int, q: int, n: nat): (r: seq<int>)
    requires |pf| == |pfpi|
    ensures |r| <= |pf|
    ensures forall j :: 0 <= j < |r| ==> 0 <= r[j] < n
  {
    if |pf| == 0 then []
    else
      var k := |pf| - 1;
      PatchPositions(pf[..k], pfpi[..k], nNonProc, q, n)
        + (if 0 <= pf[k] < n && pfpi[k] - nNonProc == q then [pf[k]] else [])
  }

  /** The internal field the split leaves: the entries at free positions. */
  function InternalOf(data: seq<real>, pf: seq<int>): (r: seq<real>)
    ensures |r| == |FreePositions(pf, |data|)|
    ensures forall j :: 0 <= j < |r| ==> r[j] == data[FreePositions(pf, |data|)[j]]
  {
    var free := FreePositions(pf, |data|);
    seq(|free|, j requires 0 <= j < |free| => data[free[j]])
  }

  /** The data of processor patch q the split leaves. */
  function PatchDataOf(data: seq<real>, pf: seq<int>, pfpi: seq<int>, nNonProc: int, q: int): (r: seq<real>)
    requires |pf| == |pfpi|
    ensures |r| == |PatchPositions(pf, pfpi, nNonProc, q, |data|)|
    ensures forall j :: 0 <= j < |r| ==> r[j] == data[PatchPositions(pf, pfpi, nNonProc, q, |data|)[j]]
  {
    var pos := PatchPositions(pf, pfpi, nNonProc, q, |data|);
    seq(|pos|, j requires 0 <= j < |pos| => data[pos[j]])
  }

  lemma {:induction false} FreePositionsGrow(pf: seq<int>, i: nat, n: nat)
    requires i <= n
    ensures |FreePositions(pf, i)| <= |FreePositions(pf, n)|
    decreases n - i
  {
    if i < n {
      FreePositionsGrow(pf, i, n - 1);
    }
  }

  lemma {:induction false} FreePositionsOfNone(n: nat)
    ensures FreePositions([], n) == seq(n, i requires 0 <= i < n => i)
  {
    if n > 0 {
      FreePositionsOfNone(n - 1);
    }
  }

  /** Adding processor faces to the list never removes a patch position. */
  lemma {:induction false} PatchPositionsGrow(pf: seq<int>, pfpi: seq<int>, nNonProc: int, q: int, n: nat, m: nat)
    requires |pf| == |pfpi| && m <= |pf|
    ensures |PatchPositions(pf[..m], pfpi[..m], nNonProc, q, n)| <= |PatchPositions(pf, pfpi, nNonProc, q, n)|
    decreases |pf| - m
  {
    if m < |pf| {
      var k := |pf| - 1;
      assert pf[..k][..m] == pf[..m] && pfpi[..k][..m] == pfpi[..m];
      PatchPositionsGrow(pf[..k], pfpi[..k], nNonProc, q, n, m);
    } else {
      assert pf[..m] == pf && pfpi[..m] == pfpi;
    }
  }

  /** Processor faces at or beyond n contribute no patch position below n. */
  lemma {:induction false} PatchPositionsBeyond(pf: seq<int>, pfpi: seq<int>, nNonProc: int, q: int, n: nat, m: nat)
    requires |pf| == |pfpi| && m <= |pf|
    requires forall k :: m <= k < |pf| ==> pf[k] >= n
    ensures PatchPositions(pf[..m], pfpi[..m], nNonProc, q, n) == PatchPositions(pf, pfpi, nNonProc, q, n)
    decreases |pf| - m
  {
    if m < |pf| {
      var k := |pf| - 1;
      assert pf[..k][..m] == pf[..m] && pfpi[..k][..m] == pfpi[..m];
      PatchPositionsBeyond(pf[..k], pfpi[..k], nNonProc, q, n, m);
    } else {
      assert pf[..m] == pf && pfpi[..m] == pfpi;
    }
  }

  lemma PatchPositionsSnoc(pf: seq<int>, pfpi: seq<int>, nNonProc: int, q: int, n: nat, m: nat)
    requires |pf| == |pfpi| && m < |pf|
    ensures PatchPositions(pf[..m + 1], pfpi[..m + 1], nNonProc, q, n)
            == PatchPositions(pf[..m], pfpi[..m], nNonProc, q, n)
               + (if 0 <= pf[m] < n && PatchIndex(pfpi, nNonProc, m) == q then [pf[m]] else [])
  {
    assert pf[..m + 1][..m] == pf[..m] && pfpi[..m + 1][..m] == pfpi[..m];
  }

  // ----- reader::read: the split ---------------------------------------------

  /** The first |FreePositions(pf, i)| internal entries hold the internal
      faces among the first i coherent positions; the others are as before. */
  ghost predicate InternalFilled(cur: seq<real>, orig: seq<real>, data: seq<real>, pf: seq<int>, i: nat)
  {
    var free := FreePositions(pf, i);
    i <= |data| && |cur| == |orig| && |free| <= |cur|
    && (forall j :: 0 <= j < |free| ==> cur[j] == data[free[j]])
    && (forall j :: |free| <= j < |cur| ==> cur[j] == orig[j])
  }

  /** Patch q holds, at the front, the data of its faces among the first m
      processor faces; `counters` says how many. */
  ghost predicate PatchesFilled(cur: seq<seq<real>>, orig: seq<seq<real>>, counters: seq<int>,
                                data: seq<real>, pf: seq<int>, pfpi: seq<int>, nNonProc: int, m: nat)
    requires |pf| == |pfpi| && m <= |pf|
  {
    |cur| == |orig| == |counters|
    && forall q :: 0 <= q < |cur| ==>
         var pos := PatchPositions(pf[..m], pfpi[..m], nNonProc, q, |data|);
         counters[q] == |pos| && |cur[q]| == |orig[q]| && |pos| <= |cur[q]|
         && (forall j :: 0 <= j < |pos| ==> cur[q][j] == data[pos[j]])
         && (forall j :: |pos| <= j < |cur[q]| ==> cur[q][j] == orig[q][j])
  }

  lemma InternalStep(cur: seq<real>, orig: seq<real>, data: seq<real>, pf: seq<int>, i: nat)
    requires InternalFilled(cur, orig, data, pf, i) && i < |data| && i !in pf
    requires |FreePositions(pf, i)| < |cur|
    ensures InternalFilled(cur[|FreePositions(pf, i)| := data[i]], orig, data, pf, i + 1)
    ensures |FreePositions(pf, i + 1)| == |FreePositions(pf, i)| + 1
  {
  }

  lemma InternalSkip(cur: seq<real>, orig: seq<real>, data: seq<real>, pf: seq<int>, i: nat)
    requires InternalFilled(cur, orig, data, pf, i) && i < |data| && i in pf
    ensures InternalFilled(cur, orig, data, pf, i + 1)
    ensures |FreePositions(pf, i + 1)| == |FreePositions(pf, i)|
  {
  }

  lemma PatchesStep(cur: seq<seq<real>>, orig: seq<seq<real>>, counters: seq<int>,
                    data: seq<real>, pf: seq<int>, pfpi: seq<int>, nNonProc: int, m: nat)
    requires |pf| == |pfpi| && m < |pf| && 0 <= pf[m] < |data|
    requires PatchesFilled(cur, orig, counters, data, pf, pfpi, nNonProc, m)
    requires 0 <= PatchIndex(pfpi, nNonProc, m) < |cur|
    requires counters[PatchIndex(pfpi, nNonProc, m)] < |cur[PatchIndex(pfpi, nNonProc, m)]|
    ensures var q := PatchIndex(pfpi, nNonProc, m);
            PatchesFilled(cur[q := cur[q][counters[q] := data[pf[m]]]], orig, counters[q := counters[q] + 1],
                          data, pf, pfpi, nNonProc, m + 1)
  {
    var q0 := PatchIndex(pfpi, nNonProc, m);
    forall q | 0 <= q < |cur|
      ensures PatchPositions(pf[..m + 1], pfpi[..m + 1], nNonProc, q, |data|)
              == PatchPositions(pf[..m], pfpi[..m], nNonProc, q, |data|) + (if q == q0 then [pf[m]] else [])
    {
      PatchPositionsSnoc(pf, pfpi, nNonProc, q, |data|, m);
    }
  }

  lemma InternalDone(cur: seq<real>, orig: seq<real>, data: seq<real>, pf: seq<int>)
    requires InternalFilled(cur, orig, data, pf, |data|)
    ensures cur[..|InternalOf(data, pf)|] == InternalOf(data, pf)
    ensures cur[|InternalOf(data, pf)|..] == orig[|InternalOf(data, pf)|..]
  {
  }

  lemma PatchesDone(cur: seq<seq<real>>, orig: seq<seq<real>>, counters: seq<int>,
                    data: seq<real>, pf: seq<int>, pfpi: seq<int>, nNonProc: int, m: nat)
    requires |pf| == |pfpi| && m <= |pf|
    requires PatchesFilled(cur, orig, counters, data, pf, pfpi, nNonProc, m)
    requires forall k :: m <= k < |pf| ==> pf[k] >= |data|
    requires forall q :: 0 <= q < |orig| ==> |PatchPositions(pf, pfpi, nNonProc, q, |data|)| <= |orig[q]|
    ensures |cur| == |orig|
    ensures forall q :: 0 <= q < |cur| ==>
              var own := PatchDataOf(data, pf, pfpi, nNonProc, q);
              cur[q] == own + orig[q][|own|..]
  {
    forall q | 0 <= q < |cur|
      ensures var own := PatchDataOf(data, pf, pfpi, nNonProc, q);
              cur[q] == own + orig[q][|own|..]
    {
      PatchPositionsBeyond(pf, pfpi, nNonProc, q, |data|, m);
    }
  }

  /** The walk's test "i == pf[pfI]" is membership in pf while the cursor
      pfI stays at the first processor face not below i. */
  lemma WalkTest(pf: seq<int>, pfI: nat, i: int)
    requires Ascending(pf) && pfI <= |pf|
    requires forall k :: 0 <= k < pfI ==> pf[k] < i
    requires pfI < |pf| ==> pf[pfI] >= i
    ensures i in pf <==> pfI < |pf| && i == pf[pfI]
  {
    if i in pf {
      var k :| 0 <= k < |pf| && pf[k] == i;
      if pfI < |pf| {
        assert forall l :: pfI < l < |pf| ==> pf[pfI] < pf[l];
      }
    }
  }

  /** The state of the walk of the split before coherent position i: the
      cursor is at the first processor face not below i, the internal
      field and the patches hold the data of the positions below i. */
  ghost predicate WalkAt(data: seq<real>, pf: seq<int>, pfpi: seq<int>, nNonProc: int, procPatchData: seq<seq<real>>,
                         orig: seq<real>, cur: seq<real>, i: nat, cursor: nat, internalFaceI: nat,
                         patches: seq<seq<real>>, patchFaceI: seq<int>)
    requires |pf| == |pfpi|
  {
    && cursor <= |pf| && (forall k :: 0 <= k < cursor ==> pf[k] < i) && (cursor < |pf| ==> pf[cursor] >= i)
    && internalFaceI == |FreePositions(pf, i)|
    && InternalFilled(cur, orig, data, pf, i)
    && PatchesFilled(patches, procPatchData, patchFaceI, data, pf, pfpi, nNonProc, cursor)
  }

  /** A processor face: its data goes to the next free slot of its patch. */
  lemma WalkToPatch(data: seq<real>, pf: seq<int>, pfpi: seq<int>, nNonProc: int, procPatchData: seq<seq<real>>,
                    orig: seq<real>, cur: seq<real>, i: nat, cursor: nat, internalFaceI: nat,
                    patches: seq<seq<real>>, patchFaceI: seq<int>)
    requires |pf| == |pfpi| && Ascending(pf) && i < |data|
    requires forall k :: 0 <= k < |pf| && pf[k] < |data| ==> 0 <= PatchIndex(pfpi, nNonProc, k) < |procPatchData|
    requires forall q :: 0 <= q < |procPatchData| ==> |PatchPositions(pf, pfpi, nNonProc, q, |data|)| <= |procPatchData[q]|
    requires WalkAt(data, pf, pfpi, nNonProc, procPatchData, orig, cur, i, cursor, internalFaceI, patches, patchFaceI)
    requires cursor < |pf| && i == pf[cursor]
    ensures var q := PatchIndex(pfpi, nNonProc, cursor);
            && 0 <= q < |patches| && 0 <= patchFaceI[q] < |patches[q]|
            && WalkAt(data, pf, pfpi, nNonProc, procPatchData, orig, cur, i + 1, cursor + 1, internalFaceI,
                      patches[q := patches[q][patchFaceI[q] := data[pf[cursor]]]], patchFaceI[q := patchFaceI[q] + 1])
  {
    var q := PatchIndex(pfpi, nNonProc, cursor);
    PatchPositionsGrow(pf, pfpi, nNonProc, q, |data|, cursor + 1);
    PatchPositionsSnoc(pf, pfpi, nNonProc, q, |data|, cursor);
    PatchesStep(patches, procPatchData, patchFaceI, data, pf, pfpi, nNonProc, cursor);
    InternalSkip(cur, orig, data, pf, i);
    assert cursor + 1 < |pf| ==> pf[cursor] < pf[cursor + 1];
  }

  /** Any other position: its data goes to the next internal face. */
  lemma WalkToInternal(data: seq<real>, pf: seq<int>, pfpi: seq<int>, nNonProc: int, procPatchData: seq<seq<real>>,
                       orig: seq<real>, cur: seq<real>, i: nat, cursor: nat, internalFaceI: nat,
                       patches: seq<seq<real>>, patchFaceI: seq<int>)
    requires |pf| == |pfpi| && Ascending(pf) && i < |data|
    requires |FreePositions(pf, |data|)| <= |cur|
    requires WalkAt(data, pf, pfpi, nNonProc, procPatchData, orig, cur, i, cursor, internalFaceI, patches, patchFaceI)
    requires !(cursor < |pf| && i == pf[cursor])
    ensures internalFaceI < |cur|
    ensures WalkAt(data, pf, pfpi, nNonProc, procPatchData, orig, cur[internalFaceI := data[i]], i + 1, cursor,
                   internalFaceI + 1, patches, patchFaceI)
  {
    WalkTest(pf, cursor, i);
    FreePositionsGrow(pf, i + 1, |data|);
    InternalStep(cur, orig, data, pf, i);
  }

  /** A processor face of the walk of the split: its value is stored in
      the next free slot of its processor patch. */
  method SplitToPatch(data: seq<real>, pf: seq<int>, pfpi: seq<int>, nNonProc: int, procPatchData: seq<seq<real>>,
                      ghost orig: seq<real>, ghost cur: seq<real>,
                      i: nat, cursor: nat, internalFaceI: nat, patches: seq<seq<real>>, patchFaceI: seq<int>)
    returns (patches': seq<seq<real>>, patchFaceI': seq<int>)
    requires |pf| == |pfpi| && Ascending(pf) && i < |data|
    requires forall k :: 0 <= k < |pf| && pf[k] < |data| ==> 0 <= PatchIndex(pfpi, nNonProc, k) < |procPatchData|
    requires forall q :: 0 <= q < |procPatchData| ==> |PatchPositions(pf, pfpi, nNonProc, q, |data|)| <= |procPatchData[q]|
    requires WalkAt(data, pf, pfpi, nNonProc, procPatchData, orig, cur, i, cursor, internalFaceI, patches, patchFaceI)
    requires cursor < |pf| && i == pf[cursor]
    ensures WalkAt(data, pf, pfpi, nNonProc, procPatchData, orig, cur, i + 1, cursor + 1, internalFaceI, patches', patchFaceI')
  {
    WalkToPatch(data, pf, pfpi, nNonProc, procPatchData, orig, cur, i, cursor, internalFaceI, patches, patchFaceI);
    var patchI := pfpi[cursor] - nNonProc;
    patches' := patches[patchI := patches[patchI][patchFaceI[patchI] := data[pf[cursor]]]];
    patchFaceI' := patchFaceI[patchI := patchFaceI[patchI] + 1];
  }

  /** Any other position of the walk of the split: its value is stored in
      the next internal face. */
  method SplitToInternal(data: seq<real>, pf: seq<int>, pfpi: seq<int>, nNonProc: int,
                         internal: array<real>, procPatchData: seq<seq<real>>, ghost orig: seq<real>,
                         i: nat, cursor: nat, internalFaceI: nat, patches: seq<seq<real>>, patchFaceI: seq<int>)
    requires |pf| == |pfpi| && Ascending(pf) && i < |data|
    requires |FreePositions(pf, |data|)| <= internal.Length
    requires WalkAt(data, pf, pfpi, nNonProc, procPatchData, orig, internal[..], i, cursor, internalFaceI, patches, patchFaceI)
    requires !(cursor < |pf| && i == pf[cursor])
    modifies internal
    ensures WalkAt(data, pf, pfpi, nNonProc, procPatchData, orig, internal[..], i + 1, cursor, internalFaceI + 1, patches, patchFaceI)
  {
    WalkToInternal(data, pf, pfpi, nNonProc, procPatchData, orig, internal[..], i, cursor, internalFaceI, patches, patchFaceI);
    internal[internalFaceI] := data[i];
    assert internal[..] == old(internal[..])[internalFaceI := data[i]];
  }

  /** One position of the walk of the split: coherent position i goes to
      its processor patch or to the internal field. */
  method SplitStep(data: seq<real>, pf: seq<int>, pfpi: seq<int>, nNonProc: int,
                   internal: array<real>, procPatchData: seq<seq<real>>, ghost orig: seq<real>,
                   i: nat, cursor: nat, internalFaceI: nat, patches: seq<seq<real>>, patchFaceI: seq<int>)
    returns (cursor': nat, internalFaceI': nat, patches': seq<seq<real>>, patchFaceI': seq<int>)
    requires |pf| == |pfpi| && Ascending(pf) && i < |data|
    requires forall k :: 0 <= k < |pf| && pf[k] < |data| ==> 0 <= PatchIndex(pfpi, nNonProc, k) < |procPatchData|
    requires |FreePositions(pf, |data|)| <= internal.Length
    requires forall q :: 0 <= q < |procPatchData| ==> |PatchPositions(pf, pfpi, nNonProc, q, |data|)| <= |procPatchData[q]|
    requires WalkAt(data, pf, pfpi, nNonProc, procPatchData, orig, internal[..], i, cursor, internalFaceI, patches, patchFaceI)
    modifies internal
    ensures WalkAt(data, pf, pfpi, nNonProc, procPatchData, orig, internal[..], i + 1, cursor', internalFaceI', patches', patchFaceI')
  {
    if cursor < |pf| && i == pf[cursor] {
      patches', patchFaceI' := SplitToPatch(data, pf, pfpi, nNonProc, procPatchData, orig, internal[..],
                                            i, cursor, internalFaceI, patches, patchFaceI);
      cursor', internalFaceI' := cursor + 1, internalFaceI;
    } else {
      SplitToInternal(data, pf, pfpi, nNonProc, internal, procPatchData, orig, i, cursor, internalFaceI, patches, patchFaceI);
      cursor', internalFaceI', patches', patchFaceI' := cursor, internalFaceI + 1, patches, patchFaceI;
    }
  }

  /** The walk over the coherent data (the branch with processor faces). */
  method SplitWalk(data: seq<real>, pf: seq<int>, pfpi: seq<int>, nNonProc: int,
                   internal: array<real>, procPatchData: seq<seq<real>>)
    returns (patches: seq<seq<real>>, ghost counters: seq<int>, ghost pfI: nat)
    requires |pf| == |pfpi| && Ascending(pf)
    requires forall k :: 0 <= k < |pf| && pf[k] < |data| ==> 0 <= PatchIndex(pfpi, nNonProc, k) < |procPatchData|
    requires |FreePositions(pf, |data|)| <= internal.Length
    requires forall q :: 0 <= q < |procPatchData| ==> |PatchPositions(pf, pfpi, nNonProc, q, |data|)| <= |procPatchData[q]|
    modifies internal
    ensures InternalFilled(internal[..], old(internal[..]), data, pf, |data|)
    ensures pfI <= |pf| && PatchesFilled(patches, procPatchData, counters, data, pf, pfpi, nNonProc, pfI)
    ensures forall k :: pfI <= k < |pf| ==> pf[k] >= |data|
  {
    ghost var orig := internal[..];
    patches := procPatchData;
    var patchFaceI := seq(|procPatchData|, q => 0);
    var internalFaceI := 0;
    var cursor := 0;
    var i := 0;
    while i < |data|
      invariant 0 <= i <= |data|
      invariant WalkAt(data, pf, pfpi, nNonProc, procPatchData, orig, internal[..], i, cursor, internalFaceI, patches, patchFaceI)
    {
      cursor, internalFaceI, patches, patchFaceI :=
        SplitStep(data, pf, pfpi, nNonProc, internal, procPatchData, orig, i, cursor, internalFaceI, patches, patchFaceI);
      i := i + 1;
    }
    counters, pfI := patchFaceI, cursor;
  }

  /** internalData.assign(coherentData): with no processor faces the
      coherent data is copied to the internal field as it is. */
  method CopyCoherent(data: seq<real>, internal: array<real>)
    requires |data| <= internal.Length
    modifies internal
    ensures InternalFilled(internal[..], old(internal[..]), data, [], |data|)
  {
    FreePositionsOfNone(|data|);
    forall i | 0 <= i < |data| {
      internal[i] := data[i];
    }
  }

  /** The split of reader::read: walking the coherent data, position pf[pfI]
      goes to the next free slot of its processor patch and every other
      position to the next internal slot; with no processor faces the
      coherent data is the internal field. The internal field is the compound
      token resized to the number of internal faces and procPatchData holds
      the freshly created processor patch lists: each must have room for
      what the walk puts there. */
  method SplitCoherent(data: seq<real>, pf: seq<int>, pfpi: seq<int>, nNonProc: int,
                       internal: array<real>, procPatchData: seq<seq<real>>)
    returns (patches: seq<seq<real>>)
    requires |pf| == |pfpi| && Ascending(pf)
    requires forall k :: 0 <= k < |pf| && pf[k] < |data| ==> 0 <= PatchIndex(pfpi, nNonProc, k) < |procPatchData|
    requires |FreePositions(pf, |data|)| <= internal.Length
    requires forall q :: 0 <= q < |procPatchData| ==> |PatchPositions(pf, pfpi, nNonProc, q, |data|)| <= |procPatchData[q]|
    modifies internal
    ensures internal[..|InternalOf(data, pf)|] == InternalOf(data, pf)
    ensures internal[|InternalOf(data, pf)|..] == old(internal[|InternalOf(data, pf)|..])
    ensures |patches| == |procPatchData|
    ensures forall q :: 0 <= q < |patches| ==>
              var own := PatchDataOf(data, pf, pfpi, nNonProc, q);
              patches[q] == own + procPatchData[q][|own|..]
  {
    ghost var counters: seq<int>, pfI: nat;
    if |pf| == 0 {
      FreePositionsOfNone(|data|);
      CopyCoherent(data, internal);
      patches, counters, pfI := procPatchData, seq(|procPatchData|, q => 0), 0;
    } else {
      patches, counters, pfI := SplitWalk(data, pf, pfpi, nNonProc, internal, procPatchData);
    }
    InternalDone(internal[..], old(internal[..]), data, pf);
    PatchesDone(patches, procPatchData, counters, data, pf, pfpi, nNonProc, pfI);
  }

  // ----- combineCoherentInternal: the interleave ------------------------------

  /** The number of processor faces below coherent position n. */
  function ProcBelow(pf: seq<int>, n: nat): (r: nat)
    ensures r + |FreePositions(pf, n)| == n
  {
    if n == 0 then 0 else ProcBelow(pf, n - 1) + (if n - 1 in pf then 1 else 0)
  }

  /** In an ascending pf, the processor faces below i are exactly the first
      ProcBelow(pf, i) entries. */
  lemma {:induction false} ProcBelowSplitsPf(pf: seq<int>, i: nat)
    requires Ascending(pf)
    ensures ProcBelow(pf, i) <= |pf|
    ensures forall k :: 0 <= k < ProcBelow(pf, i) ==> pf[k] < i
    ensures forall k :: ProcBelow(pf, i) <= k < |pf| ==> pf[k] >= i
  {
    if i > 0 {
      ProcBelowSplitsPf(pf, i - 1);
      var c := ProcBelow(pf, i - 1);
      if i - 1 in pf {
        var k :| 0 <= k < |pf| && pf[k] == i - 1;
        assert !(k < c);
        assert c < |pf| && pf[c] >= i - 1;
        assert !(c < k);
        assert pf[c] == i - 1;
      } else {
        assert forall k :: c <= k < |pf| ==> pf[k] != i - 1;
      }
    }
  }

  /** The position of a processor face is found at its own index. */
  lemma ProcBelowAtFace(pf: seq<int>, k: nat)
    requires Ascending(pf) && k < |pf|
    ensures ProcBelow(pf, pf[k]) == k
  {
    ProcBelowSplitsPf(pf, pf[k]);
    var c := ProcBelow(pf, pf[k]);
    assert c < |pf| ==> pf[c] >= pf[k];
  }

  /** The free positions below i come first among those below n. */
  lemma {:induction false} FreePositionsPrefix(pf: seq<int>, i: nat, n: nat)
    requires i <= n
    ensures |FreePositions(pf, i)| <= |FreePositions(pf, n)|
    ensures FreePositions(pf, n)[..|FreePositions(pf, i)|] == FreePositions(pf, i)
    decreases n - i
  {
    if i < n {
      FreePositionsPrefix(pf, i, n - 1);
      var a := FreePositions(pf, n - 1);
      assert FreePositions(pf, n)[..|a|] == a;
    }
  }

  /** The patch positions of the first m processor faces come first. */
  lemma {:induction false} PatchPositionsPrefix(pf: seq<int>, pfpi: seq<int>, nNonProc: int, q: int, n: nat, m: nat)
    requires |pf| == |pfpi| && m <= |pf|
    ensures var a := PatchPositions(pf[..m], pfpi[..m], nNonProc, q, n);
            |a| <= |PatchPositions(pf, pfpi, nNonProc, q, n)|
            && PatchPositions(pf, pfpi, nNonProc, q, n)[..|a|] == a
    decreases |pf| - m
  {
    if m < |pf| {
      var k := |pf| - 1;
      assert pf[..k][..m] == pf[..m] && pfpi[..k][..m] == pfpi[..m];
      PatchPositionsPrefix(pf[..k], pfpi[..k], nNonProc, q, n, m);
      var b := PatchPositions(pf[..k], pfpi[..k], nNonProc, q, n);
      assert PatchPositions(pf, pfpi, nNonProc, q, n)[..|b|] == b;
    } else {
      assert pf[..m] == pf && pfpi[..m] == pfpi;
    }
  }

  /** The free position i is entry |FreePositions(pf, i)| of the free
      positions below any n > i. */
  lemma FreePositionAt(pf: seq<int>, i: nat, n: nat)
    requires i < n && i !in pf
    ensures |FreePositions(pf, i)| < |FreePositions(pf, n)|
    ensures FreePositions(pf, n)[|FreePositions(pf, i)|] == i
  {
    FreePositionsPrefix(pf, i + 1, n);
    assert FreePositions(pf, i + 1) == FreePositions(pf, i) + [i];
  }

  /** Entry j of the free positions has j free positions below it. */
  lemma {:induction false} FreePositionRank(pf: seq<int>, n: nat, j: nat)
    requires j < |FreePositions(pf, n)|
    ensures |FreePositions(pf, FreePositions(pf, n)[j])| == j
  {
    var f := FreePositions(pf, n)[j];
    if n > 0 {
      var a := FreePositions(pf, n - 1);
      if j < |a| {
        assert f == a[j];
        FreePositionRank(pf, n - 1, j);
      } else {
        assert f == n - 1;
        assert |FreePositions(pf, n)| == |a| + 1;
      }
    }
  }

  /** Entry j of patch q's positions is the face of some pf index k with j
      earlier faces of that patch. */
  lemma {:induction false} PatchPositionSource(pf: seq<int>, pfpi: seq<int>, nNonProc: int, q: int, n: nat, j: nat)
    returns (k: nat)
    requires |pf| == |pfpi| && j < |PatchPositions(pf, pfpi, nNonProc, q, n)|
    ensures k < |pf| && pf[k] == PatchPositions(pf, pfpi, nNonProc, q, n)[j] && 0 <= pf[k] < n
    ensures PatchIndex(pfpi, nNonProc, k) == q
    ensures |PatchPositions(pf[..k], pfpi[..k], nNonProc, q, n)| == j
  {
    var last := |pf| - 1;
    var a := PatchPositions(pf[..last], pfpi[..last], nNonProc, q, n);
    if j < |a| {
      k := PatchPositionSource(pf[..last], pfpi[..last], nNonProc, q, n, j);
      assert pf[..last][..k] == pf[..k] && pfpi[..last][..k] == pfpi[..k];
    } else {
      k := last;
    }
  }

  /** Room in the internal field and the processor patch lists for every
      coherent position below n, and a patch for every processor face. */
  predicate Fits(internal: seq<real>, patches: seq<seq<real>>, pf: seq<int>, pfpi: seq<int>, nNonProc: int, n: nat)
  {
    |pf| == |pfpi| && Ascending(pf)
    && |FreePositions(pf, n)| <= |internal|
    && (forall k :: 0 <= k < |pf| && pf[k] < n ==> 0 <= PatchIndex(pfpi, nNonProc, k) < |patches|)
    && forall q :: 0 <= q < |patches| ==> |PatchPositions(pf, pfpi, nNonProc, q, n)| <= |patches[q]|
  }

  /** The value combineCoherentInternal puts at coherent position i: the
      next unused entry of the face's processor patch, or of the internal
      field. */
  function CombinedAt(internal: seq<real>, patches: seq<seq<real>>, pf: seq<int>, pfpi: seq<int>, nNonProc: int,
                      n: nat, i: nat): real
    requires Fits(internal, patches, pf, pfpi, nNonProc, n) && i < n
  {
    ProcBelowSplitsPf(pf, i);
    var k := ProcBelow(pf, i);
    if k < |pf| && pf[k] == i then
      var q := PatchIndex(pfpi, nNonProc, k);
      PatchPositionsSnoc(pf, pfpi, nNonProc, q, n, k);
      PatchPositionsGrow(pf, pfpi, nNonProc, q, n, k + 1);
      patches[q][|PatchPositions(pf[..k], pfpi[..k], nNonProc, q, n)|]
    else
      FreePositionsGrow(pf, i + 1, n);
      internal[|FreePositions(pf, i)|]
  }

  /** The consolidated coherent field of n positions. */
  function Combined(internal: seq<real>, patches: seq<seq<real>>, pf: seq<int>, pfpi: seq<int>, nNonProc: int,
                    n: nat): (r: seq<real>)
    requires Fits(internal, patches, pf, pfpi, nNonProc, n)
    ensures |r| == n
  {
    seq(n, i requires 0 <= i < n => CombinedAt(internal, patches, pf, pfpi, nNonProc, n, i))
  }

  /** Interleaving what the split produced gives back the coherent data. */
  lemma CombinedOfSplit(data: seq<real>, internal: seq<real>, patches: seq<seq<real>>,
                        pf: seq<int>, pfpi: seq<int>, nNonProc: int)
    requires Fits(internal, patches, pf, pfpi, nNonProc, |data|)
    requires internal[..|InternalOf(data, pf)|] == InternalOf(data, pf)
    requires forall q :: 0 <= q < |patches| ==>
               patches[q][..|PatchDataOf(data, pf, pfpi, nNonProc, q)|] == PatchDataOf(data, pf, pfpi, nNonProc, q)
    ensures Combined(internal, patches, pf, pfpi, nNonProc, |data|) == data
  {
    var c := Combined(internal, patches, pf, pfpi, nNonProc, |data|);
    forall i | 0 <= i < |data|
      ensures c[i] == data[i]
    {
      CombinedOfSplitAt(data, internal, patches, pf, pfpi, nNonProc, i);
    }
  }

  lemma CombinedOfSplitAt(data: seq<real>, internal: seq<real>, patches: seq<seq<real>>,
                          pf: seq<int>, pfpi: seq<int>, nNonProc: int, i: nat)
    requires Fits(internal, patches, pf, pfpi, nNonProc, |data|) && i < |data|
    requires internal[..|InternalOf(data, pf)|] == InternalOf(data, pf)
    requires forall q :: 0 <= q < |patches| ==>
               patches[q][..|PatchDataOf(data, pf, pfpi, nNonProc, q)|] == PatchDataOf(data, pf, pfpi, nNonProc, q)
    ensures CombinedAt(internal, patches, pf, pfpi, nNonProc, |data|, i) == data[i]
  {
    var n := |data|;
    ProcBelowSplitsPf(pf, i);
    var k := ProcBelow(pf, i);
    if k < |pf| && pf[k] == i {
      CombinedAtFace(internal, patches, pf, pfpi, nNonProc, n, i);
      var q := PatchIndex(pfpi, nNonProc, k);
      PatchPositionsSnoc(pf, pfpi, nNonProc, q, n, k);
      PatchPositionsPrefix(pf, pfpi, nNonProc, q, n, k + 1);
      var r := |PatchPositions(pf[..k], pfpi[..k], nNonProc, q, n)|;
      assert PatchPositions(pf, pfpi, nNonProc, q, n)[r] == i;
      assert patches[q][r] == patches[q][..|PatchDataOf(data, pf, pfpi, nNonProc, q)|][r];
    } else {
      CombinedAtFree(internal, patches, pf, pfpi, nNonProc, n, i);
      assert i !in pf;
      FreePositionAt(pf, i, n);
      var r := |FreePositions(pf, i)|;
      assert internal[r] == internal[..|InternalOf(data, pf)|][r];
    }
  }

  /** Splitting the interleaved field gives back the internal field and the
      processor patch data it was made of. */
  lemma SplitOfCombined(internal: seq<real>, patches: seq<seq<real>>,
                        pf: seq<int>, pfpi: seq<int>, nNonProc: int, n: nat)
    requires Fits(internal, patches, pf, pfpi, nNonProc, n)
    ensures InternalOf(Combined(internal, patches, pf, pfpi, nNonProc, n), pf) == internal[..|FreePositions(pf, n)|]
    ensures forall q :: 0 <= q < |patches| ==>
              PatchDataOf(Combined(internal, patches, pf, pfpi, nNonProc, n), pf, pfpi, nNonProc, q)
              == patches[q][..|PatchPositions(pf, pfpi, nNonProc, q, n)|]
  {
    var c := Combined(internal, patches, pf, pfpi, nNonProc, n);
    var free := FreePositions(pf, n);
    forall j | 0 <= j < |free|
      ensures InternalOf(c, pf)[j] == internal[j]
    {
      var f := free[j];
      FreePositionRank(pf, n, j);
      ProcBelowSplitsPf(pf, f);
      var k := ProcBelow(pf, f);
      assert !(k < |pf| && pf[k] == f);
      assert c[f] == internal[|FreePositions(pf, f)|];
    }
    forall q | 0 <= q < |patches|
      ensures PatchDataOf(c, pf, pfpi, nNonProc, q) == patches[q][..|PatchPositions(pf, pfpi, nNonProc, q, n)|]
    {
      var pos := PatchPositions(pf, pfpi, nNonProc, q, n);
      forall j | 0 <= j < |pos|
        ensures PatchDataOf(c, pf, pfpi, nNonProc, q)[j] == patches[q][j]
      {
        var k := PatchPositionSource(pf, pfpi, nNonProc, q, n, j);
        ProcBelowAtFace(pf, k);
        ProcBelowSplitsPf(pf, pf[k]);
        assert c[pf[k]] == patches[q][j];
      }
    }
  }

  /** With no processor faces the interleave is the internal field. */
  lemma CombinedWithoutProcessorFaces(internal: seq<real>, patches: seq<seq<real>>, pfpi: seq<int>, nNonProc: int)
    requires Fits(internal, patches, [], pfpi, nNonProc, |internal|)
    ensures Combined(internal, patches, [], pfpi, nNonProc, |internal|) == internal
  {
    var n := |internal|;
    FreePositionsOfNone(n);
    forall i | 0 <= i < n
      ensures Combined(internal, patches, [], pfpi, nNonProc, n)[i] == internal[i]
    {
      FreePositionsOfNone(i);
    }
  }

  lemma CombinedAtFace(internal: seq<real>, patches: seq<seq<real>>, pf: seq<int>, pfpi: seq<int>, nNonProc: int,
                       n: nat, i: nat)
    requires Fits(internal, patches, pf, pfpi, nNonProc, n) && i < n
    requires ProcBelow(pf, i) < |pf| && pf[ProcBelow(pf, i)] == i
    ensures var k := ProcBelow(pf, i);
            var q := PatchIndex(pfpi, nNonProc, k);
            0 <= q < |patches| && |PatchPositions(pf[..k], pfpi[..k], nNonProc, q, n)| < |patches[q]|
            && CombinedAt(internal, patches, pf, pfpi, nNonProc, n, i)
               == patches[q][|PatchPositions(pf[..k], pfpi[..k], nNonProc, q, n)|]
  {
    var k := ProcBelow(pf, i);
    var q := PatchIndex(pfpi, nNonProc, k);
    PatchPositionsSnoc(pf, pfpi, nNonProc, q, n, k);
    PatchPositionsGrow(pf, pfpi, nNonProc, q, n, k + 1);
  }

  lemma CombinedAtFree(internal: seq<real>, patches: seq<seq<real>>, pf: seq<int>, pfpi: seq<int>, nNonProc: int,
                       n: nat, i: nat)
    requires Fits(internal, patches, pf, pfpi, nNonProc, n) && i < n
    requires !(ProcBelow(pf, i) < |pf| && pf[ProcBelow(pf, i)] == i)
    ensures |FreePositions(pf, i)| < |internal|
    ensures CombinedAt(internal, patches, pf, pfpi, nNonProc, n, i) == internal[|FreePositions(pf, i)|]
  {
    ProcBelowSplitsPf(pf, i);
    WalkTest(pf, ProcBelow(pf, i), i);
    FreePositionAt(pf, i, n);
  }

  /** The per-patch cursors of the walk after the first m processor faces. */
  ghost predicate Cursors(counters: seq<int>, nPatches: nat, pf: seq<int>, pfpi: seq<int>, nNonProc: int, m: nat, n: nat)
    requires |pf| == |pfpi| && m <= |pf|
  {
    |counters| == nPatches
    && forall q :: 0 <= q < nPatches ==> counters[q] == |PatchPositions(pf[..m], pfpi[..m], nNonProc, q, n)|
  }

  lemma CursorsStep(counters: seq<int>, nPatches: nat, pf: seq<int>, pfpi: seq<int>, nNonProc: int, m: nat, n: nat)
    requires |pf| == |pfpi| && m < |pf| && 0 <= pf[m] < n
    requires Cursors(counters, nPatches, pf, pfpi, nNonProc, m, n)
    requires 0 <= PatchIndex(pfpi, nNonProc, m) < nPatches
    ensures var q := PatchIndex(pfpi, nNonProc, m);
            Cursors(counters[q := counters[q] + 1], nPatches, pf, pfpi, nNonProc, m + 1, n)
  {
    forall q | 0 <= q < nPatches {
      PatchPositionsSnoc(pf, pfpi, nNonProc, q, n, m);
    }
  }

  /** One position of the walk of combineCoherentInternal: the value for
      position i and the cursors moved past it. */
  method CombineStep(internal: seq<real>, patches: seq<seq<real>>, pf: seq<int>, pfpi: seq<int>, nNonProc: int,
                     size: nat, out: array<real>, i: nat, pfI: nat, internalFaceI: nat, patchFaceI: seq<int>)
    returns (pfI': nat, internalFaceI': nat, patchFaceI': seq<int>)
    requires Fits(internal, patches, pf, pfpi, nNonProc, size) && i < size == out.Length
    requires pfI == ProcBelow(pf, i) && internalFaceI == |FreePositions(pf, i)|
    requires pfI <= |pf| && Cursors(patchFaceI, |patches|, pf, pfpi, nNonProc, pfI, size)
    modifies out
    ensures pfI' == ProcBelow(pf, i + 1) && internalFaceI' == |FreePositions(pf, i + 1)|
    ensures pfI' <= |pf| && Cursors(patchFaceI', |patches|, pf, pfpi, nNonProc, pfI', size)
    ensures out[i] == CombinedAt(internal, patches, pf, pfpi, nNonProc, size, i)
    ensures forall j :: 0 <= j < out.Length && j != i ==> out[j] == old(out[j])
  {
    ProcBelowSplitsPf(pf, i);
    WalkTest(pf, pfI, i);
    pfI', internalFaceI', patchFaceI' := pfI, internalFaceI, patchFaceI;
    if pfI < |pf| && i == pf[pfI] {
      var patchI := pfpi[pfI] - nNonProc;
      CursorsStep(patchFaceI, |patches|, pf, pfpi, nNonProc, pfI, size);
      CombinedAtFace(internal, patches, pf, pfpi, nNonProc, size, i);
      out[i] := patches[patchI][patchFaceI[patchI]];
      patchFaceI' := patchFaceI[patchI := patchFaceI[patchI] + 1];
      pfI' := pfI + 1;
    } else {
      CombinedAtFree(internal, patches, pf, pfpi, nNonProc, size, i);
      out[i] := internal[internalFaceI];
      internalFaceI' := internalFaceI + 1;
    }
  }

  /** The walk of combineCoherentInternal over the consolidated positions. */
  method CombineWalk(internal: seq<real>, patches: seq<seq<real>>, pf: seq<int>, pfpi: seq<int>, nNonProc: int,
                     size: nat)
    returns (consolidated: seq<real>)
    requires Fits(internal, patches, pf, pfpi, nNonProc, size)
    ensures consolidated == Combined(internal, patches, pf, pfpi, nNonProc, size)
  {
    var out := new real[size];
    var patchFaceI := seq(|patches|, q => 0);
    var internalFaceI := 0;
    var pfI := 0;
    var i := 0;
    while i < size
      invariant 0 <= i <= size
      invariant pfI == ProcBelow(pf, i) && pfI <= |pf| && internalFaceI == |FreePositions(pf, i)|
      invariant Cursors(patchFaceI, |patches|, pf, pfpi, nNonProc, pfI, size)
      invariant forall j :: 0 <= j < i ==> out[j] == CombinedAt(internal, patches, pf, pfpi, nNonProc, size, j)
    {
      pfI, internalFaceI, patchFaceI := CombineStep(internal, patches, pf, pfpi, nNonProc, size, out, i,
                                                    pfI, internalFaceI, patchFaceI);
      i := i + 1;
    }
    consolidated := out[..];
  }

  /** combineCoherentInternal: the consolidated internal field of `size`
      entries (the own count of the internal surface field offsets) takes
      every processor face's value from its patch and every other value from
      the internal field; with no processor faces it is the internal field. */
  method CombineCoherentInternal(internal: seq<real>, patches: seq<seq<real>>, pf: seq<int>, pfpi: seq<int>,
                                 nNonProc: int, size: nat)
    returns (consolidated: seq<real>)
    requires |pf| > 0 ==> Fits(internal, patches, pf, pfpi, nNonProc, size)
    ensures |pf| == 0 ==> consolidated == internal
    ensures |pf| > 0 ==> consolidated == Combined(internal, patches, pf, pfpi, nNonProc, size)
  {
    if |pf| == 0 {
      consolidated := internal;
    } else {
      consolidated := CombineWalk(internal, patches, pf, pfpi, nNonProc, size);
    }
  }

  // ----- reader::read: the internal field entry --------------------------------

  /** A token of the internalField entry. */
  datatype FieldToken = Word(w: string) | Compound(typeName: string) | Number(x: real) | Label(l: int)

  datatype InternalForm = Uniform | NonUniform

  /** The form the first decisive token gives the entry: a compound token
      makes it non-uniform, the word "uniform" uniform; no decisive token is
      fatal (None). */
  function FirstForm(tokens: seq<FieldToken>): (r: Option<InternalForm>)
    ensures r == None <==> forall i :: 0 <= i < |tokens| ==> !tokens[i].Compound? && tokens[i] != Word("uniform")
  {
    if |tokens| == 0 then None
    else if tokens[0].Compound? then Some(NonUniform)
    else if tokens[0] == Word("uniform") then Some(Uniform)
    else
      var r := FirstForm(tokens[1..]);
      assert forall i :: 1 <= i < |tokens| ==> tokens[i] == tokens[1..][i - 1];
      r
  }

  /** The token loop of reader::read: skip tokens until a compound token or
      the word "uniform"; running out of tokens is fatal. */
  method ClassifyInternalField(tokens: seq<FieldToken>) returns (r: Option<InternalForm>)
    ensures r == FirstForm(tokens)
  {
    var pos := 0;
    r := None;
    while pos < |tokens|
      invariant 0 <= pos <= |tokens|
      invariant FirstForm(tokens) == FirstForm(tokens[pos..])
    {
      var currToken := tokens[pos];
      if currToken.Compound? {
        r := Some(NonUniform);
        return;
      } else if currToken == Word("uniform") {
        r := Some(Uniform);
        return;
      }
      assert tokens[pos..][1..] == tokens[pos + 1..];
      pos := pos + 1;
    }
  }

  /** A boundary patch of the local mesh. */
  datatype Patch = Patch(name: string, isProcessor: bool, size: nat, myProcNo: nat, neighbProcNo: nat)

  /** A boundary field entry created for a processor patch: its type is
      "processor" and its value the given tokens. */
  datatype ProcessorEntry = ProcessorEntry(patchName: string, value: seq<FieldToken>)

  /** The processor patches of the boundary, in boundary order. */
  function ProcessorPatches(bm: seq<Patch>): (r: seq<Patch>)
    ensures |r| <= |bm|
  {
    if |bm| == 0 then []
    else ProcessorPatches(bm[..|bm| - 1]) + (if bm[|bm| - 1].isProcessor then [bm[|bm| - 1]] else [])
  }

  /** Exactly the processor patches of the boundary are listed. */
  lemma {:induction false} ProcessorPatchesMembers(bm: seq<Patch>)
    ensures forall j :: 0 <= j < |ProcessorPatches(bm)| ==> ProcessorPatches(bm)[j].isProcessor && ProcessorPatches(bm)[j] in bm
    ensures forall p :: p in bm && p.isProcessor ==> p in ProcessorPatches(bm)
  {
    if |bm| > 0 {
      var front := bm[..|bm| - 1];
      ProcessorPatchesMembers(front);
      assert bm == front + [bm[|bm| - 1]];
    }
  }

  lemma ProcessorPatchesSnoc(bm: seq<Patch>, i: nat)
    requires i < |bm|
    ensures ProcessorPatches(bm[..i + 1]) == ProcessorPatches(bm[..i]) + (if bm[i].isProcessor then [bm[i]] else [])
  {
    assert bm[..i + 1][..i] == bm[..i];
  }

  /** The uniform branch: every processor patch gets a boundary entry whose
      value is the internal field's own tokens, in boundary order; nothing
      is read from storage. */
  method UniformProcessorEntries(bm: seq<Patch>, its: seq<FieldToken>) returns (entries: seq<ProcessorEntry>)
    ensures |entries| == |ProcessorPatches(bm)|
    ensures forall j :: 0 <= j < |entries| ==> entries[j] == ProcessorEntry(ProcessorPatches(bm)[j].name, its)
  {
    entries := [];
    var i := 0;
    while i < |bm|
      invariant 0 <= i <= |bm|
      invariant |entries| == |ProcessorPatches(bm[..i])|
      invariant forall j :: 0 <= j < |entries| ==> entries[j] == ProcessorEntry(ProcessorPatches(bm[..i])[j].name, its)
    {
      ProcessorPatchesSnoc(bm, i);
      if bm[i].isProcessor {
        entries := entries + [ProcessorEntry(bm[i].name, its)];
      }
      i := i + 1;
    }
    assert bm[..i] == bm;
  }

  /** lists holds one list per patch of pps, sized like that patch. */
  ghost predicate SizedLike(lists: seq<seq<real>>, pps: seq<Patch>)
  {
    |lists| == |pps| && forall j :: 0 <= j < |lists| ==> |lists[j]| == pps[j].size
  }

  /** The non-uniform branch's processor patch lists: one per processor
      patch, sized like the patch, in boundary order. */
  method ProcessorPatchLists(bm: seq<Patch>) returns (lists: seq<seq<real>>)
    ensures |lists| == |ProcessorPatches(bm)|
    ensures forall j :: 0 <= j < |lists| ==> |lists[j]| == ProcessorPatches(bm)[j].size
  {
    lists := [];
    var i := 0;
    while i < |bm|
      invariant 0 <= i <= |bm|
      invariant SizedLike(lists, ProcessorPatches(bm[..i]))
    {
      ghost var pps := ProcessorPatches(bm[..i]);
      ProcessorPatchesSnoc(bm, i);
      if bm[i].isProcessor {
        lists := lists + [seq(bm[i].size, _ => 0.0)];
        assert SizedLike(lists, pps + [bm[i]]);
      }
      i := i + 1;
    }
    assert bm[..i] == bm;
  }

  // ----- reader::read: the exchange with the neighbours ------------------------

  /** Element-wise sign flip. */
  function Negated(xs: seq<real>): (r: seq<real>)
    ensures |r| == |xs|
    ensures forall i :: 0 <= i < |xs| ==> r[i] + xs[i] == 0.0
  {
    seq(|xs|, i requires 0 <= i < |xs| => -xs[i])
  }

  lemma NegatedTwice(xs: seq<real>)
    ensures Negated(Negated(xs)) == xs
  {
  }

  /** The loop that multiplies every received value by -1. */
  method FlipSign(xs: seq<real>) returns (r: seq<real>)
    ensures r == Negated(xs)
  {
    r := xs;
    var j := 0;
    while j < |r|
      invariant 0 <= j <= |r| == |xs|
      invariant forall k :: 0 <= k < j ==> r[k] == -xs[k]
      invariant forall k :: j <= k < |r| ==> r[k] == xs[k]
    {
      r := r[j := -r[j]];
      j := j + 1;
    }
  }

  /** The processor patches come last in the boundary, after nNonProc
      others, as the patch data index patchI - nNonProcPatches relies on. */
  predicate ProcessorPatchesLast(bm: seq<Patch>, nNonProc: int)
  {
    0 <= nNonProc <= |bm|
    && forall i :: 0 <= i < |bm| ==> (bm[i].isProcessor <==> i >= nNonProc)
  }

  /** What the send loop sends: for every processor patch towards a higher
      neighbour, that neighbour and the patch data, in boundary order. */
  function Sends(bm: seq<Patch>, nNonProc: int, data: seq<seq<real>>): (r: seq<(nat, seq<real>)>)
    requires ProcessorPatchesLast(bm, nNonProc) && |data| == |bm| - nNonProc
    ensures |r| <= |bm|
    ensures forall j :: 0 <= j < |r| ==> r[j].1 in data
  {
    if |bm| == nNonProc then []
    else
      var last := |bm| - 1;
      Sends(bm[..last], nNonProc, data[..last - nNonProc])
        + (if bm[last].neighbProcNo > bm[last].myProcNo then [(bm[last].neighbProcNo, data[last - nNonProc])] else [])
  }

  lemma SendsSnoc(bm: seq<Patch>, nNonProc: int, data: seq<seq<real>>, i: nat)
    requires ProcessorPatchesLast(bm, nNonProc) && |data| == |bm| - nNonProc && nNonProc <= i < |bm|
    ensures ProcessorPatchesLast(bm[..i], nNonProc) && ProcessorPatchesLast(bm[..i + 1], nNonProc)
    ensures Sends(bm[..i + 1], nNonProc, data[..i + 1 - nNonProc])
            == Sends(bm[..i], nNonProc, data[..i - nNonProc])
               + (if bm[i].neighbProcNo > bm[i].myProcNo then [(bm[i].neighbProcNo, data[i - nNonProc])] else [])
  {
    assert bm[..i + 1][..i] == bm[..i];
    assert data[..i + 1 - nNonProc][..i - nNonProc] == data[..i - nNonProc];
  }

  /** The send loop of reader::read. */
  method SendToHigher(bm: seq<Patch>, nNonProc: int, data: seq<seq<real>>) returns (sent: seq<(nat, seq<real>)>)
    requires ProcessorPatchesLast(bm, nNonProc) && |data| == |bm| - nNonProc
    ensures sent == Sends(bm, nNonProc, data)
  {
    sent := [];
    var patchI := nNonProc;
    while patchI < |bm|
      invariant nNonProc <= patchI <= |bm|
      invariant ProcessorPatchesLast(bm[..patchI], nNonProc)
      invariant sent == Sends(bm[..patchI], nNonProc, data[..patchI - nNonProc])
    {
      SendsSnoc(bm, nNonProc, data, patchI);
      if bm[patchI].neighbProcNo > bm[patchI].myProcNo {
        sent := sent + [(bm[patchI].neighbProcNo, data[patchI - nNonProc])];
      }
      patchI := patchI + 1;
    }
    assert bm[..patchI] == bm && data[..patchI - nNonProc] == data;
  }

  /** The data of patch q after the receive loop. */
  function AfterReceive(bm: seq<Patch>, nNonProc: int, data: seq<seq<real>>, received: seq<seq<real>>, q: nat): seq<real>
    requires ProcessorPatchesLast(bm, nNonProc) && |data| == |bm| - nNonProc && |received| == |bm| && q < |data|
  {
    if bm[q + nNonProc].neighbProcNo < bm[q + nNonProc].myProcNo then Negated(received[q + nNonProc]) else data[q]
  }

  /** The receive loop of reader::read: the data of a patch towards a lower
      neighbour is replaced by what that neighbour sent (`received`, one
      list per boundary patch), with its sign flipped because the faces
      point the other way; the other patches keep their data. */
  method ReceiveFromLower(bm: seq<Patch>, nNonProc: int, data: seq<seq<real>>, received: seq<seq<real>>)
    returns (result: seq<seq<real>>)
    requires ProcessorPatchesLast(bm, nNonProc) && |data| == |bm| - nNonProc && |received| == |bm|
    ensures |result| == |data|
    ensures forall q :: 0 <= q < |data| ==> result[q] == AfterReceive(bm, nNonProc, data, received, q)
  {
    result := data;
    var patchI := nNonProc;
    while patchI < |bm|
      invariant nNonProc <= patchI <= |bm| && |result| == |data|
      invariant forall q :: 0 <= q < |data| ==>
                  result[q] == if q + nNonProc < patchI then AfterReceive(bm, nNonProc, data, received, q) else data[q]
    {
      if bm[patchI].neighbProcNo < bm[patchI].myProcNo {
        var patchDataI := patchI - nNonProc;
        var fromNbr := FlipSign(received[patchI]);
        result := result[patchDataI := fromNbr];
      }
      patchI := patchI + 1;
    }
  }

  /** Across a processor boundary the two sides agree up to orientation:
      what the higher process holds after the exchange, flipped back, is
      what the lower process sent. */
  lemma ExchangeAgreesAcrossBoundary(bm: seq<Patch>, nNonProc: int, data: seq<seq<real>>,
                                     received: seq<seq<real>>, q: nat, lowerData: seq<real>)
    requires ProcessorPatchesLast(bm, nNonProc) && |data| == |bm| - nNonProc && |received| == |bm| && q < |data|
    requires bm[q + nNonProc].neighbProcNo < bm[q + nNonProc].myProcNo
    requires received[q + nNonProc] == lowerData
    ensures Negated(AfterReceive(bm, nNonProc, data, received, q)) == lowerData
  {
    NegatedTwice(lowerData);
  }

  // ----- the consolidated size and the read window ----------------------------

  /** coherentFieldSize for surface fields: the own count of the internal
      surface field offsets, which is also the size combineCoherentInternal
      gives the consolidated field. */
  function CoherentFieldSize(iso: CoherentOffsets.Offsets): (r: int)
    reads iso
    requires iso.Valid()
    ensures r == iso.UpperBound(iso.myProcNo) - iso.LowerBound(iso.myProcNo)
  {
    iso.Size()
  }

  /** The window globalIndex gives this process when every process passes
      its local size: it starts after the sizes of the lower ranks and spans
      the own size, counted in components. */
  function CoherentReadWindow(localSizes: seq<int>, myProcNo: nat, nCmpts: nat): (int, int)
    requires myProcNo < |localSizes|
  {
    (nCmpts * Sum(localSizes[..myProcNo]), nCmpts * localSizes[myProcNo])
  }

  /** The windows of consecutive ranks touch: each starts where the previous
      one ends. */
  lemma ReadWindowsAdjacent(localSizes: seq<int>, p: nat, nCmpts: nat)
    requires p + 1 < |localSizes|
    ensures CoherentReadWindow(localSizes, p + 1, nCmpts).0
            == CoherentReadWindow(localSizes, p, nCmpts).0 + CoherentReadWindow(localSizes, p, nCmpts).1
  {
    SumStep(localSizes, p);
    assert nCmpts * Sum(localSizes[..p + 1]) == nCmpts * Sum(localSizes[..p]) + nCmpts * localSizes[p];
  }

  /** When every process passes the count its chained offset table gives
      it, the window starts at the partition's lower bound. */
  lemma {:induction false} ReadWindowStartsAtLowerBound(pairs: seq<(int, int)>, nProcs: nat, myProcNo: nat, localSizes: seq<int>)
    requires CoherentOffsets.Chained(pairs, nProcs, myProcNo) && |localSizes| == nProcs
    requires forall p :: 0 <= p < nProcs ==> localSizes[p] == pairs[p].1 - pairs[p].0
    ensures CoherentReadWindow(localSizes, myProcNo, 1).0 == pairs[myProcNo].0
    decreases myProcNo
  {
    if myProcNo > 0 {
      ReadWindowStartsAtLowerBound(pairs, nProcs, myProcNo - 1, localSizes);
      SumStep(localSizes, myProcNo - 1);
    }
  }
}
