// The output copy of the span buffer (SliceStreams/buffer/spanBuffer.H):
// mapped_copy writes a local data array into the storage engine's span,
// either scattering input element k to output position mapping[k], or
// (masked) skipping the output positions the mapping lists and filling the
// others in order. Positions are counted in elements; an element is the
// block of `serialization` scalars the source advances by.
module SpanBuffers {

  /** The mapping is sorted, as mapped_copy relies on: strictly increasing
      and non-negative. */
  predicate StrictlyIncreasing(m: seq<int>)
  {
    (|m| > 0 ==> m[0] >= 0) && forall i, j :: 0 <= i < j < |m| ==> m[i] < m[j]
  }

  /** The number of mapping entries below position e. */
  function CountBelow(m: seq<int>, e: int): (r: nat)
    ensures r <= |m|
  {
    if |m| == 0 then 0 else (if m[0] < e then 1 else 0) + CountBelow(m[1..], e)
  }

  /** Between m[j-1] and m[j] (a gap of a sorted mapping) exactly j entries
      lie below. */
  lemma {:induction false} CountBelowGap(m: seq<int>, j: nat, e: int)
    requires StrictlyIncreasing(m) && j <= |m|
    requires j > 0 ==> m[j - 1] < e
    requires j < |m| ==> e <= m[j]
    ensures CountBelow(m, e) == j
  {
    if |m| > 0 {
      assert StrictlyIncreasing(m[1..]);
      if j > 0 {
        CountBelowGap(m[1..], j - 1, e);
      } else {
        CountBelowGap(m[1..], 0, e);
        assert forall i :: 0 <= i < |m| ==> e <= m[i];
        assert CountBelow(m[1..], e) == 0 by { NoneBelow(m[1..], e); }
      }
    }
  }

  lemma {:induction false} NoneBelow(m: seq<int>, e: int)
    requires forall i :: 0 <= i < |m| ==> e <= m[i]
    ensures CountBelow(m, e) == 0
  {
    if |m| > 0 {
      NoneBelow(m[1..], e);
    }
  }

  /** check_extent_of_range: a range is long enough for an extent. */
  predicate ExtentFits(rangeLength: int, extent: int)
  {
    !(rangeLength < extent)
  }

  /** The first extent check of mapped_copy as written: the output must be
      at least as long as the largest mapping index, counted in scalars. */
  predicate OutputCheckAsWritten(outputScalars: int, m: seq<int>)
    requires |m| > 0
  {
    ExtentFits(outputScalars, m[|m| - 1])
  }

  /** The check as written lets an empty output through for the mapping
      [0], although the first copy then writes output element 0. */
  lemma OutputCheckAsWrittenAdmitsOverrun()
    ensures StrictlyIncreasing([0]) && OutputCheckAsWritten(0, [0])
    ensures !(0 <= [0][0] < 0)
  {
  }

  /** The check that makes every write land in the output: the element
      after the largest mapping index must still fit. */
  predicate OutputCheck(outputLength: int, m: seq<int>)
    requires |m| > 0
  {
    ExtentFits(outputLength, m[|m| - 1] + 1)
  }

  /** Where the output cursor stands after the mapping loop, and how much
      input it consumed. */
  function EndPos(m: seq<int>): int
    requires |m| > 0
  {
    m[|m| - 1] + 1
  }

  function Consumed(m: seq<int>, masked: bool): int
    requires |m| > 0
  {
    if masked then EndPos(m) - |m| else |m|
  }

  /** Masked, output element e (not in the mapping) holds the input
      element whose index is e less the mapping entries below e. */
  ghost predicate FilledInOrder<T>(input: seq<T>, outE: T, m: seq<int>, e: int)
  {
    0 <= e - CountBelow(m, e) < |input| && outE == input[e - CountBelow(m, e)]
  }

  /** Every entry of a sorted mapping is at least its index. */
  lemma {:induction false} EntryAtLeastIndex(m: seq<int>, k: nat)
    requires StrictlyIncreasing(m) && k < |m|
    ensures m[k] >= k
  {
    if k > 0 {
      EntryAtLeastIndex(m, k - 1);
    }
  }

  /** copy_n: n input elements from inPos go to the output from outPos. */
  method CopyRun<T>(input: seq<T>, inPos: nat, out: array<T>, outPos: nat, n: nat)
    requires inPos + n <= |input| && outPos + n <= out.Length
    modifies out
    ensures forall e :: 0 <= e < out.Length && !(outPos <= e < outPos + n) ==> out[e] == old(out[e])
    ensures forall e :: outPos <= e < outPos + n ==> out[e] == input[inPos + (e - outPos)]
  {
    var t := 0;
    while t < n
      invariant 0 <= t <= n
      invariant forall e :: 0 <= e < out.Length && !(outPos <= e < outPos + t) ==> out[e] == old(out[e])
      invariant forall e :: outPos <= e < outPos + t ==> out[e] == input[inPos + (e - outPos)]
    {
      out[outPos + t] := input[inPos + t];
      t := t + 1;
    }
  }

  /** The unmasked mapping loop: input element k goes to output
      mapping[k]. */
  method ScatterMapped<T>(input: seq<T>, out: array<T>, m: seq<int>)
    requires |m| > 0 && StrictlyIncreasing(m) && |m| <= |input| && OutputCheck(out.Length, m)
    modifies out
    ensures forall k :: 0 <= k < |m| ==> out[m[k]] == input[k]
    ensures forall e :: 0 <= e < out.Length && e !in m ==> out[e] == old(out[e])
  {
    var k := 0;
    while k < |m|
      invariant 0 <= k <= |m|
      invariant forall i :: 0 <= i < k ==> out[m[i]] == input[i]
      invariant forall e :: 0 <= e < out.Length && e !in m[..k] ==> out[e] == old(out[e])
    {
      assert m[k] <= m[|m| - 1];
      out[m[k]] := input[k];
      assert m[..k + 1] == m[..k] + [m[k]];
      k := k + 1;
    }
    assert m[..|m|] == m;
  }

  /** The masked mapping loop: the output positions before each mapping
      entry are filled in order and the entry itself is skipped. */
  method FillUnmasked<T>(input: seq<T>, out: array<T>, m: seq<int>)
    requires |m| > 0 && StrictlyIncreasing(m) && Consumed(m, true) <= |input| && OutputCheck(out.Length, m)
    modifies out
    ensures forall e :: 0 <= e < EndPos(m) && e !in m ==> FilledInOrder(input, out[e], m, e)
    ensures forall e :: 0 <= e < out.Length && (e in m || e >= EndPos(m)) ==> out[e] == old(out[e])
  {
    var outPos := 0;
    var inPos: nat := 0;
    var k := 0;
    while k < |m|
      invariant 0 <= k <= |m|
      invariant outPos == (if k == 0 then 0 else m[k - 1] + 1) && inPos == outPos - k
      invariant forall e :: 0 <= e < outPos && e !in m ==> FilledInOrder(input, out[e], m, e)
      invariant forall e :: 0 <= e < out.Length && (e in m || e >= outPos) ==> out[e] == old(out[e])
    {
      assert m[k] <= m[|m| - 1];
      assert m[k] - k <= EndPos(m) - |m| by {
        GapsGrow(m, k);
      }
      if k > 0 {
        EntryAtLeastIndex(m, k - 1);
        assert m[k - 1] < m[k];
      }
      var n := m[k] - outPos;
      CopyRun(input, inPos, out, outPos, n);
      forall e | outPos <= e < m[k]
        ensures CountBelow(m, e) == k
      {
        CountBelowGap(m, k, e);
      }
      inPos := inPos + n;
      outPos := m[k] + 1;
      k := k + 1;
    }
  }

  /** Each mapping entry is at least one beyond its predecessor. */
  lemma {:induction false} GapsGrow(m: seq<int>, k: nat)
    requires StrictlyIncreasing(m) && k < |m|
    ensures m[k] - k <= m[|m| - 1] - (|m| - 1)
    decreases |m| - k
  {
    if k < |m| - 1 {
      GapsGrow(m, k + 1);
    }
  }

  /** mapped_copy with the corrected extent check. Returns false where the
      source aborts: the output cannot hold the largest mapped element, or,
      masked, too little input remains for the rest of the output. The
      caller provides at least the input the mapping loop consumes, and no
      more trailing input than the output can take (the final copy is
      unchecked). */
  method MappedCopy<T>(input: seq<T>, out: array<T>, m: seq<int>, masked: bool) returns (ok: bool)
    requires |m| > 0 && StrictlyIncreasing(m) && Consumed(m, masked) <= |input|
    requires OutputCheck(out.Length, m) ==> |input| - Consumed(m, masked) <= out.Length - EndPos(m)
    modifies out
    ensures ok <==> OutputCheck(out.Length, m)
                    && (masked ==> |input| - Consumed(m, masked) >= out.Length - EndPos(m))
    ensures ok && !masked ==>
              (forall k :: 0 <= k < |m| ==> out[m[k]] == input[k])
              && (forall e :: EndPos(m) <= e < EndPos(m) + |input| - |m| ==> out[e] == input[|m| + (e - EndPos(m))])
              && (forall e :: 0 <= e < out.Length && e !in m && !(EndPos(m) <= e < EndPos(m) + |input| - |m|)
                    ==> out[e] == old(out[e]))
    ensures ok && masked ==>
              (forall e :: 0 <= e < out.Length && e !in m ==> FilledInOrder(input, out[e], m, e))
              && (forall e :: 0 <= e < out.Length && e in m ==> out[e] == old(out[e]))
  {
    if !ExtentFits(out.Length, m[|m| - 1] + 1) {
      return false;
    }
    EntryAtLeastIndex(m, |m| - 1);
    var inPos: nat := Consumed(m, masked);
    if masked {
      FillUnmasked(input, out, m);
      var remaining := out.Length - EndPos(m);
      if !ExtentFits(|input| - inPos, remaining) {
        return false;
      }
      CopyRun(input, inPos, out, EndPos(m), |input| - inPos);
      forall e | EndPos(m) <= e < out.Length
        ensures CountBelow(m, e) == |m| && e !in m
      {
        CountBelowGap(m, |m|, e);
      }
    } else {
      ScatterMapped(input, out, m);
      CopyRun(input, inPos, out, EndPos(m), |input| - inPos);
    }
    ok := true;
  }
}
