// The per-partition offset table of the slice mesh (sliceMesh/Offsets.C):
// one upper offset per partition, the lower bound being the previous entry.
// Labels are 64-bit signed integers; the running sum of `do_reduce` wraps
// around like the machine addition and a decreasing sum aborts.
module SliceOffsets {
  import opened OffsetTables

  const LabelMin: int := -0x8000_0000_0000_0000
  const LabelMax: int := 0x7FFF_FFFF_FFFF_FFFF

  predicate IsLabel(x: int)
  {
    LabelMin <= x <= LabelMax
  }

  predicate AllLabels(xs: seq<int>)
  {
    forall i :: 0 <= i < |xs| ==> IsLabel(xs[i])
  }

  /** Machine addition of two labels: the exact sum, wrapped around once
      when it leaves the 64-bit range. */
  function AddLabels(a: int, b: int): (r: int)
    requires IsLabel(a) && IsLabel(b)
    ensures IsLabel(r)
    ensures IsLabel(a + b) ==> r == a + b
    ensures a + b > LabelMax ==> r == a + b - 0x1_0000_0000_0000_0000
  {
    if a + b > LabelMax then a + b - 0x1_0000_0000_0000_0000
    else if a + b < LabelMin then a + b + 0x1_0000_0000_0000_0000
    else a + b
  }

  /** The running sum aborts at the first partition whose size is negative or
      whose inclusive sum no longer fits in a label. */
  predicate ReduceAborts(xs: seq<int>)
  {
    exists i :: 0 <= i < |xs| && (xs[i] < 0 || Sum(xs[..i + 1]) > LabelMax)
  }

  /** One step of the running sum: the machine sum drops below the running
      offset exactly when the size is negative or the exact sum overflows. */
  lemma AddStep(offset: int, x: int)
    requires 0 <= offset <= LabelMax && IsLabel(x)
    ensures AddLabels(offset, x) < offset <==> x < 0 || offset + x > LabelMax
    ensures AddLabels(offset, x) >= offset ==> AddLabels(offset, x) == offset + x
  {
  }

  lemma AbortsAt(xs: seq<int>, i: nat)
    requires i < |xs| && (xs[i] < 0 || Sum(xs[..i + 1]) > LabelMax)
    ensures ReduceAborts(xs)
  {
  }

  lemma NoAbort(xs: seq<int>)
    requires forall i :: 0 <= i < |xs| ==> 0 <= xs[i] && PrefixSums(xs)[i] <= LabelMax
    ensures !ReduceAborts(xs)
  {
    forall i | 0 <= i < |xs|
      ensures 0 <= xs[i] && Sum(xs[..i + 1]) <= LabelMax
    {
      assert PrefixSums(xs)[i] == Sum(xs[..i + 1]);
    }
  }

  class Offsets {
    /** offsets_: upper offset per partition. */
    var offsets: seq<int>
    const nProcs: nat
    const myProcNo: nat

    predicate InRange()
      reads this
    {
      0 < nProcs && myProcNo < nProcs && |offsets| == nProcs && AllLabels(offsets)
    }

    /** Labels whose upper offsets never decrease. */
    predicate Valid()
      reads this
    {
      InRange() && NonDecreasing(offsets)
    }

    constructor(nProcs: nat, myProcNo: nat)
      requires myProcNo < nProcs
      ensures Valid()
      ensures this.nProcs == nProcs && this.myProcNo == myProcNo
      ensures offsets == seq(nProcs, _ => 0)
    {
      this.nProcs := nProcs;
      this.myProcNo := myProcNo;
      offsets := seq(nProcs, _ => 0);
    }

    /** do_reduce: replaces the offsets with their inclusive running sums,
        or reports the fatal overflow abort. */
    method DoReduce() returns (aborted: bool)
      requires InRange()
      modifies this
      ensures aborted == ReduceAborts(old(offsets))
      ensures !aborted ==> InRange() && offsets == PrefixSums(old(offsets))
    {
      ghost var xs := offsets;
      ghost var ps := PrefixSums(xs);
      var offset := 0;
      var procI := 0;
      while procI < |offsets|
        invariant 0 <= procI <= |offsets| == |xs| == |ps| && nProcs == |xs|
        invariant offset == Sum(xs[..procI]) && 0 <= offset <= LabelMax
        invariant forall i :: 0 <= i < procI ==> offsets[i] == ps[i] && 0 <= xs[i] && 0 <= ps[i] <= LabelMax
        invariant forall i :: procI <= i < |xs| ==> offsets[i] == xs[i]
      {
        var oldOffset := offset;
        SumStep(xs, procI);
        assert ps[procI] == oldOffset + xs[procI];
        AddStep(offset, offsets[procI]);
        offset := AddLabels(offset, offsets[procI]);
        if offset < oldOffset {
          AbortsAt(xs, procI);
          return true;
        }
        offsets := offsets[procI := offset];
        procI := procI + 1;
      }
      assert offsets == ps;
      NoAbort(xs);
      return false;
    }

    /** set(value, reduce). `peers` stands for the entries the other
        partitions contribute through the gather/scatter; this process
        contributes `value`. After the optional reduction each offset is
        clamped to be at least its predecessor. */
    method Set(value: int, peers: seq<int>, reduce: bool) returns (aborted: bool)
      requires InRange() && |peers| == nProcs && IsLabel(value) && AllLabels(peers)
      modifies this
      ensures aborted == (reduce && ReduceAborts(peers[myProcNo := value]))
      ensures !aborted ==> Valid()
      ensures !aborted ==> forall p :: 0 <= p < nProcs ==>
                offsets[p] == RunningMax(SetBase(peers[myProcNo := value], reduce), p)
    {
      offsets := offsets[myProcNo := value];
      offsets := peers[myProcNo := value];
      if reduce {
        aborted := DoReduce();
        if aborted {
          return;
        }
      }
      aborted := false;
      ClampToPredecessor();
    }

    /** The loop of `set` that raises each offset to its predecessor's. */
    method ClampToPredecessor()
      requires InRange()
      modifies this
      ensures Valid()
      ensures forall p :: 0 <= p < nProcs ==> offsets[p] == RunningMax(old(offsets), p)
    {
      ghost var base := offsets;
      var proc := 1;
      while proc < nProcs
        invariant 1 <= proc <= nProcs && |offsets| == nProcs
        invariant forall p :: 0 <= p < proc ==> offsets[p] == RunningMax(base, p)
        invariant forall p :: proc <= p < nProcs ==> offsets[p] == base[p]
      {
        if offsets[proc] < offsets[proc - 1] {
          offsets := offsets[proc := offsets[proc - 1]];
        }
        proc := proc + 1;
      }
      forall p | 0 <= p < nProcs
        ensures IsLabel(offsets[p])
      {
        RunningMaxIsMaximum(base, p);
      }
      forall p, q | 0 <= p <= q < nProcs
        ensures offsets[p] <= offsets[q]
      {
        RunningMaxMonotone(base, p, q);
      }
    }

    /** lowerBound(p): 0 for the first partition, else the previous offset. */
    function LowerBound(p: nat): (r: int)
      reads this
      requires Valid() && p < nProcs
      ensures p == 0 ==> r == 0
      ensures p > 0 ==> r == UpperBound(p - 1)
    {
      if p > 0 then offsets[p - 1] else 0
    }

    /** upperBound(p): never after a later partition's upper bound. */
    function UpperBound(p: nat): (r: int)
      reads this
      requires Valid() && p < nProcs
      ensures forall q :: p <= q < nProcs ==> r <= offsets[q]
    {
      offsets[p]
    }

    /** count(p); non-negative for every partition after the first. */
    function Count(p: nat): (r: int)
      reads this
      requires Valid() && p < nProcs
      ensures p > 0 ==> r >= 0
      ensures LowerBound(p) + r == UpperBound(p)
    {
      UpperBound(p) - LowerBound(p)
    }

    /** front(): where this process's partition starts. */
    function Front(): (r: int)
      reads this
      requires Valid()
      ensures myProcNo == 0 ==> r == 0
      ensures myProcNo > 0 ==> r == offsets[myProcNo - 1]
    {
      LowerBound(myProcNo)
    }

    /** back(): where this process's partition ends. */
    function Back(): (r: int)
      reads this
      requires Valid()
      ensures r == offsets[myProcNo]
      ensures myProcNo > 0 ==> Front() <= r
    {
      UpperBound(myProcNo)
    }

    /** size(): back() - front(). */
    function Size(): (r: int)
      reads this
      requires Valid()
      ensures Front() + r == Back()
      ensures myProcNo > 0 ==> r >= 0
    {
      Count(myProcNo)
    }
  }

  /** The table the clamp runs over: the reduced sums, or the gathered
      entries themselves. */
  function SetBase(values: seq<int>, reduce: bool): (r: seq<int>)
    ensures |r| == |values|
  {
    if reduce then PrefixSums(values) else values
  }

  /** Non-negative sizes whose total fits in a label never abort the
      reduction, and then each partition's count is its own size. */
  lemma ReduceOfFittingSizes(values: seq<int>, p: nat)
    requires NonNegative(values) && p < |values|
    requires Sum(values) <= LabelMax
    ensures !ReduceAborts(values)
    ensures RunningMax(SetBase(values, true), p)
            - (if p > 0 then RunningMax(SetBase(values, true), p - 1) else 0) == values[p]
  {
    PrefixSumsOfSizes(values);
    var sums := PrefixSums(values);
    assert values[..|values|] == values;
    assert sums[|values| - 1] == Sum(values);
    forall i | 0 <= i < |values|
      ensures !(values[i] < 0 || Sum(values[..i + 1]) > LabelMax)
    {
      assert sums[i] <= sums[|values| - 1];
    }
    RunningMaxOfNonDecreasing(sums, p);
    if p > 0 {
      RunningMaxOfNonDecreasing(sums, p - 1);
    }
    PrefixSumsDifference(values, p);
  }

  /** A total that exceeds the label range always aborts the reduction. */
  lemma OverflowingSizesAbort(values: seq<int>)
    requires |values| > 0 && Sum(values) > LabelMax
    ensures ReduceAborts(values)
  {
    var last := |values| - 1;
    assert values[..last + 1] == values;
  }
}
