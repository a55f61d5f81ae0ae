// The per-partition [lower, upper) table of the coherent mesh
// (CoherentMesh/Offsets.C). Every process holds one pair per partition; the
// pairs are rebuilt from the global index of all partitions' values.
module CoherentOffsets {
  import opened OffsetTables

  /** The offset list of the global index built from every partition's value
      (the collective globalIndex, not part of this model): offset 0 is 0 and
      offset p+1 is partition p's upper offset, either the running sum of the
      values (reduce) or the value itself. */
  function GlobalIndexOffsets(values: seq<int>, reduce: bool): (r: seq<int>)
    ensures |r| == |values| + 1 && r[0] == 0
    ensures forall p :: 0 <= p < |values| ==>
              r[p + 1] == (if reduce then Sum(values[..p + 1]) else values[p])
  {
    [0] + (if reduce then PrefixSums(values) else values)
  }

  /** Upper bound that `set` leaves for partition p: the gathered offsets
      clamped so that no partition ends before its predecessor. */
  function SetUpper(values: seq<int>, reduce: bool, p: nat): int
    requires p < |values|
  {
    RunningMax(GlobalIndexOffsets(values, reduce)[1..], p)
  }

  /** A table of one (lower, upper) pair per partition is chained:
      partition 0 starts at 0, each partition starts where its predecessor
      ends, and upper bounds never decrease. */
  predicate Chained(pairs: seq<(int, int)>, nProcs: nat, myProcNo: nat)
  {
    0 < nProcs && myProcNo < nProcs && |pairs| == nProcs
    && pairs[0].0 == 0
    && (forall q, p :: 0 < q < nProcs && p == q - 1 ==> pairs[q].0 == pairs[p].1 <= pairs[q].1)
  }

  class Offsets {
    /** offset_pairs_: (lower, upper) per partition. */
    var pairs: seq<(int, int)>
    const nProcs: nat
    const myProcNo: nat

    predicate Valid()
      reads this
    {
      Chained(pairs, nProcs, myProcNo)
    }

    /** Default table: nProcs pairs (0, 0). */
    constructor(nProcs: nat, myProcNo: nat)
      requires myProcNo < nProcs
      ensures Valid()
      ensures this.nProcs == nProcs && this.myProcNo == myProcNo
      ensures pairs == seq(nProcs, _ => (0, 0))
    {
      this.nProcs := nProcs;
      this.myProcNo := myProcNo;
      pairs := seq(nProcs, _ => (0, 0));
    }

    /** Offsets(value, reduce): a table filled by `set` at construction. */
    constructor Build(nProcs: nat, myProcNo: nat, value: int, peers: seq<int>, reduce: bool)
      requires myProcNo < nProcs && |peers| == nProcs
      ensures Valid() && this.nProcs == nProcs && this.myProcNo == myProcNo
      ensures pairs == SetTable(peers[myProcNo := value], reduce)
    {
      this.nProcs := nProcs;
      this.myProcNo := myProcNo;
      pairs := seq(nProcs, _ => (0, 0));
      new;
      Set(value, peers, reduce);
      TableAfterSet(this, peers[myProcNo := value], reduce);
    }

    /** set(value, reduce). `peers` stands for the values the other
        partitions contribute to the global index; this process contributes
        `value`. The upper bounds become the clamped gathered offsets, and
        every lower bound is re-derived from the previous upper bound. */
    method Set(value: int, peers: seq<int>, reduce: bool)
      requires Valid() && |peers| == nProcs
      modifies this
      ensures Valid()
      ensures forall p :: 0 <= p < nProcs ==>
                pairs[p].1 == SetUpper(peers[myProcNo := value], reduce, p)
    {
      var offs := GlobalIndexOffsets(peers[myProcNo := value], reduce);
      ClampUppers(offs);
      ChainLowers();
      forall p | 0 < p < nProcs
        ensures pairs[p - 1].1 <= pairs[p].1
      {
        RunningMaxMonotone(offs[1..], p - 1, p);
      }
    }

    /** The first loop of `set`: upper bounds from the global offsets, each
        raised to at least its predecessor. */
    method ClampUppers(offs: seq<int>)
      requires 0 < nProcs && |pairs| == nProcs && |offs| == nProcs + 1 && pairs[0].0 == 0
      modifies this
      ensures |pairs| == nProcs && pairs[0].0 == 0
      ensures forall p :: 0 <= p < nProcs ==> pairs[p].1 == RunningMax(offs[1..], p)
    {
      ghost var uppers := offs[1..];
      pairs := pairs[0 := (pairs[0].0, offs[1])];
      var proc := 1;
      while proc < nProcs
        invariant 1 <= proc <= nProcs && |pairs| == nProcs
        invariant pairs[0].0 == 0
        invariant forall p :: 0 <= p < proc ==> pairs[p].1 == RunningMax(uppers, p)
      {
        var upper := offs[proc + 1];
        if upper < pairs[proc - 1].1 {
          upper := pairs[proc - 1].1;
        }
        pairs := pairs[proc := (pairs[proc].0, upper)];
        proc := proc + 1;
      }
    }

    /** The second loop of `set`: each lower bound becomes the previous
        upper bound. */
    method ChainLowers()
      requires 0 < nProcs && |pairs| == nProcs && pairs[0].0 == 0
      modifies this
      ensures |pairs| == nProcs && pairs[0].0 == 0
      ensures forall p :: 0 <= p < nProcs ==> pairs[p].1 == old(pairs[p].1)
      ensures forall p :: 0 < p < nProcs ==> pairs[p].0 == pairs[p - 1].1
    {
      var i := 0;
      while i < nProcs - 1
        invariant 0 <= i <= nProcs - 1 && |pairs| == nProcs
        invariant pairs[0].0 == 0
        invariant forall p :: 0 <= p < nProcs ==> pairs[p].1 == old(pairs[p].1)
        invariant forall p :: 0 < p <= i ==> pairs[p].0 == pairs[p - 1].1
      {
        pairs := pairs[i + 1 := (pairs[i].1, pairs[i + 1].1)];
        i := i + 1;
      }
    }

    /** lowerBound(p): where partition p starts. */
    function LowerBound(p: nat): (r: int)
      reads this
      requires Valid() && p < nProcs
      ensures p == 0 ==> r == 0
      ensures p > 0 ==> r == UpperBound(p - 1)
    {
      pairs[p].0
    }

    /** upperBound(p): where partition p ends; never after the next one. */
    function UpperBound(p: nat): (r: int)
      reads this
      requires Valid() && p < nProcs
      ensures p + 1 < nProcs ==> r <= pairs[p + 1].1
    {
      pairs[p].1
    }

    /** count(p): number of entities of partition p; partitions after the
        first never have a negative count. */
    function Count(p: nat): (r: int)
      reads this
      requires Valid() && p < nProcs
      ensures p > 0 ==> r >= 0
      ensures LowerBound(p) + r == UpperBound(p)
    {
      UpperBound(p) - LowerBound(p)
    }

    /** size(): the count of this process's own partition. */
    function Size(): (r: int)
      reads this
      requires Valid()
      ensures myProcNo > 0 ==> r >= 0
      ensures LowerBound(myProcNo) + r == UpperBound(myProcNo)
    {
      Count(myProcNo)
    }

    /** operator[](i): the (lower, upper) pair of partition i. */
    function Pair(i: nat): (r: (int, int))
      reads this
      requires Valid() && i < nProcs
      ensures r.0 == LowerBound(i) && r.1 == UpperBound(i)
    {
      pairs[i]
    }
  }

  /** The whole table `set` leaves behind: partition 0 starts at 0, every
      other partition starts where its predecessor's clamped upper bound is. */
  function SetTable(values: seq<int>, reduce: bool): (r: seq<(int, int)>)
    requires |values| > 0
    ensures |r| == |values|
    ensures forall p :: 0 <= p < |values| ==> r[p].1 == SetUpper(values, reduce, p)
    ensures forall p :: 0 <= p < |values| ==>
              r[p].0 == (if p == 0 then 0 else SetUpper(values, reduce, p - 1))
  {
    seq(|values|, p requires 0 <= p < |values| => SetPair(values, reduce, p))
  }

  function SetPair(values: seq<int>, reduce: bool, p: nat): (int, int)
    requires p < |values|
  {
    (if p == 0 then 0 else SetUpper(values, reduce, p - 1), SetUpper(values, reduce, p))
  }

  /** The table built by `set` is chained for any own partition. */
  lemma SetTableChained(values: seq<int>, reduce: bool, myProcNo: nat)
    requires myProcNo < |values|
    ensures Chained(SetTable(values, reduce), |values|, myProcNo)
  {
    var offs := GlobalIndexOffsets(values, reduce)[1..];
    forall p | 0 < p < |values|
      ensures SetUpper(values, reduce, p - 1) <= SetUpper(values, reduce, p)
    {
      RunningMaxMonotone(offs, p - 1, p);
    }
  }

  /** A chained table whose upper bounds are those of `set` is the table of
      `set`: the lower bounds are fixed by the chaining. */
  lemma {:induction false} TableAfterSet(o: Offsets, values: seq<int>, reduce: bool)
    requires o.Valid() && |values| == o.nProcs
    requires forall p :: 0 <= p < o.nProcs ==> o.pairs[p].1 == SetUpper(values, reduce, p)
    ensures o.pairs == SetTable(values, reduce)
  {
    var t := SetTable(values, reduce);
    forall p | 0 <= p < o.nProcs
      ensures o.pairs[p] == t[p]
    {
      if p > 0 {
        assert o.pairs[p].0 == o.pairs[p - 1].1;
      }
    }
  }

  /** With reduce and non-negative sizes the clamp is inactive: the upper
      bound of partition p is the running sum of sizes up to p. */
  lemma ReducedUpperIsRunningSum(values: seq<int>, p: nat)
    requires NonNegative(values) && p < |values|
    ensures SetUpper(values, true, p) == Sum(values[..p + 1])
  {
    var uppers := GlobalIndexOffsets(values, true)[1..];
    assert uppers == PrefixSums(values);
    PrefixSumsOfSizes(values);
    RunningMaxOfNonDecreasing(uppers, p);
  }

  /** Without reduce the upper bound of partition p is the largest value
      contributed by partitions 0..p. */
  lemma UnreducedUpperIsLargestValue(values: seq<int>, p: nat)
    requires p < |values|
    ensures forall k :: 0 <= k <= p ==> values[k] <= SetUpper(values, false, p)
    ensures exists k :: 0 <= k <= p && values[k] == SetUpper(values, false, p)
  {
    var uppers := GlobalIndexOffsets(values, false)[1..];
    assert uppers == values;
    RunningMaxIsMaximum(uppers, p);
  }

  /** After a reducing set with non-negative sizes, every partition's count
      is exactly the size it contributed. */
  lemma CountAfterReducedSet(o: Offsets, values: seq<int>, p: nat)
    requires o.Valid() && |values| == o.nProcs && NonNegative(values)
    requires forall q :: 0 <= q < o.nProcs ==> o.pairs[q].1 == SetUpper(values, true, q)
    requires p < o.nProcs
    ensures o.Count(p) == values[p]
  {
    ReducedUpperIsRunningSum(values, p);
    if p > 0 {
      ReducedUpperIsRunningSum(values, p - 1);
    }
    PrefixSumsDifference(values, p);
  }
}
