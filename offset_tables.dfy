// Integer sequences shared by the two offset tables of the coherent mesh:
// sums, inclusive prefix sums (the collective "reduce" of per-partition
// sizes) and the running maximum that both tables use to keep their upper
// bounds non-decreasing.
module OffsetTables {

  /** Sum of a sequence, accumulated from the back. */
  function Sum(xs: seq<int>): int
  {
    if |xs| == 0 then 0 else Sum(xs[..|xs| - 1]) + xs[|xs| - 1]
  }

  /** Inclusive prefix sums: entry i is the sum of xs[0..i]. */
  function PrefixSums(xs: seq<int>): (r: seq<int>)
    ensures |r| == |xs|
    ensures forall i :: 0 <= i < |xs| ==> r[i] == Sum(xs[..i + 1])
  {
    seq(|xs|, i requires 0 <= i < |xs| => Sum(xs[..i + 1]))
  }

  predicate NonNegative(xs: seq<int>)
  {
    forall i :: 0 <= i < |xs| ==> 0 <= xs[i]
  }

  predicate NonDecreasing(xs: seq<int>)
  {
    forall i, j :: 0 <= i <= j < |xs| ==> xs[i] <= xs[j]
  }

  /** Largest of xs[0..p]: the value a "never smaller than the previous one"
      clamp leaves at position p. */
  function RunningMax(xs: seq<int>, p: nat): int
    requires p < |xs|
  {
    if p == 0 then xs[0]
    else if xs[p] < RunningMax(xs, p - 1) then RunningMax(xs, p - 1)
    else xs[p]
  }

  /** The running maximum bounds every entry it has seen and is one of them. */
  lemma {:induction false} RunningMaxIsMaximum(xs: seq<int>, p: nat)
    requires p < |xs|
    ensures forall k :: 0 <= k <= p ==> xs[k] <= RunningMax(xs, p)
    ensures exists k :: 0 <= k <= p && xs[k] == RunningMax(xs, p)
  {
    if p == 0 {
      assert xs[0] == RunningMax(xs, 0);
    } else {
      RunningMaxIsMaximum(xs, p - 1);
      if xs[p] >= RunningMax(xs, p - 1) {
        assert xs[p] == RunningMax(xs, p);
      }
    }
  }

  /** Clamped values never decrease along the partitions. */
  lemma {:induction false} RunningMaxMonotone(xs: seq<int>, p: nat, q: nat)
    requires p <= q < |xs|
    ensures RunningMax(xs, p) <= RunningMax(xs, q)
  {
    if p < q {
      RunningMaxMonotone(xs, p, q - 1);
    }
  }

  /** On a table that is already non-decreasing the clamp changes nothing. */
  lemma {:induction false} RunningMaxOfNonDecreasing(xs: seq<int>, p: nat)
    requires p < |xs|
    requires NonDecreasing(xs)
    ensures RunningMax(xs, p) == xs[p]
  {
    if p > 0 {
      RunningMaxOfNonDecreasing(xs, p - 1);
    }
  }

  /** Sum over a one-longer prefix adds the next element. */
  lemma SumStep(xs: seq<int>, i: nat)
    requires i < |xs|
    ensures Sum(xs[..i + 1]) == Sum(xs[..i]) + xs[i]
  {
    assert xs[..i + 1][..i] == xs[..i];
  }

  /** Prefix sums of non-negative sizes are non-negative and non-decreasing. */
  lemma {:induction false} PrefixSumsOfSizes(xs: seq<int>)
    requires NonNegative(xs)
    ensures NonNegative(PrefixSums(xs))
    ensures NonDecreasing(PrefixSums(xs))
  {
    var r := PrefixSums(xs);
    forall i | 0 <= i < |xs|
      ensures r[i] >= xs[i] && (i > 0 ==> r[i] >= r[i - 1])
    {
      SumStep(xs, i);
      SumOfNonNegative(xs[..i]);
      if i > 0 {
        assert r[i - 1] == Sum(xs[..i]);
      }
    }
    forall i, j | 0 <= i <= j < |xs|
      ensures r[i] <= r[j]
    {
      StepsToOrder(r, i, j);
    }
  }

  lemma {:induction false} SumOfNonNegative(xs: seq<int>)
    requires NonNegative(xs)
    ensures Sum(xs) >= 0
  {
    if |xs| > 0 {
      SumOfNonNegative(xs[..|xs| - 1]);
    }
  }

  lemma {:induction false} StepsToOrder(r: seq<int>, i: nat, j: nat)
    requires i <= j < |r|
    requires forall k :: 0 < k < |r| ==> r[k - 1] <= r[k]
    ensures r[i] <= r[j]
  {
    if i < j {
      StepsToOrder(r, i, j - 1);
    }
  }

  /** Consecutive prefix sums differ by exactly the partition's own size. */
  lemma PrefixSumsDifference(xs: seq<int>, p: nat)
    requires p < |xs|
    ensures PrefixSums(xs)[p] - (if p > 0 then PrefixSums(xs)[p - 1] else 0) == xs[p]
  {
    SumStep(xs, p);
    if p == 0 {
      assert xs[..0] == [];
    }
  }

  /** Scaling by a non-negative factor keeps an order. */
  lemma MultiplyMonotone(c: nat, x: int, y: int)
    requires x <= y
    ensures c * x <= c * y
  {
  }
}
