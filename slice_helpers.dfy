// Free helper algorithms of the slicing code (CoherentMesh/sliceMeshHelper.C,
// CoherentMesh/sliceMeshHelperI.H; sliceMesh/sliceMeshHelper.C holds the same
// partitionByFirst, renumberFaces and permutationOfSorted).
module SliceHelpers {
  import opened StableSorts

  // ----- processor patch ids ------------------------------------------------

  /** encodeSlicePatchId: maps patch number x to the negative neighbour id
      -(x+1); patch numbers 0, 1, 2, ... become -1, -2, -3, ... */
  function EncodeSlicePatchId(x: int): (r: int)
    ensures DecodeSlicePatchId(r) == x
    ensures x >= 0 <==> r < 0
  {
    -(x + 1)
  }

  /** decodeSlicePatchId: the inverse of the encoding. */
  function DecodeSlicePatchId(y: int): (r: int)
    ensures y < 0 <==> r >= 0
  {
    -(y + 1)
  }

  /** Decoding then encoding gives the id back, and the encoding reverses
      the order of patch numbers. */
  lemma DecodeEncodeInverse(y: int, x1: int, x2: int)
    ensures EncodeSlicePatchId(DecodeSlicePatchId(y)) == y
    ensures x1 < x2 ==> EncodeSlicePatchId(x1) > EncodeSlicePatchId(x2)
  {
  }

  // ----- partitionByFirst ----------------------------------------------------

  /** The pairs whose first entry is a positive neighbour, in input order. */
  function Positives(xs: seq<(int, int)>): (r: seq<(int, int)>)
    ensures forall i :: 0 <= i < |r| ==> r[i].0 > 0
    ensures |r| <= |xs|
  {
    if |xs| == 0 then []
    else (if xs[0].0 > 0 then [xs[0]] else []) + Positives(xs[1..])
  }

  /** Exactly the pairs with a positive first entry survive. */
  lemma {:induction false} PositivesMembers(xs: seq<(int, int)>, x: (int, int))
    ensures x in Positives(xs) <==> x in xs && x.0 > 0
  {
    if |xs| > 0 {
      PositivesMembers(xs[1..], x);
      assert xs == [xs[0]] + xs[1..];
    }
  }

  /** The remaining pairs (encoded patch ids and 0), in input order. */
  function NonPositives(xs: seq<(int, int)>): (r: seq<(int, int)>)
    ensures forall i :: 0 <= i < |r| ==> r[i].0 <= 0
    ensures |r| <= |xs|
  {
    if |xs| == 0 then []
    else (if xs[0].0 > 0 then [] else [xs[0]]) + NonPositives(xs[1..])
  }

  /** Sort key of the stable_sort that orders the rest by first descending. */
  function NegFirst(p: (int, int)): int
  {
    -p.0
  }

  /** Outcome of partitionByFirst: stable_partition on `first > 0`, then a
      stable_sort of the rest by `first` descending. */
  function PartitionByFirst(xs: seq<(int, int)>): seq<(int, int)>
  {
    Positives(xs) + SortByKey(NonPositives(xs), NegFirst)
  }

  lemma {:induction false} SplitPermutes(xs: seq<(int, int)>)
    ensures multiset(Positives(xs)) + multiset(NonPositives(xs)) == multiset(xs)
  {
    if |xs| > 0 {
      var tail := xs[1..];
      SplitPermutes(tail);
      SplitHead(xs);
      MultisetCons(xs);
    }
  }

  lemma MultisetCons<T>(xs: seq<T>)
    requires |xs| > 0
    ensures multiset(xs) == multiset{xs[0]} + multiset(xs[1..])
  {
    assert xs == [xs[0]] + xs[1..];
  }

  lemma SplitHead(xs: seq<(int, int)>)
    requires |xs| > 0
    ensures multiset(Positives(xs)) + multiset(NonPositives(xs))
            == multiset{xs[0]} + multiset(Positives(xs[1..])) + multiset(NonPositives(xs[1..]))
  {
    if xs[0].0 > 0 {
      assert Positives(xs) == [xs[0]] + Positives(xs[1..]);
      assert NonPositives(xs) == NonPositives(xs[1..]);
    } else {
      assert Positives(xs) == Positives(xs[1..]);
      assert NonPositives(xs) == [xs[0]] + NonPositives(xs[1..]);
    }
  }

  /** partitionByFirst only reorders: its output is a permutation. */
  lemma PartitionByFirstPermutes(xs: seq<(int, int)>)
    ensures multiset(PartitionByFirst(xs)) == multiset(xs)
    ensures |PartitionByFirst(xs)| == |xs|
  {
    SplitPermutes(xs);
    assert |multiset(PartitionByFirst(xs))| == |multiset(xs)|;
  }

  /** Positive neighbours come first, unsorted in their original order; the
      rest follows, sorted by first descending (so -1 before -2) and stable
      among equal firsts. */
  lemma PartitionByFirstLayout(xs: seq<(int, int)>)
    ensures var r := PartitionByFirst(xs); var n := |Positives(xs)|;
      n <= |r| && r[..n] == Positives(xs)
      && (forall i :: 0 <= i < n ==> r[i].0 > 0)
      && (forall i :: n <= i < |r| ==> r[i].0 <= 0)
      && (forall i, j :: n <= i < j < |r| ==> r[i].0 >= r[j].0)
      && (forall k :: KeyFilter(r[n..], NegFirst, k) == KeyFilter(NonPositives(xs), NegFirst, k))
  {
    var r := PartitionByFirst(xs);
    var pos := Positives(xs);
    var rest := SortByKey(NonPositives(xs), NegFirst);
    assert r == pos + rest;
    SortedRestLayout(xs, rest);
    AppendParts(pos, rest);
  }

  lemma AppendParts(p: seq<(int, int)>, q: seq<(int, int)>)
    ensures (p + q)[..|p|] == p && (p + q)[|p|..] == q
    ensures forall i :: 0 <= i < |p| ==> (p + q)[i] == p[i]
    ensures forall i :: |p| <= i < |p + q| ==> (p + q)[i] == q[i - |p|]
  {
  }

  /** The sorted rest: non-positive, descending, stable among equal firsts. */
  lemma SortedRestLayout(xs: seq<(int, int)>, rest: seq<(int, int)>)
    requires rest == SortByKey(NonPositives(xs), NegFirst)
    ensures forall i :: 0 <= i < |rest| ==> rest[i].0 <= 0
    ensures forall i, j :: 0 <= i < j < |rest| ==> rest[i].0 >= rest[j].0
    ensures forall k :: KeyFilter(rest, NegFirst, k) == KeyFilter(NonPositives(xs), NegFirst, k)
  {
    forall i | 0 <= i < |rest|
      ensures rest[i].0 <= 0
    {
      assert rest[i] in multiset(NonPositives(xs));
    }
    forall i, j | 0 <= i < j < |rest|
      ensures rest[i].0 >= rest[j].0
    {
      assert NegFirst(rest[i]) <= NegFirst(rest[j]);
    }
    forall k
      ensures KeyFilter(rest, NegFirst, k) == KeyFilter(NonPositives(xs), NegFirst, k)
    {
      SortIsStable(NonPositives(xs), NegFirst, k);
    }
  }

  /** partitionByFirst on the caller's pair vector, in place. The
      arrangement is computed first (PartitionByFirst, as std::stable_partition
      and std::stable_sort produce it); the loop only writes it back into the
      array, so it does none of the partitioning itself. */
  method PartitionByFirstInPlace(a: array<(int, int)>)
    modifies a
    ensures a[..] == PartitionByFirst(old(a[..]))
  {
    var target := PartitionByFirst(a[..]);
    PartitionByFirstPermutes(a[..]);
    var i := 0;
    while i < a.Length
      invariant 0 <= i <= a.Length && |target| == a.Length
      invariant forall k :: 0 <= k < i ==> a[k] == target[k]
    {
      a[i] := target[i];
      i := i + 1;
    }
    assert a[..] == target;
  }

  // ----- renumberFaces -------------------------------------------------------

  /** A face with every point id p replaced by labels[p]. */
  function RenumberFace(face: seq<int>, labels: seq<int>): (r: seq<int>)
    requires forall j :: 0 <= j < |face| ==> 0 <= face[j] < |labels|
    ensures |r| == |face|
    ensures forall j :: 0 <= j < |face| ==> r[j] == labels[face[j]]
  {
    seq(|face|, j requires 0 <= j < |face| => labels[face[j]])
  }

  /** Every point id of every face lies in [0, n). */
  predicate FacesWithin(faces: seq<seq<int>>, n: int)
  {
    forall i, j :: 0 <= i < |faces| && 0 <= j < |faces[i]| ==> 0 <= faces[i][j] < n
  }

  /** The face list with every face renumbered. */
  function RenumberedFaces(faces: seq<seq<int>>, labels: seq<int>): (r: seq<seq<int>>)
    requires FacesWithin(faces, |labels|)
    ensures |r| == |faces|
    ensures forall i :: 0 <= i < |faces| ==> r[i] == RenumberFace(faces[i], labels)
  {
    seq(|faces|, i requires 0 <= i < |faces| => RenumberFace(faces[i], labels))
  }

  /** renumberFaces(faces, map): every face renumbered in place. */
  method RenumberFaces(faces: array<seq<int>>, labels: seq<int>)
    requires FacesWithin(faces[..], |labels|)
    modifies faces
    ensures forall i :: 0 <= i < faces.Length ==> faces[i] == RenumberFace(old(faces[i]), labels)
    ensures faces[..] == RenumberedFaces(old(faces[..]), labels)
  {
    assert forall i :: 0 <= i < faces.Length ==> faces[..][i] == faces[i];
    var i := 0;
    while i < faces.Length
      invariant 0 <= i <= faces.Length
      invariant forall k :: 0 <= k < i ==> faces[k] == RenumberFace(old(faces[k]), labels)
      invariant forall k :: i <= k < faces.Length ==> faces[k] == old(faces[k])
    {
      faces[i] := RenumberFace(faces[i], labels);
      i := i + 1;
    }
  }

  // ----- index vectors -------------------------------------------------------

  /** indexIota(container, size, start): the container becomes
      start, start+1, ..., start+size-1. */
  function IndexIota(size: nat, start: int): (r: seq<int>)
    ensures |r| == size
    ensures forall i :: 0 <= i < size ==> r[i] == start + i
  {
    if size == 0 then [] else IndexIota(size - 1, start) + [start + size - 1]
  }

  /** generateIndexedPairs: each input entry paired with its position. */
  function GenerateIndexedPairs(input: seq<int>): (r: seq<(int, int)>)
    ensures |r| == |input|
    ensures forall i :: 0 <= i < |input| ==> r[i] == (input[i], i)
  {
    var indices := IndexIota(|input|, 0);
    Zip(input, indices)
  }

  /** zip: pairs the two containers index-wise over the first one's length
      (the second must be at least as long). */
  function Zip<A, B>(c1: seq<A>, c2: seq<B>): (r: seq<(A, B)>)
    requires |c2| >= |c1|
    ensures |r| == |c1|
    ensures forall i :: 0 <= i < |c1| ==> r[i] == (c1[i], c2[i])
  {
    seq(|c1|, i requires 0 <= i < |c1| => (c1[i], c2[i]))
  }

  /** extractNth: op applied to every element. */
  function ExtractNth<T>(input: seq<T>, op: T -> int): (r: seq<int>)
    ensures |r| == |input|
    ensures forall i :: 0 <= i < |input| ==> r[i] == op(input[i])
  {
    seq(|input|, i requires 0 <= i < |input| => op(input[i]))
  }

  /** Sort key data[i] of an index i (indices outside data never occur). */
  function DataKey(data: seq<int>): int -> int
  {
    i => if 0 <= i < |data| then data[i] else 0
  }

  /** indexSort(indices, data): stable sort of the indices by data[i]. */
  function IndexSort(indices: seq<int>, data: seq<int>): (r: seq<int>)
    requires forall i :: 0 <= i < |indices| ==> 0 <= indices[i] < |data|
    ensures multiset(r) == multiset(indices)
    ensures forall i :: 0 <= i < |r| ==> 0 <= r[i] < |data|
    ensures forall i, j :: 0 <= i < j < |r| ==> data[r[i]] <= data[r[j]]
  {
    var r := SortByKey(indices, DataKey(data));
    assert forall i :: 0 <= i < |r| ==> r[i] in multiset(indices);
    r
  }

  /** permutationOfSorted: the stable argsort of the input. The result is a
      permutation of 0..n-1 that lists positions by ascending value, equal
      values by ascending position. */
  function PermutationOfSorted(input: seq<int>): (r: seq<int>)
    ensures |r| == |input|
    ensures forall i :: 0 <= i < |r| ==> 0 <= r[i] < |input|
    ensures forall i, j :: 0 <= i < j < |r| ==>
              input[r[i]] < input[r[j]] || (input[r[i]] == input[r[j]] && r[i] < r[j])
  {
    var iota := IndexIota(|input|, 0);
    SortOfAscendingIsLex(iota, DataKey(input));
    IndexSort(iota, input)
  }

  /** Every position occurs exactly once in the argsort. */
  lemma PermutationOfSortedIsPermutation(input: seq<int>, p: nat)
    requires p < |input|
    ensures p in PermutationOfSorted(input)
  {
    var iota := IndexIota(|input|, 0);
    assert iota[p] == p;
    assert p in multiset(iota);
    assert multiset(PermutationOfSorted(input)) == multiset(iota);
  }

  // ----- findValueExtend -----------------------------------------------------

  /** First position at or after `from` whose element equals (want) or
      differs from (!want) `value`; |xs| when there is none. */
  function FindFrom(xs: seq<int>, from: nat, value: int, want: bool): (r: nat)
    requires from <= |xs|
    ensures from <= r <= |xs|
    ensures forall k :: from <= k < r ==> (xs[k] == value) != want
    ensures r < |xs| ==> (xs[r] == value) == want
    decreases |xs| - from
  {
    if from == |xs| then from
    else if (xs[from] == value) == want then from
    else FindFrom(xs, from + 1, value, want)
  }

  /** findValueExtend: [begin, end) becomes the first maximal run of `value`
      at or after `begin` (empty at the end when there is none). */
  function FindValueExtend(xs: seq<int>, begin: nat, value: int): (r: (nat, nat))
    requires begin <= |xs|
    ensures begin <= r.0 <= r.1 <= |xs|
    ensures forall k :: begin <= k < r.0 ==> xs[k] != value
    ensures forall k :: r.0 <= k < r.1 ==> xs[k] == value
    ensures r.0 < |xs| ==> r.0 < r.1
    ensures r.1 < |xs| ==> xs[r.1] != value
  {
    var b := FindFrom(xs, begin, value, true);
    (b, FindFrom(xs, b, value, false))
  }

  // ----- applyPermutation ----------------------------------------------------

  /** applyPermutation(data, perm): slot i becomes the old data[perm[i]] for
      every i < |perm|; later slots are untouched. */
  method ApplyPermutation<T>(data: array<T>, perm: seq<int>)
    requires |perm| <= data.Length
    requires forall i :: 0 <= i < |perm| ==> 0 <= perm[i] < data.Length
    modifies data
    ensures forall i :: 0 <= i < |perm| ==> data[i] == old(data[perm[i]])
    ensures forall i :: |perm| <= i < data.Length ==> data[i] == old(data[i])
    ensures data[..] == Permuted(old(data[..]), perm)
  {
    var output: seq<T> := [];
    var i := 0;
    while i < |perm|
      invariant 0 <= i <= |perm| && |output| == i
      invariant forall k :: 0 <= k < i ==> output[k] == data[perm[k]]
    {
      output := output + [data[perm[i]]];
      i := i + 1;
    }
    i := 0;
    while i < |output|
      invariant 0 <= i <= |output|
      invariant forall k :: 0 <= k < i ==> data[k] == output[k]
      invariant forall k :: i <= k < data.Length ==> data[k] == old(data[k])
    {
      data[i] := output[i];
      i := i + 1;
    }
  }

  /** The outcome of applyPermutation on a vector. */
  function Permuted<T>(data: seq<T>, perm: seq<int>): (r: seq<T>)
    requires |perm| <= |data|
    requires forall i :: 0 <= i < |perm| ==> 0 <= perm[i] < |data|
    ensures |r| == |data|
    ensures forall i :: 0 <= i < |perm| ==> r[i] == data[perm[i]]
    ensures forall i :: |perm| <= i < |data| ==> r[i] == data[i]
  {
    seq(|data|, i requires 0 <= i < |data| => if i < |perm| then data[perm[i]] else data[i])
  }

  /** Gathering through a permutation of all positions only rearranges. */
  lemma {:induction false} PermutedIsRearrangement<T>(old_: seq<T>, perm: seq<int>, r: seq<T>)
    requires |perm| == |old_| == |r|
    requires forall i :: 0 <= i < |perm| ==> 0 <= perm[i] < |old_|
    requires forall i, j :: 0 <= i < j < |perm| ==> perm[i] != perm[j]
    requires forall i :: 0 <= i < |r| ==> r[i] == old_[perm[i]]
    ensures multiset(r) == multiset(old_)
    decreases |perm|
  {
    var n := |perm|;
    if n > 0 {
      Onto(perm, n, n - 1);
      var k :| 0 <= k < n && perm[k] == n - 1;
      // Move the slot that reads old_[n-1] to the end and drop it.
      var perm' := perm[k := perm[n - 1]][..n - 1];
      var r' := r[k := r[n - 1]][..n - 1];
      var old' := old_[..n - 1];
      SwapDropKeepsGather(old_, perm, r, k);
      PermutedIsRearrangement(old', perm', r');
      SwapDropMultiset(r, k);
      assert old_ == old' + [old_[n - 1]];
      assert r[k] == old_[n - 1];
      calc {
        multiset(r);
        multiset(r') + multiset{r[k]};
        multiset(old') + multiset{old_[n - 1]};
        multiset(old_);
      }
    }
  }

  /** Moving the slot k that reads the last element of old_ to the end and
      dropping it leaves a gather through a permutation of one fewer slots. */
  lemma SwapDropKeepsGather<T>(old_: seq<T>, perm: seq<int>, r: seq<T>, k: nat)
    requires |perm| == |old_| == |r| && k < |perm| && perm[k] == |perm| - 1
    requires forall i :: 0 <= i < |perm| ==> 0 <= perm[i] < |old_|
    requires forall i, j :: 0 <= i < j < |perm| ==> perm[i] != perm[j]
    requires forall i :: 0 <= i < |r| ==> r[i] == old_[perm[i]]
    ensures var n := |perm|;
            var perm' := perm[k := perm[n - 1]][..n - 1];
            var r' := r[k := r[n - 1]][..n - 1];
            && |perm'| == |old_[..n - 1]| == |r'|
            && (forall i :: 0 <= i < |perm'| ==> 0 <= perm'[i] < n - 1)
            && (forall i, j :: 0 <= i < j < |perm'| ==> perm'[i] != perm'[j])
            && (forall i :: 0 <= i < |r'| ==> r'[i] == old_[..n - 1][perm'[i]])
  {
    var n := |perm|;
    var perm' := perm[k := perm[n - 1]][..n - 1];
    var r' := r[k := r[n - 1]][..n - 1];
    forall i | 0 <= i < n - 1
      ensures 0 <= perm'[i] < n - 1 && r'[i] == old_[..n - 1][perm'[i]]
    {
      if i == k {
        assert perm'[i] == perm[n - 1] != perm[k];
      } else {
        assert perm'[i] == perm[i] != perm[k];
      }
    }
    forall i, j | 0 <= i < j < n - 1
      ensures perm'[i] != perm'[j]
    {
    }
  }

  /** Overwriting slot k with the last element and dropping the last slot
      removes exactly one copy of the old r[k]. */
  lemma SwapDropMultiset<T>(r: seq<T>, k: nat)
    requires k < |r|
    ensures multiset(r) == multiset(r[k := r[|r| - 1]][..|r| - 1]) + multiset{r[k]}
  {
    var n := |r|;
    var s := r[k := r[n - 1]];
    assert s == s[..n - 1] + [s[n - 1]];
    if k == n - 1 {
      assert s == r;
    } else {
      assert multiset(s) == multiset(r) - multiset{r[k]} + multiset{r[n - 1]};
    }
  }

  /** Distinct values below n are at most n many. */
  lemma {:induction false} DistinctBounded(xs: seq<int>, n: nat)
    requires forall i :: 0 <= i < |xs| ==> 0 <= xs[i] < n
    requires forall i, j :: 0 <= i < j < |xs| ==> xs[i] != xs[j]
    ensures |xs| <= n
  {
    if n == 0 {
      ElementsOf(xs);
    } else if n - 1 in xs {
      var k :| 0 <= k < |xs| && xs[k] == n - 1;
      var ys := xs[..k] + xs[k + 1..];
      assert forall i :: 0 <= i < |ys| ==> ys[i] == if i < k then xs[i] else xs[i + 1];
      DistinctBounded(ys, n - 1);
    } else {
      DistinctBounded(xs, n - 1);
    }
  }

  lemma ElementsOf(xs: seq<int>)
    ensures |xs| > 0 ==> xs[0] in xs
  {
  }

  /** n distinct values below n cover every position. */
  lemma Onto(perm: seq<int>, n: nat, v: int)
    requires |perm| == n
    requires forall i :: 0 <= i < n ==> 0 <= perm[i] < n
    requires forall i, j :: 0 <= i < j < n ==> perm[i] != perm[j]
    requires 0 <= v < n
    ensures v in perm
  {
    if v !in perm {
      DistinctBounded(perm + [v], n);
    }
  }

  // ----- subset --------------------------------------------------------------

  /** subset over a nested range: the elements of the inner ranges that
      satisfy the predicate, in order. */
  function Subset(nested: seq<seq<int>>, pred: int -> bool): (r: seq<int>)
    ensures forall x :: x in r ==> pred(x)
  {
    if |nested| == 0 then []
    else Subset(nested[..|nested| - 1], pred) + Filter(nested[|nested| - 1], pred)
  }

  function Filter(xs: seq<int>, pred: int -> bool): (r: seq<int>)
    ensures forall x :: x in r ==> pred(x) && x in xs
    ensures forall x :: x in xs && pred(x) ==> x in r
  {
    if |xs| == 0 then []
    else Filter(xs[..|xs| - 1], pred) + (if pred(xs[|xs| - 1]) then [xs[|xs| - 1]] else [])
  }

  /** The concatenation of the inner ranges. */
  function Flatten(nested: seq<seq<int>>): seq<int>
  {
    if |nested| == 0 then [] else Flatten(nested[..|nested| - 1]) + nested[|nested| - 1]
  }

  /** The flattened points of faces within [0, n) are within [0, n). */
  lemma {:induction false} FlattenWithin(faces: seq<seq<int>>, n: int)
    requires FacesWithin(faces, n)
    ensures forall k :: 0 <= k < |Flatten(faces)| ==> 0 <= Flatten(faces)[k] < n
  {
    if |faces| > 0 {
      FlattenWithin(faces[..|faces| - 1], n);
    }
  }

  /** Renumbering every face renumbers the flattened point list. */
  lemma {:induction false} FlattenRenumbered(faces: seq<seq<int>>, labels: seq<int>)
    requires FacesWithin(faces, |labels|)
    ensures FacesWithin(faces, |labels|) && Flatten(RenumberedFaces(faces, labels))
            == (FlattenWithin(faces, |labels|); RenumberFace(Flatten(faces), labels))
  {
    FlattenWithin(faces, |labels|);
    if |faces| > 0 {
      var init := faces[..|faces| - 1];
      FlattenRenumbered(init, labels);
      assert RenumberedFaces(faces, labels)[..|faces| - 1] == RenumberedFaces(init, labels);
    }
  }

  /** subset equals the filter of the flattened range. */
  lemma {:induction false} SubsetIsFilterOfFlatten(nested: seq<seq<int>>, pred: int -> bool)
    ensures Subset(nested, pred) == Filter(Flatten(nested), pred)
  {
    if |nested| > 0 {
      SubsetIsFilterOfFlatten(nested[..|nested| - 1], pred);
      FilterAppend(Flatten(nested[..|nested| - 1]), nested[|nested| - 1], pred);
    }
  }

  lemma {:induction false} FilterAppend(xs: seq<int>, ys: seq<int>, pred: int -> bool)
    ensures Filter(xs + ys, pred) == Filter(xs, pred) + Filter(ys, pred)
  {
    if |ys| > 0 {
      var init := ys[..|ys| - 1];
      var last := ys[|ys| - 1];
      var tail := if pred(last) then [last] else [];
      assert Filter(xs + ys, pred) == Filter(xs + init, pred) + tail by {
        assert (xs + ys)[..|xs + ys| - 1] == xs + init;
        assert (xs + ys)[|xs + ys| - 1] == last;
      }
      assert Filter(ys, pred) == Filter(init, pred) + tail;
      FilterAppend(xs, init, pred);
    } else {
      assert xs + ys == xs;
    }
  }

  /** An element is in the subset iff some inner range holds it and it
      satisfies the predicate. */
  lemma {:induction false} SubsetMembers(nested: seq<seq<int>>, pred: int -> bool, x: int)
    ensures x in Subset(nested, pred) <==> pred(x) && exists f :: f in nested && x in f
  {
    if |nested| > 0 {
      var init := nested[..|nested| - 1];
      var last := nested[|nested| - 1];
      SubsetMembers(init, pred, x);
      if pred(x) && x in last {
        assert last in nested;
      }
      if exists f :: f in nested && x in f {
        var f :| f in nested && x in f;
        if f != last {
          assert f in init;
        }
      }
    }
  }
}
