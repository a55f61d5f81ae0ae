// The slice of the slice mesh (sliceMesh/Slice.C). It shares the import map
// of the coherent mesh's slice but built from the slice mesh's offsets, and
// its `exist` answers the opposite question: whether an id is still missing,
// i.e. neither native nor imported.
module SliceMeshSlices {
  import opened OrderedSets
  import SliceHelpers
  import SliceOffsets
  import CoherentSlices

  class Slice {
    const partition: int
    const bottom: int
    const top: int
    const imports: CoherentSlices.SliceMap

    /** Slice(partition, offsets): the partition's bounds, and an import map
        whose native count is the partition's count. */
    constructor(partition: nat, offsets: SliceOffsets.Offsets)
      requires offsets.Valid() && partition < offsets.nProcs
      ensures this.partition == partition
      ensures bottom == offsets.LowerBound(partition) && top == offsets.UpperBound(partition)
      ensures fresh(imports) && imports.mapping == map[]
      ensures imports.numNative == offsets.Count(partition)
    {
      this.partition := partition;
      bottom := offsets.LowerBound(partition);
      top := offsets.UpperBound(partition);
      imports := new CoherentSlices.SliceMap(offsets.Count(partition));
    }

    function Partition(): int
    {
      partition
    }

    /** shift(id) */
    function Shift(id: int): (r: int)
      ensures bottom + r == id
    {
      id - bottom
    }

    /** operator()(id): the half-open range test. */
    predicate Contains(id: int)
    {
      bottom <= id && id < top
    }

    /** exist(id): the id is neither imported nor native. */
    function Exist(id: int): (r: bool)
      reads imports
      ensures r <==> !Contains(id) && id !in imports.mapping
    {
      !imports.Exist(id) && !Contains(id)
    }

    /** convert(id): shifted if native, else looked up in the import map,
        which inserts a missing id with local id 0. */
    method Convert(id: int) returns (r: int)
      modifies imports
      ensures Contains(id) ==> r == Shift(id) && 0 <= r < top - bottom
      ensures Contains(id) ==> imports.mapping == old(imports.mapping)
      ensures !Contains(id) && id in old(imports.mapping) ==>
                r == old(imports.mapping)[id] && imports.mapping == old(imports.mapping)
      ensures !Contains(id) && id !in old(imports.mapping) ==>
                r == 0 && imports.mapping == old(imports.mapping)[id := 0]
    {
      if Contains(id) {
        r := Shift(id);
      } else {
        r := imports.Lookup(id);
      }
    }
  }

  /** With the same range and the same import map, this slice's `exist` is
      the negation of the coherent mesh slice's. */
  lemma ExistIsInverted(s: Slice, c: CoherentSlices.Slice, id: int)
    requires s.bottom == c.bottom && s.top == c.top && s.imports == c.imports
    ensures s.Exist(id) <==> !c.Exist(id)
  {
  }

  /** pointSubset(faces): the distinct point ids of the faces, ascending
      (a std::set). */
  function PointSubset(faces: seq<seq<int>>): (r: seq<int>)
    ensures StrictlyAscending(r)
    ensures forall x :: x in r <==> x in SliceHelpers.Flatten(faces)
  {
    FromSeq(SliceHelpers.Flatten(faces))
  }

  /** The ids of an ascending list for which the slice's `exist` holds. */
  function KeepMissing(xs: seq<int>, slice: Slice): (r: seq<int>)
    reads slice.imports
    requires StrictlyAscending(xs)
    ensures StrictlyAscending(r)
    ensures forall x :: x in r <==> x in xs && slice.Exist(x)
  {
    if |xs| == 0 then []
    else
      assert xs == [xs[0]] + xs[1..];
      var rest := KeepMissing(xs[1..], slice);
      HeadBelowTail(xs);
      if slice.Exist(xs[0]) then
        ConsAscending(xs[0], rest);
        [xs[0]] + rest
      else rest
  }

  lemma ConsAscending(h: int, rest: seq<int>)
    requires StrictlyAscending(rest)
    requires forall x :: x in rest ==> h < x
    ensures StrictlyAscending([h] + rest)
  {
    forall i, j | 0 <= i < j < |[h] + rest|
      ensures ([h] + rest)[i] < ([h] + rest)[j]
    {
      assert ([h] + rest)[j] == rest[j - 1];
      if i > 0 {
        assert ([h] + rest)[i] == rest[i - 1];
      } else {
        assert rest[j - 1] in rest;
      }
    }
  }

  lemma HeadBelowTail(xs: seq<int>)
    requires StrictlyAscending(xs) && |xs| > 0
    ensures forall x :: x in xs[1..] ==> xs[0] < x
  {
    forall x | x in xs[1..]
      ensures xs[0] < x
    {
      var k :| 0 <= k < |xs[1..]| && xs[1..][k] == x;
      assert xs[k + 1] == x;
    }
  }

  /** missingPoints(faces, slice): the face point ids the slice can resolve
      neither as native nor as imported, ascending and distinct. */
  function MissingPoints(faces: seq<seq<int>>, slice: Slice): (r: seq<int>)
    reads slice.imports
    ensures StrictlyAscending(r)
    ensures forall x :: x in r <==> x in SliceHelpers.Flatten(faces) && !slice.Contains(x)
                                    && x !in slice.imports.mapping
  {
    KeepMissing(PointSubset(faces), slice)
  }

  /** Importing the missing points (with `append`) leaves nothing missing. */
  lemma ImportingMissingPointsResolvesThem(faces: seq<seq<int>>, slice: Slice, m: map<int, int>, x: int)
    requires x in SliceHelpers.Flatten(faces)
    requires forall k :: k in m <==> k in slice.imports.mapping || k in MissingPoints(faces, slice)
    ensures slice.Contains(x) || x in m
  {
    if !slice.Contains(x) && x !in slice.imports.mapping {
      assert x in MissingPoints(faces, slice);
    }
  }
}
