// The slice of the coherent mesh (CoherentMesh/Slice.C, SliceI.H) and the
// import map it shares between copies (CoherentMesh/sliceMap.C, sliceMapI.H).
// A slice owns the global ids [bottom, top); ids of other partitions that the
// process imports get consecutive local ids after the native ones.
module CoherentSlices {
  import CoherentOffsets

  /** Import map after `append`: ids are visited in order, the k-th one is
      offered local id `next + k`, and an id already present keeps its local
      id (the counter still advances past it). */
  function Appended(m: map<int, int>, ids: seq<int>, next: int): map<int, int>
  {
    if |ids| == 0 then m
    else
      var prev := Appended(m, ids[..|ids| - 1], next);
      var id := ids[|ids| - 1];
      if id in prev then prev else prev[id := next + |ids| - 1]
  }

  /** The keys after `append` are the old keys and the listed ids, and an
      id mapped before keeps its local id. */
  lemma {:induction false} AppendedKeys(m: map<int, int>, ids: seq<int>, next: int)
    ensures forall k :: k in Appended(m, ids, next) <==> k in m || k in ids
    ensures forall k :: k in m ==> k in Appended(m, ids, next) && Appended(m, ids, next)[k] == m[k]
  {
    if |ids| > 0 {
      var init := ids[..|ids| - 1];
      AppendedKeys(m, init, next);
      assert ids == init + [ids[|ids| - 1]];
    }
  }

  /** An id not mapped before, at its first occurrence i, gets `next + i`. */
  lemma {:induction false} AppendedFirstOccurrence(m: map<int, int>, ids: seq<int>, next: int, i: nat)
    requires i < |ids| && ids[i] !in m
    requires forall j :: 0 <= j < i ==> ids[j] != ids[i]
    ensures ids[i] in Appended(m, ids, next) && Appended(m, ids, next)[ids[i]] == next + i
  {
    var init := ids[..|ids| - 1];
    AppendedKeys(m, init, next);
    if i == |ids| - 1 {
      assert ids[i] !in init;
    } else {
      assert init[i] == ids[i];
      AppendedFirstOccurrence(m, init, next, i);
    }
  }

  /** Distinct, unmapped ids get consecutive, pairwise distinct local ids
      starting at `next`. */
  lemma AppendedDistinctIds(m: map<int, int>, ids: seq<int>, next: int)
    requires forall i, j :: 0 <= i < j < |ids| ==> ids[i] != ids[j]
    requires forall i :: 0 <= i < |ids| ==> ids[i] !in m
    ensures forall k :: 0 <= k < |ids| ==> ids[k] in Appended(m, ids, next) && Appended(m, ids, next)[ids[k]] == next + k
    ensures forall i, j :: 0 <= i < j < |ids| ==>
              ids[i] in Appended(m, ids, next) && ids[j] in Appended(m, ids, next)
              && next <= Appended(m, ids, next)[ids[i]] < Appended(m, ids, next)[ids[j]]
  {
    forall k | 0 <= k < |ids|
      ensures ids[k] in Appended(m, ids, next) && Appended(m, ids, next)[ids[k]] == next + k
    {
      AppendedFirstOccurrence(m, ids, next, k);
    }
  }

  /** The shared import map (sliceMap). */
  class SliceMap {
    /** mapping_: imported global id to local id. */
    var mapping: map<int, int>
    /** numNativeEntities_: local ids below this belong to the slice itself. */
    const numNative: int

    constructor(numNative: int)
      ensures mapping == map[] && this.numNative == numNative
    {
      mapping := map[];
      this.numNative := numNative;
    }

    /** exist(id): whether the id has been imported. */
    function Exist(id: int): (r: bool)
      reads this
      ensures r <==> id in mapping
    {
      id in mapping
    }

    /** operator[](id): the local id of an imported id; an absent id is
        inserted with local id 0, as std::map::operator[] does. */
    method Lookup(id: int) returns (r: int)
      modifies this
      ensures id in old(mapping) ==> r == old(mapping)[id] && mapping == old(mapping)
      ensures id !in old(mapping) ==> r == 0 && mapping == old(mapping)[id := 0]
    {
      if id !in mapping {
        mapping := mapping[id := 0];
      }
      r := mapping[id];
    }

    /** append(list): numbers the listed ids consecutively after the native
        entities and the ids imported so far. */
    method Append(ids: seq<int>)
      modifies this
      ensures mapping == Appended(old(mapping), ids, numNative + |old(mapping)|)
    {
      var currId := numNative + |mapping|;
      ghost var m0 := mapping;
      ghost var base := currId;
      var i := 0;
      while i < |ids|
        invariant 0 <= i <= |ids|
        invariant currId == base + i
        invariant mapping == Appended(m0, ids[..i], base)
      {
        assert ids[..i + 1][..i] == ids[..i];
        if ids[i] !in mapping {
          mapping := mapping[ids[i] := currId];
        }
        currId := currId + 1;
        i := i + 1;
      }
      assert ids[..|ids|] == ids;
    }
  }

  class Slice {
    const partition: int
    const bottom: int
    const top: int
    /** mapping_: shared by every copy of this slice. */
    const imports: SliceMap

    /** Slice(partition, bottom, top): a fresh, empty import map whose native
        count is the width of the range. */
    constructor(partition: int, bottom: int, top: int)
      ensures this.partition == partition && this.bottom == bottom && this.top == top
      ensures fresh(imports) && imports.mapping == map[]
      ensures imports.numNative == top - bottom
    {
      this.partition := partition;
      this.bottom := bottom;
      this.top := top;
      imports := new SliceMap(top - bottom);
    }

    /** Slice(partition, offsets): the partition's bounds in the table. */
    constructor FromOffsets(partition: nat, offsets: CoherentOffsets.Offsets)
      requires offsets.Valid() && partition < offsets.nProcs
      ensures this.partition == partition
      ensures bottom == offsets.LowerBound(partition) && top == offsets.UpperBound(partition)
      ensures fresh(imports) && imports.mapping == map[]
      ensures imports.numNative == offsets.Count(partition)
    {
      this.partition := partition;
      bottom := offsets.LowerBound(partition);
      top := offsets.UpperBound(partition);
      imports := new SliceMap(offsets.UpperBound(partition) - offsets.LowerBound(partition));
    }

    /** Slice(bottom, top): a range that belongs to no partition (-1). */
    constructor FromRange(bottom: int, top: int)
      ensures partition == -1 && this.bottom == bottom && this.top == top
      ensures fresh(imports) && imports.mapping == map[]
      ensures imports.numNative == top - bottom
    {
      partition := -1;
      this.bottom := bottom;
      this.top := top;
      imports := new SliceMap(top - bottom);
    }

    /** Copy construction: the copy shares the import map (shared_ptr). */
    constructor Copy(other: Slice)
      ensures partition == other.partition && bottom == other.bottom && top == other.top
      ensures imports == other.imports
    {
      partition := other.partition;
      bottom := other.bottom;
      top := other.top;
      imports := other.imports;
    }

    function Partition(): int
    {
      partition
    }

    /** shift(id): position of an id relative to the bottom of the slice. */
    function Shift(id: int): (r: int)
      ensures bottom + r == id
    {
      id - bottom
    }

    /** operator()(id): the half-open range test. */
    predicate Contains(id: int)
    {
      bottom <= id && id < top
    }

    /** exist(id): native to the slice or already imported. */
    function Exist(id: int): (r: bool)
      reads imports
      ensures r <==> Contains(id) || id in imports.mapping
    {
      imports.Exist(id) || Contains(id)
    }

    /** Local id of `id` under import map m, as `convert` computes it. */
    function Converted(m: map<int, int>, id: int): int
    {
      if Contains(id) then Shift(id) else if id in m then m[id] else 0
    }

    /** Import map after `convert(id)`: a foreign id not yet imported is
        inserted with local id 0. */
    function AfterConvert(m: map<int, int>, id: int): map<int, int>
    {
      if Contains(id) || id in m then m else m[id := 0]
    }

    /** Import map after converting every id of `ids` in turn. */
    function AfterConvertAll(m: map<int, int>, ids: seq<int>): map<int, int>
    {
      if |ids| == 0 then m else AfterConvert(AfterConvertAll(m, ids[..|ids| - 1]), ids[|ids| - 1])
    }

    /** convert(id): shifted if native, else looked up in the import map. */
    method Convert(id: int) returns (r: int)
      modifies imports
      ensures r == Converted(old(imports.mapping), id)
      ensures imports.mapping == AfterConvert(old(imports.mapping), id)
      ensures Contains(id) ==> 0 <= r < top - bottom && bottom + r == id
    {
      if Contains(id) {
        r := Shift(id);
      } else {
        r := imports.Lookup(id);
      }
    }

    /** convert(list): rewrites every id in place and returns the list. */
    method ConvertList(list: array<int>) returns (r: seq<int>)
      modifies list, imports
      ensures r == list[..]
      ensures forall i :: 0 <= i < list.Length ==>
                list[i] == Converted(old(imports.mapping), old(list[i]))
      ensures imports.mapping == AfterConvertAll(old(imports.mapping), old(list[..]))
    {
      ghost var m0 := imports.mapping;
      ghost var ids := list[..];
      var i := 0;
      while i < list.Length
        invariant 0 <= i <= list.Length && |ids| == list.Length
        invariant forall j :: 0 <= j < i ==> list[j] == Converted(m0, ids[j])
        invariant forall j :: i <= j < list.Length ==> list[j] == ids[j]
        invariant imports.mapping == AfterConvertAll(m0, ids[..i])
      {
        assert ids[..i + 1][..i] == ids[..i];
        ConvertedUnaffected(m0, ids[..i], list[i]);
        list[i] := Convert(list[i]);
        i := i + 1;
      }
      assert ids[..list.Length] == ids;
      r := list[..];
    }

    /** Converting earlier ids only inserts local id 0 for unknown foreign
        ids, which is what a later conversion of them returns anyway. */
    lemma {:induction false} ConvertedUnaffected(m: map<int, int>, ids: seq<int>, id: int)
      ensures Converted(AfterConvertAll(m, ids), id) == Converted(m, id)
    {
      if |ids| > 0 {
        ConvertedUnaffected(m, ids[..|ids| - 1], id);
      }
    }

    /** Converting one list after another updates the import map as
        converting their concatenation does. */
    lemma {:induction false} AfterConvertAllAppend(m: map<int, int>, a: seq<int>, b: seq<int>)
      ensures AfterConvertAll(m, a + b) == AfterConvertAll(AfterConvertAll(m, a), b)
    {
      if |b| > 0 {
        AfterConvertAllAppend(m, a, b[..|b| - 1]);
        assert (a + b)[..|a + b| - 1] == a + b[..|b| - 1];
      } else {
        assert a + b == a;
      }
    }

    /** append(list): delegates to the shared import map. */
    method Append(ids: seq<int>)
      modifies imports
      ensures imports.mapping ==
                Appended(old(imports.mapping), ids, imports.numNative + |old(imports.mapping)|)
    {
      imports.Append(ids);
    }
  }

  /** A native id and an imported id never share a local id: with a map
      sized to the slice, distinct foreign ids imported into an empty map
      convert to the slice's width plus their position. */
  lemma ImportedIdsFollowNative(s: Slice, ids: seq<int>)
    requires s.imports.numNative == s.top - s.bottom
    requires forall i, j :: 0 <= i < j < |ids| ==> ids[i] != ids[j]
    requires forall i :: 0 <= i < |ids| ==> !s.Contains(ids[i])
    ensures forall k :: 0 <= k < |ids| ==>
              s.Converted(Appended(map[], ids, s.imports.numNative), ids[k]) == s.top - s.bottom + k
  {
    AppendedDistinctIds(map[], ids, s.imports.numNative);
  }

  /** numCellsFromSlice: how many neighbours lie inside the slice. */
  function NumCellsFromSlice(neighbours: seq<int>, slice: Slice): (r: nat)
    ensures r <= |neighbours|
    ensures r == |neighbours| <==> forall i :: 0 <= i < |neighbours| ==> slice.Contains(neighbours[i])
  {
    if |neighbours| == 0 then 0
    else
      NumCellsFromSlice(neighbours[..|neighbours| - 1], slice)
      + (if slice.Contains(neighbours[|neighbours| - 1]) then 1 else 0)
  }

  /** appendTransformed(ret, input, op): transforms `input` in place and
      returns `ret` followed by the transformed input. */
  method AppendTransformed<T>(ret: seq<T>, input: array<T>, op: T -> T) returns (r: seq<T>)
    modifies input
    ensures forall i :: 0 <= i < input.Length ==> input[i] == op(old(input[i]))
    ensures r == ret + input[..]
    ensures |r| == |ret| + input.Length && r[..|ret|] == ret
  {
    var i := 0;
    while i < input.Length
      invariant 0 <= i <= input.Length
      invariant forall j :: 0 <= j < i ==> input[j] == op(old(input[j]))
      invariant forall j :: i <= j < input.Length ==> input[j] == old(input[j])
    {
      input[i] := op(input[i]);
      i := i + 1;
    }
    r := ret + input[..];
  }
}
