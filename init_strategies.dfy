// The initialization strategies of the coherence composite
// (CoherenceComposite/strategies/InitStrategies.H and InitStrategies.C): how a
// component fills its data from a stored block, given the (start, count)
// window its offset strategies computed. The stored block is a parameter;
// the reading engine itself is not part of this model.
module InitStrategies {
  import opened Wrappers
  import opened OffsetTables
  import opened CoherentOffsets
  import OffsetStrategies

  // ----- window translation --------------------------------------------------

  /** A start or count of -1 means "no selection": the reader is handed an
      empty list, otherwise a one-entry list. */
  function WindowList(v: int): (r: seq<int>)
    ensures |r| <= 1
    ensures r == [] <==> v == -1
    ensures r != [] ==> r[0] == v
  {
    if v != -1 then [v] else []
  }

  /** The start and count lists handed to the reader. */
  datatype Window = Window(start: seq<int>, count: seq<int>)

  function Translate(startCount: (int, int)): Window
  {
    Window(WindowList(startCount.0), WindowList(startCount.1))
  }

  /** Reading a block into a container: with no selection at all the whole
      block is read; with a one-entry start and count the entries
      [start, start + count) are. Any other request, or one outside the
      block, is refused by the reader (None). */
  function ReadWindow<T>(block: seq<T>, w: Window): (r: Option<seq<T>>)
    ensures w.start == [] && w.count == [] ==> r == Some(block)
    ensures r.Some? && w.count != [] ==>
              |w.start| == 1 && |w.count| == 1 && 0 <= w.start[0]
              && w.start[0] + w.count[0] <= |block|
              && |r.value| == w.count[0]
              && forall i :: 0 <= i < |r.value| ==> r.value[i] == block[w.start[0] + i]
    ensures r.None? <==>
              !(w.start == [] && w.count == [])
              && !(|w.start| == 1 && |w.count| == 1 && 0 <= w.start[0] && 0 <= w.count[0]
                   && w.start[0] + w.count[0] <= |block|)
  {
    if w.start == [] && w.count == [] then Some(block)
    else if |w.start| == 1 && |w.count| == 1 && 0 <= w.start[0] && 0 <= w.count[0]
            && w.start[0] + w.count[0] <= |block|
    then Some(block[w.start[0]..w.start[0] + w.count[0]])
    else None
  }

  /** InitFromADIOS::execute: a window of -1s reads the whole block, a proper
      window reads exactly the entries it selects. */
  function ReadFromStorage<T>(block: seq<T>, startCount: (int, int)): (r: Option<seq<T>>)
    ensures startCount == (-1, -1) ==> r == Some(block)
    ensures 0 <= startCount.0 && 0 <= startCount.1 && startCount.0 + startCount.1 <= |block| ==>
              r == Some(block[startCount.0..startCount.0 + startCount.1])
    ensures r.Some? && startCount.1 != -1 ==> |r.value| == startCount.1
  {
    ReadWindow(block, Translate(startCount))
  }

  /** InitFromADIOS::operator bool: true iff the stored block is non-empty. */
  function HasData<T>(block: seq<T>): (r: bool)
    ensures r <==> block != []
  {
    |block| != 0
  }

  /** InitPrimitivesFromADIOS::execute resizes the data to count[0] before
      reading, so a count of -1 (an empty count list) is not allowed. */
  function ReadPrimitives<T>(block: seq<T>, startCount: (int, int)): (r: Option<seq<T>>)
    requires startCount.1 != -1
    ensures r.Some? ==> |r.value| == startCount.1
    ensures 0 <= startCount.0 && 0 <= startCount.1 && startCount.0 + startCount.1 <= |block| ==>
              r == Some(block[startCount.0..startCount.0 + startCount.1])
  {
    ReadWindow(block, Translate(startCount))
  }

  // ----- naive partitioning ---------------------------------------------------

  /** C++ integer division, truncating toward zero. */
  function TruncDiv(a: int, b: int): (r: int)
    requires b > 0
    ensures a >= 0 ==> r == a / b
    ensures a < 0 ==> r == -((-a) / b)
  {
    if a >= 0 then a / b else -((-a) / b)
  }

  /** NaivePartitioningFromADIOS: rank `rank` of `nProcs` reads `count`
      entries from `start` of a block of `size` entries. */
  function NaiveWindow(size: int, nProcs: nat, rank: nat): (int, int)
    requires 0 < nProcs && rank < nProcs
  {
    var total := size - 1;
    var part := TruncDiv(total, nProcs);
    var start := part * rank;
    var count := if rank == nProcs - 1 then total - start else part;
    (start, count + 1)
  }

  /** Consecutive ranks' windows overlap in exactly one entry: the next rank
      starts at the last entry of this one. */
  lemma NaiveWindowsOverlapByOne(size: int, nProcs: nat, rank: nat)
    requires 0 < nProcs && rank + 1 < nProcs
    ensures NaiveWindow(size, nProcs, rank + 1).0
            == NaiveWindow(size, nProcs, rank).0 + NaiveWindow(size, nProcs, rank).1 - 1
  {
    var part := TruncDiv(size - 1, nProcs);
    assert part * (rank + 1) == part * rank + part;
  }

  /** The first rank starts at 0 and the last rank's window ends at the end
      of the block. */
  lemma NaiveWindowsSpanBlock(size: int, nProcs: nat)
    requires 0 < nProcs
    ensures NaiveWindow(size, nProcs, 0).0 == 0
    ensures NaiveWindow(size, nProcs, nProcs - 1).0 + NaiveWindow(size, nProcs, nProcs - 1).1 == size
  {
  }

  /** For a non-empty block every window lies inside it. */
  lemma NaiveWindowWithinBlock(size: int, nProcs: nat, rank: nat)
    requires 0 < nProcs && rank < nProcs && 0 < size
    ensures 0 <= NaiveWindow(size, nProcs, rank).0
    ensures 1 <= NaiveWindow(size, nProcs, rank).1
    ensures NaiveWindow(size, nProcs, rank).0 + NaiveWindow(size, nProcs, rank).1 <= size
  {
    var total := size - 1;
    var part := total / nProcs;
    assert part * nProcs <= total;
    assert 0 <= part * rank;
    if rank < nProcs - 1 {
      assert part * (rank + 1) <= part * nProcs by {
        MultiplyMonotone(part, rank + 1, nProcs);
      }
    } else {
      assert part * rank <= part * nProcs by {
        MultiplyMonotone(part, rank, nProcs);
      }
    }
  }

  /** NaivePartitioningFromADIOS::execute: the window of this rank, read
      from the block; the incoming (start, count) is ignored. */
  function ReadNaivePartition<T>(block: seq<T>, nProcs: nat, rank: nat): (r: Option<seq<T>>)
    requires 0 < nProcs && rank < nProcs
    ensures 0 < |block| ==> r.Some?
    ensures r.Some? ==> NaiveRead(block, NaiveWindow(|block|, nProcs, rank), r.value)
  {
    var w := NaiveWindow(|block|, nProcs, rank);
    if 0 < |block| then
      NaiveWindowWithinBlock(|block|, nProcs, rank);
      ReadWindow(block, Window([w.0], [w.1]))
    else
      ReadWindow(block, Window([w.0], [w.1]))
  }

  /** `data` holds the w.1 entries of the block from w.0 on. */
  ghost predicate NaiveRead<T>(block: seq<T>, w: (int, int), data: seq<T>)
  {
    |data| == w.1 && 0 <= w.0 && w.0 + w.1 <= |block|
    && forall i :: 0 <= i < |data| ==> data[i] == block[w.0 + i]
  }

  // ----- InitOffsets ----------------------------------------------------------

  /** The value InitOffsets feeds to Offsets::set: the count when
      accumulating, else the start. */
  function OffsetsValue(startCount: (int, int), accumulate: bool): int
  {
    if !accumulate then startCount.0 else startCount.1
  }

  /** The table InitOffsets::execute builds. */
  function OffsetsTable(startCount: (int, int), accumulate: bool, env: OffsetStrategies.Env): (r: seq<(int, int)>)
    requires env.Valid()
    ensures Chained(r, |env.peers|, env.myProcNo)
  {
    var values := env.peers[env.myProcNo := OffsetsValue(startCount, accumulate)];
    SetTableChained(values, accumulate, env.myProcNo);
    SetTable(values, accumulate)
  }

  /** The data InitOffsets::execute leaves: the own partition's bounds. */
  function OffsetsData(startCount: (int, int), accumulate: bool, env: OffsetStrategies.Env): (r: seq<int>)
    requires env.Valid()
    ensures |r| == 2
    ensures r[0] == OffsetsTable(startCount, accumulate, env)[env.myProcNo].0
    ensures r[1] == OffsetsTable(startCount, accumulate, env)[env.myProcNo].1
  {
    var t := OffsetsTable(startCount, accumulate, env);
    [t[env.myProcNo].0, t[env.myProcNo].1]
  }

  /** The own window is ordered on every rank but the first, and on the
      first whenever the contributed value is non-negative; accumulating
      non-negative values makes it exactly the contributed value wide. */
  lemma OffsetsDataOrdered(startCount: (int, int), accumulate: bool, env: OffsetStrategies.Env)
    requires env.Valid()
    ensures var v := OffsetsValue(startCount, accumulate);
            (env.myProcNo > 0 || v >= 0) ==>
              OffsetsData(startCount, accumulate, env)[0] <= OffsetsData(startCount, accumulate, env)[1]
    ensures var values := env.peers[env.myProcNo := OffsetsValue(startCount, accumulate)];
            accumulate && NonNegative(values) ==>
              OffsetsData(startCount, accumulate, env)[1] - OffsetsData(startCount, accumulate, env)[0]
              == OffsetsValue(startCount, accumulate)
  {
    var values := env.peers[env.myProcNo := OffsetsValue(startCount, accumulate)];
    var me := env.myProcNo;
    if me == 0 {
      assert GlobalIndexOffsets(values, accumulate)[1..][0] == (if accumulate then Sum(values[..1]) else values[0]);
      assert values[..1] == [values[0]];
      assert Sum([values[0]]) == Sum([]) + values[0];
    }
    if accumulate && NonNegative(values) {
      ReducedUpperIsRunningSum(values, me);
      if me > 0 {
        ReducedUpperIsRunningSum(values, me - 1);
      }
      PrefixSumsDifference(values, me);
    }
  }

  /** InitOffsets: builds an Offsets table with `set` and keeps it for
      later extraction. */
  class InitOffsets {
    const accumulate: bool
    /** offsets_: the table of the last execute (initially all (0, 0)). */
    const offsets: Offsets

    constructor(accumulate: bool, nProcs: nat, myProcNo: nat)
      requires myProcNo < nProcs
      ensures this.accumulate == accumulate && fresh(offsets)
      ensures offsets.Valid() && offsets.nProcs == nProcs && offsets.myProcNo == myProcNo
      ensures offsets.pairs == seq(nProcs, _ => (0, 0))
    {
      this.accumulate := accumulate;
      offsets := new Offsets(nProcs, myProcNo);
    }

    /** execute(data, start_count): set the table from the start or the
        count and replace the data with the own (lower, upper) bounds. */
    method Execute(startCount: (int, int), env: OffsetStrategies.Env) returns (data: seq<int>)
      requires offsets.Valid() && env.myProcNo == offsets.myProcNo && |env.peers| == offsets.nProcs
      modifies offsets
      ensures offsets.Valid()
      ensures offsets.pairs == OffsetsTable(startCount, accumulate, env)
      ensures data == OffsetsData(startCount, accumulate, env)
    {
      var value := if !accumulate then startCount.0 else startCount.1;
      offsets.Set(value, env.peers, accumulate);
      TableAfterSet(offsets, env.peers[env.myProcNo := value], accumulate);
      data := [offsets.LowerBound(offsets.myProcNo), offsets.UpperBound(offsets.myProcNo)];
    }
  }
}
