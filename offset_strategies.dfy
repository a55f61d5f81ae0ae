// The offset strategies of the coherence composite
// (CoherenceComposite/strategies/OffsetStrategies.C): pure functions of a
// parent component's index data that give a child its (start, count) window.
module OffsetStrategies {
  import opened OffsetTables
  import opened CoherentOffsets
  import opened MeshLayout

  /** std::count_if(.., val >= value). */
  function CountAtLeast(xs: seq<int>, value: int): (r: nat)
    ensures r <= |xs|
    ensures r == |xs| <==> forall i :: 0 <= i < |xs| ==> xs[i] >= value
    ensures r == 0 <==> forall i :: 0 <= i < |xs| ==> xs[i] < value
  {
    if |xs| == 0 then 0
    else
      var rest := CountAtLeast(xs[1..], value);
      assert forall i :: 1 <= i < |xs| ==> xs[i] == xs[1..][i - 1];
      (if xs[0] >= value then 1 else 0) + rest
  }

  /** The entries equal to v are the entries at least v minus those at least
      v + 1: count_eq and count_geq agree. */
  lemma {:induction false} CountEqIsDifference(xs: seq<int>, v: int)
    ensures Occurrences(xs, v) == CountAtLeast(xs, v) - CountAtLeast(xs, v + 1)
  {
    if |xs| > 0 {
      CountEqIsDifference(xs[1..], v);
    }
  }

  /** count_geq counts fewer entries for a larger threshold. */
  lemma {:induction false} CountAtLeastAntitone(xs: seq<int>, v: int, w: int)
    requires v <= w
    ensures CountAtLeast(xs, w) <= CountAtLeast(xs, v)
  {
    if |xs| > 0 {
      CountAtLeastAntitone(xs[1..], v, w);
    }
  }

  /** The collective context a strategy may consult: the own rank and, for
      the strategies that build an Offsets table, the values the other ranks
      contribute to it (one per rank; the own entry is replaced). */
  datatype Env = Env(myProcNo: nat, peers: seq<int>)
  {
    predicate Valid() { myProcNo < |peers| }
  }

  /** The strategies of OffsetStrategies.H. */
  datatype OffsetStrategy =
    | CountGeq(value: int)
    | CountEq(value: int)
    | OffsetByMaxPlusOne
    | OffsetBySizeMinusOne
    | StartFromMyProcNo
    | CountTwo
    | StartFromFront
    | CountFromFront
    | CountFromSize
    | CountFromFrontPlusOne
    | StartFromMax
    | CountFromMax

  /** A strategy dereferences front(), back() or the maximum element only on
      non-empty data, and the Offsets-building ones need the rank table. */
  predicate Applicable(s: OffsetStrategy, data: seq<int>, env: Env)
  {
    match s
    case CountGeq(_) => true
    case CountEq(_) => true
    case OffsetBySizeMinusOne => true
    case StartFromMyProcNo => true
    case CountTwo => true
    case CountFromSize => true
    case StartFromMax => |data| > 0 && env.Valid()
    case CountFromMax => |data| > 0 && env.Valid()
    case _ => |data| > 0
  }

  /** The Offsets(max + 1) table of start_from_max and count_from_max. */
  function MaxTable(data: seq<int>, env: Env): (r: seq<(int, int)>)
    requires |data| > 0 && env.Valid()
    ensures Chained(r, |env.peers|, env.myProcNo)
  {
    var values := MaxValues(data, env);
    SetTableChained(values, false, env.myProcNo);
    SetTable(values, false)
  }

  /** The label a strategy computes from the parent's data. */
  function Apply(s: OffsetStrategy, data: seq<int>, env: Env): (r: int)
    requires Applicable(s, data, env)
    ensures s.CountGeq? ==> r == CountAtLeast(data, s.value)
    ensures s.CountEq? ==> r == Occurrences(data, s.value)
    ensures s == OffsetByMaxPlusOne ==>
              (forall i :: 0 <= i < |data| ==> data[i] < r) && r - 1 in data
    ensures s == OffsetBySizeMinusOne ==> r + 1 == |data|
    ensures s == StartFromMyProcNo ==> r == env.myProcNo
    ensures s == CountTwo ==> r == 2
    ensures s == StartFromFront ==> r == data[0]
    ensures s == CountFromFront ==> data[0] + r == data[|data| - 1]
    ensures s == CountFromSize ==> r == |data|
    ensures s == CountFromFrontPlusOne ==> data[0] + r == data[|data| - 1] + 1
    ensures s == StartFromMax ==> r == MaxTable(data, env)[env.myProcNo].0
    ensures s == CountFromMax ==>
              MaxTable(data, env)[env.myProcNo].0 + r == MaxTable(data, env)[env.myProcNo].1
  {
    match s
    case CountGeq(v) => CountAtLeast(data, v)
    case CountEq(v) => Occurrences(data, v)
    case OffsetByMaxPlusOne => MaxOf(data) + 1
    case OffsetBySizeMinusOne => |data| - 1
    case StartFromMyProcNo => env.myProcNo
    case CountTwo => 2
    case StartFromFront => data[0]
    case CountFromFront => data[|data| - 1] - data[0]
    case CountFromSize => |data|
    case CountFromFrontPlusOne => data[|data| - 1] - data[0] + 1
    case StartFromMax => MaxTable(data, env)[env.myProcNo].0
    case CountFromMax =>
      var t := MaxTable(data, env);
      t[env.myProcNo].1 - t[env.myProcNo].0
  }

  /** The per-rank values of the Offsets(max + 1) table. */
  function MaxValues(data: seq<int>, env: Env): (r: seq<int>)
    requires |data| > 0 && env.Valid()
    ensures |r| == |env.peers| && r[env.myProcNo] == MaxOf(data) + 1
  {
    env.peers[env.myProcNo := MaxOf(data) + 1]
  }

  /** start_from_max: the own partition starts at the largest `max + 1`
      among the ranks below; rank 0 starts at 0. */
  lemma StartFromMaxIsLargestBelow(data: seq<int>, env: Env)
    requires |data| > 0 && env.Valid()
    ensures env.myProcNo == 0 ==> Apply(StartFromMax, data, env) == 0
    ensures forall k :: 0 <= k < env.myProcNo ==>
              MaxValues(data, env)[k] <= Apply(StartFromMax, data, env)
    ensures env.myProcNo > 0 ==>
              exists k :: 0 <= k < env.myProcNo && MaxValues(data, env)[k] == Apply(StartFromMax, data, env)
  {
    var values := MaxValues(data, env);
    if env.myProcNo > 0 {
      UnreducedUpperIsLargestValue(values, env.myProcNo - 1);
    }
  }

  /** count_from_max: the own count is never negative on ranks above 0, and
      on rank 0 it is the own maximum plus one. */
  lemma CountFromMaxBounds(data: seq<int>, env: Env)
    requires |data| > 0 && env.Valid()
    ensures env.myProcNo > 0 ==> Apply(CountFromMax, data, env) >= 0
    ensures env.myProcNo == 0 ==> Apply(CountFromMax, data, env) == MaxOf(data) + 1
  {
    var values := MaxValues(data, env);
    if env.myProcNo == 0 {
      assert RunningMax(GlobalIndexOffsets(values, false)[1..], 0) == values[0];
    }
  }
}
