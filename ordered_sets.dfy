// A std::set<label> as the mesh code uses it: ids are inserted one by one,
// duplicates are ignored, and iteration visits them in strictly ascending
// order. Used wherever the mesh code collects ids into a set and then walks
// it (imported point ids, processor patch point ids, missing points).
module OrderedSets {

  predicate StrictlyAscending(xs: seq<int>)
  {
    forall i, j :: 0 <= i < j < |xs| ==> xs[i] < xs[j]
  }

  /** std::set::insert: adds v at its place unless it is already present. */
  function Insert(xs: seq<int>, v: int): (r: seq<int>)
    requires StrictlyAscending(xs)
    ensures StrictlyAscending(r)
    ensures forall x :: x in r <==> x in xs || x == v
    ensures v in xs ==> r == xs
  {
    if |xs| == 0 then [v]
    else if v < xs[0] then [v] + xs
    else if v == xs[0] then xs
    else
      var rest := Insert(xs[1..], v);
      InsertBehindHead(xs, v, rest);
      [xs[0]] + rest
  }

  /** The step of Insert past the head: the head stays in front of the
      insertion into the tail. */
  lemma InsertBehindHead(xs: seq<int>, v: int, rest: seq<int>)
    requires StrictlyAscending(xs) && |xs| > 0 && xs[0] < v
    requires StrictlyAscending(rest)
    requires forall x :: x in rest <==> x in xs[1..] || x == v
    requires v in xs[1..] ==> rest == xs[1..]
    ensures StrictlyAscending([xs[0]] + rest)
    ensures forall x :: x in [xs[0]] + rest <==> x in xs || x == v
    ensures v in xs ==> [xs[0]] + rest == xs
  {
    assert xs == [xs[0]] + xs[1..];
    forall j | 0 <= j < |rest|
      ensures xs[0] < rest[j]
    {
      assert rest[j] in rest;
      if rest[j] != v {
        var k :| 0 <= k < |xs[1..]| && xs[1..][k] == rest[j];
        assert xs[k + 1] == rest[j];
      }
    }
  }

  /** The std::set built by inserting every element of vs in turn. */
  function FromSeq(vs: seq<int>): (r: seq<int>)
    ensures StrictlyAscending(r)
    ensures forall x :: x in r <==> x in vs
  {
    if |vs| == 0 then []
    else Insert(FromSeq(vs[..|vs| - 1]), vs[|vs| - 1])
  }

  /** Two ascending sequences with the same elements are equal: the order of
      a std::set is determined by its contents. */
  lemma {:induction false} AscendingUnique(xs: seq<int>, ys: seq<int>)
    requires StrictlyAscending(xs) && StrictlyAscending(ys)
    requires forall x :: x in xs <==> x in ys
    ensures xs == ys
  {
    if |xs| > 0 && |ys| > 0 {
      assert xs[0] in xs && ys[0] in ys;
      assert xs[0] in ys && ys[0] in xs;
      assert xs[0] == ys[0];
      forall x
        ensures x in xs[1..] <==> x in ys[1..]
      {
        if x in xs[1..] {
          assert x != xs[0];
          assert x in ys;
        }
        if x in ys[1..] {
          assert x != ys[0];
          assert x in xs;
        }
      }
      AscendingUnique(xs[1..], ys[1..]);
      assert xs == [xs[0]] + xs[1..];
      assert ys == [ys[0]] + ys[1..];
    } else if |xs| > 0 {
      HeadIsMember(xs);
      assert false;
    } else if |ys| > 0 {
      HeadIsMember(ys);
      assert false;
    }
  }

  lemma HeadIsMember(xs: seq<int>)
    ensures |xs| > 0 ==> xs[0] in xs
  {
  }
}
