// createPointPermutation of the slice permutations
// (CoherentMesh/SlicePermutation.C, sliceMesh/slicePermutation.C): walking
// the faces in order, every point id met for the first time gets the next
// slice point id. Two vectors of nPoints entries record the numbering in both
// directions; entries never assigned stay -1.
module PointNumbering {
  import opened SliceHelpers

  predicate Distinct(xs: seq<int>)
  {
    forall i, j :: 0 <= i < j < |xs| ==> xs[i] != xs[j]
  }

  /** The distinct ids of pts in order of their first appearance. */
  function FirstAppearances(pts: seq<int>): (r: seq<int>)
    ensures forall x :: x in r <==> x in pts
    ensures Distinct(r)
    ensures |r| <= |pts|
  {
    if |pts| == 0 then []
    else
      var d := FirstAppearances(pts[..|pts| - 1]);
      var p := pts[|pts| - 1];
      assert forall x :: x in pts <==> x in pts[..|pts| - 1] || x == p by {
        assert pts == pts[..|pts| - 1] + [p];
      }
      if p in d then d else d + [p]
  }

  /** Position of the first occurrence of x. */
  function IndexOf(xs: seq<int>, x: int): (r: nat)
    requires x in xs
    ensures r < |xs| && xs[r] == x
    ensures forall k :: 0 <= k < r ==> xs[k] != x
  {
    if xs[0] == x then 0 else 1 + IndexOf(xs[1..], x)
  }

  lemma {:induction false} IndexOfAppend(xs: seq<int>, p: int, x: int)
    requires x in xs + [p]
    ensures x in xs ==> IndexOf(xs + [p], x) == IndexOf(xs, x)
    ensures x !in xs ==> IndexOf(xs + [p], x) == |xs|
  {
    var r := IndexOf(xs + [p], x);
    if x in xs {
      var i := IndexOf(xs, x);
      assert (xs + [p])[i] == x;
      assert r <= i;
      assert xs[r] == x;
    } else {
      assert forall k :: 0 <= k < |xs| ==> (xs + [p])[k] == xs[k] != x;
    }
  }

  /** The two vectors hold the numbering d: toSlice lists d and then -1s,
      toPoly gives each numbered id its position in d and -1 otherwise. */
  predicate Numbered(toPoly: seq<int>, toSlice: seq<int>, d: seq<int>, n: nat)
  {
    |toPoly| == n && |toSlice| == n && |d| <= n
    && (forall k :: 0 <= k < |d| ==> 0 <= d[k] < n && toSlice[k] == d[k])
    && (forall k :: |d| <= k < n ==> toSlice[k] == -1)
    && (forall p :: 0 <= p < n ==> toPoly[p] == if p in d then IndexOf(d, p) else -1)
  }

  /** One visit of point p. */
  lemma NumberedStep(toPoly: seq<int>, toSlice: seq<int>, d: seq<int>, n: nat, p: int)
    requires Numbered(toPoly, toSlice, d, n) && Distinct(d) && 0 <= p < n
    ensures toPoly[p] == -1 <==> p !in d
    ensures p !in d ==> |d| < n && Numbered(toPoly[p := |d|], toSlice[|d| := p], d + [p], n)
  {
    if p !in d {
      DistinctBounded(d + [p], n);
      var tp := toPoly[p := |d|];
      forall q | 0 <= q < n
        ensures tp[q] == if q in d + [p] then IndexOf(d + [p], q) else -1
      {
        if q in d + [p] {
          IndexOfAppend(d, p, q);
        }
      }
    }
  }

  lemma FirstAppearancesSnoc(pts: seq<int>, p: int)
    ensures FirstAppearances(pts + [p]) ==
              if p in FirstAppearances(pts) then FirstAppearances(pts) else FirstAppearances(pts) + [p]
  {
    assert (pts + [p])[..|pts|] == pts;
  }

  /** createPointPermutation(faces, nPoints): the numbering of the faces'
      point ids by first appearance. */
  method CreatePointPermutation(faces: seq<seq<int>>, nPoints: nat)
    returns (toPoly: seq<int>, toSlice: seq<int>)
    requires forall i, j :: 0 <= i < |faces| && 0 <= j < |faces[i]| ==> 0 <= faces[i][j] < nPoints
    ensures Numbered(toPoly, toSlice, FirstAppearances(Flatten(faces)), nPoints)
  {
    toPoly := seq(nPoints, _ => -1);
    toSlice := seq(nPoints, _ => -1);
    var slicePointId := 0;
    var i := 0;
    while i < |faces|
      invariant 0 <= i <= |faces|
      invariant Numbered(toPoly, toSlice, FirstAppearances(Flatten(faces[..i])), nPoints)
      invariant slicePointId == |FirstAppearances(Flatten(faces[..i]))|
    {
      assert faces[..i + 1][..i] == faces[..i];
      toPoly, toSlice, slicePointId :=
        NumberFace(toPoly, toSlice, slicePointId, Flatten(faces[..i]), faces[i], nPoints);
      i := i + 1;
    }
    assert faces[..|faces|] == faces;
  }

  /** The inner loop of createPointPermutation: the points of one face. */
  method NumberFace(toPoly0: seq<int>, toSlice0: seq<int>, next0: nat, ghost before: seq<int>,
                    face: seq<int>, nPoints: nat)
    returns (toPoly: seq<int>, toSlice: seq<int>, next: nat)
    requires Numbered(toPoly0, toSlice0, FirstAppearances(before), nPoints)
    requires next0 == |FirstAppearances(before)|
    requires forall j :: 0 <= j < |face| ==> 0 <= face[j] < nPoints
    ensures Numbered(toPoly, toSlice, FirstAppearances(before + face), nPoints)
    ensures next == |FirstAppearances(before + face)|
  {
    toPoly, toSlice, next := toPoly0, toSlice0, next0;
    var j := 0;
    ghost var pts := before;
    assert before + face[..0] == before;
    while j < |face|
      invariant 0 <= j <= |face|
      invariant pts == before + face[..j]
      invariant Numbered(toPoly, toSlice, FirstAppearances(pts), nPoints)
      invariant next == |FirstAppearances(pts)|
    {
      var polyPointId := face[j];
      VisitPoint(toPoly, toSlice, pts, nPoints, polyPointId);
      if toPoly[polyPointId] == -1 {
        toPoly := toPoly[polyPointId := next];
        toSlice := toSlice[next := polyPointId];
        next := next + 1;
      }
      SnocPrefix(before, face, j);
      pts := pts + [polyPointId];
      j := j + 1;
    }
    assert face[..|face|] == face;
  }

  /** Visiting point p after the points pts: a new point gets the next
      number, a known one changes nothing. */
  lemma VisitPoint(toPoly: seq<int>, toSlice: seq<int>, pts: seq<int>, n: nat, p: int)
    requires Numbered(toPoly, toSlice, FirstAppearances(pts), n) && 0 <= p < n
    ensures var d := FirstAppearances(pts);
      if toPoly[p] == -1 then
        |d| < n && Numbered(toPoly[p := |d|], toSlice[|d| := p], FirstAppearances(pts + [p]), n)
        && |FirstAppearances(pts + [p])| == |d| + 1
      else FirstAppearances(pts + [p]) == d
  {
    FirstAppearancesSnoc(pts, p);
    NumberedStep(toPoly, toSlice, FirstAppearances(pts), n, p);
  }

  lemma SnocPrefix(before: seq<int>, face: seq<int>, j: nat)
    requires j < |face|
    ensures before + face[..j + 1] == (before + face[..j]) + [face[j]]
  {
    assert face[..j + 1] == face[..j] + [face[j]];
  }

  lemma {:induction false} IndexOfDistinct(d: seq<int>, k: nat)
    requires Distinct(d) && k < |d|
    ensures IndexOf(d, d[k]) == k
  {
  }

  /** On numbered ids the two vectors are mutual inverses, and exactly the
      ids that occur in some face are numbered. */
  lemma NumberingIsInverse(toPoly: seq<int>, toSlice: seq<int>, faces: seq<seq<int>>, n: nat)
    requires Numbered(toPoly, toSlice, FirstAppearances(Flatten(faces)), n)
    ensures forall k :: 0 <= k < |FirstAppearances(Flatten(faces))| ==>
              0 <= toSlice[k] < n && toPoly[toSlice[k]] == k
    ensures forall p :: 0 <= p < n && toPoly[p] != -1 ==>
              0 <= toPoly[p] < n && toSlice[toPoly[p]] == p
    ensures forall p :: 0 <= p < n ==> (toPoly[p] == -1 <==> p !in Flatten(faces))
  {
    var d := FirstAppearances(Flatten(faces));
    forall k | 0 <= k < |d|
      ensures toPoly[toSlice[k]] == k
    {
      IndexOfDistinct(d, k);
    }
  }

  /** The toPoly vector of numbering d over n points. */
  function ToPoly(d: seq<int>, n: nat): (r: seq<int>)
    ensures |r| == n
    ensures forall p :: 0 <= p < n ==> r[p] == if p in d then IndexOf(d, p) else -1
  {
    seq(n, p => if p in d then IndexOf(d, p) else -1)
  }

  lemma NumberedIsToPoly(toPoly: seq<int>, toSlice: seq<int>, d: seq<int>, n: nat)
    requires Numbered(toPoly, toSlice, d, n)
    ensures toPoly == ToPoly(d, n)
  {
  }

  predicate Injective(labels: seq<int>)
  {
    forall a, b :: 0 <= a < |labels| && 0 <= b < |labels| && a != b ==> labels[a] != labels[b]
  }

  lemma RenumberSnoc(xs: seq<int>, p: int, labels: seq<int>)
    requires forall k :: 0 <= k < |xs| ==> 0 <= xs[k] < |labels|
    requires 0 <= p < |labels|
    ensures RenumberFace(xs + [p], labels) == RenumberFace(xs, labels) + [labels[p]]
  {
  }

  lemma MappedMembership(d: seq<int>, labels: seq<int>, p: int)
    requires forall k :: 0 <= k < |d| ==> 0 <= d[k] < |labels|
    requires Injective(labels) && 0 <= p < |labels|
    ensures labels[p] in RenumberFace(d, labels) <==> p in d
  {
    var md := RenumberFace(d, labels);
    if labels[p] in md {
      var k :| 0 <= k < |md| && md[k] == labels[p];
      assert labels[d[k]] == labels[p];
    }
    if p in d {
      var k :| 0 <= k < |d| && d[k] == p;
      assert md[k] == labels[p];
    }
  }

  /** Renumbering through an injective relabelling commutes with taking
      first appearances. */
  lemma {:induction false} FirstAppearancesRenumbered(pts: seq<int>, labels: seq<int>)
    requires forall k :: 0 <= k < |pts| ==> 0 <= pts[k] < |labels|
    requires Injective(labels)
    ensures forall k :: 0 <= k < |FirstAppearances(pts)| ==> 0 <= FirstAppearances(pts)[k] < |labels|
    ensures FirstAppearances(RenumberFace(pts, labels))
            == RenumberFace(FirstAppearances(pts), labels)
  {
    var d := FirstAppearances(pts);
    assert forall k :: 0 <= k < |d| ==> d[k] in pts;
    if |pts| > 0 {
      var init := pts[..|pts| - 1];
      var p := pts[|pts| - 1];
      assert pts == init + [p];
      FirstAppearancesRenumbered(init, labels);
      var d0 := FirstAppearances(init);
      RenumberSnoc(init, p, labels);
      FirstAppearancesSnoc(RenumberFace(init, labels), labels[p]);
      MappedMembership(d0, labels, p);
      if p !in d0 {
        RenumberSnoc(d0, p, labels);
      }
    }
  }

  /** ToPoly, with the unnumbered ids sent past the numbered ones so that
      the relabelling is injective. */
  function ExtendedToPoly(d: seq<int>, n: nat): (r: seq<int>)
    ensures |r| == n
    ensures forall p :: 0 <= p < n ==> r[p] == if p in d then IndexOf(d, p) else |d| + p
  {
    seq(n, p => if p in d then IndexOf(d, p) else |d| + p)
  }

  lemma ExtendedToPolyInjective(d: seq<int>, n: nat)
    ensures Injective(ExtendedToPoly(d, n))
  {
    var labels := ExtendedToPoly(d, n);
    forall a, b | 0 <= a < n && 0 <= b < n && a != b
      ensures labels[a] != labels[b]
    {
      if a in d && b in d {
        assert d[IndexOf(d, a)] == a;
      }
    }
  }

  /** The numbering relabels each numbered id by its position. */
  lemma NumberingOfAppearances(d: seq<int>, n: nat)
    requires Distinct(d) && forall k :: 0 <= k < |d| ==> 0 <= d[k] < n
    ensures RenumberFace(d, ToPoly(d, n)) == IndexIota(|d|, 0)
  {
    forall k | 0 <= k < |d|
      ensures ToPoly(d, n)[d[k]] == k
    {
      IndexOfDistinct(d, k);
    }
  }

  /** After renumbering with the first-appearance numbering, the faces use
      the point ids 0, 1, 2, ... in order of first appearance: the numbering
      is canonical. */
  lemma CanonicalNumbering(faces: seq<seq<int>>, n: nat)
    requires FacesWithin(faces, n)
    ensures var d := FirstAppearances(Flatten(faces));
      FacesWithin(faces, |ToPoly(d, n)|)
      && FirstAppearances(Flatten(RenumberedFaces(faces, ToPoly(d, n)))) == IndexIota(|d|, 0)
  {
    var pts := Flatten(faces);
    var d := FirstAppearances(pts);
    var tp := ToPoly(d, n);
    FlattenWithin(faces, n);
    FlattenRenumbered(faces, tp);
    // Only the numbered ids matter: relabel the others injectively too.
    var labels := ExtendedToPoly(d, n);
    ExtendedToPolyInjective(d, n);
    FirstAppearancesRenumbered(pts, labels);
    ExtensionAgrees(pts, d, n);
    ExtensionAgrees(d, d, n);
    NumberingOfAppearances(d, n);
  }

  /** On ids that are numbered the extended relabelling is the numbering. */
  lemma ExtensionAgrees(xs: seq<int>, d: seq<int>, n: nat)
    requires forall k :: 0 <= k < |xs| ==> 0 <= xs[k] < n && xs[k] in d
    ensures RenumberFace(xs, ExtendedToPoly(d, n)) == RenumberFace(xs, ToPoly(d, n))
  {
  }
}
