// File names as the stream layer handles them: fileName::operator/ joins
// two names with a '/' unless one of them is empty, and
// fileName::components splits a name at every '/' and drops the empty
// pieces that doubled, leading and trailing slashes leave.
module FileNames {
  const Sep: char := '/'

  /** operator/(a, b): a + '/' + b, or the non-empty one of the two. */
  function Slash(a: string, b: string): (r: string)
    ensures a == [] ==> r == b
    ensures b == [] ==> r == a
    ensures a != [] && b != [] ==> r == a + [Sep] + b
  {
    if a == [] then b else if b == [] then a else a + [Sep] + b
  }

  /** A path component: non-empty and without a separator. */
  predicate IsComponent(w: string)
  {
    w != [] && Sep !in w
  }

  /** The names joined by single separators, as repeated operator/ builds
      them from non-empty names. */
  function JoinSlash(ws: seq<string>): string
  {
    if |ws| == 0 then [] else if |ws| == 1 then ws[0] else ws[0] + [Sep] + JoinSlash(ws[1..])
  }

  /** The characters of s before its first separator. */
  function FirstComponent(s: string): (r: string)
    ensures |r| <= |s| && (forall i :: 0 <= i < |r| ==> r[i] == s[i]) && Sep !in r
    ensures |r| < |s| ==> s[|r|] == Sep
  {
    if s == [] || s[0] == Sep then [] else [s[0]] + FirstComponent(s[1..])
  }

  /** components(): the non-empty pieces between separators, in order. */
  function Components(s: string): (r: seq<string>)
    decreases |s|
  {
    if s == [] then []
    else if s[0] == Sep then Components(s[1..])
    else
      var w := FirstComponent(s);
      [w] + Components(s[|w|..])
  }

  /** Every piece components() returns is a component. */
  lemma {:induction false} ComponentsAreComponents(s: string)
    ensures forall i :: 0 <= i < |Components(s)| ==> IsComponent(Components(s)[i])
    decreases |s|
  {
    if s == [] {
    } else if s[0] == Sep {
      ComponentsAreComponents(s[1..]);
    } else {
      var w := FirstComponent(s);
      ComponentsAreComponents(s[|w|..]);
    }
  }

  lemma {:induction false} FirstComponentBeforeSep(a: string, b: string)
    ensures FirstComponent(a + [Sep] + b) == FirstComponent(a)
  {
    if a != [] && a[0] != Sep {
      assert (a + [Sep] + b)[1..] == a[1..] + [Sep] + b;
      FirstComponentBeforeSep(a[1..], b);
    }
  }

  /** A separator splits the components: those of a, then those of b. */
  lemma {:induction false} ComponentsAroundSep(a: string, b: string)
    ensures Components(a + [Sep] + b) == Components(a) + Components(b)
    decreases |a|
  {
    var s := a + [Sep] + b;
    if a == [] {
      assert s[1..] == b;
    } else if a[0] == Sep {
      assert s[0] == Sep && s[1..] == a[1..] + [Sep] + b;
      ComponentsAroundSep(a[1..], b);
    } else {
      FirstComponentBeforeSep(a, b);
      var w := FirstComponent(a);
      assert s[0] == a[0] && s[|w|..] == a[|w|..] + [Sep] + b;
      ComponentsAroundSep(a[|w|..], b);
      assert Components(s) == [w] + Components(s[|w|..]);
    }
  }

  /** operator/ appends the components of b to those of a. */
  lemma ComponentsOfSlash(a: string, b: string)
    ensures Components(Slash(a, b)) == Components(a) + Components(b)
  {
    if a != [] && b != [] {
      ComponentsAroundSep(a, b);
    } else if a == [] {
      assert Components(a) == [];
    } else {
      assert Components(b) == [];
    }
  }

  lemma {:induction false} ComponentOfComponent(w: string)
    requires IsComponent(w)
    ensures Components(w) == [w]
  {
    assert FirstComponent(w) == w by {
      FirstComponentOfComponent(w);
    }
    assert w[|w|..] == [];
  }

  lemma {:induction false} FirstComponentOfComponent(w: string)
    requires Sep !in w
    ensures FirstComponent(w) == w
  {
    if w != [] {
      assert w == [w[0]] + w[1..];
      FirstComponentOfComponent(w[1..]);
    }
  }

  /** Joining components and splitting again gives them back. */
  lemma {:induction false} ComponentsOfJoin(ws: seq<string>)
    requires forall i :: 0 <= i < |ws| ==> IsComponent(ws[i])
    ensures Components(JoinSlash(ws)) == ws
  {
    if |ws| == 1 {
      ComponentOfComponent(ws[0]);
    } else if |ws| > 1 {
      ComponentsAroundSep(ws[0], JoinSlash(ws[1..]));
      ComponentOfComponent(ws[0]);
      ComponentsOfJoin(ws[1..]);
    }
  }

  /** Appending one more name with operator/ extends the join. */
  lemma {:induction false} SlashExtendsJoin(ws: seq<string>, w: string)
    requires forall i :: 0 <= i < |ws| ==> ws[i] != []
    requires w != []
    ensures Slash(JoinSlash(ws), w) == JoinSlash(ws + [w])
  {
    if |ws| == 1 {
      assert (ws + [w])[1..] == [w];
    } else if |ws| > 1 {
      assert (ws + [w])[1..] == ws[1..] + [w];
      SlashExtendsJoin(ws[1..], w);
    }
  }

  /** A join of non-empty names is empty only when there are none. */
  lemma JoinEmpty(ws: seq<string>)
    requires forall i :: 0 <= i < |ws| ==> ws[i] != []
    ensures JoinSlash(ws) == [] <==> ws == []
  {
  }

  /** sub occurs in s at position i. */
  predicate OccursAt(s: string, sub: string, i: int)
  {
    0 <= i <= |s| - |sub| && s[i..i + |sub|] == sub
  }

  /** Whether sub occurs in s (std::string::find does not return npos). */
  ghost predicate Contains(s: string, sub: string)
  {
    exists i :: OccursAt(s, sub, i)
  }

  /** The first position at which sub occurs in s, scanning left to right. */
  function Find(s: string, sub: string, from: nat): (r: int)
    requires from <= |s|
    ensures r == -1 || (from <= r && OccursAt(s, sub, r))
    decreases |s| - from
  {
    if |s| - from < |sub| then -1
    else if s[from..from + |sub|] == sub then from
    else Find(s, sub, from + 1)
  }

  /** find() fails exactly when sub does not occur from `from` on. */
  lemma {:induction false} FindFailsIffAbsent(s: string, sub: string, from: nat)
    requires from <= |s|
    ensures Find(s, sub, from) == -1 <==> forall i :: from <= i ==> !OccursAt(s, sub, i)
    decreases |s| - from
  {
    if |s| - from >= |sub| && s[from..from + |sub|] != sub {
      FindFailsIffAbsent(s, sub, from + 1);
      assert !OccursAt(s, sub, from);
    }
  }

  lemma FindFromStart(s: string, sub: string)
    ensures Find(s, sub, 0) != -1 <==> Contains(s, sub)
  {
    FindFailsIffAbsent(s, sub, 0);
  }
}
