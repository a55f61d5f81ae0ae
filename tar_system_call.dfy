// tarSystemCall::myfileNameComponents (tarmodules/tarSystemCall): split a
// path into the instance, local and name parts of an IOobject. The part
// before the first '/' is the instance, the part after the last '/' is the
// name, and whatever lies between the two is the local part; the call
// fails when the name is empty or is not a valid word.
module TarSystemCall {
  import opened FileNames

  datatype Parts = Parts(ok: bool, instance: string, local: string, name: string)

  /** The position of the first separator, or -1 (find('/')). */
  function FirstSep(s: string): (r: int)
    ensures -1 <= r < |s|
    ensures r == -1 <==> Sep !in s
    ensures r >= 0 ==> s[r] == Sep
  {
    if s == [] then -1
    else if s[0] == Sep then 0
    else
      var r := FirstSep(s[1..]);
      if r == -1 then -1 else r + 1
  }

  /** No separator comes before the one FirstSep finds. */
  lemma {:induction false} FirstSepIsFirst(s: string)
    ensures forall i :: 0 <= i < FirstSep(s) ==> s[i] != Sep
  {
    if s != [] && s[0] != Sep {
      FirstSepIsFirst(s[1..]);
    }
  }

  /** The position of the last separator, or -1 (rfind('/')). */
  function LastSep(s: string): (r: int)
    ensures -1 <= r < |s|
    ensures r == -1 <==> Sep !in s
    ensures r >= 0 ==> s[r] == Sep && Sep !in s[r + 1..]
  {
    if s == [] then -1
    else if s[|s| - 1] == Sep then |s| - 1
    else
      var r := LastSep(s[..|s| - 1]);
      LastSepStep(s, r);
      r
  }

  /** A last character that is not a separator changes nothing about the
      last separator of the rest. */
  lemma LastSepStep(s: string, r: int)
    requires |s| > 0 && s[|s| - 1] != Sep && -1 <= r < |s| - 1
    requires r == -1 <==> Sep !in s[..|s| - 1]
    requires r >= 0 ==> Sep !in s[..|s| - 1][r + 1..]
    ensures r == -1 <==> Sep !in s
    ensures r >= 0 ==> Sep !in s[r + 1..]
  {
    assert s == s[..|s| - 1] + [s[|s| - 1]];
    if r >= 0 {
      assert s[r + 1..] == s[..|s| - 1][r + 1..] + [s[|s| - 1]];
    }
  }

  /** string::stripInvalid<word>: the name without its invalid
      characters. */
  function Stripped(s: string, valid: char -> bool): (r: string)
    ensures |r| <= |s|
    ensures AllValid(s, valid) ==> r == s
  {
    if s == [] then [] else (if valid(s[0]) then [s[0]] else []) + Stripped(s[1..], valid)
  }

  /** The check the name has to pass: non-empty and nothing stripped. */
  predicate ValidName(name: string, valid: char -> bool)
  {
    name != [] && AllValid(name, valid)
  }

  /** Every character is valid in a word. */
  predicate AllValid(s: string, valid: char -> bool)
  {
    s == [] || (valid(s[0]) && AllValid(s[1..], valid))
  }

  function Result(instance: string, local: string, name: string, valid: char -> bool): (r: Parts)
    ensures r.ok ==> r.name == name
    ensures r.instance == instance && r.local == local
  {
    Parts(ValidName(name, valid), instance, local, if name == [] then [] else Stripped(name, valid))
  }

  /** myfileNameComponents as written: a path that starts with '/' is split
      like a relative one, so its instance is empty. */
  function FileNameComponentsAsWritten(path: string, valid: char -> bool): (r: Parts)
    ensures r.ok ==> ValidName(r.name, valid)
  {
    var first := FirstSep(path);
    if first == -1 then Result([], [], path, valid)
    else
      var last := LastSep(path);
      Result(path[..first], if last > first then path[first + 1..last] else [], path[last + 1..], valid)
  }

  /** The case its own behaviour table documents as ("/XXX", "", "bar")
      comes out as ("", "XXX", "bar"): the root of an absolute path is
      lost. */
  lemma AbsolutePathLosesRoot(valid: char -> bool)
    requires forall c :: valid(c)
    ensures FileNameComponentsAsWritten("/XXX/bar", valid) == Parts(true, "", "XXX", "bar")
  {
    assert FirstSep("/XXX/bar") == 0;
    assert LastSep("/XXX/bar") == 4;
  }

  /** The text after the last separator: the name before it is checked. */
  function RawName(path: string): (r: string)
    ensures Sep !in r
    ensures Sep !in path ==> r == path
    ensures |r| <= |path| && r == path[|path| - |r|..]
  {
    path[LastSep(path) + 1..]
  }

  /** A word is valid exactly when each of its characters is. */
  lemma {:induction false} AllValidIff(s: string, valid: char -> bool)
    ensures AllValid(s, valid) <==> forall i :: 0 <= i < |s| ==> valid(s[i])
  {
    if s != [] {
      AllValidIff(s[1..], valid);
      assert forall i :: 0 < i < |s| ==> s[i] == s[1..][i - 1];
    }
  }

  /** As written, every path with a separator is split at its first and its
      last separator: the instance is the text before the first, the local
      part the text between the two (empty when they coincide). */
  lemma SplitAsWritten(path: string, valid: char -> bool)
    requires Sep in path
    ensures var r := FileNameComponentsAsWritten(path, valid);
            r.instance == path[..FirstSep(path)] && Sep !in r.instance
            && r.local == (if LastSep(path) > FirstSep(path) then path[FirstSep(path) + 1..LastSep(path)] else [])
  {
    FirstSepIsFirst(path);
  }

  /** As written, a path without a separator is all name: the path itself
      when the call succeeds, the path stripped of its invalid characters
      when it fails. */
  lemma NoSeparatorAsWritten(path: string, valid: char -> bool)
    requires Sep !in path
    ensures var r := FileNameComponentsAsWritten(path, valid);
            r.instance == [] && r.local == [] && (r.ok ==> r.name == path)
            && (!r.ok ==> r.name == (if path == [] then [] else Stripped(path, valid)))
  {
  }

  /** As written, the call succeeds exactly when the text after the last
      separator is a non-empty valid word, and that text is the name; on
      failure the name is that text stripped of its invalid characters. */
  lemma OkIffValidAsWritten(path: string, valid: char -> bool)
    ensures var r := FileNameComponentsAsWritten(path, valid);
            (r.ok <==> ValidName(RawName(path), valid)) && (r.ok ==> r.name == RawName(path))
            && (!r.ok ==> r.name == (if RawName(path) == [] then [] else Stripped(RawName(path), valid)))
  {
  }

  /** The instance, local and name pieces of a path before the name is
      checked, with absolute paths handled as the behaviour table of
      myfileNameComponents documents: the instance of a path that starts
      with '/' is everything before the last '/'. */
  function Pieces(path: string): (string, string, string)
  {
    var first := FirstSep(path);
    if first == -1 then ([], [], path)
    else
      var last := LastSep(path);
      if first == 0 then (path[..last], [], path[last + 1..])
      else (path[..first], if last > first then path[first + 1..last] else [], path[last + 1..])
  }

  /** myfileNameComponents with absolute paths handled as documented. */
  function FileNameComponents(path: string, valid: char -> bool): (r: Parts)
    ensures r.ok ==> ValidName(r.name, valid)
    ensures r.ok ==> Sep !in r.name
  {
    var (instance, local, name) := Pieces(path);
    Result(instance, local, name, valid)
  }

  /** The documented case ("/XXX", "", "bar") of an absolute path. */
  lemma AbsolutePathAsDocumented(valid: char -> bool)
    requires forall c :: valid(c)
    ensures FileNameComponents("/XXX/bar", valid) == Parts(true, "/XXX", "", "bar")
  {
    assert FirstSep("/XXX/bar") == 0;
    assert LastSep("/XXX/bar") == 4;
  }

  /** A relative path with a separator is split at its first and its last
      separator, as written. */
  lemma RelativeSplit(path: string, valid: char -> bool)
    requires FirstSep(path) > 0
    ensures var r := FileNameComponents(path, valid);
            r.instance == path[..FirstSep(path)] && Sep !in r.instance
            && r.local == (if LastSep(path) > FirstSep(path) then path[FirstSep(path) + 1..LastSep(path)] else [])
  {
    FirstSepIsFirst(path);
  }

  /** An absolute path keeps everything before its last separator as the
      instance and has no local part. */
  lemma AbsoluteSplit(path: string, valid: char -> bool)
    requires FirstSep(path) == 0
    ensures var r := FileNameComponents(path, valid);
            r.instance == path[..LastSep(path)] && r.local == []
  {
  }

  /** A path without a separator is all name: the path itself when the
      call succeeds, the path stripped of its invalid characters when it
      fails. */
  lemma NoSeparator(path: string, valid: char -> bool)
    requires Sep !in path
    ensures var r := FileNameComponents(path, valid);
            r.instance == [] && r.local == [] && (r.ok ==> r.name == path)
            && (!r.ok ==> r.name == (if path == [] then [] else Stripped(path, valid)))
  {
  }

  /** The call succeeds exactly when the text after the last separator is a
      non-empty valid word, and that text is the name; on failure the name
      is that text stripped of its invalid characters. */
  lemma OkIffValid(path: string, valid: char -> bool)
    ensures var r := FileNameComponents(path, valid);
            (r.ok <==> ValidName(RawName(path), valid)) && (r.ok ==> r.name == RawName(path))
            && (!r.ok ==> r.name == (if RawName(path) == [] then [] else Stripped(RawName(path), valid)))
  {
  }

  /** The three parts hold exactly the components of the path, in order:
      nothing is lost or duplicated. */
  lemma PartsKeepComponents(path: string, valid: char -> bool)
    requires FileNameComponents(path, valid).ok
    ensures var r := FileNameComponents(path, valid);
            Components(r.instance) + Components(r.local) + Components(r.name) == Components(path)
  {
    PiecesKeepComponents(path);
  }

  lemma PiecesKeepComponents(path: string)
    ensures Components(Pieces(path).0) + Components(Pieces(path).1) + Components(Pieces(path).2) == Components(path)
  {
    var first := FirstSep(path);
    if first == -1 {
      assert Pieces(path) == ([], [], path);
      NoComponents();
    } else if LastSep(path) > first > 0 {
      ThreePieces(path);
    } else {
      TwoPieces(path);
    }
  }

  lemma ThreePieces(path: string)
    requires LastSep(path) > FirstSep(path) > 0
    ensures Components(Pieces(path).0) + Components(Pieces(path).1) + Components(Pieces(path).2) == Components(path)
  {
    var first, last := FirstSep(path), LastSep(path);
    ThreePiecesShape(path);
    ThreePiecesAt(path, first, last, Pieces(path));
  }

  lemma ThreePiecesAt(path: string, first: int, last: int, p: (string, string, string))
    requires 0 <= first < last < |path| && path[first] == Sep && path[last] == Sep
    requires p == (path[..first], path[first + 1..last], path[last + 1..])
    ensures Components(p.0) + Components(p.1) + Components(p.2) == Components(path)
  {
    SplitTwice(path, first, last);
  }

  lemma ThreePiecesShape(path: string)
    requires LastSep(path) > FirstSep(path) > 0
    ensures Pieces(path) == (path[..FirstSep(path)], path[FirstSep(path) + 1..LastSep(path)], path[LastSep(path) + 1..])
  {
  }

  lemma TwoPieces(path: string)
    requires FirstSep(path) != -1 && !(LastSep(path) > FirstSep(path) > 0)
    ensures Components(Pieces(path).0) + Components(Pieces(path).1) + Components(Pieces(path).2) == Components(path)
  {
    var last := LastSep(path);
    TwoPiecesShape(path);
    TwoPiecesAt(path, last, Pieces(path));
  }

  lemma TwoPiecesAt(path: string, last: int, p: (string, string, string))
    requires 0 <= last < |path| && path[last] == Sep
    requires p == (path[..last], [], path[last + 1..])
    ensures Components(p.0) + Components(p.1) + Components(p.2) == Components(path)
  {
    NoComponents();
    SplitAtSep(path, last);
  }

  lemma TwoPiecesShape(path: string)
    requires FirstSep(path) != -1 && !(LastSep(path) > FirstSep(path) > 0)
    ensures Pieces(path) == (path[..LastSep(path)], [], path[LastSep(path) + 1..])
  {
    var first, last := FirstSep(path), LastSep(path);
    assert first == 0 || last == first;
  }

  lemma NoComponents()
    ensures Components([]) == []
  {
  }

  lemma SplitTwice(path: string, first: int, last: int)
    requires 0 <= first < last < |path| && path[first] == Sep && path[last] == Sep
    ensures Components(path) == Components(path[..first]) + Components(path[first + 1..last]) + Components(path[last + 1..])
  {
    SplitAtSep(path, last);
    SplitAtSep(path[..last], first);
    assert path[..last][..first] == path[..first];
    assert path[..last][first + 1..] == path[first + 1..last];
  }

  lemma SplitAtSep(path: string, k: int)
    requires 0 <= k < |path| && path[k] == Sep
    ensures Components(path) == Components(path[..k]) + Components(path[k + 1..])
  {
    assert path == path[..k] + [Sep] + path[k + 1..];
    ComponentsAroundSep(path[..k], path[k + 1..]);
  }

  /** An absolute path with a name below a directory keeps its root in the
      instance, and instance / name gives the path back. */
  lemma AbsolutePathKeepsRoot(path: string, valid: char -> bool)
    requires |path| > 0 && path[0] == Sep && LastSep(path) > 0
    ensures var r := FileNameComponents(path, valid);
            r.instance[0] == Sep && r.local == []
            && (r.ok ==> Slash(r.instance, r.name) == path)
  {
    assert FirstSep(path) == 0;
    var r := FileNameComponents(path, valid);
    var last := LastSep(path);
    if r.ok {
      assert r.name == path[last + 1..] != [];
      SlashAtSep(path, last);
    }
  }

  lemma SlashAtSep(path: string, k: int)
    requires 0 < k < |path| - 1 && path[k] == Sep
    ensures Slash(path[..k], path[k + 1..]) == path
  {
    assert path == path[..k] + [Sep] + path[k + 1..];
  }
}
