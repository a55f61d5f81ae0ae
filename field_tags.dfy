// Uniformity of field data (A2streams/fieldTag.C, SliceStreams/UListProxy.C,
// SliceStreams/fieldDataEntry.C and fieldDataEntry.H): a list is EMPTY,
// UNIFORM or NONUNIFORM; a tag pairs that state with the list's first
// element, and tags of all ranks are reduced entry by entry before a field
// is written.
module FieldTags {
  import opened Wrappers

  /** uListProxyBase::uniformity. */
  datatype Uniformity = EMPTY | UNIFORM | NONUNIFORM

  /** The uniformity a list has: EMPTY without elements, UNIFORM when every
      element equals the first, NONUNIFORM otherwise. */
  function UniformityOf<T(==)>(xs: seq<T>): Uniformity
  {
    if |xs| == 0 then EMPTY
    else if forall i :: 0 <= i < |xs| ==> xs[i] == xs[0] then UNIFORM
    else NONUNIFORM
  }

  /** determineUniformity: compare every element after the first with the
      first and stop at the first difference. */
  method DetermineUniformity<T(==)>(xs: seq<T>) returns (u: Uniformity)
    ensures u == UniformityOf(xs)
    ensures u == EMPTY <==> |xs| == 0
  {
    var nElems := |xs|;
    if nElems > 0 {
      u := UNIFORM;
      var i := 1;
      while i < nElems
        invariant 1 <= i <= nElems
        invariant u == UNIFORM && forall k :: 0 <= k < i ==> xs[k] == xs[0]
      {
        if xs[i] != xs[0] {
          u := NONUNIFORM;
          break;
        }
        i := i + 1;
      }
    } else {
      u := EMPTY;
    }
  }

  /** A field tag: the uniformity state and the first element's scalar
      components. */
  datatype FieldTag = FieldTag(uniformity: Uniformity, firstElement: seq<real>)

  /** operator==: both the state and the first element agree. */
  predicate TagEqual(a: FieldTag, b: FieldTag)
  {
    a.uniformity == b.uniformity && a.firstElement == b.firstElement
  }

  /** uniformityCompareOp for one entry. */
  function CompareTag(x: FieldTag, y: FieldTag): (r: FieldTag)
    ensures x.uniformity == NONUNIFORM || y.uniformity == NONUNIFORM ==> r.uniformity == NONUNIFORM
    ensures x.uniformity == EMPTY && y.uniformity != NONUNIFORM ==> r == y
    ensures x.uniformity == UNIFORM && y.uniformity == EMPTY ==> r == x
    ensures x.uniformity == UNIFORM && y.uniformity == UNIFORM ==>
              r.firstElement == x.firstElement
              && (r.uniformity == NONUNIFORM <==> x.firstElement != y.firstElement)
  {
    if x.uniformity == NONUNIFORM || y.uniformity == NONUNIFORM then x.(uniformity := NONUNIFORM)
    else if x.uniformity == EMPTY then y
    else if y.uniformity == UNIFORM && x.firstElement != y.firstElement then x.(uniformity := NONUNIFORM)
    else x
  }

  /** uniformityCompareOp: the entry-wise reduction of two ranks' tag
      lists; the result has x's length. */
  function UniformityCompareOp(x: seq<FieldTag>, y: seq<FieldTag>): (r: seq<FieldTag>)
    requires |x| <= |y|
    ensures |r| == |x|
    ensures forall i :: 0 <= i < |x| ==> r[i] == CompareTag(x[i], y[i])
  {
    seq(|x|, i requires 0 <= i < |x| => CompareTag(x[i], y[i]))
  }

  /** What a tag means for the reduction: the first element only matters
      for a UNIFORM tag. */
  datatype Meaning = Empty | Uniform(value: seq<real>) | NonUniform

  function MeaningOf(t: FieldTag): Meaning
  {
    match t.uniformity
    case EMPTY => Empty
    case UNIFORM => Uniform(t.firstElement)
    case NONUNIFORM => NonUniform
  }

  /** The reduction is commutative on what the tags mean. */
  lemma CompareTagCommutes(x: FieldTag, y: FieldTag)
    ensures MeaningOf(CompareTag(x, y)) == MeaningOf(CompareTag(y, x))
  {
  }

  /** The reduction is associative on what the tags mean, so the order in
      which ranks are combined does not matter. */
  lemma CompareTagAssociates(x: FieldTag, y: FieldTag, z: FieldTag)
    ensures MeaningOf(CompareTag(CompareTag(x, y), z)) == MeaningOf(CompareTag(x, CompareTag(y, z)))
  {
  }

  /** A list's tag is the reduction of the tags of its two halves: reducing
      over ranks gives the uniformity of the concatenated data. */
  lemma {:induction false} CompareTagOfConcatenation(xs: seq<seq<real>>, ys: seq<seq<real>>)
    ensures MeaningOf(CompareTag(TagOf(xs), TagOf(ys))) == MeaningOf(TagOf(xs + ys))
  {
    var zs := xs + ys;
    if |xs| > 0 && |ys| > 0 {
      if UniformityOf(xs) == UNIFORM && UniformityOf(ys) == UNIFORM && xs[0] == ys[0] {
        forall i | 0 <= i < |zs|
          ensures zs[i] == zs[0]
        {
          if i >= |xs| { assert zs[i] == ys[i - |xs|]; }
        }
      } else if UniformityOf(xs) == NONUNIFORM {
        var k :| 0 <= k < |xs| && xs[k] != xs[0];
        assert zs[k] != zs[0];
      } else if UniformityOf(ys) == NONUNIFORM {
        var k :| 0 <= k < |ys| && ys[k] != ys[0];
        assert zs[|xs| + k] == ys[k];
        assert ys[0] == zs[|xs|];
        if zs[|xs| + k] == zs[0] {
          assert zs[|xs|] != zs[0];
        }
      } else {
        assert zs[|xs|] == ys[0];
      }
    } else if |xs| == 0 {
      assert zs == ys;
    } else {
      assert zs == xs;
    }
  }

  // ----- fieldDataEntry ----------------------------------------------------------

  /** getFirstElement: the first nComponents scalars of the list, or the
      empty list for a missing or empty list. Elements are held as their
      scalar components. */
  function FirstElement(list: Option<seq<seq<real>>>): (r: seq<real>)
    ensures list.None? || list.value == [] ==> r == []
    ensures list.Some? && list.value != [] ==> r == list.value[0]
  {
    if list.Some? && |list.value| > 0 then list.value[0] else []
  }

  /** The tag of a list. */
  function TagOf(xs: seq<seq<real>>): (r: FieldTag)
    ensures r.uniformity == EMPTY <==> xs == []
    ensures r.uniformity == UNIFORM ==> forall i :: 0 <= i < |xs| ==> xs[i] == r.firstElement
  {
    FieldTag(UniformityOf(xs), FirstElement(Some(xs)))
  }

  /** A field entry of a dictionary whose data is written to storage. */
  class FieldDataEntry {
    const keyword: string
    /** name_: the entry name (dictionary scope separated by "::"). */
    var name: string
    const compoundTokenName: string
    const list: seq<seq<real>>
    /** nGlobalElems_: the element count summed over all ranks. */
    var nGlobalElems: int
    var tag: FieldTag

    /** A new entry counts no global elements and tags its list. */
    constructor(keyword: string, compoundTokenName: string, list: seq<seq<real>>)
      ensures this.keyword == keyword && this.compoundTokenName == compoundTokenName
      ensures this.list == list && name == "" && nGlobalElems == 0
      ensures tag == TagOf(list)
    {
      this.keyword := keyword;
      name := "";
      this.compoundTokenName := compoundTokenName;
      this.list := list;
      nGlobalElems := 0;
      var u := DetermineUniformity(list);
      tag := FieldTag(u, FirstElement(Some(list)));
    }

    /** uniform(): only a UNIFORM tag; EMPTY data is not uniform. */
    function Uniform(): (r: bool)
      reads this
      ensures r <==> tag.uniformity == UNIFORM
      ensures list == [] && tag == TagOf(list) ==> !r
    {
      tag.uniformity == UNIFORM
    }

    /** id(): the entry name with "::" replaced by "/". */
    function Id(): (r: string)
      reads this
      ensures NoDoubleColon(r)
      ensures NoDoubleColon(name) ==> r == name
    {
      ReplaceScope(name)
    }

    /** The tokens write(os) emits. */
    function WriteTokens(): (r: seq<Token>)
      reads this
      ensures |r| >= 3 && r[0] == Keyword(BaseName(ReplaceScope(name)))
      ensures tag.uniformity == UNIFORM <==> r[1] == Word("uniform")
      ensures tag.uniformity == UNIFORM ==> r == [r[0], Word("uniform"), Scalars(tag.firstElement), EndStatement]
      ensures tag.uniformity != UNIFORM ==>
                r == [r[0], Word("nonuniform"), Word(compoundTokenName), Label(nGlobalElems),
                      Word(ReplaceScope(name)), EndStatement]
    {
      var fn := ReplaceScope(name);
      if tag.uniformity == UNIFORM then
        [Keyword(BaseName(fn)), Word("uniform"), Scalars(tag.firstElement), EndStatement]
      else
        [Keyword(BaseName(fn)), Word("nonuniform"), Word(compoundTokenName), Label(nGlobalElems),
         Word(fn), EndStatement]
    }

    /** stream() and dict() on a field entry are fatal errors. */
    function Stream(): (r: Option<seq<Token>>)
      ensures r.None?
    {
      None
    }
  }

  /** What write(os) emits, as tokens. */
  datatype Token = Keyword(word: string) | Word(w: string) | Label(n: int) | Scalars(values: seq<real>) | EndStatement

  /** No two consecutive ':' characters. */
  predicate NoDoubleColon(s: string)
  {
    forall i :: 0 <= i < |s| - 1 ==> !(s[i] == ':' && s[i + 1] == ':')
  }

  /** fileName::replaceAll("::", "/"), scanning left to right. */
  function ReplaceScope(s: string): (r: string)
    ensures NoDoubleColon(s) ==> r == s
    ensures NoDoubleColon(r)
    ensures |r| > 0 && r[0] == ':' ==> |s| > 0 && s[0] == ':' && (|s| == 1 || s[1] != ':')
    decreases |s|
  {
    if |s| >= 2 && s[0] == ':' && s[1] == ':' then "/" + ReplaceScope(s[2..])
    else if |s| == 0 then ""
    else
      assert NoDoubleColon(s) ==> NoDoubleColon(s[1..]);
      [s[0]] + ReplaceScope(s[1..])
  }

  /** fileName::name(): the part after the last '/'. */
  function BaseName(s: string): (r: string)
    ensures '/' !in r
    ensures '/' !in s ==> r == s
    ensures |r| <= |s| && r == s[|s| - |r|..]
  {
    if |s| == 0 then ""
    else if s[|s| - 1] == '/' then ""
    else BaseName(s[..|s| - 1]) + [s[|s| - 1]]
  }
}
