// The coherent output stream of A2streams/OFCstream.C. Instead of writing
// text it builds a dictionary: the text written between keywords becomes
// formatting entries ASCII_F0, ASCII_F1, ..., keywords followed by a value
// become primitive entries, blocks become sub-dictionaries and field data
// become field entries. When the field is written, the field entries are
// gathered depth first, their tags are reduced over all ranks, and every
// entry that is not uniform everywhere is written to storage as one
// coherent array.
module OFCstreams {
  import opened FileNames
  import opened FieldTags
  import opened OffsetTables
  import opened OSstreams
  import opened OFstreams
  import LabelNames

  const FormattingPrefix: string := "ASCII_F"

  /** The key of the n-th formatting entry: the prefix followed by the
      decimal text of n (std::to_string). */
  function FormattingKey(n: nat): string
  {
    FormattingPrefix + LabelNames.Digits(n)
  }

  /** Different counters give different formatting keys. */
  lemma FormattingKeysDistinct(m: nat, n: nat)
    requires m != n
    ensures FormattingKey(m) != FormattingKey(n)
  {
    if FormattingKey(m) == FormattingKey(n) {
      assert LabelNames.Digits(m) == FormattingKey(m)[|FormattingPrefix|..];
      assert LabelNames.Digits(n) == FormattingKey(n)[|FormattingPrefix|..];
      LabelNames.DigitsRoundTrip(m);
      LabelNames.DigitsRoundTrip(n);
    }
  }

  // ---------------------------------------------------------------------
  // Dictionaries.

  /** An entry of the dictionary being built. */
  datatype Entry =
    | Formatting(key: string, text: string)
    | Primitive(key: string, text: string)
    | Field(key: string, data: FieldDataEntry)
    | SubDict(key: string, entries: seq<Entry>)

  /** The position of the entry with key k, or -1. */
  function KeyIndex(es: seq<Entry>, k: string): (r: int)
    ensures -1 <= r < |es|
    ensures r >= 0 ==> es[r].key == k
    ensures r == -1 <==> forall i :: 0 <= i < |es| ==> es[i].key != k
  {
    if es == [] then -1
    else
      var r := KeyIndex(es[..|es| - 1], k);
      if r >= 0 then r else if es[|es| - 1].key == k then |es| - 1 else -1
  }

  /** dictionary::add: an entry whose key is new is appended; one whose key
      exists already is dropped. */
  function AddEntry(es: seq<Entry>, e: Entry): (r: seq<Entry>)
    ensures KeyIndex(es, e.key) == -1 ==> r == es + [e]
    ensures KeyIndex(es, e.key) != -1 ==> r == es
  {
    if KeyIndex(es, e.key) == -1 then es + [e] else es
  }

  /** The path of keys leads through sub-dictionaries. */
  predicate Resolves(es: seq<Entry>, path: seq<string>)
    decreases path
  {
    path == []
    || (var i := KeyIndex(es, path[0]);
        i >= 0 && es[i].SubDict? && Resolves(es[i].entries, path[1..]))
  }

  /** The sub-dictionary a path leads to. */
  function DictAt(es: seq<Entry>, path: seq<string>): seq<Entry>
    requires Resolves(es, path)
    decreases path
  {
    if path == [] then es else DictAt(es[KeyIndex(es, path[0])].entries, path[1..])
  }

  /** currentSubDictPtr_->add(e): add e to the sub-dictionary the path
      leads to. */
  function AddAt(es: seq<Entry>, path: seq<string>, e: Entry): seq<Entry>
    decreases path
  {
    if path == [] then AddEntry(es, e)
    else
      var i := KeyIndex(es, path[0]);
      if i >= 0 && es[i].SubDict? then es[i := SubDict(es[i].key, AddAt(es[i].entries, path[1..], e))]
      else es
  }

  /** Adding keeps every key, position and kind, so a path that led to a
      sub-dictionary still does. */
  lemma {:induction false} AddKeepsPaths(es: seq<Entry>, p: seq<string>, e: Entry, q: seq<string>)
    requires Resolves(es, q)
    ensures Resolves(AddAt(es, p, e), q)
    decreases q
  {
    var es' := AddAt(es, p, e);
    if q != [] {
      var i := KeyIndex(es, q[0]);
      assert |es| <= |es'| && forall j :: 0 <= j < |es| ==> es'[j].key == es[j].key by {
        KeysKept(es, p, e);
      }
      assert KeyIndex(es', q[0]) == i by {
        KeyIndexOfExtension(es, es', q[0]);
      }
      if p != [] && p[0] == q[0] {
        AddKeepsPaths(es[i].entries, p[1..], e, q[1..]);
      } else {
        assert es'[i] == es[i] by {
          if p != [] {
            assert KeyIndex(es, p[0]) != i;
          }
        }
      }
    }
  }

  lemma KeysKept(es: seq<Entry>, p: seq<string>, e: Entry)
    ensures var es' := AddAt(es, p, e);
            |es| <= |es'| && forall j :: 0 <= j < |es| ==> es'[j].key == es[j].key && es'[j].SubDict? == es[j].SubDict?
  {
  }

  /** A sequence that keeps the keys of a prefix finds a key of that prefix
      at the same position. */
  lemma {:induction false} KeyIndexOfExtension(es: seq<Entry>, es': seq<Entry>, k: string)
    requires |es| <= |es'| && forall j :: 0 <= j < |es| ==> es'[j].key == es[j].key
    requires KeyIndex(es, k) >= 0
    ensures KeyIndex(es', k) == KeyIndex(es, k)
    decreases |es'|
  {
    var i := KeyIndex(es, k);
    if |es'| > |es| {
      KeyIndexOfExtension(es, es'[..|es'| - 1], k);
    } else if i < |es| - 1 {
      KeyIndexOfExtension(es[..|es| - 1], es'[..|es'| - 1], k);
    }
  }

  /** Adding at a path adds to the sub-dictionary the path leads to. */
  lemma {:induction false} AddLandsAtPath(es: seq<Entry>, p: seq<string>, e: Entry)
    requires Resolves(es, p)
    ensures Resolves(AddAt(es, p, e), p)
    ensures DictAt(AddAt(es, p, e), p) == AddEntry(DictAt(es, p), e)
    decreases p
  {
    AddKeepsPaths(es, p, e, p);
    if p != [] {
      var i := KeyIndex(es, p[0]);
      var es' := AddAt(es, p, e);
      KeysKept(es, p, e);
      KeyIndexOfExtension(es, es', p[0]);
      AddLandsAtPath(es[i].entries, p[1..], e);
    }
  }

  /** A path to a sub-dictionary extended by the key of a sub-dictionary
      in it leads one level deeper. */
  lemma {:induction false} ResolvesDeeper(es: seq<Entry>, p: seq<string>, k: string)
    requires Resolves(es, p)
    requires KeyIndex(DictAt(es, p), k) >= 0 && DictAt(es, p)[KeyIndex(DictAt(es, p), k)].SubDict?
    ensures Resolves(es, p + [k])
    decreases p
  {
    if p == [] {
      assert ([] + [k])[1..] == [];
    } else {
      assert (p + [k])[0] == p[0] && (p + [k])[1..] == p[1..] + [k];
      ResolvesDeeper(es[KeyIndex(es, p[0])].entries, p[1..], k);
    }
  }

  /** A path to a sub-dictionary leads through its parent. */
  lemma {:induction false} ResolvesParent(es: seq<Entry>, p: seq<string>)
    requires p != [] && Resolves(es, p)
    ensures Resolves(es, p[..|p| - 1])
    decreases p
  {
    if |p| > 1 {
      assert p[..|p| - 1][0] == p[0] && p[..|p| - 1][1..] == p[1..][..|p| - 2];
      ResolvesParent(es[KeyIndex(es, p[0])].entries, p[1..]);
    }
  }

  // ---------------------------------------------------------------------
  // Gathering the field entries.

  /** gatherFieldDataEntries: the field entries of the dictionary, depth
      first in entry order. */
  function Gathered(es: seq<Entry>): seq<FieldDataEntry>
    decreases es
  {
    if es == [] then []
    else
      var last := es[|es| - 1];
      Gathered(es[..|es| - 1])
      + match last
        case Field(_, data) => [data]
        case SubDict(_, sub) => Gathered(sub)
        case _ => []
  }

  /** The field entry occurs somewhere in the dictionary tree. */
  ghost predicate FieldIn(es: seq<Entry>, f: FieldDataEntry)
    decreases es
  {
    exists i :: 0 <= i < |es| && ((es[i].Field? && es[i].data == f) || (es[i].SubDict? && FieldIn(es[i].entries, f)))
  }

  /** Gathering misses no field entry and invents none. */
  lemma {:induction false} GatheredAreTheFields(es: seq<Entry>, f: FieldDataEntry)
    ensures f in Gathered(es) <==> FieldIn(es, f)
    decreases es
  {
    if es != [] {
      var init := es[..|es| - 1];
      var last := es[|es| - 1];
      GatheredAreTheFields(init, f);
      if last.SubDict? {
        GatheredAreTheFields(last.entries, f);
      }
      if FieldIn(es, f) {
        var i :| 0 <= i < |es| && ((es[i].Field? && es[i].data == f) || (es[i].SubDict? && FieldIn(es[i].entries, f)));
        if i < |es| - 1 {
          assert init[i] == es[i];
        }
      }
      if FieldIn(init, f) {
        var i :| 0 <= i < |init| && ((init[i].Field? && init[i].data == f) || (init[i].SubDict? && FieldIn(init[i].entries, f)));
        assert es[i] == init[i];
      }
    }
  }

  /** gatherFieldDataEntries: walk the entries, appending field entries and
      descending into sub-dictionaries. */
  method GatherFieldDataEntries(es: seq<Entry>) returns (fdes: seq<FieldDataEntry>)
    ensures fdes == Gathered(es)
    decreases es
  {
    fdes := [];
    var i := 0;
    while i < |es|
      invariant 0 <= i <= |es|
      invariant fdes == Gathered(es[..i])
    {
      assert es[..i + 1][..i] == es[..i];
      if es[i].Field? {
        fdes := fdes + [es[i].data];
      } else if es[i].SubDict? {
        var inner := GatherFieldDataEntries(es[i].entries);
        fdes := fdes + inner;
      }
      i := i + 1;
    }
    assert es[..i] == es;
  }

  // ---------------------------------------------------------------------
  // Writing the gathered fields.

  /** One coherent array written to storage: the field id and, in
      scalars, the global shape, this rank's start and its count. */
  datatype Transfer = Transfer(id: string, shape: int, start: int, count: int)

  /** The transfer of one field: globalIndex over the element counts of
      all ranks gives the global size and this rank's offset. */
  function TransferOf(id: string, nElems: nat, rankSizes: seq<nat>, nCmpts: nat, myProc: nat): Transfer
    requires myProc <= |rankSizes|
  {
    Transfer(id, nCmpts * Sum(rankSizes), nCmpts * Sum(rankSizes[..myProc]), nCmpts * nElems)
  }

  /** The fields written, in gathered order: those among the first n whose
      reduced tag is not UNIFORM. */
  function Transfers(ids: seq<string>, tags: seq<FieldTag>, lens: seq<nat>, rankSizes: seq<seq<nat>>,
                     nCmpts: seq<nat>, myProc: nat, n: nat): seq<Transfer>
    requires n <= |tags| == |ids| == |lens| == |rankSizes| == |nCmpts|
    requires forall i :: 0 <= i < |rankSizes| ==> myProc < |rankSizes[i]|
  {
    if n == 0 then []
    else
      Transfers(ids, tags, lens, rankSizes, nCmpts, myProc, n - 1)
      + if tags[n - 1].uniformity != UNIFORM then [TransferOf(ids[n - 1], lens[n - 1], rankSizes[n - 1], nCmpts[n - 1], myProc)] else []
  }

  /** The number of tags that are not UNIFORM. */
  function NonUniformCount(tags: seq<FieldTag>): nat
  {
    if tags == [] then 0
    else NonUniformCount(tags[..|tags| - 1]) + if tags[|tags| - 1].uniformity != UNIFORM then 1 else 0
  }

  /** This rank's window of a field lies inside the global array. */
  lemma {:induction false} WindowFits(sizes: seq<nat>, p: nat)
    requires p < |sizes|
    ensures 0 <= Sum(sizes[..p]) && Sum(sizes[..p]) + sizes[p] <= Sum(sizes)
    decreases |sizes|
  {
    if p < |sizes| - 1 {
      WindowFits(sizes[..|sizes| - 1], p);
      assert sizes[..|sizes| - 1][..p] == sizes[..p];
    } else {
      assert sizes[..|sizes| - 1] == sizes[..p];
      SumOfNonNegative(sizes[..p]);
    }
  }

  /** Every field that is not uniform on all ranks is written exactly once,
      and every rank writes its own elements into a window inside the
      global array. */
  lemma {:induction false} TransfersFit(ids: seq<string>, tags: seq<FieldTag>, lens: seq<nat>,
                                        rankSizes: seq<seq<nat>>, nCmpts: seq<nat>, myProc: nat, n: nat)
    requires n <= |tags| == |ids| == |lens| == |rankSizes| == |nCmpts|
    requires forall i :: 0 <= i < |rankSizes| ==> myProc < |rankSizes[i]| && rankSizes[i][myProc] == lens[i]
    ensures var ts := Transfers(ids, tags, lens, rankSizes, nCmpts, myProc, n);
            |ts| == NonUniformCount(tags[..n])
            && forall t :: t in ts ==> 0 <= t.start && t.start + t.count <= t.shape
  {
    if n > 0 {
      var k := n - 1;
      TransfersFit(ids, tags, lens, rankSizes, nCmpts, myProc, k);
      WindowFits(rankSizes[k], myProc);
      var a := Sum(rankSizes[k][..myProc]);
      assert nCmpts[k] * a + nCmpts[k] * lens[k] == nCmpts[k] * (a + lens[k]);
      MultiplyMonotone(nCmpts[k], a + lens[k], Sum(rankSizes[k]));
      assert tags[..n][..k] == tags[..k];
    }
  }

  // ---------------------------------------------------------------------
  // The global id.

  const ProcessorWord: string := "processor"

  /** The components that do not mention "processor", in order. */
  function NonProcessor(ws: seq<string>): (r: seq<string>)
    ensures |r| <= |ws|
  {
    if ws == [] then []
    else NonProcessor(ws[..|ws| - 1]) + if Find(ws[|ws| - 1], ProcessorWord, 0) == -1 then [ws[|ws| - 1]] else []
  }

  /** A component is kept exactly when it does not mention "processor". */
  lemma {:induction false} NonProcessorKeeps(ws: seq<string>, w: string)
    ensures w in NonProcessor(ws) <==> w in ws && !Contains(w, ProcessorWord)
  {
    FindFromStart(w, ProcessorWord);
    if ws != [] {
      NonProcessorKeeps(ws[..|ws| - 1], w);
      assert ws == ws[..|ws| - 1] + [ws[|ws| - 1]];
    }
  }

  /** The component order is kept, so components stay components. */
  lemma {:induction false} NonProcessorOfComponents(ws: seq<string>)
    requires forall i :: 0 <= i < |ws| ==> IsComponent(ws[i])
    ensures forall i :: 0 <= i < |NonProcessor(ws)| ==> IsComponent(NonProcessor(ws)[i])
  {
    if ws != [] {
      NonProcessorOfComponents(ws[..|ws| - 1]);
    }
  }

  // ---------------------------------------------------------------------
  // The stream.

  /** The tokens write(token) reacts to. */
  datatype StreamToken = StatementEnd | OtherToken

  /** moveStreamBufferToDict on values: buffered text becomes the next
      formatting entry of the current sub-dictionary. */
  function Moved(dict: seq<Entry>, current: seq<string>, buffer: string, counter: nat): seq<Entry>
  {
    if buffer == [] then dict else AddAt(dict, current, Formatting(FormattingKey(counter), buffer))
  }

  /** The scoped name dictionary::add gives an entry: the names of the
      enclosing dictionaries and the keyword, separated by "::". */
  function ScopedName(names: seq<string>): string
  {
    if |names| == 0 then [] else if |names| == 1 then names[0] else names[0] + "::" + ScopedName(names[1..])
  }

  /** The names of a list of field entries. */
  function Names(fdes: seq<FieldDataEntry>): (r: seq<string>)
    reads fdes
    ensures |r| == |fdes| && forall i :: 0 <= i < |fdes| ==> r[i] == fdes[i].name
  {
    if fdes == [] then [] else Names(fdes[..|fdes| - 1]) + [fdes[|fdes| - 1].name]
  }

  /** The tags of a list of field entries. */
  function Tags(fdes: seq<FieldDataEntry>): (r: seq<FieldTag>)
    reads fdes
    ensures |r| == |fdes| && forall i :: 0 <= i < |fdes| ==> r[i] == fdes[i].tag
  {
    if fdes == [] then [] else Tags(fdes[..|fdes| - 1]) + [fdes[|fdes| - 1].tag]
  }

  /** The element counts of a list of field entries. */
  function Lens(fdes: seq<FieldDataEntry>): (r: seq<nat>)
    ensures |r| == |fdes| && forall i :: 0 <= i < |fdes| ==> r[i] == |fdes[i].list|
  {
    seq(|fdes|, i requires 0 <= i < |fdes| => |fdes[i].list|)
  }

  /** id() of every name. */
  function Ids(names: seq<string>): (r: seq<string>)
    ensures |r| == |names| && forall i :: 0 <= i < |names| ==> r[i] == ReplaceScope(names[i])
  {
    seq(|names|, i requires 0 <= i < |names| => ReplaceScope(names[i]))
  }

  /** The element counts recorded in a list of field entries. */
  function Counts(fdes: seq<FieldDataEntry>): (r: seq<int>)
    reads fdes
    ensures |r| == |fdes| && forall i :: 0 <= i < |fdes| ==> r[i] == fdes[i].nGlobalElems
  {
    if fdes == [] then [] else Counts(fdes[..|fdes| - 1]) + [fdes[|fdes| - 1].nGlobalElems]
  }

  /** The state writeGlobalGeometricField leaves an entry in, given the
      field's element count summed over the ranks. */
  ghost predicate Applied(fde: FieldDataEntry, tag: FieldTag, total: int, name: string, count: int)
    reads fde
  {
    fde.tag == tag && fde.name == name
    && fde.nGlobalElems == if tag.uniformity != UNIFORM then total else count
  }

  /** The element count of every field summed over the ranks. */
  function Totals(rankSizes: seq<seq<nat>>): (r: seq<int>)
    ensures |r| == |rankSizes| && forall i :: 0 <= i < |rankSizes| ==> r[i] == Sum(rankSizes[i])
  {
    seq(|rankSizes|, i requires 0 <= i < |rankSizes| => Sum(rankSizes[i]))
  }

  ghost predicate Distinct(fdes: seq<FieldDataEntry>)
  {
    forall i, j :: 0 <= i < j < |fdes| ==> fdes[i] != fdes[j]
  }

  /** A block called name can be entered from dictionary d: the name is
      none of the formatting keys ASCII_F<n> and, if taken, is taken by a
      sub-dictionary. */
  ghost predicate BlockNameUsable(d: seq<Entry>, name: string)
  {
    (forall n: nat :: name != FormattingKey(n))
    && (KeyIndex(d, name) == -1 || d[KeyIndex(d, name)].SubDict?)
  }

  /** Storing the buffered text keeps a usable block name usable. */
  lemma MovedKeepsBlockName(dict: seq<Entry>, current: seq<string>, buffer: string, counter: nat, name: string)
    requires Resolves(dict, current) && BlockNameUsable(DictAt(dict, current), name)
    ensures Resolves(Moved(dict, current, buffer, counter), current)
    ensures BlockNameUsable(DictAt(Moved(dict, current, buffer, counter), current), name)
  {
    if buffer != [] {
      var k := FormattingKey(counter);
      var e := Formatting(k, buffer);
      AddLandsAtPath(dict, current, e);
      var d0 := DictAt(dict, current);
      var d1 := DictAt(Moved(dict, current, buffer, counter), current);
      assert k[..|FormattingPrefix|] == FormattingPrefix;
      assert name != k;
      if KeyIndex(d0, k) == -1 {
        assert d1 == d0 + [e];
        if KeyIndex(d0, name) >= 0 {
          KeyIndexOfExtension(d0, d1, name);
        }
      }
    }
  }

  /** Adding a sub-dictionary called name lets the path enter a
      sub-dictionary of that name. */
  lemma EnterNewBlock(dict: seq<Entry>, current: seq<string>, name: string)
    requires Resolves(dict, current) && BlockNameUsable(DictAt(dict, current), name)
    ensures Resolves(AddAt(dict, current, SubDict(name, [])), current + [name])
  {
    var e := SubDict(name, []);
    AddLandsAtPath(dict, current, e);
    var d1 := DictAt(dict, current);
    var d2 := DictAt(AddAt(dict, current, e), current);
    if KeyIndex(d1, name) == -1 {
      assert d2 == d1 + [e];
    }
    ResolvesDeeper(AddAt(dict, current, e), current, name);
  }

  class OFCstream {
    /** The OFstream this stream is; its OSstream text is the stream
        buffer. */
    const base: OFstream
    /** The names token::compound::isCompound accepts. */
    const compoundNames: set<string>
    /** dict_: the dictionary being built, named after the file. */
    const dictName: string
    var dict: seq<Entry>
    /** currentSubDictPtr_, as the keys leading to it from dict_. */
    var current: seq<string>
    var currentKeyword: string
    var currentCompoundTokenName: string
    var currentEntryI: nat

    ghost predicate Valid()
      reads this
    {
      Resolves(dict, current)
    }

    constructor(base: OFstream, compoundNames: set<string>, dictName: string)
      ensures Valid()
      ensures this.base == base && this.compoundNames == compoundNames && this.dictName == dictName
      ensures dict == [] && current == [] && currentKeyword == [] && currentCompoundTokenName == []
      ensures currentEntryI == 0
    {
      this.base := base;
      this.compoundNames := compoundNames;
      this.dictName := dictName;
      dict := [];
      current := [];
      currentKeyword := [];
      currentCompoundTokenName := [];
      currentEntryI := 0;
    }

    /** getGlobalId(): the block id without its processor directories,
        joined again with operator/. */
    method GetGlobalId() returns (globalId: string)
      ensures globalId == JoinSlash(NonProcessor(Components(BlockId(base.relativeFileName, base.blockNames))))
      ensures Components(globalId) == NonProcessor(Components(BlockId(base.relativeFileName, base.blockNames)))
    {
      var id := base.GetBlockId();
      var cmpts := Components(id);
      ComponentsAreComponents(id);
      globalId := [];
      var i := 0;
      while i < |cmpts|
        invariant 0 <= i <= |cmpts|
        invariant globalId == JoinSlash(NonProcessor(cmpts[..i]))
      {
        assert cmpts[..i + 1][..i] == cmpts[..i];
        assert forall j :: 0 <= j < i ==> IsComponent(cmpts[..i][j]);
        NonProcessorOfComponents(cmpts[..i]);
        assert IsComponent(cmpts[i]);
        assert NonProcessor(cmpts[..i + 1])
               == NonProcessor(cmpts[..i]) + if Find(cmpts[i], ProcessorWord, 0) == -1 then [cmpts[i]] else [];
        if Find(cmpts[i], ProcessorWord, 0) == -1 {
          ghost var kept := NonProcessor(cmpts[..i]);
          assert NonProcessor(cmpts[..i + 1]) == kept + [cmpts[i]];
          assert forall j :: 0 <= j < |kept| ==> kept[j] != [];
          SlashExtendsJoin(kept, cmpts[i]);
          assert Slash(globalId, cmpts[i]) == JoinSlash(kept + [cmpts[i]]);
          globalId := Slash(globalId, cmpts[i]);
        } else {
          assert NonProcessor(cmpts[..i + 1]) == NonProcessor(cmpts[..i]);
        }
        i := i + 1;
      }
      assert cmpts[..i] == cmpts;
      NonProcessorOfComponents(cmpts);
      ComponentsOfJoin(NonProcessor(cmpts));
    }

    /** moveStreamBufferToDict(): text written since the last entry becomes
        the formatting entry ASCII_F<n> of the current sub-dictionary, the
        counter advances and the buffer is emptied. */
    method MoveStreamBufferToDict()
      requires Valid()
      modifies this, base.out
      ensures Valid()
      ensures dict == Moved(old(dict), current, old(base.out.os), old(currentEntryI))
      ensures old(base.out.os) != [] ==>
                DictAt(dict, current) == AddEntry(old(DictAt(dict, current)), Formatting(FormattingKey(old(currentEntryI)), old(base.out.os)))
      ensures currentEntryI == old(currentEntryI) + (if old(base.out.os) == [] then 0 else 1)
      ensures base.out.os == [] && base.out.lineNumber == old(base.out.lineNumber)
      ensures base.out.indentLevel == old(base.out.indentLevel) && base.out.bad == old(base.out.bad)
      ensures current == old(current) && currentKeyword == old(currentKeyword)
      ensures currentCompoundTokenName == old(currentCompoundTokenName)
    {
      var str := base.out.TakeBuffer();
      if str != [] {
        var e := Formatting(FormattingKey(currentEntryI), str);
        AddLandsAtPath(dict, current, e);
        dict := AddAt(dict, current, e);
        currentEntryI := currentEntryI + 1;
      }
    }

    /** writeKeyword(kw): remember the keyword and store the text written
        before it. */
    method WriteKeyword(kw: string)
      requires Valid()
      modifies this, base.out
      ensures Valid()
      ensures currentKeyword == kw
      ensures dict == Moved(old(dict), current, old(base.out.os), old(currentEntryI))
      ensures currentEntryI == old(currentEntryI) + (if old(base.out.os) == [] then 0 else 1)
      ensures base.out.os == [] && current == old(current)
      ensures currentCompoundTokenName == old(currentCompoundTokenName)
    {
      currentKeyword := kw;
      MoveStreamBufferToDict();
    }

    /** write(token): an end of statement stores the text written since the
        keyword as the keyword's primitive entry; other tokens are
        ignored. */
    method WriteToken(t: StreamToken)
      requires Valid()
      modifies this, base.out
      ensures Valid()
      ensures t == StatementEnd ==>
                dict == AddAt(old(dict), current, Primitive(currentKeyword, old(base.out.os))) && base.out.os == []
      ensures t != StatementEnd ==> dict == old(dict) && base.out.os == old(base.out.os)
      ensures current == old(current) && currentKeyword == old(currentKeyword)
      ensures currentEntryI == old(currentEntryI) && currentCompoundTokenName == old(currentCompoundTokenName)
    {
      if t == StatementEnd {
        var str := base.out.TakeBuffer();
        AddKeepsPaths(dict, current, Primitive(currentKeyword, str), current);
        dict := AddAt(dict, current, Primitive(currentKeyword, str));
      }
    }

    /** write(word): a compound token name is only remembered; any other
        word is written to the buffer. */
    method WriteWord(str: string)
      modifies this, base.out
      ensures str in compoundNames ==> currentCompoundTokenName == str && base.out.os == old(base.out.os)
      ensures str !in compoundNames ==>
                currentCompoundTokenName == old(currentCompoundTokenName) && base.out.os == old(base.out.os) + str
      ensures dict == old(dict) && current == old(current) && currentKeyword == old(currentKeyword)
      ensures currentEntryI == old(currentEntryI)
    {
      if str in compoundNames {
        currentCompoundTokenName := str;
      } else {
        base.out.WriteWord(str);
      }
    }

    /** incrBlock(name): store the buffered text, add an empty
        sub-dictionary called name and make it current. An entry of that
        name that is not a dictionary would leave no dictionary to enter,
        so the name must not be one, nor the key of a formatting entry. */
    method IncrBlock(name: string) returns (r: string)
      requires Valid()
      requires BlockNameUsable(DictAt(dict, current), name)
      modifies this, base.out
      ensures Valid()
      ensures r == name && current == old(current) + [name]
      ensures dict == AddAt(Moved(old(dict), old(current), old(base.out.os), old(currentEntryI)), old(current), SubDict(name, []))
      ensures currentEntryI == old(currentEntryI) + (if old(base.out.os) == [] then 0 else 1)
      ensures base.out.os == [] && currentKeyword == old(currentKeyword)
    {
      MovedKeepsBlockName(dict, current, base.out.os, currentEntryI, name);
      MoveStreamBufferToDict();
      EnterNewBlock(dict, current, name);
      dict := AddAt(dict, current, SubDict(name, []));
      current := current + [name];
      r := name;
    }

    /** decrBlock(): store the buffered text and return to the parent
        dictionary. */
    method DecrBlock()
      requires Valid() && current != []
      modifies this, base.out
      ensures Valid()
      ensures current == old(current)[..|old(current)| - 1]
      ensures dict == Moved(old(dict), old(current), old(base.out.os), old(currentEntryI))
      ensures currentEntryI == old(currentEntryI) + (if old(base.out.os) == [] then 0 else 1)
      ensures base.out.os == [] && currentKeyword == old(currentKeyword)
    {
      MoveStreamBufferToDict();
      ResolvesParent(dict, current);
      current := current[..|current| - 1];
    }

    /** parwrite: a new field entry for the current keyword and compound
        token name; it is added to the current sub-dictionary unless the
        keyword is taken, and then it is named by its scope. */
    method Parwrite(list: seq<seq<real>>) returns (fde: FieldDataEntry, added: bool)
      requires Valid()
      modifies this
      ensures Valid()
      ensures fresh(fde) && fde.keyword == currentKeyword && fde.compoundTokenName == currentCompoundTokenName
      ensures fde.list == list && fde.tag == TagOf(list) && fde.nGlobalElems == 0
      ensures added <==> KeyIndex(old(DictAt(dict, current)), currentKeyword) == -1
      ensures added ==> dict == AddAt(old(dict), current, Field(currentKeyword, fde))
                        && DictAt(dict, current) == old(DictAt(dict, current)) + [Field(currentKeyword, fde)]
                        && fde.name == ScopedName([dictName] + current + [currentKeyword])
      ensures !added ==> dict == old(dict)
      ensures current == old(current) && currentKeyword == old(currentKeyword)
      ensures currentEntryI == old(currentEntryI) && currentCompoundTokenName == old(currentCompoundTokenName)
    {
      fde := new FieldDataEntry(currentKeyword, currentCompoundTokenName, list);
      added := KeyIndex(DictAt(dict, current), currentKeyword) == -1;
      if added {
        fde.name := ScopedName([dictName] + current + [currentKeyword]);
        var e := Field(currentKeyword, fde);
        AddLandsAtPath(dict, current, e);
        dict := AddAt(dict, current, e);
      }
    }
  
    /** writeGlobalGeometricField(): gather the field entries, reduce their
        tags with those of the other ranks, give every entry its reduced
        tag, and write every entry that is not uniform as a coherent array;
        the master then stores the buffered text (writing the dictionary
        out is not modelled). */
    method WriteGlobalGeometricField(others: seq<FieldTag>, rankSizes: seq<seq<nat>>, nCmpts: seq<nat>,
                                     myProc: nat, isMaster: bool) returns (transfers: seq<Transfer>)
      requires Valid()
      requires Distinct(Gathered(dict))
      requires |Gathered(dict)| <= |others|
      requires |rankSizes| == |nCmpts| == |Gathered(dict)|
      requires forall i :: 0 <= i < |rankSizes| ==>
                 myProc < |rankSizes[i]| && rankSizes[i][myProc] == |Gathered(dict)[i].list|
      modifies this, base.out, Gathered(dict)
      ensures Valid() && current == old(current)
      ensures var fdes := Gathered(old(dict));
              var reduced := UniformityCompareOp(old(Tags(Gathered(dict))), others);
              var names, counts := old(Names(Gathered(dict))), old(Counts(Gathered(dict)));
              && transfers == Transfers(Ids(names), reduced, Lens(fdes), rankSizes, nCmpts, myProc, |fdes|)
              && AppliedUpTo(fdes, reduced, Totals(rankSizes), names, counts, |fdes|)
      ensures isMaster ==> dict == Moved(old(dict), current, old(base.out.os), old(currentEntryI)) && base.out.os == []
      ensures !isMaster ==> dict == old(dict) && base.out.os == old(base.out.os)
    {
      ghost var fdes := Gathered(dict);
      ghost var reduced := UniformityCompareOp(Tags(fdes), others);
      ghost var names, counts := Names(fdes), Counts(fdes);
      ghost var dict0, os0, entry0 := dict, base.out.os, currentEntryI;
      ghost var touched: seq<object> := fdes;
      assert this !in touched && base.out !in touched;
      transfers := WriteFields(dict, others, rankSizes, nCmpts, myProc);
      assert dict == dict0 && base.out.os == os0 && currentEntryI == entry0;
      assert AppliedUpTo(fdes, reduced, Totals(rankSizes), names, counts, |fdes|);
      if isMaster {
        MoveStreamBufferToDict();
        assert dict == Moved(dict0, current, os0, entry0);
        assert AppliedUpTo(fdes, reduced, Totals(rankSizes), names, counts, |fdes|);
      }
    }
  }

  /** The field part of writeGlobalGeometricField: gather the field
      entries, reduce their tags with those of the other ranks, give every
      entry its reduced tag, and write every entry that is not uniform as
      a coherent array at this rank's offset. */
  method WriteFields(dict: seq<Entry>, others: seq<FieldTag>, rankSizes: seq<seq<nat>>, nCmpts: seq<nat>, myProc: nat)
    returns (transfers: seq<Transfer>)
    requires Distinct(Gathered(dict))
    requires |Gathered(dict)| <= |others|
    requires |rankSizes| == |nCmpts| == |Gathered(dict)|
    requires forall i :: 0 <= i < |rankSizes| ==> myProc < |rankSizes[i]|
    modifies Gathered(dict)
    ensures var fdes := Gathered(dict);
            var reduced := UniformityCompareOp(old(Tags(fdes)), others);
            var names, counts := old(Names(fdes)), old(Counts(fdes));
            && transfers == Transfers(Ids(names), reduced, Lens(fdes), rankSizes, nCmpts, myProc, |fdes|)
            && AppliedUpTo(fdes, reduced, Totals(rankSizes), names, counts, |fdes|)
  {
    ghost var names, counts := Names(Gathered(dict)), Counts(Gathered(dict));
    var fdes := GatherFieldDataEntries(dict);
    var tags := CollectTags(fdes);
    var reduced := UniformityCompareOp(tags, others);
    transfers := ApplyReducedTags(fdes, reduced, rankSizes, nCmpts, myProc, names, counts);
  }

  /** The tags of the gathered entries, prepared for the reduction. */
  method CollectTags(fdes: seq<FieldDataEntry>) returns (tags: seq<FieldTag>)
    ensures tags == Tags(fdes)
  {
    tags := [];
    var i := 0;
    while i < |fdes|
      invariant 0 <= i <= |fdes|
      invariant |tags| == i && forall j :: 0 <= j < i ==> tags[j] == fdes[j].tag
    {
      tags := tags + [fdes[i].tag];
      i := i + 1;
    }
  }

  /** The loop of writeGlobalGeometricField over the gathered entries,
      whose names and global element counts are names and counts. */
  method ApplyReducedTags(fdes: seq<FieldDataEntry>, reduced: seq<FieldTag>, rankSizes: seq<seq<nat>>,
                          nCmpts: seq<nat>, myProc: nat, ghost names: seq<string>, ghost counts: seq<int>)
    returns (transfers: seq<Transfer>)
    requires Distinct(fdes)
    requires |reduced| == |rankSizes| == |nCmpts| == |fdes|
    requires forall i :: 0 <= i < |rankSizes| ==> myProc < |rankSizes[i]|
    requires Names(fdes) == names && Counts(fdes) == counts
    modifies fdes
    ensures transfers == Transfers(Ids(names), reduced, Lens(fdes), rankSizes, nCmpts, myProc, |fdes|)
    ensures AppliedUpTo(fdes, reduced, Totals(rankSizes), names, counts, |fdes|)
  {
    ghost var ids := Ids(names);
    ghost var lens := Lens(fdes);
    ghost var totals := Totals(rankSizes);
    transfers := [];
    var i := 0;
    while i < |fdes|
      invariant 0 <= i <= |fdes|
      invariant AppliedUpTo(fdes, reduced, totals, names, counts, i)
      invariant transfers == Transfers(ids, reduced, lens, rankSizes, nCmpts, myProc, i)
    {
      var t := ApplyReducedTagAt(fdes, reduced, rankSizes, nCmpts, myProc, names, counts, totals, i);
      transfers := transfers + t;
      i := i + 1;
    }
  }

  /** The first n entries hold their reduced tags and counts, the others
      are as before; all keep their names. */
  ghost predicate AppliedUpTo(fdes: seq<FieldDataEntry>, reduced: seq<FieldTag>, totals: seq<int>,
                              names: seq<string>, counts: seq<int>, n: nat)
    reads fdes
  {
    && |reduced| == |totals| == |names| == |counts| == |fdes|
    && forall j :: 0 <= j < |fdes| ==>
         if j < n then Applied(fdes[j], reduced[j], totals[j], names[j], counts[j])
         else fdes[j].name == names[j] && fdes[j].nGlobalElems == counts[j]
  }

  /** One iteration of the loop of writeGlobalGeometricField. */
  method ApplyReducedTagAt(fdes: seq<FieldDataEntry>, reduced: seq<FieldTag>, rankSizes: seq<seq<nat>>,
                           nCmpts: seq<nat>, myProc: nat, ghost names: seq<string>, ghost counts: seq<int>,
                           ghost totals: seq<int>, i: nat)
    returns (t: seq<Transfer>)
    requires Distinct(fdes) && i < |fdes| == |rankSizes| == |nCmpts|
    requires AppliedUpTo(fdes, reduced, totals, names, counts, i)
    requires myProc < |rankSizes[i]| && totals[i] == Sum(rankSizes[i])
    modifies fdes[i]
    ensures AppliedUpTo(fdes, reduced, totals, names, counts, i + 1)
    ensures t == if reduced[i].uniformity != UNIFORM
                 then [TransferOf(ReplaceScope(names[i]), |fdes[i].list|, rankSizes[i], nCmpts[i], myProc)] else []
  {
    assert fdes[i].name == names[i] && fdes[i].nGlobalElems == counts[i];
    t := ApplyReducedTag(fdes[i], reduced[i], rankSizes[i], nCmpts[i], myProc);
  }

  /** One field of writeGlobalGeometricField: the entry takes the reduced
      tag; unless it is uniform, its elements are written at this rank's
      offset and it records the global element count. */
  method ApplyReducedTag(fde: FieldDataEntry, tag: FieldTag, rankSizes: seq<nat>, nCmpts: nat, myProc: nat)
    returns (t: seq<Transfer>)
    requires myProc < |rankSizes|
    modifies fde
    ensures Applied(fde, tag, Sum(rankSizes), old(fde.name), old(fde.nGlobalElems))
    ensures t == if tag.uniformity != UNIFORM then [TransferOf(ReplaceScope(fde.name), |fde.list|, rankSizes, nCmpts, myProc)] else []
  {
    fde.tag := tag;
    if !fde.Uniform() {
      var nElems := |fde.list|;
      var nGlobalElems := Sum(rankSizes);
      var elemOffset := Sum(rankSizes[..myProc]);
      t := [Transfer(fde.Id(), nCmpts * nGlobalElems, nCmpts * elemOffset, nCmpts * nElems)];
      fde.nGlobalElems := nGlobalElems;
    } else {
      t := [];
    }
  }

}
