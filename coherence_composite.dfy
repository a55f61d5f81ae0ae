// The coherence composite (CoherenceComposite/IndexComponent.C,
// sliceMesh/CoherenceComposite/DataComponent.C and
// CoherenceComposite/decorators/SliceDecorator.C): a tree of named index
// components, each reading its data through an initialization strategy in a
// window its offset strategies compute from its parent's data, plus a
// decorator that caches the slice of a wrapped offsets component. The tree
// is modelled as a value: the two node kinds are the two variants of
// Component, and every operation returns the updated tree.
module CoherenceComposite {
  import opened Wrappers
  import opened OffsetStrategies
  import opened InitStrategies

  /** The initialization strategy a component owns. */
  datatype InitKind =
    | NoInit                                 // the base InitStrategy: execute does nothing
    | FromStorage(block: seq<int>)           // InitFromADIOS
    | PrimitivesFromStorage(block: seq<int>) // InitPrimitivesFromADIOS
    | NaivePartitioning(block: seq<int>)     // NaivePartitioningFromADIOS
    | OffsetsInit(accumulate: bool, table: seq<(int, int)>) // InitOffsets and its offsets_

  /** The slice a SliceDecorator caches: Slice(myProcNo, offsets). */
  datatype SliceWindow = SliceWindow(partition: int, bottom: int, top: int)

  datatype Component =
    | Index(kind: string, name: string, init: InitKind,
            calcStart: Option<OffsetStrategy>, calcCount: Option<OffsetStrategy>,
            parentless: bool, initialized: bool, data: seq<int>,
            children: seq<Component>)
    | Decorated(inner: Component, sliceReady: bool, slice: SliceWindow)
  {
    /** A decorator takes the name and type of the component it wraps. */
    function Name(): string
    {
      if Index? then name else inner.Name()
    }

    function Kind(): string
    {
      if Index? then kind else inner.Kind()
    }

    /** begin/end/front/back/size: a decorator forwards to the component it
        wraps. */
    function View(): seq<int>
    {
      if Index? then data else inner.View()
    }
  }

  /** The default Offsets: one (0, 0) pair per rank. */
  function DefaultTable(nProcs: nat): (r: seq<(int, int)>)
    ensures |r| == nProcs && forall p :: 0 <= p < nProcs ==> r[p] == (0, 0)
  {
    seq(nProcs, _ => (0, 0))
  }

  /** Every InitOffsets table in the tree has one pair per rank. */
  predicate Tables(c: Component, nProcs: nat)
  {
    match c
    case Index(_, _, init, _, _, _, _, _, children) =>
      (init.OffsetsInit? ==> |init.table| == nProcs)
      && forall i :: 0 <= i < |children| ==> Tables(children[i], nProcs)
    case Decorated(inner, _, _) => Tables(inner, nProcs)
  }

  /** A fresh, uninitialized index component without children. */
  function NewIndex(kind: string, name: string, init: InitKind,
                    calcStart: Option<OffsetStrategy>, calcCount: Option<OffsetStrategy>,
                    parentless: bool): (r: Component)
    ensures r.Index? && !r.initialized && r.data == [] && r.children == []
    ensures r.Name() == name && r.Kind() == kind
  {
    Index(kind, name, init, calcStart, calcCount, parentless, false, [], [])
  }

  // ----- accept, init and initialize -------------------------------------------

  /** accept: -1 without a strategy, else the strategy applied to the
      parent's data. A strategy that reads front(), back() or the maximum of
      empty data has no defined result (None). */
  function Accept(s: Option<OffsetStrategy>, view: seq<int>, env: Env): (r: Option<int>)
    ensures s.None? ==> r == Some(-1)
    ensures s.Some? && Applicable(s.value, view, env) ==> r == Some(Apply(s.value, view, env))
    ensures s.Some? && !Applicable(s.value, view, env) ==> r.None?
  {
    match s
    case None => Some(-1)
    case Some(st) => if Applicable(st, view, env) then Some(Apply(st, view, env)) else None
  }

  /** The strategy's execute: the new data and strategy state, or None when
      the reader refuses the window. */
  function Execute(init: InitKind, startCount: (int, int), data: seq<int>, env: Env): (r: Option<(seq<int>, InitKind)>)
    requires env.Valid()
    ensures init.NoInit? ==> r == Some((data, init))
    ensures init.FromStorage? && r.Some? ==>
              Some(r.value.0) == ReadFromStorage(init.block, startCount) && r.value.1 == init
    ensures init.OffsetsInit? ==>
              r == Some((OffsetsData(startCount, init.accumulate, env),
                         OffsetsInit(init.accumulate, OffsetsTable(startCount, init.accumulate, env))))
    ensures r.Some? && init.OffsetsInit? ==> |r.value.1.table| == |env.peers|
    ensures r.Some? && !init.OffsetsInit? ==> r.value.1 == init
  {
    match init
    case NoInit => Some((data, init))
    case FromStorage(block) =>
      (match ReadFromStorage(block, startCount)
       case Some(d) => Some((d, init))
       case None => None)
    case PrimitivesFromStorage(block) =>
      if startCount.1 == -1 then None
      else
        (match ReadPrimitives(block, startCount)
         case Some(d) => Some((d, init))
         case None => None)
    case NaivePartitioning(block) =>
      (match ReadNaivePartition(block, |env.peers|, env.myProcNo)
       case Some(d) => Some((d, init))
       case None => None)
    case OffsetsInit(accumulate, _) =>
      Some((OffsetsData(startCount, accumulate, env),
            OffsetsInit(accumulate, OffsetsTable(startCount, accumulate, env))))
  }

  /** The window an index component computes: both strategies applied to
      its parent's data, or to its own data when it has no parent. */
  function StartCount(c: Component, parentView: seq<int>, env: Env): Option<(int, int)>
    requires c.Index?
  {
    var view := if c.parentless then c.data else parentView;
    match (Accept(c.calcStart, view, env), Accept(c.calcCount, view, env))
    case (Some(start), Some(count)) => Some((start, count))
    case _ => None
  }

  /** init: execute the strategy in the computed window and mark the
      component initialized; nothing else of it changes. */
  function Init(c: Component, parentView: seq<int>, env: Env): (r: Option<Component>)
    requires c.Index? && env.Valid()
    ensures r.Some? ==>
              StartCount(c, parentView, env).Some? && r.value.Index?
              && Execute(c.init, StartCount(c, parentView, env).value, c.data, env)
                 == Some((r.value.data, r.value.init))
              && r.value == c.(initialized := true, data := r.value.data, init := r.value.init)
  {
    match StartCount(c, parentView, env)
    case None => None
    case Some(sc) =>
      match Execute(c.init, sc, c.data, env)
      case None => None
      case Some((d, i)) => Some(c.(initialized := true, data := d, init := i))
  }

  /** The Offsets a component hands out on extract: its strategy's table if
      it is an initialized "offsets" component (the default table for
      strategies without one), else nothing (the output keeps its value). */
  function ExtractOffsets(c: Component, nProcs: nat): (r: Option<seq<(int, int)>>)
    ensures c.Index? && (c.kind != "offsets" || !c.initialized) ==> r.None?
    ensures c.Index? && c.kind == "offsets" && c.initialized ==>
              r == Some(if c.init.OffsetsInit? then c.init.table else DefaultTable(nProcs))
    ensures c.Decorated? ==> r == ExtractOffsets(c.inner, nProcs)
  {
    match c
    case Index(kind, _, init, _, _, _, initialized, _, _) =>
      if kind != "offsets" || !initialized then None
      else Some(if init.OffsetsInit? then init.table else DefaultTable(nProcs))
    case Decorated(inner, _, _) => ExtractOffsets(inner, nProcs)
  }

  /** Slice(myProcNo, offsets): the own partition's bounds. */
  function SliceOf(table: seq<(int, int)>, myProcNo: nat): (r: SliceWindow)
    requires myProcNo < |table|
    ensures r.partition == myProcNo && r.bottom == table[myProcNo].0 && r.top == table[myProcNo].1
  {
    SliceWindow(myProcNo, table[myProcNo].0, table[myProcNo].1)
  }

  /** The slice a decorator builds from its wrapped component. */
  function SliceFrom(inner: Component, env: Env): SliceWindow
    requires env.Valid() && Tables(inner, |env.peers|)
  {
    match ExtractOffsets(inner, |env.peers|)
    case Some(t) =>
      TablesOfExtract(inner, |env.peers|);
      SliceOf(t, env.myProcNo)
    case None => SliceOf(DefaultTable(|env.peers|), env.myProcNo)
  }

  lemma {:induction false} TablesOfExtract(c: Component, nProcs: nat)
    requires Tables(c, nProcs)
    ensures ExtractOffsets(c, nProcs).Some? ==> |ExtractOffsets(c, nProcs).value| == nProcs
  {
    if c.Decorated? {
      TablesOfExtract(c.inner, nProcs);
    }
  }

  /** initialize: an index component that is neither initialized nor the
      head of the composition runs init; then every child is initialized
      with this component as parent. A decorator initializes the wrapped
      component and builds its slice the first time only. None: some
      strategy had no defined result or the reader refused a window. */
  function Initialize(c: Component, parentView: seq<int>, env: Env, head: bool): (r: Option<Component>)
    requires env.Valid() && Tables(c, |env.peers|)
    ensures r.Some? ==> Tables(r.value, |env.peers|)
    ensures r.Some? ==> r.value.Name() == c.Name() && r.value.Kind() == c.Kind()
    ensures r.Some? && c.Index? ==> r.value.Index? && |r.value.children| == |c.children|
    ensures r.Some? && c.Index? && (c.initialized || head) ==> r.value.data == c.data && r.value.init == c.init
    ensures r.Some? && c.Index? && !c.initialized && !head ==>
              Init(c, parentView, env).Some?
              && r.value.data == Init(c, parentView, env).value.data
    ensures r.Some? && c.Index? ==> r.value.initialized == (c.initialized || !head)
    ensures r.Some? && c.Decorated? ==> r.value.Decorated? && r.value.sliceReady
    ensures r.Some? && c.Decorated? && c.sliceReady ==> r.value.slice == c.slice
    ensures r.Some? && c.Decorated? && !c.sliceReady ==> r.value.slice == SliceFrom(r.value.inner, env)
    decreases c
  {
    match c
    case Index(_, _, _, _, _, _, _, _, children) =>
      var c1 := if !c.initialized && !head then Init(c, parentView, env) else Some(c);
      if c1.None? then None
      else
        (match InitializeAll(children, c1.value.data, env)
         case None => None
         case Some(kids) => Some(c1.value.(children := kids)))
    case Decorated(inner, sliceReady, slice) =>
      match Initialize(inner, parentView, env, head)
      case None => None
      case Some(inner1) =>
        Some(Decorated(inner1, true, if sliceReady then slice else SliceFrom(inner1, env)))
  }

  /** The children of one component, initialized in map order. */
  function InitializeAll(cs: seq<Component>, parentView: seq<int>, env: Env): (r: Option<seq<Component>>)
    requires env.Valid() && forall i :: 0 <= i < |cs| ==> Tables(cs[i], |env.peers|)
    ensures r.Some? ==> |r.value| == |cs|
    ensures r.Some? ==> forall i :: 0 <= i < |cs| ==> Initialize(cs[i], parentView, env, false) == Some(r.value[i])
    decreases cs
  {
    if |cs| == 0 then Some([])
    else
      match Initialize(cs[0], parentView, env, false)
      case None => None
      case Some(c0) =>
        match InitializeAll(cs[1..], parentView, env)
        case None => None
        case Some(rest) => Some([c0] + rest)
  }

  /** A second initialize changes nothing: initialized components are not
      read again and cached slices are kept. */
  lemma {:induction false} InitializeIdempotent(c: Component, parentView: seq<int>, env: Env, head: bool)
    requires env.Valid() && Tables(c, |env.peers|)
    requires Initialize(c, parentView, env, head).Some?
    ensures Initialize(Initialize(c, parentView, env, head).value, parentView, env, head)
            == Initialize(c, parentView, env, head)
    decreases c
  {
    var r := Initialize(c, parentView, env, head).value;
    match c
    case Index(_, _, _, _, _, _, _, _, children) =>
      InitializeAllIdempotent(children, r.data, env);
    case Decorated(inner, _, _) =>
      InitializeIdempotent(inner, parentView, env, head);
  }

  lemma {:induction false} InitializeAllIdempotent(cs: seq<Component>, parentView: seq<int>, env: Env)
    requires env.Valid() && forall i :: 0 <= i < |cs| ==> Tables(cs[i], |env.peers|)
    requires InitializeAll(cs, parentView, env).Some?
    ensures InitializeAll(InitializeAll(cs, parentView, env).value, parentView, env)
            == InitializeAll(cs, parentView, env)
    decreases cs
  {
    if |cs| > 0 {
      InitializeIdempotent(cs[0], parentView, env, false);
      InitializeAllIdempotent(cs[1..], parentView, env);
      var rs := InitializeAll(cs, parentView, env).value;
      assert rs[1..] == InitializeAll(cs[1..], parentView, env).value;
    }
  }

  // ----- extract ----------------------------------------------------------------

  /** extract(index list): the data is moved out and the component is left
      empty and uninitialized, so that a later initialize reads it again; a
      decorator forwards to the component it wraps and keeps its slice. */
  function ExtractIndex(c: Component): (r: (seq<int>, Component))
    ensures r.0 == c.View() && r.1.View() == []
    ensures r.1.Name() == c.Name() && r.1.Kind() == c.Kind()
    ensures c.Index? ==> r.1 == c.(data := [], initialized := false)
    ensures c.Decorated? ==> r.1 == c.(inner := ExtractIndex(c.inner).1)
  {
    match c
    case Index(_, _, _, _, _, _, _, data, _) => (data, c.(data := [], initialized := false))
    case Decorated(inner, _, _) =>
      var (out, inner1) := ExtractIndex(inner);
      (out, c.(inner := inner1))
  }

  /** Extraction is one-shot: extracting again yields nothing. */
  lemma ExtractTwiceIsEmpty(c: Component)
    ensures ExtractIndex(ExtractIndex(c).1).0 == []
  {
  }

  /** extract(Slice) on a decorator: a copy of the cached slice; the
      decorator is not changed. Index components hand out no slice. */
  function ExtractSlice(c: Component): (r: Option<SliceWindow>)
    ensures c.Decorated? <==> r.Some?
    ensures c.Decorated? ==> r.value == c.slice
  {
    if c.Decorated? then Some(c.slice) else None
  }

  // ----- the name-keyed child map --------------------------------------------

  /** std::string ordering: lexicographic, a proper prefix first. */
  predicate Before(a: string, b: string)
  {
    if |a| == 0 then |b| > 0
    else if |b| == 0 then false
    else if a[0] != b[0] then a[0] < b[0]
    else Before(a[1..], b[1..])
  }

  lemma {:induction false} BeforeTotal(a: string, b: string)
    ensures a == b || Before(a, b) || Before(b, a)
    ensures !(Before(a, b) && Before(b, a))
  {
    if |a| > 0 && |b| > 0 && a[0] == b[0] {
      BeforeTotal(a[1..], b[1..]);
      if a[1..] == b[1..] {
        assert a == [a[0]] + a[1..] && b == [b[0]] + b[1..];
      }
    }
  }

  lemma {:induction false} BeforeTransitive(a: string, b: string, c: string)
    requires Before(a, b) && Before(b, c)
    ensures Before(a, c)
  {
    if |a| > 0 && |b| > 0 && |c| > 0 && a[0] == b[0] && b[0] == c[0] {
      BeforeTransitive(a[1..], b[1..], c[1..]);
    }
  }

  /** The children are held in a std::map: ordered by name, names unique. */
  predicate Sorted(cs: seq<Component>)
  {
    forall i, j :: 0 <= i < j < |cs| ==> Before(cs[i].Name(), cs[j].Name())
  }

  /** The child of the given name, if any. */
  function ChildNamed(cs: seq<Component>, name: string): (r: Option<Component>)
    ensures r.Some? ==> r.value in cs && r.value.Name() == name
    ensures r.None? ==> forall i :: 0 <= i < |cs| ==> cs[i].Name() != name
  {
    if |cs| == 0 then None
    else if cs[0].Name() == name then Some(cs[0])
    else ChildNamed(cs[1..], name)
  }

  /** _v_add_: a child of the same name is replaced, else the child is
      inserted at its place in name order. */
  function InsertChild(cs: seq<Component>, x: Component): (r: seq<Component>)
    requires Sorted(cs)
    ensures Sorted(r)
    ensures x in r
    ensures forall y :: y in r ==> y == x || y in cs
    ensures forall y :: y in cs && y.Name() != x.Name() ==> y in r
    ensures |r| == |cs| + (if ChildNamed(cs, x.Name()).Some? then 0 else 1)
    decreases cs
  {
    if |cs| == 0 then [x]
    else if cs[0].Name() == x.Name() then
      BeforeTotal(x.Name(), x.Name());
      [x] + cs[1..]
    else if Before(x.Name(), cs[0].Name()) then
      InsertFront(cs, x);
      [x] + cs
    else
      BeforeTotal(x.Name(), cs[0].Name());
      var rest := InsertChild(cs[1..], x);
      InsertBehind(cs, x, rest);
      [cs[0]] + rest
  }

  /** A child named before the first child goes in front, and no child has
      its name. */
  lemma InsertFront(cs: seq<Component>, x: Component)
    requires Sorted(cs) && |cs| > 0 && Before(x.Name(), cs[0].Name())
    ensures Sorted([x] + cs) && ChildNamed(cs, x.Name()).None?
  {
    forall j | 0 <= j < |cs|
      ensures Before(x.Name(), cs[j].Name()) && cs[j].Name() != x.Name()
    {
      if j > 0 { BeforeTransitive(x.Name(), cs[0].Name(), cs[j].Name()); }
      BeforeTotal(x.Name(), cs[j].Name());
    }
  }

  /** The first child stays in front of a sorted insertion into the rest
      when it is named before the inserted child. */
  lemma InsertBehind(cs: seq<Component>, x: Component, rest: seq<Component>)
    requires Sorted(cs) && |cs| > 0 && Before(cs[0].Name(), x.Name())
    requires Sorted(rest) && forall y :: y in rest ==> y == x || y in cs[1..]
    ensures Sorted([cs[0]] + rest)
  {
    forall j | 0 <= j < |rest|
      ensures Before(cs[0].Name(), rest[j].Name())
    {
      assert rest[j] in rest;
    }
  }

  /** add: the component gains (or replaces) the child of that name and
      returns the component it was given; a decorator adds to the component
      it wraps. */
  function Add(c: Component, x: Component): (r: (Component, Component))
    requires Wellformed(c)
    ensures r.1 == x
    ensures Wellformed(r.0) && r.0.Name() == c.Name()
    ensures Holder(r.0).Index? && x in Holder(r.0).children
    ensures forall y :: y in Holder(c).children && y.Name() != x.Name() ==> y in Holder(r.0).children
    ensures forall y :: y in Holder(r.0).children ==> y == x || y in Holder(c).children
  {
    match c
    case Index(_, _, _, _, _, _, _, _, children) =>
      (c.(children := InsertChild(children, x)), x)
    case Decorated(inner, _, _) =>
      (c.(inner := Add(inner, x).0), x)
  }

  /** The index component a chain of decorators ends in: the one whose map
      holds the children. */
  function Holder(c: Component): (r: Component)
    ensures r.Index?
  {
    if c.Index? then c else Holder(c.inner)
  }

  /** Every child map in the tree is ordered by name. */
  predicate Wellformed(c: Component)
  {
    match c
    case Index(_, _, _, _, _, _, _, _, children) => Sorted(children)
    case Decorated(inner, _, _) => Wellformed(inner)
  }

  // ----- node lookup --------------------------------------------------------------

  /** A proper descendant of c carries the name. */
  predicate NamedBelow(c: Component, name: string)
  {
    match c
    case Index(_, _, _, _, _, _, _, _, children) =>
      exists i :: 0 <= i < |children| && (children[i].Name() == name || NamedBelow(children[i], name))
    case Decorated(inner, _, _) => NamedBelow(inner, name)
  }

  /** The node pull_node is meant to find: a direct child of that name,
      else the first match in the children's subtrees, in map order. */
  function FirstMatch(c: Component, name: string): (r: Option<Component>)
    ensures r.Some? ==> r.value.Name() == name
    ensures r.Some? <==> NamedBelow(c, name)
    decreases c
  {
    match c
    case Index(_, _, _, _, _, _, _, _, children) =>
      (match ChildNamed(children, name)
       case Some(x) => Some(x)
       case None => FirstMatchAll(children, name))
    case Decorated(inner, _, _) => FirstMatch(inner, name)
  }

  function FirstMatchAll(cs: seq<Component>, name: string): (r: Option<Component>)
    ensures r.Some? ==> r.value.Name() == name
    ensures r.Some? <==> exists i :: 0 <= i < |cs| && NamedBelow(cs[i], name)
    decreases cs
  {
    if |cs| == 0 then None
    else
      var m := FirstMatch(cs[0], name);
      if m.Some? then m
      else
        var rest := FirstMatchAll(cs[1..], name);
        assert forall i :: 1 <= i < |cs| ==> cs[i] == cs[1..][i - 1];
        rest
  }

  /** _v_pull_node_ as written: an index component returns at once when
      the output is already set, takes a direct child of that name, and
      otherwise lets every child pull in turn; a decorator overwrites the
      output with its wrapped component's node(name), whatever the output
      held before. */
  function PullNodeAsWritten(c: Component, name: string, output: Option<Component>): Option<Component>
    decreases c
  {
    match c
    case Index(_, _, _, _, _, _, _, _, children) =>
      if output.Some? then output
      else
        (match ChildNamed(children, name)
         case Some(x) => Some(x)
         case None => PullAllAsWritten(children, name, output))
    case Decorated(inner, _, _) =>
      if name == "" then None else PullNodeAsWritten(inner, name, None)
  }

  function PullAllAsWritten(cs: seq<Component>, name: string, output: Option<Component>): Option<Component>
    decreases cs
  {
    if |cs| == 0 then output
    else PullAllAsWritten(cs[1..], name, PullNodeAsWritten(cs[0], name, output))
  }

  /** node(name) as written. */
  function NodeAsWritten(c: Component, name: string): Option<Component>
  {
    if name == "" then None else PullNodeAsWritten(c, name, None)
  }

  /** A head whose first child holds "x" and whose second child is a
      decorator: the decorator, pulled after the match, resets the output,
      so node("x") comes back empty although "x" is in the tree. */
  lemma DecoratorDropsEarlierMatch()
    ensures var x := Index("labels", "x", NoInit, None, None, false, false, [], []);
            var a := Index("labels", "a", NoInit, None, None, false, false, [], [x]);
            var b := Decorated(Index("offsets", "b", NoInit, None, None, false, false, [], []),
                               false, SliceWindow(0, 0, 0));
            var head := Index("head", "head", NoInit, None, None, true, false, [], [a, b]);
            Wellformed(head) && FirstMatch(head, "x") == Some(x) && NodeAsWritten(head, "x").None?
  {
    var x := Index("labels", "x", NoInit, None, None, false, false, [], []);
    var a := Index("labels", "a", NoInit, None, None, false, false, [], [x]);
    var b := Decorated(Index("offsets", "b", NoInit, None, None, false, false, [], []),
                       false, SliceWindow(0, 0, 0));
    var head := Index("head", "head", NoInit, None, None, true, false, [], [a, b]);
    assert Before(a.Name(), b.Name());
    assert ChildNamed([a, b], "x").None?;
    assert ChildNamed([x], "x") == Some(x);
    assert PullNodeAsWritten(a, "x", None) == Some(x);
    assert PullNodeAsWritten(b, "x", Some(x)).None?;
    assert FirstMatch(a, "x") == Some(x);
    assert FirstMatchAll([a, b], "x") == Some(x);
  }

  /** pull_node with the decorator keeping an output that is already set:
      the first match wins and is never overwritten. */
  function PullNode(c: Component, name: string, output: Option<Component>): (r: Option<Component>)
    ensures output.Some? ==> r == output
    ensures output.None? ==> r == FirstMatch(c, name)
    decreases c
  {
    match c
    case Index(_, _, _, _, _, _, _, _, children) =>
      if output.Some? then output
      else
        (match ChildNamed(children, name)
         case Some(x) => Some(x)
         case None => PullAll(children, name, output))
    case Decorated(inner, _, _) =>
      if output.Some? then output else PullNode(inner, name, None)
  }

  function PullAll(cs: seq<Component>, name: string, output: Option<Component>): (r: Option<Component>)
    ensures output.Some? ==> r == output
    ensures output.None? ==> r == FirstMatchAll(cs, name)
    decreases cs
  {
    if |cs| == 0 then output
    else PullAll(cs[1..], name, PullNode(cs[0], name, output))
  }

  /** node(name): nothing for the empty name, else the first match. */
  function Node(c: Component, name: string): (r: Option<Component>)
    ensures name == "" ==> r.None?
    ensures name != "" ==> r == FirstMatch(c, name)
    ensures r.Some? ==> r.value.Name() == name && NamedBelow(c, name)
  {
    if name == "" then None else PullNode(c, name, None)
  }

  /** parent_name: the parent's name, or empty without a parent. */
  function ParentName(parent: Option<Component>): (r: string)
    ensures parent.None? ==> r == ""
    ensures parent.Some? ==> r == parent.value.Name()
  {
    if parent.Some? then parent.value.Name() else ""
  }

  /** parent_component_of: the node named as the component's parent, or
      the asking component itself when no node has that name. */
  function ParentComponentOf(c: Component, parentName: string): (r: Component)
    ensures parentName == "" || !NamedBelow(c, parentName) ==> r == c
    ensures parentName != "" && NamedBelow(c, parentName) ==> r.Name() == parentName
  {
    match Node(c, parentName)
    case Some(p) => p
    case None => c
  }
}
