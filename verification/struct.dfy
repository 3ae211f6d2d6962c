/** The `Struct` constructor (arraybuffer-struct.js:134-211): a fresh
    construction flattens the field specification, plans the layout, creates
    the view, writes each leaf's initial value and binds its accessors; a
    construction from a captured `{layout, view, useTypedArray}` only binds
    (lines 138-147). */
module Struct {
  import opened Common
  import opened Arith
  import opened Kinds
  import opened TypeTag
  import opened Values
  import opened Fields
  import opened Planner
  import opened Codec
  import opened Binder

  /** The constructor's options that matter to the model, with the source's
      defaults in `Defaults`. `shared` only chooses the buffer's constructor. */
  datatype Options = Options(
    utf8FixedSize: bool, layoutOpt: bool, align: bool, useTypedArray: bool,
    buffer: Option<seq<byte>>, byteOffset: nat)

  function Defaults(): Options {
    Options(true, false, true, true, None, 0)
  }

  /** A `Struct` instance: `layout`, `view`, `useTypedArray` and `data`. */
  datatype Instance = Instance(layout: seq<LayoutEntry>, view: View, useTypedArray: bool, data: Node)

  /** Lines 180-182: a view of `total` bytes over the caller's buffer from
      `byteOffset`, or over a fresh zero-filled buffer of exactly that size.
      The DataView constructor throws a RangeError when the view would end
      past the buffer. */
  function MakeView(buffer: Option<seq<byte>>, byteOffset: nat, total: nat): (r: Result<View>)
    ensures r.Err? <==> buffer.Some? && byteOffset + total > |buffer.value|
    ensures r.Err? ==> r.error == OutOfBounds
    ensures r.Ok? ==> r.value.Valid() && r.value.len == total
    ensures r.Ok? && buffer.Some? ==> r.value.buf == buffer.value && r.value.base == byteOffset
    ensures r.Ok? && buffer.None? ==> r.value.base == 0 && r.value.buf == Zeros(total)
  {
    match buffer
    case None => Ok(View(Zeros(total), 0, total))
    case Some(b) => if byteOffset + total > |b| then Err(OutOfBounds) else Ok(View(b, byteOffset, total))
  }

  /** Lines 186-209 for one entry: nothing for an `undefined` or `null`
      value; the bulk write for an array leaf, whose text width is the
      innermost dimension; the DataView setter for a scalar. Float scalars
      are written with IEEE-754 encodings, which the model leaves out, so
      their bytes are kept. */
  function InitEntry(v: View, e: LayoutEntry, x: Value, fixed: bool): (r: Result<View>)
    requires v.Valid()
    ensures r.Ok? ==> r.value.Valid() && r.value.base == v.base && r.value.len == v.len
    ensures r.Ok? ==> |r.value.buf| == |v.buf|
    ensures Nullish(x) ==> r == Ok(v)
  {
    if Nullish(x) then Ok(v)
    else if |e.dims| > 0 then
      var b :- InitArray(v, e.kind, e.offset, e.length, Last(e.dims), x, fixed);
      Ok(View(b, v.base, v.len))
    else if e.kind.IsFloat() then Ok(v)
    else SetScalar(v, e.kind, e.offset, x)
  }

  /** Lines 185-211: per entry, the initial value is written and then the
      accessors are defined, so the first failing step of either kind ends
      the construction with its error. */
  function Populate(v: View, es: seq<LayoutEntry>, xs: seq<Value>, fixed: bool, useTyped: bool, t: Node)
    : (r: Result<(View, Node)>)
    requires v.Valid() && |es| == |xs| && t.Obj?
    ensures r.Ok? ==> r.value.0.Valid() && r.value.0.base == v.base && r.value.0.len == v.len
    ensures r.Ok? ==> |r.value.0.buf| == |v.buf|
    decreases |es|
  {
    if |es| == 0 then Ok((v, t))
    else
      var w :- InitEntry(v, es[0], xs[0], fixed);
      var leaf :- DefineLeaf(Frame(v.base, |v.buf|), es[0], useTyped);
      Populate(w, es[1..], xs[1..], fixed, useTyped, Define(t, es[0].name, es[0].flags, leaf))
  }

  /** The initial values of the leaves, in layout order. */
  function Inits(items: seq<Item>): (r: seq<Value>)
    ensures |r| == |items| && forall i :: 0 <= i < |items| ==> r[i] == items[i].init
  {
    seq(|items|, i requires 0 <= i < |items| => items[i].init)
  }

  /** The leaves in the order the planner walks them. */
  function Planned(fields: seq<Field>, opts: Options): seq<Item>
    requires TagsParse(fields)
  {
    Order(Flatten(fields, [], []).value, PlanOptions(opts.layoutOpt, opts.align))
  }

  /** A fresh construction (lines 149-211). A failure is its error alone:
      bytes already written into a caller's buffer are not part of it. */
  function Construct(fields: seq<Field>, opts: Options): (r: Result<Instance>)
    ensures !TagsParse(fields) ==> r.Err? && r.error.UnknownType?
    ensures r.Ok? ==> TagsParse(fields) && r.value.useTypedArray == opts.useTypedArray
    ensures r.Ok? ==> r.value.layout == Place(Planned(fields, opts), opts.align, 0).0
    ensures r.Ok? ==> r.value.view.Valid() && r.value.view.len == Place(Planned(fields, opts), opts.align, 0).1
  {
    var items :- Flatten(fields, [], []);
    var order := Order(items, PlanOptions(opts.layoutOpt, opts.align));
    var placed := Place(order, opts.align, 0);
    var v :- MakeView(opts.buffer, opts.byteOffset, placed.1);
    var p :- Populate(v, placed.0, Inits(order), opts.utf8FixedSize, opts.useTypedArray, Obj(false, []));
    Ok(Instance(placed.0, p.0, opts.useTypedArray, p.1))
  }

  /** The rebuild branch (lines 138-147): the captured layout is bound over
      the given view as it stands, without planning or writing. Success
      needs every entry's accessor; when the paths are apart, as in every
      layout a construction captures, that is also enough. */
  function Rebuild(layout: seq<LayoutEntry>, view: View, useTyped: bool): (r: Result<Instance>)
    ensures r.Ok? ==> forall i :: 0 <= i < |layout| ==> DefineLeaf(Frame(view.base, |view.buf|), layout[i], useTyped).Ok?
    ensures EntriesApart(layout) ==>
      (r.Ok? <==> forall i :: 0 <= i < |layout| ==> DefineLeaf(Frame(view.base, |view.buf|), layout[i], useTyped).Ok?)
    ensures r.Ok? ==> r.value.layout == layout && r.value.view == view && r.value.useTypedArray == useTyped
  {
    var data :- Bind(layout, Frame(view.base, |view.buf|), useTyped);
    Ok(Instance(layout, view, useTyped, data))
  }

  // ---------------------------------------------------------------------
  // Rebuilding agrees with the construction
  // ---------------------------------------------------------------------

  /** Writing initial values does not change the binding: the tree a
      population builds is the tree binding its entries builds. */
  lemma {:induction false} PopulateBinds(v: View, es: seq<LayoutEntry>, xs: seq<Value>, fixed: bool, useTyped: bool, t: Node)
    requires v.Valid() && |es| == |xs| && t.Obj?
    requires Populate(v, es, xs, fixed, useTyped, t).Ok?
    ensures BindFrom(es, Frame(v.base, |v.buf|), useTyped, t) == Ok(Populate(v, es, xs, fixed, useTyped, t).value.1)
    decreases |es|
  {
    if |es| > 0 {
      var w := InitEntry(v, es[0], xs[0], fixed).value;
      var leaf := DefineLeaf(Frame(v.base, |v.buf|), es[0], useTyped).value;
      PopulateBinds(w, es[1..], xs[1..], fixed, useTyped, Define(t, es[0].name, es[0].flags, leaf));
    }
  }

  /** A second context that rebuilds from the captured layout and view gets
      exactly the accessor tree of the instance that planned them. */
  lemma RebuildAgrees(fields: seq<Field>, opts: Options)
    requires Construct(fields, opts).Ok?
    ensures var s := Construct(fields, opts).value;
      Rebuild(s.layout, s.view, s.useTypedArray) == Ok(s)
  {
    var items := Flatten(fields, [], []).value;
    var order := Order(items, PlanOptions(opts.layoutOpt, opts.align));
    var placed := Place(order, opts.align, 0);
    var v := MakeView(opts.buffer, opts.byteOffset, placed.1).value;
    PopulateBinds(v, placed.0, Inits(order), opts.utf8FixedSize, opts.useTypedArray, Obj(false, []));
  }

  // ---------------------------------------------------------------------
  // The layout of a construction
  // ---------------------------------------------------------------------

  /** Each planned leaf is a leaf of the specification, with a consistent
      parsed type and one array flag per name segment. */
  lemma PlannedItem(fields: seq<Field>, opts: Options, i: nat)
    requires TagsParse(fields) && i < |Planned(fields, opts)|
    ensures Planned(fields, opts)[i] in Flatten(fields, [], []).value
    ensures Planned(fields, opts)[i].info.Valid()
    ensures |Planned(fields, opts)[i].name| == |Planned(fields, opts)[i].flags| >= 1
  {
    var items := Flatten(fields, [], []).value;
    var order := Planned(fields, opts);
    assert order[i] in multiset(order);
  }

  /** Entry `i` of a construction records planned leaf `i`: its name path,
      flags, kind and shape, a length that is the product of its dimensions,
      and a byte range inside the view. */
  lemma ConstructEntry(fields: seq<Field>, opts: Options, i: nat)
    requires Construct(fields, opts).Ok?
    ensures var s := Construct(fields, opts).value;
      |s.layout| == |Planned(fields, opts)| == |Flatten(fields, [], []).value|
      && (i < |s.layout| ==>
        Describes(s.layout[i], Planned(fields, opts)[i])
        && |s.layout[i].name| == |s.layout[i].flags| >= 1
        && s.layout[i].length == Product(s.layout[i].dims)
        && s.layout[i].offset + s.layout[i].TotalSize() <= s.view.len)
  {
    var order := Planned(fields, opts);
    assert multiset(order) == multiset(Flatten(fields, [], []).value);
    assert |multiset(order)| == |order|;
    if i < |order| {
      PlannedItem(fields, opts, i);
      PlaceEntry(order, opts.align, 0, i);
    }
  }

  /** A construction has one entry per leaf of the specification, and
      entry `i` is the leaf its name path leads to: the tag there parses to
      the entry's kind and shape, and the entry's array flags are the
      records' `isArray` on the way down followed by whether the leaf's
      initial value is an array. */
  lemma ConstructLeaf(fields: seq<Field>, opts: Options, i: nat)
    requires Construct(fields, opts).Ok? && UniqueNames(fields)
    requires i < |Construct(fields, opts).value.layout|
    ensures |Construct(fields, opts).value.layout| == LeafCount(fields)
    ensures var e := Construct(fields, opts).value.layout[i];
      var f := LeafAt(fields, e.name);
      f.Some? && ParseType(f.value.tag).Ok?
      && ParseType(f.value.tag).value.kind == e.kind && ParseType(f.value.tag).value.dims == e.dims
      && f.value.arrays == e.flags
  {
    ConstructEntry(fields, opts, i);
    FlattenCount(fields, [], []);
    PlannedItem(fields, opts, i);
    var it := Planned(fields, opts)[i];
    FlattenLeafAt(fields, [], [], it);
    assert it.name[0..] == it.name && it.flags[0..] == it.flags;
  }

  /** Conversely, every leaf of the specification has an entry at its
      name path. */
  lemma ConstructCovers(fields: seq<Field>, opts: Options, path: seq<string>)
    requires Construct(fields, opts).Ok? && LeafAt(fields, path).Some?
    ensures exists i :: (0 <= i < |Construct(fields, opts).value.layout|
                         && Construct(fields, opts).value.layout[i].name == path)
  {
    var items := Flatten(fields, [], []).value;
    var order := Planned(fields, opts);
    FlattenCovers(fields, [], [], path);
    var it :| it in items && it.name == [] + path;
    assert it in multiset(order);
    var i :| 0 <= i < |order| && order[i] == it;
    ConstructEntry(fields, opts, i);
  }

  /** The entries of a construction lie in layout order and their byte
      ranges do not overlap. */
  lemma ConstructDisjoint(fields: seq<Field>, opts: Options, i: nat, j: nat)
    requires Construct(fields, opts).Ok?
    requires i < j < |Construct(fields, opts).value.layout|
    ensures var s := Construct(fields, opts).value;
      s.layout[i].offset + s.layout[i].TotalSize() <= s.layout[j].offset
  {
    var order := Planned(fields, opts);
    ConstructEntry(fields, opts, i);
    PlannedItem(fields, opts, i);
    PlaceOrdered(order, opts.align, 0, i, j);
  }

  /** With `align` on, every entry's offset is a multiple of its element size. */
  lemma ConstructAligned(fields: seq<Field>, opts: Options, i: nat)
    requires Construct(fields, opts).Ok? && opts.align
    requires i < |Construct(fields, opts).value.layout|
    ensures var e := Construct(fields, opts).value.layout[i];
      e.kind.AlignsAt(e.offset)
  {
    var order := Planned(fields, opts);
    ConstructEntry(fields, opts, i);
    PlannedItem(fields, opts, i);
    PlaceAligned(order, 0, i);
  }

  /** The view is exactly as long as the last entry's end, with no trailing
      padding. */
  lemma ConstructLength(fields: seq<Field>, opts: Options)
    requires Construct(fields, opts).Ok?
    ensures var s := Construct(fields, opts).value;
      s.view.len == (if |s.layout| == 0 then 0
                     else s.layout[|s.layout| - 1].offset + s.layout[|s.layout| - 1].TotalSize())
  {
    PlannedLength(fields, opts);
    var s := Construct(fields, opts).value;
    var r := Place(Planned(fields, opts), opts.align, 0);
    assert s.layout == r.0 && s.view.len == r.1;
  }

  /** The planned walk's final cursor is the end of its last entry. */
  lemma PlannedLength(fields: seq<Field>, opts: Options)
    requires TagsParse(fields)
    ensures var r := Place(Planned(fields, opts), opts.align, 0);
      r.1 == (if |r.0| == 0 then 0 else r.0[|r.0| - 1].offset + r.0[|r.0| - 1].TotalSize())
  {
    PlannedValid(fields, opts);
    PlaceLength(Planned(fields, opts), opts.align);
  }

  /** Every planned leaf carries a consistent parsed type. */
  lemma PlannedValid(fields: seq<Field>, opts: Options)
    requires TagsParse(fields)
    ensures forall i :: 0 <= i < |Planned(fields, opts)| ==> Planned(fields, opts)[i].info.Valid()
  {
    var items := Flatten(fields, [], []).value;
    var order := Planned(fields, opts);
    forall i | 0 <= i < |order| ensures order[i].info.Valid() {
      assert order[i] in multiset(items);
    }
  }

  /** With `align` off the view's length is the sum of the leaves' total
      sizes. */
  lemma ConstructPacked(fields: seq<Field>, opts: Options)
    requires Construct(fields, opts).Ok? && !opts.align
    ensures Construct(fields, opts).value.view.len == SumSizes(Planned(fields, opts))
  {
    PlacePackedTotal(Planned(fields, opts), 0);
  }

  /** The walk's final cursor is the end of its last entry. */
  lemma PlaceLength(order: seq<Item>, align: bool)
    requires |order| > 0 ==> order[|order| - 1].info.Valid()
    ensures var r := Place(order, align, 0);
      r.1 == (if |r.0| == 0 then 0 else r.0[|r.0| - 1].offset + r.0[|r.0| - 1].TotalSize())
  {
    PlaceExact(order, align, 0);
    if |order| > 0 {
      PlaceEntry(order, align, 0, |order| - 1);
    }
  }

  /** When the specification's property names are unique in every object,
      no entry's name path is a prefix of another's. */
  lemma ConstructApart(fields: seq<Field>, opts: Options)
    requires Construct(fields, opts).Ok? && UniqueNames(fields)
    ensures EntriesApart(Construct(fields, opts).value.layout)
  {
    var s := Construct(fields, opts).value;
    var items := Flatten(fields, [], []).value;
    var order := Planned(fields, opts);
    if opts.layoutOpt {
      SortApart(items);
    }
    forall i, j | 0 <= i < j < |s.layout| ensures Apart(s.layout[i].name, s.layout[j].name) {
      PlaceEntry(order, opts.align, 0, i);
      PlaceEntry(order, opts.align, 0, j);
    }
  }

  /** Every entry's accessor is reached in `data` by following its name path. */
  lemma ConstructResolves(fields: seq<Field>, opts: Options, i: nat)
    requires Construct(fields, opts).Ok? && UniqueNames(fields)
    requires i < |Construct(fields, opts).value.layout|
    ensures var s := Construct(fields, opts).value;
      DefineLeaf(Frame(s.view.base, |s.view.buf|), s.layout[i], s.useTypedArray).Ok?
      && Resolve(s.data, s.layout[i].name)
         == Some(DefineLeaf(Frame(s.view.base, |s.view.buf|), s.layout[i], s.useTypedArray).value)
  {
    var s := Construct(fields, opts).value;
    RebuildAgrees(fields, opts);
    ConstructApart(fields, opts);
    forall j | 0 <= j < |s.layout| ensures |s.layout[j].name| >= 1 {
      ConstructEntry(fields, opts, j);
    }
    BindResolves(s.layout, Frame(s.view.base, |s.view.buf|), s.useTypedArray, i);
  }

  // ---------------------------------------------------------------------
  // What the initial writes touch
  // ---------------------------------------------------------------------

  /** Every entry's length is the product of its dimensions. */
  predicate Consistent(es: seq<LayoutEntry>) {
    forall j :: 0 <= j < |es| ==> es[j].length == Product(es[j].dims)
  }

  /** Entries in layout order whose byte ranges do not overlap. */
  predicate Ordered(es: seq<LayoutEntry>) {
    forall i, j :: 0 <= i < j < |es| ==> es[i].offset + es[i].TotalSize() <= es[j].offset
  }

  /** The buffer window `[lo, hi)` lies outside entry `e` of a view at `base`. */
  predicate Outside(e: LayoutEntry, base: nat, lo: nat, hi: nat) {
    hi <= base + e.offset || base + e.offset + e.TotalSize() <= lo
  }

  /** Writing an entry's initial value changes only bytes inside the entry. */
  lemma InitEntryFrame(v: View, e: LayoutEntry, x: Value, fixed: bool, lo: nat, hi: nat)
    requires v.Valid() && InitEntry(v, e, x, fixed).Ok?
    requires e.length == Product(e.dims) && lo <= hi <= |v.buf| && Outside(e, v.base, lo, hi)
    ensures InitEntry(v, e, x, fixed).value.buf[lo..hi] == v.buf[lo..hi]
  {
    var at := v.base + e.offset;
    if Nullish(x) {
    } else if |e.dims| > 0 {
      InitArrayFrame(v, e.offset, e.kind, e.length, Last(e.dims), x, fixed, lo, hi);
      assert e.TotalSize() == e.length * e.kind.Size();
    } else if !e.kind.IsFloat() {
      SpliceFrame(v.buf, at, EncodeScalar(e.kind, x), lo, hi);
    }
  }

  /** An array's initial value is written inside its `length` elements. */
  lemma InitArrayFrame(v: View, off: nat, k: Kind, length: nat, width: nat, x: Value, fixed: bool, lo: nat, hi: nat)
    requires v.Valid() && InitArray(v, k, off, length, width, x, fixed).Ok?
    requires lo <= hi <= |v.buf| && (hi <= v.base + off || v.base + off + length * k.Size() <= lo)
    ensures InitArray(v, k, off, length, width, x, fixed).value[lo..hi] == v.buf[lo..hi]
  {
    if k.Utf8? {
      SpliceFrame(v.buf, v.base + off, InitText(Input(x), width, fixed).value, lo, hi);
    } else if !k.IsFloat() {
      MulLe(|Input(x)|, length, k.Size());
      WriteElemsFrame(v.buf, k, v.base + off, Input(x), lo, hi);
    }
  }

  /** The population changes no byte outside every entry. */
  lemma {:induction false} PopulateFrame(v: View, es: seq<LayoutEntry>, xs: seq<Value>, fixed: bool, useTyped: bool, t: Node, lo: nat, hi: nat)
    requires v.Valid() && |es| == |xs| && t.Obj? && Populate(v, es, xs, fixed, useTyped, t).Ok?
    requires Consistent(es) && lo <= hi <= |v.buf|
    requires forall j :: 0 <= j < |es| ==> Outside(es[j], v.base, lo, hi)
    ensures Populate(v, es, xs, fixed, useTyped, t).value.0.buf[lo..hi] == v.buf[lo..hi]
    decreases |es|
  {
    if |es| > 0 {
      var w := InitEntry(v, es[0], xs[0], fixed).value;
      var leaf := DefineLeaf(Frame(v.base, |v.buf|), es[0], useTyped).value;
      InitEntryFrame(v, es[0], xs[0], fixed, lo, hi);
      assert Outside(es[0], v.base, lo, hi);
      assert forall j :: 0 <= j < |es[1..]| ==> es[1..][j] == es[j + 1];
      PopulateFrame(w, es[1..], xs[1..], fixed, useTyped, Define(t, es[0].name, es[0].flags, leaf), lo, hi);
    }
  }

  /** After the population, a scalar entry with an initial value reads what
      its setter stored, since later entries do not overlap it. */
  lemma {:induction false} PopulateScalar(v: View, es: seq<LayoutEntry>, xs: seq<Value>, fixed: bool, useTyped: bool, t: Node, i: nat)
    requires v.Valid() && |es| == |xs| && t.Obj? && Populate(v, es, xs, fixed, useTyped, t).Ok?
    requires Consistent(es) && Ordered(es) && i < |es|
    requires |es[i].dims| == 0 && !es[i].kind.IsFloat() && !Nullish(xs[i])
    ensures GetScalar(Populate(v, es, xs, fixed, useTyped, t).value.0, es[i].kind, es[i].offset)
      == Ok(Stored(es[i].kind, xs[i]))
    decreases |es|
  {
    var w := InitEntry(v, es[0], xs[0], fixed).value;
    var leaf := DefineLeaf(Frame(v.base, |v.buf|), es[0], useTyped).value;
    var t1 := Define(t, es[0].name, es[0].flags, leaf);
    PopulateTail(v, es, xs, fixed, useTyped, t);
    if i == 0 {
      PopulateScalarHead(v, es, xs, fixed, useTyped, t);
    } else {
      assert es[1..][i - 1] == es[i];
      PopulateScalar(w, es[1..], xs[1..], fixed, useTyped, t1, i - 1);
    }
  }

  /** One step of the population: the rest of the entries stay consistent
      and ordered, and are populated into the view the first one left. */
  lemma PopulateTail(v: View, es: seq<LayoutEntry>, xs: seq<Value>, fixed: bool, useTyped: bool, t: Node)
    requires v.Valid() && |es| == |xs| && t.Obj? && Populate(v, es, xs, fixed, useTyped, t).Ok?
    requires Consistent(es) && Ordered(es) && |es| > 0
    ensures InitEntry(v, es[0], xs[0], fixed).Ok? && DefineLeaf(Frame(v.base, |v.buf|), es[0], useTyped).Ok?
    ensures var w := InitEntry(v, es[0], xs[0], fixed).value;
      var t1 := Define(t, es[0].name, es[0].flags, DefineLeaf(Frame(v.base, |v.buf|), es[0], useTyped).value);
      w.Valid() && t1.Obj? && Consistent(es[1..]) && Ordered(es[1..])
      && Populate(v, es, xs, fixed, useTyped, t) == Populate(w, es[1..], xs[1..], fixed, useTyped, t1)
  {
    assert forall j :: 0 <= j < |es[1..]| ==> es[1..][j] == es[j + 1];
  }

  /** A leading scalar entry lies before every later entry. */
  lemma ScalarAhead(es: seq<LayoutEntry>, base: nat)
    requires Consistent(es) && Ordered(es) && |es| > 0 && |es[0].dims| == 0
    ensures forall j :: 0 <= j < |es[1..]| ==>
      Outside(es[1..][j], base, base + es[0].offset, base + es[0].offset + es[0].kind.Size())
  {
    assert es[0].length == 1;
    assert es[0].TotalSize() == es[0].kind.Size();
    forall j | 0 <= j < |es[1..]|
      ensures Outside(es[1..][j], base, base + es[0].offset, base + es[0].offset + es[0].kind.Size())
    {
      assert es[1..][j] == es[j + 1];
    }
  }

  /** A scalar entry's initial write reads back as the stored value. */
  lemma InitScalarReads(v: View, e: LayoutEntry, x: Value, fixed: bool)
    requires v.Valid() && |e.dims| == 0 && !e.kind.IsFloat() && !Nullish(x) && InitEntry(v, e, x, fixed).Ok?
    ensures GetScalar(InitEntry(v, e, x, fixed).value, e.kind, e.offset) == Ok(Stored(e.kind, x))
  {
    assert InitEntry(v, e, x, fixed) == SetScalar(v, e.kind, e.offset, x);
    ScalarSetGet(v, e.kind, e.offset, x);
  }

  /** The first entry of the population reads what its setter stored. */
  lemma PopulateScalarHead(v: View, es: seq<LayoutEntry>, xs: seq<Value>, fixed: bool, useTyped: bool, t: Node)
    requires v.Valid() && |es| == |xs| && t.Obj? && Populate(v, es, xs, fixed, useTyped, t).Ok?
    requires Consistent(es) && Ordered(es) && |es| > 0
    requires |es[0].dims| == 0 && !es[0].kind.IsFloat() && !Nullish(xs[0])
    ensures GetScalar(Populate(v, es, xs, fixed, useTyped, t).value.0, es[0].kind, es[0].offset)
      == Ok(Stored(es[0].kind, xs[0]))
  {
    var e := es[0];
    var w := InitEntry(v, e, xs[0], fixed).value;
    var t1 := Define(t, e.name, e.flags, DefineLeaf(Frame(v.base, |v.buf|), e, useTyped).value);
    PopulateTail(v, es, xs, fixed, useTyped, t);
    var u := Populate(w, es[1..], xs[1..], fixed, useTyped, t1).value.0;
    InitScalarReads(v, e, xs[0], fixed);
    ScalarAhead(es, w.base);
    PopulateFrame(w, es[1..], xs[1..], fixed, useTyped, t1, w.base + e.offset, w.base + e.offset + e.kind.Size());
    SameWindowRead(u, w, e.kind, e.offset);
  }

  /** Two views over equally long buffers at the same place read a scalar
      alike when its bytes agree. */
  lemma SameWindowRead(a: View, b: View, k: Kind, off: nat)
    requires a.Valid() && b.Valid() && !k.IsFloat() && a.base == b.base && a.len == b.len
    requires off + k.Size() <= a.len
    requires a.buf[a.base + off..a.base + off + k.Size()] == b.buf[b.base + off..b.base + off + k.Size()]
    ensures GetScalar(a, k, off) == GetScalar(b, k, off)
  {
  }

  /** The entries of a construction are consistent and in order. */
  lemma ConstructOrdered(fields: seq<Field>, opts: Options)
    requires Construct(fields, opts).Ok?
    ensures Consistent(Construct(fields, opts).value.layout)
    ensures Ordered(Construct(fields, opts).value.layout)
  {
    var s := Construct(fields, opts).value;
    forall j | 0 <= j < |s.layout| ensures s.layout[j].length == Product(s.layout[j].dims) {
      ConstructEntry(fields, opts, j);
    }
    forall i, j | 0 <= i < j < |s.layout| ensures s.layout[i].offset + s.layout[i].TotalSize() <= s.layout[j].offset {
      ConstructDisjoint(fields, opts, i, j);
    }
  }

  /** A scalar leaf with an initial value reads, right after construction,
      the value its setter stores (wrapped, truthy-tested or truncated to one
      byte as the kind says). */
  lemma ConstructScalar(fields: seq<Field>, opts: Options, i: nat)
    requires Construct(fields, opts).Ok?
    requires i < |Construct(fields, opts).value.layout|
    requires |Construct(fields, opts).value.layout[i].dims| == 0
    requires !Construct(fields, opts).value.layout[i].kind.IsFloat()
    requires !Nullish(Planned(fields, opts)[i].init)
    ensures var e := Construct(fields, opts).value.layout[i];
      GetScalar(Construct(fields, opts).value.view, e.kind, e.offset) == Ok(Stored(e.kind, Planned(fields, opts)[i].init))
  {
    var order := Planned(fields, opts);
    var placed := Place(order, opts.align, 0);
    var v := MakeView(opts.buffer, opts.byteOffset, placed.1).value;
    ConstructOrdered(fields, opts);
    PopulateScalar(v, placed.0, Inits(order), opts.utf8FixedSize, opts.useTypedArray, Obj(false, []), i);
  }

  /** Bytes outside every entry keep their contents: the caller's buffer
      outside the view, and the alignment padding, which in a fresh buffer
      stays zero. */
  lemma ConstructFrame(fields: seq<Field>, opts: Options, lo: nat, hi: nat)
    requires Construct(fields, opts).Ok?
    requires var s := Construct(fields, opts).value;
      lo <= hi <= |s.view.buf| && forall j :: 0 <= j < |s.layout| ==> Outside(s.layout[j], s.view.base, lo, hi)
    ensures var total := Place(Planned(fields, opts), opts.align, 0).1;
      Construct(fields, opts).value.view.buf[lo..hi] == MakeView(opts.buffer, opts.byteOffset, total).value.buf[lo..hi]
  {
    var order := Planned(fields, opts);
    var placed := Place(order, opts.align, 0);
    var v := MakeView(opts.buffer, opts.byteOffset, placed.1).value;
    ConstructOrdered(fields, opts);
    PopulateFrame(v, placed.0, Inits(order), opts.utf8FixedSize, opts.useTypedArray, Obj(false, []), lo, hi);
  }
}
