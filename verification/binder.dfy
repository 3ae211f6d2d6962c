/** The binder (arraybuffer-struct.js:228-304): `defineProperty` walks a
    layout entry's name path, creating a `{}` or `[]` per level, and hangs
    the leaf's accessor at the end; `defineArrayProperty` chooses between a
    whole-range view and per-element accessors; `defineReshape` cuts a
    multi-dimensional leaf into row windows. The JavaScript properties
    become the `Node` tree; each leaf records the addresses its accessors use. */
module Binder {
  import opened Common
  import opened Arith
  import opened Kinds
  import opened TypeTag
  import opened Fields
  import opened Planner

  /** A node of `Struct.data`. */
  datatype Node =
    | Obj(isArray: bool, members: seq<Member>)  // an intermediate `{}` or `[]`
    | Scalar(kind: Kind, off: nat)              // a DataView getter/setter pair at view offset `off`
    | TypedView(kind: Kind, at: nat, len: nat)  // a typed array over `len` elements at buffer position `at`
    | TextPair(at: nat, len: nat)               // the utf8 string getter/setter over the window at `at`
    | Elements(kind: Kind, off: nat, len: nat)  // a plain array whose element i accesses view offset off + i·size
    | Rows(rows: seq<Node>)                     // a plain array of rows, for a middle dimension
    | Shaped(rows: seq<Node>, flatView: Node)   // a multi-dimensional leaf: its rows and its `flatView`

  /** One property of an intermediate object, in definition order. */
  datatype Member = Member(name: string, node: Node)

  /** The part of the view the binder depends on: where the view starts in
      its buffer, and the buffer's length, against which typed arrays are
      checked. The buffer's contents play no part. */
  datatype Frame = Frame(base: nat, bufLen: nat)

  // ---------------------------------------------------------------------
  // Array leaves
  // ---------------------------------------------------------------------

  /** The condition of line 288: a whole-range view for utf8 always, and for
      every other kind with an `arrayLogic` when typed arrays are enabled. */
  predicate Typed(k: Kind, useTyped: bool) {
    (useTyped && k.HasArrayLogic()) || k.Utf8?
  }

  predicate IsArrayLeaf(n: Node) {
    n.TypedView? || n.TextPair? || n.Elements?
  }

  /** The buffer position of a leaf's first byte. */
  function Addr(f: Frame, n: Node): nat {
    match n
    case TypedView(_, at, _) => at
    case TextPair(at, _) => at
    case Elements(_, off, _) => f.base + off
    case Scalar(_, off) => f.base + off
    case _ => 0
  }

  /** The number of elements a leaf covers. */
  function Count(n: Node): nat {
    match n
    case TypedView(_, _, len) => len
    case TextPair(_, len) => len
    case Elements(_, _, len) => len
    case _ => 1
  }

  function KindOf(n: Node): Kind {
    match n
    case TypedView(k, _, _) => k
    case Elements(k, _, _) => k
    case Scalar(k, _) => k
    case _ => Utf8
  }

  /** `defineArrayProperty` for `len` elements at view offset `off`. The
      typed array is built at `byteOffset + off`; the host throws a
      RangeError when that position is not a multiple of the element size or
      the elements reach past the buffer's end. */
  function ArrayLeaf(f: Frame, k: Kind, off: nat, len: nat, useTyped: bool): (r: Result<Node>)
    ensures r.Err? <==>
      Typed(k, useTyped) && ((f.base + off) % k.Size() != 0 || f.base + off + len * k.Size() > f.bufLen)
    ensures r.Err? ==> r.error == if (f.base + off) % k.Size() != 0 then Misaligned else OutOfBounds
    ensures r.Ok? ==> IsArrayLeaf(r.value) && Addr(f, r.value) == f.base + off
    ensures r.Ok? ==> Count(r.value) == len && KindOf(r.value) == k
    ensures r.Ok? ==> (r.value.Elements? <==> !Typed(k, useTyped)) && (r.value.TextPair? <==> k.Utf8?)
  {
    if Typed(k, useTyped) then
      var at := f.base + off;
      if at % k.Size() != 0 then Err(Misaligned)
      else if at + len * k.Size() > f.bufLen then Err(OutOfBounds)
      else if k.Utf8? then Ok(TextPair(at, len))
      else Ok(TypedView(k, at, len))
    else Ok(Elements(k, off, len))
  }

  // ---------------------------------------------------------------------
  // Rows of a multi-dimensional leaf
  // ---------------------------------------------------------------------

  function Last(dims: seq<nat>): nat
    requires |dims| > 0
  {
    dims[|dims| - 1]
  }

  /** The number of rows below one element of the outermost dimension. */
  function Inner(dims: seq<nat>): nat
    requires |dims| >= 2
  {
    Product(dims[1..|dims| - 1])
  }

  /** `defineReshape`: `count` elements of the level whose extents are
      `dims` (outermost first), with the shared row counter `state.i` at `i`
      on entry. An element of the next-to-last level is a row window of
      `Last(dims)` elements starting `i` elements into the leaf; any other is
      a plain array of the next level. Returns the elements and the counter
      on exit. */
  function Reshape(f: Frame, k: Kind, off: nat, dims: seq<nat>, useTyped: bool, i: nat, count: nat)
    : (r: Result<(seq<Node>, nat)>)
    requires |dims| >= 2
    ensures r.Ok? ==> |r.value.0| == count
    decreases |dims|, count
  {
    if count == 0 then Ok(([], i))
    else if |dims| == 2 then
      var row :- ArrayLeaf(f, k, off + i * k.Size(), dims[1], useTyped);
      var rest :- Reshape(f, k, off, dims, useTyped, i + dims[1], count - 1);
      Ok(([row] + rest.0, rest.1))
    else
      var inner :- Reshape(f, k, off, dims[1..], useTyped, i, dims[1]);
      var rest :- Reshape(f, k, off, dims, useTyped, inner.1, count - 1);
      Ok(([Rows(inner.0)] + rest.0, rest.1))
  }

  /** One step of `Reshape` at the last level: a row, then the rest. */
  lemma ReshapeLastCons(f: Frame, k: Kind, off: nat, dims: seq<nat>, useTyped: bool, i: nat, count: nat)
    requires |dims| == 2 && count > 0 && Reshape(f, k, off, dims, useTyped, i, count).Ok?
    ensures ArrayLeaf(f, k, off + i * k.Size(), dims[1], useTyped).Ok?
    ensures Reshape(f, k, off, dims, useTyped, i + dims[1], count - 1).Ok?
    ensures Reshape(f, k, off, dims, useTyped, i, count).value.0
      == [ArrayLeaf(f, k, off + i * k.Size(), dims[1], useTyped).value]
         + Reshape(f, k, off, dims, useTyped, i + dims[1], count - 1).value.0
    ensures Reshape(f, k, off, dims, useTyped, i, count).value.1
      == Reshape(f, k, off, dims, useTyped, i + dims[1], count - 1).value.1
  {
  }

  /** One step of `Reshape` above the last level: a block of rows, then the rest. */
  lemma ReshapeUpperCons(f: Frame, k: Kind, off: nat, dims: seq<nat>, useTyped: bool, i: nat, count: nat)
    requires |dims| > 2 && count > 0 && Reshape(f, k, off, dims, useTyped, i, count).Ok?
    ensures Reshape(f, k, off, dims[1..], useTyped, i, dims[1]).Ok?
    ensures Reshape(f, k, off, dims, useTyped, Reshape(f, k, off, dims[1..], useTyped, i, dims[1]).value.1, count - 1).Ok?
    ensures Reshape(f, k, off, dims, useTyped, i, count).value.0
      == [Rows(Reshape(f, k, off, dims[1..], useTyped, i, dims[1]).value.0)]
         + Reshape(f, k, off, dims, useTyped, Reshape(f, k, off, dims[1..], useTyped, i, dims[1]).value.1, count - 1).value.0
    ensures Reshape(f, k, off, dims, useTyped, i, count).value.1
      == Reshape(f, k, off, dims, useTyped, Reshape(f, k, off, dims[1..], useTyped, i, dims[1]).value.1, count - 1).value.1
  {
  }

  lemma LastWidth(dims: seq<nat>)
    requires |dims| == 2
    ensures Product(dims[1..]) == dims[1]
  {
    assert dims[1..][1..] == [];
  }

  /** The shared counter advances by the elements of every row defined. */
  lemma {:induction false} ReshapeState(f: Frame, k: Kind, off: nat, dims: seq<nat>, useTyped: bool, i: nat, count: nat)
    requires |dims| >= 2 && Reshape(f, k, off, dims, useTyped, i, count).Ok?
    ensures Reshape(f, k, off, dims, useTyped, i, count).value.1 == i + count * Product(dims[1..])
    decreases |dims|, count
  {
    if count > 0 {
      var p := Product(dims[1..]);
      if |dims| == 2 {
        LastWidth(dims);
        ReshapeLastCons(f, k, off, dims, useTyped, i, count);
        ReshapeState(f, k, off, dims, useTyped, i + dims[1], count - 1);
      } else {
        assert p == dims[1] * Product(dims[1..][1..]);
        ReshapeUpperCons(f, k, off, dims, useTyped, i, count);
        ReshapeState(f, k, off, dims[1..], useTyped, i, dims[1]);
        ReshapeState(f, k, off, dims, useTyped, Reshape(f, k, off, dims[1..], useTyped, i, dims[1]).value.1, count - 1);
      }
      AddMul(count - 1, p);
    }
  }

  /** `Reshape` succeeds whenever every row it visits lies inside the
      buffer at an aligned position: it suffices that the leaf's first byte
      is aligned and the last row ends within the buffer. */
  lemma {:induction false} ReshapeOk(f: Frame, k: Kind, off: nat, dims: seq<nat>, useTyped: bool, i: nat, count: nat)
    requires |dims| >= 2
    requires Typed(k, useTyped) ==>
      (f.base + off) % k.Size() == 0 && f.base + off + (i + count * Product(dims[1..])) * k.Size() <= f.bufLen
    ensures Reshape(f, k, off, dims, useTyped, i, count).Ok?
    decreases |dims|, count, 1
  {
    if count > 0 {
      if |dims| == 2 {
        ReshapeOkLast(f, k, off, dims, useTyped, i, count);
      } else {
        ReshapeOkUpper(f, k, off, dims, useTyped, i, count);
      }
    }
  }

  lemma {:induction false} ReshapeOkLast(f: Frame, k: Kind, off: nat, dims: seq<nat>, useTyped: bool, i: nat, count: nat)
    requires |dims| == 2 && count > 0
    requires Typed(k, useTyped) ==>
      (f.base + off) % k.Size() == 0 && f.base + off + (i + count * Product(dims[1..])) * k.Size() <= f.bufLen
    ensures Reshape(f, k, off, dims, useTyped, i, count).Ok?
    decreases |dims|, count, 0
  {
    LastWidth(dims);
    if Typed(k, useTyped) {
      RowFits(f.base, off, i, dims[1], count, k.Size(), f.bufLen);
    }
    assert ArrayLeaf(f, k, off + i * k.Size(), dims[1], useTyped).Ok?;
    ReshapeOk(f, k, off, dims, useTyped, i + dims[1], count - 1);
  }

  lemma {:induction false} ReshapeOkUpper(f: Frame, k: Kind, off: nat, dims: seq<nat>, useTyped: bool, i: nat, count: nat)
    requires |dims| > 2 && count > 0
    requires Typed(k, useTyped) ==>
      (f.base + off) % k.Size() == 0 && f.base + off + (i + count * Product(dims[1..])) * k.Size() <= f.bufLen
    ensures Reshape(f, k, off, dims, useTyped, i, count).Ok?
    decreases |dims|, count, 0
  {
    var p := Product(dims[1..]);
    assert p == dims[1] * Product(dims[1..][1..]);
    if Typed(k, useTyped) {
      RowFits(f.base, off, i, p, count, k.Size(), f.bufLen);
    }
    ReshapeOk(f, k, off, dims[1..], useTyped, i, dims[1]);
    ReshapeState(f, k, off, dims[1..], useTyped, i, dims[1]);
    ReshapeOk(f, k, off, dims, useTyped, i + p, count - 1);
  }

  /** The arithmetic of one step of `ReshapeOk`: the block of `p` elements
      at element `i` is aligned and fits, and so do the remaining blocks. */
  lemma RowFits(base: nat, off: nat, i: nat, p: nat, count: nat, s: nat, bufLen: nat)
    requires s > 0 && count > 0 && (base + off) % s == 0 && base + off + (i + count * p) * s <= bufLen
    ensures (base + (off + i * s)) % s == 0
    ensures base + (off + i * s) + p * s <= bufLen
    ensures base + off + (i + p) * s <= bufLen
    ensures base + off + (i + p + (count - 1) * p) * s <= bufLen
  {
    MulNat(i, s);
    AlignedStep(base + off, i, s);
    AddMul(count - 1, p);
    MulNat(count - 1, p);
    MulLe(i + p, i + count * p, s);
    AddMulDistrib(i, p, s);
  }

  /** The row windows of a row tree, in row-major order. */
  function RowLeaves(rows: seq<Node>): seq<Node>
    decreases rows, 0
  {
    if |rows| == 0 then [] else RowLeavesOf(rows[0]) + RowLeaves(rows[1..])
  }

  function RowLeavesOf(n: Node): seq<Node>
    decreases n, 1
  {
    if n.Rows? then RowLeaves(n.rows) else [n]
  }

  lemma RowLeavesCons(n: Node, rows: seq<Node>)
    ensures RowLeaves([n] + rows) == RowLeavesOf(n) + RowLeaves(rows)
  {
    assert ([n] + rows)[1..] == rows;
  }

  /** A product splits off its last factor. */
  lemma {:induction false} ProductSnoc(dims: seq<nat>)
    requires |dims| > 0
    ensures Product(dims) == Product(dims[..|dims| - 1]) * Last(dims)
  {
    if |dims| > 1 {
      var init := dims[..|dims| - 1];
      var t := dims[1..];
      ProductSnoc(t);
      assert t[..|t| - 1] == init[1..];
      assert Product(init) == dims[0] * Product(init[1..]);
      MulAssoc(dims[0], Product(init[1..]), Last(dims));
    }
  }

  /** One element of the outermost level holds `Inner(dims)` rows of
      `Last(dims)` elements. */
  lemma InnerLast(dims: seq<nat>)
    requires |dims| >= 2
    ensures Product(dims[1..]) == Inner(dims) * Last(dims)
  {
    ProductSnoc(dims[1..]);
    assert dims[1..][..|dims| - 2] == dims[1..|dims| - 1];
  }

  lemma InnerStep(dims: seq<nat>)
    requires |dims| > 2
    ensures Inner(dims) == dims[1] * Inner(dims[1..])
    ensures Last(dims[1..]) == Last(dims)
  {
    assert dims[1..|dims| - 1][1..] == dims[2..|dims| - 1];
    assert dims[1..][1..|dims| - 2] == dims[2..|dims| - 1];
  }

  /** The rows of `count` elements number `count · Inner(dims)`. */
  lemma {:induction false} ReshapeRowCount(f: Frame, k: Kind, off: nat, dims: seq<nat>, useTyped: bool, i: nat, count: nat)
    requires |dims| >= 2 && Reshape(f, k, off, dims, useTyped, i, count).Ok?
    ensures |RowLeaves(Reshape(f, k, off, dims, useTyped, i, count).value.0)| == count * Inner(dims)
    decreases |dims|, count, 1
  {
    if count > 0 {
      if |dims| == 2 {
        RowCountLast(f, k, off, dims, useTyped, i, count);
      } else {
        RowCountUpper(f, k, off, dims, useTyped, i, count);
      }
      AddMul(count - 1, Inner(dims));
    }
  }

  lemma {:induction false} RowCountLast(f: Frame, k: Kind, off: nat, dims: seq<nat>, useTyped: bool, i: nat, count: nat)
    requires |dims| == 2 && count > 0 && Reshape(f, k, off, dims, useTyped, i, count).Ok?
    ensures |RowLeaves(Reshape(f, k, off, dims, useTyped, i, count).value.0)| == Inner(dims) + (count - 1) * Inner(dims)
    decreases |dims|, count, 0
  {
    var row := ArrayLeaf(f, k, off + i * k.Size(), dims[1], useTyped).value;
    var rest := Reshape(f, k, off, dims, useTyped, i + dims[1], count - 1).value.0;
    ReshapeLastCons(f, k, off, dims, useTyped, i, count);
    ReshapeRowCount(f, k, off, dims, useTyped, i + dims[1], count - 1);
    RowLeavesCons(row, rest);
    assert RowLeavesOf(row) == [row];
    assert dims[1..|dims| - 1] == [];
  }

  lemma {:induction false} RowCountUpper(f: Frame, k: Kind, off: nat, dims: seq<nat>, useTyped: bool, i: nat, count: nat)
    requires |dims| > 2 && count > 0 && Reshape(f, k, off, dims, useTyped, i, count).Ok?
    ensures |RowLeaves(Reshape(f, k, off, dims, useTyped, i, count).value.0)| == Inner(dims) + (count - 1) * Inner(dims)
    decreases |dims|, count, 0
  {
    var inner := Reshape(f, k, off, dims[1..], useTyped, i, dims[1]).value;
    var rest := Reshape(f, k, off, dims, useTyped, inner.1, count - 1).value.0;
    ReshapeUpperCons(f, k, off, dims, useTyped, i, count);
    ReshapeRowCount(f, k, off, dims[1..], useTyped, i, dims[1]);
    ReshapeRowCount(f, k, off, dims, useTyped, inner.1, count - 1);
    RowLeavesCons(Rows(inner.0), rest);
    InnerStep(dims);
  }

  /** Row `t` in row-major order is the window of `Last(dims)` elements that
      starts `i + t · Last(dims)` elements into the leaf. */
  lemma {:induction false} ReshapeRowAt(f: Frame, k: Kind, off: nat, dims: seq<nat>, useTyped: bool, i: nat, count: nat, t: nat)
    requires |dims| >= 2 && Reshape(f, k, off, dims, useTyped, i, count).Ok?
    requires t < count * Inner(dims)
    ensures |RowLeaves(Reshape(f, k, off, dims, useTyped, i, count).value.0)| == count * Inner(dims)
    ensures ArrayLeaf(f, k, off + (i + t * Last(dims)) * k.Size(), Last(dims), useTyped)
      == Ok(RowLeaves(Reshape(f, k, off, dims, useTyped, i, count).value.0)[t])
    decreases |dims|, count, 2
  {
    ReshapeRowCount(f, k, off, dims, useTyped, i, count);
    if |dims| == 2 {
      assert dims[1..|dims| - 1] == [];
      RowAtLastLevel(f, k, off, dims, useTyped, i, count, t, off + (i + t * Last(dims)) * k.Size());
    } else {
      RowAtUpperLevel(f, k, off, dims, useTyped, i, count, t);
    }
  }

  /** At the last level, with the row's byte offset `at` passed in. */
  lemma {:induction false} RowAtLastLevel(f: Frame, k: Kind, off: nat, dims: seq<nat>, useTyped: bool, i: nat, count: nat, t: nat, at: nat)
    requires |dims| == 2 && Reshape(f, k, off, dims, useTyped, i, count).Ok?
    requires t < count && at == off + (i + t * dims[1]) * k.Size()
    ensures |RowLeaves(Reshape(f, k, off, dims, useTyped, i, count).value.0)| == count
    ensures ArrayLeaf(f, k, at, dims[1], useTyped)
      == Ok(RowLeaves(Reshape(f, k, off, dims, useTyped, i, count).value.0)[t])
    decreases |dims|, count, 1
  {
    assert dims[1..|dims| - 1] == [];
    ReshapeRowCount(f, k, off, dims, useTyped, i, count);
    var row := ArrayLeaf(f, k, off + i * k.Size(), dims[1], useTyped).value;
    var rest := Reshape(f, k, off, dims, useTyped, i + dims[1], count - 1).value;
    ReshapeLastCons(f, k, off, dims, useTyped, i, count);
    RowLeavesCons(row, rest.0);
    assert RowLeavesOf(row) == [row];
    if t > 0 {
      RowAtLastTail(f, k, off, dims, useTyped, i, count, t, at);
    }
  }

  /** At the last level, row `t > 0` is row `t - 1` of the rows after the first. */
  lemma {:induction false} RowAtLastTail(f: Frame, k: Kind, off: nat, dims: seq<nat>, useTyped: bool, i: nat, count: nat, t: nat, at: nat)
    requires |dims| == 2 && Reshape(f, k, off, dims, useTyped, i, count).Ok?
    requires 0 < t < count && at == off + (i + t * dims[1]) * k.Size()
    ensures Reshape(f, k, off, dims, useTyped, i + dims[1], count - 1).Ok?
    ensures t - 1 < |RowLeaves(Reshape(f, k, off, dims, useTyped, i + dims[1], count - 1).value.0)|
    ensures ArrayLeaf(f, k, at, dims[1], useTyped)
      == Ok(RowLeaves(Reshape(f, k, off, dims, useTyped, i + dims[1], count - 1).value.0)[t - 1])
    decreases |dims|, count, 0
  {
    ReshapeLastCons(f, k, off, dims, useTyped, i, count);
    AddMul(t - 1, dims[1]);
    assert i + dims[1] + (t - 1) * dims[1] == i + t * dims[1];
    RowAtLastLevel(f, k, off, dims, useTyped, i + dims[1], count - 1, t - 1, at);
  }

  lemma {:induction false} RowAtUpperLevel(f: Frame, k: Kind, off: nat, dims: seq<nat>, useTyped: bool, i: nat, count: nat, t: nat)
    requires |dims| > 2 && Reshape(f, k, off, dims, useTyped, i, count).Ok?
    requires t < count * Inner(dims)
    ensures |RowLeaves(Reshape(f, k, off, dims, useTyped, i, count).value.0)| == count * Inner(dims)
    ensures ArrayLeaf(f, k, off + (i + t * Last(dims)) * k.Size(), Last(dims), useTyped)
      == Ok(RowLeaves(Reshape(f, k, off, dims, useTyped, i, count).value.0)[t])
    decreases |dims|, count, 1
  {
    ReshapeRowCount(f, k, off, dims, useTyped, i, count);
    var inner := Reshape(f, k, off, dims[1..], useTyped, i, dims[1]).value;
    var rest := Reshape(f, k, off, dims, useTyped, inner.1, count - 1).value;
    ReshapeUpperCons(f, k, off, dims, useTyped, i, count);
    RowLeavesCons(Rows(inner.0), rest.0);
    InnerStep(dims);
    ReshapeRowCount(f, k, off, dims[1..], useTyped, i, dims[1]);
    assert |RowLeaves(inner.0)| == Inner(dims);
    if t < Inner(dims) {
      ReshapeRowAt(f, k, off, dims[1..], useTyped, i, dims[1], t);
    } else {
      RowAtUpperTail(f, k, off, dims, useTyped, i, count, t);
    }
  }

  /** Above the last level, a row past the first block is a row of the
      blocks after it, shifted by the block's elements. */
  lemma {:induction false} RowAtUpperTail(f: Frame, k: Kind, off: nat, dims: seq<nat>, useTyped: bool, i: nat, count: nat, t: nat)
    requires |dims| > 2 && count > 0 && Reshape(f, k, off, dims, useTyped, i, count).Ok?
    requires Inner(dims) <= t < count * Inner(dims)
    ensures Reshape(f, k, off, dims[1..], useTyped, i, dims[1]).Ok?
    ensures Reshape(f, k, off, dims, useTyped, Reshape(f, k, off, dims[1..], useTyped, i, dims[1]).value.1, count - 1).Ok?
    ensures var rest := Reshape(f, k, off, dims, useTyped, Reshape(f, k, off, dims[1..], useTyped, i, dims[1]).value.1, count - 1).value.0;
      t - Inner(dims) < |RowLeaves(rest)|
      && ArrayLeaf(f, k, off + (i + t * Last(dims)) * k.Size(), Last(dims), useTyped)
         == Ok(RowLeaves(rest)[t - Inner(dims)])
    decreases |dims|, count, 0
  {
    var last := Last(dims);
    var m := Inner(dims);
    ReshapeUpperCons(f, k, off, dims, useTyped, i, count);
    var inner := Reshape(f, k, off, dims[1..], useTyped, i, dims[1]).value;
    ReshapeState(f, k, off, dims[1..], useTyped, i, dims[1]);
    InnerLast(dims);
    assert inner.1 == i + m * last;
    AddMul(count - 1, m);
    ReshapeRowAt(f, k, off, dims, useTyped, inner.1, count - 1, t - m);
    SubMul(t, m, last);
    assert inner.1 + (t - m) * last == i + t * last;
  }

  /** The binding of one layout entry: an accessor pair for a scalar, an
      array leaf for one dimension, and for several the rows followed by the
      `flatView` over the whole leaf (lines 243-252). */
  function DefineLeaf(f: Frame, e: LayoutEntry, useTyped: bool): (r: Result<Node>)
    ensures |e.dims| == 0 ==> r == Ok(Scalar(e.kind, e.offset))
    ensures |e.dims| == 1 ==> r == ArrayLeaf(f, e.kind, e.offset, e.length, useTyped)
    ensures r.Ok? && |e.dims| >= 2 ==> r.value.Shaped? && |r.value.rows| == e.dims[0]
    ensures r.Ok? && |e.dims| >= 2 ==> Ok(r.value.flatView) == ArrayLeaf(f, e.kind, e.offset, e.length, useTyped)
    ensures |e.dims| >= 2 && e.length == Product(e.dims) ==>
      (r.Ok? <==> ArrayLeaf(f, e.kind, e.offset, e.length, useTyped).Ok?)
  {
    if |e.dims| == 0 then Ok(Scalar(e.kind, e.offset))
    else if |e.dims| == 1 then ArrayLeaf(f, e.kind, e.offset, e.length, useTyped)
    else
      ReshapeWhole(f, e, useTyped);
      var rows :- Reshape(f, e.kind, e.offset, e.dims, useTyped, 0, e.dims[0]);
      var flat :- ArrayLeaf(f, e.kind, e.offset, e.length, useTyped);
      Ok(Shaped(rows.0, flat))
  }

  /** When the whole leaf fits as one view, so does every row of it. */
  lemma ReshapeWhole(f: Frame, e: LayoutEntry, useTyped: bool)
    requires |e.dims| >= 2
    ensures e.length == Product(e.dims) && ArrayLeaf(f, e.kind, e.offset, e.length, useTyped).Ok? ==>
      Reshape(f, e.kind, e.offset, e.dims, useTyped, 0, e.dims[0]).Ok?
  {
    if e.length == Product(e.dims) && ArrayLeaf(f, e.kind, e.offset, e.length, useTyped).Ok? {
      assert Product(e.dims) == 0 + e.dims[0] * Product(e.dims[1..]);
      ReshapeOk(f, e.kind, e.offset, e.dims, useTyped, 0, e.dims[0]);
    }
  }

  /** The rows of a multi-dimensional leaf tile its `flatView`: there are
      `Product(dims) / Last(dims)` of them, row `t` starts `t · Last(dims)`
      elements after the leaf's first byte and holds `Last(dims)` elements. */
  lemma RowsTile(f: Frame, e: LayoutEntry, useTyped: bool, t: nat)
    requires |e.dims| >= 2 && DefineLeaf(f, e, useTyped).Ok?
    requires t < e.dims[0] * Inner(e.dims)
    ensures |RowLeaves(DefineLeaf(f, e, useTyped).value.rows)| == e.dims[0] * Inner(e.dims)
    ensures var n := DefineLeaf(f, e, useTyped).value;
      |RowLeaves(n.rows)| * Last(e.dims) == Product(e.dims)
      && IsArrayLeaf(RowLeaves(n.rows)[t]) && KindOf(RowLeaves(n.rows)[t]) == e.kind
      && Addr(f, RowLeaves(n.rows)[t]) == Addr(f, n.flatView) + t * Last(e.dims) * e.kind.Size()
      && Count(RowLeaves(n.rows)[t]) == Last(e.dims)
  {
    var n := DefineLeaf(f, e, useTyped).value;
    var rows := Reshape(f, e.kind, e.offset, e.dims, useTyped, 0, e.dims[0]).value;
    assert n.rows == rows.0;
    ReshapeRowAt(f, e.kind, e.offset, e.dims, useTyped, 0, e.dims[0], t);
    assert Addr(f, n.flatView) == f.base + e.offset;
    InnerLast(e.dims);
    MulAssoc(e.dims[0], Inner(e.dims), Last(e.dims));
  }

  lemma MulAssoc(a: nat, b: nat, c: nat)
    ensures a * b * c == a * (b * c)
  {
  }

  // ---------------------------------------------------------------------
  // The object tree
  // ---------------------------------------------------------------------

  function Lookup(ms: seq<Member>, name: string): (r: Option<Node>)
    ensures r.Some? <==> exists i :: 0 <= i < |ms| && ms[i].name == name
    ensures r.Some? ==> exists i :: (0 <= i < |ms| && ms[i] == Member(name, r.value)
                                     && forall j :: 0 <= j < i ==> ms[j].name != name)
  {
    if |ms| == 0 then None
    else if ms[0].name == name then Some(ms[0].node)
    else
      var r := Lookup(ms[1..], name);
      assert forall i :: 1 <= i < |ms| ==> ms[i] == ms[1..][i - 1];
      assert r.Some? ==> exists i :: (1 <= i < |ms| && ms[i] == Member(name, r.value)
                                      && forall j :: 0 <= j < i ==> ms[j].name != name);
      r
  }

  /** Defining a property: an existing one keeps its place and gets the new
      node, a new one goes last. This is what `Object.defineProperty` does;
      the code's `target[name] = []` instead goes through an existing
      accessor's setter, which differs only when two entries share a path. */
  function Assign(ms: seq<Member>, name: string, n: Node): (r: seq<Member>)
    ensures Lookup(r, name) == Some(n)
    ensures forall other :: other != name ==> Lookup(r, other) == Lookup(ms, other)
  {
    if |ms| == 0 then [Member(name, n)]
    else if ms[0].name == name then [Member(name, n)] + ms[1..]
    else
      var r := [ms[0]] + Assign(ms[1..], name, n);
      assert r[1..] == Assign(ms[1..], name, n);
      r
  }

  /** The first path segment; destructuring an empty path gives `undefined`. */
  function Head(name: seq<string>): string {
    if |name| == 0 then "undefined" else name[0]
  }

  /** `defineProperty(target, info)`: along the path, `target[head] ||=
      isHeadArray ? [] : {}` reuses an existing object or creates one as the
      level's flag says; the last segment receives the leaf. An accessor
      met part-way along the path is replaced by a fresh object here; the
      code instead throws on a scalar or string accessor and hangs the rest
      on an array one. That happens only when an earlier path is a prefix of
      this one, which no constructed layout allows (EntriesApart). */
  function Define(t: Node, name: seq<string>, flags: seq<bool>, leaf: Node): (r: Node)
    requires t.Obj?
    ensures r.Obj? && r.isArray == t.isArray
    decreases |name|
  {
    var head := Head(name);
    if |name| <= 1 then Obj(t.isArray, Assign(t.members, head, leaf))
    else
      var existing := Lookup(t.members, head);
      var child := if existing.Some? && existing.value.Obj? then existing.value
        else Obj(|flags| > 0 && flags[0], []);
      var rest := if |flags| > 0 then flags[1..] else [];
      Obj(t.isArray, Assign(t.members, head, Define(child, name[1..], rest, leaf)))
  }

  /** Following a property path from a node. */
  function Resolve(t: Node, path: seq<string>): Option<Node>
    decreases |path|
  {
    if |path| == 0 then Some(t)
    else if !t.Obj? then None
    else
      match Lookup(t.members, path[0])
      case None => None
      case Some(c) => Resolve(c, path[1..])
  }

  /** After a definition, the leaf is reached by following its path. */
  lemma {:induction false} ResolveDefine(t: Node, p: seq<string>, flags: seq<bool>, leaf: Node)
    requires t.Obj? && |p| >= 1
    ensures Resolve(Define(t, p, flags, leaf), p) == Some(leaf)
    decreases |p|
  {
    if |p| > 1 {
      var existing := Lookup(t.members, p[0]);
      var child := if existing.Some? && existing.value.Obj? then existing.value
        else Obj(|flags| > 0 && flags[0], []);
      var rest := if |flags| > 0 then flags[1..] else [];
      ResolveDefine(child, p[1..], rest, leaf);
    }
  }

  /** A definition does not disturb what a path apart from its own reaches. */
  lemma {:induction false} ResolveDefineOther(t: Node, p: seq<string>, flags: seq<bool>, leaf: Node, q: seq<string>)
    requires t.Obj? && |p| >= 1 && |q| >= 1 && Apart(p, q)
    ensures Resolve(Define(t, p, flags, leaf), q) == Resolve(t, q)
    decreases |p|
  {
    var r := Define(t, p, flags, leaf);
    if p[0] != q[0] {
      assert Lookup(r.members, q[0]) == Lookup(t.members, q[0]);
    } else {
      ApartTail(p, q);
      var existing := Lookup(t.members, p[0]);
      var child := if existing.Some? && existing.value.Obj? then existing.value
        else Obj(|flags| > 0 && flags[0], []);
      var rest := if |flags| > 0 then flags[1..] else [];
      ResolveDefineOther(child, p[1..], rest, leaf, q[1..]);
      ResolveThroughDefine(t, p, flags, leaf, q, child, rest);
    }
  }

  /** One level of ResolveDefineOther: a path through the defined member
      continues in the member Define built, and the old member it replaced
      reached the same nodes from there. A missing or non-object member
      reaches nothing below it, and neither does the fresh empty object
      that takes its place. */
  lemma ResolveThroughDefine(t: Node, p: seq<string>, flags: seq<bool>, leaf: Node, q: seq<string>,
                             child: Node, rest: seq<bool>)
    requires t.Obj? && |p| > 1 && |q| > 1 && p[0] == q[0]
    requires child == (var e := Lookup(t.members, p[0]);
                       if e.Some? && e.value.Obj? then e.value else Obj(|flags| > 0 && flags[0], []))
    requires rest == (if |flags| > 0 then flags[1..] else [])
    requires Resolve(Define(child, p[1..], rest, leaf), q[1..]) == Resolve(child, q[1..])
    ensures Resolve(Define(t, p, flags, leaf), q) == Resolve(t, q)
  {
    var d := Define(child, p[1..], rest, leaf);
    var r := Define(t, p, flags, leaf);
    assert r == Obj(t.isArray, Assign(t.members, p[0], d));
    assert Resolve(r, q) == Resolve(d, q[1..]);
    var existing := Lookup(t.members, p[0]);
    if existing.Some? && existing.value.Obj? {
      assert Resolve(t, q) == Resolve(child, q[1..]);
    } else {
      assert Resolve(child, q[1..]) == None;
      assert Resolve(t, q) == None;
    }
  }

  /** Two paths that start alike are apart exactly when their tails are,
      and then neither tail is empty. */
  lemma ApartTail(p: seq<string>, q: seq<string>)
    requires |p| >= 1 && |q| >= 1 && p[0] == q[0]
    ensures Apart(p, q) <==> Apart(p[1..], q[1..])
    ensures Apart(p, q) ==> |p| > 1 && |q| > 1
  {
    assert p == [p[0]] + p[1..] && q == [q[0]] + q[1..];
    assert (p <= q) <==> (p[1..] <= q[1..]);
    assert (q <= p) <==> (q[1..] <= p[1..]);
  }

  /** On a fresh path, every intermediate object is created as an array or
      a plain object according to its level's flag. */
  lemma {:induction false} DefineCreates(t: Node, p: seq<string>, flags: seq<bool>, leaf: Node, d: nat)
    requires t.Obj? && 1 <= d < |p| && d <= |flags|
    requires Lookup(t.members, p[0]).None?
    ensures Resolve(Define(t, p, flags, leaf), p[..d]).Some?
    ensures Resolve(Define(t, p, flags, leaf), p[..d]).value.Obj?
    ensures Resolve(Define(t, p, flags, leaf), p[..d]).value.isArray == flags[d - 1]
    decreases |p|
  {
    var child := Obj(flags[0], []);
    var r := Define(t, p, flags, leaf);
    var c := Define(child, p[1..], flags[1..], leaf);
    assert Lookup(r.members, p[0]) == Some(c);
    if d > 1 {
      assert p[..d][1..] == p[1..][..d - 1];
      DefineCreates(child, p[1..], flags[1..], leaf, d - 1);
    } else {
      assert p[..1][1..] == [];
    }
  }

  // ---------------------------------------------------------------------
  // Binding a layout
  // ---------------------------------------------------------------------

  /** Binding entries one after another into `t`; the first failing entry's
      error ends the construction. The contract is about the fold as
      modelled: where one path passes through an earlier entry's accessor,
      Define departs from the code (see there). */
  function BindFrom(entries: seq<LayoutEntry>, f: Frame, useTyped: bool, t: Node): (r: Result<Node>)
    requires t.Obj?
    ensures r.Ok? <==> forall i :: 0 <= i < |entries| ==> DefineLeaf(f, entries[i], useTyped).Ok?
    ensures r.Ok? ==> r.value.Obj? && r.value.isArray == t.isArray
    ensures r.Err? ==> exists i :: (0 <= i < |entries| && DefineLeaf(f, entries[i], useTyped).Err?
      && r.error == DefineLeaf(f, entries[i], useTyped).error)
    decreases |entries|
  {
    if |entries| == 0 then Ok(t)
    else
      var leaf :- DefineLeaf(f, entries[0], useTyped);
      var r := BindFrom(entries[1..], f, useTyped, Define(t, entries[0].name, entries[0].flags, leaf));
      assert forall i :: 1 <= i < |entries| ==> entries[i] == entries[1..][i - 1];
      r
  }

  /** The loop of lines 145-147 (and of line 210 in a fresh construction):
      the accessor tree of a layout, rooted at the empty `data` object. */
  function Bind(entries: seq<LayoutEntry>, f: Frame, useTyped: bool): (r: Result<Node>)
    ensures r.Ok? ==> forall i :: 0 <= i < |entries| ==> DefineLeaf(f, entries[i], useTyped).Ok?
    ensures EntriesApart(entries) ==> (r.Ok? <==> forall i :: 0 <= i < |entries| ==> DefineLeaf(f, entries[i], useTyped).Ok?)
    ensures r.Ok? ==> r.value.Obj? && !r.value.isArray
  {
    BindFrom(entries, f, useTyped, Obj(false, []))
  }

  predicate EntriesApart(entries: seq<LayoutEntry>) {
    forall i, j :: 0 <= i < j < |entries| ==> Apart(entries[i].name, entries[j].name)
  }

  predicate EntriesNamed(entries: seq<LayoutEntry>) {
    forall i :: 0 <= i < |entries| ==> |entries[i].name| >= 1
  }

  lemma {:induction false} BindFromKeeps(entries: seq<LayoutEntry>, f: Frame, useTyped: bool, t: Node, q: seq<string>)
    requires t.Obj? && BindFrom(entries, f, useTyped, t).Ok? && EntriesNamed(entries)
    requires |q| >= 1 && Resolve(t, q).Some?
    requires forall i :: 0 <= i < |entries| ==> Apart(entries[i].name, q)
    ensures Resolve(BindFrom(entries, f, useTyped, t).value, q) == Resolve(t, q)
    decreases |entries|
  {
    if |entries| > 0 {
      var e := entries[0];
      var leaf := DefineLeaf(f, e, useTyped).value;
      var t1 := Define(t, e.name, e.flags, leaf);
      ResolveDefineOther(t, e.name, e.flags, leaf, q);
      assert forall i :: 1 <= i < |entries| ==> entries[i] == entries[1..][i - 1];
      BindFromKeeps(entries[1..], f, useTyped, t1, q);
    }
  }

  lemma {:induction false} BindFromResolves(entries: seq<LayoutEntry>, f: Frame, useTyped: bool, t: Node, i: nat)
    requires t.Obj? && BindFrom(entries, f, useTyped, t).Ok?
    requires EntriesNamed(entries) && EntriesApart(entries) && i < |entries|
    ensures Resolve(BindFrom(entries, f, useTyped, t).value, entries[i].name)
      == Some(DefineLeaf(f, entries[i], useTyped).value)
    decreases |entries|
  {
    var e := entries[0];
    var leaf := DefineLeaf(f, e, useTyped).value;
    var t1 := Define(t, e.name, e.flags, leaf);
    var tail := entries[1..];
    assert forall j :: 1 <= j < |entries| ==> entries[j] == tail[j - 1];
    if i == 0 {
      ResolveDefine(t, e.name, e.flags, leaf);
      forall j | 0 <= j < |tail| ensures Apart(tail[j].name, e.name) {
        assert Apart(entries[0].name, entries[j + 1].name);
      }
      BindFromKeeps(tail, f, useTyped, t1, e.name);
    } else {
      BindFromResolves(tail, f, useTyped, t1, i - 1);
    }
  }

  /** Every entry's accessor is reached by following its name path in the
      bound tree, whatever order the entries were bound in. */
  lemma BindResolves(entries: seq<LayoutEntry>, f: Frame, useTyped: bool, i: nat)
    requires Bind(entries, f, useTyped).Ok?
    requires EntriesNamed(entries) && EntriesApart(entries) && i < |entries|
    ensures DefineLeaf(f, entries[i], useTyped).Ok?
    ensures Resolve(Bind(entries, f, useTyped).value, entries[i].name) == Some(DefineLeaf(f, entries[i], useTyped).value)
  {
    BindFromResolves(entries, f, useTyped, Obj(false, []), i);
  }
}
