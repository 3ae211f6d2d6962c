/** What the accessors of a bound leaf read from the buffer: a whole-range
    typed array and a per-element array read the same elements, rows read
    their windows, and a multi-dimensional leaf therefore reads as the
    row-major nesting of its `flatView` (arraybuffer-struct.js:243-304). */
module Reader {
  import opened Common
  import opened Arith
  import opened Kinds
  import opened TypeTag
  import opened Values
  import opened Planner
  import opened Codec
  import opened Binder

  /** Element `j` of kind `k` in the range that starts at buffer position
      `at`; `undefined` where the buffer ends. */
  function Elem(buf: seq<byte>, k: Kind, at: nat, j: nat): Value {
    if k.IsInteger() && at + j * k.Size() + k.Size() <= |buf| then
      Decode(k, buf[at + j * k.Size()..at + j * k.Size() + k.Size()])
    else Undefined
  }

  /** The `n` elements of kind `k` stored from buffer position `at`. */
  function ReadElems(buf: seq<byte>, k: Kind, at: nat, n: nat): (r: seq<Value>)
    ensures |r| == n
  {
    seq(n, j requires 0 <= j < n => Elem(buf, k, at, j))
  }

  lemma ReadElemsAt(buf: seq<byte>, k: Kind, at: nat, n: nat, j: nat)
    requires j < n
    ensures ReadElems(buf, k, at, n)[j] == Elem(buf, k, at, j)
  {
  }

  /** Element `j + a` of a range is element `j` of the range `a` elements on. */
  lemma ElemShift(buf: seq<byte>, k: Kind, at: nat, a: nat, j: nat)
    ensures Elem(buf, k, at, a + j) == Elem(buf, k, at + a * k.Size(), j)
  {
    AddMulDistrib(a, j, k.Size());
  }

  /** A range splits into its first `a` elements and the `b` after them. */
  lemma ReadElemsSplit(buf: seq<byte>, k: Kind, at: nat, a: nat, b: nat)
    ensures ReadElems(buf, k, at, a + b) == ReadElems(buf, k, at, a) + ReadElems(buf, k, at + a * k.Size(), b)
  {
    var l := ReadElems(buf, k, at, a + b);
    var r := ReadElems(buf, k, at, a) + ReadElems(buf, k, at + a * k.Size(), b);
    forall j | 0 <= j < a + b ensures l[j] == r[j] {
      ReadElemsSplitAt(buf, k, at, a, b, j);
    }
  }

  lemma ReadElemsSplitAt(buf: seq<byte>, k: Kind, at: nat, a: nat, b: nat, j: nat)
    requires j < a + b
    ensures ReadElems(buf, k, at, a + b)[j]
      == (ReadElems(buf, k, at, a) + ReadElems(buf, k, at + a * k.Size(), b))[j]
  {
    ReadElemsAt(buf, k, at, a + b, j);
    if j < a {
      ReadElemsAt(buf, k, at, a, j);
    } else {
      SplitBack(buf, k, at, a, b, j - a);
    }
  }

  lemma SplitBack(buf: seq<byte>, k: Kind, at: nat, a: nat, b: nat, j: nat)
    requires j < b
    ensures ReadElems(buf, k, at + a * k.Size(), b)[j] == Elem(buf, k, at, a + j)
  {
    ReadElemsAt(buf, k, at + a * k.Size(), b, j);
    ElemShift(buf, k, at, a, j);
  }

  /** Typed-array element `j` is element `j` of the range. */
  lemma TypedGetElems(buf: seq<byte>, k: Kind, at: nat, len: nat, j: nat)
    requires k.IsInteger() && at + len * k.Size() <= |buf| && j < len
    ensures TypedGet(buf, k, at, len, j) == ReadElems(buf, k, at, len)[j]
  {
    ReadElemsAt(buf, k, at, len, j);
    MulLe(j + 1, len, k.Size());
  }

  /** Per-element accessor `j` of a plain array reads element `j` of the
      range, given that the range lies inside the view. */
  lemma ElementsGetElems(v: View, k: Kind, off: nat, len: nat, j: nat)
    requires v.Valid() && k.IsInteger() && off + len * k.Size() <= v.len && j < len
    ensures GetScalar(v, k, off + j * k.Size()) == Ok(ReadElems(v.buf, k, v.base + off, len)[j])
  {
    ReadElemsAt(v.buf, k, v.base + off, len, j);
    MulLe(j + 1, len, k.Size());
  }

  /** The value an array leaf reads as a whole: the list of its elements,
      or, for a text pair, its string. */
  function ReadLeaf(v: View, n: Node): Value {
    match n
    case TypedView(k, at, len) => List(ReadElems(v.buf, k, at, len))
    case Elements(k, off, len) => List(ReadElems(v.buf, k, v.base + off, len))
    case TextPair(at, len) => if at + len <= |v.buf| then TextGet(v.buf, at, len) else Undefined
    case _ => Undefined
  }

  /** The nested arrays a multi-dimensional leaf presents. */
  function ReadRows(v: View, rows: seq<Node>): (r: seq<Value>)
    ensures |r| == |rows|
    decreases rows, 0
  {
    if |rows| == 0 then [] else [ReadRow(v, rows[0])] + ReadRows(v, rows[1..])
  }

  function ReadRow(v: View, n: Node): Value
    decreases n, 1
  {
    if n.Rows? then List(ReadRows(v, n.rows)) else ReadLeaf(v, n)
  }

  function ReadShaped(v: View, n: Node): Value {
    if n.Shaped? then List(ReadRows(v, n.rows)) else ReadLeaf(v, n)
  }

  lemma ReadRowsCons(v: View, n: Node, rows: seq<Node>)
    ensures ReadRows(v, [n] + rows) == [ReadRow(v, n)] + ReadRows(v, rows)
  {
    assert ([n] + rows)[1..] == rows;
  }

  /** An integer array leaf reads its range, whichever representation the
      binder chose. */
  lemma ArrayLeafReads(v: View, k: Kind, off: nat, len: nat, useTyped: bool)
    requires k.IsInteger()
    requires ArrayLeaf(Frame(v.base, |v.buf|), k, off, len, useTyped).Ok?
    ensures ReadLeaf(v, ArrayLeaf(Frame(v.base, |v.buf|), k, off, len, useTyped).value)
      == List(ReadElems(v.buf, k, v.base + off, len))
  {
  }

  /** The rows `Reshape` defines read as the row-major nesting of the
      elements they cover. */
  lemma {:induction false} ReshapeReads(v: View, k: Kind, off: nat, dims: seq<nat>, useTyped: bool, i: nat, count: nat)
    requires k.IsInteger() && |dims| >= 2
    requires Reshape(Frame(v.base, |v.buf|), k, off, dims, useTyped, i, count).Ok?
    ensures ReadRows(v, Reshape(Frame(v.base, |v.buf|), k, off, dims, useTyped, i, count).value.0)
      == NestRows(ReadElems(v.buf, k, v.base + off + i * k.Size(), count * Product(dims[1..])), count, dims[1..])
    decreases |dims|, count, 2
  {
    if count > 0 {
      if |dims| == 2 {
        ReadsLastLevel(v, k, off, dims, useTyped, i, count);
      } else {
        ReadsUpperLevel(v, k, off, dims, useTyped, i, count);
      }
    }
  }

  /** The first `p` elements of a range of `count * p`, and the rest. */
  lemma HeadRows(buf: seq<byte>, k: Kind, at: nat, p: nat, count: nat)
    requires count > 0
    ensures ReadElems(buf, k, at, count * p)[..p] == ReadElems(buf, k, at, p)
    ensures ReadElems(buf, k, at, count * p)[p..] == ReadElems(buf, k, at + p * k.Size(), (count - 1) * p)
  {
    AddMul(count - 1, p);
    ReadElemsSplit(buf, k, at, p, (count - 1) * p);
  }

  lemma {:induction false} ReadsLastLevel(v: View, k: Kind, off: nat, dims: seq<nat>, useTyped: bool, i: nat, count: nat)
    requires k.IsInteger() && |dims| == 2 && count > 0
    requires Reshape(Frame(v.base, |v.buf|), k, off, dims, useTyped, i, count).Ok?
    ensures ReadRows(v, Reshape(Frame(v.base, |v.buf|), k, off, dims, useTyped, i, count).value.0)
      == NestRows(ReadElems(v.buf, k, v.base + off + i * k.Size(), count * Product(dims[1..])), count, dims[1..])
    decreases |dims|, count, 1
  {
    var f := Frame(v.base, |v.buf|);
    var p := Product(dims[1..]);
    var at := v.base + off + i * k.Size();
    MulNat(count, p);
    var n: nat := count * p;
    ReshapeLastCons(f, k, off, dims, useTyped, i, count);
    var row := ArrayLeaf(f, k, off + i * k.Size(), dims[1], useTyped).value;
    var rest := Reshape(f, k, off, dims, useTyped, i + dims[1], count - 1).value;
    ReadRowsCons(v, row, rest.0);
    LastHead(v, k, off, dims, useTyped, i, count, at, p, n);
    LastTail(v, k, off, dims, useTyped, i, count, at, p, n);
    NestRowsCons(ReadElems(v.buf, k, at, n), count, dims[1..]);
  }

  /** The first row at the last level reads the first `p` of the `n`
      elements from `at`. */
  lemma {:induction false} LastHead(v: View, k: Kind, off: nat, dims: seq<nat>, useTyped: bool, i: nat, count: nat,
                                    at: nat, p: nat, n: nat)
    requires k.IsInteger() && |dims| == 2 && count > 0
    requires ArrayLeaf(Frame(v.base, |v.buf|), k, off + i * k.Size(), dims[1], useTyped).Ok?
    requires at == v.base + off + i * k.Size() && p == Product(dims[1..]) && n == count * p
    ensures p <= n
    ensures ReadRow(v, ArrayLeaf(Frame(v.base, |v.buf|), k, off + i * k.Size(), dims[1], useTyped).value)
      == Nest(ReadElems(v.buf, k, at, n)[..p], dims[1..])
  {
    LastWidth(dims);
    MulLe(1, count, p);
    HeadRows(v.buf, k, at, p, count);
    ArrayLeafReads(v, k, off + i * k.Size(), dims[1], useTyped);
    assert ReadElems(v.buf, k, at, n)[..p] == ReadElems(v.buf, k, at, dims[1]);
  }

  /** The remaining rows at the last level read the elements after the
      first `p`. */
  lemma {:induction false} LastTail(v: View, k: Kind, off: nat, dims: seq<nat>, useTyped: bool, i: nat, count: nat,
                                    at: nat, p: nat, n: nat)
    requires k.IsInteger() && |dims| == 2 && count > 0
    requires Reshape(Frame(v.base, |v.buf|), k, off, dims, useTyped, i + dims[1], count - 1).Ok?
    requires at == v.base + off + i * k.Size() && p == Product(dims[1..]) && n == count * p
    ensures p <= n
    ensures ReadRows(v, Reshape(Frame(v.base, |v.buf|), k, off, dims, useTyped, i + dims[1], count - 1).value.0)
      == NestRows(ReadElems(v.buf, k, at, n)[p..], count - 1, dims[1..])
    decreases |dims|, count, 0
  {
    var s := k.Size();
    LastWidth(dims);
    MulLe(1, count, p);
    HeadRows(v.buf, k, at, p, count);
    assert at + p * s == v.base + off + (i + dims[1]) * s by { AddMulDistrib(i, p, s); }
    ReshapeReads(v, k, off, dims, useTyped, i + dims[1], count - 1);
  }

  lemma {:induction false} ReadsUpperLevel(v: View, k: Kind, off: nat, dims: seq<nat>, useTyped: bool, i: nat, count: nat)
    requires k.IsInteger() && |dims| > 2 && count > 0
    requires Reshape(Frame(v.base, |v.buf|), k, off, dims, useTyped, i, count).Ok?
    ensures ReadRows(v, Reshape(Frame(v.base, |v.buf|), k, off, dims, useTyped, i, count).value.0)
      == NestRows(ReadElems(v.buf, k, v.base + off + i * k.Size(), count * Product(dims[1..])), count, dims[1..])
    decreases |dims|, count, 1
  {
    var f := Frame(v.base, |v.buf|);
    var s := k.Size();
    var p := Product(dims[1..]);
    var at := v.base + off + i * s;
    HeadRows(v.buf, k, at, p, count);
    ReshapeUpperCons(f, k, off, dims, useTyped, i, count);
    var inner := Reshape(f, k, off, dims[1..], useTyped, i, dims[1]).value;
    UpperFirst(v, k, off, dims, useTyped, i, at, p);
    var rest := Reshape(f, k, off, dims, useTyped, i + p, count - 1).value;
    UpperRest(v, k, off, dims, useTyped, i, count, at, p);
    AddMul(count - 1, p);
    MulNat(count - 1, p);
    MulNat(p, s);
    var n: nat, m: nat, ps: nat := count * p, (count - 1) * p, p * s;
    UpperCompose(v, inner.0, rest.0, ReadElems(v.buf, k, at, n), ReadElems(v.buf, k, at, p),
                 ReadElems(v.buf, k, at + ps, m), count, dims[1..], p);
  }

  /** The first row of an upper level reads its `p` elements nested one level
      down, and the walk continues after them. */
  lemma {:induction false} UpperFirst(v: View, k: Kind, off: nat, dims: seq<nat>, useTyped: bool, i: nat, at: nat, p: nat)
    requires k.IsInteger() && |dims| > 2
    requires Reshape(Frame(v.base, |v.buf|), k, off, dims[1..], useTyped, i, dims[1]).Ok?
    requires at == v.base + off + i * k.Size() && p == Product(dims[1..])
    ensures Reshape(Frame(v.base, |v.buf|), k, off, dims[1..], useTyped, i, dims[1]).value.1 == i + p
    ensures ReadRows(v, Reshape(Frame(v.base, |v.buf|), k, off, dims[1..], useTyped, i, dims[1]).value.0)
      == NestRows(ReadElems(v.buf, k, at, p), dims[1], dims[1..][1..])
    decreases |dims|, 0, 0
  {
    ReshapeState(Frame(v.base, |v.buf|), k, off, dims[1..], useTyped, i, dims[1]);
    assert p == dims[1] * Product(dims[1..][1..]);
    ReshapeReads(v, k, off, dims[1..], useTyped, i, dims[1]);
  }

  /** The rows after the first read the elements after the first `p`. */
  lemma {:induction false} UpperRest(v: View, k: Kind, off: nat, dims: seq<nat>, useTyped: bool, i: nat, count: nat, at: nat, p: nat)
    requires k.IsInteger() && |dims| > 2 && count > 0
    requires Reshape(Frame(v.base, |v.buf|), k, off, dims, useTyped, i + p, count - 1).Ok?
    requires at == v.base + off + i * k.Size() && p == Product(dims[1..])
    ensures ReadRows(v, Reshape(Frame(v.base, |v.buf|), k, off, dims, useTyped, i + p, count - 1).value.0)
      == NestRows(ReadElems(v.buf, k, at + p * k.Size(), (count - 1) * p), count - 1, dims[1..])
    decreases |dims|, count, 0
  {
    var s := k.Size();
    assert at + p * s == v.base + off + (i + p) * s by { AddMulDistrib(i, p, s); }
    ReshapeReads(v, k, off, dims, useTyped, i + p, count - 1);
  }

  /** The rows of an upper level read as the nesting of their elements when
      the first row reads the first `p` elements nested one level down and
      the other rows read the rest. */
  lemma UpperCompose(v: View, first: seq<Node>, rest: seq<Node>, xs: seq<Value>, a: seq<Value>, b: seq<Value>,
                      count: nat, inner: seq<nat>, p: nat)
    requires |inner| > 1 && count > 0 && p == Product(inner) && p <= |xs|
    requires xs[..p] == a && xs[p..] == b
    requires ReadRows(v, first) == NestRows(a, inner[0], inner[1..])
    requires ReadRows(v, rest) == NestRows(b, count - 1, inner)
    ensures ReadRows(v, [Rows(first)] + rest) == NestRows(xs, count, inner)
  {
    ReadRowsCons(v, Rows(first), rest);
    NestRowsCons(xs, count, inner);
  }

  /** A multi-dimensional integer leaf reads, row by row, as the row-major
      nesting of what its `flatView` reads: the rows and the flat view are
      two windows on the same elements. */
  lemma GridNest(v: View, e: LayoutEntry, useTyped: bool)
    requires e.kind.IsInteger() && |e.dims| >= 2 && e.length == Product(e.dims)
    requires DefineLeaf(Frame(v.base, |v.buf|), e, useTyped).Ok?
    ensures ReadLeaf(v, DefineLeaf(Frame(v.base, |v.buf|), e, useTyped).value.flatView).List?
    ensures var n := DefineLeaf(Frame(v.base, |v.buf|), e, useTyped).value;
      |ReadLeaf(v, n.flatView).items| == Product(e.dims)
      && ReadShaped(v, n) == Nest(ReadLeaf(v, n.flatView).items, e.dims)
  {
    var f := Frame(v.base, |v.buf|);
    var n := DefineLeaf(f, e, useTyped).value;
    var rows := Reshape(f, e.kind, e.offset, e.dims, useTyped, 0, e.dims[0]).value;
    assert n.rows == rows.0;
    ArrayLeafReads(v, e.kind, e.offset, e.length, useTyped);
    ReshapeReads(v, e.kind, e.offset, e.dims, useTyped, 0, e.dims[0]);
  }

  /** After an integer array leaf is initialised from `x`, element `j` of
      the leaf reads the element conversion of input element `j`, and the
      elements past the input keep what the buffer held. */
  lemma InitArrayReads(v: View, k: Kind, off: nat, length: nat, width: nat, x: Value, fixed: bool, j: nat)
    requires v.Valid() && k.IsInteger() && j < length
    requires InitArray(v, k, off, length, width, x, fixed).Ok?
    ensures Elem(InitArray(v, k, off, length, width, x, fixed).value, k, v.base + off, j)
      == if j < |Input(x)| then Num(Converted(k, ToIntegral(Input(x)[j]))) else Elem(v.buf, k, v.base + off, j)
  {
    InitArrayWrites(v, k, off, length, width, x, fixed);
    if j < |Input(x)| {
      WrittenElem(v.buf, k, v.base + off, Input(x), j);
    } else {
      KeptElem(v.buf, k, v.base + off, Input(x), length, j);
    }
  }

  /** An integer array leaf's initialisation is the bulk write of its input. */
  lemma InitArrayWrites(v: View, k: Kind, off: nat, length: nat, width: nat, x: Value, fixed: bool)
    requires v.Valid() && k.IsInteger()
    requires InitArray(v, k, off, length, width, x, fixed).Ok?
    ensures v.base + off + length * k.Size() <= |v.buf| && |Input(x)| <= length
    ensures v.base + off + |Input(x)| * k.Size() <= |v.buf|
    ensures InitArray(v, k, off, length, width, x, fixed).value == WriteElems(v.buf, k, v.base + off, Input(x))
  {
    MulLe(|Input(x)|, length, k.Size());
  }

  lemma WrittenElem(buf: seq<byte>, k: Kind, at: nat, xs: seq<Value>, j: nat)
    requires k.IsInteger() && at + |xs| * k.Size() <= |buf| && j < |xs|
    ensures Elem(WriteElems(buf, k, at, xs), k, at, j) == Num(Converted(k, ToIntegral(xs[j])))
  {
    WriteElemsAt(buf, k, at, xs, j);
    DecodeElemBytes(k, xs[j]);
  }

  lemma KeptElem(buf: seq<byte>, k: Kind, at: nat, xs: seq<Value>, length: nat, j: nat)
    requires k.IsInteger() && at + length * k.Size() <= |buf| && |xs| <= j < length
    requires at + |xs| * k.Size() <= |buf|
    ensures Elem(WriteElems(buf, k, at, xs), k, at, j) == Elem(buf, k, at, j)
  {
    MulLe(j + 1, length, k.Size());
    MulLe(|xs|, j, k.Size());
    KeptWindow(buf, k, at, xs, j, at + j * k.Size());
  }

  /** An element whose window lies past the written range keeps its value. */
  lemma KeptWindow(buf: seq<byte>, k: Kind, at: nat, xs: seq<Value>, j: nat, lo: nat)
    requires k.IsInteger() && at + |xs| * k.Size() <= lo && lo + k.Size() <= |buf|
    requires lo == at + j * k.Size()
    ensures Elem(WriteElems(buf, k, at, xs), k, at, j) == Elem(buf, k, at, j)
  {
    WriteElemsFrame(buf, k, at, xs, lo, lo + k.Size());
  }

  /** Every element is an integer the kind represents. */
  predicate Storable(k: Kind, xs: seq<Value>)
    requires k.IsInteger()
  {
    forall i :: 0 <= i < |xs| ==> xs[i].Num? && InRange(k, xs[i].n)
  }

  /** A multi-dimensional integer leaf initialised from a regular nested
      array of representable integers reads that array back through its
      row accessors. */
  lemma GridRoundTrip(v: View, e: LayoutEntry, useTyped: bool, width: nat, fixed: bool, x: Value)
    requires v.Valid() && e.kind.IsInteger() && |e.dims| >= 2 && e.length == Product(e.dims)
    requires HasShape(x, e.dims) && Storable(e.kind, Flat(x.items))
    requires InitArray(v, e.kind, e.offset, e.length, width, x, fixed).Ok?
    requires DefineLeaf(Frame(v.base, |v.buf|), e, useTyped).Ok?
    ensures ReadShaped(View(InitArray(v, e.kind, e.offset, e.length, width, x, fixed).value, v.base, v.len),
                       DefineLeaf(Frame(v.base, |v.buf|), e, useTyped).value) == x
  {
    var k := e.kind;
    var b := InitArray(v, k, e.offset, e.length, width, x, fixed).value;
    var w := View(b, v.base, v.len);
    assert Frame(w.base, |w.buf|) == Frame(v.base, |v.buf|);
    var n := DefineLeaf(Frame(v.base, |v.buf|), e, useTyped).value;
    GridNest(w, e, useTyped);
    ArrayLeafReads(w, k, e.offset, e.length, useTyped);
    var xs := Flat(x.items);
    NestFlat(x, e.dims);
    assert Input(x) == xs;
    var got := ReadElems(b, k, v.base + e.offset, e.length);
    forall j | 0 <= j < e.length ensures got[j] == xs[j] {
      StoredElem(v, k, e.offset, e.length, width, x, fixed, j);
    }
    assert got == xs;
  }

  /** Element `j` of an integer leaf initialised from representable
      integers reads input `j` back. */
  lemma StoredElem(v: View, k: Kind, off: nat, length: nat, width: nat, x: Value, fixed: bool, j: nat)
    requires v.Valid() && k.IsInteger() && j < length && |Input(x)| == length
    requires Storable(k, Input(x))
    requires InitArray(v, k, off, length, width, x, fixed).Ok?
    ensures ReadElems(InitArray(v, k, off, length, width, x, fixed).value, k, v.base + off, length)[j] == Input(x)[j]
  {
    ReadElemsAt(InitArray(v, k, off, length, width, x, fixed).value, k, v.base + off, length, j);
    InitArrayReads(v, k, off, length, width, x, fixed, j);
    ConvertedIdentity(k, Input(x)[j].n);
  }

  /** Fixed mode: in a multi-dimensional utf8 leaf initialised from strings
      that fit the innermost width, row `t` in row-major order reads string
      `t` of the flattened initial value; a row past the last string keeps
      what the buffer held before. */
  lemma TextGridRow(v: View, e: LayoutEntry, useTyped: bool, x: Value, t: nat, lo: nat)
    requires v.Valid() && e.kind.Utf8? && |e.dims| >= 2 && e.length == Product(e.dims)
    requires FitsSlots(Input(x), Last(e.dims))
    requires InitArray(v, Utf8, e.offset, e.length, Last(e.dims), x, true).Ok?
    requires DefineLeaf(Frame(v.base, |v.buf|), e, useTyped).Ok?
    requires t < e.dims[0] * Inner(e.dims) && lo == t * Last(e.dims)
    ensures t < |RowLeaves(DefineLeaf(Frame(v.base, |v.buf|), e, useTyped).value.rows)|
    ensures v.base + e.offset + lo + Last(e.dims) <= |v.buf|
    ensures ReadLeaf(View(InitArray(v, Utf8, e.offset, e.length, Last(e.dims), x, true).value, v.base, v.len),
                     RowLeaves(DefineLeaf(Frame(v.base, |v.buf|), e, useTyped).value.rows)[t])
      == if t < |Input(x)| then Input(x)[t]
         else TextGet(v.buf, v.base + e.offset + lo, Last(e.dims))
  {
    var f := Frame(v.base, |v.buf|);
    RowInLeaf(e, t, lo);
    FixedRow(v, e.offset, e.length, Last(e.dims), x, t, lo);
    TextRowAt(f, e, useTyped, t, lo);
    TextPairReads(View(InitArray(v, Utf8, e.offset, e.length, Last(e.dims), x, true).value, v.base, v.len),
                  v.base + e.offset + lo, Last(e.dims));
  }

  /** Stream mode: the initial value's strings are joined and written from
      the leaf's first byte, so row `t` reads the C string of the `t`-th
      window of `Last(dims)` bytes of the join. A window the join does not
      reach keeps the buffer's old bytes; one it reaches partly ends in them. */
  lemma TextStreamRow(v: View, e: LayoutEntry, useTyped: bool, x: Value, t: nat, lo: nat)
    requires v.Valid() && e.kind.Utf8? && |e.dims| >= 2 && e.length == Product(e.dims)
    requires InitArray(v, Utf8, e.offset, e.length, Last(e.dims), x, false).Ok?
    requires DefineLeaf(Frame(v.base, |v.buf|), e, useTyped).Ok?
    requires t < e.dims[0] * Inner(e.dims) && lo == t * Last(e.dims)
    ensures t < |RowLeaves(DefineLeaf(Frame(v.base, |v.buf|), e, useTyped).value.rows)|
    ensures v.base + e.offset + |StreamText(Input(x))| <= |v.buf| && v.base + e.offset + lo + Last(e.dims) <= |v.buf|
    ensures ReadLeaf(View(InitArray(v, Utf8, e.offset, e.length, Last(e.dims), x, false).value, v.base, v.len),
                     RowLeaves(DefineLeaf(Frame(v.base, |v.buf|), e, useTyped).value.rows)[t])
      == StreamWindow(v.buf, v.base + e.offset, StreamText(Input(x)), lo, Last(e.dims))
  {
    var f, w := Frame(v.base, |v.buf|), Last(e.dims);
    RowInLeaf(e, t, lo);
    StreamRow(v, e.offset, e.length, w, x, lo);
    TextRowAt(f, e, useTyped, t, lo);
    var b := InitArray(v, Utf8, e.offset, e.length, w, x, false).value;
    ReadPairAt(View(b, v.base, v.len), RowLeaves(DefineLeaf(f, e, useTyped).value.rows)[t], v.base + e.offset + lo, w);
  }

  /** A leaf known to be the text pair over a window reads that window. */
  lemma ReadPairAt(v: View, row: Node, at: nat, len: nat)
    requires at + len <= |v.buf| && row == TextPair(at, len)
    ensures ReadLeaf(v, row) == TextGet(v.buf, at, len)
  {
    TextPairReads(v, at, len);
  }

  /** What the window of `w` bytes at `at + lo` reads once `join` has been
      written from `at` over `prior`: the C string of the join's bytes there,
      followed by the old bytes where the join falls short. */
  function StreamWindow(prior: seq<byte>, at: nat, join: seq<byte>, lo: nat, w: nat): Value
    requires at + |join| <= |prior| && at + lo + w <= |prior|
  {
    if lo + w <= |join| then Text(CString(join[lo..lo + w]))
    else if |join| <= lo then TextGet(prior, at + lo, w)
    else Text(CString(join[lo..] + prior[at + |join|..at + lo + w]))
  }

  /** Row `t` of a leaf lies inside it. */
  lemma RowInLeaf(e: LayoutEntry, t: nat, lo: nat)
    requires |e.dims| >= 2 && e.length == Product(e.dims) && t < e.dims[0] * Inner(e.dims)
    requires lo == t * Last(e.dims)
    ensures lo + Last(e.dims) <= e.length
  {
    var w := Last(e.dims);
    InnerLast(e.dims);
    assert e.length == e.dims[0] * (Inner(e.dims) * w);
    MulAssoc(e.dims[0], Inner(e.dims), w);
    MulLe(t + 1, e.dims[0] * Inner(e.dims), w);
    AddMul(t, w);
  }

  /** Fixed mode, one window of `width` bytes at `lo` inside a utf8 array
      leaf: slot `t` reads string `t`, and past the last string the window
      reads what it read before. */
  lemma FixedRow(v: View, off: nat, length: nat, width: nat, x: Value, t: nat, lo: nat)
    requires v.Valid() && InitArray(v, Utf8, off, length, width, x, true).Ok?
    requires FitsSlots(Input(x), width) && lo == t * width && lo + width <= length
    ensures v.base + off + lo + width <= |v.buf|
    ensures TextGet(InitArray(v, Utf8, off, length, width, x, true).value, v.base + off + lo, width)
      == if t < |Input(x)| then Input(x)[t] else TextGet(v.buf, v.base + off + lo, width)
  {
    if t < |Input(x)| {
      InitSlotRead(v, off, length, width, x, t, lo);
    } else {
      var at := v.base + off;
      var bytes := FillSlots(Input(x), width).value;
      InitTextWrites(v, off, length, width, x);
      FillSlotsFit(Input(x), width);
      MulLe(|Input(x)|, t, width);
      SpliceFrame(v.buf, at, bytes, at + lo, at + lo + width);
    }
  }

  /** Stream mode, one window of `width` bytes at `lo` inside a utf8 array
      leaf: it reads the C string of the join's bytes there, followed by the
      buffer's old bytes where the join falls short. */
  lemma StreamRow(v: View, off: nat, length: nat, width: nat, x: Value, lo: nat)
    requires v.Valid() && InitArray(v, Utf8, off, length, width, x, false).Ok? && lo + width <= length
    ensures v.base + off + |StreamText(Input(x))| <= |v.buf| && v.base + off + lo + width <= |v.buf|
    ensures TextGet(InitArray(v, Utf8, off, length, width, x, false).value, v.base + off + lo, width)
      == StreamWindow(v.buf, v.base + off, StreamText(Input(x)), lo, width)
  {
    var join, at := StreamText(Input(x)), v.base + off;
    assert InitArray(v, Utf8, off, length, width, x, false).value == Splice(v.buf, at, join);
    SpliceWindowMixed(v.buf, at, join, lo, width);
  }

  /** Fixed mode: after a utf8 array leaf is initialised from strings that
      fit `width`, slot `t` of the leaf reads string `t`. */
  lemma InitSlotRead(v: View, off: nat, length: nat, width: nat, x: Value, t: nat, lo: nat)
    requires v.Valid() && InitArray(v, Utf8, off, length, width, x, true).Ok?
    requires FitsSlots(Input(x), width) && t < |Input(x)| && lo == t * width
    ensures v.base + off + lo + width <= |InitArray(v, Utf8, off, length, width, x, true).value|
    ensures TextGet(InitArray(v, Utf8, off, length, width, x, true).value, v.base + off + lo, width) == Input(x)[t]
  {
    InitTextWindow(v, off, length, width, x);
    SlotsRead(InitArray(v, Utf8, off, length, width, x, true).value, v.base + off, Input(x), width, t, lo);
  }

  /** A text pair inside the buffer reads the C string of its window. */
  lemma TextPairReads(v: View, at: nat, len: nat)
    requires at + len <= |v.buf|
    ensures ReadLeaf(v, TextPair(at, len)) == TextGet(v.buf, at, len)
  {
  }

  /** Fixed mode: after a utf8 array leaf is initialised from strings that
      fit `width`, the text pair over slot `t` reads string `t`. */
  lemma SlotsRead(b: seq<byte>, at: nat, xs: seq<Value>, width: nat, t: nat, lo: nat)
    requires FitsSlots(xs, width) && t < |xs| && FillSlots(xs, width).Ok? && lo == t * width
    requires at + |FillSlots(xs, width).value| <= |b|
    requires b[at..at + |FillSlots(xs, width).value|] == FillSlots(xs, width).value
    ensures at + lo + width <= |b|
    ensures TextGet(b, at + lo, width) == xs[t]
  {
    var bytes := FillSlots(xs, width).value;
    assert lo + width <= |bytes| && CString(bytes[lo..lo + width]) == xs[t].s by {
      FillSlotsWindows(xs, width, t);
    }
    assert xs[t].Text?;
    WindowReads(b, at, bytes, lo, width);
  }

  /** Fixed mode: a utf8 array leaf's initialisation writes the filled
      slots from the leaf's first byte. */
  lemma InitTextWindow(v: View, off: nat, length: nat, width: nat, x: Value)
    requires v.Valid() && InitArray(v, Utf8, off, length, width, x, true).Ok?
    ensures FillSlots(Input(x), width).Ok?
    ensures v.base + off + |FillSlots(Input(x), width).value| <= |InitArray(v, Utf8, off, length, width, x, true).value|
    ensures InitArray(v, Utf8, off, length, width, x, true).value[v.base + off..v.base + off + |FillSlots(Input(x), width).value|]
      == FillSlots(Input(x), width).value
  {
    InitTextWrites(v, off, length, width, x);
    SpliceWindow(v.buf, v.base + off, FillSlots(Input(x), width).value);
  }

  /** The C string of a window inside bytes written from position `at`. */
  lemma WindowReads(b: seq<byte>, at: nat, bytes: seq<byte>, lo: nat, n: nat)
    requires at + |bytes| <= |b| && b[at..at + |bytes|] == bytes && lo + n <= |bytes|
    ensures TextGet(b, at + lo, n) == Text(CString(bytes[lo..lo + n]))
  {
    var seen := b[at + lo..at + lo + n];
    var written := b[at..at + |bytes|];
    forall i | 0 <= i < n ensures seen[i] == bytes[lo + i] {
      assert written[lo + i] == bytes[lo + i];
    }
    assert seen == bytes[lo..lo + n];
  }

  /** Row `t` of a multi-dimensional utf8 leaf is the text pair over the
      `t`-th run of `Last(dims)` bytes of the leaf. */
  lemma TextRowAt(f: Frame, e: LayoutEntry, useTyped: bool, t: nat, lo: nat)
    requires e.kind.Utf8? && |e.dims| >= 2 && DefineLeaf(f, e, useTyped).Ok?
    requires t < e.dims[0] * Inner(e.dims) && lo == t * Last(e.dims)
    ensures t < |RowLeaves(DefineLeaf(f, e, useTyped).value.rows)|
    ensures RowLeaves(DefineLeaf(f, e, useTyped).value.rows)[t] == TextPair(f.base + e.offset + lo, Last(e.dims))
  {
    var rows := Reshape(f, Utf8, e.offset, e.dims, useTyped, 0, e.dims[0]).value;
    assert DefineLeaf(f, e, useTyped).value.rows == rows.0;
    ReshapeRowAt(f, Utf8, e.offset, e.dims, useTyped, 0, e.dims[0], t);
  }

  /** A utf8 array leaf's fixed-mode initialisation writes the filled slots
      at the leaf's first byte. */
  lemma InitTextWrites(v: View, off: nat, length: nat, width: nat, x: Value)
    requires v.Valid() && InitArray(v, Utf8, off, length, width, x, true).Ok?
    ensures FillSlots(Input(x), width).Ok?
    ensures v.base + off + |FillSlots(Input(x), width).value| <= |v.buf|
    ensures InitArray(v, Utf8, off, length, width, x, true).value
      == Splice(v.buf, v.base + off, FillSlots(Input(x), width).value)
  {
  }
}
