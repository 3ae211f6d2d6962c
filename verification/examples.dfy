/** Concrete constructions: the layouts and stores the repository's own
    test program (test/test.js) describes, worked out on the model. */
module Examples {
  import opened Common
  import opened Align
  import opened Kinds
  import opened TypeTag
  import opened Values
  import opened Fields
  import opened Planner
  import opened Codec
  import opened Struct
  import opened Binder
  import opened Reader

  /** One step of the aligned walk: the first leaf is placed at `offset`,
      the aligned cursor, and the rest from just past it. */
  lemma PlaceStep(items: seq<Item>, start: nat, offset: nat)
    requires |items| > 0 && items[0].info.kind.Size() > 0 && offset == AlignUp(start, items[0].info.kind.Size())
    ensures var tail := Place(items[1..], true, offset + items[0].info.totalSize);
      Place(items, true, start).0[0].offset == offset
      && Place(items, true, start).0[1..] == tail.0
      && Place(items, true, start).1 == tail.1
  {
  }

  /** The aligned walk over two leaves from offset 0. */
  lemma PlacePair(x: Item, y: Item, second: nat)
    requires x.info.kind.Size() > 0 && y.info.kind.Size() > 0
    requires second == AlignUp(x.info.totalSize, y.info.kind.Size())
    ensures Place([x, y], true, 0).1 == second + y.info.totalSize
  {
    assert AlignUp(0, x.info.kind.Size()) == 0;
    var s := [x, y];
    PlaceStep(s[1..], x.info.totalSize, second);
    PlaceStep(s, 0, 0);
  }

  /** The size-sorted order of two leaves, the larger first. */
  lemma SortPair(x: Item, y: Item)
    requires x.info.totalSize < y.info.totalSize
    ensures SortBySize([x, y]) == [y, x]
  {
    assert [x, y][1..] == [y];
    assert [y][1..] == [];
  }

  /** `{a: i8, b: i64}` in test/test.js, aligned in declaration order: 16 bytes. */
  lemma SmallRecordPlain(a: Item, b: Item)
    requires a.info.kind == I8 && a.info.totalSize == 1 && b.info.kind == I64 && b.info.totalSize == 8
    ensures Place(Order([a, b], PlanOptions(false, true)), true, 0).1 == 16
  {
    assert a.info.kind.Size() == 1 && b.info.kind.Size() == 8;
    assert AlignUp(1, 8) == 8;
    PlacePair(a, b, 8);
  }

  /** The same record aligned in the size-sorted order: 9 bytes. */
  lemma SmallRecordSorted(a: Item, b: Item)
    requires a.info.kind == I8 && a.info.totalSize == 1 && b.info.kind == I64 && b.info.totalSize == 8
    ensures Place(Order([a, b], PlanOptions(true, true)), true, 0).1 == 9
  {
    SortPair(a, b);
    assert a.info.kind.Size() == 1 && b.info.kind.Size() == 8;
    assert AlignUp(8, 1) == 8;
    PlacePair(b, a, 8);
  }

  /** The same record packed: 9 bytes. */
  lemma SmallRecordPacked(a: Item, b: Item)
    requires a.info.totalSize == 1 && b.info.totalSize == 8
    ensures Place(Order([a, b], PlanOptions(false, false)), false, 0).1 == 9
  {
    assert [a, b][1..] == [b] && [b][1..] == [];
    assert Place([b], false, 1).1 == 9;
  }

  /** Sorting by total size can make the aligned layout larger: `i64` then
      `u8[9]` takes 17 bytes in declaration order... */
  lemma LayoutOptPlain(a: Item, b: Item)
    requires a.info.kind == I64 && a.info.totalSize == 8 && b.info.kind == U8 && b.info.totalSize == 9
    ensures Place(Order([a, b], PlanOptions(false, true)), true, 0).1 == 17
  {
    assert a.info.kind.Size() == 8 && b.info.kind.Size() == 1;
    assert AlignUp(8, 1) == 8;
    PlacePair(a, b, 8);
  }

  /** ...and 24 bytes in the sorted order `u8[9]` then `i64`. */
  lemma LayoutOptSorted(a: Item, b: Item)
    requires a.info.kind == I64 && a.info.totalSize == 8 && b.info.kind == U8 && b.info.totalSize == 9
    ensures Place(Order([a, b], PlanOptions(true, true)), true, 0).1 == 24
  {
    assert a.info.kind.Size() == 8 && b.info.kind.Size() == 1;
    assert AlignUp(9, 8) == 16;
    SortPair(a, b);
    PlacePair(b, a, 16);
  }

  /** A tag whose identifier is not in the kind table fails the
      construction with that tag. */
  lemma UnknownTagFails()
    ensures Construct([Field("a", Leaf("float", Num(1)))], Defaults()) == Err(UnknownType("float"))
  {
    var fields := [Field("a", Leaf("float", Num(1)))];
    assert Kinds.Lookup("float").None?;
    assert ParseType("float") == Err(UnknownType("float"));
    assert FlattenNode(fields[0], [], []) == Err(UnknownType("float"));
    assert Flatten(fields, [], []) == Err(UnknownType("float"));
  }

  /** A `utf8[2][6]` leaf initialised with a 3-byte and a 6-byte string,
      like `['123', '456789']` in test/test.js. With fixed slots each string
      fills its own 6-byte row, so both read back. */
  lemma Utf8GridFixed(a: seq<byte>, b: seq<byte>)
    requires |a| == 3 && |b| == 6 && 0 !in a && 0 !in b
    ensures var r := InitArray(View(Zeros(12), 0, 12), Utf8, 0, 12, 6, List([Text(a), Text(b)]), true);
      r.Ok? && TextGet(r.value, 0, 6) == Text(a) && TextGet(r.value, 6, 6) == Text(b)
  {
    var xs := [Text(a), Text(b)];
    FlatOfScalars(xs);
    assert xs[1..] == [Text(b)];
    assert FillSlots([Text(b)], 6) == Ok(b) by {
      assert [Text(b)][1..] == [];
      assert b + Zeros(0) == b;
      assert Slot(Text(b), 6) == Ok(b);
    }
    assert Zeros(3) == [0, 0, 0];
    assert Slot(Text(a), 6) == Ok(a + [0, 0, 0]);
    var buf := a + [0, 0, 0] + b;
    assert Splice(Zeros(12), 0, buf) == buf;
    assert buf[0..6] == a + [0] + [0, 0];
    CStringPrefix(a, [0, 0]);
    CStringNoNul(a);
    assert buf[6..12] == b;
    CStringNoNul(b);
  }

  /** In stream mode the strings are joined and the rows are 6-byte windows
      of the join: `123456` and `789` for `['123', '456789']`. */
  lemma Utf8GridStream(a: seq<byte>, b: seq<byte>)
    requires |a| == 3 && |b| == 6 && 0 !in a && 0 !in b
    ensures var r := InitArray(View(Zeros(12), 0, 12), Utf8, 0, 12, 6, List([Text(a), Text(b)]), false);
      r.Ok? && TextGet(r.value, 0, 6) == Text(a + b[..3]) && TextGet(r.value, 6, 6) == Text(b[3..])
  {
    var xs := [Text(a), Text(b)];
    FlatOfScalars(xs);
    assert StreamText(xs) == a + b by {
      assert xs[1..] == [Text(b)];
      assert [Text(b)][1..] == [];
      assert Concat([Text(b)]) == b + [];
    }
    var buf := a + b + [0, 0, 0];
    assert Zeros(12)[9..] == [0, 0, 0];
    assert Splice(Zeros(12), 0, a + b) == buf;
    assert buf[0..6] == a + b[..3];
    CStringNoNul(a + b[..3]);
    assert buf[6..12] == b[3..] + [0] + [0, 0];
    CStringPrefix(b[3..], [0, 0]);
    CStringNoNul(b[3..]);
  }

  /** A typed array whose start is not a multiple of its element size is
      refused by the typed-array constructor. */
  lemma MisalignedTypedArray(x: Value)
    ensures InitArray(View(Zeros(16), 1, 12), I32, 0, 3, 3, x, true) == Err(Misaligned)
  {
  }

  /** `{value: [1n, undefined], type: 'i64[2]'}` is refused by
      BigInt64Array's `set`, although the leaf fits. */
  lemma BigIntArrayRejected(x: Value)
    requires Nullish(x)
    ensures InitArray(View(Zeros(16), 0, 16), I64, 0, 2, 2, List([Num(1), x]), true) == Err(TypeError)
  {
    FlatOfScalars([Num(1), x]);
    assert SomeNullish(Input(List([Num(1), x])));
  }

  /** An `i64` or `u64` field set to `undefined` or `null` is refused by
      setBigInt64 / setBigUint64, where an `i32` field stores it as 0. */
  lemma BigIntScalarRejected(x: Value)
    requires Nullish(x)
    ensures SetScalar(View(Zeros(8), 0, 8), I64, 0, x) == Err(TypeError)
    ensures SetScalar(View(Zeros(8), 0, 8), U64, 0, x) == Err(TypeError)
    ensures GetScalar(SetScalar(View(Zeros(8), 0, 8), I32, 0, x).value, I32, 0) == Ok(Num(0))
  {
    ScalarSetGet(View(Zeros(8), 0, 8), I32, 0, x);
    WrapIdentity(I32, 0);
    assert Stored(I32, x) == Num(0);
  }

  /** The `utf8[4][10]` leaf of the type declarations' example, at the
      start of a fresh 40-byte buffer. */
  function Grid(): LayoutEntry {
    LayoutEntry(["s"], 0, Utf8, 40, [4, 10], [true])
  }

  function Abc(): Value {
    List([Text([97]), Text([98]), Text([99])])
  }

  /** The facts both modes share: the leaf binds, it has four rows, and the
      initial value flattens to its three strings. */
  lemma GridSetup(useTyped: bool)
    ensures Product(Grid().dims) == 40 && Grid().dims[0] * Inner(Grid().dims) == 4 && Last(Grid().dims) == 10
    ensures DefineLeaf(Frame(0, 40), Grid(), useTyped).Ok?
    ensures |RowLeaves(DefineLeaf(Frame(0, 40), Grid(), useTyped).value.rows)| == 4
    ensures Input(Abc()) == [Text([97]), Text([98]), Text([99])]
  {
    var e := Grid();
    assert e.dims[1..][1..] == [];
    assert Inner(e.dims) == 1 by { assert e.dims[1..|e.dims| - 1] == []; }
    assert ArrayLeaf(Frame(0, 40), Utf8, 0, 40, useTyped).Ok?;
    RowsTile(Frame(0, 40), e, useTyped, 0);
    FlatOfScalars(Abc().items);
  }

  /** The empty string an untouched row of zeros reads. */
  lemma ZeroRow(lo: nat)
    requires lo + 10 <= 40
    ensures TextGet(Zeros(40), lo, 10) == Text([])
  {
  }

  /** `utf8[4][10]` given `['a', 'b', 'c']` with fixed slots reads
      `['a', 'b', 'c', '']`: a row per string, and the fourth keeps its
      zeros. */
  lemma Utf8GridShortFixed(useTyped: bool)
    ensures var r := InitArray(View(Zeros(40), 0, 40), Utf8, 0, 40, 10, Abc(), true);
      r.Ok? && DefineLeaf(Frame(0, 40), Grid(), useTyped).Ok?
      && var rows := RowLeaves(DefineLeaf(Frame(0, 40), Grid(), useTyped).value.rows);
         var after := View(r.value, 0, 40);
         |rows| == 4
         && ReadLeaf(after, rows[0]) == Text([97]) && ReadLeaf(after, rows[1]) == Text([98])
         && ReadLeaf(after, rows[2]) == Text([99]) && ReadLeaf(after, rows[3]) == Text([])
  {
    GridSetup(useTyped);
    var v, e, x := View(Zeros(40), 0, 40), Grid(), Abc();
    assert FitsSlots(Input(x), 10);
    FillSlotsFit(Input(x), 10);
    assert InitArray(v, Utf8, 0, 40, 10, x, true).Ok?;
    TextGridRow(v, e, useTyped, x, 0, 0);
    TextGridRow(v, e, useTyped, x, 1, 10);
    TextGridRow(v, e, useTyped, x, 2, 20);
    TextGridRow(v, e, useTyped, x, 3, 30);
    ZeroRow(30);
  }

  /** The same leaf and value in stream mode reads `['abc', '', '', '']`:
      the joined text fills the first row, and the others keep their zeros. */
  lemma Utf8GridShortStream(useTyped: bool)
    ensures var r := InitArray(View(Zeros(40), 0, 40), Utf8, 0, 40, 10, Abc(), false);
      r.Ok? && DefineLeaf(Frame(0, 40), Grid(), useTyped).Ok?
      && var rows := RowLeaves(DefineLeaf(Frame(0, 40), Grid(), useTyped).value.rows);
         var after := View(r.value, 0, 40);
         |rows| == 4
         && ReadLeaf(after, rows[0]) == Text([97, 98, 99]) && ReadLeaf(after, rows[1]) == Text([])
         && ReadLeaf(after, rows[2]) == Text([]) && ReadLeaf(after, rows[3]) == Text([])
  {
    GridSetup(useTyped);
    var v, e, x := View(Zeros(40), 0, 40), Grid(), Abc();
    var join: seq<byte> := [97, 98, 99];
    assert StreamText(Input(x)) == join by {
      var xs := Input(x);
      assert xs[1..] == [Text([98]), Text([99])] && xs[1..][1..] == [Text([99])] && xs[1..][1..][1..] == [];
    }
    TextStreamRow(v, e, useTyped, x, 0, 0);
    TextStreamRow(v, e, useTyped, x, 1, 10);
    TextStreamRow(v, e, useTyped, x, 2, 20);
    TextStreamRow(v, e, useTyped, x, 3, 30);
    StreamRows(join);
  }

  /** The four windows of the join `abc` over zeros. */
  lemma StreamRows(join: seq<byte>)
    requires join == [97, 98, 99]
    ensures StreamWindow(Zeros(40), 0, join, 0, 10) == Text(join)
    ensures StreamWindow(Zeros(40), 0, join, 10, 10) == Text([])
    ensures StreamWindow(Zeros(40), 0, join, 20, 10) == Text([])
    ensures StreamWindow(Zeros(40), 0, join, 30, 10) == Text([])
  {
    assert join[0..] + Zeros(40)[3..10] == join + [0] + Zeros(6);
    CStringPrefix(join, Zeros(6));
    CStringNoNul(join);
    ZeroRow(10);
    ZeroRow(20);
    ZeroRow(30);
  }
}
