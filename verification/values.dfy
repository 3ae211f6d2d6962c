/** The JavaScript values the model stores and reads, and the conversions the
    stores apply to them. Text is represented by its UTF-8 bytes. */
module Values {
  import opened Common
  import opened Arith
  import TypeTag

  datatype Value =
    | Undefined                 // `undefined`
    | Null                      // `null`
    | Num(n: int)               // an integral Number or a BigInt
    | Flag(b: bool)
    | Text(s: seq<byte>)        // a string, by its UTF-8 bytes
    | List(items: seq<Value>)   // an Array

  /** JavaScript truthiness, which the bool setter tests with `value ? 1 : 0`. */
  predicate Truthy(v: Value) {
    match v
    case Undefined => false
    case Null => false
    case Num(n) => n != 0
    case Flag(b) => b
    case Text(s) => |s| > 0
    case List(_) => true
  }

  /** `undefined` or `null`: the values `value != null` rejects and
      `join` prints as nothing. */
  predicate Nullish(v: Value) {
    v.Undefined? || v.Null?
  }

  /** Some element is `undefined` or `null`. */
  predicate SomeNullish(xs: seq<Value>) {
    exists i :: 0 <= i < |xs| && Nullish(xs[i])
  }

  /** The integer a Number store receives after ToNumber: `null` is 0, and
      NaN (from `undefined`) becomes 0 under every modular and clamping
      conversion. The BigInt kinds reject both instead (Codec.BigIntRejects),
      so for them only the other cases are used. */
  function ToIntegral(v: Value): int {
    match v
    case Num(n) => n
    case Flag(b) => if b then 1 else 0
    case _ => 0
  }

  function Ascii(s: string): (r: seq<byte>)
    requires forall i :: 0 <= i < |s| ==> s[i] as int < 128
    ensures |r| == |s|
  {
    if |s| == 0 then [] else [s[0] as int] + Ascii(s[1..])
  }

  /** ToString, as bytes: decimal for integers, `true` / `false`, and for an
      array its elements joined with `,` (`undefined` and `null` elements
      print empty). */
  function ToText(v: Value): seq<byte> {
    match v
    case Undefined => Ascii("undefined")
    case Null => Ascii("null")
    case Num(n) =>
      if n < 0 then Ascii("-" + TypeTag.Decimal(-n)) else Ascii(TypeTag.Decimal(n))
    case Flag(b) => if b then Ascii("true") else Ascii("false")
    case Text(s) => s
    case List(items) => Join(items, Ascii(","))
  }

  /** `Array.prototype.join(sep)`. */
  function Join(items: seq<Value>, sep: seq<byte>): seq<byte>
    decreases items
  {
    if |items| == 0 then []
    else
      var first := if Nullish(items[0]) then [] else ToText(items[0]);
      if |items| == 1 then first else first + sep + Join(items[1..], sep)
  }

  /** The elements `Array.prototype.flat(Infinity)` yields for one element. */
  function FlatOne(v: Value): seq<Value>
    decreases v, 1
  {
    if v.List? then Flat(v.items) else [v]
  }

  /** `Array.prototype.flat(Infinity)`: every nested array spliced in place,
      depth first. */
  function Flat(items: seq<Value>): (r: seq<Value>)
    ensures forall i :: 0 <= i < |r| ==> !r[i].List?
    decreases items, 0
  {
    if |items| == 0 then [] else FlatOne(items[0]) + Flat(items[1..])
  }

  /** `v` is a regular nested array with extents `dims`, outer to inner, whose
      innermost elements are not arrays. */
  predicate HasShape(v: Value, dims: seq<nat>)
    decreases v
  {
    if |dims| == 0 then !v.List?
    else
      v.List? && |v.items| == dims[0]
      && forall i :: 0 <= i < |v.items| ==> HasShape(v.items[i], dims[1..])
  }

  /** The nested array of extents `dims` whose row-major enumeration is `xs`:
      the shape a multi-dimensional accessor presents over a flat region.
      On a list of the wrong length the last rows come out short. */
  function Nest(xs: seq<Value>, dims: seq<nat>): (r: Value)
    requires |dims| > 0
    decreases |dims|, 1, 0
  {
    if |dims| == 1 then List(xs) else List(NestRows(xs, dims[0], dims[1..]))
  }

  /** `count` consecutive rows of extents `inner`. */
  function NestRows(xs: seq<Value>, count: nat, inner: seq<nat>): (r: seq<Value>)
    requires |inner| > 0
    ensures |r| == count
    decreases |inner| + 1, 0, count
  {
    if count == 0 then []
    else
      var width := if TypeTag.Product(inner) <= |xs| then TypeTag.Product(inner) else |xs|;
      [Nest(xs[..width], inner)] + NestRows(xs[width..], count - 1, inner)
  }

  /** One step of `NestRows`: the first row, then the rest. */
  lemma NestRowsCons(xs: seq<Value>, count: nat, inner: seq<nat>)
    requires |inner| > 0 && count > 0 && TypeTag.Product(inner) <= |xs|
    ensures NestRows(xs, count, inner)
      == [Nest(xs[..TypeTag.Product(inner)], inner)] + NestRows(xs[TypeTag.Product(inner)..], count - 1, inner)
  {
  }

  /** Flattening a regular nested array row-major and nesting the result
      again gives the array back. */
  lemma {:induction false} NestFlat(v: Value, dims: seq<nat>)
    requires |dims| > 0 && HasShape(v, dims)
    ensures |Flat(v.items)| == TypeTag.Product(dims)
    ensures Nest(Flat(v.items), dims) == v
    decreases |dims|, 1, 0
  {
    if |dims| == 1 {
      FlatOfScalars(v.items);
    } else {
      NestRowsFlat(v.items, dims[1..]);
    }
  }

  lemma {:induction false} NestRowsFlat(items: seq<Value>, inner: seq<nat>)
    requires |inner| > 0 && forall i :: 0 <= i < |items| ==> HasShape(items[i], inner)
    ensures |Flat(items)| == |items| * TypeTag.Product(inner)
    ensures NestRows(Flat(items), |items|, inner) == items
    decreases |inner| + 1, 0, |items|
  {
    if |items| > 0 {
      var first, others := items[0], items[1..];
      NestFlat(first, inner);
      NestRowsFlat(others, inner);
      FlatCons(first, others);
      assert items == [first] + others;
      NestRowsJoin(Flat(first.items), Flat(others), |others|, inner);
    }
  }

  /** Flattening a list of rows: the first row's elements, then the rest. */
  lemma FlatCons(first: Value, others: seq<Value>)
    requires first.List?
    ensures Flat([first] + others) == Flat(first.items) + Flat(others)
  {
    assert ([first] + others)[1..] == others;
  }

  /** A first row and `count` further rows nest to the rows joined. */
  lemma NestRowsJoin(head: seq<Value>, rest: seq<Value>, count: nat, inner: seq<nat>)
    requires |inner| > 0
    requires |head| == TypeTag.Product(inner) && |rest| == count * TypeTag.Product(inner)
    ensures |head + rest| == (count + 1) * TypeTag.Product(inner)
    ensures NestRows(head + rest, count + 1, inner) == [Nest(head, inner)] + NestRows(rest, count, inner)
  {
    var xs := head + rest;
    AddMul(count, TypeTag.Product(inner));
    NestRowsCons(xs, count + 1, inner);
    assert xs[..|head|] == head && xs[|head|..] == rest;
  }

  lemma {:induction false} FlatOfScalars(items: seq<Value>)
    requires forall i :: 0 <= i < |items| ==> !items[i].List?
    ensures Flat(items) == items
  {
    if |items| > 0 {
      FlatOfScalars(items[1..]);
    }
  }
}
