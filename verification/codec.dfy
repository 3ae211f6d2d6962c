/** The byte codecs behind every accessor: DataView scalar get/set with
    `littleEndian = true` (arraybuffer-struct.js:27-112, 207, 255-256,
    297-298), typed-array elements, the utf8 text pair and `cString`
    (arraybuffer-struct.js:26, 114-120), and the initial-value writer for
    array leaves (arraybuffer-struct.js:189-205, 217-223). Float kinds are
    excluded: their values are IEEE-754 numbers. */
module Codec {
  import opened Common
  import opened Arith
  import opened Bytes
  import opened Kinds
  import opened Values

  /** A DataView: the `len` bytes of `buf` from `base` on. Accessor offsets
      are relative to `base`; typed arrays are placed by absolute position. */
  datatype View = View(buf: seq<byte>, base: nat, len: nat) {
    predicate Valid() { base + len <= |buf| }
  }

  /** `bs` written over `buf` from position `at`. */
  function Splice(buf: seq<byte>, at: nat, bs: seq<byte>): (r: seq<byte>)
    requires at + |bs| <= |buf|
    ensures |r| == |buf|
  {
    buf[..at] + bs + buf[at + |bs|..]
  }

  /** Each byte after the write: from `bs` inside the written range, as it
      was outside it. */
  lemma SpliceAt(buf: seq<byte>, at: nat, bs: seq<byte>, i: nat)
    requires at + |bs| <= |buf| && i < |buf|
    ensures Splice(buf, at, bs)[i] == if at <= i < at + |bs| then bs[i - at] else buf[i]
  {
  }

  lemma SpliceWindow(buf: seq<byte>, at: nat, bs: seq<byte>)
    requires at + |bs| <= |buf|
    ensures Splice(buf, at, bs)[at..at + |bs|] == bs
  {
  }

  /** A window from `at + p`: the written bytes from `p` on, then the old
      bytes where the written ones stop. */
  lemma SpliceWindowMixed(buf: seq<byte>, at: nat, bs: seq<byte>, p: nat, w: nat)
    requires at + |bs| <= |buf| && at + p + w <= |buf|
    ensures Splice(buf, at, bs)[at + p..at + p + w]
      == if p + w <= |bs| then bs[p..p + w]
         else if |bs| <= p then buf[at + p..at + p + w]
         else bs[p..] + buf[at + |bs|..at + p + w]
  {
    var r := Splice(buf, at, bs);
    if p + w <= |bs| {
      SpliceSub(buf, at, bs, p, w, at + p);
    } else if |bs| <= p {
      SpliceFrame(buf, at, bs, at + p, at + p + w);
    } else {
      var want := bs[p..] + buf[at + |bs|..at + p + w];
      forall i | 0 <= i < w ensures r[at + p + i] == want[i] {
        SpliceAt(buf, at, bs, at + p + i);
      }
      assert r[at + p..at + p + w] == want;
    }
  }

  /** A window inside the written range holds the written bytes. */
  lemma SpliceSub(buf: seq<byte>, at: nat, bs: seq<byte>, p: nat, w: nat, lo: nat)
    requires at + |bs| <= |buf| && p + w <= |bs| && lo == at + p
    ensures lo + w <= |buf|
    ensures Splice(buf, at, bs)[lo..lo + w] == bs[p..p + w]
  {
  }

  /** A window that does not meet the written range is left as it was. */
  lemma SpliceFrame(buf: seq<byte>, at: nat, bs: seq<byte>, lo: nat, hi: nat)
    requires at + |bs| <= |buf| && lo <= hi <= |buf|
    requires hi <= at || at + |bs| <= lo
    ensures Splice(buf, at, bs)[lo..hi] == buf[lo..hi]
  {
  }

  // ---------------------------------------------------------------------
  // Element conversions
  // ---------------------------------------------------------------------

  /** The value a getter returns for the `k.Size()` bytes `bs`: getIntN /
      getUintN / getBigInt64 / getBigUint64, `Boolean(getUint8)` for bool,
      and for the utf8 scalar the one-byte string. */
  function Decode(k: Kind, bs: seq<byte>): Value
    requires !k.IsFloat() && |bs| == k.Size()
  {
    match k
    case Bool => Flag(bs[0] != 0)
    case Utf8 => Text(bs)
    case _ => if k.IsSigned() then Num(DecodeSigned(bs)) else Num(DecodeLE(bs))
  }

  /** The integers an integer kind represents. */
  predicate InRange(k: Kind, n: int)
    requires k.IsInteger()
  {
    if k.IsSigned() then -Pow256(k.Size()) <= 2 * n < Pow256(k.Size())
    else 0 <= n < Pow256(k.Size())
  }

  /** The modular conversion a DataView store applies (ToInt8 … ToUint32,
      BigInt.asIntN / asUintN): `u8c` wraps too, since its DataView setter is
      setUint8. */
  function Wrap(k: Kind, n: int): (r: int)
    requires k.IsInteger()
    ensures InRange(k, r)
  {
    if k.IsSigned() then ToIntN(n, k.Size()) else ToUintN(n, k.Size())
  }

  /** ToUint8Clamp of an integer: the conversion of a Uint8ClampedArray store. */
  function Clamp(n: int): (r: int)
    ensures 0 <= r < 256
    ensures 0 <= n < 256 ==> r == n
    ensures n < 0 ==> r == 0
    ensures n >= 256 ==> r == 255
  {
    if n < 0 then 0 else if n > 255 then 255 else n
  }

  /** The conversion a typed-array element store applies. */
  function Converted(k: Kind, n: int): (r: int)
    requires k.IsInteger()
    ensures InRange(k, r)
  {
    if k.U8c? then Clamp(n) else Wrap(k, n)
  }

  /** The bytes a DataView setter stores: the value's integer encoding; 1 or
      0 by truthiness for bool; for the utf8 scalar the first byte of the
      value's encoding, or 0 (`undefined` converted by setUint8) when it is
      empty, as it is for `undefined` and the empty string. */
  function EncodeScalar(k: Kind, x: Value): (r: seq<byte>)
    requires !k.IsFloat()
    ensures |r| == k.Size()
  {
    match k
    case Bool => [if Truthy(x) then 1 else 0]
    case Utf8 => [FirstByte(x)]
    case _ => EncodeLE(ToIntegral(x), k.Size())
  }

  /** `encoder.encode(x)[0]` as setUint8 stores it: `encode()` of
      `undefined` is empty, any other value is encoded by its text. */
  function FirstByte(x: Value): (r: byte)
    ensures x.Undefined? ==> r == 0
    ensures !x.Undefined? && |ToText(x)| > 0 ==> r == ToText(x)[0]
  {
    var t := if x.Undefined? then [] else ToText(x);
    if |t| == 0 then 0 else t[0]
  }

  /** What a getter returns after the setter stored `x`. */
  function Stored(k: Kind, x: Value): Value
    requires !k.IsFloat()
  {
    if k.Bool? then Flag(Truthy(x))
    else if k.Utf8? then Text([FirstByte(x)])
    else Num(Wrap(k, ToIntegral(x)))
  }

  /** Decoding what the setter encoded gives the stored value. */
  lemma DecodeEncodeScalar(k: Kind, x: Value)
    requires !k.IsFloat()
    ensures Decode(k, EncodeScalar(k, x)) == Stored(k, x)
  {
    if k.IsInteger() {
      var n := ToIntegral(x);
      if k.IsSigned() {
        DecodeSignedEncode(n, k.Size());
      } else {
        DecodeEncode(n, k.Size());
      }
    }
  }

  /** An element store leaves exactly the representable integers unchanged. */
  lemma ConvertedIdentity(k: Kind, n: int)
    requires k.IsInteger()
    ensures Converted(k, n) == n <==> InRange(k, n)
  {
    if k.U8c? {
      assert Pow256(1) == 256;
    } else {
      WrapIdentity(k, n);
    }
  }

  /** The wrap leaves exactly the representable integers unchanged. */
  lemma WrapIdentity(k: Kind, n: int)
    requires k.IsInteger()
    ensures Wrap(k, n) == n <==> InRange(k, n)
  {
    if k.IsSigned() {
      ToIntNIdentity(n, k.Size());
    } else {
      ToUintNIdentity(n, k.Size());
    }
  }

  // ---------------------------------------------------------------------
  // DataView scalar accessors
  // ---------------------------------------------------------------------

  /** `typeMap[k].get.call(view, off, true)`: a RangeError when the field
      reaches past the view's end. */
  function GetScalar(v: View, k: Kind, off: nat): (r: Result<Value>)
    requires v.Valid() && !k.IsFloat()
    ensures r.Err? <==> off + k.Size() > v.len
    ensures r.Err? ==> r.error == OutOfBounds
    ensures r.Ok? ==> r.value == Decode(k, v.buf[v.base + off..v.base + off + k.Size()])
  {
    if off + k.Size() > v.len then Err(OutOfBounds)
    else Ok(Decode(k, v.buf[v.base + off..v.base + off + k.Size()]))
  }

  /** A store the ToBigInt conversion refuses: `undefined` or `null` given to
      a 64-bit kind. */
  predicate BigIntRejects(k: Kind, x: Value) {
    k.IsBigInt() && Nullish(x)
  }

  /** `typeMap[k].set.call(view, off, x, true)`: the view over the updated
      buffer. The value is converted before the index is checked, so a
      rejected BigInt conversion is a TypeError wherever the field lies.
      Only the field's own bytes change. */
  function SetScalar(v: View, k: Kind, off: nat, x: Value): (r: Result<View>)
    requires v.Valid() && !k.IsFloat()
    ensures r == Err(TypeError) <==> BigIntRejects(k, x)
    ensures r == Err(OutOfBounds) <==> !BigIntRejects(k, x) && off + k.Size() > v.len
    ensures r.Err? ==> r.error == TypeError || r.error == OutOfBounds
    ensures r.Ok? ==> r.value.Valid() && r.value.base == v.base && r.value.len == v.len
    ensures r.Ok? ==> |r.value.buf| == |v.buf|
    ensures r.Ok? ==> forall i :: 0 <= i < |v.buf| && !(v.base + off <= i < v.base + off + k.Size()) ==>
      r.value.buf[i] == v.buf[i]
  {
    if BigIntRejects(k, x) then Err(TypeError)
    else if off + k.Size() > v.len then Err(OutOfBounds)
    else Ok(View(Splice(v.buf, v.base + off, EncodeScalar(k, x)), v.base, v.len))
  }

  /** Set then get: a 64-bit field refuses `undefined` and `null`, and any
      other store is read back by the getter as its stored conversion. */
  lemma ScalarSetGet(v: View, k: Kind, off: nat, x: Value)
    requires v.Valid() && !k.IsFloat() && off + k.Size() <= v.len
    ensures SetScalar(v, k, off, x).Ok? <==> !BigIntRejects(k, x)
    ensures !BigIntRejects(k, x) ==> GetScalar(SetScalar(v, k, off, x).value, k, off) == Ok(Stored(k, x))
  {
    SpliceWindow(v.buf, v.base + off, EncodeScalar(k, x));
    DecodeEncodeScalar(k, x);
  }

  /** An in-range integer reads back unchanged; any other wraps modulo
      256^size into the kind's range. */
  lemma ScalarRoundTrip(v: View, k: Kind, off: nat, n: int)
    requires v.Valid() && k.IsInteger() && off + k.Size() <= v.len
    ensures var got := GetScalar(SetScalar(v, k, off, Num(n)).value, k, off).value.n;
      InRange(k, got) && (got == n <==> InRange(k, n))
      && (n - got) % Pow256(k.Size()) == 0
  {
    ScalarSetGet(v, k, off, Num(n));
    WrapIdentity(k, n);
    WrapCongruent(k, n);
  }

  /** The wrap changes a value by a multiple of 256^size. */
  lemma WrapCongruent(k: Kind, n: int)
    requires k.IsInteger()
    ensures (n - Wrap(k, n)) % Pow256(k.Size()) == 0
  {
    var p := Pow256(k.Size());
    if !k.IsSigned() {
      ModUnique(n - n % p, p, n / p, 0);
    }
  }

  /** A bool field stores 1 or 0 and reads back the truthiness of the value. */
  lemma BoolSetGet(v: View, off: nat, x: Value)
    requires v.Valid() && off + 1 <= v.len
    ensures SetScalar(v, Bool, off, x).value.buf[v.base + off] == (if Truthy(x) then 1 else 0)
    ensures GetScalar(SetScalar(v, Bool, off, x).value, Bool, off) == Ok(Flag(Truthy(x)))
  {
    ScalarSetGet(v, Bool, off, x);
  }

  /** A store leaves every field it does not overlap reading as before. */
  lemma ScalarFrame(v: View, k: Kind, off: nat, x: Value, k2: Kind, off2: nat)
    requires v.Valid() && !k.IsFloat() && !k2.IsFloat() && SetScalar(v, k, off, x).Ok?
    requires off2 + k2.Size() <= off || off + k.Size() <= off2
    ensures GetScalar(SetScalar(v, k, off, x).value, k2, off2) == GetScalar(v, k2, off2)
  {
    SpliceGetFrame(v, off, EncodeScalar(k, x), k2, off2);
  }

  /** Any write of `bs` at view offset `off` leaves a field that does not
      overlap it reading as before. */
  lemma SpliceGetFrame(v: View, off: nat, bs: seq<byte>, k2: Kind, off2: nat)
    requires v.Valid() && !k2.IsFloat() && off + |bs| <= v.len
    requires off2 + k2.Size() <= off || off + |bs| <= off2
    ensures GetScalar(View(Splice(v.buf, v.base + off, bs), v.base, v.len), k2, off2) == GetScalar(v, k2, off2)
  {
    if off2 + k2.Size() <= v.len {
      SpliceFrame(v.buf, v.base + off, bs, v.base + off2, v.base + off2 + k2.Size());
    }
  }

  // ---------------------------------------------------------------------
  // Typed-array elements
  // ---------------------------------------------------------------------

  /** The bytes a typed-array element store writes: clamped for `u8c`,
      wrapped for the others; a bool array is a Uint8Array. */
  function ElemBytes(k: Kind, x: Value): (r: seq<byte>)
    requires !k.IsFloat()
    ensures |r| == k.Size()
  {
    if k.U8c? then [Clamp(ToIntegral(x))] else EncodeLE(ToIntegral(x), k.Size())
  }

  /** Element `i` of a typed array of `len` elements at absolute position
      `at`: its value, or `undefined` past the end. */
  function TypedGet(buf: seq<byte>, k: Kind, at: nat, len: nat, i: nat): (r: Value)
    requires k.IsInteger() && at + len * k.Size() <= |buf|
    ensures i >= len <==> r.Undefined?
  {
    if i < len then
      MulLe(i + 1, len, k.Size());
      Decode(k, buf[at + i * k.Size()..at + i * k.Size() + k.Size()])
    else Undefined
  }

  /** `ta[i] = x`: the buffer after the store. The value is converted
      first, so a BigInt array refuses `undefined` and `null` with a
      TypeError at any index; otherwise a store past the end is ignored. */
  function TypedSet(buf: seq<byte>, k: Kind, at: nat, len: nat, i: nat, x: Value): (r: Result<seq<byte>>)
    requires k.IsInteger() && at + len * k.Size() <= |buf|
    ensures r.Err? <==> BigIntRejects(k, x)
    ensures r.Err? ==> r.error == TypeError
    ensures r.Ok? ==> |r.value| == |buf|
    ensures r.Ok? && i >= len ==> r.value == buf
    ensures r.Ok? ==> forall j :: 0 <= j < |buf| && !(at + i * k.Size() <= j < at + i * k.Size() + k.Size()) ==>
      r.value[j] == buf[j]
  {
    if BigIntRejects(k, x) then Err(TypeError)
    else if i < len then
      MulLe(i + 1, len, k.Size());
      Ok(Splice(buf, at + i * k.Size(), ElemBytes(k, x)))
    else Ok(buf)
  }

  /** Element set then get: a BigInt array refuses `undefined` and `null`,
      and any other store reads back as the element conversion. */
  lemma TypedSetGet(buf: seq<byte>, k: Kind, at: nat, len: nat, i: nat, x: Value)
    requires k.IsInteger() && at + len * k.Size() <= |buf| && i < len
    ensures TypedSet(buf, k, at, len, i, x) == Err(TypeError) <==> BigIntRejects(k, x)
    ensures !BigIntRejects(k, x) ==>
      TypedGet(TypedSet(buf, k, at, len, i, x).value, k, at, len, i) == Num(Converted(k, ToIntegral(x)))
  {
    MulLe(i + 1, len, k.Size());
    StoredWindow(buf, k, at + i * k.Size(), x);
  }

  /** The element window just stored decodes to the element conversion. */
  lemma StoredWindow(buf: seq<byte>, k: Kind, p: nat, x: Value)
    requires k.IsInteger() && p + k.Size() <= |buf|
    ensures Decode(k, Splice(buf, p, ElemBytes(k, x))[p..p + k.Size()]) == Num(Converted(k, ToIntegral(x)))
  {
    SpliceWindow(buf, p, ElemBytes(k, x));
    DecodeElemBytes(k, x);
  }

  /** The bytes of one stored element decode to the element conversion. */
  lemma DecodeElemBytes(k: Kind, x: Value)
    requires k.IsInteger()
    ensures Decode(k, ElemBytes(k, x)) == Num(Converted(k, ToIntegral(x)))
  {
    var bs := ElemBytes(k, x);
    var n := ToIntegral(x);
    if k.U8c? {
      assert Decode(k, bs) == Num(DecodeLE(bs));
      assert DecodeLE(bs) == bs[0] + 256 * DecodeLE(bs[1..]);
    } else if k.IsSigned() {
      DecodeSignedEncode(n, k.Size());
    } else {
      DecodeEncode(n, k.Size());
    }
  }

  // ---------------------------------------------------------------------
  // Text
  // ---------------------------------------------------------------------

  /** `cString`: the text up to the first NUL, or all of it when there is none. */
  function CString(bs: seq<byte>): (r: seq<byte>)
    ensures r <= bs && 0 !in r
    ensures |r| < |bs| ==> bs[|r|] == 0
  {
    if |bs| == 0 || bs[0] == 0 then [] else [bs[0]] + CString(bs[1..])
  }

  /** Text without a NUL is its own C string. */
  lemma {:induction false} CStringNoNul(bs: seq<byte>)
    requires 0 !in bs
    ensures CString(bs) == bs
  {
    if |bs| > 0 {
      assert 0 !in bs[1..];
      CStringNoNul(bs[1..]);
    }
  }

  /** A NUL right after NUL-free text ends the C string there, whatever follows. */
  lemma {:induction false} CStringTerminated(s: seq<byte>, rest: seq<byte>)
    requires 0 !in s
    ensures CString(s + [0] + rest) == s
  {
    if |s| > 0 {
      assert (s + [0] + rest)[1..] == s[1..] + [0] + rest;
      assert 0 !in s[1..];
      CStringTerminated(s[1..], rest);
    } else {
      assert (s + [0] + rest)[0] == 0;
    }
  }

  /** The getter of the utf8 text pair: the whole window decoded, cut at the
      first NUL. */
  function TextGet(buf: seq<byte>, at: nat, len: nat): (r: Value)
    requires at + len <= |buf|
    ensures r.Text? && |r.s| <= len && 0 !in r.s
  {
    Text(CString(buf[at..at + len]))
  }

  /** The setter of the utf8 text pair: the value's text and a NUL, written
      from the window's start; a RangeError when they do not fit. The bytes
      after the NUL keep their old contents. */
  function TextSet(buf: seq<byte>, at: nat, len: nat, x: Value): (r: Result<seq<byte>>)
    requires at + len <= |buf|
    ensures r.Err? <==> |ToText(x)| + 1 > len
    ensures r.Err? ==> r.error == SourceTooLarge
    ensures r.Ok? ==> |r.value| == |buf| && r.value[at..at + |ToText(x)| + 1] == ToText(x) + [0]
    ensures r.Ok? ==> forall j :: 0 <= j < |buf| && !(at <= j <= at + |ToText(x)|) ==> r.value[j] == buf[j]
  {
    var bytes := ToText(x) + [0];
    if |bytes| > len then Err(SourceTooLarge)
    else
      SpliceWindow(buf, at, bytes);
      Ok(Splice(buf, at, bytes))
  }

  /** Set then get: a string of NUL-free bytes that fits with its terminator
      reads back unchanged; any text reads back up to its first NUL. */
  lemma TextSetGet(buf: seq<byte>, at: nat, len: nat, x: Value)
    requires at + len <= |buf| && |ToText(x)| + 1 <= len
    ensures TextGet(TextSet(buf, at, len, x).value, at, len) == Text(CString(ToText(x)))
    ensures 0 !in ToText(x) ==> TextGet(TextSet(buf, at, len, x).value, at, len) == Text(ToText(x))
  {
    SpliceTextGet(buf, at, len, ToText(x));
  }

  /** Any text written with its terminator reads back up to its first NUL. */
  lemma SpliceTextGet(buf: seq<byte>, at: nat, len: nat, t: seq<byte>)
    requires at + len <= |buf| && |t| + 1 <= len
    ensures TextGet(Splice(buf, at, t + [0]), at, len) == Text(CString(t))
    ensures 0 !in t ==> TextGet(Splice(buf, at, t + [0]), at, len) == Text(t)
  {
    var b := Splice(buf, at, t + [0]);
    var rest := SpliceTextWindow(buf, at, len, t);
    assert TextGet(b, at, len) == Text(CString(t + [0] + rest));
    CStringPrefix(t, rest);
    if 0 !in t {
      CStringNoNul(t);
    }
  }

  /** The window after writing a text and its NUL: that text, the NUL, and
      the window's remaining bytes. */
  lemma SpliceTextWindow(buf: seq<byte>, at: nat, len: nat, t: seq<byte>) returns (rest: seq<byte>)
    requires at + len <= |buf| && |t| + 1 <= len
    ensures Splice(buf, at, t + [0])[at..at + len] == t + [0] + rest
  {
    var b := Splice(buf, at, t + [0]);
    var n := |t| + 1;
    SpliceWindow(buf, at, t + [0]);
    rest := b[at + n..at + len];
    assert b[at..at + len] == b[at..at + n] + rest;
  }

  /** Whatever follows a NUL-terminated text does not change its C string. */
  lemma {:induction false} CStringPrefix(t: seq<byte>, rest: seq<byte>)
    ensures CString(t + [0] + rest) == CString(t)
  {
    if |t| > 0 {
      assert (t + [0] + rest)[1..] == t[1..] + [0] + rest;
      CStringPrefix(t[1..], rest);
    } else {
      assert (t + [0] + rest)[0] == 0;
    }
  }

  /** One slot of `fillMultiDimsUtf8`: a string NUL-padded to `width` by its
      length; an array is padded by its element count; a number or boolean
      has no `length` and is not padded; `undefined` and `null` throw when
      their `length` is read. */
  function Slot(x: Value, width: nat): (r: Result<seq<byte>>)
    ensures r.Err? <==> Nullish(x)
    ensures r.Err? ==> r.error == TypeError
  {
    match x
    case Undefined => Err(TypeError)
    case Null => Err(TypeError)
    case Text(s) => Ok(s + Zeros(if |s| < width then width - |s| else 0))
    case List(items) => Ok(ToText(x) + Zeros(if |items| < width then width - |items| else 0))
    case _ => Ok(ToText(x))
  }

  /** `fillMultiDimsUtf8(strs, width)`: the slots joined. */
  function FillSlots(xs: seq<Value>, width: nat): (r: Result<seq<byte>>)
    ensures r.Err? <==> exists i :: 0 <= i < |xs| && Nullish(xs[i])
    ensures r.Err? ==> r.error == TypeError
  {
    if |xs| == 0 then Ok([])
    else
      var first :- Slot(xs[0], width);
      var rest :- FillSlots(xs[1..], width);
      assert forall i :: 1 <= i < |xs| ==> xs[i] == xs[1..][i - 1];
      Ok(first + rest)
  }

  /** Strings that fit their slots occupy exactly `width` bytes each, so slot
      `j` holds string `j`, NUL-padded. */
  predicate FitsSlots(xs: seq<Value>, width: nat) {
    forall i :: 0 <= i < |xs| ==> xs[i].Text? && |xs[i].s| <= width && 0 !in xs[i].s
  }

  lemma FitsTail(xs: seq<Value>, width: nat)
    requires FitsSlots(xs, width) && |xs| > 0
    ensures FitsSlots(xs[1..], width)
  {
    assert forall i :: 0 <= i < |xs[1..]| ==> xs[1..][i] == xs[i + 1];
  }

  /** A fitting string fills its slot exactly and reads back from it. */
  lemma SlotFits(x: Value, width: nat)
    requires x.Text? && |x.s| <= width && 0 !in x.s
    ensures Slot(x, width).Ok? && |Slot(x, width).value| == width
    ensures CString(Slot(x, width).value) == x.s
  {
    var s := x.s;
    if |s| < width {
      assert Slot(x, width).value == s + [0] + Zeros(width - |s| - 1);
      CStringTerminated(s, Zeros(width - |s| - 1));
    } else {
      assert Slot(x, width).value == s;
      CStringNoNul(s);
    }
  }

  lemma {:induction false} FillSlotsFit(xs: seq<Value>, width: nat)
    requires FitsSlots(xs, width)
    ensures FillSlots(xs, width).Ok? && |FillSlots(xs, width).value| == |xs| * width
  {
    if |xs| > 0 {
      FitsTail(xs, width);
      FillSlotsFit(xs[1..], width);
      SlotFits(xs[0], width);
      assert |xs| * width == width + (|xs| - 1) * width;
    }
  }

  /** Fixed mode: slot `j` of the filled text reads back as string `j`. */
  lemma FillSlotsWindows(xs: seq<Value>, width: nat, j: nat)
    requires FitsSlots(xs, width) && j < |xs|
    ensures FillSlots(xs, width).Ok?
    ensures |FillSlots(xs, width).value| == |xs| * width
    ensures j * width + width <= |xs| * width
    ensures CString(FillSlots(xs, width).value[j * width..j * width + width]) == xs[j].s
  {
    var front, back := xs[..j], xs[j..];
    assert xs == front + back && back[0] == xs[j];
    FitsSplit(xs, width, j);
    FillSlotsAppend(front, back, width);
    FillSlotsFit(xs, width);
    FillSlotsFit(front, width);
    FitsTail(back, width);
    FillSlotsFit(back[1..], width);
    SlotFits(xs[j], width);
    FillSlotsCons(back, width);
    ElemPos(0, width, j, |xs|, j * width);
    var a, b, c := FillSlots(front, width).value, Slot(xs[j], width).value, FillSlots(back[1..], width).value;
    assert FillSlots(xs, width).value == a + (b + c);
    MiddleSlice(a, b, c, j * width, j * width + width);
  }

  /** The filled text of two runs of strings is the two texts joined. */
  lemma {:induction false} FillSlotsAppend(a: seq<Value>, b: seq<Value>, width: nat)
    requires FitsSlots(a, width) && FitsSlots(b, width)
    ensures FillSlots(a, width).Ok? && FillSlots(b, width).Ok? && FillSlots(a + b, width).Ok?
    ensures FillSlots(a + b, width).value == FillSlots(a, width).value + FillSlots(b, width).value
    decreases |a|
  {
    FillSlotsFit(a, width);
    FillSlotsFit(b, width);
    if |a| == 0 {
      assert a + b == b;
    } else {
      var ab := a + b;
      assert ab[0] == a[0] && ab[1..] == a[1..] + b;
      FitsTail(a, width);
      FillSlotsAppend(a[1..], b, width);
      SlotFits(a[0], width);
      FillSlotsCons(ab, width);
      FillSlotsCons(a, width);
    }
  }

  /** Both parts of a run of fitting strings fit. */
  lemma FitsSplit(xs: seq<Value>, width: nat, j: nat)
    requires FitsSlots(xs, width) && j <= |xs|
    ensures FitsSlots(xs[..j], width) && FitsSlots(xs[j..], width)
  {
    assert forall i :: 0 <= i < |xs[j..]| ==> xs[j..][i] == xs[j + i];
  }

  /** The middle part of a concatenation, addressed in the whole. */
  lemma MiddleSlice(a: seq<byte>, b: seq<byte>, c: seq<byte>, lo: nat, hi: nat)
    requires lo == |a| && hi == |a| + |b|
    ensures (a + (b + c))[lo..hi] == b
  {
    assert (a + (b + c))[|a|..] == b + c;
  }

  lemma FillSlotsCons(xs: seq<Value>, width: nat)
    requires |xs| > 0 && Slot(xs[0], width).Ok? && FillSlots(xs[1..], width).Ok?
    ensures FillSlots(xs, width) == Ok(Slot(xs[0], width).value + FillSlots(xs[1..], width).value)
  {
  }

  /** A window of the second part of a concatenation, addressed in the
      whole from `p`. */
  lemma ConcatSlice(a: seq<byte>, b: seq<byte>, p: nat, q: nat, w: nat)
    requires p == |a| + q && q + w <= |b|
    ensures (a + b)[p..p + w] == b[q..q + w]
  {
  }

  /** The texts of `xs` back to back. */
  function Concat(xs: seq<Value>): seq<byte>
    requires forall i :: 0 <= i < |xs| ==> xs[i].Text?
  {
    if |xs| == 0 then [] else xs[0].s + Concat(xs[1..])
  }

  /** Stream mode: `input.join('')`, which prints `undefined` and `null` as
      nothing. */
  function StreamText(xs: seq<Value>): (r: seq<byte>)
    ensures (forall i :: 0 <= i < |xs| ==> xs[i].Text?) ==> r == Concat(xs)
  {
    JoinConcat(xs);
    Join(xs, [])
  }

  lemma {:induction false} JoinConcat(xs: seq<Value>)
    ensures (forall i :: 0 <= i < |xs| ==> xs[i].Text?) ==> Join(xs, []) == Concat(xs)
  {
    if |xs| > 1 {
      JoinConcat(xs[1..]);
      if forall i :: 0 <= i < |xs| ==> xs[i].Text? {
        assert forall i :: 0 <= i < |xs[1..]| ==> xs[1..][i] == xs[i + 1];
      }
    } else if |xs| == 1 {
      assert xs[1..] == [];
    }
  }

  // ---------------------------------------------------------------------
  // The initial-value writer for array leaves
  // ---------------------------------------------------------------------

  /** `TypedArray.prototype.set(input)` from position `at`: every input
      converted as an element store converts it, one element after the
      other. */
  function WriteElems(buf: seq<byte>, k: Kind, at: nat, xs: seq<Value>): (r: seq<byte>)
    requires !k.IsFloat() && at + |xs| * k.Size() <= |buf|
    ensures |r| == |buf|
  {
    ElemsBytesLength(k, xs);
    Splice(buf, at, ElemsBytes(k, xs))
  }

  /** The stored bytes of the elements `xs`, in order. */
  function ElemsBytes(k: Kind, xs: seq<Value>): seq<byte>
    requires !k.IsFloat()
  {
    if |xs| == 0 then [] else ElemBytes(k, xs[0]) + ElemsBytes(k, xs[1..])
  }

  lemma {:induction false} ElemsBytesLength(k: Kind, xs: seq<Value>)
    requires !k.IsFloat()
    ensures |ElemsBytes(k, xs)| == |xs| * k.Size()
  {
    if |xs| > 0 {
      ElemsBytesLength(k, xs[1..]);
      AddMul(|xs| - 1, k.Size());
    }
  }

  /** The stored bytes of two runs of elements are the two runs' bytes joined. */
  lemma {:induction false} ElemsBytesAppend(k: Kind, a: seq<Value>, b: seq<Value>)
    requires !k.IsFloat()
    ensures ElemsBytes(k, a + b) == ElemsBytes(k, a) + ElemsBytes(k, b)
  {
    if |a| == 0 {
      assert a + b == b;
    } else {
      assert (a + b)[0] == a[0] && (a + b)[1..] == a[1..] + b;
      ElemsBytesAppend(k, a[1..], b);
    }
  }

  /** Element `i` of the stored bytes holds the bytes of input `i`. */
  lemma {:induction false} ElemsBytesAt(k: Kind, xs: seq<Value>, i: nat)
    requires !k.IsFloat() && i < |xs|
    ensures i * k.Size() + k.Size() <= |ElemsBytes(k, xs)|
    ensures ElemsBytes(k, xs)[i * k.Size()..i * k.Size() + k.Size()] == ElemBytes(k, xs[i])
  {
    MulNat(i, k.Size());
    var front, back := xs[..i], xs[i..];
    assert xs == front + back && back[0] == xs[i];
    ElemsBytesAppend(k, front, back);
    ElemsBytesLength(k, front);
    var a, b, c := ElemsBytes(k, front), ElemBytes(k, xs[i]), ElemsBytes(k, back[1..]);
    assert ElemsBytes(k, back) == b + c;
    assert ElemsBytes(k, xs) == a + (b + c);
    MiddleSlice(a, b, c, |a|, |a| + |b|);
  }

  /** After the bulk write, element `i` holds the bytes of input `i`. */
  lemma WriteElemsAt(buf: seq<byte>, k: Kind, at: nat, xs: seq<Value>, i: nat)
    requires !k.IsFloat() && at + |xs| * k.Size() <= |buf| && i < |xs|
    ensures at + i * k.Size() + k.Size() <= |buf|
    ensures WriteElems(buf, k, at, xs)[at + i * k.Size()..at + i * k.Size() + k.Size()] == ElemBytes(k, xs[i])
  {
    MulNat(i, k.Size());
    ElemsBytesLength(k, xs);
    ElemsBytesAt(k, xs, i);
    SpliceElem(buf, at, ElemsBytes(k, xs), k.Size(), i, |xs|, ElemBytes(k, xs[i]));
  }

  /** Window `i` of `s` bytes of a run of `n` such windows, written from `at`. */
  lemma {:induction false} SpliceElem(buf: seq<byte>, at: nat, bs: seq<byte>, s: nat, i: nat, n: nat, e: seq<byte>)
    requires |bs| == n * s && at + n * s <= |buf| && i < n
    requires i * s + s <= |bs| && bs[i * s..i * s + s] == e
    ensures at + i * s + s <= |buf|
    ensures Splice(buf, at, bs)[at + i * s..at + i * s + s] == e
  {
    MulNat(i, s);
    SpliceSub(buf, at, bs, i * s, s, at + i * s);
  }

  /** Element `i` of `n` elements of `s` bytes from `at` ends by the end of
      the last, and is element `i - 1` of those from `at + s`. */
  lemma ElemPos(at: nat, s: nat, i: nat, n: nat, p: nat)
    requires i < n && p == at + i * s
    ensures p + s <= at + n * s
    ensures i > 0 ==> p == at + s + (i - 1) * s
  {
    MulLe(i + 1, n, s);
    AddMul(i, s);
    if i > 0 {
      AddMul(i - 1, s);
    }
  }

  /** The bulk write leaves bytes outside its range untouched. */
  lemma WriteElemsFrame(buf: seq<byte>, k: Kind, at: nat, xs: seq<Value>, lo: nat, hi: nat)
    requires !k.IsFloat() && at + |xs| * k.Size() <= |buf| && lo <= hi <= |buf|
    requires hi <= at || at + |xs| * k.Size() <= lo
    ensures WriteElems(buf, k, at, xs)[lo..hi] == buf[lo..hi]
  {
    ElemsBytesLength(k, xs);
    SpliceFrame(buf, at, ElemsBytes(k, xs), lo, hi);
  }

  /** The input an array leaf's initial value supplies: an array flattened
      completely, anything else as a one-element array. */
  function Input(x: Value): (r: seq<Value>)
    ensures forall i :: 0 <= i < |r| ==> !r[i].List?
  {
    if x.List? then Flat(x.items) else [x]
  }

  /** Lines 189-205 for a leaf of kind `k` with `length` elements at view
      offset `off`: the text or the elements are computed first (a TypeError
      from an `undefined` slot), then the typed array over the leaf is built
      (a RangeError when misaligned or past the buffer's end), then `set`
      copies them in (a RangeError when there are more than `length`, and a
      TypeError from a BigInt array meeting `undefined` or `null`, which
      ends the construction; the elements already copied are not modelled). */
  function InitArray(v: View, k: Kind, off: nat, length: nat, width: nat, x: Value, fixed: bool): (r: Result<seq<byte>>)
    requires v.Valid()
    ensures r.Ok? ==> |r.value| == |v.buf|
    ensures r.Ok? ==> (v.base + off) % k.Size() == 0 && v.base + off + length * k.Size() <= |v.buf|
    ensures r.Ok? && k.Utf8? ==> InitText(Input(x), width, fixed).Ok? && |InitText(Input(x), width, fixed).value| <= length
    ensures r.Ok? && !k.Utf8? ==> |Input(x)| <= length
    ensures r.Ok? && k.IsBigInt() ==> !SomeNullish(Input(x))
    ensures r.Err? && r.error == SourceTooLarge ==>
      if k.Utf8? then InitText(Input(x), width, fixed).Ok? && |InitText(Input(x), width, fixed).value| > length
      else |Input(x)| > length
  {
    var at := v.base + off;
    if k.Utf8? then
      var bytes :- InitText(Input(x), width, fixed);
      if at + length > |v.buf| then Err(OutOfBounds)
      else if |bytes| > length then Err(SourceTooLarge)
      else Ok(Splice(v.buf, at, bytes))
    else
      var xs := Input(x);
      if at % k.Size() != 0 then Err(Misaligned)
      else if at + length * k.Size() > |v.buf| then Err(OutOfBounds)
      else if |xs| > length then Err(SourceTooLarge)
      else if k.IsBigInt() && SomeNullish(xs) then Err(TypeError)
      else if k.IsFloat() then Ok(v.buf)
      else
        MulLe(|xs|, length, k.Size());
        Ok(WriteElems(v.buf, k, at, xs))
  }

  /** The outcome of an array leaf's initialisation, check by check: a
      TypeError when a fixed-mode text slot is `undefined` or `null`;
      otherwise a misalignment, then a typed array past the buffer's end,
      then more input than elements, then (a TypeError again) a BigInt
      array given `undefined` or `null`; and success exactly when none of
      these applies. */
  lemma InitArrayOutcome(v: View, k: Kind, off: nat, length: nat, width: nat, x: Value, fixed: bool)
    requires v.Valid()
    ensures var r := InitArray(v, k, off, length, width, x, fixed);
      var at := v.base + off;
      var text := InitText(Input(x), width, fixed);
      var prepared := !k.Utf8? || text.Ok?;
      var supplied := if !k.Utf8? then |Input(x)| else if text.Ok? then |text.value| else 0;
      var rejected := k.IsBigInt() && SomeNullish(Input(x));
      && (r == Err(TypeError) <==>
            !prepared || (at % k.Size() == 0 && at + length * k.Size() <= |v.buf| && supplied <= length && rejected))
      && (r == Err(Misaligned) <==> at % k.Size() != 0)
      && (r == Err(OutOfBounds) <==> prepared && at % k.Size() == 0 && at + length * k.Size() > |v.buf|)
      && (r == Err(SourceTooLarge) <==>
            prepared && at % k.Size() == 0 && at + length * k.Size() <= |v.buf| && supplied > length)
      && (r.Ok? <==> prepared && at % k.Size() == 0 && at + length * k.Size() <= |v.buf| && supplied <= length && !rejected)
  {
    var text := InitText(Input(x), width, fixed);
    if k.Utf8? && text.Err? {
      assert text.error == TypeError;
    }
  }

  /** The text of a utf8 leaf's initial value: fixed slots of the innermost
      width, or the stream of all strings. */
  function InitText(xs: seq<Value>, width: nat, fixed: bool): (r: Result<seq<byte>>)
    ensures r.Err? <==> fixed && exists i :: 0 <= i < |xs| && Nullish(xs[i])
  {
    if fixed then FillSlots(xs, width) else Ok(StreamText(xs))
  }
}
