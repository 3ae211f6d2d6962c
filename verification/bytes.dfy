/** Little-endian integer encoding, as DataView performs it with
    `littleEndian = true` (section 25.3.1 of ECMA-262, NumericToRawBytes and
    RawBytesToNumeric), and the modular conversions ToInt8 … ToUint32 and
    BigInt.asIntN / asUintN (sections 7.1.6-7.1.11 and 21.2.2 of ECMA-262)
    that decide which bits are stored. */
module Bytes {
  import opened Common
  import opened Arith

  function Pow256(n: nat): (r: int)
    ensures r >= 1
  {
    if n == 0 then 1 else 256 * Pow256(n - 1)
  }

  /** The `n` low-order bytes of `v`'s two's-complement representation, least
      significant first. */
  function EncodeLE(v: int, n: nat): (r: seq<byte>)
    ensures |r| == n
    decreases n
  {
    if n == 0 then [] else [v % 256] + EncodeLE(v / 256, n - 1)
  }

  /** The unsigned value of a little-endian byte string. */
  function DecodeLE(bs: seq<byte>): (r: nat)
    ensures r < Pow256(|bs|)
  {
    if |bs| == 0 then 0 else bs[0] + 256 * DecodeLE(bs[1..])
  }

  /** Decoding an encoding gives the value reduced modulo 256^n. */
  lemma {:induction false} DecodeEncode(v: int, n: nat)
    ensures DecodeLE(EncodeLE(v, n)) == v % Pow256(n)
    decreases n
  {
    if n > 0 {
      var e := EncodeLE(v, n);
      assert e[1..] == EncodeLE(v / 256, n - 1);
      DecodeEncode(v / 256, n - 1);
      ModSplit(v, 256, Pow256(n - 1));
    }
  }

  /** Encoding a decoded byte string reproduces it byte for byte. */
  lemma {:induction false} EncodeDecode(bs: seq<byte>)
    ensures EncodeLE(DecodeLE(bs), |bs|) == bs
  {
    if |bs| > 0 {
      var v := DecodeLE(bs);
      ModUnique(v, 256, DecodeLE(bs[1..]), bs[0]);
      EncodeDecode(bs[1..]);
    }
  }

  /** Only the value modulo 256^n reaches the bytes. */
  lemma EncodeModular(v: int, w: int, n: nat)
    requires v % Pow256(n) == w % Pow256(n)
    ensures EncodeLE(v, n) == EncodeLE(w, n)
  {
    DecodeEncode(v, n);
    DecodeEncode(w, n);
    EncodeDecode(EncodeLE(v, n));
    EncodeDecode(EncodeLE(w, n));
  }

  /** ToUint8 / ToUint16 / ToUint32 / BigInt.asUintN(64) for an `n`-byte field. */
  function ToUintN(v: int, n: nat): (r: nat)
    ensures r < Pow256(n)
  {
    v % Pow256(n)
  }

  /** ToInt8 / ToInt16 / ToInt32 / BigInt.asIntN(64) for an `n`-byte field:
      the representative of `v` modulo 256^n in the signed range. */
  function ToIntN(v: int, n: nat): (r: int)
    requires n > 0
    ensures -Pow256(n) <= 2 * r < Pow256(n)
    ensures (v - r) % Pow256(n) == 0
  {
    var p := Pow256(n);
    var u := v % p;
    ModUnique(v - u, p, v / p, 0);
    if 2 * u >= p then
      ModUnique(v - (u - p), p, v / p + 1, 0);
      u - p
    else u
  }

  /** The value of a little-endian two's-complement byte string. */
  function DecodeSigned(bs: seq<byte>): (r: int)
    requires |bs| > 0
    ensures -Pow256(|bs|) <= 2 * r < Pow256(|bs|)
    ensures r == DecodeLE(bs) || r == DecodeLE(bs) - Pow256(|bs|)
  {
    var u := DecodeLE(bs);
    if 2 * u >= Pow256(|bs|) then u - Pow256(|bs|) else u
  }

  /** Reading a signed field back after a store gives the signed wrap of the
      stored value. */
  lemma DecodeSignedEncode(v: int, n: nat)
    requires n > 0
    ensures DecodeSigned(EncodeLE(v, n)) == ToIntN(v, n)
  {
    DecodeEncode(v, n);
  }

  /** The wraps leave exactly the representable values unchanged. */
  lemma ToUintNIdentity(v: int, n: nat)
    ensures ToUintN(v, n) == v <==> 0 <= v < Pow256(n)
  {
    if 0 <= v < Pow256(n) {
      ModUnique(v, Pow256(n), 0, v);
    }
  }

  lemma ToIntNIdentity(v: int, n: nat)
    requires n > 0
    ensures ToIntN(v, n) == v <==> -Pow256(n) <= 2 * v < Pow256(n)
  {
    var p := Pow256(n);
    if -p <= 2 * v < p {
      if v >= 0 {
        ModUnique(v, p, 0, v);
      } else {
        ModUnique(v, p, -1, v + p);
      }
    }
  }
}
