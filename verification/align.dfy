/** Cursor alignment of the layout planner (arraybuffer-struct.js:320-322).
    The source rounds up with a bit mask, `(offset + alignment - 1) & ~(alignment - 1)`;
    JavaScript's `&` and `~` work on 32-bit two's-complement integers
    (sections 7.1.6, 7.1.7, 13.5.6 and 13.12 of ECMA-262), which this module
    spells out. */
module Align {
  import opened Arith

  const TWO31: int := 0x8000_0000
  const TWO32: int := 0x1_0000_0000

  /** ToUint32 of an integral Number. */
  function ToUint32(x: int): (r: nat)
    ensures r < TWO32
  {
    x % TWO32
  }

  /** ToInt32 of an integral Number. */
  function ToInt32(x: int): (r: int)
    ensures -TWO31 <= r < TWO31
  {
    var u := ToUint32(x);
    if u >= TWO31 then u - TWO32 else u
  }

  /** Bitwise AND of the low `n` bits of two naturals. */
  function And(x: nat, y: nat, n: nat): (r: nat)
    ensures r < Pow2(n)
  {
    if n == 0 then 0 else (x % 2) * (y % 2) + 2 * And(x / 2, y / 2, n - 1)
  }

  /** JavaScript `x & y`. */
  function BitAnd(x: int, y: int): int {
    ToInt32(And(ToUint32(x), ToUint32(y), 32))
  }

  /** JavaScript `~x`. */
  function BitNot(x: int): int {
    -ToInt32(x) - 1
  }

  /** `alignOffset` exactly as written, including its 32-bit wrap-around. */
  function AlignOffset(offset: int, alignment: int): int {
    BitAnd(offset + alignment - 1, BitNot(alignment - 1))
  }

  /** The rounding `alignOffset` is meant to perform: the least multiple of
      `alignment` that is at least `offset`, without the 32-bit limit. The
      planner uses this one. */
  function AlignUp(offset: nat, alignment: nat): (r: nat)
    requires alignment > 0
    ensures r % alignment == 0 && offset <= r < offset + alignment
  {
    var x := offset + alignment - 1;
    var r := x - x % alignment;
    ModUnique(r, alignment, x / alignment, 0);
    r
  }

  /** The result is the LEAST aligned position at or after `offset`. */
  lemma AlignUpLeast(offset: nat, alignment: nat, m: int)
    requires alignment > 0 && m >= offset && m % alignment == 0
    ensures AlignUp(offset, alignment) <= m
  {
    var r := AlignUp(offset, alignment);
    if m < r {
      ModUnique(r - m, alignment, r / alignment - m / alignment, 0);
      assert false;
    }
  }

  lemma {:induction false} AndAllOnes(x: nat, n: nat)
    requires x < Pow2(n)
    ensures And(x, Pow2(n) - 1, n) == x
  {
    if n > 0 {
      var m := Pow2(n) - 1;
      assert m % 2 == 1 && m / 2 == Pow2(n - 1) - 1;
      AndAllOnes(x / 2, n - 1);
    }
  }

  lemma Pow2Monotone(k: nat, n: nat)
    requires k <= n
    ensures Pow2(k) <= Pow2(n)
  {
    if k < n {
      Pow2Monotone(k, n - 1);
    }
  }

  /** Masking with `2^n - 2^k` clears the low `k` bits. */
  lemma {:induction false} AndClearsLowBits(x: nat, n: nat, k: nat)
    requires k <= n && x < Pow2(n) && Pow2(k) <= Pow2(n)
    ensures And(x, Pow2(n) - Pow2(k), n) == x - x % Pow2(k)
  {
    if k == 0 {
      AndAllOnes(x, n);
    } else {
      var m := Pow2(n) - Pow2(k);
      var h := x / 2;
      var c := h % Pow2(k - 1);
      Pow2Monotone(k - 1, n - 1);
      assert m % 2 == 0 && m / 2 == Pow2(n - 1) - Pow2(k - 1) by {
        ModUnique(m, 2, Pow2(n - 1) - Pow2(k - 1), 0);
      }
      assert x == 2 * h + x % 2 && h < Pow2(n - 1);
      AndClearsLowBits(h, n - 1, k - 1);
      assert x % Pow2(k) == x % 2 + 2 * c by {
        ModSplit(x, 2, Pow2(k - 1));
      }
      assert And(x, m, n) == 2 * (h - c);
    }
  }

  lemma Pow2_32()
    ensures Pow2(32) == TWO32
  {
    assert Pow2(8) == 256;
    Pow2Add(8, 8);
    Pow2Add(16, 16);
  }

  /** `~(alignment - 1)` read back as an unsigned 32-bit pattern. */
  lemma MaskOf(alignment: nat)
    requires 1 <= alignment <= 8
    ensures ToUint32(BitNot(alignment - 1)) == TWO32 - alignment
  {
    ModUnique(alignment - 1, TWO32, 0, alignment - 1);
    ModUnique(0 - alignment as int, TWO32, -1, TWO32 - alignment);
  }

  /** For the power-of-two alignments the kind table uses and every offset
      below 2^31, the bit trick computes the least aligned position. */
  lemma AlignOffsetAgrees(offset: nat, alignment: nat)
    requires alignment == 1 || alignment == 2 || alignment == 4 || alignment == 8
    requires offset + alignment - 1 < TWO31
    ensures AlignOffset(offset, alignment) == AlignUp(offset, alignment)
  {
    var k: nat := if alignment == 1 then 0 else if alignment == 2 then 1 else if alignment == 4 then 2 else 3;
    assert Pow2(k) == alignment;
    AlignOffsetPow2(offset, k);
    var r := AlignUp(offset, alignment);
    assert ToInt32(r) == r by { ModUnique(r, TWO32, 0, r); }
  }

  /** Below 2^32 the mask computes the least aligned position, read back
      as a signed 32-bit integer. */
  lemma AlignOffsetPow2(offset: nat, k: nat)
    requires k <= 3 && offset + Pow2(k) - 1 < TWO32
    ensures AlignOffset(offset, Pow2(k)) == ToInt32(AlignUp(offset, Pow2(k)))
  {
    var a := Pow2(k);
    assert a <= 8 by { Pow2Monotone(k, 3); }
    var x := offset + a - 1;
    Pow2_32();
    Pow2Monotone(k, 32);
    MaskOf(a);
    assert ToUint32(x) == x by { ModUnique(x, TWO32, 0, x); }
    AndClearsLowBits(x, 32, k);
  }

  /** Past 2^31 the mask goes negative: aligning the cursor 2^31 to 4 bytes
      yields -2^31, an offset no view accepts. */
  lemma AlignOffsetWrapsNegative()
    ensures AlignOffset(TWO31, 4) == -TWO31
    ensures AlignUp(TWO31, 4) == TWO31
  {
    assert Pow2(2) == 4;
    AlignOffsetPow2(TWO31, 2);
    assert ToInt32(TWO31) == -TWO31 by { ModUnique(TWO31, TWO32, 0, TWO31); }
  }
}
