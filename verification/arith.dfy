/** Powers of two and the division facts the byte codecs and the alignment
    arithmetic share. */
module Arith {

  function Pow2(n: nat): (r: nat)
    ensures r >= 1
  {
    if n == 0 then 1 else 2 * Pow2(n - 1)
  }

  lemma Pow2Add(m: nat, n: nat)
    ensures Pow2(m + n) == Pow2(m) * Pow2(n)
  {
    if m > 0 {
      Pow2Add(m - 1, n);
    }
  }

  /** A remainder is determined by any decomposition `v == m * q + b` with `0 <= b < m`. */
  lemma ModUnique(v: int, m: int, q: int, b: int)
    requires m > 0 && v == m * q + b && 0 <= b < m
    ensures v % m == b && v / m == q
  {
    var q', b' := v / m, v % m;
    assert m * (q' - q) == b - b';
    if q' - q >= 1 {
      assert false;
    } else if q' - q <= -1 {
      assert false;
    }
  }

  /** Taking the remainder by `d * e` splits into a remainder by `d` and a
      remainder by `e` of the quotient: the digit arithmetic behind both
      little-endian encoding and bit masking. */
  lemma ModSplit(v: int, d: int, e: int)
    requires d > 0 && e > 0
    ensures v % (d * e) == v % d + d * ((v / d) % e)
    ensures v / (d * e) == (v / d) / e
  {
    var q := v / d;
    var r := v % d;
    var q2 := q / e;
    var r2 := q % e;
    var de := d * e;
    assert v == d * q + r;
    assert q == e * q2 + r2;
    MulRegroup(d, e, q2, r2, de);
    MulDigitBound(d, e, r2, de);
    ModUnique(v, de, q2, d * r2 + r);
  }

  /** `d * (e * q + r) == (d * e) * q + d * r`, with the product `d * e` named. */
  lemma MulRegroup(d: int, e: int, q: int, r: int, de: int)
    requires de == d * e
    ensures d * (e * q + r) == de * q + d * r
  {
  }

  /** A digit below `e` scaled by `d` leaves room for a remainder below `d`. */
  lemma MulDigitBound(d: int, e: int, r: int, de: int)
    requires d > 0 && 0 <= r < e && de == d * e
    ensures 0 <= d * r && d * r + d <= de
  {
    assert d * r <= d * (e - 1);
  }

  /** Scaling preserves order: `a <= b` gives `a * c <= b * c`. */
  lemma MulLe(a: nat, b: nat, c: nat)
    requires a <= b
    ensures a * c <= b * c
  {
  }

  /** Multiplication distributes over a sum on the left. */
  lemma AddMulDistrib(a: nat, b: nat, c: nat)
    ensures (a + b) * c == a * c + b * c
  {
  }

  /** One more row of width `b`. */
  lemma AddMul(a: nat, b: nat)
    ensures a * b + b == (a + 1) * b
  {
  }

  /** The first `b` rows and the `a - b` after them make `a` rows. */
  lemma SubMul(a: nat, b: nat, c: nat)
    requires b <= a
    ensures b * c + (a - b) * c == a * c
  {
  }

  /** Stepping a multiple of `s` by whole multiples of `s` keeps it one. */
  lemma AlignedStep(a: nat, i: nat, s: nat)
    requires s > 0 && a % s == 0
    ensures (a + i * s) % s == 0
  {
    ModUnique(a, s, a / s, 0);
    ModUnique(a + i * s, s, a / s + i, 0);
  }

  lemma MulNat(a: nat, b: nat)
    ensures a * b >= 0
  {
  }
}
