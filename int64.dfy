/**
 * Rust's `i64` and the bit-level operators the position codec applies to it:
 * `&` with a low mask, `|`, `<<` (wrapping) and `>>` (arithmetic). A value is an
 * unbounded integer kept in the signed 64-bit range; the operators are defined on
 * its two's-complement bit pattern, read as an unsigned number below 2^64.
 */
module Int64 {

  const TWO_63: int := 0x8000_0000_0000_0000
  const TWO_64: int := 0x1_0000_0000_0000_0000

  type I64 = v: int | -0x8000_0000_0000_0000 <= v < 0x8000_0000_0000_0000

  function Pow2(k: nat): (r: nat)
    ensures r >= 1
  {
    if k == 0 then 1 else 2 * Pow2(k - 1)
  }

  lemma {:induction false} Pow2Add(a: nat, b: nat)
    ensures Pow2(a + b) == Pow2(a) * Pow2(b)
  {
    if a > 0 {
      Pow2Add(a - 1, b);
      assert Pow2(a + b) == 2 * Pow2(a - 1 + b);
    }
  }

  /** The powers of two that the position layout uses. */
  lemma Pow2Values()
    ensures Pow2(8) == 0x100
    ensures Pow2(12) == 0x1000
    ensures Pow2(26) == 0x400_0000
    ensures Pow2(38) == 0x40_0000_0000
    ensures Pow2(52) == 0x10_0000_0000_0000
    ensures Pow2(64) == TWO_64
  {
    Pow2Low();
    Pow2High();
  }

  lemma Pow2Low()
    ensures Pow2(8) == 0x100 && Pow2(12) == 0x1000 && Pow2(26) == 0x400_0000
  {
    assert Pow2(4) == 16 by {
      assert Pow2(2) == 4;
    }
    Pow2Add(4, 4);
    Pow2Add(8, 4);
    Pow2Add(12, 12);
    assert Pow2(26) == 4 * Pow2(24) by {
      assert Pow2(26) == 2 * Pow2(25);
    }
  }

  lemma Pow2High()
    ensures Pow2(38) == 0x40_0000_0000 && Pow2(52) == 0x10_0000_0000_0000 && Pow2(64) == TWO_64
  {
    Pow2Low();
    Pow2Add(26, 12);
    Pow2Add(26, 26);
    Pow2Add(12, 52);
  }

  /** The two's-complement bit pattern of `v`, read as an unsigned number. */
  function Unsigned(v: I64): (u: nat)
    ensures u < TWO_64
    ensures u % TWO_64 == v % TWO_64
  {
    if v < 0 then v + TWO_64 else v
  }

  /** The `i64` whose bit pattern, read as an unsigned number, is `u`. */
  function Signed(u: nat): (v: I64)
    requires u < TWO_64
    ensures Unsigned(v) == u
  {
    if u < TWO_63 then u else u - TWO_64
  }

  lemma SignedUnsigned(v: I64)
    ensures Signed(Unsigned(v)) == v
  {
  }

  /** Reduction of any integer to the `i64` with the same low 64 bits (wrap-around). */
  function Wrap(v: int): (r: I64)
    ensures Unsigned(r) == v % TWO_64
  {
    Signed(v % TWO_64)
  }

  /** The distance between two integers. */
  function Dist(a: int, b: int): nat {
    if a < b then b - a else a - b
  }

  /** Rust's `as i64` on an integral floating value: the `i64` nearest to it. */
  function SaturatingCast(x: int): (r: I64)
    ensures forall y: I64 :: Dist(r, x) <= Dist(y, x)
  {
    if x < -TWO_63 then -TWO_63 else if x >= TWO_63 then TWO_63 - 1 else x
  }

  /** Bitwise and of two bit patterns, least significant bit first. */
  function BitAnd(a: nat, b: nat): (r: nat)
    ensures r <= a && r <= b
    decreases a
  {
    if a == 0 || b == 0 then 0
    else 2 * BitAnd(a / 2, b / 2) + (if a % 2 == 1 && b % 2 == 1 then 1 else 0)
  }

  /** Bitwise or of two bit patterns, least significant bit first. */
  function BitOr(a: nat, b: nat): (r: nat)
    ensures a <= r && b <= r && r <= a + b
    decreases a
  {
    if a == 0 then b
    else if b == 0 then a
    else 2 * BitOr(a / 2, b / 2) + (if a % 2 == 1 || b % 2 == 1 then 1 else 0)
  }

  /** Division and remainder are determined by any decomposition a == m * q + c with 0 <= c < m. */
  lemma DivModUnique(a: int, m: int, q: int, c: int)
    requires m > 0 && a == m * q + c && 0 <= c < m
    ensures a / m == q && a % m == c
  {
    var d := q - a / m;
    assert m * d == a % m - c;
  }

  /** Splitting off the lowest digit in base d: a mod dp is d times (a div d) mod p plus a mod d. */
  lemma DivModSplit(a: nat, d: nat, p: nat)
    requires d >= 1 && p >= 1
    ensures a % (d * p) == d * ((a / d) % p) + a % d
    ensures (a / d) / p == a / (d * p)
  {
    var q, r := a / d, a % d;
    var s, t := q / p, q % p;
    assert q == p * s + t;
    assert a == (d * p) * s + (d * t + r);
    assert d * t + r < d * p by {
      assert d * t <= d * (p - 1);
    }
    DivModUnique(a, d * p, s, d * t + r);
  }

  /** The low k bits of a, least significant first. */
  function LowBits(a: nat, k: nat): nat {
    if k == 0 then 0 else 2 * LowBits(a / 2, k - 1) + a % 2
  }

  /** `a & (2^k - 1)` keeps exactly the low k bits of a. */
  lemma BitAndLowMask(a: nat, k: nat)
    ensures BitAnd(a, Pow2(k) - 1) == a % Pow2(k)
  {
    BitAndIsLowBits(a, k);
    LowBitsIsMod(a, k);
  }

  lemma {:induction false} BitAndIsLowBits(a: nat, k: nat)
    ensures BitAnd(a, Pow2(k) - 1) == LowBits(a, k)
  {
    if k > 0 {
      BitAndIsLowBits(a / 2, k - 1);
      if a != 0 {
        BitAndOddMask(a, Pow2(k - 1) - 1);
      } else {
        LowBitsOfZero(k);
      }
    }
  }

  lemma {:induction false} LowBitsOfZero(k: nat)
    ensures LowBits(0, k) == 0
  {
    if k > 0 {
      LowBitsOfZero(k - 1);
    }
  }

  lemma {:induction false} LowBitsIsMod(a: nat, k: nat)
    ensures LowBits(a, k) == a % Pow2(k)
  {
    if k > 0 {
      LowBitsIsMod(a / 2, k - 1);
      LowBitsOfHalf(a, Pow2(k), Pow2(k - 1), LowBits(a / 2, k - 1));
    }
  }

  /** Reassembling a from its low bit and the low bits of a / 2. */
  lemma LowBitsOfHalf(a: nat, m: nat, p: nat, low: int)
    requires p >= 1 && m == 2 * p && low == (a / 2) % p
    ensures a % m == 2 * low + a % 2
  {
    var q := (a / 2) / p;
    assert a / 2 == p * q + low;
    assert a == m * q + (2 * low + a % 2);
    DivModUnique(a, m, q, 2 * low + a % 2);
  }

  /** One step of `BitAnd` against an odd mask: the lowest bit of `a` survives. */
  lemma BitAndOddMask(a: nat, q: nat)
    requires a != 0
    ensures BitAnd(a, 2 * q + 1) == 2 * BitAnd(a / 2, q) + a % 2
  {
    var m := 2 * q + 1;
    DivModUnique(m, 2, q, 1);
  }

  /** Or-ing a value whose low k bits are clear with a value below 2^k is addition. */
  lemma {:induction false} BitOrDisjoint(a: nat, b: nat, k: nat)
    requires a % Pow2(k) == 0 && b < Pow2(k)
    ensures BitOr(a, b) == a + b
  {
    if k > 0 && a != 0 && b != 0 {
      var p := Pow2(k - 1);
      DivModSplit(a, 2, p);
      BitOrDisjoint(a / 2, b / 2, k - 1);
    }
  }

  /** Or-ing two values below 2^k stays below 2^k. */
  lemma {:induction false} BitOrBound(a: nat, b: nat, k: nat)
    requires a < Pow2(k) && b < Pow2(k)
    ensures BitOr(a, b) < Pow2(k)
  {
    if k > 0 && a != 0 && b != 0 {
      BitOrBound(a / 2, b / 2, k - 1);
    }
  }

  /** Rust's `a & b` on `i64`: with a non-negative operand, the result lies between 0 and it. */
  function And(a: I64, b: I64): (r: I64)
    ensures 0 <= b ==> 0 <= r <= b
    ensures 0 <= a ==> 0 <= r <= a
  {
    Signed(BitAnd(Unsigned(a), Unsigned(b)))
  }

  /** Rust's `a | b` on `i64`: every bit of either operand is kept, so the result is at least each of them and at most their sum. */
  function Or(a: I64, b: I64): (r: I64)
    ensures Unsigned(a) <= Unsigned(r) && Unsigned(b) <= Unsigned(r)
    ensures Unsigned(r) <= Unsigned(a) + Unsigned(b)
  {
    Pow2Values();
    BitOrBound(Unsigned(a), Unsigned(b), 64);
    Signed(BitOr(Unsigned(a), Unsigned(b)))
  }

  /** Rust's `a << k` on `i64`: bits shifted past bit 63 are lost, and the low k bits are clear. */
  function Shl(a: I64, k: nat): (r: I64)
    requires k < 64
    ensures Unsigned(r) % Pow2(k) == 0
  {
    ShiftedLowBits(a, k);
    Wrap(a * Pow2(k))
  }

  /** The low 64 bits of a multiple of 2^k are still a multiple of 2^k. */
  lemma ShiftedLowBits(a: int, k: nat)
    requires k < 64
    ensures ((a * Pow2(k)) % TWO_64) % Pow2(k) == 0
  {
    var e, m := Pow2(k), Pow2(64 - k);
    assert TWO_64 == e * m by {
      Pow2High();
      Pow2Add(k, 64 - k);
    }
    MultipleModMultiple(a * e, a, e, m);
  }

  /** A multiple of e, reduced modulo a multiple of e, is still a multiple of e. */
  lemma MultipleModMultiple(v: int, a: int, e: int, m: int)
    requires e >= 1 && m >= 1 && v == a * e
    ensures (v % (e * m)) % e == 0
  {
    var n := e * m;
    var q := v / n;
    var c := v % n;
    assert c == v - n * q;
    assert c == e * (a - m * q);
    DivModUnique(c, e, a - m * q, 0);
  }

  /** Or-ing an `i64` whose low k bits are clear with one whose bits all lie below bit k adds their bit patterns. */
  lemma OrDisjoint(a: I64, b: I64, k: nat)
    requires Unsigned(a) % Pow2(k) == 0 && 0 <= b < Pow2(k)
    ensures Unsigned(Or(a, b)) == Unsigned(a) + b
  {
    Pow2Values();
    BitOrBound(Unsigned(a), Unsigned(b), 64);
    BitOrDisjoint(Unsigned(a), b, k);
  }

  /** A left shift that loses no bit multiplies the bit pattern by 2^k. */
  lemma ShlExact(a: I64, k: nat)
    requires k < 64 && 0 <= a && a * Pow2(k) < TWO_64
    ensures Unsigned(Shl(a, k)) == a * Pow2(k)
  {
    var m := a * Pow2(k);
    DivModUnique(m, TWO_64, 0, m);
    assert Unsigned(Wrap(m)) == m % TWO_64;
  }

  /** Rust's `a >> k` on `i64`: an arithmetic shift, which is division rounding toward minus infinity. */
  function Sar(a: I64, k: nat): (r: I64)
    requires k < 64
    ensures r * Pow2(k) <= a < r * Pow2(k) + Pow2(k)
  {
    DivBounds(a, Pow2(k));
    a / Pow2(k)
  }

  /** Reading the bit pattern modulo a divisor of 2^64 gives the value modulo it. */
  lemma UnsignedMod(w: I64, m: int, c: int)
    requires m >= 1 && TWO_64 == m * c
    ensures Unsigned(w) % m == w % m
  {
    if w < 0 {
      DivModUnique(w + TWO_64, m, w / m + c, w % m);
    }
  }

  /** A left shift keeps the low 64 - k bits and moves them up by k. */
  lemma ShlPattern(w: I64, k: nat, m: int)
    requires 0 < k < 64 && m == Pow2(64 - k)
    ensures Unsigned(Shl(w, k)) == (w % m) * Pow2(k)
  {
    var e := Pow2(k);
    var v := w * e;
    assert TWO_64 == m * e by {
      Pow2Values();
      Pow2Add(64 - k, k);
    }
    assert v == TWO_64 * (w / m) + (w % m) * e;
    assert (w % m) * e < TWO_64 by {
      MulAtLeast(m - 1 - w % m, e);
    }
    DivModUnique(v, TWO_64, w / m, (w % m) * e);
  }

  /** An arithmetic right shift of f * 2^k + c, for c below 2^k, gives f. */
  lemma SarFloor(s: I64, k: nat, f: int, c: int)
    requires k < 64 && s == f * Pow2(k) + c && 0 <= c < Pow2(k)
    ensures Sar(s, k) == f
  {
    DivModUnique(s, Pow2(k), f, c);
  }

  /** `v & (2^k - 1)` is `v` modulo 2^k, for a negative `v` too. */
  lemma AndLowMask(v: I64, mask: I64, k: nat)
    requires 0 < k < 64 && mask == Pow2(k) - 1
    ensures And(v, mask) == v % Pow2(k)
  {
    var p := Pow2(k);
    var u := Unsigned(v);
    assert p <= TWO_63 by {
      Pow2Add(k, 63 - k);
      Pow2High();
      assert Pow2(63) * 2 == Pow2(64);
    }
    assert Unsigned(mask) == mask;
    var b := BitAnd(u, mask);
    assert b == u % p by {
      BitAndLowMask(u, k);
    }
    assert u % p == v % p by {
      assert TWO_64 == p * Pow2(64 - k) by {
        Pow2High();
        Pow2Add(k, 64 - k);
      }
      UnsignedMod(v, p, Pow2(64 - k));
    }
    assert And(v, mask) == Signed(b);
  }

  /** Dividing by a positive number moves a value toward zero without crossing it. */
  lemma DivBounds(a: int, p: int)
    requires p >= 1
    ensures a >= 0 ==> 0 <= a / p <= a
    ensures a < 0 ==> a <= a / p < 0
  {
    var q, c := a / p, a % p;
    assert a == p * q + c && 0 <= c < p;
    if q >= 0 {
      assert p * q >= q by { MulAtLeast(p - 1, q); }
    } else {
      assert (p - 1) * (-q) >= p - 1 by { MulAtLeast(-q - 1, p - 1); }
    }
  }

  lemma MulAtLeast(a: nat, b: nat)
    ensures (a + 1) * b >= b
  {
  }
}
