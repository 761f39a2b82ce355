/**
 * Python's integer bit operations, as the encoder uses them.
 *
 * Python integers are unbounded and behave as infinite two's-complement bit
 * strings. For a shift amount k and a mask width m:
 *   x << k            is  x * Pow2(k)
 *   x >> k            is  x / Pow2(k)     (floor division; Dafny's `/` agrees for a positive divisor)
 *   x & (2^m - 1)     is  x % Pow2(m)     (Dafny's `%` is never negative, like the mask)
 * The one operation with no arithmetic counterpart is `|`, modelled by BitOr.
 */
module Bits {

  /** An unsigned 32-bit machine word. */
  type Word = w: int | 0 <= w < 0x1_0000_0000

  function Pow2(k: nat): (p: nat)
    ensures p >= 1
  {
    if k == 0 then 1 else 2 * Pow2(k - 1)
  }

  /** The powers of two that the instruction layouts use. */
  lemma Pow2Values()
    ensures Pow2(0) == 1 && Pow2(1) == 2 && Pow2(2) == 4 && Pow2(3) == 8 && Pow2(4) == 16 && Pow2(5) == 32
    ensures Pow2(6) == 64 && Pow2(7) == 128 && Pow2(8) == 256 && Pow2(10) == 0x400
    ensures Pow2(11) == 0x800 && Pow2(12) == 0x1000 && Pow2(13) == 0x2000
    ensures Pow2(15) == 0x8000 && Pow2(20) == 0x10_0000 && Pow2(21) == 0x20_0000
    ensures Pow2(25) == 0x200_0000 && Pow2(30) == 0x4000_0000
    ensures Pow2(31) == 0x8000_0000 && Pow2(32) == 0x1_0000_0000
  {
    // The verifier unfolds Pow2 on a literal only a couple of levels, so the
    // values are reached one doubling at a time.
    assert Pow2(1) == 2;
    assert Pow2(2) == 4;
    assert Pow2(3) == 8;
    assert Pow2(4) == 16;
    assert Pow2(5) == 32;
    assert Pow2(6) == 64;
    assert Pow2(7) == 128;
    assert Pow2(8) == 256;
    assert Pow2(9) == 512;
    assert Pow2(10) == 0x400;
    assert Pow2(11) == 0x800;
    assert Pow2(12) == 0x1000;
    assert Pow2(13) == 0x2000;
    assert Pow2(14) == 0x4000;
    assert Pow2(15) == 0x8000;
    assert Pow2(16) == 0x1_0000;
    assert Pow2(17) == 0x2_0000;
    assert Pow2(18) == 0x4_0000;
    assert Pow2(19) == 0x8_0000;
    assert Pow2(20) == 0x10_0000;
    assert Pow2(21) == 0x20_0000;
    assert Pow2(22) == 0x40_0000;
    assert Pow2(23) == 0x80_0000;
    assert Pow2(24) == 0x100_0000;
    assert Pow2(25) == 0x200_0000;
    assert Pow2(26) == 0x400_0000;
    assert Pow2(27) == 0x800_0000;
    assert Pow2(28) == 0x1000_0000;
    assert Pow2(29) == 0x2000_0000;
    assert Pow2(30) == 0x4000_0000;
    assert Pow2(31) == 0x8000_0000;
  }

  function Abs(x: int): nat {
    if x < 0 then -x else x
  }

  /**
   * Python's `a | b`: the bitwise OR of two unbounded integers read as
   * infinite two's-complement bit strings. 0 and -1 are the two strings
   * that repeat one bit forever; every other integer sheds its lowest bit.
   */
  function BitOr(a: int, b: int): int
    decreases Abs(a) + Abs(b)
  {
    if (a == 0 || a == -1) && (b == 0 || b == -1) then
      if a == -1 || b == -1 then -1 else 0
    else
      2 * BitOr(a / 2, b / 2) + (if a % 2 == 1 || b % 2 == 1 then 1 else 0)
  }

  /** `x << k`. */
  function Shl(x: int, k: nat): int {
    x * Pow2(k)
  }

  /** `x >> k`, which rounds toward negative infinity. */
  function Shr(x: int, k: nat): int {
    x / Pow2(k)
  }

  /** `x & (2**m - 1)`: the low m bits, never negative. */
  function Mask(x: int, m: nat): int {
    x % Pow2(m)
  }

  /** Bit i of x in two's complement. */
  predicate Bit(x: int, i: nat) {
    x / Pow2(i) % 2 == 1
  }

  /** `w[lo + width - 1 : lo]` in the notation of the RISC-V manual: the field of `width` bits starting at bit `lo`. */
  function Field(w: int, lo: nat, width: nat): int {
    w / Pow2(lo) % Pow2(width)
  }

  /** Python's final `& 0xFFFFFFFF`: the low 32 bits, as an unsigned word. */
  function Low32(x: int): Word {
    x % 0x1_0000_0000
  }

  /** The two's-complement value of an n-bit field. */
  function Signed(v: int, n: nat): int
    requires n >= 1
  {
    if v >= Pow2(n - 1) then v - Pow2(n) else v
  }

  lemma {:induction false} OrZero(a: int)
    ensures BitOr(a, 0) == a
    decreases Abs(a)
  {
    if a != 0 && a != -1 {
      OrZero(a / 2);
    }
  }

  lemma {:induction false} OrCommutes(a: int, b: int)
    ensures BitOr(a, b) == BitOr(b, a)
    decreases Abs(a) + Abs(b)
  {
    if !((a == 0 || a == -1) && (b == 0 || b == -1)) {
      OrCommutes(a / 2, b / 2);
    }
  }

  /** BitOr is bitwise: each bit of the result is the OR of the operands' bits. */
  lemma {:induction false} OrIsBitwise(a: int, b: int, i: nat)
    ensures Bit(BitOr(a, b), i) <==> Bit(a, i) || Bit(b, i)
    decreases i
  {
    if (a == 0 || a == -1) && (b == 0 || b == -1) {
      ConstantBits(a, i);
      ConstantBits(b, i);
      ConstantBits(BitOr(a, b), i);
    } else {
      var c := BitOr(a / 2, b / 2);
      var low := if a % 2 == 1 || b % 2 == 1 then 1 else 0;
      assert BitOr(a, b) == 2 * c + low;
      if i == 0 {
        assert Pow2(0) == 1;
        assert (2 * c + low) % 2 == low;
      } else {
        assert Bit(BitOr(a, b), i) <==> Bit(c, i - 1) by {
          HalfBit(2 * c + low, i);
          assert (2 * c + low) / 2 == c;
        }
        HalfBit(a, i);
        HalfBit(b, i);
        OrIsBitwise(a / 2, b / 2, i - 1);
      }
    }
  }

  /** 0 has no bit set and -1 has every bit set. */
  lemma ConstantBits(x: int, i: nat)
    requires x == 0 || x == -1
    ensures Bit(x, i) <==> x == -1
  {
    DivModUnique(x, Pow2(i), x, if x == 0 then 0 else Pow2(i) - 1);
  }

  /** Bit i of x is bit i - 1 of x >> 1. */
  lemma HalfBit(x: int, i: nat)
    requires i > 0
    ensures Bit(x, i) <==> Bit(x / 2, i - 1)
  {
    DivDiv(x, 2, Pow2(i - 1));
  }

  /** (x / a) / b == x / (a * b) for positive a and b. */
  lemma DivDiv(x: int, a: int, b: int)
    requires a > 0 && b > 0
    ensures x / a / b == x / (a * b)
  {
    var q, r := x / a, x % a;
    var q2, r2 := q / b, q % b;
    assert x == q * a + r;
    assert q == q2 * b + r2;
    assert q * a == q2 * (a * b) + r2 * a by {
      assert q * a == (q2 * b + r2) * a;
      assert (q2 * b + r2) * a == q2 * b * a + r2 * a;
      assert q2 * b * a == q2 * (a * b);
    }
    assert r2 * a + r < a * b by {
      MulPos(b - 1 - r2, a);
      assert (b - 1) * a == (b - 1 - r2) * a + r2 * a;
      assert (b - 1) * a + a == a * b;
    }
    MulPos(r2, a);
    DivModUnique(x, a * b, q2, r2 * a + r);
  }

  /**
   * OR-ing a value into the zero low bits of another is addition. This is why
   * the encoder's chains of `|` over fields that do not overlap are sums.
   */
  lemma {:induction false} OrAdd(m: int, k: nat, y: int)
    requires 0 <= y < Pow2(k)
    ensures BitOr(m * Pow2(k), y) == m * Pow2(k) + y
  {
    if k == 0 {
      OrZero(m);
    } else {
      var h := Pow2(k - 1);
      var x := m * h;
      assert m * Pow2(k) == 2 * x by {
        assert Pow2(k) == 2 * h;
      }
      OrAdd(m, k - 1, y / 2);
      assert (2 * x) / 2 == x && (2 * x) % 2 == 0;
      assert BitOr(2 * x, y) == 2 * BitOr(x, y / 2) + y % 2;
    }
  }

  lemma MulPos(a: int, b: int)
    requires a >= 0 && b >= 0
    ensures a * b >= 0
  {
  }

  /** Euclidean division has one quotient and one remainder. */
  lemma DivModUnique(x: int, d: int, q: int, r: int)
    requires d > 0 && 0 <= r < d && x == q * d + r
    ensures x / d == q && x % d == r
  {
    var e := x / d - q;
    assert e * d == r - x % d by {
      assert e * d == (x / d) * d - q * d;
    }
    if e > 0 {
      MulPos(e - 1, d);
    } else if e < 0 {
      MulPos(-e - 1, d);
    }
  }

  /** Taking the `b`-digit above the low `a` digits and putting it back on top of them gives x mod a*b. */
  lemma DigitSplit(x: int, a: int, b: int)
    requires a > 0 && b > 0
    ensures x / a % b * a + x % a == x % (a * b)
  {
    var q, r := x / a, x % a;
    var q2, r2 := q / b, q % b;
    assert x == q * a + r;
    assert q == q2 * b + r2;
    assert q * a == q2 * (a * b) + r2 * a by {
      assert q * a == (q2 * b + r2) * a;
      assert (q2 * b + r2) * a == q2 * b * a + r2 * a;
      assert q2 * b * a == q2 * (a * b);
    }
    assert r2 * a + r < a * b by {
      MulPos(b - 1 - r2, a);
      assert (b - 1) * a == (b - 1 - r2) * a + r2 * a;
      assert (b - 1) * a + a == a * b;
    }
    MulPos(r2, a);
    DivModUnique(x, a * b, q2, r2 * a + r);
  }

  /** Reading back a field that was placed at bit k of a word, below `hi` and above `lo`. */
  lemma FieldOf(w: int, hi: int, x: int, lo: int, k: nat, n: nat)
    requires 0 <= x < Pow2(n) && 0 <= lo < Pow2(k)
    requires w == (hi * Pow2(n) + x) * Pow2(k) + lo
    ensures Field(w, k, n) == x
  {
    DivModUnique(w, Pow2(k), hi * Pow2(n) + x, lo);
    DivModUnique(hi * Pow2(n) + x, Pow2(n), hi, x);
  }

  /** Masking a value that already fits in 32 bits changes nothing. */
  lemma Low32Small(x: int)
    requires 0 <= x < 0x1_0000_0000
    ensures Low32(x) == x
  {
  }

  /** `(imm << k | low) & 0xFFFFFFFF` keeps only the low 32 - k bits of imm. */
  lemma Low32Shifted(imm: int, k: nat, low: int)
    requires k <= 32 && 0 <= low < Pow2(k)
    ensures Low32(imm * Pow2(k) + low) == imm % Pow2(32 - k) * Pow2(k) + low
  {
    Pow2Add(32 - k, k);
    Pow2Values();
    ModShift(imm, Pow2(32 - k), Pow2(k), low);
  }

  lemma ModShift(imm: int, p: int, k: int, low: int)
    requires p > 0 && k > 0 && 0 <= low < k
    ensures (imm * k + low) % (p * k) == imm % p * k + low
  {
    var q, r := imm / p, imm % p;
    assert imm * k == q * (p * k) + r * k by {
      assert imm == q * p + r;
    }
    assert r * k + low < p * k by {
      MulPos(p - 1 - r, k);
      assert (p - 1) * k == (p - 1 - r) * k + r * k;
    }
    MulPos(r, k);
    DivModUnique(imm * k + low, p * k, q, r * k + low);
  }

  lemma {:induction false} Pow2Add(a: nat, b: nat)
    ensures Pow2(a) * Pow2(b) == Pow2(a + b)
  {
    if a > 0 {
      Pow2Add(a - 1, b);
      assert Pow2(a) * Pow2(b) == 2 * (Pow2(a - 1) * Pow2(b));
    }
  }

  /** Shifting both operands left by one shifts their OR left by one. */
  lemma OrDouble(a: int, b: int)
    ensures BitOr(2 * a, 2 * b) == 2 * BitOr(a, b)
  {
    if (2 * a == 0 || 2 * a == -1) && (2 * b == 0 || 2 * b == -1) {
      assert a == 0 && b == 0;
    } else {
      assert (2 * a) / 2 == a && (2 * a) % 2 == 0;
      assert (2 * b) / 2 == b && (2 * b) % 2 == 0;
    }
  }

  /**
   * One step of the encoder's `|` chains: OR-ing an n-bit field v, shifted to
   * bit k, onto a value whose bits start at bit n + k places the field there.
   */
  lemma {:induction false} OrPlace(acc: int, n: nat, v: int, k: nat)
    requires 0 <= v < Pow2(n)
    ensures BitOr(acc * Pow2(n) * Pow2(k), v * Pow2(k)) == (acc * Pow2(n) + v) * Pow2(k)
  {
    if k == 0 {
      OrAdd(acc, n, v);
    } else {
      var x, h := acc * Pow2(n), Pow2(k - 1);
      assert Pow2(k) == 2 * h;
      assert x * Pow2(k) == 2 * (x * h);
      assert v * Pow2(k) == 2 * (v * h);
      assert (x + v) * Pow2(k) == 2 * ((x + v) * h);
      OrDouble(x * h, v * h);
      OrPlace(acc, n, v, k - 1);
    }
  }

  /** OrPlace with the shifts written as the encoder writes them, `t | (v << k)`. */
  lemma OrStep(t: int, acc: int, n: nat, v: int, k: nat)
    requires t == acc * Pow2(n + k) && 0 <= v < Pow2(n)
    ensures BitOr(t, Shl(v, k)) == (acc * Pow2(n) + v) * Pow2(k)
  {
    var p, q := Pow2(n), Pow2(k);
    Pow2Add(n, k);
    assert t == acc * p * q by {
      assert t == acc * (p * q);
    }
    assert Shl(v, k) == v * q;
    OrPlace(acc, n, v, k);
  }

  /** An n-bit two's-complement field reads back every value in its range. */
  lemma SignedMod(x: int, n: nat)
    requires n >= 1 && 0 <= x + Pow2(n - 1) && x < Pow2(n - 1)
    ensures Signed(x % Pow2(n), n) == x
  {
    assert Pow2(n) == 2 * Pow2(n - 1);
    if x >= 0 {
      DivModUnique(x, Pow2(n), 0, x);
    } else {
      DivModUnique(x, Pow2(n), -1, x + Pow2(n));
    }
  }
}
