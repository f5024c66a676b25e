/**
 * C integer semantics used by the simulator: fixed-width integer types,
 * two's-complement casts, shifts and the bitwise operators `&`, `|`, `^`.
 *
 * Words are plain integers restricted to their C range; the bitwise
 * operators are defined bit by bit on natural numbers, and the lemmas of this
 * module connect them to arithmetic (a low mask is a remainder, an OR of
 * disjoint fields is a sum, an arithmetic right shift is a floor division).
 */
module Bits {

  type uint8 = x: int | 0 <= x < 0x100
  type uint16 = x: int | 0 <= x < 0x1_0000
  type uint32 = x: int | 0 <= x < 0x1_0000_0000
  type int32 = x: int | -0x8000_0000 <= x < 0x8000_0000

  function Pow2(n: nat): (r: int)
    ensures r > 0
  {
    if n == 0 then 1 else 2 * Pow2(n - 1)
  }

  /** Bit `i` of `x` (bit 0 is the least significant). */
  predicate Bit(x: nat, i: nat) {
    if i == 0 then x % 2 == 1 else Bit(x / 2, i - 1)
  }

  /** C `x >> k` on an unsigned operand. */
  function Shr(x: nat, k: nat): nat {
    DivNonNegative(x, Pow2(k));
    x / Pow2(k)
  }

  /** C `x << k` on a `uint32_t`: bits moved past bit 31 are lost. */
  function Shl32(x: nat, k: nat): uint32 {
    (x * Pow2(k)) % 0x1_0000_0000
  }

  /** C `a & b` on non-negative operands. */
  function And(a: nat, b: nat): nat
    decreases a
  {
    if a == 0 || b == 0 then 0
    else 2 * And(a / 2, b / 2) + (if a % 2 == 1 && b % 2 == 1 then 1 else 0)
  }

  /** C `a | b` on non-negative operands. */
  function Or(a: nat, b: nat): nat
    decreases a + b
  {
    if a == 0 then b
    else if b == 0 then a
    else 2 * Or(a / 2, b / 2) + (if a % 2 == 1 || b % 2 == 1 then 1 else 0)
  }

  /** C `a ^ b` on non-negative operands. */
  function Xor(a: nat, b: nat): nat
    decreases a + b
  {
    if a == 0 then b
    else if b == 0 then a
    else 2 * Xor(a / 2, b / 2) + (if a % 2 != b % 2 then 1 else 0)
  }

  /** The conversion `(int32_t)u` of a `uint32_t`, two's complement. */
  function ToInt32(u: uint32): int32 {
    if u < 0x8000_0000 then u else u - 0x1_0000_0000
  }

  /** The conversion `(uint32_t)i` of any integer: reduction modulo 2^32. */
  function ToUint32(i: int): uint32 {
    i % 0x1_0000_0000
  }

  /** The conversion `(int8_t)b` of a byte, two's complement. */
  function ToInt8(b: uint8): int {
    if b < 0x80 then b else b - 0x100
  }

  /** The conversion `(int16_t)h` of a halfword, two's complement. */
  function ToInt16(h: uint16): int {
    if h < 0x8000 then h else h - 0x1_0000
  }

  /**
   * Reference definition of sign extension: the value of the `n`-bit two's
   * complement pattern `x`.
   */
  function SignExtend(x: nat, n: nat): (r: int)
    requires 0 < n && x < Pow2(n)
    ensures -Pow2(n - 1) <= r < Pow2(n - 1)
    ensures r % Pow2(n) == x
    ensures r < 0 <==> Bit(x, n - 1)
    ensures r == x || r == x - Pow2(n)
  {
    SignExtendFacts(x, n);
    var half := Pow2(n - 1);
    if x < half then x else x - 2 * half
  }

  /**
   * Arithmetic right shift of a 32-bit pattern: shift right and fill the
   * vacated top `k` bits with copies of bit 31.
   */
  function ShiftRightArith(u: uint32, k: nat): (r: uint32)
    requires k < 32
    ensures ToInt32(r) == ToInt32(u) / Pow2(k)
  {
    ShiftRightArithFloor(u, k);
    if u < 0x8000_0000 then Shr(u, k)
    else Or(Shr(u, k), 0x1_0000_0000 - Pow2(32 - k))
  }

  /** C `x >> k` on an `int32_t`, modelled as an arithmetic shift. */
  function Asr(x: int32, k: nat): (r: int32)
    requires k < 32
    ensures r == x / Pow2(k)
  {
    ToInt32(ShiftRightArith(ToUint32(x), k))
  }

  // ---------------------------------------------------------------------
  // Arithmetic facts about powers of two and division.

  lemma {:induction false} Pow2Add(a: nat, b: nat)
    ensures Pow2(a + b) == Pow2(a) * Pow2(b)
  {
    if a > 0 {
      Pow2Add(a - 1, b);
    }
  }

  lemma Pow2Split(n: nat, k: nat)
    requires k <= n
    ensures Pow2(k) * Pow2(n - k) == Pow2(n) == Pow2(n - k) * Pow2(k)
  {
    Pow2Add(k, n - k);
  }

  lemma Pow2Monotone(a: nat, b: nat)
    requires a <= b
    ensures Pow2(a) <= Pow2(b)
  {
    Pow2Add(a, b - a);
    MulAtLeast(Pow2(b - a), Pow2(a));
  }

  /** The powers of two up to 2^16, each one step from the previous one. */
  lemma Pow2Small()
    ensures Pow2(1) == 2 && Pow2(2) == 4 && Pow2(3) == 8 && Pow2(4) == 16
    ensures Pow2(5) == 32 && Pow2(6) == 64 && Pow2(7) == 128 && Pow2(8) == 256
    ensures Pow2(9) == 0x200 && Pow2(10) == 0x400 && Pow2(11) == 0x800 && Pow2(12) == 0x1000
    ensures Pow2(13) == 0x2000 && Pow2(14) == 0x4000 && Pow2(15) == 0x8000 && Pow2(16) == 0x1_0000
  {
  }

  /** The larger powers of two that the shifts and masks of the simulator use. */
  lemma Pow2Large()
    ensures Pow2(19) == 0x8_0000 && Pow2(20) == 0x10_0000 && Pow2(21) == 0x20_0000
    ensures Pow2(24) == 0x100_0000 && Pow2(25) == 0x200_0000
    ensures Pow2(31) == 0x8000_0000 && Pow2(32) == 0x1_0000_0000
  {
    Pow2Small();
    Pow2Add(16, 3);
    Pow2Add(16, 4);
    Pow2Add(16, 5);
    Pow2Add(16, 8);
    Pow2Add(16, 9);
    Pow2Add(16, 15);
    Pow2Add(16, 16);
  }

  lemma DivNonNegative(x: nat, d: int)
    requires d > 0
    ensures x / d >= 0
  {
  }

  lemma MulSub(a: int, b: int, c: int)
    ensures (a - b) * c == a * c - b * c
  {
  }

  lemma MulNonNegative(a: int, b: int)
    requires a >= 0 && b >= 0
    ensures a * b >= 0
  {
  }

  lemma MulAtLeast(a: int, d: int)
    requires a >= 1 && d > 0
    ensures a * d >= d
  {
    assert a * d == (a - 1) * d + d;
    assert (a - 1) * d >= 0;
  }

  /** Quotient and remainder are determined by `x == q * d + r`, `0 <= r < d`. */
  lemma DivModUnique(x: int, d: int, q: int, r: int)
    requires d > 0 && 0 <= r < d && x == q * d + r
    ensures x / d == q && x % d == r
  {
    var q', r' := x / d, x % d;
    assert x == q' * d + r';
    assert (q - q') * d == r' - r;
    if q > q' {
      MulAtLeast(q - q', d);
    } else if q < q' {
      MulAtLeast(q' - q, d);
    }
  }

  /** Dividing by 2 and then by `p` is dividing by `2 * p`. */
  lemma DivHalving(x: nat, p: nat)
    requires p > 0
    ensures x / (2 * p) == (x / 2) / p
    ensures x % (2 * p) == 2 * ((x / 2) % p) + x % 2
  {
    var q, t := (x / 2) / p, (x / 2) % p;
    assert x == (2 * p) * q + (2 * t + x % 2);
    DivModUnique(x, 2 * p, q, 2 * t + x % 2);
  }

  /** `Bit(x, i + 1)` is bit `i` of `x / 2`, and likewise for shifts. */
  lemma BitHalving(x: nat, i: nat)
    ensures Bit(x, i + 1) == Bit(x / 2, i)
    ensures Shr(x, i + 1) == Shr(x / 2, i)
  {
    DivHalving(x, Pow2(i));
  }

  /** Bit `i` is the low bit of `x / 2^i`. */
  lemma {:induction false} BitDiv(x: nat, i: nat)
    ensures Bit(x, i) <==> (x / Pow2(i)) % 2 == 1
  {
    if i > 0 {
      BitDiv(x / 2, i - 1);
      DivHalving(x, Pow2(i - 1));
    }
  }

  lemma SignExtendFacts(x: nat, n: nat)
    requires 0 < n && x < Pow2(n)
    ensures Pow2(n) == 2 * Pow2(n - 1)
    ensures Bit(x, n - 1) <==> x >= Pow2(n - 1)
    ensures x < Pow2(n - 1) ==> x % Pow2(n) == x
    ensures x >= Pow2(n - 1) ==> (x - Pow2(n)) % Pow2(n) == x
  {
    var p := Pow2(n - 1);
    assert Pow2(n) == 2 * p;
    BitDiv(x, n - 1);
    if x < p {
      DivModUnique(x, p, 0, x);
      DivModUnique(x, 2 * p, 0, x);
    } else {
      DivModUnique(x, p, 1, x - p);
      DivModUnique(x - 2 * p, 2 * p, -1, x);
    }
  }

  /** Sign extension keeps an even pattern even. */
  lemma SignExtendEven(x: nat, n: nat)
    requires 0 < n && x < Pow2(n) && x % 2 == 0
    ensures SignExtend(x, n) % 2 == 0
  {
    SignExtendFacts(x, n);
    if SignExtend(x, n) != x {
      assert SignExtend(x, n) == 2 * (x / 2 - Pow2(n - 1));
      MulMod(x / 2 - Pow2(n - 1), 2);
    }
  }

  /**
   * The top `k` bits of a word, `w / d` with `d == 2^(32-k)`, reach half
   * their range exactly when bit 31 of the word is set.
   */
  lemma SignBitField(w: uint32, d: int, half: int)
    requires d > 0 && half > 0 && half * d == 0x8000_0000
    ensures (w / d) % (2 * half) == w / d
    ensures w / d >= half <==> w >= 0x8000_0000
  {
    assert (2 * half) * d == 0x1_0000_0000;
    DivLess(w, d, 2 * half);
    ModSmall(w / d, 2 * half);
    DivLess(w, d, half);
  }

  /** Dividing by `a` and then by `b` is dividing by `a * b`. */
  lemma DivDiv(x: nat, a: int, b: int)
    requires a > 0 && b > 0
    ensures x / (a * b) == (x / a) / b
    ensures x % (a * b) == a * ((x / a) % b) + x % a
  {
    var q, r := x / a, x % a;
    var q2, r2 := q / b, q % b;
    assert x == a * q + r;
    assert q == b * q2 + r2;
    assert a * q == (a * b) * q2 + a * r2 by {
      assert a * (b * q2 + r2) == a * (b * q2) + a * r2;
    }
    MulAtLeast(b - r2, a);
    MulSub(b, r2, a);
    MulNonNegative(a, r2);
    DivModUnique(x, a * b, q2, a * r2 + r);
  }

  /**
   * Reading an `N`-valued digit at place value `P`: if `x` is `hi` above,
   * `f` in the digit and `lo` below, then `(x / P) % N == f`.
   */
  lemma Digit(x: int, p: int, n: int, hi: int, f: int, lo: int)
    requires p > 0 && n > 0 && 0 <= lo < p && 0 <= f < n
    requires x == (hi * n + f) * p + lo
    ensures x / p == hi * n + f && (x / p) % n == f
  {
    DivModUnique(x, p, hi * n + f, lo);
    DivModUnique(hi * n + f, n, hi, f);
  }

  /** A value already below the modulus is its own remainder. */
  lemma ModSmall(x: int, d: int)
    requires 0 <= x < d
    ensures x % d == x && x / d == 0
  {
    DivModUnique(x, d, 0, x);
  }

  /** A multiple of `d` leaves no remainder. */
  lemma MulMod(h: int, d: int)
    requires d > 0
    ensures (h * d) % d == 0 && (h * d) / d == h
  {
    DivModUnique(h * d, d, h, 0);
  }

  /** `x << k` loses nothing when an `n`-bit `x` still fits in 32 bits. */
  lemma Shl32Fits(x: nat, n: nat, k: nat)
    requires x < Pow2(n) && n + k <= 32
    ensures x * Pow2(k) < Pow2(n + k) <= 0x1_0000_0000
    ensures Shl32(x, k) == x * Pow2(k)
  {
    Pow2Add(n, k);
    Pow2Monotone(n + k, 32);
    Pow2Large();
    MulAtLeast(Pow2(n) - x, Pow2(k));
    MulSub(Pow2(n), x, Pow2(k));
    MulNonNegative(x, Pow2(k));
    ModSmall(x * Pow2(k), 0x1_0000_0000);
  }

  /** A right shift never grows its operand. */
  lemma ShrAtMost(x: nat, k: nat)
    ensures Shr(x, k) <= x
  {
    var p, q := Pow2(k), Shr(x, k);
    assert x == p * q + x % p;
    if q > 0 {
      MulAtLeast(p, q);
    }
  }

  lemma DivSubMultiple(x: int, m: int, d: int)
    requires d > 0
    ensures (x - m * d) / d == x / d - m
  {
    DivModUnique(x - m * d, d, x / d - m, x % d);
  }

  // ---------------------------------------------------------------------
  // Masks and disjoint fields.

  /** `x & (2^n - 1)` keeps the low `n` bits: it is `x % 2^n`. */
  lemma {:induction false} AndLowMask(x: nat, n: nat)
    ensures And(x, Pow2(n) - 1) == x % Pow2(n)
  {
    if n == 0 {
      assert Pow2(n) == 1;
    } else if x == 0 {
      assert And(x, Pow2(n) - 1) == 0;
    } else {
      var half := Pow2(n - 1);
      var m := Pow2(n) - 1;
      assert Pow2(n) == 2 * half;
      assert m % 2 == 1 && m / 2 == half - 1;
      AndLowMask(x / 2, n - 1);
      DivHalving(x, half);
      calc {
        And(x, m);
        2 * And(x / 2, half - 1) + x % 2;
        2 * ((x / 2) % half) + x % 2;
        x % Pow2(n);
      }
    }
  }

  /** `x & (2^n - 2^k)` on an `n`-bit `x` clears the low `k` bits. */
  lemma {:induction false} AndHighMask(x: nat, n: nat, k: nat)
    requires k <= n && x < Pow2(n)
    ensures Pow2(k) <= Pow2(n)
    ensures And(x, Pow2(n) - Pow2(k)) == x - x % Pow2(k)
  {
    Pow2Monotone(k, n);
    if k == 0 {
      assert Pow2(k) == 1;
      AndLowMask(x, n);
      DivModUnique(x, Pow2(n), 0, x);
    } else if k == n {
      DivModUnique(x, Pow2(n), 0, x);
    } else if x == 0 {
      DivModUnique(x, Pow2(k), 0, 0);
    } else {
      var hn, hk := Pow2(n - 1), Pow2(k - 1);
      assert Pow2(n) == 2 * hn && Pow2(k) == 2 * hk;
      Pow2Monotone(k, n - 1);
      var m := Pow2(n) - Pow2(k);
      assert m % 2 == 0 && m / 2 == hn - hk && m > 0;
      AndHighMask(x / 2, n - 1, k - 1);
      DivHalving(x, hk);
      calc {
        And(x, m);
        2 * And(x / 2, hn - hk);
        2 * (x / 2 - (x / 2) % hk);
        x - x % Pow2(k);
      }
    }
  }

  /** `x & 2^k` is non-zero exactly when bit `k` of `x` is set. */
  lemma {:induction false} AndSingleBit(x: nat, k: nat)
    ensures And(x, Pow2(k)) == if Bit(x, k) then Pow2(k) else 0
  {
    if k == 0 {
      assert Pow2(k) == 1;
      if x > 0 {
        assert And(x, 1) == 2 * And(x / 2, 0) + (if x % 2 == 1 then 1 else 0);
      }
    } else if x == 0 {
      BitOfZero(k);
    } else {
      var half := Pow2(k - 1);
      assert Pow2(k) == 2 * half;
      assert And(x, Pow2(k)) == 2 * And(x / 2, half);
      AndSingleBit(x / 2, k - 1);
      BitHalving(x, k - 1);
    }
  }

  /** OR of a field shifted left by `k` with a value below `2^k` is their sum. */
  lemma {:induction false} OrShifted(h: nat, lo: nat, k: nat)
    requires lo < Pow2(k)
    ensures Or(h * Pow2(k), lo) == h * Pow2(k) + lo
  {
    if k > 0 && h * Pow2(k) != 0 && lo != 0 {
      assert h * Pow2(k) == 2 * (h * Pow2(k - 1));
      OrShifted(h, lo / 2, k - 1);
    }
  }

  /** `OrShifted` for a value `a` known to be `h * 2^k`, with `2^k` given as a number. */
  lemma OrAligned(a: nat, lo: nat, h: nat, k: nat, p: int)
    requires p == Pow2(k) && a == h * p && lo < p
    ensures Or(a, lo) == a + lo
  {
    OrShifted(h, lo, k);
  }

  /** Three successive `OrAligned` steps: four disjoint fields ORed together add up. */
  lemma OrAligned3(a: nat, b: nat, c: nat, d: nat, h1: nat, h2: nat, h3: nat,
                   k1: nat, k2: nat, k3: nat, p1: int, p2: int, p3: int)
    requires p1 == Pow2(k1) && a == h1 * p1 && b < p1
    requires p2 == Pow2(k2) && a + b == h2 * p2 && c < p2
    requires p3 == Pow2(k3) && a + b + c == h3 * p3 && d < p3
    ensures Or(Or(Or(a, b), c), d) == a + b + c + d
  {
    OrAligned(a, b, h1, k1, p1);
    var ab := Or(a, b);
    assert ab == a + b;
    OrAligned(ab, c, h2, k2, p2);
    var abc := Or(ab, c);
    assert abc == a + b + c;
    OrAligned(abc, d, h3, k3, p3);
  }

  /** `Shl32Fits` with the power of two given as a number. */
  lemma Shl32Value(x: nat, n: nat, k: nat, p: int)
    requires p == Pow2(k) && x < Pow2(n) && n + k <= 32
    ensures Shl32(x, k) == x * p
  {
    Shl32Fits(x, n, k);
  }

  lemma {:induction false} OrCommutes(a: nat, b: nat)
    ensures Or(a, b) == Or(b, a)
    decreases a + b
  {
    if a != 0 && b != 0 {
      OrCommutes(a / 2, b / 2);
    }
  }

  // ---------------------------------------------------------------------
  // Bounds and bitwise meaning of the operators.

  lemma {:induction false} AndBound(a: nat, b: nat)
    ensures And(a, b) <= a
    decreases a
  {
    if a != 0 && b != 0 {
      AndBound(a / 2, b / 2);
    }
  }

  lemma {:induction false} OrBound(a: nat, b: nat, n: nat)
    requires a < Pow2(n) && b < Pow2(n)
    ensures Or(a, b) < Pow2(n)
  {
    if a != 0 && b != 0 {
      OrBound(a / 2, b / 2, n - 1);
    }
  }

  lemma {:induction false} XorBound(a: nat, b: nat, n: nat)
    requires a < Pow2(n) && b < Pow2(n)
    ensures Xor(a, b) < Pow2(n)
  {
    if a != 0 && b != 0 {
      XorBound(a / 2, b / 2, n - 1);
    }
  }

  lemma {:induction false} BitOfZero(i: nat)
    ensures !Bit(0, i)
  {
    if i > 0 {
      BitOfZero(i - 1);
    }
  }

  lemma {:induction false} AndBits(a: nat, b: nat, i: nat)
    ensures Bit(And(a, b), i) <==> Bit(a, i) && Bit(b, i)
  {
    if a != 0 && b != 0 && i > 0 {
      AndBits(a / 2, b / 2, i - 1);
      BitHalving(a, i - 1);
      BitHalving(b, i - 1);
      BitHalving(And(a, b), i - 1);
    } else if i > 0 {
      BitOfZero(i);
    }
  }

  lemma {:induction false} OrBits(a: nat, b: nat, i: nat)
    ensures Bit(Or(a, b), i) <==> Bit(a, i) || Bit(b, i)
  {
    if a != 0 && b != 0 && i > 0 {
      OrBits(a / 2, b / 2, i - 1);
      BitHalving(a, i - 1);
      BitHalving(b, i - 1);
      BitHalving(Or(a, b), i - 1);
    } else if i > 0 {
      BitOfZero(i);
    }
  }

  lemma {:induction false} XorBits(a: nat, b: nat, i: nat)
    ensures Bit(Xor(a, b), i) <==> Bit(a, i) != Bit(b, i)
  {
    if a != 0 && b != 0 && i > 0 {
      XorBits(a / 2, b / 2, i - 1);
      BitHalving(a, i - 1);
      BitHalving(b, i - 1);
      BitHalving(Xor(a, b), i - 1);
    } else if i > 0 {
      BitOfZero(i);
    }
  }

  /**
   * Sign extension undoes reduction modulo `2^n` on the values an `n`-bit
   * two's complement pattern can hold; reduction keeps such a value's parity.
   */
  lemma SignExtendMod(i: int, n: nat)
    requires 0 < n && -Pow2(n - 1) <= i < Pow2(n - 1)
    ensures 0 <= i % Pow2(n) < Pow2(n)
    ensures SignExtend(i % Pow2(n), n) == i
    ensures i % 2 == 0 ==> (i % Pow2(n)) % 2 == 0
  {
    var half := Pow2(n - 1);
    assert Pow2(n) == 2 * half;
    if i >= 0 {
      ModSmall(i, 2 * half);
    } else {
      DivModUnique(i, 2 * half, -1, i + 2 * half);
      if i % 2 == 0 {
        DivModUnique(i + 2 * half, 2, i / 2 + half, 0);
      }
    }
  }

  // ---------------------------------------------------------------------
  // Casts and the arithmetic shift.

  lemma CastRoundTrip(u: uint32)
    ensures ToUint32(ToInt32(u)) == u
  {
  }

  /** `(int32_t)(uint32_t)i` gives back every `int32_t`. */
  lemma Int32RoundTrip(i: int32)
    ensures ToInt32(ToUint32(i)) == i
  {
    if i >= 0 {
      ModSmall(i, 0x1_0000_0000);
    } else {
      DivModUnique(i, 0x1_0000_0000, -1, i + 0x1_0000_0000);
    }
  }

  /** A quotient is below `b` exactly when the dividend is below `b * p`. */
  lemma DivLess(x: int, p: int, b: int)
    requires p > 0
    ensures x / p < b <==> x < b * p
  {
    var q := x / p;
    DivModUnique(x, p, q, x % p);
    if q < b {
      MulAtLeast(b - q, p);
      assert b * p == (b - q) * p + q * p;
    } else {
      MulAtLeast(q - b + 1, p);
      assert q * p == (q - b) * p + b * p;
    }
  }

  lemma ShiftRightBounds(u: uint32, k: nat)
    requires k < 32
    ensures Pow2(k) * Pow2(32 - k) == 0x1_0000_0000 == Pow2(32 - k) * Pow2(k)
    ensures Pow2(32 - k) == 2 * Pow2(31 - k)
    ensures Shr(u, k) < Pow2(32 - k) <= 0x1_0000_0000
    ensures u < 0x8000_0000 <==> Shr(u, k) < Pow2(31 - k)
  {
    var p, q, h := Pow2(k), Pow2(32 - k), Pow2(31 - k);
    Pow2Large();
    Pow2Split(32, k);
    Pow2Split(31, k);
    MulAtLeast(p, q);
    DivLess(u, p, q);
    DivLess(u, p, h);
  }

  lemma ShiftRightArithFloor(u: uint32, k: nat)
    requires k < 32
    ensures Shr(u, k) < Pow2(32 - k) <= 0x1_0000_0000
    ensures u >= 0x8000_0000 ==>
      Or(Shr(u, k), 0x1_0000_0000 - Pow2(32 - k))
        == Shr(u, k) + 0x1_0000_0000 - Pow2(32 - k)
    ensures ToInt32(if u < 0x8000_0000 then Shr(u, k)
                    else Shr(u, k) + 0x1_0000_0000 - Pow2(32 - k))
            == ToInt32(u) / Pow2(k)
  {
    ShiftRightBounds(u, k);
    var p, q, lo := Pow2(k), Pow2(32 - k), Shr(u, k);
    if u >= 0x8000_0000 {
      assert Or(lo, 0x1_0000_0000 - q) == lo + 0x1_0000_0000 - q by {
        MulSub(p, 1, q);
        assert 0x1_0000_0000 - q == (p - 1) * q;
        OrCommutes(lo, (p - 1) * q);
        OrShifted(p - 1, lo, 32 - k);
      }
      assert (u - 0x1_0000_0000) / p == lo - q by {
        DivSubMultiple(u, q, p);
      }
    } else {
      assert ToInt32(u) / p == lo;
    }
  }

  // ---------------------------------------------------------------------
  // The two ways the simulator sign-extends an n-bit field.

  /** An `n`-bit field shifted left by `32 - n` loses no bits. */
  lemma ShiftedFieldFits(x: nat, n: nat)
    requires 0 < n <= 32 && x < Pow2(n)
    ensures Pow2(n) * Pow2(32 - n) == 0x1_0000_0000
    ensures Pow2(n - 1) * Pow2(32 - n) == 0x8000_0000
    ensures x * Pow2(32 - n) < 0x1_0000_0000
    ensures Shl32(x, 32 - n) == x * Pow2(32 - n)
  {
    Pow2Large();
    Pow2Split(32, n);
    Pow2Split(31, n - 1);
    Shl32Fits(x, n, 32 - n);
  }

  /**
   * Shifting an `n`-bit field to the top of the word, reading it as
   * `int32_t` and shifting it back arithmetically sign-extends it.
   */
  lemma ShiftPairSignExtends(x: nat, n: nat)
    requires 0 < n <= 32 && x < Pow2(n)
    ensures x * Pow2(32 - n) < 0x1_0000_0000
    ensures Shl32(x, 32 - n) == x * Pow2(32 - n)
    ensures Asr(ToInt32(Shl32(x, 32 - n)), 32 - n) == SignExtend(x, n)
  {
    ShiftedFieldFits(x, n);
    var p, big, half := Pow2(32 - n), Pow2(n), Pow2(n - 1);
    assert big == 2 * half;
    if x < half {
      MulAtLeast(half - x, p);
      MulSub(half, x, p);
      assert ToInt32(Shl32(x, 32 - n)) == x * p;
      DivModUnique(x * p, p, x, 0);
    } else {
      ShiftPairNegative(x, n);
    }
  }

  lemma ShiftPairNegative(x: nat, n: nat)
    requires 0 < n <= 32 && Pow2(n - 1) <= x < Pow2(n)
    requires Pow2(n) * Pow2(32 - n) == 0x1_0000_0000
    requires Pow2(n - 1) * Pow2(32 - n) == 0x8000_0000
    ensures x * Pow2(32 - n) >= 0x8000_0000
    ensures (x * Pow2(32 - n) - 0x1_0000_0000) / Pow2(32 - n) == x - Pow2(n)
  {
    var p, big, half := Pow2(32 - n), Pow2(n), Pow2(n - 1);
    MulSub(x, half, p);
    MulNonNegative(x - half, p);
    MulSub(x, big, p);
    DivModUnique((x - big) * p, p, x - big, 0);
  }

  /**
   * Testing the field's top bit with `&` and, when it is set, OR-ing ones
   * into every bit above the field also sign-extends it.
   */
  lemma OrSignExtends(raw: nat, n: nat, top: nat, fill: nat)
    requires 0 < n < 32 && raw < Pow2(n)
    requires top == Pow2(n - 1) && fill == 0x1_0000_0000 - Pow2(n)
    ensures raw < 0x8000_0000
    ensures And(raw, top) != 0 <==> Bit(raw, n - 1)
    ensures Or(raw, fill) == raw + fill < 0x1_0000_0000
    ensures (if And(raw, top) != 0 then ToInt32(Or(raw, fill)) else raw) == SignExtend(raw, n)
  {
    var p, big := Pow2(32 - n), Pow2(n);
    Pow2Large();
    Pow2Split(32, n);
    MulAtLeast(p, big);
    AndSingleBit(raw, n - 1);
    SignExtendFacts(raw, n);
    OrFill(raw, n, fill);
    Pow2Monotone(n, 31);
  }

  /** OR-ing ones into every bit from `n` to 31 adds them to a field of `n` bits. */
  lemma OrFill(raw: nat, n: nat, fill: nat)
    requires 0 < n < 32 && raw < Pow2(n) && fill == 0x1_0000_0000 - Pow2(n)
    ensures Or(raw, fill) == raw + fill
  {
    var p, big := Pow2(32 - n), Pow2(n);
    assert p * big == 0x1_0000_0000 by {
      Pow2Large();
      Pow2Split(32, n);
    }
    assert p >= 1 && fill == (p - 1) * big by {
      MulSub(p, 1, big);
    }
    OrAligned(fill, raw, p - 1, n, big);
    OrCommutes(raw, fill);
  }
}
