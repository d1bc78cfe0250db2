/** The C integer operations the window scanner uses, on mathematical integers.

    A C `int` is an `Int32`, a C `long long` an `Int64`.  A bitwise operator
    works on the two's-complement bit pattern of its operands: `Bits64` gives
    that pattern as a natural number below 2^64, `FromBits64` reads it back,
    and `OrBits`/`AndBits` combine the low `n` bits of two naturals bit by bit. */
module CInt {

  const TwoTo31: int := 0x8000_0000
  const TwoTo32: int := 0x1_0000_0000
  const TwoTo63: int := 0x8000_0000_0000_0000
  const TwoTo64: int := 0x1_0000_0000_0000_0000

  /** The values of a C `int`. */
  type Int32 = x: int | -0x8000_0000 <= x < 0x8000_0000

  /** The values of a C `long long`. */
  type Int64 = x: int | -0x8000_0000_0000_0000 <= x < 0x8000_0000_0000_0000

  function Pow2(n: nat): (r: nat)
    ensures r >= 1
  {
    if n == 0 then 1 else 2 * Pow2(n - 1)
  }

  lemma {:induction false} Pow2Add(a: nat, b: nat)
    ensures Pow2(a + b) == Pow2(a) * Pow2(b)
  {
    if a > 0 {
      Pow2Add(a - 1, b);
    }
  }

  lemma Pow2Of16()
    ensures Pow2(16) == 0x1_0000
  {
    assert Pow2(4) == 16;
    Pow2Add(4, 4);
    Pow2Add(8, 8);
  }

  lemma Pow2Of32()
    ensures Pow2(32) == TwoTo32
  {
    Pow2Of16();
    Pow2Add(16, 16);
  }

  lemma Pow2Of64()
    ensures Pow2(64) == TwoTo64
  {
    Pow2Of32();
    Pow2Add(32, 32);
  }

  /** Conversion of a wider integer to C `int`: the low 32 bits are kept and
      read in two's complement. */
  function ToInt32(x: int): (r: Int32)
    ensures (r - x) % TwoTo32 == 0
    ensures -TwoTo31 <= x < TwoTo31 ==> r == x
  {
    (x + TwoTo31) % TwoTo32 - TwoTo31
  }

  /** The 64-bit two's-complement pattern of `x`, as a natural number. */
  function Bits64(x: Int64): (u: nat)
    ensures u < TwoTo64
    ensures x >= 0 ==> u == x
    ensures x < 0 ==> u == x + TwoTo64
  {
    x % TwoTo64
  }

  /** The `long long` whose bit pattern is `u`; the inverse of `Bits64`. */
  function FromBits64(u: nat): (x: Int64)
    requires u < TwoTo64
    ensures Bits64(x) == u
  {
    if u < TwoTo63 then u else u - TwoTo64
  }

  /** Bitwise or of the low `n` bits of `a` and `b`. */
  function OrBits(a: nat, b: nat, n: nat): (r: nat)
    ensures r < Pow2(n)
  {
    if n == 0 then 0
    else 2 * OrBits(a / 2, b / 2, n - 1) + (if a % 2 == 1 || b % 2 == 1 then 1 else 0)
  }

  /** Bitwise and of the low `n` bits of `a` and `b`. */
  function AndBits(a: nat, b: nat, n: nat): (r: nat)
    ensures r < Pow2(n)
  {
    if n == 0 then 0
    else 2 * AndBits(a / 2, b / 2, n - 1) + (if a % 2 == 1 && b % 2 == 1 then 1 else 0)
  }

  /** `x | y` on `long long`. */
  function Or64(x: Int64, y: Int64): Int64
  {
    Pow2Of64();
    FromBits64(OrBits(Bits64(x), Bits64(y), 64))
  }

  /** `x & y` on `long long`. */
  function And64(x: Int64, y: Int64): Int64
  {
    Pow2Of64();
    FromBits64(AndBits(Bits64(x), Bits64(y), 64))
  }

  /** `(long long) x << 32` for a C `int` `x`: the product with 2^32, which
      always fits a `long long`. */
  function ShiftLeft32(x: Int32): Int64
  {
    x * TwoTo32
  }

  /** `x >> 32` on a signed `long long`: an arithmetic shift, which rounds
      toward minus infinity (Dafny's `/` by a positive divisor does too); the
      result always fits a C `int`. */
  function ShiftRight32(x: Int64): (r: Int32)
  {
    x / 0x1_0000_0000
  }

  /** Splitting off the lowest bit of a multiple of 2^k. */
  lemma HalveMultiple(a: nat, k: nat)
    requires k > 0 && a % Pow2(k) == 0
    ensures a % 2 == 0 && (a / 2) % Pow2(k - 1) == 0
  {
    var q, m := a / Pow2(k), Pow2(k - 1);
    assert a == q * Pow2(k);
    assert q * Pow2(k) == q * (2 * m) == 2 * (q * m);
    ModUnique(a, 2, q * m, 0);
    ModUnique(a / 2, m, q, 0);
  }

  lemma {:induction false} OrZero(a: nat, n: nat)
    requires a < Pow2(n)
    ensures OrBits(a, 0, n) == a
  {
    if n > 0 {
      OrZero(a / 2, n - 1);
    }
  }

  lemma {:induction false} OrAllOnes(a: nat, n: nat)
    ensures OrBits(a, Pow2(n) - 1, n) == Pow2(n) - 1
  {
    if n > 0 {
      assert (Pow2(n) - 1) / 2 == Pow2(n - 1) - 1;
      OrAllOnes(a / 2, n - 1);
    }
  }

  /** When `a` has its low `k` bits clear and `b` has only low `k` bits, their
      or is their sum: the two fields do not overlap. */
  lemma {:induction false} OrDisjoint(a: nat, b: nat, n: nat, k: nat)
    requires k <= n && a < Pow2(n) && a % Pow2(k) == 0 && b < Pow2(k)
    ensures OrBits(a, b, n) == a + b
  {
    if k == 0 {
      OrZero(a, n);
    } else {
      HalveMultiple(a, k);
      OrDisjoint(a / 2, b / 2, n - 1, k - 1);
    }
  }

  /** When `b` has every bit from `k` to `n - 1` set and `a` has its low `k`
      bits clear, the or is `b`: `a` is swallowed. */
  lemma {:induction false} OrHighOnes(a: nat, b: nat, n: nat, k: nat)
    requires k <= n && a < Pow2(n) && a % Pow2(k) == 0
    requires Pow2(n) - Pow2(k) <= b < Pow2(n)
    ensures OrBits(a, b, n) == b
  {
    if k == 0 {
      OrAllOnes(a, n);
    } else {
      HalveMultiple(a, k);
      OrHighOnes(a / 2, b / 2, n - 1, k - 1);
    }
  }

  /** The low `k` bits of `a`, taken one at a time. */
  function LowBits(a: nat, k: nat): (r: nat)
    ensures r < Pow2(k)
  {
    if k == 0 then 0 else 2 * LowBits(a / 2, k - 1) + a % 2
  }

  /** And with the mask of the low `k` bits keeps the low `k` bits. */
  lemma {:induction false} AndLowMask(a: nat, n: nat, k: nat)
    requires k <= n
    ensures AndBits(a, Pow2(k) - 1, n) == LowBits(a, k)
  {
    if k == 0 {
      AndZero(a, n);
    } else {
      AndLowMask(a / 2, n - 1, k - 1);
      AndMaskStep(a, n, k);
    }
  }

  /** The low `k` bits of `a` are `a` modulo 2^k. */
  lemma {:induction false} LowBitsMod(a: nat, k: nat)
    ensures LowBits(a, k) == a % Pow2(k)
  {
    if k > 0 {
      LowBitsMod(a / 2, k - 1);
      ModHalve(a, k);
    }
  }

  /** One step of the and with a mask: the lowest bit of `a` is kept, the
      rest is the and of `a / 2` with the mask one bit shorter. */
  lemma AndMaskStep(a: nat, n: nat, k: nat)
    requires 0 < k <= n
    ensures AndBits(a, Pow2(k) - 1, n) == 2 * AndBits(a / 2, Pow2(k - 1) - 1, n - 1) + a % 2
  {
    MaskHalve(k);
  }

  /** The mask of the low `k` bits is odd and halves to the mask of `k - 1`. */
  lemma MaskHalve(k: nat)
    requires k > 0
    ensures (Pow2(k) - 1) % 2 == 1 && (Pow2(k) - 1) / 2 == Pow2(k - 1) - 1
  {
    var m := Pow2(k - 1);
    ModUnique(Pow2(k) - 1, 2, m - 1, 1);
  }

  lemma {:induction false} AndZero(a: nat, n: nat)
    ensures AndBits(a, 0, n) == 0
  {
    if n > 0 {
      AndZero(a / 2, n - 1);
    }
  }

  lemma ModHalve(a: nat, k: nat)
    requires k > 0
    ensures a % Pow2(k) == 2 * ((a / 2) % Pow2(k - 1)) + a % 2
  {
    var m := Pow2(k - 1);
    var h := a / 2;
    assert a == 2 * h + a % 2;
    assert h == (h / m) * m + h % m;
    assert a == (h / m) * Pow2(k) + (2 * (h % m) + a % 2);
    ModUnique(a, Pow2(k), h / m, 2 * (h % m) + a % 2);
  }

  lemma ModUnique(a: int, m: int, q: int, r: int)
    requires m > 0 && 0 <= r < m && a == q * m + r
    ensures a % m == r && a / m == q
  {
    var d := q - a / m;
    assert a == (a / m) * m + a % m;
    assert d * m == q * m - (a / m) * m;
    assert d * m == a % m - r;
  }
}
