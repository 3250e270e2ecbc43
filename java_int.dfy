/** Java's 32-bit `int` and the two operators on it that the kernel's
    address arithmetic uses: the arithmetic right shift `>>` and the
    bitwise `&`. Both are defined on unbounded integers in two's-complement
    terms, which is what Java computes for operands that fit 32 bits. */
module JavaInt {

  newtype int32 = x: int | -0x8000_0000 <= x < 0x8000_0000

  /** 2 raised to the power k. */
  function Pow2(k: nat): (r: nat)
    ensures r >= 1
  {
    if k == 0 then 1 else 2 * Pow2(k - 1)
  }

  lemma {:induction false} Pow2Monotone(i: nat, j: nat)
    requires i <= j
    ensures Pow2(i) <= Pow2(j)
  {
    if i < j {
      Pow2Monotone(i, j - 1);
    }
  }

  lemma {:induction false} Pow2Add(i: nat, j: nat)
    ensures Pow2(i + j) == Pow2(i) * Pow2(j)
  {
    if j > 0 {
      Pow2Add(i, j - 1);
      assert Pow2(i + j) == 2 * Pow2(i + j - 1);
    }
  }

  /** No power of two with an exponent above 30 fits a positive Java int. */
  lemma Pow2Exceeds31(k: nat)
    requires 31 <= k
    ensures 0x8000_0000 <= Pow2(k)
  {
    assert Pow2(5) == 32;
    Pow2Add(5, 5);
    assert Pow2(10) == 0x400;
    Pow2Add(10, 10);
    assert Pow2(20) == 0x10_0000;
    Pow2Add(20, 10);
    assert Pow2(30) == 0x4000_0000;
    assert Pow2(31) == 0x8000_0000;
    Pow2Monotone(31, k);
  }

  ghost predicate IsPowerOfTwo(n: int)
  {
    exists k: nat :: n == Pow2(k)
  }

  /** A power of two lying in [2^k, 2^(k+1)) is 2^k. */
  lemma PowerOfTwoInOctave(n: int, k: nat)
    requires Pow2(k) <= n < Pow2(k + 1)
    ensures IsPowerOfTwo(n) <==> n == Pow2(k)
  {
    if IsPowerOfTwo(n) {
      var j: nat :| n == Pow2(j);
      if j < k {
        Pow2Monotone(j + 1, k);
      } else if k < j {
        Pow2Monotone(k + 1, j);
      }
    }
  }

  /** Java's `x >> k`: an arithmetic shift (floor division by a power of two)
      whose distance is taken modulo 32. */
  function ShiftRight(x: int32, k: int): (r: int)
  {
    x as int / Pow2(k % 32)
  }

  /** `x >> k == 1` exactly when 2^k <= x < 2^(k+1): the shift test of the
      kernel's boot loop picks out the floor of the base-2 logarithm. */
  lemma ShiftIsOne(x: int32, k: nat)
    requires 0 < x && k < 32
    ensures ShiftRight(x, k) == 1 <==> Pow2(k) <= x as int < Pow2(k + 1)
  {
    var p := Pow2(k);
    assert k % 32 == k;
    var q, r := x as int / p, x as int % p;
    assert x as int == q * p + r && 0 <= r < p;
    if q == 1 {
      assert p <= x as int < 2 * p;
    } else if q < 1 {
      assert q <= 0;
      assert q * p <= 0;
    } else {
      assert q >= 2;
      assert q * p >= 2 * p;
    }
  }

  /** The measure by which BitAnd's first operand shrinks: the distance of
      a two's-complement value from its all-zero or all-one fixed point. */
  function Size(x: int): (r: nat)
  {
    if x >= 0 then x else -x - 1
  }

  /** Two's-complement bitwise AND; on 32-bit operands it is Java's `a & b`.
      0 and -1 are the values whose remaining bits are all 0 or all 1. */
  function BitAnd(a: int, b: int): (r: int)
    decreases Size(a)
  {
    if a == 0 then 0
    else if a == -1 then b
    else 2 * BitAnd(a / 2, b / 2) + (a % 2) * (b % 2)
  }

  lemma {:induction false} BitAndZero(a: int)
    ensures BitAnd(a, 0) == 0
    decreases Size(a)
  {
    if a != 0 && a != -1 {
      BitAndZero(a / 2);
    }
  }

  /** Euclidean remainder is determined by any quotient that leaves it in range. */
  lemma ModUnique(a: int, d: int, q: int, r: int)
    requires 0 <= r < d && a == q * d + r
    ensures a % d == r
  {
    var q0, r0 := a / d, a % d;
    assert a == q0 * d + r0 && 0 <= r0 < d;
    var e := q - q0;
    assert e * d == r0 - r by {
      assert q * d - q0 * d == e * d;
    }
    if e > 0 {
      AtLeastOnce(e, d);
    } else if e < 0 {
      AtLeastOnce(-e, d);
    }
  }

  lemma AtLeastOnce(e: int, d: int)
    requires 1 <= e && 0 <= d
    ensures d <= e * d
  {
  }

  /** Dropping the lowest bit, reducing, and putting the bit back reduces
      modulo the doubled power. */
  lemma HalveMod(a: int, q: int)
    requires 1 <= q
    ensures 2 * ((a / 2) % q) + a % 2 == a % (2 * q)
  {
    var h, b := a / 2, a % 2;
    var t, s := h / q, h % q;
    assert a == 2 * h + b;
    assert h == t * q + s;
    assert a == t * (2 * q) + (2 * s + b);
    ModUnique(a, 2 * q, t, 2 * s + b);
  }

  /** Masking with 2^k - 1 keeps the k low bits: it is the remainder modulo
      2^k, for negative values too. */
  lemma {:induction false} LowBitsMask(a: int, k: nat)
    ensures BitAnd(a, Pow2(k) - 1) == a % Pow2(k)
    decreases Size(a)
  {
    var m := Pow2(k) - 1;
    if a == 0 {
    } else if a == -1 {
      ModUnique(-1, Pow2(k), -1, m);
    } else if k == 0 {
      BitAndZero(a / 2);
    } else {
      var q := Pow2(k - 1);
      assert m == 2 * (q - 1) + 1;
      assert m / 2 == q - 1 && m % 2 == 1;
      LowBitsMask(a / 2, k - 1);
      HalveMod(a, q);
    }
  }
}
