/** The fixed-width unsigned integer types a curve's generic parameter `T`
    is instantiated with, and the arithmetic the curves use on them: the
    `num_traits` checked primitives and the plain operators, which wrap
    modulo 2^bits in a release build. A value of type `T` is a `nat` that
    is at most `Max(t)`. */
module Unsigned {
  import opened Errors

  datatype UInt = U8 | U16 | U32 | U64 | U128

  /** `T::BITS`. */
  function Bits(t: UInt): nat {
    match t
    case U8 => 8
    case U16 => 16
    case U32 => 32
    case U64 => 64
    case U128 => 128
  }

  /** 2^n. */
  function Pow2(n: nat): (r: nat)
    ensures r >= 1
  {
    if n == 0 then 1 else 2 * Pow2(n - 1)
  }

  /** A wider exponent never gives a smaller power of two. */
  lemma {:induction false} Pow2Monotone(a: nat, b: nat)
    requires a <= b
    ensures Pow2(a) <= Pow2(b)
  {
    if a < b {
      Pow2Monotone(a, b - 1);
    }
  }

  /** Powers of two multiply by adding exponents. */
  lemma {:induction false} Pow2Add(a: nat, b: nat)
    ensures Pow2(a + b) == Pow2(a) * Pow2(b)
  {
    if b > 0 {
      Pow2Add(a, b - 1);
      calc {
        Pow2(a + b);
        2 * Pow2(a + b - 1);
        2 * (Pow2(a) * Pow2(b - 1));
        Pow2(a) * (2 * Pow2(b - 1));
        Pow2(a) * Pow2(b);
      }
    }
  }

  /** 2^bits: the operators of `T` wrap modulo this. */
  function Modulus(t: UInt): (m: nat)
    ensures m >= 0x100
  {
    match t
    case U8 => 0x100
    case U16 => 0x1_0000
    case U32 => 0x1_0000_0000
    case U64 => 0x1_0000_0000_0000_0000
    case U128 => 0x1_0000_0000_0000_0000_0000_0000_0000_0000
  }

  /** Each modulus is 2 to the power `T::BITS`, so `T::MAX` is
      2^BITS - 1. */
  lemma ModulusIsPow2(t: UInt)
    ensures Modulus(t) == Pow2(Bits(t))
  {
    assert Pow2(8) == 0x100;
    Pow2Add(8, 8);
    assert Pow2(16) == 0x1_0000;
    Pow2Add(16, 16);
    assert Pow2(32) == 0x1_0000_0000;
    Pow2Add(32, 32);
    assert Pow2(64) == 0x1_0000_0000_0000_0000;
    Pow2Add(64, 64);
    assert Pow2(128) == 0x1_0000_0000_0000_0000_0000_0000_0000_0000;
  }

  /** `T::MAX`. */
  function Max(t: UInt): nat {
    Modulus(t) - 1
  }

  /** `x` is a value of type `T`. */
  predicate Fits(t: UInt, x: nat) {
    x <= Max(t)
  }

  /** Every value of a narrower type is a value of a wider one. */
  lemma WiderFits(narrow: UInt, wide: UInt, x: nat)
    requires Bits(narrow) <= Bits(wide) && Fits(narrow, x)
    ensures Fits(wide, x)
  {
    ModulusIsPow2(narrow);
    ModulusIsPow2(wide);
    Pow2Monotone(Bits(narrow), Bits(wide));
  }

  /** `CheckedMul::checked_mul`: the product, or `None` if it exceeds `T::MAX`. */
  function CheckedMul(t: UInt, a: nat, b: nat): Option<nat> {
    if a * b <= Max(t) then Some(a * b) else None
  }

  /** `CheckedAdd::checked_add`: the sum, or `None` if it exceeds `T::MAX`. */
  function CheckedAdd(t: UInt, a: nat, b: nat): Option<nat> {
    if a + b <= Max(t) then Some(a + b) else None
  }

  /** `a * b` on `T` in a release build: the product modulo 2^bits. */
  function WrappingMul(t: UInt, a: nat, b: nat): nat {
    (a * b) % Modulus(t)
  }

  /** `a + b` on `T` in a release build: the sum modulo 2^bits. */
  function WrappingAdd(t: UInt, a: nat, b: nat): nat {
    (a + b) % Modulus(t)
  }

  /** Adding whole multiples of `m` does not change a residue: the two
      residues differ by a multiple of `m` and both lie in [0, m), so
      they are equal. */
  lemma ModAddMultiple(k: int, m: int, x: int)
    requires m > 0
    ensures (k * m + x) % m == x % m
  {
    var y := k * m + x;
    var j := k + x / m - y / m;
    assert y % m - x % m == m * j by {
      assert y == m * (y / m) + y % m;
      assert x == m * (x / m) + x % m;
      assert m * j == m * k + m * (x / m) - m * (y / m);
    }
    MulSign(m, j);
  }

  /** A nonzero multiple of a positive `m` is at least `m` away from 0. */
  lemma MulSign(m: int, j: int)
    requires m > 0
    ensures j >= 1 ==> m * j >= m
    ensures j <= -1 ==> m * j <= -m
  {
    if j >= 1 {
      assert m * j == m + m * (j - 1);
    } else if j <= -1 {
      assert m * j == -m - m * (-j - 1);
    }
  }

  /** Reduction modulo 2^bits leaves a value unchanged exactly when it is
      a value of `T`. */
  lemma ModIdentityIffFits(t: UInt, x: nat)
    ensures x % Modulus(t) == x <==> Fits(t, x)
  {
    var m := Modulus(t);
    if x < m {
      assert x == m * (x / m) + x % m;
      MulSign(m, x / m);
    }
  }

  /** A value of `T` is its own residue modulo 2^bits. */
  lemma ModOfFit(t: UInt, x: nat)
    requires Fits(t, x)
    ensures x % Modulus(t) == x
  {
    ModIdentityIffFits(t, x);
  }

  /** Reducing a factor before multiplying gives the same residue. */
  lemma MulMod(a: int, b: int, m: int)
    requires m > 0
    ensures ((a % m) * b) % m == (a * b) % m
  {
    var q, r := a / m, a % m;
    calc {
      a * b;
      { assert a == q * m + r; }
      (q * m + r) * b;
      (q * b) * m + r * b;
    }
    ModAddMultiple(q * b, m, r * b);
  }

  /** Reducing both summands before adding gives the same residue. */
  lemma AddMod(a: int, b: int, m: int)
    requires m > 0
    ensures ((a % m) + (b % m)) % m == (a + b) % m
  {
    var qa, qb, ra, rb := a / m, b / m, a % m, b % m;
    assert a + b == (qa + qb) * m + (ra + rb) by {
      assert a == qa * m + ra;
      assert b == qb * m + rb;
      assert (qa + qb) * m == qa * m + qb * m;
    }
    ModAddMultiple(qa + qb, m, ra + rb);
  }

  /** Multiplying by a larger factor never gives a smaller product. */
  lemma {:induction false} MulMonotone(a: nat, x: nat, y: nat)
    requires x <= y
    ensures a * x <= a * y
  {
    assert a * y == a * x + a * (y - x);
  }
}
