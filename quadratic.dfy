/** `QuadraticBondingCurve<T>`: the price at supply x is
    f(x) = quadratic * x * x + linear * x + base, computed in an unsigned
    integer type `T`. */
module Quadratic {
  import opened Errors
  import opened Unsigned

  datatype QuadraticBondingCurve = QuadraticBondingCurve(quadratic: nat, linear: nat, base: nat)

  /** All three coefficients are values of `T`. */
  predicate Valid(t: UInt, c: QuadraticBondingCurve) {
    Fits(t, c.quadratic) && Fits(t, c.linear) && Fits(t, c.base)
  }

  /** The exact price f(supply) over unbounded integers. */
  function Price(c: QuadraticBondingCurve, supply: nat): nat {
    c.quadratic * supply * supply + c.linear * supply + c.base
  }

  /** Every intermediate value of the checked evaluation fits in `T`:
      `quadratic * supply`, its product with `supply`, `linear * supply`,
      and the two sums. */
  predicate StepsFit(t: UInt, c: QuadraticBondingCurve, supply: nat) {
    && Fits(t, c.quadratic * supply)
    && Fits(t, c.quadratic * supply * supply)
    && Fits(t, c.linear * supply)
    && Fits(t, c.quadratic * supply * supply + c.linear * supply)
    && Fits(t, c.quadratic * supply * supply + c.linear * supply + c.base)
  }

  /** `QuadraticBondingCurve::new`. */
  function New(t: UInt, quadratic: nat, linear: nat, base: nat): (c: QuadraticBondingCurve)
    requires Fits(t, quadratic) && Fits(t, linear) && Fits(t, base)
    ensures Valid(t, c)
    ensures c.quadratic == quadratic && c.linear == linear && c.base == base
  {
    QuadraticBondingCurve(quadratic, linear, base)
  }

  /** `calculate_price_checked`: three checked multiplications and two
      checked additions, stopping at the first that overflows; the exact
      price when it fits in `T`, `Overflow` otherwise. */
  function CalculatePriceChecked(t: UInt, c: QuadraticBondingCurve, supply: nat): (r: Result<nat>)
    requires Valid(t, c) && Fits(t, supply)
    ensures r.Ok? <==> StepsFit(t, c, supply)
    ensures r.Ok? ==> r.value == Price(c, supply)
    ensures r.Err? ==> r.error == Overflow
  {
    var result := CheckedMul(t, c.quadratic, supply)
      .AndThen(x => CheckedMul(t, x, supply))
      .AndThen(x => (var ls :- CheckedMul(t, c.linear, supply); CheckedAdd(t, x, ls)))
      .AndThen(x => CheckedAdd(t, x, c.base));
    result.OkOr(Overflow)
  }

  /** `calculate_price` in a release build: the polynomial with each
      operator wrapping modulo 2^bits. */
  function CalculatePrice(t: UInt, c: QuadraticBondingCurve, supply: nat): nat
    requires Valid(t, c) && Fits(t, supply)
  {
    WrappingAdd(t, WrappingAdd(t, WrappingMul(t, WrappingMul(t, c.quadratic, supply), supply),
                                  WrappingMul(t, c.linear, supply)),
                   c.base)
  }

  /** The release-build price is a value of `T`: the exact price reduced
      modulo 2^bits. */
  lemma CalculatePriceWraps(t: UInt, c: QuadraticBondingCurve, supply: nat)
    requires Valid(t, c) && Fits(t, supply)
    ensures CalculatePrice(t, c, supply) == Price(c, supply) % Modulus(t)
    ensures Fits(t, CalculatePrice(t, c, supply))
  {
    var m := Modulus(t);
    WrappedPolynomial(m, c.quadratic * supply, supply, c.linear * supply, c.base);
    ModIdentityIffFits(t, Price(c, supply) % m);
  }

  /** Reducing after every operator of `qs * s + ls + base` gives the
      residue of the exact value, when `base` is already reduced. */
  lemma WrappedPolynomial(m: int, qs: int, s: int, ls: int, base: nat)
    requires m > 0 && base < m
    ensures ((((qs % m) * s) % m + ls % m) % m + base) % m == (qs * s + ls + base) % m
    ensures 0 <= (qs * s + ls + base) % m < m
  {
    var qss := qs * s;
    MulMod(qs, s, m);
    AddMod(qss, ls, m);
    assert base % m == base by {
      ModAddMultiple(0, m, base);
      assert base == m * (base / m) + base % m;
      MulSign(m, base / m);
    }
    AddMod(qss + ls, base, m);
  }

  /** For unsigned coefficients every intermediate value is at most the
      final price, so all steps fit exactly when the price does. */
  lemma {:induction false} StepsFitIffPriceFits(t: UInt, c: QuadraticBondingCurve, supply: nat)
    ensures StepsFit(t, c, supply) <==> Price(c, supply) <= Max(t)
  {
    if supply > 0 {
      MulMonotone(c.quadratic * supply, 1, supply);
    }
  }

  /** The checked price is the exact price when that fits in `T` and
      `Overflow` otherwise; it never reports `DivisionByZero`. */
  lemma CheckedExact(t: UInt, c: QuadraticBondingCurve, supply: nat)
    requires Valid(t, c) && Fits(t, supply)
    ensures CalculatePriceChecked(t, c, supply)
        == if Price(c, supply) <= Max(t) then Ok(Price(c, supply)) else Err(Overflow)
  {
    StepsFitIffPriceFits(t, c, supply);
  }

  /** The checked price succeeds exactly when the unchecked one gives the
      true price, and then the two agree; so the checked path never
      returns a wrapped value. */
  lemma CheckedAgreesWithUnchecked(t: UInt, c: QuadraticBondingCurve, supply: nat)
    requires Valid(t, c) && Fits(t, supply)
    ensures CalculatePriceChecked(t, c, supply).Ok?
        <==> CalculatePrice(t, c, supply) == Price(c, supply)
    ensures CalculatePriceChecked(t, c, supply).Ok?
        ==> CalculatePriceChecked(t, c, supply).value == CalculatePrice(t, c, supply)
  {
    CheckedExact(t, c, supply);
    CalculatePriceWraps(t, c, supply);
    ModIdentityIffFits(t, Price(c, supply));
  }

  /** The checked price does not depend on the width of `T` except
      through overflow: a price that succeeds in a narrower type is the
      same price in every wider one. */
  lemma CheckedWidening(narrow: UInt, wide: UInt, c: QuadraticBondingCurve, supply: nat)
    requires Valid(narrow, c) && Fits(narrow, supply) && Bits(narrow) <= Bits(wide)
    ensures Valid(wide, c) && Fits(wide, supply)
    ensures CalculatePriceChecked(narrow, c, supply).Ok?
        ==> CalculatePriceChecked(wide, c, supply) == CalculatePriceChecked(narrow, c, supply)
  {
    WiderFits(narrow, wide, c.quadratic);
    WiderFits(narrow, wide, c.linear);
    WiderFits(narrow, wide, c.base);
    WiderFits(narrow, wide, supply);
    CheckedExact(narrow, c, supply);
    CheckedExact(wide, c, supply);
    var price := Price(c, supply);
    if price <= Max(narrow) {
      WiderFits(narrow, wide, price);
    }
  }

  /** At supply 0 both paths price at `base`. */
  lemma PriceAtZero(t: UInt, c: QuadraticBondingCurve)
    requires Valid(t, c)
    ensures CalculatePriceChecked(t, c, 0) == Ok(c.base)
    ensures CalculatePrice(t, c, 0) == c.base
  {
    assert Price(c, 0) == c.base;
    CalculatePriceWraps(t, c, 0);
    ModOfFit(t, c.base);
  }

  /** A successful checked price is non-decreasing in supply: if it
      succeeds at `s2`, it succeeds at every smaller `s1` with a price no
      larger. */
  lemma {:induction false} CheckedMonotone(t: UInt, c: QuadraticBondingCurve, s1: nat, s2: nat)
    requires Valid(t, c) && Fits(t, s2) && s1 <= s2
    requires CalculatePriceChecked(t, c, s2).Ok?
    ensures CalculatePriceChecked(t, c, s1).Ok?
    ensures CalculatePriceChecked(t, c, s1).value <= CalculatePriceChecked(t, c, s2).value
  {
    MulMonotone(c.quadratic, s1, s2);
    MulMonotone(c.quadratic * s1, s1, s2);
    MulMonotone(s2, c.quadratic * s1, c.quadratic * s2);
    MulMonotone(c.linear, s1, s2);
    StepsFitIffPriceFits(t, c, s1);
    StepsFitIffPriceFits(t, c, s2);
  }

  /** The `u64` curve with coefficients (10_000_000, 500_000_000,
      1_000_000_000) prices supplies 0, 1, 8 and 800 at base, 1.51e9,
      5.64e9 and 6.801e12 on both paths. */
  lemma Scenario()
    ensures Max(U64) == 0xffff_ffff_ffff_ffff
    ensures var c := New(U64, 10_000_000, 500_000_000, 1_000_000_000);
      && CalculatePriceChecked(U64, c, 0) == Ok(c.base)
      && CalculatePrice(U64, c, 1) == 1_510_000_000
      && CalculatePriceChecked(U64, c, 1) == Ok(1_510_000_000)
      && CalculatePrice(U64, c, 8) == 5_640_000_000
      && CalculatePriceChecked(U64, c, 8) == Ok(5_640_000_000)
      && CalculatePrice(U64, c, 800) == 6_801_000_000_000
      && CalculatePriceChecked(U64, c, 800) == Ok(6_801_000_000_000)
  {
    var c := New(U64, 10_000_000, 500_000_000, 1_000_000_000);
    PriceAtZero(U64, c);
    ScenarioAt(c, 1, 1_510_000_000);
    ScenarioAt(c, 8, 5_640_000_000);
    ScenarioAt(c, 800, 6_801_000_000_000);
  }

  /** One supply point of `Scenario`: a price that fits in `u64` is what
      both paths return. */
  lemma ScenarioAt(c: QuadraticBondingCurve, supply: nat, price: nat)
    requires Valid(U64, c) && Fits(U64, supply)
    requires Price(c, supply) == price && Fits(U64, price)
    ensures CalculatePrice(U64, c, supply) == price
    ensures CalculatePriceChecked(U64, c, supply) == Ok(price)
  {
    CheckedAgreesWithUnchecked(U64, c, supply);
    CheckedExact(U64, c, supply);
  }
}
