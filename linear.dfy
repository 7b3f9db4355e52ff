/** `LinearBondingCurve<T>`: the price at supply x is f(x) = linear * x + base,
    computed in an unsigned integer type `T`. */
module Linear {
  import opened Errors
  import opened Unsigned

  datatype LinearBondingCurve = LinearBondingCurve(linear: nat, base: nat)

  /** Both coefficients are values of `T`. */
  predicate Valid(t: UInt, c: LinearBondingCurve) {
    Fits(t, c.linear) && Fits(t, c.base)
  }

  /** The exact price f(supply) over unbounded integers. */
  function Price(c: LinearBondingCurve, supply: nat): nat {
    c.linear * supply + c.base
  }

  /** `LinearBondingCurve::new`. */
  function New(t: UInt, linear: nat, base: nat): (c: LinearBondingCurve)
    requires Fits(t, linear) && Fits(t, base)
    ensures Valid(t, c)
    ensures c.linear == linear && c.base == base
  {
    LinearBondingCurve(linear, base)
  }

  /** `calculate_price_checked`: multiply, then add, each step checked;
      the exact price when it fits in `T`, `Overflow` otherwise. */
  function CalculatePriceChecked(t: UInt, c: LinearBondingCurve, supply: nat): (r: Result<nat>)
    requires Valid(t, c) && Fits(t, supply)
    ensures r.Ok? <==> Price(c, supply) <= Max(t)
    ensures r.Ok? ==> r.value == Price(c, supply)
    ensures r.Err? ==> r.error == Overflow
  {
    var result := CheckedMul(t, c.linear, supply)
      .AndThen(x => CheckedAdd(t, x, c.base));
    result.OkOr(Overflow)
  }

  /** `calculate_price` in a release build: `linear * supply + base` with
      each operator wrapping modulo 2^bits. */
  function CalculatePrice(t: UInt, c: LinearBondingCurve, supply: nat): nat
    requires Valid(t, c) && Fits(t, supply)
  {
    WrappingAdd(t, WrappingMul(t, c.linear, supply), c.base)
  }

  /** The release-build price is a value of `T`: the exact price reduced
      modulo 2^bits. */
  lemma CalculatePriceWraps(t: UInt, c: LinearBondingCurve, supply: nat)
    requires Valid(t, c) && Fits(t, supply)
    ensures CalculatePrice(t, c, supply) == Price(c, supply) % Modulus(t)
    ensures Fits(t, CalculatePrice(t, c, supply))
  {
    var m := Modulus(t);
    AddMod(c.linear * supply, c.base, m);
    ModOfFit(t, c.base);
    ModIdentityIffFits(t, Price(c, supply) % m);
  }

  /** The checked price fails exactly when one of its two steps, the
      product `linear * supply` or the sum with `base`, exceeds `T::MAX`,
      and the failure is always `Overflow`. */
  lemma CheckedFailsAtOverflowingStep(t: UInt, c: LinearBondingCurve, supply: nat)
    requires Valid(t, c) && Fits(t, supply)
    ensures CalculatePriceChecked(t, c, supply).Err?
        <==> c.linear * supply > Max(t) || c.linear * supply + c.base > Max(t)
    ensures CalculatePriceChecked(t, c, supply) != Err(DivisionByZero)
  {
  }

  /** The checked price succeeds exactly when the unchecked one gives the
      true price, and then the two agree; so the checked path never
      returns a wrapped value. */
  lemma CheckedAgreesWithUnchecked(t: UInt, c: LinearBondingCurve, supply: nat)
    requires Valid(t, c) && Fits(t, supply)
    ensures CalculatePriceChecked(t, c, supply).Ok?
        <==> CalculatePrice(t, c, supply) == Price(c, supply)
    ensures CalculatePriceChecked(t, c, supply).Ok?
        ==> CalculatePriceChecked(t, c, supply).value == CalculatePrice(t, c, supply)
  {
    CalculatePriceWraps(t, c, supply);
    ModIdentityIffFits(t, Price(c, supply));
  }

  /** The checked price does not depend on the width of `T` except
      through overflow: a price that succeeds in a narrower type is the
      same price in every wider one. */
  lemma CheckedWidening(narrow: UInt, wide: UInt, c: LinearBondingCurve, supply: nat)
    requires Valid(narrow, c) && Fits(narrow, supply) && Bits(narrow) <= Bits(wide)
    ensures Valid(wide, c) && Fits(wide, supply)
    ensures CalculatePriceChecked(narrow, c, supply).Ok?
        ==> CalculatePriceChecked(wide, c, supply) == CalculatePriceChecked(narrow, c, supply)
  {
    WiderFits(narrow, wide, c.linear);
    WiderFits(narrow, wide, c.base);
    WiderFits(narrow, wide, supply);
    var price := Price(c, supply);
    if price <= Max(narrow) {
      WiderFits(narrow, wide, price);
    }
  }

  /** At supply 0 both paths price at `base`. */
  lemma PriceAtZero(t: UInt, c: LinearBondingCurve)
    requires Valid(t, c)
    ensures CalculatePriceChecked(t, c, 0) == Ok(c.base)
    ensures CalculatePrice(t, c, 0) == c.base
  {
    assert Price(c, 0) == c.base;
    CalculatePriceWraps(t, c, 0);
    ModOfFit(t, c.base);
  }

  /** A successful checked price is non-decreasing in supply: if it
      succeeds at `s2`, it succeeds at every smaller `s1` with a price no
      larger. */
  lemma {:induction false} CheckedMonotone(t: UInt, c: LinearBondingCurve, s1: nat, s2: nat)
    requires Valid(t, c) && Fits(t, s2) && s1 <= s2
    requires CalculatePriceChecked(t, c, s2).Ok?
    ensures CalculatePriceChecked(t, c, s1).Ok?
    ensures CalculatePriceChecked(t, c, s1).value <= CalculatePriceChecked(t, c, s2).value
  {
    MulMonotone(c.linear, s1, s2);
  }

  /** The `u128` curve with linear = 500_000_000 and base = 1_000_000_000
      prices supplies 0, 1, 8 and 800 at base, 1.5e9, 5e9 and 4.01e11 on
      both paths. */
  lemma Scenario()
    ensures Max(U128) == 0xffff_ffff_ffff_ffff_ffff_ffff_ffff_ffff
    ensures var c := New(U128, 500_000_000, 1_000_000_000);
      && CalculatePrice(U128, c, 0) == c.base && CalculatePriceChecked(U128, c, 0) == Ok(c.base)
      && CalculatePrice(U128, c, 1) == 1_500_000_000
      && CalculatePriceChecked(U128, c, 1) == Ok(1_500_000_000)
      && CalculatePrice(U128, c, 8) == 5_000_000_000
      && CalculatePriceChecked(U128, c, 8) == Ok(5_000_000_000)
      && CalculatePrice(U128, c, 800) == 401_000_000_000
      && CalculatePriceChecked(U128, c, 800) == Ok(401_000_000_000)
  {
    var c := New(U128, 500_000_000, 1_000_000_000);
    PriceAtZero(U128, c);
    ScenarioAt(c, 1, 1_500_000_000);
    ScenarioAt(c, 8, 5_000_000_000);
    ScenarioAt(c, 800, 401_000_000_000);
  }

  /** One supply point of `Scenario`: a price that fits in `u128` is what
      both paths return. */
  lemma ScenarioAt(c: LinearBondingCurve, supply: nat, price: nat)
    requires Valid(U128, c) && Fits(U128, supply)
    requires Price(c, supply) == price && Fits(U128, price)
    ensures CalculatePrice(U128, c, supply) == price
    ensures CalculatePriceChecked(U128, c, supply) == Ok(price)
  {
    CheckedAgreesWithUnchecked(U128, c, supply);
  }
}
