# magic-curves: exact integer bonding-curve pricing

This project models the two integer bonding curves of the `magic-curves` crate.
A bonding curve gives the unit price of a token as a function of its circulating supply.

- `LinearBondingCurve<T>` prices supply x at f(x) = linear·x + base.
- `QuadraticBondingCurve<T>` prices supply x at f(x) = quadratic·x·x + linear·x + base.

Each curve has two price functions:

- `calculate_price_checked` chains `checked_mul`/`checked_add` and turns the first `None` into `BondingCurveError::Overflow`.
- `calculate_price` is the plain operator expression.

The generic parameter `T` is modelled as one of the unsigned widths `u8` … `u128` (`Unsigned.UInt`).
A value of `T` is a `nat` at most `Max(t)` = 2^bits − 1.
That every coefficient and the supply are values of `T` is a `requires`, because the Rust type guarantees it.

The plain operators are modelled as they behave in a release build: each `*` and `+` wraps modulo 2^bits.
The model proves that the result is the exact price reduced modulo 2^bits.
In a debug build the same expression panics on the first overflowing operator.
Every intermediate is at most the final price (`Quadratic.StepsFitIffPriceFits`).
So a debug build panics exactly when the checked price returns `Overflow`.

Each modulus is written out as a literal; `Unsigned.ModulusIsPow2` proves it equals 2^`T::BITS`.
A value of a narrower width is also a value of every wider one (`Unsigned.WiderFits`).

Modules:

- `Errors` (error.rs): `BondingCurveError = Overflow | DivisionByZero`, plus Rust's `Option` (with `and_then`, `ok_or`, and `?` as `:-`) and `Result`.
- `Unsigned`: the widths, `checked_mul`/`checked_add`, the wrapping operators, and the modular-arithmetic lemmas behind them.
- `Linear` (linear.rs) and `Quadratic` (quadratic.rs): the curve value, `new`, both price functions, and the properties below.

The main claim is proved for both curves.
The checked price is `Ok(v)` with v the exact polynomial value when that value is at most `T::MAX`, and `Err(Overflow)` otherwise.
It never reports `DivisionByZero`.
The checked price succeeds exactly when the unchecked price equals the true price, so the checked path never returns a wrapped value.

## Model

| member | source | states |
|---|---|---|
| `Linear.New` | crates/magic-curves/src/core/linear.rs:15-17 | the curve holds exactly the two given coefficients, both values of `T` |
| `Linear.CalculatePriceChecked` | crates/magic-curves/src/core/linear.rs:30-37 | `Ok` exactly when linear·supply + base ≤ `T::MAX`, and then its value is that exact price; the only error is `Overflow` |
| `Linear.CalculatePriceWraps` | crates/magic-curves/src/core/linear.rs:39-41 | the release-build result of `calculate_price` is a value of `T` equal to the exact price modulo 2^bits |
| `Linear.CheckedFailsAtOverflowingStep` | crates/magic-curves/src/core/linear.rs:31-36 | the checked price fails exactly when the product linear·supply or its sum with base exceeds `T::MAX`; it is never `Err(DivisionByZero)` |
| `Linear.CheckedAgreesWithUnchecked` | crates/magic-curves/src/core/linear.rs:30-41 | the checked price succeeds exactly when the unchecked price is the true price, and then the two are equal |
| `Linear.CheckedWidening` | crates/magic-curves/src/core/linear.rs:11-14 | for the generic `T`, a checked price that succeeds in a narrower unsigned type gives the same `Ok` value in every wider one |
| `Linear.PriceAtZero` | crates/magic-curves/src/core/linear.rs:57-60 | at supply 0 both paths return `base` |
| `Linear.CheckedMonotone` | crates/magic-curves/src/core/linear.rs:30-41 | if the checked price succeeds at s2, it succeeds at every s1 ≤ s2 with a price no larger |
| `Linear.Scenario` | crates/magic-curves/src/core/linear.rs:47-75 | the `u128` curve (500_000_000, 1_000_000_000) prices supplies 0, 1, 8 and 800 at base, 1_500_000_000, 5_000_000_000 and 401_000_000_000 on both paths |
| `Quadratic.New` | crates/magic-curves/src/core/quadratic.rs:16-22 | the curve holds exactly the three given coefficients, all values of `T` |
| `Quadratic.CalculatePriceChecked` | crates/magic-curves/src/core/quadratic.rs:36-45 | `Ok` exactly when all five intermediates (quadratic·s, quadratic·s·s, linear·s and both sums) fit in `T`, and then its value is the exact price; the only error is `Overflow` |
| `Quadratic.CalculatePriceWraps` | crates/magic-curves/src/core/quadratic.rs:47-49 | the release-build result of `calculate_price` is a value of `T` equal to the exact price modulo 2^bits |
| `Quadratic.StepsFitIffPriceFits` | crates/magic-curves/src/core/quadratic.rs:37-44 | all five intermediates fit in `T` exactly when the final price does, because with unsigned values each intermediate is at most the price |
| `Quadratic.CheckedExact` | crates/magic-curves/src/core/quadratic.rs:36-45 | the checked price is `Ok(exact price)` when that price is at most `T::MAX`, and `Err(Overflow)` otherwise |
| `Quadratic.CheckedAgreesWithUnchecked` | crates/magic-curves/src/core/quadratic.rs:36-49 | the checked price succeeds exactly when the unchecked price is the true price, and then the two are equal |
| `Quadratic.CheckedWidening` | crates/magic-curves/src/core/quadratic.rs:11-14 | for the generic `T`, a checked price that succeeds in a narrower unsigned type gives the same `Ok` value in every wider one |
| `Quadratic.PriceAtZero` | crates/magic-curves/src/core/quadratic.rs:63-67 | at supply 0 both paths return `base` |
| `Quadratic.CheckedMonotone` | crates/magic-curves/src/core/quadratic.rs:36-45 | if the checked price succeeds at s2, it succeeds at every s1 ≤ s2 with a price no larger |
| `Quadratic.Scenario` | crates/magic-curves/src/core/quadratic.rs:56-82 | the `u64` curve (10_000_000, 500_000_000, 1_000_000_000) prices supply 0 at base and supplies 1, 8 and 800 at 1_510_000_000, 5_640_000_000 and 6_801_000_000_000 on both paths |

## Left out

- Exponential, logarithmic and sigmoid curves (crates/magic-curves/src/core/exponential.rs, logarithmic.rs, sigmoid.rs): `f64` arithmetic with `powf`, `exp` and `ln`, with no exact semantics to verify.
- The float/fixed-point conversions of crates/magic-curves/src/core/tools.rs: lossy `f64` multiplication, division and an `as u64` cast.
- The capability traits and the `OperationSide` tag of crates/magic-curves/src/core/types.rs: neither integer curve here implements those traits (their methods take `supply: T`), so there is no behaviour to model.
- Batch pricing (`calculate_price_many`): the linear and quadratic curves modelled here define no such method, so no closed-form sum over a range of supplies is modelled.
- The wasm-bindgen shim (crates/magic-curves-wasm/src/lib.rs): it only builds curves and forwards arguments, and it calls batch-pricing methods that are not part of this model.
- The `Display` text of `BondingCurveError` (crates/magic-curves/src/core/error.rs:15-26): only the datatype is modelled.
- Instantiations of `T` other than the unsigned widths `u8` … `u128`. This includes signed integers, for which "fails exactly when the exact price exceeds `T::MAX`" does not hold, and also `usize`.
- `Linear.CalculatePrice`, `Quadratic.CalculatePrice`: model the release-build wrap-around only. The debug-build panic is not a separate member. It happens exactly when some intermediate overflows, which is exactly when the checked price is `Err(Overflow)`.
- The order in which the quadratic chain meets its first overflow is not observable in the model. Every failure yields the same `Overflow` value, so only which inputs fail is modelled.
- The quadratic doc comment writes the formula as "xa^2 + bx + c", but the code computes quadratic·x·x + linear·x + base. The model follows the code.
