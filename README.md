# Decimal fixed-point numbers (`fixed.h`)

This project models `FixedPoint::Fixed<dps>`, a header-only C++ decimal
fixed-point type. A value is a signed integer `raw` (the C++ `m_Value`) and a
number of decimal places `dps`. The value stands for `raw / 10^dps`. Every
operation is integer arithmetic on `raw` with a power-of-ten scale factor.
The model proves the following about these operations:
- widening is exact;
- narrowing rounds half away from zero;
- each result gets the stated precision;
- the compound operators and setters leave the object in the state their
  binary counterparts describe.

The model has six modules, one per file:

- `numerics.dfy` (`Numerics`) holds the scale factor `Factor` (10^n) and
  C++'s truncating `/` and `%` (`TruncDiv`, `TruncMod`). Dafny's own `/` and
  `%` on `int` are Euclidean. It also holds rounding half away from zero
  (`RoundHalfAway`) and an independent definition of that rounding
  (`NearestHalfAway`). A lemma proves that the one-extra-digit "±5 then /10"
  pattern yields exactly that rounding.
- `scaling.dfy` (`Scaling`) defines the value `FixedValue(raw, dps)`, the
  exact number it stands for (`Real`), and the rescale operator of
  `scaleFixed`.
- `ops.dfy` (`Ops`) holds the value-returning operators:
  - mixed-precision `+`, `-`, `==`, `>`, `<`, `<=`, `>=`;
  - `*` and `/`;
  - the integer-operand operators.

  Binary `/` and `/int` work step by step on locals, so they are methods.
- `parts.dfy` (`Parts`) holds the integral and fractional parts, the four
  setters and `round<k>` as functions of the value, with their properties.
- `fixed.dfy` (`FixedPoint`) holds the class `Fixed`. It has an immutable
  `dps` and a mutable `raw`, its constructors, and the in-place operations:
  - compound assignment;
  - `round<k>`;
  - the setters.

  Each method states its new value in terms of the `Ops` or `Parts`
  function for the same operation.
- `format.dfy` (`Format`) models the text `operator<<` writes, both as
  written and with the sign printed once. It includes a parser that reads
  the corrected text back. With no decimal places the code still prints a
  fraction field of "0" (as in "7.0"), and the corrected text keeps that
  layout.

Integer widths are unbounded, and template parameters become run-time `nat`
values. Each `*Impl<…, bool>` specialisation becomes an `if` on the two
precisions.

Three points about the code that the model settles:
- `fixed.h:63` names `dps`, which is not in scope there. The model reads it
  as `dps1`, the evident intent.
- In the constructor from the storage type (`fixed.h:197`), the
  `*details::Factor<dps>::value` scaling is commented out. So the
  constructor stores its argument as the raw value
  (`FixedPoint.Fixed.FromRaw`), and the helpers in `details::ops` rely on
  this when they return bare integers. There is no comparison with an
  integer, so `a == 5`, `a < 5` and `a > 5` go through this constructor to
  the same-precision operators (`fixed.h:257-259`, `fixed.h:329-332`) and
  compare raw with 5, that is with 0.05 at two places, while `a + 5`
  (`fixed.h:274-277`) adds 5.00 (`Ops.IntComparisonUnscaled`).
- `*=` with a fixed-point operand (`fixed.h:302`) assigns `*this * d`,
  which rounds half away from zero (`FixedPoint.Fixed.MulAssign`).

The compound operators at `fixed.h:300-303` take a `Fixed` of the
receiver's precision. An operand of another precision reaches them through
the non-explicit converting constructor (`fixed.h:199-203`), so it is first
rescaled into a temporary, and rounded when that narrows it. The methods
state this conversion.

## Model

| member | source | states |
|---|---|---|
| Numerics.Factor | fixed.h:13-14 | the scale factor 10^n is at least 1 |
| Numerics.FactorAdd | fixed.h:13-14 | 10^(m+n) = 10^m · 10^n, by induction on the recursive definition |
| Numerics.Max | fixed.h:16 | the larger of two precisions: at least both, and equal to one of them |
| Numerics.Min | fixed.h:229 | the smaller of two precisions: at most both, and equal to one of them |
| Numerics.TruncDiv | fixed.h:389 | C++ `/`: the remainder is smaller than the divisor in magnitude and has the dividend's sign |
| Numerics.TruncMod | fixed.h:394 | C++ `%`: magnitude below the divisor's, sign of the dividend, and quotient·divisor + remainder = dividend |
| Numerics.TruncDivUnique | fixed.h:389 | only the truncating quotient leaves such a remainder |
| Numerics.TruncDivNegate | fixed.h:27-28 | negating the dividend or the divisor negates the truncating quotient |
| Numerics.TruncDivCancel | fixed.h:241-247 | scaling dividend and divisor by the same positive factor leaves the truncating quotient unchanged |
| Numerics.NearestHalfAwayUnique | fixed.h:26-28 | at most one integer is p/q rounded half away from zero |
| Numerics.NearestHalfAwayNegate | fixed.h:27-28 | rounding half away from zero commutes with negating the dividend or the divisor |
| Numerics.RoundHalfAway | fixed.h:26-28 | adding or subtracting half the factor, then truncating, rounds to the nearest integer, with halves going away from zero |
| Numerics.RoundHalfAwayNegate | fixed.h:27-28 | the rounding is odd-symmetric |
| Numerics.RoundHalfAwayExact | fixed.h:26-28 | rounding a multiple of the factor is exact |
| Numerics.RoundLastDigit | fixed.h:250-253 | truncating p/q at one extra digit, then ±5 and truncating /10, gives p/q rounded half away from zero |
| Scaling.Rescale | fixed.h:21-45 | widening keeps the number exactly; narrowing rounds the raw value half away from zero by the factor difference |
| Scaling.Convert | fixed.h:199-203 | the converted value has the target precision, and when widening it stands for the same number |
| Scaling.WidenExact | fixed.h:35-38 | multiplying raw by 10^k while adding k places keeps the number |
| Scaling.WidenThenNarrow | fixed.h:21-45 | widening gives raw·10^Δ, and narrowing that result back returns the original raw |
| Scaling.RescaleNegate | fixed.h:26-28 | rescale(−v) = −rescale(v) |
| Scaling.NarrowExample | fixed.h:26-28 | 15 at one place narrowed to none gives 2, −15 gives −2, 5 gives 1, and 4 at two places narrowed to one gives 0 |
| Ops.Add | fixed.h:50-71 | mixed `+`: widens the operand with fewer places and adds raw values; its properties are stated by Ops.AddExact, Ops.AddCommutes and Ops.AddZero |
| Ops.AddExact | fixed.h:50-71 | mixed addition has max(dps) places and stands for the exact sum |
| Ops.AddCommutes | fixed.h:51-65 | mixed addition gives the same raw value in either operand order |
| Ops.AddZero | fixed.h:50-71 | adding a zero of any precision gives a's raw value widened to the larger precision |
| Ops.AddExample | fixed.h:51-57 | 150 at 2 places + 2500 at 3 places = 4000 at 3 places |
| Ops.Sub | fixed.h:210-213 | `-` with the operands the right way round, widening as Add does; stated by Ops.SubExact |
| Ops.SubExact | fixed.h:210-213 | subtraction with the operands the right way round is exact, and adding b back gives a |
| Ops.SubAsWritten | fixed.h:73-94 | `-` as written: same-precision operands go to fixed.h:210-213, mixed ones to the helper that computes b − a; stated by Ops.SubAsWrittenSwapsOperands |
| Ops.SubAsWrittenSwapsOperands | fixed.h:73-94 | the written mixed-precision subtraction computes b − a, and agrees with a − b only for equal precisions |
| Ops.SubAsWrittenExample | fixed.h:74-80 | 1.50 − 2.500 as written gives 1.000, where −1.000 is meant |
| Ops.Equal | fixed.h:96-118 | mixed `==`, widening only, and same-precision `==` (fixed.h:257-265); stated by Ops.CompareExact |
| Ops.Greater | fixed.h:120-142 | mixed `>`, widening only, and same-precision `>` (fixed.h:329); stated by Ops.CompareExact |
| Ops.Lesser | fixed.h:145-167 | mixed `<`, widening only, and same-precision `<` (fixed.h:330); stated by Ops.CompareExact |
| Ops.LessEq | fixed.h:332-345 | `<=` as the negation of `>`; stated by Ops.CompareExact |
| Ops.GreaterEq | fixed.h:331-347 | `>=` as the negation of `<`; stated by Ops.CompareExact |
| Ops.CompareExact | fixed.h:96-167 | `==`, `>`, `<`, `<=` and `>=` each hold exactly when the relation holds between the numbers, in both directions |
| Ops.Trichotomy | fixed.h:329-347 | exactly one of `<`, `==`, `>` holds |
| Ops.EqualExample | fixed.h:97-113 | 15 at 1 place equals 150 at 2 places, in either order |
| Ops.Mul | fixed.h:225-232 | the product has max(dps) places, and its raw value is the raw product rounded half away from zero by 10^min(dps) |
| Ops.MulRawProduct | fixed.h:226-231 | the raw product read at a.dps + b.dps places is the exact product of the numbers, and dividing by 10^min leaves max places |
| Ops.MulCommutes | fixed.h:225-232 | the product does not depend on operand order |
| Ops.MulExample | fixed.h:225-232 | 1.5 × 1.5 = 2.3 and −1.5 × 1.5 = −2.3 at one place |
| Ops.QuotientNumeratorMeaning | fixed.h:233-256 | N / b.raw is a / b in units of 10^−max(dps), stated with the divisions multiplied out |
| Ops.Div | fixed.h:233-256 | for a nonzero divisor, the result has max(dps) places and is the exact quotient rounded half away from zero |
| Ops.DivOperands | fixed.h:239-244 | the widened numerator and denominator are 10·N and b.raw, both scaled by the same power of ten |
| Ops.DivExample | fixed.h:233-256 | 1.00 / 3.00 = 0.33 and −1.00 / 3.00 = −0.33 |
| Ops.AddInt | fixed.h:274-277 | `+int`: v scaled by 10^dps and added; stated by Ops.IntOperandsExact |
| Ops.SubInt | fixed.h:278-281 | `-int`: v scaled by 10^dps and subtracted; stated by Ops.IntOperandsExact |
| Ops.MulInt | fixed.h:267 | `*int`: the raw value multiplied; stated by Ops.IntOperandsExact |
| Ops.IntOperandsExact | fixed.h:267-281 | `+int`, `-int` and `*int` keep the precision and are exact |
| Ops.IntComparisonUnscaled | fixed.h:197 | comparing with an integer v compares raw with v unscaled: x == v holds exactly when raw is v, which stands for v / 10^dps and differs from v whenever dps > 0 and v ≠ 0 |
| Ops.IntComparisonExample | fixed.h:257-259 | at two places 5.00 == 5 is false, while 0.00 + 5 is 5.00 |
| Ops.DivInt | fixed.h:268-273 | `/int` keeps the precision and rounds raw / v half away from zero |
| Parts.Integral | fixed.h:387-390 | get_integral is the whole units truncated toward zero: its magnitude bounds and its sign |
| Parts.Fractional | fixed.h:392-395 | get_integral·10^dps + get_fractional = raw, the fraction's magnitude is below 10^dps, and it has raw's sign |
| Parts.PartsExample | fixed.h:387-395 | 1.2345 splits into 1 and 2345, and −1.50 into −1 and −50 |
| Parts.SplitParts | fixed.h:366-385 | q·F + m splits back into (q, m) unless their signs disagree, in which case a unit moves between the parts |
| Parts.WithIntegral | fixed.h:360-364 | set_integral's new value 10^dps · v; stated by Parts.WithIntegralParts |
| Parts.WithIntegralParts | fixed.h:360-364 | after set_integral(v), the integral part is v, the fractional part is 0, and the value is v |
| Parts.AppendedIntegral | fixed.h:366-371 | append_integral's new value raw % 10^dps + 10^dps · v; stated by Parts.AppendedIntegralParts |
| Parts.AppendedIntegralParts | fixed.h:366-371 | append_integral keeps the fraction and sets the integral part to v unless their signs disagree; then it is one unit nearer zero |
| Parts.AppendedIntegralExample | fixed.h:366-371 | −0.5 with integral part 3 becomes 2.5, while 0.5 becomes 3.5 |
| Parts.WithFractional | fixed.h:373-377 | set_fractional's new value v % 10^dps; stated by Parts.WithFractionalParts |
| Parts.WithFractionalParts | fixed.h:373-377 | after set_fractional(v), the integral part is 0 and the fractional part is v % 10^dps |
| Parts.AppendedFractional | fixed.h:379-385 | append_fractional's new value (raw / 10^dps) · 10^dps + v % 10^dps; stated by Parts.AppendedFractionalParts |
| Parts.AppendedFractionalParts | fixed.h:379-385 | append_fractional keeps the integral part and sets the fraction to v % 10^dps unless their signs disagree; then the integral part moves one unit toward zero |
| Parts.AppendedFractionalExample | fixed.h:379-385 | 1.25 with fraction 7 is 1.07, and with fraction −7 is 0.93 |
| Parts.RoundFactor | fixed.h:352-353 | the round<k> factor 10^(dps−k) is at least 1 |
| Parts.Rounded | fixed.h:349-358 | round<k>'s new value; stated by Parts.RoundedProperties |
| Parts.RoundedProperties | fixed.h:349-358 | round<k> keeps dps and leaves a multiple of 10^(dps−k) at most half that factor away (farther from zero on a tie), and rounding again changes nothing |
| Parts.RoundedExample | fixed.h:349-358 | 1.25 → 1.30, −1.25 → −1.30, and 1234 rounded at k = −1 → 1230 |
| FixedPoint.Fixed.GetIntegral | fixed.h:387-390 | get_integral() is Parts.Integral of the value, whose contract states it |
| FixedPoint.Fixed.GetFractional | fixed.h:392-395 | get_fractional() is Parts.Fractional of the value, whose contract states it |
| FixedPoint.Fixed.GetDp | fixed.h:397-400 | get_dp() returns the precision |
| FixedPoint.Fixed.Zero | fixed.h:196 | the default constructor gives raw 0 |
| FixedPoint.Fixed.FromRaw | fixed.h:197 | the storage-type constructor stores its argument as raw, unscaled |
| FixedPoint.Fixed.Copy | fixed.h:198 | the copy constructor copies raw |
| FixedPoint.Fixed.Converted | fixed.h:199-203 | the converting constructor holds the rescaled raw, and when widening it stands for the same number |
| FixedPoint.Fixed.ScaleFrom | fixed.h:21-45 | scaleFixed writes the rescaled raw: exact when widening, rounded half away from zero when narrowing |
| FixedPoint.Fixed.AddAssignInt | fixed.h:283-286 | `+= v` leaves the value of `+v`, which is the old number plus v |
| FixedPoint.Fixed.SubAssignInt | fixed.h:287-290 | `-= v` leaves the value of `-v`, which is the old number minus v |
| FixedPoint.Fixed.MulAssignInt | fixed.h:291 | `*= v` leaves the value of `*v`, which is the old number times v |
| FixedPoint.Fixed.DivAssignInt | fixed.h:292-298 | `/= v` leaves the old raw divided by v, rounded half away from zero |
| FixedPoint.Fixed.AddAssign | fixed.h:300 | `+= d` leaves old + d converted to this precision (fixed.h:199-203), which is the exact sum of the numbers, and exact in d itself when d has no more places |
| FixedPoint.Fixed.SubAssign | fixed.h:301 | `-= d` leaves old − d converted to this precision, which is the exact difference of the numbers, and exact in d itself when d has no more places |
| FixedPoint.Fixed.MulAssign | fixed.h:302 | `*= d` leaves old * (d converted to this precision), whose raw is the raw product divided by 10^dps and rounded half away from zero |
| FixedPoint.Fixed.DivAssign | fixed.h:303 | `/= d`, for d whose conversion to this precision is nonzero, leaves the exact quotient by the converted d, rounded half away from zero |
| FixedPoint.Fixed.Round | fixed.h:349-358 | round<k> leaves the rounded value: a multiple of 10^(dps−k), at most half that factor from the old raw |
| FixedPoint.Fixed.SetIntegral | fixed.h:360-364 | afterwards get_integral() = v and get_fractional() = 0 |
| FixedPoint.Fixed.AppendIntegral | fixed.h:366-371 | when v and the old fraction do not have opposite signs, get_integral() = v and the fraction is kept |
| FixedPoint.Fixed.SetFractional | fixed.h:373-377 | afterwards get_integral() = 0 and get_fractional() = v % 10^dps |
| FixedPoint.Fixed.AppendFractional | fixed.h:379-385 | when the old integral part and v % 10^dps do not have opposite signs, the integral part is kept and the fraction set |
| Format.RenderAsWritten | fixed.h:404-416 | the text as written: get_integral(), '.', get_fractional() right-adjusted to width dps with fill '0'; stated by Format.RenderExample and Format.AsWrittenUnreadable |
| Format.Render | fixed.h:404-416 | the text with the sign printed once; stated by Format.RenderRoundTrip |
| Format.RenderAgreesOnNonNegative | fixed.h:404-416 | for raw ≥ 0, the written text is the sign-once text |
| Format.RenderExample | fixed.h:404-416 | raw −150 at 2 places is written "-1.-50"; the sign-once text is "-1.50" |
| Format.RenderFractionExample | fixed.h:404-416 | raw −5 at 1 place is written "0.-5"; the sign-once text is "-0.5" |
| Format.RenderWholeUnits | fixed.h:409-412 | with no decimal places the integral part is raw and the text ends in ".0" |
| Format.RenderRoundTrip | fixed.h:404-416 | parsing the sign-once text gives back the raw value, for every raw and dps |
| Format.LayoutRoundTrip | fixed.h:409-412 | whole units, '.', and a zero-padded fraction read back as whole·10^dps + fraction, negated after a '-' |
| Format.AsWrittenUnreadable | fixed.h:409-412 | a negative value with a nonzero fraction is written with a '-' inside the fraction field, so the text does not parse |

## Left out

- Float and double constructors (`fixed.h:180-194`): binary floating point is not modelled.
- Storage type `MyType` and overflow: `raw` is an unbounded integer. Overflow is left out, including overflow of the wide numerator of `/` at 2·max+1 places and of `Factor` for large `dps`. It also leaves out the narrower overflow of `+int`, `-int`, `+=int` and `-=int` (`fixed.h:276`, `280`, `285`, `289`): they compute `v * Factor<dps>` in 32-bit `int` before it meets the raw value, so at 4 places adding 300000 overflows although the result fits the storage type.
- Stream state in `operator<<` (`fixed.h:407-414`): the saved and restored fill and width are not modelled. The text assumes the caller's width is 0, that integers print in decimal, that adjustment is right (the stream default, so the fill goes before the digits and before any sign) and that `showpos` is off. The code sets none of these, so under `std::left` the fraction 5 at two places would print as "50".
- The templated mixed-precision compound operators (`fixed.h:305-326`): their parameter type is `Fixed<dps>`, so `dps2` can never be deduced, and the `this = this * d` bodies are ill-formed. No call can reach them.
- Compile-time dispatch: the `*Impl<…, bool>` specialisations and `Factor` of a negative argument (`fixed.h:12`) are not modelled. The first is replaced by `if` on the precisions. The second, a compile-time failure, is replaced by the precondition `k <= dps` on round<k>.
- Division by zero: it is undefined behaviour in C++, so it is a precondition (`b.raw != 0`, `v != 0`) of the division operators.
- Return values of the compound operators and setters: each returns a copy of `*this` or nothing. The methods state only the new state of the object.
- Ops.QuotientNumeratorMeaning: states the exact quotient with the divisions multiplied out, as an integer identity. It does not state it as a real-number quotient.
- FixedPoint.Fixed.AppendIntegral: states the parts only when the signs agree. The other cases are stated on values by Parts.AppendedIntegralParts.
- FixedPoint.Fixed.AppendFractional: states the parts only when the signs agree. The other cases are stated on values by Parts.AppendedFractionalParts.

## Findings

| source | as written | input that shows it | evidently intended | confidence | as-written member | corrected member |
|---|---|---|---|---|---|---|
| fixed.h:78, fixed.h:86 | mixed-precision `a - b` returns b − a | 150 at 2 places − 2500 at 3 places gives 1000 at 3 places (1.50 − 2.500 = 1.000) | a − b, i.e. −1000 at 3 places | not executed | Ops.SubAsWrittenSwapsOperands | Ops.SubExact |
| fixed.h:409-412 | `operator<<` prints the integral and fractional parts each with its own sign | raw −150 at 2 places prints "-1.-50"; raw −5 at 1 place prints "0.-5" | the sign printed once: "-1.50", "-0.5" | not executed | Format.AsWrittenUnreadable | Format.RenderRoundTrip |
