/** The integral and fractional parts of a fixed-point value, the setters
    that replace one of them, and rounding to fewer decimal places. Each is
    a function of the value; the class in FixedPoint applies them in place. */
module Parts {
  import opened Numerics
  import opened Scaling

  // ---------------------------------------------------------------------------
  // Reading the parts

  /** The whole units of x, truncated toward zero. */
  function Integral(x: FixedValue): (r: int)
    ensures Abs(r) * Factor(x.dps) <= Abs(x.raw) < (Abs(r) + 1) * Factor(x.dps)
    ensures x.raw >= 0 ==> r >= 0
    ensures x.raw <= 0 ==> r <= 0
  {
    var f := Factor(x.dps);
    var q := TruncDiv(x.raw, f);
    IntegralBounds(x.raw, f, q);
    q
  }

  lemma IntegralBounds(v: int, f: int, q: int)
    requires f > 0 && q == TruncDiv(v, f)
    ensures Abs(q) * f <= Abs(v) < (Abs(q) + 1) * f
    ensures v >= 0 ==> q >= 0
    ensures v <= 0 ==> q <= 0
  {
    AbsMul(q, f);
    MulSign(q, f);
    MulAddOne(Abs(q), f);
  }

  /** The digits of x after the decimal point, as C++ `%` leaves them: they
      have the sign of x and together with the whole units give back raw. */
  function Fractional(x: FixedValue): (r: int)
    ensures Integral(x) * Factor(x.dps) + r == x.raw
    ensures Abs(r) < Factor(x.dps)
    ensures x.raw >= 0 ==> r >= 0
    ensures x.raw <= 0 ==> r <= 0
  {
    TruncMod(x.raw, Factor(x.dps))
  }

  /** 1.2345 has integral part 1 and fractional part 2345; -1.50 has -1 and -50. */
  lemma PartsExample()
    ensures Integral(FixedValue(12345, 4)) == 1 && Fractional(FixedValue(12345, 4)) == 2345
    ensures Integral(FixedValue(-150, 2)) == -1 && Fractional(FixedValue(-150, 2)) == -50
  {
  }

  /** q * F + m splits back into q whole units and remainder m exactly when q
      and m do not have opposite signs; otherwise truncation toward zero
      moves one unit from the whole part into the remainder. */
  lemma SplitParts(q: int, m: int, F: int)
    requires F > 0 && Abs(m) < F
    ensures (q >= 0 && m >= 0) || (q <= 0 && m <= 0) ==>
      TruncDiv(q * F + m, F) == q && TruncMod(q * F + m, F) == m
    ensures q < 0 && m > 0 ==>
      TruncDiv(q * F + m, F) == q + 1 && TruncMod(q * F + m, F) == m - F
    ensures q > 0 && m < 0 ==>
      TruncDiv(q * F + m, F) == q - 1 && TruncMod(q * F + m, F) == m + F
  {
    var a := q * F + m;
    MulSign(q, F);
    MulAddOne(q, F);
    MulAddOne(q - 1, F);
    if (q >= 0 && m >= 0) || (q <= 0 && m <= 0) {
      TruncDivUnique(a, F, q);
    } else if q < 0 && m > 0 {
      TruncDivUnique(a, F, q + 1);
    } else if q > 0 && m < 0 {
      TruncDivUnique(a, F, q - 1);
    }
  }

  // ---------------------------------------------------------------------------
  // Setting the parts

  /** set_integral: v whole units and no fractional digits. */
  function WithIntegral(x: FixedValue, v: int): FixedValue {
    FixedValue(Factor(x.dps) * v, x.dps)
  }

  /** After set_integral(v) the integral part is v, the fractional part is
      zero and the value is exactly v. */
  lemma WithIntegralParts(x: FixedValue, v: int)
    ensures Integral(WithIntegral(x, v)) == v
    ensures Fractional(WithIntegral(x, v)) == 0
    ensures Real(WithIntegral(x, v)) == v as real
  {
    var F := Factor(x.dps);
    assert F * v == v * F + 0;
    SplitParts(v, 0, F);
    WidenExact(v, 0, x.dps);
  }

  /** append_integral: the fractional digits of x (with the sign of x) plus
      v whole units. */
  function AppendedIntegral(x: FixedValue, v: int): FixedValue {
    FixedValue(TruncMod(x.raw, Factor(x.dps)) + Factor(x.dps) * v, x.dps)
  }

  /** append_integral keeps the fractional part and sets the integral part to
      v when v and the kept fraction do not have opposite signs; when they
      do, the sum borrows a unit, so the integral part ends one unit nearer
      zero than v. */
  lemma AppendedIntegralParts(x: FixedValue, v: int)
    ensures (v >= 0 && Fractional(x) >= 0) || (v <= 0 && Fractional(x) <= 0) ==>
      Integral(AppendedIntegral(x, v)) == v && Fractional(AppendedIntegral(x, v)) == Fractional(x)
    ensures v < 0 && Fractional(x) > 0 ==> Integral(AppendedIntegral(x, v)) == v + 1
    ensures v > 0 && Fractional(x) < 0 ==> Integral(AppendedIntegral(x, v)) == v - 1
  {
    var F := Factor(x.dps);
    var m := Fractional(x);
    assert m + F * v == v * F + m;
    SplitParts(v, m, F);
  }

  /** -0.5 with its integral part set to 3 becomes 2.5, while 0.5 becomes 3.5. */
  lemma AppendedIntegralExample()
    ensures AppendedIntegral(FixedValue(-5, 1), 3) == FixedValue(25, 1)
    ensures AppendedIntegral(FixedValue(5, 1), 3) == FixedValue(35, 1)
  {
  }

  /** set_fractional: the last dps digits of v, with the sign of v, and no
      whole units. */
  function WithFractional(x: FixedValue, v: int): FixedValue {
    FixedValue(TruncMod(v, Factor(x.dps)), x.dps)
  }

  /** After set_fractional(v) the integral part is zero and the fractional
      part is v reduced modulo 10^dps. */
  lemma WithFractionalParts(x: FixedValue, v: int)
    ensures Integral(WithFractional(x, v)) == 0
    ensures Fractional(WithFractional(x, v)) == TruncMod(v, Factor(x.dps))
  {
    var F := Factor(x.dps);
    var m := TruncMod(v, F);
    assert 0 * F + m == m;
    SplitParts(0, m, F);
  }

  /** append_fractional: the whole units of x plus the last dps digits of v. */
  function AppendedFractional(x: FixedValue, v: int): FixedValue {
    FixedValue(TruncDiv(x.raw, Factor(x.dps)) * Factor(x.dps) + TruncMod(v, Factor(x.dps)), x.dps)
  }

  /** append_fractional keeps the integral part and sets the fractional part
      to v reduced modulo 10^dps when the two do not have opposite signs;
      when they do, the integral part ends one unit nearer zero. */
  lemma AppendedFractionalParts(x: FixedValue, v: int)
    ensures var m := TruncMod(v, Factor(x.dps));
      (Integral(x) >= 0 && m >= 0) || (Integral(x) <= 0 && m <= 0) ==>
        Integral(AppendedFractional(x, v)) == Integral(x) &&
        Fractional(AppendedFractional(x, v)) == m
    ensures var m := TruncMod(v, Factor(x.dps));
      Integral(x) < 0 && m > 0 ==> Integral(AppendedFractional(x, v)) == Integral(x) + 1
    ensures var m := TruncMod(v, Factor(x.dps));
      Integral(x) > 0 && m < 0 ==> Integral(AppendedFractional(x, v)) == Integral(x) - 1
  {
    SplitParts(Integral(x), TruncMod(v, Factor(x.dps)), Factor(x.dps));
  }

  /** 1.25 with fraction 7 at two places is 1.07; 1.25 with fraction -7 is 0.93. */
  lemma AppendedFractionalExample()
    ensures AppendedFractional(FixedValue(125, 2), 7) == FixedValue(107, 2)
    ensures AppendedFractional(FixedValue(125, 2), -7) == FixedValue(93, 2)
  {
  }

  // ---------------------------------------------------------------------------
  // Rounding in place

  /** The factor round<k> rounds to: 10^(dps - k). */
  function RoundFactor(dps: nat, k: int): (f: nat)
    requires k <= dps
    ensures f >= 1
  {
    Factor((dps - k) as nat)
  }

  /** round<k>: x rounded half away from zero to k decimal places, keeping dps. */
  function Rounded(x: FixedValue, k: int): FixedValue
    requires k <= x.dps
  {
    var f := RoundFactor(x.dps, k);
    FixedValue(RoundHalfAway(x.raw, f) * f, x.dps)
  }

  /** round<k> leaves a multiple of 10^(dps - k) at most half that factor
      away, the one farther from zero on a tie, and rounding again changes
      nothing. */
  lemma RoundedProperties(x: FixedValue, k: int)
    requires k <= x.dps
    ensures Rounded(x, k).dps == x.dps
    ensures TruncMod(Rounded(x, k).raw, RoundFactor(x.dps, k)) == 0
    ensures 2 * Abs(x.raw - Rounded(x, k).raw) <= RoundFactor(x.dps, k)
    ensures 2 * Abs(x.raw - Rounded(x, k).raw) == RoundFactor(x.dps, k) ==>
      Abs(Rounded(x, k).raw) > Abs(x.raw)
    ensures Rounded(Rounded(x, k), k) == Rounded(x, k)
  {
    var f := RoundFactor(x.dps, k);
    var r := RoundHalfAway(x.raw, f);
    TruncDivUnique(r * f, f, r);
    RoundHalfAwayExact(r, f);
  }

  /** 1.25 rounded to one place is 1.30, -1.25 is -1.30, and 1234 rounded to
      tens is 1230. */
  lemma RoundedExample()
    ensures Rounded(FixedValue(125, 2), 1) == FixedValue(130, 2)
    ensures Rounded(FixedValue(-125, 2), 1) == FixedValue(-130, 2)
    ensures Rounded(FixedValue(1234, 0), -1) == FixedValue(1230, 0)
  {
    assert RoundFactor(2, 1) == 10 && RoundFactor(0, -1) == 10;
    TruncDivUnique(130, 10, 13);
    TruncDivUnique(-130, 10, -13);
    TruncDivUnique(1239, 10, 123);
  }
}
