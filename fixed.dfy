/** The fixed-point number as an object: a fixed number of decimal places
    and a raw integer that the compound operators, the setters and round<k>
    update in place. The value-returning operators are the functions of Ops
    and Parts applied to Value(). */
module FixedPoint {
  import opened Numerics
  import opened Scaling
  import Ops
  import Parts

  class Fixed {
    /** The number of decimal places, fixed for the object's lifetime. */
    const dps: nat
    /** The stored integer: the object stands for raw / 10^dps. */
    var raw: int

    function Value(): FixedValue
      reads this
    {
      FixedValue(raw, dps)
    }

    // -------------------------------------------------------------------------
    // Constructors

    /** The default constructor: zero. */
    constructor Zero(dps: nat)
      ensures this.dps == dps && raw == 0
    {
      this.dps := dps;
      raw := 0;
    }

    /** The constructor from the storage type: v is taken as the raw value,
        not scaled by 10^dps. */
    constructor FromRaw(dps: nat, v: int)
      ensures this.dps == dps && raw == v
    {
      this.dps := dps;
      raw := v;
    }

    /** The copy constructor. */
    constructor Copy(d: Fixed)
      ensures dps == d.dps && raw == d.raw
    {
      dps := d.dps;
      raw := d.raw;
    }

    /** The converting constructor from another precision: widening is
        exact, narrowing rounds half away from zero. */
    constructor Converted(dps: nat, d: Fixed)
      ensures this.dps == dps
      ensures raw == Rescale(d.raw, d.dps, dps)
      ensures dps >= d.dps ==> Real(Value()) == Real(d.Value())
    {
      this.dps := dps;
      raw := 0;
      new;
      ScaleFrom(d.Value());
    }

    /** Overwrite raw with b re-expressed at this object's precision: multiply
        by the scale difference when widening; when narrowing, add or
        subtract half the scale difference and truncate. */
    method ScaleFrom(b: FixedValue)
      modifies this
      ensures raw == Rescale(b.raw, b.dps, dps)
      ensures dps >= b.dps ==> Real(Value()) == Real(b)
      ensures dps < b.dps ==> NearestHalfAway(b.raw, Factor(b.dps - dps), raw)
    {
      if dps >= b.dps {
        var fac := Factor(dps - b.dps);
        raw := b.raw * fac;
      } else {
        var f := Factor(b.dps - dps);
        if b.raw >= 0 {
          raw := TruncDiv(b.raw + f / 2, f);
        } else {
          raw := TruncDiv(b.raw - f / 2, f);
        }
      }
    }

    // -------------------------------------------------------------------------
    // Compound assignment with an integer operand

    /** += v: v whole units are added; the result is exact. */
    method AddAssignInt(v: int)
      modifies this
      ensures Value() == Ops.AddInt(old(Value()), v)
      ensures Real(Value()) == Real(old(Value())) + v as real
    {
      Ops.IntOperandsExact(Value(), v);
      raw := raw + v * Factor(dps);
    }

    /** -= v: v whole units are subtracted; the result is exact. */
    method SubAssignInt(v: int)
      modifies this
      ensures Value() == Ops.SubInt(old(Value()), v)
      ensures Real(Value()) == Real(old(Value())) - v as real
    {
      Ops.IntOperandsExact(Value(), v);
      raw := raw - v * Factor(dps);
    }

    /** *= v: the raw value is multiplied; the result is exact. */
    method MulAssignInt(v: int)
      modifies this
      ensures Value() == Ops.MulInt(old(Value()), v)
      ensures Real(Value()) == Real(old(Value())) * v as real
    {
      Ops.IntOperandsExact(Value(), v);
      raw := raw * v;
    }

    /** /= v: raw / v rounded half away from zero, through one extra digit. */
    method DivAssignInt(v: int)
      requires v != 0
      modifies this
      ensures NearestHalfAway(old(raw), v, raw)
    {
      var temp := TruncDiv(raw * 10, v);
      if temp >= 0 { temp := temp + 5; } else { temp := temp - 5; }
      raw := TruncDiv(temp, 10);
      assert old(raw) * 10 == 10 * old(raw);
      RoundLastDigit(old(raw), v);
    }

    // -------------------------------------------------------------------------
    // Compound assignment with a fixed-point operand. The operators take a
    // Fixed of the receiver's precision, so an operand of another precision
    // is first converted by the converting constructor into a temporary,
    // rounding half away from zero when that narrows it.

    /** += d: d converted to this precision, then the raw values are added. */
    method AddAssign(d: Fixed)
      modifies this
      ensures Value() == Ops.Add(old(Value()), Convert(old(d.Value()), dps))
      ensures Real(Value()) == Real(old(Value())) + Real(Convert(old(d.Value()), dps))
      ensures dps >= d.dps ==> Real(Value()) == Real(old(Value())) + Real(old(d.Value()))
    {
      var operand := new Fixed.Converted(dps, d);
      Ops.AddExact(Value(), operand.Value());
      raw := raw + operand.raw;
    }

    /** -= d: d converted to this precision, then its raw value is subtracted. */
    method SubAssign(d: Fixed)
      modifies this
      ensures Value() == Ops.Sub(old(Value()), Convert(old(d.Value()), dps))
      ensures Real(Value()) == Real(old(Value())) - Real(Convert(old(d.Value()), dps))
      ensures dps >= d.dps ==> Real(Value()) == Real(old(Value())) - Real(old(d.Value()))
    {
      var operand := new Fixed.Converted(dps, d);
      Ops.SubExact(Value(), operand.Value());
      raw := raw - operand.raw;
    }

    /** *= d: assigns the product with d converted to this precision, the raw
        product divided by 10^dps half away from zero. */
    method MulAssign(d: Fixed)
      modifies this
      ensures Value() == Ops.Mul(old(Value()), Convert(old(d.Value()), dps))
      ensures NearestHalfAway(old(raw) * Rescale(old(d.raw), d.dps, dps), Factor(dps), raw)
    {
      var operand := new Fixed.Converted(dps, d);
      var product := Ops.Mul(Value(), operand.Value());
      raw := product.raw;
    }

    /** /= d: assigns the quotient by d converted to this precision, rounded
        half away from zero at dps places. The converted divisor must not be
        zero; a nonzero d can narrow to zero. */
    method DivAssign(d: Fixed)
      requires Rescale(d.raw, d.dps, dps) != 0
      modifies this
      ensures Ops.IsQuotient(old(Value()), Convert(old(d.Value()), dps), Value())
    {
      var operand := new Fixed.Converted(dps, d);
      var quotient := Ops.Div(Value(), operand.Value());
      raw := quotient.raw;
    }

    // -------------------------------------------------------------------------
    // Rounding and the parts

    /** round<k>: round to k decimal places in four steps (add or subtract
        half the factor, truncate, scale back up). */
    method Round(k: int)
      requires k <= dps
      modifies this
      ensures Value() == Parts.Rounded(old(Value()), k)
      ensures TruncMod(raw, Parts.RoundFactor(dps, k)) == 0
      ensures 2 * Abs(old(raw) - raw) <= Parts.RoundFactor(dps, k)
    {
      var factor := Parts.RoundFactor(dps, k);
      if raw < 0 { raw := raw - factor / 2; } else { raw := raw + factor / 2; }
      raw := TruncDiv(raw, factor);
      assert raw == RoundHalfAway(old(raw), factor);
      raw := raw * factor;
      Parts.RoundedProperties(old(Value()), k);
    }

    /** set_integral(v): v whole units, no fractional digits. */
    method SetIntegral(v: int)
      modifies this
      ensures Value() == Parts.WithIntegral(old(Value()), v)
      ensures GetIntegral() == v && GetFractional() == 0
    {
      Parts.WithIntegralParts(Value(), v);
      raw := Factor(dps) * v;
    }

    /** append_integral(v): keep the fractional digits, set the whole units. */
    method AppendIntegral(v: int)
      modifies this
      ensures Value() == Parts.AppendedIntegral(old(Value()), v)
      ensures (v >= 0 && old(GetFractional()) >= 0) || (v <= 0 && old(GetFractional()) <= 0) ==>
        GetIntegral() == v && GetFractional() == old(GetFractional())
    {
      Parts.AppendedIntegralParts(Value(), v);
      raw := TruncMod(raw, Factor(dps)) + Factor(dps) * v;
    }

    /** set_fractional(v): the last dps digits of v, no whole units. */
    method SetFractional(v: int)
      modifies this
      ensures Value() == Parts.WithFractional(old(Value()), v)
      ensures GetIntegral() == 0 && GetFractional() == TruncMod(v, Factor(dps))
    {
      Parts.WithFractionalParts(Value(), v);
      raw := TruncMod(v, Factor(dps));
    }

    /** append_fractional(v): keep the whole units, set the fractional digits. */
    method AppendFractional(v: int)
      modifies this
      ensures Value() == Parts.AppendedFractional(old(Value()), v)
      ensures var m := TruncMod(v, Factor(dps));
        (old(GetIntegral()) >= 0 && m >= 0) || (old(GetIntegral()) <= 0 && m <= 0) ==>
          GetIntegral() == old(GetIntegral()) && GetFractional() == m
    {
      Parts.AppendedFractionalParts(Value(), v);
      raw := TruncDiv(raw, Factor(dps)) * Factor(dps) + TruncMod(v, Factor(dps));
    }

    /** get_integral(). */
    function GetIntegral(): int
      reads this
    {
      Parts.Integral(Value())
    }

    /** get_fractional(). */
    function GetFractional(): int
      reads this
    {
      Parts.Fractional(Value())
    }

    /** get_dp(). */
    function GetDp(): nat
      reads this
    {
      dps
    }
  }
}
