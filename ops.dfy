/** The arithmetic and comparison operators of the fixed-point type, on
    values. Mixed-precision operators widen the operand with fewer decimal
    places to the other's precision (never narrowing), so a result carries
    max(a.dps, b.dps) decimal places. */
module Ops {
  import opened Numerics
  import opened Scaling

  // ---------------------------------------------------------------------------
  // Addition and subtraction

  /** a + b: widen the operand with fewer decimal places and add the raw values. */
  function Add(a: FixedValue, b: FixedValue): FixedValue {
    if a.dps > b.dps then FixedValue(Rescale(b.raw, b.dps, a.dps) + a.raw, a.dps)
    else FixedValue(b.raw + Rescale(a.raw, a.dps, b.dps), b.dps)
  }

  /** Addition is exact: the result has the larger precision and stands for
      the sum of the two numbers. */
  lemma AddExact(a: FixedValue, b: FixedValue)
    ensures Add(a, b).dps == Max(a.dps, b.dps)
    ensures Real(Add(a, b)) == Real(a) + Real(b)
  {
    var m := Max(a.dps, b.dps);
    RealSum(Rescale(a.raw, a.dps, m), Rescale(b.raw, b.dps, m), m);
  }

  /** Addition is commutative on raw values as well as on numbers. */
  lemma AddCommutes(a: FixedValue, b: FixedValue)
    ensures Add(a, b) == Add(b, a)
  {
    if a.dps == b.dps {
      assert Rescale(a.raw, a.dps, b.dps) == a.raw && Rescale(b.raw, b.dps, a.dps) == b.raw;
    }
  }

  /** Adding a zero of any precision returns a's raw value widened to the
      larger precision. */
  lemma AddZero(a: FixedValue, dps: nat)
    ensures Add(a, FixedValue(0, dps)) == Convert(a, Max(a.dps, dps))
  {
  }

  /** 1.50 + 2.500 == 4.000. */
  lemma AddExample()
    ensures Add(FixedValue(150, 2), FixedValue(2500, 3)) == FixedValue(4000, 3)
  {
  }

  /** a - b with the operands the right way round: widen the operand with
      fewer decimal places and subtract b's raw value from a's. */
  function Sub(a: FixedValue, b: FixedValue): FixedValue {
    if a.dps > b.dps then FixedValue(a.raw - Rescale(b.raw, b.dps, a.dps), a.dps)
    else FixedValue(Rescale(a.raw, a.dps, b.dps) - b.raw, b.dps)
  }

  /** Subtraction is exact and undoes addition. */
  lemma SubExact(a: FixedValue, b: FixedValue)
    ensures Sub(a, b).dps == Max(a.dps, b.dps)
    ensures Real(Sub(a, b)) == Real(a) - Real(b)
    ensures Real(Add(Sub(a, b), b)) == Real(a)
  {
    var m := Max(a.dps, b.dps);
    RealSum(Rescale(a.raw, a.dps, m), Rescale(b.raw, b.dps, m), m);
    AddExact(Sub(a, b), b);
  }

  /** a - b as the operator is written: operands of equal precision go to the
      same-precision operator, which subtracts b from a, but operands of
      different precision go to the mixed-precision helper, which subtracts
      a from b. */
  function SubAsWritten(a: FixedValue, b: FixedValue): FixedValue {
    if a.dps == b.dps then FixedValue(a.raw - b.raw, a.dps)
    else if a.dps > b.dps then FixedValue(Rescale(b.raw, b.dps, a.dps) - a.raw, a.dps)
    else FixedValue(b.raw - Rescale(a.raw, a.dps, b.dps), b.dps)
  }

  /** The written mixed-precision subtraction computes b - a: it agrees with
      Sub for equal precisions and is Sub with the operands swapped otherwise. */
  lemma SubAsWrittenSwapsOperands(a: FixedValue, b: FixedValue)
    ensures a.dps == b.dps ==> SubAsWritten(a, b) == Sub(a, b)
    ensures a.dps != b.dps ==> SubAsWritten(a, b) == Sub(b, a)
    ensures a.dps != b.dps ==> Real(SubAsWritten(a, b)) == Real(b) - Real(a)
  {
    SubExact(b, a);
  }

  /** 1.50 - 2.500 as written gives 1.000 where -1.000 is meant. */
  lemma SubAsWrittenExample()
    ensures SubAsWritten(FixedValue(150, 2), FixedValue(2500, 3)) == FixedValue(1000, 3)
    ensures Sub(FixedValue(150, 2), FixedValue(2500, 3)) == FixedValue(-1000, 3)
  {
  }

  // ---------------------------------------------------------------------------
  // Comparisons

  /** a == b: widen the operand with fewer decimal places, compare raw values. */
  predicate Equal(a: FixedValue, b: FixedValue) {
    if a.dps > b.dps then a.raw == Rescale(b.raw, b.dps, a.dps)
    else Rescale(a.raw, a.dps, b.dps) == b.raw
  }

  /** a > b, widening as Equal does. */
  predicate Greater(a: FixedValue, b: FixedValue) {
    if a.dps > b.dps then a.raw > Rescale(b.raw, b.dps, a.dps)
    else Rescale(a.raw, a.dps, b.dps) > b.raw
  }

  /** a < b, widening as Equal does. */
  predicate Lesser(a: FixedValue, b: FixedValue) {
    if a.dps > b.dps then a.raw < Rescale(b.raw, b.dps, a.dps)
    else Rescale(a.raw, a.dps, b.dps) < b.raw
  }

  /** a <= b, defined as not a > b. */
  predicate LessEq(a: FixedValue, b: FixedValue) {
    !Greater(a, b)
  }

  /** a >= b, defined as not a < b. */
  predicate GreaterEq(a: FixedValue, b: FixedValue) {
    !Lesser(a, b)
  }

  /** Comparisons only widen, so they are exact: each compares the numbers
      the operands stand for. */
  lemma CompareExact(a: FixedValue, b: FixedValue)
    ensures Equal(a, b) <==> Real(a) == Real(b)
    ensures Greater(a, b) <==> Real(a) > Real(b)
    ensures Lesser(a, b) <==> Real(a) < Real(b)
    ensures LessEq(a, b) <==> Real(a) <= Real(b)
    ensures GreaterEq(a, b) <==> Real(a) >= Real(b)
  {
    var m := Max(a.dps, b.dps);
    var x, y := Rescale(a.raw, a.dps, m), Rescale(b.raw, b.dps, m);
    RealOrder(x, y, m);
    RealOrder(y, x, m);
  }

  /** Exactly one of a < b, a == b, a > b holds. */
  lemma Trichotomy(a: FixedValue, b: FixedValue)
    ensures Lesser(a, b) || Equal(a, b) || Greater(a, b)
    ensures !(Lesser(a, b) && Equal(a, b))
    ensures !(Lesser(a, b) && Greater(a, b))
    ensures !(Equal(a, b) && Greater(a, b))
  {
    CompareExact(a, b);
  }

  /** 1.5 == 1.50. */
  lemma EqualExample()
    ensures Equal(FixedValue(15, 1), FixedValue(150, 2))
    ensures Equal(FixedValue(150, 2), FixedValue(15, 1))
  {
  }

  // ---------------------------------------------------------------------------
  // Multiplication and division

  /** a * b: the raw product carries a.dps + b.dps decimal places; dividing it
      by 10^min(a.dps, b.dps), rounding half away from zero, leaves
      max(a.dps, b.dps) decimal places. */
  function Mul(a: FixedValue, b: FixedValue): (r: FixedValue)
    ensures r.dps == Max(a.dps, b.dps)
    ensures NearestHalfAway(a.raw * b.raw, Factor(Min(a.dps, b.dps)), r.raw)
  {
    var temp := a.raw * b.raw;
    var f := Factor(Min(a.dps, b.dps));
    FixedValue(RoundHalfAway(temp, f), Max(a.dps, b.dps))
  }

  /** The product is the same whichever operand is on the left. */
  lemma MulCommutes(a: FixedValue, b: FixedValue)
    ensures Mul(a, b) == Mul(b, a)
  {
    assert a.raw * b.raw == b.raw * a.raw;
  }

  /** The raw product, read at a.dps + b.dps decimal places, is the exact
      product of the two numbers; Mul divides it by 10^min(a.dps, b.dps),
      which leaves max(a.dps, b.dps) places. */
  lemma MulRawProduct(a: FixedValue, b: FixedValue)
    ensures Real(FixedValue(a.raw * b.raw, a.dps + b.dps)) == Real(a) * Real(b)
    ensures a.dps + b.dps - Min(a.dps, b.dps) == Max(a.dps, b.dps)
  {
    FactorAdd(a.dps, b.dps);
    ProductOfQuotients(a.raw, b.raw, Factor(a.dps), Factor(b.dps));
  }

  lemma ProductOfQuotients(x: int, y: int, A: int, B: int)
    requires A > 0 && B > 0
    ensures (x * y) as real / (A * B) as real == (x as real / A as real) * (y as real / B as real)
  {
    CastProduct(x, y);
    CastProduct(A, B);
    RealDivProduct(x as real, y as real, A as real, B as real);
  }

  lemma RealDivProduct(x: real, y: real, A: real, B: real)
    requires A > 0.0 && B > 0.0
    ensures (x * y) / (A * B) == (x / A) * (y / B)
  {
  }

  /** 1.5 * 1.5 == 2.25, which rounds half away from zero to 2.3. */
  lemma MulExample()
    ensures Mul(FixedValue(15, 1), FixedValue(15, 1)) == FixedValue(23, 1)
    ensures Mul(FixedValue(-15, 1), FixedValue(15, 1)) == FixedValue(-23, 1)
  {
  }

  /** The exact quotient a / b, written in units of the last decimal place
      of max(a.dps, b.dps), is QuotientNumerator(a, b) / b.raw. */
  function QuotientNumerator(a: FixedValue, b: FixedValue): int {
    a.raw * Factor(Max(a.dps, b.dps) - a.dps + b.dps)
  }

  /** r is a / b at max(a.dps, b.dps) decimal places, rounded half away from zero. */
  predicate IsQuotient(a: FixedValue, b: FixedValue, r: FixedValue)
    requires b.raw != 0
  {
    r.dps == Max(a.dps, b.dps) && NearestHalfAway(QuotientNumerator(a, b), b.raw, r.raw)
  }

  /** QuotientNumerator(a, b) / b.raw is the exact quotient of the numbers
      a.raw / 10^a.dps and b.raw / 10^b.dps, in units of 10^-max: stated with
      the divisions multiplied out, N * 10^a.dps == a.raw * 10^b.dps * 10^max. */
  lemma QuotientNumeratorMeaning(a: FixedValue, b: FixedValue)
    ensures QuotientNumerator(a, b) * Factor(a.dps)
         == a.raw * Factor(b.dps) * Factor(Max(a.dps, b.dps))
  {
    var m := Max(a.dps, b.dps);
    var k := m - a.dps;
    FactorAdd(k, b.dps);
    FactorAdd(k, a.dps);
    assert k + a.dps == m;
    QuotientRegroup(a.raw, Factor(k), Factor(a.dps), Factor(b.dps));
  }

  lemma QuotientRegroup(x: int, E: int, A: int, B: int)
    ensures x * (E * B) * A == x * B * (E * A)
  {
  }

  /** a / b. The numerator is widened to 2 * max + 1 decimal places and the
      denominator to max, so their truncated quotient carries max + 1
      decimal places; that extra digit is rounded half away from zero by
      adding or subtracting 5 and dividing by 10. The result is the exact
      quotient rounded half away from zero at max decimal places: the
      intermediate truncation never changes the rounding. */
  method Div(a: FixedValue, b: FixedValue) returns (r: FixedValue)
    requires b.raw != 0
    ensures IsQuotient(a, b, r)
  {
    var max := Max(a.dps, b.dps);
    var num := Rescale(a.raw, a.dps, 2 * max + 1);
    var denum := Rescale(b.raw, b.dps, max);
    ghost var p := QuotientNumerator(a, b);
    ghost var f := Factor(max - b.dps);
    DivOperands(a, b);
    assert num == (10 * p) * f && denum == b.raw * f;
    TruncDivCancel(10 * p, b.raw, f);
    num := TruncDiv(num, denum);
    if num >= 0 { num := num + 5; } else { num := num - 5; }
    denum := TruncDiv(num, 10);
    r := FixedValue(denum, max);
    RoundLastDigit(p, b.raw);
  }

  /** The widened operands of Div are ten times the quotient numerator and
      the denominator, both scaled by the same power of ten. */
  lemma DivOperands(a: FixedValue, b: FixedValue)
    ensures var max := Max(a.dps, b.dps);
      Rescale(a.raw, a.dps, 2 * max + 1)
        == (10 * QuotientNumerator(a, b)) * Factor(max - b.dps)
      && Rescale(b.raw, b.dps, max) == b.raw * Factor(max - b.dps)
  {
    var max := Max(a.dps, b.dps);
    var k := max - a.dps + b.dps;
    FactorAdd(k + 1, max - b.dps);
    FactorAdd(k, 1);
    assert 2 * max + 1 - a.dps == (k + 1) + (max - b.dps);
    Regroup(a.raw, Factor(k), Factor(max - b.dps));
  }

  lemma Regroup(x: int, K: int, F: int)
    ensures x * ((K * 10) * F) == (10 * (x * K)) * F
  {
  }

  /** 1.00 / 3.00 == 0.33 and -1.00 / 3.00 == -0.33. */
  lemma DivExample(r: FixedValue)
    ensures IsQuotient(FixedValue(100, 2), FixedValue(300, 2), r) ==> r == FixedValue(33, 2)
    ensures IsQuotient(FixedValue(-100, 2), FixedValue(300, 2), r) ==> r == FixedValue(-33, 2)
  {
    assert QuotientNumerator(FixedValue(100, 2), FixedValue(300, 2)) == 10000;
    assert NearestHalfAway(10000, 300, 33) && NearestHalfAway(-10000, 300, -33);
    if IsQuotient(FixedValue(100, 2), FixedValue(300, 2), r) {
      NearestHalfAwayUnique(10000, 300, r.raw, 33);
    }
    if IsQuotient(FixedValue(-100, 2), FixedValue(300, 2), r) {
      NearestHalfAwayUnique(-10000, 300, r.raw, -33);
    }
  }

  // ---------------------------------------------------------------------------
  // Integer operands: the integer stands for a whole number (0 decimal places)

  /** x + v for an integer v: v is scaled by 10^dps before adding. */
  function AddInt(x: FixedValue, v: int): FixedValue {
    FixedValue(x.raw + v * Factor(x.dps), x.dps)
  }

  /** x - v for an integer v: v is scaled by 10^dps before subtracting. */
  function SubInt(x: FixedValue, v: int): FixedValue {
    FixedValue(x.raw - v * Factor(x.dps), x.dps)
  }

  /** x * v for an integer v: the raw value is multiplied, the scale is kept. */
  function MulInt(x: FixedValue, v: int): FixedValue {
    FixedValue(x.raw * v, x.dps)
  }

  /** The integer-operand +, - and * are exact and keep the precision. */
  lemma IntOperandsExact(x: FixedValue, v: int)
    ensures AddInt(x, v).dps == SubInt(x, v).dps == MulInt(x, v).dps == x.dps
    ensures Real(AddInt(x, v)) == Real(x) + v as real
    ensures Real(SubInt(x, v)) == Real(x) - v as real
    ensures Real(MulInt(x, v)) == Real(x) * v as real
  {
    var F := Factor(x.dps);
    WidenExact(v, 0, x.dps);
    RealSum(x.raw, v * F, x.dps);
    CastProduct(x.raw, v);
  }

  /** There is no comparison with an integer: x == v converts v through the
      constructor from the storage type, which keeps it as a raw value. So v
      is compared as v / 10^dps, while x + v adds v whole units. */
  lemma IntComparisonUnscaled(x: FixedValue, v: int)
    ensures Equal(x, FixedValue(v, x.dps)) <==> x.raw == v
    ensures Real(FixedValue(v, x.dps)) == v as real / Factor(x.dps) as real
    ensures x.dps > 0 && v != 0 ==> Real(FixedValue(v, x.dps)) != v as real
  {
    if x.dps > 0 && v != 0 {
      var F := Factor(x.dps);
      assert F == 10 * Factor(x.dps - 1);
    }
  }

  /** At two places, 5.00 is not equal to 5, while 0.00 + 5 is 5.00. */
  lemma IntComparisonExample()
    ensures !Equal(FixedValue(500, 2), FixedValue(5, 2))
    ensures AddInt(FixedValue(0, 2), 5) == FixedValue(500, 2)
  {
    assert Factor(2) == 100;
  }

  /** x / v for a nonzero integer v: the raw value times ten is divided with
      truncation, and that extra digit is rounded half away from zero by
      adding or subtracting 5 and dividing by 10. The result is raw / v
      rounded half away from zero. */
  method DivInt(x: FixedValue, v: int) returns (r: FixedValue)
    requires v != 0
    ensures r.dps == x.dps && NearestHalfAway(x.raw, v, r.raw)
  {
    var temp := TruncDiv(x.raw * 10, v);
    if temp >= 0 { temp := temp + 5; } else { temp := temp - 5; }
    r := FixedValue(TruncDiv(temp, 10), x.dps);
    assert x.raw * 10 == 10 * x.raw;
    RoundLastDigit(x.raw, v);
  }
}
