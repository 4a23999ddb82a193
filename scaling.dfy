/** The value of a fixed-point number and the rescale operator that converts a
    raw value from one number of decimal places to another. */
module Scaling {
  import opened Numerics

  /** A decimal fixed-point value: the number raw / 10^dps. */
  datatype FixedValue = FixedValue(raw: int, dps: nat)

  /** The exact number a fixed-point value stands for. */
  ghost function Real(x: FixedValue): real {
    x.raw as real / Factor(x.dps) as real
  }

  /** Convert the raw value v from `from` decimal places to `to` decimal
      places: multiply by the scale difference when widening, and when
      narrowing add or subtract half the scale difference and truncate. */
  function Rescale(v: int, from: nat, to: nat): (r: int)
    ensures to >= from ==> Real(FixedValue(r, to)) == Real(FixedValue(v, from))
    ensures to < from ==> NearestHalfAway(v, Factor(from - to), r)
  {
    if to >= from then
      WidenExact(v, from, to - from);
      v * Factor(to - from)
    else
      RoundHalfAway(v, Factor(from - to))
  }

  /** Widening by k decimal places keeps the number a raw value stands for. */
  lemma WidenExact(v: int, from: nat, k: nat)
    ensures Real(FixedValue(v * Factor(k), from + k)) == Real(FixedValue(v, from))
  {
    var K, F := Factor(k), Factor(from);
    FactorAdd(k, from);
    CastProduct(v, K);
    CastProduct(K, F);
    RealCancel(v as real, K as real, F as real);
  }

  lemma CastProduct(x: int, y: int)
    ensures (x * y) as real == x as real * y as real
  {
  }

  lemma RealCancel(x: real, k: real, f: real)
    requires k > 0.0 && f > 0.0
    ensures (x * k) / (k * f) == x / f
  {
  }

  /** The converting constructor: the value x re-expressed with dps decimal places. */
  function Convert(x: FixedValue, dps: nat): (r: FixedValue)
    ensures r.dps == dps
    ensures dps >= x.dps ==> Real(r) == Real(x)
  {
    FixedValue(Rescale(x.raw, x.dps, dps), dps)
  }

  /** Widening is exact and reversible: narrowing the widened raw value back
      to its original precision returns the original raw value. */
  lemma WidenThenNarrow(v: int, from: nat, to: nat)
    requires to >= from
    ensures Rescale(v, from, to) == v * Factor(to - from)
    ensures Rescale(Rescale(v, from, to), to, from) == v
  {
    if to > from {
      RoundHalfAwayExact(v, Factor(to - from));
    }
  }

  /** Rescaling is odd-symmetric: negating the raw value negates the result,
      so narrowing rounds halves away from zero on both sides. */
  lemma RescaleNegate(v: int, from: nat, to: nat)
    ensures Rescale(-v, from, to) == -Rescale(v, from, to)
  {
    if to < from {
      RoundHalfAwayNegate(v, Factor(from - to));
    }
  }

  /** 1.5 narrowed to no decimal places is 2, and -1.5 is -2; 0.5 becomes 1,
      while 0.04 narrowed to one place becomes 0. */
  lemma NarrowExample()
    ensures Rescale(15, 1, 0) == 2 && Rescale(-15, 1, 0) == -2
    ensures Rescale(5, 1, 0) == 1 && Rescale(4, 2, 1) == 0
  {
  }

  /** Two raw values at the same precision compare as the numbers they stand for. */
  lemma RealOrder(x: int, y: int, dps: nat)
    ensures x < y <==> Real(FixedValue(x, dps)) < Real(FixedValue(y, dps))
    ensures x == y <==> Real(FixedValue(x, dps)) == Real(FixedValue(y, dps))
  {
    var f := Factor(dps) as real;
    assert x as real / f < y as real / f <==> x as real < y as real;
  }

  /** The number a raw sum stands for is the sum of the numbers. */
  lemma RealSum(x: int, y: int, dps: nat)
    ensures Real(FixedValue(x + y, dps)) == Real(FixedValue(x, dps)) + Real(FixedValue(y, dps))
    ensures Real(FixedValue(x - y, dps)) == Real(FixedValue(x, dps)) - Real(FixedValue(y, dps))
  {
  }
}
