/** Integer helpers behind the fixed-point type: the power-of-ten scale
    factor, C++'s truncating division and remainder, and rounding half away
    from zero, with a reference definition of that rounding. */
module Numerics {

  /** 10^n, the scale factor of a value with n decimal places. */
  function Factor(n: nat): (f: nat)
    ensures f >= 1
  {
    if n == 0 then 1 else 10 * Factor(n - 1)
  }

  lemma {:induction false} FactorAdd(m: nat, n: nat)
    ensures Factor(m + n) == Factor(m) * Factor(n)
  {
    if n > 0 {
      FactorAdd(m, n - 1);
      MulTen(Factor(m), Factor(n - 1));
    }
  }

  /** The larger of two decimal-place counts. */
  function Max(a: nat, b: nat): (m: nat)
    ensures m >= a && m >= b && (m == a || m == b)
  {
    if a > b then a else b
  }

  /** The smaller of two decimal-place counts. */
  function Min(a: nat, b: nat): (m: nat)
    ensures m <= a && m <= b && (m == a || m == b)
  {
    if a <= b then a else b
  }

  function Abs(x: int): nat {
    if x < 0 then -x else x
  }

  // ---------------------------------------------------------------------------
  // Small facts about products, each kept on its own so that the proofs that
  // use them only ever do linear arithmetic over the product terms.

  lemma MulTen(a: int, b: int)
    ensures 10 * (a * b) == a * (10 * b)
  {
  }

  lemma MulNegate(x: int, y: int)
    ensures (-x) * y == -(x * y) && x * (-y) == -(x * y)
  {
  }

  lemma MulSub(x: int, y: int, k: int)
    ensures x * k - y * k == (x - y) * k
  {
  }

  lemma MulAddOne(n: int, y: int)
    ensures (n + 1) * y == n * y + y
  {
  }

  lemma MulAssoc(a: int, b: int, c: int)
    ensures (a * b) * c == a * (b * c)
  {
  }

  /** Multiplying by a nonnegative (positive) number keeps (strict) order. */
  lemma MulMono(a: int, b: int, k: int)
    ensures a <= b && k >= 0 ==> a * k <= b * k
    ensures a < b && k > 0 ==> a * k < b * k
  {
    MulSub(b, a, k);
  }

  /** The sign of a multiple of a positive number. */
  lemma MulSign(x: int, q: int)
    ensures q > 0 ==> (x >= 0 ==> x * q >= 0) && (x <= 0 ==> x * q <= 0)
    ensures q > 0 ==> (x >= 1 ==> x * q >= q) && (x <= -1 ==> x * q <= -q)
    ensures q > 0 ==> (x >= 2 ==> x * q >= 2 * q)
  {
    MulMono(0, x, q);
    MulMono(x, 0, q);
    MulMono(1, x, q);
    MulMono(x, -1, q);
    MulMono(2, x, q);
  }

  lemma AbsMul(x: int, y: int)
    ensures Abs(x * y) == Abs(x) * Abs(y)
  {
    MulNegate(x, y);
    MulNegate(-x, y);
    MulNegate(x, -y);
    MulSign(x, Abs(y));
    MulSign(Abs(x), Abs(y));
  }

  /** A nonzero multiple of b is at least as large as b. */
  lemma MulAbsGe(d: int, b: int)
    ensures d != 0 ==> Abs(d * b) >= Abs(b)
  {
    AbsMul(d, b);
    MulMono(1, Abs(d), Abs(b));
  }

  // ---------------------------------------------------------------------------
  // Truncating division

  /** Division of naturals, by repeated subtraction. */
  function NatDiv(x: nat, y: nat): (n: nat)
    requires y > 0
    ensures n * y <= x < n * y + y
    decreases x
  {
    if x < y then 0
    else
      var n := NatDiv(x - y, y);
      MulAddOne(n, y);
      n + 1
  }

  /** Only NatDiv(x, y) leaves a remainder in [0, y). */
  lemma NatDivUnique(x: nat, y: nat, n: nat)
    requires y > 0
    requires n * y <= x < n * y + y
    ensures n == NatDiv(x, y)
  {
    var m := NatDiv(x, y);
    MulAddOne(n, y);
    MulAddOne(m, y);
    MulMono(n + 1, m, y);
    MulMono(m + 1, n, y);
  }

  /** C++ integer division: the quotient is truncated toward zero, so the
      remainder is smaller than the divisor and has the sign of the dividend. */
  function TruncDiv(a: int, b: int): (q: int)
    requires b != 0
    ensures Abs(a - q * b) < Abs(b)
    ensures a >= 0 ==> a - q * b >= 0
    ensures a <= 0 ==> a - q * b <= 0
  {
    var n := NatDiv(Abs(a), Abs(b));
    var q: int := if (a < 0) == (b < 0) then n else -(n as int);
    TruncDivCorrect(a, b, n, q);
    q
  }

  lemma TruncDivCorrect(a: int, b: int, n: nat, q: int)
    requires b != 0
    requires n * Abs(b) <= Abs(a) < n * Abs(b) + Abs(b)
    requires q == if (a < 0) == (b < 0) then n else -(n as int)
    ensures Abs(a - q * b) < Abs(b)
    ensures a >= 0 ==> a - q * b >= 0
    ensures a <= 0 ==> a - q * b <= 0
  {
    var P := n * Abs(b);
    MulNegate(n, b);
    MulSign(n, Abs(b));
    if b < 0 {
      assert P == -(n * b);
    } else {
      assert P == n * b;
    }
    if (a < 0) == (b < 0) {
      assert q * b == n * b;
    } else {
      assert q * b == -(n * b);
    }
    RemainderCore(a, Abs(b), q * b, P);
  }

  /** The linear core of TruncDivCorrect, with qb = q * b and P = n * |b|. */
  lemma RemainderCore(a: int, B: int, qb: int, P: int)
    requires 0 <= P <= Abs(a) < P + B
    requires qb == if a < 0 then -P else P
    ensures Abs(a - qb) < B
    ensures a >= 0 ==> a - qb >= 0
    ensures a <= 0 ==> a - qb <= 0
  {
  }

  /** C++ `%`: the remainder left by TruncDiv. */
  function TruncMod(a: int, b: int): (m: int)
    requires b != 0
    ensures Abs(m) < Abs(b)
    ensures a >= 0 ==> m >= 0
    ensures a <= 0 ==> m <= 0
    ensures a == TruncDiv(a, b) * b + m
  {
    a - TruncDiv(a, b) * b
  }

  /** The truncating quotient is the only one whose remainder is smaller than
      the divisor and has the sign of the dividend. */
  lemma TruncDivUnique(a: int, b: int, q: int)
    requires b != 0
    requires Abs(a - q * b) < Abs(b)
    requires a >= 0 ==> a - q * b >= 0
    requires a <= 0 ==> a - q * b <= 0
    ensures q == TruncDiv(a, b)
  {
    var q' := TruncDiv(a, b);
    MulSub(q, q', b);
    MulAbsGe(q - q', b);
  }

  lemma TruncDivNegate(a: int, b: int)
    requires b != 0
    ensures TruncDiv(-a, b) == -TruncDiv(a, b)
    ensures TruncDiv(a, -b) == -TruncDiv(a, b)
  {
    assert Abs(-a) == Abs(a) && Abs(-b) == Abs(b);
    if a == 0 {
      assert NatDiv(0, Abs(b)) == 0;
    }
  }

  /** Scaling dividend and divisor by the same positive factor leaves the
      truncating quotient unchanged. */
  lemma TruncDivCancel(x: int, y: int, k: int)
    requires y != 0 && k > 0
    ensures TruncDiv(x * k, y * k) == TruncDiv(x, y)
  {
    var X, Y := Abs(x), Abs(y);
    var n := NatDiv(X, Y);
    AbsMul(x, k);
    AbsMul(y, k);
    MulSign(x, k);
    MulSign(y, k);
    MulMono(n * Y, X, k);
    MulMono(X, n * Y + Y, k);
    MulAssoc(n, Y, k);
    MulAddOne(n, Y);
    MulAddOne(n, Y * k);
    MulAssoc(n + 1, Y, k);
    NatDivUnique(X * k, Y * k, n);
  }

  // ---------------------------------------------------------------------------
  // Rounding half away from zero

  /** r is p/q rounded to the nearest integer, halves going away from zero:
      r * q is a multiple of q nearest to p, and when p lies exactly halfway
      between two multiples, the one farther from zero. */
  predicate NearestHalfAway(p: int, q: int, r: int)
    requires q != 0
  {
    2 * Abs(p - r * q) <= Abs(q) &&
    (2 * Abs(p - r * q) == Abs(q) ==> Abs(r * q) > Abs(p))
  }

  /** At most one integer is p/q rounded half away from zero. */
  lemma NearestHalfAwayUnique(p: int, q: int, r1: int, r2: int)
    requires q != 0
    requires NearestHalfAway(p, q, r1) && NearestHalfAway(p, q, r2)
    ensures r1 == r2
  {
    if q < 0 {
      NearestHalfAwayNegate(p, q, r1);
      NearestHalfAwayNegate(p, q, r2);
      if -r1 <= -r2 {
        UniqueForPositiveDivisor(p, -q, -r1, -r2);
      } else {
        UniqueForPositiveDivisor(p, -q, -r2, -r1);
      }
    } else if r1 <= r2 {
      UniqueForPositiveDivisor(p, q, r1, r2);
    } else {
      UniqueForPositiveDivisor(p, q, r2, r1);
    }
  }

  lemma UniqueForPositiveDivisor(p: int, q: int, r1: int, r2: int)
    requires q > 0 && r1 <= r2
    requires NearestHalfAway(p, q, r1) && NearestHalfAway(p, q, r2)
    ensures r1 == r2
  {
    MulSub(r2, r1, q);
    MulSign(r2 - r1, q);
    MulSign(r1, q);
    MulSign(r2, q);
    CandidatesCoincide(p, q, r1, r2, r1 * q, r2 * q, (r2 - r1) * q);
  }

  /** The linear core of uniqueness: two multiples of q, each nearest to p,
      at most one q apart, cannot be distinct under the tie-break. */
  lemma CandidatesCoincide(p: int, q: int, r1: int, r2: int, x1: int, x2: int, dq: int)
    requires q > 0 && r1 <= r2
    requires x2 - x1 == dq
    requires r2 - r1 >= 1 ==> dq >= q
    requires r2 - r1 >= 2 ==> dq >= 2 * q
    requires r1 >= 0 ==> x1 >= 0
    requires r2 <= 0 ==> x2 <= 0
    requires 2 * Abs(p - x1) <= q && (2 * Abs(p - x1) == q ==> Abs(x1) > Abs(p))
    requires 2 * Abs(p - x2) <= q && (2 * Abs(p - x2) == q ==> Abs(x2) > Abs(p))
    ensures r1 == r2
  {
  }

  /** Rounding commutes with negating the dividend or the divisor. */
  lemma NearestHalfAwayNegate(p: int, q: int, r: int)
    requires q != 0
    requires NearestHalfAway(p, q, r)
    ensures NearestHalfAway(-p, q, -r)
    ensures NearestHalfAway(p, -q, -r)
  {
    MulNegate(r, q);
    MulNegate(-r, q);
  }

  /** Divide v by the factor f, rounding half away from zero: add or subtract
      half the factor, then truncate. */
  function RoundHalfAway(v: int, f: int): (r: int)
    requires f > 0
    ensures NearestHalfAway(v, f, r)
  {
    if v >= 0 then TruncDiv(v + f / 2, f) else TruncDiv(v - f / 2, f)
  }

  lemma RoundHalfAwayNegate(v: int, f: int)
    requires f > 0
    ensures RoundHalfAway(-v, f) == -RoundHalfAway(v, f)
  {
    NearestHalfAwayNegate(v, f, RoundHalfAway(v, f));
    NearestHalfAwayUnique(-v, f, RoundHalfAway(-v, f), -RoundHalfAway(v, f));
  }

  /** Dividing a multiple of f by f, rounded, is exact. */
  lemma RoundHalfAwayExact(r: int, f: int)
    requires f > 0
    ensures RoundHalfAway(r * f, f) == r
  {
    NearestHalfAwayUnique(r * f, f, r, RoundHalfAway(r * f, f));
  }

  /** Truncating p/q at one extra decimal digit and then rounding that digit
      half away from zero gives p/q rounded half away from zero: the extra
      digit makes the truncation harmless. */
  lemma RoundLastDigit(p: int, q: int)
    requires q != 0
    ensures NearestHalfAway(p, q, RoundHalfAway(TruncDiv(10 * p, q), 10))
  {
    if q > 0 {
      RoundLastDigitPos(p, q);
    } else {
      // p / -q rounds to -r
      var n := 10 * p;
      var t := TruncDiv(n, q);
      RoundLastDigitPos(p, -q);
      TruncDivNegate(n, q);
      RoundHalfAwayNegate(t, 10);
      NegateDivisorBack(p, q, RoundHalfAway(t, 10));
    }
  }

  lemma RoundLastDigitPos(p: int, q: int)
    requires q > 0
    ensures NearestHalfAway(p, q, RoundHalfAway(TruncDiv(10 * p, q), 10))
  {
    if p >= 0 {
      RoundLastDigitNonNeg(p, q, 10 * p);
    } else {
      RoundLastDigitNeg(p, q, 10 * p);
    }
  }

  lemma RoundLastDigitNeg(p: int, q: int, n: int)
    requires p < 0 && q > 0 && n == 10 * p
    ensures NearestHalfAway(p, q, RoundHalfAway(TruncDiv(n, q), 10))
  {
    // -p / q rounds to -r
    var t := TruncDiv(n, q);
    RoundLastDigitNonNeg(-p, q, -n);
    TruncDivNegate(n, q);
    assert TruncDiv(-n, q) == -t;
    RoundHalfAwayNegate(t, 10);
    NegateBack(p, q, RoundHalfAway(t, 10));
  }

  lemma NegateBack(p: int, q: int, r: int)
    requires q != 0
    requires NearestHalfAway(-p, q, -r)
    ensures NearestHalfAway(p, q, r)
  {
    NearestHalfAwayNegate(-p, q, -r);
  }

  lemma NegateDivisorBack(p: int, q: int, r: int)
    requires q != 0
    requires NearestHalfAway(p, -q, -r)
    ensures NearestHalfAway(p, q, r)
  {
    NearestHalfAwayNegate(p, -q, -r);
  }

  lemma RoundLastDigitNonNeg(p: int, q: int, n: int)
    requires p >= 0 && q > 0 && n == 10 * p
    ensures NearestHalfAway(p, q, RoundHalfAway(TruncDiv(n, q), 10))
  {
    var t := TruncDiv(n, q);
    var r := RoundHalfAway(t, 10);
    MulSign(t, q);
    assert t >= 0;
    assert 10 * r - 5 <= t <= 10 * r + 4;
    ScaledBounds(r, t, q);
    LastDigitCore(p, q, t * q, r * q);
  }

  /** Multiplying 10r - 5 <= t <= 10r + 4 through by a positive q. */
  lemma ScaledBounds(r: int, t: int, q: int)
    requires q > 0 && 10 * r - 5 <= t <= 10 * r + 4
    ensures 10 * (r * q) - 5 * q <= t * q <= 10 * (r * q) + 4 * q
  {
    var lo, hi := 10 * r - 5, 10 * r + 4;
    MulMono(lo, t, q);
    MulMono(t, hi, q);
    assert lo * q == 10 * (r * q) - 5 * q;
    assert hi * q == 10 * (r * q) + 4 * q;
  }

  /** The linear core of RoundLastDigit for a nonnegative dividend and a
      positive divisor, with tq = t * q and rq = r * q. */
  lemma LastDigitCore(p: int, q: int, tq: int, rq: int)
    requires p >= 0 && q > 0
    requires 0 <= 10 * p - tq < q
    requires 10 * rq - 5 * q <= tq <= 10 * rq + 4 * q
    ensures 2 * Abs(p - rq) <= q && (2 * Abs(p - rq) == q ==> Abs(rq) > Abs(p))
  {
  }
}
