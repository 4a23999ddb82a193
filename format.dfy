/** The text operator<< writes for a fixed-point value: the integral part,
    a '.', and the fractional part padded with '0' to dps characters. The
    written form prints each part with its own sign; the corrected form
    prints the sign once, and a parser reads it back. */
module Format {
  import opened Numerics
  import opened Scaling
  import opened Parts

  datatype Option<T> = None | Some(value: T)

  // ---------------------------------------------------------------------------
  // Decimal digits

  predicate IsDigit(c: char) {
    '0' <= c <= '9'
  }

  predicate AllDigits(s: string) {
    forall i :: 0 <= i < |s| ==> IsDigit(s[i])
  }

  function DigitChar(d: nat): (c: char)
    requires d < 10
    ensures IsDigit(c)
  {
    (48 + d) as char
  }

  function DigitOf(c: char): (d: nat)
    requires IsDigit(c)
    ensures d < 10
  {
    (c as int - 48) as nat
  }

  /** n in decimal, as a stream writes an unsigned integer: no leading zeros. */
  function NatText(n: nat): string
    decreases n
  {
    if n < 10 then [DigitChar(n)] else NatText(n / 10) + [DigitChar(n % 10)]
  }

  /** i in decimal, as a stream writes a signed integer: a '-' for negatives. */
  function IntText(i: int): string {
    if i < 0 then "-" + NatText(-i) else NatText(i)
  }

  /** n copies of c. */
  function Repeat(c: char, n: nat): (r: string)
    ensures |r| == n
    ensures forall i :: 0 <= i < n ==> r[i] == c
  {
    if n == 0 then [] else [c] + Repeat(c, n - 1)
  }

  /** s right-adjusted in a field of the given width, filled on the left. */
  function PadLeft(s: string, width: nat, fill: char): (r: string)
    ensures |r| == Max(|s|, width)
  {
    if |s| >= width then s else Repeat(fill, width - |s|) + s
  }

  /** The number a string of decimal digits stands for. */
  function DigitsValue(s: string): nat
    requires AllDigits(s)
  {
    if |s| == 0 then 0 else DigitsValue(s[..|s| - 1]) * 10 + DigitOf(s[|s| - 1])
  }

  // ---------------------------------------------------------------------------
  // operator<<

  /** The text as written: get_integral() printed as a signed integer, '.',
      then get_fractional() printed as a signed integer right-adjusted in a
      field of width dps filled with '0'. A negative value with a nonzero
      fraction gets a second '-' after the point. */
  function RenderAsWritten(x: FixedValue): string {
    IntText(Integral(x)) + "." + PadLeft(IntText(Fractional(x)), x.dps, '0')
  }

  /** The text with the sign printed once, in front: the magnitudes of the
      integral and fractional parts, the latter padded with '0' to dps
      digits. */
  function Render(x: FixedValue): string {
    Layout(x.raw < 0, Abs(Integral(x)), Abs(Fractional(x)), x.dps)
  }

  /** An optional '-', the whole units, '.', and the fraction padded to dps digits. */
  function Layout(negative: bool, whole: nat, frac: nat, dps: nat): string {
    (if negative then "-" else "") + (NatText(whole) + "." + PadLeft(NatText(frac), dps, '0'))
  }

  /** The two renderings agree on values that are not negative. */
  lemma RenderAgreesOnNonNegative(x: FixedValue)
    requires x.raw >= 0
    ensures RenderAsWritten(x) == Render(x)
  {
  }

  /** -1.50 is written "-1.-50"; the corrected rendering is "-1.50". */
  lemma RenderExample()
    ensures RenderAsWritten(FixedValue(-150, 2)) == "-1.-50"
    ensures Render(FixedValue(-150, 2)) == "-1.50"
  {
    var x := FixedValue(-150, 2);
    assert Integral(x) == -1 && Fractional(x) == -50;
    assert NatText(50) == "50";
  }

  /** -0.5 is written "0.-5"; the corrected rendering is "-0.5". */
  lemma RenderFractionExample()
    ensures RenderAsWritten(FixedValue(-5, 1)) == "0.-5"
    ensures Render(FixedValue(-5, 1)) == "-0.5"
  {
    var x := FixedValue(-5, 1);
    assert Integral(x) == 0 && Fractional(x) == -5;
  }

  /** With no decimal places the integral part is the raw value, and the
      fractional field, of width zero, still shows the digit 0. */
  lemma RenderWholeUnits(x: FixedValue)
    requires x.dps == 0
    ensures Integral(x) == x.raw && Fractional(x) == 0
    ensures Render(x) == Layout(x.raw < 0, Abs(x.raw), 0, 0)
    ensures Render(x)[|Render(x)| - 2..] == ".0"
  {
    assert Factor(0) == 1;
    var t := Render(x);
    assert t == (if x.raw < 0 then "-" else "") + (NatText(Abs(x.raw)) + "." + "0");
  }

  // ---------------------------------------------------------------------------
  // Reading the text back

  /** The index of the first c in s, or |s| when there is none. */
  function Find(s: string, c: char): (i: nat)
    ensures i <= |s|
    ensures i < |s| ==> s[i] == c
    ensures forall j :: 0 <= j < i ==> s[j] != c
  {
    if |s| == 0 then 0 else if s[0] == c then 0 else 1 + Find(s[1..], c)
  }

  /** Digits, '.', then exactly dps digits (a single "0" when dps is 0), read
      as a raw value at dps decimal places. */
  function ParseMagnitude(s: string, dps: nat): Option<nat> {
    var i := Find(s, '.');
    if i == |s| then None
    else
      var whole, frac := s[..i], s[i + 1..];
      if |whole| == 0 || !AllDigits(whole) || !AllDigits(frac) then None
      else if dps == 0 then (if frac == "0" then Some(DigitsValue(whole)) else None)
      else if |frac| != dps then None
      else Some(DigitsValue(whole) * Factor(dps) + DigitsValue(frac))
  }

  /** An optional '-' followed by a magnitude. */
  function Parse(s: string, dps: nat): Option<int> {
    if |s| > 0 && s[0] == '-' then
      match ParseMagnitude(s[1..], dps)
      case None => None
      case Some(v) => Some(-(v as int))
    else
      match ParseMagnitude(s, dps)
      case None => None
      case Some(v) => Some(v)
  }

  /** Reading the corrected rendering back gives the raw value. */
  lemma RenderRoundTrip(x: FixedValue)
    ensures Parse(Render(x), x.dps) == Some(x.raw)
  {
    MagnitudeParts(x);
    LayoutRoundTrip(x.raw < 0, Abs(Integral(x)), Abs(Fractional(x)), x.dps);
  }

  /** A layout reads back as whole units and dps fractional digits, negated
      when it carries the sign. */
  lemma LayoutRoundTrip(negative: bool, whole: nat, frac: nat, dps: nat)
    requires frac < Factor(dps)
    ensures Parse(Layout(negative, whole, frac, dps), dps)
         == Some(if negative then -(whole * Factor(dps) + frac) else whole * Factor(dps) + frac)
  {
    var body := NatText(whole) + "." + PadLeft(NatText(frac), dps, '0');
    MagnitudeRoundTrip(whole, frac, dps);
    NatTextDigits(whole);
    SignRoundTrip(negative, body, dps, whole * Factor(dps) + frac);
  }

  /** A '-' in front of a magnitude that starts with a digit negates it. */
  lemma SignRoundTrip(negative: bool, body: string, dps: nat, v: nat)
    requires |body| > 0 && IsDigit(body[0]) && ParseMagnitude(body, dps) == Some(v)
    ensures Parse((if negative then "-" else "") + body, dps) == Some(if negative then -(v as int) else v)
  {
    var s := (if negative then "-" else "") + body;
    if negative {
      assert s[1..] == body;
    } else {
      assert s == body;
    }
  }

  /** The unsigned part of the corrected rendering reads back as I whole units
      and Fr hundredths, thousandths, ... */
  lemma MagnitudeRoundTrip(I: nat, Fr: nat, dps: nat)
    requires Fr < Factor(dps)
    ensures ParseMagnitude(NatText(I) + "." + PadLeft(NatText(Fr), dps, '0'), dps)
         == Some(I * Factor(dps) + Fr)
  {
    var W := NatText(I);
    var P := PadLeft(NatText(Fr), dps, '0');
    NatTextDigits(I);
    NatTextDigits(Fr);
    PaddedDigits(NatText(Fr), dps);
    SplitAtPoint(W, P);
    if dps > 0 {
      NatTextLength(Fr, dps);
      assert |P| == dps;
    } else {
      assert P == "0";
    }
  }

  /** A written negative value with a nonzero fraction cannot be read back:
      the fractional field holds a '-'. */
  lemma AsWrittenUnreadable(x: FixedValue)
    requires x.raw < 0 && Fractional(x) != 0
    ensures Parse(RenderAsWritten(x), x.dps) == None
  {
    var I, Fr := Integral(x), Fractional(x);
    var W := NatText(Abs(I));
    var P := PadLeft(IntText(Fr), x.dps, '0');
    assert RenderAsWritten(x) == (if I < 0 then "-" else "") + (W + "." + P);
    assert ParseMagnitude(W + "." + P, x.dps) == None by {
      NatTextDigits(Abs(I));
      SplitAtPoint(W, P);
      SignedNotDigits(Fr, x.dps);
    }
    assert IsDigit((W + "." + P)[0]) by {
      NatTextDigits(Abs(I));
    }
    SignUnreadable(I < 0, W + "." + P, x.dps);
  }

  /** A text whose magnitude does not parse does not parse with or without a
      leading '-'. */
  lemma SignUnreadable(negative: bool, body: string, dps: nat)
    requires |body| > 0 && IsDigit(body[0]) && ParseMagnitude(body, dps) == None
    ensures Parse((if negative then "-" else "") + body, dps) == None
  {
    var s := (if negative then "-" else "") + body;
    if negative {
      assert s[1..] == body;
    } else {
      assert s == body;
    }
  }

  // ---------------------------------------------------------------------------
  // Helper lemmas about digits

  /** NatText(n) is a nonempty string of digits standing for n. */
  lemma {:induction false} NatTextDigits(n: nat)
    ensures |NatText(n)| >= 1 && AllDigits(NatText(n))
    ensures DigitsValue(NatText(n)) == n
    decreases n
  {
    if n >= 10 {
      NatTextDigits(n / 10);
      var s := NatText(n / 10) + [DigitChar(n % 10)];
      assert s[..|s| - 1] == NatText(n / 10);
    }
  }

  /** A number below 10^k takes at most k digits. */
  lemma {:induction false} NatTextLength(n: nat, k: nat)
    requires k >= 1 && n < Factor(k)
    ensures |NatText(n)| <= k
    decreases n
  {
    if n >= 10 {
      NatTextLength(n / 10, k - 1);
    }
  }

  /** Padding a digit string with '0' keeps it a digit string for the same number. */
  lemma PaddedDigits(s: string, width: nat)
    requires AllDigits(s)
    ensures AllDigits(PadLeft(s, width, '0'))
    ensures DigitsValue(PadLeft(s, width, '0')) == DigitsValue(s)
  {
    if |s| < width {
      var z := Repeat('0', width - |s|);
      ZerosValue(width - |s|);
      DigitsConcat(z, s);
    }
  }

  lemma {:induction false} ZerosValue(n: nat)
    ensures AllDigits(Repeat('0', n)) && DigitsValue(Repeat('0', n)) == 0
  {
    if n > 0 {
      ZerosValue(n - 1);
      var z := Repeat('0', n);
      assert z == Repeat('0', n - 1) + ['0'] by {
        assert forall i :: 0 <= i < n ==> z[i] == (Repeat('0', n - 1) + ['0'])[i];
      }
      assert z[..n - 1] == Repeat('0', n - 1);
    }
  }

  /** The digits of a + b stand for a shifted left by |b| digits, plus b. */
  lemma {:induction false} DigitsConcat(a: string, b: string)
    requires AllDigits(a) && AllDigits(b)
    ensures AllDigits(a + b)
    ensures DigitsValue(a + b) == DigitsValue(a) * Factor(|b|) + DigitsValue(b)
    decreases |b|
  {
    if |b| > 0 {
      var b' := b[..|b| - 1];
      assert (a + b)[..|a + b| - 1] == a + b';
      DigitsConcat(a, b');
      MulTen(DigitsValue(a), Factor(|b'|));
    } else {
      assert a + b == a;
    }
  }

  /** In W + "." + P with W a digit string, the first '.' follows W. */
  lemma SplitAtPoint(W: string, P: string)
    requires AllDigits(W)
    ensures Find(W + "." + P, '.') == |W|
    ensures (W + "." + P)[..|W|] == W && (W + "." + P)[|W| + 1..] == P
  {
    var s := W + "." + P;
    assert s[|W|] == '.';
    FindFirst(s, '.', |W|);
  }

  /** When c first occurs at index k, Find returns k. */
  lemma {:induction false} FindFirst(s: string, c: char, k: nat)
    requires k < |s| && s[k] == c
    requires forall j :: 0 <= j < k ==> s[j] != c
    ensures Find(s, c) == k
    decreases k
  {
    if k > 0 {
      FindFirst(s[1..], c, k - 1);
    }
  }

  /** The magnitudes of the parts recombine to raw, negated when raw is negative. */
  lemma MagnitudeParts(x: FixedValue)
    ensures var m := Abs(Integral(x)) * Factor(x.dps) + Abs(Fractional(x));
      (if x.raw < 0 then -m else m) == x.raw
  {
    var I, F := Integral(x), Factor(x.dps);
    MulNegate(I, F);
    MulNegate(-I, F);
    assert Abs(I) * F == if I < 0 then -(I * F) else I * F;
  }

  /** A negative number printed and padded holds a '-', so it is not a digit string. */
  lemma SignedNotDigits(v: int, width: nat)
    requires v < 0
    ensures !AllDigits(PadLeft(IntText(v), width, '0'))
  {
    var t := IntText(v);
    assert t[0] == '-';
    if |t| < width {
      var p := PadLeft(t, width, '0');
      assert p[width - |t|] == '-';
    }
  }
}
