/** ECMAScript numbers as the font-size helper uses them: `String( number )`
    (Number::toString, section 6.1.6.1.20 of ECMA-262) and the global
    `parseFloat( string )` (section 19.2.4). A finite number is kept as an exact
    decimal, sign × mantissa × 10^exponent; rounding to binary64 is not modelled. */
module JsNumber {
  import opened JsText

  datatype Number = NaN | Infinity(negative: bool) | Finite(negative: bool, mantissa: nat, exponent: int)

  /** One representation per value: no trailing zero digit in a non-zero
      mantissa, and exponent 0 for zero. Negative zero is `Finite(true, 0, 0)`. */
  predicate Canonical(x: Number)
  {
    x.Finite? ==> if x.mantissa == 0 then x.exponent == 0 else x.mantissa % 10 != 0
  }

  type JsNumber = x: Number | Canonical(x) witness NaN

  /** The number sign × m × 10^e in canonical form. */
  function MakeFinite(negative: bool, m: nat, e: int): (r: JsNumber)
    decreases m
    ensures r.Finite? && r.negative == negative
    ensures m == 0 <==> r.mantissa == 0
    ensures m == 0 ==> r.exponent == 0
    ensures m > 0 ==> r.exponent >= e
  {
    if m == 0 then Finite(negative, 0, 0)
    else if m % 10 == 0 then MakeFinite(negative, m / 10, e + 1)
    else Finite(negative, m, e)
  }

  /** MakeFinite keeps the value: m × 10^e is the mantissa times ten to the
      (non-negative) difference of the exponents. */
  lemma {:induction false} MakeFiniteValue(negative: bool, m: nat, e: int)
    requires m > 0
    decreases m
    ensures var r := MakeFinite(negative, m, e);
            m == r.mantissa * Pow(10, r.exponent - e)
  {
    if m % 10 == 0 {
      var r := MakeFinite(negative, m / 10, e + 1);
      MakeFiniteValue(negative, m / 10, e + 1);
      ScaleByTen(m, r.mantissa, Pow(10, r.exponent - (e + 1)));
      assert Pow(10, r.exponent - e) == 10 * Pow(10, r.exponent - (e + 1));
    }
  }

  lemma ScaleByTen(m: nat, a: nat, p: nat)
    requires m % 10 == 0 && m / 10 == a * p
    ensures m == a * (10 * p)
  {
  }

  /** Scaling a canonical mantissa by a power of ten only moves the exponent. */
  lemma {:induction false} MakeFiniteScaled(negative: bool, m: nat, j: nat, e: int)
    requires m > 0 && m % 10 != 0
    ensures MakeFinite(negative, m * Pow(10, j), e) == Finite(negative, m, e + j)
  {
    if j > 0 {
      var p := Pow(10, j - 1);
      var q := m * p;
      PowerStep(m, j, p);
      MakeFiniteStep(negative, q, e);
      MakeFiniteScaled(negative, m, j - 1, e + 1);
    }
  }

  lemma PowerStep(m: nat, j: nat, p: nat)
    requires j > 0 && p == Pow(10, j - 1)
    ensures m * Pow(10, j) == (m * p) * 10
  {
  }

  /** A trailing zero of the mantissa moves into the exponent. */
  lemma MakeFiniteStep(negative: bool, q: nat, e: int)
    requires q > 0
    ensures MakeFinite(negative, q * 10, e) == MakeFinite(negative, q, e + 1)
  {
    assert (q * 10) % 10 == 0 && (q * 10) / 10 == q;
  }

  /** A canonical mantissa is already in canonical form. */
  lemma MakeFiniteExact(negative: bool, m: nat, e: int)
    requires m > 0 && m % 10 != 0
    ensures MakeFinite(negative, m, e) == Finite(negative, m, e)
  {
  }

  /** Number::toString for a positive canonical value m × 10^e: with k digits
      and n = e + k, plain digits padded with zeros up to 21 integer digits, a
      decimal point inside the digits, up to six leading zeros after "0.", and
      exponential notation otherwise. */
  function PositiveToString(m: nat, e: int): (r: string)
    requires m > 0
    ensures |r| > 0 && '0' <= r[0] <= '9'
  {
    var ds := DecimalString(m);
    var k := |ds|;
    var n := e + k;
    if k <= n <= 21 then ds + Zeros(n - k)
    else if 0 < n <= 21 then ds[..n] + "." + ds[n..]
    else if -6 < n <= 0 then "0." + Zeros(-n) + ds
    else ExponentialForm(ds, n - 1)
  }

  /** Exponential notation: the first digit, the other digits after a point
      (when there are any), then `e`, the exponent's sign and its magnitude. */
  function ExponentialForm(ds: string, x: int): (r: string)
    requires |ds| > 0
    ensures |r| > 0 && r[0] == ds[0]
  {
    if |ds| == 1 then ds + ExponentSuffix(x) else ds[..1] + "." + ds[1..] + ExponentSuffix(x)
  }

  /** `e`, the exponent's sign and its magnitude. */
  function ExponentSuffix(x: int): (r: string)
    ensures |r| > 0 && r[0] == 'e'
  {
    "e" + (if x >= 0 then "+" + DecimalString(x) else "-" + DecimalString(-x))
  }

  /** `String( x )`. */
  function NumberToString(x: JsNumber): (r: string)
    ensures |r| > 0
    ensures x.Finite? ==> '0' <= r[0] <= '9' || r[0] == '-'
    ensures x.NaN? ==> r == "NaN"
    ensures x.Infinity? ==> r == if x.negative then "-Infinity" else "Infinity"
  {
    match x
    case NaN => "NaN"
    case Infinity(negative) => if negative then "-Infinity" else "Infinity"
    case Finite(negative, m, e) =>
      if m == 0 then "0"
      else if negative then "-" + PositiveToString(m, e)
      else PositiveToString(m, e)
  }

  /** An integer whose decimal form has at most 21 digits, that is, one below
      10^21 (DigitCount); from 10^21 on, `String( n )` uses exponential notation. */
  predicate PlainInteger(n: nat)
  {
    |DecimalString(n)| <= 21
  }

  /** For a plain integer, `String( n )` of a non-zero integer is its sign
      followed by its decimal digits. */
  lemma IntegerToString(negative: bool, n: nat)
    requires n > 0 && PlainInteger(n)
    ensures NumberToString(MakeFinite(negative, n, 0)) == (if negative then "-" else "") + DecimalString(n)
  {
    var r := MakeFinite(negative, n, 0);
    MakeFiniteValue(negative, n, 0);
    var j: nat := r.exponent;
    ShiftedText(r.mantissa, j, n);
    SignedPlainText(negative, r.mantissa, j, DecimalString(n));
  }

  lemma ShiftedText(m: nat, j: nat, n: nat)
    requires m > 0 && n == m * Pow(10, j - 0)
    ensures DecimalString(n) == DecimalString(m) + Zeros(j)
  {
    assert j - 0 == j;
    DecimalStringShift(m, j);
  }

  lemma SignedPlainText(negative: bool, m: nat, j: nat, d: string)
    requires m > 0 && m % 10 != 0 && d == DecimalString(m) + Zeros(j) && |d| <= 21
    ensures NumberToString(Finite(negative, m, j)) == (if negative then "-" else "") + d
  {
    PlainDigits(m, j);
  }

  lemma PlainDigits(m: nat, j: nat)
    requires m > 0 && |DecimalString(m)| + j <= 21
    ensures PositiveToString(m, j) == DecimalString(m) + Zeros(j)
  {
  }

  /** `String( 10^j )` for j >= 21 is "1e+" followed by the digits of j. */
  lemma ExponentialPowerOfTen(j: nat)
    requires j >= 21
    ensures NumberToString(MakeFinite(false, Pow(10, j), 0)) == DecimalString(1) + ExponentSuffix(j)
  {
    PowerOfTenNumber(j);
    LargeSingleDigit(1, j);
  }

  lemma PowerOfTenNumber(j: nat)
    ensures MakeFinite(false, Pow(10, j), 0) == Finite(false, 1, j)
  {
    MakeFiniteScaled(false, 1, j, 0);
    assert 1 * Pow(10, j) == Pow(10, j);
  }

  lemma LargeSingleDigit(m: nat, j: nat)
    requires 0 < m < 10 && j >= 21
    ensures PositiveToString(m, j) == DecimalString(m) + ExponentSuffix(j)
  {
    assert |DecimalString(m)| == 1;
  }

  /** `parseFloat( s )`: skips leading white space and reads the longest prefix
      that is a StrDecimalLiteral (an optional sign, then "Infinity" or digits
      with an optional point and fraction and an optional exponent); NaN when
      no prefix is one. */
  function ParseFloat(s: string): (r: JsNumber)
    ensures var t := TrimStart(s); (t == [] || CannotStartNumber(t[0])) ==> r.NaN?
  {
    var t := TrimStart(s);
    if |t| > 0 && t[0] == '-' then ParseUnsignedDecimal(true, t[1..])
    else if |t| > 0 && t[0] == '+' then ParseUnsignedDecimal(false, t[1..])
    else
      NoNumeralIsNaN(t);
      ParseUnsignedDecimal(false, t)
  }

  /** Text that is empty or starts with a character no numeral starts with
      holds no StrUnsignedDecimalLiteral. */
  lemma NoNumeralIsNaN(u: string)
    ensures (u == [] || CannotStartNumber(u[0])) ==> ParseUnsignedDecimal(false, u).NaN?
  {
    if u == [] || CannotStartNumber(u[0]) {
      assert |u| >= 8 ==> u[..8][0] == u[0];
      assert DigitRun(u, 10) == [];
      assert u[0..] == u;
    }
  }

  function ParseUnsignedDecimal(negative: bool, u: string): JsNumber
  {
    if |u| >= 8 && u[..8] == "Infinity" then Infinity(negative)
    else
      var intDigits := DigitRun(u, 10);
      ParseAfterInteger(negative, intDigits, u[|intDigits|..])
  }

  /** What follows the integer digits: an optional point with fraction digits,
      then an optional exponent. Neither integer nor fraction digits: NaN. */
  function ParseAfterInteger(negative: bool, intDigits: string, rest: string): JsNumber
  {
    if |rest| > 0 && rest[0] == '.' then ParseFraction(negative, intDigits, rest[1..])
    else if intDigits == [] then NaN
    else MakeFinite(negative, DigitsValue(intDigits, 10), ExponentPart(rest))
  }

  /** What follows the point: fraction digits, then an optional exponent. */
  function ParseFraction(negative: bool, intDigits: string, afterPoint: string): JsNumber
  {
    var fracDigits := DigitRun(afterPoint, 10);
    if intDigits == [] && fracDigits == [] then NaN
    else MakeFinite(negative, DigitsValue(intDigits + fracDigits, 10),
                    ExponentPart(afterPoint[|fracDigits|..]) - |fracDigits|)
  }

  lemma NotInfinity(u: string)
    requires |u| > 0 && '0' <= u[0] <= '9'
    ensures ParseUnsignedDecimal(false, u) == ParseAfterInteger(false, DigitRun(u, 10), u[|DigitRun(u, 10)|..])
    ensures ParseUnsignedDecimal(true, u) == ParseAfterInteger(true, DigitRun(u, 10), u[|DigitRun(u, 10)|..])
  {
    assert |u| >= 8 ==> u[..8][0] == u[0];
  }

  /** The value of an optional ExponentPart at the start of `s`: `e` or `E`, an
      optional sign and digits. Without digits there is no exponent, which is
      the same as exponent 0. */
  function ExponentPart(s: string): int
  {
    if |s| > 0 && (s[0] == 'e' || s[0] == 'E') then
      var t := s[1..];
      var u := if |t| > 0 && (t[0] == '-' || t[0] == '+') then t[1..] else t;
      var v := DigitsValue(DigitRun(u, 10), 10);
      if |t| > 0 && t[0] == '-' then -(v as int) else v
    else 0
  }

  predicate AllDecimalDigits(s: string)
  {
    forall i :: 0 <= i < |s| ==> '0' <= s[i] <= '9'
  }

  /** Digits, a point, digits, and text that starts with no digit. */
  lemma ParsePointed(negative: bool, ip: string, fp: string, tail: string)
    requires |ip| > 0 && AllDecimalDigits(ip) && AllDecimalDigits(fp)
    requires tail == [] || !('0' <= tail[0] <= '9')
    ensures ParseUnsignedDecimal(negative, ip + "." + fp + tail)
            == MakeFinite(negative, DigitsValue(ip + fp, 10), ExponentPart(tail) - |fp|)
  {
    var u := ip + "." + fp + tail;
    var rest := "." + fp + tail;
    assert u == ip + rest;
    assert u[0] == ip[0];
    NotInfinity(u);
    DigitRunOfPrefix(ip, rest, 10);
    assert u[|ip|..] == rest;
    PointedRest(negative, ip, fp, tail);
  }

  lemma PointedRest(negative: bool, ip: string, fp: string, tail: string)
    requires |ip| > 0 && AllDecimalDigits(fp)
    requires tail == [] || !('0' <= tail[0] <= '9')
    ensures ParseAfterInteger(negative, ip, "." + fp + tail)
            == MakeFinite(negative, DigitsValue(ip + fp, 10), ExponentPart(tail) - |fp|)
  {
    var rest := "." + fp + tail;
    assert rest[0] == '.';
    assert rest[1..] == fp + tail;
    FractionOf(negative, ip, fp, tail);
  }

  lemma FractionOf(negative: bool, ip: string, fp: string, tail: string)
    requires |ip| > 0 && AllDecimalDigits(fp)
    requires tail == [] || !('0' <= tail[0] <= '9')
    ensures ParseFraction(negative, ip, fp + tail)
            == MakeFinite(negative, DigitsValue(ip + fp, 10), ExponentPart(tail) - |fp|)
  {
    DigitRunOfPrefix(fp, tail, 10);
    assert (fp + tail)[|fp|..] == tail;
    FractionParts(negative, ip, fp + tail, fp, tail);
  }

  lemma FractionParts(negative: bool, ip: string, u: string, fp: string, tail: string)
    requires |ip| > 0 && |fp| <= |u|
    requires DigitRun(u, 10) == fp && u[|fp|..] == tail
    ensures ParseFraction(negative, ip, u)
            == MakeFinite(negative, DigitsValue(ip + fp, 10), ExponentPart(tail) - |fp|)
  {
    FractionUnfolded(negative, ip, u);
    FractionRenamed(negative, ip, u, fp, tail);
  }

  // Proof steps kept apart from FractionParts so that its proof stays small:
  // the unfolded fraction, then the same with the digit run given a name.
  lemma FractionUnfolded(negative: bool, ip: string, u: string)
    requires |ip| > 0
    ensures ParseFraction(negative, ip, u)
            == MakeFinite(negative, DigitsValue(ip + DigitRun(u, 10), 10),
                          ExponentPart(u[|DigitRun(u, 10)|..]) - |DigitRun(u, 10)|)
  {
  }

  lemma FractionRenamed(negative: bool, ip: string, u: string, fp: string, tail: string)
    requires |fp| <= |u|
    requires DigitRun(u, 10) == fp && u[|fp|..] == tail
    ensures MakeFinite(negative, DigitsValue(ip + DigitRun(u, 10), 10),
                       ExponentPart(u[|DigitRun(u, 10)|..]) - |DigitRun(u, 10)|)
            == MakeFinite(negative, DigitsValue(ip + fp, 10), ExponentPart(tail) - |fp|)
  {
  }

  /** Digits, then text that starts with neither a digit nor a point. */
  lemma ParseUnpointed(negative: bool, ip: string, tail: string)
    requires |ip| > 0 && AllDecimalDigits(ip)
    requires tail == [] || (!('0' <= tail[0] <= '9') && tail[0] != '.')
    ensures ParseUnsignedDecimal(negative, ip + tail) == MakeFinite(negative, DigitsValue(ip, 10), ExponentPart(tail))
  {
    var u := ip + tail;
    assert u[0] == ip[0];
    NotInfinity(u);
    DigitRunOfPrefix(ip, tail, 10);
    assert u[|ip|..] == tail;
  }

  /** The exponent suffix Number::toString writes reads back as the exponent. */
  lemma ExponentSuffixValue(x: int)
    ensures ExponentPart(ExponentSuffix(x)) == x
  {
    if x >= 0 {
      NonNegativeSuffixValue(x);
    } else {
      NegativeSuffixValue(x);
    }
  }

  lemma NonNegativeSuffixValue(x: int)
    requires x >= 0
    ensures ExponentPart(ExponentSuffix(x)) == x
  {
    assert ExponentSuffix(x) == "e" + "+" + DecimalString(x);
    ExponentDigitsValue(x, ExponentSuffix(x));
  }

  lemma NegativeSuffixValue(x: int)
    requires x < 0
    ensures ExponentPart(ExponentSuffix(x)) == x
  {
    assert ExponentSuffix(x) == "e" + "-" + DecimalString(-x);
    ExponentDigitsValue(-x, ExponentSuffix(x));
  }

  lemma ExponentDigitsValue(a: nat, s: string)
    requires |s| == 2 + |DecimalString(a)| && s[0] == 'e' && (s[1] == '+' || s[1] == '-')
    requires s[2..] == DecimalString(a)
    ensures ExponentPart(s) == if s[1] == '-' then -(a as int) else a
  {
    var d := DecimalString(a);
    assert s[1..][1..] == d;
    assert d + [] == d;
    DigitRunOfPrefix(d, [], 10);
    DecimalStringValue(a);
  }

  /** Case of PositiveRoundTrip: plain digits padded with zeros. */
  lemma PaddedRoundTrip(negative: bool, m: nat, j: nat)
    requires m > 0 && m % 10 != 0
    ensures ParseUnsignedDecimal(negative, DecimalString(m) + Zeros(j)) == Finite(negative, m, j)
  {
    var ip := DecimalString(m) + Zeros(j);
    assert ip + [] == ip;
    ParseUnpointed(negative, ip, []);
    DecimalStringValue(m);
    TrailingZeros(DecimalString(m), j, 10);
    MakeFiniteScaled(negative, m, j, 0);
  }

  /** Case of PositiveRoundTrip: a point inside the digits. */
  lemma PointInsideRoundTrip(negative: bool, m: nat, n: nat)
    requires m > 0 && m % 10 != 0
    requires 0 < n < |DecimalString(m)|
    ensures ParseUnsignedDecimal(negative, DecimalString(m)[..n] + "." + DecimalString(m)[n..])
            == Finite(negative, m, n - |DecimalString(m)|)
  {
    var ds := DecimalString(m);
    DecimalSplit(m, n);
    assert ds[..n] + "." + ds[n..] + [] == ds[..n] + "." + ds[n..];
    ParsePointed(negative, ds[..n], ds[n..], []);
    PointInsideParts(m, ds[..n], ds[n..]);
    MakeFiniteExact(negative, m, n - |ds|);
  }

  lemma PointInsideParts(m: nat, ip: string, fp: string)
    requires ip + fp == DecimalString(m)
    ensures DigitsValue(ip + fp, 10) == m
    ensures ExponentPart([]) - |fp| == |ip| - |DecimalString(m)|
  {
    DecimalStringValue(m);
    assert ExponentPart([]) == 0;
  }

  /** Case of PositiveRoundTrip: "0." and leading zeros before the digits. */
  lemma LeadingPointRoundTrip(negative: bool, m: nat, z: nat)
    requires m > 0 && m % 10 != 0
    ensures ParseUnsignedDecimal(negative, "0." + Zeros(z) + DecimalString(m))
            == Finite(negative, m, -(z as int) - |DecimalString(m)|)
  {
    var ds := DecimalString(m);
    var fp := Zeros(z) + ds;
    assert "0." + Zeros(z) + ds == "0" + "." + fp + [] by {
      assert "0." == "0" + ".";
    }
    assert AllDecimalDigits(fp);
    ParsePointed(negative, "0", fp, []);
    LeadingZerosValue(z, m);
    assert ExponentPart([]) == 0;
    MakeFiniteExact(negative, m, -(z as int) - |ds|);
  }

  lemma LeadingZerosValue(z: nat, m: nat)
    ensures DigitsValue("0" + (Zeros(z) + DecimalString(m)), 10) == m
  {
    var ds := DecimalString(m);
    ZerosCons(z);
    assert "0" + (Zeros(z) + ds) == Zeros(z + 1) + ds;
    LeadingZeros(z + 1, ds, 10);
    DecimalStringValue(m);
  }

  /** Case of PositiveRoundTrip: exponential notation. */
  lemma ExponentialRoundTrip(negative: bool, m: nat, x: int)
    requires m > 0 && m % 10 != 0
    ensures ParseUnsignedDecimal(negative, ExponentialForm(DecimalString(m), x))
            == Finite(negative, m, x - (|DecimalString(m)| - 1))
  {
    if |DecimalString(m)| == 1 {
      SingleDigitExponential(negative, m, x);
    } else {
      ManyDigitExponential(negative, m, x);
    }
  }

  lemma SingleDigitExponential(negative: bool, m: nat, x: int)
    requires m > 0 && m % 10 != 0 && |DecimalString(m)| == 1
    ensures ParseUnsignedDecimal(negative, DecimalString(m) + ExponentSuffix(x)) == Finite(negative, m, x)
  {
    ParseUnpointed(negative, DecimalString(m), ExponentSuffix(x));
    ExponentSuffixValue(x);
    DecimalStringValue(m);
    MakeFiniteExact(negative, m, x);
  }

  lemma ManyDigitExponential(negative: bool, m: nat, x: int)
    requires m > 0 && m % 10 != 0 && |DecimalString(m)| > 1
    ensures var ds := DecimalString(m);
            ParseUnsignedDecimal(negative, ds[..1] + "." + ds[1..] + ExponentSuffix(x))
            == Finite(negative, m, x - (|ds| - 1))
  {
    var ds := DecimalString(m);
    DecimalSplit(m, 1);
    ParsePointed(negative, ds[..1], ds[1..], ExponentSuffix(x));
    ExponentialParts(m, x, ds[..1], ds[1..]);
    MakeFiniteExact(negative, m, x - (|ds| - 1));
  }

  lemma ExponentialParts(m: nat, x: int, ip: string, fp: string)
    requires ip + fp == DecimalString(m) && |ip| == 1
    ensures DigitsValue(ip + fp, 10) == m
    ensures ExponentPart(ExponentSuffix(x)) - |fp| == x - (|DecimalString(m)| - 1)
  {
    ExponentSuffixValue(x);
    DecimalStringValue(m);
  }

  /** Both parts of the decimal digits of m, cut anywhere, are digits. */
  lemma DecimalSplit(m: nat, n: nat)
    requires n <= |DecimalString(m)|
    ensures var ds := DecimalString(m);
            AllDecimalDigits(ds[..n]) && AllDecimalDigits(ds[n..]) && ds[..n] + ds[n..] == ds
  {
  }

  /** Reading back the digits Number::toString writes for a positive value gives
      that value. */
  lemma PositiveRoundTrip(negative: bool, m: nat, e: int)
    requires m > 0 && m % 10 != 0
    ensures ParseUnsignedDecimal(negative, PositiveToString(m, e)) == Finite(negative, m, e)
  {
    var k := |DecimalString(m)|;
    if k <= e + k <= 21 {
      PaddedNotation(negative, m, e);
    } else if 0 < e + k <= 21 {
      PointInsideNotation(negative, m, e);
    } else if -6 < e + k <= 0 {
      LeadingPointNotation(negative, m, e);
    } else {
      ExponentialNotation(negative, m, e);
    }
  }

  lemma PaddedNotation(negative: bool, m: nat, e: int)
    requires m > 0 && m % 10 != 0
    requires var k := |DecimalString(m)|; k <= e + k <= 21
    ensures ParseUnsignedDecimal(negative, PositiveToString(m, e)) == Finite(negative, m, e)
  {
    PaddedText(m, e);
    PaddedRoundTrip(negative, m, e);
  }

  lemma PaddedText(m: nat, e: int)
    requires m > 0
    requires var k := |DecimalString(m)|; k <= e + k <= 21
    ensures e >= 0 && PositiveToString(m, e) == DecimalString(m) + Zeros(e)
  {
  }

  lemma PointInsideNotation(negative: bool, m: nat, e: int)
    requires m > 0 && m % 10 != 0
    requires var k := |DecimalString(m)|; !(k <= e + k <= 21) && 0 < e + k <= 21
    ensures ParseUnsignedDecimal(negative, PositiveToString(m, e)) == Finite(negative, m, e)
  {
    var n := e + |DecimalString(m)|;
    PointInsideText(m, e, n);
    PointInsideRoundTrip(negative, m, n);
  }

  lemma PointInsideText(m: nat, e: int, n: int)
    requires m > 0
    requires var k := |DecimalString(m)|; !(k <= e + k <= 21) && 0 < e + k <= 21
    requires n == e + |DecimalString(m)|
    ensures 0 < n < |DecimalString(m)|
    ensures PositiveToString(m, e) == DecimalString(m)[..n] + "." + DecimalString(m)[n..]
  {
  }

  lemma LeadingPointNotation(negative: bool, m: nat, e: int)
    requires m > 0 && m % 10 != 0
    requires var k := |DecimalString(m)|; !(k <= e + k <= 21) && !(0 < e + k <= 21) && -6 < e + k <= 0
    ensures ParseUnsignedDecimal(negative, PositiveToString(m, e)) == Finite(negative, m, e)
  {
    var z := -(e + |DecimalString(m)|);
    LeadingPointText(m, e, z);
    LeadingPointRoundTrip(negative, m, z);
  }

  lemma LeadingPointText(m: nat, e: int, z: nat)
    requires m > 0
    requires var k := |DecimalString(m)|; !(k <= e + k <= 21) && !(0 < e + k <= 21) && -6 < e + k <= 0
    requires z == -(e + |DecimalString(m)|)
    ensures PositiveToString(m, e) == "0." + Zeros(z) + DecimalString(m)
  {
  }

  lemma ExponentialNotation(negative: bool, m: nat, e: int)
    requires m > 0 && m % 10 != 0
    requires var k := |DecimalString(m)|; !(k <= e + k <= 21) && !(0 < e + k <= 21) && !(-6 < e + k <= 0)
    ensures ParseUnsignedDecimal(negative, PositiveToString(m, e)) == Finite(negative, m, e)
  {
    var ds := DecimalString(m);
    var n := e + |ds|;
    ExponentialRoundTrip(negative, m, n - 1);
  }

  /** `parseFloat( String( x ) )` gives `x` back, except that negative zero
      comes back as positive zero. */
  lemma ToStringRoundTrip(x: JsNumber)
    ensures ParseFloat(NumberToString(x)) == if x.Finite? && x.mantissa == 0 then Finite(false, 0, 0) else x
  {
    match x
    case NaN =>
      NaNToString();
    case Infinity(negative) =>
      InfinityToString(negative);
    case Finite(negative, m, e) =>
      if m == 0 {
        ZeroToString(negative);
      } else if negative {
        NegativeToString(m, e);
      } else {
        PositiveToStringRoundTrip(m, e);
      }
  }

  lemma NaNToString()
    ensures ParseFloat(NumberToString(NaN)) == NaN
  {
    NoLeadingBlank("NaN");
    NaNRoundTrip();
  }

  lemma InfinityToString(negative: bool)
    ensures ParseFloat(NumberToString(Infinity(negative))) == Infinity(negative)
  {
    var s := NumberToString(Infinity(negative));
    NoLeadingBlank(s);
    if negative {
      assert s[1..] == "Infinity";
      InfinityWord(true, s[1..]);
    } else {
      InfinityWord(false, s);
    }
  }

  lemma InfinityWord(negative: bool, u: string)
    requires u == "Infinity"
    ensures ParseUnsignedDecimal(negative, u) == Infinity(negative)
  {
    assert u[..8] == u;
  }

  lemma ZeroToString(negative: bool)
    ensures ParseFloat(NumberToString(Finite(negative, 0, 0))) == Finite(false, 0, 0)
  {
    var s := NumberToString(Finite(negative, 0, 0));
    NoLeadingBlank(s);
    assert s == "0" + [];
    ParseUnpointed(false, "0", []);
  }

  lemma NegativeToString(m: nat, e: int)
    requires m > 0 && m % 10 != 0
    ensures ParseFloat(NumberToString(Finite(true, m, e))) == Finite(true, m, e)
  {
    var s := NumberToString(Finite(true, m, e));
    NoLeadingBlank(s);
    assert s[1..] == PositiveToString(m, e);
    PositiveRoundTrip(true, m, e);
  }

  lemma PositiveToStringRoundTrip(m: nat, e: int)
    requires m > 0 && m % 10 != 0
    ensures ParseFloat(NumberToString(Finite(false, m, e))) == Finite(false, m, e)
  {
    var s := NumberToString(Finite(false, m, e));
    NoLeadingBlank(s);
    PositiveRoundTrip(false, m, e);
  }

  lemma NoLeadingBlank(s: string)
    requires |s| > 0 && !IsWhiteSpace(s[0])
    ensures ParseFloat(s) == if s[0] == '-' then ParseUnsignedDecimal(true, s[1..])
                             else if s[0] == '+' then ParseUnsignedDecimal(false, s[1..])
                             else ParseUnsignedDecimal(false, s)
  {
    TrimStartSkips([], s);
    assert [] + s == s;
  }

  lemma NaNRoundTrip()
    ensures ParseUnsignedDecimal(false, "NaN") == NaN
  {
    assert DigitRun("NaN", 10) == [];
    assert "NaN"[0..] == "NaN";
  }

  /** A character no StrDecimalLiteral, and no white space before one, starts with. */
  predicate CannotStartNumber(c: char)
  {
    !IsWhiteSpace(c) && !('0' <= c <= '9') && c != '+' && c != '-' && c != '.' && c != 'I'
  }

  /** Text whose first character cannot start a number holds none: `parseFloat` gives NaN. */
  lemma NonNumericStartIsNaN(s: string)
    requires |s| > 0 && CannotStartNumber(s[0])
    ensures ParseFloat(s).NaN?
  {
    NoLeadingBlank(s);
    assert |s| >= 8 ==> s[..8][0] == s[0];
    assert DigitRun(s, 10) == [];
    assert s[0..] == s;
  }

  /** Text that starts with a lower-case letter holds no number. */
  lemma LowerCaseStartIsNaN(s: string)
    requires |s| > 0 && 'a' <= s[0] <= 'z'
    ensures ParseFloat(s).NaN?
  {
    NonNumericStartIsNaN(s);
  }
}
