/** The pieces of ECMAScript string-to-number conversion that `parseInt` and
    `parseFloat` share (ECMA-262, section 7.1.4.1 and section 19.2): white space,
    digits of a radix, the longest digit prefix of a string and its value, and the
    canonical decimal form of a natural number (what `String(n)` gives for an
    integer below 10^21). */
module JsText {

  /** StrWhiteSpaceChar of ECMA-262: the WhiteSpace code points (TAB, VT, FF,
      ZWNBSP and every Unicode "Zs" space) and the LineTerminator code points. */
  predicate IsWhiteSpace(c: char)
  {
    var u := c as int;
    u == 0x09 || u == 0x0A || u == 0x0B || u == 0x0C || u == 0x0D
    || u == 0x20 || u == 0xA0 || u == 0x1680 || (0x2000 <= u <= 0x200A)
    || u == 0x2028 || u == 0x2029 || u == 0x202F || u == 0x205F
    || u == 0x3000 || u == 0xFEFF
  }

  /** TrimString(s, start): drops the leading white space of `s`. */
  function TrimStart(s: string): (r: string)
    ensures |r| <= |s| && r == s[|s| - |r|..]
    ensures r == [] || !IsWhiteSpace(r[0])
    ensures forall i :: 0 <= i < |s| - |r| ==> IsWhiteSpace(s[i])
  {
    if |s| > 0 && IsWhiteSpace(s[0]) then
      var r := TrimStart(s[1..]);
      assert s[1..][|s| - 1 - |r|..] == s[|s| - |r|..];
      assert forall i :: 1 <= i < |s| - |r| ==> s[i] == s[1..][i - 1];
      r
    else s
  }

  /** Trimming skips exactly a white-space prefix and stops at the first other character. */
  lemma {:induction false} TrimStartSkips(ws: string, rest: string)
    requires forall i :: 0 <= i < |ws| ==> IsWhiteSpace(ws[i])
    requires rest == [] || !IsWhiteSpace(rest[0])
    ensures TrimStart(ws + rest) == rest
  {
    if ws != [] {
      assert (ws + rest)[1..] == ws[1..] + rest;
      TrimStartSkips(ws[1..], rest);
    }
  }

  /** The digit value of a character in radices up to 36 (`0`-`9`, then the
      letters of either case); 36 for a character that is no digit at all. */
  function DigitValue(c: char): (d: nat)
    ensures d <= 36
    ensures '0' <= c <= '9' <==> d < 10
  {
    if '0' <= c <= '9' then c as int - '0' as int
    else if 'a' <= c <= 'z' then c as int - 'a' as int + 10
    else if 'A' <= c <= 'Z' then c as int - 'A' as int + 10
    else 36
  }

  predicate IsDigit(c: char, radix: nat)
  {
    DigitValue(c) < radix
  }

  /** The longest prefix of `s` made of digits of `radix`. */
  function DigitRun(s: string, radix: nat): (r: string)
    ensures |r| <= |s| && r == s[..|r|]
    ensures forall i :: 0 <= i < |r| ==> IsDigit(r[i], radix)
    ensures |r| == |s| || !IsDigit(s[|r|], radix)
  {
    if |s| > 0 && IsDigit(s[0], radix) then [s[0]] + DigitRun(s[1..], radix) else []
  }

  /** A run of digits followed by anything that does not start with a digit is
      cut exactly at the end of the run. */
  lemma {:induction false} DigitRunOfPrefix(ds: string, rest: string, radix: nat)
    requires forall i :: 0 <= i < |ds| ==> IsDigit(ds[i], radix)
    requires rest == [] || !IsDigit(rest[0], radix)
    ensures DigitRun(ds + rest, radix) == ds
  {
    if ds != [] {
      assert (ds + rest)[0] == ds[0];
      assert (ds + rest)[1..] == ds[1..] + rest;
      DigitRunOfPrefix(ds[1..], rest, radix);
    }
  }

  function Pow(b: nat, e: nat): (r: nat)
    ensures b > 0 ==> r > 0
  {
    if e == 0 then 1 else b * Pow(b, e - 1)
  }

  /** The value of a digit string read most significant digit first. */
  function DigitsValue(ds: string, radix: nat): nat
  {
    if ds == [] then 0
    else DigitsValue(ds[..|ds| - 1], radix) * radix + DigitValue(ds[|ds| - 1])
  }

  /** Reading `a + b` is reading `a`, shifting by the length of `b`, and adding `b`. */
  lemma {:induction false} DigitsValueConcat(a: string, b: string, radix: nat)
    ensures DigitsValue(a + b, radix) == DigitsValue(a, radix) * Pow(radix, |b|) + DigitsValue(b, radix)
  {
    if b == [] {
      assert a + b == a;
    } else {
      var b' := b[..|b| - 1];
      assert (a + b)[..|a + b| - 1] == a + b';
      assert (a + b)[|a + b| - 1] == b[|b| - 1];
      DigitsValueConcat(a, b', radix);
      ShiftStep(DigitsValue(a, radix), Pow(radix, |b'|), DigitsValue(b', radix), radix, DigitValue(b[|b| - 1]));
    }
  }

  lemma ShiftStep(va: nat, p: nat, vb: nat, radix: nat, d: nat)
    ensures (va * p + vb) * radix + d == va * (radix * p) + (vb * radix + d)
  {
  }

  function Zeros(n: nat): (r: string)
    ensures |r| == n && forall i :: 0 <= i < n ==> r[i] == '0'
  {
    seq(n, _ => '0')
  }

  lemma ZerosCons(n: nat)
    ensures "0" + Zeros(n) == Zeros(n + 1)
  {
  }

  /** Leading zeros do not change the value of a digit string. */
  lemma LeadingZeros(n: nat, ds: string, radix: nat)
    ensures DigitsValue(Zeros(n) + ds, radix) == DigitsValue(ds, radix)
  {
    DigitsValueConcat(Zeros(n), ds, radix);
    ZerosValue(n, radix);
  }

  lemma {:induction false} ZerosValue(n: nat, radix: nat)
    ensures DigitsValue(Zeros(n), radix) == 0
  {
    if n > 0 {
      assert Zeros(n)[..n - 1] == Zeros(n - 1);
      ZerosValue(n - 1, radix);
    }
  }

  /** Trailing zeros multiply the value by a power of the radix. */
  lemma TrailingZeros(ds: string, n: nat, radix: nat)
    ensures DigitsValue(ds + Zeros(n), radix) == DigitsValue(ds, radix) * Pow(radix, n)
  {
    DigitsValueConcat(ds, Zeros(n), radix);
    ZerosValue(n, radix);
  }

  function DigitChar(d: nat): (c: char)
    requires d < 10
    ensures DigitValue(c) == d
  {
    ('0' as int + d) as char
  }

  /** The canonical decimal form of `n`: no sign, no leading zero except for `0` itself. */
  function DecimalString(n: nat): (r: string)
    ensures |r| >= 1
    ensures forall i :: 0 <= i < |r| ==> '0' <= r[i] <= '9'
    ensures n > 0 ==> r[0] != '0'
  {
    if n < 10 then [DigitChar(n)] else DecimalString(n / 10) + [DigitChar(n % 10)]
  }

  /** Reading back the canonical decimal form of `n` gives `n`. */
  lemma {:induction false} DecimalStringValue(n: nat)
    ensures DigitsValue(DecimalString(n), 10) == n
  {
    var r := DecimalString(n);
    if n < 10 {
      assert r[..0] == [];
    } else {
      assert r[..|r| - 1] == DecimalString(n / 10);
      DecimalStringValue(n / 10);
    }
  }

  /** Appending zeros to the decimal form of a positive number multiplies it by
      a power of ten. */
  lemma {:induction false} DecimalStringShift(m: nat, j: nat)
    requires m > 0
    ensures DecimalString(m * Pow(10, j)) == DecimalString(m) + Zeros(j)
  {
    if j > 0 {
      var q := m * Pow(10, j - 1);
      PowerOfTenStep(m, j, q);
      ShiftedDigits(q, m * Pow(10, j));
      DecimalStringShift(m, j - 1);
      ZerosSnoc(DecimalString(m), j - 1);
    }
  }

  lemma PowerOfTenStep(m: nat, j: nat, q: nat)
    requires m > 0 && j > 0 && q == m * Pow(10, j - 1)
    ensures q > 0 && m * Pow(10, j) == q * 10
  {
  }

  lemma ShiftedDigits(q: nat, x: nat)
    requires q > 0 && x == q * 10
    ensures DecimalString(x) == DecimalString(q) + [DigitChar(0)]
  {
    assert x / 10 == q && x % 10 == 0;
  }

  lemma ZerosSnoc(d: string, j: nat)
    ensures d + Zeros(j) + [DigitChar(0)] == d + Zeros(j + 1)
  {
  }

  /** The decimal form of `n` has at most `k` digits exactly when `n` is below 10^k. */
  lemma {:induction false} DigitCount(n: nat, k: nat)
    requires k >= 1
    ensures |DecimalString(n)| <= k <==> n < Pow(10, k)
  {
    PowAtLeastTen(k);
    if n >= 10 {
      assert |DecimalString(n)| == |DecimalString(n / 10)| + 1;
      if k > 1 {
        DigitCount(n / 10, k - 1);
        DivTenBound(n, Pow(10, k - 1));
      }
    }
  }

  lemma PowAtLeastTen(k: nat)
    requires k >= 1
    ensures Pow(10, k) >= 10 && Pow(10, k) == 10 * Pow(10, k - 1)
  {
    if k > 1 {
      PowAtLeastTen(k - 1);
    }
  }

  lemma DivTenBound(n: nat, p: nat)
    ensures n / 10 < p <==> n < 10 * p
  {
  }
}
