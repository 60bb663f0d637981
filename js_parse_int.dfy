/** The global `parseInt(string)` of ECMA-262 (section 19.2.5) called, as the
    table plugin calls it, without a radix. `None` stands for the NaN result. */
module JsParseInt {
  import opened Wrappers
  import opened JsText

  /** Skips leading white space, takes one optional sign, switches to radix 16
      after a `0x`/`0X` prefix, and reads the longest run of digits that follows;
      no digits at all gives NaN. */
  function ParseInt(s: string): (r: Option<int>)
    ensures var t := TrimStart(s);
            (t == [] || (!IsDigit(t[0], 10) && t[0] != '-' && t[0] != '+')) ==> r.None?
  {
    ParseSignedInt(TrimStart(s))
  }

  function ParseSignedInt(t: string): Option<int>
  {
    if |t| > 0 && t[0] == '-' then
      (match ParseUnsignedInt(t[1..]) case None => None case Some(n) => Some(-(n as int)))
    else if |t| > 0 && t[0] == '+' then
      (match ParseUnsignedInt(t[1..]) case None => None case Some(n) => Some(n as int))
    else
      (match ParseUnsignedInt(t) case None => None case Some(n) => Some(n as int))
  }

  function ParseUnsignedInt(u: string): Option<nat>
  {
    if |u| >= 2 && u[0] == '0' && (u[1] == 'x' || u[1] == 'X') then DigitsOf(u[2..], 16)
    else DigitsOf(u, 10)
  }

  /** The value of the longest digit prefix, NaN when there is none. */
  function DigitsOf(v: string, radix: nat): Option<nat>
  {
    var ds := DigitRun(v, radix);
    if ds == [] then None else Some(DigitsValue(ds, radix))
  }

  /** An absent attribute is converted to the text "undefined", which holds no integer. */
  lemma ParseIntUndefined()
    ensures ParseInt("undefined") == None
  {
    TrimStartSkips([], "undefined");
    assert [] + "undefined" == "undefined";
  }

  lemma MinusSign(u: string, n: nat)
    requires ParseUnsignedInt(u) == Some(n)
    ensures ParseSignedInt("-" + u) == Some(-(n as int))
  {
    assert ("-" + u)[1..] == u;
  }

  /** The canonical decimal form of `n` followed by non-digit text. */
  lemma UnsignedDecimalPrefix(n: nat, junk: string)
    requires junk == [] || !('0' <= junk[0] <= '9')
    requires n > 0 || junk == [] || (junk[0] != 'x' && junk[0] != 'X')
    ensures ParseUnsignedInt(DecimalString(n) + junk) == Some(n)
  {
    var d := DecimalString(n);
    assert (d + junk)[0] == d[0];
    assert |d| == 1 ==> (d + junk)[1..] == junk;
    DigitRunOfPrefix(d, junk, 10);
    DecimalStringValue(n);
  }

  /** Unsigned digits after optional white space: `parseInt` reads the decimal
      prefix and ignores whatever non-digit text follows it, except an `x` or
      `X` right after a lone `0`, which makes the text hexadecimal. */
  lemma ParseIntDecimalPrefix(ws: string, n: nat, junk: string)
    requires forall i :: 0 <= i < |ws| ==> IsWhiteSpace(ws[i])
    requires junk == [] || !('0' <= junk[0] <= '9')
    requires n > 0 || junk == [] || (junk[0] != 'x' && junk[0] != 'X')
    ensures ParseInt(ws + DecimalString(n) + junk) == Some(n)
  {
    var d := DecimalString(n);
    var t := d + junk;
    assert ws + d + junk == ws + t;
    assert '0' <= t[0] <= '9';
    assert !IsWhiteSpace(t[0]);
    TrimStartSkips(ws, t);
    assert TrimStart(ws + t) == t;
    UnsignedDecimalPrefix(n, junk);
    assert ParseSignedInt(t) == Some(n);
  }

  /** The same with a minus sign in front of the digits: the value is negated. */
  lemma ParseIntNegativePrefix(ws: string, n: nat, junk: string)
    requires forall i :: 0 <= i < |ws| ==> IsWhiteSpace(ws[i])
    requires junk == [] || !('0' <= junk[0] <= '9')
    requires n > 0 || junk == [] || (junk[0] != 'x' && junk[0] != 'X')
    ensures ParseInt(ws + "-" + DecimalString(n) + junk) == Some(-(n as int))
  {
    var d := DecimalString(n);
    var t := "-" + (d + junk);
    assert ws + "-" + d + junk == ws + t;
    AfterBlanks(ws, t);
    UnsignedDecimalPrefix(n, junk);
    MinusSign(d + junk, n);
  }

  /** Decimal digits with leading zeros, an optional sign before them and
      optional white space before that: the value is the digits' value, negated
      after a minus sign (a lone `0` before `x` or `X` is hexadecimal text). */
  lemma ParseIntSignedPrefix(ws: string, sign: string, z: nat, n: nat, junk: string)
    requires forall i :: 0 <= i < |ws| ==> IsWhiteSpace(ws[i])
    requires sign == [] || sign == "+" || sign == "-"
    requires junk == [] || !('0' <= junk[0] <= '9')
    requires z > 0 || n > 0 || junk == [] || (junk[0] != 'x' && junk[0] != 'X')
    ensures ParseInt(ws + sign + Zeros(z) + DecimalString(n) + junk)
            == Some(if sign == "-" then -(n as int) else n as int)
  {
    var u := Zeros(z) + DecimalString(n) + junk;
    SignedTextSplit(ws, sign, Zeros(z), DecimalString(n), junk);
    UnsignedPaddedPrefix(z, n, junk);
    if sign == [] {
      UnsignedCase(ws, u, n);
    } else {
      SignedCase(ws, sign, u, n);
    }
  }

  lemma SignedTextSplit(ws: string, sign: string, zs: string, d: string, junk: string)
    requires |d| > 0 && '0' <= d[0] <= '9'
    requires forall i :: 0 <= i < |zs| ==> zs[i] == '0'
    ensures ws + sign + zs + d + junk == ws + (sign + (zs + d + junk))
    ensures sign == [] ==> ws + sign + zs + d + junk == ws + (zs + d + junk)
    ensures '0' <= (zs + d + junk)[0] <= '9'
  {
    assert (zs + d + junk)[0] == if zs == [] then d[0] else zs[0];
  }

  lemma UnsignedCase(ws: string, u: string, v: nat)
    requires forall i :: 0 <= i < |ws| ==> IsWhiteSpace(ws[i])
    requires |u| > 0 && '0' <= u[0] <= '9' && ParseUnsignedInt(u) == Some(v)
    ensures ParseInt(ws + u) == Some(v as int)
  {
    AfterBlanks(ws, u);
  }

  lemma SignedCase(ws: string, sign: string, u: string, v: nat)
    requires forall i :: 0 <= i < |ws| ==> IsWhiteSpace(ws[i])
    requires (sign == "+" || sign == "-") && ParseUnsignedInt(u) == Some(v)
    ensures ParseInt(ws + (sign + u)) == Some(if sign == "-" then -(v as int) else v as int)
  {
    AfterBlanks(ws, sign + u);
    if sign == "-" {
      MinusSign(u, v);
    } else {
      PlusSign(u, v);
    }
  }

  lemma PlusSign(u: string, n: nat)
    requires ParseUnsignedInt(u) == Some(n)
    ensures ParseSignedInt("+" + u) == Some(n as int)
  {
    assert ("+" + u)[1..] == u;
  }

  /** Leading zeros before the canonical digits of `n` do not change the value. */
  lemma UnsignedPaddedPrefix(z: nat, n: nat, junk: string)
    requires junk == [] || !('0' <= junk[0] <= '9')
    requires z > 0 || n > 0 || junk == [] || (junk[0] != 'x' && junk[0] != 'X')
    ensures ParseUnsignedInt(Zeros(z) + DecimalString(n) + junk) == Some(n)
  {
    var d := DecimalString(n);
    PaddedDigits(z, d);
    UnsignedDigits(Zeros(z) + d, junk);
    LeadingZeros(z, d, 10);
    DecimalStringValue(n);
  }

  lemma PaddedDigits(z: nat, d: string)
    requires |d| > 0 && forall i :: 0 <= i < |d| ==> '0' <= d[i] <= '9'
    ensures var ds := Zeros(z) + d;
            |ds| == z + |d| && ds[0] == (if z > 0 then '0' else d[0])
            && forall i :: 0 <= i < |ds| ==> IsDigit(ds[i], 10)
  {
  }

  /** A digit run followed by text that does not continue it, and that does not
      form a `0x` prefix: the value of the run. */
  lemma UnsignedDigits(ds: string, junk: string)
    requires |ds| > 0 && forall i :: 0 <= i < |ds| ==> IsDigit(ds[i], 10)
    requires junk == [] || !('0' <= junk[0] <= '9')
    requires |ds| >= 2 || ds[0] != '0' || junk == [] || (junk[0] != 'x' && junk[0] != 'X')
    ensures ParseUnsignedInt(ds + junk) == Some(DigitsValue(ds, 10))
  {
    var u := ds + junk;
    assert u[0] == ds[0];
    if |ds| >= 2 {
      assert u[1] == ds[1];
    } else {
      assert u[1..] == junk;
    }
    DigitRunOfPrefix(ds, junk, 10);
  }

  /** `parseInt` skips the white space before text that starts otherwise. */
  lemma AfterBlanks(ws: string, t: string)
    requires forall i :: 0 <= i < |ws| ==> IsWhiteSpace(ws[i])
    requires |t| > 0 && !IsWhiteSpace(t[0])
    ensures ParseInt(ws + t) == ParseSignedInt(t)
  {
    TrimStartSkips(ws, t);
  }

  /** A `0x` or `0X` prefix after optional white space and an optional `+`:
      the hexadecimal digits that follow are read in radix 16, up to the first
      character that is not one, and the value is NaN when there is none. */
  lemma ParseIntHexPrefix(ws: string, sign: string, x: char, hs: string, junk: string)
    requires forall i :: 0 <= i < |ws| ==> IsWhiteSpace(ws[i])
    requires sign == [] || sign == "+"
    requires x == 'x' || x == 'X'
    requires forall i :: 0 <= i < |hs| ==> IsDigit(hs[i], 16)
    requires junk == [] || !IsDigit(junk[0], 16)
    ensures ParseInt(ws + sign + ['0', x] + hs + junk) == if hs == [] then None else Some(DigitsValue(hs, 16))
  {
    var u := ['0', x] + (hs + junk);
    HexTextSplit(ws, sign, x, hs, junk);
    UnsignedHex(x, hs, junk);
    if hs == [] {
      SignedAfterBlanks(ws, sign, u);
    } else {
      HexSigned(ws, sign, u, DigitsValue(hs, 16));
    }
  }

  lemma HexSigned(ws: string, sign: string, u: string, v: nat)
    requires forall i :: 0 <= i < |ws| ==> IsWhiteSpace(ws[i])
    requires sign == [] || sign == "+"
    requires |u| > 0 && u[0] == '0' && ParseUnsignedInt(u) == Some(v)
    ensures ParseInt(ws + (sign + u)) == Some(v as int)
  {
    if sign == [] {
      assert sign + u == u;
      UnsignedCase(ws, u, v);
    } else {
      SignedCase(ws, sign, u, v);
    }
  }

  lemma SignedAfterBlanks(ws: string, sign: string, u: string)
    requires forall i :: 0 <= i < |ws| ==> IsWhiteSpace(ws[i])
    requires sign == [] || sign == "+" || sign == "-"
    requires |u| > 0 && '0' <= u[0] <= '9' && !IsWhiteSpace((sign + u)[0])
    ensures ParseInt(ws + (sign + u))
            == match ParseUnsignedInt(u) case None => None case Some(n) => Some(if sign == "-" then -(n as int) else n as int)
  {
    AfterBlanks(ws, sign + u);
    SignedDigitText(sign, u);
  }

  // Proof steps of ParseIntHexPrefix: how its text splits up, what the unsigned
  // part reads as, and what the sign does to it.
  lemma HexTextSplit(ws: string, sign: string, x: char, hs: string, junk: string)
    requires sign == [] || sign == "+" || sign == "-"
    ensures ws + sign + ['0', x] + hs + junk == ws + (sign + (['0', x] + (hs + junk)))
    ensures !IsWhiteSpace((sign + (['0', x] + (hs + junk)))[0])
    ensures |['0', x] + (hs + junk)| > 0 && (['0', x] + (hs + junk))[0] == '0'
  {
    assert (sign + (['0', x] + (hs + junk)))[0] == if sign == [] then '0' else sign[0];
  }

  lemma UnsignedHex(x: char, hs: string, junk: string)
    requires x == 'x' || x == 'X'
    requires forall i :: 0 <= i < |hs| ==> IsDigit(hs[i], 16)
    requires junk == [] || !IsDigit(junk[0], 16)
    ensures ParseUnsignedInt(['0', x] + (hs + junk)) == if hs == [] then None else Some(DigitsValue(hs, 16))
  {
    var u := ['0', x] + (hs + junk);
    assert u[0] == '0' && u[1] == x && u[2..] == hs + junk;
    if hs == [] {
      assert hs + junk == junk;
    } else {
      HexDigitsOf(hs, junk);
    }
  }

  lemma SignedDigitText(sign: string, u: string)
    requires sign == [] || sign == "+" || sign == "-"
    requires |u| > 0 && '0' <= u[0] <= '9'
    ensures ParseSignedInt(sign + u)
            == match ParseUnsignedInt(u)
               case None => None
               case Some(n) => Some(if sign == "-" then -(n as int) else n as int)
  {
    if sign == [] {
      assert sign + u == u;
    } else {
      assert (sign + u)[0] == sign[0] && (sign + u)[1..] == u;
    }
  }

  lemma HexDigitsOf(hs: string, junk: string)
    requires |hs| > 0 && forall i :: 0 <= i < |hs| ==> IsDigit(hs[i], 16)
    requires junk == [] || !IsDigit(junk[0], 16)
    ensures DigitsOf(hs + junk, 16) == Some(DigitsValue(hs, 16))
  {
    DigitRunOfPrefix(hs, junk, 16);
  }
}
