/** The cell span sanitiser of the table editing feature and the colspan /
    rowspan attribute conversion it plugs into: `upcastCellSpan( type )` gives,
    for a view table cell, the positive integer to store as the model's span
    attribute, or `null` so that no attribute is stored. */
module TableCellSpan {
  import opened Wrappers
  import opened JsText
  import opened JsParseInt
  import TableSchema
  import JsNumber

  /** A view element as the upcast sees it: its name and its attributes. */
  datatype ViewElement = ViewElement(name: string, attributes: map<string, string>)

  /** `element.getAttribute( key )`: the attribute's text, `None` for `undefined`. */
  function GetAttribute(e: ViewElement, key: string): Option<string>
  {
    if key in e.attributes then Some(e.attributes[key]) else None
  }


  /** `parseInt` of the raw attribute (an absent attribute reads as the string
      "undefined") followed by the NaN / non-positive check; `None` is `null`. */
  function SanitiseSpan(raw: Option<string>): (r: Option<int>)
    ensures r.Some? ==> r.value >= 1
    ensures raw.None? ==> r.None?
  {
    ParseIntUndefined();
    var span := ParseInt(if raw.Some? then raw.value else "undefined");
    if span.None? || span.value <= 0 then None else span
  }

  /** The conversion value function `upcastCellSpan( spanType )` applied to a cell. */
  function UpcastCellSpan(spanType: string, cell: ViewElement): (r: Option<int>)
    ensures r.Some? ==> r.value >= 1
    ensures spanType !in cell.attributes ==> r.None?
  {
    SanitiseSpan(GetAttribute(cell, spanType))
  }

  /** Reading an attribute gives the text last set under that key, `undefined`
      once the key is removed, and is unaffected by the other keys; so the span
      upcast for a key is the sanitised text under that key alone. */
  lemma AttributeReadBack(e: ViewElement, key: string, other: string, text: string)
    requires other != key
    ensures GetAttribute(e.(attributes := e.attributes[key := text]), key) == Some(text)
    ensures GetAttribute(e.(attributes := e.attributes - {key}), key) == None
    ensures GetAttribute(e.(attributes := e.attributes[key := text]), other) == GetAttribute(e, other)
    ensures GetAttribute(e.(attributes := e.attributes - {key}), other) == GetAttribute(e, other)
    ensures UpcastCellSpan(key, e.(attributes := e.attributes[key := text])) == SanitiseSpan(Some(text))
    ensures UpcastCellSpan(key, e.(attributes := e.attributes - {key})) == None
    ensures UpcastCellSpan(other, e.(attributes := e.attributes[key := text])) == UpcastCellSpan(other, e)
  {
  }

  /** Colspan and rowspan go through the same sanitiser: two cells whose colspan
      and rowspan texts agree get equal results. */
  lemma SpanTypesShareSanitiser(c1: ViewElement, c2: ViewElement)
    requires GetAttribute(c1, "colspan") == GetAttribute(c2, "rowspan")
    ensures UpcastCellSpan("colspan", c1) == UpcastCellSpan("rowspan", c2)
  {
  }

  /** Text whose first non-blank character, after at most one sign, is not a
      digit holds no leading integer (`"abc"`, `"-"`, `"+px"`), and is rejected. */
  lemma NoLeadingIntegerRejected(s: string)
    requires var t := TrimStart(s);
             var u := if |t| > 0 && (t[0] == '-' || t[0] == '+') then t[1..] else t;
             u == [] || !('0' <= u[0] <= '9')
    ensures SanitiseSpan(Some(s)) == None
  {
    var t := TrimStart(s);
    if |t| > 0 && (t[0] == '-' || t[0] == '+') {
      NoDigitRun(t[1..]);
    }
  }

  /** A sign with no digit after it (`"-"`, `"+px"`) holds no integer either,
      and is rejected. */
  lemma SignedNoDigitRejected(ws: string, sign: char, rest: string)
    requires forall i :: 0 <= i < |ws| ==> IsWhiteSpace(ws[i])
    requires sign == '-' || sign == '+'
    requires rest == [] || !('0' <= rest[0] <= '9')
    ensures SanitiseSpan(Some(ws + [sign] + rest)) == None
  {
    var t := [sign] + rest;
    assert t[0] == sign && t[1..] == rest;
    assert ws + [sign] + rest == ws + t;
    AfterBlanks(ws, t);
    NoDigitRun(rest);
  }

  lemma NoDigitRun(u: string)
    requires u == [] || !('0' <= u[0] <= '9')
    ensures ParseUnsignedInt(u) == None
  {
  }

  /** A minus sign after the blanks makes the span `null` whatever follows it:
      the parsed value is NaN, zero or negative. */
  lemma NegativeSpanRejected(ws: string, rest: string)
    requires forall i :: 0 <= i < |ws| ==> IsWhiteSpace(ws[i])
    ensures SanitiseSpan(Some(ws + "-" + rest)) == None
  {
    var t := "-" + rest;
    assert t[0] == '-' && t[1..] == rest;
    assert ws + "-" + rest == ws + t;
    AfterBlanks(ws, t);
  }

  /** Digits that are all zeros, with or without a sign, before non-digit text
      parse as 0, which is rejected; an `x` right after a lone `0` starts
      hexadecimal text instead (`HexadecimalSpan`). */
  lemma ZeroSpanRejected(ws: string, sign: string, z: nat, junk: string)
    requires forall i :: 0 <= i < |ws| ==> IsWhiteSpace(ws[i])
    requires sign == [] || sign == "+" || sign == "-"
    requires junk == [] || !('0' <= junk[0] <= '9')
    requires z > 0 || junk == [] || (junk[0] != 'x' && junk[0] != 'X')
    ensures SanitiseSpan(Some(ws + sign + Zeros(z) + "0" + junk)) == None
  {
    ZeroDigitText(ws + sign + Zeros(z), junk);
    ParseIntSignedPrefix(ws, sign, z, 0, junk);
  }

  // ZeroSpanRejected: the zero digit as the canonical text of 0.
  lemma ZeroDigitText(p: string, junk: string)
    ensures p + "0" + junk == p + DecimalString(0) + junk
  {
  }

  /** A positive decimal prefix, after optional blanks, an optional `+` and
      leading zeros, and before non-digit text (`"3px"`, `"+03"`), yields the
      prefix's value. */
  lemma PositivePrefixAccepted(ws: string, sign: string, z: nat, n: nat, junk: string)
    requires n >= 1
    requires forall i :: 0 <= i < |ws| ==> IsWhiteSpace(ws[i])
    requires sign == [] || sign == "+"
    requires junk == [] || !('0' <= junk[0] <= '9')
    ensures SanitiseSpan(Some(ws + sign + Zeros(z) + DecimalString(n) + junk)) == Some(n)
  {
    ParseIntSignedPrefix(ws, sign, z, n, junk);
  }

  /** The canonical decimal text of a positive span reads back as that span. */
  lemma CanonicalSpanRoundTrip(n: nat)
    requires n >= 1
    ensures SanitiseSpan(Some(DecimalString(n))) == Some(n)
  {
    NonNegativeTextReadsBack(n);
  }

  /** Worked case: a zero span. */
  lemma ZeroExample()
    ensures SanitiseSpan(Some("0")) == None
  {
    ZeroText();
    ZeroSpanRejected([], [], 0, []);
  }

  /** Worked case: a negative span. */
  lemma NegativeExample()
    ensures SanitiseSpan(Some("-2")) == None
  {
    NegativeText();
    NegativeSpanRejected([], "2");
  }

  /** Worked case: a unit suffix is ignored. */
  lemma UnitSuffixExample()
    ensures SanitiseSpan(Some("3px")) == Some(3)
  {
    UnitSuffixText();
    PositivePrefixAccepted([], [], 0, 3, "px");
  }

  /** Worked case: leading blanks are ignored. */
  lemma LeadingBlankExample()
    ensures SanitiseSpan(Some(" 2")) == Some(2)
  {
    LeadingBlankText();
    PositivePrefixAccepted(" ", [], 0, 2, []);
  }

  /** Worked case: a plus sign and a leading zero are ignored. */
  lemma PaddedSpanExample()
    ensures SanitiseSpan(Some("+03px")) == Some(3)
  {
    PaddedSpanText();
    PositivePrefixAccepted([], "+", 1, 3, "px");
  }

  /** `parseInt` without a radix reads a `0x` prefix, after blanks and an
      optional `+`, as hexadecimal: the span is the value of the hexadecimal
      digits when there are some and that value is positive, and `null` when
      there are none (`"0x"`, `"0xg"`) or the value is 0. */
  lemma HexadecimalSpan(ws: string, sign: string, x: char, hs: string, junk: string)
    requires forall i :: 0 <= i < |ws| ==> IsWhiteSpace(ws[i])
    requires sign == [] || sign == "+"
    requires x == 'x' || x == 'X'
    requires forall i :: 0 <= i < |hs| ==> IsDigit(hs[i], 16)
    requires junk == [] || !IsDigit(junk[0], 16)
    ensures SanitiseSpan(Some(ws + sign + ['0', x] + hs + junk))
            == if hs != [] && DigitsValue(hs, 16) > 0 then Some(DigitsValue(hs, 16)) else None
  {
    ParseIntHexPrefix(ws, sign, x, hs, junk);
  }

  /** Worked case: a span written "0x10" is stored as 16. */
  lemma HexadecimalExample()
    ensures SanitiseSpan(Some("0x10")) == Some(16)
  {
    HexadecimalText();
    HexadecimalSpan([], [], 'x', "10", []);
  }

  /** Worked case: a `+` before the `0x` is skipped, so "+0x10" is stored as 16. */
  lemma SignedHexadecimalExample()
    ensures SanitiseSpan(Some("+0x10")) == Some(16)
  {
    HexadecimalText();
    SignedHexadecimalText();
    HexadecimalSpan([], "+", 'x', "10", []);
  }

  /** Worked case: "0xg" has no hexadecimal digit, so it gives `null`. */
  lemma EmptyHexadecimalExample()
    ensures SanitiseSpan(Some("0xg")) == None
  {
    EmptyHexadecimalText();
    HexadecimalSpan([], [], 'x', [], "g");
  }

  // The lemmas below only restate a sequence concatenation or a literal, so that
  // the proofs above that use them stay small and stable; each names the goal
  // it serves.

  // NonNegativeTextReadsBack: the text without blanks or junk.
  lemma NoPadding(d: string)
    ensures [] + d + [] == d
  {
  }

  // NegativeTextReadsBack: the same after a minus.
  lemma SignPadding(d: string)
    ensures [] + "-" + d + [] == "-" + d
  {
  }

  // ZeroExample: "0" as the text ZeroSpanRejected describes.
  lemma ZeroText()
    ensures [] + [] + Zeros(0) + "0" + [] == "0"
  {
  }

  // NegativeExample: "-2" as the text NegativeSpanRejected describes.
  lemma NegativeText()
    ensures [] + "-" + "2" == "-2"
  {
  }

  // UnitSuffixExample: "3px" as the text PositivePrefixAccepted describes.
  lemma UnitSuffixText()
    ensures [] + [] + Zeros(0) + DecimalString(3) + "px" == "3px"
  {
    assert DecimalString(3) == "3";
  }

  // LeadingBlankExample: " 2" likewise.
  lemma LeadingBlankText()
    ensures " " + [] + Zeros(0) + DecimalString(2) + [] == " 2"
  {
    assert DecimalString(2) == "2";
  }

  // PaddedSpanExample: "+03px" likewise.
  lemma PaddedSpanText()
    ensures [] + "+" + Zeros(1) + DecimalString(3) + "px" == "+03px"
  {
    assert DecimalString(3) == "3";
    assert Zeros(1) == "0";
  }

  // HexadecimalExample and SignedHexadecimalExample: the digits "10" and their value.
  lemma HexadecimalText()
    ensures IsDigit("10"[0], 16) && IsDigit("10"[1], 16)
    ensures DigitsValue("10", 16) == 16
    ensures [] + [] + ['0', 'x'] + "10" + [] == "0x10"
  {
    assert "10"[..1] == "1";
    assert "1"[..0] == [];
  }

  // SignedHexadecimalExample: "+0x10" as the text HexadecimalSpan describes.
  lemma SignedHexadecimalText()
    ensures [] + "+" + ['0', 'x'] + "10" + [] == "+0x10"
  {
  }

  // EmptyHexadecimalExample: "0xg" likewise, with no hexadecimal digit.
  lemma EmptyHexadecimalText()
    ensures [] + [] + ['0', 'x'] + [] + "g" == "0xg"
    ensures !IsDigit('g', 16)
  {
  }

  /** The span attribute keys of a table cell. */
  const SpanKeys: set<string> := {"colspan", "rowspan"}

  /** The model attributes an upcast table cell receives from its view element:
      each span key whose sanitised value is not `null`. */
  function UpcastCellAttributes(cell: ViewElement): (attrs: map<string, int>)
    ensures attrs.Keys <= SpanKeys
    ensures forall k :: k in attrs ==> attrs[k] >= 1
    ensures forall k :: k in SpanKeys && k !in cell.attributes ==> k !in attrs
    ensures forall k :: k in SpanKeys ==>
              (k in attrs <==> UpcastCellSpan(k, cell).Some?) &&
              (k in attrs ==> attrs[k] == UpcastCellSpan(k, cell).value)
  {
    var col := UpcastCellSpan("colspan", cell);
    var row := UpcastCellSpan("rowspan", cell);
    SpanMap(col, row)
  }

  /** The model attributes for a sanitised colspan and rowspan. */
  function SpanMap(col: Option<int>, row: Option<int>): (attrs: map<string, int>)
    ensures attrs.Keys <= SpanKeys
    ensures "colspan" in attrs <==> col.Some?
    ensures "rowspan" in attrs <==> row.Some?
    ensures col.Some? ==> attrs["colspan"] == col.value
    ensures row.Some? ==> attrs["rowspan"] == row.value
  {
    (if col.Some? then map["colspan" := col.value] else map[])
      + (if row.Some? then map["rowspan" := row.value] else map[])
  }

  /** `String( value )` of an integer model value: JavaScript's number-to-string
      conversion, which writes an integer of up to 21 digits in plain decimal
      and `parseInt` reads back as that value. */
  function IntString(i: int): (r: string)
    ensures var n: nat := if i < 0 then -i else i;
            JsNumber.PlainInteger(n) ==> ParseInt(r) == Some(i)
  {
    var n: nat := if i < 0 then -i else i;
    PlainIntegerReadsBack(i < 0, n);
    JsNumber.NumberToString(JsNumber.MakeFinite(i < 0, n, 0))
  }

  /** The number `±n` written by `String` reads back as `±n`, for a plain integer. */
  lemma PlainIntegerReadsBack(negative: bool, n: nat)
    ensures JsNumber.PlainInteger(n) ==>
              ParseInt(JsNumber.NumberToString(JsNumber.MakeFinite(negative, n, 0)))
              == Some(if negative then -(n as int) else n as int)
  {
    if n == 0 {
      ZeroNumberText(negative);
      NonNegativeTextReadsBack(0);
    } else if JsNumber.PlainInteger(n) {
      JsNumber.IntegerToString(negative, n);
      if negative {
        NegativeTextReadsBack(n);
      } else {
        NonNegativeTextReadsBack(n);
      }
    }
  }

  lemma ZeroNumberText(negative: bool)
    ensures JsNumber.NumberToString(JsNumber.MakeFinite(negative, 0, 0)) == DecimalString(0)
  {
  }

  lemma NonNegativeTextReadsBack(n: nat)
    ensures ParseInt(DecimalString(n)) == Some(n)
  {
    NoPadding(DecimalString(n));
    ParseIntDecimalPrefix([], n, []);
  }

  lemma NegativeTextReadsBack(n: nat)
    ensures ParseInt("-" + DecimalString(n)) == Some(-(n as int))
  {
    SignPadding(DecimalString(n));
    ParseIntNegativePrefix([], n, []);
  }

  /** The view attributes the downcast writes for a cell's span attributes. */
  function DowncastCellAttributes(attrs: map<string, int>): (view: map<string, string>)
    ensures view.Keys == attrs.Keys * SpanKeys
  {
    map k | k in attrs && k in SpanKeys :: IntString(attrs[k])
  }

  /** Span attributes that satisfy the schema and have at most 21 digits survive
      a downcast followed by an upcast unchanged. */
  lemma SpanAttributesRoundTrip(attrs: map<string, int>, name: string)
    requires attrs.Keys <= SpanKeys
    requires forall k :: k in attrs ==> attrs[k] >= 1 && JsNumber.PlainInteger(attrs[k])
    ensures UpcastCellAttributes(ViewElement(name, DowncastCellAttributes(attrs))) == attrs
  {
    SpanOfDowncast(attrs, name, "colspan");
    SpanOfDowncast(attrs, name, "rowspan");
    SpanMapOfAttributes(attrs);
  }

  /** The span map of an attribute map's own spans is that map. */
  lemma SpanMapOfAttributes(attrs: map<string, int>)
    requires attrs.Keys <= SpanKeys
    ensures SpanMap(if "colspan" in attrs then Some(attrs["colspan"]) else None,
                    if "rowspan" in attrs then Some(attrs["rowspan"]) else None) == attrs
  {
  }

  /** One span attribute after a downcast reads back as the model value. */
  lemma SpanOfDowncast(attrs: map<string, int>, name: string, k: string)
    requires k in SpanKeys
    requires forall k :: k in attrs ==> attrs[k] >= 1 && JsNumber.PlainInteger(attrs[k])
    ensures UpcastCellSpan(k, ViewElement(name, DowncastCellAttributes(attrs)))
            == if k in attrs then Some(attrs[k]) else None
  {
  }

  /** Upcasting is stable for spans of up to 21 digits: a cell's sanitised spans,
      written back to the view and upcast again, stay the same. */
  lemma UpcastStable(cell: ViewElement)
    requires forall k :: k in UpcastCellAttributes(cell) ==> JsNumber.PlainInteger(UpcastCellAttributes(cell)[k])
    ensures var attrs := UpcastCellAttributes(cell);
            UpcastCellAttributes(ViewElement(cell.name, DowncastCellAttributes(attrs))) == attrs
  {
    SpanAttributesRoundTrip(UpcastCellAttributes(cell), cell.name);
  }

  /** From 10^21 on, the round trip breaks: a colspan written as 1 followed by
      `j` zeros is stored as 10^j, the downcast writes it as `1e+j`, and the
      next upcast reads only the leading `1`. The bound 308 keeps 10^j below
      the largest binary64 number, beyond which JavaScript reads Infinity. */
  lemma LargeSpanNotRestored(name: string, j: nat)
    requires 21 <= j <= 308
    ensures var cell := ViewElement(name, map["colspan" := "1" + Zeros(j)]);
            var attrs := UpcastCellAttributes(cell);
            attrs == map["colspan" := Pow(10, j)] &&
            UpcastCellAttributes(ViewElement(name, DowncastCellAttributes(attrs))) == map["colspan" := 1]
  {
    var p := Pow(10, j);
    LargeSpanUpcast(name, j);
    var view := DowncastCellAttributes(map["colspan" := p]);
    JsNumber.ExponentialPowerOfTen(j);
    SingleSpanDowncast(p, DecimalString(1) + JsNumber.ExponentSuffix(j));
    ExponentTextReadsOne(JsNumber.ExponentSuffix(j));
    SingleSpanUpcast(name, DecimalString(1) + JsNumber.ExponentSuffix(j), 1);
  }

  /** A colspan written as 1 followed by `j` zeros upcasts to 10^j. */
  lemma LargeSpanUpcast(name: string, j: nat)
    ensures UpcastCellAttributes(ViewElement(name, map["colspan" := "1" + Zeros(j)])) == map["colspan" := Pow(10, j)]
  {
    PowPositive(j);
    LargeSpanText(j);
    CanonicalSpanRoundTrip(Pow(10, j));
    SingleSpanUpcast(name, "1" + Zeros(j), Pow(10, j));
  }

  lemma PowPositive(j: nat)
    ensures Pow(10, j) >= 1
  {
    if j >= 1 {
      PowAtLeastTen(j);
    }
  }

  lemma SingleSpanUpcast(name: string, text: string, v: int)
    requires SanitiseSpan(Some(text)) == Some(v)
    ensures UpcastCellAttributes(ViewElement(name, map["colspan" := text])) == map["colspan" := v]
  {
    var cell := ViewElement(name, map["colspan" := text]);
    assert GetAttribute(cell, "colspan") == Some(text);
    assert GetAttribute(cell, "rowspan") == None;
  }

  lemma SingleSpanDowncast(v: int, text: string)
    requires IntString(v) == text
    ensures DowncastCellAttributes(map["colspan" := v]) == map["colspan" := text]
  {
  }

  lemma LargeSpanText(j: nat)
    ensures DecimalString(Pow(10, j)) == "1" + Zeros(j)
  {
    DecimalStringShift(1, j);
    assert 1 * Pow(10, j) == Pow(10, j);
    assert DecimalString(1) == "1";
  }

  lemma ExponentTextReadsOne(e: string)
    requires |e| > 0 && e[0] == 'e'
    ensures SanitiseSpan(Some(DecimalString(1) + e)) == Some(1)
  {
    assert [] + DecimalString(1) + e == DecimalString(1) + e;
    ParseIntDecimalPrefix([], 1, e);
  }

  /** The attributes an upcast gives a cell are the ones the schema allows on a
      `tableCell`, so an upcast cell without children is a valid model element. */
  lemma UpcastCellFitsSchema(cell: ViewElement)
    ensures forall k :: k in UpcastCellAttributes(cell) ==> TableSchema.AllowsAttribute(TableSchema.TableCell, k)
    ensures TableSchema.Valid(TableSchema.Element(TableSchema.TableCell, UpcastCellAttributes(cell).Keys, []))
  {
    forall k | k in UpcastCellAttributes(cell)
      ensures TableSchema.AllowsAttribute(TableSchema.TableCell, k)
    {
      TableSchema.TableAttributes(k);
    }
  }
}
