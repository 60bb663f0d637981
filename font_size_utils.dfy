/** Normalisation of the font-size feature's configured options: every entry
    of the configuration list (an object, a preset name, 'normal', a number or a
    numeric string) becomes a font-size option record, and entries that cannot
    be read are dropped, keeping the order of the rest. */
module FontSizeUtils {
  import opened Wrappers
  import opened JsNumber
  import opened JsText

  /** The `view` part of an option: an element name with a class or with styles. */
  datatype ViewDefinition = ViewDefinition(name: string, className: Option<string>, style: map<string, string>)

  /** JavaScript objects a configuration list can hold: option records (`title`,
      `model`, `view`, each possibly absent), `Object.prototype`, and any other
      object, known only by its identity. */
  datatype JsObject =
    | FontSizeOption(title: Option<string>, model: Option<string>, view: Option<ViewDefinition>)
    | ObjectPrototype
    | OtherObject(id: nat)

  /** The JavaScript values a configuration list can hold; a function is known
      by its source text (what `String( f )` gives). Symbols are not modelled. */
  datatype Value =
    | Undefined
    | Null
    | Bool(b: bool)
    | Num(n: JsNumber)
    | Str(s: string)
    | Obj(o: JsObject)
    | Func(source: string)

  /** The `typeof` operator (ECMA-262, section 13.5.3): `null` is reported as
      "object" and a function as "function". */
  function TypeOf(v: Value): string
  {
    match v
    case Undefined => "undefined"
    case Null => "object"
    case Bool(_) => "boolean"
    case Num(_) => "number"
    case Str(_) => "string"
    case Obj(_) => "object"
    case Func(_) => "function"
  }

  /** `typeof value === 'object'`, which holds for `null` too. */
  predicate IsObjectType(v: Value)
    ensures IsObjectType(v) <==> TypeOf(v) == "object"
  {
    v.Obj? || v.Null?
  }

  /** The property key `String( value )` a primitive or function is looked up by. */
  function ToPropertyKey(v: Value): string
  {
    match v
    case Undefined => "undefined"
    case Null => "null"
    case Bool(b) => if b then "true" else "false"
    case Num(n) => NumberToString(n)
    case Str(s) => s
    case Obj(_) => "[object Object]"
    case Func(source) => source
  }

  /** What a property key holds: a string is its own key; the key of a number
      is text that `parseFloat` reads back as that number (−0 as +0); the keys
      of `undefined`, `null` and the booleans hold no number. */
  lemma PropertyKeyText(v: Value)
    ensures v.Str? ==> ToPropertyKey(v) == v.s
    ensures v.Num? ==> ParseFloat(ToPropertyKey(v)) == if v.n.Finite? && v.n.mantissa == 0 then Finite(false, 0, 0) else v.n
    ensures v.Undefined? || v.Null? || v.Bool? ==> ParseFloat(ToPropertyKey(v)).NaN?
  {
    match v
    case Num(n) => ToStringRoundTrip(n);
    case Undefined => KeywordKeysAreNaN();
    case Bool(_) => KeywordKeysAreNaN();
    case Null => LowerCaseStartIsNaN("null");
    case _ =>
  }

  /** `!!value`, where `None` is the `undefined` a function returns by falling
      off its end (ToBoolean, ECMA-262, section 7.1.2). Of the values of type
      'object' only `null` is falsy; every function is truthy. */
  predicate Truthy(r: Option<Value>)
    ensures r.Some? && IsObjectType(r.value) ==> (Truthy(r) <==> r.value.Obj?)
    ensures r.Some? && r.value.Func? ==> Truthy(r)
    ensures r.None? || r == Some(Undefined) ==> !Truthy(r)
  {
    match r
    case None => false
    case Some(v) =>
      match v
      case Undefined => false
      case Null => false
      case Bool(b) => b
      case Num(n) => !(n.NaN? || (n.Finite? && n.mantissa == 0))
      case Str(s) => s != ""
      case Obj(_) => true
      case Func(_) => true
  }

  /** The default named presets. */
  const NamedPresets: map<string, JsObject> := map[
    "tiny" := FontSizeOption(Some("Tiny"), Some("text-tiny"), Some(ViewDefinition("span", Some("text-tiny"), map[]))),
    "small" := FontSizeOption(Some("Small"), Some("text-small"), Some(ViewDefinition("span", Some("text-small"), map[]))),
    "big" := FontSizeOption(Some("Big"), Some("text-big"), Some(ViewDefinition("span", Some("text-big"), map[]))),
    "huge" := FontSizeOption(Some("Huge"), Some("text-huge"), Some(ViewDefinition("span", Some("text-huge"), map[])))
  ]

  /** The record for 'normal': no model value, title "Normal", no view. */
  const NormalOption: JsObject := FontSizeOption(Some("Normal"), None, None)

  /** The option generated for a size in pixels: titled and keyed by the size's
      text, and viewed as a `span` styled with that many pixels. */
  function GeneratePixelPreset(size: JsNumber): (o: JsObject)
    ensures o.FontSizeOption? && o.view.Some? && o.view.value.name == "span"
    ensures o.model.Some? && o.title == o.model && o.model.value == NumberToString(size)
    ensures o.view.value.className.None? && o.view.value.style.Keys == {"font-size"}
    ensures o.view.value.style["font-size"] == o.model.value + "px"
  {
    var sizeName := NumberToString(size);
    FontSizeOption(Some(sizeName), Some(sizeName),
                   Some(ViewDefinition("span", None, map["font-size" := NumberToString(size) + "px"])))
  }

  /** The definition of one configured option: an object (and `null`) is
      returned as it is; a named preset is looked up among the presets' own
      keys; 'normal' gets its record; anything else is read with `parseFloat`
      and becomes a pixel preset, or `undefined` when that is NaN. */
  function GetOptionDefinition(option: Value): (r: Option<Value>)
    ensures r.Some? ==> IsObjectType(r.value)
    ensures IsObjectType(option) ==> r == Some(option)
  {
    if IsObjectType(option) then Some(option) else PrimitiveDefinition(option, ToPropertyKey(option))
  }

  /** The cascade for a value that is not of type 'object', looked up by its key. */
  function PrimitiveDefinition(option: Value, key: string): (r: Option<Value>)
    ensures r.Some? ==> r.value.Obj?
  {
    if key in NamedPresets then Some(Obj(NamedPresets[key]))
    else if option == Str("normal") then Some(Obj(NormalOption))
    else
      var sizePreset := ParseFloat(key);
      if sizePreset.NaN? then None else Some(Obj(GeneratePixelPreset(sizePreset)))
  }

  /** `configuredOptions.map( getOptionDefinition )`. */
  function Definitions(options: seq<Value>): (rs: seq<Option<Value>>)
    ensures |rs| == |options|
    ensures forall i :: 0 <= i < |options| ==> rs[i] == GetOptionDefinition(options[i])
  {
    seq(|options|, i requires 0 <= i < |options| => GetOptionDefinition(options[i]))
  }

  /** `.filter( option => !!option )`. */
  function KeepTruthy(rs: seq<Option<Value>>): (r: seq<Value>)
    ensures |r| <= |rs|
    ensures forall j :: 0 <= j < |r| ==> Some(r[j]) in rs && Truthy(Some(r[j]))
  {
    if rs == [] then []
    else (if Truthy(rs[0]) then [rs[0].value] else []) + KeepTruthy(rs[1..])
  }

  /** The normalised options: the truthy definitions, in configuration order. */
  function NormalizeOptions(configuredOptions: seq<Value>): (r: seq<Value>)
    ensures |r| <= |configuredOptions|
    ensures forall j :: 0 <= j < |r| ==> r[j].Obj?
  {
    KeepTruthy(Definitions(configuredOptions))
  }

  /** Every normalised option is the definition of some configured option. */
  lemma NormalizedOptionsAreDefinitions(configuredOptions: seq<Value>)
    ensures var r := NormalizeOptions(configuredOptions);
            forall j :: 0 <= j < |r| ==>
              exists i :: 0 <= i < |configuredOptions| && GetOptionDefinition(configuredOptions[i]) == Some(r[j])
  {
    var rs := Definitions(configuredOptions);
    var r := KeepTruthy(rs);
    assert forall j :: 0 <= j < |r| ==> exists i :: 0 <= i < |rs| && rs[i] == Some(r[j]);
  }

  /** An option is kept when its definition is truthy. */
  predicate Kept(option: Value)
  {
    Truthy(GetOptionDefinition(option))
  }

  lemma {:induction false} KeepTruthyAppend(x: seq<Option<Value>>, y: seq<Option<Value>>)
    ensures KeepTruthy(x + y) == KeepTruthy(x) + KeepTruthy(y)
  {
    if x != [] {
      assert (x + y)[0] == x[0];
      assert (x + y)[1..] == x[1..] + y;
      KeepTruthyAppend(x[1..], y);
    } else {
      assert x + y == y;
    }
  }

  /** Normalisation works entry by entry: normalising a concatenation is
      concatenating the normalised parts, so the output keeps the input order. */
  lemma NormalizeOptionsAppend(a: seq<Value>, b: seq<Value>)
    ensures NormalizeOptions(a + b) == NormalizeOptions(a) + NormalizeOptions(b)
  {
    DefinitionsAppend(a, b);
    KeepTruthyAppend(Definitions(a), Definitions(b));
  }

  lemma DefinitionsAppend(a: seq<Value>, b: seq<Value>)
    ensures Definitions(a + b) == Definitions(a) + Definitions(b)
  {
    var da, db, dab := Definitions(a), Definitions(b), Definitions(a + b);
    forall i | 0 <= i < |dab|
      ensures dab[i] == (da + db)[i]
    {
      if i < |a| {
        assert (a + b)[i] == a[i];
      } else {
        assert (a + b)[i] == b[i - |a|];
      }
    }
  }

  /** One entry gives its definition when that is truthy and nothing otherwise. */
  lemma NormalizeOptionsSingle(option: Value)
    ensures NormalizeOptions([option]) == if Kept(option) then [GetOptionDefinition(option).value] else []
  {
    var rs := Definitions([option]);
    assert rs[1..] == [];
  }

  /** Which entries survive: every object, and a non-object exactly when it
      names a preset, is 'normal', or starts with a number `parseFloat` can read.
      `null`, although of type 'object', is filtered out. */
  lemma KeptClassification(option: Value)
    ensures Kept(option) <==>
              option.Obj?
              || (!IsObjectType(option)
                  && (ToPropertyKey(option) in NamedPresets || option == Str("normal")
                      || !ParseFloat(ToPropertyKey(option)).NaN?))
  {
    if !IsObjectType(option) {
      PrimitiveKept(option, ToPropertyKey(option));
    }
  }

  lemma PrimitiveKept(option: Value, key: string)
    ensures Truthy(PrimitiveDefinition(option, key)) <==>
              key in NamedPresets || option == Str("normal") || !ParseFloat(key).NaN?
  {
  }

  /** An object entry is passed through unchanged and kept. */
  lemma ObjectPassesThrough(o: JsObject)
    ensures GetOptionDefinition(Obj(o)) == Some(Obj(o))
    ensures NormalizeOptions([Obj(o)]) == [Obj(o)]
  {
    NormalizeOptionsSingle(Obj(o));
  }

  /** `undefined`, `null` and the booleans never make an option. */
  lemma NonOptionValuesDropped(v: Value)
    requires v.Undefined? || v.Null? || v.Bool?
    ensures NormalizeOptions([v]) == []
  {
    if v.Null? {
      NormalizeOptionsSingle(v);
    } else {
      if v.Undefined? {
        UndefinedKeyIsNaN(v);
      } else {
        BooleanKeyIsNaN(v);
      }
      KeywordKeyIsNoPreset(v);
      UnreadableDropped(v);
    }
  }

  lemma KeywordKeysAreNaN()
    ensures ParseFloat("undefined").NaN? && ParseFloat("true").NaN? && ParseFloat("false").NaN?
  {
    LowerCaseStartIsNaN("undefined");
    LowerCaseStartIsNaN("true");
    LowerCaseStartIsNaN("false");
  }

  lemma UndefinedKeyIsNaN(v: Value)
    requires v.Undefined?
    ensures ParseFloat(ToPropertyKey(v)).NaN?
  {
    KeywordKeysAreNaN();
  }

  lemma BooleanKeyIsNaN(v: Value)
    requires v.Bool?
    ensures ParseFloat(ToPropertyKey(v)).NaN?
  {
    KeywordKeysAreNaN();
  }

  lemma KeywordKeyIsNoPreset(v: Value)
    requires v.Undefined? || v.Bool?
    ensures ToPropertyKey(v) !in NamedPresets
  {
  }

  /** A non-object whose text is no preset name, is not 'normal' and holds no
      number is dropped. */
  lemma UnreadableDropped(option: Value)
    requires !IsObjectType(option)
    requires var key := ToPropertyKey(option);
             key !in NamedPresets && option != Str("normal") && ParseFloat(key).NaN?
    ensures GetOptionDefinition(option) == None
    ensures NormalizeOptions([option]) == []
  {
    PrimitiveDropped(option, ToPropertyKey(option));
    NormalizeOptionsSingle(option);
  }

  lemma PrimitiveDropped(option: Value, key: string)
    requires key !in NamedPresets && option != Str("normal") && ParseFloat(key).NaN?
    ensures PrimitiveDefinition(option, key) == None
  {
  }

  function UpperCase(c: char): char
  {
    if 'a' <= c <= 'z' then (c as int - 'a' as int + 'A' as int) as char else c
  }

  /** A name with its first letter in upper case. */
  function Capitalised(name: string): (r: string)
    requires |name| > 0
    ensures |r| == |name| && r[1..] == name[1..]
  {
    [UpperCase(name[0])] + name[1..]
  }

  /** Each named preset has the capitalised name as title, `text-<name>` as
      model value, and a `span` with class `text-<name>` as view. */
  lemma NamedPresetShape(name: string)
    requires name in NamedPresets
    ensures NamedPresets[name]
            == FontSizeOption(Some(Capitalised(name)), Some("text-" + name),
                              Some(ViewDefinition("span", Some("text-" + name), map[])))
  {
    if name == "tiny" {
      assert Capitalised(name) == [UpperCase('t')] + "iny" == "Tiny";
      assert "text-" + name == "text-tiny";
    } else if name == "small" {
      assert Capitalised(name) == [UpperCase('s')] + "mall" == "Small";
      assert "text-" + name == "text-small";
    } else if name == "big" {
      assert Capitalised(name) == [UpperCase('b')] + "ig" == "Big";
      assert "text-" + name == "text-big";
    } else {
      assert Capitalised(name) == [UpperCase('h')] + "uge" == "Huge";
      assert "text-" + name == "text-huge";
    }
  }

  /** The preset and 'normal' checks come before numeric parsing, which would
      otherwise drop these names: none of them holds a number. */
  lemma PresetsPrecedeNumericParsing(s: string)
    requires s in NamedPresets || s == "normal"
    ensures ParseFloat(s).NaN?
    ensures GetOptionDefinition(Str(s)) == Some(Obj(if s in NamedPresets then NamedPresets[s] else NormalOption))
    ensures NormalizeOptions([Str(s)]) == [Obj(if s in NamedPresets then NamedPresets[s] else NormalOption)]
  {
    PresetNameIsNaN(s);
    PresetDefinition(s);
    SingleObjectKept(Str(s), if s in NamedPresets then NamedPresets[s] else NormalOption);
  }

  lemma SingleObjectKept(option: Value, o: JsObject)
    requires GetOptionDefinition(option) == Some(Obj(o))
    ensures NormalizeOptions([option]) == [Obj(o)]
  {
    NormalizeOptionsSingle(option);
  }

  lemma PresetDefinition(s: string)
    requires s in NamedPresets || s == "normal"
    ensures GetOptionDefinition(Str(s)) == Some(Obj(if s in NamedPresets then NamedPresets[s] else NormalOption))
  {
  }

  lemma PresetNameIsNaN(s: string)
    requires s in NamedPresets || s == "normal"
    ensures ParseFloat(s).NaN?
  {
    assert 'a' <= s[0] <= 'z' by {
      assert s == "tiny" || s == "small" || s == "big" || s == "huge" || s == "normal";
    }
    LowerCaseStartIsNaN(s);
  }

  /** 'normal' has no model value and the title "Normal". */
  lemma NormalOptionShape()
    ensures GetOptionDefinition(Str("normal")) == Some(Obj(FontSizeOption(Some("Normal"), None, None)))
  {
  }

  /** What `String( x )` gives is never a preset name. */
  lemma NumberKeyIsNoPreset(x: JsNumber)
    ensures NumberToString(x) !in NamedPresets
  {
    var key := NumberToString(x);
    assert key[0] != 't' && key[0] != 's' && key[0] != 'b' && key[0] != 'h';
  }

  /** A number (other than NaN) configured as a size gives a pixel preset whose
      title and model value are both `String( size )` and whose view is a
      `span` styled `font-size: <size>px`. */
  lemma PixelPresetOfNumber(x: JsNumber)
    requires !x.NaN?
    ensures GetOptionDefinition(Num(x))
            == Some(Obj(FontSizeOption(Some(NumberToString(x)), Some(NumberToString(x)),
                                       Some(ViewDefinition("span", None, map["font-size" := NumberToString(x) + "px"])))))
  {
    NumberKeyIsNoPreset(x);
    ToStringRoundTrip(x);
  }

  /** A number and its decimal text configure the same option. */
  lemma NumericTextAgreesWithNumber(x: JsNumber)
    requires !x.NaN?
    ensures GetOptionDefinition(Str(NumberToString(x))) == GetOptionDefinition(Num(x))
  {
    NumberKeyIsNoPreset(x);
    var key := NumberToString(x);
    assert key != "normal" by {
      assert key[0] != 'n';
    }
  }

  /** Decimal text with blanks before it, a sign, leading zeros or a unit after
      it (`"12px"`, `" 012"`, `"-12%"`) names no preset and is not 'normal', so
      `parseFloat` reads its signed integer part and the option is the pixel
      preset of that number. */
  lemma DecimalTextPreset(ws: string, sign: string, z: nat, n: nat, junk: string)
    requires forall i :: 0 <= i < |ws| ==> IsWhiteSpace(ws[i])
    requires sign == [] || sign == "+" || sign == "-"
    requires junk == [] || !('0' <= junk[0] <= '9' || junk[0] == '.' || junk[0] == 'e' || junk[0] == 'E')
    ensures GetOptionDefinition(Str(ws + sign + Zeros(z) + DecimalString(n) + junk))
            == Some(Obj(GeneratePixelPreset(MakeFinite(sign == "-", n, 0))))
  {
    var u := Zeros(z) + DecimalString(n) + junk;
    DecimalTextParts(ws, sign, z, n, junk);
    TextNotNamed(ws + (sign + u));
    SignedDigitsAfterBlanks(ws, sign, u);
    DigitsAsNumber(sign == "-", z, n, junk);
    PresetOfParsedText(ws + (sign + u), MakeFinite(sign == "-", n, 0));
  }

  lemma SignedDigitsAfterBlanks(ws: string, sign: string, u: string)
    requires forall i :: 0 <= i < |ws| ==> IsWhiteSpace(ws[i])
    requires sign == [] || sign == "+" || sign == "-"
    requires |u| > 0 && '0' <= u[0] <= '9'
    ensures ParseFloat(ws + (sign + u)) == ParseUnsignedDecimal(sign == "-", u)
  {
    var t := sign + u;
    if sign == [] {
      assert t == u;
      TrimStartSkips(ws, u);
    } else {
      assert t[0] == sign[0] && t[1..] == u;
      SignAfterBlanks(ws, t);
    }
  }

  lemma SignAfterBlanks(ws: string, t: string)
    requires forall i :: 0 <= i < |ws| ==> IsWhiteSpace(ws[i])
    requires |t| > 0 && (t[0] == '+' || t[0] == '-')
    ensures ParseFloat(ws + t) == ParseUnsignedDecimal(t[0] == '-', t[1..])
  {
    TrimStartSkips(ws, t);
  }

  lemma DigitsAsNumber(negative: bool, z: nat, n: nat, junk: string)
    requires junk == [] || !('0' <= junk[0] <= '9' || junk[0] == '.' || junk[0] == 'e' || junk[0] == 'E')
    ensures ParseUnsignedDecimal(negative, Zeros(z) + DecimalString(n) + junk) == MakeFinite(negative, n, 0)
  {
    var ip := Zeros(z) + DecimalString(n);
    DecimalTextParts([], [], z, n, junk);
    PaddedDecimal(Zeros(z), DecimalString(n));
    ParseUnpointed(negative, ip, junk);
    LeadingZeros(z, DecimalString(n), 10);
    DecimalStringValue(n);
  }

  lemma PresetOfParsedText(s: string, x: JsNumber)
    requires s !in NamedPresets && s != "normal" && ParseFloat(s) == x && !x.NaN?
    ensures GetOptionDefinition(Str(s)) == Some(Obj(GeneratePixelPreset(x)))
  {
  }

  lemma DecimalTextParts(ws: string, sign: string, z: nat, n: nat, junk: string)
    requires forall i :: 0 <= i < |ws| ==> IsWhiteSpace(ws[i])
    requires sign == [] || sign == "+" || sign == "-"
    ensures var ip := Zeros(z) + DecimalString(n);
            var u := ip + junk;
            ws + sign + Zeros(z) + DecimalString(n) + junk == ws + (sign + u) &&
            |ip| > 0 && AllDecimalDigits(ip) && '0' <= u[0] <= '9' &&
            var c := (ws + (sign + u))[0];
            IsWhiteSpace(c) || '0' <= c <= '9' || c == '+' || c == '-'
  {
    var ip := Zeros(z) + DecimalString(n);
    TextAssociates(ws, sign, Zeros(z), DecimalString(n), junk);
    PaddedDecimal(Zeros(z), DecimalString(n));
    DigitsFirst(ip, junk);
    FirstOfSigned(ws, sign, ip + junk);
  }

  lemma TextAssociates(ws: string, sign: string, a: string, b: string, junk: string)
    ensures ws + sign + a + b + junk == ws + (sign + (a + b + junk))
  {
  }

  lemma PaddedDecimal(zs: string, d: string)
    requires AllDecimalDigits(zs) && AllDecimalDigits(d) && |d| > 0
    ensures |zs + d| > 0 && AllDecimalDigits(zs + d)
  {
  }

  lemma DigitsFirst(ip: string, junk: string)
    requires |ip| > 0 && '0' <= ip[0] <= '9'
    ensures (ip + junk)[0] == ip[0]
  {
  }

  lemma FirstOfSigned(ws: string, sign: string, u: string)
    requires sign == [] || sign == "+" || sign == "-"
    requires |u| > 0
    ensures (ws + (sign + u))[0] == if ws != [] then ws[0] else if sign != [] then sign[0] else u[0]
  {
  }

  /** Text that starts with a blank, a digit or a sign is neither a preset name nor 'normal'. */
  lemma TextNotNamed(s: string)
    requires |s| > 0 && (IsWhiteSpace(s[0]) || '0' <= s[0] <= '9' || s[0] == '+' || s[0] == '-')
    ensures s !in NamedPresets && s != "normal"
  {
    assert s[0] != 't' && s[0] != 's' && s[0] != 'b' && s[0] != 'h' && s[0] != 'n';
  }

  /** Normalising a list of objects changes nothing. */
  lemma {:induction false} NormalizeObjects(options: seq<Value>)
    requires forall i :: 0 <= i < |options| ==> options[i].Obj?
    ensures NormalizeOptions(options) == options
  {
    if options != [] {
      assert options == [options[0]] + options[1..];
      NormalizeOptionsAppend([options[0]], options[1..]);
      NormalizeOptionsSingle(options[0]);
      NormalizeObjects(options[1..]);
    }
  }

  /** Normalisation is idempotent: every result is an object, which passes through. */
  lemma NormalizeOptionsIdempotent(configuredOptions: seq<Value>)
    ensures NormalizeOptions(NormalizeOptions(configuredOptions)) == NormalizeOptions(configuredOptions)
  {
    NormalizeObjects(NormalizeOptions(configuredOptions));
  }

  // The lookup as the source writes it. `namedPresets[ option ]` reads an
  // ordinary object literal, so besides the four presets it also finds what
  // that object inherits from `Object.prototype`.

  /** The names an ordinary object inherits from `Object.prototype`. */
  const ObjectPrototypeMembers: set<string> := {
    "constructor", "__defineGetter__", "__defineSetter__", "hasOwnProperty",
    "__lookupGetter__", "__lookupSetter__", "isPrototypeOf", "propertyIsEnumerable",
    "toString", "valueOf", "__proto__", "toLocaleString"
  }

  /** The source text a built-in method of that name prints as. */
  function NativeSource(name: string): string
  {
    "function " + name + "() { [native code] }"
  }

  /** What a name inherited from `Object.prototype` other than `__proto__`
      holds: a built-in function (for `constructor`, `Object` itself). */
  function InheritedMethodSource(name: string): string
  {
    NativeSource(NativeName(name))
  }

  /** The name a built-in method prints: `Object` for `constructor`. */
  function NativeName(name: string): string
  {
    if name == "constructor" then "Object" else name
  }

  /** `namedPresets[ key ]`, inherited members included; `None` is `undefined`. */
  function NamedPresetLookupAsWritten(key: string): (r: Option<Value>)
    ensures key in NamedPresets ==> r == Some(Obj(NamedPresets[key]))
    ensures key !in NamedPresets && key !in ObjectPrototypeMembers ==> r.None?
  {
    if key in NamedPresets then Some(Obj(NamedPresets[key]))
    else if key == "__proto__" then Some(Obj(ObjectPrototype))
    else if key in ObjectPrototypeMembers then Some(Func(InheritedMethodSource(key)))
    else None
  }

  /** `getOptionDefinition` with the inherited-member lookup. */
  function GetOptionDefinitionAsWritten(option: Value): (r: Option<Value>)
    ensures IsObjectType(option) ==> r == Some(option)
    ensures r.Some? ==> IsObjectType(r.value) || r.value.Func?
  {
    if IsObjectType(option) then Some(option)
    else
      var key := ToPropertyKey(option);
      var preset := NamedPresetLookupAsWritten(key);
      if Truthy(preset) then preset else PrimitiveDefinition(option, key)
  }

  /** `normalizeOptions` with the inherited-member lookup. */
  function NormalizeOptionsAsWritten(configuredOptions: seq<Value>): (r: seq<Value>)
    ensures |r| <= |configuredOptions|
    ensures forall j :: 0 <= j < |r| ==> r[j].Obj? || r[j].Func?
  {
    KeepTruthy(DefinitionsAsWritten(configuredOptions))
  }

  /** `configuredOptions.map( getOptionDefinition )` with the inherited-member lookup. */
  function DefinitionsAsWritten(options: seq<Value>): (rs: seq<Option<Value>>)
    ensures |rs| == |options|
    ensures forall i :: 0 <= i < |options| ==> rs[i] == GetOptionDefinitionAsWritten(options[i])
  {
    seq(|options|, i requires 0 <= i < |options| => GetOptionDefinitionAsWritten(options[i]))
  }

  /** As written too, normalisation works entry by entry and keeps the input order. */
  lemma NormalizeOptionsAsWrittenAppend(a: seq<Value>, b: seq<Value>)
    ensures NormalizeOptionsAsWritten(a + b) == NormalizeOptionsAsWritten(a) + NormalizeOptionsAsWritten(b)
  {
    var da, db, dab := DefinitionsAsWritten(a), DefinitionsAsWritten(b), DefinitionsAsWritten(a + b);
    forall i | 0 <= i < |dab|
      ensures dab[i] == (da + db)[i]
    {
      if i < |a| {
        assert (a + b)[i] == a[i];
      } else {
        assert (a + b)[i] == b[i - |a|];
      }
    }
    assert dab == da + db;
    KeepTruthyAppend(da, db);
  }

  /** A list none of whose entries is an inherited name normalises the same
      way under both lookups. */
  lemma AsWrittenListAgrees(options: seq<Value>)
    requires forall i :: 0 <= i < |options| ==>
               IsObjectType(options[i]) || ToPropertyKey(options[i]) !in ObjectPrototypeMembers
    ensures NormalizeOptionsAsWritten(options) == NormalizeOptions(options)
  {
    forall i | 0 <= i < |options|
      ensures GetOptionDefinitionAsWritten(options[i]) == GetOptionDefinition(options[i])
    {
      AsWrittenAgreesOffPrototypeNames(options[i]);
    }
    assert DefinitionsAsWritten(options) == Definitions(options);
  }

  lemma NormalizeOptionsAsWrittenSingle(option: Value)
    ensures NormalizeOptionsAsWritten([option])
            == if Truthy(GetOptionDefinitionAsWritten(option)) then [GetOptionDefinitionAsWritten(option).value] else []
  {
    var rs := DefinitionsAsWritten([option]);
    assert rs[1..] == [];
  }

  /** Away from the inherited names the two lookups agree. */
  lemma AsWrittenAgreesOffPrototypeNames(option: Value)
    requires IsObjectType(option) || ToPropertyKey(option) !in ObjectPrototypeMembers
    ensures GetOptionDefinitionAsWritten(option) == GetOptionDefinition(option)
  {
  }

  /** As written, an inherited method name such as 'toString' gives a function,
      which is neither an option record nor `undefined`. */
  lemma InheritedMethodAsWritten(name: string)
    requires name in ObjectPrototypeMembers && name != "__proto__"
    ensures GetOptionDefinitionAsWritten(Str(name)) == Some(Func(InheritedMethodSource(name)))
  {
    InheritedNameIsNoPreset(name);
    InheritedMethodLookup(name);
    AsWrittenFromLookup(Str(name));
  }

  lemma InheritedMethodLookup(name: string)
    requires name in ObjectPrototypeMembers && name != "__proto__" && name !in NamedPresets
    ensures NamedPresetLookupAsWritten(name) == Some(Func(InheritedMethodSource(name)))
  {
  }

  /** As written, '__proto__' gives `Object.prototype`. */
  lemma ProtoAsWritten(name: string)
    requires name == "__proto__"
    ensures GetOptionDefinitionAsWritten(Str(name)) == Some(Obj(ObjectPrototype))
  {
    ProtoLookup(name);
    AsWrittenFromLookup(Str(name));
  }

  lemma ProtoLookup(name: string)
    requires name == "__proto__"
    ensures NamedPresetLookupAsWritten(name) == Some(Obj(ObjectPrototype))
  {
  }

  /** A truthy lookup result is the definition, as written. */
  lemma AsWrittenFromLookup(option: Value)
    requires !IsObjectType(option) && Truthy(NamedPresetLookupAsWritten(ToPropertyKey(option)))
    ensures GetOptionDefinitionAsWritten(option) == NamedPresetLookupAsWritten(ToPropertyKey(option))
  {
  }

  /** With the own-keys lookup every inherited name is dropped. */
  lemma InheritedNameDropped(name: string)
    requires name in ObjectPrototypeMembers
    ensures GetOptionDefinition(Str(name)) == None
    ensures NormalizeOptions([Str(name)]) == []
  {
    InheritedNameIsNaN(name);
    InheritedNameIsNoPreset(name);
    UnreadableTextDropped(Str(name));
  }

  lemma UnreadableTextDropped(option: Value)
    requires option.Str? && option.s !in NamedPresets && option.s != "normal" && ParseFloat(option.s).NaN?
    ensures GetOptionDefinition(option) == None
    ensures NormalizeOptions([option]) == []
  {
    UnreadableDropped(option);
  }

  lemma InheritedNameIsNaN(name: string)
    requires name in ObjectPrototypeMembers
    ensures ParseFloat(name).NaN?
  {
    assert |name| > 0 && (name[0] == '_' || 'a' <= name[0] <= 'z');
    NonNumericStartIsNaN(name);
  }

  lemma InheritedNameIsNoPreset(name: string)
    requires name in ObjectPrototypeMembers
    ensures name !in NamedPresets && name != "normal"
  {
  }

  /** The source text of a built-in function names no preset, is not 'normal',
      is found by no lookup (inherited members included), and holds no number. */
  lemma NativeSourceUnreadable(name: string)
    ensures var text := NativeSource(name);
            text !in NamedPresets && text != "normal" && NamedPresetLookupAsWritten(text).None?
    ensures ParseFloat(NativeSource(name)).NaN?
  {
    var text := NativeSource(name);
    assert text[0] == 'f';
    FunctionTextNoKey(text);
    LowerCaseStartIsNaN(text);
  }

  /** No preset name, inherited name or 'normal' starts with an `f`. */
  lemma FunctionTextNoKey(text: string)
    requires |text| > 0 && text[0] == 'f'
    ensures text !in NamedPresets && text !in ObjectPrototypeMembers && text != "normal"
    ensures NamedPresetLookupAsWritten(text).None?
  {
  }

  /** As written, a built-in function in the list is dropped on a second pass. */
  lemma InheritedMethodDroppedAsWritten(name: string)
    ensures GetOptionDefinitionAsWritten(Func(InheritedMethodSource(name))) == None
  {
    NativeSourceDroppedAsWritten(NativeName(name));
  }

  lemma NativeSourceDroppedAsWritten(name: string)
    ensures GetOptionDefinitionAsWritten(Func(NativeSource(name))) == None
  {
    NativeSourceUnreadable(name);
    FunctionDroppedAsWritten(Func(NativeSource(name)));
  }

  lemma FunctionDroppedAsWritten(f: Value)
    requires f.Func?
    requires f.source !in NamedPresets && NamedPresetLookupAsWritten(f.source).None?
    requires ParseFloat(f.source).NaN?
    ensures GetOptionDefinitionAsWritten(f) == None
  {
    AsWrittenUnreadable(f, f.source);
  }

  /** As written, a value whose key the lookup does not find and that holds no
      number has no definition. */
  lemma AsWrittenUnreadable(option: Value, key: string)
    requires !IsObjectType(option) && key == ToPropertyKey(option)
    requires key !in NamedPresets && NamedPresetLookupAsWritten(key).None?
    requires option != Str("normal") && ParseFloat(key).NaN?
    ensures GetOptionDefinitionAsWritten(option) == None
  {
    PrimitiveDropped(option, key);
  }

  /** As written, normalisation is not idempotent: `[ 'toString' ]` (or any
      other inherited method name) normalises to a list holding a function,
      which normalises to the empty list, whereas the own-keys normalisation
      drops the name at once. */
  lemma AsWrittenNotIdempotent(name: string)
    requires name in ObjectPrototypeMembers && name != "__proto__"
    ensures NormalizeOptionsAsWritten([Str(name)]) == [Func(InheritedMethodSource(name))]
    ensures NormalizeOptionsAsWritten(NormalizeOptionsAsWritten([Str(name)])) == []
    ensures NormalizeOptions([Str(name)]) == []
  {
    InheritedMethodAsWritten(name);
    NormalizeOptionsAsWrittenSingle(Str(name));
    InheritedMethodDroppedAsWritten(name);
    NormalizeOptionsAsWrittenSingle(Func(InheritedMethodSource(name)));
    InheritedNameDropped(name);
  }
}
