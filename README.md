# Table cell spans, table schema rules and font-size option normalisation

This project models two small pieces of decision logic from the CKEditor 5
table and font plugins and proves their properties in Dafny.

**Table editing** (`packages/ckeditor5-table/src/tableediting.js`)

- `upcastCellSpan( type )` turns a view cell's `colspan` or `rowspan` text into
  the span stored on the model `tableCell`. It calls `parseInt` on the attribute
  and gives `null` (no attribute) when the result is NaN or not positive.
- The schema rules that `init()` registers for `table`, `tableRow` and
  `tableCell` become a static rule table: which item may sit inside which, and
  which attributes each may carry.
- The colspan/rowspan attribute conversion is modelled as an upcast and a
  downcast of a cell's span attributes.

**Font size** (`packages/ckeditor5-font/src/fontsize/utils.js`)

- `normalizeOptions`, `getOptionDefinition`, the `namedPresets` table and
  `generatePixelPreset` map a configuration list of mixed values to font-size
  option records. Objects pass through, the four preset names and `'normal'`
  get their records, numbers and numeric strings become pixel presets, and
  everything else is dropped, in order. As written, the preset lookup also
  finds the members every object inherits from `Object.prototype` (see
  "## Findings"). `GetOptionDefinition`, `NormalizeOptions` and the lemmas
  about them describe the corrected lookup, which only finds the four preset
  names; the members whose names end in `AsWritten` describe the code as
  written, and `AsWrittenListAgrees` shows that the two agree on every list
  that holds no inherited name.

The two global JavaScript functions the code relies on are modelled on strings
over exact decimal numbers, following ECMA-262:

- `JsParseInt` models `parseInt` without a radix (section 19.2.5).
- `JsNumber` models `parseFloat` (section 19.2.4) and `String( number )`
  (Number::toString, section 6.1.6.1.20) on exact decimal numbers.

Modules:

- `wrappers.dfy`: `Option`.
- `js_text.dfy`: white space, digits and decimal strings.
- `js_parse_int.dfy`: `parseInt`.
- `js_number.dfy`: numbers, `parseFloat` and `String( number )`.
- `table_schema.dfy`: the table schema rules.
- `table_cell_span.dfy`: the span sanitiser and the span attribute conversion.
- `font_size_utils.dfy`: option normalisation, both as written and corrected.

Some inputs come from outside the modelled code and are parameters of the
model:

- the attribute map of a view element;
- the configuration list;
- the source text of a function value.

`parseInt` is called without a radix, so a span written `"0x10"` is read as
hexadecimal and stored as 16 (`TableCellSpan.HexadecimalExample`).

## Model

| member | source | states |
|---|---|---|
| TableCellSpan.UpcastCellSpan | packages/ckeditor5-table/src/tableediting.js:181-191 | the span read for a cell is either `null` or an integer of at least 1; a cell without the attribute gets `null` |
| TableCellSpan.SanitiseSpan | packages/ckeditor5-table/src/tableediting.js:183-189 | `parseInt` followed by the NaN / `<= 0` check never yields a value below 1, and an absent attribute (read as "undefined") yields `null` |
| TableCellSpan.SpanTypesShareSanitiser | packages/ckeditor5-table/src/tableediting.js:118-127 | colspan and rowspan go through the same function: equal attribute texts give equal spans |
| TableCellSpan.AttributeReadBack | packages/ckeditor5-table/src/tableediting.js:183 | `getAttribute( key )` gives the text last set under `key`, `undefined` once the key is removed, and is unaffected by other keys; so the span upcast for a key is the sanitised text under that key, `null` once it is removed, and unaffected by changes to the other key |
| TableCellSpan.NoLeadingIntegerRejected | packages/ckeditor5-table/src/tableediting.js:183-186 | text whose first non-blank character, after at most one sign, is no digit (such as "abc", "-" or "+px") gives `null` |
| TableCellSpan.SignedNoDigitRejected | packages/ckeditor5-table/src/tableediting.js:183-186 | a sign with no digit after it ("-", "+px"), with any blanks before it, gives `null` |
| TableCellSpan.NegativeSpanRejected | packages/ckeditor5-table/src/tableediting.js:183-187 | a minus sign after any blanks gives `null` whatever follows it ("-2", "-0x10", "-") |
| TableCellSpan.ZeroSpanRejected | packages/ckeditor5-table/src/tableediting.js:183-187 | digits that are all zeros, after any blanks and an optional sign and before any non-digit text (other than an `x` or `X` right after a lone `0`, which starts hexadecimal text), give `null` |
| TableCellSpan.ZeroExample | packages/ckeditor5-table/src/tableediting.js:185-187 | "0" gives `null` |
| TableCellSpan.NegativeExample | packages/ckeditor5-table/src/tableediting.js:185-187 | "-2" gives `null` |
| TableCellSpan.PositivePrefixAccepted | packages/ckeditor5-table/src/tableediting.js:183-189 | blanks, an optional `+`, any leading zeros, the decimal digits of n >= 1, then any non-digit text: the span is n |
| TableCellSpan.UnitSuffixExample | packages/ckeditor5-table/src/tableediting.js:183 | "3px" gives 3 |
| TableCellSpan.LeadingBlankExample | packages/ckeditor5-table/src/tableediting.js:183 | " 2" gives 2 |
| TableCellSpan.PaddedSpanExample | packages/ckeditor5-table/src/tableediting.js:183 | "+03px" gives 3 |
| TableCellSpan.CanonicalSpanRoundTrip | packages/ckeditor5-table/src/tableediting.js:183-189 | the canonical decimal text of every n >= 1 gives back exactly n |
| TableCellSpan.HexadecimalSpan | packages/ckeditor5-table/src/tableediting.js:183-189 | after blanks, an optional `+` and `0x` or `0X`, the span is the value of the hexadecimal digits that follow when there is at least one and the value is positive; with no hexadecimal digit (`"0x"`, `"0xg"`) or a zero value it is `null` |
| TableCellSpan.HexadecimalExample | packages/ckeditor5-table/src/tableediting.js:183 | "0x10" gives 16 |
| TableCellSpan.SignedHexadecimalExample | packages/ckeditor5-table/src/tableediting.js:183 | "+0x10" gives 16: the `+` is dropped before the `0x` is seen |
| TableCellSpan.EmptyHexadecimalExample | packages/ckeditor5-table/src/tableediting.js:183-186 | "0xg" holds no hexadecimal digit and gives `null` |
| TableCellSpan.UpcastCellAttributes | packages/ckeditor5-table/src/tableediting.js:118-127 | an upcast cell carries only colspan and rowspan, each at least 1; a span key is present exactly when `upcastCellSpan` gives a value for it, and then holds that value |
| TableCellSpan.IntString | packages/ckeditor5-table/src/tableediting.js:117 | the text the downcast writes for an integer n is JavaScript's `String( n )`, and `parseInt` reads it back as n when n has at most 21 digits |
| TableCellSpan.DowncastCellAttributes | packages/ckeditor5-table/src/tableediting.js:117-127 | the downcast writes exactly the span keys the model cell has |
| TableCellSpan.SpanAttributesRoundTrip | packages/ckeditor5-table/src/tableediting.js:117-127 | span attributes of at least 1 and at most 21 digits, downcast to the view and upcast again, come back unchanged |
| TableCellSpan.UpcastStable | packages/ckeditor5-table/src/tableediting.js:117-127 | when the upcast spans have at most 21 digits, a second upcast after a downcast changes nothing |
| TableCellSpan.LargeSpanNotRestored | packages/ckeditor5-table/src/tableediting.js:117-127 | a colspan of 1 followed by j zeros, 21 <= j <= 308, upcasts to 10^j, the downcast writes it as `1e+j`, and the next upcast stores 1 |
| TableCellSpan.UpcastCellFitsSchema | packages/ckeditor5-table/src/tableediting.js:77-83 | every attribute the upcast gives a cell is allowed on `tableCell`, so the cell, taken without children, is a valid model element (the paragraph the upcast adds to every cell is not modelled) |
| JsParseInt.ParseInt | packages/ckeditor5-table/src/tableediting.js:183 | text whose first non-blank character is no digit and no sign is NaN |
| JsText.TrimStart | packages/ckeditor5-table/src/tableediting.js:183 | `parseInt` and `parseFloat` skip exactly the leading white space: what remains is a suffix whose first character is no white space, and all that was dropped is white space |
| JsParseInt.ParseIntUndefined | packages/ckeditor5-table/src/tableediting.js:183 | the text "undefined" of a missing attribute is NaN |
| JsParseInt.ParseIntDecimalPrefix | packages/ckeditor5-table/src/tableediting.js:183 | blanks, the decimal digits of n, then non-digit text (other than an `x` or `X` right after a lone `0`, which starts hexadecimal text): the value is n |
| JsParseInt.ParseIntNegativePrefix | packages/ckeditor5-table/src/tableediting.js:183 | the same after a minus sign, with the same exception for `x` or `X`, gives -n |
| JsParseInt.ParseIntSignedPrefix | packages/ckeditor5-table/src/tableediting.js:183 | blanks, an optional sign, leading zeros, the decimal digits of n, then non-digit text (other than an `x` or `X` right after a lone `0`, which starts hexadecimal text): the value is n, negated after a minus |
| JsParseInt.ParseIntHexPrefix | packages/ckeditor5-table/src/tableediting.js:183 | blanks, an optional `+`, `0x` or `0X`, hexadecimal digits, then text that is none: the value of those digits in radix 16, and NaN when there is no hexadecimal digit |
| TableSchema.AllowedParents | packages/ckeditor5-table/src/tableediting.js:65-66 | an item registered `allowWhere` another may stand in every direct parent of that other item as well as its own |
| TableSchema.TableRowOnlyInTable | packages/ckeditor5-table/src/tableediting.js:72-75 | `tableRow` is allowed in a parent if and only if that parent is `table` |
| TableSchema.TableCellOnlyInTableRow | packages/ckeditor5-table/src/tableediting.js:77-79 | `tableCell` is allowed in a parent if and only if that parent is `tableRow` |
| TableSchema.TableWhereBlock | packages/ckeditor5-table/src/tableediting.js:65-83 | `table` is allowed exactly where `$block` is: in the root and in `tableCell` |
| TableSchema.TableChildren | packages/ckeditor5-table/src/tableediting.js:72-79 | a `table` holds only rows and a `tableRow` only cells |
| TableSchema.TableAttributes | packages/ckeditor5-table/src/tableediting.js:65-83 | `table` allows exactly `headingRows` and `headingColumns`, `tableCell` exactly `colspan` and `rowspan`, and `tableRow` no attribute |
| TableSchema.TableItemFlags | packages/ckeditor5-table/src/tableediting.js:65-83 | `table` is an object and a block, `tableRow` a limit, `tableCell` a limit and selectable, and none carries another flag |
| TableSchema.ValidTreeShape | packages/ckeditor5-table/src/tableediting.js:65-83 | in a valid element tree, at every depth, every child of a table is a row, every child of a row is a cell, a row has a table as its parent and a cell has a row as its parent |
| FontSizeUtils.GetOptionDefinition | packages/ckeditor5-font/src/fontsize/utils.js:66-95 | with the corrected own-key preset lookup: a definition, when there is one, is of type 'object'; a value of type 'object' is returned as it is |
| FontSizeUtils.IsObjectType | packages/ckeditor5-font/src/fontsize/utils.js:68 | the test holds exactly when `typeof` reports "object", which it does for `null` and not for functions |
| FontSizeUtils.PropertyKeyText | packages/ckeditor5-font/src/fontsize/utils.js:73 | the key `namedPresets[ option ]` reads: a string is its own key, a number's key is read back by `parseFloat` as that number (−0 as +0), and the keys of `undefined`, `null` and the booleans hold no number |
| FontSizeUtils.PrimitiveDefinition | packages/ckeditor5-font/src/fontsize/utils.js:72-94 | for a value that is not of type 'object' the definition, when there is one, is an object |
| FontSizeUtils.KeepTruthy | packages/ckeditor5-font/src/fontsize/utils.js:22 | the filter keeps no more than it gets, and only truthy entries of its input |
| FontSizeUtils.Truthy | packages/ckeditor5-font/src/fontsize/utils.js:22 | `!!option`: of the values of type 'object' only `null` is falsy, every function is truthy, and `undefined` is falsy |
| FontSizeUtils.NormalizeOptions | packages/ckeditor5-font/src/fontsize/utils.js:17-23 | with the corrected lookup: the output is no longer than the input and holds only objects |
| FontSizeUtils.NormalizedOptionsAreDefinitions | packages/ckeditor5-font/src/fontsize/utils.js:17-23 | every output entry is the definition of some input entry |
| FontSizeUtils.NormalizeOptionsAppend | packages/ckeditor5-font/src/fontsize/utils.js:17-23 | normalising a concatenation is concatenating the normalised parts, so the input order is kept |
| FontSizeUtils.DefinitionsAppend | packages/ckeditor5-font/src/fontsize/utils.js:20 | mapping `getOptionDefinition` over a concatenation is concatenating the mapped parts |
| FontSizeUtils.NormalizeOptionsSingle | packages/ckeditor5-font/src/fontsize/utils.js:19-22 | one entry gives its definition when that is truthy and nothing otherwise |
| FontSizeUtils.KeptClassification | packages/ckeditor5-font/src/fontsize/utils.js:66-95 | with the corrected lookup: an entry is kept if and only if it is an object, or it is not of type 'object' and names a preset, is 'normal', or starts with a number `parseFloat` reads |
| FontSizeUtils.ObjectPassesThrough | packages/ckeditor5-font/src/fontsize/utils.js:68-70 | an object option comes back as the identical value and is kept |
| FontSizeUtils.NonOptionValuesDropped | packages/ckeditor5-font/src/fontsize/utils.js:86-91 | `undefined`, `null`, `true` and `false` are dropped |
| FontSizeUtils.UnreadableDropped | packages/ckeditor5-font/src/fontsize/utils.js:86-91 | a value that is not of type 'object', names no preset, is not 'normal' and holds no number has no definition and is dropped |
| FontSizeUtils.NamedPresetShape | packages/ckeditor5-font/src/fontsize/utils.js:26-59 | each preset has the capitalised name as title, `text-<name>` as model, and a `span` with class `text-<name>` as view |
| FontSizeUtils.PresetsPrecedeNumericParsing | packages/ckeditor5-font/src/fontsize/utils.js:73-94 | the four preset names and 'normal' hold no number, yet they get their records and are kept because those checks come first |
| FontSizeUtils.NormalOptionShape | packages/ckeditor5-font/src/fontsize/utils.js:78-83 | 'normal' gives the record with title "Normal" and no model value |
| FontSizeUtils.NumberKeyIsNoPreset | packages/ckeditor5-font/src/fontsize/utils.js:73-75 | the text of a number is never a preset name |
| FontSizeUtils.PixelPresetOfNumber | packages/ckeditor5-font/src/fontsize/utils.js:101-113 | a number other than NaN gives a record whose title and model are `String( size )` and whose view is a `span` styled `font-size: <size>px` |
| FontSizeUtils.GeneratePixelPreset | packages/ckeditor5-font/src/fontsize/utils.js:101-114 | the generated preset is an option record whose title and model are both `String( size )`, and whose view is a `span` with no class and the single style `font-size` set to the model text followed by `px` |
| FontSizeUtils.NumericTextAgreesWithNumber | packages/ckeditor5-font/src/fontsize/utils.js:86-94 | a number and its decimal text configure the same option |
| FontSizeUtils.DecimalTextPreset | packages/ckeditor5-font/src/fontsize/utils.js:86-94 | decimal text with blanks before it, an optional sign, leading zeros and any trailing text that does not continue the number ("12px", " 012", "-12%") gives the pixel preset of its signed integer part |
| FontSizeUtils.NormalizeObjects | packages/ckeditor5-font/src/fontsize/utils.js:68-70 | a list of objects normalises to itself |
| FontSizeUtils.NormalizeOptionsIdempotent | packages/ckeditor5-font/src/fontsize/utils.js:17-23 | with the corrected lookup, normalising twice gives what normalising once gives |
| FontSizeUtils.NamedPresetLookupAsWritten | packages/ckeditor5-font/src/fontsize/utils.js:73-75 | the lookup as written finds the presets, and finds nothing for a key that is neither a preset nor inherited from `Object.prototype` |
| FontSizeUtils.GetOptionDefinitionAsWritten | packages/ckeditor5-font/src/fontsize/utils.js:66-95 | as written, a value of type 'object' is still returned as it is, and a definition is of type 'object' or a function |
| FontSizeUtils.NormalizeOptionsAsWritten | packages/ckeditor5-font/src/fontsize/utils.js:17-23 | as written, the output is no longer than the input and holds only objects and functions |
| FontSizeUtils.NormalizeOptionsAsWrittenAppend | packages/ckeditor5-font/src/fontsize/utils.js:17-23 | as written too, normalising a concatenation is concatenating the normalised parts, so the input order is kept |
| FontSizeUtils.NormalizeOptionsAsWrittenSingle | packages/ckeditor5-font/src/fontsize/utils.js:19-22 | as written, one entry gives its definition when that is truthy and nothing otherwise |
| FontSizeUtils.AsWrittenAgreesOffPrototypeNames | packages/ckeditor5-font/src/fontsize/utils.js:73-75 | away from the names inherited from `Object.prototype` the code as written and the corrected model agree |
| FontSizeUtils.AsWrittenListAgrees | packages/ckeditor5-font/src/fontsize/utils.js:17-23 | a list none of whose entries is an inherited name normalises to the same list as written and corrected |
| FontSizeUtils.InheritedMethodAsWritten | packages/ckeditor5-font/src/fontsize/utils.js:73-75 | as written, an inherited method name such as 'toString' gives a built-in function as its definition |
| FontSizeUtils.ProtoAsWritten | packages/ckeditor5-font/src/fontsize/utils.js:73-75 | as written, '__proto__' gives `Object.prototype` as its definition |
| FontSizeUtils.InheritedMethodDroppedAsWritten | packages/ckeditor5-font/src/fontsize/utils.js:86-91 | as written, a built-in function found that way has no definition of its own |
| FontSizeUtils.AsWrittenNotIdempotent | packages/ckeditor5-font/src/fontsize/utils.js:17-23 | as written, `[ 'toString' ]` normalises to a list holding a function, which normalises to the empty list, while the corrected normalisation drops the name at once |
| FontSizeUtils.InheritedNameDropped | packages/ckeditor5-font/src/fontsize/utils.js:73-91 | with the own-keys lookup every name inherited from `Object.prototype` has no definition and is dropped |
| JsNumber.NumberToString | packages/ckeditor5-font/src/fontsize/utils.js:102 | `String( x )` is "NaN" for NaN, "Infinity" or "-Infinity" for the infinities, and starts with a digit or a minus sign for a finite number |
| JsNumber.ParseFloat | packages/ckeditor5-font/src/fontsize/utils.js:86 | text that is empty after its leading white space, or starts with a character no number starts with, is NaN |
| JsNumber.ToStringRoundTrip | packages/ckeditor5-font/src/fontsize/utils.js:86-102 | `parseFloat( String( x ) )` is `x` for every number, except that negative zero reads back as zero |
| JsNumber.NonNumericStartIsNaN | packages/ckeditor5-font/src/fontsize/utils.js:86-91 | text that starts with a character no number and no white space can start with is NaN to `parseFloat` |
| JsNumber.MakeFiniteValue | packages/ckeditor5-font/src/fontsize/utils.js:86 | putting a parsed decimal into canonical form keeps its value |
| JsNumber.IntegerToString | packages/ckeditor5-table/src/tableediting.js:117 | `String( n )` of a non-zero integer of at most 21 digits is its sign followed by its decimal digits |
| JsNumber.ExponentialPowerOfTen | packages/ckeditor5-table/src/tableediting.js:117 | `String( 10^j )` for j >= 21 is `1e+` followed by the digits of j |

## Left out

- Plugin plumbing in tableediting.js is not modelled: the `Plugin` base class, `requires`, the CSS import and the lifecycle. It belongs to the host framework.
- The converters other than the span attributes are not modelled (tableediting.js:86-114, 129-130). Their code is in files that are not part of this model.
- The commands (tableediting.js:137-160) and the post-fixers (162-165) are not modelled. Their logic is in files that are not part of this model.
- The configuration defaults (tableediting.js:133-134) are host configuration calls.
- The flags `isObject`, `isBlock`, `isLimit` and `isSelectable` are recorded in the rule table (`TableSchema.TableItemFlags`), but no other property uses them. They affect selection and editing behaviour outside this code.
- The schema engine is modelled only as far as these rules need. The model keeps `allowIn`, the inverse of `allowChildren` and one level of `allowWhere` inheritance, with `$block` allowed in `$root`. It leaves out `allowContentOf`, `inheritAllFrom` and custom child checks.
- `upcastCellSpan` returns a closure. The model applies it to the cell directly.
- Its conversion into the view and model is a map from attribute keys to values. The conversion dispatcher and attribute priorities are not modelled.
- The view text the downcast writes for a span is `String( n )` of an integer. The view element's other attributes are not modelled.
- Numbers are exact decimals, not binary64 values. So `parseInt` and `parseFloat` neither round nor overflow to Infinity for very long digit runs, and `String( number )` prints the exact decimal instead of the shortest round-tripping one.
- JsNumber.ToStringRoundTrip: stated for exact decimals, because binary64 rounding is not modelled.
- JsParseInt.ParseInt: gives an integer, so `parseInt( "-0" )` is 0 where JavaScript gives −0. The span check treats both alike, since neither is greater than 0.
- TableCellSpan.IntString: the read-back is promised only for integers of at most 21 digits. From 10^21 on, `String( n )` uses exponential notation, which `parseInt` reads only up to the `e` (`TableCellSpan.LargeSpanNotRestored`).
- TableCellSpan.SpanAttributesRoundTrip: requires spans of at most 21 digits, because of the exponential notation above. In JavaScript a span above 2^53 is also rounded to binary64 when parsed, and one above the largest binary64 number (about 1.8 × 10^308) parses to Infinity, which the downcast writes as "Infinity" and the next upcast drops. Exact decimals model neither effect.
- TableCellSpan.UpcastStable: holds only when the upcast spans have at most 21 digits, for the same reasons.
- FontSizeUtils.PrimitiveDefinition: its own contract says only that a definition is an object. Which record numeric text gives is stated by `FontSizeUtils.DecimalTextPreset` for decimal digits with blanks, a sign, leading zeros or a unit, and by `FontSizeUtils.NumericTextAgreesWithNumber` for the text `String( x )` of any number. Other text with a fraction or an exponent ("12.5", or "12em", whose `e` starts no exponent because no digit follows it) is covered only through `parseFloat` itself.
- `parseFloat` reads the word `Infinity`, but numbers are unbounded: `parseFloat( "1e400" )` and `parseInt` of digits whose value is above the largest binary64 number (about 1.8 × 10^308) give a finite number where JavaScript gives Infinity.
- Symbols and BigInt values in the configuration list are not modelled.
- Presets are compared as values. That `namedPresets` hands out the same shared object on every call, so a caller who changes it changes the preset, is an aliasing effect the value model does not capture.
- The exact text a built-in function prints is engine-defined. The model uses `function <name>() { [native code] }`, and the properties only use the fact that it starts with "function".

## Findings

| source | as written | input that shows it | evidently intended | confidence | as-written member | corrected member |
|---|---|---|---|---|---|---|
| packages/ckeditor5-font/src/fontsize/utils.js:73-75 | `namedPresets[ option ]` reads an ordinary object literal, so it also finds the members that object inherits from `Object.prototype` | `normalizeOptions( [ 'toString' ] )` gives `[ Object.prototype.toString ]`, which a second normalisation drops to `[]`; `'__proto__'` gives `Object.prototype` itself as an option | only the four preset names are looked up (an own-property check), so inherited names fall through to `parseFloat` and are dropped, and normalisation is idempotent | not executed | FontSizeUtils.AsWrittenNotIdempotent | FontSizeUtils.NormalizeOptionsIdempotent |
