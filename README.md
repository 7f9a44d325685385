# MetaModels colour attribute, modelled in Dafny

The colour attribute of MetaModels stores a hex colour code and an opacity
for an item. This project models the attribute's own logic, which is
`src/MetaModels/Attribute/Color/Color.php`:

- `hex2rgba()` turns a colour code (`#rrggbb`, `rrggbb`, `#rgb` or `rgb`) and
  an optional opacity into a CSS `rgb(r,g,b)` or `rgba(r,g,b,a)` string.
  When it cannot convert the colour it returns `rgb(0,0,0)`.
- the part of `parseValue()` that builds the `raw` value: the stored colour,
  the stored opacity and their `rgb()`/`rgba()` form;
- `getAttributeSettingNames()`: the parent's setting names followed by the
  five colour settings;
- `getFieldDefinition()`: the parent's backend widget definition with the
  colour widget's settings written over it.

Files:

- `php.dfy`, module `PhpRuntime`: the PHP behaviour the attribute relies on.
  It covers PHP values, conversion to boolean, the loose comparison
  `== null` and `empty()`. It covers conversion between numbers and strings,
  with numbers held as exact decimals (a float as the decimal PHP prints for it). It also covers reading `$a[$i]` from an
  array or a string, `implode()` and `hexdec()`.
- `css.dfy`, module `CssRgb`: a reader for the `rgb()`/`rgba()` text the
  converter emits. The converter's output is specified by what this reader
  gets back from it.
- `color.dfy`, module `ColorAttribute`: the four operations above, with
  their properties.
- `color_examples.dfy`, module `ColorExamples`: conversions of concrete
  colours, stated as lemmas.

Deliberate choices:

- The colour is a string, as the method's documentation declares it. In
  `parseValue()` a null colour is passed on as `""`, because `empty()`
  treats the two alike.
- The opacity may be any PHP scalar: null, a boolean, an integer, a float or
  a string. Arrays are excluded.
- The code does not check that the colour's characters are hex digits.
  `hexdec()` skips every other character, so `zzzzzz` converts to black and
  keeps its opacity: `zzzzzz` at opacity 50 gives `rgba(0,0,0,0.5)`, not the
  fallback. The model follows the code. `ColorExamples.NonHexKeepsOpacity`
  states this case.
- The opacity `1` is not divided by 100, so it becomes alpha 1 (fully
  opaque). The opacity `0` is falsy and gives `rgb()`. Both are stated as
  lemmas (`ColorExamples.OpacityOne`, `ColorExamples.OpacityZero`).
- A string opacity is written into `rgba()` as it is when its number is at
  most 1 in magnitude, and a non-numeric string counts as 0 in `abs()`. So
  the opacity `"abc"` gives `rgba(0,0,0,abc)` for `000000`, which is not a
  CSS colour. The model follows the code; the CSS reader accepts any text
  as the alpha. `ColorExamples.WordOpacityPassesThrough` states this case.

## Model

| member | source | states |
|---|---|---|
| PhpRuntime.LooselyNullIsFalsy | src/MetaModels/Attribute/Color/Color.php:90 | Every value that is `== null` is falsy. The only falsy value that is not `== null` is the string `"0"`. |
| PhpRuntime.NatToStringReadsBack | src/MetaModels/Attribute/Color/Color.php:202-204 | The decimal text `implode()` writes for a channel reads back as that channel. |
| PhpRuntime.IntToStringReadsBack | src/MetaModels/Attribute/Color/Color.php:199-202 | The text of an integer opacity reads back as that integer. |
| PhpRuntime.DecimalToStringReadsBack | src/MetaModels/Attribute/Color/Color.php:199-202 | The text of a float opacity, or of opacity/100, reads back as the same number. |
| PhpRuntime.RenderedIsDecimalText | src/MetaModels/Attribute/Color/Color.php:200-202 | The printed text of a number is a decimal numeral and nothing else: an optional `-`, digits, and optionally `.` followed by digits. |
| PhpRuntime.ToPhpStringReadsBack | src/MetaModels/Attribute/Color/Color.php:199-202 | The string form of any scalar opacity (null, boolean, integer, float or string) converts back to the same number that `abs()` and `/` see. |
| PhpRuntime.DecimalToStringScale | src/MetaModels/Attribute/Color/Color.php:200-202 | The text of a number does not depend on how many trailing decimal zeros it is held with. |
| PhpRuntime.DecimalOfInteger | src/MetaModels/Attribute/Color/Color.php:200-202 | A decimal with no places prints exactly as the integer does. |
| PhpRuntime.DecimalOfScaledInteger | src/MetaModels/Attribute/Color/Color.php:200-202 | A float whose value is an integer prints as that integer, however many zero places it is held with. For example, 100/100, held as 100 hundredths (`Decimal(100, 2)`), prints as `1`. |
| PhpRuntime.DecimalZero | src/MetaModels/Attribute/Color/Color.php:200-202 | Zero prints as `0` at any scale. |
| PhpRuntime.HexDec | src/MetaModels/Attribute/Color/Color.php:195 | `hexdec()` of n characters is below 16^n, so two characters give a byte. |
| PhpRuntime.HexDecSkipsNonHex | src/MetaModels/Attribute/Color/Color.php:195 | `hexdec()` depends only on the hex digits of its argument, taken in order. |
| PhpRuntime.HexDecOfByte | src/MetaModels/Attribute/Color/Color.php:195 | Two lower-case hex digits of a byte read back as the byte. |
| CssRgb.RgbReadsBack | src/MetaModels/Attribute/Color/Color.php:204 | The `rgb(r,g,b)` text reads back as exactly r, g and b. |
| CssRgb.RgbaReadsBack | src/MetaModels/Attribute/Color/Color.php:202 | The `rgba(r,g,b,a)` text reads back as exactly r, g, b and the alpha text. |
| ColorAttribute.AttributeSettingNames | src/MetaModels/Attribute/Color/Color.php:49-60 | Five names longer than the parent's list. The parent's names come first, in order, followed by exactly flag, searchable, filterable, sortable and mandatory. |
| ColorAttribute.SettingNamesMembership | src/MetaModels/Attribute/Color/Color.php:49-60 | A name is offered if and only if the parent offers it or it is one of the five colour settings. |
| ColorAttribute.FieldDefinition | src/MetaModels/Attribute/Color/Color.php:66-79 | The parent's keys plus `inputType` and `eval`, with every other entry unchanged. `inputType` is `text`. `eval` keeps its other entries and gets maxlength 6, size 2, and multiple, isHexColor and decodeEntities all true. `tl_class` is its old text with ` wizard inline` appended, and a missing value counts as empty text. |
| ColorAttribute.Sanitize | src/MetaModels/Attribute/Color/Color.php:180-183 | Exactly one leading `#` is removed, and any other colour is left as it is. |
| ColorAttribute.HexPairs | src/MetaModels/Attribute/Color/Color.php:185-192 | Three two-character chunks. For 6 characters they concatenate back to the colour; for 3 characters chunk i is character i doubled. |
| ColorAttribute.Channels | src/MetaModels/Attribute/Color/Color.php:185-195 | There are three channels and each is below 256. |
| ColorAttribute.ChannelsOfPairs | src/MetaModels/Attribute/Color/Color.php:186-195 | The channels of a 6-character colour are the `hexdec()` values of its three pairs, whatever characters they hold. |
| ColorAttribute.AlphaText | src/MetaModels/Attribute/Color/Color.php:198-202 | Above 1 in magnitude, the alpha is a decimal numeral (an optional `-`, digits, and optionally `.` and digits) that reads back as the opacity divided by 100. Otherwise it is the opacity's string form, which can be any text. |
| ColorAttribute.Format | src/MetaModels/Attribute/Color/Color.php:197-205 | The output is the CSS text of the channels: `rgba(r,g,b,alpha)` for a truthy opacity and `rgb(r,g,b)` otherwise. |
| ColorAttribute.FormatReadsBack | src/MetaModels/Attribute/Color/Color.php:197-205 | The formatted text reads back as the three channels, plus the alpha when the opacity is truthy. |
| ColorAttribute.DefaultReadsBack | src/MetaModels/Attribute/Color/Color.php:173 | The fallback reads back as black. |
| ColorAttribute.Hex2Rgba | src/MetaModels/Attribute/Color/Color.php:170-209 | The output always parses by `CssRgb.ParseCss` as `rgb()`/`rgba()` with numeral channels below 256; in `rgba()` the alpha is the text after the third comma, which can be any text. It is `rgba()` if and only if the colour is convertible and the opacity truthy, and then the alpha is the opacity's alpha. A convertible colour gives the `hexdec()` channels of the sanitized colour. Any other colour gives black. |
| ColorAttribute.Hex2RgbaFallsBack | src/MetaModels/Attribute/Color/Color.php:173-192 | `""`, `"0"` and every colour that is not 6 or 3 characters long after removing one `#` give exactly `rgb(0,0,0)`, whatever the opacity. This includes `##` before 3 or 6 characters. |
| ColorAttribute.Hex2RgbaHashPrefix | src/MetaModels/Attribute/Color/Color.php:180-183 | A colour with one leading `#` converts like the same colour without it. |
| ColorAttribute.Hex2RgbaShortForm | src/MetaModels/Attribute/Color/Color.php:185-189 | A 3-character colour converts like the 6-character colour with each character doubled. |
| ColorAttribute.Hex2RgbaConverts | src/MetaModels/Attribute/Color/Color.php:176-205 | A convertible colour gives the formatted channels of its sanitized form. |
| ColorAttribute.SameChannels | src/MetaModels/Attribute/Color/Color.php:185-205 | Two convertible colours with the same channels give the same output. |
| ColorAttribute.HexByte | src/MetaModels/Attribute/Color/Color.php:195 | The two-digit hex text of a byte, which `hexdec()` reads back as the byte. |
| ColorAttribute.ChannelsOfHexBytes | src/MetaModels/Attribute/Color/Color.php:186-195 | The channels of `rrggbb` are exactly r, g and b. |
| ColorAttribute.HexColorConverts | src/MetaModels/Attribute/Color/Color.php:170-209 | `#rrggbb` converts to the formatted channels r, g and b. |
| ColorAttribute.Hex2RgbaOfHexColor | src/MetaModels/Attribute/Color/Color.php:170-209 | The converter inverts hex notation: `#rrggbb` reads back as exactly r, g and b, plus the alpha when the opacity is truthy. |
| ColorAttribute.Hex2RgbaOpacityOnlyThroughAlpha | src/MetaModels/Attribute/Color/Color.php:197-205 | Two opacities with the same truthiness and the same alpha give the same output. |
| ColorAttribute.FalsyOpacityIsNone | src/MetaModels/Attribute/Color/Color.php:170-205 | A falsy opacity gives the same output as the default `false`. |
| ColorAttribute.AlphaReadsBack | src/MetaModels/Attribute/Color/Color.php:199-202 | The alpha reads back as opacity/100 when the opacity's magnitude is above 1. Otherwise it reads back as the opacity itself. |
| ColorAttribute.Hex2RgbaStringOpacity | src/MetaModels/Attribute/Color/Color.php:198-202 | An opacity stored as the decimal text of an integer converts exactly as that integer does. |
| ColorAttribute.ColorArgument | src/MetaModels/Attribute/Color/Color.php:176 | A null colour is passed as `""`, which is `empty()` just like null. |
| ColorAttribute.RawResult | src/MetaModels/Attribute/Color/Color.php:87-95 | `raw` holds exactly three entries. `color` and `opacity` are items 0 and 1 of the stored cell, and `rgba` is the converted colour with that opacity. The loosely-null branch that drops the opacity gives the same text. |
| ColorAttribute.RawRgbaForm | src/MetaModels/Attribute/Color/Color.php:90-95 | The raw `rgba` entry always parses by `CssRgb.ParseCss` as `rgb()`/`rgba()` with numeral channels; the alpha can be any text. It is `rgba()` if and only if the colour is convertible, the opacity is not loosely null and the opacity is not the string `"0"`. |
| ColorAttribute.ReparsedRawIsBlank | src/MetaModels/Attribute/Color/Color.php:124-127 | The code as written: parsing the raw result again, as the branch without a template does, yields a `raw` whose colour and opacity are null and whose `rgba` is `rgb(0,0,0)`, for every stored cell, unless the column is itself named `raw`. |
| ColorExamples.RedWithHash | src/MetaModels/Attribute/Color/Color.php:180-205 | `#ff0000` gives `rgb(255,0,0)`. |
| ColorExamples.RedShortForm | src/MetaModels/Attribute/Color/Color.php:188-205 | `f00` gives `rgb(255,0,0)`. |
| ColorExamples.GreenAtHalf | src/MetaModels/Attribute/Color/Color.php:186-202 | `00ff00` at opacity 50 gives `rgba(0,255,0,0.5)`. |
| ColorExamples.BlueAtHalf | src/MetaModels/Attribute/Color/Color.php:186-202 | `0000ff` at opacity 0.5 gives `rgba(0,0,255,0.5)`. |
| ColorExamples.NonHexIsBlack | src/MetaModels/Attribute/Color/Color.php:186-205 | `zzzzzz` gives `rgb(0,0,0)`. |
| ColorExamples.NonHexKeepsOpacity | src/MetaModels/Attribute/Color/Color.php:186-202 | `zzzzzz` at opacity 50 gives `rgba(0,0,0,0.5)`: the colour is converted, not replaced by the fallback. |
| ColorExamples.OpacityOne | src/MetaModels/Attribute/Color/Color.php:198-202 | `000000` at opacity 1 gives `rgba(0,0,0,1)`. |
| ColorExamples.OpacityZero | src/MetaModels/Attribute/Color/Color.php:198-205 | `000000` at opacity 0 gives `rgb(0,0,0)`. |
| ColorExamples.RedAtHalfFromText | src/MetaModels/Attribute/Color/Color.php:180-202 | `#f00` at the stored opacity `"50"` gives `rgba(255,0,0,0.5)`. |
| ColorExamples.WordOpacityPassesThrough | src/MetaModels/Attribute/Color/Color.php:198-202 | `000000` at the opacity `"abc"` gives `rgba(0,0,0,abc)`: the text is passed through unchanged. |
| ColorExamples.StoredColorRaw | src/MetaModels/Attribute/Color/Color.php:87-95 | A row storing `#f00` and `"50"` gives raw color `#f00`, opacity `"50"` and rgba `rgba(255,0,0,0.5)`. |

## Left out

- Template rendering in `parseValue()` (Color.php:97-123) and `prepareTemplate()` (Color.php:148-159). These are I/O through the template engine.
- The recursive call of `parseValue()` on the path without a template (Color.php:124-127). ColorAttribute.RawResult is the value built at Color.php:95, not what `parseValue()` returns on that path: the recursive call replaces the whole result, `raw` included, with the blank `raw` it rebuilds from a row that has no colour column (see Findings).
- The additional-formatters hook (Color.php:130). It calls code outside this file.
- The parent class's `getAttributeSettingNames()`, `getFieldDefinition()` and `getColName()`. Their results are inputs to the model: the parent's names, the parent's definition and the column name.
- `getSQLDataType()` (Color.php:43). It returns a constant SQL type and has no logic.
- The backend configuration in `contao/dca/tl_metamodel_attribute.php`. It is declarative configuration, not code.
- ColorAttribute.AttributeSettingNames: the parent's names are a list with keys 0..n-1. `array_merge()` on string keys, where later keys overwrite earlier ones, is not modelled.
- ColorAttribute.FieldDefinition: the parent's `eval` must be an array, missing, null or `false`. PHP turns the last three into an array on the first write. An `eval` that is `""` (also turned into an array before PHP 7.1) is not modelled. Nor is any other `eval` (a non-empty string, a number, `true`): PHP raises warnings or an error on the writes into it.
- PHP arrays are maps, so key order is not modelled.
- Numbers are exact decimals; PHP's binary doubles are not modelled. A float is the decimal PHP prints for it at 14 significant digits, so 0.7 is `Decimal(7, 1)`. Printing, the test `abs($opacity) > 1` and `$opacity / 100` match PHP only for numbers of at most 14 significant digits, whether integers, floats or numeric strings, and of magnitude at least 1e-4 and below 1e14 (outside that range PHP prints in exponent notation). With more digits the model keeps every digit where PHP rounds: the integer opacity 123456789012345 gives the alpha `1234567890123.45` here, while PHP prints 14 digits. A float whose binary value lies just above 1 but prints as `1` is held as 1 and not divided, while PHP divides it. INF and NAN are not modelled.
- Strings convert to numbers by their leading decimal number: optional white space, an optional sign, digits and an optional fraction. The model reads that number exactly, where PHP rounds it to a double: `"1.0000000000000001"` is 1 in PHP, so it is not above 1 and passes through unchanged, while the model finds it above 1 and divides it. Exponents and hexadecimal strings are not modelled. The PHP 8 errors for non-numeric strings in `abs()` and `/` are not modelled either.
- Strings are sequences of characters, and reading `$color[i]` takes one character. Multi-byte UTF-8 colours are not modelled byte by byte.
- ColorAttribute.Hex2Rgba: the colour must be a string and the opacity must not be an array. Other colour types and array opacities are not modelled.
- ColorAttribute.RawResult: the stored colour must be a string or null and the stored opacity must not be an array. Other stored types are not modelled.

## Findings

| source | as written | input that shows it | evidently intended | confidence | as-written member | corrected member |
|---|---|---|---|---|---|---|
| src/MetaModels/Attribute/Color/Color.php:124-127 | Without a template, the result is replaced by `parseValue($arrResult, 'text', …)`. That call reads the colour column from the first result, which has only the key `raw`, so it rebuilds `raw` from null. | Column `color`, row `['color' => ['ff0000', '50']]`, no render settings: the returned `raw` is color null, opacity null, rgba `rgb(0,0,0)`, where line 95 built color `ff0000`, opacity `50`, rgba `rgba(255,0,0,0.5)`. | Render the text with the default settings while keeping the `raw` built at lines 87-95. | not executed; medium | ColorAttribute.ReparsedRawIsBlank | ColorAttribute.RawResult |
