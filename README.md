# colora core in Dafny

This project models the core of **colora**, a small TypeScript colour library. Its entry point
`parseColor` takes a CSS colour text and returns a colour object. The model covers:

- **`parseColor`** (`src/index.ts`): trims the input, then tries `#hex` and then `rgb()`/`rgba()`.
- **The colour object** that `parseColor` returns (`ParsedColor`), with:
  - `toRgb`;
  - `toHex` (`#RRGGBB[AA]`, upper case);
  - `toOklch`, which fails because `parseColor` never supplies an OKLCH record;
  - `toCss` (`rgb(r g b[ / a])`).
- **The per-value parsers** `parseCssNumber255` and `parseCssAlpha`. They rest on a model of JavaScript's `Number()` for decimal text, of `Math.round`, and of `toFixed(4)` with its trailing zeros stripped (`trimFloat`).
- **The OKLCH text form** (`src/oklch_css.ts`):
  - `parseOklchCss`, with its value parsers `parseL`, `parseC`, `parseHue` (with `deg`/`rad`/`grad`/`turn` units, normalised into [0, 360)) and `parseAlpha`;
  - `formatOklchCss`.
- **The sRGB ↔ HSL transform** (`src/hsl.ts`): `rgbToHsl`, `hslToRgb` and `hueToRgb`.

All of this is pure code. Every operation is a Dafny `function` over values: records are datatypes, text is `seq<char>`, and numbers are exact `real`s.

The modules are:

- `Wrappers`: `Option` and `Result`.
- `JsText`: `trim`, `split`, `filter(Boolean)`, lower and upper case, and joins.
- `JsNumber`: `Number()`, `Math.round`, `toFixed(4)`, `trimFloat`, hex digits, and JavaScript's `%`.
- `ColorTypes`: the `Rgb`, `Oklch` and `Hsl` records, and `clamp01`.
- `Colora`: `src/index.ts`.
- `OklchCss`: `src/oklch_css.ts`.
- `HslTransform`: `src/hsl.ts`.

The main results are the round trips:

- **hex**: parsing the text of `toHex` gives back the clamped, rounded channels. For byte channels and alpha k/255 it gives back the colour itself.
- **css**: `parseColor(c.toCss())` gives back the rounded channels and the four-decimal alpha. For whole channels and an alpha with at most four decimals it gives back the colour itself.
- **oklch**: `parseOklchCss(formatOklchCss(x))` is `x` rounded the way the text rounds it. It is exactly `x` for in-range values with at most four decimals.
- **hsl**: `hslToRgb(rgbToHsl(c))` is `c` with its channels rounded and its alpha clamped. It is exactly `c` for byte channels.

Behaviour worth knowing:

- `parseColor` tries only `#hex` and `rgb()`. It does not accept `oklch()` or named colours.
- `parseOklchCss` clamps a negative chroma to 0; it does not reject it.
- In `rgb()` a fourth list value is read as alpha in space-separated lists as well as in the comma form. A `/ alpha` part takes precedence over it.
- `hslToRgb` does not wrap the hue into [0, 360): `hueToRgb` shifts its argument by at most one turn each way.

## Model

| member | source | states |
|---|---|---|
| Colora.ParsedColor.ToRgb | src/index.ts:14-16 | `toRgb` returns the stored sRGB record unchanged |
| Colora.ParsedColor.ToOklch | src/index.ts:34-37 | succeeds exactly when an OKLCH record is present and returns it; otherwise fails with "OKLCH conversion not implemented yet." |
| Colora.Clamp255Range | src/index.ts:21 | the result lies in [0, 255]; it is the input inside that range, 0 below it and 255 above it |
| Colora.To2Pair | src/index.ts:22-23 | for a value in [0, 255], two upper-case hex digits whose value is the rounded input |
| Colora.ToHexPairs | src/index.ts:18-32 | `toHex` is `#` and three or four upper-case hex pairs: the clamped, rounded channels, plus an alpha pair exactly when alpha < 1 |
| Colora.HexRoundTrip | src/index.ts:18-32 | parsing `toHex` text gives the clamped, rounded channels, and alpha to the nearest 1/255 (1 when alpha >= 1) |
| Colora.HexRoundTripBytes | src/index.ts:75-105 | for whole channels in [0, 255] and alpha k/255, parsing `toHex` text gives back the colour itself |
| Colora.ParseColorOfHex | src/index.ts:63-73 | `parseColor` of `toHex` text succeeds with the rounded hex colour and no OKLCH record |
| Colora.ParseColor | src/index.ts:63-73 | succeeds iff the trimmed input parses as hex or as rgb(); a hex colour is returned when there is one, otherwise the rgb() colour; never an OKLCH record; the error message is the prefix plus the untrimmed input |
| Colora.ParseHex | src/index.ts:75-105 | accepts exactly `#` followed by 3, 4, 6 or 8 hex digits; every channel is a byte; alpha is 1 without an alpha digit; short-form channels are multiples of 17 |
| Colora.ParseHexShort | src/index.ts:75-105 | `#` and 3 or 4 hex digits of either case: each channel is its digit doubled (digit × 17), alpha is the fourth digit doubled over 255, else 1 |
| Colora.ParseHexPairs | src/index.ts:97-104 | `#` and 6 or 8 hex digits of either case: each channel is its pair's byte value, alpha is the fourth pair over 255, else 1 |
| Colora.RgbCall | src/index.ts:110-111 | for a text starting with `rgb(` or `rgba(` in any case: a match iff it ends with `)` and nothing between has a line break, and the captured body is exactly that middle text; no other text matches |
| Colora.ListValues | src/index.ts:122-124 | no value in the list is empty |
| Colora.ListValuesOf | src/index.ts:122-124 | values separated by runs of white space, or by commas with any white space around them, split back into the same values |
| Colora.ParseRgbCss | src/index.ts:107-153 | a result means the text is an rgb() call, and its alpha lies in [0, 1] |
| Colora.ParseRgbBody | src/index.ts:113-124 | a result needs a non-blank body with at least three list values; alpha lies in [0, 1] |
| Colora.RgbOf | src/index.ts:126-152 | channels are the first three values read by `parseCssNumber255`; alpha is read from the non-empty `/` part, else from a fourth value, else it is 1 |
| Colora.ParseCssNumber255 | src/index.ts:155-168 | a result needs a non-blank value |
| Colora.ParseCssAlpha | src/index.ts:170-183 | a result needs a non-blank value and lies in [0, 1] |
| Colora.CssNumberOfNumeral | src/index.ts:155-168 | a numeral n reads as its number v, and `n%` as v / 100 × 255, neither clamped |
| Colora.CssAlphaOfNumeral | src/index.ts:170-183 | a numeral n reads as v clamped into [0, 1], and `n%` as v / 100 clamped into [0, 1] |
| Colora.ParseRgbList | src/index.ts:107-153 | `rgb(`/`rgba(` in any case around values separated by white space, or by commas with white space around them, fails below three values and otherwise is read value by value |
| Colora.ParseRgbListAlpha | src/index.ts:116-119 | the same with ` / w` after the list: `w` is the alpha part |
| Colora.SecondSlashIgnored | src/index.ts:117-119 | text after a second `/` is ignored |
| Colora.CommasSameAsSpaces | src/index.ts:122-124 | a list separated by commas (with any white space around them) and the same list separated by runs of white space parse alike |
| Colora.LegacyAlphaSameAsSlash | src/index.ts:139-150 | `rgba(r,g,b,a)` parses as `rgb(r g b / a)` |
| Colora.SlashAlphaOverridesFourth | src/index.ts:139-150 | with a `/` alpha, a fourth list value is ignored |
| Colora.ExtraValuesIgnored | src/index.ts:126-150 | list values after the fourth are ignored |
| Colora.BlankBodyRejected | src/index.ts:113-114 | `rgb(` with a blank body is rejected |
| Colora.LonePercentIsZero | src/index.ts:159-162 | a lone `%` reads as 0, both as a channel and as alpha, because `Number("")` is 0 |
| Colora.CssNumberOfInt | src/index.ts:165-167 | the decimal text of an integer reads back as that integer |
| Colora.CssAlphaOfTrimFloat | src/index.ts:57-60 | `trimFloat` of an alpha in [0, 1] reads back as the alpha rounded to four decimals |
| Colora.CssRoundTrip | src/index.ts:39-50 | `parseColor(toCss())` gives the rounded channels, and alpha 1 or the clamped alpha to four decimals |
| Colora.CssRoundTripExact | src/index.ts:39-50 | for whole channels and an alpha in [0, 1] with at most four decimals, `parseColor(toCss())` gives back the colour itself |
| ColorTypes.Clamp01 | src/index.ts:53-55 | the result lies in [0, 1]; it is the input inside that range, 0 below it and 1 above it |
| JsNumber.MathRoundNearest | src/index.ts:42-44 | `Math.round`: an integer n is the result iff x - 1/2 < n <= x + 1/2 (halves round up) |
| JsNumber.TrimFloatShape | src/index.ts:57-60 | `trimFloat` text is a decimal numeral; any point has one to four digits after it; it never ends in `0` after a point |
| JsNumber.TrimFloatNumber | src/oklch_css.ts:5-8 | `Number(trimFloat(x))` is x rounded to four decimals, halves away from zero |
| JsNumber.Round4Bounds | src/oklch_css.ts:5-8 | four-decimal rounding moves a value by at most 0.00005 and keeps [0, 1] and the sign |
| JsNumber.Round4Exact | src/oklch_css.ts:5-8 | a value with at most four decimals is unchanged by the rounding |
| JsNumber.StripZeroTailMatch | src/index.ts:59 | the strip removes exactly the leftmost match of `\.?0+$`: the removed tail matches, and no earlier suffix does |
| JsNumber.NumberOfInt | src/index.ts:165-167 | `Number` of an integer's decimal text is that integer |
| JsNumber.Rem360 | src/oklch_css.ts:65 | JavaScript's `%` by 360: the result takes the sign of the dividend, its size is below 360, and it differs from the dividend by whole turns |
| JsText.Trim | src/index.ts:64 | the trimmed text has no white space or line terminator at either end |
| JsText.TrimIdentity | src/index.ts:64 | text with no white space at its ends is unchanged by trimming |
| JsText.Split | src/index.ts:117 | at least one part, and no part contains the separator |
| JsText.SplitSpaced | src/index.ts:124 | splitting values separated by runs of white space at every white-space character, then dropping empty pieces, gives back the values |
| JsText.SplitCommas | src/index.ts:123 | splitting values separated by commas with white space around them at the commas, then trimming each piece, gives back the values |
| JsText.SlashPartsOne | src/index.ts:117-119 | `l / w` splits into list `l` and alpha part `w` |
| JsText.SlashPartsTwo | src/oklch_css.ts:79-81 | `l / w / u` splits into `l` and `w`; the rest is dropped |
| OklchCss.ParseAlpha | src/oklch_css.ts:10-24 | no alpha text gives no value; otherwise it is read like `parseL` and lies in [0, 1] |
| OklchCss.ParseL | src/oklch_css.ts:26-40 | a result needs a non-blank value and lies in [0, 1] |
| OklchCss.ParseC | src/oklch_css.ts:42-45 | succeeds iff `Number` of the trimmed text does, and is that number with negatives raised to 0 |
| OklchCss.PercentNumeral | src/oklch_css.ts:30-34 | a numeral followed by `%` reads as the number over 100, clamped to [0, 1] |
| OklchCss.PlainNumeral | src/oklch_css.ts:26-45 | a bare numeral reads as the number clamped to [0, 1] in `parseL`, and as the number raised to 0 in `parseC` |
| OklchCss.HueNumeralComplete | src/oklch_css.ts:51 | every sign, digits, optional point, digits (at least one) text is accepted as the hue's number |
| OklchCss.HueNumeralSound | src/oklch_css.ts:51 | every accepted hue number has that shape |
| OklchCss.SplitUnit | src/oklch_css.ts:51-55 | the text is the number part followed by a unit that is one of `deg`, `rad`, `grad`, `turn` or none |
| OklchCss.SplitUnitOf | src/oklch_css.ts:51-55 | a hue numeral followed by a unit splits into exactly those two parts |
| OklchCss.NormalizeDegrees | src/oklch_css.ts:65 | the result lies in [0, 360) |
| OklchCss.NormalizeDegreesSpec | src/oklch_css.ts:65 | it differs from the input by whole turns and keeps an input already in [0, 360) |
| OklchCss.NormalizeDegreesIdempotent | src/oklch_css.ts:65 | normalising twice is normalising once |
| OklchCss.ParseHue | src/oklch_css.ts:47-67 | a result lies in [0, 360), and its number part is a hue numeral |
| OklchCss.ParseHueOf | src/oklch_css.ts:47-67 | a numeral with a unit parses as its value converted to degrees (deg when no unit) and normalised |
| OklchCss.HueAccepted | src/oklch_css.ts:47-67 | every numeral with any of the units is accepted |
| OklchCss.HueDefaultUnitIsDeg | src/oklch_css.ts:55 | a hue with no unit equals the same hue in `deg` |
| OklchCss.HueInRangeKept | src/oklch_css.ts:60-66 | degrees already in [0, 360) are returned unchanged |
| OklchCss.HueFullTurns | src/oklch_css.ts:63-65 | any whole number of turns is hue 0 |
| OklchCss.OklchCall | src/oklch_css.ts:70 | matches iff the text starts with `oklch(` in any case and ends with `)`; the body is what lies between |
| OklchCss.ParseOklchCss | src/oklch_css.ts:69-107 | a result means an oklch() call, with l in [0, 1], c >= 0, h in [0, 360) and alpha in [0, 1] |
| OklchCss.OklchOf | src/oklch_css.ts:86-106 | succeeds iff l, c, h and any non-empty alpha part parse; the fields are those values and alpha defaults to 1 |
| OklchCss.ParseOklchList | src/oklch_css.ts:83-84 | a list separated by runs of white space parses only with exactly three values, and then value by value |
| OklchCss.ParseOklchListAlpha | src/oklch_css.ts:79-84 | the same with ` / w`: `w` is the alpha part |
| OklchCss.BlankAlphaIsOpaque | src/oklch_css.ts:99-104 | an empty part after `/` is the same as no alpha |
| OklchCss.FormatRoundTrip | src/oklch_css.ts:109-117 | parsing `formatOklchCss(x)` gives x with l clamped to [0, 1], c raised to >= 0, h normalised (each rounded to four decimals, l as a percentage), and alpha 1 or the clamped alpha rounded |
| OklchCss.FormatRoundTripExact | src/oklch_css.ts:109-117 | for in-range values with at most four decimals (l as a percentage), parsing the formatted text gives back x itself |
| OklchCss.TextRoundTripOpaque | src/oklch_css.ts:115 | `oklch(L C H)` built from `trimFloat` texts parses back to the rounded values |
| OklchCss.TextRoundTripAlpha | src/oklch_css.ts:116 | `oklch(L C H / A)` parses back to the rounded values and alpha |
| HslTransform.HueSector | src/hsl.ts:19-30 | the hue in sixths lies in [0, 6): red max in [0, 1] or [5, 6), green max in [1, 3], blue max in [3, 5] |
| HslTransform.RgbToHsl | src/hsl.ts:6-35 | keeps alpha; the hue lies in [0, 360) |
| HslTransform.LightnessMidrange | src/hsl.ts:7-16 | lightness is (max + min) / 2 of the channels, on the 0..100 scale |
| HslTransform.GreyIffUnsaturated | src/hsl.ts:15-19 | saturation is 0 iff the three channels are equal, and then the hue is 0 |
| HslTransform.InRangeDefined | src/hsl.ts:17 | channels in [0, 255] never reach the division by zero |
| HslTransform.SaturationInRange | src/hsl.ts:17 | for channels in [0, 255], saturation lies in [0, 100] |
| HslTransform.HslToRgb | src/hsl.ts:37-62 | alpha is clamped to [0, 1]; every channel is a whole number; zero saturation gives a grey of the rounded lightness |
| HslTransform.HueToRgbBetween | src/hsl.ts:64-71 | for p <= q and t >= -1, the result lies between p and q |
| HslTransform.AnchorsInRange | src/hsl.ts:49-50 | for s and l in [0, 1]: 0 <= p <= q <= 1 |
| HslTransform.ChannelsInRange | src/hsl.ts:49-59 | for s and l in [0, 100] and any hue of at least -240, every channel lies in [0, 255] |
| HslTransform.HueOutsideRange | src/hsl.ts:64-67 | below that hue bound a channel leaves [0, 255]: hue -600 at full saturation gives green -1020 |
| HslTransform.AnchorsRecovered | src/hsl.ts:16-17 | from `rgbToHsl`'s l and s, `hslToRgb`'s upper anchor q is the channel maximum |
| HslTransform.ChannelsRecovered | src/hsl.ts:64-71 | with anchors min and max, `hueToRgb` at the hue ± 1/3 gives back each channel |
| HslTransform.RoundTrip | src/hsl.ts:6-62 | `hslToRgb(rgbToHsl(c))` is c with rounded channels and clamped alpha |
| HslTransform.RoundTripBytes | src/hsl.ts:6-62 | for integer channels in [0, 255] and alpha in [0, 1], the round trip gives c itself |

## Left out

- Floating point. Numbers are exact reals, so rounding error, `Infinity`, `NaN` and `-0` do not arise. Every `Number.isFinite` check therefore passes for a value that parsed.
- `Number()` accepts a trimmed, optionally signed decimal (`12`, `-.5`, `3.`) and the empty text (0). Exponents (`1e3`), hex/octal/binary literals and `Infinity` are not part of the model, so the model rejects such text where JavaScript would accept it.
- `toFixed(4)` is modelled as exact decimal rounding with halves away from zero. Its switch to exponent notation at 1e21 and its binary-rounding artefacts are not modelled.
- The regular expressions are written as explicit predicates and scanners, not as a regex engine. `toLowerCase`/`toUpperCase` are modelled on ASCII letters only.
- `ParsedColor`'s constructor is the datatype constructor. Its records are immutable values, so the copies made by `toRgb`/`toOklch` coincide with the originals.
- Exceptions from `parseColor` and `toOklch` are `Err` results carrying the message.
- `Colora.ParseHex`: its own contract states acceptance, ranges and the short-form multiples of 17. The channel values are stated by `ParseHexShort` and `ParseHexPairs`.
- `Colora.ParseCssNumber255` and `Colora.ParseCssAlpha`: their own contracts state only when a value results and its range. The values are stated by `CssNumberOfNumeral` and `CssAlphaOfNumeral`.
- `Colora.ParsedColor.ToHex` and `Colora.ParsedColor.ToCss` carry no contract of their own. What they promise is stated by `ToHexPairs`, `HexRoundTrip`, `CssRoundTrip` and `CssRoundTripExact`.
- `HslTransform.RgbToHsl`: requires that the saturation divisor is non-zero or the channels are equal. JavaScript yields `Infinity`/`NaN` there, for example when a channel exceeds 255. Channels in [0, 255] always meet it (`InRangeDefined`).
- `HslTransform.ChannelsInRange`: holds only for hue of at least -240, because `hueToRgb` adds at most one turn to a negative parameter. `HueOutsideRange` shows the out-of-range channel below that bound; above it every hue is safe.
- `HslTransform.RoundTrip`: the hue and saturation texts are not rounded by the source, so the round trip is stated on exact values. JavaScript's `1 / 3` is taken as an exact third.
- `Colora.ParseRgbListAlpha`, `Colora.SecondSlashIgnored` and `OklchCss.ParseOklchListAlpha`: a `/` is written with one space on each side. Other spacing around the slash, and white space just inside the parentheses, are not covered by these lemmas.
- `rad` hues use π as the exact rational value of the double `Math.PI`.
- src/oklab.ts (OKLab/OKLCH conversion) and src/p3.ts are not part of this model. `parseColor` never calls them.
