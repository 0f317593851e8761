/**
  The library's entry module (src/index.ts): `parseColor`, the `#hex` and `rgb()` parsers,
  the per-token number parsers, and the `ParsedColor` value with its formatters.
 */
module Colora {
  import opened Wrappers
  import opened JsText
  import opened JsNumber
  import opened ColorTypes

  const OklchMissing: string := "OKLCH conversion not implemented yet."
  const UnsupportedPrefix: string := "Unsupported color format: "

  /**
    The colour `parseColor` returns: a read-only sRGB record and an optional read-only
    OKLCH record. `parseColor` never supplies the OKLCH record.
   */
  datatype ParsedColor = ParsedColor(rgb: Rgb, oklch: Option<Oklch>) {

    /** `toRgb`: a copy of the stored record (records are values here, so the copy is the record). */
    function ToRgb(): (r: Rgb)
      ensures r == rgb
    {
      rgb
    }

    /**
      `toHex`: `#RRGGBB`, followed by `AA` only when alpha is below 1; each pair is the
      clamped, rounded channel in upper-case hex (see `ToHexPairs`).
     */
    function ToHex(): string {
      var head := "#" + To2(Clamp255(rgb.r)) + To2(Clamp255(rgb.g)) + To2(Clamp255(rgb.b));
      if rgb.a >= 1.0 then head else head + To2(Clamp255(rgb.a * 255.0))
    }

    /** `toOklch`: fails unless an OKLCH record was supplied. */
    function ToOklch(): (r: Result<Oklch, string>)
      ensures r.Ok? <==> oklch.Some?
      ensures r.Err? ==> r.error == OklchMissing
      ensures r.Ok? ==> r.value == oklch.value
    {
      if oklch.None? then Err(OklchMissing) else Ok(oklch.value)
    }

    /** `toCss`: `rgb(r g b)` with rounded channels, and ` / alpha` only when the clamped alpha is below 1. */
    function ToCss(): string {
      var rr := IntToString(MathRound(rgb.r));
      var gg := IntToString(MathRound(rgb.g));
      var bb := IntToString(MathRound(rgb.b));
      var aa := Clamp01(rgb.a);
      var list := rr + " " + gg + " " + bb;
      if aa >= 1.0 then "rgb(" + list + ")" else "rgb(" + list + " / " + TrimFloat(aa) + ")"
    }
  }

  predicate IsUpperHexDigit(c: char) {
    IsDigit(c) || 'A' <= c <= 'F'
  }

  /** The byte written as the two hex digits at `s[i]` and `s[i + 1]`. */
  function PairValue(s: string, i: nat): int {
    if i + 1 < |s| && IsHexDigit(s[i]) && IsHexDigit(s[i + 1]) then HexValue(s[i]) * 16 + HexValue(s[i + 1])
    else -1
  }

  /** `x` is a whole number in [0, 255]. */
  predicate IsByte(x: real) {
    IsWhole(x) && 0.0 <= x <= 255.0
  }

  /** `Math.max(0, Math.min(255, n))`. */
  function Clamp255(n: real): real {
    Max(0.0, Min(255.0, n))
  }

  /** `Clamp255` is the nearest point of [0, 255]. */
  lemma Clamp255Range(n: real)
    ensures 0.0 <= Clamp255(n) <= 255.0
    ensures 0.0 <= n <= 255.0 ==> Clamp255(n) == n
    ensures n < 0.0 ==> Clamp255(n) == 0.0
    ensures n > 255.0 ==> Clamp255(n) == 255.0
  {
  }

  /**
    `Math.round(n).toString(16).padStart(2, "0").toUpperCase()`. On [0, 255] it is two
    upper-case hex digits whose value is the rounded `n`.
   */
  function To2(n: real): string {
    ToUpper(PadStart2(IntToHex(MathRound(n))))
  }

  /** On [0, 255], `To2` writes two upper-case hex digits whose value is the rounded input. */
  lemma To2Pair(n: real)
    requires 0.0 <= n <= 255.0
    ensures var s := To2(n);
      |s| == 2 && IsUpperHexDigit(s[0]) && IsUpperHexDigit(s[1]) && PairValue(s, 0) == MathRound(n)
  {
    HexByte(MathRound(n));
  }

  lemma HexByte(k: int)
    requires 0 <= k <= 255
    ensures var s := ToUpper(PadStart2(IntToHex(k)));
      |s| == 2 && IsUpperHexDigit(s[0]) && IsUpperHexDigit(s[1]) && PairValue(s, 0) == k
  {
    if k < 16 {
      HexDigitsSmall(k);
    } else {
      HexDigitsLarge(k);
    }
    UpperPair(PadStart2(IntToHex(k)));
  }

  /** Two hex digits as `toString(16)` writes them: digits or lower-case letters. */
  predicate IsLowerHexPair(p: string) {
    |p| == 2 && IsHexDigit(p[0]) && IsHexDigit(p[1]) && !('A' <= p[0] <= 'Z') && !('A' <= p[1] <= 'Z')
  }

  lemma HexDigitsSmall(k: int)
    requires 0 <= k < 16
    ensures IsLowerHexPair(PadStart2(IntToHex(k))) && PairValue(PadStart2(IntToHex(k)), 0) == k
  {
    var h := NatToHex(k);
    assert h == [LowerHexChar(k)];
    var p := PadStart2(h);
    assert p == "0" + h;
    assert p[0] == '0' && p[1] == LowerHexChar(k);
  }

  lemma HexDigitsLarge(k: int)
    requires 16 <= k <= 255
    ensures IsLowerHexPair(PadStart2(IntToHex(k))) && PairValue(PadStart2(IntToHex(k)), 0) == k
  {
    var h := NatToHex(k);
    assert NatToHex(k / 16) == [LowerHexChar(k / 16)];
    assert h == [LowerHexChar(k / 16), LowerHexChar(k % 16)];
    assert PadStart2(h) == h;
  }

  lemma UpperPair(p: string)
    requires IsLowerHexPair(p)
    ensures var s := ToUpper(p);
      |s| == 2 && IsUpperHexDigit(s[0]) && IsUpperHexDigit(s[1]) && PairValue(s, 0) == PairValue(p, 0)
  {
    var s := ToUpper(p);
    assert ToUpper(p[1..]) == [UpperAscii(p[1])] + ToUpper(p[1..][1..]);
    assert p[1..][1..] == [];
    assert s == [UpperAscii(p[0]), UpperAscii(p[1])];
    UpperHex(p[0]);
    UpperHex(p[1]);
  }

  /** Upper-casing a lower-case hex digit keeps its value. */
  lemma UpperHex(c: char)
    requires IsHexDigit(c) && !('A' <= c <= 'Z')
    ensures IsUpperHexDigit(UpperAscii(c)) && IsHexDigit(UpperAscii(c))
    ensures HexValue(UpperAscii(c)) == HexValue(c)
  {
  }

  /** The pair of hex digits at `s[i..i + 2]` is read where it stands. */
  lemma PairAt(s: string, i: nat, p: string)
    requires |p| == 2 && i + 2 <= |s| && s[i..i + 2] == p
    ensures PairValue(s, i) == PairValue(p, 0)
  {
    assert s[i] == p[0] && s[i + 1] == p[1];
  }

  predicate IsHexPair(p: string) {
    |p| == 2 && IsUpperHexDigit(p[0]) && IsUpperHexDigit(p[1])
  }

  /** `#` and three pairs of upper-case hex digits, each read back where it stands. */
  lemma HexPairsLayout(rr: string, gg: string, bb: string)
    requires IsHexPair(rr) && IsHexPair(gg) && IsHexPair(bb)
    ensures var s := "#" + rr + gg + bb;
      && |s| == 7 && s[0] == '#' && (forall i :: 1 <= i < |s| ==> IsUpperHexDigit(s[i]))
      && PairValue(s, 1) == PairValue(rr, 0) && PairValue(s, 3) == PairValue(gg, 0)
      && PairValue(s, 5) == PairValue(bb, 0)
  {
    var s := "#" + rr + gg + bb;
    assert s[1..3] == rr && s[3..5] == gg && s[5..7] == bb;
    PairAt(s, 1, rr);
    PairAt(s, 3, gg);
    PairAt(s, 5, bb);
  }

  /** The pair for `x` after `#` and three pairs is read back where it stands, and leaves the first three in place. */
  lemma HexAlphaLayout(head: string, x: real)
    requires |head| == 7 && head[0] == '#' && (forall i :: 1 <= i < |head| ==> IsUpperHexDigit(head[i]))
    ensures var s := head + To2(Clamp255(x));
      && |s| == 9 && s[0] == '#' && (forall i :: 1 <= i < |s| ==> IsUpperHexDigit(s[i]))
      && PairValue(s, 1) == PairValue(head, 1) && PairValue(s, 3) == PairValue(head, 3)
      && PairValue(s, 5) == PairValue(head, 5) && PairValue(s, 7) == MathRound(Clamp255(x))
  {
    var aa := To2(Clamp255(x));
    ClampedPair(x);
    var s := head + aa;
    assert s[7..9] == aa;
    PairAt(s, 7, aa);
  }

  /**
    `toHex` writes `#`, then two upper-case hex digits per channel whose value is the
    clamped, rounded channel, then the alpha pair exactly when alpha is below 1.
   */
  lemma ToHexPairs(c: ParsedColor)
    ensures var s := c.ToHex();
      && |s| == (if c.rgb.a >= 1.0 then 7 else 9) && s[0] == '#'
      && (forall i :: 1 <= i < |s| ==> IsUpperHexDigit(s[i]))
      && PairValue(s, 1) == MathRound(Clamp255(c.rgb.r))
      && PairValue(s, 3) == MathRound(Clamp255(c.rgb.g))
      && PairValue(s, 5) == MathRound(Clamp255(c.rgb.b))
      && (c.rgb.a < 1.0 ==> PairValue(s, 7) == MathRound(Clamp255(c.rgb.a * 255.0)))
  {
    if c.rgb.a >= 1.0 {
      ToHexOpaquePairs(c);
    } else {
      ToHexAlphaPairs(c);
    }
  }

  lemma ToHexOpaquePairs(c: ParsedColor)
    requires c.rgb.a >= 1.0
    ensures var s := c.ToHex();
      && |s| == 7 && s[0] == '#' && (forall i :: 1 <= i < |s| ==> IsUpperHexDigit(s[i]))
      && PairValue(s, 1) == MathRound(Clamp255(c.rgb.r))
      && PairValue(s, 3) == MathRound(Clamp255(c.rgb.g))
      && PairValue(s, 5) == MathRound(Clamp255(c.rgb.b))
  {
    var rr, gg, bb := To2(Clamp255(c.rgb.r)), To2(Clamp255(c.rgb.g)), To2(Clamp255(c.rgb.b));
    ClampedPair(c.rgb.r);
    ClampedPair(c.rgb.g);
    ClampedPair(c.rgb.b);
    assert c.ToHex() == "#" + rr + gg + bb;
    HexPairsLayout(rr, gg, bb);
  }

  lemma ToHexAlphaPairs(c: ParsedColor)
    requires c.rgb.a < 1.0
    ensures var s := c.ToHex();
      && |s| == 9 && s[0] == '#' && (forall i :: 1 <= i < |s| ==> IsUpperHexDigit(s[i]))
      && PairValue(s, 1) == MathRound(Clamp255(c.rgb.r))
      && PairValue(s, 3) == MathRound(Clamp255(c.rgb.g))
      && PairValue(s, 5) == MathRound(Clamp255(c.rgb.b))
      && PairValue(s, 7) == MathRound(Clamp255(c.rgb.a * 255.0))
  {
    var rr, gg, bb := To2(Clamp255(c.rgb.r)), To2(Clamp255(c.rgb.g)), To2(Clamp255(c.rgb.b));
    ClampedPair(c.rgb.r);
    ClampedPair(c.rgb.g);
    ClampedPair(c.rgb.b);
    var head := "#" + rr + gg + bb;
    HexPairsLayout(rr, gg, bb);
    HexAlphaLayout(head, c.rgb.a * 255.0);
  }

  lemma ClampedPair(x: real)
    ensures IsHexPair(To2(Clamp255(x))) && PairValue(To2(Clamp255(x)), 0) == MathRound(Clamp255(x))
  {
    Clamp255Range(x);
    To2Pair(Clamp255(x));
  }

  // ---------------------------------------------------------------- parseColor

  /** `parseColor`: the trimmed input as hex, else as `rgb()`, else a failure naming the input. */
  function ParseColor(input: string): (r: Result<ParsedColor, string>)
    ensures r.Ok? <==> ParseHex(Trim(input)).Some? || ParseRgbCss(Trim(input)).Some?
    ensures r.Ok? ==> r.value.oklch.None?
    ensures ParseHex(Trim(input)).Some? ==> r == Ok(ParsedColor(ParseHex(Trim(input)).value, None))
    ensures ParseHex(Trim(input)).None? && ParseRgbCss(Trim(input)).Some? ==>
      r == Ok(ParsedColor(ParseRgbCss(Trim(input)).value, None))
    ensures r.Err? ==> r.error == UnsupportedPrefix + input
  {
    var s := Trim(input);
    var hex := ParseHex(s);
    if hex.Some? then Ok(ParsedColor(hex.value, None))
    else
      var rgb := ParseRgbCss(s);
      if rgb.Some? then Ok(ParsedColor(rgb.value, None))
      else Err(UnsupportedPrefix + input)
  }

  // ---------------------------------------------------------------- parseHex

  /** A `#` followed by 3, 4, 6 or 8 hex digits of either case. */
  predicate IsHexText(s: string) {
    (|s| == 4 || |s| == 5 || |s| == 7 || |s| == 9) && s[0] == '#'
    && forall i :: 1 <= i < |s| ==> IsHexDigit(s[i])
  }

  /** The text captured by `/^#(?<hex>[0-9a-fA-F]{3,4}|[0-9a-fA-F]{6}|[0-9a-fA-F]{8})$/`. */
  function HexGroup(s: string): (m: Option<string>)
    ensures m.Some? <==> IsHexText(s)
    ensures m.Some? ==> m.value == s[1..]
  {
    if |s| >= 1 && s[0] == '#' then
      var h := s[1..];
      assert forall i :: 1 <= i < |s| ==> s[i] == h[i - 1];
      if (3 <= |h| <= 4 || |h| == 6 || |h| == 8) && forall i :: 0 <= i < |h| ==> IsHexDigit(h[i])
      then Some(h) else None
    else None
  }

  /** `parseInt(ch + ch, 16)`: one hex digit doubled. */
  function Doubled(c: char): (v: real)
    requires IsHexDigit(c)
    ensures IsByte(v) && IsWhole(v / 17.0)
  {
    var k := HexValue(c) * 17;
    assert (k as real / 17.0).Floor == HexValue(c);
    k as real
  }

  /** `parseInt(h.slice(i, i + 2), 16)`. */
  function Pair(h: string, i: nat): (v: real)
    requires i + 1 < |h| && IsHexDigit(h[i]) && IsHexDigit(h[i + 1])
    ensures IsByte(v) && v == PairValue(h, i) as real
  {
    (HexValue(h[i]) * 16 + HexValue(h[i + 1])) as real
  }

  /** The channels of a captured hex group: doubled digits in the short forms, pairs in the long ones. */
  function HexChannels(h: string): (r: Rgb)
    requires 3 <= |h| <= 4 || |h| == 6 || |h| == 8
    requires forall i :: 0 <= i < |h| ==> IsHexDigit(h[i])
    ensures IsByte(r.r) && IsByte(r.g) && IsByte(r.b) && IsByte(r.a * 255.0) && 0.0 <= r.a <= 1.0
    ensures |h| == 3 || |h| == 6 ==> r.a == 1.0
    ensures |h| <= 4 ==> IsWhole(r.r / 17.0) && IsWhole(r.g / 17.0) && IsWhole(r.b / 17.0)
  {
    var alphaByte := if |h| == 4 then Doubled(h[3]) else if |h| == 8 then Pair(h, 6) else 255.0;
    assert alphaByte / 255.0 * 255.0 == alphaByte;
    if |h| <= 4 then
      Rgb(Doubled(h[0]), Doubled(h[1]), Doubled(h[2]), alphaByte / 255.0)
    else
      Rgb(Pair(h, 0), Pair(h, 2), Pair(h, 4), alphaByte / 255.0)
  }

  /**
    `parseHex`: accepts exactly `#` and 3, 4, 6 or 8 hex digits of either case. The channels
    are whole numbers in [0, 255] (multiples of 17 in the short forms), and alpha is 1 when
    the alpha digits are absent; `ParseHexShort` and `ParseHexPairs` give the values.
   */
  function ParseHex(s: string): (r: Option<Rgb>)
    ensures r.Some? <==>
      (|s| == 4 || |s| == 5 || |s| == 7 || |s| == 9) && s[0] == '#'
      && forall i :: 1 <= i < |s| ==> IsHexDigit(s[i])
    ensures r.Some? ==>
      IsByte(r.value.r) && IsByte(r.value.g) && IsByte(r.value.b)
      && IsByte(r.value.a * 255.0) && 0.0 <= r.value.a <= 1.0
    ensures r.Some? && (|s| == 4 || |s| == 7) ==> r.value.a == 1.0
    ensures r.Some? && (|s| == 4 || |s| == 5) ==>
      IsWhole(r.value.r / 17.0) && IsWhole(r.value.g / 17.0) && IsWhole(r.value.b / 17.0)
  {
    var m := HexGroup(s);
    if m.None? then None else Some(HexChannels(m.value))
  }

  /** `#` and three or four hex digits of either case: each channel is its digit doubled, and alpha is the fourth digit doubled over 255. */
  lemma ParseHexShort(s: string)
    requires (|s| == 4 || |s| == 5) && s[0] == '#' && forall i :: 1 <= i < |s| ==> IsHexDigit(s[i])
    ensures ParseHex(s) == Some(Rgb((HexValue(s[1]) * 17) as real, (HexValue(s[2]) * 17) as real, (HexValue(s[3]) * 17) as real,
                                    if |s| == 5 then (HexValue(s[4]) * 17) as real / 255.0 else 1.0))
  {
    var h := s[1..];
    assert forall i :: 0 <= i < |h| ==> h[i] == s[i + 1] && IsHexDigit(h[i]);
    assert HexGroup(s) == Some(h);
  }

  /** `#` and six or eight hex digits of either case parse to the pairs' values, alpha being the fourth pair over 255. */
  lemma ParseHexPairs(s: string, r: int, g: int, b: int, a: real)
    requires (|s| == 7 || |s| == 9) && s[0] == '#' && forall i :: 1 <= i < |s| ==> IsHexDigit(s[i])
    requires PairValue(s, 1) == r && PairValue(s, 3) == g && PairValue(s, 5) == b
    requires a == if |s| == 9 then PairValue(s, 7) as real / 255.0 else 1.0
    ensures ParseHex(s) == Some(Rgb(r as real, g as real, b as real, a))
  {
    var h := s[1..];
    assert forall i :: 0 <= i < |h| ==> h[i] == s[i + 1] && IsHexDigit(h[i]);
    assert HexGroup(s) == Some(h);
    assert PairValue(h, 0) == PairValue(s, 1) && PairValue(h, 2) == PairValue(s, 3) && PairValue(h, 4) == PairValue(s, 5);
    if |s| == 9 {
      assert PairValue(h, 6) == PairValue(s, 7);
    }
  }

  /** The rounded, clamped channels and alpha that `toHex` keeps: what parsing its text gives back. */
  function HexRounded(c: Rgb): Rgb {
    Rgb(MathRound(Clamp255(c.r)) as real, MathRound(Clamp255(c.g)) as real, MathRound(Clamp255(c.b)) as real,
        if c.a >= 1.0 then 1.0 else MathRound(Clamp255(c.a * 255.0)) as real / 255.0)
  }

  /** Parsing the text of `toHex` gives the clamped, rounded channels, and alpha to the nearest 1/255 (1 when alpha is at least 1). */
  lemma HexRoundTrip(c: ParsedColor)
    ensures ParseHex(c.ToHex()) == Some(HexRounded(c.rgb))
  {
    var x := HexRounded(c.rgb);
    var s := c.ToHex();
    ToHexPairs(c);
    ParseHexPairs(s, MathRound(Clamp255(c.rgb.r)), MathRound(Clamp255(c.rgb.g)), MathRound(Clamp255(c.rgb.b)), x.a);
  }

  /** For whole channels in [0, 255] and alpha k/255, `parseHex(toHex(c))` is `c`'s own record. */
  lemma HexRoundTripBytes(c: ParsedColor, k: int)
    requires IsByte(c.rgb.r) && IsByte(c.rgb.g) && IsByte(c.rgb.b)
    requires 0 <= k <= 255 && c.rgb.a == k as real / 255.0
    ensures ParseHex(c.ToHex()) == Some(c.rgb)
  {
    ByteRgbUnchanged(c.rgb, k);
    HexRoundTrip(c);
  }

  lemma ByteRgbUnchanged(x: Rgb, k: int)
    requires IsByte(x.r) && IsByte(x.g) && IsByte(x.b)
    requires 0 <= k <= 255 && x.a == k as real / 255.0
    ensures HexRounded(x) == x
  {
    WholeByteUnchanged(x.r);
    WholeByteUnchanged(x.g);
    WholeByteUnchanged(x.b);
    AlphaByteUnchanged(k);
  }

  lemma WholeByteUnchanged(x: real)
    requires IsByte(x)
    ensures MathRound(Clamp255(x)) as real == x
  {
    ByteUnchanged(x.Floor);
  }

  lemma ByteUnchanged(k: int)
    requires 0 <= k <= 255
    ensures MathRound(Clamp255(k as real)) == k
  {
    MathRoundOfInteger(k);
  }

  lemma AlphaByteUnchanged(k: int)
    requires 0 <= k <= 255
    ensures var a := k as real / 255.0;
      (if a >= 1.0 then 1.0 else MathRound(Clamp255(a * 255.0)) as real / 255.0) == a
  {
    var a := k as real / 255.0;
    if k < 255 {
      assert a * 255.0 == k as real;
      ByteUnchanged(k);
    }
  }

  /** `parseColor` reads the text of `toHex` as that hex colour, with no OKLCH record. */
  lemma ParseColorOfHex(c: ParsedColor)
    ensures ParseColor(c.ToHex()) == Ok(ParsedColor(HexRounded(c.rgb), None))
  {
    var s := c.ToHex();
    ToHexPairs(c);
    HexRoundTrip(c);
    ParseColorOfHexText(s, HexRounded(c.rgb));
  }

  lemma ParseColorOfHexText(s: string, x: Rgb)
    requires |s| > 1 && s[0] == '#' && IsUpperHexDigit(s[|s| - 1]) && ParseHex(s) == Some(x)
    ensures ParseColor(s) == Ok(ParsedColor(x, None))
  {
    TrimIdentity(s);
  }

  // ---------------------------------------------------------------- rgb()

  /** The text captured by `/^(rgba?)\((.*)\)$/i`; `.` does not match a line terminator. */
  function RgbCall(s: string): (body: Option<string>)
    ensures body.Some? ==> |s| >= 5 && s[|s| - 1] == ')'
    ensures body.Some? ==> StartsWithIgnoreCase(s, "rgb(") || StartsWithIgnoreCase(s, "rgba(")
    ensures StartsWithIgnoreCase(s, "rgb(") ==>
      (body.Some? <==> |s| >= 5 && s[|s| - 1] == ')' && NoneSatisfy(s[4..|s| - 1], IsLineTerminator))
      && (body.Some? ==> body.value == s[4..|s| - 1])
    ensures StartsWithIgnoreCase(s, "rgba(") ==>
      (body.Some? <==> |s| >= 6 && s[|s| - 1] == ')' && NoneSatisfy(s[5..|s| - 1], IsLineTerminator))
      && (body.Some? ==> body.value == s[5..|s| - 1])
  {
    assert StartsWithIgnoreCase(s, "rgba(") ==> !StartsWithIgnoreCase(s, "rgb(") by {
      if StartsWithIgnoreCase(s, "rgba(") {
        assert ToLower(s[..4])[3] == LowerAscii(s[3]) == ToLower(s[..5])[3];
      }
    }
    var open := if StartsWithIgnoreCase(s, "rgb(") then 4 else if StartsWithIgnoreCase(s, "rgba(") then 5 else 0;
    if open > 0 && |s| > open && s[|s| - 1] == ')' && NoneSatisfy(s[open..|s| - 1], IsLineTerminator)
    then Some(s[open..|s| - 1])
    else None
  }

  /** The values of the list: split at commas when there is one, else at white space; trimmed; empty ones dropped. */
  function ListValues(left: string): (nums: seq<string>)
    ensures forall i :: 0 <= i < |nums| ==> nums[i] != []
  {
    if ',' in left then NonEmpty(MapTrim(Split(left, IsComma)))
    else NonEmpty(MapTrim(Split(left, IsSpace)))
  }

  /**
    `parseRgbCss`: `rgb(`/`rgba(` in any case, a non-blank body, at least three values.
    Alpha comes from a non-empty text after the first `/`, else from a fourth value, else is 1.
   */
  function ParseRgbCss(s: string): (r: Option<Rgb>)
    ensures r.Some? ==> RgbCall(s).Some? && 0.0 <= r.value.a <= 1.0
  {
    var body := RgbCall(s);
    if body.None? then None else ParseRgbBody(body.value)
  }

  function ParseRgbBody(raw: string): (r: Option<Rgb>)
    ensures r.Some? ==> 0.0 <= r.value.a <= 1.0
    ensures r.Some? ==> Trim(raw) != [] && |ListValues(SlashParts(Trim(raw)).0)| >= 3
  {
    var body := Trim(raw);
    if body == [] then None
    else
      var (left, alphaPart) := SlashParts(body);
      var nums := ListValues(left);
      if |nums| < 3 then None else RgbOf(nums, alphaPart)
  }

  /** The record from three or more values and the optional slash alpha text. */
  function RgbOf(nums: seq<string>, alphaPart: Option<string>): (r: Option<Rgb>)
    requires |nums| >= 3
    ensures r.Some? ==> 0.0 <= r.value.a <= 1.0
    ensures r.Some? ==>
      Some(r.value.r) == ParseCssNumber255(nums[0]) && Some(r.value.g) == ParseCssNumber255(nums[1])
      && Some(r.value.b) == ParseCssNumber255(nums[2])
    ensures r.Some? && alphaPart.Some? && alphaPart.value != [] ==> Some(r.value.a) == ParseCssAlpha(alphaPart.value)
    ensures r.Some? && (alphaPart.None? || alphaPart.value == []) && |nums| > 3 ==> Some(r.value.a) == ParseCssAlpha(nums[3])
    ensures r.Some? && (alphaPart.None? || alphaPart.value == []) && |nums| == 3 ==> r.value.a == 1.0
  {
    var r := ParseCssNumber255(nums[0]);
    var g := ParseCssNumber255(nums[1]);
    var b := ParseCssNumber255(nums[2]);
    if r.None? || g.None? || b.None? then None
    else
      var a := if alphaPart.Some? && alphaPart.value != [] then ParseCssAlpha(alphaPart.value)
               else if |nums| > 3 then ParseCssAlpha(nums[3])
               else Some(1.0);
      if a.None? then None else Some(Rgb(r.value, g.value, b.value, a.value))
  }

  /** `t.slice(0, -1)` when `t` ends with `%`. */
  function WithoutPercent(t: string): string
    requires t != [] && t[|t| - 1] == '%'
  {
    t[..|t| - 1]
  }

  /** `parseCssNumber255`: the trimmed text as a number, or as a percentage of 255 when it ends with `%`; `CssNumberOfNumeral` gives the values. */
  function ParseCssNumber255(s: string): (r: Option<real>)
    ensures r.Some? ==> Trim(s) != []
  {
    var t := Trim(s);
    if t == [] then None
    else if t[|t| - 1] == '%' then
      var p := Number(WithoutPercent(t));
      if p.None? then None else Some(p.value / 100.0 * 255.0)
    else Number(t)
  }

  /** `parseCssAlpha`: as `parseCssNumber255`, a percentage being of 1, and the result clamped into [0, 1]; `CssAlphaOfNumeral` gives the values. */
  function ParseCssAlpha(s: string): (r: Option<real>)
    ensures r.Some? ==> Trim(s) != [] && 0.0 <= r.value <= 1.0
  {
    var t := Trim(s);
    if t == [] then None
    else if t[|t| - 1] == '%' then
      var p := Number(WithoutPercent(t));
      if p.None? then None else Some(Clamp01(p.value / 100.0))
    else
      var n := Number(t);
      if n.None? then None else Some(Clamp01(n.value))
  }

  // ---------------------------------------------------------------- rgb() lists

  /**
    Values and the gaps between them as `parseRgbCss` reads a list: every gap a run of white
    space, or every gap a comma with optional white space around it; no line break anywhere.
   */
  predicate RgbList(xs: seq<string>, gaps: seq<string>) {
    && |xs| >= 1 && |gaps| == |xs| - 1 && AllTokens(xs) && (SpaceGaps(gaps) || CommaGaps(gaps))
    && forall i :: 0 <= i < |gaps| ==> NoneSatisfy(gaps[i], IsLineTerminator)
  }

  /** The list parser reads values separated by runs of white space, or by commas, back as those values. */
  lemma ListValuesOf(xs: seq<string>, gaps: seq<string>)
    requires |xs| >= 1 && |gaps| == |xs| - 1 && AllTokens(xs) && (SpaceGaps(gaps) || CommaGaps(gaps))
    ensures ListValues(Spliced(xs, gaps)) == xs
  {
    var j := Spliced(xs, gaps);
    TokensFacts(xs);
    if |xs| >= 2 && CommaGaps(gaps) {
      CommaInside(xs, gaps);
      SplitCommas([], xs, gaps);
      assert [] + j == j;
      NonEmptyKeepsAll(xs);
    } else {
      forall i | 0 <= i < |gaps|
        ensures NoneSatisfy(gaps[i], IsComma)
      {
        GapFacts(gaps[i]);
      }
      SplicedNone(xs, gaps, IsComma);
      assert ',' !in j by {
        assert forall i :: 0 <= i < |j| ==> !IsComma(j[i]);
      }
      MapTrimSpacePieces(j);
      SplitSpaced(xs, gaps);
    }
  }

  /** The first comma gap puts a comma into the text. */
  lemma CommaInside(xs: seq<string>, gaps: seq<string>)
    requires |xs| >= 2 && |gaps| == |xs| - 1 && CommaGaps(gaps)
    ensures ',' in Spliced(xs, gaps)
  {
    var g := gaps[0];
    var k :| 0 <= k < |g| && g[k] == ',' && AllSpace(g[..k]) && AllSpace(g[k + 1..]);
    var j := Spliced(xs, gaps);
    assert j == xs[0] + g + Spliced(xs[1..], gaps[1..]);
    assert j[|xs[0]| + k] == ',';
  }

  /** The first `n` values and the gaps between them are a list too. */
  lemma RgbListPrefix(xs: seq<string>, gaps: seq<string>, n: nat)
    requires RgbList(xs, gaps) && 1 <= n <= |xs|
    ensures RgbList(xs[..n], gaps[..n - 1])
  {
    assert forall i :: 0 <= i < n ==> xs[..n][i] == xs[i];
    assert forall i :: 0 <= i < n - 1 ==> gaps[..n - 1][i] == gaps[i];
  }

  /** `rgb(` or `rgba(` with letters of either case, as the regex flag `i` allows. */
  predicate RgbPrefix(prefix: string) {
    ToLower(prefix) == "rgb(" || ToLower(prefix) == "rgba("
  }

  /** The lower-case prefixes qualify. */
  lemma LowerRgbPrefixes()
    ensures RgbPrefix("rgb(") && RgbPrefix("rgba(")
  {
    ToLowerNoUpper("rgb(");
    ToLowerNoUpper("rgba(");
  }

  /** `rgb(` or `rgba(` in any case, then a body with no line break, then `)`: the body is captured. */
  lemma RgbCallOf(prefix: string, body: string)
    requires RgbPrefix(prefix)
    requires NoneSatisfy(body, IsLineTerminator)
    ensures RgbCall(prefix + body + ")") == Some(body)
  {
    var s := prefix + body + ")";
    assert s[..|prefix|] == prefix;
    if ToLower(prefix) == "rgba(" {
      assert s[..4] == prefix[..4];
      assert ToLower(s[..4])[3] == ToLower(prefix)[3] == 'a';
    }
    assert s[|prefix|..|s| - 1] == body;
  }

  /** A trimmed, non-blank body is parsed from its slash parts. */
  lemma ParseRgbBodyOf(body: string, l: string, alpha: Option<string>)
    requires body != [] && NoEdgeSpace(body) && SlashParts(body) == (l, alpha)
    ensures ParseRgbBody(body) == if |ListValues(l)| < 3 then None else RgbOf(ListValues(l), alpha)
  {
    TrimIdentity(body);
  }

  /** `rgb(v1 v2 v3 …)` or `rgb(v1, v2, v3, …)`, with no slash: the values, and alpha from a fourth value or 1. */
  lemma ParseRgbList(prefix: string, xs: seq<string>, gaps: seq<string>)
    requires RgbPrefix(prefix)
    requires RgbList(xs, gaps)
    ensures ParseRgbCss(prefix + Spliced(xs, gaps) + ")") == if |xs| < 3 then None else RgbOf(xs, None)
  {
    var j := Spliced(xs, gaps);
    SplicedText(xs, gaps);
    ListValuesOf(xs, gaps);
    SlashPartsNone(j);
    RgbCallOf(prefix, j);
    ParseRgbBodyOf(j, j, None);
  }

  /** The text of a list, a slash and a value has no line break and no white space at either end. */
  lemma SlashedText(j: string, w: string, u: string)
    requires j != [] && NoEdgeSpace(j) && NoneSatisfy(j, IsLineTerminator)
    requires IsToken(w) && NoEdgeSpace(u) && NoneSatisfy(u, IsLineTerminator)
    ensures var t := j + " / " + w;
      t != [] && NoEdgeSpace(t) && NoneSatisfy(t, IsLineTerminator)
    ensures u != [] ==> var t := j + " / " + w + " / " + u;
      t != [] && NoEdgeSpace(t) && NoneSatisfy(t, IsLineTerminator)
  {
    TokenFacts(w);
    assert NoneSatisfy(" / ", IsLineTerminator);
    NoneSatisfyAppend(j, " / ", IsLineTerminator);
    NoneSatisfyAppend(j + " / ", w, IsLineTerminator);
    NoneSatisfyAppend(j + " / " + w, " / ", IsLineTerminator);
    NoneSatisfyAppend(j + " / " + w + " / ", u, IsLineTerminator);
    assert (j + " / " + w)[0] == j[0];
    assert (j + " / " + w + " / " + u)[0] == j[0];
  }

  /** An `rgb(`/`rgba(` call around a trimmed, non-blank body with no line break is parsed from its slash parts. */
  lemma ParseRgbCssOf(prefix: string, body: string, l: string, alpha: Option<string>)
    requires RgbPrefix(prefix)
    requires body != [] && NoEdgeSpace(body) && NoneSatisfy(body, IsLineTerminator) && SlashParts(body) == (l, alpha)
    ensures ParseRgbCss(prefix + body + ")") == if |ListValues(l)| < 3 then None else RgbOf(ListValues(l), alpha)
  {
    RgbCallOf(prefix, body);
    ParseRgbBodyOf(body, l, alpha);
  }

  /** `rgb(v1 v2 v3 … / w)`: the values, and alpha from `w`. */
  lemma ParseRgbListAlpha(prefix: string, xs: seq<string>, gaps: seq<string>, w: string)
    requires RgbPrefix(prefix)
    requires RgbList(xs, gaps) && IsToken(w)
    ensures ParseRgbCss(prefix + (Spliced(xs, gaps) + " / " + w) + ")") == if |xs| < 3 then None else RgbOf(xs, Some(w))
  {
    var j := Spliced(xs, gaps);
    SplicedText(xs, gaps);
    ListValuesOf(xs, gaps);
    TokenFacts(w);
    SlashedText(j, w, []);
    SlashPartsOne(j, w);
    ParseRgbCssOf(prefix, j + " / " + w, j, Some(w));
  }

  /** `rgb(v1 v2 v3 / w / u)`: a second slash and whatever follows it are ignored. */
  lemma SecondSlashIgnored(prefix: string, xs: seq<string>, gaps: seq<string>, w: string, u: string)
    requires RgbPrefix(prefix)
    requires RgbList(xs, gaps) && IsToken(w)
    requires u != [] && NoEdgeSpace(u) && NoneSatisfy(u, IsLineTerminator)
    ensures ParseRgbCss(prefix + (Spliced(xs, gaps) + " / " + w + " / " + u) + ")")
            == ParseRgbCss(prefix + (Spliced(xs, gaps) + " / " + w) + ")")
  {
    var j := Spliced(xs, gaps);
    SplicedText(xs, gaps);
    ListValuesOf(xs, gaps);
    TokenFacts(w);
    SlashedText(j, w, u);
    SlashPartsTwo(j, w, u);
    ParseRgbCssOf(prefix, j + " / " + w + " / " + u, j, Some(w));
    ParseRgbListAlpha(prefix, xs, gaps, w);
  }

  /** Commas and runs of white space between the values are read alike. */
  lemma CommasSameAsSpaces(prefix: string, xs: seq<string>, commas: seq<string>, spaces: seq<string>)
    requires RgbPrefix(prefix)
    requires RgbList(xs, commas) && CommaGaps(commas) && RgbList(xs, spaces) && SpaceGaps(spaces)
    ensures ParseRgbCss(prefix + Spliced(xs, commas) + ")") == ParseRgbCss(prefix + Spliced(xs, spaces) + ")")
  {
    ParseRgbList(prefix, xs, commas);
    ParseRgbList(prefix, xs, spaces);
  }

  /** The legacy `rgba(r,g,b,a)` gives the same colour as `rgb(r g b / a)`. */
  lemma LegacyAlphaSameAsSlash(r: string, g: string, b: string, a: string)
    requires IsToken(r) && IsToken(g) && IsToken(b) && IsToken(a)
    ensures ParseRgbCss("rgba(" + Join([r, g, b, a], ",") + ")") == ParseRgbCss("rgb(" + (Join([r, g, b], " ") + " / " + a) + ")")
  {
    var xs := [r, g, b, a];
    assert AllTokens(xs) && AllTokens(xs[..3]);
    assert xs[..3] == [r, g, b];
    UniformGaps(3);
    UniformGaps(2);
    LowerRgbPrefixes();
    ParseRgbList("rgba(", xs, Repeat(",", 3));
    ParseRgbListAlpha("rgb(", xs[..3], Repeat(" ", 2), a);
    RgbOfFourthAsSlash(xs);
  }

  lemma RgbOfFourthAsSlash(xs: seq<string>)
    requires |xs| == 4 && xs[3] != []
    ensures RgbOf(xs, None) == RgbOf(xs[..3], Some(xs[3]))
  {
  }

  lemma RgbOfSlashFirstThree(xs: seq<string>, w: string)
    requires |xs| >= 3 && w != []
    ensures RgbOf(xs, Some(w)) == RgbOf(xs[..3], Some(w))
  {
  }

  lemma RgbOfFirstFour(xs: seq<string>)
    requires |xs| >= 4
    ensures RgbOf(xs, None) == RgbOf(xs[..4], None)
  {
  }

  /** A slash alpha wins over a fourth value: the fourth and later values are then ignored. */
  lemma SlashAlphaOverridesFourth(prefix: string, xs: seq<string>, gaps: seq<string>, w: string)
    requires RgbPrefix(prefix)
    requires RgbList(xs, gaps) && |xs| >= 4 && IsToken(w)
    ensures ParseRgbCss(prefix + (Spliced(xs, gaps) + " / " + w) + ")")
            == ParseRgbCss(prefix + (Spliced(xs[..3], gaps[..2]) + " / " + w) + ")")
  {
    RgbListPrefix(xs, gaps, 3);
    ParseRgbListAlpha(prefix, xs, gaps, w);
    ParseRgbListAlpha(prefix, xs[..3], gaps[..2], w);
    RgbOfSlashFirstThree(xs, w);
  }

  /** Without a slash, values after the fourth are ignored. */
  lemma ExtraValuesIgnored(prefix: string, xs: seq<string>, gaps: seq<string>)
    requires RgbPrefix(prefix)
    requires RgbList(xs, gaps) && |xs| >= 4
    ensures ParseRgbCss(prefix + Spliced(xs, gaps) + ")") == ParseRgbCss(prefix + Spliced(xs[..4], gaps[..3]) + ")")
  {
    RgbListPrefix(xs, gaps, 4);
    ParseRgbList(prefix, xs, gaps);
    ParseRgbList(prefix, xs[..4], gaps[..3]);
    RgbOfFirstFour(xs);
  }

  /** A body that is empty or only white space is rejected. */
  lemma BlankBodyRejected(prefix: string, u: string)
    requires RgbPrefix(prefix)
    requires AllSpace(u) && NoneSatisfy(u, IsLineTerminator)
    ensures ParseRgbCss(prefix + u + ")") == None
  {
    RgbCallOf(prefix, u);
    TrimFrame(u, [], []);
    assert u + [] + [] == u;
  }

  /** A lone `%` reads as 0: `Number("")` is 0, so `%` is 0% of the channel range, or alpha 0. */
  lemma LonePercentIsZero()
    ensures ParseCssNumber255("%") == Some(0.0)
    ensures ParseCssAlpha("%") == Some(0.0)
  {
    TrimIdentity("%");
    assert WithoutPercent("%") == [];
    TrimIdentity([]);
  }

  // ---------------------------------------------------------------- toCss and back

  /** What `parseColor(c.toCss())` gives: rounded channels, and the clamped alpha to four decimals (1 when it is 1). */
  function CssRounded(c: Rgb): Rgb {
    var a := Clamp01(c.a);
    Rgb(MathRound(c.r) as real, MathRound(c.g) as real, MathRound(c.b) as real, if a >= 1.0 then 1.0 else Round4(a))
  }

  /** A channel written by `toCss` reads back as the same whole number. */
  lemma CssNumberOfInt(k: int)
    ensures ParseCssNumber255(IntToString(k)) == Some(k as real)
  {
    IntNumeral(k);
    NumberOfInt(k);
    CssNumberOfNumeral(IntToString(k), k as real);
  }

  /** A numeral `n` reads as its number, and `n%` as that share of 255; neither is clamped. */
  lemma CssNumberOfNumeral(n: string, v: real)
    requires IsNumeralText(n) && Number(n) == Some(v)
    ensures ParseCssNumber255(n) == Some(v)
    ensures ParseCssNumber255(n + "%") == Some(v / 100.0 * 255.0)
  {
    NumeralText(n);
    PercentText(n);
  }

  /** A numeral `n` reads as alpha clamped into [0, 1], and `n%` as its hundredth so clamped. */
  lemma CssAlphaOfNumeral(n: string, v: real)
    requires IsNumeralText(n) && Number(n) == Some(v)
    ensures ParseCssAlpha(n) == Some(Clamp01(v))
    ensures ParseCssAlpha(n + "%") == Some(Clamp01(v / 100.0))
  {
    NumeralText(n);
    PercentText(n);
  }

  /** A numeral is its own trimmed text and does not end with `%`. */
  lemma NumeralText(n: string)
    requires IsNumeralText(n)
    ensures Trim(n) == n && n != [] && n[|n| - 1] != '%'
  {
    NumeralToken(n);
    TokenFacts(n);
    TrimIdentity(n);
  }

  /** A numeral followed by `%` is its own trimmed text; dropping the `%` gives the numeral back. */
  lemma PercentText(n: string)
    requires IsNumeralText(n)
    ensures var t := n + "%"; Trim(t) == t && t[|t| - 1] == '%' && WithoutPercent(t) == n
  {
    PercentToken(n);
    TrimIdentity(n + "%");
    assert (n + "%")[..|n|] == n;
  }

  /** An alpha in [0, 1] written by `trimFloat` reads back rounded to four decimals. */
  lemma CssAlphaOfTrimFloat(a: real)
    requires 0.0 <= a <= 1.0
    ensures ParseCssAlpha(TrimFloat(a)) == Some(Round4(a))
  {
    var t := TrimFloat(a);
    TrimFloatShape(a);
    NumeralToken(t);
    TokenFacts(t);
    TrimIdentity(t);
    TrimFloatNumber(a);
    Round4Bounds(a);
  }

  /** `parseColor` on a trimmed text, not starting with `#`, that `parseRgbCss` accepts. */
  lemma ParseColorOfRgbText(s: string, x: Rgb)
    requires s != [] && s[0] != '#' && NoEdgeSpace(s) && ParseRgbCss(s) == Some(x)
    ensures ParseColor(s) == Ok(ParsedColor(x, None))
  {
    TrimIdentity(s);
  }

  /** The three channel texts of `toCss`, each read back as its rounded channel. */
  lemma CssChannels(c: Rgb) returns (rr: string, gg: string, bb: string)
    ensures rr == IntToString(MathRound(c.r)) && gg == IntToString(MathRound(c.g)) && bb == IntToString(MathRound(c.b))
    ensures AllTokens([rr, gg, bb])
    ensures ParseCssNumber255(rr) == Some(MathRound(c.r) as real)
    ensures ParseCssNumber255(gg) == Some(MathRound(c.g) as real)
    ensures ParseCssNumber255(bb) == Some(MathRound(c.b) as real)
  {
    var r, g, b := MathRound(c.r), MathRound(c.g), MathRound(c.b);
    rr, gg, bb := IntToString(r), IntToString(g), IntToString(b);
    CssChannel(r);
    CssChannel(g);
    CssChannel(b);
    ThreeTokens(rr, gg, bb);
  }

  lemma CssChannel(k: int)
    ensures IsToken(IntToString(k)) && ParseCssNumber255(IntToString(k)) == Some(k as real)
  {
    IntNumeral(k);
    NumeralToken(IntToString(k));
    CssNumberOfInt(k);
  }

  lemma RgbOfThree(x: string, y: string, z: string, alpha: Option<string>, v: Rgb)
    requires ParseCssNumber255(x) == Some(v.r) && ParseCssNumber255(y) == Some(v.g) && ParseCssNumber255(z) == Some(v.b)
    requires alpha.None? ==> v.a == 1.0
    requires alpha.Some? ==> alpha.value != [] && ParseCssAlpha(alpha.value) == Some(v.a)
    ensures RgbOf([x, y, z], alpha) == Some(v)
  {
  }

  lemma CssRoundTripOpaque(c: ParsedColor)
    requires Clamp01(c.rgb.a) >= 1.0
    ensures ParseRgbCss(c.ToCss()) == Some(CssRounded(c.rgb))
  {
    var rr, gg, bb := CssChannels(c.rgb);
    CssTextOpaque(c, rr, gg, bb);
    CssListRoundedOpaque(c, rr, gg, bb);
  }

  lemma CssListRoundedOpaque(c: ParsedColor, rr: string, gg: string, bb: string)
    requires Clamp01(c.rgb.a) >= 1.0
    requires AllTokens([rr, gg, bb])
    requires ParseCssNumber255(rr) == Some(MathRound(c.rgb.r) as real)
    requires ParseCssNumber255(gg) == Some(MathRound(c.rgb.g) as real)
    requires ParseCssNumber255(bb) == Some(MathRound(c.rgb.b) as real)
    ensures ParseRgbCss("rgb(" + Join([rr, gg, bb], " ") + ")") == Some(CssRounded(c.rgb))
  {
    CssListOpaque(rr, gg, bb, CssRounded(c.rgb));
  }

  lemma CssTextOpaque(c: ParsedColor, rr: string, gg: string, bb: string)
    requires Clamp01(c.rgb.a) >= 1.0
    requires rr == IntToString(MathRound(c.rgb.r)) && gg == IntToString(MathRound(c.rgb.g)) && bb == IntToString(MathRound(c.rgb.b))
    ensures c.ToCss() == "rgb(" + Join([rr, gg, bb], " ") + ")"
  {
    JoinThree(rr, gg, bb);
  }

  lemma CssListOpaque(rr: string, gg: string, bb: string, v: Rgb)
    requires AllTokens([rr, gg, bb]) && v.a == 1.0
    requires ParseCssNumber255(rr) == Some(v.r) && ParseCssNumber255(gg) == Some(v.g) && ParseCssNumber255(bb) == Some(v.b)
    ensures ParseRgbCss("rgb(" + Join([rr, gg, bb], " ") + ")") == Some(v)
  {
    UniformGaps(2);
    LowerRgbPrefixes();
    ParseRgbList("rgb(", [rr, gg, bb], Repeat(" ", 2));
    RgbOfThree(rr, gg, bb, None, v);
  }

  lemma CssRoundTripAlpha(c: ParsedColor)
    requires Clamp01(c.rgb.a) < 1.0
    ensures ParseRgbCss(c.ToCss()) == Some(CssRounded(c.rgb))
  {
    var rr, gg, bb, ta := CssAlphaParts(c);
    CssListRounded(c, rr, gg, bb, ta);
    CssTextAlpha(c, rr, gg, bb, ta);
  }

  /** The four texts `toCss` writes when alpha is below 1, and what each reads back as. */
  lemma CssAlphaParts(c: ParsedColor) returns (rr: string, gg: string, bb: string, ta: string)
    requires Clamp01(c.rgb.a) < 1.0
    ensures rr == IntToString(MathRound(c.rgb.r)) && gg == IntToString(MathRound(c.rgb.g)) && bb == IntToString(MathRound(c.rgb.b))
    ensures ta == TrimFloat(Clamp01(c.rgb.a))
    ensures AllTokens([rr, gg, bb])
    ensures ParseCssNumber255(rr) == Some(MathRound(c.rgb.r) as real)
    ensures ParseCssNumber255(gg) == Some(MathRound(c.rgb.g) as real)
    ensures ParseCssNumber255(bb) == Some(MathRound(c.rgb.b) as real)
    ensures IsToken(ta) && ParseCssAlpha(ta) == Some(Round4(Clamp01(c.rgb.a)))
  {
    rr, gg, bb := CssChannels(c.rgb);
    ta := CssAlphaText(Clamp01(c.rgb.a));
  }

  lemma CssListRounded(c: ParsedColor, rr: string, gg: string, bb: string, ta: string)
    requires Clamp01(c.rgb.a) < 1.0
    requires AllTokens([rr, gg, bb])
    requires ParseCssNumber255(rr) == Some(MathRound(c.rgb.r) as real)
    requires ParseCssNumber255(gg) == Some(MathRound(c.rgb.g) as real)
    requires ParseCssNumber255(bb) == Some(MathRound(c.rgb.b) as real)
    requires IsToken(ta) && ParseCssAlpha(ta) == Some(Round4(Clamp01(c.rgb.a)))
    ensures ParseRgbCss("rgb(" + (Join([rr, gg, bb], " ") + " / " + ta) + ")") == Some(CssRounded(c.rgb))
  {
    CssListAlpha(rr, gg, bb, ta, CssRounded(c.rgb));
  }

  lemma CssAlphaText(a: real) returns (ta: string)
    requires 0.0 <= a <= 1.0
    ensures ta == TrimFloat(a) && IsToken(ta) && ParseCssAlpha(ta) == Some(Round4(a))
  {
    ta := TrimFloat(a);
    TrimFloatShape(a);
    NumeralToken(ta);
    CssAlphaOfTrimFloat(a);
  }

  lemma CssTextAlpha(c: ParsedColor, rr: string, gg: string, bb: string, ta: string)
    requires Clamp01(c.rgb.a) < 1.0 && ta == TrimFloat(Clamp01(c.rgb.a))
    requires rr == IntToString(MathRound(c.rgb.r)) && gg == IntToString(MathRound(c.rgb.g)) && bb == IntToString(MathRound(c.rgb.b))
    ensures c.ToCss() == "rgb(" + (Join([rr, gg, bb], " ") + " / " + ta) + ")"
  {
    JoinThree(rr, gg, bb);
    Regroup("rgb(", rr + " " + gg + " " + bb, " / ", ta, ")");
  }

  lemma CssListAlpha(rr: string, gg: string, bb: string, ta: string, v: Rgb)
    requires AllTokens([rr, gg, bb]) && IsToken(ta) && ParseCssAlpha(ta) == Some(v.a)
    requires ParseCssNumber255(rr) == Some(v.r) && ParseCssNumber255(gg) == Some(v.g) && ParseCssNumber255(bb) == Some(v.b)
    ensures ParseRgbCss("rgb(" + (Join([rr, gg, bb], " ") + " / " + ta) + ")") == Some(v)
  {
    UniformGaps(2);
    LowerRgbPrefixes();
    ParseRgbListAlpha("rgb(", [rr, gg, bb], Repeat(" ", 2), ta);
    RgbOfThree(rr, gg, bb, Some(ta), v);
  }

  /** `parseColor(c.toCss())` gives the rounded channels and the clamped alpha to four decimals, with no OKLCH record. */
  lemma CssRoundTrip(c: ParsedColor)
    ensures ParseColor(c.ToCss()) == Ok(ParsedColor(CssRounded(c.rgb), None))
  {
    var s := c.ToCss();
    if Clamp01(c.rgb.a) >= 1.0 {
      CssRoundTripOpaque(c);
    } else {
      CssRoundTripAlpha(c);
    }
    CssTextEdges(c);
    ParseColorOfRgbText(s, CssRounded(c.rgb));
  }

  lemma CssTextEdges(c: ParsedColor)
    ensures var s := c.ToCss(); s != [] && s[0] == 'r' && NoEdgeSpace(s)
  {
    var list := IntToString(MathRound(c.rgb.r)) + " " + IntToString(MathRound(c.rgb.g)) + " " + IntToString(MathRound(c.rgb.b));
    if Clamp01(c.rgb.a) >= 1.0 {
      ClosedText("rgb(" + list);
    } else {
      ClosedText("rgb(" + list + " / " + TrimFloat(Clamp01(c.rgb.a)));
    }
  }

  lemma ClosedText(body: string)
    requires |body| >= 1 && body[0] == 'r'
    ensures var s := body + ")"; s != [] && s[0] == 'r' && NoEdgeSpace(s)
  {
  }

  /** Whole channels and an alpha in [0, 1] with at most four decimals survive `toCss` and `parseColor` unchanged. */
  lemma CssRoundTripExact(c: ParsedColor)
    requires IsWhole(c.rgb.r) && IsWhole(c.rgb.g) && IsWhole(c.rgb.b)
    requires 0.0 <= c.rgb.a <= 1.0 && HasFourDecimals(c.rgb.a)
    ensures ParseColor(c.ToCss()) == Ok(ParsedColor(c.rgb, None))
  {
    CssRoundTrip(c);
    MathRoundOfInteger(c.rgb.r.Floor);
    MathRoundOfInteger(c.rgb.g.Floor);
    MathRoundOfInteger(c.rgb.b.Floor);
    Round4Exact(c.rgb.a);
    assert CssRounded(c.rgb) == c.rgb;
  }
}
