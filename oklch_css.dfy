/**
  The CSS Color 4 `oklch()` reader and writer (src/oklch_css.ts): lightness as a number
  or a percentage, chroma clamped at zero, hue with an optional angle unit reduced into
  [0, 360), and an optional slash alpha.
 */
module OklchCss {
  import opened Wrappers
  import opened JsText
  import opened JsNumber
  import opened ColorTypes

  /** `Math.PI`, the double nearest to pi. */
  const MathPI: real := 884279719003555.0 / 281474976710656.0

  // ---------------------------------------------------------------- value readers

  /**
    `parseL`: a trimmed, non-blank text; `p%` is p/100, a bare number is itself;
    the result is clamped into [0, 1].
   */
  function ParseL(raw: string): (r: Option<real>)
    ensures r.Some? ==> Trim(raw) != [] && 0.0 <= r.value <= 1.0
  {
    var t := Trim(raw);
    if t == [] then None
    else if t[|t| - 1] == '%' then
      var p := Number(t[..|t| - 1]);
      if p.None? then None else Some(Clamp01(p.value / 100.0))
    else
      var n := Number(t);
      if n.None? then None else Some(Clamp01(n.value))
  }

  /** `parseAlpha`: nothing for a missing text; otherwise the very reading `parseL` does. */
  function ParseAlpha(raw: Option<string>): (r: Option<real>)
    ensures raw.None? ==> r.None?
    ensures raw.Some? ==> r == ParseL(raw.value)
    ensures r.Some? ==> 0.0 <= r.value <= 1.0
  {
    if raw.None? then None else ParseL(raw.value)
  }

  /** `parseC`: any number; a negative one is raised to 0. A blank text is `Number("")`, which is 0. */
  function ParseC(raw: string): (r: Option<real>)
    ensures r.Some? <==> Number(Trim(raw)).Some?
    ensures r.Some? ==> r.value >= 0.0 && r.value == Max(0.0, Number(Trim(raw)).value)
  {
    var n := Number(Trim(raw));
    if n.None? then None else Some(Max(0.0, n.value))
  }

  // ---------------------------------------------------------------- hue

  /** The number of sign characters the hue pattern `[+-]?` takes from the front of `s`. */
  function SignLength(s: string): nat {
    if s != [] && (s[0] == '+' || s[0] == '-') then 1 else 0
  }

  /**
    The number part of the hue pattern, `[+-]?\d*\.?\d+`: an optional sign, then digits
    with at most one point, ending in a digit.
   */
  predicate IsHueNumeral(s: string) {
    IsUnsignedNumeral(s[SignLength(s)..])
  }

  /** Digits with at most one point, ending in a digit. */
  predicate IsUnsignedNumeral(u: string) {
    u != [] && IsUnsignedDecimal(u) && IsDigit(u[|u| - 1])
  }

  /** Every text the pattern `[+-]?\d*\.?\d+` describes is a hue numeral. */
  lemma HueNumeralComplete(sign: string, a: string, dot: string, b: string)
    requires sign == "" || sign == "+" || sign == "-"
    requires AllDigits(a) && (dot == "" || dot == ".") && AllDigits(b) && b != []
    ensures IsHueNumeral(sign + a + dot + b)
  {
    UnsignedComplete(a, dot, b);
    SignAhead(sign, a, dot, b);
    SignedNumeral(sign, a + dot + b);
  }

  lemma SignAhead(sign: string, a: string, dot: string, b: string)
    ensures sign + a + dot + b == sign + (a + dot + b)
  {
    assert (sign + a + dot + b)[|sign|..] == a + dot + b;
  }

  lemma SignedNumeral(sign: string, u: string)
    requires sign == "" || sign == "+" || sign == "-"
    requires IsUnsignedNumeral(u) && (IsDigit(u[0]) || u[0] == '.')
    ensures IsHueNumeral(sign + u)
  {
    SignLengthOf(sign, u);
  }

  /** After the optional sign: digits, an optional point and at least one digit form an unsigned decimal ending in a digit. */
  lemma UnsignedComplete(a: string, dot: string, b: string)
    requires AllDigits(a) && (dot == "" || dot == ".") && AllDigits(b) && b != []
    ensures var u := a + dot + b;
      IsUnsignedNumeral(u) && (IsDigit(u[0]) || u[0] == '.')
  {
    var u := a + dot + b;
    assert u[|u| - 1] == b[|b| - 1];
    if dot == "" {
      assert AllDigits(u) by {
        assert forall i :: 0 <= i < |u| ==> u[i] == if i < |a| then a[i] else b[i - |a|];
      }
      DigitsHaveNoPoint(u);
      assert u[..|u|] == u;
    } else {
      DigitsHaveNoPoint(a);
      assert u == a + ['.'] + b;
      IndexOfAfter(a, '.', b);
      assert u[..|a|] == a && u[|a| + 1..] == b;
    }
  }

  /** The sign pattern takes the sign, and nothing from a text that starts with a digit or a point. */
  lemma SignLengthOf(sign: string, u: string)
    requires sign == "" || sign == "+" || sign == "-"
    requires u != [] && (IsDigit(u[0]) || u[0] == '.')
    ensures SignLength(sign + u) == |sign| && (sign + u)[|sign|..] == u
  {
    if sign == "" {
      assert sign + u == u;
    }
  }

  /** Every hue numeral is an optional sign, digits, an optional point and at least one digit. */
  lemma HueNumeralSound(s: string) returns (sign: string, a: string, dot: string, b: string)
    requires IsHueNumeral(s)
    ensures s == sign + a + dot + b
    ensures sign == "" || sign == "+" || sign == "-"
    ensures AllDigits(a) && (dot == "" || dot == ".") && AllDigits(b) && b != []
  {
    var k := SignLength(s);
    sign := s[..k];
    var u := s[k..];
    assert s == sign + u;
    a, dot, b := UnsignedSound(u);
  }

  lemma UnsignedSound(u: string) returns (a: string, dot: string, b: string)
    requires IsUnsignedNumeral(u)
    ensures u == a + dot + b
    ensures AllDigits(a) && (dot == "" || dot == ".") && AllDigits(b) && b != []
  {
    var i := IndexOf(u, '.');
    if i < |u| {
      a, dot, b := u[..i], ".", u[i + 1..];
      assert u == a + dot + b;
    } else {
      a, dot, b := [], "", u;
      assert u[..i] == u;
    }
  }

  lemma DigitsHaveNoPoint(a: string)
    requires AllDigits(a)
    ensures IndexOf(a, '.') == |a|
  {
  }

  lemma {:induction false} IndexOfAfter(a: string, c: char, b: string)
    requires IndexOf(a, c) == |a|
    ensures IndexOf(a + [c] + b, c) == |a|
  {
    if a != [] {
      assert (a + [c] + b)[1..] == a[1..] + [c] + b;
      IndexOfAfter(a[1..], c, b);
    }
  }

  /** The angle units of the hue pattern; the empty text stands for a missing unit. */
  predicate IsUnit(unit: string) {
    unit == "" || unit == "deg" || unit == "rad" || unit == "grad" || unit == "turn"
  }

  /**
    The lower-cased hue text split into its number part and unit. A number part ends
    in a digit, so the unit is whichever unit name the text ends with.
   */
  function SplitUnit(t: string): (p: (string, string))
    ensures IsUnit(p.1) && t == p.0 + p.1
  {
    if |t| >= 4 && t[|t| - 4..] == "grad" then (t[..|t| - 4], "grad")
    else if |t| >= 4 && t[|t| - 4..] == "turn" then (t[..|t| - 4], "turn")
    else if |t| >= 3 && t[|t| - 3..] == "deg" then (t[..|t| - 3], "deg")
    else if |t| >= 3 && t[|t| - 3..] == "rad" then (t[..|t| - 3], "rad")
    else (t, "")
  }

  /** A hue numeral followed by a unit is split back into exactly those two parts. */
  lemma SplitUnitOf(num: string, unit: string)
    requires IsHueNumeral(num) && IsUnit(unit)
    ensures SplitUnit(num + unit) == (num, unit)
  {
    NumeralEndsInDigit(num);
    SplitUnitAfterDigit(num, unit);
  }

  lemma NumeralEndsInDigit(num: string)
    requires IsHueNumeral(num)
    ensures |num| >= 1 && IsDigit(num[|num| - 1])
  {
    var u := num[SignLength(num)..];
    assert u[|u| - 1] == num[|num| - 1];
  }

  lemma SplitUnitAfterDigit(num: string, unit: string)
    requires |num| >= 1 && IsDigit(num[|num| - 1]) && IsUnit(unit)
    ensures SplitUnit(num + unit) == (num, unit)
  {
    var t := num + unit;
    if unit == "" {
      assert t == num;
    } else {
      assert t[..|num|] == num;
      assert t[|t| - |unit|..] == unit;
      if |unit| == 3 && |t| >= 4 {
        assert t[|t| - 4] == num[|num| - 1];
      }
    }
  }

  /** The hue in degrees for a number and its unit. */
  function ToDegrees(v: real, unit: string): real {
    if unit == "rad" then v * (180.0 / MathPI)
    else if unit == "grad" then v * 0.9
    else if unit == "turn" then v * 360.0
    else v
  }

  /** `((deg % 360) + 360) % 360`. */
  function NormalizeDegrees(d: real): (r: real)
    ensures 0.0 <= r < 360.0
  {
    Rem360(Rem360(d) + 360.0)
  }

  /** The reduced hue differs from the angle by whole turns, and an angle in [0, 360) is kept. */
  lemma NormalizeDegreesSpec(d: real)
    ensures IsWhole((d - NormalizeDegrees(d)) / 360.0)
    ensures 0.0 <= d < 360.0 ==> NormalizeDegrees(d) == d
  {
    var r1 := Rem360(d);
    TurnsAdd(d, r1, Rem360(r1 + 360.0));
    if 0.0 <= d < 360.0 {
      Rem360Keeps(d);
    }
  }

  /** Two reductions by whole turns, less one added turn, make a reduction by whole turns. */
  lemma TurnsAdd(d: real, r1: real, r: real)
    requires IsWhole((d - r1) / 360.0) && IsWhole((r1 + 360.0 - r) / 360.0)
    ensures IsWhole((d - r) / 360.0)
  {
    var k1 := ((d - r1) / 360.0).Floor;
    var k2 := ((r1 + 360.0 - r) / 360.0).Floor;
    assert d - r1 == 360.0 * k1 as real;
    assert r1 + 360.0 - r == 360.0 * k2 as real;
    var k := k1 + k2 - 1;
    assert d - r == 360.0 * k as real;
    assert (d - r) / 360.0 == k as real;
  }

  /** An angle in [0, 360) is its own remainder, and so is the angle plus a turn. */
  lemma Rem360Keeps(d: real)
    requires 0.0 <= d < 360.0
    ensures Rem360(d) == d && Rem360(d + 360.0) == d
  {
    assert Trunc(d / 360.0) == 0;
    assert Trunc((d + 360.0) / 360.0) == 1;
  }

  /** Reducing twice is reducing once. */
  lemma NormalizeDegreesIdempotent(d: real)
    ensures NormalizeDegrees(NormalizeDegrees(d)) == NormalizeDegrees(d)
  {
    NormalizeDegreesSpec(NormalizeDegrees(d));
  }

  /**
    `parseHue`: the trimmed, lower-cased text must be a hue numeral with an optional unit;
    the angle is converted to degrees and reduced into [0, 360).
   */
  function ParseHue(raw: string): (r: Option<real>)
    ensures r.Some? ==> 0.0 <= r.value < 360.0
    ensures r.Some? ==> IsHueNumeral(SplitUnit(ToLower(Trim(raw))).0)
  {
    var t := ToLower(Trim(raw));
    if t == [] then None
    else
      var (num, unit) := SplitUnit(t);
      if !IsHueNumeral(num) then None
      else
        var v := Number(num);
        if v.None? then None else Some(NormalizeDegrees(ToDegrees(v.value, if unit == "" then "deg" else unit)))
  }

  /** A hue numeral holds only digits, signs and a point, and reads as a finite number. */
  lemma HueNumeralText(num: string)
    requires IsHueNumeral(num)
    ensures forall i :: 0 <= i < |num| ==> IsDigit(num[i]) || num[i] == '.' || num[i] == '+' || num[i] == '-'
    ensures NoEdgeSpace(num) && Number(num).Some?
  {
    var k := SignLength(num);
    var u := num[k..];
    UnsignedChars(u);
    assert forall i :: k <= i < |num| ==> num[i] == u[i - k];
    assert num[|num| - 1] == u[|u| - 1];
    assert !IsSpace(num[0]) && !IsSpace(num[|num| - 1]);
    HueNumeralNumber(num, u);
  }

  lemma UnsignedChars(u: string)
    requires IsUnsignedDecimal(u)
    ensures forall i :: 0 <= i < |u| ==> IsDigit(u[i]) || u[i] == '.'
  {
    var p := IndexOf(u, '.');
    forall i | 0 <= i < |u|
      ensures IsDigit(u[i]) || u[i] == '.'
    {
      if i < p {
        assert u[..p][i] == u[i];
      } else if i > p {
        assert u[p + 1..][i - p - 1] == u[i];
      }
    }
  }

  lemma HueNumeralNumber(num: string, u: string)
    requires IsHueNumeral(num) && u == num[SignLength(num)..]
    requires NoEdgeSpace(num)
    ensures Number(num).Some?
  {
    TrimIdentity(num);
    if num[0] == '-' || num[0] == '+' {
      assert num[1..] == u;
    } else {
      assert num == u;
    }
  }

  /** A hue numeral and a unit, in lower case, are read as the numeral's value in that unit, reduced into [0, 360). */
  lemma ParseHueOf(num: string, unit: string)
    requires IsHueNumeral(num) && IsUnit(unit)
    ensures Number(num).Some?
    ensures ParseHue(num + unit) == Some(NormalizeDegrees(ToDegrees(Number(num).value, if unit == "" then "deg" else unit)))
  {
    var t := num + unit;
    HueNumeralText(num);
    HueTextShape(num, unit);
    TrimIdentity(t);
    ToLowerNoUpper(t);
    SplitUnitOf(num, unit);
  }

  /** The text of a hue numeral followed by a unit has no capital letters and no white space at its ends. */
  lemma HueTextShape(num: string, unit: string)
    requires IsHueNumeral(num) && IsUnit(unit)
    requires forall i :: 0 <= i < |num| ==> IsDigit(num[i]) || num[i] == '.' || num[i] == '+' || num[i] == '-'
    ensures NoUpper(num + unit) && NoEdgeSpace(num + unit) && num + unit != []
  {
    var t := num + unit;
    assert forall i :: 0 <= i < |t| ==> t[i] == if i < |num| then num[i] else unit[i - |num|];
    assert t[0] == num[0];
  }

  /** Every hue numeral, with or without a unit, is accepted: with the soundness half of `ParseHue`, the pattern is matched exactly. */
  lemma HueAccepted(num: string, unit: string)
    requires IsHueNumeral(num) && IsUnit(unit)
    ensures ParseHue(num + unit).Some?
  {
    ParseHueOf(num, unit);
  }

  /** A hue without a unit is read in degrees. */
  lemma HueDefaultUnitIsDeg(num: string)
    requires IsHueNumeral(num)
    ensures ParseHue(num) == ParseHue(num + "deg")
  {
    ParseHueOf(num, "");
    ParseHueOf(num, "deg");
    assert num + "" == num;
  }

  /** A hue already in [0, 360) degrees is read as itself. */
  lemma HueInRangeKept(num: string, unit: string, v: real)
    requires IsHueNumeral(num) && (unit == "" || unit == "deg")
    requires Number(num) == Some(v) && 0.0 <= v < 360.0
    ensures ParseHue(num + unit) == Some(v)
  {
    var deg := ToDegrees(v, if unit == "" then "deg" else unit);
    assert deg == v;
    ParseHueValue(num, unit, v, deg);
    NormalizeDegreesSpec(v);
  }

  lemma ParseHueValue(num: string, unit: string, v: real, deg: real)
    requires IsHueNumeral(num) && IsUnit(unit) && Number(num) == Some(v)
    requires deg == ToDegrees(v, if unit == "" then "deg" else unit)
    ensures ParseHue(num + unit) == Some(NormalizeDegrees(deg))
  {
    ParseHueOf(num, unit);
  }

  /** A whole number of turns reads as hue 0. */
  lemma HueFullTurns(num: string, k: int)
    requires IsHueNumeral(num) && Number(num) == Some(k as real)
    ensures ParseHue(num + "turn") == Some(0.0)
  {
    var deg := k as real * 360.0;
    assert NormalizeDegrees(deg) == 0.0 by {
      WholeTurns(k);
    }
    ParseHueValue(num, "turn", k as real, deg);
  }

  /** `360 k` degrees reduces to 0. */
  lemma WholeTurns(k: int)
    ensures NormalizeDegrees(k as real * 360.0) == 0.0
  {
    var d := k as real * 360.0;
    assert d / 360.0 == k as real;
    assert Trunc(d / 360.0) == k;
    assert Rem360(d) == 0.0;
    assert Trunc(360.0 / 360.0) == 1;
  }

  // ---------------------------------------------------------------- oklch()

  /** The text captured by `/^oklch\(([\s\S]*)\)$/i`; the body may hold anything, line breaks included. */
  function OklchCall(s: string): (body: Option<string>)
    ensures body.Some? ==> StartsWithIgnoreCase(s, "oklch(") && |s| >= 7 && s[|s| - 1] == ')' && body.value == s[6..|s| - 1]
    ensures StartsWithIgnoreCase(s, "oklch(") && |s| >= 7 && s[|s| - 1] == ')' ==> body.Some?
  {
    if StartsWithIgnoreCase(s, "oklch(") && |s| >= 7 && s[|s| - 1] == ')' then Some(s[6..|s| - 1]) else None
  }

  /**
    `parseOklchCss`: `oklch(` in any case around a non-blank body of exactly three
    white-space separated values, then optionally `/` and an alpha (a blank one means 1).
   */
  function ParseOklchCss(input: string): (r: Option<Oklch>)
    ensures r.Some? ==> OklchCall(Trim(input)).Some?
    ensures r.Some? ==> 0.0 <= r.value.l <= 1.0 && r.value.c >= 0.0 && 0.0 <= r.value.h < 360.0 && 0.0 <= r.value.a <= 1.0
  {
    var call := OklchCall(Trim(input));
    if call.None? then None
    else
      var body := Trim(call.value);
      if body == [] then None
      else
        var (left, alphaPart) := SlashParts(body);
        var toks := NonEmpty(Split(left, IsSpace));
        if |toks| != 3 then None
        else OklchOf(toks, alphaPart)
  }

  /** The record from the three values and the optional alpha text. */
  function OklchOf(toks: seq<string>, alphaPart: Option<string>): (r: Option<Oklch>)
    requires |toks| == 3
    ensures r.Some? ==> 0.0 <= r.value.l <= 1.0 && r.value.c >= 0.0 && 0.0 <= r.value.h < 360.0 && 0.0 <= r.value.a <= 1.0
    ensures r.Some? <==>
      ParseL(toks[0]).Some? && ParseC(toks[1]).Some? && ParseHue(toks[2]).Some?
      && (alphaPart.Some? && alphaPart.value != [] ==> ParseAlpha(alphaPart).Some?)
    ensures r.Some? ==>
      && r.value.l == ParseL(toks[0]).value && r.value.c == ParseC(toks[1]).value
      && r.value.h == ParseHue(toks[2]).value
      && r.value.a == if alphaPart.Some? && alphaPart.value != [] then ParseAlpha(alphaPart).value else 1.0
  {
    var l := ParseL(toks[0]);
    var c := ParseC(toks[1]);
    var h := ParseHue(toks[2]);
    if l.None? || c.None? || h.None? then None
    else
      var a := if alphaPart.Some? && alphaPart.value != [] then ParseAlpha(alphaPart) else Some(1.0);
      if a.None? then None else Some(Oklch(l.value, c.value, h.value, a.value))
  }

  /**
    `formatOklchCss`: lightness as a percentage, chroma and hue as written by `trimFloat`,
    and ` / alpha` only when the clamped alpha is below 1.
   */
  function FormatOklchCss(lch: Oklch): string {
    var a := Clamp01(lch.a);
    OklchText(TrimFloat(Percent(lch.l)) + "%", TrimFloat(lch.c), TrimFloat(lch.h),
              if a >= 1.0 then None else Some(TrimFloat(a)))
  }

  /** Lightness as a percentage: the fraction times 100. */
  function Percent(l: real): real {
    l * 100.0
  }

  /** The `oklch(L C H)` or `oklch(L C H / A)` text around already written values. */
  function OklchText(L: string, C: string, H: string, alpha: Option<string>): string {
    var list := L + " " + C + " " + H;
    if alpha.None? then "oklch(" + list + ")" else "oklch(" + list + " / " + alpha.value + ")"
  }

  // ---------------------------------------------------------------- reading oklch() texts

  /** A trimmed, non-blank body inside `oklch(` … `)` is read from its slash parts and its space-separated values. */
  lemma ParseOklchBody(body: string, left: string, alpha: Option<string>)
    requires body != [] && NoEdgeSpace(body) && SlashParts(body) == (left, alpha)
    ensures var toks := NonEmpty(Split(left, IsSpace));
      ParseOklchCss("oklch(" + body + ")") == if |toks| != 3 then None else OklchOf(toks, alpha)
  {
    var s := "oklch(" + body + ")";
    OklchCallOf(body);
    OklchTextTrimmed(s);
    TrimIdentity(body);
  }

  /** `oklch(`, a body and `)`: the body is captured. */
  lemma OklchCallOf(body: string)
    ensures var s := "oklch(" + body + ")"; |s| > 1 && s[0] == 'o' && s[|s| - 1] == ')' && OklchCall(s) == Some(body)
  {
    var s := "oklch(" + body + ")";
    assert s[..6] == "oklch(";
    assert s[6..|s| - 1] == body;
  }

  lemma OklchTextTrimmed(s: string)
    requires |s| > 1 && s[0] == 'o' && s[|s| - 1] == ')'
    ensures Trim(s) == s
  {
    TrimIdentity(s);
  }

  /** `oklch(v1 v2 …)` with runs of white space between the values: exactly three values are required; they give the record with alpha 1. */
  lemma ParseOklchList(xs: seq<string>, gaps: seq<string>)
    requires |xs| >= 1 && |gaps| == |xs| - 1 && AllTokens(xs) && SpaceGaps(gaps)
    ensures ParseOklchCss("oklch(" + Spliced(xs, gaps) + ")") == if |xs| != 3 then None else OklchOf(xs, None)
  {
    var j := Spliced(xs, gaps);
    SplicedText(xs, gaps);
    SplitSpaced(xs, gaps);
    SlashPartsNone(j);
    ParseOklchBody(j, j, None);
  }

  /** `oklch(v1 v2 v3 / w)`: the three values, and alpha from `w`. */
  lemma ParseOklchListAlpha(xs: seq<string>, gaps: seq<string>, w: string)
    requires |xs| >= 1 && |gaps| == |xs| - 1 && AllTokens(xs) && SpaceGaps(gaps) && IsToken(w)
    ensures ParseOklchCss("oklch(" + (Spliced(xs, gaps) + " / " + w) + ")") == if |xs| != 3 then None else OklchOf(xs, Some(w))
  {
    var j := Spliced(xs, gaps);
    SplicedText(xs, gaps);
    SplitSpaced(xs, gaps);
    TokenFacts(w);
    SlashedEnds(j, w);
    SlashPartsOne(j, w);
    ParseOklchBody(j + " / " + w, j, Some(w));
  }

  lemma SlashedEnds(j: string, w: string)
    requires j != [] && NoEdgeSpace(j) && w != [] && NoEdgeSpace(w)
    ensures j + " / " + w != [] && NoEdgeSpace(j + " / " + w)
  {
    assert (j + " / " + w)[0] == j[0];
  }

  /** A slash with nothing after it leaves alpha at 1, as if there were no slash. */
  lemma BlankAlphaIsOpaque(xs: seq<string>, gaps: seq<string>)
    requires |xs| >= 1 && |gaps| == |xs| - 1 && AllTokens(xs) && SpaceGaps(gaps)
    ensures ParseOklchCss("oklch(" + (Spliced(xs, gaps) + " /") + ")") == ParseOklchCss("oklch(" + Spliced(xs, gaps) + ")")
  {
    var j := Spliced(xs, gaps);
    SplicedText(xs, gaps);
    SplitSpaced(xs, gaps);
    SlashPartsEmptyAlpha(j);
    ParseOklchBody(j + " /", j, Some([]));
    ParseOklchList(xs, gaps);
    if |xs| == 3 {
      OklchOfBlankAlpha(xs);
    }
  }

  lemma OklchOfBlankAlpha(toks: seq<string>)
    requires |toks| == 3
    ensures OklchOf(toks, Some([])) == OklchOf(toks, None)
  {
  }

  /** `l /`: the left part, and an empty alpha part. */
  lemma SlashPartsEmptyAlpha(l: string)
    requires l != [] && NoneSatisfy(l, IsSlash) && NoEdgeSpace(l)
    ensures SlashParts(l + " /") == (l, Some([])) && NoEdgeSpace(l + " /") && l + " /" != []
  {
    SlashPartsEmptyAlphaSplit(l);
    SlashEnd(l);
  }

  lemma SlashPartsEmptyAlphaSplit(l: string)
    requires l != [] && NoneSatisfy(l, IsSlash) && NoEdgeSpace(l)
    ensures SlashParts(l + " /") == (l, Some([]))
  {
    NoneSatisfyAppend(l, " ", IsSlash);
    var parts := SplitSlashOnce(l + " ", []);
    assert l + " /" == (l + " ") + ['/'] + [];
    TrimSpaceAfter(l);
    TrimIdentity([]);
  }

  lemma SlashEnd(l: string)
    requires l != [] && NoEdgeSpace(l)
    ensures NoEdgeSpace(l + " /") && l + " /" != []
  {
    assert (l + " /")[0] == l[0];
  }

  // ---------------------------------------------------------------- formatOklchCss and back

  /** What `parseOklchCss(formatOklchCss(x))` gives: each field as written to four decimals, then read back. */
  function OklchRounded(x: Oklch): Oklch {
    var a := Clamp01(x.a);
    Oklch(Clamp01(Round4(Percent(x.l)) / 100.0), Max(0.0, Round4(x.c)), NormalizeDegrees(Round4(x.h)),
          if a >= 1.0 then 1.0 else Round4(a))
  }

  /** Every number `trimFloat` writes is a hue numeral. */
  lemma TrimFloatHueNumeral(x: real)
    ensures IsHueNumeral(TrimFloat(x))
  {
    var sign, ip, f, v := TrimFloatParts(x);
    UnsignedDecimalOf(ip, f);
    SignedNumeral(sign, DecimalText(ip, f));
  }

  /** A numeral followed by `%` is a single value that `parseL` reads as the number over 100, clamped. */
  lemma PercentNumeral(n: string, v: real)
    requires IsNumeralText(n) && Number(n) == Some(v)
    ensures IsToken(n + "%")
    ensures ParseL(n + "%") == Some(Clamp01(v / 100.0))
  {
    PercentToken(n);
    PercentValue(n + "%", n, v);
  }

  lemma PercentValue(t: string, n: string, v: real)
    requires t == n + "%" && NoEdgeSpace(t) && Number(n) == Some(v)
    ensures ParseL(t) == Some(Clamp01(v / 100.0))
  {
    TrimIdentity(t);
    assert t[..|t| - 1] == n;
  }

  /** A bare numeral is a single value that `parseC` reads as the number raised to 0, and `parseL` as the number clamped. */
  lemma PlainNumeral(n: string, v: real)
    requires IsNumeralText(n) && Number(n) == Some(v)
    ensures IsToken(n)
    ensures ParseC(n) == Some(Max(0.0, v))
    ensures ParseL(n) == Some(Clamp01(v))
  {
    NumeralToken(n);
    TokenFacts(n);
    TrimIdentity(n);
  }

  /** A hue numeral without a unit is read as that many degrees, reduced into [0, 360). */
  lemma DegreesNumeral(n: string, v: real)
    requires IsHueNumeral(n) && Number(n) == Some(v)
    ensures ParseHue(n) == Some(NormalizeDegrees(v))
  {
    assert n + "" == n;
    ParseHueValue(n, "", v, v);
  }

  /** The lightness text: a `trimFloat` number and `%`, read back as that number over 100, clamped. */
  lemma LightnessText(y: real) returns (t: string)
    ensures t == TrimFloat(y) + "%" && IsToken(t)
    ensures ParseL(t) == Some(Clamp01(Round4(y) / 100.0))
  {
    TrimFloatShape(y);
    TrimFloatNumber(y);
    PercentNumeral(TrimFloat(y), Round4(y));
    t := TrimFloat(y) + "%";
  }

  /** The chroma text, read back as the number `trimFloat` wrote, raised to 0 if negative. */
  lemma ChromaText(c: real) returns (t: string)
    ensures t == TrimFloat(c) && IsToken(t)
    ensures ParseC(t) == Some(Max(0.0, Round4(c)))
  {
    TrimFloatShape(c);
    TrimFloatNumber(c);
    PlainNumeral(TrimFloat(c), Round4(c));
    t := TrimFloat(c);
  }

  /** The hue text, read back as the number `trimFloat` wrote, in degrees, reduced into [0, 360). */
  lemma HueText(h: real) returns (t: string)
    ensures t == TrimFloat(h) && IsToken(t)
    ensures ParseHue(t) == Some(NormalizeDegrees(Round4(h)))
  {
    TrimFloatShape(h);
    TrimFloatNumber(h);
    TrimFloatHueNumeral(h);
    PlainNumeral(TrimFloat(h), Round4(h));
    DegreesNumeral(TrimFloat(h), Round4(h));
    t := TrimFloat(h);
  }

  /** An alpha in [0, 1] as `trimFloat` writes it, read back to four decimals. */
  lemma AlphaText(a: real) returns (t: string)
    requires 0.0 <= a <= 1.0
    ensures t == TrimFloat(a) && IsToken(t)
    ensures ParseAlpha(Some(t)) == Some(Round4(a))
  {
    TrimFloatShape(a);
    TrimFloatNumber(a);
    Round4Bounds(a);
    PlainNumeral(TrimFloat(a), Round4(a));
    t := TrimFloat(a);
  }

  /** The three value texts `formatOklchCss` writes for a percentage `p`, a chroma `c` and a hue `h`, and what each reads back as. */
  lemma FormatParts(p: real, c: real, h: real) returns (L: string, C: string, H: string)
    ensures L == TrimFloat(p) + "%" && C == TrimFloat(c) && H == TrimFloat(h)
    ensures AllTokens([L, C, H])
    ensures ParseL(L) == Some(Clamp01(Round4(p) / 100.0))
    ensures ParseC(C) == Some(Max(0.0, Round4(c)))
    ensures ParseHue(H) == Some(NormalizeDegrees(Round4(h)))
  {
    L := TrimFloat(p) + "%";
    C := TrimFloat(c);
    H := TrimFloat(h);
    assert IsToken(L) && ParseL(L) == Some(Clamp01(Round4(p) / 100.0)) by { var _ := LightnessText(p); }
    assert IsToken(C) && ParseC(C) == Some(Max(0.0, Round4(c))) by { var _ := ChromaText(c); }
    assert IsToken(H) && ParseHue(H) == Some(NormalizeDegrees(Round4(h))) by { var _ := HueText(h); }
    ThreeTokens(L, C, H);
  }

  lemma FormatListOpaque(L: string, C: string, H: string, v: Oklch)
    requires AllTokens([L, C, H]) && v.a == 1.0
    requires ParseL(L) == Some(v.l) && ParseC(C) == Some(v.c) && ParseHue(H) == Some(v.h)
    ensures ParseOklchCss("oklch(" + Join([L, C, H], " ") + ")") == Some(v)
  {
    var xs := [L, C, H];
    UniformGaps(2);
    ParseOklchList(xs, Repeat(" ", 2));
    OklchOfValues(xs, None, v);
  }

  /** `OklchOf` gives the record whose fields are what each text reads as. */
  lemma OklchOfValues(xs: seq<string>, alpha: Option<string>, v: Oklch)
    requires |xs| == 3
    requires ParseL(xs[0]) == Some(v.l) && ParseC(xs[1]) == Some(v.c) && ParseHue(xs[2]) == Some(v.h)
    requires if alpha.Some? && alpha.value != [] then ParseAlpha(alpha) == Some(v.a) else v.a == 1.0
    ensures OklchOf(xs, alpha) == Some(v)
  {
  }

  lemma FormatListAlpha(L: string, C: string, H: string, ta: string, v: Oklch)
    requires AllTokens([L, C, H]) && IsToken(ta) && ParseAlpha(Some(ta)) == Some(v.a)
    requires ParseL(L) == Some(v.l) && ParseC(C) == Some(v.c) && ParseHue(H) == Some(v.h)
    ensures ParseOklchCss("oklch(" + (Join([L, C, H], " ") + " / " + ta) + ")") == Some(v)
  {
    var xs := [L, C, H];
    UniformGaps(2);
    ParseOklchListAlpha(xs, Repeat(" ", 2), ta);
    OklchOfValues(xs, Some(ta), v);
  }

  /** An opaque `oklch()` text written from a percentage, a chroma and a hue reads back as the rounded values. */
  lemma TextRoundTripOpaque(p: real, c: real, h: real)
    ensures ParseOklchCss(OklchText(TrimFloat(p) + "%", TrimFloat(c), TrimFloat(h), None))
         == Some(Oklch(Clamp01(Round4(p) / 100.0), Max(0.0, Round4(c)), NormalizeDegrees(Round4(h)), 1.0))
  {
    var L, C, H := FormatParts(p, c, h);
    JoinThree(L, C, H);
    FormatListOpaque(L, C, H, Oklch(Clamp01(Round4(p) / 100.0), Max(0.0, Round4(c)), NormalizeDegrees(Round4(h)), 1.0));
  }

  /** The same with ` / alpha`, for an alpha in [0, 1). */
  lemma TextRoundTripAlpha(p: real, c: real, h: real, a: real)
    requires 0.0 <= a < 1.0
    ensures ParseOklchCss(OklchText(TrimFloat(p) + "%", TrimFloat(c), TrimFloat(h), Some(TrimFloat(a))))
         == Some(Oklch(Clamp01(Round4(p) / 100.0), Max(0.0, Round4(c)), NormalizeDegrees(Round4(h)), Round4(a)))
  {
    var L, C, H := FormatParts(p, c, h);
    var ta := AlphaText(a);
    JoinThree(L, C, H);
    Regroup("oklch(", L + " " + C + " " + H, " / ", ta, ")");
    FormatListAlpha(L, C, H, ta, Oklch(Clamp01(Round4(p) / 100.0), Max(0.0, Round4(c)), NormalizeDegrees(Round4(h)), Round4(a)));
  }

  /**
    `parseOklchCss(formatOklchCss(x))` gives each field to four decimals: lightness clamped
    into [0, 1], chroma raised to 0, hue reduced into [0, 360), alpha clamped (1 when at least 1).
   */
  lemma FormatRoundTrip(x: Oklch)
    ensures ParseOklchCss(FormatOklchCss(x)) == Some(OklchRounded(x))
  {
    if Clamp01(x.a) >= 1.0 {
      FormatRoundTripOpaque(x);
    } else {
      FormatRoundTripAlpha(x);
    }
  }

  lemma FormatRoundTripOpaque(x: Oklch)
    requires Clamp01(x.a) >= 1.0
    ensures ParseOklchCss(FormatOklchCss(x)) == Some(OklchRounded(x))
  {
    var p := Percent(x.l);
    var s := OklchText(TrimFloat(p) + "%", TrimFloat(x.c), TrimFloat(x.h), None);
    var v := Oklch(Clamp01(Round4(p) / 100.0), Max(0.0, Round4(x.c)), NormalizeDegrees(Round4(x.h)), 1.0);
    assert OklchRounded(x) == v;
    assert FormatOklchCss(x) == s;
    TextRoundTripOpaque(p, x.c, x.h);
  }

  lemma FormatRoundTripAlpha(x: Oklch)
    requires Clamp01(x.a) < 1.0
    ensures ParseOklchCss(FormatOklchCss(x)) == Some(OklchRounded(x))
  {
    var p := Percent(x.l);
    var a := Clamp01(x.a);
    var s := OklchText(TrimFloat(p) + "%", TrimFloat(x.c), TrimFloat(x.h), Some(TrimFloat(a)));
    var v := Oklch(Clamp01(Round4(p) / 100.0), Max(0.0, Round4(x.c)), NormalizeDegrees(Round4(x.h)), Round4(a));
    assert OklchRounded(x) == v;
    assert FormatOklchCss(x) == s;
    TextRoundTripAlpha(p, x.c, x.h, a);
  }

  /** A record already in range, written with at most four decimals (two more for lightness), survives the round trip unchanged. */
  lemma FormatRoundTripExact(x: Oklch)
    requires 0.0 <= x.l <= 1.0 && HasFourDecimals(Percent(x.l))
    requires x.c >= 0.0 && HasFourDecimals(x.c)
    requires 0.0 <= x.h < 360.0 && HasFourDecimals(x.h)
    requires 0.0 <= x.a <= 1.0 && HasFourDecimals(x.a)
    ensures ParseOklchCss(FormatOklchCss(x)) == Some(x)
  {
    FormatRoundTrip(x);
    Round4Exact(Percent(x.l));
    Round4Exact(x.c);
    Round4Exact(x.h);
    Round4Exact(x.a);
    NormalizeDegreesSpec(x.h);
    assert OklchRounded(x) == x;
  }
}
