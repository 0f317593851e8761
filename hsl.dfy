/**
  The RGB ↔ HSL conversions (src/hsl.ts). Channels are exact rationals here: the 0–255 input
  channels are scaled to 0–1, HSL carries hue in degrees and saturation and lightness in percent.
 */
module HslTransform {
  import opened JsNumber
  import opened ColorTypes

  // ---------------------------------------------------------------- rgbToHsl

  function Max3(x: real, y: real, z: real): (r: real)
    ensures r >= x && r >= y && r >= z && (r == x || r == y || r == z)
  {
    Max(Max(x, y), z)
  }

  function Min3(x: real, y: real, z: real): (r: real)
    ensures r <= x && r <= y && r <= z && (r == x || r == y || r == z)
  {
    Min(Min(x, y), z)
  }

  /** The divisor of the saturation, `1 - |2l - 1|`, for the lightness `l` of the scaled channels. */
  function SaturationDivisor(c: Rgb): real {
    var r, g, b := c.r / 255.0, c.g / 255.0, c.b / 255.0;
    var l := (Max3(r, g, b) + Min3(r, g, b)) / 2.0;
    1.0 - Abs(2.0 * l - 1.0)
  }

  /** `rgbToHsl` divides by the saturation divisor only when the channels are not all equal. */
  predicate SaturationDefined(c: Rgb) {
    (c.r == c.g == c.b) || SaturationDivisor(c) != 0.0
  }

  /**
    The `switch (max)` of `rgbToHsl`, before the scaling by 60: the first of r, g, b that
    equals the maximum picks the branch; red adds 6 when g < b.
   */
  function HueSector(r: real, g: real, b: real, mx: real, d: real): (h: real)
    requires mx == Max3(r, g, b) && d == mx - Min3(r, g, b) && d != 0.0
    ensures 0.0 <= h < 6.0
    ensures mx == r ==> (g >= b ==> h <= 1.0) && (g < b ==> 5.0 <= h)
    ensures mx != r && mx == g ==> 1.0 <= h <= 3.0
    ensures mx != r && mx != g ==> 3.0 <= h <= 5.0
  {
    if mx == r then
      SectorBounds(g - b, d);
      (g - b) / d + (if g < b then 6.0 else 0.0)
    else if mx == g then
      SectorBounds(b - r, d);
      (b - r) / d + 2.0
    else
      SectorBounds(r - g, d);
      (r - g) / d + 4.0
  }

  /** A difference no larger than the spread, over the spread, lies in [-1, 1]. */
  lemma SectorBounds(x: real, d: real)
    requires d > 0.0 && -d <= x <= d
    ensures -1.0 <= x / d <= 1.0
    ensures x >= 0.0 ==> x / d >= 0.0
    ensures x < 0.0 ==> x / d < 0.0
  {
    assert x / d * d == x;
  }

  /**
    `rgbToHsl`: lightness is the midrange of the scaled channels, saturation the spread over
    the saturation divisor (0 for a grey), hue the branch value times 60 (0 for a grey);
    alpha is copied unclamped.
   */
  function RgbToHsl(c: Rgb): (x: Hsl)
    requires SaturationDefined(c)
    ensures x.a == c.a
    ensures 0.0 <= x.h < 360.0
  {
    var r, g, b := c.r / 255.0, c.g / 255.0, c.b / 255.0;
    var mx := Max3(r, g, b);
    var mn := Min3(r, g, b);
    var d := mx - mn;
    var l := (mx + mn) / 2.0;
    var s := if d == 0.0 then 0.0 else d / (1.0 - Abs(2.0 * l - 1.0));
    var h := if d == 0.0 then 0.0 else HueSector(r, g, b, mx, d) * 60.0;
    Hsl(h, s * 100.0, l * 100.0, c.a)
  }

  /** Lightness is the midrange of the unscaled channels on the 0..100 scale: (max + min) / 2 / 255 * 100. */
  lemma LightnessMidrange(c: Rgb)
    requires SaturationDefined(c)
    ensures RgbToHsl(c).l == (Max3(c.r, c.g, c.b) + Min3(c.r, c.g, c.b)) / 5.1
  {
    ScaledMax3(c.r, c.g, c.b);
  }

  /** Scaling by 1/255 commutes with taking the largest and the smallest of three. */
  lemma ScaledMax3(r: real, g: real, b: real)
    ensures Max3(r / 255.0, g / 255.0, b / 255.0) == Max3(r, g, b) / 255.0
    ensures Min3(r / 255.0, g / 255.0, b / 255.0) == Min3(r, g, b) / 255.0
  {
  }

  // ---------------------------------------------------------------- hslToRgb

  /**
    `hueToRgb`: `t` is moved by one unit at most once in each direction, then the channel
    rises from `p` to `q` over [0, 1/6), stays at `q` until 1/2, falls back to `p` by 2/3
    and stays at `p`.
   */
  function HueToRgb(p: real, q: real, t: real): real {
    var t1 := if t < 0.0 then t + 1.0 else t;
    var t2 := if t1 > 1.0 then t1 - 1.0 else t1;
    if t2 < 1.0 / 6.0 then p + (q - p) * 6.0 * t2
    else if t2 < 1.0 / 2.0 then q
    else if t2 < 2.0 / 3.0 then p + (q - p) * (2.0 / 3.0 - t2) * 6.0
    else p
  }

  /**
    For `p <= q` and `t >= -1`, `hueToRgb` stays between its two anchors: a `t` still above 1
    after one wrap falls in the last branch and gives `p`.
   */
  lemma HueToRgbBetween(p: real, q: real, t: real)
    requires p <= q && -1.0 <= t
    ensures p <= HueToRgb(p, q, t) <= q
  {
    var w := Wrapped(t);
    assert 0.0 <= w;
    var k := Ramp(w);
    assert 0.0 <= k <= 1.0 by {
      if w < 1.0 / 6.0 {
        assert k == 6.0 * w;
      } else if w >= 1.0 / 2.0 && w < 2.0 / 3.0 {
        assert k == (2.0 / 3.0 - w) * 6.0;
      }
    }
    HueToRgbRamp(p, q, t);
    RampBetween(p, q, k, HueToRgb(p, q, t));
  }

  /** A point `v` a fraction `k` in [0, 1] of the way from `p` to `q` lies between them. */
  lemma RampBetween(p: real, q: real, k: real, v: real)
    requires p <= q && 0.0 <= k <= 1.0 && v == p + (q - p) * k
    ensures p <= v <= q
  {
    var d := q - p;
    assert 0.0 <= d * k <= d * 1.0;
    assert v == p + d * k;
  }

  /** The upper anchor `q` of `hslToRgb`, from the 0–1 lightness and saturation. */
  function UpperAnchor(l: real, s: real): real {
    if l < 0.5 then l * (1.0 + s) else l + s - l * s
  }

  /**
    `hslToRgb`: a zero saturation gives the grey of the lightness; otherwise each channel is
    `hueToRgb` at the hue shifted by +1/3, 0 and -1/3 of a turn. Channels are rounded as
    `Math.round` does after scaling to 0–255, and alpha is clamped into [0, 1].
   */
  function HslToRgb(x: Hsl): (c: Rgb)
    ensures c.a == Clamp01(x.a)
    ensures IsWhole(c.r) && IsWhole(c.g) && IsWhole(c.b)
    ensures x.s == 0.0 ==> c.r == c.g == c.b == MathRound(x.l / 100.0 * 255.0) as real
  {
    var h := x.h / 360.0;
    var s := x.s / 100.0;
    var l := x.l / 100.0;
    if s == 0.0 then
      var v := MathRound(l * 255.0) as real;
      Rgb(v, v, v, Clamp01(x.a))
    else
      var q := UpperAnchor(l, s);
      var p := 2.0 * l - q;
      Rgb(MathRound(HueToRgb(p, q, h + 1.0 / 3.0) * 255.0) as real,
          MathRound(HueToRgb(p, q, h) * 255.0) as real,
          MathRound(HueToRgb(p, q, h - 1.0 / 3.0) * 255.0) as real,
          Clamp01(x.a))
  }

  // ---------------------------------------------------------------- rgbToHsl and back

  /** Where `hueToRgb` has moved its parameter: into [0, 1] for any `t` in [-1, 2]. */
  function Wrapped(t: real): real {
    var t1 := if t < 0.0 then t + 1.0 else t;
    if t1 > 1.0 then t1 - 1.0 else t1
  }

  /** The fraction of the way from `p` to `q` that `hueToRgb` returns at the moved parameter `w`. */
  function Ramp(w: real): real {
    if w < 1.0 / 6.0 then 6.0 * w
    else if w < 1.0 / 2.0 then 1.0
    else if w < 2.0 / 3.0 then (2.0 / 3.0 - w) * 6.0
    else 0.0
  }

  /** `hueToRgb` is `p` plus the ramp's fraction of `q - p`. */
  lemma HueToRgbRamp(p: real, q: real, t: real)
    ensures HueToRgb(p, q, t) == p + (q - p) * Ramp(Wrapped(t))
  {
    var w := Wrapped(t);
    if w < 1.0 / 6.0 {
      assert (q - p) * 6.0 * w == (q - p) * (6.0 * w);
    } else if w < 1.0 / 2.0 {
    } else if w < 2.0 / 3.0 {
      assert (q - p) * (2.0 / 3.0 - w) * 6.0 == (q - p) * ((2.0 / 3.0 - w) * 6.0);
    }
  }

  /** Red is the largest channel and green at least blue: hue sector in [0, 1]. */
  lemma RampsRedGreen(r: real, g: real, b: real, d: real, h6: real)
    requires d > 0.0 && r == b + d && b <= g <= r && h6 == (g - b) / d
    ensures d * Ramp(Wrapped(h6 / 6.0 + 1.0 / 3.0)) == r - b
    ensures d * Ramp(Wrapped(h6 / 6.0)) == g - b
    ensures d * Ramp(Wrapped(h6 / 6.0 - 1.0 / 3.0)) == 0.0
  {
    SectorBounds(g - b, d);
    assert h6 * d == g - b;
    assert Ramp(Wrapped(h6 / 6.0 + 1.0 / 3.0)) == 1.0;
    if h6 < 1.0 {
      assert Ramp(Wrapped(h6 / 6.0)) == h6;
    } else {
      assert h6 == 1.0;
      assert Ramp(Wrapped(h6 / 6.0)) == 1.0;
    }
    assert Wrapped(h6 / 6.0 - 1.0 / 3.0) == h6 / 6.0 + 2.0 / 3.0;
  }

  /** Red is the largest channel and blue above green: hue sector in [5, 6). */
  lemma RampsRedBlue(r: real, g: real, b: real, d: real, h6: real)
    requires d > 0.0 && r == g + d && g < b <= r && h6 == (g - b) / d + 6.0
    ensures d * Ramp(Wrapped(h6 / 6.0 + 1.0 / 3.0)) == r - g
    ensures d * Ramp(Wrapped(h6 / 6.0)) == 0.0
    ensures d * Ramp(Wrapped(h6 / 6.0 - 1.0 / 3.0)) == b - g
  {
    SectorBounds(g - b, d);
    assert (h6 - 6.0) * d == g - b;
    assert Wrapped(h6 / 6.0 + 1.0 / 3.0) == h6 / 6.0 - 2.0 / 3.0;
    assert Ramp(Wrapped(h6 / 6.0 + 1.0 / 3.0)) == 1.0;
    assert Ramp(Wrapped(h6 / 6.0)) == 0.0;
    var w := h6 / 6.0 - 1.0 / 3.0;
    assert Wrapped(w) == w;
    if h6 > 5.0 {
      assert Ramp(w) == 6.0 - h6;
    } else {
      assert Ramp(w) == 1.0;
    }
  }

  /** Green is the largest channel (red is not): hue sector in [1, 3]. */
  lemma RampsGreen(r: real, g: real, b: real, d: real, m: real, h6: real)
    requires d > 0.0 && g == m + d && r < g && b <= g && m == Min3(r, g, b)
    requires h6 == (b - r) / d + 2.0
    ensures d * Ramp(Wrapped(h6 / 6.0 + 1.0 / 3.0)) == r - m
    ensures d * Ramp(Wrapped(h6 / 6.0)) == g - m
    ensures d * Ramp(Wrapped(h6 / 6.0 - 1.0 / 3.0)) == b - m
  {
    SectorBounds(b - r, d);
    assert (h6 - 2.0) * d == b - r;
    var wr := h6 / 6.0 + 1.0 / 3.0;
    assert Wrapped(wr) == wr;
    if h6 < 2.0 {
      assert Ramp(wr) == 2.0 - h6;
    } else {
      assert Ramp(wr) == 0.0;
    }
    if h6 < 3.0 {
      assert Ramp(Wrapped(h6 / 6.0)) == 1.0;
    } else {
      assert Ramp(Wrapped(h6 / 6.0)) == 1.0;
    }
    var wb := h6 / 6.0 - 1.0 / 3.0;
    if h6 < 2.0 {
      assert Wrapped(wb) == wb + 1.0;
      assert Ramp(Wrapped(wb)) == 0.0;
    } else if h6 < 3.0 {
      assert Wrapped(wb) == wb;
      assert Ramp(Wrapped(wb)) == h6 - 2.0;
    } else {
      assert Wrapped(wb) == wb;
      assert Ramp(Wrapped(wb)) == 1.0;
    }
  }

  /** Blue is the largest channel (red and green are not): hue sector in [3, 5]. */
  lemma RampsBlue(r: real, g: real, b: real, d: real, m: real, h6: real)
    requires d > 0.0 && b == m + d && r < b && g < b && m == Min3(r, g, b)
    requires h6 == (r - g) / d + 4.0
    ensures d * Ramp(Wrapped(h6 / 6.0 + 1.0 / 3.0)) == r - m
    ensures d * Ramp(Wrapped(h6 / 6.0)) == g - m
    ensures d * Ramp(Wrapped(h6 / 6.0 - 1.0 / 3.0)) == b - m
  {
    SectorBounds(r - g, d);
    assert (h6 - 4.0) * d == r - g;
    var wr := h6 / 6.0 + 1.0 / 3.0;
    if h6 > 4.0 {
      assert Wrapped(wr) == wr - 1.0;
      assert Ramp(Wrapped(wr)) == h6 - 4.0;
    } else {
      assert Ramp(Wrapped(wr)) == 0.0;
    }
    var wg := h6 / 6.0;
    assert Wrapped(wg) == wg;
    if h6 < 4.0 {
      assert Ramp(wg) == 4.0 - h6;
    } else {
      assert Ramp(wg) == 0.0;
    }
    var wb := h6 / 6.0 - 1.0 / 3.0;
    assert Wrapped(wb) == wb;
    assert Ramp(wb) == 1.0;
  }

  /** `v` exceeds `p` by the ramp at `t` times the spread `d`. */
  predicate OnRamp(p: real, d: real, t: real, v: real) {
    d * Ramp(Wrapped(t)) == v - p
  }

  /** Whichever channel is the largest, the ramps at the three shifted hues give back each channel's excess over the minimum. */
  lemma SectorRamps(r: real, g: real, b: real, mx: real, mn: real, d: real, h6: real)
    requires mx == Max3(r, g, b) && mn == Min3(r, g, b) && d == mx - mn && d != 0.0
    requires h6 == HueSector(r, g, b, mx, d)
    ensures OnRamp(mn, d, h6 / 6.0 + 1.0 / 3.0, r)
    ensures OnRamp(mn, d, h6 / 6.0, g)
    ensures OnRamp(mn, d, h6 / 6.0 - 1.0 / 3.0, b)
  {
    if mx == r {
      if g >= b {
        RampsRedGreen(r, g, b, d, h6);
      } else {
        RampsRedBlue(r, g, b, d, h6);
      }
    } else if mx == g {
      RampsGreen(r, g, b, d, mn, h6);
    } else {
      RampsBlue(r, g, b, d, mn, h6);
    }
  }

  /** With the lightness and saturation `rgbToHsl` computes, `hslToRgb`'s anchors are the largest and smallest channel. */
  lemma AnchorsRecovered(mx: real, mn: real, s: real)
    requires mx > mn && 1.0 - Abs(2.0 * ((mx + mn) / 2.0) - 1.0) != 0.0
    requires s == (mx - mn) / (1.0 - Abs(2.0 * ((mx + mn) / 2.0) - 1.0))
    ensures UpperAnchor((mx + mn) / 2.0, s) == mx
  {
    var l := (mx + mn) / 2.0;
    var den := 1.0 - Abs(2.0 * l - 1.0);
    assert s * den == mx - mn;
    if l < 0.5 {
      assert den == 2.0 * l;
      assert l * (1.0 + s) == l + (s * den) / 2.0;
    } else {
      assert den == 2.0 - 2.0 * l;
      assert l + s - l * s == l + (s * den) / 2.0;
    }
  }

  /** A grey survives `rgbToHsl` then `hslToRgb` up to `Math.round`, with alpha clamped. */
  lemma RoundTripGrey(c: Rgb)
    requires c.r == c.g == c.b
    ensures HslToRgb(RgbToHsl(c)) == Rgb(MathRound(c.r) as real, MathRound(c.g) as real, MathRound(c.b) as real, Clamp01(c.a))
  {
    var x := RgbToHsl(c);
    assert x.s == 0.0;
    assert x.l / 100.0 * 255.0 == c.r;
  }

  /** The channels `hueToRgb` gives at the hue `rgbToHsl` computes, between the smallest and the largest channel, are the scaled channels. */
  lemma ChannelsRecovered(r: real, g: real, b: real, mx: real, mn: real, h6: real)
    requires mx == Max3(r, g, b) && mn == Min3(r, g, b) && mx != mn
    requires h6 == HueSector(r, g, b, mx, mx - mn)
    ensures HueToRgb(mn, mx, h6 / 6.0 + 1.0 / 3.0) == r
    ensures HueToRgb(mn, mx, h6 / 6.0) == g
    ensures HueToRgb(mn, mx, h6 / 6.0 - 1.0 / 3.0) == b
  {
    var d := mx - mn;
    SectorRamps(r, g, b, mx, mn, d, h6);
    RampRecovers(mn, mx, d, h6 / 6.0 + 1.0 / 3.0, r);
    RampRecovers(mn, mx, d, h6 / 6.0, g);
    RampRecovers(mn, mx, d, h6 / 6.0 - 1.0 / 3.0, b);
  }

  /** A channel whose excess over `p` is the ramp at `t` times the spread is what `hueToRgb` gives at `t`. */
  lemma RampRecovers(p: real, q: real, d: real, t: real, v: real)
    requires d == q - p && OnRamp(p, d, t, v)
    ensures HueToRgb(p, q, t) == v
  {
    HueToRgbRamp(p, q, t);
  }

  /** `hslToRgb` of a record with a non-zero saturation, spelled out with its anchors. */
  lemma HslToRgbChromatic(x: Hsl, p: real, q: real)
    requires x.s != 0.0
    requires q == UpperAnchor(x.l / 100.0, x.s / 100.0) && p == 2.0 * (x.l / 100.0) - q
    ensures HslToRgb(x) == Rgb(MathRound(HueToRgb(p, q, x.h / 360.0 + 1.0 / 3.0) * 255.0) as real,
                               MathRound(HueToRgb(p, q, x.h / 360.0) * 255.0) as real,
                               MathRound(HueToRgb(p, q, x.h / 360.0 - 1.0 / 3.0) * 255.0) as real,
                               Clamp01(x.a))
  {
    var s := x.s / 100.0;
    assert s != 0.0;
    assert HslToRgb(x) == ChromaticRgb(x, p, q);
  }

  /** The record `hslToRgb` builds from the anchors when the saturation is not zero. */
  function ChromaticRgb(x: Hsl, p: real, q: real): Rgb {
    var h := x.h / 360.0;
    Rgb(MathRound(HueToRgb(p, q, h + 1.0 / 3.0) * 255.0) as real,
        MathRound(HueToRgb(p, q, h) * 255.0) as real,
        MathRound(HueToRgb(p, q, h - 1.0 / 3.0) * 255.0) as real,
        Clamp01(x.a))
  }

  /** What `rgbToHsl` computes for a colour with a spread, as the quantities `hslToRgb` reads back. */
  lemma RgbToHslChromatic(c: Rgb) returns (mx: real, mn: real, h6: real)
    requires SaturationDefined(c) && !(c.r == c.g == c.b)
    ensures mx == Max3(c.r / 255.0, c.g / 255.0, c.b / 255.0) && mn == Min3(c.r / 255.0, c.g / 255.0, c.b / 255.0) && mx != mn
    ensures h6 == HueSector(c.r / 255.0, c.g / 255.0, c.b / 255.0, mx, mx - mn)
    ensures RgbToHsl(c).h / 360.0 == h6 / 6.0 && RgbToHsl(c).s != 0.0
    ensures UpperAnchor(RgbToHsl(c).l / 100.0, RgbToHsl(c).s / 100.0) == mx
    ensures 2.0 * (RgbToHsl(c).l / 100.0) - mx == mn
  {
    var r, g, b := c.r / 255.0, c.g / 255.0, c.b / 255.0;
    mx, mn := Max3(r, g, b), Min3(r, g, b);
    var d := mx - mn;
    assert d != 0.0;
    var l := (mx + mn) / 2.0;
    var den := 1.0 - Abs(2.0 * l - 1.0);
    assert den == SaturationDivisor(c);
    var s := d / den;
    NonZeroQuotient(d, den);
    h6 := HueSector(r, g, b, mx, d);
    var x := RgbToHsl(c);
    assert x == Hsl(h6 * 60.0, s * 100.0, l * 100.0, c.a);
    assert x.s / 100.0 == s && x.l / 100.0 == l;
    AnchorsRecovered(mx, mn, s);
  }

  lemma NonZeroQuotient(x: real, y: real)
    requires x != 0.0 && y != 0.0
    ensures x / y != 0.0
  {
    assert x / y * y == x;
  }

  /** A colour with a spread survives `rgbToHsl` then `hslToRgb` up to `Math.round`, with alpha clamped. */
  lemma RoundTripChromatic(c: Rgb)
    requires SaturationDefined(c) && !(c.r == c.g == c.b)
    ensures HslToRgb(RgbToHsl(c)) == Rgb(MathRound(c.r) as real, MathRound(c.g) as real, MathRound(c.b) as real, Clamp01(c.a))
  {
    var mx, mn, h6 := RgbToHslChromatic(c);
    var x := RgbToHsl(c);
    HslToRgbChromatic(x, mn, mx);
    ChannelsRecovered(c.r / 255.0, c.g / 255.0, c.b / 255.0, mx, mn, h6);
    assert c.r / 255.0 * 255.0 == c.r && c.g / 255.0 * 255.0 == c.g && c.b / 255.0 * 255.0 == c.b;
  }

  /**
    `hslToRgb(rgbToHsl(c))` gives back every channel as `Math.round` has it, and alpha clamped
    into [0, 1], for every colour whose saturation `rgbToHsl` can compute.
   */
  lemma RoundTrip(c: Rgb)
    requires SaturationDefined(c)
    ensures HslToRgb(RgbToHsl(c)) == Rgb(MathRound(c.r) as real, MathRound(c.g) as real, MathRound(c.b) as real, Clamp01(c.a))
  {
    if c.r == c.g == c.b {
      RoundTripGrey(c);
    } else {
      RoundTripChromatic(c);
    }
  }

  /** Whole channels in [0, 255] and an alpha in [0, 1] come back unchanged. */
  lemma RoundTripBytes(c: Rgb, r: int, g: int, b: int)
    requires c.r == r as real && c.g == g as real && c.b == b as real
    requires 0 <= r <= 255 && 0 <= g <= 255 && 0 <= b <= 255 && 0.0 <= c.a <= 1.0
    ensures HslToRgb(RgbToHsl(c)) == c
  {
    InRangeDefined(c);
    RoundTrip(c);
    MathRoundOfInteger(r);
    MathRoundOfInteger(g);
    MathRoundOfInteger(b);
  }

  // ---------------------------------------------------------------- ranges

  /** Channels in [0, 255] never make `rgbToHsl` divide by zero: the divisor vanishes only for black and white. */
  lemma InRangeDefined(c: Rgb)
    requires 0.0 <= c.r <= 255.0 && 0.0 <= c.g <= 255.0 && 0.0 <= c.b <= 255.0
    ensures SaturationDefined(c)
  {
    var r, g, b := c.r / 255.0, c.g / 255.0, c.b / 255.0;
    var mx, mn := Max3(r, g, b), Min3(r, g, b);
    if !(c.r == c.g == c.b) {
      assert mx > mn;
      assert 0.0 <= mn && mx <= 1.0;
    }
  }

  /** A grey, and only a grey, has saturation 0; a grey also has hue 0. */
  lemma GreyIffUnsaturated(c: Rgb)
    requires SaturationDefined(c)
    ensures RgbToHsl(c).s == 0.0 <==> c.r == c.g == c.b
    ensures c.r == c.g == c.b ==> RgbToHsl(c).h == 0.0
  {
    var r, g, b := c.r / 255.0, c.g / 255.0, c.b / 255.0;
    var mx, mn := Max3(r, g, b), Min3(r, g, b);
    var d := mx - mn;
    if !(c.r == c.g == c.b) {
      assert d > 0.0;
      var den := 1.0 - Abs(2.0 * ((mx + mn) / 2.0) - 1.0);
      assert den != 0.0;
      assert d / den * den == d;
    }
  }

  /** For channels in [0, 255] the saturation lies in [0, 100]: the spread never exceeds the divisor. */
  lemma SaturationInRange(c: Rgb)
    requires 0.0 <= c.r <= 255.0 && 0.0 <= c.g <= 255.0 && 0.0 <= c.b <= 255.0
    ensures SaturationDefined(c)
    ensures 0.0 <= RgbToHsl(c).s <= 100.0
  {
    InRangeDefined(c);
    var r, g, b := c.r / 255.0, c.g / 255.0, c.b / 255.0;
    var mx, mn := Max3(r, g, b), Min3(r, g, b);
    var d := mx - mn;
    if d != 0.0 {
      var den := 1.0 - Abs(2.0 * ((mx + mn) / 2.0) - 1.0);
      assert 0.0 < d <= den;
      UnitQuotient(d, den);
    }
  }

  /** A positive number over a number at least as large lies in (0, 1]. */
  lemma UnitQuotient(x: real, y: real)
    requires 0.0 < x <= y
    ensures 0.0 < x / y <= 1.0
  {
    assert x / y * y == x;
  }

  /** For lightness and saturation in [0, 1], `hslToRgb`'s anchors satisfy 0 <= p <= q <= 1. */
  lemma AnchorsInRange(l: real, s: real)
    requires 0.0 <= l <= 1.0 && 0.0 <= s <= 1.0
    ensures 0.0 <= 2.0 * l - UpperAnchor(l, s) <= UpperAnchor(l, s) <= 1.0
  {
    var q := UpperAnchor(l, s);
    if l < 0.5 {
      FractionOf(s, l);
      assert q == l + s * l;
    } else {
      var k := 1.0 - l;
      var m := s * k;
      FractionOf(s, k);
      assert q == l + m;
      assert 0.0 <= m <= k;
      assert 2.0 * l - q == l - m;
    }
  }

  /** A fraction in [0, 1] of a non-negative `k` lies in [0, k]. */
  lemma FractionOf(a: real, k: real)
    requires 0.0 <= a <= 1.0 && k >= 0.0
    ensures 0.0 <= a * k <= k
  {
    assert a * k <= 1.0 * k;
  }

  /** A value in [0, 1], scaled to 0–255 and rounded, lies in [0, 255]. */
  lemma ScaledChannel(v: real)
    requires 0.0 <= v <= 1.0
    ensures 0 <= MathRound(v * 255.0) <= 255
  {
  }

  /**
    For saturation and lightness in [0, 100] and a hue of at least -240 degrees, every channel
    `hslToRgb` returns lies in [0, 255]; the lower hue bound keeps each shifted `t` at or above -1.
   */
  lemma ChannelsInRange(x: Hsl)
    requires 0.0 <= x.s <= 100.0 && 0.0 <= x.l <= 100.0 && -240.0 <= x.h
    ensures 0.0 <= HslToRgb(x).r <= 255.0 && 0.0 <= HslToRgb(x).g <= 255.0 && 0.0 <= HslToRgb(x).b <= 255.0
  {
    var h, s, l := x.h / 360.0, x.s / 100.0, x.l / 100.0;
    if s == 0.0 {
      ScaledChannel(l);
    } else {
      var q := UpperAnchor(l, s);
      var p := 2.0 * l - q;
      AnchorsInRange(l, s);
      HslToRgbChromatic(x, p, q);
      HueToRgbBetween(p, q, h + 1.0 / 3.0);
      HueToRgbBetween(p, q, h);
      HueToRgbBetween(p, q, h - 1.0 / 3.0);
      ScaledChannel(HueToRgb(p, q, h + 1.0 / 3.0));
      ScaledChannel(HueToRgb(p, q, h));
      ScaledChannel(HueToRgb(p, q, h - 1.0 / 3.0));
    }
  }

  /** Below -240 degrees `hslToRgb` does not wrap the hue far enough: at -600 degrees green comes out far below 0. */
  lemma HueOutsideRange()
    ensures HslToRgb(Hsl(-600.0, 100.0, 50.0, 1.0)).g == -1020.0
  {
    var x := Hsl(-600.0, 100.0, 50.0, 1.0);
    assert UpperAnchor(0.5, 1.0) == 1.0;
    HslToRgbChromatic(x, 0.0, 1.0);
    assert HueToRgb(0.0, 1.0, -600.0 / 360.0) == -4.0;
    assert MathRound(-4.0 * 255.0) == -1020;
  }
}
