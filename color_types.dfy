/** The colour records shared by the library's modules, and the `clamp01` helper they all define. */
module ColorTypes {

  /** sRGB channels on the 0–255 scale and an alpha, as plain numbers (nothing enforces a range). */
  datatype Rgb = Rgb(r: real, g: real, b: real, a: real)

  /** OKLCH lightness (0–1), chroma, hue in degrees and alpha. */
  datatype Oklch = Oklch(l: real, c: real, h: real, a: real)

  /** Hue in degrees, saturation and lightness in percent, and alpha. */
  datatype Hsl = Hsl(h: real, s: real, l: real, a: real)

  function Max(x: real, y: real): real {
    if x >= y then x else y
  }

  function Min(x: real, y: real): real {
    if x <= y then x else y
  }

  /** `Math.max(0, Math.min(1, n))`: the nearest point of [0, 1]. */
  function Clamp01(n: real): (r: real)
    ensures 0.0 <= r <= 1.0
    ensures 0.0 <= n <= 1.0 ==> r == n
    ensures n < 0.0 ==> r == 0.0
    ensures n > 1.0 ==> r == 1.0
  {
    Max(0.0, Min(1.0, n))
  }
}
