/** Pixels and the ITU-R BT.601 luminance tests of the background remover.

    The program computes luminance as (0.299 r + 0.587 g + 0.114 b) / 255 in
    floating point and compares it with 0.28 (the fill threshold) and 0.15 (the
    isolated-pixel threshold). Multiplying both sides by 255000 turns each test
    into an exact integer comparison, which is what this module states. */
module Luminance {

  /** One 8-bit channel value. */
  type Channel = v: int | 0 <= v <= 255

  /** An RGBA pixel, as the image library yields it after conversion to RGBA. */
  datatype Pixel = Pixel(r: Channel, g: Channel, b: Channel, a: Channel)

  /** The luminance scaled by 255000: r, g and b weighted 299 / 587 / 114. */
  function Weighted(r: Channel, g: Channel, b: Channel): (l: int)
    ensures 0 <= l <= 255000
    ensures r == g == b ==> l == 1000 * r
  {
    299 * r + 587 * g + 114 * b
  }

  /** 0.28 * 255000: the luminance at or below which a pixel counts as background. */
  const DarkLimit: int := 71400

  /** 0.15 * 255000: the luminance at or below which a pixel is removed wherever it is. */
  const VeryDarkLimit: int := 38250

  /** luminance(r, g, b) <= 0.28 */
  predicate IsDark(p: Pixel)
  {
    Weighted(p.r, p.g, p.b) <= DarkLimit
  }

  /** luminance(r, g, b) <= 0.15 */
  predicate IsVeryDark(p: Pixel)
  {
    Weighted(p.r, p.g, p.b) <= VeryDarkLimit
  }

  /** The same pixel made fully transparent; colour channels are kept. */
  function Transparent(p: Pixel): (q: Pixel)
    ensures q.r == p.r && q.g == p.g && q.b == p.b && q.a == 0
  {
    p.(a := 0)
  }

  /** The integer tests decide the same as the program's luminance formula and
      thresholds evaluated over the reals. */
  lemma TestsMatchLuminance(p: Pixel)
    ensures IsDark(p) <==>
      (0.299 * p.r as real + 0.587 * p.g as real + 0.114 * p.b as real) / 255.0 <= 0.28
    ensures IsVeryDark(p) <==>
      (0.299 * p.r as real + 0.587 * p.g as real + 0.114 * p.b as real) / 255.0 <= 0.15
  {
  }

  /** The isolated-pixel threshold is the stricter of the two. */
  lemma VeryDarkIsDark(p: Pixel)
    ensures IsVeryDark(p) ==> IsDark(p)
  {
  }

  /** The grey levels that each test accepts: a grey pixel of level v is dark
      exactly when v <= 71 and very dark exactly when v <= 38. */
  lemma GreyThresholds(v: Channel)
    ensures IsDark(Pixel(v, v, v, 255)) <==> v <= 71
    ensures IsVeryDark(Pixel(v, v, v, 255)) <==> v <= 38
  {
  }
}
