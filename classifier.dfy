/**
 * The pixel classifier: a byte-valued RGB pixel is converted to HSV and tested
 * against a threshold window. The hue test of a window whose lower bound
 * exceeds its upper bound wraps through 0 degrees.
 */
module Classifier {
  import opened ColorSpace

  /** One channel of an RGBA pixel buffer. */
  type Byte = x: int | 0 <= x < 256

  /** A threshold window: hue bounds in degrees, saturation and value bounds in [0, 1]. */
  datatype Threshold = Threshold(hMin: real, hMax: real, sMin: real, sMax: real, vMin: real, vMax: real)

  /** The window's bounds lie in their domains: hue in [0, 360), saturation and value in [0, 1]. */
  predicate WellFormed(t: Threshold) {
    && 0.0 <= t.hMin < 360.0 && 0.0 <= t.hMax < 360.0
    && Unit(t.sMin) && Unit(t.sMax) && Unit(t.vMin) && Unit(t.vMax)
  }

  /** The hue test: a plain interval when hMin <= hMax, otherwise the union [hMin, ...) and (..., hMax]. */
  predicate InHue(h: real, hMin: real, hMax: real) {
    if hMin <= hMax then hMin <= h && h <= hMax else h >= hMin || h <= hMax
  }

  /** The conversion applied to a pixel: each byte is divided by 255 first. */
  function PixelHsv(r: Byte, g: Byte, b: Byte): Hsv {
    RgbToHsv(r as real / 255.0, g as real / 255.0, b as real / 255.0)
  }

  /** The classifier: the hue, saturation and value tests must all pass. */
  predicate MatchColor(r: Byte, g: Byte, b: Byte, t: Threshold) {
    var c := PixelHsv(r, g, b);
    InHue(c.h, t.hMin, t.hMax) && c.s >= t.sMin && c.s <= t.sMax && c.v >= t.vMin && c.v <= t.vMax
  }

  /** The classifier with its window fixed, as a compositing pass applies it to each pixel. */
  function Matcher(t: Threshold): (Byte, Byte, Byte) -> bool {
    (r: Byte, g: Byte, b: Byte) => MatchColor(r, g, b, t)
  }

  /** The clockwise angular distance from `from` to `to`, both in [0, 360). */
  function Arc(from: real, to: real): (a: real)
    requires 0.0 <= from < 360.0 && 0.0 <= to < 360.0
    ensures 0.0 <= a < 360.0
    ensures a == 0.0 <==> from == to
    ensures (to - from == a) || (to - from + 360.0 == a)
  {
    if to >= from then to - from else to - from + 360.0
  }

  /**
   * The hue test agrees with an independent reading of the window as the arc
   * swept clockwise from hMin to hMax: a hue is inside exactly when it is
   * reached from hMin no later than hMax is. This covers the plain and the
   * wrapping case alike.
   */
  lemma InHueIsArc(h: real, hMin: real, hMax: real)
    requires 0.0 <= h < 360.0 && 0.0 <= hMin < 360.0 && 0.0 <= hMax < 360.0
    ensures InHue(h, hMin, hMax) <==> Arc(hMin, h) <= Arc(hMin, hMax)
  {
  }

  /** Every byte triple converts into the HSV ranges h in [0, 360), s and v in [0, 1]. */
  lemma PixelHsvRange(r: Byte, g: Byte, b: Byte)
    ensures var c := PixelHsv(r, g, b);
      0.0 <= c.h < 360.0 && Unit(c.s) && Unit(c.v)
  {
    HsvRange(r as real / 255.0, g as real / 255.0, b as real / 255.0);
  }

  /**
   * For a well-formed window, a pixel matches exactly when its hue lies on the
   * clockwise arc from hMin to hMax and its saturation and value lie in their
   * closed intervals.
   */
  lemma MatchColorArc(r: Byte, g: Byte, b: Byte, t: Threshold)
    requires WellFormed(t)
    ensures var c := PixelHsv(r, g, b);
      && 0.0 <= c.h < 360.0
      && (MatchColor(r, g, b, t) <==>
        && Arc(t.hMin, c.h) <= Arc(t.hMin, t.hMax)
        && t.sMin <= c.s <= t.sMax
        && t.vMin <= c.v <= t.vMax)
  {
    var c := PixelHsv(r, g, b);
    PixelHsvRange(r, g, b);
    InHueIsArc(c.h, t.hMin, t.hMax);
  }

  /** A grey pixel (equal channels) has saturation 0, so no window with a positive saturation floor accepts it. */
  lemma GreyNeverMatches(x: Byte, t: Threshold)
    requires t.sMin > 0.0
    ensures !MatchColor(x, x, x, t)
  {
  }

  /** The wrapping red window 340..20 accepts hues 0, 10 and 350 and rejects 180. */
  lemma WrappedHueExamples()
    ensures InHue(0.0, 340.0, 20.0) && InHue(10.0, 340.0, 20.0) && InHue(350.0, 340.0, 20.0)
    ensures !InHue(180.0, 340.0, 20.0)
  {
  }

  /** The plain green window 70..170 accepts hue 100 and rejects 200. */
  lemma PlainHueExamples()
    ensures InHue(100.0, 70.0, 170.0) && !InHue(200.0, 70.0, 170.0)
  {
  }
}
