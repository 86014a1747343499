/**
 * The colour-space conversion of the compositor: a normalised RGB triple is
 * turned into hue (degrees), saturation and value with the six-sector hexcone
 * formula. The arithmetic is exact (Dafny's `real` is rational), so the range
 * and sector facts below hold without rounding.
 */
module ColorSpace {

  /** Hue in degrees, saturation and value; h, s and v are the fields the classifier reads. */
  datatype Hsv = Hsv(h: real, s: real, v: real)

  /** The largest of three components (JavaScript's three-argument `Math.max`). */
  function Max3(a: real, b: real, c: real): (m: real)
    ensures m >= a && m >= b && m >= c
    ensures m == a || m == b || m == c
  {
    if a >= b && a >= c then a else if b >= c then b else c
  }

  /** The smallest of three components (JavaScript's three-argument `Math.min`). */
  function Min3(a: real, b: real, c: real): (m: real)
    ensures m <= a && m <= b && m <= c
    ensures m == a || m == b || m == c
  {
    if a <= b && a <= c then a else if b <= c then b else c
  }

  /**
   * The conversion. The value is the largest component; the saturation is the
   * spread over the value, or 0 for black; an achromatic triple (no spread)
   * keeps hue 0, otherwise the hue is taken from the sector of the component
   * that is largest, tried in the order red, green, blue. A red-sector hue
   * below 0 is lifted by a full turn (the `+6` sectors).
   */
  function RgbToHsv(r: real, g: real, b: real): (c: Hsv)
    ensures c.v >= r && c.v >= g && c.v >= b
    ensures c.v == r || c.v == g || c.v == b
    ensures c.s == 0.0 <==> c.v == 0.0 || (r == g && g == b)
    ensures r == g && g == b ==> c.h == 0.0
  {
    var max := Max3(r, g, b);
    var min := Min3(r, g, b);
    var d := max - min;
    var s := if max != 0.0 then d / max else 0.0;
    var h :=
      if d == 0.0 then 0.0
      else if max == r then ((g - b) / d + (if g < b then 6.0 else 0.0)) * 60.0
      else if max == g then ((b - r) / d + 2.0) * 60.0
      else ((r - g) / d + 4.0) * 60.0;
    Hsv(h, s, max)
  }

  /** A quantity in [0, 1]: a normalised component, a saturation, a value or a window bound on them. */
  predicate Unit(x: real) {
    0.0 <= x <= 1.0
  }

  /** A quotient whose numerator lies within one denominator of zero lies in [-1, 1], with the numerator's sign. */
  lemma QuotientBounds(x: real, d: real)
    requires d > 0.0 && -d <= x <= d
    ensures -1.0 <= x / d <= 1.0
    ensures x >= 0.0 ==> x / d >= 0.0
    ensures x < 0.0 ==> x / d < 0.0
  {
  }

  /**
   * The hue sectors: with a non-zero spread, a red-maximal triple lands in
   * [0, 60] (green at least blue) or [300, 360) (green below blue), a
   * green-maximal one in [60, 180] and a blue-maximal one in [180, 300].
   */
  lemma HueSector(r: real, g: real, b: real)
    requires Max3(r, g, b) != Min3(r, g, b)
    ensures var c := RgbToHsv(r, g, b);
      && (c.v == r && g >= b ==> 0.0 <= c.h <= 60.0)
      && (c.v == r && g < b ==> 300.0 <= c.h < 360.0)
      && (c.v != r && c.v == g ==> 60.0 <= c.h <= 180.0)
      && (c.v != r && c.v != g ==> 180.0 <= c.h <= 300.0)
  {
    var max, min := Max3(r, g, b), Min3(r, g, b);
    var d := max - min;
    if max == r {
      QuotientBounds(g - b, d);
    } else if max == g {
      QuotientBounds(b - r, d);
    } else {
      QuotientBounds(r - g, d);
    }
  }

  /** For components in [0, 1] the conversion lands in h in [0, 360), s and v in [0, 1]. */
  lemma HsvRange(r: real, g: real, b: real)
    requires Unit(r) && Unit(g) && Unit(b)
    ensures var c := RgbToHsv(r, g, b);
      0.0 <= c.h < 360.0 && Unit(c.s) && Unit(c.v)
  {
    var max, min := Max3(r, g, b), Min3(r, g, b);
    if max != min {
      HueSector(r, g, b);
    }
    if max != 0.0 {
      QuotientBounds(max - min, max);
    }
  }
}
