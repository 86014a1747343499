/**
 * One chroma-key pass: the output buffer (RGBA, four bytes per pixel) is
 * scanned pixel by pixel; where the buffer's own colour passes the layer's
 * classifier, all four bytes are replaced by the overlay's bytes at the same
 * index. The classifier is a predicate on a pixel's red, green and blue bytes;
 * the page always passes `MatchColor` with the layer's window (`Matcher`).
 */
module Compositor {
  import opened Classifier

  /** The pixel that starts at byte `i` of `buf` passes the classifier. */
  predicate PixelMatches(buf: seq<Byte>, i: nat, matches: (Byte, Byte, Byte) -> bool)
    requires i + 2 < |buf|
  {
    matches(buf[i], buf[i + 1], buf[i + 2])
  }

  /**
   * The result of one pass, defined pixel by pixel from the front: a matching
   * pixel contributes the overlay's four bytes, any other pixel its own. Each
   * pixel is judged on its own bytes, which the pass has not yet touched.
   */
  function Chroma(bg: seq<Byte>, ov: seq<Byte>, matches: (Byte, Byte, Byte) -> bool): (r: seq<Byte>)
    requires |bg| == |ov| && |bg| % 4 == 0
    ensures |r| == |bg|
    decreases |bg|
  {
    if |bg| == 0 then []
    else (if PixelMatches(bg, 0, matches) then ov[..4] else bg[..4]) + Chroma(bg[4..], ov[4..], matches)
  }

  /**
   * Byte `o` of pixel `p` after a pass: the overlay's byte when that pixel
   * matched, else the background's.
   */
  lemma {:induction false} ChromaByte(bg: seq<Byte>, ov: seq<Byte>, matches: (Byte, Byte, Byte) -> bool, p: nat, o: nat)
    requires |bg| == |ov| && |bg| % 4 == 0 && o < 4 && 4 * p + o < |bg|
    ensures Chroma(bg, ov, matches)[4 * p + o] ==
      if PixelMatches(bg, 4 * p, matches) then ov[4 * p + o] else bg[4 * p + o]
    decreases p
  {
    if p > 0 {
      ChromaByte(bg[4..], ov[4..], matches, p - 1, o);
      assert bg[4..][4 * (p - 1)..4 * p - 1] == bg[4 * p..4 * p + 3];
    }
  }

  /**
   * A whole pixel after a pass: the buffer keeps its length, and the four
   * bytes starting at a pixel boundary are the overlay's (alpha included) when
   * the background pixel matched, and the background's untouched otherwise.
   */
  lemma ChromaPixel(bg: seq<Byte>, ov: seq<Byte>, matches: (Byte, Byte, Byte) -> bool, i: nat)
    requires |bg| == |ov| && |bg| % 4 == 0 && i < |bg| && i % 4 == 0
    ensures i + 4 <= |bg| == |Chroma(bg, ov, matches)|
    ensures Chroma(bg, ov, matches)[i..i + 4] ==
      if PixelMatches(bg, i, matches) then ov[i..i + 4] else bg[i..i + 4]
  {
    var r := Chroma(bg, ov, matches);
    var p := i / 4;
    assert 4 * p == i;
    ChromaByte(bg, ov, matches, p, 0);
    ChromaByte(bg, ov, matches, p, 1);
    ChromaByte(bg, ov, matches, p, 2);
    ChromaByte(bg, ov, matches, p, 3);
  }

  /** A one-pixel pass: the overlay's pixel on a match, the background's otherwise. */
  lemma ChromaOne(bg: seq<Byte>, ov: seq<Byte>, matches: (Byte, Byte, Byte) -> bool)
    requires |bg| == |ov| == 4
    ensures Chroma(bg, ov, matches) == if PixelMatches(bg, 0, matches) then ov else bg
  {
    assert bg[..4] == bg && ov[..4] == ov && bg[4..] == [];
  }

  /** A pass over two buffers laid end to end is the two passes laid end to end. */
  lemma {:induction false} ChromaAppend(a: seq<Byte>, b: seq<Byte>, oa: seq<Byte>, ob: seq<Byte>, matches: (Byte, Byte, Byte) -> bool)
    requires |a| == |oa| && |b| == |ob| && |a| % 4 == 0 && |b| % 4 == 0
    ensures Chroma(a + b, oa + ob, matches) == Chroma(a, oa, matches) + Chroma(b, ob, matches)
    decreases |a|
  {
    if |a| == 0 {
      assert a + b == b && oa + ob == ob;
    } else {
      ChromaAppend(a[4..], b, oa[4..], ob, matches);
      assert (a + b)[4..] == a[4..] + b && (oa + ob)[4..] == oa[4..] + ob;
      assert (a + b)[..4] == a[..4] && (oa + ob)[..4] == oa[..4];
      assert (a + b)[..3] == a[..3];
    }
  }

  /**
   * One step of the scan: the pass over the first i bytes followed by the
   * verdict on the pixel at i is the pass over the first i + 4 bytes.
   */
  lemma ChromaExtend(bg: seq<Byte>, ov: seq<Byte>, matches: (Byte, Byte, Byte) -> bool, i: nat)
    requires |bg| == |ov| && i % 4 == 0 && i + 4 <= |bg|
    ensures Chroma(bg[..i], ov[..i], matches)
      + (if PixelMatches(bg, i, matches) then ov[i..i + 4] else bg[i..i + 4])
      == Chroma(bg[..i + 4], ov[..i + 4], matches)
  {
    assert bg[i..i + 4][..3] == bg[i..i + 3];
    ChromaOne(bg[i..i + 4], ov[i..i + 4], matches);
    ChromaAppend(bg[..i], bg[i..i + 4], ov[..i], ov[i..i + 4], matches);
    assert bg[..i] + bg[i..i + 4] == bg[..i + 4];
    assert ov[..i] + ov[i..i + 4] == ov[..i + 4];
  }

  /** A pass in which no pixel matches leaves the buffer byte-identical. */
  lemma {:induction false} ChromaNoMatch(bg: seq<Byte>, ov: seq<Byte>, matches: (Byte, Byte, Byte) -> bool)
    requires |bg| == |ov| && |bg| % 4 == 0
    requires forall i: nat :: i < |bg| && i % 4 == 0 ==> !PixelMatches(bg, i, matches)
    ensures Chroma(bg, ov, matches) == bg
    decreases |bg|
  {
    if |bg| > 0 {
      assert !PixelMatches(bg, 0, matches);
      var rest := bg[4..];
      forall i: nat | i < |rest| && i % 4 == 0
        ensures !PixelMatches(rest, i, matches)
      {
        assert !PixelMatches(bg, i + 4, matches);
        assert rest[i..i + 3] == bg[i + 4..i + 7];
      }
      ChromaNoMatch(rest, ov[4..], matches);
      assert bg == bg[..4] + rest;
    }
  }

  /** Overwrite the four bytes of the pixel starting at `i` with the overlay's; nothing else changes. */
  method OverwritePixel(bg: array<Byte>, ov: array<Byte>, i: nat)
    requires bg != ov && bg.Length == ov.Length && i + 4 <= bg.Length
    modifies bg
    ensures forall j :: 0 <= j < bg.Length ==> bg[j] == if i <= j < i + 4 then ov[j] else old(bg[j])
  {
    bg[i] := ov[i];
    bg[i + 1] := ov[i + 1];
    bg[i + 2] := ov[i + 2];
    bg[i + 3] := ov[i + 3];
  }

  /**
   * The pass in place: `bg` is the output buffer read back as pixels, `ov` the
   * overlay sampled at the same size. The scan steps four bytes at a time;
   * each pixel is classified on its own bytes and, on a match, overwritten
   * with the overlay's four bytes.
   */
  method ApplyChroma(bg: array<Byte>, ov: array<Byte>, matches: (Byte, Byte, Byte) -> bool)
    requires bg != ov && bg.Length == ov.Length && bg.Length % 4 == 0
    modifies bg
    ensures bg[..] == Chroma(old(bg[..]), ov[..], matches)
  {
    ghost var before := bg[..];
    var i := 0;
    while i < bg.Length
      invariant 0 <= i <= bg.Length && i % 4 == 0
      invariant bg[..i] == Chroma(before[..i], ov[..i], matches)
      invariant bg[i..] == before[i..]
    {
      ghost var done := bg[..i];
      var r, g, b := bg[i], bg[i + 1], bg[i + 2];
      ghost var hit := PixelMatches(before, i, matches);
      assert hit == matches(r, g, b);
      if matches(r, g, b) {
        OverwritePixel(bg, ov, i);
      }
      ChromaExtend(before, ov[..], matches, i);
      assert bg[..i + 4] == done + (if hit then ov[i..i + 4] else before[i..i + 4]);
      i := i + 4;
    }
    assert before[..i] == before && ov[..i] == ov[..] && bg[..i] == bg[..];
  }
}
