/**
 * The overlay layers: one per colour, each with a fixed threshold window and
 * an enabled flag that a click flips. A draw pass copies the camera frame into
 * the output buffer and then runs the chroma-key pass of every enabled layer,
 * in the fixed order red, green, blue, yellow, each on the buffer as the
 * earlier layers left it.
 */
module Layers {
  import opened ColorSpace
  import opened Classifier
  import opened Compositor

  /** The overlay colours. */
  datatype Color = Red | Green | Blue | Yellow

  /** The order in which the flag table lists the colours, and so the order in which layers are composited. */
  const LayerOrder: seq<Color> := [Red, Green, Blue, Yellow]

  /**
   * The configured window of each colour: red wraps from 340 through 0 to 20
   * degrees, green spans 70..170, blue 190..270 and yellow 30..80; every
   * window asks for saturation in [0.4, 1] and value in [0.3, 1].
   */
  function Window(c: Color): (t: Threshold)
    ensures WellFormed(t)
    ensures t.sMin > 0.0 && t.vMin > 0.0
    ensures t.hMin > t.hMax <==> c == Red
  {
    match c
    case Red => Threshold(340.0, 20.0, 0.4, 1.0, 0.3, 1.0)
    case Green => Threshold(70.0, 170.0, 0.4, 1.0, 0.3, 1.0)
    case Blue => Threshold(190.0, 270.0, 0.4, 1.0, 0.3, 1.0)
    case Yellow => Threshold(30.0, 80.0, 0.4, 1.0, 0.3, 1.0)
  }

  /** A grey pixel matches no configured window, since every saturation floor is positive. */
  lemma GreyMatchesNoLayer(x: Byte, c: Color)
    ensures !MatchColor(x, x, x, Window(c))
  {
    GreyNeverMatches(x, Window(c));
  }

  /** Pure red, green, blue and yellow pixels each fall in their own colour's window. */
  lemma PrimariesMatchTheirLayer()
    ensures MatchColor(255, 0, 0, Window(Red))
    ensures MatchColor(0, 255, 0, Window(Green))
    ensures MatchColor(0, 0, 255, Window(Blue))
    ensures MatchColor(255, 255, 0, Window(Yellow))
    ensures !MatchColor(0, 255, 0, Window(Red))
  {
  }

  /** A table with an entry for every colour. */
  predicate Complete<V>(m: map<Color, V>) {
    forall c: Color :: c in m
  }

  /** The flag table after a click on colour `c`: that flag is negated, every other flag kept. */
  function Flip(en: map<Color, bool>, c: Color): (r: map<Color, bool>)
    requires c in en
    ensures r.Keys == en.Keys
    ensures r[c] == !en[c]
    ensures forall d :: d in en && d != c ==> r[d] == en[d]
  {
    en[c := !en[c]]
  }

  /** Two clicks on the same colour restore the flag table. */
  lemma FlipTwice(en: map<Color, bool>, c: Color)
    requires c in en
    ensures Flip(Flip(en, c), c) == en
  {
  }

  /** One overlay frame per colour, each as long as the output buffer. */
  predicate Fits(ov: map<Color, seq<Byte>>, n: nat) {
    forall c: Color :: c in ov && |ov[c]| == n
  }

  /** One layer's turn: its pass when its flag is set, otherwise the buffer unchanged. */
  function Step(buf: seq<Byte>, c: Color, en: map<Color, bool>, ov: map<Color, seq<Byte>>): (r: seq<Byte>)
    requires Complete(en) && Fits(ov, |buf|) && |buf| % 4 == 0
    ensures |r| == |buf|
  {
    if en[c] then Chroma(buf, ov[c], Matcher(Window(c))) else buf
  }

  /** The layers `cs` taken in order, each seeing the buffer the previous ones produced. */
  function Layered(buf: seq<Byte>, cs: seq<Color>, en: map<Color, bool>, ov: map<Color, seq<Byte>>): (r: seq<Byte>)
    requires Complete(en) && Fits(ov, |buf|) && |buf| % 4 == 0
    ensures |r| == |buf|
    decreases |cs|
  {
    if cs == [] then buf else Layered(Step(buf, cs[0], en, ov), cs[1..], en, ov)
  }

  /** Every layer of `cs` applied unconditionally, in order. */
  function ApplyAll(buf: seq<Byte>, cs: seq<Color>, ov: map<Color, seq<Byte>>): (r: seq<Byte>)
    requires Fits(ov, |buf|) && |buf| % 4 == 0
    ensures |r| == |buf|
    decreases |cs|
  {
    if cs == [] then buf else ApplyAll(Chroma(buf, ov[cs[0]], Matcher(Window(cs[0]))), cs[1..], ov)
  }

  /**
   * `r` can be obtained from `cs` by deleting elements: it keeps their
   * relative order and takes each position of `cs` at most once.
   */
  predicate Subsequence(r: seq<Color>, cs: seq<Color>)
    decreases |cs|
  {
    if r == [] then true
    else if cs == [] then false
    else (r[0] == cs[0] && Subsequence(r[1..], cs[1..])) || Subsequence(r, cs[1..])
  }

  /** The enabled colours of `cs`, in the order of `cs`. */
  function EnabledIn(cs: seq<Color>, en: map<Color, bool>): (r: seq<Color>)
    requires Complete(en)
    ensures |r| <= |cs|
    ensures forall c :: c in r <==> c in cs && en[c]
    ensures Subsequence(r, cs)
  {
    if cs == [] then []
    else
      var rest := EnabledIn(cs[1..], en);
      assert ([cs[0]] + rest)[1..] == rest && [] + rest == rest;
      (if en[cs[0]] then [cs[0]] else []) + rest
  }

  /** Adding a layer at the end runs its turn on the buffer the earlier layers produced. */
  lemma {:induction false} LayeredSnoc(buf: seq<Byte>, cs: seq<Color>, c: Color, en: map<Color, bool>, ov: map<Color, seq<Byte>>)
    requires Complete(en) && Fits(ov, |buf|) && |buf| % 4 == 0
    ensures Layered(buf, cs + [c], en, ov) == Step(Layered(buf, cs, en, ov), c, en, ov)
    decreases |cs|
  {
    if cs == [] {
      assert cs + [c] == [c];
    } else {
      assert (cs + [c])[1..] == cs[1..] + [c];
      LayeredSnoc(Step(buf, cs[0], en, ov), cs[1..], c, en, ov);
    }
  }

  /** Disabled layers are never applied: the draw pass is exactly the enabled layers applied in order. */
  lemma {:induction false} LayeredIsEnabledApplied(buf: seq<Byte>, cs: seq<Color>, en: map<Color, bool>, ov: map<Color, seq<Byte>>)
    requires Complete(en) && Fits(ov, |buf|) && |buf| % 4 == 0
    ensures Layered(buf, cs, en, ov) == ApplyAll(buf, EnabledIn(cs, en), ov)
    decreases |cs|
  {
    if cs != [] {
      var rest := EnabledIn(cs[1..], en);
      LayeredIsEnabledApplied(Step(buf, cs[0], en, ov), cs[1..], en, ov);
      if en[cs[0]] {
        assert EnabledIn(cs, en) == [cs[0]] + rest;
        assert ([cs[0]] + rest)[1..] == rest;
      } else {
        assert EnabledIn(cs, en) == rest;
      }
    }
  }

  /** With every flag off, the output is the camera frame. */
  lemma {:induction false} NoneEnabledKeepsFrame(buf: seq<Byte>, cs: seq<Color>, en: map<Color, bool>, ov: map<Color, seq<Byte>>)
    requires Complete(en) && Fits(ov, |buf|) && |buf| % 4 == 0
    requires forall c: Color :: !en[c]
    ensures Layered(buf, cs, en, ov) == buf
    decreases |cs|
  {
    if cs != [] {
      NoneEnabledKeepsFrame(buf, cs[1..], en, ov);
    }
  }

  /**
   * The last layer decides a pixel it matches: when layer `c` is enabled and
   * the pixel at `i`, as the earlier layers `cs` left it, passes `c`'s window,
   * the final four bytes are `c`'s overlay bytes; otherwise they are what the
   * earlier layers left.
   */
  lemma LastLayerPixel(buf: seq<Byte>, cs: seq<Color>, c: Color, en: map<Color, bool>, ov: map<Color, seq<Byte>>, i: nat)
    requires Complete(en) && Fits(ov, |buf|) && |buf| % 4 == 0
    requires i < |buf| && i % 4 == 0
    ensures i + 4 <= |buf|
    ensures var before := Layered(buf, cs, en, ov);
      Layered(buf, cs + [c], en, ov)[i..i + 4] ==
        if en[c] && PixelMatches(before, i, Matcher(Window(c))) then ov[c][i..i + 4] else before[i..i + 4]
  {
    var before := Layered(buf, cs, en, ov);
    LayeredSnoc(buf, cs, c, en, ov);
    if en[c] {
      ChromaPixel(before, ov[c], Matcher(Window(c)), i);
    }
  }

  /**
   * Yellow is composited last: when it is enabled and the pixel left by the
   * red, green and blue layers passes the yellow window, the output pixel is
   * yellow's overlay pixel.
   */
  lemma YellowHasFinalSay(buf: seq<Byte>, en: map<Color, bool>, ov: map<Color, seq<Byte>>, i: nat)
    requires Complete(en) && Fits(ov, |buf|) && |buf| % 4 == 0
    requires i < |buf| && i % 4 == 0 && en[Yellow]
    requires PixelMatches(Layered(buf, [Red, Green, Blue], en, ov), i, Matcher(Window(Yellow)))
    ensures i + 4 <= |buf|
    ensures Layered(buf, LayerOrder, en, ov)[i..i + 4] == ov[Yellow][i..i + 4]
  {
    assert LayerOrder == [Red, Green, Blue] + [Yellow];
    LastLayerPixel(buf, [Red, Green, Blue], Yellow, en, ov, i);
  }

  /** The red pass over a two-pixel frame, pure red then pure green, keys the red pixel only. */
  lemma RedPassOnRedGreen(ovRed: seq<Byte>)
    requires ovRed == [9, 9, 9, 255, 8, 8, 8, 255]
    ensures Chroma([255, 0, 0, 255, 0, 255, 0, 255], ovRed, Matcher(Window(Red))) == [9, 9, 9, 255, 0, 255, 0, 255]
  {
    var frame: seq<Byte> := [255, 0, 0, 255, 0, 255, 0, 255];
    var keyed := Chroma(frame, ovRed, Matcher(Window(Red)));
    PrimariesMatchTheirLayer();
    assert PixelMatches(frame, 0, Matcher(Window(Red))) && !PixelMatches(frame, 4, Matcher(Window(Red)));
    ChromaPixel(frame, ovRed, Matcher(Window(Red)), 0);
    ChromaPixel(frame, ovRed, Matcher(Window(Red)), 4);
    assert keyed == keyed[0..4] + keyed[4..8];
  }

  /**
   * A two-pixel frame, pure red then pure green, with only the red layer
   * enabled: the red pixel takes the red overlay's pixel and the green pixel
   * is left as it was.
   */
  lemma RedOnlyScenario(en: map<Color, bool>, ov: map<Color, seq<Byte>>)
    requires Complete(en) && en[Red] && !en[Green] && !en[Blue] && !en[Yellow]
    requires Fits(ov, 8) && ov[Red] == [9, 9, 9, 255, 8, 8, 8, 255]
    ensures Layered([255, 0, 0, 255, 0, 255, 0, 255], LayerOrder, en, ov) == [9, 9, 9, 255, 0, 255, 0, 255]
  {
    var frame: seq<Byte> := [255, 0, 0, 255, 0, 255, 0, 255];
    var keyed: seq<Byte> := [9, 9, 9, 255, 0, 255, 0, 255];
    RedPassOnRedGreen(ov[Red]);
    assert Step(frame, Red, en, ov) == keyed;
    assert LayerOrder[1..] == [Green, Blue, Yellow];
    NoneEnabledAfterRed(keyed, en, ov);
  }

  /** With only red enabled, the layers after red leave the buffer as red produced it. */
  lemma NoneEnabledAfterRed(buf: seq<Byte>, en: map<Color, bool>, ov: map<Color, seq<Byte>>)
    requires Complete(en) && en[Red] && !en[Green] && !en[Blue] && !en[Yellow]
    requires Fits(ov, |buf|) && |buf| % 4 == 0
    ensures Layered(buf, [Green, Blue, Yellow], en, ov) == buf
  {
  }

  /** The overlay frames as sampled at the start of a draw pass. */
  ghost function Frames(overlays: map<Color, array<Byte>>): map<Color, seq<Byte>>
    reads overlays.Values
  {
    map c | c in overlays :: overlays[c][..]
  }

  /** The flag table of the page, and the draw pass that reads it. */
  class Controls {
    var enabled: map<Color, bool>

    ghost predicate Valid()
      reads this
    {
      Complete(enabled)
    }

    /** All layers start disabled. */
    constructor ()
      ensures Valid()
      ensures forall c: Color :: !enabled[c]
    {
      enabled := map[Red := false, Green := false, Blue := false, Yellow := false];
      new;
      forall c: Color
        ensures c in enabled && !enabled[c]
      {
        match c
        case Red =>
        case Green =>
        case Blue =>
        case Yellow =>
      }
    }

    /** A click on colour `c`: only that flag flips. */
    method Toggle(c: Color)
      requires Valid()
      modifies this
      ensures Valid()
      ensures enabled == Flip(old(enabled), c)
    {
      enabled := enabled[c := !enabled[c]];
    }

    /**
     * One draw pass: the camera frame is copied into the output buffer, then
     * every enabled layer, in table order, keys its overlay frame into it.
     */
    method Draw(canvas: array<Byte>, camera: seq<Byte>, overlays: map<Color, array<Byte>>)
      requires Valid()
      requires |camera| == canvas.Length && canvas.Length % 4 == 0
      requires forall c: Color :: c in overlays && overlays[c] != canvas && overlays[c].Length == canvas.Length
      modifies canvas
      ensures canvas[..] == Layered(camera, LayerOrder, enabled, old(Frames(overlays)))
    {
      forall k | 0 <= k < canvas.Length {
        canvas[k] := camera[k];
      }
      assert canvas[..] == camera;
      ghost var frames := Frames(overlays);
      for n := 0 to |LayerOrder|
        invariant forall c: Color :: overlays[c][..] == frames[c]
        invariant canvas[..] == Layered(camera, LayerOrder[..n], enabled, frames)
      {
        var c := LayerOrder[n];
        if enabled[c] {
          ApplyChroma(canvas, overlays[c], Matcher(Window(c)));
        }
        assert LayerOrder[..n + 1] == LayerOrder[..n] + [c];
        LayeredSnoc(camera, LayerOrder[..n], c, enabled, frames);
      }
      assert LayerOrder[..|LayerOrder|] == LayerOrder;
    }
  }
}
