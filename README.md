# Chroma-key compositor: a verified model of the pixel logic

The page captures a camera frame, draws it into an output canvas and, for each
enabled overlay colour (red, green, blue, yellow, in that order), replaces
every pixel whose colour falls inside that colour's HSV threshold window with
the pixel at the same position of the colour's overlay video. A click on a
colour button flips that colour's enabled flag.

This project models that logic in Dafny:

- `ColorSpace` (colorspace.dfy): `RgbToHsv`, the six-sector hexcone conversion,
  over exact `real` arithmetic, with the value, saturation, achromatic, sector
  and range facts.
- `Classifier` (classifier.dfy): byte channels, the threshold window, the
  wrapping hue test and `MatchColor`. The hue test is checked against an
  independent reading of a window as the clockwise arc from `hMin` to `hMax`.
- `Compositor` (compositor.dfy): one chroma-key pass. `ApplyChroma` mutates an
  RGBA `array` in place, four bytes per step. It is proved equal to the
  functional pass `Chroma`, and the per-pixel and no-match facts are proved
  about `Chroma`. The pass takes its classifier as a predicate on a pixel's
  red, green and blue bytes; the page always passes `MatchColor` with the
  layer's window, written `Matcher(t)`. The facts about the pass therefore
  hold for any window.
- `Layers` (layers.dfy): the colour table, the configured windows, the fold of
  passes over the enabled layers in table order (`Layered`), and the class
  `Controls`. `Controls` holds the `enabled` flag table and has `Toggle` (the
  click) and `Draw` (one render tick).

Determinism of a composition pass follows from the model's form: `Chroma` and
`Layered` are functions of the frame, the overlay frames and the flag table.

## Model

| member | source | states |
|---|---|---|
| ColorSpace.Max3 | main.js:119 | the result is one of the three components and is at least each of them |
| ColorSpace.Min3 | main.js:119 | the result is one of the three components and is at most each of them |
| ColorSpace.RgbToHsv | main.js:118-130 | v is the largest component; s is 0 exactly when v is 0 or the triple is achromatic (r = g = b); an achromatic triple has hue 0 |
| ColorSpace.HueSector | main.js:121-127 | with a non-zero spread: red-maximal gives h in [0,60] (g >= b) or [300,360) (g < b, the +6 sector); green-maximal gives [60,180]; blue-maximal gives [180,300] |
| ColorSpace.HsvRange | main.js:118-130 | for components in [0,1]: 0 <= h < 360, 0 <= s <= 1, 0 <= v <= 1 |
| Classifier.PixelHsvRange | main.js:112 | `PixelHsv`, the conversion of a pixel after dividing each byte by 255: every byte triple converts into h in [0,360), s and v in [0,1] |
| Classifier.InHueIsArc | main.js:113 | for hues and bounds in [0,360), the hue test `InHue` (plain interval or wrap through 0) holds exactly when h lies on the clockwise arc from hMin to hMax |
| Classifier.MatchColorArc | main.js:111-115 | for a well-formed window, `MatchColor` accepts a pixel exactly when its hue is on the window's arc and s and v lie in their closed intervals |
| Classifier.GreyNeverMatches | main.js:114 | a grey pixel (equal channels) never matches a window whose saturation floor is positive |
| Classifier.WrappedHueExamples | main.js:113 | the wrapping window 340..20 accepts hues 0, 10 and 350 and rejects 180 |
| Classifier.PlainHueExamples | main.js:113 | the plain window 70..170 accepts hue 100 and rejects 200 |
| Compositor.Chroma | main.js:97-104 | the functional pass keeps the buffer length; its meaning byte by byte is `ChromaByte`, pixel by pixel `ChromaPixel` |
| Compositor.ChromaByte | main.js:97-104 | byte o (0..3) of pixel p after a pass is the overlay's byte at 4p+o when that background pixel matched, otherwise the background's |
| Compositor.ChromaPixel | main.js:97-104 | after a pass the buffer has its old length, and the four bytes at a pixel start are the overlay's (alpha included) if that background pixel matched, otherwise unchanged |
| Compositor.ChromaNoMatch | main.js:97-107 | a pass in which no pixel matches leaves the buffer byte-identical |
| Compositor.ChromaAppend | main.js:97-104 | each pixel is judged on its own bytes only, so a pass over two buffers laid end to end equals the two passes laid end to end |
| Compositor.OverwritePixel | main.js:100-103 | the four bytes at i..i+3 become the overlay's; every other byte is unchanged |
| Compositor.ApplyChroma | main.js:87-108 | the in-place scan leaves the buffer equal to `Chroma` of the old buffer and the overlay |
| Layers.Window | main.js:21-26 | each configured window is well-formed, has positive saturation and value floors, and only red wraps (hMin > hMax) |
| Layers.GreyMatchesNoLayer | main.js:22-25 | a grey pixel matches none of the four configured windows |
| Layers.PrimariesMatchTheirLayer | main.js:21-26 | pure red, green, blue and yellow pixels match their own colour's window; pure green does not match red's |
| Layers.Flip | main.js:32 | a click negates exactly that colour's flag and keeps the others and the key set |
| Layers.FlipTwice | main.js:32 | two clicks on the same colour restore the flag table |
| Layers.EnabledIn | main.js:77-78 | the colours kept are exactly those of the table that are enabled, and they form a subsequence of the table: table order kept, no position taken twice |
| Layers.Step | main.js:78-80 | one layer's turn keeps the buffer length; `LayeredSnoc` places it after the earlier layers and `LastLayerPixel` gives its effect on a pixel |
| Layers.Layered | main.js:77-81 | the layer pass keeps the buffer length; `LayeredIsEnabledApplied` gives its meaning: exactly the enabled layers, applied in table order |
| Layers.LayeredSnoc | main.js:77-81 | appending a layer runs its turn on the buffer the earlier layers produced |
| Layers.LayeredIsEnabledApplied | main.js:77-81 | the layer pass equals applying exactly the enabled layers in table order, so a disabled layer is never applied |
| Layers.NoneEnabledKeepsFrame | main.js:75-81 | with every flag off the output equals the camera frame |
| Layers.LastLayerPixel | main.js:77-81 | if the last layer is enabled and the pixel left by the earlier layers matches its window, the final pixel is that layer's overlay pixel; otherwise it is what the earlier layers left |
| Layers.YellowHasFinalSay | main.js:18 | yellow comes last in the table, so a pixel left by red, green and blue that passes yellow's window ends as yellow's overlay pixel |
| Layers.RedOnlyScenario | main.js:74-84 | a frame [pure red, pure green] with only red enabled and red overlay [(9,9,9),(8,8,8)] becomes [(9,9,9), pure green] |
| Layers.Controls.constructor | main.js:18 | the flag table has an entry for every colour and all are off |
| Layers.Controls.Toggle | main.js:32 | the new flag table is `Flip` of the old one at the clicked colour |
| Layers.Controls.Draw | main.js:74-84 | the output buffer ends as the camera frame with the enabled layers applied in table order to the overlay frames (`Layered`) |

## Left out

- DOM element lookup, camera acquisition and its error reporting through `alert` and the console (main.js:4-7, main.js:57-71): browser I/O.
- Overlay video setup and playback: `muted`, `loop`, `playsInline`, `load`, `play`, `pause` and the `loadeddata` listeners (main.js:35-54): media plumbing.
- `requestAnimationFrame` scheduling and the metadata callback that sizes the canvas (main.js:62-65, main.js:83): browser scheduling. `Draw` models one tick; the canvas size is fixed by the buffer length.
- `drawImage` scaling of the camera and of each overlay video into canvases (main.js:75, main.js:88-92): browser image scaling. The camera frame is a byte sequence of the canvas's length. Each overlay is a byte array of the same length, sampled once at the start of the tick. Reading and writing the canvas with `getImageData`/`putImageData` are plain array reads and writes.
- Button CSS class toggling (main.js:33): UI only.
- Layers.Controls.Toggle: the clicked colour is one of the four `Color` values, the four keys of the `enabled` table (main.js:18); the page's HTML, which fixes each button's `data-color`, is not part of this model. In the source, a button whose `data-color` is missing or names another key adds that key to the flag table as `true` (main.js:31-32). The click handler then throws at main.js:37 because `streams[color]` is undefined. The next `draw` visits that key (main.js:77) and its `applyChroma` throws at main.js:92, before the re-scheduling at main.js:83, so rendering stops. The model has no such key and no such failure.
- ColorSpace.RgbToHsv: uses exact rational arithmetic, not IEEE-754 doubles. Rounding at window boundaries (a hue a hair below 20, say) is not modelled, and neither are the configured bounds 0.4 and 0.3 as doubles.
- Compositor.ApplyChroma: requires the buffer length to be a multiple of 4 and the overlay to be a distinct buffer of the same length. Canvas pixel data always has these properties, because the overlay canvas is created at the output canvas's size.
- Configuration validation: nothing in the code checks the windows at startup. `Layers.Window` proves instead that the four fixed windows are well-formed.
