# Logo background remover, modelled in Dafny

`scripts/remove_logo_bg.py` strips the dark background from the AstroGroot logo.
It loads an image file, converts it to RGBA and collects every visible dark pixel on the image border
(a pixel is dark when its BT.601 luminance is at most 0.28). From those seeds it
flood-fills through up/down/left/right neighbours that are visible and dark,
then sets alpha to 0 on every filled pixel. A last scan over the whole image
makes every visible pixel with luminance at most 0.15 transparent, wherever it
is. Colour channels are never changed.

The model has four modules:

- `Luminance` (`luminance.dfy`) defines the pixel, the luminance tests as exact
  integer comparisons (`299 r + 587 g + 114 b` against `0.28 * 255000` and
  `0.15 * 255000`), and the transparent pixel.
- `Region` (`region.dfy`) defines the seeds and the background without any
  fill order. The background is the set of pixels at the end of a fill path: a
  path that starts on a border seed, steps only to 4-adjacent pixels and
  passes only through visible dark pixels. It proves that the background is
  the least set that holds the seeds and is closed under fill steps. It also
  proves that a w-by-h grid has w * h cells, which bounds the fill.
- `Pipeline` (`pipeline.dfy`) gives the two clearing stages and the whole
  result as functions on images. It proves what the program promises about
  its output.
- `Remover` (`remover.dfy`) is the program as it runs. The pixel buffer is an
  `array2<Pixel>` indexed `[x, y]`, scanned and overwritten in place, and the
  fill keeps its set and its stack in local variables. Each stage is a method
  proved against `Region` and `Pipeline`. The flood fill is proved to end with
  exactly the background, whatever order the stack pops in. It is also proved
  to pop exactly once per member of the set, so at most w * h times.

## Model

| member | source | states |
|---|---|---|
| `Luminance.Weighted` | scripts/remove_logo_bg.py:6-7 | the scaled luminance of a pixel lies in 0..255000; a grey pixel of level v scores exactly 1000 v |
| `Luminance.GreyThresholds` | scripts/remove_logo_bg.py:18-24 | a grey pixel is dark exactly when its level is at most 71, and very dark exactly when it is at most 38 |
| `Luminance.TestsMatchLuminance` | scripts/remove_logo_bg.py:6-7 | the integer tests decide exactly as `luminance(r, g, b) <= 0.28` (line 24) and `<= 0.15` (line 53) do when evaluated over the reals |
| `Luminance.VeryDarkIsDark` | scripts/remove_logo_bg.py:53 | the isolated-pixel threshold 0.15 is stricter than the fill threshold 0.28: every very dark pixel is dark |
| `Region.StepsAreAdjacent` | scripts/remove_logo_bg.py:36-37 | the four offsets (-1,0), (1,0), (0,-1), (0,1) reach exactly the 4-adjacent coordinates, never a diagonal one |
| `Region.BackgroundIsFillable` | scripts/remove_logo_bg.py:38-41 | every background coordinate is in bounds, visible and dark, so a light or transparent pixel never joins it |
| `Region.BackgroundIsClosed` | scripts/remove_logo_bg.py:34-42 | the background holds every seed, and every fillable 4-neighbour of a background pixel is in the background |
| `Region.BackgroundIsLeast` | scripts/remove_logo_bg.py:34-42 | any set that holds the seeds and is closed under fill steps holds the whole background |
| `Region.EnteredFromNeighbour` | scripts/remove_logo_bg.py:36-42 | an inner background pixel has one of its four neighbours in the background: touching it only at a corner does not bring a pixel in |
| `Pipeline.ResultKeepsColour` | scripts/remove_logo_bg.py:44-54 | the output has the input's size and every pixel's r, g and b; alpha is either kept or set to 0, so it never rises and a transparent pixel stays transparent |
| `Pipeline.ResultAlpha` | scripts/remove_logo_bg.py:44-54 | a pixel ends transparent exactly when it was transparent, in the background or very dark; it keeps its alpha exactly when it was transparent or is neither in the background nor very dark |
| `Pipeline.NoVeryDarkRemains` | scripts/remove_logo_bg.py:49-54 | no pixel of the output is both visible and very dark |
| `Pipeline.LightPixelKept` | scripts/remove_logo_bg.py:40 | a pixel that is not dark comes out exactly as it went in |
| `Pipeline.ResultHasNoSeeds` | scripts/remove_logo_bg.py:20-30 | the output has no visible dark border pixel, so a second run has no seed |
| `Pipeline.ResultHasNoBackground` | scripts/remove_logo_bg.py:32-42 | the output's background is empty |
| `Pipeline.ResultIdempotent` | scripts/remove_logo_bg.py:14-54 | running the remover on its own output changes nothing |
| `Remover.CollectSeeds` | scripts/remove_logo_bg.py:20-30 | the top/bottom-row scan followed by the left/right-column scan collects exactly the seeds: the coordinates on the first or last column or row whose pixel is visible and dark |
| `Remover.ListOf` | scripts/remove_logo_bg.py:33 | the initial stack holds every seed exactly once and nothing else |
| `Remover.PushNeighbours` | scripts/remove_logo_bg.py:36-42 | one pass over the four offsets: the set only grows; afterwards every fillable neighbour of the popped pixel is in it; each new member is a fillable 4-neighbour; the stack keeps its old contents and gains exactly the new members, one push per addition |
| `Remover.FillTurn` | scripts/remove_logo_bg.py:34-42 | one pop-and-push turn keeps the fill's invariant: seeds kept, every member has a fill path, the stack holds only members, every member off the stack has its fillable neighbours in the set |
| `Remover.FloodFill` | scripts/remove_logo_bg.py:32-42 | the fill ends with exactly the background (the in-bounds pixels at the end of a 4-adjacent fill path from a seed), in any pop order, after exactly as many pops as the set has members, at most w * h |
| `Remover.ClearSet` | scripts/remove_logo_bg.py:44-47 | the buffer afterwards is the old image with the set's pixels made transparent |
| `Remover.ClearVeryDark` | scripts/remove_logo_bg.py:49-54 | the buffer afterwards is the old image with every visible very dark pixel made transparent |
| `Remover.RemoveBackground` | scripts/remove_logo_bg.py:14-54 | the buffer afterwards is the result image of the old buffer: the background cleared, then the isolated very dark pixels; a 0 by 0 buffer is left as it was |

## Left out

- Reading the input and output paths from the command line, with the default `static/astrogroot-logo.png` and overwrite-by-default (lines 10-11), is not modelled: the model starts from the loaded pixel buffer.
- Opening the file, converting it to RGBA, loading the pixel access object and saving the PNG (lines 13, 15, 56) are not modelled: the buffer is a parameter and the result is the buffer's new contents.
- The closing `print` (line 57) and the `__main__` guard are not modelled.
- Floating-point luminance is replaced by the exact integer comparisons `299 r + 587 g + 114 b <= 71400` and `<= 38250`. `Luminance.TestsMatchLuminance` proves that they decide exactly as `luminance <= 0.28` and `<= 0.15` over the reals. The floating-point expression may round the other way for a pixel whose weighted sum is exactly on a threshold.
- Remover.ListOf: the order of `list(to_remove)` is Python's set iteration order, which the model leaves open. The same holds for the order in which `ClearSet` visits the set. `FloodFill` is proved to give the same set for every order, and `ClearSet` writes each pixel independently, so the order does not affect the output.
- Remover.RemoveBackground: requires either an image at least one pixel wide and high or a 0 by 0 image. A 0 by 0 image passes through the program unchanged, because the scans at lines 21 and 26 are empty, and the model proves the same. An image with exactly one dimension 0 raises IndexError at line 23 or 28, so the model excludes it.
- Remover.FloodFill: the number of pops is a ghost out-parameter, a count kept only for the proof; the program keeps no such counter.
