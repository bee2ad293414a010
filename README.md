# Photo-Filters: a verified model of the integer image filters

The photo editor applies one filter at a time to the current image. This
project models the filters that use only integer arithmetic: grayscale,
extreme contrast, posterize (with its helper `_adjust_component`), blur, and
the two edge detectors `detect_edges` and `detect_edges_better`.

An image is a width-by-height grid of RGB colours, and each channel is an
integer in 0..255. It is modelled as an `array2<Color>` indexed
`image[x, y]`: `x` is the column and ranges over `Length0` (the width), and
`y` is the row and ranges over `Length1` (the height). `Cimpl.Copy` stands
for the Cimpl library's `copy`. It returns a newly allocated image with the
same colours.

Every filter is a method that follows the source step by step. It copies the
input and then overwrites pixels of the copy in nested `while` loops, with
the rows outside and the columns inside. All reads come from the input, never
from the copy. Each method is proved against a relation between input and
result:

- `MapsEachPixel` for the three per-pixel filters;
- `IsBlurOf`, `IsDetectEdgesOf` and `IsDetectEdgesBetterOf` for the
  neighbourhood filters.

The loop invariants say which pixels have been written so far and that every
other pixel is still a copy. No method has a `modifies` clause, so none can
change its input. Each ensures `fresh(result)`, so the result shares no
storage with the input.

Two quirks of the source are modelled as written:

- `detect_edges` visits each interior pixel (x, y) but writes the mark to
  (x, y - 1) (filters.py:165-167). So it overwrites columns 1..W-2 of row 0,
  and leaves rows H-2 and H-1 and columns 0 and W-1 as copies.
  `EdgeWritten` names exactly the pixels it writes.
- `detect_edges_better` compares the left brightness with the *bottom*
  brightness. It computes the right brightness and never uses it
  (filters.py:196-197).

The three per-pixel filters come with idempotence lemmas: applying the
filter to its own output changes nothing. Blur comes with three results:

- an independent reference definition of the window sum (`WindowSum`, which
  runs over the nine offsets row by row), proved equal to the nine-term sum
  the source writes out;
- a uniform image is a fixed point;
- an image narrower or shorter than three pixels is copied unchanged.

The edge detectors come with lemmas stating that a uniform image, with any
threshold of at least 0, gives white at every pixel they write.

## Model

| member | source | states |
|---|---|---|
| `Cimpl.Copy` | filters.py:13 | `copy(image)`: a fresh image of the same size with the same colour at every pixel |
| `Filters.Brightness` | filters.py:16 | the brightness v is the floor of the channel average: 3v <= r+g+b < 3v+3, and it equals the channel of a grey pixel |
| `Filters.GrayscalePixel` | filters.py:16-17 | the grey has three equal channels holding the floor of the input's channel average, and an already grey colour is returned unchanged |
| `Filters.Grayscale` | filters.py:13-20 | the result is a fresh image of the same size, and each pixel is the grey of the same input pixel |
| `Filters.GrayscaleIdempotent` | filters.py:13-20 | grayscale applied to a grayscale result gives the same pixels again |
| `Filters.ContrastComponent` | filters.py:55-68 | a thresholded channel is 0 or 255, and it is 0 exactly when the input channel is at most 127 |
| `Filters.ExtremeContrastPixel` | filters.py:55-70 | each component is thresholded on its own, so every output component is 0 or 255 |
| `Filters.ExtremeContrast` | filters.py:51-73 | the result is a fresh image of the same size, and each pixel is the same input pixel with every channel thresholded |
| `Filters.ExtremeContrastIdempotent` | filters.py:51-73 | extreme contrast applied to its own result gives the same pixels again |
| `Filters.AdjustComponent` | filters.py:102-121 | the result is one of 31, 95, 159, 223; for 0..255 it is the midpoint `amount / 64 * 64 + 31` of the quarter holding `amount`, and within 32 of `amount` |
| `Filters.AdjustComponentExamples` | filters.py:109-121 | the documented examples 10→31, 85→95, 142→159, 230→223, and both sides of each boundary: 63→31, 64→95, 127→95, 128→159, 191→159, 192→223 |
| `Filters.AdjustComponentIdempotent` | filters.py:114-121 | adjusting a midpoint again returns it |
| `Filters.PosterizePixel` | filters.py:136 | each component is adjusted on its own, so every output component is in {31, 95, 159, 223} |
| `Filters.Posterize` | filters.py:132-139 | the result is a fresh image of the same size, and each pixel is the same input pixel with every channel adjusted |
| `Filters.PosterizeIdempotent` | filters.py:132-139 | posterize applied to its own result gives the same pixels again |
| `Filters.WindowSum` | filters.py:235-247 | the sum of a component over the remaining offsets of the 3x3 window lies in 0..255 times the number of offsets |
| `Filters.WindowMean` | filters.py:235-247 | the blurred component m is the floor of the window sum over 9: 9m <= sum < 9m+9 |
| `Filters.NineTermSum` | filters.py:222-247 | the reference window sum equals the nine-term sum the source writes, in its order (top, left, bottom, right, centre, top right, top left, bottom right, bottom left) |
| `Filters.UniformWindowSum` | filters.py:235-247 | over a window of one colour, the sum of a component over n offsets is n times that component |
| `Filters.BlurAt` | filters.py:222-249 | reading the nine neighbours and dividing each component sum by 9 gives the blurred colour of the interior pixel |
| `Filters.Blur` | filters.py:215-254 | the result is a fresh image of the same size; for 1 <= x <= W-2 and 1 <= y <= H-2 each component is the floor of its 3x3 sum over 9, and every other pixel equals the input |
| `Filters.BlurredPixel` | filters.py:235-249 | each component of the blurred colour of an interior pixel is the floored window mean of that component |
| `Filters.UniformBlurredPixel` | filters.py:235-249 | an interior pixel of an image of one colour blurs to that colour |
| `Filters.BlurUniform` | filters.py:215-254 | an image of one colour is a fixed point of blur |
| `Filters.BlurSmallIsCopy` | filters.py:217-218 | when the width or the height is below 3, blur returns a copy of the input |
| `Filters.BrightnessGap` | filters.py:160-162 | the contrast is the absolute difference of the two brightnesses |
| `Filters.EdgeMark` | filters.py:162-167 | the mark is black or white, and it is black exactly when the contrast exceeds the threshold |
| `Filters.EdgesPixel` | filters.py:158-167 | the mark written at (x, y) is black or white, and black exactly when the brightnesses of (x, y) and (x, y+2) differ by more than the threshold |
| `Filters.DetectEdges` | filters.py:153-169 | the result is a fresh image of the same size; for each interior (x, y), pixel (x, y-1) is black iff the brightnesses of (x, y-1) and (x, y+1) differ by more than the threshold and white otherwise; columns 0 and W-1 and rows H-2 and H-1 are copies of the input |
| `Filters.DetectEdgesUniform` | filters.py:155-167 | on an image of one colour, with a threshold of at least 0, every pixel detect_edges writes is white |
| `Filters.EdgeMarkBetter` | filters.py:191-202 | the mark is black or white, and it is black exactly when top and bottom differ by more than the threshold, or left and bottom do |
| `Filters.EdgesBetterPixel` | filters.py:187-202 | the mark of an interior pixel is black or white, and black exactly when top and bottom, or left and bottom, differ in brightness by more than the threshold |
| `Filters.EdgesBetterAt` | filters.py:187-202 | the source's step-by-step computation (four brightnesses as `(r + g + b) / 3`, the two absolute contrasts, the threshold test, the unused right brightness) yields exactly the specified mark of the interior pixel |
| `Filters.DetectEdgesBetter` | filters.py:182-204 | the result is a fresh image of the same size; every interior pixel carries its mark, and every border pixel equals the input |
| `Filters.DetectEdgesBetterUniform` | filters.py:184-202 | on an image of one colour, with a threshold of at least 0, every interior pixel comes out white |

## Left out

- `weighted_grayscale` and `sepia_tint` (filters.py:22-39, 75-100): they multiply channels by floating-point constants and pass the floats to Cimpl's `create_color`. How `create_color` rounds or clamps them is not part of this model.
- `scatter` (filters.py:256-306): it draws positions with `random.randint` in a rejection loop that has no bound, so its output is random.
- Loading, choosing, showing and saving images (`load_image`, `choose_file`, `show`, `save_as`): these are I/O in the Cimpl library. Cimpl itself is not part of this model beyond `copy`, `get_color`, `set_color` and iterating over an image, which are array reads, writes and loops here.
- `photo_editor.py`: the interactive command loop. It reads commands and thresholds with `input()`, prints, exits, and dispatches to the filters. It has no logic of its own.
- The order in which Cimpl's `for x, y, (r, g, b) in image` visits pixels: the model visits them row by row. Each pixel of the result depends only on the input, so the order does not change the result.
- The threshold of the edge detectors is a `real`. The docstrings give it as a float (filters.py:142, 172), while the editor reads it as an int (photo_editor.py:52). Python compares either exactly with the integer contrast, so an exact `real` covers both. A direct caller could pass a float `nan` or `inf`, which a `real` cannot hold; the editor never produces either, and they are not modelled.
