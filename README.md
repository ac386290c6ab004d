# Screen localisation, glare scoring and move advice — a Dafny model

The modelled system finds a phone screen in a camera frame, measures glare,
and tells the user which way to move the phone. This project models the
decision logic of three Python files and proves properties of it:

- `screen_detection.py`: the rules that turn candidate contours into at most
  one screen. A contour is skipped below an area of 3000. Its minimum-area
  rectangle is turned to portrait, and its angle is folded into a tilt from
  vertical. It must have an aspect ratio strictly between 1.3 and 2.5 and a
  tilt of at most 20 degrees. Among such candidates, the one whose aspect
  ratio is closest to 1.78 wins, and the earliest wins ties. The winner's
  four box points are ordered top-left, top-right, bottom-right, bottom-left,
  and the output width and height come from its edge lengths.
  (`screen_detection.dfy`, module `ScreenDetection`)
- `glare_detection.py`: `detect_glare` from the photometric maps onwards. It
  does robust normalisation of the V, S and local-contrast maps, combines
  them into a weighted score map, thresholds that into a 0/255 mask, and
  computes the coverage fraction and the `has_glare` decision. It also finds
  the brightest grey-level pixel. (`glare_detection.dfy`, module
  `GlareDetection`)
- `move_instructions.py`: `get_move_instruction`, an ordered chain of tests
  from a glare position and a frame shape to one of six instruction strings.
  (`move_instructions.dfy`, module `MoveInstructions`)

`wrappers.dfy` holds the `Option` type shared by the modules. `pixel.dfy` holds
the `Pixel` location type: the glare peak is reported as one, the advisor
takes one, and the screen detector's integer box points are pixels too.

Inputs that come from library code are parameters here:

- each contour is a `Candidate` record holding its contour area, the
  rectangle's width, height and angle, and its four integer box points;
- the V, S and local-standard-deviation maps, the grey image, and the 2nd and
  98th percentiles of each map are given as grids of reals (integers for the
  grey image) and pairs of reals.

Values are exact: `real` for the source's floats, `int` for pixel coordinates.

Facts about the code that the model keeps:

- Corners are ordered by sorting the four points on x, then sorting each
  half (the two left and the two right points) on y.
- The output width and height are not floored at 1.
- `robust_norm` divides by `hi - lo + 1e-6` with no special case for a
  narrow range. A constant map still normalises to all zeros.
- An empty frame makes `detect_glare` raise (OpenCV rejects the empty
  image). The model returns `None` on that path.
- The tilt lands in the closed interval [-90, 90]. An angle of exactly -90
  is not shifted.
- There are six instructions, counting "No glare detected".
- When the 2nd and 3rd smallest x of the winner's box points are equal, the
  labels depend on the order in which the points arrive (see
  `TieAtSplitDependsOnOrder`); otherwise they do not
  (`OrderCornersIgnoresInputOrder`).

## Model

| member | source | states |
|---|---|---|
| `MoveInstructions.Half` | move_instructions.py:12 | `w // 2` is floor division: `2c <= n < 2c + 2`, for negative `n` too |
| `MoveInstructions.Advise` | move_instructions.py:3-28 | the answer is "No glare detected" exactly when the glare position is None |
| `MoveInstructions.Text` | move_instructions.py:7-28 | the two move answers, and only they, begin "Move phone "; the two tilt answers, and only they, begin "Tilt phone " |
| `MoveInstructions.TextInjective` | move_instructions.py:7-28 | the six returned strings are pairwise different |
| `MoveInstructions.LeftIff` | move_instructions.py:19-20 | LEFT exactly when `x < center_x - 0.2 w`, whatever `y` is |
| `MoveInstructions.RightIff` | move_instructions.py:15-22 | for `w >= 0` LEFT and RIGHT cannot both apply, and RIGHT is exactly `x > center_x + 0.2 w` |
| `MoveInstructions.VerticalOnlyInsideBand` | move_instructions.py:19-28 | UP, DOWN or HOLD exactly when `x` is inside the horizontal band |
| `MoveInstructions.TiltUpIff` | move_instructions.py:23-24 | UP exactly when `x` is in the band and `y < center_y - 0.2 h` |
| `MoveInstructions.TiltDownIff` | move_instructions.py:25-26 | for `h >= 0`, DOWN exactly when `x` is in the band and `y > center_y + 0.2 h` |
| `MoveInstructions.HoldIffDeadZone` | move_instructions.py:14-28 | HOLD exactly when both coordinates are inside their dead bands (bounds inclusive) |
| `MoveInstructions.HorizontalPriority` | move_instructions.py:18-22 | outside the horizontal band the answer is LEFT or RIGHT and does not depend on `y` |
| `MoveInstructions.BandIgnoresColumn` | move_instructions.py:23-28 | inside the horizontal band the answer does not depend on `x` |
| `MoveInstructions.CenterHolds` | move_instructions.py:12-28 | a glare at `(w // 2, h // 2)` of a frame with `h, w >= 0` gives HOLD |
| `MoveInstructions.OriginOfSquareFrameIsLeft` | move_instructions.py:19-20 | `(0, 0)` in a 100 x 100 frame is above the band, yet the answer is LEFT |
| `GlareDetection.Clip` | glare_detection.py:55 | `np.clip` lands in `[a, b]`, keeps values inside it, and maps values outside to the nearer end |
| `GlareDetection.NormValue` | glare_detection.py:53-55 | a normalised value is in [0, 1]; anything at or below the low percentile gives 0; anything at or above `hi + eps` gives 1; in between it is the linear rescale |
| `GlareDetection.RobustNorm` | glare_detection.py:53-59 | the normalised map has the input's shape, lies in [0, 1], and is the per-pixel normalisation |
| `GlareDetection.FlatMapNormalisesToZero` | glare_detection.py:53-55 | a map equal everywhere to its low (and high) percentile normalises to all zeros |
| `GlareDetection.NormMonotone` | glare_detection.py:53-55 | normalisation preserves order |
| `GlareDetection.ScoreValue` | glare_detection.py:61-67 | with non-negative weights of positive sum and cues in [0, 1], the score is in [0, 1] |
| `GlareDetection.ScoreMonotone` | glare_detection.py:61-67 | the score rises with brightness and falls with saturation and with local contrast |
| `GlareDetection.ScoreMap` | glare_detection.py:65-68 | the score map has the maps' shape, and lies in [0, 1] for valid weights and normalised maps |
| `GlareDetection.FeatureScoreMap` | glare_detection.py:57-68 | the score map built from the three raw maps is H x W, each pixel is the weighted score of that pixel's three normalised cues, and for valid weights it lies in [0, 1] |
| `GlareDetection.GlarierPixelScoresHigher` | glare_detection.py:57-71 | a pixel at least as bright, no more saturated and of no more local contrast scores at least as high |
| `GlareDetection.Mask` | glare_detection.py:71 | the mask has the score map's shape, is 255 exactly where `score >= score_thresh`, and is 0 elsewhere |
| `GlareDetection.CountBound` | glare_detection.py:73 | `count_nonzero` of an H x W mask is at most `H * W` |
| `GlareDetection.CountMonotone` | glare_detection.py:71-73 | a mask whose set pixels are set in another mask counts no more |
| `GlareDetection.CountPositive` | glare_detection.py:73 | the count is positive exactly when some pixel is set |
| `GlareDetection.RowCountIsNonZeros` | glare_detection.py:73 | the count of one row is its length less its zero entries |
| `GlareDetection.CountIsNonZeros` | glare_detection.py:73 | `count_nonzero` of a mask is its number of pixels, flattened row by row, less its zero pixels |
| `GlareDetection.Coverage` | glare_detection.py:73 | coverage is in [0, 1], times `H * W` it is the set-pixel count, and it is positive exactly when some pixel is set |
| `GlareDetection.CoverageMonotoneInThreshold` | glare_detection.py:71-73 | raising `score_thresh` never increases coverage |
| `GlareDetection.DetectGlareMonotoneInThreshold` | glare_detection.py:67-74 | the same for two `detect_glare` runs; glare at the higher threshold implies glare at the lower |
| `GlareDetection.RowArgMax` | glare_detection.py:77-78 | returns an index of a largest entry of a non-empty row |
| `GlareDetection.PeakRow` | glare_detection.py:77-78 | returns a row containing a largest entry of the grid |
| `GlareDetection.Peak` | glare_detection.py:77-78 | `maxLoc` is inside the frame and has the largest grey level of all pixels |
| `GlareDetection.DetectGlare` | glare_detection.py:9-88 | no result exactly for an empty frame; otherwise each score-map pixel is the weighted score of that pixel's normalised V, S and contrast cues; coverage times `H * W` is the set-pixel count of the mask, coverage is in [0, 1], and `has_glare` holds exactly when `coverage >= coverage_thresh`; the mask matches the score map pixel by pixel; coverage is positive exactly when some score reaches the threshold; the peak is a brightest pixel |
| `GlareDetection.FlatFrameHasNoGlare` | glare_detection.py:53-74 | a frame whose maps are constant scores `(wS + wC) / (wI + wS + wC)` everywhere; with the defaults this is 0.55, so coverage is 0 and there is no glare |
| `GlareDetection.HotspotIsDetected` | glare_detection.py:53-73 | a pixel that normalises to full brightness, no saturation and no contrast scores 1, so coverage is positive for any `score_thresh <= 1` |
| `ScreenDetection.ToPortrait` | screen_detection.py:95-100 | after re-orientation height >= width; either the sides and angle are unchanged, or they are swapped and 90 is added to the angle; ties keep the original |
| `ScreenDetection.TiltFromVertical` | screen_detection.py:103-107 | at most one shift by ±180; values in [-90, 90] are unchanged; any angle in [-270, 270] lands in [-90, 90] |
| `ScreenDetection.MeasuredWidthPositive` | screen_detection.py:83-109 | a candidate that passes the area bound has positive portrait width, so the aspect division is defined |
| `ScreenDetection.AspectRatio` | screen_detection.py:109 | the portrait aspect ratio is at least 1 |
| `ScreenDetection.Tilt` | screen_detection.py:93-107 | the tilt from vertical of the portrait rectangle; any rectangle angle in [-180, 180] gives a tilt in [-90, 90] |
| `ScreenDetection.QualifiesWithoutDivision` | screen_detection.py:83-115 | a candidate passes the filter exactly when its area is at least 3000, its portrait height is strictly between 1.3 and 2.5 times its portrait width, and its tilt is within ±20 |
| `ScreenDetection.AspectRatioDiff` | screen_detection.py:116 | the distance to 1.78 is non-negative and is zero exactly when the aspect ratio is 1.78 |
| `ScreenDetection.SelectScreen` | screen_detection.py:77-119 | no winner exactly when no candidate qualifies; otherwise the winner qualifies (area >= 3000, `1.3 < ar < 2.5`, `abs(tilt) <= 20`), is closest to 1.78 among qualifying candidates, and every earlier qualifying candidate is strictly farther |
| `ScreenDetection.BestIsUnique` | screen_detection.py:116-119 | the strict `<` makes the winner unique |
| `ScreenDetection.DecoysBelowMinAreaIgnored` | screen_detection.py:75-84 | candidates below the area bound never compete: one qualifying candidate among them is the winner |
| `ScreenDetection.AreaBoundIsInclusive` | screen_detection.py:75-84 | an area of exactly 3000 is evaluated (a 40 x 75 upright rectangle qualifies), 2999 is skipped |
| `ScreenDetection.InsertByX` | screen_detection.py:140 | insertion into an x-sorted sequence keeps it sorted and adds exactly the one point |
| `ScreenDetection.SortByX` | screen_detection.py:140 | the x-sort is sorted on x and a permutation of its input |
| `ScreenDetection.OrderPairByY` | screen_detection.py:144-147 | a two-point y-sort keeps or swaps the pair, puts the smaller y first, and breaks a y tie by x when the pair arrives x-sorted |
| `ScreenDetection.OrderCorners` | screen_detection.py:140-151 | the four corners are a permutation of the box points; TL and BL are the two smallest-x points; TL precedes BL and TR precedes BR by y, ties by x |
| `ScreenDetection.IntSqrt` | screen_detection.py:154-165 | `int(sqrt(n))` is the largest `r` with `r * r <= n` |
| `ScreenDetection.OrderCornersIgnoresInputOrder` | screen_detection.py:140-147 | two lists of the same four points get the same labels whenever the 2nd and 3rd smallest x differ |
| `ScreenDetection.CornersDetermined` | screen_detection.py:140-147 | two labellings of the same points that both meet the ordering constraints are equal once one splits left from right strictly |
| `ScreenDetection.TieAtSplitDependsOnOrder` | screen_detection.py:140-147 | a diamond whose top and bottom share an x is labelled differently when listed from the top and from the bottom |
| `ScreenDetection.MaxOfIntSqrt` | screen_detection.py:154-165 | truncating the larger of two roots equals truncating the root of the larger square |
| `ScreenDetection.OutputWidth` | screen_detection.py:154-159 | the width is the truncated length of the longer of the bottom and top edges |
| `ScreenDetection.OutputHeight` | screen_detection.py:160-165 | the height is the truncated length of the longer of the right and left edges |
| `ScreenDetection.DetectScreen` | screen_detection.py:136-191 | a result (the source's True) exactly when some candidate qualifies; the result holds the winner's ordered corners and output size |
| `ScreenDetection.Rectify` | screen_detection.py:139-165 | the corners handed to the warp are the box points labelled top-left, top-right, bottom-right, bottom-left by the corner ordering (left pair left of the right pair, each pair top to bottom), and the width and height are the truncated lengths of the longer horizontal and vertical edges of that labelling |
| `ScreenDetection.UprightRectangleRoundTrip` | screen_detection.py:139-165 | an upright W x H rectangle, box points in any order, has its corners labelled as drawn and an output size of exactly W x H |

## Left out

- The OpenCV front end of `screen_detection` is not modelled: grey conversion, histogram equalisation, bilateral filter, `inRange`, Canny, morphological closing, `findContours`. Neither are `contourArea`, `minAreaRect` and `boxPoints`. These are library calls; their results are the `Candidate` fields.
- `WellFormed` asks of each candidate what `minAreaRect` guarantees: non-negative sides, four box points, and a rectangle area at least the contour's area.
- `getPerspectiveTransform` and `warpPerspective` are not modelled. They solve and apply a homography in a linear-algebra library. The model stops at the ordered corners and the output size they are given.
- Directory creation, `imwrite` and every `print` are I/O and are left out. So are the module-level `imread`, `raise` and the trailing call in `glare_detection.py`.
- HSV conversion, `boxFilter`, `np.sqrt` and `np.percentile` are not modelled. They are floating-point library numerics. Their outputs are parameters; the percentiles are only assumed ordered (2nd <= 98th).
- `GlareDetection.Peak`: it does not promise which pixel OpenCV returns among several brightest ones. It states only that the pixel is a maximum.
- `GlareDetection.DetectGlare`: weights summing to zero are excluded. numpy would produce NaN or infinity there, which exact reals cannot represent.
- IEEE rounding is not modelled. Floats are exact reals, including the `float32` cast of the score map. The constants 1.78, 1.3, 2.5, 0.2 and 1e-6 are their exact decimal values.
- `ScreenDetection.IntSqrt`: `int(np.linalg.norm(...))` is modelled as the exact integer square root of the squared edge length. The `float32` square root is not modelled.
- `ScreenDetection.SortByX`: numpy's default `argsort` is not documented as stable. The model assumes a stable sort. This matters only when the 2nd and 3rd smallest x tie, where the labelling depends on how equal keys are ordered. Stability itself is not proved.
- `ScreenDetection.SelectScreen`: it returns the winner's index rather than its box points. `DetectScreen` then takes that candidate's box.
- Webcam loops, cadence, GUI and keyboard handling, and file writes are not part of this model (`live_screen_reader.py`, `camera_move.py`). Neither are the OCR wrappers (`EasyOCR.py`, `demo_2.cpp`) or the demo scripts (`demo.cpp`, `python_demo.py`, `still_image_screen_reader.py`).
