# Hand detection from a webcam: a Dafny model

The model covers two parts of a Unity hand-detection component.

The camera side (`WebCamOperation.cs`) holds each frame in a flat,
row-major pixel buffer: row r, column c of a width x height frame is cell
`r * width + c`. Before the frame is used, its orientation is corrected in
place. The correction is a vertical flip, a horizontal flip or a
180-degree rotation, and `FlipColors` picks one from the camera's facing
and its rotation angle. The camera side also converts the origin of a
requested region to the texture's opposite-corner convention. It reuses
the colour buffer between frames unless its length is wrong.

The detector side (`HandDetector.cs`) offers three strategies:

- a cascade classifier, whose first hit becomes the outline;
- a contour strategy:
  - mask the skin pixels;
  - take the first largest contour above area 2000;
  - keep the finger gaps, which are convexity defects narrower than 80
    degrees and deeper than an eighth of the mask's height;
  - if there are one to four gaps, draw a 30 x 30 box around the centre of
    their bounding rectangle;
- a neural network:
  - take the first best-scoring row, starting from score 0 at row 0;
  - keep it only if it scores above 0.7;
  - clamp its corners into the image and store them crosswise.

`Start` installs one strategy from the configured mode. `Update` runs it
on every tick of a running camera, initialising the component on the
first such tick.

Files:

- `wrappers.dfy`: `Option`, the stand-in for a possibly-null reference.
- `webcam_operation.dfy`: module `WebCam`.
  - The three corrections as methods on an `array<T>`, each proved
    against a function on sequences (`VFlipped`, `HFlipped`, `Reversed`).
  - The correction table `Oriented` and `FlipColors`.
  - The origin conversion.
  - The class `WebCamOperation`, with its `colors` buffer.
- `hand_detection.dfy`: module `HandDetection`. The skin mask, the
  first-maximum scan shared by the contour and network strategies, the
  defect filter, `FindDefects`, and the three strategies.
- `detector_lifecycle.dfy`: module `DetectorLifecycle`. The class
  `HandDetector`, with `Start`, `Init` and `Update`.

Each correction's proof follows the source's outer loop. A recursive ghost
function (`VRowsSwapped`, `HRowsMirrored`) describes the buffer after i
iterations. Lemmas prove that this state is the partly flipped buffer, and
that it is a permutation of the original. Row starts are written
`Mul(r, w)`, which is `r * w` as repeated addition, so that the index
proofs stay linear.

Where the documentation and the code disagree, the model follows the code:

- The mode comment at `HandDetector.cs:24` lists four modes in a
  different order. `Start` maps 0, 1 and 2 to the cascade, contour and
  network strategies.
- The component is described as keeping no state between ticks. The
  network strategy does keep the previous outline when the camera
  delivers no image, although the tick then still fails. `PostAction`
  hands the missing image to the drawing calls, so `Update` reports a
  fault for it.
- A reported box is described as lying within [0, width-1] x
  [0, height-1]. Only the network strategy clamps its corners
  (`TFOutlineInImage`). The contour strategy's box, cx ± 15 and cy ± 15
  (HandDetector.cs:157-163), is not clamped, so it leaves the frame
  whenever the centre is within 15 pixels of an edge.
- A detector resource that fails to load is described as fatal. The code
  only logs it, and loading is not part of this model.
- The skin mask is allocated as `zeros(imgWidth, imgHeight)`, so it has
  imgWidth rows and imgHeight columns. It is written at the image's
  (row, column) positions, and the image has imgHeight rows and imgWidth
  columns. So for a frame that is not square, only the part of the image
  that overlaps the mask is marked; the other writes fall outside it and
  are dropped. The defect depth threshold uses the mask's height, which is
  imgWidth, not the frame's height.

## Model

| member | source | states |
|---|---|---|
| WebCam.VFlipped | WebCamOperation.cs:420-435 | the vertical flip as an index map; stated by `VFlippedAt`, `VFlippedKeeps`, `VFlipInvolution` and `VFlipPermutes`, and `FlipVertical` is proved against it |
| WebCam.FlipVertical | WebCamOperation.cs:420-435 | the buffer becomes `VFlipped` of the old buffer, and its multiset of elements is unchanged |
| WebCam.SwapRows | WebCamOperation.cs:426-433 | the width cells at one row start are exchanged with those at the other row start; nothing else changes |
| WebCam.VRowsSwappedIsPartial | WebCamOperation.cs:422-434 | after i outer iterations, the first i rows and the last i rows hold their flipped contents and the rows between are untouched |
| WebCam.VFlipDone | WebCamOperation.cs:422 | after height/2 iterations the vertical flip is complete, including for an odd height |
| WebCam.VFlippedAt | WebCamOperation.cs:420-435 | after a vertical flip, cell (r, c) holds the old cell (height-1-r, c) for every r < height and c < width |
| WebCam.VFlippedKeeps | WebCamOperation.cs:422-434 | a vertical flip leaves every index at or beyond width*height unchanged, and so is the middle row when the height is odd |
| WebCam.VFlipInvolution | WebCamOperation.cs:430-432 | flipping vertically twice restores the buffer |
| WebCam.VFlipPermutes | WebCamOperation.cs:430-432 | a vertical flip only rearranges the buffer, so the multiset is unchanged |
| WebCam.HFlipped | WebCamOperation.cs:444-459 | the horizontal flip as an index map; stated by `HFlippedAt`, `HFlippedKeeps`, `HFlipInvolution` and `HFlipPermutes`, and `FlipHorizontal` is proved against it |
| WebCam.FlipHorizontal | WebCamOperation.cs:444-459 | the buffer becomes `HFlipped` of the old buffer, and its multiset of elements is unchanged |
| WebCam.MirrorRow | WebCamOperation.cs:448-457 | the width cells of one row come out in reverse order; nothing else changes |
| WebCam.HRowsMirroredIsPartial | WebCamOperation.cs:446-458 | after i outer iterations, the first i rows are mirrored and the rest are untouched |
| WebCam.HFlipDone | WebCamOperation.cs:446 | after height iterations the horizontal flip is complete |
| WebCam.HFlippedAt | WebCamOperation.cs:444-459 | after a horizontal flip, cell (r, c) holds the old cell (r, width-1-c) |
| WebCam.HFlippedKeeps | WebCamOperation.cs:446-458 | a horizontal flip leaves the tail beyond width*height unchanged, and so is the middle column of every row when the width is odd |
| WebCam.HFlipInvolution | WebCamOperation.cs:454-456 | flipping horizontally twice restores the buffer |
| WebCam.HFlipPermutes | WebCamOperation.cs:454-456 | a horizontal flip only rearranges the buffer, so the multiset is unchanged |
| WebCam.Reversed | WebCamOperation.cs:468-477 | `new[k] == old[n-1-k]`; stated by `ReverseInvolution` and `ReversePermutes`, and `Rotate180` is proved against it |
| WebCam.Rotate180 | WebCamOperation.cs:468-477 | the whole buffer is reversed (`new[k] == old[n-1-k]`) whatever the size arguments are, and its multiset is unchanged |
| WebCam.Swap | WebCamOperation.cs:430-432 | the two elements are exchanged, every other element is unchanged, and the multiset is kept |
| WebCam.ReverseInvolution | WebCamOperation.cs:471-476 | reversing twice restores the buffer |
| WebCam.ReversePermutes | WebCamOperation.cs:473-475 | reversing keeps the multiset of elements |
| WebCam.Oriented | WebCamOperation.cs:363-410 | the correction table; stated by `OrientedPermutes` and `OrientedInvolution`, and `FlipColors` is proved against it |
| WebCam.FlipColors | WebCamOperation.cs:361-411 | a front camera at 0 or 90 degrees flips horizontally, and at 180 or 270 degrees flips vertically; a back camera at 180 or 270 degrees rotates; anything else leaves the buffer unchanged; the multiset is kept |
| WebCam.OrientedPermutes | WebCamOperation.cs:361-411 | every entry of the correction table only rearranges the frame |
| WebCam.OrientedInvolution | WebCamOperation.cs:361-411 | applying the correction twice with the same camera settings restores the frame |
| WebCam.OppositeOrigin | WebCamOperation.cs:298-300 | xRB = texW - w - x and yRB = texH - h - y; stated by `OppositeOriginInFrame` and `OppositeOriginInvolution` |
| WebCam.OppositeOriginInFrame | WebCamOperation.cs:298-300 | the region lies inside the frame in the top-left convention exactly when its converted origin does in the opposite-corner convention |
| WebCam.OppositeOriginInvolution | WebCamOperation.cs:298-300 | converting the converted origin gives back (x, y) |
| WebCam.WebCamOperation.OnInited | WebCamOperation.cs:220-225 | afterwards the buffer holds exactly width*height cells; the old buffer is kept when its length was already right, and a fresh one is allocated when it was null or the wrong length |
| WebCam.WebCamOperation.GetColors | WebCamOperation.cs:280-291 | the frame is copied into the reused buffer and, when adjustPixelsDirection is set, corrected by the table; the buffer itself is returned |
| WebCam.WebCamOperation.GetRegionColors | WebCamOperation.cs:296-311 | the texture is read at the opposite-corner origin, and the region is corrected by the table when adjustPixelsDirection is set |
| HandDetection.IsSkin | HandDetector.cs:244-248 | the skin-tone gamut, used by the contract of `GetSkinMask` |
| HandDetection.GetSkinMask | HandDetector.cs:227-256 | for an image of any size, a mask entry is 255 exactly when it lies inside the image and its pixel has Y > 80, 135 < Cr < 180 and 85 < Cb < 135; every other entry stays 0 |
| HandDetection.ArgMaxAbove | HandDetector.cs:276-286 | None exactly when no value exceeds the floor; otherwise the position of a value above the floor that no value exceeds, and that every earlier value is strictly below |
| HandDetection.MaxAbove | HandDetector.cs:276-286 | the loop ends with (floor, none) when no value exceeds the floor, and otherwise with the first maximum and its index |
| HandDetection.Accepts | HandDetector.cs:309-320 | the defect filter, angle < 80 and raw/256 > height/8, restated without division by `AcceptsWithoutDivision` |
| HandDetection.AcceptsWithoutDivision | HandDetector.cs:309-320 | a defect is accepted exactly when its angle is under 80 degrees and its raw depth exceeds 32 times the mask's height |
| HandDetection.FarPointsOf | HandDetector.cs:304-327 | a point is collected exactly when it is the deepest point of an accepted defect |
| HandDetection.FarPointsAllAccepted | HandDetector.cs:304-327 | when every defect is accepted, the collected points are all the deepest points, in order |
| HandDetection.AcceptedFarPoints | HandDetector.cs:304-327 | the defect loop collects `FarPoints`: the deepest points of the accepted defects, in order |
| HandDetection.Half | HandDetector.cs:351-352 | width/2 rounds toward zero, so the remainder is 0 or 1 for a non-negative width and 0 or -1 for a negative one |
| HandDetection.Centre | HandDetector.cs:351-352 | x + width/2 and y + height/2 with C#'s integer division, whose rounding is stated by `Half` |
| HandDetection.FingerCentre | HandDetector.cs:276-352 | what `FindDefects` reports; its properties are stated by `FingerCentreNeedsArea` and `FingerCentreFromLargest`, and `FindDefects` is proved against it |
| HandDetection.FingerCentreNeedsArea | HandDetector.cs:276-291 | with no contour of area above 2000 nothing is reported |
| HandDetection.FingerCentreFromLargest | HandDetector.cs:276-352 | a reported centre comes from the first contour of largest area; that area is above 2000; it has between min and max accepted defects; the centre is that of their bounding rectangle |
| HandDetection.FindDefects | HandDetector.cs:258-355 | (cx, cy) become the reported centre, or keep the caller's values when nothing is reported |
| HandDetection.MarkerOutline | HandDetector.cs:152-163 | the sentinel check and the ±15 box; stated by `ContourOutlineAround` |
| HandDetection.ContourOutline | HandDetector.cs:150-163 | `ContourDetect`'s answer, with counts 1 to 4; stated by `ContourOutlineAround`, and `ContourDetect` is proved against it |
| HandDetection.ContourOutlineAround | HandDetector.cs:150-163 | no centre gives no outline; a centre other than (-1, -1) gives a 30 x 30 box centred on it |
| HandDetection.ContourDetect | HandDetector.cs:144-164 | the outline is the ±15 box around `FindDefects`' centre with counts 1 to 4 and the mask's row count as its height, or none when (cx, cy) stay (-1, -1) |
| HandDetection.Truncate | HandDetector.cs:197-200 | the (int) cast rounds toward zero: for v >= 0 the result r has r <= v < r + 1, and for v < 0 it has r - 1 < v <= r |
| HandDetection.ClampToPixel | HandDetector.cs:197-200 | a clamped coordinate is at least 0, at most dim-1 for dim >= 1, and the floor of the value when the value is already in range |
| HandDetection.ClampMonotone | HandDetector.cs:197-200 | clamping keeps the order of coordinates |
| HandDetection.ScaleMonotone | HandDetector.cs:192-195 | scaling by an image side keeps the order of coordinates |
| HandDetection.PixelBox | HandDetector.cs:192-208 | scale, clamp and store the corners crosswise; stated by `TFOutlineInImage` and `TFOutlineCrosswise` |
| HandDetection.TFOutline | HandDetector.cs:178-213 | what `TFDetect` reports for an image; stated by `TFOutlineIffConfident`, `TFOutlineInImage` and `TFOutlineCrosswise`, and `TFDetect` is proved against it |
| HandDetection.TFOutlineIffConfident | HandDetector.cs:178-190 | there is an outline exactly when some row scores above 0.7 |
| HandDetection.TFOutlineInImage | HandDetector.cs:197-200 | every stored coordinate lies in [0, dim-1] |
| HandDetection.TFOutlineCrosswise | HandDetector.cs:202-208 | when the network's boxes have left <= right and top <= bottom, the stored XMax <= XMin and YMax <= YMin, because the corners are stored crosswise |
| HandDetection.TFDetect | HandDetector.cs:166-216 | without an image the previous outline is kept; otherwise the outline is the clamped, crosswise box of the first best row when it scores above 0.7, and none otherwise |
| HandDetection.RectBox | HandDetector.cs:129-135 | the box spanned by the classifier's rectangle; stated by `RectBoxRoundTrip` and `CascadeOutline` |
| HandDetection.RectBoxRoundTrip | HandDetector.cs:129-135 | the classifier's rectangle is recovered from the box made of it |
| HandDetection.CascadeOutline | HandDetector.cs:126-141 | no hit gives no outline; otherwise the box starts at the first hit's corner and spans its width and height |
| DetectorLifecycle.StrategyFor | HandDetector.cs:83-94 | mode 0 selects the cascade, 1 the contour and 2 the network strategy; any other mode selects none |
| DetectorLifecycle.Run | HandDetector.cs:106-107 | the `del.Invoke` dispatch followed by `PostAction`; stated by `RunFaults`, and `Update` is proved against it |
| DetectorLifecycle.RunFaults | HandDetector.cs:106-107 | a running tick with a strategy faults exactly when the camera delivers no image, because the strategy or `PostAction` dereferences it; the outline then stays as it was; with an image the outline is the strategy's answer |
| DetectorLifecycle.HandDetector.Start | HandDetector.cs:81-95 | installs `StrategyFor(mode)`, or leaves the delegate as it was for any other mode, including negative ones; nothing else changes and `Valid` is kept |
| DetectorLifecycle.HandDetector.Init | HandDetector.cs:67-80 | called only while not initialised, as at HandDetector.cs:101-104; takes the texture's size, sets initialized, and counts the one call |
| DetectorLifecycle.HandDetector.Update | HandDetector.cs:97-108 | while the camera is not running nothing changes; otherwise init has run exactly once, the size is taken on the first running tick only, and the outline and tick outcome are those of `Run` with the installed strategy (so a tick without an image faults, in the strategy or in `PostAction`), or a fault with no delegate |

## Left out

- Camera plumbing is Unity and device I/O:
  - the initialisation coroutine, device selection and `Play`;
  - polling the screen size in `Update`, and `Dispose`;
  - texture creation, `GetMat` and `WebCamRunning`.

  The camera's running state, its size, its facing, its rotation angle and
  the current frame are parameters or fields.
- OpenCV calls are foreign code, and what they report is an argument:
  - colour conversion, histogram equalisation, dilation, erosion and
    contour extraction;
  - contour areas, convex hulls, convexity defects and bounding rectangles;
  - the cascade classifier, and the network's `blobFromImage`, `forward`
    and `reshape`.

  In particular, the contours passed to `ContourDetect` are not derived
  from the mask `GetSkinMask` computes. Only the mask's row count is used.
- The defect angle computed with `Core.norm` and `Math.Acos` is
  floating-point trigonometry. Each defect carries its angle as an input.
- Scores, coordinates and depths are `real`, so float and double rounding
  is not modelled.
  - The source compares a float score with the double 0.7. A score whose
    float value is 0.7f, slightly below 0.7, is rejected there, and the
    model does not show that.
- `LoadDetector` reads resource files, and is not modelled.
  - `init` also creates the texture and the working image, which are not
    modelled either.
  - The debug `drawContours` only renders. `PostAction`'s drawing and
    texture conversion are left out, except that its use of a missing
    image is a fault in `Update`.
- Sizes are `nat`, so negative widths and heights are not modelled.
  - With them, the source's loops simply do not run.
  - The 32-bit overflow of `i * width` is not modelled either.
- WebCam.FlipColors: the flips are modelled on one buffer only. The source
  always passes the same list as source and destination.
- WebCam.FlipColors: requires width*height cells only when the camera is
  front-facing at 0, 90, 180 or 270 degrees, the cases that index the
  buffer as a grid.
- WebCam.WebCamOperation.GetColors: requires the frame and the buffer to
  hold width*height cells, because the camera fills only a buffer of that
  length.
- WebCam.WebCamOperation.GetRegionColors: whether the region lies inside
  the texture is left to the texture read, which is a parameter. The read
  must return width*height pixels, as Unity's does.
- HandDetection.GetSkinMask: assumes that a `put` outside the mask writes
  nothing, which is how OpenCV treats indices beyond a matrix. OpenCV
  itself is not part of this model.
- DetectorLifecycle.HandDetector.Update: exceptions are modelled only as
  `Fault`, for a missing image and for a missing delegate. Other ways the
  foreign calls can fail are not modelled.
