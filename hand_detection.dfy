/**
  The hand detection strategies of HandDetector.cs.

  Every OpenCV call (colour conversion, morphology, contour extraction,
  convex hulls and defects, bounding boxes, the cascade classifier and the
  neural network) is outside the model: what such a call reports for the
  current frame is an argument of the operation that uses it.
*/
module HandDetection {
  import opened Wrappers

  /** A pixel position: column x, row y. */
  datatype Point = Point(x: int, y: int)

  /** An axis-aligned rectangle as OpenCV reports it. */
  datatype Rect = Rect(x: int, y: int, width: int, height: int)

  /** BoxOutline: the box drawn around a detected hand. */
  datatype Box = Box(xMin: real, xMax: real, yMin: real, yMax: real)

  // ---------------------------------------------------------------------
  // Skin mask
  // ---------------------------------------------------------------------

  /** A pixel after conversion to the YCrCb colour space. */
  datatype Pixel = Pixel(y: int, cr: int, cb: int)

  /** The mask value of a skin pixel; every other mask entry is 0. */
  const SkinValue: int := 255

  /** The skin-tone gamut: Y above 80, Cr strictly between 135 and 180, Cb strictly between 85 and 135. */
  predicate IsSkin(p: Pixel)
  {
    p.y > 80 && p.cr > 135 && p.cr < 180 && p.cb > 85 && p.cb < 135
  }

  /**
    Marks the skin pixels of a YCrCb image (HandDetector.cs, GetSkinMask).
    The mask is allocated with imgWidth rows and imgHeight columns while it
    is written at the image's (row, column) positions; a write outside the
    mask is dropped, as OpenCV's put does for indices beyond the matrix.
  */
  method GetSkinMask(image: array2<Pixel>, imgWidth: nat, imgHeight: nat) returns (mask: array2<int>)
    ensures fresh(mask)
    ensures mask.Length0 == imgWidth && mask.Length1 == imgHeight
    ensures forall i, j :: 0 <= i < imgWidth && 0 <= j < imgHeight ==>
      mask[i, j] == if i < image.Length0 && j < image.Length1 && IsSkin(image[i, j]) then SkinValue else 0
  {
    mask := new int[imgWidth, imgHeight]((i, j) => 0);
    var i := 0;
    while i < image.Length0
      invariant 0 <= i <= image.Length0
      invariant forall r, c :: 0 <= r < imgWidth && 0 <= c < imgHeight ==>
        mask[r, c] == if r < i && c < image.Length1 && IsSkin(image[r, c]) then SkinValue else 0
    {
      var j := 0;
      while j < image.Length1
        invariant 0 <= j <= image.Length1
        invariant forall r, c :: 0 <= r < imgWidth && 0 <= c < imgHeight ==>
          mask[r, c] == if (r < i || (r == i && c < j)) && c < image.Length1 && IsSkin(image[r, c]) then SkinValue else 0
      {
        if IsSkin(image[i, j]) && i < mask.Length0 && j < mask.Length1 {
          mask[i, j] := SkinValue;
        }
        j := j + 1;
      }
      i := i + 1;
    }
  }

  // ---------------------------------------------------------------------
  // Picking the best candidate
  // ---------------------------------------------------------------------

  /**
    The first position holding the largest value, among the values strictly
    above floor; None when no value is above floor.
  */
  function ArgMaxAbove(xs: seq<real>, floor: real): (r: Option<nat>)
    ensures r.None? <==> forall k :: 0 <= k < |xs| ==> xs[k] <= floor
    ensures r.Some? ==> r.value < |xs| && xs[r.value] > floor
    ensures r.Some? ==> forall k :: 0 <= k < |xs| ==> xs[k] <= xs[r.value]
    ensures r.Some? ==> forall k :: 0 <= k < r.value ==> xs[k] < xs[r.value]
  {
    if |xs| == 0 then None
    else
      var n := |xs| - 1;
      var p := ArgMaxAbove(xs[..n], floor);
      var best := if p.Some? then xs[p.value] else floor;
      if xs[n] > best then Some(n) else p
  }

  /**
    The scan both FindDefects and TFDetect run: start from (floor, none) and
    take every value strictly greater than the best so far.
  */
  method MaxAbove(xs: seq<real>, floor: real, none: int) returns (best: real, index: int)
    ensures match ArgMaxAbove(xs, floor)
      case None => best == floor && index == none
      case Some(i) => best == xs[i] && index == i
  {
    best, index := floor, none;
    var i := 0;
    while i < |xs|
      invariant 0 <= i <= |xs|
      invariant match ArgMaxAbove(xs[..i], floor)
        case None => best == floor && index == none
        case Some(m) => best == xs[m] && index == m
    {
      assert xs[..i + 1][..i] == xs[..i];
      if xs[i] > best {
        best, index := xs[i], i;
      }
      i := i + 1;
    }
    assert xs[..i] == xs;
  }

  // ---------------------------------------------------------------------
  // Contour strategy
  // ---------------------------------------------------------------------

  /**
    A convexity defect of a contour's hull: the hull points it spans, its
    deepest point, its depth in 1/256 pixel and the angle between the two
    sides at the deepest point, in degrees.
  */
  datatype Defect = Defect(start: Point, end: Point, far: Point, rawDepth: int, angle: real)

  /** A contour of the skin mask: its area and the convexity defects of its hull. */
  datatype Contour = Contour(area: real, defects: seq<Defect>)

  /** Contours of this area or less are not a hand. */
  const MinHandArea: real := 2000.0

  /** A finger gap is narrower than this, in degrees. */
  const MaxFingerAngle: real := 80.0

  /** A defect between two fingers: narrow enough, and deeper than an eighth of the mask's height. */
  predicate Accepts(d: Defect, maskHeight: int)
  {
    d.angle < MaxFingerAngle && (d.rawDepth as real) / 256.0 > (maskHeight as real) / 8.0
  }

  /** The depth test needs no division: the raw depth must exceed 32 times the mask's height. */
  lemma AcceptsWithoutDivision(d: Defect, maskHeight: int)
    ensures Accepts(d, maskHeight) <==> d.angle < 80.0 && d.rawDepth > 32 * maskHeight
  {
  }

  function Areas(contours: seq<Contour>): (r: seq<real>)
    ensures |r| == |contours| && forall k :: 0 <= k < |r| ==> r[k] == contours[k].area
  {
    seq(|contours|, k requires 0 <= k < |contours| => contours[k].area)
  }

  /** The deepest points of the accepted defects, in order. */
  function FarPoints(ds: seq<Defect>, maskHeight: int): (r: seq<Point>)
    ensures |r| <= |ds|
  {
    if |ds| == 0 then []
    else
      var n := |ds| - 1;
      FarPoints(ds[..n], maskHeight) + if Accepts(ds[n], maskHeight) then [ds[n].far] else []
  }

  /** A point is collected exactly when it is the deepest point of an accepted defect. */
  lemma {:induction false} FarPointsOf(ds: seq<Defect>, maskHeight: int, p: Point)
    ensures p in FarPoints(ds, maskHeight)
      <==> exists k :: 0 <= k < |ds| && Accepts(ds[k], maskHeight) && ds[k].far == p
  {
    if |ds| > 0 {
      var n := |ds| - 1;
      var front := ds[..n];
      var last := if Accepts(ds[n], maskHeight) then [ds[n].far] else [];
      assert FarPoints(ds, maskHeight) == FarPoints(front, maskHeight) + last;
      FarPointsOf(front, maskHeight, p);
      if p in FarPoints(front, maskHeight) {
        var k :| 0 <= k < |front| && Accepts(front[k], maskHeight) && front[k].far == p;
        assert ds[k] == front[k];
      } else if p in last {
        assert Accepts(ds[n], maskHeight) && ds[n].far == p;
      }
      if exists k :: 0 <= k < |ds| && Accepts(ds[k], maskHeight) && ds[k].far == p {
        var k :| 0 <= k < |ds| && Accepts(ds[k], maskHeight) && ds[k].far == p;
        if k < n {
          assert front[k] == ds[k];
        }
      }
    }
  }

  /** Every defect accepted: one point per defect, in order. */
  lemma {:induction false} FarPointsAllAccepted(ds: seq<Defect>, maskHeight: int)
    requires forall k :: 0 <= k < |ds| ==> Accepts(ds[k], maskHeight)
    ensures FarPoints(ds, maskHeight) == seq(|ds|, k requires 0 <= k < |ds| => ds[k].far)
  {
    if |ds| > 0 {
      FarPointsAllAccepted(ds[..|ds| - 1], maskHeight);
    }
  }

  /** Collects the deepest points of the accepted defects (the defect loop of FindDefects). */
  method AcceptedFarPoints(ds: seq<Defect>, maskHeight: int) returns (far: seq<Point>)
    ensures far == FarPoints(ds, maskHeight)
  {
    far := [];
    var i := 0;
    while i < |ds|
      invariant 0 <= i <= |ds|
      invariant far == FarPoints(ds[..i], maskHeight)
    {
      assert ds[..i + 1][..i] == ds[..i];
      // the threshold is the mask's height over 8, compared with the depth over 256
      if Accepts(ds[i], maskHeight) {
        far := far + [ds[i].far];
      }
      i := i + 1;
    }
    assert ds[..i] == ds;
  }

  /** n / 2 rounded toward zero, as C#'s integer division rounds. */
  function Half(n: int): (r: int)
    ensures n >= 0 ==> 0 <= n - 2 * r <= 1
    ensures n < 0 ==> -1 <= n - 2 * r <= 0
  {
    if n >= 0 then n / 2 else -((-n) / 2)
  }

  /** The middle of a rectangle as the source rounds it. */
  function Centre(r: Rect): Point
  {
    Point(r.x + Half(r.width), r.y + Half(r.height))
  }

  /**
    What FindDefects reports for a frame: None when no contour is larger
    than MinHandArea or the number of accepted defects of the largest one is
    outside [minCount, maxCount]; otherwise the centre of the box that
    boundingRect puts around their deepest points.
  */
  function FingerCentre(contours: seq<Contour>, maskHeight: int, minCount: int, maxCount: int,
                        boundingRect: seq<Point> -> Rect): Option<Point>
  {
    match ArgMaxAbove(Areas(contours), MinHandArea)
    case None => None
    case Some(i) =>
      var far := FarPoints(contours[i].defects, maskHeight);
      if |far| < minCount || |far| > maxCount then None else Some(Centre(boundingRect(far)))
  }

  /** Without a contour larger than MinHandArea there is no hand. */
  lemma FingerCentreNeedsArea(contours: seq<Contour>, maskHeight: int, minCount: int, maxCount: int,
                              boundingRect: seq<Point> -> Rect)
    requires forall k :: 0 <= k < |contours| ==> contours[k].area <= MinHandArea
    ensures FingerCentre(contours, maskHeight, minCount, maxCount, boundingRect) == None
  {
    var xs := Areas(contours);
    assert forall k :: 0 <= k < |xs| ==> xs[k] <= MinHandArea;
  }

  /**
    A reported centre comes from the first contour of largest area, that
    area is above MinHandArea, and its accepted defects number between
    minCount and maxCount.
  */
  lemma FingerCentreFromLargest(contours: seq<Contour>, maskHeight: int, minCount: int, maxCount: int,
                                boundingRect: seq<Point> -> Rect)
    requires FingerCentre(contours, maskHeight, minCount, maxCount, boundingRect).Some?
    ensures exists i :: (0 <= i < |contours| && contours[i].area > MinHandArea
      && (forall k :: 0 <= k < |contours| ==> contours[k].area <= contours[i].area)
      && (forall k :: 0 <= k < i ==> contours[k].area < contours[i].area)
      && minCount <= |FarPoints(contours[i].defects, maskHeight)| <= maxCount
      && FingerCentre(contours, maskHeight, minCount, maxCount, boundingRect)
         == Some(Centre(boundingRect(FarPoints(contours[i].defects, maskHeight)))))
  {
    var i := ArgMaxAbove(Areas(contours), MinHandArea).value;
    assert forall k :: 0 <= k < |contours| ==> Areas(contours)[k] == contours[k].area;
    assert 0 <= i < |contours| && contours[i].area > MinHandArea;
  }

  /**
    Picks the largest contour, collects its finger gaps and, when their
    number is in [minCount, maxCount], overwrites (cx, cy) with the centre of
    their bounding box; otherwise (cx, cy) keep the caller's values
    (HandDetector.cs, FindDefects).
  */
  method FindDefects(contours: seq<Contour>, maskHeight: int, cx0: int, cy0: int, minCount: int, maxCount: int,
                     boundingRect: seq<Point> -> Rect) returns (cx: int, cy: int)
    ensures match FingerCentre(contours, maskHeight, minCount, maxCount, boundingRect)
      case None => cx == cx0 && cy == cy0
      case Some(p) => cx == p.x && cy == p.y
  {
    cx, cy := cx0, cy0;
    var area, index := MaxAbove(Areas(contours), MinHandArea, -1);
    if index == -1 {
      return;
    }
    var far := AcceptedFarPoints(contours[index].defects, maskHeight);
    if |far| < minCount || |far| > maxCount {
      return;
    }
    var rect := boundingRect(far);
    cx := rect.x + Half(rect.width);
    cy := rect.y + Half(rect.height);
  }

  /** Half the side of the box ContourDetect draws around the hand's centre. */
  const MarkerHalfSide: real := 15.0

  /** The outline ContourDetect derives from FindDefects' (cx, cy); (-1, -1) means no hand. */
  function MarkerOutline(cx: int, cy: int): (r: Option<Box>)
  {
    if cx == -1 && cy == -1 then None
    else Some(Box(cx as real - MarkerHalfSide, cx as real + MarkerHalfSide,
                  cy as real - MarkerHalfSide, cy as real + MarkerHalfSide))
  }

  /** What ContourDetect reports: the 30 x 30 box around the fingers' centre, or no outline. */
  function ContourOutline(contours: seq<Contour>, maskHeight: int, boundingRect: seq<Point> -> Rect): Option<Box>
  {
    match FingerCentre(contours, maskHeight, 1, 4, boundingRect)
    case None => None
    case Some(p) => MarkerOutline(p.x, p.y)
  }

  /**
    A centre other than the sentinel gets a 30 x 30 box centred on it; no
    centre gets no outline.
  */
  lemma ContourOutlineAround(contours: seq<Contour>, maskHeight: int, boundingRect: seq<Point> -> Rect)
    ensures var c := FingerCentre(contours, maskHeight, 1, 4, boundingRect);
      var o := ContourOutline(contours, maskHeight, boundingRect);
      (c.None? ==> o.None?)
      && (c.Some? && (c.value.x != -1 || c.value.y != -1) ==>
           o.Some? && o.value.xMax - o.value.xMin == 30.0 && o.value.yMax - o.value.yMin == 30.0
           && (o.value.xMin + o.value.xMax) / 2.0 == c.value.x as real
           && (o.value.yMin + o.value.yMax) / 2.0 == c.value.y as real)
  {
  }

  /**
    Masks the skin, then looks for one to four finger gaps on the largest
    contour (HandDetector.cs, ContourDetect). contours is what contour
    extraction reports for the mask after dilation and erosion; the depth
    threshold uses the mask's height, which is its row count imgWidth.
  */
  method ContourDetect(image: array2<Pixel>, imgWidth: nat, imgHeight: nat, contours: seq<Contour>,
                       boundingRect: seq<Point> -> Rect) returns (outline: Option<Box>)
    ensures outline == ContourOutline(contours, imgWidth, boundingRect)
  {
    var mask := GetSkinMask(image, imgWidth, imgHeight);
    var cx, cy := FindDefects(contours, mask.Length0, -1, -1, 1, 4, boundingRect);
    if cx == -1 && cy == -1 {
      outline := None;
      return;
    }
    outline := Some(Box(cx as real - MarkerHalfSide, cx as real + MarkerHalfSide,
                        cy as real - MarkerHalfSide, cy as real + MarkerHalfSide));
  }

  // ---------------------------------------------------------------------
  // Neural network strategy
  // ---------------------------------------------------------------------

  /** A row of the network's output: its score and the box corners, normalised to [0, 1]. */
  datatype Detection = Detection(score: real, left: real, top: real, right: real, bottom: real)

  /** Detections scoring this much or less are ignored. */
  const MinScore: real := 0.7

  function Scores(rows: seq<Detection>): (r: seq<real>)
    ensures |r| == |rows| && forall k :: 0 <= k < |r| ==> r[k] == rows[k].score
  {
    seq(|rows|, k requires 0 <= k < |rows| => rows[k].score)
  }

  /** The (int) cast of C#: drops the fraction, rounding toward zero. */
  function Truncate(v: real): (r: int)
    ensures 0.0 <= v ==> r as real <= v < r as real + 1.0
    ensures v < 0.0 ==> r as real - 1.0 < v <= r as real
  {
    if v >= 0.0 then v.Floor else -((-v).Floor)
  }

  /** A scaled coordinate forced into [0, dim - 1] and truncated. */
  function ClampToPixel(v: real, dim: int): (r: int)
    ensures 0 <= r
    ensures dim >= 1 ==> r <= dim - 1
    ensures 0.0 <= v <= (dim - 1) as real ==> r == v.Floor
  {
    var upper := (dim - 1) as real;
    Truncate(if 0.0 > (if v < upper then v else upper) then 0.0 else if v < upper then v else upper)
  }

  /** Clamping keeps the order of coordinates. */
  lemma ClampMonotone(v1: real, v2: real, dim: int)
    requires v1 <= v2
    ensures ClampToPixel(v1, dim) <= ClampToPixel(v2, dim)
  {
    var upper := (dim - 1) as real;
    var c1 := if 0.0 > (if v1 < upper then v1 else upper) then 0.0 else if v1 < upper then v1 else upper;
    var c2 := if 0.0 > (if v2 < upper then v2 else upper) then 0.0 else if v2 < upper then v2 else upper;
    assert 0.0 <= c1 <= c2;
    assert c1.Floor <= c2.Floor;
  }

  /**
    The box of a detection in pixels, with its corners stored crosswise as
    the source stores them: xMin holds the right edge, xMax the left edge,
    yMin the bottom edge and yMax the top edge.
  */
  function PixelBox(d: Detection, imgWidth: int, imgHeight: int): Box
  {
    Box(ClampToPixel(Scale(d.right, imgWidth), imgWidth) as real,
        ClampToPixel(Scale(d.left, imgWidth), imgWidth) as real,
        ClampToPixel(Scale(d.bottom, imgHeight), imgHeight) as real,
        ClampToPixel(Scale(d.top, imgHeight), imgHeight) as real)
  }

  /** What TFDetect reports for an image: the box of the first best row when its score is above MinScore. */
  function TFOutline(rows: seq<Detection>, imgWidth: int, imgHeight: int): Option<Box>
  {
    match ArgMaxAbove(Scores(rows), 0.0)
    case None => None
    case Some(i) => if rows[i].score > MinScore then Some(PixelBox(rows[i], imgWidth, imgHeight)) else None
  }

  /** There is an outline exactly when some row scores above MinScore. */
  lemma TFOutlineIffConfident(rows: seq<Detection>, imgWidth: int, imgHeight: int)
    ensures TFOutline(rows, imgWidth, imgHeight).Some? <==> exists k :: 0 <= k < |rows| && rows[k].score > MinScore
  {
    var xs := Scores(rows);
    if exists k :: 0 <= k < |rows| && rows[k].score > MinScore {
      var k :| 0 <= k < |rows| && rows[k].score > MinScore;
      assert xs[k] > 0.0;
    }
  }

  /** The outline lies inside the image. */
  lemma TFOutlineInImage(rows: seq<Detection>, imgWidth: int, imgHeight: int)
    requires imgWidth >= 1 && imgHeight >= 1
    requires TFOutline(rows, imgWidth, imgHeight).Some?
    ensures var b := TFOutline(rows, imgWidth, imgHeight).value;
      0.0 <= b.xMin <= (imgWidth - 1) as real && 0.0 <= b.xMax <= (imgWidth - 1) as real
      && 0.0 <= b.yMin <= (imgHeight - 1) as real && 0.0 <= b.yMax <= (imgHeight - 1) as real
  {
  }

  /** A normalised coordinate in pixels of a side dim pixels long. */
  function Scale(v: real, dim: int): real
  {
    v * dim as real
  }

  lemma ScaleMonotone(a: real, b: real, dim: int)
    requires a <= b && 0 <= dim
    ensures Scale(a, dim) <= Scale(b, dim)
  {
    assert Scale(b, dim) - Scale(a, dim) == (b - a) * dim as real;
  }

  /**
    When the network reports its boxes with left <= right and top <= bottom,
    the outline's "min" fields are never below its "max" fields.
  */
  lemma TFOutlineCrosswise(rows: seq<Detection>, imgWidth: int, imgHeight: int)
    requires imgWidth >= 0 && imgHeight >= 0
    requires forall k :: 0 <= k < |rows| ==> rows[k].left <= rows[k].right && rows[k].top <= rows[k].bottom
    requires TFOutline(rows, imgWidth, imgHeight).Some?
    ensures var b := TFOutline(rows, imgWidth, imgHeight).value;
      b.xMax <= b.xMin && b.yMax <= b.yMin
  {
    var i := ArgMaxAbove(Scores(rows), 0.0).value;
    var d := rows[i];
    ScaleMonotone(d.left, d.right, imgWidth);
    ScaleMonotone(d.top, d.bottom, imgHeight);
    ClampMonotone(Scale(d.left, imgWidth), Scale(d.right, imgWidth), imgWidth);
    ClampMonotone(Scale(d.top, imgHeight), Scale(d.bottom, imgHeight), imgHeight);
  }

  /**
    Runs the network's answer through the score scan, the threshold and the
    clamp (HandDetector.cs, TFDetect). Without an image the previous outline
    is kept; rows is what the network reports for the image.
  */
  method TFDetect(hasImage: bool, rows: seq<Detection>, imgWidth: int, imgHeight: int, outline0: Option<Box>)
    returns (outline: Option<Box>)
    ensures !hasImage ==> outline == outline0
    ensures hasImage ==> outline == TFOutline(rows, imgWidth, imgHeight)
  {
    outline := outline0;
    if !hasImage {
      return;
    }
    var maxScore, scoreInd := MaxAbove(Scores(rows), 0.0, 0);
    ghost var best := ArgMaxAbove(Scores(rows), 0.0);
    if maxScore > MinScore {
      assert best.Some? && best.value == scoreInd;
      // the corners are scaled to pixels, clamped and stored crosswise
      outline := Some(PixelBox(rows[scoreInd], imgWidth, imgHeight));
    } else {
      outline := None;
    }
  }

  // ---------------------------------------------------------------------
  // Cascade classifier strategy
  // ---------------------------------------------------------------------

  /** The box spanned by a rectangle. */
  function RectBox(r: Rect): (b: Box)
  {
    Box(r.x as real, r.x as real + r.width as real, r.y as real, r.y as real + r.height as real)
  }

  /** The rectangle is recovered from its box. */
  lemma RectBoxRoundTrip(r: Rect)
    ensures var b := RectBox(r);
      Rect(b.xMin.Floor, b.yMin.Floor, (b.xMax - b.xMin).Floor, (b.yMax - b.yMin).Floor) == r
  {
  }

  /**
    The outline of the classifier's first hit, or no outline when it found
    nothing (HandDetector.cs, CascadeDetect); hands is what the classifier
    reports for the equalised grey image.
  */
  function CascadeOutline(hands: seq<Rect>): (r: Option<Box>)
    ensures r.None? <==> |hands| == 0
    ensures r.Some? ==> (r.value.xMin == hands[0].x as real && r.value.yMin == hands[0].y as real
      && r.value.xMax - r.value.xMin == hands[0].width as real
      && r.value.yMax - r.value.yMin == hands[0].height as real)
  {
    if |hands| != 0 then Some(RectBox(hands[0])) else None
  }
}
