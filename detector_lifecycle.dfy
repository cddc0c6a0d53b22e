/**
  The detector component of HandDetector.cs: Start installs one detection
  strategy from the configured mode, and every Update tick of a running
  camera runs it on the current frame, initialising the component on the
  first such tick.
*/
module DetectorLifecycle {
  import opened Wrappers
  import opened HandDetection

  /** The three detection strategies a HandDel can stand for. */
  datatype Strategy = CascadeStrategy | ContourStrategy | NetworkStrategy

  /** The strategy Start installs for a detection mode: 0, 1 and 2 select one; any other mode none. */
  function StrategyFor(mode: int): (s: Option<Strategy>)
    ensures s == Some(CascadeStrategy) <==> mode == 0
    ensures s == Some(ContourStrategy) <==> mode == 1
    ensures s == Some(NetworkStrategy) <==> mode == 2
    ensures s.None? <==> mode != 0 && mode != 1 && mode != 2
  {
    if mode == 0 then Some(CascadeStrategy)
    else if mode == 1 then Some(ContourStrategy)
    else if mode == 2 then Some(NetworkStrategy)
    else None
  }

  /**
    What the strategies need from one frame. Each field is what the camera
    or an OpenCV call in front of the strategy reports: whether the camera
    delivered an image, the classifier's hits, the image in YCrCb, the
    contours of the cleaned skin mask, the bounding box of a point set and
    the network's rows.
  */
  datatype Frame = Frame(hasImage: bool, hands: seq<Rect>, ycrcb: array2<Pixel>, contours: seq<Contour>,
                         boundingRect: seq<Point> -> Rect, rows: seq<Detection>)

  /** How an Update tick ended: skipped, ran a strategy, or stopped by a null reference. */
  datatype Tick = Skipped | Ran | Fault

  /**
    The outcome of a running tick with strategy s on a frame of an
    imgWidth x imgHeight camera when the previous outline was previous. The
    cascade and contour strategies dereference the image; the network
    strategy returns early without one, but PostAction then dereferences it.
    So a missing image is a fault for every strategy.
  */
  function Run(s: Strategy, frame: Frame, imgWidth: nat, imgHeight: nat, previous: Option<Box>): (Tick, Option<Box>)
  {
    match s
    case CascadeStrategy => if frame.hasImage then (Ran, CascadeOutline(frame.hands)) else (Fault, previous)
    case ContourStrategy =>
      if frame.hasImage then (Ran, ContourOutline(frame.contours, imgWidth, frame.boundingRect)) else (Fault, previous)
    case NetworkStrategy =>
      if frame.hasImage then (Ran, TFOutline(frame.rows, imgWidth, imgHeight)) else (Fault, previous)
  }

  /**
    A tick with a strategy faults exactly when the camera delivers no
    image, and then the outline stays as it was; with an image the outline
    is the strategy's answer.
  */
  lemma RunFaults(s: Strategy, frame: Frame, imgWidth: nat, imgHeight: nat, previous: Option<Box>)
    ensures Run(s, frame, imgWidth, imgHeight, previous).0 == Fault <==> !frame.hasImage
    ensures Run(s, frame, imgWidth, imgHeight, previous).0 != Skipped
    ensures !frame.hasImage ==> Run(s, frame, imgWidth, imgHeight, previous).1 == previous
    ensures frame.hasImage && s == CascadeStrategy ==>
      Run(s, frame, imgWidth, imgHeight, previous).1 == CascadeOutline(frame.hands)
    ensures frame.hasImage && s == ContourStrategy ==>
      Run(s, frame, imgWidth, imgHeight, previous).1 == ContourOutline(frame.contours, imgWidth, frame.boundingRect)
    ensures frame.hasImage && s == NetworkStrategy ==>
      Run(s, frame, imgWidth, imgHeight, previous).1 == TFOutline(frame.rows, imgWidth, imgHeight)
  {
  }

  class HandDetector {
    var handDetectionMode: int
    var del: Option<Strategy>
    var initialized: bool
    var imgWidth: nat
    var imgHeight: nat
    var outline: Option<Box>
    /** How often init has run. */
    ghost var initCalls: nat

    /** init has run exactly when the component is initialised, and at most once. */
    ghost predicate Valid()
      reads this
    {
      initCalls <= 1 && (initialized <==> initCalls == 1)
    }

    constructor (handDetectionMode: int)
      ensures Valid()
      ensures this.handDetectionMode == handDetectionMode
      ensures del == None && !initialized && outline == None && initCalls == 0
    {
      this.handDetectionMode := handDetectionMode;
      del := None;
      initialized := false;
      imgWidth, imgHeight := 0, 0;
      outline := None;
      initCalls := 0;
    }

    /** Installs the strategy for the configured mode (HandDetector.cs, Start). */
    method Start()
      requires Valid()
      modifies this
      ensures Valid()
      ensures del == if StrategyFor(handDetectionMode).Some? then StrategyFor(handDetectionMode) else old(del)
      ensures handDetectionMode == old(handDetectionMode) && initialized == old(initialized)
      ensures imgWidth == old(imgWidth) && imgHeight == old(imgHeight) && outline == old(outline)
      ensures initCalls == old(initCalls)
    {
      if handDetectionMode == 0 {
        del := Some(CascadeStrategy);
      } else if handDetectionMode == 1 {
        del := Some(ContourStrategy);
      } else if handDetectionMode == 2 {
        del := Some(NetworkStrategy);
      }
    }

    /**
      Takes the camera's size and marks the component initialised
      (HandDetector.cs, init); the texture, the working image and the
      detector resources it also sets up are not modelled.
    */
    method Init(texWidth: nat, texHeight: nat)
      requires Valid() && !initialized
      modifies this
      ensures Valid()
      ensures imgWidth == texWidth && imgHeight == texHeight && initialized
      ensures initCalls == old(initCalls) + 1
      ensures handDetectionMode == old(handDetectionMode) && del == old(del) && outline == old(outline)
    {
      imgWidth := texWidth;
      imgHeight := texHeight;
      initialized := true;
      initCalls := initCalls + 1;
    }

    /**
      One frame tick (HandDetector.cs, Update): nothing happens while the
      camera is not running; otherwise the component is initialised if it
      is not yet and the installed strategy runs on the frame. Invoking an
      absent strategy is a fault that leaves the outline as it was.
    */
    method Update(cameraRunning: bool, texWidth: nat, texHeight: nat, frame: Frame) returns (tick: Tick)
      requires Valid()
      modifies this
      ensures Valid()
      ensures !cameraRunning ==> tick == Skipped && unchanged(this)
      ensures cameraRunning ==> initialized && initCalls == 1
      ensures cameraRunning && old(initialized) ==> imgWidth == old(imgWidth) && imgHeight == old(imgHeight)
      ensures cameraRunning && !old(initialized) ==> imgWidth == texWidth && imgHeight == texHeight
      ensures cameraRunning ==> del == old(del) && handDetectionMode == old(handDetectionMode)
      ensures cameraRunning && del.None? ==> tick == Fault && outline == old(outline)
      ensures cameraRunning && del.Some? ==> (tick, outline) == Run(del.value, frame, imgWidth, imgHeight, old(outline))
    {
      if !cameraRunning {
        return Skipped;
      }
      if !initialized {
        Init(texWidth, texHeight);
      }
      match del {
        case None =>
          tick := Fault;
        case Some(CascadeStrategy) =>
          if frame.hasImage {
            outline := CascadeOutline(frame.hands);
            tick := Ran;
          } else {
            tick := Fault;
          }
        case Some(ContourStrategy) =>
          if frame.hasImage {
            outline := ContourDetect(frame.ycrcb, imgWidth, imgHeight, frame.contours, frame.boundingRect);
            tick := Ran;
          } else {
            tick := Fault;
          }
        case Some(NetworkStrategy) =>
          outline := TFDetect(frame.hasImage, frame.rows, imgWidth, imgHeight, outline);
          tick := Ran;
      }
      if tick == Ran && !frame.hasImage {
        // PostAction hands the missing image to the drawing calls
        tick := Fault;
      }
    }
  }
}
