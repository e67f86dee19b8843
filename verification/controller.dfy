/**
  The script's control flow: the 60-read background capture, the per-frame
  pipeline, and the key dispatch after each shown frame. Camera reads and
  key codes are abstract input sequences; the BGR-to-HSV conversion is a
  parameter `toHsv`.
 */
module Controller {
  import opened Grids
  import opened Outcomes
  import opened Mirror
  import Segmenter
  import Morphology
  import Compositor

  /** Reads taken for one background capture. */
  const BackgroundReads: nat := 60

  /** What `cv2.waitKey` returns when no key was pressed. */
  const NoKey: int := -1

  const EscKey: byte := 27

  /** The code of the character 'b'. */
  const RecaptureKey: byte := 98

  /** One `cap.read()`: a frame, or the failure result `(False, None)`. */
  datatype Read = Frame(img: Image) | NoFrame

  /** The `i`-th read of the stream; reads past its end fail. */
  function ReadAt(stream: seq<Read>, i: nat): Read {
    if i < |stream| then stream[i] else NoFrame
  }

  /** The stream after `n` reads. */
  function Drop(stream: seq<Read>, n: nat): seq<Read> {
    if n <= |stream| then stream[n..] else []
  }

  /** Takes one read off the stream. */
  function NextRead(stream: seq<Read>): (Read, seq<Read>) {
    if |stream| == 0 then (NoFrame, []) else (stream[0], stream[1..])
  }

  /** The value `background` holds after one capture read: the mirrored frame, or `None`. */
  function Captured(rd: Read): (b: Option<Image>)
    ensures b.None? <==> rd.NoFrame?
    ensures rd.Frame? ==> SameShape(b.value, rd.img) && Flip(b.value) == rd.img
  {
    match rd
    case Frame(img) => FlipInvolution(img); Some(Flip(img))
    case NoFrame => None
  }

  /**
    The capture loop: `n` reads, each overwriting the background. The result
    is decided by the last read alone, flipped if it succeeded and `None` if
    it failed; earlier good frames are not kept.
   */
  function Capture(stream: seq<Read>, n: nat, background: Option<Image>): (r: (Option<Image>, seq<Read>))
    ensures r.1 == Drop(stream, n)
    ensures r.0 == if n == 0 then background else Captured(ReadAt(stream, n - 1))
  {
    if n == 0 then (background, stream)
    else
      var (rd, rest) := NextRead(stream);
      Capture(rest, n - 1, Captured(rd))
  }

  /** `cv2.waitKey(1) & 0xFF`: the low byte, the value in 0..255 congruent to `raw` modulo 256. */
  function KeyCode(raw: int): (k: byte)
    ensures (raw - k) % 256 == 0
  {
    raw % 256
  }

  /** The key read after a shown frame; when no more key events remain, no key is pressed. */
  function NextKey(keys: seq<int>): int {
    if |keys| == 0 then NoKey else keys[0]
  }

  function RestKeys(keys: seq<int>): seq<int> {
    if |keys| == 0 then [] else keys[1..]
  }

  /** `cv2.cvtColor` returns an image of its input's shape. */
  ghost predicate KeepsShape(toHsv: Image -> Image) {
    forall img :: SameShape(toHsv(img), img)
  }

  /** Why the processing of a frame raised instead of producing an output. */
  datatype Fault = NoBackground | CompositeFailed(error: Compositor.CompositeError)

  /** The refined cloak mask of a mirrored frame: shaped like the frame, every value 0 or 255. */
  function FrameMask(frame: Image, toHsv: Image -> Image): (m: Mask)
    requires KeepsShape(toHsv)
    ensures SameShape(m, frame) && IsBinary(m)
  {
    var cloak := Segmenter.CloakMask(toHsv(frame));
    Morphology.RefineBinary(cloak);
    SameShapeTrans(Morphology.Refine(cloak), cloak, toHsv(frame));
    SameShapeTrans(Morphology.Refine(cloak), toHsv(frame), frame);
    Morphology.Refine(cloak)
  }

  /**
    The pipeline for one captured frame: mirror it, segment and refine its
    HSV image, and composite against the background. It fails when there is
    no background or the background's shape differs from the frame's;
    otherwise every output pixel is
    the background's where the refined mask selects it and the mirrored
    frame's elsewhere.
   */
  function Process(background: Option<Image>, raw: Image, toHsv: Image -> Image): (r: Result<Image, Fault>)
    requires KeepsShape(toHsv)
    ensures background.None? ==> r == Failure(NoBackground)
    ensures background.Some? ==> (r.Success? <==> SameShape(background.value, raw))
    ensures r.Success? ==>
      && background.Some?
      && SameShape(r.value, raw)
      && forall i, j :: InGrid(raw, i, j) ==>
           r.value[i][j] == if FrameMask(Flip(raw), toHsv)[i][j] == 255 then background.value[i][j] else Flip(raw)[i][j]
  {
    var frame := Flip(raw);
    var hsv := toHsv(frame);
    var cloak := Segmenter.CloakMask(hsv);
    var mask := Morphology.Refine(cloak);
    match background
    case None => Failure(NoBackground)
    case Some(bg) =>
      Morphology.RefineBinary(cloak);
      SameShapeTrans(mask, cloak, hsv);
      SameShapeTrans(hsv, frame, raw);
      ShapesAgree(bg, raw, frame, hsv, mask);
      match Compositor.Composite(bg, frame, mask)
      case Failure(e) => Failure(CompositeFailed(e))
      case Success(out) =>
        Compositor.CompositeSelects(bg, frame, mask);
        SameShapeSym(frame, raw);
        SameShapeTrans(raw, frame, mask);
        SameShapeSym(raw, mask);
        SameShapeTrans(out, mask, raw);
        Success(out)
  }

  /**
    With the frame and mask shaped like the raw image and the HSV image, the
    composite's shape check passes exactly when the background and the HSV
    image have the raw frame's shape.
   */
  lemma ShapesAgree(bg: Image, raw: Image, frame: Image, hsv: Image, mask: Mask)
    requires SameShape(frame, raw) && SameShape(mask, hsv)
    ensures (SameShape(bg, mask) && SameShape(frame, mask)) <==> (SameShape(bg, raw) && SameShape(hsv, raw))
  {
    SameShapeSym(frame, raw);
    SameShapeSym(mask, hsv);
    if SameShape(bg, mask) && SameShape(frame, mask) {
      SameShapeTrans(raw, frame, mask);
      SameShapeTrans(raw, mask, hsv);
      SameShapeSym(raw, hsv);
      SameShapeSym(raw, mask);
      SameShapeTrans(bg, mask, raw);
    }
    if SameShape(bg, raw) && SameShape(hsv, raw) {
      SameShapeTrans(bg, raw, hsv);
      SameShapeTrans(bg, hsv, mask);
      SameShapeTrans(frame, raw, hsv);
      SameShapeTrans(frame, hsv, mask);
    }
  }

  /** Why the loop stopped. */
  datatype Stop = ReadFailed | EscPressed | Crashed(fault: Fault)

  /** The outcome of one loop iteration: carry on with a (possibly new) background, or stop. */
  datatype Tick =
    | Continue(background: Option<Image>, rest: seq<Read>, shown: Image)
    | Halt(why: Stop, last: Option<Image>)

  /**
    One iteration of the main loop. A failed read stops it with nothing shown;
    a frame that cannot be processed stops it too; otherwise the output is
    shown and the key decides: ESC stops, 'b' re-runs the 60-read capture on
    the following reads, and any other key (or none) changes nothing.
   */
  function Step(background: Option<Image>, stream: seq<Read>, key: int, toHsv: Image -> Image): (t: Tick)
    requires KeepsShape(toHsv)
    ensures ReadAt(stream, 0).NoFrame? ==> t == Halt(ReadFailed, None)
    ensures ReadAt(stream, 0).Frame? ==>
      var out := Process(background, ReadAt(stream, 0).img, toHsv);
      && (out.Failure? ==> t == Halt(Crashed(out.error), None))
      && (out.Success? && KeyCode(key) == EscKey ==> t == Halt(EscPressed, Some(out.value)))
      && (out.Success? && KeyCode(key) == RecaptureKey ==>
            t == Continue(Captured(ReadAt(stream, BackgroundReads)), Drop(stream, 1 + BackgroundReads), out.value))
      && (out.Success? && KeyCode(key) != EscKey && KeyCode(key) != RecaptureKey ==>
            t == Continue(background, stream[1..], out.value))
    ensures t.Continue? ==> |t.rest| < |stream|
  {
    var (rd, rest) := NextRead(stream);
    match rd
    case NoFrame => Halt(ReadFailed, None)
    case Frame(img) =>
      match Process(background, img, toHsv)
      case Failure(e) => Halt(Crashed(e), None)
      case Success(out) =>
        var k := KeyCode(key);
        if k == EscKey then Halt(EscPressed, Some(out))
        else if k == RecaptureKey then
          var (renewed, after) := Capture(rest, BackgroundReads, background);
          assert ReadAt(rest, BackgroundReads - 1) == ReadAt(stream, BackgroundReads);
          assert Drop(rest, BackgroundReads) == Drop(stream, 1 + BackgroundReads);
          Continue(renewed, after, out)
        else Continue(background, rest, out)
  }

  /** Everything the loop showed, why it stopped, and the background it held then. */
  datatype Session = Session(shown: seq<Image>, why: Stop, background: Option<Image>)

  /**
    The main loop from a given background. It shows at most one output per
    read, and it can stop on ESC only after showing a frame and only when
    some key event is ESC.
   */
  function Run(background: Option<Image>, stream: seq<Read>, keys: seq<int>, toHsv: Image -> Image): (s: Session)
    requires KeepsShape(toHsv)
    ensures |s.shown| <= |stream|
    ensures s.why == EscPressed ==> 0 < |s.shown|
    ensures (forall k :: 0 <= k < |keys| ==> KeyCode(keys[k]) != EscKey) ==> s.why != EscPressed
    decreases |stream|
  {
    match Step(background, stream, NextKey(keys), toHsv)
    case Halt(why, last) =>
      Session(if last.Some? then [last.value] else [], why, background)
    case Continue(next, rest, out) =>
      var s := Run(next, rest, RestKeys(keys), toHsv);
      Session([out] + s.shown, s.why, s.background)
  }

  /** The whole script: the initial capture, then the main loop on the reads that follow. */
  function Program(stream: seq<Read>, keys: seq<int>, toHsv: Image -> Image): (s: Session)
    requires KeepsShape(toHsv)
    ensures |s.shown| <= |Drop(stream, BackgroundReads)|
    ensures |stream| <= BackgroundReads ==>
      s == Session([], ReadFailed, Captured(ReadAt(stream, BackgroundReads - 1)))
  {
    var (background, rest) := Capture(stream, BackgroundReads, None);
    Run(background, rest, keys, toHsv)
  }

  /** No key pressed reads as 255, which is neither ESC nor 'b'. */
  lemma NoKeyChangesNothing()
    ensures KeyCode(NoKey) == 255
  {
  }

  /**
    A capture whose last read fails leaves no background, however many good
    frames came before it; the next processed frame then fails.
   */
  lemma FailedLastCaptureReadLosesBackground(img: Image, raw: Image, key: int, toHsv: Image -> Image)
    requires KeepsShape(toHsv)
    ensures Capture(seq(BackgroundReads - 1, _ => Frame(img)) + [NoFrame], BackgroundReads, None).0 == None
    ensures Step(None, [Frame(raw)], key, toHsv) == Halt(Crashed(NoBackground), None)
  {
    var stream := seq(BackgroundReads - 1, _ => Frame(img)) + [NoFrame];
    assert ReadAt(stream, BackgroundReads - 1) == NoFrame;
  }
}
