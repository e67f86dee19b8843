/**
  Colour segmentation of an HSV image: `cv2.inRange` against two closed boxes
  covering red on both sides of the hue wrap-around, combined by numpy's
  8-bit addition.
 */
module Segmenter {
  import opened Grids

  /** A closed box of HSV triples, bounds inclusive per channel. */
  datatype Box = Box(lo: Pixel, hi: Pixel)

  predicate InBox(p: Pixel, b: Box) {
    && b.lo.c0 <= p.c0 <= b.hi.c0
    && b.lo.c1 <= p.c1 <= b.hi.c1
    && b.lo.c2 <= p.c2 <= b.hi.c2
  }

  /** Red just above hue 0. */
  const RedLow: Box := Box(Pixel(0, 120, 70), Pixel(10, 255, 255))

  /** Red just below the top of the hue axis. */
  const RedHigh: Box := Box(Pixel(170, 120, 70), Pixel(180, 255, 255))

  /** `cv2.inRange`: 255 where the pixel lies in the box, 0 elsewhere. */
  function InRange(img: Image, b: Box): (m: Mask)
    ensures SameShape(m, img) && IsBinary(m)
    ensures forall r, c :: InGrid(img, r, c) ==> (m[r][c] == 255 <==> InBox(img[r][c], b))
  {
    seq(|img|, r requires 0 <= r < |img| =>
      seq(|img[r]|, c requires 0 <= c < |img[r]| => if InBox(img[r][c], b) then 255 else 0))
  }

  /** numpy `uint8` addition, which wraps modulo 256. */
  function WrapAdd(a: byte, b: byte): byte {
    (a + b) % 256
  }

  /** Elementwise `m1 + m2` on two equally shaped `uint8` arrays. */
  function AddMasks(m1: Mask, m2: Mask): (m: Mask)
    requires SameShape(m1, m2)
    ensures SameShape(m, m1)
    ensures forall r, c :: InGrid(m1, r, c) ==>
      var sum := m1[r][c] as int + m2[r][c] as int;
      m[r][c] == if sum < 256 then sum else sum - 256
  {
    seq(|m1|, r requires 0 <= r < |m1| =>
      seq(|m1[r]|, c requires 0 <= c < |m1[r]| => WrapAdd(m1[r][c], m2[r][c])))
  }

  /** Pointwise maximum: on binary masks, the union of the selected pixels. */
  function Union(m1: Mask, m2: Mask): (m: Mask)
    requires SameShape(m1, m2)
    ensures SameShape(m, m1)
  {
    seq(|m1|, r requires 0 <= r < |m1| =>
      seq(|m1[r]|, c requires 0 <= c < |m1[r]| => Max(m1[r][c], m2[r][c])))
  }

  /**
    Segmentation against two boxes, combined the way the script combines them:
    a pixel in one box is 255, in neither 0, and in both 255 + 255 wrapped to 254.
   */
  function SegmentTwo(hsv: Image, b1: Box, b2: Box): (m: Mask)
    ensures SameShape(m, hsv)
    ensures forall r, c :: InGrid(hsv, r, c) ==>
      m[r][c] == if InBox(hsv[r][c], b1) && InBox(hsv[r][c], b2) then 254
                 else if InBox(hsv[r][c], b1) || InBox(hsv[r][c], b2) then 255
                 else 0
  {
    AddMasks(InRange(hsv, b1), InRange(hsv, b2))
  }

  /**
    The unrefined cloak mask: a pixel is selected exactly when it lies in one
    of the two red boxes, and every value is 0 or 255.
   */
  function CloakMask(hsv: Image): (m: Mask)
    ensures SameShape(m, hsv) && IsBinary(m)
    ensures forall r, c :: InGrid(hsv, r, c) ==>
      (m[r][c] == 255 <==> InBox(hsv[r][c], RedLow) || InBox(hsv[r][c], RedHigh))
  {
    var m := SegmentTwo(hsv, RedLow, RedHigh);
    assert forall r, c :: InGrid(hsv, r, c) ==> !(InBox(hsv[r][c], RedLow) && InBox(hsv[r][c], RedHigh));
    m
  }

  /** No HSV triple lies in both red boxes: their hue intervals [0,10] and [170,180] are disjoint. */
  lemma RedBoxesDisjoint(p: Pixel)
    ensures !(InBox(p, RedLow) && InBox(p, RedHigh))
  {
  }

  /**
    Adding two binary masks that are never both set does not wrap: the sum is
    their union, and it is binary again.
   */
  lemma DisjointSumIsUnion(m1: Mask, m2: Mask)
    requires SameShape(m1, m2) && IsBinary(m1) && IsBinary(m2)
    requires forall r, c :: InGrid(m1, r, c) ==> m1[r][c] == 0 || m2[r][c] == 0
    ensures AddMasks(m1, m2) == Union(m1, m2)
    ensures IsBinary(AddMasks(m1, m2))
  {
    var s, u := AddMasks(m1, m2), Union(m1, m2);
    forall r | 0 <= r < |m1|
      ensures s[r] == u[r]
    {
      forall c | 0 <= c < |m1[r]|
        ensures s[r][c] == u[r][c]
      {
        assert InGrid(m1, r, c) && InGrid(m2, r, c);
      }
    }
  }

  /** The cloak mask is the union of the two single-box masks. */
  lemma CloakMaskIsUnion(hsv: Image)
    ensures CloakMask(hsv) == Union(InRange(hsv, RedLow), InRange(hsv, RedHigh))
  {
    var m1, m2 := InRange(hsv, RedLow), InRange(hsv, RedHigh);
    forall r, c | InGrid(m1, r, c)
      ensures m1[r][c] == 0 || m2[r][c] == 0
    {
      RedBoxesDisjoint(hsv[r][c]);
    }
    DisjointSumIsUnion(m1, m2);
  }

  /**
    Why disjointness matters: a pixel inside two overlapping boxes would get
    255 + 255, which wraps to 254 rather than staying "selected" as 255.
   */
  lemma OverlappingBoxesWrap(hsv: Image, b1: Box, b2: Box, r: int, c: int)
    requires InGrid(hsv, r, c) && InBox(hsv[r][c], b1) && InBox(hsv[r][c], b2)
    ensures SegmentTwo(hsv, b1, b2)[r][c] == 254
  {
    assert InRange(hsv, b1)[r][c] == 255 && InRange(hsv, b2)[r][c] == 255;
  }

  /** Hue 175 (saturation and value 200) is red; hue 90 is not. */
  lemma RedScenario()
    ensures CloakMask([[Pixel(175, 200, 200), Pixel(90, 200, 200)]]) == [[255, 0]]
  {
    var img := [[Pixel(175, 200, 200), Pixel(90, 200, 200)]];
    var m := CloakMask(img);
    assert InGrid(img, 0, 0) && InGrid(img, 0, 1);
    assert m[0] == [255, 0];
  }
}
