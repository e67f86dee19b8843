/**
  Mask inversion and compositing: `cv2.bitwise_not` on the refined mask, the
  two masked copies `cv2.bitwise_and(src, src, mask=m)`, and their sum
  `cv2.addWeighted(cloak_part, 1, rest_part, 1, 0)`.
 */
module Compositor {
  import opened Grids
  import opened Outcomes

  /** Bits per channel value. */
  const ByteWidth: nat := 8

  function Pow2(w: nat): (p: nat)
    ensures p > 0
  {
    if w == 0 then 1 else 2 * Pow2(w - 1)
  }

  /** Bitwise conjunction of the low `w` bits of `x` and `y`, lowest bit first. */
  function AndBits(x: nat, y: nat, w: nat): nat {
    if w == 0 then 0
    else 2 * AndBits(x / 2, y / 2, w - 1) + (if x % 2 == 1 && y % 2 == 1 then 1 else 0)
  }

  /** Bitwise complement of the low `w` bits of `x`, lowest bit first. */
  function NotBits(x: nat, w: nat): nat {
    if w == 0 then 0
    else 2 * NotBits(x / 2, w - 1) + (1 - x % 2)
  }

  /** A conjunction of `w` bits fits in `w` bits. */
  lemma {:induction false} AndBitsBound(x: nat, y: nat, w: nat)
    ensures AndBits(x, y, w) < Pow2(w)
  {
    if w > 0 {
      AndBitsBound(x / 2, y / 2, w - 1);
    }
  }

  /** Complementing `w` bits of a `w`-bit value `x` gives `2^w - 1 - x`. */
  lemma {:induction false} NotBitsComplement(x: nat, w: nat)
    requires x < Pow2(w)
    ensures NotBits(x, w) == Pow2(w) - 1 - x
  {
    if w > 0 {
      NotBitsComplement(x / 2, w - 1);
    }
  }

  /** A `w`-bit value and-ed with itself is unchanged. */
  lemma {:induction false} AndBitsSelf(x: nat, w: nat)
    requires x < Pow2(w)
    ensures AndBits(x, x, w) == x
  {
    if w > 0 {
      AndBitsSelf(x / 2, w - 1);
    }
  }

  /** Bitwise complement of an 8-bit value. */
  function BitNot(x: byte): byte {
    NotBitsComplement(x, ByteWidth);
    NotBits(x, ByteWidth)
  }

  /** Bitwise conjunction of two 8-bit values. */
  function BitAnd(x: byte, y: byte): byte {
    AndBitsBound(x, y, ByteWidth);
    AndBits(x, y, ByteWidth)
  }

  /** A value and-ed with itself is unchanged, so `bitwise_and(src, src)` copies `src`. */
  lemma BitAndSelf(x: byte)
    ensures BitAnd(x, x) == x
  {
    AndBitsSelf(x, ByteWidth);
  }

  /** `cv2.bitwise_not` on a mask. */
  function Invert(m: Mask): (inv: Mask)
    ensures SameShape(inv, m)
  {
    seq(|m|, r requires 0 <= r < |m| =>
      seq(|m[r]|, c requires 0 <= c < |m[r]| => BitNot(m[r][c])))
  }

  /** The complement of an 8-bit value is 255 minus it. */
  lemma BitNotIsComplement(x: byte)
    ensures BitNot(x) == 255 - x
  {
    NotBitsComplement(x, ByteWidth);
  }

  /** Inverting twice restores the mask. */
  lemma InvertInvolution(m: Mask)
    ensures Invert(Invert(m)) == m
  {
    var i := Invert(m);
    forall r | 0 <= r < |m|
      ensures Invert(i)[r] == m[r]
    {
      forall c | 0 <= c < |m[r]|
        ensures Invert(i)[r][c] == m[r][c]
      {
        BitNotIsComplement(m[r][c]);
        BitNotIsComplement(i[r][c]);
      }
    }
  }

  /**
    On a binary mask inversion is the complement: the inverse is binary and
    every pixel is selected in exactly one of the mask and its inverse.
   */
  lemma InvertPartition(m: Mask)
    requires IsBinary(m)
    ensures IsBinary(Invert(m))
    ensures forall r, c :: InGrid(m, r, c) ==> (Invert(m)[r][c] == 255 <==> m[r][c] == 0)
  {
    forall r, c | InGrid(m, r, c)
      ensures Invert(m)[r][c] == 255 - m[r][c]
    {
      BitNotIsComplement(m[r][c]);
    }
  }

  function PixelAnd(p: Pixel, q: Pixel): Pixel {
    Pixel(BitAnd(p.c0, q.c0), BitAnd(p.c1, q.c1), BitAnd(p.c2, q.c2))
  }

  /** `cv2.bitwise_and(src, src, mask=m)`: `src & src` where `m` is non-zero, black elsewhere. */
  function MaskedCopy(src: Image, m: Mask): (out: Image)
    requires SameShape(src, m)
    ensures SameShape(out, src)
    ensures forall r, c :: InGrid(m, r, c) ==> out[r][c] == (if m[r][c] != 0 then src[r][c] else Black)
  {
    assert forall p: Pixel :: PixelAnd(p, p) == p by {
      forall p: Pixel ensures PixelAnd(p, p) == p {
        BitAndSelf(p.c0);
        BitAndSelf(p.c1);
        BitAndSelf(p.c2);
      }
    }
    seq(|src|, r requires 0 <= r < |src| =>
      seq(|src[r]|, c requires 0 <= c < |src[r]| =>
        if m[r][c] != 0 then PixelAnd(src[r][c], src[r][c]) else Black))
  }

  /** `saturate_cast<uchar>(a + b)`: the sum, clipped to 255. */
  function SatAdd(a: byte, b: byte): byte {
    if a + b <= 255 then a + b else 255
  }

  function PixelSatAdd(p: Pixel, q: Pixel): Pixel {
    Pixel(SatAdd(p.c0, q.c0), SatAdd(p.c1, q.c1), SatAdd(p.c2, q.c2))
  }

  /** `cv2.addWeighted(x, 1, y, 1, 0)` on two equally shaped images. */
  function AddImages(x: Image, y: Image): (out: Image)
    requires SameShape(x, y)
    ensures SameShape(out, x)
  {
    seq(|x|, r requires 0 <= r < |x| =>
      seq(|x[r]|, c requires 0 <= c < |x[r]| => PixelSatAdd(x[r][c], y[r][c])))
  }

  /**
    One output pixel of the composite: the background channel kept where the
    mask value is non-zero, the frame kept where its complement is non-zero,
    and the two parts added with clipping.
   */
  function Mix(b: Pixel, f: Pixel, m: byte): Pixel {
    PixelSatAdd(if m != 0 then b else Black, if BitNot(m) != 0 then f else Black)
  }

  /** A full mask value shows the background, an empty one the frame, any other both, clipped. */
  lemma MixCases(b: Pixel, f: Pixel, m: byte)
    ensures m == 255 ==> Mix(b, f, m) == b
    ensures m == 0 ==> Mix(b, f, m) == f
    ensures 0 < m < 255 ==> Mix(b, f, m) == PixelSatAdd(b, f)
  {
    BitNotIsComplement(m);
  }

  /** The composite of equally shaped inputs, pixel by pixel. */
  function Blend(background: Image, frame: Image, mask: Mask): (out: Image)
    requires SameShape(background, mask) && SameShape(frame, mask)
    ensures SameShape(out, mask)
    ensures forall i, j :: InGrid(mask, i, j) ==> out[i][j] == Mix(background[i][j], frame[i][j], mask[i][j])
  {
    var inv := Invert(mask);
    SameShapeTrans(frame, mask, inv);
    var cloakPart := MaskedCopy(background, mask);
    var restPart := MaskedCopy(frame, inv);
    SameShapeTrans(cloakPart, background, mask);
    SameShapeTrans(cloakPart, mask, restPart);
    var out := AddImages(cloakPart, restPart);
    SameShapeTrans(out, cloakPart, mask);
    out
  }

  datatype CompositeError = DimensionMismatch

  /**
    The cloak composite. OpenCV refuses masks and images of different sizes,
    so the result is an error exactly when the shapes disagree. Otherwise a
    pixel shows the background where the mask is 255 and the frame where it
    is 0; an intermediate mask value keeps both and adds them with clipping.
   */
  function Composite(background: Image, frame: Image, mask: Mask): (r: Result<Image, CompositeError>)
    ensures r.Failure? <==> !(SameShape(background, mask) && SameShape(frame, mask))
    ensures r.Success? ==>
      && SameShape(r.value, mask)
      && (forall i, j :: InGrid(mask, i, j) && mask[i][j] == 255 ==> r.value[i][j] == background[i][j])
      && (forall i, j :: InGrid(mask, i, j) && mask[i][j] == 0 ==> r.value[i][j] == frame[i][j])
      && (forall i, j :: InGrid(mask, i, j) && 0 < mask[i][j] < 255 ==>
            r.value[i][j] == PixelSatAdd(background[i][j], frame[i][j]))
  {
    if !(SameShape(background, mask) && SameShape(frame, mask)) then
      Failure(DimensionMismatch)
    else
      var out := Blend(background, frame, mask);
      assert forall i, j | InGrid(mask, i, j) ::
        && (mask[i][j] == 255 ==> out[i][j] == background[i][j])
        && (mask[i][j] == 0 ==> out[i][j] == frame[i][j])
        && (0 < mask[i][j] < 255 ==> out[i][j] == PixelSatAdd(background[i][j], frame[i][j])) by {
        forall i, j | InGrid(mask, i, j)
          ensures mask[i][j] == 255 ==> out[i][j] == background[i][j]
          ensures mask[i][j] == 0 ==> out[i][j] == frame[i][j]
          ensures 0 < mask[i][j] < 255 ==> out[i][j] == PixelSatAdd(background[i][j], frame[i][j])
        {
          MixCases(background[i][j], frame[i][j], mask[i][j]);
        }
      }
      Success(out)
  }

  /**
    With a binary mask one of the two masked parts is black at every pixel,
    so the saturating sum never has anything to clip.
   */
  lemma CompositeNeverClips(background: Image, frame: Image, mask: Mask, i: int, j: int)
    requires SameShape(background, mask) && SameShape(frame, mask) && IsBinary(mask)
    requires InGrid(mask, i, j)
    ensures SameShape(frame, Invert(mask))
    ensures MaskedCopy(background, mask)[i][j] == Black || MaskedCopy(frame, Invert(mask))[i][j] == Black
    ensures var p, q := MaskedCopy(background, mask)[i][j], MaskedCopy(frame, Invert(mask))[i][j];
      p.c0 + q.c0 <= 255 && p.c1 + q.c1 <= 255 && p.c2 + q.c2 <= 255
  {
    SameShapeTrans(frame, mask, Invert(mask));
    InvertPartition(mask);
  }

  /** Same-shaped images, binary mask: each output pixel is the background's or the frame's. */
  lemma CompositeSelects(background: Image, frame: Image, mask: Mask)
    requires SameShape(background, mask) && SameShape(frame, mask) && IsBinary(mask)
    ensures Composite(background, frame, mask).Success?
    ensures forall i, j :: InGrid(mask, i, j) ==>
      Composite(background, frame, mask).value[i][j] == if mask[i][j] == 255 then background[i][j] else frame[i][j]
  {
  }

  /** An all-zero mask yields the frame exactly. */
  lemma CompositeEmptyMask(background: Image, frame: Image, mask: Mask)
    requires SameShape(background, mask) && SameShape(frame, mask)
    requires forall i, j :: InGrid(mask, i, j) ==> mask[i][j] == 0
    ensures Composite(background, frame, mask) == Success(frame)
  {
    var r := Composite(background, frame, mask);
    assert r.Success?;
    var out := r.value;
    assert SameShape(out, frame) by {
      SameShapeTrans(out, mask, frame);
    }
    forall i | 0 <= i < |frame|
      ensures out[i] == frame[i]
    {
      assert |out[i]| == |frame[i]|;
      forall j | 0 <= j < |frame[i]|
        ensures out[i][j] == frame[i][j]
      {
        assert InGrid(mask, i, j);
      }
    }
    assert out == frame;
  }

  /** An all-255 mask yields the background exactly. */
  lemma CompositeFullMask(background: Image, frame: Image, mask: Mask)
    requires SameShape(background, mask) && SameShape(frame, mask)
    requires forall i, j :: InGrid(mask, i, j) ==> mask[i][j] == 255
    ensures Composite(background, frame, mask) == Success(background)
  {
    var r := Composite(background, frame, mask);
    assert r.Success?;
    var out := r.value;
    assert SameShape(out, background) by {
      SameShapeTrans(out, mask, background);
    }
    forall i | 0 <= i < |background|
      ensures out[i] == background[i]
    {
      assert |out[i]| == |background[i]|;
      forall j | 0 <= j < |background[i]|
        ensures out[i][j] == background[i][j]
      {
        assert InGrid(mask, i, j);
      }
    }
    assert out == background;
  }

  /** When background and frame are the same image, any binary mask yields that image. */
  lemma CompositeSameImage(img: Image, mask: Mask)
    requires SameShape(img, mask) && IsBinary(mask)
    ensures Composite(img, img, mask) == Success(img)
  {
    var r := Composite(img, img, mask);
    assert r.Success?;
    var out := r.value;
    assert SameShape(out, img) by {
      SameShapeTrans(out, mask, img);
    }
    forall i | 0 <= i < |img|
      ensures out[i] == img[i]
    {
      assert |out[i]| == |img[i]|;
      forall j | 0 <= j < |img[i]|
        ensures out[i][j] == img[i][j]
      {
        assert InGrid(mask, i, j);
      }
    }
    assert out == img;
  }

  /** A 2x2 background and a 1x1 frame cannot be composited. */
  lemma CompositeMismatchScenario(p: Pixel, q: Pixel)
    ensures Composite([[p, p], [p, p]], [[q]], [[0]]).Failure?
  {
    assert !SameShape([[p, p], [p, p]], [[0]]);
  }
}
