/**
  Shared vocabulary of the pipeline: unsigned 8-bit channel values, three-channel
  pixels, and two-dimensional grids of either, stored row by row.
 */
module Grids {

  /** An unsigned 8-bit value (numpy `uint8`), the element type of every image and mask. */
  type byte = x: int | 0 <= x < 256

  /** A three-channel pixel: B, G, R for camera frames, H, S, V after conversion. */
  datatype Pixel = Pixel(c0: byte, c1: byte, c2: byte)

  /** The all-zero pixel that masked-out positions receive. */
  const Black: Pixel := Pixel(0, 0, 0)

  /** A grid is a sequence of rows; row `r`, column `c` is `g[r][c]`. */
  type Grid<T> = seq<seq<T>>

  type Image = Grid<Pixel>

  /** A single-channel mask; 255 means "selected", 0 means "not selected". */
  type Mask = Grid<byte>

  predicate InGrid<T>(g: Grid<T>, r: int, c: int) {
    0 <= r < |g| && 0 <= c < |g[r]|
  }

  /** Same number of rows, and row for row the same length. */
  predicate SameShape<A, B>(a: Grid<A>, b: Grid<B>) {
    |a| == |b| && forall r :: 0 <= r < |a| ==> |a[r]| == |b[r]|
  }

  /** A mask whose every value is 0 or 255. */
  ghost predicate IsBinary(m: Mask) {
    forall r, c :: InGrid(m, r, c) ==> m[r][c] == 0 || m[r][c] == 255
  }

  /** Pointwise order on masks; on binary masks it is the subset order of selected pixels. */
  ghost predicate Le(a: Mask, b: Mask) {
    SameShape(a, b) && forall r, c :: InGrid(a, r, c) ==> a[r][c] <= b[r][c]
  }

  function Min(a: byte, b: byte): byte {
    if a <= b then a else b
  }

  function Max(a: byte, b: byte): byte {
    if a <= b then b else a
  }

  lemma SameShapeSym<A, B>(a: Grid<A>, b: Grid<B>)
    requires SameShape(a, b)
    ensures SameShape(b, a)
  {
  }

  lemma SameShapeTrans<A, B, C>(a: Grid<A>, b: Grid<B>, c: Grid<C>)
    requires SameShape(a, b) && SameShape(b, c)
    ensures SameShape(a, c)
  {
    forall r | 0 <= r < |a|
      ensures |a[r]| == |c[r]|
    {
      assert |a[r]| == |b[r]|;
    }
  }

  lemma LeRefl(g: Mask)
    ensures Le(g, g)
  {
  }

  lemma LeTrans(a: Mask, b: Mask, c: Mask)
    requires Le(a, b) && Le(b, c)
    ensures Le(a, c)
  {
    SameShapeTrans(a, b, c);
    forall r, c' | InGrid(a, r, c')
      ensures a[r][c'] <= c[r][c']
    {
      assert InGrid(b, r, c');
    }
  }

  /** Two masks below each other are equal: `Le` is antisymmetric. */
  lemma LeAntisymmetric(a: Mask, b: Mask)
    requires Le(a, b) && Le(b, a)
    ensures a == b
  {
    forall r | 0 <= r < |a|
      ensures a[r] == b[r]
    {
      assert |a[r]| == |b[r]|;
      forall c | 0 <= c < |a[r]|
        ensures a[r][c] == b[r][c]
      {
        assert InGrid(a, r, c) && InGrid(b, r, c);
      }
    }
  }
}
