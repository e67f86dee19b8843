/** The horizontal flip `cv2.flip(img, 1)` applied to every captured frame. */
module Mirror {
  import opened Grids

  /** Mirrors every row about the vertical axis: column `c` moves to column `W - 1 - c`. */
  function Flip<T>(g: Grid<T>): (f: Grid<T>)
    ensures SameShape(f, g)
    ensures forall r, c :: InGrid(g, r, c) ==> f[r][|g[r]| - 1 - c] == g[r][c]
  {
    seq(|g|, r requires 0 <= r < |g| =>
      seq(|g[r]|, c requires 0 <= c < |g[r]| => g[r][|g[r]| - 1 - c]))
  }

  /** Flipping twice gives back the original grid. */
  lemma FlipInvolution<T>(g: Grid<T>)
    ensures Flip(Flip(g)) == g
  {
    var f := Flip(g);
    forall r | 0 <= r < |g|
      ensures Flip(f)[r] == g[r]
    {
      forall c | 0 <= c < |g[r]|
        ensures Flip(f)[r][c] == g[r][c]
      {
        assert f[r][|g[r]| - 1 - c] == g[r][c];
      }
    }
  }
}
