/**
  Mask refinement: erosion and dilation with the 3x3 all-ones kernel, the
  opening `cv2.morphologyEx(m, MORPH_OPEN, kernel, iterations=2)` and the
  final `cv2.dilate(m, kernel, iterations=1)`.

  Border assumption: neighbours outside the grid are ignored. Erosion pads
  with 255 and dilation pads with 0, so a missing neighbour never decides
  the minimum or the maximum.
 */
module Morphology {
  import opened Grids

  const OpenIterations: nat := 2
  const FinalDilations: nat := 1

  /** (r2, c2) lies in the 3x3 square centred on (r, c). The relation is symmetric. */
  predicate Near(r: int, c: int, r2: int, c2: int) {
    -1 <= r2 - r <= 1 && -1 <= c2 - c <= 1
  }

  /** The value at (r, c), or `pad` outside the grid. */
  function Cell(g: Mask, r: int, c: int, pad: byte): byte {
    if InGrid(g, r, c) then g[r][c] else pad
  }

  /** The nine offsets of the 3x3 all-ones kernel, anchored at its centre. */
  const Kernel: seq<(int, int)> :=
    [(-1, -1), (-1, 0), (-1, 1), (0, -1), (0, 0), (0, 1), (1, -1), (1, 0), (1, 1)]

  /** Where the offset (dr, dc) sits in `Kernel`. */
  function KernelIndex(dr: int, dc: int): (i: nat)
    requires -1 <= dr <= 1 && -1 <= dc <= 1
    ensures i < |Kernel| && Kernel[i] == (dr, dc)
  {
    3 * (dr + 1) + (dc + 1)
  }

  /** Minimum over the first `k` kernel positions around (r, c); outside the grid counts as 255. */
  function MinOver(g: Mask, r: int, c: int, k: nat): byte
    requires k <= |Kernel|
  {
    if k == 0 then 255
    else Min(Cell(g, r + Kernel[k - 1].0, c + Kernel[k - 1].1, 255), MinOver(g, r, c, k - 1))
  }

  /** Maximum over the first `k` kernel positions around (r, c); outside the grid counts as 0. */
  function MaxOver(g: Mask, r: int, c: int, k: nat): byte
    requires k <= |Kernel|
  {
    if k == 0 then 0
    else Max(Cell(g, r + Kernel[k - 1].0, c + Kernel[k - 1].1, 0), MaxOver(g, r, c, k - 1))
  }

  /** One erosion pass: each value becomes the minimum of its 3x3 neighbourhood. */
  function Erode(g: Mask): (e: Mask)
    ensures SameShape(e, g)
  {
    seq(|g|, r requires 0 <= r < |g| =>
      seq(|g[r]|, c requires 0 <= c < |g[r]| => MinOver(g, r, c, |Kernel|)))
  }

  /** One dilation pass: each value becomes the maximum of its 3x3 neighbourhood. */
  function Dilate(g: Mask): (d: Mask)
    ensures SameShape(d, g)
  {
    seq(|g|, r requires 0 <= r < |g| =>
      seq(|g[r]|, c requires 0 <= c < |g[r]| => MaxOver(g, r, c, |Kernel|)))
  }

  /** `n` erosion passes, the last one outermost. */
  function ErodeTimes(g: Mask, n: nat): (e: Mask)
    ensures SameShape(e, g)
  {
    if n == 0 then g
    else
      var prev := ErodeTimes(g, n - 1);
      SameShapeTrans(Erode(prev), prev, g);
      Erode(prev)
  }

  /** `n` dilation passes, the first one innermost. */
  function DilateTimes(g: Mask, n: nat): (d: Mask)
    ensures SameShape(d, g)
    decreases n
  {
    if n == 0 then g
    else
      var d := DilateTimes(Dilate(g), n - 1);
      SameShapeTrans(d, Dilate(g), g);
      d
  }

  /** Opening with `n` iterations: `n` erosions followed by `n` dilations. */
  function Opening(g: Mask, n: nat): (o: Mask)
    ensures SameShape(o, g)
  {
    var e := ErodeTimes(g, n);
    var o := DilateTimes(e, n);
    SameShapeTrans(o, e, g);
    o
  }

  /** The whole refinement step: opening with two iterations, then one more dilation. */
  function Refine(g: Mask): (m: Mask)
    ensures SameShape(m, g)
  {
    var o := Opening(g, OpenIterations);
    var m := DilateTimes(o, FinalDilations);
    SameShapeTrans(m, o, g);
    m
  }

  // The folds over the kernel: bounds on a running minimum or maximum, and binary values.

  lemma {:induction false} MinOverBelow(g: Mask, r: int, c: int, k: nat, i: nat)
    requires i < k <= |Kernel|
    ensures MinOver(g, r, c, k) <= Cell(g, r + Kernel[i].0, c + Kernel[i].1, 255)
  {
    if i < k - 1 {
      MinOverBelow(g, r, c, k - 1, i);
    }
  }

  lemma {:induction false} MinOverGreatest(g: Mask, r: int, c: int, k: nat, v: int)
    requires k <= |Kernel| && v <= 255
    requires forall i :: 0 <= i < k ==> v <= Cell(g, r + Kernel[i].0, c + Kernel[i].1, 255)
    ensures v <= MinOver(g, r, c, k)
  {
    if k > 0 {
      MinOverGreatest(g, r, c, k - 1, v);
    }
  }

  lemma {:induction false} MaxOverAbove(g: Mask, r: int, c: int, k: nat, i: nat)
    requires i < k <= |Kernel|
    ensures Cell(g, r + Kernel[i].0, c + Kernel[i].1, 0) <= MaxOver(g, r, c, k)
  {
    if i < k - 1 {
      MaxOverAbove(g, r, c, k - 1, i);
    }
  }

  lemma {:induction false} MaxOverLeast(g: Mask, r: int, c: int, k: nat, v: int)
    requires k <= |Kernel| && 0 <= v
    requires forall i :: 0 <= i < k ==> Cell(g, r + Kernel[i].0, c + Kernel[i].1, 0) <= v
    ensures MaxOver(g, r, c, k) <= v
  {
    if k > 0 {
      MaxOverLeast(g, r, c, k - 1, v);
    }
  }

  lemma {:induction false} MinOverBinary(g: Mask, r: int, c: int, k: nat)
    requires k <= |Kernel| && IsBinary(g)
    ensures MinOver(g, r, c, k) == 0 || MinOver(g, r, c, k) == 255
  {
    if k > 0 {
      MinOverBinary(g, r, c, k - 1);
    }
  }

  lemma {:induction false} MaxOverBinary(g: Mask, r: int, c: int, k: nat)
    requires k <= |Kernel| && IsBinary(g)
    ensures MaxOver(g, r, c, k) == 0 || MaxOver(g, r, c, k) == 255
  {
    if k > 0 {
      MaxOverBinary(g, r, c, k - 1);
    }
  }

  /** Every kernel offset moves at most one row and one column. */
  lemma KernelIsNear(r: int, c: int, i: nat)
    requires i < |Kernel|
    ensures Near(r, c, r + Kernel[i].0, c + Kernel[i].1)
  {
  }

  // Erosion is the neighbourhood minimum and dilation the neighbourhood maximum.

  lemma ErodeBelow(g: Mask, r: int, c: int, r2: int, c2: int)
    requires InGrid(g, r, c) && InGrid(g, r2, c2) && Near(r, c, r2, c2)
    ensures Erode(g)[r][c] <= g[r2][c2]
  {
    MinOverBelow(g, r, c, |Kernel|, KernelIndex(r2 - r, c2 - c));
  }

  lemma ErodeGreatest(g: Mask, r: int, c: int, v: int)
    requires InGrid(g, r, c)
    requires forall r2, c2 :: InGrid(g, r2, c2) && Near(r, c, r2, c2) ==> v <= g[r2][c2]
    ensures v <= Erode(g)[r][c]
  {
    forall i | 0 <= i < |Kernel|
      ensures v <= Cell(g, r + Kernel[i].0, c + Kernel[i].1, 255)
    {
      KernelIsNear(r, c, i);
    }
    assert v <= g[r][c];
    MinOverGreatest(g, r, c, |Kernel|, v);
  }

  lemma DilateAbove(g: Mask, r: int, c: int, r2: int, c2: int)
    requires InGrid(g, r, c) && InGrid(g, r2, c2) && Near(r, c, r2, c2)
    ensures g[r2][c2] <= Dilate(g)[r][c]
  {
    MaxOverAbove(g, r, c, |Kernel|, KernelIndex(r2 - r, c2 - c));
  }

  lemma DilateLeast(g: Mask, r: int, c: int, v: int)
    requires InGrid(g, r, c)
    requires forall r2, c2 :: InGrid(g, r2, c2) && Near(r, c, r2, c2) ==> g[r2][c2] <= v
    ensures Dilate(g)[r][c] <= v
  {
    forall i | 0 <= i < |Kernel|
      ensures Cell(g, r + Kernel[i].0, c + Kernel[i].1, 0) <= v
    {
      KernelIsNear(r, c, i);
    }
    assert 0 <= g[r][c] <= v;
    MaxOverLeast(g, r, c, |Kernel|, v);
  }

  // Binary masks stay binary: a minimum or maximum of 0s and 255s is 0 or 255.

  lemma ErodeBinary(g: Mask)
    requires IsBinary(g)
    ensures IsBinary(Erode(g))
  {
    forall r, c | InGrid(Erode(g), r, c)
      ensures Erode(g)[r][c] == 0 || Erode(g)[r][c] == 255
    {
      MinOverBinary(g, r, c, |Kernel|);
    }
  }

  lemma DilateBinary(g: Mask)
    requires IsBinary(g)
    ensures IsBinary(Dilate(g))
  {
    forall r, c | InGrid(Dilate(g), r, c)
      ensures Dilate(g)[r][c] == 0 || Dilate(g)[r][c] == 255
    {
      MaxOverBinary(g, r, c, |Kernel|);
    }
  }

  lemma {:induction false} ErodeTimesBinary(g: Mask, n: nat)
    requires IsBinary(g)
    ensures IsBinary(ErodeTimes(g, n))
  {
    if n > 0 {
      ErodeTimesBinary(g, n - 1);
      ErodeBinary(ErodeTimes(g, n - 1));
    }
  }

  lemma {:induction false} DilateTimesBinary(g: Mask, n: nat)
    requires IsBinary(g)
    ensures IsBinary(DilateTimes(g, n))
    decreases n
  {
    if n > 0 {
      DilateBinary(g);
      DilateTimesBinary(Dilate(g), n - 1);
    }
  }

  /** Refinement keeps the grid's shape and keeps every mask value in {0, 255}. */
  lemma RefineBinary(g: Mask)
    requires IsBinary(g)
    ensures SameShape(Refine(g), g) && IsBinary(Refine(g))
  {
    var e := ErodeTimes(g, OpenIterations);
    ErodeTimesBinary(g, OpenIterations);
    DilateTimesBinary(e, OpenIterations);
    DilateTimesBinary(Opening(g, OpenIterations), FinalDilations);
  }

  // Monotonicity and the adjunction between erosion and dilation.

  lemma ErodeMonotone(a: Mask, b: Mask)
    requires Le(a, b)
    ensures Le(Erode(a), Erode(b))
  {
    SameShapeTrans(Erode(a), a, b);
    SameShapeTrans(Erode(a), b, Erode(b));
    forall r, c | InGrid(Erode(a), r, c)
      ensures Erode(a)[r][c] <= Erode(b)[r][c]
    {
      forall r2, c2 | InGrid(b, r2, c2) && Near(r, c, r2, c2)
        ensures Erode(a)[r][c] <= b[r2][c2]
      {
        assert InGrid(a, r2, c2);
        ErodeBelow(a, r, c, r2, c2);
      }
      ErodeGreatest(b, r, c, Erode(a)[r][c]);
    }
  }

  lemma DilateMonotone(a: Mask, b: Mask)
    requires Le(a, b)
    ensures Le(Dilate(a), Dilate(b))
  {
    SameShapeTrans(Dilate(a), a, b);
    SameShapeTrans(Dilate(a), b, Dilate(b));
    forall r, c | InGrid(Dilate(a), r, c)
      ensures Dilate(a)[r][c] <= Dilate(b)[r][c]
    {
      forall r2, c2 | InGrid(a, r2, c2) && Near(r, c, r2, c2)
        ensures a[r2][c2] <= Dilate(b)[r][c]
      {
        assert InGrid(b, r2, c2);
        DilateAbove(b, r, c, r2, c2);
      }
      DilateLeast(a, r, c, Dilate(b)[r][c]);
    }
  }

  /** Dilating an erosion never exceeds the original: one-pass opening is anti-extensive. */
  lemma DilateErodeBelow(g: Mask)
    ensures Le(Dilate(Erode(g)), g)
  {
    var e := Erode(g);
    SameShapeTrans(Dilate(e), e, g);
    forall r, c | InGrid(g, r, c)
      ensures Dilate(e)[r][c] <= g[r][c]
    {
      forall r2, c2 | InGrid(e, r2, c2) && Near(r, c, r2, c2)
        ensures e[r2][c2] <= g[r][c]
      {
        ErodeBelow(g, r2, c2, r, c);
      }
      DilateLeast(e, r, c, g[r][c]);
    }
  }

  /** Eroding a dilation never goes below the original: one-pass closing is extensive. */
  lemma ErodeDilateAbove(g: Mask)
    ensures Le(g, Erode(Dilate(g)))
  {
    var d := Dilate(g);
    SameShapeTrans(g, d, Erode(d));
    forall r, c | InGrid(g, r, c)
      ensures g[r][c] <= Erode(d)[r][c]
    {
      forall r2, c2 | InGrid(d, r2, c2) && Near(r, c, r2, c2)
        ensures g[r][c] <= d[r2][c2]
      {
        DilateAbove(g, r2, c2, r, c);
      }
      ErodeGreatest(d, r, c, g[r][c]);
    }
  }

  // The same facts for iterated passes.

  lemma {:induction false} ErodeTimesMonotone(a: Mask, b: Mask, n: nat)
    requires Le(a, b)
    ensures Le(ErodeTimes(a, n), ErodeTimes(b, n))
  {
    if n > 0 {
      ErodeTimesMonotone(a, b, n - 1);
      ErodeMonotone(ErodeTimes(a, n - 1), ErodeTimes(b, n - 1));
    }
  }

  lemma {:induction false} DilateTimesMonotone(a: Mask, b: Mask, n: nat)
    requires Le(a, b)
    ensures Le(DilateTimes(a, n), DilateTimes(b, n))
    decreases n
  {
    if n > 0 {
      DilateMonotone(a, b);
      DilateTimesMonotone(Dilate(a), Dilate(b), n - 1);
    }
  }

  /** One pass of the adjunction: a mask below the erosion of `z` dilates to a mask below `z`. */
  lemma DilateBelowIfUnderErode(x: Mask, z: Mask)
    requires Le(x, Erode(z))
    ensures Le(Dilate(x), z)
  {
    DilateMonotone(x, Erode(z));
    DilateErodeBelow(z);
    LeTrans(Dilate(x), Dilate(Erode(z)), z);
  }

  /**
    Dilation and erosion form an adjunction for any number of passes: a mask
    below `n` erosions of `y` dilates `n` times to a mask below `y`.
   */
  lemma {:induction false} DilateTimesBelowIfUnderErodeTimes(x: Mask, y: Mask, n: nat)
    requires Le(x, ErodeTimes(y, n))
    ensures Le(DilateTimes(x, n), y)
    decreases n
  {
    if n > 0 {
      DilateBelowIfUnderErode(x, ErodeTimes(y, n - 1));
      DilateTimesBelowIfUnderErodeTimes(Dilate(x), y, n - 1);
    }
  }

  /** Opening with any number of iterations is anti-extensive: it only removes selected pixels. */
  lemma OpeningBelow(g: Mask, n: nat)
    ensures Le(Opening(g, n), g)
  {
    LeRefl(ErodeTimes(g, n));
    DilateTimesBelowIfUnderErodeTimes(ErodeTimes(g, n), g, n);
  }

  /** Closing with any number of iterations is extensive. */
  lemma {:induction false} ClosingAbove(g: Mask, n: nat)
    ensures Le(g, ErodeTimes(DilateTimes(g, n), n))
    decreases n
  {
    if n == 0 {
      LeRefl(g);
    } else {
      var d := Dilate(g);
      // ErodeTimes(DilateTimes(g, n), n) == Erode(ErodeTimes(DilateTimes(d, n - 1), n - 1))
      ClosingAbove(d, n - 1);
      ErodeMonotone(d, ErodeTimes(DilateTimes(d, n - 1), n - 1));
      ErodeDilateAbove(g);
      LeTrans(g, Erode(d), ErodeTimes(DilateTimes(g, n), n));
    }
  }

  /** Opening is idempotent: opening an opened mask changes nothing. */
  lemma OpeningIdempotent(g: Mask, n: nat)
    ensures Opening(Opening(g, n), n) == Opening(g, n)
  {
    var e := ErodeTimes(g, n);
    var o := Opening(g, n);
    // Eroding the opening gives back the erosion: ErodeTimes(o, n) == e.
    OpeningBelow(g, n);
    ErodeTimesMonotone(o, g, n);
    ClosingAbove(e, n);
    LeAntisymmetric(ErodeTimes(o, n), e);
  }

  /** The final dilation only adds pixels: everything the opening kept is still selected. */
  lemma RefineAboveOpening(g: Mask)
    ensures Le(Opening(g, OpenIterations), Refine(g))
  {
    DilateExtensive(Opening(g, OpenIterations));
  }

  /** Dilation is extensive: every pixel is part of its own neighbourhood. */
  lemma DilateExtensive(g: Mask)
    ensures Le(g, Dilate(g))
  {
    forall r, c | InGrid(g, r, c)
      ensures g[r][c] <= Dilate(g)[r][c]
    {
      DilateAbove(g, r, c, r, c);
    }
  }

  /**
    A selected pixel whose 8 neighbours are all unselected is removed by the
    opening. It needs at least one neighbour inside the grid (`rn`, `cn`): in
    a 1x1 grid the pixel is its own whole neighbourhood and survives.
   */
  lemma IsolatedPixelRemoved(m: Mask, r: int, c: int, rn: int, cn: int)
    requires InGrid(m, r, c) && m[r][c] == 255
    requires forall r2, c2 :: InGrid(m, r2, c2) && Near(r, c, r2, c2) && (r2 != r || c2 != c) ==> m[r2][c2] == 0
    requires InGrid(m, rn, cn) && Near(r, c, rn, cn) && (rn != r || cn != c)
    ensures Opening(m, OpenIterations)[r][c] == 0
  {
    var e1 := Erode(m);
    var e2 := Erode(e1);
    var d1 := Dilate(e2);
    var d2 := Dilate(d1);
    assert ErodeTimes(m, 1) == e1;
    assert ErodeTimes(m, 2) == e2;
    assert DilateTimes(e2, 2) == d2;
    // Every neighbour of (r, c) is eroded to 0.
    forall s, t | InGrid(m, s, t) && Near(r, c, s, t)
      ensures e1[s][t] == 0
    {
      if s == r && t == c {
        ErodeBelow(m, r, c, rn, cn);
      } else {
        ErodeBelow(m, s, t, s, t);
      }
    }
    // Hence d1 is 0 on every neighbour of (r, c).
    forall s, t | InGrid(d1, s, t) && Near(r, c, s, t)
      ensures d1[s][t] <= 0
    {
      forall s2, t2 | InGrid(e2, s2, t2) && Near(s, t, s2, t2)
        ensures e2[s2][t2] <= 0
      {
        ErodeBelow(e1, s2, t2, s, t);
      }
      DilateLeast(e2, s, t, 0);
    }
    DilateLeast(d1, r, c, 0);
  }

  /** The exception: a lone pixel filling a 1x1 grid survives the opening. */
  lemma LonePixelSurvives()
    ensures Opening([[255]], OpenIterations) == [[255]]
  {
    var g: Mask := [[255]];
    ErodeGreatest(g, 0, 0, 255);
    DilateAbove(g, 0, 0, 0, 0);
    assert Erode(g)[0] == g[0] && Dilate(g)[0] == g[0];
    assert Erode(g) == g;
    assert Dilate(g) == g;
    assert ErodeTimes(g, 1) == g;
    assert ErodeTimes(g, 2) == g;
    assert DilateTimes(g, 2) == g;
  }
}
