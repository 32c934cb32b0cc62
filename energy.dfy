/** The per-pixel energy: the squared discrete gradient over the r, g and b
    channels, with neighbours taken around the grid as on a torus. */
module EnergyFunction {
  import opened PixelGrid

  /** The largest energy a grid with channels in [0, 255] can produce:
      six squared channel differences of at most 255 each. */
  const MaxEnergy := 390150

  /** The energy function reads one neighbour on each side, so both
      logical dimensions must be at least 2. */
  predicate Carvable(image: array2<Pixel>, width: int, height: int) {
    2 <= width <= image.Length0 && 2 <= height <= image.Length1
  }

  /** Channel-wise signed difference of two pixels. */
  datatype Delta = Delta(dr: int, dg: int, db: int)

  function Difference(p: Pixel, q: Pixel): Delta {
    Delta(p.r - q.r, p.g - q.g, p.b - q.b)
  }

  /** The square of a channel difference, written as a recursion on |a|
      (SquareIsProduct shows it is a * a); the recursion keeps the
      multiplication out of every proof that does not need it. */
  function Square(a: int): (s: int)
    ensures s >= 0
    ensures s == 0 <==> a == 0
    decreases if a < 0 then -a else a, if a < 0 then 1 else 0
  {
    if a < 0 then Square(-a)
    else if a == 0 then 0
    else Square(a - 1) + 2 * a - 1
  }

  lemma {:induction false} NaturalSquareIsProduct(a: nat)
    ensures Square(a) == a * a
  {
    if a > 0 {
      NaturalSquareIsProduct(a - 1);
      assert (a - 1) * (a - 1) == a * a - 2 * a + 1;
    }
  }

  lemma SquareIsProduct(a: int)
    ensures Square(a) == a * a
  {
    if a < 0 {
      NaturalSquareIsProduct(-a);
      assert (-a) * (-a) == a * a;
    } else {
      NaturalSquareIsProduct(a);
    }
  }

  /** Sum of the squares of the three channel differences. */
  function SquaredNorm(d: Delta): (s: int)
    ensures s >= 0
  {
    Square(d.dr) + Square(d.dg) + Square(d.db)
  }

  /** Arithmetic step kept apart from the squares, which would otherwise
      drag the solver into non-linear reasoning. */
  lemma SumOfNonNegativesIsZero(a: int, b: int)
    requires a >= 0 && b >= 0
    ensures a + b == 0 <==> a == 0 && b == 0
  {
  }

  lemma DifferenceIsZeroIffEqual(p: Pixel, q: Pixel)
    ensures SquaredNorm(Difference(p, q)) == 0 ==> p == q
    ensures p == q ==> SquaredNorm(Difference(p, q)) == 0
  {
    var d := Difference(p, q);
    var sr, sg, sb := Square(d.dr), Square(d.dg), Square(d.db);
    SumOfNonNegativesIsZero(sr, sg);
    SumOfNonNegativesIsZero(sr + sg, sb);
    assert d == Delta(0, 0, 0) <==> p == q;
  }

  /** The colour change across column `x` in row `y`, following the edge
      cases of the code: at column 0 the left neighbour is the last column,
      and at the last column the difference is taken between columns
      width-2 and 0. That is the wrap-around neighbour difference, next minus
      previous, except at the last column, where the order is reversed. */
  function HorizontalDelta(image: array2<Pixel>, x: int, y: int, width: int, height: int): (d: Delta)
    reads image
    requires Carvable(image, width, height)
    requires 0 <= x < width && 0 <= y < height
    ensures x != width - 1 ==> d == Difference(image[(x + 1) % width, y], image[(x - 1 + width) % width, y])
    ensures x == width - 1 ==> d == Difference(image[(x - 1 + width) % width, y], image[(x + 1) % width, y])
  {
    WrapIndices(x, width);
    if x == 0 then Difference(image[x + 1, y], image[width - 1, y])
    else if x == width - 1 then Difference(image[width - 2, y], image[0, y])
    else Difference(image[x + 1, y], image[x - 1, y])
  }

  /** The colour change across row `y` in column `x`, with the same edge
      cases: the top row takes the bottom row as its upper neighbour, and the
      bottom row differences rows height-2 and 0, in reversed order. */
  function VerticalDelta(image: array2<Pixel>, x: int, y: int, width: int, height: int): (d: Delta)
    reads image
    requires Carvable(image, width, height)
    requires 0 <= x < width && 0 <= y < height
    ensures y != height - 1 ==> d == Difference(image[x, (y + 1) % height], image[x, (y - 1 + height) % height])
    ensures y == height - 1 ==> d == Difference(image[x, (y - 1 + height) % height], image[x, (y + 1) % height])
  {
    WrapIndices(y, height);
    if y == 0 then Difference(image[x, y + 1], image[x, height - 1])
    else if y == height - 1 then Difference(image[x, height - 2], image[x, 0])
    else Difference(image[x, y + 1], image[x, y - 1])
  }

  /** The energy at column `x`, row `y`: the squared horizontal change plus
      the squared vertical change (EnergyFormula). */
  function Energy(image: array2<Pixel>, x: int, y: int, width: int, height: int): (e: int)
    reads image
    requires Carvable(image, width, height)
    requires 0 <= x < width && 0 <= y < height
    ensures e >= 0
  {
    DelayedEnergy(image, x, y, width, height, 1)
  }

  /** The energy formula, reached after `delay` empty recursive steps.
      The `delay` parameter has no counterpart in the code, which computes
      the formula directly; it is a proof device only. Because the verifier
      unfolds a recursive function only one step at a time, going through
      one such step keeps the formula out of the seam proofs, which need
      nothing of an energy but EnergyBounds; the lemma EnergyFormula
      unfolds it where a proof needs it. */
  function DelayedEnergy(image: array2<Pixel>, x: int, y: int, width: int, height: int, delay: nat): (e: int)
    reads image
    requires Carvable(image, width, height)
    requires 0 <= x < width && 0 <= y < height
    ensures e >= 0
    decreases delay
  {
    if delay > 0 then DelayedEnergy(image, x, y, width, height, delay - 1)
    else SquaredNorm(HorizontalDelta(image, x, y, width, height)) + SquaredNorm(VerticalDelta(image, x, y, width, height))
  }

  lemma EnergyFormula(image: array2<Pixel>, x: int, y: int, width: int, height: int)
    requires Carvable(image, width, height)
    requires 0 <= x < width && 0 <= y < height
    ensures Energy(image, x, y, width, height) ==
      SquaredNorm(HorizontalDelta(image, x, y, width, height)) + SquaredNorm(VerticalDelta(image, x, y, width, height))
  {
    assert DelayedEnergy(image, x, y, width, height, 0) ==
      SquaredNorm(HorizontalDelta(image, x, y, width, height)) + SquaredNorm(VerticalDelta(image, x, y, width, height));
  }

  /** Reference definition: the toroidal gradient written with modular
      neighbour indices, always as (next - previous). */
  ghost function WrapGradientEnergy(image: array2<Pixel>, x: int, y: int, width: int, height: int): int
    reads image
    requires Carvable(image, width, height)
    requires 0 <= x < width && 0 <= y < height
  {
    SquaredNorm(Difference(image[(x + 1) % width, y], image[(x - 1 + width) % width, y]))
    + SquaredNorm(Difference(image[x, (y + 1) % height], image[x, (y - 1 + height) % height]))
  }

  lemma SquaredNormSymmetric(p: Pixel, q: Pixel)
    ensures SquaredNorm(Difference(p, q)) == SquaredNorm(Difference(q, p))
  {
    SquareOfNegation(p.r - q.r);
    SquareOfNegation(p.g - q.g);
    SquareOfNegation(p.b - q.b);
  }

  lemma SquareOfNegation(a: int)
    ensures Square(-a) == Square(a)
  {
    if a > 0 {
      assert Square(-a) == Square(a);
    }
  }

  lemma ModOfSmall(a: int, n: int)
    requires 0 <= a < n
    ensures a % n == a
  {
  }

  lemma ModOfSmallPlusN(a: int, n: int)
    requires 0 <= a < n
    ensures (a + n) % n == a
  {
  }

  /** The neighbour indices of the code agree with modular arithmetic. */
  lemma WrapIndices(i: int, n: int)
    requires 2 <= n && 0 <= i < n
    ensures (i + 1) % n == (if i == n - 1 then 0 else i + 1)
    ensures (i - 1 + n) % n == (if i == 0 then n - 1 else i - 1)
  {
    if i == n - 1 {
      ModOfSmallPlusN(0, n);
    } else {
      ModOfSmall(i + 1, n);
    }
    if i == 0 {
      ModOfSmall(n - 1, n);
    } else {
      ModOfSmallPlusN(i - 1, n);
    }
  }

  /** The energy of the code is the wrap-around gradient: its edge cases
      are exactly the modular neighbours, and its reversed subtraction at the
      bottom and right edges is washed out by squaring. */
  lemma EnergyIsWrapGradient(image: array2<Pixel>, x: int, y: int, width: int, height: int)
    requires Carvable(image, width, height)
    requires 0 <= x < width && 0 <= y < height
    ensures Energy(image, x, y, width, height) == WrapGradientEnergy(image, x, y, width, height)
  {
    EnergyFormula(image, x, y, width, height);
    SquaredNormSymmetric(image[(x + 1) % width, y], image[(x - 1 + width) % width, y]);
    SquaredNormSymmetric(image[x, (y + 1) % height], image[x, (y - 1 + height) % height]);
  }

  /** A pixel whose two horizontal wrap-around neighbours share one colour,
      and whose two vertical ones do too, has zero energy. */
  lemma FlatNeighbourhoodHasZeroEnergy(image: array2<Pixel>, x: int, y: int, width: int, height: int)
    requires Carvable(image, width, height)
    requires 0 <= x < width && 0 <= y < height
    requires image[(x + 1) % width, y] == image[(x - 1 + width) % width, y]
    requires image[x, (y + 1) % height] == image[x, (y - 1 + height) % height]
    ensures Energy(image, x, y, width, height) == 0
  {
    EnergyIsWrapGradient(image, x, y, width, height);
    var p, q := image[(x + 1) % width, y], image[(x - 1 + width) % width, y];
    var s, t := image[x, (y + 1) % height], image[x, (y - 1 + height) % height];
    DifferenceIsZeroIffEqual(p, q);
    DifferenceIsZeroIffEqual(s, t);
    assert SquaredNorm(Difference(p, q)) == 0 && SquaredNorm(Difference(s, t)) == 0;
  }

  /** Two differences, each taken in either order, whose squared norms sum
      to zero: both pairs of pixels are equal. */
  lemma ZeroDifferencesMeanEqualPairs(h: Delta, v: Delta, p: Pixel, q: Pixel, s: Pixel, t: Pixel)
    requires h == Difference(p, q) || h == Difference(q, p)
    requires v == Difference(s, t) || v == Difference(t, s)
    requires SquaredNorm(h) + SquaredNorm(v) == 0
    ensures p == q && s == t
  {
    SumOfNonNegativesIsZero(SquaredNorm(h), SquaredNorm(v));
    if h == Difference(p, q) {
      DifferenceIsZeroIffEqual(p, q);
    } else {
      DifferenceIsZeroIffEqual(q, p);
    }
    if v == Difference(s, t) {
      DifferenceIsZeroIffEqual(s, t);
    } else {
      DifferenceIsZeroIffEqual(t, s);
    }
  }

  /** Conversely, zero energy means both pairs of opposite neighbours match. */
  lemma ZeroEnergyMeansFlatNeighbourhood(image: array2<Pixel>, x: int, y: int, width: int, height: int)
    requires Carvable(image, width, height)
    requires 0 <= x < width && 0 <= y < height
    requires Energy(image, x, y, width, height) == 0
    ensures image[(x + 1) % width, y] == image[(x - 1 + width) % width, y]
    ensures image[x, (y + 1) % height] == image[x, (y - 1 + height) % height]
  {
    EnergyFormula(image, x, y, width, height);
    var p, q := image[(x + 1) % width, y], image[(x - 1 + width) % width, y];
    var s, t := image[x, (y + 1) % height], image[x, (y - 1 + height) % height];
    ZeroDifferencesMeanEqualPairs(HorizontalDelta(image, x, y, width, height),
      VerticalDelta(image, x, y, width, height), p, q, s, t);
  }

  lemma {:induction false} SquareMonotone(a: int, b: int)
    requires 0 <= a <= b
    ensures Square(a) <= Square(b)
    decreases b - a
  {
    if a < b {
      SquareMonotone(a, b - 1);
    }
  }

  lemma SquareBound(a: int)
    requires -MaxChannel <= a <= MaxChannel
    ensures Square(a) <= MaxChannel * MaxChannel
  {
    SquareOfNegation(a);
    SquareMonotone(if a < 0 then -a else a, MaxChannel);
    SquareIsProduct(MaxChannel);
  }

  lemma DifferenceBound(p: Pixel, q: Pixel)
    requires PixelInRange(p) && PixelInRange(q)
    ensures SquaredNorm(Difference(p, q)) <= 3 * MaxChannel * MaxChannel
  {
    var d := Difference(p, q);
    SquareBound(d.dr);
    SquareBound(d.dg);
    SquareBound(d.db);
  }

  /** With channels in [0, 255] the energy is at most 6 * 255^2 = 390150,
      far below the INT32_MAX sentinel the seam trace uses for edges. */
  lemma EnergyBounds(image: array2<Pixel>, x: int, y: int, width: int, height: int)
    requires Carvable(image, width, height) && InRange(image, width, height)
    requires 0 <= x < width && 0 <= y < height
    ensures 0 <= Energy(image, x, y, width, height) <= MaxEnergy
  {
    EnergyIsWrapGradient(image, x, y, width, height);
    DifferenceBound(image[(x + 1) % width, y], image[(x - 1 + width) % width, y]);
    DifferenceBound(image[x, (y + 1) % height], image[x, (y - 1 + height) % height]);
  }
}
