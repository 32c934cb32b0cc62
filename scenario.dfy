module Scenario {
  import opened PixelGrid
  import opened EnergyFunction
  import opened SeamPolicy
  import opened SeamFinder

  /** A 3 x 3 grid, black except for the centre, whose red channel is `v`. */
  predicate IsRedCentre(image: array2<Pixel>, v: int)
    reads image
  {
    image.Length0 == 3 && image.Length1 == 3 &&
    forall c, r :: 0 <= c < 3 && 0 <= r < 3 ==> image[c, r] == if c == 1 && r == 1 then Pixel(v, 0, 0) else Black
  }

  /** Its energy map: the centre and the corners are flat, the four edge
      midpoints see the centre once. */
  function RedCentreMap(s: int): seq<seq<int>> {
    [[0, s, 0], [s, 0, s], [0, s, 0]]
  }

  /** Only the centre's horizontal neighbours see it across their row, and
      only its vertical neighbours across their column. */
  lemma RedCentreDeltas(image: array2<Pixel>, v: int, col: int, row: int)
    requires IsRedCentre(image, v) && 0 <= col < 3 && 0 <= row < 3
    ensures HorizontalDelta(image, col, row, 3, 3) == if row == 1 && col != 1 then Delta(v, 0, 0) else Delta(0, 0, 0)
    ensures VerticalDelta(image, col, row, 3, 3) == if col == 1 && row != 1 then Delta(v, 0, 0) else Delta(0, 0, 0)
  {
  }

  /** The squared norms of those changes: the energy is Square(v) exactly
      at the four edge midpoints. */
  lemma RedCentreNorms(v: int, h: Delta, d: Delta, col: int, row: int)
    requires h == if row == 1 && col != 1 then Delta(v, 0, 0) else Delta(0, 0, 0)
    requires d == if col == 1 && row != 1 then Delta(v, 0, 0) else Delta(0, 0, 0)
    ensures SquaredNorm(h) + SquaredNorm(d) ==
      if (row == 1 && col != 1) || (col == 1 && row != 1) then Square(v) else 0
  {
  }

  lemma RedCentreEnergy(image: array2<Pixel>, v: int, col: int, row: int)
    requires IsRedCentre(image, v) && 0 <= col < 3 && 0 <= row < 3
    ensures Energy(image, col, row, 3, 3) ==
      if (row == 1 && col != 1) || (col == 1 && row != 1) then Square(v) else 0
  {
    EnergyFormula(image, col, row, 3, 3);
    RedCentreDeltas(image, v, col, row);
    RedCentreNorms(v, HorizontalDelta(image, col, row, 3, 3), VerticalDelta(image, col, row, 3, 3), col, row);
  }

  lemma RedCentreEnergies(image: array2<Pixel>, v: int)
    requires IsRedCentre(image, v) && 0 <= v <= MaxChannel
    ensures Searchable(image, 3, 3)
    ensures EnergyMap(image, 3, 3) == RedCentreMap(Square(v))
  {
    assert InRange(image, 3, 3);
    var m := EnergyMap(image, 3, 3);
    EnergyMapEntries(m, image, 3, 3);
    forall row, col | 0 <= row < 3 && 0 <= col < 3
      ensures m[row][col] == RedCentreMap(Square(v))[row][col]
    {
      RedCentreEnergy(image, v, col, row);
    }
    assert m[0] == RedCentreMap(Square(v))[0];
    assert m[1] == RedCentreMap(Square(v))[1];
    assert m[2] == RedCentreMap(Square(v))[2];
  }

  lemma RedCentreSeam(s: int)
    requires 0 < s <= MaxEnergy
    ensures IsEnergyMap(RedCentreMap(s), 3, 3)
    ensures BestVerticalStart(RedCentreMap(s), 3, 3) == 0
    ensures VerticalPath(RedCentreMap(s), 3, 3, 0, 3) == [0, 1, 2]
    ensures BestHorizontalStart(RedCentreMap(s), 3, 3) == 0
    ensures HorizontalPath(RedCentreMap(s), 3, 3, 0, 3) == [0, 1, 0]
  {
    var m := RedCentreMap(s);
    assert IsEnergyMap(m, 3, 3);
    assert VerticalPath(m, 3, 3, 0, 3) == [0, 1, 2];
    assert VerticalCost(m, 3, 3, 0) == 0;
    assert HorizontalPath(m, 3, 3, 0, 3) == [0, 1, 0];
    assert HorizontalCost(m, 3, 3, 0) == 0;
  }

  /** The end-to-end run on that grid: build it and search. The minimum
      vertical seam is [0, 1, 2], through the centre, whose energy is 0; the
      minimum horizontal seam is [0, 1, 0], since in the last column the two
      sides tie below the middle and the horizontal trace goes up. */
  method RedCentreScenario(v: int) returns (vertical: array<int>, horizontal: array<int>)
    requires 0 < v <= MaxChannel
    ensures vertical[..] == [0, 1, 2]
    ensures horizontal[..] == [0, 1, 0]
  {
    var image := CreateImage(3, 3);
    image[1, 1] := Pixel(v, 0, 0);
    RedCentreEnergies(image, v);
    SquareBound(v);
    RedCentreSeam(Square(v));
    vertical := FindMinVerticalSeam(image, 3, 3);
    horizontal := FindMinHorizontalSeam(image, 3, 3);
  }
}
