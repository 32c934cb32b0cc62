/** The seam search. The code asks the energy function for one pixel at a
    time; the model states what it computes over the energy map of the grid
    (EnergyMap), so that the search itself is a matter of integers: a greedy
    trace from one start, and the choice of the cheapest trace over all
    starts, for vertical seams (one column per row) and horizontal seams
    (one row per column). */
module SeamFinder {
  import opened PixelGrid
  import opened EnergyFunction
  import opened SeamPolicy

  /** The energy the trace gives a neighbour beyond the edge (INT32_MAX). */
  const Int32Max := 0x7FFF_FFFF

  /** What the search needs of the grid: both dimensions at least 2 and
      every channel in [0, 255], as the image loader guarantees. */
  ghost predicate Searchable(image: array2<Pixel>, width: int, height: int)
    reads image
  {
    Carvable(image, width, height) && InRange(image, width, height)
  }

  /** A height x width table of energies, indexed [row][col], each at most
      MaxEnergy and so below the sentinel. */
  predicate IsEnergyMap(m: seq<seq<int>>, width: int, height: int) {
    && 1 <= width && 1 <= height && |m| == height
    && (forall row :: 0 <= row < height ==> |m[row]| == width)
    && (forall row, col :: 0 <= row < height && 0 <= col < width ==> 0 <= m[row][col] <= MaxEnergy)
  }

  lemma AllEnergiesBounded(image: array2<Pixel>, width: int, height: int)
    requires Searchable(image, width, height)
    ensures forall col, row :: 0 <= col < width && 0 <= row < height ==>
      0 <= Energy(image, col, row, width, height) <= MaxEnergy
  {
    forall col, row | 0 <= col < width && 0 <= row < height
      ensures 0 <= Energy(image, col, row, width, height) <= MaxEnergy
    {
      EnergyBounds(image, col, row, width, height);
    }
  }

  /** `m` holds the energy of every pixel of the grid: entry [row][col] is
      the energy at column col, row row. */
  ghost predicate IsEnergyMapOf(m: seq<seq<int>>, image: array2<Pixel>, width: int, height: int)
    reads image
    requires Carvable(image, width, height)
  {
    IsEnergyMap(m, width, height) && HoldsEnergies(m, image, width, height, 1)
  }

  /** The entries agree with the energy function, stated after `delay` empty
      recursive steps, as for DelayedEnergy; `delay` has no counterpart in
      the code and serves the proofs only. The search methods pass this
      fact along with the grid, and only the traces need it spelled out
      (EnergyMapEntries). */
  ghost predicate HoldsEnergies(m: seq<seq<int>>, image: array2<Pixel>, width: int, height: int, delay: nat)
    reads image
    requires Carvable(image, width, height) && IsEnergyMap(m, width, height)
    decreases delay
  {
    if delay > 0 then HoldsEnergies(m, image, width, height, delay - 1)
    else
      forall row, col :: 0 <= row < height && 0 <= col < width ==>
        m[row][col] == Energy(image, col, row, width, height)
  }

  lemma EnergyMapEntries(m: seq<seq<int>>, image: array2<Pixel>, width: int, height: int)
    requires Carvable(image, width, height) && IsEnergyMapOf(m, image, width, height)
    ensures IsEnergyMap(m, width, height)
    ensures forall row, col :: 0 <= row < height && 0 <= col < width ==>
      m[row][col] == Energy(image, col, row, width, height)
  {
    assert HoldsEnergies(m, image, width, height, 0);
  }

  /** One entry of an energy map, read off where a trace needs it. */
  lemma EnergyMapAt(m: seq<seq<int>>, image: array2<Pixel>, width: int, height: int, col: int, row: int)
    requires Carvable(image, width, height) && IsEnergyMapOf(m, image, width, height)
    requires 0 <= col < width && 0 <= row < height
    ensures m[row][col] == Energy(image, col, row, width, height)
  {
    EnergyMapEntries(m, image, width, height);
  }

  /** The energies of the first `n` pixels of row `row`. */
  ghost function EnergyRow(image: array2<Pixel>, width: int, height: int, row: int, n: int): (s: seq<int>)
    reads image
    requires Searchable(image, width, height) && 0 <= row < height && 0 <= n <= width
    ensures |s| == n
    ensures forall col :: 0 <= col < n ==> s[col] == Energy(image, col, row, width, height)
    decreases n
  {
    if n == 0 then [] else EnergyRow(image, width, height, row, n - 1) + [Energy(image, n - 1, row, width, height)]
  }

  /** The energies of the first `n` rows. */
  ghost function EnergyRows(image: array2<Pixel>, width: int, height: int, n: int): (m: seq<seq<int>>)
    reads image
    requires Searchable(image, width, height) && 0 <= n <= height
    ensures |m| == n
    ensures forall row :: 0 <= row < n ==> m[row] == EnergyRow(image, width, height, row, width)
    decreases n
  {
    if n == 0 then [] else EnergyRows(image, width, height, n - 1) + [EnergyRow(image, width, height, n - 1, width)]
  }

  /** The energies the search reads: entry [row][col] is the energy of the
      pixel at column col, row row. */
  ghost function EnergyMap(image: array2<Pixel>, width: int, height: int): (m: seq<seq<int>>)
    reads image
    requires Searchable(image, width, height)
    ensures IsEnergyMapOf(m, image, width, height)
  {
    AllEnergiesBounded(image, width, height);
    var m := EnergyRows(image, width, height, height);
    assert HoldsEnergies(m, image, width, height, 0);
    m
  }

  // ---------------------------------------------------------------------
  // Vertical seams: entry i of the seam is a column of row i.
  // ---------------------------------------------------------------------

  /** Energy of the left neighbour of `col` in `row`, or the sentinel at the left edge. */
  function LeftEnergy(m: seq<seq<int>>, width: int, height: int, col: int, row: int): int
    requires IsEnergyMap(m, width, height) && 0 <= col < width && 0 <= row < height
  {
    if col == 0 then Int32Max else m[row][col - 1]
  }

  /** Energy of the right neighbour of `col` in `row`, or the sentinel at the right edge. */
  function RightEnergy(m: seq<seq<int>>, width: int, height: int, col: int, row: int): int
    requires IsEnergyMap(m, width, height) && 0 <= col < width && 0 <= row < height
  {
    if col == width - 1 then Int32Max else m[row][col + 1]
  }

  /** Off the edge the sentinel stands in for a neighbour, and it exceeds
      every energy of the map; on the grid the neighbour's own energy is
      used. So a side is a real pixel exactly when its energy is at most
      MaxEnergy. */
  lemma VerticalSentinels(m: seq<seq<int>>, width: int, height: int, col: int, row: int)
    requires IsEnergyMap(m, width, height) && 0 <= col < width && 0 <= row < height
    ensures col > 0 ==> LeftEnergy(m, width, height, col, row) == m[row][col - 1]
    ensures LeftEnergy(m, width, height, col, row) <= MaxEnergy <==> col > 0
    ensures col < width - 1 ==> RightEnergy(m, width, height, col, row) == m[row][col + 1]
    ensures RightEnergy(m, width, height, col, row) <= MaxEnergy <==> col < width - 1
  {
  }

  /** The column the vertical trace takes in `row` after column `col` in the
      row above: a neighbour of `col` that lies on the grid. */
  function NextColumn(m: seq<seq<int>>, width: int, height: int, col: int, row: int): (next: int)
    requires IsEnergyMap(m, width, height) && 0 <= col < width && 0 <= row < height
    ensures 0 <= next < width
    ensures -1 <= next - col <= 1
  {
    col + VerticalStep(LeftEnergy(m, width, height, col, row), m[row][col], RightEnergy(m, width, height, col, row)).delta
  }

  /** The choice is a neighbour of least energy, the middle one exactly when
      the middle is least, and the right one when the two sides tie below the
      middle. The sentinel is never chosen, since every energy is below it. */
  lemma NextColumnIsCheapest(m: seq<seq<int>>, width: int, height: int, col: int, row: int)
    requires IsEnergyMap(m, width, height) && 0 <= col < width && 0 <= row < height
    ensures var next := NextColumn(m, width, height, col, row);
      var least := Min3(LeftEnergy(m, width, height, col, row), m[row][col], RightEnergy(m, width, height, col, row));
      && m[row][next] == least
      && (m[row][col] == least ==> next == col)
      && (next == col ==> m[row][col] == least)
      && (m[row][col] != least && LeftEnergy(m, width, height, col, row) == RightEnergy(m, width, height, col, row) ==>
          next == col + 1)
  {
  }

  /** The first `n` entries of the vertical trace from column `start`. */
  function VerticalPath(m: seq<seq<int>>, width: int, height: int, start: int, n: int): (p: seq<int>)
    requires IsEnergyMap(m, width, height) && 0 <= start < width && 1 <= n <= height
    ensures |p| == n && p[0] == start
    ensures forall i :: 0 <= i < n ==> 0 <= p[i] < width
    decreases n
  {
    if n == 1 then [start]
    else
      var prefix := VerticalPath(m, width, height, start, n - 1);
      prefix + [NextColumn(m, width, height, prefix[n - 2], n - 1)]
  }

  /** Each entry of the trace after the first is the column chosen from the
      entry before it, and so lies next to it. */
  lemma {:induction false} VerticalPathFollowsNextColumn(m: seq<seq<int>>, width: int, height: int, start: int, n: int)
    requires IsEnergyMap(m, width, height) && 0 <= start < width && 1 <= n <= height
    ensures forall i :: 0 < i < n ==>
      VerticalPath(m, width, height, start, n)[i] ==
      NextColumn(m, width, height, VerticalPath(m, width, height, start, n)[i - 1], i)
    ensures forall i :: 0 < i < n ==>
      -1 <= VerticalPath(m, width, height, start, n)[i] - VerticalPath(m, width, height, start, n)[i - 1] <= 1
    decreases n
  {
    if n > 1 {
      VerticalPathFollowsNextColumn(m, width, height, start, n - 1);
      var prefix := VerticalPath(m, width, height, start, n - 1);
      assert VerticalPath(m, width, height, start, n) == prefix + [NextColumn(m, width, height, prefix[n - 2], n - 1)];
    }
  }

  /** Total energy of the first `n` pixels of a vertical seam, entry i
      being the column in row i. */
  function VerticalSeamEnergy(m: seq<seq<int>>, width: int, height: int, s: seq<int>, n: int): (total: int)
    requires IsEnergyMap(m, width, height)
    requires 0 <= n <= |s| <= height
    requires forall i :: 0 <= i < |s| ==> 0 <= s[i] < width
    ensures 0 <= total <= n * MaxEnergy
    decreases n
  {
    if n == 0 then 0 else VerticalSeamEnergy(m, width, height, s, n - 1) + m[n - 1][s[n - 1]]
  }

  /** The total energy of the full vertical trace from `start`. */
  function VerticalCost(m: seq<seq<int>>, width: int, height: int, start: int): int
    requires IsEnergyMap(m, width, height) && 0 <= start < width
  {
    VerticalSeamEnergy(m, width, height, VerticalPath(m, width, height, start, height), height)
  }

  /** The total of a seam includes the energy of its first pixel. */
  lemma {:induction false} VerticalSeamEnergyCountsFirst(m: seq<seq<int>>, width: int, height: int, s: seq<int>, n: int)
    requires IsEnergyMap(m, width, height)
    requires 1 <= n <= |s| <= height
    requires forall i :: 0 <= i < |s| ==> 0 <= s[i] < width
    ensures m[0][s[0]] <= VerticalSeamEnergy(m, width, height, s, n)
    decreases n
  {
    if n > 1 {
      VerticalSeamEnergyCountsFirst(m, width, height, s, n - 1);
    }
  }

  /** A trace's cost counts its starting pixel and never a sentinel: it lies
      between the start's energy and height * MaxEnergy. */
  lemma VerticalCostBounds(m: seq<seq<int>>, width: int, height: int, start: int)
    requires IsEnergyMap(m, width, height) && 0 <= start < width
    ensures m[0][start] <= VerticalCost(m, width, height, start) <= height * MaxEnergy
  {
    VerticalSeamEnergyCountsFirst(m, width, height, VerticalPath(m, width, height, start, height), height);
  }

  /** One row of the full vertical trace: its column is the one the cascade
      picks from the column above, and its energy is the cascade's cost. */
  lemma VerticalTraceStep(m: seq<seq<int>>, width: int, height: int, start: int, row: int)
    requires IsEnergyMap(m, width, height) && 0 <= start < width && 1 <= row < height
    ensures var path := VerticalPath(m, width, height, start, height);
      var col := path[row - 1];
      var step := VerticalStep(LeftEnergy(m, width, height, col, row), m[row][col], RightEnergy(m, width, height, col, row));
      && path[row] == col + step.delta
      && VerticalSeamEnergy(m, width, height, path, row + 1) == VerticalSeamEnergy(m, width, height, path, row) + step.cost
  {
    VerticalPathFollowsNextColumn(m, width, height, start, height);
  }

  /** The costs of the vertical traces from the starts 0 .. n-1, in order. */
  function VerticalCosts(m: seq<seq<int>>, width: int, height: int, n: int): (costs: seq<int>)
    requires IsEnergyMap(m, width, height) && 0 <= n <= width
    ensures |costs| == n
    decreases n
  {
    if n == 0 then [] else VerticalCosts(m, width, height, n - 1) + [VerticalCost(m, width, height, n - 1)]
  }

  lemma {:induction false} VerticalCostsAt(m: seq<seq<int>>, width: int, height: int, n: int, c: int)
    requires IsEnergyMap(m, width, height) && 0 <= c < n <= width
    ensures VerticalCosts(m, width, height, n)[c] == VerticalCost(m, width, height, c)
    decreases n
  {
    if c < n - 1 {
      VerticalCostsAt(m, width, height, n - 1, c);
    }
  }

  /** The start whose trace the search keeps: of least total energy, and the
      lowest such start. */
  function BestVerticalStart(m: seq<seq<int>>, width: int, height: int): (start: int)
    requires IsEnergyMap(m, width, height)
    ensures 0 <= start < width
    ensures forall c :: 0 <= c < width ==> VerticalCost(m, width, height, start) <= VerticalCost(m, width, height, c)
    ensures forall c :: 0 <= c < start ==> VerticalCost(m, width, height, start) < VerticalCost(m, width, height, c)
  {
    var costs := VerticalCosts(m, width, height, width);
    var k := FirstMinIndex(costs);
    VerticalCostsAt(m, width, height, width, k);
    forall c | 0 <= c < width
      ensures costs[c] == VerticalCost(m, width, height, c)
    {
      VerticalCostsAt(m, width, height, width, c);
    }
    k
  }

  /** Traces the vertical seam from column `start` into `seam` and returns
      its total energy, the starting pixel included. The choice among the
      three neighbours below is the cascade VerticalStep. */
  method LoadVerticalSeam(image: array2<Pixel>, start: int, width: int, height: int, seam: array<int>, ghost m: seq<seq<int>>)
    returns (total: int)
    requires Carvable(image, width, height)
    requires IsEnergyMapOf(m, image, width, height)
    requires 0 <= start < width
    requires seam.Length == height
    modifies seam
    ensures seam[..] == VerticalPath(m, width, height, start, height)
    ensures total == VerticalCost(m, width, height, start)
  {
    ghost var path := VerticalPath(m, width, height, start, height);
    seam[0] := start;
    total := Energy(image, start, 0, width, height);
    EnergyMapAt(m, image, width, height, start, 0);
    for row := 1 to height
      invariant forall i :: 0 <= i < row ==> seam[i] == path[i]
      invariant total == VerticalSeamEnergy(m, width, height, path, row)
    {
      var currCol := seam[row - 1];
      var left, right, middle;
      middle := Energy(image, currCol, row, width, height);
      EnergyMapAt(m, image, width, height, currCol, row);
      if currCol == 0 {
        left := Int32Max;
      } else {
        left := Energy(image, currCol - 1, row, width, height);
        EnergyMapAt(m, image, width, height, currCol - 1, row);
      }
      if currCol == width - 1 {
        right := Int32Max;
      } else {
        right := Energy(image, currCol + 1, row, width, height);
        EnergyMapAt(m, image, width, height, currCol + 1, row);
      }
      var step := VerticalStep(left, middle, right);
      VerticalTraceStep(m, width, height, start, row);
      assert step == VerticalStep(LeftEnergy(m, width, height, currCol, row), m[row][currCol],
                                  RightEnergy(m, width, height, currCol, row));
      total := total + step.cost;
      seam[row] := currCol + step.delta;
    }
    assert seam[..] == path;
  }

  method CopySeam(src: array<int>, dst: array<int>)
    requires src.Length == dst.Length && src != dst
    modifies dst
    ensures dst[..] == src[..]
  {
    for j := 0 to src.Length
      invariant forall i :: 0 <= i < j ==> dst[i] == src[i]
    {
      dst[j] := src[j];
    }
    assert dst[..] == src[..];
  }

  /** Tries every start column and returns the vertical seam of the first
      start with the least total energy. */
  method FindMinVerticalSeam(image: array2<Pixel>, width: int, height: int) returns (seamMin: array<int>)
    requires Searchable(image, width, height)
    ensures fresh(seamMin)
    ensures seamMin.Length == height
    ensures seamMin[..] == VerticalPath(EnergyMap(image, width, height), width, height,
                                        BestVerticalStart(EnergyMap(image, width, height), width, height), height)
  {
    ghost var m := EnergyMap(image, width, height);
    EnergyMapEntries(m, image, width, height);
    ghost var costs := VerticalCosts(m, width, height, width);
    seamMin := CreateSeam(height);
    var minEnergy := LoadVerticalSeam(image, 0, width, height, seamMin, m);
    ghost var best := 0;
    VerticalCostsAt(m, width, height, width, 0);
    for col := 1 to width
      invariant fresh(seamMin) && seamMin.Length == height
      invariant 0 <= best < col
      invariant best == FirstMinIndex(costs[..col])
      invariant minEnergy == costs[best]
      invariant seamMin[..] == VerticalPath(m, width, height, best, height)
      modifies seamMin
    {
      var seamTemp := CreateSeam(height);
      var energyVertical := LoadVerticalSeam(image, col, width, height, seamTemp, m);
      FirstMinIndexExtend(costs, col);
      VerticalCostsAt(m, width, height, width, col);
      if energyVertical < minEnergy {
        minEnergy := energyVertical;
        CopySeam(seamTemp, seamMin);
        best := col;
      }
    }
    assert costs[..width] == costs;
  }

  // ---------------------------------------------------------------------
  // Horizontal seams: entry i of the seam is a row of column i.
  // ---------------------------------------------------------------------

  /** Energy of the neighbour above `row` in `col`, or the sentinel at the top edge. */
  function TopEnergy(m: seq<seq<int>>, width: int, height: int, col: int, row: int): int
    requires IsEnergyMap(m, width, height) && 0 <= col < width && 0 <= row < height
  {
    if row == 0 then Int32Max else m[row - 1][col]
  }

  /** Energy of the neighbour below `row` in `col`, or the sentinel at the bottom edge. */
  function BottomEnergy(m: seq<seq<int>>, width: int, height: int, col: int, row: int): int
    requires IsEnergyMap(m, width, height) && 0 <= col < width && 0 <= row < height
  {
    if row == height - 1 then Int32Max else m[row + 1][col]
  }

  /** The same for the neighbours above and below. */
  lemma HorizontalSentinels(m: seq<seq<int>>, width: int, height: int, col: int, row: int)
    requires IsEnergyMap(m, width, height) && 0 <= col < width && 0 <= row < height
    ensures row > 0 ==> TopEnergy(m, width, height, col, row) == m[row - 1][col]
    ensures TopEnergy(m, width, height, col, row) <= MaxEnergy <==> row > 0
    ensures row < height - 1 ==> BottomEnergy(m, width, height, col, row) == m[row + 1][col]
    ensures BottomEnergy(m, width, height, col, row) <= MaxEnergy <==> row < height - 1
  {
  }

  /** The row the horizontal trace takes in column `col` after row `row` in
      the column before it: a neighbour of `row` that lies on the grid. */
  function NextRow(m: seq<seq<int>>, width: int, height: int, row: int, col: int): (next: int)
    requires IsEnergyMap(m, width, height) && 0 <= col < width && 0 <= row < height
    ensures 0 <= next < height
    ensures -1 <= next - row <= 1
  {
    row + HorizontalStep(TopEnergy(m, width, height, col, row), m[row][col], BottomEnergy(m, width, height, col, row)).delta
  }

  /** The choice is a neighbour of least energy, the middle one exactly when
      the middle is least, and the top one when the two sides tie below the
      middle. */
  lemma NextRowIsCheapest(m: seq<seq<int>>, width: int, height: int, row: int, col: int)
    requires IsEnergyMap(m, width, height) && 0 <= col < width && 0 <= row < height
    ensures var next := NextRow(m, width, height, row, col);
      var least := Min3(TopEnergy(m, width, height, col, row), m[row][col], BottomEnergy(m, width, height, col, row));
      && m[next][col] == least
      && (m[row][col] == least ==> next == row)
      && (next == row ==> m[row][col] == least)
      && (m[row][col] != least && TopEnergy(m, width, height, col, row) == BottomEnergy(m, width, height, col, row) ==>
          next == row - 1)
  {
  }

  /** The first `n` entries of the horizontal trace from row `start`. */
  function HorizontalPath(m: seq<seq<int>>, width: int, height: int, start: int, n: int): (p: seq<int>)
    requires IsEnergyMap(m, width, height) && 0 <= start < height && 1 <= n <= width
    ensures |p| == n && p[0] == start
    ensures forall i :: 0 <= i < n ==> 0 <= p[i] < height
    decreases n
  {
    if n == 1 then [start]
    else
      var prefix := HorizontalPath(m, width, height, start, n - 1);
      prefix + [NextRow(m, width, height, prefix[n - 2], n - 1)]
  }

  /** Each entry of the trace after the first is the row chosen from the
      entry before it, and so lies next to it. */
  lemma {:induction false} HorizontalPathFollowsNextRow(m: seq<seq<int>>, width: int, height: int, start: int, n: int)
    requires IsEnergyMap(m, width, height) && 0 <= start < height && 1 <= n <= width
    ensures forall i :: 0 < i < n ==>
      HorizontalPath(m, width, height, start, n)[i] ==
      NextRow(m, width, height, HorizontalPath(m, width, height, start, n)[i - 1], i)
    ensures forall i :: 0 < i < n ==>
      -1 <= HorizontalPath(m, width, height, start, n)[i] - HorizontalPath(m, width, height, start, n)[i - 1] <= 1
    decreases n
  {
    if n > 1 {
      HorizontalPathFollowsNextRow(m, width, height, start, n - 1);
      var prefix := HorizontalPath(m, width, height, start, n - 1);
      assert HorizontalPath(m, width, height, start, n) == prefix + [NextRow(m, width, height, prefix[n - 2], n - 1)];
    }
  }

  /** Total energy of the first `n` pixels of a horizontal seam, entry i
      being the row in column i. */
  function HorizontalSeamEnergy(m: seq<seq<int>>, width: int, height: int, s: seq<int>, n: int): (total: int)
    requires IsEnergyMap(m, width, height)
    requires 0 <= n <= |s| <= width
    requires forall i :: 0 <= i < |s| ==> 0 <= s[i] < height
    ensures 0 <= total <= n * MaxEnergy
    decreases n
  {
    if n == 0 then 0 else HorizontalSeamEnergy(m, width, height, s, n - 1) + m[s[n - 1]][n - 1]
  }

  /** The total energy of the full horizontal trace from `start`. */
  function HorizontalCost(m: seq<seq<int>>, width: int, height: int, start: int): int
    requires IsEnergyMap(m, width, height) && 0 <= start < height
  {
    HorizontalSeamEnergy(m, width, height, HorizontalPath(m, width, height, start, width), width)
  }

  lemma {:induction false} HorizontalSeamEnergyCountsFirst(m: seq<seq<int>>, width: int, height: int, s: seq<int>, n: int)
    requires IsEnergyMap(m, width, height)
    requires 1 <= n <= |s| <= width
    requires forall i :: 0 <= i < |s| ==> 0 <= s[i] < height
    ensures m[s[0]][0] <= HorizontalSeamEnergy(m, width, height, s, n)
    decreases n
  {
    if n > 1 {
      HorizontalSeamEnergyCountsFirst(m, width, height, s, n - 1);
    }
  }

  /** A horizontal trace's cost lies between the start's energy and
      width * MaxEnergy. */
  lemma HorizontalCostBounds(m: seq<seq<int>>, width: int, height: int, start: int)
    requires IsEnergyMap(m, width, height) && 0 <= start < height
    ensures m[start][0] <= HorizontalCost(m, width, height, start) <= width * MaxEnergy
  {
    HorizontalSeamEnergyCountsFirst(m, width, height, HorizontalPath(m, width, height, start, width), width);
  }

  /** One column of the full horizontal trace: its row is the one the
      cascade picks from the column before, and its energy is the cost. */
  lemma HorizontalTraceStep(m: seq<seq<int>>, width: int, height: int, start: int, col: int)
    requires IsEnergyMap(m, width, height) && 0 <= start < height && 1 <= col < width
    ensures var path := HorizontalPath(m, width, height, start, width);
      var row := path[col - 1];
      var step := HorizontalStep(TopEnergy(m, width, height, col, row), m[row][col], BottomEnergy(m, width, height, col, row));
      && path[col] == row + step.delta
      && HorizontalSeamEnergy(m, width, height, path, col + 1) == HorizontalSeamEnergy(m, width, height, path, col) + step.cost
  {
    HorizontalPathFollowsNextRow(m, width, height, start, width);
  }

  /** The costs of the horizontal traces from the starts 0 .. n-1, in order. */
  function HorizontalCosts(m: seq<seq<int>>, width: int, height: int, n: int): (costs: seq<int>)
    requires IsEnergyMap(m, width, height) && 0 <= n <= height
    ensures |costs| == n
    decreases n
  {
    if n == 0 then [] else HorizontalCosts(m, width, height, n - 1) + [HorizontalCost(m, width, height, n - 1)]
  }

  lemma {:induction false} HorizontalCostsAt(m: seq<seq<int>>, width: int, height: int, n: int, r: int)
    requires IsEnergyMap(m, width, height) && 0 <= r < n <= height
    ensures HorizontalCosts(m, width, height, n)[r] == HorizontalCost(m, width, height, r)
    decreases n
  {
    if r < n - 1 {
      HorizontalCostsAt(m, width, height, n - 1, r);
    }
  }

  /** The start whose trace the search keeps: of least total energy, and the
      lowest such start. */
  function BestHorizontalStart(m: seq<seq<int>>, width: int, height: int): (start: int)
    requires IsEnergyMap(m, width, height)
    ensures 0 <= start < height
    ensures forall r :: 0 <= r < height ==> HorizontalCost(m, width, height, start) <= HorizontalCost(m, width, height, r)
    ensures forall r :: 0 <= r < start ==> HorizontalCost(m, width, height, start) < HorizontalCost(m, width, height, r)
  {
    var costs := HorizontalCosts(m, width, height, height);
    var k := FirstMinIndex(costs);
    HorizontalCostsAt(m, width, height, height, k);
    forall r | 0 <= r < height
      ensures costs[r] == HorizontalCost(m, width, height, r)
    {
      HorizontalCostsAt(m, width, height, height, r);
    }
    k
  }

  /** Traces the horizontal seam from row `start` into `seam` and returns
      its total energy, the starting pixel included. The choice among the
      three neighbours in the next column is the cascade HorizontalStep. */
  method LoadHorizontalSeam(image: array2<Pixel>, start: int, width: int, height: int, seam: array<int>, ghost m: seq<seq<int>>)
    returns (total: int)
    requires Carvable(image, width, height)
    requires IsEnergyMapOf(m, image, width, height)
    requires 0 <= start < height
    requires seam.Length == width
    modifies seam
    ensures seam[..] == HorizontalPath(m, width, height, start, width)
    ensures total == HorizontalCost(m, width, height, start)
  {
    ghost var path := HorizontalPath(m, width, height, start, width);
    seam[0] := start;
    total := Energy(image, 0, start, width, height);
    EnergyMapAt(m, image, width, height, 0, start);
    for col := 1 to width
      invariant forall i :: 0 <= i < col ==> seam[i] == path[i]
      invariant total == HorizontalSeamEnergy(m, width, height, path, col)
    {
      var currRow := seam[col - 1];
      var top, bottom, middle;
      middle := Energy(image, col, currRow, width, height);
      EnergyMapAt(m, image, width, height, col, currRow);
      if currRow == 0 {
        top := Int32Max;
      } else {
        top := Energy(image, col, currRow - 1, width, height);
        EnergyMapAt(m, image, width, height, col, currRow - 1);
      }
      if currRow == height - 1 {
        bottom := Int32Max;
      } else {
        bottom := Energy(image, col, currRow + 1, width, height);
        EnergyMapAt(m, image, width, height, col, currRow + 1);
      }
      var step := HorizontalStep(top, middle, bottom);
      HorizontalTraceStep(m, width, height, start, col);
      assert step == HorizontalStep(TopEnergy(m, width, height, col, currRow), m[currRow][col],
                                    BottomEnergy(m, width, height, col, currRow));
      total := total + step.cost;
      seam[col] := currRow + step.delta;
    }
    assert seam[..] == path;
  }

  /** Tries every start row and returns the horizontal seam of the first
      start with the least total energy. */
  method FindMinHorizontalSeam(image: array2<Pixel>, width: int, height: int) returns (seamMin: array<int>)
    requires Searchable(image, width, height)
    ensures fresh(seamMin)
    ensures seamMin.Length == width
    ensures seamMin[..] == HorizontalPath(EnergyMap(image, width, height), width, height,
                                          BestHorizontalStart(EnergyMap(image, width, height), width, height), width)
  {
    ghost var m := EnergyMap(image, width, height);
    EnergyMapEntries(m, image, width, height);
    ghost var costs := HorizontalCosts(m, width, height, height);
    seamMin := CreateSeam(width);
    var minEnergy := LoadHorizontalSeam(image, 0, width, height, seamMin, m);
    ghost var best := 0;
    HorizontalCostsAt(m, width, height, height, 0);
    for row := 1 to height
      invariant fresh(seamMin) && seamMin.Length == width
      invariant 0 <= best < row
      invariant best == FirstMinIndex(costs[..row])
      invariant minEnergy == costs[best]
      invariant seamMin[..] == HorizontalPath(m, width, height, best, width)
      modifies seamMin
    {
      var seamTemp := CreateSeam(width);
      var energyHorizontal := LoadHorizontalSeam(image, row, width, height, seamTemp, m);
      FirstMinIndexExtend(costs, row);
      HorizontalCostsAt(m, width, height, height, row);
      if energyHorizontal < minEnergy {
        minEnergy := energyHorizontal;
        CopySeam(seamTemp, seamMin);
        best := row;
      }
    }
    assert costs[..height] == costs;
  }
}
