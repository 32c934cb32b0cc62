# Seam carving core, modelled in Dafny

This project models the seam-carving core of `functions.cpp`. That core does four things:

- computes the energy of a pixel, as the squared colour gradient with wrap-around neighbours;
- traces a greedy seam from one start, row by row (vertical) or column by column (horizontal);
- picks the start whose seam has the least total energy;
- removes that seam by shifting pixels in place.

The model also covers the zero-filled grid and seam constructors.

## Modules

- `PixelGrid` (`pixel_grid.dfy`): the `Pixel` datatype and the grid, an `array2<Pixel>` indexed `[col, row]` like `image[col][row]`.
  - The logical width and height travel separately, as in the code. They may be smaller than the allocation once seams have been removed.
  - `CreateImage` and `CreateSeam` are the two zero-filling loops.
- `EnergyFunction` (`energy.dfy`): `energy` as a pure function with the code's three edge cases per direction.
  - Its lemmas prove that it equals a reference definition, the toroidal gradient written with modular indices. The reversed subtraction at the bottom and right edges disappears under squaring.
  - They also prove that it is zero exactly when both pairs of opposite neighbours agree, and that it lies in [0, 390150] when channels are in [0, 255].
- `SeamPolicy` (`seam_policy.dfy`): the pure decision rules.
  - The four-way cascades of the vertical and horizontal traces: each picks a cheapest neighbour, prefers the middle, and breaks a side tie to the right (vertical) or to the top (horizontal).
  - The "first strictly cheaper wins" selection of a start (`FirstMinIndex`).
- `SeamFinder` (`seam_finder.dfy`): `loadVerticalSeam`, `loadHorizontalSeam`, `findMinVerticalSeam` and `findMinHorizontalSeam` as imperative methods.
  - They keep the code's loops, its `INT32_MAX` sentinels and its calls to the energy function.
  - Each method is proved against a specification over the grid's energy map (`EnergyMap`, entry `[row][col]`):
    - the trace of a start (`VerticalPath`, `HorizontalPath`);
    - its total cost (`VerticalCost`, `HorizontalCost`);
    - the chosen start (`BestVerticalStart`, `BestHorizontalStart`).
  - The properties of the search are lemmas and `ensures` about those functions: a seam starts at its start, stays on the grid, moves at most one place per step, and takes the cheapest neighbour each step; the chosen start is the first of least total energy.
- `SeamRemover` (`seam_remover.dfy`): the two in-place shifting loops.
  - They are proved cell by cell against the old grid, and line by line against `ShiftLeft`.
  - Lemmas about `ShiftLeft` show what a shift means: exactly the seam pixel leaves the logical line, the others keep their order, the last entry is kept, and the channel range is preserved.
- `Scenario` (`scenario.dfy`): the end-to-end example of a 3 x 3 black grid whose centre has a non-zero red channel, run through both searches.

The energy function and the energy-map predicate each go through one empty recursive step (`DelayedEnergy`, `HoldsEnergies`). This is a proof device only: it keeps the energy formula out of the seam proofs, which need nothing of an energy but its bounds. `EnergyFormula` and `EnergyMapEntries` unfold it where needed.

### Where the design and the code disagree

One might expect the minimum vertical seam of the 3 x 3 red-centre example to avoid the centre column in row 1, since the centre is the one coloured pixel. The code does not do that, and the model follows the code.

- The centre's two horizontal neighbours are both black, and so are its two vertical ones, so its energy is 0.
- The four edge midpoints carry the energy instead.
- The minimum vertical seam is therefore `[0, 1, 2]`, through the centre.
- The minimum horizontal seam is `[0, 1, 0]`. In the last column the two sides tie below the middle, and the horizontal trace goes up.

`Scenario.RedCentreScenario` proves both results for any red value in 1..255.

## Model

| member | source | states |
|---|---|---|
| PixelGrid.CreateImage | functions.cpp:38-45 | returns a fresh width x height grid whose every cell is black (0, 0, 0) |
| PixelGrid.CreateSeam | functions.cpp:60-69 | returns a fresh array of the requested length holding only zeros |
| EnergyFunction.HorizontalDelta | functions.cpp:252-266 | the horizontal colour change is the wrap-around difference, right neighbour (x+1) mod width minus left neighbour (x-1+width) mod width, except at the last column, where the code subtracts in the reverse order |
| EnergyFunction.VerticalDelta | functions.cpp:237-251 | the vertical colour change is the wrap-around difference, row (y+1) mod height minus row (y-1+height) mod height, except at the last row, where the code subtracts in the reverse order |
| EnergyFunction.Energy | functions.cpp:225-273 | the energy is non-negative; EnergyIsWrapGradient, FlatNeighbourhoodHasZeroEnergy, ZeroEnergyMeansFlatNeighbourhood and EnergyBounds state what it is |
| EnergyFunction.EnergyIsWrapGradient | functions.cpp:237-266 | the edge cases are the modular neighbours (x+1) mod width, (x-1+width) mod width and likewise for rows; the reversed subtraction at the last row and column gives the same energy |
| EnergyFunction.SquareIsProduct | functions.cpp:269-270 | the squared channel difference is the product of the difference with itself |
| EnergyFunction.SquaredNormSymmetric | functions.cpp:243-245 | swapping the two pixels of a difference leaves its squared norm unchanged |
| EnergyFunction.DifferenceIsZeroIffEqual | functions.cpp:269-271 | a difference has squared norm zero if and only if the two pixels are equal |
| EnergyFunction.FlatNeighbourhoodHasZeroEnergy | functions.cpp:237-271 | when both pairs of opposite wrap-around neighbours match, the energy is 0 |
| EnergyFunction.ZeroEnergyMeansFlatNeighbourhood | functions.cpp:237-271 | an energy of 0 means both pairs of opposite wrap-around neighbours match |
| EnergyFunction.EnergyBounds | functions.cpp:269-271 | with every channel in [0, 255] the energy lies in [0, 6 * 255^2 = 390150], below INT32_MAX |
| SeamPolicy.VerticalStep | functions.cpp:294-327 | the vertical cascade moves by -1, 0 or +1, adds the energy of the neighbour it moves to, which is the least of the three; it stays in the middle exactly when the middle is least, and otherwise goes right when right <= left |
| SeamPolicy.HorizontalStep | functions.cpp:353-386 | the horizontal cascade moves by -1, 0 or +1 onto the least of the three energies; it stays in the middle exactly when the middle is least, and otherwise goes up when top <= bottom |
| SeamPolicy.StepsDifferOnlyOnSideTie | functions.cpp:314-322 | the two cascades agree except when the sides tie below the middle, where the vertical one goes +1 and the horizontal one -1 (lines 373-382) |
| SeamPolicy.FirstMinIndex | functions.cpp:393-402 | the start kept by "replace only when strictly cheaper" has least cost, and every earlier start costs strictly more |
| SeamPolicy.FirstMinIndexUnique | functions.cpp:391-406 | the first index of least cost is the only index that is least and has no earlier equal |
| SeamFinder.AllEnergiesBounded | functions.cpp:225-273 | every energy of a grid with channels in [0, 255] lies in [0, 390150] |
| SeamFinder.EnergyMap | functions.cpp:225-273 | the energy table the search reads holds the energy of every pixel, each below the sentinel |
| SeamFinder.VerticalSentinels | functions.cpp:282-293 | LeftEnergy and RightEnergy give the energy of the neighbour in the next row when it is on the grid, and the INT32_MAX sentinel exactly at the left and right edges, where it exceeds every energy of the map |
| SeamFinder.NextColumn | functions.cpp:279-327 | the column chosen in the next row lies on the grid and next to the current column |
| SeamFinder.NextColumnIsCheapest | functions.cpp:282-327 | the chosen neighbour has the least energy of left/middle/right (edges count as INT32_MAX, so they are never chosen); the middle is taken exactly when it is least; a side tie below the middle goes right |
| SeamFinder.VerticalPath | functions.cpp:276-327 | the vertical trace from a start has one entry per row, begins at the start and stays in [0, width) |
| SeamFinder.VerticalPathFollowsNextColumn | functions.cpp:278-327 | every entry after the first is the column chosen from the one before, so consecutive entries differ by at most 1 |
| SeamFinder.VerticalSeamEnergy | functions.cpp:277-326 | the running total of a vertical seam is non-negative and at most MaxEnergy per pixel |
| SeamFinder.VerticalSeamEnergyCountsFirst | functions.cpp:277 | the total of a seam includes the energy of its first pixel |
| SeamFinder.VerticalCostBounds | functions.cpp:277-326 | VerticalCost, the total energy of a trace, counts the starting pixel and never a sentinel: it lies between the start's energy and height * 390150 |
| SeamFinder.VerticalTraceStep | functions.cpp:279-326 | each row of the trace is the column above plus the cascade's move over the left, middle and right energies, and the move's cost is what the row adds to the total |
| SeamFinder.BestVerticalStart | functions.cpp:391-406 | the chosen start column has a trace of least total energy, and every lower start has a strictly larger total |
| SeamFinder.LoadVerticalSeam | functions.cpp:275-331 | writes the trace from the start into the seam and returns its total energy, the starting pixel included |
| SeamFinder.CopySeam | functions.cpp:399-401 | copies the candidate seam into the best seam, entry by entry |
| SeamFinder.FindMinVerticalSeam | functions.cpp:391-406 | returns a fresh seam of length height equal to the trace from the best start |
| SeamFinder.HorizontalSentinels | functions.cpp:341-352 | TopEnergy and BottomEnergy give the energy of the neighbour in the next column when it is on the grid, and the INT32_MAX sentinel exactly at the top and bottom edges, where it exceeds every energy of the map |
| SeamFinder.NextRow | functions.cpp:338-386 | the row chosen in the next column lies on the grid and next to the current row |
| SeamFinder.NextRowIsCheapest | functions.cpp:341-386 | the chosen neighbour has the least energy of top/middle/bottom; the middle is taken exactly when it is least; a side tie below the middle goes up |
| SeamFinder.HorizontalPath | functions.cpp:335-386 | the horizontal trace from a start has one entry per column, begins at the start and stays in [0, height) |
| SeamFinder.HorizontalPathFollowsNextRow | functions.cpp:337-386 | every entry after the first is the row chosen from the one before, so consecutive entries differ by at most 1 |
| SeamFinder.HorizontalSeamEnergy | functions.cpp:336-385 | the running total of a horizontal seam is non-negative and at most MaxEnergy per pixel |
| SeamFinder.HorizontalSeamEnergyCountsFirst | functions.cpp:336 | the total of a horizontal seam includes the energy of its first pixel |
| SeamFinder.HorizontalCostBounds | functions.cpp:336-385 | HorizontalCost, the total energy of a trace, counts the starting pixel and never a sentinel: it lies between the start's energy and width * 390150 |
| SeamFinder.HorizontalTraceStep | functions.cpp:338-385 | each column of the trace is the row before plus the cascade's move over the top, middle and bottom energies, and the move's cost is what the column adds to the total |
| SeamFinder.BestHorizontalStart | functions.cpp:409-425 | the chosen start row has a trace of least total energy, and every lower start has a strictly larger total |
| SeamFinder.LoadHorizontalSeam | functions.cpp:333-389 | writes the trace from the start into the seam and returns its total energy, the starting pixel included |
| SeamFinder.FindMinHorizontalSeam | functions.cpp:409-425 | returns a fresh seam of length width equal to the trace from the best start |
| SeamRemover.ShiftLeft | functions.cpp:432-433 | one line after the in-place shift keeps its length; ShiftLeftDeletes states which pixels it holds |
| SeamRemover.ShiftLeftDeletes | functions.cpp:431-435 | after the shift the first n-1 entries are the old line without the seam pixel, in order, and the rest is unchanged |
| SeamRemover.ShiftLeftKeepsPixels | functions.cpp:432-433 | the shortened line holds the old line's pixels less one copy of the seam pixel |
| SeamRemover.ShiftLeftBeyondEnd | functions.cpp:432 | a seam entry at or past the last logical column moves nothing |
| SeamRemover.ShiftLeftKeepsRange | functions.cpp:438-444 | if every old pixel has channels in [0, 255], so does every pixel of the shortened line |
| SeamRemover.RemoveVerticalSeam | functions.cpp:429-436 | in each logical row, cells from the seam column to width-2 take their right neighbour's old value, and every other cell keeps its old value; each row equals ShiftLeft of its old contents; the channel range carries over to width-1 columns |
| SeamRemover.RemoveHorizontalSeam | functions.cpp:438-444 | in each logical column, cells from the seam row to height-2 take the old value below, and every other cell keeps its old value; each column equals ShiftLeft of its old contents; the channel range carries over to height-1 rows |
| Scenario.RedCentreEnergies | functions.cpp:225-273 | on the 3 x 3 black grid with a red centre, only the four edge midpoints have non-zero energy |
| Scenario.RedCentreSeam | functions.cpp:391-425 | on that energy map both searches choose start 0; the vertical trace is [0, 1, 2] and the horizontal one [0, 1, 0] |
| Scenario.RedCentreScenario | functions.cpp:391-425 | building that grid and running both searches yields the seams [0, 1, 2] and [0, 1, 0] |

## Left out

- `loadImage` and `outputImage` are left out. They are file input and output built on C++ streams; the model receives the grid as a parameter.
- The channel range is taken as a precondition instead. The searches require every channel of the grid to be in [0, 255], which is what the loader guarantees (`Searchable`).
- Logging to standard output in `createImage` and `deleteImage` is left out.
- The allocation-failure branch of `createImage`, and `deleteImage` and `deleteSeam`, are left out. Allocation cannot fail in Dafny and memory is reclaimed automatically, so the search does not free its candidate seams either.
- `total_energy` is summed in unbounded integers, so the 32-bit overflow of the C++ `int` is not modelled. It would need a grid more than 5504 pixels long in the direction of the seam.
- Each channel difference is squared in unbounded integers too. With channels in [0, 255] no intermediate value comes near the 32-bit range.
- The energy function requires both logical dimensions to be at least 2 (`Carvable`). The code reads `y + 1` at row 0 and `x + 1` at column 0 and would read outside the grid otherwise.
- SeamFinder.LoadVerticalSeam and SeamFinder.LoadHorizontalSeam: they require a seam array of exactly height (or width) entries, as every caller allocates. The code would also accept a longer array and leave its tail alone.
- SeamFinder.LoadVerticalSeam and SeamFinder.LoadHorizontalSeam: they take the energy map as an extra ghost parameter, which the code does not have. It exists only to state what the energies read from the grid are.
- SeamFinder.CopySeam: the copy of a cheaper candidate into the best seam is a separate method in the model. The code has the same loop inline in `findMinVerticalSeam` and `findMinHorizontalSeam`.
- SeamRemover.RemoveVerticalSeam and SeamRemover.RemoveHorizontalSeam: they require every seam entry to be non-negative. A negative entry makes the code write outside the grid.
- EnergyFunction.Energy: its own contract states only that the energy is non-negative. Its meaning is stated by EnergyIsWrapGradient, the two zero-energy lemmas and EnergyBounds.
- SeamFinder.LeftEnergy, SeamFinder.RightEnergy, SeamFinder.TopEnergy, SeamFinder.BottomEnergy, SeamFinder.VerticalCost and SeamFinder.HorizontalCost: they carry no contract of their own, so that the trace proofs do not pay for it. VerticalSentinels, HorizontalSentinels, VerticalCostBounds and HorizontalCostBounds state what they mean.
- SeamRemover.ShiftLeft: its own contract states only that the line keeps its length. ShiftLeftDeletes, ShiftLeftKeepsPixels and ShiftLeftBeyondEnd state what the shift does.
- `functions.h` is not part of this model. `Pixel` is taken to have three `int` fields `r`, `g` and `b`.
