# SymbolicGrid in Dafny

This project models `SymbolicGrid`, the simulation engine behind the symbolic
cellular-automaton laboratory. A grid is a `size × size` torus of ternary cells
(-1 negative, 0 neutral, +1 positive). It also holds a positive and a negative
threshold, a step counter and an entropy history. One step updates every cell
synchronously:

- a cell becomes +1 when at least `pos_threshold` of its eight neighbours are +1;
- otherwise it becomes -1 when at least `neg_threshold` of them are -1;
- otherwise it keeps its value.

The model has two layers:

- `Lab` (lab.dfy) describes the state as a value (`Lab.State`). Every operation
  of the class is a function on that value, and the lemmas state the
  properties of those functions. `Matrix` (matrix.dfy), `Rule` (rule.dfy) and
  `Statistics` (statistics.dfy) hold the matrix algebra, the neighbourhood
  and update rule, and the counts.
- `Symbolic.SymbolicGrid` (symbolic.dfy) is the class itself. Its fields are
  those of the source, and the grid is an `array2<int>`. Each method is
  proved against the matching `Lab` function through `Abs()`.
  - `Step` builds the new grid in a copy of the array with nested row and
    column loops, reading only the current array. It then replaces the array,
    increments the counter and appends the new entropy.
  - `SetCell` writes one array element in place.
  - `Reset`, `SetSize`, `SetSeed` and `ImportState` allocate a new array.

Python's `%` with a positive divisor agrees with Dafny's `%`. The torus
indices `(y + dy) % size` and `x % size` are therefore written as they are in
the source.

The code behaves as follows, and so does the model:

- Neighbours wrap around the torus, so a cell on an edge sees the cells on
  the opposite edge.
- A cell that meets neither threshold keeps its value.
- A seed mode other than "chaos" and "genesis" resets the grid.
- Seeding ("genesis" or "chaos") keeps the step counter and the history.
- The history starts empty and gains one entry per step, so
  `|history| == step` holds until an import replaces both.
- Nothing is validated: not set_cell coordinates, not cell values, not
  thresholds, not imported snapshots. The model states as `requires` what
  the code assumes (see "Left out").
- Export followed by import keeps only the last 100 history entries, so a
  session with more than 100 steps does not resume exactly
  (`Lab.RoundTripLosesOldHistory`).
- `Lab.AsPayload` is the view of an exported snapshot that import reads back
  (every key present, with the exported values); the round trip through it
  is stated by `Lab.ExportImportRoundTrip`.

## Model

| member | source | states |
|---|---|---|
| Symbolic.SymbolicGrid.constructor | backend/symbolic.py:6-12 | a new grid has the given size and thresholds, an all-neutral array, step 0 and no history (`Lab.Init`) |
| Lab.Init | backend/symbolic.py:6-12 | a new state has the given size and thresholds, step 0, an empty history and every cell 0 |
| Symbolic.SymbolicGrid.Default | backend/symbolic.py:6 | without arguments the size is 100 and both thresholds are 3 |
| Lab.Reset | backend/symbolic.py:14-17 | reset keeps the size and both thresholds, sets the step to 0 and the history to empty, and makes every cell 0, so the counts are (0, 0, size*size) |
| Lab.ResetForgets | backend/symbolic.py:14-17 | two states with the same size and thresholds reset to the same state; resetting twice is resetting once |
| Symbolic.SymbolicGrid.Reset | backend/symbolic.py:14-17 | the method allocates a zero array, zeroes the step counter and empties the history, as `Lab.Reset` |
| Lab.SetSize | backend/symbolic.py:19-21 | resizing records the new size, keeps both thresholds, sets the step to 0 and the history to empty, and makes every cell of the new size×size grid 0 |
| Lab.ResizeDiscards | backend/symbolic.py:19-21 | resizing equals creating a new grid of that size with the current thresholds, and a step taken before resizing leaves no trace |
| Symbolic.SymbolicGrid.SetSize | backend/symbolic.py:19-21 | the method records the size and resets, as `Lab.SetSize` |
| Lab.SetCell | backend/symbolic.py:23-24 | exactly the cell (y mod size, x mod size) becomes v; every other cell, the size, the thresholds, the counter and the history are unchanged |
| Lab.SetCellWraps | backend/symbolic.py:24 | coordinates one full turn away, or -1, address the same cell as their remainder |
| Lab.SetCellCounts | backend/symbolic.py:24 | an edit moves exactly one cell from the tally of the old value to the tally of the new one |
| Symbolic.SymbolicGrid.SetCell | backend/symbolic.py:23-24 | the in-place array write has the effect of `Lab.SetCell` |
| Rule.Neighbors | backend/symbolic.py:26-30 | the neighbour list has exactly 8 entries, and they are cells when the grid holds cells |
| Rule.OffsetsAreMoore | backend/symbolic.py:28-29 | the offsets are the 8 pairs (dy, dx) in {-1,0,1}² other than (0,0), each listed once |
| Rule.NeighborAt | backend/symbolic.py:28-30 | for every Moore offset, the neighbour list holds the cell at ((y+dy) mod size, (x+dx) mod size), and both indices lie in [0, size) |
| Rule.NeighborsPeriodic | backend/symbolic.py:28-29 | moving a cell by a full turn of the torus in x or y does not change its neighbours |
| Rule.NeighborsWrapAtCorners | backend/symbolic.py:28-29 | cell (0,0) sees (size-1, size-1) as its up-left neighbour, and (size-1, size-1) sees (0,0) as its down-right one |
| Symbolic.SymbolicGrid.GetNeighbors | backend/symbolic.py:26-30 | reading the array at the wrapped indices gives `Rule.Neighbors` of the grid's contents |
| Rule.NextCell | backend/symbolic.py:39-43 | the rule maps cells to cells; a changed cell became +1 because the positive count met its threshold, or became -1 because the positive count did not and the negative count did |
| Rule.StepRule | backend/symbolic.py:36-43 | after a step the cell is +1 when the positive count meets the threshold; else -1 when the negative count does; else its old value (positive test first) |
| Rule.StepGridAt | backend/symbolic.py:33-43 | each cell of the stepped grid is the rule applied to that cell's value and neighbour counts in the grid before the step |
| Rule.StepGrid | backend/symbolic.py:33-44 | a step keeps the grid size×size and keeps every value in {-1,0,1} |
| Rule.OrderIrrelevant | backend/symbolic.py:33-44 | writing the stepped value of every cell into a copy while reading only the old grid gives the stepped grid, whatever the visiting order and with repeats |
| Rule.UpdateCellsAt | backend/symbolic.py:33-43 | after visiting a list of cells, each listed cell holds its stepped value and every other cell keeps its value in the copy |
| Rule.UniformFixedPoint | backend/symbolic.py:33-44 | with thresholds at least 1, an all-neutral grid is a fixed point, and so is an all-(+1) grid (positive threshold ≤ 8) or an all-(-1) grid (negative threshold ≤ 8) |
| Lab.FourByFourExample | backend/symbolic.py:6-43 | a new 4×4 grid with thresholds 3/3 and cells (1,1), (2,1), (1,2) set through set_cell holds the example grid; one step turns (2,2) to +1, keeps (1,1) at +1 and (0,0) at 0, and counts 1 step |
| Rule.ExampleMeetsThreshold | backend/symbolic.py:36-40 | in a 4×4 example with thresholds 3/3, cell (2,2) has exactly 3 positive neighbours and becomes +1 |
| Rule.ExampleKeepsValue | backend/symbolic.py:36-43 | in that example, cell (1,1) has 2 positive and no negative neighbours and keeps its +1 |
| Rule.ExampleStaysNeutral | backend/symbolic.py:36-43 | in that example, cell (0,0) has 1 positive and no negative neighbour and stays 0 |
| Symbolic.SymbolicGrid.NeighborCounts | backend/symbolic.py:36-38 | the two counts are the numbers of +1 and -1 entries among the cell's neighbours |
| Symbolic.SymbolicGrid.UpdateCell | backend/symbolic.py:36-43 | the conditional write puts the cell's stepped value into the copy and leaves every other element alone |
| Symbolic.SymbolicGrid.UpdateRow | backend/symbolic.py:35-43 | the inner loop turns row y of the copy into row y of the stepped grid and leaves the other rows alone |
| Symbolic.SymbolicGrid.NextGrid | backend/symbolic.py:33-43 | the nested loops over a fresh copy produce exactly the stepped grid, computed from the array before the step |
| Lab.Step | backend/symbolic.py:32-46 | a step keeps the state valid, size and thresholds; the new grid is the stepped grid of the old one; the counter rises by exactly 1, and the history gains exactly one entry at the end (the new grid's entropy) with earlier entries unchanged |
| Lab.StepAfterResetIsNeutral | backend/symbolic.py:14-46 | stepping a freshly reset grid with thresholds at least 1 leaves it all neutral, with counts (0, 0, size*size) |
| Symbolic.SymbolicGrid.Step | backend/symbolic.py:32-46 | the method replaces the array with the stepped copy, increments the counter and appends the entropy, as `Lab.Step` |
| Statistics.EntropyOf | backend/symbolic.py:48-52 | the entropy is taken over a total of size*size cells, and the distribution of the three symbols adds up to that total |
| Symbolic.SymbolicGrid.CurrentEntropy | backend/symbolic.py:48-52 | the tally of the array over size*size cells is the entropy of the grid's contents, `Statistics.EntropyOf` |
| Statistics.CountsOf | backend/symbolic.py:55-63 | the tallies of +1, -1 and 0 add up to size*size, and a tally is 0 exactly when no cell holds that symbol |
| Symbolic.SymbolicGrid.Tally | backend/symbolic.py:55-63 | one pass over the array yields `Statistics.CountsOf` of its contents: the +1, -1 and 0 tallies, 0 for an absent symbol |
| Matrix.CountsSum | backend/symbolic.py:55-63 | in a square matrix of cells, the positive, negative and neutral counts add up to n*n |
| Matrix.CountZero | backend/symbolic.py:55-63 | a value counts 0 in a matrix exactly when no element equals it |
| Matrix.CountAssign | backend/symbolic.py:24 | replacing one cell changes the count of a value by at most one, in the direction of the old and new values |
| Statistics.Tail | backend/symbolic.py:65 | `h[-100:]` keeps min(100, len h) entries, and they are a suffix of h |
| Lab.Metrics | backend/symbolic.py:54-67 | metrics reports the step and the size, the counts of the grid (`Statistics.CountsOf`), the current grid's entropy (`Statistics.EntropyOf`) over those counts, and the last min(100, len) history entries as a suffix of the history |
| Symbolic.SymbolicGrid.Metrics | backend/symbolic.py:54-67 | the tally loop, the entropy and the history tail give `Lab.Metrics` of the current state |
| Lab.Export | backend/symbolic.py:69-75 | the exported grid is square, of the reported size, and holds only cells |
| Symbolic.SymbolicGrid.ToList | backend/symbolic.py:71 | copying the array row by row gives its contents as nested lists |
| Symbolic.SymbolicGrid.ExportState | backend/symbolic.py:69-75 | the row-by-row copy, the metrics and the thresholds give `Lab.Export` of the current state; with at most 100 history entries, importing the snapshot restores the state |
| Lab.Import | backend/symbolic.py:77-83 | import installs the given grid and takes the size from its row count |
| Lab.ImportDefaults | backend/symbolic.py:80-83 | a payload with only a grid gives step 0, an empty history and the current thresholds |
| Lab.ExportImportRoundTrip | backend/symbolic.py:65-83 | export then import restores grid, size, thresholds and step count into any state, but only the last 100 history entries; a state with at most 100 entries is restored exactly |
| Lab.RoundTripLosesOldHistory | backend/symbolic.py:65-81 | a state with 101 steps and entries does not survive the round trip: the oldest entry is lost and history no longer matches the step count |
| Symbolic.SymbolicGrid.ImportState | backend/symbolic.py:77-83 | the method allocates the imported array and fills the other fields with the `.get` defaults, as `Lab.Import` |
| Lab.SetThresholds | backend/symbolic.py:85-87 | the new thresholds are stored and nothing else changes |
| Lab.ThresholdsRoundTrip | backend/symbolic.py:85-90 | reading the thresholds back returns what was set; setting what was read changes nothing |
| Symbolic.SymbolicGrid.SetThresholds | backend/symbolic.py:85-87 | the method keeps the array and has the effect of `Lab.SetThresholds` |
| Symbolic.SymbolicGrid.GetThresholds | backend/symbolic.py:89-90 | the method returns the positive and the negative threshold |
| Lab.Genesis | backend/symbolic.py:96-98 | the genesis grid is size×size and holds only cells |
| Lab.Seed | backend/symbolic.py:92-100 | seeding keeps the size and thresholds and yields a valid grid; "chaos" installs the drawn grid; "chaos" and "genesis" keep the step counter and the history |
| Lab.GenesisSeed | backend/symbolic.py:95-98 | genesis yields exactly one +1, at (size//2, size//2); every other cell is 0, so the counts are (1, 0, size*size - 1) |
| Lab.UnknownSeedResets | backend/symbolic.py:99-100 | any mode other than "chaos" and "genesis" is exactly a reset |
| Symbolic.SymbolicGrid.SetSeed | backend/symbolic.py:92-100 | the method installs the draws, the genesis array or a reset, as `Lab.Seed` |
| Lab.HistoryTracksSteps | backend/symbolic.py:14-46 | step, set_cell, set_thresholds, set_seed, reset and set_size all keep exactly one history entry per step |

## Left out

- The entropy value is a float computed with `log2` over numpy arrays (backend/symbolic.py:48-52). The model represents it by the symbol distribution and total it is computed from (`Statistics.Entropy`). Floating-point arithmetic is not modelled.
- Lab.Seed: "chaos" draws its grid from `np.random`. The model takes the drawn grid as the parameter `draws`, required to be size×size with values in {-1,0,1}. The distribution of the draws is not modelled.
- Lab.SetCell: requires the value to be in {-1,0,1}. The source stores any value the int8 array accepts, and does not check it.
- Symbolic.SymbolicGrid.SetCell: requires the value to be in {-1,0,1}, for the same reason.
- Lab.Import: requires a non-empty square grid of cells (`Lab.Importable`). In the source a missing 'grid' key raises KeyError at `state['grid']`, and a ragged grid makes `np.array` raise ValueError; the model's `Payload.grid` is not optional.
- Symbolic.SymbolicGrid.ImportState: requires `Lab.Importable`, for the same reason.
- Lab.Import: the step is typed `int` and each history entry `Statistics.Entropy`. The source stores whatever the imported object holds under those keys, of any type.
- Lab.SetSize: takes a `nat` size, so negative sizes are excluded. In the source, set_size stores the negative size before `np.zeros` raises ValueError, which leaves the old grid under a negative size.
- A size of 0 is excluded by `requires size > 0` (constructor, `Reset`, `SetSize`). In the source a 0×0 grid can still step, report metrics and export; `set_cell` divides by zero (`% 0`) and genesis seeding raises IndexError.
- numpy int8 storage and its wrap-around are not modelled; the grid is a matrix of unbounded integers holding -1, 0 and 1. `np.unique` and `tolist` are modelled by the loops `Tally` and `ToList`, not by numpy's own algorithms.
- The HTTP service around the single grid instance (backend/main.py) is not part of this model. Neither are the frontend (React state, canvas drawing, downloads, fetch calls) and its entropy-graph normalisation.
- Concurrent requests against the shared instance are not modelled. Every method runs to completion on its own.
