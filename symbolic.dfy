/** The SymbolicGrid class: a ternary cellular automaton on a size×size
    torus held in a two-dimensional array. Each method is proved against
    the corresponding function of module Lab through Abs(). */
module Symbolic {
  import opened Matrix
  import opened Rule
  import opened Statistics
  import opened Wrappers
  import Lab

  /** The contents of a two-dimensional array as nested lists, row by row. */
  function Contents(a: array2<int>): (g: Grid)
    reads a
    ensures |g| == a.Length0 && forall i :: 0 <= i < |g| ==> |g[i]| == a.Length1
    ensures forall i, j :: 0 <= i < a.Length0 && 0 <= j < a.Length1 ==> g[i][j] == a[i, j]
  {
    seq(a.Length0, i requires 0 <= i < a.Length0 reads a =>
      seq(a.Length1, j requires 0 <= j < a.Length1 reads a => a[i, j]))
  }

  class SymbolicGrid {
    var size: nat
    var posThreshold: int
    var negThreshold: int
    var grid: array2<int>
    var stepCount: int
    var entropyHistory: seq<Entropy>

    /** The class invariant: Lab.Valid of the abstract state. */
    ghost predicate Valid()
      reads this, grid
    {
      size > 0 && grid.Length0 == size && grid.Length1 == size &&
      AllCells(Contents(grid))
    }

    /** The array has the recorded size; all that reading neighbours needs. */
    predicate Shaped()
      reads this
    {
      size > 0 && grid.Length0 == size && grid.Length1 == size
    }

    /** The abstract state. */
    function Abs(): (s: Lab.State)
      reads this, grid
      requires Valid()
      ensures Lab.Valid(s)
    {
      Lab.State(size, Contents(grid), posThreshold, negThreshold, stepCount, entropyHistory)
    }

    /** A new grid of the given size and thresholds, all neutral. */
    constructor (n: nat, pos: int, neg: int)
      requires n > 0
      ensures Valid() && fresh(grid)
      ensures Abs() == Lab.Init(n, pos, neg)
    {
      size, posThreshold, negThreshold := n, pos, neg;
      grid := new int[n, n]((_, _) => 0);
      stepCount := 0;
      entropyHistory := [];
      new;
      SameCells(Contents(grid), Zeros(n), n);
    }

    /** A new grid with the default size and thresholds. */
    constructor Default()
      ensures Valid() && fresh(grid)
      ensures Abs() == Lab.Init(Lab.DefaultSize, Lab.DefaultPosThreshold, Lab.DefaultNegThreshold)
    {
      var n := Lab.DefaultSize;
      size, posThreshold, negThreshold := n, Lab.DefaultPosThreshold, Lab.DefaultNegThreshold;
      grid := new int[n, n]((_, _) => 0);
      stepCount := 0;
      entropyHistory := [];
      new;
      SameCells(Contents(grid), Zeros(n), n);
    }

    /** An all-neutral grid of the current size, no steps and no history. */
    method Reset()
      requires size > 0
      modifies this
      ensures Valid() && fresh(grid)
      ensures Abs() == Lab.Init(old(size), old(posThreshold), old(negThreshold))
      ensures old(Valid()) ==> Abs() == Lab.Reset(old(Abs()))
    {
      grid := new int[size, size]((_, _) => 0);
      stepCount := 0;
      entropyHistory := [];
      SameCells(Contents(grid), Zeros(size), size);
    }

    method SetSize(n: nat)
      requires Valid() && n > 0
      modifies this
      ensures Valid() && fresh(grid)
      ensures Abs() == Lab.SetSize(old(Abs()), n)
    {
      size := n;
      Reset();
    }

    /** Writes one cell; coordinates are reduced modulo the size. */
    method SetCell(x: int, y: int, value: int)
      requires Valid() && IsCell(value)
      modifies grid
      ensures Valid()
      ensures Abs() == Lab.SetCell(old(Abs()), x, y, value)
    {
      ghost var before := Abs();
      grid[y % size, x % size] := value;
      SameCells(Contents(grid), Lab.SetCell(before, x, y, value).grid, size);
    }

    /** The eight neighbour values of the cell at column x, row y, read from
        the array with wrap-around. */
    function GetNeighbors(x: int, y: int): (r: seq<int>)
      reads this, grid
      requires Shaped()
      ensures r == Neighbors(Contents(grid), size, x, y)
    {
      var a, n := grid, size;
      seq(|Offsets|, k requires 0 <= k < |Offsets| && n > 0 && a.Length0 == n && a.Length1 == n reads a =>
        a[(y + Offsets[k].0) % n, (x + Offsets[k].1) % n])
    }

    /** The grid after one step, built in a copy of the current array while
        the current array is only read. */
    method NextGrid() returns (newGrid: array2<int>)
      requires Shaped()
      ensures fresh(newGrid) && newGrid.Length0 == size && newGrid.Length1 == size
      ensures Contents(newGrid) == StepGrid(Contents(grid), size, posThreshold, negThreshold)
    {
      var a, n := grid, size;
      newGrid := new int[n, n]((i, j) requires 0 <= i < a.Length0 && 0 <= j < a.Length1 reads a => a[i, j]);
      ghost var before := Contents(grid);
      ghost var after := StepGrid(before, n, posThreshold, negThreshold);
      var y := 0;
      while y < n
        invariant 0 <= y <= n
        invariant forall i, j :: 0 <= i < y && 0 <= j < n ==> newGrid[i, j] == after[i][j]
        invariant forall i, j :: y <= i < n && 0 <= j < n ==> newGrid[i, j] == before[i][j]
      {
        UpdateRow(newGrid, y, before, after);
        y := y + 1;
      }
      SameCells(Contents(newGrid), after, n);
    }

    /** Rewrites row y of newGrid, a copy of the grid, from the neighbour
        counts in the grid. */
    method UpdateRow(newGrid: array2<int>, y: nat, ghost before: Grid, ghost after: Grid)
      requires Shaped() && newGrid != grid
      requires newGrid.Length0 == size && newGrid.Length1 == size && y < size
      requires before == Contents(grid) && after == StepGrid(before, size, posThreshold, negThreshold)
      requires forall j :: 0 <= j < size ==> newGrid[y, j] == before[y][j]
      modifies newGrid
      ensures forall j :: 0 <= j < size ==> newGrid[y, j] == after[y][j]
      ensures forall i, j :: 0 <= i < size && 0 <= j < size && i != y ==> newGrid[i, j] == old(newGrid[i, j])
    {
      StepRowsAt(before, size, posThreshold, negThreshold, size, y);
      ghost var row := StepCells(before, size, posThreshold, negThreshold, y, size);
      var x := 0;
      while x < size
        invariant 0 <= x <= size
        invariant forall j :: 0 <= j < x ==> newGrid[y, j] == row[j]
        invariant forall j :: x <= j < size ==> newGrid[y, j] == before[y][j]
        invariant forall i, j :: 0 <= i < size && 0 <= j < size && i != y ==> newGrid[i, j] == old(newGrid[i, j])
      {
        UpdateCell(newGrid, x, y, before, row);
        x := x + 1;
      }
    }

    /** Applies the rule to the cell at column x, row y of newGrid from the
        neighbour counts in the grid: +1 when enough neighbours are positive,
        otherwise -1 when enough are negative, otherwise the copied value stays. */
    method UpdateCell(newGrid: array2<int>, x: nat, y: nat, ghost before: Grid, ghost row: seq<int>)
      requires Shaped() && newGrid != grid
      requires newGrid.Length0 == size && newGrid.Length1 == size && x < size && y < size
      requires before == Contents(grid) && newGrid[y, x] == before[y][x]
      requires row == StepCells(before, size, posThreshold, negThreshold, y, size)
      modifies newGrid
      ensures newGrid[y, x] == row[x]
      ensures forall i, j :: 0 <= i < size && 0 <= j < size && (i != y || j != x) ==>
                newGrid[i, j] == old(newGrid[i, j])
    {
      StepCellsAt(before, size, posThreshold, negThreshold, y, size, x);
      var posCount, negCount := NeighborCounts(x, y);
      if posCount >= posThreshold {
        newGrid[y, x] := 1;
      } else if negCount >= negThreshold {
        newGrid[y, x] := -1;
      }
    }

    /** How many neighbours of the cell at column x, row y are +1 and -1. */
    method NeighborCounts(x: int, y: int) returns (posCount: nat, negCount: nat)
      requires Shaped()
      ensures posCount == Count(Neighbors(Contents(grid), size, x, y), 1)
      ensures negCount == Count(Neighbors(Contents(grid), size, x, y), -1)
    {
      var neighbors := GetNeighbors(x, y);
      posCount := Count(neighbors, 1);
      negCount := Count(neighbors, -1);
    }

    /** One synchronous step, then the counter and the history are updated. */
    method Step()
      requires Valid()
      modifies this
      ensures Valid() && fresh(grid)
      ensures Abs() == Lab.Step(old(Abs()))
    {
      var newGrid := NextGrid();
      grid := newGrid;
      stepCount := stepCount + 1;
      var e := CurrentEntropy();
      entropyHistory := entropyHistory + [e];
    }

    /** One pass over the array tallying +1, -1 and 0 cells, the counts that
        np.unique yields; a symbol that does not occur tallies 0. */
    method Tally() returns (c: Counts)
      requires Valid()
      ensures c == CountsOf(Contents(grid), size)
    {
      ghost var g := Contents(grid);
      var pos, neg, zero := 0, 0, 0;
      var y := 0;
      while y < size
        invariant 0 <= y <= size
        invariant pos == CountIn(g[..y], 1) && neg == CountIn(g[..y], -1) && zero == CountIn(g[..y], 0)
      {
        var x := 0;
        while x < size
          invariant 0 <= x <= size
          invariant pos == CountIn(g[..y], 1) + Count(g[y][..x], 1)
          invariant neg == CountIn(g[..y], -1) + Count(g[y][..x], -1)
          invariant zero == CountIn(g[..y], 0) + Count(g[y][..x], 0)
        {
          var v := grid[y, x];
          assert g[y][..x + 1] == g[y][..x] + [v];
          CountSnoc(g[y][..x], v, 1);
          CountSnoc(g[y][..x], v, -1);
          CountSnoc(g[y][..x], v, 0);
          if v == 1 {
            pos := pos + 1;
          } else if v == -1 {
            neg := neg + 1;
          } else if v == 0 {
            zero := zero + 1;
          }
          x := x + 1;
        }
        assert g[y][..size] == g[y];
        assert g[..y + 1] == g[..y] + [g[y]];
        CountInSnoc(g[..y], g[y], 1);
        CountInSnoc(g[..y], g[y], -1);
        CountInSnoc(g[..y], g[y], 0);
        y := y + 1;
      }
      assert g[..size] == g;
      c := Counts(pos, neg, zero);
    }

    /** The array as nested lists, copied row by row. */
    method ToList() returns (rows: Grid)
      requires Shaped()
      ensures rows == Contents(grid)
    {
      ghost var g := Contents(grid);
      rows := [];
      var y := 0;
      while y < size
        invariant 0 <= y <= size
        invariant rows == g[..y]
      {
        var row := [];
        var x := 0;
        while x < size
          invariant 0 <= x <= size
          invariant row == g[y][..x]
        {
          assert g[y][..x + 1] == g[y][..x] + [grid[y, x]];
          row := row + [grid[y, x]];
          x := x + 1;
        }
        assert row == g[y];
        assert g[..y + 1] == g[..y] + [g[y]];
        rows := rows + [row];
        y := y + 1;
      }
    }

    /** The entropy of the current grid, as its tallied symbol distribution
        over size*size cells. */
    method CurrentEntropy() returns (e: Entropy)
      requires Valid()
      ensures e == EntropyOf(Contents(grid), size)
      ensures e.total == size * size
    {
      var c := Tally();
      e := Entropy(c, size * size);
    }

    /** Step, symbol tallies, entropy, the recent history and the size. */
    method Metrics() returns (m: Lab.Report)
      requires Valid()
      ensures m == Lab.Metrics(Abs())
    {
      var c := Tally();
      var e := CurrentEntropy();
      m := Lab.Report(stepCount, c, e, Tail(entropyHistory, Lab.HistoryWindow), size);
    }

    /** The grid as nested lists, the metrics and the thresholds; with at most
        HistoryWindow history entries, importing it restores this state. */
    method ExportState() returns (snap: Lab.Snapshot)
      requires Valid()
      ensures snap == Lab.Export(Abs())
      ensures |entropyHistory| <= Lab.HistoryWindow ==> Lab.Import(Abs(), Lab.AsPayload(snap)) == Abs()
    {
      var rows := ToList();
      var m := Metrics();
      snap := Lab.Snapshot(rows, m, posThreshold, negThreshold);
      Lab.ExportImportRoundTrip(Abs(), Abs());
    }

    method SetThresholds(pos: int, neg: int)
      requires Valid()
      modifies this
      ensures Valid() && grid == old(grid)
      ensures Abs() == Lab.SetThresholds(old(Abs()), pos, neg)
    {
      posThreshold := pos;
      negThreshold := neg;
    }

    method GetThresholds() returns (pos: int, neg: int)
      requires Valid()
      ensures (pos, neg) == Lab.GetThresholds(Abs())
    {
      pos, neg := posThreshold, negThreshold;
    }

    /** Seeds by mode; `draws` stands for the random grid that "chaos" draws. */
    method SetSeed(mode: string, draws: Grid)
      requires Valid()
      requires mode == "chaos" ==> IsSquare(draws, size) && AllCells(draws)
      modifies this
      ensures Valid()
      ensures Abs() == Lab.Seed(old(Abs()), mode, draws)
    {
      ghost var before := Abs();
      if mode == "chaos" {
        var n := size;
        grid := new int[n, n]((i, j) requires 0 <= i < |draws| && 0 <= j < |draws[i]| => draws[i][j]);
        SameCells(Contents(grid), draws, n);
      } else if mode == "genesis" {
        var n := size;
        var g := new int[n, n]((_, _) => 0);
        g[n / 2, n / 2] := 1;
        grid := g;
        SameCells(Contents(grid), Lab.Genesis(n), n);
      } else {
        Reset();
      }
    }

    /** Replaces the whole state from an imported object. */
    method ImportState(p: Lab.Payload)
      requires Valid() && Lab.Importable(p)
      modifies this
      ensures Valid() && fresh(grid)
      ensures Abs() == Lab.Import(old(Abs()), p)
    {
      var n := |p.grid|;
      grid := new int[n, n]((i, j) requires 0 <= i < |p.grid| && 0 <= j < |p.grid[i]| => p.grid[i][j]);
      size := n;
      var m := p.metrics.GetOr(Lab.MetricsFields(None, None));
      stepCount := m.step.GetOr(0);
      entropyHistory := m.entropyHistory.GetOr([]);
      posThreshold := p.posThreshold.GetOr(posThreshold);
      negThreshold := p.negThreshold.GetOr(negThreshold);
      SameCells(Contents(grid), p.grid, n);
    }
  }
}
