/** The rule engine of SymbolicGrid: toroidal Moore neighbourhoods and the
    synchronous neighbour-threshold update. */
module Rule {
  import opened Matrix

  /** The eight neighbour offsets (dy, dx) in the order the grid visits them:
      dy outer, dx inner, each over -1, 0, 1, with (0, 0) skipped. */
  const Offsets: seq<(int, int)> :=
    [(-1, -1), (-1, 0), (-1, 1), (0, -1), (0, 1), (1, -1), (1, 0), (1, 1)]

  predicate IsMooreOffset(dy: int, dx: int) {
    -1 <= dy <= 1 && -1 <= dx <= 1 && !(dy == 0 && dx == 0)
  }

  /** The offsets are exactly the eight Moore offsets, each listed once. */
  lemma OffsetsAreMoore()
    ensures |Offsets| == 8
    ensures forall k :: 0 <= k < |Offsets| ==> IsMooreOffset(Offsets[k].0, Offsets[k].1)
    ensures forall dy, dx :: IsMooreOffset(dy, dx) ==> (dy, dx) in Offsets
    ensures forall k, l :: 0 <= k < l < |Offsets| ==> Offsets[k] != Offsets[l]
  {
  }

  lemma MulBounds(n: int, d: int)
    requires n > 0
    ensures d >= 1 ==> n * d >= n
    ensures d <= -1 ==> n * d <= -n
  {
  }

  /** Euclidean remainder is determined by any decomposition a == n*q + r with 0 <= r < n. */
  lemma ModUnique(a: int, n: int, q: int, r: int)
    requires n > 0 && 0 <= r < n && a == n * q + r
    ensures a % n == r
  {
    var q', r' := a / n, a % n;
    assert a == n * q' + r';
    assert n * (q - q') == r' - r;
    MulBounds(n, q - q');
  }

  /** Indices wrap with period n. */
  lemma ModShift(a: int, n: int)
    requires n > 0
    ensures (a + n) % n == a % n
  {
    ModUnique(a + n, n, a / n + 1, a % n);
  }

  /** Neighbour values of the cell in column x, row y, read from g with
      both indices reduced modulo n, so that the grid wraps around as a torus. */
  function Neighbors(g: Grid, n: nat, x: int, y: int): (r: seq<int>)
    requires n > 0 && IsSquare(g, n)
    ensures |r| == |Offsets|
    ensures AllCells(g) ==> forall k :: 0 <= k < |r| ==> IsCell(r[k])
  {
    seq(|Offsets|, k requires 0 <= k < |Offsets| => g[(y + Offsets[k].0) % n][(x + Offsets[k].1) % n])
  }

  /** The neighbour read for each Moore offset is the cell at the wrapped
      position, and that position always lies inside the grid. */
  lemma NeighborAt(g: Grid, n: nat, x: int, y: int, dy: int, dx: int)
    requires n > 0 && IsSquare(g, n) && IsMooreOffset(dy, dx)
    ensures 0 <= (y + dy) % n < n && 0 <= (x + dx) % n < n
    ensures exists k :: 0 <= k < |Offsets| && Offsets[k] == (dy, dx) &&
                        Neighbors(g, n, x, y)[k] == g[(y + dy) % n][(x + dx) % n]
  {
    var i := (dy + 1) * 3 + (dx + 1);
    var k := if i > 4 then i - 1 else i;
    assert Offsets[k] == (dy, dx);
    assert Neighbors(g, n, x, y)[k] == g[(y + dy) % n][(x + dx) % n];
  }

  /** Shifting a cell by one full turn of the torus, in either direction,
      does not change its neighbours. */
  lemma NeighborsPeriodic(g: Grid, n: nat, x: int, y: int)
    requires n > 0 && IsSquare(g, n)
    ensures Neighbors(g, n, x + n, y) == Neighbors(g, n, x, y)
    ensures Neighbors(g, n, x, y + n) == Neighbors(g, n, x, y)
  {
    forall k | 0 <= k < |Offsets|
      ensures (x + n + Offsets[k].1) % n == (x + Offsets[k].1) % n
      ensures (y + n + Offsets[k].0) % n == (y + Offsets[k].0) % n
    {
      ModShift(x + Offsets[k].1, n);
      ModShift(y + Offsets[k].0, n);
    }
  }

  /** The corner cell (0, 0) sees the opposite corner as its up-left
      neighbour, and the cell (n-1, n-1) sees (0, 0) as its down-right one. */
  lemma NeighborsWrapAtCorners(g: Grid, n: nat)
    requires n > 0 && IsSquare(g, n)
    ensures Neighbors(g, n, 0, 0)[0] == g[n - 1][n - 1]
    ensures Neighbors(g, n, n - 1, n - 1)[7] == g[0][0]
  {
  }

  /** The per-cell rule: +1 when enough neighbours are positive, otherwise -1
      when enough are negative, otherwise the cell keeps its value. */
  function NextCell(cur: int, posCount: int, negCount: int, posThreshold: int, negThreshold: int): (r: int)
    ensures IsCell(cur) ==> IsCell(r)
    ensures r != cur ==> (r == 1 && posCount >= posThreshold) ||
                         (r == -1 && posCount < posThreshold && negCount >= negThreshold)
  {
    if posCount >= posThreshold then 1
    else if negCount >= negThreshold then -1
    else cur
  }

  /** The cell at column x, row y after one step, computed from its
      neighbours in g, the grid before the step. */
  function StepCell(g: Grid, n: nat, posThreshold: int, negThreshold: int, x: nat, y: nat): (r: int)
    requires n > 0 && IsSquare(g, n) && x < n && y < n
    ensures AllCells(g) ==> IsCell(r)
  {
    var ns := Neighbors(g, n, x, y);
    NextCell(g[y][x], Count(ns, 1), Count(ns, -1), posThreshold, negThreshold)
  }

  /** The first k cells of row y after one step. */
  function StepCells(g: Grid, n: nat, posThreshold: int, negThreshold: int, y: nat, k: nat): (r: seq<int>)
    requires n > 0 && IsSquare(g, n) && y < n && k <= n
    ensures |r| == k
    ensures AllCells(g) ==> forall x :: 0 <= x < k ==> IsCell(r[x])
  {
    if k == 0 then []
    else StepCells(g, n, posThreshold, negThreshold, y, k - 1) + [StepCell(g, n, posThreshold, negThreshold, k - 1, y)]
  }

  /** The first k rows of the grid after one step. */
  function StepRows(g: Grid, n: nat, posThreshold: int, negThreshold: int, k: nat): (r: Grid)
    requires n > 0 && IsSquare(g, n) && k <= n
    ensures |r| == k && forall i :: 0 <= i < k ==> |r[i]| == n
    ensures AllCells(g) ==> AllCells(r)
  {
    if k == 0 then []
    else StepRows(g, n, posThreshold, negThreshold, k - 1) + [StepCells(g, n, posThreshold, negThreshold, k - 1, n)]
  }

  /** One synchronous step: every cell of the result is computed from g, the
      grid before the step, so no cell observes an already updated neighbour
      and the order of visiting cells is irrelevant. */
  function StepGrid(g: Grid, n: nat, posThreshold: int, negThreshold: int): (r: Grid)
    requires n > 0 && IsSquare(g, n)
    ensures IsSquare(r, n)
    ensures AllCells(g) ==> AllCells(r)
  {
    StepRows(g, n, posThreshold, negThreshold, n)
  }

  lemma {:induction false} StepCellsAt(g: Grid, n: nat, posThreshold: int, negThreshold: int, y: nat, k: nat, x: nat)
    requires n > 0 && IsSquare(g, n) && y < n && x < k <= n
    ensures StepCells(g, n, posThreshold, negThreshold, y, k)[x] == StepCell(g, n, posThreshold, negThreshold, x, y)
  {
    if x < k - 1 {
      StepCellsAt(g, n, posThreshold, negThreshold, y, k - 1, x);
    }
  }

  lemma {:induction false} StepRowsAt(g: Grid, n: nat, posThreshold: int, negThreshold: int, k: nat, y: nat)
    requires n > 0 && IsSquare(g, n) && y < k <= n
    ensures StepRows(g, n, posThreshold, negThreshold, k)[y] == StepCells(g, n, posThreshold, negThreshold, y, n)
  {
    if y < k - 1 {
      StepRowsAt(g, n, posThreshold, negThreshold, k - 1, y);
    }
  }

  /** Each cell of the stepped grid is the rule applied to that cell and its
      neighbours before the step. */
  lemma StepGridAt(g: Grid, n: nat, posThreshold: int, negThreshold: int, x: nat, y: nat)
    requires n > 0 && IsSquare(g, n) && x < n && y < n
    ensures StepGrid(g, n, posThreshold, negThreshold)[y][x] ==
            NextCell(g[y][x], Count(Neighbors(g, n, x, y), 1), Count(Neighbors(g, n, x, y), -1),
                     posThreshold, negThreshold)
  {
    StepRowsAt(g, n, posThreshold, negThreshold, n, y);
    StepCellsAt(g, n, posThreshold, negThreshold, y, n, x);
  }

  /** The cell at column x, row y after a step, in terms of its neighbour
      counts before the step; the positive test takes precedence. */
  lemma StepRule(g: Grid, n: nat, posThreshold: int, negThreshold: int, x: nat, y: nat)
    requires n > 0 && IsSquare(g, n) && x < n && y < n
    ensures var ns := Neighbors(g, n, x, y);
            var next := StepGrid(g, n, posThreshold, negThreshold)[y][x];
            (Count(ns, 1) >= posThreshold ==> next == 1) &&
            (Count(ns, 1) < posThreshold && Count(ns, -1) >= negThreshold ==> next == -1) &&
            (Count(ns, 1) < posThreshold && Count(ns, -1) < negThreshold ==> next == g[y][x])
  {
    StepGridAt(g, n, posThreshold, negThreshold, x, y);
  }

  predicate InGrid(cells: seq<(nat, nat)>, n: nat) {
    forall k :: 0 <= k < |cells| ==> cells[k].0 < n && cells[k].1 < n
  }

  /** Visits the listed cells (column, row) in order and writes each one's
      stepped value into h, always reading the neighbours from g: the loop
      of a step in an arbitrary visiting order. */
  function UpdateCells(g: Grid, n: nat, posThreshold: int, negThreshold: int, h: Grid, cells: seq<(nat, nat)>): (r: Grid)
    requires n > 0 && IsSquare(g, n) && IsSquare(h, n) && InGrid(cells, n)
    ensures IsSquare(r, n)
    decreases |cells|
  {
    if |cells| == 0 then h
    else
      var x, y := cells[0].0, cells[0].1;
      UpdateCells(g, n, posThreshold, negThreshold, Assign(h, y, x, StepCell(g, n, posThreshold, negThreshold, x, y)), cells[1..])
  }

  /** After the visit, a listed cell holds its stepped value and every other
      cell keeps its value in h. */
  lemma {:induction false} UpdateCellsAt(g: Grid, n: nat, posThreshold: int, negThreshold: int, h: Grid, cells: seq<(nat, nat)>, i: nat, j: nat)
    requires n > 0 && IsSquare(g, n) && IsSquare(h, n) && InGrid(cells, n) && i < n && j < n
    ensures UpdateCells(g, n, posThreshold, negThreshold, h, cells)[i][j] ==
            if (j, i) in cells then StepCell(g, n, posThreshold, negThreshold, j, i) else h[i][j]
    decreases |cells|
  {
    if |cells| > 0 {
      var x, y := cells[0].0, cells[0].1;
      var h' := Assign(h, y, x, StepCell(g, n, posThreshold, negThreshold, x, y));
      UpdateCellsAt(g, n, posThreshold, negThreshold, h', cells[1..], i, j);
      assert (j, i) in cells <==> (j, i) == cells[0] || (j, i) in cells[1..] by {
        assert cells == [cells[0]] + cells[1..];
      }
    }
  }

  /** The update is synchronous: visiting every cell, in any order and with
      repetitions, while writing into a copy of g and reading only g, yields
      the stepped grid. */
  lemma OrderIrrelevant(g: Grid, n: nat, posThreshold: int, negThreshold: int, cells: seq<(nat, nat)>)
    requires n > 0 && IsSquare(g, n) && InGrid(cells, n)
    requires forall x: nat, y: nat :: x < n && y < n ==> (x, y) in cells
    ensures UpdateCells(g, n, posThreshold, negThreshold, g, cells) == StepGrid(g, n, posThreshold, negThreshold)
  {
    forall i, j | 0 <= i < n && 0 <= j < n
      ensures UpdateCells(g, n, posThreshold, negThreshold, g, cells)[i][j] ==
              StepGrid(g, n, posThreshold, negThreshold)[i][j]
    {
      UpdateCellsAt(g, n, posThreshold, negThreshold, g, cells, i, j);
      StepGridAt(g, n, posThreshold, negThreshold, j, i);
    }
    SameCells(UpdateCells(g, n, posThreshold, negThreshold, g, cells), StepGrid(g, n, posThreshold, negThreshold), n);
  }

  /** Every neighbour of a cell in a uniform grid has the uniform value. */
  lemma NeighborsOfUniform(n: nat, v: int, x: int, y: int)
    requires n > 0
    ensures forall k :: 0 <= k < |Offsets| ==> Neighbors(Uniform(n, v), n, x, y)[k] == v
  {
  }

  /** A uniform grid is a fixed point of the step when thresholds are at
      least 1: all neutral stays neutral (no spontaneous growth), and all +1
      (positive threshold at most 8) or all -1 (negative threshold at most 8)
      persists. */
  lemma UniformFixedPoint(n: nat, v: int, posThreshold: int, negThreshold: int)
    requires n > 0 && IsCell(v)
    requires 1 <= posThreshold && 1 <= negThreshold
    requires v == 1 ==> posThreshold <= 8
    requires v == -1 ==> negThreshold <= 8
    ensures StepGrid(Uniform(n, v), n, posThreshold, negThreshold) == Uniform(n, v)
  {
    var g := Uniform(n, v);
    var r := StepGrid(g, n, posThreshold, negThreshold);
    forall y, x | 0 <= y < n && 0 <= x < n
      ensures r[y][x] == g[y][x]
    {
      var ns := Neighbors(g, n, x, y);
      NeighborsOfUniform(n, v, x, y);
      CountConstantRow(ns, v, 1);
      CountConstantRow(ns, v, -1);
      StepGridAt(g, n, posThreshold, negThreshold, x, y);
    }
    SameCells(r, g, n);
  }

  /** A 4×4 example: cells (1,1), (2,1) and (1,2) set to +1 on a neutral
      grid, with thresholds 3 and 3. Coordinates are (column, row). */
  const Example: Grid := [[0, 0, 0, 0], [0, 1, 1, 0], [0, 1, 0, 0], [0, 0, 0, 0]]

  lemma ExampleIsSquare()
    ensures IsSquare(Example, 4)
  {
  }

  /** (2,2) has exactly three positive neighbours and becomes +1. */
  lemma ExampleMeetsThreshold(g: Grid)
    requires g == Example
    ensures IsSquare(g, 4) && Count(Neighbors(g, 4, 2, 2), 1) == 3
    ensures StepGrid(g, 4, 3, 3)[2][2] == 1
  {
    assert Neighbors(Example, 4, 2, 2) == [1, 1, 0, 1, 0, 0, 0, 0];
    assert Count([1, 1, 0, 1, 0, 0, 0, 0], 1) == 3;
    ExampleIsSquare();
    StepRule(g, 4, 3, 3, 2, 2);
  }

  /** (1,1) has only two positive neighbours, no negative one, and keeps its +1. */
  lemma ExampleKeepsValue(g: Grid)
    requires g == Example
    ensures IsSquare(g, 4) && Count(Neighbors(g, 4, 1, 1), 1) == 2 && Count(Neighbors(g, 4, 1, 1), -1) == 0
    ensures StepGrid(g, 4, 3, 3)[1][1] == 1
  {
    assert Neighbors(Example, 4, 1, 1) == [0, 0, 0, 0, 1, 0, 1, 0];
    assert Count([0, 0, 0, 0, 1, 0, 1, 0], 1) == 2;
    assert Count([0, 0, 0, 0, 1, 0, 1, 0], -1) == 0;
    ExampleIsSquare();
    StepRule(g, 4, 3, 3, 1, 1);
  }

  /** (0,0) sees (1,1) only and stays neutral. */
  lemma ExampleStaysNeutral(g: Grid)
    requires g == Example
    ensures IsSquare(g, 4) && Count(Neighbors(g, 4, 0, 0), 1) == 1 && Count(Neighbors(g, 4, 0, 0), -1) == 0
    ensures StepGrid(g, 4, 3, 3)[0][0] == 0
  {
    assert Neighbors(Example, 4, 0, 0) == [0, 0, 0, 0, 0, 0, 0, 1];
    assert Count([0, 0, 0, 0, 0, 0, 0, 1], 1) == 1;
    assert Count([0, 0, 0, 0, 0, 0, 0, 1], -1) == 0;
    ExampleIsSquare();
    StepRule(g, 4, 3, 3, 0, 0);
  }
}
