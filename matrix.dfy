/** Square matrices of ternary cells: the value that the grid array of a
    SymbolicGrid holds, row-major, indexed grid[row][column]. */
module Matrix {

  type Grid = seq<seq<int>>

  /** A cell is -1 (negative), 0 (neutral) or +1 (positive). */
  predicate IsCell(v: int) {
    -1 <= v <= 1
  }

  predicate IsSquare(g: Grid, n: nat) {
    |g| == n && forall i :: 0 <= i < n ==> |g[i]| == n
  }

  predicate AllCells(g: Grid) {
    forall i, j :: 0 <= i < |g| && 0 <= j < |g[i]| ==> IsCell(g[i][j])
  }

  /** The n×n matrix whose every cell is v. */
  function Uniform(n: nat, v: int): (g: Grid)
    ensures IsSquare(g, n)
    ensures IsCell(v) ==> AllCells(g)
  {
    seq(n, _ => seq(n, _ => v))
  }

  /** The all-neutral n×n matrix (a fresh zero array). */
  function Zeros(n: nat): (g: Grid)
    ensures IsSquare(g, n) && AllCells(g)
  {
    Uniform(n, 0)
  }

  /** g with the one cell at row r, column c replaced by v. */
  function Assign(g: Grid, r: nat, c: nat, v: int): (h: Grid)
    requires r < |g| && c < |g[r]|
    ensures |h| == |g| && forall i :: 0 <= i < |g| ==> |h[i]| == |g[i]|
    ensures forall i, j :: 0 <= i < |g| && 0 <= j < |g[i]| ==>
              h[i][j] == if i == r && j == c then v else g[i][j]
  {
    g[r := g[r][c := v]]
  }

  /** Two n×n matrices that agree on every cell are equal. */
  lemma SameCells(g: Grid, h: Grid, n: nat)
    requires IsSquare(g, n) && IsSquare(h, n)
    requires forall i, j :: 0 <= i < n && 0 <= j < n ==> g[i][j] == h[i][j]
    ensures g == h
  {
    forall i | 0 <= i < n
      ensures g[i] == h[i]
    {
      assert forall j :: 0 <= j < n ==> g[i][j] == h[i][j];
    }
  }

  /** Number of entries of s equal to v (list.count). */
  function Count(s: seq<int>, v: int): (c: nat)
    ensures c <= |s|
  {
    if |s| == 0 then 0 else (if s[0] == v then 1 else 0) + Count(s[1..], v)
  }

  /** Number of cells of g equal to v. */
  function CountIn(g: Grid, v: int): nat
  {
    if |g| == 0 then 0 else Count(g[0], v) + CountIn(g[1..], v)
  }

  /** A sequence of cells splits into its positive, negative and neutral entries. */
  lemma {:induction false} CountRowSplits(s: seq<int>)
    requires forall k :: 0 <= k < |s| ==> IsCell(s[k])
    ensures Count(s, 1) + Count(s, -1) + Count(s, 0) == |s|
  {
    if s != [] {
      CountRowSplits(s[1..]);
    }
  }

  lemma {:induction false} CountRowsSplit(g: Grid, m: nat)
    requires forall i :: 0 <= i < |g| ==> |g[i]| == m
    requires AllCells(g)
    ensures CountIn(g, 1) + CountIn(g, -1) + CountIn(g, 0) == |g| * m
  {
    if g != [] {
      assert forall k :: 0 <= k < |g[0]| ==> IsCell(g[0][k]);
      CountRowSplits(g[0]);
      CountRowsSplit(g[1..], m);
      assert |g| * m == m + |g[1..]| * m;
    }
  }

  /** The three symbol counts of an n×n matrix of cells add up to n*n. */
  lemma CountsSum(g: Grid, n: nat)
    requires IsSquare(g, n) && AllCells(g)
    ensures CountIn(g, 1) + CountIn(g, -1) + CountIn(g, 0) == n * n
  {
    CountRowsSplit(g, n);
  }

  lemma {:induction false} CountConstantRow(s: seq<int>, v: int, w: int)
    requires forall k :: 0 <= k < |s| ==> s[k] == v
    ensures Count(s, w) == if v == w then |s| else 0
  {
    if s != [] {
      CountConstantRow(s[1..], v, w);
    }
  }

  lemma {:induction false} CountConstantRows(g: Grid, m: nat, v: int, w: int)
    requires forall i :: 0 <= i < |g| ==> |g[i]| == m
    requires forall i, j :: 0 <= i < |g| && 0 <= j < m ==> g[i][j] == v
    ensures CountIn(g, w) == if v == w then |g| * m else 0
  {
    if g != [] {
      CountConstantRow(g[0], v, w);
      CountConstantRows(g[1..], m, v, w);
    }
  }

  /** In a uniform n×n matrix of v, v occurs n*n times and nothing else occurs. */
  lemma CountUniform(n: nat, v: int, w: int)
    ensures CountIn(Uniform(n, v), w) == if v == w then n * n else 0
  {
    CountConstantRows(Uniform(n, v), n, v, w);
  }

  lemma {:induction false} CountAssignRow(s: seq<int>, c: nat, v: int, w: int)
    requires c < |s|
    ensures Count(s[c := v], w) ==
              Count(s, w) - (if s[c] == w then 1 else 0) + (if v == w then 1 else 0)
  {
    if c > 0 {
      assert s[c := v][1..] == s[1..][c - 1 := v];
      CountAssignRow(s[1..], c - 1, v, w);
    } else {
      assert s[c := v][1..] == s[1..];
    }
  }

  /** Replacing one cell moves one occurrence from the old value to the new one. */
  lemma {:induction false} CountAssign(g: Grid, r: nat, c: nat, v: int, w: int)
    requires r < |g| && c < |g[r]|
    ensures CountIn(Assign(g, r, c, v), w) ==
              CountIn(g, w) - (if g[r][c] == w then 1 else 0) + (if v == w then 1 else 0)
  {
    if r > 0 {
      assert Assign(g, r, c, v)[1..] == Assign(g[1..], r - 1, c, v);
      CountAssign(g[1..], r - 1, c, v, w);
    } else {
      assert Assign(g, r, c, v)[1..] == g[1..];
      CountAssignRow(g[0], c, v, w);
    }
  }

  /** A value is counted zero times exactly when it does not occur. */
  lemma {:induction false} CountZeroRow(s: seq<int>, v: int)
    ensures Count(s, v) == 0 <==> forall k :: 0 <= k < |s| ==> s[k] != v
  {
    if |s| > 0 {
      CountZeroRow(s[1..], v);
      assert forall k :: 1 <= k < |s| ==> s[k] == s[1..][k - 1];
    }
  }

  lemma {:induction false} CountZero(g: Grid, v: int)
    ensures CountIn(g, v) == 0 <==> forall i, j :: 0 <= i < |g| && 0 <= j < |g[i]| ==> g[i][j] != v
  {
    if |g| > 0 {
      CountZeroRow(g[0], v);
      CountZero(g[1..], v);
      assert forall i :: 1 <= i < |g| ==> g[i] == g[1..][i - 1];
    }
  }

  /** Counting an extended sequence counts the new entry once more. */
  lemma {:induction false} CountSnoc(s: seq<int>, x: int, v: int)
    ensures Count(s + [x], v) == Count(s, v) + (if x == v then 1 else 0)
  {
    if |s| > 0 {
      assert (s + [x])[1..] == s[1..] + [x];
      CountSnoc(s[1..], x, v);
    }
  }

  /** Counting over one more row adds that row's count. */
  lemma {:induction false} CountInSnoc(g: Grid, r: seq<int>, v: int)
    ensures CountIn(g + [r], v) == CountIn(g, v) + Count(r, v)
  {
    if |g| > 0 {
      assert (g + [r])[1..] == g[1..] + [r];
      CountInSnoc(g[1..], r, v);
    } else {
      assert (g + [r])[1..] == [];
    }
  }
}
