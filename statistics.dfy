/** Symbol counts, the entropy stand-in and the history window reported by
    SymbolicGrid.metrics. */
module Statistics {
  import opened Matrix

  /** Tallies of the three symbols. */
  datatype Counts = Counts(pos: nat, neg: nat, zero: nat)

  /** The Shannon entropy of a grid is a float computed from its symbol
      distribution over `total` cells; the model keeps that distribution
      and leaves the log2 arithmetic out. */
  datatype Entropy = Entropy(distribution: Counts, total: int)

  /** Tallies of +1, -1 and 0 in g; a symbol that does not occur counts 0. */
  function CountsOf(g: Grid, n: nat): (c: Counts)
    requires IsSquare(g, n) && AllCells(g)
    ensures c.pos + c.neg + c.zero == n * n
    ensures c.pos == 0 <==> forall i, j :: 0 <= i < n && 0 <= j < n ==> g[i][j] != 1
    ensures c.neg == 0 <==> forall i, j :: 0 <= i < n && 0 <= j < n ==> g[i][j] != -1
    ensures c.zero == 0 <==> forall i, j :: 0 <= i < n && 0 <= j < n ==> g[i][j] != 0
  {
    CountsSum(g, n);
    CountZero(g, 1);
    CountZero(g, -1);
    CountZero(g, 0);
    Counts(CountIn(g, 1), CountIn(g, -1), CountIn(g, 0))
  }

  /** The entropy of an n×n grid, as its distribution over n*n cells. */
  function EntropyOf(g: Grid, n: nat): (e: Entropy)
    requires IsSquare(g, n) && AllCells(g)
    ensures e.total == n * n
    ensures e.distribution.pos + e.distribution.neg + e.distribution.zero == e.total
  {
    Entropy(CountsOf(g, n), n * n)
  }

  /** The last k entries of h, or all of h when it is shorter: h[-k:] for k > 0. */
  function Tail<T>(h: seq<T>, k: nat): (r: seq<T>)
    requires k > 0
    ensures |r| == if |h| < k then |h| else k
    ensures h == h[..|h| - |r|] + r
  {
    if |h| <= k then h else h[|h| - k..]
  }
}
