/** The state of a SymbolicGrid as a value, and every operation of the class
    as a function from the state before to the state after (or to the value
    it reports). The class in module Symbolic is proved against these. */
module Lab {
  import opened Wrappers
  import opened Matrix
  import opened Rule
  import opened Statistics

  /** Everything a SymbolicGrid holds. */
  datatype State = State(
    size: nat,
    grid: Grid,
    posThreshold: int,
    negThreshold: int,
    stepCount: int,
    entropyHistory: seq<Entropy>)

  /** What the class relies on: a positive size and a size×size grid of cells. */
  predicate Valid(s: State) {
    s.size > 0 && IsSquare(s.grid, s.size) && AllCells(s.grid)
  }

  /** One history entry per step since the last reset. */
  predicate InSync(s: State) {
    |s.entropyHistory| == s.stepCount
  }

  /** The size and thresholds of a grid created without arguments. */
  const DefaultSize: nat := 100
  const DefaultPosThreshold: int := 3
  const DefaultNegThreshold: int := 3

  /** How many history entries metrics reports. */
  const HistoryWindow: nat := 100

  // ---------------------------------------------------------------- lifecycle

  /** An all-neutral grid with no steps and no history; size and thresholds kept. */
  function Reset(s: State): (t: State)
    requires s.size > 0
    ensures Valid(t) && InSync(t)
    ensures t.size == s.size && GetThresholds(t) == GetThresholds(s)
    ensures t.stepCount == 0 && t.entropyHistory == []
    ensures forall i, j :: 0 <= i < t.size && 0 <= j < t.size ==> t.grid[i][j] == 0
    ensures CountsOf(t.grid, t.size) == Counts(0, 0, t.size * t.size)
  {
    CountUniform(s.size, 0, 1);
    CountUniform(s.size, 0, -1);
    CountUniform(s.size, 0, 0);
    s.(grid := Zeros(s.size), stepCount := 0, entropyHistory := [])
  }

  /** A new grid: the given size and thresholds, then reset. */
  function Init(size: nat, posThreshold: int, negThreshold: int): (s: State)
    requires size > 0
    ensures Valid(s) && InSync(s) && s.size == size
    ensures GetThresholds(s) == (posThreshold, negThreshold)
    ensures s.stepCount == 0 && s.entropyHistory == []
    ensures forall i, j :: 0 <= i < size && 0 <= j < size ==> s.grid[i][j] == 0
  {
    Reset(State(size, [], posThreshold, negThreshold, 0, []))
  }

  /** Resizing records the new size, then resets. */
  function SetSize(s: State, n: nat): (t: State)
    requires Valid(s) && n > 0
    ensures Valid(t) && InSync(t) && t.size == n
    ensures GetThresholds(t) == GetThresholds(s)
    ensures t.stepCount == 0 && t.entropyHistory == []
    ensures forall i, j :: 0 <= i < n && 0 <= j < n ==> t.grid[i][j] == 0
  {
    Reset(s.(size := n))
  }

  /** Reset forgets the grid, the steps and the history: two states with the
      same size and thresholds reset to the same state. */
  lemma ResetForgets(s: State, s': State)
    requires Valid(s) && Valid(s')
    requires s.size == s'.size && s.posThreshold == s'.posThreshold && s.negThreshold == s'.negThreshold
    ensures Reset(s) == Reset(s')
    ensures Reset(Reset(s)) == Reset(s)
  {
  }

  /** Resizing, whatever came before, gives the state of a new grid of that
      size with the current thresholds. */
  lemma ResizeDiscards(s: State, n: nat)
    requires Valid(s) && n > 0
    ensures SetSize(s, n) == Init(n, s.posThreshold, s.negThreshold)
    ensures SetSize(Step(s), n) == SetSize(s, n)
  {
  }

  // ---------------------------------------------------------------- editing

  /** Writes v into the cell at column x, row y, both reduced modulo the size. */
  function SetCell(s: State, x: int, y: int, v: int): (t: State)
    requires Valid(s) && IsCell(v)
    ensures Valid(t)
    ensures t == s.(grid := t.grid)
    ensures forall i, j :: 0 <= i < s.size && 0 <= j < s.size ==>
              t.grid[i][j] == if i == y % s.size && j == x % s.size then v else s.grid[i][j]
  {
    s.(grid := Assign(s.grid, y % s.size, x % s.size, v))
  }

  /** Coordinates are taken on the torus: a full turn in x or y, or a
      negative coordinate, lands on the same cell. */
  lemma SetCellWraps(s: State, x: int, y: int, v: int)
    requires Valid(s) && IsCell(v)
    ensures SetCell(s, x + s.size, y, v) == SetCell(s, x, y, v)
    ensures SetCell(s, x, y + s.size, v) == SetCell(s, x, y, v)
    ensures SetCell(s, -1, -1, v) == SetCell(s, s.size - 1, s.size - 1, v)
  {
    ModShift(x, s.size);
    ModShift(y, s.size);
    ModShift(-1, s.size);
    ModUnique(s.size - 1, s.size, 0, s.size - 1);
  }

  /** An edit moves one cell from the tally of its old value to the tally
      of the new one. */
  lemma SetCellCounts(s: State, x: int, y: int, v: int)
    requires Valid(s) && IsCell(v)
    ensures var old_ := s.grid[y % s.size][x % s.size];
            var c, c' := CountsOf(s.grid, s.size), CountsOf(SetCell(s, x, y, v).grid, s.size);
            c'.pos == c.pos - (if old_ == 1 then 1 else 0) + (if v == 1 then 1 else 0) &&
            c'.neg == c.neg - (if old_ == -1 then 1 else 0) + (if v == -1 then 1 else 0) &&
            c'.zero == c.zero - (if old_ == 0 then 1 else 0) + (if v == 0 then 1 else 0)
  {
    var r, c := y % s.size, x % s.size;
    CountAssign(s.grid, r, c, v, 1);
    CountAssign(s.grid, r, c, v, -1);
    CountAssign(s.grid, r, c, v, 0);
  }

  // ---------------------------------------------------------------- thresholds

  function SetThresholds(s: State, pos: int, neg: int): (t: State)
    requires Valid(s)
    ensures Valid(t)
    ensures t.posThreshold == pos && t.negThreshold == neg
    ensures t.(posThreshold := s.posThreshold, negThreshold := s.negThreshold) == s
  {
    s.(posThreshold := pos, negThreshold := neg)
  }

  /** The thresholds as (positive, negative). */
  function GetThresholds(s: State): (int, int)
  {
    (s.posThreshold, s.negThreshold)
  }

  /** Reading the thresholds back returns what was set, and setting what
      was read changes nothing. */
  lemma ThresholdsRoundTrip(s: State, pos: int, neg: int)
    requires Valid(s)
    ensures GetThresholds(SetThresholds(s, pos, neg)) == (pos, neg)
    ensures SetThresholds(s, GetThresholds(s).0, GetThresholds(s).1) == s
  {
  }

  // ---------------------------------------------------------------- step

  /** One synchronous step of the whole grid, then the step counter goes up
      by one and the entropy of the new grid is appended to the history. */
  function Step(s: State): (t: State)
    requires Valid(s)
    ensures Valid(t)
    ensures t.size == s.size && GetThresholds(t) == GetThresholds(s)
    ensures t.grid == StepGrid(s.grid, s.size, s.posThreshold, s.negThreshold)
    ensures t.stepCount == s.stepCount + 1
    ensures |t.entropyHistory| == |s.entropyHistory| + 1
    ensures t.entropyHistory[..|s.entropyHistory|] == s.entropyHistory
    ensures t.entropyHistory[|s.entropyHistory|] == EntropyOf(t.grid, t.size)
  {
    var g := StepGrid(s.grid, s.size, s.posThreshold, s.negThreshold);
    s.(grid := g, stepCount := s.stepCount + 1, entropyHistory := s.entropyHistory + [EntropyOf(g, s.size)])
  }

  /** Stepping a freshly reset grid leaves it all neutral. */
  lemma StepAfterResetIsNeutral(s: State)
    requires s.size > 0 && s.posThreshold >= 1 && s.negThreshold >= 1
    ensures Step(Reset(s)).grid == Zeros(s.size)
    ensures CountsOf(Step(Reset(s)).grid, s.size) == Counts(0, 0, s.size * s.size)
  {
    UniformFixedPoint(s.size, 0, s.posThreshold, s.negThreshold);
  }

  /** A 4×4 scenario: a new grid with thresholds 3 and 3, cells (1,1), (2,1)
      and (1,2) (column, row) set to +1, then one step: (2,2) turns +1,
      (1,1) stays +1 and (0,0) stays neutral. */
  lemma FourByFourExample(s: State)
    requires s == SetCell(SetCell(SetCell(Init(4, 3, 3), 1, 1, 1), 2, 1, 1), 1, 2, 1)
    ensures s.grid == Example
    ensures var t := Step(s);
            t.grid[2][2] == 1 && t.grid[1][1] == 1 && t.grid[0][0] == 0 && t.stepCount == 1
  {
    ExampleIsSquare();
    SameCells(s.grid, Example, 4);
    ExampleMeetsThreshold(s.grid);
    ExampleKeepsValue(s.grid);
    ExampleStaysNeutral(s.grid);
  }

  // ---------------------------------------------------------------- seeding

  /** All neutral except the cell (n/2, n/2), which is +1. */
  function Genesis(n: nat): (g: Grid)
    requires n > 0
    ensures IsSquare(g, n) && AllCells(g)
  {
    Assign(Zeros(n), n / 2, n / 2, 1)
  }

  /** Seeding by mode: "chaos" installs the random draws (a size×size grid
      of cells supplied by the caller), "genesis" installs Genesis, and any
      other mode resets. */
  function Seed(s: State, mode: string, draws: Grid): (t: State)
    requires Valid(s)
    requires mode == "chaos" ==> IsSquare(draws, s.size) && AllCells(draws)
    ensures Valid(t) && t.size == s.size && GetThresholds(t) == GetThresholds(s)
    ensures mode == "chaos" ==> t.grid == draws
    ensures mode == "chaos" || mode == "genesis" ==>
              t.stepCount == s.stepCount && t.entropyHistory == s.entropyHistory
  {
    if mode == "chaos" then s.(grid := draws)
    else if mode == "genesis" then s.(grid := Genesis(s.size))
    else Reset(s)
  }

  /** Genesis yields exactly one +1, at the centre, and n*n - 1 neutral cells. */
  lemma GenesisSeed(s: State, draws: Grid)
    requires Valid(s)
    ensures var t := Seed(s, "genesis", draws);
            var n := s.size;
            (forall i, j :: 0 <= i < n && 0 <= j < n ==>
               t.grid[i][j] == if i == n / 2 && j == n / 2 then 1 else 0) &&
            CountsOf(t.grid, n) == Counts(1, 0, n * n - 1)
  {
    var n := s.size;
    CountUniform(n, 0, 1);
    CountUniform(n, 0, -1);
    CountUniform(n, 0, 0);
    CountAssign(Zeros(n), n / 2, n / 2, 1, 1);
    CountAssign(Zeros(n), n / 2, n / 2, 1, -1);
    CountAssign(Zeros(n), n / 2, n / 2, 1, 0);
  }

  /** An unknown mode behaves exactly like reset. */
  lemma UnknownSeedResets(s: State, mode: string, draws: Grid)
    requires Valid(s) && mode != "chaos" && mode != "genesis"
    ensures Seed(s, mode, draws) == Reset(s)
  {
  }

  // ---------------------------------------------------------------- metrics

  /** The report of metrics. */
  datatype Report = Report(
    step: int,
    counts: Counts,
    entropy: Entropy,
    entropyHistory: seq<Entropy>,
    size: nat)

  /** Step, symbol tallies, current entropy, the last HistoryWindow history
      entries and the size. */
  function Metrics(s: State): (m: Report)
    requires Valid(s)
    ensures m.step == s.stepCount && m.size == s.size
    ensures m.counts == CountsOf(s.grid, s.size)
    ensures m.counts.pos + m.counts.neg + m.counts.zero == s.size * s.size
    ensures m.entropy == EntropyOf(s.grid, s.size) && m.entropy.distribution == m.counts
    ensures |m.entropyHistory| == if |s.entropyHistory| < HistoryWindow then |s.entropyHistory| else HistoryWindow
    ensures s.entropyHistory == s.entropyHistory[..|s.entropyHistory| - |m.entropyHistory|] + m.entropyHistory
  {
    Report(s.stepCount, CountsOf(s.grid, s.size), EntropyOf(s.grid, s.size),
           Tail(s.entropyHistory, HistoryWindow), s.size)
  }

  // ---------------------------------------------------------------- export / import

  /** The exported object: grid, metrics report and thresholds. */
  datatype Snapshot = Snapshot(grid: Grid, metrics: Report, posThreshold: int, negThreshold: int)

  function Export(s: State): (snap: Snapshot)
    requires Valid(s)
    ensures IsSquare(snap.grid, snap.metrics.size) && snap.metrics.size > 0
    ensures AllCells(snap.grid)
  {
    Snapshot(s.grid, Metrics(s), s.posThreshold, s.negThreshold)
  }

  /** The keys import reads inside 'metrics'; a missing key is None. */
  datatype MetricsFields = MetricsFields(step: Option<int>, entropyHistory: Option<seq<Entropy>>)

  /** An object as import receives it: only 'grid' is required. */
  datatype Payload = Payload(
    grid: Grid,
    metrics: Option<MetricsFields>,
    posThreshold: Option<int>,
    negThreshold: Option<int>)

  /** An exported snapshot as import reads it back: every key present. */
  function AsPayload(snap: Snapshot): Payload
  {
    Payload(snap.grid,
            Some(MetricsFields(Some(snap.metrics.step), Some(snap.metrics.entropyHistory))),
            Some(snap.posThreshold), Some(snap.negThreshold))
  }

  /** What import assumes of its input: a non-empty square grid of cells. */
  predicate Importable(p: Payload) {
    |p.grid| > 0 && IsSquare(p.grid, |p.grid|) && AllCells(p.grid)
  }

  /** Replaces grid and size; step defaults to 0 and history to empty when
      missing; a missing threshold keeps the current one. */
  function Import(s: State, p: Payload): (t: State)
    requires Valid(s) && Importable(p)
    ensures Valid(t) && t.grid == p.grid && t.size == |p.grid|
  {
    var m := p.metrics.GetOr(MetricsFields(None, None));
    State(|p.grid|, p.grid,
          p.posThreshold.GetOr(s.posThreshold), p.negThreshold.GetOr(s.negThreshold),
          m.step.GetOr(0), m.entropyHistory.GetOr([]))
  }

  /** Importing a bare grid starts it afresh with the current thresholds. */
  lemma ImportDefaults(s: State, g: Grid)
    requires Valid(s) && Importable(Payload(g, None, None, None))
    ensures Import(s, Payload(g, None, None, None)) ==
            State(|g|, g, s.posThreshold, s.negThreshold, 0, [])
  {
  }

  /** Export then import restores grid, size, thresholds and step count
      whatever the state imported into, but only the last HistoryWindow
      history entries; a state with at most that many is restored exactly. */
  lemma ExportImportRoundTrip(s: State, current: State)
    requires Valid(s) && Valid(current)
    ensures Importable(AsPayload(Export(s)))
    ensures Import(current, AsPayload(Export(s))) ==
            s.(entropyHistory := Tail(s.entropyHistory, HistoryWindow))
    ensures |s.entropyHistory| <= HistoryWindow ==> Import(current, AsPayload(Export(s))) == s
  {
  }

  /** A state with HistoryWindow + 1 steps and entries is not restored: the
      oldest entry is lost and the history no longer matches the step count. */
  lemma RoundTripLosesOldHistory()
    ensures var e := Entropy(Counts(0, 0, 1), 1);
            var s := State(1, [[0]], 1, 1, HistoryWindow + 1, seq(HistoryWindow + 1, _ => e));
            Valid(s) && InSync(s) &&
            Import(s, AsPayload(Export(s))) != s &&
            !InSync(Import(s, AsPayload(Export(s))))
  {
  }

  // ---------------------------------------------------------------- history bookkeeping

  /** Every operation except import keeps one history entry per step. */
  lemma HistoryTracksSteps(s: State, x: int, y: int, v: int, pos: int, neg: int, n: nat, mode: string, draws: Grid)
    requires Valid(s) && InSync(s)
    requires IsCell(v) && n > 0
    requires mode == "chaos" ==> IsSquare(draws, s.size) && AllCells(draws)
    ensures InSync(Step(s))
    ensures InSync(SetCell(s, x, y, v))
    ensures InSync(SetThresholds(s, pos, neg))
    ensures InSync(Seed(s, mode, draws))
    ensures InSync(Reset(s)) && InSync(SetSize(s, n))
  {
  }
}
