/**
 The `neighbours` routine of tiny-life: the number of live cells among the
 eight cells around (i, j) on the torus, every out-of-range coordinate folded
 back with `mod`. The variant that treats outside cells as dead (the branch
 the source compiles out) is `NeighboursDeadOutside`.
 */
module Neighbourhood {
  import opened Grid
  import opened Collections

  /** The (di, dj) offsets in the order the two nested loops visit them; (0, 0) is skipped. */
  const Offsets: seq<(int, int)> :=
    [(-1, -1), (-1, 0), (-1, 1), (0, -1), (0, 1), (1, -1), (1, 0), (1, 1)]

  /** 1 for a lit cell, 0 otherwise. */
  function LitCount(f: Board, c: Cell): nat {
    if Lit(f, c) then 1 else 0
  }

  /** Number of lit cells in `cs`, counted with multiplicity. */
  function CountLit(f: Board, cs: seq<Cell>): (n: nat)
    ensures n <= |cs|
    ensures n == 0 <==> forall k | 0 <= k < |cs| :: !Lit(f, cs[k])
  {
    if cs == [] then 0 else LitCount(f, cs[0]) + CountLit(f, cs[1..])
  }

  lemma CountLitStep(f: Board, cs: seq<Cell>, k: nat)
    requires k < |cs|
    ensures CountLit(f, cs[k..]) == LitCount(f, cs[k]) + CountLit(f, cs[k + 1..])
  {
    assert cs[k..][1..] == cs[k + 1..];
  }

  /** The count over eight cells, unrolled. */
  lemma CountLitOfEight(f: Board, cs: seq<Cell>)
    requires |cs| == 8
    ensures CountLit(f, cs) == LitCount(f, cs[0]) + LitCount(f, cs[1]) + LitCount(f, cs[2])
      + LitCount(f, cs[3]) + LitCount(f, cs[4]) + LitCount(f, cs[5]) + LitCount(f, cs[6])
      + LitCount(f, cs[7])
  {
    CountLitStep(f, cs, 0); CountLitStep(f, cs, 1); CountLitStep(f, cs, 2); CountLitStep(f, cs, 3);
    CountLitStep(f, cs, 4); CountLitStep(f, cs, 5); CountLitStep(f, cs, 6); CountLitStep(f, cs, 7);
    assert cs[0..] == cs && cs[8..] == [];
  }

  /** The cell `neighbours` reads for offset d: each coordinate folded by `mod`. */
  function Probe(i: nat, j: nat, d: (int, int)): (c: Cell)
    requires i < COLS && j < ROWS
    requires -1 <= d.0 <= 1 && -1 <= d.1 <= 1
    ensures InGrid(c)
    ensures c.0 == (i + d.0) % COLS && c.1 == (j + d.1) % ROWS
  {
    (Mod(i + d.0, COLS), Mod(j + d.1, ROWS))
  }

  /** Different offsets reach different cells: a cycle of length 5 or 7 has no shortcut of length 2. */
  lemma ProbeInjective(i: nat, j: nat, d: (int, int), e: (int, int))
    requires i < COLS && j < ROWS
    requires -1 <= d.0 <= 1 && -1 <= d.1 <= 1 && -1 <= e.0 <= 1 && -1 <= e.1 <= 1
    ensures Probe(i, j, d) == Probe(i, j, e) <==> d == e
  {
  }

  /** The eight cells `neighbours` reads, in loop order: all in the grid and none of them (i, j). */
  function Probes(i: nat, j: nat): (ps: seq<Cell>)
    requires i < COLS && j < ROWS
    ensures |ps| == |Offsets|
    ensures forall k | 0 <= k < |ps| :: InGrid(ps[k]) && ps[k] != (i, j)
  {
    seq(|Offsets|, k requires 0 <= k < |Offsets| => Probe(i, j, Offsets[k]))
  }

  /** On a 5 x 7 torus the eight cells read are pairwise distinct, so no neighbour is counted twice. */
  lemma ProbesDistinct(i: nat, j: nat)
    requires i < COLS && j < ROWS
    ensures Distinct(Probes(i, j))
  {
    var ps := Probes(i, j);
    forall k, l | 0 <= k < l < |ps|
      ensures ps[k] != ps[l]
    {
      ProbeInjective(i, j, Offsets[k], Offsets[l]);
    }
  }

  /** `neighbours(i, j)`, evaluated on the buffer `f`. */
  function Neighbours(f: Board, i: nat, j: nat): (n: nat)
    requires i < COLS && j < ROWS
    ensures n <= 8
  {
    CountLit(f, Probes(i, j))
  }

  /** y lies at most one step from x around a cycle of length n. */
  predicate Adjacent(x: int, y: int, n: nat)
    requires n > 0
  {
    var d := (y - x) % n;
    d == 0 || d == 1 || d == n - 1
  }

  /** The toroidal Moore neighbourhood of (i, j): the reference definition. */
  function Ring(i: nat, j: nat): set<Cell> {
    set a: int, b: int | 0 <= a < COLS && 0 <= b < ROWS && (a, b) != (i, j)
      && Adjacent(i, a, COLS) && Adjacent(j, b, ROWS) :: (a, b)
  }

  function LiveRing(f: Board, i: nat, j: nat): set<Cell> {
    set c | c in Ring(i, j) && Lit(f, c)
  }

  /** One step of `mod`-wrapped movement along a cycle of length COLS or ROWS stays adjacent. */
  lemma WrappedStepIsAdjacent(x: int, d: int, n: nat)
    requires n == COLS || n == ROWS
    requires 0 <= x < n && -1 <= d <= 1
    ensures Adjacent(x, Mod(x + d, n), n)
    ensures Mod(x + d, n) == x <==> d == 0
  {
    if n == COLS {
      assert (Mod(x + d, n) - x) % COLS == d % COLS;
    } else {
      assert (Mod(x + d, n) - x) % ROWS == d % ROWS;
    }
  }

  /** Conversely, every adjacent position is reached by one `mod`-wrapped step. */
  lemma AdjacentIsWrappedStep(x: int, y: int, n: nat) returns (d: int)
    requires n == COLS || n == ROWS
    requires 0 <= x < n && 0 <= y < n && Adjacent(x, y, n)
    ensures -1 <= d <= 1 && Mod(x + d, n) == y
    ensures d == 0 <==> y == x
  {
    d := if y == x then 0 else if y == Mod(x + 1, n) then 1 else -1;
    if n == COLS {
      assert (y - x) % COLS == 0 || (y - x) % COLS == 1 || (y - x) % COLS == COLS - 1;
    } else {
      assert (y - x) % ROWS == 0 || (y - x) % ROWS == 1 || (y - x) % ROWS == ROWS - 1;
    }
  }

  lemma ProbesInRing(i: nat, j: nat)
    requires i < COLS && j < ROWS
    ensures forall c | c in Probes(i, j) :: c in Ring(i, j)
  {
    var ps := Probes(i, j);
    forall k | 0 <= k < |ps|
      ensures ps[k] in Ring(i, j)
    {
      var d := Offsets[k];
      WrappedStepIsAdjacent(i, d.0, COLS);
      WrappedStepIsAdjacent(j, d.1, ROWS);
    }
  }

  /** Where the loops visit offset (di, dj). */
  lemma OffsetIndex(di: int, dj: int) returns (k: nat)
    requires -1 <= di <= 1 && -1 <= dj <= 1 && (di, dj) != (0, 0)
    ensures k < |Offsets| && Offsets[k] == (di, dj)
  {
    k := if di == -1 then 1 + dj else if di == 0 then (if dj == -1 then 3 else 4) else 6 + dj;
  }

  lemma RingInProbes(i: nat, j: nat)
    requires i < COLS && j < ROWS
    ensures forall c | c in Ring(i, j) :: c in Probes(i, j)
  {
    var ps := Probes(i, j);
    forall c | c in Ring(i, j)
      ensures c in ps
    {
      var di := AdjacentIsWrappedStep(i, c.0, COLS);
      var dj := AdjacentIsWrappedStep(j, c.1, ROWS);
      var k := OffsetIndex(di, dj);
      assert ps[k] == c;
    }
  }

  /** The cells `neighbours` reads are exactly the toroidal neighbourhood, at every edge and corner. */
  lemma ProbesAreRing(i: nat, j: nat)
    requires i < COLS && j < ROWS
    ensures forall c :: c in Probes(i, j) <==> c in Ring(i, j)
  {
    ProbesInRing(i, j);
    RingInProbes(i, j);
  }

  /** The live cells of the grid. */
  function LitCells(f: Board): (s: set<Cell>)
    ensures forall c :: c in s <==> Lit(f, c)
  {
    set i: nat, j: nat | i < COLS && j < ROWS && Alive(f, i, j) :: (i, j)
  }

  lemma {:induction false} CountLitIsCountIn(f: Board, cs: seq<Cell>)
    ensures CountLit(f, cs) == CountIn(cs, LitCells(f))
    decreases |cs|
  {
    if cs != [] {
      CountLitIsCountIn(f, cs[1..]);
    }
  }

  lemma CountLitCountsSet(f: Board, cs: seq<Cell>)
    requires Distinct(cs)
    ensures CountLit(f, cs) == |set c | c in cs && Lit(f, c)|
  {
    CountLitIsCountIn(f, cs);
    CountInIsSize(cs, LitCells(f));
    assert (set c | c in cs && c in LitCells(f)) == (set c | c in cs && Lit(f, c));
  }

  /** `neighbours` counts the live cells of the toroidal neighbourhood, each once. */
  lemma NeighboursCountsLiveRing(f: Board, i: nat, j: nat)
    requires i < COLS && j < ROWS
    ensures Neighbours(f, i, j) == |LiveRing(f, i, j)|
  {
    var ps := Probes(i, j);
    ProbesDistinct(i, j);
    CountLitCountsSet(f, ps);
    ProbesAreRing(i, j);
    assert (set c | c in ps && Lit(f, c)) == LiveRing(f, i, j);
  }

  /** Every cell has exactly eight toroidal neighbours. */
  lemma RingHasEight(i: nat, j: nat)
    requires i < COLS && j < ROWS
    ensures |Ring(i, j)| == 8
  {
    var ps := Probes(i, j);
    ProbesAreRing(i, j);
    assert (set c | c in ps) == Ring(i, j);
    ProbesDistinct(i, j);
    DistinctSetSize(ps);
  }

  /** Toroidal wrap at the corner: (0, 0) sees the opposite corner and both opposite edges. */
  lemma CornerWrapsAround()
    ensures (COLS - 1, ROWS - 1) in Probes(0, 0)
    ensures (COLS - 1, 0) in Probes(0, 0) && (0, ROWS - 1) in Probes(0, 0)
    ensures (COLS - 1, 1) in Probes(0, 0) && (1, ROWS - 1) in Probes(0, 0)
  {
    var ps := Probes(0, 0);
    assert ps[0] == (COLS - 1, ROWS - 1);
    assert ps[1] == (COLS - 1, 0);
    assert ps[2] == (COLS - 1, 1);
    assert ps[3] == (0, ROWS - 1);
    assert ps[5] == (1, ROWS - 1);
  }

  /** The cells the compiled-out branch considers: no wrapping, so some lie outside the grid. */
  function RawProbes(i: nat, j: nat): (ps: seq<Cell>)
    ensures |ps| == |Offsets|
  {
    seq(|Offsets|, k requires 0 <= k < |Offsets| => (i + Offsets[k].0, j + Offsets[k].1))
  }

  /** 1 for a grid cell, 0 for a cell outside. */
  function InGridCount(c: Cell): nat {
    if InGrid(c) then 1 else 0
  }

  /** Number of in-grid cells in `cs`. */
  function CountInGrid(cs: seq<Cell>): (n: nat)
    ensures n <= |cs|
  {
    if cs == [] then 0 else InGridCount(cs[0]) + CountInGrid(cs[1..])
  }

  lemma {:induction false} CountLitAtMost(f: Board, cs: seq<Cell>, ds: seq<Cell>)
    requires |cs| == |ds|
    requires forall k | 0 <= k < |cs| :: Lit(f, cs[k]) ==> Lit(f, ds[k])
    ensures CountLit(f, cs) <= CountLit(f, ds)
    decreases |cs|
  {
    if cs != [] {
      CountLitAtMost(f, cs[1..], ds[1..]);
    }
  }

  /**
   The `#if 0` variant of `neighbours`: offsets landing outside the grid are
   skipped, i.e. count as dead.
   */
  function NeighboursDeadOutside(f: Board, i: nat, j: nat): (n: nat)
    requires i < COLS && j < ROWS
    ensures n <= 8
  {
    CountLit(f, RawProbes(i, j))
  }

  /** Treating outside cells as dead never sees more than wrapping does. */
  lemma DeadOutsideAtMostWrapped(f: Board, i: nat, j: nat)
    requires i < COLS && j < ROWS
    ensures NeighboursDeadOutside(f, i, j) <= Neighbours(f, i, j)
  {
    var raw := RawProbes(i, j);
    var ps := Probes(i, j);
    forall k | 0 <= k < |raw| && InGrid(raw[k])
      ensures raw[k] == ps[k]
    {
    }
    CountLitAtMost(f, raw, ps);
  }

  /** Away from the edges both variants read the same eight cells. */
  lemma DeadOutsideAgreesInside(f: Board, i: nat, j: nat)
    requires 0 < i < COLS - 1 && 0 < j < ROWS - 1
    ensures NeighboursDeadOutside(f, i, j) == Neighbours(f, i, j)
  {
    assert RawProbes(i, j) == Probes(i, j);
  }

  /** Only grid cells can be lit, so at most the in-grid entries of `cs` count. */
  lemma {:induction false} CountLitAtMostInGrid(f: Board, cs: seq<Cell>)
    ensures CountLit(f, cs) <= CountInGrid(cs)
    decreases |cs|
  {
    if cs != [] {
      CountLitAtMostInGrid(f, cs[1..]);
    }
  }

  lemma CountInGridStep(cs: seq<Cell>, k: nat)
    requires k < |cs|
    ensures CountInGrid(cs[k..]) == InGridCount(cs[k]) + CountInGrid(cs[k + 1..])
  {
    assert cs[k..][1..] == cs[k + 1..];
  }

  /** The in-grid count of eight cells, unrolled. */
  lemma CountInGridOfEight(cs: seq<Cell>)
    requires |cs| == 8
    ensures CountInGrid(cs) == InGridCount(cs[0]) + InGridCount(cs[1]) + InGridCount(cs[2])
      + InGridCount(cs[3]) + InGridCount(cs[4]) + InGridCount(cs[5]) + InGridCount(cs[6])
      + InGridCount(cs[7])
  {
    CountInGridStep(cs, 0); CountInGridStep(cs, 1); CountInGridStep(cs, 2); CountInGridStep(cs, 3);
    CountInGridStep(cs, 4); CountInGridStep(cs, 5); CountInGridStep(cs, 6); CountInGridStep(cs, 7);
    assert cs[0..] == cs && cs[8..] == [];
  }

  /** At a corner only three of the eight offsets land inside the grid. */
  lemma CornerProbesInGrid(i: nat, j: nat)
    requires i == 0 || i == COLS - 1
    requires j == 0 || j == ROWS - 1
    ensures CountInGrid(RawProbes(i, j)) == 3
  {
    var raw := RawProbes(i, j);
    CountInGridOfEight(raw);
  }

  /** So at a corner the dead-outside count is at most 3. */
  lemma DeadOutsideCorner(f: Board, i: nat, j: nat)
    requires i == 0 || i == COLS - 1
    requires j == 0 || j == ROWS - 1
    ensures NeighboursDeadOutside(f, i, j) <= 3
  {
    CountLitAtMostInGrid(f, RawProbes(i, j));
    CornerProbesInGrid(i, j);
  }
}
