/**
 The LED matrix of tiny-life as a bitboard: COLS columns of ROWS cells, one
 byte per column, bit `j` of column `i` meaning "cell (i, j) is alive".
 Also holds the `mod` index-folding macro the neighbour count relies on.
 */
module Grid {

  const ROWS: nat := 7
  const COLS: nat := 5

  /** Bits in one column byte; rows ROWS..BITS-1 are not cells. */
  const BITS: nat := 8

  /** One generation buffer: a byte per column. */
  type Board = b: seq<bv8> | |b| == COLS witness [0, 0, 0, 0, 0]

  /** A (column, row) coordinate, possibly outside the grid. */
  type Cell = (int, int)

  const Blank: Board := [0, 0, 0, 0, 0]

  predicate InGrid(c: Cell) {
    0 <= c.0 < COLS && 0 <= c.1 < ROWS
  }

  /** Bit `k` of a column byte. */
  predicate Bit(b: bv8, k: nat)
    requires k < BITS
  {
    b & (1 << k) != 0
  }

  /** Two column bytes with the same eight bits are the same byte. */
  lemma BitsDetermineByte(a: bv8, b: bv8)
    requires forall k | 0 <= k < BITS :: Bit(a, k) == Bit(b, k)
    ensures a == b
  {
    assert Bit(a, 0) == Bit(b, 0) && Bit(a, 1) == Bit(b, 1);
    assert Bit(a, 2) == Bit(b, 2) && Bit(a, 3) == Bit(b, 3);
    assert Bit(a, 4) == Bit(b, 4) && Bit(a, 5) == Bit(b, 5);
    assert Bit(a, 6) == Bit(b, 6) && Bit(a, 7) == Bit(b, 7);
  }

  lemma BitOfOr(a: bv8, b: bv8, k: nat)
    requires k < BITS
    ensures Bit(a | b, k) == (Bit(a, k) || Bit(b, k))
  {
  }

  lemma BitOfAnd(a: bv8, b: bv8, k: nat)
    requires k < BITS
    ensures Bit(a & b, k) == (Bit(a, k) && Bit(b, k))
  {
  }

  lemma BitOfShift(j: nat, k: nat)
    requires j < BITS && k < BITS
    ensures Bit(1 << j, k) == (j == k)
  {
  }

  lemma BitOfZero(k: nat)
    requires k < BITS
    ensures !Bit(0, k)
  {
  }

  /** Or-ing in `1 << j` sets bit j and no other. */
  lemma SetBit(b: bv8, j: nat)
    requires j < BITS
    ensures Bit(b | (1 << j), j)
    ensures forall k | 0 <= k < BITS && k != j :: Bit(b | (1 << j), k) == Bit(b, k)
  {
  }

  /** And-ing with `~(1 << j)` clears bit j and no other. */
  lemma ClearBit(b: bv8, j: nat)
    requires j < BITS
    ensures !Bit(b & !(1 << j), j)
    ensures forall k | 0 <= k < BITS && k != j :: Bit(b & !(1 << j), k) == Bit(b, k)
  {
  }

  /** The `alive` macro, reading a given buffer instead of `field[current]`. */
  predicate Alive(f: Board, i: nat, j: nat)
    requires i < COLS && j < BITS
  {
    Bit(f[i], j)
  }

  /** Total version of `Alive`: cells outside the grid are never lit. */
  predicate Lit(f: Board, c: Cell) {
    InGrid(c) && Alive(f, c.0, c.1)
  }

  /** The `set_alive` macro: sets bit j of f[i] and nothing else. */
  function SetAlive(f: Board, i: nat, j: nat): (g: Board)
    requires i < COLS && j < BITS
    ensures forall k | 0 <= k < BITS :: Bit(g[i], k) == (k == j || Bit(f[i], k))
    ensures forall c | 0 <= c < COLS && c != i :: g[c] == f[c]
  {
    var col := f[i] | (1 << j);
    SetBit(f[i], j);
    f[i := col]
  }

  /** The `set_dead` macro: clears bit j of f[i] and nothing else. */
  function SetDead(f: Board, i: nat, j: nat): (g: Board)
    requires i < COLS && j < BITS
    ensures forall k | 0 <= k < BITS :: Bit(g[i], k) == (k != j && Bit(f[i], k))
    ensures forall c | 0 <= c < COLS && c != i :: g[c] == f[c]
  {
    var col := f[i] & !(1 << j);
    ClearBit(f[i], j);
    f[i := col]
  }

  /** Reading a cell back through `alive` after `set_alive`: only cell (i, j) changes, and it is live. */
  lemma AliveAfterSet(f: Board, i: nat, j: nat, a: nat, b: nat)
    requires i < COLS && j < BITS && a < COLS && b < BITS
    ensures Alive(SetAlive(f, i, j), a, b) == ((a, b) == (i, j) || Alive(f, a, b))
  {
  }

  /** Reading a cell back through `alive` after `set_dead`: only cell (i, j) changes, and it is dead. */
  lemma AliveAfterClear(f: Board, i: nat, j: nat, a: nat, b: nat)
    requires i < COLS && j < BITS && a < COLS && b < BITS
    ensures Alive(SetDead(f, i, j), a, b) == ((a, b) != (i, j) && Alive(f, a, b))
  {
  }

  /**
   The `mod` macro. It does not reduce arbitrary integers: it folds back an
   index that is at most one period out of range, which is all its callers
   ever pass.
   */
  function Mod(x: int, y: int): (r: int)
    ensures 0 < y && -y <= x < 2 * y ==> 0 <= r < y && r == x % y
    ensures 0 <= x < y ==> r == x
  {
    if x >= y then x - y else if x < 0 then x + y else x
  }
}
