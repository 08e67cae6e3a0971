/**
 The generation step of tiny-life (`update_field`) and reseeding (`seed`).
 Two buffers alternate: the step reads `field[current]`, writes only the
 row bits of `field[1 - current]`, counts the cells that changed and flips
 `current`.
 */
module Engine {
  import opened Grid
  import opened Neighbourhood

  /** Conway's B3/S23 rule: born with exactly three neighbours, survives with two or three. */
  predicate Rule(alive: bool, n: nat) {
    n == 3 || (alive && n == 2)
  }

  /** The state the rule gives cell (i, j) of `src` in the next generation. */
  predicate Successor(src: Board, i: nat, j: nat)
    requires i < COLS && j < ROWS
  {
    Rule(Alive(src, i, j), Neighbours(src, i, j))
  }

  /** The cells of `src` whose state the rule changes. */
  function Flips(src: Board): set<Cell> {
    set i: nat, j: nat | i < COLS && j < ROWS && Successor(src, i, j) != Alive(src, i, j) :: (i, j)
  }

  /** The grid cells whose state differs between two buffers. */
  function Differing(a: Board, b: Board): set<Cell> {
    set i: nat, j: nat | i < COLS && j < ROWS && Alive(a, i, j) != Alive(b, i, j) :: (i, j)
  }

  /** Position of a cell in the order the two nested loops of the step visit the grid. */
  function Visit(c: Cell): int {
    c.0 * ROWS + c.1
  }

  /** The members of `s` among the first `upto` cells the step visits. */
  function Prefix(s: set<Cell>, upto: int): set<Cell> {
    set c | c in s && Visit(c) < upto
  }

  /** Visiting one more grid cell adds it to the prefix exactly when it is a member. */
  lemma PrefixStep(s: set<Cell>, c: Cell)
    requires InGrid(c)
    requires forall d | d in s :: InGrid(d)
    ensures |Prefix(s, Visit(c) + 1)| == |Prefix(s, Visit(c))| + (if c in s then 1 else 0)
  {
    forall d | d in s && Visit(d) == Visit(c)
      ensures d == c
    {
    }
    assert c !in Prefix(s, Visit(c));
    assert Prefix(s, Visit(c) + 1) == Prefix(s, Visit(c)) + (if c in s then {c} else {});
  }

  /** How many of the cells (i, 0) .. (i, j - 1) belong to `s`: the inner loop's count. */
  function CountColumn(s: set<Cell>, i: int, j: nat): (n: nat)
    ensures n <= j
  {
    if j == 0 then 0 else CountColumn(s, i, j - 1) + (if (i, j - 1) in s then 1 else 0)
  }

  /** How many cells of columns 0 .. i - 1 belong to `s`: the outer loop's count. */
  function CountField(s: set<Cell>, i: nat): nat {
    if i == 0 then 0 else CountField(s, i - 1) + CountColumn(s, i - 1, ROWS)
  }

  lemma {:induction false} CountColumnIsPrefix(s: set<Cell>, i: nat, j: nat)
    requires i < COLS && j <= ROWS
    requires forall d | d in s :: InGrid(d)
    ensures |Prefix(s, i * ROWS)| + CountColumn(s, i, j) == |Prefix(s, i * ROWS + j)|
  {
    if j > 0 {
      CountColumnIsPrefix(s, i, j - 1);
      PrefixStep(s, (i, j - 1));
    }
  }

  lemma {:induction false} CountFieldIsPrefix(s: set<Cell>, i: nat)
    requires i <= COLS
    requires forall d | d in s :: InGrid(d)
    ensures CountField(s, i) == |Prefix(s, i * ROWS)|
    ensures CountField(s, i) <= i * ROWS
  {
    if i > 0 {
      CountFieldIsPrefix(s, i - 1);
      CountColumnIsPrefix(s, i - 1, ROWS);
    }
  }

  /** Counting a set of grid cells column by column, row by row, yields its size, at most COLS * ROWS. */
  lemma CountFieldIsSize(s: set<Cell>)
    requires forall d | d in s :: InGrid(d)
    ensures CountField(s, COLS) == |s|
    ensures |s| <= COLS * ROWS
  {
    CountFieldIsPrefix(s, COLS);
    assert Prefix(s, COLS * ROWS) == s;
  }

  lemma FlipsInGrid(src: Board)
    ensures forall d | d in Flips(src) :: InGrid(d)
  {
  }

  lemma InFlips(src: Board, i: nat, j: nat)
    requires i < COLS && j < ROWS
    ensures (i, j) in Flips(src) <==> Successor(src, i, j) != Alive(src, i, j)
  {
  }

  /** A column byte whose bits j..|bs|-1 are `bs[j..]`, the other bits clear. */
  function PackBits(bs: seq<bool>, j: nat): bv8
    requires j <= |bs| <= BITS
    decreases |bs| - j
  {
    if j == |bs| then 0
    else (if bs[j] then 1 << j else 0) | PackBits(bs, j + 1)
  }

  lemma {:induction false} PackBitsBit(bs: seq<bool>, j: nat, k: nat)
    requires j <= |bs| <= BITS && k < BITS
    ensures Bit(PackBits(bs, j), k) == (j <= k < |bs| && bs[k])
    decreases |bs| - j
  {
    if j == |bs| {
      BitOfZero(k);
    } else {
      PackBitsBit(bs, j + 1, k);
      var head: bv8 := if bs[j] then 1 << j else 0;
      BitOfOr(head, PackBits(bs, j + 1), k);
      BitOfShift(j, k);
      BitOfZero(k);
    }
  }

  /** The bits of a column byte above the last row. */
  const HighBits: bv8 := !((1 << ROWS) - 1)

  lemma HighBitsAboveRows(k: nat)
    requires k < BITS
    ensures Bit(HighBits, k) == (k >= ROWS)
  {
  }

  /** The rule's verdict for the rows of column i. */
  function NextRows(src: Board, i: nat): (bs: seq<bool>)
    requires i < COLS
  {
    seq(ROWS, k requires 0 <= k < ROWS => Successor(src, i, k))
  }

  /**
   The next generation written over `dst`: row bits from the rule applied to
   `src`, the bits above the last row kept from `dst`.
   */
  function Evolve(src: Board, dst: Board): Board {
    seq(COLS, i requires 0 <= i < COLS => (dst[i] & HighBits) | PackBits(NextRows(src, i), 0))
  }

  /** Each cell of the next generation follows the rule; the bits above the rows are `dst`'s. */
  lemma EvolveBit(src: Board, dst: Board, i: nat, k: nat)
    requires i < COLS && k < BITS
    ensures Bit(Evolve(src, dst)[i], k) == (if k < ROWS then Successor(src, i, k) else Bit(dst[i], k))
  {
    ColumnBit(dst[i], NextRows(src, i), k);
  }

  /** Bit k of a column written from `rows`, with the high bits kept from `prev`. */
  lemma ColumnBit(prev: bv8, rows: seq<bool>, k: nat)
    requires |rows| == ROWS && k < BITS
    ensures Bit((prev & HighBits) | PackBits(rows, 0), k) == (if k < ROWS then rows[k] else Bit(prev, k))
  {
    BitOfOr(prev & HighBits, PackBits(rows, 0), k);
    BitOfAnd(prev, HighBits, k);
    HighBitsAboveRows(k);
    PackBitsBit(rows, 0, k);
  }

  /** A board whose every bit agrees with `EvolveBit` is the next generation. */
  lemma EvolveFromBits(src: Board, dst: Board, b: Board)
    requires forall c, k | 0 <= c < COLS && 0 <= k < BITS ::
      Bit(b[c], k) == (if k < ROWS then Successor(src, c, k) else Bit(dst[c], k))
    ensures b == Evolve(src, dst)
  {
    var r := Evolve(src, dst);
    forall c | 0 <= c < COLS
      ensures b[c] == r[c]
    {
      forall k | 0 <= k < BITS
        ensures Bit(b[c], k) == Bit(r[c], k)
      {
        EvolveBit(src, dst, c, k);
      }
      BitsDetermineByte(b[c], r[c]);
    }
  }

  /** The cells the step changes are exactly the cells where old and new buffers differ. */
  lemma FlipsAreDifferences(src: Board, dst: Board)
    ensures Differing(src, Evolve(src, dst)) == Flips(src)
  {
    var r := Evolve(src, dst);
    forall i: nat, j: nat | i < COLS && j < ROWS
      ensures Alive(r, i, j) == Successor(src, i, j)
    {
      EvolveBit(src, dst, i, j);
    }
  }

  type Buffers = s: seq<Board> | |s| == 2 witness [Blank, Blank]

  type BufferIndex = x: nat | x < 2

  /** `field[2][COLS]` together with `current`, the buffer being shown. */
  datatype Field = Field(buffers: Buffers, current: BufferIndex) {
    function Shown(): Board {
      buffers[current]
    }

    function Back(): Board {
      buffers[1 - current]
    }
  }

  /**
   The end of `update_field`: the freshly written buffer `field[1 - current]`
   becomes the shown one by flipping `current`; the previously shown buffer
   is kept as it was.
   */
  function Publish(fld: Field, back: Board): (fld': Field)
    ensures fld'.current == 1 - fld.current
    ensures fld'.Shown() == back
    ensures fld'.Back() == fld.Shown()
  {
    var next := 1 - fld.current;
    Field(fld.buffers[next := back], next)
  }

  /**
   The body of the inner loop of `update_field` for cell (i, j): the branch
   chain reads `src` and writes bit j of column i of `back`; `changed` says
   whether the branch taken increments the change counter.
   */
  method StepCell(src: Board, back: Board, i: nat, j: nat) returns (back': Board, changed: bool)
    requires i < COLS && j < ROWS
    ensures Alive(back', i, j) == Successor(src, i, j)
    ensures changed <==> Successor(src, i, j) != Alive(src, i, j)
    ensures forall k | 0 <= k < BITS && k != j :: Bit(back'[i], k) == Bit(back[i], k)
    ensures forall c | 0 <= c < COLS && c != i :: back'[c] == back[c]
  {
    var n := Neighbours(src, i, j);
    if n < 2 && Alive(src, i, j) {
      // a living cell dies with fewer than two neighbours
      back' := SetDead(back, i, j);
      changed := true;
    } else if n > 3 && Alive(src, i, j) {
      // a living cell dies with more than three neighbours
      back' := SetDead(back, i, j);
      changed := true;
    } else if n == 3 && !Alive(src, i, j) {
      // a dead cell with exactly three neighbours comes alive
      back' := SetAlive(back, i, j);
      changed := true;
    } else {
      if Alive(src, i, j) {
        back' := SetAlive(back, i, j);
      } else {
        back' := SetDead(back, i, j);
      }
      changed := false;
    }
  }

  /**
   The inner loop of `update_field` for column i: every row bit of column i
   of `back` is rewritten from `src`, and `count` is how many of those cells
   the rule flips, i.e. how far the change counter advances.
   */
  method UpdateColumn(src: Board, back: Board, i: nat) returns (back': Board, count: nat)
    requires i < COLS
    ensures forall k | 0 <= k < BITS ::
      Bit(back'[i], k) == (if k < ROWS then Successor(src, i, k) else Bit(back[i], k))
    ensures forall c | 0 <= c < COLS && c != i :: back'[c] == back[c]
    ensures count == CountColumn(Flips(src), i, ROWS)
  {
    back' := back;
    count := 0;
    for j := 0 to ROWS
      invariant forall k | 0 <= k < BITS ::
        Bit(back'[i], k) == (if k < j then Successor(src, i, k) else Bit(back[i], k))
      invariant forall c | 0 <= c < COLS && c != i :: back'[c] == back[c]
      invariant count == CountColumn(Flips(src), i, j)
    {
      var changed;
      back', changed := StepCell(src, back', i, j);
      InFlips(src, i, j);
      if changed {
        count := count + 1;
      }
    }
  }

  /**
   `update_field`: one generation. The step reads only the shown buffer,
   writes only the row bits of the other one, then shows it; `changes` is the
   number of cells whose state differs between the two.
   */
  method UpdateField(fld: Field) returns (fld': Field, changes: int)
    ensures fld'.current == 1 - fld.current
    ensures fld'.Back() == fld.Shown()
    ensures fld'.Shown() == Evolve(fld.Shown(), fld.Back())
    ensures changes == |Differing(fld.Shown(), fld'.Shown())|
    ensures 0 <= changes <= COLS * ROWS
  {
    var next: BufferIndex := 1 - fld.current;
    var src := fld.buffers[fld.current];
    var back := fld.buffers[next];
    changes := 0;
    for i := 0 to COLS
      invariant forall c, k | 0 <= c < i && 0 <= k < BITS ::
        Bit(back[c], k) == (if k < ROWS then Successor(src, c, k) else Bit(fld.Back()[c], k))
      invariant forall c | i <= c < COLS :: back[c] == fld.Back()[c]
      invariant changes == CountField(Flips(src), i)
    {
      var count;
      back, count := UpdateColumn(src, back, i);
      changes := changes + count;
    }
    fld' := Publish(fld, back);
    EvolveFromBits(src, fld.Back(), back);
    FlipsInGrid(src);
    CountFieldIsSize(Flips(src));
    FlipsAreDifferences(src, fld.Back());
  }

  /** The pattern `seed` copies in: a glider. */
  const Preseed: Board := [0x20, 0x10, 0x70, 0x00, 0x00]

  /** `seed`: the shown buffer becomes the preseed pattern; nothing else changes. */
  function Seed(fld: Field): (fld': Field)
    ensures fld'.current == fld.current
    ensures fld'.Shown() == Preseed
    ensures fld'.Back() == fld.Back()
  {
    Field(fld.buffers[fld.current := Preseed], fld.current)
  }
}
