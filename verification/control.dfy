/**
 One iteration of the `main` loop of tiny-life, without the pin I/O: show
 column `active_col`, count the iteration, run a generation step once more
 than 150 iterations have passed (reseeding when it changed nothing), and
 move on to the next column.
 */
module Control {
  import opened Grid
  import opened Engine

  /** The counter `n` must exceed this before a generation step runs. */
  const StepAfter: int := 150

  /** The state `main` keeps across iterations: the buffers, the counter `n` and `active_col`. */
  datatype Loop = Loop(field: Field, n: int, activeCol: nat)

  /** The conversion to `uint8_t`: C keeps the value modulo 256. */
  function ToByte(x: int): (b: int)
    ensures 0 <= b < 256
    ensures 0 <= x < 256 ==> b == x
  {
    x % 256
  }

  /** `(active_col + 1) % COLS`: the columns are shown in increasing order, wrapping to 0 after the last. */
  function NextColumn(c: nat): (r: nat)
    requires c < COLS
    ensures r < COLS
    ensures c < COLS - 1 ==> r == c + 1
    ensures c == COLS - 1 ==> r == 0
  {
    (c + 1) % COLS
  }

  /** `main` before its loop: zeroed globals, `seed()`, then `n = 0` and `active_col = 0`. */
  function Boot(): (l: Loop)
    ensures l.field.current == 0
    ensures l.field.Shown() == Preseed && l.field.Back() == Blank
    ensures l.n == 0 && l.activeCol == 0
  {
    Loop(Seed(Field([Blank, Blank], 0)), 0, 0)
  }

  /**
   One iteration of the `main` loop. `lit` is the column pattern driven onto
   the row lines, read from the shown buffer before any step. A step runs
   once the counter passes 150; it reseeds exactly when the step changed no
   cell, i.e. when the shown board was a fixed point of the rule.
   */
  method Tick(l: Loop) returns (l': Loop, lit: seq<bool>)
    requires l.activeCol < COLS
    ensures |lit| == ROWS
    ensures forall x | 0 <= x < ROWS :: lit[x] == Alive(l.field.Shown(), l.activeCol, x)
    ensures l'.activeCol == NextColumn(l.activeCol)
    ensures l.n + 1 <= StepAfter ==> l'.n == l.n + 1 && l'.field == l.field
    ensures l.n + 1 > StepAfter ==>
      && l'.n == 0
      && l'.field.current == 1 - l.field.current
      && l'.field.Back() == l.field.Shown()
      && (Flips(l.field.Shown()) == {} ==> l'.field.Shown() == Preseed)
      && (Flips(l.field.Shown()) != {} ==> l'.field.Shown() == Evolve(l.field.Shown(), l.field.Back()))
  {
    lit := seq(ROWS, x requires 0 <= x < ROWS => Alive(l.field.Shown(), l.activeCol, x));
    var n := l.n + 1;
    var fld := l.field;
    if n > StepAfter {
      var changes;
      fld, changes := UpdateField(fld);
      FlipsAreDifferences(l.field.Shown(), l.field.Back());
      n := 0;
      if ToByte(changes) == 0 {
        fld := Seed(fld);
      }
    }
    l' := Loop(fld, n, NextColumn(l.activeCol));
  }

  /** The counter stays within 0..150 and the column within the grid, from `Boot` on. */
  predicate Valid(l: Loop) {
    0 <= l.n <= StepAfter && l.activeCol < COLS
  }

  lemma BootIsValid()
    ensures Valid(Boot())
  {
  }

  /**
   Running the loop `k` times: the column advances by `k` modulo COLS, and
   as long as the counter does not pass 150 no generation step happens.
   */
  method Run(l: Loop, k: nat) returns (l': Loop)
    requires Valid(l)
    ensures Valid(l')
    ensures l'.activeCol == ColumnAfter(l.activeCol, k) == (l.activeCol + k) % COLS
    ensures l.n + k <= StepAfter ==> l'.field == l.field && l'.n == l.n + k
  {
    l' := l;
    for t := 0 to k
      invariant Valid(l')
      invariant l'.activeCol == ColumnAfter(l.activeCol, t)
      invariant l.n + k <= StepAfter ==> l'.field == l.field && l'.n == l.n + t
    {
      var lit;
      l', lit := Tick(l');
    }
    ColumnAfterWraps(l.activeCol, k);
  }

  /** The column shown after `k` iterations starting from column `c`. */
  function ColumnAfter(c: nat, k: nat): (r: nat)
    requires c < COLS
    ensures r < COLS
  {
    if k == 0 then c else NextColumn(ColumnAfter(c, k - 1))
  }

  lemma {:induction false} ColumnAfterWraps(c: nat, k: nat)
    requires c < COLS
    ensures ColumnAfter(c, k) == (c + k) % COLS
  {
    if k > 0 {
      ColumnAfterWraps(c, k - 1);
    }
  }

  /**
   Starting from column 0, the first COLS iterations show columns 0, 1, ...,
   COLS - 1 in increasing order; from any column, the sequence of columns
   repeats with period COLS.
   */
  lemma ColumnsCycle(c: nat, k: nat)
    requires c < COLS
    ensures forall t | 0 <= t < COLS :: ColumnAfter(0, t) == t
    ensures ColumnAfter(c, k + COLS) == ColumnAfter(c, k)
  {
    forall t | 0 <= t < COLS
      ensures ColumnAfter(0, t) == t
    {
      ColumnAfterWraps(0, t);
    }
    ColumnAfterWraps(c, k);
    ColumnAfterWraps(c, k + COLS);
  }
}
