# tiny-life in Dafny

A model of the Game-of-Life engine of tiny-life, a firmware that runs
Conway's Game of Life on a 5-column by 7-row LED matrix. The grid is stored
as one byte per column: bit `j` of `field[b][i]` says whether cell
(column `i`, row `j`) is alive. Two such buffers alternate. `update_field`
reads `field[current]`, writes the next generation into `field[1 - current]`,
counts the cells that changed and flips `current`. The `main` loop shows
one column per iteration. After more than 150 iterations it runs a
generation step, and it reseeds the board from the built-in glider pattern
when a step changed nothing.

Modules:

- `Grid` (`grid.dfy`): the constants `ROWS`/`COLS` and the board as a
  sequence of five `bv8` column bytes. It holds the `alive`, `set_alive`
  and `set_dead` macros and the `mod` index-folding macro.
- `Neighbourhood` (`neighbours.dfy`): `neighbours` on the torus, proved equal
  to an independent definition of the toroidal Moore neighbourhood.
  It also holds the compiled-out variant that treats outside cells as dead.
- `Engine` (`engine.dfy`): the B3/S23 rule, `update_field` as an
  imperative method (cell step, column loop, field loop), the reference
  next generation `Evolve`, the change count, and `seed`.
- `Collections` (`collections.dfy`): general facts about repetition-free
  sequences and set sizes that the neighbour count relies on.
- `Patterns` (`patterns.dfy`): what a step does to an empty grid, to a lone
  cell and to the seeded glider.
- `Control` (`control.dfy`): one iteration of the `main` loop as a state
  transition on (buffers, counter `n`, `active_col`).

The source compiles with the toroidal `neighbours` branch. There is one
fixed seed and no interrupt: the display is refreshed from inside the main
loop.

## Model

| member | source | states |
|---|---|---|
| Grid.SetAlive | tiny-life.c:12 | bit j of column i becomes set; every other bit of that column and every other column are unchanged |
| Grid.SetDead | tiny-life.c:13 | bit j of column i becomes clear; every other bit of that column and every other column are unchanged |
| Grid.AliveAfterSet | tiny-life.c:10-12 | after `set_alive(f, i, j)`, `alive` reports cell (i, j) live and every other cell as before |
| Grid.AliveAfterClear | tiny-life.c:10-13 | after `set_dead(f, i, j)`, `alive` reports cell (i, j) dead and every other cell as before |
| Grid.Mod | tiny-life.c:15 | for -y <= x < 2y the result lies in [0, y) and is congruent to x modulo y; an in-range x is returned unchanged |
| Neighbourhood.Probe | tiny-life.c:79 | `mod(i+di, COLS)`, `mod(j+dj, ROWS)` with an in-grid cell and offsets in {-1,0,1} always give an in-grid index, equal to the coordinate reduced modulo COLS / ROWS |
| Neighbourhood.Probes | tiny-life.c:69-71 | the loops read eight cells, all inside the grid, none of them the cell itself (the `continue` on di == dj == 0) |
| Neighbourhood.ProbeInjective | tiny-life.c:79 | two offsets reach the same cell exactly when they are the same offset |
| Neighbourhood.ProbesDistinct | tiny-life.c:69-81 | the eight cells read are pairwise distinct, so no neighbour is counted twice |
| Neighbourhood.Neighbours | tiny-life.c:67-86 | the count is at most 8 |
| Neighbourhood.ProbesAreRing | tiny-life.c:69-81 | the cells read are exactly the toroidal neighbourhood: the cells other than (i, j) whose column and row each lie at most one step away around the cycle, at every edge and corner |
| Neighbourhood.NeighboursCountsLiveRing | tiny-life.c:67-86 | `neighbours(i, j)` equals the number of live cells in the toroidal neighbourhood of (i, j), each counted once |
| Neighbourhood.RingHasEight | tiny-life.c:69-71 | every cell has exactly eight distinct toroidal neighbours on the 5 x 7 torus |
| Neighbourhood.CornerWrapsAround | tiny-life.c:79 | cell (0, 0) reads (COLS-1, ROWS-1), (COLS-1, 0), (0, ROWS-1), (COLS-1, 1) and (1, ROWS-1) |
| Neighbourhood.NeighboursDeadOutside | tiny-life.c:72-77 | the compiled-out variant also counts at most 8 |
| Neighbourhood.DeadOutsideAtMostWrapped | tiny-life.c:72-81 | treating outside cells as dead never counts more than wrapping |
| Neighbourhood.DeadOutsideAgreesInside | tiny-life.c:72-81 | away from the border both variants give the same count |
| Neighbourhood.CornerProbesInGrid | tiny-life.c:72-77 | at a corner exactly three of the eight unwrapped offsets land inside the grid |
| Neighbourhood.DeadOutsideCorner | tiny-life.c:72-77 | at a corner the dead-outside count is at most 3 |
| Engine.EvolveBit | tiny-life.c:92-114 | in the reference next generation, each cell's row bit is the B3/S23 verdict on the old buffer and each bit above the rows is kept from the overwritten buffer |
| Engine.EvolveFromBits | tiny-life.c:90-118 | a buffer every cell of which follows the rule, with bit 7 kept, is the next generation |
| Engine.FlipsAreDifferences | tiny-life.c:97-107 | the cells whose state differs between old and new buffer are exactly the cells the rule flips |
| Engine.CountFieldIsSize | tiny-life.c:90-118 | counting a set of grid cells column by column gives its size, which is at most COLS * ROWS = 35 |
| Engine.Publish | tiny-life.c:117 | flipping `current` shows the freshly written buffer and keeps the previously shown one intact |
| Engine.StepCell | tiny-life.c:95-114 | the branch chain writes the rule's verdict into bit j of column i of the new buffer and touches no other bit; it increments the counter exactly when the verdict differs from the old state |
| Engine.UpdateColumn | tiny-life.c:93-115 | after the inner loop all row bits of column i follow the rule, bit 7 and the other columns are untouched, and the counter has advanced by the number of flips in column i |
| Engine.UpdateField | tiny-life.c:88-119 | `current` flips; the old buffer is unmodified; the new shown buffer is the next generation, with bit 7 of each byte kept from its previous contents; the result is the number of cells whose state differs between old and new buffer, at most 35 |
| Engine.Seed | tiny-life.c:61-65 | the shown buffer becomes the preseed pattern; `current` and the other buffer are unchanged |
| Patterns.DeadGridIsStill | tiny-life.c:88-119 | on an empty grid no cell flips and the next generation is empty |
| Patterns.LoneLit | tiny-life.c:12 | setting one bit in an empty board gives a board whose only live grid cell is that one |
| Patterns.LoneCellDies | tiny-life.c:97-99 | a lone cell dies of isolation, and it is the only change, so the step reports one change |
| Patterns.LoneCellLeavesDeadGrid | tiny-life.c:88-119 | after a lone cell dies the grid is empty and the following step reports zero changes |
| Patterns.PreseedIsNotStill | tiny-life.c:22-28 | the seeded glider is not a fixed point: its tail cell (0, 5) has one neighbour and dies |
| Control.ToByte | tiny-life.c:138 | the `uint8_t` conversion yields a byte and leaves values below 256 unchanged, so a count of at most 35 survives it |
| Control.NextColumn | tiny-life.c:147 | `active_col` stays in [0, COLS), advances by one and wraps from COLS-1 to 0 |
| Control.Boot | tiny-life.c:121-125 | at start the shown buffer holds the preseed pattern, the other buffer is zero, and `n` and `active_col` are 0 |
| Control.Tick | tiny-life.c:127-148 | the displayed rows are the active column of the shown buffer; with `n` not past 150 only the counter and column move; otherwise a step runs, `n` resets, and the board is reseeded exactly when the step changed no cell, else it holds the next generation |
| Control.Run | tiny-life.c:127-148 | over k iterations the column advances by k modulo COLS, the counter stays in [0, 150], and no step runs while the counter does not pass 150 |
| Control.ColumnAfterWraps | tiny-life.c:147 | after k iterations from column c the active column is (c + k) mod COLS |
| Control.ColumnsCycle | tiny-life.c:125-147 | from column 0, the first COLS iterations show columns 0 .. COLS-1 in increasing order, and from any column the shown columns repeat with period COLS |

## Left out

- `init`, `COL_PIN`, `ROW_PIN` and the `output_high`/`output_low`/`set_input`/`set_output` macros: AVR pin and register I/O. The display is modelled only as the selected column index and the row pattern read for it (`Control.Tick`'s `lit`).
- `_delay_ms` and `F_CPU`: timing only. The 150-iteration counter is kept as an integer without its real-time meaning.
- `current` (and `next`) is a `BufferIndex` in {0, 1} rather than a `uint8_t`: the firmware only ever assigns it 0 (tiny-life.c:20) and `1-current` (tiny-life.c:89, 117).
- The two buffers are immutable `Board` values inside `Field`, not the array `field[2][COLS]`. `Engine.UpdateField` reads a snapshot of `field[current]` while it writes `field[next]`. This gives the same result as the firmware's in-place writes, because `next != current` and the two rows of the array never alias.
- The `alive` macro always reads `field[current]`. Here `Grid.Alive` takes the buffer as a parameter, and the callers pass the shown buffer.
- `int` and `uint8_t` widths of `n`, `changes` and `active_col`: none of them can leave its range in this code, so they are unbounded integers here. `Control.ToByte` models the narrowing of the returned change count (tiny-life.c:138); the other narrowings (`next` at tiny-life.c:89, `active_col` at tiny-life.c:147, the `int8_t` loop counters at tiny-life.c:62 and 69-70) only ever carry in-range values.
- Only the toroidal border is compiled in; the dead-outside branch is compiled out and is modelled only as `Neighbourhood.NeighboursDeadOutside`, which nothing else uses.
