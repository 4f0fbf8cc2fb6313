# gol-riir cycle search, modelled in Dafny

gol-riir searches for the periods of Conway-style Game of Life boards on a
small torus. A `Board<C>` holds `C = width * height` cells in row-major
order. `alive_neighbor_count` sums the cells around a position, with
wrap-around at the edges. `next_gen` computes one generation into a second
board and returns the new board packed into a `u64`, with bit `i` set when
cell `i` is Alive. `find_cycle` ping-pongs two boards and keeps a table from
packed states to frames. `find_cycles` runs the detector on the
configurations `1, 2, ...` and tallies the periods in a frequency table.

This project models that code as it is written. It also proves what the code
actually computes.

| file | module | models |
|---|---|---|
| `panics.dfy` | `Panics` | the three panics the code can reach, and `Result` |
| `bits.dfy` | `Bits` | `u64` as bounded naturals; bit tests, setting a bit, masking a bit, `x << n` |
| `cell_state.dfy` | `CellStates` | `CellState` and its discriminants, `From<bool>`, the lenient `From<u64>` |
| `strict_cell.dfy` | `StrictCells` | the strict `From<u64>` of `src/types.rs` |
| `packing.dfy` | `Packing` | the packed `u64` state of a board |
| `board.dfy` | `Boards` | `Board::new`, `Board::new_with_conf`, the wrapped indices, `alive_neighbor_count` |
| `generation.dfy` | `Generation` | `next_gen`, with a reference next generation to compare against |
| `cycle.dfy` | `Cycle` | `find_cycle` |
| `search.dfy` | `Search` | `find_cycles` |

How Rust constructs are modelled:

- **Panics.** A panic is an `Err` carrying one of three panics:
  - `CapacityMismatch`: `width * height != C`, from `assert_eq!` in `new`
    or `try_into().unwrap()` in `new_with_conf`.
  - `ShiftOverflow`: a `u64` shift by 64 or more. This is debug-build
    behaviour.
  - `NotABit`: the strict conversion's `panic!`.
- **Arithmetic.**
  - `u64` values are naturals below `2^64`.
  - `x << n` keeps the low 64 bits.
  - The `i32` remainder truncates toward zero.
- **Mutable buffers.** The `&mut` boards are values: a method returns the
  updated boards.
- **Hash maps.** `HashMap` is a Dafny `map`. The `entry` API becomes
  `InsertIfAbsent` and `Tally`.

## Divergences from the evident intent

The model follows the code. The names in the code (`alive_neighbor_count`,
`find_cycle`, `find_cycles`, `FreqTable`) and the `n == 3` / `n == 2` tests
of `next_gen` point at Conway's Game of Life: birth with exactly three Alive
neighbours, survival with two or three. These are the places where the code
computes something else:

- **Inverted discriminants.** `Alive = 0` and `Dead = 1`.
  `alive_neighbor_count` sums `cell as u8`, so despite its name it counts
  the DEAD cells among the eight positions (`Boards.CountsDeadNeighbours`).
  An all-Dead board counts 8 everywhere; an all-Alive board counts 0.
- **The rule as it comes out.** Because the count is inverted, `n == 3`
  makes a cell Alive when five of its eight positions are Alive, and
  `n == 2 && is_dead()` does so when six are Alive and the cell itself is
  Dead (`Generation.NextCellInAliveTerms`). Conway's rule makes a cell
  Alive at exactly three Alive neighbours, or at two when it is already
  Alive. One consequence: every uniform board, the empty one included,
  dies in one step (`Generation.UniformBoardDies`).
- **Aliased positions on small boards.** On boards narrower or shorter than
  three, the eight positions alias one another:
  - on a 1x1 board all eight are the cell itself;
  - on a 2x2 board the diagonal cell is counted four times and the two
    adjacent cells twice each.
- **`find_cycle` returns on its first step.** The name promises a search
  that runs until a state repeats. But `entry(s).or_insert(frame)` puts `s`
  into the table before `get(s).is_some()` looks for it, so the function
  steps `buffer1` into `buffer2` once and returns `(0, 0)`
  (`Cycle.FindCycle`). Even if the loop went on, `frame += frame` would
  keep the frame at 0 for ever, so every state would be recorded at frame 0
  (`Cycle.PassesKeepFrameZero`).
- **The driver does not visit each board once.** A frequency table of
  periods over all boards of `w*h` cells would total `2^(w*h)`. Instead:
  - `find_cycles` loops while `i < (i << (w*h))` from `i = 1`. For
    `1 <= w*h < 64` that makes `2^(64 - w*h) - 1` iterations.
  - The number 0 is never used. Below 32 cells the empty board still comes
    in through `i = 2^(w*h), 2 * 2^(w*h), ...`, since `new_with_conf` reads
    only the low `w*h` bits (`Search.EmptyBoardIsVisited`). At 32 cells
    every non-empty board is loaded once and the empty one never. Above 32
    cells only configurations below `2^(64 - w*h)` are loaded, so the last
    cell is always Dead and most boards are never loaded
    (`Search.LastCellNeverLoaded`).
  - Configurations `2^(w*h)` apart load the same board
    (`Boards.ConfAliasing`).
  - Every period is `0 - 0`, so the whole total sits under key 0. That
    total is odd, so it never equals the even `2^(w*h)`
    (`Search.FindCycles`).

## Model

| member | source | states |
|---|---|---|
| `CellStates.Disc` | src/main.rs:90-95 | `cell as u8` is at most 1, and is 1 exactly for Dead |
| `CellStates.FromBool` | src/main.rs:81-88 | `From<bool>` gives Alive exactly for `true` |
| `CellStates.FromU64` | src/main.rs:68-79 | the lenient `From<u64>` gives Alive exactly for a nonzero value |
| `CellStates.DiscSumCountsDead` | src/main.rs:57-64 | a sum of discriminants equals the number of Dead cells, and so equals the length minus the number of Alive ones |
| `CellStates.FromBoolRoundTrip` | src/types.rs:16-23 | `From<bool>` is a bijection: cell to bool to cell, and bool to cell to bool, are identities |
| `StrictCells.StrictFromU64` | src/types.rs:3-14 | 0 gives Dead, 1 gives Alive, and any other value panics |
| `StrictCells.StrictAgreesWithLenient` | src/types.rs:5-11 | on 0 and 1 the strict and lenient conversions agree; the strict one refuses exactly the nonzero values other than 1 |
| `Bits.SetBit` | src/main.rs:180-182 | setting bit `index` of the state (`state`, or-ed with `1 << index`) sets bit `index` and keeps every other bit; on a clear bit it adds `2^index` |
| `Bits.MaskBit` | src/main.rs:34 | `conf & (1 << i)` is nonzero exactly when bit `i` of `conf` is set |
| `Bits.LowBitsIgnoreHigh` | src/main.rs:34 | adding `2^n` to a configuration changes none of the bits below `n` |
| `Packing.Pack` | src/main.rs:166-186 | the packed state of `n` cells is below `2^n` |
| `Packing.PackBits` | src/main.rs:180-182 | bit `i` of the packed state is set exactly when cell `i` exists and is Alive |
| `Packing.PackAppend` | src/main.rs:170-183 | packing one more cell in row-major order adds its bit at the next position |
| `Packing.PackOfBits` | src/main.rs:30-41 | a number below `2^n` whose bits spell out `n` cells is their packed state |
| `Packing.PackInjective` | src/main.rs:140-148 | equal-length boards with the same packed state are equal, so the state is a collision-free table key |
| `Boards.Flat` | src/main.rs:175 | `x + y * width` lies inside the array for a cell inside the grid |
| `Boards.New` | src/main.rs:15-27 | panics exactly when `width * height != C`; otherwise all cells are Dead and the dimensions are stored as given |
| `Boards.NewWithConf` | src/main.rs:30-41 | panics on a shift past 63 when `width * height > 64`, otherwise on a length other than `C`; otherwise cell `i` is Alive exactly when bit `i` of `conf` is set |
| `Boards.ConfZeroIsNew` | src/main.rs:15-41 | configuration 0 loads the same board as `new` |
| `Boards.LoadThenPack` | src/main.rs:30-41 | loading a configuration below `2^(w*h)` and packing the board gives the configuration back |
| `Boards.PackThenLoad` | src/main.rs:30-41 | packing a board of at most 64 cells and loading the state gives the board back |
| `Boards.ConfAliasing` | src/main.rs:30-41 | configurations `2^(w*h)` apart load the same board |
| `Boards.WrapBack` | src/main.rs:48 | `(width as i32 + col as i32 - 1) % width as i32` is a column index below `width` |
| `Boards.WrapStay` | src/main.rs:49 | `(width + col + 0) % width` is a column index below `width` |
| `Boards.WrapAhead` | src/main.rs:50 | `(width + col + 1) % width` is a column index below `width` |
| `Boards.WrapsInsideGrid` | src/main.rs:48-54 | inside the grid the wrapped coordinates are the previous (last for 0), the same, and the next (first for the last) |
| `Boards.NeighbourIndices` | src/main.rs:57-64 | the eight positions read are all inside the array |
| `Boards.AliveNeighbourCount` | src/main.rs:44-65 | the count is at most 8 |
| `Boards.CountsDeadNeighbours` | src/main.rs:57-64 | the count is the number of Dead cells among the eight positions, and 8 minus the number of Alive ones |
| `Boards.UniformBoardCount` | src/main.rs:57-64 | on a uniform board the count is `8 * disc`: 8 on an all-Dead board, 0 on an all-Alive one |
| `Boards.OneByOneCount` | src/main.rs:46-64 | on a 1x1 board all eight positions are cell 0, and the count is 8 times its discriminant |
| `Boards.TwoByTwoIndices` | src/main.rs:46-64 | on a 2x2 board the positions are the diagonal cell four times, the same-row and same-column cells twice each |
| `Boards.TwoByTwoCount` | src/main.rs:57-64 | on a 2x2 board the count weighs the diagonal cell by 4 and the adjacent cells by 2 |
| `Generation.SuccessorAt` | src/main.rs:174-177 | the reference cell at `j + i * width` is the rule applied to the count at `(i, j)` and the current cell |
| `Generation.SuccessorIsCellByCell` | src/main.rs:170-177 | the reference generation satisfies the row-by-row, column-by-column reading of the loop |
| `Generation.CellByCellUnique` | src/main.rs:170-177 | no other sequence satisfies that reading: every array position is some `(i, j)` |
| `Generation.NextCellInAliveTerms` | src/main.rs:174-177 | counted by Alive neighbours, a cell comes out Alive at five, or at six when it is Dead |
| `Generation.UniformBoardDies` | src/main.rs:174-177 | a uniform board steps to the all-Dead board, whose packed state is 0 |
| `Generation.NewCell` | src/main.rs:174-177 | the loop body's index is `j + i * width` inside the array, and the cell it computes is the reference cell there |
| `Generation.WriteOne` | src/main.rs:177-182 | writing the next reference cell and setting its bit extends the written, packed prefix by one cell |
| `Generation.WrittenAll` | src/main.rs:166-186 | once every cell is written the array is the reference generation, the state is its packing below `2^64`, and no cell from 64 on is Alive |
| `Generation.NextGenRow` | src/main.rs:171-183 | one row of the loop extends the written prefix by `width` cells, or panics only because an Alive cell at position 64 or beyond exists |
| `Generation.NextGenRows` | src/main.rs:166-187 | the nested loops panic exactly when the reference generation has an Alive cell at 64 or beyond; otherwise they produce it and its packing |
| `Generation.NextGen` | src/main.rs:162-187 | `next_gen` overwrites every cell of `next` with the reference generation and returns its packing; it panics exactly when a cell at position 64 or beyond comes out Alive |
| `Generation.NextGenStateBits` | src/main.rs:180-186 | bit `k` of the returned state is set exactly when cell `k` of `next` is Alive; no bit at or above `width * height` is set |
| `Cycle.InsertIfAbsent` | src/main.rs:142-148 | `entry(s).or_insert(frame)` keeps a present entry and adds an absent key with `frame`, leaving other entries alone |
| `Cycle.PassesKeepFrameZero` | src/main.rs:150-158 | however many passes that do not return run from frame 0, `frame += frame` keeps the frame at 0, every state entered is entered at frame 0, and the turn has flipped once per pass |
| `Cycle.DetectorStep` | src/main.rs:134-154 | one pass steps the buffer whose turn it is, panics exactly when `next_gen` does, and otherwise always returns: the table entry for `s` and the current frame |
| `Cycle.FindCycle` | src/main.rs:123-160 | `find_cycle` returns `(0, 0)`, leaves `buffer1` alone and puts the next generation of `buffer1` in `buffer2`; it panics exactly when `next_gen` does |
| `Search.Tally` | src/main.rs:114-117 | `entry(period).and_modify(+1).or_insert(1)` adds one to the period's count, or enters it with 1, and changes no other count |
| `Search.ShlExact` | src/main.rs:108 | a shift that loses no bits is a multiplication by `2^n` |
| `Search.ShlToZero` | src/main.rs:108 | a shift whose product is exactly `2^64` gives 0 |
| `Search.ShiftGuard` | src/main.rs:108 | for the reachable `i` and `1 <= n < 64`, `i < (i << n)` holds exactly while `i < 2^(64 - n)` |
| `Search.EmptyBoardIsVisited` | src/main.rs:107-109 | for `1 <= w*h < 32`, `i = 2^(w*h)` passes the loop test and loads the same board as `Board::new` |
| `Search.LastCellNeverLoaded` | src/main.rs:107-109 | for `32 < w*h < 64`, every `i` the loop admits passes its test and loads a board whose last cell is Dead |
| `Search.FindCycles` | src/main.rs:103-121 | panics on `width * height != C`, then on a shift by 64 or more; otherwise the table is empty for `C = 0` and is `{0: 2^(64 - C) - 1}` for `1 <= C < 64`, whose one count is odd and so never the `2^C` boards there are |

## Left out

- `main` and its `println!` (src/main.rs:97-101): they do output only.
- Boards with a side above `2^30`: for these, `width as i32` and the sums in
  `alive_neighbor_count` could wrap. `next_gen` takes the side bounds as a
  precondition. The driver never reaches such a board, because it only
  steps boards of fewer than 64 cells.
- Overflow of `width * height` in `usize`: dimensions are unbounded
  naturals. In a debug build an overflowing product panics in the
  multiplication itself (in `new`'s `assert_eq!`, `new_with_conf`'s range
  and the driver's shift); the model reports that case as
  `CapacityMismatch` or `ShiftOverflow` instead. A release build would wrap
  the product, and the wrapped value can equal `C` (width `2^63` and height
  2 give 0); the model does not follow that.
- Release-build shifts: the model takes the debug-build panic for shifts by
  64 or more. A release build would mask the shift amount instead.
- `HashMap` hashing and the mechanics of its entry API: the table is a Dafny
  `map`.
- `derive_more::IsVariant` and `Debug`: these are the `IsAlive` / `IsDead`
  predicates.
- `types::CellState` as a separate type: `src/types.rs` gets the same
  datatype as `src/main.rs`, since the variants and discriminants are
  identical.
- The writes to `cycle_start` and `cycle_end`: `DetectorStep` computes them
  but never returns them, as in the code.
- The `&mut` ping-pong across passes: the second pass is unreachable.
  `FindCycle` runs one pass, and `DetectorStep` proves that the pass always
  returns.
- The cell write just before a shift panic in `next_gen`: once the program
  panics its state is gone, so the model returns the panic and not the
  half-written board.
