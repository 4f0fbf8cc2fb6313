/** `Board<C>` of src/main.rs: a flat array of `C` cells in row-major order
    with its width and height, the two constructors, and the toroidal
    neighbour count.
 */
module Boards {
  import opened Bits
  import opened Panics
  import opened CellStates
  import opened Packing

  const I32_MAX: int := 0x7fff_ffff

  /** `inner[col + row * width]` is the cell at `(row, col)`; `|inner|` is the
      const generic `C`. */
  datatype Board = Board(inner: seq<CellState>, width: nat, height: nat) {
    /** What both constructors establish: the dimensions cover the array. */
    predicate Valid() {
      width * height == |inner|
    }

    /** Dimensions small enough for the `i32` arithmetic of the neighbour
        count to be exact. */
    predicate FitsI32() {
      width + width <= I32_MAX + 1 && height + height <= I32_MAX + 1
    }
  }

  /** `x + y * width`, the array position of the cell in column `x` and row
      `y`; it lies inside the array when the cell lies inside the grid. */
  function Flat(x: nat, y: nat, width: nat, height: nat): (k: nat)
    requires x < width && y < height
    ensures k < width * height
  {
    assert y * width <= (height - 1) * width;
    x + y * width
  }

  /** `Board::<C>::new(width, height)`: panics unless `width * height == C`;
      otherwise every cell is Dead and the dimensions are stored as given. */
  function New(width: nat, height: nat, capacity: nat): (r: Result<Board>)
    ensures r.Ok? <==> width * height == capacity
    ensures r.Err? ==> r.panic == CapacityMismatch
    ensures r.Ok? ==> r.value.Valid() && |r.value.inner| == capacity
    ensures r.Ok? ==> r.value.width == width && r.value.height == height
    ensures r.Ok? ==> forall k :: 0 <= k < capacity ==> r.value.inner[k] == Dead
  {
    if width * height != capacity then Err(CapacityMismatch)
    else Ok(Board(seq(capacity, _ => Dead), width, height))
  }

  /** The cells `CellState::from(conf & (1 << i))` for `i` in `0..n`. */
  function ConfCells(conf: u64, n: nat): (cells: seq<CellState>)
    requires n <= 64
    ensures |cells| == n
  {
    seq(n, i requires 0 <= i < n => FromU64(MaskBit(conf, i)))
  }

  /** `Board::<C>::new_with_conf(width, height, conf)`. The shift `1 << i`
      panics once `i` reaches 64, before the vector is complete; a vector whose
      length is not `C` panics in `try_into().unwrap()`. Otherwise cell `i` is
      Alive exactly when bit `i` of `conf` is set. */
  function NewWithConf(width: nat, height: nat, conf: u64, capacity: nat): (r: Result<Board>)
    ensures width * height > 64 ==> r == Err(ShiftOverflow)
    ensures width * height <= 64 && width * height != capacity ==> r == Err(CapacityMismatch)
    ensures r.Ok? <==> width * height <= 64 && width * height == capacity
    ensures r.Ok? ==> r.value.Valid() && |r.value.inner| == capacity
    ensures r.Ok? ==> r.value.width == width && r.value.height == height
    ensures r.Ok? ==> forall i :: 0 <= i < capacity ==> (r.value.inner[i].IsAlive() <==> Bit(conf, i))
  {
    if width * height > 64 then Err(ShiftOverflow)
    else if width * height != capacity then Err(CapacityMismatch)
    else Ok(Board(ConfCells(conf, width * height), width, height))
  }

  /** Configuration 0 loads the board `Board::new` builds. */
  lemma ConfZeroIsNew(width: nat, height: nat, capacity: nat)
    requires width * height <= 64
    ensures NewWithConf(width, height, 0, capacity) == New(width, height, capacity)
  {
    var n := width * height;
    if n == capacity {
      forall i | 0 <= i < n
        ensures ConfCells(0, n)[i] == Dead
      {
        assert !Bit(0, i) by {
          NoBitAbove(0, 0, i);
        }
      }
      assert ConfCells(0, n) == seq(capacity, _ => Dead);
    }
  }

  /** Loading a configuration that fits the board and packing the board
      again gives the configuration back. */
  lemma LoadThenPack(width: nat, height: nat, conf: u64, capacity: nat)
    requires width * height <= 64 && width * height == capacity
    requires conf < Pow2(width * height)
    ensures NewWithConf(width, height, conf, capacity).Ok?
    ensures Pack(NewWithConf(width, height, conf, capacity).value.inner) == conf
  {
    PackOfBits(conf, NewWithConf(width, height, conf, capacity).value.inner);
  }

  /** Packing the cells of a board of at most 64 cells and loading the
      packed state gives the same board back. */
  lemma PackThenLoad(b: Board)
    requires b.Valid() && |b.inner| <= 64
    ensures Pack(b.inner) < U64_LIMIT
    ensures NewWithConf(b.width, b.height, Pack(b.inner), |b.inner|) == Ok(b)
  {
    Pow2Monotone(|b.inner|, 64);
    Pow2Of64();
    var loaded := NewWithConf(b.width, b.height, Pack(b.inner), |b.inner|).value;
    forall i | 0 <= i < |b.inner|
      ensures loaded.inner[i] == b.inner[i]
    {
      PackBits(b.inner, i);
      assert loaded.inner[i].IsAlive() == b.inner[i].IsAlive();
    }
    assert loaded.inner == b.inner;
  }

  /** `new_with_conf` reads only the low `width * height` bits of the
      configuration: configurations `2^(width * height)` apart load the same
      board. */
  lemma ConfAliasing(width: nat, height: nat, conf: u64, capacity: nat)
    requires conf + Pow2(width * height) < U64_LIMIT
    ensures NewWithConf(width, height, conf, capacity)
         == NewWithConf(width, height, conf + Pow2(width * height), capacity)
  {
    var n := width * height;
    if n <= 64 && n == capacity {
      var other: u64 := conf + Pow2(n);
      forall i | 0 <= i < n
        ensures ConfCells(conf, n)[i] == ConfCells(other, n)[i]
      {
        LowBitsIgnoreHigh(conf, n, i);
        assert (MaskBit(conf, i) != 0) == (MaskBit(other, i) != 0);
      }
      assert ConfCells(conf, n) == ConfCells(other, n);
    }
  }

  /** Rust's `%` on `i32`: truncates toward zero, so a negative dividend gives
      a non-positive remainder. */
  function RemI32(a: int, d: nat): int
    requires d > 0
  {
    if a >= 0 then a % d else -((-a) % d)
  }

  /** `((dim as i32 + x as i32 - 1) % dim as i32) as usize`: the index one
      step back, wrapping round. The dividend is never negative, so the
      remainder and the cast to `usize` are exact. */
  function WrapBack(dim: nat, x: nat): (r: nat)
    requires dim >= 1 && dim + x <= I32_MAX
    ensures r < dim
  {
    RemI32(dim + x - 1, dim)
  }

  /** `(dim + x + 0) % dim`. */
  function WrapStay(dim: nat, x: nat): (r: nat)
    requires dim >= 1
    ensures r < dim
  {
    (dim + x + 0) % dim
  }

  /** `(dim + x + 1) % dim`. */
  function WrapAhead(dim: nat, x: nat): (r: nat)
    requires dim >= 1
    ensures r < dim
  {
    (dim + x + 1) % dim
  }

  /** For a coordinate inside the grid the three wrapped coordinates are the
      previous one (the last when `x` is the first), `x` itself, and the next
      one (the first when `x` is the last). */
  lemma WrapsInsideGrid(dim: nat, x: nat)
    requires x < dim && dim + x <= I32_MAX
    ensures WrapBack(dim, x) == if x == 0 then dim - 1 else x - 1
    ensures WrapStay(dim, x) == x
    ensures WrapAhead(dim, x) == if x == dim - 1 then 0 else x + 1
  {
    if x > 0 {
      DivModInBlock(dim + x - 1, dim, 1);
    }
    DivModInBlock(dim + x, dim, 1);
    if x < dim - 1 {
      DivModInBlock(dim + x + 1, dim, 1);
    } else {
      DivModInBlock(dim + x + 1, dim, 2);
    }
  }

  /** What `alive_neighbor_count` demands of its arguments for every index it
      computes to be in bounds and its `i32` arithmetic to be exact. */
  predicate CountArgs(b: Board, row: nat, col: nat)
  {
    && b.Valid() && b.width >= 1 && b.height >= 1
    && b.width + col <= I32_MAX && b.height + row <= I32_MAX
  }

  /** The eight array positions `alive_neighbor_count` reads, in its order:
      `xl + yt * width`, `xm + yt * width`, `xr + yt * width`,
      `xl + ym * width`, `xr + ym * width`, `xl + yb * width`,
      `xm + yb * width`, `xr + yb * width`. The cell itself,
      `xm + ym * width`, is not among the positions the code names, although
      on a narrow or short board some of them alias it. */
  function NeighbourIndices(b: Board, row: nat, col: nat): (r: seq<nat>)
    requires CountArgs(b, row, col)
    ensures |r| == 8
    ensures forall k :: 0 <= k < 8 ==> r[k] < |b.inner|
  {
    var w, h := b.width, b.height;
    var xl, xm, xr := WrapBack(w, col), WrapStay(w, col), WrapAhead(w, col);
    var yt, ym, yb := WrapBack(h, row), WrapStay(h, row), WrapAhead(h, row);
    [Flat(xl, yt, w, h), Flat(xm, yt, w, h), Flat(xr, yt, w, h),
     Flat(xl, ym, w, h),                     Flat(xr, ym, w, h),
     Flat(xl, yb, w, h), Flat(xm, yb, w, h), Flat(xr, yb, w, h)]
  }

  /** The eight neighbour cells, in the order of `NeighbourIndices`. */
  function NeighbourCells(b: Board, row: nat, col: nat): (cells: seq<CellState>)
    requires CountArgs(b, row, col)
    ensures |cells| == 8
  {
    var idx := NeighbourIndices(b, row, col);
    [b.inner[idx[0]], b.inner[idx[1]], b.inner[idx[2]], b.inner[idx[3]],
     b.inner[idx[4]], b.inner[idx[5]], b.inner[idx[6]], b.inner[idx[7]]]
  }

  /** `Board::alive_neighbor_count(row, col)`: the `u8` sum of the
      discriminants of the eight cells at `NeighbourIndices`. */
  function AliveNeighbourCount(b: Board, row: nat, col: nat): (n: nat)
    requires CountArgs(b, row, col)
    ensures n <= 8
  {
    var idx := NeighbourIndices(b, row, col);
    Disc(b.inner[idx[0]])
    + Disc(b.inner[idx[1]])
    + Disc(b.inner[idx[2]])
    + Disc(b.inner[idx[3]])
    + Disc(b.inner[idx[4]])
    + Disc(b.inner[idx[5]])
    + Disc(b.inner[idx[6]])
    + Disc(b.inner[idx[7]])
  }

  /** Because `Dead` has discriminant 1, `alive_neighbor_count` is the number
      of DEAD cells among the eight neighbour positions, and the number of
      Alive ones is eight minus it. */
  lemma CountsDeadNeighbours(b: Board, row: nat, col: nat)
    requires CountArgs(b, row, col)
    ensures AliveNeighbourCount(b, row, col) == multiset(NeighbourCells(b, row, col))[Dead]
    ensures AliveNeighbourCount(b, row, col) == 8 - multiset(NeighbourCells(b, row, col))[Alive]
  {
    var cells := NeighbourCells(b, row, col);
    DiscSumCountsDead(cells);
    assert DiscSum(cells[7..]) == Disc(cells[7]);
    assert DiscSum(cells[6..]) == Disc(cells[6]) + DiscSum(cells[7..]);
    assert DiscSum(cells[5..]) == Disc(cells[5]) + DiscSum(cells[6..]);
    assert DiscSum(cells[4..]) == Disc(cells[4]) + DiscSum(cells[5..]);
    assert DiscSum(cells[3..]) == Disc(cells[3]) + DiscSum(cells[4..]);
    assert DiscSum(cells[2..]) == Disc(cells[2]) + DiscSum(cells[3..]);
    assert DiscSum(cells[1..]) == Disc(cells[1]) + DiscSum(cells[2..]);
  }

  /** On a board whose cells are all the same, every cell sees eight of that
      state: an all-Dead board counts 8 everywhere and an all-Alive board 0,
      the reverse of the count's name. */
  lemma UniformBoardCount(b: Board, c: CellState, row: nat, col: nat)
    requires CountArgs(b, row, col)
    requires forall k :: 0 <= k < |b.inner| ==> b.inner[k] == c
    ensures AliveNeighbourCount(b, row, col) == 8 * Disc(c)
    ensures c == Dead ==> AliveNeighbourCount(b, row, col) == 8
    ensures c == Alive ==> AliveNeighbourCount(b, row, col) == 0
  {
    var idx := NeighbourIndices(b, row, col);
    assert forall k :: 0 <= k < 8 ==> b.inner[idx[k]] == c;
  }

  /** On a 1x1 board all eight neighbour positions are the one cell. */
  lemma OneByOneCount(b: Board, row: nat, col: nat)
    requires CountArgs(b, row, col)
    requires b.width == 1 && b.height == 1
    ensures NeighbourIndices(b, row, col) == [0, 0, 0, 0, 0, 0, 0, 0]
    ensures AliveNeighbourCount(b, row, col) == 8 * Disc(b.inner[0])
  {
    UniformBoardCount(b, b.inner[0], row, col);
  }

  /** On a 2x2 board the eight positions alias the three other cells: the
      diagonal one four times, the one in the same row twice and the one in
      the same column twice. */
  lemma TwoByTwoIndices(b: Board, row: nat, col: nat)
    requires CountArgs(b, row, col)
    requires b.width == 2 && b.height == 2 && row < 2 && col < 2
    ensures var diagonal, sameRow, sameCol := (1 - col) + (1 - row) * 2, (1 - col) + row * 2, col + (1 - row) * 2;
      NeighbourIndices(b, row, col)
      == [diagonal, sameCol, diagonal, sameRow, sameRow, diagonal, sameCol, diagonal]
  {
    WrapsInsideGrid(2, col);
    WrapsInsideGrid(2, row);
    assert WrapBack(2, col) == 1 - col && WrapStay(2, col) == col && WrapAhead(2, col) == 1 - col;
    assert WrapBack(2, row) == 1 - row && WrapStay(2, row) == row && WrapAhead(2, row) == 1 - row;
  }

  /** Hence on a 2x2 board the count weighs the diagonal cell four times and
      the two adjacent cells twice each. */
  lemma TwoByTwoCount(b: Board, row: nat, col: nat)
    requires CountArgs(b, row, col)
    requires b.width == 2 && b.height == 2 && row < 2 && col < 2
    ensures var diagonal, sameRow, sameCol := (1 - col) + (1 - row) * 2, (1 - col) + row * 2, col + (1 - row) * 2;
      AliveNeighbourCount(b, row, col)
      == 4 * Disc(b.inner[diagonal]) + 2 * Disc(b.inner[sameRow]) + 2 * Disc(b.inner[sameCol])
  {
    var diagonal, sameRow, sameCol := (1 - col) + (1 - row) * 2, (1 - col) + row * 2, col + (1 - row) * 2;
    var dd, dr, dc := Disc(b.inner[diagonal]), Disc(b.inner[sameRow]), Disc(b.inner[sameCol]);
    assert AliveNeighbourCount(b, row, col) == dd + dc + dd + dr + dr + dd + dc + dd by {
      TwoByTwoIndices(b, row, col);
      var idx := NeighbourIndices(b, row, col);
      assert idx[0] == idx[2] == idx[5] == idx[7] == diagonal;
      assert idx[3] == idx[4] == sameRow && idx[1] == idx[6] == sameCol;
      assert AliveNeighbourCount(b, row, col)
        == Disc(b.inner[idx[0]]) + Disc(b.inner[idx[1]]) + Disc(b.inner[idx[2]]) + Disc(b.inner[idx[3]])
         + Disc(b.inner[idx[4]]) + Disc(b.inner[idx[5]]) + Disc(b.inner[idx[6]]) + Disc(b.inner[idx[7]]);
    }
  }
}
