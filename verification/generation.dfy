/** `next_gen` of src/main.rs: one generation of the automaton, written into
    the second board in row-major order, together with the packed state of
    the board it wrote.
 */
module Generation {
  import opened Bits
  import opened Panics
  import opened CellStates
  import opened Packing
  import opened Boards

  /** The transition `next_gen` applies, as written: the cell becomes Alive
      when `n == 3`, or when `n == 2` and the cell is currently DEAD. */
  function Rule(n: nat, cell: CellState): CellState
  {
    FromBool(n == 3 || (n == 2 && cell.IsDead()))
  }

  /** What `next_gen` needs of the current board: the dimensions cover the
      array and the neighbour count's `i32` arithmetic is exact. */
  predicate Steppable(b: Board)
  {
    b.Valid() && b.FitsI32()
  }

  /** The cell `next_gen` writes at `(row, col)`: the rule applied to the
      count at `(row % height, col % width)` and the current cell. */
  function NextCell(b: Board, row: nat, col: nat): CellState
    requires Steppable(b) && row < b.height && col < b.width
  {
    Rule(AliveNeighbourCount(b, row % b.height, col % b.width), b.inner[Flat(col, row, b.width, b.height)])
  }

  /** Position `k` of a grid of `width * height` cells is in row `k / width`. */
  lemma RowOfPosition(k: nat, width: nat, height: nat)
    requires k < width * height
    ensures width > 0 && k / width < height && k % width < width
    ensures Flat(k % width, k / width, width, height) == k
  {
    var q := k / width;
    if q > height {
      BlocksOrdered(height, q, width);
    }
  }

  /** The new cell at position `k`: the cell of row `k / width`, column
      `k % width`. */
  function CellAt(b: Board, k: nat): CellState
    requires Steppable(b) && k < |b.inner|
  {
    RowOfPosition(k, b.width, b.height);
    NextCell(b, k / b.width, k % b.width)
  }

  /** The reference next generation: position `k` holds the new cell of
      row `k / width`, column `k % width`. */
  function Successor(b: Board): (cells: seq<CellState>)
    requires Steppable(b)
    ensures |cells| == |b.inner|
  {
    seq(|b.inner|, k requires 0 <= k < |b.inner| => CellAt(b, k))
  }

  /** The loop's position `j + i * width` holds the new cell of row `i`,
      column `j`. */
  lemma SuccessorAt(b: Board, i: nat, j: nat)
    requires Steppable(b) && i < b.height && j < b.width
    ensures Successor(b)[Flat(j, i, b.width, b.height)] == NextCell(b, i, j)
  {
    var k := Flat(j, i, b.width, b.height);
    DivModInBlock(k, b.width, i);
    assert k / b.width == i && k % b.width == j;
  }

  /** `target` is the next generation of `b` cell by cell: the cell of row
      `i`, column `j` is at position `j + i * width` and is the new cell
      there. */
  ghost predicate CellByCell(b: Board, target: seq<CellState>)
    requires Steppable(b)
  {
    && |target| == |b.inner|
    && forall i, j :: 0 <= i < b.height && 0 <= j < b.width ==>
         target[Flat(j, i, b.width, b.height)] == NextCell(b, i, j)
  }

  /** The position-by-position reading of the next generation satisfies the
      cell-by-cell one. */
  lemma SuccessorIsCellByCell(b: Board)
    requires Steppable(b)
    ensures CellByCell(b, Successor(b))
  {
    forall i, j | 0 <= i < b.height && 0 <= j < b.width
      ensures Successor(b)[Flat(j, i, b.width, b.height)] == NextCell(b, i, j)
    {
      SuccessorAt(b, i, j);
    }
  }

  /** The cell-by-cell reading admits no other sequence: every position of
      the array is the position of some cell of the grid. */
  lemma CellByCellUnique(b: Board, target: seq<CellState>)
    requires Steppable(b) && CellByCell(b, target)
    ensures target == Successor(b)
  {
    SuccessorIsCellByCell(b);
    forall k | 0 <= k < |target|
      ensures target[k] == Successor(b)[k]
    {
      CellByCellAgree(b, target, Successor(b), k);
    }
  }

  lemma CellByCellAgree(b: Board, t1: seq<CellState>, t2: seq<CellState>, k: nat)
    requires Steppable(b) && CellByCell(b, t1) && CellByCell(b, t2) && k < |t1|
    ensures t1[k] == t2[k]
  {
    RowOfPosition(k, b.width, b.height);
    var i, j := k / b.width, k % b.width;
    assert t1[Flat(j, i, b.width, b.height)] == NextCell(b, i, j);
  }

  /** Read in terms of Alive neighbours, the rule as written makes a cell
      Alive when five of the eight positions are Alive, or six are and the
      cell is Dead. */
  lemma NextCellInAliveTerms(b: Board, i: nat, j: nat)
    requires Steppable(b) && i < b.height && j < b.width
    ensures var alive := multiset(NeighbourCells(b, i, j))[Alive];
      NextCell(b, i, j).IsAlive()
      <==> alive == 5 || (alive == 6 && b.inner[Flat(j, i, b.width, b.height)].IsDead())
  {
    assert i % b.height == i && j % b.width == j by {
      DivModInBlock(i, b.height, 0);
      DivModInBlock(j, b.width, 0);
    }
    var n := AliveNeighbourCount(b, i, j);
    assert NextCell(b, i, j) == Rule(n, b.inner[Flat(j, i, b.width, b.height)]);
    CountsDeadNeighbours(b, i, j);
    RuleInAliveTerms(n, b.inner[Flat(j, i, b.width, b.height)], multiset(NeighbourCells(b, i, j))[Alive]);
  }

  /** The rule, read with `n` the number of non-Alive positions among eight. */
  lemma RuleInAliveTerms(n: nat, cell: CellState, alive: nat)
    requires n == 8 - alive
    ensures Rule(n, cell).IsAlive() <==> alive == 5 || (alive == 6 && cell.IsDead())
  {
  }

  /** On a board whose cells are all the same, every new cell is Dead: the
      count is 8 on an all-Dead board and 0 on an all-Alive one, and the rule
      wants 2 or 3. */
  lemma UniformCellDies(b: Board, c: CellState, k: nat)
    requires Steppable(b) && k < |b.inner|
    requires forall m :: 0 <= m < |b.inner| ==> b.inner[m] == c
    ensures Successor(b)[k] == Dead
  {
    RowOfPosition(k, b.width, b.height);
    var i, j := k / b.width, k % b.width;
    DivModInBlock(i, b.height, 0);
    UniformBoardCount(b, c, i, j);
  }

  /** Hence a uniform board, the empty one `Board::new` builds included,
      steps to the all-Dead board, whose packed state is 0. */
  lemma UniformBoardDies(b: Board, c: CellState)
    requires Steppable(b)
    requires forall m :: 0 <= m < |b.inner| ==> b.inner[m] == c
    ensures forall k :: 0 <= k < |b.inner| ==> Successor(b)[k] == Dead
    ensures Pack(Successor(b)) == 0
  {
    forall k | 0 <= k < |b.inner|
      ensures Successor(b)[k] == Dead
    {
      UniformCellDies(b, c, k);
    }
    PackBelow(Successor(b), 0);
  }

  /** The loop state of `next_gen` after writing the first `done` cells of
      `target`: they are in place, none from position 64 on is Alive, and
      `state` packs them. */
  ghost predicate Written(target: seq<CellState>, inner: seq<CellState>, state: nat, done: nat)
  {
    && done <= |inner| == |target|
    && (forall k :: 0 <= k < done ==> inner[k] == target[k])
    && (forall k :: 64 <= k < done ==> inner[k].IsDead())
    && state == Pack(inner[..done])
  }

  /** Writing the next cell of `target`, and setting its bit when it is
      Alive, extends the written prefix by one cell. */
  lemma WriteOne(target: seq<CellState>, inner: seq<CellState>, state: nat, done: nat)
    requires Written(target, inner, state, done) && done < |inner|
    requires done >= 64 ==> target[done].IsDead()
    ensures var cell := target[done];
      Written(target, inner[done := cell], if cell.IsAlive() then SetBit(state, done) else state, done + 1)
  {
    var cell := target[done];
    var inner' := inner[done := cell];
    assert inner'[..done + 1] == inner[..done] + [cell];
    PackAppend(inner[..done], cell);
    NoBitAbove(state, done, done);
  }

  /** The body of `next_gen`'s loop up to the write: the neighbour count of
      `(i % height, j % width)`, the position `j + i * width`, and the cell
      the rule gives, which is the reference cell at that position. */
  method NewCell(current: Board, ghost target: seq<CellState>, i: nat, j: nat) returns (index: nat, cell: CellState)
    requires Steppable(current) && CellByCell(current, target)
    requires i < current.height && j < current.width
    ensures index == j + i * current.width && index < |current.inner|
    ensures cell == target[index]
  {
    var n := AliveNeighbourCount(current, i % current.height, j % current.width);
    index := Flat(j, i, current.width, current.height);
    cell := FromBool(n == 3 || (n == 2 && current.inner[index].IsDead()));
    assert cell == NextCell(current, i, j);
    assert target[index] == NextCell(current, i, j);
  }

  /** Once every cell is written, the array is `target` and the state is
      its packing, which fits a `u64`. */
  lemma WrittenAll(target: seq<CellState>, inner: seq<CellState>, state: nat)
    requires Written(target, inner, state, |inner|)
    ensures inner == target
    ensures state == Pack(inner) < U64_LIMIT
    ensures forall k :: 64 <= k < |target| ==> target[k].IsDead()
  {
    assert inner[..|inner|] == inner;
    var bound := if |inner| < 64 then |inner| else 64;
    PackBelow(inner, bound);
    Pow2Monotone(bound, 64);
    Pow2Of64();
  }

  /** One row `i` of `next_gen`'s loop: for `j` in `0..width`, the cell at
      `j + i * width` is written and its bit set when it is Alive. */
  method NextGenRow(current: Board, ghost target: seq<CellState>, inner: seq<CellState>, state: nat, i: nat, ghost start: nat)
    returns (r: Result<(seq<CellState>, nat)>)
    requires Steppable(current) && CellByCell(current, target)
    requires i < current.height && start == i * current.width
    requires Written(target, inner, state, start)
    ensures r.Ok? ==> Written(target, r.value.0, r.value.1, start + current.width)
    ensures r.Err? ==> r.panic == ShiftOverflow
    ensures r.Err? ==> exists k :: 64 <= k < |target| && target[k].IsAlive()
  {
    var inner, state := inner, state;
    ghost var done: nat := start;  // cells written so far
    var j := 0;
    while j < current.width
      invariant 0 <= j <= current.width
      invariant done == start + j
      invariant Written(target, inner, state, done)
    {
      var index, cell := NewCell(current, target, i, j);
      assert index == done;
      if cell.IsAlive() && index >= 64 {
        // the cell is written, then `1 << index` panics
        return Err(ShiftOverflow);
      }
      WriteOne(target, inner, state, done);
      inner := inner[index := cell];
      if inner[index].IsAlive() {
        state := SetBit(state, index);
      }
      j := j + 1;
      done := done + 1;
    }
    return Ok((inner, state));
  }

  /** `next_gen(current, next)`. For `i` in `0..height` and `j` in
      `0..width` it writes the new cell into `next.inner[j + i * width]` and,
      when that cell is Alive, sets bit `j + i * width` of the returned
      state. Only the cells of `next` change; `current` is only read. The
      shift `1 << index` panics when a cell at position 64 or beyond comes
      out Alive. */
  method NextGen(current: Board, next: Board) returns (r: Result<(Board, u64)>)
    requires Steppable(current)
    requires |next.inner| == |current.inner|
    ensures r.Err? <==> exists k :: 64 <= k < |current.inner| && Successor(current)[k].IsAlive()
    ensures r.Err? ==> r.panic == ShiftOverflow
    ensures r.Ok? ==> r.value.0 == next.(inner := Successor(current))
    ensures r.Ok? ==> r.value.1 == Pack(Successor(current))
  {
    ghost var target := Successor(current);
    SuccessorIsCellByCell(current);
    var rows := NextGenRows(current, target, next.inner);
    if rows.Err? {
      return Err(rows.panic);
    }
    return Ok((next.(inner := rows.value.0), rows.value.1));
  }

  /** Row `i + 1` starts one width after row `i`. */
  lemma NextRowStart(i: nat, width: nat)
    ensures (i + 1) * width == i * width + width
  {
  }

  /** The two nested loops of `next_gen` over the rows of `current`. */
  method NextGenRows(current: Board, ghost target: seq<CellState>, inner: seq<CellState>)
    returns (r: Result<(seq<CellState>, u64)>)
    requires Steppable(current) && CellByCell(current, target)
    requires |inner| == |current.inner|
    ensures r.Err? <==> exists k :: 64 <= k < |target| && target[k].IsAlive()
    ensures r.Err? ==> r.panic == ShiftOverflow
    ensures r.Ok? ==> r.value.0 == target && r.value.1 == Pack(target)
  {
    var inner := inner;
    var state: nat := 0;
    ghost var done: nat := 0;  // cells written so far
    var i := 0;
    while i < current.height
      invariant 0 <= i <= current.height
      invariant done == i * current.width
      invariant Written(target, inner, state, done)
    {
      var row := NextGenRow(current, target, inner, state, i, done);
      if row.Err? {
        return Err(row.panic);
      }
      inner, state := row.value.0, row.value.1;
      NextRowStart(i, current.width);
      done := done + current.width;
      i := i + 1;
    }
    assert done == current.width * current.height == |inner|;
    WrittenAll(target, inner, state);
    return Ok((inner, state));
  }

  /** The returned state has bit `k` set exactly when cell `k` of the board
      `next_gen` wrote is Alive, and no bit at or above `width * height`. */
  lemma NextGenStateBits(current: Board, next: Board, written: Board, state: u64, k: nat)
    requires Steppable(current)
    requires written == next.(inner := Successor(current))
    requires state == Pack(Successor(current))
    ensures Bit(state, k) <==> k < |written.inner| && written.inner[k].IsAlive()
    ensures k >= current.width * current.height ==> !Bit(state, k)
  {
    PackBits(Successor(current), k);
  }
}
