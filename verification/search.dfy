/** `find_cycles` of src/main.rs: the exhaustive driver. It loads
    configuration `i` into a fresh board, asks `find_cycle` for
    `(start, end)` and tallies the period `end - start` in a frequency table.

    The loop runs while `i < (i << (width * height))`, starting from `i = 1`.
    The shift keeps only the low 64 bits, so for `1 <= w * h < 64` the
    condition fails first at `i = 2^(64 - w*h)`: the driver visits the
    `2^(64 - w*h) - 1` numbers `1, 2, ...`, not the `2^(w*h)` boards.
    `new_with_conf` reads only the low `w * h` bits, so what that covers
    depends on the size:
    - below 32 cells every board is loaded many times, the empty one
      through `i = 2^(w*h), 2 * 2^(w*h), ...` (one time fewer than the
      others, since the number 0 is skipped);
    - at exactly 32 cells every non-empty board is loaded once and the
      empty board never;
    - above 32 cells only configurations below `2^(64 - w*h)` are loaded,
      so the last cell is always Dead and most boards are never loaded.
 */
module Search {
  import opened Bits
  import opened Panics
  import opened CellStates
  import opened Boards
  import opened Generation
  import opened Cycle

  /** `freq_table.entry(period).and_modify(|c| *c += 1).or_insert(1)`. */
  function Tally(freq: map<nat, nat>, period: nat): (r: map<nat, nat>)
    ensures r.Keys == freq.Keys + {period}
    ensures r[period] == if period in freq then freq[period] + 1 else 1
    ensures forall p :: p in freq && p != period ==> r[p] == freq[p]
  {
    if period in freq then freq[period := freq[period] + 1] else freq[period := 1]
  }

  /** A shift that loses no bits is a multiplication by `2^n`. */
  lemma ShlExact(x: u64, n: nat)
    requires n < 64 && x * Pow2(n) < U64_LIMIT
    ensures Shl64(x, n) == x * Pow2(n)
  {
    DivModInBlock(x * Pow2(n), U64_LIMIT, 0);
  }

  /** A shift whose product is exactly `2^64` leaves nothing. */
  lemma ShlToZero(x: u64, n: nat)
    requires n < 64 && x * Pow2(n) == U64_LIMIT
    ensures Shl64(x, n) == 0
  {
    DivModInBlock(U64_LIMIT, U64_LIMIT, 1);
  }

  /** `2^n * 2^(64 - n)` is the `u64` modulus, and neither factor reaches it
      for `1 <= n < 64`. */
  lemma SplitLimit(n: nat)
    requires 1 <= n < 64
    ensures Pow2(n) * Pow2(64 - n) == U64_LIMIT
    ensures 2 <= Pow2(n) && 2 <= Pow2(64 - n) < U64_LIMIT
  {
    Pow2Of64();
    Pow2Add(n, 64 - n);
    Pow2Monotone(1, n);
    Pow2Monotone(1, 64 - n);
    Pow2Monotone(64 - n, 63);
    Pow2Monotone(63, 64);
  }

  /** The loop condition `i < (i << n)` on `u64`, for the `i` the loop can
      reach and a shift that moves something: it holds exactly while
      `i * 2^n` has not overflowed. */
  lemma ShiftGuard(i: nat, n: nat)
    requires 1 <= n < 64 && 1 <= i <= Pow2(64 - n)
    ensures i < U64_LIMIT
    ensures i < Shl64(i, n) <==> i < Pow2(64 - n)
  {
    var p, q := Pow2(n), Pow2(64 - n);
    SplitLimit(n);
    if i < q {
      BlocksOrdered(i, q, p);
      assert i * p < U64_LIMIT;
      ShlExact(i, n);
      BlocksOrdered(1, p, i);
    } else {
      assert i * p == U64_LIMIT;
      ShlToZero(i, n);
    }
  }

  /** With no cells the shift moves nothing and the loop does not start. */
  lemma ShiftByZero()
    ensures Shl64(1, 0) == 1
  {
    DivModInBlock(1, U64_LIMIT, 0);
  }

  /** The number of configurations the driver visits, `2^(64 - n) - 1`, is
      odd, while the number of boards of `n >= 1` cells, `2^n`, is even. */
  lemma {:induction false} VisitCountIsNotBoardCount(n: nat)
    requires 1 <= n < 64
    ensures (Pow2(64 - n) - 1) % 2 == 1 && Pow2(n) % 2 == 0
    ensures Pow2(64 - n) - 1 != Pow2(n)
  {
    var half, other := Pow2(63 - n), Pow2(n - 1);
    assert Pow2(64 - n) == 2 * half;
    assert Pow2(n) == 2 * other;
    DivModInBlock(2 * half - 1, 2, half - 1);
    DivModInBlock(2 * other, 2, other);
  }

  /** For boards of fewer than 32 cells the empty board is not skipped:
      `i = 2^(w*h)` passes the loop test, and since `new_with_conf` reads
      only the low `w * h` bits it loads the same board as `Board::new`. */
  lemma EmptyBoardIsVisited(width: nat, height: nat, capacity: nat)
    requires width * height == capacity && 1 <= capacity < 32
    ensures var i := Pow2(capacity);
      && i < U64_LIMIT
      && i < Shl64(i, capacity)
      && NewWithConf(width, height, i, capacity) == New(width, height, capacity)
  {
    var n := capacity;
    Pow2Monotone(n, 63 - n);
    SplitLimit(n);
    ShiftGuard(Pow2(n), n);
    ConfAliasing(width, height, 0, capacity);
    ConfZeroIsNew(width, height, capacity);
  }

  /** For boards of more than 32 cells the loop stops before any
      configuration reaches the last cell: every board it loads has its
      last cell Dead, so most boards are never visited. */
  lemma LastCellNeverLoaded(width: nat, height: nat, capacity: nat, i: nat)
    requires width * height == capacity && 32 < capacity < 64
    requires 1 <= i < Pow2(64 - capacity)
    ensures i < U64_LIMIT && i < Shl64(i, capacity)
    ensures i < U64_LIMIT ==> var board := NewWithConf(width, height, i, capacity);
      board.Ok? && board.value.inner[capacity - 1] == Dead
  {
    ShiftGuard(i, capacity);
    NoBitAbove(i, 64 - capacity, capacity - 1);
  }

  /** A side of a non-empty grid is at most its number of cells. */
  lemma SideAtMostArea(width: nat, height: nat)
    requires width * height >= 1
    ensures width <= width * height && height <= width * height
  {
  }

  /** A board of fewer than 64 cells meets what `next_gen` needs of it. */
  lemma SmallBoardSteppable(b: Board)
    requires b.Valid() && 1 <= |b.inner| < 64
    ensures Steppable(b)
  {
    SideAtMostArea(b.width, b.height);
  }

  /** `find_cycles::<C>(width, height)`. `Board::new` panics first unless
      `width * height == C`; the first loop test panics when
      `width * height >= 64`, the shift being too wide. Otherwise every
      visited configuration yields the period `0 - 0`, so the table is empty
      for an empty board and holds the single entry `0 => 2^(64 - w*h) - 1`
      otherwise: the number of iterations, all under key 0. */
  method FindCycles(width: nat, height: nat, capacity: nat) returns (r: Result<map<nat, nat>>)
    ensures r.Ok? <==> width * height == capacity && capacity < 64
    ensures width * height != capacity ==> r == Err(CapacityMismatch)
    ensures width * height == capacity && capacity >= 64 ==> r == Err(ShiftOverflow)
    ensures r.Ok? && capacity == 0 ==> r.value == map[]
    ensures r.Ok? && capacity >= 1 ==> r.value == map[0 := Pow2(64 - capacity) - 1]
    ensures r.Ok? && capacity >= 1 ==> r.value[0] % 2 == 1 && r.value[0] != Pow2(capacity)
  {
    var board := New(width, height, capacity);
    if board.Err? {
      return Err(board.panic);
    }
    var board2 := board.value;
    var n := width * height;
    if n >= 64 {
      // `i << n` with `n >= 64` panics
      return Err(ShiftOverflow);
    }
    var freq: map<nat, nat> := map[];
    var i: nat := 1;
    Pow2Monotone(1, 64 - n);
    if n == 0 {
      ShiftByZero();
    } else {
      ShiftGuard(i, n);
    }
    while i < Shl64(i, n)
      invariant 1 <= i <= Pow2(64 - n) && i < U64_LIMIT
      invariant n == 0 ==> i == 1 && Shl64(i, n) == i
      invariant n >= 1 ==> (i < Shl64(i, n) <==> i < Pow2(64 - n))
      invariant board2.Valid() && board2.width == width && board2.height == height
      invariant |board2.inner| == n
      invariant freq == if i == 1 then map[] else map[0 := i - 1]
      decreases Pow2(64 - n) - i
    {
      var board1 := NewWithConf(width, height, i, capacity);
      SmallBoardSteppable(board1.value);
      SmallBoardSteppable(board2);
      var cycle := FindCycle(board1.value, board2, 0, 0);
      assert cycle.Ok?;
      var start, end := cycle.value.0, cycle.value.1;
      board2 := cycle.value.3;
      i := i + 1;
      freq := Tally(freq, end - start);
      ShiftGuard(i, n);
    }
    assert n >= 1 ==> i == Pow2(64 - n) >= 2;
    if n >= 1 {
      VisitCountIsNotBoardCount(n);
    }
    return Ok(freq);
  }
}
