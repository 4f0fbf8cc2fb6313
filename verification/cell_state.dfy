/** The two-valued cell of src/main.rs, with its `#[repr(u8)]` discriminants and
    the lenient conversions from `bool` and `u64`.

    The discriminants are inverted with respect to the usual bit reading:
    `Alive = 0`, `Dead = 1`. The `as u8` casts of the neighbour count read
    these numbers, so a sum of discriminants counts Dead cells.
 */
module CellStates {
  import opened Bits

  datatype CellState = Alive | Dead {
    predicate IsAlive() { Alive? }
    predicate IsDead() { Dead? }
  }

  /** `cell as u8`. */
  function Disc(c: CellState): (d: nat)
    ensures d <= 1
    ensures d == 1 <==> c.IsDead()
  {
    match c
    case Alive => 0
    case Dead => 1
  }

  /** `CellState::from(bool)`. */
  function FromBool(b: bool): (c: CellState)
    ensures c.IsAlive() <==> b
  {
    match b
    case true => Alive
    case false => Dead
  }

  /** `CellState::from(u64)` of src/main.rs: zero is Dead, anything else Alive. */
  function FromU64(value: u64): (c: CellState)
    ensures c.IsAlive() <==> value != 0
  {
    if value == 0 then Dead else Alive
  }

  /** The sum of the discriminants of `cells`. */
  function DiscSum(cells: seq<CellState>): (n: nat)
    ensures n <= |cells|
  {
    if |cells| == 0 then 0 else Disc(cells[0]) + DiscSum(cells[1..])
  }

  /** Summing discriminants counts the Dead cells, and so counts the Alive
      cells only by their absence. */
  lemma {:induction false} DiscSumCountsDead(cells: seq<CellState>)
    ensures DiscSum(cells) == multiset(cells)[Dead]
    ensures DiscSum(cells) == |cells| - multiset(cells)[Alive]
  {
    if |cells| > 0 {
      assert cells == [cells[0]] + cells[1..];
      DiscSumCountsDead(cells[1..]);
    }
  }

  /** Reading a cell as a boolean and converting back is the identity, and so is
      the other way round: `From<bool>` is a bijection. */
  lemma FromBoolRoundTrip(c: CellState, b: bool)
    ensures FromBool(c.IsAlive()) == c
    ensures FromBool(b).IsAlive() == b
  {
  }
}
