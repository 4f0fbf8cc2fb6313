/** The stricter conversion of src/types.rs: `From<u64>` accepts only 0 and 1
    and panics on anything else.

    src/types.rs declares its own `CellState` enum with the same variants and
    the same discriminants (`Alive = 0`, `Dead = 1`) as src/main.rs, and an
    identical `From<bool>`; the model uses the one `CellStates.CellState` for
    both, so the discriminants agree by construction.
 */
module StrictCells {
  import opened Bits
  import opened Panics
  import opened CellStates

  /** `CellState::from(u64)` of src/types.rs. */
  function StrictFromU64(value: u64): (r: Result<CellState>)
    ensures r.Ok? <==> value <= 1
    ensures r.Err? ==> r.panic == NotABit
    ensures value == 0 ==> r == Ok(Dead)
    ensures value == 1 ==> r == Ok(Alive)
    ensures r.Ok? ==> r.value == FromU64(value)
  {
    if value == 0 then Ok(Dead)
    else if value == 1 then Ok(Alive)
    else Err(NotABit)
  }

  /** On the bits 0 and 1 the strict and the lenient conversion agree, and the
      two differ exactly on the values the strict one refuses. */
  lemma StrictAgreesWithLenient(value: u64)
    ensures StrictFromU64(value).Ok? ==> StrictFromU64(value).value == FromU64(value)
    ensures StrictFromU64(value).Err? <==> FromU64(value) == Alive && value != 1
  {
  }
}
