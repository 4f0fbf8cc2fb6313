/** The packed state of a board: bit `i` of the number is set exactly when cell
    `i` (row-major, `i = col + row * width`) is Alive. `next_gen` builds it with
    `state | (1 << index)`, `new_with_conf` reads it back with
    `conf & (1 << i)`, and `find_cycle` uses it as the key of its table of
    seen states, so it must identify a board's cells uniquely.
 */
module Packing {
  import opened Bits
  import opened CellStates

  function Pack(cells: seq<CellState>): (s: nat)
    ensures s < Pow2(|cells|)
  {
    if |cells| == 0 then 0
    else (if cells[0].IsAlive() then 1 else 0) + 2 * Pack(cells[1..])
  }

  /** Bit `i` of the packed state is set iff cell `i` exists and is Alive;
      in particular no bit at or above the number of cells is set. */
  lemma {:induction false} PackBits(cells: seq<CellState>, i: nat)
    ensures Bit(Pack(cells), i) <==> i < |cells| && cells[i].IsAlive()
  {
    if |cells| == 0 {
      NoBitAbove(0, 0, i);
    } else if i > 0 {
      PackBits(cells[1..], i - 1);
    }
  }

  /** Appending a cell adds its bit at the next position: the accumulation
      order of `next_gen`. */
  lemma {:induction false} PackAppend(cells: seq<CellState>, c: CellState)
    ensures Pack(cells + [c]) == Pack(cells) + (if c.IsAlive() then Pow2(|cells|) else 0)
  {
    if |cells| > 0 {
      assert (cells + [c])[1..] == cells[1..] + [c];
      PackAppend(cells[1..], c);
    }
  }

  /** A number below `2^|cells|` whose bits spell out `cells` is their packed
      state: loading a configuration and packing it again gives it back. */
  lemma {:induction false} PackOfBits(conf: nat, cells: seq<CellState>)
    requires conf < Pow2(|cells|)
    requires forall i :: 0 <= i < |cells| ==> (cells[i].IsAlive() <==> Bit(conf, i))
    ensures Pack(cells) == conf
  {
    if |cells| > 0 {
      forall i | 0 <= i < |cells| - 1
        ensures cells[1..][i].IsAlive() <==> Bit(conf / 2, i)
      {
        assert Bit(conf, i + 1) == Bit(conf / 2, i);
      }
      PackOfBits(conf / 2, cells[1..]);
      assert Bit(conf, 0) == (conf % 2 == 1);
    }
  }

  /** Two boards of the same size with the same packed state are the same
      board: the packed state is a collision-free key. */
  lemma PackInjective(a: seq<CellState>, b: seq<CellState>)
    requires |a| == |b|
    requires Pack(a) == Pack(b)
    ensures a == b
  {
    forall i | 0 <= i < |a|
      ensures a[i] == b[i]
    {
      PackBits(a, i);
      PackBits(b, i);
    }
  }

  /** When every cell from position `m` on is Dead, the packed state is below
      `2^m`. */
  lemma {:induction false} PackBelow(cells: seq<CellState>, m: nat)
    requires m <= |cells|
    requires forall k :: m <= k < |cells| ==> cells[k].IsDead()
    ensures Pack(cells) < Pow2(m)
  {
    if |cells| > 0 {
      if m == 0 {
        PackBelow(cells[1..], 0);
      } else {
        PackBelow(cells[1..], m - 1);
      }
    }
  }
}
