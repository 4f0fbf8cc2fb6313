/** `find_cycle` of src/main.rs: a ping-pong between two boards with a table
    from packed states to the frame at which they were first seen.

    As written the loop never gets past its first pass. `entry(s).or_insert(frame)`
    puts the state into the table BEFORE `get(s).is_some()` looks for it, so
    the test always succeeds and the function returns on the first step with
    the frame it has just inserted, 0. Even a second pass would not advance
    the frame: `frame += frame` keeps 0 at 0.
 */
module Cycle {
  import opened Panics
  import opened CellStates
  import opened Packing
  import opened Boards
  import opened Generation

  /** The loop state of `find_cycle`: the two buffers, whose turn it is,
      the frame counter, the table of seen states and the two `mut`
      parameters the `and_modify` closure writes. */
  datatype Detector = Detector(
    buffer1: Board,
    buffer2: Board,
    turn: bool,
    frame: nat,
    seen: map<nat, nat>,
    cycleStart: nat,
    cycleEnd: nat)
  {
    /** Both buffers have the shape `next_gen` works on. */
    predicate Ready() {
      && Steppable(buffer1) && Steppable(buffer2)
      && |buffer1.inner| == |buffer2.inner|
    }
  }

  /** What one pass of the loop ends in: a return of `(start, end)` with the
      two buffers as the caller then sees them, or the next pass with the
      updated detector. */
  datatype Outcome =
    | Found(start: nat, end: nat, buffer1: Board, buffer2: Board)
    | Continue(next: Detector)

  /** `entry(key).and_modify(f).or_insert(value)` on the seen table: an
      absent key gets `value`, a present key keeps its entry. */
  function InsertIfAbsent(seen: map<nat, nat>, key: nat, value: nat): (r: map<nat, nat>)
    ensures key in r
    ensures key in seen ==> r == seen
    ensures key !in seen ==> r[key] == value && r.Keys == seen.Keys + {key}
    ensures forall k :: k in seen ==> k in r && r[k] == seen[k]
  {
    if key in seen then seen else seen[key := value]
  }

  /** The end of a pass that does not return: `insert(s, frame)`, then
      `turn = !turn` and `frame += frame`. A frame of 0 stays 0. */
  function NextPass(d: Detector, s: nat): Detector
  {
    d.(seen := d.seen[s := d.frame], turn := !d.turn, frame := d.frame + d.frame)
  }

  /** The detector after one pass that does not return for each state of
      `ss`, in order. */
  function Passes(d: Detector, ss: seq<nat>): (r: Detector)
    decreases |ss|
  {
    if |ss| == 0 then d else Passes(NextPass(d, ss[0]), ss[1..])
  }

  /** `frame += frame` cannot leave 0: however many passes run, a detector
      that starts at frame 0 stays at frame 0, so every state it enters is
      entered at frame 0, and the turn has flipped once per pass. */
  lemma {:induction false} PassesKeepFrameZero(d: Detector, ss: seq<nat>)
    requires d.frame == 0
    ensures Passes(d, ss).frame == 0
    ensures Passes(d, ss).turn == (d.turn <==> |ss| % 2 == 0)
    ensures forall k :: 0 <= k < |ss| ==> ss[k] in Passes(d, ss).seen && Passes(d, ss).seen[ss[k]] == 0
    decreases |ss|
  {
    if |ss| > 0 {
      var d' := NextPass(d, ss[0]);
      PassesKeepFrameZero(d', ss[1..]);
      forall k | 0 <= k < |ss|
        ensures ss[k] in Passes(d, ss).seen && Passes(d, ss).seen[ss[k]] == 0
      {
        if k > 0 {
          assert ss[k] == ss[1..][k - 1];
        } else {
          SeenKeepsZero(d', ss[1..], ss[0]);
        }
      }
    }
  }

  /** A state entered at frame 0 keeps its entry 0 through later passes of
      a detector at frame 0. */
  lemma {:induction false} SeenKeepsZero(d: Detector, ss: seq<nat>, s: nat)
    requires d.frame == 0 && s in d.seen && d.seen[s] == 0
    ensures s in Passes(d, ss).seen && Passes(d, ss).seen[s] == 0
    decreases |ss|
  {
    if |ss| > 0 {
      SeenKeepsZero(NextPass(d, ss[0]), ss[1..], s);
    }
  }

  /** One pass of `find_cycle`'s loop. `next_gen` runs from the buffer whose
      turn it is into the other one; the packed state `s` is entered in the
      table (the `and_modify` closure records the old frame and the current
      one in `cycleStart`/`cycleEnd` when `s` was already there); and since
      `s` is now in the table the pass returns its entry and the current
      frame. The pass never continues. */
  method DetectorStep(d: Detector) returns (r: Result<Outcome>)
    requires d.Ready()
    ensures var from := if d.turn then d.buffer1 else d.buffer2;
      r.Err? <==> exists k :: 64 <= k < |from.inner| && Successor(from)[k].IsAlive()
    ensures r.Err? ==> r.panic == ShiftOverflow
    ensures r.Ok? ==> r.value.Found?
    ensures r.Ok? ==> r.value.end == d.frame
    ensures r.Ok? && d.turn ==>
      r.value.buffer1 == d.buffer1 && r.value.buffer2 == d.buffer2.(inner := Successor(d.buffer1))
    ensures r.Ok? && !d.turn ==>
      r.value.buffer2 == d.buffer2 && r.value.buffer1 == d.buffer1.(inner := Successor(d.buffer2))
    ensures var from := if d.turn then d.buffer1 else d.buffer2;
      r.Ok? ==> var s := Pack(Successor(from));
        r.value.start == if s in d.seen then d.seen[s] else d.frame
  {
    var from, to := if d.turn then d.buffer1 else d.buffer2, if d.turn then d.buffer2 else d.buffer1;
    var step := NextGen(from, to);
    if step.Err? {
      return Err(step.panic);
    }
    var written, s := step.value.0, step.value.1;
    var buffer1, buffer2 := if d.turn then d.buffer1 else written, if d.turn then written else d.buffer2;
    var cycleStart, cycleEnd := d.cycleStart, d.cycleEnd;
    if s in d.seen {
      cycleStart, cycleEnd := d.seen[s], d.frame;
    }
    var seen := InsertIfAbsent(d.seen, s, d.frame);
    if s in seen {
      return Ok(Found(seen[s], d.frame, buffer1, buffer2));
    }
    // not reached: `s` has just been entered
    var pass := d.(buffer1 := buffer1, buffer2 := buffer2, seen := seen, cycleStart := cycleStart, cycleEnd := cycleEnd);
    return Ok(Continue(NextPass(pass, s)));
  }

  /** `find_cycle(buffer1, buffer2, cycle_start, cycle_end)`. The loop
      starts with `turn = true`, `frame = 0` and an empty table, so its
      first and only pass steps `buffer1` into `buffer2` and returns
      `(0, 0)`. `buffer1` is left as it was and `buffer2` holds the next
      generation of `buffer1`; the call panics exactly when `next_gen`
      does. */
  method FindCycle(buffer1: Board, buffer2: Board, cycleStart: nat, cycleEnd: nat)
    returns (r: Result<(nat, nat, Board, Board)>)
    requires Steppable(buffer1) && Steppable(buffer2)
    requires |buffer1.inner| == |buffer2.inner|
    ensures r.Err? <==> exists k :: 64 <= k < |buffer1.inner| && Successor(buffer1)[k].IsAlive()
    ensures r.Err? ==> r.panic == ShiftOverflow
    ensures r.Ok? ==> r.value.0 == 0 && r.value.1 == 0
    ensures r.Ok? ==> r.value.2 == buffer1
    ensures r.Ok? ==> r.value.3 == buffer2.(inner := Successor(buffer1))
  {
    var d := Detector(buffer1, buffer2, true, 0, map[], cycleStart, cycleEnd);
    var step := DetectorStep(d);
    if step.Err? {
      return Err(step.panic);
    }
    return Ok((step.value.start, step.value.end, step.value.buffer1, step.value.buffer2));
  }
}
