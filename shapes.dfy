/** The array shapes the replay buffer's constructor asks for, as sequences
    of dimension sizes. The state column is built with shape
    `(mem_size, *input_shape)`: one row of `input_shape` per slot. The
    next-state column is built with `mem_size * input_shape`, which for a
    tuple or list `input_shape` is sequence repetition, not one row per slot.
 */
module Shapes {

  /** `k * shape` on a Python tuple or list: `shape` repeated `k` times. */
  function Repeat(shape: seq<nat>, k: nat): (r: seq<nat>)
    ensures |r| == k * |shape|
  {
    if k == 0 then [] else shape + Repeat(shape, k - 1)
  }

  /** Repeating a one-dimensional shape `[d]` gives `k` dimensions of size `d`. */
  lemma {:induction false} RepeatSingle(d: nat, k: nat)
    ensures Repeat([d], k) == seq(k, _ => d)
  {
    if k > 0 {
      RepeatSingle(d, k - 1);
    }
  }

  /** `(mem_size, *input_shape)`: the shape of the state column. */
  function RowsShape(memSize: nat, inputShape: seq<nat>): (r: seq<nat>)
    ensures |r| == 1 + |inputShape| && r[0] == memSize && r[1..] == inputShape
  {
    [memSize] + inputShape
  }

  /** `mem_size * input_shape`: the shape of the next-state column as written. */
  function NewStateShapeAsWritten(memSize: nat, inputShape: seq<nat>): (r: seq<nat>)
    ensures |r| == memSize * |inputShape|
  {
    Repeat(inputShape, memSize)
  }

  /** With a one-dimensional observation of size `d` and room for `m >= 2`
      transitions, the next-state column as written has `m` dimensions of
      size `d` each: not `m` rows, and not the state column's shape. */
  lemma NewStateShapeAsWrittenIsNotRows(m: nat, d: nat)
    requires m >= 2 && d != m
    ensures NewStateShapeAsWritten(m, [d]) == seq(m, _ => d)
    ensures NewStateShapeAsWritten(m, [d])[0] != RowsShape(m, [d])[0]
  {
    RepeatSingle(d, m);
  }
}
