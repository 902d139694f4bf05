# Replay buffer of the DDPG lunar-lander agent, in Dafny

This project models the experience-replay buffer `ReplayBuffer` of the
PyTorch DDPG agent (`RLHF/RL/DDPG/Torch/torch_lander.py`, lines 31-60) and
proves what it guarantees.

The buffer has a fixed number of slots, `mem_size`. It keeps them as five
parallel columns: state, next state, action, reward and terminal flag. A
store counter `mem_cntr` only ever grows.

- `store_transition` writes each column at slot `mem_cntr % mem_size` and
  advances the counter. The terminal column gets `1 - done`.
- `sample_buffer` draws `batch_size` indices, with replacement, from the
  filled prefix `[0, min(mem_cntr, mem_size))`. It returns the five columns
  gathered at those indices, row by row.

Files:

- `ring.dfy` (module `Ring`) holds the ring-buffer write pattern as pure
  functions. `Column(w, zero, size)` is a column of `size` slots that
  started as `zero`, after the writes `w` in counter order. Its lemmas state
  the overwrite law:
  - before the first wrap, the writes fill the column front to back;
  - each slot holds the latest write aimed at it;
  - each of the last `size` writes is intact in slot `c % size`;
  - once the counter reaches `size`, the column holds exactly the last
    `size` writes, as a multiset;
  - the next write replaces the oldest one.
- `replay_buffer.dfy` (module `Replay`) holds the class `ReplayBuffer`. Its
  five columns are arrays of length `memSize`, and `memCntr` is the
  counter. A ghost `history` records every stored transition. `Valid()`
  ties each array to one column of `Contents()`, which is `Column` applied
  to the rows of `history`. `StoreTransition` and `SampleBuffer` are
  methods proved against that specification. The lemmas `SlotHolds`,
  `HoldsRecent` and `HoldsLastTransitions` carry the overwrite law over to
  the rows read from the arrays (`RowAt`, `Rows()`).
- `shapes.dfy` (module `Shapes`) holds the array shapes the constructor
  asks for, as sequences of dimension sizes. It exists for the finding
  below.

Modelling choices:

- States and actions are opaque type parameters `S` and `A`, one value per
  row. Rewards and the terminal flag are `real`.
- numpy's zero fill becomes the constructor parameters `zeroState` and
  `zeroAction`, the all-zero state and action rows.
- The random draw is a parameter. `SampleBuffer` receives the indices
  `picked` that `np.random.choice` returned. Its precondition says that
  they are a possible result of that draw: `batchSize` of them, each below
  `min(memCntr, memSize)`.
- Python exceptions become error results:
  - with `mem_size == 0`, `mem_cntr % mem_size` raises
    `ZeroDivisionError`. `StoreTransition` returns `Fail(ZeroCapacity)` and
    changes nothing.
  - drawing a non-empty batch from an empty range raises `ValueError`.
    `SampleBuffer` returns `Err(EmptyPopulation)`.
  - a negative batch size raises `ValueError` too. `SampleBuffer` returns
    `Err(NegativeBatch)`, or `Err(EmptyPopulation)` when the buffer is also
    empty, since that check comes first.

Sampling fails only for a non-empty batch drawn from an empty buffer, or
for a negative batch size. `np.random.choice(0, 0)` returns an empty draw,
so a batch of size 0 from an empty buffer succeeds and `SampleBuffer`
returns five empty columns.

## Model

| member | source | states |
|---|---|---|
| Ring.SlotIndex | RLHF/RL/DDPG/Torch/torch_lander.py:43 | the slot a store writes is in `[0, size)`, and before the first wrap it is the counter itself |
| Ring.SlotIndexAdvances | RLHF/RL/DDPG/Torch/torch_lander.py:43-49 | after a store the write slot moves one forward, wrapping from the last slot to slot 0 |
| Ring.Column | RLHF/RL/DDPG/Torch/torch_lander.py:43-49 | the column after a sequence of stores, each at slot `counter % size`, still has exactly `size` slots |
| Ring.LastWrite | RLHF/RL/DDPG/Torch/torch_lander.py:43-49 | for a slot `j` written at least once, gives a counter value `c < n` with `c % size == j` among the last `size` stores |
| Ring.ColumnFilling | RLHF/RL/DDPG/Torch/torch_lander.py:43-49 | while at most `size` stores have happened, the column is the stored values in order followed by zero slots |
| Ring.ColumnRecent | RLHF/RL/DDPG/Torch/torch_lander.py:43-49 | each of the last `size` stored values is still in slot `c % size` |
| Ring.ColumnAtLastWrite | RLHF/RL/DDPG/Torch/torch_lander.py:43-49 | overwrite law: a written slot holds the most recent value whose store-time counter maps to it |
| Ring.ColumnUnfilled | RLHF/RL/DDPG/Torch/torch_lander.py:35-39 | a slot no store has reached still holds its initial zero |
| Ring.ColumnHoldsLastWindow | RLHF/RL/DDPG/Torch/torch_lander.py:43-49 | once `n >= size` stores have happened, the column holds exactly the last `size` stored values, as a multiset |
| Ring.OldestOverwritten | RLHF/RL/DDPG/Torch/torch_lander.py:43-49 | on a full column, the slot the next store writes holds the oldest of the last `size` values |
| Replay.TerminalFlag | RLHF/RL/DDPG/Torch/torch_lander.py:48 | the terminal column value `1 - done` is 0 exactly when the episode ended and 1 exactly when it did not |
| Replay.ReplayBuffer.constructor | RLHF/RL/DDPG/Torch/torch_lander.py:32-39 | counter 0 and empty history; each of the five columns is a fresh array of exactly `mem_size` zero slots, the next-state column included |
| Replay.ReplayBuffer.MaxMem | RLHF/RL/DDPG/Torch/torch_lander.py:52 | the filled prefix has length `min(mem_cntr, mem_size)` |
| Replay.ReplayBuffer.StoreTransition | RLHF/RL/DDPG/Torch/torch_lander.py:42-49 | fails with nothing changed when `mem_size == 0`; otherwise the counter grows by exactly 1, `mem_size` stays, each column changes only at slot `old counter % mem_size`, which gets state, next state, action, reward and `1 - done`; `Valid()` is kept |
| Replay.ReplayBuffer.SlotHolds | RLHF/RL/DDPG/Torch/torch_lander.py:43-49 | after any number of stores, each slot holds the full row of the latest transition whose counter maps to it, or the zero row if none does |
| Replay.ReplayBuffer.HoldsRecent | RLHF/RL/DDPG/Torch/torch_lander.py:43-49 | each of the last `mem_size` transitions stored is intact, all five columns, in slot `c % mem_size` |
| Replay.ReplayBuffer.HoldsLastTransitions | RLHF/RL/DDPG/Torch/torch_lander.py:43-49 | once `mem_cntr >= mem_size`, the rows read from the arrays are, as a multiset, exactly the rows of the last `mem_size` transitions stored |
| Replay.ReplayBuffer.SampleBuffer | RLHF/RL/DDPG/Torch/torch_lander.py:51-60 | fails exactly when the batch size is negative or the filled prefix is empty and `batch_size > 0`; otherwise returns `batch_size` rows per column, element `i` of each of the five columns is that column's slot `picked[i]`, that slot is in the filled prefix, and it holds a transition among the last `mem_size` stored |
| Shapes.RowsShape | RLHF/RL/DDPG/Torch/torch_lander.py:35 | the state column's shape is `mem_size` rows followed by exactly the observation's dimensions |
| Shapes.NewStateShapeAsWritten | RLHF/RL/DDPG/Torch/torch_lander.py:36 | the next-state column's shape as written has `mem_size * len(input_shape)` dimensions |
| Shapes.RepeatSingle | RLHF/RL/DDPG/Torch/torch_lander.py:36 | repeating a one-dimensional shape `(d,)` `k` times gives `k` dimensions of size `d` |
| Shapes.NewStateShapeAsWrittenIsNotRows | RLHF/RL/DDPG/Torch/torch_lander.py:35-36 | for `mem_size >= 2` and a one-dimensional observation of another size, the next-state shape as written does not have `mem_size` rows |

## Findings

| source | as written | input that shows it | evidently intended | confidence | as-written member | corrected member |
|---|---|---|---|---|---|---|
| RLHF/RL/DDPG/Torch/torch_lander.py:36 | the next-state column's shape is `mem_size * input_shape`, which repeats the observation shape `mem_size` times | `mem_size = 2`, `input_shape = (8,)` gives shape `(8, 8)`: 8 rows instead of 2; with a realistic `mem_size` numpy refuses the shape (too many dimensions) | shape `(mem_size, *input_shape)`, one row per slot as for the state column at line 35 | high; not executed | Shapes.NewStateShapeAsWrittenIsNotRows | Replay.ReplayBuffer.constructor |

## Left out

- `OUActionNoise` (lines 9-28): a floating-point random process. Its update also reads a misspelled attribute, so it would raise.
- `CriticNetwork` and `ActorNetwork` (lines 64-178): wrappers over torch layers, initialisers and the Adam optimiser. These are foreign library calls over floating point.
- `save_checkpoint` and `load_checkpoint`: file I/O.
- The agent's learning step and the training loop. The agent class is not in the modelled file (`ddpg.py` is not part of this model).
- Replay.ReplayBuffer.SampleBuffer: the draw is a parameter. That it is uniform, independent and with replacement is not modelled. Only the set of possible draws is.
- Replay.ReplayBuffer.StoreTransition: numpy converts and broadcasts each row on assignment and raises on a shape mismatch. This is not modelled, because rows are opaque values. `done` is a boolean; `1 - done` on other numbers is not modelled.
- Replay.ReplayBuffer.constructor: a negative `max_size` makes `np.zeros` raise. The model takes `maxSize` as a `nat` instead.
- Float widths: rewards (float64) and the terminal flag (float32) are exact `real`s. `1 - done` is exact in both widths.
- The next-state column is modelled with `mem_size` rows, as the finding above explains, not with the shape line 36 builds.
