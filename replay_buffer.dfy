/** The experience-replay buffer of the DDPG agent: a fixed number of slots
    kept as five parallel columns (state, next state, action, reward,
    terminal flag) and a store counter that only grows. A store writes
    every column at slot `counter % capacity`; a sample gathers the
    columns, row-aligned, at indices drawn from the filled prefix.

    States and actions are opaque row values (`S`, `A`); rewards and the
    terminal flag are `real`. The random draw of the sample is a parameter.
 */
module Replay {
  import opened Ring

  /** What one step of the environment hands to the buffer. */
  datatype Transition<S, A> = Transition(state: S, action: A, reward: real, nextState: S, done: bool)

  /** One slot as the five columns hold it. */
  datatype Row<S, A> = Row(state: S, action: A, reward: real, nextState: S, terminal: real)

  /** The exceptions the buffer's operations raise. */
  datatype Error =
    | ZeroCapacity      // `mem_cntr % mem_size` with `mem_size == 0`
    | EmptyPopulation   // drawing a non-empty batch from an empty range
    | NegativeBatch     // drawing a batch of negative size

  datatype Outcome = Pass | Fail(error: Error)

  datatype Result<T> = Ok(value: T) | Err(error: Error)

  /** The five gathered columns; row `i` of each comes from the same slot. */
  datatype Batch<S, A> = Batch(states: seq<S>, actions: seq<A>, rewards: seq<real>,
                               nextStates: seq<S>, terminal: seq<real>)
  {
    predicate WellFormed() {
      |actions| == |states| && |rewards| == |states| &&
      |nextStates| == |states| && |terminal| == |states|
    }

    function RowOf(i: nat): Row<S, A>
      requires WellFormed() && i < |states|
    {
      Row(states[i], actions[i], rewards[i], nextStates[i], terminal[i])
    }
  }

  /** The terminal column stores `1 - done`, so it can multiply the bootstrap
      term of the Bellman target: 0 when the episode ended, 1 otherwise. */
  function TerminalFlag(done: bool): (m: real)
    ensures m == 0.0 <==> done
    ensures m == 1.0 <==> !done
  {
    // Python's `1 - done`: the bool counts as 1 or 0
    1.0 - (if done then 1.0 else 0.0)
  }

  /** The row a store writes for a transition. */
  function ToRow<S, A>(t: Transition<S, A>): Row<S, A> {
    Row(t.state, t.action, t.reward, t.nextState, TerminalFlag(t.done))
  }

  /** The rows written by a sequence of stores, in store order. */
  function ToRows<S, A>(h: seq<Transition<S, A>>): (rows: seq<Row<S, A>>)
    ensures |rows| == |h|
    ensures forall k :: 0 <= k < |h| ==> rows[k] == ToRow(h[k])
  {
    seq(|h|, k requires 0 <= k < |h| => ToRow(h[k]))
  }

  lemma ToRowsAppend<S, A>(h: seq<Transition<S, A>>, t: Transition<S, A>)
    ensures ToRows(h + [t]) == ToRows(h) + [ToRow(t)]
  {
    assert ToRows(h + [t])[..|h|] == ToRows(h);
  }

  lemma ToRowsSuffix<S, A>(h: seq<Transition<S, A>>, from: nat)
    requires from <= |h|
    ensures ToRows(h)[from..] == ToRows(h[from..])
  {
  }

  // The five columns of a sequence of rows.

  function StatesOf<S, A>(rows: seq<Row<S, A>>): (col: seq<S>)
    ensures |col| == |rows| && forall j :: 0 <= j < |rows| ==> col[j] == rows[j].state
  {
    seq(|rows|, j requires 0 <= j < |rows| => rows[j].state)
  }

  function NextStatesOf<S, A>(rows: seq<Row<S, A>>): (col: seq<S>)
    ensures |col| == |rows| && forall j :: 0 <= j < |rows| ==> col[j] == rows[j].nextState
  {
    seq(|rows|, j requires 0 <= j < |rows| => rows[j].nextState)
  }

  function ActionsOf<S, A>(rows: seq<Row<S, A>>): (col: seq<A>)
    ensures |col| == |rows| && forall j :: 0 <= j < |rows| ==> col[j] == rows[j].action
  {
    seq(|rows|, j requires 0 <= j < |rows| => rows[j].action)
  }

  function RewardsOf<S, A>(rows: seq<Row<S, A>>): (col: seq<real>)
    ensures |col| == |rows| && forall j :: 0 <= j < |rows| ==> col[j] == rows[j].reward
  {
    seq(|rows|, j requires 0 <= j < |rows| => rows[j].reward)
  }

  function TerminalsOf<S, A>(rows: seq<Row<S, A>>): (col: seq<real>)
    ensures |col| == |rows| && forall j :: 0 <= j < |rows| ==> col[j] == rows[j].terminal
  {
    seq(|rows|, j requires 0 <= j < |rows| => rows[j].terminal)
  }

  /** Overwriting one row overwrites the same slot of each column. */
  lemma ColumnsOfUpdate<S, A>(rows: seq<Row<S, A>>, i: nat, row: Row<S, A>)
    requires i < |rows|
    ensures StatesOf(rows[i := row]) == StatesOf(rows)[i := row.state]
    ensures NextStatesOf(rows[i := row]) == NextStatesOf(rows)[i := row.nextState]
    ensures ActionsOf(rows[i := row]) == ActionsOf(rows)[i := row.action]
    ensures RewardsOf(rows[i := row]) == RewardsOf(rows)[i := row.reward]
    ensures TerminalsOf(rows[i := row]) == TerminalsOf(rows)[i := row.terminal]
  {
  }

  /** The picked indices are a possible result of drawing `size` indices,
      with replacement, from `[0, population)`. */
  predicate IsChoice(picked: seq<nat>, population: nat, size: nat) {
    |picked| == size && forall i :: 0 <= i < |picked| ==> picked[i] < population
  }

  /** Gathering a column at a sequence of indices. */
  function Gather<T>(column: seq<T>, indices: seq<nat>): (r: seq<T>)
    requires forall i :: 0 <= i < |indices| ==> indices[i] < |column|
  {
    seq(|indices|, i requires 0 <= i < |indices| => column[indices[i]])
  }

  class ReplayBuffer<S, A> {
    const memSize: nat
    var memCntr: nat
    const stateMemory: array<S>
    const newStateMemory: array<S>
    const actionMemory: array<A>
    const rewardMemory: array<real>
    const terminalMemory: array<real>

    /** The all-zero state and action rows the columns start with. */
    ghost const zeroState: S
    ghost const zeroAction: A
    /** Every transition stored so far, oldest first. */
    ghost var history: seq<Transition<S, A>>

    /** Every column has `memSize` slots, and the columns are distinct arrays. */
    ghost predicate Shaped()
      reads this
    {
      stateMemory.Length == memSize && newStateMemory.Length == memSize &&
      actionMemory.Length == memSize && rewardMemory.Length == memSize &&
      terminalMemory.Length == memSize &&
      stateMemory != newStateMemory && rewardMemory != terminalMemory &&
      stateMemory as object != actionMemory && stateMemory as object != rewardMemory &&
      stateMemory as object != terminalMemory && newStateMemory as object != actionMemory &&
      newStateMemory as object != rewardMemory && newStateMemory as object != terminalMemory &&
      actionMemory as object != rewardMemory && actionMemory as object != terminalMemory
    }

    /** Slot `j` read across the five columns. */
    function RowAt(j: nat): Row<S, A>
      reads this, stateMemory, newStateMemory, actionMemory, rewardMemory, terminalMemory
      requires Shaped() && j < memSize
    {
      Row(stateMemory[j], actionMemory[j], rewardMemory[j], newStateMemory[j], terminalMemory[j])
    }

    ghost function ZeroRow(): Row<S, A>
      reads this
    {
      Row(zeroState, zeroAction, 0.0, zeroState, 0.0)
    }

    /** What the slots should hold after the stores in `history`. */
    ghost function Contents(): (col: seq<Row<S, A>>)
      reads this
      requires memSize > 0
      ensures |col| == memSize
    {
      Column(ToRows(history), ZeroRow(), memSize)
    }

    ghost predicate Valid()
      reads this, stateMemory, newStateMemory, actionMemory, rewardMemory, terminalMemory
    {
      Shaped() &&
      memCntr == |history| &&
      (memSize == 0 ==> history == []) &&
      (memSize > 0 ==>
        && stateMemory[..] == StatesOf(Contents())
        && newStateMemory[..] == NextStatesOf(Contents())
        && actionMemory[..] == ActionsOf(Contents())
        && rewardMemory[..] == RewardsOf(Contents())
        && terminalMemory[..] == TerminalsOf(Contents()))
    }

    /** Slot `j` holds the row `Contents()` gives it. */
    lemma SlotHoldsContents(j: nat)
      requires Valid() && j < memSize
      ensures RowAt(j) == Contents()[j]
    {
      assert stateMemory[j] == stateMemory[..][j];
      assert newStateMemory[j] == newStateMemory[..][j];
      assert actionMemory[j] == actionMemory[..][j];
      assert rewardMemory[j] == rewardMemory[..][j];
      assert terminalMemory[j] == terminalMemory[..][j];
    }

    /** The rows read from the five arrays, slot by slot. */
    ghost function Rows(): (rows: seq<Row<S, A>>)
      reads this, stateMemory, newStateMemory, actionMemory, rewardMemory, terminalMemory
      requires Shaped()
      ensures |rows| == memSize && forall j :: 0 <= j < memSize ==> rows[j] == RowAt(j)
    {
      seq(memSize, j requires 0 <= j < memSize
                     reads this, stateMemory, newStateMemory, actionMemory, rewardMemory, terminalMemory
                     => RowAt(j))
    }

    /** How many slots have been written at least once. */
    function MaxMem(): (m: nat)
      reads this
      ensures m <= memSize && m <= memCntr
      ensures m == memSize || m == memCntr
    {
      if memCntr < memSize then memCntr else memSize
    }

    /** A buffer of `maxSize` zero-filled slots. `zeroState` and `zeroAction`
        are the all-zero rows of the state and action columns. */
    constructor (maxSize: nat, zeroState: S, zeroAction: A)
      ensures Valid()
      ensures memSize == maxSize && memCntr == 0 && history == []
      ensures this.zeroState == zeroState && this.zeroAction == zeroAction
      ensures fresh(stateMemory) && fresh(newStateMemory) && fresh(actionMemory)
      ensures fresh(rewardMemory) && fresh(terminalMemory)
      ensures stateMemory[..] == seq(maxSize, _ => zeroState)
      ensures newStateMemory[..] == seq(maxSize, _ => zeroState)
      ensures actionMemory[..] == seq(maxSize, _ => zeroAction)
      ensures rewardMemory[..] == seq(maxSize, _ => 0.0)
      ensures terminalMemory[..] == seq(maxSize, _ => 0.0)
    {
      memSize := maxSize;
      memCntr := 0;
      stateMemory := new S[maxSize](_ => zeroState);
      newStateMemory := new S[maxSize](_ => zeroState);
      actionMemory := new A[maxSize](_ => zeroAction);
      rewardMemory := new real[maxSize](_ => 0.0);
      terminalMemory := new real[maxSize](_ => 0.0);
      this.zeroState := zeroState;
      this.zeroAction := zeroAction;
      history := [];
    }

    /** Writes the transition into every column at slot `memCntr % memSize`
        and advances the counter; with no slots the modulo raises. */
    method StoreTransition(state: S, action: A, reward: real, nextState: S, done: bool)
      returns (r: Outcome)
      requires Valid()
      modifies this, stateMemory, newStateMemory, actionMemory, rewardMemory, terminalMemory
      ensures Valid()
      ensures r == (if memSize == 0 then Fail(ZeroCapacity) else Pass)
      ensures r.Fail? ==> memCntr == old(memCntr) && history == old(history)
      ensures r.Fail? ==> unchanged(stateMemory, newStateMemory, actionMemory, rewardMemory, terminalMemory)
      ensures r.Pass? ==> memCntr == old(memCntr) + 1
      ensures r.Pass? ==> history == old(history) + [Transition(state, action, reward, nextState, done)]
      ensures r.Pass? ==>
        var i := SlotIndex(old(memCntr), memSize);
        && stateMemory[..] == old(stateMemory[..])[i := state]
        && newStateMemory[..] == old(newStateMemory[..])[i := nextState]
        && actionMemory[..] == old(actionMemory[..])[i := action]
        && rewardMemory[..] == old(rewardMemory[..])[i := reward]
        && terminalMemory[..] == old(terminalMemory[..])[i := TerminalFlag(done)]
      ensures r.Pass? ==> Contents() == old(Contents())[SlotIndex(old(memCntr), memSize) :=
                                          Row(state, action, reward, nextState, TerminalFlag(done))]
    {
      if memSize == 0 {
        return Fail(ZeroCapacity);
      }
      var index := memCntr % memSize;
      ghost var t := Transition(state, action, reward, nextState, done);
      ghost var before := Contents();
      ghost var states, nextStates, actions := stateMemory[..], newStateMemory[..], actionMemory[..];
      ghost var rewards, terminals := rewardMemory[..], terminalMemory[..];
      stateMemory[index] := state;
      newStateMemory[index] := nextState;
      actionMemory[index] := action;
      rewardMemory[index] := reward;
      terminalMemory[index] := TerminalFlag(done);
      assert stateMemory[..] == states[index := state];
      assert newStateMemory[..] == nextStates[index := nextState];
      assert actionMemory[..] == actions[index := action];
      assert rewardMemory[..] == rewards[index := reward];
      assert terminalMemory[..] == terminals[index := TerminalFlag(done)];
      memCntr := memCntr + 1;
      ToRowsAppend(history, t);
      history := history + [t];
      assert ToRows(history)[..|history| - 1] == ToRows(old(history));
      assert Contents() == before[index := ToRow(t)];
      ColumnsOfUpdate(before, index, ToRow(t));
      r := Pass;
    }

    /** The ring-buffer overwrite law: a slot that has been written holds the
        latest transition whose store-time counter maps to it; a slot never
        written still holds the zero row. */
    lemma SlotHolds(j: nat)
      requires Valid() && j < memSize
      ensures RowAt(j) == if j < memCntr then ToRow(history[LastWrite(j, memCntr, memSize)])
                          else ZeroRow()
    {
      SlotHoldsContents(j);
      if j < memCntr {
        ColumnAtLastWrite(ToRows(history), ZeroRow(), memSize, j);
      } else {
        ColumnUnfilled(ToRows(history), ZeroRow(), memSize, j);
      }
    }

    /** Each of the last `memSize` transitions stored is intact in slot `c % memSize`. */
    lemma HoldsRecent(c: nat)
      requires Valid() && c < memCntr && memCntr - memSize <= c
      ensures RowAt(SlotIndex(c, memSize)) == ToRow(history[c])
    {
      SlotHoldsContents(SlotIndex(c, memSize));
      ColumnRecent(ToRows(history), ZeroRow(), memSize, c);
    }

    /** Once `memCntr >= memSize`, the slots hold exactly the rows of the last
        `memSize` transitions stored, each once. */
    lemma HoldsLastTransitions()
      requires Valid() && 0 < memSize <= memCntr
      ensures multiset(Rows()) == multiset(ToRows(history[memCntr - memSize..]))
    {
      forall j | 0 <= j < memSize
        ensures Rows()[j] == Contents()[j]
      {
        SlotHoldsContents(j);
      }
      assert Rows() == Contents();
      var rows := ToRows(history);
      assert |rows| == memCntr;
      ColumnHoldsLastWindow(rows, ZeroRow(), memSize);
      assert multiset(Contents()) == multiset(rows[memCntr - memSize..]);
      ToRowsSuffix(history, memCntr - memSize);
    }

    /** Draws `batchSize` rows at the indices `picked`, the draw that
        `choice(min(memCntr, memSize), batchSize)` made. Drawing a non-empty
        batch from an empty buffer raises, and so does a negative batch size.
        The buffer is left as it is. */
    method SampleBuffer(batchSize: int, picked: seq<nat>) returns (r: Result<Batch<S, A>>)
      requires Valid()
      requires batchSize >= 0 && (MaxMem() > 0 || batchSize == 0) ==>
                 IsChoice(picked, MaxMem(), batchSize)
      ensures r.Err? <==> batchSize < 0 || (MaxMem() == 0 && batchSize > 0)
      ensures r.Err? ==> r.error == if MaxMem() == 0 then EmptyPopulation else NegativeBatch
      ensures r.Ok? ==> r.value.WellFormed() && |r.value.states| == batchSize
      ensures r.Ok? ==> forall i :: 0 <= i < batchSize ==>
                && picked[i] < MaxMem()
                && r.value.states[i] == stateMemory[picked[i]]
                && r.value.actions[i] == actionMemory[picked[i]]
                && r.value.rewards[i] == rewardMemory[picked[i]]
                && r.value.nextStates[i] == newStateMemory[picked[i]]
                && r.value.terminal[i] == terminalMemory[picked[i]]
      ensures r.Ok? ==> forall i :: 0 <= i < batchSize ==>
                var k := LastWrite(picked[i], memCntr, memSize);
                memCntr - memSize <= k < memCntr && r.value.RowOf(i) == ToRow(history[k])
    {
      var maxMem := MaxMem();
      if maxMem == 0 && batchSize != 0 {
        return Err(EmptyPopulation);
      }
      if batchSize < 0 {
        return Err(NegativeBatch);
      }
      var batch := picked;
      var states := Gather(stateMemory[..], batch);
      var actions := Gather(actionMemory[..], batch);
      var rewards := Gather(rewardMemory[..], batch);
      var nextStates := Gather(newStateMemory[..], batch);
      var terminal := Gather(terminalMemory[..], batch);
      r := Ok(Batch(states, actions, rewards, nextStates, terminal));
      forall i | 0 <= i < batchSize
        ensures r.value.RowOf(i) == ToRow(history[LastWrite(batch[i], memCntr, memSize)])
      {
        SlotHolds(batch[i]);
      }
    }
  }
}
