# ULN2003 / 28BYJ-48 half-step driver, modelled in Dafny

This project models the phase-sequencing state machine of the `uln2003` Rust
crate, a driver for the 28BYJ-48 stepper motor behind a ULN2003 driver chip.

- `states.dfy` (module `States`): the nine-variant `State` enum and its three
  total tables: the coil pattern of each state (`get_pin_states`), and the
  next and previous tables (`get_next_state`, `get_prev_state`). State0 is an
  idle entry point outside the eight-state half-step cycle State1..State8.
  The lemmas here cover inverses, the idle-state boundary, the exact cycle
  length in both directions, and the pattern facts (distinct, one wire changes
  per half step, agreement with the wire/state table in the enum's
  documentation).
- `pins.dfy` (module `Pins`): fallible pin writes. The outcome of each write
  comes from an oracle: a `seq<bool>` consumed one entry per attempted write.
  Once it is used up, every later write succeeds. Each attempted write is
  recorded as a `Write(wire, level)` event. A chain of writes stops at the
  first failure, like the `?` chains in `apply_state` and
  `power_off`. `WritesInOrder` states
  exactly which events, result and remaining oracle such a chain yields.
- `uln2003.dfy` (module `Uln2003`): the motor record `(state, dir,
  delayPresent)` and the operations `new`, `apply_state`, `step`, `step_for`,
  `set_direction`, `stop` and `power_off`, as pure functions. Each returns a
  `Run`: the new record, the event trace (writes and `Delay(ms)` events), the
  result (`Ok` or `Err(StepError)`) and the unused oracle. `step_for` is
  specified against an independent reference, `IdealTrace`. This is the trace
  of n fault-free steps, each step's four writes followed by one delay. The
  specification (`LoopEffect`) says the actual trace is a prefix of the ideal
  trace. The result is `Ok` exactly when the whole ideal trace was produced.
  Otherwise the trace ends with the write that failed, and every earlier
  write succeeded. The final state is the one reached by the steps that were
  begun.

Behaviour of the code that a caller may not expect:

- A failed pin write skips the remaining writes. The `?` operators in
  `apply_state` and `power_off` return at the first error.
- After `stop`, a step in `Reverse` goes from State0 to State8, because
  `get_prev_state(State0)` is State8.
- `step_for` without a delay source returns `Err` for every step count,
  including counts `<= 0`.
- In `step_for` a delay follows every successful step, the last one included.

## Model

| member | source | states |
|---|---|---|
| States.PinPattern | src/lib.rs:35-47 | only State0 drives every wire low |
| States.PatternInjective | src/lib.rs:35-47 | the nine patterns are pairwise distinct |
| States.OneWirePerStep | src/lib.rs:35-59 | each cycle state and its successor (State8 to State1 included) differ on exactly one wire |
| States.PatternMatchesDocTable | src/lib.rs:16-47 | a wire is High in a state exactly when the enum's documentation table marks it with x |
| States.Next | src/lib.rs:49-61 | the next state is never State0 and sits one cycle position further on (State8 wraps to State1, State0 enters at State1) |
| States.Prev | src/lib.rs:63-75 | the previous state is never State0; State0 goes to State8; a cycle state moves one position back (State1 wraps to State8) |
| States.NextPrevInverse | src/lib.rs:49-75 | on State1..State8, prev(next(s)) == s and next(prev(s)) == s |
| States.IdleBoundary | src/lib.rs:49-75 | at State0 the inverse fails: prev(next(State0)) == State8, and exactly State0 and State1 have predecessor State8 |
| States.WalkIndex | src/lib.rs:49-75 | after k steps from a cycle state the position is the start shifted by k (Normal) or by -k (Reverse), modulo 8 |
| States.WalkReturns | src/lib.rs:49-75 | k steps in either direction return to a cycle state exactly when k is a multiple of 8 |
| States.CycleLength | src/lib.rs:49-75 | 8 steps return to the start, and 1 to 7 steps do not, in both directions |
| States.ForwardSweepFromIdle | src/lib.rs:49-61 | k Normal steps from State0 reach State k, for k in 1..8 |
| States.BackwardSweepFromIdle | src/lib.rs:63-75 | k Reverse steps from State0 reach State(9-k), for k in 1..8 |
| Pins.SetLine | src/lib.rs:168-173 | one pin write is one event; a pin failure becomes StepError; one oracle entry is used |
| Pins.WriteLines | src/lib.rs:160-173 | levels go to consecutive wires in order; every write before the last succeeded; Err exactly when the last write attempted failed; no write after a failure |
| Pins.WritesFailIff | src/lib.rs:112-119 | a chain of writes ends in Err exactly when some write among its levels would fail, and every write before the failed one succeeded |
| Pins.WritesInOrderUnique | src/lib.rs:112-119 | the events, result and unused oracle of a chain of writes are determined by the levels and the oracle |
| Uln2003.ApplyState | src/lib.rs:112-119 | writes the current state's pattern to in1..in4 in order, stopping at the first failure, and changes nothing in the record |
| Uln2003.Step | src/lib.rs:129-136 | the state moves to next (Normal) or prev (Reverse) before any write and stays moved on failure; never lands on State0; the new state's pattern is written; direction unchanged |
| Uln2003.StepLoop | src/lib.rs:142-146 | the loop's trace is a prefix of the ideal trace; Ok exactly when all iterations completed; Err ends on the failed write with no delay after it; the final state is the state after the steps begun |
| Uln2003.StepFor | src/lib.rs:138-147 | no delay source: Err with no events, no state change and the oracle untouched, for every step count; steps <= 0: Ok and nothing happens; otherwise the loop's effect |
| Uln2003.StepForAllSucceed | src/lib.rs:138-147 | when the first 4n writes succeed, the result is Ok, the trace is exactly n steps with a delay after each, and the state is n steps on |
| Uln2003.StepForIteration | src/lib.rs:138-147 | when the first 4n writes succeed, events 5j..5j+4 are the j-th iteration: the pattern of the state j+1 steps on, on in1..in4, then one delay |
| Uln2003.SweepFromIdle | src/lib.rs:129-147 | from idle in Normal, the k-th of n <= 8 fault-free steps writes State k's pattern and then delays, and the run ends in State n |
| Uln2003.IdealTraceBlock | src/lib.rs:138-147 | block j of the reference trace of n fault-free steps is the four writes of the state j+1 steps on, then one delay |
| Uln2003.StepFailsOnWireThree | src/lib.rs:112-119 | when the write to in3 fails, in4 is not written, the result is Err, and the state has already advanced |
| Uln2003.Stop | src/lib.rs:153-157 | the state becomes State0 whatever the writes do; Low goes to in1..in4 in order, stopping at the first failure; direction unchanged |
| Uln2003.StepAfterStop | src/lib.rs:129-157 | the step after stop goes to State1 in Normal and to State8 in Reverse |
| Uln2003.PowerOff | src/lib.rs:159-165 | Low goes to in1..in4 in order, stopping at the first failure; state and direction unchanged |
| Uln2003.PowerOffWritesLikeStop | src/lib.rs:153-165 | power_off and stop give the same events, result and oracle use; only stop resets the position |
| Uln2003.StepAfterPowerOff | src/lib.rs:183-186 | a step after power_off continues exactly as it would have without it |
| Uln2003.DirectionTakesEffectOnNextStep | src/lib.rs:149-151 | set_direction keeps the state, and the next step uses the new direction |
| Uln2003.FirstStepOfNew | src/lib.rs:100-110 | a new driver is State0/Normal with the given delay presence, and its first step writes State1's pattern |

`Uln2003.New` (src/lib.rs:100-110) and `Uln2003.SetDirection` (src/lib.rs:149-151) carry no contract of their own. Both are plain record constructions that cannot fail and write nothing. Their behaviour is stated by `Uln2003.FirstStepOfNew` and `Uln2003.DirectionTakesEffectOnNextStep`.

## Left out

- The embedded-hal `OutputPin` and `DelayNs` traits and their implementations. Pin writes are oracle-decided events, and a delay is a `Delay(ms)` event with no real timing.
- The pin and delay-source objects held by the driver. The record keeps only whether a delay source is present.
- The widths of `steps: i32` and `ms: u32`. The model uses `int` and `nat`. A count `<= 0` means no iterations, and `0..steps` cannot overflow.
- Rust generics, the `StepperMotor` trait plumbing and the `Debug` derives, which have no behaviour.
- The ESP-IDF example application (`examples/esp-idf/src/main.rs`). It only acquires GPIOs and loops forever.
