/**
  The ULN2003 stepper driver: a motor record (position, direction, whether a
  delay source was supplied) and the operations new, step, step_for,
  set_direction, stop and power_off.

  Each I/O operation takes the oracle of pin-write outcomes and returns a Run:
  the motor afterwards, the events it caused (pin writes and delays, in
  order), its result and the unused part of the oracle.
 */
module Uln2003 {
  import opened States
  import opened Pins

  /** The driver's observable state. The pins and the delay source are abstracted away. */
  datatype Motor = Motor(state: State, dir: Direction, delayPresent: bool)

  datatype Run = Run(motor: Motor, trace: seq<Event>, result: Outcome, rest: Oracle)

  function EffectOf(r: Run): Effect
  {
    Effect(r.trace, r.result, r.rest)
  }

  /** A fresh driver: idle, Normal direction, nothing written yet. */
  function New(delayPresent: bool): Motor
  {
    Motor(State0, Normal, delayPresent)
  }

  /** Drives the pattern of the current state onto in1..in4, stopping at the first failed write. */
  function ApplyState(m: Motor, o: Oracle): (r: Run)
    ensures r.motor == m
    ensures WritesInOrder(PinPattern(m.state), 1, o, EffectOf(r))
  {
    var e := WriteLines(PinPattern(m.state), 1, o);
    Run(m, e.trace, e.result, e.rest)
  }

  /**
    One step: the state moves first (next for Normal, previous for Reverse)
    and stays moved even when a write then fails; the direction is untouched.
   */
  function Step(m: Motor, o: Oracle): (r: Run)
    ensures r.motor.state == Walk(m.state, m.dir, 1) != State0
    ensures r.motor.dir == m.dir && r.motor.delayPresent == m.delayPresent
    ensures WritesInOrder(PinPattern(r.motor.state), 1, o, EffectOf(r))
  {
    ApplyState(m.(state := Advance(m.state, m.dir)), o)
  }

  /** Changes the direction only; it cannot fail and writes nothing. */
  function SetDirection(m: Motor, d: Direction): Motor
  {
    m.(dir := d)
  }

  /** Resets to the idle state whatever the writes do, then writes its all-low pattern. */
  function Stop(m: Motor, o: Oracle): (r: Run)
    ensures r.motor == m.(state := State0)
    ensures WritesInOrder(AllLow, 1, o, EffectOf(r))
  {
    ApplyState(m.(state := State0), o)
  }

  /** Writes every wire low but keeps the position and the direction. */
  function PowerOff(m: Motor, o: Oracle): (r: Run)
    ensures r.motor == m
    ensures WritesInOrder(AllLow, 1, o, EffectOf(r))
  {
    var e := WriteLines(AllLow, 1, o);
    Run(m, e.trace, e.result, e.rest)
  }

  /** The events of one fault-free step that reaches s: its pattern on wires 1..4, then the delay. */
  function StepEvents(s: State, ms: nat): (t: seq<Event>)
    ensures |t| == 5
  {
    var p := PinPattern(s);
    [Write(1, p[0]), Write(2, p[1]), Write(3, p[2]), Write(4, p[3]), Delay(ms)]
  }

  /**
    The events of n steps from s in direction d when every write succeeds:
    each step writes the pattern of the state it reaches and is followed by
    one delay, the last step included.
   */
  function IdealTrace(s: State, d: Direction, n: nat, ms: nat): (t: seq<Event>)
    ensures |t| == 5 * n
    decreases n
  {
    if n == 0 then [] else StepEvents(Advance(s, d), ms) + IdealTrace(Advance(s, d), d, n - 1, ms)
  }

  lemma ConcatIndex<T>(a: seq<T>, b: seq<T>, i: nat)
    requires i < |a| + |b|
    ensures (a + b)[i] == if i < |a| then a[i] else b[i - |a|]
  {
  }

  /** Event w of block j (from 0) of the ideal trace is event w of the step reaching state j + 1. */
  lemma {:induction false} IdealTraceAt(s: State, d: Direction, n: nat, ms: nat, j: nat, w: nat)
    requires j < n && w < 5
    ensures IdealTrace(s, d, n, ms)[5 * j + w] == StepEvents(Walk(s, d, j + 1), ms)[w]
    decreases j
  {
    var s' := Advance(s, d);
    var head, tail := StepEvents(s', ms), IdealTrace(s', d, n - 1, ms);
    ConcatIndex(head, tail, 5 * j + w);
    assert Walk(s, d, j + 1) == Walk(s', d, j);
    if j > 0 {
      IdealTraceAt(s', d, n - 1, ms, j - 1, w);
    }
  }

  /** Block j (from 0) of five events of the ideal trace is the events of the step reaching state j + 1. */
  lemma IdealTraceBlock(s: State, d: Direction, n: nat, ms: nat, j: nat)
    requires j < n
    ensures IdealTrace(s, d, n, ms)[5 * j .. 5 * j + 5] == StepEvents(Walk(s, d, j + 1), ms)
  {
    var t := IdealTrace(s, d, n, ms);
    var block, step := t[5 * j .. 5 * j + 5], StepEvents(Walk(s, d, j + 1), ms);
    forall w | 0 <= w < 5
      ensures block[w] == step[w]
    {
      assert block[w] == t[5 * j + w];
      IdealTraceAt(s, d, n, ms, j, w);
    }
  }

  /** The number of loop iterations for a count n: none when n <= 0, otherwise n. */
  function Iterations(n: int): nat
  {
    if n <= 0 then 0 else n
  }

  /** The number of pin writes among the first L events of an ideal trace. */
  function WritesIn(L: nat): nat
    decreases L
  {
    if L < 5 then L else 4 + WritesIn(L - 5)
  }

  /** The number of steps begun among the first L events of an ideal trace. */
  function StepsIn(L: nat): nat
    decreases L
  {
    if L == 0 then 0 else if L <= 5 then 1 else 1 + StepsIn(L - 5)
  }

  /** A whole number of steps: n steps hold 4n writes. */
  lemma {:induction false} CountsOfWholeSteps(n: nat)
    ensures WritesIn(5 * n) == 4 * n
    ensures StepsIn(5 * n) == n
    decreases n
  {
    if n > 0 {
      CountsOfWholeSteps(n - 1);
      assert 5 * n - 5 == 5 * (n - 1);
    }
  }

  /** A prefix of at most n steps holds at most 4n writes. */
  lemma {:induction false} WritesInBound(L: nat, n: nat)
    requires L <= 5 * n
    ensures WritesIn(L) <= 4 * n
    decreases L
  {
    if L >= 5 {
      WritesInBound(L - 5, n - 1);
    }
  }

  /** Writes 0..W of the oracle succeed, except the last one, which failed, when `failedLast`. */
  ghost predicate OracleAllows(o: Oracle, W: nat, failedLast: bool)
  {
    if failedLast then 0 < W && !Succeeds(o, W - 1) && forall i :: 0 <= i < W - 1 ==> Succeeds(o, i)
    else forall i :: 0 <= i < W ==> Succeeds(o, i)
  }

  /**
    `r` is the outcome of up to n steps from s in direction d, each followed
    by a delay, aborting at the first failed write. Its trace is a prefix of
    the ideal trace; it covers all n steps exactly when the result is Ok, and
    otherwise ends with the write that failed, every earlier write having
    succeeded. One oracle entry is used per write attempted, and the state is
    the one reached by the steps begun.
   */
  ghost predicate LoopEffect(s: State, d: Direction, n: int, ms: nat, o: Oracle, r: Run)
  {
    && |r.trace| <= 5 * Iterations(n)
    && r.trace == IdealTrace(s, d, Iterations(n), ms)[..|r.trace|]
    && (r.result.Ok? <==> |r.trace| == 5 * Iterations(n))
    && (r.result.Err? ==> 0 < |r.trace| && r.trace[|r.trace| - 1].Write?)
    && OracleAllows(o, WritesIn(|r.trace|), r.result.Err?)
    && r.motor.state == Walk(s, d, StepsIn(|r.trace|))
    && r.rest == Drop(o, WritesIn(|r.trace|))
  }

  /** The loop of step_for: step, and after each successful step a delay. */
  function StepLoop(m: Motor, n: int, ms: nat, o: Oracle): (r: Run)
    ensures r.motor.dir == m.dir && r.motor.delayPresent == m.delayPresent
    ensures LoopEffect(m.state, m.dir, n, ms, o, r)
    decreases n
  {
    if n <= 0 then Run(m, [], Ok, o)
    else
      var first := Step(m, o);
      if first.result.Err? then
        FailedFirstStep(m, n, ms, o, first);
        first
      else
        var more := StepLoop(first.motor, n - 1, ms, first.rest);
        var r := Run(more.motor, first.trace + [Delay(ms)] + more.trace, more.result, more.rest);
        SuccessfulStep(m, ms, o);
        LoopEffectCons(m, n, ms, o, first, more, r);
        r
  }

  lemma FailedFirstStep(m: Motor, n: int, ms: nat, o: Oracle, first: Run)
    requires n > 0
    requires first == Step(m, o) && first.result.Err?
    ensures LoopEffect(m.state, m.dir, n, ms, o, first)
  {
    var t, L := first.trace, |first.trace|;
    var s' := first.motor.state;
    var head, tail := StepEvents(s', ms), IdealTrace(s', m.dir, Iterations(n) - 1, ms);
    assert IdealTrace(m.state, m.dir, Iterations(n), ms) == head + tail;
    assert 0 < L <= 4;
    assert t == (head + tail)[..L] by {
      forall i | 0 <= i < L
        ensures t[i] == (head + tail)[i]
      {
        assert t[i] == Write(1 + i, PinPattern(s')[i]);
      }
    }
    assert WritesIn(L) == L && StepsIn(L) == 1;
  }

  /** The events of a successful first step, its delay, and the rest's prefix form a prefix of the whole. */
  lemma LoopTraceCons(s: State, d: Direction, n: nat, ms: nat, first: seq<Event>, more: seq<Event>)
    requires n > 0
    requires first == StepEvents(Advance(s, d), ms)[..4]
    requires |more| <= 5 * (n - 1)
    requires more == IdealTrace(Advance(s, d), d, n - 1, ms)[..|more|]
    ensures first + [Delay(ms)] + more == IdealTrace(s, d, n, ms)[..|more| + 5]
  {
    var head, tail := StepEvents(Advance(s, d), ms), IdealTrace(Advance(s, d), d, n - 1, ms);
    assert first + [Delay(ms)] == head;
    assert IdealTrace(s, d, n, ms) == head + tail;
    assert (head + tail)[..|more| + 5] == head + tail[..|more|];
  }

  lemma LoopOracleCons(o: Oracle, W': nat, failedLast: bool)
    requires forall i :: 0 <= i < 4 ==> Succeeds(o, i)
    requires OracleAllows(Drop(o, 4), W', failedLast)
    ensures OracleAllows(o, W' + 4, failedLast)
  {
    forall i | 4 <= i < W' + 4
      ensures Succeeds(o, i) == Succeeds(Drop(o, 4), i - 4)
    {
      assert Succeeds(Drop(o, 4), i - 4) == Succeeds(o, 4 + (i - 4));
    }
  }

  /** A successful step wrote its whole pattern, using four successful oracle entries. */
  lemma SuccessfulStep(m: Motor, ms: nat, o: Oracle)
    requires Step(m, o).result.Ok?
    ensures Step(m, o).trace == StepEvents(Advance(m.state, m.dir), ms)[..4]
    ensures forall i :: 0 <= i < 4 ==> Succeeds(o, i)
    ensures Step(m, o).rest == Drop(o, 4)
  {
    var r := Step(m, o);
    assert |r.trace| == 4;
  }

  /** Counting in a trace one whole step longer. */
  lemma CountsShift(L': nat)
    ensures WritesIn(L' + 5) == WritesIn(L') + 4
    ensures StepsIn(L' + 5) == StepsIn(L') + 1
  {
  }

  lemma LoopEffectCons(m: Motor, n: int, ms: nat, o: Oracle, first: Run, more: Run, r: Run)
    requires n > 0
    requires first.motor.state == Advance(m.state, m.dir) && first.result.Ok?
    requires first.trace == StepEvents(Advance(m.state, m.dir), ms)[..4]
    requires forall i :: 0 <= i < 4 ==> Succeeds(o, i)
    requires first.rest == Drop(o, 4)
    requires LoopEffect(first.motor.state, m.dir, n - 1, ms, first.rest, more)
    requires r == Run(more.motor, first.trace + [Delay(ms)] + more.trace, more.result, more.rest)
    ensures LoopEffect(m.state, m.dir, n, ms, o, r)
  {
    var s, d := m.state, m.dir;
    var L' := |more.trace|;
    var L := L' + 5;
    assert |r.trace| == L;
    LoopTraceCons(s, d, Iterations(n), ms, first.trace, more.trace);
    CountsShift(L');
    LoopOracleCons(o, WritesIn(L'), more.result.Err?);
    DropDrop(o, 4, WritesIn(L'));
    assert Walk(s, d, StepsIn(L)) == Walk(first.motor.state, d, StepsIn(L'));
    assert more.result.Err? ==> r.trace[L - 1] == more.trace[L' - 1];
  }

  /**
    step_for: with no delay source it fails at once, writing nothing and
    changing nothing, whatever the step count; otherwise it runs the loop.
   */
  function StepFor(m: Motor, steps: int, ms: nat, o: Oracle): (r: Run)
    ensures !m.delayPresent ==> r == Run(m, [], Err(StepError), o)
    ensures m.delayPresent && steps <= 0 ==> r == Run(m, [], Ok, o)
    ensures m.delayPresent ==> LoopEffect(m.state, m.dir, steps, ms, o, r)
    ensures r.motor.dir == m.dir && r.motor.delayPresent == m.delayPresent
  {
    if !m.delayPresent then Run(m, [], Err(StepError), o)
    else StepLoop(m, steps, ms, o)
  }

  /** When every write succeeds, step_for produces exactly the ideal trace and ends n steps on. */
  lemma StepForAllSucceed(m: Motor, steps: int, ms: nat, o: Oracle)
    requires m.delayPresent
    requires forall i :: 0 <= i < 4 * Iterations(steps) ==> Succeeds(o, i)
    ensures StepFor(m, steps, ms, o).result == Ok
    ensures StepFor(m, steps, ms, o).trace == IdealTrace(m.state, m.dir, Iterations(steps), ms)
    ensures StepFor(m, steps, ms, o).motor.state == Walk(m.state, m.dir, Iterations(steps))
  {
    var r, N := StepFor(m, steps, ms, o), Iterations(steps);
    WritesInBound(|r.trace|, N);
    CountsOfWholeSteps(N);
  }

  /** When every write succeeds, iteration j of step_for writes the pattern of state j + 1 along the walk, then delays. */
  lemma StepForIteration(m: Motor, steps: int, ms: nat, o: Oracle, j: nat)
    requires m.delayPresent
    requires forall i :: 0 <= i < 4 * Iterations(steps) ==> Succeeds(o, i)
    requires j < Iterations(steps)
    ensures |StepFor(m, steps, ms, o).trace| == 5 * Iterations(steps)
    ensures StepFor(m, steps, ms, o).trace[5 * j .. 5 * j + 5] == StepEvents(Walk(m.state, m.dir, j + 1), ms)
  {
    StepForAllSucceed(m, steps, ms, o);
    IdealTraceBlock(m.state, m.dir, Iterations(steps), ms, j);
  }

  /**
    From idle in Normal direction, n <= 8 fault-free steps visit State1..State n
    in table order, the k-th step writing State k's pattern; by
    StepForAllSucceed this is the trace of step_for on a fresh driver.
   */
  lemma SweepFromIdle(n: nat, ms: nat, k: nat)
    requires 1 <= k <= n <= 8
    ensures Walk(State0, Normal, n) == FromIndex(n)
    ensures IdealTrace(State0, Normal, n, ms)[5 * k - 5 .. 5 * k] == StepEvents(FromIndex(k), ms)
  {
    ForwardSweepFromIdle(n);
    ForwardSweepFromIdle(k);
    IdealTraceBlock(State0, Normal, n, ms, k - 1);
  }

  /** A write failure on wire 3 aborts the step: wire 4 is not written, the state has moved on. */
  lemma StepFailsOnWireThree(m: Motor)
    ensures Step(m, [true, true, false]).result.Err?
    ensures Step(m, [true, true, false]).trace ==
              [ Write(1, PinPattern(Advance(m.state, m.dir))[0]),
                Write(2, PinPattern(Advance(m.state, m.dir))[1]),
                Write(3, PinPattern(Advance(m.state, m.dir))[2]) ]
    ensures Step(m, [true, true, false]).motor.state == Advance(m.state, m.dir)
  {
    var o := [true, true, false];
    var r := Step(m, o);
    assert !Succeeds(o, 2);
    assert Succeeds(o, 0) && Succeeds(o, 1);
    assert |r.trace| == 3;
  }

  /** After stop the next step leaves State0: to State1 going Normal, to State8 going Reverse. */
  lemma StepAfterStop(m: Motor, o1: Oracle, o2: Oracle)
    ensures Step(Stop(m, o1).motor, o2).motor.state == (if m.dir == Normal then State1 else State8)
  {
  }

  /** power_off and stop write the same events with the same result; only stop forgets the position. */
  lemma PowerOffWritesLikeStop(m: Motor, o: Oracle)
    ensures EffectOf(PowerOff(m, o)) == EffectOf(Stop(m, o))
    ensures PowerOff(m, o).motor.state == m.state && Stop(m, o).motor.state == State0
  {
    WritesInOrderUnique(AllLow, 1, o, EffectOf(PowerOff(m, o)), EffectOf(Stop(m, o)));
  }

  /** A step after power_off continues exactly as it would have without it. */
  lemma StepAfterPowerOff(m: Motor, o1: Oracle, o2: Oracle)
    ensures Step(PowerOff(m, o1).motor, o2) == Step(m, o2)
  {
  }

  /** A direction change is never retroactive: it keeps the state and governs only the next step. */
  lemma DirectionTakesEffectOnNextStep(m: Motor, d: Direction, o: Oracle)
    ensures SetDirection(m, d).state == m.state
    ensures SetDirection(m, d).delayPresent == m.delayPresent
    ensures Step(SetDirection(m, d), o).motor.state == Advance(m.state, d)
    ensures Step(SetDirection(m, d), o).motor.dir == d
  {
  }

  /** A new driver is idle, goes Normal, and its first step drives State1's pattern. */
  lemma FirstStepOfNew(delayPresent: bool, o: Oracle)
    ensures New(delayPresent).state == State0 && New(delayPresent).dir == Normal
    ensures New(delayPresent).delayPresent == delayPresent
    ensures Step(New(delayPresent), o).motor.state == State1
    ensures WritesInOrder(PinPattern(State1), 1, o, EffectOf(Step(New(delayPresent), o)))
  {
  }
}
