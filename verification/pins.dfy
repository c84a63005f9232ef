/**
  Fallible writes to the four driver inputs in1..in4.

  A pin write either succeeds or fails; the outcome comes from an oracle, a
  sequence consumed one entry per attempted write (true = the write
  succeeded). Once the oracle is used up every further write succeeds. Every
  attempted write is recorded as an event, whatever its outcome.
 */
module Pins {
  import opened States

  /** What the driver does to the outside world, in order. */
  datatype Event = Write(wire: nat, level: Level) | Delay(ms: nat)

  /** The driver's single, opaque error kind. */
  datatype StepError = StepError

  datatype Outcome = Ok | Err(error: StepError)

  type Oracle = seq<bool>

  /** Whether the i-th write attempted against the oracle succeeds. */
  predicate Succeeds(o: Oracle, i: nat)
  {
    i >= |o| || o[i]
  }

  /** The oracle left after n writes have been attempted. */
  function Drop(o: Oracle, n: nat): (r: Oracle)
    ensures forall i :: Succeeds(r, i) <==> Succeeds(o, n + i)
  {
    if n <= |o| then o[n..] else []
  }

  lemma DropDrop(o: Oracle, a: nat, b: nat)
    ensures Drop(Drop(o, a), b) == Drop(o, a + b)
  {
  }

  /** The observable effect of a sequence of writes: the events, the result, the unused oracle. */
  datatype Effect = Effect(trace: seq<Event>, result: Outcome, rest: Oracle)

  /**
    `e` is the effect of writing `levels[i]` to wire `first + i` for each i in
    order, stopping after the first write that fails: every write but the last
    one attempted succeeded; the result is Ok when all of them were attempted
    and the last succeeded, and an error when the last one attempted failed;
    one oracle entry is used per attempt.
   */
  ghost predicate WritesInOrder(levels: seq<Level>, first: nat, o: Oracle, e: Effect)
  {
    && |e.trace| <= |levels|
    && (forall i :: 0 <= i < |e.trace| ==> e.trace[i] == Write(first + i, levels[i]))
    && (forall i :: 0 <= i < |e.trace| - 1 ==> Succeeds(o, i))
    && (e.result.Ok? ==> |e.trace| == |levels| && (|levels| == 0 || Succeeds(o, |levels| - 1)))
    && (e.result.Err? ==> 0 < |e.trace| && !Succeeds(o, |e.trace| - 1))
    && e.rest == Drop(o, |e.trace|)
  }

  /** One pin write; a failure of the pin becomes the driver's error. */
  function SetLine(wire: nat, level: Level, o: Oracle): (e: Effect)
    ensures WritesInOrder([level], wire, o, e)
  {
    Effect([Write(wire, level)], if Succeeds(o, 0) then Ok else Err(StepError), Drop(o, 1))
  }

  /** Writes `levels` to consecutive wires from `first` on, short-circuiting on the first failure. */
  function WriteLines(levels: seq<Level>, first: nat, o: Oracle): (e: Effect)
    ensures WritesInOrder(levels, first, o, e)
    decreases |levels|
  {
    if |levels| == 0 then Effect([], Ok, o)
    else
      var head := SetLine(first, levels[0], o);
      if head.result.Err? then head
      else
        var tail := WriteLines(levels[1..], first + 1, head.rest);
        WritesInOrderCons(levels, first, o, tail);
        Effect(head.trace + tail.trace, tail.result, tail.rest)
  }

  /** Prepending the first write to the writes of the remaining levels. */
  lemma ConsTrace(levels: seq<Level>, first: nat, t: seq<Event>)
    requires 0 < |levels| && |t| < |levels|
    requires forall i :: 0 <= i < |t| ==> t[i] == Write(first + 1 + i, levels[1..][i])
    ensures forall i :: 0 <= i < |t| + 1 ==> ([Write(first, levels[0])] + t)[i] == Write(first + i, levels[i])
  {
    forall i | 0 <= i < |t| + 1
      ensures ([Write(first, levels[0])] + t)[i] == Write(first + i, levels[i])
    {
      if i > 0 {
        assert ([Write(first, levels[0])] + t)[i] == t[i - 1];
      }
    }
  }

  /** After a successful first write, the oracle facts of the rest shift by one. */
  lemma ConsOracle(o: Oracle, n: nat, failedLast: bool)
    requires Succeeds(o, 0)
    requires forall i :: 0 <= i < n - 1 ==> Succeeds(Drop(o, 1), i)
    requires failedLast ==> 0 < n && !Succeeds(Drop(o, 1), n - 1)
    requires !failedLast ==> n == 0 || Succeeds(Drop(o, 1), n - 1)
    ensures forall i :: 0 <= i < n ==> Succeeds(o, i)
    ensures failedLast ==> !Succeeds(o, n)
    ensures !failedLast ==> Succeeds(o, n)
  {
    forall i | 0 <= i < n
      ensures Succeeds(o, i)
    {
      if i > 0 {
        assert Succeeds(Drop(o, 1), i - 1);
      }
    }
    if 0 < n {
      assert Succeeds(Drop(o, 1), n - 1) <==> Succeeds(o, n);
    }
  }

  /** A successful first write followed by the writes of the remaining levels. */
  lemma WritesInOrderCons(levels: seq<Level>, first: nat, o: Oracle, tail: Effect)
    requires |levels| > 0 && Succeeds(o, 0)
    requires WritesInOrder(levels[1..], first + 1, Drop(o, 1), tail)
    ensures WritesInOrder(levels, first, o, Effect([Write(first, levels[0])] + tail.trace, tail.result, tail.rest))
  {
    var n := |tail.trace|;
    ConsTrace(levels, first, tail.trace);
    ConsOracle(o, n, tail.result.Err?);
    DropDrop(o, 1, n);
  }

  /** A chain of writes fails exactly when one of its writes would fail. */
  lemma WritesFailIff(levels: seq<Level>, first: nat, o: Oracle, e: Effect)
    requires WritesInOrder(levels, first, o, e)
    ensures e.result.Err? <==> exists i :: 0 <= i < |levels| && !Succeeds(o, i)
    ensures e.result.Err? ==> forall i :: 0 <= i < |e.trace| - 1 ==> Succeeds(o, i)
  {
    if e.result.Ok? {
      forall i | 0 <= i < |levels|
        ensures Succeeds(o, i)
      {
        if i < |levels| - 1 {
          assert Succeeds(o, i);
        }
      }
    } else {
      assert !Succeeds(o, |e.trace| - 1);
    }
  }

  /** The effect of a sequence of writes is determined by the levels and the oracle. */
  lemma WritesInOrderUnique(levels: seq<Level>, first: nat, o: Oracle, e1: Effect, e2: Effect)
    requires WritesInOrder(levels, first, o, e1)
    requires WritesInOrder(levels, first, o, e2)
    ensures e1 == e2
  {
    assert |e1.trace| == |e2.trace|;
    assert e1.trace == e2.trace;
  }
}
