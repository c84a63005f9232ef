/**
  The phase tables of the 28BYJ-48 / ULN2003 half-step driver.

  The motor's position is one of nine states. State0 is an idle entry point
  that is never re-entered by a transition; State1..State8 form the eight-step
  half-step cycle. Each state has a fixed pattern of levels on the four coil
  wires, and two total transition tables move forwards and backwards.
 */
module States {

  datatype State = State0 | State1 | State2 | State3 | State4 | State5 | State6 | State7 | State8

  /** The level written to one coil wire. */
  datatype Level = Low | High

  /** Normal steps with the next-table, Reverse with the previous-table. */
  datatype Direction = Normal | Reverse

  /** Four levels, for wires 1..4 in that order (index 0 is wire 1). */
  type Pattern = p: seq<Level> | |p| == 4 witness [Low, Low, Low, Low]

  const AllLow: Pattern := [Low, Low, Low, Low]

  /** The position of a state: 0 for the idle state, 1..8 along the cycle. */
  function Index(s: State): (i: nat)
    ensures i <= 8
    ensures i == 0 <==> s == State0
  {
    match s
    case State0 => 0
    case State1 => 1
    case State2 => 2
    case State3 => 3
    case State4 => 4
    case State5 => 5
    case State6 => 6
    case State7 => 7
    case State8 => 8
  }

  /** The cycle state at a given position. */
  function FromIndex(i: nat): (s: State)
    requires 1 <= i <= 8
    ensures Index(s) == i
  {
    if i == 1 then State1
    else if i == 2 then State2
    else if i == 3 then State3
    else if i == 4 then State4
    else if i == 5 then State5
    else if i == 6 then State6
    else if i == 7 then State7
    else State8
  }

  lemma IndexInjective(a: State, b: State)
    ensures Index(a) == Index(b) ==> a == b
  {
    if Index(a) == Index(b) {
      match a
      case State0 =>
      case State1 =>
      case State2 =>
      case State3 =>
      case State4 =>
      case State5 =>
      case State6 =>
      case State7 =>
      case State8 =>
    }
  }

  /** The coil pattern of each state; only the idle state leaves every wire low. */
  function PinPattern(s: State): (p: Pattern)
    ensures s == State0 <==> p == AllLow
  {
    match s
    case State0 => [Low, Low, Low, Low]
    case State1 => [Low, Low, Low, High]
    case State2 => [Low, Low, High, High]
    case State3 => [Low, Low, High, Low]
    case State4 => [Low, High, High, Low]
    case State5 => [Low, High, Low, Low]
    case State6 => [High, High, Low, Low]
    case State7 => [High, Low, Low, Low]
    case State8 => [High, Low, Low, High]
  }

  /** Forward transition: one position further along the cycle, State0 entering at State1. */
  function Next(s: State): (r: State)
    ensures r != State0
    ensures Index(r) == Index(s) % 8 + 1
  {
    match s
    case State0 => State1
    case State1 => State2
    case State2 => State3
    case State3 => State4
    case State4 => State5
    case State5 => State6
    case State6 => State7
    case State7 => State8
    case State8 => State1
  }

  /** Backward transition: one position back along the cycle, State0 entering at State8. */
  function Prev(s: State): (r: State)
    ensures r != State0
    ensures s == State0 ==> r == State8
    ensures s != State0 ==> Index(r) == (Index(s) + 6) % 8 + 1
  {
    match s
    case State0 => State8
    case State1 => State8
    case State2 => State1
    case State3 => State2
    case State4 => State3
    case State5 => State4
    case State6 => State5
    case State7 => State6
    case State8 => State7
  }

  /** The transition one step applies for a direction. */
  function Advance(s: State, d: Direction): State
  {
    match d
    case Normal => Next(s)
    case Reverse => Prev(s)
  }

  /** The state reached after k steps in direction d. */
  function Walk(s: State, d: Direction, k: nat): (r: State)
    ensures k > 0 ==> r != State0
    decreases k
  {
    if k == 0 then s else Walk(Advance(s, d), d, k - 1)
  }

  /** On the cycle the two tables undo each other. */
  lemma NextPrevInverse(s: State)
    requires s != State0
    ensures Prev(Next(s)) == s
    ensures Next(Prev(s)) == s
  {
    IndexInjective(Prev(Next(s)), s);
    IndexInjective(Next(Prev(s)), s);
  }

  /** At the idle state they do not: State0 and State1 share the predecessor State8. */
  lemma IdleBoundary()
    ensures Prev(Next(State0)) == State8 != State0
    ensures Next(Prev(State0)) == State1 != State0
    ensures Prev(State0) == Prev(State1)
    ensures forall s :: Prev(s) == State8 <==> s == State0 || s == State1
    ensures forall s :: Next(s) == State1 <==> s == State0 || s == State8
  {
    forall s ensures Prev(s) == State8 <==> s == State0 || s == State1 {
      IndexInjective(s, State1);
    }
    forall s ensures Next(s) == State1 <==> s == State0 || s == State8 {
      IndexInjective(s, State8);
    }
  }

  /** Adding a whole turn does not change a position modulo 8. */
  lemma ModTurn(x: int)
    ensures (x + 8) % 8 == x % 8
  {
  }

  /** Position after k Normal steps from a cycle state. */
  lemma {:induction false} WalkIndexNormal(s: State, k: nat)
    requires s != State0
    ensures Index(Walk(s, Normal, k)) == (Index(s) - 1 + k) % 8 + 1
    decreases k
  {
    if k > 0 {
      var t := Next(s);
      WalkIndexNormal(t, k - 1);
      assert Walk(s, Normal, k) == Walk(t, Normal, k - 1);
      if Index(s) == 8 {
        assert Index(t) == 1;
        ModTurn(k - 1);
      } else {
        assert Index(t) == Index(s) + 1;
      }
    }
  }

  /** Position after k Reverse steps from a cycle state. */
  lemma {:induction false} WalkIndexReverse(s: State, k: nat)
    requires s != State0
    ensures Index(Walk(s, Reverse, k)) == (Index(s) - 1 - k) % 8 + 1
    decreases k
  {
    if k > 0 {
      var t := Prev(s);
      WalkIndexReverse(t, k - 1);
      assert Walk(s, Reverse, k) == Walk(t, Reverse, k - 1);
      if Index(s) == 1 {
        assert Index(t) == 8;
        ModTurn(-(k as int));
      } else {
        assert Index(t) == Index(s) - 1;
      }
    }
  }

  /** Position after k steps from a cycle state, counted modulo the cycle length. */
  lemma WalkIndex(s: State, d: Direction, k: nat)
    requires s != State0
    ensures d == Normal ==> Index(Walk(s, d, k)) == (Index(s) - 1 + k) % 8 + 1
    ensures d == Reverse ==> Index(Walk(s, d, k)) == (Index(s) - 1 - k) % 8 + 1
  {
    if d == Normal {
      WalkIndexNormal(s, k);
    } else {
      WalkIndexReverse(s, k);
    }
  }

  /** Shifting a residue by k lands on itself exactly when k is a multiple of 8. */
  lemma ShiftFixed(i: int, k: int)
    requires 0 <= i < 8
    ensures (i + k) % 8 == i <==> k % 8 == 0
  {
    var q, r := k / 8, k % 8;
    assert i + k == 8 * q + (i + r);
    assert (i + k) % 8 == (i + r) % 8;
  }

  /** The backward shift returns to the start exactly when the forward one does. */
  lemma ShiftBackFixed(i: int, k: nat)
    requires 0 <= i < 8
    ensures (i - k) % 8 == i <==> k % 8 == 0
  {
    ShiftFixed(i, -(k as int));
    var q := k / 8;
    assert -(k as int) == 8 * (-q) - k % 8;
  }

  /** The cycle has length exactly 8 in both directions. */
  lemma WalkReturns(s: State, d: Direction, k: nat)
    requires s != State0
    ensures Walk(s, d, k) == s <==> k % 8 == 0
  {
    var t := Walk(s, d, k);
    IndexInjective(t, s);
    if d == Normal {
      WalkIndexNormal(s, k);
      ShiftFixed(Index(s) - 1, k);
    } else {
      WalkIndexReverse(s, k);
      ShiftBackFixed(Index(s) - 1, k);
    }
  }

  lemma CycleLength(s: State, d: Direction)
    requires s != State0
    ensures Walk(s, d, 8) == s
    ensures forall k :: 0 < k < 8 ==> Walk(s, d, k) != s
  {
    WalkReturns(s, d, 8);
    forall k | 0 < k < 8 ensures Walk(s, d, k) != s {
      WalkReturns(s, d, k);
    }
  }

  /** From idle, stepping forwards visits State1..State8 in table order. */
  lemma ForwardSweepFromIdle(k: nat)
    requires 1 <= k <= 8
    ensures Walk(State0, Normal, k) == FromIndex(k)
  {
    WalkIndex(State1, Normal, k - 1);
    IndexInjective(Walk(State0, Normal, k), FromIndex(k));
  }

  /** From idle, stepping backwards visits State8..State1. */
  lemma BackwardSweepFromIdle(k: nat)
    requires 1 <= k <= 8
    ensures Walk(State0, Reverse, k) == FromIndex(9 - k)
  {
    WalkIndex(State8, Reverse, k - 1);
    IndexInjective(Walk(State0, Reverse, k), FromIndex(9 - k));
  }

  /** Distinct states drive distinct patterns. */
  lemma PatternInjective(a: State, b: State)
    ensures PinPattern(a) == PinPattern(b) ==> a == b
  {
    if PinPattern(a) == PinPattern(b) {
      var p := PinPattern(a);
      match a
      case State0 =>
      case State1 => assert p[3] == High && p[2] == Low;
      case State2 => assert p[2] == High && p[3] == High;
      case State3 => assert p[2] == High && p[3] == Low && p[1] == Low;
      case State4 => assert p[1] == High && p[2] == High;
      case State5 => assert p[1] == High && p[2] == Low && p[0] == Low;
      case State6 => assert p[0] == High && p[1] == High;
      case State7 => assert p[0] == High && p[1] == Low && p[3] == Low;
      case State8 => assert p[0] == High && p[3] == High;
    }
  }

  /** The two patterns differ on wire w + 1 and nowhere else. */
  predicate DiffersOnlyAt(p: Pattern, q: Pattern, w: nat)
    requires w < 4
  {
    p[w] != q[w] && forall j :: 0 <= j < 4 && j != w ==> p[j] == q[j]
  }

  /** Half-stepping: consecutive cycle states differ in exactly one wire. */
  lemma OneWirePerStep(s: State)
    requires s != State0
    ensures exists w :: 0 <= w < 4 && DiffersOnlyAt(PinPattern(s), PinPattern(Next(s)), w)
  {
    var w :=
      match s
      case State1 => 2
      case State2 => 3
      case State3 => 1
      case State4 => 2
      case State5 => 0
      case State6 => 1
      case State7 => 3
      case _ => 0;
    assert DiffersOnlyAt(PinPattern(s), PinPattern(Next(s)), w);
  }

  /** The positions in which a wire (1..4) is energised, per the table in the state documentation. */
  function DocEnergised(wire: nat): set<nat>
  {
    if wire == 1 then {6, 7, 8}
    else if wire == 2 then {4, 5, 6}
    else if wire == 3 then {2, 3, 4}
    else if wire == 4 then {1, 2, 8}
    else {}
  }

  lemma PatternMatchesDocTable(s: State, wire: nat)
    requires 1 <= wire <= 4
    ensures PinPattern(s)[wire - 1] == High <==> Index(s) in DocEnergised(wire)
  {
    match s
    case State0 =>
    case State1 =>
    case State2 =>
    case State3 =>
    case State4 =>
    case State5 =>
    case State6 =>
    case State7 =>
    case State8 =>
  }
}
