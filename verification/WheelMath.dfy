/** The slot arithmetic of core/collection/timingwheel.go. */
module WheelMath {
  import opened Integers

  /** How many ticks from now the wheel next stands at slot pos: 1 to n. */
  function Ahead(pos: int, ticked: int, n: int): (r: int)
    requires 0 <= pos < n && 0 <= ticked < n
    ensures 1 <= r <= n
  {
    if pos > ticked then pos - ticked else pos - ticked + n
  }

  /** The number of ticks after which an entry at slot pos fires. */
  function Remaining(pos: int, ticked: int, n: int, circle: int, diff: int): int
    requires 0 <= pos < n && 0 <= ticked < n
  {
    Ahead(pos, ticked, n) + circle * n + diff
  }

  lemma AheadIsMod(pos: int, ticked: int, n: int)
    requires 0 <= pos < n && 0 <= ticked < n
    ensures Ahead(pos, ticked, n) == (pos - ticked - 1) % n + 1
  {
    if pos > ticked {
      ModBetween(pos - ticked - 1, 0, n);
    } else {
      ModBetween(pos - ticked - 1, -1, n);
    }
  }

  lemma ModBetween(x: int, q: int, n: int)
    requires n > 0 && q * n <= x < q * n + n
    ensures x % n == x - q * n && x / n == q
  {
    DivUnique(x, n, q, x - q * n);
  }

  function Position(ticked: int, steps: int, n: int): (pos: int)
    requires n > 0 && 0 <= ticked && 0 <= steps
    ensures 0 <= pos < n
  {
    (ticked + steps) % n
  }

  function Circle(steps: int, n: int): (circle: int)
    requires n > 0 && steps >= 1
    ensures circle >= 0
  {
    (steps - 1) / n
  }

  /** A new entry fires after exactly `steps` ticks. */
  lemma RemainingNew(ticked: int, steps: int, n: int)
    requires n > 0 && 0 <= ticked < n && steps >= 1
    ensures Remaining(Position(ticked, steps, n), ticked, n, Circle(steps, n), 0) == steps
  {
    var c, r := (steps - 1) / n, (steps - 1) % n;
    assert steps - 1 == c * n + r;
    if ticked + r + 1 < n {
      ModBetween(ticked + steps, c, n);
    } else {
      assert (c + 1) * n == c * n + n;
      ModBetween(ticked + steps, c + 1, n);
    }
  }

  function NextTick(ticked: int, n: int): (r: int)
    requires 0 <= ticked < n
    ensures 0 <= r < n
  {
    (ticked + 1) % n
  }

  /** One tick brings every slot one closer, except that the slot just reached is a whole turn away again. */
  lemma AheadTick(pos: int, ticked: int, n: int)
    requires 0 <= pos < n && 0 <= ticked < n
    ensures var next := NextTick(ticked, n);
            && (pos == next <==> Ahead(pos, ticked, n) == 1)
            && Ahead(pos, next, n) == if pos == next then n else Ahead(pos, ticked, n) - 1
  {
    if ticked + 1 == n {
      ModBetween(n, 1, n);
    } else {
      ModBetween(ticked + 1, 0, n);
    }
  }

  /** An entry that waits `diff` more slots goes there at once when its slot is reached. */
  lemma RemainingShift(ticked: int, n: int, diff: int)
    requires 0 <= ticked < n && 0 < diff < n
    ensures var pos := Position(ticked, diff, n);
            pos != ticked && Remaining(pos, ticked, n, 0, 0) == diff
  {
    if ticked + diff < n {
      ModBetween(ticked + diff, 0, n);
    } else {
      ModBetween(ticked + diff, 1, n);
    }
  }

  /** Which branch of moveTask is taken: does it keep the entry where it is? */
  predicate Stays(oldPos: int, newPos: int, circle: int)
  {
    newPos >= oldPos || circle > 0
  }

  /** By how many whole turns a move misses the delay asked for: the wheel stands between the two slots. */
  function Drift(ticked: int, oldPos: int, newPos: int, circle: int): int
  {
    if !Stays(oldPos, newPos, circle) then 0
    else if oldPos <= ticked < newPos then 1
    else if newPos <= ticked < oldPos then -1
    else 0
  }

  /** What moveTask leaves an entry with: circle and diff if it stays, a fresh entry at newPos if it does not. */
  function MovedRemaining(ticked: int, n: int, oldPos: int, steps: int): int
    requires n > 0 && 0 <= ticked < n && 0 <= oldPos < n && steps >= 1
  {
    var newPos, circle := Position(ticked, steps, n), Circle(steps, n);
    if newPos >= oldPos then Remaining(oldPos, ticked, n, circle, newPos - oldPos)
    else if circle > 0 then Remaining(oldPos, ticked, n, circle - 1, n + newPos - oldPos)
    else Remaining(newPos, ticked, n, 0, 0)
  }

  /** A move is off by exactly Drift whole turns. */
  lemma MoveDrifts(ticked: int, n: int, oldPos: int, steps: int)
    requires n > 0 && 0 <= ticked < n && 0 <= oldPos < n && steps >= 1
    ensures MovedRemaining(ticked, n, oldPos, steps)
            == steps + n * Drift(ticked, oldPos, Position(ticked, steps, n), Circle(steps, n))
  {
    RemainingNew(ticked, steps, n);
    var circle := Circle(steps, n);
    assert (circle - 1) * n == circle * n - n;
  }

  /** A move fires after the delay asked for if and only if it re-inserts the entry,
      or the wheel does not stand between the old and the new slot. */
  lemma MoveExactIff(ticked: int, n: int, oldPos: int, steps: int)
    requires n > 0 && 0 <= ticked < n && 0 <= oldPos < n && steps >= 1
    ensures var newPos, circle := Position(ticked, steps, n), Circle(steps, n);
            MovedRemaining(ticked, n, oldPos, steps) == steps
            <==> !Stays(oldPos, newPos, circle)
                 || !(if oldPos <= newPos then oldPos <= ticked < newPos else newPos <= ticked < oldPos)
  {
    MoveDrifts(ticked, n, oldPos, steps);
  }

  /** On a wheel of 10 slots that stands at 5, a timer at slot 2 that is moved to 3 ticks from now fires
      after 13, and one at slot 7 that is moved to 20 ticks from now fires after 10. */
  lemma MoveDriftExample()
    ensures MovedRemaining(5, 10, 2, 3) == 13
    ensures MovedRemaining(5, 10, 7, 20) == 10
  {
  }
}
