/**
  Binary exponential backoff of a contention LAN interface.

  Each failed try increments the backoff count; for the first ten tries the
  range of backoff slots doubles (2^n - 1 slots on the nth try), for the
  next tries it stays at 2^10 - 1, and once the count passes sixteen the
  interface gives up. The pseudo-random float the Java class draws from
  its generator is injected as a fraction drawNum / drawDen.
 */
module Contention {

  import opened Arithmetic

  /** Maximum number of tries before giving up (MAX_BACKOFF). */
  const MaxBackoff := 16
  /** Number of tries on which the slot range doubles (MAX_DOUBLE). */
  const MaxDouble := 10
  /** Returned once the tries are exhausted (FAIL). */
  const Fail := -1

  function Pow2(n: nat): (r: nat)
    ensures r >= 1
  {
    if n == 0 then 1 else 2 * Pow2(n - 1)
  }

  /**
    Reference definition: the slot range in force after `count` tries,
    2^min(count, 10) - 1 (zero before the first try).
   */
  function SlotLimit(count: nat): (r: int)
    ensures r >= 0
  {
    Pow2(if count <= MaxDouble then count else MaxDouble) - 1
  }

  /**
    The new maxBackoffSlots once the count has been incremented to `count`,
    following the three branches of the Java method; with no branch taken
    (count 16, or above 16 where the method gives up) the previous value stays.
   */
  function NextMaxSlots(count: nat, prev: int): int {
    if count <= MaxDouble then Pow2(count) - 1
    else if MaxDouble < count < MaxBackoff then Pow2(MaxDouble) - 1
    else prev
  }

  /**
    Math.round(drawNum / drawDen * maxSlots) for a non-negative product:
    the integer nearest the scaled draw, halves rounded up.
   */
  function RoundedDraw(drawNum: int, drawDen: int, maxSlots: int): (r: int)
    requires 0 <= drawNum <= drawDen && 0 < drawDen && 0 <= maxSlots
    ensures 2 * drawDen * r <= 2 * drawNum * maxSlots + drawDen < 2 * drawDen * r + 2 * drawDen
    ensures 0 <= r <= maxSlots
  {
    RoundedDrawBounds(drawNum, drawDen, maxSlots);
    (2 * drawNum * maxSlots + drawDen) / (2 * drawDen)
  }

  /** The rounded draw lies in [0, maxSlots] and is the integer nearest drawNum * maxSlots / drawDen. */
  lemma RoundedDrawBounds(drawNum: int, drawDen: int, maxSlots: int)
    requires 0 <= drawNum <= drawDen && 0 < drawDen && 0 <= maxSlots
    ensures var r := (2 * drawNum * maxSlots + drawDen) / (2 * drawDen);
      && 2 * drawDen * r <= 2 * drawNum * maxSlots + drawDen < 2 * drawDen * r + 2 * drawDen
      && 0 <= r <= maxSlots
  {
    var x, d := 2 * drawNum * maxSlots + drawDen, 2 * drawDen;
    DivBounds(x, d);
    MulMonotone(maxSlots, 0, drawNum);
    MulMonotone(maxSlots, drawNum, drawDen);
    assert x < d * maxSlots + d;
    var r := x / d;
    if r < 0 {
      MulGap(d, r, 0);
    }
    if r > maxSlots {
      MulGap(d, maxSlots, r);
    }
  }

  /** Euclidean division brackets its dividend. */
  lemma DivBounds(x: int, d: int)
    requires d > 0
    ensures d * (x / d) <= x < d * (x / d) + d
  {
  }

  /** Multiplying by a non-negative factor keeps the order. */
  lemma MulMonotone(c: int, a: int, b: int)
    requires 0 <= c && a <= b
    ensures a * c <= b * c
  {
    assert b * c - a * c == (b - a) * c;
  }

  /** Pow2 grows with its exponent. */
  lemma {:induction false} Pow2Monotone(a: nat, b: nat)
    requires a <= b
    ensures Pow2(a) <= Pow2(b)
    decreases b
  {
    if a < b {
      Pow2Monotone(a, b - 1);
    }
  }

  /**
    The documented schedule: 2^n - 1 slots on tries 1 to 10 and 2^10 - 1 = 1023
    on every later try.
   */
  lemma SlotLimitSchedule(count: nat)
    ensures count <= MaxDouble ==> SlotLimit(count) == Pow2(count) - 1
    ensures count > MaxDouble ==> SlotLimit(count) == 1023
    ensures SlotLimit(count) <= 1023
    ensures SlotLimit(0) == 0 && SlotLimit(1) == 1 && SlotLimit(2) == 3
  {
    Pow2Monotone(if count <= MaxDouble then count else MaxDouble, MaxDouble);
    assert Pow2(MaxDouble) == 1024 by {
      assert Pow2(2) == 4;
      assert Pow2(5) == 32;
      assert Pow2(8) == 256;
    }
  }

  /**
    The branches of the method keep maxBackoffSlots equal to the reference
    range: in particular the sixteenth try, which matches no branch, and
    every try after it inherit 2^10 - 1 from the try before.
   */
  lemma {:induction false} NextMaxSlotsFollowsSchedule(count: nat)
    requires count >= 1
    ensures NextMaxSlots(count, SlotLimit(count - 1)) == SlotLimit(count)
  {
  }

  /** The backoff state of one LAN interface. */
  class Backoff {
    var backoffCount: nat
    var seed: int
    const interfaceNumber: int
    var maxBackoffSlots: int

    /** The slot range always matches the number of tries so far. */
    predicate Valid()
      reads this
    {
      maxBackoffSlots == SlotLimit(backoffCount)
    }

    /** A fresh interface: no tries yet, no slots, generator seeded by the interface number. */
    constructor (lanInterfaceNumber: int)
      requires -128 <= lanInterfaceNumber < 128
      ensures Valid()
      ensures interfaceNumber == lanInterfaceNumber
      ensures seed == 100 * lanInterfaceNumber + 1
      ensures backoffCount == 0 && maxBackoffSlots == 0
    {
      interfaceNumber := lanInterfaceNumber;
      seed := 100 * lanInterfaceNumber + 1;
      backoffCount := 0;
      maxBackoffSlots := 0;
    }

    /**
      One more try: the count goes up by one, the slot range follows the
      schedule, and the result is a draw in [0, maxBackoffSlots], or Fail
      once more than sixteen tries have been made.
     */
    method BinaryExponentialBackoff(drawNum: int, drawDen: int) returns (slots: int)
      requires Valid()
      requires 0 <= drawNum <= drawDen && 0 < drawDen
      modifies this
      ensures Valid()
      ensures backoffCount == old(backoffCount) + 1
      ensures maxBackoffSlots == NextMaxSlots(backoffCount, old(maxBackoffSlots))
      ensures maxBackoffSlots == SlotLimit(backoffCount)
      ensures seed == old(seed)
      ensures slots == Fail <==> backoffCount > MaxBackoff
      ensures backoffCount <= MaxBackoff ==>
                slots == RoundedDraw(drawNum, drawDen, maxBackoffSlots) && 0 <= slots <= maxBackoffSlots
    {
      NextMaxSlotsFollowsSchedule(backoffCount + 1);
      backoffCount := backoffCount + 1;
      if backoffCount <= MaxDouble {
        maxBackoffSlots := Pow2(backoffCount) - 1;
      } else if backoffCount > MaxDouble && backoffCount < MaxBackoff {
        maxBackoffSlots := Pow2(MaxDouble) - 1;
      } else if backoffCount > MaxBackoff {
        return Fail;
      }
      slots := RoundedDraw(drawNum, drawDen, maxBackoffSlots);
    }

    /** Reset after a successful transmission. */
    method ZeroBackoffCount()
      modifies this
      ensures Valid()
      ensures backoffCount == 0 && maxBackoffSlots == 0
      ensures seed == old(seed)
    {
      backoffCount := 0;
      maxBackoffSlots := 0;
    }

    method GetBackoffCount() returns (count: nat)
      ensures count == backoffCount
    {
      count := backoffCount;
    }

    method GetMaxBackoffSlots() returns (maxSlots: int)
      requires Valid()
      ensures maxSlots == maxBackoffSlots
      ensures 0 <= maxSlots <= 1023
    {
      maxSlots := maxBackoffSlots;
      SlotLimitSchedule(backoffCount);
    }
  }
}
