/** Checked iterative addition and subtraction over the range of a fixed-width
    integer type (M1.NumericOverflows.cpp).

    A C++ integer type T is represented by its bounds, numeric_limits<T>::min()
    and numeric_limits<T>::max(). The two routines advance an accumulator one
    step at a time and, before each step, compare the step with the headroom
    left to the relevant bound; they stop at the first step that would cross
    it and raise a failure flag. The process-wide flags of the program are
    returned here as the `failed` field of an Outcome. */
module NumericOverflows {

  /** The range [lo, hi] of an integer type. Signed types have lo < 0;
      unsigned types have lo == 0. */
  datatype Bounds = Bounds(lo: int, hi: int) {
    predicate Valid() { lo <= 0 <= hi }
    predicate Signed() { lo < 0 }
    predicate InRange(x: int) { lo <= x <= hi }
    /** Two's complement signed (min == -max - 1) or unsigned (min == 0):
        the shape of every native integer type. */
    predicate Native() { lo == 0 || lo == -hi - 1 }
  }

  /** What one call leaves behind: the accumulator and the failure flag
      (overflow_flag for addition, underflow_flag for subtraction). */
  datatype Outcome = Outcome(value: int, failed: bool)

  lemma MulMonotone(a: nat, b: int, c: int)
    ensures b <= c ==> a * b <= a * c
  {
    if b <= c {
      assert a * c == a * b + a * (c - b);
    }
  }

  /** How many steps of size `step` fit into `room`, capped at `steps`:
      the number of loop iterations that pass the headroom guard. */
  function StepsThatFit(room: nat, step: nat, steps: nat): (k: nat)
    ensures k <= steps
    ensures step * k <= room
    ensures k < steps ==> room < step * (k + 1)
  {
    if step == 0 then steps
    else
      var q := room / step;
      MulMonotone(step, steps, q);
      if steps <= q then steps else q
  }

  /** StepsThatFit is the only count with its three properties. */
  lemma StepsThatFitUnique(room: nat, step: nat, steps: nat, i: nat)
    requires i <= steps && step * i <= room
    requires i < steps ==> room < step * (i + 1)
    ensures StepsThatFit(room, step, steps) == i
  {
    var k := StepsThatFit(room, step, steps);
    MulMonotone(step, k + 1, i);
    MulMonotone(step, i + 1, k);
  }

  // ---------------------------------------------------------------- addition

  /** The inputs add_numbers is modelled for: start and increment are values
      of T. When the loop runs at all, the increment is non-negative (the
      guard protects only the maximum) and the start is too, which for a
      signed T keeps `max - result` representable. */
  predicate AddPre(b: Bounds, start: int, increment: int, steps: nat) {
    b.Valid() && b.InRange(start) && b.InRange(increment)
    && (steps > 0 ==> 0 <= increment && 0 <= start)
  }

  /** Reference definition of add_numbers: as many whole steps as fit below
      the maximum, up to `steps`; the flag is raised when fewer fit. */
  function AddSpec(b: Bounds, start: int, increment: int, steps: nat): (r: Outcome)
    requires AddPre(b, start, increment, steps)
    ensures b.InRange(r.value) && start <= r.value
    ensures r.failed <==> start + increment * steps > b.hi
    ensures !r.failed ==> r.value == start + increment * steps
    ensures r.failed ==> b.hi - r.value < increment
  {
    if steps == 0 then Outcome(start, false)
    else
      var k := StepsThatFit(b.hi - start, increment, steps);
      MulMonotone(increment, k + 1, steps);
      Outcome(start + increment * k, k < steps)
  }

  /** add_numbers: start + increment * steps, one checked step at a time. */
  method AddNumbers(b: Bounds, start: int, increment: int, steps: nat) returns (o: Outcome)
    requires AddPre(b, start, increment, steps)
    ensures o == AddSpec(b, start, increment, steps)
  {
    var result := start;
    var overflow := false;
    var rangeCheck := 0;
    for i := 0 to steps
      invariant result == start + increment * i
      invariant start <= result <= b.hi
      invariant !overflow
    {
      rangeCheck := b.hi - result;
      assert b.InRange(rangeCheck);  // max - result does not leave T
      if increment <= rangeCheck {
        result := result + increment;
      } else {
        overflow := true;
        StepsThatFitUnique(b.hi - start, increment, steps, i);
        break;
      }
    }
    if !overflow && steps > 0 {
      StepsThatFitUnique(b.hi - start, increment, steps, steps);
    }
    o := Outcome(result, overflow);
  }

  /** Zero steps return the start unchanged, without overflow, for every
      start and increment of T. */
  lemma AddZeroSteps(b: Bounds, start: int, increment: int)
    requires AddPre(b, start, increment, 0)
    ensures AddSpec(b, start, increment, 0) == Outcome(start, false)
  {
  }

  /** A zero increment never overflows, whatever the step count. */
  lemma AddZeroIncrement(b: Bounds, start: int, steps: nat)
    requires AddPre(b, start, 0, steps)
    ensures AddSpec(b, start, 0, steps) == Outcome(start, false)
  {
  }

  /** On overflow the accumulator is the value after the last step that
      fitted: if k steps succeed and k + 1 fail, every longer run stops
      with the value of the k-step run. */
  lemma {:induction false} AddStopsAtFirstCrossing(b: Bounds, start: int, increment: int, k: nat, steps: nat)
    requires AddPre(b, start, increment, steps)
    requires k < steps
    requires !AddSpec(b, start, increment, k).failed
    requires AddSpec(b, start, increment, k + 1).failed
    ensures AddSpec(b, start, increment, steps) == Outcome(start + increment * k, true)
  {
    StepsThatFitUnique(b.hi - start, increment, steps, k);
  }

  /** Monotonic failure: once a run overflows, a longer run overflows too,
      and stops at the same value. */
  lemma {:induction false} AddFailureIsMonotonic(b: Bounds, start: int, increment: int, n: nat, j: nat)
    requires AddPre(b, start, increment, n)
    requires AddSpec(b, start, increment, n).failed
    ensures AddSpec(b, start, increment, n + j) == AddSpec(b, start, increment, n)
  {
    var k := StepsThatFit(b.hi - start, increment, n);
    StepsThatFitUnique(b.hi - start, increment, n + j, k);
  }

  // ------------------------------------------------------------- subtraction

  /** The inputs subtract_numbers is modelled for: start and decrement are
      values of T. When the loop runs at all, the decrement is non-negative
      (the guard protects only the minimum) and, for a signed T, both
      `min - result` and its negation are representable, that is
      result <= 0 and result - min <= max. */
  predicate SubPre(b: Bounds, start: int, decrement: int, steps: nat) {
    b.Valid() && b.InRange(start) && b.InRange(decrement)
    && (steps > 0 ==> 0 <= decrement && (b.Signed() ==> start <= 0 && start - b.lo <= b.hi))
  }

  /** Reference definition of subtract_numbers: as many whole steps as fit
      above the minimum, up to `steps`; the flag is raised when fewer fit. */
  function SubSpec(b: Bounds, start: int, decrement: int, steps: nat): (r: Outcome)
    requires SubPre(b, start, decrement, steps)
    ensures b.InRange(r.value) && r.value <= start
    ensures r.failed <==> start - decrement * steps < b.lo
    ensures !r.failed ==> r.value == start - decrement * steps
    ensures r.failed ==> r.value - b.lo < decrement
  {
    if steps == 0 then Outcome(start, false)
    else
      var k := StepsThatFit(start - b.lo, decrement, steps);
      MulMonotone(decrement, k + 1, steps);
      Outcome(start - decrement * k, k < steps)
  }

  /** subtract_numbers: start - decrement * steps, one checked step at a
      time, with the headroom computed separately for signed and unsigned T. */
  method SubtractNumbers(b: Bounds, start: int, decrement: int, steps: nat) returns (o: Outcome)
    requires SubPre(b, start, decrement, steps)
    ensures o == SubSpec(b, start, decrement, steps)
  {
    var result := start;
    var underflow := false;
    var rangeCheck := 0;
    for i := 0 to steps
      invariant result == start - decrement * i
      invariant b.lo <= result <= start
      invariant !underflow
    {
      if b.lo < 0 {
        rangeCheck := b.lo - result;
        assert b.InRange(rangeCheck);  // min - result does not leave T
      } else {
        rangeCheck := result;
      }
      if rangeCheck < 0 {
        rangeCheck := rangeCheck * -1;
        assert b.InRange(rangeCheck);  // nor does its negation
      }
      // the headroom is the distance to the minimum in both branches
      assert rangeCheck == result - b.lo;
      if decrement <= rangeCheck {
        result := result - decrement;
      } else {
        underflow := true;
        StepsThatFitUnique(start - b.lo, decrement, steps, i);
        break;
      }
    }
    if !underflow && steps > 0 {
      StepsThatFitUnique(start - b.lo, decrement, steps, steps);
    }
    o := Outcome(result, underflow);
  }

  /** Zero steps return the start unchanged, without underflow, for every
      start and decrement of T. */
  lemma SubZeroSteps(b: Bounds, start: int, decrement: int)
    requires SubPre(b, start, decrement, 0)
    ensures SubSpec(b, start, decrement, 0) == Outcome(start, false)
  {
  }

  /** On underflow the accumulator is the value after the last step that
      fitted. */
  lemma {:induction false} SubStopsAtFirstCrossing(b: Bounds, start: int, decrement: int, k: nat, steps: nat)
    requires SubPre(b, start, decrement, steps)
    requires k < steps
    requires !SubSpec(b, start, decrement, k).failed
    requires SubSpec(b, start, decrement, k + 1).failed
    ensures SubSpec(b, start, decrement, steps) == Outcome(start - decrement * k, true)
  {
    StepsThatFitUnique(start - b.lo, decrement, steps, k);
  }

  /** Monotonic failure for subtraction. */
  lemma {:induction false} SubFailureIsMonotonic(b: Bounds, start: int, decrement: int, n: nat, j: nat)
    requires SubPre(b, start, decrement, n)
    requires SubSpec(b, start, decrement, n).failed
    ensures SubSpec(b, start, decrement, n + j) == SubSpec(b, start, decrement, n)
  {
    var k := StepsThatFit(start - b.lo, decrement, n);
    StepsThatFitUnique(start - b.lo, decrement, n + j, k);
  }

  // --------------------------------------------- the program's own scenarios

  // Integer types the program exercises, under the MSVC data model
  // (char signed, wchar_t unsigned 16-bit, long 32-bit).
  const Char := Bounds(-128, 127)
  const WChar := Bounds(0, 65535)
  const Short := Bounds(-32768, 32767)
  const Int := Bounds(-2147483648, 2147483647)
  const Long := Bounds(-2147483648, 2147483647)
  const LongLong := Bounds(-9223372036854775808, 9223372036854775807)
  const UnsignedChar := Bounds(0, 255)
  const UnsignedShort := Bounds(0, 65535)
  const UnsignedInt := Bounds(0, 4294967295)
  const UnsignedLong := Bounds(0, 4294967295)
  const UnsignedLongLong := Bounds(0, 18446744073709551615)

  const IntegerTypes: seq<Bounds> :=
    [Char, WChar, Short, Int, Long, LongLong,
     UnsignedChar, UnsignedShort, UnsignedInt, UnsignedLong, UnsignedLongLong]

  /** The overflow test: start 0, increment max / 5. Five steps reach
      5 * (max / 5) without overflow; six steps overflow exactly when
      max / 5 exceeds max % 5, and then stop at the five-step value. */
  lemma OverflowTestScenario(b: Bounds)
    requires b.Valid()
    ensures AddSpec(b, 0, b.hi / 5, 5) == Outcome(5 * (b.hi / 5), false)
    ensures AddSpec(b, 0, b.hi / 5, 6)
         == if b.hi / 5 > b.hi % 5 then Outcome(5 * (b.hi / 5), true)
            else Outcome(6 * (b.hi / 5), false)
  {
    if b.hi / 5 > b.hi % 5 {
      AddStopsAtFirstCrossing(b, 0, b.hi / 5, 5, 6);
    }
  }

  /** The underflow test: start min + max, decrement max / 5. Five steps
      stay above the minimum; six steps underflow exactly when max / 5
      exceeds max % 5, and then stop at the five-step value. */
  lemma UnderflowTestScenario(b: Bounds)
    requires b.Valid() && b.Native()
    ensures SubSpec(b, b.lo + b.hi, b.hi / 5, 5) == Outcome(b.lo + b.hi - 5 * (b.hi / 5), false)
    ensures SubSpec(b, b.lo + b.hi, b.hi / 5, 6)
         == if b.hi / 5 > b.hi % 5 then Outcome(b.lo + b.hi - 5 * (b.hi / 5), true)
            else Outcome(b.lo + b.hi - 6 * (b.hi / 5), false)
  {
    if b.hi / 5 > b.hi % 5 {
      SubStopsAtFirstCrossing(b, b.lo + b.hi, b.hi / 5, 5, 6);
    }
  }

  /** For every integer type of the program, the first call of each test
      succeeds and the second, with one extra step, fails. */
  lemma {:induction false} IntegerTypesScenarios()
    ensures forall b <- IntegerTypes ::
      b.Valid() && b.Native()
      && !AddSpec(b, 0, b.hi / 5, 5).failed && AddSpec(b, 0, b.hi / 5, 6).failed
      && !SubSpec(b, b.lo + b.hi, b.hi / 5, 5).failed && SubSpec(b, b.lo + b.hi, b.hi / 5, 6).failed
  {
    forall b <- IntegerTypes
      ensures b.Valid() && b.Native()
      ensures !AddSpec(b, 0, b.hi / 5, 5).failed && AddSpec(b, 0, b.hi / 5, 6).failed
      ensures !SubSpec(b, b.lo + b.hi, b.hi / 5, 5).failed && SubSpec(b, b.lo + b.hi, b.hi / 5, 6).failed
    {
      assert b.Valid() && b.Native() && b.hi / 5 > b.hi % 5;
      OverflowTestScenario(b);
      UnderflowTestScenario(b);
    }
  }

  /** unsigned char: 5 steps of 51 from 0 give 255; a sixth overflows
      and leaves 255. */
  lemma UnsignedCharOverflow()
    ensures AddSpec(UnsignedChar, 0, 51, 5) == Outcome(255, false)
    ensures AddSpec(UnsignedChar, 0, 51, 6) == Outcome(255, true)
  {
    OverflowTestScenario(UnsignedChar);
  }

  /** char: 5 steps of 25 from -1 give -126; a sixth underflows and
      leaves -126. */
  lemma CharUnderflow()
    ensures SubSpec(Char, -1, 25, 5) == Outcome(-126, false)
    ensures SubSpec(Char, -1, 25, 6) == Outcome(-126, true)
  {
    UnderflowTestScenario(Char);
  }
}
