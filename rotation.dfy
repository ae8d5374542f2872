/**
 * The rotation stepper at the top of `draw`: every pattern triangle is turned
 * by 0, 120 or 240 degrees, and the turn advances by one third of a circle
 * once per period of 1000 / max(0.0001, ROTATE_RATE) milliseconds.
 *
 * The clock is a parameter: each tick receives the time `now` in milliseconds.
 */
module Rotation {

  /** Steps per second of the sketch (`ROTATE_RATE`). */
  const ROTATE_RATE: real := 1.0
  /** The rate is clamped from below by this value before the period is computed. */
  const MIN_RATE: real := 0.0001
  /** Degrees turned per step: a third of a circle. */
  const STEP_DEGREES: int := 120

  /** The stepper's globals `_stepIndex` and `_lastStepMs`. */
  datatype StepperState = StepperState(stepIndex: int, lastStepMs: real)

  /** The step index is one of the three turns. */
  predicate ValidIndex(s: StepperState) {
    0 <= s.stepIndex < 3
  }

  function MaxReal(a: real, b: real): real { if a <= b then b else a }

  /**
   * The period between steps, in milliseconds. It is positive and at most
   * 10^7 whatever the rate (zero and negative rates included); for a rate of
   * at least MIN_RATE it is the reciprocal of the rate, in milliseconds.
   */
  function PeriodMs(rate: real): (p: real)
    ensures 0.0 < p <= 10000000.0
    ensures rate >= MIN_RATE ==> p * rate == 1000.0
    ensures rate <= MIN_RATE ==> p == 10000000.0
  {
    1000.0 / MaxReal(MIN_RATE, rate)
  }

  /** The next step index: 0, 1, 2, then back to 0. */
  function NextStep(i: int): int {
    (i + 1) % 3
  }

  /** The cycle of step indices: it stays in {0, 1, 2}, always moves, and returns after three steps. */
  lemma NextStepCycles(i: int)
    requires 0 <= i < 3
    ensures 0 <= NextStep(i) < 3
    ensures NextStep(i) != i
    ensures NextStep(NextStep(i)) != i
    ensures NextStep(NextStep(NextStep(i))) == i
  {
  }

  /** One run of the stepper block of `draw` at time `now`. */
  function TickState(s: StepperState, rate: real, now: real): StepperState {
    if now - s.lastStepMs >= PeriodMs(rate) then StepperState(NextStep(s.stepIndex), now) else s
  }

  /**
   * A tick advances the index by one, and records `now`, exactly when a full
   * period has elapsed since the last step; otherwise nothing changes. The
   * index stays among the three turns.
   */
  lemma TickAdvancesIffPeriodElapsed(s: StepperState, rate: real, now: real)
    requires ValidIndex(s)
    ensures ValidIndex(TickState(s, rate, now))
    ensures TickState(s, rate, now) != s <==> now - s.lastStepMs >= PeriodMs(rate)
    ensures now - s.lastStepMs >= PeriodMs(rate) ==>
              TickState(s, rate, now).stepIndex == (s.stepIndex + 1) % 3 && TickState(s, rate, now).lastStepMs == now
  {
  }

  /** The angle applied to every pattern triangle, in degrees (`_angleOffset`). */
  function AngleDegrees(s: StepperState): int {
    s.stepIndex * STEP_DEGREES
  }

  /** The angle is 0, 120 or 240 degrees, and distinct indices give distinct angles. */
  lemma AngleIsAThirdTurn(s: StepperState, s': StepperState)
    requires ValidIndex(s) && ValidIndex(s')
    ensures AngleDegrees(s) == 0 || AngleDegrees(s) == 120 || AngleDegrees(s) == 240
    ensures AngleDegrees(s) == AngleDegrees(s') <==> s.stepIndex == s'.stepIndex
  {
  }

  /** The state after one tick at each of `times`, in order. */
  function Run(s: StepperState, rate: real, times: seq<real>): StepperState
    decreases |times|
  {
    if times == [] then s else TickState(Run(s, rate, times[..|times| - 1]), rate, times[|times| - 1])
  }

  /** How many of the ticks at `times` advance the stepper. */
  function Advances(s: StepperState, rate: real, times: seq<real>): nat
    decreases |times|
  {
    if times == [] then 0
    else
      var before := Run(s, rate, times[..|times| - 1]);
      Advances(s, rate, times[..|times| - 1]) + (if times[|times| - 1] - before.lastStepMs >= PeriodMs(rate) then 1 else 0)
  }

  /** After any sequence of ticks the index has moved on by the number of advances, modulo 3. */
  lemma {:induction false} RunCountsAdvances(s: StepperState, rate: real, times: seq<real>)
    requires ValidIndex(s)
    ensures ValidIndex(Run(s, rate, times))
    ensures Run(s, rate, times).stepIndex == (s.stepIndex + Advances(s, rate, times)) % 3
    decreases |times|
  {
    if times != [] {
      var front := times[..|times| - 1];
      RunCountsAdvances(s, rate, front);
      var before := Run(s, rate, front);
      var n := Advances(s, rate, front);
      if times[|times| - 1] - before.lastStepMs >= PeriodMs(rate) {
        var k := s.stepIndex + n;
        assert (k % 3 + 1) % 3 == (k + 1) % 3;
      }
    }
  }

  /**
   * The recorded step time moves on by at least one period per advance, so
   * the stepper never advances more often than once a period, however often
   * it is ticked.
   */
  lemma {:induction false} RunSpacesAdvances(s: StepperState, rate: real, times: seq<real>)
    ensures Advances(s, rate, times) as real * PeriodMs(rate) <= Run(s, rate, times).lastStepMs - s.lastStepMs
    decreases |times|
  {
    if times != [] {
      var front := times[..|times| - 1];
      RunSpacesAdvances(s, rate, front);
      var p := PeriodMs(rate);
      var before := Run(s, rate, front);
      var n := Advances(s, rate, front);
      if times[|times| - 1] - before.lastStepMs >= p {
        assert (n + 1) as real * p == n as real * p + p;
      }
    }
  }

  /** Three advances bring the stepper back to the turn it started from. */
  lemma ThreeAdvancesReturn(s: StepperState, rate: real, times: seq<real>)
    requires ValidIndex(s)
    requires Advances(s, rate, times) == 3
    ensures Run(s, rate, times).stepIndex == s.stepIndex
  {
    RunCountsAdvances(s, rate, times);
    assert (s.stepIndex + 3) % 3 == s.stepIndex;
  }

  /** At the default rate, ticks one, two and three seconds after the last step make a full turn. */
  lemma FullTurnInThreeSeconds(s: StepperState)
    requires ValidIndex(s)
    ensures var l := s.lastStepMs;
            Advances(s, ROTATE_RATE, [l + 1000.0, l + 2000.0, l + 3000.0]) == 3 &&
            Run(s, ROTATE_RATE, [l + 1000.0, l + 2000.0, l + 3000.0]).stepIndex == s.stepIndex
  {
    var l := s.lastStepMs;
    var t1, t2, t3 := [l + 1000.0], [l + 1000.0, l + 2000.0], [l + 1000.0, l + 2000.0, l + 3000.0];
    assert PeriodMs(ROTATE_RATE) == 1000.0;
    assert t1[..0] == [] && t2[..1] == t1 && t3[..2] == t2;
    assert Run(s, ROTATE_RATE, t1) == StepperState(NextStep(s.stepIndex), l + 1000.0);
    assert Advances(s, ROTATE_RATE, t1) == 1;
    assert Run(s, ROTATE_RATE, t2) == StepperState(NextStep(NextStep(s.stepIndex)), l + 2000.0);
    assert Advances(s, ROTATE_RATE, t2) == 2;
    NextStepCycles(s.stepIndex);
  }

  /** The rotation globals of the sketch, updated once per frame by `draw`. */
  class RotationStepper {
    var stepIndex: int
    var lastStepMs: real
    var angleOffsetDegrees: int
    const rate: real

    ghost predicate Valid()
      reads this
    {
      0 <= stepIndex < 3 && angleOffsetDegrees == AngleDegrees(State())
    }

    function State(): StepperState
      reads this
    {
      StepperState(stepIndex, lastStepMs)
    }

    /** The globals as the sketch declares them: index 0, last step at time 0, no turn. */
    constructor(rate: real)
      ensures Valid()
      ensures State() == StepperState(0, 0.0) && angleOffsetDegrees == 0
      ensures this.rate == rate
    {
      stepIndex := 0;
      lastStepMs := 0.0;
      angleOffsetDegrees := 0;
      this.rate := rate;
    }

    /** The stepper block of `draw` at time `now`: maybe advance, then refresh the angle. */
    method Tick(now: real)
      requires Valid()
      modifies this
      ensures Valid()
      ensures State() == TickState(old(State()), rate, now)
      ensures angleOffsetDegrees == AngleDegrees(State())
    {
      var periodMs := 1000.0 / MaxReal(MIN_RATE, rate);
      if now - lastStepMs >= periodMs {
        stepIndex := (stepIndex + 1) % 3;
        lastStepMs := now;
      }
      angleOffsetDegrees := stepIndex * STEP_DEGREES;
    }
  }
}
