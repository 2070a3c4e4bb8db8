/** The PPO2 controller: one PID update with conditional integration, and the solenoid timing
    derived from its duty. Floats are modelled as reals. Source: ppo2_control_math.c. */
module PidControl {
  import opened Common

  const INTEGRAL_RESET_OVERSHOOT_BAR := 0.20
  const PPO2_COMPARE_EPSILON_BAR := 0.00001

  /** 2^31: one more than the largest 32-bit long. */
  const LONG_LIMIT: nat := 0x8000_0000

  datatype Gains = Gains(kp: real, ki: real, kd: real, integralMin: real, integralMax: real)

  datatype Memory = Memory(derivative: real, integral: real, saturationCount: nat)

  function Clamp(x: real, lo: real, hi: real): real {
    if x > hi then hi else if x < lo then lo else x
  }

  predicate HardReset(error: real) {
    error <= -(INTEGRAL_RESET_OVERSHOOT_BAR - PPO2_COMPARE_EPSILON_BAR)
  }

  /** The integral before the output is known to be saturated or not. */
  function Integrated(g: Gains, integral: real, error: real): real {
    Clamp(if HardReset(error) then 0.0 else integral + g.ki * error, g.integralMin, g.integralMax)
  }

  /** Proportional plus derivative part. */
  function Offset(g: Gains, m: Memory, setpoint: real, measured: real): real {
    g.kp * (setpoint - measured) + g.kd * (m.derivative - measured)
  }

  /** Whether the new integral would push a saturated duty further out. */
  predicate Discards(g: Gains, m: Memory, setpoint: real, measured: real) {
    var error := setpoint - measured;
    var duty := Offset(g, m, setpoint, measured) + Integrated(g, m.integral, error);
    !HardReset(error) && ((duty > 1.0 && error > 0.0) || (duty < 0.0 && error < 0.0))
  }

  /** The integral an update leaves behind. */
  function NextIntegral(g: Gains, m: Memory, setpoint: real, measured: real): real {
    if Discards(g, m, setpoint, measured) then m.integral else Integrated(g, m.integral, setpoint - measured)
  }

  /** The duty an update returns. */
  function Duty(g: Gains, m: Memory, setpoint: real, measured: real): real {
    Offset(g, m, setpoint, measured) + NextIntegral(g, m, setpoint, measured)
  }

  /** Consecutive updates in which the integral was clamped or the update discarded, counted in
      32 bits. */
  function NextCount(g: Gains, m: Memory, setpoint: real, measured: real): nat {
    var error := setpoint - measured;
    var raw := if HardReset(error) then 0.0 else m.integral + g.ki * error;
    var clamped := raw > g.integralMax || raw < g.integralMin;
    var count := if clamped then (m.saturationCount + 1) % U32 else 0;
    if Discards(g, m, setpoint, measured) then (count + 1) % U32 else count
  }

  function After(g: Gains, m: Memory, setpoint: real, measured: real): Memory {
    Memory(measured, NextIntegral(g, m, setpoint, measured), NextCount(g, m, setpoint, measured))
  }

  class Pid {
    const gains: Gains
    var memory: Memory

    constructor (kp: real, ki: real, kd: real)
      ensures gains == Gains(kp, ki, kd, 0.0, 1.0) && memory == Memory(0.0, 0.0, 0)
    {
      gains := Gains(kp, ki, kd, 0.0, 1.0);
      memory := Memory(0.0, 0.0, 0);
    }

    method Reset()
      modifies this
      ensures memory == Memory(0.0, 0.0, 0)
    {
      memory := Memory(0.0, 0.0, 0);
    }

    /** pid_update, statement by statement. */
    method Update(setpoint: real, measured: real) returns (duty: real)
      modifies this
      ensures duty == Duty(gains, old(memory), setpoint, measured)
      ensures memory == After(gains, old(memory), setpoint, measured)
    {
      var error := setpoint - measured;
      var previous := memory.integral;
      var hardReset := false;
      var pTerm := gains.kp * error;
      var integral := previous + gains.ki * error;
      var count := memory.saturationCount;
      if error <= -(INTEGRAL_RESET_OVERSHOOT_BAR - PPO2_COMPARE_EPSILON_BAR) {
        integral := 0.0;
        hardReset := true;
      }
      assert hardReset == HardReset(error);
      ghost var raw := integral;
      assert raw == if HardReset(error) then 0.0 else previous + gains.ki * error;
      if integral > gains.integralMax {
        integral := gains.integralMax;
        count := (count + 1) % U32;
      } else if integral < gains.integralMin {
        integral := gains.integralMin;
        count := (count + 1) % U32;
      } else {
        count := 0;
      }
      assert integral == Clamp(raw, gains.integralMin, gains.integralMax);
      var dTerm := gains.kd * (memory.derivative - measured);
      assert pTerm + dTerm == Offset(gains, memory, setpoint, measured);
      duty := pTerm + dTerm + integral;
      var drivesHigh := duty > 1.0 && error > 0.0;
      var drivesLow := duty < 0.0 && error < 0.0;
      if !hardReset && (drivesHigh || drivesLow) {
        integral := previous;
        duty := pTerm + dTerm + integral;
        count := (count + 1) % U32;
      }
      memory := Memory(measured, integral, count);
    }
  }

  // ---- One update ----

  /** An update that returns a saturated duty, and still asks for more of the same, has not
      moved the integral. */
  lemma SaturatedUpdateHoldsIntegral(g: Gains, m: Memory, setpoint: real, measured: real)
    ensures Duty(g, m, setpoint, measured) > 1.0 && setpoint > measured ==>
      NextIntegral(g, m, setpoint, measured) == m.integral
    ensures Duty(g, m, setpoint, measured) < 0.0 && setpoint < measured && !HardReset(setpoint - measured) ==>
      NextIntegral(g, m, setpoint, measured) == m.integral
  {}

  /** Where no limit, reset or saturation applies, the update is the textbook sum: the integral
      moves by Ki times the error, and the duty is the three terms added up. */
  lemma LinearInside(g: Gains, m: Memory, setpoint: real, measured: real, integral: real, sum: real)
    requires integral == m.integral + g.ki * (setpoint - measured)
    requires sum == g.kp * (setpoint - measured) + g.kd * (m.derivative - measured) + integral
    requires setpoint - measured > -0.19999 && g.integralMin <= integral <= g.integralMax && 0.0 <= sum <= 1.0
    ensures Duty(g, m, setpoint, measured) == sum
    ensures After(g, m, setpoint, measured) == Memory(measured, integral, 0)
  {
    assert Integrated(g, m.integral, setpoint - measured) == integral;
    assert Offset(g, m, setpoint, measured) + integral == sum;
    assert !Discards(g, m, setpoint, measured);
  }

  /** An overshoot of 0.20 bar, less the comparison margin, drops the integral and leaves the
      other two terms, even where they are saturated. */
  lemma OvershootResets(g: Gains, m: Memory, setpoint: real, measured: real)
    requires measured - setpoint >= 0.19999 && g.integralMin <= 0.0 <= g.integralMax
    ensures After(g, m, setpoint, measured) == Memory(measured, 0.0, 0)
    ensures Duty(g, m, setpoint, measured) == g.kp * (setpoint - measured) + g.kd * (m.derivative - measured)
  {}

  // ---- Runs ----

  /** A run: the memory before the first update and after each, for the given setpoints and
      measurements. */
  predicate IsRun(g: Gains, ms: seq<Memory>, inputs: seq<(real, real)>) {
    && |ms| == |inputs| + 1
    && forall i :: 0 <= i < |inputs| ==> ms[i + 1] == After(g, ms[i], inputs[i].0, inputs[i].1)
  }

  /** Over every run the integral stays within its limits. */
  lemma {:induction false} IntegralStaysInLimits(g: Gains, ms: seq<Memory>, inputs: seq<(real, real)>, k: nat)
    requires IsRun(g, ms, inputs) && k < |ms|
    requires g.integralMin <= ms[0].integral <= g.integralMax
    ensures g.integralMin <= ms[k].integral <= g.integralMax
  {
    if k > 0 {
      IntegralStaysInLimits(g, ms, inputs, k - 1);
      assert ms[k - 1 + 1] == After(g, ms[k - 1], inputs[k - 1].0, inputs[k - 1].1);
    }
  }

  predicate ProportionalIntegral(g: Gains) {
    g.kd == 0.0 && g.kp >= 0.0 && g.ki > 0.0 && g.integralMin == 0.0 && g.integralMax == 1.0
  }

  /** The update asks for oxygen at Ki times the overshoot or more. */
  predicate Strong(g: Gains, m: Memory, input: (real, real)) {
    Duty(g, m, input.0, input.1) >= g.ki * (input.1 - input.0)
  }

  function Count(bs: seq<bool>): nat {
    if bs == [] then 0 else Count(bs[..|bs| - 1]) + if bs[|bs| - 1] then 1 else 0
  }

  function StrongUpdates(g: Gains, ms: seq<Memory>, inputs: seq<(real, real)>): nat
    requires |ms| == |inputs| + 1
  {
    Count(seq(|inputs|, i requires 0 <= i < |inputs| => Strong(g, ms[i], inputs[i])))
  }

  /** In overshoot the integral never grows, and a strong update takes Ki times the overshoot
      off it. */
  lemma OvershootUnwinds(g: Gains, m: Memory, setpoint: real, measured: real)
    requires ProportionalIntegral(g) && 0.0 <= m.integral <= 1.0 && measured > setpoint
    ensures 0.0 <= NextIntegral(g, m, setpoint, measured) <= m.integral
    ensures Strong(g, m, (setpoint, measured)) ==>
      NextIntegral(g, m, setpoint, measured) == m.integral - g.ki * (measured - setpoint)
  {
    var error := setpoint - measured;
    var offset, step := OvershootTerms(g, m, setpoint, measured);
    Unwinds(m.integral, offset, step, HardReset(error),
      Integrated(g, m.integral, error), NextIntegral(g, m, setpoint, measured));
  }

  /** In overshoot the proportional part is not positive, and the integral step is negative. */
  lemma OvershootTerms(g: Gains, m: Memory, setpoint: real, measured: real) returns (offset: real, step: real)
    requires ProportionalIntegral(g) && measured > setpoint
    ensures offset == Offset(g, m, setpoint, measured) <= 0.0
    ensures step == g.ki * (measured - setpoint) > 0.0 && g.ki * (setpoint - measured) == -step
  {
    MulZero(g.kd, m.derivative - measured);
    MulNonPositive(g.kp, setpoint - measured);
    MulNegates(g.ki, measured - setpoint, setpoint - measured);
    MulPositive(g.ki, measured - setpoint);
    offset, step := Offset(g, m, setpoint, measured), g.ki * (measured - setpoint);
  }

  /** One update in overshoot, on its terms. */
  lemma Unwinds(integral: real, offset: real, step: real, hard: bool, integrated: real, next: real)
    requires 0.0 <= integral <= 1.0 && offset <= 0.0 && step > 0.0
    requires integrated == Clamp(if hard then 0.0 else integral - step, 0.0, 1.0)
    requires next == if !hard && offset + integrated < 0.0 then integral else integrated
    ensures 0.0 <= next <= integral
    ensures offset + next >= step ==> next == integral - step
  {}

  /** A quantity that never grows, and drops by `w` at each counted step, bounds the count. */
  lemma {:induction false} DropsBoundCount(level: seq<real>, bs: seq<bool>, w: real)
    requires |level| == |bs| + 1
    requires forall i :: 0 <= i < |bs| ==> level[i + 1] <= level[i] && (bs[i] ==> level[i + 1] <= level[i] - w)
    ensures Times(Count(bs), w) <= level[0] - level[|bs|]
  {
    if bs != [] {
      var n := |bs| - 1;
      DropsBoundCount(level[..n + 1], bs[..n], w);
      assert level[n + 1] <= level[n];
    }
  }

  function Times(c: nat, w: real): real {
    if c == 0 then 0.0 else Times(c - 1, w) + w
  }

  lemma {:induction false} TimesIsProduct(c: nat, w: real)
    ensures Times(c, w) == c as real * w
  {
    if c > 0 {
      TimesIsProduct(c - 1, w);
      var d := (c - 1) as real;
      assert c as real * w == d * w + w;
    }
  }

  /** The integrals of an overshooting run, and which of its updates are strong. */
  lemma Unwinding(g: Gains, ms: seq<Memory>, inputs: seq<(real, real)>, e: real)
    returns (level: seq<real>, bs: seq<bool>)
    requires ProportionalIntegral(g) && e > 0.0 && IsRun(g, ms, inputs) && 0.0 <= ms[0].integral <= 1.0
    requires forall i :: 0 <= i < |inputs| ==> inputs[i].1 - inputs[i].0 >= e
    ensures |level| == |bs| + 1 && level[0] == ms[0].integral && level[|bs|] >= 0.0
    ensures Count(bs) == StrongUpdates(g, ms, inputs)
    ensures forall i :: 0 <= i < |bs| ==>
      level[i + 1] <= level[i] && (bs[i] ==> level[i + 1] <= level[i] - g.ki * e)
  {
    var n := |inputs|;
    level := seq(n + 1, i requires 0 <= i < |ms| => ms[i].integral);
    bs := seq(n, i requires 0 <= i < n => Strong(g, ms[i], inputs[i]));
    assert bs == seq(|inputs|, i requires 0 <= i < |inputs| => Strong(g, ms[i], inputs[i]));
    forall i | 0 <= i < n
      ensures level[i + 1] <= level[i] && (bs[i] ==> level[i + 1] <= level[i] - g.ki * e)
    {
      UnwindsAt(g, ms, inputs, e, i);
    }
    IntegralStaysInLimits(g, ms, inputs, n);
  }

  /** However long an overshoot of at least `e` lasts, at most 1 / (Ki * e) updates keep asking
      for oxygen at Ki times the overshoot or more. */
  lemma StrongUpdatesAreBounded(g: Gains, ms: seq<Memory>, inputs: seq<(real, real)>, e: real)
    requires ProportionalIntegral(g) && e > 0.0 && IsRun(g, ms, inputs) && 0.0 <= ms[0].integral <= 1.0
    requires forall i :: 0 <= i < |inputs| ==> inputs[i].1 - inputs[i].0 >= e
    ensures g.ki * e > 0.0 && StrongUpdates(g, ms, inputs) as real <= 1.0 / (g.ki * e)
  {
    MulPositive(g.ki, e);
    var level, bs := Unwinding(g, ms, inputs, e);
    BoundedCount(level, bs, g.ki * e);
  }

  // ---- Below the setpoint ----

  /** The duty still lacks Ki times the undershoot, or more, to the full duty. */
  predicate Weak(g: Gains, m: Memory, input: (real, real)) {
    Duty(g, m, input.0, input.1) <= 1.0 - g.ki * (input.0 - input.1)
  }

  function WeakUpdates(g: Gains, ms: seq<Memory>, inputs: seq<(real, real)>): nat
    requires |ms| == |inputs| + 1
  {
    Count(seq(|inputs|, i requires 0 <= i < |inputs| => Weak(g, ms[i], inputs[i])))
  }

  /** Below the setpoint the integral never falls. It gains Ki times the undershoot exactly when
      the duty that leads to does not exceed the full duty, so after every weak update. */
  lemma UndershootWinds(g: Gains, m: Memory, setpoint: real, measured: real)
    requires ProportionalIntegral(g) && 0.0 <= m.integral <= 1.0 && setpoint > measured
    ensures m.integral <= NextIntegral(g, m, setpoint, measured) <= 1.0
    ensures NextIntegral(g, m, setpoint, measured) == m.integral + g.ki * (setpoint - measured) <==>
      g.kp * (setpoint - measured) + m.integral + g.ki * (setpoint - measured) <= 1.0
    ensures Duty(g, m, setpoint, measured) ==
      g.kp * (setpoint - measured) + NextIntegral(g, m, setpoint, measured)
    ensures Weak(g, m, (setpoint, measured)) ==>
      NextIntegral(g, m, setpoint, measured) == m.integral + g.ki * (setpoint - measured)
  {
    MulZero(g.kd, m.derivative - measured);
    MulMonotone(g.kp, 0.0, setpoint - measured);
    MulPositive(g.ki, setpoint - measured);
    Winds(m.integral, g.kp * (setpoint - measured), g.ki * (setpoint - measured),
      Integrated(g, m.integral, setpoint - measured), NextIntegral(g, m, setpoint, measured));
  }

  /** One update in undershoot, on its terms. */
  lemma Winds(integral: real, offset: real, step: real, integrated: real, next: real)
    requires 0.0 <= integral <= 1.0 && offset >= 0.0 && step > 0.0
    requires integrated == Clamp(integral + step, 0.0, 1.0)
    requires next == if offset + integrated > 1.0 then integral else integrated
    ensures integral <= next <= 1.0
    ensures next == integral + step <==> offset + integral + step <= 1.0
    ensures offset + next <= 1.0 - step ==> next == integral + step
  {}

  lemma WindsAt(g: Gains, ms: seq<Memory>, inputs: seq<(real, real)>, e: real, i: nat)
    requires ProportionalIntegral(g) && IsRun(g, ms, inputs) && 0.0 <= ms[0].integral <= 1.0
    requires i < |inputs| && e > 0.0 && inputs[i].0 - inputs[i].1 >= e
    ensures ms[i + 1].integral >= ms[i].integral
    ensures Weak(g, ms[i], inputs[i]) ==> ms[i + 1].integral >= ms[i].integral + g.ki * e
  {
    IntegralStaysInLimits(g, ms, inputs, i);
    UndershootWinds(g, ms[i], inputs[i].0, inputs[i].1);
    MulMonotone(g.ki, e, inputs[i].0 - inputs[i].1);
    assert inputs[i] == (inputs[i].0, inputs[i].1);
  }

  /** What the integral lacks to its limit along an undershooting run, and its weak updates. */
  lemma Winding(g: Gains, ms: seq<Memory>, inputs: seq<(real, real)>, e: real)
    returns (level: seq<real>, bs: seq<bool>)
    requires ProportionalIntegral(g) && e > 0.0 && IsRun(g, ms, inputs) && 0.0 <= ms[0].integral <= 1.0
    requires forall i :: 0 <= i < |inputs| ==> inputs[i].0 - inputs[i].1 >= e
    ensures |level| == |bs| + 1 && level[0] == 1.0 - ms[0].integral && level[|bs|] >= 0.0
    ensures Count(bs) == WeakUpdates(g, ms, inputs)
    ensures forall i :: 0 <= i < |bs| ==>
      level[i + 1] <= level[i] && (bs[i] ==> level[i + 1] <= level[i] - g.ki * e)
  {
    var n := |inputs|;
    level := seq(n + 1, i requires 0 <= i < |ms| => 1.0 - ms[i].integral);
    bs := seq(n, i requires 0 <= i < n => Weak(g, ms[i], inputs[i]));
    assert bs == seq(|inputs|, i requires 0 <= i < |inputs| => Weak(g, ms[i], inputs[i]));
    forall i | 0 <= i < n
      ensures level[i + 1] <= level[i] && (bs[i] ==> level[i + 1] <= level[i] - g.ki * e)
    {
      WindsAt(g, ms, inputs, e, i);
    }
    IntegralStaysInLimits(g, ms, inputs, n);
  }

  /** However long an undershoot of at least `e` lasts, at most 1 / (Ki * e) updates ask for less
      oxygen than the full duty by Ki times the undershoot or more. */
  lemma WeakUpdatesAreBounded(g: Gains, ms: seq<Memory>, inputs: seq<(real, real)>, e: real)
    requires ProportionalIntegral(g) && e > 0.0 && IsRun(g, ms, inputs) && 0.0 <= ms[0].integral <= 1.0
    requires forall i :: 0 <= i < |inputs| ==> inputs[i].0 - inputs[i].1 >= e
    ensures g.ki * e > 0.0 && WeakUpdates(g, ms, inputs) as real <= 1.0 / (g.ki * e)
  {
    MulPositive(g.ki, e);
    var level, bs := Winding(g, ms, inputs, e);
    BoundedCount(level, bs, g.ki * e);
  }

  /** The full duty itself need not be exceeded, nor the integral reach its limit: a step that
      would pass the full duty is discarded, and the next update finds the same state. */
  lemma UndershootCanStall()
    ensures var g, m := Gains(5.0, 1.0, 0.0, 0.0, 1.0), Memory(0.9, 0.5, 1);
      && After(g, m, 1.0, 0.9) == m
      && Duty(g, m, 1.0, 0.9) == 1.0 && m.integral < g.integralMax
  {
    var g, m := Gains(5.0, 1.0, 0.0, 0.0, 1.0), Memory(0.9, 0.5, 1);
    assert 1.0 - 0.9 == 0.1;
    assert g.kp * 0.1 == 0.5 && g.ki * 0.1 == 0.1;
  }

  lemma BoundedCount(level: seq<real>, bs: seq<bool>, w: real)
    requires |level| == |bs| + 1 && w > 0.0 && level[0] <= 1.0 && level[|bs|] >= 0.0
    requires forall i :: 0 <= i < |bs| ==> level[i + 1] <= level[i] && (bs[i] ==> level[i + 1] <= level[i] - w)
    ensures Count(bs) as real <= 1.0 / w
  {
    DropsBoundCount(level, bs, w);
    TimesIsProduct(Count(bs), w);
    var c := Count(bs) as real;
    assert c * w <= level[0] - level[|bs|] <= 1.0;
    AtMost(c, w);
  }

  lemma UnwindsAt(g: Gains, ms: seq<Memory>, inputs: seq<(real, real)>, e: real, i: nat)
    requires ProportionalIntegral(g) && IsRun(g, ms, inputs) && 0.0 <= ms[0].integral <= 1.0
    requires i < |inputs| && e > 0.0 && inputs[i].1 - inputs[i].0 >= e
    ensures ms[i + 1].integral <= ms[i].integral
    ensures Strong(g, ms[i], inputs[i]) ==> ms[i + 1].integral <= ms[i].integral - g.ki * e
  {
    IntegralStaysInLimits(g, ms, inputs, i);
    OvershootUnwinds(g, ms[i], inputs[i].0, inputs[i].1);
    MulMonotone(g.ki, e, inputs[i].1 - inputs[i].0);
    assert inputs[i] == (inputs[i].0, inputs[i].1);
  }

  lemma AtMost(n: real, w: real)
    requires w > 0.0 && n * w <= 1.0
    ensures n <= 1.0 / w
  {
    DivMul(1.0, w);
    var q := 1.0 / w;
    assert w * (n - q) <= 0.0;
  }

  lemma MulMonotone(k: real, a: real, b: real)
    requires k >= 0.0 && a <= b
    ensures k * a <= k * b
  {
    assert k * (b - a) >= 0.0;
  }

  lemma MulPositive(a: real, b: real)
    requires a > 0.0 && b > 0.0
    ensures a * b > 0.0
  {}

  lemma MulNonPositive(k: real, a: real)
    requires k >= 0.0 && a <= 0.0
    ensures k * a <= 0.0
  {
    assert k * -a >= 0.0;
  }

  lemma MulZero(k: real, a: real)
    requires k == 0.0
    ensures k * a == 0.0
  {}

  lemma MulNegates(k: real, a: real, b: real)
    requires b == -a
    ensures k * b == -(k * a)
  {}

  // ---- Solenoid timing ----

  datatype Timing = Timing(fire: bool, compSkipped: bool, onUs: nat, offUs: nat)

  /** A slice of the cycle in microseconds, as the 32-bit result of the conversion. */
  function Microseconds(cycleMs: nat, fraction: real): nat {
    Round(cycleMs as real * 1000.0 * fraction) % U32
  }

  function DepthCoefficient(pressure: nat): real {
    if pressure > 0 then pressure as real / 1000.0 else 1.0
  }

  /** The requested duty limited to [0, max]. */
  function Limited(duty: real, maxDuty: real): real {
    var d := if duty > maxDuty then maxDuty else duty;
    if d < 0.0 then 0.0 else d
  }

  /** Depth compensation re-clamps to the minimum but not to the maximum. */
  function Compensated(duty: real, pressure: nat, minDuty: real): real {
    if pressure == 0 then duty
    else
      var d := duty / DepthCoefficient(pressure);
      if d < minDuty then minDuty else d
  }

  /** The fraction of the cycle a firing keeps the solenoid open. */
  function Fraction(duty: real, pressure: nat, comp: bool, total: nat, min: nat, max: nat): real
    requires total > 0
  {
    var d := Limited(duty, max as real / total as real);
    if comp then Compensated(d, pressure, min as real / total as real) else d
  }

  function FireTiming(duty: real, pressure: nat, comp: bool, total: nat, min: nat, max: nat): Timing
    requires total > 0
  {
    if Limited(duty, max as real / total as real) >= min as real / total as real then
      var f := Fraction(duty, pressure, comp, total, min, max);
      Timing(true, comp && pressure == 0, Microseconds(total, f), Microseconds(total, 1.0 - f))
    else Timing(false, false, 0, total * 1000 % U32)
  }

  /** Where the compensation cannot raise the duty. */
  predicate CannotRaise(pressure: nat, comp: bool) {
    !comp || pressure == 0 || pressure >= 1000
  }

  /** Cycle lengths of which every slice fits the 32-bit long that lroundf returns. */
  predicate Fits(total: nat, min: nat, max: nat) {
    0 < min <= max <= total && total * 1000 + 1 < LONG_LIMIT
  }

  /** The longest slice, stretched by the compensation, still fits it. From 1000 mbar up that
      follows from Fits. */
  predicate StretchFits(pressure: nat, comp: bool, max: nat) {
    comp && pressure > 0 ==> max * 1000000 + pressure < LONG_LIMIT * pressure
  }

  lemma DivMul(a: real, b: real)
    requires b > 0.0
    ensures b * (a / b) == a
  {}

  lemma DivShrinks(d: real, c: real)
    requires d >= 0.0 && c >= 1.0
    ensures 0.0 <= d / c <= d
  {
    DivMul(d, c);
    MulMonotone(d / c, 1.0, c);
  }

  lemma RoundBetween(x: real, lo: int, hi: int)
    requires 0 <= lo && lo as real <= x <= hi as real
    ensures lo <= Round(x) <= hi
  {}

  lemma RoundMonotone(x: real, y: real)
    requires 0.0 <= x <= y
    ensures Round(x) <= Round(y)
  {}

  /** Two slices that make up a whole number of microseconds round to it, or to one more when
      both end in a half. */
  lemma RoundSplits(x: real, y: real, n: int)
    requires x >= 0.0 && y >= 0.0 && x + y == n as real
    ensures Round(x) + Round(y) == n || Round(x) + Round(y) == n + 1
  {
    assert (y + 0.5).Floor == n + 1 - ((x + 0.5).Floor) || (y + 0.5).Floor == n - ((x + 0.5).Floor);
  }

  /** A slice that fits the cycle converts without wrapping. */
  lemma NoWrap(total: nat, f: real) returns (x: real)
    requires 0.0 <= f <= 1.0 && total * 1000 + 1 < U32
    ensures x == total as real * 1000.0 * f && 0.0 <= x <= (total * 1000) as real
    ensures Microseconds(total, f) == Round(x)
  {
    var c := total as real * 1000.0;
    MulMonotone(c, 0.0, f);
    MulMonotone(c, f, 1.0);
    x := c * f;
    RoundBetween(x, 0, total * 1000);
  }

  lemma Complement(c: real, f: real)
    ensures c * f + c * (1.0 - f) == c
  {}

  lemma DivMonotone(a: real, b: real, c: real)
    requires a <= b && c > 0.0
    ensures a / c <= b / c
  {
    DivMul(a, c);
    DivMul(b, c);
    var x, y := a / c, b / c;
    if x > y {
      MulPositive(c, x - y);
      assert false;
    }
  }

  lemma DivAntitone(d: real, b: real, c: real)
    requires d >= 0.0 && 0.0 < b <= c
    ensures d / c <= d / b
  {
    DivMul(d, b);
    DivMul(d, c);
    var x, y := d / b, d / c;
    assert x >= 0.0;
    MulMonotone(x, b, c);
    if y > x {
      MulPositive(c, y - x);
      assert false;
    }
  }

  // ---- Firing, at any pressure ----

  predicate Fires(duty: real, total: nat, min: nat, max: nat)
    requires total > 0
  {
    Limited(duty, max as real / total as real) >= min as real / total as real
  }

  /** The largest fraction any duty leads to. */
  function Widest(pressure: nat, comp: bool, total: nat, max: nat): real
    requires total > 0
  {
    if CannotRaise(pressure, comp) then max as real / total as real
    else (max as real / total as real) / DepthCoefficient(pressure)
  }

  lemma DivPositive(a: real, b: real)
    requires a > 0.0 && b > 0.0
    ensures a / b > 0.0
  {
    DivMul(a, b);
    if a / b <= 0.0 {
      MulNonPositive(b, a / b);
      assert false;
    }
  }

  /** The open fraction of a firing lies between the minimum and the widest fraction. */
  lemma FractionBounds(duty: real, pressure: nat, comp: bool, total: nat, min: nat, max: nat)
    requires Fits(total, min, max) && Fires(duty, total, min, max)
    ensures 0.0 < min as real / total as real <= Fraction(duty, pressure, comp, total, min, max)
    ensures Fraction(duty, pressure, comp, total, min, max) <= Widest(pressure, comp, total, max)
  {
    var hi, lo := max as real / total as real, min as real / total as real;
    var d := Limited(duty, hi);
    DivPositive(min as real, total as real);
    DivMonotone(min as real, max as real, total as real);
    if comp && pressure > 0 {
      if pressure >= 1000 { DivShrinks(d, DepthCoefficient(pressure)); }
      else {
        DivMonotone(d, hi, DepthCoefficient(pressure));
        DivAntitone(d, DepthCoefficient(pressure), 1.0);
      }
    }
  }

  /** The widest slice of the cycle, in microseconds. */
  lemma WidestSlice(pressure: nat, comp: bool, total: nat, min: nat, max: nat) returns (x: real)
    requires Fits(total, min, max) && StretchFits(pressure, comp, max)
    ensures x == total as real * 1000.0 * Widest(pressure, comp, total, max) < U32 as real - 1.0
    ensures CannotRaise(pressure, comp) ==> x == (max * 1000) as real
    ensures !CannotRaise(pressure, comp) ==>
      pressure as real * x == max as real * 1000000.0 && x >= (max * 1000) as real + 1.0
  {
    var t, m := total as real, max as real;
    DivMul(m, t);
    x := t * 1000.0 * Widest(pressure, comp, total, max);
    if CannotRaise(pressure, comp) {
      WholeSlice(t, m / t, m);
    } else {
      DivMul(m / t, DepthCoefficient(pressure));
      StretchedProduct(t, m / t, pressure as real, Widest(pressure, comp, total, max), m);
      BetweenQuotients(x, pressure as real, m);
    }
  }

  lemma WholeSlice(t: real, q: real, m: real)
    requires t * q == m
    ensures t * 1000.0 * q == m * 1000.0
  {}

  lemma StretchedProduct(t: real, q: real, p: real, f: real, m: real)
    requires t * q == m && p / 1000.0 * f == q
    ensures p * (t * 1000.0 * f) == m * 1000000.0
  {
    assert p * f == 1000.0 * q;
    assert p * (t * 1000.0 * f) == 1000.0 * t * (p * f);
    assert 1000.0 * t * (1000.0 * q) == 1000000.0 * (t * q);
  }

  lemma BetweenQuotients(x: real, p: real, m: real)
    requires 1.0 <= p <= 999.0 && m >= 1.0 && p * x == m * 1000000.0 && m * 1000000.0 + p < U32 as real * p
    ensures m * 1000.0 + 1.0 <= x < U32 as real - 1.0
  {
    var low, high := m * 1000.0 + 1.0, U32 as real - 1.0;
    AtLeastQuotient(x, p, low, m * 1000000.0);
    CancelStrict(p, x, high, m * 1000000.0, U32 as real * p - p);
  }

  lemma AtLeastQuotient(x: real, p: real, low: real, top: real)
    requires 0.0 < p <= 999.0 && low >= 0.0 && low * 999.0 <= top && p * x == top
    ensures low <= x
  {
    var scaled := ScaledAtMost(p, low, top);
    Cancel(p, low, x, scaled, top);
  }

  lemma ScaledAtMost(p: real, low: real, top: real) returns (scaled: real)
    requires p <= 999.0 && low >= 0.0 && low * 999.0 <= top
    ensures scaled == p * low && scaled <= top
  {
    scaled := p * low;
    assert (999.0 - p) * low >= 0.0;
  }

  lemma Cancel(k: real, a: real, b: real, ka: real, kb: real)
    requires k > 0.0 && ka == k * a && kb == k * b && ka <= kb
    ensures a <= b
  {
    if a > b {
      MulPositive(k, a - b);
      assert false;
    }
  }

  lemma CancelStrict(k: real, a: real, b: real, ka: real, kb: real)
    requires k > 0.0 && ka == k * a && kb == k * b && ka < kb
    ensures a < b
  {
    if a >= b {
      MulMonotone(k, b, a);
      assert false;
    }
  }

  lemma SliceMonotone(c: real, f: real, g: real, x: real, y: real)
    requires c >= 0.0 && f <= g && x == c * f && y == c * g
    ensures x <= y
  {
    MulMonotone(c, f, g);
  }

  /** No slice up to fraction `w` of the cycle wraps. */
  predicate NoneWraps(total: nat, w: real) { total as real * 1000.0 * w < U32 as real - 1.0 }

  lemma MicrosecondsMonotone(total: nat, f: real, g: real, w: real)
    requires 0.0 <= f <= g <= w && NoneWraps(total, w)
    ensures Microseconds(total, f) <= Microseconds(total, g)
  {
    var c := total as real * 1000.0;
    var x, y := c * f, c * g;
    MulMonotone(c, 0.0, f);
    SliceMonotone(c, f, g, x, y);
    SliceMonotone(c, g, w, y, c * w);
    SliceRounds(total, f, x);
    SliceRounds(total, g, y);
    RoundMonotone(x, y);
  }

  lemma SliceRounds(total: nat, f: real, x: real)
    requires x == total as real * 1000.0 * f && 0.0 <= x < U32 as real - 1.0
    ensures Microseconds(total, f) == Round(x)
  {
    RoundBelow(x);
  }

  lemma RoundBelow(x: real)
    requires 0.0 <= x < U32 as real - 1.0
    ensures 0 <= Round(x) < U32 && Round(x) % U32 == Round(x)
  {}

  /** A whole number of milliseconds as a slice. */
  lemma WholeMilliseconds(total: nat, ms: nat)
    requires 0 < total && ms <= total && total * 1000 + 1 < U32
    ensures Microseconds(total, ms as real / total as real) == ms * 1000
  {
    DivMul(ms as real, total as real);
    WholeSlice(total as real, ms as real / total as real, ms as real);
    SliceRounds(total, ms as real / total as real, (ms * 1000) as real);
  }

  lemma WidestFits(pressure: nat, comp: bool, total: nat, min: nat, max: nat)
    requires Fits(total, min, max) && StretchFits(pressure, comp, max)
    ensures NoneWraps(total, Widest(pressure, comp, total, max))
  {
    var x := WidestSlice(pressure, comp, total, min, max);
  }

  /** A firing's times, from its open fraction. */
  lemma FiringTimes(duty: real, pressure: nat, comp: bool, total: nat, min: nat, max: nat, f: real)
    requires Fits(total, min, max) && Fires(duty, total, min, max)
    requires f == Fraction(duty, pressure, comp, total, min, max)
    ensures FireTiming(duty, pressure, comp, total, min, max) ==
      Timing(true, comp && pressure == 0, Microseconds(total, f), Microseconds(total, 1.0 - f))
  {}

  /** A cycle adds up: open plus closed time is the cycle, or one microsecond more. */
  predicate AddsUp(t: Timing, total: nat) {
    t.onUs + t.offUs == total * 1000 || t.onUs + t.offUs == total * 1000 + 1
  }

  /** A firing opens for at least the minimum, and no firing means closed for the cycle. Where the
      compensation cannot raise the duty it opens for at most the maximum and the cycle adds up. */
  lemma FiringIsWithinLimits(duty: real, pressure: nat, comp: bool, total: nat, min: nat, max: nat)
    requires Fits(total, min, max) && StretchFits(pressure, comp, max)
    ensures var t := FireTiming(duty, pressure, comp, total, min, max);
      && (t.fire ==> min * 1000 <= t.onUs)
      && (!t.fire ==> t.onUs == 0 && t.offUs == total * 1000)
      && (CannotRaise(pressure, comp) ==> t.onUs <= max * 1000 && AddsUp(t, total))
  {
    if Fires(duty, total, min, max) {
      var f := Fraction(duty, pressure, comp, total, min, max);
      FiringTimes(duty, pressure, comp, total, min, max, f);
      FractionBounds(duty, pressure, comp, total, min, max);
      WidestFits(pressure, comp, total, min, max);
      WithinLimits(total, min, max, f, Widest(pressure, comp, total, max), CannotRaise(pressure, comp));
    }
  }

  lemma WithinLimits(total: nat, min: nat, max: nat, f: real, w: real, lowered: bool)
    requires Fits(total, min, max) && 0.0 < min as real / total as real <= f <= w && NoneWraps(total, w)
    requires lowered ==> w == max as real / total as real
    ensures min * 1000 <= Microseconds(total, f)
    ensures lowered ==> Microseconds(total, f) <= max * 1000
    ensures lowered ==> AddsUp(Timing(true, false, Microseconds(total, f), Microseconds(total, 1.0 - f)), total)
  {
    MicrosecondsMonotone(total, min as real / total as real, f, w);
    WholeMilliseconds(total, min);
    if lowered {
      MicrosecondsMonotone(total, f, w, w);
      WholeMilliseconds(total, max);
      DivAtMostOne(max as real, total as real);
      SplitAddsUp(total, f);
    }
  }

  lemma RoundAtLeast(x: real, n: nat)
    requires n as real <= x
    ensures n <= Round(x)
  {}

  lemma DivAtMostOne(a: real, b: real)
    requires 0.0 <= a <= b && b > 0.0
    ensures a / b <= 1.0
  {
    DivMonotone(a, b, b);
  }

  lemma SplitAddsUp(total: nat, f: real)
    requires 0.0 <= f <= 1.0 && total * 1000 + 1 < U32
    ensures var sum := Microseconds(total, f) + Microseconds(total, 1.0 - f);
      sum == total * 1000 || sum == total * 1000 + 1
  {
    Complement(total as real * 1000.0, f);
    var x := NoWrap(total, f);
    var y := NoWrap(total, 1.0 - f);
    RoundSplits(x, y, total * 1000);
  }

  /** A larger duty never gives a shorter firing. */
  lemma OnTimeMonotoneInDuty(d1: real, d2: real, pressure: nat, comp: bool, total: nat, min: nat, max: nat)
    requires Fits(total, min, max) && StretchFits(pressure, comp, max) && d1 <= d2
    ensures FireTiming(d1, pressure, comp, total, min, max).onUs <= FireTiming(d2, pressure, comp, total, min, max).onUs
  {
    if Fires(d1, total, min, max) {
      var f, g := Fraction(d1, pressure, comp, total, min, max), Fraction(d2, pressure, comp, total, min, max);
      FractionMonotone(d1, d2, pressure, comp, total, min, max);
      FractionBounds(d1, pressure, comp, total, min, max);
      FractionBounds(d2, pressure, comp, total, min, max);
      FiringTimes(d1, pressure, comp, total, min, max, f);
      FiringTimes(d2, pressure, comp, total, min, max, g);
      WidestFits(pressure, comp, total, min, max);
      MicrosecondsMonotone(total, f, g, Widest(pressure, comp, total, max));
    }
  }

  lemma FractionMonotone(d1: real, d2: real, pressure: nat, comp: bool, total: nat, min: nat, max: nat)
    requires total > 0 && d1 <= d2
    ensures Fraction(d1, pressure, comp, total, min, max) <= Fraction(d2, pressure, comp, total, min, max)
    ensures Fires(d1, total, min, max) ==> Fires(d2, total, min, max)
  {
    var hi := max as real / total as real;
    if pressure > 0 { DivMonotone(Limited(d1, hi), Limited(d2, hi), DepthCoefficient(pressure)); }
  }

  /** Deeper never gives a longer firing, as long as the pressure is known. */
  lemma OnTimeAntitoneInPressure(duty: real, p1: nat, p2: nat, comp: bool, total: nat, min: nat, max: nat)
    requires Fits(total, min, max) && 0 < p1 <= p2 && StretchFits(p1, comp, max)
    ensures FireTiming(duty, p2, comp, total, min, max).onUs <= FireTiming(duty, p1, comp, total, min, max).onUs
  {
    if Fires(duty, total, min, max) {
      var f, g := Fraction(duty, p2, comp, total, min, max), Fraction(duty, p1, comp, total, min, max);
      FractionAntitone(duty, p1, p2, comp, total, min, max);
      FractionBounds(duty, p1, comp, total, min, max);
      FractionBounds(duty, p2, comp, total, min, max);
      FiringTimes(duty, p2, comp, total, min, max, f);
      FiringTimes(duty, p1, comp, total, min, max, g);
      WidestFits(p1, comp, total, min, max);
      MicrosecondsMonotone(total, f, g, Widest(p1, comp, total, max));
    }
  }

  lemma FractionAntitone(duty: real, p1: nat, p2: nat, comp: bool, total: nat, min: nat, max: nat)
    requires Fits(total, min, max) && 0 < p1 <= p2
    ensures Fraction(duty, p2, comp, total, min, max) <= Fraction(duty, p1, comp, total, min, max)
  {
    DivAntitone(Limited(duty, max as real / total as real), DepthCoefficient(p1), DepthCoefficient(p2));
  }

  /** The solenoid fires exactly when the request is at least the minimum share of the cycle. */
  lemma FiresIff(duty: real, pressure: nat, comp: bool, total: nat, min: nat, max: nat)
    requires 0 < min <= max && total > 0
    ensures FireTiming(duty, pressure, comp, total, min, max).fire <==> duty >= min as real / total as real
  {
    DivPositive(min as real, total as real);
    DivMonotone(min as real, max as real, total as real);
  }

  /** What the depth compensation is for: a duty between the limits opens for the duty's share of
      the cycle, divided by the pressure in bar and raised to the minimum. `x` is that time in
      microseconds, before rounding. */
  lemma OnTimeIsCompensated(duty: real, pressure: nat, total: nat, min: nat, max: nat, x: real)
    requires Fits(total, min, max) && StretchFits(pressure, true, max) && pressure > 0
    requires min as real / total as real <= duty <= max as real / total as real
    requires pressure as real * x == total as real * 1000.0 * duty * 1000.0
    ensures FireTiming(duty, pressure, true, total, min, max).onUs ==
      if x < (min * 1000) as real then min * 1000 else Round(x)
  {
    var t, f := total as real, duty / DepthCoefficient(pressure);
    DivMul(duty, DepthCoefficient(pressure));
    SliceOfQuotient(t, duty, pressure as real, f, x);
    SliceAgainst(t, f, min as real / t, x, min as real);
    CompensatedTime(duty, pressure, total, min, max, f, x);
  }

  lemma CompensatedTime(duty: real, pressure: nat, total: nat, min: nat, max: nat, f: real, x: real)
    requires Fits(total, min, max) && StretchFits(pressure, true, max) && pressure > 0
    requires min as real / total as real <= duty <= max as real / total as real
    requires f == duty / DepthCoefficient(pressure) && x == total as real * 1000.0 * f
    ensures FireTiming(duty, pressure, true, total, min, max).onUs ==
      if f < min as real / total as real then min * 1000 else Round(x)
  {
    var g := Fraction(duty, pressure, true, total, min, max);
    CompensatedFraction(duty, pressure, total, min, max, f, g);
    FiringTimes(duty, pressure, true, total, min, max, g);
    if f < min as real / total as real {
      WholeMilliseconds(total, min);
    } else {
      CompensatedSlice(duty, pressure, total, min, max, f, x);
    }
  }

  lemma CompensatedFraction(duty: real, pressure: nat, total: nat, min: nat, max: nat, f: real, g: real)
    requires Fits(total, min, max) && pressure > 0
    requires min as real / total as real <= duty <= max as real / total as real
    requires f == duty / DepthCoefficient(pressure) && g == Fraction(duty, pressure, true, total, min, max)
    ensures Fires(duty, total, min, max)
    ensures g == if f < min as real / total as real then min as real / total as real else f
  {
    DivPositive(min as real, total as real);
  }

  lemma CompensatedSlice(duty: real, pressure: nat, total: nat, min: nat, max: nat, f: real, x: real)
    requires Fits(total, min, max) && StretchFits(pressure, true, max) && Fires(duty, total, min, max)
    requires f == Fraction(duty, pressure, true, total, min, max) && x == total as real * 1000.0 * f
    ensures Microseconds(total, f) == Round(x)
  {
    var w := Widest(pressure, true, total, max);
    FractionBounds(duty, pressure, true, total, min, max);
    WidestFits(pressure, true, total, min, max);
    SliceMonotone(total as real * 1000.0, f, w, x, total as real * 1000.0 * w);
    MulMonotone(total as real * 1000.0, 0.0, f);
    SliceRounds(total, f, x);
  }

  lemma SliceOfQuotient(t: real, duty: real, p: real, f: real, x: real)
    requires p > 0.0 && p / 1000.0 * f == duty && p * x == t * 1000.0 * duty * 1000.0
    ensures x == t * 1000.0 * f
  {
    var y := t * 1000.0 * f;
    assert p * f == 1000.0 * duty;
    assert p * y == t * 1000.0 * (p * f);
    assert p * (x - y) == 0.0;
  }

  /** The slice is below the minimum exactly when its fraction is. */
  lemma SliceAgainst(t: real, f: real, lo: real, x: real, min: real)
    requires t > 0.0 && x == t * 1000.0 * f && lo == min / t && min >= 0.0
    ensures f < lo <==> x < min * 1000.0
  {
    DivMul(min, t);
    WholeSlice(t, lo, min);
    if f < lo {
      MulPositive(t * 1000.0, lo - f);
    } else {
      MulMonotone(t * 1000.0, lo, f);
    }
  }

  /** Without compensation, or without a pressure, a duty between the limits opens for its share. */
  lemma OnTimeIsShare(duty: real, pressure: nat, comp: bool, total: nat, min: nat, max: nat)
    requires Fits(total, min, max) && (!comp || pressure == 0)
    requires min as real / total as real <= duty <= max as real / total as real
    ensures FireTiming(duty, pressure, comp, total, min, max).onUs == Round(total as real * 1000.0 * duty)
  {
    DivPositive(min as real, total as real);
    DivAtMostOne(max as real, total as real);
    FiringTimes(duty, pressure, comp, total, min, max, duty);
    var x := NoWrap(total, duty);
  }

  // ---- Where the maximum and the cycle hold ----

  /** The request for the whole limit opens for the widest slice. */
  lemma WidestRequest(pressure: nat, comp: bool, total: nat, min: nat, max: nat)
    requires Fits(total, min, max) && !CannotRaise(pressure, comp)
    ensures var top := max as real / total as real;
      && Fires(top, total, min, max)
      && Fraction(top, pressure, comp, total, min, max) == Widest(pressure, comp, total, max)
  {
    var top := max as real / total as real;
    DivMonotone(min as real, max as real, total as real);
    DivPositive(min as real, total as real);
    DivAntitone(top, DepthCoefficient(pressure), 1.0);
  }

  /** The maximum holds for every requested duty exactly where the compensation cannot raise it. */
  lemma MaximumHoldsIff(pressure: nat, comp: bool, total: nat, min: nat, max: nat)
    requires Fits(total, min, max) && StretchFits(pressure, comp, max)
    ensures (forall duty: real :: FireTiming(duty, pressure, comp, total, min, max).onUs <= max * 1000)
        <==> CannotRaise(pressure, comp)
  {
    if CannotRaise(pressure, comp) {
      forall duty: real
        ensures FireTiming(duty, pressure, comp, total, min, max).onUs <= max * 1000
      {
        FiringIsWithinLimits(duty, pressure, comp, total, min, max);
      }
    } else {
      WidestOverMaximum(pressure, comp, total, min, max);
    }
  }

  lemma WidestOverMaximum(pressure: nat, comp: bool, total: nat, min: nat, max: nat)
    requires Fits(total, min, max) && StretchFits(pressure, comp, max) && !CannotRaise(pressure, comp)
    ensures FireTiming(max as real / total as real, pressure, comp, total, min, max).onUs > max * 1000
  {
    WidestRequest(pressure, comp, total, min, max);
    FiringTimes(max as real / total as real, pressure, comp, total, min, max, Widest(pressure, comp, total, max));
    WidestMicroseconds(pressure, comp, total, min, max);
  }

  lemma WidestMicroseconds(pressure: nat, comp: bool, total: nat, min: nat, max: nat)
    requires Fits(total, min, max) && StretchFits(pressure, comp, max) && !CannotRaise(pressure, comp)
    ensures var w := Widest(pressure, comp, total, max);
      && Microseconds(total, w) > max * 1000
      && (max * 1000 > pressure * total ==> Microseconds(total, w) + Microseconds(total, 1.0 - w) == total * 1000 + U32)
  {
    var x := WidestSlice(pressure, comp, total, min, max);
    WidestAgainstCycle(x, pressure, total, max);
    LongSlice(total, max, Widest(pressure, comp, total, max), x);
  }

  lemma LongSlice(total: nat, max: nat, w: real, x: real)
    requires x == total as real * 1000.0 * w && (max * 1000) as real + 1.0 <= x < U32 as real - 1.0
    ensures Microseconds(total, w) > max * 1000
    ensures x > (total * 1000) as real + 1.0 ==>
      Microseconds(total, w) + Microseconds(total, 1.0 - w) == total * 1000 + U32
  {
    SliceRounds(total, w, x);
    RoundAtLeast(x, max * 1000 + 1);
    if x > (total * 1000) as real + 1.0 { OverrunWraps(total, w, x); }
  }

  /** Whether the widest slice is longer than the cycle. */
  lemma WidestAgainstCycle(x: real, pressure: nat, total: nat, max: nat)
    requires 0 < pressure < 1000 && pressure as real * x == max as real * 1000000.0
    ensures max * 1000 <= pressure * total ==> x <= (total * 1000) as real
    ensures max * 1000 > pressure * total ==> x > (total * 1000) as real + 1.0
  {
    var p, cycle := pressure as real, (total * 1000) as real;
    assert p * cycle == (pressure * total * 1000) as real by { AsProduct(pressure, total); }
    if max * 1000 <= pressure * total {
      Cancel(p, x, cycle, max as real * 1000000.0, (pressure * total * 1000) as real);
    } else {
      assert max * 1000 >= pressure * total + 1;
      assert p * (cycle + 1.0) == p * cycle + p;
      CancelStrict(p, cycle + 1.0, x, (pressure * total * 1000) as real + p, max as real * 1000000.0);
    }
  }

  lemma AsProduct(pressure: nat, total: nat)
    ensures pressure as real * (total * 1000) as real == (pressure * total * 1000) as real
  {
    assert pressure * (total * 1000) == pressure * total * 1000;
    RealProduct(pressure, total * 1000);
  }

  lemma {:induction false} RealProduct(a: nat, b: nat)
    ensures a as real * b as real == (a * b) as real
  {
    if a > 0 {
      RealProduct(a - 1, b);
      assert a * b == (a - 1) * b + b;
      assert a as real * b as real == (a - 1) as real * b as real + b as real;
    }
  }

  /** A slice longer than the cycle leaves a negative closed time, which wraps round. */
  lemma OverrunWraps(total: nat, f: real, x: real)
    requires x == total as real * 1000.0 * f && (total * 1000) as real + 1.0 < x < U32 as real - 1.0
    ensures Round(x) + Microseconds(total, 1.0 - f) == total * 1000 + U32
  {
    Complement(total as real * 1000.0, f);
    var y := total as real * 1000.0 * (1.0 - f);
    assert y == (total * 1000) as real - x;
    NegativeRound(x, total * 1000);
  }

  lemma NegativeRound(x: real, cycle: nat)
    requires cycle as real + 1.0 < x < U32 as real - 1.0
    ensures Round(x) + Round(cycle as real - x) % U32 == cycle + U32
  {
    var n := Round(x - cycle as real);
    assert Round(cycle as real - x) == -n && 1 <= n < U32 && Round(x) == cycle + n;
    assert -n % U32 == U32 - n;
  }

  /** For every duty the cycle adds up exactly where the compensated limit does not overrun it. */
  lemma CycleAddsUpIff(pressure: nat, comp: bool, total: nat, min: nat, max: nat)
    requires Fits(total, min, max) && StretchFits(pressure, comp, max)
    ensures (forall duty: real :: AddsUp(FireTiming(duty, pressure, comp, total, min, max), total))
        <==> CannotRaise(pressure, comp) || max * 1000 <= pressure * total
  {
    if CannotRaise(pressure, comp) || max * 1000 <= pressure * total {
      forall duty: real
        ensures AddsUp(FireTiming(duty, pressure, comp, total, min, max), total)
      {
        CycleAddsUp(duty, pressure, comp, total, min, max);
      }
    } else {
      WidestDoesNotAddUp(pressure, comp, total, min, max);
    }
  }

  lemma WidestDoesNotAddUp(pressure: nat, comp: bool, total: nat, min: nat, max: nat)
    requires Fits(total, min, max) && StretchFits(pressure, comp, max)
    requires !CannotRaise(pressure, comp) && max * 1000 > pressure * total
    ensures !AddsUp(FireTiming(max as real / total as real, pressure, comp, total, min, max), total)
  {
    WidestRequest(pressure, comp, total, min, max);
    FiringTimes(max as real / total as real, pressure, comp, total, min, max, Widest(pressure, comp, total, max));
    WidestMicroseconds(pressure, comp, total, min, max);
  }

  lemma CycleAddsUp(duty: real, pressure: nat, comp: bool, total: nat, min: nat, max: nat)
    requires Fits(total, min, max) && StretchFits(pressure, comp, max)
    requires CannotRaise(pressure, comp) || max * 1000 <= pressure * total
    ensures AddsUp(FireTiming(duty, pressure, comp, total, min, max), total)
  {
    FiringIsWithinLimits(duty, pressure, comp, total, min, max);
    if !CannotRaise(pressure, comp) && Fires(duty, total, min, max) {
      var f := Fraction(duty, pressure, comp, total, min, max);
      WidestIsAtMostWhole(pressure, comp, total, min, max);
      FractionBounds(duty, pressure, comp, total, min, max);
      FiringTimes(duty, pressure, comp, total, min, max, f);
      SplitAddsUp(total, f);
    }
  }

  lemma WidestIsAtMostWhole(pressure: nat, comp: bool, total: nat, min: nat, max: nat)
    requires Fits(total, min, max) && StretchFits(pressure, comp, max)
    requires !CannotRaise(pressure, comp) && max * 1000 <= pressure * total
    ensures Widest(pressure, comp, total, max) <= 1.0
  {
    var widest := WidestSlice(pressure, comp, total, min, max);
    WidestAgainstCycle(widest, pressure, total, max);
    AtMostWhole(total as real * 1000.0, Widest(pressure, comp, total, max), widest);
  }

  lemma AtMostWhole(c: real, f: real, x: real)
    requires c > 0.0 && x == c * f && x <= c
    ensures f <= 1.0
  {
    Cancel(c, f, 1.0, x, c);
  }

  /** The firmware's limits, 100 and 4900 ms of a 5 s cycle, at 900 mbar: the widest request opens
      for 5.44 s, and the wrapped closed time is over 71 minutes. */
  lemma AltitudeOverruns()
    ensures FireTiming(0.98, 900, true, 5000, 100, 4900) == Timing(true, false, 5444444, 4294522852)
  {
    assert 4900.0 / 5000.0 == 0.98 && 100.0 / 5000.0 == 0.02;
    assert DepthCoefficient(900) == 0.9;
    var f := Fraction(0.98, 900, true, 5000, 100, 4900);
    assert f == 0.98 / 0.9;
    var x := 5000.0 * 1000.0 * f;
    assert 5444444.4 < x < 5444444.5 && Round(x) == 5444444;
    var y := 5000.0 * 1000.0 * (1.0 - f);
    assert -444444.5 < y < -444444.4 && Round(y) == -444444;
  }
}
