/** ui/dashboard_ui.py: the counter animation of a StatCard. A new count
 *  is shown by stepping the displayed value towards it on every timer
 *  tick; the timer itself is the field `timerRunning`. */
module Dashboard {

  function Abs(x: int): nat
  {
    if x < 0 then -x else x
  }

  /** `a` and `b`, in either order, bound `x`. */
  predicate Between(x: int, a: int, b: int)
  {
    (a <= x <= b) || (b <= x <= a)
  }

  /** The animation step: a twentieth of the distance, at least 1. */
  function StepFor(start: int, end: int): (step: nat)
    ensures step >= 1
    ensures Abs(end - start) >= 20 ==> step * 20 <= Abs(end - start) < (step + 1) * 20
    ensures Abs(end - start) < 20 ==> step == 1
  {
    if Abs(end - start) / 20 > 1 then Abs(end - start) / 20 else 1
  }

  /** One tick of update_count_animation: move by `step` towards the
   *  target without passing it. */
  function Tick(current: int, target: int, step: nat): (next: int)
    requires step >= 1
    ensures Between(next, current, target)
    ensures current == target ==> next == target
    ensures current != target ==> Abs(next - target) < Abs(current - target)
    ensures Abs(next - target) == if Abs(current - target) <= step then 0 else Abs(current - target) - step
  {
    if current < target then (if current + step < target then current + step else target)
    else if current > target then (if current - step > target then current - step else target)
    else current
  }

  /** The number of ticks after which the displayed value equals the
   *  target, so the timer stops: the least n with n * step covering the
   *  distance. */
  function TicksToTarget(current: int, target: int, step: nat): (n: nat)
    requires step >= 1
    ensures n * step >= Abs(current - target)
    ensures n > 0 ==> (n - 1) * step < Abs(current - target)
    decreases Abs(current - target)
  {
    if current == target then 0
    else
      var next := Tick(current, target, step);
      var rest := TicksToTarget(next, target, step);
      assert (rest + 1) * step == rest * step + step;
      assert rest > 0 ==> rest * step == (rest - 1) * step + step;
      1 + rest
  }

  /** Applying `n` ticks. */
  function TickN(current: int, target: int, step: nat, n: nat): (r: int)
    requires step >= 1
    decreases n
  {
    if n == 0 then current else TickN(Tick(current, target, step), target, step, n - 1)
  }

  /** After TicksToTarget ticks the target is reached, and every value on
   *  the way lies between the start and the target. */
  lemma {:induction false} AnimationReachesTarget(current: int, target: int, step: nat, k: nat)
    requires step >= 1
    ensures TickN(current, target, step, TicksToTarget(current, target, step)) == target
    ensures Between(TickN(current, target, step, k), current, target)
    decreases Abs(current - target)
  {
    if current == target {
      TickNFixed(target, step, k);
    } else {
      var next := Tick(current, target, step);
      AnimationReachesTarget(next, target, step, if k == 0 then 0 else k - 1);
    }
  }

  /** Once at the target, ticking changes nothing. */
  lemma {:induction false} TickNFixed(target: int, step: nat, k: nat)
    requires step >= 1
    ensures TickN(target, target, step, k) == target
  {
    if k > 0 {
      TickNFixed(target, step, k - 1);
    }
  }

  /** Whatever the distance, an animation started by set_count is over
   *  after at most 40 ticks (two seconds at 50 ms a tick). */
  lemma AnimationIsShort(start: int, end: int)
    ensures TicksToTarget(start, end, StepFor(start, end)) <= 40
  {
    var step := StepFor(start, end);
    var n := TicksToTarget(start, end, step);
    var d := Abs(start - end);
    assert Abs(end - start) == d;
    // The distance is below 40 steps, and n - 1 steps fall short of it.
    if d < 20 {
      assert step == 1;
    } else {
      assert (step + 1) * 20 <= 40 * step;
    }
    if n > 0 {
      MulCancel(n - 1, 40, step);
    }
  }

  /** a * c < b * c with c positive means a < b. */
  lemma MulCancel(a: int, b: int, c: nat)
    requires c > 0 && a * c < b * c
    ensures a < b
  {
    if a >= b {
      MulMonotone(a, b, c);
    }
  }

  lemma MulMonotone(a: int, b: int, c: nat)
    requires a >= b
    ensures a * c >= b * c
  {
  }

  class StatCard {
    var countValue: int
    var currentValue: int
    var targetValue: int
    var animationStep: nat
    var timerRunning: bool
    /** The value the running animation started from. */
    ghost var animationStart: int

    /** The step is positive, the displayed value stays between the start
     *  and the target, and the timer only stops at the target. */
    ghost predicate Valid()
      reads this
    {
      && animationStep >= 1
      && Between(currentValue, animationStart, targetValue)
      && (!timerRunning ==> currentValue == targetValue)
    }

    constructor ()
      ensures Valid()
      ensures countValue == 0 && !timerRunning
    {
      countValue := 0;
      currentValue, targetValue := 0, 0;
      animationStep := 1;
      timerRunning := false;
      animationStart := 0;
    }

    /** animate_count_change: restart the animation from `startValue`. */
    method AnimateCountChange(startValue: int, endValue: int)
      modifies this`currentValue, this`targetValue, this`animationStep, this`timerRunning,
               this`animationStart
      ensures Valid()
      ensures currentValue == startValue && targetValue == endValue
      ensures animationStep == StepFor(startValue, endValue) && timerRunning
    {
      currentValue := startValue;
      targetValue := endValue;
      animationStep := if Abs(endValue - startValue) / 20 > 1 then Abs(endValue - startValue) / 20 else 1;
      timerRunning := true;
      animationStart := startValue;
    }

    /** set_count: an unchanged count does nothing; otherwise the animation
     *  starts from the old count and the count is the new one at once. */
    method SetCount(count: int)
      requires Valid()
      modifies this
      ensures Valid()
      ensures count == old(countValue) ==> unchanged(this)
      ensures count != old(countValue) ==>
                countValue == count && currentValue == old(countValue) && targetValue == count
                && animationStep == StepFor(old(countValue), count) && timerRunning
    {
      if count != countValue {
        AnimateCountChange(countValue, count);
        countValue := count;
      }
    }

    /** update_count_animation: one tick, and the timer stops exactly when
     *  the target is reached. */
    method UpdateCountAnimation()
      requires Valid()
      modifies this`currentValue, this`timerRunning
      ensures Valid()
      ensures currentValue == Tick(old(currentValue), targetValue, animationStep)
      ensures timerRunning == (old(timerRunning) && currentValue != targetValue)
      ensures old(currentValue) != targetValue ==>
                Abs(currentValue - targetValue) < Abs(old(currentValue) - targetValue)
    {
      if currentValue < targetValue {
        currentValue := if currentValue + animationStep < targetValue then currentValue + animationStep
                        else targetValue;
      } else if currentValue > targetValue {
        currentValue := if currentValue - animationStep > targetValue then currentValue - animationStep
                        else targetValue;
      }
      if currentValue == targetValue {
        timerRunning := false;
      }
    }
  }
}
