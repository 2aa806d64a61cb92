/** The statistics counters of initCounterAnimations: when a counter scrolls
    into view, its text counts up from 0 to its `data-target` value over
    about 2000 ms at one step per 16 ms frame, then shows the target itself.
    Each requestAnimationFrame callback becomes one loop iteration, and the
    text it sets becomes one element of the returned sequence. */
module StatCounter {

  /** Animation length and frame period in milliseconds. */
  const Duration: real := 2000.0
  const FramePeriod: real := 16.0

  /** Number of steps from 0 to the target: 2000 / 16. */
  const Steps: nat := 125

  /** The text a frame sets: a floored intermediate value, or the target. */
  datatype Display = Partial(value: int) | Final(target: real)

  /** The value shown on frame k (counted from 1) while still below target. */
  function Shown(target: real, k: nat): int {
    ((k as real) * (target / (Duration / FramePeriod))).Floor
  }

  /** Values shown are nondecreasing from frame to frame when counting up. */
  lemma ShownMonotone(target: real, j: nat, k: nat)
    requires 0.0 <= target && j <= k
    ensures Shown(target, j) <= Shown(target, k)
  {
  }

  /** A step is one 125th of the target, so for a positive target n steps
      stay below it exactly when n < 125. */
  lemma StepsBelowTarget(target: real, n: nat)
    requires target > 0.0
    ensures 0.0 <= (n as real) * (target / (Duration / FramePeriod))
    ensures (n as real) * (target / (Duration / FramePeriod)) < target <==> n < Steps
  {
  }

  /** The whole animation of one counter: the texts set by updateCounter
      frame after frame until it stops asking for frames. A positive target
      takes 125 frames: 124 floored values, each in [0, target) and none
      smaller than the one before, then the target. A target of 0 or below
      is shown at once. */
  method AnimateCounter(target: real) returns (texts: seq<Display>)
    ensures target <= 0.0 ==> texts == [Final(target)]
    ensures target > 0.0 ==> |texts| == Steps && texts[Steps - 1] == Final(target)
    ensures target > 0.0 ==> forall k :: 0 <= k < Steps - 1 ==>
      texts[k] == Partial(Shown(target, k + 1)) && 0 <= texts[k].value && (texts[k].value as real) < target
    ensures forall j, k :: 0 <= j < k < |texts| - 1 ==> texts[j].value <= texts[k].value
  {
    var step := target / (Duration / FramePeriod);
    var current := 0.0;
    var frames: nat := 0;
    var running := true;
    texts := [];
    while running
      invariant frames == |texts| <= Steps
      invariant current == (frames as real) * step
      invariant target <= 0.0 ==> (running <==> frames == 0)
      invariant target <= 0.0 && !running ==> texts == [Final(target)]
      invariant target > 0.0 && !running ==> frames == Steps && texts[Steps - 1] == Final(target)
      invariant target > 0.0 && running ==> frames < Steps
      invariant target > 0.0 ==> forall k :: 0 <= k < frames && (running || k < frames - 1) ==>
        texts[k] == Partial(Shown(target, k + 1)) && 0 <= texts[k].value && (texts[k].value as real) < target
      decreases Steps - frames + (if running then 1 else 0)
    {
      current := current + step;
      frames := frames + 1;
      if target > 0.0 {
        StepsBelowTarget(target, frames);
      } else {
        assert Duration / FramePeriod == 125.0;
        assert current == step >= target;
      }
      if current < target {
        texts := texts + [Partial(current.Floor)];
      } else {
        texts := texts + [Final(target)];
        running := false;
      }
    }
    forall j, k | 0 <= j < k < |texts| - 1 ensures texts[j].value <= texts[k].value {
      ShownMonotone(target, j + 1, k + 1);
    }
  }
}
