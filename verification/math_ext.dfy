/** `Math.clamp` (src/scripts/utils/extensions/math.ts), over exact reals. */
module MathExt {

  /** `Math.min(Math.max(value, min), max)`: the upper bound is applied last, so
      it always wins, even over a lower bound above it. */
  function Clamp(value: real, min: real, max: real): (r: real)
    ensures r <= max
    ensures min <= max ==> min <= r
    ensures min <= value <= max ==> r == value
    ensures value < min <= max ==> r == min
    ensures min <= max < value ==> r == max
    ensures min > max ==> r == max
  {
    var atLeast := if value >= min then value else min;
    if atLeast <= max then atLeast else max
  }

  function Abs(x: real): real {
    if x < 0.0 then -x else x
  }

  /** For a proper range, the clamped value is the point of `[min, max]`
      nearest to the input. */
  lemma ClampNearest(value: real, min: real, max: real, y: real)
    requires min <= max && min <= y <= max
    ensures Abs(Clamp(value, min, max) - value) <= Abs(y - value)
  {
  }

  /** Clamping twice to the same range is clamping once. */
  lemma ClampIdempotent(value: real, min: real, max: real)
    ensures Clamp(Clamp(value, min, max), min, max) == Clamp(value, min, max)
  {
  }

  /** The cases of the repository's tests. */
  lemma ClampExamples()
    ensures Clamp(5.0, 0.0, 10.0) == 5.0 && Clamp(-5.0, 0.0, 10.0) == 0.0 && Clamp(15.0, 0.0, 10.0) == 10.0
    ensures Clamp(0.0, 0.0, 10.0) == 0.0 && Clamp(10.0, 0.0, 10.0) == 10.0
    ensures Clamp(-5.0, -10.0, -1.0) == -5.0 && Clamp(-15.0, -10.0, -1.0) == -10.0 && Clamp(0.0, -10.0, -1.0) == -1.0
    ensures Clamp(0.5, 0.0, 1.0) == 0.5 && Clamp(1.5, 0.0, 1.0) == 1.0 && Clamp(-0.5, 0.0, 1.0) == 0.0
  {
  }
}
