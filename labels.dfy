/**
 * `insert_ones`: mark the per-step label vector with ones from step 0 up to
 * and including the step at which the AF episode ends.
 */
module Labels {
  import opened Util

  /** Samples of a normalised recording (the denominator of the unit conversion). */
  const SignalSamples := 15000

  /** Steps of the label vector the 15000 samples are mapped onto. */
  const LabelSteps := 1000

  /** Python's `int(a / b)` for an exact quotient: truncation toward zero. */
  function TruncDiv(a: int, b: nat): int
    requires b > 0
  {
    if a >= 0 then a / b else -((-a) / b)
  }

  /** `end_step_y`: the AF end offset converted from input samples to label steps. */
  function OutputStep(endStepX: int): (r: int)
    ensures 0 <= endStepX ==> 0 <= r <= endStepX
    ensures endStepX < 0 ==> endStepX <= r <= 0
  {
    TruncDiv(endStepX * LabelSteps, SignalSamples)
  }

  /** For a non-negative offset the conversion is plain division by 15 (rounded down). */
  lemma OutputStepOfNonNegative(endStepX: int)
    requires endStepX >= 0
    ensures OutputStep(endStepX) == endStepX / 15
  {
  }

  /** For a negative offset the truncation mirrors the non-negative case. */
  lemma OutputStepOfNegative(endStepX: int)
    requires endStepX < 0
    ensures OutputStep(endStepX) == -((-endStepX) / 15)
  {
  }

  /**
   * Because `int()` truncates toward zero, an offset between -14 and -1 still
   * converts to step 0, so `insert_ones` marks index 0 for it.
   */
  lemma SmallNegativeOffsetIsStepZero(endStepX: int)
    requires -15 < endStepX < 0
    ensures OutputStep(endStepX) == 0
  {
  }

  /** A later end offset never converts to an earlier label step. */
  lemma OutputStepMonotone(a: int, b: int)
    requires a <= b
    ensures OutputStep(a) <= OutputStep(b)
  {
  }

  /**
   * The label vector after `insert_ones(y, endStepX)`: every index from 0 to
   * `OutputStep(endStepX)` that lies inside `y` holds 1, the rest keep their value.
   */
  function Marked(y: seq<int>, endStepX: int): (r: seq<int>)
    ensures |r| == |y|
    ensures forall i :: 0 <= i < |y| ==> r[i] == 1 || r[i] == y[i]
  {
    seq(|y|, i requires 0 <= i < |y| => if i <= OutputStep(endStepX) then 1 else y[i])
  }

  /** `n` copies of `v`. */
  function Repeat(v: int, n: nat): (r: seq<int>)
    ensures |r| == n && forall i :: 0 <= i < n ==> r[i] == v
  {
    if n == 0 then [] else [v] + Repeat(v, n - 1)
  }

  /**
   * Marking an all-zero vector gives a run of ones followed by zeros; the run
   * covers step 0 to the end step inclusive, clipped to the vector's length.
   */
  lemma MarkedZerosIsRunOfOnes(n: nat, endStepX: int)
    ensures var k := if OutputStep(endStepX) < 0 then 0 else Min(OutputStep(endStepX) + 1, n);
      Marked(Repeat(0, n), endStepX) == Repeat(1, k) + Repeat(0, n - k)
  {
  }

  /**
   * The boundary index itself is set to 1 (the function's own documentation
   * says it should stay 0; the loop includes it).
   */
  lemma MarkedSetsBoundary(y: seq<int>, endStepX: int)
    requires 0 <= OutputStep(endStepX) < |y|
    ensures Marked(y, endStepX)[OutputStep(endStepX)] == 1
    ensures OutputStep(endStepX) + 1 < |y| ==>
      Marked(y, endStepX)[OutputStep(endStepX) + 1] == y[OutputStep(endStepX) + 1]
  {
  }

  /** Marking twice with the same offset is the same as marking once. */
  lemma MarkedIdempotent(y: seq<int>, endStepX: int)
    ensures Marked(Marked(y, endStepX), endStepX) == Marked(y, endStepX)
  {
  }

  /** Marking with two offsets is marking once with the later of the two. */
  lemma MarkedTwice(y: seq<int>, a: int, b: int)
    requires a <= b
    ensures Marked(Marked(y, a), b) == Marked(y, b)
    ensures Marked(Marked(y, b), a) == Marked(y, b)
  {
    OutputStepMonotone(a, b);
  }

  /**
   * `insert_ones` in place: the loop runs `i` over `0 .. end_step_y` inclusive,
   * writes only indices inside `y`, and leaves every other entry alone.
   */
  method InsertOnes(y: array<int>, endStepX: int)
    modifies y
    ensures y[..] == Marked(old(y[..]), endStepX)
    ensures forall i :: 0 <= i < y.Length ==>
      y[i] == if i <= OutputStep(endStepX) then 1 else old(y[i])
  {
    ghost var before := y[..];
    var endStepY := OutputStep(endStepX);
    var i := 0;
    while i < endStepY + 1
      invariant 0 <= i <= if endStepY >= 0 then endStepY + 1 else 0
      invariant forall k :: 0 <= k < y.Length ==> y[k] == if k < i then 1 else before[k]
    {
      if i < y.Length {
        y[i] := 1;
      }
      i := i + 1;
    }
    assert forall k :: 0 <= k < y.Length ==> y[..][k] == Marked(before, endStepX)[k];
  }
}
