/** The size arithmetic of `get_train_test_split` (the random permutation itself is not modelled). */
module Split {

  /** Python's `int(x)` on a number: truncation toward zero. */
  function Trunc(x: real): (r: int)
    ensures 0.0 <= x ==> r as real <= x < r as real + 1.0
    ensures x < 0.0 ==> r as real - 1.0 < x <= r as real
  {
    if x >= 0.0 then x.Floor else -((-x).Floor)
  }

  /** The three subset sizes handed to `random_split`. */
  datatype Sizes = Sizes(train: int, val: int, test: int)

  /**
   * `m_train = int(percent_train * n)`, `m_val = int(percent_val * n)` and the
   * test set takes the rest, so the sizes always add up to the dataset length.
   */
  function SplitSizes(n: nat, percentTrain: real, percentVal: real): (s: Sizes)
    ensures s.train + s.val + s.test == n
  {
    var mTrain := Trunc(percentTrain * n as real);
    var mVal := Trunc(percentVal * n as real);
    Sizes(mTrain, mVal, n - mTrain - mVal)
  }

  /** The product of two non-negative reals is non-negative (a step of `TruncOfShare` and `SplitSizesNonNegative`). */
  lemma ProductNonNegative(a: real, b: real)
    requires 0.0 <= a && 0.0 <= b
    ensures 0.0 <= a * b
  {
  }

  /** For fractions in [0, 1] the truncated size of a part lies within one of its exact share. */
  lemma TruncOfShare(p: real, n: nat)
    requires 0.0 <= p <= 1.0
    ensures 0 <= Trunc(p * n as real) <= n
    ensures Trunc(p * n as real) as real <= p * n as real < Trunc(p * n as real) as real + 1.0
  {
    var m := n as real;
    var x := p * m;
    ProductNonNegative(1.0 - p, m);
    assert (1.0 - p) * m == m - x;
    ProductNonNegative(p, m);
    var f := x.Floor;
    assert Trunc(x) == f;
    assert f as real <= x < f as real + 1.0;
    assert f as real <= n as real;
  }

  /**
   * With non-negative fractions that add up to at most 1 every size is a
   * non-negative count, and each of train and validation is its share of `n`
   * rounded down.
   */
  lemma SplitSizesNonNegative(n: nat, percentTrain: real, percentVal: real)
    requires 0.0 <= percentTrain && 0.0 <= percentVal && percentTrain + percentVal <= 1.0
    ensures var s := SplitSizes(n, percentTrain, percentVal);
      0 <= s.train && 0 <= s.val && 0 <= s.test &&
      s.train as real <= percentTrain * n as real < s.train as real + 1.0 &&
      s.val as real <= percentVal * n as real < s.val as real + 1.0
  {
    var s := SplitSizes(n, percentTrain, percentVal);
    var a, b := percentTrain * n as real, percentVal * n as real;
    TruncOfShare(percentTrain, n);
    TruncOfShare(percentVal, n);
    assert a + b <= n as real by {
      assert a + b == (percentTrain + percentVal) * n as real;
      var m := n as real;
      ProductNonNegative(1.0 - (percentTrain + percentVal), m);
      assert (1.0 - (percentTrain + percentVal)) * m == m - (percentTrain + percentVal) * m;
    }
    assert s.train as real + s.val as real <= n as real;
  }

  /** The driver's 70/20 split of ten recordings is 7, 2 and 1. */
  lemma SplitOfTen()
    ensures SplitSizes(10, 0.7, 0.2) == Sizes(7, 2, 1)
  {
  }
}
