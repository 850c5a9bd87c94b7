/**
 * `pipeline/gabor_tracker/utils.py`: `MovingAverage`, a running mean of the integer
 * durations the tracker times (nanosecond differences of `time.time_ns()`).
 */
module Utils {
  import opened Common

  /** `x1 + ... + xn`. */
  function Sum(xs: seq<int>): int {
    if |xs| == 0 then 0 else Sum(xs[..|xs| - 1]) + xs[|xs| - 1]
  }

  /** The mean of a non-empty sequence, as Python's true division `sum / count` gives it. */
  function Mean(xs: seq<int>): real
    requires |xs| > 0
  {
    Sum(xs) as real / |xs| as real
  }

  /** A sum of `n` values between `lo` and `hi` lies between `n * lo` and `n * hi`. */
  lemma {:induction false} SumBounds(xs: seq<int>, lo: int, hi: int)
    requires forall i :: 0 <= i < |xs| ==> lo <= xs[i] <= hi
    ensures |xs| * lo <= Sum(xs) <= |xs| * hi
  {
    if |xs| > 0 {
      SumBounds(xs[..|xs| - 1], lo, hi);
      assert |xs| * lo == (|xs| - 1) * lo + lo;
      assert |xs| * hi == (|xs| - 1) * hi + hi;
    }
  }

  /** A quotient by a positive divisor keeps the bounds its dividend has as multiples of it. */
  lemma QuotientBounds(s: real, n: real, lo: real, hi: real)
    requires n > 0.0 && n * lo <= s <= n * hi
    ensures lo <= s / n <= hi
  {
    var q := s / n;
    assert q * n == s;
    assert (q - lo) * n == s - n * lo;
    assert (hi - q) * n == n * hi - s;
    ProductSign(q - lo, n);
    ProductSign(hi - q, n);
  }

  /** Converting a product of integers to a real multiplies the converted factors. */
  lemma RealProduct(n: int, a: int)
    ensures (n * a) as real == n as real * a as real
  {
  }

  /** The mean lies between any lower and upper bound of the values averaged. */
  lemma MeanBounds(xs: seq<int>, lo: int, hi: int)
    requires |xs| > 0
    requires forall i :: 0 <= i < |xs| ==> lo <= xs[i] <= hi
    ensures lo as real <= Mean(xs) <= hi as real
  {
    SumBounds(xs, lo, hi);
    RealProduct(|xs|, lo);
    RealProduct(|xs|, hi);
    QuotientBounds(Sum(xs) as real, |xs| as real, lo as real, hi as real);
  }

  /**
   * `MovingAverage`: the running `sum` and `count` of the values passed to `update`. The
   * values themselves are not stored by the source; `samples` records them for the contracts.
   */
  class MovingAverage {
    var sum: int
    var count: nat
    ghost var samples: seq<int>

    /** `sum` and `count` are the sum and the number of the values seen so far. */
    ghost predicate Valid()
      reads this
    {
      sum == Sum(samples) && count == |samples|
    }

    /** `__init__`: nothing seen yet, `sum = 0` and `count = 0`. */
    constructor()
      ensures Valid() && samples == []
      ensures sum == 0 && count == 0
    {
      sum, count := 0, 0;
      samples := [];
    }

    /** `update(x)`: add `x` and return the mean of everything seen, including `x`. */
    method Update(x: int) returns (mean: real)
      requires Valid()
      modifies this
      ensures Valid() && samples == old(samples) + [x]
      ensures sum == old(sum) + x && count == old(count) + 1
      ensures mean == Mean(samples)
    {
      samples := samples + [x];
      assert samples[..|samples| - 1] == old(samples);
      sum := sum + x;
      count := count + 1;
      mean := sum as real / count as real;
    }

    /**
     * `get()`: the mean of everything seen. `sum / count` raises `ZeroDivisionError` while
     * nothing has been seen; it changes no state, so right after `update` it returns the
     * value `update` returned.
     */
    method Get() returns (r: Result<real>)
      requires Valid()
      ensures count == 0 <==> r == Err(ZeroDivisionError)
      ensures r.Ok? ==> |samples| > 0 && r.value == Mean(samples)
    {
      if count == 0 {
        return Err(ZeroDivisionError);
      }
      return Ok(sum as real / count as real);
    }
  }
}
