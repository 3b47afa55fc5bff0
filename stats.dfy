/**
 * Integer arithmetic over sequences shared by the locators and smoothers:
 * sums, extremes, the truncating mean that Python's `int(sum / len)` and
 * NumPy's `astype(np.uint8)` produce, and the first-maximum index that
 * `np.argmax` and `list.index(max(list))` return.
 */
module Stats {

  function Sum(s: seq<int>): int
  {
    if s == [] then 0 else s[0] + Sum(s[1..])
  }

  function Min(s: seq<int>): (m: int)
    requires |s| > 0
    ensures forall i :: 0 <= i < |s| ==> m <= s[i]
    ensures exists i :: 0 <= i < |s| && s[i] == m
  {
    if |s| == 1 then s[0]
    else
      var rest := Min(s[1..]);
      assert forall i :: 1 <= i < |s| ==> s[i] == s[1..][i - 1];
      if s[0] <= rest then s[0] else rest
  }

  function Max(s: seq<int>): (m: int)
    requires |s| > 0
    ensures forall i :: 0 <= i < |s| ==> s[i] <= m
    ensures exists i :: 0 <= i < |s| && s[i] == m
  {
    if |s| == 1 then s[0]
    else
      var rest := Max(s[1..]);
      assert forall i :: 1 <= i < |s| ==> s[i] == s[1..][i - 1];
      if s[0] >= rest then s[0] else rest
  }

  /**
   * Division that truncates toward zero, as Python's `int()` does to the
   * float quotient `a / n`. The result is the integer nearest to a / n on
   * the side of zero.
   */
  function TruncDiv(a: int, n: int): int
    requires n > 0
  {
    if a >= 0 then a / n else -((-a) / n)
  }

  /** TruncDiv(a, n) is a / n rounded toward zero. */
  lemma TruncDivRounds(a: int, n: int)
    requires n > 0
    ensures var q := TruncDiv(a, n);
      (a >= 0 ==> 0 <= q && q * n <= a < q * n + n) &&
      (a < 0 ==> q <= 0 && q * n - n < a <= q * n)
  {
  }

  /** `int(sum(s) / len(s))`. */
  function TruncMean(s: seq<int>): int
    requires |s| > 0
  {
    TruncDiv(Sum(s), |s|)
  }

  /** Every element at least lo: the sum is at least |s| * lo. */
  lemma {:induction false} SumAtLeast(s: seq<int>, lo: int)
    requires forall i :: 0 <= i < |s| ==> lo <= s[i]
    ensures |s| * lo <= Sum(s)
  {
    if s != [] {
      SumAtLeast(s[1..], lo);
      assert |s| * lo == lo + (|s| - 1) * lo;
    }
  }

  /** Every element at most hi: the sum is at most |s| * hi. */
  lemma {:induction false} SumAtMost(s: seq<int>, hi: int)
    requires forall i :: 0 <= i < |s| ==> s[i] <= hi
    ensures Sum(s) <= |s| * hi
  {
    if s != [] {
      SumAtMost(s[1..], hi);
      assert |s| * hi == hi + (|s| - 1) * hi;
    }
  }

  /** Cancelling a positive factor preserves <=. */
  lemma MulLeCancel(x: int, y: int, n: int)
    requires n > 0
    requires x * n <= y * n
    ensures x <= y
  {
    assert (y - x) * n == y * n - x * n;
  }

  /** Cancelling a positive factor preserves <. */
  lemma MulLtCancel(x: int, y: int, n: int)
    requires n > 0
    requires x * n < y * n
    ensures x < y
  {
    assert (y - x) * n == y * n - x * n;
  }

  /** If lo*n <= a <= hi*n, truncating a / n stays within [lo, hi]. */
  lemma TruncDivBetween(a: int, n: int, lo: int, hi: int)
    requires n > 0
    requires lo * n <= a <= hi * n
    ensures lo <= TruncDiv(a, n) <= hi
  {
    var q := TruncDiv(a, n);
    TruncDivRounds(a, n);
    if a >= 0 {
      assert q * n <= hi * n;
      MulLeCancel(q, hi, n);
      assert lo * n < (q + 1) * n by {
        assert (q + 1) * n == q * n + n;
      }
      MulLtCancel(lo, q + 1, n);
    } else {
      assert lo * n <= q * n;
      MulLeCancel(lo, q, n);
      assert (q - 1) * n < hi * n by {
        assert (q - 1) * n == q * n - n;
      }
      MulLtCancel(q - 1, hi, n);
    }
  }

  /**
   * The truncated mean of a non-empty sequence lies between its smallest
   * and its largest element.
   */
  lemma MeanBetween(s: seq<int>)
    requires |s| > 0
    ensures Min(s) <= TruncMean(s) <= Max(s)
  {
    SumAtLeast(s, Min(s));
    SumAtMost(s, Max(s));
    TruncDivBetween(Sum(s), |s|, Min(s), Max(s));
  }

  /** The mean of equal values is that value. */
  lemma MeanOfConstant(s: seq<int>, v: int)
    requires |s| > 0
    requires forall i :: 0 <= i < |s| ==> s[i] == v
    ensures TruncMean(s) == v
  {
    MeanBetween(s);
  }

  /**
   * The index of the first maximum of `s`: every element is at most s[k],
   * and every element before k is strictly smaller.
   */
  function ArgMax(s: seq<int>): (k: nat)
    requires |s| > 0
    ensures k < |s|
    ensures forall j :: 0 <= j < |s| ==> s[j] <= s[k]
    ensures forall j :: 0 <= j < k ==> s[j] < s[k]
  {
    if |s| == 1 then 0
    else
      var k' := ArgMax(s[..|s| - 1]);
      assert forall j :: 0 <= j < |s| - 1 ==> s[..|s| - 1][j] == s[j];
      if s[|s| - 1] > s[k'] then |s| - 1 else k'
  }

  /** The first maximum is unique: any index with the ArgMax properties is it. */
  lemma ArgMaxUnique(s: seq<int>, k: nat)
    requires k < |s|
    requires forall j :: 0 <= j < |s| ==> s[j] <= s[k]
    requires forall j :: 0 <= j < k ==> s[j] < s[k]
    ensures ArgMax(s) == k
  {
  }

  /** A sequence of all-equal values has its first maximum at index 0. */
  lemma ArgMaxOfConstant(s: seq<int>, v: int)
    requires |s| > 0
    requires forall j :: 0 <= j < |s| ==> s[j] == v
    ensures ArgMax(s) == 0
  {
  }

}
