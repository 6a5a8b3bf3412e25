/** `np.linspace(start, stop, num)` with its default `endpoint=True`, on exact reals. */
module Extents {

  /** Consecutive entries of `r` are `step` apart. */
  ghost predicate EvenlySpaced(r: seq<real>, step: real) {
    forall k :: 0 <= k < |r| - 1 ==> r[k + 1] - r[k] == step
  }

  /** `num` evenly spaced samples from `lo` to `hi`: sample `k` is `lo + k * step` with
      `step = (hi - lo) / (num - 1)`, the last sample is set to `hi` itself, and a single
      sample is just `[lo]`. */
  function Linspace(lo: real, hi: real, num: nat): (r: seq<real>)
    ensures |r| == num
    ensures num >= 1 ==> r[0] == lo
    ensures num >= 2 ==> r[num - 1] == hi
    ensures num >= 2 ==> EvenlySpaced(r, (hi - lo) / (num - 1) as real)
  {
    if num <= 1 then
      seq(num, k requires 0 <= k < num => lo)
    else
      var step := (hi - lo) / (num - 1) as real;
      var r := seq(num, k requires 0 <= k < num => if k == num - 1 then hi else lo + k as real * step);
      LastStepReachesEnd(lo, hi, num);
      StepsAreEven(lo, hi, step, r);
      r
  }

  /** Samples `k` steps past `lo`, with the last one the end point that many steps reach,
      are evenly spaced. */
  lemma StepsAreEven(lo: real, hi: real, step: real, r: seq<real>)
    requires |r| >= 2
    requires forall k :: 0 <= k < |r| - 1 ==> r[k] == lo + k as real * step
    requires r[|r| - 1] == hi && lo + (|r| - 2) as real * step + step == hi
    ensures EvenlySpaced(r, step)
  {
    forall k | 0 <= k < |r| - 1
      ensures r[k + 1] - r[k] == step
    {
      assert (k + 1) as real * step == k as real * step + step;
    }
  }

  /** `num - 1` steps of `(hi - lo) / (num - 1)` lead from `lo` exactly to `hi`. */
  lemma LastStepReachesEnd(lo: real, hi: real, num: nat)
    requires num >= 2
    ensures lo + (num - 2) as real * ((hi - lo) / (num - 1) as real) + (hi - lo) / (num - 1) as real == hi
  {
    var step := (hi - lo) / (num - 1) as real;
    assert (num - 2) as real * step + step == (num - 1) as real * step;
    assert (num - 1) as real * step == hi - lo;
  }

  /** Sample `k` of `Linspace(lo, hi, num)` is `k` steps past `lo`, the last one included. */
  lemma SampleIsSteps(lo: real, hi: real, num: nat, k: int, step: real)
    requires num >= 2 && 0 <= k < num
    requires step == (hi - lo) / (num - 1) as real
    ensures Linspace(lo, hi, num)[k] == lo + k as real * step
  {
    assert (num - 1) as real * step == hi - lo;
  }

  /** On an ordered range the samples are ordered and stay inside `[lo, hi]`. */
  lemma LinspaceMonotone(lo: real, hi: real, num: nat, a: int, b: int)
    requires lo <= hi
    requires 0 <= a <= b < num
    ensures lo <= Linspace(lo, hi, num)[a] <= Linspace(lo, hi, num)[b] <= hi
  {
    if num >= 2 {
      var r := Linspace(lo, hi, num);
      var step := (hi - lo) / (num - 1) as real;
      SampleIsSteps(lo, hi, num, a, step);
      SampleIsSteps(lo, hi, num, b, step);
      SampleIsSteps(lo, hi, num, num - 1, step);
      StepsOrdered(lo, step, a, b, num - 1, r[a], r[b], r[num - 1]);
    }
  }

  /** `a <= b <= m` non-negative steps from `lo` end in that order. */
  lemma StepsOrdered(lo: real, step: real, a: int, b: int, m: int, ra: real, rb: real, rm: real)
    requires 0 <= a <= b <= m && 0.0 <= step
    requires ra == lo + a as real * step
    requires rb == lo + b as real * step
    requires rm == lo + m as real * step
    ensures lo <= ra <= rb <= rm
  {
    ScaleMonotone(0.0, a as real, step);
    ScaleMonotone(a as real, b as real, step);
    ScaleMonotone(b as real, m as real, step);
  }

  lemma ScaleMonotone(u: real, v: real, s: real)
    requires u <= v && 0.0 <= s
    ensures u * s <= v * s
  {
  }

  lemma ScaleStrict(u: real, v: real, s: real)
    requires u < v && 0.0 < s
    ensures u * s < v * s
  {
  }

  /** The index of a segment holding `x`: `floor((x - lo) / step)`, capped at the last one.
      The splitter computes no such index; it is the witness that the cuts leave no gap. */
  ghost function SegmentOf(lo: real, hi: real, n: nat, x: real): (k: nat)
    requires n >= 1
    requires lo <= x <= hi
    ensures k < n
    ensures Linspace(lo, hi, n + 1)[k] <= x <= Linspace(lo, hi, n + 1)[k + 1]
  {
    var r := Linspace(lo, hi, n + 1);
    var step := (hi - lo) / n as real;
    if lo == hi then
      assert r[0] == lo && r[1] == lo + step;
      0
    else
      assert step > 0.0;
      var q := (x - lo) / step;
      var f := q.Floor;
      assert 0 <= f;
      var k := if f < n then f else n - 1;
      StepBounds(lo, hi, n, x, step, q, k);
      k
  }

  /** Cell `k` holds `x` when `k` is at most, and `k + 1` (unless it is the last cut) more
      than, the number of steps from `lo` to `x`. */
  lemma StepBounds(lo: real, hi: real, n: nat, x: real, step: real, q: real, k: int)
    requires n >= 1 && lo <= x <= hi
    requires step == (hi - lo) / n as real && step > 0.0
    requires q == (x - lo) / step
    requires 0 <= k < n && k as real <= q
    requires k + 1 < n ==> q < (k + 1) as real
    ensures Linspace(lo, hi, n + 1)[k] <= x <= Linspace(lo, hi, n + 1)[k + 1]
  {
    var r := Linspace(lo, hi, n + 1);
    assert step == (hi - lo) / ((n + 1) - 1) as real;
    SampleIsSteps(lo, hi, n + 1, k, step);
    StepsBelow(lo, x, step, q, k, r[k]);
    if k + 1 < n {
      SampleIsSteps(lo, hi, n + 1, k + 1, step);
      StepsAbove(lo, x, step, q, k + 1, r[k + 1]);
    }
  }

  /** `k <= (x - lo) / step` positive steps from `lo` do not pass `x`. */
  lemma StepsBelow(lo: real, x: real, step: real, q: real, k: int, rk: real)
    requires step > 0.0 && q == (x - lo) / step && k as real <= q
    requires rk == lo + k as real * step
    ensures rk <= x
  {
    ScaleMonotone(k as real, q, step);
  }

  /** `m > (x - lo) / step` positive steps from `lo` pass `x`. */
  lemma StepsAbove(lo: real, x: real, step: real, q: real, m: int, rm: real)
    requires step > 0.0 && q == (x - lo) / step && q < m as real
    requires rm == lo + m as real * step
    ensures x < rm
  {
    ScaleStrict(q, m as real, step);
  }

  /** Entries never decrease from left to right. */
  predicate Ascending(r: seq<real>) {
    forall s, t :: 0 <= s <= t < |r| ==> r[s] <= r[t]
  }

  /** On an ordered range all the samples are in ascending order. */
  lemma LinspaceAscending(lo: real, hi: real, num: nat)
    requires lo <= hi
    ensures Ascending(Linspace(lo, hi, num))
  {
    forall s, t | 0 <= s <= t < num
      ensures Linspace(lo, hi, num)[s] <= Linspace(lo, hi, num)[t]
    {
      LinspaceMonotone(lo, hi, num, s, t);
    }
  }

  /** Between ascending cuts, a value strictly inside a segment lies in no other segment. */
  lemma SegmentIsUnique(r: seq<real>, a: int, b: int, x: real)
    requires Ascending(r)
    requires 0 <= a && a + 1 < |r| && 0 <= b && b + 1 < |r|
    requires r[a] < x < r[a + 1] && r[b] < x < r[b + 1]
    ensures a == b
  {
  }

  /** Three cells over `[0, 300]` are cut at 0, 100, 200 and 300; one cell over `[0, 150]`
      at its two ends. */
  lemma ExtentScenario()
    ensures Linspace(0.0, 300.0, 4) == [0.0, 100.0, 200.0, 300.0]
    ensures Linspace(0.0, 150.0, 2) == [0.0, 150.0]
  {
    var r := Linspace(0.0, 300.0, 4);
    assert r[1] == 100.0 && r[2] == 200.0;
  }
}
