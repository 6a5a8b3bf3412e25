/** How many cells each axis is cut into: `calculate_splits` and the per-axis defaulting
    and clamping of the Streamlit `split_stl_into_grid`. */
module Splits {
  import opened Outcome

  /** `np.ceil` on an exact real: the least integer not below `x`. */
  function Ceil(x: real): (k: int)
    ensures (k - 1) as real < x <= k as real
  {
    -((-x).Floor)
  }

  /** `calculate_splits(model_size, max_size)`: rejects a missing or non-positive chunk size;
      otherwise the least `k` with `k * max_size >= model_size`, i.e. `ceil(size / max)`. */
  function CalculateSplits(modelSize: real, maxSize: Option<real>): (r: Result<int>)
    ensures r.Err? <==> maxSize.None? || maxSize.value <= 0.0
    ensures r.Err? ==> r.error == InvalidChunkSize
    ensures r.Ok? ==> (r.value - 1) as real * maxSize.value < modelSize
    ensures r.Ok? ==> modelSize <= r.value as real * maxSize.value
  {
    if maxSize.None? || maxSize.value <= 0.0 then
      Err(InvalidChunkSize)
    else
      var k := Ceil(modelSize / maxSize.value);
      ScaleQuotientBounds(modelSize, maxSize.value, k);
      Ok(k)
  }

  /** Multiplying `k - 1 < s / m <= k` through by a positive `m`. */
  lemma ScaleQuotientBounds(s: real, m: real, k: int)
    requires m > 0.0
    requires (k - 1) as real < s / m <= k as real
    ensures (k - 1) as real * m < s <= k as real * m
  {
    assert s == (s / m) * m;
  }

  /** `max(1, count or 1)`: a missing or zero count becomes 1, and so does every count below 1. */
  function AtLeastOne(count: Option<int>): (n: int)
    ensures n >= 1
    ensures count.Some? && count.value >= 1 ==> n == count.value
    ensures count.None? || count.value <= 1 ==> n == 1
  {
    var v := if count.None? || count.value == 0 then 1 else count.value;
    if 1 >= v then 1 else v
  }

  /** The split count of one axis: a chunk size is consulted only when no explicit count is
      given, and whatever results is clamped to at least 1. */
  function ResolveAxis(count: Option<int>, maxSize: Option<real>, modelSize: real): (r: Result<int>)
    ensures r.Err? <==> count.None? && maxSize.Some? && maxSize.value <= 0.0
    ensures r.Err? ==> r.error == InvalidChunkSize
    ensures r.Ok? ==> r.value >= 1
    // an explicit count wins, whatever chunk size accompanies it
    ensures count.Some? ==> r == Ok(if count.value >= 1 then count.value else 1)
    ensures count.None? && maxSize.None? ==> r == Ok(1)
    // in chunk-size mode the resulting cell is never wider than the requested maximum
    ensures r.Ok? && count.None? && maxSize.Some? ==> modelSize / r.value as real <= maxSize.value
  {
    if count.None? && maxSize.Some? then
      match CalculateSplits(modelSize, maxSize)
      case Err(e) => Err(e)
      case Ok(k) =>
        var n := AtLeastOne(Some(k));
        CellFitsChunk(modelSize, maxSize.value, k, n);
        Ok(n)
    else
      Ok(AtLeastOne(count))
  }

  /** With `k = ceil(size / m)` clamped to `n >= 1`, one of `n` equal cells is at most `m` wide. */
  lemma CellFitsChunk(s: real, m: real, k: int, n: int)
    requires m > 0.0 && n >= 1
    requires (k - 1) as real * m < s <= k as real * m
    requires n == k || (k <= 1 && n == 1)
    ensures s / n as real <= m
  {
    if n == k {
      DivideBound(s, m, n);
    } else {
      assert s <= 1.0 * m by {
        assert k as real * m <= 1.0 * m;
      }
    }
  }

  lemma DivideBound(s: real, m: real, n: int)
    requires m > 0.0 && n >= 1
    requires s <= n as real * m
    ensures s / n as real <= m
  {
    assert s / n as real <= (n as real * m) / n as real;
  }

  /** The chunk-size split count is the LEAST count `k >= 1` whose equal cells fit `maxSize`:
      together with the fitting guarantee of `ResolveAxis`, no coarser grid would do. */
  lemma {:induction false} ChunkCountIsLeast(modelSize: real, maxSize: real, k: int)
    requires maxSize > 0.0 && k >= 1
    requires modelSize / k as real <= maxSize
    ensures ResolveAxis(None, Some(maxSize), modelSize).Ok?
    ensures ResolveAxis(None, Some(maxSize), modelSize).value <= k
  {
    var c := CalculateSplits(modelSize, Some(maxSize)).value;
    assert modelSize <= k as real * maxSize by {
      assert modelSize == (modelSize / k as real) * k as real;
      assert (modelSize / k as real) * k as real <= maxSize * k as real;
    }
    // (c - 1) * m < size <= k * m, so c - 1 < k
    assert (c - 1) as real * maxSize < k as real * maxSize;
  }

  /** A 300 by 150 footprint cut into chunks of at most 120 by 200: three columns
      (`ceil(2.5)`) and one row (`ceil(0.75)`). */
  lemma ChunkSizeScenario()
    ensures ResolveAxis(None, Some(120.0), 300.0) == Ok(3)
    ensures ResolveAxis(None, Some(200.0), 150.0) == Ok(1)
  {
    assert CalculateSplits(300.0, Some(120.0)) == Ok(3);
    assert CalculateSplits(150.0, Some(200.0)) == Ok(1);
  }

  /** A zero chunk size is rejected, while an explicit count makes the chunk size irrelevant. */
  lemma ZeroChunkScenario()
    ensures ResolveAxis(None, Some(0.0), 300.0) == Err(InvalidChunkSize)
    ensures ResolveAxis(Some(2), Some(0.0), 300.0) == Ok(2)
  {
  }
}
