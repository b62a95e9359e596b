/**
 * The two pieces of Python semantics that `color_chunks` leans on:
 * string slicing `s[lo:hi]` and iteration over `range(0, stop, step)`.
 */
module PyText {

  function Min(a: int, b: int): int { if a <= b then a else b }

  lemma MinCases(a: int, b: int)
    ensures Min(a, b) == a || Min(a, b) == b
    ensures Min(a, b) <= a && Min(a, b) <= b
  {
  }

  /** Python's normalisation of one slice bound against a string of length `n`:
      a negative bound counts from the end, and the result is clamped to [0, n]. */
  function SliceBound(n: nat, x: int): (r: nat)
    ensures r <= n
  {
    if x < 0 then (if x + n < 0 then 0 else x + n)
    else if x <= n then x else n
  }

  /** `s[lo:hi]` with step 1: never fails, empty when the bounds cross. */
  function Slice(s: string, lo: int, hi: int): (r: string)
    ensures |r| <= |s|
  {
    var a := SliceBound(|s|, lo);
    var b := SliceBound(|s|, hi);
    if a < b then s[a..b] else []
  }

  /** With non-negative, ordered bounds a Python slice is a plain clamped substring. */
  lemma SliceNonNegative(s: string, lo: int, hi: int)
    requires 0 <= lo <= hi
    ensures Min(lo, |s|) <= Min(hi, |s|)
    ensures Slice(s, lo, hi) == s[Min(lo, |s|)..Min(hi, |s|)]
    ensures |Slice(s, lo, hi)| == Min(hi, |s|) - Min(lo, |s|)
  {
  }

  /** Whether `i` is still inside `range(0, stop, step)` when the values are
      produced in order: below `stop` for a positive step, above it for a
      negative one. */
  predicate InRange(i: int, stop: int, step: int)
  {
    if step > 0 then i < stop else i > stop
  }

  /** The k-th value produced by `range(0, stop, step)`, i.e. `k * step`, built
      up one step at a time as the loop does. */
  function RangeAt(step: int, k: nat): int
  {
    if k == 0 then 0 else RangeAt(step, k - 1) + step
  }

  lemma StartsAtZero(step: int)
    ensures RangeAt(step, 0) == 0
    ensures forall n: int :: step > 0 ==> (InRange(0, n, step) <==> n > 0)
  {
  }

  lemma {:induction false} RangeAtIsProduct(step: int, k: nat)
    ensures RangeAt(step, k) == k * step
  {
    if k > 0 {
      RangeAtIsProduct(step, k - 1);
      assert k * step == (k - 1) * step + step;
    }
  }

  /** Whether `range(start, stop, step)` still produces `start`, and if so how
      many values it produces from there on, counted one step at a time as the
      iteration does. */
  function RangeCount(start: int, stop: int, step: int): nat
    requires step != 0
    decreases if step > 0 then stop - start else start - stop
  {
    if InRange(start, stop, step) then 1 + RangeCount(start + step, stop, step) else 0
  }

  /** `len(range(0, stop, step))`; Python raises ValueError for `step == 0`. */
  function RangeLen(stop: int, step: int): nat
    requires step != 0
  {
    RangeCount(0, stop, step)
  }

  /** The partial sums `RangeAt(step, k)` never change sign. */
  lemma {:induction false} RangeAtSign(step: int, k: nat)
    ensures step > 0 ==> RangeAt(step, k) >= 0
    ensures step < 0 ==> RangeAt(step, k) <= 0
  {
    if k > 0 {
      RangeAtSign(step, k - 1);
    }
  }

  /** The values produced from `start` on are `start + RangeAt(step, k)` for
      `k < RangeCount`: the k-th is produced iff it is still in range. */
  lemma {:induction false} RangeCountAt(start: int, stop: int, step: int, k: nat)
    requires step != 0
    ensures k < RangeCount(start, stop, step) <==> InRange(start + RangeAt(step, k), stop, step)
    decreases k
  {
    if k > 0 {
      if InRange(start, stop, step) {
        RangeCountAt(start + step, stop, step, k - 1);
      } else {
        RangeAtSign(step, k);
      }
    }
  }

  /** The values of `range(0, stop, step)` are exactly `RangeAt(step, k)` for
      `k < RangeLen`. */
  lemma RangeLenCounts(stop: int, step: int, k: nat)
    requires step != 0
    ensures k < RangeLen(stop, step) <==> InRange(RangeAt(step, k), stop, step)
  {
    RangeCountAt(0, stop, step, k);
  }

  /** For a positive step, `len(range(0, stop, step))` is the ceiling of
      `stop / step`. */
  lemma RangeLenCeil(stop: int, step: int)
    requires step > 0 && stop >= 0
    ensures RangeLen(stop, step) == (stop + step - 1) / step
  {
    if stop == 0 {
      RangeLenCounts(stop, step, 0);
    } else {
      var q := (stop + step - 1) / step;
      DivCeil(stop, step, q);
      RangeAtIsProduct(step, q - 1);
      RangeLenCounts(stop, step, q - 1);
      RangeAtIsProduct(step, q);
      RangeLenCounts(stop, step, q);
    }
  }

  /** `q = (d + m - 1) / m` is the ceiling of `d / m`. */
  lemma DivCeil(d: int, m: int, q: int)
    requires d > 0 && m > 0 && q == (d + m - 1) / m
    ensures q >= 1 && q * m >= d && (q - 1) * m < d
  {
    var r := (d + m - 1) % m;
    assert q * m + r == d + m - 1;
    assert 0 <= r < m;
    assert (q - 1) * m == q * m - m;
  }
}
