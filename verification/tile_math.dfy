/** Grid partitioning (tileMath.js): a width or height is cut into `segments`
    contiguous integer spans whose lengths differ by at most one, the earlier
    spans taking the remainder pixels. */
module TileMath {
  import opened JsValues

  /** `Math.floor(size / segments)`. */
  function Base(size: int, segments: int): int
    requires segments > 0
  {
    FloorDiv(size, segments)
  }

  /** `size % segments`, JavaScript's truncating remainder. */
  function Remainder(size: int, segments: int): int
    requires segments > 0
  {
    Rem(size, segments)
  }

  /** Length of segment `i`: one extra pixel while `i < remainder`. */
  function Span(base: int, remainder: int, i: int): int {
    base + (if i < remainder then 1 else 0)
  }

  /** The loop's `cursor` after `k` segments have been pushed. */
  function Cursor(base: int, remainder: int, k: nat): int {
    if k == 0 then 0 else Cursor(base, remainder, k - 1) + Span(base, remainder, k - 1)
  }

  /** `computeStops(size, segments)`: `[0]` followed by the running cursor. */
  function ComputeStops(size: int, segments: int): (stops: seq<int>)
    ensures segments <= 0 ==> stops == [0, size]
    ensures segments > 0 ==> |stops| == segments + 1 && stops[0] == 0
  {
    if segments <= 0 then [0, size]
    else
      var base, remainder := Base(size, segments), Remainder(size, segments);
      seq(segments + 1, k requires 0 <= k => Cursor(base, remainder, k))
  }

  predicate NonDecreasing(s: seq<int>) {
    forall i, j :: 0 <= i <= j < |s| ==> s[i] <= s[j]
  }

  predicate Increasing(s: seq<int>) {
    forall i, j :: 0 <= i < j < |s| ==> s[i] < s[j]
  }

  function Min(a: int, b: int): int { if a <= b then a else b }

  function Max(a: int, b: int): int { if a >= b then a else b }

  /** The running cursor in closed form: `k` whole spans plus one extra pixel
      for each of the first `remainder` segments passed. */
  lemma {:induction false} CursorClosedForm(base: int, remainder: int, k: nat)
    ensures Cursor(base, remainder, k) == k * base + Min(k, Max(0, remainder))
  {
    if k > 0 {
      CursorClosedForm(base, remainder, k - 1);
      assert (k - 1) * base + base == k * base;
    }
  }

  /** `stops[i] = i*base + min(i, remainder)` (the remainder clamped at zero,
      which only matters for a negative size). */
  lemma StopsClosedForm(size: int, segments: int, i: int)
    requires segments > 0 && 0 <= i <= segments
    ensures ComputeStops(size, segments)[i]
         == i * Base(size, segments) + Min(i, Max(0, Remainder(size, segments)))
  {
    CursorClosedForm(Base(size, segments), Remainder(size, segments), i);
  }

  /** Span `i` is `base + 1` exactly when `i < remainder` and `base` otherwise,
      so any two spans differ by at most one. */
  lemma SpansBalanced(size: int, segments: int, i: int, j: int)
    requires segments > 0 && 0 <= i < segments && 0 <= j < segments
    ensures var stops := ComputeStops(size, segments);
            var span := stops[i + 1] - stops[i];
            && (span == Base(size, segments) + 1 <==> i < Remainder(size, segments))
            && (span == Base(size, segments) <==> i >= Remainder(size, segments))
            && -1 <= span - (stops[j + 1] - stops[j]) <= 1
  {
    var base, remainder := Base(size, segments), Remainder(size, segments);
    StopsClosedForm(size, segments, i);
    StopsClosedForm(size, segments, i + 1);
    StopsClosedForm(size, segments, j);
    StopsClosedForm(size, segments, j + 1);
    assert (i + 1) * base == i * base + base;
    assert (j + 1) * base == j * base + base;
  }

  /** For a non-negative size the remainder is the Euclidean one and the
      spans add up to the size. */
  lemma SizeDecomposition(size: int, segments: int)
    requires size >= 0 && segments > 0
    ensures Base(size, segments) >= 0
    ensures 0 <= Remainder(size, segments) < segments
    ensures size == segments * Base(size, segments) + Remainder(size, segments)
  {
  }

  lemma {:induction false} MulMonotone(i: int, j: int, b: int)
    requires i <= j && b >= 0
    ensures i * b <= j * b
    ensures b >= 1 && i < j ==> i * b < j * b
    decreases j - i
  {
    if i < j {
      MulMonotone(i + 1, j, b);
      assert (i + 1) * b == i * b + b;
    }
  }

  /** Two stops compare as their indexes do. */
  lemma StopsOrdered(size: int, segments: int, i: int, j: int)
    requires size >= 0 && segments > 0 && 0 <= i <= j <= segments
    ensures ComputeStops(size, segments)[i] <= ComputeStops(size, segments)[j]
    ensures size >= segments && i < j ==> ComputeStops(size, segments)[i] < ComputeStops(size, segments)[j]
  {
    var base := Base(size, segments);
    SizeDecomposition(size, segments);
    StopsClosedForm(size, segments, i);
    StopsClosedForm(size, segments, j);
    MulMonotone(i, j, base);
  }

  /** For `size >= 0` the stops are non-decreasing, start at 0 and end at
      `size`: the spans partition `[0, size)`. With `size >= segments` every
      span is non-empty and the stops strictly increase. */
  lemma StopsPartition(size: int, segments: int)
    requires size >= 0 && segments > 0
    ensures var stops := ComputeStops(size, segments);
            && |stops| == segments + 1
            && stops[0] == 0 && stops[segments] == size
            && NonDecreasing(stops)
            && (forall i :: 0 <= i <= segments ==> 0 <= stops[i] <= size)
            && (size >= segments ==> Increasing(stops))
  {
    var stops := ComputeStops(size, segments);
    SizeDecomposition(size, segments);
    StopsClosedForm(size, segments, segments);
    assert stops[segments] == size;
    forall i, j | 0 <= i <= j <= segments
      ensures stops[i] <= stops[j]
      ensures size >= segments && i < j ==> stops[i] < stops[j]
    {
      StopsOrdered(size, segments, i, j);
    }
    forall i | 0 <= i <= segments ensures 0 <= stops[i] <= size {
      StopsOrdered(size, segments, 0, i);
      StopsOrdered(size, segments, i, segments);
    }
  }

  /** The segment that contains coordinate `x`. */
  function Locate(stops: seq<int>, x: int): (k: nat)
    requires |stops| >= 2 && NonDecreasing(stops)
    requires stops[0] <= x < stops[|stops| - 1]
    ensures k < |stops| - 1 && stops[k] <= x < stops[k + 1]
    decreases |stops|
  {
    if x < stops[1] then 0
    else 1 + Locate(stops[1..], x)
  }

  /** Every coordinate of `[0, size)` lies in exactly one segment, so a loop
      over all tiles and their local coordinates writes each pixel once. */
  lemma LocateUnique(stops: seq<int>, x: int, k: int)
    requires |stops| >= 2 && NonDecreasing(stops)
    requires stops[0] <= x < stops[|stops| - 1]
    requires 0 <= k < |stops| - 1 && stops[k] <= x < stops[k + 1]
    ensures Locate(stops, x) == k
  {
  }
}
