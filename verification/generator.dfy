/** The brightness-rank arrangement of arrangementGenerator.js: both images
    are cut by the same grid, each tile is scored by its mean luma, the tiles
    of each image are ranked by score (ties by index, as the stable sort
    leaves them), and the tile ranked `i` in the first image receives the
    tile ranked `i` in the second, unrotated. */
module Generator {
  import opened JsValues
  import opened Pixels
  import opened TileMath
  import opened Perm
  import opened Scatter
  import opened Arrangements
  import Tiles

  // ---------------------------------------------------------------------
  // Tile brightness

  /** The luma of pixel `(x, y)`: `r * 0.299 + g * 0.587 + b * 0.114`. */
  function PixelLuma(img: Image, x: int, y: int): real
    requires WellFormed(img) && 0 <= x < img.width && 0 <= y < img.height
  {
    OffsetInBounds(img.width, img.height, x, y, 2);
    var o := Offset(img.width, x, y, 0);
    Luma(img.data[o] as real, img.data[o + 1] as real, img.data[o + 2] as real)
  }

  /** The summed luma of pixels `x0 .. x1-1` of row `y`. */
  function RowSum(img: Image, y: int, x0: int, x1: int): real
    requires WellFormed(img) && 0 <= y < img.height && 0 <= x0 <= x1 <= img.width
    decreases x1 - x0
  {
    if x1 == x0 then 0.0 else RowSum(img, y, x0, x1 - 1) + PixelLuma(img, x1 - 1, y)
  }

  /** The summed luma of the block `[x0, x1) x [y0, y1)`, row by row. */
  function RegionSum(img: Image, x0: int, x1: int, y0: int, y1: int): real
    requires WellFormed(img) && 0 <= x0 <= x1 <= img.width && 0 <= y0 <= y1 <= img.height
    decreases y1 - y0
  {
    if y1 == y0 then 0.0 else RegionSum(img, x0, x1, y0, y1 - 1) + RowSum(img, y1 - 1, x0, x1)
  }

  /** The two nested pixel loops of `measureTileBrightness`. */
  method TileSum(img: Image, x0: int, x1: int, y0: int, y1: int) returns (sum: real)
    requires WellFormed(img) && 0 <= x0 <= x1 <= img.width && 0 <= y0 <= y1 <= img.height
    ensures sum == RegionSum(img, x0, x1, y0, y1)
  {
    sum := 0.0;
    var y := y0;
    while y < y1
      invariant y0 <= y <= y1
      invariant sum == RegionSum(img, x0, x1, y0, y)
    {
      var x := x0;
      var row := sum;
      while x < x1
        invariant x0 <= x <= x1
        invariant sum == row + RowSum(img, y, x0, x)
      {
        sum := sum + PixelLuma(img, x, y);
        x := x + 1;
      }
      y := y + 1;
    }
  }

  /** Every pixel contributes a luma in `[0, 255]`. */
  lemma {:induction false} RowSumBounds(img: Image, y: int, x0: int, x1: int)
    requires WellFormed(img) && 0 <= y < img.height && 0 <= x0 <= x1 <= img.width
    ensures 0.0 <= RowSum(img, y, x0, x1) <= 255.0 * (x1 - x0) as real
    decreases x1 - x0
  {
    if x1 > x0 {
      RowSumBounds(img, y, x0, x1 - 1);
      OffsetInBounds(img.width, img.height, x1 - 1, y, 2);
      var o := Offset(img.width, x1 - 1, y, 0);
      LumaBounds(img.data[o], img.data[o + 1], img.data[o + 2]);
      ScaleAdd(255.0, x1 - 1 - x0, 1);
    }
  }

  /** The block sums to at most 255 per pixel. */
  lemma {:induction false} RegionSumBounds(img: Image, x0: int, x1: int, y0: int, y1: int)
    requires WellFormed(img) && 0 <= x0 <= x1 <= img.width && 0 <= y0 <= y1 <= img.height
    ensures 0.0 <= RegionSum(img, x0, x1, y0, y1) <= 255.0 * ((x1 - x0) * (y1 - y0)) as real
    decreases y1 - y0
  {
    if y1 > y0 {
      var w, h := x1 - x0, y1 - y0;
      RegionSumBounds(img, x0, x1, y0, y1 - 1);
      RowSumBounds(img, y1 - 1, x0, x1);
      assert w * (h - 1) + w == w * h;
      ScaleAdd(255.0, w * (h - 1), w);
    }
  }

  /** All pixels of row `y` in `[x0, x1)` have luma `v`. */
  predicate UniformRow(img: Image, y: int, x0: int, x1: int, v: real)
    requires WellFormed(img) && 0 <= y < img.height && 0 <= x0 <= x1 <= img.width
  {
    forall x :: x0 <= x < x1 ==> PixelLuma(img, x, y) == v
  }

  /** All pixels of the block `[x0, x1) x [y0, y1)` have luma `v`. */
  predicate Uniform(img: Image, x0: int, x1: int, y0: int, y1: int, v: real)
    requires WellFormed(img) && 0 <= x0 <= x1 <= img.width && 0 <= y0 <= y1 <= img.height
  {
    forall y :: y0 <= y < y1 ==> UniformRow(img, y, x0, x1, v)
  }

  /** `n` copies of `v` added one by one. */
  function Repeat(v: real, n: int): real
    decreases n
  {
    if n <= 0 then 0.0 else Repeat(v, n - 1) + v
  }

  lemma {:induction false} RepeatIsScale(v: real, n: nat)
    ensures Repeat(v, n) == v * n as real
  {
    if n > 0 {
      RepeatIsScale(v, n - 1);
      ScaleAdd(v, n - 1, 1);
    }
  }

  lemma {:induction false} UniformRowSum(img: Image, y: int, x0: int, x1: int, v: real)
    requires WellFormed(img) && 0 <= y < img.height && 0 <= x0 <= x1 <= img.width
    requires UniformRow(img, y, x0, x1, v)
    ensures RowSum(img, y, x0, x1) == Repeat(v, x1 - x0)
    decreases x1 - x0
  {
    if x1 > x0 {
      UniformRowSum(img, y, x0, x1 - 1, v);
      assert PixelLuma(img, x1 - 1, y) == v;
    }
  }

  /** A block of uniform luma `v` sums to `v` times its pixel count. */
  lemma {:induction false} UniformRegionSum(img: Image, x0: int, x1: int, y0: int, y1: int, v: real)
    requires WellFormed(img) && 0 <= x0 <= x1 <= img.width && 0 <= y0 <= y1 <= img.height
    requires Uniform(img, x0, x1, y0, y1, v)
    ensures RegionSum(img, x0, x1, y0, y1) == Repeat(Repeat(v, x1 - x0), y1 - y0)
    decreases y1 - y0
  {
    if y1 > y0 {
      UniformRegionSum(img, x0, x1, y0, y1 - 1, v);
      assert UniformRow(img, y1 - 1, x0, x1, v);
      UniformRowSum(img, y1 - 1, x0, x1, v);
    }
  }

  lemma ScaleAdd(v: real, a: int, b: int)
    ensures v * (a + b) as real == v * a as real + v * b as real
  {
  }

  lemma ScaleMonotone(m: real, a: int, b: int)
    requires m >= 0.0 && a <= b
    ensures m * a as real <= m * b as real
  {
    ScaleAdd(m, a, b - a);
  }

  /** `s / a` for a positive `a` and `0 <= s <= m * a` lies in `[0, m]`. */
  lemma QuotientBounds(s: real, a: real, m: real)
    requires a > 0.0 && 0.0 <= s <= m * a
    ensures 0.0 <= s / a <= m
  {
    var q := s / a;
    assert q * a == s;
    if q > m {
      assert q * a > m * a;
    }
  }

  /** `tileWidth * tileHeight`, each side at least 1. */
  function TileArea(w: int, h: int): (n: int)
    ensures n >= 1
  {
    MulMonotone(1, Max(1, w), Max(1, h));
    Max(1, w) * Max(1, h)
  }

  lemma TileAreaOf(w: int, h: int)
    requires w >= 0 && h >= 0
    ensures w * h <= TileArea(w, h)
    ensures w >= 1 && h >= 1 ==> TileArea(w, h) == w * h
  {
    MulMonotone(w, Max(1, w), h);
    MulMonotone(h, Max(1, h), Max(1, w));
  }

  /** A running total divided by a pixel count. */
  function Mean(total: real, count: int): real
    requires count >= 1
  {
    total / count as real
  }

  /** A total of `v` per pixel averages to `v`. */
  lemma MeanOf(total: real, v: real, count: int)
    requires count >= 1 && total == v * count as real
    ensures Mean(total, count) == v
  {
    DivUnique(total, count as real, v);
  }

  /** `sum / (tileWidth * tileHeight)`: the mean luma of the tile, a
      byte-range value. */
  function TileBrightness(img: Image, x0: int, x1: int, y0: int, y1: int): (b: real)
    requires WellFormed(img) && 0 <= x0 <= x1 <= img.width && 0 <= y0 <= y1 <= img.height
    ensures 0.0 <= b <= 255.0
  {
    var n := TileArea(x1 - x0, y1 - y0);
    var sum := RegionSum(img, x0, x1, y0, y1);
    assert 0.0 <= sum <= 255.0 * n as real by {
      RegionSumBounds(img, x0, x1, y0, y1);
      TileAreaOf(x1 - x0, y1 - y0);
      ScaleMonotone(255.0, (x1 - x0) * (y1 - y0), n);
    }
    QuotientBounds(sum, n as real, 255.0);
    Mean(sum, n)
  }

  /** A non-empty tile of uniform luma `v` has brightness `v`. */
  lemma UniformTileBrightness(img: Image, x0: int, x1: int, y0: int, y1: int, v: real)
    requires WellFormed(img) && 0 <= x0 < x1 <= img.width && 0 <= y0 < y1 <= img.height
    requires Uniform(img, x0, x1, y0, y1, v)
    ensures TileBrightness(img, x0, x1, y0, y1) == v
  {
    var w, h := x1 - x0, y1 - y0;
    var n := TileArea(w, h);
    var sum := RegionSum(img, x0, x1, y0, y1);
    UniformRegionSum(img, x0, x1, y0, y1, v);
    RepeatGrid(v, w, h);
    TileAreaOf(w, h);
    RepeatIsScale(v, n);
    MeanOf(sum, v, n);
  }

  lemma {:induction false} RepeatAdd(v: real, m: nat, n: nat)
    ensures Repeat(v, m + n) == Repeat(v, m) + Repeat(v, n)
    decreases n
  {
    if n > 0 {
      RepeatAdd(v, m, n - 1);
    }
  }

  /** `h` rows of `w` copies of `v` are `w * h` copies of `v`. */
  lemma {:induction false} RepeatGrid(v: real, w: nat, h: nat)
    ensures Repeat(Repeat(v, w), h) == Repeat(v, w * h)
    decreases h
  {
    if h > 0 {
      RepeatGrid(v, w, h - 1);
      assert w * (h - 1) + w == w * h;
      RepeatAdd(v, w * (h - 1), w);
    }
  }

  /** The quotient is the one value whose product with the divisor is the
      dividend. */
  lemma DivUnique(x: real, d: real, q: real)
    requires d != 0.0 && q * d == x
    ensures x / d == q
  {
  }

  /** Tile `k` of a `rows x cols` grid sits in row `k / cols` and column
      `k % cols`. */
  lemma TileCoordinates(k: int, rows: int, cols: int)
    requires rows >= 1 && cols >= 1 && 0 <= k < rows * cols
    ensures 0 <= k / cols < rows && 0 <= k % cols < cols && k == (k / cols) * cols + k % cols
  {
    if k / cols >= rows {
      MulMonotone(rows, k / cols, cols);
    }
  }

  /** Segment `i` of the stops over `size` lies inside `[0, size]`. */
  lemma SegmentInside(size: int, segments: int, i: int)
    requires size >= 0 && segments >= 1 && 0 <= i < segments
    ensures var stops := ComputeStops(size, segments);
            0 <= stops[i] <= stops[i + 1] <= size
  {
    StopsPartition(size, segments);
  }

  /** The score of tile `k` in row-major order, over the stops of the grid. */
  function TileScore(img: Image, rows: int, cols: int, k: int): (b: real)
    requires WellFormed(img) && rows >= 1 && cols >= 1 && 0 <= k < rows * cols
    ensures 0.0 <= b <= 255.0
  {
    TileCoordinates(k, rows, cols);
    var pr, pc := k / cols, k % cols;
    var rowStops, colStops := ComputeStops(img.height, rows), ComputeStops(img.width, cols);
    SegmentInside(img.height, rows, pr);
    SegmentInside(img.width, cols, pc);
    TileBrightness(img, colStops[pc], colStops[pc + 1], rowStops[pr], rowStops[pr + 1])
  }

  /** `measureTileBrightness` over the stops of the same grid: one score per
      tile, in row-major tile order; a grid with no row or no column of tiles
      leaves the `fill(0)` zeros. */
  function MeasureTileBrightness(img: Image, rows: int, cols: int): (b: seq<real>)
    requires WellFormed(img) && rows * cols >= 0
    ensures |b| == rows * cols
    ensures forall k :: 0 <= k < |b| ==> 0.0 <= b[k] <= 255.0
  {
    if rows >= 1 && cols >= 1 then
      seq(rows * cols, k requires 0 <= k < rows * cols => TileScore(img, rows, cols, k))
    else
      seq(rows * cols, _ => 0.0)
  }

  /** Tile `(pr, pc)` is scored by the brightness of its own block, so a tile
      of uniform luma `v` scores `v`. */
  lemma MeasureAt(img: Image, rows: int, cols: int, pr: int, pc: int, v: real)
    requires WellFormed(img) && rows >= 1 && cols >= 1 && 0 <= pr < rows && 0 <= pc < cols
    ensures var rowStops, colStops := ComputeStops(img.height, rows), ComputeStops(img.width, cols);
            var b := MeasureTileBrightness(img, rows, cols);
            && 0 <= rowStops[pr] <= rowStops[pr + 1] <= img.height
            && 0 <= colStops[pc] <= colStops[pc + 1] <= img.width
            && 0 <= pr * cols + pc < |b|
            && b[pr * cols + pc] == TileBrightness(img, colStops[pc], colStops[pc + 1], rowStops[pr], rowStops[pr + 1])
            && (rowStops[pr] < rowStops[pr + 1] && colStops[pc] < colStops[pc + 1]
                && Uniform(img, colStops[pc], colStops[pc + 1], rowStops[pr], rowStops[pr + 1], v)
                ==> b[pr * cols + pc] == v)
  {
    var rowStops, colStops := ComputeStops(img.height, rows), ComputeStops(img.width, cols);
    SegmentInside(img.height, rows, pr);
    SegmentInside(img.width, cols, pc);
    var k := pr * cols + pc;
    Tiles.PieceIndexBound(pr, pc, rows, cols);
    DivModUnique(k, cols, pr, pc);
    assert MeasureTileBrightness(img, rows, cols)[k] == TileScore(img, rows, cols, k);
    var x0, x1, y0, y1 := colStops[pc], colStops[pc + 1], rowStops[pr], rowStops[pr + 1];
    if y0 < y1 && x0 < x1 && Uniform(img, x0, x1, y0, y1, v) {
      UniformTileBrightness(img, x0, x1, y0, y1, v);
    }
  }

  // ---------------------------------------------------------------------
  // Ranking

  /** Tile `i` comes before tile `j`: a lower score, or an equal score and a
      lower index (the stable sort keeps equal scores in index order). */
  predicate Precedes(values: seq<real>, i: int, j: int)
    requires 0 <= i < |values| && 0 <= j < |values|
  {
    values[i] < values[j] || (values[i] == values[j] && i < j)
  }

  /** Indices into `values`. */
  predicate IndicesOf(values: seq<real>, s: seq<int>) {
    forall a :: 0 <= a < |s| ==> 0 <= s[a] < |values|
  }

  /** `s` lists its indices in strictly increasing rank. */
  predicate Sorted(values: seq<real>, s: seq<int>)
    requires IndicesOf(values, s)
  {
    forall a, b :: 0 <= a < b < |s| ==> Precedes(values, s[a], s[b])
  }

  /** The ranking of all tiles: every index once, in rank order. */
  predicate RankedBy(values: seq<real>, s: seq<int>) {
    |s| == |values| && IndicesOf(values, s) && IsPermutation(s) && Sorted(values, s)
  }

  /** One insertion step of a stable sort: index `k` goes after every placed
      index whose score does not exceed its own. */
  function Insert(values: seq<real>, s: seq<int>, k: int): (r: seq<int>)
    requires 0 <= k < |values| && IndicesOf(values, s)
    ensures |r| == |s| + 1 && IndicesOf(values, r)
    ensures forall x :: x in r <==> x in s || x == k
    decreases |s|
  {
    if |s| == 0 then [k]
    else if values[s[|s| - 1]] <= values[k] then s + [k]
    else
      var init, last := s[..|s| - 1], s[|s| - 1];
      assert s == init + [last];
      Insert(values, init, k) + [last]
  }

  /** Inserting an index larger than every placed one keeps the list in rank
      order. */
  lemma {:induction false} InsertSorted(values: seq<real>, s: seq<int>, k: int)
    requires 0 <= k < |values| && IndicesOf(values, s) && Sorted(values, s)
    requires forall a :: 0 <= a < |s| ==> s[a] < k
    ensures Sorted(values, Insert(values, s, k))
    decreases |s|
  {
    var r := Insert(values, s, k);
    if |s| > 0 {
      var n := |s| - 1;
      var last := s[n];
      if values[last] <= values[k] {
        assert Precedes(values, last, k);
        forall a, b | 0 <= a < b < |r| ensures Precedes(values, r[a], r[b]) {
          if b == n + 1 && a < n {
            assert Precedes(values, s[a], last);
          }
        }
      } else {
        var init := s[..n];
        assert Sorted(values, init);
        InsertSorted(values, init, k);
        var r' := Insert(values, init, k);
        assert r == r' + [last];
        forall a | 0 <= a < |r'| ensures Precedes(values, r'[a], last) {
          if r'[a] != k {
            assert r'[a] in init;
            var i :| 0 <= i < n && init[i] == r'[a];
            assert Precedes(values, s[i], s[n]);
          }
        }
        forall a, b | 0 <= a < b < |r| ensures Precedes(values, r[a], r[b]) {
          if b < |r'| {
            assert r[a] == r'[a] && r[b] == r'[b];
          }
        }
      }
    }
  }

  /** The stable sort of the first `m` indices. */
  function SortedPrefix(values: seq<real>, m: int): (s: seq<int>)
    requires 0 <= m <= |values|
    ensures |s| == m && IndicesOf(values, s)
    ensures forall x :: x in s <==> 0 <= x < m
  {
    if m == 0 then [] else Insert(values, SortedPrefix(values, m - 1), m - 1)
  }

  lemma {:induction false} SortedPrefixSorted(values: seq<real>, m: int)
    requires 0 <= m <= |values|
    ensures Sorted(values, SortedPrefix(values, m))
  {
    if m > 0 {
      var prev := SortedPrefix(values, m - 1);
      SortedPrefixSorted(values, m - 1);
      forall a | 0 <= a < |prev| ensures prev[a] < m - 1 {
        assert prev[a] in prev;
      }
      InsertSorted(values, prev, m - 1);
    }
  }

  /** `values.map((value, index) => ({index, value})).sort((l, r) => l.value -
      r.value)`, read as the list of indices. */
  function RankOrder(values: seq<real>): (s: seq<int>)
    ensures RankedBy(values, s)
  {
    var s := SortedPrefix(values, |values|);
    SortedPrefixSorted(values, |values|);
    assert forall a, b :: 0 <= a < |s| && 0 <= b < |s| && a != b ==> s[a] != s[b] by {
      forall a, b | 0 <= a < |s| && 0 <= b < |s| && a != b ensures s[a] != s[b] {
        if a < b { assert Precedes(values, s[a], s[b]); } else { assert Precedes(values, s[b], s[a]); }
      }
    }
    s
  }

  /** A ranked list is in rank order at every pair of positions. */
  lemma SortedAt(values: seq<real>, s: seq<int>, a: int, b: int)
    requires RankedBy(values, s) && 0 <= a < |s| && 0 <= b < |s|
    ensures a < b ==> Precedes(values, s[a], s[b])
  {
  }

  /** A strictly brighter tile is ranked later. */
  lemma RankRespectsScore(values: seq<real>, s: seq<int>, i: int, j: int)
    requires RankedBy(values, s) && 0 <= i < |s| && 0 <= j < |s|
    requires values[s[i]] < values[s[j]]
    ensures i < j
  {
    SortedAt(values, s, j, i);
  }

  /** If two rankings agree before rank `k`, the index `t` ranks `k`-th
      appears in `s` no earlier than rank `k`. */
  lemma NotBefore(values: seq<real>, s: seq<int>, t: seq<int>, k: int)
    requires RankedBy(values, s) && RankedBy(values, t) && 0 <= k < |s|
    requires forall j :: 0 <= j < k ==> s[j] == t[j]
    ensures IndexOf(s, t[k]) >= k
  {
    forall j | 0 <= j < k ensures s[j] != t[k] {
      assert s[j] == t[j];
    }
  }

  /** Two rankings that agree before rank `k` agree at rank `k`. */
  lemma RankAt(values: seq<real>, s: seq<int>, t: seq<int>, k: int)
    requires RankedBy(values, s) && RankedBy(values, t) && 0 <= k < |s|
    requires forall j :: 0 <= j < k ==> s[j] == t[j]
    ensures s[k] == t[k]
  {
    var i, j := IndexOf(s, t[k]), IndexOf(t, s[k]);
    NotBefore(values, s, t, k);
    NotBefore(values, t, s, k);
    SortedAt(values, s, k, i);
    SortedAt(values, t, k, j);
  }

  /** There is only one ranking, so any stable sort gives this one. */
  lemma RankingUnique(values: seq<real>, s: seq<int>, t: seq<int>)
    requires RankedBy(values, s) && RankedBy(values, t)
    ensures s == t
  {
    var k := 0;
    while k < |s|
      invariant 0 <= k <= |s|
      invariant forall j :: 0 <= j < k ==> s[j] == t[j]
    {
      RankAt(values, s, t, k);
      k := k + 1;
    }
  }

  // ---------------------------------------------------------------------
  // Pairing ranks

  /** `arrangement[sortedA[i].index] = [sortedB[i].index, 0]` for every rank
      `i`: each destination tile gets the slot of the same rank. */
  function PairRanks(sa: seq<int>, sb: seq<int>): (arrangement: seq<Entry>)
    requires IsPermutation(sa) && IsPermutation(sb) && |sa| == |sb|
    ensures |arrangement| == |sa| && IsBijective(arrangement)
    ensures forall i :: 0 <= i < |sa| ==> arrangement[sa[i]] == Pair(sb[i], 0)
  {
    var slots := Compose(sb, Inverse(sa));
    ComposePermutation(sb, Inverse(sa));
    var arrangement := seq(|sa|, d requires 0 <= d < |sa| => Pair(slots[d], 0));
    assert Slots(arrangement) == slots;
    arrangement
  }

  /** The writes of the `for` loop over ranks. */
  function RankWrites(sa: seq<int>, sb: seq<int>): (ws: seq<Write<Entry>>)
    requires |sa| == |sb|
    ensures |ws| == |sa|
  {
    seq(|sa|, i requires 0 <= i < |sa| => Put(sa[i], Pair(sb[i], 0)))
  }

  /** The loop writes every slot of `new Array(pieceCount)` exactly once, so
      the result has no holes and is `PairRanks`. */
  lemma RankWritesFill(sa: seq<int>, sb: seq<int>)
    requires IsPermutation(sa) && IsPermutation(sb) && |sa| == |sb|
    ensures Apply(|sa|, RankWrites(sa, sb)) == seq(|sa|, d requires 0 <= d < |sa| => Some(PairRanks(sa, sb)[d]))
  {
    var ws := RankWrites(sa, sb);
    var arrangement := PairRanks(sa, sb);
    var back := Inverse(sa);
    forall d | 0 <= d < |sa| ensures Apply(|sa|, ws)[d] == Some(arrangement[d]) {
      var i := back[d];
      assert WritesTo(ws, i, d);
      forall i' | i < i' < |ws| ensures !WritesTo(ws, i', d) {
        assert sa[i'] != sa[i];
      }
      ApplyLastWrite(|sa|, ws, d, i);
    }
  }

  // ---------------------------------------------------------------------
  // createArrangement

  /** The scores of both images over the shared grid. */
  function Scores(img: Image, rows: int, cols: int): (b: seq<real>)
    requires WellFormed(img) && rows * cols > 0
    ensures |b| == rows * cols
  {
    MeasureTileBrightness(img, rows, cols)
  }

  /** `createArrangement`: `[]` for an empty grid, a missing image or images
      of different sizes; otherwise a bijective arrangement of all
      `rows * cols` tiles, every rotation 0. */
  function CreateArrangement(imageA: Option<Image>, imageB: Option<Image>, rows: int, cols: int): (arrangement: seq<Entry>)
    requires imageA.Some? ==> WellFormed(imageA.value)
    requires imageB.Some? ==> WellFormed(imageB.value)
    ensures |arrangement| == 0 <==> || Max(0, rows * cols) == 0 || imageA.None? || imageB.None?
                                    || imageA.value.width != imageB.value.width
                                    || imageA.value.height != imageB.value.height
    ensures |arrangement| > 0 ==>
              && |arrangement| == rows * cols && IsBijective(arrangement)
              && forall d :: 0 <= d < |arrangement| ==> arrangement[d].items[1] == 0
  {
    var pieceCount := Max(0, rows * cols);
    if pieceCount == 0 || imageA.None? || imageB.None? then []
    else if imageA.value.width != imageB.value.width || imageA.value.height != imageB.value.height then []
    else
      var a, b := Scores(imageA.value, rows, cols), Scores(imageB.value, rows, cols);
      var arrangement := PairRanks(RankOrder(a), RankOrder(b));
      assert forall d :: 0 <= d < |arrangement| ==> arrangement[d].items[1] == 0 by {
        forall d | 0 <= d < |arrangement| ensures arrangement[d].items[1] == 0 {
          var back := Inverse(RankOrder(a));
          assert arrangement[RankOrder(a)[back[d]]] == Pair(RankOrder(b)[back[d]], 0);
        }
      }
      arrangement
  }

  /** The tile ranked `i` by brightness in the first image is given the slot
      ranked `i` in the second, the rankings ordering by score and then by
      index. */
  lemma CreateArrangementPairsRanks(imageA: Image, imageB: Image, rows: int, cols: int)
    requires WellFormed(imageA) && WellFormed(imageB)
    requires imageA.width == imageB.width && imageA.height == imageB.height && rows * cols > 0
    ensures var arrangement := CreateArrangement(Some(imageA), Some(imageB), rows, cols);
            var a, b := Scores(imageA, rows, cols), Scores(imageB, rows, cols);
            var sa, sb := RankOrder(a), RankOrder(b);
            && RankedBy(a, sa) && RankedBy(b, sb)
            && |arrangement| == rows * cols
            && forall i :: 0 <= i < rows * cols ==> arrangement[sa[i]] == Pair(sb[i], 0)
  {
  }

  /** Pairing by rank preserves order: a destination tile strictly brighter
      than another is given a slot at least as bright as the other's. */
  lemma CreateArrangementMonotone(imageA: Image, imageB: Image, rows: int, cols: int, d: int, e: int)
    requires WellFormed(imageA) && WellFormed(imageB)
    requires imageA.width == imageB.width && imageA.height == imageB.height && rows * cols > 0
    requires 0 <= d < rows * cols && 0 <= e < rows * cols
    requires Scores(imageA, rows, cols)[d] < Scores(imageA, rows, cols)[e]
    ensures var arrangement := CreateArrangement(Some(imageA), Some(imageB), rows, cols);
            var b := Scores(imageB, rows, cols);
            && |arrangement| == rows * cols
            && 0 <= Slots(arrangement)[d] < |b| && 0 <= Slots(arrangement)[e] < |b|
            && b[Slots(arrangement)[d]] <= b[Slots(arrangement)[e]]
  {
    var arrangement := CreateArrangement(Some(imageA), Some(imageB), rows, cols);
    var a, b := Scores(imageA, rows, cols), Scores(imageB, rows, cols);
    var sa, sb := RankOrder(a), RankOrder(b);
    CreateArrangementPairsRanks(imageA, imageB, rows, cols);
    var i, j := IndexOf(sa, d), IndexOf(sa, e);
    RankRespectsScore(a, sa, i, j);
    SortedAt(b, sb, i, j);
    assert arrangement[d] == Pair(sb[i], 0) && arrangement[e] == Pair(sb[j], 0);
  }

  /** An image arranged against itself stays in place: every tile keeps its
      own slot. */
  lemma CreateArrangementSelf(img: Image, rows: int, cols: int)
    requires WellFormed(img) && rows * cols > 0
    ensures CreateArrangement(Some(img), Some(img), rows, cols) == seq(rows * cols, Identity)
  {
    var arrangement := CreateArrangement(Some(img), Some(img), rows, cols);
    var s := RankOrder(Scores(img, rows, cols));
    CreateArrangementPairsRanks(img, img, rows, cols);
    forall d | 0 <= d < rows * cols ensures arrangement[d] == Identity(d) {
      var i := IndexOf(s, d);
      assert arrangement[s[i]] == Pair(s[i], 0);
    }
  }
}
