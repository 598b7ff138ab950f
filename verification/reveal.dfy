/** What the blend is for: on an image cut into equal square tiles, scrambling
    by the reverse of a bijective arrangement and then rearranging by the
    arrangement gives every pixel back, so rearranging a blend shows the
    secondary image (averaged with the rearranged primary). */
module Reveal {
  import opened JsValues
  import opened Pixels
  import opened TileMath
  import opened Perm
  import opened Arrangements
  import opened Tiles
  import opened Blender
  import Metrics

  /** A `width x height` image cut into `rows x cols` square tiles of side `s`. */
  predicate SquareTiles(width: nat, height: nat, rows: int, cols: int, s: int) {
    rows >= 1 && cols >= 1 && s >= 1 && width == s * cols && height == s * rows
  }

  /** `x` is pixel `l` of tile `q` in a span of `k` tiles of side `s`. */
  predicate Splits(x: int, s: int, k: int, q: int, l: int) {
    x == s * q + l && 0 <= q < k && 0 <= l < s
  }

  /** Every coordinate of the span splits into its tile and local offset. */
  lemma Split(s: int, k: int, x: int) returns (q: int, l: int)
    requires s >= 1 && k >= 1 && 0 <= x < s * k
    ensures Splits(x, s, k, q, l)
  {
    q, l := x / s, x % s;
    if q >= k {
      MulMonotone(k, q, s);
      assert false;
    }
  }

  /** A split coordinate lies in the span. */
  lemma SplitInSpan(x: int, s: int, k: int, q: int, l: int)
    requires Splits(x, s, k, q, l)
    ensures 0 <= x < s * k
  {
    MulMonotone(q + 1, k, s);
    MulMonotone(0, q, s);
    assert s * (q + 1) == s * q + s;
  }

  /** With square tiles the stops are the multiples of the side. */
  lemma UniformStops(size: int, s: int, k: int, i: int)
    requires s >= 1 && k >= 1 && size == s * k && 0 <= i <= k
    ensures ComputeStops(size, k)[i] == s * i
  {
    DivModUnique(size, k, s, 0);
    StopsClosedForm(size, k, i);
  }

  /** Tile `q` spans `[s * q, s * q + s)`. */
  lemma TileBounds(size: int, s: int, k: int, q: int)
    requires s >= 1 && size == s * k && 0 <= q < k
    ensures var stops := ComputeStops(size, k);
            stops[q] == s * q && stops[q + 1] == s * q + s
  {
    UniformStops(size, s, k, q);
    UniformStops(size, s, k, q + 1);
    assert s * (q + 1) == s * q + s;
  }

  /** A split coordinate is located in its tile. */
  lemma UniformLocate(size: nat, s: int, k: int, x: int, q: int, l: int)
    requires size == s * k && Splits(x, s, k, q, l)
    ensures 0 <= x < size
    ensures var stops := ComputeStops(size, k);
            && NonDecreasing(stops) && stops[0] <= x < stops[|stops| - 1]
            && Locate(stops, x) == q
  {
    SplitInSpan(x, s, k, q, l);
    TileBounds(size, s, k, q);
    StopsPartition(size, k);
    LocateUnique(ComputeStops(size, k), x, q);
  }

  /** The tile of pixel `(x, y)` under square tiles. */
  lemma UniformPlace(width: nat, height: nat, rows: int, cols: int, s: int,
                     x: int, y: int, qx: int, lx: int, qy: int, ly: int)
    requires SquareTiles(width, height, rows, cols, s)
    requires Splits(x, s, cols, qx, lx) && Splits(y, s, rows, qy, ly)
    ensures 0 <= x < width && 0 <= y < height
    ensures PlaceOf(width, height, rows, cols, x, y) == Place(qy, qx, qy * cols + qx)
  {
    UniformLocate(width, s, cols, x, qx, lx);
    UniformLocate(height, s, rows, y, qy, ly);
  }

  /** Slot `t` of a `rows x cols` grid sits in a column and a row of the
      grid. */
  lemma SlotInGrid(t: int, rows: int, cols: int) returns (sr: int, sc: int)
    requires rows >= 1 && cols >= 1 && 0 <= t < rows * cols
    ensures Splits(t, cols, rows, sr, sc)
  {
    sr, sc := Split(cols, rows, t);
  }

  /** The pixel of slot tile `(sr, sc)` that local `(lx, ly)` of a tile
      showing that slot turned by `r` reads: the local position turned by
      `rotateCoord` with `(4 - r) mod 4`. */
  function ReadFrom(s: int, sr: int, sc: int, r: int, lx: int, ly: int): Metrics.Coord {
    var c := Metrics.RotateCoord(lx, ly, s, (4 - r) % 4);
    Metrics.Coord(s * sc + c.x, s * sr + c.y)
  }

  /** A slot tile of side `s` read at local `(lx, ly)` of a tile of side `s`
      gives the local position turned by `rotateCoord` with
      `(4 - r) mod 4`. */
  lemma SquareSourcePixel(colStops: seq<int>, rowStops: seq<int>, rows: int, cols: int, s: int,
                          slot: int, sr: int, sc: int, r: int, lx: int, ly: int)
    requires rows >= 1 && cols >= 1 && |colStops| == cols + 1 && |rowStops| == rows + 1
    requires Splits(slot, cols, rows, sr, sc) && 0 <= r < 4 && 0 <= lx < s && 0 <= ly < s
    requires colStops[sc] == s * sc && colStops[sc + 1] == s * sc + s
    requires rowStops[sr] == s * sr && rowStops[sr + 1] == s * sr + s
    ensures var p := SourcePixel(colStops, rowStops, rows, cols, slot, r, lx, ly, s, s);
            var q := ReadFrom(s, sr, sc, r, lx, ly);
            p.x == q.x && p.y == q.y
  {
    DivModUnique(slot, cols, sr, sc);
    assert Max(0, Min(cols - 1, Rem(slot, cols))) == sc;
    assert Max(0, Min(rows - 1, FloorDiv(slot, cols))) == sr;
    SampleMatchesRotateCoord(s, lx, ly, r);
  }

  /** The sampler reads local `(lx, ly)` of its tile of side `s`. */
  lemma SampleAtLocal(width: nat, height: nat, rows: int, cols: int, pl: Place, slot: int, r: int,
                      x: int, y: int, lx: int, ly: int, s: int)
    requires rows >= 1 && cols >= 1 && 0 <= pl.pieceRow < rows && 0 <= pl.pieceCol < cols
    requires var colStops, rowStops := ComputeStops(width, cols), ComputeStops(height, rows);
             && x - colStops[pl.pieceCol] == lx && colStops[pl.pieceCol + 1] - colStops[pl.pieceCol] == s
             && y - rowStops[pl.pieceRow] == ly && rowStops[pl.pieceRow + 1] - rowStops[pl.pieceRow] == s
    ensures SampleAt(width, height, rows, cols, pl, slot, r, x, y)
            == SourcePixel(ComputeStops(width, cols), ComputeStops(height, rows), rows, cols, slot, r, lx, ly, s, s)
  {
  }

  /** Under square tiles the resampler reads, for a tile showing an in-range
      slot, exactly the pixel `ReadFrom` names. */
  lemma UniformSample(width: nat, height: nat, rows: int, cols: int, s: int,
                      x: int, y: int, qx: int, lx: int, qy: int, ly: int,
                      slot: int, sr: int, sc: int, r: int)
    requires SquareTiles(width, height, rows, cols, s)
    requires Splits(x, s, cols, qx, lx) && Splits(y, s, rows, qy, ly)
    requires Splits(slot, cols, rows, sr, sc) && 0 <= r < 4
    ensures var p := SampleAt(width, height, rows, cols, Place(qy, qx, qy * cols + qx), slot, r, x, y);
            var q := ReadFrom(s, sr, sc, r, lx, ly);
            p.x == q.x && p.y == q.y
  {
    var colStops, rowStops := ComputeStops(width, cols), ComputeStops(height, rows);
    TileBounds(width, s, cols, qx);
    TileBounds(height, s, rows, qy);
    TileBounds(width, s, cols, sc);
    TileBounds(height, s, rows, sr);
    assert x - colStops[qx] == lx && colStops[qx + 1] - colStops[qx] == s;
    assert y - rowStops[qy] == ly && rowStops[qy + 1] - rowStops[qy] == s;
    SampleAtLocal(width, height, rows, cols, Place(qy, qx, qy * cols + qx), slot, r, x, y, lx, ly, s);
    SquareSourcePixel(colStops, rowStops, rows, cols, s, slot, sr, sc, r, lx, ly);
  }

  /** Either reader takes an entry `[t, r]` with `r` in `[0, 4)` as slot `t`
      turned by `r`. */
  lemma PickPair(a: seq<Entry>, pl: Place, lenient: bool, t: int, r: int)
    requires 0 <= pl.pieceIndex < |a| && a[pl.pieceIndex] == Pair(t, r) && 0 <= r < 4
    ensures PickAt(a, pl, lenient) == From(t, r)
  {
    assert And3(r) == r;
  }

  /** Byte `c` of pixel `(x, y)`, in a tile whose entry is `[t, r]` with
      `t` a slot of the grid, is the source byte `ReadFrom` names, a pixel
      inside the image. */
  lemma EntryPixel(img: Image, rows: int, cols: int, s: int, a: seq<Entry>, lenient: bool,
                   x: int, y: int, qx: int, lx: int, qy: int, ly: int, t: int, sr: int, sc: int, r: int, c: int)
    requires SquareTiles(img.width, img.height, rows, cols, s) && WellFormed(img) && |a| == rows * cols
    requires Splits(x, s, cols, qx, lx) && Splits(y, s, rows, qy, ly) && 0 <= c < 4
    requires 0 <= qy * cols + qx < |a| && a[qy * cols + qx] == Pair(t, r) && 0 <= r < 4
    requires Splits(t, cols, rows, sr, sc)
    ensures 0 <= x < img.width && 0 <= y < img.height
    ensures var q := ReadFrom(s, sr, sc, r, lx, ly);
            && Splits(q.x, s, cols, sc, q.x - s * sc) && Splits(q.y, s, rows, sr, q.y - s * sr)
            && 0 <= q.x < img.width && 0 <= q.y < img.height
            && 0 <= Offset(img.width, q.x, q.y, c) < |img.data|
            && ResampledByte(img, rows, cols, a, lenient, x, y, c) == img.data[Offset(img.width, q.x, q.y, c)]
  {
    UniformPlace(img.width, img.height, rows, cols, s, x, y, qx, lx, qy, ly);
    var pl := Place(qy, qx, qy * cols + qx);
    PickPair(a, pl, lenient, t, r);
    UniformSample(img.width, img.height, rows, cols, s, x, y, qx, lx, qy, ly, t, sr, sc, r);
    var q := ReadFrom(s, sr, sc, r, lx, ly);
    ReadFromInRange(s, rows, cols, sr, sc, r, lx, ly);
    OffsetInBounds(img.width, img.height, q.x, q.y, c);
  }

  /** For a rotation in `[0, 4)`, `undo(r)` is the `(4 - r) mod 4` that
      `ReadFrom` turns by, and undoing it gives `r` back. */
  lemma UndoTurn(r: int) returns (u: int)
    requires 0 <= r < 4
    ensures u == Undo(r) == (4 - r) % 4 && (4 - u) % 4 == r
  {
    UndoClosedForm(r);
    u := (4 - r) % 4;
    if r == 0 { assert u == 0; } else { assert u == 4 - r; }
  }

  /** Turning by `u = (4 - r) mod 4` and then by `r` is the identity. */
  lemma TurnBack(x: int, y: int, size: int, r: int, u: int)
    requires 0 <= r < 4 && u == (4 - r) % 4
    ensures var c := Metrics.RotateCoord(x, y, size, u);
            Metrics.RotateCoord(c.x, c.y, size, r) == Metrics.Coord(x, y)
  {
    Metrics.RotateCoordGroup(x, y, size, r, u);
    if r == 0 { assert u == 0; } else { assert u == 4 - r; }
  }

  /** Reading through a slot's rotation and then back through the undoing
      rotation returns to the starting local position. */
  lemma ReadFromInverse(s: int, sr: int, sc: int, qy: int, qx: int, r: int, lx: int, ly: int)
    requires s >= 1 && 0 <= r < 4 && 0 <= lx < s && 0 <= ly < s
    ensures var q := ReadFrom(s, sr, sc, r, lx, ly);
            var back := ReadFrom(s, qy, qx, Undo(r), q.x - s * sc, q.y - s * sr);
            back == Metrics.Coord(s * qx + lx, s * qy + ly)
  {
    var u := UndoTurn(r);
    var c1 := Metrics.RotateCoord(lx, ly, s, u);
    var q := ReadFrom(s, sr, sc, r, lx, ly);
    assert q.x - s * sc == c1.x && q.y - s * sr == c1.y;
    TurnBack(lx, ly, s, r, u);
  }

  /** An image resampled by an arrangement whose slot `t` holds
      `[i, undo(r)]` holds, at the pixel that `[t, r]` reads for local
      `(lx, ly)`, the original pixel `(lx, ly)` of tile `i`. */
  lemma ScrambledRead(img: Image, rows: int, cols: int, s: int, inv: seq<Entry>,
                      x: int, y: int, qx: int, lx: int, qy: int, ly: int, t: int, sr: int, sc: int, r: int, c: int)
    requires SquareTiles(img.width, img.height, rows, cols, s) && WellFormed(img) && |inv| == rows * cols
    requires Splits(x, s, cols, qx, lx) && Splits(y, s, rows, qy, ly) && 0 <= c < 4 && 0 <= r < 4
    requires Splits(t, cols, rows, sr, sc) && 0 <= t < |inv| && inv[t] == Pair(qy * cols + qx, Undo(r))
    requires 0 <= x < img.width && 0 <= y < img.height && 0 <= Offset(img.width, x, y, c) < |img.data|
    ensures var q := ReadFrom(s, sr, sc, r, lx, ly);
            && 0 <= q.x < img.width && 0 <= q.y < img.height
            && ResampledByte(img, rows, cols, inv, false, q.x, q.y, c) == img.data[Offset(img.width, x, y, c)]
  {
    var q := ReadFrom(s, sr, sc, r, lx, ly);
    Metrics.RotateCoordGroup(lx, ly, s, (4 - r) % 4, 0);
    var qlx, qly := q.x - s * sc, q.y - s * sr;
    assert sr * cols + sc == t;
    SplitInSpan(qy * cols + qx, cols, rows, qy, qx);
    EntryPixel(img, rows, cols, s, inv, false, q.x, q.y, sc, qlx, sr, qly, qy * cols + qx, qy, qx, Undo(r), c);
    ReadFromInverse(s, sr, sc, qy, qx, r, lx, ly);
    var back := ReadFrom(s, qy, qx, Undo(r), qlx, qly);
    assert back.x == x && back.y == y;
    assert img.data[Offset(img.width, back.x, back.y, c)] == img.data[Offset(img.width, x, y, c)];
  }

  /** Entry `i` of a bijective arrangement is the pair of its slot and
      rotation, and its slot sits in the grid. */
  lemma BijectiveEntry(a: seq<Entry>, rows: int, cols: int, i: int) returns (t: int, r: int, sr: int, sc: int)
    requires IsBijective(a) && |a| == rows * cols && rows >= 1 && cols >= 1 && 0 <= i < |a|
    ensures a[i] == Pair(t, r) && 0 <= r < 4 && Slots(a)[i] == t && Splits(t, cols, rows, sr, sc)
    ensures Invert(Array(a))[t] == Pair(i, Undo(r))
  {
    t, r := a[i].items[0], a[i].items[1];
    assert a[i].items == [t, r];
    assert Slots(a)[i] == t;
    sr, sc := SlotInGrid(t, rows, cols);
    InvertBijective(a);
  }

  /** `out` holds, at every pixel of `img`, the resampled byte. */
  predicate Resampled(out: Image, img: Image, rows: int, cols: int, a: seq<Entry>, lenient: bool)
    requires rows >= 1 && cols >= 1 && |a| == rows * cols
  {
    && out.width == img.width && out.height == img.height && WellFormed(out)
    && forall x, y, c :: 0 <= x < img.width && 0 <= y < img.height && 0 <= c < 4 ==>
         && 0 <= Offset(img.width, x, y, c) < |out.data|
         && out.data[Offset(img.width, x, y, c)] == ResampledByte(img, rows, cols, a, lenient, x, y, c)
  }

  lemma ResampleIsResampled(img: Image, rows: int, cols: int, a: seq<Entry>, lenient: bool)
    requires rows >= 1 && cols >= 1 && |a| == rows * cols
    ensures Resampled(Resample(img, rows, cols, a, lenient), img, rows, cols, a, lenient)
  {
    forall x, y, c | 0 <= x < img.width && 0 <= y < img.height && 0 <= c < 4
      ensures && 0 <= Offset(img.width, x, y, c) < |Resample(img, rows, cols, a, lenient).data|
              && Resample(img, rows, cols, a, lenient).data[Offset(img.width, x, y, c)]
                 == ResampledByte(img, rows, cols, a, lenient, x, y, c)
    {
      ResampleAt(img, rows, cols, a, lenient, x, y, c);
    }
  }

  /** Two well-formed images of the same size that agree at every pixel are
      equal. */
  lemma SameImage(p: Image, q: Image)
    requires WellFormed(p) && WellFormed(q) && p.width == q.width && p.height == q.height
    requires forall x, y, c :: 0 <= x < p.width && 0 <= y < p.height && 0 <= c < 4 ==>
               0 <= Offset(p.width, x, y, c) < |p.data| && p.data[Offset(p.width, x, y, c)] == q.data[Offset(p.width, x, y, c)]
    ensures p == q
  {
    forall o | 0 <= o < |p.data| ensures p.data[o] == q.data[o] {
      EncodeOffset(p.width, p.height, o);
      var x, y, c := ColumnOf(p.width, o), RowOf(p.width, o), ChannelOf(o);
      assert p.data[Offset(p.width, x, y, c)] == q.data[Offset(p.width, x, y, c)];
    }
  }

  /** One byte of the round trip, for the tile `i = qy * cols + qx` whose
      entry is `[t, r]` while the scrambling arrangement holds
      `[i, undo(r)]` at slot `t`. */
  lemma RoundTripAt(img: Image, scrambled: Image, rows: int, cols: int, s: int, a: seq<Entry>, inv: seq<Entry>,
                    x: int, y: int, qx: int, lx: int, qy: int, ly: int, t: int, sr: int, sc: int, r: int, c: int)
    requires SquareTiles(img.width, img.height, rows, cols, s) && WellFormed(img)
    requires |a| == rows * cols && |inv| == rows * cols
    requires Resampled(scrambled, img, rows, cols, inv, false)
    requires 0 <= x < img.width && 0 <= y < img.height
    requires Splits(x, s, cols, qx, lx) && Splits(y, s, rows, qy, ly) && 0 <= c < 4
    requires 0 <= qy * cols + qx < |a| && a[qy * cols + qx] == Pair(t, r) && 0 <= r < 4
    requires Splits(t, cols, rows, sr, sc) && 0 <= t < |inv| && inv[t] == Pair(qy * cols + qx, Undo(r))
    ensures 0 <= Offset(img.width, x, y, c) < |img.data|
    ensures ResampledByte(scrambled, rows, cols, a, true, x, y, c) == img.data[Offset(img.width, x, y, c)]
  {
    var w := img.width;
    OffsetInBounds(w, img.height, x, y, c);
    var q := ReadFrom(s, sr, sc, r, lx, ly);
    var o := Offset(w, q.x, q.y, c);
    assert 0 <= q.x < w && 0 <= q.y < img.height && 0 <= o < |scrambled.data|
           && ResampledByte(scrambled, rows, cols, a, true, x, y, c) == scrambled.data[o] by {
      EntryPixel(scrambled, rows, cols, s, a, true, x, y, qx, lx, qy, ly, t, sr, sc, r, c);
    }
    ScrambledRead(img, rows, cols, s, inv, x, y, qx, lx, qy, ly, t, sr, sc, r, c);
    assert scrambled.data[o] == ResampledByte(img, rows, cols, inv, false, q.x, q.y, c);
  }

  /** Scrambling by the inverse of a bijective arrangement and rearranging
      by the arrangement restores every byte. */
  lemma RoundTripPixel(img: Image, scrambled: Image, rows: int, cols: int, s: int, a: seq<Entry>, x: int, y: int, c: int)
    requires SquareTiles(img.width, img.height, rows, cols, s) && WellFormed(img)
    requires IsBijective(a) && |a| == rows * cols
    requires Resampled(scrambled, img, rows, cols, Invert(Array(a)), false)
    requires 0 <= x < img.width && 0 <= y < img.height && 0 <= c < 4
    ensures 0 <= Offset(img.width, x, y, c) < |img.data|
    ensures ResampledByte(scrambled, rows, cols, a, true, x, y, c) == img.data[Offset(img.width, x, y, c)]
  {
    var qx, lx := Split(s, cols, x);
    var qy, ly := Split(s, rows, y);
    var i := qy * cols + qx;
    SplitInSpan(i, cols, rows, qy, qx);
    var t, r, sr, sc := BijectiveEntry(a, rows, cols, i);
    RoundTripAt(img, scrambled, rows, cols, s, a, Invert(Array(a)), x, y, qx, lx, qy, ly, t, sr, sc, r, c);
  }

  /** The round trip on whole images: `applyArrangement` by a bijective
      arrangement undoes `applyArrangementToImage` by its inverse. */
  lemma RoundTrip(img: Image, rows: int, cols: int, s: int, a: seq<Entry>)
    requires SquareTiles(img.width, img.height, rows, cols, s) && WellFormed(img)
    requires IsBijective(a) && |a| == rows * cols
    ensures var scrambled := ApplyArrangementToImage(Some(img), rows, cols, Array(Invert(Array(a))));
            scrambled.Some? && ApplyArrangement(scrambled, rows, cols, Array(a)) == Some(img)
  {
    var inv := Invert(Array(a));
    var scrambled := Resample(img, rows, cols, inv, false);
    var back := Resample(scrambled, rows, cols, a, true);
    ResampleIsResampled(img, rows, cols, inv, false);
    ResampleIsResampled(scrambled, rows, cols, a, true);
    forall x, y, c | 0 <= x < img.width && 0 <= y < img.height && 0 <= c < 4
      ensures 0 <= Offset(img.width, x, y, c) < |img.data| && img.data[Offset(img.width, x, y, c)] == back.data[Offset(img.width, x, y, c)]
    {
      RoundTripPixel(img, scrambled, rows, cols, s, a, x, y, c);
    }
    SameImage(img, back);
  }

  /** `blend` holds, byte by byte, the opaque mean of `primary` and
      `scrambled`. */
  predicate Blended(blend: Image, primary: Image, scrambled: Image) {
    && |blend.data| == |primary.data| == |scrambled.data|
    && forall o :: 0 <= o < |blend.data| ==>
         blend.data[o] == if o % 4 == 3 then 255 else AverageChannel(primary.data[o], scrambled.data[o])
  }

  lemma BlendIsBlended(primary: Image, secondary: Image, rows: int, cols: int, a: seq<Entry>)
    requires WellFormed(primary) && WellFormed(secondary)
    requires secondary.width == primary.width && secondary.height == primary.height
    requires rows >= 1 && cols >= 1 && IsBijective(a) && |a| == rows * cols
    ensures var blend := BlendWithArrangement(Some(primary), Some(secondary), rows, cols, Array(a));
            && blend.Some? && blend.value.width == primary.width && blend.value.height == primary.height
            && WellFormed(blend.value)
            && Blended(blend.value, primary, Resample(secondary, rows, cols, Invert(Array(a)), false))
  {
    ScrambleOrderBijective(a);
  }

  /** A slot tile read through a rotation stays inside the slot tile. */
  lemma ReadFromInRange(s: int, rows: int, cols: int, sr: int, sc: int, r: int, lx: int, ly: int)
    requires s >= 1 && 0 <= sr < rows && 0 <= sc < cols && 0 <= r < 4 && 0 <= lx < s && 0 <= ly < s
    ensures var q := ReadFrom(s, sr, sc, r, lx, ly);
            && Splits(q.x, s, cols, sc, q.x - s * sc) && Splits(q.y, s, rows, sr, q.y - s * sr)
            && 0 <= q.x < s * cols && 0 <= q.y < s * rows
  {
    var q := ReadFrom(s, sr, sc, r, lx, ly);
    Metrics.RotateCoordGroup(lx, ly, s, (4 - r) % 4, 0);
    SplitInSpan(q.x, s, cols, sc, q.x - s * sc);
    SplitInSpan(q.y, s, rows, sr, q.y - s * sr);
  }

  /** Under a bijective arrangement, destination pixel `(x, y)` of any image
      of the given size is copied from one source pixel `(px, py)`, the same
      for every image of that size. */
  lemma ReadPoint(width: nat, height: nat, rows: int, cols: int, s: int, a: seq<Entry>, x: int, y: int)
    returns (px: int, py: int)
    requires SquareTiles(width, height, rows, cols, s) && IsBijective(a) && |a| == rows * cols
    requires 0 <= x < width && 0 <= y < height
    ensures 0 <= px < width && 0 <= py < height
    ensures forall img: Image, c :: img.width == width && img.height == height && WellFormed(img) && 0 <= c < 4 ==>
              && 0 <= Offset(width, px, py, c) < |img.data|
              && ResampledByte(img, rows, cols, a, true, x, y, c) == img.data[Offset(width, px, py, c)]
  {
    var qx, lx := Split(s, cols, x);
    var qy, ly := Split(s, rows, y);
    var i := qy * cols + qx;
    SplitInSpan(i, cols, rows, qy, qx);
    var t, r, sr, sc := BijectiveEntry(a, rows, cols, i);
    var q := ReadFrom(s, sr, sc, r, lx, ly);
    px, py := q.x, q.y;
    forall img: Image, c | img.width == width && img.height == height && WellFormed(img) && 0 <= c < 4
      ensures && 0 <= Offset(width, px, py, c) < |img.data|
              && ResampledByte(img, rows, cols, a, true, x, y, c) == img.data[Offset(width, px, py, c)]
    {
      EntryPixel(img, rows, cols, s, a, true, x, y, qx, lx, qy, ly, t, sr, sc, r, c);
    }
    ReadFromInRange(s, rows, cols, sr, sc, r, lx, ly);
  }

  /** One byte of the rearranged blend: the opaque mean of the rearranged
      primary and the secondary image at the same place. */
  lemma BlendRevealPixel(primary: Image, secondary: Image, scrambled: Image, blend: Image,
                         rows: int, cols: int, s: int, a: seq<Entry>, x: int, y: int, c: int)
    requires SquareTiles(primary.width, primary.height, rows, cols, s) && WellFormed(primary) && WellFormed(secondary)
    requires secondary.width == primary.width && secondary.height == primary.height
    requires IsBijective(a) && |a| == rows * cols
    requires Resampled(scrambled, secondary, rows, cols, Invert(Array(a)), false)
    requires blend.width == primary.width && blend.height == primary.height && Blended(blend, primary, scrambled)
    requires 0 <= x < primary.width && 0 <= y < primary.height && 0 <= c < 4
    ensures 0 <= Offset(primary.width, x, y, c) < |secondary.data|
    ensures ResampledByte(blend, rows, cols, a, true, x, y, c)
            == if c == 3 then 255
               else AverageChannel(ResampledByte(primary, rows, cols, a, true, x, y, c),
                                   secondary.data[Offset(primary.width, x, y, c)])
  {
    var w := primary.width;
    OffsetInBounds(w, primary.height, x, y, c);
    var px, py := ReadPoint(w, primary.height, rows, cols, s, a, x, y);
    var qo := Offset(w, px, py, c);
    assert ResampledByte(blend, rows, cols, a, true, x, y, c) == blend.data[qo];
    assert ResampledByte(primary, rows, cols, a, true, x, y, c) == primary.data[qo];
    assert ResampledByte(scrambled, rows, cols, a, true, x, y, c) == scrambled.data[qo];
    RoundTripPixel(secondary, scrambled, rows, cols, s, a, x, y, c);
    DecodeOffset(w, px, py, c);
    assert blend.data[qo] == if qo % 4 == 3 then 255 else AverageChannel(primary.data[qo], scrambled.data[qo]);
  }

  /** Rearranging a blend by its own arrangement shows, in every colour
      channel, the mean of the rearranged primary and the secondary image,
      fully opaque. */
  lemma BlendReveal(primary: Image, secondary: Image, rows: int, cols: int, s: int, a: seq<Entry>, x: int, y: int, c: int)
    requires SquareTiles(primary.width, primary.height, rows, cols, s) && WellFormed(primary) && WellFormed(secondary)
    requires secondary.width == primary.width && secondary.height == primary.height
    requires IsBijective(a) && |a| == rows * cols
    requires 0 <= x < primary.width && 0 <= y < primary.height && 0 <= c < 4
    ensures 0 <= Offset(primary.width, x, y, c) < |primary.data|
    ensures var blend := BlendWithArrangement(Some(primary), Some(secondary), rows, cols, Array(a));
            && blend.Some?
            && var shown := ApplyArrangement(blend, rows, cols, Array(a)).value;
               var straight := ApplyArrangement(Some(primary), rows, cols, Array(a)).value;
               var o := Offset(primary.width, x, y, c);
               shown.data[o] == if c == 3 then 255 else AverageChannel(straight.data[o], secondary.data[o])
  {
    OffsetInBounds(primary.width, primary.height, x, y, c);
    BlendIsBlended(primary, secondary, rows, cols, a);
    var blend := BlendWithArrangement(Some(primary), Some(secondary), rows, cols, Array(a)).value;
    var scrambled := Resample(secondary, rows, cols, Invert(Array(a)), false);
    ResampleIsResampled(secondary, rows, cols, Invert(Array(a)), false);
    BlendRevealPixel(primary, secondary, scrambled, blend, rows, cols, s, a, x, y, c);
    ResampleAt(blend, rows, cols, a, true, x, y, c);
    ResampleAt(primary, rows, cols, a, true, x, y, c);
  }
}
