/** The tile resampler shared by rearranger.js (`applyArrangement`) and
    blender.js (`applyArrangementToImage`): every destination tile of the
    `computeStops` grid shows the slot tile its arrangement entry names,
    turned by the entry's rotation, sampled nearest-neighbour at the centres
    of the destination pixels in normalised tile coordinates. */
module Tiles {
  import opened JsValues
  import opened Pixels
  import opened TileMath
  import opened Arrangements
  import Metrics

  /** `rotateUV`: the quarter turn of normalised tile coordinates selected by
      `rotation & 3`. */
  function RotateUV(u: real, v: real, rotation: int): (uv: (real, real))
    ensures 0.0 <= u <= 1.0 && 0.0 <= v <= 1.0 ==> 0.0 <= uv.0 <= 1.0 && 0.0 <= uv.1 <= 1.0
    ensures rotation % 4 == 0 ==> uv == (u, v)
  {
    var r := And3(rotation);
    if r == 1 then (1.0 - v, u)
    else if r == 2 then (1.0 - u, 1.0 - v)
    else if r == 3 then (v, 1.0 - u)
    else (u, v)
  }

  /** Turns compose by adding their counts modulo 4, so four turns of 1 are
      the identity. */
  lemma RotateUVGroup(u: real, v: real, a: int, b: int)
    requires 0 <= a < 4 && 0 <= b < 4
    ensures var p := RotateUV(u, v, b);
            RotateUV(p.0, p.1, a) == RotateUV(u, v, (a + b) % 4)
  {
  }

  /** `clampToInt`: `floor(value * span)` clamped into `[0, span - 1]`, and 0
      for a span of at most one pixel. */
  function ClampToInt(value: real, span: int): (k: int)
    ensures span <= 1 ==> k == 0
    ensures span > 1 ==> 0 <= k <= span - 1
    ensures span > 1 && 0.0 <= value && value * span as real < span as real ==> k == (value * span as real).Floor
  {
    if span <= 1 then 0
    else
      var scaled := (value * span as real).Floor;
      Max(0, Min(span - 1, scaled))
  }

  /** The normalised coordinate of the centre of pixel `local` of a span:
      `span > 1 ? (local + 0.5) / span : 0.5`. */
  function Centre(local: int, span: int): real {
    if span > 1 then (local as real + 0.5) / span as real else 0.5
  }

  /** Sampling a span at the centre of its own pixel `l` gives back `l`, and
      at the mirrored centre gives `span - 1 - l`. */
  lemma CentreSample(l: int, s: int)
    requires 0 <= l < s
    ensures ClampToInt(Centre(l, s), s) == l
    ensures ClampToInt(1.0 - Centre(l, s), s) == s - 1 - l
  {
    if s > 1 {
      var c := Centre(l, s);
      assert c * s as real == l as real + 0.5;
      assert (1.0 - c) * s as real == (s - 1 - l) as real + 0.5;
    }
  }

  /** On a square tile sampled into a slot of the same size, rotation `r`
      picks, for local pixel `(x, y)`, the pixel `rotateCoord` picks for
      rotation `(4 - r) mod 4`: the normalised-coordinate turn of the
      resampler is the inverse of the pixel turn of the distance search. */
  lemma SampleMatchesRotateCoord(s: int, x: int, y: int, r: int)
    requires 0 <= x < s && 0 <= y < s && 0 <= r < 4
    ensures var uv := RotateUV(Centre(x, s), Centre(y, s), r);
            var c := Metrics.RotateCoord(x, y, s, (4 - r) % 4);
            ClampToInt(uv.0, s) == c.x && ClampToInt(uv.1, s) == c.y
  {
    CentreSample(x, s);
    CentreSample(y, s);
  }

  /** What an arrangement entry asks a destination tile to show: nothing, or
      slot `slot` turned by `rotation`. */
  datatype Pick = Blank | From(slot: int, rotation: int)

  /** rearranger.js: a non-array entry keeps the piece in place unrotated; an
      empty array names slot `undefined`, whose samples all read as 0. */
  function ReadLenient(e: Entry, pieceIndex: int): (p: Pick)
    ensures p.From? ==> 0 <= p.rotation < 4
  {
    if e.NotArray? then From(pieceIndex, 0)
    else if |e.items| == 0 then Blank
    else From(e.items[0], if |e.items| > 1 then And3(e.items[1]) else 0)
  }

  /** blender.js: a non-array entry leaves its tile empty. */
  function ReadStrict(e: Entry): (p: Pick)
    ensures p.From? ==> 0 <= p.rotation < 4
  {
    if e.NotArray? || |e.items| == 0 then Blank
    else From(e.items[0], if |e.items| > 1 then And3(e.items[1]) else 0)
  }

  /** The sampled source pixel, with the slot tile it was taken from. */
  datatype Sample = Sample(slotCol: int, slotRow: int, x: int, y: int)

  /** The source pixel sampled for local pixel `(lx, ly)` of a `tileW x tileH`
      destination tile that shows slot `slot` turned by `rotation`. The slot's
      column and row are clamped into the grid, and the sample lies in the
      slot tile's span (one pixel wide when the span is empty). */
  function SourcePixel(colStops: seq<int>, rowStops: seq<int>, rows: int, cols: int,
                       slot: int, rotation: int, lx: int, ly: int, tileW: int, tileH: int): (p: Sample)
    requires rows >= 1 && cols >= 1 && |colStops| == cols + 1 && |rowStops| == rows + 1
    ensures 0 <= p.slotCol < cols && 0 <= p.slotRow < rows
    ensures colStops[p.slotCol] <= p.x < colStops[p.slotCol] + Max(1, colStops[p.slotCol + 1] - colStops[p.slotCol])
    ensures rowStops[p.slotRow] <= p.y < rowStops[p.slotRow] + Max(1, rowStops[p.slotRow + 1] - rowStops[p.slotRow])
  {
    var slotCol := Max(0, Min(cols - 1, Rem(slot, cols)));
    var slotRow := Max(0, Min(rows - 1, FloorDiv(slot, cols)));
    var slotW := Max(1, colStops[slotCol + 1] - colStops[slotCol]);
    var slotH := Max(1, rowStops[slotRow + 1] - rowStops[slotRow]);
    var uv := RotateUV(Centre(lx, tileW), Centre(ly, tileH), rotation);
    Sample(slotCol, slotRow, colStops[slotCol] + ClampToInt(uv.0, slotW), rowStops[slotRow] + ClampToInt(uv.1, slotH))
  }

  lemma PieceIndexBound(pr: int, pc: int, rows: int, cols: int)
    requires 0 <= pr < rows && 0 <= pc < cols
    ensures 0 <= pr * cols + pc < rows * cols
  {
    MulMonotone(pr + 1, rows, cols);
    MulMonotone(0, pr, cols);
  }

  /** The tile of destination pixel `(x, y)` and its arrangement index. */
  datatype Place = Place(pieceRow: int, pieceCol: int, pieceIndex: int)

  function PlaceOf(width: nat, height: nat, rows: int, cols: int, x: int, y: int): (pl: Place)
    requires rows >= 1 && cols >= 1 && 0 <= x < width && 0 <= y < height
    ensures 0 <= pl.pieceRow < rows && 0 <= pl.pieceCol < cols
    ensures pl.pieceIndex == pl.pieceRow * cols + pl.pieceCol && 0 <= pl.pieceIndex < rows * cols
    ensures var colStops, rowStops := ComputeStops(width, cols), ComputeStops(height, rows);
            && colStops[pl.pieceCol] <= x < colStops[pl.pieceCol + 1]
            && rowStops[pl.pieceRow] <= y < rowStops[pl.pieceRow + 1]
  {
    StopsPartition(width, cols);
    StopsPartition(height, rows);
    var pc := Locate(ComputeStops(width, cols), x);
    var pr := Locate(ComputeStops(height, rows), y);
    PieceIndexBound(pr, pc, rows, cols);
    Place(pr, pc, pr * cols + pc)
  }

  /** What the arrangement entry of tile `pl` asks for. */
  function PickAt(a: seq<Entry>, pl: Place, lenient: bool): (p: Pick)
    requires 0 <= pl.pieceIndex < |a|
    ensures p.From? ==> 0 <= p.rotation < 4
  {
    if lenient then ReadLenient(a[pl.pieceIndex], pl.pieceIndex) else ReadStrict(a[pl.pieceIndex])
  }

  /** The source pixel sampled for destination pixel `(x, y)` of tile `pl`
      when that tile shows slot `slot` turned by `rotation`. */
  function SampleAt(width: nat, height: nat, rows: int, cols: int, pl: Place, slot: int, rotation: int, x: int, y: int): (s: Sample)
    requires rows >= 1 && cols >= 1 && 0 <= pl.pieceRow < rows && 0 <= pl.pieceCol < cols
  {
    var colStops, rowStops := ComputeStops(width, cols), ComputeStops(height, rows);
    SourcePixel(colStops, rowStops, rows, cols, slot, rotation,
                x - colStops[pl.pieceCol], y - rowStops[pl.pieceRow],
                colStops[pl.pieceCol + 1] - colStops[pl.pieceCol], rowStops[pl.pieceRow + 1] - rowStops[pl.pieceRow])
  }

  /** Byte `c` of destination pixel `(x, y)`: the sampled source byte of the
      pixel's tile, read through the flat offset (0 outside the buffer), or 0
      for a blank tile. */
  function ResampledByte(img: Image, rows: int, cols: int, a: seq<Entry>, lenient: bool, x: int, y: int, c: int): Byte
    requires rows >= 1 && cols >= 1 && |a| == rows * cols
    requires 0 <= x < img.width && 0 <= y < img.height
  {
    var pl := PlaceOf(img.width, img.height, rows, cols, x, y);
    match PickAt(a, pl, lenient)
    case Blank => 0
    case From(slot, rotation) =>
      var s := SampleAt(img.width, img.height, rows, cols, pl, slot, rotation, x, y);
      ByteAt(img.data, Offset(img.width, s.x, s.y, c))
  }

  /** The bytes of the output buffer, in offset order. */
  function ResampleData(img: Image, rows: int, cols: int, a: seq<Entry>, lenient: bool): (data: seq<Byte>)
    requires |a| == rows * cols
    ensures |data| == 4 * img.width * img.height
  {
    var w, h := img.width, img.height;
    seq(4 * w * h, o requires 0 <= o < 4 * w * h =>
      if rows >= 1 && cols >= 1 then
        EncodeOffset(w, h, o);
        ResampledByte(img, rows, cols, a, lenient, ColumnOf(w, o), RowOf(w, o), ChannelOf(o))
      else 0)
  }

  lemma ResampleDataAt(img: Image, rows: int, cols: int, a: seq<Entry>, lenient: bool, x: int, y: int, c: int)
    requires |a| == rows * cols
    requires 0 <= x < img.width && 0 <= y < img.height && 0 <= c < 4
    ensures 0 <= Offset(img.width, x, y, c) < 4 * img.width * img.height
    ensures ResampleData(img, rows, cols, a, lenient)[Offset(img.width, x, y, c)]
         == if rows >= 1 && cols >= 1 then ResampledByte(img, rows, cols, a, lenient, x, y, c) else 0
  {
    DecodeOffset(img.width, x, y, c);
    OffsetInBounds(img.width, img.height, x, y, c);
  }

  /** The output buffer: a fresh `width x height` image (all zero) in which
      every byte of every pixel is the byte its own tile samples for it; with
      no rows or no columns nothing is written. */
  function Resample(img: Image, rows: int, cols: int, a: seq<Entry>, lenient: bool): (out: Image)
    requires |a| == rows * cols
    ensures out.width == img.width && out.height == img.height && WellFormed(out)
    ensures rows >= 1 && cols >= 1 ==>
              forall x, y, c :: 0 <= x < img.width && 0 <= y < img.height && 0 <= c < 4 ==>
                && 0 <= Offset(img.width, x, y, c) < |out.data|
                && out.data[Offset(img.width, x, y, c)] == ResampledByte(img, rows, cols, a, lenient, x, y, c)
    ensures rows < 1 || cols < 1 ==> forall o :: 0 <= o < |out.data| ==> out.data[o] == 0
  {
    var out := Image(img.width, img.height, ResampleData(img, rows, cols, a, lenient));
    assert rows >= 1 && cols >= 1 ==>
             forall x, y, c :: 0 <= x < img.width && 0 <= y < img.height && 0 <= c < 4 ==>
               && 0 <= Offset(img.width, x, y, c) < |out.data|
               && out.data[Offset(img.width, x, y, c)] == ResampledByte(img, rows, cols, a, lenient, x, y, c) by {
      forall x, y, c | 0 <= x < img.width && 0 <= y < img.height && 0 <= c < 4 {
        ResampleDataAt(img, rows, cols, a, lenient, x, y, c);
      }
    }
    out
  }

  /** Byte `c` of output pixel `(x, y)` is the resampled byte. */
  lemma ResampleAt(img: Image, rows: int, cols: int, a: seq<Entry>, lenient: bool, x: int, y: int, c: int)
    requires |a| == rows * cols
    requires 0 <= x < img.width && 0 <= y < img.height && 0 <= c < 4
    ensures 0 <= Offset(img.width, x, y, c) < 4 * img.width * img.height
    ensures Resample(img, rows, cols, a, lenient).data[Offset(img.width, x, y, c)]
         == if rows >= 1 && cols >= 1 then ResampledByte(img, rows, cols, a, lenient, x, y, c) else 0
  {
    ResampleDataAt(img, rows, cols, a, lenient, x, y, c);
  }

  /** `applyArrangement` (rearranger.js): `null` without an image or without
      an arrangement of exactly `rows * cols` entries; otherwise an image of
      the same size. */
  function ApplyArrangement(image: Option<Image>, rows: int, cols: int, arrangement: Arr<Entry>): (out: Option<Image>)
    ensures out.None? <==> image.None? || arrangement.NotArray? || |arrangement.items| != rows * cols
    ensures out.Some? ==> && out.value.width == image.value.width && out.value.height == image.value.height
                          && WellFormed(out.value)
  {
    if image.None? || arrangement.NotArray? || |arrangement.items| != rows * cols then None
    else Some(Resample(image.value, rows, cols, arrangement.items, true))
  }

  /** `applyArrangementToImage` (blender.js): the same, except that a tile
      whose entry is not an array is left empty. */
  function ApplyArrangementToImage(image: Option<Image>, rows: int, cols: int, arrangement: Arr<Entry>): (out: Option<Image>)
    ensures out.None? <==> image.None? || arrangement.NotArray? || |arrangement.items| != rows * cols
    ensures out.Some? ==> && out.value.width == image.value.width && out.value.height == image.value.height
                          && WellFormed(out.value)
  {
    if image.None? || arrangement.NotArray? || |arrangement.items| != rows * cols then None
    else Some(Resample(image.value, rows, cols, arrangement.items, false))
  }

  /** The tiles partition the image: pixel `colStops[pc] + lx` of tile column
      `pc` (with `lx` inside the tile) is located in that tile column and no
      other, and likewise for rows, so the tile loops write every pixel once. */
  lemma TilesPartition(size: nat, segments: int, k: int, l: int)
    requires segments >= 1 && 0 <= k < segments
    requires var stops := ComputeStops(size, segments); 0 <= l < stops[k + 1] - stops[k]
    ensures var stops := ComputeStops(size, segments);
            && 0 <= stops[k] + l < size
            && NonDecreasing(stops) && stops[0] <= stops[k] + l < stops[|stops| - 1]
            && Locate(stops, stops[k] + l) == k
  {
    var stops := ComputeStops(size, segments);
    StopsPartition(size, segments);
    LocateUnique(stops, stops[k] + l, k);
  }

  /** With at least one pixel per tile column and row, every sample lies
      inside the slot tile it was taken from, hence inside the image. */
  lemma SampleInSlot(width: nat, height: nat, rows: int, cols: int,
                     slot: int, rotation: int, lx: int, ly: int, tileW: int, tileH: int)
    requires rows >= 1 && cols >= 1 && width >= cols && height >= rows
    ensures var colStops, rowStops := ComputeStops(width, cols), ComputeStops(height, rows);
            var s := SourcePixel(colStops, rowStops, rows, cols, slot, rotation, lx, ly, tileW, tileH);
            && colStops[s.slotCol] <= s.x < colStops[s.slotCol + 1]
            && rowStops[s.slotRow] <= s.y < rowStops[s.slotRow + 1]
            && 0 <= s.x < width && 0 <= s.y < height
  {
    var colStops, rowStops := ComputeStops(width, cols), ComputeStops(height, rows);
    var s := SourcePixel(colStops, rowStops, rows, cols, slot, rotation, lx, ly, tileW, tileH);
    StopsPartition(width, cols);
    StopsPartition(height, rows);
    assert colStops[s.slotCol] < colStops[s.slotCol + 1];
    assert rowStops[s.slotRow] < rowStops[s.slotRow + 1];
  }

  /** The identity arrangement `[[0, 0], [1, 0], ...]`. */
  function IdentityArrangement(n: nat): (a: seq<Entry>)
    ensures |a| == n
  {
    seq(n, i => Pair(i, 0))
  }

  /** A tile showing its own slot unrotated samples, for each pixel, that
      same pixel. */
  lemma SelfSample(width: nat, height: nat, rows: int, cols: int, x: int, y: int)
    requires rows >= 1 && cols >= 1 && 0 <= x < width && 0 <= y < height
    ensures var pl := PlaceOf(width, height, rows, cols, x, y);
            var s := SampleAt(width, height, rows, cols, pl, pl.pieceIndex, 0, x, y);
            s.x == x && s.y == y
  {
    var colStops, rowStops := ComputeStops(width, cols), ComputeStops(height, rows);
    var pl := PlaceOf(width, height, rows, cols, x, y);
    var pr, pc := pl.pieceRow, pl.pieceCol;
    DivModUnique(pr * cols + pc, cols, pr, pc);
    CentreSample(x - colStops[pc], colStops[pc + 1] - colStops[pc]);
    CentreSample(y - rowStops[pr], rowStops[pr + 1] - rowStops[pr]);
  }

  /** Under the identity arrangement every pixel samples itself. */
  lemma IdentityPixel(img: Image, rows: int, cols: int, lenient: bool, x: int, y: int, c: int)
    requires WellFormed(img) && rows >= 1 && cols >= 1
    requires 0 <= x < img.width && 0 <= y < img.height && 0 <= c < 4
    ensures 0 <= Offset(img.width, x, y, c) < |img.data|
    ensures ResampledByte(img, rows, cols, IdentityArrangement(rows * cols), lenient, x, y, c)
         == img.data[Offset(img.width, x, y, c)]
  {
    var pl := PlaceOf(img.width, img.height, rows, cols, x, y);
    var a := IdentityArrangement(rows * cols);
    assert a[pl.pieceIndex] == Pair(pl.pieceIndex, 0);
    assert PickAt(a, pl, lenient) == From(pl.pieceIndex, 0);
    SelfSample(img.width, img.height, rows, cols, x, y);
    var s := SampleAt(img.width, img.height, rows, cols, pl, pl.pieceIndex, 0, x, y);
    assert s.x == x && s.y == y;
    assert ResampledByte(img, rows, cols, a, lenient, x, y, c) == ByteAt(img.data, Offset(img.width, x, y, c));
    OffsetInBounds(img.width, img.height, x, y, c);
  }

  /** Rearranging by the identity arrangement copies the image exactly, in
      both variants. */
  lemma IdentityCopies(img: Image, rows: int, cols: int)
    requires WellFormed(img) && rows >= 1 && cols >= 1
    ensures ApplyArrangement(Some(img), rows, cols, Array(IdentityArrangement(rows * cols))) == Some(img)
    ensures ApplyArrangementToImage(Some(img), rows, cols, Array(IdentityArrangement(rows * cols))) == Some(img)
  {
    var a := IdentityArrangement(rows * cols);
    forall lenient: bool ensures Resample(img, rows, cols, a, lenient) == img {
      var out := Resample(img, rows, cols, a, lenient);
      forall o | 0 <= o < |img.data| ensures out.data[o] == img.data[o] {
        EncodeOffset(img.width, img.height, o);
        var x, y, c := ColumnOf(img.width, o), RowOf(img.width, o), ChannelOf(o);
        IdentityPixel(img, rows, cols, lenient, x, y, c);
      }
    }
  }
}
