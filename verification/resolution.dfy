/** The sizing helpers of resolution.js: the centred crop of an image to a
    target aspect ratio, and the snap of a crop to a grid of square pieces. */
module Resolution {
  import opened JsValues
  import opened TileMath
  import Reveal

  /** A crop rectangle: its size and its top-left corner in the source. */
  datatype Crop = Crop(width: int, height: int, sx: real, sy: real)

  /** A crop offered to the reducer, with the pixels it discards. */
  datatype Candidate = Candidate(crop: Crop, cropArea: int)

  /** The centred crop of a `width x height` image to a `w x h` rectangle. */
  function Centred(imgWidth: int, imgHeight: int, w: int, h: int): (c: Candidate)
    ensures c.crop.width == w && c.crop.height == h
    ensures 2.0 * c.crop.sx + w as real == imgWidth as real
    ensures 2.0 * c.crop.sy + h as real == imgHeight as real
    ensures c.cropArea + w * h == imgWidth * imgHeight
  {
    Candidate(Crop(w, h, (imgWidth - w) as real / 2.0, (imgHeight - h) as real / 2.0), imgWidth * imgHeight - w * h)
  }

  /** The first option: the full height, and the width it calls for when
      that width fits; the height is then recomputed from the floored width. */
  function ByHeight(imgWidth: int, imgHeight: int, ratio: real): Option<Candidate>
    requires ratio > 0.0
  {
    if imgHeight as real * ratio <= imgWidth as real then
      var width := Max(1, (imgHeight as real * ratio).Floor);
      var height := Max(1, (width as real / ratio).Floor);
      Some(Centred(imgWidth, imgHeight, width, height))
    else None
  }

  /** The second option: the full width, and the height it calls for when
      that height fits; the width is then recomputed from the floored height. */
  function ByWidth(imgWidth: int, imgHeight: int, ratio: real): Option<Candidate>
    requires ratio > 0.0
  {
    if imgWidth as real / ratio <= imgHeight as real then
      var height := Max(1, (imgWidth as real / ratio).Floor);
      var width := Max(1, (height as real * ratio).Floor);
      Some(Centred(imgWidth, imgHeight, width, height))
    else None
  }

  function Listed(o: Option<Candidate>): seq<Candidate> {
    if o.Some? then [o.value] else []
  }

  /** The `options` array, in push order. */
  function Candidates(imgWidth: int, imgHeight: int, ratio: real): (options: seq<Candidate>)
    requires ratio > 0.0
    ensures |options| <= 2
  {
    Listed(ByHeight(imgWidth, imgHeight, ratio)) + Listed(ByWidth(imgWidth, imgHeight, ratio))
  }

  /** `options.reduce(...)` from `null`: a later option replaces the selected
      one only when it discards strictly fewer pixels. */
  function Best(options: seq<Candidate>): (best: Candidate)
    requires |options| >= 1
    ensures best in options
    ensures forall o :: o in options ==> best.cropArea <= o.cropArea
  {
    if |options| == 1 then options[0]
    else
      var selected := Best(options[..|options| - 1]);
      var current := options[|options| - 1];
      assert forall o :: o in options ==> o in options[..|options| - 1] || o == current;
      if current.cropArea < selected.cropArea then current else selected
  }

  /** The reducer keeps the first of the options that discard the fewest
      pixels. */
  lemma {:induction false} BestIsFirstMinimum(options: seq<Candidate>) returns (i: int)
    requires |options| >= 1
    ensures 0 <= i < |options| && options[i] == Best(options)
    ensures forall j :: 0 <= j < |options| ==> options[i].cropArea <= options[j].cropArea
    ensures forall j :: 0 <= j < i ==> options[j].cropArea > options[i].cropArea
  {
    if |options| == 1 {
      i := 0;
    } else {
      var init := options[..|options| - 1];
      var k := BestIsFirstMinimum(init);
      assert init[k] == options[k];
      var current := options[|options| - 1];
      if current.cropArea < Best(init).cropArea {
        i := |options| - 1;
        forall j | 0 <= j < i ensures options[j].cropArea > current.cropArea {
          assert options[j] == init[j];
        }
      } else {
        i := k;
        forall j | 0 <= j < |options| ensures options[i].cropArea <= options[j].cropArea {
          if j < |options| - 1 { assert options[j] == init[j]; }
        }
        forall j | 0 <= j < i ensures options[j].cropArea > options[i].cropArea {
          assert options[j] == init[j];
        }
      }
    }
  }

  /** `computeCropDimensions`: the best option, or the whole image when there
      is none. */
  function ComputeCropDimensions(imgWidth: int, imgHeight: int, ratio: real): (c: Crop)
    requires ratio > 0.0
    ensures 2.0 * c.sx + c.width as real == imgWidth as real
    ensures 2.0 * c.sy + c.height as real == imgHeight as real
    ensures var options := Candidates(imgWidth, imgHeight, ratio);
            |options| >= 1 ==>
              exists o :: o in options && o.crop == c && forall o' :: o' in options ==> o.cropArea <= o'.cropArea
  {
    var options := Candidates(imgWidth, imgHeight, ratio);
    if |options| == 0 then Crop(imgWidth, imgHeight, 0.0, 0.0)
    else
      var best := Best(options);
      assert best == Centred(imgWidth, imgHeight, best.crop.width, best.crop.height);
      best.crop
  }

  /** For a positive ratio one of the two options always fits, so the
      whole-image fallback is never taken. */
  lemma CandidateExists(imgWidth: int, imgHeight: int, ratio: real)
    requires ratio > 0.0
    ensures |Candidates(imgWidth, imgHeight, ratio)| >= 1
  {
    var w, h := imgWidth as real, imgHeight as real;
    assert (w / ratio) * ratio == w;
    if h * ratio > w {
      CancelLess(w / ratio, h, ratio);
    }
  }

  lemma CancelLess(a: real, b: real, m: real)
    requires m > 0.0 && a * m < b * m
    ensures a < b
  {
  }

  lemma CancelAtMost(a: real, b: real, m: real)
    requires m > 0.0 && a * m <= b * m
    ensures a <= b
  {
  }

  lemma MulRealStrict(a: real, b: real, m: real)
    requires a < b && m > 0.0
    ensures a * m < b * m
  {
  }

  lemma MulRealMonotone(a: real, b: real, m: real)
    requires a <= b && m >= 0.0
    ensures a * m <= b * m
  {
  }

  /** The crop is one of the options, discards no more pixels than any other
      and is the first such, and is centred in the image. */
  lemma CropIsBestCentred(imgWidth: int, imgHeight: int, ratio: real)
    requires ratio > 0.0
    ensures var c := ComputeCropDimensions(imgWidth, imgHeight, ratio);
            var options := Candidates(imgWidth, imgHeight, ratio);
            && 2.0 * c.sx + c.width as real == imgWidth as real
            && 2.0 * c.sy + c.height as real == imgHeight as real
            && exists i :: && 0 <= i < |options| && options[i].crop == c
                           && (forall j :: 0 <= j < |options| ==> options[i].cropArea <= options[j].cropArea)
                           && (forall j :: 0 <= j < i ==> options[j].cropArea > options[i].cropArea)
  {
    CandidateExists(imgWidth, imgHeight, ratio);
    var options := Candidates(imgWidth, imgHeight, ratio);
    var i := BestIsFirstMinimum(options);
    assert options[i].crop == ComputeCropDimensions(imgWidth, imgHeight, ratio);
  }

  /** The first option has the target aspect up to the floor of its height:
      `height * ratio <= width < (height + 1) * ratio` once `width >= ratio`. */
  lemma ByHeightAspect(imgWidth: int, imgHeight: int, ratio: real)
    requires ratio > 0.0
    ensures var o := ByHeight(imgWidth, imgHeight, ratio);
            o.Some? && o.value.crop.width as real >= ratio ==>
              var w, h := o.value.crop.width as real, o.value.crop.height as real;
              h * ratio <= w < (h + 1.0) * ratio
  {
    var o := ByHeight(imgWidth, imgHeight, ratio);
    if o.Some? && o.value.crop.width as real >= ratio {
      var w := o.value.crop.width as real;
      var q := w / ratio;
      assert q >= 1.0 by {
        MulRealMonotone(ratio, w, 1.0 / ratio);
        assert ratio * (1.0 / ratio) == 1.0;
      }
      FloorBracket(q, ratio, w, o.value.crop.height);
    }
  }

  /** `k = max(1, floor(q))` with `q = w / ratio >= 1` brackets `w` between `k * ratio`
      and `(k + 1) * ratio`. */
  lemma FloorBracket(q: real, ratio: real, w: real, k: int)
    requires ratio > 0.0 && q * ratio == w && q >= 1.0 && k == Max(1, q.Floor)
    ensures k as real * ratio <= w < (k as real + 1.0) * ratio
  {
    assert k as real <= q < k as real + 1.0;
    BracketScale(k as real, q, k as real + 1.0, ratio, w);
  }

  /** Scaling a bracket `lo <= q < hi` by a positive factor keeps it. */
  lemma BracketScale(lo: real, q: real, hi: real, m: real, w: real)
    requires lo <= q < hi && m > 0.0 && q * m == w
    ensures lo * m <= w < hi * m
  {
    MulRealMonotone(lo, q, m);
    MulRealStrict(q, hi, m);
  }

  /** The second option has the target aspect up to the floor of its width:
      `width <= height * ratio < width + 1` once `height * ratio >= 1`. */
  lemma ByWidthAspect(imgWidth: int, imgHeight: int, ratio: real)
    requires ratio > 0.0
    ensures var o := ByWidth(imgWidth, imgHeight, ratio);
            o.Some? && o.value.crop.height as real * ratio >= 1.0 ==>
              var w, h := o.value.crop.width as real, o.value.crop.height as real;
              w <= h * ratio < w + 1.0
  {
  }

  /** Whenever the target sides are at least one pixel, the crop lies inside
      the image. */
  lemma CropFits(imgWidth: int, imgHeight: int, ratio: real)
    requires ratio > 0.0 && imgWidth >= 1 && imgHeight >= 1
    requires imgHeight as real * ratio >= 1.0 && imgWidth as real / ratio >= 1.0
    ensures var c := ComputeCropDimensions(imgWidth, imgHeight, ratio);
            && 1 <= c.width <= imgWidth && 1 <= c.height <= imgHeight
            && c.sx >= 0.0 && c.sy >= 0.0
  {
    CropIsBestCentred(imgWidth, imgHeight, ratio);
    ByHeightFits(imgWidth, imgHeight, ratio);
    ByWidthFits(imgWidth, imgHeight, ratio);
  }

  lemma ByHeightFits(imgWidth: int, imgHeight: int, ratio: real)
    requires ratio > 0.0 && imgWidth >= 1 && imgHeight >= 1 && imgHeight as real * ratio >= 1.0
    ensures var o := ByHeight(imgWidth, imgHeight, ratio);
            o.Some? ==> 1 <= o.value.crop.width <= imgWidth && 1 <= o.value.crop.height <= imgHeight
  {
    var o := ByHeight(imgWidth, imgHeight, ratio);
    if o.Some? {
      var t := imgHeight as real * ratio;
      var width := o.value.crop.width;
      assert width == t.Floor && width as real <= t;
      var q := width as real / ratio;
      assert q * ratio == width as real;
      CancelAtMost(q, imgHeight as real, ratio);
    }
  }

  lemma ByWidthFits(imgWidth: int, imgHeight: int, ratio: real)
    requires ratio > 0.0 && imgWidth >= 1 && imgHeight >= 1 && imgWidth as real / ratio >= 1.0
    ensures var o := ByWidth(imgWidth, imgHeight, ratio);
            o.Some? ==> 1 <= o.value.crop.width <= imgWidth && 1 <= o.value.crop.height <= imgHeight
  {
    var o := ByWidth(imgWidth, imgHeight, ratio);
    if o.Some? {
      var t := imgWidth as real / ratio;
      var height := o.value.crop.height;
      assert height == t.Floor && height as real <= t;
      assert t * ratio == imgWidth as real;
      MulRealMonotone(height as real, t, ratio);
    }
  }

  /** Below one pixel of target width the floor is lifted to 1, and the crop
      can then be taller than the image: a 1x1 image cropped to ratio 1/2
      gives a 1x2 crop starting half a pixel above it. */
  lemma TinyImageCropOverflows()
    ensures ComputeCropDimensions(1, 1, 0.5) == Crop(1, 2, 0.0, -0.5)
  {
    assert (0.5).Floor == 0;
    assert (1.0 / 0.5).Floor == 2;
    assert !(1.0 / 0.5 <= 1.0);
  }

  // ---------------------------------------------------------------------
  // snapToGrid

  /** The snapped size and the side of every piece. */
  datatype Grid = Grid(width: int, height: int, pieceSize: int)

  function RealMin(a: real, b: real): real { if a <= b then a else b }

  /** `snapToGrid`: all zeros without a crop or without a positive grid;
      otherwise the largest square piece that fits `cols` across and `rows`
      down (at least 1), times the grid. */
  function SnapToGrid(crop: Option<Crop>, rows: int, cols: int): (g: Grid)
    ensures crop.None? || rows <= 0 || cols <= 0 ==> g == Grid(0, 0, 0)
    ensures crop.Some? && rows > 0 && cols > 0 ==>
              g.pieceSize >= 1 && g.width == g.pieceSize * cols && g.height == g.pieceSize * rows
  {
    if crop.None? || rows <= 0 || cols <= 0 then Grid(0, 0, 0)
    else
      var c := crop.value;
      var basePiece := RealMin(c.width as real / cols as real, c.height as real / rows as real).Floor;
      var pieceSize := Max(1, basePiece);
      Grid(pieceSize * cols, pieceSize * rows, pieceSize)
  }

  /** `k` is the floor of `x`. */
  lemma FloorUnique(x: real, k: int)
    requires k as real <= x < k as real + 1.0
    ensures x.Floor == k
  {
  }

  /** The piece side in integer terms: the smaller of the two floor
      quotients, but at least 1. */
  lemma SnapPieceSize(c: Crop, rows: int, cols: int)
    requires rows > 0 && cols > 0
    ensures SnapToGrid(Some(c), rows, cols).pieceSize == Max(1, Min(c.width / cols, c.height / rows))
  {
    var a := c.width as real / cols as real;
    var b := c.height as real / rows as real;
    FloorDivLemma(c.width, cols);
    FloorDivLemma(c.height, rows);
    FloorUnique(a, c.width / cols);
    FloorUnique(b, c.height / rows);
    if a <= b {
      assert c.width / cols <= c.height / rows;
    } else {
      assert c.height / rows <= c.width / cols;
    }
  }

  /** When the crop holds at least one pixel per piece, the snapped grid
      fits inside the crop and its piece side is the largest that does. */
  lemma SnapLargest(c: Crop, rows: int, cols: int, p: int)
    requires rows > 0 && cols > 0 && c.width >= cols && c.height >= rows
    ensures var g := SnapToGrid(Some(c), rows, cols);
            && g.width <= c.width && g.height <= c.height
            && (p * cols <= c.width && p * rows <= c.height ==> p <= g.pieceSize)
  {
    var g := SnapToGrid(Some(c), rows, cols);
    SnapPieceSize(c, rows, cols);
    var qw, qh := c.width / cols, c.height / rows;
    DivFloorBounds(c.width, cols);
    DivFloorBounds(c.height, rows);
    DivAtLeastOne(c.width, cols);
    DivAtLeastOne(c.height, rows);
    assert g.pieceSize == Min(qw, qh);
    MulMonotone(g.pieceSize, qw, cols);
    MulMonotone(g.pieceSize, qh, rows);
    if p * cols <= c.width && p * rows <= c.height {
      if p > qw {
        MulMonotone(qw + 1, p, cols);
      }
      if p > qh {
        MulMonotone(qh + 1, p, rows);
      }
    }
  }

  /** `a / d` is the largest `q` with `q * d <= a`. */
  lemma DivFloorBounds(a: int, d: int)
    requires d > 0
    ensures (a / d) * d <= a < (a / d + 1) * d
  {
  }

  lemma DivAtLeastOne(a: int, d: int)
    requires d > 0 && a >= d
    ensures a / d >= 1
  {
    DivFloorBounds(a, d);
    if a / d < 1 {
      MulMonotone(a / d + 1, 1, d);
    }
  }

  /** The snapped size cuts into square tiles: every tile boundary of the
      tile engine's stops falls on a multiple of the piece side. */
  lemma SnapGivesSquareTiles(c: Crop, rows: int, cols: int)
    requires rows > 0 && cols > 0
    ensures var g := SnapToGrid(Some(c), rows, cols);
            && Reveal.SquareTiles(g.width, g.height, rows, cols, g.pieceSize)
            && (forall i :: 0 <= i <= cols ==> ComputeStops(g.width, cols)[i] == g.pieceSize * i)
            && (forall i :: 0 <= i <= rows ==> ComputeStops(g.height, rows)[i] == g.pieceSize * i)
  {
    var g := SnapToGrid(Some(c), rows, cols);
    MulMonotone(0, g.pieceSize, cols);
    forall i | 0 <= i <= cols ensures ComputeStops(g.width, cols)[i] == g.pieceSize * i {
      Reveal.UniformStops(g.width, g.pieceSize, cols, i);
    }
    forall i | 0 <= i <= rows ensures ComputeStops(g.height, rows)[i] == g.pieceSize * i {
      Reveal.UniformStops(g.height, g.pieceSize, rows, i);
    }
  }
}
