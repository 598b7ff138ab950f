/** The piece dissimilarity engine (metrics.js): grayscale mean squared error
    between a source tile and a target tile under a quarter-turn, the
    best-rotation reduction, and the filling of the distance and rotation
    matrices, both in one pass and in cancellable chunks of source rows. */
module Metrics {
  import opened JsValues
  import opened Pixels

  datatype Coord = Coord(x: int, y: int)

  /** `rotateCoord`: the case is picked by JavaScript's `rotation % 4`, so a
      negative rotation falls through to the identity case. */
  function RotateCoord(x: int, y: int, size: int, rotation: int): (c: Coord)
    ensures 0 <= x < size && 0 <= y < size ==> 0 <= c.x < size && 0 <= c.y < size
    ensures rotation <= 0 || rotation % 4 == 0 ==> c == Coord(x, y)
    ensures rotation >= 0 && rotation % 4 == 2 ==> c.x + x == size - 1 && c.y + y == size - 1
  {
    var r := Rem(rotation, 4);
    if r == 1 then Coord(y, size - 1 - x)
    else if r == 2 then Coord(size - 1 - x, size - 1 - y)
    else if r == 3 then Coord(size - 1 - y, x)
    else Coord(x, y)
  }

  /** Quarter turns keep a tile's coordinates inside the tile, rotation 0 (and
      any negative rotation) is the identity, and turns compose by adding
      their counts modulo 4, so four turns are the identity. */
  lemma RotateCoordGroup(x: int, y: int, size: int, a: int, b: int)
    requires 0 <= a < 4 && 0 <= b < 4
    ensures 0 <= x < size && 0 <= y < size ==>
              var c := RotateCoord(x, y, size, a); 0 <= c.x < size && 0 <= c.y < size
    ensures RotateCoord(x, y, size, 0) == Coord(x, y)
    ensures var c := RotateCoord(x, y, size, b);
            RotateCoord(c.x, c.y, size, a) == RotateCoord(x, y, size, (a + b) % 4)
  {
  }

  lemma RotateCoordNegative(x: int, y: int, size: int, rotation: int)
    requires rotation <= 0
    ensures RotateCoord(x, y, size, rotation) == Coord(x, y)
  {
  }

  /** Squared luma difference of target-local pixel `(x, y)` against the
      source pixel it is compared with; pixels whose four bytes are not all
      inside both buffers are skipped (contribute nothing). */
  function PixelTerm(src: seq<Byte>, tgt: seq<Byte>, size: int, rotation: int, x: int, y: int): (t: real)
    ensures t >= 0.0
  {
    var rc := RotateCoord(x, y, size, rotation);
    var srcIndex := (rc.y * size + rc.x) * 4;
    var tgtIndex := (y * size + x) * 4;
    if srcIndex < 0 || srcIndex + 3 >= |src| || tgtIndex < 0 || tgtIndex + 3 >= |tgt| then 0.0
    else
      var d := Luma(src[srcIndex] as real, src[srcIndex + 1] as real, src[srcIndex + 2] as real)
             - Luma(tgt[tgtIndex] as real, tgt[tgtIndex + 1] as real, tgt[tgtIndex + 2] as real);
      Square(d)
  }

  function Square(d: real): (s: real)
    ensures s >= 0.0
  {
    d * d
  }

  /** Sum of the terms of row `y` for `x < n`. */
  function RowSum(src: seq<Byte>, tgt: seq<Byte>, size: int, rotation: int, y: int, n: nat): (s: real)
    ensures s >= 0.0
  {
    if n == 0 then 0.0 else RowSum(src, tgt, size, rotation, y, n - 1) + PixelTerm(src, tgt, size, rotation, n - 1, y)
  }

  /** Sum of the first `m` full rows. */
  function BlockSum(src: seq<Byte>, tgt: seq<Byte>, size: nat, rotation: int, m: nat): (s: real)
    ensures s >= 0.0
  {
    if m == 0 then 0.0 else BlockSum(src, tgt, size, rotation, m - 1) + RowSum(src, tgt, size, rotation, m - 1, size)
  }

  /** `computePieceDistanceFromBuffers`: +Infinity for a missing buffer or a
      non-positive piece size, otherwise the sum of squared luma differences
      over the piece divided by `pieceSize^2`, the rotation reduced mod 4. */
  function PieceDistance(src: Option<seq<Byte>>, tgt: Option<seq<Byte>>, pieceSize: int, rotation: int): (d: Num)
    ensures d == PosInf <==> src.None? || tgt.None? || pieceSize <= 0
    ensures d != PosInf ==> d.Finite? && d.val >= 0.0
  {
    if src.None? || tgt.None? || pieceSize <= 0 then PosInf
    else
      var sum := BlockSum(src.value, tgt.value, pieceSize, Mod(rotation, 4), pieceSize);
      Finite(sum / (pieceSize * pieceSize) as real)
  }

  /** The loops of `computePieceDistanceFromBuffers`, row by row. */
  method ComputePieceDistanceFromBuffers(src: Option<seq<Byte>>, tgt: Option<seq<Byte>>, pieceSize: int, rotation: int)
    returns (d: Num)
    ensures d == PieceDistance(src, tgt, pieceSize, rotation)
  {
    if src.None? || tgt.None? || pieceSize <= 0 {
      return PosInf;
    }
    var s, t := src.value, tgt.value;
    var normalizedRotation := Mod(rotation, 4);
    var sumSquares := 0.0;
    var pixelCount := pieceSize * pieceSize;
    var y := 0;
    while y < pieceSize
      invariant 0 <= y <= pieceSize
      invariant sumSquares == BlockSum(s, t, pieceSize, normalizedRotation, y)
    {
      var x := 0;
      while x < pieceSize
        invariant 0 <= x <= pieceSize
        invariant sumSquares == BlockSum(s, t, pieceSize, normalizedRotation, y)
                              + RowSum(s, t, pieceSize, normalizedRotation, y, x)
      {
        var term := PixelStep(s, t, pieceSize, normalizedRotation, x, y);
        sumSquares := sumSquares + term;
        x := x + 1;
      }
      y := y + 1;
    }
    return Finite(sumSquares / pixelCount as real);
  }

  /** The body of the inner loop: the squared luma difference of one pixel,
      or nothing when a read would leave either buffer. */
  method PixelStep(s: seq<Byte>, t: seq<Byte>, pieceSize: int, rotation: int, x: int, y: int) returns (term: real)
    ensures term == PixelTerm(s, t, pieceSize, rotation, x, y)
  {
    var rotated := RotateCoord(x, y, pieceSize, rotation);
    var srcIndex := (rotated.y * pieceSize + rotated.x) * 4;
    var tgtIndex := (y * pieceSize + x) * 4;
    term := 0.0;
    if !(srcIndex < 0 || srcIndex + 3 >= |s| || tgtIndex < 0 || tgtIndex + 3 >= |t|) {
      var srcGray := Luma(s[srcIndex] as real, s[srcIndex + 1] as real, s[srcIndex + 2] as real);
      var tgtGray := Luma(t[tgtIndex] as real, t[tgtIndex + 1] as real, t[tgtIndex + 2] as real);
      var diff := srcGray - tgtGray;
      term := diff * diff;
    }
  }

  lemma {:induction false} RowSumSelfZero(b: seq<Byte>, size: int, y: int, n: nat)
    ensures RowSum(b, b, size, 0, y, n) == 0.0
  {
    if n > 0 {
      RowSumSelfZero(b, size, y, n - 1);
    }
  }

  lemma {:induction false} BlockSumSelfZero(b: seq<Byte>, size: nat, m: nat)
    ensures BlockSum(b, b, size, 0, m) == 0.0
  {
    if m > 0 {
      BlockSumSelfZero(b, size, m - 1);
      RowSumSelfZero(b, size, m - 1, size);
    }
  }

  /** A buffer compared with itself at rotation 0 (or any multiple of 4) is at
      distance 0, whatever its length. */
  lemma SelfDistanceZero(b: seq<Byte>, pieceSize: int, rotation: int)
    requires pieceSize > 0 && rotation % 4 == 0
    ensures PieceDistance(Some(b), Some(b), pieceSize, rotation) == Finite(0.0)
  {
    BlockSumSelfZero(b, pieceSize, pieceSize);
  }

  /** Only the rotation modulo 4 matters. */
  lemma DistanceRotationPeriodic(src: Option<seq<Byte>>, tgt: Option<seq<Byte>>, pieceSize: int, rotation: int, k: int)
    ensures PieceDistance(src, tgt, pieceSize, rotation) == PieceDistance(src, tgt, pieceSize, rotation + 4 * k)
  {
    DivModUnique(rotation + 4 * k, 4, rotation / 4 + k, rotation % 4);
    assert Mod(rotation, 4) == Mod(rotation + 4 * k, 4);
  }

  /** A candidate's rotation and distance. */
  datatype Best = Best(rotation: int, distance: Num)

  /** `d[0..n)` holds no NaN. */
  predicate NoNaN(d: seq<Num>) {
    forall k :: 0 <= k < |d| ==> !d[k].NaN?
  }

  /** Neither value is below the other: both are equal or both NaN. */
  predicate NotBelow(a: Num, b: Num) {
    !a.Less(b)
  }

  /** `b` picks a candidate no other candidate is below, and every earlier
      candidate is strictly above it. */
  predicate IsBestAmong(d: seq<Num>, b: Best) {
    && 0 <= b.rotation < |d|
    && b.distance == d[b.rotation]
    && (forall k :: 0 <= k < |d| ==> NotBelow(d[k], b.distance))
    && (forall k :: 0 <= k < b.rotation ==> b.distance.Less(d[k]))
  }

  /** The best-rotation loop over candidate distances `d[0], d[1], ...`:
      starting from rotation 0 at +Infinity, a candidate replaces the best so
      far only when it is strictly smaller. */
  function BestOf(d: seq<Num>): (b: Best)
    ensures |d| == 0 ==> b == Best(0, PosInf)
    ensures 0 <= b.rotation && (b.rotation < |d| || b.rotation == 0)
    ensures NoNaN(d) && |d| > 0 ==> IsBestAmong(d, b)
  {
    if |d| == 0 then Best(0, PosInf)
    else
      var prev := BestOf(d[..|d| - 1]);
      var cand := d[|d| - 1];
      if cand.Less(prev.distance) then Best(|d| - 1, cand) else prev
  }

  /** The four candidate distances of one pair of tiles. */
  function Candidates(src: seq<Byte>, tgt: seq<Byte>, pieceSize: int): (d: seq<Num>)
    ensures |d| == 4 && NoNaN(d)
  {
    seq(4, r => PieceDistance(Some(src), Some(tgt), pieceSize, r))
  }

  /** A grid as read from a canvas's `dataset` through `parseInt`
      (`None` stands for NaN). */
  datatype Canvas = Canvas(bitmap: Image, rows: Option<int>, cols: Option<int>)

  /** Both grids are positive integers and equal. */
  predicate GridsAgree(source: Canvas, target: Canvas) {
    && source.rows.Some? && source.cols.Some?
    && source.rows.value > 0 && source.cols.value > 0
    && target.rows == source.rows && target.cols == source.cols
  }

  function PieceCount(source: Canvas): nat
    requires source.rows.Some? && source.cols.Some?
    requires source.rows.value > 0 && source.cols.value > 0
  {
    source.rows.value * source.cols.value
  }

  /** `Math.round(width / cols)`: round half up. */
  function RoundDiv(width: nat, cols: int): (q: int)
    requires cols > 0
    ensures q >= 0
  {
    ((width as real) / (cols as real) + 0.5).Floor
  }

  /** The pixels of tile `slot`: `getImageData(col * size, row * size, size, size)`. */
  function Tile(img: Image, cols: int, slot: int, size: nat): (t: seq<Byte>)
    requires cols > 0
    ensures |t| == 4 * size * size
  {
    GetImageData(img, (slot % cols) * size, (slot / cols) * size, size, size)
  }

  /** `computePieceDistance`: the canvas-level distance of one source tile,
      turned `rotation` quarter steps, against one target tile. */
  function CanvasPieceDistance(source: Canvas, target: Canvas, sourceSlot: int, rotation: int, targetSlot: int): (d: Num)
    ensures !d.NaN?
  {
    if !GridsAgree(source, target) then PosInf
    else
      var n, cols := PieceCount(source), source.cols.value;
      if !(0 <= sourceSlot < n) || !(0 <= targetSlot < n) then PosInf
      else
        var size := RoundDiv(source.bitmap.width, cols);
        if size == 0 then PosInf
        else
          PieceDistance(Some(Tile(source.bitmap, cols, sourceSlot, size)),
                        Some(Tile(target.bitmap, cols, targetSlot, size)), size, Mod(rotation, 4))
  }

  /** Both slots are pieces of the grid the two canvases agree on. */
  predicate SlotsInGrid(source: Canvas, target: Canvas, s: int, t: int) {
    GridsAgree(source, target) && 0 <= s < PieceCount(source) && 0 <= t < PieceCount(source)
  }

  /** `computeBestRotationForSlot`: the default for slots outside an agreeing
      grid, otherwise the first of the least distant rotations. */
  function BestRotationForSlot(source: Canvas, target: Canvas, sourceSlot: int, targetSlot: int): (b: Best)
    ensures !SlotsInGrid(source, target, sourceSlot, targetSlot) ==> b == Best(0, PosInf)
    ensures SlotsInGrid(source, target, sourceSlot, targetSlot) ==>
              IsBestAmong(SlotCandidates(source, target, sourceSlot, targetSlot), b)
  {
    if !GridsAgree(source, target) then Best(0, PosInf)
    else if !(0 <= sourceSlot < PieceCount(source)) || !(0 <= targetSlot < PieceCount(source)) then Best(0, PosInf)
    else BestOf(SlotCandidates(source, target, sourceSlot, targetSlot))
  }

  datatype Matrices = Matrices(distance: seq<seq<Num>>, rotation: seq<seq<int>>)

  /** Both matrices are `n x n`. */
  predicate IsSquare(m: Matrices, n: nat) {
    && |m.distance| == n && |m.rotation| == n
    && (forall s :: 0 <= s < n ==> |m.distance[s]| == n && |m.rotation[s]| == n)
  }

  /** The four candidate distances of source tile `s` over target tile `t`. */
  function SlotCandidates(source: Canvas, target: Canvas, s: int, t: int): (d: seq<Num>)
    ensures |d| == 4 && NoNaN(d)
  {
    seq(4, r => CanvasPieceDistance(source, target, s, r, t))
  }

  /** For slots inside an agreeing grid, `computeBestRotationForSlot` finds the
      best of the four rotations, the first one on ties. */
  lemma BestRotationForSlotIsBest(source: Canvas, target: Canvas, s: int, t: int)
    requires GridsAgree(source, target)
    requires 0 <= s < PieceCount(source) && 0 <= t < PieceCount(source)
    ensures IsBestAmong(SlotCandidates(source, target, s, t), BestRotationForSlot(source, target, s, t))
  {
  }

  /** Cell `[s][t]` of both matrices. */
  function Cell(m: Matrices, s: int, t: int): Best
    requires 0 <= s < |m.distance| && 0 <= s < |m.rotation|
    requires 0 <= t < |m.distance[s]| && 0 <= t < |m.rotation[s]|
  {
    Best(m.rotation[s][t], m.distance[s][t])
  }

  /** `computeDistanceAndRotationMatrices`: empty matrices unless the grids
      agree; otherwise `n x n` matrices whose every cell is the best rotation
      of that pair and its distance. */
  function DistanceAndRotationMatrices(source: Canvas, target: Canvas): (m: Matrices)
    ensures !GridsAgree(source, target) ==> m == Matrices([], [])
    ensures GridsAgree(source, target) ==>
              && IsSquare(m, PieceCount(source))
              && forall s, t :: 0 <= s < PieceCount(source) && 0 <= t < PieceCount(source) ==>
                   IsBestAmong(SlotCandidates(source, target, s, t), Cell(m, s, t))
  {
    if !GridsAgree(source, target) then Matrices([], [])
    else
      var n := PieceCount(source);
      var m := Matrices(seq(n, s => seq(n, t => BestRotationForSlot(source, target, s, t).distance)),
                        seq(n, s => seq(n, t => BestRotationForSlot(source, target, s, t).rotation)));
      assert forall s, t :: 0 <= s < n && 0 <= t < n ==> IsBestAmong(SlotCandidates(source, target, s, t), Cell(m, s, t)) by {
        forall s, t | 0 <= s < n && 0 <= t < n ensures IsBestAmong(SlotCandidates(source, target, s, t), Cell(m, s, t)) {
          BestRotationForSlotIsBest(source, target, s, t);
          assert Cell(m, s, t) == BestRotationForSlot(source, target, s, t);
        }
      }
      m
  }

  /** The extra checks of the chunked variant: a non-empty source bitmap of
      the same size as the target's, and a non-zero piece size. */
  predicate ChunkedComputable(source: Canvas, target: Canvas) {
    && GridsAgree(source, target)
    && source.bitmap.width > 0 && source.bitmap.height > 0
    && target.bitmap.width == source.bitmap.width && target.bitmap.height == source.bitmap.height
    && RoundDiv(source.bitmap.width, source.cols.value) > 0
  }

  /** `Math.ceil(a / b)` for `b > 0`. */
  function CeilDiv(a: nat, b: nat): nat
    requires b > 0
  {
    (a + b - 1) / b
  }

  /** Rows per chunk: the integer option when given, else `ceil(n / 12)`, at
      least 1. */
  function ChunkSize(option: Option<int>, n: nat): (c: int)
    ensures c >= 1
  {
    var requested := if option.Some? then option.value else CeilDiv(n, 12);
    if requested >= 1 then requested else 1
  }

  /** `extractPieceBuffers`: the pixels of every tile, in slot order. */
  function PieceBuffers(img: Image, cols: int, count: nat, size: nat): (buffers: seq<seq<Byte>>)
    requires cols > 0
    ensures |buffers| == count
  {
    seq(count, k => Tile(img, cols, k, size))
  }

  datatype Outcome = Resolved(matrices: Matrices) | Cancelled

  function Sum(xs: seq<nat>): nat {
    if |xs| == 0 then 0 else Sum(xs[..|xs| - 1]) + xs[|xs| - 1]
  }

  /** The buffered candidates are the canvas-level candidates. */
  lemma BufferedCandidates(source: Canvas, target: Canvas, s: int, t: int)
    requires ChunkedComputable(source, target)
    requires 0 <= s < PieceCount(source) && 0 <= t < PieceCount(source)
    ensures var cols := source.cols.value;
            var size := RoundDiv(source.bitmap.width, cols);
            Candidates(Tile(source.bitmap, cols, s, size), Tile(target.bitmap, cols, t, size), size)
            == SlotCandidates(source, target, s, t)
  {
    var cols := source.cols.value;
    var size := RoundDiv(source.bitmap.width, cols);
    forall r | 0 <= r < 4
      ensures Candidates(Tile(source.bitmap, cols, s, size), Tile(target.bitmap, cols, t, size), size)[r]
           == SlotCandidates(source, target, s, t)[r]
    {
      assert Mod(r, 4) == r;
    }
  }

  /** One matrix row: the best rotation of source buffer `src` over every
      target buffer, through the rotation loop. */
  method FillRow(src: seq<Byte>, targets: seq<seq<Byte>>, size: int)
    returns (rowD: seq<Num>, rowR: seq<int>)
    ensures |rowD| == |targets| && |rowR| == |targets|
    ensures forall t :: 0 <= t < |targets| ==>
              Best(rowR[t], rowD[t]) == BestOf(Candidates(src, targets[t], size))
  {
    rowD := seq(|targets|, _ => PosInf);
    rowR := seq(|targets|, _ => 0);
    var targetSlot := 0;
    while targetSlot < |targets|
      invariant 0 <= targetSlot <= |targets|
      invariant |rowD| == |targets| && |rowR| == |targets|
      invariant forall t :: 0 <= t < targetSlot ==>
                  Best(rowR[t], rowD[t]) == BestOf(Candidates(src, targets[t], size))
    {
      ghost var cands := Candidates(src, targets[targetSlot], size);
      var bestRotation := 0;
      var bestDistance := PosInf;
      var rotation := 0;
      while rotation < 4
        invariant 0 <= rotation <= 4
        invariant Best(bestRotation, bestDistance) == BestOf(cands[..rotation])
      {
        var distance := ComputePieceDistanceFromBuffers(Some(src), Some(targets[targetSlot]), size, rotation);
        assert cands[..rotation + 1][..rotation] == cands[..rotation];
        if distance.Less(bestDistance) {
          bestDistance := distance;
          bestRotation := rotation;
        }
        rotation := rotation + 1;
      }
      assert cands[..4] == cands;
      rowR := rowR[targetSlot := bestRotation];
      rowD := rowD[targetSlot := bestDistance];
      targetSlot := targetSlot + 1;
    }
  }

  /** `computeDistanceAndRotationMatricesAsync` without its timers: source rows
      are processed in chunks of at most `ChunkSize` rows, a chunk also ending
      early whenever `timeUp(rowsDone)` says its time budget is spent. The
      abort signal, if it fires, is first seen once `abortAt` rows are done,
      and rejects the computation. `chunks` records how many rows each chunk
      processed. */
  method ComputeMatricesChunked(source: Canvas, target: Canvas, chunkOption: Option<int>,
                                timeUp: nat -> bool, abortAt: Option<nat>)
    returns (outcome: Outcome, ghost chunks: seq<nat>)
    ensures !ChunkedComputable(source, target) ==> outcome == Resolved(Matrices([], []))
    ensures ChunkedComputable(source, target) ==>
              (outcome.Cancelled? <==> abortAt.Some? && abortAt.value < PieceCount(source))
    ensures ChunkedComputable(source, target) && outcome.Resolved? ==>
              outcome.matrices == DistanceAndRotationMatrices(source, target)
    ensures ChunkedComputable(source, target) ==>
              forall c :: 0 <= c < |chunks| ==> 1 <= chunks[c] <= ChunkSize(chunkOption, PieceCount(source))
    ensures ChunkedComputable(source, target) && outcome.Resolved? ==> Sum(chunks) == PieceCount(source)
  {
    chunks := [];
    if !ChunkedComputable(source, target) {
      return Resolved(Matrices([], [])), chunks;
    }
    var cols := source.cols.value;
    var n := PieceCount(source);
    var size := RoundDiv(source.bitmap.width, cols);
    var chunkSize := ChunkSize(chunkOption, n);
    var distance: seq<seq<Num>> := seq(n, _ => seq(n, _ => PosInf));
    var rotation: seq<seq<int>> := seq(n, _ => seq(n, _ => 0));
    var sourceBuffers := PieceBuffers(source.bitmap, cols, n, size);
    var targetBuffers := PieceBuffers(target.bitmap, cols, n, size);
    ghost var sync := DistanceAndRotationMatrices(source, target);

    var sourceSlot := 0;
    while sourceSlot < n
      invariant 0 <= sourceSlot <= n
      invariant |distance| == n && |rotation| == n
      invariant forall s :: 0 <= s < n ==> |distance[s]| == n && |rotation[s]| == n
      invariant forall s :: 0 <= s < sourceSlot ==> distance[s] == sync.distance[s] && rotation[s] == sync.rotation[s]
      invariant abortAt.Some? ==> sourceSlot <= abortAt.value
      invariant forall c :: 0 <= c < |chunks| ==> 1 <= chunks[c] <= chunkSize
      invariant Sum(chunks) == sourceSlot
      decreases n - sourceSlot
    {
      var processed := 0;
      while sourceSlot < n && processed < chunkSize
        invariant 0 <= sourceSlot <= n && 0 <= processed <= chunkSize
        invariant |distance| == n && |rotation| == n
        invariant forall s :: 0 <= s < n ==> |distance[s]| == n && |rotation[s]| == n
        invariant forall s :: 0 <= s < sourceSlot ==> distance[s] == sync.distance[s] && rotation[s] == sync.rotation[s]
        invariant abortAt.Some? ==> sourceSlot <= abortAt.value
        invariant Sum(chunks) + processed == sourceSlot
        decreases n - sourceSlot
      {
        if abortAt.Some? && abortAt.value <= sourceSlot {
          return Cancelled, chunks;
        }
        var rowD, rowR := FillRow(sourceBuffers[sourceSlot], targetBuffers, size);
        RowMatchesSync(source, target, sourceSlot, sourceBuffers[sourceSlot], targetBuffers, rowD, rowR);
        distance := distance[sourceSlot := rowD];
        rotation := rotation[sourceSlot := rowR];
        sourceSlot := sourceSlot + 1;
        processed := processed + 1;
        if timeUp(sourceSlot) {
          break;
        }
      }
      assert processed >= 1;
      assert (chunks + [processed])[..|chunks|] == chunks;
      chunks := chunks + [processed];
    }
    assert distance == sync.distance;
    assert rotation == sync.rotation;
    return Resolved(Matrices(distance, rotation)), chunks;
  }

  /** A row computed from the buffers is the corresponding row of the
      single-pass matrices. */
  lemma RowMatchesSync(source: Canvas, target: Canvas, s: int, src: seq<Byte>, targets: seq<seq<Byte>>,
                       rowD: seq<Num>, rowR: seq<int>)
    requires ChunkedComputable(source, target)
    requires 0 <= s < PieceCount(source)
    requires var size := RoundDiv(source.bitmap.width, source.cols.value);
             && src == Tile(source.bitmap, source.cols.value, s, size)
             && targets == PieceBuffers(target.bitmap, source.cols.value, PieceCount(source), size)
    requires |rowD| == |targets| && |rowR| == |targets|
    requires forall t :: 0 <= t < |targets| ==>
               Best(rowR[t], rowD[t]) == BestOf(Candidates(src, targets[t], RoundDiv(source.bitmap.width, source.cols.value)))
    ensures var sync := DistanceAndRotationMatrices(source, target);
            rowD == sync.distance[s] && rowR == sync.rotation[s]
  {
    var n := PieceCount(source);
    var sync := DistanceAndRotationMatrices(source, target);
    forall t | 0 <= t < n
      ensures rowD[t] == sync.distance[s][t] && rowR[t] == sync.rotation[s][t]
    {
      BufferedCandidates(source, target, s, t);
      assert sync.distance[s][t] == BestRotationForSlot(source, target, s, t).distance;
      assert sync.rotation[s][t] == BestRotationForSlot(source, target, s, t).rotation;
    }
  }
}
