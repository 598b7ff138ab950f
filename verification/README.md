# AmbiguousPuzzle: the piece-matching and arrangement engine

AmbiguousPuzzle cuts two images into the same grid of tiles. It then finds
an *arrangement*: for every piece, the slot it moves to and the quarter
turns it is given. Rearranging one image by the arrangement should make it
look like the other. The engine has these parts:

- grid partitioning (`computeStops`);
- a distance engine (`metrics.js`). It compares tiles by the mean squared
  luma difference under the four quarter turns, keeps the best turn, and
  fills the distance and rotation matrices, either in one pass or in
  cancellable chunks;
- a Hungarian assignment solver (`assignment.js`);
- the arrangement algebra (`arrangements.js`). It builds an arrangement from
  the solver's answer and inverts it leniently;
- the tile resampler (`rearranger.js`, duplicated in `blender.js`);
- the blend (`blender.js`). It reverses an arrangement, scrambles the
  secondary image by the reverse and averages it with the primary, so that
  rearranging the blend brings the secondary back into view;
- the brightness-rank arrangement generator (`arrangementGenerator.js`);
- crop selection and grid snapping (`resolution.js`).

The model is written in Dafny, one module per concern:

| file | module | contents |
|---|---|---|
| `js_values.dfy` | `JsValues` | JavaScript numbers as they matter here: `Num` (finite, ±Infinity, NaN), `Arr` (array or not), truncating `%`, the `mod` helper, `& 3` |
| `perm.dfy` | `Perm` | permutations of `0..n-1`, the pigeonhole facts, inverse and composition |
| `scatter.dfy` | `Scatter` | `new Array(n)` filled by `forEach` writes: last writer wins, holes stay holes, then the repair loop |
| `pixels.dfy` | `Pixels` | RGBA byte buffers, offsets, luma, `getImageData` |
| `tile_math.dfy` | `TileMath` | `computeStops` and the tile partition |
| `metrics.dfy` | `Metrics` | `rotateCoord`, the piece distance, the best-rotation loop, both ways of filling the matrices |
| `assignment.dfy` | `Assignment` | `solveAssignment`, phase by phase |
| `arrangements.dfy` | `Arrangements` | `invertArrangement`, `buildArrangement` |
| `tiles.dfy` | `Tiles` | `rotateUV`, `clampToInt` and the resampler shared by `applyArrangement` and `applyArrangementToImage` |
| `blender.dfy` | `Blender` | `averageChannel`, `reverseArrangement` (as written and corrected), `blendWithArrangement` (as written) |
| `reveal.dfy` | `Reveal` | the round trip: scramble by the inverse, rearrange, get the image back; what the blend reveals |
| `generator.dfy` | `Generator` | `measureTileBrightness`, the stable brightness sort, `createArrangement` |
| `resolution.dfy` | `Resolution` | `computeCropDimensions`, `snapToGrid` |

Modelling choices:

- Canvas reads become `Image` values: a width, a height and a byte sequence.
- Real arithmetic is exact.
- JavaScript's truncating `%` is written out (`JsValues.Rem`), and so is
  `mod(v, d) = ((v % (d || 1)) + (d || 1)) % (d || 1)`.
- A sparse array is a sequence of `Option`, which makes the difference
  between a hole and a value visible.
- `Array.prototype.sort` is stable. The model's sort is therefore the unique
  ranking by (value, original index), and `Generator.RankingUnique` proves
  there is only one such ranking.
- The assignment solver keeps `Infinity` in `minv` and `delta` as the
  `Bound` datatype.
- The solver passed to `buildArrangement` is a function parameter.

Notes where the code and its usual description differ (the code is followed):

- **Rotation conventions.** The resampler's `rotateUV(u, v, r)` turns
  normalised coordinates the opposite way from `rotateCoord(x, y, size, r)`
  in the distance search. On a square tile, sampling with rotation `r` picks
  the pixel `rotateCoord` picks for `(4 - r) mod 4`
  (`Tiles.SampleMatchesRotateCoord`).
- **Zero piece size.** With a zero piece size, the one-pass matrices are
  `n x n`, full of +Infinity at rotation 0. The chunked variant has extra
  guards (a non-empty bitmap of the same size as the target's, a non-zero
  `Math.round(width / cols)`) and returns empty matrices instead.
  `Metrics.ComputeMatricesChunked` states both the agreement with the
  one-pass matrices and those guards.
- **The reverse's `null` guard.** `reverseArrangement` is described as
  returning `null` when some slot is never referenced. As written, it
  returns the sparse array with holes (see Findings).
  `Blender.BlendWithArrangement` follows the code: a hole reads as a
  non-array entry, so its tile of the scrambled secondary stays black. The
  corrected reverse, `Blender.Reverse`, is kept beside it. On bijective
  arrangements, which are all that the generator and the solver produce, the
  two agree (`Blender.ScrambleOrderBijective`), so the reveal lemmas hold for
  the blend as written.

## Model

| member | source | states |
|---|---|---|
| `JsValues.Rem` | metrics.js:316 | JavaScript `%`: the remainder is smaller than the divisor in magnitude, equals the Euclidean remainder for a non-negative dividend and is never positive for a negative one |
| `JsValues.Mod` | metrics.js:394-397 | `mod(v, d)` lies in `[0, d)` and is congruent to `v` for `d > 0`; a zero divisor is treated as 1, so the result is 0; for `d < 0` the result lies in `(d, 0]` |
| `JsValues.RemShiftLemma` | arrangements.js:197-200 | adding the divisor to the truncated remainder makes it non-negative, and a second `%` gives the Euclidean remainder: this is why `mod` is correct for negative values |
| `JsValues.FloorDiv` | rearranger.js:40 | `Math.floor(a / b)` for `b > 0` is the integer bracketing the real quotient from below |
| `JsValues.And3` | rearranger.js:37 | `x & 3` (after the 32-bit conversion) is `x mod 4` for every integer, negative ones included |
| `JsValues.ToInt32Mod4Lemma` | blender.js:89 | the 32-bit truncation before `&` does not change a value modulo 4 |
| `Scatter.Apply` | arrangements.js:53-68 | `new Array(n)` after the writes has `n` slots, and every filled slot holds a value that some write stored at that index |
| `Scatter.ApplyLastWrite` | arrangements.js:53-68 | a slot of `new Array(n)` that a `forEach` writes to holds the value of the last write to it |
| `Scatter.ApplyUnwritten` | arrangements.js:53-68 | a slot nobody writes to stays a hole |
| `Scatter.FillHoles` | arrangements.js:70-74 | the repair loop keeps every written slot and puts the default `fill(i)` into every hole |
| `Pixels.DecodeOffset` | rearranger.js:54 | the offset `(y * width + x) * 4 + c` of an in-row pixel decodes back to `x`, `y` and `c` |
| `Pixels.EncodeOffset` | blender.js:33-38 | every offset of a `width x height` buffer is the offset of exactly one pixel and channel, so a loop over offsets visits every pixel channel |
| `Pixels.OffsetInBounds` | rearranger.js:54 | the offset of a pixel inside the image lies inside its `4 * width * height` bytes |
| `Pixels.LumaBounds` | metrics.js:328-330 | the luma of three bytes lies in `[0, 255]`, and a grey pixel's luma is its value |
| `Pixels.GetImageData` | metrics.js:375-378 | the block has `4 * sw * sh` bytes, and pixel `(x, y)` of the block read at `(sx, sy)` is pixel `(sx + x, sy + y)` of the image, with 0 outside it |
| `TileMath.ComputeStops` | tileMath.js:2-16 | `segments <= 0` gives exactly `[0, size]`; otherwise `segments + 1` stops starting at 0 |
| `TileMath.CursorClosedForm` | tileMath.js:9-14 | after `k` spans the cursor is `k * base + min(k, remainder)` |
| `TileMath.StopsClosedForm` | tileMath.js:6-14 | `stops[i] = i * base + min(i, remainder)` |
| `TileMath.SpansBalanced` | tileMath.js:11 | span `i` is `base + 1` exactly when `i < remainder` and `base` otherwise, so any two spans differ by at most one |
| `TileMath.SizeDecomposition` | tileMath.js:6-7 | for a non-negative size, `size = segments * base + remainder` with `0 <= remainder < segments` |
| `TileMath.StopsOrdered` | tileMath.js:10-14 | stops are non-decreasing, and strictly increasing once `size >= segments` |
| `TileMath.StopsPartition` | tileMath.js:6-14 | for `size >= 0` the stops run from 0 to `size`, all inside `[0, size]`: the spans partition the side |
| `TileMath.Locate` | rearranger.js:26-33 | every coordinate of the side lies in some tile `k` with `stops[k] <= x < stops[k + 1]` |
| `TileMath.LocateUnique` | rearranger.js:26-33 | that tile is unique: tiles do not overlap |
| `Metrics.RotateCoord` | metrics.js:315-326 | a quarter turn keeps in-tile coordinates inside the tile; a rotation that is a multiple of 4, or negative, leaves the pixel where it is; a half turn mirrors both coordinates |
| `Metrics.RotateCoordGroup` | metrics.js:315-326 | a quarter turn keeps coordinates inside the tile; rotation 0 is the identity; turns compose by adding counts mod 4 (two turns of 1 are a turn of 2, four are the identity) |
| `Metrics.RotateCoordNegative` | metrics.js:316 | a negative rotation falls through to the identity case of the `switch` |
| `Metrics.PieceDistance` | metrics.js:332-364 | +Infinity exactly when a buffer is missing or `pieceSize <= 0`; otherwise a finite, non-negative mean |
| `Metrics.ComputePieceDistanceFromBuffers` | metrics.js:337-363 | the nested pixel loops, skipping out-of-buffer pixels, compute the row-by-row definition of the distance |
| `Metrics.SelfDistanceZero` | metrics.js:337-363 | a buffer compared with itself at a rotation that is a multiple of 4 has distance 0 |
| `Metrics.DistanceRotationPeriodic` | metrics.js:337 | only the rotation modulo 4 matters |
| `Metrics.BestOf` | metrics.js:115-126 | the strict-`<` loop returns `(0, +Infinity)` for no candidates; otherwise a candidate no other is below, every earlier one strictly above it (ties keep the smallest rotation) |
| `Metrics.CanvasPieceDistance` | metrics.js:2-47 | the distance between two canvas tiles is never NaN, so the best-rotation comparison is total |
| `Metrics.BestRotationForSlot` | metrics.js:94-127 | `(0, +Infinity)` unless both grids agree and both slots lie in them; otherwise a rotation no other rotation is below, every earlier rotation strictly above it |
| `Metrics.BestRotationForSlotIsBest` | metrics.js:94-127 | for slots inside agreeing grids, the result is the best of the four rotations, the first on ties |
| `Metrics.DistanceAndRotationMatrices` | metrics.js:129-163 | empty matrices unless both grids are the same positive integers; otherwise `n x n` matrices whose every cell is the best rotation of that pair and its distance |
| `Metrics.ChunkSize` | metrics.js:202 | the chunk size is at least 1 whatever the option says |
| `Metrics.BufferedCandidates` | metrics.js:366-382 | the four candidates computed from the pre-extracted buffers equal those computed from the canvases |
| `Metrics.FillRow` | metrics.js:273-289 | every cell of a row holds the best rotation over the four candidates of its pair of buffers, and its distance |
| `Metrics.RowMatchesSync` | metrics.js:271-289 | a row filled from buffers equals that row of the one-pass matrices |
| `Metrics.ComputeMatricesChunked` | metrics.js:165-313 | empty matrices when a guard fails; otherwise it is cancelled exactly when the abort is seen before all rows are done, and when it resolves its matrices equal the one-pass matrices for any chunk size and any time-based early break, every chunk holding 1 to `chunkSize` rows and the chunk sizes adding up to the number of rows |
| `Assignment.Working` | assignment.js:20-23 | the working copy is `n x n`; each entry is either the original finite cost or, for a non-finite cost, the stand-in `1e12` |
| `Assignment.Scan` | assignment.js:41-54 | tree columns keep their slack and back-pointer; every other column's slack becomes the smaller of itself and the reduced cost from `i0`, its back-pointer becoming `j0` exactly when the reduced cost is strictly smaller; the chosen column is outside the tree, has the least slack, is the first such column, and exists whenever a column outside the tree does |
| `Assignment.UpdatePotentials` | assignment.js:56-63 | the potential update keeps every slack finite or infinite as it was |
| `Assignment.Grow` | assignment.js:36-65 | one pass of the search loop keeps the tree well formed and strictly shrinks the set of columns outside the tree, so the `do … while` ends |
| `Assignment.Search` | assignment.js:36-66 | the search ends at a free column whose back-pointer leads into the tree |
| `Assignment.Augment` | assignment.js:68-72 | walking back along the tree path puts the root row into `p` in place of one free column, keeping every other row |
| `Assignment.AugmentedFacts` | assignment.js:68-72 | after the augmentation row `i` is matched as well as rows `1..i-1` |
| `Assignment.RunPhase` | assignment.js:31-72 | if columns `1..n` hold rows `1..i-1` once each before phase `i`, they hold rows `1..i` once each after it |
| `Assignment.Phases` | assignment.js:30-73 | after the outer loop columns `1..n` hold rows `1..n`, each exactly once |
| `Assignment.RowsOnce` | assignment.js:75-80 | with every row held exactly once, the column-to-row map is a permutation |
| `Assignment.RowsToColumns` | assignment.js:75-80 | the output loop then computes the inverse permutation, the column of every row |
| `Assignment.SolveAssignment` | assignment.js:2-95 | the fail-soft answer `([], +Infinity)` exactly when the input is not a non-empty square array of arrays; otherwise `n` records, record `k` for row `k`, targets forming a permutation, and `totalCost` the left-to-right sum of the original costs of the chosen cells |
| `Arrangements.Undo` | arrangements.js:64-65 | the reverse rotation lies in `0..3` and undoes `r` modulo 4 |
| `Arrangements.UndoClosedForm` | arrangements.js:64-65 | the reverse rotation is 0 for a whole number of turns and `4 - (r mod 4)` otherwise |
| `Arrangements.UndoUndo` | arrangements.js:64-65 | reversing twice gives a rotation in `0..3` back |
| `Arrangements.Invert` | arrangements.js:48-77 | `[]` for a non-array; otherwise one entry per input entry |
| `Arrangements.InvertSlot` | arrangements.js:55-74 | slot `t` holds `[i, undo(r)]` for the last usable entry `i = [t, r]` naming it, and `[t, 0]` when no entry names it |
| `Arrangements.InvertBijectiveSlot` | arrangements.js:55-68 | in a bijective arrangement slot `t` receives the one piece that names it |
| `Arrangements.InvertBijective` | arrangements.js:48-77 | inverting a bijective arrangement gives a bijective arrangement sending each slot back to its piece with the undoing rotation |
| `Arrangements.InvertTwiceAt` | arrangements.js:48-77 | inverting twice gives every entry of a bijective arrangement back |
| `Arrangements.InvertInvolution` | arrangements.js:48-77 | inverting a bijective arrangement twice gives it back |
| `Arrangements.BuildArrangement` | arrangements.js:151-195 | `[]` on a shape mismatch, a missing solver or an unusable answer; otherwise one entry per piece, each a pair with a slot in range and a rotation in `0..3` |
| `Arrangements.ApplyProvenance` | arrangements.js:167-186 | a filled slot holds a value some write stored there |
| `Arrangements.BuildSlot` | arrangements.js:169-192 | entry `s` comes from the last record for piece `s`: its target, or `s` when the target is unusable, with `mod(rotationMatrix[s][target], 4)` (0 for a non-integer); `[s, 0]` when no record names `s` |
| `Arrangements.BuildFromPermutation` | arrangements.js:167-194 | a solver answer whose targets form a permutation yields a bijective arrangement, entry `k` being `[target_k, mod(rotation, 4)]` |
| `Tiles.RotateUV` | rearranger.js:73-84 | the unit square is mapped into itself, and a rotation that is a multiple of 4 is the identity |
| `Tiles.RotateUVGroup` | blender.js:43-54 | turns of normalised coordinates compose by adding their counts modulo 4 |
| `Tiles.ClampToInt` | rearranger.js:86-92 | 0 for a span of at most one; otherwise a value in `[0, span - 1]`, equal to `floor(value * span)` when that is in range |
| `Tiles.CentreSample` | rearranger.js:50-58 | sampling a span at the centre of its own pixel `l` gives `l` back, and at the mirrored centre `span - 1 - l` |
| `Tiles.SampleMatchesRotateCoord` | rearranger.js:56-58 | on a square tile of the same size, resampling with rotation `r` picks the pixel `rotateCoord` picks for `(4 - r) mod 4` |
| `Tiles.ReadLenient` | rearranger.js:35-37 | a non-array entry keeps the piece in place unrotated; the rotation read is always in `0..3` |
| `Tiles.ReadStrict` | blender.js:133-139 | a non-array entry leaves the tile blank; the rotation read is always in `0..3` |
| `Tiles.SourcePixel` | rearranger.js:39-58 | the slot is clamped into the grid, and the sampled pixel lies inside the slot tile, widened to at least one pixel |
| `Tiles.PlaceOf` | rearranger.js:26-34 | every destination pixel belongs to one tile of the partition, with arrangement index `pieceRow * cols + pieceCol` |
| `Tiles.Resample` | rearranger.js:20-68 | the output has the source's size; with a grid, every byte of every pixel is the byte its own tile samples for it, so every destination pixel is written; with no rows or columns it stays all zero |
| `Tiles.ApplyArrangement` | rearranger.js:2-71 | `null` exactly when the image is missing or the arrangement is not an array of `rows * cols` entries; otherwise an image of the same size |
| `Tiles.ApplyArrangementToImage` | blender.js:100-173 | the same guards and size, for the strict reading of entries |
| `Tiles.TilesPartition` | rearranger.js:23-34 | pixel `colStops[k] + l` of tile `k` is located in tile `k` and no other |
| `Tiles.SampleInSlot` | rearranger.js:39-58 | with at least one pixel per tile, every sample lies inside its slot tile and hence inside the image |
| `Tiles.SelfSample` | rearranger.js:48-58 | a tile showing its own slot unrotated samples every pixel at that same pixel |
| `Tiles.IdentityPixel` | rearranger.js:48-66 | under the identity arrangement every output byte equals the input byte |
| `Tiles.IdentityCopies` | rearranger.js:2-71 | rearranging by the identity arrangement copies the image exactly, in both variants |
| `Blender.AverageChannel` | blender.js:64-66 | `(a + b) >> 1` is the mean rounded down and lies between `a` and `b` |
| `Blender.ReverseRotation` | blender.js:88-89 | `(4 - (r & 3)) & 3` lies in `0..3`, undoes `r` modulo 4, and equals the reverse rotation of `invertArrangement` |
| `Blender.ReverseRotationIsUndo` | blender.js:89 | the two ways of reversing a rotation agree for every integer |
| `Blender.ReverseAsWritten` | blender.js:68-98 | as written: `null` exactly when the arrangement is not an array or some entry is not an array, is empty, or names a slot out of range; otherwise one (possibly empty) slot per entry |
| `Blender.ReverseAsWrittenHoles` | blender.js:75-95 | as written, a slot of the result is empty exactly when no entry names it: the `some` guard lets holes through |
| `Blender.ReverseAcceptsUnnamedSlot` | blender.js:93-95 | `[[0, 0], [0, 0]]` is reversed to a non-null result with slot 1 empty |
| `Blender.ReverseAsWrittenSlot` | blender.js:77-91 | when the slots form a permutation, the slot named by entry `i` holds `[i, inverseRotation]`: no later entry overwrites it |
| `Blender.Reverse` | blender.js:68-98 | the corrected reverse is non-null exactly when the input is an array of usable entries whose slots form a permutation; then it has one entry per piece, and the slot of entry `i` holds `[i, inverseRotation]` |
| `Blender.ReverseIsInverse` | blender.js:68-98 | the corrected reverse is non-null exactly when the entries are usable and their slots form a permutation; then it is bijective and its slots are the inverse permutation |
| `Blender.ReverseFilled` | blender.js:77-91 | when the slots form a permutation every slot is filled, by the inverse arrangement |
| `Blender.ReverseMatchesInvert` | blender.js:68-98 | on a bijective arrangement the strict reverse of `blender.js` equals the lenient inverse of `arrangements.js` |
| `Blender.ScrambleOrderBijective` | blender.js:16-21 | on a bijective arrangement the reverse as written has no holes, and the secondary is scrambled by the inverse arrangement |
| `Blender.BlendWithArrangement` | blender.js:2-41 | `null` exactly when an image is missing, sizes differ, the arrangement is not an array of `rows * cols` entries, or some entry is not an array, is empty, or names a slot out of range; otherwise a well-formed image of the primary's size with every alpha 255 |
| `Blender.BlendByte` | blender.js:21-38 | every colour byte of the blend is the mean of the primary's byte and the byte of the secondary scrambled by the reverse as written |
| `Blender.BlendAcceptsUnnamedSlot` | blender.js:16-38 | on a `2 x 1` image, `[[0, 0], [0, 0]]` is blended, not rejected, and the colour bytes of tile 1 are the primary's halved, because that tile of the scrambled secondary stays black |
| `Reveal.UniformStops` | tileMath.js:6-14 | a side of `s * k` pixels split into `k` parts has its stops at multiples of `s` |
| `Reveal.UniformPlace` | rearranger.js:26-34 | on square tiles of side `s`, pixel `(x, y)` lies in tile `(y div s, x div s)` |
| `Reveal.SquareSourcePixel` | rearranger.js:39-58 | on square tiles the sampled pixel is the `rotateCoord` turn of the local pixel inside the slot tile |
| `Reveal.SampleAtLocal` | rearranger.js:48-58 | the sample of a destination pixel depends only on its local coordinates within its tile |
| `Reveal.UniformSample` | rearranger.js:39-58 | on square tiles, a tile showing slot `t` with rotation `r` samples the turned local pixel of slot `t` |
| `Reveal.ReadFromInverse` | rearranger.js:56-58 | reading through a turn and then through its undoing turn gives back the local pixel |
| `Reveal.ScrambledRead` | blender.js:150-166 | in the image scrambled by the inverse, the pixel a rearranged tile reads holds the original pixel |
| `Reveal.BijectiveEntry` | arrangements.js:55-68 | each entry of a bijective arrangement is a pair whose slot the inverse sends back to it with the undoing rotation |
| `Reveal.RoundTripPixel` | blender.js:141-166 | scrambling by the inverse and rearranging by the arrangement restores each byte |
| `Reveal.RoundTrip` | blender.js:16-24 | on square tiles, scrambling an image by the inverse of a bijective arrangement and rearranging the result by the arrangement gives the image back |
| `Reveal.BlendIsBlended` | blender.js:33-38 | every colour byte of the blend is the channel average of the primary and the scrambled secondary at the same offset |
| `Reveal.ReadPoint` | rearranger.js:48-66 | rearranging by a bijective arrangement reads every destination pixel from one fixed source pixel, the same for every image of that size |
| `Reveal.BlendRevealPixel` | blender.js:2-41 | rearranging the blend shows at each pixel the average of the rearranged primary and the original secondary |
| `Reveal.BlendReveal` | blender.js:2-41 | rearranging the blend by the arrangement brings the secondary image back into view, averaged with the rearranged primary |
| `Generator.TileSum` | arrangementGenerator.js:56-66 | the nested pixel loops sum the luma of every pixel of the tile, row by row |
| `Generator.RegionSumBounds` | arrangementGenerator.js:58-66 | the luma sum of a block lies between 0 and 255 times its pixel count |
| `Generator.TileAreaOf` | arrangementGenerator.js:50-55 | the divisor `max(1, w) * max(1, h)` is at least the pixel count, and equals it for a non-empty tile |
| `Generator.TileBrightness` | arrangementGenerator.js:50-69 | a tile's brightness lies in `[0, 255]` |
| `Generator.UniformTileBrightness` | arrangementGenerator.js:50-69 | a non-empty tile of uniform luma `v` has brightness `v` |
| `Generator.MeasureTileBrightness` | arrangementGenerator.js:42-74 | one brightness per piece, each in `[0, 255]` |
| `Generator.MeasureAt` | arrangementGenerator.js:47-69 | the brightness at `pieceRow * cols + pieceCol` is that of the tile between the stops, so a uniform non-empty tile gives its luma |
| `Generator.SortedPrefixSorted` | arrangementGenerator.js:25-30 | the insertion model of the stable sort orders indexes by (value, index) |
| `Generator.RankOrder` | arrangementGenerator.js:25-30 | the sorted indexes are a permutation of `0..n-1` in (value, index) order |
| `Generator.RankingUnique` | arrangementGenerator.js:25-30 | only one permutation is in (value, index) order, so a stable sort has exactly one possible outcome |
| `Generator.RankRespectsScore` | arrangementGenerator.js:25-30 | a strictly smaller value is ranked strictly earlier |
| `Generator.PairRanks` | arrangementGenerator.js:32-37 | pairing rank `i` of A with rank `i` of B gives a bijective arrangement with rotation 0 sending `sortedA[i]` to `sortedB[i]` |
| `Generator.RankWritesFill` | arrangementGenerator.js:32-37 | the loop's writes fill every slot of `new Array(pieceCount)`, leaving no hole |
| `Generator.CreateArrangement` | arrangementGenerator.js:2-40 | `[]` exactly when `max(0, rows * cols)` is 0, an image is missing or the sizes differ; otherwise `rows * cols` entries forming a bijection, every rotation 0 |
| `Generator.CreateArrangementPairsRanks` | arrangementGenerator.js:25-37 | the tile ranked `i` by brightness in A is assigned the tile ranked `i` in B |
| `Generator.CreateArrangementMonotone` | arrangementGenerator.js:25-37 | a darker tile of A is never assigned a brighter slot of B than a lighter tile of A |
| `Generator.CreateArrangementSelf` | arrangementGenerator.js:2-40 | an image arranged against itself gives the identity arrangement |
| `Resolution.Centred` | resolution.js:12-18 | the offsets are half the unused extent on each side, and `cropArea` is the number of discarded pixels |
| `Resolution.Best` | resolution.js:44-49 | the reduce returns one of the options, with the least `cropArea` |
| `Resolution.BestIsFirstMinimum` | resolution.js:44-49 | that option is the first of least `cropArea`: every earlier option discards strictly more |
| `Resolution.ComputeCropDimensions` | resolution.js:3-57 | the crop is centred in the image; when some option exists it is the crop of an option with the least `cropArea` |
| `Resolution.CandidateExists` | resolution.js:9-42 | for a positive ratio at least one option exists, so the full-image fallback is never taken |
| `Resolution.CropIsBestCentred` | resolution.js:3-57 | the crop is centred and is the first option of least `cropArea` |
| `Resolution.ByHeightAspect` | resolution.js:9-11 | the first option keeps the aspect up to flooring: `height * ratio <= width < (height + 1) * ratio` |
| `Resolution.ByWidthAspect` | resolution.js:22-24 | the second option keeps the aspect up to flooring: `width <= height * ratio < width + 1` |
| `Resolution.CropFits` | resolution.js:3-57 | when both target sides are at least one pixel, the crop has positive sides inside the image and non-negative offsets |
| `Resolution.TinyImageCropOverflows` | resolution.js:9-18 | for a 1 x 1 image and ratio 0.5 the `max(1, …)` clamps give a 1 x 2 crop at offset -0.5, larger than the image |
| `Resolution.SnapToGrid` | resolution.js:59-72 | `{0, 0, 0}` for a missing crop or a non-positive grid; otherwise a piece size of at least 1, with width and height the piece size times the grid |
| `Resolution.SnapPieceSize` | resolution.js:64-65 | the piece size is `max(1, min(width div cols, height div rows))` |
| `Resolution.SnapLargest` | resolution.js:64-70 | with a pixel per piece, the snapped grid fits inside the crop and its piece size is the largest that fits |
| `Resolution.SnapGivesSquareTiles` | resolution.js:64-71 | the snapped sides split into square tiles of the piece size, the stops at its multiples |

## Left out

- Browser I/O. This covers canvases, `ImageData` allocation, `getImageData` on a canvas, `drawProcessedImage`, `clearCanvas` and `applyArrangementToCanvas`. Images are values.
- `computeArrangementAverageDistance`: it is a canvas-level report with no role in building arrangements.
- `computeOptimalArrangement` and `computeOptimalArrangementAsync`: they are Promise glue around the modelled pieces.
- Timers and abort listeners: `setTimeout`, `performance.now`, `AbortSignal` and `createAbortError`.
  - `Metrics.ComputeMatricesChunked` takes the time-based break as a function parameter and the abort as the number of rows done when it is first seen.
- The `typeof computeStops !== 'function'` guards (rearranger.js:15-18, blender.js:116-119, arrangementGenerator.js:12-15). `computeStops` always exists in the model.
- IEEE-754 rounding: luma weights, `(x + 0.5) / w` sampling and the cost sums are exact reals. Double rounding at floor boundaries is not modelled.
- A `null` or `undefined` record in a solver's `assignment`: the destructuring parameter at arrangements.js:169 throws a `TypeError`. In the model every record is an `Arrangements.SolverRecord` object, as the engine's own solver always builds (assignment.js:89-94).
- Non-integer arrangement entries and non-integer `rows`/`cols`. Entries are integer arrays or non-arrays. A non-integer `sourceIndex`/`targetIndex` of a solver record is `None`.
- Assignment optimality: the model proves the fail-soft answer, the permutation and the cost sum, not that the cost is minimal.
- `Assignment.UpdatePotentials`: states only that every slack stays finite or infinite as it was, not the new values of `u`, `v` and `minv`, which matter only for optimality.
- `Reveal.RoundTrip`: proved for square tiles (width `s * cols`, height `s * rows`, as `snapToGrid` produces). With unequal spans a rotated tile is resampled and the round trip is not exact.
- `Resolution.ComputeCropDimensions`: requires a positive ratio. For a zero or negative ratio JavaScript divides by zero or takes non-finite floors, which the model does not represent.
- `Resolution.ByHeightAspect`: holds only when the `max(1, …)` clamp does not apply (`width >= ratio`). `Resolution.TinyImageCropOverflows` shows what happens otherwise.
- `Resolution.ByWidthAspect`: holds only when `height * ratio >= 1`, for the same reason.
- `Generator.MeasureTileBrightness`: requires `rows * cols >= 0`. `new Array(negative)` throws a `RangeError`, and `createArrangement` only calls it with a positive piece count.
- `Metrics.CanvasPieceDistance`: states only that the distance is never NaN. Its value is stated through `Metrics.PieceDistance` on the tiles (`Metrics.BufferedCandidates`).
- `script.js` and `blend.js`: UI orchestration and canvas compositing, outside the engine.

## Findings

| source | as written | input that shows it | evidently intended | confidence | as-written member | corrected member |
|---|---|---|---|---|---|---|
| blender.js:93-95 | `reversed.some((entry) => !entry)` runs on `new Array(n)`; `some` skips holes, so a slot no entry names never makes `reverseArrangement` return `null` | the arrangement `[[0, 0], [0, 0]]`: the reverse is non-null with slot 1 empty, and on a `2 x 1` image the blend is returned with tile 1 of the scrambled secondary black | `null` whenever some slot is not named, so that a non-null reverse is the inverse of a bijection | not executed | `Blender.ReverseAcceptsUnnamedSlot`, `Blender.BlendAcceptsUnnamedSlot` | `Blender.Reverse`, `Blender.ReverseIsInverse` |
