/** The blend of blender.js: the secondary image is cut into tiles, scrambled
    by the reverse of an arrangement, and averaged channel by channel with the
    primary image, so that rearranging the blend by the arrangement brings the
    secondary image back into view. */
module Blender {
  import opened JsValues
  import opened Pixels
  import opened Perm
  import opened Scatter
  import opened Arrangements
  import opened Tiles
  import opened TileMath

  /** `averageChannel`: `(a + b) >> 1`, the mean of two bytes rounded down. */
  function AverageChannel(a: Byte, b: Byte): (m: Byte)
    ensures 2 * m <= a + b <= 2 * m + 1
    ensures a <= b ==> a <= m <= b
    ensures b <= a ==> b <= m <= a
  {
    (a + b) / 2
  }

  /** The rotation an entry asks for: `entry.length > 1 ? entry[1] : 0`. */
  function EntryRotation(e: Entry): int
    requires e.Array?
  {
    if |e.items| > 1 then e.items[1] else 0
  }

  /** `(4 - (rotation & 3)) & 3`: the quarter turns that undo `rotation`. */
  function ReverseRotation(rotation: int): (u: int)
    ensures 0 <= u < 4 && (rotation + u) % 4 == 0
    ensures u == Undo(rotation)
  {
    ReverseRotationIsUndo(rotation);
    And3(4 - And3(rotation))
  }

  lemma ReverseRotationIsUndo(rotation: int)
    ensures var u := And3(4 - And3(rotation));
            u == Undo(rotation) && (rotation + u) % 4 == 0
  {
    UndoClosedForm(rotation);
    var m, q := rotation % 4, rotation / 4;
    var u := And3(4 - m);
    assert And3(rotation) == m && u == (4 - m) % 4;
    if m == 0 {
      DivModUnique(4, 4, 1, 0);
      DivModUnique(rotation, 4, q, 0);
    } else {
      DivModUnique(4 - m, 4, 0, 4 - m);
      DivModUnique(rotation + (4 - m), 4, q + 1, 0);
    }
  }

  /** An entry `reverseArrangement` accepts: a non-empty array whose first
      element is a slot of `[0, n)`. */
  predicate Usable(e: Entry, n: int) {
    e.Array? && |e.items| >= 1 && 0 <= e.items[0] < n
  }

  predicate AllUsable(a: seq<Entry>) {
    forall i :: 0 <= i < |a| ==> Usable(a[i], |a|)
  }

  /** Entry `i` stores `[i, inverseRotation]` at its slot. */
  function ReverseWrites(a: seq<Entry>): (ws: seq<Write<Entry>>)
    requires AllUsable(a)
    ensures |ws| == |a|
  {
    seq(|a|, i requires 0 <= i < |a| => Put(a[i].items[0], Pair(i, ReverseRotation(EntryRotation(a[i])))))
  }

  /** `reverseArrangement` as written: `null` for a non-array or an unusable
      entry; otherwise the sparse array of writes. Its final guard
      `reversed.some((entry) => !entry)` only visits the slots that were
      written, each holding a two-element array, so it never rejects
      anything: slots that no entry names stay holes (`None`). */
  function ReverseAsWritten(arrangement: Arr<Entry>): (r: Option<seq<Option<Entry>>>)
    ensures r.None? <==> arrangement.NotArray? || !AllUsable(arrangement.items)
    ensures r.Some? ==> |r.value| == |arrangement.items|
  {
    if arrangement.NotArray? || !AllUsable(arrangement.items) then None
    else Some(Apply(|arrangement.items|, ReverseWrites(arrangement.items)))
  }

  /** The slots some entry names. */
  predicate Named(a: seq<Entry>, t: int)
    requires AllUsable(a)
  {
    exists i :: 0 <= i < |a| && a[i].items[0] == t
  }

  /** As written, a non-null result holds a hole at exactly the slots that no
      entry names, so the guard meant to reject unnamed slots lets them
      through. */
  lemma ReverseAsWrittenHoles(a: seq<Entry>, t: int)
    requires AllUsable(a) && 0 <= t < |a|
    ensures ReverseAsWritten(Array(a)).Some?
    ensures ReverseAsWritten(Array(a)).value[t].None? <==> !Named(a, t)
  {
    var ws := ReverseWrites(a);
    if Named(a, t) {
      var i :| 0 <= i < |a| && a[i].items[0] == t;
      assert WritesTo(ws, i, t);
      var k := LastWriter(ws, t);
      ApplyLastWrite(|a|, ws, t, k);
    } else {
      forall k | 0 <= k < |ws| ensures !WritesTo(ws, k, t) {
        assert a[k].items[0] != t;
      }
      ApplyUnwritten(|a|, ws, t);
    }
  }

  /** The concrete case: both pieces of a two-piece arrangement name slot 0;
      the reverse is returned, not `null`, with slot 1 left empty, and the
      blend then shows nothing of the secondary image in that tile. */
  lemma ReverseAcceptsUnnamedSlot()
    ensures var r := ReverseAsWritten(Array([Pair(0, 0), Pair(0, 0)]));
            r.Some? && r.value[1].None?
  {
    var a := [Pair(0, 0), Pair(0, 0)];
    assert AllUsable(a);
    assert !Named(a, 1);
    ReverseAsWrittenHoles(a, 1);
  }

  /** Usable entries name every slot exactly when their slots form a
      permutation. */
  lemma NamedIffPermutation(a: seq<Entry>)
    requires AllUsable(a)
    ensures (forall t :: 0 <= t < |a| ==> Named(a, t)) <==> IsPermutation(Slots(a))
  {
    if forall t :: 0 <= t < |a| ==> Named(a, t) {
      forall x | 0 <= x < |a| ensures x in Perm.Image(Slots(a)) {
        assert Named(a, x);
        var i :| 0 <= i < |a| && a[i].items[0] == x;
        assert Slots(a)[i] == x;
      }
      OntoIsPermutation(Slots(a));
    }
    if IsPermutation(Slots(a)) {
      forall t | 0 <= t < |a| ensures Named(a, t) {
        PermutationIsOnto(Slots(a), t);
      }
    }
  }

  /** When the slots form a permutation, the slot that entry `i` names holds
      `[i, inverseRotation]`: no later entry overwrites it. */
  lemma ReverseAsWrittenSlot(a: seq<Entry>, i: int)
    requires AllUsable(a) && IsPermutation(Slots(a)) && 0 <= i < |a|
    ensures ReverseAsWritten(Array(a)).Some?
    ensures ReverseAsWritten(Array(a)).value[Slots(a)[i]] == Some(Pair(i, ReverseRotation(EntryRotation(a[i]))))
  {
    var ws := ReverseWrites(a);
    var t := Slots(a)[i];
    assert WritesTo(ws, i, t);
    forall i' | i < i' < |a| ensures !WritesTo(ws, i', t) {
      assert Slots(a)[i'] != Slots(a)[i];
    }
    ApplyLastWrite(|a|, ws, t, i);
  }

  /** The check the guard was meant to make: `null` unless every slot holds
      an entry; otherwise the filled array. It accepts exactly the
      arrangements whose usable entries name every slot once, and sends the
      slot of entry `i` back to `i` with the undoing rotation. */
  function Reverse(arrangement: Arr<Entry>): (r: Option<seq<Entry>>)
    ensures r.Some? <==> arrangement.Array? && AllUsable(arrangement.items) && IsPermutation(Slots(arrangement.items))
    ensures r.Some? ==> var a := arrangement.items;
              && |r.value| == |a|
              && forall i :: 0 <= i < |a| ==> r.value[Slots(a)[i]] == Pair(i, ReverseRotation(EntryRotation(a[i])))
  {
    match ReverseAsWritten(arrangement)
    case None => None
    case Some(out) =>
      var a := arrangement.items;
      assert forall t :: 0 <= t < |a| ==> (out[t].None? <==> !Named(a, t)) by {
        forall t | 0 <= t < |a| ensures out[t].None? <==> !Named(a, t) {
          ReverseAsWrittenHoles(a, t);
        }
      }
      NamedIffPermutation(a);
      if exists t :: 0 <= t < |out| && out[t].None? then None
      else
        assert forall i :: 0 <= i < |a| ==> out[Slots(a)[i]] == Some(Pair(i, ReverseRotation(EntryRotation(a[i])))) by {
          forall i | 0 <= i < |a| ensures out[Slots(a)[i]] == Some(Pair(i, ReverseRotation(EntryRotation(a[i])))) {
            ReverseAsWrittenSlot(a, i);
          }
        }
        Some(seq(|out|, t requires 0 <= t < |out| => out[t].value))
  }

  /** The corrected reverse accepts an arrangement exactly when its entries
      are usable and their slots form a permutation; then it is bijective and
      its slots are the inverse permutation. */
  lemma ReverseIsInverse(a: seq<Entry>)
    ensures Reverse(Array(a)).Some? <==> AllUsable(a) && IsPermutation(Slots(a))
    ensures Reverse(Array(a)).Some? ==>
              var r := Reverse(Array(a)).value;
              && IsBijective(r)
              && Slots(r) == Inverse(Slots(a))
  {
    if AllUsable(a) && IsPermutation(Slots(a)) {
      ReverseFilled(a);
    }
  }

  /** When every slot is named by a permutation, the filled reverse is the
      inverse arrangement. */
  lemma ReverseFilled(a: seq<Entry>)
    requires AllUsable(a) && IsPermutation(Slots(a))
    ensures Reverse(Array(a)).Some?
    ensures var r := Reverse(Array(a)).value;
            && IsBijective(r)
            && Slots(r) == Inverse(Slots(a))
            && forall t :: 0 <= t < |a| ==> r[t] == Pair(Inverse(Slots(a))[t], ReverseRotation(EntryRotation(a[Inverse(Slots(a))[t]])))
  {
    var r := Reverse(Array(a)).value;
    var back := Inverse(Slots(a));
    forall t | 0 <= t < |a| ensures r[t] == Pair(back[t], ReverseRotation(EntryRotation(a[back[t]]))) {
      assert Slots(a)[back[t]] == t;
    }
    assert Slots(r) == back;
  }

  /** On a bijective arrangement the reverse of blender.js and the inverse of
      arrangements.js agree. */
  lemma ReverseMatchesInvert(a: seq<Entry>)
    requires IsBijective(a)
    ensures Reverse(Array(a)) == Some(Invert(Array(a)))
  {
    assert AllUsable(a) by {
      forall i | 0 <= i < |a| ensures Usable(a[i], |a|) {
        assert Slots(a)[i] == a[i].items[0];
      }
    }
    ReverseFilled(a);
    InvertBijective(a);
    var r, inv := Reverse(Array(a)).value, Invert(Array(a));
    forall t | 0 <= t < |a| ensures r[t] == inv[t] {
      var i := Inverse(Slots(a))[t];
      assert Slots(a)[i] == t;
      assert r[t] == Pair(i, ReverseRotation(EntryRotation(a[i])));
      assert inv[t] == Pair(i, Undo(a[i].items[1]));
    }
    assert r == inv;
  }

  /** The reverse as `applyArrangementToImage` reads it: a hole of the sparse
      array is not an array, so the tile it stands for is left empty. */
  function ScrambleOrder(sparse: seq<Option<Entry>>): (order: seq<Entry>)
    ensures |order| == |sparse|
    ensures forall t :: 0 <= t < |sparse| && sparse[t].None? ==> order[t].NotArray?
    ensures forall t :: 0 <= t < |sparse| && sparse[t].Some? ==> order[t] == sparse[t].value
  {
    FillHoles(sparse, _ => NotArray)
  }

  /** On a bijective arrangement the as-written reverse has no holes, so the
      tiles are scrambled by the inverse arrangement. */
  lemma ScrambleOrderBijective(a: seq<Entry>)
    requires IsBijective(a)
    ensures ReverseAsWritten(Array(a)).Some?
    ensures ScrambleOrder(ReverseAsWritten(Array(a)).value) == Invert(Array(a))
  {
    ReverseMatchesInvert(a);
    var out := ReverseAsWritten(Array(a)).value;
    var r := Reverse(Array(a)).value;
    assert forall t :: 0 <= t < |out| ==> out[t].Some? && out[t].value == r[t];
  }

  /** `blendWithArrangement`: `null` without both images, for images of
      different sizes, for an arrangement that is not an array of
      `rows * cols` entries, or when `reverseArrangement` returns `null`;
      otherwise an opaque image of the primary's size. As written the
      reverse may hold holes, and their tiles of the scrambled secondary are
      left black. */
  function BlendWithArrangement(primary: Option<Image>, secondary: Option<Image>, rows: int, cols: int,
                                arrangement: Arr<Entry>): (out: Option<Image>)
    requires primary.Some? ==> WellFormed(primary.value)
    requires secondary.Some? ==> WellFormed(secondary.value)
    ensures out.None? <==> || primary.None? || secondary.None?
                           || primary.value.width != secondary.value.width
                           || primary.value.height != secondary.value.height
                           || arrangement.NotArray? || |arrangement.items| != rows * cols
                           || !AllUsable(arrangement.items)
    ensures out.Some? ==> && out.value.width == primary.value.width && out.value.height == primary.value.height
                          && WellFormed(out.value)
                          && forall o :: 0 <= o < |out.value.data| && o % 4 == 3 ==> out.value.data[o] == 255
  {
    if primary.None? || secondary.None? then None
    else if primary.value.width != secondary.value.width || primary.value.height != secondary.value.height then None
    else if arrangement.NotArray? || |arrangement.items| != rows * cols then None
    else match ReverseAsWritten(arrangement)
      case None => None
      case Some(sparse) =>
        Some(Mix(primary.value, ApplyArrangementToImage(secondary, rows, cols, Array(ScrambleOrder(sparse))).value))
  }

  /** The output loop of `blendWithArrangement` over two images of one size:
      every colour byte the mean of the two, every alpha 255. */
  function Mix(p: Image, scrambled: Image): (out: Image)
    requires WellFormed(p) && |scrambled.data| == |p.data|
    ensures out.width == p.width && out.height == p.height && WellFormed(out)
    ensures forall o :: 0 <= o < |out.data| ==>
              out.data[o] == if o % 4 == 3 then 255 else AverageChannel(p.data[o], scrambled.data[o])
  {
    Image(p.width, p.height, seq(|p.data|, o requires 0 <= o < |p.data| =>
      if o % 4 == 3 then 255 else AverageChannel(p.data[o], scrambled.data[o])))
  }

  /** As written, the two-piece arrangement `[[0, 0], [0, 0]]` is blended:
      the result is not `null`, though no piece is reversed into slot 1, and
      every colour channel of that tile is the primary's halved, blended with
      black. */
  lemma BlendAcceptsUnnamedSlot(img: Image, c: int)
    requires WellFormed(img) && img.width == 2 && img.height == 1 && 0 <= c < 3
    ensures var blend := BlendWithArrangement(Some(img), Some(img), 1, 2, Array([Pair(0, 0), Pair(0, 0)]));
            && blend.Some?
            && blend.value.data[Offset(2, 1, 0, c)] == img.data[Offset(2, 1, 0, c)] / 2
  {
    ReverseAcceptsUnnamedSlot();
    BlendBlackTile(img, Array([Pair(0, 0), Pair(0, 0)]), c);
  }

  /** A two-piece arrangement whose reverse leaves slot 1 empty blends the
      second tile with black. */
  lemma BlendBlackTile(img: Image, arrangement: Arr<Entry>, c: int)
    requires WellFormed(img) && img.width == 2 && img.height == 1 && 0 <= c < 3
    requires arrangement.Array? && |arrangement.items| == 2
    requires ReverseAsWritten(arrangement).Some? && ReverseAsWritten(arrangement).value[1].None?
    ensures var blend := BlendWithArrangement(Some(img), Some(img), 1, 2, arrangement);
            && blend.Some?
            && blend.value.data[Offset(2, 1, 0, c)] == img.data[Offset(2, 1, 0, c)] / 2
  {
    var order := ScrambleOrder(ReverseAsWritten(arrangement).value);
    var o := Offset(2, 1, 0, c);
    assert o == 4 + c && o % 4 == c;
    assert AllUsable(arrangement.items);
    UnnamedTileBlack(img, order, c);
    BlendByte(img, img, 1, 2, arrangement, o);
    assert AverageChannel(img.data[o], 0) == img.data[o] / 2;
  }

  /** Every colour byte of a blend is the mean of the primary's byte and the
      secondary's byte scrambled by the as-written reverse. */
  lemma BlendByte(primary: Image, secondary: Image, rows: int, cols: int, arrangement: Arr<Entry>, o: int)
    requires WellFormed(primary) && WellFormed(secondary)
    requires secondary.width == primary.width && secondary.height == primary.height
    requires arrangement.Array? && |arrangement.items| == rows * cols && AllUsable(arrangement.items)
    requires 0 <= o < |primary.data| && o % 4 != 3
    ensures var blend := BlendWithArrangement(Some(primary), Some(secondary), rows, cols, arrangement);
            var order := ScrambleOrder(ReverseAsWritten(arrangement).value);
            && blend.Some?
            && blend.value.data[o] == AverageChannel(primary.data[o], Resample(secondary, rows, cols, order, false).data[o])
  {
    var order := ScrambleOrder(ReverseAsWritten(arrangement).value);
    assert BlendWithArrangement(Some(primary), Some(secondary), rows, cols, arrangement)
        == Some(Mix(primary, Resample(secondary, rows, cols, order, false)));
  }

  /** A tile whose scramble entry is not an array stays black. */
  lemma UnnamedTileBlack(img: Image, order: seq<Entry>, c: int)
    requires WellFormed(img) && img.width == 2 && img.height == 1 && 0 <= c < 3
    requires |order| == 2 && order[1].NotArray?
    ensures Resample(img, 1, 2, order, false).data[Offset(2, 1, 0, c)] == 0
  {
    SecondTileBlank(img, order, c);
    ResampleAt(img, 1, 2, order, false, 1, 0, c);
  }

  /** Pixel `(1, 0)` of a `2 x 1` image split into two columns lies in tile 1. */
  lemma SecondTileBlank(img: Image, order: seq<Entry>, c: int)
    requires img.width == 2 && img.height == 1 && 0 <= c < 3
    requires |order| == 2 && order[1].NotArray?
    ensures ResampledByte(img, 1, 2, order, false, 1, 0, c) == 0
  {
    SmallStops();
    var pl := PlaceOf(2, 1, 1, 2, 1, 0);
    assert pl.pieceCol == 1 && pl.pieceRow == 0;
    assert PickAt(order, pl, false) == Blank;
  }

  /** Two columns of a 2-pixel width are one pixel each; one row of a 1-pixel
      height is that pixel. */
  lemma SmallStops()
    ensures ComputeStops(2, 2) == [0, 1, 2] && ComputeStops(1, 1) == [0, 1]
  {
    assert Base(2, 2) == 1 && Remainder(2, 2) == 0;
    assert Base(1, 1) == 1 && Remainder(1, 1) == 0;
    StopsClosedForm(2, 2, 1);
    StopsClosedForm(2, 2, 2);
    StopsClosedForm(1, 1, 1);
  }
}
