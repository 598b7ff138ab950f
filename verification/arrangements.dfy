/** The arrangement algebra of arrangements.js. An arrangement lists, for each
    source piece, the slot it goes to and the quarter turns it is given:
    entry `i` is `[targetSlot, rotation]`. */
module Arrangements {
  import opened JsValues
  import opened Perm
  import opened Scatter

  /** An arrangement entry as the code reads it: an array of integers, or
      some value that is not an array. */
  type Entry = Arr<int>

  function Pair(target: int, rotation: int): Entry {
    Array([target, rotation])
  }

  /** Entry `i` of the result: the given slot written to it, or the default
      `[i, 0]` when nothing was. */
  function Identity(i: int): Entry {
    Pair(i, 0)
  }

  /** Every entry is a pair `[t, r]` with `r` in 0..3, and the slots form a
      permutation: each piece has its own slot and every slot is used. */
  predicate IsBijective(a: seq<Entry>) {
    && (forall i :: 0 <= i < |a| ==> a[i].Array? && |a[i].items| == 2 && 0 <= a[i].items[1] < 4)
    && IsPermutation(Slots(a))
  }

  /** The slot of every entry (0 for anything that is not a pair). */
  function Slots(a: seq<Entry>): (t: seq<int>)
    ensures |t| == |a|
  {
    seq(|a|, i requires 0 <= i < |a| => if a[i].Array? && |a[i].items| >= 1 then a[i].items[0] else 0)
  }

  /** The quarter turns that undo `r` turns: `mod(-mod(r, 4), 4)`. */
  function Undo(r: int): (u: int)
    ensures 0 <= u < 4 && (Mod(r, 4) + u) % 4 == 0
  {
    Mod(-Mod(r, 4), 4)
  }

  /** `undo(r)` is `0` for a whole number of turns and `4 - (r mod 4)`
      otherwise. */
  lemma UndoClosedForm(r: int)
    ensures Undo(r) == if r % 4 == 0 then 0 else 4 - r % 4
  {
    var m := r % 4;
    assert Mod(r, 4) == m;
    assert Mod(-m, 4) == (-m) % 4;
    if m != 0 {
      DivModUnique(-m, 4, -1, 4 - m);
    }
  }

  lemma UndoUndo(r: int)
    requires 0 <= r < 4
    ensures Undo(Undo(r)) == r
  {
    var u := Undo(r);
    UndoClosedForm(r);
    UndoClosedForm(u);
    DivModUnique(r, 4, 0, r);
    if r == 0 {
      assert u == 0;
    } else {
      assert u == 4 - r;
      DivModUnique(u, 4, 0, u);
    }
  }

  /** What `forEach` does for entry `i` of an arrangement of `n` entries:
      a usable pair `[t, r]` with `t` in range stores `[i, undo(r)]` at `t`. */
  function InvertWrite(n: int, i: int, e: Entry): Write<Entry> {
    if e.NotArray? || |e.items| < 2 then Skip
    else
      var t, r := e.items[0], e.items[1];
      if t < 0 || t >= n then Skip else Put(t, Pair(i, Undo(r)))
  }

  function InvertWrites(a: seq<Entry>): (ws: seq<Write<Entry>>)
    ensures |ws| == |a|
  {
    seq(|a|, i requires 0 <= i < |a| => InvertWrite(|a|, i, a[i]))
  }

  /** `invertArrangement`: `[]` for a non-array; otherwise slot `t` receives
      the last piece that named it (with the undoing rotation) and slots no
      piece named map to themselves. */
  function Invert(arrangement: Arr<Entry>): (inverted: seq<Entry>)
    ensures arrangement.NotArray? ==> inverted == []
    ensures arrangement.Array? ==> |inverted| == |arrangement.items|
  {
    if arrangement.NotArray? then []
    else
      var a := arrangement.items;
      FillHoles(Apply(|a|, InvertWrites(a)), Identity)
  }

  /** Slot `t` holds `[i, undo(r)]` for the last entry `i = [t, r]` that names
      it, and `[t, 0]` when no entry names it. */
  lemma InvertSlot(a: seq<Entry>, t: int)
    requires 0 <= t < |a|
    ensures (exists i :: WritesTo(InvertWrites(a), i, t)) ==>
              exists i :: && WritesTo(InvertWrites(a), i, t)
                          && (forall i' :: i < i' < |a| ==> !WritesTo(InvertWrites(a), i', t))
                          && Invert(Array(a))[t] == Pair(i, Undo(a[i].items[1]))
    ensures (forall i :: !WritesTo(InvertWrites(a), i, t)) ==> Invert(Array(a))[t] == Pair(t, 0)
  {
    var ws := InvertWrites(a);
    if exists i :: WritesTo(ws, i, t) {
      var i := LastWriter(ws, t);
      ApplyLastWrite(|a|, ws, t, i);
    } else {
      ApplyUnwritten(|a|, ws, t);
    }
  }

  /** In a bijective arrangement slot `t` is named by exactly one piece, the
      inverse permutation's `t`-th, so it receives that piece. */
  lemma InvertBijectiveSlot(a: seq<Entry>, t: int)
    requires IsBijective(a) && 0 <= t < |a|
    ensures var i := Inverse(Slots(a))[t];
            Invert(Array(a))[t] == Pair(i, Undo(a[i].items[1]))
  {
    var ws := InvertWrites(a);
    var i := Inverse(Slots(a))[t];
    assert Slots(a)[i] == t;
    assert WritesTo(ws, i, t);
    forall i' | i < i' < |a| ensures !WritesTo(ws, i', t) {
      assert Slots(a)[i'] != Slots(a)[i];
    }
    ApplyLastWrite(|a|, ws, t, i);
  }

  /** Inverting a bijective arrangement gives a bijective arrangement that
      sends each slot back to its piece with the undoing rotation. */
  lemma InvertBijective(a: seq<Entry>)
    requires IsBijective(a)
    ensures var inv := Invert(Array(a));
            && IsBijective(inv)
            && Slots(inv) == Inverse(Slots(a))
            && forall i :: 0 <= i < |a| ==> inv[Slots(a)[i]] == Pair(i, Undo(a[i].items[1]))
  {
    var inv := Invert(Array(a));
    var back := Inverse(Slots(a));
    forall t | 0 <= t < |a|
      ensures inv[t] == Pair(back[t], Undo(a[back[t]].items[1]))
    {
      InvertBijectiveSlot(a, t);
    }
    assert Slots(inv) == back;
  }

  /** Inverting twice gives every entry of a bijective arrangement back. */
  lemma InvertTwiceAt(a: seq<Entry>, i: int)
    requires IsBijective(a) && 0 <= i < |a|
    ensures var twice := Invert(Array(Invert(Array(a))));
            |twice| == |a| && twice[i] == a[i]
  {
    var inv := Invert(Array(a));
    InvertBijective(a);
    var t, r := a[i].items[0], a[i].items[1];
    assert a[i].items == [t, r];
    assert Slots(a)[i] == t;
    assert inv[t] == Pair(i, Undo(r));
    InvertBijective(inv);
    var twice := Invert(Array(inv));
    assert Slots(inv)[t] == i;
    assert twice[i] == Pair(t, Undo(Undo(r)));
    UndoUndo(r);
  }

  /** Inverting a bijective arrangement twice gives it back. */
  lemma InvertInvolution(a: seq<Entry>)
    requires IsBijective(a)
    ensures Invert(Array(Invert(Array(a)))) == a
  {
    var twice := Invert(Array(Invert(Array(a))));
    forall i | 0 <= i < |a| ensures twice[i] == a[i] {
      InvertTwiceAt(a, i);
    }
  }

  /** One record of a solver's answer; `None` stands for a value that is not
      an integer. */
  datatype SolverRecord = SolverRecord(sourceIndex: Option<int>, targetIndex: Option<int>)

  /** A solver: given the distance matrix, a (possibly falsy) solution whose
      `assignment` may or may not be an array. */
  type Solver = Arr<Arr<Num>> -> Option<Arr<SolverRecord>>

  /** `rotationMatrix[s][t]` read as `buildArrangement` does: 0 unless it is
      an integer (a missing row reads as `[]`). */
  function RotationAt(rotation: seq<Arr<Option<int>>>, s: int, t: int): int
    requires 0 <= s < |rotation|
  {
    var row := rotation[s];
    if row.Array? && 0 <= t < |row.items| && row.items[t].Some? then row.items[t].value else 0
  }

  /** The `forEach` step for one solver record. */
  function BuildWrite(n: int, rotation: seq<Arr<Option<int>>>, rec: SolverRecord): Write<Entry>
    requires |rotation| == n
  {
    if rec.sourceIndex.None? || rec.sourceIndex.value < 0 || rec.sourceIndex.value >= n then Skip
    else
      var s := rec.sourceIndex.value;
      var t := if rec.targetIndex.Some? && 0 <= rec.targetIndex.value < n then rec.targetIndex.value else s;
      Put(s, Pair(t, Mod(RotationAt(rotation, s, t), 4)))
  }

  function BuildWrites(n: int, rotation: seq<Arr<Option<int>>>, recs: seq<SolverRecord>): (ws: seq<Write<Entry>>)
    requires |rotation| == n
    ensures |ws| == |recs|
  {
    seq(|recs|, k requires 0 <= k < |recs| => BuildWrite(n, rotation, recs[k]))
  }

  /** The shapes `buildArrangement` accepts before calling the solver. */
  predicate ShapesOk(distance: Arr<Arr<Num>>, rotation: Arr<Arr<Option<int>>>, totalPieces: int, solver: Option<Solver>) {
    && distance.Array? && |distance.items| == totalPieces
    && rotation.Array? && |rotation.items| == totalPieces
    && solver.Some?
  }

  /** The solver's answer is usable: truthy, an array, one record per piece. */
  predicate SolutionOk(solution: Option<Arr<SolverRecord>>, totalPieces: int) {
    solution.Some? && solution.value.Array? && |solution.value.items| == totalPieces
  }

  /** `buildArrangement`: `[]` unless the shapes and the solver's answer are
      right; otherwise one entry per piece, each a pair with a slot in range
      and a rotation in 0..3. */
  function BuildArrangement(distance: Arr<Arr<Num>>, rotation: Arr<Arr<Option<int>>>, totalPieces: int,
                            solver: Option<Solver>): (arrangement: seq<Entry>)
    ensures !ShapesOk(distance, rotation, totalPieces, solver) ==> arrangement == []
    ensures ShapesOk(distance, rotation, totalPieces, solver) && !SolutionOk(solver.value(distance), totalPieces) ==>
              arrangement == []
    ensures ShapesOk(distance, rotation, totalPieces, solver) && SolutionOk(solver.value(distance), totalPieces) ==>
              && |arrangement| == totalPieces
              && forall i :: 0 <= i < totalPieces ==>
                   && arrangement[i].Array? && |arrangement[i].items| == 2
                   && 0 <= arrangement[i].items[0] < totalPieces && 0 <= arrangement[i].items[1] < 4
  {
    if !ShapesOk(distance, rotation, totalPieces, solver) then []
    else
      var solution := solver.value(distance);
      if !SolutionOk(solution, totalPieces) then []
      else
        var n := totalPieces;
        var ws := BuildWrites(n, rotation.items, solution.value.items);
        var placed := Apply(n, ws);
        assert forall i :: 0 <= i < n && placed[i].Some? ==>
                 placed[i].value.Array? && |placed[i].value.items| == 2
                 && 0 <= placed[i].value.items[0] < n && 0 <= placed[i].value.items[1] < 4 by {
          forall i | 0 <= i < n && placed[i].Some?
            ensures placed[i].value.Array? && |placed[i].value.items| == 2
                    && 0 <= placed[i].value.items[0] < n && 0 <= placed[i].value.items[1] < 4
          {
            ApplyProvenance(n, ws, i);
          }
        }
        FillHoles(placed, Identity)
  }

  /** A filled slot holds a value that some write stored there. */
  lemma {:induction false} ApplyProvenance<T>(n: nat, ws: seq<Write<T>>, t: int)
    requires 0 <= t < n && Apply(n, ws)[t].Some?
    ensures exists k :: WritesTo(ws, k, t) && ws[k].value == Apply(n, ws)[t].value
    decreases |ws|
  {
    var init := ws[..|ws| - 1];
    var last := ws[|ws| - 1];
    if last.Put? && last.index == t {
      assert WritesTo(ws, |ws| - 1, t);
    } else {
      ApplyProvenance(n, init, t);
      var k :| WritesTo(init, k, t) && init[k].value == Apply(n, init)[t].value;
      assert WritesTo(ws, k, t);
    }
  }

  /** Entry `s` of a built arrangement comes from the last solver record for
      piece `s` (its target, or `s` itself when the target is unusable, and
      the rotation matrix's entry reduced mod 4); a piece no record names
      stays in place, unrotated. */
  lemma BuildSlot(distance: Arr<Arr<Num>>, rotation: Arr<Arr<Option<int>>>, totalPieces: int,
                  solver: Option<Solver>, s: int)
    requires ShapesOk(distance, rotation, totalPieces, solver)
    requires SolutionOk(solver.value(distance), totalPieces)
    requires 0 <= s < totalPieces
    ensures var recs := solver.value(distance).value.items;
            var ws := BuildWrites(totalPieces, rotation.items, recs);
            var arrangement := BuildArrangement(distance, rotation, totalPieces, solver);
            && ((exists k :: WritesTo(ws, k, s)) ==>
                  exists k :: && 0 <= k < |recs| && recs[k].sourceIndex == Some(s)
                              && (forall k' :: k < k' < |recs| ==> recs[k'].sourceIndex != Some(s))
                              && var t := if recs[k].targetIndex.Some? && 0 <= recs[k].targetIndex.value < totalPieces
                                          then recs[k].targetIndex.value else s;
                                 arrangement[s] == Pair(t, Mod(RotationAt(rotation.items, s, t), 4)))
            && ((forall k :: 0 <= k < |recs| ==> recs[k].sourceIndex != Some(s)) ==> arrangement[s] == Pair(s, 0))
  {
    var recs := solver.value(distance).value.items;
    var ws := BuildWrites(totalPieces, rotation.items, recs);
    if exists k :: WritesTo(ws, k, s) {
      var k := LastWriter(ws, s);
      ApplyLastWrite(totalPieces, ws, s, k);
      forall k' | k < k' < |recs| ensures recs[k'].sourceIndex != Some(s) {
        assert !WritesTo(ws, k', s);
      }
    }
    if forall k :: 0 <= k < |recs| ==> recs[k].sourceIndex != Some(s) {
      forall k | 0 <= k < |ws| ensures !WritesTo(ws, k, s) {
        assert recs[k].sourceIndex != Some(s);
      }
      ApplyUnwritten(totalPieces, ws, s);
    }
  }

  /** A solver answer that gives record `k` to piece `k` and whose targets
      form a permutation (what the assignment solver returns) yields a
      bijective arrangement that sends piece `k` to target `k`, turned by the
      rotation matrix's entry for that pair. */
  lemma BuildFromPermutation(distance: Arr<Arr<Num>>, rotation: Arr<Arr<Option<int>>>, totalPieces: int,
                             solver: Option<Solver>, targets: seq<int>)
    requires ShapesOk(distance, rotation, totalPieces, solver)
    requires IsPermutation(targets) && |targets| == totalPieces
    requires solver.value(distance) == Some(Array(seq(totalPieces, k requires 0 <= k < totalPieces =>
                                          SolverRecord(Some(k), Some(targets[k])))))
    ensures var arrangement := BuildArrangement(distance, rotation, totalPieces, solver);
            && IsBijective(arrangement)
            && forall k :: 0 <= k < totalPieces ==>
                 arrangement[k] == Pair(targets[k], Mod(RotationAt(rotation.items, k, targets[k]), 4))
  {
    var n := totalPieces;
    var recs := solver.value(distance).value.items;
    var ws := BuildWrites(n, rotation.items, recs);
    var arrangement := BuildArrangement(distance, rotation, totalPieces, solver);
    forall k | 0 <= k < n
      ensures arrangement[k] == Pair(targets[k], Mod(RotationAt(rotation.items, k, targets[k]), 4))
    {
      assert WritesTo(ws, k, k);
      forall k' | k < k' < n ensures !WritesTo(ws, k', k) {
        assert ws[k'].index == k';
      }
      ApplyLastWrite(n, ws, k, k);
    }
    assert Slots(arrangement) == targets;
  }
}
