/** The pattern `const out = new Array(n); items.forEach(... out[i] = x ...)`
    used by the arrangement builders: a sparse array written in order, where a
    later write to a slot replaces an earlier one and unwritten slots stay
    holes until a repair loop fills them. */
module Scatter {
  import opened JsValues

  /** What one `forEach` step does: nothing, or store `value` at `index`. */
  datatype Write<T> = Skip | Put(index: int, value: T)

  /** `new Array(n)` followed by the writes in order; `None` is a hole. The
      callers only store to indexes they have checked to lie in `[0, n)`. */
  function Apply<T>(n: nat, ws: seq<Write<T>>): (r: seq<Option<T>>)
    ensures |r| == n
    ensures forall t :: 0 <= t < n && r[t].Some? ==> exists k :: WritesTo(ws, k, t) && ws[k].value == r[t].value
    decreases |ws|
  {
    if |ws| == 0 then seq(n, _ => None)
    else
      var init := ws[..|ws| - 1];
      var prev := Apply(n, init);
      assert forall k, t :: WritesTo(init, k, t) ==> WritesTo(ws, k, t) && init[k] == ws[k];
      match ws[|ws| - 1]
      case Skip => prev
      case Put(i, x) =>
        assert WritesTo(ws, |ws| - 1, i);
        if 0 <= i < n then prev[i := Some(x)] else prev
  }

  /** Step `k` stores to slot `t`. */
  predicate WritesTo<T>(ws: seq<Write<T>>, k: int, t: int) {
    0 <= k < |ws| && ws[k].Put? && ws[k].index == t
  }

  /** A slot holds the value of the last write to it. */
  lemma {:induction false} ApplyLastWrite<T>(n: nat, ws: seq<Write<T>>, t: int, k: int)
    requires 0 <= t < n
    requires WritesTo(ws, k, t)
    requires forall k' :: k < k' < |ws| ==> !WritesTo(ws, k', t)
    ensures Apply(n, ws)[t] == Some(ws[k].value)
    decreases |ws|
  {
    var init := ws[..|ws| - 1];
    if k < |ws| - 1 {
      forall k' | k < k' < |init| ensures !WritesTo(init, k', t) {
        assert !WritesTo(ws, k', t);
      }
      assert WritesTo(init, k, t);
      ApplyLastWrite(n, init, t, k);
      assert !WritesTo(ws, |ws| - 1, t);
    }
  }

  /** A slot nobody writes to stays a hole. */
  lemma {:induction false} ApplyUnwritten<T>(n: nat, ws: seq<Write<T>>, t: int)
    requires 0 <= t < n
    requires forall k :: 0 <= k < |ws| ==> !WritesTo(ws, k, t)
    ensures Apply(n, ws)[t] == None
    decreases |ws|
  {
    if |ws| > 0 {
      var init := ws[..|ws| - 1];
      forall k | 0 <= k < |init| ensures !WritesTo(init, k, t) {
        assert !WritesTo(ws, k, t);
      }
      ApplyUnwritten(n, init, t);
      assert !WritesTo(ws, |ws| - 1, t);
    }
  }

  /** The repair loop `for (i ...) if (!Array.isArray(out[i])) out[i] = fill(i)`. */
  function FillHoles<T>(a: seq<Option<T>>, fill: int -> T): (r: seq<T>)
    ensures |r| == |a|
    ensures forall i :: 0 <= i < |a| && a[i].Some? ==> r[i] == a[i].value
    ensures forall i :: 0 <= i < |a| && a[i].None? ==> r[i] == fill(i)
  {
    seq(|a|, i requires 0 <= i < |a| => if a[i].Some? then a[i].value else fill(i))
  }

  /** The index of the last write to slot `t`. */
  function LastWriter<T>(ws: seq<Write<T>>, t: int): (k: int)
    requires exists k :: WritesTo(ws, k, t)
    ensures WritesTo(ws, k, t) && forall k' :: k < k' < |ws| ==> !WritesTo(ws, k', t)
    decreases |ws|
  {
    if WritesTo(ws, |ws| - 1, t) then |ws| - 1
    else
      var init := ws[..|ws| - 1];
      var k :| WritesTo(ws, k, t);
      assert WritesTo(init, k, t);
      var last := LastWriter(init, t);
      assert forall k' :: last < k' < |init| ==> !WritesTo(ws, k', t) by {
        forall k' | last < k' < |init| ensures !WritesTo(ws, k', t) {
          assert !WritesTo(init, k', t);
        }
      }
      last
  }
}
