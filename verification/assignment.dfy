/** The assignment solver (assignment.js): the O(n^3) potentials and
    augmenting-path form of the Hungarian (Kuhn-Munkres) algorithm over a
    square cost matrix, 1-based internally with column 0 as the root. */
module Assignment {
  import opened JsValues
  import opened Perm

  /** One output record: source row `sourceIndex` goes to column `targetIndex`. */
  datatype Record = Record(sourceIndex: int, targetIndex: int)

  datatype Solution = Solution(assignment: seq<Record>, totalCost: Num)

  /** The stand-in for a non-finite cost in the working copy. */
  const MaxCost: real := 1000000000000.0

  /** A non-empty array of `n` arrays of length `n`. */
  predicate IsSquareMatrix(m: Arr<Arr<Num>>) {
    && m.Array? && |m.items| > 0
    && forall r :: 0 <= r < |m.items| ==> m.items[r].Array? && |m.items[r].items| == |m.items|
  }

  /** The working copy `a`: finite costs as they are, every other value
      (infinities, NaN) replaced by `MaxCost`. */
  function Working(m: Arr<Arr<Num>>): (a: seq<seq<real>>)
    requires IsSquareMatrix(m)
    ensures |a| == |m.items| && forall r :: 0 <= r < |a| ==> |a[r]| == |a|
    ensures forall r, c :: 0 <= r < |a| && 0 <= c < |a| ==>
              || m.items[r].items[c] == Finite(a[r][c])
              || (!m.items[r].items[c].Finite? && a[r][c] == MaxCost)
  {
    var n := |m.items|;
    seq(n, r requires 0 <= r < n => seq(n, c requires 0 <= c < n =>
      var x := m.items[r].items[c]; if x.Finite? then x.val else MaxCost))
  }

  /** A working-copy entry is the original cost when that is finite and
      `MaxCost` otherwise; the input itself is never changed. */
  lemma WorkingEntry(m: Arr<Arr<Num>>, r: int, c: int)
    requires IsSquareMatrix(m) && 0 <= r < |m.items| && 0 <= c < |m.items|
    ensures m.items[r].items[c].Finite? ==> Working(m)[r][c] == m.items[r].items[c].val
    ensures !m.items[r].items[c].Finite? ==> Working(m)[r][c] == MaxCost
  {
  }

  /** `Infinity` or a finite value, as held by `minv` and `delta`. */
  datatype Bound = Unbounded | Bounded(val: real) {
    /** JavaScript `<` between such values. */
    predicate Below(that: Bound) {
      Bounded? && (that.Unbounded? || val < that.val)
    }
  }

  /** `[1, 2, ..., k]`: the rows already matched after phase `k`. */
  function Upto(k: nat): seq<int> {
    seq(k, x => x + 1)
  }

  function Zeros(k: nat): seq<int> {
    seq(k, _ => 0)
  }

  /** What `p[1..n]` holds after phase `i`: rows `1..i` once each, and `n - i`
      free (zero) columns. */
  function Matched(i: nat, n: nat): multiset<int>
    requires i <= n
  {
    multiset(Upto(i)) + multiset(Zeros(n - i))
  }

  lemma MatchedStep(i: nat, n: nat)
    requires 1 <= i <= n
    ensures 0 in Matched(i - 1, n)
    ensures Matched(i - 1, n) + multiset{i} - multiset{0} == Matched(i, n)
  {
    assert Upto(i) == Upto(i - 1) + [i];
    assert Zeros(n - i + 1) == Zeros(n - i) + [0];
    assert Zeros(n - i + 1)[0] == 0;
  }

  /** Every entry of `p` names a row `0..n`; `p` has one entry per column `0..n`. */
  predicate InRange(p: seq<int>, n: nat) {
    |p| == n + 1 && forall j :: 0 <= j <= n ==> 0 <= p[j] <= n
  }

  /** The reduced cost of row `i0` in column `j` under the potentials. */
  function Reduced(a: seq<seq<real>>, n: nat, i0: int, j: int, u: seq<real>, v: seq<real>): Bound
    requires |a| == n && forall r :: 0 <= r < n ==> |a[r]| == n
    requires |u| == n + 1 && |v| == n + 1 && 1 <= i0 <= n && 1 <= j <= n
  {
    Bounded(a[i0 - 1][j - 1] - u[i0] - v[j])
  }

  /** The slack after relaxing `slack` with `cur`: the smaller of the two,
      the old one on a tie. */
  function Relax(slack: Bound, cur: Bound): Bound {
    if cur.Below(slack) then cur else slack
  }

  /** The column scan of one search step: for every column not yet in the
      tree, lower its slack `minv[j]` with the reduced cost from row `i0`
      (remembering `j0` as its predecessor), and pick the first column of
      least slack. */
  method Scan(a: seq<seq<real>>, n: nat, i0: int, j0: int, u: seq<real>, v: seq<real>,
              used: seq<bool>, minv: seq<Bound>, way: seq<int>)
    returns (delta: Bound, j1: int, minv': seq<Bound>, way': seq<int>)
    requires |a| == n && forall r :: 0 <= r < n ==> |a[r]| == n
    requires |u| == n + 1 && |v| == n + 1 && |used| == n + 1 && |minv| == n + 1 && |way| == n + 1
    requires 1 <= i0 <= n && 0 <= j0 <= n && used[j0] && used[0]
    ensures |minv'| == n + 1 && |way'| == n + 1
    ensures 0 <= j1 <= n
    ensures j1 != 0 ==> !used[j1] && delta.Bounded? && minv'[j1] == delta
    ensures (exists j :: 1 <= j <= n && !used[j]) ==> j1 != 0
    ensures forall j :: 0 <= j <= n && used[j] ==> minv'[j] == minv[j] && way'[j] == way[j]
    ensures forall j :: 0 <= j <= n && !used[j] ==>
              && minv'[j].Bounded?
              && (way'[j] == j0 || (way'[j] == way[j] && minv[j].Bounded?))
    ensures forall j :: 1 <= j <= n && !used[j] ==> !minv'[j].Below(delta)
    ensures forall j :: 1 <= j <= n && !used[j] ==>
              var cur := Reduced(a, n, i0, j, u, v);
              && minv'[j] == Relax(minv[j], cur)
              && way'[j] == (if cur.Below(minv[j]) then j0 else way[j])
    ensures j1 != 0 ==> forall j :: 1 <= j < j1 && !used[j] ==> delta.Below(minv'[j])
  {
    delta := Unbounded;
    j1 := 0;
    minv', way' := minv, way;
    var j := 1;
    while j <= n
      invariant 1 <= j <= n + 1 && |minv'| == n + 1 && |way'| == n + 1
      invariant 0 <= j1 < j
      invariant j1 != 0 ==> !used[j1] && delta.Bounded? && minv'[j1] == delta
      invariant (exists k :: 1 <= k < j && !used[k]) ==> j1 != 0
      invariant delta.Bounded? <==> j1 != 0
      invariant forall k :: 0 <= k <= n && (used[k] || k >= j) ==> minv'[k] == minv[k] && way'[k] == way[k]
      invariant forall k :: 1 <= k < j && !used[k] ==>
                  && minv'[k].Bounded?
                  && (way'[k] == j0 || (way'[k] == way[k] && minv[k].Bounded?))
      invariant forall k :: 1 <= k < j && !used[k] ==> !minv'[k].Below(delta)
      invariant forall k :: 1 <= k < j && !used[k] ==>
                  var cur := Reduced(a, n, i0, k, u, v);
                  && minv'[k] == Relax(minv[k], cur)
                  && way'[k] == (if cur.Below(minv[k]) then j0 else way[k])
      invariant j1 != 0 ==> forall k :: 1 <= k < j1 && !used[k] ==> delta.Below(minv'[k])
    {
      if !used[j] {
        var cur := Reduced(a, n, i0, j, u, v);
        if cur.Below(minv'[j]) {
          minv' := minv'[j := cur];
          way' := way'[j := j0];
        }
        if minv'[j].Below(delta) {
          delta := minv'[j];
          j1 := j;
        }
      }
      j := j + 1;
    }
  }

  /** The potential update: columns in the tree (and the rows matched to
      them) shift by `delta`; the slack of every other column drops by it. */
  method UpdatePotentials(n: nat, delta: Bound, used: seq<bool>, p: seq<int>,
                          u: seq<real>, v: seq<real>, minv: seq<Bound>)
    returns (u': seq<real>, v': seq<real>, minv': seq<Bound>)
    requires |used| == n + 1 && InRange(p, n)
    requires |u| == n + 1 && |v| == n + 1 && |minv| == n + 1
    requires delta.Bounded?
    ensures |u'| == n + 1 && |v'| == n + 1 && |minv'| == n + 1
    ensures forall j :: 0 <= j <= n ==> minv'[j].Bounded? == minv[j].Bounded?
  {
    u', v', minv' := u, v, minv;
    var j := 0;
    while j <= n
      invariant 0 <= j <= n + 1 && |u'| == n + 1 && |v'| == n + 1 && |minv'| == n + 1
      invariant forall k :: 0 <= k <= n ==> minv'[k].Bounded? == minv[k].Bounded?
    {
      if used[j] {
        u' := u'[p[j] := u'[p[j]] + delta.val];
        v' := v'[j := v'[j] - delta.val];
      } else if minv'[j].Bounded? {
        minv' := minv'[j := Bounded(minv'[j].val - delta.val)];
      }
      j := j + 1;
    }
  }

  /** The shape of the search tree: the root column 0 and every column added
      carry a stamp (the order they joined in, all below `cnt`), and every
      tree column other than the root points through `way` to a column that
      joined earlier. */
  predicate TreeShaped(n: nat, used: seq<bool>, way: seq<int>, stamp: seq<int>, cnt: int)
    requires |used| == n + 1 && |way| == n + 1 && |stamp| == n + 1
  {
    && (forall k :: 0 <= k <= n && used[k] ==> 0 <= stamp[k] < cnt)
    && (forall k :: 1 <= k <= n && used[k] ==> 0 <= way[k] <= n && used[way[k]] && stamp[way[k]] < stamp[k])
  }

  /** The state of a growing search tree, as the search loop keeps it: column
      `j0` is next to join; tree columns other than the root hold matched rows;
      every column outside the tree whose slack is known points into it. */
  predicate SearchState(n: nat, p: seq<int>, used: seq<bool>, minv: seq<Bound>, way: seq<int>,
                        j0: int, stamp: seq<int>, cnt: int, first: bool)
  {
    && InRange(p, n) && p[0] != 0
    && |used| == n + 1 && |minv| == n + 1 && |way| == n + 1 && |stamp| == n + 1 && cnt >= 0
    && 0 <= j0 <= n && !used[j0]
    && (first ==> j0 == 0 && forall k :: 0 <= k <= n ==> !used[k] && minv[k] == Unbounded)
    && (!first ==> used[0] && minv[j0].Bounded?)
    && (forall k :: 1 <= k <= n && used[k] ==> p[k] != 0)
    && (forall k :: 0 <= k <= n && !used[k] && minv[k].Bounded? ==>
          0 <= way[k] <= n && used[way[k]] && stamp[way[k]] < cnt)
    && TreeShaped(n, used, way, stamp, cnt)
  }

  function Unused(used: seq<bool>): set<int> {
    set k | 0 <= k < |used| && !used[k]
  }

  /** One pass of the search loop: `j0` joins the tree, the slacks and the
      potentials are updated, and the column of least slack is next. */
  method Grow(a: seq<seq<real>>, n: nat, u: seq<real>, v: seq<real>, p: seq<int>,
              used: seq<bool>, minv: seq<Bound>, way: seq<int>, j0: int,
              ghost stamp: seq<int>, ghost cnt: int, ghost first: bool, ghost z: int)
    returns (u': seq<real>, v': seq<real>, used': seq<bool>, minv': seq<Bound>, way': seq<int>, j1: int,
             ghost stamp': seq<int>, ghost cnt': int)
    requires |a| == n && forall r :: 0 <= r < n ==> |a[r]| == n
    requires |u| == n + 1 && |v| == n + 1
    requires SearchState(n, p, used, minv, way, j0, stamp, cnt, first)
    requires first || p[j0] != 0
    requires 1 <= z <= n && p[z] == 0
    ensures |u'| == n + 1 && |v'| == n + 1
    ensures SearchState(n, p, used', minv', way', j1, stamp', cnt', false)
    ensures Unused(used') < Unused(used)
  {
    used' := used[j0 := true];
    assert Unused(used') == Unused(used) - {j0};
    stamp' := stamp[j0 := cnt];
    cnt' := cnt + 1;
    assert TreeShaped(n, used', way, stamp', cnt');
    var i0 := p[j0];
    assert !used'[z];
    var delta;
    delta, j1, minv', way' := Scan(a, n, i0, j0, u, v, used', minv, way);
    assert TreeShaped(n, used', way', stamp', cnt');
    u', v', minv' := UpdatePotentials(n, delta, used', p, u, v, minv');
  }

  /** The search half of a phase: starting from root column 0 (holding row
      `p[0]`), add the column of least slack to the tree until it is a free
      one. */
  method Search(a: seq<seq<real>>, n: nat, u: seq<real>, v: seq<real>, p: seq<int>, way: seq<int>)
    returns (jf: int, u': seq<real>, v': seq<real>, way': seq<int>, ghost used: seq<bool>, ghost stamp: seq<int>, ghost cnt: int)
    requires |a| == n && forall r :: 0 <= r < n ==> |a[r]| == n
    requires |u| == n + 1 && |v| == n + 1 && |way| == n + 1
    requires InRange(p, n) && p[0] != 0
    requires exists z :: 1 <= z <= n && p[z] == 0
    ensures |u'| == n + 1 && |v'| == n + 1 && |way'| == n + 1
    ensures |used| == n + 1 && |stamp| == n + 1
    ensures 1 <= jf <= n && p[jf] == 0 && !used[jf]
    ensures 0 <= way'[jf] <= n && used[way'[jf]] && stamp[way'[jf]] < cnt
    ensures TreeShaped(n, used, way', stamp, cnt)
  {
    var minv := seq(n + 1, _ => Unbounded);
    var usedCols := seq(n + 1, _ => false);
    u', v', way' := u, v, way;
    var j0 := 0;
    ghost var z :| 1 <= z <= n && p[z] == 0;
    stamp := seq(n + 1, _ => 0);
    cnt := 0;

    u', v', usedCols, minv, way', j0, stamp, cnt := Grow(a, n, u', v', p, usedCols, minv, way', j0, stamp, cnt, true, z);
    while p[j0] != 0
      invariant |u'| == n + 1 && |v'| == n + 1
      invariant SearchState(n, p, usedCols, minv, way', j0, stamp, cnt, false)
      decreases Unused(usedCols)
    {
      u', v', usedCols, minv, way', j0, stamp, cnt := Grow(a, n, u', v', p, usedCols, minv, way', j0, stamp, cnt, false, z);
    }
    jf := j0;
    used := usedCols;
  }

  /** The augmenting half of a phase: walk the tree path from the free column
      `jf` back to the root, each column taking over the row of its
      predecessor. The free column's zero leaves `p` and the root's row enters
      it. */
  method Augment(n: nat, p: seq<int>, way: seq<int>, jf: int, ghost used: seq<bool>, ghost stamp: seq<int>, ghost cnt: int)
    returns (p': seq<int>)
    requires InRange(p, n) && |way| == n + 1 && |used| == n + 1 && |stamp| == n + 1
    requires 1 <= jf <= n && p[jf] == 0 && !used[jf]
    requires 0 <= way[jf] <= n && used[way[jf]] && stamp[way[jf]] < cnt
    requires TreeShaped(n, used, way, stamp, cnt)
    ensures InRange(p', n) && p'[0] == p[0]
    ensures multiset(p') == multiset(p) - multiset{0} + multiset{p[0]}
  {
    p' := p;
    var j0 := jf;
    while j0 != 0
      invariant 0 <= j0 <= n && InRange(p', n) && p'[0] == p[0]
      invariant multiset(p') == multiset(p) - multiset{0} + multiset{p'[j0]}
      invariant j0 != 0 ==> (0 <= way[j0] <= n && used[way[j0]]
                             && stamp[way[j0]] < (if used[j0] then stamp[j0] else cnt))
      decreases if j0 == 0 then 0 else if used[j0] then stamp[j0] else cnt
    {
      var j1 := way[j0];
      p' := p'[j0 := p'[j1]];
      j0 := j1;
    }
  }

  /** Putting row `i` at the root leaves the matched columns alone, and a
      free column still exists. */
  lemma RootFacts(p: seq<int>, i: int, n: nat)
    requires 1 <= i <= n && InRange(p, n) && multiset(p[1..]) == Matched(i - 1, n)
    ensures var rooted := p[0 := i];
            && InRange(rooted, n)
            && (exists z :: 1 <= z <= n && rooted[z] == 0)
            && multiset(rooted) == multiset{i} + Matched(i - 1, n)
  {
    var rooted := p[0 := i];
    assert rooted[1..] == p[1..];
    MatchedStep(i, n);
    var k :| 0 <= k < n && rooted[1..][k] == 0;
    assert rooted[k + 1] == 0;
    assert rooted == [rooted[0]] + rooted[1..];
  }

  /** After the augmentation row `i` is matched too. */
  lemma AugmentedFacts(rooted: seq<int>, p: seq<int>, i: int, n: nat)
    requires 1 <= i <= n && |p| == n + 1 && p[0] == i
    requires multiset(rooted) == multiset{i} + Matched(i - 1, n)
    requires multiset(p) == multiset(rooted) - multiset{0} + multiset{i}
    ensures multiset(p[1..]) == Matched(i, n)
  {
    MatchedStep(i, n);
    assert p == [p[0]] + p[1..];
    assert multiset(p[1..]) == multiset(p) - multiset{i};
  }

  /** One phase of the outer loop: row `i` enters at the root, and after the
      search and the augmentation it is matched, the rows matched before
      staying matched. */
  method RunPhase(a: seq<seq<real>>, n: nat, i: int, u: seq<real>, v: seq<real>, p: seq<int>, way: seq<int>)
    returns (u': seq<real>, v': seq<real>, p': seq<int>, way': seq<int>)
    requires |a| == n && forall r :: 0 <= r < n ==> |a[r]| == n
    requires 1 <= i <= n
    requires |u| == n + 1 && |v| == n + 1 && |way| == n + 1
    requires InRange(p, n) && multiset(p[1..]) == Matched(i - 1, n)
    ensures |u'| == n + 1 && |v'| == n + 1 && |way'| == n + 1
    ensures InRange(p', n) && multiset(p'[1..]) == Matched(i, n)
  {
    var rooted := p[0 := i];
    RootFacts(p, i, n);
    var jf;
    ghost var used, stamp, cnt;
    jf, u', v', way', used, stamp, cnt := Search(a, n, u, v, rooted, way);
    p' := Augment(n, rooted, way', jf, used, stamp, cnt);
    AugmentedFacts(rooted, p', i, n);
  }

  /** `p[1..n]` holding `1..n` once each makes `k -> p[k+1] - 1` a permutation. */
  lemma {:induction false} CountUpto(k: nat, x: int)
    ensures multiset(Upto(k))[x] == if 1 <= x <= k then 1 else 0
  {
    if k > 0 {
      assert Upto(k) == Upto(k - 1) + [k];
      CountUpto(k - 1, x);
    }
  }

  lemma RepeatedCount(q: seq<int>, a: int, b: int)
    requires 0 <= a < b < |q| && q[a] == q[b]
    ensures multiset(q)[q[a]] >= 2
  {
    assert q == q[..b] + q[b..];
    assert q[a] in q[..b];
    assert q[b] in q[b..];
  }

  lemma RowsOnce(q: seq<int>)
    requires multiset(q) == multiset(Upto(|q|))
    ensures IsPermutation(RowsOf(q))
  {
    var t := RowsOf(q);
    forall k | 0 <= k < |q| ensures 0 <= t[k] < |q| {
      assert q[k] in multiset(q);
      CountUpto(|q|, q[k]);
    }
    forall a, b | 0 <= a < |q| && 0 <= b < |q| && a != b ensures t[a] != t[b] {
      if q[a] == q[b] {
        CountUpto(|q|, q[a]);
        if a < b { RepeatedCount(q, a, b); } else { RepeatedCount(q, b, a); }
      }
    }
  }

  /** The 0-based row held by each 0-based column. */
  function RowsOf(q: seq<int>): (t: seq<int>)
    ensures |t| == |q|
  {
    seq(|q|, k requires 0 <= k < |q| => q[k] - 1)
  }

  /** The loop `if (p[j] > 0) assignment[p[j] - 1] = j - 1` over columns
      `1..n`: with every row held by exactly one column, it inverts the
      column-to-row map. */
  method RowsToColumns(q: seq<int>) returns (targets: seq<int>)
    requires multiset(q) == multiset(Upto(|q|))
    ensures IsPermutation(RowsOf(q)) && targets == Inverse(RowsOf(q))
  {
    var n := |q|;
    RowsOnce(q);
    var rows := RowsOf(q);
    targets := seq(n, _ => -1);
    for j := 1 to n + 1
      invariant |targets| == n
      invariant forall k :: 0 <= k < j - 1 ==> targets[rows[k]] == k
    {
      assert rows[j - 1] == q[j - 1] - 1 && 0 <= rows[j - 1] < n;
      assert forall k :: 0 <= k < j - 1 ==> rows[k] != rows[j - 1];
      if q[j - 1] > 0 {
        targets := targets[q[j - 1] - 1 := j - 1];
      }
    }
    var inv := Inverse(rows);
    forall x | 0 <= x < n ensures targets[x] == inv[x] {
      assert rows[inv[x]] == x;
    }
  }

  /** The target column of every record. */
  function Targets(rs: seq<Record>): (t: seq<int>)
    ensures |t| == |rs|
  {
    seq(|rs|, k requires 0 <= k < |rs| => rs[k].targetIndex)
  }

  /** The left-to-right JavaScript sum of the original costs
      `costMatrix[k][target[k]]` over the first `k` rows whose target is not
      negative. */
  function CostSum(rows: seq<Arr<Num>>, targets: seq<int>, k: nat): Num
    requires k <= |targets| && k <= |rows|
    requires forall r :: 0 <= r < k ==> rows[r].Array? && targets[r] < |rows[r].items|
  {
    if k == 0 then Finite(0.0)
    else
      var prev := CostSum(rows, targets, k - 1);
      var t := targets[k - 1];
      if t >= 0 then prev.Add(rows[k - 1].items[t]) else prev
  }

  /** The outer loop over rows `1..n`: afterwards columns `1..n` hold rows
      `1..n`, each exactly once. */
  method Phases(a: seq<seq<real>>, n: nat) returns (p: seq<int>)
    requires n > 0 && |a| == n && forall r :: 0 <= r < n ==> |a[r]| == n
    ensures |p| == n + 1 && multiset(p[1..]) == multiset(Upto(n))
  {
    var u := seq(n + 1, _ => 0.0);
    var v := seq(n + 1, _ => 0.0);
    p := seq(n + 1, _ => 0);
    var way := seq(n + 1, _ => 0);
    assert p[1..] == Zeros(n);
    for i := 1 to n + 1
      invariant |u| == n + 1 && |v| == n + 1 && |way| == n + 1
      invariant InRange(p, n) && multiset(p[1..]) == Matched(i - 1, n)
    {
      u, v, p, way := RunPhase(a, n, i, u, v, p, way);
    }
    assert Zeros(0) == [];
  }

  /** The search phases run on the working copy of a square matrix; `q[k]`
      is the (1-based) row matched to column `k + 1`. */
  method MatchRows(costMatrix: Arr<Arr<Num>>) returns (q: seq<int>)
    requires IsSquareMatrix(costMatrix)
    ensures |q| == |costMatrix.items| && multiset(q) == multiset(Upto(|costMatrix.items|))
  {
    var p := Phases(Working(costMatrix), |costMatrix.items|);
    q := p[1..];
  }

  /** `solveAssignment`. A matrix that is not a non-empty square array of
      arrays gets the fail-soft answer; otherwise record `k` assigns row `k`,
      the targets form a permutation, and the total is the sum of the
      original costs along it. */
  method SolveAssignment(costMatrix: Arr<Arr<Num>>) returns (sol: Solution)
    ensures !IsSquareMatrix(costMatrix) <==> sol == Solution([], PosInf)
    ensures IsSquareMatrix(costMatrix) ==>
              var n := |costMatrix.items|;
              && |sol.assignment| == n
              && (forall k :: 0 <= k < n ==> sol.assignment[k].sourceIndex == k)
              && IsPermutation(Targets(sol.assignment))
              && sol.totalCost == CostSum(costMatrix.items, Targets(sol.assignment), n)
  {
    if costMatrix.NotArray? || |costMatrix.items| == 0 {
      return Solution([], PosInf);
    }
    var n := |costMatrix.items|;
    for r := 0 to n
      invariant forall k :: 0 <= k < r ==> costMatrix.items[k].Array? && |costMatrix.items[k].items| == n
    {
      if costMatrix.items[r].NotArray? || |costMatrix.items[r].items| != n {
        return Solution([], PosInf);
      }
    }
    var q := MatchRows(costMatrix);
    var targets := RowsToColumns(q);
    RowsOnce(q);

    var totalCost := Finite(0.0);
    for k := 0 to n
      invariant totalCost == CostSum(costMatrix.items, targets, k)
    {
      if targets[k] >= 0 {
        totalCost := totalCost.Add(costMatrix.items[k].items[targets[k]]);
      }
    }
    var records := seq(n, k requires 0 <= k < n => Record(k, targets[k]));
    assert Targets(records) == targets;
    return Solution(records, totalCost);
  }
}
