/** Permutations of `0..n-1`, written as sequences of indices. The engine's
    arrangements, assignment results and brightness rankings are all of this
    shape. */
module Perm {

  /** `t` maps `[0, |t|)` into itself one-to-one. */
  predicate IsPermutation(t: seq<int>) {
    && (forall k :: 0 <= k < |t| ==> 0 <= t[k] < |t|)
    && (forall a, b :: 0 <= a < |t| && 0 <= b < |t| && a != b ==> t[a] != t[b])
  }

  /** The identity permutation `[0, 1, ..., n-1]`. */
  function Iota(n: nat): (t: seq<int>)
    ensures |t| == n && IsPermutation(t)
    ensures forall k :: 0 <= k < n ==> t[k] == k
  {
    seq(n, k => k)
  }

  function Image(t: seq<int>): set<int> {
    set k | 0 <= k < |t| :: t[k]
  }

  lemma {:induction false} ImageCard(t: seq<int>)
    requires forall a, b :: 0 <= a < |t| && 0 <= b < |t| && a != b ==> t[a] != t[b]
    ensures |Image(t)| == |t|
  {
    if |t| > 0 {
      var u := t[..|t| - 1];
      ImageCard(u);
      assert Image(t) == Image(u) + {t[|t| - 1]};
      assert t[|t| - 1] !in Image(u);
    }
  }

  lemma SubsetSameCard(a: set<int>, b: set<int>)
    requires a <= b && |a| == |b|
    ensures a == b
  {
    assert b == a + (b - a);
    assert a * (b - a) == {};
    assert |b - a| == 0;
    forall x | x in b ensures x in a {
      assert x !in b - a;
    }
  }

  /** Pigeonhole: a one-to-one map of `[0, n)` into itself is onto. */
  lemma PermutationIsOnto(t: seq<int>, x: int)
    requires IsPermutation(t)
    requires 0 <= x < |t|
    ensures exists k :: 0 <= k < |t| && t[k] == x
  {
    var all := Iota(|t|);
    ImageCard(t);
    ImageCard(all);
    assert Image(t) <= Image(all) by {
      forall y | y in Image(t) ensures y in Image(all) {
        assert all[y] == y;
      }
    }
    SubsetSameCard(Image(t), Image(all));
    assert all[x] == x;
    assert x in Image(all);
  }

  lemma {:induction false} ImageCardAtMost(t: seq<int>)
    ensures |Image(t)| <= |t|
  {
    if |t| > 0 {
      var u := t[..|t| - 1];
      ImageCardAtMost(u);
      assert Image(t) == Image(u) + {t[|t| - 1]};
    }
  }

  lemma SubsetCard(a: set<int>, b: set<int>)
    requires a <= b
    ensures |a| <= |b|
  {
    assert b == a + (b - a);
  }

  /** Pigeonhole the other way: a map of `[0, n)` into itself that reaches
      every value is one-to-one. */
  lemma OntoIsPermutation(t: seq<int>)
    requires forall k :: 0 <= k < |t| ==> 0 <= t[k] < |t|
    requires forall x :: 0 <= x < |t| ==> x in Image(t)
    ensures IsPermutation(t)
  {
    forall a, b | 0 <= a < |t| && 0 <= b < |t| && a != b ensures t[a] != t[b] {
      if t[a] == t[b] {
        var u := t[..a] + t[a + 1..];
        assert Image(Iota(|t|)) <= Image(u) by {
          forall x | x in Image(Iota(|t|)) ensures x in Image(u) {
            assert x in Image(t);
            var k :| 0 <= k < |t| && t[k] == x;
            if k < a {
              assert u[k] == x;
            } else if k > a {
              assert u[k - 1] == x;
            } else if b < a {
              assert u[b] == x;
            } else {
              assert u[b - 1] == x;
            }
          }
        }
        ImageCard(Iota(|t|));
        ImageCardAtMost(u);
        SubsetCard(Image(Iota(|t|)), Image(u));
        assert false;
      }
    }
  }

  /** The position of `x` in the permutation `t`, found by linear search. */
  function IndexOf(t: seq<int>, x: int): (k: nat)
    requires IsPermutation(t)
    requires 0 <= x < |t|
    ensures k < |t| && t[k] == x
  {
    PermutationIsOnto(t, x);
    Search(t, x, 0)
  }

  function Search(t: seq<int>, x: int, from: nat): (k: nat)
    requires from <= |t|
    requires exists k :: from <= k < |t| && t[k] == x
    ensures from <= k < |t| && t[k] == x
    decreases |t| - from
  {
    if t[from] == x then from else Search(t, x, from + 1)
  }

  /** The inverse permutation. */
  function Inverse(t: seq<int>): (r: seq<int>)
    requires IsPermutation(t)
    ensures |r| == |t| && IsPermutation(r)
    ensures forall x :: 0 <= x < |t| ==> t[r[x]] == x
    ensures forall k :: 0 <= k < |t| ==> r[t[k]] == k
  {
    seq(|t|, x requires 0 <= x < |t| => IndexOf(t, x))
  }

  /** `p` after `q`: index `i` goes to `p[q[i]]`. */
  function Compose(p: seq<int>, q: seq<int>): (r: seq<int>)
    requires IsPermutation(q) && |p| == |q|
    ensures |r| == |q|
    ensures forall i :: 0 <= i < |q| ==> r[i] == p[q[i]]
  {
    seq(|q|, i requires 0 <= i < |q| => p[q[i]])
  }

  /** Permutations compose to a permutation. */
  lemma ComposePermutation(p: seq<int>, q: seq<int>)
    requires IsPermutation(p) && IsPermutation(q) && |p| == |q|
    ensures IsPermutation(Compose(p, q))
  {
    var r := Compose(p, q);
    forall a, b | 0 <= a < |r| && 0 <= b < |r| && a != b ensures r[a] != r[b] {
      assert q[a] != q[b];
    }
  }
}
