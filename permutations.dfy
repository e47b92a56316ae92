/** Permutations of `0..n-1` and the facts about them that pruning relies on. */
module Permutations {

  /** The sequence `[0, 1, ..., n-1]`. */
  function Range(n: nat): (r: seq<int>)
    ensures |r| == n
    ensures forall i :: 0 <= i < n ==> r[i] == i
  {
    seq(n, i => i)
  }

  /** `p` lists every index `0..|p|-1` exactly once (what `argsort` returns). */
  ghost predicate IsPermutation(p: seq<int>)
  {
    multiset(p) == multiset(Range(|p|))
  }

  /** Every entry of `p` is an index into a sequence of length `n`. */
  predicate IndicesBelow(p: seq<int>, n: int)
  {
    forall i :: 0 <= i < |p| ==> 0 <= p[i] < n
  }

  /** Number of zero entries of a sequence: `multiset(s)[0]`. */
  function ZeroCount(s: seq<int>): (c: nat)
    ensures c <= |s|
  {
    multiset(s)[0]
  }

  /** Appending one entry adds one zero exactly when that entry is 0. */
  lemma ZeroCountSnoc(s: seq<int>, x: int)
    ensures ZeroCount(s + [x]) == ZeroCount(s) + if x == 0 then 1 else 0
  {
    assert multiset(s + [x]) == multiset(s) + multiset{x};
  }

  /**
   * When every zero of `a` is a zero of `b`, `b` has at least as many zeros,
   * and strictly more when it has a zero where `a` has none.
   */
  lemma {:induction false} ZeroCountMonotone(a: seq<int>, b: seq<int>)
    requires |a| == |b|
    requires forall k :: 0 <= k < |a| && a[k] == 0 ==> b[k] == 0
    ensures ZeroCount(a) <= ZeroCount(b)
    ensures (exists k :: 0 <= k < |a| && b[k] == 0 && a[k] != 0) ==> ZeroCount(a) < ZeroCount(b)
  {
    if |a| > 0 {
      var n := |a| - 1;
      ZeroCountMonotone(a[..n], b[..n]);
      assert a == a[..n] + [a[n]] && b == b[..n] + [b[n]];
      ZeroCountSnoc(a[..n], a[n]);
      ZeroCountSnoc(b[..n], b[n]);
      if k :| 0 <= k < n && b[k] == 0 && a[k] != 0 {
        assert a[..n][k] == a[k] && b[..n][k] == b[k];
      }
    }
  }

  /** `s` read through the index sequence `p`: `[s[p[0]], s[p[1]], ...]`. */
  function Compose<T>(s: seq<T>, p: seq<int>): (r: seq<T>)
    requires IndicesBelow(p, |s|)
    ensures |r| == |p|
    ensures forall i :: 0 <= i < |p| ==> r[i] == s[p[i]]
  {
    seq(|p|, i requires 0 <= i < |p| => s[p[i]])
  }

  /** A permutation only holds indices below its own length. */
  lemma PermutationInRange(p: seq<int>)
    requires IsPermutation(p)
    ensures IndicesBelow(p, |p|)
  {
    forall i | 0 <= i < |p| ensures 0 <= p[i] < |p| {
      assert p[i] in multiset(p);
      assert p[i] in multiset(Range(|p|));
      assert p[i] in Range(|p|);
    }
  }

  /** A permutation reaches every index: some position holds `k`. */
  lemma PermutationOnto(p: seq<int>, k: int)
    requires IsPermutation(p)
    requires 0 <= k < |p|
    ensures exists n :: 0 <= n < |p| && p[n] == k
  {
    assert Range(|p|)[k] == k;
    assert k in multiset(Range(|p|));
    assert k in multiset(p);
    assert k in p;
  }

  /** A permutation never repeats an index. */
  lemma PermutationInjective(p: seq<int>, i: int, j: int)
    requires IsPermutation(p)
    requires 0 <= i < |p| && 0 <= j < |p| && i != j
    ensures p[i] != p[j]
  {
    if p[i] == p[j] {
      var lo, hi := if i < j then i else j, if i < j then j else i;
      var x := p[i];
      assert p == p[..lo] + [x] + p[lo + 1..hi] + [x] + p[hi + 1..];
      assert multiset(p)[x] >= 2;
      RangeCount(|p|, x);
      assert false;
    }
  }

  /** Every value occurs at most once in `Range(n)`. */
  lemma {:induction false} RangeCount(n: nat, x: int)
    ensures multiset(Range(n))[x] == if 0 <= x < n then 1 else 0
  {
    if n > 0 {
      assert Range(n) == Range(n - 1) + [n - 1];
      RangeCount(n - 1, x);
    }
  }

  /** Reading through a concatenation of index sequences concatenates the readings. */
  lemma ComposeAppend<T>(s: seq<T>, a: seq<int>, b: seq<int>)
    requires IndicesBelow(a, |s|) && IndicesBelow(b, |s|)
    ensures IndicesBelow(a + b, |s|)
    ensures Compose(s, a + b) == Compose(s, a) + Compose(s, b)
  {
  }

  /** Indices below `|t|` read the same from `t` and from any extension of `t`. */
  lemma ComposeExtension<T>(t: seq<T>, x: T, p: seq<int>)
    requires IndicesBelow(p, |t|)
    ensures IndicesBelow(p, |t + [x]|)
    ensures Compose(t + [x], p) == Compose(t, p)
  {
  }

  /** Dropping the position of the largest index leaves a permutation of the rest. */
  lemma DropLargest(p: seq<int>, j: int)
    requires IsPermutation(p) && 0 <= j < |p| && p[j] == |p| - 1
    ensures IsPermutation(p[..j] + p[j + 1..])
  {
    var m := |p| - 1;
    var a, b := p[..j], p[j + 1..];
    assert p == a + [m] + b;
    assert multiset(p) == multiset(a) + multiset{m} + multiset(b);
    assert Range(m + 1) == Range(m) + [m];
    assert multiset(Range(m + 1)) == multiset(Range(m)) + multiset{m};
    assert multiset(a) + multiset(b) == multiset(p) - multiset{m};
    assert multiset(Range(m)) == multiset(Range(m + 1)) - multiset{m};
    assert multiset(a + b) == multiset(a) + multiset(b);
  }

  /** The two halves around a dropped position keep the bound of the whole. */
  lemma SplitBounds(a: seq<int>, b: seq<int>, n: int)
    requires IndicesBelow(a + b, n)
    ensures IndicesBelow(a, n) && IndicesBelow(b, n)
  {
    assert forall i :: 0 <= i < |a| ==> a[i] == (a + b)[i];
    assert forall i :: 0 <= i < |b| ==> b[i] == (a + b)[|a| + i];
  }

  /** Reading `t + [x]` through `a + [|t|] + b` is reading `t` through `a + b`, plus `x`. */
  lemma ComposeAround<T>(t: seq<T>, x: T, a: seq<int>, b: seq<int>)
    requires IndicesBelow(a, |t|) && IndicesBelow(b, |t|)
    ensures IndicesBelow(a + [|t|] + b, |t + [x]|)
    ensures multiset(Compose(t + [x], a + [|t|] + b)) == multiset(Compose(t, a + b)) + multiset{x}
  {
    var s := t + [x];
    ComposeAppend(t, a, b);
    ComposeExtension(t, x, a);
    ComposeExtension(t, x, b);
    assert Compose(s, [|t|]) == [x];
    ComposeAppend(s, a, [|t|]);
    ComposeAppend(s, a + [|t|], b);
  }

  /** Reading a sequence through a permutation rearranges it: the same multiset. */
  lemma {:induction false} ComposePermutation<T>(s: seq<T>, p: seq<int>)
    requires IsPermutation(p) && |p| == |s|
    ensures IndicesBelow(p, |s|)
    ensures multiset(Compose(s, p)) == multiset(s)
  {
    PermutationInRange(p);
    if |s| > 0 {
      var m := |s| - 1;
      PermutationOnto(p, m);
      var j :| 0 <= j < |p| && p[j] == m;
      var a, b := p[..j], p[j + 1..];
      assert p == a + [m] + b;
      DropLargest(p, j);
      PermutationInRange(a + b);
      SplitBounds(a, b, m);
      var t := s[..m];
      assert s == t + [s[m]];
      ComposePermutation(t, a + b);
      ComposeAround(t, s[m], a, b);
    }
  }
}
