/**
 * The weight selector `prune_weights` (prune.py:76-95): from the flattened
 * magnitudes of one layer and an `argsort` of them it builds a 0/1 mask and
 * returns the masked magnitudes. Tensors are flat sequences of reals and
 * `argsort` is any permutation that lists the positions by ascending magnitude.
 */
module Selector {
  import opened Permutations

  function Abs(x: real): (r: real)
    ensures r >= 0.0 && (r == x || r == -x)
  {
    if x < 0.0 then -x else x
  }

  /** `np.abs` of a flattened tensor. */
  function Magnitudes(w: seq<real>): (r: seq<real>)
    ensures |r| == |w|
    ensures forall i :: 0 <= i < |w| ==> r[i] == Abs(w[i]) && r[i] >= 0.0
  {
    seq(|w|, i requires 0 <= i < |w| => Abs(w[i]))
  }

  /**
   * `order` is a possible result of `argsort` on `v`: a permutation of the
   * positions of `v` by ascending value. numpy's default sort is not stable,
   * so equal values may come in any order.
   */
  ghost predicate IsArgsort(order: seq<int>, v: seq<real>)
  {
    && |order| == |v|
    && IsPermutation(order)
    && IndicesBelow(order, |v|)
    && forall i, j :: 0 <= i < j < |order| ==> v[order[i]] <= v[order[j]]
  }

  /** `np.round`: to the nearest integer, halves to the even neighbour. */
  function RoundHalfEven(x: real): (r: int)
    ensures x - 0.5 <= r as real <= x + 0.5
    ensures (r as real == x + 0.5 || r as real == x - 0.5) ==> r % 2 == 0
  {
    var f := x.Floor;
    var d := x - f as real;
    if d < 0.5 then f
    else if d > 0.5 then f + 1
    else if f % 2 == 0 then f
    else f + 1
  }

  /** `prune_num = int(np.round(num*prune))`, computed exactly on reals. */
  function PruneNum(num: nat, prune: real): int
  {
    RoundHalfEven(num as real * prune)
  }

  /** A fraction in [0, 1] asks for between none and all of the weights. */
  lemma PruneNumBounds(num: nat, prune: real)
    requires 0.0 <= prune <= 1.0
    ensures 0 <= PruneNum(num, prune) <= num
  {
    ScaledFraction(num, prune);
    RoundWithin(num as real * prune, num);
  }

  /** Rounding a value in `[0, hi]` stays in `[0, hi]`. */
  lemma RoundWithin(x: real, hi: nat)
    requires 0.0 <= x <= hi as real
    ensures 0 <= RoundHalfEven(x) <= hi
  {
    var r := RoundHalfEven(x);
    assert -1.0 < r as real < hi as real + 1.0;
  }

  /** `0 <= num * prune <= num` for a fraction `prune`, by induction on `num`. */
  lemma {:induction false} ScaledFraction(num: nat, prune: real)
    requires 0.0 <= prune <= 1.0
    ensures 0.0 <= num as real * prune <= num as real
  {
    if num > 0 {
      ScaledFraction(num - 1, prune);
      assert num as real * prune == (num - 1) as real * prune + prune;
    }
  }

  /** `n` clamped into `[0, num]`. */
  function Clamp(n: int, num: nat): (r: nat)
    ensures r <= num
    ensures 0 <= n <= num ==> r == n
  {
    if n < 0 then 0 else if n > num then num else n
  }

  /**
   * The mask the loop at prune.py:85-88 builds: position `n` is kept (1)
   * exactly when the n-th entry of the argsort, an original position, is
   * greater than `pruneNum`.
   */
  function MaskAsWritten(order: seq<int>, pruneNum: int): (m: seq<int>)
    ensures |m| == |order|
  {
    seq(|order|, n requires 0 <= n < |order| => if order[n] > pruneNum then 1 else 0)
  }

  /** Extending the argsort prefix by one entry adds that entry's flag, and one zero when it is pruned. */
  lemma MaskAsWrittenSnoc(order: seq<int>, n: nat, pruneNum: int)
    requires n < |order|
    ensures ZeroCount(MaskAsWritten(order[..n + 1], pruneNum))
         == ZeroCount(MaskAsWritten(order[..n], pruneNum)) + if order[n] > pruneNum then 0 else 1
  {
    var flag := if order[n] > pruneNum then 1 else 0;
    assert MaskAsWritten(order[..n + 1], pruneNum) == MaskAsWritten(order[..n], pruneNum) + [flag];
    ZeroCountSnoc(MaskAsWritten(order[..n], pruneNum), flag);
  }

  /** `masks*weights` at prune.py:93, where `weights` already holds `np.abs` of the input. */
  function MaskedMagnitudes(w: seq<real>, m: seq<int>): (r: seq<real>)
    requires |m| == |w|
    ensures |r| == |w|
  {
    seq(|w|, i requires 0 <= i < |w| => m[i] as real * Abs(w[i]))
  }

  /** Every entry of a mask is 0 or 1. */
  predicate Binary(m: seq<int>)
  {
    forall i :: 0 <= i < |m| ==> m[i] == 0 || m[i] == 1
  }

  /** The as-written mask keeps position `n` iff the argsort entry there exceeds `pruneNum`, and is 0/1. */
  lemma MaskAsWrittenAt(order: seq<int>, pruneNum: int)
    ensures Binary(MaskAsWritten(order, pruneNum))
    ensures forall n :: 0 <= n < |order| ==>
      (MaskAsWritten(order, pruneNum)[n] == 1 <==> order[n] > pruneNum)
  {
  }

  /** On the identity order the as-written mask zeroes the positions `0..t`. */
  lemma {:induction false} IdentityMaskZeros(num: nat, t: int)
    ensures ZeroCount(MaskAsWritten(Range(num), t)) == Clamp(t + 1, num)
  {
    if num > 0 {
      IdentityMaskZeros(num - 1, t);
      assert MaskAsWritten(Range(num), t)
          == MaskAsWritten(Range(num - 1), t) + [if num - 1 > t then 1 else 0];
    }
  }

  /**
   * Whatever permutation `argsort` returns, the as-written mask has exactly
   * `min(pruneNum + 1, num)` zeros (none when `pruneNum < 0`): one more than
   * `pruneNum` asks for.
   */
  lemma AsWrittenZeroCount(order: seq<int>, pruneNum: int)
    requires IsPermutation(order)
    ensures ZeroCount(MaskAsWritten(order, pruneNum)) == Clamp(pruneNum + 1, |order|)
  {
    var flags := MaskAsWritten(Range(|order|), pruneNum);
    ComposePermutation(flags, order);
    assert MaskAsWritten(order, pruneNum) == Compose(flags, order);
    IdentityMaskZeros(|order|, pruneNum);
  }

  /**
   * The returned weights are the magnitudes where the mask is 1 and zero where
   * it is 0; they are never negative, so the sign of every weight is lost.
   */
  lemma MaskedMagnitudesAt(w: seq<real>, m: seq<int>)
    requires |m| == |w| && Binary(m)
    ensures forall i :: 0 <= i < |w| ==> MaskedMagnitudes(w, m)[i] >= 0.0
    ensures forall i :: 0 <= i < |w| ==> (m[i] == 0 ==> MaskedMagnitudes(w, m)[i] == 0.0)
    ensures forall i :: 0 <= i < |w| ==> (m[i] == 1 ==> MaskedMagnitudes(w, m)[i] == Abs(w[i]))
  {
  }

  /**
   * `prune_weights` as written: returns the masked magnitudes, the mask and
   * the counter of zeroed positions it prints as "weights pruned".
   */
  method PruneWeights(w: seq<real>, prune: real, order: seq<int>)
    returns (pruned: seq<real>, masks: seq<int>, count: nat)
    requires IsArgsort(order, Magnitudes(w))
    ensures masks == MaskAsWritten(order, PruneNum(|w|, prune))
    ensures pruned == MaskedMagnitudes(w, masks)
    ensures count == ZeroCount(masks) == Clamp(PruneNum(|w|, prune) + 1, |w|)
  {
    var weights := Magnitudes(w);
    var num := |weights|;
    var pruneNum := PruneNum(num, prune);
    count := 0;
    var m := new int[num](_ => 0);
    for n := 0 to num
      invariant forall k :: 0 <= k < n ==> m[k] == if order[k] > pruneNum then 1 else 0
      invariant forall k :: n <= k < num ==> m[k] == 0
      invariant count == ZeroCount(MaskAsWritten(order[..n], pruneNum))
    {
      MaskAsWrittenSnoc(order, n, pruneNum);
      if order[n] > pruneNum {
        m[n] := 1;
      } else {
        count := count + 1;
      }
    }
    masks := m[..];
    MaskFromFlags(masks, order, pruneNum);
    pruned := MaskedMagnitudes(w, masks);
    AsWrittenZeroCount(order, pruneNum);
  }

  /** A sequence holding the flag of every argsort entry is the as-written mask. */
  lemma MaskFromFlags(masks: seq<int>, order: seq<int>, pruneNum: int)
    requires |masks| == |order|
    requires forall k :: 0 <= k < |order| ==> masks[k] == if order[k] > pruneNum then 1 else 0
    ensures masks == MaskAsWritten(order, pruneNum)
    ensures MaskAsWritten(order[..|order|], pruneNum) == masks
  {
    assert order[..|order|] == order;
  }

  /** The rank of each position under `order`, thresholded: rank `n` is kept iff `n >= pruneNum`. */
  predicate KeepsByRank(masks: seq<int>, order: seq<int>, pruneNum: int)
    requires IndicesBelow(order, |masks|)
  {
    forall n :: 0 <= n < |order| ==> masks[order[n]] == if n >= pruneNum then 1 else 0
  }

  /**
   * A mask that keeps exactly the elements of rank at least `pruneNum` is 0/1,
   * zeroes exactly `pruneNum` positions (clamped to the tensor), and never
   * prunes a weight of larger magnitude than one it keeps.
   */
  lemma KeepsByRankMeaning(w: seq<real>, order: seq<int>, masks: seq<int>, pruneNum: int)
    requires IsArgsort(order, Magnitudes(w)) && |masks| == |w|
    requires KeepsByRank(masks, order, pruneNum)
    ensures Binary(masks)
    ensures ZeroCount(masks) == Clamp(pruneNum, |w|)
    ensures forall i, j :: 0 <= i < |w| && 0 <= j < |w| && masks[i] == 0 && masks[j] == 1 ==>
      Abs(w[i]) <= Abs(w[j])
  {
    var num := |w|;
    var ranked := MaskAsWritten(Range(num), pruneNum - 1);
    assert Compose(masks, order) == ranked;
    ComposePermutation(masks, order);
    IdentityMaskZeros(num, pruneNum - 1);
    forall i | 0 <= i < num ensures masks[i] == 0 || masks[i] == 1 {
      PermutationOnto(order, i);
    }
    forall i, j | 0 <= i < num && 0 <= j < num && masks[i] == 0 && masks[j] == 1
      ensures Abs(w[i]) <= Abs(w[j])
    {
      PermutationOnto(order, i);
      PermutationOnto(order, j);
      var a :| 0 <= a < num && order[a] == i;
      var b :| 0 <= b < num && order[b] == j;
      assert a < b;
      assert Magnitudes(w)[order[a]] <= Magnitudes(w)[order[b]];
    }
  }

  /** The mask applied to the signed weights: what the corrected selector returns. */
  function ApplyMask(w: seq<real>, masks: seq<int>): (r: seq<real>)
    requires |masks| == |w|
    ensures |r| == |w|
  {
    seq(|w|, i requires 0 <= i < |w| => masks[i] as real * w[i])
  }

  /**
   * A second rank-based pass over weights `r` that already hold zeros at every
   * position `masks` prunes, pruning no more positions than `masks` does,
   * only prunes zeros: pruning a nonzero weight would leave some zero of `r`
   * kept, or prune one position too many.
   */
  lemma PrunedAgainAreZero(r: seq<real>, masks: seq<int>, masks2: seq<int>)
    requires |masks| == |r| && |masks2| == |r| && Binary(masks2)
    requires forall k :: 0 <= k < |r| && masks[k] == 0 ==> r[k] == 0.0
    requires ZeroCount(masks2) <= ZeroCount(masks)
    requires forall i, j :: 0 <= i < |r| && 0 <= j < |r| && masks2[i] == 0 && masks2[j] == 1 ==>
      Abs(r[i]) <= Abs(r[j])
    ensures forall i :: 0 <= i < |r| && masks2[i] == 0 ==> r[i] == 0.0
  {
    if i :| 0 <= i < |r| && masks2[i] == 0 && r[i] != 0.0 {
      assert forall k :: 0 <= k < |r| && masks[k] == 0 ==> masks2[k] == 0;
      ZeroCountMonotone(masks, masks2);
      assert false;
    }
  }

  /** A 0/1 mask that prunes only zeros leaves the weights as they are. */
  lemma MaskOverZeros(r: seq<real>, masks: seq<int>)
    requires |masks| == |r| && Binary(masks)
    requires forall i :: 0 <= i < |r| && masks[i] == 0 ==> r[i] == 0.0
    ensures ApplyMask(r, masks) == r
  {
    var q := ApplyMask(r, masks);
    forall i | 0 <= i < |r| ensures q[i] == r[i] {
      if masks[i] == 0 {
        assert r[i] == 0.0;
      }
    }
  }

  /** Two 0/1 masks with as many zeros, one's zeros among the other's, are equal. */
  lemma SameZerosSameMask(a: seq<int>, b: seq<int>)
    requires |a| == |b| && Binary(a) && Binary(b)
    requires forall k :: 0 <= k < |a| && a[k] == 0 ==> b[k] == 0
    requires ZeroCount(b) <= ZeroCount(a)
    ensures a == b
  {
    ZeroCountMonotone(a, b);
    assert forall k :: 0 <= k < |a| ==> a[k] == b[k];
  }

  /**
   * Pruning the rank-based selector's output again with the same `pruneNum`
   * gives back the same weights, whichever argsort each pass uses; when no
   * kept weight is 0 it also gives back the same mask.
   */
  lemma ByRankReprune(w: seq<real>, order: seq<int>, masks: seq<int>,
                      order2: seq<int>, masks2: seq<int>, pruneNum: int)
    requires IsArgsort(order, Magnitudes(w)) && |masks| == |w| && KeepsByRank(masks, order, pruneNum)
    requires IsArgsort(order2, Magnitudes(ApplyMask(w, masks))) && |masks2| == |w|
    requires KeepsByRank(masks2, order2, pruneNum)
    ensures ApplyMask(ApplyMask(w, masks), masks2) == ApplyMask(w, masks)
    ensures (forall j :: 0 <= j < |w| && masks[j] == 1 ==> w[j] != 0.0) ==> masks2 == masks
  {
    var r := ApplyMask(w, masks);
    KeepsByRankMeaning(w, order, masks, pruneNum);
    KeepsByRankMeaning(r, order2, masks2, pruneNum);
    PrunedAgainAreZero(r, masks, masks2);
    MaskOverZeros(r, masks2);
    if forall j :: 0 <= j < |w| && masks[j] == 1 ==> w[j] != 0.0 {
      SameZerosSameMask(masks2, masks);
    }
  }

  /**
   * The selector the script's own comments call for (prune.py:97-99: the
   * pruned locations are recorded so that those weights stay zero): the
   * element of ascending rank `n` is kept iff `n >= pruneNum`, the mask is
   * written at that element's own position, and the weights keep their sign.
   */
  method PruneWeightsByRank(w: seq<real>, prune: real, order: seq<int>)
    returns (pruned: seq<real>, masks: seq<int>, count: nat)
    requires IsArgsort(order, Magnitudes(w))
    ensures |masks| == |w| && |pruned| == |w| && Binary(masks)
    ensures KeepsByRank(masks, order, PruneNum(|w|, prune))
    ensures count == ZeroCount(masks) == Clamp(PruneNum(|w|, prune), |w|)
    ensures forall i, j :: 0 <= i < |w| && 0 <= j < |w| && masks[i] == 0 && masks[j] == 1 ==>
      Abs(w[i]) <= Abs(w[j])
    ensures forall i :: 0 <= i < |w| ==> pruned[i] == masks[i] as real * w[i]
  {
    var num := |w|;
    var pruneNum := PruneNum(num, prune);
    count := 0;
    var m := new int[num](_ => 0);
    for n := 0 to num
      invariant forall k :: 0 <= k < n ==> m[order[k]] == if k >= pruneNum then 1 else 0
      invariant forall k :: n <= k < num ==> m[order[k]] == 0
      invariant count == Clamp(pruneNum, n)
    {
      forall k | 0 <= k < num && k != n ensures order[k] != order[n] {
        PermutationInjective(order, k, n);
      }
      if n >= pruneNum {
        m[order[n]] := 1;
      } else {
        count := count + 1;
      }
    }
    masks := m[..];
    KeepsByRankMeaning(w, order, masks, pruneNum);
    pruned := ApplyMask(w, masks);
  }
}

/** Worked inputs on which the selector as written and the rank-based one differ. */
module SelectorScenarios {
  import opened Permutations
  import opened Selector

  /**
   * `order` is an argsort of the magnitudes of `w` when those magnitudes are
   * `v`, `order` lists every position once and `v` read through it ascends.
   */
  lemma SortsMagnitudes(w: seq<real>, order: seq<int>, v: seq<real>)
    requires |v| == |w| == |order|
    requires forall i :: 0 <= i < |w| ==> Abs(w[i]) == v[i]
    requires multiset(order) == multiset(Range(|order|)) && IndicesBelow(order, |v|)
    requires forall i :: 0 < i < |order| ==> v[order[i - 1]] <= v[order[i]]
    ensures IsArgsort(order, Magnitudes(w))
  {
    assert Magnitudes(w) == v;
    forall i, j | 0 <= i < j < |order| ensures v[order[i]] <= v[order[j]] {
      AscendingStep(v, order, i, j);
    }
  }

  lemma {:induction false} AscendingStep(v: seq<real>, order: seq<int>, i: int, j: int)
    requires IndicesBelow(order, |v|)
    requires forall k :: 0 < k < |order| ==> v[order[k - 1]] <= v[order[k]]
    requires 0 <= i <= j < |order|
    ensures v[order[i]] <= v[order[j]]
    decreases j - i
  {
    if i < j {
      AscendingStep(v, order, i, j - 1);
    }
  }

  lemma PermutationOfFour()
    ensures IsPermutation([0, 3, 2, 1])
  {
    assert Range(4) == [0, 1, 2, 3];
    assert [0, 3, 2, 1] == [0] + [3] + [2] + [1];
    assert [0, 1, 2, 3] == [0] + [1] + [2] + [3];
  }

  lemma PermutationOfThree()
    ensures IsPermutation([1, 2, 0])
  {
    assert Range(3) == [0, 1, 2];
    assert [1, 2, 0] == [1] + [2] + [0];
    assert [0, 1, 2] == [0] + [1] + [2];
  }

  lemma PermutationForReprune()
    ensures IsPermutation([2, 0, 3, 1])
  {
    assert Range(4) == [0, 1, 2, 3];
    assert [2, 0, 3, 1] == [2] + [0] + [3] + [1];
    assert [0, 1, 2, 3] == [0] + [1] + [2] + [3];
  }

  lemma ArgsortHalfOfFour()
    ensures IsArgsort([0, 3, 2, 1], Magnitudes([0.1, -0.9, 0.3, -0.2]))
  {
    PermutationOfFour();
    SortsMagnitudes([0.1, -0.9, 0.3, -0.2], [0, 3, 2, 1], [0.1, 0.9, 0.3, 0.2]);
  }

  lemma ArgsortZeroFraction()
    ensures IsArgsort([1, 2, 0], Magnitudes([0.3, -0.1, 0.2]))
  {
    PermutationOfThree();
    SortsMagnitudes([0.3, -0.1, 0.2], [1, 2, 0], [0.3, 0.1, 0.2]);
  }

  /**
   * `[0.1, -0.9, 0.3, -0.2]` with fraction 0.5: the code zeroes three
   * positions, not two, keeps only the magnitude 0.9 and drops its sign.
   */
  lemma HalfOfFourAsWritten()
    ensures IsArgsort([0, 3, 2, 1], Magnitudes([0.1, -0.9, 0.3, -0.2]))
    ensures PruneNum(4, 0.5) == 2
    ensures MaskAsWritten([0, 3, 2, 1], 2) == [0, 1, 0, 0]
    ensures MaskedMagnitudes([0.1, -0.9, 0.3, -0.2], [0, 1, 0, 0]) == [0.0, 0.9, 0.0, 0.0]
  {
    var order, w := [0, 3, 2, 1], [0.1, -0.9, 0.3, -0.2];
    ArgsortHalfOfFour();
    assert PruneNum(4, 0.5) == 2 by {
      assert RoundHalfEven(2.0) == 2;
    }
    assert MaskAsWritten(order, 2) == [0, 1, 0, 0];
    assert MaskedMagnitudes(w, [0, 1, 0, 0]) == [0.0, 0.9, 0.0, 0.0] by {
      var r := MaskedMagnitudes(w, [0, 1, 0, 0]);
      assert r[0] == 0.0 && r[1] == 0.9 && r[2] == 0.0 && r[3] == 0.0;
    }
  }

  /**
   * On the same input the only mask that keeps exactly the ranks `>= 2` is
   * `[0, 1, 1, 0]`: the two smallest magnitudes are pruned.
   */
  lemma HalfOfFourByRank(m: seq<int>)
    requires |m| == 4
    ensures KeepsByRank(m, [0, 3, 2, 1], PruneNum(4, 0.5)) <==> m == [0, 1, 1, 0]
  {
    var o := [0, 3, 2, 1];
    assert RoundHalfEven(2.0) == 2;
    if KeepsByRank(m, o, 2) {
      assert m[o[0]] == 0 && m[o[1]] == 0 && m[o[2]] == 1 && m[o[3]] == 1;
    }
  }

  /**
   * `[0.3, -0.1, 0.2]` with fraction 0: the code still zeroes one position,
   * and it zeroes 0.2 while keeping the smaller magnitude 0.1.
   */
  lemma ZeroFractionAsWritten()
    ensures IsArgsort([1, 2, 0], Magnitudes([0.3, -0.1, 0.2]))
    ensures PruneNum(3, 0.0) == 0
    ensures MaskAsWritten([1, 2, 0], 0) == [1, 1, 0]
    ensures Abs(0.2) > Abs(-0.1)
    ensures MaskedMagnitudes([0.3, -0.1, 0.2], [1, 1, 0]) == [0.3, 0.1, 0.0]
  {
    var order, w := [1, 2, 0], [0.3, -0.1, 0.2];
    ArgsortZeroFraction();
    assert PruneNum(3, 0.0) == 0 by {
      assert RoundHalfEven(0.0) == 0;
    }
    assert MaskAsWritten(order, 0) == [1, 1, 0];
    assert MaskedMagnitudes(w, [1, 1, 0]) == [0.3, 0.1, 0.0] by {
      var r := MaskedMagnitudes(w, [1, 1, 0]);
      assert r[0] == 0.3 && r[1] == 0.1 && r[2] == 0.0;
    }
  }

  /** An argsort lists a strictly smaller value before a larger one. */
  lemma ArgsortBefore(order: seq<int>, v: seq<real>, p: int, q: int)
    requires IsArgsort(order, v) && 0 <= p < |order| && 0 <= q < |order|
    requires v[order[p]] < v[order[q]]
    ensures p < q
  {
  }

  /** Four values ordered `v[1] < v[2] < v[0] < v[3]` have exactly one argsort. */
  lemma UniqueArgsortOfFour(order: seq<int>, v: seq<real>)
    requires IsArgsort(order, v) && |v| == 4
    requires v[1] < v[2] < v[0] < v[3]
    ensures order == [1, 2, 0, 3]
  {
    PermutationOnto(order, 0);
    PermutationOnto(order, 1);
    PermutationOnto(order, 2);
    PermutationOnto(order, 3);
    var p0 :| 0 <= p0 < 4 && order[p0] == 0;
    var p1 :| 0 <= p1 < 4 && order[p1] == 1;
    var p2 :| 0 <= p2 < 4 && order[p2] == 2;
    var p3 :| 0 <= p3 < 4 && order[p3] == 3;
    ArgsortBefore(order, v, p1, p2);
    ArgsortBefore(order, v, p2, p0);
    ArgsortBefore(order, v, p0, p3);
    assert p1 == 0 && p2 == 1 && p0 == 2 && p3 == 3;
  }

  lemma ArgsortReprune()
    ensures IsArgsort([2, 0, 3, 1], Magnitudes([0.2, -0.9, 0.1, 0.3]))
  {
    PermutationForReprune();
    SortsMagnitudes([0.2, -0.9, 0.1, 0.3], [2, 0, 3, 1], [0.2, 0.9, 0.1, 0.3]);
  }

  lemma PrunedMagnitudes()
    ensures Magnitudes([0.2, 0.0, 0.1, 0.3]) == [0.2, 0.0, 0.1, 0.3]
  {
    var v := Magnitudes([0.2, 0.0, 0.1, 0.3]);
    assert v[0] == 0.2 && v[1] == 0.0 && v[2] == 0.1 && v[3] == 0.3;
  }

  /** Every argsort of the pruned output zeroes position 2 with fraction 0. */
  lemma RepruneMask(order: seq<int>)
    requires IsArgsort(order, Magnitudes([0.2, 0.0, 0.1, 0.3]))
    ensures MaskAsWritten(order, 0) == [1, 1, 0, 1]
  {
    PrunedMagnitudes();
    UniqueArgsortOfFour(order, [0.2, 0.0, 0.1, 0.3]);
    var m := MaskAsWritten(order, 0);
    assert m[0] == 1 && m[1] == 1 && m[2] == 0 && m[3] == 1;
  }

  /**
   * `[0.2, -0.9, 0.1, 0.3]` with fraction 0: the magnitudes are distinct, yet
   * pruning the output again with the same fraction moves the zero from
   * position 1 to position 2, because the as-written zero sits at a position
   * unrelated to magnitude.
   */
  lemma RepruneMovesZeroAsWritten()
    ensures IsArgsort([2, 0, 3, 1], Magnitudes([0.2, -0.9, 0.1, 0.3]))
    ensures PruneNum(4, 0.0) == 0
    ensures MaskAsWritten([2, 0, 3, 1], 0) == [1, 0, 1, 1]
    ensures MaskedMagnitudes([0.2, -0.9, 0.1, 0.3], [1, 0, 1, 1]) == [0.2, 0.0, 0.1, 0.3]
    ensures forall order :: IsArgsort(order, Magnitudes([0.2, 0.0, 0.1, 0.3])) ==>
      MaskAsWritten(order, 0) == [1, 1, 0, 1]
  {
    var w := [0.2, -0.9, 0.1, 0.3];
    ArgsortReprune();
    assert PruneNum(4, 0.0) == 0 by {
      assert RoundHalfEven(0.0) == 0;
    }
    assert MaskAsWritten([2, 0, 3, 1], 0) == [1, 0, 1, 1];
    assert MaskedMagnitudes(w, [1, 0, 1, 1]) == [0.2, 0.0, 0.1, 0.3] by {
      var r := MaskedMagnitudes(w, [1, 0, 1, 1]);
      assert r[0] == 0.2 && r[1] == 0.0 && r[2] == 0.1 && r[3] == 0.3;
    }
    forall order | IsArgsort(order, Magnitudes([0.2, 0.0, 0.1, 0.3]))
      ensures MaskAsWritten(order, 0) == [1, 1, 0, 1]
    {
      RepruneMask(order);
    }
  }
}
