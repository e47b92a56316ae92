/**
 * Best-accuracy bookkeeping of `test` and the epoch loop (prune.py:182-223):
 * `best_acc` starts at 0 and is replaced, with a checkpoint saved, only when
 * an epoch's test accuracy is strictly greater. Each epoch then appends its
 * number and `best_acc` to the results file. Accuracies are inputs.
 */
module Evaluation {
  import opened Checkpoints
  import opened Sequences

  /** Epochs the loop at prune.py:218 runs. */
  const Epochs: nat := 20

  /** The dictionary `torch.save` writes at prune.py:206-213: weights, accuracy and epoch, no registry. */
  datatype SavedState = SavedState(net: StateDict, acc: real, epoch: int)

  /** `best_acc` after testing `accs` in turn, starting from `best`. */
  function BestAfter(best: real, accs: seq<real>): real
  {
    if |accs| == 0 then best
    else
      var before := BestAfter(best, accs[..|accs| - 1]);
      var acc := accs[|accs| - 1];
      if acc > before then acc else before
  }

  /** The states saved while testing `accs` in turn: one per epoch that beats every earlier one. */
  function Saves(best: real, startEpoch: int, accs: seq<real>, nets: seq<StateDict>): seq<SavedState>
    requires |nets| == |accs|
  {
    if |accs| == 0 then []
    else
      var n := |accs| - 1;
      Saves(best, startEpoch, accs[..n], nets[..n]) +
        if accs[n] > BestAfter(best, accs[..n]) then [SavedState(nets[n], accs[n], startEpoch + n)] else []
  }

  /** The lines appended to the results file: each epoch with the `best_acc` after it. */
  function Results(best: real, startEpoch: int, accs: seq<real>): (r: seq<(int, real)>)
    ensures |r| == |accs|
  {
    if |accs| == 0 then []
    else
      var n := |accs| - 1;
      Results(best, startEpoch, accs[..n]) + [(startEpoch + n, BestAfter(best, accs))]
  }

  /** `best_acc` is the maximum of its start value and every accuracy tested. */
  lemma {:induction false} BestAfterIsMax(best: real, accs: seq<real>)
    ensures BestAfter(best, accs) >= best
    ensures forall i :: 0 <= i < |accs| ==> BestAfter(best, accs) >= accs[i]
    ensures BestAfter(best, accs) == best || exists i :: 0 <= i < |accs| && BestAfter(best, accs) == accs[i]
  {
    if |accs| > 0 {
      var n := |accs| - 1;
      BestAfterIsMax(best, accs[..n]);
      assert forall i :: 0 <= i < n ==> accs[..n][i] == accs[i];
    }
  }

  /** `best_acc` never decreases from one epoch to a later one. */
  lemma {:induction false} BestNeverDecreases(best: real, accs: seq<real>, i: nat, j: nat)
    requires i <= j <= |accs|
    ensures BestAfter(best, accs[..i]) <= BestAfter(best, accs[..j])
    decreases j - i
  {
    if i < j {
      BestNeverDecreases(best, accs, i, j - 1);
      assert accs[..j][..j - 1] == accs[..j - 1];
    }
  }

  /** Line `e` of the results file holds epoch `startEpoch + e` and `best_acc` after testing it. */
  lemma {:induction false} ResultsAt(best: real, startEpoch: int, accs: seq<real>, e: nat)
    requires e < |accs|
    ensures Results(best, startEpoch, accs)[e] == (startEpoch + e, BestAfter(best, accs[..e + 1]))
  {
    var n := |accs| - 1;
    if e < n {
      ResultsAt(best, startEpoch, accs[..n], e);
      assert accs[..n][..e + 1] == accs[..e + 1];
    } else {
      assert accs[..e + 1] == accs;
    }
  }

  /** The best accuracies written to the results file are sorted. */
  lemma ResultsSorted(best: real, startEpoch: int, accs: seq<real>)
    ensures forall a, b :: 0 <= a < b < |accs| ==>
      Results(best, startEpoch, accs)[a].1 <= Results(best, startEpoch, accs)[b].1
  {
    forall a, b | 0 <= a < b < |accs|
      ensures Results(best, startEpoch, accs)[a].1 <= Results(best, startEpoch, accs)[b].1
    {
      ResultsAt(best, startEpoch, accs, a);
      ResultsAt(best, startEpoch, accs, b);
      BestNeverDecreases(best, accs, a + 1, b + 1);
    }
  }

  /**
   * Every save beats the previous one and the start value, and the last one
   * holds the final `best_acc`; with no save, `best_acc` never moved.
   */
  lemma {:induction false} SavesMeaning(best: real, startEpoch: int, accs: seq<real>, nets: seq<StateDict>)
    requires |nets| == |accs|
    ensures var s := Saves(best, startEpoch, accs, nets);
      && (forall a, b :: 0 <= a < b < |s| ==> s[a].acc < s[b].acc)
      && (forall a :: 0 <= a < |s| ==> best < s[a].acc)
      && (|s| == 0 ==> BestAfter(best, accs) == best)
      && (|s| > 0 ==> s[|s| - 1].acc == BestAfter(best, accs))
  {
    if |accs| > 0 {
      var n := |accs| - 1;
      SavesMeaning(best, startEpoch, accs[..n], nets[..n]);
    }
  }

  /** Epoch `e` extends `best_acc`, the saves and the results file by what its accuracy decides. */
  lemma EpochStep(best: real, startEpoch: int, accs: seq<real>, nets: seq<StateDict>, e: nat)
    requires |nets| == |accs| && e < |accs|
    ensures var before := BestAfter(best, accs[..e]);
      && BestAfter(best, accs[..e + 1]) == (if accs[e] > before then accs[e] else before)
      && Saves(best, startEpoch, accs[..e + 1], nets[..e + 1])
           == Saves(best, startEpoch, accs[..e], nets[..e])
              + (if accs[e] > before then [SavedState(nets[e], accs[e], startEpoch + e)] else [])
      && Results(best, startEpoch, accs[..e + 1])
           == Results(best, startEpoch, accs[..e]) + [(startEpoch + e, BestAfter(best, accs[..e + 1]))]
  {
    assert accs[..e + 1][..e] == accs[..e] && nets[..e + 1][..e] == nets[..e];
  }

  /** The run's mutable state: the global `best_acc`, the saves, the results file. */
  class Session {
    var bestAcc: real
    var saved: seq<SavedState>
    var results: seq<(int, real)>

    /** `best_acc = 0` at prune.py:34; nothing saved or written yet. */
    constructor ()
      ensures bestAcc == 0.0 && saved == [] && results == []
    {
      bestAcc := 0.0;
      saved := [];
      results := [];
    }

    /** The end of `test`: save and raise `best_acc` only on a strict improvement. */
    method Test(epoch: int, acc: real, net: StateDict)
      modifies this
      ensures bestAcc == if acc > old(bestAcc) then acc else old(bestAcc)
      ensures saved == if acc > old(bestAcc) then old(saved) + [SavedState(net, acc, epoch)] else old(saved)
      ensures results == old(results)
    {
      if acc > bestAcc {
        saved := saved + [SavedState(net, acc, epoch)];
        bestAcc := acc;
      }
    }

    /**
     * The epoch loop: train, test, then append the epoch and `best_acc` to
     * the results file. `accs[e]` is epoch `e`'s test accuracy and `nets[e]`
     * the parameters `test` would save. With watermark fine-tuning on and an
     * empty watermark set, the first `train` raises (`Training.TrainEpoch`
     * fails the same way in every epoch), so the script stops before any
     * test and nothing is saved or written.
     */
    method Run(startEpoch: int, accs: seq<real>, nets: seq<StateDict>, wmFineTune: bool, wmCount: nat)
      requires |accs| == Epochs && |nets| == Epochs
      modifies this
      ensures wmFineTune && wmCount == 0 ==>
        bestAcc == old(bestAcc) && saved == old(saved) && results == old(results)
      ensures !(wmFineTune && wmCount == 0) ==>
        && bestAcc == BestAfter(old(bestAcc), accs)
        && saved == old(saved) + Saves(old(bestAcc), startEpoch, accs, nets)
        && results == old(results) + Results(old(bestAcc), startEpoch, accs)
    {
      if wmFineTune && wmCount == 0 {
        return;
      }
      ghost var best0, saved0, results0 := bestAcc, saved, results;
      for e := 0 to Epochs
        invariant bestAcc == BestAfter(best0, accs[..e])
        invariant saved == saved0 + Saves(best0, startEpoch, accs[..e], nets[..e])
        invariant results == results0 + Results(best0, startEpoch, accs[..e])
      {
        EpochStep(best0, startEpoch, accs, nets, e);
        ghost var savesBefore := Saves(best0, startEpoch, accs[..e], nets[..e]);
        ghost var resultsBefore := Results(best0, startEpoch, accs[..e]);
        ghost var saving := if accs[e] > bestAcc then [SavedState(nets[e], accs[e], startEpoch + e)] else [];
        Test(startEpoch + e, accs[e], nets[e]);
        assert saved == saved0 + Saves(best0, startEpoch, accs[..e + 1], nets[..e + 1]) by {
          AppendAssoc(saved0, savesBefore, saving);
        }
        results := results + [(startEpoch + e, bestAcc)];
        assert results == results0 + Results(best0, startEpoch, accs[..e + 1]) by {
          AppendAssoc(results0, resultsBefore, [(startEpoch + e, bestAcc)]);
        }
      }
      assert accs[..Epochs] == accs && nets[..Epochs] == nets;
    }
  }
}
