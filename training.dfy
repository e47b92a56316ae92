/**
 * One epoch of `train` (prune.py:142-180) as far as pruning and the
 * watermark are concerned: the cyclic choice of a watermark sample per
 * batch, the re-mask pass into the checkpoint dictionary, and the optimizer
 * step. The forward and backward passes and SGD itself are not modelled:
 * the parameters the step produces are an input.
 */
module Training {
  import opened Wrappers
  import opened Selector
  import opened Checkpoints
  import opened Remask
  import Registry

  /** `(wm_idx + batch_idx) % len(wminputs)`: the sample appended to a batch. */
  function WatermarkIndex(wmIdx: nat, batchIdx: nat, n: nat): (k: nat)
    requires n > 0
    ensures k < n
  {
    (wmIdx + batchIdx) % n
  }

  /** The samples the first `batches` batches of an epoch append, in batch order. */
  function Schedule(wmIdx: nat, batches: nat, n: nat): (s: seq<nat>)
    requires n > 0
    ensures |s| == batches
    ensures forall b :: 0 <= b < batches ==> s[b] == WatermarkIndex(wmIdx, b, n)
  {
    if batches == 0 then [] else Schedule(wmIdx, batches - 1, n) + [WatermarkIndex(wmIdx, batches - 1, n)]
  }

  /** A positive multiple of `n` is at least `n`. */
  lemma {:induction false} MultipleAtLeast(d: int, n: int)
    requires d >= 1 && n > 0
    ensures d * n >= n
  {
    if d > 1 {
      MultipleAtLeast(d - 1, n);
      assert d * n == (d - 1) * n + n;
    }
  }

  /** Quotient and remainder are unique: `x == q * n + r` with `0 <= r < n` fixes `x % n`. */
  lemma ModUnique(x: int, q: int, r: int, n: int)
    requires n > 0 && 0 <= r < n && x == q * n + r
    ensures x % n == r
  {
    var q0, r0 := x / n, x % n;
    assert x == q0 * n + r0;
    if q > q0 {
      assert (q - q0) * n == q * n - q0 * n;
      MultipleAtLeast(q - q0, n);
    } else if q < q0 {
      assert (q0 - q) * n == q0 * n - q * n;
      MultipleAtLeast(q0 - q, n);
    }
  }

  /** Two batch indices less than `n` apart never pick the same sample. */
  lemma WindowInjective(wmIdx: nat, b1: nat, b2: nat, n: nat)
    requires n > 0 && b1 < b2 < b1 + n
    ensures WatermarkIndex(wmIdx, b1, n) != WatermarkIndex(wmIdx, b2, n)
  {
    var x1, x2 := wmIdx + b1, wmIdx + b2;
    var q1, r1 := x1 / n, x1 % n;
    assert x1 == q1 * n + r1;
    if x2 % n == r1 {
      var q2 := x2 / n;
      assert x2 == q2 * n + r1;
      assert (q2 - q1) * n == q2 * n - q1 * n == x2 - x1;
      if q2 - q1 >= 1 {
        MultipleAtLeast(q2 - q1, n);
      } else if q2 - q1 < 0 {
        assert (q1 - q2) * n == -((q2 - q1) * n);
        MultipleAtLeast(q1 - q2, n);
      }
    }
  }

  /**
   * Any `n` consecutive batches of an epoch, from `start` on, append every
   * watermark sample exactly once.
   */
  lemma WindowVisitsEach(wmIdx: nat, start: nat, n: nat, k: nat)
    requires n > 0 && k < n
    ensures exists b: nat :: start <= b < start + n && WatermarkIndex(wmIdx, b, n) == k
    ensures forall b1: nat, b2: nat ::
      (start <= b1 < start + n && start <= b2 < start + n &&
       WatermarkIndex(wmIdx, b1, n) == k && WatermarkIndex(wmIdx, b2, n) == k) ==> b1 == b2
  {
    var x := wmIdx + start;
    var q0, r0 := x / n, x % n;
    assert x == q0 * n + r0;
    if k >= r0 {
      var b: nat := start + (k - r0);
      ModUnique(wmIdx + b, q0, k, n);
      assert WatermarkIndex(wmIdx, b, n) == k;
    } else {
      var b: nat := start + (n - r0 + k);
      assert (q0 + 1) * n == q0 * n + n;
      ModUnique(wmIdx + b, q0 + 1, k, n);
      assert WatermarkIndex(wmIdx, b, n) == k;
    }
    forall b1: nat, b2: nat | start <= b1 < start + n && start <= b2 < start + n &&
      WatermarkIndex(wmIdx, b1, n) == k && WatermarkIndex(wmIdx, b2, n) == k
      ensures b1 == b2
    {
      if b1 < b2 {
        WindowInjective(wmIdx, b1, b2, n);
      } else if b2 < b1 {
        WindowInjective(wmIdx, b2, b1, n);
      }
    }
  }

  /**
   * The registry built at prune time is what the re-mask pass needs: its
   * addresses are distinct, its masks are 0/1, and each address names a
   * tensor of its mask's size in the pruned checkpoint.
   */
  lemma RegistryFitsRemask(net: StateDict, layers: seq<Entry>, orders: seq<seq<int>>, prune: real)
    requires Registry.OrdersFit(layers, orders) && UniqueKeys(layers)
    ensures var addresses, masks := Registry.Addresses(layers), Registry.Masks(layers, orders, prune);
      && Distinct(addresses)
      && (forall j :: 0 <= j < |masks| ==> Binary(masks[j]))
      && Fits(Registry.PrunedNet(net, layers, orders, prune), addresses, masks)
  {
    var addresses, masks := Registry.Addresses(layers), Registry.Masks(layers, orders, prune);
    var t := Registry.Targets(layers);
    Registry.AddressesMeaning(layers, orders, prune);
    Registry.PrunedNetTargets(net, layers, orders, prune);
    forall j | 0 <= j < |masks| ensures Binary(masks[j]) {
      MaskAsWrittenAt(orders[t[j]], PruneNum(|layers[t[j]].value|, prune));
    }
  }

  /** The names the re-mask pass rebinds: each address `zip` pairs with a mask. */
  function Rebound(addresses: seq<string>, masks: seq<Mask>): (r: seq<string>)
    ensures |r| == Zip(addresses, masks)
    ensures forall j :: 0 <= j < |r| ==> r[j] == addresses[j]
  {
    addresses[..Zip(addresses, masks)]
  }

  /**
   * `target` with each of `names` bound to its tensor in `source`, in order.
   * After a batch the checkpoint dictionary is the stepped live parameters
   * with the rebound names bound to their masked copies: `net.state_dict()`
   * hands out the live parameter tensors themselves, the step updates them
   * in place, and only the rebound names hold arrays of their own.
   */
  function Rebind(target: StateDict, source: StateDict, names: seq<string>): (r: StateDict)
    requires forall j :: 0 <= j < |names| ==> names[j] in source && names[j] in target
    ensures r.Keys == target.Keys
  {
    if |names| == 0 then target
    else
      var last := names[|names| - 1];
      Rebind(target, source, names[..|names| - 1])[last := source[last]]
  }

  /** Every rebound name reads its tensor in `source`; every other name keeps its tensor in `target`. */
  lemma {:induction false} RebindAt(target: StateDict, source: StateDict, names: seq<string>)
    requires forall j :: 0 <= j < |names| ==> names[j] in source && names[j] in target
    ensures forall j :: 0 <= j < |names| ==> Rebind(target, source, names)[names[j]] == source[names[j]]
    ensures forall k :: k in target && k !in names ==> Rebind(target, source, names)[k] == target[k]
  {
    if |names| > 0 {
      var init := names[..|names| - 1];
      RebindAt(target, source, init);
      assert names == init + [names[|names| - 1]];
    }
  }

  /**
   * The checkpoint dictionary after a batch whose pass read `before` and
   * whose step left `stepped`: the rebound entries hold the masked pre-step
   * values, and every other entry, being a live parameter, reads the stepped
   * value.
   */
  ghost predicate AfterStep(ckptNet: StateDict, before: StateDict, stepped: StateDict,
                            addresses: seq<string>, masks: seq<Mask>)
  {
    && Fits(before, addresses, masks)
    && ckptNet.Keys == before.Keys && stepped.Keys == before.Keys
    && (forall j :: 0 <= j < Zip(addresses, masks) ==>
          ckptNet[addresses[j]] == RemaskAll(before, addresses, masks)[addresses[j]])
    && (forall k :: k in ckptNet && k !in Rebound(addresses, masks) ==> ckptNet[k] == stepped[k])
  }

  /**
   * The checkpoint dictionary a batch leaves behind, as a rebinding: the
   * stepped live parameters with the rebound names bound to their masked
   * pre-step copies.
   */
  ghost predicate BatchLeaves(ckptNet: StateDict, before: StateDict, stepped: StateDict,
                              addresses: seq<string>, masks: seq<Mask>)
  {
    && Fits(before, addresses, masks) && stepped.Keys == before.Keys
    && ckptNet == Rebind(stepped, RemaskAll(before, addresses, masks), Rebound(addresses, masks))
  }

  /** The rebinding a batch leaves behind is the state `AfterStep` describes. */
  lemma BatchLeavesAfterStep(ckptNet: StateDict, before: StateDict, stepped: StateDict,
                             addresses: seq<string>, masks: seq<Mask>)
    requires BatchLeaves(ckptNet, before, stepped, addresses, masks)
    ensures AfterStep(ckptNet, before, stepped, addresses, masks)
  {
    RebindAt(stepped, RemaskAll(before, addresses, masks), Rebound(addresses, masks));
  }

  /**
   * With distinct addresses, each rebound entry after a batch is the
   * pre-step tensor times its own mask.
   */
  lemma AfterStepRegistered(ckptNet: StateDict, before: StateDict, stepped: StateDict,
                            addresses: seq<string>, masks: seq<Mask>)
    requires AfterStep(ckptNet, before, stepped, addresses, masks) && Distinct(addresses)
    ensures forall j :: 0 <= j < Zip(addresses, masks) ==>
      ckptNet[addresses[j]] == MulMask(before[addresses[j]], masks[j])
  {
    RemaskedAt(before, addresses, masks, Zip(addresses, masks));
  }

  /**
   * One batch as written (prune.py:165-172): the checkpoint dictionary gets
   * the current parameters with the registered positions masked, then the
   * optimizer step replaces the live parameters with `stepped`, which the
   * checkpoint's shared entries then show.
   */
  method TrainBatch(net: Network, ckpt: Checkpoint, addresses: seq<string>, masks: seq<Mask>, stepped: StateDict)
    requires net.Valid() && Fits(net.StateDict(), addresses, masks)
    requires stepped.Keys == net.StateDict().Keys
    modifies net, ckpt
    ensures BatchLeaves(ckpt.net, old(net.StateDict()), stepped, addresses, masks)
    ensures AfterStep(ckpt.net, old(net.StateDict()), stepped, addresses, masks)
    ensures ckpt.address == old(ckpt.address) && ckpt.mask == old(ckpt.mask)
    ensures net.Valid() && net.StateDict() == stepped && SameNames(net.state, old(net.state))
  {
    var live := net.StateDict();
    RemaskCheckpoint(ckpt, live, addresses, masks);
    net.LoadStateDict(stepped);
    // The step writes into the shared tensors, so the checkpoint dictionary
    // is the live parameters with only the rebound names kept apart.
    ckpt.net := Rebind(net.StateDict(), ckpt.net, Rebound(addresses, masks));
    BatchLeavesAfterStep(ckpt.net, live, stepped, addresses, masks);
  }

  /**
   * The batch order that keeps the weights zero, as the comment at
   * prune.py:98-99 intends: the optimizer step, then the mask applied to the
   * live parameters, so that every pruned weight is exactly zero whenever a
   * step has completed.
   */
  method TrainBatchMasked(net: Network, addresses: seq<string>, masks: seq<Mask>, stepped: StateDict)
    requires net.Valid() && stepped.Keys == KeySet(net.state) && Fits(stepped, addresses, masks)
    requires Distinct(addresses) && forall j :: 0 <= j < |masks| ==> Binary(masks[j])
    modifies net
    ensures net.Valid() && net.StateDict() == RemaskAll(stepped, addresses, masks)
    ensures SameNames(net.state, old(net.state))
    ensures PrunedZero(net.StateDict(), addresses, masks)
  {
    net.LoadStateDict(stepped);
    var masked := RemaskAll(net.StateDict(), addresses, masks);
    RemaskZeroes(stepped, addresses, masks);
    net.LoadStateDict(masked);
  }

  /**
   * A batch as written does not keep pruned weights at zero: the state below
   * is pruned, its masked copy goes to the checkpoint, and the step that
   * follows leaves the live parameter at a pruned position nonzero.
   */
  lemma LiveWeightsDrift()
    ensures var addresses, masks := ["layer1.0.conv2.weight"], [[0, 1]];
      var live := map["layer1.0.conv2.weight" := [0.0, 0.5]];
      var stepped := map["layer1.0.conv2.weight" := [0.25, 0.5]];
      && Fits(live, addresses, masks) && Fits(stepped, addresses, masks)
      && PrunedZero(live, addresses, masks)
      && RemaskAll(live, addresses, masks) == live
      && !PrunedZero(stepped, addresses, masks)
  {
    var addresses, masks := ["layer1.0.conv2.weight"], [[0, 1]];
    var live := map["layer1.0.conv2.weight" := [0.0, 0.5]];
    var stepped := map["layer1.0.conv2.weight" := [0.25, 0.5]];
    assert Zip(addresses, masks) == 1;
    assert MulMask(live[addresses[0]], masks[0]) == [0.0, 0.5];
    assert RemaskAll(live, addresses, masks) == Remasked(live, addresses, masks, 1);
    assert stepped[addresses[0]][0] != 0.0 && masks[0][0] == 0;
  }

  /**
   * The batch loop of one epoch. `steps[b]` are the parameters the optimizer
   * leaves after batch `b`; with watermark fine-tuning on, each batch appends
   * the sample `WatermarkIndex` picks, and the result lists them.
   */
  method RunBatches(net: Network, ckpt: Checkpoint, addresses: seq<string>, masks: seq<Mask>,
                    wmFineTune: bool, wmCount: nat, wmIdx: nat, steps: seq<StateDict>)
    returns (picked: seq<nat>)
    requires wmFineTune ==> wmIdx < wmCount
    requires net.Valid() && Fits(net.StateDict(), addresses, masks)
    requires forall b :: 0 <= b < |steps| ==> steps[b].Keys == net.StateDict().Keys && Fits(steps[b], addresses, masks)
    modifies net, ckpt
    ensures picked == if wmFineTune then Schedule(wmIdx, |steps|, wmCount) else []
    ensures net.Valid() && net.StateDict().Keys == old(net.StateDict().Keys)
    ensures SameNames(net.state, old(net.state))
    ensures ckpt.address == old(ckpt.address) && ckpt.mask == old(ckpt.mask)
    ensures |steps| == 0 ==> net.state == old(net.state) && ckpt.net == old(ckpt.net)
    ensures |steps| > 0 ==> net.StateDict() == steps[|steps| - 1]
    ensures |steps| > 1 ==> BatchLeaves(ckpt.net, steps[|steps| - 2], steps[|steps| - 1], addresses, masks)
    ensures |steps| == 1 ==> BatchLeaves(ckpt.net, old(net.StateDict()), steps[0], addresses, masks)
  {
    ghost var initial := net.StateDict();
    ghost var state0, net0 := net.state, ckpt.net;
    ghost var before := initial;
    picked := [];
    for batchIdx := 0 to |steps|
      invariant net.Valid() && SameNames(net.state, state0)
      invariant ckpt.address == old(ckpt.address) && ckpt.mask == old(ckpt.mask)
      invariant picked == if wmFineTune then Schedule(wmIdx, batchIdx, wmCount) else []
      invariant batchIdx == 0 ==> net.state == state0 && ckpt.net == net0
      invariant batchIdx > 0 ==> net.StateDict() == steps[batchIdx - 1]
      invariant batchIdx > 0 ==> BatchLeaves(ckpt.net, before, net.StateDict(), addresses, masks)
      invariant batchIdx == 1 ==> before == initial
      invariant batchIdx > 1 ==> before == steps[batchIdx - 2]
    {
      if wmFineTune {
        picked := picked + [WatermarkIndex(wmIdx, batchIdx, wmCount)];
      }
      before := net.StateDict();
      TrainBatch(net, ckpt, addresses, masks, steps[batchIdx]);
    }
  }

  /**
   * One epoch of `train`. With watermark fine-tuning on, `wm_idx` is drawn
   * once (an input here) and `np.random.randint(0)` raises on an empty
   * watermark set before any batch runs; otherwise the batch loop runs.
   */
  method TrainEpoch(net: Network, ckpt: Checkpoint, addresses: seq<string>, masks: seq<Mask>,
                    wmFineTune: bool, wmCount: nat, wmIdx: nat, steps: seq<StateDict>)
    returns (r: Result<seq<nat>>)
    requires wmFineTune && wmCount > 0 ==> wmIdx < wmCount
    requires net.Valid() && Fits(net.StateDict(), addresses, masks)
    requires forall b :: 0 <= b < |steps| ==> steps[b].Keys == net.StateDict().Keys && Fits(steps[b], addresses, masks)
    modifies net, ckpt
    ensures r.Failure? <==> wmFineTune && wmCount == 0
    ensures r.Failure? ==> r.error == EmptyRandomRange && net.state == old(net.state) && ckpt.net == old(ckpt.net)
    ensures r.Success? ==> r.value == if wmFineTune then Schedule(wmIdx, |steps|, wmCount) else []
    ensures net.Valid() && net.StateDict().Keys == old(net.StateDict().Keys)
    ensures SameNames(net.state, old(net.state))
    ensures ckpt.address == old(ckpt.address) && ckpt.mask == old(ckpt.mask)
    ensures r.Success? && |steps| == 0 ==> net.state == old(net.state) && ckpt.net == old(ckpt.net)
    ensures r.Success? && |steps| > 0 ==> net.StateDict() == steps[|steps| - 1]
    ensures r.Success? && |steps| > 1 ==> AfterStep(ckpt.net, steps[|steps| - 2], steps[|steps| - 1], addresses, masks)
    ensures r.Success? && |steps| == 1 ==> AfterStep(ckpt.net, old(net.StateDict()), steps[0], addresses, masks)
  {
    if wmFineTune && wmCount == 0 {
      return Failure(EmptyRandomRange);
    }
    ghost var initial := net.StateDict();
    var picked := RunBatches(net, ckpt, addresses, masks, wmFineTune, wmCount, wmIdx, steps);
    if |steps| > 0 {
      BatchLeavesAfterStep(ckpt.net, if |steps| == 1 then initial else steps[|steps| - 2], steps[|steps| - 1], addresses, masks);
    }
    return Success(picked);
  }
}
