/**
 * The re-mask pass inside `train` (prune.py:165-170): the checkpoint's
 * `'net'` entry is set to the network's state dict, then every registered
 * address is overwritten with its tensor times its mask.
 */
module Remask {
  import opened Selector
  import opened Checkpoints

  /** `old * mask`: the elementwise product of a tensor and its 0/1 mask. */
  function MulMask(t: Tensor, m: Mask): (r: Tensor)
    requires |m| == |t|
    ensures |r| == |t|
  {
    seq(|t|, i requires 0 <= i < |t| => t[i] * m[i] as real)
  }

  /** Number of pairs `zip(addressbook, maskbook)` yields. */
  function Zip(addresses: seq<string>, masks: seq<Mask>): nat
  {
    if |addresses| < |masks| then |addresses| else |masks|
  }

  /** Every registered address names a tensor of its mask's size (no KeyError, no broadcast). */
  predicate Fits(net: StateDict, addresses: seq<string>, masks: seq<Mask>)
  {
    forall j :: 0 <= j < Zip(addresses, masks) ==> addresses[j] in net && |net[addresses[j]]| == |masks[j]|
  }

  /** No address is registered twice (as when it comes from the keys of one dictionary). */
  predicate Distinct(addresses: seq<string>)
  {
    forall j, k :: 0 <= j < k < |addresses| ==> addresses[j] != addresses[k]
  }

  /** Every position a registered mask marks 0 holds exactly 0.0. */
  predicate PrunedZero(net: StateDict, addresses: seq<string>, masks: seq<Mask>)
    requires Fits(net, addresses, masks)
  {
    forall j, i :: 0 <= j < Zip(addresses, masks) && 0 <= i < |masks[j]| && masks[j][i] == 0 ==>
      net[addresses[j]][i] == 0.0
  }

  /** The state after the first `n` iterations of the loop; names and tensor sizes never change. */
  function Remasked(net: StateDict, addresses: seq<string>, masks: seq<Mask>, n: nat): (r: StateDict)
    requires Fits(net, addresses, masks) && n <= Zip(addresses, masks)
    ensures r.Keys == net.Keys
    ensures forall k :: k in net ==> |r[k]| == |net[k]|
  {
    if n == 0 then net
    else
      var before := Remasked(net, addresses, masks, n - 1);
      var a := addresses[n - 1];
      before[a := MulMask(before[a], masks[n - 1])]
  }

  /** The whole pass. */
  function RemaskAll(net: StateDict, addresses: seq<string>, masks: seq<Mask>): (r: StateDict)
    requires Fits(net, addresses, masks)
    ensures r.Keys == net.Keys && Fits(r, addresses, masks)
  {
    Remasked(net, addresses, masks, Zip(addresses, masks))
  }

  /**
   * With distinct addresses, after `n` iterations each of the first `n`
   * addresses holds its old tensor times its mask and every other name is
   * unchanged.
   */
  lemma {:induction false} RemaskedAt(net: StateDict, addresses: seq<string>, masks: seq<Mask>, n: nat)
    requires Fits(net, addresses, masks) && n <= Zip(addresses, masks) && Distinct(addresses)
    ensures forall j :: 0 <= j < n ==>
      Remasked(net, addresses, masks, n)[addresses[j]] == MulMask(net[addresses[j]], masks[j])
    ensures forall k :: k in net && k !in addresses[..n] ==> Remasked(net, addresses, masks, n)[k] == net[k]
  {
    if n > 0 {
      RemaskedAt(net, addresses, masks, n - 1);
      assert addresses[..n] == addresses[..n - 1] + [addresses[n - 1]];
      assert addresses[n - 1] !in addresses[..n - 1];
    }
  }

  /**
   * The pass zeroes every position a 0/1 mask marks 0 and keeps every
   * position it marks 1; names outside the registry are left alone.
   */
  lemma RemaskZeroes(net: StateDict, addresses: seq<string>, masks: seq<Mask>)
    requires Fits(net, addresses, masks) && Distinct(addresses)
    requires forall j :: 0 <= j < |masks| ==> Binary(masks[j])
    ensures PrunedZero(RemaskAll(net, addresses, masks), addresses, masks)
    ensures forall j, i :: 0 <= j < Zip(addresses, masks) && 0 <= i < |masks[j]| && masks[j][i] == 1 ==>
      RemaskAll(net, addresses, masks)[addresses[j]][i] == net[addresses[j]][i]
    ensures forall k :: k in net && k !in addresses ==> RemaskAll(net, addresses, masks)[k] == net[k]
  {
    var n := Zip(addresses, masks);
    RemaskedAt(net, addresses, masks, n);
  }

  /**
   * A state is left unchanged by the pass exactly when it is already pruned;
   * hence the pass is idempotent.
   */
  lemma RemaskFixpoint(net: StateDict, addresses: seq<string>, masks: seq<Mask>)
    requires Fits(net, addresses, masks) && Distinct(addresses)
    requires forall j :: 0 <= j < |masks| ==> Binary(masks[j])
    ensures RemaskAll(net, addresses, masks) == net <==> PrunedZero(net, addresses, masks)
  {
    var n := Zip(addresses, masks);
    var r := RemaskAll(net, addresses, masks);
    RemaskZeroes(net, addresses, masks);
    RemaskedAt(net, addresses, masks, n);
    if PrunedZero(net, addresses, masks) {
      forall k | k in net ensures r[k] == net[k] {
        if k in addresses[..n] {
          var j :| 0 <= j < n && addresses[..n][j] == k;
          assert addresses[j] == k;
          assert r[k] == MulMask(net[k], masks[j]);
          forall i | 0 <= i < |net[k]| ensures r[k][i] == net[k][i] {
            assert masks[j][i] == 0 || masks[j][i] == 1;
          }
        }
      }
    }
  }

  /** Applying the pass twice gives the same state as applying it once. */
  lemma RemaskIdempotent(net: StateDict, addresses: seq<string>, masks: seq<Mask>)
    requires Fits(net, addresses, masks) && Distinct(addresses)
    requires forall j :: 0 <= j < |masks| ==> Binary(masks[j])
    ensures RemaskAll(RemaskAll(net, addresses, masks), addresses, masks) == RemaskAll(net, addresses, masks)
  {
    RemaskZeroes(net, addresses, masks);
    RemaskFixpoint(RemaskAll(net, addresses, masks), addresses, masks);
  }

  /** The loop at prune.py:165-170, which writes into the checkpoint dictionary. */
  method RemaskCheckpoint(ckpt: Checkpoint, live: StateDict, addresses: seq<string>, masks: seq<Mask>)
    requires Fits(live, addresses, masks)
    modifies ckpt
    ensures ckpt.net == RemaskAll(live, addresses, masks)
    ensures ckpt.address == old(ckpt.address) && ckpt.mask == old(ckpt.mask)
  {
    ckpt.net := live;
    for j := 0 to Zip(addresses, masks)
      invariant ckpt.net == Remasked(live, addresses, masks, j)
      invariant ckpt.address == old(ckpt.address) && ckpt.mask == old(ckpt.mask)
    {
      ckpt.net := ckpt.net[addresses[j] := MulMask(ckpt.net[addresses[j]], masks[j])];
    }
  }
}
