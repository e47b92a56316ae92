/**
 * Construction of the mask registry (prune.py:100-113): every state-dict
 * entry whose name contains "conv2" is pruned by `prune_weights`; its name
 * goes to `addressbook`, its mask to `maskbook`, and its pruned weights
 * replace the entry in the checkpoint, which then stores both lists.
 */
module Registry {
  import opened Wrappers
  import opened Selector
  import opened Checkpoints

  /** `pat` occurs in `s` starting at position `i`. */
  predicate OccursAt(s: string, pat: string, i: int)
  {
    0 <= i && i + |pat| <= |s| && s[i..i + |pat|] == pat
  }

  /** Python's `pat in s` on strings. */
  function Contains(s: string, pat: string): (r: bool)
    ensures r <==> exists i :: OccursAt(s, pat, i)
    decreases |s|
  {
    if |s| < |pat| then false
    else if s[..|pat|] == pat then assert OccursAt(s, pat, 0); true
    else
      var r := Contains(s[1..], pat);
      forall i | OccursAt(s[1..], pat, i) ensures OccursAt(s, pat, i + 1) {
        assert s[1..][i..i + |pat|] == s[i + 1..i + 1 + |pat|];
      }
      forall i | OccursAt(s, pat, i) ensures OccursAt(s[1..], pat, i - 1) {
        assert i != 0;
        assert s[1..][i - 1..i - 1 + |pat|] == s[i..i + |pat|];
      }
      r
  }

  /** The selection rule at prune.py:103. */
  predicate IsTarget(key: string)
  {
    Contains(key, "conv2")
  }

  /** The positions holding `true`, in increasing order. */
  function Positions(flags: seq<bool>): (t: seq<int>)
    ensures forall j :: 0 <= j < |t| ==> 0 <= t[j] < |flags| && flags[t[j]]
    ensures forall i :: 0 <= i < |flags| && flags[i] ==> i in t
    ensures forall j, k :: 0 <= j < k < |t| ==> t[j] < t[k]
  {
    if |flags| == 0 then []
    else
      var n := |flags| - 1;
      var init := flags[..n];
      assert forall i :: 0 <= i < n ==> init[i] == flags[i];
      Positions(init) + if flags[n] then [n] else []
  }

  /** Whether each entry is selected, in enumeration order. */
  function TargetFlags(layers: seq<Entry>): (f: seq<bool>)
    ensures |f| == |layers|
  {
    seq(|layers|, i requires 0 <= i < |layers| => IsTarget(layers[i].key))
  }

  /** Positions of the entries the loop prunes, in enumeration order. */
  function Targets(layers: seq<Entry>): (t: seq<int>)
    ensures forall j :: 0 <= j < |t| ==> 0 <= t[j] < |layers| && IsTarget(layers[t[j]].key)
    ensures forall i :: 0 <= i < |layers| && IsTarget(layers[i].key) ==> i in t
    ensures forall j, k :: 0 <= j < k < |t| ==> t[j] < t[k]
  {
    var flags := TargetFlags(layers);
    assert forall i :: 0 <= i < |layers| ==> flags[i] == IsTarget(layers[i].key);
    Positions(flags)
  }

  /** One more entry adds its own position to the targets exactly when it is selected. */
  lemma TargetsSnoc(layers: seq<Entry>)
    requires |layers| > 0
    ensures var n := |layers| - 1;
      Targets(layers) == Targets(layers[..n]) + if IsTarget(layers[n].key) then [n] else []
  {
    var n := |layers| - 1;
    var flags := TargetFlags(layers);
    assert flags[..n] == TargetFlags(layers[..n]);
  }

  /** Each pruning target comes with an argsort of its own length. */
  predicate OrdersFit(layers: seq<Entry>, orders: seq<seq<int>>)
  {
    |orders| == |layers| &&
    forall i :: 0 <= i < |layers| && IsTarget(layers[i].key) ==> |orders[i]| == |layers[i].value|
  }

  /** The mask `prune_weights` returns for one entry. */
  function MaskFor(e: Entry, order: seq<int>, prune: real): (m: Mask)
    ensures |m| == |order|
  {
    MaskAsWritten(order, PruneNum(|e.value|, prune))
  }

  /** `addressbook`: the names of the pruned entries, in enumeration order. */
  function Addresses(layers: seq<Entry>): seq<string>
  {
    var t := Targets(layers);
    seq(|t|, j requires 0 <= j < |t| => layers[t[j]].key)
  }

  /** `maskbook`: the mask of each pruned entry, parallel to `Addresses`. */
  function Masks(layers: seq<Entry>, orders: seq<seq<int>>, prune: real): seq<Mask>
    requires |orders| == |layers|
  {
    var t := Targets(layers);
    seq(|t|, j requires 0 <= j < |t| => MaskFor(layers[t[j]], orders[t[j]], prune))
  }

  /** `checkpoint['net']` after the loop: each pruned entry replaced by its masked magnitudes, in order. */
  function PrunedNet(net: StateDict, layers: seq<Entry>, orders: seq<seq<int>>, prune: real): StateDict
    requires OrdersFit(layers, orders)
  {
    if |layers| == 0 then net
    else
      var n := |layers| - 1;
      var before := PrunedNet(net, layers[..n], orders[..n], prune);
      var e := layers[n];
      if IsTarget(e.key) then before[e.key := MaskedMagnitudes(e.value, MaskFor(e, orders[n], prune))]
      else before
  }

  /** One more entry extends the registry by that entry exactly when it is a target. */
  lemma RegistrySnoc(layers: seq<Entry>, orders: seq<seq<int>>, prune: real)
    requires |orders| == |layers| > 0
    ensures var n := |layers| - 1;
      && Addresses(layers) == Addresses(layers[..n]) + (if IsTarget(layers[n].key) then [layers[n].key] else [])
      && Masks(layers, orders, prune) == Masks(layers[..n], orders[..n], prune)
           + (if IsTarget(layers[n].key) then [MaskFor(layers[n], orders[n], prune)] else [])
  {
    TargetsSnoc(layers);
    AddressesSnoc(layers);
    MasksSnoc(layers, orders, prune);
  }

  lemma AddressesSnoc(layers: seq<Entry>)
    requires |layers| > 0
    requires var n := |layers| - 1;
      Targets(layers) == Targets(layers[..n]) + if IsTarget(layers[n].key) then [n] else []
    ensures var n := |layers| - 1;
      Addresses(layers) == Addresses(layers[..n]) + (if IsTarget(layers[n].key) then [layers[n].key] else [])
  {
    var n := |layers| - 1;
    var init := layers[..n];
    var t, t0 := Targets(layers), Targets(init);
    forall j | 0 <= j < |t0| ensures Addresses(layers)[j] == Addresses(init)[j] {
      assert t[j] == t0[j] && init[t0[j]] == layers[t[j]];
    }
  }

  lemma MasksSnoc(layers: seq<Entry>, orders: seq<seq<int>>, prune: real)
    requires |orders| == |layers| > 0
    requires var n := |layers| - 1;
      Targets(layers) == Targets(layers[..n]) + if IsTarget(layers[n].key) then [n] else []
    ensures var n := |layers| - 1;
      Masks(layers, orders, prune) == Masks(layers[..n], orders[..n], prune)
        + (if IsTarget(layers[n].key) then [MaskFor(layers[n], orders[n], prune)] else [])
  {
    var n := |layers| - 1;
    var init, initOrders := layers[..n], orders[..n];
    var t, t0 := Targets(layers), Targets(init);
    forall j | 0 <= j < |t0| ensures Masks(layers, orders, prune)[j] == Masks(init, initOrders, prune)[j] {
      assert t[j] == t0[j] && init[t0[j]] == layers[t[j]] && initOrders[t0[j]] == orders[t[j]];
    }
  }

  /** The registry holds exactly the names containing "conv2", each once when names are unique, and one mask per name. */
  lemma AddressesMeaning(layers: seq<Entry>, orders: seq<seq<int>>, prune: real)
    requires |orders| == |layers|
    ensures |Masks(layers, orders, prune)| == |Addresses(layers)|
    ensures forall a :: a in Addresses(layers) <==> a in KeySet(layers) && IsTarget(a)
    ensures UniqueKeys(layers) ==> forall j, k :: 0 <= j < k < |Addresses(layers)| ==>
      Addresses(layers)[j] != Addresses(layers)[k]
  {
    var t := Targets(layers);
    forall a | a in KeySet(layers) && IsTarget(a) ensures a in Addresses(layers) {
      var i :| 0 <= i < |layers| && layers[i].key == a;
      var j :| 0 <= j < |t| && t[j] == i;
      assert Addresses(layers)[j] == a;
    }
  }

  /** The loop adds the registered names to the checkpoint and leaves every other name as it was. */
  lemma {:induction false} PrunedNetUnchanged(net: StateDict, layers: seq<Entry>, orders: seq<seq<int>>, prune: real)
    requires OrdersFit(layers, orders)
    ensures forall k :: k in PrunedNet(net, layers, orders, prune) <==> k in net || k in Addresses(layers)
    ensures forall k :: k !in Addresses(layers) && k in net ==> PrunedNet(net, layers, orders, prune)[k] == net[k]
  {
    if |layers| > 0 {
      var n := |layers| - 1;
      assert forall i :: 0 <= i < n ==> layers[..n][i] == layers[i] && orders[..n][i] == orders[i];
      PrunedNetUnchanged(net, layers[..n], orders[..n], prune);
      RegistrySnoc(layers, orders, prune);
    }
  }

  /** With unique names, every registered name is bound to its own masked magnitudes. */
  lemma {:induction false} PrunedNetTargets(net: StateDict, layers: seq<Entry>, orders: seq<seq<int>>, prune: real)
    requires OrdersFit(layers, orders) && UniqueKeys(layers)
    ensures forall i :: 0 <= i < |layers| && IsTarget(layers[i].key) ==>
      && layers[i].key in PrunedNet(net, layers, orders, prune)
      && PrunedNet(net, layers, orders, prune)[layers[i].key]
           == MaskedMagnitudes(layers[i].value, MaskFor(layers[i], orders[i], prune))
  {
    if |layers| > 0 {
      var n := |layers| - 1;
      var init, initOrders := layers[..n], orders[..n];
      assert forall i :: 0 <= i < n ==> init[i] == layers[i] && initOrders[i] == orders[i];
      PrunedNetTargets(net, init, initOrders, prune);
    }
  }

  /** One iteration of the registry loop: entry `i` is registered and pruned exactly when it is a target. */
  lemma RegistryStep(net: StateDict, layers: seq<Entry>, orders: seq<seq<int>>, prune: real, i: nat)
    requires OrdersFit(layers, orders) && i < |layers|
    ensures OrdersFit(layers[..i + 1], orders[..i + 1])
    ensures var e := layers[i];
      && Addresses(layers[..i + 1]) == Addresses(layers[..i]) + (if IsTarget(e.key) then [e.key] else [])
      && Masks(layers[..i + 1], orders[..i + 1], prune)
           == Masks(layers[..i], orders[..i], prune) + (if IsTarget(e.key) then [MaskFor(e, orders[i], prune)] else [])
    ensures var e := layers[i];
      && OrdersFit(layers[..i], orders[..i])
      && PrunedNet(net, layers[..i + 1], orders[..i + 1], prune)
           == if IsTarget(e.key)
              then PrunedNet(net, layers[..i], orders[..i], prune)[e.key := MaskedMagnitudes(e.value, MaskFor(e, orders[i], prune))]
              else PrunedNet(net, layers[..i], orders[..i], prune)
  {
    var prefix, prefixOrders := layers[..i + 1], orders[..i + 1];
    assert prefix[..i] == layers[..i] && prefixOrders[..i] == orders[..i];
    assert forall j :: 0 <= j <= i ==> prefix[j] == layers[j] && prefixOrders[j] == orders[j];
    RegistrySnoc(prefix, prefixOrders, prune);
  }

  /** After the loop the checkpoint has exactly the network's names again, so strict loading accepts it. */
  lemma PrunedNetKeys(net: StateDict, layers: seq<Entry>, orders: seq<seq<int>>, prune: real)
    requires OrdersFit(layers, orders) && net.Keys == KeySet(layers)
    ensures PrunedNet(net, layers, orders, prune).Keys == KeySet(layers)
  {
    PrunedNetUnchanged(net, layers, orders, prune);
    AddressesMeaning(layers, orders, prune);
  }

  /**
   * The registry loop and the reload at prune.py:113. The argsort of each
   * target is an input: any permutation that sorts its magnitudes.
   */
  method PruneLayers(net: Network, ckpt: Checkpoint, orders: seq<seq<int>>, prune: real)
    returns (addressbook: seq<string>, maskbook: seq<Mask>)
    requires net.Valid() && ckpt.net.Keys == KeySet(net.state)
    requires OrdersFit(net.state, orders)
    requires forall i :: 0 <= i < |net.state| && IsTarget(net.state[i].key) ==>
      IsArgsort(orders[i], Magnitudes(net.state[i].value))
    modifies net, ckpt
    ensures addressbook == Addresses(old(net.state))
    ensures maskbook == Masks(old(net.state), orders, prune)
    ensures ckpt.net == PrunedNet(old(ckpt.net), old(net.state), orders, prune)
    ensures ckpt.address == Some(addressbook) && ckpt.mask == Some(maskbook)
    ensures net.Valid() && net.StateDict() == ckpt.net
    ensures |net.state| == |old(net.state)| && forall i :: 0 <= i < |net.state| ==> net.state[i].key == old(net.state[i].key)
  {
    var layers := net.state;
    ghost var net0 := ckpt.net;
    addressbook, maskbook := [], [];
    for i := 0 to |layers|
      modifies ckpt
      invariant OrdersFit(layers[..i], orders[..i])
      invariant addressbook == Addresses(layers[..i])
      invariant maskbook == Masks(layers[..i], orders[..i], prune)
      invariant ckpt.net == PrunedNet(net0, layers[..i], orders[..i], prune)
    {
      var k, v := layers[i].key, layers[i].value;
      RegistryStep(net0, layers, orders, prune, i);
      if IsTarget(k) {
        addressbook := addressbook + [k];
        var weights, masks, _ := PruneWeights(v, prune, orders[i]);
        maskbook := maskbook + [masks];
        ckpt.net := ckpt.net[k := weights];
      }
    }
    assert layers[..|layers|] == layers && orders[..|orders|] == orders;
    ckpt.address := Some(addressbook);
    ckpt.mask := Some(maskbook);
    PrunedNetKeys(net0, layers, orders, prune);
    net.LoadStateDict(ckpt.net);
  }
}
