/**
 * The state the pruning script mutates: the live network's ordered state
 * dict and the checkpoint dictionary loaded from disk (prune.py:69-72).
 * Tensors are flattened to sequences of reals; masks hold the 0/1 integers
 * `np.zeros_like` of the int `argsort` gives them.
 */
module Checkpoints {
  import opened Wrappers

  type Tensor = seq<real>
  type Mask = seq<int>
  type StateDict = map<string, Tensor>

  /** One entry of `net.state_dict()`: a parameter name and its flattened values. */
  datatype Entry = Entry(key: string, value: Tensor)

  predicate UniqueKeys(entries: seq<Entry>)
  {
    forall i, j :: 0 <= i < j < |entries| ==> entries[i].key != entries[j].key
  }

  function KeySet(entries: seq<Entry>): set<string>
  {
    set i | 0 <= i < |entries| :: entries[i].key
  }

  /** `entries` lists the names of `before`, in the same order. */
  predicate SameNames(entries: seq<Entry>, before: seq<Entry>)
  {
    |entries| == |before| && forall i :: 0 <= i < |entries| ==> entries[i].key == before[i].key
  }

  /** The dictionary an ordered state dict stands for: every name bound to its own tensor. */
  function AsMap(entries: seq<Entry>): (m: StateDict)
    requires UniqueKeys(entries)
    ensures m.Keys == KeySet(entries)
    ensures forall i :: 0 <= i < |entries| ==> m[entries[i].key] == entries[i].value
  {
    if |entries| == 0 then map[]
    else
      var last := entries[|entries| - 1];
      var init := entries[..|entries| - 1];
      KeySetSnoc(entries);
      AsMap(init)[last.key := last.value]
  }

  /** Splitting off the last entry of an ordered state dict with unique names. */
  lemma KeySetSnoc(entries: seq<Entry>)
    requires |entries| > 0 && UniqueKeys(entries)
    ensures UniqueKeys(entries[..|entries| - 1])
    ensures KeySet(entries) == KeySet(entries[..|entries| - 1]) + {entries[|entries| - 1].key}
    ensures forall i :: 0 <= i < |entries| - 1 ==>
      entries[..|entries| - 1][i] == entries[i] && entries[i].key != entries[|entries| - 1].key
  {
    var init := entries[..|entries| - 1];
    assert forall i :: 0 <= i < |init| ==> init[i] == entries[i];
  }

  /** Rebinding every name of an ordered state dict to its value in `sd` gives `sd` itself. */
  lemma AsMapOfLoaded(current: seq<Entry>, loaded: seq<Entry>, sd: StateDict)
    requires UniqueKeys(current) && sd.Keys == KeySet(current) && |loaded| == |current|
    requires forall i :: 0 <= i < |current| ==> loaded[i] == Entry(current[i].key, sd[current[i].key])
    ensures UniqueKeys(loaded) && KeySet(loaded) == KeySet(current)
    ensures AsMap(loaded) == sd
  {
    assert forall i :: 0 <= i < |current| ==> loaded[i].key == current[i].key;
    var m := AsMap(loaded);
    forall k | k in sd ensures k in m && m[k] == sd[k] {
      var i :| 0 <= i < |loaded| && loaded[i].key == k;
    }
  }

  /** The live model: its named parameters in registration order. */
  class Network {
    var state: seq<Entry>

    ghost predicate Valid()
      reads this
    {
      UniqueKeys(state)
    }

    function StateDict(): StateDict
      reads this
      requires Valid()
    {
      AsMap(state)
    }

    constructor (state: seq<Entry>)
      requires UniqueKeys(state)
      ensures Valid() && this.state == state
    {
      this.state := state;
    }

    /**
     * `net.load_state_dict(sd)` in its default strict form: the names must
     * match the network's own; every parameter takes the value `sd` gives it,
     * and the enumeration order does not change.
     */
    method LoadStateDict(sd: StateDict)
      requires Valid() && sd.Keys == KeySet(state)
      modifies this
      ensures Valid() && |state| == |old(state)|
      ensures forall i :: 0 <= i < |state| ==> state[i].key == old(state[i].key)
      ensures StateDict() == sd
    {
      var current := state;
      var loaded := seq(|current|, i requires 0 <= i < |current| => Entry(current[i].key, sd[current[i].key]));
      AsMapOfLoaded(current, loaded, sd);
      state := loaded;
    }
  }

  /** The checkpoint dictionary: `'net'` plus, once pruned, `'address'` and `'mask'`. */
  class Checkpoint {
    var net: StateDict
    var address: Option<seq<string>>
    var mask: Option<seq<Mask>>

    /**
     * `torch.load` of a checkpoint written before pruning, as the script reads
     * it: only its `'net'` weights; the `'acc'` and `'epoch'` a saved file
     * also holds are never read, and there is no address or mask list yet.
     */
    constructor (net: StateDict)
      ensures this.net == net && address == None && mask == None
    {
      this.net := net;
      address := None;
      mask := None;
    }
  }
}
