# Pruning bookkeeping of Deep-Compression.Pytorch, in Dafny

This project models the parts of the `prune.py` script that are not PyTorch plumbing. The script prunes a CIFAR-10 classifier by weight magnitude and then fine-tunes it, optionally with watermark samples appended to each batch. The model covers:

- **The weight selector `prune_weights`**: it ranks one layer's flattened magnitudes with `argsort`, builds a 0/1 mask in a zero-initialised array, counts the zeroed positions and returns `mask * |w|`. Module `Selector`.
- **The mask registry**: every state-dict entry whose name contains `"conv2"` is pruned. Its name goes to `addressbook`, its mask to `maskbook`, and its pruned tensor replaces the entry in the checkpoint dictionary. The checkpoint then stores both lists under `'address'` and `'mask'`, and the network reloads it. Modules `Checkpoints` and `Registry`.
- **The re-mask pass in `train`**: every registered entry of the checkpoint dictionary becomes `old * mask`. Module `Remask`.
- **The watermark filter**: two nested loops keep every inner and outer watermark image that is not the all-zero placeholder, together with its label. Module `Watermark`.
- **One training epoch**: the cyclic watermark index `(wm_idx + batch_idx) % N`, the re-mask pass and the optimizer step. Module `Training`.
- **The best-accuracy update in `test` and the epoch loop**, with its results file and the abort when `train` raises. Module `Evaluation`.

Tensors are flat sequences of `real`. Masks are sequences of `int`, because `np.zeros_like` of the integer `argsort` gives them that type. The script mutates its state in place, so the network, the checkpoint dictionary and the run session are classes whose methods say exactly what their new state is. Each of those methods is proved against specification functions (`MaskAsWritten`, `Addresses`, `Masks`, `PrunedNet`, `RemaskAll`, `GroupEntries`, `Schedule`, `Rebind`, `BestAfter`, `Saves`, `Results`), and the properties of those functions are proved as lemmas.

Inputs that the script gets from outside the core are parameters of the model:
- `argsort` is the `order` parameter, constrained only to be a permutation that sorts the magnitudes (`Selector.IsArgsort`). numpy's default sort is not stable, so equal magnitudes may come in any order.
- `wm_idx` is the parameter `wmIdx`.
- The parameters left by each optimizer step are the sequence `steps`.
- Each epoch's test accuracy is the sequence `accs`.

The model follows the code as written:
- The saved best checkpoint (prune.py:206-210) holds only weights, accuracy and epoch. It does not hold the address and mask lists, so no reload of the registry from it is modelled (`Evaluation.SavedState`).
- An empty watermark set makes `np.random.randint(0)` raise. `Training.TrainEpoch` returns `Failure(EmptyRandomRange)` before any batch runs.
- Ties between equal magnitudes are left to the sort, with no fixed order.
- The selector and the re-mask pass do not do what the comment at prune.py:98-99 intends, namely that the recorded locations keep the pruned weights at zero during training. Their behaviour is listed under "## Findings".
- `net.state_dict()` hands out the live parameter tensors, not copies. After the re-mask pass only the registered names of the checkpoint dictionary hold arrays of their own; every other entry is the live parameter and shows what the optimizer step writes into it. `Training.Rebind` models this by reading those entries back once the step has run; nothing reads the dictionary in between.

## Model

| member | source | states |
|---|---|---|
| Permutations.ComposePermutation | prune.py:79 | reading any sequence through an argsort permutation gives the same multiset of values; the zero-counting lemmas rest on this |
| Selector.Magnitudes | prune.py:77 | `np.abs` of the flattened tensor: same length, every entry is the absolute value of the input entry and is non-negative |
| Selector.RoundHalfEven | prune.py:82 | `np.round`: the result is within 1/2 of the input, and an exact tie goes to the even neighbour |
| Selector.PruneNumBounds | prune.py:82 | for a fraction in [0, 1], `prune_num = round(num*prune)` lies in `[0, num]` |
| Selector.MaskAsWrittenAt | prune.py:84-88 | the mask built by the loop is 0/1, and position `n` is 1 exactly when `argsort[n] > prune_num` |
| Selector.AsWrittenZeroCount | prune.py:83-88 | for every sorting permutation the mask has exactly `min(prune_num + 1, num)` zeros (none when `prune_num < 0`) |
| Selector.MaskedMagnitudesAt | prune.py:77-93 | the returned weights are non-negative, 0 where the mask is 0 and `abs(w[n])` where it is 1 |
| Selector.PruneWeights | prune.py:76-95 | `prune_weights`: returns the as-written mask and the masked magnitudes (line 95). The counter `count` is only printed (line 90); the model exposes it as an extra output and proves it equals the number of zeros, `min(prune_num + 1, num)` |
| Selector.KeepsByRankMeaning | prune.py:79-88 | a mask that keeps exactly the ranks `>= prune_num` is 0/1, has exactly `prune_num` zeros (clamped to `[0, num]`) and never prunes a larger magnitude than one it keeps |
| Selector.PruneWeightsByRank | prune.py:76-95 | corrected selector: writes each element's decision at its own position, zeroes exactly `prune_num` positions (clamped) holding the smallest magnitudes, and keeps the sign of every weight |
| SelectorScenarios.HalfOfFourAsWritten | prune.py:79-93 | on `[0.1, -0.9, 0.3, -0.2]` with fraction 0.5 the code gives mask `[0, 1, 0, 0]` and weights `[0, 0.9, 0, 0]` |
| SelectorScenarios.HalfOfFourByRank | prune.py:79-88 | on the same input the only rank-based mask is `[0, 1, 1, 0]` |
| Selector.ByRankReprune | prune.py:76-99 | pruning the corrected selector's output again with the same fraction gives back the same weights for any argsort, and the same mask when no kept weight is 0 |
| SelectorScenarios.RepruneMovesZeroAsWritten | prune.py:79-93 | on `[0.2, -0.9, 0.1, 0.3]` with fraction 0, whose magnitudes are distinct, the code gives mask `[1, 0, 1, 1]`; every argsort of the output `[0.2, 0, 0.1, 0.3]` then gives mask `[1, 1, 0, 1]`, so re-pruning moves the zero |
| SelectorScenarios.ZeroFractionAsWritten | prune.py:79-93 | on `[0.3, -0.1, 0.2]` with fraction 0 the code still zeroes one weight, the 0.2, and keeps the smaller 0.1 |
| Checkpoints.AsMap | prune.py:102 | the dictionary of an ordered state dict has exactly its names as keys, each bound to its own tensor |
| Checkpoints.Network.LoadStateDict | prune.py:113 | strict `load_state_dict`: names and order are kept, and the network's dictionary becomes the one loaded |
| Checkpoints.Checkpoint.constructor | prune.py:71 | the checkpoint as the script reads it before pruning: its `'net'` weights, with no address or mask list yet. A saved file may also hold `'acc'` and `'epoch'` (lines 206-210), which the script never reads |
| Registry.Contains | prune.py:103 | Python's `"conv2" in k`: true exactly when the pattern occurs at some position of the name |
| Registry.Targets | prune.py:102-103 | the positions of the selected entries: every position whose name contains `"conv2"`, and only those, in increasing order |
| Registry.AddressesMeaning | prune.py:100-108 | `addressbook` holds exactly the state-dict names containing `"conv2"`, has no repeats when names are unique, and `maskbook` has the same length |
| Registry.PrunedNetUnchanged | prune.py:109 | the loop only adds the registered names to the checkpoint dictionary; every other entry keeps its tensor |
| Registry.PrunedNetTargets | prune.py:106-109 | each registered name is bound to `prune_weights` of its own tensor |
| Registry.PruneLayers | prune.py:100-113 | the registry loop: `addressbook`, `maskbook` and the checkpoint dictionary are as specified, both lists are stored under `'address'` and `'mask'`, and the network reloads the pruned dictionary with its names in their old order |
| Remask.Remasked | prune.py:168-170 | the partial pass keeps the set of names and every tensor's size |
| Remask.RemaskedAt | prune.py:168-170 | after the pass each registered tensor is its old value times its mask, and every other name is unchanged |
| Remask.RemaskZeroes | prune.py:168-170 | with 0/1 masks, every position a mask marks 0 becomes exactly 0.0, every position it marks 1 keeps its value, and unregistered names are unchanged |
| Remask.RemaskFixpoint | prune.py:168-170 | the pass leaves a state unchanged exactly when every pruned position is already 0 |
| Remask.RemaskIdempotent | prune.py:168-170 | applying the pass twice gives the same dictionary as applying it once |
| Remask.RemaskCheckpoint | prune.py:165-170 | the checkpoint dictionary becomes the live state dict with every registered entry masked; the address and mask lists are untouched |
| Watermark.GroupEntriesBound | prune.py:126-138 | at most `2 * total_dims * samples_per_dim` pairs are collected |
| Watermark.SampleEntriesMembers | prune.py:131-138 | within one group, a pair is collected exactly when one of the visited samples contributes it as a kept inner or outer image |
| Watermark.GroupEntriesMembers | prune.py:130-138 | a pair is collected exactly when some group and sample contributes it: nothing else is added, and no kept image is lost |
| Watermark.NoPlaceholderCollected | prune.py:132-136 | no collected image is the all-zero placeholder |
| Watermark.FilterGroup | prune.py:131-138 | the inner loop appends, in sample order, the inner pair and then the outer pair of each sample whose image is not the placeholder |
| Watermark.FilterWatermarks | prune.py:126-139 | `wminputs` and `wmtargets` are the image and label columns of the collected pairs, so they are parallel; an index the loops read that does not exist gives an IndexError |
| Training.WatermarkIndex | prune.py:156-157 | the index appended to a batch is below the number of watermark samples |
| Training.Schedule | prune.py:152-157 | one watermark index per batch of the epoch; the index of batch `b` is `(wm_idx + b) % N` |
| Training.WindowInjective | prune.py:156-157 | two batches less than `N` apart never pick the same watermark sample |
| Training.WindowVisitsEach | prune.py:150-157 | any `N` consecutive batches pick every watermark sample exactly once |
| Training.RegistryFitsRemask | prune.py:100-112 | the registry built at prune time satisfies what the re-mask pass needs: distinct addresses, 0/1 masks, and each address bound to a tensor of its mask's size |
| Training.Rebind | prune.py:165-172 | rebinding names keeps the key set of the dictionary |
| Training.RebindAt | prune.py:165-172 | after rebinding, each rebound name holds the source's tensor and every other name keeps the target's |
| Training.BatchLeavesAfterStep | prune.py:165-172 | the dictionary a batch leaves (the stepped live tensors, with the rebound names bound to their masked copies) holds the masked pre-step tensor under each registered name and the stepped tensor under every other name |
| Training.AfterStepRegistered | prune.py:165-170 | with distinct addresses, each registered entry of that dictionary is the pre-step tensor times its own mask |
| Training.TrainBatch | prune.py:165-172 | one batch as written: the registered entries of the checkpoint dictionary hold the masked pre-step parameters, every other entry is the live tensor and reads the step's result, the live parameters become the step's result, unmasked, the network keeps its names in order, and the address and mask lists are unchanged |
| Training.TrainBatchMasked | prune.py:165-172 | corrected batch: the mask is applied to the live parameters after the step, so every pruned weight is exactly 0, and the network keeps its names in order |
| Training.LiveWeightsDrift | prune.py:165-172 | a pruned state whose masked copy equals itself, followed by a step, leaves a live weight nonzero at a pruned position |
| Training.RunBatches | prune.py:154-172 | the batch loop: the picked indices are the schedule, the address and mask lists are unchanged, the network keeps its names in order, with no batch nothing changes, and after the last batch the parameters are the last step's and the checkpoint dictionary is what that batch leaves |
| Training.TrainEpoch | prune.py:142-172 | an epoch: an empty watermark set raises before any batch and changes nothing; otherwise the batches pick `(wm_idx + b) % N`, with no batch nothing changes, and after the last batch the parameters are the last step's, the registered checkpoint entries hold the masked parameters from before that step and every other entry reads the step's result; the address and mask lists are never changed and the network keeps its names in order |
| Evaluation.BestAfterIsMax | prune.py:203-214 | `best_acc` after the tested epochs is the maximum of its start value and every accuracy |
| Evaluation.BestNeverDecreases | prune.py:203-220 | `best_acc` never decreases from one epoch to a later one |
| Evaluation.ResultsAt | prune.py:220-223 | entry `e` of the results file, written as lines `2e` and `2e+1`, holds epoch `start_epoch + e` and the `best_acc` reached after testing it |
| Evaluation.ResultsSorted | prune.py:218-223 | the best accuracies written to the results file are sorted |
| Evaluation.SavesMeaning | prune.py:204-214 | each save has a strictly higher accuracy than the one before and than the start value; the last save holds the final `best_acc`; with no save, `best_acc` is unchanged |
| Evaluation.Session.constructor | prune.py:34 | `best_acc` starts at 0, with nothing saved and nothing written |
| Evaluation.Session.Test | prune.py:203-214 | a save happens and `best_acc` is replaced exactly when the accuracy is strictly greater |
| Evaluation.Session.Run | prune.py:218-223 | the epoch loop: with watermark fine-tuning on and an empty watermark set the first `train` raises, and nothing is saved or written; otherwise, over the 20 epochs, `best_acc`, the saved states and the results file are those the specification functions give |

## Findings

| source | as written | input that shows it | evidently intended | confidence | as-written member | corrected member |
|---|---|---|---|---|---|---|
| prune.py:85-87 | the loop compares the argsort entry, which is an original index, with `prune_num`, and writes the result at the sorted position `n`; the mask is not tied to magnitude | `[0.3, -0.1, 0.2]`, fraction 0: the 0.2 is pruned and the smaller 0.1 is kept | the element of ascending rank `n` is kept iff `n >= prune_num`, and the mask is written at that element's own position | high; not executed | Selector.PruneWeights, SelectorScenarios.ZeroFractionAsWritten | Selector.PruneWeightsByRank |
| prune.py:86 | `rankedweight > prune_num` zeroes `min(prune_num + 1, num)` positions, one more than asked | `[0.1, -0.9, 0.3, -0.2]`, fraction 0.5: three zeros instead of two | exactly `prune_num` zeros | high; not executed | Selector.AsWrittenZeroCount, SelectorScenarios.HalfOfFourAsWritten | Selector.PruneWeightsByRank |
| prune.py:77-93 | the mask multiplies the absolute values, so every returned weight is non-negative and the pruned layer loses all signs | `[0.1, -0.9, 0.3, -0.2]`, fraction 0.5: returns `[0, 0.9, 0, 0]` | the mask times the original weights, `[0, -0.9, 0.3, 0]` | high; not executed | Selector.MaskedMagnitudesAt, SelectorScenarios.HalfOfFourAsWritten | Selector.PruneWeightsByRank |
| prune.py:79-93 | the as-written zeros sit at positions unrelated to magnitude, so pruning the output again with the same fraction moves them, even when all magnitudes are distinct | `[0.2, -0.9, 0.1, 0.3]`, fraction 0: mask `[1, 0, 1, 1]`, then `[1, 1, 0, 1]` on the output | pruning an already pruned tensor with the same fraction reproduces its weights, and its mask when no kept weight is 0 | high; not executed | SelectorScenarios.RepruneMovesZeroAsWritten | Selector.ByRankReprune |
| prune.py:165-172 | the re-mask pass writes masked copies into the checkpoint dictionary before `optimizer.step()`; the live network is never masked, so pruned weights drift | the state of `Training.LiveWeightsDrift`: pruned weight 0.0 stepped to 0.25 | mask the live parameters after each step | high; not executed | Training.TrainBatch, Training.LiveWeightsDrift | Training.TrainBatchMasked |

The registry loop (`Registry.PruneLayers`) calls the as-written selector, and the epoch (`Training.TrainEpoch`) runs the as-written batch, because that is what the script does. Their proved properties do not depend on the choice: the registry layout holds for any selector, and the re-mask lemmas hold for any 0/1 masks. The corrected members are proved alongside them.

## Left out

- Training.TrainBatch, Training.RunBatches, Training.TrainEpoch: the sharing of tensors between the live network and the checkpoint dictionary is represented by reading the shared entries back at the end of each batch (`Training.Rebind`), not by references; the dictionary is not read anywhere in between.
- Evaluation.Session.Run: each epoch's `train` call is represented only by whether it raises (the watermark switches, under the same condition as `Training.TrainEpoch`'s failure) and by the accuracies `accs` and parameters `nets` its epochs lead to.
- Tensor and device mechanics are not modelled: `.cpu()`, `.cuda()`, `.to(device)`, `DataParallel`, cudnn and reshaping. Tensors are flat sequences.
- `torch.equal(zeros, img)` is modelled as "the image has 3072 elements, all 0". The model does not see the difference between two shapes with the same number of elements.
- The forward pass, cross-entropy loss, backward pass and SGD step are left out because they are floating-point numerics in library code. The parameters each step leaves are the input `steps`.
- The watermark batch concatenation (`torch.cat`) is not modelled. Only the index of the sample it appends is.
- Dataset loading, transforms and `DataLoader` workers are left out as I/O and concurrency.
- The running loss and accuracy of `train` and `test` are left out because they only feed the progress display. Each epoch's test accuracy is an input.
- Model construction (`ResNet18`, `VGG`) is left out: the `models` module is not part of this model.
- `torch.load`, `torch.save`, the directory checks and the results-file append are file I/O. The saves and the appended lines are recorded as sequences in `Evaluation.Session`.
- argparse, `print` and `progress_bar` are left out.
- `np.round(num*prune)` is computed exactly on reals, with half-to-even rounding. The floating-point error of the product is not modelled.
- `np.random.randint` is left out: `wm_idx` is a parameter in `[0, N)`.
- `argsort`'s algorithm is left out: the model accepts any permutation that sorts the magnitudes.
- Remask.RemaskCheckpoint: requires every registered address to be present with a tensor of its mask's size. Otherwise the source raises a KeyError or a broadcasting error, or it silently stores a broadcast tensor when the shapes differ but broadcast. A registry built from the same state dict always meets this (`Training.RegistryFitsRemask`).
- Checkpoints.Network.LoadStateDict: requires the names to match, which strict loading checks by raising. Size mismatches are not modelled.
- Selector.ByRankReprune: the same mask is promised only when no kept weight is 0. When a kept weight is 0, the second pass may prune that zero instead of another one; the weights it returns are the same either way.
- The `wmFtune` switch around the filter is not modelled separately. When it is off, the script builds empty lists, and `Training.TrainEpoch` picks no watermark index.
