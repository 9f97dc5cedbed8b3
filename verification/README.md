# StateBuffer and PPO bookkeeping, in Dafny

This project models the discrete core of `iem_ppo.py`, a PPO trainer with an
intrinsic "uncertainty" reward. It proves properties of that model.

- **`StateBuffer`** is the per-environment sliding window of feature
  embeddings. `add` tags each embedding with a counter that only grows. Once
  the window holds `num_steps` entries, each new entry evicts the oldest.
  `get_all_pairs` lists every ordered pair (i ≤ j) of retained entries, in
  row-major order, with the timestamp gap of each pair. Below two entries it
  returns `None, None, None` instead.
- **Training-loop arithmetic** covers the derived `batch_size`,
  `minibatch_size` and `num_iterations` (Python `//`), and the `global_step`
  counter of the rollout loop.
- **Minibatch slicing** covers how `b_inds[start:start+minibatch_size]` cuts a
  shuffled index array into the minibatches of one epoch.
- **Rollout feeding** covers one buffer per environment. Each rollout step adds
  one embedding per environment and advances `global_step` by `num_envs`.

Embeddings are an opaque type parameter `T`. `torch.stack` and `torch.tensor`
only turn the pair list into arrays, so the result of `get_all_pairs` is
modelled as three parallel sequences: earlier embeddings, later embeddings,
and gaps.

Modules, one file each:

| file | module | models |
|---|---|---|
| `numbers.dfy` | `Numbers` | `Min` and `Max` |
| `results.dfy` | `Results` | `Option` (Python `None`) and `Result` (a raised error) |
| `state_buffer.dfy` | `StateBuffers` | the buffer record, `__init__`, `add`, repeated adds, the consecutive-timestamp invariant |
| `pair_generation.dfy` | `PairGeneration` | `get_all_pairs` and its index, order, gap and zero-gap properties |
| `training_sizes.dfy` | `TrainingSizes` | floor division, the derived sizes, the `global_step` loop |
| `minibatches.dfy` | `Minibatches` | `range(0, batch_size, minibatch_size)` slicing over a permutation |
| `rollout.dfy` | `Rollout` | all environments' buffers together with `global_step` |

`num_minibatches` is documented as "the number of mini-batches"
(iem_ppo.py:69-70). The update loop does not always produce that many. It
slices with step `minibatch_size = batch_size // num_minibatches`
(iem_ppo.py:223 and 362), which gives `ceil(batch_size / minibatch_size)`
slices, and the last one is shorter when the division is not exact. A batch of
10 split 4 ways gives 5 slices of size 2. A batch of 10 split 3 ways gives 4
slices of sizes 3, 3, 3, 1. The model follows the loop.
`Minibatches.ExactMinibatchCount` proves that the count is `num_minibatches`
when it divides the batch size.

`get_all_pairs` reads the buffer but does not change it. In this model
`AllPairs` is a pure function of the buffer value, so the buffer and its
counter are unchanged by construction.

## Model

| member | source | states |
|---|---|---|
| `StateBuffers.Init` | iem_ppo.py:175-179 | a new buffer is empty, its counter is 0, its capacity is `num_steps`, and it satisfies the consecutive-timestamp invariant |
| `StateBuffers.Add` | iem_ppo.py:181-186 | the counter grows by exactly 1. The new entry is the newest and carries the old counter (unless the capacity is 0). Below capacity nothing is dropped. At capacity only the oldest entry goes and the rest keep their order. The length becomes `min(old + 1, capacity)`. The invariant is preserved |
| `StateBuffers.FillFromEmpty` | iem_ppo.py:178-186 | after `k` adds from empty the buffer holds the last `min(k, C)` embeddings in order, the counter is `k`, the oldest timestamp is `max(0, k - C)`, and the invariant holds |
| `PairGeneration.AllPairs` | iem_ppo.py:188-217 | the "none" result exactly when fewer than 2 entries are held; otherwise three columns of `n(n+1)/2` elements each |
| `PairGeneration.AllPairsComplete` | iem_ppo.py:201-210 | for every `i <= j < n`, the element at the row-major position of (i, j) is (entry i, entry j, `t_j - t_i`) |
| `PairGeneration.AllPairsSound` | iem_ppo.py:204-210 | every output position is the row-major position of some pair `i <= j < n`, so nothing else is listed |
| `PairGeneration.PositionOrder` | iem_ppo.py:204-205 | the outer loop over `i` and inner loop over `j` from `i` list the pairs in lexicographic (row-major) order, in both directions |
| `PairGeneration.GapsUnderInvariant` | iem_ppo.py:206-210 | for a buffer that keeps the invariant, the gap of (i, j) is `j - i`, so every gap lies in `0 .. n - 1` and none is negative |
| `PairGeneration.ZeroGapCount` | iem_ppo.py:204-210 | for a buffer that keeps the invariant, exactly `n` gaps are zero: the `i == j` pairs |
| `TrainingSizes.FloorDiv` | iem_ppo.py:223-224 | Python `//` rounds toward negative infinity, for either sign of divisor |
| `TrainingSizes.DerivedSizes` | iem_ppo.py:222-224 | a `ZeroDivisionError` exactly when `num_minibatches` or `batch_size` is 0. Otherwise `batch_size = num_envs * num_steps`. `minibatch_size` and `num_iterations` satisfy Python's floor-division bounds for either sign of divisor. For a positive `num_minibatches`, `minibatch_size` is the largest count whose `num_minibatches` copies fit in the batch. For a positive batch, `num_iterations` batches fit in `total_timesteps` with less than one batch left over. When `num_minibatches` divides the batch, `minibatch_size * num_minibatches == batch_size` |
| `TrainingSizes.CountSteps` | iem_ppo.py:276-291 | `global_step` equals `iteration * num_envs * num_steps` at the end of each iteration, and `max(num_iterations, 0) * batch_size` after the loop, since a non-positive `num_iterations` runs no iteration |
| `Minibatches.EpochMinibatches` | iem_ppo.py:362-364 | a zero step is a `ValueError`, a negative step gives no minibatches, and a positive step gives slices whose concatenation is exactly the shuffled index array |
| `Minibatches.SlicesPartition` | iem_ppo.py:362-364 | the slices from any `start` concatenate back to `b_inds[start:]` |
| `Minibatches.SliceSizes` | iem_ppo.py:362-364 | every slice but the last has `minibatch_size` indices, the last has between 1 and `minibatch_size`, and the number of slices is the ceiling of `batch_size / minibatch_size` |
| `Minibatches.SliceAt` | iem_ppo.py:362-364 | slice `k` is `b_inds[k*size : (k+1)*size]`, cut short at the end of the array |
| `Minibatches.PermutationDistinct` | iem_ppo.py:358-361 | a shuffled `arange(batch_size)` holds no index twice |
| `Minibatches.EpochCoversEveryIndex` | iem_ppo.py:358-364 | for any permutation of `0 .. batch_size - 1`, the minibatches of an epoch are pairwise disjoint and together contain every index exactly once and nothing else |
| `Minibatches.ExactMinibatchCount` | iem_ppo.py:362-364 | when `num_minibatches` divides a batch at least that large, there are exactly `num_minibatches` slices, all of size `batch_size / num_minibatches` |
| `Rollout.Start` | iem_ppo.py:273-276 | `global_step` starts at 0, with one empty buffer per environment, each of capacity `num_steps`, with counter 0 and satisfying the invariant |
| `Rollout.CollectStep` | iem_ppo.py:290-318 | one rollout step advances `global_step` by `num_envs` and every buffer's counter by 1, puts environment `e`'s embedding as the newest entry of buffer `e` (when its capacity is positive), keeping the number of buffers and each buffer's invariant |
| `Rollout.CollectPerEnvironment` | iem_ppo.py:317-318 | after `k` steps `global_step` is `k * num_envs`, and buffer `e` has seen exactly environment `e`'s embeddings, in order, with no resets |
| `Rollout.BuffersTrackGlobalStep` | iem_ppo.py:276-318 | after `k` steps every buffer keeps the invariant, `global_step == num_envs * current_timestamp`, each holds `min(k, num_steps)` entries, and the oldest timestamp is `max(0, k - num_steps)` |
| `Rollout.GlobalStepAtIterationEnd` | iem_ppo.py:283-291 | after `k` full iterations of `num_steps` steps, the collector's `global_step` is `k * num_envs * num_steps`, the same value `TrainingSizes.CountSteps` records at the end of iteration `k`, so the two members describe one counter |
| `Rollout.PairsAtUpdate` | iem_ppo.py:406-407 | once a full rollout has been collected, every buffer yields `num_steps(num_steps+1)/2` pairs when `num_steps >= 2`, and always the "none" result when `num_steps < 2` |

## Left out

- The `Agent` networks, `layer_init`, categorical sampling and the uncertainty head (iem_ppo.py:123-171). These are PyTorch calls whose behaviour is not visible here.
- GAE, the clipped policy and value losses, advantage normalisation, the KL estimates, explained variance, learning-rate annealing, and the `tanh` intrinsic reward with its mixing into the extrinsic reward (iem_ppo.py:308-322). These are floating-point tensor numerics.
- The `target_kl` early stop (iem_ppo.py:422-423). It compares floating-point estimates, and it only cuts the epoch loop short.
- `np.random.shuffle`. Its randomness is not modelled: each epoch's `b_inds` is taken to be an arbitrary permutation of `0 .. batch_size - 1`. Reshuffling the already-shuffled array again yields a permutation, so the same lemma covers every epoch.
- How the loss loop handles the "none" result (iem_ppo.py:407-411). Only the buffer's own result is modelled. `Rollout.PairsAtUpdate` shows when that result can occur.
- `.detach()`, `torch.stack`, `torch.tensor(..., device=...)` and `.view(-1, 1)`. These change representation or device, not values.
- Negative `num_steps` or `num_envs`. The buffer capacity and the counts in `TrainingSizes.CountSteps` are `nat`, because the tensors of shape `(num_steps, num_envs, ...)` allocated at iem_ppo.py:263-270 reject negative sizes before any buffer or loop is used. `TrainingSizes.DerivedSizes` still takes arbitrary integers, because it runs earlier.
- `Minibatches.EpochMinibatches` takes the batch size to be the length of `b_inds`. The two are equal for the non-negative batch sizes that reach this loop, because `b_inds = np.arange(batch_size)`.
- `make_env` and the wrapper stacks, `rle_assignment/ppo_eval.py`, `random_baseline.py` and `rle_assignment/env.py`. These are environment and checkpoint I/O with no logic of their own.
- TensorBoard/wandb logging, `tyro` CLI parsing, seeding, device selection and model saving.
