# PPO and A2C training scripts: the sequential core

This project models the deterministic bookkeeping around the neural-network
calls in two CartPole training scripts. One is a PPO trainer with clipped
surrogate and periodically synchronised target networks (`ppo.py`). The
other is an advantage actor-critic trainer (`a2c.py`). All arithmetic is exact
(`real`). The environment, the action sampler, the value network, `exp` and
the log-probabilities are oracles or inputs. Network parameters are opaque
values of a type parameter `P`.

Modules:

- `RealSeqs` (realseqs.dfy): sums, means, dot products, powers and element-wise
  products over `seq<real>`. These stand in for the tensor reductions.
- `Returns` (returns.dfy): `discount_reward`, the backward recurrence shared by
  both scripts, and the advantages `qs - vs`, both per step and as the
  broadcast matrix the scripts actually compute.
- `ClosedForm` (closedform.dfy): the closed form of the returns for the
  scripts' discount 0.99, against an independently defined discounted sum.
- `Rollouts` (rollouts.dfy): the oracle types for `env.step` and the sampler,
  the predicate saying a recorded trajectory follows them, the definition of a
  complete rollout, and the uniqueness of rollouts.
- `Training` (training.dfy): the running-reward update
  `0.99 * rr + 0.01 * steps`, the strict solved test, and the running reward
  after a sequence of episodes.
- `Ppo` (ppo.dfy):
  - `roll_out`, with its bootstrap value;
  - the clipped surrogate and actor loss;
  - the importance ratio;
  - the as-written broadcast loss;
  - one iteration of `main`, with the target synchronisation.
- `A2c` (a2c.dfy):
  - the one-hot `roll_out`;
  - log-probability selection;
  - the `discount_reward` loop;
  - the actor loss and its as-written broadcast form;
  - one iteration of `main` and the stop-at-first-solved property of the loop.

## Model

| member | source | states |
|---|---|---|
| Returns.Accumulate | ppo.py:103-106 | The backward loop over `t-1 .. 0` with running sum `running` yields `t` returns. The last one adds the discounted running sum, and each earlier one adds the discounted next return. |
| Returns.DiscountReward | ppo.py:101-107 | One return per reward, so an empty input gives an empty output. The last return is `r[T-1] + gamma * final_r`, and `d[t] = r[t] + gamma * d[t+1]` for every earlier `t`. |
| Returns.RecurrenceDeterminesReturns | ppo.py:101-107 | Any sequence that satisfies the length, last-element and recurrence conditions is exactly the output of `discount_reward`, so those three facts specify it completely. |
| ClosedForm.ReturnClosedForm | ppo.py:101-107 | With the scripts' discount 0.99, return `t` is the discounted sum of the rewards from `t` on plus `0.99^(T-t) * final_r`. This is checked against an independent definition that sums the series from its last term. |
| Returns.BroadcastAdvantages | ppo.py:118 | `qs - vs` with `vs` of shape [T, 1] is a matrix with one row per value and one column per return. Entry `(i, j)` is `qs[j] - vs[i]`. |
| Returns.PerStepIsDiagonal | ppo.py:118 | The intended per-step advantages `qs[t] - vs[t]` are the diagonal of the broadcast matrix. Every other entry differs from the per-step advantage of its column by `vs[j] - vs[i]`. |
| Returns.BroadcastExample | a2c.py:95 | Returns [1, 2] and values [0, 2] have per-step advantages [1, 0], but the broadcast matrix is [[1, 2], [-1, 0]]. |
| Rollouts.RolloutUnique | ppo.py:85-96 | Two complete rollouts from the same start, under the same environment and sampler and with the same budget, record identical states and rewards. |
| Ppo.RollOut | ppo.py:78-99 | A zero budget is an error, because `step` is never bound. Otherwise the rollout has these properties: 1) it follows the oracles; 2) it has between 1 and `sample_nums` steps; 3) it has as many actions as states, each one the sampled index; 4) `step` is the length minus 1; 5) it is cut short only by `done`. 6) `final_r` is exactly 0 after `done`, and otherwise it is the value oracle on the state reached after the full budget. |
| Ppo.Clamp | ppo.py:127 | The clamped ratio lies in `[lo, hi]`. It is the ratio itself when the ratio is inside, `lo` below the range and `hi` above it. |
| Ppo.Surrogate | ppo.py:126-129 | `min(surr1, surr2)` never exceeds the unclipped `ratio * A` or the clipped term. It equals `ratio * A` when the ratio is inside `[0.8, 1.2]`, and equals `A` when the ratio is 1. |
| Ppo.SurrogateBySign | ppo.py:126-129 | Independent reading of the clipped objective: `min(ratio, 1.2) * A` for non-negative advantages and `max(ratio, 0.8) * A` for negative ones. |
| Ppo.ClippedLossBoundsUnclipped | ppo.py:126-129 | With per-step advantages (the corrected loss of the second Findings row), the clipped actor loss is never below the loss of the unclipped surrogate `-mean(ratio * A)`. `Ppo.AsWrittenLossBoundsUnclipped` states the same for the loss as written. |
| Ppo.UnitRatioLoss | ppo.py:125-129 | With per-step advantages (the corrected loss), when every ratio is 1 the actor loss is minus the mean advantage. `Ppo.AsWrittenUnitRatioLoss` states it for the loss as written. |
| Ppo.BroadcastSumBoundedByUnclipped | ppo.py:118-129 | Over the whole broadcast matrix, the sum of the clipped objectives never exceeds the sum of the unclipped products `ratio * (qs[j] - vs[i])`. |
| Ppo.AsWrittenLossBoundsUnclipped | ppo.py:115-129 | The as-written clipped loss over the broadcast matrix is never below the as-written unclipped loss `-mean(ratio * (qs - vs))` over the same matrix. |
| Ppo.AsWrittenUnitRatioLoss | ppo.py:115-129 | When every ratio is 1, the as-written loss is `-(mean(qs) - mean(vs))`. Every return is weighed against every value. |
| Ppo.SyncedRatioIsOne | ppo.py:121-127 | If live and target policies are equal and `exp(0) = 1`, then every importance ratio is 1 and its clipped objective is the advantage. |
| Ppo.RowIsObjectives | ppo.py:118-129 | Row `i` of the broadcast objective matrix sums the per-step clipped objectives, with every value replaced by the single value `vs[i]`. |
| Ppo.PerfectlyPredictedStepIgnored | ppo.py:118-129 | With per-step advantages, the ratio of a step whose value equals its return does not affect the loss. |
| Ppo.AsWrittenCountsPredictedStep | ppo.py:115-129 | Returns [1, 2] and values [0, 2] give the second step advantage 0. Even so, raising its ratio from 1 to 1.1 moves the as-written loss from -0.5 to -0.55, while the per-step loss does not change. |
| Ppo.Start | ppo.py:64-72 | The targets are loaded from the live parameters. Training starts with running reward 10 (ppo.py:144) at episode 1, the first value of `count(1)` (ppo.py:147). |
| Ppo.Step | ppo.py:147-162 | One episode applies the running-reward update and takes the updated live parameters. It reports solved exactly when the new running reward exceeds the threshold. It changes the targets only on a non-solving episode divisible by 10, and such an episode leaves targets equal to live. |
| Ppo.TargetFrozenBetweenSyncs | ppo.py:159-162 | A run of episodes none of which is divisible by 10 leaves the targets as they were. |
| Ppo.SyncedAfterDivisibleEpisode | ppo.py:150-162 | After a non-solving episode divisible by 10, the next update's targets equal the live parameters it starts from. |
| Training.UpdateRunningReward | ppo.py:149 | The new running reward lies between the old one and `steps`, inclusive, and its distance to `steps` shrinks by the factor 0.99. |
| Training.RepeatConverges | ppo.py:149 | With the same `steps` every episode, the distance of the running reward to `steps` after `n` episodes is `0.99^n` times the initial distance. |
| Training.DecayPowBounds | ppo.py:149 | The contraction factor `0.99^n` stays in `[0, 1]` and never grows with `n`. |
| A2c.OneHot | a2c.py:75 | The action vector has length `ACTION_DIM`, with a 1 exactly at the chosen index and 0 everywhere else. |
| A2c.OneHotSumsToOne | a2c.py:75 | A one-hot action vector sums to 1. |
| A2c.SelectsTakenAction | a2c.py:96 | `sum(logp * onehot(a))` is `logp[a]`, the log-probability of the taken action. |
| A2c.SelectedLogProbsOfOneHots | a2c.py:86-96 | Over a whole batch of one-hot actions, the row sums are exactly the taken actions' log-probabilities. |
| A2c.RollOut | a2c.py:64-83 | The rollout has these properties: 1) it follows the oracles; 2) it has between 1 and 1000 steps and is cut short only by `done`; 3) every recorded action is the one-hot vector of a sampled index in `[0, ACTION_DIM)`; 4) `step` is the length minus 1. |
| A2c.DiscountReward | a2c.py:110-116 | The zero-seeded loop returns exactly the PPO estimator with bootstrap value 0. It preserves length, and its last element is the last reward. |
| A2c.HalfDiscountExample | a2c.py:110-116 | Rewards [1, 1, 1] discounted by 0.5 give [1.75, 1.5, 1.0]. |
| A2c.RowSum | a2c.py:95-96 | Row `i` of the broadcast matrix is `dot(selected, qs) - vs[i] * sum(selected)`. |
| A2c.RowIsWeightedAdvantages | a2c.py:95-96 | Row `i` of the broadcast matrix is the sum of the selected log-probabilities times the advantages computed against the single value `vs[i]`. |
| A2c.BroadcastSumClosed | a2c.py:95-96 | Summed over all rows, the broadcast matrix is `T * dot(selected, qs) - sum(vs) * sum(selected)`. |
| A2c.AsWrittenUsesBatchMeanBaseline | a2c.py:91-96 | The as-written loss equals the per-step actor loss with every value replaced by the batch mean `mean(vs)`. |
| A2c.PerfectlyPredictedStepIgnored | a2c.py:95-96 | With per-step advantages, the selected log-probability of a step whose value equals its return does not affect the loss. |
| A2c.AsWrittenCountsPredictedStep | a2c.py:91-96 | Returns [1, 2] and values [0, 2] give the second step advantage 0. Even so, raising its selected log-probability from 0 to 1 moves the as-written loss from 0 to -0.5, while the per-step loss does not change. |
| A2c.Start | a2c.py:119 | Training starts at episode 1 with running reward 10. |
| A2c.Step | a2c.py:122-133 | One episode applies the running-reward update and takes the updated parameters. It reports solved exactly when the new running reward strictly exceeds the threshold. |
| A2c.RunStopsAtFirstSolved | a2c.py:122-133 | The loop stops at the first episode whose updated running reward strictly exceeds the threshold, and not before. It reports that episode's running reward. If the loop never stops, no episode crossed the threshold. |

## Left out

- Network layers, `log_softmax`, `Categorical`, gradients, `backward`, Adam and the value network's `MSELoss` step are left out. Network outputs are oracles or inputs, and an update is an opaque function on `P`.
- The `exp` in the PPO ratio (ppo.py:125) and in the A2C action probabilities (a2c.py:73) is not modelled exactly. It is an oracle, and the ratio is an input of the loss.
- Sampling randomness (`dist.sample()`, `np.random.choice`) is modelled as an oracle that picks an index from the state and the step number.
- The gym environment (`reset`, `step`, `render`, `close`) is left out. `env.step` is an oracle on an abstract state, and the reset state is a parameter.
- The unbounded `count(1)` loop is modelled by `Run`, which takes a finite script of the rollouts' `step` values.
- The evaluation loops and all printing are left out. The PPO evaluation loop calls `actor_network`, which that script never defines (ppo.py:168), so it cannot run as written.
- IEEE float rounding and tensor dtypes are replaced by exact reals. Examples are `np.zeros_like` inheriting an integer reward dtype, and `final_r` being a tensor when bootstrapped.
- `Categorical` built on the `log_softmax` output (ppo.py:45-46) treats log-probabilities as probabilities. This is a network-layer matter and is not modelled.
- ClosedForm.ReturnClosedForm: proved only for the scripts' discount factor 0.99, not for every `gamma`. The recurrence and its uniqueness are proved for every `gamma`.
- A2c.RollOut: requires that the sampler only returns indices below `ACTION_DIM`. `np.random.choice(ACTION_DIM, ...)` promises this, and it is not checked at run time.
- Ppo.ActorLossAsWritten and A2c.ActorLossAsWritten compute the mean of all T*T broadcast entries as the mean of the T row means. This equals the plain mean for exact reals.

## Findings

| source | as written | input that shows it | evidently intended | confidence | as-written member | corrected member |
|---|---|---|---|---|---|---|
| a2c.py:95-96 | `vs` has shape [T, 1] and `qs` shape [T], so `qs - vs` broadcasts to a T-by-T matrix. The loss then weighs every step's log-probability against every step's value, which amounts to a single batch-mean baseline. | Returns [1, 2], values [0, 2]. Raising the log-probability of the exactly predicted second step from 0 to 1 changes the loss from 0 to -0.5. | Per-step advantages `qs[t] - vs[t]`. A step whose value equals its return then contributes nothing. | high; not executed | A2c.AsWrittenCountsPredictedStep | A2c.PerfectlyPredictedStepIgnored |
| ppo.py:115-129 | The same broadcast of `qs - vs` to T-by-T: the clipped objective is averaged over every pair of step and value. | Returns [1, 2], values [0, 2]. Moving the ratio of the exactly predicted second step from 1 to 1.1 changes the loss from -0.5 to -0.55. | Per-step advantages `qs[t] - vs[t]` in the clipped objective. | high; not executed | Ppo.AsWrittenCountsPredictedStep | Ppo.PerfectlyPredictedStepIgnored |
