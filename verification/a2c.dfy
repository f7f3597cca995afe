/**
 The sequential core of the A2C training script: the rollout that records
 one-hot actions, the zero-seeded `discount_reward` loop, the actor-loss
 arithmetic that selects the taken action's log-probability and weighs it
 by the advantage, and the training loop's running-reward and solved test.
 The policy's log-probabilities are inputs, the sampler and environment
 are oracles, and parameter sets are opaque values of a type `P`.
 */
module A2c {
  import opened RealSeqs
  import opened Rollouts
  import Returns
  import opened Training

  /** The fixed rollout budget of `roll_out`. */
  const SAMPLE_NUMS: nat := 1000

  /** The taken action as a vector of length `actionDim`: 1 at the taken
      index and 0 at every other index. */
  function OneHot(action: int, actionDim: nat): (v: seq<int>)
    ensures |v| == actionDim
    ensures forall k :: 0 <= k < actionDim ==> (v[k] == 1 <==> k == action) && (v[k] == 0 <==> k != action)
  {
    seq(actionDim, k => if k == action then 1 else 0)
  }

  /** An integer vector as the float tensor `FloatTensor(actions)` makes of it. */
  function AsReals(v: seq<int>): (r: seq<real>)
    ensures |r| == |v|
    ensures forall k :: 0 <= k < |v| ==> r[k] == v[k] as real
  {
    seq(|v|, k requires 0 <= k < |v| => v[k] as real)
  }

  /** One row of `torch.sum(log_softmax_actions * actions_var, 1)`: the
      log-probabilities weighted by the recorded action vector. */
  function SelectLogProb(logProbs: seq<real>, action: seq<int>): real
    requires |logProbs| == |action|
  {
    Dot(logProbs, AsReals(action))
  }

  /** Against a one-hot action the weighted sum selects exactly the
      log-probability of the action that was taken. */
  lemma SelectsTakenAction(logProbs: seq<real>, action: int)
    requires 0 <= action < |logProbs|
    ensures SelectLogProb(logProbs, OneHot(action, |logProbs|)) == logProbs[action]
  {
    DotSparse(logProbs, AsReals(OneHot(action, |logProbs|)), action);
  }

  /** Every entry of a one-hot vector is 0 or 1 and the entries sum to 1,
      so an action vector is a probability vector concentrated on the taken
      action. */
  lemma OneHotSumsToOne(action: int, actionDim: nat)
    requires 0 <= action < actionDim
    ensures Sum(AsReals(OneHot(action, actionDim))) == 1.0
  {
    var w := AsReals(OneHot(action, actionDim));
    var ones := seq(actionDim, _ => 1.0);
    DotSparse(ones, w, action);
    assert Times(ones, w) == w;
    SumTimesIsDot(ones, w);
  }

  /** The selected log-probability of every step of a batch. */
  function SelectedLogProbs(logProbs: seq<seq<real>>, actions: seq<seq<int>>): (s: seq<real>)
    requires |logProbs| == |actions|
    requires forall t :: 0 <= t < |actions| ==> |logProbs[t]| == |actions[t]|
    ensures |s| == |actions|
  {
    seq(|actions|, t requires 0 <= t < |actions| => SelectLogProb(logProbs[t], actions[t]))
  }

  /** A batch of one-hot actions selects, step by step, the log-probability
      of each taken action. */
  lemma SelectedLogProbsOfOneHots(logProbs: seq<seq<real>>, taken: seq<int>, actionDim: nat)
    requires |logProbs| == |taken|
    requires forall t :: 0 <= t < |taken| ==> |logProbs[t]| == actionDim && 0 <= taken[t] < actionDim
    ensures var actions := seq(|taken|, t requires 0 <= t < |taken| => OneHot(taken[t], actionDim));
      forall t :: 0 <= t < |taken| ==> SelectedLogProbs(logProbs, actions)[t] == logProbs[t][taken[t]]
  {
    var actions := seq(|taken|, t requires 0 <= t < |taken| => OneHot(taken[t], actionDim));
    forall t | 0 <= t < |taken|
      ensures SelectedLogProbs(logProbs, actions)[t] == logProbs[t][taken[t]]
    {
      SelectsTakenAction(logProbs[t], taken[t]);
    }
  }

  /** What `roll_out` returns: the recorded states, the one-hot actions, the
      rewards and the final loop index. */
  datatype Rollout<S> = Rollout(states: seq<S>, actions: seq<seq<int>>, rewards: seq<real>, step: int)

  /** `roll_out()`: step the environment with sampled actions for at most
      `SAMPLE_NUMS` steps, stopping right after a `done`, and record each
      action as a one-hot vector of length `actionDim`. The sampler, like
      `np.random.choice(ACTION_DIM, ...)`, only draws indices below
      `actionDim`. */
  method RollOut<S>(init: S, env: (S, int) -> Transition<S>, sample: (S, nat) -> int, actionDim: nat)
    returns (ro: Rollout<S>)
    requires forall s, i :: 0 <= sample(s, i) < actionDim
    ensures IsRollout(init, env, sample, SAMPLE_NUMS, ro.states, ro.rewards)
    ensures |ro.actions| == |ro.states|
    ensures forall i :: 0 <= i < |ro.actions| ==>
      0 <= sample(ro.states[i], i) < actionDim && ro.actions[i] == OneHot(sample(ro.states[i], i), actionDim)
    ensures ro.step == |ro.states| - 1
  {
    var state := init;
    var states: seq<S> := [];
    var actions: seq<seq<int>> := [];
    var rewards: seq<real> := [];
    var step := 0;
    var stopped := false;
    while step < SAMPLE_NUMS
      invariant 0 <= step <= SAMPLE_NUMS
      invariant |states| == step && |actions| == step
      invariant Follows(init, env, sample, states, rewards)
      invariant forall i :: 0 <= i < step ==> actions[i] == OneHot(sample(states[i], i), actionDim)
      invariant step == 0 ==> state == init
      invariant step > 0 ==>
        !Outcome(env, sample, states, step - 1).done
        && state == Outcome(env, sample, states, step - 1).next
      invariant !stopped
    {
      states := states + [state];
      var action := sample(state, step);
      var oneHot := OneHot(action, actionDim);
      var tr := env(state, action);
      actions := actions + [oneHot];
      rewards := rewards + [tr.reward];
      state := tr.next;
      if tr.done {
        stopped := true;
        break;
      }
      step := step + 1;
    }
    if !stopped {
      step := SAMPLE_NUMS - 1;
    }
    return Rollout(states, actions, rewards, step);
  }

  /** `discount_reward(r, gamma)`: the same backward loop as the PPO
      version, with the running sum starting at 0, so its result is the PPO
      estimator with a zero bootstrap value: the last return is the last
      reward and each earlier one adds the discounted next return. */
  method DiscountReward(r: seq<real>, gamma: real) returns (discounted: seq<real>)
    ensures discounted == Returns.DiscountReward(r, gamma, 0.0)
    ensures |discounted| == |r|
    ensures |r| > 0 ==> discounted[|r| - 1] == r[|r| - 1]
  {
    discounted := seq(|r|, _ => 0.0);
    var runningAdd := 0.0;
    var t := |r|;
    while t > 0
      invariant 0 <= t <= |r|
      invariant |discounted| == |r|
      invariant forall i :: t <= i < |r| ==> discounted[i] == Returns.DiscountReward(r, gamma, 0.0)[i]
      invariant runningAdd == if t == |r| then 0.0 else Returns.DiscountReward(r, gamma, 0.0)[t]
      decreases t
    {
      t := t - 1;
      runningAdd := runningAdd * gamma + r[t];
      discounted := discounted[t := runningAdd];
    }
  }

  /** Three unit rewards discounted by one half: 1 + 0.5 * (1 + 0.5 * 1). */
  lemma HalfDiscountExample()
    ensures Returns.DiscountReward([1.0, 1.0, 1.0], 0.5, 0.0) == [1.75, 1.5, 1.0]
  {
    var r := [1.0, 1.0, 1.0];
    var d := Returns.DiscountReward(r, 0.5, 0.0);
    assert d[2] == 1.0;
    assert d[1] == r[1] + 0.5 * d[2];
    assert d[0] == r[0] + 0.5 * d[1];
  }

  /** The actor loss with per-step advantages: minus the mean of each
      step's selected log-probability times its advantage. */
  function ActorLoss(selected: seq<real>, advantages: seq<real>): real
    requires |selected| == |advantages| > 0
  {
    -Mean(Times(selected, advantages))
  }

  /** The as-written loss of `update_network`: `vs` has shape [T, 1] and
      `qs` shape [T], so `advantages = qs - vs` is the T-by-T matrix with
      entry (i, j) equal to `qs[j] - vs[i]`; the selected log-probabilities
      broadcast along its rows and the loss is minus the mean of all T*T
      products, computed here as the mean of the T row means. */
  function ActorLossAsWritten(selected: seq<real>, qs: seq<real>, vs: seq<real>): real
    requires |selected| == |qs| == |vs| > 0
  {
    -((BroadcastSum(selected, qs, vs) / |vs| as real) / |qs| as real)
  }

  /** The sum over all rows `i` of the broadcast product matrix. */
  function BroadcastSum(selected: seq<real>, qs: seq<real>, vs: seq<real>): real
    requires |selected| == |qs|
    decreases |vs|
  {
    if |vs| == 0 then 0.0
    else RowTotal(selected, qs, vs[0]) + BroadcastSum(selected, qs, vs[1..])
  }

  /** The sum of one row of the broadcast product matrix: every return
      less the same value `v`, weighted by the selected log-probabilities. */
  function RowTotal(selected: seq<real>, qs: seq<real>, v: real): real
    requires |selected| == |qs|
    decreases |qs|
  {
    if |qs| == 0 then 0.0
    else selected[0] * (qs[0] - v) + RowTotal(selected[1..], qs[1..], v)
  }

  /** One row of the broadcast matrix, in closed form. */
  lemma {:induction false} RowSum(selected: seq<real>, qs: seq<real>, v: real)
    requires |selected| == |qs|
    ensures RowTotal(selected, qs, v) == Dot(selected, qs) - v * Sum(selected)
    decreases |qs|
  {
    if |qs| > 0 {
      RowSum(selected[1..], qs[1..], v);
      RowAlgebra(RowTotal(selected, qs, v), RowTotal(selected[1..], qs[1..], v), selected[0], qs[0], v,
                 Dot(selected[1..], qs[1..]), Sum(selected[1..]), Dot(selected, qs), Sum(selected));
    }
  }

  /** A row total is the summed product of the selected log-probabilities
      with the advantages against the constant baseline `v`. */
  lemma {:induction false} RowIsWeightedAdvantages(selected: seq<real>, qs: seq<real>, v: real)
    requires |selected| == |qs|
    ensures RowTotal(selected, qs, v) == Sum(Times(selected, Returns.Advantages(qs, Fill(|qs|, v))))
    decreases |qs|
  {
    if |qs| > 0 {
      var a := Returns.Advantages(qs, Fill(|qs|, v));
      var p := Times(selected, a);
      Returns.AdvantagesTail(qs, v);
      TimesTail(selected, a);
      assert a[0] == qs[0] - v;
      RowIsWeightedAdvantages(selected[1..], qs[1..], v);
    }
  }

  /** All rows together: with `d` the weighted returns and `w` the total
      weight, each row counts `d` once and its own value against `w`. */
  lemma {:induction false} BroadcastSumClosed(selected: seq<real>, qs: seq<real>, vs: seq<real>, d: real, w: real)
    requires |selected| == |qs|
    requires forall v :: RowTotal(selected, qs, v) == d - v * w
    ensures BroadcastSum(selected, qs, vs) == |vs| as real * d - Sum(vs) * w
  {
    RowsAreAffine(selected, qs, vs, d, w);
    AffineSumClosed(vs, d, w);
  }

  /** When every row total is `d - v*w`, the broadcast sum is their sum. */
  lemma {:induction false} RowsAreAffine(selected: seq<real>, qs: seq<real>, vs: seq<real>, d: real, w: real)
    requires |selected| == |qs|
    requires forall v :: RowTotal(selected, qs, v) == d - v * w
    ensures BroadcastSum(selected, qs, vs) == AffineSum(vs, d, w)
    decreases |vs|
  {
    if |vs| > 0 {
      RowsAreAffine(selected, qs, vs[1..], d, w);
    }
  }

  /** Every row total is affine in the row's value. */
  lemma {:induction false} RowsAffine(selected: seq<real>, qs: seq<real>)
    requires |selected| == |qs|
    ensures forall v :: RowTotal(selected, qs, v) == Dot(selected, qs) - v * Sum(selected)
  {
    forall v {
      RowSum(selected, qs, v);
    }
  }

  lemma RowAlgebra(row: real, rest: real, s0: real, q0: real, v: real, d: real, w: real,
                   dAll: real, wAll: real)
    requires row == s0 * (q0 - v) + rest
    requires rest == d - v * w
    requires dAll == s0 * q0 + d && wAll == s0 + w
    ensures row == dAll - v * wAll
  {
  }

  /** What the broadcast computes: the actor loss with every step's own
      value estimate replaced by the batch mean of the value estimates. */
  lemma AsWrittenUsesBatchMeanBaseline(selected: seq<real>, qs: seq<real>, vs: seq<real>)
    requires |selected| == |qs| == |vs| > 0
    ensures ActorLossAsWritten(selected, qs, vs)
         == ActorLoss(selected, Returns.Advantages(qs, Fill(|qs|, Mean(vs))))
  {
    MeanRowOfBroadcast(selected, qs, vs);
    RowIsWeightedAdvantages(selected, qs, Mean(vs));
  }

  /** The mean row total of the broadcast matrix is the row total for the
      mean value. */
  lemma MeanRowOfBroadcast(selected: seq<real>, qs: seq<real>, vs: seq<real>)
    requires |selected| == |qs| && |vs| > 0
    ensures BroadcastSum(selected, qs, vs) / |vs| as real == RowTotal(selected, qs, Mean(vs))
  {
    BroadcastIsAffine(selected, qs, vs, Mean(vs));
    // The coefficients are taken from the existential rather than written as
    // `Dot(selected, qs)` and `Sum(selected)`: that keeps the products of
    // those sums with `Mean(vs)` out of the solver's context.
    var d, w :| AffineWitness(selected, qs, vs, Mean(vs), d, w);
    AffineSumClosed(vs, d, w);
    BroadcastRowMean(vs, BroadcastSum(selected, qs, vs), d, w, RowTotal(selected, qs, Mean(vs)));
  }

  /** `d` and `w` make the broadcast sum over `vs` the affine sum and the
      row total for `m` equal to `d - m*w`. */
  predicate AffineWitness(selected: seq<real>, qs: seq<real>, vs: seq<real>, m: real, d: real, w: real)
    requires |selected| == |qs|
  {
    BroadcastSum(selected, qs, vs) == AffineSum(vs, d, w) && RowTotal(selected, qs, m) == d - m * w
  }

  /** Some `d` and `w` (the weighted returns and the total weight) witness
      `AffineWitness`. */
  lemma BroadcastIsAffine(selected: seq<real>, qs: seq<real>, vs: seq<real>, m: real)
    requires |selected| == |qs|
    ensures exists d, w :: AffineWitness(selected, qs, vs, m, d, w)
  {
    RowsAffine(selected, qs);
    RowsAreAffine(selected, qs, vs, Dot(selected, qs), Sum(selected));
    assert AffineWitness(selected, qs, vs, m, Dot(selected, qs), Sum(selected));
  }

  /** Dividing the closed form of the broadcast sum `b` by the number of
      rows gives the row total `row` for the mean value. */
  lemma BroadcastRowMean(vs: seq<real>, b: real, d: real, w: real, row: real)
    requires |vs| > 0
    requires b == |vs| as real * d - Sum(vs) * w
    requires row == d - Mean(vs) * w
    ensures b / |vs| as real == row
  {
    MeanBaselineAlgebra(|vs| as real, b, Sum(vs), d, w, Mean(vs), row);
  }

  /** The algebra of `AsWrittenUsesBatchMeanBaseline`: with `s` the sum of
      `n` values and `m` their mean, `n*d - s*w` is `n` times `d - m*w`. */
  lemma MeanBaselineAlgebra(n: real, b: real, s: real, d: real, w: real, m: real, row: real)
    requires n > 0.0
    requires b == n * d - s * w
    requires m == s / n
    requires row == d - m * w
    ensures b / n == row
  {
    DivCancel(s, n, m);
    assert s == m * n;
    assert b == row * n;
    DivCancel(b, n, row);
  }

  /** With per-step advantages, a step whose return the value network
      predicted exactly (advantage 0) contributes nothing: its selected
      log-probability can be anything without changing the loss. */
  lemma PerfectlyPredictedStepIgnored(selected: seq<real>, selected': seq<real>,
                                      qs: seq<real>, vs: seq<real>, k: nat)
    requires |selected| == |selected'| == |qs| == |vs| > 0
    requires k < |qs| && qs[k] == vs[k]
    requires forall t :: 0 <= t < |selected| && t != k ==> selected[t] == selected'[t]
    ensures ActorLoss(selected, Returns.Advantages(qs, vs)) == ActorLoss(selected', Returns.Advantages(qs, vs))
  {
    var a := Returns.Advantages(qs, vs);
    forall t | 0 <= t < |a|
      ensures Times(selected, a)[t] == Times(selected', a)[t]
    {
      if t == k {
        assert a[k] == 0.0;
        assert selected[k] * a[k] == 0.0 == selected'[k] * a[k];
      } else {
        assert selected[t] == selected'[t];
      }
    }
    assert Times(selected, a) == Times(selected', a);
  }

  /** The broadcast lets the log-probability of an exactly predicted step
      change the loss: with returns [1, 2] and values [0, 2] the second step
      has advantage 0, yet raising its selected log-probability from 0 to 1
      moves the as-written loss from 0 to -0.5. */
  lemma AsWrittenCountsPredictedStep()
    ensures ActorLossAsWritten([0.0, 0.0], [1.0, 2.0], [0.0, 2.0]) == 0.0
    ensures ActorLossAsWritten([0.0, 1.0], [1.0, 2.0], [0.0, 2.0]) == -0.5
    ensures ActorLoss([0.0, 0.0], Returns.Advantages([1.0, 2.0], [0.0, 2.0]))
         == ActorLoss([0.0, 1.0], Returns.Advantages([1.0, 2.0], [0.0, 2.0]))
  {
    PerfectlyPredictedStepIgnored([0.0, 0.0], [0.0, 1.0], [1.0, 2.0], [0.0, 2.0], 1);
    assert Sum([0.0, 2.0]) == 2.0;
    assert Dot([0.0, 0.0], [1.0, 2.0]) == 0.0 && Sum([0.0, 0.0]) == 0.0;
    RowsAffine([0.0, 0.0], [1.0, 2.0]);
    BroadcastSumClosed([0.0, 0.0], [1.0, 2.0], [0.0, 2.0], 0.0, 0.0);
    assert Dot([0.0, 1.0], [1.0, 2.0]) == 2.0 && Sum([0.0, 1.0]) == 1.0;
    RowsAffine([0.0, 1.0], [1.0, 2.0]);
    BroadcastSumClosed([0.0, 1.0], [1.0, 2.0], [0.0, 2.0], 2.0, 1.0);
  }

  /** The trainer's state between episodes: the number of the episode about
      to run (or, once solved, the one that solved), the running reward and
      the parameter sets of both networks. */
  datatype Trainer<P> = Trainer(episode: nat, runningReward: real, params: P)

  /** The state before the first episode: episode 1, running reward 10. */
  function Start<P>(params: P): (t: Trainer<P>)
    ensures t.episode == 1 && t.runningReward == INITIAL_RUNNING_REWARD && t.params == params
  {
    Trainer(1, INITIAL_RUNNING_REWARD, params)
  }

  /** One iteration of the `main` loop: fold the rollout's `step` into the
      running reward, take the parameters the update produced, and stop if
      the running reward now exceeds the threshold. */
  function Step<P>(t: Trainer<P>, steps: int, updated: P, threshold: real): (o: Iteration<Trainer<P>>)
    ensures o.state.runningReward == UpdateRunningReward(t.runningReward, steps)
    ensures o.state.params == updated
    ensures o.Solved? <==> IsSolved(o.state.runningReward, threshold)
    ensures o.state.episode == if o.Solved? then t.episode else t.episode + 1
  {
    var rr := UpdateRunningReward(t.runningReward, steps);
    var next := Trainer(t.episode, rr, updated);
    if IsSolved(rr, threshold) then Solved(next) else Continue(next.(episode := t.episode + 1))
  }

  /** The training loop over a script of rollout outcomes: episode by
      episode until solved or the script is exhausted. `update` stands for
      `update_network`, producing new parameters for the given episode. */
  function Run<P>(t: Trainer<P>, steps: seq<int>, update: (P, nat) -> P, threshold: real): Iteration<Trainer<P>>
    decreases |steps|
  {
    if |steps| == 0 then Continue(t)
    else
      match Step(t, steps[0], update(t.params, t.episode), threshold)
      case Solved(t') => Solved(t')
      case Continue(t') => Run(t', steps[1..], update, threshold)
  }

  /** The loop stops at the first episode whose updated running reward
      strictly exceeds the threshold, and not before: it reports that
      episode and its running reward; if it never stops, no episode of the
      script crossed the threshold. */
  lemma {:induction false} RunStopsAtFirstSolved<P>(t: Trainer<P>, steps: seq<int>,
                                                    update: (P, nat) -> P, threshold: real)
    ensures var o := Run(t, steps, update, threshold);
      o.Solved? ==>
        var k := o.state.episode - t.episode;
        && 0 <= k < |steps|
        && o.state.runningReward == RunningAt(t.runningReward, steps, k)
        && IsSolved(RunningAt(t.runningReward, steps, k), threshold)
        && forall j :: 0 <= j < k ==> !IsSolved(RunningAt(t.runningReward, steps, j), threshold)
    ensures var o := Run(t, steps, update, threshold);
      o.Continue? ==>
        && o.state.episode == t.episode + |steps|
        && forall j :: 0 <= j < |steps| ==> !IsSolved(RunningAt(t.runningReward, steps, j), threshold)
    decreases |steps|
  {
    if |steps| > 0 {
      var o1 := Step(t, steps[0], update(t.params, t.episode), threshold);
      RunningAtFirst(t.runningReward, steps);
      if o1.Continue? {
        var t' := o1.state;
        RunStopsAtFirstSolved(t', steps[1..], update, threshold);
        forall j | 0 < j < |steps|
          ensures RunningAt(t.runningReward, steps, j) == RunningAt(t'.runningReward, steps[1..], j - 1)
        {
          RunningAtShift(t.runningReward, steps, j);
        }
      }
    }
  }
}
