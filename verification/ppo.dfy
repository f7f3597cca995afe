/**
 The sequential core of the PPO training script: the rollout with its
 bootstrap value, the clipped surrogate objective, and one iteration of the
 training loop with its periodic target-network synchronisation. The
 networks appear only through what they return: the value network is an
 oracle on states, the importance ratio is an input (its `exp` is not
 modelled), and parameter sets are opaque values of a type `P`.
 */
module Ppo {
  import opened RealSeqs
  import opened Rollouts
  import Returns
  import opened Training

  /** The rollout budget `main` passes to `roll_out`. */
  const SAMPLE_NUMS: nat := 300

  /** Targets are refreshed on episodes divisible by this. */
  const TARGET_UPDATE_STEP: nat := 10

  /** The clipping range of the importance ratio is `[1 - CLIP_PARAM, 1 + CLIP_PARAM]`. */
  const CLIP_PARAM: real := 0.2
  const CLIP_LOW: real := 1.0 - CLIP_PARAM
  const CLIP_HIGH: real := 1.0 + CLIP_PARAM

  /** What `roll_out` returns: the recorded states, the sampled action
      indices, the rewards, the final loop index and the bootstrap value. */
  datatype Rollout<S> = Rollout(states: seq<S>, actions: seq<int>, rewards: seq<real>,
                                step: int, finalR: real)

  /** `roll_out(sample_nums)`: step the environment with sampled actions for
      at most `sampleNums` steps, stopping right after a `done`. The value
      oracle is consulted, on the state reached last, only when the budget
      ran out without `done`; otherwise the bootstrap value is exactly 0.
      A zero budget leaves the returned loop index unbound, an error. */
  method RollOut<S>(init: S, env: (S, int) -> Transition<S>, sample: (S, nat) -> int,
                    value: S -> real, sampleNums: nat)
    returns (result: Result<Rollout<S>>)
    ensures result.Err? <==> sampleNums == 0
    ensures result.Ok? ==>
      var ro := result.value;
      && IsRollout(init, env, sample, sampleNums, ro.states, ro.rewards)
      && |ro.actions| == |ro.states|
      && (forall i :: 0 <= i < |ro.actions| ==> ro.actions[i] == sample(ro.states[i], i))
      && ro.step == |ro.states| - 1
    ensures result.Ok? && EndedDone(env, sample, result.value.states) ==>
      result.value.finalR == 0.0
    ensures result.Ok? && !EndedDone(env, sample, result.value.states) ==>
      var ro := result.value;
      && |ro.states| == sampleNums
      && ro.finalR == value(Outcome(env, sample, ro.states, |ro.states| - 1).next)
  {
    if sampleNums == 0 {
      return Err(StepUnbound);
    }
    var state := init;
    var states: seq<S> := [];
    var actions: seq<int> := [];
    var rewards: seq<real> := [];
    var isDone := false;
    var finalR := 0.0;
    var step := 0;
    while step < sampleNums
      invariant 0 <= step <= sampleNums
      invariant |states| == step && |actions| == step
      invariant Follows(init, env, sample, states, rewards)
      invariant forall i :: 0 <= i < step ==> actions[i] == sample(states[i], i)
      invariant step == 0 ==> state == init
      invariant step > 0 ==>
        !Outcome(env, sample, states, step - 1).done
        && state == Outcome(env, sample, states, step - 1).next
      invariant !isDone
    {
      states := states + [state];
      var action := sample(state, step);
      actions := actions + [action];
      var tr := env(state, action);
      rewards := rewards + [tr.reward];
      state := tr.next;
      if tr.done {
        isDone := true;
        break;
      }
      step := step + 1;
    }
    if !isDone {
      finalR := value(state);
      step := sampleNums - 1;
    }
    return Ok(Rollout(states, actions, rewards, step, finalR));
  }

  /** The smaller of two reals. */
  function Min(a: real, b: real): real
  {
    if a <= b then a else b
  }

  /** The larger of two reals. */
  function Max(a: real, b: real): real
  {
    if a <= b then b else a
  }

  /** `torch.clamp(x, lo, hi)`: the result lies in `[lo, hi]` and is `x`
      itself when `x` already does. */
  function Clamp(x: real, lo: real, hi: real): (c: real)
    requires lo <= hi
    ensures lo <= c <= hi
    ensures lo <= x <= hi ==> c == x
    ensures x < lo ==> c == lo
    ensures hi < x ==> c == hi
  {
    Min(Max(x, lo), hi)
  }

  /** `min(surr1, surr2)` for one action: the unclipped `ratio * A` against
      the clipped `clamp(ratio) * A`. The result never exceeds the unclipped
      surrogate, equals it when the ratio is inside the clipping range, and
      is the advantage itself when the ratio is 1. */
  function Surrogate(ratio: real, advantage: real): (o: real)
    ensures o <= ratio * advantage
    ensures o <= Clamp(ratio, CLIP_LOW, CLIP_HIGH) * advantage
    ensures CLIP_LOW <= ratio <= CLIP_HIGH ==> o == ratio * advantage
    ensures ratio == 1.0 ==> o == advantage
  {
    Min(ratio * advantage, Clamp(ratio, CLIP_LOW, CLIP_HIGH) * advantage)
  }

  /** Independent reading of the clipped objective: a positive advantage
      caps the ratio from above at `1 + CLIP_PARAM`, a negative one from
      below at `1 - CLIP_PARAM`, so the objective never rewards moving the
      ratio further out of the clipping range. */
  lemma SurrogateBySign(ratio: real, advantage: real)
    ensures advantage >= 0.0 ==> Surrogate(ratio, advantage) == Min(ratio, CLIP_HIGH) * advantage
    ensures advantage < 0.0 ==> Surrogate(ratio, advantage) == Max(ratio, CLIP_LOW) * advantage
  {
    var c := Clamp(ratio, CLIP_LOW, CLIP_HIGH);
    assert Surrogate(ratio, advantage) == Min(ratio * advantage, c * advantage);
    if advantage >= 0.0 {
      var m := Min(ratio, CLIP_HIGH);
      if ratio < CLIP_LOW {
        assert c == CLIP_LOW && m == ratio;
        MulMonotone(ratio, c, advantage);
      } else if ratio <= CLIP_HIGH {
        assert c == ratio && m == ratio;
      } else {
        assert c == CLIP_HIGH && m == CLIP_HIGH;
        MulMonotone(c, ratio, advantage);
      }
    } else {
      var m := Max(ratio, CLIP_LOW);
      if ratio < CLIP_LOW {
        assert c == CLIP_LOW && m == CLIP_LOW;
        MulAntitone(ratio, c, advantage);
      } else if ratio <= CLIP_HIGH {
        assert c == ratio && m == ratio;
      } else {
        assert c == CLIP_HIGH && m == ratio;
        MulAntitone(c, ratio, advantage);
      }
    }
  }

  lemma MulMonotone(x: real, y: real, a: real)
    requires x <= y && a >= 0.0
    ensures x * a <= y * a
  {
  }

  lemma MulAntitone(x: real, y: real, a: real)
    requires x <= y && a < 0.0
    ensures y * a <= x * a
  {
  }

  /** The per-step objectives of a batch. */
  function Objectives(ratios: seq<real>, advantages: seq<real>): (o: seq<real>)
    requires |ratios| == |advantages|
    ensures |o| == |ratios|
    ensures forall t :: 0 <= t < |o| ==> o[t] == Surrogate(ratios[t], advantages[t])
  {
    seq(|ratios|, t requires 0 <= t < |ratios| => Surrogate(ratios[t], advantages[t]))
  }

  /** Dropping the first step commutes with computing the objectives. */
  lemma ObjectivesTail(ratios: seq<real>, advantages: seq<real>)
    requires |ratios| == |advantages| > 0
    ensures Objectives(ratios, advantages)[1..] == Objectives(ratios[1..], advantages[1..])
  {
    var rest := Objectives(ratios, advantages)[1..];
    assert forall i :: 0 <= i < |rest| ==> rest[i] == Surrogate(ratios[1..][i], advantages[1..][i]);
  }

  /** The actor loss with per-step advantages: the negated mean objective. */
  function ActorLoss(ratios: seq<real>, advantages: seq<real>): real
    requires |ratios| == |advantages| > 0
  {
    -Mean(Objectives(ratios, advantages))
  }

  /** The clipped loss over per-step advantages is a pessimistic bound:
      never below the loss of the unclipped surrogate `mean(ratio * A)`.
      `AsWrittenLossBoundsUnclipped` is the same bound for the broadcast
      loss. */
  lemma ClippedLossBoundsUnclipped(ratios: seq<real>, advantages: seq<real>)
    requires |ratios| == |advantages| > 0
    ensures ActorLoss(ratios, advantages) >= -Mean(Times(ratios, advantages))
  {
    var o := Objectives(ratios, advantages);
    var u := Times(ratios, advantages);
    SumMonotone(o, u);
    DivMonotone(Sum(o), Sum(u), |o| as real);
  }

  lemma DivMonotone(a: real, b: real, n: real)
    requires a <= b && n > 0.0
    ensures a / n <= b / n
  {
  }

  /** When every ratio is 1 (live and target policies agree) the loss over
      per-step advantages is the negated mean advantage.
      `AsWrittenUnitRatioLoss` is the broadcast counterpart. */
  lemma UnitRatioLoss(ratios: seq<real>, advantages: seq<real>)
    requires |ratios| == |advantages| > 0
    requires forall t :: 0 <= t < |ratios| ==> ratios[t] == 1.0
    ensures ActorLoss(ratios, advantages) == -Mean(advantages)
  {
    assert Objectives(ratios, advantages) == advantages;
  }

  /** The importance ratio `exp(log_probs - old_log_probs)` of an action,
      with `exp` and the log-probability of the policy with parameters `p`
      left as oracles. */
  function Ratio<P, S>(exp: real -> real, logProb: (P, S, int) -> real,
                       live: P, target: P, state: S, action: int): real
  {
    exp(logProb(live, state, action) - logProb(target, state, action))
  }

  /** Right after a synchronisation the live and target policies coincide:
      every action's ratio is `exp(0) = 1`, and its clipped and unclipped
      surrogates both equal the advantage. */
  lemma SyncedRatioIsOne<P, S>(exp: real -> real, logProb: (P, S, int) -> real,
                               live: P, target: P, state: S, action: int, advantage: real)
    requires exp(0.0) == 1.0
    requires live == target
    ensures Ratio(exp, logProb, live, target, state, action) == 1.0
    ensures Surrogate(Ratio(exp, logProb, live, target, state, action), advantage) == advantage
  {
  }

  /** The as-written loss of `update_network`: the detached values have
      shape [T, 1] and the returns shape [T], so `qs - vs` broadcasts to a
      T-by-T matrix whose entry (i, j) is `qs[j] - vs[i]`, and the ratios
      of shape [T] broadcast along its rows. The loss is minus the mean of
      all T*T clipped objectives, computed here as the mean of the T row
      means. */
  function ActorLossAsWritten(ratios: seq<real>, qs: seq<real>, vs: seq<real>): real
    requires |ratios| == |qs| == |vs| > 0
  {
    -((BroadcastSum(ratios, qs, vs) / |vs| as real) / |qs| as real)
  }

  /** The sum over all rows `i` of the broadcast objective matrix. */
  function BroadcastSum(ratios: seq<real>, qs: seq<real>, vs: seq<real>): real
    requires |ratios| == |qs|
    decreases |vs|
  {
    if |vs| == 0 then 0.0
    else RowTotal(ratios, qs, vs[0]) + BroadcastSum(ratios, qs, vs[1..])
  }

  /** The sum of one row of the broadcast objective matrix: every return
      less the same value `v`, clipped against its step's ratio. */
  function RowTotal(ratios: seq<real>, qs: seq<real>, v: real): real
    requires |ratios| == |qs|
    decreases |qs|
  {
    if |qs| == 0 then 0.0
    else Surrogate(ratios[0], qs[0] - v) + RowTotal(ratios[1..], qs[1..], v)
  }

  /** A row total is the summed objective of the batch against the
      constant baseline `v`: a row is the per-step loss's numerator with
      every value replaced by `v`. */
  lemma {:induction false} RowIsObjectives(ratios: seq<real>, qs: seq<real>, v: real)
    requires |ratios| == |qs|
    ensures RowTotal(ratios, qs, v) == Sum(Objectives(ratios, Returns.Advantages(qs, Fill(|qs|, v))))
    decreases |qs|
  {
    if |qs| > 0 {
      var a := Returns.Advantages(qs, Fill(|qs|, v));
      Returns.AdvantagesTail(qs, v);
      ObjectivesTail(ratios, a);
      assert a[0] == qs[0] - v;
      RowIsObjectives(ratios[1..], qs[1..], v);
    }
  }

  /** The sum over all rows of the broadcast matrix of the unclipped
      surrogate: entry (i, j) is `ratios[j] * (qs[j] - vs[i])`. */
  function UnclippedBroadcastSum(ratios: seq<real>, qs: seq<real>, vs: seq<real>): real
    requires |ratios| == |qs|
    decreases |vs|
  {
    if |vs| == 0 then 0.0
    else Sum(Times(ratios, Returns.Advantages(qs, Fill(|qs|, vs[0])))) + UnclippedBroadcastSum(ratios, qs, vs[1..])
  }

  /** The as-written loss with the unclipped surrogate `ratio * A` in place
      of `min(surr1, surr2)`: minus the mean of all T*T entries. */
  function UnclippedLossAsWritten(ratios: seq<real>, qs: seq<real>, vs: seq<real>): real
    requires |ratios| == |qs| == |vs| > 0
  {
    -((UnclippedBroadcastSum(ratios, qs, vs) / |vs| as real) / |qs| as real)
  }

  /** Entry by entry the clipped objective is at most the unclipped one, so
      the clipped broadcast sum is too. */
  lemma {:induction false} BroadcastSumBoundedByUnclipped(ratios: seq<real>, qs: seq<real>, vs: seq<real>)
    requires |ratios| == |qs|
    ensures BroadcastSum(ratios, qs, vs) <= UnclippedBroadcastSum(ratios, qs, vs)
    decreases |vs|
  {
    if |vs| > 0 {
      var a := Returns.Advantages(qs, Fill(|qs|, vs[0]));
      RowIsObjectives(ratios, qs, vs[0]);
      SumMonotone(Objectives(ratios, a), Times(ratios, a));
      BroadcastSumBoundedByUnclipped(ratios, qs, vs[1..]);
    }
  }

  /** The clipped loss `update_network` actually computes is a pessimistic
      bound too: never below the as-written loss of the unclipped
      surrogate. */
  lemma AsWrittenLossBoundsUnclipped(ratios: seq<real>, qs: seq<real>, vs: seq<real>)
    requires |ratios| == |qs| == |vs| > 0
    ensures ActorLossAsWritten(ratios, qs, vs) >= UnclippedLossAsWritten(ratios, qs, vs)
  {
    var b, u := BroadcastSum(ratios, qs, vs), UnclippedBroadcastSum(ratios, qs, vs);
    var nv, nq := |vs| as real, |qs| as real;
    BroadcastSumBoundedByUnclipped(ratios, qs, vs);
    DivMonotone(b, u, nv);
    DivMonotone(b / nv, u / nv, nq);
  }

  /** With every ratio 1 a row total is the summed advantage against its
      value: the sum of the returns less `T` times `v`. */
  lemma {:induction false} UnitRatioRow(ratios: seq<real>, qs: seq<real>, v: real)
    requires |ratios| == |qs|
    requires forall t :: 0 <= t < |ratios| ==> ratios[t] == 1.0
    ensures RowTotal(ratios, qs, v) == Sum(qs) - v * |qs| as real
    decreases |qs|
  {
    if |qs| > 0 {
      UnitRatioRow(ratios[1..], qs[1..], v);
      assert Surrogate(ratios[0], qs[0] - v) == qs[0] - v;
      UnitRowStep(RowTotal(ratios, qs, v), RowTotal(ratios[1..], qs[1..], v), qs[0], v,
                  Sum(qs[1..]), Sum(qs), |qs[1..]| as real, |qs| as real);
    }
  }

  lemma UnitRowStep(row: real, rest: real, q0: real, v: real, sRest: real, s: real, nRest: real, n: real)
    requires row == (q0 - v) + rest
    requires rest == sRest - v * nRest
    requires s == q0 + sRest && n == nRest + 1.0
    ensures row == s - v * n
  {
  }

  /** When every row total is `d - v*w`, the broadcast sum is their sum. */
  lemma {:induction false} RowsAreAffine(ratios: seq<real>, qs: seq<real>, vs: seq<real>, d: real, w: real)
    requires |ratios| == |qs|
    requires forall v :: RowTotal(ratios, qs, v) == d - v * w
    ensures BroadcastSum(ratios, qs, vs) == AffineSum(vs, d, w)
    decreases |vs|
  {
    if |vs| > 0 {
      RowsAreAffine(ratios, qs, vs[1..], d, w);
    }
  }

  /** With every ratio 1 (right after a synchronisation) the as-written
      loss is minus the difference of the mean return and the mean value:
      every return is weighed against every value. */
  lemma AsWrittenUnitRatioLoss(ratios: seq<real>, qs: seq<real>, vs: seq<real>)
    requires |ratios| == |qs| == |vs| > 0
    requires forall t :: 0 <= t < |ratios| ==> ratios[t] == 1.0
    ensures ActorLossAsWritten(ratios, qs, vs) == -(Mean(qs) - Mean(vs))
  {
    UnitRatioBroadcast(ratios, qs, vs);
    MeanDifference(BroadcastSum(ratios, qs, vs), |vs| as real, |qs| as real, Sum(vs), Sum(qs),
                   Mean(vs), Mean(qs));
  }

  /** With every ratio 1 the broadcast sum is `T` times the summed returns
      less `T` times the summed values. */
  lemma {:induction false} UnitRatioBroadcast(ratios: seq<real>, qs: seq<real>, vs: seq<real>)
    requires |ratios| == |qs|
    requires forall t :: 0 <= t < |ratios| ==> ratios[t] == 1.0
    ensures BroadcastSum(ratios, qs, vs) == |vs| as real * Sum(qs) - Sum(vs) * |qs| as real
  {
    forall v
      ensures RowTotal(ratios, qs, v) == Sum(qs) - v * |qs| as real
    {
      UnitRatioRow(ratios, qs, v);
    }
    RowsAreAffine(ratios, qs, vs, Sum(qs), |qs| as real);
    AffineSumClosed(vs, Sum(qs), |qs| as real);
  }

  /** The algebra of `AsWrittenUnitRatioLoss`: `(nv*sq - sv*nq) / nv / nq`
      is the mean `sq/nq` less the mean `sv/nv`. */
  lemma MeanDifference(b: real, nv: real, nq: real, sv: real, sq: real, mv: real, mq: real)
    requires nv > 0.0 && nq > 0.0
    requires b == nv * sq - sv * nq
    requires mv == sv / nv && mq == sq / nq
    ensures (b / nv) / nq == mq - mv
  {
    DivCancel(sv, nv, mv);
    DivCancel(sq, nq, mq);
    assert b == (sq - mv * nq) * nv;
    DivCancel(b, nv, sq - mv * nq);
    assert sq - mv * nq == (mq - mv) * nq;
    DivCancel(sq - mv * nq, nq, mq - mv);
  }

  /** With per-step advantages, a step whose return the value network
      predicted exactly (advantage 0) contributes nothing: its ratio can be
      anything without changing the loss. */
  lemma PerfectlyPredictedStepIgnored(ratios: seq<real>, ratios': seq<real>,
                                      qs: seq<real>, vs: seq<real>, k: nat)
    requires |ratios| == |ratios'| == |qs| == |vs| > 0
    requires k < |qs| && qs[k] == vs[k]
    requires forall t :: 0 <= t < |ratios| && t != k ==> ratios[t] == ratios'[t]
    ensures ActorLoss(ratios, Returns.Advantages(qs, vs)) == ActorLoss(ratios', Returns.Advantages(qs, vs))
  {
    var a := Returns.Advantages(qs, vs);
    assert a[k] == 0.0;
    assert Objectives(ratios, a) == Objectives(ratios', a);
  }

  /** The broadcast in the as-written loss lets the ratio of an exactly
      predicted step change the loss: with returns [1, 2] and values [0, 2]
      the second step has advantage 0, yet moving its ratio from 1 to 1.1
      moves the as-written loss from -0.5 to -0.55. */
  lemma AsWrittenCountsPredictedStep()
    ensures ActorLossAsWritten([1.0, 1.0], [1.0, 2.0], [0.0, 2.0]) == -0.5
    ensures ActorLossAsWritten([1.0, 1.1], [1.0, 2.0], [0.0, 2.0]) == -0.55
    ensures ActorLoss([1.0, 1.0], Returns.Advantages([1.0, 2.0], [0.0, 2.0]))
         == ActorLoss([1.0, 1.1], Returns.Advantages([1.0, 2.0], [0.0, 2.0]))
  {
    PerfectlyPredictedStepIgnored([1.0, 1.0], [1.0, 1.1], [1.0, 2.0], [0.0, 2.0], 1);
    var qs := [1.0, 2.0];
    assert RowTotal([1.0, 1.0], qs, 0.0) == 3.0;
    assert RowTotal([1.0, 1.0], qs, 2.0) == -1.0;
    assert RowTotal([1.1], [2.0], 0.0) == 2.2;
    assert RowTotal([1.0, 1.1], qs, 0.0) == 3.2;
    assert RowTotal([1.0, 1.1], qs, 2.0) == -1.0;
    assert [0.0, 2.0][1..] == [2.0];
    assert BroadcastSum([1.0, 1.0], qs, [0.0, 2.0]) == 2.0;
    assert BroadcastSum([1.0, 1.1], qs, [0.0, 2.0]) == 2.2;
  }

  /** The trainer's state between episodes: the number of the episode about
      to run (or, once solved, the one that solved), the running reward, and
      the live and target parameter sets. */
  datatype Trainer<P> = Trainer(episode: nat, runningReward: real, live: P, target: P)

  /** The state before the first episode: episode 1, running reward 10, and
      the target networks loaded from the live ones. */
  function Start<P>(params: P): (t: Trainer<P>)
    ensures t.episode == 1 && t.runningReward == INITIAL_RUNNING_REWARD
    ensures t.target == t.live == params
  {
    Trainer(1, INITIAL_RUNNING_REWARD, params, params)
  }

  /** The episodes after which the targets are refreshed. */
  predicate IsSyncEpisode(episode: int)
  {
    episode % TARGET_UPDATE_STEP == 0
  }

  /** One iteration of the `main` loop: fold the rollout's `step` into the
      running reward, take the parameters the update produced, stop if
      solved, and otherwise copy the live parameters into the targets on
      episodes divisible by `TARGET_UPDATE_STEP`. */
  function Step<P>(t: Trainer<P>, steps: int, updated: P, threshold: real): (o: Iteration<Trainer<P>>)
    ensures o.state.runningReward == UpdateRunningReward(t.runningReward, steps)
    ensures o.state.live == updated
    ensures o.Solved? <==> IsSolved(o.state.runningReward, threshold)
    ensures o.state.episode == if o.Solved? then t.episode else t.episode + 1
    ensures o.state.target != t.target ==> o.Continue? && IsSyncEpisode(t.episode)
    ensures o.Continue? && IsSyncEpisode(t.episode) ==> o.state.target == o.state.live
  {
    var rr := UpdateRunningReward(t.runningReward, steps);
    if IsSolved(rr, threshold) then
      Solved(Trainer(t.episode, rr, updated, t.target))
    else if IsSyncEpisode(t.episode) then
      Continue(Trainer(t.episode + 1, rr, updated, updated))
    else
      Continue(Trainer(t.episode + 1, rr, updated, t.target))
  }

  /** The training loop over a script of rollout outcomes: episode by
      episode, until solved or the script is exhausted. `update` stands for
      `update_network`, producing new live parameters from the live and
      target ones for the given episode. */
  function Run<P>(t: Trainer<P>, steps: seq<int>, update: (P, P, nat) -> P, threshold: real): Iteration<Trainer<P>>
    decreases |steps|
  {
    if |steps| == 0 then Continue(t)
    else
      match Step(t, steps[0], update(t.live, t.target, t.episode), threshold)
      case Solved(t') => Solved(t')
      case Continue(t') => Run(t', steps[1..], update, threshold)
  }

  /** Between synchronisations the targets stay frozen: a run through
      episodes none of which is divisible by `TARGET_UPDATE_STEP` leaves
      them as they were. */
  lemma {:induction false} TargetFrozenBetweenSyncs<P>(t: Trainer<P>, steps: seq<int>,
                                                       update: (P, P, nat) -> P, threshold: real)
    requires forall e :: t.episode <= e < t.episode + |steps| ==> !IsSyncEpisode(e)
    ensures Run(t, steps, update, threshold).state.target == t.target
    decreases |steps|
  {
    if |steps| > 0 {
      var o := Step(t, steps[0], update(t.live, t.target, t.episode), threshold);
      assert !IsSyncEpisode(t.episode);
      if o.Continue? {
        TargetFrozenBetweenSyncs(o.state, steps[1..], update, threshold);
      }
    }
  }

  /** A run that goes on past an episode divisible by `TARGET_UPDATE_STEP`
      hands the next episode's update targets equal to the live parameters,
      i.e. to the parameters that update starts from. */
  lemma {:induction false} SyncedAfterDivisibleEpisode<P>(t: Trainer<P>, steps: seq<int>,
                                                          update: (P, P, nat) -> P, threshold: real)
    requires |steps| > 0
    requires IsSyncEpisode(t.episode + |steps| - 1)
    requires Run(t, steps, update, threshold).Continue?
    ensures Run(t, steps, update, threshold).state.target == Run(t, steps, update, threshold).state.live
    decreases |steps|
  {
    var o := Step(t, steps[0], update(t.live, t.target, t.episode), threshold);
    if |steps| > 1 {
      SyncedAfterDivisibleEpisode(o.state, steps[1..], update, threshold);
    }
  }
}
