/**
 The environment boundary both `roll_out` functions drive. The simulated
 environment is an oracle: from a state and an action index it yields the
 next state, a reward and the `done` flag. The policy's categorical sampler
 is an oracle too: it picks an action index for a state, and the index of
 the draw within the rollout stands for the sampler's randomness. The type
 `S` is the environment's whole state, so the oracle is a function of it.
 */
module Rollouts {

  /** The only failure `roll_out` has of its own: with a budget of zero steps
      the loop variable it returns is never bound. */
  datatype RolloutError = StepUnbound

  datatype Result<T> = Ok(value: T) | Err(error: RolloutError)

  /** What one `env.step(action)` returns (the `info` dictionary is unused). */
  datatype Transition<S> = Transition(next: S, reward: real, done: bool)

  /** The environment's response at step `i` of a recorded trajectory, to the
      action the sampler drew there. */
  function Outcome<S>(env: (S, int) -> Transition<S>, sample: (S, nat) -> int,
                      states: seq<S>, i: nat): Transition<S>
    requires i < |states|
  {
    env(states[i], sample(states[i], i))
  }

  /** `states`/`rewards` are a prefix of the run that starts in `init`: the
      rewards are the ones the environment returned, and every step but the
      last recorded one continued (no `done`) into the next recorded state. */
  ghost predicate Follows<S>(init: S, env: (S, int) -> Transition<S>, sample: (S, nat) -> int,
                             states: seq<S>, rewards: seq<real>)
  {
    && |states| == |rewards|
    && (|states| > 0 ==> states[0] == init)
    && (forall i :: 0 <= i < |states| ==> rewards[i] == Outcome(env, sample, states, i).reward)
    && (forall i :: 0 <= i < |states| - 1 ==>
          !Outcome(env, sample, states, i).done && states[i + 1] == Outcome(env, sample, states, i).next)
  }

  /** A complete rollout under a budget of `limit` steps: at least one step,
      never more than `limit`, and it stopped early only because the
      environment reported `done` on its last step. */
  ghost predicate IsRollout<S>(init: S, env: (S, int) -> Transition<S>, sample: (S, nat) -> int,
                               limit: nat, states: seq<S>, rewards: seq<real>)
  {
    && Follows(init, env, sample, states, rewards)
    && 1 <= |states| <= limit
    && (|states| < limit ==> Outcome(env, sample, states, |states| - 1).done)
  }

  /** Whether the environment reported `done` on the last recorded step. */
  ghost predicate EndedDone<S>(env: (S, int) -> Transition<S>, sample: (S, nat) -> int, states: seq<S>)
    requires |states| > 0
  {
    Outcome(env, sample, states, |states| - 1).done
  }

  /** The deterministic runs are unique: two complete rollouts from the same
      start under the same oracles and budget record the same states and
      rewards. */
  lemma {:induction false} RolloutUnique<S>(init: S, env: (S, int) -> Transition<S>, sample: (S, nat) -> int,
                                            limit: nat, states: seq<S>, rewards: seq<real>,
                                            states': seq<S>, rewards': seq<real>)
    requires IsRollout(init, env, sample, limit, states, rewards)
    requires IsRollout(init, env, sample, limit, states', rewards')
    ensures states == states' && rewards == rewards'
  {
    var k := 0;
    while k < |states| - 1 && k < |states'| - 1
      invariant 0 <= k < |states| && k < |states'|
      invariant states[..k + 1] == states'[..k + 1]
      decreases |states| - k
    {
      assert Outcome(env, sample, states, k) == Outcome(env, sample, states', k);
      k := k + 1;
    }
    assert Outcome(env, sample, states, k) == Outcome(env, sample, states', k);
    assert |states| == |states'|;
    assert states == states'[..|states|];
  }
}
