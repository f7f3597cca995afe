/**
 The trainer bookkeeping both `main` loops share: the exponentially smoothed
 running reward (initially 10, updated once per episode from the rollout's
 returned `step`), and the strict solved test against the environment's
 reward threshold.
 */
module Training {
  import opened RealSeqs

  /** `running_reward` before the first episode. */
  const INITIAL_RUNNING_REWARD: real := 10.0

  /** Weight kept from the previous running reward. */
  const DECAY: real := 0.99

  /** The outcome of one trainer iteration: the loop either breaks because
      the environment counts as solved, or goes on with the next episode. */
  datatype Iteration<T> = Solved(state: T) | Continue(state: T)

  /** `running_reward * 0.99 + steps * 0.01`: a convex combination, so the
      new value lies between the old one and `steps`, and its distance to
      `steps` shrinks by the factor `DECAY`. */
  function UpdateRunningReward(runningReward: real, steps: int): (r: real)
    ensures runningReward <= steps as real ==> runningReward <= r <= steps as real
    ensures steps as real <= runningReward ==> steps as real <= r <= runningReward
    ensures r - steps as real == DECAY * (runningReward - steps as real)
  {
    runningReward * 0.99 + steps as real * 0.01
  }

  /** The loop breaks only when the running reward strictly exceeds the
      threshold. */
  predicate IsSolved(runningReward: real, threshold: real)
  {
    runningReward > threshold
  }

  /** The running reward after the episodes whose `step` values are `steps`,
      one update per episode in order. */
  function RunningAfter(runningReward: real, steps: seq<int>): real
    decreases |steps|
  {
    if |steps| == 0 then runningReward
    else RunningAfter(UpdateRunningReward(runningReward, steps[0]), steps[1..])
  }

  /** The running reward just after episode `k` (counted from 0) of `steps`. */
  function RunningAt(runningReward: real, steps: seq<int>, k: nat): real
    requires k < |steps|
  {
    RunningAfter(runningReward, steps[..k + 1])
  }

  /** After the first episode the running reward has been updated once. */
  lemma RunningAtFirst(runningReward: real, steps: seq<int>)
    requires |steps| > 0
    ensures RunningAt(runningReward, steps, 0) == UpdateRunningReward(runningReward, steps[0])
  {
    var first := UpdateRunningReward(runningReward, steps[0]);
    assert steps[..1] == [steps[0]];
    assert RunningAfter(first, []) == first;
    assert RunningAfter(runningReward, [steps[0]]) == RunningAfter(first, [steps[0]][1..]);
    assert [steps[0]][1..] == [];
  }

  /** Peeling the first episode off `RunningAt`. */
  lemma RunningAtShift(runningReward: real, steps: seq<int>, k: nat)
    requires 0 < k < |steps|
    ensures RunningAt(runningReward, steps, k)
         == RunningAt(UpdateRunningReward(runningReward, steps[0]), steps[1..], k - 1)
  {
    assert steps[..k + 1][1..] == steps[1..][..k];
  }

  /** The running reward after `n` episodes that all returned the same `steps`. */
  function Repeat(runningReward: real, steps: int, n: nat): real
  {
    if n == 0 then runningReward
    else UpdateRunningReward(Repeat(runningReward, steps, n - 1), steps)
  }

  /** With a constant episode outcome `s` the distance of the running reward
      to `s` shrinks geometrically: after `n` episodes it is `DECAY^n` times
      the initial distance. */
  lemma {:induction false} RepeatConverges(runningReward: real, steps: int, n: nat)
    ensures Repeat(runningReward, steps, n) - steps as real
         == Pow(DECAY, n) * (runningReward - steps as real)
  {
    if n > 0 {
      RepeatConverges(runningReward, steps, n - 1);
      var d := runningReward - steps as real;
      calc {
        Repeat(runningReward, steps, n) - steps as real;
        DECAY * (Repeat(runningReward, steps, n - 1) - steps as real);
        DECAY * (Pow(DECAY, n - 1) * d);
        { MulAssoc(DECAY, Pow(DECAY, n - 1), d); }
        (DECAY * Pow(DECAY, n - 1)) * d;
      }
    }
  }

  lemma MulAssoc(a: real, b: real, c: real)
    ensures a * (b * c) == (a * b) * c
  {
  }

  /** The contraction factor lies in `[0, 1]` and never grows, so the running
      reward approaches `steps` monotonically. */
  lemma {:induction false} DecayPowBounds(n: nat)
    ensures 0.0 <= Pow(DECAY, n + 1) <= Pow(DECAY, n) <= 1.0
  {
    if n > 0 {
      DecayPowBounds(n - 1);
    }
  }
}
