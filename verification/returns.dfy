/**
 The return estimator shared by both training scripts: `discount_reward`
 turns a trajectory's immediate rewards into discounted returns by one
 backward pass, seeded with a bootstrap value (PPO) or with zero (A2C).
 Advantages are returns minus a value baseline that is a plain number
 (the value network's output after `detach`).
 The scripts subtract a column of values from a row of returns, which
 broadcasts to a matrix whose diagonal holds the per-step advantages.
 */
module Returns {
  import opened RealSeqs

  /** The discount factor both scripts pass to `discount_reward`. */
  const GAMMA: real := 0.99

  /** The backward loop of `discount_reward` restricted to indices `t-1`
      down to 0: `running` is the running sum after indices `t..` were
      consumed, and the result holds the returns of `r[..t]`. */
  function Accumulate(r: seq<real>, gamma: real, running: real, t: nat): (d: seq<real>)
    requires t <= |r|
    ensures |d| == t
    ensures t > 0 ==> d[t - 1] == r[t - 1] + gamma * running
    ensures forall i {:trigger r[i], d[i]} :: 0 <= i < t - 1 ==> d[i] == r[i] + gamma * d[i + 1]
    decreases t
  {
    if t == 0 then []
    else
      var run := running * gamma + r[t - 1];
      Accumulate(r, gamma, run, t - 1) + [run]
  }

  /** `discount_reward(r, gamma, final_r)`: one return per reward; the last
      return adds the discounted bootstrap value and every earlier one adds
      the discounted next return. */
  function DiscountReward(r: seq<real>, gamma: real, finalR: real): (d: seq<real>)
    ensures |d| == |r|
    ensures |r| > 0 ==> d[|r| - 1] == r[|r| - 1] + gamma * finalR
    ensures forall t {:trigger r[t], d[t]} :: 0 <= t < |r| - 1 ==> d[t] == r[t] + gamma * d[t + 1]
  {
    Accumulate(r, gamma, finalR, |r|)
  }

  /** The recurrence pins the returns down: any sequence that satisfies the
      contract of `DiscountReward` is the result of `DiscountReward`. */
  lemma {:induction false} RecurrenceDeterminesReturns(r: seq<real>, gamma: real, finalR: real, d: seq<real>)
    requires |d| == |r|
    requires |r| > 0 ==> d[|r| - 1] == r[|r| - 1] + gamma * finalR
    requires forall t :: 0 <= t < |r| - 1 ==> d[t] == r[t] + gamma * d[t + 1]
    ensures d == DiscountReward(r, gamma, finalR)
  {
    var e := DiscountReward(r, gamma, finalR);
    var k := |r|;
    while k > 0
      invariant 0 <= k <= |r|
      invariant forall t :: k <= t < |r| ==> d[t] == e[t]
      decreases k
    {
      k := k - 1;
      if k < |r| - 1 {
        assert d[k + 1] == e[k + 1];
      }
    }
  }

  /** Advantages: each step's return minus the value estimate for the same
      step, taken as a constant (the baseline is detached). */
  function Advantages(qs: seq<real>, vs: seq<real>): (a: seq<real>)
    requires |qs| == |vs|
    ensures |a| == |qs|
    ensures forall t :: 0 <= t < |a| ==> a[t] + vs[t] == qs[t]
  {
    seq(|qs|, t requires 0 <= t < |qs| => qs[t] - vs[t])
  }

  /** `qs - vs` as both scripts evaluate it: the value network returns a
      column of shape [T, 1] and the returns are a row of shape [T], so the
      difference broadcasts to a T-by-T matrix. Row `i` holds every return
      less the single value `vs[i]`. */
  function BroadcastAdvantages(qs: seq<real>, vs: seq<real>): (m: seq<seq<real>>)
    ensures |m| == |vs|
    ensures forall i :: 0 <= i < |vs| ==> |m[i]| == |qs|
    ensures forall i, j :: 0 <= i < |vs| && 0 <= j < |qs| ==> m[i][j] == qs[j] - vs[i]
  {
    seq(|vs|, i requires 0 <= i < |vs| => Advantages(qs, Fill(|qs|, vs[i])))
  }

  /** The per-step advantages are the diagonal of the broadcast matrix;
      every off-diagonal entry weighs a return against another step's
      value. */
  lemma PerStepIsDiagonal(qs: seq<real>, vs: seq<real>)
    requires |qs| == |vs|
    ensures forall t :: 0 <= t < |qs| ==> Advantages(qs, vs)[t] == BroadcastAdvantages(qs, vs)[t][t]
    ensures forall i, j :: 0 <= i < |vs| && 0 <= j < |qs| ==>
      BroadcastAdvantages(qs, vs)[i][j] == Advantages(qs, vs)[j] + (vs[j] - vs[i])
  {
  }

  /** Returns [1, 2] and values [0, 2]: two per-step advantages, four
      broadcast entries. */
  lemma BroadcastExample()
    ensures Advantages([1.0, 2.0], [0.0, 2.0]) == [1.0, 0.0]
    ensures BroadcastAdvantages([1.0, 2.0], [0.0, 2.0]) == [[1.0, 2.0], [-1.0, 0.0]]
  {
    var m := BroadcastAdvantages([1.0, 2.0], [0.0, 2.0]);
    assert m[0] == [1.0, 2.0];
    assert m[1] == [-1.0, 0.0];
  }

  /** Dropping the first return from a constant-baseline advantage vector. */
  lemma AdvantagesTail(qs: seq<real>, v: real)
    requires |qs| > 0
    ensures Advantages(qs, Fill(|qs|, v))[1..] == Advantages(qs[1..], Fill(|qs| - 1, v))
  {
    var a := Advantages(qs, Fill(|qs|, v))[1..];
    var b := Advantages(qs[1..], Fill(|qs| - 1, v));
    assert forall i :: 0 <= i < |a| ==> a[i] == qs[i + 1] - v == b[i];
  }
}
