/**
 A closed form for the returns of `discount_reward` with the discount
 factor both scripts use: each return is the discounted sum of the rewards
 still to come plus the bootstrap value discounted once per remaining step.
 The discounted sum is an independent reference definition, built from its
 last term backwards rather than by the estimator's recurrence.
 */
module ClosedForm {
  import opened RealSeqs
  import opened Returns

  /** Peeling the first term off a discounted sum discounts the rest once. */
  lemma {:induction false} DiscountedSumHead(r: seq<real>, t: nat, n: nat)
    requires n > 0 && t + n <= |r|
    ensures DiscountedSum(r, GAMMA, t, n) == r[t] + GAMMA * DiscountedSum(r, GAMMA, t + 1, n - 1)
    decreases n
  {
    if n > 1 {
      DiscountedSumHead(r, t, n - 1);
      PowStep(GAMMA, n - 1);
      HeadAlgebra(DiscountedSum(r, GAMMA, t, n), DiscountedSum(r, GAMMA, t, n - 1),
                  DiscountedSum(r, GAMMA, t + 1, n - 2), DiscountedSum(r, GAMMA, t + 1, n - 1),
                  r[t], r[t + n - 1], GAMMA, Pow(GAMMA, n - 1), Pow(GAMMA, n - 2));
    }
  }

  /** The algebra behind `DiscountedSumHead`. */
  lemma HeadAlgebra(whole: real, init: real, initTail: real, tail: real, first: real, last: real,
                    g: real, p: real, q: real)
    requires whole == init + p * last
    requires init == first + g * initTail
    requires tail == initTail + q * last
    requires p == g * q
    ensures whole == first + g * tail
  {
  }

  /** Closed form of one return: the discounted sum of the rewards from `t`
      on, plus the bootstrap value discounted once per remaining step. */
  lemma {:induction false} ReturnClosedFormAt(r: seq<real>, finalR: real, t: nat)
    requires t < |r|
    ensures DiscountReward(r, GAMMA, finalR)[t]
         == DiscountedSum(r, GAMMA, t, |r| - t) + Pow(GAMMA, |r| - t) * finalR
    decreases |r| - t
  {
    if t == |r| - 1 {
      ClosedFormLast(r, finalR);
    } else {
      ReturnClosedFormAt(r, finalR, t + 1);
      ClosedFormBackStep(r, finalR, t);
    }
  }

  /** The closed form holds for the last return. */
  lemma ClosedFormLast(r: seq<real>, finalR: real)
    requires |r| > 0
    ensures DiscountReward(r, GAMMA, finalR)[|r| - 1]
         == DiscountedSum(r, GAMMA, |r| - 1, 1) + Pow(GAMMA, 1) * finalR
  {
    LastReturn(r, finalR);
    LastTerms(r, finalR);
  }

  // The facts behind `ClosedFormLast` are proved apart: together in one
  // context their products send the solver's arithmetic astray.
  lemma LastReturn(r: seq<real>, finalR: real)
    requires |r| > 0
    ensures DiscountReward(r, GAMMA, finalR)[|r| - 1] == r[|r| - 1] + GAMMA * finalR
  {
  }

  lemma LastTerms(r: seq<real>, finalR: real)
    requires |r| > 0
    ensures DiscountedSum(r, GAMMA, |r| - 1, 1) + Pow(GAMMA, 1) * finalR == r[|r| - 1] + GAMMA * finalR
  {
    assert DiscountedSum(r, GAMMA, |r| - 1, 0) == 0.0;
    assert Pow(GAMMA, 1) == GAMMA;
  }

  /** If the closed form holds for return `t + 1`, it holds for return `t`. */
  lemma ClosedFormBackStep(r: seq<real>, finalR: real, t: nat)
    requires t < |r| - 1
    requires DiscountReward(r, GAMMA, finalR)[t + 1]
          == DiscountedSum(r, GAMMA, t + 1, |r| - t - 1) + Pow(GAMMA, |r| - t - 1) * finalR
    ensures DiscountReward(r, GAMMA, finalR)[t]
         == DiscountedSum(r, GAMMA, t, |r| - t) + Pow(GAMMA, |r| - t) * finalR
  {
    var n := |r| - t;
    var d := DiscountReward(r, GAMMA, finalR);
    DiscountedSumHead(r, t, n);
    PowStep(GAMMA, n);
    ReturnStep(r, GAMMA, finalR, t);
    var dt, next := d[t], d[t + 1];
    var tail, head := DiscountedSum(r, GAMMA, t + 1, n - 1), DiscountedSum(r, GAMMA, t, n);
    var p, pn := Pow(GAMMA, n - 1), Pow(GAMMA, n);
    Combine(dt, next, r[t], GAMMA, tail, p, pn, finalR, head);
  }

  lemma ReturnStep(r: seq<real>, gamma: real, finalR: real, t: nat)
    requires t < |r| - 1
    ensures DiscountReward(r, gamma, finalR)[t]
         == r[t] + gamma * DiscountReward(r, gamma, finalR)[t + 1]
  {
  }

  lemma PowStep(x: real, n: nat)
    requires n > 0
    ensures Pow(x, n) == x * Pow(x, n - 1)
    ensures n == 1 ==> Pow(x, n) == x
  {
  }

  /** One backward step of the closed form, as plain algebra. */
  lemma Combine(dt: real, next: real, rt: real, g: real, tail: real, p: real, pn: real, f: real, head: real)
    requires dt == rt + g * next
    requires next == tail + p * f
    requires head == rt + g * tail
    requires pn == g * p
    ensures dt == head + pn * f
  {
  }

  /** Every return agrees with the closed form. */
  lemma ReturnClosedForm(r: seq<real>, finalR: real)
    ensures forall t :: 0 <= t < |r| ==>
      DiscountReward(r, GAMMA, finalR)[t]
        == DiscountedSum(r, GAMMA, t, |r| - t) + Pow(GAMMA, |r| - t) * finalR
  {
    forall t | 0 <= t < |r|
      ensures DiscountReward(r, GAMMA, finalR)[t]
           == DiscountedSum(r, GAMMA, t, |r| - t) + Pow(GAMMA, |r| - t) * finalR
    {
      ReturnClosedFormAt(r, finalR, t);
    }
  }
}
