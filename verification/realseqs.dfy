/**
 Exact real-valued stand-ins for the small tensor reductions the training
 scripts use: sums, means, dot products and powers over `seq<real>`.
 */
module RealSeqs {

  /** Sum of all elements, folded from the front. */
  function Sum(s: seq<real>): real
  {
    if |s| == 0 then 0.0 else s[0] + Sum(s[1..])
  }

  /** Arithmetic mean; the scripts only take means of non-empty batches. */
  function Mean(s: seq<real>): real
    requires |s| > 0
  {
    Sum(s) / |s| as real
  }

  /** Dot product of two equally long vectors. */
  function Dot(a: seq<real>, b: seq<real>): real
    requires |a| == |b|
  {
    if |a| == 0 then 0.0 else a[0] * b[0] + Dot(a[1..], b[1..])
  }

  /** `x` raised to a natural power. */
  function Pow(x: real, n: nat): real
  {
    if n == 0 then 1.0 else x * Pow(x, n - 1)
  }

  /** The discounted sum `r[t] + gamma*r[t+1] + ... + gamma^(n-1)*r[t+n-1]`
      of the `n` rewards from index `t`, built from its last term backwards,
      as an independent reference. */
  function DiscountedSum(r: seq<real>, gamma: real, t: nat, n: nat): real
    requires t + n <= |r|
  {
    if n == 0 then 0.0
    else DiscountedSum(r, gamma, t, n - 1) + Pow(gamma, n - 1) * r[t + n - 1]
  }

  /** The vector of length `n` whose every entry is `c`. */
  function Fill(n: nat, c: real): (s: seq<real>)
    ensures |s| == n
    ensures forall i :: 0 <= i < n ==> s[i] == c
  {
    seq(n, _ => c)
  }

  /** Element-wise product of two equally long vectors. */
  function Times(a: seq<real>, b: seq<real>): (c: seq<real>)
    requires |a| == |b|
    ensures |c| == |a|
    ensures forall i :: 0 <= i < |c| ==> c[i] == a[i] * b[i]
  {
    seq(|a|, i requires 0 <= i < |a| => a[i] * b[i])
  }

  /** The sum of the element-wise product is the dot product. */
  lemma {:induction false} SumTimesIsDot(a: seq<real>, b: seq<real>)
    requires |a| == |b|
    ensures Sum(Times(a, b)) == Dot(a, b)
    decreases |a|
  {
    if |a| > 0 {
      TimesTail(a, b);
      SumTimesIsDot(a[1..], b[1..]);
    }
  }

  /** Dropping the first element commutes with the element-wise product. */
  lemma TimesTail(a: seq<real>, b: seq<real>)
    requires |a| == |b| > 0
    ensures Times(a, b)[1..] == Times(a[1..], b[1..])
  {
    var rest := Times(a, b)[1..];
    assert forall i :: 0 <= i < |rest| ==> rest[i] == a[1..][i] * b[1..][i];
  }

  /** Sums respect a pointwise order. */
  lemma {:induction false} SumMonotone(a: seq<real>, b: seq<real>)
    requires |a| == |b|
    requires forall i :: 0 <= i < |a| ==> a[i] <= b[i]
    ensures Sum(a) <= Sum(b)
    decreases |a|
  {
    if |a| > 0 {
      SumMonotone(a[1..], b[1..]);
    }
  }

  /** A dot product against a vector that is zero everywhere except possibly
      at index `k` picks out the `k`-th product (or nothing if `k` is outside). */
  lemma {:induction false} DotSparse(a: seq<real>, w: seq<real>, k: int)
    requires |a| == |w|
    requires forall i :: 0 <= i < |w| && i != k ==> w[i] == 0.0
    ensures Dot(a, w) == if 0 <= k < |a| then a[k] * w[k] else 0.0
    decreases |a|
  {
    if |a| > 0 {
      DotSparse(a[1..], w[1..], k - 1);
    }
  }

  /** A constant vector sums to its length times the constant. */
  lemma {:induction false} SumConstant(s: seq<real>, c: real)
    requires forall i :: 0 <= i < |s| ==> s[i] == c
    ensures Sum(s) == |s| as real * c
    decreases |s|
  {
    if |s| > 0 {
      SumConstant(s[1..], c);
    }
  }

  /** `sum_i (d - vs[i] * w)`: the sum of an affine function `d - v*w`
      over the values `vs`. */
  function AffineSum(vs: seq<real>, d: real, w: real): real
  {
    if |vs| == 0 then 0.0 else (d - vs[0] * w) + AffineSum(vs[1..], d, w)
  }

  /** The affine sum in closed form. */
  lemma {:induction false} AffineSumClosed(vs: seq<real>, d: real, w: real)
    ensures AffineSum(vs, d, w) == |vs| as real * d - Sum(vs) * w
    decreases |vs|
  {
    if |vs| > 0 {
      AffineSumClosed(vs[1..], d, w);
      AffineSumStep(AffineSum(vs, d, w), AffineSum(vs[1..], d, w), d - vs[0] * w,
                  |vs| as real, |vs[1..]| as real, d, w, vs[0], Sum(vs[1..]), Sum(vs));
    }
  }

  lemma AffineSumStep(all: real, rest: real, row: real, n: real, nRest: real, d: real, w: real,
                    v0: real, sRest: real, s: real)
    requires all == row + rest
    requires row == d - v0 * w
    requires rest == nRest * d - sRest * w
    requires n == nRest + 1.0 && s == v0 + sRest
    ensures all == n * d - s * w
  {
  }

  /** Division undoes multiplication by a non-zero factor. */
  lemma DivCancel(a: real, c: real, q: real)
    requires c != 0.0
    requires a == q * c
    ensures a / c == q
  {
  }
}
