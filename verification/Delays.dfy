/** The random and deterministic delays of the sender, in nanoseconds (src/sender.rs). */
module Delays {
  const MILLISECOND: nat := 1_000_000
  const RESPONSE_DELAY: nat := 100 * MILLISECOND
  const DRAWS: nat := 1_000_000

  function Min(a: int, b: int): int {
    if a <= b then a else b
  }

  function Max(a: int, b: int): int {
    if a <= b then b else a
  }

  /** A fraction `millionth / 1_000_000` of an interval, as computed: divide first, then multiply. */
  function Fraction(interval: nat, millionth: nat): nat {
    interval / 1_000_000 * millionth
  }

  function QueryInterval(tau: nat, swarmSize: nat): nat {
    tau * swarmSize / 10
  }

  function QueryDelay(tau: nat, swarmSize: nat, millionth: nat): nat {
    tau + Fraction(QueryInterval(tau, swarmSize), millionth)
  }

  function ResponseInterval(cutoff: nat, swarmSize: nat): nat
    requires cutoff >= 1
  {
    RESPONSE_DELAY * swarmSize / cutoff
  }

  function ResponseDelay(cutoff: nat, swarmSize: nat, millionth: nat, extraDelay: nat): nat
    requires cutoff >= 1
  {
    Fraction(ResponseInterval(cutoff, swarmSize), millionth) + extraDelay
  }

  /** The handicap for the coming response phase, given the one of the previous phase. */
  function ExtraDelay(previous: nat, hasResponded: bool, swarmSize: nat, cutoff: nat): nat
    requires cutoff >= 1
  {
    if hasResponded then RESPONSE_DELAY * Min(swarmSize / cutoff, 10)
    else if previous < RESPONSE_DELAY then 0
    else previous - RESPONSE_DELAY
  }

  /** Dividing first loses less than a millisecond against the ideal fraction `interval * millionth / 1_000_000`. */
  lemma FractionIsClose(interval: nat, millionth: nat)
    requires millionth < DRAWS
    ensures Fraction(interval, millionth) * 1_000_000 <= interval * millionth
    ensures interval * millionth <= (Fraction(interval, millionth) + MILLISECOND) * 1_000_000
    ensures Fraction(interval, millionth) <= interval
  {
    var q, r := interval / 1_000_000, interval % 1_000_000;
    assert interval == q * 1_000_000 + r;
    assert interval * millionth == q * millionth * 1_000_000 + r * millionth;
    MulBound(r, millionth, 1_000_000, 1_000_000);
    MulBound(q, millionth, q, 1_000_000);
  }

  lemma MulBound(a: nat, b: nat, c: nat, d: nat)
    requires a <= c && b <= d
    ensures a * b <= c * d
  {
    assert a * b <= c * b;
    assert c * b <= c * d;
  }

  lemma QuotientAtLeast(q: nat, b: nat, c: nat)
    requires c >= 1 && q * c <= b
    ensures q <= b / c
  {
    var p := b / c;
    assert b == p * c + b % c;
    assert (p + 1) * c == p * c + c;
    if q > p {
      MulBound(p + 1, c, q, c);
    }
  }

  lemma DivMono(a: nat, b: nat, c: nat)
    requires a <= b && c >= 1
    ensures a / c <= b / c
  {
    assert a == a / c * c + a % c;
    QuotientAtLeast(a / c, b, c);
  }

  lemma DivStep(x: nat, c: nat)
    requires c >= 1 && x >= c
    ensures (x - c) / c + 1 == x / c
  {
    var p, q := (x - c) / c, x / c;
    assert x - c == p * c + (x - c) % c;
    assert x == q * c + x % c;
    assert (p + 1) * c == p * c + c;
    assert (q - 1) * c == q * c - c;
    QuotientAtLeast(p + 1, x, c);
    QuotientAtLeast(1, x, c);
    QuotientAtLeast(q - 1, x - c, c);
  }

  lemma RemainderIsSmall(k: nat, s: nat, rest: nat)
    requires rest < k && s < 1_000_000
    ensures k * s + rest < 1_000_000 * k
  {
    MulBound(k, s, k, 999_999);
  }

  lemma Split(x: nat, k: nat) returns (q: nat, t: nat)
    requires k >= 1
    ensures q == x / k / 1_000_000 && x == q * (1_000_000 * k) + t && t < 1_000_000 * k
  {
    var interval, rest := x / k, x % k;
    q := interval / 1_000_000;
    var s := interval % 1_000_000;
    t := k * s + rest;
    RemainderIsSmall(k, s, rest);
    assert x == k * interval + rest && interval == 1_000_000 * q + s;
    assert k * (1_000_000 * q + s) == q * (1_000_000 * k) + k * s;
  }

  lemma RemainderIsLost(q: nat, b: nat, t: nat, m: nat)
    requires t < b && m < MILLISECOND
    ensures q * m * b <= (q * b + t) * m < (q * m + MILLISECOND) * b
  {
    assert (q * b + t) * m == q * b * m + t * m;
    assert q * b * m == q * m * b;
    MulBound(t, m, b, MILLISECOND - 1);
    assert b * (MILLISECOND - 1) == MILLISECOND * b - b;
    assert (q * m + MILLISECOND) * b == q * m * b + MILLISECOND * b;
  }

  /** The fraction of x / k, computed with two truncating divisions, falls short of the ideal x * m / (k * 1_000_000) by less than 1ms. */
  lemma TruncationLoss(x: nat, k: nat, millionth: nat)
    requires k >= 1 && millionth < DRAWS
    ensures Fraction(x / k, millionth) * (1_000_000 * k) <= x * millionth
    ensures x * millionth < (Fraction(x / k, millionth) + MILLISECOND) * (1_000_000 * k)
  {
    var q, t := Split(x, k);
    RemainderIsLost(q, 1_000_000 * k, t, millionth);
  }

  /** The query delay is the ideal tau + tau * S / 10 * m / 1_000_000, short of less than a millisecond. */
  lemma QueryDelayIsIdeal(tau: nat, swarmSize: nat, millionth: nat)
    requires millionth < DRAWS
    ensures var random := QueryDelay(tau, swarmSize, millionth) - tau;
      random * 10_000_000 <= tau * swarmSize * millionth < (random + MILLISECOND) * 10_000_000
  {
    TruncationLoss(tau * swarmSize, 10, millionth);
  }

  /** The response delay is the ideal 100ms * S / cutoff * m / 1_000_000 plus the handicap, short of less than a millisecond. */
  lemma ResponseDelayIsIdeal(cutoff: nat, swarmSize: nat, millionth: nat, extraDelay: nat)
    requires cutoff >= 1 && millionth < DRAWS
    ensures var random := ResponseDelay(cutoff, swarmSize, millionth, extraDelay) - extraDelay;
      random * (1_000_000 * cutoff) <= RESPONSE_DELAY * swarmSize * millionth < (random + MILLISECOND) * (1_000_000 * cutoff)
  {
    TruncationLoss(RESPONSE_DELAY * swarmSize, cutoff, millionth);
  }

  /** A query comes at least tau after it was scheduled and, for at most `bound` peers, at most tau * bound / 10 later. */
  lemma QueryDelayBounds(tau: nat, swarmSize: nat, bound: nat, millionth: nat)
    requires millionth < DRAWS && swarmSize <= bound
    ensures tau <= QueryDelay(tau, swarmSize, millionth) <= tau + tau * bound / 10
  {
    FractionIsClose(QueryInterval(tau, swarmSize), millionth);
    MulBound(tau, swarmSize, tau, bound);
    DivMono(tau * swarmSize, tau * bound, 10);
  }

  lemma ResponseDelayBounds(cutoff: nat, swarmSize: nat, bound: nat, millionth: nat, extraDelay: nat)
    requires cutoff >= 1 && millionth < DRAWS && swarmSize <= bound
    ensures extraDelay <= ResponseDelay(cutoff, swarmSize, millionth, extraDelay)
            <= RESPONSE_DELAY * bound / cutoff + extraDelay
  {
    FractionIsClose(ResponseInterval(cutoff, swarmSize), millionth);
    MulBound(RESPONSE_DELAY, swarmSize, RESPONSE_DELAY, bound);
    DivMono(RESPONSE_DELAY * swarmSize, RESPONSE_DELAY * bound, cutoff);
  }

  /** The handicap is always a whole number of response delays and at most one second. */
  ghost predicate ValidExtra(extraDelay: nat) {
    exists k :: 0 <= k <= 10 && extraDelay == RESPONSE_DELAY * k
  }

  lemma ExtraDelayIsValid(previous: nat, hasResponded: bool, swarmSize: nat, cutoff: nat)
    requires cutoff >= 1 && ValidExtra(previous)
    ensures ValidExtra(ExtraDelay(previous, hasResponded, swarmSize, cutoff))
  {
    var k :| 0 <= k <= 10 && previous == RESPONSE_DELAY * k;
    if hasResponded {
      assert ExtraDelay(previous, hasResponded, swarmSize, cutoff) == RESPONSE_DELAY * Min(swarmSize / cutoff, 10);
    } else if k > 0 {
      assert ExtraDelay(previous, hasResponded, swarmSize, cutoff) == RESPONSE_DELAY * (k - 1);
    } else {
      assert ExtraDelay(previous, hasResponded, swarmSize, cutoff) == RESPONSE_DELAY * 0;
    }
  }

  /** The handicaps of the rounds that follow a response; sizes[i] is the swarm size known in round i. */
  function HandicapAfter(previous: nat, sizes: seq<nat>, cutoff: nat): nat
    requires cutoff >= 1
  {
    if sizes == [] then previous
    else
      var n := |sizes| - 1;
      ExtraDelay(HandicapAfter(previous, sizes[..n], cutoff), n == 0, sizes[n], cutoff)
  }

  /**
   In the k-th round after a response with no later response, the handicap is
   100ms * max(0, min(10, S / cutoff) - (k - 1)), where S is the size known in the first of these rounds.
   */
  lemma {:induction false} HandicapDecays(previous: nat, sizes: seq<nat>, cutoff: nat)
    requires cutoff >= 1 && sizes != []
    ensures HandicapAfter(previous, sizes, cutoff) ==
            RESPONSE_DELAY * Max(0, Min(10, sizes[0] / cutoff) - (|sizes| - 1))
  {
    var n := |sizes| - 1;
    if n > 0 {
      HandicapDecays(previous, sizes[..n], cutoff);
    }
  }
}
