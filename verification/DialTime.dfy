/** The cumulative moving average of dial times and the timeout derived from it. */
module DialTime {

  const SECOND: int := 1_000_000_000
  const MIN_DIAL_TIMEOUT: int := SECOND
  const MAX_DIAL_TIMEOUT: int := 5 * SECOND
  const WEIGHT: int := 4

  /** Division that truncates towards zero. */
  function Quo(x: int, n: int): int
    requires n > 0
  {
    if x >= 0 then x / n else -((-x) / n)
  }

  function Updated(avg: int, x: int): int {
    avg + Quo(x - avg, WEIGHT)
  }

  class Timer {
    var avgDialTime: int

    constructor ()
      ensures avgDialTime == MIN_DIAL_TIMEOUT
    {
      avgDialTime := MIN_DIAL_TIMEOUT;
    }

    method UpdateDialTimeout(newDialTime: int)
      modifies this
      ensures avgDialTime == Updated(old(avgDialTime), newDialTime)
    {
      var dt := newDialTime - avgDialTime;
      avgDialTime := avgDialTime + Quo(dt, WEIGHT);
    }
  }

  function Averaged(avg: int, xs: seq<int>): int
    decreases |xs|
  {
    if xs == [] then avg else Averaged(Updated(avg, xs[0]), xs[1..])
  }

  /** The average never leaves the hull of its start value and the observations. */
  lemma {:induction false} StaysInHull(avg: int, xs: seq<int>, lo: int, hi: int)
    requires lo <= avg <= hi && forall i :: 0 <= i < |xs| ==> lo <= xs[i] <= hi
    ensures lo <= Averaged(avg, xs) <= hi
    decreases |xs|
  {
    if xs != [] {
      StaysInHull(Updated(avg, xs[0]), xs[1..], lo, hi);
    }
  }

  function Abs(x: int): nat {
    if x < 0 then -x else x
  }

  function Pow(b: nat, k: nat): (r: nat)
    ensures b > 0 ==> r > 0
  {
    if k == 0 then 1 else b * Pow(b, k - 1)
  }

  function Repeat(x: int, k: nat): (xs: seq<int>)
    ensures |xs| == k
  {
    if k == 0 then [] else [x] + Repeat(x, k - 1)
  }

  lemma OneStepCloser(avg: int, x: int)
    ensures 4 * (Abs(x - Updated(avg, x)) - 3) <= 3 * (Abs(x - avg) - 3)
    ensures Updated(avg, x) == avg <==> Abs(x - avg) <= 3
  {
  }

  lemma MulMono(a: nat, x: int, y: int)
    requires x <= y
    ensures a * x <= a * y
  {
  }

  lemma Chain(p: nat, q: nat, d: int, d1: int, d0: int)
    requires p * d <= q * d1 && 4 * d1 <= 3 * d0
    ensures (4 * p) * d <= (3 * q) * d0
  {
    MulMono(q, 4 * d1, 3 * d0);
    assert (4 * p) * d == 4 * (p * d);
    assert q * (4 * d1) == 4 * (q * d1);
    assert q * (3 * d0) == (3 * q) * d0;
  }

  /** Repeating one observation closes in on it by a quarter each time, down to a distance of 3 that
      truncation never closes. */
  lemma {:induction false} Converges(avg: int, x: int, k: nat)
    ensures Pow(4, k) * (Abs(x - Averaged(avg, Repeat(x, k))) - 3) <= Pow(3, k) * (Abs(x - avg) - 3)
    decreases k
  {
    if k > 0 {
      var next := Updated(avg, x);
      var d, d0, d1 := Abs(x - Averaged(avg, Repeat(x, k))) - 3, Abs(x - avg) - 3, Abs(x - next) - 3;
      assert Repeat(x, k)[1..] == Repeat(x, k - 1);
      Converges(next, x, k - 1);
      OneStepCloser(avg, x);
      Chain(Pow(4, k - 1), Pow(3, k - 1), d, d1, d0);
    }
  }

  /** And no faster: three quarters of the distance are left each time, or more. */
  lemma {:induction false} ConvergesNoFaster(avg: int, x: int, k: nat)
    ensures Pow(3, k) * Abs(x - avg) <= Pow(4, k) * Abs(x - Averaged(avg, Repeat(x, k)))
    decreases k
  {
    if k > 0 {
      var next := Updated(avg, x);
      assert Repeat(x, k)[1..] == Repeat(x, k - 1);
      ConvergesNoFaster(next, x, k - 1);
      assert 3 * Abs(x - avg) <= 4 * Abs(x - next);
      ChainUp(Pow(4, k - 1), Pow(3, k - 1), Abs(x - Averaged(avg, Repeat(x, k))), Abs(x - next), Abs(x - avg));
    }
  }

  lemma ChainUp(p: nat, q: nat, d: int, d1: int, d0: int)
    requires q * d1 <= p * d && 3 * d0 <= 4 * d1
    ensures (3 * q) * d0 <= (4 * p) * d
  {
    MulMono(q, 3 * d0, 4 * d1);
    assert (4 * p) * d == 4 * (p * d);
    assert q * (4 * d1) == 4 * (q * d1);
    assert q * (3 * d0) == (3 * q) * d0;
  }

  /** One update goes a quarter of the way, rounded down, and not past what was observed. */
  lemma QuarterOfTheWay(avg: int, x: int)
    ensures Abs(Updated(avg, x) - avg) == Abs(x - avg) / 4
    ensures Abs(x - Updated(avg, x)) == Abs(x - avg) - Abs(x - avg) / 4
  {
  }

  function LimitDialTimeout(avg: int): int {
    if avg < MIN_DIAL_TIMEOUT then MIN_DIAL_TIMEOUT
    else if avg < MAX_DIAL_TIMEOUT / 2 then avg * 2
    else MAX_DIAL_TIMEOUT
  }

  /** The timeout grows with the average and stays within one and five seconds, in nanoseconds. */
  lemma TimeoutBounds(a: int, b: int)
    requires a <= b
    ensures 1_000_000_000 <= LimitDialTimeout(a) <= LimitDialTimeout(b) <= 5_000_000_000
  {
  }

  function Clamp(x: int): int {
    if x < 1_000_000_000 then 1_000_000_000 else if x > 5_000_000_000 then 5_000_000_000 else x
  }

  /** The timeout is described as twice the average limited to the frame. It is, exactly outside the
      averages between half the minimum and the minimum, for which the minimum itself is used. */
  lemma TwiceTheAverage(avg: int)
    ensures LimitDialTimeout(avg) == Clamp(2 * avg) <==> !(500_000_000 < avg < 1_000_000_000)
    ensures LimitDialTimeout(900_000_000) != Clamp(2 * 900_000_000)
  {
  }

  /** The average is loaded and added to in two atomic steps. This is what updates that all loaded avg
      make of it. */
  function AddedTogether(avg: int, xs: seq<int>): int {
    avg + Steps(avg, xs)
  }

  function Steps(avg: int, xs: seq<int>): int {
    if xs == [] then 0 else Quo(xs[0] - avg, WEIGHT) + Steps(avg, xs[1..])
  }

  predicate InHull(avg: int, xs: seq<int>, lo: int, hi: int) {
    lo <= avg <= hi && forall i :: 0 <= i < |xs| ==> lo <= xs[i] <= hi
  }

  lemma {:induction false} StepsBounded(avg: int, xs: seq<int>, lo: int, hi: int)
    requires InHull(avg, xs, lo, hi)
    ensures |xs| * Quo(lo - avg, WEIGHT) <= Steps(avg, xs) <= |xs| * Quo(hi - avg, WEIGHT)
  {
    if xs != [] {
      StepsBounded(avg, xs[1..], lo, hi);
      var l, h, n := Quo(lo - avg, WEIGHT), Quo(hi - avg, WEIGHT), |xs| - 1;
      QuoMono(lo - avg, xs[0] - avg);
      QuoMono(xs[0] - avg, hi - avg);
      OneMore(n, l);
      OneMore(n, h);
    }
  }

  lemma QuoMono(x: int, y: int)
    requires x <= y
    ensures Quo(x, WEIGHT) <= Quo(y, WEIGHT)
  {
  }

  lemma OneMore(n: int, q: int)
    ensures (n + 1) * q == n * q + q
  {
  }

  lemma {:induction false} StepsRepeated(avg: int, x: int, k: nat)
    ensures Steps(avg, Repeat(x, k)) == k * Quo(x - avg, WEIGHT)
  {
    if k > 0 {
      assert Repeat(x, k)[1..] == Repeat(x, k - 1);
      StepsRepeated(avg, x, k - 1);
      OneMore(k - 1, Quo(x - avg, WEIGHT));
    }
  }

  /** k simultaneous updates never take the average out of the hull of its value and of what they
      observed. */
  ghost predicate StayInHullTogether(k: nat) {
    forall avg, xs, lo, hi | |xs| == k && InHull(avg, xs, lo, hi) :: lo <= AddedTogether(avg, xs) <= hi
  }

  /** That is so exactly when there are at most four of them. */
  lemma SimultaneousUpdates(k: nat)
    ensures StayInHullTogether(k) <==> k <= WEIGHT
  {
    if k <= WEIGHT {
      forall avg, xs, lo, hi | |xs| == k && InHull(avg, xs, lo, hi)
        ensures lo <= AddedTogether(avg, xs) <= hi
      {
        StepsBounded(avg, xs, lo, hi);
        MulMono(Quo(hi - avg, WEIGHT), k, WEIGHT);
        MulMono(-Quo(lo - avg, WEIGHT), k, WEIGHT);
      }
    } else {
      StepsRepeated(0, 4, k);
      RepeatIs(4, k);
      assert InHull(0, Repeat(4, k), 0, 4) && AddedTogether(0, Repeat(4, k)) == k;
    }
  }

  lemma {:induction false} RepeatIs(x: int, k: nat)
    ensures forall i :: 0 <= i < k ==> Repeat(x, k)[i] == x
  {
    if k > 0 {
      RepeatIs(x, k - 1);
    }
  }
}
