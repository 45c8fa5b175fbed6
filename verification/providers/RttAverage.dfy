/** The integer moving average of a provider's round-trip times. */
module RttAverage {
  import opened Arithmetic
  import opened Options

  const TWO_TO_64: nat := 0x1_0000_0000_0000_0000
  const TWO_TO_128: nat := 0x1_0000_0000_0000_0000_0000_0000_0000_0000

  type U64 = n: nat | n <= U64_MAX
  type Window = w: nat | 1 <= w <= U64_MAX witness 1

  /** 128-bit arithmetic and the cast back to 64 bits, as the machine does them. */
  function Wrap128(n: nat): nat { if n < TWO_TO_128 then n else n % TWO_TO_128 }
  function Truncate64(n: nat): U64 { if n <= U64_MAX then n else n % TWO_TO_64 }

  /** One averaging step, in exact integers. */
  function Next(window: Window, ema: nat, rtt: nat): nat {
    var newer: nat := 2 * rtt;
    var older: nat := (window - 1) * ema;
    (newer + older) / (window + 1)
  }

  /** The average over all samples: the first one as it is, then one step per further sample. */
  function Average(window: Window, samples: seq<U64>): nat {
    if samples == [] then 0
    else if |samples| == 1 then samples[0]
    else Next(window, Average(window, samples[..|samples| - 1]), samples[|samples| - 1])
  }

  class ProviderStats {
    const window: Window
    var emaRttUs: U64
    var sampleCount: nat
    ghost var samples: seq<U64>

    /** Every sample is counted; with the greatest window only the first one can be averaged. */
    ghost predicate Valid()
      reads this
    {
      && emaRttUs == Average(window, samples)
      && (sampleCount == 0 <==> samples == [])
      && if window < U64_MAX then sampleCount == |samples| else |samples| <= 1
    }

    /** A window of 0 counts as 1. */
    constructor (requested: U64)
      ensures Valid() && samples == [] && window == if requested == 0 then 1 else requested
    {
      window := if requested == 0 then 1 else requested;
      emaRttUs, sampleCount, samples := 0, 0, [];
    }

    /** The wrapping 128-bit arithmetic and the truncating cast compute the exact average. The call fails,
        keeping the average, if and only if there is one already and the window is the greatest number. */
    method Record(rttUs: U64) returns (ok: bool)
      requires Valid()
      modifies this
      ensures Valid() && sampleCount == old(sampleCount) + 1
      ensures ok <==> old(samples) == [] || window < U64_MAX
      ensures samples == if ok then old(samples) + [rttUs] else old(samples)
    {
      var count := sampleCount;
      sampleCount := sampleCount + 1;
      if count == 0 {
        emaRttUs := rttUs;
        samples := [rttUs];
        return true;
      }
      var next := MachineStep(window, emaRttUs, rttUs);
      if next == None {
        return false;
      }
      emaRttUs := next.value;
      samples := samples + [rttUs];
      assert samples[..|samples| - 1] == old(samples);
      return true;
    }
  }

  /** The arithmetic of `record`: 128-bit products, a 128-bit sum, a division and a cast lose nothing.
      Only the 64-bit `window + 1` can overflow, which stops the call (unchecked, it would go on to
      divide by zero). */
  method MachineStep(window: Window, previous: U64, rttUs: U64) returns (next: Option<U64>)
    ensures next == if window < U64_MAX then Some(Next(window, previous, rttUs)) else None
  {
    if window + 1 > U64_MAX {
      return None;
    }
    var alphaNum := 2;
    var alphaDen := window + 1;
    NothingOverflows(window, previous, rttUs);
    var older: nat := (alphaDen - alphaNum) * previous;
    var sum := Wrap128(Wrap128(rttUs * alphaNum) + Wrap128(older));
    assert sum == 2 * rttUs + older;
    return Some(Truncate64(sum / alphaDen));
  }

  // ---- Bounds -------------------------------------------------------------------------------

  /** The numerator of a step, seen from the old average and from the sample. */
  lemma NumeratorOf(window: Window, ema: nat, rtt: nat)
    ensures var d, n := window + 1, 2 * rtt + (window - 1) * ema;
      && n == ema * d + 2 * (rtt - ema)
      && (ema <= rtt ==> n <= rtt * d)
      && (ema >= rtt ==> n >= rtt * d)
  {
    var d := window + 1;
    ProductOfDifference(d, 2, ema);
    ProductOfDifference(rtt, ema, d);
    ProductOfDifference(ema, rtt, d);
    if ema <= rtt {
      AtLeastDouble(rtt - ema, d);
    } else {
      AtLeastDouble(ema - rtt, d);
    }
  }

  /** A step lands between the old average and the sample. */
  lemma NextIsBetween(window: Window, ema: nat, rtt: nat)
    ensures ema <= rtt ==> ema <= Next(window, ema, rtt) <= rtt
    ensures ema >= rtt ==> rtt <= Next(window, ema, rtt) <= ema
  {
    var d, n := window + 1, 2 * rtt + (window - 1) * ema;
    NumeratorOf(window, ema, rtt);
    QuotientIsBetween(n, d, ema, rtt);
    QuotientIsBetween(n, d, rtt, ema);
  }

  lemma NothingOverflows(window: Window, ema: U64, rtt: U64)
    ensures 0 <= (window - 1) * ema <= (U64_MAX - 1) * U64_MAX
    ensures Next(window, ema, rtt) <= U64_MAX
  {
    ProductBound(window - 1, ema, U64_MAX - 1, U64_MAX);
    NextIsBetween(window, ema, rtt);
  }

  /** The average never leaves the range of the samples. */
  lemma {:induction false} AverageIsInRange(window: Window, samples: seq<U64>, low: nat, high: nat)
    requires samples != [] && forall k :: 0 <= k < |samples| ==> low <= samples[k] <= high
    ensures low <= Average(window, samples) <= high
    decreases |samples|
  {
    if |samples| > 1 {
      var front := samples[..|samples| - 1];
      AverageIsInRange(window, front, low, high);
      NextIsBetween(window, Average(window, front), samples[|samples| - 1]);
    }
  }

  // ---- The average that the integers approximate -----------------------------------------------

  /** One step without rounding: the newest sample has the weight 2 / (window + 1). */
  ghost function ExactNext(window: Window, exact: real, rtt: nat): real {
    var weight := 2.0 / (window + 1) as real;
    exact * (1.0 - weight) + rtt as real * weight
  }

  /** The exponential moving average of all samples, without rounding. */
  ghost function ExactAverage(window: Window, samples: seq<U64>): real {
    if samples == [] then 0.0
    else if |samples| == 1 then samples[0] as real
    else ExactNext(window, ExactAverage(window, samples[..|samples| - 1]), samples[|samples| - 1])
  }

  /** One step in integers: the numerator is divided, and the remainder lost. */
  lemma StepLosesARemainder(window: Window, ema: nat, rtt: nat) returns (lost: nat)
    ensures lost <= window
    ensures Next(window, ema, rtt) * (window + 1) + lost == 2 * rtt + (window - 1) * ema
  {
    var d, n := window + 1, 2 * rtt + (window - 1) * ema;
    NumeratorOf(window, ema, rtt);
    QuotientBounds(n, d);
    lost := n - (n / d) * d;
  }

  lemma DividedByWeight(d: real, exact: real, rtt: real)
    requires d > 0.0
    ensures (exact * (1.0 - 2.0 / d) + rtt * (2.0 / d)) * d == exact * (d - 2.0) + rtt * 2.0
  {
    var w := 2.0 / d;
    assert w * d == 2.0;
    assert (exact * (1.0 - w) + rtt * w) * d == exact * d - exact * (w * d) + rtt * (w * d);
  }

  lemma RealOrder(a: real, b: real, d: real)
    requires d > 0.0
    ensures a <= b <==> a * d <= b * d
    ensures a < b <==> a * d < b * d
  {
    if a < b {
      RealProduct(b - a, d);
      assert (b - a) * d == b * d - a * d;
    } else if b < a {
      RealProduct(a - b, d);
      assert (a - b) * d == a * d - b * d;
    }
  }

  lemma RealProduct(a: real, b: real)
    requires a > 0.0 && b > 0.0
    ensures a * b > 0.0
  {
  }

  lemma HalfOf(x: real, d: real, xd: real, dd: real)
    requires d > 0.0 && xd == x * d && dd == d * d && xd + xd < dd
    ensures x + x < d
  {
    Twice(x, d);
    RealOrder(x + x, d, d);
  }

  lemma NotNegative(x: real, d: real, xd: real)
    requires d > 0.0 && xd == x * d && 0.0 <= xd
    ensures 0.0 <= x
  {
    RealOrder(x, 0.0, d);
  }

  lemma ErrorStep(d: real, error: real, next: real, lost: real, kept: real, nextD: real, square: real)
    requires d >= 2.0 && 0.0 <= error && error + error < d && 0.0 <= lost && lost <= d - 1.0
    requires kept == error * (d - 2.0) && nextD == next * d && square == d * d
    requires nextD == kept + lost
    ensures 0.0 <= next && next + next < d
  {
    assert 0.0 <= kept && kept + kept <= square - (d + d) by {
      ProductAtMost(error, d, d - 2.0);
      SquareMinusTwice(d);
    }
    NotNegative(next, d, nextD);
    HalfOf(next, d, nextD, square);
  }

  lemma ProductAtMost(a: real, b: real, c: real)
    requires 0.0 <= a && a + a <= b && 0.0 <= c
    ensures 0.0 <= a * c && a * c + a * c <= b * c
  {
    if 0.0 < c {
      RealOrder(0.0, a, c);
      RealOrder(a + a, b, c);
      Twice(a, c);
    }
  }

  lemma Twice(a: real, b: real)
    ensures (a + a) * b == a * b + a * b
  {
  }

  lemma SquareMinusTwice(d: real)
    ensures d * (d - 2.0) == d * d - (d + d)
  {
  }

  lemma InReals(next: nat, window: Window, lost: nat, rtt: nat, ema: nat)
    requires next * (window + 1) + lost == 2 * rtt + (window - 1) * ema
    ensures next as real * (window + 1) as real + lost as real
         == 2.0 * rtt as real + ((window + 1) as real - 2.0) * ema as real
  {
    assert (next * (window + 1)) as real == next as real * (window + 1) as real;
    assert ((window - 1) * ema) as real == (window - 1) as real * ema as real;
  }

  lemma ErrorOfStep(d: real, exact: real, ema: real, exact': real, next: real, lost: real, rtt: real)
    requires exact' * d == exact * (d - 2.0) + rtt * 2.0
    requires next * d + lost == 2.0 * rtt + (d - 2.0) * ema
    ensures (exact' - next) * d == (exact - ema) * (d - 2.0) + lost
  {
    assert (exact' - next) * d == exact' * d - next * d;
    assert (exact - ema) * (d - 2.0) == exact * (d - 2.0) - (d - 2.0) * ema;
  }

  predicate SmallError(window: Window, exact: real, ema: nat) {
    0.0 <= exact - ema as real < (window + 1) as real / 2.0
  }

  lemma RoundingStep(window: Window, exact: real, ema: nat, rtt: nat)
    requires SmallError(window, exact, ema)
    ensures SmallError(window, ExactNext(window, exact, rtt), Next(window, ema, rtt))
  {
    var d := (window + 1) as real;
    var next, exact' := Next(window, ema, rtt), ExactNext(window, exact, rtt);
    var lost := StepLosesARemainder(window, ema, rtt);
    DividedByWeight(d, exact, rtt as real);
    InReals(next, window, lost, rtt, ema);
    ErrorOfStep(d, exact, ema as real, exact', next as real, lost as real, rtt as real);
    var error, error' := exact - ema as real, exact' - next as real;
    ErrorStep(d, error, error', lost as real, error * (d - 2.0), error' * d, d * d);
  }

  /** Over all its samples the integer average never exceeds the exact one, and stays less than half of
      `window + 1` below it: the remainders lost on the way do not add up. */
  lemma {:induction false} RoundingStaysSmall(window: Window, samples: seq<U64>)
    ensures SmallError(window, ExactAverage(window, samples), Average(window, samples))
    decreases |samples|
  {
    if |samples| > 1 {
      var front := samples[..|samples| - 1];
      RoundingStaysSmall(window, front);
      RoundingStep(window, ExactAverage(window, front), Average(window, front), samples[|samples| - 1]);
    }
  }

  // ---- Convergence --------------------------------------------------------------------------

  /** The values that a repeated sample `rtt` leaves unchanged: integer division stops the average up
      to half a window short of a sample above it, and nowhere above. */
  predicate Settled(window: Window, ema: nat, rtt: nat) {
    rtt - window / 2 <= ema <= rtt
  }

  lemma SettledMeansFixed(window: Window, ema: nat, rtt: nat)
    ensures Next(window, ema, rtt) == ema <==> Settled(window, ema, rtt)
  {
    var d, n := window + 1, 2 * rtt + (window - 1) * ema;
    NumeratorOf(window, ema, rtt);
    QuotientBounds(n, d);
    if Settled(window, ema, rtt) {
      Quotient(n, d, ema);
    }
  }

  function Distance(a: nat, b: nat): nat {
    if a <= b then b - a else a - b
  }

  function Repeated(window: Window, ema: nat, rtt: nat, times: nat): nat
    decreases times
  {
    if times == 0 then ema else Repeated(window, Next(window, ema, rtt), rtt, times - 1)
  }

  /** Half a window below a sample a step stops short: it never gets past `rtt - window / 2`. */
  lemma StepFromBelow(window: Window, ema: nat, rtt: nat)
    requires ema < rtt - window / 2
    ensures Next(window, ema, rtt) <= rtt - window / 2
  {
    var d, half, n := window + 1, window / 2, 2 * rtt + (window - 1) * ema;
    var gap := rtt - half - ema;
    NumeratorOf(window, ema, rtt);
    AtLeastDouble(gap - 1, d);
    OneMoreTimes(gap - 1, d);
    ProductOfDifference(rtt - half, ema, d);
    assert n < (rtt - half) * d + d;
    QuotientBounds(n, d);
    MultipleOrder(d, n / d, rtt - half);
  }

  /** Where a repeated sample takes the average: down to the sample, nowhere from a settled value, and
      from below up to exactly half a window short of the sample. */
  function Limit(window: Window, ema: nat, rtt: nat): int {
    if ema > rtt then rtt else if Settled(window, ema, rtt) then ema else rtt - window / 2
  }

  /** Repeating a sample takes the average to its limit within as many steps as it was away, and keeps
      it there. */
  lemma {:induction false} RepeatedSampleConverges(window: Window, ema: nat, rtt: nat, times: nat)
    requires times >= Distance(ema, rtt)
    ensures Repeated(window, ema, rtt, times) == Limit(window, ema, rtt)
    decreases times
  {
    if Settled(window, ema, rtt) {
      RepeatedSampleStays(window, ema, rtt, times);
    } else {
      SettledMeansFixed(window, ema, rtt);
      NextIsBetween(window, ema, rtt);
      if ema < rtt {
        StepFromBelow(window, ema, rtt);
      }
      RepeatedSampleConverges(window, Next(window, ema, rtt), rtt, times - 1);
    }
  }

  lemma {:induction false} RepeatedSampleStays(window: Window, ema: nat, rtt: nat, times: nat)
    requires Settled(window, ema, rtt)
    ensures Repeated(window, ema, rtt, times) == ema
    decreases times
  {
    if times > 0 {
      SettledMeansFixed(window, ema, rtt);
      RepeatedSampleStays(window, ema, rtt, times - 1);
    }
  }
}
