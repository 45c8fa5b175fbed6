/** Bounded retry of a fee-record write, with exponential backoff. */
module WriteRetry {
  import opened Arithmetic

  /** The longest `Duration`, in nanoseconds. */
  const DURATION_MAX: nat := 0xffff_ffff_ffff_ffff * 1_000_000_000 + 999_999_999

  type Duration = d: nat | d <= DURATION_MAX

  datatype WritePolicy = WritePolicy(
    maxAttempts: nat, initialBackoff: Duration, multiplier: nat, maxBackoff: Duration,
    capacity: nat, alarmAfter: nat)
  {
    /** At least one attempt is made. */
    function Attempts(): nat {
      if maxAttempts == 0 then 1 else maxAttempts
    }

    function Factor(): nat {
      if multiplier == 0 then 1 else multiplier
    }
  }

  datatype WriteResult = Written | WriteFailed(error: string)

  /** What the store answers to the successive attempts of one write. */
  datatype Answers = Always(result: WriteResult) | Once(result: WriteResult, later: Answers) {
    /** The answer to attempt k, counted from 1. */
    function At(k: nat): WriteResult {
      if Once? && k > 1 then later.At(k - 1) else result
    }
  }

  datatype RetryResult = Done(attempts: nat) | Exhausted(attempts: nat, lastError: string)

  function Min(a: nat, b: nat): nat {
    if a <= b then a else b
  }

  function NextBackoff(policy: WritePolicy, current: Duration): Duration {
    Min(Min(current * policy.Factor(), DURATION_MAX), policy.maxBackoff)
  }

  function Power(base: nat, exp: nat): nat {
    if exp == 0 then 1 else Power(base, exp - 1) * base
  }

  /** The delay before attempt k + 2: geometric growth, capped from the second delay on. */
  function DelayAfter(policy: WritePolicy, k: nat): Duration {
    if k == 0 then policy.initialBackoff
    else Min(policy.initialBackoff * Power(policy.Factor(), k), policy.maxBackoff)
  }

  /** The non-zero delays among the first n. */
  function Sleeps(policy: WritePolicy, n: nat): seq<Duration> {
    if n == 0 then []
    else Sleeps(policy, n - 1) + (if DelayAfter(policy, n - 1) == 0 then [] else [DelayAfter(policy, n - 1)])
  }

  lemma CappedProduct(x: nat, factor: nat, cap: nat)
    requires factor >= 1
    ensures Min(Min(x, cap) * factor, cap) == Min(x * factor, cap)
  {
    ProductBound(cap, 1, cap, factor);
    if x > cap {
      ProductBound(cap, factor, x, factor);
    }
  }

  /** Iterating `next_backoff` yields the closed form. */
  lemma {:induction false} NextDelay(policy: WritePolicy, k: nat)
    ensures NextBackoff(policy, DelayAfter(policy, k)) == DelayAfter(policy, k + 1)
  {
    var initial, factor := policy.initialBackoff, policy.Factor();
    assert Power(factor, k + 1) == Power(factor, k) * factor;
    assert initial * Power(factor, k + 1) == initial * Power(factor, k) * factor;
    if k > 0 {
      CappedProduct(initial * Power(factor, k), factor, policy.maxBackoff);
    } else {
      assert initial * Power(factor, 0) == initial;
    }
  }

  /** `operation` runs at least once and at most `Attempts()` times, until the first success; a failure
      is reported with its attempt count and the error of the very last attempt. */
  method RetryWithBackoff(policy: WritePolicy, operation: Answers)
    returns (r: RetryResult, sleeps: seq<Duration>)
    ensures 1 <= r.attempts <= policy.Attempts()
    ensures 1 <= policy.maxAttempts ==> r.attempts <= policy.maxAttempts
    ensures r.Exhausted? ==> r.attempts == if policy.maxAttempts >= 1 then policy.maxAttempts else 1
    ensures forall k :: 1 <= k < r.attempts ==> operation.At(k).WriteFailed?
    ensures r.Done? ==> operation.At(r.attempts) == Written
    ensures r.Exhausted? ==> r.attempts == policy.Attempts() && operation.At(r.attempts) == WriteFailed(r.lastError)
    ensures sleeps == Sleeps(policy, r.attempts - 1)
  {
    var maxAttempts := if policy.maxAttempts == 0 then 1 else policy.maxAttempts;
    var backoff := policy.initialBackoff;
    var lastError := "";
    sleeps := [];
    for attempt := 1 to maxAttempts + 1
      invariant forall k :: 1 <= k < attempt ==> operation.At(k).WriteFailed?
      invariant attempt > 1 ==> operation.At(attempt - 1) == WriteFailed(lastError)
      invariant attempt <= maxAttempts ==> backoff == DelayAfter(policy, attempt - 1)
      invariant sleeps == Sleeps(policy, Min(attempt, maxAttempts) - 1)
    {
      match operation.At(attempt) {
        case Written =>
          return Done(attempt), sleeps;
        case WriteFailed(error) =>
          lastError := error;
          if attempt < maxAttempts {
            if backoff != 0 {
              sleeps := sleeps + [backoff];
            }
            NextDelay(policy, attempt - 1);
            backoff := NextBackoff(policy, backoff);
          }
      }
    }
    return Exhausted(maxAttempts, lastError), sleeps;
  }

  /** Each delay is the one before, times the configured multiplier (0 counts as 1), cut at the cap. */
  lemma {:induction false} DelaysGrowByTheMultiplier(policy: WritePolicy, k: nat)
    ensures DelayAfter(policy, 0) == policy.initialBackoff
    ensures policy.multiplier > 0 ==>
      DelayAfter(policy, k + 1) == Min(DelayAfter(policy, k) * policy.multiplier, policy.maxBackoff)
    ensures policy.multiplier == 0 ==> DelayAfter(policy, k + 1) == Min(policy.initialBackoff, policy.maxBackoff)
    decreases k
  {
    NextDelay(policy, k);
    if policy.multiplier == 0 && k > 0 {
      DelaysGrowByTheMultiplier(policy, k - 1);
    }
  }

  lemma {:induction false} SleepsAreDelays(policy: WritePolicy, n: nat, delay: Duration)
    ensures delay in Sleeps(policy, n) <==> delay != 0 && exists k :: 0 <= k < n && DelayAfter(policy, k) == delay
  {
    if n > 0 {
      SleepsAreDelays(policy, n - 1, delay);
    }
  }

  /** The documentation calls all delays capped; the code never caps the first one. As soon as there is a
      delay at all, what is slept stays within the cap if and only if the configured initial backoff does. */
  lemma {:induction false} DelaysAreCapped(policy: WritePolicy, n: nat)
    requires n > 0
    ensures (forall delay <- Sleeps(policy, n) :: delay <= policy.maxBackoff)
       <==> policy.initialBackoff <= policy.maxBackoff
  {
    forall delay | delay in Sleeps(policy, n)
      ensures delay == policy.initialBackoff || delay <= policy.maxBackoff
    {
      SleepsAreDelays(policy, n, delay);
    }
    assert DelayAfter(policy, 0) == policy.initialBackoff;
    if policy.initialBackoff > 0 {
      SleepsAreDelays(policy, n, policy.initialBackoff);
    }
  }

  // ---- Whether a write succeeds at all ----------------------------------------------------

  predicate Persists(policy: WritePolicy, operation: Answers) {
    SucceedsBy(operation, policy.Attempts())
  }

  predicate SucceedsBy(operation: Answers, n: nat) {
    n > 0 && (operation.At(n) == Written || SucceedsBy(operation, n - 1))
  }

  lemma {:induction false} SucceedsByExactly(operation: Answers, n: nat)
    ensures SucceedsBy(operation, n) <==> exists k :: 1 <= k <= n && operation.At(k) == Written
  {
    if n > 0 {
      SucceedsByExactly(operation, n - 1);
      if k :| 1 <= k <= n && operation.At(k) == Written {
        assert k == n || 1 <= k <= n - 1;
      }
      if SucceedsBy(operation, n) {
        var k := if operation.At(n) == Written then n else var k :| 1 <= k < n && operation.At(k) == Written; k;
        assert operation.At(k) == Written;
      }
    }
  }
}
