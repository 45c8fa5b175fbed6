/** The circuit breaker of one RPC provider: scores, consecutive failures, trips and cooldown. */
module CircuitBreaker {
  import opened Options

  const THRESHOLD: nat := 3
  const COOLDOWN: nat := 5 * 60 * 1000
  const MIN_SCORE: int := 0
  const MAX_SCORE: int := 100
  const MIN_PROVIDER_SCORE: int := 25
  const SEED_SCORE: int := 70
  const DISCOVERED_SCORE: int := 55
  const LOCAL_SUCCESS_BONUS: int := 12
  const LOCAL_FAILURE_PENALTY: int := 25
  const PROBE_SUCCESS_BONUS: int := 6
  const PROBE_FAILURE_PENALTY: int := 15

  /** Milliseconds of the process's monotonic clock. */
  type Time = nat

  function ClampScore(score: int): (clamped: int)
    ensures MIN_SCORE <= clamped <= MAX_SCORE
  {
    if score < MIN_SCORE then MIN_SCORE else if score > MAX_SCORE then MAX_SCORE else score
  }

  function AdjustScore(current: int, delta: int): int {
    ClampScore(current + delta)
  }

  // ---- The history of reports, and what it says about the provider --------------------------

  datatype Kind = Success | Failure | ProbeSuccess | ProbeFailure {
    predicate Failed() { Failure? || ProbeFailure? }
  }

  datatype Report = Report(kind: Kind, at: Time)

  /** How many of the latest reports in a row are failures. */
  function FailuresInARow(log: seq<Report>): nat {
    if log == [] || !log[|log| - 1].kind.Failed() then 0 else FailuresInARow(log[..|log| - 1]) + 1
  }

  function ScoreAfter(score: int, kind: Kind): int {
    match kind
    case Success =>
      ClampScore((if score >= DISCOVERED_SCORE then score else DISCOVERED_SCORE) + LOCAL_SUCCESS_BONUS)
    case Failure => AdjustScore(score, -LOCAL_FAILURE_PENALTY)
    case ProbeSuccess => AdjustScore(score, PROBE_SUCCESS_BONUS)
    case ProbeFailure => AdjustScore(score, -PROBE_FAILURE_PENALTY)
  }

  function Score(initial: int, log: seq<Report>): int {
    if log == [] then initial else ScoreAfter(Score(initial, log[..|log| - 1]), log[|log| - 1].kind)
  }

  /** The whole availability rule: fewer than three failures in a row; or a score of at least 25 and a
      full cooldown since the last failure. It does not depend on who asked before. */
  predicate Offered(initial: int, log: seq<Report>, now: Time) {
    FailuresInARow(log) < THRESHOLD
    || (Score(initial, log) >= MIN_PROVIDER_SCORE && now >= log[|log| - 1].at + COOLDOWN)
  }

  // ---- The state of one provider --------------------------------------------------------------

  /** What a node itself knows about a provider's health. */
  datatype Health = Health(localScore: int, consecutiveFailures: nat, trippedAt: Option<Time>) {
    /** Tripped, and the cooldown is not over. */
    predicate Tripped(now: int) {
      trippedAt.Some? && now - trippedAt.value < COOLDOWN
    }
  }

  class ProviderState {
    var localScore: int
    var consecutiveFailures: nat
    var trippedAt: Option<Time>
    var latestLedger: nat
    ghost const initial: int
    ghost var log: seq<Report>
    /** The latest time any call has seen. */
    ghost var clock: Time

    ghost function Current(): Health
      reads this
    {
      Health(localScore, consecutiveFailures, trippedAt)
    }

    ghost predicate Valid()
      reads this
    {
      && MIN_SCORE <= localScore <= MAX_SCORE
      && localScore == Score(initial, log) && consecutiveFailures == FailuresInARow(log)
      && (log != [] ==> log[|log| - 1].at <= clock)
      && (trippedAt.Some? ==> consecutiveFailures >= THRESHOLD && trippedAt.value == log[|log| - 1].at)
      && (trippedAt.None? && consecutiveFailures >= THRESHOLD ==> clock >= log[|log| - 1].at + COOLDOWN)
    }

    constructor (startingScore: int)
      requires MIN_SCORE <= startingScore <= MAX_SCORE
      ensures Valid() && log == [] && initial == startingScore && clock == 0
    {
      localScore, consecutiveFailures, trippedAt, latestLedger := startingScore, 0, None, 0;
      initial, log, clock := startingScore, [], 0;
    }

    method ReportSuccess(now: Time)
      requires Valid() && now >= clock
      modifies this
      ensures Valid() && log == old(log) + [Report(Success, now)] && clock == now
      ensures latestLedger == old(latestLedger)
    {
      consecutiveFailures := 0;
      var recovered := if localScore >= DISCOVERED_SCORE then localScore else DISCOVERED_SCORE;
      localScore := ClampScore(recovered + LOCAL_SUCCESS_BONUS);
      trippedAt := None;
      Remember(Success, now);
    }

    method ReportFailure(now: Time)
      requires Valid() && now >= clock
      modifies this
      ensures Valid() && log == old(log) + [Report(Failure, now)] && clock == now
      ensures latestLedger == old(latestLedger)
    {
      var prev := consecutiveFailures;
      consecutiveFailures := consecutiveFailures + 1;
      localScore := AdjustScore(localScore, -LOCAL_FAILURE_PENALTY);
      if prev + 1 >= THRESHOLD {
        trippedAt := Some(now);
      }
      Remember(Failure, now);
    }

    /** The `Ok` arm of a health check. */
    method ProbeSucceeded(ledger: nat, now: Time)
      requires Valid() && now >= clock
      modifies this
      ensures Valid() && log == old(log) + [Report(ProbeSuccess, now)] && clock == now
      ensures latestLedger == ledger
    {
      latestLedger := ledger;
      consecutiveFailures := 0;
      localScore := AdjustScore(localScore, PROBE_SUCCESS_BONUS);
      trippedAt := None;
      Remember(ProbeSuccess, now);
    }

    /** The `Err` arm of a health check. */
    method ProbeFailed(now: Time)
      requires Valid() && now >= clock
      modifies this
      ensures Valid() && log == old(log) + [Report(ProbeFailure, now)] && clock == now
      ensures latestLedger == old(latestLedger)
    {
      var prev := consecutiveFailures;
      consecutiveFailures := consecutiveFailures + 1;
      localScore := AdjustScore(localScore, -PROBE_FAILURE_PENALTY);
      if prev + 1 >= THRESHOLD {
        trippedAt := Some(now);
      }
      Remember(ProbeFailure, now);
    }

    ghost method Remember(kind: Kind, now: Time)
      modifies this`log, this`clock
      ensures log == old(log) + [Report(kind, now)] && clock == now
      ensures log[..|log| - 1] == old(log)
    {
      log, clock := log + [Report(kind, now)], now;
    }

    /** Asking also forgets a trip whose cooldown is over. */
    method IsProviderTripped(now: Time) returns (tripped: bool)
      requires Valid() && now >= clock
      modifies this`trippedAt, this`clock
      ensures Valid() && clock == now
      ensures tripped <==> old(Current()).Tripped(now)
      ensures tripped <==> consecutiveFailures >= THRESHOLD && now < log[|log| - 1].at + COOLDOWN
    {
      clock := now;
      match trippedAt {
        case None =>
          return false;
        case Some(when) =>
          if now - when >= COOLDOWN {
            trippedAt := None;
            return false;
          }
          return true;
      }
    }

    method IsAvailable(now: Time) returns (available: bool)
      requires Valid() && now >= clock
      modifies this`trippedAt, this`clock
      ensures Valid() && clock == now
      ensures available <==> Offered(initial, log, now)
    {
      var tripped := IsProviderTripped(now);
      if tripped {
        return false;
      }
      return localScore >= MIN_PROVIDER_SCORE || consecutiveFailures < THRESHOLD;
    }
  }

  // ---- Whole runs -------------------------------------------------------------------------------

  predicate OnlyFailures(reports: seq<Report>) {
    forall k :: 0 <= k < |reports| ==> reports[k].kind.Failed()
  }

  /** Failures on top of failures: the streak grows by each, and the score never rises. */
  lemma {:induction false} MoreFailures(initial: int, log: seq<Report>, more: seq<Report>)
    requires OnlyFailures(more) && 0 <= Score(initial, log)
    ensures FailuresInARow(log + more) == FailuresInARow(log) + |more|
    ensures 0 <= Score(initial, log + more) <= Score(initial, log)
    decreases |more|
  {
    if more == [] {
      assert log + more == log;
    } else {
      var front, last := more[..|more| - 1], more[|more| - 1];
      MoreFailures(initial, log, front);
      assert (log + more)[..|log + more| - 1] == log + front;
      assert (log + more)[|log + more| - 1] == last;
    }
  }

  /** Once a provider has three failures in a row and a score below 25, no amount of waiting and no
      further failure brings it back: it is offered again only after some success. */
  lemma LockedOutUntilSuccess(initial: int, log: seq<Report>, more: seq<Report>, now: Time)
    requires FailuresInARow(log) >= THRESHOLD && 0 <= Score(initial, log) < MIN_PROVIDER_SCORE
    requires OnlyFailures(more)
    ensures !Offered(initial, log + more, now)
  {
    MoreFailures(initial, log, more);
  }

  function Least(a: int, b: int): int { if a <= b then a else b }

  function Greatest(a: int, b: int): int { if a >= b then a else b }

  /** The score after n reports of one kind: a successful request counts 12, from at least 55; a failed one
      -25; a successful health check 6; a failed one -15; and the score stops at 0 and at 100. */
  function ScoreAfterMany(before: int, kind: Kind, n: nat): int {
    match kind
    case Success => Least(100, Greatest(before, 55) + 12 * n)
    case Failure => Greatest(0, before - 25 * n)
    case ProbeSuccess => Least(100, before + 6 * n)
    case ProbeFailure => Greatest(0, before - 15 * n)
  }

  lemma OneReportMore(before: int, kind: Kind, n: nat)
    requires 0 <= before <= 100
    ensures ScoreAfter(before, kind) == ScoreAfterMany(before, kind, 1)
    ensures n > 0 ==> ScoreAfter(ScoreAfterMany(before, kind, n), kind) == ScoreAfterMany(before, kind, n + 1)
  {
  }

  /** Reports of one kind in a row add up, up to the limits. */
  lemma {:induction false} ScoreAfterReportsOfOneKind(initial: int, log: seq<Report>, kind: Kind, more: seq<Report>)
    requires 0 <= Score(initial, log) <= 100
    requires more != [] && forall k :: 0 <= k < |more| ==> more[k].kind == kind
    ensures Score(initial, log + more) == ScoreAfterMany(Score(initial, log), kind, |more|)
    decreases |more|
  {
    var front, last := more[..|more| - 1], more[|more| - 1];
    assert (log + more)[..|log + more| - 1] == log + front;
    assert (log + more)[|log + more| - 1] == last;
    OneReportMore(Score(initial, log), kind, |front|);
    if front == [] {
      assert log + front == log;
    } else {
      ScoreAfterReportsOfOneKind(initial, log, kind, front);
    }
  }

  /** Any success ends it at once. */
  lemma SuccessRestores(initial: int, log: seq<Report>, r: Report, now: Time)
    requires !r.kind.Failed()
    ensures Offered(initial, log + [r], now)
  {
    assert (log + [r])[|log|] == r;
  }

  /** Up to two failures after it, of either kind, do not. */
  lemma TwoFailuresAreTolerated(initial: int, log: seq<Report>, r: Report, a: Report, b: Report, now: Time)
    requires !r.kind.Failed()
    ensures Offered(initial, log + [r, a], now) && Offered(initial, log + [r, a, b], now)
  {
    var one, two, three := log + [r], log + [r, a], log + [r, a, b];
    assert two[..|log| + 1] == one && three[..|log| + 2] == two;
    assert FailuresInARow(one) == 0 && FailuresInARow(two) <= FailuresInARow(one) + 1;
    assert FailuresInARow(three) <= FailuresInARow(two) + 1;
  }

  /** Three failed requests in a row lock a provider out for good (until a success), unless its score
      stood at the very maximum before: then, and only then, waiting out the five minutes is enough. */
  lemma ThreeFailedRequests(initial: int, log: seq<Report>, a: Time, b: Time, c: Time, now: Time)
    requires 0 <= Score(initial, log) <= 100
    ensures Offered(initial, log + [Report(Failure, a), Report(Failure, b), Report(Failure, c)], now)
       <==> Score(initial, log) == 100 && now >= c + 300_000
  {
    var one, two := log + [Report(Failure, a)], log + [Report(Failure, a), Report(Failure, b)];
    var three := log + [Report(Failure, a), Report(Failure, b), Report(Failure, c)];
    assert one[..|log|] == log && two[..|log| + 1] == one && three[..|log| + 2] == two;
    assert FailuresInARow(one) == FailuresInARow(log) + 1;
    assert FailuresInARow(two) == FailuresInARow(one) + 1;
    assert FailuresInARow(three) == FailuresInARow(two) + 1;
    assert Score(initial, one) == ScoreAfter(Score(initial, log), Failure);
    assert Score(initial, two) == ScoreAfter(Score(initial, one), Failure);
    assert Score(initial, three) == ScoreAfter(Score(initial, two), Failure);
  }

  /** Failed probes cost less: three of them in a row leave a provider available after five minutes if
      and only if its score was at least 70 before, the score a configured provider starts with. */
  lemma ThreeFailedProbes(initial: int, log: seq<Report>, a: Time, b: Time, c: Time, now: Time)
    requires 0 <= Score(initial, log) <= 100
    ensures Offered(initial, log + [Report(ProbeFailure, a), Report(ProbeFailure, b), Report(ProbeFailure, c)], now)
       <==> Score(initial, log) >= 70 && now >= c + 300_000
  {
    var one, two := log + [Report(ProbeFailure, a)], log + [Report(ProbeFailure, a), Report(ProbeFailure, b)];
    var three := log + [Report(ProbeFailure, a), Report(ProbeFailure, b), Report(ProbeFailure, c)];
    assert one[..|log|] == log && two[..|log| + 1] == one && three[..|log| + 2] == two;
    assert FailuresInARow(one) == FailuresInARow(log) + 1;
    assert FailuresInARow(two) == FailuresInARow(one) + 1;
    assert FailuresInARow(three) == FailuresInARow(two) + 1;
    assert Score(initial, one) == ScoreAfter(Score(initial, log), ProbeFailure);
    assert Score(initial, two) == ScoreAfter(Score(initial, one), ProbeFailure);
    assert Score(initial, three) == ScoreAfter(Score(initial, two), ProbeFailure);
  }

  /** After a successful request a provider survives one failed request and still scores above the limit. */
  lemma SuccessBuysAFailure(initial: int, log: seq<Report>, a: Time, b: Time)
    ensures Score(initial, log + [Report(Success, a)]) >= DISCOVERED_SCORE + LOCAL_SUCCESS_BONUS
    ensures Score(initial, log + [Report(Success, a), Report(Failure, b)]) > MIN_PROVIDER_SCORE
  {
    var one, two := log + [Report(Success, a)], log + [Report(Success, a), Report(Failure, b)];
    assert one[..|log|] == log && two[..|log| + 1] == one;
    assert Score(initial, one) == ScoreAfter(Score(initial, log), Success);
    assert Score(initial, two) == ScoreAfter(Score(initial, one), Failure);
  }
}
