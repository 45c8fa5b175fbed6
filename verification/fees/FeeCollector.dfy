/** The fee collector: writes with retry, the bounded dead-letter buffer, alarms, and ledger catch-up. */
module FeeCollection {
  import opened Arithmetic
  import opened WriteRetry

  datatype Sample = Sample(ledger: nat, fee: int)

  datatype DeadLetter = DeadLetter(sample: Sample, attempts: nat, lastError: string)

  // ---- The history of writes and drains, and what the buffer and the counters must be -------

  datatype Entry = Stored | Lost(record: DeadLetter) | Drained

  datatype History = Start | Then(before: History, last: Entry)

  /** The failed records since the last drain, oldest first. */
  function SinceDrain(log: History): seq<DeadLetter> {
    match log
    case Start => []
    case Then(before, Stored) => SinceDrain(before)
    case Then(before, Lost(record)) => SinceDrain(before) + [record]
    case Then(_, Drained) => []
  }

  function LastOf<T>(s: seq<T>, n: nat): (r: seq<T>)
    ensures |r| == Min(|s|, n)
    ensures forall k :: 0 <= k < |r| ==> r[k] == s[|s| - |r| + k]
  {
    if |s| <= n then s else s[|s| - n..]
  }

  function Failures(log: History): nat {
    match log
    case Start => 0
    case Then(before, e) => Failures(before) + if e.Lost? then 1 else 0
  }

  /** How many records the drains have handed out. */
  function HandedOut(log: History, capacity: nat): nat {
    match log
    case Start => 0
    case Then(before, e) =>
      HandedOut(before, capacity) + if e.Drained? then |LastOf(SinceDrain(before), capacity)| else 0
  }

  /** The lengths of the runs of failures between successful writes; the last one is still open. */
  datatype Streaks = First(length: nat) | Next(earlier: Streaks, length: nat) {

    /** One alarm per `threshold` failures of a streak; none when the threshold is 0. */
    function AlarmsDue(threshold: nat): nat {
      if threshold == 0 then 0
      else length / threshold + if Next? then earlier.AlarmsDue(threshold) else 0
    }

    function Sum(): nat {
      length + if Next? then earlier.Sum() else 0
    }
  }

  /** Drains do not end a streak. */
  function StreaksOf(log: History): Streaks {
    match log
    case Start => First(0)
    case Then(before, Stored) => Next(StreaksOf(before), 0)
    case Then(before, Lost(_)) => var streaks := StreaksOf(before); streaks.(length := streaks.length + 1)
    case Then(before, Drained) => StreaksOf(before)
  }

  lemma LastOfLastOf<T>(s: seq<T>, x: T, n: nat)
    ensures LastOf(LastOf(s, n) + [x], n) == LastOf(s + [x], n)
  {
  }

  lemma AlarmRule(log: History, record: DeadLetter, threshold: nat)
    ensures var streaks := StreaksOf(log);
      var consecutive := streaks.length + 1;
      StreaksOf(Then(log, Lost(record))).AlarmsDue(threshold) == streaks.AlarmsDue(threshold)
        + (if threshold > 0 && (consecutive == threshold || consecutive % threshold == 0) then 1 else 0)
  {
    if threshold > 0 {
      QuotientStep(StreaksOf(log).length, threshold);
      SelfModulo(threshold);
    }
  }

  /** A history goes on with failed writes only. */
  function AddLost(log: History, records: seq<DeadLetter>): History {
    if records == [] then log else Then(AddLost(log, records[..|records| - 1]), Lost(records[|records| - 1]))
  }

  /** Failed writes in a row, and nothing else, make up the buffer, the drops and the alarms: after a drain
      the buffer is the newest of them, oldest first; after a successful write every `threshold`-th of
      them raises an alarm. */
  lemma {:induction false} FailedWritesInARow(log: History, records: seq<DeadLetter>, threshold: nat)
    ensures log == Start || (log.Then? && log.last == Drained) ==> SinceDrain(AddLost(log, records)) == records
    ensures log == Start || (log.Then? && log.last == Stored) ==>
      StreaksOf(AddLost(log, records)).length == |records|
    ensures log == Start || (log.Then? && log.last == Stored) ==>
      StreaksOf(AddLost(log, records)).AlarmsDue(threshold)
        == StreaksOf(log).AlarmsDue(threshold) + if threshold == 0 then 0 else |records| / threshold
    decreases |records|
  {
    if records != [] {
      var front, last := records[..|records| - 1], records[|records| - 1];
      FailedWritesInARow(log, front, threshold);
      AlarmRule(AddLost(log, front), last, threshold);
      assert records == front + [last];
      if threshold > 0 {
        QuotientStep(|front|, threshold);
        SelfModulo(threshold);
      }
    }
  }

  /** The buffer is the newest failures since the last drain, as many as fit, and every failed record is
      buffered, dropped or handed out. */
  ghost predicate BufferAccounted(capacity: nat, log: History, deadLetters: seq<DeadLetter>, dropped: nat) {
    && deadLetters == LastOf(SinceDrain(log), capacity)
    && Failures(log) == |deadLetters| + dropped + HandedOut(log, capacity)
  }

  /** Every streak of failures has raised one alarm per `threshold` failures. */
  ghost predicate AlarmsAccounted(threshold: nat, log: History, consecutiveFailures: nat, alarmsRaised: nat) {
    && consecutiveFailures == StreaksOf(log).length
    && alarmsRaised == StreaksOf(log).AlarmsDue(threshold)
  }

  // ---- What one collection cycle does to the cursor and the store --------------------------

  /** The first ledger from `from` on that is not good, or `latest`. */
  ghost function CatchUpStop(from: nat, latest: nat, good: iset<nat>): (stop: nat)
    requires from <= latest
    ensures from <= stop <= latest
    decreases latest - from
  {
    if from == latest || from !in good then from else CatchUpStop(from + 1, latest, good)
  }

  lemma {:induction false} CatchUpStopIs(from: nat, latest: nat, good: iset<nat>, stop: nat)
    requires from <= stop <= latest
    requires forall n :: from <= n < stop ==> n in good
    requires stop < latest ==> stop !in good
    ensures CatchUpStop(from, latest, good) == stop
    decreases latest - from
  {
    if from < stop {
      CatchUpStopIs(from + 1, latest, good, stop);
    }
  }

  /** The first ledger the catch-up of a cycle does not store; without a cursor nothing is caught up. */
  ghost function Stop(cursor: nat, latest: nat, good: iset<nat>): (stop: nat)
    requires cursor < latest
    ensures cursor < stop <= latest
  {
    if cursor == 0 then 1 else CatchUpStop(cursor + 1, latest, good)
  }

  ghost predicate CycleWrites(cursor: nat, latest: nat, good: iset<nat>, n: nat) {
    cursor < latest && (cursor < n < Stop(cursor, latest, good) || (n == latest && n in good))
  }

  ghost function CycleCursor(cursor: nat, latest: nat, good: iset<nat>): nat {
    if latest <= cursor then cursor
    else if latest in good then latest
    else Stop(cursor, latest, good) - 1
  }

  // ---- The collector -----------------------------------------------------------------------

  datatype FetchResult = Fetched(fee: int, write: Answers) | FetchFailed(error: string)
  datatype LatestResult = Latest(sequence: nat) | LatestFailed(error: string)
  type I64 = v: int | -0x8000_0000_0000_0000 <= v < 0x8000_0000_0000_0000
  datatype DbLatest = DbError | DbEmpty | DbHolds(sequence: I64)

  datatype CycleResult = Collected | NothingNew | CycleFailed(error: string)

  /** `as u64` on an i64. */
  function AsU64(v: I64): nat {
    if v < 0 then v + 0x1_0000_0000_0000_0000 else v
  }

  /** Where a cycle starts: at the cursor, or, while that is 0, at the newest ledger of the database. */
  function CycleStart(cursor: nat, db: DbLatest): nat {
    if cursor == 0 && db.DbHolds? then AsU64(db.sequence) else cursor
  }

  /** What the outside world answers during one cycle: `ledgers` has what fetches yield, and fetching
      any other ledger fails. */
  datatype World = World(latest: LatestResult, db: DbLatest, ledgers: map<nat, FetchResult>, noLedger: string)
  {
    function Fetch(n: nat): FetchResult {
      if n in ledgers then ledgers[n] else FetchFailed(noLedger)
    }

    /** Why a ledger that is not collected is not: the fetch failed, or the last permitted attempt did. */
    function Failure(policy: WritePolicy, n: nat): string {
      match Fetch(n)
      case FetchFailed(error) => error
      case Fetched(_, write) =>
        var last := write.At(policy.Attempts());
        if last.WriteFailed? then last.error else ""
    }

    /** The ledgers that are fetched, and written within the permitted attempts, when tried; with the
        samples that they yield. */
    ghost function Collectable(policy: WritePolicy): imap<nat, Sample> {
      imap n: nat | Fetch(n).Fetched? && Persists(policy, Fetch(n).write) :: Sample(n, Fetch(n).fee)
    }
  }

  /** A ledger can be collected if and only if its fetch succeeds and one of the permitted attempts to write
      it does (at least one is permitted); the sample then has the fetched fee. Otherwise the failure is
      that of the fetch, or that of the last permitted attempt. */
  lemma CollectableExactly(world: World, policy: WritePolicy, n: nat)
    requires n in world.ledgers
    ensures n in world.Collectable(policy) <==>
      world.ledgers[n].Fetched? &&
      exists k :: 1 <= k && (k <= policy.maxAttempts || k == 1) && world.ledgers[n].write.At(k) == Written
    ensures n in world.Collectable(policy) ==> world.Collectable(policy)[n] == Sample(n, world.ledgers[n].fee)
    ensures n !in world.Collectable(policy) ==>
      match world.ledgers[n]
      case FetchFailed(error) => world.Failure(policy, n) == error
      case Fetched(_, write) =>
        write.At(if policy.maxAttempts > 0 then policy.maxAttempts else 1) == WriteFailed(world.Failure(policy, n))
  {
    if world.ledgers[n].Fetched? {
      SucceedsByExactly(world.ledgers[n].write, policy.Attempts());
      assert !SucceedsBy(world.ledgers[n].write, policy.Attempts()) ==>
        world.ledgers[n].write.At(policy.Attempts()) != Written;
    }
  }

  class FeeCollector {
    const policy: WritePolicy
    var store: map<nat, Sample>
    var lastCollected: nat
    var deadLetters: seq<DeadLetter>
    var dropped: nat
    var consecutiveFailures: nat
    var alarmsRaised: nat
    ghost var log: History

    ghost predicate Valid()
      reads this`deadLetters, this`dropped, this`consecutiveFailures, this`alarmsRaised, this`log
    {
      && BufferAccounted(policy.capacity, log, deadLetters, dropped)
      && AlarmsAccounted(policy.alarmAfter, log, consecutiveFailures, alarmsRaised)
    }

    constructor (policy: WritePolicy, store: map<nat, Sample>)
      ensures Valid() && log == Start && lastCollected == 0 && this.policy == policy && this.store == store
    {
      this.policy, this.store := policy, store;
      lastCollected, deadLetters, dropped, consecutiveFailures, alarmsRaised, log := 0, [], 0, 0, 0, Start;
    }

    method NoteStoreSuccess()
      requires Valid()
      modifies this`consecutiveFailures, this`log
      ensures Valid() && log == Then(old(log), Stored) && consecutiveFailures == 0
    {
      consecutiveFailures := 0;
      log := Then(log, Stored);
    }

    method PushRecord(record: DeadLetter)
      requires |deadLetters| <= policy.capacity
      modifies this`deadLetters, this`dropped
      ensures deadLetters == LastOf(old(deadLetters) + [record], policy.capacity)
      ensures |deadLetters| + dropped == |old(deadLetters)| + old(dropped) + 1
    {
      var capacity := policy.capacity;
      if capacity == 0 {
        dropped := dropped + 1;
      } else {
        while |deadLetters| >= capacity
          invariant |deadLetters| <= capacity
          invariant deadLetters == old(deadLetters)[|old(deadLetters)| - |deadLetters|..]
          invariant |deadLetters| == |old(deadLetters)| || |deadLetters| == capacity - 1
          invariant |deadLetters| + dropped == |old(deadLetters)| + old(dropped)
        {
          deadLetters := deadLetters[1..];
          dropped := dropped + 1;
        }
        deadLetters := deadLetters + [record];
      }
    }

    method EnqueueDeadLetter(sample: Sample, attempts: nat, lastError: string)
      requires Valid()
      modifies this`deadLetters, this`dropped, this`consecutiveFailures, this`alarmsRaised, this`log
      ensures Valid() && log == Then(old(log), Lost(DeadLetter(sample, attempts, lastError)))
    {
      var record := DeadLetter(sample, attempts, lastError);
      PushRecord(record);
      var consecutive := consecutiveFailures + 1;
      consecutiveFailures := consecutive;
      var threshold := policy.alarmAfter;
      LastOfLastOf(SinceDrain(log), record, policy.capacity);
      AlarmRule(log, record, threshold);
      if threshold > 0 && (consecutive == threshold || consecutive % threshold == 0) {
        alarmsRaised := alarmsRaised + 1;
      }
      log := Then(log, Lost(record));
    }

    method DrainDeadLetters() returns (records: seq<DeadLetter>)
      requires Valid()
      modifies this`deadLetters, this`log
      ensures Valid() && log == Then(old(log), Drained)
      ensures records == old(deadLetters) && deadLetters == []
    {
      records := deadLetters;
      deadLetters := [];
      log := Then(log, Drained);
    }

    /** The sample is stored exactly when one of the permitted attempts succeeds; otherwise it is
        dead-lettered with the number of attempts made and the last error, and the error is returned. */
    method PersistSampleWithRetry(sample: Sample, operation: Answers) returns (ok: bool, error: string)
      requires Valid()
      modifies this`store, this`deadLetters, this`dropped, this`consecutiveFailures, this`alarmsRaised, this`log
      ensures Valid()
      ensures ok <==> Persists(policy, operation)
      ensures ok ==> store == old(store)[sample.ledger := sample] && log == Then(old(log), Stored)
      ensures !ok ==> store == old(store) && operation.At(policy.Attempts()) == WriteFailed(error)
      ensures !ok ==> log == Then(old(log), Lost(DeadLetter(sample, policy.Attempts(), error)))
    {
      var outcome, sleeps := RetryWithBackoff(policy, operation);
      SucceedsByExactly(operation, policy.Attempts());
      match outcome {
        case Done(attempts) =>
          store := store[sample.ledger := sample];
          NoteStoreSuccess();
          return true, "";
        case Exhausted(attempts, lastError) =>
          EnqueueDeadLetter(sample, attempts, lastError);
          return false, lastError;
      }
    }

    /** Fetches and stores one ledger. */
    method CollectLedger(n: nat, world: World) returns (ok: bool, error: string)
      requires Valid()
      modifies this`store, this`deadLetters, this`dropped, this`consecutiveFailures, this`alarmsRaised, this`log
      ensures Valid() && (ok <==> n in world.Collectable(policy))
      ensures store == WithLedger(old(store), world.Collectable(policy), n)
      ensures !ok ==> error == world.Failure(policy, n)
    {
      match world.Fetch(n) {
        case FetchFailed(e) =>
          return false, e;
        case Fetched(fee, write) =>
          ok, error := PersistSampleWithRetry(Sample(n, fee), write);
      }
    }

    /** The same, moving the cursor to the ledger when it is stored. */
    method CollectAndAdvance(n: nat, world: World) returns (ok: bool, error: string)
      requires Valid()
      modifies this
      ensures Valid() && (ok <==> n in world.Collectable(policy))
      ensures lastCollected == if ok then n else old(lastCollected)
      ensures store == WithLedger(old(store), world.Collectable(policy), n)
      ensures !ok ==> error == world.Failure(policy, n)
    {
      ok, error := CollectLedger(n, world);
      if ok {
        lastCollected := n;
      }
    }

    /** The catch-up replay: it stores the ledgers from the one after the cursor up to, not including,
        the first that cannot be fetched and written, or `latest`, and moves the cursor along. */
    method CatchUp(latest: nat, world: World)
      requires Valid() && lastCollected + 1 <= latest
      modifies this
      ensures Valid()
      ensures lastCollected + 1 == CatchUpStop(old(lastCollected) + 1, latest, world.Collectable(policy).Keys)
      ensures store == Upserted(old(store), world.Collectable(policy), old(lastCollected) + 1, lastCollected + 1)
    {
      ghost var from, before, samples := lastCollected + 1, store, world.Collectable(policy);
      var ok, error := true, "";
      while ok && lastCollected + 1 < latest
        invariant Valid() && from <= lastCollected + 1 <= latest
        invariant forall n :: from <= n <= lastCollected ==> n in samples
        invariant !ok ==> lastCollected + 1 !in samples
        invariant store == Upserted(before, samples, from, lastCollected + 1)
        decreases ok, latest - lastCollected
      {
        ok, error := CollectAndAdvance(lastCollected + 1, world);
      }
      assert lastCollected + 1 == CatchUpStop(from, latest, samples.Keys) by {
        CatchUpStopIs(from, latest, samples.Keys, lastCollected + 1);
      }
    }

    /** The part of a cycle after the check that `latest` is new. */
    method CollectNew(latest: nat, world: World) returns (r: CycleResult)
      requires Valid() && lastCollected < latest
      modifies this
      ensures Valid()
      ensures r == if latest in world.Collectable(policy) then Collected else CycleFailed(world.Failure(policy, latest))
      ensures lastCollected == CycleCursor(old(lastCollected), latest, world.Collectable(policy).Keys)
      ensures store == CycleStore(old(store), world.Collectable(policy), old(lastCollected), latest)
    {
      if lastCollected > 0 && latest > lastCollected + 1 {
        CatchUp(latest, world);
      }
      var ok, error := CollectAndAdvance(latest, world);
      return if ok then Collected else CycleFailed(error);
    }

    /** One collection cycle. */
    method CollectLatestFees(world: World) returns (r: CycleResult)
      requires Valid()
      modifies this
      ensures Valid()
      ensures world.latest.LatestFailed? ==>
        r == CycleFailed(world.latest.error) && store == old(store) && lastCollected == old(lastCollected)
      ensures world.latest.Latest? ==>
        var start, latest := CycleStart(old(lastCollected), world.db), world.latest.sequence;
        var samples := world.Collectable(policy);
        && r == (if latest <= start then NothingNew else if latest in samples then Collected
                 else CycleFailed(world.Failure(policy, latest)))
        && lastCollected == CycleCursor(start, latest, samples.Keys)
        && store == CycleStore(old(store), samples, start, latest)
    {
      if world.latest.LatestFailed? {
        return CycleFailed(world.latest.error);
      }
      var latest := world.latest.sequence;
      if lastCollected == 0 {
        if world.db.DbHolds? {
          lastCollected := AsU64(world.db.sequence);
        }
      }
      if latest <= lastCollected {
        return NothingNew;
      }
      r := CollectNew(latest, world);
    }
  }

  /** The store with the sample of ledger n, when it can be collected. */
  ghost function WithLedger(store: map<nat, Sample>, samples: imap<nat, Sample>, n: nat): map<nat, Sample> {
    if n in samples then store[n := samples[n]] else store
  }

  /** The store after the collectable ledgers from `from` up to, not including, `end` are stored one by one. */
  ghost function Upserted(store: map<nat, Sample>, samples: imap<nat, Sample>, from: nat, end: nat): map<nat, Sample> {
    if end <= from then store else WithLedger(Upserted(store, samples, from, end - 1), samples, end - 1)
  }

  /** The store after one cycle. */
  ghost function CycleStore(
    store: map<nat, Sample>, samples: imap<nat, Sample>, cursor: nat, latest: nat): map<nat, Sample>
  {
    if latest <= cursor then store
    else
      var caughtUp := Upserted(store, samples, cursor + 1, Stop(cursor, latest, samples.Keys));
      WithLedger(caughtUp, samples, latest)
  }

  lemma {:induction false} UpsertedEntries(
    store: map<nat, Sample>, samples: imap<nat, Sample>, from: nat, end: nat, n: nat)
    ensures var after := Upserted(store, samples, from, end);
      && (n in after <==> n in store || (from <= n < end && n in samples))
      && (n in after ==> after[n] == if from <= n < end && n in samples then samples[n] else store[n])
    decreases end
  {
    if end > from {
      UpsertedEntries(store, samples, from, end - 1, n);
    }
  }

  /** A cycle stores the fetched samples of exactly the ledgers it writes, and touches no other entry. */
  lemma CycleStoreEntries(store: map<nat, Sample>, samples: imap<nat, Sample>, cursor: nat, latest: nat, n: nat)
    ensures CycleWrites(cursor, latest, samples.Keys, n) ==> n in samples
    ensures var after := CycleStore(store, samples, cursor, latest);
      && (n in after <==> n in store || CycleWrites(cursor, latest, samples.Keys, n))
      && (n in after ==> after[n] == if CycleWrites(cursor, latest, samples.Keys, n) then samples[n] else store[n])
  {
    if cursor < latest {
      if cursor > 0 {
        StopIsFirstFailure(cursor + 1, latest, samples.Keys);
      }
      UpsertedEntries(store, samples, cursor + 1, Stop(cursor, latest, samples.Keys), n);
    }
  }

  // ---- Runs of cycles ----------------------------------------------------------------------

  /** A cycle that learned the latest ledger: what the database answered when asked for its newest one,
      and which ledgers could be collected meanwhile. */
  datatype Cycle = Cycle(latest: nat, db: DbLatest, good: iset<nat>) {
    function Start(cursor: nat): nat { CycleStart(cursor, db) }

    ghost function Cursor(cursor: nat): (next: nat) { CycleCursor(Start(cursor), latest, good) }

    ghost predicate Writes(cursor: nat, n: nat) { CycleWrites(Start(cursor), latest, good, n) }

    ghost predicate Gap(cursor: nat, n: nat) { CycleGap(Start(cursor), latest, good, n) }

    /** Ledgers below the newest one of the database, which a fresh collector leaves alone. */
    predicate Predates(cursor: nat, n: nat) { cursor < n <= Start(cursor) }
  }

  /** The ledgers a successful cycle leaves out: one interval from the first that failed to just before
      the latest, empty when the catch-up went through. */
  ghost predicate CycleGap(start: nat, latest: nat, good: iset<nat>, n: nat) {
    start < latest && latest in good && Stop(start, latest, good) <= n < latest
  }

  ghost function RunCursor(cursor: nat, cycles: seq<Cycle>): nat
    decreases |cycles|
  {
    if cycles == [] then cursor else RunCursor(cycles[0].Cursor(cursor), cycles[1..])
  }

  ghost predicate RunWrites(cursor: nat, cycles: seq<Cycle>, n: nat)
    decreases |cycles|
  {
    cycles != [] && (cycles[0].Writes(cursor, n) || RunWrites(cycles[0].Cursor(cursor), cycles[1..], n))
  }

  ghost predicate RunGaps(cursor: nat, cycles: seq<Cycle>, n: nat)
    decreases |cycles|
  {
    cycles != [] && (cycles[0].Gap(cursor, n) || RunGaps(cycles[0].Cursor(cursor), cycles[1..], n))
  }

  ghost predicate RunPredates(cursor: nat, cycles: seq<Cycle>, n: nat)
    decreases |cycles|
  {
    cycles != [] && (cycles[0].Predates(cursor, n) || RunPredates(cycles[0].Cursor(cursor), cycles[1..], n))
  }

  /** One cycle: everything between the start and the new cursor is written or in the gap, never both,
      and nothing else is written. A failed cycle has no gap: the next one resumes at the first missing
      ledger. */
  lemma CycleAccounting(start: nat, latest: nat, good: iset<nat>, n: nat)
    ensures start <= CycleCursor(start, latest, good)
    ensures CycleWrites(start, latest, good, n) || CycleGap(start, latest, good, n)
       <==> start < n <= CycleCursor(start, latest, good)
    ensures !(CycleWrites(start, latest, good, n) && CycleGap(start, latest, good, n))
    ensures CycleGap(start, latest, good, n) ==> latest in good
  {
  }

  /** Any run of cycles: the cursor never decreases, and every ledger it has passed is exactly one of:
      written, in the gap of a successful cycle, or older than the database a fresh collector started
      from. A gap is final: no later cycle fills it. */
  lemma {:induction false} RunAccounting(cursor: nat, cycles: seq<Cycle>, n: nat)
    ensures cursor <= RunCursor(cursor, cycles)
    ensures RunWrites(cursor, cycles, n) || RunGaps(cursor, cycles, n) || RunPredates(cursor, cycles, n)
       <==> cursor < n <= RunCursor(cursor, cycles)
    ensures !(RunWrites(cursor, cycles, n) && RunGaps(cursor, cycles, n))
    ensures RunPredates(cursor, cycles, n) ==> !RunWrites(cursor, cycles, n) && !RunGaps(cursor, cycles, n)
    ensures cursor > 0 ==> !RunPredates(cursor, cycles, n)
    decreases |cycles|
  {
    if cycles != [] {
      var c := cycles[0];
      CycleAccounting(c.Start(cursor), c.latest, c.good, n);
      RunAccounting(c.Cursor(cursor), cycles[1..], n);
    }
  }

  // ---- Starting from the database ---------------------------------------------------------

  /** A fresh collector (cursor 0) over a database whose newest ledger is m does in a cycle what a collector
      with cursor m does, and counts the ledgers up to m as older than the database; in particular it
      writes every ledger after m up to the latest one when they can all be collected. */
  lemma FreshCollectorResumes(c: Cycle, m: I64, n: nat)
    requires c.db == DbHolds(m) && m > 0
    ensures c.Cursor(0) == c.Cursor(m)
    ensures c.Writes(0, n) <==> c.Writes(m, n)
    ensures c.Gap(0, n) <==> c.Gap(m, n)
    ensures RunPredates(0, [c], n) <==> 1 <= n <= m
    ensures c.latest <= m ==> c.Cursor(0) == m && !c.Writes(0, n)
    ensures c.latest > m && (forall k :: m < k <= c.latest ==> k in c.good) ==>
      c.Cursor(0) == c.latest && (c.Writes(0, n) <==> m < n <= c.latest)
  {
    assert [c][1..] == [];
    assert !RunPredates(c.Cursor(0), [], n);
    if c.latest > m && forall k :: m < k <= c.latest ==> k in c.good {
      CatchUpStopIs(m + 1, c.latest, c.good, c.latest);
    }
  }

  /** A fresh collector that gets no ledger from the database tries the latest one only, and counts no
      ledger as older. */
  lemma FreshCollectorWithoutDatabase(c: Cycle, n: nat)
    requires c.db in {DbError, DbEmpty, DbHolds(0)}
    ensures c.Cursor(0) == if c.latest in c.good then c.latest else 0
    ensures c.Writes(0, n) <==> n == c.latest && n > 0 && n in c.good
    ensures !RunPredates(0, [c], n)
  {
    assert [c][1..] == [];
    assert !RunPredates(c.Cursor(0), [], n);
  }

  /** A negative number in the database becomes a huge cursor, after which nothing is ever collected. */
  lemma {:induction false} NegativeStartStopsCollection(cycles: seq<Cycle>, v: I64, n: nat)
    requires cycles != [] && cycles[0].db == DbHolds(v) && v < 0
    requires forall c :: c in cycles ==> c.latest <= 0x7fff_ffff_ffff_ffff
    ensures RunCursor(0, cycles) == v + 0x1_0000_0000_0000_0000 && !RunWrites(0, cycles, n)
  {
    NothingBeyond(v + 0x1_0000_0000_0000_0000, cycles[1..], n);
  }

  lemma {:induction false} NothingBeyond(cursor: nat, cycles: seq<Cycle>, n: nat)
    requires cursor > 0 && forall c :: c in cycles ==> c.latest <= cursor
    ensures RunCursor(cursor, cycles) == cursor && !RunWrites(cursor, cycles, n)
    decreases |cycles|
  {
    if cycles != [] {
      assert cycles[0] in cycles;
      NothingBeyond(cursor, cycles[1..], n);
    }
  }

  /** Once it has a cursor, a collector no longer asks the database. */
  lemma CursorOverridesDatabase(c: Cycle, cursor: nat, n: nat)
    requires cursor > 0
    ensures c.Cursor(cursor) == CycleCursor(cursor, c.latest, c.good)
    ensures c.Writes(cursor, n) <==> CycleWrites(cursor, c.latest, c.good, n)
  {
  }

  /** A restart loses nothing: a fresh collector whose database holds m > 0 answers, stores and moves as
      the collector that went on with cursor m, and finds nothing new exactly up to m. */
  method RestartResumes(restarted: FeeCollector, resumed: FeeCollector, world: World, m: I64)
    returns (r: CycleResult, r': CycleResult)
    requires restarted != resumed && restarted.Valid() && resumed.Valid()
    requires restarted.policy == resumed.policy && restarted.store == resumed.store
    requires restarted.lastCollected == 0 && world.db == DbHolds(m) && m > 0 && resumed.lastCollected == m
    modifies restarted, resumed
    ensures r == r' && restarted.store == resumed.store
    ensures world.latest.Latest? ==> restarted.lastCollected == resumed.lastCollected
    ensures world.latest.Latest? ==> (r == NothingNew <==> world.latest.sequence <= m)
  {
    r := restarted.CollectLatestFees(world);
    r' := resumed.CollectLatestFees(world);
  }

  // ---- When there is no gap ----------------------------------------------------------------

  /** Nothing new, or the latest ledger itself fails, or every ledger in between is good; without a start
      there is no catch-up, and only ledger 1 has nothing before it. */
  ghost predicate GapFree(start: nat, latest: nat, good: iset<nat>) {
    latest <= start || latest !in good ||
    (if start == 0 then latest == 1 else forall n :: start < n < latest ==> n in good)
  }

  /** A cycle leaves a gap exactly when some ledger it passes over fails while the latest one succeeds. */
  lemma NoGapExactly(start: nat, latest: nat, good: iset<nat>)
    ensures (forall n :: !CycleGap(start, latest, good, n)) <==> GapFree(start, latest, good)
  {
    if start < latest && latest in good {
      var stop := Stop(start, latest, good);
      if stop < latest {
        assert CycleGap(start, latest, good, stop);
      }
      if start > 0 {
        StopIsFirstFailure(start + 1, latest, good);
      }
    }
  }

  lemma {:induction false} StopIsFirstFailure(from: nat, latest: nat, good: iset<nat>)
    requires from <= latest
    ensures var stop := CatchUpStop(from, latest, good);
      && (forall n :: from <= n < stop ==> n in good)
      && (stop < latest ==> stop !in good)
    decreases latest - from
  {
    if from < latest && from in good {
      StopIsFirstFailure(from + 1, latest, good);
    }
  }

  ghost predicate RunGapFree(cursor: nat, cycles: seq<Cycle>)
    decreases |cycles|
  {
    cycles == [] ||
    (GapFree(cycles[0].Start(cursor), cycles[0].latest, cycles[0].good)
     && RunGapFree(cycles[0].Cursor(cursor), cycles[1..]))
  }

  lemma {:induction false} NoGapsExactly(cursor: nat, cycles: seq<Cycle>)
    ensures (forall n :: !RunGaps(cursor, cycles, n)) <==> RunGapFree(cursor, cycles)
    decreases |cycles|
  {
    if cycles != [] {
      var c := cycles[0];
      NoGapExactly(c.Start(cursor), c.latest, c.good);
      NoGapsExactly(c.Cursor(cursor), cycles[1..]);
      if RunGapFree(cursor, cycles) {
        forall n: nat ensures !RunGaps(cursor, cycles, n) {
          assert !c.Gap(cursor, n) && !RunGaps(c.Cursor(cursor), cycles[1..], n);
        }
      } else {
        ghost var n: nat;
        if GapFree(c.Start(cursor), c.latest, c.good) {
          n :| RunGaps(c.Cursor(cursor), cycles[1..], n);
        } else {
          n :| CycleGap(c.Start(cursor), c.latest, c.good, n);
          assert c.Gap(cursor, n);
        }
        assert RunGaps(cursor, cycles, n);
        assert exists n :: RunGaps(cursor, cycles, n);
      }
    }
  }

  /** From a cursor, a run writes every ledger it passes if and only if all its cycles are gap free. */
  lemma NothingIsLeftOutExactly(cursor: nat, cycles: seq<Cycle>)
    requires cursor > 0
    ensures (forall n :: cursor < n <= RunCursor(cursor, cycles) ==> RunWrites(cursor, cycles, n))
       <==> RunGapFree(cursor, cycles)
  {
    NoGapsExactly(cursor, cycles);
    if RunGapFree(cursor, cycles) {
      forall n: nat | cursor < n <= RunCursor(cursor, cycles) ensures RunWrites(cursor, cycles, n) {
        RunAccounting(cursor, cycles, n);
      }
    } else {
      var n :| RunGaps(cursor, cycles, n);
      RunAccounting(cursor, cycles, n);
    }
  }

  /** A run with a gap: at cursor 5 the latest ledger is 10 and ledger 7 fails once. Ledgers 8 and 9 are
      never tried, and the next cycle, in which everything succeeds, does not come back to 7, 8 and 9. */
  lemma CatchUpLeavesAGap(first: Cycle, second: Cycle)
    requires first == Cycle(10, DbError, first.good) && forall n :: n in first.good <==> n != 7
    requires second == Cycle(12, DbError, second.good) && forall n :: n in second.good
    ensures RunCursor(5, [first, second]) == 12
    ensures forall n :: RunGaps(5, [first, second], n) <==> 7 <= n <= 9
  {
    CatchUpStopIs(6, 10, first.good, 7);
    CatchUpStopIs(11, 12, second.good, 12);
    assert first.Cursor(5) == 10 && second.Cursor(10) == 12;
    assert [first, second][1..] == [second] && [second][1..] == [];
    assert RunCursor(10, [second]) == RunCursor(12, []) == 12;
    forall n: nat ensures RunGaps(5, [first, second], n) <==> 7 <= n <= 9 {
      assert RunGaps(10, [second], n) <==> second.Gap(10, n) || RunGaps(12, [], n);
    }
  }

  function WithoutDrains(log: History): History {
    match log
    case Start => Start
    case Then(before, e) => if e == Drained then WithoutDrains(before) else Then(WithoutDrains(before), e)
  }

  /** Drains have no influence on streaks and alarms. */
  lemma {:induction false} DrainsDoNotEndStreaks(log: History)
    ensures StreaksOf(log) == StreaksOf(WithoutDrains(log))
  {
    if log.Then? {
      DrainsDoNotEndStreaks(log.before);
    }
  }

  /** Every failure belongs to one streak. */
  lemma {:induction false} StreaksHoldAllFailures(log: History)
    ensures StreaksOf(log).Sum() == Failures(log)
  {
    if log.Then? {
      StreaksHoldAllFailures(log.before);
    }
  }
}
