/** The lock-free token bucket: any number of threads inside `acquire`, one atomic counter.

    The counter is its modification order, a sequence of all values it ever had. A load, and a failing
    compare-exchange, may return any value not older than what the thread has already seen; a succeeding
    one acts on the newest value; a weak one may fail for no reason. */
module TokenBucket {

  type ThreadId = nat

  datatype Phase = Idle | Looping(current: nat) | Returned(granted: bool)

  /** `seen` is the newest position of the modification order the thread knows of. */
  datatype Thread = Thread(seen: nat, phase: Phase)

  /** `grants` counts the calls of `acquire` that returned, or are about to return, true. */
  datatype State = State(history: seq<nat>, threads: map<ThreadId, Thread>, grants: nat) {
    function Tokens(): nat
      requires history != []
    {
      history[|history| - 1]
    }
  }

  datatype Event =
    | Load(t: ThreadId, at: nat)       // the first load reads position `at`
    | Exchange(t: ThreadId)            // the exchange succeeds
    | Fail(t: ThreadId, at: nat)       // the exchange fails and reads position `at`
    | GiveUp(t: ThreadId)              // the loop ends with current == 0
    | CallAgain(t: ThreadId)

  predicate Enabled(s: State, e: Event) {
    s.history != [] && e.t in s.threads &&
    var me := s.threads[e.t];
    match e
    case Load(_, at) => me.phase.Idle? && me.seen <= at < |s.history|
    case Exchange(_) => me.phase.Looping? && me.phase.current > 0 && s.Tokens() == me.phase.current
    case Fail(_, at) => me.phase.Looping? && me.phase.current > 0 && me.seen <= at < |s.history|
    case GiveUp(_) => me.phase.Looping? && me.phase.current == 0
    case CallAgain(_) => me.phase.Returned?
  }

  function Apply(s: State, e: Event): State
    requires Enabled(s, e)
  {
    match e
    case Load(t, at) => s.(threads := s.threads[t := Thread(at, Looping(s.history[at]))])
    case Exchange(t) =>
      State(s.history + [s.threads[t].phase.current - 1],
            s.threads[t := Thread(|s.history|, Returned(true))], s.grants + 1)
    case Fail(t, at) => s.(threads := s.threads[t := Thread(at, Looping(s.history[at]))])
    case GiveUp(t) => s.(threads := s.threads[t := s.threads[t].(phase := Returned(false))])
    case CallAgain(t) => s.(threads := s.threads[t := s.threads[t].(phase := Idle)])
  }

  ghost predicate Initial(s: State, initial: nat) {
    && s.history == [initial] && s.grants == 0
    && forall t :: t in s.threads ==> s.threads[t] == Thread(0, Idle)
  }

  ghost predicate CanRun(s: State, events: seq<Event>)
    decreases |events|
  {
    events == [] || (Enabled(s, events[0]) && CanRun(Apply(s, events[0]), events[1..]))
  }

  ghost function Run(s: State, events: seq<Event>): State
    requires CanRun(s, events)
    decreases |events|
  {
    if events == [] then s else Run(Apply(s, events[0]), events[1..])
  }

  /** Each success takes exactly one token, so the k-th value of the counter is initial - k; a thread
      that leaves without a token has read a zero. */
  ghost predicate Inv(s: State, initial: nat) {
    && |s.history| == s.grants + 1 <= initial + 1
    && (forall k :: 0 <= k < |s.history| ==> s.history[k] == initial - k)
    && (forall t :: t in s.threads ==> ThreadInv(s, s.threads[t]))
  }

  ghost predicate ThreadInv(s: State, me: Thread) {
    && me.seen < |s.history|
    && (me.phase.Looping? ==> s.history[me.seen] == me.phase.current)
    && (me.phase == Returned(false) ==> s.history[me.seen] == 0)
  }

  lemma StepKeepsInv(s: State, e: Event, initial: nat)
    requires Inv(s, initial) && Enabled(s, e)
    ensures Inv(Apply(s, e), initial)
  {
    assert ThreadInv(s, s.threads[e.t]);
  }

  lemma {:induction false} RunKeepsInv(s: State, events: seq<Event>, initial: nat)
    requires Inv(s, initial) && CanRun(s, events)
    ensures Inv(Run(s, events), initial)
    decreases |events|
  {
    if events != [] {
      StepKeepsInv(s, events[0], initial);
      RunKeepsInv(Apply(s, events[0]), events[1..], initial);
    }
  }

  // ---- The answers --------------------------------------------------------------------------

  /** This event makes the caller's `acquire` return true. */
  predicate AnswersTrue(s: State, e: Event)
    requires Enabled(s, e)
  {
    s.threads[e.t].phase != Returned(true) && Apply(s, e).threads[e.t].phase == Returned(true)
  }

  /** Whose calls of `acquire` returned true in a run, in order. */
  ghost function TrueAnswers(s: State, events: seq<Event>): seq<ThreadId>
    requires CanRun(s, events)
    decreases |events|
  {
    if events == [] then []
    else (if AnswersTrue(s, events[0]) then [events[0].t] else []) + TrueAnswers(Apply(s, events[0]), events[1..])
  }

  /** An event answers true if and only if it takes one token, and nothing else changes the counter. */
  lemma TrueTakesAToken(s: State, e: Event)
    requires Enabled(s, e)
    ensures AnswersTrue(s, e) ==> s.Tokens() > 0 && Apply(s, e).history == s.history + [s.Tokens() - 1]
    ensures !AnswersTrue(s, e) ==> Apply(s, e).history == s.history
  {
  }

  lemma {:induction false} AnswersOwnTheDecrements(s: State, events: seq<Event>)
    requires CanRun(s, events) && s.history != []
    ensures var s' := Run(s, events);
      && |s'.history| == |s.history| + |TrueAnswers(s, events)| && s'.history[..|s.history|] == s.history
      && forall k :: |s.history| <= k < |s'.history| ==> s'.history[k] + 1 == s'.history[k - 1]
    decreases |events|
  {
    if events != [] {
      TrueTakesAToken(s, events[0]);
      AnswersOwnTheDecrements(Apply(s, events[0]), events[1..]);
    }
  }

  /** In every interleaving the tokens left and the calls that returned true add up to the initial
      tokens, the k-th such call owns the k-th decrement of the counter, and a call that returned false
      means that the bucket is empty and every token has gone to a call that returned true. */
  lemma TokensAreConserved(s: State, events: seq<Event>, initial: nat)
    requires Initial(s, initial) && CanRun(s, events)
    ensures var s', answers := Run(s, events), TrueAnswers(s, events);
      && s'.history != [] && s'.Tokens() + |answers| == initial && s'.grants == |answers|
      && |s'.history| == |answers| + 1
      && forall k :: 0 <= k < |answers| ==> s'.history[k + 1] + 1 == s'.history[k]
    ensures var s' := Run(s, events); forall t :: t in s'.threads && s'.threads[t].phase == Returned(false) ==>
      s'.Tokens() == 0 && |TrueAnswers(s, events)| == initial
  {
    RunKeepsInv(s, events, initial);
    AnswersOwnTheDecrements(s, events);
    var s' := Run(s, events);
    forall t | t in s'.threads && s'.threads[t].phase == Returned(false)
      ensures s'.Tokens() == 0
    {
      assert ThreadInv(s', s'.threads[t]);
    }
  }

  /** A call that has read zero returns false with its next step, whatever the others do meanwhile. */
  lemma {:induction false} ZeroIsRefused(s: State, events: seq<Event>, t: ThreadId)
    requires CanRun(s, events) && CallAgain(t) !in events
    requires t in s.threads && (s.threads[t].phase == Looping(0) || s.threads[t].phase == Returned(false))
    ensures t in Run(s, events).threads
    ensures Run(s, events).threads[t].phase ==
      if exists e :: e in events && e.t == t then Returned(false) else s.threads[t].phase
    decreases |events|
  {
    if events != [] {
      var e, rest := events[0], events[1..];
      ZeroIsRefused(Apply(s, e), rest, t);
      if x :| x in rest && x.t == t {
        assert x in events;
      }
    }
  }

  lemma RunOfTwo(s: State, a: Event, b: Event)
    requires Enabled(s, a) && Enabled(Apply(s, a), b)
    ensures CanRun(s, [a, b]) && Run(s, [a, b]) == Apply(Apply(s, a), b)
  {
    var s2 := Apply(Apply(s, a), b);
    assert CanRun(s2, []) && Run(s2, []) == s2;
    assert [b][1..] == [];
    assert CanRun(Apply(s, a), [b]) && Run(Apply(s, a), [b]) == s2;
    assert [a, b][1..] == [b];
  }

  /** A call that nobody disturbs returns true if and only if a token is left, and takes it. */
  lemma UndisturbedCall(s: State, t: ThreadId, initial: nat) returns (events: seq<Event>)
    requires Inv(s, initial) && t in s.threads && s.threads[t].phase.Idle?
    ensures CanRun(s, events) && t in Run(s, events).threads && Run(s, events).history != []
    ensures Run(s, events).threads[t].phase == Returned(s.Tokens() > 0)
    ensures Run(s, events).Tokens() == if s.Tokens() > 0 then s.Tokens() - 1 else 0
  {
    assert ThreadInv(s, s.threads[t]);
    var load, last := Load(t, |s.history| - 1), if s.Tokens() > 0 then Exchange(t) else GiveUp(t);
    events := [load, last];
    RunOfTwo(s, load, last);
  }

  /** An empty bucket stays empty: no further event is a success. */
  lemma {:induction false} EmptyIsForever(s: State, events: seq<Event>, initial: nat)
    requires Inv(s, initial) && CanRun(s, events) && s.Tokens() == 0
    ensures Run(s, events).history == s.history && Run(s, events).grants == s.grants
    decreases |events|
  {
    if events != [] {
      StepKeepsInv(s, events[0], initial);
      EmptyIsForever(Apply(s, events[0]), events[1..], initial);
    }
  }

  // ---- How often a call can fail ------------------------------------------------------------

  /** A failed exchange that read another value than the expected one. */
  predicate Genuine(s: State, e: Event, t: ThreadId)
    requires Enabled(s, e)
  {
    e.Fail? && e.t == t && s.history[e.at] != s.threads[t].phase.current
  }

  ghost function GenuineFailures(s: State, events: seq<Event>, t: ThreadId): nat
    requires CanRun(s, events)
    decreases |events|
  {
    if events == [] then 0
    else (if Genuine(s, events[0], t) then 1 else 0) + GenuineFailures(Apply(s, events[0]), events[1..], t)
  }

  /** The value the loop of the current call still works with; 0 when the call has returned. */
  function Remaining(s: State, t: ThreadId): nat
    requires t in s.threads
  {
    if s.threads[t].phase.Looping? then s.threads[t].phase.current else 0
  }

  /** A failed exchange either read the expected value again (a spurious failure) or leaves the caller
      with a strictly smaller `current`. */
  lemma GenuineFailureMakesProgress(s: State, t: ThreadId, at: nat, initial: nat)
    requires Inv(s, initial) && Enabled(s, Fail(t, at))
    ensures var before, after := s.threads[t].phase.current, Apply(s, Fail(t, at)).threads[t].phase;
      after.Looping? && (after.current < before || s.history[at] == before)
  {
    assert ThreadInv(s, s.threads[t]);
  }

  /** In every interleaving, from its first load on a call suffers at most as many genuine failures as
      it saw tokens; while it is still looping, at least one token it saw has gone per failure. */
  lemma {:induction false} GenuineFailuresAreBounded(s: State, events: seq<Event>, t: ThreadId, initial: nat)
    requires Inv(s, initial) && CanRun(s, events)
    requires t in s.threads && !s.threads[t].phase.Idle? && CallAgain(t) !in events
    ensures t in Run(s, events).threads
    ensures GenuineFailures(s, events, t) + Remaining(Run(s, events), t) <= Remaining(s, t)
    decreases |events|
  {
    if events != [] {
      var e, next := events[0], Apply(s, events[0]);
      StepKeepsInv(s, e, initial);
      if e.Fail? && e.t == t {
        GenuineFailureMakesProgress(s, t, e.at, initial);
      }
      assert CallAgain(t) !in events[1..];
      GenuineFailuresAreBounded(next, events[1..], t, initial);
    }
  }
}
