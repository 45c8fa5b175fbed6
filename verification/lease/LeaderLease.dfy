/** The Redis leader lease: many instances, one key with an expiry, commands whose replies may be lost.
    Steps of all instances interleave freely; time is one clock without drift. */
module LeaderLease {
  import opened Options

  type Time = nat
  type InstanceId = nat
  type Ttl = t: nat | t > 0 witness 1

  // ---- Redis ------------------------------------------------------------------------------

  /** The lock key: its token stands for the instance that wrote it. */
  datatype Key = Vacant | Held(owner: InstanceId, expiry: Time)

  /** A grant: from the moment the expiry was set until that expiry, or the owner's release. */
  datatype Grant = Grant(owner: InstanceId, from: Time, until: Time)

  /** The key, and the history of all grants. */
  datatype Redis = Redis(key: Key, grants: seq<Grant>)

  /** `Occupied` names the owner of the key and, for the history, the grant that it rests on. */
  datatype Reply = Granted(grant: nat) | Occupied(holder: InstanceId, grant: nat) | NotMine

  predicate HeldBy(r: Redis, now: Time, i: InstanceId) {
    r.key.Held? && now < r.key.expiry && r.key.owner == i
  }

  /** RENEW_SCRIPT: extend the key if it holds the caller's token. */
  function Renew(r: Redis, now: Time, i: InstanceId, ttl: Ttl): (Redis, Reply) {
    if HeldBy(r, now, i) then GrantTo(r, now, i, ttl) else (r, NotMine)
  }

  /** SET key token NX PX ttl. */
  function Claim(r: Redis, now: Time, i: InstanceId, ttl: Ttl): (Redis, Reply) {
    if r.key.Held? && now < r.key.expiry then (r, Occupied(r.key.owner, Newest(r))) else GrantTo(r, now, i, ttl)
  }

  /** The newest grant: the one the key rests on while it is held. */
  function Newest(r: Redis): nat {
    if r.grants == [] then 0 else |r.grants| - 1
  }

  function GrantTo(r: Redis, now: Time, i: InstanceId, ttl: Ttl): (Redis, Reply) {
    (Redis(Held(i, now + ttl), r.grants + [Grant(i, now, now + ttl)]), Granted(|r.grants|))
  }

  /** RELEASE_SCRIPT: delete the key if it holds the caller's token. */
  function Drop(r: Redis, now: Time, i: InstanceId): Redis {
    if HeldBy(r, now, i) then Redis(Vacant, seq(|r.grants|, k requires 0 <= k < |r.grants| => CutShort(r.grants[k], now, i)))
    else r
  }

  /** A release by `i` ends its grant now. */
  function CutShort(g: Grant, now: Time, i: InstanceId): Grant {
    if g.owner == i && g.until > now then g.(until := now) else g
  }

  // ---- Instances --------------------------------------------------------------------------

  /** Where an instance is inside `try_acquire_or_renew` or `release`. */
  datatype Phase =
    | Idle
    | Connecting(started: Time, expired: bool)
    | Renewing(started: Time)
    | Claiming(started: Time)
    | Answering(started: Time, cause: Cause)
    | Releasing
    | Dropping
    | Dropped

  /** Why a call answers as it does: `true` after a grant that was seen, `false` otherwise. `standing` is
      the caller's own grant that was live, unknown to it, when the call gave up. */
  datatype Cause =
    | ByGrant(grant: nat)                              // renewed, or set with NX
    | GrantUnseen(grant: nat)                          // set with NX, reply lost
    | KeyHeld(holder: InstanceId, grant: nat)          // NX met a token
    | ClaimNotRun(standing: Option<nat>)               // the SET NX failed
    | NoConnection(standing: Option<nat>)              // no connection to Redis

  datatype Instance = Instance(ttl: Ttl, deadline: Option<Time>, phase: Phase)

  datatype Answer = Answer(who: InstanceId, started: Time, at: Time, cause: Cause) {
    predicate Leader() { cause.ByGrant? }
  }

  datatype State = State(now: Time, redis: Redis, instances: map<InstanceId, Instance>, answers: seq<Answer>)

  /** What becomes of a command: a lost reply and a command that never ran look alike to the caller. */
  datatype Delivery = Delivered | ReplyLost | NotRun

  datatype Event =
    | Tick(passed: nat)
    | Call(i: InstanceId)
    | Connect(i: InstanceId, ok: bool)
    | SendRenew(i: InstanceId, delivery: Delivery)
    | SendClaim(i: InstanceId, delivery: Delivery)
    | Return(i: InstanceId)
    | CallRelease(i: InstanceId)
    | ConnectRelease(i: InstanceId, ok: bool)
    | SendDrop(i: InstanceId, delivery: Delivery)
    | ReturnRelease(i: InstanceId)

  predicate Enabled(s: State, e: Event) {
    e.Tick? || (e.i in s.instances && EnabledIn(s.instances[e.i].phase, e))
  }

  predicate EnabledIn(phase: Phase, e: Event) {
    match e
    case Tick(_) => true
    case Call(_) => phase.Idle?
    case Connect(_, _) => phase.Connecting?
    case SendRenew(_, _) => phase.Renewing?
    case SendClaim(_, _) => phase.Claiming?
    case Return(_) => phase.Answering?
    case CallRelease(_) => phase.Idle?
    case ConnectRelease(_, _) => phase.Releasing?
    case SendDrop(_, _) => phase.Dropping?
    case ReturnRelease(_) => phase.Dropped?
  }

  /** What a step does to Redis, with the reply: for a renewal as the caller sees it. */
  function RedisStep(s: State, e: Event): (Redis, Reply)
    requires Enabled(s, e)
  {
    match e
    case SendRenew(i, delivery) =>
      var (r, reply) := if delivery.NotRun? then (s.redis, NotMine) else Renew(s.redis, s.now, i, s.instances[i].ttl);
      (r, if delivery.Delivered? then reply else NotMine)
    case SendClaim(i, delivery) =>
      if delivery.NotRun? then (s.redis, NotMine) else Claim(s.redis, s.now, i, s.instances[i].ttl)
    case SendDrop(i, delivery) =>
      (if delivery.NotRun? then s.redis else Drop(s.redis, s.now, i), NotMine)
    case _ => (s.redis, NotMine)
  }

  /** The caller's own live grant, if it has one. */
  function Standing(s: State, i: InstanceId): Option<nat> {
    if HeldBy(s.redis, s.now, i) then Some(Newest(s.redis)) else None
  }

  /** What a step does to the instance that takes it. */
  function InstanceStep(s: State, e: Event): Instance
    requires Enabled(s, e) && !e.Tick?
  {
    var me := s.instances[e.i];
    match e
    case Call(_) =>
      var expired := me.deadline.Some? && s.now >= me.deadline.value;
      me.(deadline := if expired then None else me.deadline, phase := Connecting(s.now, expired))
    case Connect(_, ok) =>
      var started := me.phase.started;
      me.(phase := if !ok then Answering(started, NoConnection(Standing(s, e.i)))
                   else if me.phase.expired then Claiming(started) else Renewing(started))
    case SendRenew(_, _) =>
      var (_, reply) := RedisStep(s, e);
      me.(phase := if reply.Granted? then Answering(me.phase.started, ByGrant(reply.grant))
                   else Claiming(me.phase.started))
    case SendClaim(_, delivery) =>
      var (_, reply) := RedisStep(s, e);
      me.(phase := Answering(me.phase.started,
        match reply
        case Granted(grant) => if delivery.Delivered? then ByGrant(grant) else GrantUnseen(grant)
        case Occupied(holder, grant) => KeyHeld(holder, grant)
        case NotMine => ClaimNotRun(Standing(s, e.i))))
    case Return(_) =>
      me.(deadline := if me.phase.cause.ByGrant? then Some(s.now + me.ttl) else me.deadline, phase := Idle)
    case CallRelease(_) => me.(phase := Releasing)
    case ConnectRelease(_, ok) => me.(phase := if ok then Dropping else Idle)
    case SendDrop(_, _) => me.(phase := Dropped)
    case ReturnRelease(_) => me.(deadline := None, phase := Idle)
  }

  function Apply(s: State, e: Event): State
    requires Enabled(s, e)
  {
    if e.Tick? then s.(now := s.now + e.passed)
    else
      var me := s.instances[e.i];
      State(s.now, RedisStep(s, e).0, s.instances[e.i := InstanceStep(s, e)],
        if e.Return? then s.answers + [Answer(e.i, me.phase.started, s.now, me.phase.cause)] else s.answers)
  }

  // ---- Runs -------------------------------------------------------------------------------

  ghost predicate Initial(s: State) {
    && s.redis == Redis(Vacant, []) && s.answers == []
    && forall i :: i in s.instances ==> s.instances[i].phase == Idle && s.instances[i].deadline == None
  }

  /** Every command ran and its reply arrived (failed connections are still allowed). */
  predicate Reliable(e: Event) {
    (e.SendRenew? || e.SendClaim? || e.SendDrop?) ==> e.delivery.Delivered?
  }

  ghost predicate CanRun(s: State, events: seq<Event>)
    decreases |events|
  {
    events == [] || (Enabled(s, events[0]) && CanRun(Apply(s, events[0]), events[1..]))
  }

  ghost function Run(s: State, events: seq<Event>): State
    requires CanRun(s, events)
    decreases |events|
  {
    if events == [] then s else Run(Apply(s, events[0]), events[1..])
  }

  // ---- Exclusivity ------------------------------------------------------------------------

  /** Grants lie in the past, a grant still open is covered by the key, and grants to different
      instances follow one another without overlap. */
  ghost predicate GrantsInv(r: Redis, now: Time) {
    && (forall k :: 0 <= k < |r.grants| ==> r.grants[k].from <= now && r.grants[k].from <= r.grants[k].until)
    && (forall k :: 0 <= k < |r.grants| && r.grants[k].until > now ==>
          r.key.Held? && r.key.owner == r.grants[k].owner && r.key.expiry >= r.grants[k].until)
    && (forall j, k :: 0 <= j < k < |r.grants| && r.grants[j].owner != r.grants[k].owner ==>
          r.grants[j].until <= r.grants[k].from)
  }

  lemma GrantKeepsGrants(r: Redis, now: Time, i: InstanceId, ttl: Ttl)
    requires GrantsInv(r, now)
    requires r.key.Held? && now < r.key.expiry ==> r.key.owner == i && r.key.expiry <= now + ttl
    ensures GrantsInv(GrantTo(r, now, i, ttl).0, now)
  {
  }

  lemma DropKeepsGrants(r: Redis, now: Time, i: InstanceId)
    requires GrantsInv(r, now)
    ensures GrantsInv(Drop(r, now, i), now)
  {
  }

  /** The key expires at most one time-to-live of its owner from now. */
  ghost predicate ExpiryInv(s: State) {
    s.redis.key.Held? ==>
      s.redis.key.owner in s.instances && s.redis.key.expiry <= s.now + s.instances[s.redis.key.owner].ttl
  }

  lemma StepKeepsExpiry(s: State, e: Event)
    requires ExpiryInv(s) && Enabled(s, e)
    ensures ExpiryInv(Apply(s, e))
  {
  }

  lemma StepKeepsGrants(s: State, e: Event)
    requires GrantsInv(s.redis, s.now) && ExpiryInv(s) && Enabled(s, e)
    ensures GrantsInv(Apply(s, e).redis, Apply(s, e).now) && ExpiryInv(Apply(s, e))
  {
    StepKeepsExpiry(s, e);
    match e
    case SendRenew(i, _) =>
      if HeldBy(s.redis, s.now, i) {
        GrantKeepsGrants(s.redis, s.now, i, s.instances[i].ttl);
      }
    case SendClaim(i, _) =>
      if !(s.redis.key.Held? && s.now < s.redis.key.expiry) {
        GrantKeepsGrants(s.redis, s.now, i, s.instances[i].ttl);
      }
    case SendDrop(i, _) => DropKeepsGrants(s.redis, s.now, i);
    case _ =>
  }

  /** Grant `g` was given to `i` between `started` and `at`. */
  ghost predicate GrantedDuring(r: Redis, g: nat, i: InstanceId, started: Time, at: Time) {
    g < |r.grants| && r.grants[g].owner == i && started <= r.grants[g].from <= at
  }

  ghost predicate AnswerInv(r: Redis, a: Answer) {
    a.cause.ByGrant? ==> GrantedDuring(r, a.cause.grant, a.who, a.started, a.at)
  }

  ghost predicate PhaseInv(r: Redis, now: Time, i: InstanceId, phase: Phase) {
    && ((phase.Connecting? || phase.Renewing? || phase.Claiming? || phase.Answering?) ==> phase.started <= now)
    && (phase.Answering? ==> AnswerInv(r, Answer(i, phase.started, now, phase.cause)))
  }

  ghost predicate AnswersInv(s: State) {
    && (forall i :: i in s.instances ==> PhaseInv(s.redis, s.now, i, s.instances[i].phase))
    && (forall k :: 0 <= k < |s.answers| ==> AnswerInv(s.redis, s.answers[k]))
  }

  /** Grants are never removed; only their ends change. */
  lemma GrantsAreKept(s: State, e: Event)
    requires Enabled(s, e)
    ensures |s.redis.grants| <= |Apply(s, e).redis.grants|
    ensures forall k :: 0 <= k < |s.redis.grants| ==>
      var g, g' := s.redis.grants[k], Apply(s, e).redis.grants[k];
      g'.owner == g.owner && g'.from == g.from && g'.until <= g.until
  {
  }

  lemma StepKeepsAnswers(s: State, e: Event)
    requires AnswersInv(s) && Enabled(s, e)
    ensures AnswersInv(Apply(s, e))
  {
    GrantsAreKept(s, e);
    if !e.Tick? {
      assert PhaseInv(s.redis, s.now, e.i, s.instances[e.i].phase);
    }
  }

  lemma {:induction false} RunKeepsInvariants(s: State, events: seq<Event>)
    requires GrantsInv(s.redis, s.now) && ExpiryInv(s) && AnswersInv(s) && CanRun(s, events)
    ensures var s' := Run(s, events); GrantsInv(s'.redis, s'.now) && ExpiryInv(s') && AnswersInv(s')
    decreases |events|
  {
    if events != [] {
      StepKeepsGrants(s, events[0]);
      StepKeepsAnswers(s, events[0]);
      RunKeepsInvariants(Apply(s, events[0]), events[1..]);
    }
  }

  // ---- How long a grant lasts ---------------------------------------------------------------

  /** A release command of `who` that reached Redis at `at`. */
  datatype Release = Release(who: InstanceId, at: Time)

  /** The release commands of a run that reached Redis. */
  ghost function Releases(s: State, events: seq<Event>): seq<Release>
    requires CanRun(s, events)
    decreases |events|
  {
    if events == [] then [] else ReleaseOf(s, events[0]) + Releases(Apply(s, events[0]), events[1..])
  }

  function ReleaseOf(s: State, e: Event): seq<Release> {
    if e.SendDrop? && !e.delivery.NotRun? then [Release(e.i, s.now)] else []
  }

  /** A grant lasts its owner's time-to-live, or until its owner's next release if that comes earlier. */
  ghost predicate LastsFully(s: State, g: Grant, releases: seq<Release>) {
    && g.owner in s.instances
    && g.until <= g.from + s.instances[g.owner].ttl
    && (forall d :: d in releases && d.who == g.owner && d.at > g.from ==> g.until <= d.at)
    && (g.until == g.from + s.instances[g.owner].ttl || Release(g.owner, g.until) in releases)
  }

  ghost predicate WindowsInv(s: State, releases: seq<Release>) {
    && (forall k :: 0 <= k < |s.redis.grants| ==> LastsFully(s, s.redis.grants[k], releases))
    && (forall d :: d in releases ==> d.at <= s.now)
  }

  lemma StepKeepsWindows(s: State, e: Event, releases: seq<Release>)
    requires WindowsInv(s, releases) && GrantsInv(s.redis, s.now) && Enabled(s, e)
    ensures WindowsInv(Apply(s, e), releases + ReleaseOf(s, e))
  {
    var s', all := Apply(s, e), releases + ReleaseOf(s, e);
    forall k | 0 <= k < |s'.redis.grants| ensures LastsFully(s', s'.redis.grants[k], all) {
      if k < |s.redis.grants| {
        assert LastsFully(s, s.redis.grants[k], releases);
        GrantsAreKept(s, e);
        if e.SendDrop? {
          DropEndsGrants(s, e, k);
        }
      }
    }
  }

  lemma DropEndsGrants(s: State, e: Event, k: nat)
    requires GrantsInv(s.redis, s.now) && Enabled(s, e) && e.SendDrop? && k < |s.redis.grants|
    ensures |Apply(s, e).redis.grants| == |s.redis.grants|
    ensures Apply(s, e).redis.grants[k].until ==
      if !e.delivery.NotRun? && s.redis.grants[k].owner == e.i && s.redis.grants[k].until > s.now then s.now
      else s.redis.grants[k].until
  {
  }

  lemma {:induction false} RunKeepsWindows(s: State, events: seq<Event>, releases: seq<Release>)
    requires WindowsInv(s, releases) && GrantsInv(s.redis, s.now) && ExpiryInv(s) && CanRun(s, events)
    ensures WindowsInv(Run(s, events), releases + Releases(s, events))
    decreases |events|
  {
    if events == [] {
      assert releases + [] == releases;
    } else {
      var e, s' := events[0], Apply(s, events[0]);
      StepKeepsWindows(s, e, releases);
      StepKeepsGrants(s, e);
      RunKeepsWindows(s', events[1..], releases + ReleaseOf(s, e));
      assert releases + ReleaseOf(s, e) + Releases(s', events[1..]) == releases + Releases(s, events);
    }
  }

  /** In every run each grant lasts for the owner's whole time-to-live, unless a release by its owner
      comes earlier, and then to that moment exactly. */
  lemma GrantsLastTheirTime(s: State, events: seq<Event>, k: nat)
    requires Initial(s) && CanRun(s, events) && k < |Run(s, events).redis.grants|
    ensures var g := Run(s, events).redis.grants[k];
      && g.owner in Run(s, events).instances
      && g.until <= g.from + Run(s, events).instances[g.owner].ttl
      && (forall d :: d in Releases(s, events) && d.who == g.owner && d.at > g.from ==> g.until <= d.at)
      && (g.until == g.from + Run(s, events).instances[g.owner].ttl || Release(g.owner, g.until) in Releases(s, events))
  {
    RunKeepsWindows(s, events, []);
    assert [] + Releases(s, events) == Releases(s, events);
    assert LastsFully(Run(s, events), Run(s, events).redis.grants[k], Releases(s, events));
  }

  /** A call that is about to answer `true` has just set the key to expire one whole time-to-live later. */
  lemma TrueMeansAWholeLease(s: State, e: Event)
    requires Enabled(s, e) && !e.Tick? && !s.instances[e.i].phase.Answering?
    requires var phase := Apply(s, e).instances[e.i].phase; phase.Answering? && phase.cause.ByGrant?
    ensures var s', ttl := Apply(s, e), s.instances[e.i].ttl;
      && s'.redis.key == Held(e.i, s.now + ttl)
      && s'.redis.grants == s.redis.grants + [Grant(e.i, s.now, s.now + ttl)]
      && s'.instances[e.i].phase.cause.grant == |s.redis.grants|
  {
  }

  /** The later grant `b` starts when `a` has lasted `ttl`, or when its owner has released it. */
  ghost predicate Follows(b: Grant, a: Grant, ttl: Ttl, releases: seq<Release>) {
    || a.from + ttl <= b.from
    || exists d :: d in releases && d.who == a.owner && a.from <= d.at <= b.from
  }

  /** In every run, with any interleaving and any loss of replies: a lease of one instance starts only
      when that of another has lasted its owner's whole time-to-live or was released by its owner; and
      every `true` answer rests on a grant made during that very call. */
  lemma LeaseIsExclusive(s: State, events: seq<Event>)
    requires Initial(s) && CanRun(s, events)
    ensures var s' := Run(s, events); forall j, k :: 0 <= j < k < |s'.redis.grants| ==>
      var a, b := s'.redis.grants[j], s'.redis.grants[k];
      a.owner != b.owner ==>
        a.until <= b.from && a.owner in s'.instances
        && Follows(b, a, s'.instances[a.owner].ttl, Releases(s, events))
    ensures var s' := Run(s, events); forall k :: 0 <= k < |s'.answers| && s'.answers[k].Leader() ==>
      var a := s'.answers[k];
      GrantedDuring(s'.redis, a.cause.grant, a.who, a.started, a.at)
  {
    RunKeepsInvariants(s, events);
    var s' := Run(s, events);
    forall j, k | 0 <= j < k < |s'.redis.grants| && s'.redis.grants[j].owner != s'.redis.grants[k].owner
      ensures s'.redis.grants[j].owner in s'.instances
      ensures Follows(s'.redis.grants[k], s'.redis.grants[j],
                      s'.instances[s'.redis.grants[j].owner].ttl, Releases(s, events))
    {
      var a := s'.redis.grants[j];
      GrantsLastTheirTime(s, events, j);
      if a.until != a.from + s'.instances[a.owner].ttl {
        var d := Release(a.owner, a.until);
        assert d in Releases(s, events) && d.who == a.owner && a.from <= d.at;
      }
    }
  }

  /** No step of an instance deletes, extends or takes over a live lease of another one. */
  lemma LeasesOfOthersAreSafe(s: State, e: Event, holder: InstanceId)
    requires Enabled(s, e) && !e.Tick? && e.i != holder
    requires HeldBy(s.redis, s.now, holder)
    ensures Apply(s, e).redis == s.redis
  {
  }

  // ---- The local deadline ------------------------------------------------------------------

  /** `deadline` lies one time-to-live after the newest `true` answer of `i`. */
  ghost predicate DeadlineOf(answers: seq<Answer>, i: InstanceId, ttl: Ttl, deadline: Time) {
    exists k ::
      && 0 <= k < |answers| && answers[k].who == i && answers[k].Leader() && deadline == answers[k].at + ttl
      && forall j :: k < j < |answers| && answers[j].who == i ==> !answers[j].Leader()
  }

  ghost predicate DeadlinesInv(s: State) {
    forall i :: i in s.instances && s.instances[i].deadline.Some? ==>
      DeadlineOf(s.answers, i, s.instances[i].ttl, s.instances[i].deadline.value)
  }

  lemma DeadlineAfterAnswer(answers: seq<Answer>, answer: Answer, i: InstanceId, ttl: Ttl, deadline: Time)
    requires DeadlineOf(answers, i, ttl, deadline) && (answer.who == i ==> !answer.Leader())
    ensures DeadlineOf(answers + [answer], i, ttl, deadline)
  {
    var k :| 0 <= k < |answers| && answers[k].who == i && answers[k].Leader() && deadline == answers[k].at + ttl
      && forall j :: k < j < |answers| && answers[j].who == i ==> !answers[j].Leader();
    assert (answers + [answer])[k] == answers[k];
  }

  lemma StepKeepsDeadlines(s: State, e: Event)
    requires DeadlinesInv(s) && Enabled(s, e)
    ensures DeadlinesInv(Apply(s, e))
  {
    var s' := Apply(s, e);
    forall i | i in s'.instances && s'.instances[i].deadline.Some?
      ensures DeadlineOf(s'.answers, i, s'.instances[i].ttl, s'.instances[i].deadline.value)
    {
      if e.Return? {
        var answer := s'.answers[|s.answers|];
        if e.i == i && answer.Leader() {
          assert s'.instances[i].deadline.value == answer.at + s'.instances[i].ttl;
        } else {
          DeadlineAfterAnswer(s.answers, answer, i, s.instances[i].ttl, s.instances[i].deadline.value);
        }
      }
    }
  }

  lemma {:induction false} RunKeepsDeadlines(s: State, events: seq<Event>)
    requires DeadlinesInv(s) && CanRun(s, events)
    ensures DeadlinesInv(Run(s, events))
    decreases |events|
  {
    if events != [] {
      StepKeepsDeadlines(s, events[0]);
      RunKeepsDeadlines(Apply(s, events[0]), events[1..]);
    }
  }

  /** In every run a local deadline lies exactly one time-to-live after the instance's newest `true`
      answer; and a call whose connection succeeds tries to renew, unless it began at or after that
      deadline: then it forgets the deadline and goes on to the SET NX. */
  lemma DeadlineDecidesTheRenewal(s: State, events: seq<Event>, i: InstanceId)
    requires Initial(s) && CanRun(s, events)
    requires i in Run(s, events).instances && Run(s, events).instances[i].phase.Idle?
    ensures var s' := Run(s, events); var me := s'.instances[i];
      me.deadline.Some? ==> DeadlineOf(s'.answers, i, me.ttl, me.deadline.value)
    ensures var s' := Run(s, events); var me := s'.instances[i];
      && CanRun(s', [Call(i), Connect(i, true)]) && i in Run(s', [Call(i), Connect(i, true)]).instances
      && Run(s', [Call(i), Connect(i, true)]).instances[i] ==
           if me.deadline.Some? && me.deadline.value <= s'.now then Instance(me.ttl, None, Claiming(s'.now))
           else Instance(me.ttl, me.deadline, Renewing(s'.now))
  {
    RunKeepsDeadlines(s, events);
    RunOfTwo(Run(s, events), Call(i), Connect(i, true));
  }

  lemma RunOfTwo(s: State, a: Event, b: Event)
    requires Enabled(s, a) && Enabled(Apply(s, a), b)
    ensures CanRun(s, [a, b]) && Run(s, [a, b]) == Apply(Apply(s, a), b)
  {
    var s2 := Apply(Apply(s, a), b);
    assert CanRun(s2, []) && Run(s2, []) == s2;
    assert [b][1..] == [];
    assert CanRun(Apply(s, a), [b]) && Run(Apply(s, a), [b]) == s2;
    assert [a, b][1..] == [b];
  }

  // ---- Release ------------------------------------------------------------------------------

  /** A release command of the holder that reaches Redis frees the key for the next SET NX, whoever
      sends it, and the release then forgets the local deadline. */
  lemma ReleaseFreesTheKey(s: State, i: InstanceId, other: InstanceId)
    requires i in s.instances && s.instances[i].phase.Dropping? && HeldBy(s.redis, s.now, i)
    requires other in s.instances && s.instances[other].phase.Claiming?
    ensures CanRun(s, [SendDrop(i, Delivered), ReturnRelease(i), SendClaim(other, Delivered)])
    ensures var s' := Run(s, [SendDrop(i, Delivered), ReturnRelease(i), SendClaim(other, Delivered)]);
      && HeldBy(s'.redis, s'.now, other)
      && s'.instances == s.instances[i := Instance(s.instances[i].ttl, None, Idle)]
           [other := s.instances[other].(phase := Answering(s.instances[other].phase.started, ByGrant(|s.redis.grants|)))]
  {
    RunOfThree(s, SendDrop(i, Delivered), ReturnRelease(i), SendClaim(other, Delivered));
  }

  /** A release that connects sends its command; one that cannot changes nothing at all. */
  lemma ReleaseNeedsAConnection(s: State, i: InstanceId, ok: bool)
    requires i in s.instances && s.instances[i].phase.Idle?
    ensures CanRun(s, [CallRelease(i), ConnectRelease(i, ok)])
    ensures Run(s, [CallRelease(i), ConnectRelease(i, ok)])
         == if ok then s.(instances := s.instances[i := s.instances[i].(phase := Dropping)]) else s
  {
    RunOfTwo(s, CallRelease(i), ConnectRelease(i, ok));
    if !ok {
      assert Apply(Apply(s, CallRelease(i)), ConnectRelease(i, ok)).instances == s.instances;
    }
  }

  // ---- Exactness --------------------------------------------------------------------------

  /** With reliable commands, an instance whose lease is live in Redis knows it: its local deadline is
      never earlier, and it is never about to skip the renewal or to claim the key afresh. */
  ghost predicate OwnerInv(s: State, i: InstanceId)
    requires i in s.instances
  {
    var me := s.instances[i];
    HeldBy(s.redis, s.now, i) ==>
      match me.phase
      case Connecting(_, expired) => !expired && DeadlineCovers(me, s.redis.key.expiry)
      case Claiming(_) => false
      case Answering(_, cause) =>
        cause.ByGrant? || (cause.NoConnection? && DeadlineCovers(me, s.redis.key.expiry))
      case Dropped => false
      case _ => DeadlineCovers(me, s.redis.key.expiry)
  }

  predicate DeadlineCovers(me: Instance, expiry: Time) {
    me.deadline.Some? && me.deadline.value >= expiry
  }

  ghost predicate ExactAnswer(who: InstanceId, cause: Cause) {
    match cause
    case ByGrant(_) => true
    case KeyHeld(holder, _) => holder != who
    case NoConnection(_) => true
    case _ => false
  }

  ghost predicate ExactInv(s: State) {
    && ExpiryInv(s)
    && (forall i :: i in s.instances ==> OwnerInv(s, i))
    && (forall i :: i in s.instances && s.instances[i].phase.Answering? ==> ExactAnswer(i, s.instances[i].phase.cause))
    && (forall k :: 0 <= k < |s.answers| ==> ExactAnswer(s.answers[k].who, s.answers[k].cause))
  }

  lemma ReliableStepKeepsOwner(s: State, e: Event, i: InstanceId)
    requires ExactInv(s) && Enabled(s, e) && Reliable(e) && i in s.instances
    ensures OwnerInv(Apply(s, e), i)
  {
    assert OwnerInv(s, i);
  }

  lemma ReliableStepKeepsExactness(s: State, e: Event)
    requires ExactInv(s) && GrantsInv(s.redis, s.now) && Enabled(s, e) && Reliable(e)
    ensures ExactInv(Apply(s, e))
  {
    StepKeepsGrants(s, e);
    forall i | i in s.instances ensures OwnerInv(Apply(s, e), i) {
      ReliableStepKeepsOwner(s, e, i);
    }
    if !e.Tick? {
      assert OwnerInv(s, e.i);
    }
  }

  /** At its SET NX, and only there, a call is decided: it becomes leader if and only if the key holds no
      unexpired token of another instance. */
  lemma ClaimIsExact(s: State, i: InstanceId)
    requires ExactInv(s) && Enabled(s, SendClaim(i, Delivered))
    ensures Apply(s, SendClaim(i, Delivered)).instances[i].phase.cause.ByGrant?
       <==> !(exists other :: other != i && HeldBy(s.redis, s.now, other))
  {
    assert OwnerInv(s, i);
    if s.redis.key.Held? && s.now < s.redis.key.expiry {
      assert HeldBy(s.redis, s.now, s.redis.key.owner);
    }
  }

  lemma {:induction false} ReliableRunIsExact(s: State, events: seq<Event>)
    requires ExactInv(s) && GrantsInv(s.redis, s.now) && CanRun(s, events)
    requires forall e :: e in events ==> Reliable(e)
    ensures ExactInv(Run(s, events))
    decreases |events|
  {
    if events != [] {
      ReliableStepKeepsExactness(s, events[0]);
      StepKeepsGrants(s, events[0]);
      ReliableRunIsExact(Apply(s, events[0]), events[1..]);
    }
  }

  /** In runs without lost commands, an idle owner's local deadline covers its Redis lease, so a call
      that skips the renewal never abandons a live one; and a call that reached Redis answered `false`
      only because the unexpired token of another instance occupied the key at its SET NX. */
  lemma RefusalsAreJustified(s: State, events: seq<Event>)
    requires Initial(s) && CanRun(s, events)
    requires forall e :: e in events ==> Reliable(e)
    ensures var s' := Run(s, events); forall i :: i in s'.instances && HeldBy(s'.redis, s'.now, i) ==>
      var me := s'.instances[i];
      && (me.phase.Idle? ==> DeadlineCovers(me, s'.redis.key.expiry))
      && (me.phase.Connecting? ==> !me.phase.expired)
    ensures var s' := Run(s, events); forall k :: 0 <= k < |s'.answers| ==>
      var a := s'.answers[k];
      a.Leader() || a.cause.NoConnection? ||
      (a.cause.KeyHeld? && a.cause.holder != a.who)
  {
    ReliableRunIsExact(s, events);
  }

  // ---- The answer and the lease -------------------------------------------------------------

  /** The key rests on the newest grant. */
  ghost predicate KeyInv(r: Redis) {
    r.key.Held? ==> (r.grants != [] && r.grants[Newest(r)].owner == r.key.owner && r.grants[Newest(r)].until == r.key.expiry)
  }

  /** The grant of its own that a caller may still hold when it returns. */
  function OwnGrant(i: InstanceId, cause: Cause): Option<nat> {
    match cause
    case ByGrant(g) => Some(g)
    case GrantUnseen(g) => Some(g)
    case KeyHeld(holder, g) => if holder == i then Some(g) else None
    case ClaimNotRun(standing) => standing
    case NoConnection(standing) => standing
  }

  ghost predicate LeaseInv(r: Redis, now: Time, i: InstanceId, phase: Phase) {
    phase.Answering? ==>
      match OwnGrant(i, phase.cause)
      case None => !HeldBy(r, now, i)
      case Some(g) =>
        && g < |r.grants| && r.grants[g].owner == i
        && (r.key.Held? && r.key.owner == i ==> r.key.expiry == r.grants[g].until)
  }

  ghost predicate LeasesInv(s: State) {
    && GrantsInv(s.redis, s.now) && ExpiryInv(s) && KeyInv(s.redis)
    && forall i :: i in s.instances ==> LeaseInv(s.redis, s.now, i, s.instances[i].phase)
  }

  lemma StepKeepsKey(s: State, e: Event)
    requires KeyInv(s.redis) && Enabled(s, e)
    ensures KeyInv(Apply(s, e).redis)
  {
  }

  lemma StepKeepsLease(s: State, e: Event, i: InstanceId)
    requires LeasesInv(s) && Enabled(s, e) && i in s.instances
    ensures LeaseInv(Apply(s, e).redis, Apply(s, e).now, i, Apply(s, e).instances[i].phase)
  {
    assert LeaseInv(s.redis, s.now, i, s.instances[i].phase);
    GrantsAreKept(s, e);
  }

  lemma {:induction false} RunKeepsLeases(s: State, events: seq<Event>)
    requires LeasesInv(s) && CanRun(s, events)
    ensures LeasesInv(Run(s, events))
    decreases |events|
  {
    if events != [] {
      StepKeepsGrants(s, events[0]);
      StepKeepsKey(s, events[0]);
      forall i | i in s.instances {
        StepKeepsLease(s, events[0], i);
      }
      RunKeepsLeases(Apply(s, events[0]), events[1..]);
    }
  }

  /** Exactly when an answer says what it is documented to say, whether the caller holds the lease: a
      `true` must be given before its grant ends; a `false` must not leave behind a live grant that was
      not seen, that the SET NX ran into, or that stood when the SET NX or the connection failed. */
  predicate Truthful(r: Redis, now: Time, i: InstanceId, cause: Cause) {
    match cause
    case ByGrant(g) => Open(r, now, g)
    case GrantUnseen(g) => !Open(r, now, g)
    case KeyHeld(holder, g) => holder != i || !Open(r, now, g)
    case ClaimNotRun(standing) => standing.None? || !Open(r, now, standing.value)
    case NoConnection(standing) => standing.None? || !Open(r, now, standing.value)
  }

  predicate Open(r: Redis, now: Time, g: nat) {
    g < |r.grants| && now < r.grants[g].until
  }

  /** In every run, with any interleaving and any loss: a caller that is about to return holds the lease
      if and only if its own grant, as the cause names it, is still open; and its answer agrees with
      that if and only if it is `Truthful`. */
  lemma AnswerVersusLease(s: State, events: seq<Event>, i: InstanceId)
    requires Initial(s) && CanRun(s, events)
    requires Enabled(Run(s, events), Return(i))
    ensures var s' := Run(s, events);
      var own := OwnGrant(i, s'.instances[i].phase.cause);
      HeldBy(s'.redis, s'.now, i) <==> own.Some? && Open(s'.redis, s'.now, own.value)
    ensures var s' := Run(s, events);
      var cause := s'.instances[i].phase.cause;
      (cause.ByGrant? <==> HeldBy(s'.redis, s'.now, i)) <==> Truthful(s'.redis, s'.now, i, cause)
  {
    RunKeepsLeases(s, events);
    var s' := Run(s, events);
    assert LeaseInv(s'.redis, s'.now, i, s'.instances[i].phase);
  }

  /** With reliable commands and a connection, the answer is wrong in one case only: `true` after the
      grant has already run out. */
  lemma ReliableAnswerVersusLease(s: State, events: seq<Event>, i: InstanceId)
    requires Initial(s) && CanRun(s, events)
    requires forall e :: e in events ==> Reliable(e)
    requires Enabled(Run(s, events), Return(i)) && !Run(s, events).instances[i].phase.cause.NoConnection?
    ensures var s' := Run(s, events); var cause := s'.instances[i].phase.cause;
      (cause.ByGrant? <==> HeldBy(s'.redis, s'.now, i))
        <==> (cause.ByGrant? ==> Open(s'.redis, s'.now, cause.grant))
  {
    AnswerVersusLease(s, events, i);
    ReliableRunIsExact(s, events);
  }

  // ---- Runs in which the answer is wrong -----------------------------------------------------

  /** A lost reply: the owner's renewal runs, its reply is lost, the SET NX then
      meets the owner's own token, and the call answers `false` while nobody else holds the lease. */
  lemma LostReplyDeniesTheOwner(s: State, i: InstanceId)
    requires i in s.instances && s.instances[i].phase.Renewing? && HeldBy(s.redis, s.now, i)
    ensures
      var events := [SendRenew(i, ReplyLost), SendClaim(i, Delivered), Return(i)];
      CanRun(s, events) &&
      var s' := Run(s, events);
      && HeldBy(s'.redis, s'.now, i)
      && s'.answers == s.answers + [Answer(i, s.instances[i].phase.started, s.now, KeyHeld(i, |s.redis.grants|))]
  {
    RunOfThree(s, SendRenew(i, ReplyLost), SendClaim(i, Delivered), Return(i));
  }

  /** A failed connection: an owner that cannot reach Redis answers `false` under its live lease. */
  lemma FailedConnectionDeniesTheOwner(s: State, i: InstanceId)
    requires i in s.instances && s.instances[i].phase.Idle? && HeldBy(s.redis, s.now, i)
    ensures
      var events := [Call(i), Connect(i, false), Return(i)];
      CanRun(s, events) &&
      var s' := Run(s, events);
      && HeldBy(s'.redis, s'.now, i)
      && s'.answers == s.answers + [Answer(i, s.now, s.now, NoConnection(Some(Newest(s.redis))))]
  {
    RunOfThree(s, Call(i), Connect(i, false), Return(i));
  }

  /** A lost reply of the SET NX: the lease is won, and the winner answers `false`. */
  lemma LostClaimReplyHidesTheLease(s: State, i: InstanceId)
    requires i in s.instances && s.instances[i].phase.Connecting? && s.instances[i].phase.expired
    requires s.redis.key == Vacant
    ensures
      var events := [Connect(i, true), SendClaim(i, ReplyLost), Return(i)];
      CanRun(s, events) &&
      var s' := Run(s, events);
      && HeldBy(s'.redis, s'.now, i)
      && s'.answers == s.answers + [Answer(i, s.instances[i].phase.started, s.now, GrantUnseen(|s.redis.grants|))]
  {
    RunOfThree(s, Connect(i, true), SendClaim(i, ReplyLost), Return(i));
  }

  lemma RunOfThree(s: State, a: Event, b: Event, c: Event)
    requires Enabled(s, a) && Enabled(Apply(s, a), b) && Enabled(Apply(Apply(s, a), b), c)
    ensures CanRun(s, [a, b, c]) && Run(s, [a, b, c]) == Apply(Apply(Apply(s, a), b), c)
  {
    var s1, s2 := Apply(s, a), Apply(Apply(s, a), b);
    var s3 := Apply(s2, c);
    assert CanRun(s3, []) && Run(s3, []) == s3;
    assert [c][1..] == [];
    assert CanRun(s2, [c]) && Run(s2, [c]) == s3;
    assert [b, c][1..] == [c];
    assert CanRun(s1, [b, c]) && Run(s1, [b, c]) == s3;
    assert [a, b, c][1..] == [b, c];
  }

  /** Such a state is reached by one instance alone: its first call wins the lease, its second renews. */
  lemma OwnerRenewsAlone() returns (s: State, events: seq<Event>)
    ensures Initial(s) && CanRun(s, events)
    ensures var s' := Run(s, events); 0 in s'.instances && s'.instances[0].phase.Renewing? && HeldBy(s'.redis, s'.now, 0)
  {
    s := Alone(Redis(Vacant, []), None, Idle, []);
    var won := Redis(Held(0, 10), [Grant(0, 0, 10)]);
    var answer := [Answer(0, 0, 0, ByGrant(0))];
    events := [];
    events := Before(Call(0), Alone(won, Some(10), Idle, answer), Alone(won, Some(10), Connecting(0, false), answer),
                     [Connect(0, true)]);
    events := Before(Return(0), Alone(won, None, Answering(0, ByGrant(0)), []), Alone(won, Some(10), Idle, answer), events);
    events := Before(SendClaim(0, Delivered), Alone(s.redis, None, Claiming(0), []),
                     Alone(won, None, Answering(0, ByGrant(0)), []), events);
    events := Before(SendRenew(0, Delivered), Alone(s.redis, None, Renewing(0), []),
                     Alone(s.redis, None, Claiming(0), []), events);
    events := Before(Connect(0, true), Alone(s.redis, None, Connecting(0, false), []),
                     Alone(s.redis, None, Renewing(0), []), events);
    events := Before(Call(0), s, Alone(s.redis, None, Connecting(0, false), []), events);
  }

  function Alone(r: Redis, deadline: Option<Time>, phase: Phase, answers: seq<Answer>): State {
    State(0, r, map[0 := Instance(10, deadline, phase)], answers)
  }

  /** Puts one more event in front of a run. */
  lemma Before(e: Event, s: State, s1: State, rest: seq<Event>) returns (events: seq<Event>)
    requires Enabled(s, e) && Apply(s, e) == s1 && CanRun(s1, rest)
    ensures CanRun(s, events) && Run(s, events) == Run(s1, rest) && events == [e] + rest
  {
    events := [e] + rest;
    assert events[1..] == rest;
  }

  /** The state of two instances with a time-to-live of 10, before either has a deadline. */
  function Two(now: Time, r: Redis, zero: Phase, one: Phase): State {
    State(now, r, map[0 := Instance(10, None, zero), 1 := Instance(10, None, one)], [])
  }

  /** A run in which every command ran and every reply arrived, and which ends with instance 0 answering
      `true` while instance 1 holds the lease. */
  ghost predicate EndsOutlived(s: State, events: seq<Event>) {
    && CanRun(s, events) && (forall e :: e in events ==> Reliable(e))
    && var s' := Run(s, events);
       && s'.answers != [] && s'.answers[|s'.answers| - 1].who == 0 && s'.answers[|s'.answers| - 1].Leader()
       && !HeldBy(s'.redis, s'.now, 0) && HeldBy(s'.redis, s'.now, 1)
  }

  lemma Earlier(e: Event, s: State, s1: State, rest: seq<Event>) returns (events: seq<Event>)
    requires Enabled(s, e) && Apply(s, e) == s1 && Reliable(e) && EndsOutlived(s1, rest)
    ensures EndsOutlived(s, events)
  {
    events := Before(e, s, s1, rest);
  }

  /** Instance 0 wins the lease but its answer is slow; the lease runs out and instance 1 wins it; then
      instance 0 answers `true`. */
  lemma AnswerOutlivesGrant() returns (s: State, events: seq<Event>)
    ensures Initial(s) && EndsOutlived(s, events)
  {
    var vacant := Redis(Vacant, []);
    s := Two(0, vacant, Idle, Idle);
    events := FirstWins();
    events := Earlier(Connect(0, true), Two(0, vacant, Connecting(0, false), Idle), Two(0, vacant, Renewing(0), Idle), events);
    events := Earlier(Call(0), s, Two(0, vacant, Connecting(0, false), Idle), events);
  }

  lemma FirstWins() returns (events: seq<Event>)
    ensures EndsOutlived(Two(0, Redis(Vacant, []), Renewing(0), Idle), events)
  {
    var vacant, won := Redis(Vacant, []), Redis(Held(0, 10), [Grant(0, 0, 10)]);
    events := OtherConnects();
    events := Earlier(SendClaim(0, Delivered), Two(0, vacant, Claiming(0), Idle),
                      Two(0, won, Answering(0, ByGrant(0)), Idle), events);
    events := Earlier(SendRenew(0, Delivered), Two(0, vacant, Renewing(0), Idle), Two(0, vacant, Claiming(0), Idle), events);
  }

  lemma OtherConnects() returns (events: seq<Event>)
    ensures EndsOutlived(Two(0, Redis(Held(0, 10), [Grant(0, 0, 10)]), Answering(0, ByGrant(0)), Idle), events)
  {
    var won, slow := Redis(Held(0, 10), [Grant(0, 0, 10)]), Answering(0, ByGrant(0));
    events := OtherWins();
    events := Earlier(Connect(1, true), Two(10, won, slow, Connecting(10, false)), Two(10, won, slow, Renewing(10)), events);
    events := Earlier(Call(1), Two(10, won, slow, Idle), Two(10, won, slow, Connecting(10, false)), events);
    events := Earlier(Tick(10), Two(0, won, slow, Idle), Two(10, won, slow, Idle), events);
  }

  lemma OtherWins() returns (events: seq<Event>)
    ensures EndsOutlived(Two(10, Redis(Held(0, 10), [Grant(0, 0, 10)]), Answering(0, ByGrant(0)), Renewing(10)), events)
  {
    var won, lost := Redis(Held(0, 10), [Grant(0, 0, 10)]), Redis(Held(1, 20), [Grant(0, 0, 10), Grant(1, 10, 20)]);
    var slow := Answering(0, ByGrant(0));
    var t := Two(10, lost, slow, Answering(10, ByGrant(1)));
    events := Earlier(Return(0), t, Apply(t, Return(0)), []);
    events := Earlier(SendClaim(1, Delivered), Two(10, won, slow, Claiming(10)), t, events);
    events := Earlier(SendRenew(1, Delivered), Two(10, won, slow, Renewing(10)), Two(10, won, slow, Claiming(10)), events);
  }
}
