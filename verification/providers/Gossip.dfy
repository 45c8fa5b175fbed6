/** Provider gossip: registries of honest nodes that exchange snapshots which may be delayed, reordered,
    duplicated or lost. */
module Gossip {
  import opened Arithmetic
  import opened CircuitBreaker
  import opened Options

  const OBSERVATION_TTL: int := 5 * 60 * 1000
  const MAX_GOSSIP_PROVIDERS: nat := 64

  type Url = string
  type NodeId = string

  datatype RpcProvider = RpcProvider(
    name: string, url: Url, authHeader: Option<string>, authValue: Option<string>, advertise: Option<bool>)
  {
    /** Unless configured, providers with credentials stay local. */
    predicate ShouldAdvertise() {
      if advertise.Some? then advertise.value else authValue.None?
    }
  }

  /** What another node said about a provider; its clock need not agree with ours. */
  datatype Observation = Observation(score: int, healthy: bool, observedAt: int)

  datatype Entry = Entry(provider: RpcProvider, health: Health, observations: map<string, Observation>)

  type Registry = map<Url, Entry>

  datatype Offer = Offer(name: string, url: Url, score: int, healthy: bool, observedAt: int)

  datatype Snapshot = Snapshot(instanceId: string, baseUrl: Option<string>, offers: seq<Offer>) {
    /** The name under which a receiver files the observations. */
    function Source(): string {
      if baseUrl.Some? then baseUrl.value else instanceId
    }
  }

  // ---- Reports ------------------------------------------------------------------------------

  /** An observation from the future counts as fresh. */
  predicate Stale(o: Observation, now: int) {
    now - o.observedAt >= OBSERVATION_TTL
  }

  ghost function FreshOf(observations: map<string, Observation>, now: int): map<string, Observation> {
    map source | source in observations && !Stale(observations[source], now) :: observations[source]
  }

  ghost function Fresh(e: Entry, now: int): map<string, Observation> {
    FreshOf(e.observations, now)
  }

  ghost function SumOfScores(observations: map<string, Observation>): int {
    if observations == map[] then 0
    else
      var source :| source in observations;
      observations[source].score + SumOfScores(observations - {source})
  }

  /** Division as Rust does it: toward zero. */
  function Truncated(n: int, d: int): int
    requires d > 0
  {
    if n >= 0 then n / d else -(-n / d)
  }

  ghost function PeerScore(e: Entry, now: int): int {
    var current := Fresh(e, now);
    if current == map[] then 0 else Truncated(SumOfScores(current), |current|)
  }

  ghost function EffectiveScore(e: Entry, now: int): int {
    ClampScore(Truncated(e.health.localScore * 2 + PeerScore(e, now), 3))
  }

  ghost predicate Healthy(e: Entry, now: int) {
    var remoteHealthy := SomeHealthy(Fresh(e, now));
    && !e.health.Tripped(now)
    && (EffectiveScore(e, now) >= MIN_PROVIDER_SCORE || remoteHealthy)
    && (e.health.consecutiveFailures < THRESHOLD || remoteHealthy)
  }

  lemma {:induction false} TakeOne(observations: map<string, Observation>)
    returns (source: string, rest: map<string, Observation>)
    requires observations != map[]
    ensures source in observations && rest == observations - {source} && |rest| + 1 == |observations|
    ensures SumOfScores(observations) == observations[source].score + SumOfScores(rest)
  {
    source :| source in observations && SumOfScores(observations)
      == observations[source].score + SumOfScores(observations - {source});
    rest := observations - {source};
    assert rest.Keys == observations.Keys - {source};
    assert |rest.Keys| + 1 == |observations.Keys|;
  }

  /** The order in which the scores are summed does not matter. */
  lemma {:induction false} SumInAnyOrder(observations: map<string, Observation>, source: string)
    requires source in observations
    ensures SumOfScores(observations) == observations[source].score + SumOfScores(observations - {source})
    decreases |observations|
  {
    var first, rest := TakeOne(observations);
    if first != source {
      SumInAnyOrder(rest, source);
      assert |observations - {source}| == |rest| by {
        assert (observations - {source}).Keys == observations.Keys - {source};
      }
      SumInAnyOrder(observations - {source}, first);
      assert rest - {source} == observations - {source} - {first};
    }
  }

  ghost predicate SomeHealthy(observations: map<string, Observation>) {
    exists source :: source in observations && observations[source].healthy
  }

  lemma FreshWithout(observations: map<string, Observation>, source: string, now: int)
    requires source in observations
    ensures var before, after := FreshOf(observations, now), FreshOf(observations - {source}, now);
      if Stale(observations[source], now) then before == after
      else source in before && before[source] == observations[source] && before - {source} == after
           && |before| == |after| + 1
  {
    var before, after := FreshOf(observations, now), FreshOf(observations - {source}, now);
    if Stale(observations[source], now) {
      assert before == after;
    } else {
      assert before - {source} == after;
      assert before.Keys == after.Keys + {source};
    }
  }

  lemma SomeHealthyWithout(observations: map<string, Observation>, source: string)
    requires source in observations
    ensures SomeHealthy(observations) <==> observations[source].healthy || SomeHealthy(observations - {source})
  {
    if x :| x in observations && observations[x].healthy && x != source {
      assert x in observations - {source};
    }
    if x :| x in observations - {source} && (observations - {source})[x].healthy {
      assert x in observations && observations[x].healthy;
    }
  }

  /** What one observation adds to a report. */
  lemma OneObservation(observations: map<string, Observation>, source: string, now: int)
    requires source in observations
    ensures var before, after := FreshOf(observations, now), FreshOf(observations - {source}, now);
      var o := observations[source];
      if Stale(o, now) then before == after
      else && SumOfScores(before) == o.score + SumOfScores(after) && |before| == 1 + |after|
           && (SomeHealthy(before) <==> o.healthy || SomeHealthy(after))
  {
    FreshWithout(observations, source, now);
    if !Stale(observations[source], now) {
      SumInAnyOrder(FreshOf(observations, now), source);
      SomeHealthyWithout(FreshOf(observations, now), source);
    }
  }

  /** The loops of `build_provider_report` over the fresh observations, in whatever order the hash map
      has them. */
  method CountObservations(observations: map<string, Observation>, now: int)
    returns (sum: int, count: nat, remoteHealthy: bool)
    ensures sum == SumOfScores(FreshOf(observations, now)) && count == |FreshOf(observations, now)|
    ensures remoteHealthy <==> SomeHealthy(FreshOf(observations, now))
  {
    var rest := observations;
    sum, count, remoteHealthy := 0, 0, false;
    while rest != map[]
      invariant sum + SumOfScores(FreshOf(rest, now)) == SumOfScores(FreshOf(observations, now))
      invariant count + |FreshOf(rest, now)| == |FreshOf(observations, now)|
      invariant remoteHealthy || SomeHealthy(FreshOf(rest, now)) <==> SomeHealthy(FreshOf(observations, now))
      decreases rest.Keys
    {
      var source :| source in rest;
      OneObservation(rest, source, now);
      if !Stale(rest[source], now) {
        sum, count := sum + rest[source].score, count + 1;
        remoteHealthy := remoteHealthy || rest[source].healthy;
      }
      assert source !in (rest - {source}).Keys;
      rest := rest - {source};
    }
    assert FreshOf(rest, now) == map[];
  }

  /** `build_provider_report`, as far as snapshots need it. */
  method BuildReport(e: Entry, now: int) returns (effective: int, healthy: bool)
    ensures effective == EffectiveScore(e, now) && (healthy <==> Healthy(e, now))
  {
    var sum, count, remoteHealthy := CountObservations(e.observations, now);
    var peerScore := if count == 0 then 0 else Truncated(sum, count);
    effective := ClampScore(Truncated(e.health.localScore * 2 + peerScore, 3));
    healthy := !e.health.Tripped(now)
      && (effective >= MIN_PROVIDER_SCORE || remoteHealthy)
      && (e.health.consecutiveFailures < THRESHOLD || remoteHealthy);
  }

  // ---- Snapshots ----------------------------------------------------------------------------

  /** An offer a registry makes: a provider that may be advertised and is reported healthy. Any 64 of
      these, in any order, make a snapshot (a hash map has no order). */
  ghost predicate IsOffer(registry: Registry, o: Offer, now: int) {
    exists url :: url in registry &&
      var e := registry[url];
      && e.provider.ShouldAdvertise() && Healthy(e, now)
      && o == Offer(e.provider.name, e.provider.url, EffectiveScore(e, now), Healthy(e, now), now)
  }

  ghost predicate IsSnapshot(registry: Registry, s: Snapshot, now: int) {
    |s.offers| <= MAX_GOSSIP_PROVIDERS && forall o :: o in s.offers ==> IsOffer(registry, o, now)
  }

  /** What a registry offers, in terms of its configuration: the providers that are healthy and either
      marked for advertising or, when that is not configured, have no credential value; each with its
      name, its URL and its effective score. */
  lemma OffersAreExactly(registry: Registry, o: Offer, now: int)
    requires forall url :: url in registry ==> registry[url].provider.url == url
    ensures IsOffer(registry, o, now) <==>
      && o.url in registry && MayBeAdvertised(registry[o.url].provider)
      && Healthy(registry[o.url], now)
      && o == Offer(registry[o.url].provider.name, o.url, EffectiveScore(registry[o.url], now), true, now)
  {
  }

  /** The offers collected from the providers `done`: no URL twice, and all of them while there is room. */
  ghost predicate Collected(registry: Registry, done: seq<Url>, offers: seq<Offer>, now: int) {
    && |offers| <= MAX_GOSSIP_PROVIDERS
    && (forall o :: o in offers ==> IsOffer(registry, o, now) && o.url in done)
    && (forall j, k :: 0 <= j < k < |offers| ==> offers[j].url != offers[k].url)
    && (|offers| < MAX_GOSSIP_PROVIDERS ==> forall o :: IsOffer(registry, o, now) && o.url in done ==> o in offers)
  }

  lemma CollectOne(registry: Registry, done: seq<Url>, offers: seq<Offer>, url: Url, now: int)
    requires forall url :: url in registry ==> registry[url].provider.url == url
    requires url in registry && url !in done && Collected(registry, done, offers, now)
    ensures var e := registry[url];
      Collected(registry, done + [url],
        if e.provider.ShouldAdvertise() && Healthy(e, now) && |offers| < MAX_GOSSIP_PROVIDERS
        then offers + [Offer(e.provider.name, url, EffectiveScore(e, now), Healthy(e, now), now)] else offers, now)
  {
    var e := registry[url];
    var mine := Offer(e.provider.name, url, EffectiveScore(e, now), true, now);
    OffersAreExactly(registry, mine, now);
    forall o | IsOffer(registry, o, now) && o.url == url ensures o == mine && IsOffer(registry, mine, now) {
      OffersAreExactly(registry, o, now);
    }
  }

  /** The configuration of a provider that may be told to others. */
  ghost predicate MayBeAdvertised(p: RpcProvider) {
    p.advertise == Some(true) || (p.advertise == None && p.authValue == None)
  }

  /** A provider first heard of through gossip. */
  function Discovered(o: Offer): Entry {
    Entry(RpcProvider(o.name, o.url, None, None, Some(true)), Health(DISCOVERED_SCORE, 0, None), map[])
  }

  function MergeOffer(registry: Registry, source: string, o: Offer): Registry {
    var e := if o.url in registry then registry[o.url] else Discovered(o);
    registry[o.url := e.(observations := e.observations[source := Observation(o.score, o.healthy, o.observedAt)])]
  }

  function MergeOffers(registry: Registry, source: string, offers: seq<Offer>): Registry {
    if offers == [] then registry
    else MergeOffer(MergeOffers(registry, source, offers[..|offers| - 1]), source, offers[|offers| - 1])
  }

  class ProviderRegistry {
    var states: Registry

    constructor (states: Registry)
      ensures this.states == states
    {
      this.states := states;
    }

    /** `get_or_insert_provider` */
    method GetOrInsertProvider(provider: RpcProvider, startingScore: int) returns (e: Entry)
      modifies this
      ensures e == if provider.url in old(states) then old(states)[provider.url]
                   else Entry(provider, Health(startingScore, 0, None), map[])
      ensures states == old(states)[provider.url := e]
    {
      if provider.url in states {
        e := states[provider.url];
        return;
      }
      e := Entry(provider, Health(startingScore, 0, None), map[]);
      states := states[provider.url := e];
    }

    /** `registry_snapshot`, with the order of the hash map as a parameter: offers of this registry, no
        URL twice, and all of them when there is still room for more. */
    method RegistrySnapshot(instanceId: string, baseUrl: Option<string>, order: seq<Url>, now: int)
      returns (snapshot: Snapshot)
      requires forall url :: url in states ==> states[url].provider.url == url
      requires forall url :: url in order <==> url in states
      requires forall j, k :: 0 <= j < k < |order| ==> order[j] != order[k]
      ensures snapshot.instanceId == instanceId && snapshot.baseUrl == baseUrl
      ensures IsSnapshot(states, snapshot, now) && |snapshot.offers| <= 64
      ensures forall j, k :: 0 <= j < k < |snapshot.offers| ==> snapshot.offers[j].url != snapshot.offers[k].url
      ensures |snapshot.offers| < 64 ==> forall o :: IsOffer(states, o, now) ==> o in snapshot.offers
    {
      var offers: seq<Offer> := [];
      for i := 0 to |order|
        invariant Collected(states, order[..i], offers, now)
      {
        var url := order[i];
        var e := states[url];
        var effective, healthy := BuildReport(e, now);
        ghost var before := offers;
        if e.provider.ShouldAdvertise() && healthy && |offers| < MAX_GOSSIP_PROVIDERS {
          offers := offers + [Offer(e.provider.name, url, effective, healthy, now)];
        }
        CollectOne(states, order[..i], before, url, now);
        assert order[..i + 1] == order[..i] + [url];
      }
      forall o | IsOffer(states, o, now) ensures o.url in order[..|order|] {
        OffersAreExactly(states, o, now);
      }
      snapshot := Snapshot(instanceId, baseUrl, offers);
    }

    /** The body of the merge loop. */
    method MergeOne(source: string, o: Offer)
      modifies this
      ensures states == MergeOffer(old(states), source, o)
    {
      var e := GetOrInsertProvider(RpcProvider(o.name, o.url, None, None, Some(true)), DISCOVERED_SCORE);
      states := states[o.url :=
        e.(observations := e.observations[source := Observation(o.score, o.healthy, o.observedAt)])];
    }

    method MergeSnapshot(snapshot: Snapshot)
      modifies this
      ensures states == MergeOffers(old(states), snapshot.Source(), snapshot.offers)
    {
      var source := if snapshot.baseUrl.Some? then snapshot.baseUrl.value else snapshot.instanceId;
      for i := 0 to |snapshot.offers|
        invariant states == MergeOffers(old(states), source, snapshot.offers[..i])
      {
        assert snapshot.offers[..i + 1][..i] == snapshot.offers[..i];
        MergeOne(source, snapshot.offers[i]);
      }
      assert snapshot.offers[..|snapshot.offers|] == snapshot.offers;
    }
  }

  /** Offered, and as a provider heard of through that offer should be: without credentials, to be
      advertised further, and with the starting score 55. */
  ghost predicate WasOffered(offers: seq<Offer>, url: Url, e: Entry) {
    exists o :: o in offers && o.url == url
      && e.provider == RpcProvider(o.name, url, None, None, Some(true)) && e.health == Health(55, 0, None)
  }

  /** Merging never touches what a node knows itself: credentials, score, failures and trip of every
      provider it already has; and it adds only providers that were offered, without credentials. */
  lemma {:induction false} MergeKeepsLocalKnowledge(registry: Registry, source: string, offers: seq<Offer>, url: Url)
    ensures var after := MergeOffers(registry, source, offers);
      if url in registry then
        url in after && after[url].(observations := registry[url].observations) == registry[url]
      else
        url in after ==> WasOffered(offers, url, after[url])
    decreases |offers|
  {
    if offers != [] {
      var front, last := offers[..|offers| - 1], offers[|offers| - 1];
      var middle, after := MergeOffers(registry, source, front), MergeOffers(registry, source, offers);
      MergeKeepsLocalKnowledge(registry, source, front, url);
      if url !in registry && url in after {
        assert WasOffered(offers, url, after[url]) by {
          if url in middle {
            var o :| o in front && o.url == url && middle[url].provider == RpcProvider(o.name, url, None, None, Some(true));
            assert o in offers;
          } else {
            assert last in offers && after[url].provider == RpcProvider(last.name, url, None, None, Some(true));
          }
        }
      }
    }
  }

  /** Every observation after a merge is an old one or comes from an offer for that provider. */
  lemma {:induction false} MergeAddsOnlyOffers(
    registry: Registry, source: string, offers: seq<Offer>, url: Url, from: string)
    requires url in MergeOffers(registry, source, offers)
    requires from in MergeOffers(registry, source, offers)[url].observations
    ensures var o := MergeOffers(registry, source, offers)[url].observations[from];
      || (url in registry && from in registry[url].observations && o == registry[url].observations[from])
      || (exists offer :: offer in offers && offer.url == url && o == Observation(offer.score, offer.healthy, offer.observedAt))
    decreases |offers|
  {
    if offers != [] {
      var front, last := offers[..|offers| - 1], offers[|offers| - 1];
      assert last in offers;
      if !(last.url == url && from == source) {
        MergeAddsOnlyOffers(registry, source, front, url, from);
      }
    }
  }

  /** Merging stores, for each URL, the last offer for it as the opinion of the sender, whom it knows by
      its base URL or, without one, by its instance id. */
  lemma {:induction false} MergeRecordsTheOffers(registry: Registry, snapshot: Snapshot, k: nat)
    requires k < |snapshot.offers|
    requires forall j :: k < j < |snapshot.offers| ==> snapshot.offers[j].url != snapshot.offers[k].url
    ensures var o := snapshot.offers[k];
      var after := MergeOffers(registry, snapshot.Source(), snapshot.offers);
      var sender := if snapshot.baseUrl == None then snapshot.instanceId else snapshot.baseUrl.value;
      && o.url in after && sender in after[o.url].observations
      && after[o.url].observations[sender] == Observation(o.score, o.healthy, o.observedAt)
    decreases |snapshot.offers|
  {
    var last := |snapshot.offers| - 1;
    if k < last {
      MergeRecordsTheOffers(registry, snapshot.(offers := snapshot.offers[..last]), k);
    }
  }

  /** It leaves the opinions of everybody else alone. */
  lemma {:induction false} MergeKeepsOtherOpinions(
    registry: Registry, source: string, offers: seq<Offer>, url: Url, from: string)
    requires url in registry && from != source
    ensures var after := MergeOffers(registry, source, offers);
      && url in after && (from in after[url].observations <==> from in registry[url].observations)
      && (from in registry[url].observations ==>
            after[url].observations[from] == registry[url].observations[from])
    decreases |offers|
  {
    if offers != [] {
      MergeKeepsOtherOpinions(registry, source, offers[..|offers| - 1], url, from);
    }
  }

  // ---- The network --------------------------------------------------------------------------

  /** The registries, and every snapshot ever sent: each may arrive anywhere, at any time, repeatedly. */
  datatype Network = Network(nodes: map<NodeId, Registry>, sent: set<Snapshot>)

  datatype Event =
    | Local(node: NodeId, url: Url, after: Entry)
    | Send(node: NodeId, snapshot: Snapshot, now: int)
    | Deliver(node: NodeId, snapshot: Snapshot)

  ghost predicate Enabled(n: Network, e: Event) {
    e.node in n.nodes &&
    match e
    case Local(node, url, after) =>
      // reports, probes and queries change a provider's own score, failures and trip in any way
      && url in n.nodes[node] && MIN_SCORE <= after.health.localScore <= MAX_SCORE
      && after.provider == n.nodes[node][url].provider && after.observations == n.nodes[node][url].observations
    case Send(node, snapshot, now) => IsSnapshot(n.nodes[node], snapshot, now)
    case Deliver(_, snapshot) => snapshot in n.sent
  }

  ghost function Apply(n: Network, e: Event): Network
    requires Enabled(n, e)
  {
    match e
    case Local(node, url, after) => n.(nodes := n.nodes[node := n.nodes[node][url := after]])
    case Send(_, snapshot, _) => n.(sent := n.sent + {snapshot})
    case Deliver(node, snapshot) =>
      n.(nodes := n.nodes[node := MergeOffers(n.nodes[node], snapshot.Source(), snapshot.offers)])
  }

  ghost predicate Initial(n: Network) {
    n.sent == {} &&
    forall node, url :: node in n.nodes && url in n.nodes[node] ==>
      var e := n.nodes[node][url];
      e.provider.url == url && e.health.localScore == SEED_SCORE && e.observations == map[]
  }

  ghost predicate IsRun(states: seq<Network>, events: seq<Event>) {
    && |states| == |events| + 1 && Initial(states[0])
    && forall k {:trigger events[k]} :: 0 <= k < |events| ==>
         Enabled(states[k], events[k]) && states[k + 1] == Apply(states[k], events[k])
  }

  // ---- Scores cannot be inflated --------------------------------------------------------------

  ghost predicate ObservationsWithin(observations: map<string, Observation>, bound: int) {
    forall source :: source in observations ==> MIN_SCORE <= observations[source].score <= bound
  }

  ghost predicate EntryWithin(e: Entry, bound: int) {
    MIN_SCORE <= e.health.localScore <= MAX_SCORE && e.health.localScore <= bound && ObservationsWithin(e.observations, bound)
  }

  /** No node's own score for `url` exceeds `bound`. */
  ghost predicate LocalScoresWithin(n: Network, url: Url, bound: int) {
    forall node :: node in n.nodes && url in n.nodes[node] ==> n.nodes[node][url].health.localScore <= bound
  }

  ghost predicate ScoresWithin(n: Network, url: Url, bound: int) {
    && (forall node :: node in n.nodes && url in n.nodes[node] ==> EntryWithin(n.nodes[node][url], bound))
    && (forall snapshot, o :: snapshot in n.sent && o in snapshot.offers && o.url == url ==>
          MIN_SCORE <= o.score <= bound)
    && (forall node, u :: node in n.nodes && u in n.nodes[node] ==> n.nodes[node][u].provider.url == u)
  }

  lemma {:induction false} SumWithin(observations: map<string, Observation>, bound: int)
    requires ObservationsWithin(observations, bound)
    ensures 0 <= SumOfScores(observations) <= |observations| * bound
    decreases |observations|
  {
    if observations != map[] {
      var source, rest := TakeOne(observations);
      SumWithin(rest, bound);
      OneMoreTimes(|rest|, bound);
    }
  }

  /** An effective score lies in 0..100 and below whatever bounds the scores it is computed from. */
  lemma EffectiveWithin(e: Entry, bound: int, now: int)
    requires EntryWithin(e, bound)
    ensures MIN_SCORE <= EffectiveScore(e, now) <= MAX_SCORE && EffectiveScore(e, now) <= bound
  {
    var current := Fresh(e, now);
    SumWithin(current, bound);
    if current != map[] {
      assert |current| > 0;
      ProductOfDifference(|current|, 0, bound);
      QuotientIsBetween(SumOfScores(current), |current|, 0, bound);
    }
  }

  lemma WeightedThird(local: int, mean: int)
    requires 0 <= local <= 100 && 0 <= mean <= 100
    ensures var score := ClampScore(Truncated(local * 2 + mean, 3));
      3 * score <= 2 * local + mean < 3 * score + 3
  {
  }

  lemma MeanOf(observations: map<string, Observation>) returns (mean: int)
    requires ObservationsWithin(observations, 100)
    ensures 0 <= mean <= 100
    ensures observations == map[] ==> mean == 0
    ensures observations != map[] ==>
      && mean == Truncated(SumOfScores(observations), |observations|)
      && |observations| * mean <= SumOfScores(observations) < |observations| * mean + |observations|
  {
    mean := 0;
    if observations != map[] {
      assert |observations| > 0;
      SumWithin(observations, 100);
      mean := Truncated(SumOfScores(observations), |observations|);
      QuotientBounds(SumOfScores(observations), |observations|);
      QuotientIsBetween(SumOfScores(observations), |observations|, 0, 100);
    }
  }

  /** How the score is weighted: twice the local score and once the mean of the opinions of the last five
      minutes (0 without any), divided by three, rounded down. */
  lemma OpinionsWeighOneThird(e: Entry, recent: map<string, Observation>, now: int) returns (mean: int)
    requires EntryWithin(e, 100)
    requires forall source :: source in recent <==>
      source in e.observations && now - e.observations[source].observedAt < 300_000
    requires forall source :: source in recent ==> recent[source] == e.observations[source]
    ensures if recent == map[] then mean == 0 else |recent| * mean <= SumOfScores(recent) < |recent| * mean + |recent|
    ensures 3 * EffectiveScore(e, now) <= 2 * e.health.localScore + mean < 3 * EffectiveScore(e, now) + 3
  {
    assert Fresh(e, now) == recent;
    mean := MeanOf(recent);
    WeightedThird(e.health.localScore, mean);
  }

  lemma SendKeepsScores(n: Network, e: Event, url: Url, bound: int)
    requires ScoresWithin(n, url, bound) && Enabled(n, e) && e.Send?
    ensures ScoresWithin(Apply(n, e), url, bound)
  {
    forall o | o in e.snapshot.offers && o.url == url
      ensures MIN_SCORE <= o.score <= bound
    {
      assert IsOffer(n.nodes[e.node], o, e.now);
      EffectiveWithin(n.nodes[e.node][url], bound, e.now);
    }
  }

  lemma DeliverKeepsScores(n: Network, e: Event, url: Url, bound: int)
    requires ScoresWithin(n, url, bound) && Enabled(n, e) && e.Deliver?
    requires LocalScoresWithin(Apply(n, e), url, bound)
    ensures ScoresWithin(Apply(n, e), url, bound)
  {
    var before, after := n.nodes[e.node], Apply(n, e).nodes[e.node];
    var source, offers := e.snapshot.Source(), e.snapshot.offers;
    forall u | u in after ensures after[u].provider.url == u {
      MergeKeepsLocalKnowledge(before, source, offers, u);
    }
    if url in after {
      MergeKeepsLocalKnowledge(before, source, offers, url);
      forall from | from in after[url].observations
        ensures MIN_SCORE <= after[url].observations[from].score <= bound
      {
        MergeAddsOnlyOffers(before, source, offers, url, from);
      }
      assert EntryWithin(after[url], bound);
    }
  }

  lemma StepKeepsScores(n: Network, e: Event, url: Url, bound: int)
    requires ScoresWithin(n, url, bound) && Enabled(n, e)
    requires LocalScoresWithin(Apply(n, e), url, bound)
    ensures ScoresWithin(Apply(n, e), url, bound)
  {
    match e
    case Local(node, u, after) =>
      assert Apply(n, e).nodes[node][u] == after;
    case Send(_, _, _) => SendKeepsScores(n, e, url, bound);
    case Deliver(_, _) => DeliverKeepsScores(n, e, url, bound);
  }

  lemma {:induction false} RunKeepsScores(states: seq<Network>, events: seq<Event>, url: Url, bound: int, k: nat)
    requires IsRun(states, events) && k < |states|
    requires forall j :: 0 <= j <= k ==> LocalScoresWithin(states[j], url, bound)
    ensures ScoresWithin(states[k], url, bound)
    decreases k
  {
    if k > 0 {
      RunKeepsScores(states, events, url, bound, k - 1);
      assert Enabled(states[k - 1], events[k - 1]);
      StepKeepsScores(states[k - 1], events[k - 1], url, bound);
    }
  }

  lemma StepKeepsLocalScores(n: Network, e: Event, url: Url)
    requires LocalScoresWithin(n, url, MAX_SCORE) && Enabled(n, e)
    ensures LocalScoresWithin(Apply(n, e), url, MAX_SCORE)
  {
    if e.Deliver? && url in Apply(n, e).nodes[e.node] {
      MergeKeepsLocalKnowledge(n.nodes[e.node], e.snapshot.Source(), e.snapshot.offers, url);
    }
  }

  lemma {:induction false} RunKeepsLocalScores(states: seq<Network>, events: seq<Event>, url: Url, k: nat)
    requires IsRun(states, events) && k < |states|
    ensures LocalScoresWithin(states[k], url, MAX_SCORE)
    decreases k
  {
    if k > 0 {
      RunKeepsLocalScores(states, events, url, k - 1);
      assert Enabled(states[k - 1], events[k - 1]);
      StepKeepsLocalScores(states[k - 1], events[k - 1], url);
    }
  }

  /** Gossip cannot inflate: whatever bounds the scores that nodes themselves have held for a URL so far
      in a run also bounds every remote observation and every effective score for it, and these stay
      in 0..100. */
  lemma GossipCannotInflate(states: seq<Network>, events: seq<Event>, url: Url, bound: int, k: nat, node: NodeId, now: int)
    requires IsRun(states, events) && k < |states|
    requires forall j :: 0 <= j <= k ==> LocalScoresWithin(states[j], url, bound)
    requires node in states[k].nodes && url in states[k].nodes[node]
    ensures var e := states[k].nodes[node][url];
      && (forall source :: source in e.observations ==>
            MIN_SCORE <= e.observations[source].score <= MAX_SCORE && e.observations[source].score <= bound)
      && MIN_SCORE <= EffectiveScore(e, now) <= MAX_SCORE && EffectiveScore(e, now) <= bound
  {
    RunKeepsScores(states, events, url, bound, k);
    forall j | 0 <= j <= k ensures LocalScoresWithin(states[j], url, MAX_SCORE) {
      RunKeepsLocalScores(states, events, url, j);
    }
    RunKeepsScores(states, events, url, MAX_SCORE, k);
    EffectiveWithin(states[k].nodes[node][url], bound, now);
  }

  // ---- Only good news travels ------------------------------------------------------------------

  ghost predicate AllHealthy(observations: map<string, Observation>) {
    forall source :: source in observations ==> observations[source].healthy
  }

  ghost predicate OnlyGoodNews(n: Network) {
    && (forall node, url :: node in n.nodes && url in n.nodes[node] ==> AllHealthy(n.nodes[node][url].observations))
    && (forall snapshot, o :: snapshot in n.sent && o in snapshot.offers ==> o.healthy)
  }

  lemma StepKeepsGoodNews(n: Network, e: Event)
    requires OnlyGoodNews(n) && Enabled(n, e)
    ensures OnlyGoodNews(Apply(n, e))
  {
    match e
    case Local(node, url, after) => assert AllHealthy(n.nodes[node][url].observations);
    case Send(node, snapshot, now) =>
      forall o | o in snapshot.offers ensures o.healthy {
        assert IsOffer(n.nodes[node], o, now);
      }
    case Deliver(node, snapshot) =>
      var after := Apply(n, e).nodes[node];
      forall url, from | url in after && from in after[url].observations
        ensures after[url].observations[from].healthy
      {
        MergeAddsOnlyOffers(n.nodes[node], snapshot.Source(), snapshot.offers, url, from);
        if url in n.nodes[node] {
          assert AllHealthy(n.nodes[node][url].observations);
        }
      }
      forall url | url in after ensures AllHealthy(after[url].observations) {
      }
  }

  lemma {:induction false} RunKeepsGoodNews(states: seq<Network>, events: seq<Event>, k: nat)
    requires IsRun(states, events) && k < |states|
    ensures OnlyGoodNews(states[k])
    decreases k
  {
    if k > 0 {
      RunKeepsGoodNews(states, events, k - 1);
      assert Enabled(states[k - 1], events[k - 1]);
      StepKeepsGoodNews(states[k - 1], events[k - 1]);
    }
  }

  /** Since snapshots carry healthy providers only, every observation ever received says "healthy". In a
      run, a provider that is not tripped is therefore reported healthy if and only if some observation is
      of the last five minutes, or the node's own failures and the effective score are acceptable. */
  lemma FreshNewsOverridesFailures(states: seq<Network>, events: seq<Event>, k: nat, node: NodeId, url: Url, now: int)
    requires IsRun(states, events) && k < |states|
    requires node in states[k].nodes && url in states[k].nodes[node]
    ensures var e := states[k].nodes[node][url];
      Healthy(e, now) <==>
        !e.health.Tripped(now) &&
        ((exists source :: source in e.observations && now - e.observations[source].observedAt < 300_000)
         || (e.health.consecutiveFailures < 3 && EffectiveScore(e, now) >= 25))
  {
    RunKeepsGoodNews(states, events, k);
    var e := states[k].nodes[node][url];
    assert AllHealthy(e.observations);
    if source :| source in e.observations && now - e.observations[source].observedAt < 300_000 {
      assert source in Fresh(e, now) && Fresh(e, now)[source].healthy;
    }
  }

  // ---- Where advertised URLs come from ---------------------------------------------------------

  /** Some node was configured with this URL as one it may advertise. */
  ghost predicate AdvertisedSeed(start: Network, url: Url) {
    exists node :: node in start.nodes && url in start.nodes[node] && MayBeAdvertised(start.nodes[node][url].provider)
  }

  /** A configured provider is as configured; any other one is advertised somewhere and has no credentials. */
  ghost predicate EntryFromSeed(start: Network, node: NodeId, url: Url, provider: RpcProvider) {
    && provider.url == url
    && if node in start.nodes && url in start.nodes[node] then provider == start.nodes[node][url].provider
       else AdvertisedSeed(start, url) && provider.authHeader.None? && provider.authValue.None?
  }

  ghost predicate FromSeeds(start: Network, n: Network) {
    && n.nodes.Keys == start.nodes.Keys
    && (forall node, url :: node in n.nodes && url in n.nodes[node] ==>
          EntryFromSeed(start, node, url, n.nodes[node][url].provider))
    && (forall node, url :: node in start.nodes && url in start.nodes[node] ==> url in n.nodes[node])
    && (forall snapshot, o :: snapshot in n.sent && o in snapshot.offers ==> AdvertisedSeed(start, o.url))
  }

  lemma OffersComeFromSeeds(start: Network, n: Network, node: NodeId, o: Offer, now: int)
    requires FromSeeds(start, n) && node in n.nodes && IsOffer(n.nodes[node], o, now)
    ensures AdvertisedSeed(start, o.url)
  {
    var url :| url in n.nodes[node] && n.nodes[node][url].provider.ShouldAdvertise() && o.url == n.nodes[node][url].provider.url;
    assert EntryFromSeed(start, node, url, n.nodes[node][url].provider);
  }

  lemma DeliverKeepsProvenance(start: Network, n: Network, e: Event)
    requires FromSeeds(start, n) && Enabled(n, e) && e.Deliver?
    ensures FromSeeds(start, Apply(n, e))
  {
    var before, after := n.nodes[e.node], Apply(n, e).nodes[e.node];
    forall url | url in before || url in after
      ensures url in after && EntryFromSeed(start, e.node, url, after[url].provider)
    {
      MergeKeepsLocalKnowledge(before, e.snapshot.Source(), e.snapshot.offers, url);
    }
  }

  lemma StepKeepsProvenance(start: Network, n: Network, e: Event)
    requires FromSeeds(start, n) && Enabled(n, e)
    ensures FromSeeds(start, Apply(n, e))
  {
    match e
    case Local(node, url, after) =>
      assert EntryFromSeed(start, node, url, n.nodes[node][url].provider);
    case Send(node, snapshot, now) =>
      forall o | o in snapshot.offers ensures AdvertisedSeed(start, o.url) {
        OffersComeFromSeeds(start, n, node, o, now);
      }
    case Deliver(_, _) => DeliverKeepsProvenance(start, n, e);
  }

  lemma {:induction false} RunKeepsProvenance(states: seq<Network>, events: seq<Event>, k: nat)
    requires IsRun(states, events) && k < |states|
    ensures FromSeeds(states[0], states[k])
    decreases k
  {
    if k > 0 {
      RunKeepsProvenance(states, events, k - 1);
      assert Enabled(states[k - 1], events[k - 1]);
      StepKeepsProvenance(states[0], states[k - 1], events[k - 1]);
    }
  }

  /** In every run a node keeps each provider it was configured with exactly as configured, and any other
      one in its table was configured somewhere as one to advertise, and comes without credentials. */
  lemma ProvidersComeFromSeeds(states: seq<Network>, events: seq<Event>, k: nat, node: NodeId, url: Url)
    requires IsRun(states, events) && k < |states|
    ensures node in states[k].nodes <==> node in states[0].nodes
    ensures node in states[0].nodes && url in states[0].nodes[node] ==>
      url in states[k].nodes[node] && states[k].nodes[node][url].provider == states[0].nodes[node][url].provider
    ensures node in states[k].nodes && url in states[k].nodes[node] && url !in states[0].nodes[node] ==>
      && AdvertisedSeed(states[0], url)
      && states[k].nodes[node][url].provider.authHeader.None?
      && states[k].nodes[node][url].provider.authValue.None?
  {
    RunKeepsProvenance(states, events, k);
    assert states[k].nodes.Keys == states[0].nodes.Keys;
    if node in states[k].nodes && url in states[k].nodes[node] {
      assert EntryFromSeed(states[0], node, url, states[k].nodes[node][url].provider);
    }
  }

  /** A URL that every node configured with it has marked as not to be advertised, or has left unmarked
      and with a credential value, never appears in a snapshot, nor in the table of a node that was not
      configured with it. */
  lemma PrivateProvidersStayPrivate(states: seq<Network>, events: seq<Event>, url: Url, k: nat)
    requires IsRun(states, events) && k < |states|
    requires forall node :: node in states[0].nodes && url in states[0].nodes[node] ==>
      var p := states[0].nodes[node][url].provider;
      p.advertise == Some(false) || (p.advertise == None && p.authValue != None)
    ensures forall snapshot, o :: snapshot in states[k].sent && o in snapshot.offers ==> o.url != url
    ensures forall node :: node in states[k].nodes && url in states[k].nodes[node] ==>
      && node in states[0].nodes && url in states[0].nodes[node]
      && states[k].nodes[node][url].provider == states[0].nodes[node][url].provider
  {
    RunKeepsProvenance(states, events, k);
    assert !AdvertisedSeed(states[0], url);
    forall node | node in states[k].nodes && url in states[k].nodes[node]
      ensures node in states[0].nodes && url in states[0].nodes[node]
      ensures states[k].nodes[node][url].provider == states[0].nodes[node][url].provider
    {
      ProvidersComeFromSeeds(states, events, k, node, url);
    }
  }

  /** The others do spread: a healthy provider that is marked for advertising, or left unmarked and without
      a credential value, can be sent, and whoever receives the snapshot has it in its table. */
  lemma AdvertisedProvidersSpread(n: Network, node: NodeId, url: Url, receiver: NodeId, now: int)
    returns (send: Event, deliver: Event)
    requires node in n.nodes && receiver in n.nodes && url in n.nodes[node]
    requires var p := n.nodes[node][url].provider;
      p.url == url && (p.advertise == Some(true) || (p.advertise == None && p.authValue == None))
    requires Healthy(n.nodes[node][url], now)
    ensures send.Send? && send.node == node && Enabled(n, send)
    ensures deliver.Deliver? && deliver.node == receiver && Enabled(Apply(n, send), deliver)
    ensures var after := Apply(Apply(n, send), deliver).nodes[receiver];
      && url in after && node in after[url].observations
      && after[url].observations[node] == Observation(EffectiveScore(n.nodes[node][url], now), true, now)
  {
    var e := n.nodes[node][url];
    var o := Offer(e.provider.name, url, EffectiveScore(e, now), true, now);
    assert IsOffer(n.nodes[node], o, now);
    var snapshot := Snapshot(node, None, [o]);
    send, deliver := Send(node, snapshot, now), Deliver(receiver, snapshot);
    assert snapshot in Apply(n, send).sent;
    MergeRecordsTheOffers(n.nodes[receiver], snapshot, 0);
  }
}
