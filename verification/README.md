# Verified models of the Sky Moon Scope core

Dafny models of seven parts of `core/src`, with proofs of what these parts promise. Each module follows
one source file or one component of it.

| folder | modules | part of the system |
|---|---|---|
| `merkle/` | `Hashing`, `MerkleLevels`, `MerkleProofs`, `MerkleBinding`, `MerkleTrees` | the Merkle tree: levels, inclusion proofs, what a root commits to, the mutable tree |
| `lease/` | `LeaderLease` | the Redis leader lease, as interleaved steps of many instances |
| `providers/` | `RttAverage`, `CircuitBreaker`, `Gossip` | the provider registry: moving average, circuit breaker, gossip between nodes |
| `trace/` | `CallTrace`, `MermaidPrinter` | the call-trace parser and the diagram printer |
| `fees/` | `WriteRetry`, `FeeCollection`, `FeeAnalytics` | fee-record writes, dead letters and alarms, ledger catch-up, percentiles and bids |
| `throttle/` | `TokenBucket` | the lock-free token bucket, as interleaved steps of many threads |

`Arithmetic` and `Options` hold shared facts and the option type. `dafny verify dfyconfig.toml` checks everything.

## How the parts are modelled

- Objects whose methods change their fields are classes: the Merkle tree, the provider state, the
  statistics, the registry, the fee collector and the diagram printer. Their methods are proved against
  functions of the inputs or of a history, and the theorems are about these functions.
- The leader lease, the token bucket and the gossip network are state machines on values, because their
  promises are about interleavings of several instances.
- SHA-256 (section 6.2 of FIPS 180-4) is a parameter: a `Hasher` holds any two functions. Collision
  freedom is a hypothesis (`NoCollision`) on the finitely many pairs that the trees and proofs at hand
  actually hash. A digest is a 256-bit number, whose order is the byte arrays' own order.
- Clocks and the order of hash maps are parameters. The fee collector's outside world (latest ledger, database, fetches, write
  attempts) is a parameter; the store is a map with upsert, and every list of answers ends in one that
  repeats, which covers the finitely many attempts that are made. Redis is one key with an expiry and atomic
  scripts. Trace events arrive already decoded. Percentiles are computed over exact reals.

## Where the code and its documentation differ

- `retry_with_backoff` is documented as capping every delay at `max_backoff`; the first delay is never
  capped. `DelaysAreCapped` gives the exact condition under which the promise holds.
- `try_acquire_or_renew` is documented as answering `true` if the instance holds the lease after the
  call and `false` if another instance does, or Redis is unreachable. `AnswerVersusLease` says, for every
  run, when the answer is right: a `true` if and only if the grant it rests on has not run out before the
  call returns (`AnswerOutlivesGrant` is a run without any loss in which it has, and another instance
  holds the lease); a `false` if and only if it leaves no live grant of the caller behind. It leaves one
  behind when a lost renewal reply makes the SET NX meet the caller's own token
  (`LostReplyDeniesTheOwner`), when the reply of a winning SET NX is lost (`LostClaimReplyHidesTheLease`),
  and when the SET NX does not run or the connection fails under a live lease
  (`FailedConnectionDeniesTheOwner`). With reliable commands and a connection only the outlived grant
  remains (`ReliableAnswerVersusLease`).
- The comment in the trace parser speaks of exactly one unfinished call; the code uses the outermost open
  call whenever no outermost call has returned.
- The append and update methods of the Merkle tree are documented as avoiding a rebuild; every call that
  changes a leaf hash rebuilds all levels.
- The catch-up is meant to fetch the ledgers missed meanwhile. One that stops early, followed by a
  successful fetch of the latest ledger, leaves a gap that no later cycle fills (`CatchUpLeavesAGap`).
  `NothingIsLeftOutExactly` gives the exact condition: every ledger passed is written if and only if each
  cycle finds nothing new, or cannot collect the latest ledger, or can collect all ledgers in between.
- A negative ledger number in the fee database is cast to a huge cursor, after which nothing is ever
  collected (`NegativeStartStopsCollection`).
- `RedisLeaderLock::release` mentions a field that does not exist (`core/src/leader_lock.rs:127`); only
  the declared fields are modelled.

## Model

| member | source | states |
|---|---|---|
| MerkleLevels.PairUp | core/src/merkle_tree.rs:594-605 | the inner loop pairs neighbours and an odd last node with itself |
| MerkleLevels.BuildLevels | core/src/merkle_tree.rs:584-611 | on every non-empty input the loop terminates with a tower: each level follows from the one below, and the first with one digest is the last |
| MerkleLevels.TowerIsUnique | core/src/merkle_tree.rs:584-611 | there is only one tower over given leaf hashes |
| MerkleLevels.TowerHeight | core/src/merkle_tree.rs:584-611 | a tree over n leaves has Height(n) + 1 levels and ends with the root |
| MerkleLevels.HeightIsCeilLog2 | core/src/merkle_tree.rs:584-611 | Height(n) is the least k with n <= 2^k |
| MerkleLevels.LevelSize | core/src/merkle_tree.rs:594-605 | level k has ceil(n / 2^k) nodes |
| MerkleLevels.RootIsDigestOfTree | core/src/merkle_tree.rs:584-611 | the bottom-up loop computes the digest of the recursively defined, top-down tree |
| MerkleProofs.VerifyProof | core/src/merkle_tree.rs:313-329 | the loop accepts exactly the proofs whose path climbs to the given root, from the leaf hash, or from the hashed payload when the leaf hash is all zeros |
| MerkleProofs.Verify | core/src/merkle_tree.rs:36-52 | the same against the proof's own root |
| MerkleProofs.CollectPath | core/src/merkle_tree.rs:277-301 | the loop of proof generation yields, per level, the sibling and the order flag of the leaf's ancestor |
| MerkleProofs.EveryLeafIsProvable | core/src/merkle_tree.rs:268-329 | completeness: every leaf's path leads to the root in ceil(log2 n) steps |
| MerkleBinding.AcceptedProofStartsAtItsLevel | core/src/merkle_tree.rs:313-329 | soundness for every length up to the tree's height, which the verifier does not check: with an accepted proof of m steps, any siblings and flags, its leaf hash (or hashed payload) is a digest stored m levels below the root |
| MerkleBinding.EveryNodeIsProvable | core/src/merkle_tree.rs:268-329 | conversely, every digest of every level has an accepted proof of just that length |
| MerkleBinding.AcceptedProofIsMembership | core/src/merkle_tree.rs:313-329 | with an accepted proof of the tree's height its leaf hash, or the hashed payload when that is all zeros, is one of the tree's leaf hashes |
| MerkleBinding.AcceptedProofOfAnyLength | core/src/merkle_tree.rs:313-329 | where leaf hashes and pair hashes differ, an accepted proof of any length starts at a leaf hash and has the tree's height |
| MerkleBinding.ClimbIsInjective | core/src/merkle_tree.rs:320-328 | different starts never lead to the same digest over the same path |
| MerkleBinding.TamperedLeafHashIsRejected | core/src/merkle_tree.rs:313-329 | an accepted proof is rejected once its non-zero leaf hash is replaced by another one |
| MerkleBinding.ZeroedLeafHashChecksThePayload | core/src/merkle_tree.rs:313-329 | with the leaf hash replaced by zeros it is still accepted if and only if its payload hashes to that leaf hash |
| MerkleBinding.OnlyTheLeafHashCounts | core/src/merkle_tree.rs:313-329 | while the leaf hash is not zero, payload, index and the proof's own root have no influence |
| MerkleBinding.TamperedSiblingIsRejected | core/src/merkle_tree.rs:320-328 | changing one sibling hash of an accepted proof makes it rejected |
| MerkleBinding.EqualDigestsMakeMirroredTrees | core/src/merkle_tree.rs:563-574 | trees of equal height and digest differ only by exchanged siblings |
| MerkleBinding.RootBinding | core/src/merkle_tree.rs:563-611 | roots of equally high trees are equal if and only if the trees are equal up to exchanged siblings; then their leaf-hash sets agree |
| MerkleBinding.RootBindsTheLeafBag | core/src/merkle_tree.rs:563-611 | with 2^d leaves on both sides equal roots mean equal multisets of leaf hashes |
| MerkleBinding.SwappedBlocksKeepTheRoot | core/src/merkle_tree.rs:563-574 | exchanging two aligned full sibling blocks keeps the root |
| MerkleTrees.MerkleTree.constructor | core/src/merkle_tree.rs:74-83 | a new tree is empty and valid |
| MerkleTrees.MerkleTree.Build | core/src/merkle_tree.rs:86-113 | error cases, resulting leaves, and a state that is a function of the leaves |
| MerkleTrees.MerkleTree.AppendLeaves | core/src/merkle_tree.rs:124-159 | error cases, resulting leaves, and again the state a fresh build would store |
| MerkleTrees.MerkleTree.UpdateLeaf | core/src/merkle_tree.rs:173-203 | the same for one update, including the unchanged-hash shortcut |
| MerkleTrees.MerkleTree.UpdateLeaves | core/src/merkle_tree.rs:215-265 | the same for a list of updates, including repeated indices and the shortcut |
| MerkleTrees.MerkleTree.GenerateProof | core/src/merkle_tree.rs:268-310 | error cases; otherwise an accepted proof of the right leaf, even when its hash is all zeros, with ceil(log2 n) <= levels steps |
| MerkleTrees.SameLeavesSameTree | core/src/merkle_tree.rs:86-265 | two trees with equal configuration and leaves agree in every field: incremental changes refine a rebuild |
| MerkleTrees.BuildSucceedsExactly | core/src/merkle_tree.rs:86-113 | a build succeeds if and only if there are leaves and their tree is no higher than the configured levels |
| MerkleTrees.AppendIsBuildOfAll | core/src/merkle_tree.rs:124-159 | appending to a built tree has the outcome and the leaves of building from all leaves |
| MerkleTrees.BatchIsAllOrNothing | core/src/merkle_tree.rs:215-265 | a list of updates succeeds if and only if each would alone; then it equals single updates in turn, otherwise nothing changes |
| MerkleTrees.NothingBeforeTheFirstBuild | core/src/merkle_tree.rs:124-265 | any run of appends and updates without a build leaves the tree empty |
| MerkleTrees.LastUpdateWins | core/src/merkle_tree.rs:249-253 | of several updates of one leaf the last wins |
| MerkleTrees.OtherLeavesStay | core/src/merkle_tree.rs:249-253 | leaves without an update stay |
| MerkleTrees.RunAndRebuild | core/src/merkle_tree.rs:86-265 | any run of calls on a new tree, failing ones included, ends with the same nodes, root, leaf hashes and leaf count as one build of the resulting leaves |
| LeaderLease.StepKeepsGrants | core/src/leader_lock.rs:18-32 | every step of the protocol keeps past grants disjoint and open grants covered by the key |
| LeaderLease.LeaseIsExclusive | core/src/leader_lock.rs:60-140 | in every run, with any interleaving and any lost replies, a lease of one instance starts only when another's has lasted its owner's whole time-to-live or was released by its owner, and each `true` rests on a grant made during that call |
| LeaderLease.GrantsLastTheirTime | core/src/leader_lock.rs:18-32 | in every run a grant lasts exactly its owner's time-to-live, or to its owner's first release after it |
| LeaderLease.TrueMeansAWholeLease | core/src/leader_lock.rs:85-111 | when a call is about to answer `true` the key expires exactly one time-to-live after that step |
| LeaderLease.DeadlineDecidesTheRenewal | core/src/leader_lock.rs:60-120 | in every run a local deadline lies one time-to-live after the newest `true` answer; a call renews unless it begins at or after that deadline, which it then forgets |
| LeaderLease.ReleaseFreesTheKey | core/src/leader_lock.rs:126-140 | a release of the holder that reaches Redis lets the next SET NX win and forgets the deadline |
| LeaderLease.ReleaseNeedsAConnection | core/src/leader_lock.rs:126-140 | a release without a connection changes nothing, not even the deadline |
| LeaderLease.LeasesOfOthersAreSafe | core/src/leader_lock.rs:18-32 | no instance deletes, extends or takes over another's live lease |
| LeaderLease.ReliableStepKeepsExactness | core/src/leader_lock.rs:60-140 | without lost commands, an owner's local deadline is never earlier than its Redis expiry |
| LeaderLease.ClaimIsExact | core/src/leader_lock.rs:99-111 | at its SET NX a call becomes leader if and only if the key holds no unexpired token of another instance |
| LeaderLease.RefusalsAreJustified | core/src/leader_lock.rs:60-120 | in runs without lost commands renewal is never skipped on a live lease, and `false` means another's unexpired token was met at SET NX, or no connection |
| LeaderLease.AnswerVersusLease | core/src/leader_lock.rs:56-120 | in every run a returning caller holds the lease if and only if its own grant is still open, and its answer says so if and only if the stated condition on the grant holds |
| LeaderLease.ReliableAnswerVersusLease | core/src/leader_lock.rs:56-120 | with reliable commands and a connection the answer is wrong if and only if it is a `true` whose grant has run out |
| LeaderLease.AnswerOutlivesGrant | core/src/leader_lock.rs:60-120 | a concrete run without losses in which one instance answers `true` while another holds the lease |
| LeaderLease.LostReplyDeniesTheOwner | core/src/leader_lock.rs:85-111 | a lost renewal reply makes the holder answer `false` while holding |
| LeaderLease.OwnerRenewsAlone | core/src/leader_lock.rs:60-120 | a concrete run that reaches that situation |
| LeaderLease.LostClaimReplyHidesTheLease | core/src/leader_lock.rs:99-120 | a lost SET NX reply makes the winner answer `false` while holding |
| LeaderLease.FailedConnectionDeniesTheOwner | core/src/leader_lock.rs:70-84 | a failed connection makes an owner answer `false` while holding |
| RttAverage.ProviderStats.constructor | core/src/rpc_provider.rs:39-45 | a window of 0 counts as 1 |
| RttAverage.ProviderStats.Record | core/src/rpc_provider.rs:47-60 | the stored value is the exact integer average of all samples; the call fails if and only if the window is the greatest 64-bit number and there is an average already |
| RttAverage.MachineStep | core/src/rpc_provider.rs:54-59 | the 128-bit arithmetic and the cast lose nothing; only window + 1 can overflow |
| RttAverage.AverageIsInRange | core/src/rpc_provider.rs:47-60 | the average stays between the least and the greatest sample |
| RttAverage.RoundingStaysSmall | core/src/rpc_provider.rs:54-59 | over all samples the integer average is never above the unrounded one with weight 2/(window + 1), and less than (window + 1)/2 below it |
| RttAverage.SettledMeansFixed | core/src/rpc_provider.rs:54-58 | a repeated sample r leaves exactly the values in [r - floor(window/2), r] unchanged |
| RttAverage.RepeatedSampleConverges | core/src/rpc_provider.rs:47-60 | repeating r leads, within as many steps as the initial distance, to exactly r from above, to exactly r - floor(window/2) from below, and nowhere from inside that range |
| CircuitBreaker.ProviderState.ReportSuccess | core/src/rpc_provider.rs:404-423 | score, failures and trip as the history of reports dictates |
| CircuitBreaker.ProviderState.ReportFailure | core/src/rpc_provider.rs:425-455 | the same for a failed request |
| CircuitBreaker.ProviderState.ProbeSucceeded | core/src/rpc_provider.rs:638-655 | the same for a successful health check |
| CircuitBreaker.ProviderState.ProbeFailed | core/src/rpc_provider.rs:656-685 | the same for a failed health check |
| CircuitBreaker.ProviderState.IsProviderTripped | core/src/rpc_provider.rs:948-958 | tripped exactly with three failures in a row and the cooldown not over; asking forgets an old trip without changing later answers |
| CircuitBreaker.ProviderState.IsAvailable | core/src/rpc_provider.rs:859-866 | offered if and only if fewer than three failures in a row, or score >= 25 and a full cooldown since the last failure |
| CircuitBreaker.LockedOutUntilSuccess | core/src/rpc_provider.rs:859-866 | three failures in a row with a score below 25 exclude a provider until some success, whatever fails or elapses meanwhile |
| CircuitBreaker.ThreeFailedRequests | core/src/rpc_provider.rs:425-455 | three failed requests exclude a provider until five minutes have passed, and for good if and only if its score was below the maximum |
| CircuitBreaker.ThreeFailedProbes | core/src/rpc_provider.rs:656-685 | three failed probes leave it available after five minutes, and not before, if and only if its score was at least 70 |
| CircuitBreaker.TwoFailuresAreTolerated | core/src/rpc_provider.rs:859-866 | after a success up to two failures of either kind leave a provider available, whatever its score |
| CircuitBreaker.ScoreAfterReportsOfOneKind | core/src/rpc_provider.rs:404-455 | n reports of one kind in a row change the score by 12 (from at least 55), -25, 6 or -15 each, within 0 and 100 |
| Gossip.ProviderRegistry.GetOrInsertProvider | core/src/rpc_provider.rs:777-795 | an existing provider is returned unchanged, a new one inserted |
| Gossip.BuildReport | core/src/rpc_provider.rs:535-578 | the loops over the fresh observations, in any order, compute effective score and health |
| Gossip.ProviderRegistry.RegistrySnapshot | core/src/rpc_provider.rs:868-903 | for any order of the hash map: at most 64 offers of this registry, no URL twice, and all of them when fewer than 64 |
| Gossip.OffersAreExactly | core/src/rpc_provider.rs:98-102 | offered are exactly the healthy providers marked for advertising, or unmarked and without a credential value, with name, URL and effective score |
| Gossip.ProviderRegistry.MergeSnapshot | core/src/rpc_provider.rs:905-946 | the loop merges every offer in order |
| Gossip.MergeKeepsLocalKnowledge | core/src/rpc_provider.rs:905-946 | merging never alters credentials, score, failures or trip of a known provider, and adds only offered ones, without credentials |
| Gossip.MergeAddsOnlyOffers | core/src/rpc_provider.rs:935-944 | every stored observation is an old one or comes from an offer for that URL |
| Gossip.MergeRecordsTheOffers | core/src/rpc_provider.rs:920-944 | for each URL the last offer is stored as the sender's observation, under its base URL or else its instance id |
| Gossip.MergeKeepsOtherOpinions | core/src/rpc_provider.rs:935-944 | the observations of other senders stay as they are |
| Gossip.EffectiveWithin | core/src/rpc_provider.rs:541-575 | an effective score is in 0..100 and below whatever bounds the local score and the observations |
| Gossip.OpinionsWeighOneThird | core/src/rpc_provider.rs:554-575 | an effective score is two parts local score and one part mean of the observations of the last five minutes, rounded down |
| Gossip.GossipCannotInflate | core/src/rpc_provider.rs:868-946 | in every run with delayed, reordered or duplicated snapshots, observations and effective scores for a URL stay in 0..100 and below the highest local score ever held for it |
| Gossip.FreshNewsOverridesFailures | core/src/rpc_provider.rs:561-578 | in every run all observations say "healthy", so a provider that is not tripped is reported healthy if and only if some observation is of the last five minutes, or it has fewer than 3 failures and an effective score of at least 25 |
| Gossip.PrivateProvidersStayPrivate | core/src/rpc_provider.rs:868-946 | a URL that every node configured with it has marked private, or left unmarked with a credential value, never appears in a snapshot, nor in the table of a node that was not configured with it |
| Gossip.ProvidersComeFromSeeds | core/src/rpc_provider.rs:777-946 | in every run configured providers, credentials included, never change, and any other provider was configured somewhere as one to advertise and has no credentials |
| Gossip.AdvertisedProvidersSpread | core/src/rpc_provider.rs:868-946 | conversely, a healthy provider marked for advertising, or unmarked and without a credential value, can be sent, and every receiver has it in its table |
| CallTrace.ParseCallTrace | core/src/call_trace_parser.rs:77-183 | the loop computes the stack machine's result |
| CallTrace.ParseInvertsFlatten | core/src/call_trace_parser.rs:77-183 | a trace of complete calls, with ignorable events anywhere, parses to the last of them |
| CallTrace.HostTraceParses | core/src/call_trace_parser.rs:7-17 | the entry and exit events the host emits for a call tree, three topics each, parse to that tree |
| CallTrace.EventsThatSayNothing | core/src/call_trace_parser.rs:81-122 | events that are undecodable, of an unsuccessful call, without topics, of another kind, or calls with fewer than three topics may be added or removed anywhere; every other event counts |
| CallTrace.CallsAreNamedByTheirEntry | core/src/call_trace_parser.rs:102-135 | a call is named by its entry event alone: the contract or "Host", the third topic or "unknown" |
| CallTrace.UnfinishedTraceParses | core/src/call_trace_parser.rs:167-182 | a trace that breaks off parses to the last complete outermost call, or else to the outermost open one with its finished sub-calls |
| CallTrace.NothingIsLost | core/src/call_trace_parser.rs:119-165 | for every trace the finished and the open calls spell the trace again, except for returns that match no call |
| CallTrace.EveryCallIsOneNode | core/src/call_trace_parser.rs:119-180 | each accepted call is one node, in call order, of exactly one of: a superseded root, the last root, an open call |
| CallTrace.DepthAndCountOfATrace | core/src/call_trace_parser.rs:203-213 | on the trace of one tree the maximal depth is the peak stack height and the total the number of calls |
| MermaidPrinter.Printer.AppendNodes | core/src/call_trace_parser.rs:189-201 | lines and counter of the recursive walk |
| MermaidPrinter.ToMermaid | core/src/call_trace_parser.rs:48-52 | the walk starts at id 0 |
| MermaidPrinter.NumberingIsPreorder | core/src/call_trace_parser.rs:189-201 | ids are 0..total-1 in preorder; the total-1 arrows lead to 1..total-1, each from a smaller id |
| MermaidPrinter.DrawingDeterminesTree | core/src/call_trace_parser.rs:189-201 | two diagrams have the same nodes and arrows, in any order, if and only if the ordered trees are equal |
| WriteRetry.RetryWithBackoff | core/src/fee_collector.rs:141-176 | at least one and at most the permitted attempts, up to the first success; attempt count, last error and sleeps |
| WriteRetry.NextDelay | core/src/fee_collector.rs:111-115 | the saturating, capped iteration equals the closed form min(initial * m^k, cap) |
| WriteRetry.DelaysGrowByTheMultiplier | core/src/fee_collector.rs:111-115 | each delay is the one before times the configured multiplier, cut at the cap; a multiplier of 0 counts as 1 |
| WriteRetry.DelaysAreCapped | core/src/fee_collector.rs:73-77 | all delays slept are within the cap if and only if the initial one is |
| FeeCollection.FeeCollector.PersistSampleWithRetry | core/src/fee_collector.rs:260-300 | stored exactly when a permitted attempt succeeds; otherwise dead-lettered and the error returned |
| FeeCollection.FeeCollector.NoteStoreSuccess | core/src/fee_collector.rs:303-305 | a success ends the streak of failures |
| FeeCollection.FeeCollector.PushRecord | core/src/fee_collector.rs:323-336 | the buffer keeps the newest records that fit; each push keeps buffered plus dropped in step |
| FeeCollection.FeeCollector.EnqueueDeadLetter | core/src/fee_collector.rs:310-348 | the buffer, drop and alarm accounting holds after every failure |
| FeeCollection.FeeCollector.DrainDeadLetters | core/src/fee_collector.rs:422-428 | everything buffered is handed out and the accounting holds |
| FeeCollection.StreaksHoldAllFailures | core/src/fee_collector.rs:338-347 | every failure belongs to one streak |
| FeeCollection.FailedWritesInARow | core/src/fee_collector.rs:310-348 | n failures after a drain are buffered in order; n failures after a success raise exactly floor(n / threshold) alarms |
| FeeCollection.DrainsDoNotEndStreaks | core/src/fee_collector.rs:338-347 | drains have no influence on streaks and alarms |
| FeeCollection.FeeCollector.CatchUp | core/src/fee_collector.rs:526-559 | the replay stores the ledgers from the cursor up to the first failure and moves the cursor along |
| FeeCollection.FeeCollector.CollectLatestFees | core/src/fee_collector.rs:498-580 | result, cursor and whole store after a cycle, including the database start and both failure cases |
| FeeCollection.CycleStoreEntries | core/src/fee_collector.rs:526-570 | a cycle stores the fetched samples of exactly the ledgers it writes |
| FeeCollection.CollectableExactly | core/src/fee_collector.rs:260-300 | a ledger is collected if and only if its fetch and one of the permitted write attempts succeed; its sample has the fetched fee; otherwise the error is the fetch's or the last attempt's |
| FeeCollection.RestartResumes | core/src/fee_collector.rs:498-580 | a fresh collector over a database that holds ledger m > 0 answers, stores and moves as one that goes on from cursor m, and finds nothing new exactly up to m |
| FeeCollection.FreshCollectorResumes | core/src/fee_collector.rs:505-559 | its cycle writes what a cycle from m writes, all of (m, latest] when that can be collected, and the ledgers 1 to m count as older |
| FeeCollection.FreshCollectorWithoutDatabase | core/src/fee_collector.rs:505-524 | without a ledger from the database only the latest one is tried and none counts as older |
| FeeCollection.NegativeStartStopsCollection | core/src/fee_collector.rs:507-513 | a negative number in the database turns into a cursor beyond every ledger, and nothing is collected any more |
| FeeCollection.CycleAccounting | core/src/fee_collector.rs:515-579 | between old and new cursor every ledger is written or in one gap interval; a failed cycle has no gap; the cursor never decreases |
| FeeCollection.RunAccounting | core/src/fee_collector.rs:498-580 | over any run of cycles every ledger passed is exactly one of: written, in a gap, or older than the database a fresh collector started from; gaps are final |
| FeeCollection.NoGapExactly | core/src/fee_collector.rs:526-579 | a cycle leaves no gap if and only if there is nothing new, or the latest ledger fails, or every ledger in between can be collected |
| FeeCollection.NothingIsLeftOutExactly | core/src/fee_collector.rs:498-580 | from a cursor, a run writes every ledger it passes if and only if that holds for each of its cycles |
| FeeCollection.CatchUpLeavesAGap | core/src/fee_collector.rs:526-579 | a run in which one failing ledger leaves three of them out for good |
| FeeAnalytics.InterpolationIsMonotone | core/src/fee_analytics.rs:325-335 | interpolation over sorted values never decreases |
| FeeAnalytics.PercentileIsMonotone | core/src/fee_analytics.rs:317-336 | percentiles are monotone in the percentile |
| FeeAnalytics.PercentileIsInRange | core/src/fee_analytics.rs:317-336 | percentiles lie in the clamped range of the samples; without samples they are 0 |
| FeeAnalytics.PercentileAtRank | core/src/fee_analytics.rs:325-335 | the percentile that falls on rank k of the sorted samples is that sample; ranks 0 and n-1 are the 0th and 100th |
| FeeAnalytics.PositionBetweenRanks | core/src/fee_analytics.rs:325-327 | the percentile that falls a given part of the way from rank k to rank k + 1 |
| FeeAnalytics.ValueBetweenRanks | core/src/fee_analytics.rs:325-335 | there the value is the integer nearest to that point of the straight line between the two samples, halves up, or 0 |
| FeeAnalytics.OrderDoesNotMatter | core/src/fee_analytics.rs:322-323 | percentiles depend on the multiset of samples only |
| FeeAnalytics.BidLadder | core/src/fee_analytics.rs:135-166 | standard <= priority <= urgent always, and economy <= standard for margins of at least 0.9; constants without fees |
| TokenBucket.StepKeepsInv | core/src/rpc_throttle.rs:104-118 | every step keeps the k-th value of the counter at initial - k |
| TokenBucket.TokensAreConserved | core/src/rpc_throttle.rs:97-118 | in every interleaving with stale reads and spurious failures tokens plus calls that returned true equal the initial tokens, and a false means that all tokens went to such calls |
| TokenBucket.TrueTakesAToken | core/src/rpc_throttle.rs:104-118 | an event returns true if and only if it takes one token; no other changes the counter |
| TokenBucket.ZeroIsRefused | core/src/rpc_throttle.rs:104-118 | a call that has read zero returns false with its next step |
| TokenBucket.UndisturbedCall | core/src/rpc_throttle.rs:104-118 | a call that nobody disturbs returns true if and only if a token is left, and takes it |
| TokenBucket.EmptyIsForever | core/src/rpc_throttle.rs:104-118 | an empty bucket stays empty |
| TokenBucket.GenuineFailuresAreBounded | core/src/rpc_throttle.rs:104-118 | in every interleaving a call suffers at most as many genuine exchange failures as it saw tokens |
| TokenBucket.GenuineFailureMakesProgress | core/src/rpc_throttle.rs:107-114 | a genuine exchange failure strictly decreases the caller's `current` |

## Left out

- SHA-256, hex, base64, XDR and address encoding: library code. Merkle ASCII rendering and deserialization: display, and states outside the class invariant.
- The `ok_or` errors after a rebuild: unreachable, since a tower is never empty.
- MerkleTrees.MerkleTree.AppendLeaves: with 64 levels or more, where no append is refused for its size, assumes that old and new leaves together fit a machine word, as any two vectors in one address space do.
- MerkleTrees.RunAndRebuild: assumes the same of each append along the run.
- Commands that execute after their caller has given up, several calls of one lock instance at the same time, and clock drift between instances and Redis.
- LeaderLease: the lock object is a value in a state machine, not a class, because steps of several instances interleave; whether leader work ends within the lease is not claimed by the code either.
- RttAverage.ProviderStats.Record: sample counts are unbounded numbers, and concurrent samples are one step each.
- FeeCollection.FeeCollector.EnqueueDeadLetter: counters are unbounded numbers; timestamps, log lines, metrics and the webhook are not modelled.
- FeeCollection.FeeCollector.PersistSampleWithRetry: a write that reports an error is taken not to have stored anything.
- Gossip.BuildReport: that asking also clears a trip whose cooldown is over is modelled in `CircuitBreaker.ProviderState.IsProviderTripped` only.
- Gossip: peers lists, peer scores, latest ledgers and failure counts inside snapshots; each report, probe, snapshot and merge is one step; dishonest nodes.
- Gossip.GossipCannotInflate: a node's own reports may change its local score in any way within 0..100, which covers the circuit breaker's rules without repeating them.
- CallTrace.ParseCallTrace: log lines and tracing spans.
- MermaidPrinter.Printer.AppendNodes: lines are data; label escaping and text layout are not modelled.
- FeeAnalytics: floating-point rounding error, moving averages, volatility, trend and confidence.
- HTTP, RPC, SQLite and Redis transport, routing, task queue, authentication, configuration and the web parts: plumbing or easy members.
