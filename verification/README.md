# HIMS: the collection protocol and the reports that rest on it

HIMS discovers the devices of a site network, collects their inventory through relay agents, and
reports which devices it manages. This project models the decisions behind that and proves what
they keep. Each module states its algorithms twice: once in the form the program has (classes whose
methods assign fields, loops that grow lists and maps), and once as functions and predicates; the
methods are proved equal to the functions, and the lemmas are about the functions.

| module | what it models |
|---|---|
| `Domain` | devices, agents, jobs, credential test rows, outcome categories |
| `JobQueue`, `JobServer` | the relay-agent job queue: one atomic step per handler, and the handlers as methods of a stateful `Server` |
| `JobSpecs` | what each handler of the queue does, in terms of the tables' columns alone |
| `JobInvariants`, `JobRuns`, `SelfHealBound`, `JobAnomalies` | what every step and every run of the queue keeps, how often a job moves, how far apart its retries are, how much self-heal can cause, and the runs on which a promise fails |
| `AgentRun` | the candidate credential list, the agent's loop over it, the Windows ladder, and the trip back through the result handler |
| `AccessMap`, `DeviceStatus`, `DerivedState`, `CoverageReport`, `QueueStatus` | access signals, the test map, the derived management state and when each is derived, the coverage report and the badge, and how the queue shows up in them |
| `SiteScope` | the bounded walk up the location tree against the worklist walk down |
| `ScanAccounting` | a concurrent sweep followed by the retry pass over missed known devices |
| `Subnets` | the two longest-prefix matchers (prefixes as in section 3.1 of RFC 4632) and the site reconcile action |
| `Alerting`, `AlertRuns` | rule matching, maintenance windows, the alert queries and the evaluation pass; runs in which engines and operators interleave their single database calls |
| `Fingerprints`, `FingerprintOrder` | the effective fingerprint library, seeding it from the built-in catalog, and which print wins a match before and after |
| `Fleet` | the fleet-wide CCTV run and the summary records readers load |

## Where the code and its promises differ

The model follows the code. Each of these is a lemma that says exactly when the promise holds, or a
concrete run on which it fails.

- One active collect job per device is kept by every step except in exactly two ways
  (`DedupKeptExactly`). A result for a job that is no longer dispatched is accepted, because the handler
  never reads the job's status and the update queries do not test it: `LateResultBreaksDedup`. And an
  enqueue checks before it inserts, with no unique index behind it, so two scans at once both insert:
  `InsertDedup` says when an insert is harmless, `RacingScansBreakDedup` is such a run.
- The reaper is meant to free every orphaned slot, but it recovers only collect jobs, so an
  orphaned test job holds its agent's slot (`ReapFreesStaleCollectJobs`, `OrphanedTestJobHoldsSlot`).
  When it gives up it also raises the attempt to the maximum, so "attempt below maximum" fails for
  exactly the jobs it gave up on (`MaximumReachedExactly`, `MaximumStays` and, over whole runs,
  `SpentExactlyWhenGivenUp`; `UnansweredJobSpendsAll` is such a run).
- Credential rejections are described as terminal; `wmi_auth_failed` is one and is retried
  (`RetriedRejection`).
- `credential_failed` is described as "every applicable credential rejected and nothing authenticated".
  From the aggregate query it needs one rejection and no authentication (`CredentialFailedExact`), even
  if another credential was never answered (`UnansweredCredentialIsBlamed`);
  from the fallback, which is reached only when that query fails or returns no row for the device, it
  can blame a device of which a credential did authenticate, in exactly the cases of
  `FallbackFalseAlarm`.
- The coverage report's credential-failed bucket reads the newest tests only, so it disagrees with the
  derived state both ways: it misses a device derived as `credential_failed` when a later test hides
  the rejection (`ReportMissesFailure`), and it counts one that is not, for example a valid credential
  that is merely not authorized (`ReportCountsDenied`). `AggregateDisagreesExactly` and
  `FallbackDisagreesExactly` say when, for all histories.
- The displayed source of an unbound protocol is that of the first row, so it depends on row order
  (`DisplayDependsOnOrder`, `OrderMattersExactly`); the proofs and their labels do not (`ProofsIgnoreOrder`).
- The walk up stops after 64 steps and at the nil identifier; the walk down does not
  (`WalksDifferExactly`, `DeepChainDiffers`, `NilLocationDiffers`).
- A scan over the addresses of several configured subnets may visit an address twice; the seen counter
  counts visits, so the known-device equation holds exactly when no alive known address repeats
  (`ScanJob`, `RepeatedHostIsCountedTwice`).
- The Data Quality matcher unmaps IPv4-mapped addresses and ranks location kinds, the scan's matcher
  does neither. `MatchersAgreeExactly` says for every address when they agree; on a mapped address they
  look at prefixes of different families (`MappedAddressAgreesExactly`), so without a covering V6
  prefix any V4 cover splits them (`MappedAddressSplitsMatchers`).
- Seeding the catalog keeps the set of prints exactly when no enabled built-in row has drifted
  (`SeedKeepsMeaningExactly`), but it can change which print wins a match. It keeps the winner exactly
  when no catalog entry that had no row, fires and ties with it is listed before it afterwards
  (`SeedKeepsWinnerExactly`); `ShippedTieFlips` is a pair of shipped entries that changes places.
- An alert whose check was deleted is never resolved by a pass (`PassResolvesExactly`).

## Assumptions

Handlers are atomic steps, and one agent's polls do not overlap (the agent polls serially), with two
exceptions: an enqueue's insert may come as a step of its own, after a check whose outcome no longer
holds, and in the alert store each database call is a step of its own. Queries succeed and contexts do
not expire, except the credential signal query, whose failure selects the fallback of `DeviceStatus`.
Clocks are whole seconds and never go back. Tables hold what their constraints promise (unique keys,
known kinds and trigger values), and the shipped fingerprint catalog names each kind and pattern once.
The tie order of rows that SQL leaves open is fixed as creation order, or left arbitrary where a lemma
quantifies over it. Which credential an enqueue picks, what a probe answers, which rows a signal query
returns and in which order a Go map is iterated are parameters.

## Model

| member | source | states |
|---|---|---|
| JobQueue.AdaptiveBudget | internal/api/relay_agents.go:352-385 | gives nothing exactly when no slot is free, fills the cap while fewer than three jobs or half the cap wait on saturated listeners, and then trickles two or a quarter of the cap |
| JobQueue.DispatchCap | internal/api/relay_agents.go:327-342 | the configured cap if it is between 1 and 64, else 8 |
| JobQueue.Newest | internal/api/agent_routing.go:100-143 | the agent with the newest heartbeat of the pool, the earliest listed among equals; none exactly when the pool is empty |
| JobSpecs.RouteIsToOwnSite | internal/api/agent_routing.go:43-70 | a job goes only to an enabled agent of the device's own site, and there is none exactly if the site has none; a fresh online agent is preferred, and none was heard from later |
| JobSpecs.RouteOutcomes | internal/api/agent_routing.go:72-79 | without a site no agent; an unsettled collect job of the device is never doubled |
| JobSpecs.EnqueueSpec | internal/api/agent_routing.go:81-89 | the inserted row column by column, and nothing else |
| JobSpecs.TestJobSpec | internal/api/relay_agents.go:196-213 | the test job an agent gets: no device, no credential, ready at once |
| JobSpecs.PollRefused | internal/api/relay_agents.go:248-262 | a disabled or unknown agent's poll changes nothing |
| JobSpecs.PollHandsOutOldest | internal/api/relay_agents.go:429-490 | exactly the oldest ready jobs of the agent, as many as the governor allows, become dispatched, and only the heartbeat changes beside them |
| JobSpecs.ResultRefused | internal/api/relay_agents.go:493-513 | a result of a refused agent, for an unknown job or for another's job changes nothing |
| JobSpecs.ResultRequeues | internal/api/relay_agents.go:574-589 | a collect job that failed, or whose inventory was not stored, goes back with one more attempt after 30, 120, 300 or 600 seconds unless its category is final or its attempts are spent |
| JobSpecs.ResultSettles | internal/api/relay_agents.go:549-572 | any other result settles the job: failed if it went wrong, else done |
| JobSpecs.ResultStores | internal/api/relay_agents.go:551-564 | inventory, status and credential are written exactly if an inventory was persisted |
| JobSpecs.DoneMeansStored | internal/api/relay_agents.go:549-589 | a collect job whose post carried an inventory ends done if and only if it was stored, else queued with one more attempt or failed |
| JobSpecs.ResultRecords | internal/api/relay_agents.go:591-633 | one test row per attempt that names a credential, else one for the job's own credential |
| JobSpecs.ReapSpec | internal/storage/postgres/queries/relay_agents.sql:88-103 | every row of the table before and after a reap |
| JobSpecs.HealServesOnlyStranded | internal/api/collection_selfheal.go:18-27 | self-heal creates a job only for a device never collected, with nothing under way, whose newest job failed over 15 minutes ago for a reason of load, with fewer than four failures in a day |
| JobSpecs.HealOrder | internal/storage/postgres/queries/relay_agents.sql:234-268 | at most fifty stranded devices, the longest stranded first; one is passed over only for fifty others |
| JobSpecs.HealServesAll | internal/api/collection_selfheal.go:51-66 | every candidate whose site has an agent gets its job |
| JobSpecs.BackoffSchedule | internal/api/relay_agents.go:416-427 | the single waits: 30, 120, 300, then 600 seconds |
| JobServer.Server.AssignedSiteAgent | internal/api/agent_routing.go:100-117 | the loop over agents with its running best finds that agent |
| JobServer.Server.RouteViaSiteAgent | internal/api/agent_routing.go:38-93 | routing, dedup and insert, with its three outcomes, as one enqueue step |
| JobServer.Server.PollJobs | internal/api/relay_agents.go:429-490 | hands out and marks exactly the picked jobs, refreshes the heartbeat, and changes nothing else |
| JobServer.Server.JobResult | internal/api/relay_agents.go:493-636 | requeue, completion, device binding, inventory and test rows of a posted result as one step |
| JobServer.Server.ReapStale | internal/storage/postgres/queries/relay_agents.sql:88-104 | every stale dispatched collect job is requeued or failed, all others untouched |
| JobServer.Server.SelfHealSweep | internal/api/collection_selfheal.go:42-78 | the sweep's loop is the self-heal step and its count is the number of jobs created |
| JobInvariants.PicksSpec | internal/storage/postgres/queries/relay_agents.sql:60-69 | a poll takes the oldest ready jobs, never overshoots the cap, and takes one whenever a slot is free and a job is ready, throttled or not |
| JobInvariants.PollFillsFreeSlots | internal/api/relay_agents.go:429-490 | a poll adds exactly its picks to its own agent's in-flight set and none to any other's |
| JobInvariants.CapKept | internal/api/relay_agents.go:352-385 | no step, late results included, takes an agent above its cap |
| JobInvariants.RowsKept | internal/api/relay_agents.go:574-589 | attempt and timestamp bookkeeping of every job survives every step |
| JobInvariants.DedupKeptExactly | internal/api/agent_routing.go:72-89 | any step keeps one active collect job per device if and only if it is neither a result that revives a job beside another active one nor an insert for a device that has one |
| JobInvariants.InsertDedup | internal/api/agent_routing.go:81-89 | an insert keeps the rule if and only if the device has no active job when it happens |
| JobInvariants.TimelyResultHasNoRival | internal/api/relay_agents.go:574-589 | a result for an active job cannot be that exception |
| JobInvariants.RunKeepsInv | internal/api/relay_agents.go:429-636 | over every run without late results and racing inserts: cap, attempt bound, one active collect job per device |
| JobInvariants.RunKeepsCapAndRows | internal/api/relay_agents.go:429-636 | over every run at all, late results and racing inserts included: no agent above its cap, every active job's attempt below its maximum, no attempt above it |
| JobInvariants.MaximumReachedExactly | internal/storage/postgres/queries/relay_agents.sql:88-104 | a step raises an attempt to the maximum if and only if it reaps a stale job in its last attempt |
| JobInvariants.MaximumStays | internal/api/relay_agents.go:574-589 | such a job is settled and stays so, late results included |
| JobRuns.SpentExactlyWhenGivenUp | internal/storage/postgres/queries/relay_agents.sql:88-104 | over any run: a job's attempt equals its maximum if and only if the reaper gave up on it |
| JobAnomalies.UnansweredJobSpendsAll | internal/storage/postgres/queries/relay_agents.sql:88-104 | a run from an empty queue to a failed job whose attempt is its maximum |
| JobRuns.DispatchesSpendAllowance | internal/api/relay_agents.go:574-589 | over any run, late results included, dispatches plus the allowance left never exceed the allowance at the start |
| JobRuns.DispatchedAtMostMaxAttempts | internal/api/agent_job_reaper.go:15-28 | no job is dispatched more often than its maximum number of attempts |
| JobRuns.TimelyMoveDescends | internal/api/relay_agents.go:574-589 | each change of a job lowers the pair (attempts left, status rank) |
| JobRuns.MovesBounded | internal/api/relay_agents.go:574-636 | a run changes a job at most twice per attempt it has left |
| JobRuns.RunIsSpaced | internal/api/relay_agents.go:404-427 | in every run, a requeued job's deadline and a re-dispatched job's last dispatch are at least the summed backoffs after its first failure |
| JobRuns.RetriesAreSpaced | internal/api/relay_agents.go:404-427 | last dispatch minus first failure is at least the summed backoffs: 17.5 minutes for five attempts |
| SelfHealBound.RunKeepsChain | internal/storage/postgres/queries/relay_agents.sql:234-268 | when only self-heal enqueues for a device, each of its jobs from a given index on was created with none active, the earlier ones of them failed, and the round limit not reached |
| SelfHealBound.WindowBound | internal/api/collection_selfheal.go:28-36 | such a chain has at most four jobs alive inside any 24 hours |
| SelfHealBound.SelfHealIsBounded | internal/api/collection_selfheal.go:20-66 | in any 24-hour window of any such run: at most four jobs alive, four terminal failures and twenty dispatches |
| SelfHealBound.NewJobsAreBounded | internal/api/collection_selfheal.go:20-66 | the same for the jobs a run creates, whatever the device's history before it |
| JobAnomalies.LateResultBreaksDedup | internal/api/relay_agents.go:493-589 | a run from an empty queue after which a late result has given a device two active collect jobs |
| JobAnomalies.RacingScansBreakDedup | internal/api/agent_routing.go:72-89 | two scans that both find no active job and both insert |
| JobAnomalies.ReapFreesStaleCollectJobs | internal/storage/postgres/queries/relay_agents.sql:88-104 | what a reap takes out of flight: exactly the stale collect jobs |
| JobAnomalies.OrphanedTestJobHoldsSlot | internal/api/agent_job_reaper.go:10-28 | a dispatched test job without a result stays in flight through every run |
| AgentRun.OsCandidateCreds | internal/api/os_inventory.go:433-461 | the growing slice and seen-map build the candidate list |
| AgentRun.CandidatesSpec | internal/api/os_inventory.go:433-461 | distinct, at most eight, bound credential first, only usable matching ones, and none left out unless the list is full of earlier ones |
| AgentRun.CandidateKinds | internal/api/os_inventory.go:517-526 | besides the bound one, Windows jobs offer WinRM and WMI credentials and others SSH and CLI ones, all that decrypt |
| AgentRun.WinrmAndWmiAgree | internal/api/os_inventory.go:517-526 | WinRM and WMI jobs get the same list |
| AgentRun.HeadlineIsInformative | cmd/hims-agent/main.go:411-465 | the headline is one rung's own category and is uninformative only when every rung was; a native verdict always wins |
| AgentRun.HeadlineTellsMost | cmd/hims-agent/main.go:411-465 | the headline is the report of the rung that tells most on one scale of rungs and categories |
| AgentRun.LadderHeadline | cmd/hims-agent/main.go:347-395 | a failed ladder ends on the headline of exactly the rungs it climbed |
| AgentRun.StormGuard | cmd/hims-agent/main.go:428-475 | with a transient WinRM rung the job settles without retry exactly on a definite native verdict or a broken WMI repository |
| AgentRun.RetriedRejection | internal/api/relay_agents.go:390-402 | among the reached verdicts exactly wmi_auth_failed is retried |
| AgentRun.LadderSpec | cmd/hims-agent/main.go:347-395 | which rungs decide success, and that a failure carries a rung's category |
| AgentRun.RunJob | cmd/hims-agent/main.go:239-306 | one post per job, equal to the report computed from the candidates and their answers |
| AgentRun.RunReportSpec | cmd/hims-agent/main.go:255-306 | attempts are a prefix of the candidates; success names the first that works; failure means all were tried or the last was a connect timeout |
| AgentRun.RowPerAttempt | internal/api/relay_agents.go:591-633 | one test row per attempt, in order, with its category and success |
| AgentRun.AttemptsAreDistinct | cmd/hims-agent/main.go:255-306 | success or failure, a post holds at most eight attempts, in list order, none of one credential twice |
| AgentRun.WinnerIsBound | internal/api/relay_agents.go:464-477 | the list built at the poll, the agent loop and the result handler together bind exactly the first working candidate, whatever was bound in between, record one row per candidate tried, and put the winner first next time |
| AccessMap.BuildAccessMap | internal/api/access_coverage.go:130-169 | the row-by-row loop computes the merged map |
| AccessMap.MergedSpec | internal/api/access_coverage.go:130-169 | what is proven, its label and what is displayed, each as a statement about the rows |
| AccessMap.ProofsIgnoreOrder | internal/api/access_coverage.go:130-169 | proofs, labels and shown bindings are the same for every order and repetition of the rows |
| AccessMap.OrderMattersExactly | internal/api/access_coverage.go:136-144 | the displayed source depends on row order if and only if the protocol is unbound and has rows of both other sources |
| AccessMap.DisplayDependsOnOrder | internal/api/access_coverage.go:136-144 | two rows on which it does |
| AccessMap.ProofsOnlyGrow | internal/api/access_coverage.go:145-166 | adding rows never removes a proof |
| AccessMap.WebTestsProveNothing | internal/api/access_coverage.go:145-160 | web test results and bindings alone prove nothing |
| DeviceStatus.DeviceTestMap | internal/api/access_coverage.go:208-239 | the loop over the newest rows computes the test map |
| DeviceStatus.TestedSpec | internal/api/access_coverage.go:208-239 | each field of the test map as a statement about the rows |
| DeviceStatus.FallbackSignals | internal/api/device_status.go:204-229 | the two map loops of the fallback compute the signal record |
| DeviceStatus.ActiveIsNeverBlamed | internal/api/device_status.go:189-275 | with an active collect job the state is never a credential blame or an idle state, and collection_failed exactly for an unproven legacy host with a broken WMI repository |
| DeviceStatus.CredentialFailedExact | internal/api/device_status.go:270-283 | from the aggregate: credential_failed if and only if nothing manages the device, nothing is in flight, some test was rejected and none ever authenticated |
| DeviceStatus.FallbackExact | internal/api/device_status.go:204-229 | the same from the fallback, in terms of the newest rows |
| DeviceStatus.FallbackFalseAlarm | internal/api/device_status.go:88-90 | exactly when the fallback blames a device of which a credential authenticated: every such row is superseded or an operation fault outside WinRM |
| DeviceStatus.MaskedDenialAlarms | internal/api/device_status.go:204-229 | a history for the first case |
| DeviceStatus.WmiFaultAlarms | internal/api/device_status.go:204-229 | a history for the second case |
| DerivedState.StatesFromHistory | internal/api/device_status.go:182-316 | for every device and history, from the aggregate and from the fallback: if and only if conditions for all eleven states over the test rows, proofs, jobs under way and agents of the site |
| DerivedState.NamedProtocols | internal/api/device_status.go:189-260 | the protocols named beside the state |
| DerivedState.LastTested | internal/api/access_coverage.go:208-239 | the last test time is that of the device's latest row |
| CoverageReport.AccessCoverage | internal/api/access_coverage.go:313-372 | managed exactly as derived, per protocol and with the labels of its proofs; the other buckets follow the newest tests; the four add up to the total; a protocol's failures are its newest tests that failed |
| CoverageReport.CreditSpec | internal/api/access_coverage.go:313-344 | a device counts under exactly the protocols it derives to be managed by, labelled by how its signals prove them |
| CoverageReport.PrintedLabelSpec | internal/api/access_coverage.go:377-387 | mixed exactly when some device counts by more than a test and some by more than evidence |
| CoverageReport.CountFailures | internal/api/access_coverage.go:358-371 | the loop over the test map, in any order, counts the newest tests that failed per protocol |
| CoverageReport.NotTestedHasNoVerdict | internal/api/access_coverage.go:345-355 | a device counted as not tested has no test row and no state that rests on one |
| CoverageReport.AggregateDisagreesExactly | internal/api/access_coverage.go:345-355 | from the aggregate, both if-and-only-ifs: when the report misses a credential_failed device and when it counts one that is not |
| CoverageReport.FallbackDisagreesExactly | internal/api/access_coverage.go:345-355 | from the fallback it never misses one, and when it counts one too many |
| CoverageReport.ReportMissesFailure | internal/api/access_coverage.go:345-355 | histories for the first case: a rejection hidden by a later timeout |
| CoverageReport.ReportCountsDenied | internal/api/access_coverage.go:199-206 | histories for the second: a valid credential without authorization |
| CoverageReport.UnansweredCredentialIsBlamed | internal/api/device_status.go:277-283 | histories in which one rejection is enough although another credential was never answered |
| CoverageReport.UnmanagedBadge | internal/api/access_coverage.go:482-503 | the badge is the total minus the managed devices |
| QueueStatus.InFlightNeverBlamed | internal/api/device_status.go:266-275 | in any queue state, a device with a waiting or running job is never blamed |
| QueueStatus.RequeueLeavesStatus | internal/api/relay_agents.go:574-589 | a timely result that requeues its job changes nothing a status reads |
| QueueStatus.SettlingEndsPending | internal/api/relay_agents.go:591-636 | a timely result that settles its job ends the device's in-flight status and no other's |
| QueueStatus.PersistedMeansManaged | internal/api/relay_agents.go:533-564 | a persisted success derives to managed whatever the test history says |
| QueueStatus.SitesAreAgents | internal/api/device_status.go:125-172 | which sites count as having agents and as online |
| SiteScope.InScope | internal/api/authz.go:15-34 | the bounded loop decides reachability within 64 steps, stopping at nil and self-loops |
| SiteScope.Descend | internal/api/endpoint_intelligence.go:127-168 | the worklist terminates on any parent map and sees exactly the subtree |
| SiteScope.WalksAgree | internal/api/authz.go:15-34 | up and down agree for any parent map, cycles included, whose chain visits at most 64 distinct non-nil locations |
| SiteScope.WalksDifferExactly | internal/api/authz.go:15-34 | they differ if and only if the first meeting lies beyond the limit or across nil |
| SiteScope.DeepChainDiffers | internal/api/authz.go:24-33 | a chain of 65 locations on which they differ |
| SiteScope.LimitIsReached | internal/api/authz.go:24-33 | a chain of 64 locations on which the walk up still arrives |
| SiteScope.NilLocationDiffers | internal/api/authz.go:24-33 | a chain through nil on which they differ |
| SiteScope.LocScope | internal/api/endpoint_intelligence.go:127-168 | unrestricted exactly when neither scope is given; otherwise the intersection of the given subtrees |
| ScanAccounting.SweepOutcome | internal/api/discovery.go:559-929 | after a complete sweep under any interleaving: counters and rows as functions of the visits |
| ScanAccounting.ListMissed | internal/api/discovery.go:1024-1030 | the missed list is the unseen known addresses, each once |
| ScanAccounting.ProbeMissed | internal/api/discovery.go:1041-1082 | recovered exactly when one of the targeted attempts is answered, at the first such attempt |
| ScanAccounting.RetryMissedKnown | internal/api/discovery.go:1024-1083 | one more row for each unseen known address and no other; recovered + missed is their number |
| ScanAccounting.SeenCountVersusAddresses | internal/api/discovery.go:903-915 | the seen counter exceeds the seen addresses exactly when an alive known address repeats |
| ScanAccounting.ScanJob | internal/api/discovery.go:500-959 | the whole scan: no known address is lost, found = new + seen + recovered, and seen + recovered + missed equals the known addresses if and only if none repeats; over distinct hosts each known address has exactly one row |
| ScanAccounting.DistinctHostsOneVisit | internal/api/discovery.go:559-573 | over distinct hosts every address has at most one visit and nothing repeats |
| ScanAccounting.RepeatedHostIsCountedTwice | internal/api/discovery.go:903-915 | a host list that names a known address twice counts it twice |
| Subnets.EqualLengthSameNetwork | internal/api/data_quality_reconcile.go:42-57 | two equal-length prefixes sharing an address are one network |
| Subnets.PrefixIsABlock | internal/api/discovery.go:1010-1016 | a prefix holds exactly one aligned block of 2^(32 - bits) IPv4 or 2^(128 - bits) IPv6 addresses, and families do not mix |
| Subnets.UnmapSpec | internal/api/data_quality_reconcile.go:42-57 | which addresses are unmapped, and to which |
| Subnets.UnrankedLosesTies | internal/api/data_quality_reconcile.go:42-57 | a location without a rank loses a tie to any ranked one |
| Subnets.MaskedContainsSame | internal/api/locations.go:128-135 | masking a prefix keeps the addresses it contains |
| Subnets.BestSpec | internal/api/data_quality_reconcile.go:42-57 | the running best is the first of the highest-ranked among the longest covering prefixes |
| Subnets.SubnetLocationFor | internal/api/discovery.go:1010-1022 | the scan's loop computes the best without ranks |
| Subnets.MatchSubnet | internal/api/data_quality_reconcile.go:42-57 | the Data Quality loop computes the best of the unmapped address |
| Subnets.MatchersAgreeExactly | internal/api/discovery.go:1010-1022 | for every address, subnet list and rank table: they agree if and only if both or neither find a cover and the first longest of one lies at the site of the first ranked of the other |
| Subnets.PlainAddressAgreesExactly | internal/api/discovery.go:1010-1022 | off the mapped range both find the same network; they name one site if and only if the first longest subnet already has the highest rank |
| Subnets.MappedAddressAgreesExactly | internal/api/data_quality_reconcile.go:42-57 | on a mapped address one meets only V6 and the other only V4 prefixes, and they agree if and only if neither covers it or both name the same site |
| Subnets.UniqueCidrsAgreeExactly | internal/api/locations.go:128-135 | with no network declared at two sites the condition needs no ranks |
| Subnets.MatchersAgreeOnUniqueCidrs | internal/api/locations.go:128-135 | in particular they always agree there off the mapped range |
| Subnets.MappedAddressSplitsMatchers | internal/api/data_quality_reconcile.go:42-57 | without a covering V6 prefix the scan finds nothing, and they agree if and only if the other does not either |
| Subnets.PlanReconcile | internal/api/data_quality_reconcile.go:119-154 | unassigned devices are grouped by match; matched + unmatched is their number and the groups add up to matched |
| Subnets.ApplyReconcile | internal/api/data_quality_reconcile.go:172-195 | one bulk update per site, in any order, moves each matched device to its match and no other device |
| Subnets.ReconcileMovesOnlyMatches | internal/api/data_quality_reconcile.go:119-195 | a device moves if and only if it has an address, no site and a covering subnet, and then to the first of the highest-ranked longest ones |
| Subnets.ReconcileIsIdempotent | internal/api/data_quality_reconcile.go:119-195 | after applying, nothing matches and the same devices stay unmatched |
| Alerting.Engine.LoadSuppression | internal/alerting/engine.go:137-161 | the three scope sets block a check exactly when an active window covers it |
| Alerting.Engine.FireAlert | internal/alerting/engine.go:185-229 | open, log, create and link a work order, as one pair of the pass |
| Alerting.Engine.Evaluate | internal/alerting/engine.go:76-135 | the nested loops compute the pass and its tally |
| AlertRuns.CallKeepsInv | internal/storage/postgres/queries/alerting.sql:34-87 | every single database call, made by any engine or operator at any time, keeps the shared invariant |
| AlertRuns.RunsAreSound | internal/storage/postgres/queries/alerting.sql:34-87 | under any interleaving of single calls: at most one unresolved alert per rule and check and no work order on two alerts at every moment; and whenever nothing is owed, a timeline that says exactly what happened to each alert |
| AlertRuns.FireIsItsCalls | internal/alerting/engine.go:185-229 | undisturbed, the insert, event, work-order and link calls of fire add up to the atomic step the pass uses |
| AlertRuns.PassIsItsCalls | internal/alerting/engine.go:76-135 | the calls of a whole undisturbed pass lead from a quiet store to the store of the pass, with nothing owed |
| Alerting.PassKeepsInv | internal/alerting/engine.go:76-135 | a whole undisturbed pass keeps one unresolved alert per pair, orders apart and timelines exact |
| Alerting.PassFillsSlots | internal/alerting/engine.go:76-135 | after a pass a pair has an unresolved alert if and only if it had one after recovery or it matches outside maintenance |
| Alerting.PassInPlainTerms | internal/alerting/match.go:28-39 | the same over the columns: status, failure floor, category, enabled flags and maintenance windows |
| Alerting.NewAlertFields | internal/alerting/engine.go:185-229 | what a new alert and its work order say |
| Alerting.EscalatesExactly | internal/storage/postgres/queries/alerting.sql:77-87 | which alerts are escalated: open, not yet escalated, older than their rule's minutes |
| Alerting.PassReports | internal/alerting/engine.go:76-135 | the resolved and escalated counts are the alerts whose columns the pass changes |
| Alerting.DeletedCheckIsForgotten | migrations/000013_alerting.up.sql:35-51 | a deleted check is cleared from its alerts and nothing else of them changes |
| Alerting.PassAccounts | internal/alerting/engine.go:76-135 | matching pairs = opened + suppressed + already open, judged on the store at the start of the loop; work orders = openings under auto rules |
| Alerting.PassResolvesExactly | internal/storage/postgres/queries/alerting.sql:62-87 | which alerts a pass resolves and escalates: exactly those whose check is up, and those still open past their rule's limit |
| Alerting.PassIsIdempotent | internal/alerting/engine.go:69-76 | repeating a pass unchanged leaves the whole store as it was |
| Fingerprints.KeyIsInjective | internal/api/fingerprints.go:94-110 | the joined map key determines kind and pattern, because no kind holds the separator |
| Fingerprints.FingerprintTable.ScanFingerprintLibrary | internal/api/fingerprints.go:94-127 | the loops with their string-keyed map compute the scan library |
| Fingerprints.ScanLibrarySpec | internal/api/fingerprints.go:87-110 | the library holds the enabled rows and the catalog entries no row shadows |
| Fingerprints.MatchesMeansSamePrint | internal/api/fingerprints.go:301-322 | a row matches its catalog entry exactly when it stands for the same print |
| Fingerprints.PlanBuiltinSeed | internal/api/fingerprints.go:275-295 | the plan's action for each entry, found through the string keys, is the one for the entry's own row |
| Fingerprints.EntryStep | internal/api/fingerprints.go:202-232 | an action planned against the first listing stays possible and right as the table changes; a create never meets an existing key |
| Fingerprints.FingerprintTable.SeedVendorFingerprints | internal/api/fingerprints.go:202-246 | applying the plan yields the seeded table, and the four counts add up to the catalog |
| Fingerprints.CountsMean | internal/api/fingerprints.go:208-246 | each reported count is the number of catalog entries without a row, owned by an operator, with a differing built-in row, or with an equal one |
| Fingerprints.SeedKeepsOperatorData | internal/storage/postgres/queries/admin.sql:110-119 | operator rows, ids, enabled flags and priorities are untouched; additions are enabled built-ins |
| Fingerprints.SeedKeepsValid | internal/api/fingerprints.go:264-274 | keys and ids stay unique |
| Fingerprints.SeedIsIdempotent | internal/api/fingerprints.go:264-274 | a second plan has only preserve and up-to-date entries |
| Fingerprints.SeedKeepsMeaningExactly | internal/api/fingerprints.go:94-246 | the set of prints a scan uses is kept if and only if no enabled built-in row has drifted |
| FingerprintOrder.WinnersTie | internal/fingerprint/fingerprint.go:151-171 | equal sets pick winners of equal confidence and kind rank, and the same one unless there is a tie |
| FingerprintOrder.OutranksSpec | internal/fingerprint/fingerprint.go:227-242 | confidence decides, then the channel in the order oid, service, sysname, http, ssh, other |
| FingerprintOrder.ListingOrder | internal/storage/postgres/queries/admin.sql:82-87 | user rows first, then lower priorities, then higher confidence; kind, vendor and pattern break ties |
| FingerprintOrder.OrderMattersExactly | internal/fingerprint/fingerprint.go:151-171 | a permutation of a library can crown another winner if and only if some firing print ties with the winner |
| FingerprintOrder.LibraryPrecedence | internal/api/fingerprints.go:87-110 | in a scan library stored prints stand in listing order, before every catalog entry |
| FingerprintOrder.SeedKeepsWinnerExactly | internal/api/fingerprints.go:202-246 | with the set of prints kept, the winner is kept if and only if no catalog entry that had no row, fires and ties with it is listed before it afterwards, for any strict listing order |
| FingerprintOrder.SeedFlipsTie | internal/api/fingerprints.go:202-246 | seeding an empty table takes a tie from the earlier catalog entry whenever the listing puts the later one first |
| FingerprintOrder.ShippedTieFlips | internal/fingerprint/fingerprint.go:500-501 | the shipped BIG-IP and NetScaler entries are such a pair under the query's order |
| Fleet.RecorderCategory | internal/api/cctv_collect.go:514-528 | the first recorder signal wins; camera exactly when there is none |
| Fleet.ItemTells | internal/api/cctv_fleet.go:74-100 | a device is skipped exactly after an authentication failure in the last six hours; otherwise its row follows the collection, and only recorders bring channels |
| Fleet.SumMeans | internal/api/cctv_fleet.go:296-313 | each counter is the number of rows it names, and channels are those of the collected rows |
| Fleet.SumLaws | internal/api/cctv_fleet.go:296-313 | every row counts once, and every collected row once by category |
| Fleet.SumIgnoresOrder | internal/api/cctv_fleet.go:296-313 | the counters do not depend on the order of the rows |
| Fleet.FleetRun.Publish | internal/api/cctv_fleet.go:265-313 | copy, change, store: the new record has one row more, and every earlier record still says what it said |
| Fleet.FleetRun.Finish | internal/api/cctv_fleet.go:316-320 | the last record has the same rows and is no longer running |
| Fleet.FleetRun.RunFleet | internal/api/cctv_fleet.go:259-321 | under any interleaving every stored record is consistent and stays so, and the last has one row per device and the same counters |
| Fleet.HistoryGrows | internal/api/cctv_fleet.go:265-273 | a consistent next record keeps the history proper |

## Left out

- Deleting agents, devices, rules or work orders, which removes or detaches rows by cascade; deleting a monitoring check is modelled.
- Choosing the credential of an enqueued job, reclassifying a device from its operating system caption, and everything a probe does (PowerShell, WinRM, WMI, SSH, SNMP, ONVIF, ISAPI): arbitrary outcomes or parameters.
- Database errors, expired contexts, cancelled scans, and a second CCTV run started beside the first.
- The order of the displayed protocols of a managed device (`managedBy` is a set here), the report's sorting and percentage, and the number of rows a bulk update reports.
- Tables other than jobs, agents, devices, inventories, tests, alerts and fingerprints; what scans and operators write to agents, devices, inventories and tests is the arbitrary `OutsideStep`.
- HTTP, JSON and CSV handling, audit rows, detail texts, next actions, work-order notes, encryption and sessions.
- Whether a stored print fires on given evidence (`fingerprint.Match` on strings): the winner lemmas take the set of firing prints as given.
- PostgreSQL's text collation: `ListsBefore` compares characters, which only `ShippedTieFlips` uses.
