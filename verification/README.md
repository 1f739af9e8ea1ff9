# Admiral: a verified model of its stateful algorithms

Admiral is a control plane that watches workloads in many Kubernetes clusters and writes Istio
resources so that a workload can be reached under one name from everywhere. This project models
the algorithms of it that keep state, and proves what they keep over whole runs.
`dafny verify dfyconfig.toml` checks everything.

Where Admiral's code changes things in place, the model does too: classes with the same fields,
loops with invariants, methods proved against functions of the old state. Protocols between
processes (address allocation, the lease, the work queue, the shard pipeline, update and policy
runs) are state machines whose steps are those functions; lost requests, crashes, conflicts and
goroutine interleavings are steps or parameters of steps. Kubernetes and DynamoDB are small
stores, clocks are integers, and the iteration order of a Go map is an arbitrary order.

| file | content |
|---|---|
| `Prelude.dfy`, `Mesh.dfy`, `Ordering.dfy` | options, sequences without duplicates; endpoints and destinations; string order, sorts that need not be stable |
| `AddressAllocator.dfy`, `AllocatorProtocol.dfy` | service-entry addresses over one versioned config map |
| `Lease.dfy` | the read-write lease between pods |
| `EndpointBuild.dfy`, `EndpointOrder.dfy`, `EndpointLocalise.dfy`, `EndpointFlow.dfy` | building the shared service entries; whether the order of visits matters; writing them to source clusters; building and writing together |
| `VsMerge.dfy`, `VsMergeLaws.dfy`, `Reconcile.dfy` | custom virtual services; the check before a write |
| `Weights.dfy`, `GtpRouting.dfy`, `ActivePassive.dfy`, `ActivePassiveRuns.dfy` | weight splitting, traffic-policy scaling, active/passive |
| `WorkQueue.dfy`, `WorkQueueRuns.dfy` | the controller's retrying work queue |
| `ShardPipeline.dfy` | producer, consumers and collector of one shard |
| `UpdateGuard.dfy` | the destructive-update guard of the boot window |
| `FilterRecord.dfy`, `FilterNames.dfy` | routing policies and the record of their envoy filters; colliding keys and names |
| `GtpOrder.dfy` | choosing one global traffic policy |

## What the code does not keep

Some promises hold only under a condition. The code is modelled as it is; each condition is
proved sufficient, and an equivalence or a concrete run shows what happens without it.

- The lease code looks at the timeout only. Mutual exclusion also needs every other pod to
  check between two checks of a pod (`LeaseProtocol.WithoutTurnsTwoWriters`), and a writer that
  pauses longer than the timeout and loses a put breaks it
  (`LeaseProtocol.WithoutTimelinessTwoWriters`).
- A delete empties the cache that the staleness test compares with, so an older retry can get
  through after it and the object is cached again (`WorkQueueRuns.OlderRetryGetsThrough`). Such
  stale attempts are exactly what breaks the order of versions
  (`WorkQueueRuns.VersionsNeverDecrease`).
- Clusters without a load balancer share a dummy ingress. Then the built entry depends on the
  order in which clusters are visited, unless they agree: they keep the same endpoint and none
  removes it, or one of them replaces its deleted deployment's endpoint by its rollout's and the
  others keep one of these two (`EndpointOrder.OrderIndependentExactly`,
  `EndpointBuild.SharedIngressOrderMatters`, `EndpointOrder.HarmlessDisagreement`).
- An endpoint without an address is treated as the local one and swapped back to the ingress, so
  the shared entry changes (`EndpointLocalise.EntryRestoredExactly`).
- A second merge differs when a custom route is named after a missing host, or when custom
  destinations that name a custom route resolve differently through the first result
  (`VsMergeLaws.MergeIdempotentExactly`, `VsMergeLaws.NamedAfterDestinationMergesDifferently`).
- An entry without endpoints makes a destination rule forget its active region
  (`ActivePassive.OnlyAnEmptyEntryForgets`), and so does a traffic policy; what the policy put
  there may outlive it (`ActivePassiveRuns.RegionAfterReset`, `ActivePassiveRuns.PinnedRegionStays`,
  `ActivePassiveRuns.FailoverLingers`).
- The shard producer reuses the error variable of the registry lookup for cache puts and sends
  what is left in it. An identity that was looked up is then reported as failed, and not written,
  when its last put failed (`ShardPipeline.Messages`, `ShardPipeline.WrittenExactly`).
- Two hosts can make different routes under one name, such as a prefixed name that is another
  host; then the iteration order of a map decides (`GtpRouting.WalkOrderIndependent`,
  `GtpRouting.SharedRouteNameOrderMatters`).
- Several unweighted local services each take the region's whole share, so the total exceeds 100
  and is left so (`GtpRouting.SplitTotal`, `GtpRouting.TwoUnweightedExceed`).
- Different routes of one name, or different destinations of one host in a route, may be written
  again although nothing changed (`Reconcile.DeterminateExactly`).
- Of two different endpoints with one address the diff sees only the later
  (`UpdateGuard.ProtectedExactly`), and a retry after a conflict does not look at the diff at all
  (`UpdateGuard.ConflictBypassesGuard`). When the object exists but cannot be read, a comment
  (admiral/pkg/clusters/serviceentry_handler.go:82-86) says the update will be retried; the code
  retries only if the API server calls it a conflict, and the model follows the code.
- A missing filter is an error for the deletion, so once a deletion has failed half-way no later
  one can succeed (`FilterRecord.StuckForGood`).
- Record keys and digested texts are plain concatenations and can collide; two policies that
  share a key, or plugin and digested text, can lose filters by each other's deletion, and only
  such policies can (`FilterNames.SparedExactly`, `FilterNames.ConcatenationsCollide`).
- The traffic-policy comparator is no order when some policies of a priority have an update time
  and others contradict it (`GtpOrder.WeakOrderExactly`, `GtpOrder.MixedPoliciesCycle`).

## Model

Paths are relative to the repository's root.

| member | source | states |
|---|---|---|
| AddressText.AddressInjective | admiral/pkg/clusters/serviceentry.go:2676-2690 | Two address texts under one prefix are equal only when both octet numbers are, for octets of any size; so probe candidates can be told apart by their numbers |
| AddressText.ItoaIsDecimal | admiral/pkg/clusters/serviceentry.go:2678-2687 | A number's text is all digits '0' to '9', without leading zeros, and reads back as the number |
| AddressText.AddressSpells | admiral/pkg/clusters/serviceentry.go:2678-2687 | An address is the prefix and two decimal texts with dots between, the first reading as the second octet and the last as the first octet |
| AddressAllocator.FirstFreeUnique | admiral/pkg/clusters/serviceentry.go:2676-2690 | The first free candidate from a given start is unique, so the probe's contract fixes its answer |
| AddressAllocator.ProbeBound | admiral/pkg/clusters/serviceentry.go:2676-2690 | A probe can meet at most as many taken candidates as there are stored addresses, by injectivity of the candidates (pigeonhole) |
| AddressAllocator.FindFreeAddress | admiral/pkg/clusters/serviceentry.go:2676-2690 | The probe loop ends on the first candidate, in strictly increasing order from the guess, that is not stored, within one probe more than there are stored addresses, whatever texts are stored; the answer spells the prefix and the two octets of its rank in decimal |
| AddressAllocator.PlanAddress | admiral/pkg/clusters/serviceentry.go:2650-2698 | What a client decides from one read document: refuse, return the known address, return none when generation is off, or write back the document with the first free address |
| AddressAllocator.InconsistentIsRefused | admiral/pkg/clusters/util.go:79-88 | A document without a resource version, or whose list and map differ in size, is never written back |
| AddressAllocator.WithEntryConsistent | admiral/pkg/clusters/serviceentry.go:2692-2698 | Adding a new name with an unused address keeps the address list duplicate-free, equal to the map's values, and the map injective |
| AddressAllocator.ConsistentPassesValidation | admiral/pkg/clusters/util.go:79-88 | The length check before a put never fires on a consistent document |
| AddressAllocator.ConfigMapServer.Put | admiral/pkg/controller/admiral/configmap.go:64-67 | An update succeeds exactly against the version it was read at (or without a version), and then raises the version; a rejected one changes nothing |
| AddressAllocator.ConfigMapServer.GenerateNewAddress | admiral/pkg/clusters/serviceentry.go:2650-2727 | One undisturbed fetch-and-update returns the stored address, or adds exactly one new unused one and keeps the document consistent; it fails only on an unreadable document |
| AddressAllocator.ClosedFormStep | admiral/pkg/clusters/serviceentry.go:2676-2680 | When the i-th address is the i-th guess for all stored ones, the next first guess is free, spells prefix.(n/255+10).(n%255+1) in decimal, and taking it keeps the form |
| AddressAllocator.OctetsInRange | admiral/pkg/clusters/serviceentry.go:2676-2680 | Both octets of the i-th guess fit their byte for exactly the first 62730 allocations |
| AllocatorProtocol.SwapEvolves | admiral/pkg/clusters/serviceentry.go:2701-2727 | A compare-and-swap of a document planned from any earlier snapshot either fails or appends exactly that entry to the current document |
| AllocatorProtocol.NextKeepsInv | admiral/pkg/clusters/serviceentry.go:2599-2727 | Every step of every client (lookup, put with or without an answer, lost put, two-step cache refresh) keeps the invariant: consistent document, caches and answers contained in it, outstanding plans computed from a prefix of it |
| AllocatorProtocol.RunInv | admiral/pkg/clusters/serviceentry.go:2599-2727 | The invariant holds at every moment of every interleaving of any number of pods and goroutines |
| AllocatorProtocol.RunEvolves | admiral/pkg/clusters/serviceentry.go:2599-2727 | Between any two moments of any run the document only grows: no name changes its address, the list is only appended to, no answer is withdrawn |
| AllocatorProtocol.AnswersAreInjective | admiral/pkg/clusters/serviceentry.go:2599-2727 | Two addresses returned without error, at any moments, from the store or from a stale cache, are equal exactly when their names are |
| AllocatorProtocol.RunInClosedForm | admiral/pkg/clusters/serviceentry.go:2676-2690 | From an empty document, in every concurrent run the i-th stored address spells prefix.(i/255+10).(i%255+1) in decimal, the larger octet first |
| AllocatorProtocol.AddressClient.GenerateNewAddress | admiral/pkg/clusters/serviceentry.go:2617-2727 | With arbitrary interference between its read and its put, a call that does not fail returns the address stored for its name |
| AllocatorProtocol.AddressClient.GetUniqueAddress | admiral/pkg/clusters/serviceentry.go:2807-2847 | At most three attempts, and exactly three before giving up; a returned address is the one stored for the name however old the cache is, a cached address is returned without touching anything, and the cache stays contained in the document, refreshed with the answer when the document can be read |
| LeaseCheck.FilterOrCreateLease | admiral/pkg/clusters/dynamoDB.go:430-440 | Returns the first lease of the name, or a fresh one without owner when there is none |
| LeaseCheck.FirstNamedUnique | admiral/pkg/clusters/dynamoDB.go:430-440 | The lease a check works with is determined by the scanned list |
| LeaseCheck.LeaseTable.Scan | admiral/pkg/clusters/dynamoDB.go:352-382 | The scan lists exactly the stored items, each with all its attributes |
| LeaseCheck.LeaseTable.PutItem | admiral/pkg/clusters/dynamoDB.go:108-137 | An unconditional put replaces the row of its name and no other |
| LeaseCheck.AdmiralState.ExecuteStateCheck | admiral/pkg/clusters/admiralReadWriteLeaseStateChecker.go:76-138 | One check: read-only and nothing else changed when the table cannot be read; otherwise the mode and the row of the branch taken, the row only when the put arrives, its error ignored |
| LeaseProtocol.StepKeepsSafety | admiral/pkg/clusters/admiralReadWriteLeaseStateChecker.go:94-138 | Each step keeps: at most one writer, and a writer that lost the row is unopposed until the new owner's confirming check |
| LeaseProtocol.MutualExclusion | admiral/pkg/clusters/admiralReadWriteLeaseStateChecker.go:94-138 | No reachable state has two read-write pods, although puts are lost silently, reads fail and pods crash and restart, when a writing pod checks within the timeout and every other pod checks in between |
| LeaseProtocol.StepKeepsWritersReady | admiral/pkg/clusters/admiralReadWriteLeaseStateChecker.go:111-138 | Each step keeps: a read-write pod is warmed up |
| LeaseProtocol.RunWritersReady | admiral/pkg/clusters/admiralReadWriteLeaseStateChecker.go:115-119 | Over every run from the start every read-write pod is warmed up: a warming owner does not write |
| LeaseProtocol.WarmingPodLeavesOwnedRow | admiral/pkg/clusters/admiralReadWriteLeaseStateChecker.go:112-138 | A check by a pod that is still warming up leaves an owned row unchanged, its own included, and the pod read-only |
| LeaseProtocol.FreeRowIsTaken | admiral/pkg/clusters/admiralReadWriteLeaseStateChecker.go:106-111 | A row without owner goes to any pod that checks it, warm or not, when its put arrives |
| LeaseProtocol.BlindCheckStopsWriting | admiral/pkg/clusters/admiralReadWriteLeaseStateChecker.go:94-104 | A check that cannot read the table leaves the row and ends read-write mode |
| LeaseProtocol.CheckInitializes | admiral/pkg/clusters/admiralReadWriteLeaseStateChecker.go:106-138 | A check that reads the row initialises the state and decides the mode, except when it asks for the row, a free one or a lapsed one of another pod: then the mode stays |
| LeaseProtocol.WithoutTurnsTwoWriters | admiral/pkg/clusters/admiralReadWriteLeaseStateChecker.go:94-138 | A concrete run with timely writers but without turns reaches two writers |
| LeaseProtocol.WithoutTimelinessTwoWriters | admiral/pkg/clusters/admiralReadWriteLeaseStateChecker.go:94-138 | A concrete run with strict turns, one writer pausing beyond the timeout and one lost put, reaches two writers |
| LeaseProtocol.SkipIsFinal | admiral/pkg/clusters/admiralReadWriteLeaseStateChecker.go:112-114 | Once the row names the skip owner nobody takes it, and a pod that checks stops writing |
| LeaseProtocol.OwnerNeverDisplaced | admiral/pkg/clusters/admiralReadWriteLeaseStateChecker.go:76-138 | A live, warmed-up owner whose reads succeed and which checks within the timeout keeps the row and its mode over every run |
| LeaseProtocol.StepKeepsFailover | admiral/pkg/clusters/admiralReadWriteLeaseStateChecker.go:76-138 | Each reliable step keeps one of three stages: waiting out the timeout, taken but unconfirmed, held |
| LeaseProtocol.FailoverBound | admiral/pkg/clusters/admiralReadWriteLeaseStateChecker.go:76-138 | With reliable puts, every live pod checking in every wait and one live warmed-up pod, some pod is read-write once timeout + 2 * wait have passed since a dead owner's last renewal |
| WorkQueue.Worker.ShouldRetryItem | admiral/pkg/controller/admiral/controller.go:481-526 | A retry is worthwhile unless the cache holds a newer version of the object |
| WorkQueue.Worker.ProcessItem | admiral/pkg/controller/admiral/trafficconfig.go:156-183 | The delegator caches (or uncaches) the object before handling it |
| WorkQueue.Worker.ProcessNextItem | admiral/pkg/controller/admiral/controller.go:316-379 | One pass over the head of the queue: stale retries are forgotten unhandled, success is forgotten, failure is re-queued with one more count, or given up after two retries or when the cache is newer |
| WorkQueueRuns.StepKeepsBookkeeping | admiral/pkg/controller/admiral/controller.go:316-379 | Each step keeps ready, delayed and finished events apart, an event's count equal to its attempts, and every event accounted for |
| WorkQueueRuns.AttemptsBounded | admiral/pkg/controller/admiral/controller.go:316-379 | Over every run no event is handed over more than maxRetries + 1 times and none disappears before its first attempt |
| WorkQueueRuns.StepLeaves | admiral/pkg/controller/admiral/controller.go:316-379 | An event stops being pending for one of three reasons only: it was handled successfully, its third attempt is over, or it is a retry and the cache holds a newer version |
| WorkQueueRuns.EventLeaves | admiral/pkg/controller/admiral/controller.go:316-379 | Over every run an event that was queued and is not pending any more left at one such step: a failing event is retried until its attempts are used up or it is out of date |
| WorkQueueRuns.StepKeepsOrder | admiral/pkg/controller/admiral/controller.go:316-379 | Every step, deletes included, keeps first attempts in version order and newer than everything handed over |
| WorkQueueRuns.StepDecidesOrder | admiral/pkg/controller/admiral/controller.go:481-526 | One step keeps an object's handed versions in order exactly when it is no stale attempt: a retry that finds its object missing from the cache although a newer version was handed over |
| WorkQueueRuns.VersionsNeverDecrease | admiral/pkg/controller/admiral/controller.go:316-379 | Over every run, despite failures and re-queues: the versions of each object handed to the delegator never decrease exactly when no stale attempt was made |
| WorkQueueRuns.PatientDeletesSuffice | admiral/pkg/controller/admiral/controller.go:316-379 | None is made when no delete is handed over while an older event of its object waits for a retry |
| WorkQueueRuns.WithoutDeletesVersionsNeverDecrease | admiral/pkg/controller/admiral/controller.go:316-379 | Without deletes no stale attempt is made, so versions never decrease |
| WorkQueueRuns.OlderRetryGetsThrough | admiral/pkg/controller/admiral/controller.go:481-526 | From any state of a run with a first-attempt delete at the head, an older event of the object delayed and no other event of the object in the queue, whatever else is pending, the run can go on to hand the older version over after the delete and leave it in the cache |
| WorkQueueRuns.DeletedObjectComesBack | admiral/pkg/controller/admiral/trafficconfig.go:176-183 | A concrete run from the empty queue in which a deleted object is back in the cache |
| WorkQueueRuns.StepLessWork | admiral/pkg/controller/admiral/controller.go:316-379 | Every step other than an arrival lowers the work measure |
| WorkQueueRuns.QueueDrains | admiral/pkg/controller/admiral/controller.go:316-379 | Once no events arrive, every run ends within the measure, and it can only end with nothing ready and nothing delayed |
| ShardPipeline.Messages | admiral/pkg/clusters/shard_handler.go:100-158 | The producer sends one message per identity of each cluster, in order, with an error exactly when the lookup failed or the last of the following connection-settings puts did |
| ShardPipeline.OneTaskPerIdentity | admiral/pkg/clusters/shard_handler.go:100-158 | The tasks are one for each identity of each cluster, in the order of the two loops, with the identity's own name and results |
| ShardPipeline.StepConserves | admiral/pkg/clusters/shard_handler.go:54-296 | No step of producer, consumers, collector or main creates, copies or loses a task |
| ShardPipeline.StepKeepsInv | admiral/pkg/clusters/shard_handler.go:54-296 | Each step keeps the closing protocol: channels are closed only after their senders are done, and failed lookups stay failed |
| ShardPipeline.SendsMeetOpenChannels | admiral/pkg/clusters/shard_handler.go:54-96 | Under the invariant no send meets a closed channel and no channel is closed twice |
| ShardPipeline.OneResultPerIdentity | admiral/pkg/clusters/shard_handler.go:54-296 | For every interleaving over the bounded channels, when the handler returns the collector has exactly one result per identity of each cluster, and each identity sent with an error is a failed result |
| ShardPipeline.WrittenExactly | admiral/pkg/clusters/shard_handler.go:162-244 | Then the consumers have set out to write exactly the identities whose lookup and last put succeeded, each once |
| ShardPipeline.FailedWriteIsSent | admiral/pkg/clusters/shard_handler.go:214-243 | A consumer's failed write becomes a failed result of its task, behind the results sent before |
| ShardPipeline.FailuresExactly | admiral/pkg/clusters/shard_handler.go:162-244 | When the handler returns, a task sent without an error has exactly as many failed results as writes for it failed, and one sent with an error has failed results only |
| ShardPipeline.RunStaysBounded | admiral/pkg/clusters/shard_handler.go:54-96 | In every run there are five consumers and neither channel holds more than 1000 messages |
| ShardPipeline.SomeStepEnabled | admiral/pkg/clusters/shard_handler.go:54-96 | Until the handler returns some step is possible: no deadlock |
| ShardPipeline.RunsReturn | admiral/pkg/clusters/shard_handler.go:54-96 | Every run is bounded by its start's measure, and a run that cannot go on has returned |
| ShardPipeline.ProcessResults | admiral/pkg/clusters/shard_handler.go:247-296 | The report lists per cluster the failed identities, latest first, and is clean exactly when nothing failed |
| ShardPipeline.ReportedExactly | admiral/pkg/clusters/shard_handler.go:247-296 | An identity is reported for a cluster exactly when one of its results failed |
| ShardPipeline.LatestFirst | admiral/pkg/clusters/shard_handler.go:247-296 | A failed result is named under its own cluster, behind the failures of all later results |
| ShardPipeline.FinalReport | admiral/pkg/clusters/shard_handler.go:54-296 | For every interleaving the final report names an identity of a cluster exactly when its lookup or last put failed or a write for it did |
| EndpointBuild.ServiceEntries.GenerateServiceEntry | admiral/pkg/clusters/serviceentry.go:2849-2935 | Adding appends the endpoint unless its address is there; deleting removes every equal endpoint; other hosts are untouched |
| EndpointBuild.ServiceEntries.Build | admiral/pkg/clusters/serviceentry.go:216-417 | The loop over the clusters: deployment then rollout, the deletion map filled on the way, a workload without a service ending its cluster's turn |
| EndpointBuild.RemoveSeEndpoints | admiral/pkg/clusters/util.go:100-119 | The cluster loses its entry exactly on a delete sent for it; other clusters' deletes become updates, other events pass through |
| EndpointBuild.BuildIsExact | admiral/pkg/clusters/serviceentry.go:216-417 | With distinct ingresses the entry of a host holds exactly one endpoint per cluster that keeps the host, in visiting order, and the right workload's endpoint |
| EndpointOrder.BuiltAt | admiral/pkg/clusters/serviceentry.go:216-417 | For any clusters, shared ingresses included: the built entry has at each address at most one endpoint, the one that the turns of the clusters behind it leave there in visiting order |
| EndpointOrder.BuiltFields | admiral/pkg/clusters/serviceentry.go:2849-2890 | For any clusters and event each built endpoint has the ingress, locality, protocol, port and label of one workload of one cluster that offers the host; a deployment without a service hides its cluster's rollout |
| EndpointOrder.BuiltCompletely | admiral/pkg/clusters/serviceentry.go:216-417 | With distinct ingresses every workload with a service that offers the host gets its endpoint, the deployment's before the rollout's, unless the event deletes it; nothing else stands at the ingress |
| EndpointOrder.Settled | admiral/pkg/clusters/serviceentry.go:216-417 | What agreeing clusters leave at an address: the rollout's endpoint of the cluster whose deployment is deleted, or else the endpoint that any of them keeps, or nothing |
| EndpointOrder.BuiltEndpoints | admiral/pkg/clusters/serviceentry.go:216-417 | When clusters behind one ingress agree, the entry holds exactly the endpoints some cluster keeps and none replaces, one for each address |
| EndpointOrder.BuiltAddresses | admiral/pkg/clusters/serviceentry.go:216-417 | Under the same condition, so with distinct ingresses too, the built addresses are duplicate-free and exactly the ingresses of the clusters that keep the host |
| EndpointOrder.DistinctIngressesAgree | admiral/pkg/clusters/serviceentry.go:216-417 | Clusters with distinct ingresses meet the condition |
| EndpointOrder.OrderIndependent | admiral/pkg/clusters/serviceentry.go:216-417 | When clusters behind one ingress agree, the order of visiting the clusters changes nothing but the order of the endpoints |
| EndpointOrder.OrderIndependentExactly | admiral/pkg/clusters/serviceentry.go:216-417 | For every event and all clusters with distinct ids: the order of visiting does not matter exactly when clusters behind one ingress agree: they keep the same endpoint and none removes it, or a cluster there replaces its deployment's endpoint by its rollout's and the others keep one of these two |
| EndpointOrder.HarmlessDisagreement | admiral/pkg/clusters/util.go:100-119 | A concrete instance of the second kind: different kept endpoints, one result in every order |
| EndpointOrder.MigrationKeepsEndpoint | admiral/pkg/clusters/serviceentry.go:216-417 | When a cluster offers a host by a deployment and a rollout, the built entry has its address, and deleting one of the two there leaves the other's endpoint in the built entry |
| EndpointOrder.DeleteRemovesEventCluster | admiral/pkg/clusters/serviceentry.go:216-417 | On a delete, a cluster that is not migrating has its address in the built entry exactly when it is not the event cluster and offers the host |
| EndpointBuild.SharedIngressOrderMatters | admiral/pkg/clusters/serviceentry.go:2849-2935 | A concrete disagreement: of two clusters behind one ingress one keeps the endpoint the other removes, and the two orders build different entries |
| EndpointLocalise.UpdateEndpointsForWeightedServices | admiral/pkg/clusters/serviceentry.go:1293-1325 | On a copy: endpoints behind the ingress make way for one per positively weighted service, modelled on the latest of them |
| EndpointLocalise.WeightedViewExactly | admiral/pkg/clusters/serviceentry.go:1293-1325 | However many endpoints match: all of them go, one copy of the last for each service of positive weight comes, and no other endpoint changes |
| EndpointLocalise.UpdateEndpointsForMigration | admiral/pkg/controller/util/migration.go:13-64 | On a copy: the ingress endpoint makes way for the surviving deployment and rollout services; nothing when a service is unknown |
| EndpointLocalise.UpdateEndpointsForBlueGreen | admiral/pkg/clusters/serviceentry.go:1269-1290 | The endpoint object is moved in place to the preview or the active service |
| EndpointLocalise.WriteSwapped | admiral/pkg/clusters/serviceentry.go:574-772 | Swap in place, write, swap back: the written view has the local endpoint, the shared objects afterwards have the ingress address again |
| EndpointLocalise.LocaliseEntry | admiral/pkg/clusters/serviceentry.go:574-772 | All writes and the shared objects after one entry's loop equal the loop on values |
| EndpointLocalise.EntryRestoredExactly | admiral/pkg/clusters/serviceentry.go:574-772 | The shared entry is unchanged by serving a source cluster exactly when no endpoint without an address was swapped in place |
| EndpointLocalise.LocaliseOne | admiral/pkg/clusters/serviceentry.go:574-772 | With addresses everywhere, serving one entry leaves every shared object as it was, even those it shares with other entries |
| EndpointLocalise.LocaliseSource | admiral/pkg/clusters/serviceentry.go:574-772 | The same for all entries of a source cluster in any order, each written from its original values |
| EndpointLocalise.LocaliseAll | admiral/pkg/clusters/serviceentry.go:574-772 | The same over all source clusters, each with its own order of entries: the dependents receive the entries that were built, with remote addresses only |
| EndpointLocalise.LocalisedEntry | admiral/pkg/clusters/serviceentry.go:574-772 | A source cluster is written exactly one localised entry: its ingress endpoint replaced by the local ones (regular, blue/green, canary, weighted, migration), all others in order and remote; none while a migrating service is unknown |
| EndpointLocalise.PlainWriteFirst | admiral/pkg/clusters/serviceentry.go:558-607 | Without a matching endpoint an entry is written only as it is: when it is empty, or when the delete event takes it from a cluster that is not migrating |
| EndpointLocalise.InPlaceWrite | admiral/pkg/clusters/serviceentry.go:609-740 | The last write moves exactly the ingress endpoint, and only its address and ports: to the preview or active service, to the canary for a canary host, else to the local service |
| EndpointLocalise.WeightedWrite | admiral/pkg/clusters/serviceentry.go:686-708 | With several weighted services the last write has exactly the endpoints of other clusters and one per positively weighted service, with its name and weight and the ingress endpoint's locality |
| EndpointLocalise.MigrationWrite | admiral/pkg/controller/util/migration.go:13-64 | While a cluster migrates, the one write has the deployment's service exactly when the deployment runs there and was not deleted, the rollout's likewise, and the unlabelled endpoints of other clusters |
| EndpointLocalise.UnknownServiceWritesNothing | admiral/pkg/clusters/serviceentry.go:709-728 | Nothing is written for a migrating cluster exactly while one of its two services is not known |
| EndpointLocalise.LocalEndpointsAreLocal | admiral/pkg/clusters/serviceentry.go:574-772 | No local endpoint keeps the ingress address, except exactly when a blue/green rollout has neither the wanted nor the active service |
| EndpointFlow.BuiltForLocalising | admiral/pkg/clusters/serviceentry.go:216-772 | What the build loop makes meets what the localise loop needs: every endpoint has an address, exactly one is behind the source cluster's ingress if a cluster there keeps the host, all others are at ingresses of clusters that keep it |
| EndpointFlow.BuiltThenLocalised | admiral/pkg/clusters/serviceentry.go:216-772 | From found clusters to written entries: one localised entry per source cluster that keeps the host, its local endpoints for its own ingress, all others remote; only the plain entry, if any, where no cluster behind the ingress keeps it; the shared entry as built |
| VsMerge.MergeHosts | admiral/pkg/clusters/virtualservice_routing.go:2459-2475 | The custom hosts as they are, duplicates among them included, then each new in-cluster host once |
| VsMerge.MergedHostsMembers | admiral/pkg/clusters/virtualservice_routing.go:2459-2475 | The merged hosts are those of both inputs and no others, the custom ones first and unchanged |
| VsMerge.MergeHostsTwice | admiral/pkg/clusters/virtualservice_routing.go:2459-2475 | Merging the same custom hosts again adds nothing |
| VsMerge.GetHostsDiff | admiral/pkg/clusters/virtualservice_routing.go:2315-2329 | The in-cluster hosts that the custom virtual service lacks |
| VsMerge.ModifyCustomRoutes | admiral/pkg/clusters/virtualservice_routing.go:2377-2432 | Each custom destination that resolves, by route name and then by the host cache, is replaced by the resolved ones, scaled to its weight when it has one |
| VsMerge.DestinationReplaced | admiral/pkg/clusters/virtualservice_routing.go:2377-2456 | In turn each destination of a custom route becomes the destinations of the last in-cluster route named after its host, or else the cache's: unchanged without a weight, one of the same weight, or several of shares truncated toward zero; a host that stands for nothing stays |
| VsMerge.AdjustWeights | admiral/pkg/clusters/virtualservice_routing.go:2436-2456 | A single destination takes the weight, several take their truncated share of it |
| VsMerge.SortRoutes | admiral/pkg/clusters/virtualservice_routing.go:2331-2368 | Missing hosts' routes, then custom routes, then the default routes no custom route is named like |
| VsMerge.MergeVS | admiral/pkg/clusters/virtualservice_routing.go:2263-2311 | The whole merge, composed of the four parts |
| VsMergeLaws.MergedLayout | admiral/pkg/clusters/virtualservice_routing.go:2331-2368 | The three groups in this order, each in its input order, and an in-cluster route dropped exactly when its host is not missing and a custom route has its name |
| VsMergeLaws.MergedRoutes | admiral/pkg/clusters/virtualservice_routing.go:2263-2475 | The routes of the whole merge: in-cluster routes named after hosts the custom virtual service lacks, the custom routes resolved against the in-cluster routes and the cache, then the other in-cluster routes whose name no custom route has |
| VsMergeLaws.MergedHasAllHosts | admiral/pkg/clusters/virtualservice_routing.go:2281-2307 | Every host of both inputs is in the merge and no other |
| VsMergeLaws.LookupInSorted | admiral/pkg/clusters/virtualservice_routing.go:2377-2432 | A host no custom route is named after resolves in the merged routes as before |
| VsMergeLaws.ModifiedAgain | admiral/pkg/clusters/virtualservice_routing.go:2377-2432 | Custom routes named apart from the custom destination hosts are modified the same way against the merged routes |
| VsMergeLaws.LookupInMerged | admiral/pkg/clusters/virtualservice_routing.go:2377-2432 | In the merged routes every host resolves as in the in-cluster routes followed by the modified custom ones |
| VsMergeLaws.ModifiedInMerged | admiral/pkg/clusters/virtualservice_routing.go:2377-2432 | So a second merge modifies the custom routes as against the in-cluster routes followed by the first result |
| VsMergeLaws.SortedAgain | admiral/pkg/clusters/virtualservice_routing.go:2331-2368 | Sorting sorted routes with custom routes of the same names puts the new ones in the old ones' place and inserts a copy of each old one named after a missing host |
| VsMergeLaws.MergeIdempotentExactly | admiral/pkg/clusters/virtualservice_routing.go:2263-2475 | For all inputs: merging into a merged virtual service changes nothing exactly when no custom route is named after a missing host and modifying the custom routes against the in-cluster routes followed by their first results gives these again |
| VsMergeLaws.NamedApartModifiedOnce | admiral/pkg/clusters/virtualservice_routing.go:2377-2432 | The second condition holds whenever custom routes are named apart from the custom destination hosts |
| VsMergeLaws.NamedAfterDestinationMergesDifferently | admiral/pkg/clusters/virtualservice_routing.go:2377-2456 | The second condition can fail alone: a concrete custom route named after its own destination host is scaled once more by a second merge |
| Weights.GetWeightSplits | admiral/pkg/clusters/virtualservice_routing.go:1709-1726 | Fills an array with the even shares |
| Weights.SharesAreFair | admiral/pkg/clusters/virtualservice_routing.go:1709-1726 | The shares of any number of destinations total exactly 100, differ by at most one and do not increase |
| Weights.AddWeights | admiral/pkg/clusters/virtualservice_routing.go:1682-1707 | In place on one list: even shares when two or more destinations have no positive total, nothing otherwise |
| Weights.AddWeightsToRouteDestinations | admiral/pkg/clusters/virtualservice_routing.go:1682-1707 | In place on every list of the map, in any order, each list as if alone |
| Weights.WithSharesTwice | admiral/pkg/clusters/virtualservice_routing.go:1682-1707 | A second pass is a no-op, and the first is one exactly for lists of at most one destination or with a positive total |
| Weights.TotalAfterShares | admiral/pkg/clusters/virtualservice_routing.go:1682-1707 | After the pass two or more destinations total 100 exactly when they did before or had no positive total |
| Weights.ScaledTotal | admiral/pkg/clusters/virtualservice_routing.go:1787-1812 | Weights totalling 100, scaled to a share, total more than share - n and at most the share |
| Weights.ReplacementCarriesTheWeight | admiral/pkg/clusters/virtualservice_routing.go:2436-2456 | A custom destination of weight w replaced by routes totalling 100 carries more than w - n and at most w, exactly w for one route |
| Weights.RouteKeepsItsTotal | admiral/pkg/clusters/virtualservice_routing.go:2377-2456 | A custom route with weighted destinations keeps its total when each is replaced by routes totalling 100, up to less than one for each resulting destination |
| GtpRouting.SplitForShare | admiral/pkg/clusters/virtualservice_routing.go:1787-1812 | The destinations of one policy: local ones scaled to the region's share, the mesh host appended with the rest |
| GtpRouting.SplitAt | admiral/pkg/clusters/virtualservice_routing.go:1787-1812 | Destination by destination: service hosts take the share of their weight truncated toward zero, the whole share when unweighted, 0 at share 0; others and share 100 change nothing; with a service host the mesh host follows on port 80 with the rest |
| GtpRouting.DestinationsForGtp | admiral/pkg/clusters/virtualservice_routing.go:1730-1817 | All hosts and policies: default and environment policies route the host itself, others a prefixed one; preview hosts and nil lists are skipped |
| GtpRouting.OnePolicy | admiral/pkg/clusters/virtualservice_routing.go:1743-1814 | What a policy of each kind makes of one host: the route's name, when there is none, and whether the destinations stay or are split at the weight of the region's last target, 0 without one |
| GtpRouting.RoutesComeFromPolicies | admiral/pkg/clusters/virtualservice_routing.go:1743-1814 | Which route a host name gets: none when no visited host makes one, else the one the last visited host to make one makes by its last such policy |
| GtpRouting.WalkOrderIndependent | admiral/pkg/clusters/virtualservice_routing.go:1743-1814 | The routes do not depend on the order in which the destination map is walked exactly when hosts that make a route under the same name make the same route |
| GtpRouting.SharedRouteNameOrderMatters | admiral/pkg/clusters/virtualservice_routing.go:1743-1814 | A family where it does: when the prefixed name of one host is another host, the one walked last wins |
| GtpRouting.SplitConserves | admiral/pkg/clusters/virtualservice_routing.go:1787-1812 | Nonzero local weights totalling 100 plus the remote remainder total more than 100 - n and at most 100, exactly 100 at the shares 0 and 100, and the mesh host gets exactly the rest |
| GtpRouting.SplitTotal | admiral/pkg/clusters/virtualservice_routing.go:1787-1812 | The total for any local services with non-negative weights, and exactly when it stays at most 100: all weighted with scaled weights within the share, or a single unweighted one with nothing left of the others; the last pass leaves it |
| GtpRouting.UnweightedServiceConserves | admiral/pkg/clusters/virtualservice_routing.go:1787-1812 | A single unweighted local service takes the share itself, so the total is exactly 100 |
| GtpRouting.TwoUnweightedExceed | admiral/pkg/clusters/virtualservice_routing.go:1787-1812 | Two unweighted local services each take the share, so the total exceeds 100 and stays |
| ActivePassive.CalculateDistribution | admiral/pkg/clusters/destinationrule_handler.go:159-210 | The region distribution for an entry and the current rule, branch by branch |
| ActivePassive.GetDestinationRule | admiral/pkg/clusters/destinationrule_handler.go:80-157 | The locality setting of a new destination rule: kept distribution, pinning, and the policy's own settings, in the source's precedence |
| ActivePassive.IsMultiRegion | admiral/pkg/clusters/virtualservice_routing.go:1063-1077 | Multi-region means two endpoints in different localities |
| ActivePassive.WithoutPolicyOnlyTheEntryMatters | admiral/pkg/clusters/destinationrule_handler.go:80-99 | Without a traffic policy neither the cluster's locality nor pinning affects the rule |
| ActivePassive.PolicyOverridesRegion | admiral/pkg/clusters/destinationrule_handler.go:101-156 | Under a traffic policy the rule forgets the active region: neither the current rule nor the feature affects it; without pinning, a policy without targets leaves no setting and a topology policy an empty one |
| ActivePassive.RunFixesRegion | admiral/pkg/clusters/destinationrule_handler.go:159-210 | After any run of updates the rule carries the region of the first one-endpoint entry since the last empty entry, and no region when there is no such entry |
| ActivePassive.FirstSingleEntryWins | admiral/pkg/clusters/destinationrule_handler.go:159-210 | Over non-empty entries the first one-endpoint entry fixes the active region for good |
| ActivePassive.OnlyAnEmptyEntryForgets | admiral/pkg/clusters/destinationrule_handler.go:159-210 | An update keeps a fixed region exactly when its entry is not empty |
| ActivePassive.DistributionKept | admiral/pkg/clusters/destinationrule_handler.go:159-210 | From any distribution: several endpoints keep it whatever it is, a single endpoint keeps only a single one from everywhere, no endpoints drop it |
| ActivePassive.GetCurrentRule | admiral/pkg/clusters/serviceentry.go:3032-3069 | The current rule is the cluster's own, else for source clusters the first one found among the workload's clusters |
| ActivePassive.CurrentRuleIs | admiral/pkg/clusters/serviceentry.go:3032-3069 | The cluster's own rule, else for a source cluster that of the first source cluster that has one, by position, and none for other clusters |
| ActivePassive.RegionSpreads | admiral/pkg/clusters/serviceentry.go:3032-3069 | A region fixed in the first cluster is carried by every cluster updated later, in any order and with any non-empty entries, so long as each finds a rule |
| ActivePassive.DoActivePassive | admiral/pkg/clusters/virtualservice_routing.go:1598-1678 | A failover policy from the cluster's own region to the one active region, exactly for multi-region entries with a one-element distribution that does not name the own region; any of several regions may be picked |
| ActivePassive.FailsOverExactly | admiral/pkg/clusters/virtualservice_routing.go:1598-1678 | A cluster fails over only when multi-region and its rule has one distribution, which does not name the own region, to a region it names with weights 0 and 100; and it does whenever no named region is the empty text |
| ActivePassive.ProcessGtpAndAddWeights | admiral/pkg/clusters/virtualservice_routing.go:1547-1590 | The identity's policy or else the active/passive one is applied to the destination map, then missing weights are shared out |
| ActivePassive.ProcessedHosts | admiral/pkg/clusters/virtualservice_routing.go:1547-1590 | Routes made by the policies join or replace the known hosts, and the last pass changes nothing but weights, list by list |
| ActivePassive.OnlyInClusterFailsOver | admiral/pkg/clusters/virtualservice_routing.go:1547-1590 | An identity's policy always decides; without one, routes between clusters, and all routes when the feature is off, only get missing shares |
| ActivePassive.InClusterTraffic | admiral/pkg/clusters/virtualservice_routing.go:1547-1678 | Once a region is active and there is no policy, a multi-region cluster outside it gives the local services of every non-preview host weight 0 and the mesh host 100; in the active region, for preview hosts and for lists without local services only missing weights are filled in |
| ActivePassive.FirstRegionTakesTheTraffic | admiral/pkg/clusters/virtualservice_routing.go:1547-1678 | Both halves over a run of non-empty entries: the first one-endpoint entry's region keeps its own in-cluster traffic and receives that of every other region of a multi-region workload |
| ActivePassiveRuns.RegionTakesTheTraffic | admiral/pkg/clusters/virtualservice_routing.go:1547-1678 | For all clusters after a linked run that starts with a one-endpoint entry: in its region in-cluster traffic stays local, outside it all goes there |
| ActivePassiveRuns.HistoryForgotten | admiral/pkg/clusters/destinationrule_handler.go:80-157 | Over runs with traffic policies created and deleted in between, nothing before the latest policy, policy deletion or empty entry affects the rule |
| ActivePassiveRuns.RegionAfterReset | admiral/pkg/clusters/destinationrule_handler.go:80-210 | After a policy deletion or an empty entry the remembered region is gone, and the first one-endpoint entry since then fixes it anew |
| ActivePassiveRuns.PinnedRegionStays | admiral/pkg/clusters/destinationrule_handler.go:108-124 | A region pinned under a policy, the other one of us-west-2 and us-east-2, outlives the policy: later entries keep it until a policy deletion or an empty entry |
| ActivePassiveRuns.FailoverLingers | admiral/pkg/clusters/destinationrule_handler.go:133-156 | A failover policy's distribution outlives the policy exactly until the first one-endpoint entry |
| ActivePassiveRuns.FailoverRuleIs | admiral/pkg/clusters/destinationrule_handler.go:133-156 | A failover policy's distribution leads from the cluster's own region to exactly the regions with a nonzero target, each with its last one as an unsigned 32-bit weight |
| Reconcile.Normalise | admiral/pkg/clusters/virtualservice_routing.go:1341-1372 | Sorts routes by name and each route's destinations by host, with sorts that need not be stable: same routes, both orders sorted |
| Reconcile.NormalFormsDecide | admiral/pkg/clusters/virtualservice_routing.go:1341-1372 | Equal normal forms imply equal routes up to order; when names and hosts determine routes and destinations the converse holds however ties fall |
| Reconcile.SharedNameIsAmbiguous | admiral/pkg/clusters/virtualservice_routing.go:47-59 | Two different routes of one name: exchanged, they give another normal form |
| Reconcile.SharedHostIsAmbiguous | admiral/pkg/clusters/virtualservice_routing.go:1357-1366 | Two different destinations of one host in a route: exchanged, they give another normal form |
| Reconcile.DeterminateExactly | admiral/pkg/clusters/virtualservice_routing.go:1341-1372 | All ways the sorts may order ties give the same result exactly when a route name stands for one route up to destination order and, within a route, a host for one destination |
| Reconcile.HttpRoutesMatch | admiral/pkg/clusters/virtualservice_routing.go:1341-1372 | An error exactly for a nil route list; a match only for the same routes up to order, and always for them when they are determinate |
| Reconcile.DoReconcile | admiral/pkg/clusters/virtualservice_routing.go:654-711 | A write is refused only when cached and desired specs are equal up to reordering (gateways only when the desired spec has them), and is refused for every reordering of determinate routes; it fails exactly when the comparison reaches a nil route list |
| Reconcile.OnePartExchanged | admiral/pkg/clusters/virtualservice_routing.go:654-711 | Exchanging one part: a nil list differs from every list, gateways matter only when the desired spec has them, and without routes nothing is the same |
| Reconcile.DistinctNamesDetermine | admiral/pkg/clusters/virtualservice_routing.go:1341-1372 | Distinct route names and, per route, distinct destination hosts make the routes determinate |
| UpdateGuard.GetServiceEntryDiff | admiral/pkg/clusters/serviceentry_handler.go:163-224 | Destructive exactly when an endpoint at an old address differs, an old address is gone, or an exported namespace is gone |
| UpdateGuard.DestructiveExactly | admiral/pkg/clusters/serviceentry_handler.go:163-224 | For any lists: destructive exactly when the last endpoint of some old address is gone or different in the new list, or an exported namespace is gone |
| UpdateGuard.NotDestructiveMeansKept | admiral/pkg/clusters/serviceentry_handler.go:163-224 | With distinct old addresses, not destructive means exactly: every old endpoint reappears, every new endpoint at an old address equals it, and with export enabled the old namespaces are a subset of the new |
| UpdateGuard.ProtectedExactly | admiral/pkg/clusters/serviceentry_handler.go:163-224 | The diff protects an entry's endpoints against every update exactly when no two different endpoints of it share an address |
| UpdateGuard.ValidateEndpoints | admiral/pkg/clusters/serviceentry_handler.go:248-263 | Drops the dummy endpoints and reports whether there were any |
| UpdateGuard.ServiceEntryClient.GuardedUpdate | admiral/pkg/clusters/serviceentry_handler.go:94-112 | A destructive update in the boot window is skipped without an error; otherwise the update is sent, and after a conflict retried on the latest object |
| UpdateGuard.ServiceEntryClient.RetryUpdating | admiral/pkg/clusters/serviceentry_handler.go:123-147 | Up to five tries overwrite the latest object without looking at the diff again |
| UpdateGuard.ServiceEntryClient.AddUpdateServiceEntry | admiral/pkg/clusters/serviceentry_handler.go:40-121 | Create, fall back to an update when the object exists, or update: the stored object and the error in every case, lost requests included |
| UpdateGuard.CallPreserves | admiral/pkg/clusters/serviceentry_handler.go:40-121 | One conflict-free call in the boot window removes and alters no stored endpoint, with export on or off, and no exported namespace when the submission's host takes part in export |
| UpdateGuard.BootWindowPreserves | admiral/pkg/clusters/serviceentry_handler.go:40-121 | Over every conflict-free run in the boot window no endpoint is removed or altered, with export on or off and whatever requests are lost; nor is an exported namespace, when all submissions' hosts take part in export |
| UpdateGuard.CurrentCallWritesExactly | admiral/pkg/clusters/serviceentry_handler.go:89-112 | A call on the current object writes the submission exactly when all its endpoints are known and the guard does not hold it back |
| UpdateGuard.NewEntryCreated | admiral/pkg/clusters/serviceentry_handler.go:40-88 | An entry that does not exist is created with the known endpoints of the submission, exactly when there are any and the request is not lost |
| UpdateGuard.ExistingEntryUpdated | admiral/pkg/clusters/serviceentry_handler.go:66-121 | A create that meets an object goes on as if the caller had its copy, only when all endpoints are known; if the object cannot be read the call fails, unless the blank version passes for a conflict |
| UpdateGuard.DeletedEntryStaysAway | admiral/pkg/clusters/serviceentry_handler.go:89-147 | An entry deleted meanwhile is not created again by an update, which fails |
| UpdateGuard.ConflictBypassesGuard | admiral/pkg/clusters/serviceentry_handler.go:123-147 | With a stale copy a retry replaces the stored object without comparing with it, unless all five are lost: so conflict-freedom is needed |
| FilterRecord.RoutingPolicyService.CreateOrUpdateEnvoyFilters | admiral/pkg/clusters/envoyfilter.go:41-120 | Each version's filter is recorded under the policy's key, then written unless refused; fails exactly for an empty version list or an unanswered request |
| FilterRecord.PutAdds | admiral/pkg/clusters/envoyfilter.go:88-98 | Putting on record adds one filter of one cluster under one key, in the filters' namespace, and changes nothing else |
| FilterRecord.RoutingPolicyService.ProcessAddOrUpdate | admiral/pkg/clusters/routingpolicy_handler.go:39-74 | Exactly the filters of the enabled clusters, their dependents and all versions are recorded and written, and errors are collected |
| FilterRecord.RoutingPolicyService.Delete | admiral/pkg/clusters/routingpolicy_handler.go:115-152 | Every recorded filter in an enabled cluster is deleted; the record goes only when all deletions were answered and the cache may change |
| FilterRecord.StepKeepsInv | admiral/pkg/clusters/routingpolicy_handler.go:39-152 | Each add, update or delete keeps: every living filter is recorded under its policy's key |
| FilterRecord.RunKeepsInv | admiral/pkg/clusters/routingpolicy_handler.go:39-152 | The same over every run with a fixed set of enabled clusters, whatever requests fail |
| FilterRecord.DeleteLeavesNone | admiral/pkg/clusters/routingpolicy_handler.go:115-152 | A deletion succeeds exactly when each recorded filter lives and each request is answered; then none of the policy's filters is left; a failing one keeps the record |
| FilterRecord.DeletableExactly | admiral/pkg/clusters/routingpolicy_handler.go:115-152 | A deletion can succeed at all exactly when no recorded filter is missing |
| FilterNames.StepKeepsNames | admiral/pkg/clusters/routingpolicy_handler.go:39-152 | Each add, update or delete keeps: whatever is recorded under a key is named after a policy with that key |
| FilterNames.RunKeepsNames | admiral/pkg/clusters/routingpolicy_handler.go:39-152 | The same over every run |
| FilterNames.DeleteSparesOthers | admiral/pkg/clusters/routingpolicy_handler.go:115-152 | When no two policies share a record key or filter names, a deletion leaves every other policy's filters alone |
| FilterNames.RunSparesOthers | admiral/pkg/clusters/routingpolicy_handler.go:39-152 | So does each deletion in every run from an empty system |
| FilterNames.CollisionDeletes | admiral/pkg/clusters/routingpolicy_handler.go:39-152 | For any two different policies that share a record key, or plugin and digested text, a run of two writes and a deletion takes the other's filter away |
| FilterNames.SparedExactly | admiral/pkg/clusters/routingpolicy_handler.go:39-152 | Every deletion in every run over a set of policies leaves the other policies' filters alone exactly when no two different policies of it share a record key, or plugin and digested text |
| FilterNames.ConcatenationsCollide | admiral/pkg/clusters/envoyfilter.go:44-93 | Both kinds of collision occur: name and identity concatenate alike into one record key, name and environment into one digested text |
| FilterNames.CollidingKeysDeleteOthers | admiral/pkg/clusters/routingpolicy_handler.go:121-150 | With one record key, a successful deletion of the one policy takes all filters of the other |
| FilterRecord.PartialDeleteSticks | admiral/pkg/clusters/routingpolicy_handler.go:138-150 | A failing deletion that deleted something, or a successful one that may not change the record, leaves a recorded filter missing |
| FilterRecord.StuckForGood | admiral/pkg/clusters/routingpolicy_handler.go:115-152 | From then on, over any run of deletions, every deletion of that policy fails |
| GtpOrder.WeakOrderExactly | admiral/pkg/controller/common/common.go:642-666 | The comparator is a strict weak order on a list exactly when no policy without an update time contradicts, by its creation time, two that have one |
| GtpOrder.UniformIsOrdered | admiral/pkg/controller/common/common.go:642-666 | It is one when, per priority, all policies have an update time or none has |
| GtpOrder.MaximalMeans | admiral/pkg/controller/common/common.go:642-666 | A maximum has the highest priority and, within it, the latest time |
| GtpOrder.BeforeMeans | admiral/pkg/controller/common/common.go:642-686 | The comparator in plain terms: a missing priority counts as 0, a larger one comes first, then the update time that is longer or has the larger byte at the first difference, or the creation time when one has none |
| Ordering.LessAtFirstDifference | admiral/pkg/controller/common/common.go:642-666 | The text comparison behind it is decided at the first difference of the two texts: where one ends or has the smaller byte |
| GtpOrder.PickIndependentOfOrder | admiral/pkg/clusters/serviceentry.go:1210-1247 | When the top candidates are one policy, the pick does not depend on the order clusters are visited in; ties below the top do not matter |
| GtpOrder.CanPickExactly | admiral/pkg/clusters/serviceentry.go:1210-1247 | The possible picks are the maxima when the times agree, and otherwise, as the sort then promises a permutation only, all candidates |
| GtpOrder.PickDeterminedExactly | admiral/pkg/clusters/serviceentry.go:1210-1247 | The pick is determined exactly when the times agree and the top candidates are one policy |
| GtpOrder.GlobalTrafficCache.Update | admiral/pkg/clusters/serviceentry.go:1210-1247 | No policies empty the cache (unless the workload data update fails); otherwise a named candidate is cached, a maximum whenever the times agree; on failure the cache stays |
| GtpOrder.MixedPoliciesCycle | admiral/pkg/controller/common/common.go:642-666 | Three policies of one priority, one without an update time, can each come before another: no maximum exists and the comparator is no order |

## Left out

- Operator and state-syncer modes, read-only clients, YAML and protobuf encodings, logging, metrics and back-off times: they add branches or waiting, not properties. Reading, parsing and network results are parameters.
- Nil guards at the start of most functions, which return an error before anything is done.
- float32 rounding in weight scaling: divisions are exact and then truncated. 32-bit overflow of weight totals is not modelled either.
- Text comparison of resource versions: versions are numbers in their natural order.
- `LeaseProtocol.MutualExclusion`: a check is one atomic step and pods share one clock; clock skew between pods is not modelled.
- `WorkQueueRuns.VersionsNeverDecrease`: one worker, events of an object queued in increasing version, and the traffic-config delegator; item status updates and other delegators are not modelled.
- `AllocatorProtocol.AnswersAreInjective`: lookups while address generation is switched off return no address and are not counted as answers.
- The second exit of the shard's write worker that reports an entry twice (admiral/pkg/clusters/serviceentry.go:1643-1646): writing one identity is one step with one outcome.
- `LeaseCheck.LeaseTable.Scan`: the source unmarshals every scanned item into one reused struct, so an attribute missing from an item would carry over from the item before; here every item has all its attributes.
- Building the entries of weighted and canary rollouts, and the caches filled in the same loop: `EndpointBuild` takes each workload's hosts, services and ports as given.
- `EndpointLocalise.LocalisedEntry`: labels other than the application type, and failed writes, which do not change the shared entries.
- `Reconcile.DoReconcile`: the TLS route comparator of ingress virtual services, route fields other than name and destinations, and destination fields other than host, port and weight. Nil and empty lists are told apart as given; the copies the source compares may have turned empty lists into nil ones (their cloning code is not part of this model), and an empty desired route list then fails like a nil one.
- `ActivePassive.ProcessGtpAndAddWeights`: works on destination values; the in-place pass over shared destination objects is `Weights.AddWeightsToRouteDestinations`. A failing policy lookup, which ends the call, is left out.
- `ActivePassive.RegionSpreads`: the destination rule of the default host only; rules of traffic-policy prefixes, outlier detection, connection pools and warm-up durations are not modelled.
- `UpdateGuard.BootWindowPreserves`: conflict-free calls only, since a retry after a conflict passes the guard by; deletions of whole entries, and labels and annotations, are not modelled.
- `FilterRecord.RunKeepsInv`: additions, updates and deletions of policies do not overlap in time, and the set of enabled clusters is fixed. Digests are taken to be injective; filter contents are not modelled.
- `GtpOrder.GlobalTrafficCache.Update`: the preferred region for split-brain prevention, and parsing the priority label; a label that is missing or not a number counts as 0.
- Caches of deployments, rollouts, services, jobs, outlier detection and client connections, dependency processing and the registry: they would only add easy members.
