# OpenELB, modelled and verified in Dafny

OpenELB hands out load-balancer addresses from pools (`Eip`) and announces them from every node. This
project models its state machines and its arithmetic and proves what they promise, over every input,
every run and every interleaving. `dafny verify dfyconfig.toml` checks everything.

| module | what it models |
|---|---|
| `Basics`, `Net`, `Ranges` | addresses as bytes and as integers; one pool address read by the controller and by the speaker |
| `Owners`, `Ipam`, `EipObject` | owner lists joined with ";", a pool as a value, and the pool object changed in place |
| `Store`, `Integrity`, `Recovery`, `Departure` | the cluster as a state machine, its writes and its admission, and what a reconcile achieves in it |
| `Reconciler`, `Cluster`, `Witnesses` | the reconciler and whole runs over stored pools with joined owner lists, and runs in which promises fail |
| `IdAlloc`, `NameOrder`, `Vip`, `RouteAgreement` | the growing bitmap allocator, the VIP speaker on top of it, and whether nodes agree on identifiers |
| `SpeakerManager` | pool events turned into announcements, incrementally and with retries |
| `Election`, `Layer2` | the layer-2 election as a protocol of the cluster, and the announcers of one node |
| `Bgp` | route updates, one path at a time |

Main results:

- **Whole-run safety** (`Store.ReachableInv`): in every run that interleaves reconciles of different
  services, the pool controller, admission, users and crashes between writes, no service owns two
  addresses among the pools that are not being deleted, no owner list repeats a service, every pool status
  is truthful, pools are disjoint as `IsOverlap` sees them and at most one is the default.
  `Cluster.Execute` carries every run to the stored pools with their joined strings.
- **Recovery and fixpoint** (`Recovery.ReconcileRecovers`, `Recovery.ReconcileIsFixpointIff`,
  `Departure.ReconcileReleasesIff`): from every reachable store a reconcile of a managed service that
  succeeds among quiet events settles the service, and the next one asks for nothing if and only if the
  request can be satisfied. One that cannot assign leaves no stale address behind
  (`Departure.FailedAssignmentClears`). Whatever writes are refused, a pass succeeds if and only if the
  service is content, or its pool has a family it accepts and an address to give once the old record is
  released, and every write that changes something is accepted (`Reconciler.PassSucceedsIff`, for an
  unmanaged service `Reconciler.ReleasePassSucceedsIff`). Managed and unmanaged are stated on the service's
  own fields. `Reconciler.ServiceReconciler.Reconcile` delivers this on the stored pools themselves.
- **No lost update** (`Integrity.NoLostUpdate`): in every reachable state a reconcile writes label or status
  only onto the service it read.
- **Allocator and VIP index** (`Vip.KeepAlived.SetBalancer`, `Vip.FullIff255`): the set bits are exactly
  identifier 0 and the identifiers of live instances, whatever fails. An address with an interface is
  announced unless its instance is new while 255 are live or the configuration cannot be written.
- **Incremental is from scratch, and retry is harmless** (`SpeakerManager.FollowsFromScratch`,
  `SpeakerManager.RetryReachesGoal`): over disjoint pools whose addresses have nodes, each speaker announces
  the addresses of the pools whose `spec.protocol` it serves.
- **At most one announcer** (`Election.AtMostOneAnnouncer`) with stale and different views on every node,
  while members only leave; when one leaves, the next in rank takes over (`Election.FailOver`).
- **Controller and speaker agree** (`Ranges.ReadingsAgree`) on start and size of every pool address both
  accept with fewer than 2^63 addresses, and on its contents within the pool's family. For a CIDR block
  these are the aligned block of 2^(width - ones) addresses around the address written
  (`Ranges.CidrBlock`, `Ranges.CidrRange`), for a span the two ends (`Ranges.SpeakerReads`).
- **Make before break** (`Bgp.BgpSpeaker.SetBalancer`), unless path identifiers stand in the way.

Some promises are false of the code as it stands. Each has a lemma that says exactly when it holds:

- Hash probing reaches every identifier if and only if there are at most 2^31 of them: `IdAlloc.ProbingCoversIff`.
- `GetSize` gives the true size if and only if it is below 2^63, for a CIDR block at most 62 host bits;
  among addresses of the pool's own family controller and speaker contain the same if and only if it is at
  most 2^63: `Ranges.ReadingsAgree`, `Ranges.CidrFitsIff`. A CIDR pool with more than 63 host bits does not overlap
  itself, so it can be created twice: `Ranges.CidrOverlapsItselfIff`.
- `Eip.Contains` compares integers and not families: 10.0.0.0/24 contains `::a00:5` for the controller and
  not for the speaker (`Ranges.OtherFamilyContained`). Over all addresses the two contain the same if and
  only if the size is at most 2^63 and the pool is an IPv6 pool that starts at 2^32 or above:
  `Ranges.ContentsAgreeIff`.
- `IPToOrdinal` compares integers cut to 64 bits and not families, so every pool with an address accepts
  a foreign one: 10.0.0.0/24 accepts `::a00:5`, and an IPv6 pool an address 2^64 away. An accepted address
  is foreign if and only if its family differs or it lies a non-zero multiple of 2^64 away:
  `Ranges.OrdinalAcceptsIff`, `Ranges.EveryPoolAcceptsForeign`. The address given is the address asked for
  if and only if it lies in the pool: `Ipam.RequestedChoice`.
- Releasing the last owner frees the address if and only if the list does not repeat it:
  `Ipam.ReleaseFreesIff`. `Store.ReachableInv` shows that lists never do.
- A reconcile reaches a fixpoint if and only if no address is wanted or a canonically written one of
  the pool's own: `Recovery.ReconcileIsFixpointIff`. In a run for every pool and every address of it,
  another spelling asks again after any number of accepted passes: `Witnesses.OddSpellingAsksForever`.
- Nodes that learn of the VRRP instances in different orders give each the same router identifier if and
  only if no two instances have the same home, the first identifier probed or 1 if that is 0:
  `RouteAgreement.OrderIrrelevantIff`. One set of nodes announcing on two interfaces is enough to disagree:
  `RouteAgreement.TwoInterfacesDisagree`.
- A service that `needRelease` wants released is released by a successful reconcile if and only if it has
  annotations or had nothing to release: `Departure.ReconcileReleasesIff`. `ConstructRequest` returns an
  empty request for nil annotations (pkg/controllers/ipam/ipam.go:204) before `needRelease` is asked
  (pkg/controllers/ipam/ipam.go:261), and a labelled service is still reconciled:
  `Witnesses.UnannotatedKeepsAddress`.
- `HandleEIP` takes a deleting pool that it does not hold for a new one (pkg/speaker/manager.go:127-135), so
  a second event for a deleting pool announces its addresses again:
  `SpeakerManager.SecondDeletionResurrects`. Over disjoint pools one event leaves the announcements as last
  reported if and only if it brings back no address of a deleted pool and all other new addresses have nodes:
  `SpeakerManager.AnnouncesReportedIff`.
- Announcements stay in step with the held pools, overlapping or not, if and only if no address falls out:
  one withdrawn while another pool of the protocol uses it is announced again at once, and one newly
  announced has a node or stays announced for another pool: `SpeakerManager.EventInStepIff`. Over disjoint
  pools that means that new addresses have nodes (`SpeakerManager.StaysInStepIff`), for a deletion that no
  other pool of the protocol shares an address (`SpeakerManager.DeletionInStepIff`).
- A candidate joining a cluster with one announcer leaves a single announcer if and only if it ranks behind the present
  one, because a loser does not withdraw however often nodes resync: `Election.JoinKeepsSingleIff`.
- The speaker refuses a CIDR block exactly if one end alone is an IPv4-mapped address, as it does `::/80`:
  `Ranges.CidrAcceptedIff`.
- A route update ends with exactly the wanted next hops if and only if no path identifier stands in the
  way: `Bgp.EndsExactIff`. In a table that only the speaker writes this means that identifiers do not
  collide: `Bgp.KeyedUnhinderedIff`.
- Reply entries stay inside registered ranges after a pool's range changes if and only if no entry
  depended on the old range: `Layer2.RenewedRangeIff`.

Where code and comments disagree the model follows the code: CIDR ranges include network and broadcast
addresses (pkg/util/iprange/parse.go:92-93), although the comment at pkg/util/iprange/parse.go:20 says
they do not; a digest does not always give the same identifier (pkg/util/idalloc/idalloc.go:70-72), it
gives the first free one in probing order.

Modelling decisions. Store reads are up to date, but a service and the pools are read at different
times, and `syncEip` sees each service at its own moment. Every write is atomic, because a changed object
refuses it, and may fail; `version` says when a service has changed since it was read. An empty status is
read as a nil list, which an empty list made by a release does not equal, so it is written. One service
key is never reconciled by two workers at once. Address texts are taken as parsed: a text is empty, not an address, or one of
several spellings of an address, of which spelling 0 is canonical. Service keys are "namespace/name" as
Kubernetes allows them: one "/" and no ";". A machine word is the row of its bits. SHA-256, FNV and the choice of a
default pool are parameters; injectivity is required only of the finitely many inputs named in a lemma.
Map iteration and list order are open choices. Which calls of the API server, the BGP server and
the speakers fail is a parameter. Objects that no two owners share (VRRP instances, pools
in the store) are values in maps.

## Model

| member | source | states |
|---|---|---|
| `Net.BigOfDigits` | pkg/util/net/ip.go:103-114 | filling a byte buffer and reading it back gives the integer, for every value that fits |
| `Net.DigitsOfBig` | pkg/util/net/ip.go:95-101 | reading bytes and filling a buffer of the same length gives the bytes |
| `Net.CompareIsOrder` | pkg/util/iprange/range.go:60-63 | byte-wise comparison of equally long addresses is integer comparison |
| `Net.MappedValue` | pkg/util/net/ip.go:95-101 | exactly the IPv4-mapped block collapses to 32-bit integers |
| `Net.OfInjective` | pkg/util/net/ip.go:95-101 | two parsed addresses that print alike are the same bytes |
| `Net.IncrementIs` | pkg/util/net/ip.go:116-120 | incrementing overflows the buffer exactly at the end of the family and otherwise adds to the address |
| `Ranges.RangeShape` | pkg/util/iprange/range.go:35-43 | a range the speaker accepts has two ends of one family, in order |
| `Ranges.BlockFits` | pkg/util/iprange/parse.go:86-94 | the last address of a CIDR block fits the address width |
| `Ranges.ContainsIsInterval` | pkg/util/iprange/range.go:60-96 | `Contains` is membership in the integer interval within the range's own family |
| `Ranges.SizeIsSpan` | pkg/util/iprange/range.go:66-105 | both `Size` formulas are last minus first plus one |
| `Ranges.SizeCountsContained` | pkg/util/iprange/range.go:60-105 | counting up from the start meets every contained address exactly once in `Size` steps |
| `Ranges.CidrBlock` | api/v1alpha2/eip_types.go:78-83 | for the controller a CIDR block starts at a multiple of 2^(width - ones), has that many addresses cut to 64 bits, and the address before the slash is among the true ones |
| `Ranges.CidrRange` | pkg/util/iprange/parse.go:86-94 | the speaker's range of a CIDR block starts where the controller's does, has exactly 2^(width - ones) addresses and contains the address before the slash |
| `Ranges.CidrAcceptedIff` | pkg/util/iprange/parse.go:86-94 | a CIDR block is accepted exactly unless one end alone is IPv4-mapped |
| `Ranges.V4CidrAccepted` | pkg/util/iprange/parse.go:86-94 | every IPv4 block is accepted by controller and speaker |
| `Ranges.SpeakerReads` | pkg/util/iprange/parse.go:53-83 | a single address is a range of its own; a span is accepted exactly if its ends are of one family and in order, and runs between them |
| `Ranges.ControllerReads` | api/v1alpha2/eip_types.go:72-101 | what the speaker accepts with at most 2^63 addresses the controller accepts; a span starts at its first address |
| `Ranges.SameStart` | api/v1alpha2/eip_types.go:72-101 | `GetSize` starts where `ParseRange` starts, and its size is the true size cut to 64 bits |
| `Ranges.ReadingsAgree` | api/v1alpha2/eip_types.go:72-101 | controller and speaker start alike; sizes are equal exactly below 2^63, contents within the pool's own family exactly up to 2^63 |
| `Ranges.ContentsAgreeIff` | api/v1alpha2/eip_types.go:177-182 | over addresses of both families the contents are the same exactly when the size is at most 2^63 and the pool is IPv6 and starts at 2^32 or above |
| `Ranges.OtherFamilyContained` | api/v1alpha2/eip_types.go:177-182 | every pool that starts below 2^32, so every IPv4 pool, contains for the controller only an address of the other family |
| `Ranges.CidrFitsIff` | api/v1alpha2/eip_types.go:78-83 | a CIDR pool fits exactly when it has at most 62 host bits |
| `Ranges.CidrOverlapsItselfIff` | api/v1alpha2/eip_types.go:163-175 | a CIDR pool is seen to overlap itself exactly when it has at most 63 host bits |
| `Ranges.BlockOfFormed` | api/v1alpha2/eip_types.go:72-101 | every accepted address is a block without addresses or one of canonical addresses, the latter if it fits |
| `Ranges.BlockReads` | api/v1alpha2/eip_types.go:40-52 | ordinal and `Contains` on bytes are the block's ordinal and cover |
| `Ranges.BlockContains` | api/v1alpha2/eip_types.go:177-182 | the speaker's `Contains` is membership in the block |
| `Ranges.BlockCounts` | pkg/util/net/ip.go:116-120 | counting up inside a pool never overflows and meets the block's addresses |
| `Ranges.OrdinalInverse` | api/v1alpha2/eip_types.go:40-52 | inside a pool ordinal and counting up are inverse |
| `Ranges.OrdinalAcceptsIff` | api/v1alpha2/eip_types.go:40-52 | an address is accepted exactly when its distance cut to 64 bits is below the size; an accepted one is foreign exactly when its family differs or it is a non-zero multiple of 2^64 away |
| `Ranges.EveryPoolAcceptsForeign` | api/v1alpha2/eip_types.go:45-48 | every pool with an address accepts a foreign canonical one |
| `Ranges.OwnFamilyExactIff` | api/v1alpha2/eip_types.go:45-48 | among addresses of its own family a pool accepts only its own exactly when it is IPv4 |
| `Ranges.OverlapReads` | api/v1alpha2/eip_types.go:163-175 | `IsOverlap` on accepted pools is overlap of the blocks |
| `Ranges.OverlapsIff` | api/v1alpha2/eip_types.go:163-175 | pools that cover a common integer overlap, and sound pools only then |
| `Owners.SplitOfJoin` | pkg/controllers/ipam/ipam.go:131-144 | split undoes join for keys without the separator |
| `Owners.JoinOfSplit` | pkg/controllers/ipam/ipam.go:131-144 | join undoes split on every string |
| `Owners.SplitAppend` | pkg/controllers/ipam/ipam.go:115 | appending ";key" appends the key to the list |
| `Owners.RemoveString` | pkg/util/util.go:25-33 | the list without every occurrence of the string, in order |
| `Owners.WithoutNoDuplicates` | pkg/util/util.go:25-33 | removal keeps a list free of duplicates and takes out at most one entry |
| `Ipam.UsageBound` | pkg/controllers/ipam/ipam.go:100-121 | usage never exceeds the pool and reaches it exactly when every address is used |
| `Ipam.LeastFreeIs` | pkg/controllers/ipam/ipam.go:100-121 | the offset loop finds the least free offset or none is free |
| `Ipam.AutomaticChoice` | pkg/controllers/ipam/ipam.go:82-121 | without a requested address the lowest free one is taken, refused exactly when the pool is occupied |
| `Ipam.RequestedChoice` | pkg/controllers/ipam/ipam.go:91-118 | the requested address is given if and only if it lies in the pool |
| `Ipam.ChoiceMadeIff` | pkg/controllers/ipam/ipam.go:74-121 | an address is given exactly when the pool is usable, initialised, and not full or accepting the wanted address |
| `Ipam.AssignKeeps` | pkg/controllers/ipam/ipam.go:69-122 | assigning keeps the pool status truthful |
| `Ipam.AssignOwners` | pkg/controllers/ipam/ipam.go:100-118 | the service joins the chosen address and no other record changes |
| `Ipam.ReleaseKeeps` | pkg/controllers/ipam/ipam.go:125-149 | releasing keeps the pool status truthful |
| `Ipam.ReleaseOwners` | pkg/controllers/ipam/ipam.go:130-148 | exactly that service leaves, and an address is freed exactly with its last owner |
| `Ipam.ReleaseFreesIff` | pkg/controllers/ipam/ipam.go:137-145 | the last owner's release frees the address if and only if the list does not repeat it |
| `Ipam.UpdateKeeps` | pkg/controllers/ipam/controller.go:108-154 | initialising and pruning keep the status truthful and remove exactly the dead owners |
| `EipObject.DecodedInjective` | pkg/controllers/ipam/ipam.go:448 | stored pools are equal exactly when their decoded values are |
| `EipObject.Eip.AlreadyOwns` | pkg/controllers/ipam/ipam.go:82-89 | finds whether the service already owns the address it asks for |
| `EipObject.Eip.AssignIP` | pkg/controllers/ipam/ipam.go:69-122 | the object with joined strings does what the pool value does, and returns its choice |
| `EipObject.Eip.ReleaseIP` | pkg/controllers/ipam/ipam.go:125-149 | in any map order, the joined strings refine the released pool value |
| `EipObject.SyncOwners` | pkg/controllers/ipam/controller.go:125-143 | keeps exactly the living owners in order; fails exactly when a read fails |
| `EipObject.Eip.SyncEip` | pkg/controllers/ipam/controller.go:122-154 | rebuilds the map from living owners; a failed read leaves it alone |
| `EipObject.Eip.UpdateEip` | pkg/controllers/ipam/controller.go:108-120 | writes the size once and synchronises, as the pool value says |
| `Store.PlanKeeps` | pkg/controllers/ipam/ipam.go:203-258 | planning plans to release every record of the service |
| `Store.ReleaseStepKeeps` | pkg/controllers/ipam/ipam.go:458-480 | after a release, failed writes included, the run invariant holds and nothing is recorded |
| `Store.AssignedRecords` | pkg/controllers/ipam/ipam.go:421-456 | an assignment adds one record and changes no other service's |
| `Store.AssignStepKeeps` | pkg/controllers/ipam/ipam.go:421-456 | after an assignment, failed writes included, the run invariant holds |
| `Store.AssignRespectsFamily` | pkg/controllers/ipam/ipam.go:433-440 | only an address of an accepted family is recorded; `Reconciler.AssignOutcome` is the converse |
| `Store.AdmitKeeps` | api/v1alpha2/eip_types.go:188-254 | a pool that passes validation keeps pools disjoint and the default unique |
| `Store.CreateKeeps` | api/v1alpha2/eip_types.go:188-198 | admitted creation keeps the run invariant |
| `Store.EditKeeps` | api/v1alpha2/eip_types.go:256-275 | admitted updates keep the run invariant |
| `Store.PoolControllerKeeps` | pkg/controllers/ipam/controller.go:95-105 | the pool controller's write and the start of a deletion keep the run invariant |
| `Store.StepKeeps` | pkg/controllers/lb/controller.go:163-261 | every event keeps the run invariant |
| `Store.ReachableInv` | pkg/controllers/lb/controller.go:163-239 | in every reachable state: one address per service among pools not being deleted, no duplicate owners, truthful pools, no overlap, one default |
| `Store.ReachablePoolTruthful` | pkg/controllers/ipam/ipam.go:100-149 | in every reachable state: used inside the pool, usage exact and within the pool, occupied exactly when all is used |
| `Integrity.NoLostUpdate` | pkg/controllers/lb/controller.go:241-261 | in every reachable state a label or status write changes the service only if it is the one that was read, and only in label or status |
| `Integrity.CreateAdmittedIff` | api/v1alpha2/eip_types.go:188-254 | a pool is admitted among pools with addresses if and only if it shares no integer with one of them and is not a second default, and is created empty |
| `Integrity.EditAdmittedIff` | api/v1alpha2/eip_types.go:256-275 | an update is refused exactly if it makes a second default, and changes only the two marks |
| `Integrity.PoolLife` | pkg/controllers/ipam/controller.go:79-86 | under every event a pool keeps its block, is marked as deleting once and for all, and goes only marked |
| `Integrity.NamesGiveKeys` | pkg/controllers/ipam/ipam.go:131-144 | every namespace and name give a service key |
| `Recovery.ListOrderIrrelevant` | pkg/controllers/ipam/ipam.go:308-329 | the pool found for a requested address does not depend on the list order |
| `Recovery.CoveringPoolFound` | pkg/controllers/ipam/ipam.go:308-329 | the pool that covers the address is found, or refused if it is unusable |
| `Recovery.PlanTarget` | pkg/controllers/ipam/ipam.go:230-257 | a managed service is planned into the pool it resolves to, releasing what was found, and asks for nothing exactly if it is content |
| `Recovery.PlanByNamespace` | pkg/controllers/ipam/ipam.go:230-286 | a service that names neither pool nor address is planned into the pool of its namespace, and without one only loses what it has |
| `Recovery.PlanUncovered` | pkg/controllers/ipam/ipam.go:308-329 | a service whose wanted address no usable pool covers only loses what it has |
| `Recovery.TrackStep` | pkg/controllers/lb/controller.go:185-261 | a reconcile stays on course through every quiet event and settles the service when it succeeds |
| `Recovery.ReconcileRecovers` | pkg/controllers/lb/controller.go:185-261 | from any reachable store, crashes included, success leaves the status equal to the one recorded address |
| `Recovery.NextPlanEmptyIff` | pkg/controllers/ipam/ipam.go:185-201 | a settled service asks for nothing if and only if its request is satisfiable |
| `Recovery.ReconcileIsFixpointIff` | pkg/controllers/ipam/ipam.go:185-258 | after a successful reconcile the next asks for nothing if and only if the request is satisfiable |
| `Departure.NoRecordAppears` | pkg/controllers/ipam/ipam.go:69-149 | only an assignment to a service itself can record it |
| `Departure.DeparturePlan` | pkg/controllers/ipam/ipam.go:224-228 | an annotated service that is deleted, no load balancer or not OpenELB's is released unless it is unrecorded with an empty status |
| `Departure.ReconcileReleasesIff` | pkg/controllers/ipam/ipam.go:203-228 | success leaves a service that is unannotated, deleted, no load balancer or not OpenELB's unrecorded with an empty status if and only if it has annotations or was so already, and without a label when it writes the status; the next reconcile asks for nothing |
| `Departure.FailedAssignmentClears` | pkg/controllers/lb/controller.go:213-222 | when an assignment fails and the service writes go through, the service is recorded nowhere with an empty status |
| `Reconciler.ServiceReconciler.Reconcile` | pkg/controllers/lb/controller.go:163-239 | one pass over stored pools keeps the run invariant, reports success exactly when its events succeed, and then a service with annotations is settled if it is a live OpenELB load balancer that resolves and released if it is not one |
| `Reconciler.PassKeeps` | pkg/controllers/lb/controller.go:163-239 | a pass with any failing writes keeps the run invariant |
| `Reconciler.PassAchieves` | pkg/controllers/lb/controller.go:163-239 | a successful pass settles a live OpenELB load balancer with annotations that resolves, and releases any other service exactly if it has annotations or was released |
| `Reconciler.ReleaseOutcome` | pkg/controllers/ipam/ipam.go:458-480 | a planned release stops the pass exactly if it changes the pool and is refused, and otherwise clears label and status |
| `Reconciler.AssignOutcome` | pkg/controllers/ipam/ipam.go:421-456 | an assignment goes through if and only if the pool exists, is of an accepted family, has an address to give and a changed pool is accepted; then the address is recorded and label and status name it |
| `Reconciler.PassSucceedsIff` | pkg/controllers/lb/controller.go:185-238 | for every choice of refused writes a pass succeeds if and only if the service is content, or the pool, once the old record is released, has an accepted family and an address to give and every needed write is accepted |
| `Reconciler.ReleasePassSucceedsIff` | pkg/controllers/lb/controller.go:185-238 | a pass of an unmanaged service succeeds if and only if it is unannotated, already released, or every needed write is accepted |
| `Reconciler.ReleasedCopy` | pkg/controllers/ipam/ipam.go:469-470 | the copied pool object decodes to the released pool value |
| `Reconciler.AssignedCopy` | pkg/controllers/ipam/ipam.go:442-443 | the copied pool object decodes to the assigned pool value and returns its choice |
| `Cluster.Cluster.Apply` | pkg/controllers/lb/controller.go:163-261 | every event on the stored pools is the step of the state machine on the decoded ones and keeps the run invariant |
| `Cluster.Execute` | pkg/controllers/ipam/controller.go:95-154 | every run of events on joined strings decodes to the run of the state machine |
| `Cluster.UpdatedCopy` | pkg/controllers/ipam/controller.go:95-105 | the copied pool object decodes to the updated pool value |
| `Witnesses.OddSpellingAsksForever` | pkg/controllers/ipam/ipam.go:185-201 | for every pool, address, other spelling and n there is a run of n accepted passes, each settling the service, after which the next plan is not empty |
| `Witnesses.UnannotatedKeepsAddress` | pkg/controllers/ipam/ipam.go:204-206 | for every pool there is a run in which a service without annotations is reconciled with success and stays recorded |
| `IdAlloc.FirstClear` | pkg/util/idalloc/idalloc.go:57-58 | the first clear bit of a word |
| `IdAlloc.UpdatedBitmap` | pkg/util/idalloc/idalloc.go:91-105 | setting or clearing a bit adds or removes that identifier only |
| `IdAlloc.GrownBitmap` | pkg/util/idalloc/idalloc.go:107-121 | growing does not change the set of identifiers |
| `IdAlloc.StartIsBigEndian` | pkg/util/idalloc/idalloc.go:73-76 | probing starts at the first four bytes of the digest, read as one big-endian integer |
| `IdAlloc.ProbeIsCyclic` | pkg/util/idalloc/idalloc.go:73-78 | up to 2^31 identifiers probing is cyclic order |
| `IdAlloc.ProbingCoversIff` | pkg/util/idalloc/idalloc.go:73-98 | probing visits every identifier if and only if there are at most 2^31 |
| `IdAlloc.IDAllocator.constructor` | pkg/util/idalloc/idalloc.go:31-48 | a new allocator holds exactly identifier 0 |
| `IdAlloc.IDAllocator.Grow` | pkg/util/idalloc/idalloc.go:107-121 | doubles up to the maximum and keeps the set |
| `IdAlloc.IDAllocator.Allocate` | pkg/util/idalloc/idalloc.go:53-68 | grants the least free identifier, refuses exactly when all are taken |
| `IdAlloc.IDAllocator.AllocateWithHash` | pkg/util/idalloc/idalloc.go:73-98 | grants the first free identifier in probing order, refuses exactly when none is free |
| `IdAlloc.IDAllocator.Free` | pkg/util/idalloc/idalloc.go:102-105 | removes exactly that identifier |
| `NameOrder.LeqIsLexicographic` | pkg/speaker/vip/keepalived.go:161-163 | names are ordered by their first difference |
| `NameOrder.SortForgetsOrder` | pkg/speaker/vip/keepalived.go:161-163 | sorting node names forgets the order they came in |
| `Vip.CleanKeeps` | pkg/speaker/vip/keepalived.go:119-143 | cleaning keeps index and allocator consistent and takes the address off its list only |
| `Vip.ForgetKeeps` | pkg/speaker/vip/keepalived.go:181-198 | dropping the mapping of an unlisted address keeps consistency |
| `Vip.PlaceKeeps` | pkg/speaker/vip/keepalived.go:92-109 | listing an unlisted address with a fresh identifier keeps consistency |
| `Vip.FullIff255` | pkg/speaker/vip/keepalived.go:69 | the allocator is full exactly when 255 instances are live |
| `Vip.InstanceIgnoresNodeOrder` | pkg/speaker/vip/keepalived.go:156-168 | the instance does not depend on the order of the node list |
| `Vip.DigestSeparatesNodes` | pkg/speaker/vip/keepalived.go:156-168 | node lists get one digest exactly when they hold the same nodes, if the hash separates the texts |
| `Vip.KeepAlived.GetInterfaces` | pkg/speaker/vip/keepalived.go:146-153 | an interface configured for a range with the address, or none |
| `Vip.KeepAlived.CleanRecord` | pkg/speaker/vip/keepalived.go:119-143 | removes the address from the list, and an emptied instance with its identifier |
| `Vip.KeepAlived.SetBalancer` | pkg/speaker/vip/keepalived.go:76-117 | no interface exactly for an address without a configured one; refused only if its instance is new while 255 are live; a write failure only if the write fails; whatever fails, index and allocator stay consistent and only a refusal leaves a dangling address |
| `Vip.KeepAlived.DelBalancer` | pkg/speaker/vip/keepalived.go:181-198 | the address is listed nowhere and unknown, all others stay |
| `Vip.Drive` | pkg/speaker/vip/keepalived.go:76-198 | any sequence of calls keeps index and allocator consistent |
| `RouteAgreement.ServeAll` | pkg/util/idalloc/idalloc.go:73-98 | the allocator serves instances in order as the grant function says |
| `RouteAgreement.RequestIsHome` | pkg/util/idalloc/idalloc.go:75-94 | an instance gets its home exactly if it is free |
| `RouteAgreement.OrderIrrelevantIff` | pkg/speaker/vip/keepalived.go:92-106 | whatever the order of the instances each gets the same identifier if and only if homes are distinct |
| `RouteAgreement.TwoInterfacesDisagree` | pkg/speaker/vip/keepalived.go:89-94 | the same nodes on two interfaces get identifiers that depend on the order |
| `SpeakerManager.DiffMaps` | pkg/util/util.go:137-154 | the entries whose keys only the new, or only the old, map has |
| `SpeakerManager.EventInStepIff` | pkg/speaker/manager.go:118-177 | over any pools one event keeps announcements in step with the held pools if and only if no address falls out |
| `SpeakerManager.StaysInStepIff` | pkg/speaker/manager.go:118-177 | over disjoint pools one event keeps announcements in step if and only if newly announced addresses have nodes |
| `SpeakerManager.DeletionInStepIff` | pkg/speaker/manager.go:137-145 | a deletion keeps announcements in step if and only if no other pool shares an address |
| `SpeakerManager.HandledAgrees` | pkg/speaker/manager.go:127-173 | the manager holds every pool as last reported and not deleted, and beyond that only pools without addresses, unless a deleted pool with addresses comes back |
| `SpeakerManager.AnnouncesReportedIff` | pkg/speaker/manager.go:118-177 | over disjoint pools one event leaves the announcements as reported if and only if no address of a deleted pool comes back and other new addresses have nodes |
| `SpeakerManager.SecondDeletionResurrects` | pkg/speaker/manager.go:127-145 | handling a deletion twice holds the pool and announces its addresses again |
| `SpeakerManager.FollowsFromScratch` | pkg/speaker/manager.go:118-272 | after any error-free sequence that brings back no deleted pool the layer2 and vip speakers announce the used addresses of the reported, undeleted pools with that `spec.protocol` and the bgp speaker those of all others |
| `SpeakerManager.KeptAddressesStay` | pkg/speaker/manager.go:147-177 | an event that leaves protocol and, unless it is bgp, interface alone never interrupts an address used before and after, failed attempts included |
| `SpeakerManager.PartialKeepsGoal` | pkg/speaker/manager.go:118-177 | a failed attempt does not change where success will end |
| `SpeakerManager.RetryReachesGoal` | pkg/speaker/manager.go:118-177 | retrying until success ends like one error-free call |
| `SpeakerManager.Manager.SetBalancer` | pkg/speaker/manager.go:243-272 | announces the addresses with nodes, or stops between nothing and all |
| `SpeakerManager.Manager.DelBalancer` | pkg/speaker/manager.go:211-222 | withdraws the addresses, or stops between nothing and all |
| `SpeakerManager.Manager.HandleEIP` | pkg/speaker/manager.go:118-177 | success is the whole event, and with nothing failing follows exactly if the speaker of the protocol is registered; it leaves each speaker with the addresses of the pools it serves by `spec.protocol` exactly if nothing was lost; failure leaves a state from which a retry ends the same |
| `SpeakerManager.Manager.HandleUntilSuccess` | pkg/speaker/manager.go:118-177 | retries of the same pool succeed at the latest when nothing fails, and end like one error-free call |
| `Election.BeforeIsRank` | pkg/speaker/layer2/memberlist.go:106-111 | the digest comparison is an order by rank |
| `Election.ElectionIsWinner` | pkg/speaker/layer2/memberlist.go:102-116 | the node sorted first is the one that ranks first, whatever the list order |
| `Election.StepKeeps` | pkg/speaker/layer2/memberlist.go:82-123 | every event keeps announcers the winners among the living |
| `Election.AtMostOneAnnouncer` | pkg/speaker/layer2/memberlist.go:82-123 | in every reachable state at most one node announces an address |
| `Election.ExactlyOneAnnouncer` | pkg/speaker/layer2/memberlist.go:82-123 | with current views and all resynced exactly the winner announces |
| `Election.FailOver` | pkg/speaker/layer2/memberlist.go:82-123 | after a node leaves a settled cluster and each survivor has noticed and resynced, exactly the first in rank of the remaining candidates announces |
| `Election.Withdrawal` | pkg/speaker/layer2/memberlist.go:125-132 | withdrawing on some nodes takes away exactly their announcements of the address |
| `Election.JoinKeepsSingleIff` | pkg/speaker/layer2/memberlist.go:113-117 | a join keeps a single announcer if and only if the newcomer ranks behind, whoever resyncs afterwards |
| `Layer2.RegisterKeeps` | pkg/speaker/layer2/arp_announcer.go:38-40 | registering a pool's range keeps every reply entry inside a range |
| `Layer2.UnregisterKeeps` | pkg/speaker/layer2/arp_announcer.go:42-57 | unregistering keeps the remaining entries inside the remaining ranges |
| `Layer2.RenewedRangeIff` | pkg/speaker/layer2/arp_announcer.go:38-40 | a changed range keeps entries covered if and only if none depended on the old one |
| `Layer2.ArpAnnouncer.UnregisterIPRange` | pkg/speaker/layer2/arp_announcer.go:42-57 | deletes exactly the entries of the range, in any map order |
| `Layer2.ArpAnnouncer.ContainsIP` | pkg/speaker/layer2/arp_announcer.go:63-70 | true exactly when some registered range holds the address |
| `Layer2.ArpAnnouncer.AddAnnouncedIP` | pkg/speaker/layer2/arp_announcer.go:146-178 | stores the interface's hardware address even if sending fails, and keeps other entries |
| `Layer2.Layer2Speaker.RegisterAnnouncer` | pkg/speaker/layer2/memberlist.go:169-188 | the interface gets an announcer with the range, others stay |
| `Layer2.Layer2Speaker.UnregisterAnnouncer` | pkg/speaker/layer2/memberlist.go:190-206 | the announcer goes exactly with its last range |
| `Layer2.Layer2Speaker.SetBalancer` | pkg/speaker/layer2/memberlist.go:82-123 | an entry appears on a covering interface exactly if this node is elected; an error is returned exactly if it was new and sending failed |
| `Layer2.Layer2Speaker.DelBalancer` | pkg/speaker/layer2/memberlist.go:125-132 | the entry goes from a covering interface, nothing else changes |
| `Layer2.SelectCandidates` | pkg/speaker/layer2/memberlist.go:85-95 | the cluster nodes that are members, in list order |
| `Layer2.SpeakerElectsWinner` | pkg/speaker/layer2/memberlist.go:82-117 | a node elects itself exactly if it wins among the candidates it sees |
| `Layer2.Drive` | pkg/speaker/layer2/memberlist.go:82-206 | over any run entries lie in registered ranges and announcers have ranges |
| `Bgp.AddedEntries` | pkg/speaker/bgp/bgp/path.go:216-227 | after additions an identifier holds one of the hops that hit it, or what it held |
| `Bgp.DeletedEntries` | pkg/speaker/bgp/bgp/path.go:229-240 | deletions take out exactly the identifiers that are hit |
| `Bgp.EndsExactIff` | pkg/speaker/bgp/bgp/path.go:138-156 | from any table it ends with exactly the wanted hops if and only if no identifier stands in the way |
| `Bgp.KeyedUnhinderedIff` | pkg/speaker/bgp/bgp/path.go:21-25 | in a table the speaker alone writes, nothing stands in the way exactly when old and wanted hops have distinct identifiers |
| `Bgp.MakeBeforeBreak` | pkg/speaker/bgp/bgp/path.go:149-156 | after every single change all old or all wanted hops are present |
| `Bgp.BgpSpeaker.RetriveRoutes` | pkg/speaker/bgp/bgp/path.go:78-123 | the missing and the superfluous next hops |
| `Bgp.BgpSpeaker.AddMultiRoutes` | pkg/speaker/bgp/bgp/path.go:216-227 | adds in order until one is refused; succeeds exactly if none is |
| `Bgp.BgpSpeaker.DeleteMultiRoutes` | pkg/speaker/bgp/bgp/path.go:229-240 | deletes in order until one is refused; succeeds exactly if none is |
| `Bgp.BgpSpeaker.SetBalancer` | pkg/speaker/bgp/bgp/path.go:138-167 | succeeds if and only if the paths are listed and no needed addition or deletion is refused; from any table it then ends exact if and only if no identifier stands in the way; every step, failed calls included, is make before break as long as nothing is overwritten |

## Left out

- Recovery.ReconcileRecovers: for a service that asks for an address it claims a non-empty status and not the address, because `needUpdate` accepts any non-empty status (pkg/controllers/ipam/ipam.go:191); the events it allows do not edit the service, delete or remove its pool, prune it unseen, or disable the pool of a service that names only an address.
- Recovery.ReconcileIsFixpointIff: nothing is claimed for pools picked by namespace, because taking the last address can change the choice (pkg/controllers/ipam/ipam.go:377-383).
- RouteAgreement.OrderIrrelevantIff: instances come and none goes; identifiers freed in between are not considered.
- Election.AtMostOneAnnouncer: members only leave; `Election.JoinKeepsSingleIff` says what a join does.
- SpeakerManager.FollowsFromScratch: addresses have nodes, pools are disjoint and no deleted pool comes back; `SpeakerManager.AnnouncesReportedIff` and `SpeakerManager.EventInStepIff` say what happens otherwise.
- SpeakerManager.RetryReachesGoal: the set of addresses that have nodes is the same in every attempt.
- Pools across the IPv4-mapped block, or that the speaker's parser refuses: `Store` starts from addresses that both components accept.
- Integrity.CreateAdmittedIff: pools whose 64-bit size is not positive are not considered; `Ranges.CidrOverlapsItselfIff` says what happens to them.
- Store.ReachableInv: pools are disjoint as `IsOverlap` sees them; for CIDR pools with more than 63 host bits that is not disjointness, as `Ranges.CidrOverlapsItselfIff` says.
- Where BGP paths come from: a path is known by its identifier alone, so one learned from a peer is one more entry of the table.
- Text parsing of addresses, CIDRs and subnet masks, and regular expressions: addresses are taken as parsed.
- Pools picked by namespace (`getDefaultEIP`): the choice is a parameter, and no fixpoint is claimed for it.
- `removeEip`: its label removals are user edits in `Store`.
- The interface check of `ValidateCreate` and `ValidateUpdate`, finalizers, events, metrics and logging: field tests and plumbing.
- `HandleService` and `ResyncEIPSpeaker` in the speaker manager: they announce outside the pool comparison.
- The effect of `ConfigureWithEIP` inside `SpeakerManager`: a speaker there is its set of announced addresses.
- Node-proxy services, `DelBalancer` of BGP, BGP policy and configuration, the REST server: easy members or field copying.
- The NDP announcer: the same bookkeeping as the ARP announcer plus multicast.
- gobgp, memberlist, keepalived, sockets and interface lookup: they appear as sets, views and success or failure.
- In-place sharing of `Svcips` slices and instance references: no two owners share them, so they are values.
