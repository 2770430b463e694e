# Verification of the SCION network operator, agent and registrar

This project models the decision logic that connects a `ScionNetwork` object to what
the SCION gateway accepts and to what the AS-side registrar announces, and proves
properties of it for all inputs and all interleavings. The theorems build up to two
end-to-end results.

* The deny list reaches the data plane intact. The operator merges CIDRs from the
  spec and five cluster APIs (`DenyList`) and passes them through the DaemonSet
  environment (`AgentConfig`); the agent subtracts them from 0.0.0.0/0 (`Subtract`, `CidrSubtraction`, `UpperHalf`),
  checks and renders the result (`Policy`), and the gateway reads the text
  (`PolicyText`). `Guardrail` composes these, and `EndToEnd` carries the result through
  the concurrent reload pipeline (`Reload`).
* The AS-side SIG set follows the cluster. Nodes become a request body
  (`Registration`), the registrar patches the topology under a mutex (`Topology`,
  `RegistrarServer`), and the finalizer keeps registrations from outliving the object
  (`Lifecycle`).

`Bootstrap` and `BootstrapSafety` treat the fetch of topology and TRCs as a sequence of
disk states, one per write, so that every crash point is a state. `TokenCache` models
the metrics token cache. `Text`, `Order`, `Prefixes` and `Runs` are the foundations.

Loops and objects that the source mutates are methods and classes proved against a
specification function. Concurrent code is a state machine with `Label`, `Enabled`,
`Apply` and `Run`; its invariant is kept by every step and hence holds after every run.
Where a result is about what happened before, it is stated on the steps of the run.
I/O outcomes, clocks, API responses and scheduling are parameters or labels.

Where the code falls short of its comments or of what one would expect, the model follows
the code:

* The comment on `Fetch` says a failed base never leaves a mixed TRC set. A failed
  *write* can; `NoMixedSetIff` gives the exact condition and `MixedSetExample` a case.
* A re-render that fails is not retried by the next tick, because the new pod CIDRs were
  adopted before it (`ChangeReachesGatewayIff`).
* A changed topology goes unnoticed if both reads around the fetch fail
  (`TopologyNoticedIff`).
* Forbidden CIDRs that cover all of IPv4 render an accept line without a prefix column,
  which the grammar does not admit, so the policy is not loaded (`PolicyLoadsIff`,
  `ForbidEverything`).
* Switching the registrar from http to manual before deletion leaves the registrations
  (`SpecSwitchLeavesRegistrations`); `ReleaseCleansIff` gives the exact condition.
* The token TTL is counted from the insertion, not from the review; the age of a review
  is bounded exactly when the two coincide (`ReviewAgeBoundedIff`).

## Model

| member | source | states |
|---|---|---|
| `Prefixes.Nest` | internal/agent/policy/policy.go:158-168 | Two aligned prefixes nest or are disjoint, stated on their address intervals. |
| `Prefixes.OverlapsMeaning` | internal/agent/policy/policy.go:132-156 | `Overlaps`, defined on masks, holds exactly when an address is in both prefixes. |
| `Prefixes.PrefixRoundTrip` | internal/agent/policy/policy.go:190-215 | Parsing the printed form of any IPv4 prefix returns that prefix; this carries the subtraction through its string interface. |
| `Prefixes.DottedQuad` | internal/agent/policy/policy.go:169-189 | The first octet of a dotted quad is the most significant byte of the parsed address. |
| `UpperHalf.UpperHalfAddr` | internal/agent/policy/policy.go:218-225 | Setting one bit of one address byte in place yields the base plus 2^(31-bits), with the byte index in range, for every aligned prefix shorter than 32. |
| `UpperHalf.AlignedOctet` | internal/agent/policy/policy.go:218-225 | In an aligned address the byte that holds bit `bits` is zero from that bit on, so the bitwise or is an addition. |
| `Subtract.SplitHasInner` | internal/agent/policy/policy.go:206-208 | A prefix that is split holds a strictly longer exclude, so the /32 guard is unreachable. |
| `Subtract.WalkExact` | internal/agent/policy/policy.go:190-215 | An address is in the output exactly when it is in the base and in no exclude; every output prefix is aligned. |
| `Subtract.WalkAscending` | internal/agent/policy/policy.go:190-215 | The blocks are emitted in ascending address order without overlap, inside the base. |
| `Subtract.WalkCanonical` | internal/agent/policy/policy.go:190-215 | Exclude lists with the same union inside the base give the identical walk: order, duplicates, nesting and splitting do not matter. |
| `Subtract.WalkIsMaximalSet` | internal/agent/policy/policy.go:190-215 | A prefix is emitted by the walk if and only if it is a maximal aligned prefix inside the base that is disjoint from all excludes. |
| `Subtract.WalkMinimal` | internal/agent/policy/policy.go:190-215 | No set of aligned prefixes with the same union has fewer members than the walk emits. |
| `Subtract.WalkIsCover` | internal/agent/policy/policy.go:190-215 | What the walk emits is itself such a set, with one member per entry, so the minimum is attained. |
| `Subtract.WalkConserves` | internal/agent/policy/policy.go:190-215 | Output block sizes plus the number of excluded addresses of the base add up to the size of the base. |
| `Subtract.LinearBound` | internal/agent/policy/policy.go:190-215 | From 0.0.0.0/0 with an exclude, the output has at most as many blocks as the exclude lengths sum to, and the walk makes at most one plus twice that many calls. |
| `CidrSubtraction.Walker.Scan` | internal/agent/policy/policy.go:192-204 | The loop over the excludes finds whether one covers the prefix and, if none does, whether one overlaps it. |
| `CidrSubtraction.Walker.WalkPrefix` | internal/agent/policy/policy.go:190-213 | The recursive walk appends to the shared slice exactly the printed blocks of the subtraction, after what was there before. |
| `CidrSubtraction.SubtractCIDRs` | internal/agent/policy/policy.go:169-216 | It fails exactly when the base or an exclude does not parse, and otherwise returns the sorted texts of the walk. |
| `CidrSubtraction.DifferenceExact` | internal/agent/policy/policy.go:169-216 | Parsed back, the returned strings cover an address exactly when the base does and no exclude does. |
| `CidrSubtraction.DifferenceSorted` | internal/agent/policy/policy.go:214-215 | The returned list is strictly sorted as strings, so it has no duplicate, and every entry parses. |
| `CidrSubtraction.DifferenceCanonical` | internal/agent/policy/policy.go:169-216 | Exclude lists with the same union give the identical list of strings. |
| `CidrSubtraction.DifferenceIsMaximalSet` | internal/agent/policy/policy.go:158-216 | The returned list names a prefix if and only if it is a maximal aligned prefix inside the base that is disjoint from all excludes. |
| `CidrSubtraction.DifferenceMinimal` | internal/agent/policy/policy.go:158-216 | No set of aligned prefixes that covers exactly the difference is smaller than the returned list. |
| `Policy.ValidateNoOverlap` | internal/agent/policy/policy.go:132-156 | It returns nil exactly when all entries parse and no net is a default route or overlaps a forbidden CIDR. |
| `Policy.GuardNeverRejects` | internal/agent/policy/policy.go:109-156 | The guard run on a subtraction result passes if and only if the forbidden list is non-empty: overlap is never reported, a default route exactly when nothing is forbidden. |
| `Policy.Prepare` | internal/agent/policy/policy.go:109-128 | It succeeds if and only if there is a local IA, a remote and a non-empty, valid forbidden list; each failure has its own error. |
| `Policy.RenderRoutingPolicy` | internal/agent/policy/policy.go:49-62 | The builder loops produce the specified text, and rendering succeeds exactly on the inputs `prepare` accepts. |
| `Policy.RenderTrafficPolicy` | internal/agent/policy/policy.go:90-107 | It succeeds on the same inputs, names exactly the configured remotes and lists no static nets. |
| `Policy.PolicyFiles.RenderPolicies` | cmd/agent/main.go:423-436 | A failed render writes neither file; a failed first write leaves the second alone; success leaves both files whole. |
| `PolicyText.RoutingRoundTrip` | internal/agent/policy/policy.go:36-62 | The rendered text parses to the intended rules if and only if something is accepted and the local and remote IAs are single columns. |
| `PolicyText.IntendedAdvertises` | internal/agent/policy/policy.go:36-62 | Every advertised net is announced to every remote, and nothing else is. |
| `PolicyText.AcceptedEmpty` | internal/agent/policy/policy.go:109-128 | The accepted list is empty exactly when the forbidden CIDRs cover all of IPv4. |
| `PolicyText.PolicyLoadsIff` | internal/agent/policy/policy.go:49-62 | A policy that passes the guardrails parses if and only if the forbidden CIDRs leave some address. |
| `PolicyText.ForbidEverything` | internal/agent/policy/policy.go:49-62 | Forbidding 0.0.0.0/0 passes the guardrails and renders a text that does not parse. |
| `PolicyText.PolicyMeaning` | internal/agent/policy/policy.go:36-62 | Read back with default reject, the policy accepts from a configured remote exactly the IPv4 addresses outside every forbidden CIDR. |
| `PolicyText.PolicyAdvertises` | internal/agent/policy/policy.go:49-62 | Read back, the policy announces exactly the advertised nets, each to every remote. |
| `DenyList.SpecIPv4CIDRs` | internal/operator/controller/scionnetwork_controller.go:572-584 | Spec CIDRs are rejected exactly when one parses as neither IPv4 nor IPv6; the IPv4 ones are kept. |
| `DenyList.AppendNodes` | internal/operator/controller/scionnetwork_controller.go:465-482 | The node source adds exactly the IPv4 entries of each list of pod CIDRs, or of the single pod CIDR of a node whose list is empty. |
| `DenyList.AppendPools` | internal/operator/controller/scionnetwork_controller.go:517-538 | The Calico source adds exactly the IPv4 CIDRs of the pools that are not disabled. |
| `DenyList.Dedupe` | internal/operator/controller/scionnetwork_controller.go:641-649 | Keeps every non-empty string once and nothing else. |
| `DenyList.GatherSources` | internal/operator/controller/scionnetwork_controller.go:386-459 | Reads fail exactly as the code treats them (absent resources are skipped), and the gathered list names the union of all sources. |
| `DenyList.ClusterForbiddenCIDRs` | internal/operator/controller/scionnetwork_controller.go:386-459 | The deny list is the strictly sorted enumeration of the union of the IPv4 CIDRs of spec, underlay, OpenShift network, nodes, services, Calico and Cilium. |
| `DenyList.SourcesMeaning` | internal/operator/controller/scionnetwork_controller.go:386-459 | A CIDR is a source if and only if it is IPv4 and stands in a field of the spec, of the OpenShift network, of a node, of a service CIDR, of an enabled pool or of a Cilium node. |
| `DenyList.RolloutStable` | internal/operator/controller/scionnetwork_controller.go:386-459 | Permuting or repeating items in the API responses cannot change the list, so it cannot cause a rollout. |
| `AgentConfig.Split` | cmd/agent/main.go:410-418 | The loop yields the trimmed, non-empty comma-separated parts in order. |
| `AgentConfig.SplitUndoesJoin` | cmd/agent/main.go:410-418 | Splitting a comma-joined list returns the list, the empty list included. |
| `Text.TrimSpaceMeaning` | cmd/agent/main.go:410-418 | Trimming takes white space off both ends of an entry and nothing else. |
| `AgentConfig.SwitchMeaning` | internal/agent/config/config.go:74-94 | For every environment, unset and unreadable included, pod CIDRs are on unless switched off and the node address off unless switched on. |
| `AgentConfig.AdvertisedNets` | cmd/agent/main.go:387-407 | The loop builds the list of advertised nets from the adopted pod CIDRs and the node address. |
| `AgentConfig.AdvertisedMembers` | cmd/agent/main.go:387-407 | Exactly the IPv4 pod CIDRs and the IPv4 node address, each under its switch, are advertised. |
| `Guardrail.EnvCarriesLists` | internal/operator/render/render.go:97-113 | Remotes and deny list travel from the DaemonSet environment into the policy input unchanged. |
| `Guardrail.EnvCarriesSwitches` | internal/operator/render/render.go:97-113 | An unset pod CIDR switch arrives as on, an unset node IP switch as off, set ones as set. |
| `Guardrail.DenyListReachesGateway` | internal/operator/controller/scionnetwork_controller.go:386-459 | End to end: for every spec and accepted API responses, the text rendered by the agent parses and accepts, from exactly the configured remotes, exactly the IPv4 addresses no source CIDR contains; with no source at all the agent refuses to render. |
| `Guardrail.AnnouncementsReachGateway` | cmd/agent/main.go:338-349 | End to end: the rendered text announces, to exactly the configured remotes, exactly the IPv4 pod CIDRs unless switched off and the node address if switched on. |
| `Guardrail.ValidateNodeIPAdvertisement` | internal/operator/controller/scionnetwork_controller.go:592-634 | The check passes exactly when node IPs are not advertised, no underlay CIDR is valid, or the nodes were listed and none has an InternalIP in the underlay. |
| `Guardrail.NodeIPNeverInUnderlay` | cmd/agent/main.go:387-407 | Whenever the operator check passes, no selected node makes its agent advertise a host route overlapping an underlay CIDR; with the field unset it advertises none. |
| `EndToEnd.LoadedPolicyEnforces` | cmd/agent/main.go:121-185 | In every fault-free interleaving of the reload pipeline, at quiescence the policy the gateway has loaded is whole, enforces the deny list of the cluster for the current topology, and announces the current pod CIDRs as the spec asks. |
| `EndToEnd.RerenderNeverRefused` | cmd/agent/main.go:149-167 | Once the first render passed the guardrails, they refuse no snapshot of any later state of any run, whatever faults and pod CIDRs it sees, as long as topologies come from verified fetches. |
| `Bootstrap.TrcNameInjective` | internal/agent/bootstrap/bootstrap.go:108-117 | Different TRC ids have different file names, so a pin applies to one TRC. |
| `Bootstrap.TrcNameText` | internal/agent/bootstrap/bootstrap.go:108-117 | The file name spells ISD, base and serial in this order. |
| `Bootstrap.DownloadedMeaning` | internal/agent/bootstrap/bootstrap.go:83-117 | A download exists exactly when the base served everything; it names exactly the listed TRCs, each with the blob of its last entry. |
| `Bootstrap.VerifiedIff` | internal/agent/bootstrap/bootstrap.go:83-135 | The checks before the write phase pass if and only if everything was served and every listed TRC that is pinned has the pinned bytes. |
| `Bootstrap.DownloadTrcs` | internal/agent/bootstrap/bootstrap.go:108-117 | The download loop fails exactly when a blob is missing, and otherwise its map names exactly the listed TRCs, each with the blob of its last entry. |
| `Bootstrap.ConfigDir.Check` | internal/agent/bootstrap/bootstrap.go:83-135 | Download, parse and pin check succeed exactly when everything was served and every listed TRC that is pinned, not only the last one, matches its pin. |
| `Bootstrap.ConfigDir.FetchFrom` | internal/agent/bootstrap/bootstrap.go:83-144 | One attempt appends exactly the specified sequence of disk states: nothing before verification, then TRCs, then the topology. |
| `Bootstrap.ConfigDir.Fetch` | internal/agent/bootstrap/bootstrap.go:64-81 | The loop over the bases returns the first that succeeds and leaves exactly the specified disk history. |
| `BootstrapSafety.AttemptOutcome` | internal/agent/bootstrap/bootstrap.go:83-144 | After success topology and TRCs are those of the base; after failure the topology is untouched, and before the write phase everything is. |
| `BootstrapSafety.FetchError` | internal/agent/bootstrap/bootstrap.go:64-81 | An error from `Fetch` leaves topology.json unchanged. |
| `BootstrapSafety.FetchServed` | internal/agent/bootstrap/bootstrap.go:64-144 | On success topology.json and every listed TRC are the bytes of one base, the first that did not fail, over what failed bases left. |
| `BootstrapSafety.CrashKeepsTopology` | internal/agent/bootstrap/bootstrap.go:136-144 | At every crash point before the last write the old topology is still in place. |
| `BootstrapSafety.NewTopologyComplete` | internal/agent/bootstrap/bootstrap.go:136-144 | After a success topology.json is that of the base, and every TRC the base listed is on disk with the bytes it served, which are those of its pin if there is one. |
| `BootstrapSafety.DistinctEntriesInPlace` | internal/agent/bootstrap/bootstrap.go:136-144 | When the base lists no id twice, every single entry is on disk with its own blob. |
| `BootstrapSafety.NoMixedSetIff` | internal/agent/bootstrap/bootstrap.go:59-63 | The promise that a failed base leaves no mixed TRC set holds if and only if every TRC it wrote is overwritten by the successful base or was cached with the same bytes. |
| `BootstrapSafety.EarlyFailuresLeaveNothing` | internal/agent/bootstrap/bootstrap.go:83-135 | Bases that fail in download, parse or pin check leave nothing. |
| `BootstrapSafety.MixedSetExample` | internal/agent/bootstrap/bootstrap.go:136-144 | For every TRC there are two bases where the promise fails: the first writes the TRC and fails on the topology, the second succeeds without it. |
| `BootstrapSafety.EveryStateSafe` | internal/agent/bootstrap/bootstrap.go:64-144 | In every state of every run of fetches, fallbacks, write failures and crashes, pinned TRCs equal their pins, a new topology is that of a base that passed the checks and all of whose listed TRCs are cached, and no cached file is lost. |
| `Reload.StepKeeps` | cmd/agent/main.go:121-185 | Every atomic step of the fetcher, re-render goroutine and gateway keeps the pipeline invariant. |
| `Reload.NoLostUpdate` | cmd/agent/main.go:121-185 | In every interleaving, at quiescence the gateway has loaded the policies of the current topology and pod CIDRs, unless a fault after the last read of the topology went unrepaired. |
| `Reload.FaultFreeConverges` | internal/agent/bootstrap/bootstrap.go:151-181 | Without faults every quiescent state is up to date, however notifications were coalesced. |
| `Reload.NeverStuck` | cmd/agent/main.go:121-185 | Unless the pipeline is quiescent, some step that brings in nothing new and is no fault is possible. |
| `Reload.EveryScheduleDrains` | cmd/agent/main.go:121-185 | Every schedule without new input, faulty or not, is over within a bound computed from the state, and one that cannot go on has ended in quiescence. |
| `Reload.EveryScheduleUpToDate` | cmd/agent/main.go:121-185 | After any fault-free run, every fault-free schedule without new input is bounded, and where it cannot go on the gateway is up to date. |
| `Reload.ChangeReachesGatewayIff` | cmd/agent/main.go:172-185 | From every quiescent, up-to-date state a pod CIDR change reaches the gateway if and only if the read and both writes of its re-render succeed; a failure leaves the file torn or the pair mixed and is not retried by later ticks. |
| `Reload.TopologyNoticedIff` | internal/agent/bootstrap/bootstrap.go:154-168 | A changed topology raises the notification if and only if one of the two reads around the fetch succeeds, an unchanged one if and only if exactly one fails; with both reads failing a change leaves the pipeline quiescent and stale. |
| `Topology.PatchSigs` | internal/registrar/topology.go:29-61 | The two map loops compute the specified patch, including the parse error and the write to a nil map. |
| `Topology.CollectManaged` | internal/registrar/topology.go:96-114 | The read loop returns exactly the entries under the prefix, keyed by their stripped names. |
| `Topology.PatchOutcome` | internal/registrar/topology.go:29-61 | A patch goes through, is refused, or hits a nil map exactly for the stated kinds of document. |
| `Topology.PatchWrites` | internal/registrar/topology.go:51-57 | After a patch every desired name stands in the file under the prefix with its control and data address in their own fields. |
| `Topology.ManagedSigsMeaning` | internal/registrar/topology.go:96-114 | Reading any document fails exactly on a value of the wrong kind, and otherwise gives the managed entries under their stripped names. |
| `Topology.GetAfterPut` | internal/registrar/topology.go:45-114 | Reading after a patch gives exactly the desired map if and only if all unmanaged entries decode; otherwise reading fails. |
| `Topology.PatchAbsorbs` | internal/registrar/topology.go:45-61 | A later patch absorbs an earlier one. |
| `Topology.PatchesConserve` | internal/registrar/topology.go:22-28 | Unmanaged entries and all other fields survive any sequence of patches. |
| `Topology.PatchesCollapse` | internal/registrar/topology.go:45-61 | Any sequence of patches amounts to its last successful one. |
| `Topology.IndependentIff` | internal/registrar/topology.go:45-61 | Patches under one prefix leave the entries of another alone, on all documents, if and only if neither prefixes the other. |
| `Topology.PatchesCommute` | internal/registrar/topology.go:45-61 | Successful patches under independent prefixes commute. |
| `RegistrarServer.Linearizable` | internal/registrar/server.go:70-113 | In every interleaving of handlers with crashes at any step, the requests behave like one atomic register: the log is a legal history whose value is the file, every answer is that of the only event of its request, a refused request has none, and every event stems from the request that arrived under its id. |
| `RegistrarServer.RealTimeOrder` | internal/registrar/server.go:70-113 | A request answered before another arrives has the earlier event. |
| `RegistrarServer.FileIsWholePatch` | internal/registrar/server.go:94-113 | The topology file is the initial document or a complete patch of it with one whole PUT body of the run. |
| `RegistrarServer.ManagedSetWhole` | internal/registrar/server.go:43-113 | The managed set is the initial one or exactly one whole PUT body, and everything else is conserved. |
| `RegistrarServer.StatusMeaning` | internal/registrar/server.go:83-113 | In every run a PUT is answered 204 if and only if its reload succeeded, 502 if and only if it failed, 400 if and only if the body was refused; every I/O error is answered 500, and 200 only follows a read of the file. |
| `RegistrarServer.AcknowledgedMeansApplied` | internal/registrar/server.go:83-113 | Whatever step answers a PUT with 204, from then until the next rename the file is the initial document patched with exactly the body that arrived, the control service has loaded it, and every GET that can read the file answers with that body. |
| `RegistrarServer.AcknowledgedSomewhere` | internal/registrar/server.go:94-113 | Every 204 found in a state of a run was given by one of its steps. |
| `RegistrarServer.ReadOutcome` | internal/registrar/server.go:94-113 | Whether a PUT is refused, aborted or goes on after reading the file depends only on the initial document and its body, not on what was stored since. |
| `RegistrarServer.MutexGivenBack` | internal/registrar/server.go:83-113 | In every reachable state the holder of the mutex can go on, and within four steps of its own, whatever their outcome, the mutex is free; a crash frees it at once. |
| `RegistrarServer.PutServed` | internal/registrar/server.go:94-113 | In every reachable state with a free mutex a PUT that no I/O error hits is answered 204 whenever the initial document can take its body. |
| `Registration.FindInternalIP` | internal/operator/controller/registrar_sync.go:50-56 | The search stops at the first InternalIP of a node. |
| `Cluster.FirstInternalIPMeaning` | internal/operator/controller/registrar_sync.go:50-56 | That address is an InternalIP with none before it in the list. |
| `Registration.NodesToSIGs` | internal/operator/controller/registrar_sync.go:42-71 | The SIG list is sorted by name and holds exactly the selected nodes with a first InternalIP, with its control port 30256 and data port 30056; the skipped names are exactly the other selected nodes; the counts add up. |
| `Order.LeMeaning` | internal/operator/controller/registrar_sync.go:66-70 | Names are ordered by the first byte in which they differ, a prefix first. |
| `Registration.Ensure` | internal/operator/registrar/http.go:59-92 | The whole set is sent as one map, and only a 204 counts as success. |
| `Registration.SyncRegistrar` | internal/operator/controller/registrar_sync.go:114-147 | The desired set is published whenever nodes could be listed; registered count and sync time change only on success. |
| `Registration.BodyRegistersCluster` | internal/operator/controller/registrar_sync.go:42-71 | With distinct names the body maps exactly the selected nodes with an InternalIP to their two endpoints. |
| `Registration.OrderIndependent` | internal/operator/controller/registrar_sync.go:42-71 | Any two node lists with the same nodes give the same registered set. |
| `Registration.ClusterReachesRegistrar` | internal/registrar/server.go:83-113 | When the PUT of the set computed from the nodes is answered 204, in any interleaving of the registrar and until the next rename, its managed set maps exactly the selected nodes with an InternalIP to their endpoints and is loaded. |
| `Registration.SyncOverHttp` | internal/operator/controller/registrar_sync.go:114-147 | A sync over http reports success exactly on a 204, and then every registrar that gave this answer to the body sent mirrors the cluster. |
| `Lifecycle.SentOnlyUnderFinalizer` | internal/operator/controller/scionnetwork_controller.go:72-87 | A registration is only sent while the finalizer is persisted and the object exists. |
| `Lifecycle.ReconcileRegisters` | internal/operator/controller/scionnetwork_controller.go:72-116 | From every reachable state with an idle worker, the first and every later reconcile of a live object runs, leaves the finalizer persisted, and replaces the registered set of the endpoint in the spec by the current nodes whenever the PUT lands. |
| `Lifecycle.GoneMeansDeregistered` | internal/operator/controller/scionnetwork_controller.go:147-201 | When the object is gone, nothing is registered at the http endpoint of its last version, unless a finalize step of the run could not build the backend, or failed without effect more than ten minutes after the deletion. |
| `Lifecycle.DeregisteredBeforeGone` | internal/operator/controller/scionnetwork_controller.go:147-201 | With a fixed registrar spec, nothing at all is registered once the object is gone, with the same two exceptions. |
| `Lifecycle.DeregisteredInTime` | internal/operator/controller/scionnetwork_controller.go:147-201 | With a fixed spec, every backend buildable and the run within the deadline, a gone object leaves nothing registered. |
| `Lifecycle.FinalizeReleasesIff` | internal/operator/controller/scionnetwork_controller.go:170-201 | From every reachable state of a deleted object, a finalize can release if and only if it is not an http deregistration that fails within the ten-minute deadline, and its update then removes the object. |
| `Lifecycle.ReleaseCleansIff` | internal/operator/controller/scionnetwork_controller.go:170-201 | After such a release nothing is registered anywhere if and only if every endpoint that still had registrations is the one in the spec and its deregistration landed. |
| `Lifecycle.SpecSwitchLeavesRegistrations` | internal/operator/controller/scionnetwork_controller.go:170-201 | For every endpoint and node there is a run that registers the node over http, switches to manual, and after deletion and release, with every deregistration successful, still has the node registered. |
| `TokenCache.Authenticator.Lookup` | internal/agent/metricsauth/metricsauth.go:71-77 | A token hits if and only if it was inserted less than the TTL ago and since then neither inserted again nor dropped by a reset of the full cache. |
| `TokenCache.Authenticator.Remember` | internal/agent/metricsauth/metricsauth.go:104-109 | The insertion is added to the history, the map stays what the history says, and it never exceeds 128 entries. |
| `TokenCache.CacheSound` | internal/agent/metricsauth/metricsauth.go:71-111 | In every interleaving: at most 128 entries; every cached token was inserted by a check of it whose token review and access review were both positive before; every 200 is such an insertion by the check itself or a lookup less than the TTL after one; every other answer follows a negative or failed review of that check. |
| `TokenCache.ReviewsDecide` | internal/agent/metricsauth/metricsauth.go:79-110 | In every run a check is answered 401 if and only if its token review was negative, 403 if and only if its access review was, an error if and only if one failed, and 200 after every insertion. |
| `TokenCache.ReviewAgeBoundedIff` | internal/agent/metricsauth/metricsauth.go:104-109 | Every 200 that an insertion gives to later lookups comes less than the TTL after the review if and only if the insertion happens in the same instant as the review. |
| `TokenCache.StaleAnswerExample` | internal/agent/metricsauth/metricsauth.go:104-109 | A reachable run in which a check is answered 200 an hour after the only reviews. |

## Left out

- ValidateNoOverlap: models IPv4 entries only; IPv6 and IPv4-mapped forms of `netip` are not parsed, and where IPv6 acceptance matters (spec CIDRs, node addresses) it is a function parameter.
- NoLostUpdate: the condition is sufficient only, because a later change can restore the old values and so repair a fault by coincidence; the exact conditions for one change are `ChangeReachesGatewayIff` and `TopologyNoticedIff`.
- LoadedPolicyEnforces: a snapshot holds the topology and the pod CIDRs; the node address adopted with them is a parameter, and the statement holds for every value of it.
- DeregisteredBeforeGone: assumes that no PUT outlives its `Ensure` call, that cached reads never go back to an older version, and that the object is neither recreated nor stripped of its finalizer by hand.
- PatchSigs: works on JSON values with exact keys; case-insensitive keys, duplicate keys, HTML escaping and the reformatting of raw messages are not modelled, nor are other writers of the topology file.
- RenderTrafficPolicy: its JSON text is a value, not bytes.
- CrashKeepsTopology: process crashes only; durability of renames across power loss is not claimed by the source either.
- DifferenceSorted: `sort.Strings` is modelled by an insertion sort with the same result.
- The order in which Go iterates over a map is arbitrary; the TRC write order is a parameter and the other map loops pick names nondeterministically.
- The gateway and its policy parser: only the line grammar given in the comments of the policy package is modelled, with the actions accept, reject and advertise.
- HTTP, TLS, authentication of registrar requests, method checks and Kubernetes client plumbing: remote calls are steps with success, failure, or applied-but-failed outcomes.
- Discoverers and URL trimming: their result is an arbitrary list of bases.
- Certificate generation and rotation for metrics, platform detection, status conditions, ISD-AS discovery in the operator, and the rendered RBAC, SCC, volume and probe objects: single-branch or foreign logic.
- Calico, Cilium and OVN annotation parsing in the agent, the start-up advertisability check, the health endpoints and configuration defaults beyond the policy switches: short parsing and wiring code without a property of its own.
