# NexTunnel: a verified model

NexTunnel connects machines over peer-to-peer tunnels with relays as a fallback. This project models seven of
its parts in Dafny and proves what they promise. `dafny verify dfyconfig.toml` checks everything.

| part | files | what is proved |
|---|---|---|
| XDP rule offload | `ForwardingRules`, `KernelPlan`, `KernelSync` | the rule compiler pushes exactly those rules into the kernel that decide every packet of their key, so verdicts never change; what a refused rule leaves in the kernel; what the order of equal priorities can change |
| address allocation | `Bits`, `Ipam` | leases are distinct hosts of the block, an allocation fails exactly when the block is full, no 32-bit sum wraps |
| control plane | `VirtualNetwork`, `ControlPlane`, `AccessControl` | allocator, store and registry agree over every run with restarts; the exact store failures that break this; when access decisions are independent of map order |
| UDP hole punching | `Punch` | what a confirmed path implies in every run over a lossy, duplicating, reordering network |
| ICE agent | `IcePriority`, `IceAgent` | for exactly which priorities pair priorities wrap, order lexicographically and are ranked alike by both agents; the checklist and pair states over every run |
| installer | `Installer` | the previous version survives any fault or crash until the new one is installed; clean rollback restores the disk |
| link scheduler | `PathPolicy`, `Scheduler` | scores are monotone, the best path is maximal, switches respect the cooldown and the lock |
| wire formats and versions | `BigEndian`, `FrameCodec`, `GoStrings`, `SemVer` | frames round-trip and truncate cleanly; version comparison follows section 11 of Semantic Versioning 2.0.0 on lower-cased text with int-sized numbers |

Objects the Go code updates in place are classes here, and loops are loops; what they compute is stated through
functions and predicates about which the lemmas speak. Concurrent parts (hole punching, the ICE agent, HTTP
handlers) are state machines whose steps are atomic. Calls into code outside the repository are parameters:
CIDR matching and interface lookup (`ForwardingRules.Host`), which store, file or map operations fail, the clock
readings, the library sorts (known only to permute and to order).

## Where the code does less than one might expect

Each of these is a lemma at a failing input, a run, or an exact condition for when the code does meet the expectation; most have both.

- After 2^32 additions a rule id can collide, and a refused addition then takes another rule away (`RefusalTakesAnotherRule`); a refused addition leaves the rule set alone exactly when its id was free (`RuleMap.AddRule`).
- A refused rule can keep working in the kernel (`RefusedRuleStaysInTheKernel`). The rollback restores the table exactly when the refused rule's own key had not been written or was there before, as long as equal priorities cannot change the table (`RollbackRestoresTableIff`, `KernelBackedRules.AddRule`).
- Rules of equal priority are sorted afresh, in any order, on every change, so a packet's verdict and the kernel table can change without a rule changing (`TiesCanCostAnEntry`); they cannot exactly when the rules of least priority number agree (`VerdictIndependentIff`, `TableIndependentIff`).
- The rule compiler is not the greatest that would change no verdict (`MoreCouldBePushed`); which pushable keys it covers is `PlanCoversIff`.
- When saving a re-registering node fails, its address is released although the node stays registered (`LostReregistration`, `GivingUpAgreesIff`).
- `WriteMessage` checks the payload length truncated to 32 bits (`FourGigabytesVanish`, `RoundTripIff`), and a stream cut right after a header reads as a clean end (`CutFrameYieldsNothing`).
- An unmeasured bandwidth scores like 1 Mbit/s, so measuring a lower one lowers the score (`MeasuringCanLowerScore`, `BandwidthScoreMonotoneIff`).
- Each ICE agent passes its own priority first, so two agents can rank two mirrored pairs differently; remote priorities are not checked, and from 2^31 on they break the order of pairs and more of the agreement (`AgentsRankAlikeIff`, `PairOrderIsLexicographicIff`, `TopBitCanOvertake`, `TopBitCanSplitAgents`).
- After one side of a hole punch confirms, the other may still time out (`PeerCanStillTimeOut`); without an ACK to it, it has confirmed exactly when its reader's success does not wait unread (`ConfirmationReachesPeer`).
- Unregistering a locked path keeps the lock, which stops automatic switching (`UnregisterWhileLocked`).
- Numeric pre-release identifiers that do not fit an int are compared as text, so a downgrade can be offered as an update (`DowngradeOffered`, `DowngradeToTwentyNines`); when the order is right all the same is `FollowsStandardIff`. Case is ignored, which section 11 does not do, so identifiers it tells apart compare equal and a capital one can be offered as an update of one it comes before (`CaseCanMatter`, `CaseCanReverse`); when identifiers are ordered right as written is `FollowsAsWrittenIff`.
- Invalid versions compare equal to everything, so "neither is newer" is transitive only through valid versions (`NeitherUpdatesIsTransitiveIffValid`). What is valid is `AcceptedIff`.

## Model

| member | source | states |
|---|---|---|
| ForwardingRules.ListVerdictIsFirstMatch | server/internal/ebpf/forwarder.go:139-149 | walking a list in order, the first matching rule decides the verdict |
| ForwardingRules.ListVerdictIsUnmatched | server/internal/ebpf/forwarder.go:139-149 | the verdict is the default one when no rule of the list matches |
| ForwardingRules.MatchedFieldByField | server/internal/ebpf/forwarder.go:151-190 | from any packet a rule matches, each field may become exactly what the rule says of that field (a source address speaks of the source, a destination of the destination, as the string itself or as a CIDR), whatever the other fields are |
| ForwardingRules.RuleMatchesItsOwnPacket | server/internal/ebpf/forwarder.go:151-190 | such a packet always exists |
| ForwardingRules.SeenAlikeDecidedAlike | server/internal/ebpf/forwarder.go:139-173 | a list decides two packets alike when they agree on every field that some rule constrains |
| ForwardingRules.DropsBySide | server/internal/ebpf/forwarder.go:139-190 | a drop rule for a source address drops exactly what comes from there, one for a destination exactly what goes there |
| ForwardingRules.RuleMap.RebuildSorted | server/internal/ebpf/forwarder.go:192-205 | `sorted` becomes a permutation of the map's values in priority order, for every map iteration order |
| ForwardingRules.RuleMap.AddRule | server/internal/ebpf/forwarder.go:63-93 | the whole new rule set on success, refusal and missing action; the n-th id drawn is n below 2^32 draws, so ids are never reused; a refused rule leaves the rule set unchanged exactly when its id was free |
| ForwardingRules.RuleMap.RemoveRule | server/internal/ebpf/forwarder.go:96-111 | removes exactly that id, reports whether it was there, keeps the sorted index current |
| ForwardingRules.RuleMap.Match | server/internal/ebpf/forwarder.go:139-149 | returns the first match of the sorted list, which is a matching rule of minimal priority number; null exactly when no stored rule matches |
| ForwardingRules.AnswerIndependentIff | server/internal/ebpf/forwarder.go:192-205 | a walk that stops at the first rule with a property answers the same in every order the sort can leave if and only if the rules of least priority number with that property agree on the answer |
| ForwardingRules.VerdictIndependentIff | server/internal/ebpf/forwarder.go:139-149 | a packet's verdict survives every re-sort of the same rules if and only if its matching rules of least priority number agree on it |
| ForwardingRules.RefusalTakesAnotherRule | server/internal/ebpf/forwarder.go:63-93 | a run of 2^32 + 1 additions after which a refused rule has taken the first one away |
| ForwardingRules.UserspaceForwarder.ProcessPacket | server/internal/ebpf/forwarder.go:229-250 | the action of the first matching rule decides the returned target and what is counted: "drop" a drop, "forward" a forward to its target, "pass" nothing; without a match the packet is counted as forwarded |
| KernelPlan.EncodableIff | server/internal/ebpf/kernel_rules.go:46-86 | a rule can be an entry if and only if it names TCP or UDP and a destination port, nothing else, and an action the kernel knows; what the entry says |
| KernelPlan.BlocksIffMatchesSomePacket | server/internal/ebpf/kernel_rules.go:120-147 | a prior rule blocks a key if and only if it matches some packet of that key, addresses being arbitrary strings |
| KernelPlan.OffloadableIffNotBlocked | server/internal/ebpf/kernel_rules.go:88-134 | the compiler's syntactic test holds if and only if the rule decides every packet with its protocol and port |
| KernelPlan.KeyBlockedByPriorRules | server/internal/ebpf/kernel_rules.go:120-134 | the scan answers whether any prior rule blocks the key |
| KernelPlan.BuildKernelRulePlan | server/internal/ebpf/kernel_rules.go:88-118 | the plan is, in order, exactly the rules that are encodable and that `Match` returns for every packet of their key |
| KernelPlan.OffloadedExactly | server/internal/ebpf/kernel_rules.go:88-118 | the reference compiler selects exactly the offloadable positions, in increasing order |
| KernelPlan.PlanKeysDistinct | server/internal/ebpf/kernel_rules.go:88-118 | no two entries of a plan share a key |
| KernelPlan.TableEntryDecides | server/internal/ebpf/kernel_rules.go:46-118 | a packet that hits the compiled table is decided by the rule the entry encodes |
| KernelPlan.OffloadPreservesVerdicts | server/internal/ebpf/kernel_rules.go:46-118 | table lookup with userspace fallback gives every packet the verdict of userspace alone, up to resolving forward targets, for every rule list |
| KernelPlan.PlanIsCompiledTable | server/internal/ebpf/kernel_rules.go:88-147 | the table holds, for each key, the entry of the first rule that can match the key if that rule is encodable, and nothing else |
| KernelPlan.TableIndependentIff | server/internal/ebpf/kernel_rules.go:88-147 | all sort orders of the same rules compile to one table if and only if, for every key, the rules of least priority number that can match it have the same entry or none |
| KernelPlan.DistinctPrioritiesDetermine | server/internal/ebpf/kernel_rules.go:88-147 | rules of pairwise distinct priorities always compile to one table |
| KernelPlan.TransparentIff | server/internal/ebpf/kernel_rules.go:46-118 | an arbitrary table changes no packet's fate if and only if each entry does to its packets what userspace does to every one of them |
| KernelPlan.PlanCoversIff | server/internal/ebpf/kernel_rules.go:88-147 | a key all of whose packets meet one kernel fate is in the plan, with that fate, if and only if the first rule that can match it names exactly that key |
| KernelPlan.MoreCouldBePushed | server/internal/ebpf/kernel_rules.go:88-147 | two drop rules of which nothing is pushed although pushing one would change no fate |
| KernelSync.Loader.RebuildKernelRules | server/internal/ebpf/loader_linux.go:339-377 | succeeds exactly when the plan fits and no needed map operation fails; a completed synchronisation removes the tracked stale keys and writes the plan; an interrupted one has written exactly what comes before the first failing write and keeps the old tracking |
| KernelSync.SyncedIsExactIffNothingUntracked | server/internal/ebpf/loader_linux.go:339-377 | after a completed synchronisation the table is the target if and only if every untracked key is one of its keys |
| KernelSync.TrackedKeysAreTableKeys | server/internal/ebpf/loader_linux.go:350-375 | with distinct rule ids the tracked keys are the keys of the table |
| KernelSync.WrittenIffReached | server/internal/ebpf/loader_linux.go:350-362 | the keys a synchronisation gets to write are those of the pushed rules up to the first one the kernel does not accept |
| KernelSync.AdditionAddsItsKeyOnly | server/internal/ebpf/kernel_rules.go:88-147 | adding one rule adds at most that rule's own entry to the table |
| KernelSync.RollbackIsExactIff | server/internal/ebpf/forwarder.go:78-90 | after a rollback the kernel is in step with the rules as now sorted if and only if every key the failed attempt wrote is old or asked for |
| KernelSync.RollbackRestoresTableIff | server/internal/ebpf/forwarder.go:78-90 | over all orders of the three sorts involved, when ties cannot change the old table, the rollback restores it if and only if the refused rule's own key was not written or was there before; otherwise its entry is all that is left |
| KernelSync.NothingElseIsAdded | server/internal/ebpf/forwarder.go:78-90 | even a rollback that fails adds no key but the refused rule's |
| KernelSync.TiesCanCostAnEntry | server/internal/ebpf/forwarder.go:192-205 | two rules of one priority whose two orders compile to different tables |
| KernelSync.KernelBackedRules.AddRule | server/internal/ebpf/forwarder.go:63-93 | an addition with the loader as callback, from any state a run can reach: when it is refused, when the rollback works, what it leaves; and, when kernel and rules were in step before, the exact table afterwards, from the old rules, the new rule and the failing operations |
| KernelSync.KernelBackedRules.RemoveRule | server/internal/ebpf/forwarder.go:96-111 | a removal with the loader as callback: the rules without that id whatever the kernel does, and when the kernel follows |
| KernelSync.LeftoversMatterIff | server/internal/ebpf/loader_linux.go:339-377 | after a completed synchronisation no packet meets another fate than in userspace if and only if each key left behind happens to do what userspace does |
| KernelSync.Run | server/internal/ebpf/forwarder.go:63-111 | over every run of additions and removals, whatever operations fail, each kernel key is tracked or was reached by an interrupted synchronisation, and a synchronisation that then completes leaves the compiled table and such keys |
| KernelSync.RefusedRuleStaysInTheKernel | server/internal/ebpf/forwarder.go:78-90 | a run from an empty rule map in which a refused drop rule still drops packets after a successful rollback |
| KernelSync.Loader.SyncKernelRules | server/internal/ebpf/loader_linux.go:314-337 | succeeds exactly when the compiled rules fit and no needed operation fails; while synchronisations succeed, the table is the compiled one and kernel and userspace together decide every packet as the rule map alone |
| Bits.OrWithHostMask | pkg/ipam/ipam.go:57-58 | or-ing an aligned address with 2^h - 1 adds it |
| Bits.AndWithNetMask | pkg/ipam/ipam.go:48-50 | masking clears the low h bits |
| Bits.LowBitsClearIsMultiple | pkg/ipam/ipam.go:48-50 | a number is a multiple of 2^h exactly when its low h bits are clear, said without division |
| Ipam.HostMaskValue | pkg/ipam/ipam.go:58-58 | the host mask is 2^h - 1 also for h = 32, where shift and subtraction wrap |
| Ipam.BroadcastIsLast | pkg/ipam/ipam.go:57-58 | the broadcast address is network + 2^h - 1 |
| Ipam.ContainsIsInterval | pkg/ipam/ipam.go:129-131 | subnet membership is the interval from network to broadcast |
| Ipam.AddressBytesRoundTrip | pkg/ipam/ipam.go:193-201 | four-byte addresses and 32-bit numbers convert back and forth without loss |
| Ipam.Uint32ToIP | pkg/ipam/ipam.go:197-201 | fills a fresh buffer with the big-endian bytes |
| Ipam.NewIPAM | pkg/ipam/ipam.go:33-69 | succeeds exactly for an IPv4 subnet of at least four addresses whose block holds the gateway, that is, the gateway and the address written agree above the host bits; the block is the aligned one around the address written, and the allocator is empty |
| Ipam.IPAM.Allocate | pkg/ipam/ipam.go:73-118 | keeps leases injective and inside the block; an existing lease is returned unchanged; otherwise every host from the cursor up to the one taken, or if there was none every host from the cursor on and then from the first host up, was held; there is none to take exactly when every host but the gateway is held |
| Ipam.IPAM.FindFrom | pkg/ipam/ipam.go:91-101 | the first loop finds the first free offset from the cursor on; no sum wraps |
| Ipam.IPAM.FindBelow | pkg/ipam/ipam.go:103-115 | the second loop finds the first free offset below the cursor, and its early exit is never taken |
| Ipam.IPAM.Reserve | pkg/ipam/ipam.go:121-155 | which of the six outcomes each request has, and the new leases and cursor |
| Ipam.IPAM.Release | pkg/ipam/ipam.go:158-162 | removes exactly that lease and keeps the invariant |
| Ipam.IPAM.FullAtCapacity | pkg/ipam/ipam.go:73-118 | every host is held exactly when 2^h - 2 leases exist, one fewer when the gateway is a host address, and there are never more |
| VirtualNetwork.VirtualNetworkManager.AssignNode | server/internal/controlplane/virtual_network.go:62-92 | reuses the stored address or takes the next free one; fails exactly without an id, on a full block or a failed save; allocator and store agree afterwards in every case |
| VirtualNetwork.VirtualNetworkManager.ReleaseNode | server/internal/controlplane/virtual_network.go:95-101 | allocator and store still agree if and only if the delete worked or there was nothing to free |
| VirtualNetwork.VirtualNetworkManager.BuildConfig | server/internal/controlplane/virtual_network.go:104-140 | the configuration carries the stored address, the settings in their fields and one route to the subnet through the gateway; a registered node without an address is repaired, with the exact new store contents |
| VirtualNetwork.VirtualNetworkManager.RestoreAllocations | server/internal/controlplane/virtual_network.go:142-153 | succeeds, in every iteration order, exactly when the stored addresses are distinct hosts, and rebuilds the same map |
| VirtualNetwork.RestoredCursorIsUnique | pkg/ipam/ipam.go:150-153 | the cursor that restoring leaves depends on the allocations only, not on their order |
| VirtualNetwork.CursorAfterOneMore | pkg/ipam/ipam.go:150-153 | restoring one more address moves the cursor to the order-independent value |
| VirtualNetwork.NewVirtualNetworkManager | server/internal/controlplane/virtual_network.go:40-59 | starts exactly when the gateway lies in the block around the configured subnet address and the stored allocations fit that block |
| ControlPlane.NodeRegistry.Register | server/internal/controlplane/node_registry.go:45-56 | stamps and saves the node, and caches it only if the save worked |
| ControlPlane.NodeRegistry.Heartbeat | server/internal/controlplane/node_registry.go:59-72 | the touched node, loaded from the store if need be, in cache and store |
| ControlPlane.NodeRegistry.PruneStaleIDs | server/internal/controlplane/node_registry.go:116-132 | removes and names exactly the nodes last seen before the cutoff |
| ControlPlane.RemovalAgreesIff | server/internal/controlplane/server.go:430-435 | removing nodes keeps cache, store and allocator in agreement if and only if both deletions work or nothing was removed |
| ControlPlane.GivingUpAgreesIff | server/internal/controlplane/server.go:213-216 | giving up an address after a failed save keeps them in agreement if and only if the node was new and its allocation could be deleted |
| ControlPlane.Server.SaveOrGiveUp | server/internal/controlplane/server.go:213-216 | a failed save takes the address back from the store unless that fails too; exactly when everything still agrees |
| ControlPlane.LostReregistration | server/internal/controlplane/server.go:197-222 | a run that ends with a registered node whose address is free for others |
| ControlPlane.Server.HandleRegisterNode | server/internal/controlplane/server.go:197-222 | the status, the answered node, the unchanged address of a re-registering node, and exactly when everything still agrees |
| ControlPlane.Server.HandleHeartbeat | server/internal/controlplane/server.go:224-231 | the status, the new stored nodes, and exactly when everything still agrees |
| ControlPlane.Server.HandleDeleteNode | server/internal/controlplane/server.go:246-260 | node and allocation go together; everything agrees exactly if both deletions worked or the node was unknown |
| ControlPlane.Server.HandleGetNodeRoutes | server/internal/controlplane/server.go:262-273 | answers with the node's own address exactly for registered nodes and changes nothing |
| ControlPlane.Server.PruneRound | server/internal/controlplane/server.go:421-443 | stale nodes lose registration and address together; exactly when everything still agrees |
| ControlPlane.Server.AddressesAreUnique | server/internal/controlplane/server.go:197-222 | no two registered nodes carry the same virtual address |
| ControlPlane.Restart | server/internal/controlplane/server.go:38-78 | a restart over a consistent store comes up with the same nodes and addresses, in agreement |
| ControlPlane.Run | server/internal/controlplane/server.go:197-273 | every run of registrations, heartbeats, deletions, route reads, prunes and restarts from an empty store, with allocation saves failing at will, ends in agreement with unique addresses |
| AccessControl.CoversFieldByField | server/internal/controlplane/node_registry.go:192-226 | from any access a rule covers, each of source, target, protocol and port may become exactly what the rule says of it, and the rule covers it until it expires |
| AccessControl.ScanPicksFirstGreatest | server/internal/controlplane/node_registry.go:187-235 | the scan ends with the first applicable rule of greatest non-negative priority |
| AccessControl.OrderIrrelevantIffTopRulesAgree | server/internal/controlplane/node_registry.go:187-242 | the answer is the same in every iteration order if and only if the live matching rules of the top priority agree |
| AccessControl.ACLRuleEngine.Evaluate | server/internal/controlplane/node_registry.go:187-242 | denies when no live matching rule has a non-negative priority, and otherwise answers as the top rules when they agree |
| Punch.BuildPunchPacket | desktop/internal/p2p/punch.go:203-210 | the buffer written field by field is the packet |
| Punch.ParseBuilt | desktop/internal/p2p/punch.go:203-225 | parsing a built packet, with anything after it, gives its fields back |
| Punch.ParsedIsBuilt | desktop/internal/p2p/punch.go:213-225 | whatever parses starts with the packet built from the parsed fields |
| Punch.PacketLayout | desktop/internal/p2p/punch.go:203-210 | the bytes on the wire: NP, session, flags, nonce with the most significant byte first |
| Punch.FlagsOnTheWire | desktop/internal/p2p/punch.go:179-199 | every SYN is answered by a SYNACK, a SYNACK by an ACK, and a SYNACK or ACK posts a success |
| Punch.StrangersAreIgnored | desktop/internal/p2p/punch.go:155-199 | packets of another session, of another format or with other flags change nothing |
| Punch.StepKeepsInv | desktop/internal/p2p/punch.go:84-201 | every step of either endpoint, or delivery by the network, keeps the invariant |
| Punch.ConfirmedMeansBothDirections | desktop/internal/p2p/punch.go:84-201 | in every run, an endpoint that confirms has had a same-session packet delivered in each direction |
| Punch.ConfirmationReachesPeer | desktop/internal/p2p/punch.go:102-198 | in every run, once one side confirms, an ACK to the other has been handed to the socket or the other has confirmed, if and only if there is such an ACK or no success of the other waits unread; a success that waits can be confirmed at once or its endpoint has given up |
| Punch.PeerCanStillTimeOut | desktop/internal/p2p/punch.go:102-128 | a run in which one side is verified, the other failed, and no ACK was sent to it |
| Punch.HandshakeSurvivesLoss | desktop/internal/p2p/punch.go:84-201 | from every state in which both endpoints of a session are under way, whatever was lost before, the next SYN of either side can lead to both being verified |
| Punch.BothCanConfirm | desktop/internal/p2p/punch.go:84-201 | from any session and nonces there is a run in which both sides are verified |
| IcePriority.PriorityHasNoTopBit | desktop/internal/p2p/ice.go:565-576 | for components 1 to 256 and 16-bit local preferences nothing wraps and the result is below 2^31 |
| IcePriority.PriorityIsInjective | desktop/internal/p2p/ice.go:565-576 | the priority determines type, local preference and component |
| IcePriority.TypeDominates | desktop/internal/p2p/ice.go:565-576 | a host candidate outranks every reflexive one, and that every relayed one, whatever the other inputs |
| IcePriority.PairPriorityIsFormulaIff | desktop/internal/p2p/ice.go:578-589 | for all 32-bit priorities the 64-bit sum is the formula of section 6.1.2.3 of RFC 8445 if and only if not both are 2^32 - 1 |
| IcePriority.LocalPairDoesNotWrap | desktop/internal/p2p/ice.go:421-429 | with a priority computed here on one side nothing wraps, whatever priority the remote candidate claims |
| IcePriority.GreatestPairGoesRound | desktop/internal/p2p/ice.go:578-589 | the pair of two greatest priorities ranks below the pair of two ones |
| IcePriority.PairOrderIsLexicographicIff | desktop/internal/p2p/ice.go:578-589 | for all 32-bit priorities two pairs order by smaller priority, larger priority and tie bit if and only if neither sum goes round out of that order and neither larger priority overflows into the other half far enough to make up for a smaller priority one below |
| IcePriority.PairOrderIsLexicographic | desktop/internal/p2p/ice.go:578-589 | for priorities below 2^31 pair priorities always order by smaller priority, larger priority, and which argument is larger |
| IcePriority.TopBitCanOvertake | desktop/internal/p2p/ice.go:578-589 | a pair with a remote priority from 2^31 on outranks one with a greater smaller priority |
| IcePriority.AgentsRankAlikeIff | desktop/internal/p2p/ice.go:421-429 | for all 32-bit priorities two agents that each pass their own candidate first rank two pairs alike if and only if the pairs do not both agree but for the tie bit and tilt opposite ways |
| IcePriority.AgentsRankAlikeUnlessMirrored | desktop/internal/p2p/ice.go:421-429 | for priorities below 2^31 they rank two pairs alike if and only if the pairs are not mirror images |
| IcePriority.TopBitCanSplitAgents | desktop/internal/p2p/ice.go:421-429 | two pairs, not mirror images, that two agents rank differently once a priority reaches 2^31 |
| IceAgent.SortByPriority | desktop/internal/p2p/ice.go:437-444 | the list is permuted into non-increasing priority |
| IceAgent.ProductCounts | desktop/internal/p2p/ice.go:194-213 | the product pairs each local with each remote as often as the two are listed |
| IceAgent.ProductUnchangedIff | desktop/internal/p2p/ice.go:194-213 | a further local candidate enlarges locals x remotes exactly when there are remotes |
| IceAgent.Agent.AddLocalCandidate | desktop/internal/p2p/ice.go:431-435 | the checklist stays complete if and only if no remote candidate is known yet |
| IceAgent.Agent.AddRemoteCandidate | desktop/internal/p2p/ice.go:194-213 | the sorted checklist is exactly locals x remotes again; new pairs wait, old ones are untouched |
| IceAgent.Agent.GetNextWaitingPair | desktop/internal/p2p/ice.go:446-458 | takes the waiting pair of greatest priority, marks only it, and finds none exactly when none waits |
| IceAgent.Agent.FinishCheck | desktop/internal/p2p/ice.go:460-525 | a response makes the pair succeed, the first success is nominated, later ones are not |
| IceAgent.Agent.AllPairsFailed | desktop/internal/p2p/ice.go:535-548 | true exactly for a non-empty checklist of failed pairs |
| IceAgent.Agent.Tick | desktop/internal/p2p/ice.go:230-246 | success only with a selected pair and nothing waiting, failure only when all pairs failed, otherwise at most one check is started |
| IceAgent.Run | desktop/internal/p2p/ice.go:194-254 | over every run the checklist stays locals x remotes in order, pairs only move forward and are checked at most once, a selected pair stays selected and succeeded |
| Installer.FileSystem.Rename | installer/installer.go:127-137 | moves a directory in one step or changes nothing |
| Installer.FileSystem.RemoveAll | installer/installer.go:245-251 | removes a directory file by file; at no point does anything else change |
| Installer.NewVersionHoldsPayload | installer/zip.go:76-81 | the new version holds every payload file with the content of the last entry of its name, the installer under its own name, and nothing else |
| Installer.Stage | installer/installer.go:93-116 | builds the new version under the staging name only; succeeds exactly when none of its steps fails, opening, creating and copying the installer being three, and the payload has the main program |
| Installer.RollbackInstall | installer/installer.go:245-251 | from any point after the backup the old version stays intact, and successful operations restore the disk |
| Installer.Replace | installer/installer.go:122-150 | backup, move and integration keep the old version intact at every point; on success the new version is in place |
| Installer.Prepare | installer/installer.go:66-120 | succeeds exactly when no check or staging step fails and the payload has the main program; until then nothing but the staging directory changes |
| Installer.Install | installer/installer.go:62-158 | after success the install directory holds exactly the payload's files and the installer; whatever fails and wherever the machine stops, the old version is intact until the new one is installed, and other directories never change; it succeeds exactly when no step up to the shortcuts fails, the payload has the main program and a needed backup name is free; a failed installation whose clean-up works leaves the disk as it was, and when the payload has the main program and the backup name is free, a single fault never stops the clean-up |
| PathPolicy.ScoreInClosedForm | desktop/internal/scheduler/policy.go:20-49 | the score as one formula of type, round-trip time, loss and bandwidth, for the five path types |
| PathPolicy.UnknownTypeHasNoBonus | desktop/internal/scheduler/policy.go:20-49 | any other type scores one type step below the last |
| PathPolicy.RoundsToNearest | desktop/internal/scheduler/policy.go:55-55 | rounding moves a score by at most half a unit of the fourth place |
| PathPolicy.ScoreIsMonotone | desktop/internal/scheduler/policy.go:30-60 | a path no worse in type, round-trip time, loss and measured bandwidth never scores lower, even after rounding |
| PathPolicy.BandwidthScoreMonotoneIff | desktop/internal/scheduler/policy.go:42-46 | more bandwidth scores no less if and only if the lower value is measured, neither is, or the higher reaches 1 Mbit/s |
| PathPolicy.MeasuringCanLowerScore | desktop/internal/scheduler/policy.go:42-60 | whatever the other ingredients, measuring 1 bit/s gives a lower rounded score than not measuring |
| PathPolicy.ScoreIsInUnitInterval | desktop/internal/scheduler/policy.go:30-60 | with loss between 0 and 1 the score lies between 0 and 1, rounded or not |
| PathPolicy.RankPaths | desktop/internal/scheduler/policy.go:63-79 | the scores of exactly the usable paths, by score and then priority |
| PathPolicy.BestIsMaximal | desktop/internal/scheduler/policy.go:63-87 | the selected score belongs to a usable path and is at least as good as every usable path's; none only when no path is usable |
| Scheduler.LinkScheduler.RegisterPath | desktop/internal/scheduler/scheduler.go:49-58 | stores the path under its id and makes it active only when none was |
| Scheduler.LinkScheduler.UnregisterPath | desktop/internal/scheduler/scheduler.go:61-69 | removes the path; if it was active there is no active path |
| Scheduler.LinkScheduler.LockPath | desktop/internal/scheduler/scheduler.go:92-103 | a registered path becomes locked and active, anything else changes nothing |
| Scheduler.LinkScheduler.UnlockPath | desktop/internal/scheduler/scheduler.go:106-116 | clears the lock and the path's mark |
| Scheduler.LinkScheduler.Evaluate | desktop/internal/scheduler/scheduler.go:119-144 | the locked registered path, otherwise a usable path of greatest rounded score and, among those, of first type; null exactly when none is usable |
| Scheduler.LinkScheduler.SwitchTo | desktop/internal/scheduler/scheduler.go:147-174 | a registered other path is switched to if and only if every switch so far lies at least the cooldown back; path changes are a cooldown apart |
| Scheduler.LinkScheduler.AutoEvaluate | desktop/internal/scheduler/scheduler.go:210-238 | never moves while locked; otherwise moves only from no path or a path over the loss threshold, only to a best path, only when every switch lies at least the cooldown back, and does move when it can |
| Scheduler.UnregisterWhileLocked | desktop/internal/scheduler/scheduler.go:61-69 | unregistering the locked path leaves the scheduler without an active path at the next evaluation, however good the others are |
| Scheduler.Run | desktop/internal/scheduler/scheduler.go:49-238 | in every run the active path is null or registered and path changes by SwitchTo are a cooldown apart |
| BigEndian.ReadWritten | pkg/protocol/codec.go:50-50 | reading a big-endian field back gives the number written |
| BigEndian.WriteRead | pkg/protocol/codec.go:24-24 | every field of bytes is the encoding of the number it reads as |
| BigEndian.ByteAt | pkg/protocol/codec.go:50-50 | byte i of a field weighs 256 to the power of the number of bytes after it |
| BigEndian.ByteWeights | pkg/protocol/codec.go:24-24 | what two and four bytes read as |
| BigEndian.PutUint | pkg/protocol/codec.go:50-50 | writes the field in place and leaves the rest of the buffer alone |
| FrameCodec.FrameLayout | pkg/protocol/codec.go:42-63 | a frame is the type byte, four bytes of length with the most significant first, and the payload |
| FrameCodec.RoundTripIff | pkg/protocol/codec.go:17-63 | an accepted message reads back if and only if its payload is at most 16 MB |
| FrameCodec.FourGigabytesVanish | pkg/protocol/codec.go:42-63 | a payload of 2^32 bytes is accepted and reads back as an empty message |
| FrameCodec.ReadReencodes | pkg/protocol/codec.go:17-39 | whatever is read re-encodes to the bytes consumed |
| FrameCodec.CutFrameYieldsNothing | pkg/protocol/codec.go:17-39 | a proper prefix of a frame never yields a message; which error it yields |
| FrameCodec.StreamRoundTrip | pkg/protocol/codec.go:17-63 | concatenated frames read back as the same messages and then a clean end |
| FrameCodec.TruncatedStreamYieldsPrefix | pkg/protocol/codec.go:17-63 | a stream cut anywhere yields exactly the messages whose frames are complete |
| FrameCodec.Reader.ReadMessage | pkg/protocol/codec.go:17-39 | reads one message, consuming exactly its frame, or fails as the bytes dictate |
| FrameCodec.Writer.WriteMessage | pkg/protocol/codec.go:42-63 | writes the whole frame, or nothing for an oversized length, or a proper prefix when the sink fails |
| GoStrings.CompareIsLexicographic | desktop/diagnostics.go:365-365 | string comparison is the lexicographic order, said without recursion |
| GoStrings.TrimmedIs | desktop/diagnostics.go:214-214 | space around a text, and nothing else, is taken off |
| GoStrings.AtoiReads | desktop/diagnostics.go:313-316 | digits are read as their number if and only if it fits a 64-bit int |
| GoStrings.MagnitudeIsValue | desktop/diagnostics.go:357-383 | digit strings order as numbers by significant length and then alphabetically |
| GoStrings.CaseServesIff | desktop/diagnostics.go:213-215 | lower-casing keeps the order of two texts if and only if the first two characters to differ order alike lower-cased or, when they differ in case only, what follows them orders the same way |
| SemVer.ParseSemanticVersion | desktop/diagnostics.go:292-321 | the loop over the core parts computes the parsing function |
| SemVer.AcceptedIff | desktop/diagnostics.go:292-321 | a version parses if and only if its normalised text is three digit strings that fit an int, joined by dots, and then nothing or a dash and a non-blank rest |
| SemVer.ReadsParses | desktop/diagnostics.go:292-321 | such text parses to the numbers of its core and the dot-separated identifiers of its rest |
| SemVer.ParseRendered | desktop/diagnostics.go:213-321 | every well-formed version, with or without a leading v and build metadata, parses to itself |
| SemVer.ParsesWithSpaceAndCapitals | desktop/diagnostics.go:213-321 | so does every well-formed version written in capitals or with space around it |
| SemVer.ComparePrereleaseIdentifiers | desktop/diagnostics.go:323-346 | the index walk computes the list comparison |
| SemVer.IdentifierComparison | desktop/diagnostics.go:348-383 | identifier comparison is antisymmetric in sign and, for identifiers that do not overflow an int, the order of items 11.4.1 to 11.4.3 |
| SemVer.FollowsStandardIff | desktop/diagnostics.go:348-383 | on any two identifiers the code follows items 11.4.1 to 11.4.3 if and only if neither is a digit string that overflows an int, or the alphabetical order of the two texts serves |
| SemVer.OversizedMisorder | desktop/diagnostics.go:348-383 | a longer oversized digit string with a smaller first digit is put first, against item 11.4.1 |
| SemVer.ListComparison | desktop/diagnostics.go:323-346 | list comparison is antisymmetric in sign; on int-sized identifiers it is decided by the first difference, then by length |
| SemVer.ComparisonFollowsSection11 | desktop/diagnostics.go:275-290 | on versions that parse and whose numeric identifiers fit an int, the sign of the comparison is precedence of section 11 on the lower-cased text; 0 when one does not parse |
| SemVer.CaseIsIgnored | desktop/diagnostics.go:213-215 | versions that differ in case only compare equal |
| SemVer.CaseCanMatter | desktop/diagnostics.go:213-215 | RC and rc, which section 11 tells apart, compare equal |
| SemVer.CaseCanReverse | desktop/diagnostics.go:213-215 | any identifier with a leading capital is offered as an update of one with an earlier lower-case letter, though section 11 puts the capital first |
| SemVer.FollowsAsWrittenIff | desktop/diagnostics.go:213-383 | on any two identifiers as written the code follows items 11.4.1 to 11.4.3 if and only if lower-casing keeps the order of two alphanumeric ones, or else oversized numbers happen to order right |
| SemVer.WithoutCapitalsAsWritten | desktop/diagnostics.go:213-290 | versions without capitals whose numeric identifiers fit an int are ordered as section 11 orders them as written |
| SemVer.DowngradeOffered | desktop/diagnostics.go:265-267 | a family of versions offered as updates of versions that section 11 puts after them |
| SemVer.ValidVersionsAreTotallyPreordered | desktop/diagnostics.go:275-290 | on valid versions comparison is reflexive, total and transitive |
| SemVer.UpdatesAreTransitive | desktop/diagnostics.go:265-267 | an update of an update is an update, and never the same string |
| SemVer.NoUpdateCycles | desktop/diagnostics.go:265-267 | no chain of updates returns to its start |
| SemVer.NeitherUpdatesIsTransitiveIffValid | desktop/diagnostics.go:265-290 | "neither is an update of the other" is transitive through a version if and only if that version is valid |

## Left out

- HTTP and RPC plumbing, TLS, tokens, the CLI, the desktop front end, tunnel drivers and STUN messages: calls into libraries.
- SQL text: the store is the in-memory one with failing operations, and a restart keeps its contents.
- Nodes are values: with the in-memory store the registry and the store share one node object, with the SQL store they do not; the model follows the latter.
- A server without address management, or whose loader is not in kernel mode, does nothing in the modelled steps.
- Rule objects added twice to a rule map: `RuleMap.AddRule` is modelled for them too, but rule ids are known to be distinct only for distinct objects (`IdsAgree`), which `Loader.SyncKernelRules` asks for.
- Resolving forward targets, parsing CIDR text and rendering addresses: parameters or already-parsed values.
- Interleavings inside one handler, prune round, rule addition or connectivity check: each is one atomic step.
- A punch engine that is started again, and replies to an address other than the peer's: one attempt between two endpoints.
- Timeouts and cancellation of the ICE check loop, the map of pending checks and candidate gathering: they end a run or sit outside it.
- Install paths with a trailing separator or surrounding blanks, archive traversal checks and uninstallation: directories are names that do not contain one another; a rename onto an existing directory fails, as on Windows.
- Prober estimates and path state changes made outside the scheduler, and floating-point rounding other than the explicit one: scores are over the reals.
- Lower-casing of letters outside ASCII in version strings.
