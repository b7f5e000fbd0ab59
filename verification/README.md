# Verified model of the tenant network

A Dafny model of the address allocation and isolation core of a multi-tenant Kubernetes network: how a node
cuts its CIDR block into tenant blocks, how a tenant hands addresses to pods and grows, how tenants come and
go while pods are being attached, how the operator places a tenant on nodes, and what the firewall rules, the
wire format and the peering tables mean. Every claim below is a contract or lemma that `dafny verify
dfyconfig.toml` proves for all inputs, all runs or all reachable states.

| file | contents |
|---|---|
| `Bits.dfy`, `Ipv4.dfy`, `Ipv4Bytes.dfy` | two's complement bit operations; IPv4 addresses and blocks (section 3.1 of RFC 4632) as numbers; the byte-level address code |
| `TrieModel.dfy`, `TrieTheorems.dfy`, `SubnetTrie.dfy` | the subnet buddy trie as a value, theorems about its runs, and the pointer structure that refines it |
| `Words.dfy`, `IpamModel.dfy`, `Ipam.dfy` | 64-bit words as sets, the pod address allocator as a value, and the bitmap that refines it |
| `TenantSystem.dfy`, `TenantProgress.dfy`, `SingleFlight.dfy` | the tenant lifecycle as a step system, what its steps achieve, and the expansion protocol |
| `Zones.dfy`, `ZoneProtocol.dfy` | the zone placement computation and the placement protocol with stale caches |
| `Firewall.dfy` | the tenant isolation rules, with an interpreter for filter chains |
| `WireModel.dfy`, `Wire.dfy` | the binary wire format and frame header, and the readers and writers |
| `Peers.dfy` | the Peers map against the neighbour, forwarding and route tables |

Objects that the source mutates are classes; each mutating method states its whole effect as a step of a
value-level model (`Model()` before and after), and the theorems are about those steps and their runs. A nil
pointer is `None` or `null`, an error return is `Err`, `None` or a boolean. Locks make the operations of the
trie and of one IPAM atomic, so each is one step. Machine integers appear where their width matters: bytes,
32-bit address arithmetic, the infinite two's complement OR behind `ipv4Diff`, 64-bit words, uvarints and the
32-bit length field of a frame. Go's `int` is taken as 64 bits wide, which `ipv4Diff` and the wire format rely on.

## Where the code and its description differ

- `Deallocate` rebuilds down to /30 whatever leaf size the trie was built with, so allocate, expand and
  deallocate restore the trie only under the condition of `TrieTheorems.RoundTrip`;
  `TrieTheorems.RoundTripFails` is a trie that fails it.
- `BitmapIPAM.Allocate` does not look at the pod key, so allocating again under a known key leaves the old bit
  set with no pod accounting for it (`IpamModel.AllocateExact` gives the exact condition, `IpamModel.LeakExample` an input).
- `equalNodeInfos` compares through a map by name, so two equal lists with conflicting entries of one name
  count as changed (`Zones.ChangedIsExact`, with the input `Zones.ChangeReportedInVain`).
- Recomputing zones empties the assigned list when awaiting alone exceeds the zone count
  (`Zones.PlacedCount`).
- Distinct tenant names can map to one firewall chain, exactly under the condition of `Firewall.SameChain`, and
  ensuring a tenant again without an interface it had keeps the old jump (`Firewall.StaleJump`).

## Model

| member | source | states |
|---|---|---|
| `Ipv4Bytes.SplitSubnet` | pkg/data/trie/utils.go:59-85 | the OR of one bit into one byte is integer halving: the results are the lower and upper half of the block; fails exactly at the maximum mask or /32 |
| `Ipv4Bytes.LastIP` | pkg/network/ipam/bitmap_ipam.go:286-303 | the bytewise OR with the inverted mask is the last address of the block, canonical or not |
| `Ipv4Bytes.CidrContains` | pkg/network/ipam/bitmap_ipam.go:279-284 | true exactly when the given address and the last address of the inner network lie in the outer block |
| `Ipv4Bytes.FirstIP` | pkg/network/device/util.go:11-40 | the carry loop yields network address plus one; an error exactly for a /32 |
| `Ipv4Bytes.Increment` | pkg/network/device/util.go:23-29 | adds one modulo 2^32 |
| `Ipv4Bytes.AddIPv4` | pkg/network/ipam/util.go:9-22 | the shifts and byte casts are addition modulo 2^32 |
| `Ipv4Bytes.ShiftOrBytes` | pkg/network/ipam/util.go:16-16 | OR of shifted bytes is the positional sum |
| `Ipv4Bytes.ShiftOrNegative` | pkg/network/ipam/util.go:25-30 | the shifted OR of signed byte differences is negative exactly when one difference is |
| `TrieModel.FreshValid` | pkg/data/trie/utils.go:9-34 | a built trie is well formed: every node has zero or two children, parents exist, tenants sit on leaves and no two share a node |
| `TrieModel.AllocateValid` | pkg/data/trie/trie.go:62-106 | allocating a free leaf keeps the trie well formed |
| `TrieModel.MergeValid` | pkg/data/trie/trie.go:117-168 | merging keeps the trie well formed |
| `TrieModel.MergeKeepsOther` | pkg/data/trie/trie.go:141-155 | no other tenant sits anywhere in the merged block |
| `TrieModel.DeallocateValid` | pkg/data/trie/trie.go:35-59 | deallocating and rebuilding keeps the trie well formed |
| `TrieModel.ReduceValid` | pkg/network/subnet/trie/trie.go:109-151 | splitting a tenant's block keeps the trie well formed |
| `TrieModel.StepValid` | pkg/network/subnet/trie/trie.go:31-171 | every manager operation, failed or not, keeps the trie well formed and its root and leaf size |
| `TrieModel.RunValid` | pkg/network/subnet/trie/trie.go:31-171 | every state of every run of Allocate, Deallocate, Expand, Reduce and Release is well formed |
| `TrieModel.LeavesTile` | pkg/data/trie/utils.go:9-34 | in a well-formed trie each address of the root block is in exactly one leaf |
| `TrieModel.TenantsDisjoint` | pkg/network/subnet/trie/trie.go:31-171 | distinct tenants hold disjoint blocks |
| `TrieModel.UnderInside` | pkg/data/trie/utils.go:16-32 | a descendant's block lies inside its ancestor's |
| `TrieModel.ApartDisjoint` | pkg/data/trie/utils.go:16-32 | blocks of nodes not on one line do not overlap |
| `TrieTheorems.BestUnique` | pkg/data/trie/trie.go:84-98 | the placement rule determines one leaf |
| `TrieTheorems.GrowthIsMergeCount` | pkg/data/trie/node.go:26-41 | a tenant can be merged k times in a row if and only if k is at most its expandable depth |
| `TrieTheorems.PlacementGrowth` | pkg/data/trie/node.go:26-41 | for a free leaf of any well-formed trie, `MaxExpandableDepth` is exactly the number of merges that succeed in a row once the leaf is allocated; the next one fails |
| `TrieTheorems.MergeGrowth` | pkg/data/trie/trie.go:117-168 | a merge uses up exactly one level of growth |
| `TrieTheorems.GrowthClear` | pkg/data/trie/node.go:26-41 | growth of at least k means exactly that the block k levels up holds no tenant |
| `TrieTheorems.RoomyLeaf` | pkg/data/trie/trie.go:62-106 | with fewer than 2^j tenants some free leaf can grow D - j levels (pigeonhole over the blocks at depth j) |
| `TrieTheorems.BestHasRoom` | pkg/data/trie/trie.go:82-98 | the placement rule then picks a block at depth j that holds no tenant |
| `TrieTheorems.AllocationsSpread` | pkg/data/trie/trie.go:62-106 | after any number of allocations on a fresh trie, while there are at most 2^j tenants no two share a block at depth j |
| `TrieTheorems.RunNoEmptyId` | pkg/network/subnet/trie/trie.go:31-49 | the empty id never holds a block in any run |
| `TrieTheorems.SpreadExpands` | pkg/data/trie/trie.go:117-168 | tenants spread over depth j can each grow up to depth j, in every interleaving of their expansions |
| `TrieTheorems.GrowthRoom` | pkg/data/trie/trie.go:62-106 | growth room: after at most 2^j allocations on a fresh trie of depth D every tenant can be expanded through the manager D - j times, in any interleaving |
| `TrieTheorems.MergeTimesShape` | pkg/data/trie/trie.go:117-168 | k expansions hand over the ancestor k levels up and remove exactly the nodes below it |
| `TrieTheorems.RoundTrip` | pkg/data/trie/trie.go:35-59 | allocate, k expansions, deallocate restores the trie if and only if the block stays below the root and the leaves are /30, or nothing was expanded and they are finer |
| `TrieTheorems.FreshRoundTrip` | pkg/data/trie/trie.go:35-59 | on a built trie of any leaf size, allocating and deallocating any leaf restores it if and only if the leaves are /30 or finer |
| `TrieTheorems.RoundTripFails` | pkg/data/trie/trie.go:52-56 | a failing trie: 10.0.0.0/28 with /29 leaves is not restored by allocate and deallocate |
| `TrieTheorems.ExpandAfterReduce` | pkg/network/subnet/trie/trie.go:68-151 | Expand right after Reduce succeeds and restores the trie |
| `TrieTheorems.RunFull` | pkg/network/subnet/trie/trie.go:31-171 | in every run without Reduce on a trie built to /30, every free leaf is a /30, so the round-trip condition holds |
| `TrieTheorems.FreshFull` | pkg/data/trie/utils.go:9-34 | a built trie of any leaf size has all its free leaves at that size and nothing deeper |
| `TrieTheorems.AllocateOutcome` | pkg/network/subnet/trie/trie.go:31-49 | fails exactly for the empty id, or for a new tenant when no leaf is free; otherwise answers the block the tenant holds from then on, and no other tenant's block changes |
| `TrieTheorems.DeallocateOutcome` | pkg/network/subnet/trie/trie.go:51-66 | fails exactly for the empty id and the holder of the root; otherwise the tenant holds nothing and no other tenant's block changes |
| `TrieTheorems.ExpandOutcome` | pkg/network/subnet/trie/trie.go:68-107 | succeeds exactly when the tenant's block has room to grow, and then answers the doubled block, which contains the old one |
| `TrieTheorems.ReduceOutcome` | pkg/network/subnet/trie/trie.go:109-151 | succeeds exactly above the leaf size, and then answers the lower half, leaving the upper half free |
| `SubnetTrie.IPTrie.constructor` | pkg/data/trie/trie.go:15-23 | a one-node trie with an empty index |
| `SubnetTrie.IPTrie.BuildRecursive` | pkg/data/trie/utils.go:9-34 | adds exactly the subtree down to the mask, with new unallocated nodes, and leaves all others |
| `SubnetTrie.IPTrie.Build` | pkg/data/trie/trie.go:26-32 | the pointer structure is the fresh trie of the model |
| `SubnetTrie.IPTrie.AllocatedIffHeld` | pkg/data/trie/trie.go:100-102 | a reachable node is marked allocated exactly when the index maps some tenant to it |
| `SubnetTrie.IPTrie.HasAllocatedDescendant` | pkg/data/trie/utils.go:97-105 | true exactly when some tenant's block lies at or below the node |
| `SubnetTrie.IPTrie.GetSibling` | pkg/data/trie/utils.go:87-95 | the node of the sibling path, null exactly at the root |
| `SubnetTrie.IPTrie.MaxExpandableDepth` | pkg/data/trie/node.go:26-41 | the loop computes the model's growth |
| `SubnetTrie.IPTrie.FindFreeLeavesRecursive` | pkg/data/trie/utils.go:36-56 | appends the free leaves below a node to the result |
| `SubnetTrie.IPTrie.FreeLeavesListed` | pkg/data/trie/trie.go:108-115 | the search lists exactly the free leaves, each once, by ascending address |
| `SubnetTrie.IPTrie.SelectBest` | pkg/data/trie/trie.go:82-98 | the first leaf with the greatest expandable depth |
| `SubnetTrie.IPTrie.FirstIsBest` | pkg/data/trie/trie.go:82-98 | in address order that is the lowest of the free leaves with most room |
| `SubnetTrie.IPTrie.FindBest` | pkg/data/trie/trie.go:75-98 | the placement rule's leaf, null exactly when no leaf is free |
| `SubnetTrie.IPTrie.Allocate` | pkg/data/trie/trie.go:62-106 | refines the model: the best free leaf goes to a new tenant, or nothing changes because the tenant is known or no leaf is free |
| `SubnetTrie.IPTrie.Merge` | pkg/data/trie/trie.go:117-168 | succeeds exactly when the sibling subtree holds no tenant, and then is the model's merge |
| `SubnetTrie.IPTrie.Deallocate` | pkg/data/trie/trie.go:35-59 | succeeds exactly for a known tenant below the root, and then is the model's deallocation |
| `SubnetTrie.TrieManager.constructor` | pkg/network/subnet/trie/trie.go:20-29 | a well-formed trie built down to the leaf mask |
| `SubnetTrie.TrieManager.Allocate` | pkg/network/subnet/trie/trie.go:31-49 | refines the model's step: a known tenant gets its block again, a new one the best free leaf |
| `SubnetTrie.TrieManager.Deallocate` | pkg/network/subnet/trie/trie.go:51-66 | refines the model's step: unknown tenants are a success, the root is refused |
| `SubnetTrie.TrieManager.Expand` | pkg/network/subnet/trie/trie.go:68-107 | refines the model's step: the parent block if the merge is possible, else an error and no change |
| `SubnetTrie.TrieManager.Reduce` | pkg/network/subnet/trie/trie.go:109-151 | refines the model's step: the lower half, or an error at the leaf size |
| `SubnetTrie.TrieManager.Release` | pkg/network/subnet/trie/trie.go:153-171 | the same step as Deallocate |
| `SubnetTrie.TrieManager.Get` | pkg/network/subnet/trie/trie.go:173-182 | the tenant's block, an error exactly for an unknown tenant |
| `Words.TotalOnesIsSize` | pkg/network/ipam/bitmap_ipam.go:96-99 | the population count of the words is the number of marked indices |
| `Words.MarkAdds` | pkg/network/ipam/bitmap_ipam.go:138-138 | OR with a shifted one adds exactly that index and stays in 64 bits |
| `Words.UnmarkRemoves` | pkg/network/ipam/bitmap_ipam.go:169-169 | AND NOT with a shifted one removes exactly that index |
| `Words.LowestClearBit` | pkg/network/ipam/bitmap_ipam.go:124-128 | the trailing zeros of the complement are the lowest clear bit |
| `IpamModel.IpToIndexExact` | pkg/network/ipam/bitmap_ipam.go:259-277 | for every address and network the index computed through the shifted OR is the true offset less two in the pod range and -1 elsewhere |
| `IpamModel.DiffCases` | pkg/network/ipam/util.go:25-30 | the OR is the difference when no byte borrows and negative otherwise |
| `IpamModel.NetworkBytesBelow` | pkg/network/ipam/bitmap_ipam.go:267-268 | masking lowers no byte below the network's, so no borrow happens inside the block |
| `IpamModel.IndexRoundTrip` | pkg/network/ipam/bitmap_ipam.go:253-256 | indexToIP then ipToIndex is the identity on indices below the capacity |
| `IpamModel.AddressRoundTrip` | pkg/network/ipam/bitmap_ipam.go:253-277 | ipToIndex then indexToIP is the identity on the pod range |
| `IpamModel.RemainingIsRoom` | pkg/network/ipam/bitmap_ipam.go:91-106 | nothing remains exactly when every index is taken; otherwise there is a lowest free one |
| `IpamModel.AllocateKeeps` | pkg/network/ipam/bitmap_ipam.go:109-154 | succeeds exactly when something remains, uses up exactly one, records the pod and nothing else; the address is in the pod range and held by no pod |
| `IpamModel.AllocateLowest` | pkg/network/ipam/bitmap_ipam.go:121-149 | first fit: every pod address below the one given out is taken |
| `IpamModel.AllocateExact` | pkg/network/ipam/bitmap_ipam.go:138-147 | the set bits stay exactly those of recorded pods if and only if the key was fresh |
| `IpamModel.ReusedKeyLeaks` | pkg/network/ipam/bitmap_ipam.go:138-147 | on every network with two pod addresses, two allocations under one key take two addresses and record one pod |
| `IpamModel.LeakExample` | pkg/network/ipam/bitmap_ipam.go:138-147 | a failing input: one pod key allocated twice in 10.0.0.0/29 |
| `IpamModel.FreeKeeps` | pkg/network/ipam/bitmap_ipam.go:157-178 | freeing a held address always succeeds and gives back exactly one |
| `IpamModel.FreeOutcome` | pkg/network/ipam/bitmap_ipam.go:157-178 | succeeds exactly in the pod range and forgets exactly the holder of the address |
| `IpamModel.FreeExact` | pkg/network/ipam/bitmap_ipam.go:157-178 | freeing keeps the set bits exactly those of recorded pods |
| `IpamModel.ExpandKeeps` | pkg/network/ipam/bitmap_ipam.go:180-225 | pods keep their addresses, the new bits are exactly their image under the new base, and none sits on the network, bridge or broadcast address |
| `IpamModel.ExpandSucceeds` | pkg/network/ipam/bitmap_ipam.go:187-221 | expansion to a containing network always succeeds; from a canonical network it succeeds only then |
| `IpamModel.ExpandMakesRoom` | pkg/network/ipam/bitmap_ipam.go:180-225 | after expansion to a network of greater capacity an address is free, even if all were taken |
| `IpamModel.RunInv` | pkg/network/ipam/bitmap_ipam.go:109-225 | in every run bits lie below the capacity and distinct pods hold distinct addresses of the pod range |
| `IpamModel.RunExact` | pkg/network/ipam/bitmap_ipam.go:91-225 | conservation: in every run with fresh keys, remaining plus recorded pods is the capacity |
| `BitmapIpam.NewBitmapIPAM` | pkg/network/ipam/bitmap_ipam.go:30-61 | succeeds exactly for IPv4 networks of at least four addresses, with an empty allocator |
| `BitmapIpam.IPToIndex` | pkg/network/ipam/bitmap_ipam.go:259-277 | the true index, -1 outside the pod range |
| `BitmapIpam.BitmapIPAM.GetCapacity` | pkg/network/ipam/bitmap_ipam.go:70-82 | all addresses but network, bridge and broadcast |
| `BitmapIpam.BitmapIPAM.GetRemaining` | pkg/network/ipam/bitmap_ipam.go:91-106 | capacity less marked indices; the clamp never applies |
| `BitmapIpam.BitmapIPAM.FindFree` | pkg/network/ipam/bitmap_ipam.go:122-136 | the word scan finds the lowest free index below the capacity, or none exactly when the allocator is full |
| `BitmapIpam.BitmapIPAM.Allocate` | pkg/network/ipam/bitmap_ipam.go:109-154 | refines first fit on sets: the lowest free index is marked and its address recorded, or an error exactly when full |
| `BitmapIpam.BitmapIPAM.Free` | pkg/network/ipam/bitmap_ipam.go:157-178 | refines the set model: clears the index and forgets the holder, or refuses an address outside the pod range |
| `BitmapIpam.BitmapIPAM.Expand` | pkg/network/ipam/bitmap_ipam.go:180-225 | refines the set model: new network and rebuilt bits, or an error and no change at all |
| `BitmapIpam.BitmapIPAM.Rebuild` | pkg/network/ipam/bitmap_ipam.go:194-221 | succeeds exactly when every recorded address is in the new pod range; the bits are then their indices |
| `BitmapIpam.BitmapIPAM.GetAllocation` | pkg/network/ipam/bitmap_ipam.go:241-250 | present exactly for recorded pods; the entry's address is in the pod range, its bit is set and no other pod holds it |
| `TenantSystem.NextKeepsInv` | internal/nmanager/tops.go:20-197 | every step of dispatcher, callers and actors, with every backend outcome, keeps each record's IPAM network inside the tenant's trie block while it holds one |
| `TenantSystem.RunInv` | internal/dispatcher/dispatcher.go:79-121 | the invariant holds in every state of every interleaving |
| `TenantSystem.PodsInBlock` | internal/nmanager/manager.go:118-149 | a ready tenant's pods are addressed inside the tenant's own block |
| `TenantSystem.PodAddressesUnique` | internal/nmanager/tops.go:20-197 | no two pods recorded under ready tenants, same or different, ever hold the same address |
| `TenantSystem.OneExpansionSuffices` | internal/nmanager/actor_tenant.go:120-150 | a request finds its tenant exhausted at most on its first try; the retry after an expansion has a free address |
| `TenantSystem.RunFifo` | internal/nmanager/actor_tenant.go:54-118 | answered, current and waiting messages are the sent ones in order, and none dequeued while closing took an address |
| `TenantSystem.DrainedOnRemoval` | internal/nmanager/tops.go:138-197 | when RemoveTenant drops the actor its loop has ended and everything queued ahead of Stop was answered once, in order |
| `TenantSystem.GoneAfterRemoval` | internal/nmanager/tops.go:138-197 | when RemoveTenant returns, no record or actor of the tenant is left, and no block unless it was the root |
| `TenantProgress.ExhaustedExpands` | internal/nmanager/actor_tenant.go:120-150 | in every run an exhausted request on a known, open tenant goes on to expand it and never gives up there |
| `TenantProgress.ExpansionServes` | internal/nmanager/manager.go:118-149 | from a full tenant whose block can merge, the steps with working backends reach a positive answer with an address of the merged block that no pod held; record and allocator both move to that block |
| `TenantProgress.RequestServed` | internal/nmanager/pops.go:23-72 | a ready tenant with an address left, or whose block can merge, can serve the request at the head of its mailbox; other pods are untouched |
| `TenantProgress.CallServed` | internal/nmanager/actor_tenant.go:185-209 | a call on an idle tenant is queued and can be answered with an address |
| `TenantProgress.ReleaseGivesBack` | internal/nmanager/pops.go:58-65 | in every run a failed attachment forgets its pod and gives back exactly its address |
| `TenantProgress.SubnetIsNetwork` | internal/nmanager/manager.go:136-147 | in every run a record's subnet is its allocator's network, but for the moment between the two writes of an expansion |
| `TenantProgress.RunOwned` | internal/nmanager/tops.go:36-93 | in every run each block belongs to a recorded tenant or the one being ensured, or is the root: a failed ensure loses no block |
| `TenantProgress.IdleOwnership` | internal/nmanager/tops.go:20-197 | between commands the blocks below the root belong exactly to the recorded tenants, all ready and with an actor |
| `TenantProgress.EnsureServed` | internal/nmanager/tops.go:20-117 | with a free leaf and working backends the tenant ends up recorded on the best leaf, ready and empty, with an actor, and nothing else changes |
| `TenantProgress.FailedEnsureUndone` | internal/nmanager/tops.go:42-49 | an ensure whose backend fails leaves a full trie with leaves of /30 or finer, and everything else, exactly as it was |
| `SingleFlight.NextKeepsInv` | internal/nmanager/expansion.go:11-70 | each lock region, expansion and wake-up of any caller keeps the single-flight invariant |
| `SingleFlight.RunInv` | internal/nmanager/expansion.go:11-70 | the invariant holds in every interleaving of callers |
| `SingleFlight.AtMostOneInFlight` | internal/nmanager/expansion.go:11-54 | at most one caller is expanding |
| `SingleFlight.ClosedOnce` | internal/nmanager/expansion.go:39-52 | a wait channel occurs in the sequence of closes exactly once if it was made and its owner has finished, and not at all before |
| `SingleFlight.RunAccounted` | internal/nmanager/expansion.go:30-47 | in every interleaving each channel made is closed or still owned by a running caller |
| `SingleFlight.AllClosedAtRest` | internal/nmanager/expansion.go:30-47 | once no expansion is running, every channel ever made has been closed exactly once |
| `SingleFlight.WaiterNotStranded` | internal/nmanager/expansion.go:24-70 | in every reachable state a waiter can wake up, or the owner of its channel has a step to make towards closing it |
| `SingleFlight.WaiterResult` | internal/nmanager/expansion.go:56-70 | a waiter returns the result of an expansion that finished no earlier than the one it waited on |
| `SingleFlight.WaiterOfGone` | internal/nmanager/expansion.go:56-70 | a waiter whose tenant is gone returns not found, unless its context ended |
| `SingleFlight.OwnerResult` | internal/nmanager/expansion.go:34-53 | the caller that ran an expansion returns what that expansion returned, which is what was published while the record exists |
| `SingleFlight.EnterOutcome` | internal/nmanager/expansion.go:14-32 | a caller entering a leaving or gone tenant is refused accordingly; otherwise it waits on the expansion in flight if there is one, and else runs its own on a new channel |
| `Zones.RecomputeForZones` | internal/orchestrator/tenant.go:79-161 | computes the placement function, and reports a change exactly when awaiting differs or equalNodeInfos says so |
| `Zones.EqualNodeInfos` | internal/orchestrator/tenant.go:164-178 | true exactly when the lengths agree and every entry of the second list is the last entry of its name in the first |
| `Zones.ChangedIsExact` | internal/orchestrator/tenant.go:155-178 | no reported change exactly when the placement is unchanged and entries of one name agree |
| `Zones.ChangeReportedInVain` | internal/orchestrator/tenant.go:155-178 | a failing input: two different entries of one name, an unchanged placement, and a reported change |
| `Zones.AwaitingKept` | internal/orchestrator/tenant.go:79-161 | awaiting loses only nodes already assigned and gains only unused store identities |
| `Zones.PlacedCount` | internal/orchestrator/tenant.go:79-161 | the exact number of placed nodes from what is known before the call: kept awaiting nodes are never trimmed, assigned ones are trimmed to the zones, a shortage is filled from unused identities as far as they go |
| `Zones.ZonesMet` | internal/orchestrator/tenant.go:79-161 | the zones are met if and only if the kept awaiting nodes do not exceed them and kept, assigned and unused nodes together reach them |
| `Zones.AddedAreSmallest` | internal/orchestrator/tenant.go:108-146 | the nodes added are the smallest unused identities in string order |
| `Zones.LeqIsLexicographic` | internal/orchestrator/tenant.go:133-134 | the order is ascending string order: a prefix first, else the first difference decides |
| `Zones.CandidateMeaning` | internal/orchestrator/tenant.go:119-132 | a store counts under the name in its spec, under its object name only if that is empty, and not at all if both are |
| `Zones.Idempotent` | internal/orchestrator/tenant.go:79-161 | recomputing again on the same stores changes nothing |
| `ZoneProtocol.NextKeepsInv` | internal/orchestrator/reconcile_nodestore_source.go:60-129 | every reconcile, cache refresh, report and daemon step keeps the placement invariant, including writes computed from stale reads |
| `ZoneProtocol.RunInv` | internal/orchestrator/reconcile_tenant_source.go:15-90 | it holds in every run in which zones never shrink |
| `ZoneProtocol.PlacementSafe` | internal/orchestrator/reconcile_nodestore_source.go:60-129 | awaiting and assigned are disjoint and cover all hosts, and at most `zones` nodes are ever asked to configure the tenant |
| `ZoneProtocol.FinishAssigns` | internal/orchestrator/reconcile_nodestore_source.go:80-120 | the reconciler assigns exactly the hosts it read, with the values it read, awaits none of them, and keeps awaiting the others |
| `ZoneProtocol.ReconcileAsksEnough` | internal/orchestrator/reconcile_tenant_source.go:15-90 | any reconcile that sees all stores has asked min(zones, number of stores) nodes |
| `ZoneProtocol.ReconcileSettles` | internal/orchestrator/reconcile_nodestore_source.go:60-129 | when all is up to date and enough nodes were asked, one run of the reconciler makes the tenant quiescent |
| `ZoneProtocol.QuiescentIsFull` | internal/orchestrator/reconcile_nodestore_source.go:60-129 | a tenant whose placement no run of the reconciler changes any more is assigned to min(zones, number of stores) nodes, exactly its hosts, and awaits none |
| `Firewall.ChainName` | pkg/network/policy/tenant/policy.go:276-299 | the rune loop computes the sanitised, truncated chain name |
| `Firewall.NotAnchor` | pkg/network/policy/tenant/policy.go:269-299 | no tenant's chain is the private anchor |
| `Firewall.SameChain` | pkg/network/policy/tenant/policy.go:269-299 | two names share a chain if and only if their first 26 characters, as many as each has, agree after replacement |
| `Firewall.PlainNamesApart` | pkg/network/policy/tenant/policy.go:269-299 | different names of letters, digits, hyphens and underscores with at most 26 characters get different chains |
| `Firewall.ChainIsPlain` | pkg/network/policy/tenant/policy.go:269-299 | every chain name consists of letters, digits, hyphens and underscores and has at most 29 characters |
| `Firewall.NamesCollide` | pkg/network/policy/tenant/policy.go:276-299 | a witness of the condition: "a.b" and "a-b" share a chain |
| `Firewall.TenantPolicyManager.EnsureTenantChains` | pkg/network/policy/tenant/policy.go:61-71 | the tenant's chain exists and is empty; an error exactly for an empty name |
| `Firewall.TenantPolicyManager.EnsureTenantIsolation` | pkg/network/policy/tenant/policy.go:91-157 | the whole table afterwards: anchor jumps added once each, the tenant's chain rebuilt, all else unchanged |
| `Firewall.TenantPolicyManager.DeleteTenantChains` | pkg/network/policy/tenant/policy.go:73-89 | the whole table afterwards on every exit, and exactly when it succeeds |
| `Firewall.ChainMeaning` | pkg/network/policy/tenant/policy.go:121-155 | the tenant's chain accepts a packet exactly when it leaves by the tenant's own or extra interfaces and drops every other |
| `Firewall.TenantTraffic` | pkg/network/policy/tenant/policy.go:101-119 | a packet entering by a live tenant's bridge or vxlan gets that tenant's verdict from the anchor, however many tenants share it |
| `Firewall.OtherTraffic` | pkg/network/policy/tenant/policy.go:101-119 | any other ingress leaves the anchor undecided |
| `Firewall.StepKeepsInv` | pkg/network/policy/tenant/policy.go:61-157 | each successful ensure or delete keeps exactly the live tenants installed |
| `Firewall.IsolationHolds` | pkg/network/policy/tenant/policy.go:61-223 | after any sequence of successful operations over tenants with distinct chains and interfaces that drop no interface while they live, live tenants' traffic is decided by their own rules alone and all else falls through |
| `Firewall.StaleJump` | pkg/network/policy/tenant/policy.go:101-119 | ensuring a live tenant again leaves only jumps of live tenants if and only if no interface it had is dropped |
| `Firewall.DeleteSucceeds` | pkg/network/policy/tenant/policy.go:73-89 | deleting a live tenant with its own interfaces succeeds if and only if no chain of other making jumps to its chain |
| `Firewall.RunDeleteSucceeds` | pkg/network/policy/tenant/policy.go:73-89 | after any run from a table without jumps to the tenant's chain, deleting a live tenant with its own interfaces succeeds |
| `Firewall.DeletedGone` | pkg/network/policy/tenant/policy.go:73-89 | a successful delete removes the tenant's chain and no other |
| `Firewall.StaleTraffic` | pkg/network/policy/tenant/policy.go:101-155 | traffic from a dropped interface is still decided by the tenant's new rules instead of falling through |
| `WireModel.UvarintRoundTrip` | pkg/wire/codec.go:36-54 | every 64-bit value reads back, and reading stops at its last byte |
| `WireModel.PutUvarintLength` | pkg/wire/codec.go:36-40 | ten bytes always suffice |
| `WireModel.UvarintFits` | pkg/wire/codec.go:51-54 | whatever is accepted fits 64 bits |
| `WireModel.BytesRoundTrip` | pkg/wire/codec.go:42-72 | every byte string reads back and exactly its bytes are consumed |
| `WireModel.RequestRoundTrip` | pkg/wire/codec.go:98-171 | decoding an encoded request returns every carried field, negative timeouts included, keeps the destination's pod fields and consumes exactly the encoded bytes |
| `WireModel.RequestTruncated` | pkg/wire/codec.go:130-171 | no proper prefix of an encoded request decodes |
| `WireModel.ResponseRoundTrip` | pkg/wire/codec.go:114-189 | decoding an encoded response returns it and consumes exactly its bytes |
| `WireModel.ResponseTruncated` | pkg/wire/codec.go:130-189 | no proper prefix of an encoded response decodes |
| `WireModel.HeaderRoundTrip` | pkg/wire/header.go:50-80 | a written header reads back exactly when its length is at most MaxPayload, and is refused as too large otherwise |
| `WireModel.HeaderExact` | pkg/wire/header.go:62-80 | fewer than twelve bytes are a short read, other first bytes a magic mismatch; an accepted header written again gives the same bytes but for the reserved one |
| `WireModel.HeaderTruncated` | pkg/wire/header.go:62-66 | a header cut short is a short read |
| `WireModel.FrameRead` | pkg/transport/uds/server.go:32-54 | for any codec whose cut bodies do not decode, a frame is received intact exactly when its body is within the limit, although the length field is truncated to 32 bits |
| `WireModel.RequestFrame` | pkg/transport/uds/client.go:36-48 | the framed binary request arrives intact and leaves the following bytes, exactly when its body is within the limit |
| `Wire.PutUvarintInto` | pkg/wire/codec.go:36-40 | the byte loop stays inside the ten-byte buffer and writes the encoding |
| `Wire.ReadUvar` | pkg/wire/codec.go:51-54 | the reading loop agrees with the parser: same failures, value and bytes left |
| `Wire.ReadBytes` | pkg/wire/codec.go:56-72 | the reader agrees with the parser, including the length check |
| `Wire.MarshalRequest` | pkg/wire/codec.go:98-112 | the buffer holds the encoding of the request |
| `Wire.MarshalResponse` | pkg/wire/codec.go:114-127 | the buffer holds the encoding of the response |
| `Wire.UnmarshalRequest` | pkg/wire/codec.go:130-171 | succeeds exactly when the parser does, with its value |
| `Wire.UnmarshalResponse` | pkg/wire/codec.go:130-189 | succeeds exactly when the parser does, with its value |
| `Wire.WriteHeader` | pkg/wire/header.go:50-60 | appends the twelve header bytes |
| `Wire.ReadHeader` | pkg/wire/header.go:62-80 | each error in its case, otherwise the header and the bytes after it |
| `Peers.StepSynced` | internal/nmanager/nops.go:31-118 | every operation, failed or not, leaves the three tables exactly the image of the recorded peers |
| `Peers.RunSynced` | internal/nmanager/nops.go:31-118 | so do all runs from an unpeered VTEP with distinct remotes |
| `Peers.FlushEmpties` | internal/nmanager/nops.go:93-118 | flushing a synchronised tenant empties its tables |
| `Peers.EnsureImageExact` | internal/nmanager/nops.go:31-62 | for a remote that shares keys with other peers, the tables stay the image of the recorded peers if and only if the remote agrees with them on every shared key |
| `Peers.StepPeers` | internal/nmanager/nops.go:31-118 | exactly when each operation succeeds and which peers are recorded after it: ensured, removed, or none after a flush |
| `Peers.RemovedEntries` | internal/nmanager/nops.go:65-90 | after a removal none of the peer's entries is left in the three tables |
| `Peers.SyncedUnique` | internal/nmanager/nops.go:186-260 | the recorded peers determine the tables |
| `Peers.RecordedEntries` | internal/nmanager/nops.go:186-222 | each recorded peer's entries are present with its current values |
| `Peers.NothingStale` | internal/nmanager/nops.go:224-260 | every entry belongs to a recorded peer, so a changed peer leaves none behind |
| `Peers.TenantPeers.EnsurePeer` | internal/nmanager/nops.go:31-62 | for every remote: an unchanged peer is left alone, a changed one replaced; incomplete information fails after the old entries are gone; the step that `StepSynced` and `EnsureImageExact` are about |
| `Peers.TenantPeers.RemovePeer` | internal/nmanager/nops.go:65-90 | the step of `StepPeers` and `RemovedEntries`: the peer and its entries are gone; an unknown node is a success |
| `Peers.TenantPeers.FlushTenant` | internal/nmanager/nops.go:93-118 | forgetting all peers first and deleting entries in any order leaves exactly the entries that match no recorded peer |

## Left out

- Devices, namespaces, backends, netlink and clocks: a backend or policy call in the lifecycle model succeeds or fails at will.
- IPv6 and nil addresses or networks, except in the constructor of the IPAM; nil entries in the IPAM's pod map.
- `TrieManager.List`, `TrieManager.Root`, `ListAllocations`, `PrintTree` and tenant snapshots: they only copy or print state.
- Resetting the sibling's flags in `Merge`: the sibling is already unallocated and no longer reachable.
- `reconcileExistingPods` and the effect of RemovePod and UpdatePod messages on devices: they do not touch an allocator, so RemovePod does not free an address.
- The expansion in the lifecycle model is one actor's own; callers that share an expansion are modelled on their own in `SingleFlight.dfy`.
- `SingleFlight.WaiterResult`: speaks of records that still exist; `WaiterOfGone` covers the others.
- `TenantProgress.RequestServed`: shows a path of the tenant's own steps, with working backends; scheduling and fairness are outside the model.
- The dispatcher's queueing and its events, and context cancellation except for a caller waiting on an expansion.
- Errors of the wire readers are not told apart, except in the header.
- `Wire.UnmarshalRequest`: works on a copy of the destination, so it does not say which fields a failed call had already filled.
- The JSON codec, `CommandToHeader` and `DetectFlags`; `WireModel.ReadFrame` counts a JSON frame as rejected.
- The uvarint routines are the standard library's; they are modelled by their documented format, with sums for the ORs of disjoint bits.
- The default tenant's rules, cluster masquerading and failing iptables commands.
- `Firewall.TenantPolicyManager.EnsureTenantIsolation`: does not model the reinsertion of the anchor jump in FORWARD, because its position depends on the text that iptables lists.
- `Firewall.IsolationHolds`: asks for distinct chain names and interfaces of live tenants, and that a live tenant ensured again drops no interface; `SameChain` and `StaleJump` say exactly what goes wrong otherwise.
- `Peers.StepSynced`: asks for remotes with distinct VTEP addresses, MACs and subnets, a VTEP backend and no netlink errors; `EnsureImageExact` covers remotes that share keys.
- `ZoneProtocol.PlacementSafe`: asks for zones that never shrink, monotone reports, and distinct non-empty node identities; deletion of a NodeStore or tenant is outside the model.
- Device name hashing, the webhook, the CNI plugin and the rest of the Kubernetes plumbing.
