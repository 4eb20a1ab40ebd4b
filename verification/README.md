# flannel, modelled and proved in Dafny

flannel gives every node of a cluster a block of a shared IPv4 network and keeps the nodes' routing in
step with the blocks in use. This project models the parts of it that are hard to get right and proves
what they are for:

- **Blocks.** IPv4 blocks and their 32-bit mask arithmetic (`Ip4`), the check and defaults of a network
  configuration (`NetworkConfig`), the registry keys of blocks (`SubnetKey`).
- **Leases.** The allocator (`Allocator`), the acquire protocol that any number of nodes run against one
  registry (`LeaseProtocol`), renewal against the clock (`LeaseRenewal`); `Leases` is what is handed around.
- **Watching.** The lease watcher and what its consumers make of its events (`LeaseWatcher`), and the
  whole path from registry revisions through disconnects, compactions and re-lists to a backend
  (`WatchMirror`).
- **The UDP proxy.** The internet checksum and its incremental patch (`Checksum`), the in-place route
  array (`ProxyRoutes`).
- **The mesh backend.** The route manager over the host's tables (`MeshRoutes`), its event loop
  (`MeshNetwork`), the zero-copy transmit path (`TunPipeline`).
- **Rewriting.** The iptables delete-and-append transaction (`IptablesBootstrap`), the text it travels in
  (`RestorePayload`), what the rules do to packets (`MasqVerdict`), the managed block of the CoreDNS hosts
  file (`NodeHosts`); `Text` and `Lists` are what they share.

Objects that the source changes in place are classes (`Config`, `Watcher`, `IpHeader`, `RouteTable`,
`Kernel`, `RouteManager`, `Network`, `TunBufferPool`, `Iptables`), loops are loops with invariants, and
concurrency is a state machine over its steps. `dafny verify dfyconfig.toml` checks everything.

## Properties that do not hold as one would expect

For each of these the code is modelled as it is and the exact condition is proved; where only one
direction is, the line says so.

- The allocator's scan wraps to 0.0.0.0 behind the top block of the address space. It ends if and only if
  the range stops short of that block or some block of the whole address space is free (`EndsIff`; with a
  lease of everything it does not, `WholeSpaceLeased`). It looks at blocks of its range alone if and only
  if the range stops short of that block or holds 100 free blocks (`ScansOnlyRangeIff`). It ends with
  blocks of the range, and with none only when the range is full, if and only if that is so or the range
  has a free block and no block below it is free (`ServesRangeIff`). Otherwise it does not end, or a block
  below the range can be handed out: one the network has below its range, or one outside the network such
  as block zero (`ZeroIsCandidate`).
- The bounds of an accepted configuration lie inside its network for every masked network; for one with
  host bits if and only if it is the whole address space, or the upper bound was given and the lower one
  was given or does not run over the end (`BoundsInsideIff`, `HostBitsEscape`).
- Two nodes can hold one block after an entry is lost under a node that relies on it, because it expired
  or because a renewal was written, its answer got lost and its grant was revoked. For a range that stops
  short of the top block, a step is safe, whatever harmless steps follow, if and only if it loses no entry
  for a block of the range that a node holds or is about to reuse (`SafeStepIff`). For a range that ends at
  the top, losing no relied-on entry at all is enough (`LeasesStayExclusive`), and entries for blocks of the
  range are not the only ones that matter (`OutsideExpiryShares`, `ScanFindsZero`); which ones do exactly is
  left open there.
- As many failed renewals in a row as the margin has minutes let a lease expire (`MarginFailuresExpire`);
  one fewer never does (`LeaseNeverExpires`).
- A key made for a /32 block is not accepted by the parser, which wants a prefix length below 32
  (`KeyRoundTrip`).
- `Reset` reports the removal of the node's own lease if and only if the watcher had it in its list
  (`ResetMentionsOwnIff`).
- A consumer that folds the leases in the events has the snapshot's lease of a subnet after a `Reset` if and
  only if the snapshot does not have that subnet with other contents than the list had (`ResetFreshIff`). So
  a backend has the registry's attributes until the watch falls behind compaction and lists again
  (`BackendUntilRelist`), and each step keeps it so if and only if it hands over no such snapshot
  (`BackendHasPreserved`).
- The checksum patch of `decrement_ttl` is right if and only if the TTL was not 0 (`PatchKeepsChecksumIff`).
- A lookup in the proxy's route array is independent of its order if and only if all matching routes
  agree (`OrderDoesNotMatterIff`).
- Testing whether a network contains the local address and the last local address is containment of the
  local block if and only if the local address is in the lower half of its block
  (`EndpointsInsideIffContained`).
- An error-free `Reconcile` settles the host if and only if no network it removed had its SNAT rule twice
  (`SettledAfterReconcileIff`); no commented rule of a stale network survives it if and only if each was
  made with the manager's parameters and was there once (`NoStaleSnatIff`). `Cleanup` does remove
  duplicates.
- A bootstrap puts flannel's iptables rules in order behind the others' if and only if no chain held one
  of them twice (`BootstrapOrdersIff`), and the masquerading rules are all different if and only if the
  node's block is not the whole network (`MasqRulesAreProperIff`).
- Merging hosts twice is merging the second if and only if no kept line ends in a carriage return
  (`MergeOverwritesIff`, `ReturnIsLost`).
- The reader of the transmit path can find the pool empty if and only if the pool is not at least two
  buffers larger than the queue (`ReaderNeverStarvesIff`); the sizes of the source leave 31.

## Model

| member | source | states |
|---|---|---|
| `Ip4.MaskValue` | pkg/ip/ipnet.go:183-186 | the 32-bit shift gives the mask 2^32 - 2^(32-len), the /0 mask included |
| `Ip4.ContainsIffInBlock` | pkg/ip/ipnet.go:188-190 | the masked comparison holds exactly for the addresses of the block's interval |
| `Ip4.NetworkIsFirst` | pkg/ip/ipnet.go:135-140 | masking gives the block's first address, and changes nothing exactly when the block was masked |
| `Ip4.OverlapsIffShareAddress` | pkg/ip/ipnet.go:169-177 | two blocks overlap if and only if they share an address; overlap is symmetric |
| `Ip4.ContainsCidrIffSubset` | pkg/ip/ipnet.go:192-196 | containment of a block is containment of all its addresses |
| `Ip4.AlignedOverlapIsEqual` | pkg/ip/ipnet.go:169-177 | masked blocks of one length overlap only if they are the same block |
| `Ip4.CidrsOverlapIsOverlaps` | pkg/backend/cloudflaremesh/routes_linux.go:459-461 | the two-way containment test of the mesh backend agrees with Overlaps |
| `Ip4.LastAddressIsLast` | pkg/backend/cloudflaremesh/routes_linux.go:480-486 | lastIPv4 is the greatest address of the block |
| `Ip4.FirstUsableIff` | pkg/backend/cloudflaremesh/routes_linux.go:463-478 | exactly when firstUsableIPv4 succeeds, and that its answer is the next address, strictly between the block's address and its last one |
| `Ip4.EndpointsInsideIffContained` | pkg/backend/cloudflaremesh/routes_linux.go:118-124 | the endpoint test is block containment for every cluster network if and only if the local address is in the lower half of its block |
| `Ip4.LowerHalfEndpoints` | pkg/backend/cloudflaremesh/routes_linux.go:118-124 | for such local addresses, the masked one first among them, the endpoint test is containment |
| `Ip4.UpperHalfCounterexample` | pkg/backend/cloudflaremesh/routes_linux.go:118-124 | for every other local address some cluster network passes the test without containing the block |
| `NetworkConfig.EffectiveLen` | pkg/subnet/config.go:81-108 | whatever length the defaulting rules accept leaves room for four blocks of at least four addresses |
| `NetworkConfig.LengthBySize` | pkg/subnet/config.go:81-108 | a given length is kept if four such blocks fit and it is at most 30; a defaulted one gives blocks of 256 addresses exactly when four of them fit and quarters of the network otherwise; which error exactly when |
| `NetworkConfig.AcceptedIff` | pkg/subnet/config.go:76-136 | a masked network is accepted if and only if it is not the whole space, the length fits, and every given bound lies inside and is aligned |
| `NetworkConfig.Config.CheckNetworkConfig` | pkg/subnet/config.go:76-136 | for every network the mask tests find exactly the first problem as stated over address intervals; the fields after success and after each error; the length after success by sizes, and an error when the length does not fit; an accepted masked network has both bounds aligned and inside |
| `NetworkConfig.Config.CheckBounds` | pkg/subnet/config.go:110-136 | the same for the second half: each bound is defaulted or tested, then both alignments |
| `NetworkConfig.DefaultsDoNotWrap` | pkg/subnet/config.go:110-126 | the wrapping additions give the second and the last block of the network |
| `NetworkConfig.DefaultsAreBlocks` | pkg/subnet/config.go:110-126 | both defaults pass the tests that explicit bounds have to pass |
| `NetworkConfig.BoundsInsideIff` | pkg/subnet/config.go:110-136 | for a network with host bits, exactly when the bounds of an accepted configuration lie inside it |
| `NetworkConfig.HostBitsEscape` | pkg/subnet/config.go:110-136 | every network, written with the address of its last block and only the upper bound given, is accepted with a lower bound outside it |
| `NetworkConfig.RangeInsideNetwork` | pkg/subnet/config.go:110-136 | every aligned block between accepted bounds lies inside the network |
| `NetworkConfig.BlocksAreAligned` | pkg/subnet/config.go:127-136 | stepping by the block size from an aligned bound meets exactly the aligned addresses up to the other |
| `NetworkConfig.DefaultRangeCount` | pkg/subnet/config.go:110-126 | with default bounds the range holds 2^(SubnetLen-PrefixLen)-1 blocks, at least three |
| `SubnetKey.DecRoundTrip` | pkg/ip/ipnet.go:84-87 | printing and reading a decimal number gives the number back |
| `SubnetKey.Octets` | pkg/ip/ipnet.go:62-65 | the four octets are bytes and make up the address |
| `SubnetKey.DottedRoundTrip` | pkg/ip/ipnet.go:84-87 | a printed address is read back as the address |
| `SubnetKey.NoAdjacentBarriers` | pkg/subnet/subnet.go:33-34 | no match of the key expression goes over two neighbouring characters outside its classes |
| `SubnetKey.NoEarlyMatch` | pkg/subnet/subnet.go:36-37 | the search finds nothing before the end of "/subnets/", whatever the path in front of it holds |
| `SubnetKey.FindShape` | pkg/subnet/subnet.go:33-60 | the groups of every match lie in order inside the string, so slicing them never fails |
| `SubnetKey.FindKey` | pkg/subnet/subnet.go:36-45 | in a key under any path the backtracking search finds exactly the address and the length |
| `SubnetKey.KeyRoundTrip` | pkg/subnet/subnet.go:36-68 | parsing the key of a block under any path gives the block back for lengths up to 31, and fails for 32 |
| `SubnetKey.KeysAreDistinct` | pkg/subnet/subnet.go:62-68 | two blocks have the same key only if they are the same block |
| `Allocator.OverlapsAny` | pkg/subnet/etcd/local_manager.go:242-246 | the inner loop decides whether a block overlaps some lease |
| `Allocator.CollectFree` | pkg/subnet/etcd/local_manager.go:240-248 | whenever the scan ends, the wrapping loop ends with what the scan has collected, all of it aligned and free |
| `Allocator.BoundedCollects` | pkg/subnet/etcd/local_manager.go:240-248 | a bounded scan ends with exactly the free blocks of the range in order, the first 100 of them if there are more |
| `Allocator.FreeFromIs` | pkg/subnet/etcd/local_manager.go:240-248 | the free blocks of a range are the aligned addresses in it whose block overlaps no lease |
| `Allocator.AllocateSubnet` | pkg/subnet/etcd/local_manager.go:225-274 | whenever the scan ends, a block handed out is aligned, free and one of those collected; under the condition of ServesRangeIff it is inside range and network, and there is none exactly when every block of the range overlaps a lease |
| `Allocator.EndsIff` | pkg/subnet/etcd/local_manager.go:240-248 | for every accepted configuration and every lease list, the scan ends if and only if the range stops short of the top block or some block of the address space is free |
| `Allocator.ServesRangeIff` | pkg/subnet/etcd/local_manager.go:240-274 | it ends with blocks of the range only, and with none exactly when the range is full, if and only if it is bounded or the range has a free block and none below it is free |
| `Allocator.UnboundedCollects` | pkg/subnet/etcd/local_manager.go:240-248 | an unbounded scan with a free block anywhere ends, lap by lap, with free aligned blocks, one of them at or below that block |
| `Allocator.WholeSpaceLeased` | pkg/subnet/etcd/local_manager.go:240-248 | a lease of the whole address space is such that the scan of a range up to the top never ends |
| `Allocator.ZeroIsCandidate` | pkg/subnet/etcd/local_manager.go:240-274 | an unbounded scan with block zero free collects address zero, which is outside the network |
| `Allocator.ScansOnlyRangeIff` | pkg/subnet/etcd/local_manager.go:240-248 | every block the scan looks at is in the range if and only if the range stops short of the top block or holds 100 free blocks |
| `Allocator.BoundedScanStays` | pkg/subnet/etcd/local_manager.go:240-248 | a bounded scan never goes below the lower bound |
| `Allocator.ScanWraps` | pkg/subnet/etcd/local_manager.go:240-248 | an unbounded scan is at address 0 after it has been through its range |
| `Allocator.ScanNeverEnds` | pkg/subnet/etcd/local_manager.go:240-248 | up to the top block, with every block of the address space taken, the scan runs on after any number of steps |
| `LeaseProtocol.AcceptedConfigIsValid` | pkg/subnet/etcd/local_manager.go:90-105 | every configuration the check accepts, masked network or not, is one the protocol theorems hold for |
| `LeaseProtocol.FindByIp` | pkg/subnet/etcd/local_manager.go:128-136 | no lease is found if and only if none is in the node's name, and the one found is the first such lease |
| `LeaseProtocol.OwnLeaseComesFirst` | pkg/subnet/etcd/local_manager.go:148-180 | a node whose listing has leases in its name has one way on: to write the entry of the first of them if the block is in the range, and to delete it if not |
| `LeaseProtocol.NoLeaseMeansChoosing` | pkg/subnet/etcd/local_manager.go:148-205 | a node whose listing has none goes on to choose with that listing |
| `LeaseProtocol.ChoosingCreates` | pkg/subnet/etcd/local_manager.go:181-223 | it then creates an entry under a free key, for its previous subnet exactly when that is set, in range and not listed, otherwise for an aligned block free of the listing; with the key taken it starts over and writes nothing |
| `LeaseProtocol.HolderRenews` | pkg/subnet/etcd/local_manager.go:276-284 | a holder only ever writes the entry of its own block again |
| `LeaseProtocol.NodesGoOn` | pkg/subnet/etcd/local_manager.go:148-205 | each of these steps is open whenever it is the node's turn, whatever becomes of the answer |
| `LeaseProtocol.KeyOfBlock` | pkg/subnet/etcd/registry.go:220-253 | the key a block is stored under parses back to it |
| `LeaseProtocol.ListingOk` | pkg/subnet/etcd/registry.go:171-199 | every listed lease is a block that is in the store with the listed attributes |
| `LeaseProtocol.ChoiceIsBlock` | pkg/subnet/etcd/local_manager.go:181-205 | whatever a node chooses, previous block or scanned one, is an aligned block of the configured length |
| `LeaseProtocol.ChoiceIsGuarded` | pkg/subnet/etcd/local_manager.go:181-205 | with a range short of the top it is a block of the range, whatever the listing left out |
| `LeaseProtocol.BlocksPreserved` | pkg/subnet/etcd/local_manager.go:148-223 | every action of every node keeps the store to aligned blocks under their own keys |
| `LeaseProtocol.RegistryStaysDisjoint` | pkg/subnet/etcd/local_manager.go:107-223 | in every run of any number of nodes, whatever subsets their listings show, the blocks in the registry are pairwise disjoint |
| `LeaseProtocol.TouchesNoOther` | pkg/subnet/etcd/registry.go:220-285 | no write or deletion of a node touches an entry that matters and that another node relies on |
| `LeaseProtocol.OwnedPreserved` | pkg/subnet/etcd/local_manager.go:148-223 | every harmless step keeps each node owning in the registry what it relies on and what matters |
| `LeaseProtocol.LeasesStayExclusive` | pkg/subnet/etcd/local_manager.go:107-223 | in every run of harmless steps no two nodes ever hold overlapping blocks, with stale and partial listings, restarts, lost races, and writes whose answer is lost or whose grant is revoked; harmful are only expiries and revoked renewals under a node that relies on the entry, and only for blocks of the range where that stops short of the top |
| `LeaseProtocol.SafeStepIff` | pkg/subnet/etcd/local_manager.go:107-223 | with such a range and two nodes, a step from any state that meets the invariants leaves every harmless continuation without overlapping holders if and only if it is harmless |
| `LeaseProtocol.NewcomerAcquires` | pkg/subnet/etcd/local_manager.go:148-223 | from every state, a node that starts again can acquire a block it may choose whose entry is gone, while all others stay as they are |
| `LeaseProtocol.LostEntryShares` | pkg/subnet/etcd/registry.go:220-285 | from every state in which a node holds or is about to reuse a block of the range whose entry is gone, steps that lose nothing lead to two nodes holding it, whichever the second node is |
| `LeaseProtocol.RevokedRenewalShares` | pkg/subnet/etcd/registry.go:255-279 | from every state with a holder of a block of the range, its renewal, written but revoked after a lost answer, leads there without any expiry |
| `LeaseProtocol.OutsideExpiryShares` | pkg/subnet/etcd/local_manager.go:148-223 | from every state in which a node holds or is about to delete an entry outside the range for a block that a scan of an empty listing comes to, its expiry alone leads to two nodes holding that block |
| `LeaseProtocol.ScanFindsZero` | pkg/subnet/etcd/local_manager.go:240-248 | block zero is such a block for every range of fewer than 100 blocks up to the top |
| `LeaseRenewal.OnTimePreserved` | pkg/subnet/etcd/local_manager.go:363-407 | every firing, failure and event keeps the next attempt at least the remaining minutes before the expiration |
| `LeaseRenewal.AttemptsOnTime` | pkg/subnet/etcd/local_manager.go:363-407 | the same in every state of every run |
| `LeaseRenewal.LeaseNeverExpires` | pkg/subnet/etcd/local_manager.go:363-407 | with fewer failures in a row than the margin has minutes, the next attempt is always due before the lease expires |
| `LeaseRenewal.FailingDeadline` | pkg/subnet/etcd/local_manager.go:374-385 | where exactly the next attempt stands after n failures |
| `LeaseRenewal.MarginFailuresExpire` | pkg/subnet/etcd/local_manager.go:374-385 | for every margin there is a run of that many failures that reaches the expiration, so the bound is exact |
| `LeaseRenewal.RenewalSchedule` | pkg/subnet/etcd/local_manager.go:363-407 | a renewal lasts 24 hours and the next is due the margin before, a failed one is tried again in a minute, an event re-arms the timer to the margin before the expiration or at once, and the removal of the lease ends the run |
| `LeaseWatcher.Find` | pkg/lease/lease.go:117-123 | the index of the first lease of the same subnet, or the length |
| `LeaseWatcher.SameSubnetIsSameKey` | pkg/lease/lease.go:191-210 | in one address-family mode sameSubnet is equality of the subnets of that mode |
| `LeaseWatcher.Watcher.Reset` | pkg/lease/lease.go:108-140 | the list becomes the snapshot and the batch is the difference of the two lists |
| `LeaseWatcher.Watcher.Update` | pkg/lease/lease.go:143-161 | list and batch are the fold of the events that are not about the own lease; UpdateCarries says what a consumer learns from the batch |
| `LeaseWatcher.Watcher.Add` | pkg/lease/lease.go:164-175 | a known subnet is replaced in its place, an unknown one appended, and the event passed on carries the new lease |
| `LeaseWatcher.Watcher.Remove` | pkg/lease/lease.go:178-188 | a known subnet is taken out and the event carries the stored lease |
| `LeaseWatcher.WithLookup` | pkg/lease/lease.go:164-175 | adding changes the entry of that subnet alone, in its place or at the end, and keeps the list free of duplicates |
| `LeaseWatcher.WithoutLookup` | pkg/lease/lease.go:178-188 | removing does so too |
| `LeaseWatcher.RemovalCarriesStoredLease` | pkg/lease/lease.go:178-188 | a removal of a known subnet carries the attributes that were stored |
| `LeaseWatcher.UpdateTracks` | pkg/lease/lease.go:143-161 | after an update each entry is the last event's, and a consumer of the batch holds just the listed subnets apart from the own one |
| `LeaseWatcher.UpdateCarries` | pkg/lease/lease.go:143-188 | a consumer that folds the leases of the batch comes to have, for every foreign subnet named in it, just the lease of the new list, contents included, and none for a removed one; all others stay |
| `LeaseWatcher.DiffTracks` | pkg/lease/lease.go:111-133 | what the nested loops of Reset leave over and announce, subnet by subnet |
| `LeaseWatcher.ResetTracks` | pkg/lease/lease.go:108-140 | a consumer of the batch of a reset holds exactly the snapshot's subnets apart from the own one |
| `LeaseWatcher.DiffCarries` | pkg/lease/lease.go:111-123 | the additions of a reset carry the snapshot's leases of the foreign subnets the list did not have |
| `LeaseWatcher.ResetCarries` | pkg/lease/lease.go:108-140 | what such a consumer has after a reset, subnet by subnet |
| `LeaseWatcher.ResetFreshIff` | pkg/lease/lease.go:108-140 | it has the snapshot's lease of a subnet if and only if the snapshot did not change a lease the list had |
| `LeaseWatcher.ResetRemovesStored` | pkg/lease/lease.go:125-133 | removals carry stored leases, additions leases of the snapshot that are not the own one |
| `LeaseWatcher.ResetMentionsOwnIff` | pkg/lease/lease.go:108-140 | a reset mentions the own subnet if and only if the list had it |
| `LeaseWatcher.CallTracks` | pkg/lease/lease.go:108-188 | one call of either kind keeps consumer and watcher in step |
| `LeaseWatcher.ConsumerTracksWatcher` | pkg/lease/lease.go:108-188 | over any sequence of resets and updates a consumer that folds all the events holds exactly the watcher's subnets apart from the own one, and the list stays free of duplicates |
| `WatchMirror.AtSpan` | pkg/subnet/etcd/registry.go:287-400 | the registry at a later revision is the registry at an earlier one folded with the events between |
| `WatchMirror.PositionsPreserved` | pkg/subnet/etcd/registry.go:287-400 | every step keeps the watch position, the connection's cursor and the last snapshot in their places |
| `WatchMirror.ConsumeAppliesHead` | pkg/subnet/subnet.go:112-147 | handing one result to the watcher has the effect on its list that the result stands for |
| `WatchMirror.MirrorPreserved` | pkg/subnet/etcd/registry.go:287-400 | every step keeps the list, with the results in flight applied, equal to the registry at the watch position |
| `WatchMirror.BackendPreserved` | pkg/subnet/subnet.go:127-143 | every step keeps the backend's subnets equal to the watcher's apart from the own one |
| `WatchMirror.DrainAll` | pkg/subnet/subnet.go:127-143 | draining the channel has the effect of all the results in it |
| `WatchMirror.RunInv` | pkg/subnet/etcd/registry.go:287-400 | these invariants hold in every state of every run |
| `WatchMirror.MirrorEqualsRegistry` | pkg/subnet/etcd/registry.go:287-400 | in every run of writes, deliveries, disconnects, reconnects, compactions and re-lists, once the results in flight are drained, the watcher's attributes are the registry's at revision since-1, and the backend holds exactly those subnets, the own one apart |
| `WatchMirror.BackendHasPreserved` | pkg/subnet/etcd/registry.go:287-400 | a step keeps the backend's leases equal to the list's if and only if it hands over no snapshot that changes one the list had |
| `WatchMirror.BackendEqualsRegistry` | pkg/subnet/subnet.go:127-143 | in every run of such steps the backend has, with nothing in flight, the attributes of the registry at revision since-1 for every foreign subnet |
| `WatchMirror.FreshUntilRelist` | pkg/subnet/etcd/registry.go:287-400 | until the watch lists again every step is such a step |
| `WatchMirror.BackendUntilRelist` | pkg/subnet/subnet.go:127-143 | so until then the backend with nothing in flight has exactly the registry's attributes |
| `WatchMirror.CanCatchUp` | pkg/subnet/etcd/registry.go:287-400 | from every state of every run, connected or not and however much is compacted, the watch can go on by itself until list and backend are the registry as it stands |
| `WatchMirror.NothingLostOrRepeated` | pkg/subnet/etcd/registry.go:287-400 | the events sent since the last snapshot are exactly the registry's events between the two revisions, in order and each once |
| `Checksum.Cksum` | pkg/backend/udp/proxy_amd64.c:84-103 | for every length the 32-bit loop with its carries and its fold gives the complement of the 16-bit one's complement sum of section 2 of RFC 1071 |
| `Checksum.SumSame` | pkg/backend/udp/proxy_amd64.c:84-103 | that sum is the plain total modulo 0xFFFF, and 0 only for a total of 0 |
| `Checksum.HalvesAre` | pkg/backend/udp/proxy_amd64.c:84-103 | the words summed are the low and the high half of each 32-bit word, in order |
| `Checksum.FilledChecksumsToZero` | pkg/backend/udp/proxy_amd64.c:131-152 | a header filled with its checksum in a zeroed field checksums to zero |
| `Checksum.SumInNetworkOrder` | pkg/backend/udp/proxy_amd64.c:84-103 | summing words in the wrong byte order gives the right sum in the wrong byte order |
| `Checksum.IpHeader.DecrementTtl` | pkg/backend/udp/proxy_amd64.c:297-314 | the new TTL, when the packet is dropped, and when the patched checksum still holds |
| `Checksum.PatchKeepsChecksumIff` | pkg/backend/udp/proxy_amd64.c:297-314 | the patch keeps the header's checksum as it was if and only if the TTL was not 0 |
| `Checksum.PatchEqualsRecomputed` | pkg/backend/udp/proxy_amd64.c:297-314 | for a TTL of 2 or more the patched field equals the checksum computed afresh, as section 3 of RFC 1624 wants it |
| `ProxyRoutes.RouteTable.constructor` | pkg/backend/udp/proxy_amd64.c:56-63 | an empty array stands for the empty map |
| `ProxyRoutes.RouteTable.SetRoute` | pkg/backend/udp/proxy_amd64.c:164-189 | the map gets the destination, or nothing changes and ENOMEM is returned, which happens exactly when a new destination needs memory that is not there |
| `ProxyRoutes.RouteTable.Grow` | pkg/backend/udp/proxy_amd64.c:174-183 | the array is doubled, from 8 on, and keeps its entries |
| `ProxyRoutes.RouteTable.DelRoute` | pkg/backend/udp/proxy_amd64.c:191-203 | moving the last entry into the gap removes the destination from the map; ENOENT exactly when it was not there |
| `ProxyRoutes.RouteTable.FindRoute` | pkg/backend/udp/proxy_amd64.c:205-222 | the answer is that of the first matching entry, and moving it to the front changes the array but not the map |
| `ProxyRoutes.RouteTable.ProcessCmd` | pkg/backend/udp/proxy_amd64.c:365-396 | what each command makes of the map and of the room in the array, with memory to grow and without; ReplayRemembers says what that is, command by command; only a stop ends the proxy |
| `ProxyRoutes.RouteTable.Serve` | pkg/backend/udp/proxy_amd64.c:164-222 | over any run of commands, memory there or not for each, and lookups the array stands for the replayed map, and each answer is one the map of that moment gives; from an empty table with memory throughout there is a route for a block exactly when the last command naming it set it, and with disjoint blocks each lookup gives the hop of the last set for the block holding the address, and none after a delete |
| `ProxyRoutes.MaskedIsDest` | pkg/backend/udp/proxy_amd64.c:365-396 | masking a command's address gives the destination of its block |
| `ProxyRoutes.DestIsBlock` | pkg/backend/udp/proxy_amd64.c:365-396 | two blocks have one destination if and only if they have the same length and the same first address |
| `ProxyRoutes.ReplayRemembers` | pkg/backend/udp/proxy_amd64.c:365-396 | after any run of commands with memory throughout, a block has a route with a hop if and only if the last command naming it set it to that hop |
| `ProxyRoutes.AnswersLastSet` | pkg/backend/udp/proxy_amd64.c:205-222 | where the blocks named are pairwise equal or disjoint, any answer such a table may give is the hop of the last set naming the block with the address, or none |
| `ProxyRoutes.OneAnswer` | pkg/backend/udp/proxy_amd64.c:205-222 | where the routes containing an address agree, the map gives one answer |
| `ProxyRoutes.RepresentsSize` | pkg/backend/udp/proxy_amd64.c:164-203 | the array has one entry for each route of the map, so it is full exactly when the map has as many routes as it has room for |
| `ProxyRoutes.FirstMatchAnswers` | pkg/backend/udp/proxy_amd64.c:205-222 | the first match is the hop of a route that contains the address, or there is no such route |
| `ProxyRoutes.OrderDoesNotMatterIff` | pkg/backend/udp/proxy_amd64.c:205-222 | every array of a map answers alike if and only if all routes containing the address agree |
| `ProxyRoutes.DisjointRoutesAgree` | pkg/backend/udp/proxy_amd64.c:205-222 | pairwise disjoint destinations are such a case, so earlier lookups make no difference |
| `ProxyRoutes.MaskedContains` | pkg/backend/udp/proxy_amd64.c:65-71 | the proxy's containment test on a masked destination is that of IPv4 blocks |
| `MeshRoutes.RouteManager.Ensure` | pkg/backend/cloudflaremesh/routes_linux.go:175-204 | route, policy rule and SNAT rule of one network and nothing else, installed field by field as the manager's parameters say; part of them after an error; no change when they are there; no error when no call fails |
| `MeshRoutes.RouteManager.EnsureHostSnat` | pkg/backend/cloudflaremesh/routes_linux.go:402-441 | one SNAT rule, from outside the cluster network to this network over the mesh link with the local source, is inserted in second place exactly when there is none |
| `MeshRoutes.FullMeans` | pkg/backend/cloudflaremesh/routes_linux.go:175-204 | a network is complete if and only if its route over the mesh link in the manager's table, its policy rule of priority 110 and its SNAT rule to the local source are on the host |
| `MeshRoutes.EmptyMeans` | pkg/backend/cloudflaremesh/routes_linux.go:212-243 | and has nothing left if and only if none of them is |
| `MeshRoutes.InstalledRewrites` | pkg/backend/cloudflaremesh/routes_linux.go:432-441 | a packet from a local address outside the cluster network to an installed network over the mesh link leaves with the local source, if the manager's rules get to decide it |
| `MeshRoutes.SecondPlaceRewrites` | pkg/backend/cloudflaremesh/routes_linux.go:402-415 | which they do right after the insertion, unless the first rule of the chain decides it |
| `MeshRoutes.OthersUntouched` | pkg/backend/cloudflaremesh/routes_linux.go:432-441 | packets that are not local, come from inside the cluster network, leave over another link or go to a network without a rule are decided by no rule of the manager |
| `MeshRoutes.RouteManager.Remove` | pkg/backend/cloudflaremesh/routes_linux.go:212-243 | route, policy rule and one SNAT rule go and nothing else, each as far as its calls succeed; nothing is left when there was no second SNAT rule |
| `MeshRoutes.RouteManager.RemoveHostSnat` | pkg/backend/cloudflaremesh/routes_linux.go:417-430 | one SNAT rule is deleted if there is one |
| `MeshRoutes.RouteManager.StaleDestinations` | pkg/backend/cloudflaremesh/routes_linux.go:320-363 | every network with anything left on the host, the desired ones and the mesh network apart |
| `MeshRoutes.FoundIsComplete` | pkg/backend/cloudflaremesh/routes_linux.go:320-363 | a network with a route, a rule or an SNAT rule alone is found |
| `MeshRoutes.RouteManager.Reconcile` | pkg/backend/cloudflaremesh/routes_linux.go:249-267 | from any partial state an error-free run leaves each network complete or cleared as the desired set says and the rest of the host, mesh entries and foreign rules in their order, untouched, with every desired network installed as its parameters say; with errors no desired network loses and no other gains anything; a settled host does not change |
| `MeshRoutes.RouteManager.ReconcileTwice` | pkg/backend/cloudflaremesh/routes_linux.go:249-267 | after an error-free run that removed no network with two SNAT rules, a second run changes nothing |
| `MeshRoutes.RouteManager.EnsureAll` | pkg/backend/cloudflaremesh/routes_linux.go:249-256 | every desired network is completed and no other touched |
| `MeshRoutes.RouteManager.RemoveAll` | pkg/backend/cloudflaremesh/routes_linux.go:257-267 | every stale network is cleared and no other touched |
| `MeshRoutes.SettledAfterReconcileIff` | pkg/backend/cloudflaremesh/routes_linux.go:249-267 | one error-free run settles the host if and only if no removed network had more than one SNAT rule |
| `MeshRoutes.StaleSnatLeft` | pkg/backend/cloudflaremesh/routes_linux.go:365-430 | which commented rules of stale networks are left: those made with other parameters and those that were there twice |
| `MeshRoutes.NoStaleSnatIff` | pkg/backend/cloudflaremesh/routes_linux.go:365-430 | none is left if and only if each was made with the manager's parameters and was there once |
| `MeshRoutes.RouteManager.Cleanup` | pkg/backend/cloudflaremesh/routes_linux.go:273-314 | without errors nothing of the manager is left, duplicates included, and other tables, rules and the rest of the chain are as they were |
| `MeshRoutes.RouteManager.CleanSnat` | pkg/backend/cloudflaremesh/routes_linux.go:365-400 | one deletion per commented rule removes every SNAT rule of the manager |
| `MeshNetwork.Network.HandleEvents` | pkg/backend/cloudflaremesh/network_linux.go:101-134 | the desired set is the fold of the batch whether or not host calls succeed, only networks named in it are touched, and when no call fails each network is exactly what its events make of it |
| `MeshNetwork.EventsInStep` | pkg/backend/cloudflaremesh/network_linux.go:101-134 | after such events a wanted network has its route, rule and SNAT rule, and one that was taken back has neither route nor rule |
| `MeshNetwork.WantedByLastEvent` | pkg/backend/cloudflaremesh/network_linux.go:101-134 | a network is desired exactly when the last event of this backend naming it added it |
| `MeshNetwork.Network.Reconcile` | pkg/backend/cloudflaremesh/network_linux.go:136-158 | exactly when a tick prunes; it takes nothing from a desired network, touches no other one while it does not prune, and without errors leaves the host as the desired set says |
| `MeshNetwork.Network.Loop` | pkg/backend/cloudflaremesh/network_linux.go:61-79 | over any run of batches and ticks the desired set is the fold of all the events, a tick prunes if and only if it comes after a batch or after the grace minute, and when no call fails desired networks are complete, those taken back are bare, and after a tick that pruned no network but the desired ones and the mesh network has route or rule |
| `MeshNetwork.Network.Run` | pkg/backend/cloudflaremesh/network_linux.go:57-92 | the same about desired set and ticks; the cleanup at the end leaves everything outside the manager's own entries as it was before the run, and nothing of the manager's when no call fails |
| `TunPipeline.TunBufferPool.constructor` | pkg/backend/cloudflaremesh/tunbuffer.go:54-63 | the pool starts with all its buffers, full length |
| `TunPipeline.TunBufferPool.Get` | pkg/backend/cloudflaremesh/tunbuffer.go:68-75 | the oldest free buffer at full length, or nothing after cancellation |
| `TunPipeline.TunBufferPool.Put` | pkg/backend/cloudflaremesh/tunbuffer.go:80-88 | a buffer of the pool's size goes to the end of the list if there is room |
| `TunPipeline.PutKeeps` | pkg/backend/cloudflaremesh/tunbuffer.go:77-88 | while a stage holds a buffer the list has room for it, so put never drops one |
| `TunPipeline.OwnerKept` | pkg/backend/cloudflaremesh/tunbuffer.go:37-48 | every step of every stage leaves each buffer with exactly one owner |
| `TunPipeline.StepAccounted` | pkg/backend/cloudflaremesh/masque_linux.go:674-693 | every step keeps what was read equal to what was sent, is in flight or was given up, in that order and byte for byte, although the buffers are shared memory |
| `TunPipeline.BuffersConserved` | pkg/backend/cloudflaremesh/tunbuffer.go:37-48 | in every interleaving each of the buffers is held once: none lost, none shared |
| `TunPipeline.PacketsDeliveredInOrder` | pkg/backend/cloudflaremesh/masque_linux.go:672-693 | in every interleaving, session restarts included, packets are handed over in read order with the bytes read, never more than the queue and two behind, and all of them once nothing is in flight |
| `TunPipeline.CanDeliverAll` | pkg/backend/cloudflaremesh/masque_linux.go:674-693 | from every state of every run that was not cancelled, steps that read nothing more lead to everything read having been sent, a closed queue and lost sessions included |
| `TunPipeline.CanReadNext` | pkg/backend/cloudflaremesh/masque_linux.go:674-693 | and from every such state a reader that has not stopped can still read any packet that fits |
| `TunPipeline.SendOutcome` | pkg/backend/cloudflaremesh/masque_linux.go:785-811 | a send hands over the bytes behind the headroom, gives the buffer back at full length, and ends the session exactly when it failed |
| `TunPipeline.ReaderStopsForGood` | pkg/backend/cloudflaremesh/masque_linux.go:674-693 | a failed read gives its buffer back, closes the queue and ends the reader, which never reads again |
| `TunPipeline.StoppedMeans` | pkg/backend/cloudflaremesh/masque_linux.go:674-693 | in every run the reader stops only after a cancellation or a failed read, and the queue is closed by the latter alone |
| `TunPipeline.ReaderFindsBuffer` | pkg/backend/cloudflaremesh/tunbuffer.go:19-36 | with 288 buffers and a queue of 256 at least 31 buffers are free whenever the reader asks |
| `TunPipeline.ReaderNeverStarvesIff` | pkg/backend/cloudflaremesh/tunbuffer.go:31-35 | for any sizes, the reader never finds the pool empty if and only if it has at least two buffers more than the queue |
| `IptablesBootstrap.PlayedChain` | pkg/trafficmngr/iptables/iptables.go:324-338 | the delete and append commands of one chain leave it without the first occurrence of each rule, followed by the rules in list order |
| `IptablesBootstrap.WithoutIsForeignIff` | pkg/trafficmngr/iptables/iptables.go:329-335 | deleting each rule once leaves just the others' rules if and only if none was there twice |
| `IptablesBootstrap.ExecAllIsPlay` | pkg/trafficmngr/iptables/iptables_restore.go:89-100 | a run of commands succeeds, and gives each chain what its own commands make of it, exactly when every chain exists and each chain's commands succeed on it |
| `IptablesBootstrap.Iptables.ApplyWithoutFlush` | pkg/trafficmngr/iptables/iptables_restore.go:89-100 | whatever order the tables come in, every chain ends up with its own commands carried out; after a failure some tables are done as a whole and the others untouched |
| `IptablesBootstrap.Iptables.OpenChain` | pkg/trafficmngr/iptables/iptables.go:301-322 | the flannel chain a rule needs is created empty exactly when it is missing |
| `IptablesBootstrap.Iptables.CleanAndBuild` | pkg/trafficmngr/iptables/iptables.go:296-341 | the payload holds, table by table, the delete and append commands of the list in order; missing flannel chains have been created and nothing else changed |
| `IptablesBootstrap.Iptables.Bootstrap` | pkg/trafficmngr/iptables/iptables.go:344-361 | the chains after success; after a failure every chain is finished or as it was; success when no call fails and the chains of the list exist |
| `IptablesBootstrap.Iptables.Teardown` | pkg/trafficmngr/iptables/iptables.go:502-545 | the first occurrence of each rule of the list whose flannel chain exists goes and nothing else; after a failure every chain is finished or as it was |
| `IptablesBootstrap.TeardownReachesAll` | pkg/trafficmngr/iptables/iptables.go:502-545 | where no rule jumps to a missing chain, which the kernel sees to, that is every rule of the list |
| `IptablesBootstrap.BootstrapOrdersIff` | pkg/trafficmngr/iptables/iptables.go:344-361 | every chain holds the others' rules in their old order and then flannel's in list order if and only if no chain held a flannel rule twice |
| `IptablesBootstrap.BootstrapTwice` | pkg/trafficmngr/iptables/iptables.go:344-361 | bootstrapping chains that are in order changes nothing |
| `IptablesBootstrap.TeardownUndoesBootstrap` | pkg/trafficmngr/iptables/iptables.go:502-545 | teardown after a bootstrap leaves just the others' rules in their old order |
| `IptablesBootstrap.DuplicateStays` | pkg/trafficmngr/iptables/iptables.go:329-335 | a chain with a rule twice keeps one of them through a delete |
| `IptablesBootstrap.ForwardRulesAreProper` | pkg/trafficmngr/iptables/iptables.go:223-231 | the forwarding rules are all different |
| `IptablesBootstrap.MasqRulesAreProperIff` | pkg/trafficmngr/iptables/iptables.go:135-169 | the masquerading rules are all different if and only if the node's block is not the whole network |
| `IptablesBootstrap.MineInListOrder` | pkg/trafficmngr/iptables/iptables.go:324-338 | rules of one chain come in it in the order of the list |
| `IptablesBootstrap.ChainsAreThere` | pkg/trafficmngr/iptables/iptables.go:296-322 | with the built-in chains there, every chain of either list is there once it has been opened |
| `MasqVerdict.MasqVerdicts` | pkg/trafficmngr/iptables/iptables.go:135-169 | what the masquerading chain does to every packet: marked ones, those between network and node block and those from outside to the node block return; of the rest those leaving the network except to multicast, and those entering it, are masqueraded |
| `MasqVerdict.ForwardVerdicts` | pkg/trafficmngr/iptables/iptables.go:223-231 | the forwarding chain accepts exactly the packets from or to the network |
| `MasqVerdict.JumpsToFlannel` | pkg/trafficmngr/iptables/iptables.go:135-169 | the first rule of each list sends every packet of the built-in chain to flannel's |
| `MasqVerdict.MasqChain` | pkg/trafficmngr/iptables/iptables.go:135-169 | the other six masquerading rules are flannel's chain, in that order |
| `MasqVerdict.ForwardChain` | pkg/trafficmngr/iptables/iptables.go:223-231 | and the other two forwarding rules are its forwarding chain |
| `RestorePayload.LineText` | pkg/trafficmngr/iptables/iptables_restore.go:130-144 | the inner loop prints a line's words parted by spaces, with quotes around what follows --comment |
| `RestorePayload.BuildPayload` | pkg/trafficmngr/iptables/iptables_restore.go:124-150 | the text is one section for each table, each once, in some order |
| `RestorePayload.TokensOfPrinted` | pkg/trafficmngr/iptables/iptables_restore.go:130-144 | splitting a printed line into words, quotes observed, gives the words back |
| `RestorePayload.PayloadReadsBack` | pkg/trafficmngr/iptables/iptables_restore.go:124-150 | the whole text reads back as the sections it was made of |
| `RestorePayload.TablesReadBack` | pkg/trafficmngr/iptables/iptables_restore.go:124-150 | every command of every table is read back in its place, whatever order the tables came in |
| `RestorePayload.ForwardRulesReadable` | pkg/trafficmngr/iptables/iptables.go:223-231 | every delete and append line of the forwarding rules can be read back |
| `RestorePayload.MasqRulesReadable` | pkg/trafficmngr/iptables/iptables.go:135-169 | every delete and append line of the masquerading rules can be read back |
| `RestorePayload.FlannelPayloadsReadable` | pkg/trafficmngr/iptables/iptables_restore.go:124-150 | the whole payload that is built for either list reads back as it was built |
| `NodeHosts.Merge` | pkg/cloudflaremeshoperator/nodehosts.go:109-157 | the loops compute the merge as specified, each error included |
| `NodeHosts.SortNames` | pkg/cloudflaremeshoperator/nodehosts.go:141-145 | the names in their one ascending order |
| `NodeHosts.AscendingUnique` | pkg/cloudflaremeshoperator/nodehosts.go:141-145 | a set of names has just one ascending order, so the output depends on the hosts alone |
| `NodeHosts.AcceptedIff` | pkg/cloudflaremeshoperator/nodehosts.go:109-140 | a file is accepted if and only if it has no marker, or one begin marker and then one end marker; what is kept is the file without the block, less the blank lines at its end |
| `NodeHosts.LinesOfRendered` | pkg/cloudflaremeshoperator/nodehosts.go:110-111 | what is written reads back line by line, less a carriage return at the end of each |
| `NodeHosts.OutputKeeps` | pkg/cloudflaremeshoperator/nodehosts.go:109-157 | the output is accepted again, and the same unmanaged lines are kept of it in the same order, less such carriage returns |
| `NodeHosts.MergeOverwritesIff` | pkg/cloudflaremeshoperator/nodehosts.go:109-157 | merging one set of hosts and then another is merging the second, if and only if no kept line ends in a carriage return |
| `NodeHosts.NoReturnsInFile` | pkg/cloudflaremeshoperator/nodehosts.go:110-111 | a file without carriage returns is such a file |
| `NodeHosts.ReturnIsLost` | pkg/cloudflaremeshoperator/nodehosts.go:110-111 | every file of one line that ends in a carriage return and no line feed changes in a second merge |
| `NodeHosts.BlockReadsBack` | pkg/cloudflaremeshoperator/nodehosts.go:146-152 | the managed block of the output, between the two marker lines, is the lines of exactly the desired hosts, in ascending order of their names |
| `NodeHosts.BlockGivesHosts` | pkg/cloudflaremeshoperator/nodehosts.go:146-152 | each line of the block, cut at its first space, gives the address and the name of one host, in the order of the names |
| `NodeHosts.LexLessMeans` | pkg/cloudflaremeshoperator/nodehosts.go:141-145 | that order is by the first character in which two names differ, a name before its extensions |

## Left out

- IPv6 and dual stack: the models are those of an IPv4-only configuration; dual-stack keys are parsed but
  nothing is proved about them.
- The retry after a lost create: `createSubnet` and the manager compare different error values, so the
  code ends in an error there, and that is what the protocol's `LoseRace` step does.
- The watch on a single lease (`watchSubnet`, `WatchLease`) and registry events that do not parse.
- The MASQUE protocol itself, registration, TLS, timers and reconnect delays of the mesh transport.
- All other backends, the Kubernetes subnet manager, the operator apart from the hosts file, nftables,
  resynchronisation of iptables rules, interface selection, flags and files.
- The byte loops of `firstUsableIPv4` and `lastIPv4` are modelled on 32-bit words, CIDR strings as blocks,
  and the checksum's buffer as whole 32-bit words, which is what its callers pass.
- The order in which `Reconcile` goes through its networks, which the source sorts or leaves to a map: the
  model goes through them in any order.
- Allocator.AllocateSubnet: asks that the scan ends, because a loop that does not has no result; which of
  the collected blocks is picked is left open.
- Allocator.CollectFree: asks the same.
- LeaseRenewal.LeaseNeverExpires: registry calls take no time, a failed renewal has no effect on the entry
  (`RevokedRenewalShares` is about one that has), and events about the lease repeat the expiration it has.
- LeaseProtocol.LeasesStayExclusive: for a range that ends at the top it takes every relied-on entry to
  matter; exactly which entries outside such a range do is not stated, because how far a scan can be driven
  past the range depends on how many nodes there are, a node not seeing its own entries in a listing it goes
  on from. A write and the revocation after it are one step; a later revocation is an expiry.
- WatchMirror.MirrorEqualsRegistry: leaves out the own subnet, whose events the watcher ignores, takes
  every key in the registry to be that of a block, and takes reads of an entry's remaining time to succeed;
  in the source a failed one drops the entry from a listing or turns an event into an empty snapshot.
- ProxyRoutes.RouteTable.ProcessCmd: leaves out prefix length 0, for which the C shift is undefined.
- ProxyRoutes.RouteTable.Serve: leaves it out too, and says what the last command of a block makes of it
  only for runs in which there was memory for every set.
- ProxyRoutes.ReplayRemembers: the same.
- MeshRoutes.RouteManager.Ensure: networks are blocks without host bits, as flannel leases them and as the
  kernel and iptables list them; what a kernel makes of a network with host bits is not modelled.
- MeshRoutes.RouteManager.Remove: the same, as for every other member of MeshRoutes.
- MeshNetwork.Network.HandleEvents: events of this backend are about such blocks, for the same reason.
- MeshNetwork.Network.Loop: the same.
- MeshNetwork.Network.Run: the same.
- TunPipeline.TunBufferPool.Get: asks for a free buffer or a cancellation, because the source blocks
  until there is one.
- MasqVerdict.MasqVerdicts: is about a reader of rules defined here, which takes the packets a written
  network matches as a parameter; connection tracking and the choice of the masquerading source are left out.
- MeshRoutes.InstalledRewrites: rules of others decide packets as a parameter says.
- RestorePayload.PayloadReadsBack: is about a reader defined here, and about words without quotes and
  line feeds, spaces only in comments.
- NodeHosts.OutputKeeps: asks that the lines of the hosts hold no line feed and are no markers.
- NodeHosts.BlockReadsBack: asks the same, and that no name ends in a carriage return.
- NodeHosts.MergeOverwritesIff: asks that the lines of the hosts merged first hold no line feed and are no
  markers, as is true of addresses and node names.
