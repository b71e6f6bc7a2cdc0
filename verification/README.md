# Verification of flannel-ng

flannel-ng gives every host an IPv4 subnet of its own by racing leases into etcd, and keeps each
host's routes in step with everybody's leases. This project models that path in Dafny, from the
network configuration to the route a packet takes, and proves what it promises.

| file | what it models |
|---|---|
| `Cidr.dfy` | addresses and CIDR blocks: floors, masks, containment, overlap, the next block |
| `NetworkConfig.dfy` | validation of the network configuration, filling it in place |
| `Allocator.dfy` | the scan for a free subnet and its first hundred candidates |
| `MapLog.dfy` | replaying logs of puts and deletes on a map: overlap, skipping, partial readings and gaps |
| `Leases.dfy` | leases, events, and the lease list read as a map |
| `Watcher.dfy` | the lease watcher: reset, update, add, remove, and whole watches |
| `Protocol.dfy` | any number of nodes racing leases into one registry, as a state machine |
| `Registry.dfy` | the etcd registry's operations, the watch parser, one acquisition attempt |
| `Renewal.dfy` | the renewal timer loop |
| `KeyCodec.dfy` | registry keys: formatting, the key pattern with backtracking, parsing |
| `UdpRoutes.dfy` | the UDP backend's route list and next-hop lookup |
| `HostGw.dfy` | the host-gw backend's route records and the kernel table |
| `EndToEnd.dfy` | the composition: where packets go, given the registry's history, and renewals that come in time |

`dafny verify dfyconfig.toml` checks the whole project.

## Main results

1. **Exclusive ownership.** In every run of any number of nodes that keeps the guards, what a node holds
   unexpired is its own in the registry, and no two nodes hold an address in common
   (`Protocol.ExclusiveOwnership`). The guards are honest clock readings, a put without a compare going only to a
   key that is absent, run out or the writer's own, and adopting only one's own writes; with honest readings they
   are exactly what keeps the invariant behind this, that every unexpired record is backed by the registry
   (`Protocol.StepExclusiveIff`, over runs `Protocol.RunExclusiveIff`). Ownership itself survives exactly the
   steps that harm no sure holder: over whole runs `Protocol.RunHarmlessIff`, and from a backed state
   `Protocol.StepHoldersIff` says which writes and adoptions those are. Runs in which nodes reuse, renew and
   adopt only while their record and the one adopted are surely unexpired keep the guards
   (`Protocol.TimelyOwnership`), and the renewal loop acts that way (`EndToEnd.RenewalTimely`,
   `EndToEnd.AdoptionTimely`).
2. **Registry disjointness.** With snapshots however stale or incomplete and writes however late, live keys
   are aligned slots of the window and pairwise disjoint (`Protocol.RegistryDisjoint`).
3. **Where packets go.** A node that read the registry at any point of any run, whatever the lookups answered,
   watched on from the cursor and has handled everything routes an address to the owner of the live lease
   holding it exactly when that lease is not its own and was read or has been written since, and routes nothing
   else (`EndToEnd.PacketsFollowLeases`). After a non-empty reading with no failed lookup that is every foreign
   live lease (`EndToEnd.CompletePackets`); in runs that keep the guards the owner is the very node holding the
   subnet (`EndToEnd.PacketsReachHolder`).
   Wherever the watch has stopped, a route is right exactly when nothing was missed on its key or the last
   entry missed says the same (`EndToEnd.StoppedPackets`).
4. **Kernel routes.** Whatever the registry sends, the host-gw backend never fails, and the kernel holds at
   every destination what the last event of the backend's own type asks for; it holds what the known leases ask
   for exactly at the destinations not stranded by a change of backend type (`HostGw.KernelFollowsLeases`), so
   everywhere when subnets keep their type (`HostGw.TypedKernelFollows`). Back to the registry: in every run it
   has the route of every foreign live lease of a host-gw node that was read or written since
   (`EndToEnd.KernelFollowsRegistry`).
5. **One lease per public IP**, the same one across restarts. A step keeps it exactly when the address it writes
   under a key has no other live key (`Protocol.StepSingleIff`, over runs `Protocol.RunSingleIff`). Nodes stay
   committed to one key each, which implies it, exactly when snapshots do not leave out a node's own live key and
   nodes adopt only their own writes (`Protocol.StepSettledIff`, `Protocol.RunSettledIff`); so it holds over runs
   of such steps however late the writes (`Protocol.RestartStability`), and in timely runs without asking
   anything of adoptions (`Protocol.TimelyStability`).
6. **The renewal bound** and its exactness (`Renewal.NeverExpires`, `Renewal.StreakExact`,
   `Renewal.MarginBound`), and how every loop ends (`Renewal.EndsAtFirst`, `Renewal.DeletedIff`).
7. **The watcher is a view**, a reset is a diff, and deletes carry history (`Watcher.WatcherRefinesMap`,
   `Watcher.ResetDiff`, `Watcher.ResetNames`, `Watcher.DeletesCarryHistory`).
8. **The allocator** is sound, complete and succeeds by pigeonhole (`Allocator`), over the window that
   validation yields (`NetworkConfig.AcceptedIff`, `NetworkConfig.AcceptedWindow`), an undisturbed acquisition
   with every key read succeeds exactly when it finds a lease to reuse or its scan a free subnet
   (`Registry.AttemptSucceeds`), and **keys** are recovered exactly,
   and nothing else accepted (`KeyCodec.KeyRoundTrip`, `KeyCodec.TextParses`, `KeyCodec.ExtractSound`).
9. **Lookup is order-free** at an address exactly when all entries matching it agree, and everywhere exactly
   when overlapping entries agree (`UdpRoutes.OrderFreeIff`, `UdpRoutes.OrderFreeEverywhere`); then it is
   longest-prefix match (`UdpRoutes.FirstMatchIsLongest`).

## What the code does not promise on every input

- *Ownership when nodes act late.* One late renewal and two nodes hold one subnet
  (`Protocol.LateRenewalSharesSubnet`). From a backed state a reuse or renewal does harm exactly when it
  overwrites a live key whose owner still surely holds it, and an adoption exactly when it is of another's write
  and surely unexpired (`Protocol.StepHoldersIff`). A compare on the key before the put would check the guard,
  which asks a little more: it also bars overwriting a live key nobody holds (`Protocol.UnguardedButHarmless`).
- *One lease per public IP.* A restarted node whose snapshot leaves its lease out takes a second, even in a
  timely run (`Protocol.OmissionDuplicates`); with late renewals, a node that adopts another's write may later
  renew under an address that has another subnet by then (`Protocol.AdoptionDuplicates`). The harm is always
  done by a later write, never by the step that breaks the commitment (`Protocol.SettledSingle`);
  `Protocol.StepSingleIff` says exactly which writes do it.
- *Incomplete and empty snapshots.* Keys whose lifetime lookup fails are left out of a snapshot, and a watch
  begun on an empty range starts wherever the log then is. A live key left out is routed exactly once it is
  written again (`EndToEnd.WatchCatchesUp`, `EndToEnd.PacketsFollowLeases`); the whole map is known exactly when
  every live key was read or is written after the start (`MapLog.GapExact`, `MapLog.LateWatchMisses`).
- *Failed lookups in a watch.* One ends the watch and loses its response (`Registry.WatchSubnets`). The routes
  left are right exactly at the keys nothing was missed on, or where the last entry missed says the same
  (`EndToEnd.WatchKnowsIff`, `EndToEnd.StoppedPackets`). They need not be those of any moment of the registry:
  lookups come after the entries they are for, so a put already superseded is skipped, and a lease that was live
  throughout may have no route (`EndToEnd.FailedLookupLosesLease`).
- *Window inside the network.* Default bounds start from the address as written, so a network not written
  canonically can be accepted with a bound outside itself (`NetworkConfig.NonCanonicalEscapes`);
  `NetworkConfig.AcceptedWindow` says exactly when the window is inside, and `NetworkConfig.RecheckIff` that
  re-validation succeeds exactly then.
- *Windows without a subnet.* Validation does not compare the bounds, so a minimum above the maximum is accepted
  (`EndToEnd.InvertedWindowAccepted`). A window has a subnet exactly when its bounds are in order
  (`EndToEnd.SlotsIffOrdered`); without one every allocation fails.
- *Restarting late.* Reuse extends the key but answers the lease as read, so the renewal loop starts exactly when
  at least the margin was left of the old expiration, and underflows with less (`EndToEnd.ReuseUnderflows`,
  `EndToEnd.RestartUnderflows`). A margin above 24 hours underflows after the first renewal
  (`Renewal.MarginBound`).
- *u32 overflow.* Additions on addresses are checked: an overflow is an outcome of its own, where a checked
  build panics and an unchecked one wraps and goes on with a wrong address. `NetworkConfig.OverflowsIff` says
  exactly which settings overflow, 255.0.0.0/8 with default bounds among them
  (`NetworkConfig.LastNetworkOverflows`). The allocator's scan overflows exactly when the window ends at the
  last address and fewer than a hundred slots before its last one are free (`Allocator.AllocateSubnet`), which
  an accepted configuration allows (`EndToEnd.LastWindowOverflows`).
- *Values across a reset.* A reset emits nothing for a known subnet (`Watcher.ResetMissesChange`), so leases are
  refreshed exactly when none of those changed (`Watcher.ResetDiff`); and it deletes the own subnet exactly when
  the old list holds it.
- *Key prefixes across lengths.* The prefix watch on a /2 also sees the /24 at the same address
  (`KeyCodec.WatchSeesLonger`); `KeyCodec.WatchSees` says exactly what a watch sees.
- *First-match lookup.* It depends on the order of the list where nested blocks disagree
  (`UdpRoutes.NestedBlocksOrder`), and exactly there (`UdpRoutes.OrderFreeEverywhere`).
- *Changing backend types.* A lease turned from host-gw to another type before it goes leaves its kernel route
  behind (`HostGw.TypeChangeLeavesRoute`); `HostGw.FollowsIff` is exact.

## Assumptions

- etcd is an atomic store with a linear history. A key lives until the lease it was put with runs out, and is
  then deleted with an entry in the history; a write under a lease that ran out is refused. Revisions count the
  entries under the subnets prefix. Calls either fail without effect or succeed visibly.
- Clocks agree. A node may work out an expiration later than the store's by at most `slack`, the time from a
  grant to its look at the clock; it is unexpired "surely" while more than `slack` is left. The renewal loop
  leaves at least three seconds, so its renewals and adoptions are timely for any smaller slack.
- One process per public IP, and one configuration per run.
- The network type's `contains` compares masked addresses and `overlaps` is containment of either block's first
  or last address in the other; the network crate itself is not part of this model.
- The kernel holds at most one route per destination, accepts additions for free destinations and deletions that
  match, and has no other writer.

## Model

| member | source | states |
|---|---|---|
| `Cidr.OverlapsIffShare` | src/subnet/subnet.rs:194-200 | the overlap test decides exactly whether two blocks share an address |
| `Cidr.NestedOrDisjoint` | src/backend/udp/udp.rs:261-270 | blocks that share an address are nested |
| `Cidr.EqualLengthBlocks` | src/subnet/subnet.rs:192-204 | canonical blocks of one length are equal or disjoint |
| `Cidr.MaskedBits` | src/backend/udp/udp.rs:264-269 | masking with u32 bits is the floor used throughout, or-ing the complement the last address |
| `Cidr.NextNetwork` | src/subnet/subnet.rs:500-509 | the next block is one size further, none after a /32, and overflow exactly past the last address |
| `NetworkConfig.ChooseLength` | src/subnet/subnet.rs:74-92 | which length requests are accepted, and the length chosen: the request, or the larger of 24 and prefix + 2 |
| `NetworkConfig.Config.Check` | src/subnet/subnet.rs:67-133 | the fields filled and the answer, including what a failure leaves filled |
| `NetworkConfig.Config.CheckWindow` | src/subnet/subnet.rs:93-131 | the same for the bounds, once the length is chosen |
| `NetworkConfig.AlignedByMask` | src/subnet/subnet.rs:119-127 | the alignment test against the shifted mask is being the floor of one's own block |
| `NetworkConfig.AcceptedWindow` | src/subnet/subnet.rs:79-127 | an accepted configuration has a fitting length and aligned bounds, and each boundary subnet is inside the network exactly under the stated condition on the input |
| `NetworkConfig.DefaultMaxInside` | src/subnet/subnet.rs:105-112 | the default upper bound is inside the network exactly when the network is canonical |
| `NetworkConfig.CanonicalWindow` | src/subnet/subnet.rs:93-127 | for canonical networks both boundary subnets lie wholly inside the network |
| `NetworkConfig.AcceptedIff` | src/subnet/subnet.rs:67-133 | any settings are accepted exactly when IPv6 is off and, with IPv4 on, there is a network, the length fits, each given bound is aligned in the network and each defaulted one has room and an aligned address to start from |
| `NetworkConfig.OverflowsIff` | src/subnet/subnet.rs:93-112 | any settings overflow exactly when the length fits and a bound without room is reached and defaulted |
| `NetworkConfig.ReasonIff` | src/subnet/subnet.rs:68-92 | which settings are rejected for a missing network, a length too long, too few subnets, or a network too small |
| `NetworkConfig.MinReasonIff` | src/subnet/subnet.rs:94-104 | once the length fits, a lower bound outside the network is the reason exactly when one is given there |
| `NetworkConfig.MaxReasonIff` | src/subnet/subnet.rs:105-118 | likewise the upper bound, once the lower one is past its test |
| `NetworkConfig.FilledIn` | src/subnet/subnet.rs:93-132 | past the bound tests the settings hold the length and bounds chosen, and the verdict is the alignment's, lower bound first |
| `NetworkConfig.FailureLeaves` | src/subnet/subnet.rs:67-118 | what an earlier failure leaves filled in |
| `NetworkConfig.LastNetworkOverflows` | src/subnet/subnet.rs:94-112 | the default bounds of 255.0.0.0/8 overflow; with the upper bound given it is accepted |
| `NetworkConfig.DefaultsAccepted` | src/subnet/subnet.rs:94-112 | for a canonical network with both bounds unset: accepted exactly when the next block is representable, an overflow otherwise |
| `NetworkConfig.DefaultSlots` | src/subnet/subnet.rs:82-112 | a window with both bounds defaulted holds all subnets of a block of the network's size but one, at least three |
| `NetworkConfig.RecheckIff` | src/subnet/subnet.rs:67-133 | validating an accepted configuration again changes nothing exactly when its bounds are in the network |
| `NetworkConfig.CanonicalRecheck` | src/subnet/subnet.rs:67-133 | for canonical networks validating again changes nothing |
| `NetworkConfig.NonCanonicalEscapes` | src/subnet/subnet.rs:94-112 | a concrete accepted configuration whose upper bound is outside its network |
| `Allocator.OverlapsAny` | src/subnet/subnet.rs:194-200 | whether some lease overlaps the slot |
| `Allocator.AllocateSubnet` | src/subnet/subnet.rs:183-211 | the answer is one of the first hundred free slots; failure exactly when there are none; overflow exactly when the scan must leave the address space; with fewer leases than slots, none larger than a slot, and no overflow a subnet is always allocated |
| `Allocator.FreeExact` | src/subnet/subnet.rs:192-205 | the free list is exactly the aligned addresses of the window sharing nothing with any lease |
| `Allocator.CandidateFree` | src/subnet/subnet.rs:192-210 | every candidate is a slot and shares no address with any lease, whatever its length |
| `Allocator.SlotIndex` | src/subnet/subnet.rs:192-204 | a slot is the lower bound plus a whole number of subnets |
| `Allocator.NothingFreeIff` | src/subnet/subnet.rs:206-208 | nothing is free exactly when every slot shares an address with some lease |
| `Allocator.Candidates` | src/subnet/subnet.rs:193 | the candidates are the first hundred free slots, or all when there are fewer |
| `Allocator.CandidatesAreFirst` | src/subnet/subnet.rs:193 | no free slot before a candidate is left out, and none at all below a hundred |
| `Allocator.Pigeonhole` | src/subnet/subnet.rs:183-211 | fewer leases than slots, none larger than a slot, always leaves a candidate |
| `MapLog.OverlapLosesNothing` | src/subnet/subnet.rs:277-280 | replaying the log from any earlier entry onto a snapshot gives the current map |
| `MapLog.SkippingSuperseded` | src/etcd/registry.rs:258-263 | dropping entries followed by a kept one on the same key changes nothing |
| `MapLog.WatchAt` | src/etcd/registry.rs:99-110 | a watch over any part of a snapshot knows the current value of exactly the keys read or written after it started |
| `MapLog.GapExact` | src/etcd/registry.rs:99-102 | such a watch, over an empty reading too, gives the current map exactly when every live key was read or is written after it started |
| `MapLog.LateWatchMisses` | src/etcd/registry.rs:99-102 | one put, watched from after it over an empty reading, is never known |
| `Watcher.LeaseWatcher.Add` | src/subnet/subnet.rs:438-453 | the list after an add and the event sent |
| `Watcher.LeaseWatcher.Remove` | src/subnet/subnet.rs:454-473 | the list after a removal; the event carries the lease held, or the incoming one |
| `Watcher.LeaseWatcher.Update` | src/subnet/subnet.rs:420-436 | the list and batch after a run of events, own subnet skipped |
| `Watcher.LeaseWatcher.Reset` | src/subnet/subnet.rs:375-419 | the list and batch after a snapshot, removing while matching |
| `Watcher.WatchLeases` | src/subnet/subnet.rs:239-272 | everything sent over a whole watch |
| `Watcher.AddedLookup` | src/subnet/subnet.rs:438-453 | adding is a map update |
| `Watcher.RemovedLookup` | src/subnet/subnet.rs:454-473 | removing is a map removal |
| `Watcher.ResetDiff` | src/subnet/subnet.rs:375-419 | a reset turns the old subnets into the snapshot's minus own, and refreshes the leases exactly when no known one changed |
| `Watcher.ResetMissesChange` | src/subnet/subnet.rs:398-401 | a concrete reset that sends nothing although a lease changed its address |
| `Watcher.ResetNames` | src/subnet/subnet.rs:375-419 | a reset names each subnet at most once, exactly those that differ, puts with the snapshot's lease and deletes with the old one |
| `Watcher.WatcherRefinesMap` | src/subnet/subnet.rs:375-474 | in every watch the list stays a map, the snapshot (own subnet included) with the foreign events applied, and what was sent replays to that map minus own, which is the input folded without own entries |
| `Watcher.OneOutPerEvent` | src/subnet/subnet.rs:420-473 | one event goes out for each foreign event, in order: puts as they are, deletes with the lease held by then, or as they are when none was |
| `Watcher.EventsFirst` | src/subnet/subnet.rs:254-268 | a result with events is handled by them alone, one with neither changes and sends nothing |
| `Watcher.DeletesCarryHistory` | src/subnet/subnet.rs:454-473 | every delete of a known subnet carries the lease last put for it, although watch deletes are tombstones |
| `Protocol.RegistryDisjoint` | src/etcd/registry.rs:134-155 | in every run live keys are slots of the window and pairwise disjoint |
| `Protocol.NodesAfter` | src/subnet/subnet.rs:144-182 | what each step leaves its own node holding, and every other node as it was |
| `Protocol.GrantsAfter` | src/etcd/registry.rs:126-152 | an etcd lease is gained by a grant, and used by a write, revoked after a lost race or lost in a crash |
| `Protocol.WritesUnchecked` | src/etcd/registry.rs:279-310 | whether a node may create, reuse or renew does not depend on what the registry holds |
| `Protocol.LostRace` | src/etcd/registry.rs:140-152 | a create of a key that is there leaves the registry as it is, and the node gives up its etcd lease |
| `Protocol.StepExclusiveIff` | src/etcd/registry.rs:279-310 | with honest readings a snapshot, grant, create, reuse, renew, adopt, expire or crash step keeps the invariant that every unexpired put, reading and holding is backed by the registry exactly when its unguarded put goes to a key absent, run out or the writer's, and its adoption is of its own write |
| `Protocol.StepHoldersIff` | src/etcd/registry.rs:279-310 | from that invariant and with honest readings, every sure holder still owns its key after a step exactly when the step does not overwrite a live key its owner surely holds, nor adopt another's surely unexpired write |
| `Protocol.StepHarmlessIff` | src/etcd/registry.rs:279-310 | from any state in which sure holders own their keys, a step keeps it so exactly when it takes no key from a sure holder and makes nobody a sure holder of another's |
| `Protocol.RunHarmlessIff` | src/subnet/subnet.rs:284-293 | over whole runs sure holders own their keys at every point exactly when every step is harmless in that sense |
| `Protocol.RunExclusiveIff` | src/subnet/subnet.rs:284-293 | over whole runs with honest readings the backing invariant holds at every point exactly when every step meets the guards |
| `Protocol.ExclusiveOwnership` | src/subnet/subnet.rs:144-182 | in every run that keeps the guards a held unexpired subnet is its holder's in the registry and shared by no other holder |
| `Protocol.TimelyGuarded` | src/subnet/subnet.rs:325-333 | a timely put is to a key its writer still owns, and the watch on the own subnet delivers a timely holder only its own writes |
| `Protocol.TimelyOwnership` | src/subnet/subnet.rs:144-182 | in every timely run, where late adoptions are barred as well as late writes, ownership is exclusive |
| `Protocol.LateRenewalSharesSubnet` | src/etcd/registry.rs:279-310 | a concrete run in which one late renewal, honest but unguarded, makes two nodes hold one subnet |
| `Protocol.UnguardedButHarmless` | src/etcd/registry.rs:279-310 | the same renewal after the other node has crashed breaks the backing invariant but harms no holder |
| `Protocol.StepSingleIff` | src/subnet/subnet.rs:150-181 | from any state without two live keys of one address, a step keeps it so exactly when the address it writes under a key has no other live key |
| `Protocol.RunSingleIff` | src/subnet/subnet.rs:150-181 | over whole runs no address ever has two live keys exactly when every step meets that |
| `Protocol.SettledSingle` | src/subnet/subnet.rs:150-181 | while nodes are committed to one key each, no address has two, and no single step changes that |
| `Protocol.StepSettledIff` | src/subnet/subnet.rs:150-181 | a step keeps the invariant that every node is committed to one key exactly when its snapshot shows the node's own live key and its adoption is of the node's own write |
| `Protocol.RunSettledIff` | src/subnet/subnet.rs:150-181 | over whole runs that commitment holds at every point exactly when every step meets these rules |
| `Protocol.RestartStability` | src/subnet/subnet.rs:150-181 | when snapshots show the own key and adoptions are of own writes, no public IP has two live leases however late the writes, and a node holds or will reuse the one it has, across restarts |
| `Protocol.TimelyStability` | src/subnet/subnet.rs:150-181 | the same in timely runs, with nothing asked of adoptions |
| `Protocol.OmissionDuplicates` | src/etcd/registry.rs:104-110 | a timely run in which a restarted node's snapshot leaves its lease out and it takes a second |
| `Protocol.AdoptionDuplicates` | src/subnet/subnet.rs:325-333 | a run with complete snapshots and late renewals in which an adopted write leads to two live leases of one address |
| `Protocol.SnapshotFinds` | src/subnet/subnet.rs:150-160 | a snapshot commits the node to the one key it has exactly when it does not leave that key out, and then finds it |
| `Registry.EtcdSubnetRegistry.GetSubnets` | src/etcd/registry.rs:92-113 | the leases read: those whose lookup succeeds, each once, with owner and expiration; cursor 0 on an empty range; overflow exactly on a negative lifetime |
| `Registry.EtcdSubnetRegistry.CreateSubnet` | src/etcd/registry.rs:114-160 | creates exactly when the key is absent, else changes nothing |
| `Registry.EtcdSubnetRegistry.UpdateSubnet` | src/etcd/registry.rs:279-310 | writes the key whoever holds it |
| `Registry.ParseEntry` | src/etcd/registry.rs:241-276 | a put whose lease has time left yields its lease with the expiration worked out, a put whose lease is gone nothing, a delete a tombstone; only a put's failed lookup is an error |
| `Registry.ResultOfEntry` | src/etcd/registry.rs:223-232 | the watch results of one entry, in the same terms |
| `Registry.ParseResponse` | src/etcd/registry.rs:223-270 | the results of a response's entries one after the other, or nothing exactly when a lookup on a put fails |
| `Registry.WatchSubnets` | src/etcd/registry.rs:206-239 | the results of all responses before the first with a failed lookup, which ends the watch |
| `Registry.FeedIs` | src/subnet/subnet.rs:277-280 | a snapshot followed by the parsed watch is what the watcher is fed |
| `Registry.WatchFeeds` | src/subnet/subnet.rs:273-282 | the snapshot and the results of the responses handled are the watcher's input for the entries they hold |
| `Registry.TryAcquireLease` | src/subnet/subnet.rs:144-182 | an undisturbed attempt fails reading exactly on a negative lifetime; it reuses the first lease read under the own address exactly when that is of the window's length and between its bounds, else answers what allocation over the keys read allows; a lease acquired is always of that length and in those bounds, written as the protocol's steps do, a failure leaves the registry alone, and with every key read and room left before the last address a lease is acquired |
| `Protocol.OwnLeaseIff` | src/subnet/subnet.rs:151-161 | a lease is found to reuse exactly when the first one under the own address has the window's length and lies between its bounds |
| `Registry.AcquiredInWindow` | src/subnet/subnet.rs:155-169 | from any registry, a lease acquired has the window's length and lies between its bounds |
| `Registry.AttemptSucceeds` | src/subnet/subnet.rs:144-182 | with every key read an attempt acquires a lease exactly when the first under the own address fits the window, or the scan stays in the address space and finds a free subnet |
| `Registry.ReuseOwn` | src/subnet/subnet.rs:151-167 | reuse rewrites the key and answers the lease as it was read, old expiration included |
| `Registry.AllocateAndCreate` | src/subnet/subnet.rs:169-181 | without a lease to reuse: overflow and exhaustion exactly as the scan has it, a lost race only when a candidate is in the registry, else a lease, under the own address and backend type and for the lifetime granted, on a candidate whose key was absent |
| `Renewal.RenewLeaseIfNeeded` | src/subnet/subnet.rs:295-347 | where the loop stands after any sequence of wake-ups and events |
| `Renewal.EndsAtFirst` | src/subnet/subnet.rs:307-340 | a loop that begins waiting waits on exactly until the first deletion, lease seen run out or short of the margin, or renewal under a margin above 24 hours, and ends as that says |
| `Renewal.NeverBegun` | src/subnet/subnet.rs:307-311 | a loop begun on a lease run out, or without the margin left, has ended at once |
| `Renewal.GoesOn` | src/subnet/subnet.rs:313-333 | what a renewal, a failure and a lease seen leave the loop waiting for |
| `Renewal.NeverExpires` | src/subnet/subnet.rs:307-333 | with a margin of 1 to 1440 minutes and fewer than 20 failures per margin minute in a row, the next attempt always precedes expiration and the timer never underflows |
| `Renewal.DeletedIff` | src/subnet/subnet.rs:334-336 | a well-behaved loop ends exactly when a deletion is seen |
| `Renewal.StreakExact` | src/subnet/subnet.rs:315-320 | k failures in a row leave the next attempt before expiration exactly when k < 20 per margin minute |
| `Renewal.MarginBound` | src/subnet/subnet.rs:321 | no well-behaved run underflows exactly when the margin is at most 24 hours |
| `KeyCodec.KeyRoundTrip` | src/etcd/registry.rs:340-363 | the parser recovers every subnet from its key under every store prefix, with or without an IPv6 part after it |
| `KeyCodec.KeyExample` | src/etcd/registry.rs:120-124 | a key spelled out |
| `KeyCodec.TextParses` | src/etcd/registry.rs:340-363 | any text of the key's shape, wildcard separators included, parses to what its address and length parse to, or to nothing |
| `KeyCodec.ParseNetIff` | src/etcd/registry.rs:351-353 | an address is read from its one text only, a length from any numeral up to 32, leading zeros allowed |
| `KeyCodec.ExtractSound` | src/etcd/registry.rs:340-363 | whatever key is accepted ends in the text of the subnet it is read as, with an IPv6 part exactly when one is reported |
| `KeyCodec.V6Example` | src/etcd/registry.rs:340-363 | a key with an IPv6 part |
| `KeyCodec.WildcardExample` | src/etcd/registry.rs:341-351 | a key that matches through the pattern's unescaped dots and is then refused as an address |
| `KeyCodec.WideDigitRefused` | src/etcd/registry.rs:341-351 | a key refused for a digit outside ASCII, which the pattern takes and the address parser does not |
| `KeyCodec.NoMatchOverLetters` | src/etcd/registry.rs:341-344 | no match of the key pattern reaches over the letters of the subnets directory |
| `KeyCodec.KeysDistinct` | src/etcd/registry.rs:120-124 | distinct subnets have distinct keys |
| `KeyCodec.WatchSees` | src/etcd/registry.rs:177-188 | a prefix watch on one key sees another exactly when the addresses agree and the length in decimal begins the other's |
| `KeyCodec.WatchSeesOwn` | src/etcd/registry.rs:177-188 | among subnets of one length the watch sees only its own subnet |
| `UdpRoutes.UdpNetwork.HandleEvents` | src/backend/udp/udp.rs:199-215 | the route list after a batch of events |
| `UdpRoutes.UdpNetwork.Put` | src/backend/udp/udp.rs:201-210 | every entry for the subnet redirected and one more pushed |
| `UdpRoutes.UdpNetwork.Retain` | src/backend/udp/udp.rs:211-213 | every entry for the subnet dropped, the others kept in order |
| `UdpRoutes.TableRefines` | src/backend/udp/udp.rs:199-215 | after any events the list is the map of last puts, duplicates agreeing |
| `UdpRoutes.EntriesSurvive` | src/backend/udp/udp.rs:201-213 | the list has one entry for every put since the last delete of its subnet, in the order of the puts |
| `UdpRoutes.FindRoute` | src/backend/udp/udp.rs:263-270 | a found route is in the list and matches; none is found only when none matches |
| `UdpRoutes.OrderFreeIff` | src/backend/udp/udp.rs:263-270 | at an address the next hop is the same in every order of the list exactly when all entries matching it agree |
| `UdpRoutes.OrderFreeEverywhere` | src/backend/udp/udp.rs:263-270 | over canonical blocks no lookup depends on the order exactly when overlapping entries agree |
| `UdpRoutes.LookupPermutes` | src/backend/udp/udp.rs:263-270 | so it is over disjoint blocks, where only duplicates overlap |
| `UdpRoutes.FirstMatchIsLongest` | src/backend/udp/udp.rs:263-270 | where overlapping entries agree first match is longest-prefix match |
| `UdpRoutes.NestedBlocksOrder` | src/backend/udp/udp.rs:263-270 | a concrete nested pair with different next hops whose lookup depends on the order |
| `UdpRoutes.LookupInMap` | src/backend/udp/udp.rs:263-270 | the next hop is the public IP of the lease whose block holds the address, none if no block does |
| `HostGw.RouterNetwork.RouteAdd` | src/backend/hostgw/router_network.rs:85-112 | the records and kernel table after installing a route |
| `HostGw.RouterNetwork.Retain` | src/backend/hostgw/router_network.rs:60 | every record equal to the route dropped |
| `HostGw.RouterNetwork.HandleEvents` | src/backend/hostgw/router_network.rs:42-68 | the records and kernel table after a batch, ending at the first failure |
| `HostGw.AddInstalls` | src/backend/hostgw/router_network.rs:85-112 | installing never fails, replaces whatever was on the destination, and touches no other |
| `HostGw.AddRecords` | src/backend/hostgw/router_network.rs:85-104 | installing records the route last, drops the records of a different route it replaces, and leaves other destinations' alone |
| `HostGw.DeleteRecords` | src/backend/hostgw/router_network.rs:53-65 | a deletion drops its route's records only, touches one destination at most, and never ends the run |
| `HostGw.NewRoutesOnLink` | src/backend/hostgw/router_network.rs:72-83 | where the kernel had nothing, every route there is on-link |
| `HostGw.DeleteRemoves` | src/backend/hostgw/router_network.rs:53-65 | deleting an installed route frees its destination and drops every record of it |
| `HostGw.KernelFollowsLeases` | src/backend/hostgw/router_network.rs:42-68 | after any watch nothing has failed, every record is installed, the kernel holds at each destination the very entry the events of the backend's type leave, on-link unless found there, the records hold the route last put exactly where the last such event is a put, and the kernel agrees with the known leases exactly where that event is not a put whose lease is no longer known as of that type |
| `HostGw.FollowsIff` | src/backend/hostgw/router_network.rs:46-58 | the same exact condition for any stream of events that carries history |
| `HostGw.TypedKernelFollows` | src/backend/hostgw/router_network.rs:42-68 | when subnets keep their backend type the kernel has exactly the known host-gw leases' routes, none for deleted ones, and untouched destinations as before |
| `HostGw.TypeChangeLeavesRoute` | src/backend/hostgw/router_network.rs:46-58 | a lease that changes backend type before it is deleted leaves its kernel route |
| `EndToEnd.AcceptedWindowValid` | src/subnet/subnet.rs:134-139 | an accepted configuration gives the allocator a valid window |
| `EndToEnd.LastWindowOverflows` | src/subnet/subnet.rs:192-205 | a concrete accepted configuration whose scan steps past the last address |
| `EndToEnd.InvertedWindowAccepted` | src/subnet/subnet.rs:93-127 | a concrete accepted configuration with its minimum above its maximum and no subnet |
| `EndToEnd.LeftForGood` | src/etcd/registry.rs:258-263 | a key that has left a revision never returns to it, so what a lookup found gone stays gone |
| `EndToEnd.LastIsKept` | src/etcd/registry.rs:258-263 | the last entry on a key nothing was missed on is always passed on, since skipped puts were of leases gone by the time of the lookup |
| `EndToEnd.ReadingBegins` | src/etcd/registry.rs:92-113 | whatever the lookups answer, what is read is part of the registry, holds exactly the keys whose lookup succeeded, and the watch from its cursor starts in time |
| `EndToEnd.WatchCatchesUp` | src/subnet/subnet.rs:273-282 | snapshot plus parsed watch gives the registry's owner of exactly the live keys read or written since, whatever was skipped or left out |
| `EndToEnd.WatchKnowsIff` | src/etcd/registry.rs:219-239 | wherever the watch has stopped, what is known at a key is what is due there exactly when no entry was missed on it or the last one missed says the same |
| `EndToEnd.FailedLookupLosesLease` | src/etcd/registry.rs:258-263 | a timely run in which a failed lookup leaves a lease that was live throughout without a route |
| `EndToEnd.RunUdp` | src/backend/udp/udp.rs:159-215 | from the registry's responses through the watcher to the route list: the routes the entries before the first failed lookup give |
| `EndToEnd.PacketsFollowLeases` | src/backend/udp/udp.rs:228-252 | in every run a caught-up node sends to the owner of the live lease holding the address exactly when that lease is foreign and was read or written since, and nowhere otherwise |
| `EndToEnd.CompletePackets` | src/backend/udp/udp.rs:228-252 | after a non-empty reading with every lookup answered, those are all foreign live leases |
| `EndToEnd.StoppedPackets` | src/backend/udp/udp.rs:228-252 | in every run, wherever the watch has stopped, a foreign slot's route is the one due exactly when no entry was missed on it or the last one missed says what the route does |
| `EndToEnd.KernelFollowsRegistry` | src/backend/hostgw/router_network.rs:35-68 | in every run a caught-up host-gw node has recorded and installed the route, by its registry owner, of every foreign live lease of a host-gw node that was read or written since, on-link where the kernel had none before |
| `EndToEnd.PacketsReachHolder` | src/backend/udp/udp.rs:228-252 | in every run that keeps the guards packets for a held foreign subnet go to its holder exactly when it was read or written since |
| `EndToEnd.RenewalTimely` | src/subnet/subnet.rs:307-322 | a renewal by a well-behaved loop is timely for any slack below three seconds, and the node then holds its lease as long as the loop assumes |
| `EndToEnd.AdoptionTimely` | src/subnet/subnet.rs:325-333 | so is adopting an event that leaves the margin |
| `EndToEnd.ReuseUnderflows` | src/subnet/subnet.rs:155-166 | after a reuse the key is extended but the loop starts from the old expiration, and underflows exactly when less than the margin is left of it |
| `EndToEnd.RestartUnderflows` | src/subnet/subnet.rs:307-311 | a concrete restart 23 hours into a lease with a two-hour margin |

## Left out

- Wrapping arithmetic: the model stops at the first address overflow and does not follow what an unchecked
  build computes after it.
- Lost responses: a write that takes effect although its caller sees an error, and the revocation of its lease
  that follows, are not steps of the protocol.
- Mixed configurations: creating only absent keys does not keep subnets of different lengths apart.
- The retry loop around acquisition always ends on its first pass, so one attempt is modelled.
- The random choice among candidates is any choice.
- A cancelled watch response ends the watch as a failed lookup does and is not a separate outcome.
- Watch events on the own subnet are adopted in any order; an own delete, which ends the process, is a crash.
- Deciding when an expired timer reading ends the loop is to the second; sub-second time is not modelled.
- JSON and the values under keys: an entry holds the public IP, the backend type is that of the node, and
  backend data and IPv6 attributes are not modelled.
- The IPv6 part of a key is matched but its text is not parsed; IPv6 validation is unimplemented in the source.
- VXLAN: its delete handling is a stub, so no table agreement holds.
- TUN device, sockets, packet headers and TTL, netlink and etcd clients, the command line, the subnet file,
  interface discovery and logging.
