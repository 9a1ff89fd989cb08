# A verified model of the bare-metal DHCP server

This project models, in Dafny, the lease engine of a bare-metal DHCP server and the
data structures it is built on, and proves what they promise over every input, every
message sequence and every interleaving. `dafny verify dfyconfig.toml` checks it all.

| file | what it models |
|---|---|
| `Wrappers.dfy` | optional values, 32-bit unsigned arithmetic, sizes of finite maps |
| `Probing.dfy`, `HashTable.dfy` | the open-addressing hash table with backward-shift deletion |
| `LeaseMap.dfy`, `LeaseRuns.dfy` | what the MAC-keyed servers do, as transitions on a map from MAC to lease, and whole runs of them |
| `ArrayPool.dfy`, `HashPool.dfy`, `Servers.dfy` | the ARRAY and HASHMAP pools and servers, proved against those transitions |
| `Nprc.dfy` | the NPRC backend, a sliding window of acknowledgement bits |
| `Bitmap.dfy`, `Vartime.dfy`, `Unitime.dfy` | the bitmap operations and the BITMAP_VARTIME and BITMAP_UNITIME backends |
| `Options.dfy`, `Checksum.dfy` | the option codec on the server and on the client, the IP checksum |
| `ClientProtocol.dfy` | worker threads and receive manager of the benchmark client |
| `CQueue.dfy` | the circular queue, alone and between a producer and a consumer |
| `Heap.dfy` | the bucketed heap allocator |

How the parts hang together:

- **Hash table.** Insertion is allowed up to 100% load, so "all slots on the way to an
  element are occupied" says nothing about a full table, and deleting from a full table
  goes all the way round. The invariant adds a *cut*: a slot that no element's search
  path crosses. Insertion makes the filled slot the new cut; deletion keeps the cut, and
  its shift loop is a walk along the cycle opened at the cut with at most one hole. The
  table as a whole refines a finite map.
- **MAC-keyed servers.** Both pools refine one transition relation, `Step`, which is
  parameterised by how many expired leases a cleanup may free. ARRAY, which frees all of
  them, is the function `StepAll`. Bisimilarity, exclusive use of addresses and
  offers being honoured are theorems about runs of these transitions; the pool and
  server classes are proved to take exactly such steps.
- **MAC-less servers.** NPRC, VARTIME and UNITIME are classes proved against functions on
  plain states; runs are sequences of handled messages, and the theorems speak about
  every run. Where a promise does not hold of the code as it is, a lemma gives the exact
  condition under which it does, together with an input on which it fails.
- **Concurrency.** The queue is a state machine whose steps are single reads and writes
  of shared variables; the client is a state machine whose steps are those its locks make
  atomic. A run is any sequence of enabled steps.

Class invariants that are costly to carry around are sealed: they are stated for all `u`
with `Opened(owner, u)`, and a proof that needs one opens it by naming such a `u`.

Places where the code differs from what one might expect, and the model follows the code:

- DECLINE frees the declined address at once, unlike section 4.3.3 of RFC 2131.
- Insertion into a full hash table fails even for a key that is already stored.
- `dhcp_bmpool_uni_init` leaves `counter` as it was; the model lets it start anywhere.
- VARTIME subtracts times in unsigned arithmetic, so a REQUEST after the end of the epoch
  is given a lease of nearly 2^32 seconds (`Vartime.LeaseEndsWithEpochIff`).
- VARTIME overwrites the configured lease time with every acknowledgement, so an OFFER
  announces what the last client was granted (`Vartime.OfferAnnouncesLastAck`).
- UNITIME fixes the expiry time of a range when its last address is offered. A lease
  committed after that moment can be overlapped (`Unitime.NeverOverlappedIff`), and if the
  last address is committed before it is offered, the range never gets an expiry time and
  its leases last for ever (`Unitime.FreedIff`).
- In both bitmap backends the upper bound of a range that reaches the last 32-bit address
  wraps, and its addresses are refused (`Vartime.OffersHonouredIff`,
  `Unitime.OffersHonouredIff`).
- NPRC offers addresses twice in a pool that ends at the last 32-bit address
  (`Nprc.OffersSoundIff`), and acknowledges an address it never offered in such a pool and
  in one that starts at address 0 (`Nprc.AcksSoundIff`).
- The heap hands out a block without data bytes when header and data together are not
  addressable (`Heap.ExtentFitsIff`).
- Heap block headers keep 32 bits of the size, although arenas of more than 4 GiB are set
  up (circle/lib/memory64.cpp:139-147). A block of 4 GiB or more is filed under the wrong
  size when freed and loses contents when moved (`Heap.HeaderTruthfulIff`,
  `Heap.ContentsKeptIff`).
- The checksum loses carries once the plain sum exceeds 32 bits
  (`Checksum.ChecksumRightIff`).

## Model

| member | source | states |
|---|---|---|
| `Probing.ProbeMiss` | ds-lib/hash.c:43-54 | a search that stops at a free slot has proved the key absent, because every stored element's path is occupied |
| `Probing.ProbeStep` | ds-lib/hash.c:47-52 | a search that comes back to its start has seen a full table without the key |
| `Probing.FillKeeps` | ds-lib/hash.c:61-70 | filling the free slot a search ended on keeps paths occupied and keys distinct, adds exactly that element, and makes the filled slot a cut, also when it was the last free one |
| `Probing.ClearStarts` | ds-lib/hash.c:92-95 | clearing the deleted key's slot leaves exactly the other elements and one hole that only later elements' paths may cross |
| `Probing.MoveKeeps` | ds-lib/hash.c:97-108 | moving an element back into the hole keeps the cut and moves the hole to the element's old slot, with nothing before it broken |
| `Probing.MoveKeepsStores` | ds-lib/hash.c:104-107 | such a move loses and duplicates no element |
| `Probing.ProgressVisits` | ds-lib/hash.c:96-111 | one iteration of the shift loop, on either side of the cut |
| `Probing.ProgressEnds` | ds-lib/hash.c:96-112 | when the loop stops, at a free slot or back at its start, the table is well formed and stores the same map |
| `HashTables.HashTable.constructor` | ds-lib/hash.c:29-36 | a new table is valid and stores the empty map |
| `HashTables.HashTable.Clear` | ds-lib/hash.c:38-41 | a cleared table stores the empty map |
| `HashTables.HashTable.Probe` | ds-lib/hash.c:43-54 | the probing loop terminates and finds the key if and only if it is stored; otherwise it ends on a free slot, or the table is full |
| `HashTables.HashTable.Find` | ds-lib/hash.c:43-54 | succeeds if and only if the key is in the map, with the slot of the stored element |
| `HashTables.HashTable.Insert` | ds-lib/hash.c:56-71 | fails exactly on a full table and otherwise updates the map at the element's key alone |
| `HashTables.HashTable.Replace` | ds-lib/hash.c:73-79 | succeeds exactly for stored keys and updates the map at that key alone |
| `HashTables.HashTable.Delete` | ds-lib/hash.c:81-113 | succeeds exactly for stored keys, removes exactly that key, and keeps every other element findable, on full tables too |
| `HashTables.HashTable.ShiftBack` | ds-lib/hash.c:94-111 | the second loop of deletion terminates and turns one hole into a well-formed table with the same map |
| `HashTables.HashTable.FirstFree` | ds-lib/hash.c:99-103 | the inner loop ends on the first free slot on the way from home, or on the element itself if all slots before it are occupied |
| `HashTables.HashTable.Overwrite` | ds-lib/hash.c:15-20 | writing through the pointer a lookup returned updates the map at that key alone |
| `HashTables.HashTable.Size` | ds-lib/hash.c:115-118 | the element count is the size of the map |
| `LeaseMap.BoundedCleanIsFullClean` | dhcp-lib/dhcp_hashmap.c:134-161 | a cleanup that frees at most `limit` leases equals one that frees all expired ones if and only if at most `limit` are expired |
| `LeaseMap.StepInv` | dhcp-lib/dhcp_server.c:437-483 | every message keeps addresses unique and in the pool, the table within its size, and the rotation pointer in the pool, however many leases a cleanup frees |
| `LeaseMap.RotationIsBijective` | dhcp-lib/dhcp_array.c:33-37 | the rotation visits each pool address exactly once |
| `LeaseMap.SearchInPool` | dhcp-lib/dhcp_array.c:33-48 | the search never returns a taken address and keeps result and pointer in the pool |
| `LeaseMap.SearchFirst` | dhcp-lib/dhcp_array.c:33-48 | the search returns the first free address in rotation order and leaves the pointer after it; it finds none only if all are taken |
| `LeaseMap.NewClientIsOffered` | dhcp-lib/dhcp_hashmap.c:48-75 | while the table is not full and no larger than the pool, a new client is always offered a free pool address |
| `LeaseMap.StepFrame` | dhcp-lib/dhcp_hashmap.c:91-93 | expiry is lazy: a message removes other clients' leases only from a full table and only expired ones, and neither changes nor adds any |
| `LeaseMap.KnownClientIsOffered` | dhcp-lib/dhcp_array.c:20-28 | a DISCOVER from a client with a lease that has not run out is answered by the address it has; leases and rotation change only by the cleanup of a full table |
| `LeaseMap.NewClientStep` | dhcp-lib/dhcp_hashmap.c:60-74 | a DISCOVER from a client without a lease is answered by the first address in rotation order that nobody has, and is not answered when the table is full after its cleanup |
| `LeaseMap.ExpiredIsReclaimed` | dhcp-lib/dhcp_hashmap.c:51-53 | a full table with an expired lease serves a new client |
| `LeaseMap.RequestVerdict` | dhcp-lib/dhcp_server.c:456-471 | a REQUEST for a pool address is acknowledged exactly for a client that has it, or has nothing while nobody has it and there is room; the lease then ends one lease time later, and nothing else changes but by the cleanup; a REQUEST for another address is refused and changes nothing |
| `LeaseMap.DeclineFrees` | dhcp-lib/dhcp_array.c:121-127 | a DECLINE is not answered, removes the client's lease alone, and makes its address available to any other client |
| `LeaseMap.OthersDoNothing` | dhcp-lib/dhcp_server.c:456-482 | other messages, a REQUEST without an address and a DECLINE without a lease do nothing |
| `LeaseMap.SecondCleanupIsIdle` | dhcp-lib/dhcp_hashmap.c:91-93 | a cleanup right after another at the same time changes nothing, bounded or not |
| `LeaseMap.OfferIsHonoured` | dhcp-lib/dhcp_server.c:442-473 | a REQUEST for the address just offered, by the same client at the same time, is acknowledged, whether or not either message cleaned up |
| `LeaseRuns.RunInv` | dhcp-lib/dhcp_server.c:437-483 | the invariant holds after every message of every run |
| `LeaseRuns.StepIsStepAll` | dhcp-lib/dhcp_hashmap.c:134-161 | with no more expired leases than the bound, the bounded server can only do what the unbounded one does |
| `LeaseRuns.FullRunIsRun` | dhcp-lib/dhcp_server.c:224-270 | every run of the ARRAY server is a run of the general transition system, so its theorems apply |
| `LeaseRuns.Bisimilar` | dhcp-lib/dhcp_server.c:437-483 | HASHMAP and ARRAY servers with the same configuration and size, fed the same messages at the same times, give the same replies and hold the same leases and pointer for as long as no cleanup meets more than 32 expired leases |
| `LeaseRuns.LeaseIsExclusive` | dhcp-lib/dhcp_array.c:64-127 | over whole runs, an address acknowledged to one client is acknowledged or offered to nobody else before the lease is over, unless that client declines it |
| `LeaseRuns.KnownClientIsOfferedAgain` | dhcp-lib/dhcp_array.c:25-28 | over whole runs, a client that was acknowledged an address and asks again before its lease is over, without declining, is offered that address again |
| `LeaseRuns.RenewalIsGranted` | dhcp-lib/dhcp_array.c:87-95 | and if it requests the address it is acknowledged for one more lease time |
| `ArrayPools.EarlyExitIsSound` | dhcp-lib/dhcp_array.c:74-85 | matches found before the scan's early exit decide the allocation as those of a complete scan, because addresses are unique |
| `ArrayPools.FullScanAllocates` | dhcp-lib/dhcp_array.c:70-109 | a complete scan on the slots is an allocation on the lease map, with one slot per client and the count kept |
| `ArrayPools.RepresentsCount` | dhcp-lib/dhcp_array.c:107-119 | the number of leases is the number of slots in use |
| `ArrayPools.ArrayPool.constructor` | dhcp-lib/dhcp_array.c:4-14 | a new pool holds no lease and starts at the first pool address, whatever its slots held |
| `ArrayPools.ArrayPool.FindAvailableIp` | dhcp-lib/dhcp_array.c:17-49 | the offered address and new state are those of the lease map after its cleanup |
| `ArrayPools.ArrayPool.Rotate` | dhcp-lib/dhcp_array.c:33-48 | the loop over candidate addresses is the rotating search over the leased addresses |
| `ArrayPools.ArrayPool.AllocLease` | dhcp-lib/dhcp_array.c:64-109 | verdict and new leases are those of an allocation on the lease map after its cleanup |
| `ArrayPools.ArrayPool.ScanAndAllocate` | dhcp-lib/dhcp_array.c:70-109 | despite its early exit the allocation changes and answers exactly what a scan of the whole table would |
| `ArrayPools.ArrayPool.Cleanup` | dhcp-lib/dhcp_array.c:111-119 | removes exactly the expired leases |
| `ArrayPools.ArrayPool.DeclineLease` | dhcp-lib/dhcp_array.c:121-127 | removes exactly the client's lease, if it has one |
| `HashPools.DropKeepsInStep` | dhcp-lib/dhcp_hashmap.c:150-160 | dropping a client and its address keeps the address table equal to the leased addresses |
| `HashPools.AddKeepsInStep` | dhcp-lib/dhcp_hashmap.c:116-130 | so does adding a client with a free address |
| `HashPools.HashPool.constructor` | dhcp-lib/dhcp_hashmap.c:40-45 | a new pool holds no lease; its size is the smaller of the requested and the table size |
| `HashPools.HashPool.FindLease` | dhcp-lib/dhcp_hashmap.c:78-86 | finds the client's lease if and only if it has one |
| `HashPools.HashPool.CollectExpired` | dhcp-lib/dhcp_hashmap.c:135-148 | lists min(32, number of expired) distinct expired leases |
| `HashPools.HashPool.Cleanup` | dhcp-lib/dhcp_hashmap.c:134-161 | removes exactly min(32, number of expired) leases, all expired, from both tables, although deletions move buckets |
| `HashPools.HashPool.FindAvailableIp` | dhcp-lib/dhcp_hashmap.c:48-75 | the offered address and new state are those of the lease map after such a cleanup |
| `HashPools.HashPool.AllocLease` | dhcp-lib/dhcp_hashmap.c:89-131 | answer and new state are those of the lease map after such a cleanup |
| `HashPools.HashPool.InsertBoth` | dhcp-lib/dhcp_hashmap.c:123-130 | inserts in both tables, or in neither with the first insertion undone; which of the two depends on room alone |
| `HashPools.HashPool.AddNew` | dhcp-lib/dhcp_hashmap.c:113-130 | in a pool that is not full both insertions succeed, so the rollback is never taken |
| `HashPools.HashPool.DeclineLease` | dhcp-lib/dhcp_hashmap.c:163-176 | removes exactly the client's lease and its address |
| `Servers.ArrayServer.Process` | dhcp-lib/dhcp_server.c:224-270 | reply and new state of every message are those of the server that frees every expired lease |
| `Servers.HashServer.Process` | dhcp-lib/dhcp_server.c:437-483 | reply and new state of every message are a step of the server that frees at most 32 expired leases |
| `Nprc.NprcPool.constructor` | dhcp-lib/dhcp_server.c:382-388 | a new window is empty |
| `Nprc.NprcPool.FindAvailableIp` | dhcp-lib/dhcp_nprc.c:3-18 | flush and offer are those of the window function |
| `Nprc.NprcPool.CommitIp` | dhcp-lib/dhcp_nprc.c:20-45 | verdict, mark and slide are those of the window function; the sliding loop terminates |
| `Nprc.Process` | dhcp-lib/dhcp_server.c:390-424 | every message is a step of the window |
| `Nprc.CommitVerdict` | dhcp-lib/dhcp_nprc.c:22-33 | a request is acknowledged if and only if the address was offered, is not acknowledged yet and is not below the window |
| `Nprc.RunInv` | dhcp-lib/dhcp_nprc.c:3-45 | in every run the window is the one told by the messages and answers alone: its bits say which remembered offers were acknowledged, it starts at the lowest remembered one, and below it lie only acknowledged and dropped offers |
| `Nprc.OffersAreConsecutive` | dhcp-lib/dhcp_nprc.c:3-18 | whatever is interleaved, the k-th successful offer is the k-th pool address, and an offer fails only when all were made |
| `Nprc.OffersStopForGood` | dhcp-lib/dhcp_nprc.c:12-14 | once an offer failed all later ones fail |
| `Nprc.AcksFollowOffers` | dhcp-lib/dhcp_nprc.c:20-45 | every acknowledged address was offered earlier and is acknowledged at most once |
| `Nprc.ClaimWindow` | dhcp-lib/dhcp_nprc.c:5-9 | an offer that was not acknowledged still can be while fewer than 3/4 of a window of later offers were made |
| `Nprc.ClaimWindowIsExact` | dhcp-lib/dhcp_nprc.c:5-14 | for every window width the bound is exact: a refused DISCOVER drops an offer with exactly 3/4 of a window of offers after it |
| `Nprc.DroppedIsLost` | dhcp-lib/dhcp_nprc.c:5-9 | an offer dropped by a flush is never acknowledged later |
| `Nprc.AckMovesWindow` | dhcp-lib/dhcp_nprc.c:34-40 | over whole runs, an acknowledged REQUEST moves the window past every acknowledged offer at its low end |
| `Nprc.DroppedExactlyWhen` | dhcp-lib/dhcp_nprc.c:5-9 | an offer can no longer be acknowledged, without having been, exactly when a DISCOVER finds a whole window of offers since the lowest remembered one and this one unacknowledged in the oldest quarter |
| `Nprc.OffersAreConserved` | dhcp-lib/dhcp_nprc.c:3-45 | acknowledged, pending and dropped offers are disjoint and sum to the offers made; an unacknowledged offer is below the window if and only if it was dropped |
| `Nprc.OfferIsHonoured` | dhcp-lib/dhcp_nprc.c:3-45 | a REQUEST right after the offer is acknowledged |
| `Nprc.StepCounts` | dhcp-lib/dhcp_nprc.c:3-45 | in a pool that ends before the last 32-bit address, whatever its start, the window counts the offers: requests keep the count, and a DISCOVER offers the address at the count |
| `Nprc.OffersSoundIff` | dhcp-lib/dhcp_nprc.c:11-17 | for every pool: over all runs offers stay in the pool and are never repeated if and only if the pool ends before the last 32-bit address |
| `Nprc.AcksSoundIff` | dhcp-lib/dhcp_nprc.c:22-33 | for every pool: over all runs only offered addresses are acknowledged if and only if the pool neither starts at address 0 nor ends at the last 32-bit address |
| `Nprc.ZeroIsAcked` | dhcp-lib/dhcp_nprc.c:22-29 | the runs on which that fails: an empty window whose upper bound wraps, at the start of the one kind of pool and at the end of the other |
| `Nprc.EndlessOffers` | dhcp-lib/dhcp_nprc.c:3-18 | the runs on which offers are repeated: they wrap round |
| `Bitmap.WordUpdate` | dhcp-lib/dhcp_bitmap_ops.c:4-10 | or-ing a mask, or and-ing its complement, changes one bit of a word |
| `Bitmap.SetSlot` | dhcp-lib/dhcp_bitmap_ops.c:4-6 | adds exactly one slot number to the set the words stand for |
| `Bitmap.ClearSlot` | dhcp-lib/dhcp_bitmap_ops.c:8-10 | removes exactly one slot number |
| `Bitmap.SlotUsed` | dhcp-lib/dhcp_bitmap_ops.c:12-15 | tells membership; slots beyond the range count as used |
| `Bitmap.ScanSlots` | dhcp-lib/dhcp_bitmap_vartime.c:34-47 | the scan yields the address, in 32-bit arithmetic, of the first free slot from the counter on, or 0 if there is none, and leaves the counter after it |
| `Bitmap.Range.Recycle` | dhcp-lib/dhcp_bitmap_vartime.c:4-8 | a recycled range has no used slot and no expiry time |
| `Vartime.VartimePool.constructor` | dhcp-lib/dhcp_bitmap_vartime.c:10-17 | a new pool is empty |
| `Vartime.VartimePool.PeekIp` | dhcp-lib/dhcp_bitmap_vartime.c:19-48 | renewal of the epoch, its start and the offer are those of the state function |
| `Vartime.VartimePool.CommitIp` | dhcp-lib/dhcp_bitmap_vartime.c:50-56 | acknowledges exactly free slots of the range |
| `Vartime.VartimeServer.constructor` | dhcp-lib/dhcp_server.c:277-282 | a new server has an empty pool and announces the configured lease time |
| `Vartime.VartimeServer.Process` | dhcp-lib/dhcp_server.c:284-325 | every message is a step; an acknowledgement announces the rest of the epoch and overwrites the lease time that offers announce |
| `Vartime.LeaseEndsWithEpochIff` | dhcp-lib/dhcp_server.c:310-312 | a lease ends exactly with its epoch if and only if it is granted no later than that; otherwise it ends 2^32 seconds later |
| `Vartime.RunAgrees` | dhcp-lib/dhcp_bitmap_vartime.c:4-56 | in every run used slots and end of the epoch are those told by the messages and answers alone, and slots passed by were offered or acknowledged in the epoch |
| `Vartime.EpochWasOpened` | dhcp-lib/dhcp_bitmap_vartime.c:20-32 | every end of an epoch was set one lease time before by a DISCOVER that found no epoch or one that was over, and has not changed since |
| `Vartime.EpochEndsOnTime` | dhcp-lib/dhcp_bitmap_vartime.c:20-23 | an epoch ends with the first DISCOVER at or after its end, which is offered the first address again; until then no slot is freed and the end stays |
| `Vartime.OfferIsLowestFresh` | dhcp-lib/dhcp_bitmap_vartime.c:34-47 | over whole runs, a DISCOVER is answered by the lowest slot neither offered nor acknowledged in the epoch, and not answered only when there is none |
| `Vartime.RequestVerdict` | dhcp-lib/dhcp_bitmap_vartime.c:50-56 | over whole runs, a REQUEST is acknowledged exactly for a configured address of the range that was not acknowledged in the epoch, with the rest of the epoch as lease time |
| `Vartime.LeasesDisjointIff` | dhcp-lib/dhcp_bitmap_vartime.c:4-56 | over whole runs and any number of epochs, two leases of one address do not overlap if and only if the earlier was granted no later than the end of its epoch |
| `Vartime.LateRequestOverlaps` | dhcp-lib/dhcp_server.c:310-312 | a run with a late request and overlapping leases |
| `Vartime.OfferAnnouncesLastAck` | dhcp-lib/dhcp_server.c:310-312 | over whole runs an OFFER announces the lease time of the last acknowledgement, or the configured one before the first |
| `Vartime.OfferIsHonoured` | dhcp-lib/dhcp_bitmap_vartime.c:19-56 | from any state, a REQUEST right after the offer is acknowledged and not refused, if the range ends before the last 32-bit address and within the configured pool |
| `Vartime.OffersHonouredIff` | dhcp-lib/dhcp_bitmap_vartime.c:50-56 | for every range: over all runs every offer would be honoured if and only if that condition holds |
| `Unitime.UnitimePool.constructor` | dhcp-lib/dhcp_bitmap_unitime.c:21-32 | all ranges are recycled and the first is current; the counter is left as it was |
| `Unitime.UnitimePool.PeekIp` | dhcp-lib/dhcp_bitmap_unitime.c:34-74 | rotation, recycling, offer and start of the expiry time are those of the state function |
| `Unitime.UnitimePool.CommitIp` | dhcp-lib/dhcp_bitmap_unitime.c:76-82 | acknowledges exactly free slots of the current range |
| `Unitime.Process` | dhcp-lib/dhcp_server.c:339-378 | every message is a step |
| `Unitime.BaseIsProduct` | dhcp-lib/dhcp_bitmap_unitime.c:4-6 | the first address of a range is start plus number times size, in 32-bit arithmetic |
| `Unitime.SlotIsUnique` | dhcp-lib/dhcp_bitmap_unitime.c:8-13 | an address is accepted in one range at most, even if the ranges wrap round the end of the address space |
| `Unitime.StepOnRange` | dhcp-lib/dhcp_bitmap_unitime.c:34-82 | a message does one of four things to a range: nothing, commit, start its expiry time, recycle it when that time has come |
| `Unitime.StuckDoesNothing` | dhcp-lib/dhcp_bitmap_unitime.c:44-50 | a DISCOVER that finds the current range used up and the next not expired is not answered and changes nothing |
| `Unitime.DiscoverAnswer` | dhcp-lib/dhcp_bitmap_unitime.c:34-74 | any other looks at the lowest unused slot not looked at in this turn, of the current range or, if that is used up, of the next, recycled if it has expired; it offers the address if that can be requested, and sets the expiry time exactly with the last address |
| `Unitime.RequestVerdict` | dhcp-lib/dhcp_bitmap_unitime.c:76-82 | a REQUEST is acknowledged exactly for a configured address of the current range whose slot is not in use, and takes that slot alone |
| `Unitime.OfferedOncePerTurn` | dhcp-lib/dhcp_bitmap_unitime.c:53-64 | over whole runs, an address is offered again only after a DISCOVER found a range used up |
| `Unitime.ExpiryIsFillTime` | dhcp-lib/dhcp_bitmap_unitime.c:66-71 | every expiry time was set by the offer of the range's last address, one lease time before |
| `Unitime.RecycledAfterFill` | dhcp-lib/dhcp_bitmap_unitime.c:36-46 | a slot is freed only by recycling, one lease time or more after the offer that filled the range |
| `Unitime.ReuseIsLate` | dhcp-lib/dhcp_bitmap_unitime.c:15-82 | over whole runs, an address is acknowledged again only after its range's expiry time, or one lease time later if that was still unset |
| `Unitime.LeasesDoNotOverlap` | dhcp-lib/dhcp_bitmap_unitime.c:15-82 | leases committed no later than the offer that filled their range never overlap a later lease of the same address |
| `Unitime.NeverOverlappedIff` | dhcp-lib/dhcp_bitmap_unitime.c:15-82 | in all continuations of a run a lease is not overlapped if and only if its range had no expiry time when it was committed, or one not before the lease's end, or one that leaves the clock no time for another lease |
| `Unitime.LateIsOverlapped` | dhcp-lib/dhcp_bitmap_unitime.c:34-51 | every lease committed later than that is overlapped in some continuation, for any number and size of ranges |
| `Unitime.LateCommitOverlaps` | dhcp-lib/dhcp_bitmap_unitime.c:66-82 | a five-message run with overlapping leases |
| `Unitime.LostForEver` | dhcp-lib/dhcp_bitmap_unitime.c:64-71 | once the last address of a range without expiry time is committed, the range never gets one and none of its slots is freed |
| `Unitime.EarlyCommitIsLost` | dhcp-lib/dhcp_bitmap_unitime.c:76-82 | one REQUEST is enough for that, for any size of range |
| `Unitime.FreedIff` | dhcp-lib/dhcp_bitmap_unitime.c:34-82 | for every reachable state, a committed slot is freed in some continuation if and only if its range has an expiry time or its last address is not committed |
| `Unitime.OfferIsHonoured` | dhcp-lib/dhcp_bitmap_unitime.c:34-82 | from any state, a REQUEST right after the offer is acknowledged and not refused, if all addresses that can be offered are configured |
| `Unitime.OffersHonouredIff` | dhcp-lib/dhcp_server.c:363-372 | for any number and size of ranges: over all runs every offer would be honoured if and only if that condition holds |
| `Options.CarriesUnique` | dhcp-lib/dhcp_server.c:67-86 | the bytes of an option area determine the option list |
| `Options.AddOption` | dhcp-lib/dhcp_server.c:33-64 | appends the option exactly if it fits with its END into 308 bytes; otherwise the list is unchanged |
| `Options.GetOption` | dhcp-lib/dhcp_server.c:67-86 | returns the data of the first option with the code, or nothing |
| `Options.AddedAllFits` | dhcp-lib/dhcp_server.c:52-63 | whatever is added, list and END stay within the area; a list that fits is kept whole |
| `Options.AddAll` | dhcp-lib/dhcp_server.c:33-64 | after any sequence of additions to a new area its bytes are those of the list of additions that fit |
| `Options.FirstValueWins` | dhcp-lib/dhcp_server.c:67-86 | later additions never change the value found for a code |
| `Options.ReadBack` | dhcp-lib/dhcp_server.c:67-86 | so reading the area yields the first value added for the code, whatever was added after it |
| `Options.BytesRoundTrip` | dhcp-lib/dhcp_server.c:4-14 | address to bytes and back |
| `Options.BuildReply` | dhcp-lib/dhcp_server.c:107-135 | a zeroed area is filled with exactly the six options of an OFFER or ACK, in order; whatever list it carries, options 53, 54, 1, 3, 6 and 51 are type, server, mask, gateway, name server and lease time |
| `Options.BuildNak` | dhcp-lib/dhcp_server.c:206-211 | a NAK carries its type alone |
| `Options.DecodeRequest` | dhcp-lib/dhcp_server.c:226-248 | message type and requested address of any option list, malformed values included |
| `Options.DecodedMeans` | dhcp-lib/dhcp_server.c:229-269 | option 53 with value 1, 3 or 4 makes a message a DISCOVER, REQUEST or DECLINE, anything else makes it none; option 50 of four bytes is the requested address |
| `Options.WalkOptions` | bench-live/frame.c:135-195 | on any received bytes the client's walk stays inside them, terminates, and takes in exactly the options that can be read up to END, the end or a cut-off option |
| `Options.CarriedIsReadable` | bench-live/frame.c:137-145 | of a well-formed list those are all |
| `Options.ClientTakesLast` | bench-live/frame.c:146-194 | of options given more than once the client believes the last of the right length |
| `Options.ClientReadsReply` | bench-live/frame.c:146-190 | the client reads an OFFER or ACK as type, server id, mask and lease time that the server meant |
| `Options.ClientReadsNak` | bench-live/frame.c:146-157 | and a NAK as a NAK |
| `Options.BuildClientOptions` | bench-live/frame.c:62-78 | the client's frame carries type and, for a REQUEST, requested address and server id |
| `Options.ServerReadsClient` | dhcp-lib/dhcp_server.c:226-248 | the server reads the client's frames as DISCOVER or as REQUEST of the meant address; the REQUEST names the meant server |
| `Checksum.IpChecksum` | bench-live/frame.c:8-15 | for any length an `int` can hold, odd ones included, the loops terminate with the complement of the sum kept in 32 bits; that is the one's complement checksum if and only if the plain sum fits |
| `Checksum.WordAt` | bench-live/frame.c:9-12 | the words summed are the byte pairs, low byte first, and an odd last byte by itself |
| `Checksum.ChecksumRightIff` | bench-live/frame.c:10-13 | a carry out of the 32-bit accumulator always spoils the checksum; up to 65537 words there is none |
| `Checksum.FoldMeaning` | bench-live/frame.c:13-14 | folding keeps the residue modulo 65535, and only 0 folds to 0 |
| `Checksum.StoredChecksumVerifies` | bench-live/frame.c:44-45 | a header with its checksum stored sums to 0xFFFF |
| `Checksum.AcceptanceIff` | bench-live/frame.c:112-115 | the receiver's check accepts exactly headers that sum to 0xFFFF, save those that carry 0xFFFF where 0 belongs |
| `ClientProtocol.DoKeepsInv` | bench-live/workers-async.c:26-194 | every step of every thread keeps routing exact, clients in one hand, phases in step with workers, and the frame budget |
| `ClientProtocol.RunInv` | bench-live/workers-async.c:26-194 | so it holds throughout every schedule |
| `ClientProtocol.FramesAreBounded` | bench-live/workers-async.c:65-136 | at most 2 * MAX_RETRIES frames are sent for one client |
| `ClientProtocol.FrameBoundIsExact` | bench-live/workers-async.c:85-105 | for any number of retries there is a run that sends that many |
| `ClientProtocol.TimeoutMeans` | bench-live/workers-async.c:85-105 | a timeout before the last retry sends the frame again and waits on; the last one gives up |
| `ClientProtocol.HandleMeans` | bench-live/workers-async.c:114-151 | what each kind of frame does in each phase, to the client, the worker and nothing else |
| `ClientProtocol.WorkerSteps` | bench-live/workers-async.c:26-71 | what taking, registering, first sending, emptying the mailbox and finishing do, and that they do nothing else |
| `ClientProtocol.ManagerSteps` | bench-live/workers-async.c:174-192 | the receive manager puts each frame into the mailbox of the client with its xid, over whatever was there, or drops it |
| `ClientProtocol.OnlyBusyClientsListed` | bench-live/xid-tab.c:44-93 | throughout every run only clients a worker is busy with are in the xid table |
| `ClientProtocol.FailedMeans` | bench-live/workers-async.c:87-94 | a client fails only by a NAK with its xid or its last retry timing out |
| `ClientProtocol.DoneMeansOfferThenAck` | bench-live/workers-async.c:114-152 | a client is done only after its worker accepted an OFFER and later an ACK with its own xid, both received before; its address is that of the ACK |
| `ClientProtocol.DoneIsReachable` | bench-live/workers-async.c:26-163 | for every client and address there is a run in which it becomes done with that address |
| `ClientProtocol.FramesWereReceived` | bench-live/workers-async.c:174-192 | every frame in a mailbox or being handled was received earlier |
| `ClientProtocol.EachClientRunOnce` | bench-live/workers-async.c:28-31 | clients are taken in queue order, none twice, and no two workers have one at a time |
| `ClientProtocol.RoutingIsExact` | bench-live/xid-tab.c:44-93 | a frame that reaches a worker carries its client's xid |
| `CQueue.NumElemIsLength` | ds-lib/cqueue.c:6-7 | the wrapping index expression equals the number of queued bytes |
| `CQueue.Queue.constructor` | ds-lib/cqueue.c:85-102 | a new queue is empty |
| `CQueue.Queue.IsFull` | ds-lib/cqueue.c:4 | full means capacity minus one bytes |
| `CQueue.Queue.Count` | ds-lib/cqueue.c:6 | the number of queued bytes |
| `CQueue.Queue.Push` | ds-lib/cqueue.c:19-28 | appends a byte exactly if the queue is not full |
| `CQueue.Queue.Pop` | ds-lib/cqueue.c:9-17 | removes and returns the oldest byte exactly if there is one |
| `CQueue.Queue.PushAll` | ds-lib/cqueue.c:60-70 | appends all bytes or none |
| `CQueue.Queue.PopMany` | ds-lib/cqueue.c:37-47 | removes and returns the oldest n bytes, or nothing |
| `CQueue.Queue.PeekMany` | ds-lib/cqueue.c:49-58 | returns the oldest n bytes and leaves the queue as it was |
| `CQueue.DoKeepsInv` | ds-lib/cqueue.c:9-28 | every single read or write of either thread keeps the queue invariant |
| `CQueue.FifoUnderInterleaving` | ds-lib/cqueue.c:3-28 | under every interleaving what was popped is a prefix of what was pushed, at most n - 1 bytes are in flight, and the indices give their number |
| `CQueue.NoReadWriteConflict` | ds-lib/cqueue.c:12-26 | no slot is read while it is being written |
| `CQueue.RefusalsAreJust` | ds-lib/cqueue.c:3-20 | a push is refused exactly when n - 1 bytes are in flight as it reads tail, a pop only when none was in flight as it read head |
| `Heap.ExtentFitsIff` | circle/lib/heapallocator.cpp:110-115 | a computed block extent is refused or has room for header and data if and only if the two are addressable together |
| `Heap.ExtentIsTight` | circle/lib/heapallocator.cpp:110-111 | no block takes more of the arena than header, data and rounding need |
| `Heap.HeaderTruthfulIff` | circle/lib/heapallocator.cpp:142 | a block header tells the block's size if and only if that is below 4 GiB |
| `Heap.OnOneList` | circle/lib/heapallocator.cpp:221-238 | a block is on at most one free list, at one place |
| `Heap.CopyKeeps` | circle/lib/heapallocator.cpp:193 | copying into one block leaves the bytes of every other block alone |
| `Heap.HeapAllocator.BlocksAreDisjoint` | circle/lib/heapallocator.cpp:72-246 | in every valid heap, of any size, live and freed blocks are aligned, inside the arena and disjoint with all their bytes; a listed block is a freed one, on one list once, of at least the list's size, and of exactly that size if and only if it is below 4 GiB |
| `Heap.HeapAllocator.constructor` | circle/lib/heapallocator.cpp:51-56 | a new heap has no block |
| `Heap.HeapAllocator.Allocate` | circle/lib/heapallocator.cpp:72-154 | returns a block that was not live, aligned and large enough: the first freed block of the request's bucket if there is one, else a new one of the bucket's size, or of the request's beyond all buckets; 0 exactly when that does not fit; all else unchanged |
| `Heap.FreeThenAllocate` | circle/lib/heapallocator.cpp:99-105 | giving a block back and asking for one of its bucket returns the same block and leaves the whole heap as it was |
| `Heap.FreedBlockIsReused` | circle/lib/heapallocator.cpp:81-105 | allocating, freeing and allocating for requests of one bucket returns the same address and takes one block off the arena at most |
| `Heap.HeapAllocator.Cut` | circle/lib/heapallocator.cpp:108-143 | cuts a block exactly if it fits above the reserve, which is given up otherwise |
| `Heap.HeapAllocator.Reuse` | circle/lib/heapallocator.cpp:99-105 | takes the first block of the list |
| `Heap.HeapAllocator.Free` | circle/lib/heapallocator.cpp:209-246 | puts the block at the front of the list of the size its header tells, if there is one, and changes nothing else |
| `Heap.HeapAllocator.ReAllocate` | circle/lib/heapallocator.cpp:165-198 | all four cases; a moved block takes along as many bytes as its header tells, its old place is freed, and the bytes of all other live blocks stay |
| `Heap.ContentsKeptIff` | circle/lib/heapallocator.cpp:182-195 | whatever memory holds, a moved block takes along all the bytes it has and that are asked for if and only if it is below 4 GiB |
| `Heap.HugeBlockIsMisfiled` | circle/lib/heapallocator.cpp:221-238 | in a 7 GiB arena with the shipped buckets, a freed block of 4 GiB and 64 bytes is on the list of 64-byte blocks |
| `Heap.HugeBlockLosesContents` | circle/lib/heapallocator.cpp:182-195 | and one that is asked to hold 128 bytes is moved with its first 64 alone |

## Left out

- Sockets, packet capture, clocks, printing and statistics: time and arriving frames are inputs.
- The quality of the FNV-1a hash: the hash is any function of the key (the first 6 or 4 bytes), so elements with equal keys have equal hashes by construction.
- Byte-wise copying of hash elements, and the difference between a stored element and its key bytes: elements are values with a key function.
- HashPools.HashPool.CollectExpired: does not model the 16-bit scan index, because it matters only for tables of more than 65535 slots.
- Options.AddOption: does not model codes PAD and END or a null data pointer, because the server passes neither; areas that are neither new nor END-terminated lists are not modelled for the server's reader and writer.
- Vartime.VartimeServer.Process, Unitime.Process and Nprc.Process: do not model REQUEST messages without an address and messages of other types, because they change nothing.
- Unitime.UnitimePool.constructor: does not model pools whose ranges together have more than 2^32 addresses, because the same address would then belong to two ranges.
- Unitime.FreedIff: does not model the last three lease times of the 32-bit clock, because the run that frees a slot needs that much time; `Unitime.LostForEver` holds throughout.
- Words of a bitmap are modelled as numbers below 2^32 with bitwise operations defined bit by bit; the NPRC word as a sequence of bits.
- Heap.HeapAllocator.ReAllocate: does not model sizes whose header and data are not addressable together, because the source then copies into a block without data bytes. Allocation before `Setup`, double frees (which the source excludes by assertion), the spin lock, debugging counters and KASAN hooks are left out too.
- The fixed fields of DHCP messages and the Ethernet, IP and UDP headers: copying and constants.
- The client queue's mutex and the xid table's hash table: pop, insert, lookup and remove are atomic steps on a queue and a map; that the table may be full is a choice of the step.
- `bench-live/lib`: the same hash table and queue with other sizes. `cq_peek`, `cq_push32` and `cq_pop32`: special cases of what is modelled.
- All other files under `circle/`, and what the code does not attempt of RFC 2131 (server selection, RELEASE, INFORM, renewal timers).
