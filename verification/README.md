# A model of the one-time blob store

The repository is a small server that keeps encrypted blobs in memory and hands each one out at most
once, together with the web page that builds and reads share links. This project models its hard parts
in Dafny and proves what they are for.

| files | what they model |
|---|---|
| `Words`, `Types` | masks and wrapping words, ids, block descriptors |
| `Probing`, `LinearProbing` | linear probing with backward-shift deletion over three parallel arrays, for every hash function and every power-of-two size |
| `Buckets`, `FreeLists`, `Balloc` | the 11-bucket allocator, byte by byte, its free lists threaded through the memory that later holds payload |
| `Ownership`, `Gather`, `Storage` | the blob store on top of both: a plain map from id to block and expiry, with the scalar and the 8-lane reaper |
| `Protocol`, `Runs` | the request protocol as a state machine and what holds in all its runs |
| `Coupling`, `Server` | the request handlers over the real store, proved to take exactly the protocol's steps |
| `Debouncer` | the rate limiter: a probing table with wrapping 32-bit deadlines and clock-sweep eviction |
| `Admission`, `Answers` | the rate limiter inside the server's runs, and what every call is answered in every run |
| `Translation` | the two-pass asset translation |
| `ShareLink` | base64url, the share link and its parser |
| `GaloisField`, `ReedSolomon`, `Syndromes`, `Generators`, `Interleaving`, `Blocks` | the QR encoder: field tables, polynomial remainders, syndromes and distance of blocks, generator polynomials, interleaving, `createBytes` |

How the layers meet. `LinearProbing.ProbingTable` and `Balloc.BucketAllocator` each keep a ghost abstract
value. `Storage.Store` ties the two by ownership: every block handed out belongs to one table entry or to
one caller. `Server.Server` carries the protocol state as a ghost field and every handler is proved to make
the protocol's step on it, so whatever `Runs`, `Admission` and `Answers` prove of all runs holds of the concrete server, down to the
bytes in memory (`SentBytesAreIntact`, `StoredBytesAreIntact`).

The deletion proof rests on a boundary: some pair of neighbouring slots is crossed by no key's way from its
home to its slot. The plain rule "no gap between home and slot" is not enough on a full table. Cut open at
such a boundary the cyclic table is a line, and the scan's comparison becomes an ordinary one.

The rate limiter's table is part of the protocol state (`Protocol.State.rate`); `Debouncer` proves its laws for
every way of folding a key, the server uses the source's.

Assumptions about the environment, all in `Protocol.Enabled`: a request's first call comes once, data calls
carry at least one byte, the last call of a POST carries none, after an answer only the completion call
follows; the clock plus the time to live stays below the two reserved expiry words. The server is single
threaded with external polling (`server.c:1422`), so each call is one atomic step. The hash functions
are arbitrary, and so is the allocator's base address.

Where the code does less than one might expect, the exact condition is stated:

- the reaper's `unreachable()` is reached exactly at clock value UINT32_MAX with an upload in flight
  (`Storage.Store.Rip`, `Storage.Store.Reap`); the protocol's clock assumption keeps the server away from it;
- the debouncer refuses a resident client that was silent for a time that is, modulo 2^32 ms, more than
  2^31 + 150 ms (`Debouncer.AdmittedIff`, `Debouncer.LongSilenceIsRefused`);
- the translation passes disagree exactly when a key ends at or past the end of a file
  (`Translation.PassesAgreeIff`, `Translation.CopiesFitIff`, `Translation.KeyAtEndOverruns`);
- a key directly behind another one is not translated (`Translation.AdjacentKeyIsMissed`,
  `Translation.SomeKeysAreMissed`). With values as `tools/translations.py` emits them for this repository,
  not empty and not starting with the marker, the files whose keys are all replaced are exactly those whose
  keys are separated (`Translation.ReplacedIff`);
- the QR encoder throws exactly for blocks of more than 255 error-correction bytes, and for 255 of them
  unless the data is all zeros (`Generators.EncodeBlock`, `Blocks.CreateBytes`).

## Model

| member | source | states |
|---|---|---|
| `Words.MaskIsMod` | linear_probing.h:66-70 | `x & (n - 1)` on 64-bit words is the residue mod n for every power of two n, also when the word wrapped below zero |
| `Probing.MaskedDifference` | linear_probing.h:140-140 | the masked difference of two indices is their forward cyclic distance |
| `Probing.MaskedSum` | linear_probing.h:111-111 | the masked sum walks round the end of the table |
| `Probing.AbsentIfGapBeforeKey` | linear_probing.h:110-114 | a gap met before the key proves the key is nowhere in the table, for every hash |
| `Probing.InsertKeepsProbing` | linear_probing.h:72-100 | filling the first gap after the home keeps every key reachable, keys distinct and a boundary uncrossed; the slot just filled is such a boundary, even if it was the last gap |
| `Probing.DistinctIffNew` | storage.c:317-319 | storing an id keeps ids distinct exactly when it was not stored before |
| `Probing.ShiftTest` | linear_probing.h:140-140 | the source's comparison holds exactly when the hole lies on the scanned key's way from its home |
| `Probing.ShiftKeepsProbing` | linear_probing.h:140-143 | moving that key back keeps all keys reachable and the boundary uncrossed |
| `Probing.HoleIsFree` | linear_probing.h:146-146 | after the scan the hole can be emptied without cutting off any other key |
| `Probing.ScanStarts` | linear_probing.h:126-128 | the scan invariant holds at the start, also on a full table |
| `Probing.ScanPasses` | linear_probing.h:130-144 | stepping over a key that does not need the hole keeps the scan invariant, across the boundary too |
| `Probing.ScanShifts` | linear_probing.h:140-143 | a swap happens only before the boundary and keeps the scan invariant |
| `Probing.ScanEnds` | linear_probing.h:133-146 | when the scan stops at a gap or back at its start, emptying the hole leaves a well-probed table |
| `Probing.KeysOfFullTable` | storage.c:163-173 | a table without gaps holds as many distinct keys as slots |
| `LinearProbing.GapExists` | storage.c:163-173 | fewer entries than slots means a gap, so the unbounded free-slot scan ends |
| `LinearProbing.SwapKeepsRepresents` | storage.c:111-131 | swapping two slots of all three arrays keeps the map they stand for |
| `LinearProbing.ProbingTable.constructor` | storage.c:215-223 | the empty table stands for the empty map and every slot carries the EMPTY expiry |
| `LinearProbing.ProbingTable.Swap` | storage.c:111-131 | all three arrays have the two slots exchanged |
| `LinearProbing.ProbingTable.Lookup` | linear_probing.h:102-120 | returns the key's slot with its own block and expiry, or the table size exactly when the key is not stored |
| `LinearProbing.ProbingTable.FindFreeSlot` | linear_probing.h:72-100 | returns the first gap at or after the home, round the end of the table |
| `LinearProbing.ProbingTable.ScanForGap` | linear_probing.h:87-98 | the `goto repeat` scan ends at the first gap after the home |
| `LinearProbing.ProbingTable.Fill` | storage.c:317-319 | the map gains exactly the new entry |
| `LinearProbing.ProbingTable.SetUntil` | storage.c:331-331 | exactly one entry's expiry changes |
| `LinearProbing.ProbingTable.Visit` | linear_probing.h:137-143 | one step of the deletion scan keeps the map, the gaps and the scan invariant |
| `LinearProbing.ProbingTable.ShiftBack` | linear_probing.h:122-144 | the whole scan ends with the erased entry in the hole and nobody else needing it |
| `LinearProbing.ProbingTable.Erase` | linear_probing.h:122-148 | exactly the erased key is gone, every other key keeps its block and expiry, and the returned slot holds the erased entry's own block and expiry |
| `LinearProbing.ProbingTable.WipeGap` | storage.c:370-372 | marks a gap, changes no entry |
| `Buckets.ClampedWord` | balloc.h:160-164 | the branch-free mask turns exactly the words with the sign bit set into zero |
| `Buckets.BIndexIsLeast` | balloc.h:157-165 | for every size from 2 to 2^17, `bindex` is the least bucket whose item size is at least `size` |
| `Buckets.Ilog2Bounds` | types.h:27-30 | the highest set bit brackets the number between two powers of two |
| `Buckets.ArenaIsFilled` | balloc.h:95-108 | every bucket's items exactly fill an arena of 2^24 bytes |
| `Buckets.ItemsDisjoint` | balloc.h:131-153 | different items, of one bucket or two, share no byte |
| `Buckets.AddressInItem` | balloc.h:131-153 | every arena address lies in some item |
| `Buckets.ItemHasOneBucket` | balloc.h:131-153 | an address is an item of one bucket only |
| `Buckets.FootprintIsExact` | balloc.h:110-122 | the arenas and the headers behind them add up to the footprint |
| `Buckets.TotalCapacityIs` | balloc.h:95-98 | the capacities of the first n buckets sum to 2^18 - 2^(18-n) |
| `Buckets.LeRoundTrip` | balloc.h:175-175 | a pointer stored little-endian reads back unchanged |
| `Buckets.PatchedLink` | balloc.h:201-201 | a link written into memory is the link read there |
| `FreeLists.WalkIsFreeList` | balloc.h:143-151 | following the in-band links visits exactly the free list, in order, and then NULL |
| `FreeLists.TakeKeepsPartition` | balloc.h:173-176 | handing out the head keeps every item either free or owned, never both |
| `FreeLists.GiveKeepsPartition` | balloc.h:196-204 | taking a block back keeps that partition |
| `FreeLists.ChangeKeepsLinked` | server.c:1214-1217 | bytes changed inside an item that is not free leave every free list as it was |
| `FreeLists.ChangeKeepsClean` | balloc.h:196-204 | bytes changed inside one item leave all other items clean |
| `FreeLists.LinkIn` | balloc.h:200-202 | writing the head's address into an item puts it in front of the list |
| `Balloc.InitStep` | balloc.h:143-149 | one turn of the linking loop adds one item and disturbs no list linked before |
| `Balloc.TakeIsOk` | balloc.h:173-176 | the link read from the taken item is the rest of the list |
| `Balloc.FreeIsOk` | balloc.h:196-204 | freeing keeps all eleven buckets consistent, and clean when the block was wiped |
| `Balloc.WriteIsOk` | server.c:1214-1217 | any payload written into an owned block changes no free list and no header although both share memory |
| `Balloc.BucketAllocator.constructor` | balloc.h:124-155 | afterwards every item is free and no byte but link words is set |
| `Balloc.BucketAllocator.InitBuckets` | balloc.h:136-154 | every header and list is as the loop promises |
| `Balloc.BucketAllocator.LinkItems` | balloc.h:143-151 | the inner loop links all items of a bucket, last one first |
| `Balloc.BucketAllocator.Alloc` | balloc.h:167-194 | hands out the head of the least fitting bucket, or the null block exactly when that bucket is empty |
| `Balloc.BucketAllocator.Write` | server.c:1214-1217 | the block holds the patched bytes and every other owned block reads as before |
| `Balloc.BucketAllocator.SecureZero` | storage.c:463-476 | the block is zero, every other owned block reads as before |
| `Balloc.BucketAllocator.Free` | balloc.h:196-204 | the block returns to the bucket it was taken from; all other blocks keep their bytes; scrubbing is kept if the block was wiped |
| `Balloc.BucketAllocator.OthersAreKept` | balloc.h:196-204 | a change inside one item leaves all other owned blocks' bytes alone |
| `Ownership.OwnedWithOneSize` | balloc.h:167-204 | an address is owned with one size only |
| `Ownership.FreeIsUnowned` | balloc.h:173-176 | a free item has no owner, under whatever size |
| `Ownership.CreateKeepsOwners` | storage.c:299-324 | a new entry's block has no second owner, and per bucket owned blocks = entries + detached blocks |
| `Ownership.PublishKeepsOwners` | storage.c:326-336 | publishing moves no block |
| `Ownership.DetachKeepsOwners` | storage.c:361-377 | a GET moves a block from the table to the caller, counts included |
| `Ownership.GiveKeepsOwners` | storage.c:379-386 | giving a block back keeps single ownership and the count |
| `Ownership.KeysFitCapacity` | balloc.h:95-98 | entries whose blocks lie in the first n buckets are at most their capacity |
| `Ownership.EntriesAreBounded` | server.c:80-80 | the table holds at most 2^18 - 2^7 entries |
| `Gather.PickedKeys` | storage.c:431-437 | an id is gathered exactly when a slot holding it is past its expiry |
| `Gather.PickedOnce` | storage.c:431-437 | distinct ids are gathered once each |
| `Gather.ExpiredExtends` | storage.c:413-430 | gathering a longer stretch appends what the stretch holds |
| `Gather.LanesAreBefore` | storage.c:409-417 | flipping the sign bits makes the signed compare the unsigned one, for all 32-bit words |
| `Gather.LowestLane` | storage.c:420-424 | `ctz` names the first set lane and `mask & (mask - 1)` clears that lane only |
| `Gather.GatherScalar` | storage.c:431-437 | collects the expired ids in slot order |
| `Gather.GatherVector` | storage.c:413-425 | one vector collects what eight scalar steps collect |
| `Gather.GatherSimd` | storage.c:405-430 | vector loop and scalar tail collect the same sequence as the scalar gather, for every array and time |
| `Storage.EraseKeepsMarks` | storage.c:370-372 | after an erase every gap carries the EMPTY expiry |
| `Storage.ExpiredIsOverdue` | storage.c:399-437 | the gathered ids are exactly the entries past their expiry, each once |
| `Storage.NextIsThere` | storage.c:449-455 | the next gathered id is still stored although earlier erases relocated entries |
| `Storage.FreedIsUnowned` | storage.c:379-386 | a freed block has no owner left and all others own what they did |
| `Storage.Store.constructor` | storage.c:180-230 | the store is the empty map, all memory scrubbed |
| `Storage.Store.Create` | storage.c:299-324 | adds exactly one unpublished entry; fails exactly for the null id, a full table or a full bucket, and then changes nothing |
| `Storage.Store.Publish` | storage.c:326-336 | succeeds exactly for a stored id and changes its expiry only |
| `Storage.Store.Abort` | storage.c:338-351 | removes the entry if there is one, frees its wiped block, keeps all other blocks' bytes |
| `Storage.Store.IsAlreadyTaken` | storage.c:353-359 | true exactly for a stored id, published or not |
| `Storage.Store.Detach` | storage.c:361-377 | the entry leaves the map and its block becomes the caller's |
| `Storage.Store.Get` | storage.c:361-377 | succeeds exactly for a published id, hands out that entry's block and forgets it |
| `Storage.Store.Free` | storage.c:379-386 | the block is wiped and free again; all other owned blocks keep their bytes |
| `Storage.Store.Write` | server.c:1214-1217 | the owner's bytes change, nobody else's |
| `Storage.Store.Status` | storage.c:388-397 | per bucket, in use = entries whose block is there + detached blocks there |
| `Storage.Store.RipOne` | storage.c:449-455 | one removal; the branch marked unreachable is hit exactly for an unpublished id |
| `Storage.Store.Rip` | storage.c:449-455 | hits that branch exactly when an unpublished id was gathered; otherwise removes exactly the gathered ids and keeps all other entries and bytes |
| `Storage.Store.Reap` | storage.c:399-461 | hits the branch marked unreachable exactly at clock UINT32_MAX with an unpublished entry; otherwise removes exactly the entries with expiry below `now`, by either gather, and keeps every other entry and its data |
| `Storage.Store.NeverFull` | storage.c:163-173 | with 2^18 slots at least 128 are always free, so "No empty slots" is dead code |
| `Storage.Store.NoFreeItem` | balloc.h:167-194 | a bucket's free list is empty exactly when entries and detached blocks use up its capacity |
| `Storage.Store.FreeListIsIntact` | balloc.h:167-204 | in every valid state, walking the links from the header meets `free` distinct items of the bucket, then NULL |
| `Storage.Store.NoByteSurvives` | storage.c:379-386 | a non-zero arena byte lies in the bytes in use of an owned block or in a link word |
| `Runs.StepKeepsInv` | server.c:1135-1302 | every step keeps: receiving requests and unpublished entries correspond one to one, by id and owner |
| `Runs.RunInv` | server.c:1517-1542 | that invariant holds in every reachable state |
| `Runs.PublishNeverFails` | server.c:1249-1258 | in no run does the publish at commit fail |
| `Runs.ReadableStep` | server.c:1088-1100 | an id becomes readable only by a commit, and unreadable only by one delivery or one expiry |
| `Runs.EachPublicationOnce` | server.c:1088-1100 | in every run, commits of an id = deliveries + expiries + (1 if still readable) |
| `Runs.OwnEventsOnly` | server.c:886-978 | a request context changes in its own request's events only |
| `Runs.BodyIsReceived` | server.c:1135-1219 | in every run the context of a request that can still commit holds the chunks sent so far, in order, and the declared length |
| `Runs.StoredIsBody` | server.c:1249-1267 | a commit publishes exactly the POST's chunks in order, as many bytes as declared, until now + 3600 s |
| `Runs.ReadableIsLastStored` | server.c:1249-1267 | a readable blob is the body of the POST that last stored its id |
| `Runs.DeliveredIsLastStored` | server.c:1088-1100 | a delivered blob is byte for byte the body of the POST that last stored its id |
| `Runs.SentStaysUntilDone` | server.c:1283-1302 | a delivered blob stays with its request, unchanged, until that request is done |
| `Runs.ReservationIsSafe` | server.c:1188-1205 | no other request and no tick touches a reservation or the context holding it |
| `Runs.DoneRemovesOnlyItsOwn` | server.c:1293-1302 | `req_done` removes exactly the unpublished blob of its own request; after DUP, OOM or a commit it removes nothing |
| `Runs.ContextsAreBounded` | server.c:1411-1418 | in every run at most 8192 requests are alive |
| `Coupling.MemoryMayChange` | server.c:1283-1302 | the concrete state still stands for the same protocol state when unowned memory changes |
| `Coupling.ReserveCoupled` | server.c:1188-1205 | after a create the new block stands for the reservation |
| `Coupling.WriteCoupled` | server.c:1206-1218 | after the `memcpy` the poster's block holds one chunk more and every other blob is unchanged |
| `Coupling.PublishCoupled` | server.c:1249-1263 | the published entry stands for the complete body |
| `Coupling.GetCoupled` | server.c:1088-1100 | the detached block stands for the blob being sent |
| `Coupling.DoneCoupled` | server.c:1293-1302 | ending a request drops its reservation and its sent block, nothing else |
| `Coupling.TickCoupled` | storage.c:399-461 | what the reaper removes from the table is what the protocol removes |
| `Coupling.FullIsFull` | server.c:1197-1204 | a bucket is out of items exactly when blobs and sends use up its capacity |
| `Server.Server.constructor` | server.c:1355-1355 | the server starts in the protocol's initial state |
| `Server.Server.OpenRequest` | server.c:886-978 | refines the protocol's first-call step: dropped when the pool is used up, else a zeroed context, refused when the rate limiter says so |
| `Server.Server.RateCheck` | server.c:960-975 | the real table makes the rate limiter's step, unless the request is for a static page |
| `Server.Server.OtherRequest` | server.c:982-1088 | a request outside the blob branches is closed if it has a body, gets its page if there is one, else "not found", and touches no blob and no other request |
| `Server.Server.GetBlob` | server.c:1088-1100 | refines the protocol's GET |
| `Server.Server.Identify` | server.c:1124-1132 | the first POST call fixes the id, later calls must carry the same one |
| `Server.Server.PostData` | server.c:1135-1219 | refines the protocol's data step, with every rejection of the Content-Length |
| `Server.Server.ReserveBlock` | server.c:1188-1205 | DUP exactly for a taken id, OOM exactly for a full bucket, otherwise a reservation |
| `Server.Server.AppendChunk` | server.c:1206-1218 | appends the chunk or drops the request on overflow |
| `Server.Server.PostFinish` | server.c:1221-1268 | refines the protocol's last POST call |
| `Server.Server.Commit` | server.c:1249-1263 | the publish succeeds and the request lets go of its block |
| `Server.Server.ReqDone` | server.c:1283-1302 | refines the protocol's end of a request |
| `Server.Server.ReaperTick` | server.c:1527-1533 | refines the protocol's tick |
| `Server.Server.Serve` | server.c:1517-1542 | over any legal sequence of events the server passes through the protocol's states and gives the protocol's answers |
| `Server.Server.SentBytesAreIntact` | server.c:1088-1100 | while a response is sent, the bytes in memory are the blob that was delivered |
| `Server.Server.StoredBytesAreIntact` | server.c:1249-1267 | the bytes in memory of a published entry are the body of the POST that stored it |
| `Server.Server.NoFreedByteSurvives` | storage.c:379-386 | every arena byte is zero unless it lies in the first `size` bytes of an owned block or in the link word of a free item |
| `Server.Server.FullIsNoFreeItem` | balloc.h:167-194 | what the protocol calls a full bucket is one whose header counts no free item |
| `Server.Server.BlocksAreConserved` | storage.c:388-397 | per bucket: free items + stored blobs + blobs being sent = capacity |
| `Debouncer.AbsentAtGap` | debouncer.h:74-78 | a gap on the way from its home proves a key is not resident |
| `Debouncer.AllowKeepsInv` | debouncer.h:59-84 | every call keeps keys distinct and every resident key reachable, or the table full |
| `Debouncer.DebouncerTable.AllowKey` | debouncer.h:59-84 | a resident key is found wherever it is; a new one takes the first gap or the slot under the sweep hand |
| `Debouncer.HomeIs` | debouncer.h:64-64 | the scan starts at the low ten bits of the key's halves XORed |
| `Debouncer.StrangerIsAdmitted` | debouncer.h:61-78 | an unknown client passes and leaves the table alone; a client without an entry passes; every known client has one afterwards |
| `Debouncer.ResidentsStay` | debouncer.h:66-83 | a call drops no key, except the one under the sweep hand when a new key meets a full table |
| `Debouncer.AllowIsOutcome` | debouncer.h:59-84 | every call on a well-formed table has an outcome |
| `Debouncer.AllowIs` | debouncer.h:59-84 | and only one |
| `Debouncer.HistoryInv` | debouncer.h:59-84 | that invariant holds after every run of calls |
| `Debouncer.DeadlineIsLastAdmitted` | debouncer.h:68-73 | in every run a resident key's deadline is 150 ms after its last admitted call, modulo 2^32 |
| `Debouncer.AdmittedIff` | debouncer.h:68-73 | a call for a resident key is admitted exactly when the time since its last admitted call, modulo 2^32, is between 150 and 2^31 + 150 ms |
| `Debouncer.AdmittedAtLeastAWindowApart` | debouncer.h:68-73 | with less than 2^31 ms in between, admitted calls of a resident key are at least 150 ms apart, across clock wrap-around |
| `Debouncer.LongSilenceIsRefused` | debouncer.h:69-70 | beyond that range the comparison fails: a client silent for 2^31 + 151 ms is refused |
| `Debouncer.CallOnFull` | debouncer.h:80-83 | on a full table only a new key changes keys, in the slot under the sweep hand, which moves on by one |
| `Debouncer.StaysFull` | debouncer.h:80-83 | once full the table stays full with distinct keys |
| `Debouncer.SweptInSurvives` | debouncer.h:80-83 | a key placed by the sweep stays in its slot for the next 1023 evictions, across wrap of the counter |
| `Admission.CallsAreHistory` | server.c:960-975 | in every run the rate limiter's table is what the run's checked first calls leave behind |
| `Admission.LetThroughIff` | server.c:960-975 | in every run a request of a remembered client is let through exactly when the time since its last one that was, modulo 2^32 ms, is between 150 and 2^31 + 150 ms |
| `Admission.RequestsAreApart` | server.c:960-975 | in every run two requests of a remembered client that are let through lie at least 150 ms apart, and requests in between are refused |
| `Admission.RefusedChangesNothing` | server.c:960-975 | a refused request changes no blob, no other request and no deadline |
| `Answers.DataAnswer` | server.c:1101-1219 | in every run a data call closes the connection exactly for the null id, an id other than the request's first, a first declared length outside 46 to 131072, or a chunk by which the body outgrows the length there was room for; otherwise it goes on |
| `Answers.FinishAnswer` | server.c:1221-1268 | in every run the last call answers a taken id with the duplicate error, lack of room with the out-of-memory error, an incomplete or missing body as a bad blob, and stores a complete one, as the first data call found things |
| `Answers.CompleteUploadIsStored` | server.c:1249-1267 | a POST whose id was free and whose bucket had an item at its first data call, and whose chunks add up to the declared length, is stored for 3600 s with exactly those chunks |
| `Answers.GetAnswer` | server.c:1088-1100 | in every run a GET is answered with the last stored body exactly when the id was stored more often than delivered or expired, else "not found" |
| `Answers.TickKeeps` | storage.c:399-461 | in every run a tick leaves exactly the blobs stored no more than 3600 s before it, and every upload in flight |
| `Answers.OpenAnswer` | server.c:886-978 | a first call is closed exactly with 8192 requests alive; a static page, an unknown client and one not remembered go on, and a client let through is remembered |
| `Answers.OtherAnswerIs` | server.c:982-1088 | outside the blob branches: closed exactly with a body, a page exactly for a known path without one, else "not found" |
| `Answers.DoneEndsRequest` | server.c:1283-1302 | the completion call frees its own context only |
| `Answers.UploadGoesOn` | server.c:1135-1219 | while the chunks stay within the declared length every data call goes on |
| `Answers.UploadThenDownload` | server.c:1088-1268 | a complete upload is stored, the next GET gets exactly its chunks in order, and then the id is free again |
| `Translation.HitIff` | server.c:376-392 | a key that stands at a position is found there, and nothing else is |
| `Translation.FirstIsFound` | server.c:355-364 | of several matching entries the first one is found |
| `Translation.FindEntry` | server.c:355-364 | finds the first entry whose key stands at the position |
| `Translation.EndIsExact` | server.c:353-366 | the scan stops at the end of the file exactly when no key it meets ends at or past it |
| `Translation.WrittenLength` | server.c:370-400 | bytes written = bytes predicted + how far the scan ran past the end |
| `Translation.PassesAgreeIff` | server.c:347-400 | the two passes agree exactly when no key the scan meets ends at or past the end of the file |
| `Translation.KeyAtEndOverruns` | server.c:370-400 | they do disagree, by one byte, on a file that is just a key, with an entry as the generator writes it |
| `Translation.KeysDoNotOverlap` | tools/translations.py:122-122 | keys of the form `@name@` that match at one place are the same key |
| `Translation.OrderDoesNotMatter` | server.c:378-395 | with such keys the output does not depend on the order of the entries |
| `Translation.SeparatedIsReplaced` | server.c:370-400 | when no key is directly followed by another or by the end, the output is the file with every key replaced, whatever the values |
| `Translation.ReplacedIff` | server.c:370-400 | with values that are not empty and do not start with a marker, the output is the file with every key replaced exactly when keys are so separated |
| `Translation.AdjacentKeyIsMissed` | server.c:376-398 | a key directly behind another one is copied up to its closing marker, where the scan goes on |
| `Translation.SomeKeysAreMissed` | server.c:376-398 | a file in which that happens |
| `Translation.GetTranslatedFileSize` | server.c:347-368 | the first pass computes the prediction |
| `Translation.TranslateFile` | server.c:370-400 | the second pass writes the translation at its place and nothing before it |
| `Translation.PredictAll` | server.c:452-470 | the first pass over all languages and files computes the sum of the predictions |
| `Translation.CopiesFitIff` | server.c:452-488 | the allocation is exactly filled by all copies if and only if in no file and language a key reaches the end; otherwise it is too small |
| `Translation.TranslateAssets` | server.c:452-488 | the copies for all languages and assets exactly fill the allocation, in order, and the asset table points every language's file at its own translation |
| `ShareLink.GroupsOfDigits` | assets/client-shared.js:445-455 | base64 groups decode to the bytes they came from |
| `ShareLink.EncodeIs` | assets/client-shared.js:445-455 | the encoding is URL-safe and unpadded |
| `ShareLink.UrlDigit` | assets/client-shared.js:451-454 | the digits are the alphabet of section 5 of RFC 4648 |
| `ShareLink.EncodedDigit` | assets/client-shared.js:445-455 | every letter of an encoding is named by its six bits of the bytes, zeros added at the end |
| `ShareLink.EncodeDecode` | assets/client-shared.js:445-470 | text of whole groups is the encoding of what it decodes to |
| `ShareLink.DecodeIff` | assets/client-shared.js:457-470 | text without white space and padding decodes exactly when it has only digits and none is left over alone |
| `ShareLink.DecodeEncode` | assets/client-shared.js:445-470 | decoding an encoding is the identity on every byte sequence |
| `ShareLink.SpaceIsSkipped` | assets/client-shared.js:457-470 | white space anywhere in the text does not change what `atob` yields |
| `ShareLink.Base64UrlEncode` | assets/client-shared.js:445-455 | the loop over the bytes computes that encoding |
| `ShareLink.Base64UrlDecode` | assets/client-shared.js:457-470 | the loop over the binary string computes that decoding, or fails where `atob` does |
| `ShareLink.LinkState.SetLink` | assets/client-shared.js:345-405 | the three fields belong to the link built from origin, id and key, or are all cleared |
| `ShareLink.OriginIs` | assets/client-shared.js:79-81 | exactly the slashes at the end are taken from the origin |
| `ShareLink.LinkForIff` | assets/client-shared.js:365-387 | a link is shown exactly for an origin, an id of 16 bytes and a key of 32, and starts with the origin |
| `ShareLink.TrimIs` | assets/client-shared.js:508-508 | exactly the white space at both ends is trimmed |
| `ShareLink.ParseIff` | assets/client-shared.js:505-532 | exactly what the parser accepts: two parts and no third behind the hash sign and leading slashes, with an id of at least 16 letters of the alphabet |
| `ShareLink.SplitPair` | assets/client-shared.js:521-523 | two URL-safe parts with a slash between them split into just these |
| `ShareLink.ParseFragment` | assets/client-shared.js:505-532 | a fragment of two safe parts parses into them |
| `ShareLink.LinkRoundTrip` | assets/client-shared.js:374-387 | for every 16-byte id and 32-byte key, parsing the link and decoding both parts gives back the same bytes, whether the link arrives as a hash, as a URL or as text, with or without white space around it |
| `ShareLink.SetLinkRoundTrip` | assets/client-shared.js:365-387 | the receiver decodes from the shown link what the sender put in |
| `GaloisField.Recurrence` | assets/qrcode.js:681-685 | the table's recurrence holds for the powers of 2 modulo x^8+x^4+x^3+x^2+1 |
| `GaloisField.NoSmallerOrder` | assets/qrcode.js:686-688 | no power of 2 below the 255th is 1 |
| `GaloisField.ExpIsInjective` | assets/qrcode.js:686-688 | the first 255 powers are pairwise different |
| `GaloisField.ExpIsSurjective` | assets/qrcode.js:686-688 | every non-zero byte is one of them |
| `GaloisField.FillExp` | assets/qrcode.js:678-685 | the two loops fill the table with the powers |
| `GaloisField.FillLog` | assets/qrcode.js:686-688 | the logarithm table inverts them on every non-zero byte |
| `GaloisField.FillTables` | assets/qrcode.js:675-688 | both tables are right together |
| `ReedSolomon.SetUpTables` | assets/qrcode.js:675-688 | the tables the encoder works with are those |
| `ReedSolomon.LogIs` | assets/qrcode.js:660-665 | a logarithm is unique below 255 |
| `ReedSolomon.GexpIsTimes` | assets/qrcode.js:660-674 | `gexp(glog(x) + r)` is x times 2^r in the field, for every integer r |
| `ReedSolomon.Glog` | assets/qrcode.js:660-665 | the lookup is the logarithm, and throws exactly for zero |
| `ReedSolomon.GexpLookup` | assets/qrcode.js:666-674 | the normalising loops end in the table and keep the power |
| `ReedSolomon.NewPolynomial` | assets/qrcode.js:689-702 | leading zeros are dropped, the rest is kept, `shift` unwritten cells follow |
| `ReedSolomon.LeadCancels` | assets/qrcode.js:725-731 | a round cancels the leading coefficient |
| `ReedSolomon.ReducedIsShaped` | assets/qrcode.js:721-734 | each round leaves a strictly shorter polynomial on which the next round is defined |
| `ReedSolomon.RoundAddsMultiple` | assets/qrcode.js:725-733 | one round adds one shifted scalar multiple of the generator |
| `ReedSolomon.ModIsRemainder` | assets/qrcode.js:721-734 | a polynomial XOR its remainder is a sum of shifted scalar multiples of the generator |
| `ReedSolomon.ModByTables` | assets/qrcode.js:721-734 | the recursive `mod` through the tables terminates with that remainder, and throws exactly when it makes a round with a zero coefficient in the divisor |
| `ReedSolomon.RawIsShifted` | assets/qrcode.js:689-702 | the raw polynomial is the data followed by zeros |
| `ReedSolomon.BlockEc` | assets/qrcode.js:368-377 | the error-correction bytes are the low end of the remainder; with a zero coefficient in the generator only all-zero data gets through |
| `ReedSolomon.BlockIsMultiple` | assets/qrcode.js:357-377 | every block, data then error correction, is a sum of shifted scalar multiples of its generator |
| `Interleaving.InterleavedLength` | assets/qrcode.js:379-399 | as many cells are written as the rows have |
| `Interleaving.DeinterleavedInterleaved` | assets/qrcode.js:385-399 | de-interleaving by the row lengths gives back the rows |
| `Interleaving.InterleaveInto` | assets/qrcode.js:385-391 | the nested loops write the interleaving and nothing else |
| `Syndromes.EvalXor` | assets/qrcode.js:729-731 | evaluation at a power of 2 is additive |
| `Syndromes.EvalScaled` | assets/qrcode.js:729-731 | evaluation commutes with scaling |
| `Syndromes.BlockVanishes` | assets/qrcode.js:357-377 | where the generator vanishes, every block encoded with it vanishes |
| `Syndromes.SparseWordIsZero` | assets/qrcode.js:357-377 | a word of at most 255 places with at most n non-zero ones that vanishes at the first n powers of 2 is zero |
| `Syndromes.VanishingWordsAreFarApart` | assets/qrcode.js:357-377 | two such words that differ do so in more than n places |
| `Generators.ProductVanishes` | assets/qrcode.js:517-524 | the generator of degree n vanishes at the first n powers of 2 |
| `Generators.NeighbourRatio` | assets/qrcode.js:517-524 | neighbouring coefficients satisfy (2^k + 1) c[k] = (2^n + 2^(k-1)) c[k-1] |
| `Generators.GeneratorsAreNonZero` | assets/qrcode.js:517-524 | no generator of degree up to 254 has a zero coefficient |
| `Generators.LongestProductHasZero` | assets/qrcode.js:517-524 | the one of degree 255 has |
| `Generators.Multiply` | assets/qrcode.js:710-720 | throws exactly when a factor has a zero coefficient or both are empty, otherwise computes every product coefficient |
| `Generators.LeadOfProduct` | assets/qrcode.js:710-720 | the leading coefficient is the product of the leading ones and not zero, so nothing is stripped |
| `Generators.ConvIsTimesRoot` | assets/qrcode.js:710-720 | the product with a linear factor is the polynomial shifted plus the polynomial scaled |
| `Generators.ErrorCorrectPolynomial` | assets/qrcode.js:517-524 | throws exactly for a degree above 255, otherwise returns the product of the linear factors |
| `Generators.EncodeBlock` | assets/qrcode.js:367-377 | a block's error-correction bytes; throws exactly for more than 255 of them, and for 255 unless the data is all zeros |
| `Generators.SyndromesVanish` | assets/qrcode.js:357-377 | every syndrome of every block that can be encoded is zero |
| `Generators.BlocksAreFarApart` | assets/qrcode.js:357-377 | blocks of up to 255 bytes from different data differ in more places than they have error-correction bytes |
| `Generators.DataIsDetermined` | assets/qrcode.js:357-377 | a received word within half that many places of a block determines its data |
| `Blocks.ComputeRows` | assets/qrcode.js:351-378 | the rows and their maxima are right for every list of blocks, or some block cannot be encoded |
| `Blocks.TotalsFit` | assets/qrcode.js:379-383 | every cell of the allocated array is written |
| `Blocks.CreateBytes` | assets/qrcode.js:351-400 | throws exactly for a block of more than 255 error-correction bytes, or of 255 with data that is not all zeros; otherwise the output is the interleaved data followed by the interleaved error correction |
| `Blocks.CodewordsAreReadable` | assets/qrcode.js:351-400 | a reader who knows the block sizes gets back every data block, every error-correction block and the buffer |
| `Blocks.ReadBlocksVanish` | assets/qrcode.js:351-400 | every block that reader takes out has zero syndromes |

## Left out

- Storage.Store.Create: requires an id that is not stored, as its only caller checks first (`server.c:1190`); the source itself would store a second entry, and `Probing.DistinctIffNew` shows that this is exactly when ids stop being distinct.
- Storage.Store.NoByteSurvives: counts the link word left in a freshly taken block of fewer than eight bytes as in use; the server never asks for fewer than 46, and `Server.Server.NoFreedByteSurvives` states the property without that exception.
- Translation.TranslateFile: requires room for what is written, and that behind every marker in the file the longest key and one more byte are readable, since the source compares and copies without bounds; a file without markers near its end needs no byte behind it.
- Translation.TranslateAssets: requires that no key ends at or past the end of its file; by `Translation.CopiesFitIff` the source otherwise writes past its allocation.
- Translation.PredictAll: sums are unbounded; the source's would wrap below zero for a file in which keys past the end are longer than the file.
- Blocks.CreateBytes: unwritten cells of a remainder count as zero, as the drawing code reads them; a JavaScript array that grows is allocated at its final length.
- The key the rate limiter makes from a client's address is a parameter, and so is the time of a call.
- ShareLink.ParseFragment: the browser's `URL` is a parameter, `btoa` and `atob` are modelled by their standards.
- The hash mixing functions: nothing depends on their quality.
- Bucket headers live in an array beside the arenas, not in the same bytes; `Buckets.FootprintIsExact` places them behind the last arena.
- The swap of expiry words goes through a `double`; every 32-bit word fits it exactly, so the model swaps words.
- The order of `htable_free` updates, statistics counters, logging, tracing zones and `mlock`.
- `storage_zero` at shutdown and failures of the operating system's allocator.
- Request contexts come from a map with the pool's limit; the pool's free list is not modelled.
- libmicrohttpd, epoll, timers, TLS, headers, asset serving: only the calling convention enters, as an assumption.
- Server.Server.OtherRequest: whether a path has a page is a parameter, and the page's content is left out.
- Parsing of the id from the URL and of Content-Length from its header: their results are parameters.
- Expiry is relative to reaper ticks, since a GET does not look at the clock.
- WebCrypto calls, QR drawing, mask scoring, version tables, DOM code, HTML and CSS.
