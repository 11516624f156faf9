# Hash-table benchmark: verified model

A Dafny model of the three hash tables of the benchmark (extendible, cuckoo, linear probing), of
the arithmetic they and the benchmark driver rely on, and of the counter extension of the bundled
performance-counter library. `dafny verify dfyconfig.toml` verifies all of it.

| file | models |
|---|---|
| `Pairs.dfy`, `TableSpec.dfy` | the pair type and the common table interface: a table is a bag of pairs, and under fresh inserts a finite map |
| `Extendible.dfy` | the extendible table on values, all its sequential theorems, and whole runs (`ExtendibleRuns`) |
| `ExtendibleTable.dfy` | the classes Segment, Directory and ExtendibleHash, proved to do to the heap what `Extendible` does to values |
| `DirectorySemaphore.dfy` | lock, unlock and suspend of a directory, one shared access at a time, any number of threads |
| `SplitProtocol.dfy`, `SplitProgress.dfy`, `SplitRaces.dfy` | concurrent splits, copying and publishing of directories; a split that nobody disturbs ends; two runs that lose an update |
| `Cuckoo.dfy`, `CuckooTable.dfy` | the displacement walk and the class CuckooHash |
| `LinearProbing.dfy`, `LinearProbingTable.dfy` | linear probing on slots, with the wrap of its 64-bit probe, and the class LinearProbingHash |
| `DiscreteLog.dfy` | discrete_log: valuations modulo powers of two, termination, bijection |
| `Words.dfy`, `XXHash.dfy`, `XXHashValues.dfy` | 64-bit words, the hash with its phases, and five hash values worked out |
| `KeyGenerator.dfy` | sequential key generation |
| `WidthExtender.dfy` | the 64-bit extension of a narrow counter, read by any number of threads |
| `Bits.dfy`, `Probing.dfy` | shifts, powers of two, cyclic scans, filters and bags |

The hash of the tables is an arbitrary function: into `[0, 2^W)` for the extendible table (the
program has W = 64 and 1024 slots per segment; both are parameters, with both builds), into 64-bit
words for linear probing, and two arbitrary functions for the cuckoo table. Keys are numbers and 0
is the key INVALID of a free slot.

## Findings

- Linear probing. The sum `loc + i` of line 91 wraps at 2^64, so the probe of hash h covers every
  slot if and only if `h + capacity <= 2^64` or the capacity divides 2^64 (`ProbeCoversIff`,
  `UsableIff`). What the operations do is stated at every capacity: an insert returns if and only if
  its probe, after the resize if one is due, meets a free slot (`Inserted`), and a lookup finds a key
  if and only if its probe meets it (`Seen`), so an update or a delete does what the interface
  promises if and only if its key is seen or not stored. When all probes cover the table both hold
  (`UsableWorks`), and every run answers like a map (`Run`). The converse is a statement about
  coverage, not about runs: at another capacity some slot array holds a key that no operation finds
  (`UnusableLoses`), but the operations need not be able to produce that array. Two runs on new
  tables do fail. With three slots, keys of hash 0 and 1 make the insert of a key of hash 2^64 - 1
  loop for ever, below the threshold and with a free slot (`HangingRun`). With five slots, six
  inserts return, the last of them doubles the table, and then a lookup does not find the stored key
  of hash 2^64 - 2 (`LosingRun`).
- Extendible insert. With kNumSlot stored pairs that share a key's whole hash, every split leaves
  the key's segment full until its local depth is 64; then the pattern of line 145 is a shift by -1.
  An insert returns if and only if fewer than kNumSlot stored pairs share the hash
  (`InsertPlacedIff`, `SameHashBag`); kNumSlot inserts of one key into a new table and one more reach
  the shift (`NoBitLeftReached`).
- Concurrent splits. Two conditions that the program does not check are needed. The depth test of
  line 291 must still hold for the directory that line 292 suspends; otherwise the doubled directory
  is wrong, and only then (`DoubleIff`). And the entry that a split overwrites must still name the
  split segment, exactly (`WriteIff`), which holds if no split begins on a segment of which another
  thread has not yet written all entries: its mutex is free and entries for it are visible from the
  first write of line 346 on. Under both, no update is lost. `StaleDepthLoses` and
  `NestedSplitLoses` are whole runs from a new table that break one condition, keep the other, and
  lose an update.
- Cuckoo insert. An insert or a move of a resize succeeds if and only if the walk from a candidate
  slot meets a free slot among its first kCuckooThreshold (`ChosenIff`), and a resize fails only if
  that is false for some pair at each of kMaxGrows capacities (`GrownIff`, `JammedIff`). Three keys that share both hash values never fit (`ThreeKeysDoNotFit`), so an insert
  of the third stores it in no number of passes: it grows the table for ever or exits
  (`NotCrowded`).
- Width extender. A read is exact modulo 2^64 if and only if the events missed between updates sum
  up to a multiple of 2^64, in particular if all updates came within 2^width events (`ReadExact`); one
  update that comes 2^width events late makes it wrong (`LateReadWrong`).
- The comment at index/extendible_hash.h:281 says the segment lock is released before the split; the
  code keeps it, and so does the model.

## Model

| member | source | states |
|---|---|---|
| `TableSpec.RunRefinesMap` | index/interface.h:15-26 | every run of bag steps with fresh inserts gives the replies of a finite map and ends in the bag of that map |
| `TableSpec.StepRefinesMap` | index/interface.h:19-22 | one bag step on the bag of a map is the map operation, reply included |
| `Probing.Find` | index/extendible_hash.h:226-247 | a scan stops at the first slot, in cyclic order, that it looks for, or after all of them |
| `Probing.FindCovers` | index/extendible_hash.h:405-421 | a cyclic scan of N steps fails if and only if no slot at all satisfies the condition |
| `Extendible.RouteIff` | index/extendible_hash.h:203-225 | a hash value is routed to a segment if and only if it has the segment's prefix of local-depth bits |
| `Extendible.DoubleInv` | index/extendible_hash.h:295-307 | doubling keeps the block invariant of the directory and the segment of every hash value |
| `Extendible.PublishInv` | index/extendible_hash.h:317-354 | giving the halves of a segment the halves of its block keeps: each segment of local depth l names exactly one aligned block of 2^(depth-l) entries |
| `Extendible.SplitStepInv` | index/extendible_hash.h:289-354 | a split keeps that invariant with and without doubling, and the key's segment is one level deeper |
| `Extendible.SplitRoute` | index/extendible_hash.h:289-354 | after a split a hash value goes to the new segment if and only if it went to the old one and its next bit is 1; all others go where they went |
| `Extendible.HomeLine` | index/extendible_hash.h:198-200 | a scan starts with the cache line of four slots, of 256, whose number is the low byte of the hash |
| `Extendible.PlaceBag` | index/extendible_hash.h:114-133 | while a free slot is left, Insert4split turns exactly one free slot into the given pair |
| `Extendible.FillBag` | index/extendible_hash.h:146-188 | a new segment given at most N live pairs holds exactly those pairs and free slots: no insert of a split fails |
| `Extendible.SplitPartitions` | index/extendible_hash.h:136-191 | the live pairs of a full segment are partitioned between the halves by the next hash bit, in both builds, although the in-place build leaves stale copies behind |
| `Extendible.SplitStepMult` | index/extendible_hash.h:287-354 | a split of a full segment neither loses nor duplicates any stored pair |
| `Extendible.ProbeFailsIffFull` | index/extendible_hash.h:224-247 | the probe of an insert fails if and only if every slot of the segment is live for its prefix |
| `Extendible.InsertInv` | index/extendible_hash.h:194-368 | an insert with any number of splits and doublings keeps the directory invariant |
| `Extendible.InsertMult` | index/extendible_hash.h:194-368 | an insert that returns adds exactly its pair to the stored pairs; one that runs out of bits changes none |
| `Extendible.InsertPlacedIff` | index/extendible_hash.h:145-287 | an insert returns if and only if fewer than N stored pairs share the key's full hash |
| `Extendible.SameHashBag` | index/extendible_hash.h:145-287 | the number in that condition is the number of all stored pairs of the table with that hash |
| `Extendible.InsertDepth` | index/extendible_hash.h:202-368 | every retry raises the local depth of the key's segment by one and adds one segment, so there are at most W minus its depth |
| `Extendible.KeyStepMult` | index/extendible_hash.h:576-592 | the scan of a lookup finds a pair that is stored, or none is stored under the key; a stale copy is never found |
| `Extendible.PutHitMult` | index/extendible_hash.h:405-421 | rewriting the pair that was found exchanges exactly that pair in the contents |
| `Extendible.BlockIs` | index/extendible_hash.h:627-633 | from the start of a block, the entries that name its segment are the next 2^(depth-l) ones and no others |
| `Extendible.StrideAligned` | index/extendible_hash.h:656-662 | the stride from one block start leads to the next block start or exactly to the end |
| `Extendible.WalkStep` | index/extendible_hash.h:627-650 | each step of the walk meets one new segment and accounts for the live pairs of its block |
| `Extendible.WalkEnd` | index/extendible_hash.h:627-664 | at the end the walk has met every segment |
| `Extendible.ContentsAt` | index/extendible_hash.h:627-652 | the walk counts every stored pair as often as it is stored, and no stale copy |
| `ExtendibleRuns.InitialInv` | index/extendible_hash.h:97-100 | the constructed table satisfies the directory invariant |
| `ExtendibleRuns.StepBag` | index/extendible_hash.h:194-624 | each operation does to the stored pairs what the interface promises |
| `ExtendibleRuns.CollideReturns` | index/extendible_hash.h:194-247 | if the map has fewer than N keys of one full hash, the insert of another one returns |
| `ExtendibleRuns.TableRefinesMap` | index/extendible_hash.h:194-624 | every run from a new table, with fresh inserts that meet that condition, answers like a finite map across all splits and doublings |
| `ExtendibleRuns.BuildsAgree` | index/extendible_hash.h:138-186 | the in-place and the copying build give the same replies and end with the same stored pairs on every such run |
| `ExtendibleRuns.NoBitLeftReached` | index/extendible_hash.h:145-287 | from every new table, N inserts of one key return and the next one comes to the undefined shift |
| `ExtendibleTable.Segment.Insert4split` | index/extendible_hash.h:114-133 | the slots become the value-level ones, and failure is reported if and only if there was no free slot |
| `ExtendibleTable.Segment.Split` | index/extendible_hash.h:136-191 | the new segments hold the filled halves, the old slots are untouched, and no error branch is taken when all slots are live |
| `ExtendibleTable.RoomLeft` | index/extendible_hash.h:153-185 | while pairs are being moved the new half still has a free slot |
| `ExtendibleTable.Directory.Suspend` | index/extendible_hash.h:58-70 | the counter goes to -1 and true is returned if and only if it was 0, when no thread holds the lock |
| `ExtendibleTable.Directory.Lock` | index/extendible_hash.h:72-79 | the counter rises and true is returned if and only if it was not negative |
| `ExtendibleTable.Directory.Unlock` | index/extendible_hash.h:81-85 | the counter falls by one |
| `ExtendibleTable.Directory.Doubled` | index/extendible_hash.h:299-309 | the new directory repeats every entry and names the two halves at the doubled position |
| `ExtendibleTable.Directory.Publish` | index/extendible_hash.h:322-354 | both branches, depth = l+1 and the general stride, give the upper half of the block to the new segment and leave the rest |
| `ExtendibleTable.ExtendibleHash.constructor` | index/extendible_hash.h:97-100 | the depth is that of the largest power of two not above initCap, there are that many segments, and the heap represents the initial table |
| `ExtendibleTable.ExtendibleHash.InsertRound` | index/extendible_hash.h:202-367 | one round stores the pair, or finds no bit left, or splits and leaves the same insert to do with a deeper segment |
| `ExtendibleTable.ExtendibleHash.Insert` | index/extendible_hash.h:194-368 | the retry loop ends, and the heap represents the table after the insert |
| `ExtendibleTable.ExtendibleHash.Update` | index/extendible_hash.h:371-453 | the heap represents the updated table, and the reply is its reply |
| `ExtendibleTable.ExtendibleHash.Delete` | index/extendible_hash.h:457-539 | the heap represents the table with the key of that pair cleared |
| `ExtendibleTable.ExtendibleHash.Get` | index/extendible_hash.h:542-624 | the value is the one of the table |
| `ExtendibleTable.ExtendibleHash.Capacity` | index/extendible_hash.h:656-664 | the result is the number of distinct segments times the slots per segment |
| `ExtendibleTable.ExtendibleHash.NewCapacity` | util/config.h:82-84 | the capacity of a new table is the largest power of two not above initCap times the slots per segment; the benchmark's table has 16384 |
| `ExtendibleTable.ExtendibleHash.CountSlots` | index/extendible_hash.h:627-650 | sum is the number of stored pairs, stale copies excluded, and cnt the number of distinct segments |
| `ExtendibleTable.ExtendibleHash.Utilization` | index/extendible_hash.h:627-652 | the result is the percentage of all slots of the distinct segments that hold a stored pair |
| `ExtendibleTable.ExtendibleHash.Run` | index/extendible_hash.h:194-624 | the class answers every legal run like a finite map and ends with the pairs of that map |
| `DirectorySemaphore.StepInv` | index/extendible_hash.h:58-85 | every shared access of any thread keeps the counter exact |
| `DirectorySemaphore.SwapStays` | index/extendible_hash.h:58-70 | once a suspend has swapped the counter it stays swapped, with the same winner, in every continuation |
| `DirectorySemaphore.SuspendOnce` | index/extendible_hash.h:58-70 | suspend returns true at most once per directory, however often the threads, the winner included, call it |
| `DirectorySemaphore.SuspendExclusive` | index/extendible_hash.h:66-69 | when suspend has returned true, then and ever after no thread is between a successful lock and its unlock |
| `DirectorySemaphore.NoLockAfterSwap` | index/extendible_hash.h:72-79 | after the swap no lock succeeds, even one that read the counter before |
| `DirectorySemaphore.CounterExact` | index/extendible_hash.h:58-85 | the counter is the number of holders, or holders - v - 1 after a swap of v; the winner's wait ends exactly when no holder is left |
| `DirectorySemaphore.LockFailsIff` | index/extendible_hash.h:72-79 | in every run a call of lock gives up if and only if the counter has been swapped |
| `DirectorySemaphore.SuspendFailsIff` | index/extendible_hash.h:58-65 | so does a call of suspend |
| `DirectorySemaphore.WaitEndsIff` | index/extendible_hash.h:66-69 | the next step of a waiting suspend returns true if and only if no thread holds the lock |
| `DirectorySemaphore.CallsBegin` | index/extendible_hash.h:58-79 | a thread outside a call may begin either call |
| `DirectorySemaphore.LockAlone` | index/extendible_hash.h:72-79 | after every run without a swap a thread in lock, not disturbed, holds the lock two steps later with the counter one higher, and can do nothing else |
| `DirectorySemaphore.UnlockAlone` | index/extendible_hash.h:81-85 | after every run a holder that unlocks, not disturbed, lowers the counter by one |
| `DirectorySemaphore.SuspendAlone` | index/extendible_hash.h:58-70 | after every run without a swap a thread in suspend, not disturbed, swaps out exactly the number of holders, and returns true if there are none |
| `SplitProtocol.WriteIff` | index/extendible_hash.h:326-347 | overwriting one entry keeps every entry naming its one owner if and only if the entry still named the split segment |
| `SplitProtocol.DoubleIff` | index/extendible_hash.h:291-311 | publishing the doubled copy is right if and only if the local depth still equals the depth of the suspended directory |
| `SplitProtocol.WriteIndexIs` | index/extendible_hash.h:321-347 | the position computed from the hash, the stride and the round is the next entry of the upper half of the segment's block, in range |
| `SplitProtocol.DoInv` | index/extendible_hash.h:289-361 | every guarded step of a splitting thread keeps the invariant of directories, segments, threads and counter |
| `SplitProtocol.BeginInv` | index/extendible_hash.h:203-287 | so does a thread that finds, locks and splits a whole segment |
| `SplitProtocol.NextInv` | index/extendible_hash.h:289-361 | every guarded transition keeps the published directory tiled by its segments |
| `SplitProtocol.FreshAtRest` | index/extendible_hash.h:97-100 | a new table is a state in which runs may start |
| `SplitProtocol.RunInv` | index/extendible_hash.h:289-361 | every state of every guarded run, with any number of threads, satisfies the invariant |
| `SplitProtocol.RunWithin` | index/extendible_hash.h:289-361 | a published segment keeps its prefix block or a part of it in every continuation |
| `SplitProtocol.RouteOwner` | index/extendible_hash.h:203-204 | in every invariant state each hash value is sent to a published segment that has its prefix |
| `SplitProtocol.PublishStep` | index/extendible_hash.h:311-348 | a split that is published was published by a step of its own thread, which left both halves whole |
| `SplitProtocol.PublishedRoute` | index/extendible_hash.h:289-361 | a published split sends every hash value of its block into its half |
| `SplitProtocol.NoLostSplit` | index/extendible_hash.h:289-361 | once a split is published, in every later state every hash value of its block is sent to a segment inside its half, so none of the upper half to the old segment and none of the lower half to the new one |
| `SplitProtocol.LockOnCurrent` | index/extendible_hash.h:317-319 | a lock that succeeds is on the published directory |
| `SplitProtocol.HeldDirectory` | index/extendible_hash.h:317-348 | the directory is not replaced as long as a thread holds its lock |
| `SplitProtocol.WritersDisjoint` | index/extendible_hash.h:322-347 | threads that write at the same time overwrite disjoint blocks |
| `SplitProgress.BegunClear` | index/extendible_hash.h:289-291 | a split that has begun has a clear way if no thread has suspended the directory and, where it must double, none holds it; its length is 2^l + 6 steps when it doubles and 2^(depth-l-1) + 5 otherwise |
| `SplitProgress.SplitAlone` | index/extendible_hash.h:287-361 | after every guarded run, a split with a clear way and no other step in between is carried out in that many steps: the segment is unlocked and one level deeper, and every hash value of the block is sent into its half |
| `SplitRaces.StaleDepthLoses` | index/extendible_hash.h:289-311 | a run from a new table with a stale depth test and no other fault that loses a published split |
| `SplitRaces.NestedSplitLoses` | index/extendible_hash.h:317-347 | a run from a new table that splits a half while its entries are being written, with no other fault, and loses a published split |
| `Cuckoo.PathWalks` | index/cuckoo_hash.h:372-408 | a path starts at the target, goes each time to the other candidate slot of the key there, and only its last slot is empty |
| `Cuckoo.NoPath` | index/cuckoo_hash.h:403-405 | the result is empty if and only if none of the first kCuckooThreshold slots of the walk is empty |
| `Cuckoo.PathDistinct` | index/cuckoo_hash.h:372-408 | the slots of a path are pairwise different |
| `Cuckoo.ShiftStored` | index/cuckoo_hash.h:432-470 | displacing along a path adds exactly the new pair to the live pairs |
| `Cuckoo.ShiftInPlace` | index/cuckoo_hash.h:432-470 | it keeps every key in one of its two candidate slots |
| `Cuckoo.ChosenIff` | index/cuckoo_hash.h:189-191 | there is a path to displace along if and only if the walk from a candidate slot meets a free slot among its first 512 |
| `Cuckoo.ChosenShortest` | index/cuckoo_hash.h:192-197 | the path taken is no longer than any walk from a candidate slot to a free slot |
| `Cuckoo.SettledFree` | index/cuckoo_hash.h:95-129 | a free candidate slot is taken without displacing a pair, the first one if both are free |
| `Cuckoo.SettledBag` | index/cuckoo_hash.h:189-237 | a pair that fits is added and every key stays in a candidate slot; one that does not fit changes nothing |
| `Cuckoo.RefilledBag` | index/cuckoo_hash.h:665-682 | the new table of a resize holds exactly the pairs moved so far |
| `Cuckoo.JammedIff` | index/cuckoo_hash.h:665-682 | moving the pairs fails if and only if one of them does not fit into the table made of those before it |
| `Cuckoo.SpreadFills` | index/cuckoo_hash.h:665-682 | pairs with pairwise different first slots at the new capacity all fit, each in its first slot |
| `Cuckoo.GrownIff` | index/cuckoo_hash.h:655-698 | a resize fails if and only if the pairs fit at none of the 128 capacities, and otherwise gives the table of the first one |
| `Cuckoo.InsertedChain` | index/cuckoo_hash.h:87-249 | the tables that an insert goes through: the pair fits into none but the last, and each is the first growth of the one before |
| `Cuckoo.InsertedStable` | index/cuckoo_hash.h:87-249 | how an insert ends does not depend on the bound on its passes once they suffice |
| `Cuckoo.SpreadSettles` | index/cuckoo_hash.h:75-250 | an insert ends after at most one resize if the stored keys and the new one have pairwise different first slots at the next capacity |
| `CuckooTable.CuckooHash.FindPath` | index/cuckoo_hash.h:372-408 | the loop returns the walk's path with the keys seen, and its exit for a misplaced key is unreachable |
| `CuckooTable.CuckooHash.ExecutePath` | index/cuckoo_hash.h:462-470 | the backward copy gives the table in which every pair of the path has moved on by one slot |
| `CuckooTable.CuckooHash.ExecutePushed` | index/cuckoo_hash.h:432-445 | the chain of two buffers gives the same table |
| `CuckooTable.CuckooHash.constructor` | index/cuckoo_hash.h:30-35 | a new table has the given capacity and no pair |
| `CuckooTable.CuckooHash.Displace` | index/cuckoo_hash.h:189-237 | with both candidate slots occupied the pair is displaced in along the chosen path, or there is none and nothing changes |
| `CuckooTable.CuckooHash.Push` | index/cuckoo_hash.h:305-320 | the same in a resize, with the two buffers, and the second path when both are equally long |
| `CuckooTable.CuckooHash.Insert4resize` | index/cuckoo_hash.h:253-325 | true if and only if the walk from one of the two candidate slots meets a free slot among its first 512 (`Fits`); then exactly the pair was added, along the chosen path, and otherwise nothing changed |
| `CuckooTable.CuckooHash.Attempt` | index/cuckoo_hash.h:655-682 | the new capacity is 6/5 of the old one rounded down; success moves exactly the old pairs; failure happens only at a pair that does not fit into the table made of the pairs before it; pairs with pairwise different first slots always succeed |
| `CuckooTable.CuckooHash.Resize` | index/cuckoo_hash.h:640-698 | it ends at the first of at most 128 growths at which every pair fits, with the pairs kept, and fails if and only if there is none |
| `CuckooTable.CuckooHash.InsertPass` | index/cuckoo_hash.h:87-249 | a pass stores its pair if and only if it fits; otherwise it resizes and keeps the pairs, or exits, and exits only when the pairs fit at none of 128 capacities |
| `CuckooTable.CuckooHash.Insert` | index/cuckoo_hash.h:75-250 | the passes end as `InsertedChain` says: stored in the first table that the pair fits into, exit at the first one that cannot be grown, or passes used up; an insert that returns adds exactly its pair, and one that fits at once returns; it never returns when two other keys with both its hash values are stored |
| `CuckooTable.CuckooHash.Update` | index/cuckoo_hash.h:473-525 | one pair of the key gets the value, if there is one |
| `CuckooTable.CuckooHash.Delete` | index/cuckoo_hash.h:530-582 | one pair of the key is removed, if there is one |
| `CuckooTable.CuckooHash.Get` | index/cuckoo_hash.h:585-621 | the value is that of a stored pair of the key, or NONE if there is none |
| `CuckooTable.CuckooHash.Run` | index/cuckoo_hash.h:75-621 | the class answers every run with fresh inserts like a finite map, and stops only at an insert whose passes run out or that exits |
| `CuckooTable.NotCrowded` | index/cuckoo_hash.h:87-249 | a table to which a pair was added cannot have held two other keys with both its hash values |
| `CuckooTable.KeyAtCandidate` | index/cuckoo_hash.h:492-522 | a stored key is in one of its two candidate slots |
| `CuckooTable.ThreeKeysDoNotFit` | index/cuckoo_hash.h:91-92 | three keys that share both hash values are never stored together |
| `LinearProbing.ProbeCoversIff` | index/linear_probing.h:89-119 | the probe of hash h reaches every slot if and only if it does not wrap at 2^64 or the capacity divides 2^64 |
| `LinearProbing.UsableIff` | index/linear_probing.h:150-151 | a statement about coverage: the usable capacities are exactly those at which every key's probe reaches every slot |
| `LinearProbing.UnusableLoses` | index/linear_probing.h:213-226 | a statement about slot arrays, reachable or not: at any other capacity one of them holds a key that the scan never meets |
| `LinearProbing.ThreeSlotsMissOne` | index/linear_probing.h:91-91 | at capacity 3 the largest hash value never reaches slot 2 |
| `LinearProbing.SeenStored` | index/linear_probing.h:150-166 | a key that a scan finds is stored; at a usable capacity every stored key is found |
| `LinearProbing.SeenIff` | index/linear_probing.h:150-166 | a scan finds its key if and only if one of its probe steps meets it |
| `LinearProbing.RehashedBag` | index/linear_probing.h:263-279 | a resize to any larger capacity moves every pair; getLocation never fails |
| `LinearProbing.GrownSized` | index/linear_probing.h:88-127 | after at most one doubling the size is below the threshold and a slot is free, although deletes never lower the size |
| `LinearProbing.InsertedBag` | index/linear_probing.h:75-136 | an insert that returns adds exactly its pair, one that does not changes no pair, and at a usable capacity it returns |
| `LinearProbing.InsertedIff` | index/linear_probing.h:87-135 | an insert returns if and only if a probe step meets a free slot, after the doubling that is due from 95 percent on |
| `LinearProbing.UsableWorks` | index/linear_probing.h:75-227 | at usable capacities every operation returns and looks at its key |
| `LinearProbing.ThirdInsertHangs` | index/linear_probing.h:87-135 | the slots of a three-slot table through two inserts and a third one that meets no free slot |
| `LinearProbing.SixthInsertLoses` | index/linear_probing.h:230-293 | the sixth insert into a five-slot table moves a stored key to a slot that its probe never looks at |
| `LinearProbingTable.HangingRun` | index/linear_probing.h:87-135 | a run of the class from a new table whose third insert never returns, below the threshold and with a free slot |
| `LinearProbingTable.LosingRun` | index/linear_probing.h:201-227 | a run of the class from a new table in which six inserts return and a lookup of a stored key yields NONE |
| `LinearProbingTable.LinearProbingHash.ProbeStripe` | index/linear_probing.h:91-119 | one stripe is scanned under the lock that covers every slot it looks at, up to the first free slot |
| `LinearProbingTable.LinearProbingHash.ProbeAndWrite` | index/linear_probing.h:88-120 | the striped probe stores the pair in the first free slot of the unstriped one, or meets none and changes nothing |
| `LinearProbingTable.LinearProbingHash.Insert` | index/linear_probing.h:75-136 | the retry loop gives the outcome of the value-level insert, at any capacity; it resizes once if the size is at the threshold and not at all otherwise |
| `LinearProbingTable.LinearProbingHash.GetLocation` | index/linear_probing.h:230-251 | -1 if and only if no slot is free; otherwise the first free slot in cyclic order |
| `LinearProbingTable.LinearProbingHash.Rehash` | index/linear_probing.h:264-279 | the new array is the old one rehashed in slot order; getLocation never fails |
| `LinearProbingTable.LinearProbingHash.Resize` | index/linear_probing.h:254-293 | the contents and the size counter are kept |
| `LinearProbingTable.LinearProbingHash.Update` | index/linear_probing.h:139-167 | the interface's update if and only if its key is seen or not stored; otherwise nothing changes |
| `LinearProbingTable.LinearProbingHash.Delete` | index/linear_probing.h:170-198 | the interface's delete under the same condition; the size counter still bounds the pairs from above |
| `LinearProbingTable.LinearProbingHash.Get` | index/linear_probing.h:201-227 | the value of a stored pair of the key, or NONE if there is none or none is seen |
| `LinearProbingTable.LinearProbingHash.Run` | index/linear_probing.h:75-227 | if the capacities that the inserts of the run can bring about are usable, the class answers like a finite map |
| `DiscreteLog.Base` | bench/utils.h:9-13 | every base of the table is 5 modulo 8, so (G-1)/4 is odd |
| `DiscreteLog.Bases10To21` | bench/utils.h:9-13 | entries 10 to 21 of the table |
| `DiscreteLog.Bases22To33` | bench/utils.h:9-13 | entries 22 to 33 |
| `DiscreteLog.Bases34To45` | bench/utils.h:9-13 | entries 34 to 45, with the small one at 40 |
| `DiscreteLog.Bases46To55` | bench/utils.h:9-13 | entries 46 to 55 |
| `DiscreteLog.SquareValuation` | bench/utils.h:51-51 | squaring raises the number of factors 2 of the index by exactly one |
| `DiscreteLog.EqualValuation` | bench/utils.h:48-48 | the product of two elements of equal valuation has a higher one |
| `DiscreteLog.IndexValuation` | bench/utils.h:42-42 | G^m - 1 has exactly two more factors 2 than m |
| `DiscreteLog.FullPower` | bench/utils.h:32-33 | G^P is 1 modulo 4P |
| `DiscreteLog.OrderOfG` | bench/utils.h:32-33 | no smaller power is, not even up to an odd factor |
| `DiscreteLog.NextRound` | bench/utils.h:43-52 | a round keeps: 2^i divides up and exactly divides Gpow, G^x (1+4k) is 1+4up, and there are fewer than n rounds before it |
| `DiscreteLog.LastRound` | bench/utils.h:53-53 | when up is 0, P - x is a logarithm |
| `DiscreteLog.DiscreteLog` | bench/utils.h:27-54 | in 64-bit arithmetic the result r is in [1, P] with G^r congruent to 1+4k modulo 4P, after at most n rounds; G is 29 for n = 8, 91733 for n = 38 and 107090317 for n = 53 |
| `DiscreteLog.LogOfEach` | bench/utils.h:15-26 | every k below P has exactly one logarithm in [1, P] |
| `DiscreteLog.EachIsLog` | bench/utils.h:15-26 | every r in [1, P] is the logarithm of exactly one k: a shuffle without collisions |
| `XXHash.StripePhase` | util/hash.h:140-166 | the lanes after all whole stripes, which consume 32 bytes each |
| `XXHash.TailPhase` | util/hash.h:201-224 | words, at most one half word and at most three bytes consume the rest exactly |
| `XXHash.HashCompute` | util/hash.h:134-233 | for every length the phases consume exactly the input, and the result is the hash function |
| `XXHash.FinishInverse` | util/hash.h:226-230 | the finalizer is a bijection on 64-bit words |
| `XXHash.EatWordInverse` | util/hash.h:203-208 | for a fixed hash value the round is a bijection in its input word |
| `XXHash.HashIsPermutation` | util/hash.h:134-242 | for a fixed seed the hash is a bijection between 8-byte keys and 64-bit words |
| `XXHash.HashInjective` | util/hash.h:235-242 | different 8-byte keys have different hashes |
| `XXHash.OneWordDiffers` | util/hash.h:134-233 | inputs of any length that differ in one whole word behind the stripes have different hashes |
| `XXHash.LaneInjective` | util/hash.h:147-165 | a lane of a stripe is injective in its value and in its word |
| `XXHash.StripeWordDiffers` | util/hash.h:147-166 | inputs of any length that differ in one word of a stripe differ in the lane of that word after all stripes |
| `XXHash.ShortInjective` | util/hash.h:211-224 | different keys of one byte, and of four bytes, have different hashes |
| `XXHashValues.HashOfNone` | util/hash.h:134-233 | the hash of the empty input, under seed 0 the published value of XXH64 |
| `XXHashValues.HashOfOneByte` | util/hash.h:219-224 | the hash of the byte 1 under the seed of the tables |
| `XXHashValues.HashOfFourBytes` | util/hash.h:212-217 | the hash of the bytes 1 to 4 |
| `XXHashValues.HashOfEightBytes` | util/hash.h:201-210 | the hash of the bytes 1 to 8 |
| `XXHashValues.HashOfThirtyTwo` | util/hash.h:140-195 | the hash of the bytes 1 to 32: one stripe, the merge of the lanes and the finalizer |
| `Words.RotlInverse` | util/hash.h:101-101 | the shift-and-or rotation by r is undone by the one by 64 - r |
| `Words.XorShiftInverse` | util/hash.h:226-230 | a xor with the own right shift can be undone |
| `KeyGenerator.KeepLowIs` | bench/key_generator.h:57-59 | the pair of shifts keeps the lower bits |
| `KeyGenerator.SameKeyIff` | bench/key_generator.h:51-71 | two ids give the same key if and only if they agree modulo 2^(8 min(size, 8)) |
| `KeyGenerator.DistinctIff` | bench/key_generator.h:51-71 | the keys of consecutive calls are all different if and only if there are at most that many |
| `KeyGenerator.Generator.Next` | bench/key_generator.h:51-71 | behind the prefix and max(size-8, 0) bytes 1, byte m of the key is byte m from the low end of 11400714819323198393 times the id modulo 2^64; the id is then advanced |
| `KeyGenerator.FirstKey` | bench/key_generator.h:51-71 | the first key of eight bytes is B9 7B 4A 7F B9 79 37 9E |
| `KeyGenerator.GoldenRatio` | bench/utils.h:98-107 | the multiplier is odd and 92 below the integer part of 2^64 divided by the golden ratio |
| `WidthExtender.AdvanceIs` | pcm/width_extender.h:157-164 | what a read adds is the number of events since the last raw value, modulo 2^width |
| `WidthExtender.CounterWidthExtender.InternalRead` | pcm/width_extender.h:151-172 | the extended value grows by that amount and is returned |
| `WidthExtender.CounterWidthExtender.constructor` | pcm/width_extender.h:180-183 | both values start at the raw value |
| `WidthExtender.RunInv` | pcm/width_extender.h:151-172 | in every interleaving of readers, watchdog and hardware the extended value accounts for all events but the missed ones |
| `WidthExtender.NothingLost` | pcm/cpucounters.cpp:4803-4813 | no event is missed if and only if every update came less than 2^width events after the one before |
| `WidthExtender.ReadExact` | pcm/width_extender.h:151-172 | a read returns the initial raw value plus the exact number of events modulo 2^64 if nothing was missed, and in general if and only if the missed events are a multiple of 2^64 |
| `WidthExtender.ReadAlone` | pcm/width_extender.h:151-172 | after every run with the mutex free a thread that reads, not disturbed, returns the value it stores, for the events at its sample, and frees the mutex |
| `WidthExtender.LateReadWrong` | pcm/width_extender.h:151-172 | for every width and first value there is a run in which 2^width events pass before a read, and that read is wrong |

## Left out

- CuckooTable.CuckooHash.Insert: bounded by a number of passes that the caller chooses, because an insert of a third key with both hash values equal never ends; how the passes end is exact.
- ExtendibleTable.ExtendibleHash.Insert: reports the shift by -1 of line 145 as a result instead of what undefined behaviour does next.
- ExtendibleTable.Directory.Suspend: as one thread runs it, with no holder; the waiting loop is in DirectorySemaphore.
- ExtendibleTable.ExtendibleHash.Utilization: the percentage is a real number, without the rounding of a double.
- SplitProtocol.NoLostSplit: holds for runs under the two conditions of the findings, which the program does not check.
- LinearProbingTable.LinearProbingHash.Insert: reports a pass that would repeat for ever as a result, since the loop cannot be written as one that does not end.
- LinearProbingTable.LinearProbingHash.Run: usable capacities are sufficient for it, not necessary; at others some runs still answer like a map.
- LinearProbing.UnusableLoses: the array it gives need not be one that inserts and resizes can produce; the runs that fail are HangingRun and LosingRun.
- Operations of the cuckoo and the linear table that race with a resize; their mutexes, resizing_lock and the old-table lookups are not in the model.
- The unlocked reads of the directory pointer at the start of the extendible operations; the segment of a beginning split is found in one step.
- The copying build under concurrency: the concurrent model is the in-place build.
- Fairness: calls of lock, unlock, suspend, read and a split are shown to end for a thread that is not disturbed, not under every schedule.
- Weak memory orders and stale cached values: shared accesses are sequentially consistent, one per step.
- The S_HASH second probe (it scans the same slots again), string keys, and the BREAKDOWN and LATENCY timing.
- Floating point: growth by 1.2 is 6/5 rounded down, the threshold 0.95 is 19/20, log2 and pow are exact; capacities fit in int.
- A directory of depth 0, whose index is a shift by the full word width.
- What a default-constructed pair has as its value (the constructor leaves it unset; the model has 0).
- The hash functions other than xxhash; the tables are proved for every hash function.
- The alignment branches of xxhash, which read the same bytes; byte order is little-endian.
- The random mode of the key generator, and the buffer and counter being shared by all generators of a program: they belong to one object here. A size of 0 is excluded because its shift is by the full word.
- Memory reclamation, FindAnyway, exit on failure, the benchmark driver, the Zipfian and self-similar distributions, and the rest of the performance-counter library.
