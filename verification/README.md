# Dafny model of the node's core data structures and protocols

The node is a proof-of-stake cryptocurrency daemon in C++ with masternodes. This project models the parts of it
that carry the most state or arithmetic and proves, for all inputs and all runs, what they promise:

- the script verification queue, as an interleaving of a master and any number of workers (`CheckQueue`)
- the address manager, its consistency conditions and the audit of them (`AddrMan`, `AddrManCheck`)
- stacks of coin caches over the coin database (`Coins`)
- the cuckoo cache of verified signatures (`Cuckoo`)
- the voting that locks transaction inputs for InstantSend (`InstantSend`)
- the rolling Bloom filter (`RollingBloom`)
- 256-bit arithmetic, the compact target encoding and block trust (`ArithUint256`, `Compact`)
- database transactions and their merging iterator (`DBTransaction`, over `ByteOrder`)
- the block tree with skip pointers and the active chain (`Chain`, over `SkipHeights`)
- Base58 (`Base58`, over `Radix`), compact blocks (`CompactBlocks`), amount compression (`Amounts`)
- votes on governance objects (`Governance`)

Where the source changes state the model does too: classes with the source's fields, arrays that are updated in
place, loops with invariants. Such a method is specified by a function of the old state, and the theorems are
lemmas about that function and the invariants every operation keeps. Hash functions, the clock, random numbers,
signatures, the masternode list, the memory pool and the LevelDB store are parameters.

Some results say where the code does not do what one would expect:

- `InstantSend.QuorumRule` and `InstantSend.LockRule`: the voting is safe, and completed locks are final, exactly when a
  quorum is a majority; the test network's 2 of 4 is not.
- `Coins.View.AddCoin`: the FRESH shortcut is sound exactly when the caller's promise holds; `Coins.BrokenPromiseResurrects`
  shows what a broken promise leads to.
- `ArithUint256.MulAssign`: a number multiplied by itself in place becomes zero.
- `Amounts.MoneyRoundTrip`: an amount survives the 64-bit code exactly when the code fits, which fails for amounts
  near the top of the money range whose last digit is not zero.
- `AddrMan.GoodTimes`: Good_ keeps the conditions on recorded times exactly for positive times (or entries it does not touch).
- `AddrManCheck.CheckOnConsistent`: where ports are not discriminated, Check_ looks entries up under a key Find does not use,
  and accepts a consistent manager exactly when every entry but the first has port 0.
- `CompactBlocks.WalkRule` and `CompactBlocks.SlotNumbersFit`: the walk with its 16-bit offset ends exactly when fewer than 65536
  transactions are prefilled or there are no short ids, and the slot numbers it records are right exactly for blocks of
  up to 65536 transactions.
- `Governance.RateRule` and `Governance.RunRule`: with rate checks on, the records are those of all votes seen exactly when every
  suppressed vote is made good by one that is heard; `Governance.RateChecksDisagree` shows two nodes that differ.

Three comments of the source differ from its code, and the model follows the code. SpendCoin is documented to have no
effect for an outpoint without an unspent coin; for an entry the cache already knows to be spent it returns true and
rewrites or erases the entry, though the coin set stays the same. The comment in the cuckoo cache's insert says that
the first displacement uses the first location; the code takes the second. The block locator calls the skip list
O(log n); the longest walk is of the order of log n squared (`SkipHeights.NotLogarithmic`), though the figure given beside the
skip heights, 110 steps for 2^18 blocks, is exact (`SkipHeights.SimulatedFigure`).

## Model

| member | source | states |
|---|---|---|
| CheckQueue.WaitVerdicts | src/checkqueue.h:69-161 | in every interleaving nTodo is the queued checks plus those in unfinished batches, and Wait returns true exactly when all checks of its round pass; the rounds partition the checks added |
| CheckQueue.ChecksAreNeverLost | src/checkqueue.h:69-161 | every check added in the current round is, with multiplicity, queued, in one unfinished batch or done |
| CheckQueue.NoStaleBatch | src/checkqueue.h:69-161 | when Wait returns no thread holds a batch, the queue is empty and the flags are reset, so no result reaches the next round |
| CheckQueue.SleepingMasterHasAWorker | src/checkqueue.h:96-105 | a sleeping master that has not been notified has a worker holding an unfinished batch |
| CheckQueue.WaitIsNeverStuck | src/checkqueue.h:69-137 | while the master is inside Wait some thread can move without a spurious wake-up |
| CheckQueue.StepLowersMeasure | src/checkqueue.h:69-137 | every step inside Wait that is not a spurious wake-up lowers a measure of the work left |
| CheckQueue.WaitReturnsInTime | src/checkqueue.h:69-144 | a run inside Wait is bounded by that measure plus twice its spurious wake-ups |
| CheckQueue.StepKeepsInv | src/checkqueue.h:69-161 | every step of every thread keeps the queue's invariant: counters, verdicts, no forgotten master, and no lost wake-up of the workers |
| CheckQueue.WorkersHelp | src/checkqueue.h:69-161 | in every run, while checks are queued and there are workers, some worker can move without a spurious wake-up |
| CheckQueue.AddNotifies | src/checkqueue.h:147-161 | Add wakes all waiting workers for two checks or more, exactly one (if any waits) for one, and touches nobody else |
| CheckQueue.LastWorkerWakesMaster | src/checkqueue.h:81-87 | a sleeping master is woken exactly by the batch that leaves nothing to do |
| CheckQueue.StepConserves | src/checkqueue.h:69-161 | every step conserves any weight of checks between added, queued, in flight and done |
| CheckQueue.RunRounds | src/checkqueue.h:140-161 | the rounds observed by Wait and the open round together are the checks added, in order |
| CheckQueue.BatchSize | src/checkqueue.h:105-111 | a batch takes at least one and no more than all queued checks, and respects the configured maximum |
| CheckQueue.BatchShare | src/checkqueue.h:105-111 | it is the largest number with batch * (nTotal + nIdle + 1) <= queued, up to that maximum and down to one |
| CheckQueue.BatchIsTail | src/checkqueue.h:105-121 | the batch is the end of the queue, last check first, and the rest of the queue stays |
| AddrMan.TriedBucket | src/addrman.cpp:12-17 | a tried bucket number is in range for any hash |
| AddrMan.NewBucket | src/addrman.cpp:19-25 | a new bucket number is in range for any hash |
| AddrMan.Position | src/addrman.cpp:27-31 | a position is inside its bucket for any hash |
| AddrMan.Manager.constructor | src/addrman.h:457-482 | a fresh manager satisfies all conditions |
| AddrMan.Manager.Find | src/addrman.cpp:68-84 | finds an entry exactly when one has the address under its port-normalised key |
| AddrMan.FindComplete | src/addrman.cpp:68-84 | there is only one such entry, and Find returns it |
| AddrMan.Manager.Create | src/addrman.cpp:86-101 | an unknown address becomes an entry without a slot, all other conditions kept |
| AddrMan.Manager.SwapRandom | src/addrman.cpp:103-121 | its asserts hold and vRandom stays a bijection with nRandomPos |
| AddrMan.Manager.Delete | src/addrman.cpp:123-140 | its asserts hold and an unreferenced entry disappears from all indexes |
| AddrMan.Manager.ClearNew | src/addrman.cpp:142-155 | the slot is emptied, its occupant loses a reference and is deleted with the last one |
| AddrMan.ClearKeeps | src/addrman.cpp:142-155 | exactly one slot and one entry change, and consistency is kept |
| AddrMan.Manager.MakeTried | src/addrman.cpp:157-203 | all its asserts hold and consistency is kept |
| AddrMan.EvictKeeps | src/addrman.cpp:171-195 | an evicted entry is a new entry again with exactly one slot, which its previous occupant has lost |
| AddrMan.MakeTriedKeeps | src/addrman.cpp:157-203 | promotion moves the entry into its tried slot, out of every new slot, and changes nothing else but the evicted entry and the one it displaces |
| AddrMan.Manager.MarkGood | src/addrman.cpp:205-255 | consistency is kept and the search for a new bucket always succeeds |
| AddrMan.Manager.FindNewBucket | src/addrman.cpp:233-252 | the "something bad happened" exit is unreachable |
| AddrMan.GoodTimes | src/addrman.cpp:205-255 | the conditions on recorded times survive exactly for a positive time or an entry that is not touched |
| AddrMan.GoodPromotes | src/addrman.cpp:205-255 | an entry of exactly this service has the success on record and sits in its tried slot afterwards; beyond that only the promotion changes anything |
| AddrMan.TerribleMeans | src/addrman.cpp:33-51 | when an entry is terrible, in seconds and attempts |
| AddrMan.FailureCountsOnce | src/addrman.cpp:330-350 | between two successes of any peer at most one failure of an entry is counted |
| AddrMan.Manager.Add | src/addrman.cpp:257-328 | consistency is kept; the result says whether a routable unknown address arrived; the state is the one of the next rows |
| AddrMan.AddStores | src/addrman.cpp:293-326 | an unknown routable address is stored, with one reference in its new slot, exactly if that slot is free, held by a terrible entry or by one with other references; Find then knows it, the occupant loses a reference, and no other entry changes; otherwise the entries stay |
| AddrMan.AddRefreshes | src/addrman.cpp:271-326 | a known address gets the newer time, less the penalty, and the union of services, and gains the slot of this source exactly under the conditions of Add_ |
| AddrMan.OfferKeeps | src/addrman.cpp:300-326 | which slot changes hands in Add_, to whom, and who is deleted |
| AddrMan.AddKeeps | src/addrman.cpp:257-328 | Add_ keeps consistency whatever the address, source, time penalty and random outcome, and does nothing for an address that is not routable |
| AddrMan.AddTimes | src/addrman.cpp:257-328 | Add_ keeps the conditions on recorded times |
| AddrMan.Manager.Attempt | src/addrman.cpp:330-350 | only the stamps of the entry with exactly this service change |
| AddrMan.StochasticTest | src/addrman.cpp:293-298 | with N references one in 2^N random numbers passes |
| AddrMan.Manager.Connected | src/addrman.cpp:498-516 | only the time of the entry with exactly this service changes |
| AddrMan.SeenMeans | src/addrman.cpp:512-516 | a connection moves the time forward by more than twenty minutes or not at all |
| AddrMan.Manager.SetServices | src/addrman.cpp:518-534 | only the services of the entry with exactly this service change |
| AddrMan.Manager.GetAddr | src/addrman.cpp:477-496 | distinct, non-terrible entries, at most the limit, all of them if fewer; shuffling keeps every index |
| AddrMan.NodesToReturn | src/addrman.cpp:479-481 | 23 percent of the entries, rounded down, but no more than 2500 |
| AddrMan.Run | src/addrman.cpp:86-350 | from a fresh manager every sequence of operations keeps the six structures consistent, so that vRandom has nTried + nNew places; with positive times the recorded times stay in order |
| AddrMan.CountsAddUp | src/addrman.cpp:405-406 | in a consistent manager vRandom has one place for each tried and each new entry |
| AddrManCheck.Check | src/addrman.cpp:400-474 | Check_: zero exactly when none of its complaints applies, otherwise a code whose complaint does apply; looking keys up adds to mapAddr only services of entries, under 0 |
| AddrManCheck.CheckEntries | src/addrman.cpp:408-434 | the loop over mapInfo: the tried ids and the reference counts collected, or the code of a fault of some entry |
| AddrManCheck.CheckTried | src/addrman.cpp:441-453 | the loop over vvTried: ids are struck off once each, in their own slots |
| AddrManCheck.CheckNew | src/addrman.cpp:455-466 | the loop over vvNew: references are counted down, at the positions the hashes give |
| AddrManCheck.CheckMeans | src/addrman.cpp:400-474 | where ids are in range and mapAddr has no stray key, finding nothing wrong is equivalent to the structures being consistent, the times in order, the key set and every look-up agreeing with Find |
| AddrManCheck.CheckOnConsistent | src/addrman.cpp:424-425 | Check_ accepts a consistent manager with good times exactly when every entry but number 0 is its own look-up key, which always holds when ports are discriminated |
| AddrManCheck.ConsistentButRefused | src/addrman.cpp:424-425 | a consistent manager that Check_ refuses with code -5 |
| AddrManCheck.RunAndCheck | src/addrman.h:496-506 | after any run the audit answers zero exactly under that condition; with positive times and ports discriminated, always |
| Coins.View.FetchCoin | src/coins.cpp:44-59 | caches the entry exactly if some view has it; no view's coins change |
| Coins.View.GetCoin | src/coins.cpp:61-68 | returns exactly the unspent coin of the coin set |
| Coins.View.AddCoin | src/coins.cpp:70-100 | throws exactly on a cached unspent coin it may not overwrite; otherwise the view stays valid exactly when the caller's promise holds, and then the coin set gains the coin |
| Coins.AddKeepsFlags | src/coins.cpp:70-100 | the meaning of DIRTY and FRESH is kept if and only if the caller's promise holds below the cache |
| Coins.BrokenPromiseResurrects | src/coins.cpp:70-116 | with a broken promise a coin that is added and spent comes back from below |
| Coins.View.SpendCoin | src/coins.cpp:102-116 | the coin set loses the coin, whichever branch is taken, and the old coin is moved out |
| Coins.View.AccessCoin | src/coins.cpp:120-127 | the coin, or a spent one if there is none |
| Coins.View.HaveCoin | src/coins.cpp:129-132 | true exactly for an unspent coin |
| Coins.View.HaveCoinInCache | src/coins.cpp:134-137 | never a wrong yes |
| Coins.View.BatchWrite | src/coins.cpp:149-203 | this view takes over what the child shows, in any order of entries |
| Coins.WriteEntryKeeps | src/coins.cpp:149-203 | one entry: "FRESH flag misapplied" is not reached, the parent's flags stay meaningful, the coin set is assigned |
| Coins.View.WriteOneToDatabase | src/txdb.cpp:77-100 | the database takes a dirty entry and already has a clean one |
| Coins.View.Flush | src/coins.cpp:205-210 | the view below shows what this one showed, and nothing else moved |
| Coins.View.Uncache | src/coins.cpp:212-219 | only an unmodified entry goes, and no coin set changes |
| Coins.RunStack | src/coins.cpp:44-219 | every legal run over any stack of caches reads and leaves what a stack of plain maps would |
| Cuckoo.Locs | src/cuckoocache.h:212-227 | eight slots inside the table, for any hash |
| Cuckoo.Cache.constructor | src/cuckoocache.h:315-331 | an empty table keeps nothing |
| Cuckoo.Cache.EpochCheck | src/cuckoocache.h:264-296 | the two scanning loops compute the aged state |
| Cuckoo.EpochEffect | src/cuckoocache.h:264-296 | unless the counter is spent and the epoch full nothing kept changes; then every kept entry of the current epoch stays, as an old one, and exactly the old ones go |
| Cuckoo.EpochKeeps | src/cuckoocache.h:264-296 | afterwards there is room for one more entry of the current epoch within the bound, and after a scan the next waits until the epoch can be full |
| Cuckoo.Cache.Insert | src/cuckoocache.h:368-416 | compared with the state before the call: what survives the epoch check is kept, the element joins the current epoch, at most one other entry is lost, and every weight is conserved |
| Cuckoo.InsertCopies | src/cuckoocache.h:359-367 | in numbers of copies, while the epoch does not change |
| Cuckoo.NextLoc | src/cuckoocache.h:392-407 | with distinct slots the displacement never moves the element just put in |
| Cuckoo.KeepHit | src/cuckoocache.h:375-382 | an element that is present joins the current epoch and nothing is lost |
| Cuckoo.ExchangeConserves | src/cuckoocache.h:392-414 | a displacement conserves table and element in hand |
| Cuckoo.DropHeld | src/cuckoocache.h:383-415 | at the depth limit exactly the element in hand is lost |
| Cuckoo.Cache.Contains | src/cuckoocache.h:443-453 | found exactly when the element is in the table; erasing marks its slot only |
| Cuckoo.HitIsMembership | src/cuckoocache.h:443-453 | looking at eight slots is looking everywhere |
| Cuckoo.Cache.InsertThenErase | src/cuckoocache.h:418-442 | an element erased right after insertion is still found |
| Cuckoo.ValidMeans | src/cuckoocache.h:264-453 | a kept element is found and kept once, and the current epoch is within its bound |
| Cuckoo.Run | src/cuckoocache.h:264-453 | over every run of inserts and erasures the current epoch never exceeds epoch_size + max(1, epoch_size / 16) |
| Cuckoo.BitPackedFlags.BitSet | src/cuckoocache.h:92-95 | sets this flag and no other of its byte |
| Cuckoo.BitPackedFlags.BitUnset | src/cuckoocache.h:103-106 | clears this flag and no other |
| Cuckoo.BitPackedFlags.BitIsSet | src/cuckoocache.h:113-116 | reads the flag |
| InstantSend.NeverBothReady | src/instantx.cpp:1196-1239 | two stored candidates that share an input are never both ready |
| InstantSend.TwoQuorumsAreAttacked | src/instantx.cpp:445-481 | two quorums on one outpoint have a common voter, and both candidates are marked |
| InstantSend.QuorumRule | src/instantx.cpp:322-481 | over all runs the voting is safe if and only if 2 * required > total |
| InstantSend.NetworkQuorums | src/chainparams.cpp:214-762 | with the parameters 6 of 10 and 3 of 5 the voting is safe and locks are final, with 2 of 4 neither |
| InstantSend.MinorityIsUnsafe | src/instantx.cpp:322-481 | a run with two disjoint quorums makes both contenders ready |
| InstantSend.LocksAreFinal | src/instantx.cpp:498-603 | with a majority quorum a completed lock is never lost or transferred by any continuation |
| InstantSend.LockRule | src/instantx.cpp:498-738 | over all runs completed locks are final if and only if 2 * required > total |
| InstantSend.MinorityLosesLocks | src/instantx.cpp:572-603 | without a majority a second, disjoint quorum undoes a completed lock |
| InstantSend.NoLockConflict | src/instantx.cpp:572-617 | with a majority quorum a ready candidate never meets a completed lock of another transaction |
| InstantSend.FinalizeLocksAllInputs | src/instantx.cpp:498-561 | with nothing in its way a ready candidate gets all its inputs |
| InstantSend.StepKeeps | src/instantx.cpp:57-603 | with a majority quorum every request and vote keeps the invariant, and locks only grow |
| InstantSend.CountedKeeps | src/instantx.cpp:322-481 | counting a vote keeps eligibility, the voted-outpoint index and the marks of equivocation |
| InstantSend.ReplayKeeps | src/instantx.cpp:404-496 | so does the replay of orphan votes in any order |
| InstantSend.ReplayCounts | src/instantx.cpp:483-496 | the replay, in any order, adds exactly the masternodes of the orphan votes on the open outpoints |
| InstantSend.EarlyVotesCount | src/instantx.cpp:143-150 | a request in time has every vote that waited for it counted, and the vote no longer waits |
| InstantSend.VotersAreVotes | src/instantx.cpp:57-496 | in a run without late events the voters on an input are the eligible masternodes whose votes have arrived, before or after the request |
| InstantSend.OrderOfVotes | src/instantx.cpp:57-496 | so the order of requests and votes does not matter |
| InstantSend.TooLate | src/instantx.cpp:177-186 | a vote for a candidate that has timed out, or its first request, changes no votes and no locks |
| InstantSend.StepCompletes | src/instantx.cpp:98-402 | a lock completes with the request or vote that makes its candidate ready, unless mempool or chain stand in the way |
| InstantSend.CleanUpEffect | src/instantx.cpp:662-738 | exactly the expired candidates go, and the locks they have a claim to |
| InstantSend.Manager.UpdateVotedOutpoints | src/instantx.cpp:445-481 | all candidates the masternode voted for on this outpoint, and this one, are marked; the vote is indexed |
| InstantSend.Manager.CountVote | src/instantx.cpp:370-443 | index, mark and add, in the source's order |
| InstantSend.Manager.CreateTxLockCandidate | src/instantx.cpp:156-192 | creates or completes the candidate with a lock for each input, unless it is timed out |
| InstantSend.Manager.ProcessVote | src/instantx.cpp:322-402 | unknown, orphan, repeated and counted votes, for any parameters; keeps the invariant with a majority quorum |
| InstantSend.Manager.ProcessOrphanTxLockVotes | src/instantx.cpp:483-496 | replays the votes one by one |
| InstantSend.Manager.TryToFinalizeLockCandidate | src/instantx.cpp:498-561 | a ready candidate locks its inputs when nothing is in its way, and loses them when another completed lock is |
| InstantSend.Manager.ResolveConflicts | src/instantx.cpp:572-646 | true exactly when no input meets a lock or a memory pool transaction of another and the coins or the transaction are there; a completed lock of another costs both their candidates |
| InstantSend.Manager.CheckAndRemove | src/instantx.cpp:662-738 | expired candidates go, with the locks and the index entries of their outpoints, and timed-out orphan votes |
| InstantSend.Manager.LockTransactionInputs | src/instantx.cpp:547-561 | locks each input that is not locked yet |
| InstantSend.Manager.ProcessTxLockRequest | src/instantx.cpp:98-154 | creation, replay of waiting votes and finalisation, for any parameters; keeps the invariant with a majority quorum |
| RollingBloom.FastMod | src/bloom.cpp:335-340 | the position x * n / 2^32, rounded down, inside the table |
| RollingBloom.WipeBit | src/bloom.cpp:350-359 | the masked wipe clears a cell exactly when it carries the recycled generation |
| RollingBloom.Relabel | src/bloom.cpp:363-370 | writing a cell sets its two bits to the generation and touches no other cell |
| RollingBloom.Rotated | src/bloom.cpp:344-360 | a rotation forgets the oldest of three generations and nothing else |
| RollingBloom.Marked | src/bloom.cpp:361-371 | after an insertion every cell carries the youngest generation with a key that selects it |
| RollingBloom.Filter.constructor | src/bloom.cpp:301-328 | an empty filter of any size; a generation holds half the elements, rounded up |
| RollingBloom.Filter.Reset | src/bloom.cpp:399-407 | an empty filter |
| RollingBloom.Filter.Insert | src/bloom.cpp:342-371 | keeps the exact meaning of all cells and appends the key to the log |
| RollingBloom.Filter.Contains | src/bloom.cpp:379-391 | true exactly when every cell is selected by a remembered key; always true for the last 2 * nEntriesPerGeneration keys |
| ArithUint256.AddAssign | src/arith_uint256.h:135-145 | addition modulo 2^(32 n), also with itself |
| ArithUint256.Complement | src/arith_uint256.h:69-75 | 2^(32 n) - 1 - a |
| ArithUint256.Increment | src/arith_uint256.h:173-180 | addition of one modulo 2^(32 n) |
| ArithUint256.Negate | src/arith_uint256.h:77-84 | negation modulo 2^(32 n) |
| ArithUint256.SubAssign | src/arith_uint256.h:147-151 | subtraction modulo 2^(32 n) |
| ArithUint256.ShiftLeftAssign | src/arith_uint256.cpp:21-36 | multiplication by 2^shift modulo 2^(32 n), for every shift |
| ArithUint256.ShiftRightAssign | src/arith_uint256.cpp:38-53 | division by 2^shift, for every shift |
| ArithUint256.MulAssign | src/arith_uint256.cpp:67-82 | the product modulo 2^(32 n); zero when a number is multiplied by itself in place |
| ArithUint256.CompareTo | src/arith_uint256.cpp:109-119 | the order of the values |
| ArithUint256.BitLength | src/arith_uint256.cpp:171-184 | 2^(bits - 1) <= value < 2^bits |
| ArithUint256.DivAssign | src/arith_uint256.cpp:84-107 | the floor quotient for every nonzero divisor, also by itself; a zero divisor fails and leaves zero |
| Compact.SetCompact | src/arith_uint256.cpp:204-222 | overflow exactly when mantissa * 256^(size - 3) does not fit in 256 bits, negative exactly for a nonzero meaning with the sign bit; the value otherwise, rounded down |
| Compact.OverflowTest | src/arith_uint256.cpp:217-220 | the three-way test on size and mantissa is that condition |
| Compact.GetCompact | src/arith_uint256.cpp:224-245 | the asserts hold; the size is the least that leaves the sign bit free and the mantissa the leading bytes |
| Compact.RoundTrip | src/arith_uint256.cpp:204-245 | decoding an encoding gives the number cut to its leading bytes, keeps the sign, does not overflow, and encodes to the same word |
| Compact.GetBlockTrust | src/chain.cpp:136-149 | floor(2^256 / (target + 1)) for proof of stake, 1 otherwise, 0 for an invalid target |
| Compact.TargetNotFull | src/chain.cpp:141-148 | target + 1 never wraps around |
| ByteOrder.LessMeans | src/dbwrapper.h:556-562 | the first differing byte decides, and a proper prefix comes first |
| ByteOrder.LessTransitive | src/dbwrapper.h:556-562 | the key order is transitive |
| ByteOrder.LessTotal | src/dbwrapper.h:556-562 | the key order is total |
| ByteOrder.MergeSorted | src/dbwrapper.h:528-543 | taking the smaller head each time gives one ascending list without repetition |
| DBTransaction.Layer.Write | src/dbwrapper.h:609-623 | the content seen gains the value; writes and deletes stay disjoint and memoryUsage their summed sizes |
| DBTransaction.Layer.Erase | src/dbwrapper.h:670-680 | the content seen loses the key, with the same invariants |
| DBTransaction.WriteBalanced | src/dbwrapper.h:609-623 | the incremental accounting of Write is the sum over the state |
| DBTransaction.EraseBalanced | src/dbwrapper.h:670-680 | so is that of Erase |
| DBTransaction.Layer.Read | src/dbwrapper.h:630-647 | missing exactly when absent from the overlay; the exception exactly for an uncommitted value of another type; the right value otherwise |
| DBTransaction.Layer.Exists | src/dbwrapper.h:654-664 | membership in the overlay |
| DBTransaction.Layer.Clear | src/dbwrapper.h:682-686 | the parent's content shows again |
| DBTransaction.Layer.Commit | src/dbwrapper.h:688-696 | into the parent: its content becomes the overlay, in any order of keys; nothing is left to commit |
| DBTransaction.CommitToBatch | src/dbwrapper.h:688-696 | into a batch: on whatever content it is applied, the batch has the transaction's effect after its own |
| DBTransaction.CommitRoot | src/evo/evodb.cpp:17-24 | committed to a batch and the batch written, the store below shows what the transaction showed |
| DBTransaction.MergedKeys | src/dbwrapper.h:422-441 | the keys after a seek: those of the overlay from the given one on, ascending |
| DBTransaction.TransactionIterator.SkipDeletedAndOverwritten | src/dbwrapper.h:522-530 | does not change the keys still to visit |
| DBTransaction.TransactionIterator.Seek | src/dbwrapper.h:434-439 | every overlay key not before the given one remains, once, in byte order |
| DBTransaction.TransactionIterator.SeekToFirst | src/dbwrapper.h:422-427 | every overlay key remains, once, in byte order |
| DBTransaction.TransactionIterator.Next | src/dbwrapper.h:445-458 | its asserts hold; moves past exactly the first remaining key |
| DBTransaction.TransactionIterator.GetKey | src/dbwrapper.h:486-495 | the first remaining key |
| DBTransaction.TransactionIterator.GetValue | src/dbwrapper.h:508-518 | the value Read gives for it |
| DBTransaction.Collect | src/dbwrapper.h:422-518 | a whole iteration lists the overlay's keys from the start key on, with their values |
| DBTransaction.Stacks | src/dbwrapper.h:404-418 | a transaction's iterator behaves as the parent iterator another transaction expects |
| SkipHeights.InvertsLowest | src/chain.cpp:69-70 | clears the lowest set bit and nothing else |
| SkipHeights.GetSkipHeight | src/chain.cpp:72-82 | strictly below every height from one on |
| SkipHeights.WalkBound | src/chain.cpp:84-107 | between heights of n >= 9 bits the walk takes at most floor(n * n / 4) + 2 n - 7 steps |
| SkipHeights.WalkReached | src/chain.cpp:84-107 | from 2^n - 8 down to height 2 it takes exactly that many |
| SkipHeights.OnesWalk | src/chain.cpp:84-107 | from the last height of an aligned block of 2^n heights to any height of it the walk takes at most AllOnes(n) steps |
| SkipHeights.AllOnesClosed | src/chain.cpp:84-107 | which is floor((n + 1)^2 / 4) + n - 3 for n >= 3 |
| SkipHeights.SimulatedFigure | src/chain.cpp:77-79 | 110 steps is exactly the most it takes below 2^18 |
| SkipHeights.NotLogarithmic | src/chain.cpp:41-42 | no multiple of the number of bits bounds the walk |
| Chain.BlockIndex.constructor | src/chain.cpp:130-134 | the new block's height and skip pointer fit its ancestry |
| Chain.BlockIndex.GetAncestor | src/chain.cpp:84-107 | the skip walk ends at exactly the block nHeight - h previous-block steps back, null outside the range, within the bound on its steps |
| Chain.ActiveChain.SetTip | src/chain.cpp:11-21 | after the early stop the vector holds the tip's ancestor at every height, whatever chain was there before |
| Chain.ActiveChain.ContainsIsAncestor | src/chain.h:560-570 | to be contained is to be the tip's ancestor; the next block's previous one is this one |
| Chain.ActiveChain.FindFork | src/chain.cpp:51-60 | the highest chain block among the argument's ancestors, or null if there is none |
| Chain.ActiveChain.GetLocator | src/chain.cpp:23-49 | the start's ancestors at the locator heights, by either way of stepping back |
| Chain.HeightsDescend | src/chain.cpp:23-49 | locator heights descend strictly from the start to the genesis block |
| Chain.HeightsStart | src/chain.cpp:23-49 | the first twelve are consecutive |
| Chain.HeightsGaps | src/chain.cpp:23-49 | from the twelfth on each gap is twice the one before, until it would reach below the genesis block |
| Chain.LocatorSize | src/chain.cpp:23-49 | a block less than 10 + 2^k high has a locator of at most 11 + k blocks |
| Chain.LastCommonAncestor | src/chain.cpp:168-184 | the highest common ancestor, or null; its assert holds |
| Base58.EncodeFits | src/base58.cpp:80-82 | n * 138 / 100 + 1 base-58 digits hold n bytes, for every n |
| Base58.DecodeFits | src/base58.cpp:33-34 | n * 733 / 1000 + 1 bytes hold n base-58 digits, for every n |
| Base58.MulAdd | src/base58.cpp:41-50 | the carry ends at zero and the buffer holds factor * value + digit |
| Base58.EncodeBase58 | src/base58.cpp:71-109 | one '1' per leading zero byte, then the number in base 58 |
| Base58.DecodeBase58 | src/base58.cpp:21-69 | the bytes of a single word of the alphabet between spaces; fails on anything else |
| Base58.DecodeEncoded | src/base58.cpp:21-109 | every byte string comes back from its encoding, leading zeros included |
| Base58.EncodeDecoded | src/base58.cpp:21-109 | every string without spaces that decodes comes back |
| Base58.CheckRoundTrip | src/base58.cpp:121-145 | the checksummed form comes back, and only the encoding of a payload decodes to it |
| CompactBlocks.PlacePrefilled | src/blockencodings.cpp:61-78 | accepts exactly the lists whose positions are in range and places every transaction in bounds |
| CompactBlocks.WalkRule | src/blockencodings.cpp:83-88 | for an accepted message the walk ends if and only if fewer than 65536 transactions are prefilled or there are no short ids |
| CompactBlocks.EndlessWalk | src/blockencodings.cpp:50-88 | a message that passes every earlier test and on which it does not end |
| CompactBlocks.WalkSlots | src/blockencodings.cpp:83-106 | where it ends it stays in bounds, gives short id number i the unfilled slot number i and records that modulo 65536 |
| CompactBlocks.FreeDistinct | src/blockencodings.cpp:83-88 | different short ids get different slots |
| CompactBlocks.SlotNumbersFit | src/blockencodings.cpp:83-88 | all recorded numbers are the slots if and only if the block has at most 65536 transactions |
| CompactBlocks.FirstTooLarge | src/blockencodings.cpp:83-130 | in a block of 65537 transactions the last one, found in the pool, replaces the prefilled first one |
| CompactBlocks.Scan | src/blockencodings.cpp:107-166 | each slot ends as if its own candidates alone had been offered; the count is the number of filled slots |
| CompactBlocks.AmbiguousIsEmpty | src/blockencodings.cpp:111-130 | a short id two pool transactions have is left to be requested |
| CompactBlocks.PartiallyDownloadedBlock.InitData | src/blockencodings.cpp:50-171 | invalid exactly for malformed messages, failed exactly for repeated short ids or crowded buckets; in blocks of up to 65536 transactions prefilled ones stay, without collisions exactly the prefilled slots and those with their transaction in the pool or among the extra ones are filled, with that transaction, and mempool_count is the number supplied |
| CompactBlocks.PartiallyDownloadedBlock.FillBlock | src/blockencodings.cpp:179-221 | invalid exactly for a wrong number of transactions; otherwise slot by slot what was available or the next missing one |
| CompactBlocks.FillRebuilds | src/blockencodings.cpp:179-201 | with the unavailable transactions in order the block comes out |
| CompactBlocks.AnnounceRepresents | src/blockencodings.cpp:20-30 | the announcement stands for the block |
| CompactBlocks.Relay | src/blockencodings.cpp:20-221 | announced, received and filled, a block without collisions is rebuilt, and nothing is asked for that the receiver had |
| Governance.GovernanceObject.ProcessVote | src/governance-object.cpp:103-221 | the verdict, the records and the filed votes afterwards; filed votes of this object carry the recorded time stamp, every recorded outcome has its vote on file, and votes of other masternodes and signals stay |
| Governance.VerdictMeans | src/governance-object.cpp:103-221 | which votes are accepted, too early, invalid, orphaned or known |
| Governance.ProcessTells | src/governance-object.cpp:103-221 | processing a vote adds it to the votes seen and, unless the rate check suppresses it, to the votes heard, which determine the records |
| Governance.RateRule | src/governance-object.cpp:179-194 | one more vote leaves the records those of all votes if and only if it is not a better, eligible, unfiled vote within an hour of the last update |
| Governance.RunRule | src/governance-object.cpp:103-221 | over a run the records are those of all votes seen if and only if every suppressed vote is made good by a heard one |
| Governance.SpacedIsHeard | src/governance-object.cpp:179-194 | arrivals an hour apart per masternode and signal suppress nothing |
| Governance.SameVotesAgree | src/governance-object.cpp:103-221 | nodes whose records are those of the same votes have the same time stamps and outcomes |
| Governance.SameVotesSameRecords | src/governance-object.cpp:103-221 | without rate checks the whole records are determined by the set of votes: per masternode and signal the greatest (time stamp, outcome) |
| Governance.OrderIrrelevant | src/governance-object.cpp:103-221 | without rate checks the same votes in any order and multiplicity leave the same records |
| Governance.AfterTells | src/governance-object.cpp:103-221 | after any run, with or without rate checks, the records are those of the votes heard, and only heard votes are filed |
| Governance.RateChecksDisagree | src/governance-object.cpp:179-194 | with rate checks on any two eligible votes of one pair less than an hour apart leave whichever came first |
| Governance.TallyFromVotes | src/governance-object.cpp:616-629 | a masternode is counted for an outcome exactly when its greatest eligible vote has it |
| Governance.GovernanceObject.CountMatchingVotes | src/governance-object.cpp:616-629 | the number of masternodes with the outcome on record |
| Governance.AcceptedFiled | src/governance-votedb.cpp:22-32 | filing an accepted vote leaves only votes with the recorded time stamp |
| Governance.VoteFile.AddVote | src/governance-votedb.cpp:22-32 | list, index and count stay together; older votes of the pair are dropped |
| Governance.VoteFile.RemoveOldVotes | src/governance-votedb.cpp:94-110 | exactly the older votes of the same masternode, object and signal go |
| Governance.VoteFile.RebuildIndex | src/governance-votedb.cpp:112-128 | repeated votes are dropped, the others indexed and counted |
| Governance.ProcessAll | src/governance-object.cpp:103-221 | a run of the object follows the function the theorems are about, and leaves every recorded outcome with its vote on file |
| Amounts.CompressAmount | src/compressor.cpp:142-160 | the code modulo 2^64 |
| Amounts.DecompressAmount | src/compressor.cpp:161-185 | the amount modulo 2^64 |
| Amounts.DecompressCompress | src/compressor.cpp:142-185 | on the naturals every amount comes back from its code |
| Amounts.CompressDecompress | src/compressor.cpp:142-185 | and every code from its amount |
| Amounts.FitsWhen | src/compressor.cpp:142-160 | the code fits in 64 bits exactly when the last digit d is zero or 9 n + d - 9 < 2^64 |
| Amounts.FittingRoundTrip | src/compressor.cpp:142-185 | in 64 bits the round trip is exact for every amount whose code fits |
| Amounts.MoneyRoundTrip | src/amount.h:32-33 | within the money range it is exact if and only if the code fits |
| Amounts.TopOfMoneyFails | src/amount.h:32-33 | the amount one below the maximum does not come back |

## Left out

- CheckQueue: the destructor, fQuit (never set) and the CCheckQueueControl wrapper; nTodo is unbounded.
- AddrMan: Select_ and GetChance (floating point), serialization and Clear on a non-empty manager.
- AddrMan.Manager.GetAddr: the order and choice of addresses is any outcome of the random numbers.
- Coins: the best-block hash, cursors, HaveInputs and GetValueIn; script memory is the script's length, of which only "zero when empty" matters.
- Coins.View.AddCoin: on the throwing path only the entries are promised unchanged; cachedCoinsUsage has already been lowered, as in the source.
- Coins: two caches over the same base, each changing it behind the other's back.
- Cuckoo: sizes, epoch size and depth limit are parameters, since the source derives them with floating-point logarithms; atomic memory orders.
- InstantSend: confirmed heights taken from blocks, the times of single votes, the scheduled clean-up, the node's own votes and rate limits for orphan votes; which votes have timed out or failed is an input.
- RollingBloom: the sizing formula (floating point).
- RollingBloom.Filter.Insert: requires a table with words, since the source indexes the table without a test; so does Contains.
- ArithUint256: the bitwise operators, decrement, multiplication by 32 bits, conversion to double and hexadecimal strings.
- DBTransaction: deserialization of keys and values, obfuscation and LevelDB; a transaction changed while it is iterated.
- Chain: FindEarliestAtLeast, stake modifiers and the equivalent-time computation; a block's links are fixed when it is created.
- Base58: address and key types on top of the strings; strings end at their terminating NUL.
- CompactBlocks.PartiallyDownloadedBlock.InitData: requires a message that is rejected before the walk or on which the walk ends, since a Dafny method ends; WalkRule says which messages those are. What ends up in the slots is not related to the block above 65536 transactions.
- CompactBlocks.WalkSlots: requires the walk to end, for the same reason.
- CompactBlocks: CheckBlock, the SipHash keys, block signatures and the counters used only for logging.
- Governance: orphan votes, signatures, the caches of decisions, and removal of votes when a masternode changes.
- Amounts: script compression.
- Amounts.MoneyRoundTrip: the "only if" half is stated for amounts in the money range, not for all 64-bit numbers.
- RPC, networking, wallet, mining, BLS, deterministic masternode lists, superblock payments and the remaining parts of the node.
