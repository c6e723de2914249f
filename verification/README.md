# Verified models of the node's core data structures

This project models eight parts of the Griffion node in Dafny and proves what they promise. The
parts are those in which redundant state, concurrency, or arithmetic makes the promise hard to see
from the code.

| part | source | files |
|---|---|---|
| address manager | `src/addrman.cpp`, `src/addrman_impl.h` | AddrBook, AddrOps, AddrFlow, AddrResolve, AddrStats, AddrMan, AddrCheck, AddrDisk, AddrRebucket |
| cache stack of unspent coins | `src/coins.cpp`, `src/coins.h`, `src/txdb.cpp` | CoinsSpec, Coins |
| parallel check queue | `src/checkqueue.h` | CheckQueue |
| two-phase headers download | `src/headerssync.cpp`, `src/headerssync.h` | HeadersSyncSpec, HeadersSyncOutcome, HeadersSync |
| cuckoo cache | `src/cuckoocache.h` | CuckooSpec, Cuckoo |
| block tree and active chain | `src/chain.cpp`, `src/chain.h` | SkipHeights, Chain |
| 256-bit numbers and block proof | `src/arith_uint256.cpp`, `src/arith_uint256.h`, `src/chain.cpp` | ArithSpec, Compact, Arith |
| text codecs | `src/bech32.cpp`, `src/base58.cpp` | Bech32Spec, Gf1024, Bech32Roots, Bech32Errors, Bech32, Bech32Vectors, Base58Spec, Base58 |

Code that changes objects in place is a class here, code that loops is a method with a loop, and each
of them is proved to compute a function of values or a stated property. What the part promises over
whole runs is then proved of those functions. `Numbers`, `Seqs` and `Wrappers` hold small shared facts.

How the parts are modelled:

- Address manager. A book is a value that holds all seven structures. Entries that an operation has
  taken out of every table, and entries that it has not counted yet, are named explicitly as *limbo*,
  so that each step between two consistent states has an invariant of its own. `AddrManImpl` keeps
  the two tables in arrays. Hashes, network groups, the outcome of random tests and the time are
  parameters; there is one time per announced address and per other call.
- Coins. One object holds the store and the whole stack of caches, and a cache is named by its level.
  The specification is a plain map from outpoint to unspent coin per level.
- Check queue. Each critical section is one atomic step; checks run outside the lock, threads
  interleave freely and may wake up spuriously. `Add` and `Wait` are called by the master's thread.
- Headers. The proof of work, the commitment bit and the difficulty rule are functions; the limit on
  commitments, which the source derives from the clock, is a parameter.
- Cuckoo cache. The eight hashes are a function; the depth limit is a parameter of at least one.
- Numbers. The width of limbs and of the 64-bit intermediate results is explicit; ids, heights and
  chain work are mathematical integers.
- Bech32 follows the Checksum section of BIP 173 and BIP 350. The detection of three errors is proved
  in the field of 1024 elements with the generator e that the source names, in the basis of the
  powers of e.

## Findings

Places where the code does less than its description or its neighbours suggest. For each there is a
concrete case or a family of cases, and the exact condition under which the property holds.

| property | where | shown by | holds exactly when |
|---|---|---|---|
| A flush or sync leaves the best block of the cache as it was | src/coins.cpp:254-282 | `Coins.FlushErasesBestBlock` | the cache has a best block of its own, or its base answers what the view below the base answers: `Coins.FlushBestBlock` |
| The flags of a cache stay sound under `AddCoin` | src/coins.cpp:70-108 | `Coins.CoinsStack.AddCoin` | the caller allows overwriting, or the view has no such coin: `CoinsSpec.AddSound` |
| The epoch is 45% of the cuckoo table, rounded down | src/cuckoocache.h:346 | `CuckooSpec.EpochSizeExact` | the table has at least 3 and at most 95443717 slots; of two slots, the smallest table there is, 45% is none and the epoch is one; above, the product wraps around 32 bits |
| `CheckAddrman` finds every inconsistency | src/addrman.cpp:1090-1093 and 1148-1157 | `AddrCheck.StaleAddressUnseen`, `AddrCheck.LostCountUnseen` | the unseen half of the invariant holds: `AddrCheck.InvariantIsCheckedAndUnseen` |
| A record that is read without error gives a consistent manager | src/addrman.cpp:394-401 | `AddrDisk.PrivateRecordIsRead`: a tried entry with a valid address that is not public | all addresses that are left in the result are routable: `AddrDisk.LoadedIsConsistent`; a condition on the record that suffices is that its valid addresses are public: `AddrDisk.PublicRecordIsConsistent` |

Where code and comments differ the model follows the code:

- src/cuckoocache.h:426-427 says that the eviction walk starts at the first of the eight slots; by
  line 437 it starts at the second, since the search for the invalid index ends behind the last one.
- src/base58.cpp:115-118 skips zeros at the start of the encoded number; there never are any.
- A negative limit does not make `DecodeBase58` fail on a text without characters
  (src/base58.cpp:39-86), since the limit is only looked at after a character.

## Model

| member | source | states |
|---|---|---|
| `AddrOps.AnyRunIsConsistent` | src/addrman.cpp:553-995 | After every run of announcements, connections, attempts, updates, collision handling and reorderings on a fresh manager with a non-zero key and positive times, all seven structures agree, and every pending collision still has an occupied tried slot to collide with. |
| `AddrOps.RunKeeps` | src/addrman.cpp:553-995 | The same from any consistent state; moreover ids are never reused or redirected and a tried slot once taken is never empty again. |
| `AddrOps.DoKeeps` | src/addrman.cpp:553-995 | Every single operation restores the whole invariant, although each passes through states that break it. |
| `AddrOps.EmptyConsistent` | src/addrman_impl.h:183-227 | A fresh manager with a non-zero key satisfies the invariant. |
| `AddrOps.AddSingleKeeps` | src/addrman.cpp:553-627 | Announcing an address, known or new, lucky or not, from any source, keeps the invariant, even where the new entry finds no slot and must be removed again. |
| `AddrOps.GoodKeeps` | src/addrman.cpp:629-682 | Reporting a connection keeps the invariant whether the entry is moved, left, or noted as a collision; without the test no collision is added. |
| `AddrOps.MakeTriedKeeps` | src/addrman.cpp:494-551 | Moving an entry to the tried table, with an eviction back into the new table and the deletion that may follow, restores the invariant; the tried table changes in that one slot only. |
| `AddrOps.EvictedKeeps` | src/addrman.cpp:519-544 | Evicting a tried entry into its own new slot keeps all invariants for every set of entries that is in limbo. |
| `AddrOps.ClearNewKeeps` | src/addrman.cpp:476-492 | Clearing a new slot keeps the invariant: the holder loses one reference, and with the last one its entry, its address, its place in the order and its counts. |
| `AddrOps.ClearNewFrame` | src/addrman.cpp:476-492 | Clearing a slot touches the entry that was in it and, of all others, only the place in the random order. |
| `AddrOps.AttemptKeeps` | src/addrman.cpp:696-714 | Recording an attempt keeps the invariant. |
| `AddrOps.ConnectedKeeps` | src/addrman.cpp:871-888 | Refreshing the time of a connected address keeps the invariant. |
| `AddrOps.SetServicesKeeps` | src/addrman.cpp:890-904 | Replacing the services of an entry keeps the invariant. |
| `AddrOps.ResolveKeeps` | src/addrman.cpp:906-967 | Working off any set of pending collisions in ascending order keeps the invariant. |
| `AddrResolve.ResolveSpares` | src/addrman.cpp:935-957 | However many collisions are decided, in whatever order of outcomes, no tried entry with a success within four hours loses its slot. |
| `AddrResolve.ResolveOutcome` | src/addrman.cpp:911-959 | From the book before: exactly when the entry of a pending collision is moved to its tried slot, when the collision is only forgotten and nothing else changes, and when it stays and nothing changes at all. |
| `AddrResolve.SettledUnlessWaits` | src/addrman.cpp:911-959 | A collision is settled if and only if it need not wait. |
| `AddrResolve.ResolveShrinks` | src/addrman.cpp:906-967 | Deciding about collisions adds none and drops those about entries that are gone. |
| `AddrResolve.GoodSpares` | src/addrman.cpp:629-682 | A connection that may evict leaves every recently successful tried entry alone but the one in the slot that it needs. |
| `AddrResolve.MakeTriedSpares` | src/addrman.cpp:494-551 | Moving an entry to the tried table leaves every tried entry as it is but the one in its slot. |
| `AddrStats.FailuresCountOnce` | src/addrman.cpp:696-714 | Over any run of attempts on an entry between two successful connections anywhere, at most one failure is counted, and one is if and only if one is to count and none has been since the last success. |
| `AddrStats.GoodIsRemembered` | src/addrman.cpp:629-682 | After a connection, moved or not, the entry remembers its time as last success and last try and no failure, keeps everything else, and is not given up within the next minute. |
| `AddrStats.ConnectedIsRemembered` | src/addrman.cpp:871-888 | After it, the time of a connected entry is at most twenty minutes behind, and never set back. |
| `AddrStats.ServicesAreRemembered` | src/addrman.cpp:890-904 | The services set are those read back; setting the former ones again undoes it. |
| `AddrStats.PenaltyIsTaken` | src/addrman.cpp:564-600 | A new entry carries the announced services, and the announced time less the penalty but not below zero, with no penalty for an address that announces itself. |
| `AddrStats.RepeatedAnnouncement` | src/addrman.cpp:568-577 | A repeated announcement loses no service and adds exactly those announced; afterwards the entry is at most an hour, or a day if the announcement is old, behind the announced time less the penalty. |
| `AddrStats.GivenUpForFailures` | src/addrman.cpp:72-94 | An entry with a plausible time that is not being tried is given up if and only if it has three failures without any success, or ten without one for a week; none with a success within a week is, and none with fewer than three failures. |
| `AddrStats.GivenUpForTime` | src/addrman.cpp:72-94 | An entry with a time ahead of the clock by ten minutes or behind it by thirty days is given up if and only if it has not been tried within a minute. |
| `AddrStats.LimitIsLargest` | src/addrman.cpp:809-819 | The limit on addresses handed out is the largest number within both the percentage and the maximum, where given. |
| `AddrOps.CollisionHasOpponent` | src/addrman.cpp:969-995 | A pending collision whose entry still exists finds a tried entry in the slot it waits for, so the lookup of the empty marker never happens. |
| `AddrOps.SwapConsistent` | src/addrman.cpp:435-457 | Exchanging two places of the random order keeps the invariant. |
| `AddrOps.PassedAll` | src/addrman.cpp:809-845 | Once the whole order has been visited, exactly the entries that pass the filter have been handed out. |
| `AddrBook.CreatedKeeps` | src/addrman.cpp:419-433 | A created entry agrees with addresses, order and all counts; only the tables do not hold it yet. |
| `AddrBook.DeletedKeeps` | src/addrman.cpp:459-474 | Deleting an entry that no table holds keeps everything else in agreement. |
| `AddrBook.UnrefKeeps` | src/addrman.cpp:476-492 | Emptying one new slot leaves the reference count equal to the number of slots, and puts an entry without slots into limbo. |
| `AddrBook.RefKeeps` | src/addrman.cpp:614-616 | Listing an entry in a free slot that fits leaves the reference count equal to the number of slots, and takes the entry out of limbo. |
| `AddrBook.AllUnrefKeeps` | src/addrman.cpp:499-508 | Taking an entry out of all its new slots leaves it in limbo and all else in agreement. |
| `AddrBook.UntriedKeeps` | src/addrman.cpp:526-529 | A tried entry that leaves its slot is in limbo and uncounted, with totals and per-network counts exact for the rest. |
| `AddrBook.TriedKeeps` | src/addrman.cpp:547-550 | An uncounted entry in limbo that enters its hashed tried slot is counted again, and the counts are exact. |
| `AddrBook.RecountKeeps` | src/addrman.cpp:509-510 | The new counts, in total and per network, stay exact when an entry in limbo is counted off or on again. |
| `AddrBook.SwapKeepsOrder` | src/addrman.cpp:435-457 | A swap keeps the random order a permutation of the ids with right back-pointers and changes nothing else. |
| `AddrFlow.AddOutcome` | src/addrman.cpp:553-627 | An announcement counts if and only if the address is routable and either unknown, with the slot of its source free or held by a terrible or many times listed entry, or known, newer than the entry, not tried, in fewer than eight slots, lucky, and the slot to be had. It then gives the address that slot and costs at most the former holder, and that only with its last slot; otherwise table and entries stay. |
| `AddrFlow.GoodOutcome` | src/addrman.cpp:629-682 | A connection moves an entry if and only if the address is known, not tried, and its tried slot is free or need not be spared; the entry evicted in turn sits in its own new slot, at most one entry is lost, and otherwise only a collision is noted. |
| `AddrFlow.MoveOutcome` | src/addrman.cpp:494-551 | Conservation of a move: the entry leaves every new slot for its tried slot, the evicted one takes its own new slot, and nothing else is lost but a holder of that slot that had no other. |
| `AddrMan.AddrManImpl.constructor` | src/addrman_impl.h:183-227 | The empty tables represent the empty book. |
| `AddrMan.AddrManImpl.Find` | src/addrman.cpp:404-417 | Finds the id of an address exactly if the address has an entry. |
| `AddrMan.AddrManImpl.Create` | src/addrman.cpp:419-433 | The in-place updates of maps, order and counts come to the created entry, and nothing else changes. |
| `AddrMan.AddrManImpl.SwapRandom` | src/addrman.cpp:435-457 | The updates of both back-pointers and both places come to the swap, also for equal places. |
| `AddrMan.AddrManImpl.Delete` | src/addrman.cpp:459-474 | Swapping to the end, cutting off and erasing come to the removal of exactly one entry. |
| `AddrMan.AddrManImpl.ClearNew` | src/addrman.cpp:476-492 | The loop-free update of table, count and entry comes to clearing the slot. |
| `AddrMan.AddrManImpl.RemoveFromNew` | src/addrman.cpp:499-508 | The round over the buckets from the first source on, with its early stop, takes the entry out of every slot it is in. |
| `AddrMan.AddrManImpl.Evict` | src/addrman.cpp:519-544 | The step-by-step eviction comes to its specification in every state of the tables. |
| `AddrMan.AddrManImpl.MakeTried` | src/addrman.cpp:494-551 | The whole move on the arrays comes to its specification. |
| `AddrMan.AddrManImpl.AddSingle` | src/addrman.cpp:553-627 | Keeps the invariant and comes to the announcement of one address, for either outcome of the random test. |
| `AddrMan.AddrManImpl.Add` | src/addrman.cpp:684-694 | Announces the addresses in order, each at a time of its own, and tells whether any counted. |
| `AddrMan.AddrManImpl.Good` | src/addrman.cpp:629-682 | Keeps the invariant and comes to the connection, with the right answer. |
| `AddrMan.AddrManImpl.Attempt` | src/addrman.cpp:696-714 | Keeps the invariant and updates the statistics of a known address only. |
| `AddrMan.AddrManImpl.Connected` | src/addrman.cpp:871-888 | Keeps the invariant and updates the time of a known address that is twenty minutes old. |
| `AddrMan.AddrManImpl.SetServices` | src/addrman.cpp:890-904 | Keeps the invariant and replaces the services of a known address. |
| `AddrMan.AddrManImpl.ResolveOne` | src/addrman.cpp:911-959 | Decides about one pending collision. The entry gets its tried slot if and only if it is a valid new entry and the slot is free, or its holder has had no success for four hours and was tried within four hours but not within a minute, or was not tried for four hours while the success of the entry is more than forty minutes old. The collision stays if and only if none of that holds yet and the holder has had no success for four hours; otherwise it is only forgotten. |
| `AddrMan.AddrManImpl.ResolveCollisions` | src/addrman.cpp:906-967 | The loop over the set that it shrinks decides about every collision once, from the smallest id. Whoever holds a tried slot and has succeeded within four hours still holds it afterwards; no collision is added, and none stays about an entry that is gone. |
| `AddrMan.AddrManImpl.SelectTriedCollision` | src/addrman.cpp:969-995 | Never meets an empty tried slot, and forgets a collision whose entry is gone. |
| `AddrMan.AddrManImpl.GetAddr` | src/addrman.cpp:809-845 | Hands out at most as many addresses as asked for, each that of an entry past the filter and none twice; if fewer, all that pass; only the random order changes. |
| `AddrCheck.CheckAddrman` | src/addrman.cpp:1057-1160 | The check returns no error if and only if entries, tables, order, key and recorded networks are in order, on any state of the arrays. |
| `AddrCheck.CheckEntries` | src/addrman.cpp:1071-1102 | The pass over the entries fails exactly if some entry is wrong, and else collects tried ids, reference counts and network counts exactly. |
| `AddrCheck.CheckTables` | src/addrman.cpp:1109-1144 | The two walks over the tables fail exactly if some slot, reference count or hashed position is wrong. |
| `AddrCheck.CheckNetworks` | src/addrman.cpp:1148-1157 | The comparison with the recorded counts fails exactly if one of them is wrong or there are too few. |
| `AddrCheck.InvariantIsCheckedAndUnseen` | src/addrman.cpp:1057-1160 | The invariant is exactly what the check establishes together with what it does not look at: stale addresses, lost network counts, id range, routability, collisions. |
| `AddrCheck.StaleAddressUnseen` | src/addrman.cpp:1090-1093 | In every consistent state an additional address that leads nowhere goes unnoticed. |
| `AddrCheck.LostCountUnseen` | src/addrman.cpp:1148-1157 | In every consistent state with the count of an idle network, the count of a used network can be lost unnoticed. |
| `AddrDisk.RoundTrip` | src/addrman.cpp:136-402 | Writing a consistent manager and reading it back with the same asmap checksum succeeds, is consistent, and restores every entry and both tables slot for slot up to the names of the entries, whatever order the map lists them in. |
| `AddrDisk.FormatRoundTrip` | src/addrman.cpp:234-402 | The same for a record in any format: with the bucket count as written before format 1, and without a checksum before format 2, which then counts as zero. |
| `AddrRebucket.Rebuckets` | src/addrman.cpp:336-392 | If the number of buckets or the checksum differs from that of the record, every new entry that is read is in exactly the one slot that its source selects; and an entry of the record is left if and only if it is valid and some listing of it comes before all listings of other valid entries that select the same slot. |
| `AddrRebucket.TriedAreRead` | src/addrman.cpp:296-317 | Whatever record is read: a tried slot is taken if and only if some valid tried entry of the record selects it, and then by the first such entry. |
| `AddrDisk.LoadedIsConsistent` | src/addrman.cpp:234-402 | Whatever record is read: a result without error satisfies the whole invariant if and only if all its addresses are routable. Where the entries of the record end up is stated beside it. |
| `AddrDisk.PublicRecordIsConsistent` | src/addrman.cpp:234-402 | A record of any origin whose valid addresses are all public gives a consistent manager, or is refused. |
| `AddrDisk.PrivateRecordIsRead` | src/addrman.cpp:394-401 | Every record of one tried entry with a valid address that is not public is read without error, and the result is not consistent. |
| `AddrDisk.ListedCounts` | src/addrman.cpp:189-213 | The lists of new and tried entries that are written are as long as the counts written with them, so the assertions on them hold. |
| `AddrDisk.FewEnough` | src/addrman.cpp:270-282 | A consistent manager never has more entries than the reader accepts. |
| `AddrDisk.BucketsRestored` | src/addrman.cpp:351-379 | Reading the bucket lists back puts every listing where it was and keeps the reference counts exact. |
| `AddrDisk.NewLoadedAll` | src/addrman.cpp:285-294 | Reading the new entries gives each its index as id, with exact counts, in no table yet. |
| `AddrDisk.TriedLoadedAll` | src/addrman.cpp:296-317 | Reading the tried entries loses none and puts each into its hashed slot. |
| `CoinsSpec.MergeRefines` | src/coins.cpp:182-252 | Writing a sound child layer into a sound parent leaves the parent sound, gives it exactly the view the child had, and never meets a misapplied FRESH flag. |
| `CoinsSpec.StoreWriteRefines` | src/txdb.cpp:92-151 | Writing a sound layer into the store gives the store the view the layer had. |
| `CoinsSpec.RetainedOk` | src/coins.cpp:267-282 | After a sync the remaining unflagged entries are sound over the new base view and change nothing of it. |
| `CoinsSpec.AddSound` | src/coins.cpp:70-108 | An addition shows the new coin, and keeps the flags sound if and only if the caller told the truth about overwriting. |
| `CoinsSpec.SpendSound` | src/coins.cpp:129-149 | Spending a cached coin keeps the flags sound and removes exactly that coin from the view, whether the entry is erased or kept. |
| `CoinsSpec.FetchSound` | src/coins.cpp:44-59 | Caching what the base answered keeps the flags sound and shows nothing new. |
| `CoinsSpec.UncacheSound` | src/coins.cpp:284-297 | Dropping an unmodified entry keeps the flags sound and hides nothing. |
| `Coins.TopIsPlainMap` | src/coins.cpp:44-297 | Over every run on a stack of any depth without adding or removing caches, the top view is one plain map under the additions and spends, whatever is read, uncached, synced or flushed at whatever level. |
| `Coins.FlushAllReachesStore` | src/coins.cpp:254-265 | Flushing all caches from the top down brings the top view into every level and the store. |
| `Coins.WroteBack` | src/coins.cpp:254-282 | After a write-back the stack is sound, the base shows what the cache showed, and no other view changed. |
| `Coins.FlushBestBlock` | src/coins.cpp:172-176 | Writing a cache back keeps its best block if and only if the cache had recorded one or its base answered what the view below answers. |
| `Coins.FlushErasesBestBlock` | src/coins.cpp:254-265 | On every sound stack of two caches over a store, with best blocks 1, 2 and none, flushing the upper cache takes the best block of the top from 2 to 1. |
| `Coins.TwoCaches` | src/coins.cpp:178-180 | Such a stack comes of pushing two caches and setting the best block of the lower one, over any store. |
| `Coins.SoundPassesSanityCheck` | src/coins.cpp:325-340 | Every cache of a sound stack has only listed flag states and an exact memory sum. |
| `Coins.CoinsStack.constructor` | src/coins.cpp:35-38 | A stack that consists of a store is sound and shows its unspent coins. |
| `Coins.CoinsStack.FetchCoin` | src/coins.cpp:44-59 | Changes no view at any level, and finds no entry only if the view has no coin. |
| `Coins.CoinsStack.GetCoin` | src/coins.cpp:61-68 | Answers exactly what the view shows. |
| `Coins.CoinsStack.AccessCoin` | src/coins.cpp:153-160 | Gives the coin the view shows, or a spent one. |
| `Coins.CoinsStack.HaveCoin` | src/coins.cpp:162-165 | Answers exactly whether the view shows a coin. |
| `Coins.CoinsStack.AddCoin` | src/coins.cpp:70-108 | Adds exactly the coin to the top view or, for an unspendable one, nothing; a false promise about overwriting throws if the coin is cached and else breaks the flags. |
| `Coins.CoinsStack.SpendCoin` | src/coins.cpp:129-149 | Removes exactly the coin from the top view and moves it out; without such a coin no view changes. |
| `Coins.CoinsStack.Uncache` | src/coins.cpp:284-297 | Changes no view; an entry that stays was modified. |
| `Coins.CoinsStack.BatchWrite` | src/coins.cpp:182-252 | The loop over the child map in any order throws exactly if some FRESH flag is misapplied, and else leaves the merged map with its exact memory sum. |
| `Coins.CoinsStack.StoreBatchWrite` | src/txdb.cpp:92-151 | The store holds what was written and the rest unchanged. |
| `Coins.CoinsStack.Flush` | src/coins.cpp:254-265 | Keeps the stack sound, gives the base the view of the cache, empties the cache and changes no other view; the best block of the cache stays exactly under the condition of `FlushBestBlock`. |
| `Coins.CoinsStack.Sync` | src/coins.cpp:267-282 | As a flush, best block included, but the cache keeps its unspent coins, unflagged. |
| `Coins.CoinsStack.GetBestBlock` | src/coins.cpp:172-176 | Answers the best block of the view and fills it in along the way without changing any answer. |
| `Coins.CoinsStack.SanityCheck` | src/coins.cpp:325-340 | Succeeds if and only if all flag states are listed and the memory sum is exact. |
| `Coins.CoinsStack.Run` | src/coins.cpp:44-297 | Every run of operations on the stack keeps it sound and has on its views the effect it has on plain maps. |
| `CheckQueue.AnswerIsVerdict` | src/checkqueue.h:67-174 | In every interleaving from the start, with any number of workers and spurious wake-ups, each answer of Wait is true if and only if all checks added since the last answer are, and the next round starts clean. |
| `CheckQueue.RunInv` | src/checkqueue.h:67-174 | Over every run the count of unfinished checks equals the queued ones plus those in flight, and every check added is queued, held or finished exactly once. |
| `CheckQueue.StepInv` | src/checkqueue.h:67-183 | Every step of every thread keeps that invariant. |
| `CheckQueue.InitInv` | src/checkqueue.h:131-141 | It holds at the start for any number of workers. |
| `CheckQueue.AnswerOfStep` | src/checkqueue.h:89-97 | Only the master is answered, never after a stop request, and with the verdict over all checks of the round. |
| `CheckQueue.NoLostWakeup` | src/checkqueue.h:78-101 | While the master waits unnotified the queue is empty, work is left, and some worker holds a batch. |
| `CheckQueue.LastWorkerNotifies` | src/checkqueue.h:78-83 | The worker that finishes the last piece of work notifies a waiting master. |
| `CheckQueue.WaitIsAnswered` | src/checkqueue.h:67-124 | Until a call of Wait is answered some thread can take a step that is not an idle wake-up, and no schedule has more such steps than the work at hand. |
| `CheckQueue.BoundedWork` | src/checkqueue.h:67-124 | The steps of any schedule that are not idle wake-ups are bounded by the work at hand. |
| `CheckQueue.Progress` | src/checkqueue.h:67-124 | As long as the master is in Wait and no stop is requested, a useful step is enabled. |
| `CheckQueue.BatchNow` | src/checkqueue.h:111-114 | A batch takes at least one check and no more than there are. |
| `HeadersSyncSpec.DownloadIsSafe` | src/headerssync.cpp:70-296 | Over any messages, what has been released is a hash-linked chain from the starting block within the difficulty rule, each header equal to the one received, and released only with 14441 accepted headers above it whose commitments matched or after the work target was reached. |
| `HeadersSyncSpec.HonestDownload` | src/headerssync.cpp:141-296 | If a peer serves the same headers again, under any split into full messages in either phase, no check fails, and with the message that reaches the work target every header has been released and the download is over. |
| `HeadersSyncSpec.MessageKeepsInv` | src/headerssync.cpp:70-139 | Every message, accepted or not, keeps the invariant that ties counters, commitments and buffer to the headers seen: in the first phase every step is within the difficulty rule, the first header of every message continues the one before it, and there are never more commitments than allowed. |
| `HeadersSyncOutcome.PresyncMessageAccepts` | src/headerssync.cpp:141-215 | A message of the first phase is accepted if and only if its first header continues the last one seen, every step is within the difficulty rule, and the commitment heights so far are no more than allowed. |
| `HeadersSyncOutcome.RedownloadMessageAccepts` | src/headerssync.cpp:217-280 | A message of the second phase is accepted if and only if it continues the accepted chain within the difficulty rule and repeats the commitment bits of the first phase up to the point where the work target is reached. |
| `HeadersSyncOutcome.MessageOutcome` | src/headerssync.cpp:87-139 | After an accepted message the download is over if and only if everything was handed out with the work target reached, or the message was not full and did not just end the first phase; more is requested in exactly the other cases. |
| `HeadersSyncOutcome.PresyncOutcome` | src/headerssync.cpp:87-107 | An accepted message of the first phase hands nothing out; the second phase begins if and only if the work seen reaches the target, and otherwise the download goes on if and only if the message was full. |
| `HeadersSyncOutcome.RedownloadOutcome` | src/headerssync.cpp:107-139 | An accepted message of the second phase hands out all but the last 14441 accepted headers, or all of them if and only if the work target is reached, and the download goes on if and only if the message was full and the target is not reached. |
| `HeadersSyncOutcome.FailureEnds` | src/headerssync.cpp:70-139 | A message that is not accepted hands nothing out, requests nothing and ends the download. |
| `HeadersSyncSpec.PopReleases` | src/headerssync.cpp:282-296 | Releasing hands out the oldest buffered headers, rebuilt as received, and all but 14441 of them, or all once the work is reached. |
| `HeadersSyncSpec.RedownloadKeepsWindow` | src/headerssync.cpp:217-280 | An accepted header continues the chain, the buffer, the work and the expected commitments. |
| `HeadersSyncSpec.HonestMessage` | src/headerssync.cpp:70-139 | A message of repeated headers succeeds, and ends the download with everything released exactly if it reaches the work target. |
| `HeadersSyncSpec.FailureReleasesNothing` | src/headerssync.cpp:70-139 | A message that fails releases nothing. |
| `HeadersSync.HeadersSyncState.constructor` | src/headerssync.cpp:27-48 | Starts in the first phase at the starting block. |
| `HeadersSync.HeadersSyncState.Finalize` | src/headerssync.cpp:53-65 | Clears everything the download held. |
| `HeadersSync.HeadersSyncState.ProcessNextHeaders` | src/headerssync.cpp:70-139 | The in-place state machine comes to the transition on values, with the same result; more is requested if and only if the download goes on, and the first phase is left for the second with enough work and for good with a message that is not full. |
| `HeadersSync.HeadersSyncState.ValidateAndStoreHeadersCommitments` | src/headerssync.cpp:141-177 | The loop over a batch comes to the first-phase transition, including where it stops. |
| `HeadersSync.HeadersSyncState.ValidateAndProcessSingleHeader` | src/headerssync.cpp:179-215 | Accepts one header of the first phase if and only if it obeys the difficulty rule and its commitment, if one is due, is within the limit, and records it. |
| `HeadersSync.HeadersSyncState.ValidateAndStoreRedownloadedHeader` | src/headerssync.cpp:217-280 | Accepts and buffers one header of the second phase, also where it fails half way. |
| `HeadersSync.HeadersSyncState.PopHeadersReadyForAcceptance` | src/headerssync.cpp:282-296 | The loop over the buffer comes to the release. |
| `Cuckoo.BitPackedFlags.constructor` | src/cuckoocache.h:64-71 | All flags start set. |
| `Cuckoo.BitPackedFlags.BitSet` | src/cuckoocache.h:94-97 | Sets one flag and no other. |
| `Cuckoo.BitPackedFlags.BitUnset` | src/cuckoocache.h:105-108 | Clears one flag and no other. |
| `Cuckoo.BitPackedFlags.BitIsSet` | src/cuckoocache.h:115-118 | Reads the flag. |
| `Cuckoo.Cache.constructor` | src/cuckoocache.h:337-350 | An empty table of at least two slots in a valid state. |
| `Cuckoo.Cache.EpochCheck` | src/cuckoocache.h:287-319 | The counter, the scan and the ageing in place come to the epoch check: kept elements are lost if and only if the counter had run out and a whole epoch was recent, and then exactly those that were not recent; the next scan is at least a sixteenth of an epoch away. |
| `Cuckoo.Cache.Round` | src/cuckoocache.h:413-446 | One round either ends with the element placed and nothing lost, exactly if one of its slots may be discarded, or keeps everything but one element in hand. |
| `Cuckoo.Cache.Place` | src/cuckoocache.h:413-446 | The eviction chain keeps all kept elements and the new one, minus at most one, and none if there was room. |
| `Cuckoo.Cache.Insert` | src/cuckoocache.h:399-447 | The kept elements are the former ones and the inserted one minus at most one; if the counter had run out and a whole epoch was recent, they are the former recent ones and the inserted one minus at most one. The inserted one is recent unless it is the one dropped, and so are the former recent ones without ageing, and no others. None is dropped if the element was there or had room; every non-default element is at one of its eight slots and in one only; the epoch bound holds. |
| `Cuckoo.Cache.Contains` | src/cuckoocache.h:476-486 | Finds a non-default element exactly if it is in the table, and then it was inserted at some time; erasing takes exactly it out of what is kept. |
| `CuckooSpec.EpochCheckLeavesRoom` | src/cuckoocache.h:287-319 | After the check, kept recent entries plus one plus the counter are at most the epoch size plus the larger of one and a sixteenth of it, in every reachable state. |
| `CuckooSpec.EpochCheckKeeps` | src/cuckoocache.h:287-319 | What the epoch check keeps, what is recent afterwards, and that it scans at most once in a sixteenth of an epoch. |
| `CuckooSpec.AgedKeeps` | src/cuckoocache.h:303-308 | Ageing keeps exactly the recent elements, none of which is recent afterwards. |
| `CuckooSpec.PutKeepsPlaced` | src/cuckoocache.h:438-442 | Putting an element that is nowhere else at one of its slots keeps every element in place and leaves the replaced one nowhere. |
| `CuckooSpec.AbsentFromSlots` | src/cuckoocache.h:407-412 | An element at none of its eight slots is nowhere in the table. |
| `CuckooSpec.FastRange32` | src/util/fastrange.h:20-23 | Every 32-bit hash is mapped into the table. |
| `CuckooSpec.EpochSizeExact` | src/cuckoocache.h:346 | For every table that can be set up, the epoch is 45% of it, rounded down, if and only if it has at least 3 and at most 95443717 slots. |
| `SkipHeights.StepsAreFew` | src/chain.cpp:94-119 | The walk from any height to any ancestor takes at most twice the square of the number of bits of the height. |
| `SkipHeights.SkipGoesBack` | src/chain.cpp:84-92 | A skip pointer leads to a height at least zero and strictly below. |
| `SkipHeights.InvertsLowestOne` | src/chain.cpp:81 | Exactly the lowest set bit is cleared. |
| `Chain.BlockIndex.GetAncestor` | src/chain.cpp:94-119 | Returns the block that following the predecessor pointers gives, for any height, in the number of steps bounded above where all skip pointers are set. |
| `Chain.BlockIndex.BuildSkip` | src/chain.cpp:126-130 | Sets the skip pointer to the ancestor at the skip height. |
| `Chain.BlockTree.Add` | src/node/blockstorage.cpp:203-235 | Entering a block keeps heights, times and all skip pointers of the tree set and right. |
| `Chain.BlockTree.PathInside` | src/node/blockstorage.cpp:203-235 | On every path of a tree all skip pointers are set and right. |
| `Chain.ActiveChain.SetTip` | src/chain.cpp:22-30 | Although writing stops at the first block in place, the vector is exactly the path to the new tip. |
| `Chain.ActiveChain.FindFork` | src/chain.cpp:61-70 | The highest block that a block's path shares with the chain, or none. |
| `Chain.ActiveChain.FindEarliestAtLeast` | src/chain.cpp:72-78 | The binary search finds the lowest block that is late and high enough, or none if there is none. |
| `Chain.LastCommonAncestor` | src/chain.cpp:166-181 | The highest common ancestor of two blocks, or none if their roots differ. |
| `Chain.LocatorEntries` | src/chain.cpp:32-49 | The hashes of the ancestors at the locator heights, in order. |
| `Chain.LocatorDescends` | src/chain.cpp:32-49 | Locator heights start at the block, strictly decrease and end at the root. |
| `Chain.LocatorIsShort` | src/chain.cpp:32-49 | A locator has at most 12 + log2(height + 1) entries. |
| `Chain.TimesGrow` | src/node/blockstorage.cpp:224 | Maximal times never decrease along a path. |
| `Arith.Uint256.constructor` | src/arith_uint256.h:52-58 | Represents the 64-bit number. |
| `Arith.Uint256.Copy` | src/arith_uint256.h:39-43 | Represents the same number in limbs of its own. |
| `Arith.Uint256.Add` | src/arith_uint256.h:126-136 | Addition modulo 2^256, also of a number to itself, with carries that fit 64 bits. |
| `Arith.Uint256.Increment` | src/arith_uint256.h:164-171 | Plus one modulo 2^256. |
| `Arith.Uint256.Decrement` | src/arith_uint256.h:181-188 | Minus one modulo 2^256. |
| `Arith.Uint256.Complement` | src/arith_uint256.h:60-66 | 2^256 - 1 minus the number. |
| `Arith.Uint256.Negate` | src/arith_uint256.h:68-75 | The number negated modulo 2^256. |
| `Arith.Uint256.Sub` | src/arith_uint256.h:138-142 | Subtraction modulo 2^256. |
| `Arith.Uint256.MulSmall` | src/arith_uint256.cpp:49-58 | Multiplication by a limb modulo 2^256 without overflow of 64 bits. |
| `Arith.Uint256.Mul` | src/arith_uint256.cpp:61-74 | Schoolbook multiplication is multiplication modulo 2^256, also of a number by itself, without overflow of 64 bits. |
| `Arith.Uint256.ShiftLeft` | src/arith_uint256.cpp:15-29 | Multiplication by a power of two modulo 2^256, for any shift. |
| `Arith.Uint256.ShiftRight` | src/arith_uint256.cpp:32-46 | Division by a power of two, for any shift. |
| `Arith.Uint256.Div` | src/arith_uint256.cpp:77-100 | The floor quotient; fails, leaving zero, exactly for a zero divisor. |
| `Arith.Uint256.CompareTo` | src/arith_uint256.cpp:103-112 | Compares as the numbers compare. |
| `Arith.Uint256.EqualTo` | src/arith_uint256.cpp:115-126 | True exactly if the numbers are equal. |
| `Arith.Uint256.Bits` | src/arith_uint256.cpp:157-169 | The least number of bits that the number fits into. |
| `Arith.Uint256.GetLow64` | src/arith_uint256.h:234-238 | The number modulo 2^64. |
| `Arith.Uint256.SetCompact` | src/arith_uint256.cpp:176-194 | The number the compact form stands for modulo 2^256, with exact flags for a negative and for an overflowing form. |
| `Arith.Uint256.GetCompact` | src/arith_uint256.cpp:196-217 | The compact form of the number: its size in bytes and leading bytes, moved down where the sign bit would be hit. |
| `Arith.GetBlockProof` | src/chain.cpp:132-145 | 2^256 / (target + 1) rounded down for every valid target and zero else; the divisor is never zero. |
| `Arith.ProofFits` | src/chain.cpp:140-144 | The rewritten quotient equals the one of the power that does not fit. |
| `Compact.OverflowIsExact` | src/arith_uint256.cpp:190-193 | The three-part test for overflow holds exactly if the form stands for 2^256 or more. |
| `Compact.ThereAndBack` | src/arith_uint256.cpp:176-217 | Into the compact form and back is rounding down to whole units of the size. |
| `Compact.CompactIsStable` | src/arith_uint256.cpp:176-217 | The compact form of what a compact form stands for is the same form. |
| `Compact.TargetFits` | src/chain.cpp:138-144 | For a target that fits, one more fits too. |
| `ArithSpec.RowNext` | src/arith_uint256.cpp:66-70 | One inner step of the multiplication keeps the value of the row and a carry below 2^32. |
| `ArithSpec.ShlEnd` | src/arith_uint256.cpp:15-29 | The or-ed limbs of a left shift are the limbs of the product modulo 2^256. |
| `ArithSpec.ShrEnd` | src/arith_uint256.cpp:32-46 | The or-ed limbs of a right shift are the limbs of the quotient. |
| `Bech32Errors.ThreeErrorsDetected` | src/bech32.cpp:131-217 | Up to three changed symbols within any 1023 places, in strings of any length, always change the checksum. |
| `Bech32Errors.ThreeNeverVerify` | src/bech32.cpp:328-339 | A valid string with up to three changed symbols, those of the human readable part included, is not valid under the same encoding. |
| `Bech32Errors.ThreeOfDataNeverVerify` | src/bech32.cpp:328-339 | The same for the data symbols alone. |
| `Bech32.ChangedCharacters` | src/bech32.cpp:374-398 | A string that decodes, with up to three characters after the separator changed in meaning, does not decode under the same encoding. |
| `Bech32.ChangedCharacter` | src/bech32.cpp:374-398 | The same for one character, replaced by any other but the separator. |
| `Bech32Roots.StepAtRoot` | src/bech32.cpp:178-216 | At each of three consecutive roots of the generator, one step multiplies the state by the root and adds the symbol. |
| `Bech32Roots.Generators` | src/bech32.cpp:209-213 | The five constants of the loop are the multiples of a polynomial that has the three roots. |
| `Gf1024.NoZeroDivisors` | src/bech32.cpp:47-118 | The arithmetic modulo the polynomial of e has no zero divisors: it is the field of 1024 elements. |
| `Gf1024.Order` | src/bech32.cpp:165-176 | e has order 1023. |
| `Gf1024.Vandermonde` | src/bech32.cpp:173-176 | Three terms with three consecutive roots vanish. |
| `Bech32Spec.PolyLinear` | src/bech32.cpp:131-217 | The checksum of a difference is the difference of the checksums. |
| `Bech32Spec.PolyInjective` | src/bech32.cpp:131-217 | Different states stay different whatever follows. |
| `Bech32Spec.BurstDetected` | src/bech32.cpp:131-217 | Changes within six neighbouring symbols, however many, always change the checksum. |
| `Bech32Spec.ChecksumVerifies` | src/bech32.cpp:342-353 | Strings of any length with their checksum verify under the chosen encoding. |
| `Bech32Spec.ChecksumUnique` | src/bech32.cpp:342-353 | No other six symbols do. |
| `Bech32Spec.ChangedNeverVerifies` | src/bech32.cpp:328-339 | A valid string with changes within six neighbouring symbols is not valid under the same encoding. |
| `Bech32Spec.ChrRev` | src/bech32.cpp:24-36 | The two tables of characters are inverse to each other up to case. |
| `Bech32.DecodeOfEncoded` | src/bech32.cpp:358-398 | Decoding inverts encoding if and only if the human readable part is printable and not empty and the string is at most 90 long; else it fails. |
| `Bech32.EncodedOfDecode` | src/bech32.cpp:358-398 | Whatever decodes is, in lower case, the encoding of the result. |
| `Bech32Spec.VerifyIff` | src/bech32.cpp:328-353 | Symbols verify under an encoding if and only if the last six are the checksum of the others under it. |
| `Bech32Vectors.RisingDecodes` | src/test/bech32_tests.cpp:18-36 | The valid string of BIP 173 with all symbols in rising order decodes under Bech32 to them. |
| `Bech32Vectors.FallingDecodes` | src/test/bech32_tests.cpp:38-57 | The valid string of BIP 350 with all symbols in falling order decodes under Bech32m to them. |
| `Bech32Vectors.EmptyDecodes` | src/test/bech32_tests.cpp:18-57 | The shortest valid strings of BIP 173 and BIP 350 decode under their encodings to no symbols. |
| `Bech32Vectors.EmptyUpperDecodes` | src/test/bech32_tests.cpp:18-80 | The same strings decode in upper case, and fail in mixed case. |
| `Bech32Vectors.UpperDecodesAlike` | src/bech32.cpp:374-398 | Every string without lower case letters decodes like the same string in lower case. |
| `Bech32.PolyMod` | src/bech32.cpp:131-217 | The loop with its five tests comes to the state after the symbols. |
| `Bech32.ExpandHrp` | src/bech32.cpp:313-325 | The result has 2n+1 symbols with a zero in the middle, and each character is 32 times its symbol before the zero, which is below 8, plus its symbol behind, which is below 32. |
| `Bech32.VerifyChecksum` | src/bech32.cpp:328-339 | Recognises an encoding if and only if the last six symbols are the checksum of the others under it. |
| `Bech32.CreateChecksum` | src/bech32.cpp:342-353 | The six symbols that make the string verify under the encoding. |
| `Bech32.Encode` | src/bech32.cpp:358-371 | The encoded string, which `Bech32.DecodeOfEncoded` decodes. |
| `Bech32.CheckCharacters` | src/bech32.cpp:288-310 | No error exactly if all characters are printable and not both cases occur. |
| `Bech32.DecodeText` | src/bech32.cpp:374-398 | The decoded string, or failure, as specified for every text; the known strings decode as `Bech32Vectors` states. |
| `Base58Spec.DecodeOfEncoded` | src/base58.cpp:39-126 | Decoding an encoded byte string of any length gives it back, or fails exactly if it is longer than asked for. |
| `Base58Spec.EncodedOfDecode` | src/base58.cpp:39-126 | Whatever decodes is, without the spaces around it, the encoding of the bytes. |
| `Base58Spec.ChrIsLetter` | src/base58.cpp:17-18 | The characters for the digits 0 to 57 are those of the alphabet, in order. |
| `Base58Spec.EncodeFits` | src/base58.cpp:98 | The estimate of 138/100 digits per byte suffices for every length. |
| `Base58Spec.DecodeFits` | src/base58.cpp:53 | The estimate of 733/1000 bytes per digit suffices for every length. |
| `Base58.MulAdd` | src/base58.cpp:62-69 | The in-place pass multiplies and adds in any base, leaves no carry, and keeps the length exact. |
| `Base58.EncodeBase58` | src/base58.cpp:88-126 | The encoded text; the assertion on the carry never fails. |
| `Base58.DecodeBase58` | src/base58.cpp:39-86 | The decoded bytes or failure, for every text and every limit; the assertion on the carry never fails. |
| `Base58.ReadWord` | src/base58.cpp:53-72 | Reads the word and fails exactly if it is unreadable or stands for more bytes than asked for, although the limit is looked at part by part. |

## Left out

Address manager:
- `Select_`, `GetEntry`, `GetEntries_`, `FindAddressEntry_`, `Size_` and `GetChance`: reads without effect on the state, or sampling with floating point.
- Locks, logging, and the run of the check after every operation.
- The clock is read once per announced address and once for all pending collisions; the source reads it again for the test whether an entry is terrible, and for every collision.
- The services of an address are a set of bit numbers, not a 64-bit word.
- AddrDisk.RoundTrip: writing and reading are modelled on values, not on a stream and not in place; the byte encoding of addresses, short streams and negative counts are not covered.

Coins:
- `AddCoins`, `HaveInputs`, `AccessByTxid`, `HaveCoinInCache`, `SetBackend`, `ReallocateCache`: loops over one transaction or plain reads.
- `EmplaceCoinInternalDANGER`, and states after a failed write to the base, which the source leaves undefined.
- The rounding of allocation sizes in the memory sum; a script counts with its length.
- Additions and spends happen in the top cache only; caches below it are read, uncached, synced and flushed.

Check queue:
- `CCheckQueueControl` and the joining of the threads.
- CheckQueue.AnswerIsVerdict: what Wait returns after a stop request is not an answer.

Headers:
- `NextHeadersRequestLocator`, and the derivation of the limit on commitments from the clock.

Cuckoo cache:
- `setup_bytes`, and concurrent calls of `contains` with relaxed memory order.

Chain:
- `GetBlockProofEquivalentTime`, `RaiseValidity`, file positions, and machine-int heights.
- SkipHeights.StepsAreFew: the constant is not meant to be tight; the comment at src/chain.cpp:88-90 names 110 steps for up to 2^18 blocks, which is not proved.

Numbers:
- `getdouble`, hexadecimal text, and the bitwise operators other than the shifts.

Codecs:
- `LocateErrors` with its tables of exponents and logarithms.
- Bech32Errors.ThreeErrorsDetected: four errors within 89 characters, which the comment in the source also names, rest on an enumeration of all cases and not on the roots of the generator, and are not stated.
- `EncodeBase58Check` and `DecodeBase58Check`, which need a hash; the length of a buffer as a machine int.
