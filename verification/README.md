# Verified core of a Dash node

A Dafny model of the parts of the node on which its data depends: the layered coin caches and the recovery of their
database, the script check queue, the block index, 256-bit arithmetic with its compact form, the signature cache, the rolling bloom filter, database
transactions, the address manager with its file, and the codecs (Bech32, Base58, Golomb-coded set filters and compact
blocks). Each component has a module that says on values what the code does and proves what that means, and, where the
code changes objects in place, classes or methods with loops that are proved against those values.

`dafny verify dfyconfig.toml` checks everything.

| modules | component |
|---|---|
| Coins, CoinsRuns, CoinsCache, CoinsDb | stacks of coin caches over the coin database |
| Replay | recovery of the coin database after a crash |
| CheckQueue | the queue that shares script checks among threads |
| Chain | block index, skip list, active chain, locators |
| Limbs, BaseUint, Compact | multi-limb integers, `nBits`, proof of work |
| Cuckoo, CuckooTable | the signature cache |
| Bloom | the rolling bloom filter |
| DbStore, DbIterator | nested database transactions and their iterators |
| AddrBook, AddrMan, AddrFile, AddrLoad | the address manager, its runs and its file |
| Bech32, Bech32Codec, Base58, Base58Codec | address text |
| Golomb, GcsFilter | block filters |
| CompactBlocks | compact block relay |
| Arithmetic, Bits, Words, Sums, Wrappers | shared facts |

## Conventions

Hash functions, bucket functions and checksums are any functions with the right range. Random draws, the clock and the
verdict whether an address is terrible are parameters, so every statement holds whatever they are. Concurrency is a
state machine whose steps are the critical sections. Machine words are integers with the wrap-around written out, and
bit streams are sequences of bits. A `Result` or `Option` stands for an exception or an error return. Where the code
walks a hash map or a set, the model allows any order.

## What the code does and its comments do not say

- `CCoinsViewCache::FetchCoin` can mark an entry FRESH only for a spent coin, and no view below ever returns one: of the
  flag combinations that the header lists, "spent, FRESH, not DIRTY" never arises (`CoinsRuns.ReachableFlags`).
- `AddCoin` notices a wrong `possible_overwrite == false` only if the coin is in the cache itself. If it is only in a
  level below, the new entry is FRESH and spending it brings the old coin back (`CoinsRuns.DishonestAddResurrects`); the
  exact condition under which a cache stays sound is `Coins.AddCoinExact`.
- A write at a lower level can leave a cache above it unsound: spending a coin below a clean entry that repeats it
  leaves the upper level showing a coin that is gone (`CoinsRuns.LowerSpendLeavesStale`). The exact condition, on the
  nearest entry above, is `CoinsRuns.ApplyAtExact`, and for whole runs `CoinsRuns.RunExact`.
- `AddCoins` for an ordinary transaction without the overwrite check adds outputs with `possible_overwrite` false. An
  output already unspent in the cache itself makes it throw; one visible only below makes the cache unsound
  (`CoinsCache.AddCoins`).
- The cuckoo cache's comment says that the first displacement falls on the first location; the code takes the second,
  because the index of the last location is searched before there is one (`Cuckoo.FirstDisplaced`).
- `ReadCompactSize` refuses sizes above 0x02000000 by default, so a block filter of more elements can be built but
  neither read back nor matched (`GcsFilter.BuiltIsAccepted`, `GcsFilter.TooLargeToMatch`). The later test for a count
  of 2^32 or more can never fail.
- `CAddrMan::Unserialize` enters services into `mapAddr` with their port even if ports are not discriminated. Then every
  entry with a port is lost to lookup after a restart (`AddrFile.LostToLookup`); the file is otherwise read without
  loss, and the manager is consistent again exactly if each service is its own key (`AddrFile.RoundTrip`). `Check_`
  looks services up in the same way.
- A file from elsewhere may list a service twice. It is accepted, and the manager read from it is not consistent
  (`AddrLoad.TwiceListed`, for every entry and key). The exact condition for any file is `AddrLoad.LoadedConsistent`; it
  is enough that the services listed are distinct and their own keys (`AddrLoad.DistinctConsistent`).
- The "no bucket is found" exit of `Good_` is never taken by a consistent manager, cleared or not.
- `Clear` leaves the set of waiting collisions as it is. While it is not called, the branch of `ResolveCollisions_` for a
  collision that "is not actually a collision anymore" is never taken. After it, waiting ids stay blocked exactly if
  there are none (`AddrMan.ClearedCollisions`). Otherwise a service heard of later can get an id that still waits while
  its tried place is empty; `SelectTriedCollision_` then reads `mapInfo[-1]`, which creates a blank entry and makes the
  manager inconsistent (`AddrMan.StaleAfterClear`, `AddrMan.AddrMan.SelectTriedCollision`).
- If the merge into a cache below throws, `Flush` leaves this level with the entries that were not merged yet, because
  `BatchWrite` erases each from the child's map as it goes, and with the usage counter of before
  (`CoinsCache.CoinsViewCache.Flush`).
- Recovery announces every overwrite by looking, so that it never throws on the mixture of old and new coins that a
  crash leaves; a transition that was not up one branch is refused (`Replay.RollforwardBlock`, `Replay.ReplayBlocks`).
- `FillBlock` means to refuse a second call, but with too few transactions it returns before the header is cleared. The
  object can be called again, and then the transactions already moved into the first block are missing as well
  (`CompactBlocks.RetryAsksForMore`).
- A block filter whose stream is cut short still answers if the walk is decided before the end
  (`GcsFilter.DecidedExact`).
- In compact blocks `extra_count` is decremented for a transaction that the mempool supplied. It is only logged and is
  not modelled.

## Model

| member | source | states |
|---|---|---|
| Coins.FetchKeeps | src/coins.cpp:42-66 | fetching a coin through any depth of caches changes no level's visible coins, keeps every flag sound, and answers with the visible coin |
| Coins.AddCoinView | src/coins.cpp:68-100 | adding fails exactly if overwriting is not allowed and the cache itself holds an unspent coin; otherwise exactly that coin becomes visible and the levels below are untouched |
| Coins.AddCoinUsage | src/coins.cpp:68-100 | on a call that does not throw the usage counter stays the exact sum over the entries |
| Coins.AddCoinExact | src/coins.cpp:68-100 | the cache stays sound if and only if overwriting is allowed or no coin is visible there |
| Coins.SpendKeeps | src/coins.cpp:113-127 | spending makes exactly that coin invisible, here only, and keeps flags and usage sound |
| Coins.UncacheKeeps | src/coins.cpp:223-230 | dropping an unmodified entry changes nothing visible at any level |
| Coins.MergedEntryOk | src/coins.cpp:160-214 | merging sound child and parent entries never meets a misapplied FRESH flag, is sound over the level below, and shows what the child showed |
| Coins.FlushKeeps | src/coins.cpp:216-221 | a flush of a sound cache never throws and makes the base show what the cache showed |
| CoinsRuns.ApplyAtRefines | src/coins.cpp:42-230 | one allowed operation at any level of a stack acts as the same operation on that level's plain coin map and on those above, up to the first cache whose own entry hides it |
| CoinsRuns.ToleratesExact | src/coins.h:115-158 | a sound entry stays sound when its outpoint is written below it exactly if it is DIRTY (for a spend), or not FRESH and either DIRTY or the very coin added (for an addition) |
| CoinsRuns.ApplyAtExact | src/coins.cpp:42-230 | an operation at any level succeeds and leaves the whole stack sound if and only if the caller's promise holds there and the nearest entry above tolerates the write |
| CoinsRuns.LowerSpendLeavesStale | src/coins.cpp:113-127 | spending below a clean entry that repeats the coin leaves that entry showing a coin which is gone, and the stack unsound |
| CoinsRuns.ReadAnswers | src/coins.cpp:59-66 | reading at any level returns that level's plain map entry |
| CoinsRuns.RunRefines | src/coins.cpp:42-230 | every allowed run of operations, of opening and of closing caches refines plain maps, never throws and keeps all flags and counters sound |
| CoinsRuns.RunExact | src/coins.cpp:42-230 | a run is sound at every step if and only if each of its operations is allowed where it happens |
| CoinsRuns.RunFromDatabase | src/coins.cpp:42-230 | the same from any database of unspent coins |
| CoinsRuns.ReachableFlags | src/coins.h:115-158 | which combinations of spent, DIRTY and FRESH occur in reachable caches |
| CoinsRuns.DishonestAddResurrects | src/coins.cpp:68-100 | without the caller's promise a spent coin becomes visible again |
| CoinsDb.CoinsViewDb.BatchWrite | src/txdb.cpp:75-134 | whatever the order of the entries and wherever batches are cut, every DIRTY entry is written or erased and the new block marked; after each earlier batch the database is marked as in transition from the old tip, with every coin as it was or as it will be |
| CoinsDb.AttemptHarmless | src/txdb.cpp:83-91 | whatever an attempt left on disk, the old tip is found again, the assertion about the heads holds, and changes to the same effect, even if computed anew from the coins found, end in the same coins |
| CoinsDb.CrashesHarmless | src/txdb.cpp:75-134 | the same after any number of interruptions between batches, each attempt with changes of its own to the same effect |
| CoinsDb.WriteSettles | src/txdb.cpp:98-106 | a set of changes leaves each outpoint it touches in a state that does not depend on the coins before, so writing it again has the same effect |
| CoinsDb.SettleTwice | src/txdb.cpp:93-121 | an effect on a half-written database gives what it gives at once |
| Replay.BranchSettles | src/validation.cpp:4709-4735 | so does replaying blocks: on any coins, the blocks of a branch leave what one fixed effect leaves |
| Replay.RollforwardBlock | src/validation.cpp:4709-4735 | on any unspent coins, through any stack of caches, the spends and additions never throw, keep the cache sound, and show the coins after the block |
| Replay.Rollforward | src/validation.cpp:4791-4798 | the heights above the fork are replayed in order until one fails, and the database is not touched |
| Replay.ReplayBlocks | src/validation.cpp:4737-4807 | succeeds exactly if there is nothing to recover, or the two heads are known and on one branch and every block can be read; it then leaves exactly the coins of the new head, and otherwise writes nothing; what is on disk after each batch is a state from which it can start again |
| Replay.RecoveryExact | src/validation.cpp:4737-4807 | a flush up a branch and every recovery after it may be interrupted between batches any number of times; unless nothing was written at all, recovery is then possible and ends with exactly the coins of the new block |
| CoinsCache.CoinsViewCache.FetchCoin | src/coins.cpp:42-57 | the in-place fetch through linked cache objects is the fetch on stacks |
| CoinsCache.CoinsViewCache.GetCoin | src/coins.cpp:59-66 | returns the coin that the stack of caches shows |
| CoinsCache.CoinsViewCache.HaveCoin | src/coins.cpp:140-143 | answers whether a coin is visible |
| CoinsCache.CoinsViewCache.AddCoin | src/coins.cpp:68-100 | the in-place addition, with its throw, is the addition on stacks |
| CoinsCache.CoinsViewCache.SpendCoin | src/coins.cpp:113-127 | hands out the coin that was visible and leaves none |
| CoinsCache.CoinsViewCache.MergeOne | src/coins.cpp:160-214 | one turn of the merge changes that entry alone to its merged form, or throws and changes nothing, and keeps the usage difference exact |
| CoinsCache.CoinsViewCache.BatchWrite | src/coins.cpp:160-214 | throws exactly if some FRESH entry meets an unspent coin, else merges pointwise in any order; also after a throw each entry is either merged and taken out of the child or untouched in both, with the usage exact |
| CoinsCache.CoinsViewCache.Flush | src/coins.cpp:216-221 | the in-place flush is the flush on stacks, and a database below is left marked with the block, in transition after each batch before the last; after a throw this level keeps the entries not merged yet and its usage counter |
| CoinsCache.CoinsViewCache.Uncache | src/coins.cpp:223-230 | the in-place drop is the drop on stacks |
| CoinsCache.AddCoins | src/coins.cpp:102-111 | throws exactly if an unchecked output of an ordinary transaction meets an unspent coin in the cache itself; otherwise exactly the spendable outputs become visible in addition, and the cache is sound if and only if overwriting was announced or none was visible before |
| CheckQueue.BatchFits | src/checkqueue.h:107-112 | a batch is never empty and never larger than the queue |
| CheckQueue.SectionKeeps | src/checkqueue.h:68-129 | a critical section of any thread keeps the invariant: what is left to do is what is queued plus what is in flight, and a verdict is right |
| CheckQueue.StepKeeps | src/checkqueue.h:68-186 | so does every step of any thread |
| CheckQueue.RunIsRight | src/checkqueue.h:68-186 | over every interleaving each wait returns true exactly if all checks added since the last one pass |
| CheckQueue.RunFromInit | src/checkqueue.h:68-186 | the same from a fresh queue with any number of workers |
| CheckQueue.MasterNotStuck | src/checkqueue.h:90-102 | while the master waits some worker can take a step, and once notified it returns |
| CheckQueue.LastWorkerNotifies | src/checkqueue.h:79-84 | the worker that brings the count to zero wakes the master |
| CheckQueue.StepDrains | src/checkqueue.h:68-129 | while the master is blocked no step of any thread adds work, and every step of a thread with work takes some away |
| CheckQueue.DrainIsBounded | src/checkqueue.h:68-129 | however the threads are scheduled, the master returns before more steps are worked than were left |
| CheckQueue.Drain | src/checkqueue.h:68-129 | from every state with a blocked master, steps of workers with work in hand lead to a notified master whose next step returns the right verdict |
| CheckQueue.StepsNotBlocked | src/checkqueue.h:68-129 | a waiting or finished thread can always take its next step |
| CheckQueue.Pool.AddChecks | src/checkqueue.h:166-186 | checks are queued in order and counted |
| CheckQueue.Pool.BeginSection | src/checkqueue.h:78-88 | accounts for a finished batch and tells whether to notify |
| CheckQueue.Pool.EndSection | src/checkqueue.h:89-121 | waits while there is nothing to take, returns only the master, with the verdict and the flag reset, or takes a batch |
| CheckQueue.Pool.TakeBatch | src/checkqueue.h:113-119 | the last checks leave the queue, newest first |
| CheckQueue.ExecuteBatch | src/checkqueue.h:123-127 | the running verdict is the conjunction over the batch |
| Chain.GetSkipHeight | src/chain.cpp:71-82 | the skip height is below the height |
| Chain.BlockIndex.GetAncestor | src/chain.cpp:84-109 | walking the skip list terminates and returns the block that walking parents reaches, or null outside the heights |
| Chain.BlockIndex.BuildSkip | src/chain.cpp:116-120 | sets the skip to the ancestor at the skip height and keeps all skips right |
| Chain.BlockTree.AddBlock | src/chain.cpp:116-120 | every tree built block by block has right skips |
| Chain.BlockTree.Lookup | src/chain.cpp:84-109 | ancestor lookup is right for every block of such a tree and every height |
| Chain.ActiveChain.SetTip | src/chain.cpp:11-21 | although the walk stops early the vector is exactly the ancestor path of the tip |
| Chain.ActiveChain.GetLocator | src/chain.cpp:23-49 | the locator is the same list whether steps go through the vector or the skip list |
| Chain.LocatorDescends | src/chain.cpp:23-49 | a locator lists strictly lower ancestors from its start down to genesis |
| Chain.LocatorLength | src/chain.cpp:23-49 | its length is logarithmic in the height |
| Chain.ActiveChain.FindFork | src/chain.cpp:51-60 | returns the highest ancestor that is in the chain, or null if none is |
| Chain.LastCommonAncestor | src/chain.cpp:156-171 | returns the highest common ancestor, or null if there is none |
| BaseUint.BaseUint.AddAssign | src/arith_uint256.h:133-143 | limb addition is integer addition modulo the width, with no 64-bit overflow |
| BaseUint.BaseUint.SubAssign | src/arith_uint256.h:145-149 | subtraction modulo the width |
| BaseUint.BaseUint.Complement | src/arith_uint256.h:67-73 | bitwise complement as a number |
| BaseUint.BaseUint.Negated | src/arith_uint256.h:75-82 | negation modulo the width |
| BaseUint.BaseUint.Increment | src/arith_uint256.h:171-178 | adds one modulo the width |
| BaseUint.BaseUint.Decrement | src/arith_uint256.h:188-195 | subtracts one modulo the width |
| BaseUint.BaseUint.MulAssign32 | src/arith_uint256.cpp:55-64 | multiplication by a 32-bit factor modulo the width, with no 64-bit overflow |
| BaseUint.BaseUint.MulAssign | src/arith_uint256.cpp:67-80 | schoolbook multiplication modulo the width, with no 64-bit overflow |
| BaseUint.BaseUint.ShiftLeftAssign | src/arith_uint256.cpp:21-35 | left shift multiplies by a power of two modulo the width |
| BaseUint.BaseUint.ShiftRightAssign | src/arith_uint256.cpp:38-52 | right shift divides by a power of two |
| BaseUint.BaseUint.CompareTo | src/arith_uint256.cpp:109-118 | limb comparison is integer order |
| BaseUint.BaseUint.Bits | src/arith_uint256.cpp:195-207 | the bit length |
| BaseUint.BaseUint.DivTurn | src/arith_uint256.cpp:92-104 | one turn of shift-and-subtract keeps dividend = quotient * divisor + rest |
| BaseUint.BaseUint.DivAssign | src/arith_uint256.cpp:83-106 | division throws exactly for a zero divisor, else gives the floor quotient |
| Compact.AssignU64 | src/arith_uint256.h:86-93 | assigning a 64-bit value gives that number |
| Compact.GetLow64 | src/arith_uint256.h:246-250 | the low 64 bits, which are the number if it fits |
| Compact.OverflowExact | src/arith_uint256.cpp:229-247 | the overflow flag is set exactly if the encoded value is at least 2^256, for every 32-bit word |
| Compact.SetCompact | src/arith_uint256.cpp:229-247 | value, sign and overflow of every compact word |
| Compact.GetCompact | src/arith_uint256.cpp:249-270 | the compact word of a number, with its sign |
| Compact.RoundTrip | src/arith_uint256.cpp:229-270 | decoding an encoded number gives it back with all but its leading bytes cleared, without sign or overflow |
| Compact.Idempotent | src/arith_uint256.cpp:249-270 | encoding is not changed by that trip |
| Compact.Monotone | src/arith_uint256.cpp:249-270 | encoding is monotone |
| Compact.GetBlockProof | src/chain.cpp:122-135 | zero for refused targets, else exactly floor(2^256 / (target + 1)), with no wrap and no division by zero |
| Cuckoo.LocsInRange | src/cuckoocache.h:241-251 | the eight locations of an element are inside the table |
| Cuckoo.SetupInv | src/cuckoocache.h:338-351 | a table of any size starts with the invariant |
| Cuckoo.DisplaceConserves | src/cuckoocache.h:391-439 | table after plus the lost element is table before plus the inserted one, as multisets |
| Cuckoo.DisplacePlaces | src/cuckoocache.h:391-439 | along any chain live slots keep holding distinct elements that hash there, and every turn after the first that has to displace finds the slot last displaced among the candidates of the element in hand |
| Cuckoo.InsertSearches | src/cuckoocache.h:413-430 | in every insertion into a reachable cache all these searches succeed |
| Cuckoo.FirstDisplaced | src/cuckoocache.h:415-430 | the first displacement takes the second location |
| Cuckoo.DisplaceCounts | src/cuckoocache.h:405-438 | the chain adds at most the element in hand to the live entries of the current epoch |
| Cuckoo.EpochCheckKeeps | src/cuckoocache.h:287-319 | an epoch check keeps the bound on live current entries plus the counter |
| Cuckoo.InsertKeeps | src/cuckoocache.h:391-439 | inserting keeps the whole invariant and conserves contents |
| Cuckoo.ContainsExact | src/cuckoocache.h:468-478 | lookup finds exactly what is in the table, apart from the default element, and keeps the invariant even when it erases |
| Cuckoo.InsertedOrLost | src/cuckoocache.h:391-478 | an inserted element is found or is the one lost |
| Cuckoo.RunKeeps | src/cuckoocache.h:287-478 | every run of inserts and erasing lookups keeps the invariant, with the epoch never overfilled beyond its bound |
| CuckooTable.PackedFlags.BitSet | src/cuckoocache.h:40-114 | setting a packed flag changes that flag only |
| CuckooTable.PackedFlags.BitUnset | src/cuckoocache.h:40-114 | clearing a packed flag changes that flag only |
| CuckooTable.PackedFlags.BitIsSet | src/cuckoocache.h:40-114 | reads a packed flag |
| CuckooTable.Table.AllowErase | src/cuckoocache.h:264-267 | marks one slot as collectable in the packed flags and no other |
| CuckooTable.Table.PleaseKeep | src/cuckoocache.h:273-276 | marks one slot as kept in the packed flags and no other |
| CuckooTable.Table.constructor | src/cuckoocache.h:338-351 | sizes, epoch and depth of a new table |
| CuckooTable.Table.CheckEpoch | src/cuckoocache.h:287-319 | the in-place epoch check is the one on values |
| CuckooTable.Table.DisplaceOnce | src/cuckoocache.h:405-438 | one turn is one turn of the recursion on values, and its search for the last location succeeds |
| CuckooTable.Table.DisplaceFrom | src/cuckoocache.h:405-438 | the displacement loop is the recursion on values, to the depth limit |
| CuckooTable.Table.Add | src/cuckoocache.h:391-439 | the in-place insertion is the one on values |
| CuckooTable.Table.Lookup | src/cuckoocache.h:468-478 | the in-place lookup is the one on values |
| Bloom.WipedBits | src/bloom.cpp:337-348 | the masked wipe clears exactly the places of the reused generation |
| Bloom.PutExact | src/bloom.cpp:349-357 | setting both bits records the generation at that place only |
| Bloom.LastKeysRecent | src/bloom.cpp:289-358 | the last two generations' worth of keys are in the last three generations |
| Bloom.RollingBloomFilter.constructor | src/bloom.cpp:289-314 | two generations hold at least the promised number of elements, and every word is zero |
| Bloom.RollingBloomFilter.Insert | src/bloom.cpp:329-358 | inserting keeps all recent keys marked through wipes and overwrites |
| Bloom.RollingBloomFilter.Contains | src/bloom.cpp:366-378 | finds each of the last two generations' worth of inserted keys, and nothing while every word is zero, if there is a hash function |
| Bloom.RollingBloomFilter.Reset | src/bloom.cpp:386-392 | clears every word and forgets everything inserted, so that nothing is found if there is a hash function |
| DbStore.ReadsOverlay | src/dbwrapper.h:631-664 | reading through any nesting is reading the parent overlaid with writes and deletes |
| DbStore.WriteKeeps | src/dbwrapper.h:610-623 | writing changes one key, keeps writes and deletes disjoint and the usage exact |
| DbStore.EraseKeeps | src/dbwrapper.h:671-680 | erasing changes one key and keeps the same |
| DbStore.CommitExact | src/dbwrapper.h:688-696 | erasing the deletes and writing the writes, in any order, makes the parent equal the overlay |
| DbStore.Transaction.ReadKey | src/dbwrapper.h:631-647 | reads the overlay |
| DbStore.Transaction.WriteKey | src/dbwrapper.h:610-623 | the in-place write is the write on values |
| DbStore.Transaction.EraseKey | src/dbwrapper.h:671-680 | the in-place erase is the erase on values |
| DbStore.Transaction.Clear | src/dbwrapper.h:682-686 | nothing is overlaid any more |
| DbStore.Transaction.GetMemoryUsage | src/dbwrapper.h:702-713 | the exact sum over writes and deletes, never negative |
| DbStore.Transaction.Commit | src/dbwrapper.h:688-696 | afterwards the parent reads as the transaction did, and so does the emptied transaction |
| DbIterator.LessTransitive | src/dbwrapper.h:556-565 | the key order is transitive |
| DbIterator.LessTotal | src/dbwrapper.h:556-565 | and total |
| DbIterator.MergeEnumerates | src/dbwrapper.h:396-545 | merging own writes with visible parent keys lists the overlay's keys in order, each once |
| DbIterator.StoreIterator.SkipDeletedAndOverwritten | src/dbwrapper.h:522-530 | moves the parent past hidden keys and loses none that is visible |
| DbIterator.StoreIterator.DecideCur | src/dbwrapper.h:532-544 | chooses the smaller of the two next keys |
| DbIterator.StoreIterator.SeekToFirst | src/dbwrapper.h:422-427 | what is left is every key of the overlay, ascending |
| DbIterator.StoreIterator.Seek | src/dbwrapper.h:434-439 | what is left is every key of the overlay from the given one on, ascending |
| DbIterator.StoreIterator.Next | src/dbwrapper.h:445-458 | what is left loses its first key, through any nesting |
| DbIterator.StoreIterator.Valid | src/dbwrapper.h:441-443 | valid exactly while keys are left |
| DbIterator.StoreIterator.GetKey | src/dbwrapper.h:487-496 | the first of the keys left |
| AddrBook.SwapKeeps | src/addrman.cpp:109-127 | swapping two places of `vRandom` keeps the tables consistent |
| AddrBook.DeleteKeeps | src/addrman.cpp:129-146 | so does deleting an entry that is neither tried nor referenced |
| AddrBook.UnreferenceKeeps | src/addrman.cpp:148-161 | a place in the new table is held by an entry with references, and emptying it keeps the counts right |
| AddrBook.ReferenceKeeps | src/addrman.cpp:341-345 | giving an empty place to an entry keeps the counts right |
| AddrBook.DemoteKeeps | src/addrman.cpp:182-191 | taking an entry out of the tried table keeps all but the counters right, by one |
| AddrBook.PromoteKeeps | src/addrman.cpp:204-208 | putting an unreferenced entry into its tried place keeps the tables right |
| AddrBook.CreateKeeps | src/addrman.cpp:92-107 | a created entry has an unused id and is in no table |
| AddrBook.SizeIsSum | src/addrman.cpp:429-430 | `vRandom` lists every id once, so its length is the sum of the counters |
| AddrMan.AddrMan.constructor | src/addrman.h:561-589 | a new manager is empty and consistent |
| AddrMan.AddrMan.Find | src/addrman.cpp:74-90 | finds the entry under the service's key, with the port zeroed if ports are not discriminated |
| AddrMan.AddrMan.SwapRandom | src/addrman.cpp:109-127 | exchanges two places and both back references |
| AddrMan.AddrMan.Delete | src/addrman.cpp:129-146 | removes one entry from all three indexes |
| AddrMan.AddrMan.Create | src/addrman.cpp:92-107 | adds one entry to all three indexes under the next id |
| AddrMan.AddrMan.ClearNew | src/addrman.cpp:148-161 | empties one place, and only its holder loses a reference, or goes with its last one |
| AddrMan.AddrMan.RemoveFromNew | src/addrman.cpp:165-175 | although it looks at one position per bucket it removes every reference, so the count reaches zero as asserted |
| AddrMan.AddrMan.Evict | src/addrman.cpp:181-203 | the tried entry is back in the new table at its home with one reference |
| AddrMan.AddrMan.MakeTried | src/addrman.cpp:163-209 | the entry is in its tried place, the evicted one is new with one reference, and only the holder of its home may have lost a reference |
| AddrMan.AddrMan.FindBucket | src/addrman.cpp:240-250 | finds a bucket from any start, and fails exactly if there is no reference |
| AddrMan.AddrMan.Good | src/addrman.cpp:211-279 | marks, moves or queues the entry about exactly this service, keeps the manager consistent, and never empties a tried place |
| AddrMan.AddrMan.PlaceNew | src/addrman.cpp:330-350 | a place is taken over exactly if empty, terrible, or shared while the new entry has none; an entry left without any is deleted |
| AddrMan.AddrMan.Add | src/addrman.cpp:281-352 | hearing of a service creates or refreshes its entry, may give it a further place, never touches the tried table, and returns whether the service was unknown |
| AddrMan.AddrMan.Attempt | src/addrman.cpp:354-374 | only the statistics of the entry about exactly this service change |
| AddrMan.AddrMan.GetAddr | src/addrman.cpp:501-520 | returns the entries that are not terrible among the first places of the shuffled list, at most the share allowed, changing only the order |
| AddrMan.AddrMan.ResolveOne | src/addrman.cpp:580-626 | one collision is erased, kept or resolved by replacing the holder, as the times say, or by moving the entry into its tried place if that is empty, which it never is while waiting ids are blocked |
| AddrMan.AddrMan.ResolveCollisions | src/addrman.cpp:577-634 | each waiting id gets exactly one turn, the turns lead from the old manager to the new one, each erases, keeps or replaces as its times say, and exactly the erased ids stop waiting; no tried place is emptied |
| AddrMan.AddrMan.SelectTriedCollision | src/addrman.cpp:636-661 | returns the tried entry that blocks the id drawn; nothing exactly if none waits or the one drawn is gone, which is then forgotten; the manager stays consistent exactly if the place looked up is not empty, and else gains a blank entry |
| AddrMan.AddrMan.Clear | src/addrman.h:561-582 | everything but the waiting ids is forgotten under a new key, the manager stays consistent, and waiting ids are blocked exactly if there are none |
| AddrMan.ClearedCollisions | src/addrman.h:561-582 | over an empty manager no waiting id is blocked |
| AddrMan.StaleAfterClear | src/addrman.cpp:636-661 | after clearing, any service heard of can take over a waiting id with an empty tried place, and looking that up makes the manager inconsistent |
| AddrMan.CollisionsKept | src/addrman.cpp:577-661 | waiting ids stay blocked while ids are not reused, tried places not emptied and only blocked ids start to wait |
| AddrMan.AddrMan.Perform | src/addrman.cpp:74-661 | one operation keeps the manager consistent and at most ten ids waiting, or is a selection among ids that were not blocked |
| AddrMan.AddrMan.Run | src/addrman.cpp:74-661 | every run, clearing included, keeps the manager consistent with at most ten waiting ids, unless a collision with an empty place is selected, which needs a `Clear` before it; without `Clear` waiting ids stay blocked, no id is reused and no tried place is emptied |
| AddrFile.Serialize | src/addrman.h:336-394 | writes the file of a consistent manager, with the counters right wherever they are asserted |
| AddrFile.Unserialize | src/addrman.h:396-559 | for every file the loops give the reading about which the round trip and the placing of entries are proved, or refuse it |
| AddrFile.CountsFit | src/addrman.h:436-448 | a consistent manager's counts are never refused, because tables hold no more |
| AddrFile.RoundTrip | src/addrman.h:336-559 | writing and reading gives the same entries in the same places with the same counts up to renaming of ids, losing nothing; the result is consistent exactly if each service is its own key |
| AddrFile.RoundTripConsistent | src/addrman.h:336-559 | with ports discriminated the result is consistent |
| AddrFile.LostToLookup | src/addrman.h:454-472 | without, an entry with a port is not found after reading |
| AddrLoad.LoadedTables | src/addrman.h:396-559 | whatever file is accepted, with the map of autonomous systems or the bucket count changed or not, both tables, the counters and the random list of the result are right |
| AddrLoad.IndexExact | src/addrman.h:450-559 | pruning leaves a right index exactly if, before it, each service is its own key and no entry that has a place shares its service with another |
| AddrLoad.LoadedConsistent | src/addrman.h:396-559 | so the manager read from any accepted file is consistent if and only if each service read is its own key and, once places are given out and before pruning, no entry that has one shares its service with another |
| AddrLoad.DistinctConsistent | src/addrman.h:396-559 | for which it is enough that the file lists distinct services that are their own keys |
| AddrLoad.TwiceListed | src/addrman.h:450-559 | a file that lists an entry twice is accepted, and the manager read from it is not consistent |
| Bech32.StepLinear | src/bech32.cpp:33-90 | the checksum step is linear |
| Bech32.ShiftInjective | src/bech32.cpp:33-90 | its shift is injective |
| Bech32.BurstDetected | src/bech32.cpp:33-90 | sequences that differ only in six consecutive places have different remainders |
| Bech32.ChecksumUnique | src/bech32.cpp:114-135 | only one checksum verifies |
| Bech32Codec.CharsetExact | src/bech32.cpp:16-28 | each value's character is printable, lower case, not the separator, and maps back |
| Bech32Codec.CharsetReverse | src/bech32.cpp:16-28 | each character with a value is that value's character in either case |
| Bech32Codec.CreatedVerifies | src/bech32.cpp:114-135 | a created checksum verifies |
| Bech32Codec.VerifiedIsCreated | src/bech32.cpp:114-135 | a checksum that verifies is the created one |
| Bech32Codec.BurstNeverVerifies | src/bech32.cpp:114-121 | two lists that differ only within six consecutive values never both verify |
| Bech32Codec.DecodeEncode | src/bech32.cpp:143-190 | decoding an encoding gives it back exactly if the prefix is non-empty and printable and the length is at most 90, else fails |
| Bech32Codec.EncodeDecode | src/bech32.cpp:143-190 | encoding what was decoded gives the text in lower case |
| Bech32Codec.PolyMod | src/bech32.cpp:33-90 | on any bytes the unrolled loop with its constants is the fold that xors all eight bits, and on values below 32 the polynomial remainder about which linearity is proved |
| Bech32Codec.ByteFoldPlain | src/bech32.cpp:80-88 | on values below 32 the high bits of a byte play no part |
| Bech32Codec.CheckSum | src/bech32.cpp:124-135 | returns the six groups of the remainder, which for values below 32 are the one checksum that verifies |
| Bech32Codec.EncodeString | src/bech32.cpp:143-156 | the text built step by step is the encoding of the round trips |
| Bech32Codec.DecodeString | src/bech32.cpp:159-190 | the scan for case, separator, characters and checksum accepts and returns exactly what the round trips say |
| Base58.EncodeFits | src/base58.cpp:94-96 | the buffer of 138/100 digits per byte holds every number of that many bytes |
| Base58.DecodeFits | src/base58.cpp:48-50 | the buffer of 733/1000 bytes per digit holds every number of that many digits |
| Base58Codec.CharExact | src/base58.cpp:16-34 | each digit's character maps back and only zero is '1' |
| Base58Codec.DigitExact | src/base58.cpp:16-34 | each character with a digit is that digit's character |
| Base58Codec.MulAdd | src/base58.cpp:53-66 | the in-place loop multiplies and adds, and no carry is left |
| Base58Codec.Convert | src/base58.cpp:94-115 | the digits left after the leading zeros are those of the input's number |
| Base58Codec.DecodeEncode | src/base58.cpp:36-123 | decoding an encoding gives the bytes back, for every byte string |
| Base58Codec.EncodeDecode | src/base58.cpp:36-123 | encoding what was decoded gives the text without the white space around it |
| Base58Codec.EncodeBase58 | src/base58.cpp:85-123 | the digit buffer gives the encoding of the round trips, and its carry assertion never fails |
| Base58Codec.DecodeBase58 | src/base58.cpp:36-83 | accepts exactly one valid word between white space and returns its bytes, and its carry assertion never fails |
| Golomb.UnpackPack | src/streams.h:542-596 | flushed bytes read back as the bits written and less than a byte of zeros |
| Golomb.CompactSizeExact | src/serialize.h:319-349 | a written size is read back exactly if it is within the limit that reading enforces |
| Golomb.DecodeEncode | src/blockfilter.cpp:27-55 | every 64-bit value is decoded from its code, whatever follows |
| Golomb.GolombRiceEncode | src/blockfilter.cpp:27-41 | writes the code, in runs of at most 64 ones |
| Golomb.GolombRiceDecode | src/blockfilter.cpp:44-55 | reads the code, and fails exactly if the stream is too short |
| GcsFilter.MapIntoRangeExact | src/blockfilter.cpp:62-86 | the piecewise product is floor(x * n / 2^64), with no overflow on the way |
| GcsFilter.SortedExact | src/blockfilter.cpp:96-105 | the hashed set is ascending and keeps every value as often as it was there |
| GcsFilter.BuildHashedSet | src/blockfilter.cpp:96-105 | returns the hashes of all elements, ascending, in whatever order the set is walked |
| GcsFilter.DecodeDeltas | src/blockfilter.cpp:134-194 | decoding differences gives back every value |
| GcsFilter.BuiltIsAccepted | src/blockfilter.cpp:111-162 | a built filter is accepted again, as the same filter, exactly if its size is readable |
| GcsFilter.MergeFindsCommon | src/blockfilter.cpp:164-194 | on ascending lists the walk finds a common value exactly if there is one |
| GcsFilter.DecidedExact | src/blockfilter.cpp:164-194 | on ascending lists the walk ends before the values do exactly if some value is common or the last value is above every query |
| GcsFilter.MatchStored | src/blockfilter.cpp:164-194 | on a filter that holds all its values the answer is that of the full walk |
| GcsFilter.BuiltMatches | src/blockfilter.cpp:134-200 | a built filter matches an element exactly if its hash is among those of the set |
| GcsFilter.BuiltMatchesMembers | src/blockfilter.cpp:134-200 | it matches every member |
| GcsFilter.BuiltMatchesAny | src/blockfilter.cpp:164-206 | matching a set at once is matching one of its elements |
| GcsFilter.TooLargeToMatch | src/blockfilter.cpp:164-169 | a filter of unreadable size cannot be matched |
| GcsFilter.BuildFilter | src/blockfilter.cpp:134-162 | the stream written difference by difference is the filter about which acceptance and matching are proved, or the set is too large |
| GcsFilter.ParseFilter | src/blockfilter.cpp:111-132 | reads a filter, or refuses it for any of its reasons |
| GcsFilter.MadeSizeAgrees | src/blockfilter.cpp:111-170 | the assertion that the size read while matching is the filter's size holds for filters of both constructors |
| GcsFilter.MatchInternal | src/blockfilter.cpp:164-194 | answers as the full walk would, and fails exactly if the size is refused or the stream ends before the walk is decided |
| GcsFilter.Match | src/blockfilter.cpp:196-200 | the same for one element |
| GcsFilter.MatchAny | src/blockfilter.cpp:202-206 | the same for the sorted set |
| CompactBlocks.PlacedLeaves | src/blockencodings.cpp:61-77 | an accepted message leaves exactly one empty place for each short id |
| CompactBlocks.PlaceStops | src/blockencodings.cpp:61-77 | a refused message leaves the transactions before the refused one placed |
| CompactBlocks.IdTableSize | src/blockencodings.cpp:83-105 | the size test refuses exactly the messages with equal short ids |
| CompactBlocks.IdTableAt | src/blockencodings.cpp:83-101 | the i-th short id leads to the i-th empty place |
| CompactBlocks.ScanAllKeeps | src/blockencodings.cpp:107-165 | scanning a pool leaves prefilled places alone, fills others only with offers of their short id, and counts them exactly |
| CompactBlocks.PoolFillsUnique | src/blockencodings.cpp:107-134 | after the mempool a place is filled exactly if one transaction matched its short id, so ambiguous ones are asked for |
| CompactBlocks.PoolFills | src/blockencodings.cpp:107-134 | the same with the early stop, for the transactions looked at: all of them, unless every place counts as filled |
| CompactBlocks.ScanStops | src/blockencodings.cpp:131-132 | the early stop leaves what scanning a first part of the pool leaves, and only once every place counts as filled |
| CompactBlocks.AllHeld | src/blockencodings.cpp:131-132 | the scan may stop early because then every place is filled |
| CompactBlocks.InitAccepts | src/blockencodings.cpp:51-170 | all of this for every accepted message |
| CompactBlocks.FillAccepts | src/blockencodings.cpp:178-199 | a block is put together exactly if as many transactions come as there are empty places |
| CompactBlocks.FillRebuilds | src/blockencodings.cpp:178-199 | the missing transactions in order complete the block that the places agree with |
| CompactBlocks.FillOnly | src/blockencodings.cpp:178-199 | whatever is completed agrees with the places and holds the missing ones in order |
| CompactBlocks.RetryAsksForMore | src/blockencodings.cpp:183-194 | after an attempt with too few transactions another asks for those already moved out as well, and the right ones complete the block only if nothing had been moved |
| CompactBlocks.Rebuilds | src/blockencodings.cpp:21-220 | a message made from a block of at most 65535 transactions is accepted, and without short-id collisions exactly that block is rebuilt |
| CompactBlocks.PartiallyDownloadedBlock.PlacePrefilled | src/blockencodings.cpp:61-77 | places the prefilled transactions within bounds, or those before the one refused |
| CompactBlocks.PartiallyDownloadedBlock.MapShortIds | src/blockencodings.cpp:83-101 | numbers the empty places in 16 bits within bounds |
| CompactBlocks.PartiallyDownloadedBlock.ScanOffers | src/blockencodings.cpp:107-165 | the scan of one pool, with its early stop |
| CompactBlocks.PartiallyDownloadedBlock.InitData | src/blockencodings.cpp:51-170 | refuses exactly what the checks refuse, never indexes out of bounds, and leaves exactly the places about which rebuilding is proved, or those reached before the refusal |
| CompactBlocks.PartiallyDownloadedBlock.FillBlock | src/blockencodings.cpp:178-220 | completes and checks the block or refuses; the header is cleared exactly if there were transactions for all empty places, and otherwise the places before the one that could not be filled are emptied |

## Left out

- CheckQueue.Pool.EndSection: the 32-bit width of the counters, the stop request, the workers' condition variable and memory ordering; steps are atomic critical sections.
- CompactBlocks.PartiallyDownloadedBlock.InitData: `extra_count`, which is only logged, and the counters printed with it.
- CuckooTable.Table.constructor: the depth limit, a floating-point logarithm of the size, is a parameter.
- CoinsDb.CoinsViewDb.BatchWrite: LevelDB itself, whose batches are taken to be atomic, and the size estimate that cuts them, which is any function.
- CoinsCache.CoinsViewCache.Flush: the best block kept by each cache between flushes is a parameter.
- AddrMan.AddrMan.ResolveCollisions: the order of the ids (any order is allowed), and one clock reading for the whole call.
- AddrMan.AddrMan.Add: its result means that the service was unknown, not that the entry was kept.
- AddrFile.Unserialize: files whose counts, of entries or of bucket rows, disagree with their contents are refused, where a byte stream would be misread; the byte layout of one entry.
- Bloom.RollingBloomFilter.constructor: the floating-point choice of the sizes, which are parameters.
- Golomb.GolombRiceEncode: the byte buffers of the bit streams; a stream is its sequence of bits.
- Replay.ReplayBlocks: reading blocks and processing special transactions are a predicate on heights; the other database's transaction, progress messages, and the code after the refusal of a fork, which is never reached.
- Replay.RecoveryExact: the block index is the same at every start, and that the first flush brings the coins of the old block to those of the new one is taken from connecting blocks, which is not modelled.
- Coin caches: `SetBackend`, `GetTransaction` helpers, and the allocator's view of memory usage.
- Address manager: `Select_` and its chances, `Connected_`, `SetServices_`, `GetAddressInfo_`, the time fields that `Check_` inspects, and loading the map of autonomous systems.
- Block index: `FindEarliestAtLeast`, `GetBlockProofEquivalentTime`, file positions and status flags.
- Integers: hexadecimal text, conversion to double, and widths other than by parameter.
- Database: value type tags in `CDBTransaction`, obfuscation, batches and LevelDB itself, which is a map walked in order.
- Bloom: `CBloomFilter`.
- Base58: checksummed forms, which add a hash to the same codec.
- Filters: block filter hashes, headers and the choice of elements from a block.
- The rest of the node: networking, consensus rules, masternodes, wallet, RPC and I/O.
