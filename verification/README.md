# A model of the TecraCoin node's algorithmic core

TecraCoin is a Bitcoin, Zcoin and Dash descendant. This project states in Dafny what the self-contained
algorithms inside the node do, and proves the properties that the rest of the node relies on. `dafny verify
dfyconfig.toml` checks all of it; nothing here executes the node.

Each part of the node has its own module. Where the source updates an object or an array step by step, the model
is a class or an array with the same fields and loops, and its methods are proved against functions on values;
where several threads or peers are involved, the model is a state machine over the steps of the code and the
theorems are about every run. Hashes, signatures, random numbers, the clock and validation verdicts are parameters
that a theorem quantifies over.

| files | part of the node | main results |
|---|---|---|
| `CheckQueue` | script-check queue | under every interleaving `Wait` answers exactly for the checks added, no wake-up is lost, `Wait` always finishes |
| `InstantSend`, `InstantSendSafety`, `InstantSendProgress`, `InstantSendSharpness`, `InstantSendNode` | transaction locks by votes | no two locked transactions ever conflict, and no lock is ever lost, exactly if two quorums must overlap; exactly when votes and a request, in any order, end in a lock |
| `Coins` | layered cache of unspent coins | every stack of caches behaves like one flat map; the FRESH exception is unreachable |
| `AddrManState`, `AddrManBook`, `AddrMan`, `AddrManRules`, `AddrManStore`, `AddrManRoundTrip`, `AddrManReader`, `AddrManStream` | peer address manager | every operation keeps the structural part of the consistency check; what is written to disk is accepted and read back without loss; exactly which other streams are read into a consistent manager |
| `CuckooCache`, `CuckooTable` | signature cache | only what was inserted is found, what an insertion can lose, how many elements live, how long a recent one stays |
| `DbKeys`, `DbTransaction`, `DbIterator` | database transactions | nested transactions and scopes act like one map; the merging iterator walks the merged view in byte order |
| `Base58` | address encoding | both round trips, and the buffers are always large enough |
| `Numbers`, `Limbs`, `LimbShifts`, `ArithUint`, `CompactTarget` | 256-bit arithmetic, difficulty targets | every limb operation is exact modulo 2^BITS, the compact form is stable, block work is exact |
| `Chain`, `ChainSteps` | block tree and active chain | skip-list walks equal parent walks and take O(log² height) steps; forks and locators are right |
| `RollingBloom` | rolling Bloom filter | it is a plain Bloom filter over the last two to three generations of keys |
| `CompactBlock`, `CompactScan` | compact block relay (BIP 152) | a block of up to 65536 transactions is rebuilt exactly, whatever the pool holds; exactly which larger ones the 16-bit slots break |

`Sets` and `Numbers` hold facts that several parts share. "Consistent" means the structural part of `CAddrMan::Check_`
(`src/addrman.cpp:384-459`): everything but its conditions on time stamps and on the key.

Where the code and its own comments disagree, the model follows the code:

- `src/cuckoocache.h:395-396` says that the first element to be moved is the one at `locs[0]`; the search for an
  invalid location returns the end, so it is the one at `locs[1]` (`CuckooCache.InTurn`).
- `src/cuckoocache.h:275-278` says that an epoch ages when it has more live elements than the epoch size; the test is
  `>=`, so as many are enough (`CuckooCache.FullAges`).
- The default-constructed element fills the whole cuckoo table before anything is inserted, so it is found without
  having been inserted. It is the only such element: `CuckooCache.FoundWasInserted` and `CuckooCache.SoundExactly`.
- `src/arith_uint256.cpp:67-81` clears the left operand before it reads the right one, so multiplying a number in
  place by itself gives zero. `ArithUint.BaseUint.MulAssign` states both cases.
- `src/coins.cpp:71-77` lowers `cachedCoinsUsage` before it throws on an overwrite, so the accounting is exact only
  after calls that return normally. `Coins.CoinsViewCache.AddCoin` states by how much it is off after the exception.
- `CAddrMan::Clear` (`src/addrman.h:459-478`) does not empty the id and address maps, so the disk round trip is
  stated for reading into a freshly constructed manager.
- `CAddrMan::Add_` (`src/addrman.cpp:242-313`) reports a new address even if the entry is dropped again at once
  because its place is taken.
- The quorum sizes `nInstantSendSigsRequired` and `nInstantSendSigsTotal` are never assigned in
  `src/chainparams.cpp`, so both are zero. A completed lock can be lost exactly if twice the first does not exceed the
  second (`InstantSendSharpness.OverlapIsExact`), and with zeros it can: `InstantSendSharpness.NoVotesLoseLock` gives
  the run.
- A list of transaction indexes is read with a 16-bit running offset (`src/blockencodings.h:55-61`), which starts
  again at zero after the index 65535, so a list that goes on after it is not ascending.
  `CompactBlock.DifferencesBack` gives the exact condition and `CompactBlock.WrapsAround` an example.
- A compact block may announce more transactions than 16 bits can number, but slots and the running offset are kept in
  16 bits (`src/blockencodings.cpp:82-87`). `CompactBlock.StoredExact` gives the exact condition for the slots to be
  right and `CompactBlock.ReliableExactly` that for the block to come out whatever the pool holds: unless short ids
  collide, at most 65536 transactions (`CompactBlock.SizeIsExact`). `CompactBlock.LargeBlockMisplaced` says what goes
  wrong above that, and `CompactBlock.FullPrefixNeverEnds` gives an announcement on which the search for an empty slot
  never ends.
- The reader of the address file checks the key size and two upper limits (`src/addrman.h:353-378`). It accepts
  negative counts and addresses that occur twice, and may then fail its own consistency check.
  `AddrManReader.ReadIsConsistent` gives the exact condition, `AddrManStream.UnusedListsExactly` says it of the stream
  itself where the bucket lists are not used, and `AddrManStream.TwiceNamedFails` is an example.
- The comment at `src/cuckoocache.h:324` promises an epoch of 45 % of the table; the product is computed in 32 bits, so
  this is so exactly for tables of fewer than 2^27 places (`CuckooTable.EpochShare`).

## Model

| member | source | states |
|---|---|---|
| CheckQueue.BatchCount | src/checkqueue.h:110 | a batch has at least one and at most all of the queued checks |
| CheckQueue.BatchExactly | src/checkqueue.h:105-110 | a batch of more than one check exceeds neither nBatchSize nor an equal share for every working or idle thread, and it is as large as these allow |
| CheckQueue.BackFirstAt | src/checkqueue.h:111-117 | the batch is the end of the queue, last check first |
| CheckQueue.CleanUpWakes | src/checkqueue.h:79-86 | the worker that finishes the last outstanding checks wakes the sleeping master, and no other clean-up wakes anybody |
| CheckQueue.AddWakes | src/checkqueue.h:151-162 | adding one check wakes one sleeping worker if there is one, adding more wakes all of them, and nobody else is touched |
| CheckQueue.BackFirstConserves | src/checkqueue.h:111-117 | taking a batch from the back of the queue neither loses nor copies a check |
| CheckQueue.RunBatchMeaning | src/checkqueue.h:121-124 | a batch run with the flag `fOk` ends true exactly if the flag was true and every check in it succeeds |
| CheckQueue.StepInv | src/checkqueue.h:76-127 | every locked section of every thread, and every spurious wake-up, keeps the invariant: exact counters, conserved checks, right verdict so far |
| CheckQueue.RunInv | src/checkqueue.h:69-127 | the invariant holds after any number of steps in any order |
| CheckQueue.ReachableInv | src/checkqueue.h:42-60 | in every reachable state nTodo counts queued and held checks, each added check is in exactly one place, and nIdle and nTotal count threads |
| CheckQueue.WaitAnswers | src/checkqueue.h:91-100 | each Wait returns true exactly if every check added since the previous Wait would succeed, and the rounds are consecutive pieces of everything ever added |
| CheckQueue.SleeperHasWorker | src/checkqueue.h:83-85 | while the master sleeps without a notification the queue is empty and a worker holds a batch |
| CheckQueue.NoLostWakeup | src/checkqueue.h:91-104 | the same for every reachable state of every interleaving: the notification is still to come |
| CheckQueue.MasterMaySleep | src/checkqueue.h:91-104 | the master can come to sleep while a worker holds the last check |
| CheckQueue.WaitNeverStuck | src/checkqueue.h:143-146 | as long as the master is in Wait some thread can move without a spurious wake-up |
| CheckQueue.StepMeasure | src/checkqueue.h:77-126 | every real step while the master waits uses up a measure that nothing raises |
| CheckQueue.WaitFinishes | src/checkqueue.h:142-146 | under every schedule only boundedly many real steps happen before Wait returns |
| InstantSendNode.CInstantSend.UpdateVotedOutpoints | src/instantx.cpp:445-481 | marks both candidates as attacked where a tnode has voted for two, and lists the candidate for the outpoint |
| InstantSendNode.CInstantSend.AddVote | src/instantx.cpp:1177-1229 | a vote is counted once per tnode and outpoint, only for an outpoint of the candidate |
| InstantSendNode.CInstantSend.ProcessNewTxLockVote | src/instantx.cpp:322-402 | a vote without a request waits as an orphan unless it is spam, a late one is ignored, a counted one may complete the lock; the answer in each case |
| InstantSendNode.CInstantSend.ProcessOrphanTxLockVote | src/instantx.cpp:404-443 | an orphan vote is counted if its request is known and in time, and only then leaves the orphan map |
| InstantSendNode.CInstantSend.ProcessOrphanTxLockVotes | src/instantx.cpp:483-496 | the orphan votes are replayed in map order |
| InstantSendNode.CInstantSend.CreateTxLockCandidate | src/instantx.cpp:156-192 | a request opens its candidate with all its inputs, or completes one opened by an early vote, or is too late |
| InstantSendNode.CInstantSend.AddOutPointLocks | src/instantx.cpp:1212-1215 | every input gets a lock without votes, and locks that exist stay |
| InstantSendNode.CInstantSend.ProcessTxLockRequest | src/instantx.cpp:98-154 | creation, replay of the orphans and the attempt to finalize, in this order |
| InstantSendNode.CInstantSend.TryToFinalizeLockCandidate | src/instantx.cpp:498-514 | locks the inputs only if InstantSend is enabled, every outpoint is ready and no conflict is in the way |
| InstantSendNode.CInstantSend.ResolveConflicts | src/instantx.cpp:572-646 | finds the first input that is locked for, or spent in the mempool by, another transaction, and drops both candidates if the clean-up runs |
| InstantSendNode.CInstantSend.LockTransactionInputs | src/instantx.cpp:547-561 | locks every input that is not locked yet if InstantSend is enabled, and otherwise nothing |
| InstantSendSafety.Spoiled | src/instantx.cpp:445-481 | two candidates with `required` votes each on one outpoint share a tnode, so both are marked as attacked there |
| InstantSendSafety.NeverBothReady | src/instantx.cpp:1196-1239 | two candidates with a common outpoint are never ready together |
| InstantSendSafety.ReadyIsUnopposed | src/instantx.cpp:572-600 | a ready candidate finds no input locked for another transaction |
| InstantSendSafety.NeverDropsBoth | src/instantx.cpp:584-610 | the branch that drops two completed locks is not taken |
| InstantSendSafety.LockCoversInputs | src/instantx.cpp:547-561 | locking a ready candidate leaves all its inputs locked for it |
| InstantSendSafety.StepKeepsInv | src/instantx.cpp:98-154 | every request and every vote keeps the invariant, takes no lock away and moves none |
| InstantSendSafety.RunKeepsInv | src/instantx.cpp:322-402 | so does every sequence of messages |
| InstantSendSafety.LocksNeverConflict | src/instantx.cpp:498-514 | two transactions locked at any two moments of a run have no input in common |
| InstantSendSafety.LocksAreWhole | src/instantx.cpp:815-836 | in every reachable state a locked outpoint belongs to a transaction that has locked all its inputs |
| InstantSendProgress.ReplayVotes | src/instantx.cpp:483-496 | after the replay a tnode has voted exactly if it had voted before or one of its waiting votes is for a requested transaction, in time and on one of its outpoints |
| InstantSendProgress.RequestCounts | src/instantx.cpp:98-154 | after a timely request every such waiting vote is among the votes of its candidate; a waiting vote leaves the map exactly if it is the first one of a tnode that had not voted, and then it is the one recorded |
| InstantSendProgress.LocksExactly | src/instantx.cpp:98-154 | whatever the order of requests and votes, and whoever votes twice, a transaction with nothing in its way ends up locked if and only if it was requested and each input has votes of at least `required` tnodes |
| InstantSendProgress.ResolveExactly | src/instantx.cpp:572-646 | a candidate is let through exactly if no input is locked for or spent in the mempool by another transaction and, unless it is mined, all are unspent; two are dropped exactly if the first input in the way is locked for a candidate |
| InstantSendProgress.NewLockIsClear | src/instantx.cpp:498-561 | whatever the message, a newly locked outpoint belongs to a ready transaction with all inputs locked and none spent elsewhere |
| InstantSendProgress.TooLateNeverLocks | src/instantx.cpp:156-192 | a request whose early votes have waited too long is remembered, and its transaction is never locked, whatever comes after |
| InstantSendProgress.DropForgets | src/instantx.cpp:597-610 | dropping two candidates forgets both and everything on their outpoints, and nothing else |
| InstantSendSafety.TriedIsFinalized | src/instantx.cpp:498-514 | the attempt to finalize is made last, in a state that the message has made by then and that still satisfies the invariant |
| InstantSendSafety.RunNeverDropsBoth | src/instantx.cpp:572-646 | after every run, the next message does not take the "dropping both" branch in the state in which it tries to finalize |
| InstantSendSharpness.NoVotesLoseLock | src/instantx.cpp:1231-1239 | with no votes required a request locks at once and a second one drops both |
| InstantSendSharpness.OverlapIsNeeded | src/instantx.cpp:1196-1199 | whenever 2 * required <= total, some run with honest votes only completes a lock and then drops it with its rival |
| InstantSendSharpness.OverlapSuffices | src/instantx.cpp:572-610 | whenever 2 * required > total, no run loses a completed lock |
| InstantSendSharpness.OverlapIsExact | src/instantx.cpp:1196-1199 | some run loses a completed lock if and only if 2 * required <= total, zero and negative numbers included |
| Coins.AddOk | src/coins.cpp:70-83 | an added entry has right flags and the view gains the coin |
| Coins.SpendOk | src/coins.cpp:95-108 | a spent entry has right flags, the view loses the coin, and the accounting goes down by it |
| Coins.UncheckedAdd | src/coins.cpp:64-83 | adding without `possible_overwrite` is safe exactly if the view below has no coin there |
| Coins.UncacheOk | src/coins.cpp:204-211 | a clean entry can be forgotten |
| Coins.FetchOk | src/coins.cpp:38-53 | a fetched entry agrees with the view below, and is FRESH only if nothing is there |
| Coins.MergeOk | src/coins.cpp:141-195 | an entry with right flags is merged rightly and its FRESH flag is never misapplied |
| Coins.UnspendableExactly | src/script/script.h:676-679 | a script that starts with OP_RETURN or is longer than 10000 bytes |
| Coins.FlatAdds | src/coins.cpp:68-95 | adding a coin that can be spent puts it there, adding any other does nothing, and no other outpoint notices |
| Coins.UsageOne | src/coins.h:79-81 | an unspent coin takes the memory of its script, a spent one none |
| Coins.CleanStays | src/coins.cpp:141-143 | a clean entry is not handed down |
| Coins.ShortLived | src/coins.cpp:91-195 | a coin that is added and spent above the database leaves no entry behind, in one cache or across two |
| Coins.CoinsViewDB.BatchWrite | src/txdb.cpp:79-102 | writing the dirty entries makes the database the overlay of all entries |
| Coins.CoinsViewCache.FetchCoin | src/coins.cpp:38-53 | loads an entry without changing any view in the stack |
| Coins.CoinsViewCache.GetCoin | src/coins.cpp:55-62 | found means there is an entry, spent or not; its coin is what the view says |
| Coins.CoinsViewCache.AccessCoin | src/coins.cpp:112-119 | the coin of the view, or the null coin |
| Coins.CoinsViewCache.HaveCoin | src/coins.cpp:121-124 | true exactly for the unspent coins of the view |
| Coins.CoinsViewCache.AddCoin | src/coins.cpp:64-83 | when it throws, and otherwise the view with the coin added; unspendable coins are skipped |
| Coins.CoinsViewCache.SpendCoin | src/coins.cpp:95-108 | hands out the coin and removes it from the view |
| Coins.CoinsViewCache.Uncache | src/coins.cpp:204-211 | forgets an unmodified entry; no view changes |
| Coins.CoinsViewCache.BatchWrite | src/coins.cpp:141-195 | takes a child's entries; the "FRESH flag misapplied" exception cannot be reached, and the accounting stays exact |
| Coins.CoinsViewCache.BaseBatchWrite | src/coins.cpp:197-199 | whatever the base is, it comes to say what this cache said |
| Coins.CoinsViewCache.Flush | src/coins.cpp:197-202 | the view below becomes this one, this one stays, and the cache is empty |
| Coins.CoinsViewCache.Run | src/coins.cpp:38-211 | any sequence of operations on any stack does to its view what the plain map operations do |
| AddrManState.SlotsExactly | src/addrman.cpp:12-31 | the hashes put an address into one of 256 tried buckets or 1024 new ones, at one of 64 positions |
| AddrManRules.SourcesSpread | src/addrman.cpp:19-25 | whatever the peers of one network group announce ends up in at most 64 of the 1024 new buckets |
| AddrManRules.GroupSpreads | src/addrman.cpp:12-17 | the addresses of one network group are in at most eight of the 256 tried buckets of a consistent manager |
| AddrManState.CreateOk | src/addrman.cpp:81-91 | a created entry leaves everything consistent, apart from being in no table yet |
| AddrManState.SwapRandomOk | src/addrman.cpp:93-111 | swapping two places of the random order keeps it the inverse of the stored positions |
| AddrManState.RemoveOk | src/addrman.cpp:113-125 | removing an entry without references keeps the rest consistent |
| AddrManState.UnrefOk | src/addrman.cpp:127-140 | clearing a place of the "new" table keeps reference counts exact |
| AddrManState.RefOk | src/addrman.cpp:302-305 | filling a place of the "new" table keeps reference counts exact |
| AddrManState.UntryOk | src/addrman.cpp:163-170 | taking an entry out of the "tried" table keeps it and the counter exact |
| AddrManState.TryOk | src/addrman.cpp:185-187 | putting an entry into the "tried" table keeps it and the counter exact |
| AddrManBook.ListedIffKnown | src/addrman.cpp:384-459 | an address is known exactly if it is in one of the tables |
| AddrManBook.TablesDisjoint | src/addrman.cpp:384-459 | no address is in both tables, and none is twice in the "tried" table |
| AddrMan.CAddrMan.constructor | src/addrman.h:480-483 | a fresh manager is empty and consistent |
| AddrMan.CAddrMan.SwapRandom | src/addrman.cpp:93-111 | exchanges two places of the random order |
| AddrMan.CAddrMan.Delete | src/addrman.cpp:113-125 | removes exactly the entry; its assertions hold |
| AddrMan.CAddrMan.ClearNew | src/addrman.cpp:127-140 | empties one place, and deletes the entry if that was its last |
| AddrMan.CAddrMan.LeaveNew | src/addrman.cpp:144-152 | takes an entry out of every "new" bucket |
| AddrMan.CAddrMan.MakeSpace | src/addrman.cpp:160-182 | moves whoever is in the "tried" place back to the "new" table |
| AddrMan.CAddrMan.ReenterNew | src/addrman.cpp:172-181 | gives an entry evicted from "tried" its own place in the "new" table |
| AddrMan.CAddrMan.MakeTried | src/addrman.cpp:142-188 | both tables afterwards, address by address; the assertions hold and the structural part of the consistency check passes |
| AddrMan.CAddrMan.Find | src/addrman.cpp:68-79 | finds an address exactly if it is known |
| AddrMan.CAddrMan.FindNewBucket | src/addrman.cpp:219-234 | the search over all buckets from a random start always finds the entry |
| AddrMan.CAddrMan.Good | src/addrman.cpp:190-240 | which entry is promoted and which time stamps change; everything else stays |
| AddrManRules.GoodMoves | src/addrman.cpp:142-188 | place by place: the good address is in the tried table only, whoever it displaced is at the place its own source gives it, and all other places are as before |
| AddrManRules.GoodIsNotTerrible | src/addrman.cpp:190-210 | a good address is not terrible for a minute, and not for a week whatever fails, if it was seen lately |
| AddrMan.TerribleExactly | src/addrman.cpp:33-51 | when an entry is terrible, on its time stamps in seconds |
| AddrMan.CAddrMan.Add | src/addrman.cpp:242-313 | both tables and all entries after an announcement, who may take whose place, and the answer is true exactly for an unknown routable address |
| AddrMan.AnnouncedIsFair | src/addrman.cpp:291-311 | an entry with one place that is not terrible keeps it; an unknown address gets its place if that is free, its holder is terrible or has another place; a known one only if it is free or its holder terrible, and the news is worth it |
| AddrManRules.RefreshedExactly | src/addrman.cpp:251-264 | an announcement adds services, moves the time exactly if it is newer by an hour or a day, and changes nothing else of a record |
| AddrManRules.FirstHeardIsRefreshed | src/addrman.cpp:285-288 | the record of an unknown address is what an empty record becomes |
| AddrManRules.OddsFall | src/addrman.cpp:266-283 | an entry with N places gets the chance of another for exactly one of any 2^N consecutive random numbers, and never with eight places, in the tried table or without news |
| AddrMan.CAddrMan.HeardAgain | src/addrman.cpp:256-283 | what an announcement of a known address refreshes, and when it earns another place |
| AddrMan.CAddrMan.HeardFirst | src/addrman.cpp:284-289 | a first announcement creates an entry, which stays if it gets a place |
| AddrMan.CAddrMan.TakePlace | src/addrman.cpp:291-311 | the place is taken if it is free, terrible or well referenced elsewhere; an entry that ends up nowhere is deleted |
| AddrMan.CAddrMan.Occupy | src/addrman.cpp:302-305 | whoever has the place leaves it |
| AddrMan.CAddrMan.Draw | src/addrman.cpp:473-477 | one step of the shuffle changes neither table and keeps what has been drawn |
| AddrMan.CAddrMan.GetAddr | src/addrman.cpp:462-481 | the addresses handed out are the presentable ones of a shuffled prefix, up to the limit; both tables stay |
| AddrManRules.WantedExactly | src/addrman.cpp:464-466 | the limit is the largest number up to 2500 and up to 23 % of the addresses |
| AddrManRules.PresentableExactly | src/addrman.cpp:469-480 | an address is handed out exactly if one of the drawn entries has it and is not terrible |
| AddrManRules.PresentableOnce | src/addrman.cpp:469-480 | no address is handed out twice |
| AddrManStore.OrderSizes | src/addrman.h:322-335 | the two counters are the numbers of entries of each kind, so the assertions in Serialize hold |
| AddrManStore.RecordKeeps | src/addrman.h:23-66 | an entry that is written and read is the same but for what is kept in memory alone |
| AddrManStore.FlipTwice | src/addrman.h:315-371 | the bucket count is written with bit 30 flipped, which reading undoes and no small count survives unnoticed |
| AddrManStore.Serialize | src/addrman.h:303-351 | the stream: entries numbered in map order, "tried" entries, and the numbers in each bucket |
| AddrManStore.WriteNew | src/addrman.h:317-327 | the entries with references, and the number of each |
| AddrManStore.WriteTried | src/addrman.h:328-336 | the "tried" entries in map order |
| AddrManStore.WriteBuckets | src/addrman.h:337-350 | each bucket as the list of its entries' numbers |
| AddrManStore.ReadBuckets | src/addrman.h:423-439 | bucket lists are applied where they can be |
| AddrManStore.ReadNew | src/addrman.h:380-398 | the "new" entries, with a primary place each where the bucket lists cannot be used |
| AddrManStore.ReadTried | src/addrman.h:400-421 | the "tried" entries that find their place free |
| AddrManStore.PruneAll | src/addrman.h:441-451 | entries that nobody refers to are deleted |
| AddrManStore.Unserialize | src/addrman.h:353-457 | rejects exactly a wrong key size or a count above its limit, and otherwise is the decoding, negative counts included |
| AddrManRoundTrip.FilledIsCopy | src/addrman.h:423-451 | when all bucket lists are read the result is the same manager under new ids, with nothing to prune |
| AddrManRoundTrip.WrittenIsAccepted | src/addrman.h:372-378 | a consistent manager never has more entries than the reader accepts, because each has a place of its own |
| AddrManRoundTrip.RoundTrip | src/addrman.h:303-457 | what a consistent manager writes is accepted and read back consistent, with the same tables by address, records, reference counts and counters |
| AddrManReader.TablesReading | src/addrman.h:380-439 | whatever the records and bucket lists, if neither count is negative, the tables, the counters and the order list agree after reading, and the address map names the entry numbered last |
| AddrManReader.PrunedAll | src/addrman.h:441-451 | pruning removes exactly the entries without a place, and with each of them what the address map has for its address |
| AddrManReader.ReadIsConsistent | src/addrman.h:353-457 | any stream that can be read to its end gives a structurally consistent manager if and only if its counts are not negative and no entry that is kept shares its address with another one |
| AddrManStream.NumberedIsRead | src/addrman.h:380-421 | the entries are all new records and, of the tried ones, the first for each place, in this order |
| AddrManStream.UnusedListsExactly | src/addrman.h:389-398 | a stream whose bucket lists are not used gives a consistent manager if and only if its counts are not negative and two numbered records share an address only where both have lost their primary place to an earlier record |
| AddrManStream.NoAddressTwice | src/addrman.h:353-457 | a stream that names no address twice is read into a consistent manager, whatever its bucket lists say |
| AddrManStream.TwiceNamedFails | src/addrman.h:380-421 | a stream with one address as a new and as a tried entry is accepted and read into an inconsistent manager |
| CuckooCache.DisplaceConserves | src/cuckoocache.h:382-415 | whatever is counted, the walk of displacements loses at most the entry that falls out |
| CuckooCache.InsertConserves | src/cuckoocache.h:368-416 | the same for a whole insertion after its epoch check, including the case that the element is there already |
| CuckooCache.InsertWF | src/cuckoocache.h:368-416 | every element stays in one of its own eight places and is there once, and every live one, the default one included, is where a search for it ends |
| CuckooCache.InsertEffect | src/cuckoocache.h:368-416 | every element is alive as often as before, the new one once more unless it was alive; one entry may be lost, only after depth_limit moves and only if no place was free |
| CuckooCache.ContainsExact | src/cuckoocache.h:443-453 | any element but the default one is found exactly if it is in the table |
| CuckooCache.LiveFound | src/cuckoocache.h:443-453 | everything alive is found |
| CuckooCache.EraseEffect | src/cuckoocache.h:443-453 | an erased element, the default one included, is dead, is still found, and no other element notices |
| CuckooCache.EpochCheckEffect | src/cuckoocache.h:264-296 | an epoch check kills exactly the old epoch, and only if it ages |
| CuckooCache.NotFullSpares | src/cuckoocache.h:264-296 | while the scan is put off, or finds fewer than epoch_size live elements in the current epoch, every element stays alive in its own epoch |
| CuckooCache.FullAges | src/cuckoocache.h:279-287 | a scan that finds epoch_size of them leaves no recent one and kills exactly the old ones |
| CuckooCache.NextScan | src/cuckoocache.h:266-295 | the next scan comes when the epoch may be full, at least one insertion and a sixteenth of an epoch later, and no later than that |
| CuckooCache.NeverFullSpares | src/cuckoocache.h:264-296 | in a run whose current epoch is never full, only an erasure or a displacement kills |
| CuckooCache.InTurn | src/cuckoocache.h:392-404 | an element is pushed on to the place after the one it was taken from, and a new one to its second place |
| CuckooCache.InsertBounded | src/cuckoocache.h:264-296 | live elements of the current epoch plus the counter stay within epoch_size + max(1, epoch_size / 16), and so does the old epoch |
| CuckooCache.RunBounded | src/cuckoocache.h:264-296 | both bounds, and that every live element without exception is alive in one slot only and is found, hold over every run of insertions and lookups |
| CuckooCache.ErasedIsDead | src/cuckoocache.h:443-453 | after any run, an element that is then erased is alive in no slot |
| CuckooCache.FoundWasInserted | src/cuckoocache.h:368-453 | after any run, whatever is found has been inserted, or is the default element |
| CuckooCache.BlankIsFound | src/cuckoocache.h:315-329 | the default element is found in a cache that nothing was inserted into |
| CuckooCache.SoundExactly | src/cuckoocache.h:368-453 | a lookup that succeeds proves an earlier insertion, over every run, if and only if the element asked for is not the default one |
| CuckooCache.InsertedIsRecent | src/cuckoocache.h:376-391 | what is inserted and does not fall out is in the current epoch |
| CuckooCache.RecentStays | src/cuckoocache.h:264-296 | ageing never takes an element of the current epoch before epoch_size + 2 further insertions |
| CuckooTable.BitPackedFlags.constructor | src/cuckoocache.h:61-68 | all flags are set |
| CuckooTable.BitPackedFlags.Set | src/cuckoocache.h:92-95 | sets one flag and no other |
| CuckooTable.BitPackedFlags.Unset | src/cuckoocache.h:103-106 | clears one flag and no other |
| CuckooTable.EpochShare | src/cuckoocache.h:324-325 | an epoch is 45 % of the table if and only if the table has fewer than 2^27 places |
| CuckooTable.Cache.constructor | src/cuckoocache.h:315-329 | the empty cache, with the table and epoch sizes that follow from the depth limit |
| CuckooTable.Cache.CheckEpoch | src/cuckoocache.h:264-296 | the scan and the ageing loop do what EpochCheck says |
| CuckooTable.Cache.Age | src/cuckoocache.h:281-286 | demotes the current epoch and frees the old one |
| CuckooTable.Cache.Refresh | src/cuckoocache.h:374-381 | an element that is there is kept and made recent |
| CuckooTable.Cache.TakeFree | src/cuckoocache.h:383-391 | the first garbage place is used |
| CuckooTable.Cache.Exchange | src/cuckoocache.h:406-411 | swaps the element in hand with a kept one, epochs included |
| CuckooTable.Cache.Insert | src/cuckoocache.h:368-416 | the loops do what Insert says |
| CuckooTable.Cache.Contains | src/cuckoocache.h:443-453 | the answer, and the garbage flag if asked for |
| DbTransaction.Transaction.Write | src/dbwrapper.h:615-629 | the view gains the value, and the memory usage stays exact |
| DbTransaction.Transaction.Erase | src/dbwrapper.h:677-686 | the view loses the key, and the memory usage stays exact |
| DbTransaction.Transaction.Read | src/dbwrapper.h:636-653 | reads the view of the whole stack |
| DbTransaction.Transaction.Exists | src/dbwrapper.h:660-670 | true exactly for the keys of the view |
| DbTransaction.Transaction.Clear | src/dbwrapper.h:688-692 | the view is the parent's again |
| DbTransaction.Transaction.CommitToParent | src/dbwrapper.h:694-702 | the parent comes to say what the transaction said, which stays visible |
| DbTransaction.Transaction.CommitToBatch | src/dbwrapper.h:694-702 | the batch does to any store what it did and then what the transaction held |
| DbTransaction.GetExactly | src/dbwrapper.h:636-653 | a value is read exactly if the store has it for the key, and nothing exactly if it has none |
| DbTransaction.UsageNothing | src/dbwrapper.h:688-692 | no writes and no deletes take no memory |
| DbTransaction.Transaction.CleanExactly | src/dbwrapper.h:704-706 | a transaction is clean exactly if it would change nothing, whatever is below |
| DbTransaction.Transaction.GetMemoryUsage | src/dbwrapper.h:708-719 | the sum over all writes and deletes, never negative |
| DbTransaction.Database.WriteBatch | src/dbwrapper.cpp:91-96 | the operations of a batch are applied in order |
| DbTransaction.ScopedTransaction.Commit | src/dbwrapper.h:746-752 | the changes go to the parent |
| DbTransaction.ScopedTransaction.Rollback | src/dbwrapper.h:753-759 | the parent's view is restored |
| DbTransaction.ScopedTransaction.Leave | src/dbwrapper.h:742-745 | a scope that did neither rolls back |
| DbTransaction.EvoDB.RunScope | src/evo/evodb.h:33-38 | a scope applies all its operations or none |
| DbTransaction.LastDecides | src/evo/evodb.h:33-38 | of the operations in a scope the last one on a key decides, and a key without one is as before |
| DbTransaction.OnlyCommitsLast | src/dbwrapper.h:729-760 | a scope that is rolled back might as well not have been entered |
| DbTransaction.CommitShows | src/dbwrapper.h:746-752 | a scope that commits shows at once, and is on disk after the next flush |
| DbTransaction.EvoDB.CommitRootTransaction | src/evo/evodb.cpp:17-24 | everything visible is on disk afterwards, and nothing visible changes |
| DbTransaction.EvoDB.Run | src/evo/evodb.h:33-71 | any sequence of scopes and flushes acts like one map and one saved copy of it |
| DbKeys.SmallerIsFirst | src/dbwrapper.h:538-550 | the smaller of the first keys of two sets is the first key of both |
| DbKeys.LessExactly | src/dbwrapper.h:562-567 | the comparator puts proper prefixes first and otherwise goes by the first byte that differs |
| DbKeys.FirstStays | src/dbwrapper.h:451-464 | passing a smaller key does not move the other position |
| DbIterator.SkipDone | src/dbwrapper.h:528-536 | what is left after skipping is the first key that is neither deleted nor overwritten |
| DbIterator.TransactionIterator.CurrentIsFirst | src/dbwrapper.h:411-417 | the current key is the first key of the merged view within the bound |
| DbIterator.TransactionIterator.SkipDeletedAndOverwritten | src/dbwrapper.h:528-536 | the parent stands on the first key that the transaction does not hide |
| DbIterator.TransactionIterator.DecideCur | src/dbwrapper.h:538-550 | the smaller key is chosen |
| DbIterator.TransactionIterator.SeekToFirst | src/dbwrapper.h:428-433 | stands on the first key |
| DbIterator.TransactionIterator.Seek | src/dbwrapper.h:440-445 | stands on the first key that is not smaller |
| DbIterator.TransactionIterator.Next | src/dbwrapper.h:451-464 | stands on the next greater key of the merged view |
| DbIterator.TransactionIterator.IsValid | src/dbwrapper.h:447-449 | false exactly at the end |
| DbIterator.TransactionIterator.GetKey | src/dbwrapper.h:493-502 | the current key |
| DbIterator.TransactionIterator.GetValue | src/dbwrapper.h:515-525 | the value the transaction has under it |
| DbIterator.TransactionIterator.New | src/dbwrapper.h:420-426 | an iterator over each transaction of the stack, down to the database |
| DbIterator.Scan | src/dbwrapper.h:402-551 | an iteration lists every key of the merged view from the start on exactly once, in increasing byte order, with its value, over any stack of transactions |
| DbIterator.Walk | src/dbwrapper.h:721-723 | the same for a new iterator over a transaction: the keys and values of its view, and no transaction changes |
| Base58.ConvertBack | src/base58.cpp:22-110 | converting digits to another base and back gives them again, leading zeros included |
| Base58.AlphabetExactly | src/base58.cpp:19-20 | the digits are the alphanumeric characters except 0, I, O and l |
| Base58.SpacesExactly | src/base58.cpp:25-27 | which characters are whitespace |
| Base58.StripExactly | src/base58.cpp:24-58 | what is decoded is the part between the first and the last character that is not a space |
| Base58.AlphabetOrder | src/base58.cpp:19-20 | in the order of their codes, starting with 1 |
| Base58.EncodeRoom | src/base58.cpp:81-83 | 256^n never exceeds 58 to the size of the buffer |
| Base58.DecodeRoom | src/base58.cpp:34-36 | 58^n never exceeds 256 to the size of the buffer |
| Base58.MulAdd | src/base58.cpp:44-52 | multiplies the buffer and adds in place; the assertion that no carry is left holds |
| Base58.SkipZeros | src/base58.cpp:60-63 | the digits of the number without leading zeros |
| Base58.CountZeros | src/base58.cpp:74-80 | counts the leading zero bytes |
| Base58.BytesToDigits | src/base58.cpp:81-102 | the base-58 digits of the number |
| Base58.Render | src/base58.cpp:103-109 | leading ones and the characters of the digits |
| Base58.DigitsToBytes | src/base58.cpp:34-54 | the bytes of the digits up to the first space, or where a character is not a digit |
| Base58.EncodeBase58 | src/base58.cpp:72-110 | the loops compute the encoding |
| Base58.DecodeBase58 | src/base58.cpp:22-70 | the loops compute the decoding, and fail exactly if the text, up to its first NUL and between surrounding spaces, has a character outside the alphabet |
| Base58.BytesRoundTrip | src/base58.cpp:112-120 | decoding the encoding of any bytes gives them back |
| Base58.TextRoundTrip | src/base58.cpp:112-120 | encoding the decoding of any accepted text gives the text up to its first NUL, without surrounding whitespace |
| ArithUint.BaseUint.AddAssign | src/arith_uint256.h:136-146 | the sum modulo 2^BITS, also when both operands are the same number |
| ArithUint.BaseUint.Complement | src/arith_uint256.h:70-76 | 2^BITS - 1 minus the number |
| ArithUint.BaseUint.Increment | src/arith_uint256.h:174-181 | one more, modulo 2^BITS |
| ArithUint.BaseUint.Negate | src/arith_uint256.h:78-85 | the negative modulo 2^BITS |
| ArithUint.BaseUint.SubAssign | src/arith_uint256.h:148-152 | the difference modulo 2^BITS |
| ArithUint.BaseUint.MulWord | src/arith_uint256.cpp:55-65 | the product with a word modulo 2^BITS, with no intermediate overflow of 64 bits |
| ArithUint.BaseUint.AddRow | src/arith_uint256.cpp:73-78 | one row of the product, and what falls off the top; no intermediate value exceeds 64 bits |
| ArithUint.BaseUint.MulAssign | src/arith_uint256.cpp:67-81 | the product modulo 2^BITS, or zero if the factor is the number itself |
| ArithUint.BaseUint.ShiftLeft | src/arith_uint256.cpp:21-36 | multiplication by 2^shift modulo 2^BITS |
| ArithUint.BaseUint.ShiftRight | src/arith_uint256.cpp:38-53 | division by 2^shift, rounded down |
| ArithUint.BaseUint.Bits | src/arith_uint256.cpp:172-185 | the position of the highest bit plus one |
| ArithUint.BaseUint.CompareTo | src/arith_uint256.cpp:109-119 | the order of the numbers |
| ArithUint.BaseUint.DivStep | src/arith_uint256.cpp:97-104 | one bit of the quotient |
| ArithUint.BaseUint.DivAssign | src/arith_uint256.cpp:83-107 | the quotient rounded down; fails exactly for a zero divisor |
| CompactTarget.SetCompact | src/arith_uint256.cpp:225-243 | the number modulo 2^256, with exact sign and overflow flags |
| CompactTarget.OverflowExact | src/arith_uint256.cpp:238-241 | the overflow flag is set exactly for numbers that do not fit into 256 bits |
| CompactTarget.GetLow64 | src/arith_uint256.h:249-253 | the low 64 bits |
| CompactTarget.TopBytes | src/arith_uint256.cpp:247-254 | the number of bytes and the three highest |
| CompactTarget.GetCompact | src/arith_uint256.cpp:245-266 | the compact form; its assertions hold, and the sign bit is set exactly if asked for a number with a mantissa |
| CompactTarget.ExactOfCompact | src/arith_uint256.cpp:245-266 | the compact form keeps everything but the lowest bytes |
| CompactTarget.CompactTwice | src/arith_uint256.cpp:225-266 | a number that has been through the compact form has the same compact form |
| CompactTarget.ValidExactly | src/chain.cpp:120-127 | a target is valid exactly if the number it stands for, with its sign, is positive and below 2^256 |
| CompactTarget.WorkFalls | src/chain.cpp:128-132 | a larger target stands for no more work |
| CompactTarget.NeverAllOnes | src/chain.cpp:128-132 | no target is 2^256 - 1, so the divisor is not zero |
| CompactTarget.GetBlockProof | src/chain.cpp:120-133 | floor(2^256 / (target + 1)) for a valid target, zero otherwise |
| Chain.GetSkipHeight | src/chain.cpp:72-81 | the skip height is below the height |
| Chain.BlockIndex.On | src/chain.cpp:114-118 | a new block with its skip pointer built is properly linked |
| Chain.BlockIndex.GetAncestor | src/chain.cpp:83-107 | the skip-list walk ends at the block reached by following parents, or null for a height outside the range, after a number of steps that depends on the two heights only |
| ChainSteps.WalkIsShort | src/chain.cpp:69-107 | from a height below 2^k the walk takes at most k * (k + 5) / 2 steps |
| Chain.BlockIndex.AncestorOfAncestor | src/chain.cpp:83-107 | an ancestor of an ancestor is an ancestor |
| Chain.Chain.HeightIsTip | src/chain.h:543-562 | the height of the chain is that of its tip, or -1 |
| Chain.Chain.ContainsMeans | src/chain.h:549-552 | the chain contains exactly the ancestors of its tip |
| Chain.Chain.SetTip | src/chain.cpp:11-21 | slot h holds the new tip's ancestor at height h, although the loop stops where the chains meet |
| Chain.Chain.FindFork | src/chain.cpp:51-60 | the highest block on both the chain and the way from the block to the genesis block, or null if there is none |
| Chain.Chain.LookBack | src/chain.cpp:37-43 | the chain index and the skip list find the same block |
| Chain.Chain.GetLocator | src/chain.cpp:23-49 | ancestors of the start at the heights of a locator |
| Chain.LocatorDescends | src/chain.cpp:30-47 | the heights fall strictly from the start to the genesis block |
| Chain.LocatorLength | src/chain.cpp:44-46 | a start below 2^k gives at most k + 11 entries |
| Chain.LocatorGaps | src/chain.cpp:30-47 | the distances are one after each of the first eleven entries and then double, the last one ending at the genesis block |
| Chain.StepFits | src/chain.cpp:44-46 | below height 2^30 the step stays within 31 bits |
| RollingBloom.Wiped | src/bloom.cpp:360-368 | the mask clears exactly the positions that hold the recycled generation |
| RollingBloom.PositionExactly | src/bloom.cpp:373-378 | a hash names a bit by its lowest six bits and a pair of words by the rest modulo the number of words |
| RollingBloom.Marked | src/bloom.cpp:377-378 | writing a generation number changes one position |
| RollingBloom.WipeAges | src/bloom.cpp:354-369 | wiping the new label leaves exactly what the new generation still remembers |
| RollingBloom.RollingBloomFilter.constructor | src/bloom.cpp:320-345 | an empty filter whose two generations hold at least nElements keys; one for no elements has no bits |
| RollingBloom.RollingBloomFilter.Reset | src/bloom.cpp:408-416 | forgets every key |
| RollingBloom.RollingBloomFilter.WipeGeneration | src/bloom.cpp:360-368 | the packed words represent the keys in the new generation |
| RollingBloom.RollingBloomFilter.Mark | src/bloom.cpp:372-379 | the packed words represent the keys with the new one |
| RollingBloom.RollingBloomFilter.Insert | src/bloom.cpp:352-380 | the filter represents one key more |
| RollingBloom.RollingBloomFilter.Contains | src/bloom.cpp:388-400 | true exactly if each position is used by a key of the current or the two previous generations |
| RollingBloom.NoFalseNegatives | src/bloom.cpp:326-327 | a key with at most two generations of later keys is never denied |
| RollingBloom.Forgotten | src/bloom.cpp:326-327 | a key with three generations of later keys is not remembered |
| CompactBlock.OneSlotEach | src/blockencodings.cpp:60-75 | accepted prefilled offsets leave exactly one empty slot for each short id |
| CompactBlock.PlacesExactly | src/blockencodings.cpp:60-75 | prefilled transactions are accepted exactly if none is empty and the last one has a place in the block that 16 bits can name |
| CompactBlock.PlaceIsSum | src/blockencodings.cpp:62-67 | the place of a prefilled transaction is the sum of the distances sent and one for each before it |
| CompactBlock.StoredSize | src/blockencodings.cpp:103-104 | the size check fails exactly if two short ids are equal |
| CompactBlock.SlotMapOk | src/blockencodings.cpp:82-87 | before they are cut to 16 bits, different ids have different empty slots |
| CompactBlock.StoredExact | src/blockencodings.cpp:82-87 | the slots cut to 16 bits are the right ones if and only if there are at most 65536 transactions |
| CompactBlock.LargeBlockMisplaced | src/blockencodings.cpp:82-134 | in any announced block of more than 65536 transactions that passes the checks, a transaction beyond them that is found in the pool takes the place of the one 65536 before it |
| CompactBlock.ReliableExactly | src/blockencodings.cpp:50-199 | a described block comes out whatever honest lists hold if and only if the search for slots ends and each transaction beyond the first 65536 either equals the one in its cut slot or shares its short id with a different one of the block |
| CompactBlock.SizeIsExact | src/blockencodings.cpp:50-199 | if no short ids collide, a described block comes out whatever honest lists hold if and only if it has at most 65536 transactions |
| CompactBlock.FullPrefixNeverEnds | src/blockencodings.cpp:60-87 | 65536 prefilled transactions and a short id pass every check, and then the search for an empty slot does not end |
| CompactBlock.AllOk | src/blockencodings.cpp:106-165 | scanning a list keeps prefilled transactions, fills slots only rightly, and counts exactly |
| CompactScan.PoolFinds | src/blockencodings.cpp:106-134 | a transaction with exactly one match in the pool is found, and others only if the scan may stop early |
| CompactScan.KnownExactly | src/blockencodings.cpp:106-165 | every slot after both scans holds the first match of all, provided no second one is in the pool and all others have its witness hash, else nothing; each list is read to its end or up to the first transaction with which everything is found |
| CompactScan.ExtraFinds | src/blockencodings.cpp:136-145 | a transaction that the pool does not have and the extra list has once is found |
| CompactScan.PoolMatchStays | src/blockencodings.cpp:136-158 | one that the pool has once stays, if every match in the extra list has its witness hash |
| CompactScan.AmbiguousIsEmpty | src/blockencodings.cpp:115-158 | a slot with two matches in the pool or matches with different witness hashes is left empty, unless a scan stopped because everything was found |
| CompactBlock.AnnounceDescribes | src/blockencodings.cpp:20-30 | a block announced with its coinbase in full is described by the announcement, unless short ids collide |
| CompactBlock.Reconstructs | src/blockencodings.cpp:50-199 | any announcement that describes a block of up to 65536 transactions, with any pool and extra list free of impostors, rebuilds it exactly from the missing transactions |
| CompactBlock.PartiallyDownloadedBlock.PlacePrefilled | src/blockencodings.cpp:60-75 | fails exactly for empty transactions and offsets out of range, and never writes out of range |
| CompactBlock.PartiallyDownloadedBlock.NextEmpty | src/blockencodings.cpp:84-86 | the scan for an empty slot stops before the end, or goes round for ever because every slot that 16 bits can reach is filled |
| CompactBlock.PartiallyDownloadedBlock.AssignSlots | src/blockencodings.cpp:82-100 | the i-th short id gets the i-th empty slot, cut to 16 bits; does not end exactly if 65536 transactions are prefilled and an id is left |
| CompactBlock.PartiallyDownloadedBlock.ScanList | src/blockencodings.cpp:106-165 | one pass, with early exit when everything is found |
| CompactBlock.PartiallyDownloadedBlock.InitData | src/blockencodings.cpp:50-170 | for every announcement: exactly when it is INVALID, FAILED or does not end, and otherwise what is available and how much |
| CompactBlock.PartiallyDownloadedBlock.FillBlock | src/blockencodings.cpp:178-219 | the block with the gaps filled in order; INVALID exactly for too few or too many transactions |
| CompactBlock.IndexesBack | src/blockencodings.h:55-66 | ascending 16-bit indexes survive the differential encoding |
| CompactBlock.DifferencesBack | src/blockencodings.h:55-61 | accepted differences give ascending indexes, and would be sent the same way, exactly if nothing follows the index 65535 |
| CompactBlock.WrapsAround | src/blockencodings.h:55-61 | the differences 65535 and 0 are accepted as the indexes 65535 and 0 |

## Left out

- CheckQueue.StepInv: thread interruption and 32-bit overflow of `nTodo` are not modelled; `fQuit` is never set in the repository.
- InstantSendSafety.StepKeepsInv: runs without periodic expiry, on a node that does not vote itself; expiry erases locks by outpoint whoever owns them.
- InstantSendNode.CInstantSend.ResolveConflicts: of the clean-up, only the removal of the two candidates just marked as expired; whether it runs (the node is synced and the block height allows it) is a parameter, as is whether InstantSend is enabled, and the removal of marked candidates by a later clean-up, of other expired candidates and of timed-out orphan votes is not modelled.
- InstantSend: vote and request relay, duplicate filtering, how spam among orphan votes is recognised, accepted and rejected request lists, and notifications.
- Coins: best-block hashes, cursors, and the serialized form of a coin; memory usage of a script is a parameter.
- AddrMan: `Select_`, `GetChance`, `Attempt_`, `Connected_` and `SetServices_`, which change no table; the conditions of `Check_` on time stamps and on the key.
- AddrManStore.Unserialize: streams that end too early or cannot be parsed; a stream is taken field by field.
- CuckooTable.Cache.constructor: the depth limit is a parameter; the source takes it from a floating-point logarithm of the size asked for.
- CuckooCache: concurrent readers and memory ordering of the atomic flags; calls are taken one after the other.
- DbTransaction: value types and the exception for reading a value back as another type, obfuscation, and database errors; values are their serialized bytes.
- DbIterator: writing to a transaction while one of its iterators is in use.
- ArithUint: hexadecimal conversion, `getdouble`, bitwise operators between numbers, and decrement.
- Chain: `FindEarliestAtLeast`; blocks get their skip pointer when they are created.
- RollingBloom: the floating-point sizing of the filter and the false-positive rate; the number of filter bits is a parameter. Inserting into or asking a filter without bits, where the source divides by zero, is excluded.
- CompactBlock: the statistic `extra_count`, short-id hashing, and what `CheckBlock` looks at; the occupancy of hash-table buckets is a parameter.
- Everything else in the node: networking, RPC, wallet, scripts, consensus rules, cryptography and storage engines.
