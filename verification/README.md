# Verified core of the node

A Dafny model of the parts of the node whose correctness rests on an invariant over a whole run,
on a loop argument, or on a fast form agreeing with a simple one, together with proofs of those
properties.  One file per component:

| file | component |
|---|---|
| `AddrManState.dfy`, `AddrManSpread.dfy`, `AddrManCheck.dfy`, `AddrMan.dfy`, `AddrManStream.dfy`, `AddrManLoad.dfy` | the address manager: its state and steps as values, how far one address range reaches, what its consistency check accepts, the class that performs all this in place, its stream format, and what reading any stream guarantees |
| `Coins.dfy` | the stack of coin caches over the coin database |
| `CheckQueue.dfy` | the parallel verification queue, as a transition system over any number of threads |
| `PackageSelection.dfy` | filling a block with ancestor packages from the mempool |
| `CuckooCache.dfy` | the cuckoo cache with its bit-packed flags and epochs |
| `RollingBloom.dfy` | the rolling Bloom filter |
| `PartialMerkle.dfy` | partial merkle trees: building, transmitting, extracting |
| `Chain.dfy` | the block index with its skip list, and the active chain |
| `ArithUint256.dfy` | 256-bit arithmetic on limbs, the compact form, and block proofs |
| `Bech32.dfy`, `Base58.dfy` | the two address codecs |

`dafny verify dfyconfig.toml` checks everything.

## How the model reads

- Code that changes fields in place is a class whose methods say what the new state is, either
  outright or as a function of the old state; what the code promises is then proved about that
  function.  Pure code is functions and lemmas.
- Hash functions are parameters.  They are assumed injective only where a statement says so
  (`Injective(pair)` for merkle trees).
- Clocks and random draws are parameters.  The block assembler asks a `World`, an arbitrary function of
  how often it has asked, for the time limit, the fee floor, finality, spending limits and contracts.
  Within one operation of the address manager the clock does not move.
- The verification queue makes every critical section one atomic step and every evaluation of a
  check another; spurious wake-ups are steps too.
- Integers are unbounded except where the width matters: limbs, hashes and bit masks.

## What turned out differently from what comments or names suggest

- `SpendCoin` also returns true for an entry the cache holds as spent already
  (`Coins.CoinsViewCache.SpendCoin` says exactly when).
- `AddCoin` without the overwrite flag keeps the FRESH flag truthful exactly when the coin was
  absent; otherwise spending it later brings the old coin back
  (`Coins.AddKeepsLayerIffHonest`, `Coins.DishonestAddResurrects`).
- `Flush` of a layer that has no best block of its own forgets the parent's, exactly in the case
  given by `Coins.CoinsViewCache.Flush` (`Coins.FlushUnused` and `Coins.ForgetfulFlush` show it
  happen); on the database it trips an assertion.
- A controller of the verification queue that adds checks after its last `Wait` leaves them to the
  next one (`CheckQueue.LateAddLeaks`).  The queue is without a trace of the past exactly when it did
  not (`CheckQueue.QueueIsFinished`), and a verdict is about a controller's own checks exactly unless
  they are all good and something inherited is bad (`CheckQueue.VerdictIsOwn`).
- A partial merkle tree can have more than 2N-1 flag bits for N hashes: there is one more for every
  inner node with a single child on the way (`PartialMerkle.FlagBitCount`,
  `PartialMerkle.FlagBitBoundFails`).
- `ExtractMatches` clears the list of matches but not the list of indices.
- `CAddrMan::Clear` keeps the pending collisions.  The invariant survives exactly when there are
  none (`AddrManState.ResetKeepsIff`); otherwise a later lookup can find nobody in the slot
  (`AddrManState.StaleCollision`, and `AddrManState.StaleRun` for a run from an empty manager that
  ends there).
- `CAddrMan::Unserialize` accepts negative counters and repeated addresses.  Its result is consistent
  exactly when neither counter is negative and every entry read that shares its address with another
  has no place and is dropped (`AddrManLoad.LoadSoundIff`).  Some streams with a repeated address break
  the index (`AddrManLoad.RepeatedAddressBreaks`), others do no harm (`AddrManLoad.RepeatedTriedLoads`).
- `CAddrMan::Add_` reports an unknown address as added even when it found no place for it.
- In `CAddrMan::Good_` the branch for an entry that is in no bucket cannot be taken
  (`AddrMan.AddrManager.FindBucket`).
- `CAddrMan::Check_` looks addresses up with `operator[]`, which adds unknown ones to the index with
  id 0.  It therefore accepts a state in which the index has lost the entry with id 0
  (`AddrManCheck.LostEntryAccepted`); `AddrManCheck.CheckIff` says which clauses of the invariant it
  does not see.
- The first displacement of a cuckoo insertion goes to location 1, where the comment says 0.
- A decoded Bech32 pair of empty strings is what a failure looks like, so the round trip holds for
  that pair as well (`Bech32.RoundTrip`).

## Model

| member | source | states |
|---|---|---|
| `AddrManState.GetTriedBucket` | src/addrman.cpp:12-17 | the bucket is one of the 256 tried buckets |
| `AddrManState.GetNewBucket` | src/addrman.cpp:19-25 | the bucket is one of the 1024 new buckets |
| `AddrManState.GetBucketPosition` | src/addrman.cpp:27-31 | the position is one of the 64 of a bucket |
| `AddrManState.CreatedCore` | src/addrman.cpp:81-91 | a new entry keeps index, random order, tables and reference counts consistent and is in neither table |
| `AddrManState.SwappedCore` | src/addrman.cpp:93-111 | swapping two entries of the random order keeps the order and the stored positions inverse to each other, and everything else |
| `AddrManState.DeletedCore` | src/addrman.cpp:113-125 | deleting an entry that is in neither table keeps every structural clause and the sets of new and tried entries |
| `AddrManState.ClearedIs` | src/addrman.cpp:127-140 | afterwards the slot is free, whoever held it has one reference less or is forgotten if that was the last, and nobody else changed |
| `AddrManState.ClearedKeeps` | src/addrman.cpp:127-140 | clearing a slot keeps every structural clause and the counters, also in the middle of a move |
| `AddrManState.WithdrawnCore` | src/addrman.cpp:144-154 | an entry taken out of all its new slots has reference count zero and is in neither table |
| `AddrManState.UntriedCore` | src/addrman.cpp:161-170 | the entry taken out of a tried slot is in neither table, and the tried set loses exactly it |
| `AddrManState.EvictedIs` | src/addrman.cpp:160-182 | the evicted entry ends with one reference in the slot its first source gives it, and whoever held that slot loses one |
| `AddrManState.EvictedKeeps` | src/addrman.cpp:160-182 | eviction keeps every structural clause and the counters and frees the tried slot |
| `AddrManState.TriedCore` | src/addrman.cpp:183-187 | entering the tried table keeps every structural clause; the tried set gains exactly the entry |
| `AddrManState.MadeTriedIs` | src/addrman.cpp:142-188 | the moved entry sits in its tried slot and in no new slot; the former occupant is back in the new table; everybody else is as before |
| `AddrManState.MadeTriedKeeps` | src/addrman.cpp:142-188 | a move to tried keeps every structural clause and both counters, leaves nobody without a place, and adds exactly its slot to the occupied ones |
| `AddrManState.GoodKeeps` | src/addrman.cpp:190-254 | Good_ keeps the whole invariant, never empties a tried slot and never reuses an id |
| `AddrManState.TestedGoodEvictsNobody` | src/addrman.cpp:240-253 | with test_before_evict, everybody in tried stays in tried |
| `AddrManState.GoodIs` | src/addrman.cpp:190-254 | a known address with its port ends with success and try at the given time and no attempts, and in tried exactly if it was there, nobody is to be tested first, or its slot was free, at most the occupant of that slot leaving; otherwise it is pending exactly if it was or fewer than ten were, and nothing else changes; for any other address only the time of the last success changes |
| `AddrManState.GoodOthers` | src/addrman.cpp:190-254 | times and attempts of nobody else change |
| `AddrManState.TriedByTable` | src/addrman.cpp:183-187 | the tried entries after a move are those before without the occupant and with the entry moved |
| `AddrManState.EnteredIs` | src/addrman.cpp:305-325 | an entry gets the slot its source leads to, or is refused there by a holder that need not give way, and is deleted exactly if it then has no slot at all |
| `AddrManState.EnteredKeeps` | src/addrman.cpp:305-325 | either outcome keeps every structural clause and settles the counters |
| `AddrManState.AddedKeeps` | src/addrman.cpp:256-327 | Add_ keeps the whole invariant and does not touch the tried table |
| `AddrManState.AddedNewIs` | src/addrman.cpp:256-327 | an unknown address, entered with no tries and the time less the penalty, gets the slot its source leads to exactly if that is free, held by a terrible entry, or held by one with other slots, and is forgotten otherwise |
| `AddrManState.AddedAgainIs` | src/addrman.cpp:266-325 | a known address gets one more slot exactly if the announcement is news, it is not tried, it has fewer than eight, the draw is a multiple of 2 to their number, and the slot can be had and is not its own; otherwise only its time and services are refreshed |
| `AddrManState.TerribleAges` | src/addrman.cpp:33-53 | a terrible entry stays so as time passes, unless it was ahead of time; one tried in the last minute never is; and a recent one is so only after three attempts without any success or ten since |
| `AddrManState.ResolvedOneIs` | src/addrman.cpp:538-590 | a collision is dropped, and nothing else, if the challenger is gone or invalid or the occupant answered in the last four hours; the challenger takes the slot if the occupant was tried in the last four hours, over a minute ago, or else if the challenger has waited over 40 minutes; otherwise nothing changes |
| `AddrManState.ReplacedBy` | src/addrman.cpp:565-588 | a challenger that takes the slot is tried, in the slot of the occupant, which is the only one to leave, and no longer pending |
| `AddrManState.ResolvedOthers` | src/addrman.cpp:538-590 | nobody else is taken off the list of collisions |
| `AddrManState.ResolvedSpares` | src/addrman.cpp:535-592 | resolving all collisions leaves everybody in tried who answered in the last four hours |
| `AddrManState.ResolvedOneKeeps` | src/addrman.cpp:538-590 | resolving one collision keeps the whole invariant and adds no collisions |
| `AddrManState.ResolvedKeeps` | src/addrman.cpp:535-592 | so does resolving all of them in order |
| `AddrManState.CollisionHasOccupant` | src/addrman.cpp:604-618 | a pending collision that still has an entry always collides with an entry of the tried table |
| `AddrManState.DoesKeeps` | src/addrman.cpp:190-619 | every operation keeps the invariant behind Check_ and never empties a tried slot |
| `AddrManState.SwapAllKeeps` | src/addrman.cpp:483-494 | any sequence of swaps in the random order keeps the whole invariant and changes nothing but that order |
| `AddrManState.RunKeeps` | src/addrman.cpp:399-473 | in every run from a consistent state, every state satisfies the structural clauses of Check_; between any two states tried slots stay occupied and ids are not reused |
| `AddrManState.RefreshedForward` | src/addrman.cpp:270-279 | a repeated announcement adds its services and never moves the time back; it moves a time that is set exactly if it is more than a day ahead, or more than an hour and of the last day |
| `AddrManSpread.TriedInShare` | src/addrman.cpp:12-17 | the tried bucket of an address is one of those of its range |
| `AddrManSpread.NewInShare` | src/addrman.cpp:19-25 | the new bucket of an announced address is one of those of the range of its source |
| `AddrManSpread.SpreadSize` | src/addrman.cpp:12-25 | a range has at most as many buckets as there are numbers to hash with |
| `AddrManSpread.TriedShareBounds` | src/addrman.h:109-113 | in every consistent state at most 8 * 64 tried entries are of one address range |
| `AddrManSpread.AddedConfined` | src/addrman.cpp:256-327 | an announcement changes at most the buckets of the range of its source, and no tried slot |
| `AddrManSpread.AnnouncementsConfined` | src/addrman.h:97-107 | a run of announcements by one address range, however long, changes at most 64 of the 1024 new buckets, and no tried slot |
| `AddrManCheck.TriedStep` | src/addrman.cpp:438-450 | scanning one slot of the tried table either crosses its holder off the tried entries still to be found, or the table is wrong |
| `AddrManCheck.TriedEnd` | src/addrman.cpp:438-466 | after a scan without complaint, nothing is left to be found exactly when every tried entry sits in its slot and nobody else sits anywhere |
| `AddrManCheck.NewStep` | src/addrman.cpp:452-463 | scanning one slot of the new table takes one from the references of its holder still to be found |
| `AddrManCheck.NewRefuted` | src/addrman.cpp:455-458 | a slot that draws a complaint shows that the new table or the reference counts are wrong |
| `AddrManCheck.NewEnd` | src/addrman.cpp:452-468 | after a scan without complaint, nothing is left to be found exactly when the new table and all reference counts are right |
| `AddrManCheck.CheckIff` | src/addrman.cpp:399-473 | the invariant with sound time stamps holds exactly when Check_ accepts and the clauses it does not see hold |
| `AddrManCheck.CheckedIff` | src/addrman.cpp:399-473 | in a state that satisfies the invariant, only time stamps or a null key can make Check_ complain |
| `AddrManCheck.LostEntryAccepted` | src/addrman.cpp:423-424 | a state whose index has lost its only entry is accepted |
| `AddrMan.AddrManager.CheckEntry` | src/addrman.cpp:407-430 | answers 0 exactly for an entry in order; an unknown address enters the index with 0 |
| `AddrMan.AddrManager.CheckEntries` | src/addrman.cpp:407-431 | answers 0 exactly when all entries are in order, and then hands on the tried ids and the reference counts of the new ones |
| `AddrMan.AddrManager.CheckTried` | src/addrman.cpp:438-450 | finds nothing wrong and leaves nothing over exactly when the tried table is right |
| `AddrMan.AddrManager.CheckNew` | src/addrman.cpp:452-463 | finds nothing wrong and leaves nothing over exactly when the new table and the reference counts are right |
| `AddrMan.AddrManager.Check_` | src/addrman.cpp:399-473 | answers 0 exactly for the consistent states, and on a valid manager exactly when time stamps and key are sound; changes nothing unless the index has lost an entry |
| `AddrManState.ResetKeepsIff` | src/addrman.h:456-478 | clearing keeps the structural clauses, and the whole invariant exactly when no collision was pending |
| `AddrManState.StaleCollision` | src/addrman.h:456-478 | with collision 0 pending, the next address announced after clearing has an empty tried slot although it is pending |
| `AddrManState.PendingRun` | src/addrman.cpp:190-254 | two addresses that share a tried slot but no new slot: adding both, trying the second and then testing the first leaves the first pending |
| `AddrManState.StaleRun` | src/addrman.h:456-478 | a concrete run from an empty manager after which clearing breaks the invariant and the next address is pending with nobody in its slot |
| `AddrMan.AddrManager.constructor` | src/addrman.h:480-483 | a new manager satisfies the invariant and is empty |
| `AddrMan.AddrManager.Clear` | src/addrman.h:456-478 | the fields become those of an emptied manager under a new key, collisions kept |
| `AddrMan.AddrManager.Create` | src/addrman.cpp:81-91 | the fields become those of the creation step |
| `AddrMan.AddrManager.SwapRandom` | src/addrman.cpp:93-111 | the fields become those of the swap step; its assertions hold |
| `AddrMan.AddrManager.Delete` | src/addrman.cpp:113-125 | the fields become those of the deletion step; its assertions hold |
| `AddrMan.AddrManager.ClearNew` | src/addrman.cpp:127-140 | the fields become those of the clearing step; its assertion holds |
| `AddrMan.AddrManager.Withdraw` | src/addrman.cpp:144-151 | scanning all buckets removes the entry from exactly the slots that hold it and counts them |
| `AddrMan.AddrManager.MakeTried` | src/addrman.cpp:142-188 | the fields become those of the move to tried; its assertions hold |
| `AddrMan.AddrManager.Evict` | src/addrman.cpp:160-182 | the fields become those of the eviction step; its assertions hold |
| `AddrMan.AddrManager.FindBucket` | src/addrman.cpp:219-234 | wherever the search starts, it finds a bucket that holds the entry before going round once |
| `AddrMan.AddrManager.Good_` | src/addrman.cpp:190-254 | the fields become those of the step that GoodIs describes, whatever the random start, and the invariant holds |
| `AddrMan.AddrManager.Add_` | src/addrman.cpp:256-327 | the fields become those of the step that AddedNewIs and AddedAgainIs describe, the invariant holds, and true is returned exactly for a routable address that was unknown |
| `AddrMan.AddrManager.Enter` | src/addrman.cpp:305-325 | the fields become those of the placement step |
| `AddrMan.AddrManager.GetAddr_` | src/addrman.cpp:476-495 | returns distinct entries that are not terrible, as many as there are up to 23 percent and 2500; the new state is the old one after the swaps of a partial shuffle, each place swapped with a later one |
| `AddrMan.AddrManager.ResolveCollisions_` | src/addrman.cpp:535-592 | the fields become those of resolving all collisions in increasing order of id, each as ResolvedOneIs describes |
| `AddrMan.AddrManager.ResolveOne` | src/addrman.cpp:538-590 | the fields become those of resolving one collision, as ResolvedOneIs describes |
| `AddrMan.AddrManager.SelectTriedCollision_` | src/addrman.cpp:594-619 | a result is always an entry of the tried table in the slot of a pending collision; a stale collision is dropped |
| `AddrMan.DoubleFor` | src/addrman.cpp:292-295 | the stochastic factor is 2 to the number of references |
| `AddrManStream.Serialize` | src/addrman.h:300-348 | writes the header, the new and the tried entries by id, and the buckets by rank; its assertions on the counters hold |
| `AddrManStream.WriteNew` | src/addrman.h:314-324 | writes the new entries in order of id and gives each its rank among them |
| `AddrManStream.WriteTried` | src/addrman.h:325-333 | writes the tried entries in order of id |
| `AddrManStream.WriteBucket` | src/addrman.h:334-347 | writes the number of entries of a bucket and their ranks |
| `AddrManStream.Unserialize` | src/addrman.h:350-454 | succeeds exactly on streams that can be read and then holds what they read as, for any stream whatever |
| `AddrManStream.ReadBody` | src/addrman.h:379-454 | the same for what follows the header |
| `AddrManStream.ReadNewEntries` | src/addrman.h:379-396 | fails exactly when an entry is missing, and else reads the new entries |
| `AddrManStream.ReadTriedEntries` | src/addrman.h:399-418 | the same for the tried entries, whose losses are subtracted |
| `AddrManStream.ReadPositions` | src/addrman.h:420-436 | the same for the positions in the new table |
| `AddrManStream.Prune` | src/addrman.h:438-448 | deletes the entries without a place, for any state whose random order is consistent |
| `AddrManStream.NewStep` | src/addrman.h:380-396 | reading an entry of the new table back extends the image of the original by it |
| `AddrManStream.TriedStep` | src/addrman.h:401-417 | reading an entry of the tried table back finds its slot free and extends the image by it |
| `AddrManStream.IndexStep` | src/addrman.h:424-435 | reading a position back finds the slot free and the entry below the limit of eight, and extends the image by that slot |
| `AddrManStream.TablesFit` | src/addrman.h:371-377 | a consistent manager never has more entries than the reader accepts |
| `AddrManStream.RoundTrip` | src/addrman.h:300-454 | writing and reading back any consistent manager gives the same key, tables, reference counts, counters and address index up to renumbering, and loses nobody |
| `AddrManStream.LoadedChecks` | src/addrman.h:453 | what is read back satisfies the invariant, if no collision was pending |
| `AddrManLoad.NewEntriesBody` | src/addrman.h:379-396 | reading new entries, repeated or not, keeps every structural clause but the index, which still knows every address |
| `AddrManLoad.TriedEntriesBody` | src/addrman.h:399-418 | so does reading tried entries; every entry read is either counted or subtracted as lost |
| `AddrManLoad.BucketsBody` | src/addrman.h:420-437 | so does reading positions, whatever they say |
| `AddrManLoad.PrunedBody` | src/addrman.h:439-450 | dropping the entries without a place leaves everybody placed and the counter right |
| `AddrManLoad.PrunedIndexIff` | src/addrman.h:439-450 | afterwards the index is right exactly when nobody who stays shared an address with another entry read |
| `AddrManLoad.LoadSoundIff` | src/addrman.h:350-454 | any readable stream, whoever wrote it, reads as a state that satisfies the invariant exactly when neither counter is negative and every entry read that shares its address has no place and is dropped |
| `AddrManLoad.LoadSoundOnce` | src/addrman.h:350-454 | if it lists no address twice, exactly when neither counter is negative |
| `AddrManLoad.RepeatedAddressBreaks` | src/addrman.h:379-450 | one particular stream, a version 0 list of the same new entry twice, reads as a state whose index has lost an entry |
| `AddrManLoad.RepeatedTriedLoads` | src/addrman.h:399-418 | the same tried entry listed twice reads as a state that satisfies the invariant |
| `Coins.Overlay` | src/coins.h:185-202 | a layer answers from its own entries, spent ones meaning absent, and else from below |
| `Coins.AddKeepsLayerIffHonest` | src/coins.cpp:67-86 | adding a coin makes the view hold it; the flags stay truthful without a throw exactly when overwriting was allowed or the coin was absent |
| `Coins.DishonestAddResurrects` | src/coins.cpp:67-114 | a dishonest addition followed by a spend brings the buried coin back |
| `Coins.SpendKeepsLayer` | src/coins.cpp:100-114 | spending keeps the flags truthful and removes exactly the coin from the view |
| `Coins.LoadKeepsLayer` | src/coins.cpp:41-56 | loading an entry from below is invisible |
| `Coins.UncacheKeepsLayer` | src/coins.cpp:212-219 | dropping an entry without flags is invisible |
| `Coins.MergeEntryCorrect` | src/coins.cpp:147-203 | a merged entry means what the child meant, with flags truthful for the layer below, and is never misapplied |
| `Coins.FlushRefines` | src/coins.cpp:147-210 | merging a child makes the view of this layer the view of the child, restores both flag meanings and never reaches the misapplied-FRESH throw |
| `Coins.WriteRefines` | src/txdb.cpp:118-177 | writing a truthful batch makes the database hold exactly what the writer answered |
| `Coins.CoinsViewDB.BatchWrite` | src/txdb.cpp:118-177 | dirty entries are written or erased, in any order, and the block is recorded |
| `Coins.CoinsViewCache.FetchCoin` | src/coins.cpp:41-56 | finds an entry exactly if it is cached or in the view, and changes no answer |
| `Coins.CoinsViewCache.GetCoin` | src/coins.cpp:58-65 | answers what the view holds |
| `Coins.CoinsViewCache.AccessCoin` | src/coins.cpp:118-125 | returns a spent coin exactly if the view lacks it |
| `Coins.CoinsViewCache.HaveCoin` | src/coins.cpp:127-130 | true exactly if the view has the coin |
| `Coins.CoinsViewCache.AddCoin` | src/coins.cpp:67-86 | says which of ignoring, throwing and adding happens; the stack stays consistent exactly if nothing was added or the flag was honest |
| `Coins.CoinsViewCache.SpendCoin` | src/coins.cpp:100-114 | the view loses exactly the coin; true is returned exactly if it was there or was cached as spent |
| `Coins.CoinsViewCache.Uncache` | src/coins.cpp:212-219 | drops exactly an entry without flags and changes no answer |
| `Coins.CoinsViewCache.GetBestBlock` | src/coins.cpp:137-141 | returns and remembers the best block of the stack |
| `Coins.CoinsViewCache.SetBestBlock` | src/coins.cpp:143-145 | sets the best block and changes no answer |
| `Coins.CoinsViewCache.AbsorbEntry` | src/coins.cpp:147-203 | one entry of a batch: misapplied exactly when its FRESH flag contradicts ours, and else merged |
| `Coins.CoinsViewCache.AbsorbEntries` | src/coins.cpp:147-203 | a batch in any order gives the same result; misapplied exactly if one entry clashes |
| `Coins.CoinsViewCache.BatchWrite` | src/coins.cpp:147-203 | throws exactly on a clash; a truthful batch becomes what this layer answers |
| `Coins.CoinsViewCache.WriteToBase` | src/coins.cpp:205-210 | the base then answers what this layer answered, unless the database refuses a null block |
| `Coins.CoinsViewCache.Flush` | src/coins.cpp:205-210 | never throws for FRESH, empties the layer, keeps every answer, and keeps the best block exactly in the stated cases |
| `Coins.BestIsFirst` | src/coins.cpp:137-141 | the best block of a stack is the first one set, from the top |
| `Coins.FlushUnused` | src/coins.cpp:205-210 | putting an unused layer on any valid cache and flushing it makes that cache forget its own best block, and changes no coin |
| `Coins.ForgetfulFlush` | src/coins.cpp:205-210 | a concrete stack whose best block goes from 2 back to 1 |
| `Coins.Perform` | src/coins.cpp:41-219 | one honest operation on the top of any stack does to its coins and to the best blocks of its layers what it does without caches, with the same answer; it breaks off exactly when a layer without a best block is flushed to the database |
| `Coins.Replay` | src/coins.cpp:41-219 | so does any run of honest operations, on a stack of any depth, however it was built |
| `CheckQueue.BatchSize` | src/checkqueue.h:107 | a batch has at least one check, no more than are queued, and no more than the limit |
| `CheckQueue.BatchIsShare` | src/checkqueue.h:107 | a batch has the share of the queue that one of all threads, workers and master, would get, within its bounds |
| `CheckQueue.SomeWorkerAwake` | src/checkqueue.h:146-158 | in every run, if checks are queued and there is a worker, some worker is not blocked without a wake-up |
| `CheckQueue.InitInv` | src/checkqueue.h:131 | the initial state satisfies the invariant |
| `CheckQueue.AddInv` | src/checkqueue.h:146-158 | adding checks keeps the invariant |
| `CheckQueue.WorkInv` | src/checkqueue.h:118-122 | evaluating a check keeps the invariant |
| `CheckQueue.TurnInv` | src/checkqueue.h:74-117 | a critical section of a worker or the master keeps the invariant |
| `CheckQueue.NextInv` | src/checkqueue.h:66-158 | every step of any thread keeps the invariant |
| `CheckQueue.RunInv` | src/checkqueue.h:66-212 | every state of every run satisfies the invariant |
| `CheckQueue.WaitIsExact` | src/checkqueue.h:66-158 | in every run nTodo is the number of queued and in-flight checks, and every Wait returned true exactly when all checks its controller added and all it inherited are true |
| `CheckQueue.BlockedMasterHasWorker` | src/checkqueue.h:77-103 | if the master is blocked with no wake-up pending, the queue is empty and a worker holds an unfinished batch |
| `CheckQueue.NeverStuck` | src/checkqueue.h:77-117 | while the master waits some thread can run, and every thread that can run has a step |
| `CheckQueue.StepsRunOut` | src/checkqueue.h:77-123 | every step that is not a spurious wake-up brings the return of Wait closer |
| `CheckQueue.WaitReturns` | src/checkqueue.h:66-143 | from every reachable state with a waiting master the threads can go on until Wait returns, and under any schedule it has returned after at most Rank steps that are not spurious wake-ups |
| `CheckQueue.QueueIsFinished` | src/checkqueue.h:171-212 | whenever no controller holds the queue it is as good as new exactly if what the last one added after its last Wait has all been found true, and bears no trace exactly if that is nothing |
| `CheckQueue.VerdictIsOwn` | src/checkqueue.h:189-202 | a verdict is about the own checks of the controller exactly unless these are all good and an inherited one is bad |
| `CheckQueue.NothingLeaks` | src/checkqueue.h:171-212 | if no controller ever leaves checks behind, nobody inherits any and every verdict is about its own checks |
| `CheckQueue.LateAddLeaks` | src/checkqueue.h:189-202 | a controller that adds a failing check after its Wait makes the next one, which adds nothing, return false |
| `PackageSelection.Size` | src/policy/policy.cpp:246-249 | the least number of virtual bytes whose fourfold covers the weight and the adjusted signature operations |
| `PackageSelection.NoUnderflow` | src/miner.cpp:994-1000 | an ancestor about to be subtracted from cached totals is always still contained in them |
| `PackageSelection.AccountedCovers` | src/miner.cpp:980-1005 | after subtracting everything added, cached totals are still at least the true totals over what is not in the block |
| `PackageSelection.CoversMore` | src/miner.cpp:1201-1204 | also when part of a package was added without any subtraction |
| `PackageSelection.UpdatePackagesForAdded` | src/miner.cpp:980-1005 | exactly the descendants outside the added set get cached totals, each lowered by exactly its added ancestors; the totals cover what is missing |
| `PackageSelection.UpdateDescendants` | src/miner.cpp:988-1002 | the same for one added transaction, without underflow |
| `PackageSelection.SortForBlock` | src/miner.cpp:1022-1031 | a permutation of the package in order of ancestor count |
| `PackageSelection.CountLess` | src/miner.h:180-187 | an ancestor has a smaller ancestor count |
| `PackageSelection.AncestorsFirst` | src/miner.cpp:1024-1027 | in that order every ancestor in the package comes before its descendants |
| `PackageSelection.OwnerLast` | src/miner.cpp:1186-1190 | the transaction the package is for comes last, so that erasing its cached entry finds it still there |
| `PackageSelection.EnoughKnown` | src/miner.cpp:1107-1114 | the totals used for the tests are at least those of the package to be added |
| `PackageSelection.PackageLimits` | src/miner.cpp:678-686 | the weight of a package is at most four times its size |
| `PackageSelection.WalkedAll` | src/miner.cpp:1064 | when both lists have run out, everybody is in the block or in a package that was refused |
| `PackageSelection.AccountedExact` | src/miner.cpp:980-1005 | as long as nothing is refused, cached totals are exactly those of what is missing, and everybody with an ancestor in the block has them |
| `PackageSelection.AccountedBounded` | src/miner.cpp:980-1005 | cached totals are never above those of the mempool |
| `PackageSelection.LookAt` | src/miner.cpp:1107-1114 | what is known about an entry is between the totals of its missing package and those of the mempool, and is the former as long as nothing was refused |
| `PackageSelection.StreakGoesOn` | src/miner.cpp:1130-1136 | failures in a row are of different entries |
| `PackageSelection.AddedSelecting` | src/miner.cpp:1206-1209 | a package added whole keeps what the selection keeps up |
| `PackageSelection.BrokenSelecting` | src/miner.cpp:1201-1204 | so does one added in part |
| `PackageSelection.RefuseSelecting` | src/miner.cpp:1121-1163 | so does one refused |
| `PackageSelection.BlockAssembler.BlameStays` | src/miner.cpp:1043-1211 | a reason for refusing a package stays one as the block grows |
| `PackageSelection.BlockAssembler.constructor` | src/miner.cpp:139-152 | the block starts empty with 4000 weight and 400 sigops reserved |
| `PackageSelection.BlockAssembler.AddToBlock` | src/miner.cpp:961-978 | appends the transaction and its costs; order is kept if its ancestors are in the block |
| `PackageSelection.BlockAssembler.AttemptToAddContractToBlock` | src/miner.cpp:791-958 | nothing changes exactly if the contracts fail; otherwise the transaction is appended, with the costs of its transfers besides its own |
| `PackageSelection.BlockAssembler.AddTransaction` | src/miner.cpp:1175-1195 | a transaction is left out exactly if time is up or its contracts fail, which is then the recorded reason |
| `PackageSelection.BlockAssembler.OnlyUnconfirmed` | src/miner.cpp:665-676 | leaves exactly what is not in the block |
| `PackageSelection.BlockAssembler.AddPackage` | src/miner.cpp:1173-1199 | adds the whole package unless time runs out or a contract fails, which is then the recorded reason; whatever fails part-way, ancestors come first, exactly the package is dropped from the cached totals, these cover what is missing, and without contracts the limits hold and the costs are those of the package |
| `PackageSelection.BlockAssembler.Choose` | src/miner.cpp:1077-1105 | the chosen entry is the next of the mempool, which nobody excludes, or one with cached totals; the walk advances exactly in the first case |
| `PackageSelection.BlockAssembler.Consider` | src/miner.cpp:1140-1209 | a package is refused exactly for a recorded reason, and otherwise is in the block whole; a round that adds nothing removes a cached entry if it used one; otherwise the block grew within its limits unless a contract was added |
| `PackageSelection.BlockAssembler.Take` | src/miner.cpp:1166-1209 | a package that passed the tests is in the block whole, with its descendants corrected, or broke off for a recorded reason; the count of failures is reset |
| `PackageSelection.BlockAssembler.Refuse` | src/miner.cpp:1122-1163 | an entry refused is forgotten, with its reason on record, and counts as failed if it had cached totals |
| `PackageSelection.BlockAssembler.ConsiderNext` | src/miner.cpp:1064-1210 | every round makes the block grow, or uses up a mempool entry, or shrinks the cached totals; it ends the selection exactly for a recorded reason, at once when time is up and after a thousand failures in a row, all of different entries, near the weight limit |
| `PackageSelection.BlockAssembler.AddPackageTxs` | src/miner.cpp:1043-1211 | terminates; every transaction comes after all its in-mempool ancestors and at most once; contract-free blocks that add anything stay under the weight and sigop limits; if both lists ran out, every mempool transaction is in the block or in the package of an entry that was refused, for a reason on record that holds, and if none was refused all are in; with room for all, no contracts and nobody objecting, all are in |
| `CuckooCache.BitPackedFlags.constructor` | src/cuckoocache.h:61-68 | all flags are set and there is space for the size asked for |
| `CuckooCache.BitPackedFlags.BitSet` | src/cuckoocache.h:92-95 | sets exactly one flag |
| `CuckooCache.BitPackedFlags.BitUnset` | src/cuckoocache.h:103-106 | clears exactly one flag |
| `CuckooCache.BitPackedFlags.BitIsSet` | src/cuckoocache.h:113-116 | reads the flag |
| `CuckooCache.Locs` | src/cuckoocache.h:243-253 | the eight locations are inside the table |
| `CuckooCache.Cache.constructor` | src/cuckoocache.h:340-353 | the cache starts empty and consistent, with at least two slots and epochs of 45 percent of its size |
| `CuckooCache.Cache.EpochCheck` | src/cuckoocache.h:289-321 | ages the table exactly if the counter has run out and the current epoch is full, and otherwise counts down; keeps the invariant; an element it marks as erasable has seen more than epoch_size insertions since its own last one |
| `CuckooCache.Cache.Age` | src/cuckoocache.h:305-311 | marks exactly the old epoch as erasable and makes the current one old |
| `CuckooCache.Cache.CountCurrent` | src/cuckoocache.h:295-300 | counts the live elements of the current epoch |
| `CuckooCache.Cache.Insert` | src/cuckoocache.h:392-440 | of the elements kept after the epoch check and the new one, all are kept except at most one; whoever aged out was last inserted more than epoch_size insertions ago; nothing is dropped, and the new element is kept, if it was in the table or has an erasable location; something is dropped only after as many displacements as the limit allows, of elements none of which had an erasable location |
| `CuckooCache.Cache.KeepAt` | src/cuckoocache.h:400-405 | an element found is kept once, as before or again |
| `CuckooCache.Cache.Refresh` | src/cuckoocache.h:400-405 | an element found is kept and its insertion time renewed |
| `CuckooCache.Cache.Take` | src/cuckoocache.h:408-415 | an element put into an erasable slot is added and nothing kept is lost |
| `CuckooCache.Cache.Swap` | src/cuckoocache.h:430-435 | the displaced element comes out with its own epoch, and is nowhere else in the table |
| `CuckooCache.Cache.Displace` | src/cuckoocache.h:406-440 | the new element goes to its first erasable location, or to the location after the one it came from, whose holder goes on likewise, until one finds an erasable location or the limit is reached, when the last one in hand is dropped; the table is exactly what these exchanges make of it |
| `CuckooCache.Cache.Relocate` | src/cuckoocache.h:406-438 | one round places the element in hand in its first erasable location, or exchanges it for the holder of the next location, exactly if it has none |
| `CuckooCache.TrailStuck` | src/cuckoocache.h:406-440 | every element put down by an exchange had no erasable location |
| `CuckooCache.Cache.Contains` | src/cuckoocache.h:467-477 | true exactly if the element is at one of its locations, so for every kept element; erasing takes exactly it out of what is kept |
| `CuckooCache.PutOk` | src/cuckoocache.h:406-440 | putting an element at one of its locations keeps every kept element at home, unique and dated by its last insertion |
| `CuckooCache.NowhereElse` | src/cuckoocache.h:400-405 | an element at none of its eight locations lives nowhere in the table |
| `CuckooCache.OnlyLive` | src/cuckoocache.h:467-475 | no element lives in two slots, not even one that equals the blank element the table starts with |
| `CuckooCache.Aged` | src/cuckoocache.h:305-311 | one ageing keeps homes and dates, and only hits elements old enough |
| `CuckooCache.LivePut` | src/cuckoocache.h:408-435 | putting an element into a slot exchanges it for whoever was kept there |
| `RollingBloom.WipedIs` | src/bloom.cpp:253-261 | the mask erases exactly the positions that carry the given generation number |
| `RollingBloom.StampedIs` | src/bloom.cpp:270-272 | writing a position stores the generation number there and nowhere else |
| `RollingBloom.NextGeneration` | src/bloom.cpp:247-252 | the number reused is the one of the generation three before, so wiping it leaves exactly the last two |
| `RollingBloom.FastMod` | src/bloom.cpp:241-243 | the result is below n |
| `RollingBloom.SetIffRecent` | src/bloom.cpp:245-294 | a position is set exactly if it was last written in this generation or the two before |
| `RollingBloom.LastIffRecent` | src/bloom.cpp:245-294 | the positions last written then are exactly those of the last keys |
| `RollingBloom.NothingElseMore` | src/bloom.cpp:264-274 | inserting a key sets its positions and no others |
| `RollingBloom.RollingBloomFilter.constructor` | src/bloom.cpp:205-230 | the filter starts empty and consistent, with half the elements rounded up per generation |
| `RollingBloom.RollingBloomFilter.Reset` | src/bloom.cpp:302-310 | the filter is empty and consistent, so that it finds nothing |
| `RollingBloom.RollingBloomFilter.Rotate` | src/bloom.cpp:247-262 | starting a generation keeps every position of the last two and forgets the third |
| `RollingBloom.RollingBloomFilter.WipeAll` | src/bloom.cpp:255-261 | every pair of words is wiped by the mask |
| `RollingBloom.RollingBloomFilter.Mark` | src/bloom.cpp:270-272 | sets one position in the current generation |
| `RollingBloom.RollingBloomFilter.Insert` | src/bloom.cpp:245-274 | the key is remembered, and the filter stays consistent |
| `RollingBloom.RollingBloomFilter.Contains` | src/bloom.cpp:282-294 | true exactly if every position of the key is a position of some key of this generation or the two before; so always for each of the last 2 * ceil(nElements / 2) + nEntriesThisGeneration keys since the reset |
| `PartialMerkle.CalcHeight` | src/merkleblock.cpp:121-124 | the height is the least at which the tree is one node wide |
| `PartialMerkle.CalcHashIsLevel` | src/merkleblock.cpp:40-58 | the recursive hash of a node is the hash at its place in the level-by-level tree |
| `PartialMerkle.RootIsBlockRoot` | src/consensus/merkle.cpp:46-63 | for every non-empty list the recursive root is the merkle root of a block, computed level by level |
| `PartialMerkle.ComputeMerkleRoot` | src/consensus/merkle.cpp:46-63 | the level-by-level root; the flag is set exactly if two equal neighbours are combined on some level |
| `PartialMerkle.RootDetermines` | src/consensus/merkle.cpp:31-40 | without collisions, two lists with as many levels and the same root, neither of them flagged, are the same |
| `PartialMerkle.RepeatedLast` | src/consensus/merkle.cpp:14-30 | repeating the last of an odd number of hashes keeps the root, and is flagged; the level above has the same root too |
| `PartialMerkle.NodeSound` | src/merkleblock.cpp:78-114 | whatever the data, a node whose hash comes out right reports only true transactions at increasing indices inside its span |
| `PartialMerkle.NodeComplete` | src/merkleblock.cpp:60-114 | extracting what was built for a node consumes exactly that and gives its hash and its matches |
| `PartialMerkle.SiblingsDiffer` | src/merkleblock.cpp:101-107 | with distinct transactions the two children of a node have different hashes, so the duplicate check never fires on honest data |
| `PartialMerkle.FlagBitCount` | src/merkleblock.h:40-50 | there are 2N-1 flag bits for N hashes plus one per single-child node on the way |
| `PartialMerkle.FlagBitBoundFails` | src/merkleblock.h:47 | five transactions with the last one matched need more than 2N-1 bits |
| `PartialMerkle.HashesPerLeaf` | src/merkleblock.cpp:60-76 | a node stores between one hash and one per leaf below it |
| `PartialMerkle.HashesPerMatch` | src/merkleblock.cpp:60-76 | a node stores at most one hash more than its matches times its height |
| `PartialMerkle.HashBounds` | src/merkleblock.cpp:116-128 | a tree stores at most as many hashes as transactions and at most 1 + matches * height |
| `PartialMerkle.ExtractIsSound` | src/merkleblock.cpp:132-163 | any partial tree that extracts to the root of a block with as many transactions reports only that block's transactions at their true, increasing indices |
| `PartialMerkle.ExtractIsComplete` | src/merkleblock.cpp:116-163 | what is built extracts to the root and exactly the matched transactions in order, also with padded flag bits |
| `PartialMerkle.PackBits` | src/merkleblock.h:95-100 | bit p of the flags is bit p mod 8 of byte p / 8, and padding bits are clear |
| `PartialMerkle.UnpackBits` | src/merkleblock.h:101-105 | every byte yields its eight bits in order |
| `PartialMerkle.PartialMerkleTree.constructor` | src/merkleblock.cpp:116-128 | stores the encoding of the whole tree |
| `PartialMerkle.PartialMerkleTree.Unserialize` | src/merkleblock.h:87-105 | holds what was received |
| `PartialMerkle.PartialMerkleTree.ParentOfMatch` | src/merkleblock.cpp:61-64 | true exactly if a leaf below the node is matched |
| `PartialMerkle.PartialMerkleTree.TraverseAndBuild` | src/merkleblock.cpp:60-76 | appends the encoding of the node |
| `PartialMerkle.PartialMerkleTree.TraverseAndExtract` | src/merkleblock.cpp:78-114 | returns what the extraction of the node gives, for any data and any position |
| `PartialMerkle.PartialMerkleTree.ExtractMatches` | src/merkleblock.cpp:132-163 | returns the verified root and matches, or zero; the index list is appended to |
| `PartialMerkle.Relay` | src/merkleblock.cpp:60-163 | build, pack, send, unpack and extract gives the merkle root of the block and exactly the matched transactions |
| `Chain.InvertLowestOneClears` | src/chain.cpp:71 | clears exactly the lowest bit set |
| `Chain.SkipsBack` | src/chain.cpp:74-82 | the skip height is below the height |
| `Chain.SkipLow` | src/chain.cpp:74-82 | where a skip pointer leads to, from the lowest three bits of the height |
| `Chain.FollowsIfNotTooFar` | src/chain.cpp:94-99 | at a multiple of eight the pointer is followed if it does not go too far |
| `Chain.BorrowNears` | src/chain.cpp:71 | if clearing the lowest bit would go too far, one step back agrees with the target in one more of the highest bits |
| `Chain.StepNears` | src/chain.cpp:91-107 | every step of the search makes the heights agree in more of their highest bits, or lowers the number of bits set and the last three of them |
| `Chain.StepsRunDown` | src/chain.cpp:77-79 | so every step lowers a bound on the steps left |
| `Chain.StepsAtMost` | src/chain.cpp:77-79 | that bound is at most (b + 1) * (b + 5) for heights of b binary digits |
| `Chain.BlockIndex.GetAncestor` | src/chain.cpp:84-109 | the block reached by following pprev to the height, or null outside the branch; where every block has its skip pointer, after at most (b + 1) * (b + 5) steps for a height of b binary digits |
| `Chain.BlockIndex.BuildSkip` | src/chain.cpp:116-120 | the skip pointer leads to the ancestor at the skip height |
| `Chain.AddToBlockIndex` | src/validation.cpp:5017-5053 | adding a block with its links and skip pointer keeps the tree consistent and without gaps in the skip pointers |
| `Chain.BranchPrefix` | src/chain.cpp:84-109 | the branch of an ancestor is a prefix of the branch |
| `Chain.LastCommonAncestor` | src/chain.cpp:154-171 | the highest block both branches share, or null if they share none |
| `Chain.StepBackTogether` | src/chain.cpp:163-167 | two blocks at equal height walk back to the highest block their branches share |
| `Chain.ActiveChain.Overwrite` | src/chain.cpp:17-21 | the loop stops at the first height that is right already |
| `Chain.ActiveChain.SetTip` | src/chain.cpp:12-22 | every height holds the ancestor of the tip, in spite of the early stop; tip and height are those of the block |
| `Chain.ActiveChain.FindFork` | src/chain.cpp:52-61 | the highest block of the branch that the chain contains |
| `Chain.ActiveChain.StepBack` | src/chain.cpp:37-44 | lookup in the vector and search by skip list agree |
| `Chain.ActiveChain.GetLocator` | src/chain.cpp:24-50 | the blocks of the branch one by one for ten steps, then in doubling steps down to the genesis block |
| `ArithUint256.Uint256.constructor` | src/arith_uint256.h:56-64 | holds the 64-bit number |
| `ArithUint256.Uint256.Assign` | src/arith_uint256.h:87-94 | holds the 64-bit number |
| `ArithUint256.Uint256.Complement` | src/arith_uint256.h:68-74 | 2^256 - 1 minus the value |
| `ArithUint256.Uint256.Increment` | src/arith_uint256.h:172-179 | one more, modulo 2^256 |
| `ArithUint256.Uint256.Add` | src/arith_uint256.h:134-144 | the sum modulo 2^256, also for adding a number to itself |
| `ArithUint256.Uint256.Negate` | src/arith_uint256.h:76-83 | the negative modulo 2^256 |
| `ArithUint256.Uint256.Subtract` | src/arith_uint256.h:146-150 | the difference modulo 2^256 |
| `ArithUint256.Uint256.CompareTo` | src/arith_uint256.cpp:111-121 | the order of the values |
| `ArithUint256.Uint256.EqualTo` | src/arith_uint256.cpp:123-135 | equality of the values |
| `ArithUint256.Uint256.ShiftLeft` | src/arith_uint256.cpp:23-38 | the value times 2^shift modulo 2^256, for every shift |
| `ArithUint256.Uint256.ShiftRight` | src/arith_uint256.cpp:40-55 | the value divided by 2^shift, for every shift |
| `ArithUint256.Uint256.Bits` | src/arith_uint256.cpp:193-206 | the position of the highest bit set plus one |
| `ArithUint256.Uint256.MultiplyLimb` | src/arith_uint256.cpp:57-67 | the product modulo 2^256 |
| `ArithUint256.Uint256.Multiply` | src/arith_uint256.cpp:69-83 | the product modulo 2^256 |
| `ArithUint256.Uint256.AddRow` | src/arith_uint256.cpp:73-80 | one row adds the shifted product up to a multiple of 2^256 |
| `ArithUint256.Uint256.Divide` | src/arith_uint256.cpp:85-109 | the exact quotient; fails exactly on zero, and is then zero |
| `ArithUint256.Uint256.DivideStep` | src/arith_uint256.cpp:99-106 | one step keeps quotient times divisor plus rest, and halves the bound on the rest |
| `ArithUint256.Uint256.SetBit` | src/arith_uint256.cpp:102 | setting a clear bit adds its power of two |
| `ArithUint256.Uint256.SetCompact` | src/arith_uint256.cpp:229-247 | the mantissa scaled by 256^(exponent-3), reported as overflowing exactly when it is at least 2^256 and as negative exactly when it is nonzero with the sign bit |
| `ArithUint256.Uint256.GetLow64` | src/arith_uint256.h:247-251 | the value modulo 2^64 |
| `ArithUint256.Uint256.GetCompact` | src/arith_uint256.cpp:249-270 | a canonical compact form whose value is below the number by less than its own lowest unit, with at least 16 significant bits; its assertions hold |
| `ArithUint256.CanonicalUnique` | src/arith_uint256.cpp:249-270 | a value and a sign have one canonical form |
| `ArithUint256.Lossless` | src/arith_uint256.cpp:229-270 | writing a value that was read from a compact form loses nothing |
| `ArithUint256.Recompact` | src/arith_uint256.cpp:229-270 | reading a form that does not overflow and writing it again keeps the value, and gives the same form exactly when that was canonical |
| `ArithUint256.LeftValue` | src/arith_uint256.cpp:23-38 | limbs shifted with or are the value times a power of two modulo 2^256 |
| `ArithUint256.RightValue` | src/arith_uint256.cpp:40-55 | limbs shifted down with or are the quotient by a power of two |
| `ArithUint256.LargeCompact` | src/arith_uint256.cpp:242-245 | the three-case overflow test is exact |
| `ArithUint256.TargetFits` | src/chain.cpp:127-134 | a target that fits is never 2^256 - 1, so target + 1 is never zero |
| `ArithUint256.GetBlockProof` | src/chain.cpp:122-135 | 2^256 / (target + 1) rounded down, or zero for a negative, overflowing or zero target |
| `Bech32.StepRefines` | src/bech32.cpp:70-92 | one step of the packed computation multiplies by x and adds the symbol, modulo the generator over GF(32) |
| `Bech32.RemRefines` | src/bech32.cpp:37-94 | the packed result is what the GF(32) steps make of the whole input |
| `Bech32.FoldDivides` | src/bech32.cpp:37-69 | those steps divide: the input polynomial is a quotient times the generator plus what they leave, coefficient by coefficient |
| `Bech32.DivisionUnique` | src/bech32.cpp:37-69 | there is only one such quotient and remainder |
| `Bech32.RemIsRemainder` | src/bech32.cpp:37-94 | so the packed word is the remainder of the whole input modulo the generator |
| `Bech32.PolyMod` | src/bech32.cpp:37-94 | computes that remainder |
| `Bech32.ExpandHRP` | src/bech32.cpp:103-115 | high bits, a zero, low bits |
| `Bech32.VerifyChecksum` | src/bech32.cpp:118-125 | true exactly if the remainder is 1 |
| `Bech32.CreateChecksum` | src/bech32.cpp:128-139 | the six symbols |
| `Bech32.ChecksumVerifies` | src/bech32.cpp:118-139 | created checksums always verify |
| `Bech32.BurstsAreDetected` | src/bech32.cpp:118-125 | two data parts that differ only inside six consecutive symbols never both verify |
| `Bech32.CharsetBack` | src/bech32.cpp:13-31 | the reverse table undoes the character set |
| `Bech32.CharsetForth` | src/bech32.cpp:13-31 | and only accepts characters of the set |
| `Bech32.Encode` | src/bech32.cpp:147-156 | the human-readable part, the separator, the data and checksum characters |
| `Bech32.Scan` | src/bech32.cpp:160-167 | finds unprintable characters and mixed case |
| `Bech32.Decode` | src/bech32.cpp:159-190 | the parts of a string that passes every test, or failure |
| `Bech32.RoundTrip` | src/bech32.cpp:147-190 | decoding undoes encoding exactly for encodable pairs |
| `Bech32.DecodedReencodes` | src/bech32.cpp:147-190 | every string that decodes is, in lower case, the encoding of what it decodes to |
| `Base58.EncodeSize` | src/base58.cpp:95 | 138/100 digits per byte are always enough |
| `Base58.DecodeSize` | src/base58.cpp:47 | 733/1000 bytes per digit are always enough |
| `Base58.MultiplyAdd` | src/base58.cpp:99-109 | the number in the buffer times the factor plus the digit, the carry being what does not fit |
| `Base58.Significant` | src/base58.cpp:111-121 | the digits of the number without leading zeros |
| `Base58.EncodeDigits` | src/base58.cpp:97-110 | the number of the bytes in base 58; the carry assertion holds |
| `Base58.EncodeBase58` | src/base58.cpp:84-122 | a 1 per leading zero byte, then the digits of the number |
| `Base58.DecodeDigits` | src/base58.cpp:50-69 | the number of the digits in base 256, stopping at a space or a bad character; the carry assertion holds |
| `Base58.DecodeBase58` | src/base58.cpp:35-82 | fails exactly unless the string is one word of base 58 digits between spaces, and else gives a zero byte per leading 1 and the bytes of the number |
| `Base58.RoundTrip` | src/base58.cpp:35-122 | decoding undoes encoding for every byte string |
| `Base58.DecodedReencodes` | src/base58.cpp:35-122 | a string that decodes is, up to surrounding spaces, the encoding of what it decodes to |

## Left out

- Start-up, RPC, networking, logging, files and database wrappers: input and output.
- Keys, signatures and scripts: thin layers over libraries.
- Contract execution, staking, rewards, burning and the economy contracts: a contract either fails or is added with any further cost.
- `CAddrMan::Attempt_`, `Connected_` and `SetServices_`: they only write statistics that no clause of the invariant reads; a run may change those fields at any time.
- `CAddrMan::Select_` and `GetChance`: floating point and termination with probability one.
- That the timestamp clauses of `Check_` hold throughout a run, and the overflow of `nIdCount`: they depend on the clock and on more than 2^31 insertions.
- AddrMan.AddrManager.Check_: which error code a broken state gets is not specified, only that it gets one.
- AddrManStream.Unserialize: what a failed read leaves behind is not specified, and a stream is a sequence of items rather than bytes.
- Memory accounting (`cachedCoinsUsage`) of the coin caches.
- Coins.CoinsViewDB.BatchWrite: writes at once; partial batches and crash recovery are not modelled.
- Ancestor fees in the block assembler: one path subtracts the modified fee and another the base fee, so that only sizes and sigops have exact totals; which package pays best is left open, and the fee floor is a question to the world.
- PackageSelection.BlockAssembler.AttemptToAddContractToBlock: whether contracts fail and the costs of value transfers are up to the world, so blocks with contracts are not claimed to stay within the limits.
- PackageSelection.UpdatePackagesForAdded: the statistic nDescendantsUpdated is not counted.
- CuckooCache.Cache.constructor: the depth limit, a floating-point logarithm in the code, is a parameter of at least one, and `45 * size` does not overflow.
- RollingBloom.RollingBloomFilter.constructor: the number of hashes and words, computed in floating point, are parameters.
- False-positive rates of the filters, and the four-error guarantee of Bech32 over 89 characters: not loop arguments.
- `getdouble`, hexadecimal text and `operator--` of the 256-bit numbers: easy members.
- `GetBlockProofEquivalentTime`: a division and a product of the numbers above.
- Block filters, compact blocks, the compressor, the limited map and the ban list: easier or resting on code that is not part of this model.
