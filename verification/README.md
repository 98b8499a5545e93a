# Dacrs: a verified model of the node's self-contained cores

Dacrs is a node of the Bitcoin family. This project models, in Dafny 4.11, the parts of it whose correctness can be
stated without the chain code, and proves what their comments, assertions and documentation promise. Run
`dafny verify dfyconfig.toml` to check everything.

Where the C++ updates an object step by step, the model is a class whose methods follow the same steps, each proved
against a specification on values; the properties of the system are then lemmas about those specifications, for every
input, every run and every interleaving. Randomness, clocks, hashes and the routable test are parameters, so every
statement holds for all of them.

* **Address manager** (`Addr*.dfy`). `AddrState` has the tables and the invariant: ids, addresses and random positions in
  bijection, each tried id in one slot of its home bucket, each new id in exactly as many buckets as its count says,
  exact counters, bucket limits. `AddrOps` is what each operation does, `AddrInv` that it keeps the invariant,
  `AddrEffects` what else it does and does not change, `AddrAnswers` what it answers in plain fields and figures,
  `AddrDisk` the file format, `AddrRuns` whole runs, `AddrManager` the object itself, `AddrCheck` the self-check and
  exactly how much of the invariant it sees, `AddrTimes` which runs keep it silent, `AddrResize` files written with
  another number of buckets, `AddrEviction` one run worked out.
* **Check queue** (`CheckQueue.dfy`, `CheckProtocol.dfy`). The code under the mutex, and the state machine it forms with
  any number of workers, two condition variables and spurious wake-ups: safety, the meaning of `Wait`, no lost wake-up,
  and a bound on how long `Wait` can go on.
* **256-bit arithmetic** (`Powers`, `Limbs`, `LimbSteps`, `Compact`, `Arith256`). Limb loops against integer arithmetic
  modulo 2^256, exact long division, and the compact target encoding.
* **Base58** (`Radix`, `Base58Bounds`, `Base58`). In-place base conversion, the buffer sizes for every length, and the
  round trips, plain and with a checksum.
* **Streams** (`DataStream`, `VarInt`, `LittleEndian`, `CompactSize`, `BufferedFile`). The consuming byte stream, both
  integer codes, and the file reader over a ring buffer.
* **Merkle trees** (`Merkle`). Completeness for every index and soundness for every hash, in the form "or here is a
  collision".
* **Locks** (`LockedPages`, `LockOrder`). Stacked page locks as a count of live ranges; which runs the lock-order
  detector reports.
* **Checked integers** (`MachineInt`, `SafeAddition`, `SafeSubtraction`, `SafeMultiplication`, `SafeParse`). Addition,
  subtraction and multiplication for all 64 pairs of integer types, and the decimal parser on top of them.
* **Small parts** (`Random`, `LimitedMap`, `Hex`), and shared vocabulary in `Common`.

## Where the code and its comments part

Each of these is stated as a lemma with the exact condition, or with a concrete case.

* `SelectTried` records the position before its swap: the slot it returns holds the least recently successful of the
  inspected entries exactly when the draw that found it was zero (`AddrEffects.SelectedSlotHoldsOldest`). So with no
  zero among the draws a full bucket never gives that entry up (`EvictedByDraws`, `PromotionByDraws`).
  `AddrEviction.OldestSpared` is a run from the empty manager in which that happens.
* The file format is meant to survive a change of its parameters. A file with another number of buckets is read without
  looking at bucket sizes: the table is consistent exactly when no bucket is selected by more than 64 new entries
  (`AddrResize.ResizeInv`, `CrowdedBucket`), and a bucket above its size only grows (`OverfullGrows`).
* The self-check is silent on tables with entries in wrong buckets, over-full buckets or stray addresses, and on nothing
  else the invariant rules out (`AddrCheck.CheckExact`, `AnyBucketPasses`, `StrayAddressPasses`,
  `AddrResize.ResizePasses`).
* The self-check wants a positive last-success time of tried entries; `Good_` provides one exactly for a positive clock
  (`AddrCheck.GoodTimes`, `AddrTimes.StepTimes`).
* `CBufferedFile` promises to rewind a given number of bytes, but measures from what has been read from the file, not
  from what has been read from the buffer; a step back can be refused and even move the reader forward
  (`BufferedFile.ReachedIff`, `RewindRefused`). A position near 2^64 can wrap around the comparison
  (`BufferedFile.LandsInWindow`, `WrappedOut`). `FindByte` does not look at the read limit.
* "Every integer has exactly one encoding" holds for naturals; at a fixed width the reader accepts further codes
  (`VarInt.ReencodeIff`, `TwoCodesForZero`).
* Merkle roots do not determine the list: repeating the last of an odd number of transactions keeps the root
  (`Merkle.DuplicateLast`), the level above a list has the root of the list (`Merkle.InnerLevelSameRoot`), and a shorter
  branch proves an inner node (`Merkle.InnerNodeChecks`). `Merkle.SameRootIff` says exactly which lists share a root.
* The Base58 decoder that takes a string stops at the first NUL and accepts whatever stands behind it
  (`Base58.StringIsEncodingIff`, `NulHidesText`).
* The variable-length writer takes negative numbers of signed types and loses them (`VarInt.NegativeIsLost`).
* `a *= a` gives zero, because the operand is cleared before it is read (`Arith256.BaseUint.MulAssign`).
* `limitedmap` compares its size with the limit by equality, so a map that has reached the limit grows past it
  (`LimitedMap.Limited.Add`, `GrowPastLimit`).
* The lock-order detector reports pairwise inversions and nothing else; a cycle of three locks goes unreported
  (`LockOrder.ThreeCycleUnreported`).

## Model

| member | source | states |
|---|---|---|
| `AddrState.TriedSpreadOfGroup` | src/addrman.cpp:12-24 | any set of services of one address group occupies at most 4 tried buckets, for every hash and key |
| `AddrState.NewSpreadOfSourceGroup` | src/addrman.cpp:26-38 | whatever addresses one source group announces, they reach at most 32 new buckets |
| `AddrState.InitInv` | src/addrman.h:285-294 | the freshly constructed manager satisfies the whole invariant |
| `AddrState.TouchInv` | src/addrman.cpp:386-404 | changing only times and attempt counts of an entry keeps the whole invariant |
| `AddrOps.VictimTerrible` | src/addrman.cpp:173-189 | a bucket holding a terrible entry loses a terrible one, namely that with the lowest id |
| `AddrOps.VictimOldest` | src/addrman.cpp:190-203 | a bucket without terrible entries loses an entry at a drawn position that is no younger than any other drawn one |
| `AddrOps.SelectPermutes` | src/addrman.cpp:147-167 | the shuffle of a tried bucket is a permutation: nothing lost, nothing duplicated |
| `AddrInv.SwapRandomInv` | src/addrman.cpp:127-145 | swapping two random positions keeps ids and positions in bijection and with them the whole invariant |
| `AddrInv.UnrefInv` | src/addrman.cpp:178-185 | dropping one reference, and the entry when it was the last, keeps every index consistent even while another entry is half inserted |
| `AddrInv.ShrinkInv` | src/addrman.cpp:169-214 | ShrinkNew frees exactly one place in its bucket and keeps every index consistent even while another entry is half inserted |
| `AddrInv.InsertInv` | src/addrman.cpp:377-381 | completing a pending reference by inserting the id restores the full invariant |
| `AddrInv.PutInNewInv` | src/addrman.cpp:374-382 | giving a new entry another reference keeps the invariant: at most 4 references, at most 64 entries a bucket |
| `AddrInv.CreateInv` | src/addrman.cpp:114-125 | a created entry is linked in id map, address map and random vector; only its first reference is missing |
| `AddrInv.AddInv` | src/addrman.cpp:323-384 | Add_ keeps the whole invariant, for every address, source, clock and draw |
| `AddrInv.LeaveNewInv` | src/addrman.cpp:219-227 | taking an entry out of all its new buckets leaves its count at zero and everything else consistent |
| `AddrInv.EvictTriedInv` | src/addrman.cpp:241-268 | an eviction always finds room: in the evicted entry's own new bucket or in the one the promoted entry left |
| `AddrInv.MakeTriedInv` | src/addrman.cpp:216-269 | promotion keeps the whole invariant, with and without eviction |
| `AddrInv.GoodFindsBucket` | src/addrman.cpp:299-315 | the search for the bucket of a new entry always succeeds: the "something bad happened" exit is unreachable |
| `AddrInv.GoodInv` | src/addrman.cpp:271-321 | Good_ keeps the whole invariant |
| `AddrInv.AttemptInv` | src/addrman.cpp:386-404 | Attempt_ keeps the whole invariant |
| `AddrInv.ConnectedInv` | src/addrman.cpp:531-551 | Connected_ keeps the whole invariant |
| `AddrInv.ShuffleInv` | src/addrman.cpp:522-526 | shuffling the front of the random vector changes nothing but random positions and keeps the whole invariant |
| `AddrInv.GetAddrInv` | src/addrman.cpp:516-529 | GetAddr_ keeps the whole invariant |
| `AddrInv.GetAddrDistinct` | src/addrman.cpp:516-529 | GetAddr_ hands out pairwise different addresses, each as it stands in the table with time stamp and services, as many as the percentage and the cap say |
| `AddrEffects.TriedBound` | src/addrman.h:116-120 | at most 64*64 entries are tried |
| `AddrEffects.NewBound` | src/addrman.h:122-126 | at most 256*64 entries are new |
| `AddrEffects.SizeBound` | src/addrman.h:92-100 | the counters are exact and bounded, and random vector, id map and address map all have the size of their sum |
| `AddrEffects.MakeTriedEffect` | src/addrman.cpp:216-269 | promotion deletes nobody; it can change one other entry only, a tried one of the same full bucket, which becomes new with one reference |
| `AddrEffects.GoodEffect` | src/addrman.cpp:271-321 | after Good_ the service is tried, unreferenced, without failed attempts and with all three times at the given one; nobody is deleted and at most same-bucket tried entries are moved back |
| `AddrEffects.AddFreshEffect` | src/addrman.cpp:367-383 | a newly added address has one reference, in the bucket its source group and own group determine |
| `AddrEffects.AddKeeps` | src/addrman.cpp:169-214 | Add_ leaves the tried table alone and deletes an entry only if that was new, singly referenced and in the full target bucket |
| `AddrEffects.AddDeletesOne` | src/addrman.cpp:378-380 | Add_ deletes at most one entry |
| `AddrEffects.SelectOldest` | src/addrman.cpp:150-164 | the entry SelectTried takes for the oldest has the least last-success time of all inspected ones, and is the first of these with that time |
| `AddrEffects.SelectedSlotHoldsOldest` | src/addrman.cpp:155-163 | the slot returned holds that oldest entry exactly when the draw that found it was zero |
| `AddrEffects.SlotByDraws` | src/addrman.cpp:154-163 | for every full bucket the draws alone decide: without a zero among the four the slot returned holds another entry than the oldest inspected one, with only zeroes it holds that one |
| `AddrEffects.SlotOfUnitDraws` | src/addrman.cpp:154-163 | in every full bucket whose second entry is the oldest of all, draws of one return the slot of the third |
| `AddrEffects.EvictedByDraws` | src/addrman.cpp:241-265 | the same for the entry that is evicted: with only zero draws the oldest inspected one and no other, without a zero some other and not that one |
| `AddrEffects.PromotionByDraws` | src/addrman.cpp:216-269 | the same for a promotion from any invariant state into a full bucket |
| `AddrDisk.FileOrderNumbers` | src/addrman.h:195-218 | the order of the file lists every entry once, new entries before tried ones |
| `AddrDisk.LoadTriedBack` | src/addrman.h:249-266 | reading back loses no tried entry and returns each to its bucket |
| `AddrDisk.LoadBucketBack` | src/addrman.h:267-280 | reading back a bucket's indices restores exactly its members and their reference counts |
| `AddrDisk.ReloadRenames` | src/addrman.h:161-283 | write then read gives the same table up to renaming of ids, slot order, random order and the unsaved last-try time, with nothing lost |
| `AddrDisk.ReloadInv` | src/addrman.h:161-283 | the reloaded table satisfies the whole invariant again |
| `AddrRuns.StepInv` | src/addrman.h:313-403 | every public operation, and saving and reloading, keeps the whole invariant; Select_ only reads |
| `AddrRuns.VectorAddIsRun` | src/addrman.h:331-348 | adding a vector of addresses is a run of single additions, so all statements about runs cover it |
| `AddrRuns.RunInv` | src/addrman.h:92-114 | in every reachable state the indexes agree and the size bounds hold |
| `AddrRuns.RunFromEmpty` | src/addrman.h:285-294 | in particular in every state reachable from the empty manager |
| `AddrRuns.StepForgets` | src/addrman.h:420-423 | only Add_ can make the table forget a service, and only a never-tried, singly referenced one of the full target bucket |
| `AddrRuns.TriedSurvivesStep` | src/addrman.h:420-423 | a service in the tried table is never forgotten by a step, at most moved back |
| `AddrRuns.TriedUntilGood` | src/addrman.h:106-110 | a tried service stays tried through every run that promotes nobody |
| `AddrResize.NewEntriesRead` | src/addrman.h:237-248 | from a file with another number of buckets each new entry is linked into all indexes, with one reference, in the one bucket it selects |
| `AddrResize.TriedEntriesRead` | src/addrman.h:250-265 | then each tried entry is kept in its home bucket or lost to a full one, and the new entries stay as they were |
| `AddrResize.ResizeInv` | src/addrman.h:181-248 | a sound file with another number of buckets is read into a consistent table exactly when no bucket is selected by more than 64 of its new entries |
| `AddrResize.ResizePasses` | src/addrman.h:181-248 | the self-check accepts the table read from such a file whatever the bucket sizes, if its times are sound |
| `AddrResize.CrowdedBucket` | src/addrman.h:244-247 | under a constant hash n entries land in one bucket: consistent up to 64, from 65 on not, and the self-check accepts either |
| `AddrResize.OverfullGrows` | src/addrman.cpp:374-382 | adding to a bucket above its size makes it larger still and throws nothing out |
| `AddrEviction.GoodPushes` | src/addrman.cpp:229-239 | a promotion into a bucket with room appends the entry to it and to no other |
| `AddrEviction.OldestSpared` | src/addrman.cpp:147-269 | a run from the empty manager: 65 services added and promoted under a constant hash and draws of one end in an eviction that spares the oldest entry inspected |
| `AddrManager.AddrMan.Find` | src/addrman.cpp:97-112 | the lookup gives the id of the address or none; on an invariant state an id exactly for a listed address, and the entry then has that address |
| `AddrManager.AddrMan.Create` | src/addrman.cpp:114-125 | field by field, the state the pure Create describes |
| `AddrManager.AddrMan.SwapRandom` | src/addrman.cpp:127-145 | both maps and vector end up as the pure swap says |
| `AddrManager.AddrMan.SelectTried` | src/addrman.cpp:147-167 | the in-place shuffle and scan leave the bucket and return the slot that the recursive definition gives |
| `AddrManager.AddrMan.ShrinkNew` | src/addrman.cpp:169-214 | both deletion paths lead to the state in which the one chosen victim has lost its reference; 0 is returned exactly when some member is useless by the figures of the documentation |
| `AddrManager.AddrMan.MakeTried` | src/addrman.cpp:216-269 | the loop over all new buckets, and the push or eviction, lead to the state of the pure promotion, whose answers PromotionWithRoom and EvictedGoesHome spell out |
| `AddrManager.AddrMan.SearchNew` | src/addrman.cpp:299-309 | the cyclic search for the bucket of a new entry |
| `AddrManager.AddrMan.CreateFresh` | src/addrman.cpp:368-370 | a created entry with the penalty taken off its time, counted as new |
| `AddrManager.AddrMan.Good` | src/addrman.cpp:271-321 | the early exits, the search loop and the promotion lead to the state of the pure Good |
| `AddrManager.AddrMan.Add` | src/addrman.cpp:323-384 | all exits, the doubling loop and the insertion lead to the state and verdict of the pure Add, whose answers AddKnown, AddUnknown, AddOthers and AddVerdict spell out |
| `AddrManager.AddrMan.Attempt` | src/addrman.cpp:386-404 | only the addressed entry's last try and attempt count change |
| `AddrManager.AddrMan.Connected` | src/addrman.cpp:531-551 | only the addressed entry's time changes, and only when it is 20 minutes old |
| `AddrManager.AddrMan.GetAddr` | src/addrman.cpp:516-529 | the swap-and-collect loop hands out exactly the shuffled front of the random vector |
| `AddrManager.AddrMan.WriteNew` | src/addrman.h:195-207 | one pass over the id map writes the new entries in order and numbers them as the file does |
| `AddrManager.AddrMan.WriteTried` | src/addrman.h:208-218 | one pass over the id map writes the tried entries in order |
| `AddrManager.AddrMan.WriteOut` | src/addrman.h:192-227 | the file written is the pure Save of the state |
| `AddrManager.AddrMan.ReadNew` | src/addrman.h:237-247 | one new entry is linked into all indexes as the pure step says |
| `AddrManager.AddrMan.ReadTried` | src/addrman.h:250-265 | one tried entry is linked, or counted as lost when its bucket is full |
| `AddrManager.AddrMan.ReadBucket` | src/addrman.h:267-280 | one bucket's indices are taken while reference counts allow |
| `AddrManager.AddrMan.ReadIn` | src/addrman.h:228-281 | the state after reading any file is the pure Load of it, whatever the state before |
| `AddrManager.AddrMan.AddAll` | src/addrman.h:331-348 | one Add_ after the other; true exactly when at least one address was new |
| `AddrManager.AddrMan.constructor` | src/addrman.h:285-294 | an empty manager, satisfying the whole invariant |
| `AddrCheck.CheckEntries` | src/addrman.cpp:464-483 | on any table the entry pass is clean exactly when every entry passes its tests, and has then collected the tried ids and the references of the new ones; otherwise it returns the code of some entry |
| `AddrCheck.CheckTriedBucket` | src/addrman.cpp:490-495 | one bucket is clean exactly when its slots are pairwise different ids still listed, which are then crossed off |
| `AddrCheck.CheckTried` | src/addrman.cpp:488-496 | all tried buckets are clean exactly when no id has two slots anywhere and every slot names a tried entry; left over are the tried entries without a slot |
| `AddrCheck.CheckNewBucket` | src/addrman.cpp:500-506 | one bucket is clean exactly when every member has a reference outstanding, and one of each is then crossed off |
| `AddrCheck.CheckNew` | src/addrman.cpp:498-507 | all new buckets are clean exactly when their members are new entries in no more buckets than they have references; left over are the references without a bucket |
| `AddrCheck.Check` | src/addrman.cpp:457-513 | on any table whatever the code names the first test that fails, and is 0 exactly when all hold |
| `AddrCheck.CheckExact` | src/addrman.cpp:457-513 | of a table of the right shape a silent check means the whole invariant and sound time fields but for three things it never asks: home buckets, bucket sizes, stray addresses and ids |
| `AddrCheck.CodesOnInv` | src/addrman.cpp:457-513 | on an invariant state the code is 0 exactly when the time fields are sound, and otherwise -1, -6 or -8 |
| `AddrCheck.StrayAddressPasses` | src/addrman.cpp:479-479 | an empty table with a stray address passes |
| `AddrCheck.AnyBucketPasses` | src/addrman.cpp:488-496 | a table of one tried entry passes whatever bucket the entry is in, though only its home satisfies the invariant |
| `AddrCheck.GoodTimes` | src/addrman.cpp:288-292 | Good_ keeps the time fields sound exactly when the service is unknown or the time is positive |
| `AddrCheck.AttemptTimes` | src/addrman.cpp:401-403 | Attempt_ keeps the time fields sound exactly when the service is unknown or the time is not negative |
| `AddrTimes.AddTimes` | src/addrman.cpp:323-384 | Add_ keeps the time fields sound |
| `AddrTimes.ConnectedTimes` | src/addrman.cpp:531-551 | Connected_ keeps the time fields sound |
| `AddrTimes.GetAddrTimes` | src/addrman.cpp:516-529 | GetAddr_ keeps the time fields sound |
| `AddrTimes.ReloadTimes` | src/addrman.h:161-283 | writing and reading back keeps the time fields sound |
| `AddrTimes.StepTimes` | src/addrman.cpp:468-483 | a step leaves the time fields sound exactly when the times passed to it are, or are not stored |
| `AddrTimes.RunTimes` | src/addrman.cpp:468-483 | once the clock has started, no run upsets the time fields |
| `AddrTimes.CheckAfterRun` | src/addrman.cpp:457-513 | Check_ returns 0 in every state reached from the empty manager once the clock has started |
| `AddrAnswers.PromotionWithRoom` | src/addrman.cpp:216-239 | a promotion into a bucket with room: the entry leaves all new buckets and is appended to its own tried bucket, and nothing else changes |
| `AddrAnswers.FullBucketEvicts` | src/addrman.cpp:241-265 | a promotion into a bucket of 64 turns exactly one of its entries back into a new one with one reference; the promoted entry takes its place and no other bucket changes |
| `AddrAnswers.EvictedGoesHome` | src/addrman.cpp:245-262 | the evicted entry goes to the new bucket its own address and source select exactly when that has fewer than 64 left or is the one the promoted entry was found in, and otherwise to the latter; no other bucket changes |
| `AddrAnswers.SearchFinds` | src/addrman.cpp:299-309 | the search finds the first bucket, counted cyclically from the drawn one, that holds the entry |
| `AddrAnswers.GoodMoves` | src/addrman.cpp:271-321 | the same for Good_: refuge is the first bucket from the drawn one on that held the entry |
| `AddrAnswers.GoodElsewhere` | src/addrman.cpp:277-296 | Good_ leaves the table as it is for a service not listed, and changes one entry only for one already tried |
| `AddrAnswers.VictimChosen` | src/addrman.cpp:173-203 | the victim is the useless entry of lowest id, or without any the oldest of those at four drawn places, the lowest id among equals |
| `AddrAnswers.ShrinkChooses` | src/addrman.cpp:169-214 | ShrinkNew takes the victim out of its bucket only, and out of the table exactly when that was its last reference, the end of the random vector then filling its place there |
| `AddrAnswers.AddKnown` | src/addrman.cpp:330-365 | an announcement of a known address joins the services, renews the time hourly or daily as the address is online or not, less the penalty and never below zero, and places a further reference with one chance in two, four or eight |
| `AddrAnswers.AddUnknown` | src/addrman.cpp:366-382 | an unknown address gets a whole new entry, field by field, in the bucket its source selects |
| `AddrAnswers.AddOthers` | src/addrman.cpp:323-384 | every other entry that stays keeps all fields, but for its random position and one reference if it is the victim of that bucket |
| `AddrAnswers.AddVerdict` | src/addrman.cpp:325-371 | Add_ refuses an address that is not routable, and otherwise reports exactly whether it was unknown |
| `AddrAnswers.SampleIs` | src/addrman.cpp:517-520 | 23 per cent of the table, rounded down, and at most 2500 |
| `AddrAnswers.AnySample` | src/addrman.cpp:516-529 | GetAddr_ can hand out any sample of the table in any order |
| `AddrAnswers.FourInspected` | src/addrman.cpp:150-164 | in a full bucket exactly four entries are inspected, the position returned is the one drawn in the round that inspected the oldest, the first round among equals |
| `AddrOps.TerribleIsUseless` | src/addrman.cpp:40-64 | an entry is terrible by the figures: not tried within a minute, and ahead of the clock by ten minutes, unseen for 30 days, three attempts without a success or ten without one for a week |
| `CheckQueue.ShareBounds` | src/checkqueue.h:102-108 | the number of checks taken is at least one, at most the queue and at most a non-zero batch size |
| `CheckQueue.Queue.Add` | src/checkqueue.h:45-57 | the checks are appended in order, the outstanding count grows by their number, and one or all workers are notified as the count says |
| `CheckQueue.Queue.Settle` | src/checkqueue.h:74-85 | the clean-up of the previous iteration: the counters move by what the thread did, the master is notified exactly by a worker that accounted for the last check, and a verdict once false stays false |
| `CheckQueue.Queue.TakeBatch` | src/checkqueue.h:108-114 | the batch is the end of the queue, last check first, and the queue keeps the rest |
| `CheckQueue.Queue.Loop` | src/checkqueue.h:72-117 | one pass through the critical section gives the state, the outcome and the notification of the pure definition; the batch is the fair share, taken from the back one by one |
| `CheckQueue.Execute` | src/checkqueue.h:118-121 | a batch passes exactly when no earlier failure was known and all its checks pass |
| `CheckQueue.BatchIsShare` | src/checkqueue.h:102-114 | the batch has the size of the fair share of the queue among all threads, and is the back of the queue, last check first |
| `CheckProtocol.InitInv` | src/checkqueue.h:30-32 | the invariant holds initially, for any number of workers |
| `CheckProtocol.AddInv` | src/checkqueue.h:45-57 | Add keeps the invariant |
| `CheckProtocol.ExecInv` | src/checkqueue.h:118-121 | running one check keeps the invariant |
| `CheckProtocol.CritInv` | src/checkqueue.h:72-117 | every pass of every thread through the critical section keeps the invariant |
| `CheckProtocol.NextInv` | src/checkqueue.h:65-124 | every step of every thread keeps the invariant: outstanding = queued + held, every added check is queued, held or accounted for exactly once, and the verdict is justified |
| `CheckProtocol.AfterInv` | src/checkqueue.h:65-124 | the invariant holds in every state of every interleaving |
| `CheckProtocol.WaitVerdict` | src/checkqueue.h:39-42 | Wait returns true exactly when all checks of the round pass, each then run exactly once; false exactly when one fails, which has been run; and the queue is clean for the next round |
| `CheckProtocol.NoLostWakeup` | src/checkqueue.h:78-81 | whenever the master is blocked without a notification, some worker holds an unaccounted, non-empty batch |
| `CheckProtocol.SomeoneCanMove` | src/checkqueue.h:86-101 | until Wait returns, some thread can take a productive step |
| `CheckProtocol.WeightStep` | src/checkqueue.h:72-117 | every productive step lowers a measure of the remaining work; entering and spurious wake-ups raise it by at most one |
| `CheckProtocol.WaitIsBounded` | src/checkqueue.h:39-42 | a run inside Wait is no longer than the work at its start plus twice the number of entries and spurious wake-ups |
| `CheckProtocol.WaitCanReturn` | src/checkqueue.h:39-42 | from every reachable state inside Wait a run of productive steps leads to its return |
| `CheckProtocol.BatchSize` | src/checkqueue.h:107-114 | every batch taken by a step is the fair share: one check, or as many as keep within the batch size and the queue divided by the threads, and not one fewer |
| `Arith256.BaseUint.AddAssign` | src/arith_uint256.h:120-128 | sum modulo 2^256 |
| `Arith256.BaseUint.SubAssign` | src/arith_uint256.h:130-133 | difference modulo 2^256 |
| `Arith256.BaseUint.Negate` | src/arith_uint256.h:69-77 | additive inverse modulo 2^256 |
| `Arith256.BaseUint.Increment` | src/arith_uint256.h:153-159 | successor modulo 2^256 |
| `Arith256.BaseUint.Decrement` | src/arith_uint256.h:168-174 | predecessor modulo 2^256 |
| `Arith256.BaseUint.CompareTo` | src/arith_uint256.cpp:103-112 | the sign of the comparison of the two numbers |
| `Arith256.BaseUint.MulAssign32` | src/arith_uint256.cpp:52-61 | product with a 32-bit factor modulo 2^256 |
| `Arith256.BaseUint.MulAssign` | src/arith_uint256.cpp:63-76 | product modulo 2^256; zero when the operand is the object itself |
| `Arith256.BaseUint.MulRow` | src/arith_uint256.cpp:68-73 | one row of the product is exact, and its 64-bit accumulator never overflows |
| `Arith256.BaseUint.ShiftLeft` | src/arith_uint256.cpp:20-34 | multiplication by a power of two modulo 2^256, for every shift |
| `Arith256.BaseUint.ShiftRight` | src/arith_uint256.cpp:36-50 | floor division by a power of two, for every shift |
| `Arith256.BaseUint.Bits` | src/arith_uint256.cpp:158-170 | the position of the highest bit set |
| `Arith256.BaseUint.DivStep` | src/arith_uint256.cpp:91-98 | one round keeps dividend = quotient * divisor + rest, halves the bound on the rest and sets a quotient bit that was clear |
| `Arith256.BaseUint.DivAssign` | src/arith_uint256.cpp:78-101 | exact quotient and remainder for every non-zero divisor, failure exactly for zero |
| `Arith256.BaseUint.GetLow64` | src/arith_uint256.h:256-259 | the number modulo 2^64 |
| `Arith256.BaseUint.SetCompact` | src/arith_uint256.cpp:190-205 | loads the target modulo 2^256; overflow is flagged exactly when mantissa * 256^(size-3) has more than 256 bits |
| `Arith256.BaseUint.GetCompact` | src/arith_uint256.cpp:207-227 | the encoding of the number, plus the sign bit exactly for a negative with non-zero mantissa; both assertions hold |
| `LimbSteps.Alignment` | src/arith_uint256.cpp:83-90 | the initial shift aligns the divisor without exceeding 256 bits, and one more doubling exceeds the dividend |
| `LimbSteps.MulFits` | src/arith_uint256.cpp:70-70 | carry + limb + product of two limbs is below 2^64 |
| `Compact.EncodeGreatest` | src/arith_uint256.cpp:207-227 | the encoding stands for the greatest representable value not above the number, among all compact values |
| `Compact.EncodeFits` | src/arith_uint256.cpp:207-227 | decoding an encoding never overflows and never exceeds the number |
| `Compact.EncodeMonotone` | src/arith_uint256.cpp:207-227 | encoding is monotone |
| `Compact.EncodeIdempotent` | src/arith_uint256.cpp:207-227 | encoding the decoded value again changes nothing |
| `Compact.DecodeEncode` | src/arith_uint256.cpp:190-227 | every decodable value is a fixed point of encode then decode |
| `Compact.EncodeParts` | src/arith_uint256.cpp:216-226 | mantissa and size can be read back, the sign bit is clear and the mantissa is normalised |
| `Compact.OverflowExact` | src/arith_uint256.cpp:202-203 | the three-way overflow test is exact |
| `Compact.EncodeTargetIff` | src/arith_uint256.cpp:190-227 | reading a code and writing it again gives the code back exactly when it is normalised: sign clear, no leading zero byte, none but zero for nothing |
| `Compact.TargetIsDocumented` | src/arith_uint256.h:284-292 | a code made of exponent, sign and mantissa stands for mantissa * 256^(exponent-3), rounded down below exponent three |
| `Compact.DocumentedExamples` | src/arith_uint256.h:294-297 | the two examples of the documentation |
| `Radix.MulAdd` | src/base58.cpp:46-54 | the in-place digit loop computes number * factor + digit, the carry being what does not fit |
| `Base58Bounds.EncodeFits` | src/base58.cpp:89-101 | 256^n <= 58^(n*138/100+1) for every n: the encode buffer always suffices |
| `Base58Bounds.DecodeFits` | src/base58.cpp:34-54 | 58^n <= 256^(n*733/1000+1) for every n: the decode buffer always suffices |
| `Base58.NoCarry` | src/base58.cpp:54-54 | a buffer that large never carries out |
| `Base58.PushBytes` | src/base58.cpp:90-103 | the main loop of encoding holds the number of the bytes read, and its assertion on the carry never fails |
| `Base58.PushChars` | src/base58.cpp:37-56 | the main loop of decoding holds the number of the digits read, stops at white space or a foreign character, and its assertion never fails |
| `Base58.EncodeBase58` | src/base58.cpp:81-118 | the buffer algorithm produces exactly the specified text |
| `Base58.DecodeBase58` | src/base58.cpp:21-79 | the buffer algorithm succeeds exactly where the specification does, with the same bytes |
| `Base58.ConvertBack` | src/base58.cpp:21-118 | changing the base and back is the identity, leading zero digits included |
| `Base58.AlphabetIs` | src/base58.cpp:18-19 | the alphabet has all letters and digits but zero, capital o, capital i and small l |
| `Base58.EncodeIs` | src/base58.cpp:81-118 | a text has one leading 1 for every leading zero byte, then the number of the bytes in base 58 without a leading zero digit |
| `Base58.DecodeEncode` | src/base58.cpp:21-118 | every byte string survives encoding and decoding |
| `Base58.DecodeIffEncoded` | src/base58.cpp:21-118 | a text decodes to v exactly when, without surrounding white space, it is the encoding of v |
| `Base58.DecodesIff` | src/base58.cpp:21-79 | exactly the texts of alphabet characters between white space decode |
| `Base58.EncodeInjective` | src/base58.cpp:81-118 | different byte strings have different texts |
| `Base58.DecodeCheckIffEncoded` | src/base58.cpp:128-155 | the checksummed decoder accepts exactly the encodings of data followed by the first four bytes of its hash, for every hash function |
| `Base58.DecodeCheckEncodeCheck` | src/base58.cpp:128-155 | every byte string survives the checksummed round trip |
| `Base58.DecodeString` | src/base58.cpp:124-126 | the string overload decodes the text up to the first NUL |
| `Base58.StringDecodesIff` | src/base58.cpp:124-126 | it yields v exactly when that text, without surrounding white space, is the encoding of v |
| `Base58.StringIsEncodingIff` | src/base58.cpp:124-126 | of an accepted string the whole is an encoding exactly when it has no NUL; leaving out the first NUL, exactly when only white space or nothing stands behind it |
| `Base58.NulHidesText` | src/base58.cpp:124-126 | a string that decodes although other text stands behind its NUL |
| `DataStream.CDataStream.Write` | src/serialize.h:1043-1049 | bytes are appended behind the unread ones |
| `DataStream.CDataStream.Read` | src/serialize.h:1003-1024 | a read takes the front of the unread bytes, or throws and leaves them all |
| `DataStream.CDataStream.Rewind` | src/serialize.h:967-974 | succeeds exactly within the kept part of the buffer, and then restores the last bytes read |
| `DataStream.CDataStream.Compact` | src/serialize.h:961-965 | forgets the read part; the unread bytes stay |
| `DataStream.ReadThenRewind` | src/serialize.h:967-1024 | stepping back over a read restores the stream exactly unless the read took the last byte |
| `VarInt.ValueEncode` | src/serialize.h:270-334 | reading what was written gives the number back, and the code is terminated |
| `VarInt.EncodeValue` | src/serialize.h:270-334 | every terminated byte string is the code of exactly the number it reads as |
| `VarInt.ValueIsDocumented` | src/serialize.h:270-277 | the reader's accumulation equals the documented weighted sum |
| `VarInt.LengthIff` | src/serialize.h:292-303 | codes of at most k bytes are exactly those of the first 128 + ... + 128^k numbers |
| `VarInt.ScratchSuffices` | src/serialize.h:307-307 | a number of w bits needs at most (w+6)/7 bytes |
| `VarInt.TerminatorEncode` | src/serialize.h:270-284 | codes can be told apart in a stream |
| `VarInt.FrontEncode` | src/serialize.h:305-334 | a number of w bits written in front of anything is read back at that width |
| `VarInt.NegativeIsLost` | src/serialize.h:305-334 | a negative number gets one byte and is read back as the number of its low seven bits |
| `VarInt.ReencodeIff` | src/serialize.h:321-334 | at a fixed width, rewriting the number read reproduces the bytes exactly when they stand for a number of that width |
| `VarInt.TwoCodesForZero` | src/serialize.h:278-284 | two different codes that one byte reads as zero, against "every integer has exactly one encoding" |
| `VarInt.GetSize` | src/serialize.h:292-303 | the size computed is the length of the code |
| `VarInt.Fill` | src/serialize.h:307-316 | the scratch buffer holds the code backwards and is never overrun |
| `VarInt.Write` | src/serialize.h:305-319 | exactly the code is appended to the stream, for signed and unsigned values |
| `VarInt.Read` | src/serialize.h:321-334 | the first code of the stream is consumed and its number, modulo 2^w, returned; a stream without terminator throws |
| `CompactSize.ReadIffWritten` | src/serialize.h:198-267 | a size is read exactly when the stream starts with its one canonical encoding and it is within the limit |
| `CompactSize.ReadBack` | src/serialize.h:210-267 | a written size reads back, except beyond the limit |
| `CompactSize.FormatIs` | src/serialize.h:192-197 | one byte below 253; else 253, 254 or 255 and the number in two, four or eight bytes, lowest first |
| `CompactSize.LimitIs` | src/serialize.h:262-265 | reading a written size back is refused exactly above 32 MiB |
| `BufferedFile.CBufferedFile.constructor` | src/serialize.h:1251-1255 | an empty ring at position zero, without limit |
| `BufferedFile.CBufferedFile.Fill` | src/serialize.h:1229-1247 | a fill moves the source position on, the ring still holding its last bytes, or fails at the end or on a broken device |
| `BufferedFile.CBufferedFile.Deliver` | src/serialize.h:1233-1245 | after fread the ring holds the last bytes of the source, across the wrap |
| `BufferedFile.CBufferedFile.FillGreatest` | src/serialize.h:1229-1247 | a fill takes the most bytes that stay within the ring, the rewind reserve, the file and what the device delivers |
| `BufferedFile.NearestInWindow` | src/serialize.h:1295-1306 | where SetPos lands, for every position: nearest in the window while the 64-bit sum does not wrap, and one of two fixed places otherwise |
| `BufferedFile.CBufferedFile.Read` | src/serialize.h:1267-1287 | every byte copied is the file's byte at the logical position; with a working device the read completes exactly when limit, buffer and file allow it |
| `BufferedFile.CBufferedFile.SetPos` | src/serialize.h:1295-1306 | goes to the position of the window nearest to the one asked for, and is true exactly when that one is reached; the object stays usable exactly when the 64-bit sum does not wrap out |
| `BufferedFile.CBufferedFile.SetLimit` | src/serialize.h:1323-1328 | a limit behind the read position is refused |
| `BufferedFile.CBufferedFile.FindByte` | src/serialize.h:1338-1346 | stops at the first match; with a working device it finds the byte exactly when the file still has one |
| `BufferedFile.LandsInWindow` | src/serialize.h:1295-1306 | SetPos lands between the source position less the rewind size and the source position, except exactly in the wrap-out case |
| `BufferedFile.ReachedIff` | src/serialize.h:1295-1306 | a position below the source position is reached exactly when at most the rewind size behind the source position |
| `BufferedFile.RewindRefused` | src/serialize.h:1205-1306 | a reader with a 10-byte buffer and 4 bytes to rewind, in which stepping back over the one byte read moves forward |
| `BufferedFile.WrappedOut` | src/serialize.h:1205-1306 | a reader two bytes into its file, four to rewind, that a position near 2^64 puts outside its window and out of a consistent state |
| `BufferedFile.ReadAndReturn` | src/serialize.h:1205-1306 | going back to where a read began works exactly while the source is at most the rewind size ahead of it |
| `Merkle.BranchChecks` | src/core.cpp:53-84 | the branch of every index checks to the root, odd levels included, for every hash |
| `Merkle.CheckProvesLeaf` | src/core.cpp:69-84 | a branch of the tree's depth that checks proves the leaf at that index, or exhibits a concrete hash collision on its path |
| `Merkle.InnerNodeChecks` | src/core.cpp:69-84 | the length matters: an inner node checks with a branch one shorter |
| `Merkle.SameLeavesSameRoot` | src/core.cpp:33-51 | lists whose leaves agree after duplication have the same root |
| `Merkle.SameRootSameLeaves` | src/core.cpp:33-51 | lists of the same depth with the same root agree after duplication, or the trees exhibit a collision |
| `Merkle.LiftRoot` | src/core.cpp:33-51 | every inner level has the root of the whole |
| `Merkle.SameRootIff` | src/core.cpp:33-51 | lists of any lengths share a root exactly when the level of the deeper one at the depth of the other has the same leaves after duplication; or the trees exhibit a collision |
| `Merkle.InnerLevelSameRoot` | src/core.cpp:33-51 | a list and the level above it share their root |
| `Merkle.SameRootSameList` | src/core.cpp:33-51 | lists of the same length with the same root are equal, or the trees exhibit a collision |
| `Merkle.DuplicateLast` | src/core.cpp:38-48 | repeating the last element of an odd list of three or more leaves the root unchanged |
| `Merkle.RootOfHalves` | src/core.cpp:38-48 | the root of a list of 2^(d+1) elements is the hash of the root of its first half followed by the root of its second |
| `Merkle.Block.BuildMerkleTree` | src/core.cpp:33-51 | the flat array is the concatenation of all levels and the result its root |
| `Merkle.Block.GetMerkleBranch` | src/core.cpp:53-67 | the branch read off the flat array is the sibling on every level |
| `Merkle.Block.CheckMerkleBranch` | src/core.cpp:69-84 | the loop folds the branch as specified for every index, and -1 gives the null hash |
| `LockedPages.TouchesIff` | src/allocators.h:49-51 | the pages from that of the first byte to that of the last are exactly those holding a byte of the range |
| `LockedPages.CountRemove` | src/allocators.h:65-87 | ranges may be released in any order |
| `LockedPages.LockedPageManager.LockRange` | src/allocators.h:43-63 | afterwards every page's count is the number of live ranges touching it, and exactly the counted pages are locked |
| `LockedPages.LockedPageManager.UnlockRange` | src/allocators.h:65-88 | the same after releasing any live range; the assertion that its pages are counted never fails |
| `LockedPages.LockedPageManager.GetLockedPageCount` | src/allocators.h:91-95 | the number of locked pages |
| `LockedPages.LockedPageManager.LockedIff` | src/allocators.h:43-88 | a page is locked exactly while a live range touches it |
| `LockedPages.LockedPageManager.DestructorIff` | src/allocators.h:39-41 | the destructor's assertion holds exactly when every non-empty range was released |
| `LockOrder.ScanFacts` | src/sync.cpp:84-101 | one scan records pairs that were asked for, all of them unless it reports, and reports exactly on meeting a reversed pair |
| `LockOrder.RecordedPairs` | src/sync.cpp:75-113 | while nothing was reported, the recorded pairs are exactly those asked for and none is recorded both ways |
| `LockOrder.ReportedIffInversion` | src/sync.cpp:75-113 | a run reports exactly when some two locks were asked for in both orders |
| `LockOrder.StackWasAsked` | src/sync.cpp:75-113 | every first blocking acquisition on a stack was recorded as asked for after each lock below it |
| `LockOrder.DeadlockReported` | src/sync.cpp:75-113 | two threads that each hold what the other waits for have been reported |
| `LockOrder.ThreeCycleUnreported` | src/sync.cpp:84-101 | three threads waiting in a circle go unreported |
| `LockOrder.RelockSilent` | src/sync.cpp:84-101 | taking again the lock at the bottom of the stack records and reports nothing |
| `LockOrder.LockOrders.EnterCritical` | src/sync.cpp:75-119 | the loop leaves the recorded orders and the report of the pure scan |
| `LockOrder.LockOrders.LeaveCritical` | src/sync.cpp:105-125 | the top of the thread's stack goes, nothing else changes |
| `LockOrder.LockOrders.AssertLockHeld` | src/sync.cpp:135-143 | passes exactly when the thread's stack has the lock |
| `MachineInt.AbsExact` | src/SafeInt3.hpp:1025-1043 | the magnitude of every negative number, the least one included |
| `MachineInt.SafeCastExact` | src/SafeInt3.hpp:1183-1432 | a checked conversion succeeds exactly when the value fits, between all standard integer types |
| `MachineInt.FitsByWidth` | src/SafeInt3.hpp:1183-1432 | a value fits an unsigned type of w bits from 0 to 2^w - 1, and a signed one from -2^(w-1) to 2^(w-1) - 1 |
| `MachineInt.CastCongruent` | src/SafeInt3.hpp:1025-1043 | an unchecked conversion changes a number by a multiple of the range of the type only |
| `SafeAddition.SafeAddExact` | src/SafeInt3.hpp:3588-4220 | addition stores the sum exactly when it fits the left type, for all pairs of 8 to 64-bit types |
| `SafeSubtraction.SafeSubtractExact` | src/SafeInt3.hpp:4250-5299 | subtraction stores the difference exactly when it fits the left type, for all pairs of types |
| `SafeMultiplication.MulUint64Exact` | src/SafeInt3.hpp:1977-2039 | the 64-bit product from 32-bit halves, or a failure exactly when it needs more bits |
| `SafeMultiplication.MulUint64UintExact` | src/SafeInt3.hpp:2102-2144 | the same with a 32-bit right factor |
| `SafeMultiplication.MulUintUint64Exact` | src/SafeInt3.hpp:2349-2371 | a 32-bit product with a 64-bit right factor |
| `SafeMultiplication.MulIntUint64Exact` | src/SafeInt3.hpp:2249-2300 | a signed 32-bit product with an unsigned 64-bit factor |
| `SafeMultiplication.SignedExact` | src/SafeInt3.hpp:2408-2460 | from magnitudes to the signed product, the least number included |
| `SafeMultiplication.SafeMultiplyExact` | src/SafeInt3.hpp:1783-3228 | multiplication stores the product exactly when it fits the left type, for all pairs of types |
| `SafeParse.AccumulateExact` | src/SafeInt3.hpp:6405-6413 | one digit is taken exactly when the number read so far fits |
| `SafeParse.DecimalWeights` | src/SafeInt3.hpp:6401-6413 | a digit weighs ten to the number of digits behind it |
| `SafeParse.PrefixIs` | src/SafeInt3.hpp:6388-6404 | a minus negates the digits that follow, a plus does not, and what follows the digits is ignored |
| `SafeParse.Parse` | src/SafeInt3.hpp:6380-6417 | a text gives the number it starts with, or overflows exactly when that does not fit or the text is empty |
| `LimitedMap.Limited.Add` | src/limitedmap.h:42-52 | map and reverse index stay mirrored and the index stable; a full map loses the front of the index, an older entry of least value; the limit bounds the size exactly while the size is below it |
| `LimitedMap.GrowPastLimit` | src/limitedmap.h:42-95 | a map of limit two that holds three entries |
| `LimitedMap.InsertBehindEquals` | src/limitedmap.h:49-49 | a pair goes into the reverse index behind exactly those of no greater value, so that of equal values the oldest is evicted first |
| `LimitedMap.Limited.Erase` | src/limitedmap.h:53-66 | the entry is always found in the reverse index, so the last line is never reached; all others keep their order |
| `LimitedMap.Limited.Update` | src/limitedmap.h:67-83 | the value changes in both indexes, the pair moving behind its new equals; the last lines are never reached |
| `LimitedMap.Limited.SetMaxSize` | src/limitedmap.h:87-95 | exactly the surplus entries at the front of the reverse index, those of least value, go |
| `Random.Uniform` | src/random.cpp:93-105 | every result comes from the same number of accepted raw draws |
| `Random.MostAreAccepted` | src/random.cpp:97-99 | the rejected draws are fewer than the range and at most half of all |
| `Random.GetRand` | src/random.cpp:93-105 | the residue of the first accepted raw draw, zero for an empty range |
| `Hex.PrintNumber` | src/uint256.cpp:20-28 | the printed text has two hex digits a byte and denotes the number |
| `Hex.ParsePrint` | src/uint256.cpp:20-57 | parsing a printed blob gives it back |
| `Hex.PrefixedText` | src/uint256.cpp:35-45 | white space, 0x or 0X, digits and anything else are read as the digits |
| `Hex.PlainText` | src/uint256.cpp:35-45 | the same without a prefix |
| `Hex.PrintParse` | src/uint256.cpp:20-57 | printing a parsed text denotes its number modulo the width |
| `Hex.GetHex` | src/uint256.cpp:20-28 | the loop prints the blob most significant byte first |
| `Hex.SetHex` | src/uint256.cpp:30-57 | the pointer loops leave the low bytes of the number the text starts with, after white space and an optional prefix |

## Left out

- `Select_` and `GetChance` of the address manager: floating point and a search that ends only with probability one.
- Overflow of the address manager's id counter and attempt counts beyond 31 bits, and of a page's lock count.
- `MakeTried` raises the tried flag as its last act; the model raises it when the entry leaves the new table, and no step in between reads it.
- AddrManager.AddrMan.ReadIn: does not model files of more than 256 buckets or with negative indices, because the original then writes outside its tables. The model's file holds lists, whose lengths are the counts.
- Service bits of an address are a set of bits, so "add services" is a union.
- AddrManager.AddrMan.GetAddr: does not model the last-try time that a copied address carries in memory, because it is never sent.
- Locking, logging and the version byte of the address file.
- AddrCheck.Check: does not model that a failed look-up of an address inserts it with id zero, because the verdict is the same with and without it.
- `Check_` is compiled only under a macro and uses older field names; it is modelled on the fields of today.
- The check queue's shutdown flag, which nothing ever sets; its unsigned outstanding count beyond 2^32; the asserts of `CCheckQueueControl`, which name members that do not exist.
- Fairness: `WaitIsBounded` counts steps, it does not say that a scheduler takes them.
- `getdouble`, bitwise operators and the 64-bit overloads of the 256-bit integer.
- Base58 data types and addresses built on the codec; what is left in the output vector after a failed decode.
- `CBufferedFile::Seek`, `CAutoFile`, stream types and versions, and the iterator-based insert and erase of the data stream. Files are below 2^63 bytes.
- DataStream.CDataStream.Read: does not model a read at which the 32-bit position wraps, because no message comes near that size; nor a stream whose exception mask was cleared, because no caller clears it.
- BufferedFile.CBufferedFile.constructor: does not model a rewind size that reaches the buffer size, because the original then can neither fill its buffer nor end a search.
- Merkle.Block.GetMerkleBranch: does not model negative indices, because the original then reads before its array.
- LockedPages.LockedPageManager.LockRange: does not model a range that reaches the last page of the address space, because the original's page loop then does not end.
- LockedPages.LockedPageManager.UnlockRange: does not model such a range either, for the same reason.
- Which page a byte lies in is computed by division; for a power of two, which the original insists on, that is its bit mask.
- The text of deadlock reports and the source locations they print; a stack entry keeps only whether it may block.
- SafeInt: division, modulus, shifts, comparisons, floating point and the reversed subtraction; overflow of the promoted 16-bit product is taken to wrap, as every supported compiler does. On failure some helpers leave a partial result behind, which the model does not show.
- LimitedMap.Limited.Add: does not model the first insertion under a limit of one, because the original then erases from an empty index.
- Alerts, whose operations are plain filters over a map; the memory pool, the miner, scripts, keys, the database, networking, RPC and the VM.
