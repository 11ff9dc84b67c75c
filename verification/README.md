# Buckets: a verified model of its core

Buckets is an erasure-coded object store written in C.  This project models the parts of it whose
correctness is not visible from one function, and proves what they promise for every input, every
run or every interleaving.

| area | modules |
|---|---|
| Reed-Solomon coding | `FieldAlgebra`, `GaloisField`, `ByteField`, `Erasure`, `ErasureCoder` |
| cluster topology, its quorum storage and its manager | `ClusterTopology`, `Quorum`, `TopologyManager` |
| consistent hashing, placement, migration scan | `HashRing`, `NodeRing`, `JumpHash`, `TopologyRing`, `Placement`, `Scanner` |
| migration throttle and worker pool | `Throttle`, `WorkerPool` |
| streaming hashes | `Blake2b`, `Blake2bCompression`, `Blake2bStream`, `Blake2bWords`, `BlockStream`, `SipHash`, `XxHash` |
| disk numbering, connection pool, endpoints | `DiskNumbering`, `ConnPool`, `Endpoint` |
| helpers | `Arithmetic`, `Bytes`, `Sequences`, `Sorting`, `Text`, `Wrappers` |

Objects the C code updates in place are classes whose methods are proved equal to functions on
values; the theorems are about those functions.  Threads are interleavings of critical sections.
Hash functions, the mixing functions of SipHash and xxHash, clock readings, disk failures and the state
of sockets are parameters, so every theorem holds for all of them.

## What the proofs found

Where a promise does not hold of the code as it is, the model keeps the code and the project proves
exactly when it holds.

- A lost parity chunk is rebuilt from memory beyond the k by k inverse (`src/erasure/erasure.c:375`).
  The data is unaffected, but the chunk put back is right, whatever that memory holds, only for an
  object of zeros (`Erasure.RebuiltRegardlessOfMemory`).
- The read quorum N/2 and the write quorum N/2+1 intersect only for an even number of disks or a
  single one (`Quorum.SafeExactlyWhenIntersecting`).
- A save that reported failure can still be read back (`Quorum.FailedSaveCanBeRead`), exactly when it
  left its content on N/2 disks (`Quorum.SaveReadExactly`).
- On the disks a generation number does not identify a topology
  (`TopologyManager.EqualGenerationsOnDisk`).  It does in every run whose failed calls leave no file
  behind (`TopologyManager.RunIdentified`).  After a call that does leave one, some next call breaks it,
  except with a single disk or without a pool (`TopologyManager.CleanExactly`); a save to every disk
  repairs it (`TopologyManager.FullSaveRepairs`).
- A load can take a change back, and strand a ring built in between
  (`TopologyManager.LoadCanRetract`, `Placement.LoadStrandsRing`).  No load takes anything back exactly
  when every topology on N/2 disks extends the cached one (`TopologyManager.LoadExtendsExactly`), and a
  ring stays in range exactly when each of them has its sets (`Placement.RingSurvivesLoadsExactly`).
- Re-sorting a ring can move objects exactly when two nodes share a hash value, because the sort is
  not stable (`HashRing.StableExactlyWithoutCollisions`).
- The pool's wait can return while a worker holds a task it has popped and not yet counted
  (`WorkerPool.WaitReturns`, `WorkerPool.WaitCanReturnEarly`).
- The migration scanner ignores set states, so draining or removing a set yields no migration task
  (`Scanner.RetiringYieldsNoTasks`); its node ids decode only below 1000 sets
  (`Scanner.DecodeExactly`), and clash for larger pools (`Scanner.ClashExactly`).
- Removing nodes can leave ids beyond the array the replica walk marks visited nodes in; which
  sequences of additions and removals do not is `NodeRing.RunBoundedExactly`.
- A node name of 255 characters or more leaves no room for the number of a virtual node, so all of the
  node's virtual nodes fall on one point of the ring (`NodeRing.LongNamesCollide`).
- A node with more local disks than configured writes UUIDs of later nodes, exactly as
  `DiskNumbering.ClusterSharesExactly` says.
- The throttle's sleep can end too early, exactly when its division has a remainder
  (`Throttle.SleepSufficesExactly`, `Throttle.SleepCanFallShort`).
- The endpoint map is overrun exactly when the topology and the cluster both have more disks than it has
  slots (`DiskNumbering.MapFitsExactly`).
- A host in brackets is printed without them, so its endpoint does not parse back
  (`Endpoint.PrintParse`).
- A direct call of the state setter can revive a drained or removed set
  (`ClusterTopology.ReactivationPossible`); a change only grows the topology exactly when it does not
  (`ClusterTopology.ChangeExtends`), and the manager never makes that call.

## Model

| member | source | states |
|---|---|---|
| Erasure.DecodeRestoresData | src/erasure/erasure.c:122-265 | decoding what is left of an encoded object fails exactly when more than m chunks are gone or the survivors' matrix does not invert; otherwise the output is the data byte for byte, survivors are untouched and every lost data chunk is back in its slot, whatever else was lost |
| Erasure.SurvivesUpToParityLosses | src/erasure/erasure.c:188-265 | with a generator any k rows of which invert, every loss of up to m chunks is survived and no larger one |
| Erasure.RebuiltRegardlessOfMemory | src/erasure/erasure.c:358-420 | the chunk reconstruct writes is the lost one, whatever memory follows the k by k inverse, if and only if it is a data chunk or the object is all zeros: the row index runs past the inverse for parity chunks |
| Erasure.StrayMemoryMatters | src/erasure/erasure.c:373-395 | for every non-zero object and lost parity chunk there is a memory content that makes the rebuilt chunk wrong |
| Erasure.DataChunkRebuilt | src/erasure/erasure.c:286-420 | a rebuilt data chunk equals the chunk encode produced |
| Erasure.InverseUndoesLoss | src/erasure/erasure.c:317-395 | the inverse applied to the survivors' columns gives the data columns (exchange of the two sums) |
| Erasure.SurvivorColumns | src/erasure/erasure.c:286-323 | the first k survivors are their generator rows applied to the data |
| Erasure.EncodedIsRowProduct | src/erasure/erasure.c:145-179 | every chunk, copied data or computed parity, is its generator row applied to the data columns |
| Erasure.JoinUndoesSplit | src/erasure/erasure.c:145-175 | split, pad and reassemble are inverse for every size and k, the ragged last chunks included |
| Erasure.SplitExact | src/erasure/erasure.c:145-175 | byte b of chunk i is byte i times the share plus b of the data, and zero beyond the share or the data |
| Erasure.LostIndicesExact | src/erasure/erasure.c:197-207 | the error list names exactly the missing slots |
| Erasure.CalcChunkSize | src/erasure/erasure.c:429-441 | a multiple of 16, and the smallest that holds each chunk's share of the data |
| ErasureCoder.Context.Init | src/erasure/erasure.c:17-87 | accepts exactly 1 to 16 data and 1 to 16 parity chunks, 32 together, and keeps the parity rows of a systematic generator |
| ErasureCoder.Context.Encode | src/erasure/erasure.c:122-186 | fills the two buffer arrays with the encoded object, or refuses a short chunk size and touches nothing |
| ErasureCoder.Context.FillData | src/erasure/erasure.c:145-176 | the copying loop stores the split of the data |
| ErasureCoder.Context.Reassemble | src/erasure/erasure.c:248-260 | the copying loop reads the data back out of the chunks |
| ErasureCoder.Context.Reconstruct | src/erasure/erasure.c:267-427 | rebuilds in place, all recovered chunks computed before any slot is written; on an error no slot changes |
| ErasureCoder.Context.InvertSurvivors | src/erasure/erasure.c:286-340 | picks the first k survivors and inverts their rows |
| ErasureCoder.Context.Decode | src/erasure/erasure.c:188-265 | leaves slots and output as the decoding function says, and untouched on an error |
| ErasureCoder.RebuiltFromSurvivors | src/erasure/erasure.c:358-399 | reconstruction succeeds with the survivors' inverse and fills each slot with its row of it |
| FieldAlgebra.CombineThenApply | src/erasure/erasure.c:317-395 | (c M) v equals c (M v): the double-sum exchange behind reconstruction |
| FieldAlgebra.DotUnit | src/erasure/erasure.c:62-76 | an identity row selects its chunk |
| GaloisField.CarrierLaws | src/erasure/erasure.c:177-179 | shift-and-add products with a reduction rule form a ring with units |
| GaloisField.MulByX | src/erasure/erasure.c:177-179 | shifting one factor and reducing the bit that falls out shifts the product |
| GaloisField.MulCommutes | src/erasure/erasure.c:177-179 | the product commutes |
| GaloisField.ReductionSpelled | src/erasure/erasure.c:177-179 | the bits that replace x^8 spell 0x1d, so the polynomial is 0x11d |
| ByteField.BytesObeyLaws | src/erasure/erasure.c:177-179 | bytes with exclusive or and the product reduced by 0x11d are a commutative ring with units, which is every law the coder relies on |
| ByteField.ByteContract | src/erasure/erasure.c:314-340 | on bytes nothing is asked of the matrix primitives but a systematic generator and a sound inversion |
| ClusterTopology.ChangeExtends | src/cluster/topology.c:408-511 | an accepted change only grows the topology if and only if it does not set a retired set active; it keeps idx equal to position and raises the generation by one exactly if it altered something |
| ClusterTopology.ReactivationPossible | src/cluster/topology.c:479-511 | a direct request for the active state revives a drained or removed set |
| ClusterTopology.Topology.Apply | src/cluster/topology.c:408-523 | the in-place update equals the change on values, which the three lemmas below spell out, and a refused one changes nothing |
| ClusterTopology.AddSetExact | src/cluster/topology.c:436-477 | a set is accepted exactly for an existing pool and at least one disk; it then stands last in that pool, active, numbered by the old count, with all the given disks, and every other pool and set is unchanged |
| ClusterTopology.AddPoolExact | src/cluster/topology.c:408-434 | a pool is always accepted and stands last, empty, numbered by the old count, and every other is unchanged |
| ClusterTopology.SetStateExact | src/cluster/topology.c:479-511 | a state is accepted exactly for an existing set, and changes the state of that set and nothing else |
| ClusterTopology.Topology.Clone | src/cluster/topology_manager.c:176-216 | the deep copy has the contents of its source |
| Quorum.SaveQuorum | src/cluster/topology.c:535-575 | tries every disk, whatever failed before, and reports success exactly with N/2+1 writes |
| Quorum.LoadQuorum | src/cluster/topology.c:577-705 | the vote table yields the content that first reaches N/2 votes in disk order |
| Quorum.FindVote | src/cluster/topology.c:633-663 | finds the table entry of a hash or that there is none |
| Quorum.WinnerHasQuorum | src/cluster/topology.c:584-705 | what a load returns was read from some disk and has a quorum of votes |
| Quorum.QuorumHasWinner | src/cluster/topology.c:584-705 | a quorum of votes for anything makes the load return something |
| Quorum.CommittedIsRead | src/cluster/topology.c:535-705 | once a topology is on N/2+1 of an even number of disks or of one, no pattern of unreadable disks makes a load return another, and a load returns it as soon as N/2 of its holders are readable |
| Quorum.SavedIsRead | src/cluster/topology.c:535-705 | the same, from a save that reported success over any earlier contents and per-disk outcomes |
| Quorum.OddDisksReadStale | src/cluster/topology.c:535-705 | with any odd number of disks from three up, the minority a successful save missed is a read quorum and wins when met first |
| Quorum.ReadExactlyFromQuorum | src/cluster/topology.c:577-705 | some pattern of unreadable disks makes a load return a topology if and only if a read quorum of the disks holds it |
| Quorum.SaveReadExactly | src/cluster/topology.c:535-705 | whatever a save reported, it can be read back if and only if it left its content on a read quorum of the disks |
| Quorum.WinnerMeets | src/cluster/topology.c:535-705 | for an even number of disks or one, what holds of the contents of a write quorum holds of everything a load can return |
| Quorum.SafeExactlyWhenIntersecting | src/cluster/topology.c:535-705 | every load after a successful save, over any earlier contents, outcomes and unreadable disks without a hash collision, returns the saved topology or nothing if and only if the number of disks is even or one |
| Quorum.FailedSaveCanBeRead | src/cluster/topology.c:535-705 | with any number of disks, a save that reported failure can be what the next load returns |
| TopologyManager.CacheFollowsQuorum | src/cluster/topology_manager.c:218-250 | the cache changes only through a save that reached N/2+1 disks, which then hold the cached topology |
| TopologyManager.RunExtends | src/cluster/topology_manager.c:252-422 | in every run of the four changing calls with any save failures the cache only grows, stays numbered and its generation rises by the number of real changes |
| TopologyManager.RunExtendsBetween | src/cluster/topology_manager.c:252-422 | the same between any two moments of such a run |
| TopologyManager.GenerationIdentifies | src/cluster/topology_manager.c:252-422 | within such a run equal generations mean equal cached topologies |
| TopologyManager.AddedSetKeepsDisks | src/cluster/topology_manager.c:252-422 | in every run, at every moment after a persisted addition the set has exactly the disks that call gave it |
| TopologyManager.EverySetWasAdded | src/cluster/topology_manager.c:252-422 | in every run each set of the cache was there at the start or was added by a persisted call, at that call's next free place |
| TopologyManager.ReloadAgreesWithCache | src/cluster/topology_manager.c:129-174 | after a successful call a reload over any unreadable disks returns the cached topology or nothing, for an even number of disks or one |
| TopologyManager.EqualGenerationsOnDisk | src/cluster/topology_manager.c:218-292 | on the disks generations do not identify contents: on any two or more disks a failed save and another change leave two topologies of equal generation |
| TopologyManager.StepIdentified | src/cluster/topology_manager.c:218-250 | files not newer than the cache, and equal to it at equal generation, stay so if and only if the call leaves no uncommitted file behind |
| TopologyManager.RunIdentified | src/cluster/topology_manager.c:252-422 | in every run all of whose calls but the last leave no uncommitted file, readable files of equal generation are equal |
| TopologyManager.CleanExactly | src/cluster/topology_manager.c:218-422 | and that condition is exact: it holds through every next call if and only if the call was such, or there is one disk, or no pool |
| TopologyManager.FullSaveRepairs | src/cluster/topology_manager.c:218-250 | a successful save to every disk makes up for files left behind |
| TopologyManager.LoadAfterFailures | src/cluster/topology_manager.c:129-250 | after any number of failed calls a load returns nothing, the last persisted topology, or what one of those calls made of it, for an even number of disks or one |
| TopologyManager.TameRunExtends | src/cluster/topology_manager.c:129-422 | in every run of changing calls and loads that leaves no uncommitted file, the cache only grows, for an even number of disks or one |
| TopologyManager.LoadCanRetract | src/cluster/topology_manager.c:129-250 | otherwise a change left on half of any two or more disks is adopted by one load and dropped by the next |
| TopologyManager.LoadGivesExactly | src/cluster/topology_manager.c:129-174 | any property of the cache survives every load, whichever disks can be read, if and only if it holds of the cache and of every topology on a read quorum of the disks |
| TopologyManager.LoadExtendsExactly | src/cluster/topology_manager.c:129-174 | loads never take anything back if and only if every topology on a read quorum of the disks extends the cached one |
| TopologyManager.GrowingRunExtends | src/cluster/topology_manager.c:129-422 | in every run of changing calls, clean or not, and loads at which that condition holds, the cache only grows, on any number of disks |
| TopologyManager.LoadKeepsExactly | src/cluster/topology_manager.c:129-174 | a load over any unreadable disks leaves the cache alone if and only if no other topology is on a read quorum of the disks |
| TopologyManager.Manager.Perform | src/cluster/topology_manager.c:252-422 | the four manager calls follow the state machine and succeed exactly when the change is accepted and N/2+1 disks take it; changes are made to a clone, so the contents of the old cached object do not change |
| TopologyManager.Manager.PersistAndCache | src/cluster/topology_manager.c:218-250 | saves with quorum and only then caches a fresh clone |
| TopologyManager.Manager.Load | src/cluster/topology_manager.c:129-174 | replaces the cache by the winning content, or keeps it |
| Throttle.RateLimit | src/migration/throttle.c:91-166 | between any two points of any run, with any clock readings, at most burst plus the rate over the advance of the refill time is granted |
| Throttle.RunConserves | src/migration/throttle.c:91-166 | 0 <= tokens <= burst always, and granted bytes plus tokens left are covered by the start and by time |
| Throttle.NothingIsLost | src/migration/throttle.c:91-166 | the other half: in every run tokens at the start plus tokens earned equal bytes granted plus tokens left plus tokens spilled over the burst |
| Throttle.RestIsLeft | src/migration/throttle.c:134-146 | with tokens for both requests after a refill, two waits at the same reading are both granted at once and leave the difference |
| Throttle.RefillBounds | src/migration/throttle.c:91-112 | a refill never moves the refill time back and never credits more than was earned |
| Throttle.FailedAttempt | src/migration/throttle.c:91-166 | a failed attempt credited more than half of what its time earned and lost less than one token |
| Throttle.GrantedInTime | src/migration/throttle.c:117-166 | a request of at most one burst is granted by the first reading at which twice the missing tokens are earned, however the clock jumps before |
| Throttle.WaitTerminates | src/migration/throttle.c:117-166 | with a strictly advancing clock a lone waiter is served within a bounded number of retries |
| Throttle.SleepNearlySuffices | src/migration/throttle.c:148-163 | one microsecond more than the computed sleep is enough |
| Throttle.SleepSufficesExactly | src/migration/throttle.c:148-163 | an uncapped sleep taken exactly lets the waiter through if and only if its division had no remainder |
| Throttle.SleepCanFallShort | src/migration/throttle.c:148-163 | a waiter still short after its sleep |
| Throttle.SleepRightExactly | src/migration/throttle.c:148-155 | the computed sleep is right, whatever an overflow leaves, if and only if at most 9223372036854 tokens are missing |
| Throttle.StillFits | src/migration/throttle.c:91-112 | refilling early never makes a later refill overflow 64 bits |
| Throttle.TokenBucket.Init | src/migration/throttle.c:37-67 | starts full; refuses negative arguments |
| Throttle.TokenBucket.RefillTokens | src/migration/throttle.c:91-112 | the in-place refill is the refill function |
| Throttle.TokenBucket.TryTake | src/migration/throttle.c:134-155 | one pass of the waiting loop is the attempt that `NothingIsLost` and `RestIsLeft` speak of, the overflow of the sleep product included |
| Throttle.TokenBucket.Wait | src/migration/throttle.c:117-166 | the waiting loop is the waiting function over any clock readings, whatever overflowed sleeps come out as; disabled or empty requests pass at once |
| Throttle.TokenBucket.GetStats | src/migration/throttle.c:245-267 | reports after refilling |
| HashRing.FindVNode | src/placement/placement.c:135-161 | binary search finds the clockwise successor, wrapping past the end |
| HashRing.OwnerIsSuccessor | src/placement/placement.c:135-161 | the owner has the least hash at or after the position, or the least of all when there is none |
| HashRing.RemoveMovesOnlyItsOwn | src/hash/ring.c:141-161 | removing a node moves only what it owned, with no assumption on collisions |
| HashRing.AddMovesOnlyToNew | src/hash/ring.c:84-114 | adding a node moves objects only to it |
| HashRing.AddThenRemoveRestores | src/hash/ring.c:68-167 | adding and removing a node restores every owner |
| HashRing.ArrangementIrrelevant | src/hash/ring.c:18-26 | without collisions between nodes owners do not depend on how the sort arranged equal hashes |
| HashRing.StableExactlyWithoutCollisions | src/hash/ring.c:18-26 | re-sorting can never move an object if and only if no two nodes collide |
| NodeRing.ReplicasAreDistinct | src/hash/ring.c:199-253 | min(n, number of nodes) pairwise different nodes of the ring, the first being the owner |
| NodeRing.AppearancesAreDistinct | src/hash/ring.c:228-249 | first appearances repeat nothing and leave nothing out |
| NodeRing.VNodesExactly | src/hash/ring.c:95-106 | virtual node i sits at the hash of name, colon and i in decimal, cut to 255 characters |
| NodeRing.KeysDiffer | src/hash/ring.c:95-106 | keys that fit the buffer differ for different nodes or numbers |
| NodeRing.LongNamesCollide | src/hash/ring.c:95-106 | a name that fills the buffer gives all its virtual nodes one key |
| NodeRing.Ring.AddNode | src/hash/ring.c:68-120 | refuses a known id; otherwise the ring is sorted, gains exactly the node's virtual nodes, and the node count stays the number of distinct ids |
| NodeRing.Ring.RemoveNode | src/hash/ring.c:122-167 | refuses an unknown id; otherwise drops exactly its virtual nodes, keeping order and the node count |
| NodeRing.Ring.Lookup | src/hash/ring.c:169-197 | the owner of an object, -1 on an empty ring |
| NodeRing.Ring.LookupN | src/hash/ring.c:199-253 | the walk with the visited array returns the nodes in order of first clockwise appearance, required to index that array only within its node count + 1 entries |
| NodeRing.Ring.Walk | src/hash/ring.c:228-249 | the clockwise loop, ending after n nodes or one turn |
| NodeRing.WalksSafeExactly | src/hash/ring.c:228-249 | walks for every number of nodes stay within the visited array if and only if no id exceeds the node count |
| NodeRing.BoundKeptExactly | src/hash/ring.c:68-167 | the bound survives an addition if and only if the new id is at most the new count, and a removal if and only if the largest admissible id is unused or goes |
| NodeRing.RunBoundedExactly | src/hash/ring.c:68-167 | a sequence of additions and removals keeps the bound throughout if and only if each of them does |
| NodeRing.RemovalsBreakBound | src/hash/ring.c:122-167 | adding 0 to 3 and removing 0 and 1 breaks it |
| JumpHash.JumpsForward | src/hash/ring.c:338-354 | despite floating-point rounding each jump lands strictly past the current bucket and within 63 bits |
| JumpHash.LandingExact | src/hash/ring.c:338-354 | in exact arithmetic a jump from b lands at the whole part of (b + 1) 2^31 / (key / 2^33 + 1), stated by products of integers |
| JumpHash.BucketIsLastJump | src/hash/ring.c:338-354 | the bucket is the last of the jumps, under the successive keys of the generator, that stays below the count |
| JumpHash.GrowthFrom | src/hash/ring.c:338-354 | growing from m to n buckets keeps a key or sends it to a new bucket |
| JumpHash.OneMoreBucket | src/hash/ring.c:338-354 | the result is in range, and one more bucket moves keys only to that bucket |
| JumpHash.Jump | src/hash/ring.c:338-354 | the loop ends and computes the bucket; -1 for a non-positive count |
| TopologyRing.Member | src/placement/placement.c:85-110 | a virtual node is on the ring exactly when some set contributes it |
| TopologyRing.AddSetContents | src/placement/placement.c:85-110 | a new set adds exactly its virtual nodes |
| TopologyRing.StateChangeContents | src/placement/placement.c:85-110 | a state change swaps exactly one set's virtual nodes |
| TopologyRing.AddPoolContents | src/placement/placement.c:85-110 | a new pool adds no virtual node |
| Placement.RingShape | src/placement/placement.c:51-133 | the ring holds exactly 150 virtual nodes of every active set and none of any other |
| Placement.RingExactly | src/placement/placement.c:85-110 | a virtual node is on the ring if and only if its set exists and is active and it sits at the hash of "pool:set:v" for some v below 150 |
| Placement.KeysDiffer | src/placement/placement.c:98 | no two virtual nodes are hashed from the same key |
| Placement.StaleRingStaysInRange | src/placement/placement.c:276-299 | a ring built at any moment of a run of the four changing calls names only sets that exist at every later moment |
| Placement.StaleRingSurvivesLoads | src/placement/placement.c:276-299 | the same for runs with loads, when no failed call leaves a file behind on an even number of disks or one, or when every topology a load can return extends the cached one |
| Placement.LoadStrandsRing | src/placement/placement.c:276-299 | otherwise a ring built between two loads can name a set that is gone |
| Placement.RingSurvivesLoadsExactly | src/placement/placement.c:276-299 | a ring in range stays so through every load if and only if every topology on a read quorum of the disks has all the sets the ring names |
| Placement.AddSetMovement | src/placement/placement.c:51-161 | rebuilding after a set was added moves objects only to it |
| Placement.RetireMovement | src/placement/placement.c:51-161 | rebuilding after a set was drained or removed moves only its objects |
| Placement.RetireAgainMovesNothing | src/placement/placement.c:51-161 | retiring a set that is not active moves nothing |
| Placement.AddPoolMovesNothing | src/placement/placement.c:51-161 | rebuilding after a pool was added moves nothing |
| Placement.Placer.BuildHashRing | src/placement/placement.c:51-133 | replaces ring and generation by a sorted arrangement of the active sets' virtual nodes; keeps them if there is no topology or no active set |
| Placement.Placer.Init | src/placement/placement.c:166-204 | succeeds exactly with a topology, a parsable deployment id and an active set, keying the hash by the id |
| Placement.Placer.Rebuild | src/placement/placement.c:209-218 | refuses before initialization, otherwise rebuilds |
| Placement.Placer.Compute | src/placement/placement.c:238-299 | answers the owner by the ring as it stands, exactly when it is in range of the topology |
| Scanner.GrowthTasks | src/migration/scanner.c:66-137 | if the new topology is the old one plus a set and sets are numbered below 1000, every task goes to that set with correctly decoded indices |
| Scanner.RetiringYieldsNoTasks | src/migration/scanner.c:281-311 | the scanner's rings ignore set states, so draining or removing a set yields no task |
| Scanner.TasksExactly | src/migration/scanner.c:66-137 | a task is listed if and only if it was made for one of the objects walked |
| Scanner.TasksAreMoves | src/migration/scanner.c:66-137 | the tasks are, one to one and in order, those of the objects both of whose owners exist and differ; each carries the object's bucket, name, size and time and the pool and set of both owners |
| Scanner.MovingExactly | src/migration/scanner.c:66-94 | an object is among those if and only if it was walked and the two rings name different owners for "bucket/object" |
| Scanner.MovedObjectsHaveTasks | src/migration/scanner.c:66-137 | for the rings of any two topologies there are as many tasks as moving objects, and each moving object has its own |
| Scanner.DecodeExactly | src/migration/scanner.c:35-37 | the id encoding is undone if and only if the set number is below 1000 |
| Scanner.ClashExactly | src/migration/scanner.c:281-311 | two sets share an id if and only if some pool has more than 1000 sets for each pool number up to a later pool that is not empty |
| Scanner.TopologyToRing | src/migration/scanner.c:281-311 | builds the ring of all sets, and fails exactly when two sets share an id |
| Scanner.RingExactly | src/migration/scanner.c:281-311 | a virtual node is on a scanner ring if and only if some set, whatever its state, has number 1000 pool + set equal to its id and it sits at the hash of "pool<p>-set<s>:v" for some v below 150 |
| Scanner.DiskScan.NeedsMigration | src/migration/scanner.c:66-94 | answers the two owners exactly when both rings have one and they differ |
| Scanner.DiskScan.Scan | src/migration/scanner.c:142-207 | the per-disk list, its length and its bytes are those of the objects walked |
| Scanner.Merge | src/migration/scanner.c:439-486 | the queue is a size-sorted permutation of the per-disk lists and the counters are its totals |
| Sorting.SumPermuted | src/migration/scanner.c:439-486 | totals survive sorting |
| WorkerPool.EveryTaskAccountedFor | src/migration/worker.c:98-164 | in every interleaving tasks leave the queue in the order accepted, and accepted = queued + held + completed + failed, with the statistics to match |
| WorkerPool.StopDrains | src/migration/worker.c:626-647 | when all threads are joined the queue is empty and each accepted task was counted exactly once |
| WorkerPool.StopTerminates | src/migration/worker.c:455-481 | after shutdown every schedule of the workers is finite and a worker that has not exited can move |
| WorkerPool.WaitReturns | src/migration/worker.c:594-624 | when wait returns with no concurrent submit, the uncounted tasks are exactly those of workers between pop and the active count; it tells the truth if and only if there is none |
| WorkerPool.WaitCanReturnEarly | src/migration/worker.c:463-476 | and there can be one: wait may return with a task still to be done |
| WorkerPool.StepInv | src/migration/worker.c:387-446 | every critical section keeps order, account, statistics, late exits and bounded retries |
| WorkerPool.TaskQueue.Push | src/migration/worker.c:98-122 | appends at the tail of the circular buffer; full or shut down otherwise |
| WorkerPool.TaskQueue.Pop | src/migration/worker.c:128-152 | takes the oldest task, also after shutdown until the buffer is empty |
| WorkerPool.TaskQueue.Shutdown | src/migration/worker.c:157-164 | keeps the queued tasks |
| WorkerPool.UnrolledPush | src/migration/worker.c:112-115 | writing at the tail appends to the queue the buffer stands for, across the wrap |
| WorkerPool.UnrolledPop | src/migration/worker.c:142-145 | advancing the head removes its first entry |
| WorkerPool.ExecuteWithRetry | src/migration/worker.c:402-446 | succeeds with the first good attempt of three, sleeping 100 and then 200 milliseconds in between |
| WorkerPool.DelayDoubles | src/migration/worker.c:402-446 | the delay before attempt n + 1 is 100 ms doubled n times, or 5000 ms if that is less |
| WorkerPool.SubmitStep | src/migration/worker.c:98-122 | a push on the circular buffer waits exactly when the machine's submitter is blocked and otherwise takes its step |
| WorkerPool.FetchStep | src/migration/worker.c:128-152 | a pop waits exactly when the machine's worker is blocked and otherwise takes its step |
| WorkerPool.RetryIsRun | src/migration/worker.c:402-446 | the retry loop is a run of the machine that counts the task once, as completed or failed |
| WorkerPool.ExecuteSteps | src/migration/worker.c:402-446 | the loop itself takes such a run |
| Blake2b.StreamIsFold | src/crypto/blake2b.c:163-316 | for every key and every cutting of the message into updates the final chaining value is the block fold of section 3.3 of RFC 7693 over key block and message |
| Blake2b.UpdateAbsorbs | src/crypto/blake2b.c:233-275 | after any input all blocks but the last are compressed, a full last block is held back, and the two counter words hold the bytes compressed |
| Blake2b.CarryAdds | src/crypto/blake2b.c:233-275 | the two-word counter with carry counts modulo 2^128 |
| Blake2b.FinishFolds | src/crypto/blake2b.c:277-316 | padding and the final flag make the last step of the fold |
| Blake2bStream.Context.Update | src/crypto/blake2b.c:233-275 | the in-place update, with the chaining value compressed in place, is the update function |
| Blake2bStream.Context.Final | src/crypto/blake2b.c:277-316 | the last in-place compression, with the final flag, or a refusal of a short output buffer |
| Blake2bStream.Hash | src/crypto/blake2b.c:318-345 | the digest is the truncated fold of the standard's compression function from its start, for any word arithmetic; bad lengths are refused |
| Blake2bCompression.Compress | src/crypto/blake2b.c:102-143 | the in-place compression is the function F of section 3.2 of RFC 7693 |
| Blake2bCompression.Round | src/crypto/blake2b.c:76-99 | the mixing macro on its eight lanes is a round of the standard |
| Blake2bCompression.TableIsSigma | src/crypto/blake2b.c:26-39 | the code's twelve rows are the standard's ten taken in turn |
| Blake2bCompression.SequentialStart | src/crypto/blake2b.c:204-231 | the parameter block of a sequential hash changes only the first word |
| Blake2bWords.LengthsWord | src/crypto/blake2b.c:48-59 | that word is exclusive-ored with 0x0101kknn, section 3.3 of RFC 7693 |
| Blake2bWords.StandardStart | src/crypto/blake2b.c:163-231 | the start is the initialization vector with that first word |
| Blake2bWords.RootsOfPrimes | src/crypto/blake2b.c:17-23 | each word of the initialization vector is the 64-bit fraction of the square root of its prime, by a pair of square inequalities |
| Blake2bWords.RotationsRotate | src/crypto/blake2b.c:41-45 | each rotation by c is w / 2^c + (w mod 2^c) 2^(64 - c), for c = 32, 24, 16 and 63 |
| Blake2bWords.XorIsBitwise | src/crypto/blake2b.c:76-99 | exclusive or differs from its arguments bit by bit |
| Blake2bWords.XorIsUnique | src/crypto/blake2b.c:76-99 | and is the only word that does |
| Blake2bWords.AddWraps | src/crypto/blake2b.c:76-86 | addition wraps by at most one multiple of 2^64 |
| Blake2bWords.LoadIsLittleEndian | src/crypto/blake2b.c:47-59 | any eight bytes are loaded as their little-endian value |
| Blake2bWords.OutputLoads | src/crypto/blake2b.c:61-73 | the output bytes load back to the eight words of the chaining value |
| Blake2bWords.FlagWords | src/crypto/blake2b.c:102-143 | the final flag is the word of ones |
| Blake2bWords.Digest | src/crypto/blake2b.c:318-345 | on 64-bit words, whose operations the lemmas above fix by arithmetic, and on the code's own context: the hash of a message fed in any pieces is the truncated little-endian output of the standard's fold |
| BlockStream.FoldContinues | src/hash/xxhash.c:77-127 | input can be folded in two goes, carrying the leftover |
| BlockStream.CuttingIrrelevant | src/hash/siphash.c:71-131 | every cutting into updates leaves the state of one update with everything |
| BlockStream.LeftoverLength | src/hash/xxhash.c:111-126 | the buffered length is the input length modulo the block size |
| BlockStream.CountsBlocks | src/hash/xxhash.c:111-120 | the update loop absorbs exactly the full blocks of the input, and counting them changes nothing else |
| BlockStream.Stream.Update | src/hash/xxhash.c:77-127 | the buffer code of the two update routines absorbs exactly the full blocks |
| SipHash.StreamIsReference | src/hash/siphash.c:71-169 | for every cutting the digest is the padded word fold of SipHash, and the buffer holds the length modulo 8 |
| SipHash.LastWordIsBlock | src/hash/siphash.c:144-157 | the shifted-in bytes and length byte are the little-endian padded last block |
| SipHash.PaddedExact | src/hash/siphash.c:144-157 | the padded message is the message, zeros, and the length modulo 256 as the last byte of a whole word |
| SipHash.Final | src/hash/siphash.c:133-169 | the falling-through tail switch computes that word |
| SipHash.Hash | src/hash/siphash.c:171-177 | the hash on the mutable state is the reference |
| XxHash.StreamIsOneShot | src/hash/xxhash.c:77-195 | for every cutting the digest is the one-shot digest, and the buffer holds the length modulo 32 |
| XxHash.OneShotIsReference | src/hash/xxhash.c:77-195 | that digest is the one by positions of the input: lane k takes bytes 8k to 8k + 7 of each stripe, then the length, the remaining words, the half word and the bytes; except when the 64-bit length has wrapped to less than a stripe |
| XxHash.TailIsUsedOnce | src/hash/xxhash.c:153-177 | the three tail loops use every leftover byte once and in order |
| XxHash.TailStepCounts | src/hash/xxhash.c:153-177 | as many word steps as fit, at most one half-word step, at most three byte steps |
| XxHash.LongBranchExactly | src/hash/xxhash.c:129-149 | for every cutting, counting the stripes as they are absorbed: the long branch is taken if and only if there was one, except when the 64-bit length has wrapped to less than a stripe |
| XxHash.Final | src/hash/xxhash.c:129-187 | the final routine on the mutable state |
| XxHash.Hash | src/hash/xxhash.c:189-195 | the hash on the mutable state is the one-shot digest |
| ConnPool.PoolIsSafe | src/net/conn_pool.c:213-399 | in every interleaving of get, release and close by holders: total is the list length, active the number in use, a positive limit is never exceeded and no connection has two holders, although get drops the lock to connect |
| ConnPool.HeldGoesWhereAsked | src/net/conn_pool.c:213-399 | in every such interleaving each connection a caller holds goes to the host, as cut to its buffer, and port that caller asked for |
| ConnPool.StepInv | src/net/conn_pool.c:213-399 | every critical section keeps that |
| ConnPool.TakenWasIdle | src/net/conn_pool.c:222-265 | the connection a get reuses was held by nobody |
| ConnPool.ScanKeepsUsed | src/net/conn_pool.c:222-265 | weeding out dead connections drops none in use |
| ConnPool.ScanCounts | src/net/conn_pool.c:222-265 | the scan adds exactly the connection it takes to those in use |
| ConnPool.ScanExact | src/net/conn_pool.c:222-265 | the scan takes a connection if and only if an idle live one to the host and port is listed, takes such a one, and drops only idle dead ones to that host and port |
| ConnPool.BeginExact | src/net/conn_pool.c:222-279 | a get reuses a connection exactly when a live idle one to its target is listed; otherwise it gives up exactly when the list without the dead ones to the target is at a positive limit |
| ConnPool.ReleaseExact | src/net/conn_pool.c:326-350 | a release clears the flag of that connection, counts it once and touches no other |
| ConnPool.CloseExact | src/net/conn_pool.c:352-399 | a close removes exactly that connection and reports whether it was listed |
| ConnPool.Pool.Begin | src/net/conn_pool.c:222-279 | the first critical section of get on the list and its counters, answering as `BeginExact` says |
| ConnPool.Pool.Finish | src/net/conn_pool.c:301-324 | the second one: the limit is looked at again before linking |
| ConnPool.Pool.Release | src/net/conn_pool.c:326-350 | marks a connection idle, counting it once |
| ConnPool.Pool.Close | src/net/conn_pool.c:352-399 | unlinks a connection and corrects both counters |
| DiskNumbering.NumberingsAgree | src/cluster/topology.c:768-861 | for any node disk counts, the set position whose UUID is the one node n wrote to its disk d gets node n's endpoint followed by the path of disk d |
| DiskNumbering.OwnedExactly | src/cluster/topology.c:789-800 | the map gives a node exactly the disks of its configured count, whatever its local count |
| DiskNumbering.SharedExactly | src/main.c:192-218 | two nodes write a common UUID if and only if the later one has a local disk within the topology and the earlier one has more local disks than fit before it |
| DiskNumbering.ClusterSharesExactly | src/main.c:192-218 | some UUID of a cluster is written twice if and only if that holds for two of its nodes, a condition on the configuration and the local counts alone |
| DiskNumbering.SharedExactlyWhenMiscounted | src/main.c:192-218 | when every node has a local disk within the topology, that is: a node other than the last has more local disks than configured |
| DiskNumbering.FormatDisks | src/main.c:192-218 | node me writes to its local disks the UUIDs numbered from its offset on, and stops exactly at the end of the topology |
| DiskNumbering.VisitOrder | src/cluster/topology.c:75-128 | visiting a formatted topology set by set is the global div/mod numbering |
| DiskNumbering.FormattedDisks | src/cluster/topology.c:75-128 | the same for the topology built from the format |
| DiskNumbering.FromFormatExactly | src/cluster/topology.c:75-128 | the first topology has one pool of active sets in format order with the format's UUIDs and deployment id, version and generation 1, and no endpoints |
| DiskNumbering.OwnerFound | src/cluster/topology.c:768-800 | the cumulative search inverts the offsets |
| DiskNumbering.EntriesLookUp | src/cluster/topology.c:849-861 | with distinct UUIDs the map finds the entry made for a disk |
| DiskNumbering.BuildMap | src/cluster/topology.c:768-830 | the nested loops list one entry for every owned disk, in global order |
| DiskNumbering.MapFitsExactly | src/cluster/topology.c:753-807 | the entries fit the fixed number of slots if and only if the topology or the cluster has no more disks than slots |
| DiskNumbering.FormattedMapFits | src/cluster/topology.c:753-807 | a topology built from the format fits |
| DiskNumbering.Populate | src/cluster/topology.c:836-870 | every disk in the map gets its endpoint in place, the others keep theirs |
| DiskNumbering.PopulatedKeeps | src/cluster/topology.c:836-870 | resolution changes endpoints and nothing else |
| Endpoint.PrintParse | src/cluster/endpoint.c:51-200 | parsing the printed form of an accepted endpoint gives it back if and only if it is a path or its host has no ':' and no leading '[' |
| Endpoint.AcceptedExactly | src/cluster/endpoint.c:51-155 | the endpoints some text parses to are exactly those with a known scheme, a host without '/' that is plain or can stand in brackets, a port in range and an absolute path, or a path that is not a URL |
| Endpoint.UrlParses | src/cluster/endpoint.c:51-155 | scheme, host, port and path are read from "scheme://host:port/path", with no port 0 and with no path "/" |
| Endpoint.HostPortRoundTrip | src/cluster/endpoint.c:87-145 | host and port are read back exactly for such a host and no other |
| Endpoint.PortRoundTrip | src/cluster/endpoint.c:36-49 | a printed port is read back |
| Endpoint.NumericRoundTrip | src/cluster/endpoint.c:392-475 | "prefix{a...b}suffix" with numbers is read as those four parts, and refused exactly when a exceeds b |
| Endpoint.AlphaRoundTrip | src/cluster/endpoint.c:392-475 | the same with letters |
| Endpoint.NumericExpansion | src/cluster/endpoint.c:477-523 | expansion number i of a range of numbers is prefix, a + i and suffix |
| Endpoint.AlphaExpansion | src/cluster/endpoint.c:477-523 | expansion number i of a range of letters is prefix, the i-th letter from the first and suffix |
| Endpoint.ExpansionsDiffer | src/cluster/endpoint.c:477-523 | expansions of a pattern are pairwise different |
| Endpoint.ExpandPattern | src/cluster/endpoint.c:477-523 | the expansion loop yields the strings from start to end |
| Endpoint.ParseAll | src/cluster/endpoint.c:536-633 | the filling pass writes exactly the slots the counting pass reserved, in order; any bad argument fails the call |
| Endpoint.ArgCountCounts | src/cluster/endpoint.c:548-572 | the count taken in the first pass is the number of strings the second pass expands |

## Left out

- The ISA-L library: its generator and inversion enter as a contract (identity on top, a successful inversion is an inverse); that any k rows of its Cauchy matrix invert is a hypothesis of `Erasure.SurvivesUpToParityLosses` only.
- Erasure.Decoded: takes the bytes behind the inverse as a parameter; what a real allocator puts there, or a fault on reading it, is not modelled.
- JumpHash.LandingExact: speaks of exact arithmetic; where a double rounds, `JumpHash.JumpsForward` bounds the landing.
- The rounds of SipHash and the lane arithmetic of xxHash: parameters of the streaming theorems.
- Blake2bStream.Hash: only sequential hashing; parameter blocks with salt, personalization or tree mode are not modelled.
- ByteField.BytesObeyLaws: does not state that every non-zero byte has an inverse, because the coder divides nowhere itself; inversion is part of the ISA-L contract.
- SipHash's 128-bit form and its use for choosing a set by modulus.
- NodeRing.Ring.LookupN: requires the ids its walk meets to lie between 0 and the node count, because beyond that the code writes past an array, which C leaves undefined; `NodeRing.WalksSafeExactly` and `NodeRing.RunBoundedExactly` say when they do.
- NodeRing: the hash of a name is a parameter, so 64-bit width, load distribution and its statistics are not modelled.
- JumpHash.Jump: double arithmetic is any rounding that is monotone and exact on integers up to 2^53, which IEEE 754 satisfies.
- HashRing.AddMovesOnlyToNew: assumes that no two old nodes share a hash value; `HashRing.StableExactlyWithoutCollisions` shows that this cannot be dropped.
- Throttle.TokenBucket.Wait: requires that no refill overflows 64 bits, lets an overflowed sleep product be anything, and takes the clock readings of its retries as a sequence; rate changes during a wait, several waiters' fairness and requests larger than the burst are not covered.
- Placement: the result record of a placement (disk arrays, endpoints) after the set has been found.
- Scanner.DiskScan.Scan: takes the objects met on a disk as a list; directory walking and the threads that run one scan per disk are not modelled, and the results are joined in disk order.
- Agreement of the scanner's rings with the placement ring: they use different hashes and different sets.
- WorkerPool: condition variables, thread creation and the four steps of one migration; an attempt succeeds or fails as the environment decides.
- ConnPool: the list is a sequence; sockets and the request sender are not modelled, and callers release only what they hold.
- TopologyManager.Manager.Perform: speaks of the contents of the old cached object, not of its lifetime; the cache frees it on replacement (`src/cluster/cache.c:217-219`) although callers may hold it.
- TopologyManager: change callbacks, and the JSON form of a topology (a file holds a topology or nothing readable).
- Quorum.CommittedIsRead: assumes that no other stored topology has the same 64-bit hash as the written one.
- DiskNumbering.BuildMap: lets the map grow; `DiskNumbering.MapFitsExactly` says when the code's array, filled without a check, is large enough.
- DiskNumbering: the formatting branch without a cluster section in the configuration, and UUID generation (UUIDs are given and, where stated, distinct).
- Endpoint: nested patterns (the code expands only the first), overflow in reading range bounds, `buckets_endpoint_is_local`, and grouping into sets (`buckets_endpoints_to_sets`), which only adds easy members.
- Allocation failure: allocation aborts the program, so it is total here.
- The orchestrator, HTTP, RPC, health checks, metrics, configuration, credentials and storage back ends: plumbing, or code that is not part of this model.
