# Polaris-cpp: caches, buffer, quota and service state in Dafny

This project models the hand-written concurrent and stateful parts of the Polaris C++ SDK and proves
what they are meant to guarantee. `dafny verify dfyconfig.toml` checks all of it.

| file | component |
|---|---|
| `RcuCore.dfy`, `RcuMap.dfy`, `RcuProtocol.dfy`, `RcuMapSteps.dfy`, `RcuTime.dfy` | `RcuMap`, its values, cells and maps, the published thread times and the reclamation in `ClearCache` |
| `RcuUnorderedMap.dfy`, `RcuUnorderedProtocol.dfy`, `RcuUnorderedReclaim.dfy` | `RcuUnorderedMap`, lookups and `GetServiceContext` on top of it, and its reclamation |
| `Common.dfy` | what several components use |
| `LruQueue.dfy` | the multi-producer, single-consumer queue |
| `LruHashMap.dfy` | the hash map with a list in order of use |
| `Buffer.dfy`, `BufferRuns.dfy` | `Slice` and `Buffer`, and runs of operations on two buffers |
| `TokenBucket.dfy`, `QpsBucket.dfy`, `QuotaLedger.dfy`, `QuotaConcurrency.dfy`, `QuotaSolo.dfy` | the quota buckets: sequential classes, the ledger with the quota server over whole runs, and interleaved allocations |
| `HalfOpen.dfy` | half-open probing |
| `Watchers.dfy` | timeout watchers |
| `InstanceHash.dfy`, `LocalIds.dfy` | hashes and local ids of instances |

Code that updates fields in place is a class whose methods are proved against functions on values.
Protocols are machines whose steps are the single accesses to shared memory; their theorems quantify
over every run from the initial state, so over every interleaving of any number of threads. Where both
exist they share the functions that describe one step: `RcuCore` serves the class and the machine,
`TokenBucket` the classes and the ledger (the interleaved allocations are tied to the class by
`QuotaSolo.AloneIsAllocate`), `RcuUnorderedMap` the class and both machines, `Watchers` the
class and the runs. Besides, lemmas tie the two: `RcuMapSteps` the operations of `RcuMap` to the steps of
`RcuProtocol` when nobody interrupts them, `RcuTime.StepShows` and `MinTimeIsScan` the class of the thread
times to the same steps, `HalfOpenProtocol.UpdateIsSteps` and `ProbeIsSteps` updates and probes to theirs, `LruQueue.EnqueueIsSteps` and `DequeueIsSteps` the queue's
operations to the steps of its machine, `QuotaLedger.ReportIsUsage` and `RefreshIsSetRemoteQuota` the
reports and replies of the ledger to the bucket class.

Assumptions, all on the environment:

- Atomics are sequentially consistent. The coarse clock does not go backwards and starts at no less
  than the slack subtracted in `ClearCache`.
- A thread does not nest RCU sections. A time stamp that is taken before the unlinking (a deletion in
  `RcuMap`, everything in `RcuUnorderedMap`) and the unlinking lie within the slack.
- A reference stored in a map is a counted reference of its own: storing the same object twice stores
  two references.
- Amounts are not negative. Counters and times are unbounded; 32- and 64-bit wrap-around is modelled
  where it matters (`LocalIds`, `RcuTime.ThreadTimeMgr.ClearBound`).
- What a socket, a clock, a random split point, the quota server or a creator function returns is a
  parameter, arbitrary within its bounds.
- A timer fires once unless it is cancelled.
- The flags of a watcher can still be read after its last reference is released: `RemoveTimeoutWatcher`
  (polaris/cache/cache_manager.cpp:137-149) reads `wait_data_flag` again after a release that may free
  the watcher, and goes on as if the flags were unchanged. Its result says when that happens.

Four properties turned out to be false of the code as written. Each comes with a failing input and the
exact condition:

- A lookup in an `RcuUnorderedMap` can answer that a key is absent although it was there during the
  whole call, if another lookup swaps the maps between the miss and the lock
  (`RcuUnorderedProtocol.PresentKeyMissed`). The answer of a call is what the map held at no moment of
  the call exactly if the key had a value at the start that the loaded map lacked, nothing took it away
  before the lock, and the flag is down at the lock (`WrongExactlyIf`). `GetServiceContext` is not
  affected.
- Deleting from an `RcuUnorderedMap` frees the value of a key that is in no read map at once, also while
  a thread in an RCU section has a pointer to it (`RcuUnorderedReclaim.FailsFromStart`). From every state
  a lookup of such a key and its deletion are enough (`UnshelteredBreaks`): that is how a key that was
  collected as expired and looked up before it is deleted is lost. A run is free of
  such pointers exactly if no deletion does this (`GracePeriod`), and a deletion is safe after every
  sequence of lookups exactly if the read map has all its keys that have a value
  (`DeletionSafeExactlyIf`).
- A watcher whose source and destination are one service with rule routing is never told that its data
  is ready (`Watchers.SameServiceNotTold`, `NeverReady`). Watchers are told what is due exactly if they
  are not of this kind or their data was not complete in time (`ToldExactlyIf`).
- Instances can keep equal hashes if a retry string hashes to 0 (`InstanceHash.ZeroRetryCollides`).
  Hashes are distinct exactly if no conflict is resolved to 0 (`DistinctUnlessZero`), and that happens
  exactly if 0 is the first free one among the retries (`ZeroExactly`).

Where comments and code disagree the model follows the code: `LruHashMap::Update` with a null value does
not delete (polaris/cache/lru_map.h:91-94 says it does), it frees a replaced value at once, and a direct
`Delete` leaves `size_` unchanged, so each one takes away one place of the cache for good
(`LruHashMap.IsLruCache`).

## Model

| member | source | states |
|---|---|---|
| RcuProtocol.NoUseAfterFree | polaris/context/context_impl.cpp:553-562 | In every state of every run no thread inside an RCU section holds a reference that was released or taken for release, and no lookup is on a freed cell or a freed map, although the clock is read before it is published and the thread times are read one at a time. |
| RcuProtocol.LookupLinearizable | polaris/cache/rcu_map.h:173-227 | A lookup split into loading the map, the cell's value and, on a miss, the dirty map under the lock returns what the abstract map held for the key in one of the states between its start and its return, whatever the other threads do. |
| RcuProtocol.CallLinearizable | polaris/cache/rcu_map.h:205-227 | The same from any state the machine can be in: the values a call has seen are those of the states passed through. |
| RcuProtocol.OwnershipAlways | polaris/cache/rcu_map.h:51-58 | In every state of every run the allocated cells split into dirty cells, current tombstones and retired tombstones, the deleted keys are the read keys minus the dirty keys, and linked, listed, taken and released references are disjoint and listed once. |
| RcuProtocol.GraceTimeDoesNotWrap | polaris/context/context_impl.cpp:553 | Every result of MinTime is at least the slack, so the subtraction does not wrap. |
| RcuProtocol.StepKeeps | polaris/cache/rcu_map.h:173-385 | Each of the 24 steps of readers, writers, the time scan and the reclamation keeps the invariant of the machine. |
| RcuProtocol.RunKeeps | polaris/cache/rcu_map.h:173-385 | So does every run. |
| RcuProtocol.ReaderKeeps | polaris/cache/rcu_map.h:205-227 | The steps of a lookup keep it. |
| RcuProtocol.WriterKeeps | polaris/cache/rcu_map.h:248-342 | The steps of Update, CreateOrGet, Delete and the swap keep it, with the time stamp taken after the unlinking or, for Delete, before it. |
| RcuProtocol.SectionKeeps | polaris/cache/rcu_time.cpp:35-77 | Entering (clock read, then published), leaving, thread exit and the scan of MinTime keep it. |
| RcuProtocol.ReclaimKeeps | polaris/cache/rcu_map.h:345-385 | Taking values and maps off the lists under a MinTime minus the slack and freeing them later keeps it. |
| RcuCore.CellOwnership | polaris/cache/rcu_map.h:51-58 | Allocated cells are exactly dirty cells, tombstones and retired tombstones, disjoint, and no cell is named by two retired maps; shared keys share their cell. |
| RcuCore.ReplaceKeeps | polaris/cache/rcu_map.h:257-262 | Replacing a value keeps the invariant, changes the map at that key only and retires the old value. |
| RcuCore.InsertKeeps | polaris/cache/rcu_map.h:263-281 | Inserting, by reviving a tombstone or with a new cell, keeps the invariant and changes the map at that key only. |
| RcuCore.RemoveKeeps | polaris/cache/rcu_map.h:319-342 | Deleting keeps the invariant; the cell stays as a tombstone if readers may still see it. |
| RcuCore.SwapKeeps | polaris/cache/rcu_map.h:230-245 | The swap keeps the invariant and the abstract map; the tombstones go with the retired map. |
| RcuCore.PopValueKeeps | polaris/cache/rcu_map.h:349-356 | Taking the oldest value off the list keeps the invariant and the abstract map. |
| RcuCore.ReleaseKeeps | polaris/cache/rcu_map.h:358-360 | Releasing a taken value keeps the invariant; it was not released before. |
| RcuCore.PopMapKeeps | polaris/cache/rcu_map.h:365-372 | Taking the oldest retired map off the list keeps the invariant. |
| RcuCore.FreeTombstoneKeeps | polaris/cache/rcu_map.h:376-381 | Each tombstone a taken map names is there to be freed, and freeing it keeps the invariant. |
| RcuCore.FreeMapKeeps | polaris/cache/rcu_map.h:382-383 | Freeing the map itself keeps the invariant. |
| RcuMap.UpdatedKeeps | polaris/cache/rcu_map.h:248-282 | Update as a function: a null value deletes, otherwise the key gets the value and no other key changes. |
| RcuMap.FreeRetiredMapKeeps | polaris/cache/rcu_map.h:374-384 | Freeing a retired map with all its tombstones keeps the invariant, the stored references and the abstract map. |
| RcuMap.DestructorRuns | polaris/cache/rcu_map.h:138-170 | The invariant gives what the destructor relies on: no cell and no reference is met twice. |
| RcuMap.RcuMap.GetWithRcuTime | polaris/cache/rcu_map.h:205-227 | A call in one piece returns the value of the abstract map, does not change it and takes no reference; a key found is marked as used now, no other. A key found only in the dirty map counts a miss; the misses that reach the size make the dirty map the read map, and the old one is listed with its tombstones and the present time. |
| RcuMap.RcuMap.Get | polaris/cache/rcu_map.h:173-202 | The same, with the mark on request, and one reference is taken for the caller, to a value the map has not released, exactly if there is one. |
| RcuMap.RcuMap.CheckSwap | polaris/cache/rcu_map.h:230-245 | Swaps exactly when the misses have reached the size of the dirty map; the abstract map stays, the counter starts over, and the old read map is listed with its tombstones and the present time. |
| RcuMap.RcuMap.Update | polaris/cache/rcu_map.h:248-282 | The key gets the value, or is deleted for a null value; other keys keep theirs; the reference is stored once; the value it had is listed with the present time; a new key is marked as used, a present one is not. |
| RcuMap.RcuMap.CreateOrGet | polaris/cache/rcu_map.h:285-316 | A present value is returned and nothing changes but its mark; otherwise the created one is stored and returned. |
| RcuMap.RcuMap.Delete | polaris/cache/rcu_map.h:319-342 | The key is gone, other keys keep their values; the value it had is listed with the present time. |
| RcuMap.RcuMap.DropOldValues | polaris/cache/rcu_map.h:346-360 | Exactly the leading values stamped below the bound are taken off and released. |
| RcuMap.RcuMap.FreeOldMaps | polaris/cache/rcu_map.h:362-384 | Exactly the leading maps stamped below the bound are freed with the cells they name. |
| RcuMap.RcuMap.CheckGc | polaris/cache/rcu_map.h:345-385 | Both halves: exactly the leading entries below the bound are freed, the abstract map and the marks stay. |
| RcuMap.RcuMap.CheckExpired | polaris/cache/rcu_map.h:388-395 | Exactly the keys of the abstract map last used at the given time or before, each once. |
| RcuMap.RcuMap.Destroy | polaris/cache/rcu_map.h:138-170 | No cell is left and the released references are exactly all that were ever stored. |
| RcuMapSteps.HitIsSteps | polaris/cache/rcu_map.h:205-211 | Loading the map, finding the key and loading the value, uninterrupted, answers what the abstract map holds and leaves the map alone. |
| RcuMapSteps.MissIsSteps | polaris/cache/rcu_map.h:212-245 | The same for a lookup that goes to the dirty map: the steps of the machine, with the stamp after the swap, do what the class says, and give the same answer. |
| RcuMapSteps.MissCounted | polaris/cache/rcu_map.h:219-223 | A lookup counts a miss exactly if the read map it missed is still the present one. |
| RcuMapSteps.UpdateIsSteps | polaris/cache/rcu_map.h:255-281 | Store and stamp, uninterrupted, are the Update of the class. |
| RcuMapSteps.DeleteIsSteps | polaris/cache/rcu_map.h:319-342 | Stamp and clearing, uninterrupted, are the Delete of the class. |
| RcuMapSteps.CreateOrGetIsStep | polaris/cache/rcu_map.h:285-316 | The step of the machine stores and answers what the class does. |
| RcuMapSteps.DropValueIsSteps | polaris/cache/rcu_map.h:349-360 | Taking a value off the list and releasing it is one round of the class's loop. |
| RcuMapSteps.FreesRetired | polaris/cache/rcu_map.h:374-384 | Freeing the cells a taken map names, in any order, and then the map is one round of the class's loop. |
| RcuTime.StepShows | polaris/cache/rcu_time.cpp:35-77 | RcuEnter, RcuExit and OnThreadExit do to the stored times what the Publish, Leave and ExitThread steps of the protocol do to the published ones, and no other step of the protocol concerns them. |
| RcuTime.RunShows | polaris/cache/rcu_time.cpp:35-77 | So in every run the class stores exactly the times on which the grace-period theorem rests, the largest number standing for a thread outside. |
| RcuTime.MinTimeIsScan | polaris/cache/rcu_time.cpp:54-64 | In whatever order the thread times are read, the result of MinTime is what a scan of the protocol adds to its results, and the scan changes nothing else. |
| RcuTime.ThreadTimeMgr.MinTime | polaris/cache/rcu_time.cpp:54-64 | The result is the smallest of the clock and all published times. |
| RcuTime.ThreadTimeMgr.ClearBound | polaris/context/context_impl.cpp:553 | The 64-bit bound is the smallest time minus the slack, wrapped around if that is negative; it is below clock and all published times by the slack if and only if none of them is smaller than the slack. |
| RcuTime.EnteredHoldsBack | polaris/cache/rcu_time.cpp:35-45 | MinTime with the thread in a section is the smaller of its time of entry and MinTime without it. |
| RcuTime.LeftHoldsNothingBack | polaris/cache/rcu_time.cpp:47-52 | MinTime after the thread has left or exited is MinTime without it. |
| RcuUnorderedMap.RcuUnorderedMap.Get | polaris/cache/rcu_unordered_map.h:148-201 | A lookup in one piece returns what the map holds for the key and changes nothing of that; the same cells are held by some map; when it counts a miss, when it swaps, and with which time the old read map is listed. |
| RcuUnorderedMap.RcuUnorderedMap.CheckSwapInLock | polaris/cache/rcu_unordered_map.h:204-215 | Swaps exactly when the misses have reached the size of the dirty map, and lists the old read map then. |
| RcuUnorderedMap.RcuUnorderedMap.Update | polaris/cache/rcu_unordered_map.h:218-235 | The key gets the value, nothing else changes; a replaced value is listed by its time after those not later. |
| RcuUnorderedMap.RcuUnorderedMap.UpdateIf | polaris/cache/rcu_unordered_map.h:238-262 | The value is computed if the key is absent or its value is chosen, and the value now held is returned; exactly a chosen value is listed. |
| RcuUnorderedMap.RcuUnorderedMap.CreateOrGet | polaris/cache/rcu_unordered_map.h:265-284 | A present value wins; a null creation stores nothing; the value now held is returned. |
| RcuUnorderedMap.RcuUnorderedMap.Delete | polaris/cache/rcu_unordered_map.h:287-308 | Exactly the listed keys are gone; the read map is retired only if something was erased; no value is listed; the cells that no map holds any more are exactly the erased ones that only the dirty map had. |
| RcuUnorderedMap.RcuUnorderedMap.CheckGc | polaris/cache/rcu_unordered_map.h:311-335 | Exactly the listed values stamped below the bound are freed, and the leading maps up to the first one that is not; the contents stay. |
| RcuUnorderedMap.MissedKeeps | polaris/cache/rcu_unordered_map.h:169-170 | A counted miss, with or without a swap, keeps the read map a part of the dirty map sharing its cells, equal to it while the flag is down, and keeps the contents. |
| RcuUnorderedMap.ReplacedKeeps | polaris/cache/rcu_unordered_map.h:222-226 | Replacing keeps that and changes the contents at one key only. |
| RcuUnorderedMap.InsertedKeeps | polaris/cache/rcu_unordered_map.h:229-233 | Inserting keeps that and adds one key. |
| RcuUnorderedMap.ErasedKeeps | polaris/cache/rcu_unordered_map.h:287-308 | Erasing keeps that and removes exactly the keys. |
| RcuUnorderedProtocol.StepKeeps | polaris/cache/rcu_unordered_map.h:148-308 | Every step of split lookups, GetServiceContext calls and writers keeps that every pending answer is a value the key had during the call. |
| RcuUnorderedProtocol.RunKeeps | polaris/cache/rcu_unordered_map.h:148-308 | So does every run. |
| RcuUnorderedProtocol.StepContents | polaris/cache/rcu_unordered_map.h:148-308 | What each step does to the map as a plain map: Update sets, Delete removes, a creation under an absent key adds, lookups change nothing. |
| RcuUnorderedProtocol.CreatorGetsItsContext | polaris/context/context_impl.cpp:191-193 | In every run, a whole GetServiceContext that comes to creating returns the context that was there, otherwise the one it has created, and in any case the one that is in the map then. |
| RcuUnorderedProtocol.LookupAnswer | polaris/cache/rcu_unordered_map.h:176-201 | In every run, the answer of a whole call otherwise: what the cell holds that the read map had for the key at the start, or what the map holds under the lock if the flag is up. |
| RcuUnorderedProtocol.AnswersAreCurrent | polaris/cache/rcu_unordered_map.h:176-201 | In every run, every answer of a whole call, except a null given because the flag was down, is what the map held in one of the states from its start to its answer; a GetServiceContext never ends with the exception. |
| RcuUnorderedProtocol.WrongExactlyIf | polaris/cache/rcu_unordered_map.h:178-189 | In every run, the answer of a whole lookup is what the map held in none of its states if and only if the key had a value at the start that the loaded map lacked, no step took it away before the lock, and the flag is down at the lock. |
| RcuUnorderedProtocol.PresentKeyMissed | polaris/cache/rcu_unordered_map.h:178-189 | A run in which a key that is present all along is reported absent. |
| RcuUnorderedProtocol.ContextsAreUnique | polaris/context/context_impl.cpp:186-194 | From any reachable state, as long as no step overwrites or deletes the key, whatever happens to other keys: all calls begun since that return a context for the key return the same one, the one in the map; a context that was there stays and none is created, otherwise at most one is. |
| RcuUnorderedProtocol.OneContextPerRun | polaris/context/context_impl.cpp:186-194 | The same for all calls of a whole run. |
| RcuUnorderedProtocol.DeletedBetweenCreations | polaris/plugin/local_registry/local_registry.cpp:201-235 | In every run, between two creations of a key's context the key is deleted. |
| RcuUnorderedProtocol.UntouchedStep | polaris/context/context_impl.cpp:186-194 | One step that leaves the key alone keeps that the calls on it begun since agree with the map and that at most one context was made. |
| RcuUnorderedReclaim.GracePeriod | polaris/cache/rcu_unordered_map.h:176-335 | With any number of threads, a run is free of threads in a section that point to a freed value or a freed map, in all its states, if and only if it never deletes a key that is in no read map while a thread has its value. |
| RcuUnorderedReclaim.DeletionSafeExactlyIf | polaris/cache/rcu_unordered_map.h:287-308 | In every state the machine can be in, deleting keys is safe after every sequence of lookups if and only if the read map has each of the keys that has a value. |
| RcuUnorderedReclaim.UnshelteredBreaks | polaris/plugin/circuit_breaker/error_count.cpp:156-182 | From every such state, one lookup of a key in no read map and its deletion leave a thread with a freed value. |
| RcuUnorderedReclaim.ShelteredIsSafe | polaris/cache/rcu_unordered_map.h:287-308 | If the read map has the keys, no lookups before the deletion make it unsafe. |
| RcuUnorderedReclaim.FailingRun | polaris/plugin/circuit_breaker/error_count.cpp:156-182 | Creating a value inside a section and deleting its key leaves the thread with a freed value. |
| RcuUnorderedReclaim.FirstSection | polaris/cache/rcu_time.cpp:35-45 | Entering the first section leads to a state in which that run begins. |
| RcuUnorderedReclaim.FailsFromStart | polaris/plugin/circuit_breaker/error_count.cpp:156-182 | From an initial state with one thread, four steps that end so: enter (two steps), create, delete. |
| RcuUnorderedReclaim.ErasedAtOnce | polaris/cache/rcu_unordered_map.h:97-102 | Deleting a key that is in no read map frees its value in the same step. |
| RcuUnorderedReclaim.AliveExactly | polaris/cache/rcu_unordered_map.h:109-117 | A cell is held by some map if and only if it is in the dirty map or the last read map that held it is not freed. |
| RcuUnorderedReclaim.OtherStepKeeps | polaris/cache/rcu_unordered_map.h:176-335 | Every step of lookups, writers and CheckGc that does not delete a held value in no read map keeps the invariant. |
| RcuUnorderedReclaim.TimeStepKeeps | polaris/cache/rcu_time.cpp:35-77 | So does every step of the clock, the sections and MinTime. |
| RcuUnorderedReclaim.HitUsable | polaris/cache/rcu_unordered_map.h:178-183 | The value in a cell of a loaded map, retired or not, may be used until the section ends. |
| RcuUnorderedReclaim.FreeValueKeeps | polaris/cache/rcu_unordered_map.h:314-321 | Freeing a listed value stamped below a MinTime minus the slack keeps the invariant, with the stamp taken before the unlinking. |
| RcuUnorderedReclaim.FreeMapKeeps | polaris/cache/rcu_unordered_map.h:327-333 | So does freeing the oldest retired map with the cells that it alone held. |
| RcuUnorderedReclaim.EraseKeeps | polaris/cache/rcu_unordered_map.h:287-308 | So does a deletion that takes no held value away. |
| RcuUnorderedReclaim.EraseFreesExactly | polaris/cache/rcu_unordered_map.h:287-308 | A deletion removes exactly the keys, retires the read map if it removes any, lists no value, and frees at once exactly the values of the removed keys that are in no read map. |
| RcuUnorderedReclaim.FreeMapFreesExactly | polaris/cache/rcu_unordered_map.h:327-333 | Freeing the oldest retired map frees exactly the values of the cells for which it was the last map. |
| RcuUnorderedReclaim.StoreLists | polaris/cache/rcu_unordered_map.h:218-235 | Update sets the key, lists the value it had with its stamp and frees nothing. |
| RcuUnorderedReclaim.LockGives | polaris/cache/rcu_unordered_map.h:185-200 | What a thread holds more after the locked half of a lookup is what the map holds for the key if the flag is up. |
| RcuUnorderedReclaim.LockRetires | polaris/cache/rcu_unordered_map.h:204-215 | When such a lookup retires the read map, and with which stamp. |
| RcuUnorderedReclaim.CreateGives | polaris/cache/rcu_unordered_map.h:265-284 | What a thread holds more after CreateOrGet is the value that was there, otherwise its own, which is then in the map. |
| LruQueueProtocol.NoFreedNodeTouched | polaris/cache/lru_queue.h:41-61 | However producers stop between exchange and link, no producer and not the consumer is ever about to touch a freed node. |
| LruQueueProtocol.FreedInExchangeOrder | polaris/cache/lru_queue.h:41-61 | The data freed are those of the first exchanged nodes in exchange order, each once and only under a bound above its stamp; all others are still there. |
| LruQueueProtocol.QueueAtRest | polaris/cache/lru_queue.h:41-61 | When every Enqueue has returned, the allocated nodes are the tail and the nodes still queued, linked in exchange order. |
| LruQueueProtocol.StepKeeps | polaris/cache/lru_queue.h:41-61 | Each of the 8 steps of producers and consumer keeps the invariant of the queue. |
| LruQueueProtocol.RunKeeps | polaris/cache/lru_queue.h:41-61 | So does every run. |
| LruQueue.LruQueue.Enqueue | polaris/cache/lru_queue.h:41-45 | Appends the datum with its stamp. |
| LruQueue.EnqueueIsSteps | polaris/cache/lru_queue.h:41-45 | From any state the machine can be in, the three steps of an Enqueue that nobody interrupts are what the class does. |
| LruQueue.LruQueue.Dequeue | polaris/cache/lru_queue.h:47-61 | Frees the oldest datum exactly if there is one stamped below the bound. |
| LruQueue.DequeueIsSteps | polaris/cache/lru_queue.h:47-61 | From any state the machine can be in, the steps of a Dequeue that nobody interrupts, as far as it goes, are what the class does. |
| LruQueue.LruQueue.Destroy | polaris/cache/lru_queue.h:29-39 | Frees every queued datum once, in order, and every node. |
| LruHashMap.LruList.Unlink | polaris/cache/lru_map.h:256-259 | Takes one node out of the circle; the order of the others stays. |
| LruHashMap.LruList.RemoveNode | polaris/cache/lru_map.h:251-261 | The same, or nothing for a node that was taken out before. |
| LruHashMap.LruList.AddToEnd | polaris/cache/lru_map.h:264-272 | Appends the node. |
| LruHashMap.LruList.MoveToEnd | polaris/cache/lru_map.h:275-290 | The node becomes the last, the order of the others stays. |
| LruHashMap.LruList.RemoveHead | polaris/cache/lru_map.h:293-302 | Takes out and returns the first node. |
| LruHashMap.ProbeTable.Find | polaris/cache/lru_map.h:157-165 | Finds the node of the key, or there is none in the whole table. |
| LruHashMap.ProbeTable.Insert | polaris/cache/lru_map.h:187-192 | Adds the node in front of its chain. |
| LruHashMap.ProbeTable.Unlink | polaris/cache/lru_map.h:229-247 | Takes the key's node out of its chain, or there is none. |
| LruHashMap.LruHashMap.constructor | polaris/cache/lru_map.h:124-133 | An empty cache. |
| LruHashMap.LruHashMap.Get | polaris/cache/lru_map.h:152-167 | Returns the value with one reference taken for the caller and makes the key the most recently used, or returns nothing; chains and list stay over the same nodes. |
| LruHashMap.LruHashMap.Update | polaris/cache/lru_map.h:170-202 | Replaces and frees the old value, or adds the key and evicts the least recently used one if the size is exceeded; the second eviction never happens. |
| LruHashMap.LruHashMap.Evict | polaris/cache/lru_map.h:220-226 | Removes the least recently used entry from list and chain and frees its value. |
| LruHashMap.LruHashMap.Delete | polaris/cache/lru_map.h:229-248 | Removes the key and frees its value; the size counter stays. |
| LruHashMap.RunKeeps | polaris/cache/lru_map.h:152-302 | Over any run: distinct keys, live entries plus direct deletions never exceed lru_size_, and every value stored is held or has been freed, once. |
| LruHashMap.IsLruCache | polaris/cache/lru_map.h:152-302 | Over any run, direct deletions included, the entries are exactly the most recently used ones, in that order, of an unbounded list by last use: as many as lru_size_ less the deletions that found their key. |
| LruHashMap.StepIsLru | polaris/cache/lru_map.h:152-248 | One Get, Update or Delete keeps that. |
| Buffer.SliceSize | polaris/network/buffer.cpp:92-96 | Whole pages less the header, enough for the data and less than a page more. |
| Buffer.Slice.constructor | polaris/network/buffer.cpp:71-75 | An empty slice of that capacity. |
| Buffer.Slice.Drain | polaris/network/buffer.cpp:25-32 | Drops bytes from the front; an emptied slice starts over with all its room. |
| Buffer.Slice.Reserve | polaris/network/buffer.cpp:39-52 | The next free memory, as much as there is up to the request. |
| Buffer.Slice.Commit | polaris/network/buffer.cpp:54-61 | Accepts a piece exactly if it is the next free memory of this slice, and appends it. |
| Buffer.Slice.Append | polaris/network/buffer.cpp:63-69 | Appends as many bytes as fit. |
| Buffer.Buffer.Add | polaris/network/buffer.cpp:105-119 | Appends exactly the bytes; there is one slice more exactly if they do not fit into the last one. |
| Buffer.Buffer.FirstReservable | polaris/network/buffer.cpp:126-136 | Where the trailing slices with room of which at most the first has data begin: no slice before belongs to them. |
| Buffer.Buffer.ReserveExisting | polaris/network/buffer.cpp:138-157 | Takes all the room of these slices in order until the request is complete, and leaves something only when they are used up, or one entry for a new slice if the next one cannot complete the request. |
| Buffer.Buffer.Reserve | polaris/network/buffer.cpp:121-171 | The pieces' lengths add up to exactly the request, there are no more than allowed, and the content stays; the room at the end is used first, and at most one slice is added, only if that does not suffice. |
| Buffer.Buffer.Commit | polaris/network/buffer.cpp:173-206 | Committing the pieces of a reservation, possibly shortened, appends their bytes in order, whatever empty or partly filled slices there are. |
| Buffer.Buffer.Drain | polaris/network/buffer.cpp:208-226 | Drops the first min(size, length) bytes. |
| Buffer.Buffer.GetRawSlices | polaris/network/buffer.cpp:228-245 | The pieces hold a prefix of the content, all of it if they suffice, and the count is that of the non-empty slices. |
| Buffer.Buffer.Move | polaris/network/buffer.cpp:255-264 | The whole other content moves to the end; the other buffer is empty. |
| Buffer.Buffer.MovePrefix | polaris/network/buffer.cpp:266-287 | Exactly the first min(length, other length) bytes move to the end. |
| Buffer.Buffer.SocketReadv | polaris/network/buffer.cpp:289-304 | The received bytes lie in the pieces in order and the content is untouched. |
| Buffer.Shorten | polaris/network/buffer.cpp:316-319 | Cuts the pieces down to the bytes received. |
| Buffer.Buffer.Read | polaris/network/buffer.cpp:306-322 | Appends exactly the bytes received, at most the requested number; an error appends nothing. |
| Buffer.Buffer.Write | polaris/network/buffer.cpp:343-352 | Sends a prefix of the content and drops exactly that prefix. |
| BufferRuns.Run | polaris/network/buffer.cpp:105-352 | Over any sequence of operations on two buffers, both moves among them, each operation puts in exactly what it names and takes out what is returned for it, and for each buffer old content plus everything put in equals everything taken out plus content, in order. |
| BufferRuns.Conserved | polaris/network/buffer.cpp:105-352 | That equation for every prefix of every such behaviour. |
| TokenBucket.TakesRoom | polaris/quota/quota_bucket_qps.cpp:60-89 | A request takes its amount from the room of its mode and from the local room; the first request of a window finds nothing used and the local quota as the remote one; what it adds to the unreported grants or the refusals. |
| TokenBucket.FitsRoom | polaris/quota/quota_bucket_qps.cpp:74-88 | It is granted exactly if the amount is within the room: in a new window within the local quota, in either mode. |
| TokenBucket.ReturnUndoesTake | polaris/quota/quota_bucket_qps.cpp:60-96 | Taking and returning undoes all but the window roll and the sync counters. |
| TokenBucket.RefreshShows | polaris/quota/quota_bucket_qps.cpp:98-127 | The number of a reply becomes the total; it is also what is left if the quota had expired, otherwise the grants it does not know of are taken off. |
| TokenBucket.UseUpShows | polaris/quota/quota_bucket_qps.cpp:146-163 | The first reply of a window that leaves nothing sets the time at which the quota was used up, which becomes that of the last window when the next one is confirmed. |
| TokenBucket.PreparedShows | polaris/quota/quota_bucket_qps.cpp:167-184 | What is reported is exactly what leaves the counters, and is added to what waits for acknowledgement. |
| TokenBucket.ReportExactly | polaris/quota/quota_bucket_qps.cpp:130-148 | The time to the next report is exactly the last one at which, at the rate so far, at most half of what is left is used, and at most half of the time has passed that the last window's quota would last. |
| TokenBucket.NextReport | polaris/quota/quota_bucket_qps.cpp:130-148 | The time to the next report is at least 1. |
| TokenBucket.ReportBeforeHalfSpent | polaris/quota/quota_bucket_qps.cpp:130-148 | At the rate seen so far, at most half of what is left is used before the next report. |
| TokenBucket.TokenBucket.constructor | polaris/quota/quota_bucket_qps.cpp:48-58 | The remote quota starts as the local one. |
| TokenBucket.TokenBucket.GetToken | polaris/quota/quota_bucket_qps.cpp:60-89 | Succeeds exactly if the bucket has room; what is left is the room less the amount; a request that opens a window is granted if and only if the amount is within the local quota; the whole new state. |
| TokenBucket.TokenBucket.ReturnToken | polaris/quota/quota_bucket_qps.cpp:91-96 | The whole new state. |
| TokenBucket.TokenBucket.RefreshToken | polaris/quota/quota_bucket_qps.cpp:98-165 | The whole new state, and when to report next. |
| TokenBucket.TokenBucket.PreparePendingQuota | polaris/quota/quota_bucket_qps.cpp:167-184 | The whole new state, and the usage reported. |
| QpsBucket.RemoteAwareQpsBucket.constructor | polaris/quota/quota_bucket_qps.cpp:193-206 | For amounts in any order and with repetitions, one full bucket per window length, by ascending length, with the quota given last for it; the shortest length is the remote timeout. |
| QpsBucket.Collect | polaris/quota/quota_bucket_qps.cpp:199-202 | The map that the loop fills: ascending, exactly the lengths of the rule, each with its last quota. |
| QpsBucket.RemoteAwareQpsBucket.Allocate | polaris/quota/quota_bucket_qps.cpp:208-253 | All or nothing: granted exactly if every bucket has room for the amount, which is then taken from all of them and otherwise from none; when all windows are new, exactly if the amount is within every quota; which buckets are charged or rolled back, and what is answered. |
| QpsBucket.AllocatedAllOrNothing | polaris/quota/quota_bucket_qps.cpp:221-247 | That this follows for any buckets, of which the first without room refuses. |
| QpsBucket.SyncCounted | polaris/quota/quota_bucket_qps.cpp:60-96 | The unreported amount grows by exactly the remote grant in the longest window and by at least that in shorter ones; a limited call leaves use and remote tokens as they were. |
| QpsBucket.RemoteAwareQpsBucket.SetRemoteQuota | polaris/quota/quota_bucket_qps.cpp:255-298 | Every bucket named, and no other, shows the reply: its number if it is from the present window and otherwise the whole quota, less the unknown grants unless it had expired; the result is the shortest of the times these buckets let the next report wait. |
| QpsBucket.WaitExactly | polaris/quota/quota_bucket_qps.cpp:281-294 | A time is within that for a bucket exactly if at the rate so far at most half of the rest is used before it, it is at most half way to the time the last window's quota was used up, and, after a number below zero, at most half that time into the next window. |
| QpsBucket.RemoteAwareQpsBucket.GetQuotaUsage | polaris/quota/quota_bucket_qps.cpp:300-311 | The report takes every bucket's unreported grants and refusals. |
| QuotaLedger.VisitIsAllocate | polaris/quota/quota_bucket_qps.cpp:221-252 | What an allocation that reaches the longest window does to it is the ledger's step, and it is granted exactly if that window has room. |
| QuotaLedger.ReportIsUsage | polaris/quota/quota_bucket_qps.cpp:300-311 | What GetQuotaUsage does to the bucket and sends is the ledger's report step. |
| QuotaLedger.RefreshIsSetRemoteQuota | polaris/quota/quota_bucket_qps.cpp:255-298 | What SetRemoteQuota does to an unexpired bucket for a reply to the oldest report, or to the initial request, is the ledger's refresh step, with the same acknowledged amount. |
| QuotaLedger.StaleReplyHonest | polaris/quota/quota_bucket_qps.cpp:271-273 | Taking a reply from an earlier window for the whole quota is within what the server may grant if and only if it has acknowledged nothing yet in the bucket's window, if that is the present one. |
| QuotaLedger.StepKeeps | polaris/quota/quota_bucket_qps.cpp:60-184 | Allocations, reports and unexpired refreshes keep the ledger balanced. |
| QuotaLedger.LedgerBalances | polaris/quota/quota_bucket_qps.cpp:98-149 | Over any run, total minus left is at least unreported plus unacknowledged grants of the window, equal unless a refresh opened it; grants are acknowledged plus unacknowledged plus unreported ones; refusals are those reported plus those counted; what waits for acknowledgement is what is under way. |
| QuotaLedger.NeverOverQuota | polaris/quota/quota_bucket_qps.cpp:255-298 | If replies are at most the quota minus what is acknowledged, the remote grants of one client never exceed the quota in any window, whatever the timing of reports and replies. |
| QuotaConcurrency.StepKeeps | polaris/quota/quota_bucket_qps.cpp:60-96 | Every atomic step of every call keeps each counter equal to its start plus what calls hold, and what has passed within the room there was. |
| QuotaConcurrency.NoOverGrant | polaris/quota/quota_bucket_qps.cpp:208-253 | However allocations interleave in one window, in every bucket the local grants fit into the local quota's room and the remote grants into the tokens left at the start. |
| QuotaConcurrency.ConservedAtRest | polaris/quota/quota_bucket_qps.cpp:242-252 | When all calls have returned, use and tokens differ from the start by exactly the grants. |
| QuotaConcurrency.ReportsCoverGrants | polaris/quota/quota_bucket_qps.cpp:74-81 | At every moment what a bucket has to report covers its remote grants, exactly in the longest window. |
| QuotaSolo.AloneIsAllocate | polaris/quota/quota_bucket_qps.cpp:208-253 | The steps of a call that is not interrupted, taken together, are the sequential allocation: granted exactly if no bucket refuses, and every bucket left the same. |
| QuotaSolo.AloneRuns | polaris/quota/quota_bucket_qps.cpp:208-253 | Steps of one call in a row are a run of the machine that the other theorems speak of. |
| HalfOpen.Service.SetCircuitBreakerData | polaris/model/model.cpp:760-806 | Only a newer version is accepted; then exactly its half-open instances have a budget, what is left of it if they had one and otherwise the published number. |
| HalfOpen.Service.CopyLeftOver | polaris/model/model.cpp:789-798 | The loop that copies the budgets left over the published ones. |
| HalfOpen.Service.Search | polaris/model/model.cpp:848-865 | Finds the first instance with budget from the split point round, or none has any. |
| HalfOpen.Service.TryChooseHalfOpenInstance | polaris/model/model.cpp:826-868 | When a slot is claimed, and that a claimed slot gives an instance exactly if one has budget, which is then one less. |
| HalfOpenProtocol.StepKeeps | polaris/model/model.cpp:760-868 | Every step of concurrent updates and probes keeps versions increasing, claims apart and budgets balanced. |
| HalfOpenProtocol.ProbingIsBounded | polaris/model/model.cpp:826-868 | Over any run: accepted versions increase, slot claims are at least 2000 ms apart, probes are no more than one per 2000 ms, times chosen plus budget left is the number that an accepted version published for the instance, and it is never chosen more often than that. |
| HalfOpenProtocol.UpdateIsSteps | polaris/model/model.cpp:779-799 | The two critical sections of an accepted update, uninterrupted, do what the class does. |
| HalfOpenProtocol.ProbeIsSteps | polaris/model/model.cpp:835-866 | So do the steps of a probe: it claims the slot exactly if the last claim is 2000 ms ago, and takes one from the budget of the instance found. |
| Watchers.ReferencesCounted | polaris/cache/cache_manager.cpp:97-133 | The reference count is the number of bits waited for, which is the number of index sets that hold the watcher, and one more if it waits for one set twice. |
| Watchers.CacheManager.AddTimeoutWatcher | polaris/cache/cache_manager.cpp:97-133 | Ready data is called back at once; otherwise one index entry, bit and reference per piece of data, for any two services. |
| Watchers.CacheManager.NotifyReady | polaris/cache/watcher.cpp:41-63 | Clears the bit of the change, which is set, and calls back and cancels the timer at the last. |
| Watchers.CacheManager.OnServiceDataChange | polaris/cache/cache_manager.cpp:162-185 | Every watcher in the set is notified and released once, and the set is gone. |
| Watchers.CacheManager.RemoveTimeoutWatcher | polaris/cache/cache_manager.cpp:135-156 | The watcher leaves every set it is in, with one reference released for each bit; a flag is read after the last release exactly if the last bit is not set. |
| Watchers.CacheManager.ServiceCacheTimeout | polaris/cache/watcher.cpp:74-78 | Calls back, then removes and frees the watcher, reading a flag late exactly if it does not wait for source rules. |
| Watchers.RegisterKeeps | polaris/cache/cache_manager.cpp:97-133 | Registering keeps the invariant of watchers and index. |
| Watchers.ChangeKeeps | polaris/cache/cache_manager.cpp:162-185 | A data change keeps it. |
| Watchers.TimeoutKeeps | polaris/cache/watcher.cpp:74-78 | A timeout keeps it. |
| Watchers.CalledBackAsDue | polaris/cache/watcher.cpp:41-78 | For every order of registrations, changes and timeouts: each watcher that does not wait for one set twice is called back at most once, ready exactly if all the data its registration asks for changed before its timer fired, timed out exactly if the timer came first. |
| Watchers.CompleteMeans | polaris/cache/cache_manager.cpp:105-131 | The bits of a watcher are all cleared exactly if the instances of the destination and, with the rule router, the rules of the destination and of the source, if there is one, have changed since the registration. |
| Watchers.NeverReady | polaris/cache/watcher.cpp:45-53 | In every run, a watcher that waits for one set twice is told nothing but the timeout. |
| Watchers.ToldExactlyIf | polaris/cache/watcher.cpp:41-78 | In every run, a watcher has been told what is due if and only if it does not wait for one set twice or its data was not complete before its timer fired. |
| Watchers.SameServiceNotTold | polaris/cache/watcher.cpp:45-53 | A run in which all data of such a watcher has come and it is not told. |
| InstanceHash.FirstUnused | polaris/model/model.cpp:323-331 | The search from 1 ends no later than one past the number of hashes in use. |
| InstanceHash.HandleHashConflict | polaris/model/model.cpp:301-337 | The first of ten retries that is free, or else the smallest free hash, found within one more step than there are hashes in use. |
| InstanceHash.ResolvedIsFirstFree | polaris/model/model.cpp:303-331 | A conflict is resolved to the first retry that is not in use or, if all are, to the smallest number from 1 on that is not. |
| InstanceHash.KeptUnlessDuplicate | polaris/model/model.cpp:252-288 | Every instance of the list is kept, in order, unless the first kept one with its hash has the same host and port; with its own hash if that is free, otherwise with the one the conflict is resolved to, unless that is 0. |
| InstanceHash.ParseInstances | polaris/model/model.cpp:249-288 | Which instances are kept, with which hash and under which id, and that hashes are distinct exactly if no conflict is resolved to 0. |
| InstanceHash.DistinctUnlessZero | polaris/model/model.cpp:261-279 | Kept instances have distinct hashes if and only if no conflict was resolved to 0. |
| InstanceHash.ZeroExactly | polaris/model/model.cpp:301-322 | A conflict is resolved to 0 if and only if 0 is free and is the first free one among the retries. |
| InstanceHash.DistinctIfNeverZero | polaris/model/model.cpp:274-278 | So they are distinct for any hash function that is never 0 on retry strings. |
| InstanceHash.ZeroRetryCollides | polaris/model/model.cpp:275-278 | Two instances that keep equal hashes otherwise. |
| LocalIds.LocalIdsDiffer | polaris/model/model.cpp:658-664 | Two local ids are equal exactly if service and counter, cut to 32 bits, are. |
| LocalIds.NeverReused | polaris/model/model.cpp:654-678 | Until the counter wraps, no local id is given to two different instances in any updates. |
| LocalIds.KeepsItsId | polaris/model/model.cpp:663-677 | An instance that occurs once in an update keeps its local id in the next. |
| LocalIds.KnownExactly | polaris/model/model.cpp:656-677 | After an update exactly its instances are known; others are forgotten. |
| LocalIds.NewGetsNext | polaris/model/model.cpp:663-664 | An instance that is not known gets the number after the last one given. |
| LocalIds.ServiceImpl.UpdateInstanceId | polaris/model/model.cpp:654-678 | The ids given and the new map, for instances and isolated instances in turn. |

## Left out

- `GetAllValuesWithRef` of `RcuMap`; `used_time_`, `CheckExpired`, `GetAllValues` and `GetAllData` of `RcuUnorderedMap`: they do not take part in reclamation.
- `RcuMap::Get` outside an RCU section, which takes a reference of its own: the protocol covers lookups inside a section.
- The effects of the individual memory orders: steps are sequentially consistent.
- The destructor of `RcuUnorderedMap`.
- Other owners of a value of an `RcuUnorderedMap`: a value counts as freed when the map gives up its shared pointer to it.
- `LruHashMap` used by several threads, its destructor and `GetAllValuesWithRef`; of the references, the runs count those held by the map.
- The loops of `ClearCache` over registered caches: each one calls the `CheckGc` that is modelled.
- The race of a window roll inside `GetToken` with other calls: the concurrent quota claim stays within one window.
- Refreshes on the expired branch are part of the bucket classes, not of the ledger runs, which they reset on purpose.
- `FAILOVER_PASS` in the concurrent quota claim: it grants without quota by design; `Allocate` models it.
- `UpdateLimitAmount`: two assignments.
- 64-bit overflow of quota counters and times.
- `QuotaLedger` follows the longest window only: in shorter windows the rollback leaves the unreported amount too large.
- The request counter of half-open probing under concurrency: it is part of the class, not of the runs.
- Memory of drained slices: a released slice is dropped from the model, not freed.
- `Slice::Create` from data, `CheckLength` and the null check of the first slice in `Buffer::Commit`.
- The 64-bit width of instance hashes: the search would need 2^64 instances to run out.
- `HandleHashConflict`'s retry strings: their ten hashes are given with each instance, so nothing about the hash function or the 128-byte limit of the string enters.
- Networking, the reactor, configuration, protobuf conversion, metrics, plugins and the C interface.
