# Transaction-processing protocols over a small key-value store

This project models the core of a set of concurrency-control benchmarks. In each
benchmark, worker threads run transactions over an array of `NUM_DATA` integer records.
A transaction is a list of steps `(key, READ | WRITE)`. The two families treat a READ
step differently:
- In Silo and 2PL, the record is read once per key, and every READ step of the key
  adds one to the value the transaction holds. Two READs of a key give the record's
  value plus 2.
- In OCC, every READ step copies the record into the value the transaction holds, and
  a later loop adds one per READ step. Without interference, two READs of a key give
  the record's value plus 2.
- In both MVTO variants, each READ step reads the record and overwrites the held value
  with that reading plus one. Two READs of a key not yet written give the reading plus 1.

In MVTO, Silo and 2PL a WRITE step stores the held value, or 0 for a key the transaction
has not read. In OCC a key that is only written stores whatever the transaction's
`values` array holds for it: memory left uninitialised by `malloc`, or what an earlier
attempt left there. The protocols modelled are:

- **MVTO**, multi-version timestamp ordering, in two variants:
  - `MvtoList` and `MvtoWorker` model the C++ variant. Each record has a version
    chain sorted newest first and a list of read marks (`rd_ts`, `tx_ts`). A timestamp
    generator keeps the active timestamps in a list and triggers garbage collection
    when the oldest active timestamp moves far enough ahead.
  - `MvtoHash` models the Ruby variant. Each record keeps a hash from version to value
    and a hash from version to the highest reader (`max_tid`). `InvokeTid` plays the
    role of the timestamp generator.
- **OCC** (`Occ`): backward-oriented optimistic concurrency control validates against a
  commit log. The forward-oriented build validates against an active set kept as an
  array.
- **Silo-style OCC** in two variants:
  - `SiloLatch`: a boolean compare-and-swap latch per record;
  - `SiloMutex`: a mutex plus a `locked` flag per record.
- **Strict 2PL** (`TwoPL`): a reader-writer lock per record.

`Common` holds what all of them share:
- the step list;
- the per-key `TYPE` bitmask, written here as `Access(read, write)`;
- the modify loop;
- the removal of one entry from a list.

**How the model is built.**
- Records that the source updates in place are arrays: `array<Record>`, or
  `array<DataItem>` of objects.
- The C++ `DataItem`, `TimeStampGenerator`, the Ruby `DataItem`/`InvokeTID` and the OCC
  shared state are classes, with their lists and hashes as `seq`/`map` fields.
- Each loop of the source is a method whose postcondition ties its result to a
  specification function. The properties of those functions are lemmas.

**Blocking and retries.**
- A lock that would block (the spin latch, `pthread_mutex_lock`,
  `pthread_rwlock_*lock`) is modelled by a single attempt, `TryLock`. A phase stops at
  the first lock it cannot take and reports that key as `Blocked(k)`, with the locks
  taken so far still held.
- Each pass from the `retry` label, or each Ruby `begin` block, is one method
  (`RunAttempt`, `RunTransaction`, `RunBackward`, `RunForward`). The retry loop around
  it belongs to the caller.

**Garbage collection in MVTO.**
- The C++ collection deletes every version strictly between 0 and the level.
- The Ruby collection deletes those versions too, except the newest version of the item
  (`@max_version`).
- Both therefore delete the newest version below the level, unless in Ruby it is the
  newest version overall. A reader at or above the level can then fall back to the
  version-0 value.
- `MvtoList.GcDropsFloor` and `MvtoHash.GcDropsFloor` show such a read.
- `MvtoList.GcKeepsRead` and `MvtoHash.GcKeepsRead` state when a read is unaffected.
- The C++ threshold for collection is a gap of 10 (`MvtoWorker.GcDistance`); the Ruby
  one is 100 (`MvtoHash.GcDistance`).

## Model

| member | source | states |
|---|---|---|
| Common.KindBit | twopl/ex1.c:20 | READ and WRITE are two distinct bits of the mask: a step kind sets exactly its own bit |
| Common.AccessOf | silo/ex2.c:119-122 | the OR of a transaction's step kinds on a key has the READ bit iff some step reads the key, and the WRITE bit iff some step writes it |
| Common.MvtoKeyRun | mvto/ex1.cpp:260-269 | the per-key account of an MVTO attempt, the value each READ holds and each WRITE stores, has a held value iff some step reads the key and a last write iff some step writes it |
| Common.ReadCount | twopl/ex1.c:84-89 | the number of READ steps on a key is at most the number of steps, and is zero iff the key's mask lacks the READ bit |
| Common.AccessSet | silo/ex2.c:113-122 | starting from all-NONE masks, the OR loop yields, for every key, exactly the access `AccessOf` describes. `TwoPL.RunTransaction` computes its masks with it; the Silo attempts take the masks computed before `retry` as an argument |
| Common.ApplyReads | twopl/ex1.c:84-89 | the modify loop adds to each key's value the number of READ steps on it, and changes nothing else |
| Common.RemoveFirstCounts | occ/ex1.c:72-84 | removing the first occurrence of an item: a list without the item is unchanged; otherwise the list shrinks by one, and exactly one copy of the item leaves the multiset |
| Common.RemoveAppended | occ/ex1.c:147-148 | an entry appended to a list that did not contain it is the one removed, which restores the list |
| Common.RemoveFirstAscending | mvto/ex1.cpp:204-207 | erasing a timestamp from an ascending list keeps it ascending and removes exactly that timestamp |
| MvtoList.ScanIndex | mvto/ex1.cpp:100-106 | the newest-first scan stops at the first version not above the timestamp; every version before it is newer |
| MvtoList.VisibleIsLatest | mvto/ex1.cpp:77-107 | on a well-formed chain, `read(ts)` returns the value of the greatest version not above `ts`: the head when `ts` is at least the head version, else the scan's answer |
| MvtoList.MarkedDescending | mvto/ex1.cpp:86-97 | recording a read keeps the marks strictly descending by `rd_ts` |
| MvtoList.MarkedContents | mvto/ex1.cpp:86-97 | recording a read gives an existing mark for the version a `tx_ts` raised to the maximum of the old value and the reader's timestamp. Otherwise a mark (version, timestamp) is added. Marks for other versions are kept, and no other mark appears |
| MvtoList.InstallKeeps | mvto/ex1.cpp:122-135 | a write keeps every version with another timestamp and adds nothing but `(ts, v)` |
| MvtoList.InstallNegative | mvto/ex1.cpp:122-135 | a negative timestamp finds no place in the chain, so the chain is unchanged |
| MvtoList.ConsDescending | mvto/ex1.cpp:129-133 | an entry newer than every entry of a descending chain can be inserted in front of it |
| MvtoList.InstallChainOk | mvto/ex1.cpp:122-135 | a write with a timestamp of at least 0 keeps the chain strictly descending and ending at the version-0 baseline |
| MvtoList.InstallAdds | mvto/ex1.cpp:122-135 | after a write with a timestamp of at least 0, the chain holds `(ts, v)`, whether it overwrote an existing version or inserted a new one |
| MvtoList.InstallSpec | mvto/ex1.cpp:122-135 | the write summary: a well-formed result holding `(ts, v)`, all other versions kept, and no effect for a negative timestamp |
| MvtoList.ReadOwnWrite | mvto/ex1.cpp:99-135 | after `write(ts, v)`, `read(ts)` returns `v` |
| MvtoList.GcChainSpec | mvto/ex1.cpp:141-150 | garbage collection keeps the chain well-formed and removes exactly the versions strictly between 0 and the level |
| MvtoList.GcChainIdempotent | mvto/ex1.cpp:141-150 | collecting the chain twice at the same level equals collecting it once |
| MvtoList.GcMarksSpec | mvto/ex1.cpp:151-155 | popping from the back removes exactly the marks with `rd_ts` below the level and keeps them descending |
| MvtoList.GcMarksIdempotent | mvto/ex1.cpp:151-155 | collecting the marks twice at the same level equals collecting them once |
| MvtoList.GcKeepsRead | mvto/ex1.cpp:139-156 | a read whose visible version is the baseline or at least the level returns the same value after collection |
| MvtoList.GcDropsFloor | mvto/ex1.cpp:141-150 | with chain (5, 0), a read at 12 sees version 5. After collection at level 10, it sees the baseline |
| MvtoList.RecordMark | mvto/ex1.cpp:86-97 | the mark-recording loop computes `Marked` |
| MvtoList.ScanChain | mvto/ex1.cpp:100-106 | the scan returns the value at `ScanIndex`, or the head value it started from when no version qualifies |
| MvtoList.FindBlocker | mvto/ex1.cpp:114-121 | the conflict loop answers true iff some mark has `rd_ts < ts < tx_ts` |
| MvtoList.InstallVersion | mvto/ex1.cpp:122-135 | the install loop computes `Install` |
| MvtoList.CollectChain | mvto/ex1.cpp:141-150 | the erase loop computes `GcChain`, whose properties `GcChainSpec` states |
| MvtoList.CollectMarks | mvto/ex1.cpp:151-155 | the pop loop computes `GcMarks`: the descending marks with `rd_ts` at least the level |
| MvtoList.DataItem.constructor | mvto/ex1.cpp:74-75 | a new item holds only version 0 with the given value and no marks |
| MvtoList.DataItem.Read | mvto/ex1.cpp:77-109 | returns the visible value and leaves the chain alone. It records the read in the marks exactly when `ts` exceeds the head version plus one |
| MvtoList.DataItem.Write | mvto/ex1.cpp:111-137 | answers false and changes nothing iff a mark straddles `ts`. Otherwise it installs `(ts, v)`, and the marks are unchanged either way |
| MvtoList.DataItem.Gc | mvto/ex1.cpp:139-156 | replaces the chain and the marks by their collected forms, keeping the item well-formed |
| MvtoWorker.GcLevelIsOldestActive | mvto/ex1.cpp:197-212 | when the ending timestamp is the oldest and collection triggers: the list loses its head; the level is the new oldest active timestamp, at most every remaining one; and the level exceeds the ending timestamp by more than 10 |
| MvtoWorker.TimeStampGenerator.constructor | mvto/ex1.cpp:173-177 | the counter starts at 1, with an empty list and no collections |
| MvtoWorker.TimeStampGenerator.GetTimestamp | mvto/ex1.cpp:184-191 | returns the counter, which then moves up by one. The timestamp is new, above every active one, and appended to the list, so the list stays ascending |
| MvtoWorker.TimeStampGenerator.Retire | mvto/ex1.cpp:194-211 | the ending timestamp leaves the list, and nothing else does. The level returned is the new head when the ending timestamp was the head and the gap exceeds 10, and 0 otherwise |
| MvtoWorker.EndList | mvto/ex1.cpp:194-211 | the running list without the first occurrence of the ending timestamp (`RemoveFirst`), and the level: the new head when the timestamp was the head and the gap exceeds 10, 0 otherwise |
| MvtoWorker.EraseFirst | mvto/ex1.cpp:204-209 | the search-and-erase loop removes exactly the first occurrence of the timestamp, and leaves the list unchanged when it is absent |
| MvtoWorker.TimeStampGenerator.TransactionEnd | mvto/ex1.cpp:193-221 | retires the timestamp. It counts a collection and collects every item at the level exactly when collection triggers; otherwise items are unchanged |
| MvtoWorker.CollectStore | mvto/ex1.cpp:217-219 | every item of the store is collected at the level and stays well-formed |
| MvtoWorker.DoStep | mvto/ex1.cpp:253-271 | one step of an attempt keeps every record well-formed |
| MvtoWorker.RunSteps | mvto/ex1.cpp:253-271 | the steps of an attempt, run in order until a write is rejected, keep every record well-formed |
| MvtoWorker.RunStopsAtReject | mvto/ex1.cpp:263-269 | once a write is rejected, later steps change nothing |
| MvtoWorker.RejectKeepsEarlierWrites | mvto/ex1.cpp:260-269 | a rejected attempt leaves the records exactly as the steps before the rejected write left them; earlier installed versions are not removed |
| MvtoWorker.RunLeavesOthers | mvto/ex1.cpp:253-271 | a record no step names is unchanged |
| MvtoWorker.RunReadsKeepChain | mvto/ex1.cpp:253-271 | a record the attempt only reads keeps its version chain |
| MvtoWorker.StepFollowsKeyRules | mvto/ex1.cpp:260-269 | one step that is not rejected moves its record and the `values` entry as `MvtoKeyRun` does: a READ stores `read(ts) + 1`, a WRITE makes `read(ts)` return the stored value, other keys are unchanged |
| MvtoWorker.RunFollowsKeyRules | mvto/ex1.cpp:253-271 | along an attempt that is not rejected, each key's `values` entry and what `read(ts)` returns follow `MvtoKeyRun` from the value visible before the attempt |
| MvtoWorker.RunInstallsVersion | mvto/ex1.cpp:260-270 | when the attempt is not rejected, every written key holds a version at the attempt's timestamp, and `read(ts)` returns the value the attempt's last write of the key stored |
| MvtoWorker.ExecuteStep | mvto/ex1.cpp:254-270 | the store and the `values` map after one step are those `DoStep` describes |
| MvtoWorker.ExecuteSteps | mvto/ex1.cpp:253-271 | the store, the `values` map and the success flag after the step loop are those `RunSteps` describes |
| MvtoWorker.RunAttempt | mvto/ex1.cpp:248-272 | one attempt takes a fresh timestamp and runs the steps as `RunSteps` describes. It commits iff no write is rejected. It ends with its timestamp retired, which leaves the active list as it was |
| MvtoHash.Floor | mvto/mvto.rb:49-56 | the greatest version key not above `tid`, or 0 when none is positive and in range |
| MvtoHash.FloorKey | mvto/mvto.rb:46-56 | the key loop finds that floor version |
| MvtoHash.Raised | mvto/mvto.rb:38-43 | the recorded highest reader of a version becomes `tid` when absent or lower, and stays otherwise |
| MvtoHash.FindBlocker | mvto/mvto.rb:68-72 | the loop answers true iff some recorded `(v, tid)` has `v < version < tid` |
| MvtoHash.CollectVersions | mvto/mvto.rb:87-93 | the deletion loop removes exactly those versions from both hashes |
| MvtoHash.DoomedSpares | mvto/mvto.rb:87-93 | collection never deletes version 0 or `max_version`, and a second collection at the same level deletes nothing |
| MvtoHash.GcKeepsRead | mvto/mvto.rb:82-95 | a read whose floor version is not deleted returns the same version after collection |
| MvtoHash.GcDropsFloor | mvto/mvto.rb:82-95 | with versions {0, 5, 20} and `max_version` 20, a read at 12 sees version 5. Collection at level 10 deletes version 5, after which that read sees version 0 |
| MvtoHash.DataItem.constructor | mvto/mvto.rb:21-27 | a new item has `max_version` 0, the single version 0 with value 0, and no readers |
| MvtoHash.DataItem.Read | mvto/mvto.rb:31-65 | returns the value of the floor version. It raises the highest reader of `max_version` only when `tid` exceeds `max_version` plus one, and changes nothing else |
| MvtoHash.DataItem.Write | mvto/mvto.rb:67-80 | answers false and changes nothing iff a recorded reader straddles the version. Otherwise it stores the value and raises `max_version` to at least the version |
| MvtoHash.DataItem.Gc | mvto/mvto.rb:82-95 | removes exactly the doomed versions from both hashes and keeps `max_version` |
| MvtoHash.Without | mvto/mvto.rb:123 | `Array#delete` keeps exactly the other entries, and never lengthens the list |
| MvtoHash.WithoutAscending | mvto/mvto.rb:118-123 | deletion keeps an ascending list ascending. Deleting the head is `shift` |
| MvtoHash.NothingToDelete | mvto/mvto.rb:123 | deleting an absent entry leaves the list unchanged |
| MvtoHash.WithoutAppend | mvto/mvto.rb:123 | deletion distributes over concatenation |
| MvtoHash.EndNewest | mvto/mvto.rb:106-127 | ending a `tid` that was appended last and is above all others restores the list and never triggers collection |
| MvtoHash.InvokeTid.constructor | mvto/mvto.rb:100-104 | the counter starts at 0 with an empty list |
| MvtoHash.InvokeTid.Invoke | mvto/mvto.rb:106-112 | the new `tid` is the counter plus one. It is above every active `tid` and is appended |
| MvtoHash.InvokeTid.Retire | mvto/mvto.rb:114-127 | the `tid` leaves the list. Collection is due iff it was the head and the new head exceeds it by more than 100; the level is then that new head |
| MvtoHash.InvokeTid.EndTid | mvto/mvto.rb:114-133 | retires the `tid`, and collects every item at the new head exactly when collection is due |
| MvtoHash.CollectStore | mvto/mvto.rb:129-131 | every item of the store is collected at the level |
| MvtoHash.DoStep | mvto/mvto.rb:154-168 | one step keeps every record well-formed |
| MvtoHash.RunSteps | mvto/mvto.rb:154-168 | the step loop, stopping at the first rejected write, keeps every record well-formed |
| MvtoHash.RunStopsAtReject | mvto/mvto.rb:161-164 | once a write is rejected, later steps change nothing |
| MvtoHash.RunInstallsVersion | mvto/mvto.rb:161-164 | when no write is rejected, every written key holds a version at the transaction's `tid`, and its `max_version` is at least that `tid` |
| MvtoHash.FloorAtKey | mvto/mvto.rb:49-56 | a read at an id that is itself a version key (and not negative) answers from that version |
| MvtoHash.StepFollowsKeyRules | mvto/mvto.rb:156-167 | one step that does not raise `Abort` moves its record and `@ds` as `MvtoKeyRun` does: `:r` stores `read(tid) + 1`, `:w` makes `read(tid)` return the written value, other keys are unchanged |
| MvtoHash.RunFollowsKeyRules | mvto/mvto.rb:154-168 | along a run that raises no `Abort`, each key's `@ds` entry and what `read(tid)` returns follow `MvtoKeyRun` from the value read before the run |
| MvtoHash.RunInstallsValue | mvto/mvto.rb:161-164 | when no write is rejected, version `tid` of every written key holds the value the transaction's last `:w` of it wrote, and `read(tid)` returns it |
| MvtoHash.ExecuteStep | mvto/mvto.rb:156-167 | the store and `@ds` after one step are those `DoStep` describes |
| MvtoHash.ExecuteSteps | mvto/mvto.rb:154-168 | the store, `@ds` and the outcome after the step loop are those `RunSteps` describes |
| MvtoHash.RunAttempt | mvto/mvto.rb:150-179 | one pass of `run` takes a fresh `tid` and runs the steps as `RunSteps` describes. It commits iff no write is rejected, and ends with the `tid` retired, which leaves the list as it was |
| Occ.DeleteFromSet | occ/ex1.c:72-84 | removes the first occurrence of the item and shifts the rest left. The count drops by one iff the item was present, and slots past the new count keep their contents |
| Occ.FindSlot | occ/ex1.c:74-80 | the search loop stops at the index of the first occurrence of the item among the first `n` slots, or at `n` when it is absent |
| Occ.ShiftLeft | occ/ex1.c:81-83 | the shift loop moves each slot in the range one place left, and leaves every other slot alone |
| Occ.ScanKeys | occ/ex1.c:199-209 | the key loop finds a conflict iff the other transaction writes a key this one reads (or, in the forward rule, touches) |
| Occ.Store.constructor | occ/ex1.c:45-55 | the records hold the initial values; the commit log and the active set start empty |
| Occ.Store.ReadPhase | occ/ex1.c:123-131 | notes the log position. It ORs each step kind into the masks and copies the record for every key some step reads; other values are kept |
| Occ.Store.ValidateBackward | occ/ex1.c:197-210 | passes iff no transaction committed since the start writes a key this one reads |
| Occ.Store.Commit | occ/ex1.c:221-238 | every key with the WRITE bit takes the transaction's value, others keep theirs. The masks are appended to the log, whose length moves up by one |
| Occ.Store.Enter | occ/ex1.c:142-149 | snapshots the active set and the log position, then appends the transaction to the active set |
| Occ.Store.ValidateForward | occ/ex1.c:151-178 | passes iff the committed window has no read conflict and no transaction active at entry writes a key this one touches. On failure the transaction leaves the active set |
| Occ.Store.Leave | occ/ex1.c:232-235 | the transaction is deleted from the active set |
| Occ.Store.RunBackward | occ/ex1.c:121-238 | an attempt without interference commits. Each written key that is also read gets the value read plus its READ steps; a key only written gets the `values` entry the attempt started with. The masks are appended to the log |
| Occ.Store.RunForward | occ/ex1.c:141-238 | commits iff no transaction active at entry writes a key it touches. On commit each written key gets its value; either way the active set ends as it began. On commit the masks are appended to the log, otherwise the log is unchanged |
| Occ.Store.ClearWindowKeepsReads | occ/ex1.c:197-210 | when no commit in the window writes a key the transaction reads, every such key still holds the value it had at the window's start |
| SiloLatch.TryLock | silo/ex2.c:77-89 | the compare-and-swap succeeds iff the latch was clear, and then sets it; otherwise nothing changes |
| SiloLatch.Unlock | silo/ex2.c:91-93 | the latch is cleared and nothing else changes |
| SiloLatch.ReadPhase | silo/ex2.c:126-132 | records `val` and `tid` for every key with the READ bit; the other entries keep their reset value |
| SiloLatch.LockWriteSet | silo/ex2.c:141-147 | latches exactly the write-set keys from the starting key up to the returned key, and no other record changes. It stops at the first write key whose latch is already held; the latches taken were all clear |
| SiloLatch.Validate | silo/ex2.c:150-152 | passes iff no read key's TID differs from the recorded one and no key with type exactly READ is latched |
| SiloLatch.ValidatesIffUnobstructed | silo/ex2.c:140-152 | once every write key has been latched and the read TIDs taken from the same records, validation passes iff no touched key was latched at the start, and no write key was |
| SiloLatch.UnlockWriteSet | silo/ex2.c:168-172 | every write-set latch is cleared and nothing else changes |
| SiloLatch.CommitTid | silo/ex2.c:178-186 | the commit TID is one more than the greatest TID over the touched keys. It is at least 1, above every touched TID, and the least such number |
| SiloLatch.WritePhase | silo/ex2.c:195-206 | every write-set record gets `val[k]`, the commit TID and a clear latch; the others are unchanged |
| SiloLatch.RunAttempt | silo/ex2.c:124-206 | it commits iff no touched key is latched at the start; it blocks iff some write key is latched, and then at the first one; otherwise it aborts. An abort leaves the store exactly as it was. A block leaves the earlier write keys latched. A commit installs the read value plus the READ steps (0 for write-only keys), with a TID above every touched TID |
| SiloMutex.TryLock | silo/ex1.c:59-64 | the mutex is taken and the flag raised iff the mutex was free; otherwise nothing changes |
| SiloMutex.Unlock | silo/ex1.c:66-70 | the flag is lowered and the mutex released |
| SiloMutex.LockAndRead | silo/ex1.c:101-115 | in ascending order, locks each write key and records each read key's value and TID. It folds the read TIDs into the running maximum, and stops at a mutex already held |
| SiloMutex.Validate | silo/ex1.c:126-128 | passes iff no read key's TID changed and no key with type exactly READ has its flag raised |
| SiloMutex.ValidatesIffUnobstructed | silo/ex1.c:100-128 | once every write key has been locked and the read TIDs taken from the same records, validation passes iff no write key's mutex was held and no read-only key's flag was raised at the start |
| SiloMutex.UnlockWriteSet | silo/ex1.c:130-134 | every write-set record is unlocked and nothing else changes |
| SiloMutex.CommitTid | silo/ex1.c:140-146 | raises the read maximum to every write key's TID and adds one. The result is above both, and the least such number |
| SiloMutex.WritePhase | silo/ex1.c:157-167 | every write-set record gets `val[k]` and the commit TID and is unlocked; the others are unchanged |
| SiloMutex.RunAttempt | silo/ex1.c:98-167 | every record keeps its flag under its mutex. It commits iff no write key's mutex is held and no read-only key's flag is raised at the start; it blocks iff some write key's mutex is held, and then at the first one; otherwise it aborts. An abort leaves the store as it was. A commit installs the read value plus the READ steps (0 for write-only keys), with a TID above every touched TID |
| TwoPL.ModeFor | twopl/ex1.c:69-78 | the lock mode is exclusive iff the key has the WRITE bit, shared iff its type is exactly READ, and none iff untouched |
| TwoPL.ReleaseUndoesAcquire | twopl/ex1.c:69-97 | a granted lock is held in its mode, keeps a writer exclusive of readers, and is restored by one unlock |
| TwoPL.TryLock | twopl/ex1.c:69-78 | the lock is granted iff its state allows the mode; then the writer flag or the reader count is taken. Otherwise nothing changes |
| TwoPL.Unlock | twopl/ex1.c:96-98 | releases the writer if there is one, else one reader |
| TwoPL.GrowingShape | twopl/ex1.c:68-82 | the growing phase only locks and reads, keys within its range, in ascending key order |
| TwoPL.GrowingLoads | twopl/ex1.c:68-82 | the growing phase reads each key right after requesting that key's lock in its mode, and reads only keys with the READ bit |
| TwoPL.GrowingLocks | twopl/ex1.c:68-82 | the growing phase locks exactly the touched keys |
| TwoPL.ShrinkingShape | twopl/ex1.c:92-100 | the shrinking phase only writes and unlocks, keys within its range |
| TwoPL.ShrinkingStores | twopl/ex1.c:92-100 | the shrinking phase writes only keys with the WRITE bit, each right before unlocking it |
| TwoPL.ShrinkingFrees | twopl/ex1.c:92-100 | the shrinking phase unlocks exactly the touched keys |
| TwoPL.LocksBeforeFrees | twopl/ex1.c:68-100 | in a transaction's whole trace, every lock request comes before every unlock |
| TwoPL.FreesMatchLocks | twopl/ex1.c:68-100 | a key is unlocked in the shrinking phase iff it was locked in the growing phase |
| TwoPL.Growing | twopl/ex1.c:68-82 | locks each touched key in its mode and reads each read key, with the trace `GrowEvents`. It stops at a lock that cannot be granted; every lock it took was grantable |
| TwoPL.Shrinking | twopl/ex1.c:92-100 | writes `values[k]` to each write key and unlocks each touched key, with the trace `ShrinkEvents` |
| TwoPL.RunTransaction | twopl/ex1.c:57-100 | the read/write set is `AccessOf` for every key. It commits iff every lock it asks for can be granted, and otherwise blocks at the first that cannot, with all earlier ones grantable. A committed transaction leaves every lock as it found it and gives each write key the read value plus its READ steps (0 for write-only keys). Its trace is growing then shrinking. A blocked one holds the locks of the keys before the block |

## Left out

- Threads: creation, joining and scheduling are not modelled. The claims are about one
  transaction running against the store as it finds it, not about interleavings or
  serializability. The lock-free accesses of the C++ `read` and of the OCC forward
  build are therefore not modelled as races. The same goes for Ruby's unsynchronised
  reads of its hashes.
- Blocking: waiting on a latch, mutex or reader-writer lock is a `Blocked(k)` outcome;
  resuming after the wait is left to the caller. `SiloLatch.LockWriteSet`,
  `SiloMutex.LockAndRead` and `TwoPL.Growing` take a start key for that. Reader-writer
  lock fairness (a reader queued behind a waiting writer) is not modelled.
- Retry loops: each `goto retry` pass and each Ruby `retry` is one method. The
  unbounded loop around it and the abort counters are not modelled.
- Timing and output: `usleep` backoff, timers, throughput figures, printing, `DEBUG`
  dumps, the `n_retry` report and the Ruby `puts` are left out.
- Workload: the random generation of step lists in each `main` is left out; step lists
  are inputs.
- Memory: the `malloc` of OCC's per-transaction arrays is left out. They are allocated
  once per transaction, before the `retry` label, so their contents carry over from one
  attempt to the next. `Occ.Store.ReadPhase` therefore takes the masks and values of the
  previous attempt as arguments. A write-only key's value is whatever the caller passes
  in `values`, standing for the uninitialised contents.
- Compiled-out code: the `SECOND_ALGORITHM` pre-check of OCC is compiled out by default
  and is left out.
- Integer width: integers are unbounded. Overflow of the C `int` timestamps, TIDs and
  counters is not modelled.
- Ruby exceptions: the `raise` on a missing value in `read` cannot happen on
  well-formed items, which keep version 0. The `raise` on a nil `tid` in `gc` cannot
  happen either, because `end_tid` calls `gc` only when the new head `tid1` is not nil.
  `MvtoHash.DataItem.Gc` therefore takes an `int`.
- MvtoList.DataItem.Read: requires a non-empty chain, which every item keeps; the
  source's `begin()` on an empty list is undefined.
- MvtoWorker.RunAttempt: states the attempt on its own, where retiring its timestamp
  never triggers collection; collection driven by other threads' timestamps is stated
  by `TransactionEnd`.
- Occ.Store.RunBackward: states the attempt without interference, so its validation
  window is empty; the failing case is stated by `ValidateBackward` and
  `ClearWindowKeepsReads`.
- Occ.Store.RunForward: states the attempt after its read phase and without
  interference, so `tid_start` (occ/ex1.c:124) equals `tid_global` at entry and its
  validation window is empty; the abort on a conflicting commit in that window is
  stated by `ValidateForward`. The other active transactions' masks are the `peer`
  argument, because the source reads them through shared pointers.
