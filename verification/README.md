# Preferences: a verified model of the storage and scheduling core

A model in Dafny of the native preferences library (`frameworks/native`): a key-value store that caches a
map, saves it as an XML file with a backup, keeps large stores in a kernel database, and runs its work on a
small task scheduler. `dafny verify dfyconfig.toml` checks the whole project.

- `xml_file.dfy`: the save and restore protocol over main, backup and broken file. Each file step may work,
  fail, or be cut short by a kill before or after it; a power failure may follow any kill, and a written file
  is sure to outlive one only after its fsync.
- `xml_values.dfy`, `crash_safe_map.dfy`: values and maps as XML elements and back, and both halves together.
- `scheduler.dfy`, `scheduled_tasks.dfy`, `executions.dfy`: the handshake of Schedule, the executor thread and
  the pool as a transition system, one transition between any two points where another thread may run, with the
  three locks; and which task runs how often.
- `priority_queue.dfy`, `task_runs.dfy`: the timed queue as a class over a multimap, an index and a running
  set, and what whole runs of it guarantee.
- `pool.dfy`: the two doubly linked lists on the heap, and the lists of executors they stand for.
- `write_back_cache.dfy`, `cache_runs.dfy`, `notification.dfy`: the cache with its lock-free Clear, its marked
  keys, late loading and flush token; whole runs of any number of threads; and who is told of a write.
- `parcel.dfy`, `base64.dfy`, `bits.dfy`: the binary encoding of values and Base64.
- `large_cache.dfy`: the cache of large values in front of the kernel store.
- `values.dfy`, `options.dfy`: the values of a store, and the usual option type.

Two patterns recur. A method that changes state ensures a *promise*, a predicate over the state before and
after for every outcome of its environment; the lemmas about whole runs then quantify over all sequences of
states linked by those promises. And where the code does not do what its users rely on in every case, a lemma
says exactly when it does, or shows a run in which it does not.

Assumptions. One process uses the files and the database. File renames are atomic; a torn or empty file does
not parse, an intact one can be read, except that an intact main file may be locked for a while; each file that
is not synced is, on its own, torn by a power failure or turns out to be on disk. In the runs of `XmlFile` a
process reads the store before it saves; what a flush does that comes first is in `CacheRuns`. Whatever else may
fail is a fate of the model; which fates the protocol does not bear is what `XmlFile.Bearable` says, and
`GuaranteeIsExact` proves that it says it exactly. The write-back cache saves and reads its map by the promises
of `XmlFile`, in a process that is not killed; a file it wrote is taken to hold the map that was handed to the
write, which `MapRoundTrip` says exactly when it does. libxml2 gives back the elements, attributes and C strings
it was given. Clocks, lock fairness, thread creation and the outcome of foreign calls are parameters. `bool`
reads of a byte other than 0 or 1 are true.

The comments of `executor_pool.h` and the README of the repository promise nothing that contradicts the code;
the name of `HasKey` in `preferences_enhance_impl.cpp` does: it answers true for a large blob that cannot be
decoded, and the model follows it.

## Model

| member | source | states |
|---|---|---|
| `XmlFile.RunKeepsTheDocument` | frameworks/native/src/preferences_xml_utils.cpp:463-575 | in every run of saves, failed saves, restarts, kills at any file step and power failures whose steps are all bearable, every reachable disk recovers to the committed document, or between a kill and the end of the next restart to the one in flight; while a process runs, to the committed one |
| `XmlFile.GuaranteeIsExact` | frameworks/native/src/preferences_xml_utils.cpp:463-575 | in every run whatsoever the guarantee holds at every moment exactly when all steps are bearable: no save renames a torn main file over a readable backup and then gets nothing into the file, no restart gives up on a readable file, and no power failure, which may tear each unsynced file or not, tears a committed document that is at risk and leaves no backup with it or the one in flight; at risk is one whose fsync failed, or that a restart read after a kill between write and fsync |
| `XmlFile.UnbearableStep` | frameworks/native/src/preferences_xml_utils.cpp:772-800 | each of those three faults ends the guarantee at once |
| `XmlFile.PowerFailuresAreBearable` | frameworks/native/src/preferences_xml_utils.cpp:772-800 | if no fsync fails, restarts answer, no save starts on an exposed disk and a process killed between write and fsync is killed by a power failure, all steps are bearable, wherever the power fails |
| `XmlFile.KilledBeforeFsync` | frameworks/native/src/preferences_xml_utils.cpp:787-799 | a process killed between write and fsync, a restart, the next save and a power failure leave nothing, although a save had completed and no step failed |
| `XmlFile.RestartReadsTheDocument` | frameworks/native/src/preferences_xml_utils.cpp:526-575 | every completed restart of every such run returns the committed document or the one a kill interrupted |
| `XmlFile.NeverOlderNeverNothing` | frameworks/native/src/preferences_xml_utils.cpp:772-800 | once a save has completed, no restart of such a run returns nothing, a document that was rolled back, or one of a save older than the last completed one |
| `XmlFile.StepKeepsTheDocument` | frameworks/native/src/preferences_xml_utils.cpp:741-800 | one bearable operation keeps the link between the committed document, the one in flight, the recoverable one and what is synced |
| `XmlFile.Store.SaveXmlFile` | frameworks/native/src/preferences_xml_utils.cpp:772-800 | for every fate of every file step the three files afterwards: a save that returns true leaves its document as the main file, one that returns false rolls back and keeps the file it could not write as the broken one, one that is killed leaves the old or the new document, synced or not according to the step it reached |
| `XmlFile.Store.ReportSaveFileFault` | frameworks/native/src/preferences_xml_utils.cpp:741-770 | the three files after the rollback of a save that could not open or write: the backup stays recoverable, the torn file becomes the broken one, and the backup is exposed exactly if that file could be neither moved away nor replaced |
| `XmlFile.Store.RenameFromBackupFile` | frameworks/native/src/preferences_xml_utils.cpp:463-504 | a readable backup becomes the main file, an unreadable one is removed, nothing else changes, also around a kill |
| `XmlFile.Store.RenameToBrokenFile` | frameworks/native/src/preferences_xml_utils.cpp:506-524 | the main file becomes the broken file, or nothing happens |
| `XmlFile.Store.XmlReadFile` | frameworks/native/src/preferences_xml_utils.cpp:526-575 | a read never changes what is recoverable, and returns it exactly if the main file can be read, the backup cannot, or no errno and no rename stops the restoring; a corrupt main file becomes the broken file exactly if no errno stops the read and the rename takes effect, and a backup that is restored is gone |
| `XmlFile.BrokenFileIsKept` | frameworks/native/src/preferences_xml_utils.cpp:506-524 | in every run there is a broken file exactly if some read or rollback has moved a corrupt file away, whatever fails or is torn later |
| `XmlFile.RollbackLosesOnlyExposedBackup` | frameworks/native/src/preferences_xml_utils.cpp:779-781 | a failed save keeps the recoverable document exactly when the first rename did not overwrite a readable backup with a torn file |
| `XmlFile.CompletedSaveIsDurable` | frameworks/native/src/preferences_xml_utils.cpp:794-799 | a completed save outlives a power failure exactly when fsync worked, or the failure does not tear the file, or it leaves a backup that could not be removed and holds the same document |
| `CrashSafeMap.RestartReadsAMapThatWasSaved` | frameworks/native/src/preferences_xml_utils.cpp:526-611 | after any bearable kill or power failure a restart reads, as a map, what was handed to the last completed save or to a later one that was not rolled back |
| `XmlValues.Visit` | frameworks/native/src/preferences_xml_utils.cpp:52-180 | the visitor holds the type tag and the texts of the value, the arrays by their loops |
| `XmlValues.WriteXmlElement` | frameworks/native/src/preferences_xml_utils.cpp:802-842 | the element of a value: text content, value attribute or children, cut at the first NUL; nothing for a value without a type |
| `XmlValues.WriteSettingXml` | frameworks/native/src/preferences_xml_utils.cpp:844-882 | the elements of the map, in the order the map is walked |
| `XmlValues.ParseNodeElement` | frameworks/native/src/preferences_xml_utils.cpp:614-705 | elements of known names are accepted with their key, text or value, the others and incomplete ones rejected |
| `XmlValues.ParseChildren` | frameworks/native/src/preferences_xml_utils.cpp:707-739 | an array element is accepted if all its children are |
| `XmlValues.ReadSettingXml` | frameworks/native/src/preferences_xml_utils.cpp:578-611 | elements are inserted up to the first that cannot be parsed; a key that is already there keeps its value |
| `XmlValues.ReadingExactly` | frameworks/native/src/preferences_xml_utils.cpp:578-611 | a document is read exactly if each of its elements can be parsed |
| `XmlValues.ParsedExactly` | frameworks/native/src/preferences_xml_utils.cpp:614-739 | the names that are known, what each of them needs, and that an array needs all its children |
| `XmlValues.ValuesExactly` | frameworks/native/src/preferences_xml_utils.cpp:367-398 | the names that give a value, and what a text that is no Base64 and an array without children give |
| `XmlValues.MapRoundTrip` | frameworks/native/src/preferences_xml_utils.cpp:578-882 | a map written and read is the same map, whatever the order of writing, exactly when no key contains a NUL and every value is faithful |
| `XmlValues.ReadingMerges` | frameworks/native/src/preferences_xml_utils.cpp:400-406 | reading any document into a non-empty map gives what it reads alone, below the bindings already there, and succeeds when it would alone |
| `XmlValues.MapIsMerged` | frameworks/native/src/preferences_xml_utils.cpp:400-406 | reading a written map into a non-empty one adds it below the bindings already there |
| `XmlValues.ElementBack` | frameworks/native/src/preferences_xml_utils.cpp:323-398 | each written element is parsed and converted to the value predicted, under its key up to a NUL |
| `XmlValues.FormatOfTexts` | frameworks/native/src/preferences_xml_utils.cpp:807-812 | the elements of strings, objects and byte arrays, by name, key and text |
| `XmlValues.FormatOfPrimitives` | frameworks/native/src/preferences_xml_utils.cpp:813-820 | those of numbers and bools, by name, key and value |
| `XmlValues.FormatOfArrays` | frameworks/native/src/preferences_xml_utils.cpp:821-839 | those of arrays, by name, key and children |
| `XmlValues.FormatOfBigInt` | frameworks/native/src/preferences_xml_utils.cpp:142-151 | the words of a BigInt and its sign are its children |
| `XmlValues.TextsOfValues` | frameworks/native/src/preferences_xml_utils.cpp:110-121 | the texts of true, false and numbers; a bool is true exactly if its text is true |
| `XmlValues.NumbersAreExtracted` | frameworks/native/src/preferences_xml_utils.cpp:332-336 | a stream skips white space and a plus sign, stops behind the digits, and finds 0 where there are none |
| `XmlValues.FaithfulExactly` | frameworks/native/src/preferences_xml_utils.cpp:323-398 | that value is the original exactly for NUL-free strings, byte arrays below 4 GiB and numbers whose text reads back |
| `XmlValues.BigIntBack` | frameworks/native/src/preferences_xml_utils.cpp:142-151 | a BigInt survives with its sign written as one more word, also without words or with a negative sign |
| `XmlValues.WordsAndSignBack` | frameworks/native/src/preferences_xml_utils.cpp:349-361 | the last word is taken off and truncated back to the sign, the others are the words |
| `XmlValues.IntBack` | frameworks/native/src/preferences_xml_utils.cpp:332-336 | the decimal text of any signed integer reads as it, or as the limit of its type that it exceeds |
| `XmlValues.WordBack` | frameworks/native/src/preferences_xml_utils.cpp:332-336 | that of any unsigned integer too, and a minus sign wraps it around |
| `XmlValues.FoldedKeys` | frameworks/native/src/preferences_xml_utils.cpp:400-406 | no key that is read contains a NUL, and a binding that was there stays |
| `XmlValues.FoldedValues` | frameworks/native/src/preferences_xml_utils.cpp:400-406 | a key that is read gets exactly the value of its own element |
| `Scheduler.NoStrandedTask` | frameworks/native/include/executor_pool.h:165-195 | if a task waits and no Schedule call is between its push and the end of its locked section, the scheduler exists, is attached to the queue and will look at it again; an executor about to be bound is not released |
| `Scheduler.SerialExecution` | frameworks/native/include/executor_pool.h:46-53 | a pool of at most one executor never has two alive although Get is forced, so no two tasks run together; a null scheduler means an empty busy list outside the idle callback |
| `Scheduler.HandshakeSteps` | frameworks/native/include/executor.h:79-126 | setting waits_ to null never erases a Bind, a Bind never reaches a released executor, and an executor that asks is released exactly if there is no scheduler, which is when it is idle |
| `Scheduler.SchedulerLockIsReleased` | frameworks/native/include/executor_pool.h:174-191 | although mtx_ and an executor's mutex are taken in both orders, in every reachable state the holder of mtx_, or the executor it waits for, has a step that brings its release closer |
| `Scheduler.NextKeepsInv` | frameworks/native/include/executor_pool.h:165-195 | every transition of every thread keeps the invariant of the handshake |
| `Scheduler.RunKeepsInv` | frameworks/native/include/executor.h:100-126 | every reachable state satisfies that invariant |
| `Scheduler.WorkKeepsInv` | frameworks/native/include/executor.h:108-114 | an attached executor stays attached while it pops, runs and finishes |
| `Scheduler.TestIdleKeepsInv` | frameworks/native/include/executor_pool.h:181-185 | the idle callback refuses while tasks wait, so a task pushed before the test is left to an attached executor |
| `Scheduler.ClearKeepsInv` | frameworks/native/include/executor_pool.h:185-186 | an idle callback that found no task waiting clears the scheduler while every later push has its Schedule call to come |
| `Scheduler.IdleKeepsInv` | frameworks/native/include/executor_pool.h:187-189 | the executor goes back to the pool and mtx_ is given up |
| `Scheduler.RestKeepsInv` | frameworks/native/include/executor.h:118-122 | a resting executor forgets the queue and times out, unless it is taken again meanwhile |
| `Scheduler.ReleaseKeepsInv` | frameworks/native/include/executor.h:123-123 | it is released only if it is idle, and otherwise waits for the Bind to come |
| `Scheduler.ScheduleKeepsInv` | frameworks/native/include/executor_pool.h:165-175 | a push leaves a Schedule call that still has to lock; other callers of the queue keep every task provided for |
| `Scheduler.ProvideKeepsInv` | frameworks/native/include/executor_pool.h:176-191 | a Schedule call that finds no scheduler takes one from the pool and binds it before it gives up mtx_ |
| `ScheduledTasks.ScheduledTaskStartsExactly` | frameworks/native/include/executor_pool.h:106-114 | a scheduled task that is left alone is taken by an executor exactly as often as its counter says over the whole run, once with zero interval |
| `Executions.ScheduledTaskIsCalledExactly` | frameworks/native/include/executor.h:108-114 | it is called once for each time it is taken, what is called is the function that was scheduled, and once it neither waits nor runs it has been called exactly as often as its counter says |
| `Executions.PoppedTaskIsCalledAndFinished` | frameworks/native/include/executor.h:109-113 | between a pop and the next Finish of an executor it calls the task it popped exactly once and no other, and that is the task it finishes |
| `Executions.HoldsPoppedTask` | frameworks/native/include/executor.h:109-113 | until then it holds that task, called or not |
| `Executions.RunningTasksAreExecuting` | frameworks/native/include/executor.h:108-114 | in every reachable state the running tasks are exactly those that an executor has popped and not finished, and there is at most one |
| `Executions.EveryScheduleCallLocksOnce` | frameworks/native/include/executor_pool.h:174-176 | every call of Schedule enters its locked section once |
| `Executions.WaitingTaskIsReached` | frameworks/native/include/executor.h:105-123 | while a task waits and no Schedule call is under way, the scheduler is at a pop, or has a step by itself that brings it closer to one |
| `Executions.DueTaskIsPopped` | frameworks/native/include/priority_queue.h:45-63 | at a pop the first of the waiting tasks can be popped exactly if it is due |
| `ScheduledTasks.SchedulerStepsTheQueue` | frameworks/native/include/executor.h:108-114 | every transition of the scheduler leaves the queue alone or is one queue operation |
| `ScheduledTasks.TaskIds.GenTaskId` | frameworks/native/include/executor_pool.h:197-204 | the next id, skipping the invalid one when the counter wraps |
| `ScheduledTasks.IdsAreDistinct` | frameworks/native/include/executor_pool.h:197-204 | no id comes twice within 2^64 - 2 calls, and none is the invalid one |
| `PriorityQueue.TaskQueue.Push` | frameworks/native/include/priority_queue.h:65-75 | a valid task is accepted; the index stays a bijection onto the waiting tasks, disjoint from the running ones, exactly when the id was in neither |
| `PriorityQueue.TaskQueue.TryPop` | frameworks/native/include/priority_queue.h:45-63 | one pass of Pop: never early, the least due time, first in first out among equal times, and the task moves from waiting to running |
| `PriorityQueue.TaskQueue.Size` | frameworks/native/include/priority_queue.h:77-81 | zero exactly when no task waits |
| `PriorityQueue.TaskQueue.Find` | frameworks/native/include/priority_queue.h:83-90 | the waiting task with this id, or the invalid task |
| `PriorityQueue.TaskQueue.Update` | frameworks/native/include/priority_queue.h:92-115 | a waiting task is rescheduled behind those due at the same time, a running one has its interval changed, an unknown one is reported |
| `PriorityQueue.TaskQueue.TryRemove` | frameworks/native/include/priority_queue.h:117-131 | blocks while the task runs and wait is set; otherwise takes it out of the waiting tasks, and after a wait it is in no set |
| `PriorityQueue.TaskQueue.Finish` | frameworks/native/include/priority_queue.h:141-154 | a running task stops running and waits again exactly when its timer repeats |
| `PriorityQueue.TaskQueue.Emplace` | frameworks/native/include/priority_queue.h:71-72 | multimap insertion keeps order, distinct nodes and the map of waiting tasks, exactly when the id is new |
| `PriorityQueue.TaskQueue.Erase` | frameworks/native/include/priority_queue.h:127-128 | erasing through an iterator removes exactly that task |
| `PriorityQueue.InsertAt` | frameworks/native/include/priority_queue.h:71-72 | the insertion position keeps the multimap ordered by due time and age |
| `PriorityQueue.FrontIsFirst` | frameworks/native/include/priority_queue.h:49-54 | the front of the multimap is the task due first and waiting longest |
| `TaskRuns.ExactRunCount` | frameworks/native/include/executor_pool.h:206-213 | in any run of the queue a task left alone is popped exactly as often as its counter allows, 2^64 times for a counter of 0 |
| `TaskRuns.TimerCountsDown` | frameworks/native/include/executor_pool.h:206-213 | a timer repeats exactly while more than one start remains, and takes one away |
| `TaskRuns.PopIsDueAndFirst` | frameworks/native/include/priority_queue.h:45-63 | in any run a popped task is due and has waited unchanged since exactly one insertion, by a push, a repeating timer or a reset; every other insertion that is due earlier, or at the same time but was made earlier, waits no longer |
| `TaskRuns.FirstExists` | frameworks/native/include/priority_queue.h:49-54 | while tasks wait one of them is the first |
| `TaskRuns.PopAnswersExactly` | frameworks/native/include/priority_queue.h:45-63 | a pop finds nothing exactly if no task waits, takes one exactly if one is due, and otherwise waits for the earliest due time |
| `TaskRuns.FinishReschedules` | frameworks/native/include/executor_pool.h:206-213 | a task that finishes with starts left waits for one interval from then with the same function, any other is gone, and no other task is touched |
| `TaskRuns.ResetReschedules` | frameworks/native/include/executor_pool.h:130-147 | a reset puts a waiting task off to one interval from now and changes the interval of a periodic task alone |
| `TaskRuns.PeriodicTaskKeepsItsInterval` | frameworks/native/include/priority_queue.h:141-154 | in any run a periodic task that is left alone is not popped before one interval has passed since it finished, and then with the same function |
| `TaskRuns.RemoveIsFinal` | frameworks/native/include/priority_queue.h:117-131 | after a removal that waited, the id is in no set and is never popped again without a new push |
| `TaskRuns.RemoveIsFinalExactly` | frameworks/native/include/priority_queue.h:117-154 | a removal that does not wait is final, over every continuation without a new push, exactly if the task is not running or in its last run |
| `TaskRuns.RemoveWithoutWaitIsNot` | frameworks/native/include/priority_queue.h:117-154 | a run in which it is not: the removed periodic task is put back and popped |
| `TaskRuns.EveryTaskHasOneFate` | frameworks/native/include/priority_queue.h:45-154 | until its id is pushed again, every accepted task waits, or runs, or has been ended by exactly one later event, and only one of these |
| `TaskRuns.EndedBeforePushedAgain` | frameworks/native/include/priority_queue.h:45-154 | a task whose id is pushed again has been finished for good or removed exactly once before |
| `TaskRuns.TasksAreConserved` | frameworks/native/include/priority_queue.h:45-154 | over the whole queue the accepted tasks are as many as those that wait, run or have ended |
| `Pool.ExecutorPool.Get` | frameworks/native/include/pool.h:28-51 | the front idle executor, or a new one when forced or below the capability, moves to the busy list; both lists stay well formed and disjoint and the counter is their length |
| `Pool.ExecutorPool.Release` | frameworks/native/include/pool.h:53-80 | removes an executor exactly if it is idle and the pool may shrink |
| `Pool.ExecutorPool.Idle` | frameworks/native/include/pool.h:82-107 | a busy executor moves to the front of the idle list, an unknown one changes nothing |
| `Pool.ExecutorPool.EnsureIdle` | frameworks/native/include/pool.h:31-38 | a node is added exactly when none is idle and the pool may grow |
| `Pool.ExecutorPool.TakeIdle` | frameworks/native/include/pool.h:39-50 | the front idle node becomes the front busy node |
| `Pool.Unlink` | frameworks/native/include/pool.h:61-70 | unlinking any node leaves a well-formed list without it |
| `Pool.AttachBusy` | frameworks/native/include/pool.h:44-49 | attaching a front node leaves a well-formed list |
| `Pool.AttachIdle` | frameworks/native/include/pool.h:101-106 | attaching a front node leaves a well-formed list |
| `Pool.PoolStaysInBounds` | frameworks/native/include/pool.h:28-107 | without forced calls the pool never exceeds its capability, nor falls below its minimum once it has reached it |
| `Pool.HandedToOneCaller` | frameworks/native/include/pool.h:28-51 | an executor that was handed out is busy until it is given back, and nobody else gets it meanwhile |
| `Pool.LastIdleIsFirst` | frameworks/native/include/pool.h:28-107 | the executor that was given back last is handed out first, and no executor is lost or doubled |
| `WriteBackCache.PreferencesImpl.Put` | frameworks/native/src/preferences_impl.cpp:254-289 | with Clears of other threads landing in its gaps, a put has the outcome of a serial order on a plain map; it marks its key, unless it finds an equal value, and the cached keys exactly if a Clear was pending |
| `WriteBackCache.PreferencesImpl.Delete` | frameworks/native/src/preferences_impl.cpp:291-308 | the same for a deletion, which marks its key exactly if it finds it |
| `WriteBackCache.PreferencesImpl.Clear` | frameworks/native/src/preferences_impl.cpp:310-316 | only the flag changes |
| `WriteBackCache.PreferencesImpl.Get` | frameworks/native/src/preferences_impl.cpp:162-179 | a read returns what the plain map holds at its place in the serial order |
| `WriteBackCache.PreferencesImpl.GetAll` | frameworks/native/src/preferences_impl.cpp:181-193 | the whole plain map at its place in the serial order |
| `WriteBackCache.PreferencesImpl.TakeSnapshot` | frameworks/native/src/preferences_impl.cpp:318-338 | the locked part of a write leaves the plain map as it is and takes all of it with exactly the marked keys, or nothing exactly when no key is marked |
| `WriteBackCache.PreferencesImpl.CommitSnapshot` | frameworks/native/src/preferences_impl.cpp:339-351 | a successful write makes the snapshot the main file and counts as loaded; a failed one leaves the cache and what SaveXmlFile rolls back to |
| `WriteBackCache.PreferencesImpl.WriteToDiskFile` | frameworks/native/src/preferences_impl.cpp:318-351 | the snapshot and its commit, or E_OK without a write |
| `WriteBackCache.PreferencesImpl.ReadFile` | frameworks/native/src/preferences_impl.cpp:205-217 | a read of the files as XmlReadFile makes it, which may move a corrupt one away; it succeeds exactly if nothing stops it and the elements can be parsed, and then gives the recoverable map below the bindings of its argument |
| `WriteBackCache.PreferencesImpl.LoadFromDisk` | frameworks/native/src/preferences_impl.cpp:82-107 | the first load replaces the cache by what it reads or leaves it when the read fails, which may have moved a corrupt file away |
| `WriteBackCache.PreferencesImpl.ReloadFromDisk` | frameworks/native/src/preferences_impl.cpp:109-127 | a later load reads the document into a copy of the cache, which merges the file below it; a read that fails leaves the cache, and may have moved a corrupt file away |
| `WriteBackCache.PreferencesImpl.PreLoad` | frameworks/native/src/preferences_impl.cpp:129-144 | reloads a loaded store that has not been read and has a main file, and fails exactly if that does; it also fails, on a store written before its load found the directory inaccessible, for a caller that tested loadResult_ before the write; every other store is left as it is |
| `WriteBackCache.PreferencesImpl.Flush` | frameworks/native/src/preferences_impl.cpp:353-360 | a token is queued exactly if the queue was empty |
| `WriteBackCache.PreferencesImpl.FlushTask` | frameworks/native/src/preferences_impl.cpp:361-376 | a flush gives up, keeping its token, when PreLoad fails, and otherwise takes the token and writes |
| `WriteBackCache.PreferencesImpl.FlushSync` | frameworks/native/src/preferences_impl.cpp:380-399 | the same in the caller, with the code of the write |
| `WriteBackCache.OrderApplies` | frameworks/native/src/preferences_impl.cpp:268-287 | a section that found the flag set comes after the Clears around it, one that did not before the Clear inside it |
| `WriteBackCache.GetFindsLastBinding` | frameworks/native/src/preferences_impl.cpp:162-308 | after any operations a get finds what the last one to touch its key bound it to: the value that was put up to the sign of floating-point zeros, nothing after a deletion or Clear, the binding of the file after a load; without one the old binding |
| `WriteBackCache.ReadsAreLegalExactly` | frameworks/native/src/preferences_impl.cpp:162-193 | a read is right exactly if it returns the bindings of the map |
| `Values.EqualExactly` | frameworks/native/src/preferences_value.cpp:273-276 | two values compare equal exactly if they are the same but for the sign of floating-point zeros and hold no NaN |
| `Values.LegalExactly` | frameworks/native/src/preferences_utils.cpp:31-72 | a key is legal exactly with 1 to 1024 bytes, a value unless it is an empty BigInt or a text of more than 16 MiB |
| `CacheRuns.RunIsSerial` | frameworks/native/src/preferences_impl.cpp:82-337 | in every stretch of every run all operations of all threads, loads included, have one serial order on a plain map in which every read is right and which ends in the visible map; flushes only read |
| `CacheRuns.ReadStoreLoadsNothing` | frameworks/native/src/preferences_impl.cpp:82-144 | once the file has been read no load changes anything, so that order holds only what the callers did |
| `CacheRuns.NeverUnlockedExactly` | frameworks/native/src/preferences_impl.cpp:89-106 | isNeverUnlock_ is set exactly if the load found the directory inaccessible and nothing has been read or written since |
| `CacheRuns.DirtySetIsSound` | frameworks/native/src/preferences_impl.cpp:254-351 | in every reachable state an unmarked key has the binding of the map last loaded or handed to a write; unless the last write that returned failed, that map is between writes the one on disk |
| `CacheRuns.LastWriteDecides` | frameworks/native/src/preferences_impl.cpp:318-351 | after a write, and until the next, of a loaded store that has been read or has nothing to read: an unmarked key has on disk the binding it has in the cache exactly if the write succeeded or what it left already had that binding; a failed write leaves what was there, unless it renamed a torn file over a readable backup |
| `CacheRuns.StepKeepsDirtySet` | frameworks/native/src/preferences_impl.cpp:254-351 | every operation keeps that |
| `CacheRuns.SkippedWriteLosesNothing` | frameworks/native/src/preferences_impl.cpp:331-337 | a flush that finds no key marked finds in the cache the map last loaded or handed to a write; skipping it is right exactly if that map is on disk, which it is unless the last write failed |
| `CacheRuns.SuccessfulWriteSavesTheMap` | frameworks/native/src/preferences_impl.cpp:339-341 | a successful write leaves on disk the map that was visible at its snapshot, whatever happens meanwhile |
| `CacheRuns.ChangedKeysAreReported` | frameworks/native/src/preferences_impl.cpp:331-349 | the keys reported include every key whose binding differs from what is known of the file; after a failed write a change is missed exactly if the file already lacked it |
| `CacheRuns.ReportedKeysWereTouched` | frameworks/native/src/preferences_impl.cpp:318-349 | conversely every key a write reports has been put or deleted since the snapshot before, or was cached when a Clear called since then was carried out |
| `CacheRuns.MarkedKeyWasTouched` | frameworks/native/src/preferences_impl.cpp:266-306 | every marked key was, since the last snapshot |
| `CacheRuns.PendingClearWasCalled` | frameworks/native/src/preferences_impl.cpp:310-316 | a Clear that is pending was called since the last snapshot |
| `CacheRuns.FlushLosesNothing` | frameworks/native/src/preferences_impl.cpp:353-399 | while no PreLoad of a flush fails, tokens equal the flushes still to pop and never exceed one, so what was done before any Flush or FlushSync is in the last snapshot or awaits a pending one |
| `CacheRuns.GivingUpStopsAllFlushes` | frameworks/native/src/preferences_impl.cpp:368-370 | after a flush whose PreLoad fails no flush ever takes a snapshot again |
| `CacheRuns.FailedLoadKeepsFile` | frameworks/native/src/preferences_impl.cpp:129-144 | a flush whose PreLoad found the store loaded writes only if the files have been read or there is no main file |
| `CacheRuns.UnreadFileIsAtRiskExactly` | frameworks/native/src/preferences_impl.cpp:361-376 | a map on disk that has not been read can be written over next exactly if a flush is pending whose PreLoad found the store not loaded or the backup alone (with its token, no write in progress and something to write) |
| `CacheRuns.LoadedStoreKeepsUnreadFile` | frameworks/native/src/preferences_impl.cpp:361-376 | once the store counts as loaded and no earlier flush is pending, no flush ever again writes over a main file that has not been read |
| `CacheRuns.BackupIsForgottenByHarm` | frameworks/native/src/preferences_xml_utils.cpp:538-562 | a loaded store is left with an unread backup alone only by a read that the file protocol does not bear, or by a failed write |
| `CacheRuns.ForgottenBackupIsOverwritten` | frameworks/native/src/preferences_impl.cpp:136-141 | such a backup, behind a corrupt file that a load has moved away, is replaced by the few cached keys although every PreLoad succeeds |
| `CacheRuns.CacheKeepsToTheProtocol` | frameworks/native/src/preferences_impl.cpp:82-351 | what the operations of the cache do to the files are reads and saves of the file protocol |
| `CacheRuns.LateFlushOverwrites` | frameworks/native/src/preferences_impl.cpp:129-138 | such a flush overwrites the unread file although the store counts as loaded by then, its load having failed |
| `CacheRuns.EarlyFlushOverwrites` | frameworks/native/src/preferences_impl.cpp:135-137 | before any load, a flush can replace the unread file by the few cached keys |
| `CacheRuns.FailedWriteForgets` | frameworks/native/src/preferences_impl.cpp:331-341 | after a failed write the next flush writes nothing although the file lacks the update |
| `Notification.NotifyDataObservers` | frameworks/native/src/preferences_impl.cpp:445-473 | each live data observer that is concerned gets one call, with exactly the modified keys it subscribed to and their written values; no other is called |
| `Notification.DeliveredExactly` | frameworks/native/src/preferences_impl.cpp:445-473 | a live observer is called exactly if a key it subscribed to was modified, once, and hears of exactly those keys with the values that were written |
| `Notification.Collect` | frameworks/native/src/preferences_impl.cpp:454-466 | the records of one observer |
| `Notification.NotifyLocalObservers` | frameworks/native/src/preferences_impl.cpp:475-482 | each live local observer hears of each modified key once |
| `Parcel.DecodeOfEncode` | frameworks/native/src/preferences_value_parcel.cpp:418-656 | every value of the twelve supported types is read back from its encoding, whatever follows it |
| `Parcel.EncodingIsInjective` | frameworks/native/src/preferences_value_parcel.cpp:418-449 | different values never share an encoding |
| `Parcel.FormatOfEncoding` | frameworks/native/src/preferences_value_parcel.cpp:104-416 | the type index, the two's complement integers with their lowest byte first, and the counts, byte by byte |
| `Parcel.FormatOfElements` | frameworks/native/src/preferences_value_parcel.cpp:222-384 | how the elements of arrays follow one another |
| `Parcel.InvalidExactly` | frameworks/native/src/preferences_value_parcel.cpp:625-656 | data is refused exactly if it is empty or begins with no type index |
| `Parcel.DecodedType` | frameworks/native/src/preferences_value_parcel.cpp:451-623 | what is decoded has the type the first byte names, and no data that begins with an encoding is refused |
| `Parcel.DecodedIsPrefix` | frameworks/native/src/preferences_value_parcel.cpp:451-623 | what is decoded is what the data begins with the encoding of, unless a bool is another byte than 0 or 1 or a sign exceeds an int |
| `Parcel.CalSize` | frameworks/native/src/preferences_value_parcel.cpp:56-102 | the exact length of the encoding, modulo 2^32 |
| `Parcel.StringArraySize` | frameworks/native/src/preferences_value_parcel.cpp:85-94 | the loop over the strings adds up to the length of their encoding |
| `Parcel.MarshallingPreferenceValue` | frameworks/native/src/preferences_value_parcel.cpp:418-449 | the bytes of the encoding are written, no byte after them is touched, and an unsupported value is refused |
| `Parcel.MarshallingBasicValue` | frameworks/native/src/preferences_value_parcel.cpp:104-173 | the same for the basic types |
| `Parcel.MarshallingStringValue` | frameworks/native/src/preferences_value_parcel.cpp:181-214 | the same for strings and objects |
| `Parcel.MarshallingStringArrayValue` | frameworks/native/src/preferences_value_parcel.cpp:222-264 | the same for string arrays |
| `Parcel.EmitStrings` | frameworks/native/src/preferences_value_parcel.cpp:244-262 | the offsets of the string loop end exactly at the end of the encoding |
| `Parcel.MarshallingBasicArrayValue` | frameworks/native/src/preferences_value_parcel.cpp:386-416 | the same for the other arrays |
| `Parcel.MarshallingVecUInt8AfterType` | frameworks/native/src/preferences_value_parcel.cpp:266-286 | the byte array after its type |
| `Parcel.MarshallingVecBigIntAfterType` | frameworks/native/src/preferences_value_parcel.cpp:294-328 | the BigInt after its type |
| `Parcel.MarshallingVecDoubleAfterType` | frameworks/native/src/preferences_value_parcel.cpp:330-353 | the double array after its type |
| `Parcel.MarshallingVecBoolAfterType` | frameworks/native/src/preferences_value_parcel.cpp:355-378 | the bool array after its type |
| `Parcel.UnmarshallingPreferenceValue` | frameworks/native/src/preferences_value_parcel.cpp:625-656 | the value the format defines, or the refusal, for any bytes |
| `Parcel.UnmarshallingBasicValue` | frameworks/native/src/preferences_value_parcel.cpp:451-480 | the same for the basic types |
| `Parcel.UnmarshallingStringValue` | frameworks/native/src/preferences_value_parcel.cpp:482-504 | the same for strings and objects |
| `Parcel.UnmarshallingStringArrayValue` | frameworks/native/src/preferences_value_parcel.cpp:506-533 | the same for string arrays, by the loop over their lengths |
| `Parcel.UnmarshallingBasicArrayValue` | frameworks/native/src/preferences_value_parcel.cpp:603-623 | the same for the other arrays |
| `Parcel.UnmarshallingVecUInt8` | frameworks/native/src/preferences_value_parcel.cpp:535-549 | the loop over the bytes |
| `Parcel.UnmarshallingVecBool` | frameworks/native/src/preferences_value_parcel.cpp:567-581 | the loop over the bools |
| `Parcel.ReadWords` | frameworks/native/src/preferences_value_parcel.cpp:594-598 | the loop over the 64-bit words |
| `LargeCache.PreferencesEnhanceImpl.GetValue` | frameworks/native/src/preferences_enhance_impl.cpp:367-410 | answers as if there were no cache, whatever version the kernel reports; a large value it read from the store is cached under that version, and nothing else changes |
| `LargeCache.PreferencesEnhanceImpl.Get` | frameworks/native/src/preferences_enhance_impl.cpp:65-106 | the same without the code |
| `LargeCache.PreferencesEnhanceImpl.HasKey` | frameworks/native/src/preferences_enhance_impl.cpp:108-148 | true only for a key of the store, and exactly for those if every call works, whatever the cache holds |
| `LargeCache.HasKeyExactly` | frameworks/native/src/preferences_enhance_impl.cpp:108-148 | without the cache it is true exactly for a legal key that is in an open store when every call works, which is when a get finds it or finds a blob that cannot be decoded |
| `LargeCache.GetValueExactly` | frameworks/native/src/preferences_enhance_impl.cpp:367-410 | without the cache a get succeeds exactly if every call works and the blob of the key decodes to the value; otherwise it returns the default and the code of what went wrong |
| `LargeCache.GetAllAgreesWithGet` | frameworks/native/src/preferences_enhance_impl.cpp:232-264 | the whole store agrees with a get of each key |
| `LargeCache.PresenceFollowsUpdates` | frameworks/native/src/preferences_enhance_impl.cpp:150-230 | a key that was put is there, one that was deleted is not, and no other key notices |
| `LargeCache.CachedValuesAreLarge` | frameworks/native/src/preferences_enhance_impl.cpp:101-105 | a cached value is that of a blob of at least 512 KiB in the store |
| `LargeCache.PreferencesEnhanceImpl.Put` | frameworks/native/src/preferences_enhance_impl.cpp:150-197 | the encoding is stored and the cache stays coherent, which needs the parcel round trip; a large value is cached under the next version, a small one leaves the cache |
| `LargeCache.LargePutIsHit` | frameworks/native/src/preferences_enhance_impl.cpp:183-185 | a read under that version is answered from the cache, also when the version wraps |
| `LargeCache.PreferencesEnhanceImpl.Delete` | frameworks/native/src/preferences_enhance_impl.cpp:199-230 | the key leaves the store, and the cache under the next version |
| `LargeCache.PreferencesEnhanceImpl.GetAllInner` | frameworks/native/src/preferences_enhance_impl.cpp:232-264 | the decoded store, or an error when a blob cannot be read; every large value is cached |
| `LargeCache.PreferencesEnhanceImpl.Clear` | frameworks/native/src/preferences_enhance_impl.cpp:313-349 | the store is emptied; the cache stays coherent exactly unless the collection was dropped, could not be created again, and had held a large value |
| `LargeCache.PreferencesEnhanceImpl.CloseDb` | frameworks/native/src/preferences_enhance_impl.cpp:351-365 | a closed store has no cache |
| `LargeCache.PutIsReadBack` | frameworks/native/src/preferences_enhance_impl.cpp:150-264 | a value that was put is read back, and other keys are not affected |
| `Base64.Encode` | frameworks/native/src/base64_helper.cpp:56-81 | the encoding of section 4 of RFC 4648 of the first bytes of the input, as many as its length modulo 2^32 |
| `Base64.Decode` | frameworks/native/src/base64_helper.cpp:83-116 | the decoded bytes, or failure with the output untouched; every index stays in range |
| `Base64.DecodeOfEncode` | frameworks/native/src/base64_helper.cpp:56-116 | decoding inverts encoding, and the text has 4 * ceil(n / 3) characters |
| `Base64.EncodeOfDecode` | frameworks/native/src/base64_helper.cpp:56-116 | encoding what was decoded gives the text back exactly for the canonical texts of section 3.5 of RFC 4648 |
| `Base64.ImageOfEncode` | frameworks/native/src/base64_helper.cpp:56-81 | the canonical texts are exactly those the encoder writes |
| `Base64.DecoderAcceptsMore` | frameworks/native/src/base64_helper.cpp:91-99 | a text with stray bits under its padding is accepted and reads as the canonical one |
| `Base64.AcceptedExactly` | frameworks/native/src/base64_helper.cpp:83-116 | a text is accepted exactly if its length is a multiple of four and every character can be decoded up to its end or to the first padding character, third or fourth in its group; four characters give three bytes |
| `Base64.AlphabetOfRfc` | frameworks/native/src/base64_helper.cpp:22-23 | the alphabet of table 1 of RFC 4648 |
| `Base64.VectorsOfRfc` | frameworks/native/src/base64_helper.cpp:56-81 | the test vectors of section 10 of RFC 4648 |
| `Base64.GroupOperators` | frameworks/native/src/base64_helper.cpp:61-79 | the shifts and masks of the encoder take the groups of RFC 4648 apart |
| `Base64.BytesOfSextets` | frameworks/native/src/base64_helper.cpp:96-112 | the shifts of the decoder put them together |

## Left out

- Base64.Decode: requires a text shorter than 2^32 characters, because the 32-bit index of the source wraps on a longer one and its loop need not end.
- Parcel.MarshallingPreferenceValue: requires a buffer at least as long as the encoding, as the one caller provides; the error returns for buffers that are too short are not modelled.
- Parcel.UnmarshallingPreferenceValue: returns `Overrun` where the source reads past the end of its data without a check.
- LargeCache.PreferencesEnhanceImpl.Put: requires an encoding shorter than 2^32 bytes, because CalSize wraps on a longer one and the buffer it sizes is then too short.
- LargeCache.PreferencesEnhanceImpl.GetValue: a blob whose decoding would overrun counts as one that cannot be decoded.
- XmlValues.ParseNodeElement: works on element nodes; text nodes between elements do not occur in what the library writes.
- XmlValues.IntBack: text without any digit reads as 0, where an empty text leaves the variable of the source unset.
- PriorityQueue.TaskQueue.TryPop: one pass of the waiting loop; that a waiting thread is woken is left to the condition variable.
- PriorityQueue.TaskQueue.Finish: uses the timer of the scheduler's queue; a queue built without one never repeats a task.
- Pool.ExecutorPool.Get: the counter is unbounded, where the source's 32-bit counter would wrap after 2^32 forced calls.
- WriteBackCache.PreferencesImpl.Get: HasKey, GetValue, GetAllData and GetAllDatas have the same locked section as Get or GetAll and are not repeated.
- Points in time are unbounded integers, where the source adds durations to a 64-bit clock.
- float, double and doubleArray values in XML: their text is a parameter, so whether a number survives std::to_string is the condition `Faithful` states.
- Which of two equal floating-point zeros a put keeps follows the early return of the source (`PutInto`).
- Other processes: multi-process file locks, another writer of the kernel store, and the change notifications sent to other processes.
- Pools with more than one executor, the execs_ queue, Stop, Clean and the destructors.
- Waiting for the first load with a timeout (AwaitLoadFile) beyond the PreLoad it makes.
- Logging, fault reports, the path checks of PreferencesHelper, ConcurrentMap, the language bindings and the mocks.
- SafeBlockQueue is not part of this model; the flush queue is a counter with capacity 1.
