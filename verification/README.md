# Formal model of the macgyver library

This project models the parts of the library whose correctness is hardest to see by reading them, in
Dafny 4.11, and proves what they promise. `dafny verify dfyconfig.toml` checks everything.

Each component has a specification module, made of functions and lemmas, and where the original
changes things in place a module with the same loops and fields beside it:

- **Monitors.** `ThreadPool`, `Pool`, `WorkQueue` and `AsyncTaskGroup` are transition systems. One event
  is one critical section, from taking the mutex to releasing it or waiting; any thread may move next,
  notify_one picks any sleeper, and waiters may wake for nothing. The `...Protocol` modules hold the
  states, the invariants, the statements about whole runs and the termination arguments; the
  `...Liveness` modules prove progress under weak fairness (`Fairness`) although threads may wake for
  nothing without end; the class modules hold the fields of the originals and prove that each critical
  section performs its event.
- **NearTree.** Linked nodes with their bounds, the pruned searches, and the buffer of the outer tree,
  for any distance that is a metric.
- **Time zones.** `TzText` is the language of POSIX zone texts and `TzParser` the reader and the writer;
  `TimeZone` is the conversion between UTC and local time for yearly transitions in either order, and
  `TzRule` and `TzZone` connect the two.
- **Cache.** A shard as a sequence in order of use (`CacheModel`), and the list, the hash index and the
  counters that implement it (`Cache`).
- **Calendar.** `Civil` is the reference calendar; `JulianDay` and `WeekNumber` are compared with it.
- **Codecs.** UTF-8 (`Utf8Spec`, `CharsetTools`) and ISO 8601 timestamps (`IsoFormat`, `IsoLanguage`,
  `IsoTime`).

Where the code does not do what it is meant to do, the code is modelled as it is, a lemma shows the
failure, and another one says exactly when it works:

- `start` after an early `resize`, and a `resize` to the current worker count (`StartKeepsInvIff`,
  `ResizeSetsTargetIff`; the runs are `EarlyResizeBreaks` and `LastResizeIgnored`);
- a failed construction in the pool, and a waiter that looks only at the free chain (`CapacityKeptIff`;
  the run is `FailureLeavesSleeper`);
- `add` with a limit of zero (`AddEndsIff`, `ZeroLimitNeverAdds`);
- the period found for an instant in a southern zone whose transitions stray from their year
  (`GetInfoBracketsIff`; the text of such a zone is in `AcceptedTextMisses`);
- `upsert` of a value that is too big, which returns false and still drops the old value
  (`FailedUpsertHarmlessIff`, `UpsertEmptiesShard`), and the rounding of very large capacities (`CapacityCoversIff`);
- the ISO week number in the years before -4712, where a remainder is negative
  (`WeekNumberIsIsoIff`);
- ISO times whose year or offset lies outside what the parser accepts (`RoundTripIff`), although the
  printer writes them.

Two texts that the documentation of the zone parser does not mention are accepted: the daylight
abbreviation may be empty, so that a second number after a two-digit offset is taken for a daylight
offset and then ignored. The language `TzText.Means` includes them.

## Model

| member | source | states |
|---|---|---|
| ThreadPoolProtocol.EventKeepsInv | macgyver/ThreadPool.h:343-610 | Every critical section of any thread, in any interleaving, keeps the invariant: worker counts add up, the queue is the untaken part of the log of accepted tasks, and an un-notified sleeper means that every queued task has a notified worker coming and that the pool is not above its target. |
| ThreadPoolProtocol.PoolIsSafe | macgyver/ThreadPool.h:380-610 | Over every run without an early resize: itsWorkerCount is the number of workers; as soon as one sleeps un-notified it equals the target; a queued task always finds somebody awake while the target is at least one; tasks leave in the order in which they were accepted. |
| ThreadPoolProtocol.StartKeepsInvIff | macgyver/ThreadPool.h:343-355 | `start` after an early `resize` is harmless exactly when nobody sleeps yet. |
| ThreadPoolProtocol.EarlyResizeBreaks | macgyver/ThreadPool.h:343-428 | The run that shows it: resize(1), one worker goes to sleep, start; two workers for a target of one. |
| ThreadPoolProtocol.ResizeSetsTargetIff | macgyver/ThreadPool.h:405-428 | A resize takes effect exactly when it differs from the current count or the target already has that value. |
| ThreadPoolProtocol.LastResizeMayBeIgnored | macgyver/ThreadPool.h:405-428 | From any state with three workers, one of them ready, and a target of three: the second of two requests is dropped because the count happens to equal it. |
| ThreadPoolProtocol.LastResizeIgnored | macgyver/ThreadPool.h:343-428 | A whole run that shows it, from the construction and start of a pool of three. |
| ThreadPoolProtocol.QuiescentMeansSettled | macgyver/ThreadPool.h:498-610 | When all workers sleep the pool has exactly its target size, and no task is left if the target is at least one. |
| ThreadPoolProtocol.InternalStepDescends | macgyver/ThreadPool.h:498-610 | Each step of a worker lowers a lexicographic measure, although several workers may decide to die on one shrink and tasks may throw. |
| ThreadPoolProtocol.PoolSettles | macgyver/ThreadPool.h:405-610 | Without further calls and without wakeups for nothing, every schedule of the workers, fair or not, reaches a state with exactly the target number of workers, all asleep, and an empty queue. |
| ThreadPoolLiveness.PoolSettlesFairly | macgyver/ThreadPool.h:405-610 | With any number of wakeups for nothing, every schedule in which no worker is kept from moving for ever reaches the target size with all tasks run, unless the target is zero. |
| ThreadPoolLiveness.SettledForGood | macgyver/ThreadPool.h:405-610 | From then on the pool keeps its size and stays without work. |
| ThreadPool.FifoScheduler.Push | macgyver/ThreadPool.h:184-194 | Appends unless the queue is full, and says which. |
| ThreadPool.FifoScheduler.Pop | macgyver/ThreadPool.h:197-202 | Removes and returns the oldest task. |
| ThreadPool.ThreadPool.Start | macgyver/ThreadPool.h:343-355 | Performs exactly the event Start of the protocol. |
| ThreadPool.ThreadPool.Schedule | macgyver/ThreadPool.h:380-393 | Performs exactly the event Schedule, with whichever sleeper notify_one picks, and reports whether the task was taken. |
| ThreadPool.ThreadPool.Resize | macgyver/ThreadPool.h:405-428 | Performs exactly the event Resize, including the early return. |
| ThreadPool.ThreadPool.EnterExecuteOne | macgyver/ThreadPool.h:498-528 | The first look at sizes and queue: die, wait, or take the oldest task. |
| ThreadPool.ThreadPool.WakeInExecuteOne | macgyver/ThreadPool.h:524-533 | The same after a wakeup, notified or spurious. |
| ThreadPool.ThreadPool.WorkerDied | macgyver/ThreadPool.h:590-610 | Removes the worker, replaces it when the target is above the count. |
| PoolProtocol.EventKeepsInv | macgyver/Pool.h:291-481 | Every critical section keeps the invariant: free chain and handles share out the records, sizes add up, no free item is left behind while somebody sleeps. |
| PoolProtocol.PoolIsSafe | macgyver/Pool.h:291-481 | Over every run, with barging callers, timeouts, spurious wakeups and failed constructions: current_size plus pending creations is next_current_size and at most the larger of the two limits, in_use_count is the number of live handles, the chain is free of repetitions and visits exactly the records that nobody holds, and an un-notified sleeper means at most as many free items as notified waiters. |
| PoolProtocol.ServedExclusively | macgyver/Pool.h:361-450 | A record that is handed out was in nobody's hands before and is in exactly one pair of hands afterwards. |
| PoolProtocol.CapacityKeptIff | macgyver/Pool.h:386-450 | Sleeping only at full capacity is kept by every event but two, a failed construction that tells nobody and a wakeup that looks at the chain only; exactly then it is lost. |
| PoolProtocol.FailureLeavesSleeper | macgyver/Pool.h:386-450 | A run from construction that shows it: a failed construction leaves a thread asleep although there is room for one more record. |
| PoolProtocol.SleeperHasReleaser | macgyver/Pool.h:361-481 | Even then nobody is stranded: every record is in the hands of a live handle. |
| PoolProtocol.PoolDrains | macgyver/Pool.h:361-481 | If every holder releases its item, every waiting acquire is served, in any schedule without wakeups for nothing and timeouts. |
| PoolLiveness.PoolDrainsFairly | macgyver/Pool.h:361-481 | With any number of wakeups for nothing, and with timeouts, every waiting acquire ends and every record comes back in each schedule in which no holder and no waiter that can move is held up for ever. |
| Pool.Pool.constructor | macgyver/Pool.h:154-159 | The limits of a new pool: at least two items at the start, and the maximum as given to the constructor, not as stored. |
| Pool.Pool.Init | macgyver/Pool.h:291-309 | After the sequential start exactly start_size records are on the free chain. |
| Pool.Pool.EnterAcquire | macgyver/Pool.h:378-450 | Takes the top of the chain, reserves a slot and creates outside the lock, or waits: exactly the event Acquire. |
| Pool.Pool.FinishCreate | macgyver/Pool.h:410-422 | A new record is linked in and taken at once. |
| Pool.Pool.AbandonCreate | macgyver/Pool.h:400-408 | A failed construction gives its slot back. |
| Pool.Pool.WakeInAcquire | macgyver/Pool.h:424-450 | After a wakeup: the top of the chain, or sleep on. |
| Pool.Pool.TimeoutInAcquire | macgyver/Pool.h:426-433 | At a timeout: the top of the chain if there is one after all, otherwise an exception. |
| Pool.Pool.Release | macgyver/Pool.h:458-481 | The record becomes the top of the chain and one sleeper, if any, is notified. |
| WorkQueueProtocol.EventKeepsInv | macgyver/WorkQueue.h:44-130 | Every critical section keeps the invariant and what the producer has put, is putting and will put: the queue holds at most N items, a sleeping consumer means at most as many items as notified consumers, a sleeping producer means a full queue and no sleeping consumer. |
| WorkQueueProtocol.NoDeadlock | macgyver/WorkQueue.h:44-130 | Until everything has been joined, somebody can move, although both sides share one condition variable and notify_one. |
| WorkQueueProtocol.QueueIsSafe | macgyver/WorkQueue.h:44-130 | The same over every run from construction, spurious wakeups included; once joined, every item has been accepted in order and processed exactly once. |
| WorkQueueProtocol.ProgramCompletes | macgyver/WorkQueue.h:44-130 | Total correctness: without wakeups for nothing, whatever the schedule, a program of puts followed by join_all ends with every item accepted in program order and processed exactly once. |
| WorkQueueLiveness.ProgramCompletesFairly | macgyver/WorkQueue.h:44-130 | The same with any number of wakeups for nothing on both sides, in every schedule in which no thread that can move is kept from moving for ever. |
| WorkQueue.WorkQueue.Make | macgyver/WorkQueue.h:21-37 | A concurrency of zero throws; otherwise N consumers are ready. |
| WorkQueue.WorkQueue.Put | macgyver/WorkQueue.h:44-59 | Puts the item and notifies one sleeper of either side, or waits while the queue is full. |
| WorkQueue.WorkQueue.ConsumeTurn | macgyver/WorkQueue.h:94-130 | One turn of a consumer: take the front item, exit when closed, or wait. |
| WorkQueue.WorkQueue.JoinAll | macgyver/WorkQueue.h:61-78 | Closes the queue and wakes everybody. |
| TaskGroupProtocol.EventKeepsInv | macgyver/AsyncTaskGroup.cpp:23-222 | Every step keeps the invariant: each task created is active or has ended once, counters and failures are those of the tasks handled, the limit is kept, nobody oversleeps. |
| TaskGroupProtocol.GroupIsSafe | macgyver/AsyncTaskGroup.cpp:23-222 | In every reachable state the counter is active + completed + in hand + succeeded + failed + interrupted and handled; at most max tasks are active; exception_info is the last hundred failures since it was cleared. |
| TaskGroupProtocol.ReportFindsTask | macgyver/AsyncTaskGroup.cpp:207-222 | The branch for a task that is not found is unreachable. |
| TaskGroupProtocol.WaitEndsEmpty | macgyver/AsyncTaskGroup.cpp:44-68 | When `wait` ends, normally or by an exception, nothing is active and nothing is left to handle. |
| TaskGroupProtocol.InternalStepDescends | macgyver/AsyncTaskGroup.cpp:23-222 | Each step inside a call leaves less work, for every limit in `wait` and for limits above zero in `add`. |
| TaskGroupProtocol.WaitEnds | macgyver/AsyncTaskGroup.cpp:44-68 | Each `wait` ends in every fair schedule, stops, failing tasks and wakeups for nothing included, and then no task is active and none is left to handle. |
| TaskGroupProtocol.AddEndsIff | macgyver/AsyncTaskGroup.cpp:23-42 | Each `add` ends in every fair schedule, with its task created unless the group has been asked to stop, exactly when the limit is not zero. |
| TaskGroupProtocol.SomebodyCanMove | macgyver/AsyncTaskGroup.cpp:152-205 | Inside a call somebody can always move. |
| TaskGroupProtocol.ZeroLimitNeverAdds | macgyver/AsyncTaskGroup.cpp:23-28 | With a limit of zero no `add` returns in any schedule, fair or not, whatever else happens. |
| AsyncTaskGroup.AsyncTaskGroup.CheckPredicate | macgyver/AsyncTaskGroup.cpp:152-160 | The predicate of the wait, at first and after a wakeup. |
| AsyncTaskGroup.AsyncTaskGroup.TakeFinished | macgyver/AsyncTaskGroup.cpp:165-174 | Pops the first ended task, or finds none. |
| AsyncTaskGroup.AsyncTaskGroup.HandleFinished | macgyver/AsyncTaskGroup.cpp:175-205 | Counts the outcome, keeps at most a hundred failures, and stops the group with an exception on a failure if asked to. |
| AsyncTaskGroup.AsyncTaskGroup.NoteFailure | macgyver/AsyncTaskGroup.cpp:190-193 | Drops the oldest failures until ninety-nine are left, then appends. |
| AsyncTaskGroup.AsyncTaskGroup.StartTask | macgyver/AsyncTaskGroup.cpp:30-41 | Creates the task unless a stop has been requested. |
| AsyncTaskGroup.AsyncTaskGroup.OnTaskCompleted | macgyver/AsyncTaskGroup.cpp:207-222 | Moves the task from the active ones to the queue and wakes the waiter; never fails. |
| NearTreeModel.InsertedBounded | macgyver/NearTree.h:286-332 | Insertion keeps each bound at least as large as the distance of every point below it from the node's object. |
| NearTreeModel.InsertedContents | macgyver/NearTree.h:286-332 | Insertion adds exactly the point. |
| NearTreeModel.PrunedNearestIsExact | macgyver/NearTree.h:404-451 | For any metric the pruned search takes account of every point: it returns a stored point of minimum distance within the radius, or what it started with when none qualifies. |
| NearTreeModel.PrunedFarthestIsExact | macgyver/NearTree.h:469-505 | The same for the farthest point. |
| NearTreeModel.PrunedCountIsExact | macgyver/NearTree.h:350-384 | The radius search reports every eligible point exactly as often as it is stored, and nothing else. |
| NearTreeModel.OrderIsIrrelevant | macgyver/NearTree.h:583-677 | Two trees with the same points answer every query alike, whatever the order of insertion. |
| NearTreeSpec.AgreesWithScan | macgyver/NearTree.h:583-592 | A nearest answer exists exactly when a linear scan finds one, and is exactly as near. |
| NearTreeSpec.WithinUnique | macgyver/NearTree.h:635-643 | The stored points alone determine the answer to a radius query. |
| NearTree.Impl.Insert | macgyver/NearTree.h:286-332 | Fills the left object, then the right one, then the branch of the nearer one, and updates size and bound on the way. |
| NearTree.Impl.Nearest | macgyver/NearTree.h:404-451 | The recursive search with its two references is the pruned search of the model. |
| NearTree.Impl.Farthest | macgyver/NearTree.h:469-505 | The same for farthest. |
| NearTree.Impl.NearestOnes | macgyver/NearTree.h:350-384 | Adds to the result what the pruned radius search counts. |
| NearTree.NearTree.Flush | macgyver/NearTree.h:664-677 | The buffered points go into the nodes in an arbitrary order; what is stored stays the same. |
| NearTree.NearTree.Nearest | macgyver/NearTree.h:583-592 | A nearest stored point within the radius, none exactly when no point qualifies; a negative radius means no limit. It depends on what is stored, not on how queries and insertions interleaved. |
| NearTree.NearTree.Farthest | macgyver/NearTree.h:609-618 | A farthest stored point, none exactly when nothing is stored. |
| NearTree.NearTree.NearestOnes | macgyver/NearTree.h:635-643 | Exactly the pairs of distance and point within the radius. |
| NearTree.NearTree.Size | macgyver/NearTree.h:183-183 | The number of stored points, buffered or not. |
| NearTree.NearTree.Clear | macgyver/NearTree.h:541-545 | Nothing is stored any more. |
| TimeZone.GetInfoBracketsIff | macgyver/date_time/date/ptz.h:436-515 | For alternating rules in either order, the period found contains its instant for all instants exactly when no transition strays too far from its year; for the southern order that means no further than the year's own ends. |
| TimeZone.GetInfoIsPeriod | macgyver/date_time/date/ptz.h:436-515 | The period found is the one that the rules put there, with its offset, save in whole minutes and abbreviation. |
| TimeZone.LocalInfoTells | macgyver/date_time/date/ptz.h:517-589 | A local time is reported unique, ambiguous or nonexistent exactly when one, two or no instants have it, for both orders and both signs of the save, and the periods reported are those of these instants. |
| TimeZone.ToSysIsRight | macgyver/date_time/date/ptz.h:591-607 | Without a choice the conversion succeeds exactly for local times that occur once, and gives that instant. |
| TimeZone.ToSysChoosingIsRight | macgyver/date_time/date/ptz.h:609-625 | With a choice: the earliest or latest instant that has the local time; inside a gap the instant of the transition. |
| TimeZone.LocalRoundTripIff | macgyver/date_time/date/ptz.h:609-636 | A local time survives the way to UTC and back exactly when some instant has it, which is when it is not reported nonexistent. |
| TimeZone.InstantRecovered | macgyver/date_time/date/ptz.h:609-636 | Every instant is the earliest or the latest one with its local time. |
| TimeZone.ConstantZone | macgyver/date_time/date/ptz.h:342-369 | Without rules all local times are unique, and the period contains the instant only within the range of years of the date type. |
| TimeZone.WellInsideSeparates | macgyver/date_time/date/ptz.h:300-340 | Transitions that stay away from the ends of their year by the sum of the offsets are separated enough. |
| TzRule.JulianNamesOneDate | macgyver/date_time/date/ptz.h:143-167 | A Julian rule names the same month and day in every year. |
| TzRule.MonthWeekNamesItsDay | macgyver/date_time/date/ptz.h:143-167 | A month rule names the n-th, or the last, given weekday of the month. |
| TzRule.SpacedSeparate | macgyver/date_time/date/ptz.h:143-340 | Rules of any of the three kinds meet the conditions of the conversion when, in common and in leap years, they keep away from the ends of the year by the sum of the offsets and from each other by the shift. |
| TzRule.MonthRulesAreSpaced | macgyver/date_time/date/ptz.h:143-340 | All month rules from February to November with a month between them do so, whatever offsets are stated. |
| TzZone.TextConverts | macgyver/date_time/date/ptz.h:371-636 | From the text to correct conversions: the zone that a text means answers every conversion as it should when its rules, of any kind, keep these distances. |
| TzZone.MonthTextIsSpaced | macgyver/date_time/date/ptz.h:371-434 | Texts with month rules from February to November and a month between them always do. |
| TzZone.AcceptedTextMisses | macgyver/date_time/date/ptz.h:436-515 | A text that is accepted, and an instant for which the period found in its zone does not contain the instant. |
| TzText.NameMeans | macgyver/date_time/date/ptz.h:649-706 | The canonical text of any zone that can be parsed means that zone, with the time of day of each rule. |
| TzText.MeaningIsUnique | macgyver/date_time/date/ptz.h:371-434 | The language that is accepted is unambiguous. |
| TzText.MeaningIsGood | macgyver/date_time/date/ptz.h:371-434 | What a text can mean: ranges of offsets, rules and times, and which abbreviations are kept. |
| TzText.CanonicalText | macgyver/date_time/date/ptz.h:649-706 | Texts mean the same zone exactly when they have the same canonical text. |
| TzText.StandardNameIgnored | macgyver/date_time/date/ptz.h:46-59 | Without rules, a standard abbreviation before a daylight one makes no difference. |
| TzText.StatedHourIgnored | macgyver/date_time/date/ptz.h:46-59 | Neither does stating a daylight offset of one hour. |
| TzText.EqualUpToTimes | macgyver/date_time/date/ptz.h:118-134 | Comparison leaves out the times of day of the rules, and nothing else. |
| TzParser.ReadUnsigned | macgyver/date_time/date/ptz.h:894-906 | Reads the longest run of digits up to the limit, and fails exactly when there is none. |
| TzParser.ReadUnsignedTime | macgyver/date_time/date/ptz.h:861-892 | Succeeds exactly on hours, minutes and seconds in range. |
| TzParser.ReadSignedTime | macgyver/date_time/date/ptz.h:840-859 | The same with an optional sign. |
| TzParser.ReadName | macgyver/date_time/date/ptz.h:808-838 | Succeeds exactly on letters, or anything in closed angle brackets. |
| TzParser.ReadDate | macgyver/date_time/date/ptz.h:743-806 | Succeeds exactly on a day in one of the three forms, with its time of day. |
| TzParser.Parse | macgyver/date_time/date/ptz.h:371-434 | Accepts exactly the texts that mean a zone, and returns that zone. |
| TzParser.Settled | macgyver/date_time/date/ptz.h:406-433 | A zone needs one abbreviation of three letters, and with rules two; without rules the daylight one displaces the standard one; and where an error is reported. |
| TzParser.PrintRule | macgyver/date_time/date/ptz.h:170-224 | Writes the canonical text of a rule. |
| TzParser.Name | macgyver/date_time/date/ptz.h:649-706 | Writes the canonical text of a zone. |
| TzParser.RoundTrip | macgyver/date_time/date/ptz.h:371-706 | For every text that is accepted, parsing the printed name gives the same zone again. |
| CacheModel.KeptDropsShortestPrefix | macgyver/Cache.h:389-409 | Eviction drops the shortest prefix of least recently used entries that makes room. |
| CacheModel.OperationKeepsSound | macgyver/Cache.h:131-306 | Every operation keeps the keys distinct, the sum of sizes within the capacity, and insertCount = live + evicted + replaced + cleared. |
| CacheModel.RunIsSound | macgyver/Cache.h:131-306 | The same over every run. |
| CacheModel.OperationKeepsPlace | macgyver/Cache.h:382-386 | Every key stays in its own shard. |
| CacheModel.InsertedIsFound | macgyver/Cache.h:131-241 | What has just been stored is found, with its value. |
| CacheModel.FailedUpsertHarmlessIff | macgyver/Cache.h:181-208 | An upsert that is refused leaves the shard as it was exactly when the key was not there; all other keys keep their values in either case. |
| CacheModel.FailedUpsertLosesKey | macgyver/Cache.h:181-208 | A refused upsert of a key that is there has already dropped the old value. |
| CacheModel.UpsertEmptiesShard | macgyver/Cache.h:181-208 | A run that shows it. |
| CacheModel.HitIsMove | macgyver/Cache.h:215-241 | Skipping the splice for the most recently used entry gives the same order as splicing. |
| CacheModel.CapacityCoversIff | macgyver/Cache.h:97-101 | The capacity of all shards covers the requested size, and by less than one entry per shard more, exactly when rounding up does not overflow 64 bits. |
| CacheModel.RecencyIsByLastUse | macgyver/Cache.h:215-241 | The reference order: every key of a trace once, by its last use. |
| CacheModel.HoldsLastKeys | macgyver/Cache.h:131-241 | After any run of read-through accesses to unit entries, a shard of capacity c holds exactly the last c distinct keys, in order. |
| CacheModel.LargerHoldsMore | macgyver/Cache.h:131-241 | On the same trace a larger shard ends with everything a smaller one holds. |
| Cache.Shard.EvictLRU | macgyver/Cache.h:389-409 | The loop over list, index and size leaves exactly what the model keeps, and reports what it drops. |
| Cache.Shard.Insert | macgyver/Cache.h:131-177 | List and hash index after the call are those of the model's insertion; so are the evicted items. |
| Cache.Shard.Upsert | macgyver/Cache.h:181-208 | The same for replacing. |
| Cache.Shard.Find | macgyver/Cache.h:215-268 | The same for a search; only the hit count of the entry found changes, and it is reported. |
| Cache.Shard.Clear | macgyver/Cache.h:270-279 | The same for clearing. |
| Cache.Cache.constructor | macgyver/Cache.h:97-101 | Empty shards with their share of the capacity, rounded up. |
| Cache.Cache.Insert | macgyver/Cache.h:131-177 | Only the key's own shard changes, as the model says; all shards stay sound and keep to their keys. |
| Cache.Cache.Upsert | macgyver/Cache.h:181-208 | The same for replacing. |
| Cache.Cache.Find | macgyver/Cache.h:215-268 | The same for a search. It reports the hits of the entry, this one included. |
| Cache.Cache.Clear | macgyver/Cache.h:270-279 | Every shard is cleared. |
| Cache.Cache.Resize | macgyver/Cache.h:281-306 | Every shard evicts down to its new share; what is dropped is reported shard by shard. |
| Cache.Cache.Size | macgyver/Cache.h:308-317 | The sum of the sizes of all entries, which never exceeds the capacity. |
| JulianDay.GetJDCountsDays | macgyver/AstronomySolarTime.cpp:290-302 | The Julian Day of a date is its number in the calendar, for all years from 1 on. |
| JulianDay.NextDayNextJD | macgyver/AstronomySolarTime.cpp:290-302 | The next calendar day has the next Julian Day. |
| JulianDay.DateFromJD | macgyver/AstronomySolarTime.cpp:16-39 | Every moment of a Gregorian day decodes to that day's date. |
| JulianDay.RoundTrip | macgyver/AstronomySolarTime.cpp:16-39 | Decoding inverts encoding on all dates from 1582-10-15 on. |
| JulianDay.EveryJDDecodes | macgyver/AstronomySolarTime.cpp:16-39 | Every Julian Day from then on decodes to a valid date that encodes to the midnight before it. |
| JulianDay.ModifiedIsShifted | macgyver/AstronomyHelperFunctions.h:130-152 | The modified Julian Date is the Julian Day less 2400000.5. |
| JulianDay.MomentIsJDPlusFraction | macgyver/AstronomyHelperFunctions.h:99-115 | The Julian Day of a moment is that of its date plus the fraction of the day. |
| WeekNumber.WeekNumberIsIsoIff | macgyver/date_time/Date.cpp:170-211 | For every date the week number is the ISO week exactly when the Julian day arithmetic of the years involved stays non-negative, or they start on a Friday. |
| WeekNumber.WeekNumberIsIso | macgyver/date_time/Date.cpp:170-211 | From the year -4711 on the week number is the ISO week, from 1 to 53; the internal error is unreachable. |
| WeekNumber.TooEarlyForWeekNumber | macgyver/date_time/Date.cpp:170-211 | The first of January of earlier years that do not start on a Friday is given a wrong answer. |
| WeekNumber.IsoWeekSteps | macgyver/date_time/Date.cpp:170-211 | The reference: weeks run from Monday to Sunday and follow each other, across years. |
| WeekNumber.FourthOfJanuary | macgyver/date_time/Date.cpp:170-211 | The reference: the first week is the one with the fourth of January. |
| WeekNumber.DayOfYearCounts | macgyver/date_time/Date.cpp:124-134 | Counts from 1 to the length of the year, day by day. |
| WeekNumber.EndOfMonthIsLast | macgyver/date_time/Date.cpp:136-152 | The last date of the same month. |
| Civil.NextIsNext | macgyver/date_time/Date.cpp:162-168 | The reference calendar: dates and day numbers advance together. |
| Utf8Spec.DecodeInvertsEncode | macgyver/CharsetTools.cpp:754-873 | The decoder inverts the encoder on all code points up to 0x10FFFF, surrogates included. |
| Utf8Spec.WellFormedStep | macgyver/CharsetTools.cpp:880-964 | Bytes are the encoding of a text of scalar values exactly when they start with a character that the recogniser accepts and the rest is such an encoding. |
| Utf8Spec.EncodeIsInjective | macgyver/CharsetTools.cpp:835-873 | Different texts of code points have different bytes. |
| Utf8Spec.Latin1OfText | macgyver/CharsetTools.cpp:659-704 | From the encoding of a text comes the whole text if all its characters lie from 0x20 to 0xFF, and nothing otherwise. |
| Utf8Spec.Latin1RoundTripIff | macgyver/CharsetTools.cpp:659-743 | Text goes to UTF-8 and back unchanged exactly when all its bytes are at least 0x20. |
| CharsetTools.Utf16ToUtf8 | macgyver/CharsetTools.cpp:835-873 | The encoding of every character in turn; too large a value becomes a question mark. |
| CharsetTools.Utf8ToUtf16 | macgyver/CharsetTools.cpp:754-824 | What the decoder of the model makes of the bytes, malformed input included. |
| CharsetTools.DecodeResumes | macgyver/CharsetTools.cpp:754-824 | Whatever bytes come first, text behind them is decoded in full; a character that breaks off in front of it becomes a question mark if ASCII or nothing follows, and vanishes otherwise. |
| CharsetTools.IsUtf8 | macgyver/CharsetTools.cpp:880-964 | Accepts exactly the encodings of texts of scalar values. |
| CharsetTools.Latin1ToUtf8 | macgyver/CharsetTools.cpp:714-743 | The encoding of the bytes before the first zero. |
| CharsetTools.Utf8ToLatin1 | macgyver/CharsetTools.cpp:659-704 | The printable characters of the text, or nothing. |
| IsoFormat.RoundTripIff | macgyver/DateTimeParser.cpp:438-588 | A printed time with a year of four digits is read back as its UTC time exactly when its local year lies from 1582 to 5000 and its offset is in whole minutes below fourteen hours, in either form. |
| IsoFormat.ParseOfText | macgyver/DateTimeParser.cpp:438-588 | What the parser makes of every printed time, outside these limits too. |
| IsoLanguage.ParsesLanguage | macgyver/DateTimeParser.cpp:438-588 | The accepted language, written as texts with optional parts: the parser accepts exactly the strings that show one, up to a zero character, and gives its meaning. |
| IsoTime.TimeString | macgyver/StringConversion.cpp:639-696 | Writing digits backwards into the buffer gives the basic or the extended form. |
| IsoTime.IsoString | macgyver/StringConversion.cpp:856-902 | The same with the offset from UTC. |
| IsoTime.ParseUshort | macgyver/DateTimeParser.cpp:240-263 | Exactly so many digits, and their value. |
| IsoTime.TryParseIso | macgyver/DateTimeParser.cpp:438-588 | For every string: the meaning of the text of the accepted language that it shows, and no time if it shows none. |
| IsoTime.RoundTrip | macgyver/DateTimeParser.cpp:438-588 | Printing and parsing give the UTC time and the flag for it. |

## Left out

- The count of active workers and `join` of the thread pool, its shutdown with a timeout, its
  destructor, thread interruption and thread names.
- Pool destruction while handles are live, parallel initialisation, dumping, and the check for special
  time values; a timeout may strike any waiter at any moment.
- `WorkQueue` with several producers, with items whose processing throws, and a second `join_all`.
- Listeners of the task group that throw, and the cancelling of running tasks: a task may end in any of
  its three ways at any time.
- Memory-model questions. Each critical section is one atomic step; the cache is modelled one call at
  a time, so that resizing all shards is one step.
- Distances are exact reals, and the results of a radius query are a multiset without an order among
  equal distances.
- Doubles of the Julian Day formulas are exact rationals. The Julian-calendar branch of the modified
  Julian Date is modelled but nothing is claimed about it.
- Instants of the time zones are whole seconds; the range of years of the date type appears only in
  zones without rules.
- Error messages of the zone parser. Positions of errors are modelled; only `Settled` states them.
- Sizes and counters of the cache are unbounded numbers, except in the choice of the shard and the
  rounding of the capacity. Statistics, listings and the text output of the cache.
- Fractions of seconds in ISO times, and special values such as infinities and no date.
- IsoTime.TimeString: years outside 0 to 9999 are not modelled, because the table of digits has no
  entry for them.
- IsoFormat.RoundTripIff: offsets of a hundred hours and more are not modelled, because two digits do
  not hold their hours.
- `WorkerPool`, `TernarySearchTree`, the grammars and regular expressions, the zone database, file and
  network access, astronomy in floating point, and the smaller string utilities: other parts of the
  library, or easy ones.
