# Verified model of the Python core

This project models six parts of the Python core of the repository in Dafny and proves what they are for: the
signal store and its replication to watching clients, the task scheduler, the string expander, the layered
settings store, the printing and parsing of durations, and two small pieces (the comment stripper for JSON files,
and the queue that discards its oldest item when it overflows).

`dafny verify dfyconfig.toml` checks the whole project.

## How it is organized

**Signals.** `Signals.dfy` has messages and the meaning of a cache: folding a sequence of messages. `Emissions.dfy`
has the messages that a store derives to bring a cached map in line with a given one, and `SentMessages.dfy` what
they say, field by field. `SignalStore.dfy` has the store as a class, with its slots, its cache and the bounded
queues that are connected to it. `WatchStream.dfy` has the request handler that fills a queue and the reader that feeds its messages into the client's store, and
`WatchProtocol.dfy` the replication as a state machine, in which emissions may fall between any two connections and
deliveries. Histories (what was lost, what has been delivered, where the marker is) are part of its states.

**Scheduler.** `Ticks.dfy` and `Alignment.dfy` have the arithmetic of time slots, over real times.
`SchedulerMachine.dfy` has the scheduler as a state machine: each registration runs in a thread of its own (an
incarnation) that blocks on a lock of its own, and one timer pops slots and releases locks.
`SchedulerInvariants.dfy` proves what every step keeps and `SchedulerRuns.dfy` what follows for all runs, whatever
tasks are added. `SchedulerTiming.dfy` proves what holds for the timer and for the slots of tasks, in all runs and in
those in which no task is added with a first slot that is past. `SchedulerRequests.dfy` ties them to what callers ask
for: tasks work as they were requested, and are gone once they are removed. `Scheduler.dfy` is the object whose
critical sections are proved to be the steps of the machine.

**Expander.** `ExpanderSyntax.dfy` has the tokens and backslash sequences, `Expansion.dfy` the expansion as a
function that reads a text from the front, and `Expander.dfy` the scanner with positions, proved to compute that
function. `Templates.dfy` proves that expanding the text of a template tree evaluates the tree, and `Escaping.dfy`
that expanding an escaped text gives it back. `Subexpressions.dfy` proves, for all texts, when subexpressions are
evaluated and what comes of wrongly closed ones. The three evaluators are one parameter, which may depend on all
calls made before.

**Settings.** `Settings.dfy` has the recursive merge and delta of nested dictionaries, `SettingsLayers.dfy` files in
load order and the lookup of paths, `SettingsLookups.dfy` what a caller gets from one, and `SettingsStore.dfy` the
loops and the store object.

**Durations.** `Patterns.dfy` and `Decimals.dfy` have white space, digits and numerals. `Durations.dfy` prints and
`DurationParser.dfy` parses, the regular expression being modelled with its preference and backtracking.
`DurationRoundTrips.dfy` and `DurationFormats.dfy` connect the two, and `TimeIntervals.dfy` has the loops.
`DurationUnits.dfy` has the units in seconds and what is accepted at all, `DurationTexts.dfy` what is printed. Durations
are whole nanoseconds, and parsed values exact reals.

**Small pieces.** `JsonComments.dfy` and `RoundRobin.dfy`. `Options.dfy` and `Collections.dfy` are shared by all.

## What was found

- A mapping emission without a value never removes a key: the message built for it selects no signal. The table in
  the documentation of `emit_mapping` says that it does. `Emissions.DerivedEmissionReachesValueIff` says exactly
  when an emission has the promised effect.
- A message that finds a watcher's queue full is lost, and the client stays out of step at its key until the next
  emission for that key finds room (`WatchProtocol.OutOfStepIffMissed`, `WatchProtocol.NextEmissionHeals`).
- An event signal completes a client's snapshot before the end-of-snapshot marker
  (`WatchProtocol.CompletionMeansSnapshotReached`, `WatchProtocol.EventSignalCompletesEarly`).
- Replacing a task just after the timer has released its lock raises, because the release in `_runTask` is not
  guarded as the other two are, and leaves the task registered but never to be invoked
  (`SchedulerRuns.ReplacingReleasedTaskOrphansIt`, `SchedulerRuns.OrphansStayOrphans`; `SchedulerRuns.AddOrphansIff`
  says exactly when that happens).
- Aligning a task to a fractional interval can place its first slot in the past
  (`Alignment.FractionalFirstSlotIsPast`; `Alignment.AlignedNeverLateIff` says exactly when it never does). Such a
  slot sets the timer back, and another task may then be registered in the slot it was just invoked in
  (`SchedulerTiming.LateSlotRepeatsAnother`; `SchedulerTiming.TimerAdvancesIff` and
  `SchedulerTiming.RescheduledToFirstSlot` say exactly when).
- Settings that were edited may be lost when a delta against several default files is reloaded, if one file has a
  plain value where a later one has a map, and the edit puts a map there (`SettingsLayers.EmptiedMapIsRefilled`,
  `SettingsLayers.CoveringSettingsSurviveIffUniform`). Settings that were only loaded survive, but for nulls at keys
  that the defaults do not have (`SettingsLayers.LoadedSettingsSurviveIff`).
- A put into a full queue discards an item even if another thread has just made room, and more than one if other
  threads fill the queue again (`RoundRobins.InterruptedPutDiscardsWithRoom`, `RoundRobins.PutDiscardsIff`,
  `RoundRobins.RefillsCostItems`).
- The last group of `_escapeChars` matches a literal run of ten characters, not a range, and escaping a text that
  contains the run raises (`Escaping.EscapingFailsIff`).
- ISO durations of zero are printed as `PT`, which is refused; durations above four years lose a day for every four,
  which the parser does not add back; and the default format can only be parsed below a day
  (`DurationFormats.IsoSurvivesIff`, `JsonSurvivesIff`, `PlainSurvivesIff`).

## Model

| member | source | states |
|---|---|---|
| `Signals.FoldKeepsWellKept` | src/core/python/protobuf/signal/cachingsignalstore.py:267-273 | cached messages are never removals, and always sit under their own signal and key, whatever is received |
| `Signals.CacheHoldsLatest` | src/core/python/protobuf/signal/cachingsignalstore.py:63-69 | a cache holds, for each signal and key, the last message received about it, unless that was a removal |
| `Signals.FoldCongruence` | src/core/python/protobuf/signal/cachingsignalstore.py:267-273 | what messages make of a signal depends only on what was held for that signal |
| `Signals.ReplayRebuilds` | src/core/python/protobuf/signal/cachingsignalstore.py:153-160 | replaying a cached datamap in any order to an empty receiver rebuilds it |
| `Signals.LateSubscriberCatchesUp` | src/core/python/protobuf/signal/cachingsignalstore.py:43-69 | for any history and any point of connection, folding the replayed cache and then the live messages gives the same state per key as having been connected from the start |
| `Signals.DerivedRunsFollowLifecycles` | src/core/python/protobuf/signal/cachingsignalstore.py:104-121 | over any run of derived emissions, the actions of each key form whole life cycles ADDITION UPDATE* REMOVAL |
| `Emissions.DerivedEmissionSetsValue` | src/core/python/protobuf/signal/cachingsignalstore.py:91-113 | a derived emission with a value leaves exactly that value, and its action is the one the documented table prescribes |
| `Emissions.DerivedEmissionReachesValueIff` | src/core/python/protobuf/signal/cachingsignalstore.py:91-113 | a derived emission brings a key to what was provided if and only if a value was provided or nothing was cached |
| `Emissions.RemovalWithoutValueIsIgnored` | src/core/python/protobuf/signal/signalstore.py:443-453 | in every cache, a removal derived without a value is sent for a cached key only, is of no signal, and changes nothing |
| `SignalStores.RemovalWithoutValueReachesNoSlot` | src/core/python/protobuf/signal/signalstore.py:403-411 | and no slot is offered it |
| `Emissions.OnceEachIsOnePerDifference` | src/core/python/protobuf/signal/cachingsignalstore.py:135-150 | a derived run that touches no key twice holds exactly one message for every key whose value it changes |
| `Emissions.SynchronizationReachesMap` | src/core/python/protobuf/signal/cachingsignalstore.py:135-150 | removing the missing keys and then setting all values, in any order, makes the cached map equal to the given one |
| `Emissions.SynchronizationIsExact` | src/core/python/protobuf/signal/cachingsignalstore.py:135-150 | those messages are a derived run with exactly one message for each differing key, and leave other signals alone |
| `SentMessages.MessageIsFound` | src/core/python/protobuf/signal/cachingsignalstore.py:267-273 | after any message, its value is found under its signal and key, or under no key unless its action is known; after a removal nothing is, and every other lookup finds what it did before |
| `SentMessages.CachedMapHoldsValues` | src/core/python/protobuf/signal/cachingsignalstore.py:186-230 | the cached map of a signal has just the values that lookups find |
| `SentMessages.EmittedMessageIs` | src/core/python/protobuf/signal/cachingsignalstore.py:104-120 | the message that is sent for a key: a given action as it is, and otherwise the one of the table, with the signal, the key and the value |
| `SentMessages.SynchronizationBringsInLine` | src/core/python/protobuf/signal/cachingsignalstore.py:135-150 | every message that is sent to synchronize a map is the removal of a key that it lacks, carrying the value provided for removals or else the cached one, or the addition or update of a key, carrying its value in the map |
| `SignalStores.OfferAllIsTruncation` | src/core/python/messaging/grpc/request_handler/signal_request_handler.py:92-100 | a bounded queue keeps what it is offered, in order, up to its capacity, and loses the rest |
| `SignalStores.MessageQueue.PutNowait` | src/core/python/messaging/grpc/request_handler/signal_request_handler.py:92-100 | a message is appended, or refused when the queue is full |
| `SignalStores.MessageQueue.Get` | src/core/python/messaging/grpc/request_handler/signal_request_handler.py:102-103 | messages are taken in the order in which they were put |
| `SignalStores.CachingSignalStore.EmitTo` | src/core/python/protobuf/signal/signalstore.py:471-487 | a slot receives a message, or loses it when its queue is full |
| `SignalStores.CachingSignalStore.EmitToEach` | src/core/python/protobuf/signal/signalstore.py:403-411 | every slot receives the message once for each time it is connected |
| `SignalStores.CachingSignalStore.Emit` | src/core/python/protobuf/signal/cachingsignalstore.py:63-69 | the cache is updated, every slot of the signal and of all signals receives the message, and the completion event is set if the message carries no mapping action |
| `SignalStores.CachingSignalStore.EmitMapping` | src/core/python/protobuf/signal/cachingsignalstore.py:72-121 | the derived message, if any, is emitted |
| `SignalStores.CachingSignalStore.EmitMapUpdate` | src/core/python/protobuf/signal/cachingsignalstore.py:123-150 | afterwards exactly the values of the given map are found, other signals are unchanged, exactly one derived message per differing key was sent, each removal carrying the value provided for it or else the cached one, and every queue was offered just those messages |
| `SignalStores.CachingSignalStore.EmitRemovals` | src/core/python/protobuf/signal/cachingsignalstore.py:135-143 | every cached key that the given map lacks is removed |
| `SignalStores.CachingSignalStore.EmitUpdates` | src/core/python/protobuf/signal/cachingsignalstore.py:145-150 | every value of the given map is set |
| `SignalStores.CachingSignalStore.EmitCachedTo` | src/core/python/protobuf/signal/cachingsignalstore.py:153-160 | a slot is offered every cached message of a signal exactly once |
| `SignalStores.CachingSignalStore.ConnectSignal` | src/core/python/protobuf/signal/cachingsignalstore.py:54-59 | the slot is registered, and offered what is cached for the signal |
| `SignalStores.CachingSignalStore.ConnectAll` | src/core/python/protobuf/signal/cachingsignalstore.py:43-51 | the slot is registered for all signals, and offered a replay of all of them, which rebuilds the whole cache, after whatever its queue holds |
| `SignalStores.ConnectedReceivesItsSignals` | src/core/python/protobuf/signal/signalstore.py:403-410 | a queue that is connected once to each of some signals is offered every message of theirs, once and in order, and no other |
| `SignalStores.ConnectedToAllReceivesAll` | src/core/python/protobuf/signal/signalstore.py:408-410 | one that is connected to all signals is offered every message that names one |
| `WatchStream.SignalRequestHandler.Watch` | src/core/python/messaging/grpc/request_handler/signal_request_handler.py:92-100 | unless the queue overflows, it holds a snapshot of the server cache for all signals followed by the marker, and is connected to just those signals |
| `WatchStream.SignalRequestHandler.ConnectEach` | src/core/python/messaging/grpc/request_handler/signal_request_handler.py:96-97 | connecting signal by signal gathers a snapshot of all of them |
| `WatchStream.EmissionReachesWatchedQueue` | src/core/python/messaging/grpc/request_handler/signal_request_handler.py:96-97 | an emission is put in a watcher's queue if and only if it is of one of the signals watched, which is what an emission does in the protocol |
| `WatchStream.ThreadReader.Worker` | src/core/python/messaging/grpc/client/readers.py:70-78 | the client store receives the messages of the stream in order, until it ends or the reader is stopped |
| `WatchProtocol.EmitKeepsInv` | src/core/python/protobuf/signal/cachingsignalstore.py:63-69 | an emission at any moment keeps what was put for the connected signals in sync with the server, and the stream what is left of it |
| `WatchProtocol.ConnectKeepsInv` | src/core/python/protobuf/signal/cachingsignalstore.py:54-59 | so does connecting the next signal and replaying its cache |
| `WatchProtocol.MarkerKeepsInv` | src/core/python/messaging/grpc/request_handler/signal_request_handler.py:99-100 | so does putting the marker, before which the stream amounts to the server cache at that moment |
| `WatchProtocol.DeliverKeepsInv` | src/core/python/messaging/grpc/client/readers.py:70-78 | so does delivering a message to the client |
| `WatchProtocol.RunsKeepInv` | src/core/python/messaging/grpc/request_handler/signal_request_handler.py:92-103 | the invariant holds in every reachable state, under any interleaving |
| `WatchProtocol.ClientPlusQueueIsServer` | src/core/python/messaging/grpc/request_handler/signal_request_handler.py:92-103 | in every reachable state without overflow, folding what is in flight onto the client cache gives exactly the server cache for every signal connected so far |
| `WatchProtocol.UnconnectedSignalsAreUntouched` | src/core/python/messaging/grpc/request_handler/signal_request_handler.py:96-97 | nothing of a signal that is not connected yet, or not watched at all, reaches the client, whether messages are lost or not |
| `WatchProtocol.OutOfStepIffMissed` | src/core/python/messaging/grpc/request_handler/signal_request_handler.py:92-103 | in every reachable state, however many messages the queue refused, the client plus what is in flight differs from the server at a key of a connected signal if and only if the last message for the key was refused and would have changed what arrived before it |
| `WatchProtocol.NextEmissionHeals` | src/core/python/protobuf/signal/cachingsignalstore.py:63-69 | the next emission for the key that finds room brings it back in step |
| `WatchProtocol.NothingIsLostIff` | src/core/python/messaging/grpc/request_handler/signal_request_handler.py:92-103 | messages are lost if and only if some step offers more than there is room for in the queue; never, if it has no limit |
| `WatchProtocol.MarkerDeliversSnapshot` | src/core/python/messaging/grpc/request_handler/signal_request_handler.py:99-103 | when the marker is delivered, the client cache equals the server cache at the moment the marker was put |
| `WatchProtocol.CompletionMeansSnapshotReached` | src/core/python/protobuf/signal/signalstore.py:413-414 | just before the marker arrives the client is complete if and only if an unmapped message precedes the marker, and from then on it has reached the snapshot |
| `WatchProtocol.CompletionIsSound` | src/core/python/protobuf/signal/signalstore.py:413-414 | if every message carries a mapping action, the completion event is set by the marker alone; if no message was lost, only once the client has reached the snapshot |
| `WatchProtocol.EventSignalCompletesEarly` | src/core/python/protobuf/signal/signalstore.py:417-427 | a run in which an event signal sets the completion event before the snapshot is there |
| `Ticks.FrequencyIsWholeTicks` | src/core/python/core/scheduler.py:198 | a task recurs after as many whole ticks as its interval has, and after one if it has none |
| `Ticks.NextSlotIsFirstOnGrid` | src/core/python/core/scheduler.py:279-280 | after an overrun of any length, the next slot is the least one on the grid of the task that is not past |
| `Ticks.NextSlotOnGrid` | src/core/python/core/scheduler.py:279-280 | in any case, it is the least one on the grid that is neither past nor before the slot it had |
| `Alignment.OffsetIsTruncatedBoundary` | src/core/python/core/scheduler.py:69-81 | the offset is the start of the interval a time falls in, less any fraction of a second |
| `Alignment.WholeIntervalsAlignAhead` | src/core/python/core/scheduler.py:218-221 | with whole seconds throughout, the aligned time lies ahead |
| `Alignment.FractionalIntervalsLag` | src/core/python/core/scheduler.py:81 | with a fractional interval, there are times whose aligned time is past |
| `Alignment.AlignsAheadIff` | src/core/python/core/scheduler.py:69-81 | aligned times always lie ahead if and only if the interval is a whole number of seconds |
| `Alignment.UnalignedFirstSlot` | src/core/python/core/scheduler.py:215-216 | the first slot of an unaligned task is not past if and only if its delay exceeds minus one tick |
| `Alignment.AlignedFirstSlot` | src/core/python/core/scheduler.py:218-221 | a task aligned to whole seconds starts after its delay, and not before its aligned time |
| `Alignment.FractionalFirstSlotIsPast` | src/core/python/core/scheduler.py:218-221 | a task aligned to half a second whose first slot is past |
| `Alignment.AlignedNeverLateIff` | src/core/python/core/scheduler.py:215-221 | the first slot of an aligned task is never past, whatever the reference time and the delay from now, if and only if its interval is a whole number of seconds and it is not aligned to more than a tick after a whole second |
| `SchedulerMachine.Earliest` | src/core/python/core/scheduler.py:325-326 | the next deadline is the least occupied slot, but no later than the longest sleep |
| `SchedulerInvariants.AddKeepsInv` | src/core/python/core/scheduler.py:196-231 | adding a task keeps the scheduler in order for every request, even where it raises or registers a slot that is past |
| `SchedulerInvariants.RemoveKeepsInv` | src/core/python/core/scheduler.py:173-187 | removing a task keeps the scheduler in order |
| `SchedulerInvariants.CheckKeepsInv` | src/core/python/core/scheduler.py:240-244 | so does a woken thread that looks whether it is still registered |
| `SchedulerInvariants.FinishKeepsInv` | src/core/python/core/scheduler.py:246-276 | so does the bookkeeping after an invocation, successful or not |
| `SchedulerInvariants.RescheduleKeepsInv` | src/core/python/core/scheduler.py:278-282 | so does registering in the next slot |
| `SchedulerInvariants.ExitKeepsInv` | src/core/python/core/scheduler.py:290-292 | so does the end of a thread |
| `SchedulerInvariants.TimerKeepsInv` | src/core/python/core/scheduler.py:306-330 | a timer step keeps the scheduler in order |
| `SchedulerInvariants.RunsKeepInv` | src/core/python/core/scheduler.py:131-330 | the invariant holds in every reachable state, whatever tasks are added |
| `SchedulerRuns.NoWakeupIsLost` | src/core/python/core/scheduler.py:196-292 | at any time, whatever tasks were added, a current incarnation that has not left its loop is in exactly one of three conditions: running with its lock held and no slot; blocked with exactly one slot; or blocked with its lock released and no slot |
| `SchedulerRuns.EachReleaseInvokesOnce` | src/core/python/core/scheduler.py:240-249 | each release by the timer leads to at most one invocation, and to just one for a current incarnation |
| `SchedulerRuns.FormerNeverInvokes` | src/core/python/core/scheduler.py:242-244 | a replaced or removed incarnation begins no further invocation |
| `SchedulerRuns.FormerCanStep` | src/core/python/core/scheduler.py:238-292 | its thread is never stuck, and each of its steps brings it closer to its end |
| `SchedulerRuns.FormerReachesExit` | src/core/python/core/scheduler.py:238-292 | it can reach its end by its own steps alone |
| `SchedulerRuns.StopsAtMeans` | src/core/python/core/scheduler.py:238-276 | the counters stop a task exactly after the requested number of invocations, or once one more than the allowed retries, if any, have failed in a row |
| `SchedulerRuns.InvokedAsOftenAsRequested` | src/core/python/core/scheduler.py:238-276 | a task that is left registered leaves its loop after exactly the least number of invocations at which it is to end, for any outcomes |
| `SchedulerRuns.AddOrphansIff` | src/core/python/core/scheduler.py:205-223 | adding a task orphans it, leaving it registered without a thread or a slot, if and only if adding raises |
| `SchedulerRuns.OrphansStayOrphans` | src/core/python/core/scheduler.py:238-292 | an orphaned task is never invoked: as long as it is registered it stays ended and without a slot |
| `SchedulerRuns.ReplacingReleasedTaskOrphansIt` | src/core/python/core/scheduler.py:212-213 | a run in which replacing a task raises and orphans it |
| `SchedulerTiming.PromptAddsInTime` | src/core/python/core/scheduler.py:215-221 | a task with no delay into the past, and aligned to whole seconds if at all, registers no slot that is past |
| `SchedulerTiming.AddKeepsTimelyIff` | src/core/python/core/scheduler.py:196-223 | adding a task keeps the order of time if and only if it raises, and so registers no slot, or its first slot is not past |
| `SchedulerTiming.RescheduleKeepsTimely` | src/core/python/core/scheduler.py:278-282 | registering in the next slot keeps the order of time |
| `SchedulerTiming.TimerKeepsTimely` | src/core/python/core/scheduler.py:306-330 | so does a timer step |
| `SchedulerTiming.TimerAdvancesIff` | src/core/python/core/scheduler.py:308-327 | a timer step pops one slot and passes no occupied one, and moves on if and only if no slot before it is occupied |
| `SchedulerTiming.TimelyRunsStayTimely` | src/core/python/core/scheduler.py:131-330 | in a run in which no task is added with a first slot that is past, raising additions included, the order of time holds in every state |
| `SchedulerTiming.PromptRunsAreTimely` | src/core/python/core/scheduler.py:215-221 | runs in which all tasks are prompt are such runs |
| `SchedulerTiming.NoSlotIsSkipped` | src/core/python/core/scheduler.py:309-326 | in any run no timer step passes an occupied slot, or pops one before its time |
| `SchedulerTiming.TimerStepsForward` | src/core/python/core/scheduler.py:325-326 | in a timely run no slot is left behind, and the timer steps strictly forward |
| `SchedulerTiming.SlotsAreReached` | src/core/python/core/scheduler.py:303-330 | in a timely run any slot is popped within a bounded number of timer steps, whatever else happens in between |
| `SchedulerTiming.WaitingTaskIsReleased` | src/core/python/core/scheduler.py:238-330 | so in a timely run a registered task that still waits for the same slot after more timer steps than there are slots up to it has had its lock released, and can wake up |
| `SchedulerTiming.SlotsStayOnGrid` | src/core/python/core/scheduler.py:278-282 | in any run all slots a task ever registers lie on the grid of its first, none before an earlier one |
| `SchedulerTiming.SlotsDoNotDrift` | src/core/python/core/scheduler.py:278-282 | in a timely run each of them is later than the one before |
| `SchedulerTiming.RescheduledToFirstSlot` | src/core/python/core/scheduler.py:278-282 | in any run the next slot is the least on the grid that is neither past nor before the one the task had; it is later if and only if that one is past, as in a timely run |
| `SchedulerTiming.LateSlotRepeatsAnother` | src/core/python/core/scheduler.py:196-330 | a run of nine steps in which a task aligned to half seconds is added, its first slot is past and sets the timer back, and a task that is being invoked registers slot 5 again |
| `SchedulerRequests.FirstSlotIsFirst` | src/core/python/core/scheduler.py:215-221 | the first slot is the one after the delay in whole milliseconds, or, if aligned, the one after the next interval, whose start is cut to whole seconds |
| `SchedulerRequests.AddRegisters` | src/core/python/core/scheduler.py:196-223 | adding registers one new incarnation, which has the period, the repeats and the retries requested and waits in its first slot; the one it replaces has its lock released, and nothing else changes |
| `SchedulerRequests.RaisingAddRegistersNoSlot` | src/core/python/core/scheduler.py:205-223 | where adding raises, no slot and no other registration changes |
| `SchedulerRequests.AddRaisesIff` | src/core/python/core/scheduler.py:205-221 | adding raises if and only if it aligns to a zero interval, or replaces a task whose lock has been released but which has not woken up |
| `SchedulerRequests.RegisteredAsRequested` | src/core/python/core/scheduler.py:196-223 | in every later state of every run, a task that was added has the period in whole milliseconds, at least one, the repeats, the retries and the first slot that were requested |
| `SchedulerRequests.RecursAsRequested` | src/core/python/core/scheduler.py:198-282 | all slots it is ever registered in lie whole periods of the interval requested after the first slot requested |
| `SchedulerRequests.InvokedAsRequested` | src/core/python/core/scheduler.py:238-276 | while it is registered it is invoked as often as requested, or until it has failed once more in a row than requested |
| `SchedulerRequests.RemoveUnregisters` | src/core/python/core/scheduler.py:173-187 | removing takes a task out of the registrations, and its lock out of the slots, and releases it; nothing else changes, and nothing at all if it is not registered |
| `SchedulerRequests.RemovedNeverInvokes` | src/core/python/core/scheduler.py:173-244 | in no later state has an incarnation that was removed begun another invocation |
| `SchedulerRequests.TimerReleasesDueLocks` | src/core/python/core/scheduler.py:308-327 | a timer step releases just the locks of the slot that is due; a clock that was shifted, in either direction, by more than five seconds makes that slot due now; and the next one is the earliest occupied, or a tenth of a second away |
| `Schedulers.Scheduler.constructor` | src/core/python/core/scheduler.py:303-304 | the reference time is the start of the timer, and nothing is registered |
| `Schedulers.Scheduler.Add` | src/core/python/core/scheduler.py:196-231 | the new state is that of the machine, including the case in which adding raises; otherwise the new incarnation works as requested |
| `Schedulers.Scheduler.ReleaseOther` | src/core/python/core/scheduler.py:205-213 | the lock of the replaced incarnation is released, which raises if it is not held |
| `Schedulers.Scheduler.ClearAlarm` | src/core/python/core/scheduler.py:95-103 | a lock is taken out of the first slot that has it |
| `Schedulers.Scheduler.Remove` | src/core/python/core/scheduler.py:173-193 | the new state is that of the machine: the handle is not registered, and the lock of its incarnation is free and in no slot |
| `Schedulers.Scheduler.EarliestSlot` | src/core/python/core/scheduler.py:326 | the loop over the table finds the earliest slot |
| `Schedulers.Scheduler.ReleaseLocks` | src/core/python/core/scheduler.py:309-313 | all locks of a popped slot are released, those that are not held being passed over |
| `Schedulers.Scheduler.TimerRound` | src/core/python/core/scheduler.py:306-330 | the new state is that of the machine |
| `Schedulers.Scheduler.StillRegistered` | src/core/python/core/scheduler.py:240-244 | the new state is that of the machine |
| `Schedulers.Scheduler.AfterInvocation` | src/core/python/core/scheduler.py:246-276 | the new state is that of the machine |
| `Schedulers.Scheduler.RegisterNext` | src/core/python/core/scheduler.py:278-282 | the new state is that of the machine |
| `Schedulers.Scheduler.Unschedule` | src/core/python/core/scheduler.py:290-292 | the new state is that of the machine |
| `ExpanderSyntax.LineEndIsLongest` | src/core/python/core/stringutils/stringexpander.py:166 | the length found is that of the longest run of white space that ends in a newline or at the end of the text, if there is one |
| `ExpanderSyntax.QuotesIff` | src/core/python/core/stringutils/stringexpander.py:168-182 | a backslash yields the next character as it is if and only if what follows is neither a line end nor begins a code |
| `Expansion.Expand` | src/core/python/core/stringutils/stringexpander.py:115-158 | expansion ends by a lexicographic measure, unread lines first and then the remaining text, and never moves backwards |
| `Expansion.TopLevelReadsAll` | src/core/python/core/stringutils/stringexpander.py:70-112 | at the top level closing brackets are text, and everything is read |
| `Expander.ProcessBackslash` | src/core/python/core/stringutils/stringexpander.py:168-182 | the handler with positions does what a backslash does to the text that is left, reading a line where the text ends |
| `Expander.ProcessSubexpression` | src/core/python/core/stringutils/stringexpander.py:190-219 | contents are expanded, the bracket checked, the contents evaluated once, and the result not scanned again |
| `Expander.ProcessSubNested` | src/core/python/core/stringutils/stringexpander.py:224-231 | a group keeps its brackets around its expanded contents |
| `Expander.ExpandText` | src/core/python/core/stringutils/stringexpander.py:115-158 | the loop over tokens computes the expansion of the text from its position on |
| `Expander.Substitute` | src/core/python/core/stringutils/stringexpander.py:72-112 | substitution in a text, a stream or nothing |
| `Templates.ExpansionEvaluatesTree` | src/core/python/core/stringutils/stringexpander.py:115-247 | for every template tree, with escaped and coded characters, continued lines and any nesting, expanding its text evaluates the tree and goes on with what follows |
| `Templates.SubstitutionEvaluatesTree` | src/core/python/core/stringutils/stringexpander.py:96-112 | substituting in the text of a template gives its evaluation |
| `Templates.StreamSubstitutionEvaluatesTree` | src/core/python/core/stringutils/stringexpander.py:96-112 | so does substituting in a stream whose first lines are the template |
| `Templates.EachEvaluatedOnceInnermostFirst` | src/core/python/core/stringutils/stringexpander.py:197-219 | every subexpression is evaluated exactly once, the inner before the outer and then from left to right |
| `Templates.NothingEvaluatedAfterFailure` | src/core/python/core/stringutils/stringexpander.py:204-212 | after a failed evaluation nothing more is evaluated |
| `Subexpressions.SubexpressionIsReplaced` | src/core/python/core/stringutils/stringexpander.py:204-219 | a subexpression that ends in its own bracket is evaluated once after its contents, and replaced with the value, with nothing if there is none, or expansion fails |
| `Subexpressions.WrongCloserFails` | src/core/python/core/stringutils/stringexpander.py:202-247 | one that ends in the closing bracket of another is not evaluated, whatever it contains and whatever follows: expansion fails, and the calls are those of its contents |
| `Subexpressions.MissingCloserFails` | src/core/python/core/stringutils/stringexpander.py:202-244 | so it is with one that the text ends in |
| `Subexpressions.WronglyClosedTextRaises` | src/core/python/core/stringutils/stringexpander.py:72-112 | so substituting in a text with a wrongly closed subexpression raises, after evaluating what precedes it and its contents |
| `Subexpressions.EvaluatedOnlyAfterCloser` | src/core/python/core/stringutils/stringexpander.py:190-219 | for every text, stream and evaluator, a subexpression is evaluated only after its dollar sign, its opening bracket and the matching closing bracket were read, in the order of the closing brackets |
| `Subexpressions.SubstituteEvaluatesOnlyAfterCloser` | src/core/python/core/stringutils/stringexpander.py:72-112 | so it is for all calls of a substitution in a text |
| `Subexpressions.OctalCodesStandFor` | src/core/python/core/stringutils/stringexpander.py:249-255 | three octal digits after a backslash stand for the character with that number |
| `Subexpressions.HexCodesStandFor` | src/core/python/core/stringutils/stringexpander.py:249-255 | so do an x and two hexadecimal digits |
| `Subexpressions.LetterCodesStandFor` | src/core/python/core/stringutils/stringexpander.py:249-255 | what the letters and the single zero stand for |
| `Escaping.Escape` | src/core/python/core/stringutils/stringexpander.py:315-335 | the loop computes the escaped text between quotes, or fails |
| `Escaping.EscapingFailsIff` | src/core/python/core/stringutils/stringexpander.py:311-327 | escaping fails if and only if the text contains the literal run of the last group and the run is not kept |
| `Escaping.EscapedSubstitutesBack` | src/core/python/core/stringutils/stringexpander.py:311-335 | whatever is kept, as long as no kept backslash or dollar sign acts as a token, substituting in the escaped text gives the text back without evaluating anything |
| `Escaping.EscapeRoundTrip` | src/core/python/core/stringutils/stringexpander.py:311-335 | every text without the run survives escaping and substitution, whatever brackets it contains |
| `Escaping.ExpansionShrinks` | src/core/python/core/stringutils/stringexpander.py:115-182 | expansion that evaluates nothing never lengthens a text, and keeps its length only if it reads plain text |
| `Escaping.PlainTextIsUnchangedIff` | src/core/python/core/stringutils/stringexpander.py:115-158 | a text expands to itself without any evaluation if and only if it has no backslash and no dollar sign before an opening bracket |
| `Escaping.EscapedIsQuotable` | src/core/python/core/stringutils/stringexpander.py:311-335 | escaped text has no line end, tab, quote, dollar sign or backslash that is not kept, but as part of a backslash and a letter for one of these |
| `Settings.SaveAndReloadIff` | src/core/python/core/settingsstore/settingsstore.py:596-625 | merging the delta over the defaults restores the settings if and only if they cover every key of the defaults, recursively |
| `Settings.MergedCovers` | src/core/python/core/settingsstore/settingsstore.py:596-608 | settings merged over null-free defaults cover them |
| `Settings.SaveAndReload` | src/core/python/core/settingsstore/settingsstore.py:596-625 | so they survive being saved as a delta and reloaded |
| `Settings.DeletedDefaultsReturn` | src/core/python/core/settingsstore/settingsstore.py:596-625 | a deleted or nulled default comes back |
| `Settings.DeltaIsLeastOverride` | src/core/python/core/settingsstore/settingsstore.py:611-625 | any overrides that give the same settings contain the delta as a subtree |
| `SettingsLayers.KeyOfMerged` | src/core/python/core/settingsstore/settingsstore.py:183-184 | what a key holds after loading files depends on its values in load order alone |
| `SettingsLayers.FirstDecides` | src/core/python/core/settingsstore/settingsstore.py:596-608 | the first file that defines a key decides; if it holds a map, only maps of later files are merged in |
| `SettingsLayers.LookupSearchesFilesInOrder` | src/core/python/core/settingsstore/settingsstore.py:291-325 | looking up any path in the merged store gives what searching the files in load order gives, errors included |
| `SettingsLayers.LoadsAsOne` | src/core/python/core/settingsstore/settingsstore.py:183-184 | files that agree on which settings are maps load after another file as their merger does |
| `SettingsLayers.LoadAsOneIffUniform` | src/core/python/core/settingsstore/settingsstore.py:183-184 | they do so after every file if and only if they agree on which settings are maps |
| `SettingsLayers.EmptiedMapIsRefilled` | src/core/python/core/settingsstore/settingsstore.py:540-547 | settings that are lost: a plain value of one file that a later file has as a map, changed to an empty map |
| `SettingsLayers.CoveringSettingsSurviveIffUniform` | src/core/python/core/settingsstore/settingsstore.py:540-547 | all settings that cover the default files survive being saved as a delta and reloaded if and only if the files agree on which settings are maps |
| `SettingsLayers.MergingTwiceAddsNothing` | src/core/python/core/settingsstore/settingsstore.py:183-184 | loading the same files twice is the same as loading them once |
| `SettingsLayers.LoadedSettingsSurviveIff` | src/core/python/core/settingsstore/settingsstore.py:540-547 | settings loaded from a local file and any default files survive being saved as a delta and reloaded if and only if every null in the local file is at a key that the defaults have |
| `SettingsLayers.SavedDeltaReloads` | src/core/python/core/settingsstore/settingsstore.py:540-547 | a delta saved against several such files restores the settings if and only if they cover the defaults |
| `SettingsLayers.LocalSettingsSurvive` | src/core/python/core/settingsstore/settingsstore.py:596-625 | local settings without nulls, over any default files, survive being saved as a delta and reloaded |
| `SettingsStores.RecursiveMerge` | src/core/python/core/settingsstore/settingsstore.py:596-608 | the loop over keys computes the merger |
| `SettingsStores.RecursiveDelta` | src/core/python/core/settingsstore/settingsstore.py:611-625 | the loop over keys computes the delta |
| `SettingsStores.SettingsStore.MergeSettings` | src/core/python/core/settingsstore/settingsstore.py:218-221 | the store becomes the merger with what it held, which takes precedence |
| `SettingsStores.SettingsStore.MergeFile` | src/core/python/core/settingsstore/settingsstore.py:211-216 | a parsed file is merged, a falsy one counts as empty, and anything else is refused |
| `SettingsStores.FalsyValues` | src/core/python/core/settingsstore/settingsstore.py:211-216 | the parsed values that count as an empty file |
| `SettingsStores.SettingsStore.LoadSettings` | src/core/python/core/settingsstore/settingsstore.py:183-184 | files are merged in load order, up to the first that cannot be |
| `SettingsStores.SettingsStore.GetValue` | src/core/python/core/settingsstore/settingsstore.py:276-342 | the loop over the path gives what is looked up and reported |
| `SettingsLookups.WalkFollowsTrace` | src/core/python/core/settingsstore/settingsstore.py:291-297 | a lookup gives the value that the names and indices of a path lead to, one after the other, or says why it cannot be followed |
| `SettingsLookups.PathIsTraced` | src/core/python/core/settingsstore/settingsstore.py:291-297 | every path can be followed to its end, or to a value that does not lead on |
| `SettingsLookups.KeyOrPathIsRequired` | src/core/python/core/settingsstore/settingsstore.py:277-279 | giving both a key and a path, or neither, is refused |
| `SettingsLookups.LookedIsAnswer` | src/core/python/core/settingsstore/settingsstore.py:299-342 | the value at the end of the path comes back if it is of an accepted type, converted if it is a text that can be, or is refused; a missing key or index gives its exception if and only if that is requested, and otherwise the default, and so does a value that cannot be followed |
| `SettingsLookups.PathIsLookedUpInFiles` | src/core/python/core/settingsstore/settingsstore.py:291-342 | so a path gives what searching the files in load order gives, or what is reported in place of it |
| `SettingsLookups.KeyIsLookedUpInFiles` | src/core/python/core/settingsstore/settingsstore.py:291-342 | a key that no file holds is missing, a value that is no map comes from the first file that holds one, and null is found only where nothing else is |
| `SettingsStores.SettingsStore.SavedDelta` | src/core/python/core/settingsstore/settingsstore.py:540-547 | the saved delta is that from the defaults |
| `SettingsStores.SaveAndReload` | src/core/python/core/settingsstore/settingsstore.py:437-460 | the round trip through two stores gives equal contents if and only if every null in the local file is at a key that the defaults have |
| `Decimals.Decimal` | src/core/python/core/timeutils/timeinterval.py:573 | a printed count denotes the number |
| `Durations.CountsAddUp` | src/core/python/core/timeutils/timeinterval.py:563-574 | the printed components, weighted, add up to the duration |
| `Durations.CountsAreDigits` | src/core/python/core/timeutils/timeinterval.py:563-574 | everything after a printed component amounts to less than one of its units |
| `Durations.LongDurationsCollide` | src/core/python/core/timeutils/timeinterval.py:559-561 | just above four years, durations a day apart have the same text in every format |
| `Durations.SecondsTextIs` | src/core/python/core/timeutils/timeinterval.py:581-584 | seconds are printed with 0, 3, 6 or 9 decimals, as many as needed |
| `TimeIntervals.AppendComponents` | src/core/python/core/timeutils/timeinterval.py:570-574 | the loop over divisions appends a part for each that fits |
| `TimeIntervals.SecondsString` | src/core/python/core/timeutils/timeinterval.py:581-584 | the loop strips zeros in threes |
| `TimeIntervals.ToString` | src/core/python/core/timeutils/timeinterval.py:540-586 | the method computes the text of a duration |
| `TimeIntervals.FromString` | src/core/python/core/timeutils/timeinterval.py:358-383 | the loop adds up the matched components |
| `DurationParser.TimeMatches` | src/core/python/core/timeutils/timeinterval.py:334-341 | any selection of times in order, with any spacing, is matched component by component |
| `DurationParser.DateMatches` | src/core/python/core/timeutils/timeinterval.py:328-341 | so is any selection of dates and times after a P |
| `DurationParser.DateTextHasValue` | src/core/python/core/timeutils/timeinterval.py:357-383 | its value is the signed sum of its components |
| `DurationParser.TimeTextHasValue` | src/core/python/core/timeutils/timeinterval.py:357-383 | the same for times without a P |
| `DurationParser.DateNeedsP` | src/core/python/core/timeutils/timeinterval.py:329-333 | a date without a P is refused |
| `DurationUnits.UnitsAre` | src/core/python/core/timeutils/timeinterval.py:327-341 | the units of each component, of which only those below a second are case sensitive |
| `DurationUnits.NumeralsAre` | src/core/python/core/timeutils/timeinterval.py:330-340 | numbers are digits, followed by a point and more digits if any |
| `DurationUnits.WholeNumeralValue` | src/core/python/core/timeutils/timeinterval.py:366 | a number without a point denotes what its digits do |
| `DurationUnits.NumeralValue` | src/core/python/core/timeutils/timeinterval.py:366 | one with a point denotes a decimal fraction |
| `DurationUnits.DateTextInSeconds` | src/core/python/core/timeutils/timeinterval.py:344-374 | any selection of dates and times after a P is read as the sum of their seconds, unit by unit, with a day for every four years |
| `DurationUnits.TimeTextInSeconds` | src/core/python/core/timeutils/timeinterval.py:344-374 | so are times alone, down to nanoseconds |
| `DurationUnits.AcceptedTextIsSpelled` | src/core/python/core/timeutils/timeinterval.py:327-382 | nothing else is read: every accepted text is a sign, a P if there is a date, and components in order, with white space between them and a T before the time if any, and its value is the sum of their seconds |
| `DurationRoundTrips.SecondsAreNumeral` | src/core/python/core/timeutils/timeinterval.py:581-584 | printed seconds are a numeral with exactly their value |
| `DurationRoundTrips.IsoValue` | src/core/python/core/timeutils/timeinterval.py:439-461 | what the ISO format of any nonzero duration is parsed to |
| `DurationFormats.IsoZeroIsInvalid` | src/core/python/core/timeutils/timeinterval.py:567-568 | a zero duration is printed as PT in the ISO format, and refused |
| `DurationFormats.IsoSurvivesIff` | src/core/python/core/timeutils/timeinterval.py:439-461 | the ISO format is parsed back exactly if and only if the duration is nonzero and at most four years of 365 days |
| `DurationFormats.JsonValue` | src/core/python/core/timeutils/timeinterval.py:464-486 | what the JSON format of any duration is parsed to: a day less for every four years above four |
| `DurationFormats.JsonSurvivesIff` | src/core/python/core/timeutils/timeinterval.py:464-486 | the JSON format is parsed back exactly if and only if the duration is at most four years of 365 days |
| `DurationFormats.PlainSurvivesIff` | src/core/python/core/timeutils/timeinterval.py:494-586 | the default format is parsed back exactly if and only if the duration is below a day |
| `DurationTexts.TextIs` | src/core/python/core/timeutils/timeinterval.py:540-586 | the text of any duration in any format, component by component |
| `DurationTexts.IsoTextIs` | src/core/python/core/timeutils/timeinterval.py:439-461 | the ISO text of any nonzero duration |
| `DurationTexts.JsonTextIs` | src/core/python/core/timeutils/timeinterval.py:464-486 | the JSON text of any duration |
| `DurationTexts.PlainTextIs` | src/core/python/core/timeutils/timeinterval.py:494-586 | the text of any duration in the default format |
| `JsonComments.CommentsAreRemoved` | src/core/python/core/settingsstore/jsonreader.py:54-56 | stripping the text of any well-formed sequence of plain text, strings and comments leaves its text without the comments |
| `JsonComments.EveryTextIsADocument` | src/core/python/core/settingsstore/jsonreader.py:58-65 | every text is such a sequence |
| `JsonComments.RemovesExactlyTheComments` | src/core/python/core/settingsstore/jsonreader.py:54-65 | so what remains of any text is its sequence without the comments |
| `JsonComments.StringIsKept` | src/core/python/core/settingsstore/jsonreader.py:54-65 | a string in either kind of quotes is kept, whatever it contains |
| `JsonComments.LineCommentIsRemoved` | src/core/python/core/settingsstore/jsonreader.py:54-65 | a comment after // or # is removed up to the end of its line |
| `JsonComments.BlockCommentIsRemoved` | src/core/python/core/settingsstore/jsonreader.py:54-65 | one in /* and */ is removed up to its first end |
| `JsonComments.OtherTextIsKept` | src/core/python/core/settingsstore/jsonreader.py:54-65 | any character that begins neither is kept |
| `RoundRobins.PutRoundrobinConserves` | src/core/python/core/roundrobin.py:28-59 | whatever other threads do meanwhile, a put adds its item behind all others, and discards nothing unless it finds the queue full, and then no more items than are put meanwhile: one, and one for every plain put of another thread |
| `RoundRobins.RefillsCostItems` | src/core/python/core/roundrobin.py:37-47 | that bound is attained, for any number of attempts, by threads that fill every gap |
| `RoundRobins.RunsConserve` | src/core/python/core/roundrobin.py:28-59 | over every run, with gets and plain puts in between, the items that found room are those that left in order followed by those queued, the queue stays within its limit, and the items of all overflowing puts are among them in order |
| `RoundRobins.PutDiscardsIff` | src/core/python/core/roundrobin.py:40-47 | a put discards an item if and only if it finds the queue full and, in some attempt, other threads leave an item; it discards from a full queue only if and only if in every attempt they leave it full or empty |
| `RoundRobins.PutAmidGetsDiscardsIff` | src/core/python/core/roundrobin.py:40-47 | if other threads only get items, that is if and only if they get fewer than there are before the discard, and none or at least as many as there are |
| `RoundRobins.InterruptedPutDiscardsWithRoom` | src/core/python/core/roundrobin.py:42-45 | a run in which an item is lost although the queue has room |
| `RoundRobins.DiscardsOnlyWhenFullIff` | src/core/python/core/roundrobin.py:28-59 | over every run, items are discarded from a full queue only, if and only if no put that found the queue full was interrupted by other threads that left room but some items |
| `RoundRobins.DiscardsOnlyWhenFull` | src/core/python/core/roundrobin.py:28-59 | if no other thread gets items before a discard, whatever it puts, at least a whole queue of newer items was put after every discarded one |
| `RoundRobins.Queue.PutNowait` | src/core/python/core/roundrobin.py:42 | an item is put unless the queue is full |
| `RoundRobins.Queue.GetNowait` | src/core/python/core/roundrobin.py:45 | the oldest item is taken, if there is one |
| `RoundRobins.Queue.PutRoundrobin` | src/core/python/core/roundrobin.py:40-49 | the retry loop ends with the item put, whatever other threads get and put between its steps |

## Left out

- SettingsStores.RecursiveMerge: nested dictionaries are values here; that a merged file's sub-dictionaries are adopted and changed in place, and may be shared with the caller's, is not captured.
- SettingsStores.SettingsStore.GetValue: types are predicates, and the conversion of a text is a parameter.
- Settings.SaveAndReloadIff: scalars that compare equal are one value, as booleans and numbers do; JSON text is taken to round-trip.
- SettingsStore.set, the search for files, parsers and file access.
- WatchProtocol.ClientPlusQueueIsServer: one emission or one connection is atomic, since the store takes no lock; the completion lemmas about the snapshot are for runs in which the queue does not overflow.
- WatchStream.SignalRequestHandler.Watch: the drain of the queue into the stream is a step of the protocol, and disconnecting in the end is left out: as written it names the last signal only.
- A queue size of None, which the documentation calls unlimited, cannot be compared in `queue.Queue` and is not modelled.
- Slots are queues; other callbacks, `connect_signal_data`, `disconnect_signal`, signal filters other than match-all, and `field_number` are left out.
- SignalStores.CachingSignalStore.EmitCachedTo: the wait for completion when a signal is missing from a cache that is not empty.
- Waiting for the completion event and its deadline; the schema of the signal messages is not part of this model.
- The order in which dictionaries are iterated: loops over keys are proved for any order.
- Threads, processes and the network: gRPC, ZMQ, HTTP and REST transports, stubs and interceptors.
- `setalarm`, `reschedule`, `getTask`, `isStarted`, `waitstart`, pending exceptions, generated handles and joining threads in the scheduler; its speed factor is 1.
- SchedulerTiming.NoSlotIsSkipped: sleeping lasts until the deadline, and the clock is real-valued.
- Alignment of tasks that are added before the timer has set its reference time, and daylight saving time: the offset of local time is a parameter.
- The expander's evaluators: the variable syntax, the Python expressions and the subprocess; `\u` escapes, which crash, are an error case.
- Templates.ExpansionEvaluatesTree: a single zero after a backslash, which reads differently before two octal digits, is covered by the expander but does not occur in template trees.
- Escaping.Escape: a negative start position.
- Durations: floating-point rounding, the `decimals` parameter, digits other than ASCII, and the conversions to and from `timedelta` and protocol buffers. The parameter `negative_sign` has no effect in the source and is omitted.
- RoundRobins.Queue.PutRoundrobin: other threads may get and put items in finitely many rounds, since the loop need not end otherwise; asyncio and multiprocessing queues.
- Parsing of the JSON text that remains without comments.
- Prefix and base functions, codecs, message builders, pub/sub clients, shells, CMake, IDL and C++ parts: thin wrappers, or library reflection.
