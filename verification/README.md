# Streaming client: verified models

Dafny models of the stateful core of a game-streaming client, with proofs of what that code promises
over whole runs. `dafny verify dfyconfig.toml` checks everything.

**Audio jitter buffer** (`lib/src/audioreceiver.c`). An eight-slot reorder buffer over wrapping 16-bit
frame numbers: prefill, store and evict, delivery or concealment in a loop, fed by a packet expander.
`AudioReceiver` is the code, in place on an array of slots, with a ghost unbounded index for every slot
and a heap that tracks each allocated copy. It refines `JitterSpec` (one locked section over unbounded
indices), and `JitterRuns` says what any interleaving of sections, and any run of whole calls, plays. The receiver
keeps ghost records of its sections and calls, so that those results are about the receiver itself.
`AudioPackets` does the same for packets, over `PacketExpansion`. Indices are assumed to be within the
serial window of what they are compared with; `SerialNumbers` proves that window exact.

**Pending video frames** (`gui/src/qmlmainwindow.cpp`). `PendingQueue` is the slot and the overflow deque
edited in place, one method per locked section; it refines `PendingSpec`, one bounded ordered list with a
ledger of what became of every frame.

**Pacing** (same file). `Pacer` is the arm/disarm/fire thread, refining the transition system `PacerSpec`;
`DeferredSwap` is the one-slot swap worker with its in-flight flag, refining `SwapSpec`; `DeadlineGrid` holds
the deadline arithmetic and the moving averages; `ResetSeed` the one-frame seed slot, refining `SeedSpec`.
Every mutex section is one atomic step and every interleaving of steps is a run; each object keeps a
ghost record of its run, and its methods' contracts draw on what is proved of all runs.

**Controller mapping** (`gui/src/qmlbackend.cpp`). `MappingText` parses and prints mapping strings;
`EditorSpec` says what an edit is; `MappingEditor` edits the forward and the inverse map in place.

Where a promise fails, the model keeps the code as it is and says exactly when it holds: a reset of the
in-flight flag while it is up (`SwapSpec.ResetCanLoseExactlyWhenUp`), a drain after a stop that found a
task in the slot (`SwapSpec.DrainAfterStop`), a warm-up frame behind a frame from before 0
(`PendingSpec.OrderBreaksExactlyBehind`), a missing audio sink (`AudioReceiver.Receiver.Deliver`), a repeated input in
a parsed mapping (`EditorSpec.ParsedIsConsistentUnlessRepeated`), a separator in a name
(`MappingText.RoundTrip`), the truncating average (`DeadlineGrid.RestingPoints`).

## Model

| member | source | states |
|---|---|---|
| SerialNumbers.ComparisonIsWrappedDistance | lib/include/chiaki/seqnum.h:16-34 | The 16-bit comparators decide by the wrapped distance: lt exactly for a distance between 0 and 2^15, gt exactly beyond 2^15, neither at 2^15. |
| SerialNumbers.FaithfulExactlyWhenNear | lib/include/chiaki/seqnum.h:16-34 | Within one period the comparators agree with the unbounded order if and only if the two indices are less than 2^15 apart. |
| SerialNumbers.OrderHasCycles | lib/include/chiaki/seqnum.h:16-34 | The 16-bit order is not transitive: three numbers are each less than the next, in a circle. |
| AudioReceiver.Receiver.FindSlot | lib/src/audioreceiver.c:280-288 | The equality scan finds the slot of an unbounded index if it is buffered, and -1 if it is not, for every index within the serial window. |
| AudioReceiver.Receiver.FindOldest | lib/src/audioreceiver.c:290-302 | The lt scan over wrapped numbers returns a slot with the true unbounded minimum; -1 exactly for an empty buffer. |
| AudioReceiver.Receiver.FindNewest | lib/src/audioreceiver.c:304-316 | The gt scan returns a slot with the true unbounded maximum; -1 exactly for an empty buffer. |
| AudioReceiver.Receiver.StoreFrame | lib/src/audioreceiver.c:318-363 | The in-place store (duplicate test, free-slot scan, eviction, copy) has on the slots exactly the effect of JitterSpec.Store on the map from unbounded indices to bytes; the evicted copy is released, a failed copy leaves the eviction standing. |
| JitterSpec.StoreKeepsOldest | lib/src/audioreceiver.c:318-363 | With the copy made, the buffer afterwards holds the 8 smallest indices of the old ones and the new one; duplicates are refused; every retained payload is unchanged; the result is true exactly if the new frame is now in. |
| JitterSpec.FailedCopyStillEvicts | lib/src/audioreceiver.c:330-354 | A frame whose copy fails is not stored; the newest frame of a full buffer, if newer, has been given up for it all the same. |
| JitterSpec.SectionKeepsWellFormed | lib/src/audioreceiver.c:147-255 | Every locked section keeps: at most 8 frames, fewer than 3 before playback, none behind the play head after. |
| JitterSpec.NonEmptyAlwaysPlays | lib/src/audioreceiver.c:201-247 | Progress: with playback started and frames held, a turn of the loop always makes the callback that is due, even when three or more frames are held and the lookahead test is in force, and advances the head by one. |
| JitterSpec.TurnInWords | lib/src/audioreceiver.c:190-247 | A turn without an offer: nothing below three frames; at three or more playback starts with the oldest and its bytes; once started, whatever is due while anything is held, with its bytes or as silence, and nothing otherwise. |
| JitterSpec.OfferedTurnInWords | lib/src/audioreceiver.c:179-199 | A frame behind the play head, or one that is not stored, ends the call without a callback; a stored one leaves the rest to a turn without an offer. |
| JitterRuns.OfferIsHeld | lib/src/audioreceiver.c:179-187 | An offered frame that is new gets in, with its own bytes, exactly if it is not behind the play head, its copy could be made, and there is room or something newer to give up; one held already stays as it is. |
| JitterSpec.ThreeAhead | lib/src/audioreceiver.c:230-233 | Three distinct indices above the play head force the lookahead test to pass. |
| AudioReceiver.Receiver.BeginPlayback | lib/src/audioreceiver.c:190-199 | Playback starts when three frames are held, at the least unbounded index. |
| AudioReceiver.Receiver.PlayNext | lib/src/audioreceiver.c:201-247 | Delivery or concealment: the 16-bit head, the slots and the previous index move exactly as the unbounded model says; a delivered copy leaves its slot and is owned by nobody else. |
| AudioReceiver.Receiver.MayConceal | lib/src/audioreceiver.c:220-237 | The 16-bit lookahead test decides what the unbounded comparison with `next + 2` decides, across a wrap too. |
| AudioReceiver.Receiver.AudioSection | lib/src/audioreceiver.c:149-255 | One section under the mutex, entered while other callers may be anywhere between their own section and the end of its sink call, refines JitterSpec.Section for an offered buffer and for a later turn without one; every live copy stays in exactly one slot or one caller's hands; the run of sections grows by this one. |
| AudioReceiver.Receiver.SectionsAreOrderly | lib/src/audioreceiver.c:141-266 | The 16-bit receiver, under any interleaving of sections, is where JitterRuns.Sections says, and the callbacks it decided have all the properties of JitterRuns.CallbacksAreConsecutive. |
| AudioReceiver.Receiver.Deliver | lib/src/audioreceiver.c:259-264 | Outside the mutex, whatever the other callers hold: the sink is called with the bytes and this copy is then released; without a sink a non-empty copy taken out of the buffer is leaked, and exactly then. |
| AudioReceiver.Receiver.HapticsFrame | lib/src/audioreceiver.c:158-177 | A haptics frame is delivered if and only if its unbounded index exceeds all before it, and bypasses the jitter buffer. |
| AudioReceiver.Receiver.Frame | lib/src/audioreceiver.c:141-266 | A whole call, loop included, terminates; every allocated copy is in exactly one slot or released exactly once; and the audio calls of the stream, this one included, explain the buffer and everything the sink heard (without a sink, how many copies were leaked); haptics leave the buffer and the audio sink alone. |
| AudioReceiver.Receiver.StreamIsHeard | lib/src/audioreceiver.c:141-266 | At any point of a stream, what the sink of the 16-bit receiver has heard is what JitterRuns.ListenerHears says of the calls whose copy could be made. |
| AudioReceiver.Receiver.ClearJitterBuffer | lib/src/audioreceiver.c:268-278 | Every buffered copy is released, every slot is free, the count is 0. |
| AudioReceiver.Receiver.StreamInfo | lib/src/audioreceiver.c:46-84 | A new stream header resets the receiver to its initial state and leaves no copy unreleased. |
| AudioReceiver.Receiver.constructor | lib/src/audioreceiver.c:19-38 | A new receiver is valid and empty, with the startup flag set. |
| JitterRuns.CallbacksAreConsecutive | lib/src/audioreceiver.c:141-266 | Over every interleaving of locked sections by any number of callers, the callbacks carry exactly consecutive unbounded indices, across any number of wraps, ending at the play head; callback i was made by a section in which its index was due, carries exactly the copy held for it then, and is NULL exactly when none was held (or the copy is of size 0); every payload played or held was offered under that very index. |
| JitterRuns.DrainPlaysOut | lib/src/audioreceiver.c:201-265 | The delivery loop plays every index from the head up to the newest held frame, conceals exactly the missing ones, and ends with an empty buffer and the head one past the newest. |
| JitterRuns.CallPlaysEverything | lib/src/audioreceiver.c:141-266 | Any call that makes a callback plays everything held, whatever other callers left there. |
| JitterRuns.SettledCall | lib/src/audioreceiver.c:141-266 | The whole effect of a single caller's call in each case: ignored, buffered, or played out from the head (or from the oldest when playback begins) to the newest. |
| JitterRuns.ListenerHears | lib/src/audioreceiver.c:141-266 | What is heard, told from the arrivals alone: nothing before the third distinct index; then every index from the oldest of that prefill to the greatest received, once each and in order, with its bytes if its first arrival was in time and as silence otherwise. |
| JitterRuns.InTimeIsHeard | lib/src/audioreceiver.c:141-266 | An arrival that is the first of its index and came in the prefill, or ahead of everything before it, is heard with its own bytes. |
| JitterRuns.HeardWasInTime | lib/src/audioreceiver.c:141-266 | Whatever is heard was such an arrival: later and repeated ones are never played. |
| JitterRuns.FailedCopiesAreSilent | lib/src/audioreceiver.c:348-354 | To a single caller an arrival whose allocation failed is one that never came. |
| JitterRuns.HapticsRise | lib/src/audioreceiver.c:158-177 | The haptics sink hears strictly rising indices, ending with the greatest received. |
| PacketExpansion.UnitsTileTheData | lib/src/audioreceiver.c:94-135 | The units of an accepted packet, one after the other, are its data: no byte dropped, repeated or shared. |
| PacketExpansion.UnitsCoverEachIndexOnce | lib/src/audioreceiver.c:121-135 | The units of a packet with `source` and `fec` units are offered under each index of [u - fec, u + source) exactly once; while the startup flag holds precisely the FEC indices below 1 are left out, so none wraps; no offered frame is empty. |
| PacketExpansion.UnitNumberWraps | lib/src/audioreceiver.c:121-132 | The 16-bit number computed for a unit is its unbounded index, wrapped. |
| PacketExpansion.HeaderIsRead | lib/include/chiaki/takion.h:55-57 | The header word size * 256 + f * 16 + s stands for s source units, f FEC units and units of that size. |
| PacketExpansion.AcceptedInWords | lib/src/audioreceiver.c:88-116 | Such a packet is accepted exactly if codec is 5, there is data, unitsTotal is s + f and the data has size * (s + f) bytes. |
| PacketExpansion.OffersInWords | lib/src/audioreceiver.c:121-134 | An accepted one offers u, u + 1, ..., u + s - 1 and then u - f, ..., u - 1, less the first of these at startup, each with its own size bytes of the data, in that order. |
| AudioPackets.NoteIndex | lib/src/audioreceiver.c:118-119 | The startup flag falls at the first packet index above 2^15; while it stands, the 16-bit index is the unbounded one. |
| AudioPackets.AvPacket | lib/src/audioreceiver.c:86-135 | A refused packet changes nothing; an accepted audio packet with header size * 256 + f * 16 + s adds one call for each of u, ..., u + s - 1, u - f, ..., u - 1 (less those skipped at startup), in that order and each with its piece of the data, to the calls that explain the buffer and the log, with a sink or without; an accepted haptics packet sends out the units that are newer than all before. |
| AudioPackets.CutUnit | lib/src/audioreceiver.c:121-134 | Unit i is numbered u + i, wrapped, if i < s, and u - f + (i - s), wrapped, otherwise, and gets piece i of the data cut into pieces of the header's size. |
| AudioPackets.HeaderFits | lib/src/audioreceiver.c:88-116 | With header size * 256 + f * 16 + s a packet is accepted exactly if codec is 5, there is data, unitsTotal is s + f and the data has size * (s + f) bytes. |
| PendingQueue.PendingFrames.Store | gui/src/qmlmainwindow.cpp:3661-3785 | A frame is accepted exactly if nothing waits, or a warm-up frame waits and it is a real one, or it is later by more than 1e-6 than the newest waiting (with the overflow disabled, than the slot); a refused frame leaves the queue as it is (cut to the slot when disabled); an accepted one replaces a warm-up frame or, when disabled, the slot, is appended while the overflow has fewer than max(6, 3 * depth) entries, and otherwise puts the overflow's oldest out; each loss is counted; with ownership the frame is consumed whatever the outcome; an absent frame or a failed clone changes nothing. |
| PendingQueue.PendingFrames.StoreEntry | gui/src/qmlmainwindow.cpp:3684-3776 | The locked section is the store step of the one-list model, which PendingQueue.StoreInWords gives entry by entry. |
| PendingQueue.StoreInWords | gui/src/qmlmainwindow.cpp:3684-3776 | The store step, entry by entry: when a frame is accepted, what waits afterwards, and what is counted as replaced or dropped, in each of its cases. |
| PendingQueue.PendingFrames.InsertOverflow | gui/src/qmlmainwindow.cpp:4040-4046 | The entry goes behind the entries that are not later than it by more than epsilon; later than all, it goes to the end. |
| PendingQueue.PendingFrames.Promote | gui/src/qmlmainwindow.cpp:4048-4073 | Moving the overflow's front into an empty slot does not change the list, and the present flag becomes non-emptiness. |
| PendingQueue.PendingFrames.Take | gui/src/qmlmainwindow.cpp:4075-4101 | Taking yields the head of the list, or nothing exactly for an empty list, and leaves the rest in order. |
| PendingQueue.PendingFrames.DropHead | gui/src/qmlmainwindow.cpp:4103-4118 | Dropping frees the head and nothing else, leaves the rest in order, counts nothing, and reports whether a frame is up. |
| PendingQueue.PendingFrames.PruneBefore | gui/src/qmlmainwindow.cpp:3950-4003 | Looking only at the slot and the overflow's front, it drops, frees and counts exactly the entries more than 1e-6 before the cutoff and the warm-up frame not more than 1e-6 after it; all others stay, in order; a negative cutoff does nothing. |
| PendingQueue.PendingFrames.CloneNewest | gui/src/qmlmainwindow.cpp:4005-4038 | It selects the last entry of the list. |
| PendingQueue.PendingFrames.ClearAll | gui/src/qmlmainwindow.cpp:3928-3948 | Every entry is freed once, the list is empty, the present flag is down. |
| PendingQueue.PendingFrames.DisableOverflow | gui/src/qmlmainwindow.cpp:5981-5993 | Switching the overflow off frees every overflow entry and keeps the slot. |
| PendingQueue.PendingFrames.HistoryIsAccounted | gui/src/qmlmainwindow.cpp:3661-4118 | At any point of any history of sections on the slot and the deque: every frame handed in is taken, held or freed, once; the order handed in is kept; the overflow is within any bound on the limits in use. |
| PendingSpec.FreshIsSuffix | gui/src/qmlmainwindow.cpp:3950-4003 | In an ordered list the stale entries are a prefix, so filtering the whole list is cutting a prefix off. |
| PendingSpec.RunStaysOrdered | gui/src/qmlmainwindow.cpp:3684-3776 | Over every run of stores, takes, drops, prunes, cuts and clears the list has strictly increasing pts with gaps above 1e-6, and a warm-up frame waits alone (never in the overflow). |
| PendingSpec.RunStaysBounded | gui/src/qmlmainwindow.cpp:3734-3760 | Over every run whose overflow limits are at most some bound, the overflow never holds more than that. |
| PendingSpec.RunConservesAndKeepsOrder | gui/src/qmlmainwindow.cpp:3661-3785 | Over every run frames handed in = taken + held + freed, as multisets, each freed one counted exactly once as a drop, a replaced warm-up or an uncounted discard; and the frames taken followed by those waiting are in the order handed in. |
| PendingSpec.OrderBreaksExactlyBehind | gui/src/qmlmainwindow.cpp:3703-3772 | Whatever the pts, a store breaks the order if and only if it queues a warm-up frame up behind a waiting frame. |
| PendingSpec.NegativePtsBreaksTheOrder | gui/src/qmlmainwindow.cpp:2860-2870 | Which takes a real frame from before 0: a concrete run. |
| PacerSpec.TargetIsAlwaysLeast | gui/src/qmlmainwindow.cpp:403-413 | Over every interleaving of arm, disarm, stop and the thread, the target is the minimum of everything armed since the pacer was last idle, and the pacer is armed exactly while something is pending. |
| PacerSpec.FiringIsSafe | gui/src/qmlmainwindow.cpp:433-468 | A fire is decided only when the clock has reached the target; the target is still pending, least of all pending, and armed after the last disarm, stop or fire; nothing is pending afterwards, so an armed episode fires at most once; after a stop nothing fires. |
| PacerSpec.ArmedExactlyWhilePending | gui/src/qmlmainwindow.cpp:404-430 | Over every interleaving the pacer is armed exactly while something armed is still pending. |
| PacerSpec.StoppedIsStopping | gui/src/qmlmainwindow.cpp:423-430 | The pacer is stopping exactly when a stop is in the run's past. |
| PacerSpec.NoWakeUpIsLost | gui/src/qmlmainwindow.cpp:433-468 | Over every interleaving a thread asleep and not notified is waiting for the right thing: untimed only when nothing is armed, timed only for the present target. |
| PacerSpec.DueTargetFires | gui/src/qmlmainwindow.cpp:433-468 | An armed target that is due is fired by the thread's next step, even after the 64-bit generation has come full circle. |
| PacerSpec.StopIsBounded | gui/src/qmlmainwindow.cpp:436-467 | After a stop the thread is not blocked and is gone after at most two of its own steps, whatever the callers do meanwhile. |
| Pacer.PacerThread.ArmAt | gui/src/qmlmainwindow.cpp:403-413 | arm is a step of the run: unless a stop was asked for the pacer is armed afterwards, with a target no later than the one given. |
| Pacer.PacerThread.DisarmNow | gui/src/qmlmainwindow.cpp:415-421 | disarm is a step of the run, after which nothing is pending. |
| Pacer.PacerThread.StopThread | gui/src/qmlmainwindow.cpp:423-430 | stopThread is a step of the run, after which nothing is pending. |
| Pacer.PacerThread.IsArmed | gui/src/qmlmainwindow.cpp:524-528 | isArmed holds exactly if some target was armed and has neither been disarmed, stopped nor fired since. |
| Pacer.PacerThread.LoopTurn | gui/src/qmlmainwindow.cpp:436-454 | A turn of the loop is a step of the run: if it fires, the target may fire (due, pending, least, no stop) and nothing is pending afterwards; if it goes to sleep, nothing is pending or the sleep is for the least pending target; the thread ends exactly if a stop was asked for. |
| Pacer.PacerThread.EndTimedWait | gui/src/qmlmainwindow.cpp:454-467 | The end of the timed wait, woken or timed out, is a step of the run: it fires only what may fire, and does fire whatever is due. |
| SwapSpec.StepKeepsSound | gui/src/qmlmainwindow.cpp:598-709 | Every event but a reset with the flag up keeps the invariant: the flag is up exactly while somebody is using the slot, a sleeping drain has work outstanding, an unwoken worker has none. |
| SwapSpec.RunIsSound | gui/src/qmlmainwindow.cpp:598-709 | In every run in which each outside reset finds the flag clear or comes after a stop, the tasks enqueued are those processed in order and once each, then the one in hand, then the one waiting; and until a stop the invariant holds: a pending or active task implies the flag, a sleeping drain has work outstanding. |
| SwapSpec.NothingIsOverwritten | gui/src/qmlmainwindow.cpp:7115-7143 | Whoever is about to enqueue finds the slot empty and the worker idle, so no queued task is overwritten. |
| SwapSpec.ResetCanLoseExactlyWhenUp | gui/src/qmlmainwindow.cpp:5188 | From a sound state some run that goes on from a reset, without further resets, loses a task (enqueued, and neither processed nor in hand nor waiting) if and only if the flag was up and no stop had been asked for. |
| SwapSpec.ResetCanLoseATask | gui/src/qmlmainwindow.cpp:5188 | A concrete run: a reset with a task in the slot lets the next task overwrite it, and the first is never processed. |
| SwapSpec.DrainIsBounded | gui/src/qmlmainwindow.cpp:630-635 | While a drain sleeps there is work left, each worker section leaves one less of at most four, nobody else adds any, and with none left every drain has been woken. |
| SwapSpec.StopIsBounded | gui/src/qmlmainwindow.cpp:645-698 | A stopped worker is gone after at most six of its own sections, whatever else happens. |
| SwapSpec.StopFreezesTheSlot | gui/src/qmlmainwindow.cpp:637-658 | From a stop on nobody fills the slot and nobody empties it: what is in it at the end is what was in it when the stop was asked for. |
| SwapSpec.DrainAfterStop | gui/src/qmlmainwindow.cpp:630-642 | Once a stopped worker is gone, a drain returns if and only if the slot was empty when stopThread was called; otherwise it and every later one sleep for ever, whatever follows. |
| SwapSpec.StopCanStrand | gui/src/qmlmainwindow.cpp:653-654 | It can happen: a run, without resets, in which the worker leaves a task behind. |
| DeferredSwap.DeferredSwapThread.LoadFlag | gui/src/qmlmainwindow.cpp:7115-7119 | The render thread defers exactly if it reads a clear flag, and then everything enqueued has been processed. |
| DeferredSwap.DeferredSwapThread.DeclineDeferral | gui/src/qmlmainwindow.cpp:5809-5810 | Giving up before the flag is set is a step of the run that moves the render thread only. |
| DeferredSwap.DeferredSwapThread.SetFlag | gui/src/qmlmainwindow.cpp:5818 | The flag is up before the task is handed over. |
| DeferredSwap.DeferredSwapThread.StopThread | gui/src/qmlmainwindow.cpp:637-642 | A stop wakes the worker and leaves the slot as it is. |
| DeferredSwap.DeferredSwapThread.EnqueueTask | gui/src/qmlmainwindow.cpp:606-615 | enqueue is refused exactly after a stop; otherwise, in every run with harmless resets, the slot it fills was empty, the worker idle, and every earlier task processed. |
| DeferredSwap.DeferredSwapThread.UnsetFlag | gui/src/qmlmainwindow.cpp:5818-5822 | A refused enqueue takes the flag down again. |
| DeferredSwap.DeferredSwapThread.ResetFlag | gui/src/qmlmainwindow.cpp:5188 | A session change takes the flag down whatever it says. |
| DeferredSwap.DeferredSwapThread.DrainTest | gui/src/qmlmainwindow.cpp:630-635 | drain returns exactly if nothing is pending or active, and then everything enqueued has been processed; otherwise it sleeps. |
| DeferredSwap.DeferredSwapThread.Fetch | gui/src/qmlmainwindow.cpp:649-658 | The wait loop leaves on a stop and sleeps on an empty slot; the task it takes otherwise is the first not yet processed. |
| DeferredSwap.DeferredSwapThread.RetireTask | gui/src/qmlmainwindow.cpp:669-674 | If nothing waits after a task, every drain is woken, with everything enqueued processed. |
| DeferredSwap.DeferredSwapThread.ClearFlag | gui/src/qmlmainwindow.cpp:675-679 | In a section of its own, and until a stop always with everything enqueued processed, the flag is taken down. |
| DeferredSwap.DeferredSwapThread.ReportIdle | gui/src/qmlmainwindow.cpp:680-692 | An update is scheduled if everything enqueued has been processed, and not while a task waits. |
| DeferredSwap.DeferredSwapThread.IsIdle | gui/src/qmlmainwindow.cpp:624-628 | Idle means that everything enqueued has been processed. |
| DeferredSwap.DeferredSwapThread.Leave | gui/src/qmlmainwindow.cpp:695-697 | The leaving worker is inactive and wakes every drain. |
| DeadlineGrid.CatchUpLoop | gui/src/qmlmainwindow.cpp:5718-5721 | The step-by-step catch-up loop terminates with the value of the closed form elapsed / interval + 1. |
| DeadlineGrid.CatchUpIsLeast | gui/src/qmlmainwindow.cpp:5655-5658 | That value is the least point of the old deadline's grid after now, and at most now + interval when the deadline had passed. |
| DeadlineGrid.ServedOnGrid | gui/src/qmlmainwindow.cpp:5710-5757 | Every list of deadlines served one after the other lies on one grid, with gaps of at least an interval, each after the time of its call. |
| DeadlineGrid.Throttle.DeadlinesStayOnGrid | gui/src/qmlmainwindow.cpp:5710-5757 | At any point, the deadlines that the throttle's calls have served since its grid was started (by a reset or a change of interval) lie on one grid, at least one interval apart, each after the time of its call. |
| DeadlineGrid.Throttle.Pace | gui/src/qmlmainwindow.cpp:5693-5764 | The deadline is the one left by the call before, caught up, if there was no reset and the interval changed by at most 1e-6 s, and now + interval otherwise; the wake-up is earlier than it by exactly the sum of the four estimates that are positive, or now if there is less room; the served deadline is added to the record of its grid and the next one is an interval later, unless a reset intervenes; without the user interface asking for a turn the call returns no earlier than the wake-up. |
| DeadlineGrid.Throttle.SleepUntil | gui/src/qmlmainwindow.cpp:5745-5751 | Sleeping in steps of at most a millisecond terminates, and ends before the wake-up only if the user interface asked for a turn. |
| DeadlineGrid.Throttle.ChooseWakeup | gui/src/qmlmainwindow.cpp:5722-5735 | The wake-up is earlier than the deadline by exactly the sum of the four estimates that are positive, or now if there is less room. |
| DeadlineGrid.BufferedSchedule.Schedule | gui/src/qmlmainwindow.cpp:5633-5674 | The deadline is kept while the interval is, and otherwise an interval after the last swap (or now); what is armed and whether to render now in each case, an overdue deadline being caught up past now; over any run of calls the deadlines armed since the schedule was anchored stay on one grid and never move back. |
| DeadlineGrid.EstimateStaysInRange | gui/src/qmlmainwindow.cpp:7057-7063 | For every sample sequence at a fixed interval the integer moving average stays between the least and the greatest accepted sample, and is 0 while none was accepted. |
| DeadlineGrid.OneMoreSample | gui/src/qmlmainwindow.cpp:6979-6988 | An accepted sample makes the estimate (7 * prior + sample) / 8, rounded down, or itself if there was none; a sample of more than two intervals is ignored. |
| DeadlineGrid.LeadIsBounded | gui/src/qmlmainwindow.cpp:5722-5735 | So the wake-up lead is at most six intervals plus the submit estimate. |
| DeadlineGrid.RestingPoints | gui/src/qmlmainwindow.cpp:6984-6987 | Under a constant sample the truncating average rests exactly at the sample or up to 7 below it, and otherwise moves towards it without passing it. |
| SeedSpec.SlotHoldsNewest | gui/src/qmlmainwindow.cpp:3822-3852 | Over every run the slot holds a frame offered since it took its generation, and none offered since is more than 1e-6 later. |
| SeedSpec.RequestGetsNewest | gui/src/qmlmainwindow.cpp:4422-4452 | A request is answered exactly if the last valid offer since the last request was for its generation, with a frame within 1e-6 of the greatest pts offered since; the slot is empty afterwards either way. |
| ResetSeed.SeedSlot.Store | gui/src/qmlmainwindow.cpp:3822-3852 | A clone is stored exactly if it was made, the generation is not 0, and the slot is empty, of another generation, or earlier by more than 1e-6; every clone made ends in the slot or is freed, as is the frame it replaces. |
| ResetSeed.SeedSlot.Request | gui/src/qmlmainwindow.cpp:4428-4445 | The locked section hands over the frame exactly for the generation it is of, frees it otherwise, and empties the slot. |
| MappingText.RoundTrip | gui/src/qmlbackend.cpp:2404-2412 | A mapping printed in any order of its keys and prefixed with a GUID parses back to the same map, list order included, if and only if no list is empty and no name contains a separator. |
| MappingText.PrintedFields | gui/src/qmlbackend.cpp:2404-2412 | Read back behind a GUID, the first two fields of what is printed are the GUID and the controller type, whatever the mapping. |
| MappingText.PrintedInOrder | gui/src/qmlbackend.cpp:2407-2412 | The keys are printed in the order in which the map is walked. |
| MappingText.ListPrintedInOrder | gui/src/qmlbackend.cpp:2410-2412 | The inputs of a key are printed in the order of its list, each as a comma, the key, a colon and the input. |
| MappingText.ParseIsPrintable | gui/src/qmlbackend.cpp:2292-2334 | Whatever the text, the map parsed from it has no empty list and no name with a separator, so it survives printing and parsing. |
| MappingText.PieceWithoutColon | gui/src/qmlbackend.cpp:2318-2320 | A piece without a colon changes nothing. |
| MappingText.PieceWithColons | gui/src/qmlbackend.cpp:2321-2327 | A piece with colons adds all its inputs, in order, behind those its key already has. |
| MappingText.StripUndoesPrepend | gui/src/qmlbackend.cpp:2164-2165 | Stripping up to the first comma undoes prepending a GUID. |
| MappingText.PrependUndoesStrip | gui/src/qmlbackend.cpp:2038-2044 | Prepending a GUID undoes stripping exactly for the mappings that carry that GUID; a text without a comma loses nothing and gains the prefix. |
| MappingText.IndexOf | gui/src/qmlbackend.cpp:2041-2042 | The index found is that of the first separator, and -1 means there is none. |
| EditorSpec.UpdateKeepsConsistent | gui/src/qmlbackend.cpp:2205-2265 | Every edit of a known button keeps the two maps consistent: an input is listed under a button if and only if the inverse map says so, no input stands twice, no list is empty. |
| EditorSpec.UpdateMovesTheInput | gui/src/qmlbackend.cpp:2235-2259 | The input belongs to the button afterwards, the input that stood at the index belongs to nobody, and every other input keeps its button. |
| EditorSpec.NewListInWords | gui/src/qmlbackend.cpp:2248-2258 | The button's new list: for index 0 the input and then the old list from its second entry on; for a later index within the list, the old list without that entry and then the input; otherwise the old list and then the input. |
| EditorSpec.UpdateChangesOnlyTwoLists | gui/src/qmlbackend.cpp:2237-2258 | The old owner's list loses the input where it stood and keeps the order of the others, or the entry goes when it had no other; no list but the new and the old owner's changes. |
| EditorSpec.NamesAreButtons | gui/src/qmlbackend.cpp:2207-2232 | Every name in the button table is a button, not a metadata entry, and free of separators. |
| EditorSpec.MetaInWords | gui/src/qmlbackend.cpp:2328-2329 | The entries without physical inputs are crc, platform, type, hint and those that start with sdk. |
| EditorSpec.PieceAssignsInputs | gui/src/qmlbackend.cpp:2321-2333 | A piece gives every input that its key has afterwards to that key, unless the key is one of those; nothing else changes owner. |
| EditorSpec.ParsedIsConsistentUnlessRepeated | gui/src/qmlbackend.cpp:2315-2334 | A parsed mapping that lists no input twice is consistent; when no entry has an empty name, only such a mapping is. |
| EditorSpec.RepeatedInputIsInconsistent | gui/src/qmlbackend.cpp:2315-2334 | A concrete text that lists an input under two buttons, and whose maps disagree. |
| EditorSpec.SessionStaysConsistent | gui/src/qmlbackend.cpp:2205-2265 | From any parsed mapping without repeated inputs, every sequence of edits keeps the maps consistent, and what is then printed parses back to the edited map. |
| EditorSpec.ReadIsParse | gui/src/qmlbackend.cpp:2292-2334 | The forward map the editor reads is the parsed mapping. |
| MappingEditor.Session.ParseMapping | gui/src/qmlbackend.cpp:2292-2340 | The nested loops compute the parsed editor state; too short a text, or an editor already in progress, changes nothing; the GUID and the type are the first two fields, a type of * being replaced by what the controller reports or by the default; a parsed text becomes the applied mapping and leaves the altered flag down. |
| MappingEditor.Session.UpdateButton | gui/src/qmlbackend.cpp:2205-2265 | The in-place edit computes EditorSpec.Update, leaves everything alone if the button has the input already, and otherwise gives the button the new list that EditorSpec.NewListInWords describes; it keeps consistency, and the altered flag equal to "the mapping differs from the applied one". |
| MappingEditor.Session.PrintMapping | gui/src/qmlbackend.cpp:2404-2412 | The nested loops print the type and the mapping; read back behind the GUID, what they print has the GUID and the type as its first two fields, and the mapping if and only if it is printable. |
| MappingEditor.Session.Quit | gui/src/qmlbackend.cpp:2375-2396 | Quitting leaves the editor blank, ready for the next mapping. |

## Left out

- Mutexes, condition variables and atomics themselves: each locked section is one atomic step; a failing lock or unlock (`lib/src/audioreceiver.c:149-154`, `250-257`) is not modelled.
- AudioReceiver.Receiver.Frame: is for a receiver that no other thread is in the middle of calling; any interleaving of callers is covered section by section by AudioReceiver.Receiver.AudioSection, AudioReceiver.Receiver.Deliver and AudioReceiver.Receiver.SectionsAreOrderly, but the order in which their sink calls then arrive is not.
- SwapSpec.RunIsSound: excludes runs in which a session change clears the flag while it is up before any stop; SwapSpec.ResetCanLoseExactlyWhenUp shows that exactly those resets can lose a task. The reset of a renderer fallback (`gui/src/qmlmainwindow.cpp:6497`) comes with the end of deferred swaps and is not told apart from it.
- PendingQueue.PendingFrames.Store: assumes real frames with pts >= 0 and warm-up frames with pts 0; PendingSpec.OrderBreaksExactlyBehind says exactly what happens otherwise.
- Qt, SDL, libplacebo, FFmpeg, Opus, sockets, settings and logging: frames are numbers or bytes, the clock is a parameter, the outcome of an allocation or a clone is a parameter.
- AudioReceiver.Receiver.FindOldest: like all of the audio model, assumes buffered indices less than 2^15 apart; outside that window the comparators are wrong, as SerialNumbers.FaithfulExactlyWhenNear states.
- Whether FEC units help: after playback has started the loop conceals past a gap before the FEC copies of the missing frames are offered, so nothing is claimed about repair.
- The packet statistics and the audio header contents.
- Pts and durations are exact reals, not doubles; clocks are unbounded integers, not 64-bit (the pacer's generation does wrap at 2^64).
- PendingQueue.PendingFrames.DropHead: does not count the drop, because the code's callers do (`gui/src/qmlmainwindow.cpp:3423-3424`); the ledger has it as a discard.
- The release of the stored-frame flag and the transition log of the pending queue; only the present flag is modelled.
- Frame ownership across the deferral path of queueStoredFrame (`gui/src/qmlmainwindow.cpp:4347-4358`): the model stops at the contract of a store.
- Pacer.PacerThread.EndTimedWait: takes the end of a timed wait to be at or after its target on the clock the code reads; the wake-up notification sent after a fire is not modelled. The buffered pacer (`gui/src/qmlmainwindow.cpp:490-586`) has the same code as the deferred one and is not modelled twice.
- What a deferred swap does, at most one render in flight, and monotonicity of the pts pushed to the libplacebo queue.
- DeadlineGrid.Throttle.Pace: leaves out the present-pacer's disarm and the statistics at the end of the call.
- DeadlineGrid.EstimateStaysInRange: takes the present interval as fixed over the run; the other conditions for taking a sample only shorten the sequence.
- SeedSpec.RequestGetsNewest: ends with the hand-over; the pruning and the queueing that follow are those of the pending queue.
- MappingText.RoundTrip: takes the order in which the map is walked as a parameter and holds for every order; the code walks it in ascending key order.
- EditorSpec.UpdateKeepsConsistent: is about known buttons; an unknown button code, which has the empty name, is modelled by MappingEditor.Session.UpdateButton but not claimed to keep consistency.
- Steam virtual controllers, the reset of a mapping to its default, and the calls that hand a mapping to SDL and to the settings.
- Host lists, discovery, account data, rental and settings code: it would add only easy members.
