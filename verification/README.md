# Verification of saftlib's timing and bus core

This project models the parts of saftlib in which one slip corrupts hardware state or a remote call, and proves what
they are for. Every module stands for one component:

- **The ECA condition compiler and its transactions** (`Basics`, `Bits`, `Counting`, `EcaConditions`, `EcaStack`,
  `EcaCompiler`, `EcaDevice`, `EcaCapacity`, `Eca`). Conditions select events by id and mask. The compiler turns the
  active ones into open and close records, sorts them, and translates them, with a stack kept as linked lists in an
  append-only table, into a search table and a walker table. It writes these to the inactive page of the unit through
  select and scratch registers and flips the pages. The reaction to an event is defined on the device side only, from
  the register map: the last search row at or below the event, then the list of walker rows. The central results:
  whatever the masks, the error for mismatched records is unreachable and an event executes one action per interval that
  contains it; the executed actions are those of the matching conditions for every event *if and only if* every mask is
  a prefix. Creation, every setter, both toggles, deactivation and removal are transactions on this meaning: the page in
  use is untouched by all writes but the last, and over every run the hardware executes what was compiled last, which
  are the active conditions exactly if it accepts them, provided that its walker table can hold their list. What becomes
  of rows written beyond that table the register map does not say; they are modelled by an arbitrary page.
- **The function generator driver** (`FgTuples`, `FgRing`, `FgMachine`, `FunctionGenerators`, `FgPool`). A growing queue
  on the host, a ring buffer in memory shared with a microcontroller (LM32) that may read between any two bus accesses,
  and a state machine driven by interrupts in any order. Over every run of the generators of a device, what the
  microcontroller has decoded is a prefix of what was queued, the signals are complete sessions and those under way, and
  all of these can occur; the assertion of the refill never fails, and no two generators share a channel.
- **The bus: wire format, framing and stubs** (`Wire`, `WireBuffers`, `Framing`, `Messages`, `Stubs`). Values are padded
  depending on their absolute position, so encoding is not compositional; reading back is proved with arbitrary bytes
  before and after. Frames, empty ones included, are cut into messages and reassembled under any pattern of short writes
  and any interleaving of writer and reader; what is put on one side is what is got on the other. On top, a call through
  a generated proxy is a direct call of the driver.
- **The deterministic allocator** (`ChunkAllocator`, `TieredAllocator`). Two index arrays kept inverse to each other by
  two swaps that may alias, and tiers of such pools before the system heap; they refine a set of live blocks.
- **Services and clients** (`Services`, `Teardown`, `Containers`, `SignalUse`). The object and path maps, child-first
  teardown, removal on behalf of clients, the clean-up after a client, and the use counts of signal file descriptors.

Where the code does not meet what one would expect of it, the model keeps the code and states exactly when it does:

- The capacity guard of the compiler does not protect the walker table when many intervals reach the last event;
  `EcaCapacity.GuardProtectsWalker` says for which numbers of such intervals it does.
- A creation that the hardware refuses is not undone. Until the set is accepted again, deactivations may be undone and
  removals may run into the failure that the source calls impossible; `Eca.ECA.InactivateAll` and
  `Eca.ECA.RemoveCondition` say exactly when, and `Eca.RemovalRefused` builds such a unit.
- The setters of id and mask skip the check for prefix masks that creation makes; `EcaDevice.ExactlyForPrefixMasks` says
  that the compiled meaning is exact for prefix masks only.
- The timeout that guards a reset is installed at most once in the life of a generator, because its handle never stops
  being connected. `FgMachine.UnguardedResetIsReached` is a run to a reset without it, and by
  `FgMachine.ResetEndsIffGuarded` a session being reset can end without the microcontroller exactly if it is installed.
- A queue of initial capacity zero never grows, and what is appended to it is lost but still counted in the fill level.
  `FunctionGenerators.FunctionGenerator.FillLevelIsQueued` says exactly when the fill level is what is queued, and
  `FunctionGenerators.ArmedWithNothing` arms a generator with an empty queue.
- The clean-up after a client repeats a refused removal forever; `Services.HangUpEndsIffUnhindered` says exactly when it
  comes to an end, and `Containers.NeverSettled` builds a container for which it does not.
- The comment in that clean-up says that children always have larger ids than their parents, and therefore are always
  destroyed before them. Nothing in the code ensures this: in `Containers.ParentGoesFirst` a parent is destroyed while
  its child is alive. By `Services.ChildrenGoFirstIffYounger` children go first exactly if what lies below an object
  that dies with the client dies as well and is younger. The teardown of the whole container destroys children first in
  any case; it goes youngest first, with one callback each, exactly if children are younger
  (`Containers.Container.Clear`).
- The teardown never ends while an object with the empty path is alive: `Teardown.TeardownEndsIffNoEmptyPath`, with
  `Containers.NeverTornDown` for a container that has one.
- An exception that is not a runtime error reaches the caller of a proxy as "unknown exception", and what the caller's
  variable holds is not sent with a non-const reference. `Stubs.TransparentIffSelfContained` says for exactly which
  functions a remote call is a direct one.
- Freeing a null pointer is counted as freeing a heap block; by `TieredAllocator.Allocator.Accounting` the count is
  right exactly if no null pointer has been freed.
- Where a write of nothing leaves an empty message, that of an empty frame is not read with the frame, and the next call
  fails on it. A reader that stops at the first failure gets everything exactly if empty frames leave no message or only
  the last frame is empty (`Framing.AllArriveIff`).
- Two clients may listen with the same file descriptor. When one of them hangs up, the services forget the other: by
  `SignalUse.Registry.ClientHungUp` the counts stay exact if and only if no other client listens with a descriptor of
  the one that goes, and `SignalUse.ListenerForgotten` is a registry where one does. As long as only registered proxies
  unregister, no run takes the count of a client below zero, which would be fatal (`SignalUse.Registry.Run`).

`dafny verify dfyconfig.toml` checks the whole project.

## Model

| member | source | states |
|---|---|---|
| `EcaConditions.PrefixBlock` | src/Condition.cpp:47-50 | a condition whose mask passes the check covers an aligned block of a power of two events, and masking an event clears its low bits |
| `EcaConditions.CoversIsMatches` | src/Condition.cpp:45-50 | for a prefix mask, lying in the interval of the records and agreeing with the id in the masked bits are the same |
| `EcaConditions.ExactIffPrefix` | src/Condition.cpp:47-48 | interval and meaning of a condition agree on all events if and only if its mask is a prefix |
| `EcaConditions.LowestBitOnly` | src/Condition.cpp:113-126 | a concrete mask that the setter accepts and that makes the condition cover an event it does not match |
| `EcaConditions.PrefixIntervalsLaminar` | src/ECA.cpp:313-314 | two prefix intervals are nested or disjoint |
| `EcaConditions.LessIsStrictWeakOrder` | src/ECA.cpp:314-324 | the comparison of records is a strict weak ordering, as sorting demands |
| `EcaConditions.CountRecords` | src/ECA.cpp:433-458 | counting records with a property is counting the conditions whose open or close record has it; no close record beyond the last event |
| `EcaCompiler.Sort` | src/ECA.cpp:467-468 | the result is a sorted permutation of the records |
| `EcaStack.MoreOpensThanCloses` | src/ECA.cpp:484-503 | before any close record more records were opened than closed, for arbitrary masks |
| `EcaStack.NeverUnderflows` | src/ECA.cpp:488-493 | no close ever finds the stack empty, so the error for mismatched records is unreachable; the height of the stack is opens minus closes |
| `EcaStack.HeightIsCoverCount` | src/ECA.cpp:484-503 | between two keys the stack is as high as the number of intervals that contain the event, for arbitrary masks |
| `EcaStack.CloseAhead` | src/ECA.cpp:484-503 | whatever is on the stack has its close record still to come |
| `EcaStack.TopEndsHere` | src/ECA.cpp:313-324 | a close record finds on top a record whose interval ends where the close record says, so popping without looking pops the right one |
| `EcaStack.StackInvHolds` | src/ECA.cpp:484-503 | for laminar intervals, after every record the stack is a part of the opened records, ordered by their ends, with exactly the records still open |
| `EcaStack.StackIsCover` | src/ECA.cpp:484-503 | for laminar intervals the stack between two keys is exactly the open records of the conditions that cover the event |
| `EcaCompiler.ChainStable` | src/ECA.cpp:495-500 | appending a walker entry leaves every list that starts below it unchanged, so search entries made earlier stay right |
| `EcaCompiler.PopCloses` | src/ECA.cpp:487-493 | the loop over the closes at one key keeps the list head equal to the stack; it fails only if a close finds the stack empty |
| `EcaCompiler.PushOpens` | src/ECA.cpp:495-500 | the loop over the opens at one key keeps the list head equal to the stack and all earlier search entries valid |
| `EcaCompiler.CompileKey` | src/ECA.cpp:484-503 | one pass of the main loop consumes at least one record, exactly those at its key, and adds the search entry that describes the stack |
| `EcaCompiler.BuildTables` | src/ECA.cpp:475-503 | the compiler fails exactly if the stack underflows; otherwise the tables describe the stack between any two keys, events strictly increase from 0, one walker entry per open record, links strictly decrease |
| `EcaCompiler.LookupBoundary` | src/eca_regs.h:55-56 | no record lies between the search entry found for an event and the event |
| `EcaCompiler.TablesMeaning` | src/ECA.cpp:416-503 | compilation preserves meaning: the list found for any event has one action per interval that contains it, and for prefix masks it is the multiset of actions of the matching conditions |
| `EcaDevice.OnlyFlipChangesActive` | src/eca_regs.h:41-67 | no register write but the flip changes the page that is executed |
| `EcaDevice.RegisterMap` | src/eca_regs.h:41-67 | what is written to each scratch register goes to its field of the row that is then written |
| `EcaDevice.ExecutesUnique` | src/eca_regs.h:54-61 | the reaction of a page to an event is determined |
| `EcaDevice.RowExecutes` | src/eca_regs.h:54-61 | a walker row executes its own fields, the offset as a signed number |
| `EcaDevice.WalkFollowsChain` | src/ECA.cpp:527-541 | walking the written rows executes the actions of the compiled list and ends, also across the conversion of -1 to 0xffff |
| `EcaDevice.PaddingKeepsLookup` | src/ECA.cpp:513-525 | padding the search table with its last entry leaves every lookup unchanged |
| `EcaDevice.HoldsMeans` | src/ECA.cpp:513-544 | a page that holds the tables of some conditions reacts to every event as they demand, whatever stale walker rows remain |
| `EcaDevice.ExactlyForPrefixMasks` | src/ECA.cpp:416-503 | a page that means some conditions executes exactly the actions of the matching ones for every event if and only if all masks are prefixes |
| `EcaDevice.Device.Write` | src/eca_regs.h:41-67 | one register write takes the step of the register map, recorded together with the page executed after it; any page may result from a row that does not exist |
| `EcaDevice.Device.WriteSearch` | src/ECA.cpp:518-524 | the five writes store one row of the inactive search table and nothing else; the page in use is steady throughout |
| `EcaDevice.Device.WriteWalker` | src/ECA.cpp:530-540 | the nine writes store one row of the inactive walker table and nothing else, if the table has that row; the page in use is steady throughout in any case |
| `EcaDevice.Device.Load` | src/ECA.cpp:513-546 | both writing loops and the flip: the page in use is steady through every write but the last, after which it holds the new tables if the walker table is large enough |
| `EcaCapacity.RecordCount` | src/ECA.cpp:433-458 | two records per condition, less one for each interval that reaches the last event |
| `EcaCapacity.SearchFits` | src/ECA.cpp:463-465 | the search list of an accepted set fits the search table |
| `EcaCapacity.GuardProtectsWalker` | src/ECA.cpp:463-465 | for exactly which numbers of intervals reaching the last event the guard implies that the walker list fits its table; two is always harmless |
| `EcaCapacity.ShrinkingIsAccepted` | src/ActionSink.cpp:503-508 | a part of an accepted set is accepted, so removing or deactivating conditions of an accepted set never hits the capacity error |
| `Eca.FlagsAreOr` | src/ECA.cpp:440-443 | the flags word is the bitwise or of the shifted acceptance bits |
| `Eca.Tables` | src/ECA.cpp:463-503 | for an accepted set sorting and the main loop never raise an error, and the tables fit the device |
| `Eca.Condition.Create` | src/Condition.cpp:37-56 | a condition is made if and only if its offset is in range, its interval starts at its id, and it covers exactly the events that it matches; it has the given fields and accepts delayed actions only |
| `Eca.Condition.ViewMeans` | src/ECA.cpp:433-446 | what the compiler sees of a condition: its sink's channel and number, its offset and tag, and a flag for each error that it accepts |
| `Eca.Condition.SetID` | src/Condition.cpp:98-111 | succeeds exactly if nothing changes, the condition is inactive or the new set is accepted; otherwise id and hardware are as before; either way the unit stays in order: what is executed is what was compiled last, and that is the active set exactly if it is accepted; a setter never unsettles an accepted set |
| `Eca.Condition.SetMask` | src/Condition.cpp:113-126 | the same for the mask |
| `Eca.Condition.SetOffset` | src/Condition.cpp:128-141 | the same for the offset |
| `Eca.Condition.SetAcceptLate` | src/Condition.cpp:143-155 | the same for the acceptance of late actions |
| `Eca.Condition.SetActive` | src/Condition.cpp:200-212 | the same for activation, which always recompiles |
| `Eca.ECA.Start` | src/ECA.cpp:575-590 | probing and the first compilation succeed exactly if the device has a capacity, which is the largest number that half the search table and the walker table can hold; the unit has no conditions and executes nothing |
| `Eca.ECA.CollectRecords` | src/ECA.cpp:420-461 | the records of all active conditions, in visiting order, and no others |
| `Eca.ECA.Compile` | src/ECA.cpp:416-547 | succeeds exactly if the guard accepts the active set; then the hardware switches once, and executes the set if its list fits the walker table; otherwise nothing has been written |
| `Eca.ECA.AlwaysLinkable` | src/ECA.cpp:475 | unless the tables have more than 0x4000 conditions to hold, the 16-bit links of an accepted set never overflow |
| `Eca.ECA.ToggleActive` | src/ECA.cpp:343-382 | flips exactly the conditions of the caller if the result is accepted, and changes nothing otherwise; the failure is not reported |
| `Eca.ECA.ToggleSink` | src/ActionSink.cpp:110-129 | flips exactly the conditions of one sink, or undoes the flips and reports the failure |
| `Eca.ECA.InactivateAll` | src/ECA.cpp:384-414 | deactivates exactly the conditions of the caller if what is left is accepted, and otherwise undoes this without notice; that never happens while what is active is what was compiled last |
| `Eca.ECA.RemoveCondition` | src/ActionSink.cpp:494-512 | removes exactly this condition; the recompilation fails exactly if the condition was active and what is left is not accepted, which is impossible while what is active is what was compiled last |
| `Eca.ECA.NewCondition` | src/ActionSink.hpp:488-504 | inserts and compiles; the insertion is not undone on failure, and then the hardware still executes what it did, with an active set that it does not accept |
| `Eca.ECA.CreateCondition` | src/ActionSink.hpp:488-504 | a condition is made and inserted exactly if its arguments are sane, with these arguments and the client as its owner; an error of the checks changes nothing, a refusal by the hardware leaves it inserted |
| `Eca.CreationRefused` | src/ActionSink.hpp:499-502 | a unit in which the creation of a third sane condition is refused, and that has it nevertheless |
| `Eca.RemovalRefused` | src/ActionSink.cpp:503-508 | in this unit a deactivation is undone, and removing an active condition fails |
| `Eca.ECA.ExecutesActive` | src/ECA.cpp:416-547 | if the active set is the one compiled last and its list fits the walker table, the page in use reacts exactly as the active conditions demand if and only if their masks are prefixes |
| `Eca.ECA.ExecutesConditions` | src/ECA.cpp:433-546 | if the active set is the one compiled last, its list fits the walker table and its masks are prefixes, an event executes exactly one action for each active condition that it fires: on the channel and number of its sink, with its offset, its tag and a flag for each error that it accepts |
| `Eca.AfterKeepsPrefixes` | src/Condition.cpp:47-48 | every change but that of a mask leaves masks that are prefixes so |
| `Eca.ECA.PrefixesReactExactly` | src/ECA.cpp:416-547 | a settled unit whose masks are prefixes reacts exactly as its active conditions demand |
| `Eca.ECA.Do` | src/Condition.cpp:98-212 | any change leads to the conditions that were asked for, or back if it is refused and not a creation or removal; it switches the page at most once, and not at all if it leaves a set that is not accepted; only a creation can lead to such a set |
| `Eca.ECA.Run` | src/ECA.cpp:343-414 | over every run of creations, setters, toggles, deactivations and removals the conditions are those that the changes lead to, and what is executed is what was compiled last, which is the active set exactly if it is accepted; without creations it always is; as long as no mask is changed the masks remain prefixes, and the reaction is exact |
| `FgTuples.ZeroMeansEmpty` | src/FunctionGeneratorImpl.cpp:557-560 | a total duration of zero means that there are no tuples |
| `FgTuples.DurationMeans` | src/FunctionGeneratorImpl.cpp:319-335 | a tuple lasts 250 * 2^step samples at the rate that freq selects |
| `FgTuples.EncodeFields` | src/FunctionGeneratorImpl.cpp:215-230 | the shifts and masks put every field at its place in the three words |
| `FgTuples.DecodeEncode` | src/FunctionGeneratorImpl.cpp:215-230 | reading the words back gives the tuple if and only if its fields fit their bits |
| `FgRing.WrappingInverse` | src/FunctionGeneratorImpl.cpp:132-149 | difference and sum of ring positions are inverse and stay in the ring |
| `FgRing.DeliveredIsPrefix` | src/FunctionGeneratorImpl.cpp:170-244 | what the microcontroller has decoded is a prefix of what was queued: no loss, duplication or reordering |
| `FgRing.UnreadIsQueued` | src/FunctionGeneratorImpl.cpp:193-207 | once what was read has been dropped, the queue is exactly what has not been read |
| `FgRing.ConsumeInv` | src/FunctionGeneratorImpl.cpp:180-191 | the microcontroller may read at any time without disturbing the refinement |
| `FgRing.PopInv` | src/FunctionGeneratorImpl.cpp:194-198 | dropping an entry known to be read keeps the refinement |
| `FgRing.WriteInv` | src/FunctionGeneratorImpl.cpp:232-236 | writing a free slot overwrites nothing that is still to be read |
| `FgRing.PublishInv` | src/FunctionGeneratorImpl.cpp:238-243 | moving the write pointer makes the staged entries part of the ring |
| `FgRing.ConsumeStaged` | src/FunctionGeneratorImpl.cpp:213-241 | reads between the writes of one refill leave the staged entries as they are |
| `FgMachine.SignalLanguage` | src/FunctionGeneratorImpl.cpp:246-317 | over every run, spurious messages included, the signals are complete sessions of the two allowed shapes, stopped for one reason at most, and what the session under way has emitted |
| `FgMachine.SessionIsReached` | src/FunctionGeneratorImpl.cpp:246-317 | every complete session, for all times and reasons to stop, is emitted by some run from an idle generator |
| `FgMachine.SignalsAreExactly` | src/FunctionGeneratorImpl.cpp:246-627 | the signals that runs from the start can emit are exactly the sequences of complete sessions followed by one under way |
| `FgMachine.SpokenStep` | src/FunctionGeneratorImpl.cpp:246-317 | any event continues the session under way or completes it |
| `FgMachine.IrqMeans` | src/FunctionGeneratorImpl.cpp:256-316 | which interrupts arm, disarm, start and stop a generator in which phase, and what each emits; all others do nothing |
| `FgMachine.ResetIsGuardedOnce` | src/FunctionGeneratorImpl.cpp:610-627 | a reset installs the timeout if and only if no earlier one did |
| `FgMachine.UnguardedResetIsReached` | src/FunctionGeneratorImpl.cpp:610-627 | a run of six events leads from the start to a session that is being reset without a timeout |
| `FgMachine.NoSecondTimeout` | saftbus/loop.hpp:60-68 | after the first timeout has gone, no run installs another |
| `FgMachine.UnguardedResetNeedsInterrupt` | src/FunctionGeneratorImpl.cpp:610-627 | without the timeout nothing but an interrupt ends a session that is being reset |
| `FgMachine.ResetEndsIffGuarded` | src/FunctionGeneratorImpl.cpp:587-627 | a session that is being reset can end without an interrupt if and only if the timeout is installed |
| `FunctionGenerators.FunctionGenerator.FifoPushBack` | src/FunctionGeneratorImpl.cpp:151-161 | the queue grows by the tuple across a change of capacity, and loses it exactly if the capacity is zero, which it then stays |
| `FunctionGenerators.FunctionGenerator.FillLevelIsQueued` | src/FunctionGeneratorImpl.cpp:338-345 | the fill level is the duration of what is queued if and only if the capacity is positive or nothing was appended since the queue was emptied; it is zero if and only if nothing is queued and nothing was lost |
| `FunctionGenerators.ArmedWithNothing` | src/FunctionGeneratorImpl.cpp:550-579 | a generator of capacity zero that is armed, and takes a channel, with nothing queued |
| `FunctionGenerators.FunctionGenerator.ReadOffsets` | src/FunctionGeneratorImpl.cpp:173-191 | the pointers read give the number of unread entries, which never exceeds the filled ones |
| `FunctionGenerators.FunctionGenerator.PopCompleted` | src/FunctionGeneratorImpl.cpp:193-204 | drops exactly the completed entries, subtracts their durations from the fill level, and asks for more exactly when the level becomes low |
| `FunctionGenerators.FunctionGenerator.WriteTuples` | src/FunctionGeneratorImpl.cpp:213-241 | writes and publishes the next entries while the microcontroller runs between the accesses |
| `FunctionGenerators.FunctionGenerator.Refill` | src/FunctionGeneratorImpl.cpp:170-244 | under any interleaving: the assertion that filled equals remaining holds, what was read is dropped, the ring is filled as far as possible, other channels are untouched |
| `FunctionGenerators.FunctionGenerator.Delivers` | src/FunctionGeneratorImpl.cpp:170-244 | within a session what was read is a prefix of what was queued at arming and appended since, and the queue is the rest of it that is not known to be read |
| `FunctionGenerators.FunctionGenerator.AcquireChannel` | src/FunctionGeneratorImpl.cpp:493-526 | takes the first free channel; fails, changing nothing, exactly if none is free |
| `FunctionGenerators.FunctionGenerator.ReleaseChannel` | src/FunctionGeneratorImpl.cpp:528-548 | returns the channel, removes the timeout, and empties the queue after an abort |
| `FunctionGenerators.FunctionGenerator.Flush` | src/FunctionGeneratorImpl.cpp:401-417 | empties the queue exactly if the generator is not enabled |
| `FunctionGenerators.FunctionGenerator.Arm` | src/FunctionGeneratorImpl.cpp:550-579 | succeeds exactly if the generator is not enabled, its fill level is not zero, which means that something is queued or was lost, and a channel is free; it steps as the state machine says, the ring holds the start of the queue and nothing is dropped |
| `FunctionGenerators.FunctionGenerator.IrqHandler` | src/FunctionGeneratorImpl.cpp:246-317 | for any code in any state: exactly when the generator is armed, disarmed, started and stopped and what is emitted then, as the state machine says; after a refill the queue is exactly what had not been read; exactly when the queue is emptied, a refill is requested and the microcontroller is told to clear its buffer |
| `FunctionGenerators.FunctionGenerator.StopRunning` | src/FunctionGeneratorImpl.cpp:298-316 | the flags of the stopped signal, and the queue is kept exactly after an underflow that is not an abort |
| `FunctionGenerators.FunctionGenerator.Reset` | src/FunctionGeneratorImpl.cpp:610-627 | steps as the state machine says; the microcontroller is told to stop once, and exactly the first reset ever installs the timeout |
| `FunctionGenerators.FunctionGenerator.ResetFailed` | src/FunctionGeneratorImpl.cpp:587-608 | supplies exactly the signals that the session lacks, as the state machine says, and frees the channel |
| `FunctionGenerators.FunctionGenerator.AppendParameterTuples` | src/FunctionGeneratorImpl.cpp:338-349 | all tuples are queued in order, or all lost if there is no capacity; on a channel the queue is then exactly what had not been read when the refill began, the ring is filled as far as possible, and a refill is requested exactly if the level has become low |
| `FunctionGenerators.FunctionGenerator.AppendParameterSet` | src/FunctionGeneratorImpl.cpp:352-399 | succeeds exactly if lengths and ranges are right; the tuples formed index by index are then queued behind the others, or lost if there is no capacity, what had been read is dropped and the ring is filled, and everything that is queued can be packed; an error changes nothing |
| `FunctionGenerators.Validate` | src/FunctionGeneratorImpl.cpp:364-380 | accepts exactly the sets whose lists have one length and whose fields are in range |
| `FunctionGenerators.Import` | src/FunctionGeneratorImpl.cpp:382-394 | tuple i has the i-th entry of each list in the field of that list |
| `FgTuples.ValidatedFits` | src/FunctionGeneratorImpl.cpp:374-380 | what passes the validation has a duration and fits its words |
| `FgPool.Pool.MarkedIffHeld` | src/FunctionGeneratorImpl.cpp:521-522 | a channel is marked with a generator if and only if that generator holds it |
| `FgPool.Pool.Exclusive` | src/FunctionGeneratorImpl.cpp:493-548 | no two generators hold the same channel |
| `FgPool.Pool.OneSteps` | src/FunctionGeneratorImpl.cpp:493-548 | a step of one generator leaves the invariants of all others intact |
| `FgPool.Pool.AfterEvent` | src/FunctionGeneratorImpl.cpp:246-627 | an event at one generator keeps the signals of all of them complete sessions and those under way |
| `FgPool.Pool.CleanDelivers` | src/FunctionGeneratorImpl.cpp:170-244 | if what is queued can be packed, the microcontroller has read the start of what was queued, on every channel |
| `FgPool.Pool.Do` | src/FunctionGeneratorImpl.cpp:246-627 | every event at any generator, any append, and reads of any channel do there what they should and nothing elsewhere; they keep generators, rings, the allocation and the signals in order, and what is queued fit to be packed |
| `FgPool.Pool.Run` | src/FunctionGeneratorImpl.cpp:151-627 | over every run in any interleaving: every generator is where its own events lead it and has emitted what they emit, so signals are complete sessions and those under way; what was read from every channel is a prefix of what was queued on it, if only validated sets or tuples that fit are appended |
| `Wire.RoundTrip` | saftbus/saftbus.hpp:140-300 | reading the type of a written value where its writing started gives the value and stops where the writing ended, whatever precedes and follows |
| `Wire.EntriesBack` | saftbus/saftbus.hpp:289-300 | the same for the entries of a map, which are inserted one by one |
| `Wire.FieldsBack` | saftbus/saftbus.hpp:140-300 | the same for values written one after the other |
| `Wire.MessageRoundTrip` | saftbus/saftbus.hpp:100-112 | a message is read back in order up to its exact end |
| `Wire.Layout` | saftbus/saftbus.hpp:140-198 | every value starts with its size or itself, padded by as few bytes as align it to its own length from the beginning of the buffer |
| `Wire.EntriesLayout` | saftbus/saftbus.hpp:186-196 | the entries of a map lie one after the other, each key before its value |
| `Wire.LeDigits` | saftbus/saftbus.hpp:140-150 | sizes are written least significant byte first |
| `Wire.InsertKeeps` | saftbus/saftbus.hpp:289-300 | inserting into a map loses or changes no entry and makes no key come twice |
| `WireBuffers.Serializer.Align` | saftbus/saftbus.hpp:149 | the loop appends padding up to the next multiple of the size |
| `WireBuffers.Serializer.PutValue` | saftbus/saftbus.hpp:140-198 | every overload appends what the format says |
| `WireBuffers.Deserializer.Align` | saftbus/saftbus.hpp:242 | the loop moves the cursor to the next multiple of the size |
| `WireBuffers.Deserializer.GetValue` | saftbus/saftbus.hpp:231-300 | every overload reads what the format says and leaves the cursor behind it |
| `WireBuffers.Deserializer.GetMap` | saftbus/saftbus.hpp:289-300 | the map read back, with duplicate keys ignored |
| `Framing.Channel.WriteAll` | saftbus/saftbus.cpp:40-64 | for every pattern of short writes the messages written are not empty, not longer than a chunk, and together the buffer; it stops at the first failing call; an empty buffer is one write of nothing |
| `Framing.Channel.ReadAll` | saftbus/saftbus.cpp:66-81 | reassembles exactly the bytes asked for: no message is cut and none beyond is touched; fails at the end of the channel or on an empty message, which it takes away; asked for nothing it takes nothing |
| `Framing.Channel.WriteTo` | saftbus/saftbus.cpp:83-105 | sends the four bytes of the size and then the bytes as one frame, which may be empty, behind those already on their way |
| `Framing.Channel.ReadFrom` | saftbus/saftbus.cpp:115-133 | receives the oldest frame exactly, empty or not; fails exactly if there is none, or the message of an empty frame that has been read is still there, which it then takes away |
| `Framing.Exchange` | saftbus/saftbus.cpp:40-133 | for any interleaving of writes and reads, empty frames included, the frames received are a prefix of those written, and the others are still on their way |
| `Framing.AllArriveIff` | saftbus/saftbus.cpp:115-133 | what arrives at a reader that stops at the first failure is everything if and only if empty frames leave no message or none but the last is empty |
| `Framing.Relay` | saftbus/server.cpp:146-153 | frames are sent, and then received until a call fails: exactly those arrive that `Framing.Arriving` says |
| `Messages.WriteTo` | saftbus/saftbus.cpp:83-87 | sends what was put as one frame and empties the buffer for the next message |
| `Messages.ReadFrom` | saftbus/saftbus.cpp:115-133 | receives the oldest frame and starts reading at its beginning |
| `Messages.Transmit` | saftbus/saftbus.hpp:100-112 | what is put on one side is what is got on the other, up to the exact end of the frame, for any pattern of short writes |
| `Messages.DispatchSignal` | saftbus/client.cpp:283-295 | every proxy of the object gets the arguments of a signal as they were sent, however many there are, because the cursor is saved and restored around each |
| `Stubs.RequestArrives` | saftbus-gen/saftbus-gen.cpp:1433-1463 | a request reaches the service of its object and the switch case of its numbers, with the inputs as they were |
| `Stubs.RequestLayout` | saftbus-gen/saftbus-gen.cpp:1445-1458 | a request is the numbers of object, interface and function, and then the inputs in order |
| `Stubs.ReplyLayout` | saftbus-gen/saftbus-gen.cpp:1092-1154 | a reply is 0, the outputs and the value, or 1 and the text of the exception |
| `Stubs.ArgumentsKeepOrder` | saftbus-gen/saftbus-gen.cpp:1092-1137 | exactly the non-const references are outputs, and inputs and outputs keep the order of the arguments |
| `Stubs.ReplyBack` | saftbus-gen/saftbus-gen.cpp:1465-1487 | the proxy makes of the reply what the driver did, except that an exception that is not a runtime error loses its text |
| `Stubs.Transparency` | saftbus-gen/saftbus-gen.cpp:1041-1154 | with the interface number assigned to the name of the class, a call through the proxy returns what the driver does on new variables, throws the text of its runtime errors, and "unknown exception" for all others; it is the direct call if and only if no text of another exception is lost |
| `Stubs.TransparentIffSelfContained` | saftbus-gen/saftbus-gen.cpp:1092-1137 | whatever the variables hold that are passed by reference, the call is a direct one if and only if the function reads no output and keeps to runtime errors |
| `Stubs.OutputIsNotSent` | saftbus-gen/saftbus-gen.cpp:1448-1453 | a registered driver that reads its output, for which the call is not a direct one |
| `Stubs.TextIsLost` | saftbus-gen/saftbus-gen.cpp:1148-1154 | a registered driver that throws an exception which is not a runtime error, for which the call is not a direct one |
| `Stubs.GoneObject` | saftbus/server.cpp:156-163 | a call to an object that has been removed is answered with the exception for that |
| `Stubs.NoSuchFunction` | saftbus-gen/saftbus-gen.cpp:1041-1154 | a call with numbers that the service does not know is not answered |
| `Stubs.InterfaceMap` | saftbus/service.cpp:148-173 | succeeds exactly if every requested name is implemented, and maps each to its last number |
| `ChunkAllocator.Pool.constructor` | saftbus/configurable_chunck_allocator_rt.cpp:8-20 | starts with identical index arrays and no live chunk |
| `ChunkAllocator.Pool.LiveIffInFront` | saftbus/configurable_chunck_allocator_rt.cpp:27-48 | exactly the live chunks sit at the front of the index array |
| `ChunkAllocator.Pool.Malloc` | saftbus/configurable_chunck_allocator_rt.cpp:27-31 | hands out a chunk that is not live, and makes it live |
| `ChunkAllocator.Pool.Free` | saftbus/configurable_chunck_allocator_rt.cpp:33-48 | takes back exactly the given chunk and keeps the arrays inverse, also when the swapped cells alias |
| `TieredAllocator.Allocator.Malloc` | saftbus/configurable_chunck_allocator_rt.cpp:108-117 | a block that is not in use, from the first tier whose chunks are large enough and not all allocated, or else from the heap; no other counter changes |
| `TieredAllocator.Allocator.Free` | saftbus/configurable_chunck_allocator_rt.cpp:128-142 | every live block goes back to the tier that issued it, or to the heap, and no other counter changes; a null pointer takes one from the heap count and nothing else |
| `TieredAllocator.Allocator.Routing` | saftbus/configurable_chunck_allocator_rt.cpp:67-70 | the arena of a tier contains the pointer of a live block if and only if that tier issued it |
| `TieredAllocator.Allocator.NoOverlap` | saftbus/configurable_chunck_allocator_rt.cpp:108-117 | live blocks, each with the size requested, do not overlap and have distinct addresses |
| `TieredAllocator.Allocator.Accounting` | saftbus/configurable_chunck_allocator_rt.cpp:108-142 | allocated chunks over all tiers and heap allocations together are the live blocks, less one for every null pointer freed; the heap count is right if and only if there was none |
| `Services.FewerBelowChild` | saftbus/service.cpp:56-74 | the recursion of the teardown is on strictly fewer objects |
| `Services.BelowContinues` | saftbus/service.cpp:60-63 | what lies below a path are its continuations by a slash |
| `Teardown.ResetProgresses` | saftbus/service.cpp:56-74 | a reset changes something unless the path is the root or empty |
| `Teardown.ResetSpares` | saftbus/service.cpp:56-74 | a reset never takes the root or an object with the empty path |
| `Teardown.ResetStaysBelow` | saftbus/service.cpp:56-74 | a reset destroys nothing but what is at or below the path |
| `Teardown.RoundKeeps` | saftbus/service.cpp:80-104 | a round keeps the root and all empty paths, and makes progress where there are none |
| `Teardown.TeardownEndsIffNoEmptyPath` | saftbus/service.cpp:75-107 | the rounds come to an end, with the root alone, if and only if no object has the empty path |
| `Services.HangUpEndsIffUnhindered` | saftbus/service.cpp:520-547 | the clean-up after a client comes to an end if and only if no object that dies with it is the root or has an object of a third client below it |
| `Services.UnhinderedRunEnds` | saftbus/service.cpp:520-547 | where nothing hinders it, the run of the clean-up ends with everything settled |
| `Services.HinderedThroughout` | saftbus/service.cpp:536-541 | a refused removal stays refused through every step |
| `Services.DyingGoInOrderIffYounger` | saftbus/service.cpp:521-527 | among the objects that die with the client none goes before one below it if and only if those below are younger |
| `Services.ChildrenGoFirstIffYounger` | saftbus/service.cpp:521-527 | youngest first is children first if and only if what lies below an object that dies with the client dies as well and is younger |
| `Containers.Container.CreateObject` | saftbus/service.cpp:346-363 | an object is registered exactly if its path is free, with an id larger than all there are; ids and paths stay inverse |
| `Containers.Container.ResetChildrenFirst` | saftbus/service.cpp:56-74 | computes `Teardown.Reset`: destroys only objects without live objects below them, and at least one unless the path is the root or empty |
| `Containers.Container.ClearRound` | saftbus/service.cpp:80-104 | a round resets the youngest object children first and erases what is gone; it makes progress unless an object has the empty path, and such an object survives it |
| `Containers.Container.Clear` | saftbus/service.cpp:75-107 | ends with the root alone; every other object is destroyed once and after those below it; youngest first with one callback each if and only if children are younger; in any case exactly the objects with a callback and no younger object above them call back |
| `Containers.NeverTornDown` | saftbus/service.cpp:80-104 | a container, built by creating one object, whose teardown never ends |
| `Containers.Container.RemovalHelper` | saftbus/service.cpp:391-438 | a removal is allowed exactly if the object exists, is not the root, and it and the objects below it belong to nobody or to the caller; otherwise the reason |
| `Containers.Container.RemoveObject` | saftbus/service.cpp:440-447 | removes exactly this object, or changes nothing |
| `Containers.Container.HangUpRound` | saftbus/service.cpp:529-545 | one step of the clean-up: the callback, then removal, which is logged, of an object with a callback that goes with its owner, or release of any other |
| `Containers.Container.ClientHungUp` | saftbus/service.cpp:520-547 | what the client owned and has a callback and goes with its owner is gone, the rest of what it owned is released, objects of others are unchanged; exactly its objects with a callback have called back, once each and youngest first; exactly those that die are destroyed, youngest first, and children before their parents if and only if they die and are younger |
| `Containers.NeverSettled` | saftbus/service.cpp:528-546 | a container, built by creating two objects, whose clean-up after a client never ends |
| `Containers.ParentGoesFirst` | saftbus/service.cpp:521-527 | a container, built by creating two objects, in which the clean-up destroys a parent while its child is alive |
| `SignalUse.TotalUseIsListeners` | saftbus/service.cpp:450-482 | summed over services, the counts for a file descriptor are at most the outstanding proxies, and just these where the counts are exact |
| `SignalUse.ClientsCoverServices` | saftbus/server.cpp:67-83 | all clients together count at least as many uses of a file descriptor as all live services together |
| `SignalUse.Registry.ClientCountsExactly` | saftbus/server.cpp:67-83 | a client counts exactly its proxies of live services with the file descriptor, and those whose service went while they were registered |
| `SignalUse.Registers` | saftbus/service.cpp:450-467 | registering keeps the counts of services and clients in order, and exact, whoever else uses the file descriptor |
| `SignalUse.Unregisters` | saftbus/service.cpp:468-482 | so does unregistering a registered proxy, and the client has a use left to release |
| `SignalUse.ClientGone` | saftbus/server.cpp:174-188 | removing the file descriptors of a client leaves the counts in order |
| `SignalUse.GoneExactly` | saftbus/server.cpp:180-184 | exact counts stay exact if and only if no other client listens to a live service with one of these file descriptors |
| `SignalUse.AfterKeeps` | saftbus/service.cpp:450-513 | every event keeps the counts in order, and exact if and only if it is not a client going whose file descriptor is shared |
| `SignalUse.AfterAllKeeps` | saftbus/service.cpp:450-513 | over every run the counts stay in order, and exact if no client goes whose file descriptor is shared |
| `SignalUse.Registry.AddService` | saftbus/service.cpp:346-363 | a new service, under an id that has never been used, has no listeners, and all counts stay in order |
| `SignalUse.Registry.RemoveService` | saftbus/service.cpp:440-447 | a service that goes takes its counts with it; its listeners remain counted by their clients |
| `SignalUse.Registry.Connect` | saftbus/server.cpp:111-134 | a new client uses no file descriptor, and all counts stay in order |
| `SignalUse.Registry.RegisterProxy` | saftbus/service.cpp:450-467 | registers exactly if the service is there and implements the interfaces; the counts stay in order, and exact, for any file descriptor |
| `SignalUse.Registry.UnregisterProxy` | saftbus/server.cpp:72-78 | the count of a client goes below zero exactly if the service is alive and no use is left, and never for a registered proxy, whoever shares its file descriptor |
| `SignalUse.Registry.RemoveSignalFd` | saftbus/service.cpp:508-513 | takes the file descriptor out of every service and changes nothing else |
| `SignalUse.Registry.ClientHungUp` | saftbus/server.cpp:174-193 | no service refers to a file descriptor of the client any more, and all other counts are unchanged; exact counts stay exact if and only if no other client listens with one of these file descriptors |
| `SignalUse.Registry.Run` | saftbus/server.cpp:72-79 | over every run of services and clients that come and go and of proxies that register and unregister, no count of a client goes below zero, and the state is the one that the events lead to |
| `SignalUse.ListenerForgotten` | saftbus/server.cpp:180-184 | a registry in which a client still listens although the service counts no use of its file descriptor, after another one has gone |

## Left out

- Eca.ECA.Run: sets of more than 0x8000 conditions that the guard accepts are left out, because their 16-bit links overflow and the source then reads its list out of range; by `Eca.ECA.AlwaysLinkable` this takes tables for more than 0x4000 conditions. A change that leads there, or names a condition that is not there, is skipped.
- Eca.ECA.Compile: the same, for the set that results.
- Eca.ECA.ToggleActive: the same, for the set that results.
- Eca.ECA.ToggleSink: the same, for the set that results.
- Eca.ECA.Do: the same, for the set that results.
- Eca.Condition.SetID: the same, for the set that results.
- Eca.Condition.SetMask: the same, for the set that results.
- Eca.Condition.SetOffset: the same, for the set that results.
- Eca.Condition.SetActive: the same, for the set that results.
- Eca.Tables: the same, for the set that results.
- Eca.ECA.NewCondition: the same, for the set that results.
- Eca.ECA.CreateCondition: the same, for the set that results; owning and disowning a condition later is not modelled.
- Eca.ECA.InactivateAll: the same, for the set that results.
- Eca.ECA.RemoveCondition: the same, for the set that results.
- EcaCompiler.PushOpens: record lists with more than 0x8000 opens, for the same reason.
- EcaCompiler.CompileKey: record lists with more than 0x8000 opens, for the same reason.
- EcaCompiler.BuildTables: record lists with more than 0x8000 opens, for the same reason.
- Eca.Condition.SetAcceptLate: the same; the setters for early, conflict and delayed differ from it in the field only and are not repeated.
- Eca.ECA.CollectRecords: the nesting of channels, sinks and their maps of conditions is flattened to one list in visiting order.
- EcaDevice.Device.Load: lists of more than 0x8000 entries, for the same reason.
- FunctionGenerators.FunctionGenerator.Refill: a bus access that throws is not modelled, nor are handlers of signals that call back into the generator.
- FunctionGenerators.FunctionGenerator.AppendParameterTuples: the fill level is unbounded (64 bits in the source), and tuples whose step or frequency index a table out of range are excluded, as they are by the checked way of appending.
- Wire.RoundTrip: maps are lists of entries with distinct keys; `std::vector<bool>` and vectors of records are not modelled, and sizes are below 2^64.
- Framing.Channel.WriteTo: frames are smaller than 2^31 bytes. Nothing is claimed about reading after a failed write, which leaves part of a frame behind.
- Framing.Channel.ReadFrom: a reader that waits is not modelled apart from one that reads later.
- Stubs.Transparency: parsing of C++ declarations and the text of the generated files are not modelled.
- Messages.DispatchSignal: the order in which proxies are notified is that of their list; what they do with the arguments is not modelled.
- Containers.Container.Clear: only what ends can be a method, so there must be no object with the empty path; `Teardown.TeardownEndsIffNoEmptyPath` covers the others. Destruction callbacks leave the container alone, and a path is read before its object is destroyed (the source passes it by reference).
- Containers.Container.ClientHungUp: only what ends can be a method; `Services.HangUpEndsIffUnhindered` covers the rest. Destruction callbacks leave the container alone, and the client is the calling client throughout, as it is while its last request is handled.
- Containers.Container.CreateObject: object ids are unbounded, so the wrap-around of the generator is not modelled.
- TieredAllocator.Allocator.Malloc: the system heap always delivers and is given by what it promises; reading the configuration is not modelled.
- SignalUse.Registry.Run: only what has registered unregisters, as the proxies do; what a single call does for anything else, `SignalUse.Registry.UnregisterProxy` says. File descriptors are not reused by the operating system.
- Etherbone, sockets, plugins, polling, logging and the event loop itself: only registers, a message channel, the system heap and the order of events remain of them.
- Sending signals through `Service::emit`, plugins of the container and its status report.
- `src/Time.cpp`, `src/SerdesClockGen.cpp`, the I/O drivers, the other function generators, and the command line tools.
