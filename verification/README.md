# Verified model of the OpenMRN alias, event, datagram and executor core

OpenMRN is an OpenLCB (LCC) stack for model railroads. This project models the
parts of it whose correctness is not visible from reading one function, and
proves what they are for. Code that works in place is modelled in place:
classes with the original's fields, arrays, links and loops. Each such method
is proved against a specification, and the hard statements are lemmas about
the specification.

* **Aliases.** `AliasProtocol` runs any number of nodes on a broadcast bus: four
  check frames, the 200 ms wait, the reservation, and the conflict handler on the
  other side. Messages wait in inboxes for any time and in any order. No two
  nodes ever hold one alias, provided that a timer which nobody cut short
  expires only after the checks were handled and the answers are in; without
  that proviso the claim is false, and a run shows it. `AliasTrace` says what one node
  does over a run: which frames it sends before a reservation, when it starts over,
  when it gives an alias away. `AliasAllocator` is the flow of one
  node in place and does exactly the protocol's steps. `AliasMirror` ties the entries
  of the local cache to what the protocol says a node holds: an eviction is one more
  step, in which the node forgets an alias. `AliasCache` is the pool
  of slots with its free list, its doubly linked list and its two maps;
  `RecencyList` is what it amounts to, `AliasSlots` what each edit does to the
  links, `AliasCheck` the original's own consistency check. `LcgCycle` has the
  number theory that makes the two search loops end.
* **Consists.** `ConsistFlood` is one train forwarding a command to its
  listeners; `ConsistNetwork` runs all trains of a tree of listener links.
* **Events.** `EventRange` has the two ways to find a block around a range of
  events, the identifier that names a block, and its two decoders; `EventIndex`
  the registry with one sorted list per block length.
* **Datagrams, text, streams.** `Datagram` cuts and reassembles;
  `DatagramHistory` says when a frame is rejected, by the frames before it.
  `GridConnect` prints, parses and resynchronises, and `GridText` says what its
  texts mean, digit by digit; `Segmenter` cuts a byte stream into
  messages.
* **Numbers and executor.** `HalfFloat` rounds to binary16; `TimerList` is the
  linked list of timers; `FixedPool` the pool with one queue for buffers and
  waiting clients; `FastClock` the search for the next alarm.

`Bits` holds bitwise operators on naturals, with their arithmetic meaning, and
`Options` the type of a value that may be missing.

## What turned out different from what the code or its comments say

* The comment that two interfaces less than 2048 apart step through different
  aliases (src/openlcb/AliasAllocator.cpp:258-262) is too strong. Two steps are
  equal if and only if the last 11 bits of the IDs differ just as the bits folded
  into them do: `AliasAllocator.StepsAgree`. Within one block of 4096 IDs the
  comment is right: `AliasAllocator.StepsInOneBlock`. Across blocks 0x801 and
  0x1000 are an exception: `AliasAllocator.StepsCanAgree`.
* When a node that was marked as not responding announces its alias, the update
  removes by the value NOT_RESPONDING, and that is the stored form of the mark
  in slot 0 only: the entry that goes is the one in slot 0 if it is marked,
  whichever node it is for. An entry that has nothing to do with the new pair and
  is not evicted goes if and only if the announcing node is marked and slot 0 has
  that entry's mark: `RecencyList.AnnouncedKeeps`, with a cache that loses an
  entry so in `AliasCache.AnnouncementLosesMark`.
* The listener index of the traction flow has 8 bits, and the list no limit. A
  command ends if and only if there are at most 255 listeners, or 256 and the last
  one is sent a copy; else the train forwards for ever: `ConsistFlood.FinishesExactly`.
* The text parser does not limit the data bytes of a frame. It stays inside the
  eight that there are if and only if what follows the N or the R does not begin
  with 18 hex digits: `GridConnect.StoresFit`. XN and 18 zeros is a text that the
  stream parser lets through, and that stores nine: `GridConnect.LongTextStores`.
* `EncodeRange` compares with the last event and not with the end of a range.
  For three or more events its result names the block that `align_mask` finds
  if and only if the last event is not the first of the upper half of that
  block: `EventRange.EncodeDecode`. A block and one event more, such as the events
  0 to 2, fail: `EventRange.UnnameableRange`. One event is never named, two only from a
  multiple of four plus two on.
* The closed-form and the bit-by-bit decoder differ at 0 and at 2^64 - 1, and
  nowhere else: `EventRange.DecodersAgree`.
* An entry that is not aligned to its mask is not found for every event of its
  block: `EventIndex.AlignmentIsNeeded`.
* Half-precision NaNs up to 0x7F80 come back as infinities from a trip through
  single precision: `HalfFloat.ThereAndBack`.
* After a stream parser was left in the middle of a frame, the next bytes can
  complete one frame too many, exactly when a semicolon comes before the buffer
  overflows: `GridConnect.Resynchronises`.

## Model

| member | source | states |
|---|---|---|
| AliasProtocol.MutualExclusion | src/openlcb/AliasAllocator.cpp:206-342 | In every run of any number of nodes no alias is in two local caches, given that a timer nobody cut short expires only after its checks are handled and the answers are in |
| AliasProtocol.RunInv | src/openlcb/IfCan.cpp:112-206 | The pairwise invariant of checker and defender holds in every state of every run: a tester of a held alias has a check or an answer still under way |
| AliasProtocol.StepInv | src/openlcb/IfCan.cpp:112-206 | Every single step of a node, with what it broadcasts, keeps that invariant for all nodes |
| AliasProtocol.TakeAlias | src/openlcb/AliasAllocator.cpp:281-342 | A timer that does not wait lets a node reserve any alias, whoever else holds it |
| AliasProtocol.WaitIsNeeded | src/openlcb/AliasAllocator.cpp:267-279 | Without the 200 ms assumption there is a run that ends with one alias held twice |
| AliasTrace.FourChecks | src/openlcb/AliasAllocator.cpp:206-343 | In every run, timed or not: when a node comes to its reservation it has sent exactly checks 7, 6, 5 and 4 for the alias since it started; it sends the reservation, and has the alias, if and only if it took up no frame with the alias meanwhile |
| AliasTrace.NextCheck | src/openlcb/AliasAllocator.cpp:267-299 | In every run the checks go out one by one from 7 down; after a frame with the alias no further check goes out, and the node starts over |
| AliasTrace.TestEnds | src/openlcb/AliasAllocator.cpp:301-343 | A test ends with a reservation, or after a frame with the alias, and in no other way |
| AliasTrace.TestHistory | src/openlcb/AliasAllocator.cpp:206-343 | The invariant behind these: what has been sent since the last start, and when the conflict flag is set |
| AliasTrace.OnlyReserved | src/openlcb/AliasAllocator.cpp:325-343 | A node gets an alias in the very step in which it sends the reservation, and in no other |
| AliasTrace.OnlyLost | src/openlcb/IfCan.cpp:184-205 | It loses one by eviction or by giving it up, and in no other way |
| AliasTrace.Defence | src/openlcb/IfCan.cpp:112-205 | A check of a held alias is answered; other foreign traffic costs the node the alias, and the mapping reset goes out exactly for the alias of a real node |
| AliasTrace.GivenUp | src/openlcb/IfCan.cpp:157-205 | In every run an alias is given up only after foreign traffic with it that is not a check, and the mapping reset goes out exactly if the alias is still there and is a real node's |
| AliasTrace.TraceOfRun | src/openlcb/AliasAllocator.cpp:206-343 | The runs of the exclusion theorem are among these runs |
| AliasAllocator.SeedCycle | src/openlcb/AliasAllocator.cpp:249-265 | All 4096 seeds come up before one repeats, for every interface ID |
| AliasAllocator.SeedReaches | src/openlcb/AliasAllocator.cpp:249-265 | From every seed every alias is reached within 4096 steps |
| AliasAllocator.StepsAgree | src/openlcb/AliasAllocator.cpp:249-262 | Two interfaces take the same step if and only if the last 11 bits of their IDs differ just as the bits folded into them do |
| AliasAllocator.StepsInOneBlock | src/openlcb/AliasAllocator.cpp:258-262 | In one block of 4096 IDs that is so exactly for IDs a multiple of 2048 apart, so never for different IDs within 2048 |
| AliasAllocator.StepsCanAgree | src/openlcb/AliasAllocator.cpp:258-262 | Across blocks the comment fails: 0x801 and 0x1000 take the same step |
| AliasAllocator.StepPartsCount | src/openlcb/AliasAllocator.cpp:249-257 | Every 12-bit part of the interface ID counts: IDs that differ in one of them only take different steps, if they differ in its last 11 bits |
| AliasAllocator.FirstPartsCount | src/openlcb/AliasAllocator.cpp:58-64 | Every part counts for the first seed: IDs that differ in one of them only start with different seeds |
| AliasAllocator.FirstSeedsDiffer | src/openlcb/AliasAllocator.cpp:58-64 | Interfaces whose 48-bit IDs differ in the last 6 bits only start with different seeds |
| AliasAllocator.AliasAllocator.constructor | src/openlcb/AliasAllocator.cpp:44-56 | A new flow has nothing pending, and the seed made from the interface ID |
| AliasAllocator.AliasAllocator.NextSeed | src/openlcb/AliasAllocator.cpp:249-265 | The 16-bit computation is one step of a full-period generator on 12 bits |
| AliasAllocator.AliasAllocator.GetNewSeed | src/openlcb/AliasAllocator.cpp:224-247 | Ends within 4096 probes when some alias is in neither cache, with the first such alias in seed order; the caches keep their mappings |
| AliasAllocator.AliasAllocator.Entry | src/openlcb/AliasAllocator.cpp:206-222 | A given alias is kept and the caches are left alone; without one the flow finds an alias that is in neither cache; either way it does the protocol's start step, and the first check will be number 7 |
| AliasAllocator.AliasAllocator.SendChecks | src/openlcb/AliasAllocator.cpp:206-299 | From the start to the wait, without a conflict, exactly the checks 7, 6, 5 and 4 go out for the pending alias |
| AliasAllocator.AliasAllocator.SendCidFrame | src/openlcb/AliasAllocator.cpp:267-299 | Does the protocol's check step: burns the alias after a conflict, else sends one check and sleeps after the fourth |
| AliasAllocator.AliasAllocator.HandleAliasConflict | src/openlcb/AliasAllocator.cpp:301-312 | The flow is back at its start, and the alias is burnt: nothing is pending |
| AliasAllocator.AliasAllocator.WaitDone | src/openlcb/AliasAllocator.cpp:314-323 | Does the protocol's timer step |
| AliasAllocator.AliasAllocator.SendRidFrame | src/openlcb/AliasAllocator.cpp:325-343 | Does the protocol's reservation step, and puts the alias into the local cache if and only if it was reserved |
| AliasAllocator.AliasAllocator.GetAllocatedAlias | src/openlcb/AliasAllocator.cpp:159-200 | Gives out the first entry above the reserved base, which is mapped to the node afterwards, if and only if it is stored under its reserved ID; if all reserved entries are, it gives one out whenever there is one; asks for another exactly when none is left |
| AliasAllocator.ReservedEntriesStay | src/openlcb/AliasAllocator.cpp:141-157 | Reserving and assigning keep every reserved alias under the node ID made from it |
| AliasAllocator.ReservedEntriesKept | src/openlcb/AliasCache.cpp:412-451 | So do removals and lookups |
| AliasAllocator.AliasAllocator.ConflictHandlerSend | src/openlcb/AliasAllocator.cpp:345-362 | Does the protocol's conflict step; triggers the timer exactly at the first conflict of a sleeping flow |
| AliasMirror.AddMirrors | src/openlcb/AliasCache.cpp:293-410 | If the entries are what a node holds in the protocol, they are so after an add, when the node takes the new pair and forgets every reported entry |
| AliasMirror.ReservationStep | src/openlcb/AliasAllocator.cpp:325-343 | Reserving in the cache is the protocol's reservation step and one Forget per reported entry |
| AliasMirror.AssignmentStep | src/openlcb/AliasAllocator.cpp:173-176 | Handing out in the cache is the protocol's assignment step and one Forget per reported entry |
| AliasMirror.RemovalStep | src/openlcb/IfCan.cpp:180-205 | A removal is a Forget step, or the step after a conflict; a lookup changes nothing for the protocol |
| AliasMirror.LocalEntriesStay | src/openlcb/AliasCache.cpp:293-451 | A local cache keeps only real aliases |
| LcgCycle.FullCycle | src/openlcb/AliasCache.cpp:560-575 | A full-period recurrence modulo a power of two reaches every residue from every start |
| LcgCycle.NoRepeat | src/openlcb/AliasAllocator.cpp:258-262 | It does not repeat a value before it has gone through all of them |
| LcgCycle.Periodic | src/openlcb/AliasAllocator.cpp:258-262 | After as many steps as there are residues it is back at its start |
| RecencyList.RunDistinct | src/openlcb/AliasCache.cpp:293-451 | No sequence of operations, removals by NOT_RESPONDING among them, ever gives two entries for one node or one alias, or more than fit |
| RecencyList.RunByRecency | src/openlcb/AliasCache.cpp:293-451 | After any sequence of operations, removals by NOT_RESPONDING among them, the entries stand in the order of their last use |
| RecencyList.SurvivesAdd | src/openlcb/AliasCache.cpp:293-410 | An entry leaves on an add if and only if it contradicts the new pair or is the oldest of a full cache |
| RecencyList.ReportedMembers | src/openlcb/AliasCache.cpp:300-365 | What the add reports is what contradicts the pair, and the oldest of the rest if that fills the cache |
| RecencyList.AddMembers | src/openlcb/AliasCache.cpp:293-410 | After an add the entries are those it did not report, and the new one |
| RecencyList.AnnouncedKeeps | src/openlcb/IfCan.cpp:258-277 | An entry that does not contradict the announced pair and is not evicted goes if and only if the node is marked and slot 0 holds that entry's mark |
| RecencyList.AnnouncedPair | src/openlcb/IfCan.cpp:258-277 | After an announcement the pair is in front, nothing contradicts it, and nothing else is new |
| RecencyList.PurgedReportOrder | src/openlcb/AliasCache.cpp:300-332 | The holder of the alias is reported before that of the node |
| RecencyList.PurgedIsClean | src/openlcb/AliasCache.cpp:300-332 | After the purge no entry has the node or, if it is a real one, the alias |
| AliasSlots.ResolveIsBitTest | src/openlcb/AliasCache.cpp:50-61 | The bit test for a not-responding entry is a comparison |
| AliasSlots.ReleaseStep | src/openlcb/AliasCache.cpp:412-451 | Unlinking a slot keeps free list, double links and both maps consistent, and drops exactly its entry |
| AliasSlots.TouchStep | src/openlcb/AliasCache.cpp:580-604 | Relinking a slot keeps all of that, and moves exactly its entry to the front |
| AliasSlots.EvictStep | src/openlcb/AliasCache.cpp:334-365 | Unlinking the oldest slot drops exactly the last entry |
| AliasSlots.InsertStep | src/openlcb/AliasCache.cpp:367-399 | Filling a slot and linking it in puts exactly its entry in front |
| AliasSlots.IndexMeaning | src/openlcb/AliasCache.cpp:495-543 | The two maps find exactly the entries of the list |
| AliasSlots.SentinelUnused | src/openlcb/AliasCache.cpp:367-374 | The not-responding alias made for a free slot is not in the map: the original's assertion never fails |
| AliasCheck.CheckConsistency | src/openlcb/AliasCache.cpp:63-258 | The invariant makes every condition of check_consistency hold, in the original's terms |
| AliasCache.EveryAliasIsDrawn | src/openlcb/AliasCache.cpp:560-575 | From every 48-bit seed every alias is drawn |
| AliasCache.SeedDigitsCount | src/openlcb/AliasCache.cpp:564-565 | Every 12-bit digit of the seed counts: seeds that differ in one of them only give different aliases |
| AliasCache.DrawnBelow | src/openlcb/AliasCache.cpp:564-568 | The masked 64-bit computation is one step of the generator, and the alias has 12 bits |
| AliasCache.AliasCache.constructor | src/openlcb/AliasCache.cpp:262-276 | A new cache is consistent and empty |
| AliasCache.AliasCache.Clear | src/openlcb/AliasCache.cpp:262-276 | Leaves a consistent cache with no entry |
| AliasCache.AliasCache.Add | src/openlcb/AliasCache.cpp:293-410 | The entries become those of the recency list after the add; the remove callback reports exactly those that went, in order |
| AliasCache.AliasCache.Purge | src/openlcb/AliasCache.cpp:300-332 | Removes and reports what contradicts the new pair |
| AliasCache.AliasCache.TakeSlot | src/openlcb/AliasCache.cpp:334-365 | Gives a slot that is in no list, from the free list or by evicting the oldest entry, which is reported |
| AliasCache.AliasCache.PutNewest | src/openlcb/AliasCache.cpp:367-399 | The new entry is in front, the others are as they were |
| AliasCache.AliasCache.Remove | src/openlcb/AliasCache.cpp:412-451 | Drops exactly the entry of the alias, or for NOT_RESPONDING the mark in slot 0; nothing changes for an unmapped one |
| AliasCache.AliasCache.LookupId | src/openlcb/AliasCache.cpp:495-515 | Gives the node's alias or 0 and makes its entry the newest |
| AliasCache.AliasCache.LookupAlias | src/openlcb/AliasCache.cpp:518-541 | Gives the node of any stored value, NOT_RESPONDING included, or 0, and makes its entry the newest |
| AliasCache.AliasCache.Touch | src/openlcb/AliasCache.cpp:580-604 | Moves one entry to the front and keeps the cache consistent |
| AliasCache.AliasCache.ForEach | src/openlcb/AliasCache.cpp:545-557 | Visits all entries, newest first |
| AliasCache.AliasCache.NextEntry | src/openlcb/AliasCache.cpp:472-492 | Gives the entry with the smallest node ID above the bound, if there is one |
| AliasCache.AliasCache.Generate | src/openlcb/AliasCache.cpp:560-575 | Ends when some alias is unmapped, with the first unmapped one drawn; the mapped ones drawn on the way become newest |
| AliasCache.AliasCache.Announce | src/openlcb/IfCan.cpp:258-277 | The entries after an announcement are the specified ones, with the mark that slot 0 holds |
| AliasCache.AnnouncementLosesMark | src/openlcb/IfCan.cpp:258-277 | In a cache of two slots where nodes 1 and 2 are marked, the announcement of node 1 leaves node 1 alone |
| ConsistFlood.RelayKeepsCommand | src/openlcb/TractionTrain.cpp:463-549 | A relayed command is the same command and passes the same links |
| ConsistFlood.TractionRequestFlow.Entry | src/openlcb/TractionTrain.cpp:200-270 | A train applies the payload it was sent and starts at its first listener |
| ConsistFlood.TractionRequestFlow.MaybeForwardConsist | src/openlcb/TractionTrain.cpp:463-549 | One pass does the model's step; a copy goes to the listener unless it is the sender, or the command is a function and its link lacks bit 0x04 (all address bytes 0) or bit 0x08 (any other address) |
| ConsistFlood.TractionRequestFlow.Process | src/openlcb/TractionTrain.cpp:463-549 | With at most 255 listeners a train sends one relayed copy to each that is due one, in order, and then waits |
| ConsistFlood.FinishesExactly | src/openlcb/TractionTrain.cpp:653 | With the 8-bit index a command ends if and only if there are at most 255 listeners, or 256 and the last one is due a copy |
| ConsistNetwork.Reroot | src/openlcb/TractionTrain.cpp:463-549 | A tree of mutual links can be hung up at any train |
| ConsistNetwork.ExactlyOnce | src/openlcb/TractionTrain.cpp:200-270 | From any train of any tree with at most 255 listeners each, in every run: nobody applies the command twice or with another payload than its path makes of it, the run ends, and then exactly the trains that the flags let it reach have applied it |
| ConsistNetwork.SpeedOnce | src/openlcb/TractionTrain.cpp:200-206 | With at most 255 listeners each, a speed command ends up applied exactly once by every train, with its direction turned by the parity of REVERSE links on the path |
| ConsistNetwork.FunctionOnce | src/openlcb/TractionTrain.cpp:488-510 | With at most 255 listeners each, a function command ends up applied once by exactly the trains whose every link on the path has bit 0x04 (all address bytes 0) or bit 0x08 (any other address), unchanged but for the listener bit |
| ConsistNetwork.StopOnce | src/openlcb/TractionTrain.cpp:463-549 | With at most 255 listeners each, an emergency stop ends up applied once by every train, unchanged but for the listener bit |
| ConsistNetwork.SpeedReachesAll | src/openlcb/TractionTrain.cpp:463-549 | Every path passes a speed command, with only the listener bit and the direction changed |
| ConsistNetwork.RunsEnd | src/openlcb/TractionTrain.cpp:463-549 | With at most 255 listeners each, no run is longer than a bound fixed at its start |
| ConsistNetwork.NextInv | src/openlcb/TractionTrain.cpp:463-549 | Every step keeps one token per train: pending, applied, or not yet due |
| Datagram.CanDatagramWriteFlow.constructor | src/openlcb/DatagramCan.cpp:54-62 | Sending starts at offset 0 |
| Datagram.CanDatagramWriteFlow.FillCanFrameBuffer | src/openlcb/DatagramCan.cpp:65-126 | One frame is the next of the specified sequence, with the right type |
| Datagram.CanDatagramWriteFlow.SendAll | src/openlcb/DatagramCan.cpp:65-126 | A payload of less than 256 bytes becomes its sequence of fragments |
| Datagram.CanDatagramParser.constructor | src/openlcb/DatagramCan.cpp:369-384 | No buffer is open at first |
| Datagram.CanDatagramParser.Entry | src/openlcb/DatagramCan.cpp:148-323 | Acts on the buffer of the frame's own pair only, with the outcome that the specification gives; DatagramHistory says by the frames before which one that is |
| DatagramHistory.RejectedExactly | src/openlcb/DatagramCan.cpp:226-285 | For any frames at all: a frame for a local node is rejected if and only if it is a First while a datagram of its pair is under way, a Middle or Final while none is, or exceeds 72 bytes; with code 0x2040 or 0x1000, to its own pair, and afterwards nothing of the pair is under way or kept |
| DatagramHistory.DeliveredExactly | src/openlcb/DatagramCan.cpp:287-323 | A frame delivers if and only if it is a single or Final frame for a local node and is not rejected, and then what was collected |
| DatagramHistory.OutcomeAt | src/openlcb/DatagramCan.cpp:148-323 | The outcome of every frame, by the frames before it |
| DatagramHistory.BufferMore | src/openlcb/DatagramCan.cpp:189-285 | When a datagram of a pair is under way, frame by frame |
| Datagram.FrameCount | src/openlcb/DatagramCan.cpp:65-126 | A payload takes one frame for every eight bytes begun, and at least one |
| Datagram.FrameAt | src/openlcb/DatagramCan.cpp:75-116 | Frame i carries bytes 8i to 8i + 7, all but the last eight of them; types 2 to 5 tell a single, first, middle or final frame |
| Datagram.IdFields | src/openlcb/DatagramCan.cpp:71-110 | The fields packed into an identifier are the ones read out of it, and the two leading bits are set |
| Datagram.Delivery | src/openlcb/DatagramCan.cpp:148-323 | However the frames of datagrams of up to 72 bytes from any number of pairs are mixed, exactly these datagrams come out, in the order of their last frames, nothing is rejected and nothing stays open |
| Datagram.Interleaved | src/openlcb/DatagramCan.cpp:148-323 | The same from any state in which every open buffer holds what its pair has sent |
| Datagram.Provenance | src/openlcb/DatagramCan.cpp:148-282 | For any frames at all, a delivered datagram is one frame, or First, Middles and Final of one pair with no other First or Final of it between; nothing delivered or kept exceeds 72 bytes |
| EventRange.AlignMask | src/openlcb/EventHandler.cpp:49-78 | The result is the smallest aligned power-of-two block around the range |
| EventRange.SmallestIsLeast | src/openlcb/EventHandler.cpp:49-78 | That block lies inside every aligned block that contains the range |
| EventRange.EncodeRange | src/openlcb/EventHandlerTemplates.cpp:234-255 | The loop gives the identifier of the block it arrives at |
| EventRange.EncodeDecode | src/openlcb/EventHandlerTemplates.cpp:234-255 | Decoding the encoded range gives the smallest block if and only if the range is nameable |
| EventRange.UnnameableRange | src/openlcb/EventHandlerTemplates.cpp:234-255 | An aligned block of two or more and one event more is never nameable: the identifier decodes to the block, without the last event |
| EventRange.EvenRanges | src/openlcb/EventHandlerTemplates.cpp:234-255 | Ranges of even start and even length from four on are nameable |
| EventRange.Decode | src/openlcb/EventService.cpp:113-125 | The closed form finds the run of equal low bits and clears it |
| EventRange.RunIsLongest | src/openlcb/EventService.cpp:113-125 | That run is the longest tail of equal bits |
| EventRange.EventRangeToBitCount | src/openlcb/RoutingLogic.cpp:49-61 | The loop counts the same run and clears it |
| EventRange.DecodersAgree | src/openlcb/RoutingLogic.cpp:49-61 | Both decoders give the same block if and only if the identifier is neither 0 nor 2^64 - 1 |
| EventIndex.TreeEventHandlers.constructor | src/openlcb/EventHandlerContainer.cpp:159-161 | Nothing is registered at first |
| EventIndex.TreeEventHandlers.RegisterHandler | src/openlcb/EventHandlerContainer.cpp:42-49 | Adds one registration and keeps every list in step with what is registered |
| EventIndex.TreeEventHandlers.UnregisterHandler | src/openlcb/EventHandlerContainer.cpp:51-72 | Takes away exactly the registrations that match handler and masked argument: none of another handler, and with mask 0 all of the named one |
| EventIndex.UnregisteredExactly | src/openlcb/EventHandlerContainer.cpp:51-72 | Of the named handler, every registration whose argument agrees under the mask goes, however often it is there; all others stay |
| EventIndex.LazyInit | src/utils/SortedListMap.hxx:163-171 | Sorting on demand leaves a sorted list of the same entries |
| EventIndex.Iterator.constructor | src/openlcb/EventHandlerContainer.cpp:85-91 | A new iterator has nothing to return |
| EventIndex.Iterator.InitIteration | src/openlcb/EventHandlerContainer.cpp:122-128 | What is to be returned is what all lists have in the window |
| EventIndex.Iterator.SetupCurrentMask | src/openlcb/EventHandlerContainer.cpp:131-147 | The two searches cut the window out of the current list |
| EventIndex.Iterator.NextEntry | src/openlcb/EventHandlerContainer.cpp:93-115 | Returns one of the remaining handlers, and none only when none remain |
| EventIndex.Iterator.AllEntries | src/openlcb/EventHandlerContainer.cpp:82-152 | With aligned entries a whole iteration returns exactly the handlers of a linear scan, each once |
| EventIndex.HitsAreScan | src/openlcb/EventHandlerContainer.cpp:82-152 | The per-mask windows together are the linear scan |
| EventIndex.WindowIsMeets | src/openlcb/EventHandlerContainer.cpp:131-147 | For an aligned entry, being in the window is having an event in common with the report |
| EventIndex.AlignmentIsNeeded | src/openlcb/EventHandlerContainer.cpp:131-147 | For any other entry the report of its last event misses it |
| EventIndex.RangeIsFound | src/openlcb/EventHandlerTemplates.cpp:61-71 | No event of a range registered through align_mask is missed |
| GridConnect.GcFormatGenerate | src/utils/gc_format.cpp:199-255 | Prints the specified text, in single or doubled form |
| GridConnect.GcFormatParse | src/utils/gc_format.cpp:82-157 | Parses the buffer up to its NUL as specified, with all error cases; also gives the number of data bytes written |
| GridText.TextDenotes | src/utils/gc_format.cpp:47-57 | Every character of a printed frame: X or S, the base-16 digits of the identifier in upper case, N or R, and two digits for every byte |
| GridText.DoubledAt | src/utils/gc_format.cpp:159-180 | In double format every character stands twice |
| GridText.ParsesExactly | src/utils/gc_format.cpp:82-157 | A text parses to a frame if and only if it is a colon or not, X or S, hex digits of either case, N or R, an even number of hex digits, and nothing or a semicolon; identifier and bytes are the numbers that the digits denote, the identifier cut to 29 or 11 bits |
| GridText.IdRead | src/utils/gc_format.cpp:105-142 | Digits of either case are read as the base-16 number they denote, in 32 bits |
| GridText.DataRead | src/utils/gc_format.cpp:143-154 | Pairs of digits are read as the bytes they denote |
| GridConnect.StoresFit | src/utils/gc_format.cpp:143-154 | The bytes written stay inside the frame if and only if what follows the N or the R does not begin with 18 hex digits |
| GridConnect.StoredIsData | src/utils/gc_format.cpp:143-157 | A parsed frame has as many data bytes as were written |
| GridConnect.LongTextStores | src/utils/GcStreamParser.cpp:40-76 | The stream parser completes texts of up to 14 data bytes, which parse and are all written |
| GridConnect.ReadsBack | src/utils/gc_format.cpp:82-255 | Parsing a printed frame gives the frame, with or without colon and semicolon |
| GridConnect.GcStreamParser.constructor | src/utils/GcStreamParser.hxx:50-53 | The parser starts between frames |
| GridConnect.GcStreamParser.ConsumeByte | src/utils/GcStreamParser.cpp:40-76 | One byte does the specified step; a completed text is in the buffer, terminated |
| GridConnect.GcStreamParser.ParseFrameToOutput | src/utils/GcStreamParser.cpp:86-89 | Parses the completed text, whatever stands behind it in the buffer; also gives the number of data bytes written |
| GridConnect.Resynchronises | src/utils/GcStreamParser.cpp:40-76 | From any state, garbage and then frames with colon-free garbage between: exactly the frames are completed, in order, after the one leftover that the garbage may complete |
| GridConnect.GarbageCompletes | src/utils/GcStreamParser.cpp:40-76 | Colon-free bytes complete a text if and only if a frame was open and a semicolon comes in time |
| GridConnect.CompletedReadsBack | src/utils/GcStreamParser.cpp:86-89 | Every text completed for a frame parses back to it |
| Segmenter.DirectHubGcSegmenter.SegmentMessage | src/utils/DirectHubGc.cpp:46-103 | A positive result ends a complete message, at a colon or at the end of a packet's bytes; otherwise the packet is incomplete |
| Segmenter.DirectHubGcSegmenter.Clear | src/utils/DirectHubGc.cpp:105-111 | Forgets the packet |
| Segmenter.DirectHubReadFlow.ReadDone | src/utils/DirectHub.cpp:383-440 | Sends every complete message; sent and kept bytes together are the bytes read |
| Segmenter.DirectHubReadFlow.ReadAll | src/utils/DirectHub.cpp:383-510 | For any chunks, the heads of what is sent are the packets of the whole stream |
| Segmenter.HeadsArePackets | src/utils/DirectHubGc.cpp:46-103 | However a stream is cut into complete messages and an incomplete rest, the heads are its packets |
| Segmenter.ChunkingDoesNotMatter | src/utils/DirectHubGc.cpp:46-103 | Two ways of reading one stream find the same packets |
| HalfFloat.HalfFromDouble | src/utils/ieeehalfprecision.c:222-263 | The result is the double rounded to binary16, for every low word; infinities and NaNs as in the code |
| HalfFloat.HalfFromSingle | src/utils/ieeehalfprecision.c:127-168 | The result is the single rounded to binary16 |
| HalfFloat.SingleFromHalf | src/utils/ieeehalfprecision.c:315-348 | The result has exactly the magnitude and the sign of the half |
| HalfFloat.RoundsIsNearest | src/utils/ieeehalfprecision.c:222-263 | Rounding means: no other number is nearer, and one as near is smaller (IEEE 754-2008 section 4.3.1, roundTiesToAway) |
| HalfFloat.OverflowFrom65520 | src/utils/ieeehalfprecision.c:222-263 | The result is infinity exactly from 65520 up |
| HalfFloat.NormalCut | src/utils/ieeehalfprecision.c:252-259 | Cutting a significand and adding the next bit rounds it, carry into the exponent included |
| HalfFloat.DenormalCut | src/utils/ieeehalfprecision.c:241-251 | The same below the normal range |
| HalfFloat.ThereAndBack | src/utils/ieeehalfprecision.c:315-348 | Half to single to half is the identity if and only if the pattern is not a NaN up to 0x7F80 |
| HalfFloat.Singles2Halfp | src/utils/ieeehalfprecision.c:94-170 | Converts every element of an array, and writes nothing else |
| HalfFloat.Doubles2Halfp | src/utils/ieeehalfprecision.c:187-265 | Converts every element of an array of doubles, of either byte order |
| HalfFloat.Halfp2Singles | src/utils/ieeehalfprecision.c:282-350 | Converts every element of an array of halves |
| TimerList.ActiveTimers.constructor | src/executor/Timer.hxx:54-58 | The list starts empty |
| TimerList.ActiveTimers.InsertLocked | src/executor/Timer.cpp:138-157 | The timer is linked in behind all that expire no later, and the list stays in order of expiry and insertion |
| TimerList.ActiveTimers.RemoveLocked | src/executor/Timer.cpp:159-171 | Takes exactly one timer out, also when its expiry time no longer fits its place |
| TimerList.ActiveTimers.UpdateTimer | src/executor/Timer.cpp:173-179 | A timer whose key was changed in place moves to where it belongs, as if inserted last |
| TimerList.ActiveTimers.RemoveTimer | src/executor/Timer.cpp:181-187 | Takes the timer out and marks it inactive |
| TimerList.ActiveTimers.ScheduleTimer | src/executor/Timer.cpp:132-136 | Puts an inactive timer into the list |
| TimerList.ActiveTimers.GetNextTimeout | src/executor/Timer.cpp:84-122 | Releases exactly the timers due, in order; returns 0, the time to the first timer left, or one hour |
| TimerList.Timer.Start | src/executor/Timer.hxx:185-194 | The timer is in its place, one period ahead |
| TimerList.Timer.Restart | src/executor/Timer.hxx:214-232 | Moves or inserts the timer one period ahead, unless it has expired |
| TimerList.Timer.Trigger | src/executor/Timer.hxx:237-245 | Moves the timer to a time in the past, unless it has expired |
| TimerList.Timer.Cancel | src/executor/Timer.hxx:260-270 | The timer is in the list no more |
| TimerList.Timer.Run | src/executor/Timer.cpp:45-63 | Restarts, starts anew or leaves the timer, by what its handler returned |
| TimerList.InsertOrdered | src/executor/Timer.cpp:138-157 | Inserting behind all that expire no later keeps insertion order among equals |
| FixedPool.FixedPool.constructor | src/utils/Buffer.hxx:592-607 | All buffers are free at first |
| FixedPool.FixedPool.AllocUntyped | src/utils/Buffer.cpp:197-225 | Does the specified step on queue, flag and total |
| FixedPool.FixedPool.Free | src/utils/Buffer.cpp:230-263 | Does the specified step: to the first waiting client, or back to the queue |
| FixedPool.RunInv | src/utils/Buffer.cpp:197-263 | In every run the queue holds only buffers or only clients, every buffer is free or out, the total is size times buffers out, and clients are served in the order of asking |
| FixedPool.AllocServes | src/utils/Buffer.cpp:197-225 | In every reachable state an allocation returns a buffer if and only if one is not handed out; it is such a one, and the client is told at once; else nothing is returned and the client waits, behind the others |
| FixedPool.ReleaseServes | src/utils/Buffer.cpp:230-263 | In every reachable state a released buffer goes to the first client that waits, and only if none waits it is free again |
| FixedPool.AllocInv | src/utils/Buffer.cpp:197-225 | An allocation keeps that |
| FixedPool.FreeInv | src/utils/Buffer.cpp:230-263 | A release keeps that |
| FastClock.BroadcastTimeServerAlarm.constructor | src/openlcb/BroadcastTimeServer.cpp:635-644 | No minute is subscribed at first |
| FastClock.BroadcastTimeServerAlarm.Subscribe | src/openlcb/BroadcastTimeServer.cpp:654-665 | Subscribes exactly one minute, or none if there is no such time |
| FastClock.BroadcastTimeServerAlarm.NextMinute | src/openlcb/BroadcastTimeServer.cpp:742-770 | Shows the next minute in the running direction, and tells of a new day; does nothing at rate 0 |
| FastClock.BroadcastTimeServerAlarm.NextActiveMinute | src/openlcb/BroadcastTimeServer.cpp:701-736 | The alarm is ahead, at the first minute subscribed or first of a day, or after as many minutes as the rate; the loop's test for the same time of day never ends it; at rate 0 the result is in the past |
| FastClock.BroadcastTimeServerAlarm.NothingMissed | src/openlcb/BroadcastTimeServer.cpp:701-736 | No such minute begins strictly between now and the alarm |

## Left out

- Logging, file descriptors, select, sockets and the operating system: outside the model.
- AliasCache.AliasCache.NextEntry: the two sorted index vectors of the cache are maps here; the order that next_entry uses is that of the keys.
- AliasCache.AliasCache.Announce: only the announcement of a mapping; the release of one (src/openlcb/IfCan.cpp:278-290) is two removals.
- AliasCache.AliasCache.constructor: pools of up to 4096 slots, so that a slot number fits beside NOT_RESPONDING; AliasCache::retrieve, which can see IDs of cleared slots, is not part of this model.
- AliasAllocator.AliasAllocator.GetAllocatedAlias: the queue of waiting clients and the request for a new alias, which are results here; return_alias and clear_reserved_aliases.
- AliasProtocol.MutualExclusion: frames on the bus may overtake each other, which allows more than the bus does; the time between them is an assumption on the timer step.
- AliasAllocator.AliasAllocator.Entry: an alias given by the caller is not looked up, as in the source; the protocol's start step needs one that the node does not hold.
- BulkAliasAllocator: its 8-bit time stamps make the wait conditional on short runs.
- ConsistNetwork.ExactlyOnce: at most 255 listeners for each train, since with more a command need not end; one command at a time; the destination node is found by alias or ID before the flow starts, and the function policy is the default one.
- ConsistFlood.TractionRequestFlow.Entry: the decoding of a command into calls of the train, queries, configuration and replies of the traction flow.
- Datagram.CanDatagramParser.Entry: the lookup of the source node's ID for a delivered datagram, and the sending of rejections, which are outcomes here.
- Datagram.CanDatagramWriteFlow.SendAll: acknowledgement, retries and timeouts of the datagram client.
- EventRange.EncodeRange: ranges that reach 2^63, where the sum in the loop can wrap around and the loop need not end.
- EventRange.AlignMask: for ranges that leave the 64-bit space only the form of the result is stated.
- EventIndex.Iterator.AllEntries: the order of the handlers found, which std::sort leaves open among equal events; iterators while the registry changes.
- GridConnect.GcFormatGenerate: error frames, which the portable frame header cannot tell apart.
- GridConnect.GcFormatParse: what lies behind the eight data bytes when more are written, and the fields of a frame after an error.
- Segmenter.DirectHubGcSegmenter.SegmentMessage: the 30-bit width of the packet length.
- Segmenter.DirectHubReadFlow.ReadDone: buffers, their limits and the sending to other ports; reads are chunks of bytes, and sending is appending.
- HalfFloat.SingleFromHalf: halfp2doubles, which leaves the low words of its output unwritten.
- HalfFloat.Singles2Halfp: the check for IEEE 754 hardware, and source and target that overlap.
- TimerList.ActiveTimers.GetNextTimeout: locks, priorities and the wake-up of the executor; the executor is a queue.
- FixedPool.FixedPool.AllocUntyped: the construction of the buffer object, and buffers that are larger than the items.
- FrameToAddressedMessageParser: its key is wider than the map it is stored in, so that pairs can be confused.
- DCC packets, RailCom, CRC, base64 and other tables: finite tables and textbook loops, outside the model.
