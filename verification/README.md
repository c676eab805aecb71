# Models and proofs for the algorithmic cores of the emulator

Dafny models of the self-contained algorithms and protocols of the emulator: the DEFLATE decoder and
the PNG de-interlacer of stb_image, the edge sort of stb_truetype, the kernel's event flag, event
queue, directory listing and UUID generator, and the bit array, calendar, least-recently-used cache
and start-up list of the common library. Code that updates state in place is modelled by classes,
arrays and loops; each method is tied to a function or predicate on values, and the properties the
code is for are proved about those, over all inputs, all runs or all interleavings.

| files | what they model |
|---|---|
| `Common`, `Words`, `Quotients` | shared types; machine words bit by bit; quotients rounded down |
| `CanonicalCode`, `KraftSum` | section 3.2.2 of RFC 1951: canonical prefix codes, as a reference, and their Kraft sum |
| `ZHuffman`, `ZStream` | the Huffman tables of stb_image and the decoder that reads them from the bit buffer |
| `Inflate`, `ZBlock` | section 3.2.5 of RFC 1951 as a reference, and the block decoder with its growing or fixed output buffer |
| `Spelling` | compressing, from section 3.2.5 of RFC 1951 alone, and the round trips with the block decoder |
| `FixedBlock` | the fixed code of section 3.2.6 of RFC 1951 and a raw stream at the end of its data |
| `Adam7` | the de-interlacing loop of the PNG reader |
| `SortEdges` | the quicksort and insertion sort of the font rasteriser |
| `EventFlag`, `EventFlagRuns`, `EventFlagBits`, `EventFlagRegistry` | the event flag: critical sections, their interleavings, what they mean bit by bit, and the registry |
| `EventQueue`, `EventQueueRuns`, `EventQueueHistory` | the event queue, its runs, and every field of what they deliver |
| `Dirents`, `DirentPager`, `DirentFormat` | the layout of directory records, the packer, the walk and the pager, and the byte format |
| `BitArray` | range updates, range searches and iteration |
| `DateTime` | Julian days and the calendar |
| `LruCache`, `LruHistory` | the intrusive list, its abstract value, and what the calls of a run tell about it |
| `Uuid` | version-1 UUIDs and runs of the generator |
| `Subsystems` | dependency-ordered start-up and reverse shutdown |

`dafny verify dfyconfig.toml` checks everything.

Words are natural numbers with an explicit width wherever the width matters. Floating-point y
coordinates are real numbers, and the sort needs no more than their order. The mutex of the event
flag and of the event queue is a critical section: a step. Wake-ups of a parked thread are arbitrary,
so signals, time-outs and spurious wake-ups are the same step. Clocks, the name hash of a directory
record, the memory a new object gets, which subsystems fail and what a callback does are parameters.

Five promises do not hold for every input. Each has a lemma at a concrete input and an exact
condition for all inputs:

- A whole block at the very end of its data can be refused: `FixedBlock.HiIsRefused`; exactly when it
  is not, `ZBlock.CompleteBlock`.
- A long wait ends before its deadline: `EventQueue.LongWaitEndsEarly`; exactly when it does not,
  `EventQueue.WaitReachesDeadline`.
- A timer that is registered again can still be delivered before its new deadline:
  `EventQueueHistory.MovedTimerIsEarly`; exactly when, `EventQueueHistory.TimerMoves`.
- Two UUIDs of a run can be equal: `Uuid.BoundIsSharp`; exactly when, `Uuid.SameUuidIff`.
- A live event flag can lose its name: `EventFlagRegistry.NameIsNotInherited`; exactly when,
  `EventFlagRegistry.PublishedStep` and `EventFlagRegistry.PublishedRun`.

## Model

| member | source | states |
|---|---|---|
| CanonicalCode.MatchUnique | 3rdparty/stb/stb_image.h:4081-4092 | no canonical code is a prefix of another: at most one symbol matches the start of a stream |
| CanonicalCode.MatchIffBelowTop | 3rdparty/stb/stb_image.h:4171-4175 | a stream starts with some code exactly when its reversed 16-bit window is below the preshifted end of the longest codes |
| KraftSum.KraftIsEnd | 3rdparty/stb/stb_image.h:4081-4092 | the running code counter after length t is the Kraft sum of the lengths up to t |
| KraftSum.OverflowStays | 3rdparty/stb/stb_image.h:4088 | codes of one length overflowing means the whole Kraft sum exceeds one |
| KraftSum.CodeFits | 3rdparty/stb/stb_image.h:4086-4091 | when the Kraft sum is at most one every code fits its own number of bits |
| KraftSum.CanonicalOrder | 3rdparty/stb/stb_image.h:4081-4109 | shorter codes come before longer ones and equally long ones are in symbol order, as disjoint intervals |
| KraftSum.CodesTile | 3rdparty/stb/stb_image.h:4081-4109 | the codes tile one contiguous interval that starts at 0 and is as long as the Kraft sum: a value is in it exactly when some code covers it |
| ZHuffman.BitReverse16Bit | 3rdparty/stb/stb_image.h:4050-4057 | bit i of the mask-and-shift result is bit 15 - i of the argument, and nothing above 16 bits survives |
| ZHuffman.BitReverseIsPrefix | 3rdparty/stb/stb_image.h:4059-4065 | reversing the low bits of the buffer reads them as the first bits of the stream |
| ZHuffman.ReversedIndex | 3rdparty/stb/stb_image.h:4102-4106 | a fast-table index ends in the reversed code exactly when, read as a stream, it starts with the code |
| ZHuffman.FastLookup | 3rdparty/stb/stb_image.h:4194-4200 | a nonzero fast entry is the matching symbol with its length; a zero entry means no code of at most 9 bits matches |
| ZHuffman.SlowLookup | 3rdparty/stb/stb_image.h:4171-4182 | the first preshifted end above the window selects the slot of the one matching symbol, so neither corruption check can fail |
| ZHuffman.SlowMiss | 3rdparty/stb/stb_image.h:4172-4175 | when no preshifted end is above the window, no code matches at all |
| ZHuffman.Tables.Build | 3rdparty/stb/stb_image.h:4067-4112 | accepts a length vector exactly when its Kraft sum is at most one, and then the tables represent its canonical code |
| ZHuffman.Tables.AssignCodes | 3rdparty/stb/stb_image.h:4081-4093 | firstcode, maxcode and firstsymbol are those of the canonical code, unless the Kraft sum exceeds one |
| ZHuffman.Tables.EnterSymbol | 3rdparty/stb/stb_image.h:4095-4107 | one symbol more is found at its own slot and at every fast index that starts with its code, and no other entry is lost |
| ZHuffman.Tables.EnterFast | 3rdparty/stb/stb_image.h:4102-4106 | exactly the indexes with the given low bits are overwritten |
| ZStream.WindowGrows | 3rdparty/stb/stb_image.h:4151-4152 | or-ing the next byte in above the buffered bits makes the buffer a longer window of the same stream |
| ZStream.ZBits.FillBits | 3rdparty/stb/stb_image.h:4144-4154 | refilling leaves more than 24 buffered bits and does not move the stream; at bit p it has loaded p / 8 + 4 bytes; the overflow check never fires |
| ZStream.ZBits.Receive | 3rdparty/stb/stb_image.h:4156-4164 | returns the next n bits of the stream and consumes them, whatever the pattern of refills, and refills exactly when fewer than n bits are buffered |
| ZStream.SymbolIff | 3rdparty/stb/stb_image.h:4185-4202 | the reference symbol is m exactly when the code of m starts the stream |
| ZStream.ZBits.Decode | 3rdparty/stb/stb_image.h:4185-4202 | fast table and slow path together return the symbol of plain canonical decoding and consume exactly its code, and return -1 exactly when no code matches, or when fewer than 16 bits are buffered and no byte is left, even if a code matches |
| ZStream.ZBits.DecodeSlow | 3rdparty/stb/stb_image.h:4166-4183 | with no short match, the preshifted search agrees with plain canonical decoding |
| Inflate.LengthTable | 3rdparty/stb/stb_image.h:4226-4232 | the length tables are those of the rule that each code starts where the previous one ends, with 258 as the exception |
| Inflate.DistTable | 3rdparty/stb/stb_image.h:4234-4238 | the distance tables are those of the same rule |
| Inflate.LengthsCovered | 3rdparty/stb/stb_image.h:4226-4232 | every match length from 3 to 258 can be spelled |
| Inflate.DistancesCovered | 3rdparty/stb/stb_image.h:4234-4238 | every distance from 1 to 32768 is spelled by exactly one distance code |
| Inflate.TokenMeaning | 3rdparty/stb/stb_image.h:4246-4278 | a token has a given output exactly when the output only grows at its end, by the literal byte, or by as many bytes as the match is long, each equal to the one dist bytes before it |
| Inflate.CopyIsPeriodic | 3rdparty/stb/stb_image.h:4271-4277 | a copy that overlaps its source repeats the last dist bytes |
| ZBlock.ZBuf.Expand | 3rdparty/stb/stb_image.h:4204-4224 | relocation keeps the prefix and ends; it succeeds exactly when the buffer may grow and the n bytes fit into the largest size its doubling can reach, which for a growing buffer is at least 2^31 bytes |
| ZBlock.ZBuf.CopyMatch | 3rdparty/stb/stb_image.h:4271-4277 | both loops, the one for distance 1 included, append the byte-by-byte copy |
| ZBlock.ZBuf.ReadExtra | 3rdparty/stb/stb_image.h:4260-4261 | the value is the base of the code plus the next extra bits of the stream |
| ZBlock.ZBuf.EmitLiteral | 3rdparty/stb/stb_image.h:4247-4251 | appends a byte, relocating first if the buffer is full, and refuses exactly when no reachable size of the buffer has room for it |
| ZBlock.ZBuf.EmitMatch | 3rdparty/stb/stb_image.h:4266-4277 | appends the reference copy of a match, relocating first if it does not fit, and refuses exactly the matches that fit in no reachable size of the buffer, fixed or growing |
| ZBlock.ZBuf.ParseItem | 3rdparty/stb/stb_image.h:4243-4278 | one turn of the loop does what the reference verdict on the item, on the loaded data and on the room left asks for: it carries out the LZ77 meaning of a token, or stops for the one right reason |
| ZBlock.ZBuf.ParseBlock | 3rdparty/stb/stb_image.h:4240-4280 | the report of a block is the reference report on the stream, the data loaded and the room left; a finished block leaves exactly the LZ77 meaning of its tokens and stops just after its end |
| ZBlock.OneReport | 3rdparty/stb/stb_image.h:4240-4280 | there is one reference report: the tokens carried out, where they end and how the block ends are determined |
| ZBlock.CompleteBlock | 3rdparty/stb/stb_image.h:4240-4280 | a stream that spells a whole block with distances in range is decoded to exactly its tokens if and only if no code of it is looked up with fewer than 16 bits buffered and no byte left, and the whole output fits in the room; otherwise the report names one of the two that fails |
| ZBlock.SixteenBitsSupply | 3rdparty/stb/stb_image.h:4185-4192 | 16 bits of data from the end-of-block code on are enough for every lookup of the block, however the buffer was filled before |
| FixedBlock.FixedCodes | 3rdparty/stb/stb_image.h:4395-4400 | the default lengths give the codes section 3.2.6 of RFC 1951 lists |
| FixedBlock.HiIsRefused | 3rdparty/stb/stb_image.h:4188-4191 | the valid raw stream CB C8 04 00 for "hi", read after its header, can only be reported as a bad code: its last code is complete, but 13 bits are buffered and no byte is left |
| FixedBlock.FixedTables | 3rdparty/stb/stb_image.h:4419-4422 | the tables of both fixed codes are always accepted and represent them |
| FixedBlock.DecodeHi | 3rdparty/stb/stb_image.h:4404-4425 | header bits, table building and block decoding, run on those four bytes with any buffer that holds two bytes, end in a bad code |
| Spelling.CodeHeld | 3rdparty/stb/stb_image.h:4185-4202 | the stream holds the bits of a symbol's code, most significant first, exactly when the decoder's reference symbol is that one |
| Spelling.SpelledIsRead | 3rdparty/stb/stb_image.h:4243-4265 | the bits of a token, written as code, extra length bits, code and extra distance bits, are read back as exactly that token and consumed exactly |
| Spelling.TokenReadIff | 3rdparty/stb/stb_image.h:4243-4265 | a token is read at a place exactly where bits that spell it stand, and reading ends where they end |
| Spelling.EndReadIff | 3rdparty/stb/stb_image.h:4254-4257 | the end of a block is read exactly where the code of symbol 256 stands |
| Spelling.CanBeSpelled | 3rdparty/stb/stb_image.h:4226-4238 | every literal and every match of length 3 to 258 and distance 1 to 32768 has bits that spell it, once its symbols have codes |
| Spelling.AllSpelledIsRead | 3rdparty/stb/stb_image.h:4240-4280 | the bits of a list of tokens, one after another, are read back as that list |
| Spelling.BlockRoundTrip | 3rdparty/stb/stb_image.h:4240-4280 | a stream that holds the bits of any tokens and of the end of the block, and 16 bits of data from there on, can only be decoded to exactly those tokens when their output fits |
| Spelling.ReportMeans | 3rdparty/stb/stb_image.h:4240-4280 | whatever a block reports, the bits of the tokens carried out stand in the stream; finished, behind them stands the end code; bad distance, a match before the output; output limit, a token that does not fit; bad code, no code at all unless a lookup meets the end of the data |
| ZBlock.SameTokens | 3rdparty/stb/stb_image.h:4240-4280 | a stream spells one sequence of tokens only |
| Adam7.PassPattern | 3rdparty/stb/stb_image.h:4818-4821 | the origins and spacings scan in each pass exactly the pixels that the 8 by 8 pattern of section 2.6 of RFC 2083 gives to it |
| Adam7.OnePass | 3rdparty/stb/stb_image.h:4818-4821 | a pixel lies on the rows and columns of exactly one of the seven passes |
| Adam7.PassPixel | 3rdparty/stb/stb_image.h:4824-4836 | every pixel of a reduced image lies inside the full image, in that pass, column and row |
| Adam7.PixelHasPass | 3rdparty/stb/stb_image.h:4824-4836 | every pixel of the full image is a pixel of its pass's reduced image |
| Adam7.DeInterlace | 3rdparty/stb/stb_image.h:4814-4843 | de-interlacing undoes interlacing for every size, writes every pixel exactly once and nothing outside |
| SortEdges.MedianFound | 3rdparty/stb/stb_truetype.h:3425-3438 | the three comparisons select an edge that lies between the other two |
| SortEdges.ScanUp | 3rdparty/stb/stb_truetype.h:3451-3453 | the unguarded scan stops at or before the sentinel, at the first edge not below the pivot |
| SortEdges.ScanDown | 3rdparty/stb/stb_truetype.h:3454-3456 | the unguarded scan downwards stops at or before the pivot itself, at the first edge not above it |
| SortEdges.Partition | 3rdparty/stb/stb_truetype.h:3425-3466 | rearranges the segment so that everything before i is at or below everything from i on, with the scans crossing by at most one position |
| SortEdges.QuickSort | 3rdparty/stb/stb_truetype.h:3417-3477 | rearranges its segment only and cuts it into ordered stretches of at most twelve edges with single edges left out before the cuts; each recursive call runs on one level less than its caller, and as many levels as the size can be halved down to twelve are enough |
| SortEdges.LevelsLogarithmic | 3rdparty/stb/stb_truetype.h:3467-3476 | there are at most log2(n / 6) of them: the recursion is logarithmic for every input |
| SortEdges.InsertionSort | 3rdparty/stb/stb_truetype.h:3399-3415 | sorts any segment into a rearrangement of itself |
| SortEdges.SortEdges | 3rdparty/stb/stb_truetype.h:3479-3483 | the first n edges end up ordered by y0, each as often as before; the edges after them stay |
| SortEdges.CutKept | 3rdparty/stb/stb_truetype.h:3467-3476 | sorting one side of a cut keeps the cut |
| EventFlag.KernelEventFlagPrivate.Enter | src/kernel/eventFlag.cpp:121-163 | a call of Wait up to its return or its first park is one step of the protocol |
| EventFlag.KernelEventFlagPrivate.Resume | src/kernel/eventFlag.cpp:165-198 | a wake-up, for whatever reason, up to the return or the next park is one step of the protocol |
| EventFlag.KernelEventFlagPrivate.TryCancel | src/kernel/eventFlag.cpp:235-256 | Cancel goes through only while the status is Set; it reports the waiters, replaces the pattern and stays Canceled exactly while there are any |
| EventFlagRuns.InvStep | src/kernel/eventFlag.cpp:101-257 | every step of every thread keeps the invariant below |
| EventFlagRuns.RunInv | src/kernel/eventFlag.cpp:101-257 | in every reachable state the waiter count is the number of parked threads, at most one on a single-thread flag, and the status is Canceled or Deleted exactly while one thread cancels or deletes |
| EventFlagRuns.SetOnlyWhenDrained | src/kernel/eventFlag.cpp:250-256 | the status goes back to Set only by the cancelling thread and only with nobody parked |
| EventFlagRuns.DestroyedOnlyWhenDrained | src/kernel/eventFlag.cpp:114-119 | the destructor returns only with nobody parked |
| EventFlagRuns.StatusUntilWake | src/kernel/eventFlag.cpp:165-183 | from a cancellation or deletion on, no interleaving changes the status before a thread parked then wakes |
| EventFlagRuns.CancelReachesEveryWaiter | src/kernel/eventFlag.cpp:157-257 | every thread parked when Cancel goes through returns Canceled, never Ok or TimedOut, and Cancel reports exactly how many they are |
| EventFlagRuns.DeleteReachesEveryWaiter | src/kernel/eventFlag.cpp:101-119 | every thread parked when the destructor goes through returns Deleted |
| EventFlagRuns.ReturnMeaning | src/kernel/eventFlag.cpp:143-198 | Ok reports a pattern that satisfies the request and clears what it says; TimedOut saw an unsatisfied pattern with no time left; other results change nothing but the parked set |
| EventFlagRuns.PollNeverParks | src/kernel/eventFlag.cpp:34-38 | a poll returns at once |
| EventFlagRuns.OnlySetAndCancelRaise | src/kernel/eventFlag.cpp:191-241 | only Set and Cancel can raise a bit |
| EventFlagRuns.ConsumedOnce | src/kernel/eventFlag.cpp:143-228 | between two Ok returns that both saw and cleared a bit some Set or Cancel raised it again |
| EventFlagBits.WaitDecides | src/kernel/eventFlag.cpp:121-198 | every critical section of every wait in every run: refused exactly on a single-thread flag with somebody parked, told of a cancellation or deletion exactly while one goes on, else Ok exactly when all (And) or one (Or) of the requested bits are raised, TimedOut exactly when not and the time is used up, parked exactly when not and time is left; returns report the pattern seen and the rest of the time; Ok leaves the bits the clear mode says and nothing else changes a bit |
| EventFlagBits.CallDecides | src/kernel/eventFlag.cpp:101-257 | every attempt of Set, Clear, Cancel and the destructor in every run goes through exactly when nobody cancels or deletes; Set then adds exactly its bits, Clear keeps exactly the named ones, Cancel leaves the given pattern and reports how many are parked |
| EventFlagBits.DrainLeavesPattern | src/kernel/eventFlag.cpp:250-256 | the second loops of Cancel and the destructor change nothing while somebody is parked, end when nobody is, and never touch a bit |
| EventFlagBits.SatisfiedIsAsked | src/kernel/eventFlag.cpp:147-148 | the mask comparisons of the wait condition say: every requested bit, or one of them |
| EventFlagRegistry.AcceptedAttributes | src/kernel/eventFlag.cpp:271-290 | exactly eighteen attribute words are accepted, and six of them allow many waiters |
| EventFlagRegistry.ApplyInv | src/kernel/eventFlag.cpp:68-73 | published names lead to live flags of that name, and live flags are referenced, whatever is created, opened, closed or deleted |
| EventFlagRegistry.ReferencesBalance | src/kernel/eventFlag.cpp:307-370 | over every run the references of a flag are its creations and opens less its closes, all of them gone when it is deleted, and it is live exactly while that is positive |
| EventFlagRegistry.NameKeepsItsFlag | src/kernel/eventFlag.cpp:292-299 | while the flag a name leads to is live the name leads to it, whatever else is created under it |
| EventFlagRegistry.PublishedStep | src/kernel/eventFlag.cpp:68-73 | a call leaves the label of every live flag leading to a flag exactly unless it closes for good or deletes the flag a name leads to while another live flag has that label |
| EventFlagRegistry.PublishedRun | src/kernel/eventFlag.cpp:68-73 | over a run every label always leads to a flag exactly when no call of it is of that kind |
| EventFlagRegistry.NameIsNotInherited | src/kernel/eventFlag.cpp:68-73 | an input of that kind: closing the first of two flags of one label leaves the second live and its label leading nowhere |
| EventFlagRegistry.EventFlags.Close | src/kernel/eventFlag.cpp:325-349 | closing the last reference destroys the flag and unpublishes its name; an unknown handle is an error without effect |
| EventQueue.Find | src/kernel/eventQueue.cpp:207-210 | the first registration with the key, if any |
| EventQueue.WaitReachesDeadline | src/kernel/eventQueue.cpp:160-162 | for every deadline and clock a wait ends at or after the deadline exactly when that is at most 2^32 - 1 microseconds away, and then less than a microsecond late |
| EventQueue.LongWaitEndsEarly | src/kernel/eventQueue.cpp:160-162 | a timer 5000 seconds away is waited for 4294.967295 seconds |
| EventQueue.KernelEqueuePrivate.GetNextTimerWaitMicros | src/kernel/eventQueue.cpp:147-164 | the wait is that for the earliest pending deadline, and there is none exactly when no deadline below the saturated one is pending |
| EventQueue.KernelEqueuePrivate.GetTriggeredEvents | src/kernel/eventQueue.cpp:90-137 | the nested loops deliver the reference sequence into the first slots, never more than num, and leave the reference list and the other slots alone |
| EventQueue.KernelEqueuePrivate.CopyOccurrences | src/kernel/eventQueue.cpp:105-129 | the inner loop copies out the occurrences of one event in order while there is room, and leaves the event as the reference does |
| EventQueue.KernelEqueuePrivate.AddEvent | src/kernel/eventQueue.cpp:201-223 | a new key is appended; a known key keeps its occurrences and gets the new deadline and user data |
| EventQueue.KernelEqueuePrivate.TriggerEvent | src/kernel/eventQueue.cpp:225-249 | exactly the first registration with the key is triggered, in its own way; none is an error without effect |
| EventQueue.KernelEqueuePrivate.DeleteEvent | src/kernel/eventQueue.cpp:279-302 | exactly the first registration with the key is removed; none is an error without effect |
| EventQueueRuns.OwnRegistrations | src/kernel/eventQueue.cpp:441-562 | all four registrations of the queue start with nothing pending, and only the timer one has a deadline |
| EventQueueRuns.OneKey | src/kernel/eventQueue.cpp:90-302 | seen from one key the whole queue is a machine of one event: whatever else is registered, an operation does to that event what it does to it alone, and only the free slots a delivery has left for it depend on the others |
| EventQueueRuns.TimerAccepts | src/kernel/eventQueue.cpp:519-530 | a delay is accepted exactly when it is a normalised time of at most 64 bits of nanoseconds, and its deadline saturates |
| EventQueueRuns.LevelEventRefills | src/kernel/eventQueue.cpp:105-129 | over every run that touches its key with deliveries only a triggered event of KernelAddUserEvent stays triggered, is delivered as the same occurrence each time, and makes every delivery of the queue fill all its slots |
| EventQueueRuns.TimerFiresOnce | src/kernel/eventQueue.cpp:90-145 | over every run that touches a timer key with deliveries only the timer is delivered at most once, just as registered, and has been exactly when its key has left the list; never before its deadline |
| EventQueueRuns.DueTimerIsDelivered | src/kernel/eventQueue.cpp:90-145 | a delivery at or after the deadline that does not fill every slot delivers the timer and drops it, whatever else waits |
| EventQueueRuns.UnfilledDrainsAll | src/kernel/eventQueue.cpp:103-134 | a delivery that leaves slots free leaves nothing triggered |
| EventQueueRuns.EdgeEventCoalesces | src/kernel/eventQueue.cpp:90-277 | over every run an event of KernelAddUserEventEdge is delivered at most once per trigger, and the last trigger is the last one delivered or waiting |
| EventQueueRuns.InvAfter | src/kernel/eventQueue.cpp:90-302 | keys stay unique and an untriggered event has no pending occurrences, under every operation |
| EventQueueRuns.NothingLost | src/kernel/eventQueue.cpp:90-277 | over every run that does not delete an AMPR key, what was delivered for it followed by what waits is what waited followed by what was triggered |
| EventQueueRuns.ExactlyOncePerTrigger | src/kernel/eventQueue.cpp:90-277 | from its registration on an AMPR event is delivered exactly once per trigger, in trigger order, over every run that does not delete it, with any registrations under any keys in between |
| EventQueueHistory.UserDelivery | src/kernel/eventQueue.cpp:251-256 | after any calls that do not delete a user key, whatever a delivery copies out for it has the registered ident, filter and flags, the data of the last trigger, and the user data of the last trigger or registration; nothing comes before the first trigger |
| EventQueueHistory.LastTriggerSetsBoth | src/kernel/eventQueue.cpp:251-256 | with no registration since, the argument of the last trigger is both the data and the user data |
| EventQueueHistory.AmprDelivery | src/kernel/eventQueue.cpp:258-268 | after any calls that do not delete an AMPR key, a delivery copies out the occurrences of the next triggers in order, each as registered, with the data of its own trigger and the user data of the last registration |
| EventQueueHistory.TimerDelivery | src/kernel/eventQueue.cpp:90-145 | after any calls at all, with any registrations of the timer among them, a delivery copies out nothing for its key or its one occurrence, with the user data of the last registration, and then drops the key |
| EventQueueHistory.OncePerArming | src/kernel/eventQueue.cpp:90-223 | over every run that does not delete it, a timer is delivered exactly once for each registration that found its key absent, unless it still waits |
| EventQueueHistory.TimerMoves | src/kernel/eventQueue.cpp:139-145 | registering a timer again moves its deadline and user data; an unfilled delivery delivers it exactly when its last deadline has come, it was triggered, or an earlier delivery came at or after the deadline in force then; until one of these nothing is delivered |
| EventQueueHistory.MovedTimerIsEarly | src/kernel/eventQueue.cpp:211-213 | an input where the earlier delivery decides: due at 10, passed over at 20 by a filled delivery, registered again for 1020, delivered at 30 |
| EventQueueHistory.OrderAfter | src/kernel/eventQueue.cpp:103-134 | the list stays in the order of registrations under every operation, a new key goes last, and what a delivery copies out comes in that order |
| EventQueueRuns.LevelTriggered | src/kernel/eventQueue.cpp:251-256 | a registered level event is triggered by its trigger, with the argument as data and user data |
| Dirents.MaskRoundsDown | src/kernel/fileSystem.cpp:114-116 | masking the low bits off is rounding down to a multiple of the power of two |
| Dirents.BlockRounding | src/kernel/fileSystem.cpp:114-116 | the count is rounded down to whole blocks |
| Dirents.WordRounding | src/kernel/fileSystem.cpp:118-120 | record lengths are rounded up to multiples of 4 |
| Dirents.FoldGood | src/kernel/fileSystem.cpp:1077-1081 | adding the slack to the last record fills its block exactly and disturbs no other record |
| Dirents.RecordsTile | src/kernel/fileSystem.cpp:1062-1111 | the records hold the entries in order, tile a whole number of 512-byte blocks, have lengths that are multiples of 4 and at most 512, and never cross a block |
| DirentPager.Pack | src/kernel/fileSystem.cpp:1062-1109 | the byte-writing loop produces exactly the image of those records |
| DirentPager.WalkRecoversEntries | src/kernel/fileSystem.cpp:1121-1132 | walking the packed image by record lengths gives the names and types back, in order |
| DirentPager.FieldsInImage | src/kernel/fileSystem.cpp:1122-1124 | the fields the pager reads at the start of a record are that record's length and name length |
| DirentPager.PhaseStep | src/kernel/fileSystem.cpp:1130-1144 | whole records are skipped up to the offset, copying starts exactly there, and stops early only when the count is used up |
| DirentPager.CopyOut | src/kernel/fileSystem.cpp:1116-1145 | the walking and copying loop returns exactly the next bytes of the image, as many as fit or are left, and touches no other byte of the buffer |
| DirentPager.DirectoryFile.GetDirentries | src/kernel/fileSystem.cpp:1047-1148 | a call returns min(nbytes rounded down to blocks, what is left) bytes of the image from the offset and moves the offset past them; less than 512 bytes of room is an error without effect |
| DirentPager.PagesConcatenate | src/kernel/fileSystem.cpp:1111-1148 | over any calls with room for a block the offset stays on block boundaries, the pieces concatenate to the image, and as many calls as there are blocks return all of it |
| DirentPager.AtLeastABlock | src/kernel/fileSystem.cpp:1111-1148 | every call before the end makes progress by a block at least |
| DirentPager.PageIsLargest | src/kernel/fileSystem.cpp:1111-1148 | the number of bytes a call returns is the one number of whole blocks that fits in nbytes and in what is left and cannot be larger |
| DirentFormat.ListsIffImage | src/kernel/fileSystem.cpp:1062-1109 | the packed image is the one byte string of the format: per record the hash modulo 2^32 and the length little-endian, 8 for a file and 4 for a directory, the name length, the name, and zeros to the end; a record inside a block takes no more than it needs, and one that ends a block leaves no room for the next entry |
| DirentFormat.ImageLists | src/kernel/fileSystem.cpp:1090-1098 | every byte of every record of the packed image is the one the format gives |
| DirentFormat.ListsOnce | src/kernel/fileSystem.cpp:1062-1109 | two byte strings of the format for the same entries are equal |
| BitArray.BitArray.Slice | src/common/bitArray.h:58-81 | for all bounds the slice has the bits of the range and no others; rejected ranges give an empty array |
| BitArray.BitArray.SetRange | src/common/bitArray.h:95-118 | for all bounds exactly the bits of the range are set, inside one word or across many; rejected ranges change nothing |
| BitArray.BitArray.UnsetRange | src/common/bitArray.h:120-143 | for all bounds exactly the bits of the range are cleared; rejected ranges change nothing |
| BitArray.RangeWords | src/common/bitArray.h:95-143 | the word-by-word masks and the flat loop over booleans agree, bit for bit |
| BitArray.BitArray.FirstRangeFrom | src/common/bitArray.h:158-188 | returns the first run of set bits with a bit at or after start: nothing set before it, all set inside, and it ends at a clear bit or the end |
| BitArray.BitArray.LastRangeFrom | src/common/bitArray.h:192-226 | returns the last run of set bits below end, cut off at end |
| BitArray.FirstRunUnique | src/common/bitArray.h:158-188 | that description of the first run has one solution |
| BitArray.LastRunUnique | src/common/bitArray.h:192-226 | that description of the last run has one solution |
| BitArray.LastRunUndoesFirstRun | src/common/bitArray.h:158-226 | searching back from the end of a run found forwards gives the same run |
| BitArray.BitArray.Ranges | src/common/bitArray.h:32-42 | iterating from begin to end terminates and visits exactly the maximal runs of set bits, in increasing order and apart |
| DateTime.FloorDivIsFloor | src/common/dateTime.cpp:11-22 | the truncating quotient with its correction is the quotient rounded down, for all signs |
| DateTime.JulianDayCounts | src/common/dateTime.cpp:24-38 | the next calendar day, year -1 being followed by year 1, has the next Julian day, and 2000-01-01 is day 2451545 |
| DateTime.JulianDayOrder | src/common/dateTime.cpp:24-38 | Julian-day order is calendar order, and a Julian day stands for one date |
| DateTime.DateToDayToDate | src/common/dateTime.cpp:24-65 | for every valid date, years before 1 included, JdToYmd undoes YmdToJd |
| DateTime.DayToDateToDay | src/common/dateTime.cpp:24-65 | for every day JdToYmd gives a valid date and YmdToJd undoes it |
| DateTime.JdToYmdFitsExactly | src/common/dateTime.cpp:40-50 | no intermediate result of JdToYmd leaves int32 exactly on the days -536866432 to 536838867 |
| DateTime.RoundTripFits | src/common/dateTime.cpp:24-65 | on those days the way back does not overflow either |
| DateTime.YmdToJdFitsExactly | src/common/dateTime.cpp:24-38 | no intermediate result of YmdToJd leaves int32 exactly on the dates -5884291-05-14 to 5874689-12-15 |
| DateTime.DateRoundTripFits | src/common/dateTime.cpp:24-65 | the whole round trip of a date stays in int32 exactly on the dates -1474604-07-13 to 1465102-10-18 |
| DateTime.LeapYearNumber | src/common/dateTime.cpp:160-166 | the truncating remainders of a negative year decide the leap year of the consecutive numbering |
| DateTime.Date.DayOfWeek | src/common/dateTime.cpp:209-219 | weekdays 1 to 7 continue the same seven-day cycle on both sides of day 0 |
| DateTime.Date.DayOfYear | src/common/dateTime.cpp:221-230 | the position of the day is the sum of the lengths of the months before it plus the day, between 1 and the length of the year |
| DateTime.Date.Set | src/common/dateTime.cpp:136-142 | a valid date is stored so that converting back gives it, and exactly a date the calendar does not have leaves the invalid marker |
| LruCache.LeastRecentlyUsedCache.Attach | src/common/lruCache.h:81-93 | the links form the old list with the item at its end, forwards and backwards |
| LruCache.LeastRecentlyUsedCache.Detach | src/common/lruCache.h:95-108 | the links form the old list without the item, forwards and backwards |
| LruCache.ThreadedRemove | src/common/lruCache.h:95-108 | bypassing one item, at an end or inside, leaves a well-formed list of the others in their order |
| LruCache.LeastRecentlyUsedCache.Insert | src/common/lruCache.h:21-28 | the item becomes the most recent one under the oldest free id, or a new one |
| LruCache.LeastRecentlyUsedCache.Touch | src/common/lruCache.h:30-40 | a newer tick makes the item the most recent one; one that is not newer changes nothing |
| LruCache.LeastRecentlyUsedCache.Free | src/common/lruCache.h:42-48 | the item leaves the list and its id joins the end of the free queue |
| LruCache.RunOrdered | src/common/lruCache.h:21-48 | over every run live and free ids partition the ids, and ticks that never decrease keep the list ordered by tick |
| LruCache.VisitsExactly | src/common/lruCache.h:50-67 | on an ordered list a callback that never stops sees exactly the live items with a tick up to the bound |
| LruCache.LeastRecentlyUsedCache.ForEachItemBelow | src/common/lruCache.h:50-67 | the traversal visits the list up to the first tick above the bound or the callback's stop, even when the callback frees the item it is called on, and frees nothing else |
| LruHistory.ListTold | src/common/lruCache.h:21-48 | after any calls the list holds exactly the ids inserted and not released since, each with the largest tick supplied since its insertion, in the order of the calls that first supplied those ticks |
| LruHistory.StampIs | src/common/lruCache.h:30-40 | that call is the first one since the insertion with the largest tick: a touch that is not newer moves nothing |
| LruHistory.NewIdTold | src/common/lruCache.h:70-79 | an insertion returns the id released longest ago, or the least one never returned before when none is released; never one in use |
| LruHistory.VisitsTold | src/common/lruCache.h:50-67 | after any calls with ticks that never decrease, a traversal that is not stopped visits exactly the ids in use with no tick above the bound since their insertion |
| LruHistory.VisitsUpTo | src/common/lruCache.h:50-67 | a traversal visits up to the first item it stops at or the first tick above the bound, on any list |
| LruHistory.DroppedTold | src/common/lruCache.h:50-67 | freeing visited items during a traversal takes exactly those off the list, keeps the order and ticks of the others, and releases them in the order visited |
| Uuid.ReadBack | src/kernel/uuid.cpp:67-77 | every packed UUID has version 1 and variant 10, and the 60-bit timestamp and 14-bit sequence can be read back (sections 4.1.1, 4.1.3, 4.1.4 and 4.1.5 of RFC 4122) |
| Uuid.SequenceCountsStalls | src/kernel/uuid.cpp:61-65 | the clock sequence is the starting one plus the number of calls whose time is not later than that of the call before, modulo 2^14 |
| Uuid.SameUuidIff | src/kernel/uuid.cpp:58-79 | two calls of a run return the same UUID exactly when they see the same time a multiple of 2^14 stalls apart |
| Uuid.AllDistinct | src/kernel/uuid.cpp:58-79 | in a run with fewer than 2^14 calls that do not advance the clock all UUIDs differ, whatever the clock does |
| Uuid.BoundIsSharp | src/kernel/uuid.cpp:61-65 | 2^14 such calls on one timestamp repeat a UUID |
| Uuid.KernelUuidGenerator.GenerateAtTimestamp | src/kernel/uuid.cpp:58-79 | the call makes one step of the run and returns a UUID that reads back as the new timestamp and sequence |
| Subsystems.DependentsDestroyedFirst | src/common/subsystems.cpp:90-101 | in the order of shutdown no subsystem comes before one that depends on it |
| Subsystems.AllStartedIff | src/common/subsystems.cpp:66-88 | when nothing is ready any more, everything has been started if and only if the dependencies are registered and not circular |
| Subsystems.SubsystemsList.FindNextToInitialize | src/common/subsystems.cpp:136-156 | returns the first registered node that is ready, and none exactly when none is |
| Subsystems.SubsystemsList.InitAll | src/common/subsystems.cpp:66-88 | terminates; Init runs once per started subsystem and only after all its dependencies; success leaves nothing ready, and everything started exactly when the dependencies can be ordered; failure is that of a ready subsystem |
| Subsystems.SubsystemsList.DestroyAll | src/common/subsystems.cpp:90-101 | destroys exactly the started subsystems, in exact reverse order of their start |

## Left out

- DEFLATE symbols 286 and 287 and distance codes 30 and 31: the source indexes its tables with them; the modelled run ends there (`ReservedSymbol`).
- A zero initial output size and a failing allocation in the zlib decoder: the first is a precondition, the second does not happen.
- Stored blocks, the zlib header, the dynamic code-length tables and the loop over blocks: easy beside the compressed block.
- The raw PNG decoder behind each interlaced pass: its reduced images are given.
- NaN coordinates in the edge sort: they are not ordered.
- Liveness of the event flag: a thread that parks after the signal of Cancel or of the destructor may never be woken.
- Set, Clear and Cancel on a flag that is being deleted: the source exits, so such a call is no step.
- The elapsed time of a wait as a 32-bit number of microseconds computed in floating point: it is any natural number.
- The queues' blocking loop `WaitForEvents`, queue handles, and triggers, resets and deletions by other components (graphics, video, AMPR completion): callbacks into other code.
- Names of directory entries longer than 255 bytes, at which the source exits, and empty ones, at which its walk stops.
- Descriptor errors of the directory listing: they return before the modelled part.
- The single-bit operations, `None`, `Any` and the operators of the bit array: one line each.
- Date formatting, time of day, adding days and assigning a Julian day directly: easy or textual.
- A callback that frees other items than its own during `ForEachItemBelow`: its users collect candidates first.
- EventQueue.KernelEqueuePrivate.Close: the delete callbacks that run before the list is cleared are not modelled.
- EventFlagRegistry.EventFlags.Close: the destructor that runs after the lock is released is `EventFlag`'s, not part of this step.
- Uuid.KernelUuidGenerator.GenerateAtTimestamp: the mutex, the random node and the clock are outside the model; calls are serial and timestamps are given.
- Subsystems.SubsystemsList.InitAll: Init and Destroy run no code of their own here; a set of names says which fail.
- `ShutdownAll` and the messages of the start-up list: the same loop, and printing.
- One C++ function is sometimes several methods here (the table builder, the block decoder, the event queue's delivery, the list of the cache), and the bit reader is an object of its own.
