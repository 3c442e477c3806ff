# Verified models of the network server's buffer, dispatcher and utilities

This project models the parts of a C++ network server (a partial port of Envoy) in which the
difficulty lies in state, concurrency or arithmetic, and proves properties of the models. Run
`dafny verify dfyconfig.toml` in this directory to check all of it.

## What is modelled

**The byte buffer.** A buffer is one flat string of bytes, kept in a ring of slices, each with a
drained, a data and a reservable region, callbacks to fire when it is released, and possibly a
memory account that it is charged to.

- `Bytes.dfy` and `Holdings.dfy` are the mathematics: flattening chunks, overwriting, what a list of
  slices holds. `Resources.dfy` is the log in which callbacks fire and accounts are charged, and
  `RawMemory.dfy` has the stretches of memory that bytes are copied to, piece by piece.
- `Slice.dfy`, `SliceDeque.dfy` and `OwnedImpl.dfy` are the three classes, with their fields
  updated in place. Every operation modelled is proved against a sequence operation on
  its content (append, prepend, drop, take, copy, search), and keeps the account of what it holds:
  callbacks held plus callbacks fired, and charges minus what live slices are bound for, change
  only by what the caller hands over.
- `BufferCopy.dfy` and `BufferSearch.dfy` are the copying and searching that the buffer does over its
  ring of slices, `ReservedStorages.dfy` the cache of storages and what a reservation looks like.
- `DequeRuns.dfy` has arbitrary runs of calls on a ring of slices, compared with a sequence.
- `Reservations.dfy` is the reservation object: reserve, let the caller write, commit.
- `BufferRuns.dfy` has arbitrary runs of calls on two buffers, reservations among them, compared with
  the same calls on two plain strings, and whole lifetimes of two buffers.
- `Integers.dfy` has integers of any width, byte order and number of bytes written to and read from
  a buffer.

**The dispatcher.** `Mailbox.dfy` is a labelled transition system for the posting of callbacks by any
number of threads to the loop thread; the same machine serves for deletion in the dispatcher's
thread. `Dispatcher.dfy` is the class as the loop thread sees it, where callbacks and destructors
re-enter the dispatcher while it works through its lists. `WorkerStartup.dfy` is a labelled
transition system for the start-up handshake between the main thread and the workers.

**Utilities.** `IntervalSet.dfy` (the ordered set of intervals and the removal of the characters it
covers), `DateFormatter.dfy` (formatting through a cache that all formatters of a thread share),
`Primes.dfy`, `WeightedCluster.dfy`, `AtomicPtrArray.dfy` (lazy creation by any number of threads, a
labelled transition system), and `Printing.dfy` (decimal printing of integers and IPv4 addresses);
`Arithmetic.dfy` has the facts about division that several of them need. `Divisors.dfy` is the theory
of divisors and primes, and `LargestPrime.dfy` certifies the largest prime of 32 bits, which is where
the search of `Primes.dfy` ends.

## Results worth knowing

- `search`, for any needle that is not empty, returns the first occurrence that lies inside the window
  searched, or -1, however the content is cut into slices; with no length given and a start beyond
  the end, the unsigned subtraction wraps, and the result is still -1.
- Over every run of calls on two buffers no byte is lost, duplicated or reordered, every callback
  handed over fires exactly once by the time both buffers are gone, and every account is back at
  zero.
- In every interleaving the callbacks executed are the callbacks posted, in lock order, each once,
  and no wakeup is lost: a state with nothing left to do has executed everything.
- The completion callback of the start-up runs if and only if there is at least one worker and at
  least one listener. With none, the source never calls back: the branch that did is commented out.
- A callback can fire while its bytes are still in the buffer: `linearize` leaves everything alone when
  the bytes lie in the first slice, and otherwise releases exactly the slices that it copies from.
- `findPrimeLargerThan` returns the least prime above its argument x if and only if
  2 <= x < 4294967291. It always returns: otherwise the odd numbers wrap round to 1, which `isPrime`
  accepts; from 1 it steps over 2 and returns 3.
- `pickCluster` falls out of its loop, with no result, if and only if no running sum of the weights, as
  64 bits keep it, exceeds the selected value; when the weights fit in 64 bits together, that is when
  the value is not below their sum.
- Writing and reading back an integer returns every value that fits, for all widths, sizes and
  orders, except when fewer bytes than the type has are written in host order on a big-endian
  machine; there it fails, already for the value 1.
- `removeCharacters` throws if and only if some interval ends past the end of the string.
- Formatting through the cache gives the uncached text at all times, before the epoch too, whatever
  calls came before on the thread. That text shows the instant, in all formats, if and only if the
  time is not before the epoch or is a whole number of seconds: before the epoch the second is cut
  towards zero and the digits are those of |ns|, so that half a second before and half a second
  after print the same. In the last tenth of a second before the epoch even those digits are lost,
  as the minus sign stands among the zeros of the padding.

## Conventions

Memory is an array of bytes; a slice's `base` pointer is such an array. Callbacks and accounts are
names, and a `ResourceLog` records what fires and what is charged. A C++ exception or an undefined
result is `None`. Unsigned 64-bit and 32-bit wrap-around is written out where it matters; other
sizes are unbounded. The state of a machine in a labelled transition system has one field per shared
variable, and one step is one access to shared state or one critical section.

## Model

| member | source | states |
|---|---|---|
| `SliceModule.SliceSize` | `source/src/common/buffer/BufferImpl.h:357-361` | the capacity is the least multiple of the page size that holds the data |
| `SliceModule.Slice.Owned` | `source/src/common/buffer/BufferImpl.h:58-66` | a new owned slice is empty, has at least the capacity asked for, and its account is charged that capacity |
| `SliceModule.Slice.Fragment` | `source/src/common/buffer/BufferImpl.h:90-96` | a fragment slice holds all of the fragment's memory, has no free space, and will fire its release callback once |
| `SliceModule.Slice.MoveFrom` | `source/src/common/buffer/BufferImpl.h:112-131` | move assignment releases what the target held, gives it exactly what the source held, and leaves the source empty |
| `SliceModule.Slice.CallAndClearDrainTrackersAndCharges` | `source/src/common/buffer/BufferImpl.h:323-335` | all callbacks fire, in order, the account gets the capacity back, and the slice keeps neither |
| `SliceModule.Slice.Drain` | `source/src/common/buffer/BufferImpl.h:164-173` | moves the beginning of the data on and changes nothing else; an emptied slice is all free space again, with both offsets at zero |
| `SliceModule.SliceState.DrainedContent` | `source/src/common/buffer/BufferImpl.h:164-173` | draining drops the first bytes of the content and keeps the rest |
| `SliceModule.Slice.Append` | `source/src/common/buffer/BufferImpl.h:248-258` | as many bytes as fit become the end of the content |
| `SliceModule.Slice.Prepend` | `source/src/common/buffer/BufferImpl.h:268-288` | as many of the last bytes as fit are written in front of the data, or to the far end of an empty slice; zero bytes are accepted |
| `SliceModule.SliceState.PrependedContent` | `source/src/common/buffer/BufferImpl.h:268-288` | they become the beginning of the content; the offsets stay in order, with the one exception of zero bytes into an empty slice |
| `SliceModule.Slice.TransferDrainTrackersTo` | `source/src/common/buffer/BufferImpl.h:307-309` | callbacks move to the other slice and none fires |
| `SliceModule.Slice.MaybeChargeAccount` | `source/src/common/buffer/BufferImpl.h:341-347` | only an owned slice without an account is charged, and only once |
| `SliceDequeModule.SliceDeque.WindowChanged` | `source/src/common/buffer/BufferImpl.h:452-501` | a change of one slot, the window and the size keeps the ring's invariant: slots in the window hold the elements in order, all others are empty |
| `SliceDequeModule.SliceDeque.MoveRing` | `source/src/common/buffer/BufferImpl.h:554-560` | the elements arrive in the new ring in order from its first slot on, from any start, wrapped or not |
| `SliceDequeModule.SliceDeque.GrowRing` | `source/src/common/buffer/BufferImpl.h:545-563` | afterwards there is a free slot, and the elements are the same, in the same order |
| `SliceDequeModule.SliceDeque.EmplaceBack` | `source/src/common/buffer/BufferImpl.h:452-457` | the element is added at the end and nothing is released |
| `SliceDequeModule.SliceDeque.EmplaceFront` | `source/src/common/buffer/BufferImpl.h:459-464` | the element is added in front and nothing is released |
| `SliceDequeModule.SliceDeque.PopFront` | `source/src/common/buffer/BufferImpl.h:483-493` | the first element goes, its callbacks fire and its charge is returned; none if there is none |
| `SliceDequeModule.SliceDeque.PopBack` | `source/src/common/buffer/BufferImpl.h:495-501` | the last element goes, its callbacks fire and its charge is returned; none if there is none |
| `SliceDequeModule.SliceDeque.At` | `source/src/common/buffer/BufferImpl.h:474-481` | indexing finds the element of the sequence through the ring's wrap-around |
| `DequeRuns.Run` | `source/src/common/buffer/BufferImpl.h:452-501` | over any run of calls at both ends, with slices of any bytes, the ring is the sequence, contents included, through growth and wrap-around, and what it destroys is released in the order of the calls |
| `Holdings.ContentByte` | `source/src/common/buffer/BufferImpl.cpp:503-520` | byte k of slice i is that byte of the flat content behind all earlier slices, empty ones included |
| `Holdings.HoldingsSame` | `source/src/common/buffer/BufferImpl.h:58-133` | a slice that changes but keeps its callbacks, account and capacity changes nothing in total, wherever it stands |
| `Holdings.ReplaceFirst` | `source/src/common/buffer/BufferImpl.h:58-133` | changing the first slice in place changes the beginning of the content only, and nothing that is held |
| `Holdings.ReplaceLast` | `source/src/common/buffer/BufferImpl.h:58-133` | changing the last slice in place changes the end of the content only, and nothing that is held |
| `OwnedImplModule.OwnedImpl.AddImpl` | `source/src/common/buffer/BufferImpl.cpp:29-42` | appends the bytes; at most one slice is added, none if the last one has room |
| `OwnedImplModule.OwnedImpl.AddDrainTracker` | `source/src/common/buffer/BufferImpl.cpp:44-47` | the callback is held by the last slice and is the only one gained |
| `OwnedImplModule.OwnedImpl.AddBufferFragment` | `source/src/common/buffer/BufferImpl.cpp:58-61` | appends the fragment's bytes as one slice that holds its release callback; nothing fires |
| `OwnedImplModule.OwnedImpl.AddBuffer` | `source/src/common/buffer/BufferImpl.cpp:65-70` | appends the other buffer's content, which stays |
| `OwnedImplModule.OwnedImpl.Prepend` | `source/src/common/buffer/BufferImpl.cpp:72-84` | puts the bytes in front |
| `OwnedImplModule.OwnedImpl.PrependBuffer` | `source/src/common/buffer/BufferImpl.cpp:86-98` | puts the other buffer's content in front, in order, and leaves that one empty; callbacks and charges go along |
| `OwnedImplModule.OwnedImpl.CopyOut` | `source/src/common/buffer/BufferImpl.cpp:100-124` | copies the window of the content, across slices, skipping what comes before |
| `OwnedImplModule.OwnedImpl.CopyOutToSlices` | `source/src/common/buffer/BufferImpl.cpp:126-161` | fills the destinations, any stretches of memory that do not overlap, one behind the other with the beginning of the content and counts the bytes: the least of size, length and room; ends with empty slices on either side |
| `RawMemory.WriteRaw` | `source/src/common/buffer/BufferImpl.cpp:144-146` | the copy changes the destination only: every stretch of the same memory apart from it keeps its bytes |
| `BufferCopy.Advanced` | `source/src/common/buffer/BufferImpl.cpp:148-155` | the two offsets and indices keep pointing at the same byte of content and destinations |
| `OwnedImplModule.OwnedImpl.Drain` | `source/src/common/buffer/BufferImpl.cpp:165-186` | drops the first bytes, or all; exactly the emptied slices in front are destroyed, and their callbacks fire in order |
| `OwnedImplModule.OwnedImpl.ExtractMutableFrontSlice` | `source/src/common/buffer/BufferImpl.cpp:229-254` | hands out the first non-empty slice's bytes in a mutable slice that holds no callback and no charge; the rest stays and nothing held is lost |
| `OwnedImplModule.OwnedImpl.Linearize` | `source/src/common/buffer/BufferImpl.cpp:270-291` | the content stays and its first bytes lie in one slice, whose memory is pointed to; when they did already nothing changes and nothing fires, otherwise exactly the slices they came from are destroyed, and their callbacks fire in order |
| `OwnedImplModule.OwnedImpl.CoalesceOrAddSlice` | `source/src/common/buffer/BufferImpl.cpp:293-313` | the slice's bytes are appended, in a slice of their own unless it is owned, small and fits; callbacks are kept either way |
| `OwnedImplModule.OwnedImpl.Move` | `source/src/common/buffer/BufferImpl.cpp:315-328` | all of the other content is appended in order, the other buffer is empty, nothing held is lost or released twice |
| `OwnedImplModule.OwnedImpl.MoveLength` | `source/src/common/buffer/BufferImpl.cpp:330-353` | the first bytes of the other content are appended and no longer there; the rest stays |
| `OwnedImplModule.OwnedImpl.ReserveWithMaxLength` | `source/src/common/buffer/BufferImpl.cpp:359-411` | content stays; the memory reserved is free, at most 8 pieces, and at most the maximum or below two slices; it stops exactly when the maximum is reached, 8 pieces are taken, or a whole slice is reserved and less than one is missing; a maximum of zero reserves nothing |
| `OwnedImplModule.OwnedImpl.ReserveSingleSlice` | `source/src/common/buffer/BufferImpl.cpp:413-441` | one piece of exactly the length, in the last slice if allowed and it has room, else in new memory; none for a length of zero |
| `OwnedImplModule.OwnedImpl.Commit` | `source/src/common/buffer/BufferImpl.cpp:443-471` | appends the first bytes of the reserved memory; pieces not needed stay outside the buffer |
| `BufferSearch.MatchByte` | `source/src/common/buffer/BufferImpl.cpp:525-545` | one more byte of the needle is compared with the next byte of the flat content |
| `BufferSearch.MatchSlice` | `source/src/common/buffer/BufferImpl.cpp:528-537` | going on to the next slice stays at the same byte of the content, and behind the last slice the content ends |
| `BufferSearch.MatchRest` | `source/src/common/buffer/BufferImpl.cpp:519-547` | the comparison across slices reaches the needle's end if and only if it occurs there inside the window |
| `BufferSearch.SearchSlice` | `source/src/common/buffer/BufferImpl.cpp:499-553` | finds the first match starting in a slice, or none, and counts the bytes left to search |
| `OwnedImplModule.OwnedImpl.Search` | `source/src/common/buffer/BufferImpl.cpp:473-556` | the first occurrence from the start on inside the window, or -1; for an empty needle the start if it is in the buffer |
| `OwnedImplModule.OwnedImpl.StartsWith` | `source/src/common/buffer/BufferImpl.cpp:558-592` | whether the data is a prefix of the content |
| `OwnedImplModule.OwnedImpl.AddFragments` | `source/src/common/buffer/BufferImpl.cpp:634-668` | appends all fragments in order and returns their size, in place or one by one |
| `OwnedImplModule.OwnedImpl.OnlyOtherChanged` | `source/src/common/buffer/BufferImpl.h:307-347` | conservation over two buffers when only one of them changed |
| `OwnedImplModule.OwnedImpl.Destroy` | `source/src/common/buffer/BufferImpl.h:133` | everything held is released: each callback fires once, each charge is returned |
| `ReservedStorages.StorageFreeList.NewStorage` | `source/src/common/buffer/BufferImpl.h:782-794` | the storage is the last one cached, which is cached no more, or a new one if none is |
| `ReservedStorages.StorageFreeList.Release` | `source/src/common/buffer/BufferImpl.h:771-780` | unused storages go back until the cache is full; nothing else enters it |
| `BufferRuns.Run` | `source/src/common/buffer/BufferImpl.cpp:29-98` | over any run of calls on two buffers, reserving and committing and binding accounts included, the contents are those of two plain strings under the same calls, and what both hold or released changes only by what callers registered |
| `BufferRuns.Lifetime` | `source/src/common/buffer/BufferImpl.h:58-133` | from creation to destruction of both buffers every callback registered fires exactly once and every account ends at zero |
| `BufferRuns.ApplyCross` | `source/src/common/buffer/BufferImpl.cpp:315-353` | a call that takes the other buffer acts on the pair of strings as specified and conserves what both hold |
| `BufferRuns.LinearizeFiresEarly` | `source/src/common/buffer/BufferImpl.cpp:270-291` | two fragments of one byte each: linearizing both bytes fires both release callbacks while the content is still there |
| `Reservations.Reservation.constructor` | `source/src/common/buffer/BufferImpl.cpp:359-411` | reserving leaves content and holdings of the buffer as they are, and takes storages from the cache or new ones only; a maximum of zero gives an empty reservation |
| `Reservations.Reservation.Write` | `source/include/buffer/Buffer.h:573-605` | what the caller writes into one piece is an overwrite of the reserved memory and does not touch the content |
| `Reservations.Reservation.Commit` | `source/include/buffer/Buffer.h:601-609` | commits exactly the first bytes of what was written, in order across pieces, and ends the reservation |
| `Bytes.PieceWritten` | `source/include/buffer/Buffer.h:573-605` | a write into one piece is a write into the whole, at the piece's position |
| `Reservations.Append` | `source/include/buffer/Buffer.h:573-609` | reserving for some data, writing what fits piece by piece and committing it appends a beginning of the data, which is not empty unless the data is |
| `Integers.RoundTrip` | `source/include/buffer/Buffer.h:355-384` | what is written comes back cut to its bytes, sign extended |
| `Integers.RoundTripExactly` | `source/include/buffer/Buffer.h:355-458` | every representable value survives if and only if the format is not a part of the bytes in host order on a big-endian machine |
| `Integers.MisplacedLosesOne` | `source/include/buffer/Buffer.h:449-458` | there, 1 is written as zeros and read as 0 |
| `Integers.ExtensionKeepsSign` | `source/include/buffer/Buffer.h:371-384` | or-ing ones above the bytes read gives the narrow value's sign in the wide type |
| `Integers.ReadBack` | `source/src/common/common/ByteOrder.h:66-136` | the displaced bytes come to lie where the conversion expects the low ones, in both orders |
| `Integers.WriteInt` | `source/include/buffer/Buffer.h:451-458` | appends exactly the encoded bytes |
| `Integers.PeekInt` | `source/include/buffer/Buffer.h:355-384` | decodes the bytes at a position, whatever the slices, and changes nothing |
| `Integers.DrainInt` | `source/include/buffer/Buffer.h:410-414` | returns what peeking returns and drops those bytes |
| `Integers.DrainWritten` | `source/include/buffer/Buffer.h:410-458` | an integer in front of other content is drained as it was written and the rest stays |
| `Mailbox.StepKeepsInv` | `source/src/common/event/DispatcherImpl.cpp:259-270` | every step of every thread keeps the accounting of callbacks and that somebody will look at a non-empty queue |
| `Mailbox.RunIsSafe` | `source/src/common/event/DispatcherImpl.cpp:351-379` | in every interleaving executed, taken and queued callbacks are together the pushes in lock order |
| `Mailbox.StepUsesWork` | `source/src/common/event/SchedulableCbImpl.cpp:25-48` | every step but a push uses up work |
| `Mailbox.QuietRunIsBounded` | `source/src/common/event/DispatcherImpl.cpp:287-295` | once posting stops a run settles within a bounded number of steps |
| `Mailbox.SettledMeansAllExecuted` | `source/src/common/event/DispatcherImpl.cpp:259-270` | a reachable state with nothing left to do has executed every callback, unless the loop was stopped: no wakeup is lost |
| `Mailbox.ShutdownDrains` | `source/src/common/event/DispatcherImpl.cpp:301-330` | what was pushed before `shutdown` took the list is deleted, once and in order, and nothing pushed later |
| `DispatcherModule.Dispatcher.DeferredDelete` | `source/src/common/event/DispatcherImpl.cpp:239-249` | the object is told that its deletion is pending, once, and joins the current vector; a vector that is not empty has its event armed |
| `DispatcherModule.Dispatcher.ClearDeferredDeleteList` | `source/src/common/event/DispatcherImpl.cpp:104-136` | destroys, in order, what had been submitted by then and nothing that destructors submit; does nothing inside another clear |
| `DispatcherModule.Dispatcher.Post` | `source/src/common/event/DispatcherImpl.cpp:259-270` | the callback is queued last and a queue that is not empty has its event armed |
| `DispatcherModule.Dispatcher.RunPostCallbacks` | `source/src/common/event/DispatcherImpl.cpp:351-379` | executes, in order, what had been posted by then, after the deferred deletions; posts by callbacks stay queued |
| `DispatcherModule.Dispatcher.OnDeferredDeleteEvent` | `source/src/common/event/DispatcherImpl.cpp:104-136` | an event delivers exactly the deletions submitted so far, though it is disarmed first |
| `DispatcherModule.Dispatcher.OnPostEvent` | `source/src/common/event/DispatcherImpl.cpp:351-379` | an event executes every callback posted before it |
| `WorkerStartup.StepKeepsInv` | `source/src/server/ListenerManagerImpl.cpp:824-877` | every step keeps what each worker has added, holds and owes, and the three counters |
| `WorkerStartup.ReturnedMeansAllAdded` | `source/src/server/WorkerImpl.cpp:31-38` | when the wait has returned every worker has added every listener, in order |
| `WorkerStartup.FiresOnceAtTheEnd` | `source/src/server/ListenerManagerImpl.cpp:639-661` | the callback runs at most once, on the main thread after the wait, and only when all completions have run |
| `WorkerStartup.StuckMeansFired` | `source/src/server/ListenerManagerImpl.cpp:853-876` | no deadlock; a run that cannot go on has called back, exactly when there are workers and listeners |
| `WorkerStartup.RunIsBounded` | `source/src/server/WorkerImpl.cpp:109-118` | every interleaving ends within a bounded number of steps |
| `AtomicPtrArray.StepKeepsInv` | `source/src/common/common/ThreadBase.h:133-147` | every load, store and lock step keeps the state of each slot; a pointer once stored stays |
| `AtomicPtrArray.MakersExclude` | `source/src/common/common/ThreadBase.h:119-123` | `make_object` never runs on two threads at once |
| `AtomicPtrArray.MadeOnce` | `source/src/common/common/ThreadBase.h:119-147` | after it has returned an object for a slot it never runs again for that slot |
| `AtomicPtrArray.ResultsAgree` | `source/src/common/common/ThreadBase.h:125-147` | all results for a slot that are not null are the one object made |
| `IntervalSetModule.IntervalSet.Insert` | `source/src/common/common/Utility.h:535-563` | covers what was covered and the range, sorted, without overlap or abutment |
| `IntervalSetModule.IntervalSet.InsertAll` | `source/src/common/common/Utility.h:535-563` | after any inserts the set covers exactly the union of the ranges |
| `IntervalSetModule.JoinedCovers` | `source/src/common/common/Utility.h:545-562` | erasing the intervals that touch the range and inserting the hull covers what was covered, and the range, and nothing else |
| `IntervalSetModule.IntervalSet.Test` | `source/src/common/common/Utility.h:565-568` | decides whether a value is covered |
| `IntervalSetModule.Canonical` | `source/src/common/common/Utility.h:570-580` | equal unions give equal vectors, in whatever order and pieces the ranges came |
| `IntervalSetModule.RemoveCharacters` | `source/src/common/common/Utility.cpp:561-579` | deletes exactly the covered characters; throws if and only if an interval ends past the string |
| `DateFormatter.MatchIsLeftmost` | `source/src/common/common/Utility.cpp:165-169` | no specifier begins before the one that is found |
| `DateFormatter.Parse` | `source/src/common/common/Utility.cpp:162-196` | records exactly the specifiers of the format string, left to right, and the last segment |
| `DateFormatter.FilledIsRendered` | `source/src/common/common/Utility.cpp:182-195` | filling in the recorded specifiers is rendering the pieces of the format string |
| `DateFormatter.FromTimeAndPrepareSpecifierOffsets` | `source/src/common/common/Utility.cpp:198-223` | builds the text with placeholders and the cumulated shift of each specifier |
| `DateFormatter.SpliceStep` | `source/src/common/common/Utility.cpp:145-156` | writing the digits over the placeholder behind what is done fills in one specifier, and position and offset then lead to the next |
| `DateFormatter.PaddedSplits` | `source/src/common/common/Utility.cpp:138-143` | what the padded nanoseconds hold behind the length of the seconds: the last nine digits of their magnitude, but with the sign among the padding for the last tenth of a second before the epoch |
| `DateFormatter.ActualIsCalendar` | `source/src/common/common/Utility.cpp:98-102` | the second and digits shown are those of the instant if and only if ns >= 0 or ns is a whole number of seconds: before the epoch the second is cut towards zero, so that the digits count into the past |
| `DateFormatter.TextsAreRight` | `source/src/common/common/Utility.cpp:98-155` | all formats show the instant, whatever the time library, if and only if ns >= 0 or ns is a whole number of seconds |
| `DateFormatter.HalfASecondBefore` | `source/src/common/common/Utility.cpp:98-102` | half a second before the epoch every format gives the text of half a second after it |
| `DateFormatter.DigitsOfAbs` | `source/src/common/common/Utility.cpp:138-155` | for every width, when the digits spliced in are the leading ones of the last nine digits of the magnitude of ns: not in the last tenth of a second before the epoch, unless the sign comes behind the width |
| `DateFormatter.AllDigitsOfAbs` | `source/src/common/common/Utility.cpp:138-155` | all nine are those of the magnitude of ns if and only if ns >= 0 or ns <= -100_000_000 |
| `DateFormatter.FiveBeforeEpoch` | `source/src/common/common/Utility.cpp:138-143` | five nanoseconds before the epoch the digits are 0000000-5 |
| `DateFormatter.CachedTime.Prepare` | `source/src/common/common/Utility.cpp:104-130` | afterwards the format's text of this second is cached, every item in the cache is of this second, and the shared length is that of the printed second |
| `DateFormatter.CachedTime.FromTime` | `source/src/common/common/Utility.cpp:72-160` | at any time, before the epoch too, the result is the uncached text, for whatever the cache has served before; it is the text of the instant when ns >= 0 or ns is a whole number of seconds |
| `DateFormatter.CachedTime.FromTimes` | `source/src/common/common/Utility.cpp:72-160` | any sequence of formatters and times, before and after the epoch, gives the uncached texts |
| `Divisors.CompositeHasSmallDivisor` | `source/src/common/common/Utility.cpp:608-613` | a composite number has a divisor up to its square root |
| `Primes.IsPrime` | `source/src/common/common/Utility.cpp:601-615` | true exactly for primes and 1 |
| `LargestPrime.LargestIsPrime` | `source/src/common/common/Utility.cpp:617-623` | 4294967291 is prime |
| `LargestPrime.NoneLarger` | `source/src/common/common/Utility.cpp:617-623` | and no larger number of 32 bits is |
| `Primes.FindPrimeLargerThan` | `source/src/common/common/Utility.cpp:617-623` | ends, with the least prime above the argument if and only if 2 <= x < 4294967291; otherwise with 3 from 1 and with 1 |
| `WeightedCluster.PickCluster` | `source/src/common/common/Utility.h:493-521` | the first cluster whose interval, with sums kept in 64 bits, holds the selected value; none if and only if no such sum exceeds the value; while the weights fit in 64 bits it is the chosen one, and none if and only if the value is not below the sum |
| `WeightedCluster.PickedIsChosen` | `source/src/common/common/Utility.h:502-516` | while the weights fit in 64 bits, wrapping does not change any interval |
| `WeightedCluster.ChosenIsUnique` | `source/src/common/common/Utility.h:502-504` | the intervals do not overlap |
| `WeightedCluster.ChosenByWeight` | `source/src/common/common/Utility.h:485-491` | how often a cluster is chosen over any `total` consecutive values: its weight exactly when its interval is not cut by the total |
| `WeightedCluster.ChosenExactly` | `source/src/common/common/Utility.h:485-491` | with the total equal to the sum each cluster is chosen its weight of times |
| `Printing.DecimalIsValue` | `source/src/common/common/Utility.cpp:408-428` | the digits printed have no leading zero and denote the number |
| `Printing.DecimalIsUnique` | `source/src/common/common/Utility.cpp:408-428` | no other such digits denote it |
| `Printing.Itoa` | `source/src/common/common/Utility.cpp:408-428` | the decimal form and a NUL, in at most 21 characters; throws exactly for buffers said to be smaller; leaves the rest of the buffer |
| `Printing.SockaddrToString` | `source/src/common/network/AddressImpl.cpp:188-212` | writes within 16 characters and returns the dotted form |
| `Printing.DottedIsAddress` | `source/src/common/network/AddressImpl.cpp:188-212` | the dotted form is four octets as in section 3.2.2 of RFC 3986 and parses back to the address |
| `Printing.DottedIsInjective` | `source/src/common/network/AddressImpl.cpp:188-212` | different addresses have different texts |

## Left out

- Sockets, signals, timers, file events, watermarks, logging, statistics and the operating system; libevent is an armed bit that is cleared before the callback runs.
- The commented-out parts of listeners, listener manager and connection handler.
- `getRawSlices`, `frontSlice`, `toString` and the test-only accessors of the buffer: they read the same state in the same way as `copyOut`.
- `StringUtil` other than `itoa` and `removeCharacters`, hashes, Welford's algorithm, the trie: easy, or floating point.
- Allocation failure, and buffer or slice sizes that overflow 64 bits.
- OwnedImplModule.OwnedImpl.AddBufferFragment: requires memory that backs no other slice of the buffer, because a write through one slice would then change the content of the other. For fragment memory only the logical content is claimed, as prepending may write into the drained part of a fragment.
- Data that is added to a buffer from the buffer's own memory: data is a value.
- Callbacks held by slices do not call back into the buffer; in which order the slices of a destroyed buffer release them is not stated, only that each fires once.
- SliceDequeModule.SliceDeque.GrowRing: hands the slice objects over to the new ring instead of moving their contents one by one; order and content are what is stated.
- SliceModule.Slice.Commit: the check that refuses a reservation of another slice is not modelled.
- OwnedImplModule.OwnedImpl.Search: the buffer's length and the start fit in 64 bits.
- `ReservationSingleSlice` is not a class of its own: it is `ReserveSingleSlice`, which may give no piece, followed by `Commit`.
- Integers.PeekInt: a buffer shorter than the integer reads as zeros there, because the source's underflow check is commented out.
- Primes.IsPrime: the integer square root stands for the truncated floating-point one, which is exact for 32-bit arguments.
- Printing.SockaddrToString: takes the address in host order; the conversion from network order is not modelled.
- IntervalSetModule.LowerBound: searches the ordered set from the front; the tree of the standard library is not modelled, nor is the overflow of `value + 1` in `test`.
- DateFormatter.CachedTime.FromTime: the time library is a function of segment and second, `to_time_t` cuts to seconds as the cast does, and offsets are unbounded, not 32-bit.
- WorkerStartup.Next: every dispatcher is already running its queue when it has one to run; the wakeup of a dispatcher is the subject of Mailbox. `handler_->addListener` is one step that records the listener.
- AtomicPtrArray.Next: the destructor of the array is not modelled.
