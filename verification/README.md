# Verified model of the cosmost support code

The native part of cosmost is built on a set of C headers that carry whole
algorithms as inline functions and macros: lock-free atomics and a reference
count on top of them, intrusive circular lists, a bitmask allocator, a record
walker, a parcel codec, a narrowing loop and a wire time. Its file-system tracer
adds a lock-free batching buffer and the merging of accesses into block spans.
This project models those algorithms in Dafny and proves what they promise, or
exactly when they keep the promise.

`dafny verify dfyconfig.toml` checks everything.

## The parts

**Atomics** (`Atomics`, `Histories`, `Linearizability`, `Progress`, `Races`, `Loops`).
One step machine covers four architectures: CAS retry loops on arm64 and (for
`and`, `or`) x86_64, one-step `cmpxchg`/`xadd` on x86_64 and one-step CAS on arm64,
and load-linked/store-conditional loops with their two opposite status conventions on
arm and mips. Any number of threads share one 32-bit word, steps interleave freely, and
every finite schedule is a value of the datatype `Run`. `Histories` defines
linearizability without mentioning any implementation; `Linearizability` proves it for
every run on every architecture. `Progress` bounds the length of every schedule,
shows that nobody gets stuck and that every failed attempt is paid for by another
thread's success. `Races` says what each call does to the word and draws conclusions for callers. `Loops` holds the bodies of
the functions as `while` loops on a heap cell, with the other threads' actions as input.

**Reference counting** (`Counting`, `Aref`, `ArefLimit`). The machine above, driven by
threads that call get and put only while they hold a reference. The main theorem is
that release runs at most once, only when nobody can reach the object any more, and
exactly once when every reference has been put. It is proved up to 2^32 simultaneous
references, and `ArefLimit` builds the run that breaks it with one reference more, so the
bound is exact.

**Lists** (`Rings`, `Lists`, `FreeLoops`). `Rings` is the theory of linked rings as values, `Lists` the
heap: nodes with `next` and `prev`, any number of disjoint lists, and ghost state from
which `list_remove` finds the list it shrinks. `FreeLoops` follows the safe loop through bodies
that edit the lists in any way, and says which nodes it visits and exactly when it ends.

**Bitmask and allocator** (`Bits`, `Bitmask`, `Allocator`). An array of 32-bit words read as
a set, down to the single mask, and every run of the allocator that the header shows as its
usage example.

**Batching** (`BatchBuffer`, `BatchLimit`, `BatchFlush`, `AccessBatch`). The packed word through which the
tracer's threads reserve room in a shared buffer, as a step machine for any number of threads:
accepted records lie end to end exactly in the runs in which nothing is accepted while
a refused reservation is outstanding, which is every run of two threads and not every
run of three. `BatchFlush` says exactly which threads can touch the buffer after it is freed,
and exactly when the flush can end. `AccessBatch` follows accesses and closes through the merging
of spans: which blocks are reported, which of them no access touched, which accesses
are listed, and under which path.

**Codecs** (`Integers`, `Bytes`, `Fanotify`, `Parcels`, `Narrowing`, `WireTime`). Event walking as the exact
inverse of concatenation, the parcel round trip, the in-place narrowing loop, and
the agreement of the two time orders.

## Reading notes

- Memory is sequentially consistent: each access to the shared word is one atomic step.
- `prev + increment` wraps around, as the hardware instructions do. In C a signed
  overflow there is undefined; the header says only that overflow behaves as in plain C.
- `BIT_MASK` is an unsigned mask, also for bit 31, where `1 << 31` on a signed int would
  strictly be undefined.
- The bodies of `writeInt32`, `writeInplace`, `readInt32` and `readInplace` are not part of
  this model. They are replaced by a byte sequence with a cursor, four-byte little-endian
  integers, and blocks rounded up to four bytes; writing beyond a capacity fails. A `size_t`
  has 64 bits.
- Integers in `fanotify` buffers and wire times are little-endian.
- Three bounds turned out to be exact and are stated as equivalences: 2^32 references
  (`ArefLimit.SafeExactlyUpToModulus`), two writers on one batching buffer
  (`BatchLimit.SafeForTwoWritersOnly`) and 999999999 nanoseconds (`WireTime.BoundIsExact`).
  `Bitmask.WeightCountsLive`, `Parcels.SizeFieldExact`, `Narrowing.IndexExact` and
  `Narrowing.WidenUndoesNarrowing` say in the same way exactly when a function does what
  its name promises. A flattened size of 2^31 or more does not survive the int32 size field
  of a parcel, unless it is within 2^31 of 2^64.
- In a batching buffer two refused reservations that overlap in time can let a third thread in
  at an index that still contains one of them. When that one is taken back, the next record
  starts inside the accepted one: `BatchLimit.ThreeWritersOverlap` is such a run.
- A thread that has read the buffer's address and not yet added to its word can do so after the
  flush has freed the buffer; one writer beside the flusher is enough (`BatchFlush.NeverAstrayIff`).
  The flush reads the index once. If a refused reservation was in it at that moment, the
  comparison that it then repeats may never succeed; again one writer is enough
  (`BatchFlush.NeverStuckIff`).
- The end of an access is rounded up to a block after it has been made inclusive. One block too many
  is recorded unless the last byte is the first of its block (`AccessBatch.SpanRightIff`,
  `AccessBatch.TwoBytesTwoBlocks`).
- When the access string is full, `batch_read_write_first` starts a new span and then goes on to
  compare with the ends of the old one. An access that extends the old span at one end thereby
  makes the new span too long by the same amount (`AccessBatch.FullStringOvershoots`).
- `read` and its relatives resolve the path of a newly accessed file into the buffer that still holds
  the path of the span to be reported. That span is then reported under the new
  file's path (`AccessBatch.MisnamedIffTakenOver`, `AccessBatch.ReportedUnderNextPath`).

## Model

| member | source | states |
|---|---|---|
| Atomics.StepMeaning | jni/include/cutils/atomic-arm64.h:84-154 | every step of every thread either applies its operation's sequential contract to the word exactly once, settling the reply to the value found, or leaves the word alone |
| Atomics.StepKeepsCoherent | jni/include/cutils/atomic-mips.h:111-126 | a monitor that is still open guarantees that the word is the one loaded, whatever the other threads do |
| Atomics.RunKeepsCoherent | jni/include/cutils/atomic-arm.h:106-121 | the same in every state that any schedule reaches |
| Atomics.StatusConventions | jni/include/cutils/atomic-mips.h:111-126 | a store-conditional reports success by one on mips and by zero on arm, and each loop repeats exactly after a failure |
| Linearizability.RunTracks | jni/include/cutils/atomic-arm64.h:108-154 | in every reachable state each thread's open call is known, it is in the effect order exactly if it has taken effect, and the reply it will give is the one due at that place |
| Linearizability.EveryRunLinearizes | jni/include/cutils/atomic-arm64.h:84-154 | every run of concurrent calls is linearizable: the word is the fold of the calls in effect order, each reply is what the call returns at its place in that order, and the order respects real time |
| Linearizability.EveryHistoryIsLinearizable | jni/include/cutils/atomic-x86_64.h:79-149 | the same without naming the order: every history of calls and returns is linearizable |
| Linearizability.QuietRunAnswersAll | jni/include/cutils/atomic-arm64.h:108-154 | once all threads are idle, every call made has been answered and is in the order |
| Progress.StepLowersRank | jni/include/cutils/atomic-arm64.h:111-118 | every step except a new call and a spurious store failure lowers a rank built from operations left and stale, unread and fresh snapshots |
| Progress.ScheduleIsBounded | jni/include/cutils/atomic-arm64.h:108-154 | a schedule with n threads, c calls and f spurious failures has at most (5 + 3n)c + 3f steps |
| Progress.NeverStuck | jni/include/cutils/atomic-x86_64.h:129-149 | a thread inside a call always has a step of its own to take |
| Progress.StalledRunIsComplete | jni/include/cutils/atomic-arm64.h:108-154 | a run that can go on only by new calls has answered every call |
| Progress.StaleOnlyByInterference | jni/include/cutils/atomic-arm64.h:113-116 | a snapshot goes stale only through another thread's value-changing success (any successful store for LL/SC), and an attempt fails only on a stale snapshot |
| Progress.FailuresArePaidFor | jni/include/cutils/atomic-arm64.h:135-154 | over every run, one thread's failed attempts never exceed the interfering successes of the other threads |
| Races.OperationDoes | jni/include/cutils/atomic.h:73-84 | what each operation does, without naming its code: an addition is one of numbers modulo 2^32, an and leaves exactly the bits set in word and mask, an or those set in either, a CAS replaces exactly the expected value |
| Races.EveryCallDoes | jni/include/cutils/atomic.h:73-84 | in every run the word passes from call to call in effect order, each does that to the word its predecessor left, and all but the CAS are answered with that word |
| Races.BitClearedForGood | jni/include/cutils/atomic-arm64.h:132-143 | once an and whose mask lacks a bit has taken effect and no later call sets it, the bit is clear in the word, in every run |
| Races.CasContract | jni/include/cutils/atomic.h:123-138 | among any concurrent calls, on every architecture, a CAS answers zero exactly when it stored the new value over the expected one, and otherwise leaves the word unchanged |
| Races.AtMostOneWinner | jni/include/cutils/atomic-x86_64.h:140-149 | at most one of the or calls that set an initially clear mask gets a previous value with the mask clear |
| Races.ExactlyOneWinner | jni/include/cutils/atomic-arm64.h:144-154 | once all threads are idle, exactly one of them did |
| Races.SameMasksSameWord | jni/include/cutils/atomic-arm64.h:144-154 | or operations with the same masks give the same word in any order and with any repetition |
| Races.AnyOrderGivesTheWord | jni/include/cutils/atomic-arm64.h:144-154 | after any run of or calls the word is the start value or-ed with all masks, listed in any order |
| Counting.OneOnlyAtOne | jni/include/cutils/aref.h:56-57 | a wrapping count of 1 to 2^32 references reads one exactly when it is one |
| Counting.WrapsToOne | jni/include/cutils/aref.h:36-36 | the count of 2^32 + 1 references reads one as well |
| Counting.AddsNumbers | jni/include/cutils/atomic.h:77-82 | adding the word of n to the word of m gives the word of m + n |
| Counting.Wraps | jni/include/cutils/atomic.h:77-82 | numbers that differ by 2^32 have the same word |
| Counting.NumberOf | jni/include/cutils/atomic.h:77-82 | every word is that of a number below 2^32 |
| Aref.FreshIsSound | jni/include/cutils/aref.h:39-42 | initialization establishes the invariant with one reference |
| Aref.GetKeeps | jni/include/cutils/aref.h:49-52 | the effect of a get adds one reference and keeps count, holders and release state consistent |
| Aref.PutKeeps | jni/include/cutils/aref.h:54-58 | the effect of a put removes one reference, and makes its thread the only one to owe a release exactly if it was the last |
| Aref.ReleaseKeeps | jni/include/cutils/aref.h:56-57 | when release is called no reference exists and it has not run before |
| Aref.HandKeeps | jni/include/cutils/aref.h:39-58 | handing a reference on takes it from one thread, gives it to the other, and keeps their number and the invariant |
| Aref.RunIsSound | jni/include/cutils/aref.h:39-58 | the invariant holds in every state of every interleaving |
| Aref.ReleaseRunsOnce | jni/include/cutils/aref.h:39-58 | in every interleaving the count is the number of references held, release runs at most once and only on an abandoned object, and exactly once if all references are put |
| ArefLimit.OneTooMany | jni/include/cutils/aref.h:54-58 | on every architecture a run with 2^32 + 1 references releases while 2^32 are held |
| ArefLimit.SafeExactlyUpToModulus | jni/include/cutils/aref.h:34-58 | release never runs early in any run within a limit if and only if the limit is at most 2^32 |
| Loops.CompareAndSwap | jni/include/cutils/atomic-arm64.h:84-89 | one CAS step: status and stored word of the sequential contract |
| Loops.CasLoop | jni/include/cutils/atomic-arm64.h:108-154 | with others acting before and after every read: the retry loop applies its operation once, at the first attempt whose word was back at the value read, on that word, and returns it |
| Loops.LlScLoop | jni/include/cutils/atomic-arm.h:69-165 | with others acting before and after every load, for every operation and pattern of spurious failures, and under both status conventions: the loop does the operation exactly once, at its first undisturbed attempt, on the word found there, and returns the contract's reply |
| Loops.AtomicAdd | jni/include/cutils/atomic-x86_64.h:107-115 | on each architecture one addition happens, to the word of one moment of the interference, which is returned |
| Loops.ArefGet | jni/include/cutils/aref.h:49-52 | get adds one to the count of one moment of the interference |
| Loops.ArefPut | jni/include/cutils/aref.h:54-58 | on each architecture put takes one from the count of one moment, and releases exactly when that was one, leaving zero |
| Rings.LinkInKeeps | jni/include/cutils/list.h:58-72 | four link writes put a new node at any place of one ring and keep all rings well formed and disjoint |
| Rings.LinkOutKeeps | jni/include/cutils/list.h:74-78 | two link writes take a node out of its ring and keep all rings well formed and disjoint |
| Rings.BeheadKeeps | jni/include/cutils/list.h:74-78 | taking out the head of a ring leaves its items a ring of their own and all others as they were |
| Rings.StartKeeps | jni/include/cutils/list.h:52-56 | a node linked to itself is a new empty ring beside the others |
| Rings.OneListEach | jni/include/cutils/list.h:26-30 | a node is a member of exactly the list that owns it |
| Rings.LinksAreInverse | jni/include/cutils/list.h:26-30 | next and prev undo each other and stay within the list |
| Rings.WalkStaysIff | jni/include/cutils/list.h:41-50 | following next from a node stays on a list and arrives at its head if and only if the node is on that list |
| Lists.Node.constructor | jni/include/cutils/list.h:35-39 | a declared list links to itself |
| Lists.Heap.Init | jni/include/cutils/list.h:52-56 | adds an empty list, all others unchanged |
| Lists.Heap.AddTail | jni/include/cutils/list.h:58-64 | appends the item to the list, all others unchanged |
| Lists.Heap.AddHead | jni/include/cutils/list.h:66-72 | prepends the item to the list, all others unchanged |
| Lists.Heap.Remove | jni/include/cutils/list.h:74-78 | removes any node from the list that owns it, although no list is named: an item leaves its list, a head leaves its items a list of their own, a lone node stays as it is; all other lists and the node's own links unchanged |
| Lists.Heap.Empty | jni/include/cutils/list.h:80-80 | true exactly for a list without items |
| Lists.Heap.First | jni/include/cutils/list.h:81-81 | the first item, or the head of an empty list |
| Lists.Heap.Last | jni/include/cutils/list.h:82-82 | the last item, or the head of an empty list |
| Lists.Heap.ForEach | jni/include/cutils/list.h:41-42 | ends, having visited exactly the items in order |
| Lists.Heap.ForEachReverse | jni/include/cutils/list.h:44-45 | ends, having visited exactly the items in reverse order |
| Lists.Heap.RunAll | jni/include/cutils/list.h:52-78 | any sequence of operations leaves all rings well formed, holding exactly the sequences that the plain edits build |
| Lists.Heap.Run | jni/include/cutils/list.h:52-78 | one operation does to the rings what the plain edit does, and to the links what list.h writes: a pushed node stands between the head and its old neighbour, on the side it was pushed at; the neighbours of a removed node are linked to each other |
| Lists.PushesBuild | jni/include/cutils/list.h:58-72 | pushes in any mixture put the nodes pushed at the head before the old items in reverse order, and those pushed at the tail behind them in order |
| Lists.Heap.Move | jni/include/cutils/list.h:58-78 | moving a node changes only its old and its new list and conserves the nodes |
| Lists.Heap.ForEachSafe | jni/include/cutils/list.h:47-50 | with a body that keeps, removes or moves each visited node: ends, visits every original item once in order, leaves the kept items in order, and appends to every other list exactly what was moved there |
| Lists.SiftOne | jni/include/cutils/list.h:47-50 | one more body run sifts exactly one more item |
| FreeLoops.EditKeepsTidy | jni/include/cutils/list.h:52-78 | every operation, taking out a head included, keeps each node on at most one list, once |
| FreeLoops.TakeUndoesPush | jni/include/cutils/list.h:58-78 | taking out a node just pushed, at either end, restores all lists |
| FreeLoops.HeadPushNeighbours | jni/include/cutils/list.h:66-72 | behind the head comes the node pushed there, and behind that what was first before |
| FreeLoops.TailPushNeighbours | jni/include/cutils/list.h:58-64 | behind what was last comes the node pushed at the tail, and behind that the head |
| FreeLoops.ForEachFreely | jni/include/cutils/list.h:47-50 | with one list of arbitrary edits per visit: the loop visits exactly the nodes of the trail, on which a node taken out keeps the link it had, and ends exactly when that comes to the head |
| FreeLoops.WhatIsAhead | jni/include/cutils/list.h:47-50 | while the saved node stays on the list, what is ahead is the items there were, less the visits made, plus what the bodies added behind |
| FreeLoops.EndsIff | jni/include/cutils/list.h:47-50 | such a loop has ended after k visits if and only if k is the number of items plus the growth of the rest of the walk |
| FreeLoops.EndsInTime | jni/include/cutils/list.h:47-50 | if no body makes the rest of the walk longer, there are at most as many visits as items |
| FreeLoops.QuietEndsIff | jni/include/cutils/list.h:47-50 | once the bodies edit nothing any more, the loop ends if and only if the node it is at is on its own list |
| FreeLoops.RotationNeverEnds | jni/include/cutils/list.h:47-50 | a body that moves each visited node to the end of a list of two or more items keeps the loop going for any number of rounds |
| Bits.SetBit | jni/include/cutils/bitops.h:88-91 | or-ing a mask changes that bit and no other, bit 31 included |
| Bits.ClearBit | jni/include/cutils/bitops.h:93-96 | and-ing with the complement of a mask changes that bit and no other |
| Bits.LowestBit | jni/include/cutils/bitops.h:50-52 | bit 0 tells odd from even |
| Bits.HalfBit | jni/include/cutils/bitops.h:50-52 | bit k + 1 of a word is bit k of half the word |
| Bitmask.WordsForIsLeast | jni/include/cutils/bitops.h:48-49 | the least number of 32-bit words with room for the bits |
| Bitmask.Ffs | jni/include/cutils/bitops.h:65-68 | one-based index of the lowest set bit, zero exactly if there is none |
| Bitmask.Init | jni/include/cutils/bitops.h:54-57 | clears the words needed for the bits, padding included, and no other word |
| Bitmask.Set | jni/include/cutils/bitops.h:88-91 | adds one number to the set and changes no other bit of the array |
| Bitmask.Clear | jni/include/cutils/bitops.h:93-96 | removes one number from the set and changes no other bit of the array |
| Bitmask.TestInWord | jni/include/cutils/bitops.h:98-101 | bit k of word i is number 32i + k of the set |
| Bitmask.Ffz | jni/include/cutils/bitops.h:59-76 | the least clear number below num_bits, -1 exactly if there is none, whatever the padding holds, without leaving int range |
| Bitmask.Weight | jni/include/cutils/bitops.h:78-86 | the number of set bits in whole words, as an int |
| Bitmask.CountIsSize | jni/include/cutils/bitops.h:78-86 | the number of set bits is the size of the set |
| Bitmask.WeightCountsLive | jni/include/cutils/bitops.h:78-86 | the weight is the size of the set below num_bits if and only if no padding bit is set |
| Bitmask.MarkedIff | jni/include/cutils/bitops.h:88-96 | after any edits a number is in the set if and only if its last edit set it |
| Bitmask.EditAndWeigh | jni/include/cutils/bitops.h:54-101 | from initialization, any sequence of setting and clearing bits below num_bits keeps the words equal to the plain set, padding clear, and the weight its size |
| Allocator.LowestFree | jni/include/cutils/bitops.h:39-39 | the lowest free id, -1 exactly if all are live |
| Allocator.LiveIff | jni/include/cutils/bitops.h:35-44 | an id is live if and only if it was handed out and has not been given back since |
| Allocator.FreeMakesRoom | jni/include/cutils/bitops.h:38-44 | an allocation right after a free succeeds, with the freed id or a lower one |
| Allocator.NeverHandedOutTwice | jni/include/cutils/bitops.h:33-44 | between two allocations of the same id it was freed |
| Allocator.FailsOnlyWhenFull | jni/include/cutils/bitops.h:33-44 | allocation fails if and only if all num_bits ids are live |
| Allocator.ServeOne | jni/include/cutils/bitops.h:39-44 | one allocation or free does to the words what it should do to the set |
| Allocator.Serve | jni/include/cutils/bitops.h:33-44 | every run from initialization gives the answers of the set allocator, keeps the bits equal to its live set, and keeps the padding clear |
| Allocator.LiveCount | jni/include/cutils/bitops.h:33-86 | after every run of allocations and frees the weight is the number of live ids |
| Fanotify.CastsAreHarmless | jni/include/fanotify/fanotify.h:114-116 | with 32-bit and 64-bit long the test accepts exactly a whole event at the cursor |
| Fanotify.EventLenField | jni/include/fanotify/fanotify.h:84-85 | the length is the first four bytes of the header, lowest byte first |
| Fanotify.ShortestEvent | jni/include/fanotify/fanotify.h:84-108 | forty bytes are enough for an event and fewer are not |
| Fanotify.EventsTile | jni/include/fanotify/fanotify.h:108-116 | the records found are whole, tile a prefix without gap or overlap, stop only where no whole event follows, and number at most one per 40 bytes |
| Fanotify.EventsOfJoined | jni/include/fanotify/fanotify.h:108-116 | walking a concatenation of whole events gives back exactly those events |
| Fanotify.ConsumedIffJoined | jni/include/fanotify/fanotify.h:108-116 | a buffer is used up if and only if it is a concatenation of whole events |
| Fanotify.Walk | jni/include/fanotify/fanotify.h:110-116 | the loop over the two macros ends, reads headers only inside the buffer, finds exactly those records, and leaves the rest as remaining length |
| Parcels.SizeFieldExact | jni/include/binder/Parcel.h:342-344 | a size survives its int32 field if and only if it is below 2^31 or within 2^31 of 2^64 |
| Parcels.Parcel.Write | jni/include/binder/Parcel.h:340-356 | at any cursor: if the encoding fits it is written there, over or beyond what is there, with the status of flatten; otherwise memory has run out and no more than the size field is written |
| Parcels.Parcel.Read | jni/include/binder/Parcel.h:364-383 | on any bytes: a missing size field and a missing block are two different errors and leave the value alone, size zero is success and leaves it alone, otherwise status and value are those of unflatten on exactly the bytes of the block |
| Parcels.ReadSucceedsIff | jni/include/binder/Parcel.h:364-383 | a read reports NoError if and only if the size field is there and the size is zero, or the block is there too and unflatten reports NoError |
| Parcels.EncodingLayout | jni/include/binder/Parcel.h:340-358 | a variable-size value is preceded by its size, lowest byte first, a fixed-size one by nothing; then come the flattened bytes and zeros up to a multiple of four |
| Parcels.ReadsBack | jni/include/binder/Parcel.h:364-383 | reading an encoding at any place restores a value of non-zero size, leaves the destination alone for size zero, and consumes exactly the encoding |
| Parcels.LawfulFits | jni/include/binder/Parcel.h:340-383 | a class that keeps the protocol for all its values meets what the round trip asks of each |
| Parcels.WriteAll | jni/include/binder/Parcel.h:340-356 | a list of values is written completely if and only if its encodings fit |
| Parcels.ReadAll | jni/include/binder/Parcel.h:364-383 | a list of encodings anywhere in a parcel is read back value by value |
| Parcels.RoundTrip | jni/include/binder/Parcel.h:340-383 | any list of values, of one class or several, with sizes below 2^31, written and read in order at any place of a parcel, is restored, leaves destinations alone for size zero, and consumes exactly the bytes written |
| Narrowing.IndexExact | jni/include/helper/helper.h:7-8 | the 32-bit source index is right throughout if and only if len is at most 2^31 |
| Narrowing.String16ToString8 | jni/include/helper/helper.h:4-10 | the even bytes as they were on entry arrive in order, also when both buffers are the same; beyond 2^31 the index wraps; nothing else is written |
| Narrowing.NarrowWidened | jni/include/helper/helper.h:4-10 | narrowing undoes little-endian UTF-16 widening, in place or not |
| Narrowing.WidenUndoesNarrowing | jni/include/helper/helper.h:4-10 | widening restores the source if and only if every odd byte was zero |
| WireTime.NsecDoesNotWrap | jni/include/anodyne/log_read.h:138-141 | the nanosecond count never wraps in 64 bits |
| WireTime.OrdersAgree | jni/include/anodyne/log_read.h:104-141 | on normalized times the two-field comparisons agree with the counts, which tell times apart |
| WireTime.BoundIsExact | jni/include/anodyne/log_read.h:36-37 | the orders agree on all times up to a nanosecond bound if and only if the bound is at most 999999999 |
| WireTime.SortedAlike | jni/include/anodyne/log_read.h:113-130 | a sequence is sorted by the fields if and only if it is sorted by the count |
| WireTime.WireRoundTrip | jni/include/anodyne/log_read.h:60-65 | the byte constructor and the little-endian encoding are inverse to each other |
| WireTime.WireLayout | jni/include/anodyne/log_read.h:60-65 | bytes 0 to 3 are the seconds and bytes 4 to 7 the nanoseconds, lowest byte first |
| BatchBuffer.Unpacked | jni/tracer/include/bblog.h:10-19 | the packed fields come apart again while each stays within its width |
| BatchBuffer.PackedBits | jni/tracer/include/bblog.h:10-19 | process, index, address and count stand in this order from bit 48, 32, 12 and 0 on |
| BatchBuffer.RecordSizes | jni/tracer/src/bblog.c:294-319 | records have exactly the sizes from 1 to 8190 |
| BatchBuffer.AimIff | jni/tracer/src/bblog.c:294-319 | a thread can set out to write a record of exactly the sizes passed on |
| BatchBuffer.ProperIff | jni/tracer/src/bblog.c:74-98 | prefixes of up to 511 bytes and process ids of up to 32767 are let through |
| BatchBuffer.StepCounts | jni/tracer/src/bblog.c:226-263 | every step keeps the index, carries into the process id included, equal to prefix plus accepted plus outstanding refused bytes, the count equal to the threads inside, and accepted records inside the buffer |
| BatchBuffer.RunCounts | jni/tracer/src/bblog.c:226-288 | the same in every state of every run of at most 4095 threads |
| BatchBuffer.WordRead | jni/tracer/include/bblog.h:10-19 | what a thread reads as index and process id: the total modulo 65536, and the carry |
| BatchBuffer.AcceptedInRange | jni/tracer/src/bblog.c:252-263 | a record is accepted only where the total lies in the range of this process, and it ends inside the buffer |
| BatchBuffer.OwnBuffer | jni/tracer/src/bblog.c:252-263 | in a buffer of this process nobody is accepted after an overflow, and clean means that nothing refused is outstanding |
| BatchBuffer.AcceptedIff | jni/tracer/src/bblog.c:257-258 | in a buffer of this process a record is accepted if and only if it ends at 4043 at most |
| BatchBuffer.RecordsInside | jni/tracer/src/bblog.c:257-259 | in every run accepted records lie inside the 4068 bytes of the buffer |
| BatchBuffer.EndingInside | jni/tracer/src/bblog.c:172-178 | the ending that the flush writes behind the last record lies inside the buffer and behind the prefix |
| BatchBuffer.ForeignUntouched | jni/tracer/src/bblog.c:159-258 | with at most seven threads a buffer of another process takes no record and is never flushed |
| BatchBuffer.TiledIffClean | jni/tracer/src/bblog.c:235-263 | in every run of at most 4095 threads accepted records lie end to end if and only if none was accepted while outstanding refused additions showed in the index field |
| BatchBuffer.TiledIsDisjoint | jni/tracer/src/bblog.c:257-261 | records that lie end to end share no byte |
| BatchBuffer.RunLowCounts | jni/tracer/src/bblog.c:226-263 | in every run, overflowing or not, the low half of the word is the buffer's address plus the number of threads inside, modulo 2^32 |
| BatchBuffer.FlushFindsNoWriter | jni/tracer/src/bblog.c:159-173 | in every run of fewer than 2^32 threads the flush proceeds only with no thread between its addition and its undoing; in a buffer of this process the index it read is then the prefix plus the accepted bytes, and in a clean run the records lie end to end up to it |
| BatchLimit.TwoWritersAreClean | jni/tracer/src/bblog.c:226-288 | with at most two threads nothing is accepted while a refused addition is outstanding |
| BatchLimit.ThreeWritersOverlap | jni/tracer/src/bblog.c:226-288 | a run of three threads in which two accepted records overlap |
| BatchLimit.SafeForTwoWritersOnly | jni/tracer/src/bblog.c:226-288 | in all runs of n threads accepted records share no byte, if and only if n is at most two |
| BatchFlush.AimedOrAstray | jni/tracer/src/bblog.c:172-189 | after the flush nobody begins to use the buffer, and who held its address goes on to add to it or waits |
| BatchFlush.StraysIffAimed | jni/tracer/src/bblog.c:172-189 | a thread can add to the freed buffer if and only if it had read the address and not yet added when the flush succeeded |
| BatchFlush.NeverAstrayIff | jni/tracer/src/bblog.c:172-237 | n writers never touch a freed buffer if and only if n is zero |
| BatchFlush.SpinEndsIff | jni/tracer/src/bblog.c:164-173 | the flush of a buffer of this process can end if and only if the accepted bytes, with the records of some threads about to add, come to the index read |
| BatchFlush.QuietLookEndsIff | jni/tracer/src/bblog.c:164-173 | if nobody is about to add when the index is read, that is if and only if outstanding refused bytes do not show in it |
| BatchFlush.NeverStuckIff | jni/tracer/src/bblog.c:164-173 | with n writers a spinning flush can always still succeed if and only if n is zero |
| AccessBatch.SpanHoldsExactly | jni/tracer/src/batch.c:133-136 | the span of an access holds exactly the blocks its bytes lie in and the one it is rounded up to |
| AccessBatch.SpanRightIff | jni/tracer/src/batch.c:133-136 | the span is right if and only if the last byte of the access is the first of its block |
| AccessBatch.HullIsUnion | jni/tracer/src/batch.c:155-195 | spans that overlap or touch leave no hole in their hull |
| AccessBatch.SameFileReportsIff | jni/tracer/src/batch.c:156-165 | an access to the current file ends the current span if and only if a block lies between them, or the string has 4032 characters |
| AccessBatch.CloseReportsIff | jni/tracer/src/read.c:54-70 | closing reports the span if and only if it is that of the file closed or the thread ends, and changes nothing otherwise |
| AccessBatch.Batch.Notify | jni/tracer/src/batch.c:34-52 | reports the current span with its access string and the path at hand, unless it is empty, and starts the given one |
| AccessBatch.Batch.RecordIostr | jni/tracer/src/batch.c:54-75 | adds the access to the string, or starts anew exactly if fewer than 65 bytes are left |
| AccessBatch.Batch.First | jni/tracer/src/batch.c:117-198 | a valid access never fails; a far one replaces the span, a near one grows it to the hull, and with a full access string the new span is too long by the overhang of an access that extends the old one at one end |
| AccessBatch.Batch.Second | jni/tracer/src/batch.c:77-115 | a valid access replaces the span |
| AccessBatch.StepCovers | jni/tracer/src/batch.c:117-198 | one access or close loses no block, and gains exactly those the access touches and those made up by rounding or overshooting |
| AccessBatch.MadeUpIsUntouched | jni/tracer/src/batch.c:133-195 | no byte of the access lies in a block that it makes up |
| AccessBatch.Batch.Record | jni/tracer/src/read.c:103-131 | with the path filter: a block is covered afterwards if and only if it was before, a byte of a recorded access lies in it, or it is made up |
| AccessBatch.Batch.CloseFile | jni/tracer/src/read.c:49-73 | closing the file or ending the thread reports the current span and changes no coverage |
| AccessBatch.RunCovers | jni/tracer/src/batch.c:34-198 | after any accesses and closes the blocks reported or held are exactly those touched by recorded accesses and those made up |
| AccessBatch.NothingInventedIff | jni/tracer/src/batch.c:133-195 | a run makes no block up if and only if each recorded access ends on the first byte of a block and none extends the span at one end while the string is full |
| AccessBatch.TwoBytesTwoBlocks | jni/tracer/src/batch.c:136-136 | two bytes at the start of a file are recorded as two blocks |
| AccessBatch.FullStringOvershoots | jni/tracer/src/batch.c:164-177 | a run that fills the access string and then records a block that no access touched |
| AccessBatch.LogConserved | jni/tracer/src/batch.c:47-68 | the access strings of all reports, joined, list every recorded access once and in order |
| AccessBatch.UnwantedIgnored | jni/tracer/src/read.c:115-116 | accesses to files that are not resolved or not wanted are never recorded or reported |
| AccessBatch.WantedRecorded | jni/tracer/src/read.c:103-131 | valid accesses to files that are resolved and wanted are all recorded, in order |
| AccessBatch.DigitsExact | jni/tracer/src/batch.c:47-68 | the entry of an access is as long as its numbers in decimal |
| AccessBatch.TextFits | jni/tracer/src/batch.c:61-68 | for 64-bit sizes and offsets the access string never outgrows its buffer |
| AccessBatch.ReportedNameIff | jni/tracer/src/read.c:108-127 | a report carries its own file's path if and only if no other file took over and none was resolved last |
| AccessBatch.MisnamedIffTakenOver | jni/tracer/src/read.c:115-127 | if every resolved access is recorded, the reports under a wrong path are exactly those made when another file takes over |
| AccessBatch.ReportedUnderNextPath | jni/tracer/src/read.c:115-127 | two reads of two files: the first is reported under the path of the second |
| AccessBatch.Track | jni/tracer/src/read.c:49-136 | for any sequence of accesses and closes the program reports exactly as above: coverage if and only if touched or made up, every recorded access listed once and in order |

## Left out

- Weak memory and the placement of barriers: the barriers are inline assembly, and steps here are sequentially consistent.
- Plain loads and stores of the shared word, including `aref_count` and the acquire/release store functions: all writers here are the read-modify-write operations.
- atomic-mips64.h and atomic-x86.h: they repeat the algorithms of the modelled files.
- Lists.Heap.ForEachSafe: its body keeps, removes or moves the visited node; what any other body does to the loop is `FreeLoops.ForEachFreely`.
- `node_to_item` and `AREF_TO_ITEM`: pointer offset arithmetic.
- Negative `num_bits` and negative bit numbers in bitops.h: callers pass counts and ids.
- The fields of an event other than its length, and the flag constants of fanotify.h.
- Comparisons with `timespec`, `operator-=` and `strptime` of the wire time: the first repeat the modelled ones after a cast, the others have no body.
- BatchBuffer.RunCounts: more than 4095 threads at once, whose count would carry into the address field.
- BatchFlush.SpinEndsIff: whether a flush that can end does end depends on the schedule; buffers of another process are outside it.
- The rest of the batching buffer: allocation failure, what a freed buffer holds when a late thread adds to it, the flush at process exit, and reinitialization after fork.
- AccessBatch.Batch.First: the access string is the list of its entries and their length in decimal text, not the characters. Offsets are unbounded integers.
- The rest of the tracer (system-call wrappers, timers, flusher thread, notification text) and the plotting script.
- The hardware, other binder, sqlite, openssl and selinux headers: declarations without algorithms.
