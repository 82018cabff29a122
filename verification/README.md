# NVMeVirt: a verified model of its translation layers, schedulers and snapshots

NVMeVirt emulates solid-state drives in a kernel module. This project models the algorithms that
make up the emulated device and proves what holds of them in every run:

- **Conventional translation layer** (`Arithmetic`, `Sequences`, `Geometry`, `VictimQueue`, `PageTables`, `WritePointers`, `LineLists`,
  `Bookkeeping`, `Collection`, `ConvFtl`). A page-mapped layer with forward and reverse tables, counts of valid and
  invalid pages per block and line, two write pointers, free, full and victim lines, and greedy garbage collection paced
  by write credits. The main results: the two tables agree in every state; a collection visits each page of its
  victim once, moves exactly the logical pages that lived there and loses none; every line is in exactly one role and no
  assertion of the source can fail; the host reads of every page its last write, whatever is collected; the pages of the
  user line are spread evenly over the dies; and free lines never run out as long as fewer than `(lines - 4) * pgsPerLine`
  different logical pages are written. The last one rests on a potential: pages that can still be written, less the
  credits, never fall below two lines and two pages.
- **Host writes** (`Partitions`, `Namespace`). Striping over partitions and the shared write buffer: space is conserved, up to
  what unaligned commands bring in and what is lost for want of a work entry.
- **Fragmenting rewriter** (`Chunks`, `Rewriter`). Splits the mapped pages into chunks and writes them again with
  parking, preemption and random choices. Whatever the choices, each mapped page is written exactly once, no turn
  goes beyond its limit, and the loop ends.
- **I/O work queue** (`WorkQueue`). Two index-linked lists in one array; the list in flight is sorted by
  `max(target, latest)` under a moving clock, and each request completes exactly once, never before its time.
- **Channel credits and LUN timing** (`Channel`, `NandTiming`). A ring of credits stands for an unbounded table of time
  slots; commands on one LUN never overlap; a flush waits for everything issued before it.
- **Zoned namespaces** (`Zones`, `Zns`). The zone state machine of the Zoned Namespace Command Set Specification,
  Revision 1.1a, with exact resource counts, accepted writes that tile each zone, and zone write buffers.
- **Snapshots** (`DumpFile`, `ConvSnapshot`, `ConvImage`, `ZnsSnapshot`). Saving and loading undo each other.

Mutable structures of the source are classes whose methods update fields in place; `Ftl` keeps its tables as maps keyed by
page address (the index functions of the source are shown to be injective). Invariants are predicates over values; methods hide
their definitions and call lemmas about them. The data of a page is modelled by a stamp the write gives, which a copy takes along. Clocks are inputs that never go back, random numbers are free choices.

Where the source and its comments differ, the model follows the code:

- The end of a chunk wraps around below zero for a run of mapped pages that ends before page `parts - 1`
  (main.c:1076-1077). `CreateListSplit` states that the cover is exact if and only if there is no such run; `ShortRunExample` shows one.
- The channel model keeps clock gaps in 32 bits; `ClockRefines` says exactly when this does no harm. Credits of a full slot
  are kept in one byte; `RequestBoth` says exactly when an idle ring still agrees with `chmodel_request_copy`.
- `conv_write` allocates buffer space by sectors and releases it by pages; `WithinIffAligned` says exactly when the free
  space stays within the buffer, and `OverfullRun` is a run after which it does not.
- The comment at io.c:229-230 promises order by target time; `PlainOrderIff` says exactly when it is kept, `LateRun` breaks it.
- A zoned write to a full or read-only zone falls through to the answer for offline zones (zns_read_write.c:136-142), and a
  refused write keeps its part of the zone's buffer (zns_read_write.c:81-101). A word line is released once for every command
  that touches its last page; `ConservedIff` says exactly when the buffer is conserved.
- Finishing a zone does not move its write pointer, although zns_save_load.c:141 takes it to be at the end of a full zone.
- Snapshots of zoned devices compare chunk lengths as signed 32-bit numbers: a zone with 2 GiB of data or more is saved and loaded
  without its data (`DataBack`).

## Model

| member | source | states |
|---|---|---|
| Geometry.FromCapacity | ssd.c:83-163 | From the configured sizes and the capacity, with all roundings, the derived sizes satisfy the product laws all other results rest on |
| Geometry.CapacityHeld | ssd.c:89-111 | All rounding is upwards: the pages of a partition hold at least its share of the capacity |
| Geometry.PgIdxInjective | conv_ftl.c:40-54 | Page indexes stay below the number of pages and no two pages share one, so the reverse table can be keyed by address |
| Geometry.DieIdxInjective | conv_ftl.c:239-245 | No two dies share a slot of the table of page counters |
| Geometry.LinePageCount | ssd.c:159-160 | A line has exactly `pgsPerLine` pages |
| Geometry.FlashPageInBlock | conv_ftl.c:921-924 | Every flash page a collection visits lies inside its block |
| VictimQueue.RootIsLeast | pqueue/pqueue.c:174-182 | In a heap the root has the least count of all entries |
| VictimQueue.ShiftUpOrdered | pqueue/pqueue.c:57-73 | Moving a parent down into the hole keeps the heap order around the new hole |
| VictimQueue.ShiftDownOrdered | pqueue/pqueue.c:89-103 | Moving the lesser child up into the hole keeps the heap order around the new hole |
| VictimQueue.Reprioritised | pqueue/pqueue.c:135-146 | After one count changes, the heap is in order except around that entry, on the side the change calls for |
| VictimQueue.Queue.constructor | pqueue/pqueue.c:14-43 | A new queue is empty and every back pointer is 0 |
| VictimQueue.Queue.BubbleUp | pqueue/pqueue.c:57-73 | Restores heap order and exact back pointers, and leaves lines outside the queue alone |
| VictimQueue.Queue.PercolateDown | pqueue/pqueue.c:89-103 | Restores heap order and exact back pointers, and leaves lines outside the queue alone |
| VictimQueue.Queue.Insert | pqueue/pqueue.c:105-130 | Adds exactly one line; heap order and back pointers hold; nonzero back pointer if and only if queued |
| VictimQueue.Queue.ChangePriority | pqueue/pqueue.c:135-146 | Changes one count in place; members, heap order and back pointers are kept |
| VictimQueue.Queue.Pop | pqueue/pqueue.c:160-172 | Removes exactly the root, if there is one; heap order and back pointers are kept |
| VictimQueue.Queue.Peek | pqueue/pqueue.c:174-182 | Returns a member with the fewest valid pages of all members, if and only if there is one |
| PageTables.UnmapAgrees | conv_ftl.c:1165-1170 | Overwriting keeps the forward and reverse tables in agreement |
| PageTables.PlaceAgrees | conv_ftl.c:1172-1180 | Placing a logical page on a free page keeps the tables in agreement |
| PageTables.LiftAgrees | conv_ftl.c:746-763 | A moved page may keep its stale reverse entry: the tables agree apart from the moved pages |
| PageTables.AllErasedAgrees | conv_ftl.c:706-725 | Erasing the moved pages brings back full agreement, although erase clears no reverse entry |
| PageTables.LineCountStep | conv_ftl.c:636-704 | When one page changes state, counters moved by one stay the true counts of every line |
| PageTables.BlkCountStep | conv_ftl.c:636-704 | When one page changes state, counters moved by one stay the true counts of every block |
| PageTables.FullLinesMapped | conv_ftl.c:636-704 | The full lines hold one mapped logical page per page, so there are at least as many mapped pages as they have pages |
| WritePointers.GcNextPasses | conv_ftl.c:310-363 | A step of the collector's pointer passes exactly one page, and a line is used up only when all pages are passed |
| WritePointers.ScanDies | conv_ftl.c:247-267 | The scan ends; it finds the first die with free pages in scan order, if and only if there is one |
| WritePointers.StripeStep | conv_ftl.c:229-309 | Every step of the user pointer for a host write keeps the line striped: the dies passed in this round have one one-shot page more than the others |
| WritePointers.StripedEven | conv_ftl.c:247-267 | Of any two dies of the user line neither is more than one complete one-shot page ahead |
| LineLists.NoVictimMeansFull | conv_ftl.c:963-970 | With few free lines and no victim at least `lines - 4` lines are full of mapped pages |
| LineLists.ReplacedCensus | conv_ftl.c:278-294 | Replacing an open line keeps every line in exactly one role |
| Bookkeeping.InvalidateGuards | conv_ftl.c:636-681 | The assertions of invalidation cannot fail |
| Bookkeeping.InvalidateKeeps | conv_ftl.c:636-681 | Invalidation keeps the census and the counts, also when a full line becomes a victim |
| Bookkeeping.ValidateGuards | conv_ftl.c:683-704 | The assertions of validation cannot fail |
| Bookkeeping.ValidateKeeps | conv_ftl.c:683-704 | Writing a free page keeps the census and the counts |
| Bookkeeping.SelectKeeps | conv_ftl.c:793-814 | Taking a victim off the queue keeps the census, with that line as the only one without a role |
| Bookkeeping.BlkFreedKeeps | conv_ftl.c:706-725 | Freeing a block of the victim keeps all counts but those of the victim line |
| Bookkeeping.LineFreedKeeps | conv_ftl.c:890-899 | Freeing the victim line restores the full census and counts |
| Bookkeeping.FreshOk | conv_ftl.c:113-149 | The initial line lists and counters satisfy the invariant |
| Collection.MoveRelocates | conv_ftl.c:746-791 | Moving a page relocates exactly the logical page that lived there, to a page that was free |
| Collection.ProgressDie | conv_ftl.c:921-955 | Each flash page visited adds its pages, which were not visited before, and the last one completes its block |
| Collection.RoomMeansLine | conv_ftl.c:746-791 | With the pages still to be moved less than the space left, a free line is at hand when the collector needs one |
| ConvFtl.Ftl.constructor | conv_ftl.c:474-501 | A new partition has nothing mapped, all pages free, its two pointers on lines 0 and 1, and satisfies the invariant |
| ConvFtl.Ftl.GetNextFreeLine | conv_ftl.c:182-196 | Finds the first free line if and only if there is one, and takes it off the list |
| ConvFtl.Ftl.MarkLineInvalid | conv_ftl.c:657-681 | Line counters, queue position and list follow one page turning invalid |
| ConvFtl.Ftl.MarkPageInvalid | conv_ftl.c:636-681 | Exactly one valid page turns invalid; all counters stay true and the space for writing is unchanged |
| ConvFtl.Ftl.MarkPageValid | conv_ftl.c:683-704 | Exactly one free page of an open line turns valid; all counters stay true and one page of space is used |
| ConvFtl.Ftl.RetireLine | conv_ftl.c:278-289 | A used-up line goes to the full list if all its pages are valid, else to the victim queue |
| ConvFtl.Ftl.ReplaceUserLine | conv_ftl.c:278-299 | The new user line is wholly free, no space is lost, and the census holds |
| ConvFtl.Ftl.ReplaceGcLine | conv_ftl.c:334-356 | The new collection line is wholly free, no space is lost, and the census holds |
| ConvFtl.Ftl.NextDie | conv_ftl.c:247-306 | The user pointer moves on to the first die with free pages after its own, going round; when the line is used up, and only then, to the first die of the first free line |
| ConvFtl.Ftl.AdvanceUser | conv_ftl.c:229-309 | The user pointer stays on its die in the middle of a one-shot page and else goes on as NextDie says; it again stands on a free page, and only its own die has an unfinished one-shot page |
| ConvFtl.Ftl.AdvanceCleaner | conv_ftl.c:1258-1381 | For every random draw: at the end of a one-shot page it stays on the die exactly when a run or the draw wants it to, the chunk is not to be parked, and the block has free pages, else it goes on as for the host; a chunk is to be parked exactly when staying was wanted at that point and 16 one-shot pages were written |
| ConvFtl.Ftl.AdvanceGc | conv_ftl.c:310-363 | The collector's pointer takes one step, into the first free line only when its line is used up, and again stands on a free page, with exactly the pages before it used |
| ConvFtl.Ftl.SelectVictimLine | conv_ftl.c:793-814 | The victim has the fewest valid pages of all queued lines; unforced, none is taken exactly when all are above an eighth |
| ConvFtl.CopyShows | conv_ftl.c:746-763 | Copying a page by collection changes nothing the host reads |
| ConvFtl.Ftl.CopyPage | conv_ftl.c:746-763 | The logical page of a victim page is mapped to the page under the collector's pointer, which was free; space less what is still to be moved is unchanged |
| ConvFtl.Ftl.GcWritePage | conv_ftl.c:746-791 | One page of the victim is moved: tables agree apart from the moved pages and no logical page is lost |
| ConvFtl.Ftl.CountValid | conv_ftl.c:850-858 | No page of a line under collection is free; the count is zero exactly when none is valid |
| ConvFtl.Ftl.CleanOneFlashpg | conv_ftl.c:841-888 | All pages of the flash page, none of them visited before, become visited, and their logical pages are moved |
| ConvFtl.Ftl.MarkBlockFree | conv_ftl.c:706-725 | Frees exactly the pages of a block whose pages were all visited |
| ConvFtl.Ftl.CleanDie | conv_ftl.c:926-953 | One step of the visit: the progress over flash pages, channels and dies is exact |
| ConvFtl.Ftl.CleanLine | conv_ftl.c:921-955 | Every page of the victim has been visited exactly once and the whole line is free |
| ConvFtl.Ftl.MarkLineFree | conv_ftl.c:890-899 | The line goes to the end of the free list and the invariant between collections holds again |
| ConvFtl.Ftl.DoGc | conv_ftl.c:901-961 | Collects the queued line with the fewest valid pages: moves exactly its logical pages to pages that were free, leaves all other pages alone and everything the host reads unchanged, frees the line, and sets the refill to the invalid pages of the line, which is the space gained |
| ConvFtl.VictimExists | conv_ftl.c:963-970 | When collection is due and fewer than `(lines - 4) * pgsPerLine` pages are mapped there is a victim |
| ConvFtl.PacedHasLine | conv_ftl.c:182-196 | With the space the pacing guarantees, the free list is not empty |
| ConvFtl.Ftl.ForegroundGc | conv_ftl.c:963-970 | Collects a line exactly when at most two are free, and then as DoGc does, else changes nothing; restores the pacing potential for the credits about to be refilled |
| ConvFtl.Ftl.CheckAndRefillWriteCredit | conv_ftl.c:103-111 | With credits left nothing changes; with none left the credits become the size of the refill, after a collection if few lines are free; the potential is again at least two lines and two pages |
| ConvFtl.Ftl.PayCredit | conv_ftl.c:91-111 | Exactly one credit is paid; new ones are given, and a line is collected, only when it was the last |
| ConvFtl.Ftl.StorePage | conv_ftl.c:1160-1186 | The logical page is mapped to the page under the user pointer, which was free, its old page turns invalid, no other page changes, and the pointer goes on as AdvanceUser says |
| ConvFtl.Ftl.WritePage | conv_ftl.c:1156-1198 | The page is stored in the free page under the pointer and the old one dropped; the host reads the new data there and the old data everywhere else; one credit is paid, and a collection may follow only when it was the last; the pointer takes its step |
| ConvFtl.WriteMoves | conv_ftl.c:1156-1198 | Of one write: the page written goes to a page that was free, and its old page is not valid any more; any other page stays, unless its line was collected by this write, and then it goes to a page that was free |
| ConvFtl.Ftl.RewritePage | conv_ftl.c:1476-1503 | The same for the rewriter, whose pointer takes the step of AdvanceCleaner |
| ConvFtl.Ftl.WriteOne | conv_ftl.c:1156-1198 | Of one write, as it enters a run: only the page written is read differently, only a collected line's pages move, one credit is paid, and the line stays striped |
| ConvFtl.LastWriteDecides | conv_ftl.c:1156-1198 | After any writes the host reads of each page its last write, and of pages not written what it read before |
| ConvFtl.BetweenRefills | conv_ftl.c:91-111 | In a run of writes as many pages are written from one refill to the next as the first one gave, with no collection in between |
| ConvFtl.Ftl.WritePages | conv_ftl.c:1156-1198 | Any run of writes within the limit of distinct pages keeps all invariants; the host reads of each page its last write; a page not written moves only when its line is collected; credits are paid and refilled one by one; the user line stays striped |
| ConvFtl.FreshRun | conv_ftl.c:96-111 | Free lines never run out: from a new device any sequence of writes to fewer than `(lines - 4) * pgsPerLine` distinct pages goes through, starting with `pgsPerLine` credits; afterwards the host reads exactly the last writes |
| Namespace.ExcessIffUnaligned | conv_ftl.c:1146-1148 | Allocated and released space of a command agree if and only if it starts and ends at a page boundary |
| Namespace.TotalExcessIff | conv_ftl.c:1146-1198 | Over any commands the two agree in total if and only if every command is aligned |
| Namespace.ExcessExample | conv_ftl.c:1146-1148 | Eight sectors across a page boundary release one page more than was allocated |
| Namespace.PaintedAt | conv_ftl.c:1156-1198 | A command changes what is read of the pages in its range and of no other |
| Namespace.ShownAfter | conv_ftl.c:1158-1160 | When partition `lpn % parts` shows a write at `lpn / parts`, the namespace shows it at `lpn` and all else as before |
| Namespace.Device.WithinIffAligned | ssd.c:22-46 | With no unfinished word line and nothing scheduled or lost, the free space is the buffer and the excess of all accepted commands, hence within the buffer if and only if all of them were aligned; it never exceeds the buffer while they are |
| Namespace.Device.constructor | ssd.c:15-20 | A new device has the whole buffer free and nothing mapped |
| Namespace.Device.StoreInPart | conv_ftl.c:1156-1186 | A page is stored in one partition: only the view of that page changes, and the other partitions are untouched |
| Namespace.Device.StoreLpn | conv_ftl.c:1156-1186 | A global page goes to partition `lpn % parts`, at `lpn / parts`: the host reads the new data of it and the old data of all others; all user lines stay striped |
| Namespace.Device.WriteLpn | conv_ftl.c:1156-1198 | Buffer space is conserved by each page; the last page of a word line, and no other, schedules one release of the whole word line |
| Namespace.Device.ScheduleRelease | io.c:334-366 | A release is scheduled, or lost when no work entry is left |
| Namespace.Device.Release | io.c:643-651 | Carrying out a release, in any order, keeps the conservation law |
| Namespace.Device.Write | conv_ftl.c:1106-1210 | All or nothing: refused exactly when out of range or short of buffer; else the host reads the new data of exactly the touched pages and all else as before, and space is conserved; nothing is lost while work entries are left |
| Namespace.Device.Drain | io.c:643-651 | After all scheduled releases were carried out none is left and space is conserved |
| Namespace.Run | conv_ftl.c:1106-1210 | In any run from a new device: the host reads of each page its last accepted write; when quiet, the free space is within the buffer if and only if every accepted command was aligned |
| Namespace.OverfullRun | conv_ftl.c:1146-1198 | A run of one unaligned command and its releases ends with one page more free than the buffer has |
| Chunks.RunChunkLpns | main.c:1065-1082 | The chunk of a partition holds exactly the pages of the run with its remainder, unless its end wraps |
| Chunks.ShortRunExample | main.c:1076-1077 | With two partitions and only page 0 mapped, the chunk of partition 1 ends at the largest 64-bit number |
| Chunks.ShortChunk | main.c:1076-1077 | A run that ends too early gives a partition a chunk that goes beyond the device |
| Chunks.FlushRun | main.c:1062-1084 | Ending a run adds exactly one chunk per partition, in the current slice |
| Chunks.SliceStep | main.c:1010-1040 | The counter of pages and the slice advance together: a page belongs to the slice its number gives, the last slice taking the rest |
| Chunks.CreateListSplit | main.c:988-1112 | The chunks hold every mapped page exactly once and nothing else, and stay inside the device, if and only if no run ends before page `parts - 1`; every chunk is the share of one run, with the length of the run as its size, in the slice of the page that ended the run |
| Chunks.SortBySize | main.c:907-921 | Sorted by size, with the same chunks, and chunks of one size keep their order |
| Chunks.PendingPermuted | main.c:1169-1171 | Reordering the lists changes no pending page |
| Partitions.NewPartitions | conv_ftl.c:474-501 | New partitions are consistent, empty, and share nothing |
| Rewriter.AheadStep | main.c:1197-1219 | Passing on the turn from an empty list brings it nearer to one with work |
| Rewriter.Cleaner.RewriteOne | conv_ftl.c:1476-1513 | Writes a page that was not written before, in its own partition, to the die under the pointer, whatever the draw; the log of writes grows by it; parking is asked for only at the end of the turn |
| Rewriter.Cleaner.Phfrag | conv_ftl.c:1442-1526 | All pages of the chunk before the stop are written, in order, and no others. It stops at the end of the turn, not later, and not sooner unless finished or preempted; finished means nothing is left; preempted is by the first chunk parked on the die under the pointer, and no page goes to a die that a parked chunk claims; a parked chunk carries the die of its last page |
| Rewriter.GoingNext | conv_ftl.c:1476-1524 | One more page either goes on with the chunk or ends it at the limit of the turn, finished exactly when no page is left |
| Rewriter.NumbersEnd | conv_ftl.c:1455-1456 | The pages written are numbered from the start of the chunk in steps of the number of partitions, up to its end |
| Rewriter.Cleaner.ServeParked | main.c:1253-1279 | A parked chunk is written from its start, never preempted, and afterwards is taken out, made active, or parked again on the die of its last page; a turn that is not over does not go beyond its limit |
| Rewriter.SettleStep | main.c:1265-1279 | Finished, made active or parked again, the chunk keeps the cover of the pages exact |
| Rewriter.Cleaner.VisitChunk | main.c:1240-1305 | The active chunk is taken out, parked, or left in place to go on where it stopped; when it is preempted, exactly the preempting chunk is served. Written, pending and parked pages stay a disjoint cover of the mapped ones, and there is progress |
| Rewriter.Cleaner.ProcessList | main.c:1236-1305 | The pages of a turn are counted and never exceed 16 one-shot pages; the walk is over only when they are used up or no active chunk is left; other lists are untouched |
| Rewriter.Cleaner.Unpark | main.c:1307-1312 | A list without active chunks gets its first parked one back, without a draw; else nothing changes |
| Rewriter.Cleaner.NextTurn | main.c:1197-1219 | The turn goes to the next slice of a partition with work, else to the next partition |
| Rewriter.Cleaner.Turn | main.c:1194-1314 | The list stays the same while its turn lasts, else the turn passes on; no turn writes more than its limit; every turn makes progress or brings the loop strictly nearer to a list with work |
| Rewriter.Cleaner.CleanFtl | main.c:1194-1314 | The loop ends for all random choices with both lists empty, and the log of writes holds every page exactly once |
| Rewriter.RewriteNamespace | main.c:1123-1314 | The whole command: every mapped page of the namespace is written exactly once, and afterwards the mapped pages are exactly those of before |
| WorkQueue.SortedLater | io.c:226-270 | The order by `max(target, latest)` survives any advance of the clock |
| WorkQueue.InsertSorted | io.c:242-252 | Putting a request behind the last one that is due or not later keeps the order |
| WorkQueue.PlainOrderIff | io.c:229-252 | Plain order by target time is kept by an insertion if and only if no overdue request is due after the new one |
| WorkQueue.LateRun | io.c:229-252 | A run that breaks plain order: due at 9, visited at 10, then one due at 3 |
| WorkQueue.ListsInsert | io.c:226-294 | After the links are rewritten the free and in-flight lists are still disjoint, complete and linked both ways |
| WorkQueue.ListsReclaim | io.c:368-417 | After a prefix is handed over the two lists are still disjoint, complete and linked both ways |
| WorkQueue.Worker.constructor | io.c:720-735 | Initially all entries are free |
| WorkQueue.Worker.FindPlace | io.c:242-252 | Finds the place the order demands, walking back from the tail |
| WorkQueue.Worker.LinkIn | io.c:254-268 | Links the entry at the head, in the middle or at the tail, repairing the tail pointer |
| WorkQueue.Worker.Enqueue | io.c:272-366 | Fails, changing nothing, exactly when one entry is free, so the free list is never empty; else the request is recorded, the order by `max(target, latest)` kept, and plain target order kept exactly under the condition above |
| WorkQueue.Worker.Visit | io.c:600-671 | Completes a request if and only if it is due and not completed; each one at most once and never before its time; only an internal one releases buffer space |
| WorkQueue.Worker.CountReclaimable | io.c:383-396 | Finds the longest prefix of completed requests |
| WorkQueue.Worker.Reclaim | io.c:368-417 | Moves exactly that prefix to the end of the free list; every entry reclaimed was completed |
| WorkQueue.Run | io.c:591-671 | In any interleaving of enqueuing, visiting and reclaiming the invariants hold and no completion is undone or repeated |
| Channel.ConsumeCharges | channel_model.c:87-107 | Exactly the request less what is left over is charged, to consecutive slots; others are untouched; something is left over only at the end of the ring |
| Channel.LeftOver | channel_model.c:94-104 | Something is left over exactly when the slots to the end of the ring hold too little |
| Channel.ClockRefines | channel_model.c:44-58 | The ring stands for the unbounded table of slots after a clock move if and only if the 32-bit gap loses nothing |
| Channel.ClockExact | channel_model.c:44-45 | It loses nothing for moves of fewer than 2^32 slots, or when no slot is in use |
| Channel.ClockWrapExample | channel_model.c:44-45 | A move of 2^32 slots brings back a used-up slot |
| Channel.ClockAccounts | channel_model.c:44-58 | Moving the clock never lets a slot be charged more than a full one |
| Channel.ConsumeAccounts | channel_model.c:87-113 | A charge never takes a slot beyond a full one |
| Channel.IdleNeverWaits | channel_model.c:141-157 | On an idle channel a transfer takes the time of its units and no more |
| Channel.UnitsCover | channel_model.c:40 | Below the limit of 32 bits the units are the fewest that hold the bytes |
| Channel.WaitedIff | channel_model.c:84-118 | The wait is one slot of time for each slot passed beyond those the credits fill at the configured rate |
| Channel.OneSlotMore | channel_model.c:116-118 | A slot more than the credits fill costs exactly the time of one slot, and one that they fill costs nothing |
| Channel.BusyExample | channel_model.c:80-118 | At 26 credits to a slot, 4096 bytes behind 16384 wait for 20000 ns |
| Channel.Ring.CreditsCover | channel_model.c:80-82 | Below the limits of 32 bits a transfer needs one credit per unit and those of the command |
| Channel.IdleConsume | channel_model.c:87-113 | On an idle ring the last slot charged is known from the credits, the byte kept of a full slot and the room |
| Channel.IdleRequest | channel_model.c:80-120 | On an idle ring a request takes the time of its units alone if and only if it passes no more slots than its credits fill at the configured rate; always so below 256 credits |
| Channel.ByteCreditsExample | channel_model.h:13-18 | With 256 credits a full slot holds 0, and one unit waits for the whole ring |
| Channel.RequestBoth | channel_model.c:31-162 | On an idle ring a request and its idle form return the same time exactly under that condition |
| Channel.Ring.constructor | channel_model.c:16-29 | All slots are full and nothing is charged |
| Channel.Ring.MoveClock | channel_model.c:43-63 | The in-place refill and move of the head is a shift of the list of slots |
| Channel.Ring.ConsumeFrom | channel_model.c:80-107 | The in-place loop over the ring is the charge of the list of slots |
| Channel.Ring.Request | channel_model.c:31-121 | One request refines moving the clock, then charging the list of slots; it ends after the time of its units and a wait for as few of the slots passed as leave no more than its credits fill; a request of the past or past the ring ends at once |
| Channel.Ring.RequestCopy | channel_model.c:124-162 | The idle form returns the time of the units alone |
| Channel.Serve | channel_model.c:31-121 | In any run no slot of all time is charged more than a full one; while the clock moves by fewer than 2^32 slots from one request to the next, the ring shows exactly what is left of each slot |
| NandTiming.TimelineGrows | ssd.c:400-483 | A command that starts when its LUN is free and holds it to the end overlaps no other |
| NandTiming.Nand.constructor | ssd.c:240-317 | All LUNs are free at time 0 and no two rings share anything |
| NandTiming.Nand.SendRead | ssd.c:433-451 | The pieces of a read go over the channel one after the other, all but the last of full size, and add up to the read; each may go on to the host when it has arrived |
| NandTiming.Nand.Work | ssd.c:400-481 | A program ends its flash time after the channel has delivered the data, a read is sent after its flash time, an erase takes its time alone; the transfers are exactly those of the command |
| NandTiming.Nand.Advance | ssd.c:374-491 | Starts at the later of the time asked for and the time the LUN is free, spends its time as Work says, holds the LUN to that end, and touches no other LUN and no other channel |
| NandTiming.Nand.NextIdle | ssd.c:493-509 | The maximum of the clock and the times at which the LUNs of a partition are free |
| NandTiming.Nand.Flush | conv_ftl.c:1212-1229 | No earlier than the end of every command issued before, on every LUN of every partition |
| NandTiming.Nand.FlushAmid | conv_ftl.c:1212-1229 | In a whole run a flush in the middle waits for all commands before it, and commands on one LUN never overlap |
| Zones.ChangeZone | zns_ftl.h:63-87 | Changing one zone and its counters accordingly keeps the counters equal to the numbers of open and active zones |
| Zones.Counted | zns_ftl.h:53-78 | Neither counter can go below zero, and neither limit is met by a zone that needs a resource |
| Zones.ManagedOk | zns_mgmt_send.c:9-177 | Every transition keeps the zone in order: empty means the write pointer is at the start, open or closed that it is below the end |
| Zones.AcceptedIff | zns_read_write.c:81-143 | A write is accepted if and only if it consists of whole units, starts at the write pointer, fits, and finds a writable zone and resources |
| Zones.RefusedIff | zns_read_write.c:81-143 | Which answer a refused write gets, each if and only if: no whole units or off the write pointer, across the start of a zone, a zone that cannot be written, no active or no open zone left |
| Zones.StateIff | zns_mgmt_send.c:9-177 | After any accepted actions and writes the state of a zone follows from the last ones: opened explicitly if and only if asked to be and only written since, implicitly by any other write, full if finished or written to its end; the write pointer is past the blocks written since the last reset |
| Zones.TiledOnce | zns_read_write.c:17-39 | Every block below the write pointer belongs to exactly one accepted command, and no other block does |
| Zones.HeldStep | zns_read_write.c:153-188 | A chunk of pages is held by the unfinished word line or released, also at the unaligned end of a zone |
| Zones.WriteHeld | zns_read_write.c:69-71 | Releases counted by pages agree with blocks written, but for a command that ends inside the last page of a word line |
| Zones.NoneEarly | zns_read_write.c:153-188 | Nothing is released too much if and only if no command ended so |
| Zns.ZnsFtl.constructor | zns_ftl.c:10-83 | All zones are empty, counters are 0 and buffers are free |
| Zns.ZnsFtl.Close | zns_mgmt_send.c:9-31 | The transition of the state machine, with all invariants kept |
| Zns.ZnsFtl.Finish | zns_mgmt_send.c:33-66 | The transition of the state machine, with all invariants kept |
| Zns.ZnsFtl.Open | zns_mgmt_send.c:68-108 | The transition, or the missing resource, with all invariants kept |
| Zns.ZnsFtl.Reset | zns_mgmt_send.c:110-158 | The transition; write pointer at the start, no commands accepted; exactly what the unfinished word line held of the buffer leaks |
| Zns.ZnsFtl.TakeOffline | zns_mgmt_send.c:160-177 | The transition of the state machine, with all invariants kept |
| Zns.ZnsFtl.Manage | zns_mgmt_send.c:232-299 | Every command makes exactly the transition the state machine gives, or none |
| Zns.ZnsFtl.ManageAll | zns_mgmt_send.c:315-317 | Every zone makes its own transition; the answer is always success |
| Zns.ZnsFtl.NeverShort | zns_ftl.c:65-83 | With the limits of the source no management command lacks a resource |
| Zns.ZnsFtl.NeverShortWrite | zns_read_write.c:111-126 | With the limits of the source no write lacks a resource |
| Zns.ZnsFtl.IncreaseWp | zns_read_write.c:17-39 | The pointer moves; a zone that is full gives back its resources |
| Zns.ZnsFtl.Program | zns_read_write.c:153-188 | Releases, scheduled or lost, and the unfinished word line together hold exactly the pages written |
| Zns.ZnsFtl.Write | zns_read_write.c:41-199 | Retried exactly when the buffer is short; a refused command changes no zone and leaks its bytes; an accepted one extends the tiling at the write pointer, and the conservation law of the zone buffer is kept |
| Zns.ZnsFtl.ConservedIff | zns_read_write.c:81-188 | Level, scheduled releases, unfinished word line and leaks make up the buffer if and only if no accepted command ended inside the last page of a word line |
| Zns.OverfullRun | zns_read_write.c:153-188 | One block to a zone with word lines of one page leaves more buffer space than the buffer has |
| Zns.ZnsFtl.Release | io.c:643-651 | Carrying out a release keeps the conservation of the zone's buffer |
| Zns.Run | zns_ftl.c:192-226 | In any run from a new device no command lacks a resource, no zone becomes read-only or offline, and all invariants hold |
| ConvSnapshot.SavePart | save_load.c:158-296 | The file gets the sections of the layout in order |
| ConvSnapshot.FindLines | save_load.c:615-639 | Searching by distinct line numbers gives back the same lines in the same order |
| ConvSnapshot.LoadData | save_load.c:679-690 | The data of exactly the pages with a reverse entry comes back, also where entries repeat |
| ConvSnapshot.LoadPart | save_load.c:482-692 | Reads back all tables, counters, lists, the heap and both pointers, independently of saved addresses |
| ConvSnapshot.SaveAndLoad | save_load.c:116-718 | The whole device comes back as it was; data without a reverse entry is zero |
| ConvImage.PpaAtIdx | conv_ftl.c:40-54 | The order of the file is the order of the page indexes |
| ConvImage.ConsistentIsSavable | save_load.c:247-283 | The counters, lists and line numbers of a consistent partition are what the reader relies on |
| ConvImage.MappedIsStored | save_load.c:284-295 | The data of every mapped page is in the file |
| ConvImage.SaveAndLoadNamespace | save_load.c:116-718 | For any consistent partitions: their whole images come back, the data of every mapped page is the same, and data without a reverse entry is zero |
| ZnsSnapshot.Save | zns_save_load.c:52-188 | The file gets the sections of the layout in order; only zones with data get a chunk |
| ZnsSnapshot.LoadChunks | zns_save_load.c:292-328 | The reader stops exactly at the end marker, having put every chunk in its zone and zeros elsewhere |
| ZnsSnapshot.Load | zns_save_load.c:203-346 | Refused exactly when the number or size of zones differ; else descriptors, counts and levels come back |
| ZnsSnapshot.DataBack | zns_save_load.c:145-177 | The data below the write pointer comes back exactly for zones that are not offline and hold less than 2 GiB (or only zeros); all else is zero |
| ZnsSnapshot.LargeZoneExample | zns_save_load.c:168-176 | A full zone of 2 GiB comes back empty |
| ZnsSnapshot.SaveAndLoad | zns_save_load.c:52-346 | The round trip for any device with zones in order; skipping empty zones is harmless |
| ZnsSnapshot.ValidFits | zns_save_load.c:52-188 | A device whose invariant holds can be saved, and its zones are in order |
| ZnsSnapshot.SaveAndLoadDevice | zns_save_load.c:52-346 | Any device a run of commands can lead to comes back from its dump |

## Left out

- pci.c, dma.c, admin.c and the wire layouts of nvme*.h: register emulation, DMA calls and interrupts.
- io.c: walking PRP lists and copying data (io.c:38-224), and interleavings of worker and dispatcher inside one step.
- main.c apart from chunk lists and the rewriting loop: sysfs, command parsing, device creation, threads.
- kv_ftl.c, bitmap.c, append_only.c, simple_ftl.c, check_phfrag.c, pqueue/pqueue_linked.c and the statistics of track_write.
- Zone random write areas: the host is taken not to open a zone with one, so zrwav is never set.
- init_ftl_shortcut (conv_ftl.c:1535-1545): it does not reset page states, so it does not establish the initial state.
- Timing of garbage collection and of reads inside the translation layer; latency constants; `NandTiming` takes any commands in any order.
- conv_read and zns_read: they change no table, only times.
- Widths of counters other than those named above are unbounded; write_credits, unsigned in the source, is shown never to go below 0.
- ConvFtl.FreshRun: for runs without a load, since a dump does not hold the write credits.
- ConvFtl.Ftl: tables and page counters are maps keyed by address instead of arrays in memory; lines are numbers instead of pointers.
- Chunks.SortBySize: list_sort of the kernel is modelled by an insertion sort with the same contract, stability included.
- Rewriter.RewriteNamespace: for mapped sets without a run that ends before page `parts - 1`; exactly with one, a chunk goes beyond the
  device (`CreateListSplit`) and the source reads past the end of its tables.
- Snapshots: file errors, short reads and files not written by the writer; allocation and freeing of memory.
- ConvSnapshot.LoadPart: the 8-byte position of a line is read as a number, not into the 4-byte variable of the source.
- Zns.ZnsFtl: addresses beyond the last zone, which the source does not check; the namespace-wide buffer used when zones have none of their own.
