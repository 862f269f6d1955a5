# liblightnvm: striping, schedulers, bad-block cache and addresses, verified

liblightnvm gives a program direct access to Open-Channel SSDs. Its central
object is the *virtual block*, which stripes one logical run of sectors over many
flash chunks. This project models the parts in which a mistake would be
hardest to see, and proves properties of them for every input, every
interleaving and every run.

* **The device** (`Device`): chunks that are FREE, OPEN, CLOSED or OFFLINE and take
  a write only at their write pointer, as in figure 16 of the Open-Channel SSD 2.0
  specification. A command may also fail for reasons of its own; those faults are
  arbitrary everywhere.
* **Striping** (`Striping`, `Layouts`): the map from logical sectors to (chunk,
  sector), its inverse, and how full each chunk is after a prefix. The 2.0 paths
  use it with WS_OPT (copy with WS_MIN), the 1.2 paths with super pages.
* **The virtual block** (`Vblk`, `Vblk12`, `VblkLaws`): the classes with their
  loops, proved against one command that carries the whole transfer, and the laws
  over whole runs of calls, including runs in which calls fail.
* **The parallel loops** (`Schedule`, `OrderedLoop`, `ParallelWrite`,
  `ParallelRuns`, `ReadBuffer`, `ParallelRead`): `schedule(static,1)` with an empty
  ordered region, or without one for 2.0 reads, as a state machine over the steps of
  all threads and of the device. The heart is a theorem on traces: an order of
  execution that keeps commands on a common chunk in program order cannot be told
  from program order.
* **The asynchronous loop** (`Async`, `AsyncOrders`, `AsyncWrite`, `AsyncRead`): the
  two coupled free-stacks, both backends, any order of execution and of completion, down to what
  an asynchronous append leaves on the device and what an asynchronous read delivers.
* **The bad-block-table cache** (`Bbt`): the write-back cache refines a plain map
  from LUNs to tables.
* **Addresses and commands** (`Bits`, `AddrCodec`, `ScalarVector`, `Report`): packed
  addresses, scalar against vector commands, log-page offsets, the sliced chunk
  report and the choice of chunks by state.

`Arith` holds arithmetic used by all of them.

Where the code departs from the obvious claim the claim is stated with its exact
condition:

* the asynchronous loop ignores the starting round, so it agrees with the
  synchronous striping, and its appends are accepted, exactly from unit 0 or within
  the first round (`Layouts.AsyncMatchesSync`, `AsyncWrite.AsyncAppendIff`); an
  asynchronous read outside that case returns other sectors with success
  (`AsyncRead.AsyncReadIff`, `AsyncRead.AsyncReadWrong`);
* vector reads always issue 64 sectors, so the read loop stays within the request
  exactly when the command size divides it (`Vblk.ReadExactIff`,
  `Vblk.VectorReadsTooMuch`); a read that goes beyond it is accepted exactly when its
  whole commands stay inside what has been written, where the device reports
  unwritten sectors as errors, and inside the virtual block otherwise
  (`VblkLaws.ReadAcceptedIff`, `VblkLaws.ShortReadRefused`);
* a write counts whole sectors but moves the cursor by bytes, so after transfers with
  partial sectors the cursor follows the sectors written exactly while the dropped
  parts add up to less than one sector (`VblkLaws.CursorFollowsIff`,
  `VblkLaws.HalfSectorSkips`);
* a failed append can be repeated exactly when none of its commands was accepted
  (`ParallelRuns.RetryAppendIff`);
* a cached bad-block mark or table is stored with any state, but the set command
  refuses states it does not know, so a flush can succeed, and retrying it helps,
  exactly when every block that differs from the device has a known state
  (`Bbt.RetriesConverge`, `Bbt.UnknownMarkNeverFlushes`); counters stay as they were
  while a table holds an unknown state;
* a bad-block mark made with caching off is undone by a later flush exactly when
  the resident entry has another state (`Bbt.UncachedMarkSurvivesIff`,
  `Bbt.UncachedMarkLost`);
* after a submission the backend refuses, `retsp` stays one above the commands in
  flight in either backend; SPDK gives `outstanding` back, the block-device backend
  does not, and a later wait there asks for more completions than are in flight
  (`Async.AsyncRun.BackendSubmit`, `Async.AsyncRun.IoAsync`);
* the block-device backend looks at the second result word of a completion alone, so
  its result is 0 exactly when no completion has that word set, whatever became of
  the commands (`Async.AsyncRun.IoAsync`, `AsyncWrite.AsyncAppend`,
  `AsyncRead.AsyncPread`);
* the contiguity test of the backend without Open-Channel support looks at sectors
  only, so sending a vector as one scalar command is right exactly when the vector
  stays in one chunk (`ScalarVector.ScalarPreservesVectorIff`,
  `ScalarVector.ContigAcrossChunks`);
* a copy onto empty chunks of its own is accepted exactly when the source is full
  (`VblkLaws.CopyMakesEqual`); onto chunks of the source it may succeed in commands
  although it could not succeed at once (`VblkLaws.SharedCopy`).

The synchronous methods of the classes run their iterations in program order;
`ParallelRuns` and `ParallelRead` prove that every interleaving of the parallel write
and read loops keeps the same contract.

## Model

| member | source | states |
|---|---|---|
| `Device.WriteSector` | tests/test_rules_write.c:36-155 | a write is accepted exactly at the write pointer of a chunk that is free or open and not full; it appends there, moves the pointer by one and keeps the chunk's state consistent |
| `Device.ResetAllIff` | tests/test_rules_reset.c:32-87 | a reset of distinct chunks is accepted exactly when each is closed, or free where repeated resets are allowed |
| `Device.ResetAllFrees` | tests/test_rules_reset.c:32-87 | an accepted reset leaves its chunks free and keeps every chunk valid |
| `Device.WriteAllLocal` | include/liblightnvm_spec.h:286-298 | a command's outcome and effect depend only on the chunks it addresses |
| `Device.WriteAllKept` | include/liblightnvm_spec.h:286-298 | an accepted write disturbs no sector that could be read before |
| `Device.WriteAllReadsBack` | tests/test_rules_write.c:36-155 | every sector of an accepted command reads back |
| `Striping.PlaceIsBijection` | src/nvm_vblk.c:714-724 | the map from logical sectors to (chunk, sector) is a bijection onto the whole virtual block |
| `Striping.PlaceLayout` | src/nvm_vblk.c:714-724 | sector 0 is the first of the first chunk, a unit stays in its chunk, the next unit goes to the next chunk and after the last chunk one unit further on the first |
| `Striping.CountUnitsClosed` | src/nvm_vblk.c:714-724 | how many of the first m units striping deals to chunk c |
| `Striping.NextIsAtWp` | src/nvm_vblk.c:714-724 | the next logical sector always goes to the write pointer of its chunk |
| `Striping.AppendMany` | src/nvm_vblk.c:703-733 | appending at the end of the log is accepted exactly as far as there is room and leaves log + data |
| `Layouts.S12IsStriping` | src/nvm_vblk.c:833-842 | the 1.2 (block, page, plane, sector) arithmetic is striping by super pages, and stays inside the blocks |
| `Layouts.S12PlaneByPlane` | src/nvm_vblk.c:833-842 | the addresses of a super page are the sectors of plane 0, then those of plane 1 and so on, all on one block and page |
| `Layouts.S12IsPlaneMajor` | src/nvm_vblk.c:944-950 | every address the 1.2 loops compute is laid out that way |
| `Layouts.S12RoundTrip` | src/nvm_vblk.c:833-842 | every (block, page, plane, sector) of the virtual block is the address of one of its sectors |
| `Layouts.S12RoundTripBack` | src/nvm_vblk.c:833-842 | every sector of the virtual block is found again from its 1.2 address |
| `Layouts.AsyncMatchesSync` | src/nvm_vblk.c:361-374 | the asynchronous loop addresses what the synchronous striping addresses if and only if it starts at unit 0 or stays within the first round |
| `Schedule.Commute` | src/nvm_vblk.c:702-734 | commands on different chunks commute, faults included |
| `Schedule.RespectfulOrderIsProgramOrder` | src/nvm_vblk.c:702-734 | any complete order of execution that keeps commands on a common chunk in order gives the device and the outcomes of program order |
| `Schedule.PartialOutcome` | src/nvm_vblk.c:702-734 | in any such partial order each command has the outcome it gets from the full sequential loop |
| `OrderedLoop.InvAlways` | src/nvm_vblk.c:702-734 | what every step of every interleaving keeps: ordered regions are left in loop order, no thread is a team ahead, the trace respects conflicts |
| `OrderedLoop.IssuedAfterPrevious` | src/nvm_vblk.c:702-734 | in every interleaving a command is issued only after every earlier command on any of its chunks has returned and left its region |
| `OrderedLoop.EveryInterleavingIsSequential` | src/nvm_vblk.c:702-734 | every command carried out has its sequential outcome, and a finished loop leaves the device as the sequential loop does |
| `OrderedLoop.NeverStuck` | src/nvm_vblk.c:702-734 | no interleaving gets stuck before all iterations are over |
| `OrderedLoop.FreeThreadIssues` | src/nvm_vblk.c:702-703 | in any state an iteration can begin once its thread is free, whatever the other threads are doing |
| `OrderedLoop.TeamInFlight` | src/nvm_vblk.c:702-703 | the whole team can have a command in flight at once |
| `OrderedLoop.OrderHappensIff` | src/nvm_vblk.c:702-734 | a complete order of execution happens in some finished run of the ordered loop if and only if no command is carried out before one a team or more iterations ahead of it |
| `OrderedLoop.WithoutOrderedRegion` | src/nvm_vblk.c:702-734 | without the ordered region two threads on three chunks can have a write refused although static scheduling is kept |
| `OrderedLoop.WithOrderedRegion` | src/nvm_vblk.c:731-733 | with the region that schedule is impossible |
| `OrderedLoop.OrderedRegionOverlaps` | src/nvm_vblk.c:702-734 | with the region two threads still have commands 0 and 1 in flight together, carried out in the order 1, 0 |
| `OrderedLoop.OverlappedRunHappens` | src/nvm_vblk.c:702-734 | a finished run of that loop in the order 1, 0, 3, 2 |
| `ParallelWrite.StripedSeparated` | src/nvm_vblk.c:815-848 | commands fewer than nblks / units-per-command iterations apart share no chunk |
| `ParallelWrite.StripedTiles` | src/nvm_vblk.c:702-724 | the loop's commands cover the transfer end to end, without gap or overlap |
| `ParallelWrite.StripedSizes` | src/nvm_vblk.c:816-820 | every command has its full number of units but the last, and there are no more commands than that takes |
| `ParallelWrite.StripedArePieces` | src/nvm_vblk.c:816-848 | the commands of the parallel loops are those the write methods issue |
| `ParallelWrite.ParallelWriteAppends` | src/nvm_vblk.c:652-734 | in every interleaving of every admissible team every command lands at its chunk's write pointer; the finished loop leaves log + data and no other chunk changed |
| `ParallelRuns.ParallelWriteS20` | src/nvm_vblk.c:652-734 | for any team up to NTHREADS, any start state and any faults, a finished loop has no errors exactly when no command faulted and the striped transfer is acceptable, and then has made it; written sectors and other chunks are kept |
| `ParallelRuns.ParallelWriteS12` | src/nvm_vblk.c:755-760 | the same for the 1.2 loop with several super pages in a command |
| `ParallelRuns.RetryAppendIff` | src/nvm_vblk.c:703-745 | after a failed append to a held log with room, the same transfer is accepted if and only if the failed call left the device unchanged, which is when none of its commands was accepted |
| `ReadBuffer.FillAt` | src/nvm_vblk.c:593-615 | in whatever order reads are carried out, each part of the buffer holds what its own command delivered, and what it held before where none did |
| `ReadBuffer.FillWhole` | src/nvm_vblk.c:593-615 | once every read has been carried out the buffer starts with the whole transfer and is otherwise untouched |
| `ReadBuffer.ReadLoopAlways` | src/nvm_vblk.c:592-593 | in every schedule of a parallel read loop, with or without an ordered region, each iteration is carried out once at most and the device runs them as any sequence of reads |
| `ParallelRead.ReadableInPieces` | src/nvm_vblk.c:593-615 | a range can be read exactly when every command of the loop can |
| `ParallelRead.ParallelReadDelivers` | src/nvm_vblk.c:592-625 | for any team, interleaving and faults, a finished read loop of either generation (also src/nvm_vblk.c:929-959) has no errors exactly when no command faulted and everything asked for can be read, and then the buffer holds it in order; the device is unchanged |
| `Vblk.FlattenTransfer` | src/nvm_vblk.c:709-712 | cutting the caller's buffer into sectors loses nothing |
| `Vblk.SectorByte` | src/nvm_vblk.c:709-712 | byte b of sector i is byte i * nbytes + b of the buffer |
| `Vblk.CmdNblks` | src/nvm_vblk.c:210-217 | the greatest divisor of the block count not above the limit |
| `Vblk.GreatestDivisor` | src/nvm_vblk.c:312-319 | a divisor within the limit, and no larger number within the limit divides |
| `Vblk.SectorAddr` | src/nvm_vblk.c:714-724 | the address the loop computes is the one striping assigns |
| `Vblk.FillAddrs` | src/nvm_vblk.c:714-724 | the filled array lists the addresses of consecutive logical sectors |
| `Vblk.ReadExactIff` | src/nvm_vblk.c:575-613 | the read loop delivers exactly the requested sectors if and only if the command size divides their number, and otherwise less than one command too many |
| `Vblk.VectorReadsTooMuch` | src/nvm_vblk.c:575-613 | a request of 8 sectors is read with a command of 64 |
| `Vblk.Alloc` | src/nvm_vblk.c:84-142 | allocation is refused exactly for more than 128 chunks or a chunk the device does not have; otherwise the virtual block is as asked for, with both cursors at 0 |
| `Vblk.VirtualBlock.SyncPwrite` | src/nvm_vblk.c:627-746 | with vector or scalar commands of one unit each: succeeds exactly when aligned, the device takes the striped sectors in order and nothing faults, and has then written them; in every case other chunks and sectors written before are kept, and an unaligned call issues nothing |
| `Vblk.VirtualBlock.WriteUnits` | src/nvm_vblk.c:702-734 | the loop issues one command per unit, vector or scalar, and its error count is 0 exactly when the whole transfer went through |
| `Vblk.VirtualBlock.SyncPread` | src/nvm_vblk.c:559-625 | in vector commands of 64 sectors or scalar ones of a unit: succeeds exactly when aligned, the device accepts a read of everything the commands cover and nothing faults, and then delivers those sectors in order |
| `Vblk.VirtualBlock.ReadCommands` | src/nvm_vblk.c:592-615 | the read loop with its commands, for vector and for scalar ones |
| `Vblk.VirtualBlock.CommandAddrs` | src/nvm_vblk.c:593-608 | a scalar command at a unit's first sector covers the addresses the vector would list |
| `Vblk.VirtualBlock.Erase` | src/nvm_vblk.c:263-292 | succeeds exactly when every chunk can be reset and nothing faults; then the chunks are reset and both cursors are 0, otherwise the cursors stay |
| `Vblk.VirtualBlock.Write` | src/nvm_vblk.c:885-893 | appends at the write cursor, which moves by the count exactly on success |
| `Vblk.VirtualBlock.Pad` | src/nvm_vblk.c:895-900 | pads to the end of the virtual block and leaves the cursor there exactly on success |
| `Vblk.VirtualBlock.Read` | src/nvm_vblk.c:992-1002 | reads at the read cursor, which moves by the count exactly on success |
| `Vblk.VirtualBlock.CopyTo` | src/nvm_vblk.c:1004-1111 | refuses virtual blocks of another device or size and sizes that are not whole in WS_MIN; otherwise succeeds exactly when its commands would one after the other and nothing faults, and without shared chunks exactly when one copy of the whole block would; then every sector of the destination reads like the source, shared chunks or not; only destination chunks change and nothing written is lost |
| `Vblk.VirtualBlock.CopyCommands` | src/nvm_vblk.c:1035-1063 | the copy loop in the same terms; it terminates |
| `Vblk.CopyCommandMax` | src/nvm_vblk.c:1022 | the greatest multiple of WS_MIN up to 64, positive exactly when WS_MIN is at most 64 |
| `VblkLaws.RunHoldsLog` | src/nvm_vblk.c:885-900 | over every run of successful writes, padding and erases on fresh chunks the virtual block holds exactly what was appended since the last erase |
| `VblkLaws.RunWritePointers` | tests/test_cmd_rprt.c:63-112 | after every such run each chunk's write pointer is WS_OPT times the units striping deals to it below the cursor; padding leaves all chunks CLOSED, erase all FREE with the cursor at 0 |
| `VblkLaws.EraseAcceptedIff` | src/nvm_vblk.c:263-292 | an erase of a held log is accepted if and only if the log fills the virtual block, or repeated resets are allowed and no chunk stands open |
| `VblkLaws.EraseAfterPad` | tests/test_cmd_rprt.c:63-112 | after padding an erase is accepted, in every run |
| `VblkLaws.ReadAcceptedIff` | src/nvm_vblk.c:575-613 | a read on a held log is accepted if and only if everything its whole commands cover has been written, or lies inside the virtual block where unwritten sectors are no errors |
| `VblkLaws.ShortReadRefused` | src/nvm_vblk.c:575-613 | eight sectors written and read back with a command of 64 are refused where unwritten sectors are errors |
| `VblkLaws.UnwrittenDelivers` | src/nvm_vblk.c:593-613 | past the log a read delivers the device's predefined content |
| `VblkLaws.WriteThenRead` | src/nvm_vblk.c:559-746 | a write and a read of the same range, vector or scalar: what the read delivers starts with the bytes written; if the command size divides the request it delivers nothing else and fails only by a fault; after an append to a held log it fails exactly by a fault or when its whole commands reach too far; written sectors and other chunks are kept |
| `VblkLaws.CursorFollowsIff` | src/nvm_vblk.c:885-893 | after successful calls the cursor stands right after the sectors transferred if and only if the partial sectors dropped add up to less than one |
| `VblkLaws.HalfSectorSkips` | src/nvm_vblk.c:656-660 | two writes of one and a half sectors skip one |
| `VblkLaws.AcknowledgedDataSurvives` | src/nvm_vblk.c:885-893 | over every run in which any calls fail in any way, every acknowledged sector reads back until an erase fails, and no chunk is written less far than the cursor says |
| `VblkLaws.PartialSourceFails` | src/nvm_vblk.c:1035-1063 | a source that is not full has a sector the copy asks for and cannot get |
| `VblkLaws.CopyMakesEqual` | src/nvm_vblk.c:1004-1072 | a copy striped by WS_MIN onto empty chunks is accepted if and only if the source is full, and the destination then holds the source as WS_OPT striping reads it |
| `VblkLaws.SharedCopy` | src/nvm_vblk.c:1035-1063 | a concrete copy onto a chunk of its own source that succeeds command by command and would be refused at once |
| `Vblk12.S12Sector` | src/nvm_vblk.c:833-842 | the block, page, plane and sector computed for one address, plane after plane inside a super page, and the place that gives in the block, which is where striping by super pages puts the sector |
| `Vblk12.FillS12` | src/nvm_vblk.c:833-842 | the filled array points, address by address, plane after plane, to consecutive striped sectors |
| `Vblk12.VirtualBlock12.Pwrite` | src/nvm_vblk.c:748-859 | succeeds exactly when within bounds, whole super pages, acceptable to the blocks in order and free of faults; written sectors and other blocks are kept |
| `Vblk12.VirtualBlock12.WriteSpages` | src/nvm_vblk.c:815-848 | the 1.2 write loop is one write of the whole transfer, in commands of the greatest number of super pages that divides the block count and fits the limit |
| `Vblk12.VirtualBlock12.Pread` | src/nvm_vblk.c:902-967 | succeeds exactly when within bounds, aligned, readable and free of faults, and then delivers the sectors in order |
| `Vblk12.VirtualBlock12.ReadSpages` | src/nvm_vblk.c:929-959 | the 1.2 read loop is one read of the whole transfer, in commands sized the same way by the read limit |
| `Vblk12.WriteThenRead12` | src/nvm_vblk.c:748-967 | a 1.2 write and a 1.2 read of the same range, with unrelated write and read limits: the read delivers the bytes written and fails only by a fault; written sectors and other blocks are kept |
| `Vblk12.VirtualBlock12.NbytesIs` | src/nvm_vblk.c:123-127 | the size of a 1.2 virtual block is blocks by planes by pages by sectors by bytes |
| `Vblk12.EraseCommand` | src/nvm_vblk.c:230-245 | one erase command lists all planes of its blocks |
| `Vblk12.VirtualBlock12.ErasePlanes` | src/nvm_vblk.c:239-251 | a command on all planes of its blocks resets exactly those blocks |
| `Vblk12.VirtualBlock12.Erase` | src/nvm_vblk.c:219-261 | the commands, each within the limit, list every plane of every block; success exactly when every block can be reset and nothing faults, and then the blocks are reset and both cursors 0, otherwise the cursors stay |
| `Vblk12.EachPlaneOnce` | src/nvm_vblk.c:230-245 | each plane of each block is listed once and at one position |
| `Async.PartitionDistinct` | src/nvm_vblk.c:39-61 | no stack entry is both free and in flight, or in flight twice |
| `Async.InFlightApart` | src/nvm_vblk.c:361-431 | in every reachable state the commands in flight address different chunks |
| `Async.ExecuteStep` | src/nvm_vblk.c:361-431 | the device may carry out any command in flight without breaking the order per chunk |
| `Async.FinishedIsSequential` | src/nvm_vblk.c:416-431 | with nothing in flight the device is as after sequential execution, whatever the completion order |
| `Async.AsyncRun.constructor` | src/nvm_be_lbd.c:88-117 | fresh stacks partition their pools |
| `Async.AsyncRun.Execute` | src/nvm_vblk.c:361-431 | any command in the queue may be carried out next, which appends it to the trace and keeps the invariant |
| `Async.AsyncRun.TakeOne` | src/nvm_be_lbd.c:150-153 | any queued command may be the next completion reported |
| `Async.AsyncRun.Callback` | src/nvm_vblk.c:71-82 | the entry returns to the free stack and a failure is counted |
| `Async.AsyncRun.CompleteSpdk` | src/nvm_be_spdk.c:748-757 | a completion in the SPDK backend keeps the stacks coupled and partitioned |
| `Async.AsyncRun.CompleteLbd` | src/nvm_be_lbd.c:155-166 | a completion in the block-device backend is counted by its second result word and keeps the stacks coupled and partitioned |
| `Async.AsyncRun.GetEvents` | src/nvm_be_lbd.c:143-170 | reaps at least the minimum asked for, in any order, and keeps the invariant |
| `Async.AsyncRun.Wait` | src/nvm_be_lbd.c:172-187 | leaves nothing in flight and both stacks full |
| `Async.AsyncRun.BackendSubmit` | src/nvm_be_lbd.c:189-228 | EAGAIN exactly when every entry is taken; a failed submission gives the count back in SPDK (src/nvm_be_spdk.c:759-801) and keeps it raised in the block-device backend |
| `Async.AsyncRun.SubmitStripe` | src/nvm_vblk.c:386-414 | a submission never meets EAGAIN, takes the entries on top of both free stacks for the next stripe and keeps the invariant |
| `Async.AsyncRun.GreedyReap` | src/nvm_vblk.c:321-340 | reaps at least one completion and counts them |
| `Async.AsyncRun.IoAsync` | src/nvm_vblk.c:342-437 | at depth 2 or more: -1 exactly when the backend refuses a submission, and then a later wait can return exactly in SPDK; otherwise the loop waited once per round and once at the end, both stacks are full, every command was carried out once, the device is as after sequential execution, and the result is 0 exactly when every command succeeded (SPDK) or no completion reports a failure in `res2` (block device) |
| `AsyncOrders.AlwaysGood` | src/nvm_vblk.c:361-431 | what every step of every run of the asynchronous loop keeps, with any command carried out and any completion reaped next |
| `AsyncOrders.OrderHappensIff` | src/nvm_vblk.c:376-431 | a complete order of execution happens in some run if and only if rounds follow each other and no command is more than depth - 2 places early |
| `AsyncOrders.EveryOrderIsSequential` | src/nvm_vblk.c:361-431 | every such run leaves the device as sequential execution does |
| `AsyncWrite.AsyncSeparated` | src/nvm_vblk.c:361-374 | the stripes of one round go to different chunks |
| `AsyncWrite.AsyncAppendIff` | src/nvm_vblk.c:361-374 | for any faults, an asynchronous append at the cursor has every stripe accepted if and only if none of them faults and it starts at unit 0 or stays within the first round, and then leaves log + data |
| `AsyncWrite.AsyncAppend` | src/nvm_vblk.c:342-437 | the same from end to end through either backend's queue, under any order of execution and completion, with what each backend reports |
| `AsyncRead.AsyncPread` | src/nvm_vblk.c:342-437 | the read direction through either backend's queue: in any order of execution and completion each stripe fills its own part of the buffer, which then holds what the device has there or, where the stripe failed, what it held before; success as each backend reports it |
| `AsyncRead.AnyOrderDelivers` | src/nvm_vblk.c:361-384 | any order in which every stripe is carried out leaves the same buffer |
| `AsyncRead.AsyncReadAccepted` | src/nvm_vblk.c:361-374 | whatever an asynchronous read of a held log asks for can be read, in the right round or not |
| `AsyncRead.AsyncReadIff` | src/nvm_vblk.c:361-374 | an asynchronous read of a held log delivers the sectors asked for from unit 0 or within the first round, and for a log without equal sectors only then |
| `AsyncRead.WrongSector` | src/nvm_vblk.c:361-374 | in every other case some sector delivered is an earlier one than the one asked for |
| `AsyncRead.AsyncReadWrong` | src/nvm_vblk.c:361-374 | a concrete read that returns the first sector in place of the third |
| `Bbt.IdxInBounds` | src/nvm_bbt.c:38-48 | slot and block indices of a checked address are in bounds |
| `Bbt.BlkOfIdx` | src/nvm_bbt.c:134-137 | block i of a table is block i / nplanes on plane i % nplanes, a valid address of the same LUN whose index is i again |
| `Bbt.IdxLayout` | src/nvm_bbt.c:38-48 | slots go LUN by LUN then channel by channel, blocks of a table plane by plane then block by block |
| `Bbt.RefreshCounters` | src/nvm_bbt.c:50-93 | the counters become the true number of blocks per state, or stay when a state is unknown |
| `Bbt.CountersByState` | src/nvm_bbt.c:60-85 | each counter is the number of blocks in its own state: 1 bad, 2 grown bad, 4 device marked, 8 host marked |
| `Bbt.DiffCmdsExact` | src/nvm_bbt.c:128-145 | a flush has one set command per differing block, in order, and none for an equal one |
| `Bbt.BbtDev.Get` | src/nvm_bbt.c:176-242 | a hit returns the slot, a miss the device's table with the counters it reports and fills the slot, a failure empties it |
| `Bbt.BbtDev.FlushLun` | src/nvm_bbt.c:110-153 | succeeds exactly when nothing faults and every differing block has a known state; success makes the device equal to the entry and empties the slot, with exactly the needed commands; failure keeps the entry and has written a prefix |
| `Bbt.BbtDev.WriteBack` | src/nvm_bbt.c:128-145 | the write-back loop, block by block through its addresses, in the same terms |
| `Bbt.BbtDev.Flush` | src/nvm_bbt.c:95-154 | the same by address, refusing addresses out of bounds |
| `Bbt.BbtDev.FlushAll` | src/nvm_bbt.c:156-174 | succeeds exactly when nothing faults and in every slot each differing block has a known state; then every slot is empty and the device holds what the cache showed; what a user sees never changes |
| `Bbt.BbtDev.Set` | src/nvm_bbt.c:244-274 | after success the table seen has the given blocks at the start, its old states after them and its old length, in the slot or with caching off on the device, where it succeeds exactly when nothing faults and the changed states are known; counters are the true counts, or as before while a state is unknown |
| `Bbt.BbtDev.MarkOne` | src/nvm_bbt.c:282-297 | a cached mark changes one block of one slot, whatever the flags; counters are the true counts if every state is known, else those the entry had |
| `Bbt.BbtDev.MarkCached` | src/nvm_bbt.c:276-300 | marks show up in order; every LUN marked has the true counts if every state is known, else the counters from before the call; a failure stops after a prefix and has a cause |
| `Bbt.MarkViewsAt` | src/nvm_bbt.c:283-297 | marks show exactly at the blocks they name |
| `Bbt.BbtDev.MarkUncached` | src/nvm_bbt.c:276-280 | one device command that marks all or nothing and leaves the slots alone |
| `Bbt.BbtDev.Sbbt` | src/nvm_be_ioctl.c:380-428 | changes one block of one table, or nothing when it is refused |
| `Bbt.StepRefines` | src/nvm_bbt.c:176-300 | each cached operation is a step of the plain map |
| `Bbt.RunRefinesPlainMap` | src/nvm_bbt.c:95-300 | with caching on and an empty cache, every run returns the tables a plain uncached map would return, where a set or mark changes exactly the blocks given |
| `Bbt.VisitOnce` | src/nvm_bbt.c:156-174 | flush-all, counting channels fastest, reaches every LUN-fastest slot in exactly one round |
| `Bbt.UncachedMarkSurvivesIff` | src/nvm_bbt.c:279-280 | an uncached mark survives a later flush if and only if the LUN was not resident or its entry already had that state |
| `Bbt.UncachedMarkLost` | src/nvm_bbt.c:279-280 | a concrete mark that is lost |
| `Bbt.RetryAfterFailedFlush` | src/nvm_bbt.c:110-153 | after a failed flush the view is unchanged, the entry resident, no more blocks are pending and a retry can write them exactly if the first attempt could |
| `Bbt.RetriesConverge` | src/nvm_bbt.c:110-153 | after any number of failed attempts the next one fails if and only if it meets a fault or a block that differed at the start has an unknown state; success leaves the device with the table that was to be written |
| `Bbt.UnknownMarkNeverFlushes` | src/nvm_bbt.c:294 | a cached mark with flags 3 is stored, and no flush of its LUN ever succeeds or changes the device (src/nvm_be_ioctl.c:387-397) |
| `AddrCodec.MasksDisjoint` | src/nvm_be.c:89-99 | masks of different fields share no bit |
| `AddrCodec.ConstructPpafMask` | src/nvm_be.c:89-99 | the loop computes each field's mask |
| `AddrCodec.Format20Valid` | src/nvm_be.c:474-485 | the derived 2.0 offsets never overlap when the widths fit 64 bits together |
| `AddrCodec.RoundTripIff` | src/nvm_addr.c:124-173 | for any disjoint fields, unpacking returns the values if and only if each fits its field |
| `AddrCodec.PackInjective` | src/nvm_addr.c:124-148 | different addresses never share a device address |
| `AddrCodec.PackIsSum` | src/nvm_addr.c:124-148 | a device address whose fields fit is the sum of the fields, each shifted to its place |
| `AddrCodec.Dev20IsIndex` | src/nvm_be.c:477-480 | a 2.0 device address counts sectors within a chunk, chunks within a unit, units within a group and groups |
| `AddrCodec.Dev12IsSum` | src/nvm_addr.c:136-148 | a 1.2 device address has channel, LUN, plane, block, page and sector each at the offset reported for it |
| `AddrCodec.Addr20RoundTripIff` | src/nvm_addr.c:124-173 | dev2gen inverts gen2dev on a 2.0 address if and only if every field fits the device's width |
| `AddrCodec.Addr12RoundTripIff` | src/nvm_addr.c:124-173 | the same for any 1.2 format of disjoint fields in any order |
| `AddrCodec.OffsetRoundTripIff` | src/nvm_addr.c:175-193 | the fields of any disjoint format come back from the byte offset if and only if they fit and the shifted address fits the word |
| `AddrCodec.Offset20RoundTripIff` | src/nvm_addr.c:175-193 | off2gen inverts gen2off on a 2.0 address, cut to field widths, if and only if the fields fit and the shifted address fits the word |
| `AddrCodec.Offset12RoundTripIff` | src/nvm_addr.c:175-193 | the same for any 1.2 format of disjoint fields |
| `AddrCodec.Ilog2` | src/nvm_be.c:79-87 | the position of the highest set bit |
| `AddrCodec.OffsetIsProduct` | src/nvm_be.c:375-403 | for a power-of-two sector size the offset is address times sector size if and only if the product fits the word |
| `ScalarVector.DevIsSum` | src/nvm_addr.c:124-134 | a sector that fits its field is added to the rest of the device address |
| `ScalarVector.FillCrange` | src/nvm_addr.c:224-232 | fills consecutive sectors, the sector a 32-bit counter, and nothing else |
| `ScalarVector.CrangeIsScalarRange` | src/nvm_cmd.c:213-244 | inside one chunk the LBA range of a scalar command is the list of device addresses of the filled vector |
| `ScalarVector.IsContig` | src/nvm_be_nocd.c:287-296 | the check accepts exactly vectors of consecutive sectors |
| `ScalarVector.ScalarPreservesVectorIff` | src/nvm_be_nocd.c:333-342 | a contiguous vector sent as one scalar command reaches the listed addresses if and only if they share a chunk |
| `ScalarVector.ContigAcrossChunks` | src/nvm_be_nocd.c:287-296 | sectors 0 and 1 of two chunks pass the check, and the scalar command reaches another sector |
| `ScalarVector.LbaSplitRoundTrip` | src/nvm_be_ioctl.c:516-555 | the two command dwords, of 32 bits each, hold the whole starting LBA |
| `Report.LpoRoundTrip` | src/nvm_addr.c:195-222 | every chunk address comes back from its log-page offset |
| `Report.LpoRoundTripBack` | src/nvm_addr.c:195-222 | every descriptor offset comes back from its chunk address |
| `Report.LpoLayout` | src/nvm_addr.c:195-222 | the next chunk, unit and group are one, nchunk and npunit * nchunk descriptors of 32 bytes on |
| `Report.EncodeRoundTrip` | src/nvm_be_ioctl.c:318-327 | the zero-based split dword count and split 64-bit offset decode to the slice, per section 5.14 of NVM Express 1.3 |
| `Report.EncodeLayout` | src/nvm_be_ioctl.c:318-327 | what each command dword holds |
| `Report.FetchReport` | src/nvm_be_ioctl.c:283-335 | the commands tile the range; the report is delivered exactly when none fails and equals that range of the device's log |
| `Report.FindChunk` | src/nvm_cmd.c:347-358 | the rotated scan finds a chunk in the state exactly when the unit has one, and the first from the start value on |
| `Report.RprtArbs` | src/nvm_cmd.c:321-370 | for every start value, success exactly when every unit involved has such a chunk; the chunks are in the state, on pairwise distinct units in rotated order, and the first on each from the start value on |
| `Report.UnitsDistinct` | src/nvm_cmd.c:338-340 | different unit numbers are different parallel units |

## Left out

- ioctl, pread/pwrite, libaio and SPDK themselves: a command is one atomic device step that may fail; a rejected command leaves the device unchanged, and the WS_MIN and MW_CUNITS granularity of the device is not modelled.
- Device open, probe, backend choice, quirks, printers, the command line, timers, buffer allocation, file load and store: plumbing and user interface.
- Out-of-memory returns and errno values.
- Integer widths: sizes are unbounded except where they are the point (device words, the 32-bit sector counter, dword fields). The minimum macro takes `int`, so sizes are taken to be below 2^31; a signed overflow of the random start plus index in the chunk selection is not modelled.
- Vblk.VirtualBlock.SyncPwrite: a zero count at offset 0 is excluded, since the last sector then underflows; the metadata buffer and the content of the padding buffer are not modelled. The same holds for SyncPread.
- VblkLaws.RunHoldsLog: runs are in whole sectors, as with `count % nb == 0` in every call; the calls check `count / nb` only (src/nvm_vblk.c:656), and `VblkLaws.CursorFollowsIff` says when the cursor still follows; the read cursor is not part of the run.
- Vblk12.VirtualBlock12.Pwrite: a 1.2 block is taken to be programmed in page order, like a chunk with a write pointer; the functions that move the cursors are those of the 2.0 class and are not repeated.
- Vblk12.VirtualBlock12.Erase: a block is reset as a whole once all its planes are listed; erasing single planes is not modelled.
- Async.AsyncRun.IoAsync: depth 1 is excluded, since the loop would then poll an empty queue for ever; the device is taken to answer after finitely many polls; which completions have their second result word set (src/nvm_be_lbd.c:162) is a parameter.
- Async.AsyncRun.GetEvents: an error of io_getevents is handed on as a positive number (src/nvm_be_lbd.c:154) that callers take for a count; this path is not modelled.
- Bbt.BbtDev.Get: only 1.2 devices, where the geometry has planes; aliasing of the returned table with the slot, page and sector of addresses, and a table of the wrong size from the device are not modelled; the device's own counters are arbitrary.
- AddrCodec.RoundTripIff: shifts by 64 bits or more, undefined in C, are excluded from formats.
- The split loops of the backend without Open-Channel support, which do not advance the data pointer they pass (src/nvm_be_nocd.c:315, 361), and its vector erase.
- nvm_cmd_gbbt_arbs, whose inner loop advances the outer index (src/nvm_cmd.c:403), and the SPDK report path, which masks the offset to 28 bits (src/nvm_be_spdk.c:548).
- Scatter-gather lists, feature commands, and the setters of plane mode and address limits: each only checks and stores its arguments.
