# A verified model of the MPSS host driver core

This project models six parts of the Intel MPSS kernel driver for Xeon Phi cards (the KNC
build, host side) and proves, for every input, every interleaving and every run, that each
does what a much simpler specification says.

| files | part of the driver | simple form it is proved against |
|---|---|---|
| `RingProtocol.dfy`, `RingBuffer.dfy`, `Interleaving.dfy`, `Stream.dfy` | message ring and byte stream | an unbounded FIFO of bytes |
| `RmaWindows.dfy`, `RmaCopy.dfy`, `RmaEngine.dfy`, `RmaQuery.dfy`, `Copying.dfy` | RMA copy engine | one straight copy |
| `Transfer.dfy`, `Copying.dfy` | scatter-gather transfers, descriptor split | one straight copy |
| `WindowList.dfy`, `WindowCounts.dfy` | registered windows | sets of bytes, page counts |
| `CrashFile.dfy`, `CrashHeaders.dfy` | crash-dump file | one flat file |
| `PowerProtocol.dfy`, `PowerRuns.dfy`, `PowerManagement.dfy`, `NodeGraph.dfy`, `NodeMask.dfy` | power management and the dependency graph | a state machine of atomic steps, least closed sets |
| `Ports.dfy` | port allocator | a set of free ports and a hint |
| `Bits.dfy`, `Errors.dfy` | the bitwise operators on unsigned words, error numbers | arithmetic modulo powers of two |

How the parts are put together:

- Code that updates memory in place is a class (`RingBuffer`, `RegistrationList`,
  `CoreHeaders`, `DependencyMatrix`, `PowerManager`, `PortArray`) or a method with loops. Each
  contract ties the new state to a function of the old one, and lemmas about those functions
  carry the main results.
- Concurrency is a state machine. In the ring every load and store of a shared offset and
  every byte copied is a step of its own; in the power protocol every atomic operation on a
  counter and every round of a loop under the mutex is. A step that is not possible changes
  nothing, so every sequence of steps is a run.
- `PowerManager` runs the loops of the mutex holder on the cards; each of its methods also
  proves that what it did is a sequence of steps of `PowerProtocol`, so the invariant proved
  over all interleavings holds of the code.
- A copy is a list of operations, each a list of single byte moves. `Copying.Exec` carries the
  moves out one by one and `Copying.AnyOrder` shows that the order does not matter when no byte
  written is read and none is written twice with different bytes.
- No proof relies on automatic induction: every lemma that recurses says `{:induction false}`
  and carries its proof in its body.
- Hardware and the environment are parameters: which cards wake up, which pages cannot be
  read, what the peer does between two steps, whether a notification succeeds.

Where the code does not meet the obvious property, the model keeps the code, states exactly when
the property holds, and shows an input at which it fails:

| property | holds exactly when | fails at |
|---|---|---|
| no one holds a sleeping card | `PowerProtocol.StepKeepsInv`: no PC6 exit with a reference times out | `PowerRuns.HolderOfSleepingCard` |
| every counted reference is held | `PowerProtocol.LeaksExactly`: no exit that granted one ends with an error | `PowerRuns.LeakedReference` |
| a result of 0 means that the card asked for is awake and counted | `PowerManagement.ZeroForLostCard`, `ZeroMeansAwake`: neither is its failed wake-up hidden by a later one, nor its PC6 exit timed out | `PowerRuns.HolderOfLostCard`, `HolderOfSleepingCard` |
| an ordered copy writes its last bytes last | `RmaEngine.OrderKept`, through `DmaCopyAligned` | `RmaEngine.OrderLost` |
| a mapping is as long as asked for, each chunk inside its pinned chunk, every byte the right one | `Transfer.MapRange`, `MappedInside`, `MappedRightExactly` | `Transfer.MapSecondPage` |
| the dump size is the end of the file, and no read misses it | `CrashHeaders.SizeIsEnd`, `DumpReads` | `CrashHeaders.SizeTooLarge` |
| merging notes keeps every other header and only those | `CrashHeaders.NotesFirst`, `LoadsKept` | `CrashHeaders.LoadDropped` |
| teardown restores the matrix | `NodeGraph.TeardownRestores` | `NodeGraph.TeardownChanges` |
| a stopped search reports an error | `NodeGraph.GetMinimalDeactiveSet`: for an active dependant of the source, no ready one comes before it (`ReadyFirst`); always without a ready dependant of the source (`NoneReady`) | `NodeGraph.AbortReturnsZero` |
| the result counts the bytes sent or received | `Stream.Send`, `Stream.Recv`: no notification fails | `Stream.SendLosesByte`, `RecvLosesByte` |
| get_scif_port fails only when no port is left | `Ports.GetFails`, `TightStep`, `UntightStep` | `Ports.GetCanFailEarly` |

Places where comments in the code promise something else:

- The comment on `get_scif_port` says 0 means that no port is available; 0 is also returned
  while ports are free (`Ports.GetCanFailEarly`).
- The comment on `teardown_pm_dependency` says that all dependency information is removed; the
  code turns ready dependencies between cards back into active ones.
- `micscif_get_minimal_deactiveset` is documented to fail when a dependent node is active; its
  return code is 0 in that case whenever nodes are left on its stack.
- `micscif_query_window` documents a full query as a range made of whole windows; the code
  only asks that the range end at the end of a window.

## Model

| member | source | states |
|---|---|---|
| Bits.MaskIsModulo | micscif/micscif_rb.c:186-206 | masking with a power-of-two size minus one is the remainder by that size |
| Bits.WrappedMask | micscif/micscif_rb.c:167-206 | the same for a 32-bit difference that may have wrapped below zero |
| Bits.PowerOfTwoTest | micscif/micscif_rb.c:61-84 | the size test of the ring accepts exactly the powers of two |
| Bits.AndKeepsAll | micscif/micscif_rma_list.c:225-226 | masking keeps a word exactly when the mask has all its bits |
| RingProtocol.CntOfSlots | micscif/micscif_rb.c:297-311 | the masked difference of two offsets is the number of bytes between their stream positions |
| RingProtocol.SpaceOfSlots | micscif/micscif_rb.c:167-176 | the masked room is the size less one less the bytes in flight |
| RingProtocol.StepKeepsInv | micscif/micscif_rb.c:102-326 | every step of either side keeps the positions ordered, the offsets the slots of those positions, and every unpublished byte in its slot |
| RingProtocol.RunKeepsInv | micscif/micscif_rb.c:102-326 | so does every interleaving of steps |
| RingProtocol.RingIsFifo | micscif/micscif_rb.c:102-326 | under every interleaving with stale cached offsets, the bytes fetched are a prefix of the bytes committed |
| RingProtocol.NoEarlyOverwrite | micscif/micscif_rb.c:102-130 | a store never hits the slot of a byte not yet published as read |
| RingProtocol.StoreIsSafe | micscif/micscif_rb.c:102-130 | the same for any state in the invariant |
| RingProtocol.WriteCall | micscif/micscif_rb.c:186-211 | a write with room appends exactly the message to the stream and overlays exactly its slots |
| RingProtocol.ReadCall | micscif/micscif_rb.c:220-240 | a read of counted bytes returns exactly the next bytes of the stream |
| RingBuffer.RingBuffer.constructor | micscif/micscif_rb.c:61-78 | both private offsets start at the shared ones; on a fresh queue pair either side shows the initial state of the protocol |
| RingBuffer.RingBuffer.Space | micscif/micscif_rb.c:167-176 | refreshes the read offset and returns the room, which is the size less one less the bytes written and not published as read |
| RingBuffer.RingBuffer.Write | micscif/micscif_rb.c:186-206 | appends the whole message to the stream, or nothing, exactly when there is room; the memory shows the protocol state after the steps of a write |
| RingBuffer.RingBuffer.CopyToRing | micscif/micscif_rb.c:102-125 | the two-part copy equals a wrapped overlay of the buffer |
| RingBuffer.RingBuffer.Commit | micscif/micscif_rb.c:319-376 | publishes the private write offset: everything written is committed |
| RingBuffer.RingBuffer.Count | micscif/micscif_rb.c:297-311 | reads the shared write offset only when too little is known; the result is the number of stream bytes seen and not claimed |
| RingBuffer.RingBuffer.GetNext | micscif/micscif_rb.c:220-239 | returns exactly the next bytes of the stream, all asked for or none; the memory shows the protocol state after the steps of a read |
| RingBuffer.RingBuffer.CopyFromRing | micscif/micscif_rb.c:131-155 | the two-part copy equals a wrapped extract of the buffer |
| RingBuffer.RingBuffer.UpdateReadPtr | micscif/micscif_rb.c:245-285 | publishes the private read offset: everything claimed may be overwritten |
| Interleaving.ConsumerRun | micscif/micscif_api.c:1210-1372 | whatever the consumer does, what was sent and the room already seen stay |
| Interleaving.ProducerRun | micscif/micscif_api.c:1388-1505 | whatever the producer does, what was received and counted stays |
| Interleaving.WovenWrite | micscif/micscif_rb.c:186-206 | a write with room appends exactly the message, with any steps of the consumer before each of its loads and stores |
| Interleaving.WovenRead | micscif/micscif_rb.c:220-239 | a read of counted bytes takes exactly that many, with any steps of the producer before each of its loads |
| Stream.SendChunk | micscif/micscif_api.c:1250-1285 | one pass appends the part of the message that fits, with the consumer taking steps before each step of the write |
| Stream.Send | micscif/micscif_api.c:1210-1372 | a non-negative result is the number of bytes appended, a negative one means none were, less a chunk whose notification failed; the bytes are the prefix of the message; on the last pass the code is -ECONNRESET for a disconnected end point, -ENOTCONN for one not connected, -ENODEV for a dead node, the notification's own code for bytes moved, and -ERESTARTSYS for a signal in a blocking wait without room |
| Stream.RecvChunk | micscif/micscif_api.c:1405-1450 | one pass takes what is there up to the request, with the producer taking steps before each step of the read; the size BUG_ON cannot fire |
| Stream.Recv | micscif/micscif_api.c:1388-1505 | a non-negative result is the number of bytes taken, a negative one means none were, less a chunk whose notification failed; the bytes are the next ones of the stream; on the last pass the code is -ENOTCONN, -ECONNRESET only when nothing is left to take, the notification's own code for bytes taken, or -ERESTARTSYS for a signal in a blocking wait on an empty ring |
| Stream.ReceivedIsSent | micscif/micscif_api.c:1388-1505 | bytes received after a point are the bytes sent from that point on |
| Stream.SendLosesByte | micscif/micscif_api.c:1210-1372 | a send of one byte on an empty ring with a failing notification reports an error with its byte committed |
| Stream.RecvLosesByte | micscif/micscif_api.c:1388-1505 | a receive from a ring with one byte and a failing notification reports an error with the byte taken |
| Copying.AnyOrder | micscif/micscif_rma_dma.c:494-756 | moves without overlap leave the same memory in every order |
| RmaWindows.GetDmaAddr | include/mic/micscif_rma.h:745-791 | address of an offset and the bytes from there to the end of its chunk, from any valid hint; its BUG_ON cannot fire |
| RmaWindows.PageAddr | include/mic/micscif_rma.h:757-775 | the page-number lookup gives the same answer when every chunk is a page |
| RmaWindows.AddrOfIs | include/mic/micscif_rma.h:734-791 | inside a chunk of any window of a chain, offsets and addresses advance together |
| RmaCopy.Hop | micscif/micscif_rma_dma.c:579-597 | at the end of a window the walk moves to the next one of the chain |
| RmaCopy.Issue | micscif/micscif_rma_dma.c:594-667 | a piece contiguous on both sides continues the straight copy and stays in one window |
| RmaCopy.IssueBody | micscif/micscif_rma_dma.c:608-656 | a body piece is one request, or in ordered mode the last is two around a status descriptor |
| RmaCopy.Body | micscif/micscif_rma_dma.c:573-659 | the loop issues the whole body in cache-line pieces, each in one window on either side; each piece but the first starts at a chunk boundary and none has one inside; its BUG_ON cannot fire |
| RmaCopy.NoBoundaryInside | micscif/micscif_rma_dma.c:599-609 | a chunk never starts strictly inside a piece |
| RmaCopy.OneLineLeft | micscif/micscif_rma_dma.c:608-612 | one cache line is left for a piece of its own exactly when a chunk of either side starts at the last cache line of a longer body |
| RmaEngine.DmaCopyAligned | micscif/micscif_rma_dma.c:494-756 | head, body and tail together are one straight copy; in ordered mode the last cache line or the tail is written after all other bytes exactly when there is a tail, at most one cache line follows the head, or no chunk of either side starts at the last cache line |
| RmaEngine.HeadAndTail | micscif/micscif_rma_dma.c:505-574 | the head ends at the first cache line boundary or the end of the copy, the body is whole cache lines and the tail is less than one |
| RmaEngine.OrderLost | micscif/micscif_rma_dma.c:608-656 | an ordered copy of 4160 bytes whose last cache line is not ordered behind the rest |
| RmaEngine.CpuCopy | micscif/micscif_rma_dma.c:902-1023 | one straight copy in pieces that never leave a page or a window |
| RmaEngine.LocalCpuCopy | micscif/micscif_rma_dma.c:227-280 | one straight copy between local windows and the staging buffer, page by page |
| RmaEngine.DmaCopyUnaligned | micscif/micscif_rma_dma.c:287-478 | one straight copy between the staging buffer and remote windows, closed by a status descriptor; towards remote windows the same ordering condition, and the last piece is the last byte or the last cache line |
| RmaEngine.DmaCopy | micscif/micscif_rma_dma.c:758-865 | equal cache-line offsets go out directly; otherwise the two stages are straight copies to and from the staging buffer, the remote source rounded out to cache lines; in ordered mode each way keeps its last bytes last exactly under its condition |
| RmaEngine.RoundedOutCovers | micscif/micscif_rma_dma.c:811-846 | the range rounded out to cache lines still lies in the windows |
| RmaEngine.IssuedUnambiguous | micscif/micscif_rma_dma.c:494-756 | between ranges that share no byte each destination byte is written once and none is read |
| RmaEngine.WindowsApart | micscif/micscif_rma_dma.c:494-756 | windows that share no memory make their ranges separate |
| RmaEngine.OneWindowSeparate | micscif/micscif_rma_dma.c:902-1023 | disjoint ranges of one chain, as a loopback copy has, are separate |
| RmaEngine.IssuedDelivers | micscif/micscif_rma_dma.c:494-756 | in whatever order the bytes arrive, destination byte i holds source byte i |
| RmaEngine.IssuedKeeps | micscif/micscif_rma_dma.c:494-756 | no byte outside the destination changes |
| RmaEngine.StagedFromLocal | micscif/micscif_rma_dma.c:790-865 | the two stages of a copy from a local source deliver exactly the source bytes |
| RmaEngine.StagedFromRemote | micscif/micscif_rma_dma.c:790-865 | the staging buffer holds the source bytes from header_padding on, and the destination holds them afterwards |
| RmaEngine.SameCopySameMemory | micscif/micscif_rma_dma.c:902-1023 | the processor copy and the aligned DMA copy leave the same memory |
| RmaEngine.BodyOrder | micscif/micscif_rma_dma.c:608-656 | without a tail the last piece is last exactly when it was split or is the only DMA piece |
| RmaQuery.QueryCovers | micscif/micscif_rma_list.c:208-255 | the windows of a successful query are a chain without gap that covers the range, as the copy engine needs it |
| RmaQuery.PageBehind | micscif/micscif_rma_list.c:514-553 | every page of the range has a page of memory behind it |
| Transfer.FindFirstChunk | host/micmem.c:90-111 | the chunk and the offset in it of a logical byte |
| Transfer.XferSingle | host/micmem.c:146-214 | the requests of one channel are one straight copy, each inside one chunk |
| Transfer.XferSingleFinish | host/micmem.c:113-144 | the last request completes the straight copy |
| Transfer.XferDual | host/micmem.c:272-367 | the requests of two channels are the same straight copy; they take the channels in turn by the number of their chunk, the last two the first and the second channel |
| Transfer.XferDualFinish | host/micmem.c:216-270 | the last two requests complete the straight copy |
| Transfer.DoXfer | host/micmem.c:369-398 | refuses exactly the ranges out of bounds and unknown flags, with the same copy for every channel choice; single and auto use only the first channel, dual takes both in turn and ends on both |
| Transfer.StraightUnambiguous | host/micmem.c:146-367 | disjoint chunks apart from the card range make the copy independent of order |
| Transfer.TransferDelivers | host/micmem.c:146-367 | whatever the order of arrival on one channel or two, every byte ends up where the straight copy puts it |
| Transfer.TransferKeeps | host/micmem.c:146-367 | no byte outside the destination changes |
| Transfer.ProgramDescriptors | dma/mic_dma_lib.c:674-735 | the descriptors cover the request exactly, in the least number of pieces of at most the maximum size |
| Transfer.MapRange | host/micmem.c:485-528 | the mapped chunks and their total length, which is the mapped length exactly when the range starts on a chunk boundary |
| Transfer.MappedFaithfully | host/micmem.c:485-528 | from a chunk boundary every mapped byte has the address of the pinned byte |
| Transfer.MappedInside | host/micmem.c:485-528 | each mapped chunk stays inside its own pinned chunk exactly when the range starts on a chunk boundary or its start and its length from the start of the chunk fit in the first chunk |
| Transfer.MappedRightExactly | host/micmem.c:485-528 | for pinned chunks that do not overlap, every byte asked for has its own address exactly when the range starts on a chunk boundary, or is no longer than its first chunk and lies in memory in one stretch |
| Transfer.MapSecondPage | host/micmem.c:509-512 | the second page of a chunk of two asked for, and two pages mapped |
| WindowList.RegistrationList.InsertWindow | micscif/micscif_rma_list.c:101-119 | the window goes behind every window with a smaller or equal offset |
| WindowList.RegistrationList.InsertTcw | micscif/micscif_rma_list.c:60-90 | the shortcut at the tail gives the place the full scan gives, and addresses stay sorted |
| WindowList.InsertKeepsOrder | micscif/micscif_rma_list.c:101-119 | inserting a window that overlaps none keeps the list ordered |
| WindowList.BuildList | micscif/micscif_rma_list.c:101-119 | disjoint windows inserted in any order give an ordered list of exactly those windows |
| WindowList.Query | micscif/micscif_rma_list.c:208-255 | partial, single and full queries succeed exactly when the bytes are covered with the protection, by one window, and up to a window end; every window found grants every access asked for; -EPERM exactly when the window holding the first byte not served lacks one, otherwise -ENXIO |
| WindowList.QueryRange | micscif/micscif_rma_list.c:208-255 | the scan over several windows |
| WindowList.QuerySingle | micscif/micscif_rma_list.c:208-255 | the scan for one window |
| WindowList.ProtectionTest | micscif/micscif_rma_list.c:225-226 | the masked comparison holds exactly when every access asked for is granted |
| WindowList.RegistrationList.Mmap | micscif/micscif_rma_list.c:496-580 | after a successful query every window counts exactly its pages in the range, or nothing changes |
| WindowList.RegistrationList.Remap | micscif/micscif_rma_list.c:514-553 | each page of the mapping is the next registered page; the traversal never meets the list head and its BUG_ON cannot fire |
| WindowList.RegistrationList.CountUp | micscif/micscif_rma_list.c:554-577 | the counting traversal reaches exactly the windows of the range |
| WindowList.RegistrationList.Munmap | micscif/micscif_rma_list.c:592-640 | counts go down by the pages unmapped and a window of the range whose count reaches zero is removed; its BUG_ON cannot fire |
| WindowList.WalkContinues | micscif/micscif_rma_list.c:496-640 | a window that does not finish the range is followed by another window of it |
| WindowList.UnmapStep | micscif/micscif_rma_list.c:592-640 | unmapping one remaining piece leaves the list with the other pieces mapped |
| WindowList.PieceCovered | micscif/micscif_rma_list.c:592-640 | a piece still mapped can still be found, whatever was unmapped before |
| WindowList.RestoredExactly | micscif/micscif_rma_list.c:496-640 | with nothing left mapped the list is the old one exactly when every window of the range had a count |
| WindowList.MapThenUnmap | micscif/micscif_rma_list.c:496-640 | a mapping and the unmapping of any partition of it in any order: no query fails, and if every count was positive the list is the same again |
| WindowList.RegistrationList.RecvUnregister | micscif/micscif_nodeqp.c:1555-1600 | the window named is found, gives up the reference it was made with, and leaves the list and is acknowledged exactly when none is left |
| WindowCounts.StepKeepsInv | micscif/micscif_rma_list.c:496-640 | every registration, mapping, splitting, unmapping and unregistration keeps counts balanced and positive and mappings served |
| WindowCounts.CountsStayPositive | micscif/micscif_rma.c:884 | over every run, the count of each window on the list is its own reference until it is unregistered and one for each mapped page, and is positive; every mapping can still be found |
| WindowCounts.RoundTripRestores | micscif/micscif_rma_list.c:496-640 | so in every state of every run a mapping and its unmapping give back the very list |
| CrashFile.ReadFromOldmem | host/vmcore.c:164-191 | exactly the bytes asked for, or an error exactly when a page of them cannot be copied |
| CrashFile.MapOffset | host/vmcore.c:199-217 | finds the element that holds an offset exactly when the offset lies in the tiled part |
| CrashFile.ReadVmcore | host/vmcore.c:222-291 | any read returns exactly the slice of the flat file, cut at its end, and moves the position by its length; -EINVAL exactly for a read that starts asking for card memory behind the last element, -EFAULT exactly when a page of card memory in it cannot be copied |
| CrashFile.ReadHeaders | host/vmcore.c:234-252 | the header part of a read |
| CrashFile.ReadMemory | host/vmcore.c:254-291 | the card memory part of a read, -EINVAL exactly behind the last element |
| CrashFile.ReadSegments | host/vmcore.c:262-291 | the loop terminates, empty segments included, with exactly the bytes of the flat file up to the request or the end |
| CrashFile.ReadsCompose | host/vmcore.c:222-291 | consecutive reads make one read |
| CrashFile.ReadTwice | host/vmcore.c:222-291 | two reads in a row return what one read of both lengths returns, and fail exactly when it does, once the size is the end of the file |
| CrashFile.FileIsMemory | host/vmcore.c:199-291 | a stretch of a segment in the file is that stretch of card memory |
| CrashHeaders.WalkNotes | host/vmcore.c:369-378 | the length of the notes up to the end or the first without a name |
| CrashHeaders.SpanOfNotes | host/vmcore.c:369-378 | on any laid out notes the walk spans exactly those notes |
| CrashHeaders.CoreHeaders.MergeNotes | host/vmcore.c:337-416 | one merged note header whose file and memory size are the length of all notes, followed by the headers after the first as many as there were notes; each note header becomes the element with its own card memory; an error exactly when a note section cannot be read |
| CrashHeaders.CoreHeaders.ProcessLoads | host/vmcore.c:502-537 | every loadable header becomes an element and is moved behind the ones before it |
| CrashHeaders.CoreHeaders.SetOffsets | host/vmcore.c:577-594 | the elements are laid end to end from the end of the headers |
| CrashHeaders.CoreHeaders.GetSize | host/vmcore.c:302-317 | headers and the sizes of all of them |
| CrashHeaders.CoreHeaders.Parse | host/vmcore.c:616-682 | the whole rewriting: table, list, tiling, and a size that is the end of the last element exactly when every kept header is loadable or empty |
| CrashHeaders.OffsetsAgree | host/vmcore.c:337-594 | the elements tile the file; the merged note covers exactly the note elements; every kept loadable header has the offset and size of its own element, and any other is unchanged |
| CrashHeaders.HeadersServeMemory | host/vmcore.c:222-594 | the dump file, read at the merged header, is the card memory of the notes of all note headers one after the other; read at a kept loadable header it is the memory that header described; nothing else in a kept header changes |
| CrashHeaders.NotesServed | host/vmcore.c:337-416 | where the note sections hold laid out records, the dump file at the merged header is the layout of all those records in order |
| CrashHeaders.MergedRecords | host/vmcore.c:337-416 | the notes of the headers joined are the layout of their records joined |
| CrashHeaders.NotesListed | host/vmcore.c:384-387 | the element of each note header has that header's card address and the span of its notes |
| CrashHeaders.SizeIsEnd | host/vmcore.c:302-317 | the computed size is the end of the last element exactly when every kept header is loadable or empty |
| CrashHeaders.NotesFirst | host/vmcore.c:403-412 | no note header survives in the merged table beside the merged one exactly when all notes came first |
| CrashHeaders.LoadsKept | host/vmcore.c:403-412 | every loadable header is kept exactly when none stood among the headers dropped |
| CrashHeaders.DumpReads | host/vmcore.c:222-317 | a parsed dump can be read, and no read of it misses the list exactly when every kept header is loadable or empty |
| CrashHeaders.SizeTooLarge | host/vmcore.c:302-317 | a header table whose computed size is past the last element |
| CrashHeaders.LoadDropped | host/vmcore.c:403-412 | a header table whose loadable header is dropped and whose note is kept |
| NodeMask.SetNodemaskBit | micscif/micscif_nm.c:428-441 | sets or clears one node and leaves every other as it was |
| NodeMask.GetNodemaskBit | micscif/micscif_nm.c:453-463 | non-zero exactly for the nodes in the mask |
| NodeGraph.GetActiveSet | micscif/micscif_nm.c:868-938 | the mask gains exactly the least set with the start node that is closed under disconnected dependencies on sleeping cards; on the matrix, a card that a member is disconnected from is in the set exactly when it is the start or in PC3 or PC6 |
| NodeGraph.ExpandActive | micscif/micscif_nm.c:912-929 | one node expanded, the search invariant kept |
| NodeGraph.GetMinimalDeactiveSet | micscif/micscif_nm.c:950-1025 | stops only for an active dependant of a popped node and otherwise adds exactly the least set closed under ready dependants, as entries of the matrix; mask and visited hold exactly the popped nodes; with an active dependant of the source it stops at once and returns 0 exactly when a ready dependant comes before it; with no ready dependant of the source a stop is reported |
| NodeGraph.ExpandReady | micscif/micscif_nm.c:990-1010 | one node expanded, or stopped at the first active dependant not visited |
| NodeGraph.PopAll | micscif/micscif_nm.c:1013-1022 | nodes left on the stack are unmarked and the status is overwritten |
| NodeGraph.Finished | micscif/micscif_nm.c:868-1025 | a search that ends has popped the least closed set |
| NodeGraph.ClosureExists | micscif/micscif_nm.c:868-1025 | there is a least closed set for every start node |
| NodeGraph.AbortsExactly | micscif/micscif_nm.c:950-1025 | after setup on a matrix without ready entries the search stops exactly when a node that is not a ready card, other than the source, actively depends on a node of the closure |
| NodeGraph.AbortReturnsZero | micscif/micscif_nm.c:1013-1022 | a search of a named matrix that stops and returns 0 |
| NodeGraph.ReadyAfterSetup | host/pm_pcstate.c:543-567 | after setup a card brings in exactly the ready cards that depended on it |
| NodeGraph.TeardownRestores | host/pm_pcstate.c:543-591 | teardown after setup restores the matrix exactly when no dependency between cards was ready before |
| NodeGraph.TeardownChanges | host/pm_pcstate.c:543-591 | a matrix that teardown after setup does not restore |
| NodeGraph.DependencyMatrix.SetNodedep | micscif/micscif_nm.c:695-703 | changes one entry, or nothing without a matrix |
| NodeGraph.DependencyMatrix.GetNodedep | micscif/micscif_nm.c:713-720 | the entry, or not dependent without a matrix |
| NodeGraph.DependencyMatrix.SetupDependency | host/pm_pcstate.c:543-567 | exactly the active dependencies of ready cards on cards become ready |
| NodeGraph.DependencyMatrix.TeardownDependency | host/pm_pcstate.c:577-591 | exactly the ready dependencies between cards become active |
| PowerProtocol.StepKeepsInv | host/pm_pcstate.c:602-1093 | every step of every thread keeps the invariant, exactly but for the grant after a timed out PC6 exit |
| PowerProtocol.RunKeepsInv | host/pm_pcstate.c:602-1093 | so does every interleaving without such a grant |
| PowerProtocol.NoHolderAsleep | include/mic_common.h:603-644 | for a card never lost, a count that is not IDLE is the number of holders, of the reference in flight and of the leaked ones, IDLE means none, and a card in PC3 or PC6 is IDLE |
| PowerProtocol.EntryIsTransaction | host/pm_pcstate.c:783-874 | under every interleaving, success leaves every card of the mask in PC3 with an IDLE count, and a reverted entry leaves none in PC3 |
| PowerProtocol.WakeKeeps | host/pm_pcstate.c:966-1031 | a wake-up keeps a card in order exactly when it is not a timed out PC6 exit with a reference |
| PowerProtocol.LeaksExactly | host/pm_pcstate.c:954-1062 | a reference is leaked exactly when an exit that granted it ends with an error or at a lost card |
| PowerProtocol.LeakedInRun | host/pm_pcstate.c:954-1062 | over every interleaving, the leaked references of a card are the exits that granted one and ended with an error |
| PowerProtocol.LostExactly | host/pm_pcstate.c:602-1037 | a step loses a card exactly when a revert fails to wake it from PC3 or its wake-up in an exit fails, and its count is then 0 |
| PowerProtocol.LostInRun | host/pm_pcstate.c:602-1037 | over every run the cards once lost are those that such a step lost |
| PowerRuns.HolderOfSleepingCard | host/pm_pcstate.c:496-499 | a run that ends with a holder of a card in PC6 |
| PowerRuns.LeakedReference | host/pm_pcstate.c:954-1062 | a run that ends with a count of 1 that nobody holds |
| PowerRuns.HolderOfLostCard | host/pm_pcstate.c:966-1001 | a run that ends with a caller told it holds a card that was lost |
| PowerManagement.PowerManager.constructor | host/pm_pcstate.c:602-1093 | the cards of the initial state of the protocol |
| PowerManagement.PowerManager.NodeDisconnect | host/pm_pcstate.c:647-682 | lets go exactly the masked cards up to the first that is offline, has a count other than 0 and IDLE, or meets a wake-up; counts of 0 become IDLE up to it, and that card is taken out of the mask; a run of protocol steps |
| PowerManagement.PowerManager.MarkCards | host/pm_pcstate.c:831-857 | marks the masked cards up to the first that is not ready |
| PowerManagement.PowerManager.RevertCards | host/pm_pcstate.c:602-637 | a masked card in PC3 that wakes is at PC0 with its count, one that does not is lost with count 0, no other card changes; an error exactly when the last wake-up failed |
| PowerManagement.PowerManager.EntryBody | host/pm_pcstate.c:806-860 | succeeds exactly when every masked card lets go and is ready, and then exactly those are in PC3 with an IDLE count; after a revert a card that had been put in PC3 is at PC0 if it woke and lost if not; a refusal only turned counts of 0 into IDLE up to the card that refused; other cards are not touched |
| PowerManagement.PowerManager.IdleEntry | host/pm_pcstate.c:783-874 | the same with the unlock path, which wakes the initiator after an error |
| PowerManagement.PowerManager.Pc3Entry | host/pm_pcstate.c:690-734 | a card at PC0 that is enabled becomes ready and goes through the entry transaction; any other is woken instead |
| PowerManagement.PowerManager.IdleExit | host/pm_pcstate.c:925-1062 | wakes exactly the cards of the activation set up to the first lost one: a card that woke is at PC0, one that failed is lost with count 0, a timed out PC6 exit stays in PC6, and only the card asked for gains a count; exactly the disconnected dependencies of the cards that left PC6 become active; the caller holds a reference exactly when it asked for one and the result is 0, and one granted in spite of an error is leaked |
| PowerManagement.PowerManager.ExitLoop | host/pm_pcstate.c:954-1037 | the same over a given mask, with an error exactly when a card was found lost or the last wake-up failed |
| PowerManagement.WakeCard | host/pm_pcstate.c:966-1031 | the switch on the idle state: at PC0 after a complete wake-up, in PC6 after a timed out PC6 exit, otherwise lost with count 0; a reference counts from IDLE as 1 and else adds 1 |
| PowerManagement.Reconnect | host/pm_pcstate.c:515-521 | the entries of the card's row that were disconnected are active, every other entry is the same |
| PowerManagement.PowerManager.GetReference | include/mic_common.h:603-623 | the caller is told it holds a reference exactly when the result is 0; a refusal without a wake-up leaves the cards as they were; a failed wake-up gives -ENODEV and may leave a leaked count and cards woken or lost |
| PowerManagement.ZeroForLostCard | host/pm_pcstate.c:966-1031 | a result of 0 for a card just lost exactly when no card of the set was lost before, it fails to wake, and the last card woken comes after it and wakes |
| PowerManagement.ZeroMeansAwake | host/pm_pcstate.c:966-1031 | otherwise a result of 0 means a card at PC0 with a count above 0, unless its PC6 exit timed out |
| PowerManagement.PowerManager.PutReference | include/mic_common.h:626-644 | gives up one reference; on a card never lost the count stays at or above 0 |
| PowerManagement.PowerManager.Pc6Entry | host/pm_pcstate.c:1064-1093 | only a card in PC3 goes to PC6 |
| PowerManagement.FollowsKeepsInv | host/pm_pcstate.c:602-1093 | calls in which no PC6 exit times out keep the invariant of the protocol |
| Ports.FindFirstIs | micscif/micscif_ports.c:225-237 | the lowest set bit of a word |
| Ports.ClearPort | micscif/micscif_ports.c:225-250 | clearing a bit takes exactly that port out of the free ports |
| Ports.SetPort | micscif/micscif_ports.c:252-256 | setting a bit adds exactly that port |
| Ports.LeastInWord | micscif/micscif_ports.c:225-237 | the lowest set bit of a word is its least free port |
| Ports.PortArray.constructor | micscif/micscif_ports.c:100-125 | callers see every port but 0 free |
| Ports.PortArray.Init | micscif/micscif_ports.c:260-281 | fills the array on first use without a change that callers can see |
| Ports.PortArray.Reserve | micscif/micscif_ports.c:290-318 | hands out exactly the port asked for if it is free, else 0 |
| Ports.PortArray.Get | micscif/micscif_ports.c:325-349 | hands out the least free port of the hinted word and moves the hint past empty words |
| Ports.PortArray.Put | micscif/micscif_ports.c:359-379 | frees the port and lowers the hint to it |
| Ports.StepSafe | micscif/micscif_ports.c:290-379 | one call: a port handed out was not held, is not 0, and from get_scif_port is the least free port from 1088 up |
| Ports.RunSafe | micscif/micscif_ports.c:260-379 | over every sequence of calls that releases only held ports: free and held ports split all ports but 0, no port is given twice, no port is free between the reserved words and the hint, and get_scif_port gives the least one |
| Ports.GetFails | micscif/micscif_ports.c:325-349 | with a port from 1088 up free, get_scif_port fails exactly when the hinted word is empty |
| Ports.TightStep | micscif/micscif_ports.c:290-379 | that happens exactly by reserving the last free port of the hinted word |
| Ports.UntightStep | micscif/micscif_ports.c:290-379 | from an empty hinted word, exactly the release of a port from 1088 up at or before that word makes the hint good again |
| Ports.LowReservationsAreHarmless | micscif/micscif_ports.c:290-379 | if callers reserve by number only below 1088, a failing get_scif_port means that every port from 1088 up is held |
| Ports.GetCanFailEarly | micscif/micscif_ports.c:290-349 | a sequence of calls after which get_scif_port fails with port 1152 free |

## Left out

- Hardware registers, voltage and clock sequences, interrupts, firmware boot: whether a card wakes is a parameter.
- `micscif_get_deactiveset`: the outer search repeats the minimal one and inherits its unreliable return code; the idle entry takes the mask it computed as given.
- `micscif_disconnect_node` and the console disconnect: messages to peers; only whether they succeed is modelled.
- Connect, accept, close and the node queue-pair messages: the peer's handlers are not part of this model.
- `micscif_query_tcw` and `micscif_rma_list_unregister`: a cache lookup that removes at most one window per call, and unregistration, which only sends messages and marks windows.
- Asynchronous deletion of unmapped windows: a window whose count reaches zero is removed at once.
- The card side of the driver, the `CONFIG_ML1OM` branches and the 32-bit ELF functions.
- DMA completion rings, callbacks, descriptor space and request errors; waiting for the second channel of a dual transfer, which polls with the first channel's cookie.
- Reading the ELF header and its sanity checks: the model starts from the decoded program headers.
- Memory allocation failures, and faults while copying to user memory, which lose the bytes already taken from the ring.
- Overflow of 64-bit offsets and sizes and of a reference count past 2^31 are not modelled; 32-bit wrap-around of ring offsets and of note sizes is.
- Statistics counters of the port allocator; sysfs, procfs, ioctls and poll.
- `micscif_rb_reset` and the unused in-place ring accessors.
- Stream.Send: a chunk whose notification failed stays in the ring but is not counted in the result; the `lost` result says how much.
- Stream.Recv: the same for a chunk taken from the ring.
- RmaEngine.DmaCopyAligned: requires a copy of at least one byte; an empty one is refused before the engine is reached (micscif/micscif_rma.c:1581).
- RmaEngine.DmaCopy: requires staged copies of at most the staging size, into which callers cut longer ones; how the buffer is allocated is left out.
- CrashHeaders.CoreHeaders.MergeNotes: requires at least one note header and note sections that the walk can read without leaving them; otherwise the code writes or reads outside its buffers.
- CrashHeaders.CoreHeaders.Parse: the same, for the merge it starts with.
- CrashHeaders.WalkNotes: requires sizes that keep the walk inside the section; otherwise the code reads outside its buffer.
- NodeGraph.AbortsExactly: stated for a card as the source and a fresh visited array, as the idle entry calls the search; GetMinimalDeactiveSet itself has neither restriction.
- PowerManagement.PowerManager.IdleEntry: setup and teardown of the dependency matrix are modelled in NodeGraph and not repeated.
- PowerProtocol.NoHolderAsleep: says nothing of a card that was lost once, whose count is reset while callers may still hold references.
- WindowList.RegistrationList.Mmap: the list is a sequence of links with a head position; pointer updates of the circular list are not modelled.
- WindowList.RegistrationList.Remap: registered page numbers stand for the page frames handed to remap_pfn_range; RmaQuery.PageBehind ties them to memory.
- Transfer.DoXfer: a range length that is not a page multiple is accepted, but a transfer that reaches into the part of it that was not mapped is left out; there the code indexes or requests past the mapped chunks.
- NodeGraph.GetActiveSet: without a matrix the code unwinds a stack head it never initialised; the model returns -EINVAL.
- NodeGraph.TeardownChanges: a ready entry before setup is left only by a setup that failed half way (host/pm_pcstate.c:551-553, 795-797), a path that SetupDependency does not have because every card has a context.
- NodeGraph.GetMinimalDeactiveSet: for a stop deeper in the search than the source the return code is given by the nodes left on the stack, not by the inputs alone.
- Closing an end point, which drops the references of its windows, is left out of the runs of WindowCounts.
