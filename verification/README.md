# Verified model of the node's DMA generators, FPGA manager and the server's dispatcher

The repository distributes work from a server to FPGA nodes.  This project models, in Dafny, the
three parts of it where correctness is hardest to see, and proves what they are for.

**DMA microcode** (`Pl330`, `Assembler`, `Transfer`, `Turns`, `MemoryCopy`, `Coalescing`,
`Closing`, `BufferCopy`, `SharedBytes`, `ZeroFill`, `Streams`, `RegisterSegments`, `QspiSegments`, `QspiLimits`,
`LongDivision`, `UartSegments`, `I2cSegments`, `Overrun`, `Requests`, `I2cCommands`, `I2cRead`, `I2cWrite`,
`Reach`, `Pacing`, `WatchedRuns`, `PacedRequests`, `PacedMasters`, `RequestLines`).  The functions in
`node/FPGAconfig/alt_dma.c` compile a request into a program for the DMA-330 controller.  `Pl330`
is that controller: its instructions after section 4.3 of ARM DDI 0424, with unaligned bursts, the
S and B forms, a byte MFIFO, memory, device registers, and a flat machine with two loop counters;
a lemma shows that the flat machine does what nested programs mean.  Each generator is a method that
appends to a program buffer of bounded size under a sticky status and is proved to write one
particular program.  The theorems then say what the controller does with that program: which
bytes move where, and that nothing else happens.  Proofs about loops run on two numbers, the
bytes fetched and the bytes delivered (`Transfer.Mark`), and are carried over to the whole state
once, in `Transfer.StateFollowsMarks`.  A store of more than the MFIFO holds is a fault of the
model, so a program that runs never does it.  Requests of devices are no part of that state: a
watcher (`Pacing`) follows the same run, counts them, and judges every flush, wait and register
access by them.

**The FPGA manager** (`FpgaManager`, `ImageStreams`).  `node/FPGAconfig/alt_fpga_manager.c` against arbitrary
hardware: what register reads yield and what the image stream delivers are unconstrained
functions, every access is logged, and the contracts are about the log.

**The server** (`Signalling`, `Dispatch`, `Sessions`, `Configuration`, `Messages`,
`Connections`).  The dispatcher is a transition system whose steps are what a coroutine does between
two waits; the handlers of a session are methods proved to take those steps.  Messages are bytes
in memory; a socket takes and gives bytes in pieces of any size.

Where the two directions of a transfer are the same function written twice with source and
destination exchanged, the model has one method with a `Direction`; the loops over segments, which
every request repeats, are one method with a `Generator`.

Inputs on which the code does not do what it is for, and where the exact conditions are:

* The overlap test of a copy lets one shared byte through.  `SharedBytes.AcceptedCopiesExactlyWhen`
  says when such a copy is right, `BufferCopy.CopiesExactlyWhen` for contiguous buffers.
* A register request computes its byte count in 32 bits.  `Requests.RegisterRequestComplete` says when
  that is the count asked for.
* UART and I2C segments are divided into bursts as 32-bit signed numbers.
  `LongDivision.CoveredExactlyWhen` says for which sizes that is right, and
  `Requests.SegmentMovedExactlyWhen` what it means for the run.
* The flash controller can be set to requests that the generator does not serve.
  `QspiLimits.QspiMovesExactlyWhen` says which segments are moved, and `Reach.QspiSegmentJumps`
  which loops DMALPEND can close.  The word that aligns a segment goes under one single request even
  if that is for less; `PacedRequests.WithinRequestExactlyWhen` says when it is.
* The last partial word of an FPGA image is taken from the front of the buffer.
  `FpgaManager.TailExactlyWhen` says when that makes no difference, and
  `ImageStreams.StreamExactlyWhen` when none of the chunks of a stream does.
* After a failed send, a coroutine can be signalled for a node that another one takes.
  `Dispatch.StealFreeRunsAreSafe` and `Dispatch.StealingRunsPopEmpty` say in which runs.

## Model

| member | source | states |
|---|---|---|
| `Pl330.FlatRunsStructured` | node/FPGAconfig/alt_dma.c:1123-1401 | the controller, stepping through the flat code of a generator with its two loop counters, does what the nested program means, fault for fault, and comes out behind it with its counters as they were |
| `Pl330.FlatRunsLoop` | node/FPGAconfig/alt_dma.c:1240-1268 | the same for a loop that has some turns left: DMALP and DMALPEND repeat exactly the body between them |
| `Pl330.ProgramHalts` | node/FPGAconfig/alt_dma.c:1568-1572 | code closed by DMAEND halts in the state that its nested meaning gives |
| `Pl330.AppendText` | node/FPGAconfig/alt_dma.c:1123-1401 | appending instruction by instruction writes the program in its order |
| `Pl330.AccessesAt` | node/FPGAconfig/alt_dma.c:1908-2080 | the k-th access of a stream carries its k-th element |
| `Pl330.AccessCount` | node/FPGAconfig/alt_dma.c:1908-2080 | there are exactly as many accesses as whole elements |
| `Assembler.Program.Emit` | node/FPGAconfig/alt_dma.c:1147-1155 | one more instruction, or the buffer overflows; after a failure nothing more is written |
| `Assembler.Program.Forgo` | node/FPGAconfig/alt_dma.c:1251-1257 | after a failure the rest of a program is not generated, and an overflow is reported only for programs that do not fit |
| `Transfer.StateFollowsMarks` | node/FPGAconfig/alt_dma.c:1123-1401 | whatever a program does to the numbers of bytes fetched and delivered, the controller does to memory, registers and MFIFO with the right bytes |
| `Transfer.CopyIntact` | node/FPGAconfig/alt_dma.c:1123-1401 | a copy that runs upwards overwrites no source byte it has still to fetch |
| `Transfer.LoadAdvances` | node/FPGAconfig/alt_dma.c:1147-1200 | a load, unaligned or not, from memory or from a register, appends exactly the next bytes to the MFIFO |
| `Transfer.StoreAdvances` | node/FPGAconfig/alt_dma.c:1147-1200 | a store takes exactly the next bytes out of the MFIFO to memory or to a register |
| `Transfer.ZerosAdvance` | node/FPGAconfig/alt_dma.c:1617-1640 | DMASTZ writes exactly the next zeros |
| `Transfer.ChunkedMoves` | node/FPGAconfig/alt_dma.c:1240-1268 | however a count of turns is cut into loops of at most 256, all of them happen, once |
| `Transfer.ChunkedSteps` | node/FPGAconfig/alt_dma.c:1240-1268 | the same for turns that do not leave the MFIFO empty |
| `MemoryCopy.MemoryToMemorySegment` | node/FPGAconfig/alt_dma.c:1123-1401 | generates the program of one pair of segments, or reports that it does not fit |
| `MemoryCopy.EmitBursts` | node/FPGAconfig/alt_dma.c:1240-1268 | the loops of 16-beat bursts, at most 256 turns each |
| `MemoryCopy.CorrectionIsResidue` | node/FPGAconfig/alt_dma.c:1314-1355 | the computed correction is what whole bursts leave in the MFIFO, and is never zero when it is used |
| `MemoryCopy.BurstPhaseMarks` | node/FPGAconfig/alt_dma.c:1196-1312 | the bursts fetch everything they are for and leave exactly the residue behind |
| `MemoryCopy.CopyPhasesMarks` | node/FPGAconfig/alt_dma.c:1123-1401 | for every alignment of source and destination, everything is fetched and delivered and the MFIFO ends empty |
| `MemoryCopy.CopySegmentWellFormed` | node/FPGAconfig/alt_dma.c:1123-1401 | loops of 1 to 256 turns, nested once at most, and bursts of 1 to 16 beats |
| `MemoryCopy.SegmentCopies` | node/FPGAconfig/alt_dma.c:1123-1401 | running the program of a segment copies exactly its bytes and changes no other, for every alignment and every size, if the destination does not begin inside the rest of the source |
| `MemoryCopy.SharedByteCopies` | node/FPGAconfig/alt_dma.c:1123-1401 | what running it does when the two sides share exactly one byte |
| `Coalescing.Coalescer.Begin` | node/FPGAconfig/alt_dma.c:250-264 | a walk begins, or the buffer is refused because it leaves the address space |
| `Coalescing.Coalescer.Next` | node/FPGAconfig/alt_dma.c:266-282 | the next segment, or an error when there is none |
| `Coalescing.Coalescer.End` | node/FPGAconfig/alt_dma.c:284-294 | succeeds exactly when every segment has been taken |
| `Coalescing.OvershootsExactly` | node/FPGAconfig/alt_dma.c:252-255 | what the 32-bit test comes to; an empty buffer passes it only at address zero |
| `Coalescing.MovedInSteps` | node/FPGAconfig/alt_dma.c:1471-1541 | moving a first piece and then the rest moves the whole, byte by byte |
| `Coalescing.GatherAt` | node/FPGAconfig/alt_dma.c:2188-2221 | byte k of a gathered buffer is the byte at its physical address |
| `Coalescing.ScatterAt` | node/FPGAconfig/alt_dma.c:2548-2580 | byte k scattered over segments that do not overlap is found at its physical address |
| `Coalescing.ScatterKeeps` | node/FPGAconfig/alt_dma.c:2548-2580 | scattering changes nothing outside the segments |
| `BufferCopy.EmitPairs` | node/FPGAconfig/alt_dma.c:1471-1541 | pairs off both lists of segments; when it succeeds both are used up |
| `BufferCopy.PieceLeaves` | node/FPGAconfig/alt_dma.c:1499-1541 | a piece stays inside one segment on each side, and what is left still covers equal sizes, so neither list runs out first |
| `BufferCopy.MemoryToMemory` | node/FPGAconfig/alt_dma.c:1403-1586 | refused, in error, too long, or successful, each exactly when; on success the buffer holds the program followed by DMAEND, and is empty otherwise |
| `BufferCopy.CopyEnds` | node/FPGAconfig/alt_dma.c:1555-1572 | the program of a copy ends in DMAWMB, the event and DMAEND, or without an event in DMAEND alone |
| `BufferCopy.PairsRun` | node/FPGAconfig/alt_dma.c:1471-1541 | byte i of the source reaches byte i of the destination, however the two are cut into segments, and nothing else changes |
| `BufferCopy.CopyHalts` | node/FPGAconfig/alt_dma.c:1403-1586 | the controller, running a whole copy request, halts with the buffer copied, nothing else changed, the MFIFO empty, and only the event sent |
| `BufferCopy.PairProgramWellFormed` | node/FPGAconfig/alt_dma.c:1471-1541 | loops match and nest within the two counters, whatever the segments |
| `BufferCopy.GuardSeesTwoSharedBytes` | node/FPGAconfig/alt_dma.c:1442-1455 | the overlap test refuses exactly the buffers that share two bytes or more |
| `BufferCopy.CopiesExactlyWhen` | node/FPGAconfig/alt_dma.c:1403-1586 | between contiguous buffers that pass the test, the program copies if and only if the one byte they may share is not spoilt |
| `BufferCopy.SharedByteCounterexample` | node/FPGAconfig/alt_dma.c:1442-1455 | 129 bytes from 0 to 128 pass the test and are not copied |
| `SharedBytes.TestLeavesEnds` | node/FPGAconfig/alt_dma.c:1442-1455 | whatever one-to-one translation there is, buffers that pass the test share no physical byte but the first of the one and the last of the other |
| `SharedBytes.SegmentedCopiesExactlyWhen` | node/FPGAconfig/alt_dma.c:1457-1551 | however such buffers are cut into segments, the program copies if and only if the shared end is not spoilt: not overwritten, by an earlier piece or load, with a different byte before it is fetched |
| `SharedBytes.AcceptedCopiesExactlyWhen` | node/FPGAconfig/alt_dma.c:1403-1586 | so for every copy that the test lets through, under every one-to-one translation |
| `Closing.Finish` | node/FPGAconfig/alt_dma.c:1555-1582 | event, DMAEND, and an empty buffer unless everything fitted |
| `Closing.RequestHalts` | node/FPGAconfig/alt_dma.c:1555-1572 | from what the body of a request does to what the whole program does |
| `Closing.LastInstructions` | node/FPGAconfig/alt_dma.c:1555-1572 | the event stands directly in front of DMAEND, and in a copy DMAWMB directly in front of it |
| `ZeroFill.ZeroToMemorySegment` | node/FPGAconfig/alt_dma.c:1589-1801 | generates the program of one segment to be zeroed |
| `ZeroFill.EmitNests` | node/FPGAconfig/alt_dma.c:1685-1726 | the loop nests of up to 256 times 256 bursts |
| `ZeroFill.FewNests` | node/FPGAconfig/alt_dma.c:1685-1726 | the code written for n bursts holds at most n / 65536 + 2 stores, one for each nest, and fewer for small or round counts; and five instructions for each at most |
| `ZeroFill.NestsMoves` | node/FPGAconfig/alt_dma.c:1685-1726 | the nests store every burst once: nothing lost, nothing repeated |
| `ZeroFill.SegmentZeroed` | node/FPGAconfig/alt_dma.c:1589-1801 | exactly the segment is zeroed |
| `ZeroFill.ZeroSegmentWellFormed` | node/FPGAconfig/alt_dma.c:1589-1801 | the nests fit the two loop counters and bursts have legal lengths |
| `Turns.EmitTurns` | node/FPGAconfig/alt_dma.c:4660-4700 | loops of at most 256 turns of wait, load and store, that wait on the line they are given (PacedRequests.RequestKeepsPace) |
| `Turns.EmitTurnsBy256` | node/FPGAconfig/alt_dma.c:1964-2008 | loops of at most 256 loops of 256 turns |
| `Turns.TurnMoves` | node/FPGAconfig/alt_dma.c:1908-2080 | a turn whose loads and stores agree moves that many bytes and leaves the MFIFO empty |
| `Turns.NestedMoves` | node/FPGAconfig/alt_dma.c:1944-2036 | the split into 256 times 256 and a rest loses and repeats nothing |
| `Streams.SegmentStreams` | node/FPGAconfig/alt_dma.c:1908-2080 | from fetched and delivered counts to bytes: a segment goes to the register, or what the register yields goes to the segment |
| `RegisterSegments.EmitRegisterSegment` | node/FPGAconfig/alt_dma.c:1908-2080 | generates the program of one segment to or from a register; the other direction is alt_dma.c:2262-2439 |
| `RegisterSegments.ElementsCarry` | node/FPGAconfig/alt_dma.c:1908-2080 | 16, 256 times 16, 256 times 256 times 16 and the rest together move exactly the elements, for every width |
| `RegisterSegments.RegisterSegmentWellFormed` | node/FPGAconfig/alt_dma.c:2262-2439 | loops fit the two counters and bursts have legal lengths |
| `QspiSegments.EmitQspiSegment` | node/FPGAconfig/alt_dma.c:3660-3994 | refuses what is not whole words or not whole single requests, and otherwise generates the program, for all sizes of requests that the controller may be set to; the other direction is alt_dma.c:4069-4541 |
| `QspiSegments.EmitPieces` | node/FPGAconfig/alt_dma.c:3757-3850 | a number of requests of any power of two bytes; the same for single requests at alt_dma.c:3876-3992 |
| `QspiSegments.PieceSplits` | node/FPGAconfig/alt_dma.c:3757-3786 | the instructions for the memory side of a request add up to the request, and its words do unless it is less than a word |
| `QspiSegments.QspiPhasesCarry` | node/FPGAconfig/alt_dma.c:4069-4541 | aligning word, bursts, nested bursts and single requests move what they come to, in order, when all requests load as much as they store |
| `QspiSegments.MovedIsAll` | node/FPGAconfig/alt_dma.c:3693-3743 | that is the whole segment if and only if single requests are of a word at most, or the segment begins 8-byte aligned |
| `QspiSegments.FourBytesSplit` | node/FPGAconfig/alt_dma.c:3693-3743 | with single requests of four bytes every accepted segment is moved whole, whatever the bursts |
| `QspiSegments.QspiSegmentWellFormed` | node/FPGAconfig/alt_dma.c:4069-4541 | loops fit the two counters and bursts have legal lengths |
| `QspiLimits.UnsoundLeaves` | node/FPGAconfig/alt_dma.c:3876-3992 | bursts of less than a word, and single requests of less than a word or more than eight bytes, do not run through or leave bytes in the MFIFO |
| `QspiLimits.QspiMovesExactlyWhen` | node/FPGAconfig/alt_dma.c:3660-3994 | an accepted segment is moved whole if and only if no such request is made for it and none is missing behind the aligning word, in both directions |
| `QspiLimits.TwoByteRequests` | node/FPGAconfig/alt_dma.c:3876-3992 | one aligned word in single requests of two bytes is accepted and not moved |
| `LongDivision.NaturalBelowSign` | node/FPGAconfig/alt_dma.c:4931-4933 | quotient and remainder of the 32-bit signed division are the natural ones if and only if the size is below 2^31 |
| `LongDivision.CoveredExactlyWhen` | node/FPGAconfig/alt_dma.c:2750-2752 | its parts come to the size if and only if the size is below 2^31, or within one burst of 2^32; otherwise to more |
| `LongDivision.TwoGigabytes` | node/FPGAconfig/alt_dma.c:4931-4933 | 2^31 bytes in bursts of 16 give 4160749568 bursts instead of 134217728 |
| `UartSegments.EmitUartSegment` | node/FPGAconfig/alt_dma.c:4877-4967 | generates the program of one segment, bursts first, with the counts that the 32-bit division gives; the other direction is alt_dma.c:5315-5405 |
| `UartSegments.EmitUartBursts` | node/FPGAconfig/alt_dma.c:4705-4806 | loops of bursts, each a loop of sixteens, with conditional ends; on which line and for how much they wait is in PacedRequests.RequestKeepsPace |
| `UartSegments.SixteenMoves` | node/FPGAconfig/alt_dma.c:4777-4794 | under a granted burst the conditional forms do move sixteen bytes |
| `UartSegments.UartBurstMoves` | node/FPGAconfig/alt_dma.c:4743-4803 | a burst moves its size, though the end of its inner loop is conditional |
| `UartSegments.UartPhasesCarry` | node/FPGAconfig/alt_dma.c:4877-4967 | bursts and single bytes off one setting of the address move as many bytes as the division made of the segment, in order, in both directions |
| `UartSegments.UartCoversExactlyWhen` | node/FPGAconfig/alt_dma.c:4929-4933 | that is the segment if and only if there are no bursts, or its size is below 2^31 or within one burst of 2^32 |
| `UartSegments.RoundedIsBurstSize` | node/FPGAconfig/alt_dma.c:4985-5040 | of all FIFO sizes and trigger levels, only size zero less two leads to a burst that the inner loop cannot count; every other burst is the trigger level, or less than that by fewer than sixteen |
| `UartSegments.TxLevelExactlyWhen` | node/FPGAconfig/alt_dma.c:5000-5020 | the transmit level is the most that there is always room for when the FIFO asks, for every trigger setting |
| `UartSegments.RxLevelExactlyWhen` | node/FPGAconfig/alt_dma.c:5438-5457 | the receive level is the most that has always been received when the FIFO asks |
| `UartSegments.UartSegmentWellFormed` | node/FPGAconfig/alt_dma.c:5149-5250 | loops fit the two counters and bursts have legal lengths |
| `I2cSegments.EmitI2cSegment` | node/FPGAconfig/alt_dma.c:2724-2901 | generates the program of one segment by threshold bursts and single bytes, with the counts that the 32-bit division gives; that a burst is the threshold, up to sixteen, is in PacedRequests.RequestKeepsPace; the other direction is alt_dma.c:3135-3313 |
| `I2cSegments.I2cPhasesCarry` | node/FPGAconfig/alt_dma.c:3135-3313 | whatever the threshold, as many bytes are moved as the division made of the segment, in order, in both directions |
| `I2cSegments.I2cCoversExactlyWhen` | node/FPGAconfig/alt_dma.c:3150-3168 | that is the segment if and only if there are no bursts, or its size is below 2^31 or within one burst of 2^32 |
| `Requests.EmitSegments` | node/FPGAconfig/alt_dma.c:1842-1871 | every segment in order, or an error when one is refused; when it succeeds the walk is at its end |
| `Requests.EmitBuffer` | node/FPGAconfig/alt_dma.c:2172-2226 | register address, segments, and the end of the walk |
| `Requests.ZeroToMemory` | node/FPGAconfig/alt_dma.c:1803-1906 | the outcome of a request to zero a buffer, and the program |
| `Requests.RegisterRequest` | node/FPGAconfig/alt_dma.c:2082-2260 | refused arguments, spelled out, an overshooting buffer, a program that does not fit, or the program; the other direction is alt_dma.c:2441-2619 |
| `Requests.RegisterRequestComplete` | node/FPGAconfig/alt_dma.c:2176-2182 | the segments hold the elements asked for if and only if the 32-bit byte count does not overflow |
| `Requests.RegisterRequestWraps` | node/FPGAconfig/alt_dma.c:2176-2182 | 0x40000001 words are accepted, and one is moved |
| `Requests.PeripheralRequest` | node/FPGAconfig/alt_dma.c:5508-5617 | the outcome of a request for flash, UART or I2C slave and its program; which lines the program waits on is in RequestLines.BufferNames and PacedRequests.RequestKeepsPace; the other direction is alt_dma.c:5619-5728 |
| `Requests.AcceptedExactlyWhen` | node/FPGAconfig/alt_dma.c:3693-3743 | only flash segments are refused: those that do not begin and end at a word, or are not a whole number of single requests |
| `Overrun.RunCounts` | node/FPGAconfig/alt_dma.c:4622-4967 | a run of a byte stream that gets through has made exactly the accesses that its program counts, whatever is in memory |
| `Overrun.OtherLengthFails` | node/FPGAconfig/alt_dma.c:4877-4967 | a program that moves another number of bytes than the segment has does not move the segment, in any state |
| `Requests.SegmentMovedExactlyWhen` | node/FPGAconfig/alt_dma.c:1908-5405 | a segment that is not refused is moved whole, in order, if and only if its generator divides it right, for every device and in every state that has room for the segment |
| `Requests.BufferSent` | node/FPGAconfig/alt_dma.c:2188-2221 | a whole buffer goes to the register in order, for every device and every segmentation that is aligned and divided right |
| `Requests.BufferReceived` | node/FPGAconfig/alt_dma.c:2548-2580 | what the register yields fills the whole buffer in order, and nothing else changes |
| `Requests.ZeroHalts` | node/FPGAconfig/alt_dma.c:1803-1906 | the controller, running a whole request, zeroes exactly the buffer |
| `Requests.SendHalts` | node/FPGAconfig/alt_dma.c:2082-2260 | the controller, running a whole request, sends exactly the buffer, in as many accesses as it has elements, and changes no memory |
| `Requests.ReceiveHalts` | node/FPGAconfig/alt_dma.c:2441-2619 | the controller, running a whole request, reads exactly as much as the buffer holds, in as many accesses as it has elements, and stores it there |
| `Requests.RegisterElementsSent` | node/FPGAconfig/alt_dma.c:2082-2260 | a request for `count` elements whose byte count fits: the device sees exactly `count` writes, the k-th of element k of the buffer, and then the event |
| `Requests.RegisterElementsReceived` | node/FPGAconfig/alt_dma.c:2441-2619 | a request for `count` elements whose byte count fits: exactly `count` reads, the k-th of the k-th element that the device yields |
| `Requests.ElementSent` | node/FPGAconfig/alt_dma.c:2082-2260 | element k as the device sees it is element k of the buffer, at its physical addresses |
| `Requests.ByteReceived` | node/FPGAconfig/alt_dma.c:2441-2619 | byte k read is at the physical address of byte k, and everything outside the buffer is as it was |
| `Requests.EachWellFormed` | node/FPGAconfig/alt_dma.c:1803-2619 | every program of every request is well formed for the controller |
| `Pacing.TurnPaced` | node/FPGAconfig/alt_dma.c:4677-4700 | a turn flushes its line, waits on it, and makes exactly the accesses of the request that is granted, under its type and in its direction |
| `Pacing.ChunkedPaced` | node/FPGAconfig/alt_dma.c:4660-4700 | so do loops of turns, and they ask once for every turn, also when their ends are conditional |
| `Pacing.NestedPaced` | node/FPGAconfig/alt_dma.c:4230-4340 | and loops of 256 times 256 turns and a rest |
| `WatchedRuns.FlatWatched` | node/FPGAconfig/alt_dma.c:2637-5405 | what a watcher of the nested program sees is what a watcher of every instruction of the flat machine sees |
| `PacedRequests.UartBurstPaced` | node/FPGAconfig/alt_dma.c:4759-4799 | the sixteens of a UART burst come to exactly the one request that it waits for |
| `PacedRequests.I2cPhasesPaced` | node/FPGAconfig/alt_dma.c:2724-2901 | I2C bursts and single bytes are each under their own request |
| `PacedRequests.QspiPhasesPaced` | node/FPGAconfig/alt_dma.c:4069-4541 | so are the aligning word, the bursts and the single requests of the flash |
| `PacedRequests.RequestKeepsPace` | node/FPGAconfig/alt_dma.c:2637-5405 | over the whole run of a flash, UART or I2C request, up to the halt: every register access is under a request of the line of the device, of the type of the access; each request is used for exactly what it is for, I2C bursts for the threshold up to sixteen; and as many requests of each type are waited for as the division of the segments gives |
| `PacedRequests.WithinRequestExactlyWhen` | node/FPGAconfig/alt_dma.c:3708-3760 | what is accessed under a single request of the flash is within what the request is for if and only if that is a word at least |
| `PacedRequests.AligningWordExceeds` | node/FPGAconfig/alt_dma.c:3708-3760 | twelve bytes from address 4 in single requests of one byte are all moved, the first four under one request for one byte |
| `RequestLines.CodeNames` | node/FPGAconfig/alt_dma.c:2637-5405 | what is said of the lines that a program names holds for every instruction of its code |
| `RequestLines.BufferNames` | node/FPGAconfig/alt_dma.c:2637-5405 | every DMAFLUSHP and DMAWFP of a request names the line of its device; zeroing and register requests have none |
| `RequestLines.ReadMasterNames` | node/FPGAconfig/alt_dma.c:3383-3614 | those of a master read name the receive line and the one below it |
| `RequestLines.WriteMasterNames` | node/FPGAconfig/alt_dma.c:2972-3091 | those of a master write name one line |
| `PacedMasters.CustomPaced` | node/FPGAconfig/alt_dma.c:2637-2722 | every command word goes out under a single request of its own |
| `PacedMasters.ReadKeepsPace` | node/FPGAconfig/alt_dma.c:3383-3614 | over the whole run of a master read: each of the `size` requests for a byte is under a single request of the line below the receive line, and every byte is read under requests of the receive line, used up |
| `PacedMasters.WriteKeepsPace` | node/FPGAconfig/alt_dma.c:2972-3091 | over the whole run of a master write: all of it is under requests of one line, used up |
| `I2cCommands.EmitCustom` | node/FPGAconfig/alt_dma.c:2637-2722 | a command word, some number of times, with the registers set only the first time |
| `I2cCommands.WordIsCommand` | node/FPGAconfig/alt_dma.c:2993-3040 | the word of a command is what the controller takes for that command, reads included |
| `I2cCommands.CustomRuns` | node/FPGAconfig/alt_dma.c:2637-2722 | the device sees that word exactly that many times, also when the registers are left from before |
| `I2cRead.EmitPrefill` | node/FPGAconfig/alt_dma.c:3438-3523 | the requests that fill the FIFO: one alone, all of them, or the first ones |
| `I2cRead.EmitRefill` | node/FPGAconfig/alt_dma.c:3550-3598 | half a FIFO of further requests, the very last one apart |
| `I2cRead.EmitRounds` | node/FPGAconfig/alt_dma.c:3525-3600 | reads and refills in turn until everything has been asked for and read |
| `I2cRead.ReadRequest` | node/FPGAconfig/alt_dma.c:3383-3614 | the outcome of a request to read as master, the program, and the scratch buffer |
| `I2cRead.RoundRuns` | node/FPGAconfig/alt_dma.c:3531-3600 | one round keeps the window full and inside the FIFO |
| `I2cRead.ReadMasterHalts` | node/FPGAconfig/alt_dma.c:3383-3614 | exactly `size` words to the data register, each with the read bit, RESTART in the first and STOP in the last only, if wanted; the FIFO filled first, and then read and refilled by halves; never more outstanding than it holds, never a byte read before it was asked for; byte k stored at byte k of the buffer |
| `I2cWrite.EmitWriteMaster` | node/FPGAconfig/alt_dma.c:2972-3091 | the program and the scratch buffer for a write as master |
| `I2cWrite.WriteRequest` | node/FPGAconfig/alt_dma.c:2972-3091 | the outcome of a request to write as master |
| `I2cWrite.ScratchSettles` | node/FPGAconfig/alt_dma.c:2993-3040 | the scratch buffer as the generator fills it is the one that the program is proved for |
| `I2cWrite.WriteMasterHalts` | node/FPGAconfig/alt_dma.c:2972-3091 | the bus sees exactly the bytes in order, RESTART on the first only and STOP on the last only, in the bits that they have in a command word, also when these two are all there is |
| `Reach.SizeOfCode` | node/FPGAconfig/alt_dma.c:1123-1401 | the bytes that the code of a program takes, loop by loop |
| `Reach.PairProgramJumps` | node/FPGAconfig/alt_dma.c:1457-1551 | every loop end of a copy reaches back to the beginning of its loop |
| `Reach.BufferJumps` | node/FPGAconfig/alt_dma.c:1803-5405 | so does every loop end of every other request, except of flash requests of 1024 bytes or more when a segment takes several of them |
| `Reach.QspiSegmentJumps` | node/FPGAconfig/alt_dma.c:3820-3992 | for a flash segment, if and only if |
| `Reach.LongBursts` | node/FPGAconfig/alt_dma.c:3757-3874 | two bursts of 1024 bytes are accepted, and their loop cannot be closed |
| `Reach.ReadMasterJumps` | node/FPGAconfig/alt_dma.c:3383-3614 | every loop end of a master read |
| `Reach.WriteMasterJumps` | node/FPGAconfig/alt_dma.c:2972-3091 | every loop end of a master write |
| `Signalling.Queue.Push` | server/Queue.hpp:37-41 | the item goes to the back, and whoever has waited longest is signalled |
| `Signalling.Queue.Pop` | server/Queue.hpp:43-48 | the front is taken |
| `Signalling.Queue.AsyncPop` | server/Queue.hpp:52-57 | takes the front at once, or begins to wait |
| `Signalling.Queue.Resume` | server/Queue.hpp:57-60 | a signalled consumer takes the front without looking |
| `Signalling.Counter.Incr` | server/Counter.hpp:35-41 | one more, modulo 32 bits, and all who wait are signalled |
| `Signalling.Counter.Decr` | server/Counter.hpp:43-53 | one less but never below zero; nobody is left waiting unsignalled at zero |
| `Signalling.Counter.AsyncWaitZero` | server/Counter.hpp:60-67 | through exactly at zero |
| `Signalling.Counter.Resume` | server/Counter.hpp:62-75 | a signalled waiter looks again, and is through exactly at zero |
| `Sessions.User.UserInput` | server/User_Queue.hpp:217-248 | an accepted input is counted, in 32 bits, and dispatched |
| `Sessions.User.Dispatch` | server/User_Queue.hpp:284-294 | an input takes the first ready node, or its coroutine waits for one |
| `Sessions.User.Resumed` | server/User_Queue.hpp:289-294 | a signalled coroutine takes the node at the front |
| `Sessions.User.SendCompleted` | server/User_Queue.hpp:296-316 | the node is ready again, behind the others |
| `Sessions.User.SendFailed` | server/User_Queue.hpp:303-308 | the node is dropped and its input dispatched again |
| `Sessions.User.ResultReceived` | server/User_Queue.hpp:318-356 | a result is held by its receiver until it is forwarded; the counter does not change |
| `Sessions.User.ResultLost` | server/User_Queue.hpp:364-369 | a result that cannot be forwarded is lost; the counter does not change |
| `Sessions.User.ResultForwarded` | server/User_Queue.hpp:358-371 | a forwarded result is counted off |
| `Sessions.User.StartReceivers` | server/User_Queue.hpp:197-223 | every ready node gets a receiver, which is counted, and keeps its place |
| `Sessions.User.ReceiverStopped` | server/User_Queue.hpp:207-215 | a receiver that stops is counted off, and whoever waits for that looks again |
| `Dispatch.RunKeepsInv` | server/User_Queue.hpp:195-373 | in every reachable state, failed sends included: nodes and inputs accounted for, counter right, no wakeup lost |
| `Dispatch.NextKeepsNodes` | server/User_Queue.hpp:284-316 | no step loses or doubles a node |
| `Dispatch.NextKeepsHolders` | server/User_Queue.hpp:284-316 | every input not yet at a node has exactly one holder |
| `Dispatch.OnePlace` | server/User_Queue.hpp:284-316 | a configured node is ready, written to, completing or dropped, and only one of these |
| `Dispatch.NoTwoWrites` | server/User_Queue.hpp:296-316 | no connection has two writes in flight, and no ready or dropped node has one |
| `Dispatch.CounterInRuns` | server/User_Queue.hpp:244-250 | the counter is inputs accepted less results forwarded; zero exactly when all are answered; forwarding never finds it at zero |
| `Dispatch.AnsweredBeforeSendCompletes` | server/User_Queue.hpp:296-316 | all answered while a send is still completing: a run in which that happens |
| `Dispatch.NextKeepsWakeups` | server/Queue.hpp:37-60 | while a coroutine waits unsignalled, every ready node has a signalled one to take it |
| `Dispatch.StuckOnlyWithoutNodes` | server/Queue.hpp:37-60 | an input is left waiting, with nothing under way that could change it, only when every node has been dropped |
| `Dispatch.StealFreeRunsAreSafe` | server/Queue.hpp:52-60 | in a run in which no coroutine takes a node meant for a signalled one, whatever may run next finds a node |
| `Dispatch.StealingRunsPopEmpty` | server/Queue.hpp:57-60 | in any other run, the scheduler could have gone on so that a signalled coroutine faces an empty queue |
| `Dispatch.NoFailuresNoSteals` | server/User_Queue.hpp:284-316 | a run without a failed send is of the first kind |
| `Dispatch.NeverPopsEmpty` | server/Queue.hpp:52-60 | as long as no send has failed, every signalled coroutine finds a node |
| `Dispatch.SafeUntilStolen` | server/Queue.hpp:52-60 | that ends exactly with a step that takes a node meant for a signalled coroutine |
| `Dispatch.UnsafePopsEmpty` | server/Queue.hpp:57-60 | after it, and only then, running the signalled coroutines makes one pop an empty queue |
| `Dispatch.FailedSendPopsEmpty` | server/User_Queue.hpp:303-308 | a run with one failed send that does so |
| `Dispatch.BoundedBypass` | server/Queue.hpp:37-48 | first in, first out in all runs: each node ahead is dispatched exactly once before the node behind them, and in order |
| `Configuration.Configurator.Contact` | server/User_Queue.hpp:110-137 | every node in the queue is contacted once |
| `Configuration.Configurator.NodeAnswered` | server/User_Queue.hpp:121-136 | a node that answers with success is ready; every answer is counted off |
| `Configuration.Configurator.Wait` | server/User_Queue.hpp:141-142 | the wait is over exactly when no answer is outstanding |
| `Configuration.ConfiguredExactly` | server/User_Queue.hpp:99-182 | when it is over, each node was contacted and answered once, and the ready queue is exactly the nodes that answered with success, without duplicates |
| `Messages.ValidWhenItFits` | server/Message.hpp:177-191 | a message with room for its payload is valid exactly when the payload is at most 2^32 - 9 |
| `Messages.AcceptedExactlyWhen` | server/Message.hpp:125-130 | which bytes are a message: type 1, 2 or 3 in byte 0, and in bytes 4 to 7 a size that is not zero and is all the rest; 1 for a configuration, 2 for a response with one byte below 2, 3 for data |
| `Messages.ConfigLayout` | server/Message.hpp:193-219 | in a valid configuration blocks and bitstream fill the payload and no arithmetic wraps |
| `Messages.NewConfig` | server/Message.hpp:279-321 | type 1, sizes, blocks and bitstream, at their places and as their four bytes each; the reserved bytes, and the bitstream if none is given, are what the memory held |
| `Messages.WireFormat` | server/Message.hpp:88-146 | so for every configuration: byte 0 is 1, sizes and block count at 4, 8, 12 and 16, the words of block k at 20, 24 and 28 + 12k, low byte first, and the bitstream behind them |
| `Messages.ConfigValidWhenItFits` | server/Message.hpp:193-199 | a new configuration is valid exactly when its payload is at most 2^32 - 9 |
| `Messages.ConfigRoundTrip` | server/Message.hpp:201-219 | every accessor gives back what the configuration was made from |
| `Connections.ReadExactly` | server/Connection.hpp:155-166 | all the bytes in order however they arrive, or the error that reading ends with |
| `Connections.WriteExactly` | server/Connection.hpp:168-179 | all the bytes however they are taken, or an error and a prefix |
| `Connections.SendMessage` | server/Connection.hpp:84-98 | a valid message is written whole; an invalid one not at all |
| `Connections.ReceivePayload` | server/Connection.hpp:62-75 | a new message with the type of its header and the next bytes of the stream as its payload |
| `Connections.ReceiveMessage` | server/Connection.hpp:41-82 | what is received is the first message of the stream, or the error it deserves, under any fragmentation |
| `Connections.StreamRoundTrip` | server/Connection.hpp:41-98 | the bytes of a sequence of valid messages decode to the same types and payloads |
| `Connections.SendAll` | server/Connection.hpp:84-98 | messages sent one after the other: all their bytes, or an error and a prefix of them |
| `Connections.ReceiveAll` | server/Connection.hpp:41-82 | messages received one after the other: what the stream decodes to, and then its error |
| `Connections.Exchange` | server/Connection.hpp:41-98 | messages sent over partial writes and delivered in arbitrary pieces: those written completely are received, in order, and all of them when no send failed |
| `Connections.CutStream` | server/Connection.hpp:41-82 | wherever the stream is cut, exactly the complete messages are received and then an error |
| `FpgaManager.Manager.WaitForState` | node/FPGAconfig/alt_fpga_manager.c:286-308 | at most timeout + 1 polls: successful up to the first that shows the state, and a timeout after all of them if none does |
| `FpgaManager.AwaitStateMeans` | node/FPGAconfig/alt_fpga_manager.c:286-308 | that is: a success if and only if one of the polls finds the power on and the mode equal to the state |
| `FpgaManager.Manager.WaitForConfigDone` | node/FPGAconfig/alt_fpga_manager.c:322-360 | the verdict of the first of timeout + 1 reads that decides, and a timeout if none does; success only when the last access showed CONF_DONE and nSTATUS and no CRC error |
| `FpgaManager.AwaitDecisionMeans` | node/FPGAconfig/alt_fpga_manager.c:322-360 | the first read that shows a CRC error, or CONF_DONE and nSTATUS equal, if there is one |
| `FpgaManager.Manager.DclkSetAndWaitClear` | node/FPGAconfig/alt_fpga_manager.c:242-278 | success if and only if one of timeout + 1 reads shows the count done, which has then been issued, observed and acknowledged |
| `FpgaManager.AwaitClocksMeans` | node/FPGAconfig/alt_fpga_manager.c:257-275 | the first read that does, if there is one |
| `FpgaManager.Manager.WriteAxi` | node/FPGAconfig/alt_fpga_manager.c:153-233 | the words that go out for a buffer, the partial last one included, and only on an enabled bus |
| `FpgaManager.TailExactlyWhen` | node/FPGAconfig/alt_fpga_manager.c:209-224 | the words written are the words of the buffer if and only if there is no partial word, nothing else, or the buffer ends as it begins |
| `FpgaManager.TailCounterexample` | node/FPGAconfig/alt_fpga_manager.c:209-224 | five bytes that are written wrongly |
| `FpgaManager.Manager.WriteStream` | node/FPGAconfig/alt_fpga_manager.c:537-583 | at most 32 MiB passed on in at most 32 MiB + 1 calls, chunk by chunk; success if and only if the stream ends, before a call that fails and within 32 MiB |
| `FpgaManager.WholeWordStream` | node/FPGAconfig/alt_fpga_manager.c:537-583 | in chunks of whole words the words written are those of the concatenated stream |
| `FpgaManager.LastChunkExactlyWhen` | node/FPGAconfig/alt_fpga_manager.c:537-583 | when all chunks but the last are whole words, the words written are those of the stream if and only if the last chunk is written rightly |
| `ImageStreams.ChunksExactlyWhen` | node/FPGAconfig/alt_fpga_manager.c:195-224 | in chunks of any lengths, the words written are those of the stream if and only if the first chunk with a partial word ends as it begins and only zeros follow it, in no more words than they need |
| `ImageStreams.StreamExactlyWhen` | node/FPGAconfig/alt_fpga_manager.c:537-583 | the same for what the calls for data deliver |
| `ImageStreams.ShortChunkCounterexample` | node/FPGAconfig/alt_fpga_manager.c:537-583 | a chunk of one byte before one of four |
| `FpgaManager.Manager.ConfigureData` | node/FPGAconfig/alt_fpga_manager.c:500-621 | what becomes of the data: the image has to go out whole, and then the first read that decides has to report it done |
| `FpgaManager.Manager.EnterConfigPhase` | node/FPGAconfig/alt_fpga_manager.c:739-806 | through reset to the configuration phase, if and only if the device shows both in time, with NCONFIGPULL clear on every return |
| `FpgaManager.Manager.LeaveConfigPhase` | node/FPGAconfig/alt_fpga_manager.c:829-917 | bus disabled, clocks counted, user mode; success if and only if the device comes up in time and the data was good, and what was wrong with the data is what is reported |
| `FpgaManager.Manager.Configure` | node/FPGAconfig/alt_fpga_manager.c:627-919 | for all hardware: the outcome exactly, as a function of what is read and what the stream yields; success means all twelve steps in order and the image delivered; data only while the control register has AXICFGEN and the width and clock ratio of the mode; the control register is left exactly as prescribed, NCONFIGPULL and AXICFGEN clear and other bits kept |
| `FpgaManager.SucceedsExactlyWhen` | node/FPGAconfig/alt_fpga_manager.c:627-919 | a configuration succeeds if and only if the manager is enabled, the device on and its mode known, the image can be passed on, and the device shows reset and the configuration phase, is then found done, counts the clocks and comes up |
| `FpgaManager.RefusedExactlyWhen` | node/FPGAconfig/alt_fpga_manager.c:636-719 | no control, no power and an unknown mode are reported exactly when found |
| `FpgaManager.ReadyHardware` | node/FPGAconfig/alt_fpga_manager.c:627-919 | on hardware that is ready at every poll, every image that can be passed on is programmed |
| `FpgaManager.ModeWidth` | node/FPGAconfig/alt_fpga_manager.c:663-719 | the twelve modes: the highest bit is the width of the bus, the two lowest give the clock ratio and are never both set |
| `FpgaManager.StepsInOrder` | node/FPGAconfig/alt_fpga_manager.c:627-919 | the steps counted stand in the log of register accesses in their order |
| `FpgaManager.BusWasEnabled` | node/FPGAconfig/alt_fpga_manager.c:812-836 | at every data write the control register had last been written with AXICFGEN and the settings of the mode |

## Left out

- Address translation, caches and bus ordering: segment lists are given, memory is immediate, and DMAWMB and DMAFLUSHP do nothing to the state.
- When a device makes a request, and for how much, is the device's affair: every DMAWFP is granted in the end, and a request is for as much as the controller's registers say, in words and for one at least with the flash (PacedRequests.LineOf).  Those settings, and the numbers of the request lines, are parameters.
- The bounded depth of the MFIFO, security faults, channel start-up and the execution status of a program after it has been handed to a channel.
- Control register options that do not decide which bytes move: cache, protection and endian fields.  Their encodings, and those of the I2C command word, are in headers that are not part of the repository; the command word follows the data register layout of the controller.
- The instruction primitives `alt_dma_program_*` are not part of the repository; each appends one instruction or fails for lack of room.
- Reach.BufferJumps: says which loops are too long to be closed; whether the primitive for DMALPEND then fails is not known, and the generators of the model write such loops like any other.
- I2C reads need a FIFO of two entries or more, of a size that fits 32 bits: with one entry half a FIFO is nothing and the generator does not get on.
- Requests.RegisterRequest: says what is generated for the byte count as computed; that the count may have wrapped is Requests.RegisterRequestComplete.
- SharedBytes.AcceptedCopiesExactlyWhen: asks for a translation that maps no two virtual addresses to one physical byte, and for memory behind all of both buffers.
- UartSegments.EmitUartSegment: is for bursts of at most 4096 bytes; a FIFO of size zero with a trigger level of the size less two leads to a larger one (UartSegments.RoundedIsBurstSize), which DMALP cannot count, and what its primitive then does is not known.
- Requests.PeripheralRequest: asks for the same of UART bursts.
- Dispatch.CounterInRuns: counts without an upper limit; the 32 bits of the counter, which take 2^32 unanswered inputs to exceed, are in Sessions.User.UserInput.
- The counter starts at zero, although the source never initialises it.
- What a node computes, and the order of several results on the user's connection: a node answers an input it has received at most once, and each answer is forwarded or lost.
- A reconfiguration while inputs are outstanding, and what happens after the main loop ends.
- A send that fails after its last byte was delivered: a failed send counts as not delivered.
- DATA messages: block counts, payloads below four bytes and zero block sizes.
- The FPGA manager's registers are records of their named fields, with the remaining bits as one further field; which clock ratio a mode needs is taken from the code.
- The DMA variant of writing an FPGA image.
- Sockets, logging, printing, the stack-based variants of queue and user, benchmarks and test programs.
