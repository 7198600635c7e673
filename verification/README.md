# Verification of the firmware's drivers and image code

A Dafny model of the parts of the firmware that carry state or arithmetic worth proving: the
streaming hash driver, the camera queue and fragment capture, the aligned allocator, the image
pipeline, the clock tree, cache maintenance by range, and the number parser. Verify it with
`dafny verify dfyconfig.toml`.

Code that works in place is a class or a method over arrays, proved against a function of the old
state (`CsiQueueDriver`, `DcpHashDriver`, `CsiFragmentDriver`, `AlignedHeap.SdkHeap`, `ClockDriver`,
the loops of `Otsu`, `EdgeFilter`, `MeanFilter`, `CacheRange` and `Util`). The theorems about runs,
interleavings and round trips are about those functions.

| files | what they model |
|---|---|
| `DcpHash`, `DcpHashRuns`, `DcpHashDriver` | hash contexts, the shared context buffer and an ideal engine; whole runs; the classes |
| `DcpSchedule` | starting a job on a channel, as threads interleave register access by register access |
| `CsiQueue`, `CsiCalls`, `CsiInterrupts`, `CsiQueueRuns`, `CsiFrames`, `CsiQueueDriver` | the ring of frame buffers shared by application, interrupt handler and DMA; the calls; the handler and whole runs; when the camera goes on, and runs that go wrong; frame contents; the classes |
| `CsiFragment`, `CsiCapture`, `CsiFragmentDriver` | cropping a frame out of DMA fragments; from the request to the bytes; the bit-level luma extraction |
| `AlignedHeap`, `Bits` | aligned allocation over malloc; masks as arithmetic |
| `Otsu`, `EdgeFilter`, `MeanFilter` | thresholds and filters |
| `ClockPll`, `ClockTree`, `ClockDriver`, `Quotients` | PLL set-up and read-back; register fields, PFDs, bus clocks; the classes; floor division |
| `CacheRange` | loops over cache lines |
| `Numerals`, `Util` | numerals and what they denote; the parser |

## Where the code and its intent differ

The model follows the code. Each difference below is a proved statement about it.

- Ring subtraction (fsl_csi.c:148) swaps its operands. `CsiQueue.Build` carries both versions;
  `DeltaIsRingDistance` says when the written one is the distance, `UserStepExact` which calls break
  the queue, and `CsiQueueRuns.WrittenBuildReturnsWrongBuffer` is a run that does.
- A callback that stops and restarts the transfer while a third buffer is waiting makes the handler load
  that buffer over one of the two in flight (fsl_csi.c:816-833), in either build:
  `CsiInterrupts.FrameDoneEndExact`, `CsiQueueRuns.RestartInCallbackDeliversWrongFrame`.
- A callback that submits two buffers when none is in flight any more leaves the camera stopped with both
  waiting: the transfer still counts as ongoing when it submits them, so nothing resumes it
  (fsl_csi.c:704-716, 821-826): `CsiQueueRuns.FrameDoneAwakeExact`, `CsiQueueRuns.SubmittingInCallbackStalls`.
- A two-flag camera interrupt can overwrite a full buffer through a register the driver has not
  reloaded (fsl_csi.c:784-809), or one the application has fetched: `CsiFrames.BothDoneExact`,
  `CsiFrames.BothDoneWritesExact`.
- `inputFormat` is never copied into the fragment handle (fsl_csi.c:1034-1041), so gray captures are
  right for UYVY cameras only: `CsiFragment.CreatedHandleGrayExact`. The handle keeps the bytes of a
  line in 16 bits, so it describes frames of less than 0x8000 pixels only: `CsiFragment.CaptureIsReady`.
- The hash driver counts the message in 32 bits and takes a zero count for an empty message
  (fsl_dcp.c:1181, 1272-1289): `DcpHashRuns.AnswerExact`. The fixed digest it then copies ignores the size of the caller's buffer:
  `DcpHashRuns.ShortBufferExact`. The clearing loop of `DCP_HASH_Init`
  writes word 0 only (fsl_dcp.c:1137-1140); this is harmless, and nothing relies on a cleared block.
- The offset in the allocator's header has 16 bits and the size arithmetic 32
  (fsl_common.c:119-137): `AlignedHeap.FreeTargetExact`, `AlignedHeap.PayloadExact`.
- The search for the largest grey value tests the bin of the smallest (imageProcess.c:181):
  `Otsu.SingleValueExact`. The histogram loop counts in 8 bits with transposed indices
  (imageProcess.c:171-177), so the histogram is an input here. The mean filter reads past the last row
  and column (imageProcess.c:19-33); `MeanFilter.GrayMeanFilter` shows that this never reaches the result.
- PLL set-up or-s the post-divider into the old field (fsl_clock.c:673-697, 760-784):
  `ClockPll.InitExact` and `ClockPll.DeinitThenInit`.
- The level-2 invalidation does not end for a range that is not empty and ends inside the last line of the
  address space (fsl_cache.c:350-358): `CacheRange.EndsExact`. The cleaning loops test the aligned
  address, so they do not end even for an empty range there, and clean a line for an empty range inside
  it (fsl_cache.c:392-397, 430-435): `CacheRange.CleanEndsExact`, `CacheRange.L2CleanExact`. Level 1
  counts bytes in a signed variable (fsl_cache.c:501): `CacheRange.L1InvalidateExact`.
- `myatof` applies an exponent only if it has a sign, and applies a minus and digits after `e+3` or a bare
  `e+` (util.c:60-91). It returns zero for a leading plus, a leading point and white space other than
  spaces (util.c:30-42): `Numerals.ParseExact`.

## Model

| member | source | states |
|---|---|---|
| DcpHashRuns.InterleavingIsInvisible | Libraries/nxp_libraries/drives/fsl_dcp.c:1041-1312 | for every interleaving of calls on any number of contexts and channels, each context gets the replies it gets alone on another engine in any state |
| DcpHashRuns.RunRefines | Libraries/nxp_libraries/drives/fsl_dcp.c:1116-1312 | every run of the driver gives the replies of a specification in which a context is just its message |
| DcpHashRuns.StepRefines | Libraries/nxp_libraries/drives/fsl_dcp.c:1116-1312 | one call refines one step of that specification, and the same calls are legal |
| DcpHashRuns.StreamAnswers | Libraries/nxp_libraries/drives/fsl_dcp.c:1162-1312 | Init, an Update per chunk and Finish answer for the concatenated message |
| DcpHashRuns.StreamingEqualsOneShot | Libraries/nxp_libraries/drives/fsl_dcp.c:1328-1354 | streaming in any chunks, on any channel, equals handing the message over at once |
| DcpHashRuns.StreamPackets | Libraries/nxp_libraries/drives/fsl_dcp.c:906-1039 | the packets carry the message in order; the first and no other starts, the last and no other ends the hash; all but the last are whole 64-byte blocks |
| DcpHashRuns.AnswerExact | Libraries/nxp_libraries/drives/fsl_dcp.c:1272-1289 | the full answer is the digest for every engine if and only if the 32-bit count is not zero, or the message is empty and SHA |
| DcpHashRuns.ShortBufferExact | Libraries/nxp_libraries/drives/fsl_dcp.c:1272-1308 | a buffer of the size given to Finish holds what is written if and only if the count is not zero or the fixed digest fits |
| DcpHash.UpdateTracks | Libraries/nxp_libraries/drives/fsl_dcp.c:1162-1213 | an update adds its input to the message a context carries, whatever is in the shared buffer |
| DcpHash.ProcessTracks | Libraries/nxp_libraries/drives/fsl_dcp.c:979-1020 | flushing, whole blocks and remainder move bytes from caller to engine without loss or reordering, and send at least one packet |
| DcpHash.FinishAnswers | Libraries/nxp_libraries/drives/fsl_dcp.c:1226-1312 | Finish answers with the last bytes of the digest, sends exactly one closing packet and erases the context, unless the count reads zero |
| DcpHash.InitTracks | Libraries/nxp_libraries/drives/fsl_dcp.c:1116-1145 | a begun context carries the empty message, whatever its memory held |
| DcpHash.SetSlotFrames | Libraries/nxp_libraries/drives/fsl_dcp.c:1041-1103 | the four channel slots are disjoint: writing one is seen there and nowhere else |
| DcpHash.LastPacketDigest | Libraries/nxp_libraries/drives/fsl_dcp.c:1031-1039 | the closing packet makes the engine finish the digest of the whole message |
| DcpHash.AbsorbConcat | Libraries/nxp_libraries/drives/fsl_dcp.c:921-948 | absorbing two runs of blocks one after the other is absorbing their concatenation |
| DcpHash.ReversedTail | Libraries/nxp_libraries/drives/fsl_dcp.c:97-103 | copying a prefix of the reversed digest backwards yields the tail of the digest |
| DcpHashDriver.DcpDriver.HashInitialize | Libraries/nxp_libraries/drives/fsl_dcp.c:1116-1145 | updates the context in place as Init says, clearing loop included |
| DcpHashDriver.DcpDriver.Hash | Libraries/nxp_libraries/drives/fsl_dcp.c:1328-1354 | succeeds if and only if the engine reports no failure, and then answers for the input, whatever state engine and shared buffer are in |
| DcpHashDriver.DcpDriver.HashAddInput | Libraries/nxp_libraries/drives/fsl_dcp.c:1162-1213 | succeeds if and only if the engine reports no failure, always for input that fits the block; then takes the Update step on context and shared buffer |
| DcpHashDriver.DcpDriver.HashFinish | Libraries/nxp_libraries/drives/fsl_dcp.c:1226-1312 | succeeds if and only if the engine reports no failure, always with a zero count; then leaves output, size and context as Finish says; erases the context and sets the size either way |
| DcpHashDriver.DcpDriver.ProcessMessageData | Libraries/nxp_libraries/drives/fsl_dcp.c:979-1020 | stops at the first packet reported as failed; if there is none, succeeds and takes the Process step |
| DcpHashDriver.DcpDriver.FlushBlockBuffer | Libraries/nxp_libraries/drives/fsl_dcp.c:986-1001 | completes a partly filled block from the message and sends it |
| DcpHashDriver.DcpDriver.SendWholeBlocks | Libraries/nxp_libraries/drives/fsl_dcp.c:1003-1014 | sends the whole 64-byte blocks of what remains in one packet |
| DcpHashDriver.DcpDriver.HashUpdateBlocking | Libraries/nxp_libraries/drives/fsl_dcp.c:950-964 | sends one packet and clears the start and end flags |
| DcpHashDriver.DcpDriver.SaveHash | Libraries/nxp_libraries/drives/fsl_dcp.c:1041-1071 | copies the channel's slot into the context |
| DcpHashDriver.DcpDriver.RestoreHash | Libraries/nxp_libraries/drives/fsl_dcp.c:1073-1103 | copies the context's running hash into the channel's slot |
| DcpHashDriver.DcpDriver.ReverseAndCopy | Libraries/nxp_libraries/drives/fsl_dcp.c:97-103 | the destination starts with the reversed source and is otherwise unchanged |
| DcpHashDriver.DcpDriver.OutputDigest | Libraries/nxp_libraries/drives/fsl_dcp.c:1292-1308 | the digest is cut to the caller's size, and the size variable set, for any size |
| DcpSchedule.EveryScheduleIsSafe | Libraries/nxp_libraries/drives/fsl_dcp.c:202-275 | for every number of threads and every schedule: packets are written and jobs started only on idle channels, masked, the packet being the caller's; Success started one job, Again none; the caller's mask is restored |
| DcpSchedule.StepKeepsInv | Libraries/nxp_libraries/drives/fsl_dcp.c:202-275 | every register access, switch and completion keeps the protocol's invariant |
| DcpSchedule.SoloCallSucceeds | Libraries/nxp_libraries/drives/fsl_dcp.c:207-266 | an undisturbed call on an idle channel writes the packet, starts the job and restores the mask |
| DcpSchedule.BusyCallIsRefused | Libraries/nxp_libraries/drives/fsl_dcp.c:207-272 | a call that finds its channel busy at the first test returns Again and touches neither channel nor mask |
| DcpSchedule.StaleFirstTest | Libraries/nxp_libraries/drives/fsl_dcp.c:213-214 | without the second test a stale first one starts a job on a busy channel; with it the call returns Again |
| DcpSchedule.StaleFirstTestIsReachable | Libraries/nxp_libraries/drives/fsl_dcp.c:207-214 | preemption between the first test and the mask does make it stale |
| CsiInterrupts.RunRefinesFifo | Libraries/nxp_libraries/drives/fsl_csi.c:597-838 | over every run of hazard-free calls whose callbacks leave a settled state, for any queue size from 2: accepted buffers are the returned ones followed by the held ones, in order; the three arcs sum to the difference and never exceed the size; at most two buffers are in flight, and the registers match the queue |
| CsiCalls.UserStepExact | Libraries/nxp_libraries/drives/fsl_csi.c:597-760 | a call keeps the queue invariant if and only if it is not one of the listed hazards |
| CsiCalls.SubmitKeeps | Libraries/nxp_libraries/drives/fsl_csi.c:681-721 | submitting refuses exactly when the ring is full, changing nothing; otherwise it adds the buffer, and a stopped transfer resumes with two buffers in flight exactly when two wait |
| CsiCalls.SubmitBreaks | Libraries/nxp_libraries/drives/fsl_csi.c:140-150 | the submissions that the swapped subtraction lets through break the queue |
| CsiCalls.StartKeeps | Libraries/nxp_libraries/drives/fsl_csi.c:597-636 | starting changes nothing unless two buffers wait, and else puts two in flight and lets frames arrive |
| CsiCalls.StartBreaks | Libraries/nxp_libraries/drives/fsl_csi.c:597-636 | starting with buffers in flight, or on a miscounted ring, loses buffers |
| CsiCalls.GetFullKeeps | Libraries/nxp_libraries/drives/fsl_csi.c:738-760 | fetching hands out the oldest full buffer, or reports that there is none and changes nothing |
| CsiCalls.StopKeeps | Libraries/nxp_libraries/drives/fsl_csi.c:650-665 | stopping halts the camera, returns every in-flight buffer to the empty arc and loses none |
| CsiQueue.DeltaIsRingDistance | Libraries/nxp_libraries/drives/fsl_csi.c:140-150 | the repaired subtraction is the one ring distance; the written one is it if and only if the indices have not wrapped |
| CsiInterrupts.FrameDoneBeginKeeps | Libraries/nxp_libraries/drives/fsl_csi.c:810-814 | a completed frame moves one buffer from the in-flight arc to the full arc |
| CsiInterrupts.CallbackKeeps | Libraries/nxp_libraries/drives/fsl_csi.c:816-819 | hazard-free calls from the callback, restarts included, keep the queue invariant |
| CsiInterrupts.WithoutStartSettles | Libraries/nxp_libraries/drives/fsl_csi.c:816-833 | a callback that never calls Start leaves a settled state |
| CsiInterrupts.FrameDoneEndExact | Libraries/nxp_libraries/drives/fsl_csi.c:821-833 | from any state with the invariant, the rest of the handler keeps it, and a running camera has a buffer, if and only if the state is settled: at most one buffer in flight, or none waiting |
| CsiInterrupts.FrameDoneEndReloads | Libraries/nxp_libraries/drives/fsl_csi.c:821-833 | with one buffer in flight and one waiting, the oldest waiting one is loaded into the free register; with none in flight the camera stops; otherwise nothing changes |
| CsiInterrupts.FrameDoneUsesBuffers | Libraries/nxp_libraries/drives/fsl_csi.c:810-833 | after a completed frame the camera has stopped, only if no buffer was in flight any more, or has two buffers, or none is waiting |
| CsiInterrupts.FrameDoneExact | Libraries/nxp_libraries/drives/fsl_csi.c:810-833 | a completed frame whose callback makes hazard-free calls keeps the queue if and only if the callback leaves a settled state |
| CsiQueueRuns.RestartInCallbackDeliversWrongFrame | Libraries/nxp_libraries/drives/fsl_csi.c:816-833 | in the repaired build, stopping and restarting from the callback with three buffers waiting hands out a buffer without its frame |
| CsiQueueRuns.RunStaysAwake | Libraries/nxp_libraries/drives/fsl_csi.c:597-838 | over every safe run whose callbacks do not stall it, a started camera is never left stopped while two buffers wait |
| CsiQueueRuns.FrameDoneAwakeExact | Libraries/nxp_libraries/drives/fsl_csi.c:810-833 | a completed frame leaves the transfer awake if and only if its callback does not leave it with no buffer in flight and two waiting |
| CsiQueueRuns.SubmittingInCallbackStalls | Libraries/nxp_libraries/drives/fsl_csi.c:704-826 | two buffers submitted from the callback of the last frame in flight do stall it, in either build |
| CsiInterrupts.BothDoneRearms | Libraries/nxp_libraries/drives/fsl_csi.c:784-809 | the two-flag reset starts afresh at register 0, arms the buffers in flight again in order, and moves nothing else |
| CsiInterrupts.BothDoneKeeps | Libraries/nxp_libraries/drives/fsl_csi.c:784-809 | the two-flag reset re-establishes the match between registers and queue |
| CsiInterrupts.RunKeepsIdle | Libraries/nxp_libraries/drives/fsl_csi.c:597-838 | the invariant holds after every run of hazard-free calls and interrupts whose callbacks leave settled states |
| CsiQueueRuns.WrittenBuildReturnsWrongBuffer | Libraries/nxp_libraries/drives/fsl_csi.c:140-150 | in the written build, a run of the default queue accepts too many buffers and returns one out of turn |
| CsiFrames.RunDeliversFramesInOrder | Libraries/nxp_libraries/drives/fsl_csi.c:597-838 | over such a run that resubmits no held buffer and meets no stale register with two flags, the frames found in the fetched buffers are the reported frames, in order, with none skipped |
| CsiFrames.BothDoneExact | Libraries/nxp_libraries/drives/fsl_csi.c:784-809 | a two-flag interrupt spares every full buffer, whatever was stored, if and only if no register not reloaded points at one |
| CsiFrames.BothDoneWritesExact | Libraries/nxp_libraries/drives/fsl_csi.c:784-809 | both addresses it writes are in flight if and only if two buffers are, or the registers are equal |
| CsiFrames.CompletionLeavesStaleRegister | Libraries/nxp_libraries/drives/fsl_csi.c:821-833 | a completion with no empty buffer waiting leaves such a register |
| CsiFrames.FetchKeepsSound | Libraries/nxp_libraries/drives/fsl_csi.c:738-760 | fetching delivers the oldest reported frame not yet fetched |
| CsiFrames.CaptureKeepsSound | Libraries/nxp_libraries/drives/fsl_csi.c:810-814 | storing a frame spoils no full buffer, and the new full buffer holds it |
| CsiQueueDriver.CsiDriver.TransferStart | Libraries/nxp_libraries/drives/fsl_csi.c:597-636 | takes the Start step on the handle and the device registers |
| CsiQueueDriver.CsiDriver.TransferStop | Libraries/nxp_libraries/drives/fsl_csi.c:650-665 | takes the Stop step |
| CsiQueueDriver.CsiDriver.TransferSubmitEmptyBuffer | Libraries/nxp_libraries/drives/fsl_csi.c:681-721 | takes the Submit step and returns its status |
| CsiQueueDriver.CsiDriver.TransferGetFullBuffer | Libraries/nxp_libraries/drives/fsl_csi.c:738-760 | takes the GetFull step and returns its status and address |
| CsiQueueDriver.CsiDriver.TransferHandleIRQ | Libraries/nxp_libraries/drives/fsl_csi.c:771-838 | takes the interrupt step for either flag, both or none |
| CsiQueueDriver.CsiDriver.LoadBufferToDevice | Libraries/nxp_libraries/drives/fsl_csi.c:178-188 | loads the oldest empty buffer into the next register |
| CsiQueueDriver.CsiDriver.GetQueueDelta | Libraries/nxp_libraries/drives/fsl_csi.c:140-150 | the ring subtraction of either build |
| CsiQueueDriver.CsiDriver.IncreaseQueueIdx | Libraries/nxp_libraries/drives/fsl_csi.c:152-171 | the next index round the ring |
| CsiCapture.CaptureDelivers | Libraries/nxp_libraries/drives/fsl_csi.c:1113-1286 | for every valid request on a created handle, an accepted capture and the interrupts of a frame leave the requested window of the frame in memory, byte by byte from the address given, and change nothing else |
| CsiCapture.WindowIsKept | Libraries/nxp_libraries/drives/fsl_csi.c:1125-1170 | the handle of every accepted capture holds the window asked for, or the whole frame |
| CsiCapture.CreateExact | Libraries/nxp_libraries/drives/fsl_csi.c:1020-1032 | a configuration is refused exactly if its width is not a multiple of 4 or its height not one of the DMA buffer's |
| CsiFragment.FrameIsCaptured | Libraries/nxp_libraries/drives/fsl_csi.c:1213-1286 | from any state, a start of frame and its fragments leave exactly the crop in the user's memory, the capture off, and one callback, made by the last fragment |
| CsiFragment.FragmentsFill | Libraries/nxp_libraries/drives/fsl_csi.c:1223-1281 | after k fragments the memory holds the crop rows among their lines and the handle points behind them |
| CsiFragment.CopyLinesFill | Libraries/nxp_libraries/drives/fsl_csi.c:1247-1266 | the line loop copies exactly the lines inside the window to their places |
| CsiFragment.CaptureIsReady | Libraries/nxp_libraries/drives/fsl_csi.c:1125-1170 | a capture is refused exactly for a gray crop not a multiple of 8 wide, and the handle of an accepted one describes the frame if and only if that is narrower than 0x8000 pixels |
| CsiFragment.GrayIsLumaExact | Libraries/nxp_libraries/drives/fsl_csi.c:1144-1161 | a gray crop is the luma of the frame, for every frame, if and only if handle and camera agree on the byte order |
| CsiFragment.CreatedHandleGrayExact | Libraries/nxp_libraries/drives/fsl_csi.c:1034-1041 | through a created handle that means UYVY cameras only |
| CsiFragment.AcceptedCaptureIsExtractable | Libraries/nxp_libraries/drives/fsl_csi.c:1144-1152 | an accepted gray capture has a byte count for which the extraction loop ends |
| CsiFragmentDriver.FragDriver.constructor | Libraries/nxp_libraries/drives/fsl_csi.c:1009-1101 | the handle as created for a configuration |
| CsiFragmentDriver.FragDriver.TransferCaptureImage | Libraries/nxp_libraries/drives/fsl_csi.c:1113-1187 | accepts or refuses and fills the handle as CaptureImage says |
| CsiFragmentDriver.FragDriver.TransferHandleIRQ | Libraries/nxp_libraries/drives/fsl_csi.c:1213-1286 | takes the interrupt step on handle and memory |
| CsiFragmentDriver.FragDriver.CopyFragment | Libraries/nxp_libraries/drives/fsl_csi.c:1247-1266 | the line loop over one DMA buffer |
| CsiFragmentDriver.ExtractY | Libraries/nxp_libraries/drives/fsl_csi.c:901-955 | the eight-pixels-a-round extraction stores every other byte and nothing else |
| CsiFragmentDriver.GatherBytes | Libraries/nxp_libraries/drives/fsl_csi.c:908-919 | the bit-field inserts place the luma bytes of two words in order, whatever the register held |
| CsiFragmentDriver.LoadWordBytes | Libraries/nxp_libraries/drives/fsl_csi.c:907-908 | a little-endian load puts each byte in its bit field |
| AlignedHeap.RunsKeepPayloads | Libraries/nxp_libraries/drives/fsl_common.c:116-160 | over every legal run of malloc, writes in live payloads and free: payloads are aligned, inside their blocks, disjoint with their headers, and keep their contents |
| AlignedHeap.StepKeepsInv | Libraries/nxp_libraries/drives/fsl_common.c:116-160 | every legal call keeps the heap's invariant |
| AlignedHeap.AllocKeepsInv | Libraries/nxp_libraries/drives/fsl_common.c:116-140 | a new payload is aligned and apart from everything in use |
| AlignedHeap.FreeKeepsInv | Libraries/nxp_libraries/drives/fsl_common.c:142-160 | freeing a live pointer hands back exactly the base malloc returned for it and releases no other block |
| AlignedHeap.LiveRangesApart | Libraries/nxp_libraries/drives/fsl_common.c:116-140 | headers and payloads of different live pointers share no byte |
| AlignedHeap.PayloadExact | Libraries/nxp_libraries/drives/fsl_common.c:119-133 | for every block malloc can return the payload is aligned, and lies in the block behind its header if and only if the size arithmetic did not wrap |
| AlignedHeap.FreeTargetExact | Libraries/nxp_libraries/drives/fsl_common.c:135-159 | for every alignment and block, free gets the base back if and only if the distance to the payload fits 16 bits |
| AlignedHeap.FreeRefusesExact | Libraries/nxp_libraries/drives/fsl_common.c:150-155 | a pointer is refused exactly without the identifier in front of it, and then nothing is freed |
| AlignedHeap.SmallAlignmentsFit | Libraries/nxp_libraries/drives/fsl_common.c:135-137 | alignments up to 32 KiB always fit |
| AlignedHeap.SdkHeap.SdkMalloc | Libraries/nxp_libraries/drives/fsl_common.c:116-140 | takes the allocation step on memory, and keeps the invariant for a request that fits |
| AlignedHeap.SdkHeap.SdkFree | Libraries/nxp_libraries/drives/fsl_common.c:142-160 | takes the free step, refusing a wrong identifier |
| Bits.MaskRoundsDown | Libraries/nxp_libraries/drives/fsl_common.h:285-286 | masking with the complement of a power of two less one rounds down to a multiple |
| Otsu.OstuThreshold | Project/src/imageProcess.c:179-215 | the least split that maximises the between-class variance wherever a split has both classes; otherwise the value the faulty maximum search leads to |
| Otsu.BestMinimisesWithin | Project/src/imageProcess.c:202-213 | maximising between-class variance is minimising within-class variance, for every histogram and split |
| Otsu.VarianceSplits | Project/src/imageProcess.c:202-208 | within-class plus between-class variance is the variance of the image |
| Otsu.SigmaIsBetween | Project/src/imageProcess.c:200-208 | the four running sums yield exactly the between-class variance, or no number for an empty class |
| Otsu.LeastBestUnique | Project/src/imageProcess.c:209-213 | there is one such split |
| Otsu.Search | Project/src/imageProcess.c:189-214 | the loop returns the best split below 255, its sums being the prefix sums at each step |
| Otsu.LargestValue | Project/src/imageProcess.c:181-182 | where the search that tests the wrong bin stops |
| Otsu.SumsFit | Project/src/imageProcess.c:189-196 | with 8-bit bins no running sum exceeds its 32-bit variable |
| Otsu.SingleValueExact | Project/src/imageProcess.c:181-185 | the value of a one-colour image is returned exactly if it is 0, 254 or 255 |
| Otsu.TwoValues | Project/src/imageProcess.c:186-187 | for two grey values the threshold is the smaller one |
| EdgeFilter.GraySobelFilter | Project/src/imageProcess.c:77-134 | every interior pixel is marked exactly when its strength exceeds the threshold; the border is left alone |
| EdgeFilter.StrengthAt | Project/src/imageProcess.c:94-122 | the four gradients and the search give the strength of one pixel |
| EdgeFilter.InteriorExact | Project/src/imageProcess.c:81-92 | the pixels the loops visit are those with all eight neighbours in the image |
| EdgeFilter.StrengthIsLargestRise | Project/src/imageProcess.c:94-122 | the strength is the largest rise over all eight directions of the neighbour ring, from 0 to 765 |
| EdgeFilter.TransposeKeepsStrength | Project/src/imageProcess.c:94-122 | transposing the image transposes the strengths |
| EdgeFilter.MirrorKeepsStrength | Project/src/imageProcess.c:94-122 | mirroring the image mirrors them |
| EdgeFilter.NegativeKeepsStrength | Project/src/imageProcess.c:94-122 | replacing every pixel p by 255 - p changes none |
| MeanFilter.GrayMeanFilter | Project/src/imageProcess.c:13-47 | interior pixels become the mean of their neighbourhood, the border stays, whatever the loop reads past the image |
| MeanFilter.MeanIsFloor | Project/src/imageProcess.c:23-46 | an interior pixel becomes the mean of the nine around it, rounded down; a border pixel stays |
| MeanFilter.MeanWeighsEqually | Project/src/imageProcess.c:23-33 | raising one pixel by nine raises every interior mean near it by one and no other |
| MeanFilter.MeanBetweenNeighbours | Project/src/imageProcess.c:23-33 | a filtered pixel lies between any bounds of its neighbourhood |
| MeanFilter.MeanMonotone | Project/src/imageProcess.c:23-33 | brightening pixels never darkens the result |
| MeanFilter.MeanCommutes | Project/src/imageProcess.c:23-33 | filtering commutes with transposing and mirroring |
| MeanFilter.MeanThresholdOf | Project/src/imageProcess.c:136-152 | the column-by-column 32-bit loop computes the threshold of the image |
| MeanFilter.MeanThresholdIs | Project/src/imageProcess.c:142-151 | the threshold is ten more than seven tenths of the mean, both rounded down, of the sum cut to 32 bits |
| MeanFilter.MeanThresholdRange | Project/src/imageProcess.c:142-151 | the threshold of any image lies in 10 to 188, wrap-around included |
| MeanFilter.MeanBinarisationIdempotent | Project/src/imageProcess.c:49-75 | binarising at the mean threshold twice is binarising once |
| MeanFilter.SumByColumns | Project/src/imageProcess.c:142-148 | summing by columns is summing by rows |
| MeanFilter.GrayToBinary | Project/src/imageProcess.c:49-75 | each mode binarises at its own threshold: 255 for every pixel above it, 0 for every other |
| ClockPll.InitExact | Libraries/nxp_libraries/drives/fsl_clock.c:640-710 | for every documented configuration on a running reference, the getter returns the exact quotient of the configuration, ref * (loop + num/denom) / post, rounded down, if and only if the old post-divider field has no bit the new one lacks (where the undivided frequency is below 4 GHz), and if and only if it is below (where the field is right) |
| ClockPll.NoReferenceExact | Libraries/nxp_libraries/drives/fsl_clock.c:877-890 | without a running reference the getter returns 0 if and only if the or-ed field is not the one it asserts away |
| ClockPll.DeinitThenInit | Libraries/nxp_libraries/drives/fsl_clock.c:715-796 | after de-initialising, from any state, it does if and only if the exact undivided frequency is below 4 GHz |
| ClockPll.SlowReferenceFits | Libraries/nxp_libraries/drives/fsl_clock.h:911-927 | which it is for every reference of up to 2^32 / 55 Hz |
| ClockPll.RightField | Libraries/nxp_libraries/drives/fsl_clock.c:673-697 | the getter decodes the configured post-divider if and only if the old field has no bit the new one lacks |
| ClockPll.InitControl | Libraries/nxp_libraries/drives/fsl_clock.c:640-710 | what set-up leaves in each field of the control register, whatever was there |
| ClockPll.InitReadsBack | Libraries/nxp_libraries/drives/fsl_clock.c:924-1028 | what the getter makes of those fields |
| ClockPll.RunningReads | Libraries/nxp_libraries/drives/fsl_clock.c:924-1028 | for any register contents of a running PLL, the reading is the exact frequency, rounded down and cut to 32 bits, through the two stages that the post-divider bits select |
| ClockPll.InitMiscBits | Libraries/nxp_libraries/drives/fsl_clock.c:673-700 | set-up sets or clears the PLL's own two bits of MISC2 as the post-divider asks, and no other |
| ClockPll.FrequencyIsFloor | Libraries/nxp_libraries/drives/fsl_clock.c:929-932 | the getter's sum is the exact ref * (loop + num/denom), rounded down |
| ClockPll.DisabledReadsZero | Libraries/nxp_libraries/drives/fsl_clock.c:883-886 | a PLL without its enable bit reads zero |
| ClockPll.DeinitReadsZero | Libraries/nxp_libraries/drives/fsl_clock.c:715-718 | so does one after de-initialising, which leaves the power-down bit alone set |
| ClockPll.BypassedReadsReference | Libraries/nxp_libraries/drives/fsl_clock.c:888-895 | a bypassed PLL reads as its reference |
| ClockPll.FrequencyFits | Libraries/nxp_libraries/drives/fsl_clock.c:925-932 | with a proper fraction the 32-bit frequency does not overflow |
| ClockPll.TwoStages | Libraries/nxp_libraries/drives/fsl_clock.c:950-987 | the two post-divider stages divide by the configured divider, and only the right field does |
| ClockPll.InitLeavesOther | Libraries/nxp_libraries/drives/fsl_clock.c:699-702 | setting up one PLL leaves the frequency of the other, though they share a register |
| ClockPll.DeinitLeavesOther | Libraries/nxp_libraries/drives/fsl_clock.c:715-718 | so does de-initialising it |
| ClockDriver.CcmAnalog.InitAudioPll | Libraries/nxp_libraries/drives/fsl_clock.c:640-710 | the register writes of the audio PLL |
| ClockDriver.CcmAnalog.InitVideoPll | Libraries/nxp_libraries/drives/fsl_clock.c:727-796 | the register writes of the video PLL |
| ClockDriver.CcmAnalog.DeinitAudioPll | Libraries/nxp_libraries/drives/fsl_clock.c:715-718 | powers the audio PLL down |
| ClockDriver.CcmAnalog.DeinitVideoPll | Libraries/nxp_libraries/drives/fsl_clock.c:801-804 | powers the video PLL down |
| ClockDriver.CcmAnalog.InitSysPfd | Libraries/nxp_libraries/drives/fsl_clock.c:1092-1106 | the two register writes of a system PFD, the first with the output gated |
| ClockDriver.CcmAnalog.InitUsb1Pfd | Libraries/nxp_libraries/drives/fsl_clock.c:1130-1144 | the same for a USB1 PFD |
| ClockDriver.Ccm.SetField | Libraries/nxp_libraries/drives/fsl_clock.h:990-1045 | a set through a packed field writes that field of its register |
| ClockDriver.Ccm.GetField | Libraries/nxp_libraries/drives/fsl_clock.h:1016-1055 | a get reads it |
| ClockTree.GetReturnsLastSet | Libraries/nxp_libraries/drives/fsl_clock.h:990-1055 | after any sequence of sets on equal or disjoint fields, each get returns what the last set put there |
| ClockTree.GetAfterSetExact | Libraries/nxp_libraries/drives/fsl_clock.h:990-1055 | a get returns the value set if and only if it fits the field |
| ClockTree.UnpackPackExact | Libraries/nxp_libraries/drives/fsl_clock.h:84-92 | packing and unpacking a field gives it back if and only if the offset has eight bits, the busy bit six, and the mask no bit outside the thirteen from its position up |
| ClockTree.PfdOwnByte | Libraries/nxp_libraries/drives/fsl_clock.c:1092-1106 | the output is gated between the writes and then has the new fraction; the stable bit stays |
| ClockTree.PfdOtherBytes | Libraries/nxp_libraries/drives/fsl_clock.c:1092-1106 | neither write touches the other three dividers |
| ClockTree.SetterAndGetterAgree | Libraries/nxp_libraries/drives/fsl_clock.c:1092-1195 | the field a set-up finds by its index is the one the getter names by mask |
| ClockTree.PfdReading | Libraries/nxp_libraries/drives/fsl_clock.c:1166-1195 | the reading is at most 18 f / frac and less than 18 Hz below it if and only if it fits 32 bits, and exact only if the fraction divides f |
| ClockTree.SettingFieldsSetsClocks | Libraries/nxp_libraries/drives/fsl_clock.c:228-300 | setting the AHB, IPG and PER dividers and the PER multiplexer through their fields sets the three clocks to one floor division each, of the peripheral clock or the oscillator |
| ClockTree.DividersAreFields | Libraries/nxp_libraries/drives/fsl_clock.h:747-770 | the getters divide by one more than those fields hold |
| ClockTree.BusClocksDivideOnce | Libraries/nxp_libraries/drives/fsl_clock.c:228-300 | the IPG and PER clocks, flooring at each stage, are one floor division of the peripheral clock |
| CacheRange.L2InvalidateExact | Libraries/nxp_libraries/drives/fsl_cache.c:348-362 | the loop ends having touched exactly the lines of the range if and only if it is empty or ends at or below the last line |
| CacheRange.L1InvalidateExact | Libraries/nxp_libraries/drives/fsl_cache.c:496-513 | exactly the lines of the range if and only if the signed count holds and it is not an empty range inside a line |
| CacheRange.EndsExact | Libraries/nxp_libraries/drives/fsl_cache.c:350-358 | the level-2 loop ends if and only if it does nothing or stops at or below the last line |
| CacheRange.EndlessRounds | Libraries/nxp_libraries/drives/fsl_cache.c:350-358 | otherwise it is still inside the range after any number of rounds |
| CacheRange.AlignedLinesExact | Libraries/nxp_libraries/drives/fsl_cache.c:348-362 | the lines from the aligned start are exactly those that meet the range, unless it is empty inside a line |
| CacheRange.L2InvalidateByRange | Libraries/nxp_libraries/drives/fsl_cache.c:348-362 | the loop operates on those lines, in order |
| CacheRange.L2CleanExact | Libraries/nxp_libraries/drives/fsl_cache.c:391-397 | a cleaning loop ends having touched exactly the lines of the range if and only if the range ends at or below the last line and is not an empty one inside a line |
| CacheRange.CleanEndsExact | Libraries/nxp_libraries/drives/fsl_cache.c:391-397 | it ends if and only if it does nothing or its end is at or below the last line |
| CacheRange.EndlessCleaning | Libraries/nxp_libraries/drives/fsl_cache.c:391-397 | no number of rounds reaches an end inside the last line |
| CacheRange.L2CleanByRange | Libraries/nxp_libraries/drives/fsl_cache.c:375-438 | for every input on which its loop ends, the whole cache exactly when the range is larger than it, and otherwise the lines from the aligned address, in order |
| CacheRange.L1InvalidateICacheByRange | Libraries/nxp_libraries/drives/fsl_cache.c:496-513 | the level-1 loop, with its signed count |
| Numerals.ParseExact | Project/src/util.c:21-94 | for every numeral of strtod's decimal grammar and every continuation, the parser returns what the numeral denotes if and only if the mantissa is zero or none of the misread shapes occurs |
| Numerals.ZeroWithoutNumeral | Project/src/util.c:30-42 | a string that begins with no such numeral is zero, so the exact condition covers every string |
| Numerals.UnseenIsZero | Project/src/util.c:30-42 | a leading plus, a leading point and white space other than spaces make the result zero |
| Numerals.PowerExact | Project/src/util.c:60-91 | the exponent is applied rightly if and only if the mantissa is zero or it has none of the misread shapes |
| Numerals.ParseReads | Project/src/util.c:30-58 | spaces, minus, digits, point and fraction are read as the signed mantissa |
| Numerals.ScaledReads | Project/src/util.c:60-91 | which exponents are applied, and which are not |
| Numerals.SignReads | Project/src/util.c:30-42 | without a digit after spaces and at most one minus, the result is zero |
| Numerals.DecimalOfShow | Project/src/util.c:44-48 | reading the decimal digits of a number gives the number |
| Numerals.FractionIsQuotient | Project/src/util.c:50-58 | adding digit by digit is the digits over a power of ten |
| Util.Myatof | Project/src/util.c:21-94 | the loops terminate and return what Parse says, for every string whose exponents fit the counter |
| Util.ReadPower | Project/src/util.c:60-91 | the exponent branches and their loops |
| Util.ReadExponent | Project/src/util.c:66-70 | the exponent counter holds the digits without overflow |
| Util.ReadFraction | Project/src/util.c:50-58 | the fraction loop |
| Util.ReadWhole | Project/src/util.c:44-48 | the integer loop |

## Left out

- Hardware waits (PLL lock, DMA reflash, clock handshakes, the wait for a hash packet) are taken to end.
- Barriers, NVIC calls, peripheral clocks and instance tables.
- SHA rounds, padding and CRC polynomials: the engine is any deterministic one, and its digest is a parameter.
- AES and the other packet builders of fsl_dcp.c.
- Null pointers, misaligned buffers and the argument checks in front of the DCP and CSI functions.
- Float rounding: `Otsu`, `Numerals` and `Util` compute over reals. Infinities, NaNs and hexadecimal numerals are outside the grammar of `Numerals`.
- The histogram loop of `ostu_threshold`: the histogram is an input.
- The ARM, system, USB, Ethernet and fixed branches of `CLOCK_GetPllFreq`, and the peripheral clock multiplexer: frequencies in front of the dividers are parameters.
- `CLOCK_ControlGate` and the SEMC getter: one field update and one more quotient of the same kind.
- The wrappers that call both cache levels, and the whole-cache operations: register writes around the loops modelled here.
- Cache ranges that run past the end of the address space, beyond showing where the level-2 loop does not end.
- The other drivers, the CMSIS wrappers, threads, display and file code.
- CsiQueueDriver.CsiDriver.TransferHandleIRQ: the callback is a list of driver calls, and the base-address-switch and overflow flags it only clears are left out.
- CsiInterrupts.RunRefinesFifo: queue calls are atomic against interrupts. A two-flag interrupt between `CSI_Stop` and the disabling of interrupts in CSI_TransferStop (fsl_csi.c:655-656) restarts the camera, which is not part of this model.
- CsiFragment.CaptureIsReady: what the camera stores for a frame of 0x8000 pixels or more, whose line length does not fit the image register either (fsl_csi.c:1173-1175), is not part of this model.
- DcpSchedule.EveryScheduleIsSafe: `dcp_schedule_work` is a state machine over its register accesses, not a sequential method, because its point is what happens between them.
- DcpHashDriver.DcpDriver.HashAddInput: after a packet reported as failed, nothing is said of the digest.
- DcpHashRuns.InterleavingIsInvisible: each call is atomic; two calls on one channel never overlap.
- AlignedHeap.SdkHeap.SdkMalloc: a zero alignment, and a malloc answer so high that the payload address wraps to less than the header, are excluded.
- Util.Myatof: exponents beyond the 32-bit counter, where C leaves the result undefined, are excluded.
- ClockPll.InitExact: where the old field has extra bits and the undivided frequency is not below 4 GHz either, the two errors may cancel; nothing is stated. The bypass during set-up is over when it ends and is not stated.
