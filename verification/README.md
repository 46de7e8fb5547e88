# Verified model of the MemryX driver core

The driver moves feature maps between user programs and a neural accelerator. This project models the four parts
of it that carry the hardest state or arithmetic, and proves what they promise for all inputs and all runs.

**On-chip buffer allocator** (`Allocator`, `RoundRobin`, `BufferChoice`, `PrimeFactor`). A fixed RAM budget is split
among output flows: a quotient search, initial sizes brought to multiples of four, greedy doubling in rounds. A second
routine picks one buffer size from the largest prime factor of a row. Words are 32 bits and every product and sum that
can wrap wraps in the model.

**Cascade+ rings and scheduler** (`LoadBalance`, `FrameRing`, `IfmapRing`, `Lending`, `OutputRings`). Producer and worker
share frame rings; masks and a threshold interleave the flows of multi-input models; the zero-copy output calls lend ring
slots to the user. Each is a state machine whose steps are the atomic actions of the threads, and a run is any finite
sequence of them. `IfmapWorker`, `FrameBuffer` and `OutputRing` are the same code as objects that change in place;
each method is proved to do exactly the steps it stands for.

**GBF80 codec** (`GbfCodec`, `GbfBlock`, `BlockStream`, `GbfStream`, `GbfBuffers`, `RowPad`). Eight binary32 values
(section 3.4 of IEEE 754-2019) share an exponent in ten bytes. The functions say what a lane, a block and a run encode
and decode to; the loops over buffers are proved against them; `RowPad` adds the layout with padded rows.

**Cascade row rings** (`EncodeRing`, `RowRing`, `RowRuns`, `RowLife`, `RowBuffers`, `Hpoc`). Input frames are encoded
row by row into a ring of four frames; output rows are read in pieces, counted into frames, queued as jobs and decoded;
`RowLife` says when a flow still has frames to come; a decoder drops dummy channels.

`Arithmetic`, `RingIndex`, `Splicing`, `Slots` and `Words` hold shared definitions and small lemmas.

## Conventions

- Ring pointers are the wrapped indexes of the code. The unbounded totals beside them, the frames pushed, the bytes
  taken and so on are history: they state properties and never steer a step.
- The link is free to take or deliver any amount up to what it was asked for, none included. Arguments such as
  `replies`, `rest`, `take` and `takes` are what it does on successive attempts.
- A wait in the code is a step that is not enabled; a dequeue that waits for a buffer is a state of its own, as it
  holds the read lock. The methods of the objects run alone, so one that would wait returns instead and says how far
  it got.
- A step that is not at its turn leaves the state as it is.
- The flows of a mask are the set of its bit positions. `MEMX_DFP_INPUT_MODE_BLOCKING` is 0
  (`udriver/include/dfp/memx_dfp.h:67`) and `MEMX_MPUIO_OFMAP_HEADER_SIZE` 64 (`udriver/include/mpuio/memx_mpuio_comm.h:27`).
- A right shift by s is floor division by 2^s for every s; the leading-zero table is given by its ranges.

## What does not hold unconditionally

Each of these is proved with its exact condition, and with an input or a run on which the condition fails.

- The quotient search does not always end in an answer. It divides by zero exactly when the starting quotient is 0 or
  above the first flow that is not empty (`Allocator.FindQuotient`); `Allocator.SmallFirstFlowTraps` gives an input.
- The two decoders differ exactly on lanes whose leading zeros exceed the shared exponent
  (`GbfCodec.FastDecodeIsLoopDecode`, `GbfCodec.DecodersDiffer`); the encoder writes none.
- Rounding a word to its upper half moves it to the nearest multiple of 2^16, except that words from 0xFFFF8000 on wrap
  to 0 (`GbfCodec.RoundedIsNearest`); a word within half a unit of the end of its exponent range comes out with no
  exponent and the other sign (`GbfCodec.RoundedOver`).
- A chosen buffer size passes the caller's check exactly when the flow size is a multiple of four and the cap is at
  least 4 (`BufferChoice.AssignSuitableBufferSize`, `BufferChoice.UnalignedFlowHasNoChoice`).
- A lent buffer is safe exactly while the read pointer, which every return moves by one whichever buffer comes back, is
  at most one past it (`Lending.SafeExactlyWhenRecent`, `Lending.OutOfOrderOverruns`). Returning in lending order is
  enough (`Lending.InOrderIsIntact`).
- The output worker asks for a whole frame even when part of one has arrived. It jams exactly when a read then delivers
  bytes of two frames (`Lending.JamsExactlyOnCrossing`, `Lending.JamHappens`); it reads on and publishes no frame again
  (`Lending.JamIsForever`).
- The three-pointer equation on unfinished jobs fails between queueing a job and moving the report pointer, where the
  job may already run (`RowRuns.JobOvertakesReport`), and once a job has been dropped for want of memory. It holds
  exactly when the dropped jobs are none outside that gap, or one in it (`RowRing.ReportDistance`,
  `RowRuns.DropInTheGap`).
- A Cascade output flow can come to an end with the link and the workers still running. Between transfers another
  frame can come exactly when a job is unfinished, or fewer than three jobs were dropped and the ring has room for a
  row (`RowLife.IdleFlowLivesExactlyWhen`; `RowLife.FlowLivesExactlyWhen` covers the states within a transfer). Three
  drops end a flow (`RowRuns.ThreeDropsHappen`), and so does one job that cannot be queued while the ring is full and
  no other job is left, without any drop (`RowLife.MissEndsTheFlow`).
- A dequeue with timeout 0 waits with the read lock held, so that no buffer can be returned meanwhile. The wait is in
  vain exactly when no received frame is left to hand out and the ring is full or jammed
  (`Lending.HopelessExactlyWhen`); a user who holds all n - 1 buffers and asks for one more gets there
  (`Lending.WaitInVainHappens`).
- A decoded frame with dummy channels fills the user's frame exactly when the dummy indexes are strictly increasing
  channel numbers (`Hpoc.OfmapInfo.DecodeFrame`, `Hpoc.SwappedDummiesOverflow`); nothing in the code checks that, and
  otherwise more is written.

Where comments and code part, the model follows the code: the comment at `udriver/mpuio/memx_mpuio_comm.c:209` speaks
of the largest quotient, the loop finds the least; the comment at `udriver/mpu/memx_cascadeplus.c:118` speaks of 64k
writes, the function writes about a row.

## Model

| member | source | states |
|---|---|---|
| Allocator.AllocateBuffers | udriver/mpuio/memx_mpuio_comm.c:189-297 | The whole allocation: it divides by zero exactly when `Traps`; it returns 5 exactly when no quotient from the starting one on divides every flow and equals none; 0 comes with the least such quotient, initial buffers that fit, and sizes doubled from them turn by turn, each flow in each round for as long as RAM and divisibility allow, until every flow is blocked; buffers plus RAM left equal the RAM at entry; any other code is the failure of the first flow that gets no initial buffer, so 3 never occurs |
| Allocator.OneAllocation | udriver/mpuio/memx_mpuio_comm.c:189-297 | At most one list of sizes meets that description |
| Allocator.FindQuotient | udriver/mpuio/memx_mpuio_comm.c:209-222 | The search ends: with the least common divisor of the flows from the start on that equals no flow, with "none" exactly when there is none, or in a division by zero exactly when the start is 0 or above the first flow that is not empty |
| Allocator.CheckQuotient | udriver/mpuio/memx_mpuio_comm.c:210-221 | One pass over the flows stops at the first one the candidate does not divide or equals |
| Allocator.RoundedUpCovers | udriver/mpuio/memx_mpuio_comm.c:203-207 | The starting quotient times the RAM covers the total, and the increment cannot wrap |
| Allocator.RoundedUpIsLeast | udriver/mpuio/memx_mpuio_comm.c:203-207 | No smaller quotient covers the total |
| Allocator.StartingQuotientCovers | udriver/mpuio/memx_mpuio_comm.c:196-207 | The quotients for which the RAM covers the wrapped total are exactly those from the starting one on |
| Allocator.ShareIsExact | udriver/mpuio/memx_mpuio_comm.c:226 | For a quotient that divides the flow the share times the quotient is the flow |
| Allocator.SmallFirstFlowTraps | udriver/mpuio/memx_mpuio_comm.c:203-216 | Concrete input on which the search overshoots: flows of 4 and 1000 bytes, 100 bytes of RAM |
| Allocator.InitialBuffers | udriver/mpuio/memx_mpuio_comm.c:225-260 | Initial buffers are the scaled shares while they fit and the RAM is conserved; otherwise the code is that of the first flow that fails |
| Allocator.ScaleBuffer | udriver/mpuio/memx_mpuio_comm.c:229-258 | The scaled share with code 0, or the code of `CodeFor` without it |
| Allocator.ScaledIsLeastDoubling | udriver/mpuio/memx_mpuio_comm.c:229-250 | A share is doubled the least number of times, at most two, that gives a multiple of four, and cut to 32 bits |
| Allocator.CodesByDoublings | udriver/mpuio/memx_mpuio_comm.c:229-258 | With k that number: 4 is returned for k = 2 and 2 for k = 1 exactly when the doubled size does not stay below the RAM, exceeds the flow or does not divide it; 6 for k = 0 exactly when the share exceeds the RAM; 0 otherwise |
| Allocator.InitialIsAligned | udriver/mpuio/memx_mpuio_comm.c:225-255 | An accepted initial buffer is a multiple of four that divides its flow, empty only with its flow |
| Allocator.FailureCodes | udriver/mpuio/memx_mpuio_comm.c:239-258 | The codes of a failing initial buffer are 2, 4 and 6 |
| Allocator.UnscaledAlwaysFits | udriver/mpuio/memx_mpuio_comm.c:203-259 | If no share has to be scaled, the starting quotient alone makes all initial buffers fit: error 6 needs scaling |
| Allocator.FillGreedily | udriver/mpuio/memx_mpuio_comm.c:262-295 | The doubling loop ends, conserves RAM, keeps every buffer a multiple of four dividing its flow, leaves each flow whole, larger than the RAM left, or with a double that does not divide it, and grows the flows in rounds, each by one doubling a turn exactly when it can |
| Allocator.FillStep | udriver/mpuio/memx_mpuio_comm.c:266-293 | One turn for one flow: it doubles exactly when its size is within the RAM and below the flow and its double divides the flow, and otherwise loses its checking bit; the "over flow size" return is unreachable |
| RoundRobin.TurnTaken | udriver/mpuio/memx_mpuio_comm.c:262-293 | If all flows have grown exactly as they could up to a turn, they have after it |
| RoundRobin.OneOutcome | udriver/mpuio/memx_mpuio_comm.c:262-295 | Growing in turn out of a given RAM determines how often each flow is doubled |
| PrimeFactor.FindMaxPrimeFactor | udriver/mpuio/memx_mpuio_comm.c:66-77 | The greatest prime factor for every 32-bit N > 0, including the N for which i * i wraps (1 for N = 1 and N = 0) |
| PrimeFactor.Euclid | udriver/mpuio/memx_mpuio_comm.c:66-77 | A prime dividing a product divides a factor: why dividing out loses no larger prime |
| PrimeFactor.DivideOut | udriver/mpuio/memx_mpuio_comm.c:71 | Dividing a trial prime out keeps account of every prime factor |
| PrimeFactor.TrialMiss | udriver/mpuio/memx_mpuio_comm.c:69-70 | What trial division has established survives a divisor that misses, above 65535 as well |
| PrimeFactor.TrialHit | udriver/mpuio/memx_mpuio_comm.c:70-73 | And a divisor that hits and is divided out |
| PrimeFactor.TrialEnd | udriver/mpuio/memx_mpuio_comm.c:69-76 | When the possibly wrapped loop test fails, what is left is 1 or the largest prime factor |
| BufferChoice.AssignSuitableBufferSize | udriver/mpuio/memx_mpuio_comm.c:79-120 | The result is the documented choice: the largest multiple within the cap, dividing the flow, of the row or of the better size built from its largest prime factor, and 4 when none of these fits; it is positive, a multiple of four, within the cap and a divisor of the flow size if and only if the flow size is a multiple of four and the cap is at least 4 |
| BufferChoice.LargestFittingMultiple | udriver/mpuio/memx_mpuio_comm.c:107-116 | The downward scan picks the largest multiplier within the cap whose product divides the flow, or keeps the start |
| BufferChoice.StartingSize | udriver/mpuio/memx_mpuio_comm.c:89-101 | The start of the scan is the row when it fits, otherwise the larger within the cap of four times its largest prime factor and four quarters of the cofactor, and the smaller of them when neither fits |
| BufferChoice.UnitIsRow | udriver/mpuio/memx_mpuio_comm.c:81-87 | Sizes are cut from a row exactly when the rows fill the flow and a row is a multiple of four, and from the whole flow otherwise |
| BufferChoice.ChoiceIsUnique | udriver/mpuio/memx_mpuio_comm.c:79-120 | Only one size meets the description of the choice |
| BufferChoice.CandidatesDivide | udriver/mpuio/memx_mpuio_comm.c:90-99 | For an aligned unit of at least 8 bytes both sizes built from the largest prime factor are positive multiples of four dividing it |
| BufferChoice.ChoiceIsUsable | udriver/mpuio/memx_mpuio_comm.c:79-120 | A choice passes the caller's check exactly for aligned flows and caps of at least 4 |
| BufferChoice.UnalignedFlowHasNoChoice | udriver/mpuio/memx_mpuio_comm.c:79-120 | A flow size for which the answer fails the check |
| BufferChoice.FlowSizeAligned | udriver/mpuio/memx_mpuio_comm.c:21-64 | Every computed output flow size is a multiple of four, wrapped products included |
| BufferChoice.FlowSizeIsExact | udriver/mpuio/memx_mpuio_comm.c:21-64 | For every format and padding: the flow size is the rows padded to four bytes each, or the frame padded once, with all wrapping amounting to one cut to 32 bits; a pixel takes ten bytes for eight channels begun, or two or four for each |
| BufferChoice.SetUpCheckPasses | udriver/mpuio/memx_pcie.c:1655-1659 | For every frame shape and format the size chosen for its flow size passes the set-up check on divisibility and alignment |
| GbfStream.Projection | pymodule/convert.h:59-199 | Encode after decode after encode gives the same bytes, for every run of 32-bit patterns of every length |
| GbfStream.BlockProjection | pymodule/convert.h:59-199 | The same for one block of one to eight values: the shared exponent and every lane come back |
| GbfStream.RoundTripError | pymodule/convert.h:71-83 | Every value of every run comes back with its sign and within half a rounding unit of itself, below the shared exponent of its block within half a step more, and as zero from a distance of 8 on; words that round over the top come back as if zero with the other sign |
| GbfStream.StoredLanes | pymodule/convert.h:85-195 | The same of what is stored: lane k % 8 of packet k / 8 holds value k |
| GbfStream.StoredFromNearest | pymodule/convert.h:71-195 | To the bit: what is stored for the multiple of 2^16 nearest to value k |
| GbfStream.PaddingLanes | pymodule/convert.h:110-195 | Lanes beyond the last value are empty |
| GbfStream.SharedExponent | pymodule/convert.h:102-109 | The last byte of a packet is the largest exponent its values have after rounding |
| GbfStream.DecodedWord | pymodule/convert.h:506-574 | Value k of any packets, whoever wrote them, is lane k % 8 of packet k / 8 under that packet's exponent |
| GbfCodec.RoundedIsNearest | pymodule/convert.h:90-95 | The addition and the mask round to the nearest multiple of 2^16, ties upward; only words from 0xFFFF8000 on wrap, to 0 |
| GbfCodec.RoundedValue | pymodule/convert.h:90-95 | Rounding keeps the sign and moves the value by at most half a unit, a carry into the exponent included |
| GbfCodec.StoredValue | pymodule/convert.h:71-83 | The stored value of a rounded word under a shared exponent: exact, within half a step with ties upward, or nothing |
| GbfCodec.StoredIsUnique | pymodule/convert.h:71-83 | Only one mantissa and sign is that |
| GbfCodec.FieldsOfWord | pymodule/convert.h:51-56 | A word is sign, eight bits of exponent and the fraction of binary32 |
| GbfBlock.PackedBytes | pymodule/convert.h:27-49 | Each of the ten bytes: lane k takes nine bits from bit 9k on, mantissa then sign, low byte first; the exponent is the last byte |
| GbfStream.EncoderOutputDecodesAlike | pymodule/convert.h:506-574 | Table decoder and loop decoder agree on everything the encoder writes, padding lanes included |
| GbfStream.MaxExpBounds | pymodule/convert.h:102-109 | The shared exponent is the largest of the block and is attained |
| GbfCodec.EncodingError | pymodule/convert.h:71-83 | Stored mantissa 128 + m at shift 0, within 2^(s-1) of it at scale 2^s for s of 1 to 7 with ties upward, zero with sign 0 from 8 on |
| GbfCodec.DecodeKeepsValue | pymodule/convert.h:506-574 | Decoding keeps the sign and the value of every lane the encoder can write |
| GbfCodec.LaneProjection | pymodule/convert.h:71-83 | Decoding then encoding a lane under its shared exponent gives the lane back, and the exponent never rises |
| GbfCodec.EncodedLaneIsCanonical | pymodule/convert.h:71-83 | Encoder lanes never make the decoder saturate; a lane at the shared exponent keeps its leading one |
| GbfCodec.MantissaShift | pymodule/convert.h:71-83 | Size and leading zeros of the stored mantissa for every shift |
| GbfCodec.NormaliseShift | pymodule/convert.h:537-565 | Shifting by the table's leading-zero count brings the leading one to the top, and encoding at that shift restores the byte |
| GbfCodec.FastDecodeIsLoopDecode | pymodule/convert.h:506-574 | The table decoder equals the looping decoder exactly when the mantissa is 0 or its leading zeros do not exceed the exponent |
| GbfCodec.DecodersDiffer | pymodule/convert.h:506-574 | A lane on which the two decoders differ |
| GbfCodec.DecodeBelowZero | pymodule/convert.h:537-565 | On every lane with more leading zeros than the exponent: one decoder stops at exponent 0, the other wraps around |
| GbfCodec.SaturationIsClamp | pymodule/convert.h:227-232 | The wrapped byte subtraction is the difference cut off at 0 |
| GbfCodec.DecodeLaneByLoop | udriver/gbf/memx_gbf.c:256-268 | The shift-until-leading-one loop ends and computes `LoopDecoded` |
| GbfBlock.UnpackPack | pymodule/convert.h:27-49 | The ten bytes determine the block: exponent, eight mantissas, eight signs |
| GbfBlock.UnpackedLanes | pymodule/convert.h:515-534 | The shifts and masks of the decoder read the bit fields the encoder wrote, the split lane 7 included |
| BlockStream.RunProjection | pymodule/convert.h:85-197 | A block code that is a projection on blocks is one on runs, ragged tails included |
| BlockStream.RoundTripChunk | pymodule/convert.h:85-197 | Each chunk of eight passes through the codec on its own |
| GbfBuffers.GbfEncode | pymodule/convert.h:59-199 | The encoder loop writes exactly the encoding into its stretch of the target and rounds exactly its stretch of the source in place |
| GbfBuffers.EncodeOneBlock | pymodule/convert.h:85-195 | One block of the encoder, short blocks included |
| GbfBuffers.GbfDecode | pymodule/convert.h:504-591 | The decoder loop with its tail through a scratch block writes exactly the decoded run and nothing else |
| GbfBuffers.DecodeOneBlock | pymodule/convert.h:506-574 | One block of the portable decoder from two loaded words |
| RowPad.ConvertRowPad | pymodule/convert.h:616-640 | Every pixel of every row stands encoded at its place, bytes outside pixels are unchanged, the source is rounded |
| RowPad.UnconvertRowPad | pymodule/convert.h:708-732 | Every pixel is decoded from its place; the rest of the target is unchanged |
| RowPad.RowPadRoundTrip | pymodule/convert.h:616-640 | Converting a frame and back gives each pixel the round trip of that pixel alone, and converting again repeats every pixel region byte for byte |
| RowPad.PixelsDisjoint | pymodule/convert.h:616-640 | Pixel regions do not overlap |
| RowPad.PixelInFrame | pymodule/convert.h:616-640 | Pixel regions lie inside the frame |
| RowPad.PixelPlace | pymodule/convert.h:623-639 | The running offsets of the loops are the closed-form place of the pixel |
| RowPad.AnnouncedSizeIsFrameSize | udriver/mpuio/memx_mpuio_comm.c:21-64 | The flow size announced for the row-padded format is the size of the frame the converter lays out |
| LoadBalance.NoLockOutInAnyRun | udriver/mpu/memx_cascadeplus.c:233-239 | In every state of every run some flow of the mode mask passes the row check or the frame check |
| LoadBalance.NeverLockedOut | udriver/mpu/memx_cascadeplus.c:233-239 | The same from the invariant, naming the flow |
| LoadBalance.BlockingVisit | udriver/mpu/memx_cascadeplus.c:222-230 | A visit to a waiting flow outside the mode, whatever the link takes, moves its read pointer to the write pointer, or to 0 when the frames wrap, and changes nothing else |
| LoadBalance.TwoVisitsDrain | udriver/mpu/memx_cascadeplus.c:219-230 | In any run without a push to it, two visits send all frames waiting in such a flow |
| LoadBalance.TwoPassesDrain | udriver/mpu/memx_cascadeplus.c:212-271 | So do two passes, for every such flow |
| LoadBalance.NonBlockingVisit | udriver/mpu/memx_cascadeplus.c:231-262 | A visit to a waiting flow of the mode: when it moves bytes, and then its counts, its pointer, both masks and the threshold |
| LoadBalance.IdleVisit | udriver/mpu/memx_cascadeplus.c:222-224 | A visit to a flow that is not set up or has nothing waiting changes nothing |
| LoadBalance.PushEffect | udriver/mpu/memx_cascadeplus.c:1066-1088 | A push moves the write pointer by one frame exactly when the flow is set up and has room |
| LoadBalance.EveryPassMovesInAnyRun | udriver/mpu/memx_cascadeplus.c:219-271 | From every state of every run: once every flow has a frame waiting, visiting each on a link that takes something moves bytes, whatever else happens in between |
| LoadBalance.FrameSkewInAnyRun | udriver/mpu/memx_cascadeplus.c:244-262 | Completed frames of two flows differ by at most one, and the frame mask is exactly the flows one frame ahead |
| LoadBalance.LockStepInAnyRun | udriver/mpu/memx_cascadeplus.c:233-262 | Full rounds of every flow are the whole rounds contained in the bytes the link has taken |
| LoadBalance.AccountKeepsLevels | udriver/mpu/memx_cascadeplus.c:239-262 | A write keeps row counts of all flows within one of each other, and the threshold at the last writer's count |
| LoadBalance.AccountKeepsRounds | udriver/mpu/memx_cascadeplus.c:246-262 | A write keeps the frame counts level up to the frame mask |
| LoadBalance.ApplyKeepsBalance | udriver/mpu/memx_cascadeplus.c:222-270 | Every push and every visit keeps the invariant |
| LoadBalance.RunsStayBalanced | udriver/mpu/memx_cascadeplus.c:189-275 | So every run does |
| LoadBalance.IfmapWorker.constructor | udriver/mpu/memx_cascadeplus.c:196-199 | The worker starts with empty masks and threshold 0 |
| LoadBalance.IfmapWorker.VisitFlow | udriver/mpu/memx_cascadeplus.c:222-270 | What the pass does to one flow, masks, threshold and the "all empty" flag included |
| LoadBalance.IfmapWorker.BookWrite | udriver/mpu/memx_cascadeplus.c:244-262 | Masks and threshold after a write |
| LoadBalance.IfmapWorker.WriteSome | udriver/mpu/memx_cascadeplus.c:149-175 | The scheduler's view of one non-blocking write |
| LoadBalance.IfmapWorker.Pass | udriver/mpu/memx_cascadeplus.c:212-271 | A pass is the visits of all flows in order; the worker is told it may sleep exactly when no valid ring holds a frame |
| FrameRing.TakenInOrder | udriver/mpu/memx_cascadeplus.c:54-179 | In every interleaving of pushes and partial writes the link has a prefix of the padded frames in push order, exactly as long as the popped frames and the bytes in flight, and all of them once the ring is drained |
| FrameRing.TakenBytes | udriver/mpu/memx_cascadeplus.c:54-179 | Byte k of frame j is byte j x size + k of what the link has taken, with zeros behind each frame |
| FrameRing.RunFits | udriver/mpu/memx_cascadeplus.c:69-81 | A blocking write offers all waiting frames, up to the end of the ring |
| FrameRing.NeverStuck | udriver/mpu/memx_cascadeplus.c:69-81 | The early return that leaves the ring locked is unreachable |
| FrameRing.WriteSlotIsPrivate | udriver/mpu/memx_cascadeplus.c:1066-1088 | The slot being filled is never among those being written to the link |
| FrameRing.OfferedIsStream | udriver/mpu/memx_cascadeplus.c:84-93 | The bytes offered to the link are the oldest waiting frames, padded |
| FrameRing.BeginKeepsInv | udriver/mpu/memx_cascadeplus.c:69-81 | The contiguous run is made of waiting frames and ends within the ring |
| FrameRing.CopyKeepsInv | udriver/mpu/memx_cascadeplus.c:1078-1084 | The copy overwrites no waiting frame and leaves the padding zero |
| FrameRing.RunKeepsInv | udriver/mpu/memx_cascadeplus.c:54-179 | The ring invariant holds after every sequence of steps |
| IfmapRing.FrameBuffer.constructor | udriver/mpu/memx_cascadeplus.c:548-582 | A new ring is empty and zeroed |
| IfmapRing.FrameBuffer.StreamIfmap | udriver/mpu/memx_cascadeplus.c:1046-1097 | A push succeeds exactly when fewer than n - 1 frames wait, and is then the three producer steps on the flat buffer; otherwise nothing changes |
| IfmapRing.FrameBuffer.TransferBlocking | udriver/mpu/memx_cascadeplus.c:54-115 | The blocking transfer writes the whole contiguous run in order for every split into partial writes and then pops it, up to the write pointer or the end of the ring; until then it has written exactly what the link took |
| IfmapRing.FrameBuffer.WriteSome | udriver/mpu/memx_cascadeplus.c:90-104 | One write of it |
| IfmapRing.FrameBuffer.WriteRun | udriver/mpu/memx_cascadeplus.c:90-104 | The loop of writes |
| IfmapRing.FrameBuffer.PopRun | udriver/mpu/memx_cascadeplus.c:106-110 | The pointer moves past the run entry by entry |
| IfmapRing.FrameBuffer.TransferNonblocking | udriver/mpu/memx_cascadeplus.c:125-179 | One non-blocking write of exactly the least of reply, limit and remainder; the frame is popped exactly when its last byte is taken |
| IfmapRing.FrameBuffer.TakeChunk | udriver/mpu/memx_cascadeplus.c:159-175 | Bookkeeping of that write: a chunk is counted, and the last byte of a frame pops it |
| IfmapRing.SchedulerSeesChunk | udriver/mpu/memx_cascadeplus.c:159-175 | What the scheduler's model of a non-blocking write says of pointers and counts is what the write does to the ring |
| IfmapRing.SchedulerSeesDrain | udriver/mpu/memx_cascadeplus.c:67-110 | And likewise for a whole blocking transfer, whose run ends at the write pointer or wraps to 0 |
| IfmapRing.SchedulerSeesPush | udriver/mpu/memx_cascadeplus.c:1066-1088 | And for a push |
| IfmapRing.WriteLimitPositive | udriver/mpu/memx_cascadeplus.c:140-146 | The write length is positive and a multiple of four |
| IfmapRing.WriteLimitExactly | udriver/mpu/memx_cascadeplus.c:140-146 | It is the row cut to whole words, or one word for a shorter row; with flow control and a frame below 256 KiB that needs more writes than there are buffers, the largest whole-word share of a frame for that many writes |
| IfmapRing.RunIsFlat | udriver/mpu/memx_cascadeplus.c:84-93 | Consecutive slots are one stretch of the flat buffer |
| IfmapRing.FullTest | udriver/mpu/memx_cascadeplus.c:1066 | The test on wrapped indexes says that n - 1 frames wait |
| Lending.LentIsIntact | udriver/mpu/memx_cascadeplus.c:1464-1572 | In every run without a read across two frames a lent buffer the read pointer is at most one past still holds the frame handed out and is not the slot the worker may write, nor its slot at all while the pointer is not past it |
| Lending.InOrderIsIntact | udriver/mpu/memx_cascadeplus.c:1464-1572 | In every run with returns in lending order no lent buffer is ever the worker's slot, and each holds the frame handed out unless the ring has jammed |
| Lending.OutOfOrderOverruns | udriver/mpu/memx_cascadeplus.c:1464-1482 | A run from the start, for every ring of three slots or more, in which the worker overruns a buffer the user keeps |
| Lending.JamHappens | udriver/mpu/memx_cascadeplus.c:295-318 | A run of two reads that jams, for every frame of more than a byte |
| Lending.LandedInSlot | udriver/mpu/memx_cascadeplus.c:295-300 | A read within the frame lands in the worker's slot alone |
| Lending.LandedByte | udriver/mpu/memx_cascadeplus.c:295-300 | Any read lands back to back from the bytes already there, past the slot as well, and changes no other byte |
| Lending.InOrderLending | udriver/mpu/memx_cascadeplus.c:1464-1482 | With returns in lending order the lent buffers are exactly those dequeued and not returned |
| Lending.SafeExactlyWhenRecent | udriver/mpu/memx_cascadeplus.c:1464-1482 | The worker can come round to a buffer the user keeps, without further returns, exactly when the read pointer is two or more past it |
| Lending.JamsExactlyOnCrossing | udriver/mpu/memx_cascadeplus.c:295-318 | The transferred size passes the frame size exactly when some read delivers more than the frame under way still needs |
| Lending.JamIsForever | udriver/mpu/memx_cascadeplus.c:309-318 | After that every byte delivered adds to the size, which never meets the frame size again: no frame is ever received |
| Lending.RemainIsDistance | udriver/mpu/memx_cascadeplus.c:285-322 | The free-buffer count plus a dequeue under way is the ring distance from the next slot to lend to the worker's slot |
| Lending.HandedInOrder | udriver/mpu/memx_cascadeplus.c:1535-1572 | Without a read across two frames, users get whole frames cut from the link's bytes, in order, none skipped |
| Lending.HopelessExactlyWhen | udriver/mpu/memx_cascadeplus.c:1546-1556 | In every state of every run a dequeue waiting without timeout gets no buffer in any continuation exactly when all received frames are handed out and the ring is full or jammed |
| Lending.WaitsForever | udriver/mpu/memx_cascadeplus.c:1546-1556 | Such a wait changes nothing for the user ever after: the lock stays held, so no return goes through, and nothing is handed out |
| Lending.WaitInVainHappens | udriver/mpu/memx_cascadeplus.c:1546-1556 | A run of every ring into such a wait: all buffers are lent, none is returned, one more is asked for |
| Lending.RunKeepsInv | udriver/mpu/memx_cascadeplus.c:285-322 | The pointer and data invariant holds after every sequence of steps, returns in any order |
| OutputRings.OutputRing.constructor | udriver/mpu/memx_cascadeplus.c:774-804 | A new output ring |
| OutputRings.OutputRing.Transfer | udriver/mpu/memx_cascadeplus.c:285-321 | One poll of the worker: nothing on a full ring, otherwise the bytes land behind those already there and a full slot is published; a read across two frames jams it, and a jammed worker reads on |
| OutputRings.OutputRing.DequeueOfmapBuf | udriver/mpu/memx_cascadeplus.c:1535-1572 | A dequeue succeeds exactly when a received frame has not been handed out, and lends the slot holding the oldest such frame; without one it gives up, or with timeout 0 stays waiting with the read lock held |
| OutputRings.OutputRing.PollBuffer | udriver/mpu/memx_cascadeplus.c:1548-1569 | One look of a waiting dequeue: with a buffer counted it takes and hands it out and gives up the lock, otherwise nothing changes |
| OutputRings.OutputRing.EnqueueOfmapBuf | udriver/mpu/memx_cascadeplus.c:1464-1482 | A return only advances the read pointer; the index is checked for range alone |
| EncodeRing.NoFrameStraddles | udriver/mpu/memx_cascade.c:94-158 | In every run the write pointer is a multiple of the height between frames; during one the linear position is the write pointer and the frame ends within the ring |
| EncodeRing.RowsInOrder | udriver/mpu/memx_cascade.c:94-158 | For every split of the writes the link gets the bytes of the rows of all frames in order, all of them once drained; the early return with the lock held is unreachable |
| EncodeRing.WrittenRow | udriver/mpu/memx_cascade.c:94-158 | Row k of frame j is row j x height + k of what was written |
| EncodeRing.OfferEffect | udriver/mpu/memx_cascade.c:470-490 | The worker is offered all rows not yet taken, up to the end of the ring |
| EncodeRing.LinearIsWrapped | udriver/mpu/memx_cascade.c:94-158 | The unwrapped offset of the encode loop is the wrapped write pointer |
| EncodeRing.RunKeepsInv | udriver/mpu/memx_cascade.c:94-158 | The invariant behind these, for every interleaving with the worker |
| EncodeRing.RowEncoder.EncodeFrame | udriver/mpu/memx_cascade.c:83-164 | The job writes the frame's rows in order until done or until the ring is full, each at the linear offset |
| EncodeRing.RowEncoder.EncodeOne | udriver/mpu/memx_cascade.c:100-157 | One row of it |
| RowRing.ReportDistance | udriver/mpu/memx_cascade.c:646-671 | In every run the distance from read to report pointer is height times the unfinished and dropped jobs less the rows the running job has read, less a frame, modulo the ring, between queueing a job and moving the pointer; the plain equation on unfinished jobs holds exactly when no job was dropped outside that gap, or one in it |
| RowRuns.JobOvertakesReport | udriver/mpu/memx_cascade.c:661-668 | A run of every ring in which the plain equation fails: a job is queued and done before the report pointer moves |
| RowRuns.DropInTheGap | udriver/mpu/memx_cascade.c:661-668 | A run of every ring in which it holds in that gap with one dropped job |
| RowRuns.ThreeDropsHappen | udriver/mpu/memx_cascade.c:200-204 | A run of every ring that drops three jobs |
| RowRing.FramesInOrder | udriver/mpu/memx_cascade.c:176-304 | Decoded frame k is the k-th group of height rows of the link's bytes: never an unwritten, skipped or overwritten row |
| RowRing.JobReadsWrittenRows | udriver/mpu/memx_cascade.c:205-279 | A running job reads rows that are reported, or due to be for a job just queued, and are written; it starts at a multiple of the height, stays in the buffer, and its linear position is the read pointer |
| RowRing.OneRowFree | udriver/mpu/memx_cascade.c:592-653 | A completed transfer is whole rows of the contiguous free run, and one row always stays free |
| RowRing.NeverBroken | udriver/mpu/memx_cascade.c:592-639 | No write or read leaves the buffer, and the early return that leaves the ring locked is unreachable |
| RowRing.WholeFramesReported | udriver/mpu/memx_cascade.c:654-671 | Between transfers a whole frame is unreported exactly when a job could not be queued |
| RowRing.ThreeDropsEndTheFlow | udriver/mpu/memx_cascade.c:200-204 | At most three jobs are ever dropped, and the third ends the flow: one of the ways that `RowLife.FlowLivesExactlyWhen` covers |
| RowLife.FlowLivesExactlyWhen | udriver/mpu/memx_cascade.c:590-671 | In every state of every run some continuation decodes another frame exactly when a job is unfinished, or fewer than three were dropped and a row still fits or the transfer under way may still queue a job |
| RowLife.IdleFlowLivesExactlyWhen | udriver/mpu/memx_cascade.c:700-705 | Between transfers: exactly when a job is unfinished, or fewer than three were dropped and the ring is not full |
| RowLife.MissEndsTheFlow | udriver/mpu/memx_cascade.c:661-666 | A run of every ring in which one job that cannot be queued ends the flow before any frame, with no drop |
| RowLife.DeadForever | udriver/mpu/memx_cascade.c:590-705 | Once the condition fails it fails for good, whatever the link, the workers and the queue do |
| RowLife.Revive | udriver/mpu/memx_cascade.c:577-674 | While it holds, a run to the next decoded frame is built: rows are brought in one at a time, a job queued and finished |
| RowRing.Room | udriver/mpu/memx_cascade.c:592-602 | The count of free rows on wrapped indexes: all free rows but one, up to the end of the ring |
| RowRing.AskedFits | udriver/mpu/memx_cascade.c:622-638 | Topping up a broken row stays within the free run |
| RowRing.UnreadOutsideRun | udriver/mpu/memx_cascade.c:592-619 | Unread rows lie outside the run being filled |
| RowRing.RunKeepsInv | udriver/mpu/memx_cascade.c:577-674 | The ring invariant holds after every sequence of steps |
| RowBuffers.RowBuffer.constructor | udriver/mpu/memx_cascade.c:1008-1034 | A new ring of four frames |
| RowBuffers.RowBuffer.Transfer | udriver/mpu/memx_cascade.c:577-674 | One transfer against the steps: bytes taken, rows published, jobs queued, for every way the reads are split |
| RowBuffers.DeliveredCases | udriver/mpu/memx_cascade.c:604-644 | How many bytes a transfer takes: the first delivery, and of the others what makes its last row whole |
| RowBuffers.RowBuffer.ReadRows | udriver/mpu/memx_cascade.c:604-644 | The reads: all free rows at once, then exactly the rest of a broken row |
| RowBuffers.RowBuffer.TopUp | udriver/mpu/memx_cascade.c:622-644 | The top-up loop asks for what is missing and no more |
| RowBuffers.RowBuffer.ReportFrames | udriver/mpu/memx_cascade.c:654-671 | As many jobs as whole unreported frames, up to the first one that cannot be queued |
| RowBuffers.RowBuffer.EnqueueJob | udriver/mpu/memx_cascade.c:662-666 | A job goes into the queue, or reporting ends |
| RowBuffers.RowBuffer.MoveReportPointer | udriver/mpu/memx_cascade.c:667-668 | The report pointer then moves by a frame |
| RowBuffers.RowBuffer.DecodeJob | udriver/mpu/memx_cascade.c:197-280 | The job hands out the next frame of the link's bytes, or is dropped without memory |
| Hpoc.OfmapInfo.DecodeFrame | udriver/mpu/memx_cascade.c:205-258 | For every dummy list the frame is the decoded channels that are no effective dummies, pixel by pixel; it fills the user's frame exactly when the list is strictly increasing channels, and is larger otherwise |
| Hpoc.OfmapInfo.UpdateHpoc | udriver/mpu/memx_cascade.c:963-998 | An empty list is refused; otherwise the user frame keeps height x width x original channels while the internal shape grows by the dummies |
| Hpoc.OfmapInfo.constructor | udriver/mpu/memx_cascade.c:895-908 | Sizes of a floating-point flow |
| Hpoc.DecodePixel | udriver/mpu/memx_cascade.c:231-255 | One pixel, block by block, each channel checked against the next dummy |
| Hpoc.FrameValues | udriver/mpu/memx_cascade.c:205-258 | If pixel (i, j) of the frame is the encoding of some values, its kept channels come out with those values as the portable decoder of the codec gives them back, in channel order and pixels in row-major order |
| Hpoc.PixelValues | udriver/mpu/memx_cascade.c:231-255 | The same for one pixel |
| Hpoc.ChannelValue | udriver/mpu/memx_cascade.c:231-239 | And for one channel: the looping decoder on the place of channel c gives value c |
| Hpoc.KeptChannels | udriver/mpu/memx_cascade.c:240-251 | The kept channels are in order, and exactly those that are no effective dummies |
| Hpoc.FullPixelExactlyWhenProper | udriver/mpu/memx_cascade.c:240-251 | A pixel yields as many floats as it has real channels exactly for strictly increasing dummies below the channel count; otherwise more |
| Hpoc.FullFrameExactlyWhenProper | udriver/mpu/memx_cascade.c:227-258 | The same for a frame |
| Hpoc.SwappedDummiesOverflow | udriver/mpu/memx_cascade.c:240-251 | Two dummies in the wrong order, for which a pixel yields too many floats |
| Hpoc.KeptCount | udriver/mpu/memx_cascade.c:240-251 | How many channels are kept |
| RingIndex.FrameStart | udriver/mpu/memx_cascade.c:842-867 | Frame boundaries are multiples of the height and none of the four frames crosses the ring's end |

## Left out

- LoadBalance.IfmapWorker.VisitFlow: sees of a transfer only the byte count and the pointers; the bytes are the subject of IfmapRing, which also proves that the two views agree.
- IfmapRing.FrameBuffer.TransferBlocking: returns where the replies end, as the object runs alone; the source keeps trying.
- IfmapRing.FrameBuffer.StreamIfmap: makes one test for room in place of the polling loop with its timeout count.
- OutputRings.OutputRing.Transfer: does not model memory behind the buffer, where reads of a jammed worker end up.
- OutputRings.OutputRing.DequeueOfmapBuf: looks once at the count of buffers and then gives up or stays in the waiting state, in place of the polling loop with its timeout count; giving up later is a step of Lending.
- OutputRings.OutputRing.EnqueueOfmapBuf: takes only returns of a buffer that is lent; the source also accepts a return when nothing is lent, or the same buffer twice, and moves the read pointer all the same.
- LoadBalance.IfmapWorker.WriteSome: takes what the link accepts as an argument; the limit on one write is in IfmapRing.FrameBuffer.TransferNonblocking.
- RowBuffers.RowBuffer.Transfer: returns where the deliveries end, as the object runs alone; the source keeps reading.
- RowBuffers.RowBuffer.DecodeJob: hands out row bytes; the conversion of a row to floats is in Hpoc, that of the plain formats is a copy or the codec applied per pixel and is not repeated.
- EncodeRing.RowEncoder.EncodeFrame: takes the encoded rows of a frame as given; row padding on Cascade is never written by the code and has no stated value.
- GbfBuffers.GbfEncode: writes the fields of a block through one packed word, not by eight separate bit-field updates.
- Integer widths: sizes and offsets of rings and frames are unbounded; `int32_t` products of shapes are not wrapped outside the allocator and the flow size.
- AVX2, BMI2 and NEON branches of the codec: only the portable branch is modelled.
- `memx_cascade_plus_enqueue_ifmap_buf`: its pointer update at `udriver/mpu/memx_cascadeplus.c:1441` adds the running total on every pass, so a claim that bytes go out in order fails from the third partial write on.
- `unconvert_gbf_hpoc` at `pymodule/convert.h:685`: bounds the dummy index by the channel count; the Cascade decoder, which checks the list length, is modelled instead.
- Float-to-RGB conversion, raw and 16-bit formats beyond their sizes.
- Several job workers per direction, the frame queues between jobs and user, and their timeouts.
- Shutdown (`enable` set to 0) and the pending state of the workers.
- Changing shapes, queue sizes or `input_mode_flag` while streaming, and mixing the copying and zero-copy calls on one flow.
- Device, USB and PCIe access, firmware download, platform wrappers, bindings, model file parsing.
