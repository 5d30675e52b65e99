# LoRaITP: a verified model

LoRaITP sends images over LoRa radio. A sender cuts an image into chunks and blocks, protects each block
with a Reed-Solomon code, keeps to a legal airtime budget, and broadcasts or repairs block by block; a
receiver reassembles. This project models the protocol core in Dafny and proves what it is for.

* **Erasure code** (`Generator`, `Bytes`, `Gf256`, `Linear`, `Cauchy`, `Layout`, `Tables`, `Invert`, `Erasure`,
  `Fec`): the field built by the table loops, the Cauchy generator, Gauss-Jordan inversion and decoding in
  place on flat byte arrays. Any k of the k + r frames rebuild the block.
* **Duty-cycle governor** (`Clock`, `Governor`, `DutyCycle`, `OffTimes`, `Snapshot`, `Reboot`, `Crashes`): a ring of 256
  slots on a 32-bit millisecond clock, against a log of true transmissions in unbounded time; that its waits are neither
  too short nor too long; the snapshot that carries it across reboots; runs with crashes at any point, the middle of a
  mirror included.
* **Sessions** (`Frames` to `EndToEnd`, `Interactive*`, `Assembly`, `Assembler`, `Prospects`): frame ordinals, the
  broadcast sender, STAT bodies, the receiver as a state machine (`Receiver`) and as the object that implements it in
  place (`Session`), broadcast end to end, what an early COMPLETE is worth (`AnyLosses`, `Unheard`), what is saved when a
  transfer stops early (`Salvage`), interactive safety over every run and delivery over every lossless one
  (`InteractiveDelivery`), exact feasibility, and the simulator's whole-image receiver.
* **JPEG entropy coder** (`BitStrings`, `Huffman`, `Magnitude`, `BlockCoder`, `Segments`, `BitWriter`, `Scan`,
  `ScanEncoder`, `StandardTables`): from quantised coefficients to a scan with restart markers, against the
  decoder of ITU-T T.81 Annex F.
* **Smaller parts**: CRC-32 (`Crc`) as a polynomial remainder (`CrcRemainder`), META frames and TLVs (`MetaFrame`), CMAC over any block function (`Cmac`,
  `Sealing`), time on air (`Airtime`). `Arithmetic` holds products and quotients by name, `Wrappers` the option type.

`dafny verify dfyconfig.toml` checks everything.

## What holds only under a condition

* The rolling-hour bound needs every estimate to be within the whole budget. A longer frame is not held back
  at all (`DutyCycle.OversizeFrameNotHeld`, `DutyCycle.OversizeFrameBreaksTheHour`). A frame that runs beyond its
  estimate costs its own overshoot, in the hours it is the newest frame of; recording after the frame has ended
  dates it late, which is the safe direction.
* `blocked_until` is never refreshed: more than 2^31 ms after an off-time has ended it reads as pending again
  (`DutyCycle.OffTimeWaitExact` says exactly when the wait is right).
  The wait is the least one, too, as long as that off-time ended at most 2^31 ms before (`OffTimes.WaitIsExact`).
* A full ring folds its two oldest slots and so can re-date an expired one: the sum over-counts, never under. A
  head that expires during every wait gathers airtime from fold to fold, so once the ring has been full the law
  supposes that its own sum with the new frame stays below 2^32 - 3,600,000 ms. Before that it is proved, late returns
  and folded snapshots included (`DutyCycle.RoomUntilFull`), and the law needs no such condition
  (`DutyCycle.EveryHourUntilFull`).
* Questions come less than 2^31 - 3,600,000 ms apart, and the off-time after a frame is below 2^31 - 3,600,000 ms, which
  a frame that keeps to its estimate meets (`DutyCycle.WithinEstimateIsBrief`).
* A reboot keeps the hour for frames that were mirrored, provided the board is away at least as long as it
  recorded. A crash inside `budget_mirror` leaves memory half old, half new, in the order of its writes. When
  restore refuses that, the hour already mirrored is forgotten and the budget is granted again: the law fails
  (`Crashes.TornMirrorBreaksTheHour`). It holds for every continuation if and only if nothing was on the air from one
  hour less one budget before the return up to it (`Crashes.SilenceIsExact`). Damage within 32 consecutive bits
  is always refused (`Crashes.BurstIsRefused`); a crash before the first write or after the last but one leaves a
  whole mirror (`Crashes.WholeBeforeMagic`).
* The snapshot holds (1040 - 24) / 8 = 127 entries; the comment in `src/loraitp.h` says 128.
* The C receiver's early COMPLETE in broadcast looks at the last block only. A block none of whose frames is heard
  goes unnoticed (`AnyLosses.SkippedBlockGoesUnnoticed`). COMPLETE means the whole image if and only if some frame
  of every block got through after a META (`Unheard.CompleteIsWholeWhenAllReached`). The receiver itself can tell by
  the chunk count it returns (`AnyLosses.CompleteIsWholeWhenCounted`). With k frames of every block COMPLETE always
  comes, and comes with the image (`BroadcastProof.BroadcastDelivers`). The simulator's receiver has no such
  gap (`Assembly.BroadcastVerdict`).
* The C receiver's feasibility test is exact for the block it is working on; the simulator's for all blocks.
* A receiver that stops at a frame or a FIN has stored every source chunk it heard of the image since the META. One that
  gives up because a listening window brought nothing does not flush, and can leave chunks of the block it was working
  on in the block buffer (`Salvage.HeardIsStored`).
* A lossless interactive transfer ends with the whole image if there is at least one round and one EOB to a round
  (`InteractiveDelivery.LosslessEnds`).
* Sessions suppose a conforming META: at least one byte of image (`EmptyImage` treats none on its own), chunk at
  least 1, block 1 to 128, k + r at most 255, and chunk and parity
  numbers that fit 16 bits. Packets arrive in the order sent, each at most once; STATs and FINACKs may be
  lost, delayed or repeated within the session.
* Time on air agrees with the exact formula for spreading factors 7 to 12 while the result fits 32 bits.
* JPEG blocks hold DC coefficients of -1024 to 1023 and AC coefficients of at most 1023 in magnitude.

## Model

| member | source | states |
|---|---|---|
| Generator.OrderIs255 | src/loraitp_fec.c:26-41 | no power of the generator below the 255th is 1, so the exponent loop visits every non-zero byte once |
| Gf256.ExpInjective | src/loraitp_fec.c:31-37 | distinct exponents below 255 name distinct bytes: the log table is never overwritten |
| Gf256.ExpSurjective | src/loraitp_fec.c:31-37 | every non-zero byte is some power below 255: the log table has no gap |
| Tables.GfTables.Init | src/loraitp_fec.c:26-41 | whatever the arrays held, after the loops every antilog entry up to 511 and every log entry is the field's |
| Tables.GfTables.Mul | src/loraitp_fec.c:43-48 | two table reads and an addition give the field product for all pairs of bytes |
| Tables.GfTables.Inv | src/loraitp_fec.c:50-53 | the table read gives the field inverse of every non-zero byte |
| Tables.GfTables.Cauchy | src/loraitp_fec.c:55-59 | the entry is the inverse of a byte that is never zero while r + j < 256 |
| Gf256.MulIsPolynomialProduct | src/loraitp_fec.c:43-48 | the product by logarithms is the product of polynomials modulo 0x11D |
| Gf256.MulAssociates | src/loraitp_fec.c:43-48 | associativity of the table product |
| Gf256.MulDistributes | src/loraitp_fec.c:43-48 | the table product distributes over exclusive or |
| Gf256.MulInv | src/loraitp_fec.c:50-53 | an element times its inverse is 1 |
| Cauchy.CauchyRegular | src/loraitp_fec.c:55-59 | a Cauchy system has no kernel: any number of distinct parity rows that send a vector supported on as many columns to zero force it to be zero |
| Cauchy.AnySelectionRegular | src/loraitp_fec.c:101-130 | every selection of k distinct rows of the generator [I ; C] is non-singular, for every k + r up to 255 |
| Linear.NoPivotSingular | src/loraitp_fec.c:105-109 | a column without a pivot means the original matrix was singular |
| GaussJordan.FindPivot | src/loraitp_fec.c:105-107 | the first row from the diagonal down with a non-zero entry, or k |
| GaussJordan.SwapRowsInPlace | src/loraitp_fec.c:110-115 | exactly the two rows are exchanged in the flat buffer |
| GaussJordan.Eliminate | src/loraitp_fec.c:119-127 | every other row is cleared in the pivot column by sound row operations |
| GaussJordan.Invert | src/loraitp_fec.c:101-130 | in place on k x 2k bytes: success if and only if the matrix is non-singular, and then the right half is its two-sided inverse and bytes beyond the tableau are untouched |
| Fec.MacRow | src/loraitp_fec.c:66-77 | adds coefficient times source over the span, whatever the coefficient, and touches nothing else |
| Fec.Encode | src/loraitp_fec.c:79-94 | refuses exactly k = 0, r = 0 or k + r > 255 and then leaves the buffer alone; otherwise parity chunk i is frame k + i of the data's codeword |
| Erasure.Systematic | src/loraitp_fec.c:79-94 | the first k frames of a codeword are the data |
| Fec.Pick | src/loraitp_fec.c:149-153 | the first k frames present, in order, or all there are |
| Fec.BuildTableau | src/loraitp_fec.c:157-169 | the selected generator rows beside the identity, in cleared scratch memory |
| Fec.FillMissing | src/loraitp_fec.c:171-180 | only missing source chunks are written, each from chunks the loop never overwrites |
| Fec.Decode | src/loraitp_fec.c:137-182 | with k frames present it always succeeds, never reports a singular matrix, writes missing source chunks only, and rebuilds exactly the data of any codeword the frames come from; with fewer it reports so and changes no chunk |
| Erasure.RecoveredIsData | src/loraitp_fec.c:171-180 | the recovered block is the data, whichever k frames were heard |
| Erasure.AnyKFramesDetermineTheBlock | src/loraitp_fec.c:137-182 | two blocks whose codewords agree on k frames are the same block |
| Clock.DeltaIsReal | src/loraitp_governor.c:64 | a wrapped difference read as signed is the true one within half the clock's range |
| Governor.Ring.PruneRing | src/loraitp_governor.c:124-133 | the ring after pruning is the list of slots without its expired head |
| Governor.Ring.AirtimeInWindow | src/loraitp_governor.c:135-142 | prunes, then sums what is left modulo 2^32 |
| Governor.Ring.DelayMs | src/loraitp_governor.c:144-172 | the wait of the two rules together, after pruning; 0 without a duty limit |
| Governor.Ring.FindFreeing | src/loraitp_governor.c:160-168 | the first slot by whose expiry enough airtime is freed |
| Governor.Ring.RecordTx | src/loraitp_governor.c:174-196 | folds the two oldest slots when full and appends the frame; blocked_until moves past the record by the off-time that makes the frame the duty share, to the millisecond, and stays put without a limit |
| Governor.OffTimeShare | src/loraitp_governor.c:191-194 | of the off-time, counted from the record, the frame is the duty share, to the millisecond |
| Governor.BudgetShare | src/loraitp_governor.c:43-49 | the budget is the duty share of an hour, rounded down to the millisecond |
| DutyCycle.PruneIsTrim | src/loraitp_governor.c:124-133 | pruning from the head removes exactly the frames that ended an hour ago, on a clock within half its range of every slot |
| DutyCycle.RecordReads | src/loraitp_governor.c:174-187 | the ring keeps reading as the true times behind it when a frame is recorded, folded or not |
| DutyCycle.ReportedAirtime | src/loraitp_governor.c:135-142 | at every query the ring's sum is at least the log's airtime in the window, and equal to it until the first fold |
| DutyCycle.DelaySuffices | src/loraitp_governor.c:144-172 | once the delay has passed the off-time is over and the hour has room for the frame asked about |
| DutyCycle.AdmittedObeysEveryHour | src/loraitp_governor.c:144-172 | if each frame, as estimated, was admitted against the hour before it, every hour, wherever it starts, is within the budget plus what the newest frame started by its end ran over |
| DutyCycle.EveryHourWithinBudget | src/loraitp_session.c:183-199 | over every run of ask, wait, send and record, the airtime in any hour is at most the budget plus the newest frame's own overshoot of its estimate |
| DutyCycle.RoomUntilFull | src/loraitp_governor.c:135-142 | until the ring has been full its sum is at most the budget plus the newest frame's overshoot, so no 32-bit sum wraps |
| DutyCycle.EveryHourUntilFull | src/loraitp_session.c:183-199 | the same law, with nothing supposed of sums, over runs that never fill the ring, however long |
| DutyCycle.WithinEstimateIsBrief | src/loraitp_governor.c:191-194 | a frame that keeps to an estimate within the budget has an off-time the clock can tell |
| DutyCycle.OversizeFrameNotHeld | src/loraitp_governor.c:157-170 | an estimate above the whole budget is not held back by the window rule |
| DutyCycle.OversizeFrameBreaksTheHour | src/loraitp_governor.c:157-170 | so the bound needs estimates within the budget: a fresh governor grants any longer frame at once |
| DutyCycle.OffTimeWaitExact | src/loraitp_governor.c:150-151 | the off-time wait is right if and only if the off-time ended at most 2^31 ms ago |
| DutyCycle.NoHourOverItsShare | src/loraitp_session.c:183-199 | the rolling-hour law in numbers: of 3,600,000 ms from anywhere at most the share in millionths, and the newest frame's overshoot |
| OffTimes.WaitIsLeast | src/loraitp_governor.c:144-172 | before the wait is over, either the off-time is not or the hour has no room for the frame |
| OffTimes.WaitIsExact | src/loraitp_governor.c:144-172 | a start is late enough if and only if the off-time is over and the hour before it has room |
| OffTimes.EveryFrameRests | src/loraitp_session.c:183-199 | over every run each frame starts after the off-time of the one before, of which that frame is the duty share |
| OffTimes.DutyShare | src/loraitp_session.c:183-199 | so from the start of any frame to that of any later one the airtime is the duty share, give or take a millisecond a frame |
| OffTimes.TotalIsEverySent | src/loraitp_governor.c:174-196 | over every run the total is the airtime of everything sent, modulo 2^32 |
| OffTimes.EveryFrameRestsAcrossReboots | firmware/app/main.cpp:97-138 | off-times hold over every run with crashes, for the frames not forgotten |
| OffTimes.PunctualReturnOwesTheSame | src/loraitp_governor.c:336-337 | a board that is away exactly as long as it recorded owes exactly the off-time it owed before |
| Snapshot.ExportState | src/loraitp_governor.c:239-290 | prunes and writes the snapshot's bytes, or nothing when the buffer is too small |
| Snapshot.ExportReadable | src/loraitp_governor.c:239-290 | what is written passes the reader's checks and carries every entry, the total and the block |
| Snapshot.SnapshotLayout | src/loraitp_governor.c:239-290 | magic, version, count, total, off-time left, then age and airtime of each entry eight bytes apart, then the CRC: every offset as a number |
| Snapshot.ImportState | src/loraitp_governor.c:292-348 | accepts exactly readable blobs and otherwise leaves the governor alone |
| Reboot.BackReads | src/loraitp_governor.c:292-348 | export then import gives the folded, aged and trimmed ring, the total and the off-time |
| Reboot.BackCovers | src/loraitp_governor.c:239-348 | no entry still in the window is dropped, and the account is exact when nothing was folded or late |
| Reboot.MirrorAccepted | firmware/app/main.cpp:97-138 | a mirror left whole is accepted at start-up and hands over the exported blob |
| Reboot.BelievedOnlyWhole | firmware/app/main.cpp:112-131 | a wrong magic, an empty or oversize length or a wrong checksum leaves the governor alone |
| Crashes.WritesAreMirror | firmware/app/main.cpp:97-110 | the writes of export and mirror, in their order, add up to the mirror over whatever memory held |
| Crashes.WholeBeforeMagic | firmware/app/main.cpp:105-109 | over an older mirror the last write changes nothing |
| Crashes.EveryHourWithinBudgetAcrossReboots | firmware/app/main.cpp:97-138 | over every run that interleaves transmissions, mirrors, crashes at any point and deep sleeps, all mirrored frames obey the rolling hour, as long as each return from a torn mirror comes after a silence |
| Crashes.WithoutTearsQuiet | firmware/app/main.cpp:172-177 | a run without torn mirrors needs no silence |
| Crashes.SilenceIsExact | firmware/app/main.cpp:112-131 | after memory is refused, every continuation keeps every hour if and only if there was no airtime from one hour less one budget before the return up to it |
| Crashes.TornMirrorBreaksTheHour | firmware/app/main.cpp:97-131 | a concrete run: a budget sent and mirrored, a crash one byte into the next mirror, refused, and the budget sent again within the hour |
| Crashes.BurstIsRefused | firmware/app/main.cpp:120-131 | memory torn within 32 consecutive bits of the blob is always refused |
| Crc.UpdateCrc | src/loraitp_crc.c:15-24 | the nested loops compute the update of any starting value |
| Crc.UpdateConcat | src/loraitp_crc.c:15-24 | updating piece by piece equals updating by the concatenation, for any split |
| Crc.RegisterIsFeed | src/loraitp_crc.c:17-22 | the byte-wise register is the bit-serial shift register |
| Crc.UpdateAffine | src/loraitp_crc.c:15-24 | the update is affine over exclusive or |
| Crc.BurstDetected | src/loraitp_crc.c:26-29 | two different images of one length that differ only within 32 consecutive bits never share a CRC |
| CrcRemainder.DivisionIsExact | src/loraitp_crc.c:13-29 | polynomial division over GF(2) leaves a remainder of degree below 32 that differs from the dividend by a multiple of the generator |
| CrcRemainder.Crc32IsRemainder | src/loraitp_crc.c:13-29 | the CRC is the complement of the remainder of the message times x^32, its first 32 bits inverted, modulo the IEEE 802.3 generator written out by its exponents |
| CrcRemainder.UpdateIsRemainder | src/loraitp_crc.c:15-24 | the same for any starting value |
| Frames.FrameOrdinal | src/loraitp_frame.c:58-77 | the summing loop computes the ordinal for any frame number |
| Frames.Extent | src/loraitp_frame.c:27-40 | chunks and blocks cover the image with only the last of each short |
| Frames.BlocksCoverEverything | src/loraitp_frame.c:41-56 | the block sizes add up to n_chunks, and with parity to the announced total |
| Frames.OrdinalInvertsOrder | src/loraitp_frame.c:58-77 | the frame the sender's order puts at place o has ordinal o: onto 0 to total - 1 |
| Frames.OrderInvertsOrdinal | src/loraitp_frame.c:58-77 | and the frame at its own ordinal is itself: one-to-one, across short last blocks |
| Frames.PlaceOrdinal | src/loraitp_session.c:352-379 | place i of block b is sent as number before(b) + i |
| Image.ChunkBounds | src/loraitp_session.c:269-274 | no chunk is empty, each lies inside the image, only the last is short |
| Image.WriteChunk | src/loraitp_session.c:580-588 | writing one chunk stores it and changes no other |
| Image.AllHeldIsImage | src/loraitp_session.c:580-588 | a store that holds every chunk is the image |
| Sender.LoadBlock | src/loraitp_session.c:354-361 | the block buffer holds the block's chunks, padded |
| Sender.SendBroadcast | src/loraitp_session.c:335-389 | the loops transmit exactly the broadcast: three METAs, every frame in ordinal order with a META after each sixteenth, three FINs; without parity only the METAs and an error; for an empty image METAs and FINs |
| Sender.BroadcastShape | src/loraitp_session.c:335-389 | a META behind every sixteen frames and nowhere else: place by place, three METAs, frame o at 3 + o + o / 16, three FINs |
| Stat.EncodeStatBody | src/loraitp_bitmap.c:31-64 | the loops build the list or bitmap body, or refuse one that does not fit |
| Stat.BitmapIsExact | src/loraitp_bitmap.c:49-63 | the bits set are exactly those of the chunks listed |
| Stat.DecodeStatBody | src/loraitp_bitmap.c:66-97 | the loops read the body back, or refuse more entries than there is room for |
| Stat.StatRoundTrip | src/loraitp_bitmap.c:14-97 | decoding the encoded body under the chosen encoding returns the receiver's list |
| Stat.ChosenIsShortest | src/loraitp_bitmap.c:14-29 | the chosen encoding is never longer than the other, fits a STAT, and is COMPLETE exactly for an empty list |
| Stat.OneChunkBitmap | src/loraitp_bitmap.c:49-63 | on the air a single missing chunk is zero bytes and then one bit, least significant first |
| Stat.ListOnAir | src/loraitp_bitmap.c:38-47 | a list is two bytes to a chunk number, the low one first |
| Stat.RefusedForRoom | src/loraitp_bitmap.c:66-97 | a body is refused exactly when it has more entries than there is room for |
| Session.ImageReceiver.FlushBlock | src/loraitp_session.c:546-591 | in place on the bitmap, buffer, store and counters, it does what the state machine's flush does, the decoder included |
| Session.ImageReceiver.DecodeBlock | src/loraitp_session.c:564-577 | decoding in the block buffer leaves the one block that explains the frames heard, and marks its chunks |
| Session.ImageReceiver.CountHere | src/loraitp_session.c:501-509 | counts the marked frames of the current block |
| Session.ImageReceiver.IsStillRecoverable | src/loraitp_session.c:487-524 | decides the state machine's feasibility test |
| Session.ImageReceiver.HearFrame | src/loraitp_session.c:685-749 | a DATA or PARITY frame, with early completion and abandonment |
| Session.ImageReceiver.HearEob | src/loraitp_session.c:751-778 | an EOB, with the STAT it is answered by |
| Session.ImageReceiver.HearFin | src/loraitp_session.c:781-795 | a FIN, with its FINACK |
| Session.ImageReceiver.HearMeta | src/loraitp_session.c:649-680 | a META of a new image begins a transfer in the memory as it is; any other is ignored |
| Session.ImageReceiver.ReceiveImage | src/loraitp_session.c:593-797 | the loop over listening windows follows the state machine until there is a result |
| Session.RebuiltIsDecoded | src/loraitp_session.c:564-577 | what the decoder promises determines the block uniquely |
| Reception.DecodedIsData | src/loraitp_session.c:564-577 | genuine frames decode to the block's data |
| Accounting.FlushAccounts | src/loraitp_session.c:546-591 | a flush stores exactly the chunks it counts, and the whole block if and only if every chunk was heard or k frames were; otherwise it counts the block lost |
| Accounting.WholeIsImage | src/loraitp_session.c:781-784 | chunks_have equal to chunks_total means the store is the image |
| BroadcastProof.HearingFinishes | src/loraitp_session.c:685-749 | a receiver in mid-transfer with enough still to come finishes with the image |
| BroadcastProof.BroadcastDelivers | src/loraitp_session.c:685-749 | end to end: whatever is lost, hearing a META and then k of the k + r frames of every block ends COMPLETE with the sender's image, short last chunk and block included |
| EmptyImage.EmptyImageCompletes | src/loraitp_session.c:781-795 | an image without a byte is complete exactly when a FIN gets through after a META |
| EndToEnd.ListenIsAfter | src/loraitp_session.c:625-647 | listening to the channel is working through the windows it lets pass |
| EndToEnd.Transfer | src/loraitp_session.c:335-389 | the sender's loop feeding the receiver's loop through such a channel leaves the image in the receiver's store |
| Feasibility.LostExactlyWhenHopeless | src/loraitp_session.c:511-524 | the block is judged lost if and only if no bitmap that frames still to come can make holds k distinct frames |
| Feasibility.RecoverableExactlyWhenSomeFateIs | src/loraitp_session.c:487-524 | in every listening state of any lossy broadcast: recoverable if and only if some fate of what the sender has left after the last frame heard brings the block to k distinct frames |
| Feasibility.NoContinuationCompletes | src/loraitp_session.c:511-524 | and then no channel completes it from what the sender has left |
| Feasibility.SilenceGivesUpExactly | src/loraitp_session.c:635-641 | an empty window ends a broadcast exactly when no fate of what is left completes the block, and otherwise changes nothing |
| Feasibility.FrameGivesUpExactly | src/loraitp_session.c:734-747 | so does a frame, unless it gave the last block its k; and the receiver finishes exactly then |
| Safety.PacketAccounts | src/loraitp_session.c:649-795 | one genuine packet, in either mode: stored chunks are the image's, others blank, the count exact, and no FINACK claims more |
| Safety.FinAccounts | src/loraitp_session.c:781-795 | a FIN ends COMPLETE if and only if every chunk is stored |
| Salvage.StopKeepsTheBlock | src/loraitp_session.c:734-747 | a frame that stops the receiver leaves every source chunk of the block marked present in the store, and the block counted lost if and only if it was not whole |
| Salvage.HeardIsStored | src/loraitp_session.c:649-795 | over every channel: every source chunk heard after the META is in the store at a stop by a frame or a FIN, and short of it only in the block in hand |
| AnyLosses.BroadcastIsSafe | src/loraitp_session.c:593-797 | after any losses of a broadcast, stored chunks are the image's, the others blank, the count exact |
| AnyLosses.SkippedBlockGoesUnnoticed | src/loraitp_session.c:734-741 | concrete losses of the broadcast of a three-byte image: with every frame of the middle block lost, COMPLETE is reported over a hole |
| Unheard.CompleteIsWholeWhenAllReached | src/loraitp_session.c:734-741 | for every channel: when a broadcast ends COMPLETE, the image is whole if and only if some frame of every block got through after a META; otherwise a chunk is blank |
| Unheard.ListenVerdict | src/loraitp_session.c:685-749 | the same from any state in mid-transfer, by the blocks heard so far and those still to be heard |
| AnyLosses.CompleteIsWholeWhenCounted | src/loraitp_session.c:734-741 | what the receiver itself can tell: COMPLETE means the whole image exactly when chunks_have equals chunks_total |
| InteractiveLoop.SendInteractive | src/loraitp_session.c:391-474 | the loops follow the sender machine through any replies; what goes out is three METAs, then for every block rounds that end only on a STAT without chunks, after the last round, or after every EOB of a round went unanswered, then FIN; success unless the FINACK says incomplete |
| InteractiveLoop.EveryChunkIsSent | src/loraitp_session.c:402-419 | with at least one round every chunk of the image goes out |
| InteractiveLoop.LoopsRun | src/loraitp_session.c:391-474 | such a path, with a channel and a receiver doing anything they can in between, is a run of the whole system |
| InteractiveLoop.AskRound | src/loraitp_session.c:422-455 | the retry loop ends with the first reply of the round, and the list its body stands for, or with the block given up after every window brought something else |
| InteractiveInv.InitInv | src/loraitp_session.c:391-410 | the invariant holds when both ends start |
| InteractiveSend.SendKeepsInv | src/loraitp_session.c:391-430 | every transmission keeps the invariant |
| InteractiveHear.HearKeepsInv | src/loraitp_session.c:649-795 | everything the receiver hears keeps the invariant |
| InteractiveReply.ReplyKeepsInv | src/loraitp_session.c:431-474 | every reply, however late or often repeated, and every silence keeps the invariant |
| InteractiveReply.AcceptedStatIsExact | src/loraitp_session.c:434-455 | an accepted STAT is exactly what the receiver lacks at that moment, COMPLETE if and only if it holds the block, and part of the old list |
| InteractiveReply.AcceptedIsWithin | src/loraitp_session.c:447-455 | of any STAT body, genuine or not, the sender takes up exactly the entries within the block |
| InteractiveProof.InteractiveIsSafe | src/loraitp_session.c:391-474 | in every state of every run, each stored chunk is the image's, the others blank, the count exact |
| InteractiveProof.AgreedBlocksAreKept | src/loraitp_session.c:442-446 | a block whose COMPLETE was accepted is held from then on, and stored when the receiver stops |
| InteractiveProof.FinAckZeroMeansWhole | src/loraitp_session.c:781-795 | a FINACK of 0 is only ever said by a receiver whose store is the image |
| InteractiveProof.AllAgreedDelivers | src/loraitp_session.c:402-474 | when every block is agreed, the receiver that hears the FIN has the image |
| InteractiveProof.ToDoIsWhatIsLacking | src/loraitp_session.c:447-455 | in every run the new to-do list is what the receiver lacks, a part of the old one, with only EOBs of the round in flight |
| InteractiveProof.RepeatsWereMissing | src/loraitp_session.c:411-419 | every retransmitted chunk that gets through was missing |
| InteractiveDelivery.LosslessDelivers | src/loraitp_session.c:391-474 | when every packet is heard and every answer returned, a transfer that has ended has every block agreed, the receiver COMPLETE with the image, and success returned |
| InteractiveDelivery.StepsRunOut | src/loraitp_session.c:402-474 | each step of a lossless transfer brings its end nearer |
| InteractiveDelivery.LosslessEnds | src/loraitp_session.c:391-474 | so every lossless transfer ends, within a number of steps known in advance, and well |
| Assembly.VerdictExact | sim/loraitp/session.py:302-341 | from mid-transfer on: complete if and only if every block gets k distinct frames |
| Assembly.HopelessStaysSo | sim/loraitp/session.py:336-341 | when no incomplete block is recoverable, no continuation completes any of them |
| Assembly.BroadcastVerdict | sim/loraitp/session.py:392-520 | the verdict on a broadcast is "complete" if and only if a META and then k frames of every block get through |
| Prospects.RecoverableExactly | sim/loraitp/session.py:336-338 | some block is judged recoverable if and only if some fate of what is left completes an incomplete one |
| Prospects.GivesUpExactly | sim/loraitp/session.py:437-494 | whatever is lost of a broadcast the receiver goes on exactly while something it lacks can be completed |
| Assembly.StrangersLeaveNothing | sim/loraitp/session.py:472-486 | a number that is no frame's changes neither chunks nor parity |
| Assembly.ImageIsOriginal | sim/loraitp/session.py:372-385 | with every chunk kept the image is the sender's |
| Assembler.Assembler.HaveInBlock | sim/loraitp/session.py:303-308 | the two sums count the frames of a block |
| Assembler.Assembler.IsAnyRecoverable | sim/loraitp/session.py:313-338 | decides whether some incomplete block can still be completed |
| Assembler.Assembler.IsAllComplete | sim/loraitp/session.py:310-341 | decides whether every block has k frames |
| Assembler.Assembler.Hear | sim/loraitp/session.py:472-488 | a frame into the dictionaries, with numbers out of range left out |
| Assembler.Assembler.DecodeBlocks | sim/loraitp/session.py:349-370 | adds only genuine chunks, and all that are missing of every complete block |
| Assembler.Assembler.MakeImage | sim/loraitp/session.py:372-385 | joins, pads and cuts as the reference does |
| Assembler.ReceiveBroadcast | sim/loraitp/session.py:392-520 | the loop reaches the verdict, and "complete" comes with the sender's image |
| Airtime.LdroAgrees | src/loraitp_session.c:24-25 | the nanosecond test for low data rate optimisation agrees with the exact one for every whole bandwidth |
| Airtime.SymbolsExact | src/loraitp_session.c:27-32 | the integer division is the formula's ceiling |
| Airtime.CeilingUnique | src/loraitp_session.c:27-32 | and the formula names one number of symbols |
| Airtime.WithinTwoMicroseconds | src/loraitp_session.c:17-37 | never above the exact rational time on air, by the formula with its constants written out, and less than 2 microseconds below it |
| Airtime.LongerTakesLonger | src/loraitp_session.c:17-37 | non-decreasing in the payload length |
| Airtime.MaxPayload | src/loraitp_session.c:39-50 | the early-breaking scan returns the largest payload that fits whenever one byte does |
| Cmac.ShiftLeftInto | src/loraitp_mac.c:13-21 | the carrying loop computes the byte-wise shift |
| Cmac.ShiftLeftShifts | src/loraitp_mac.c:13-21 | which is the left shift of the 128-bit string |
| Cmac.Subkeys | src/loraitp_mac.c:29-43 | both subkeys of RFC 4493 section 2.3 |
| Cmac.ComputeCmac | src/loraitp_mac.c:50-95 | over nonce and message in two places, RFC 4493 section 2.4 on the two joined, for every length |
| Cmac.RfcSubkeyExample | src/loraitp_mac.c:13-44 | the subkeys of the RFC 4493 example come out as printed there |
| Sealing.Seal | src/loraitp_mac.c:129-145 | appends the tag to exactly the frames that carry one and otherwise writes nothing |
| Sealing.Unseal | src/loraitp_mac.c:147-173 | the constant-time comparison accepts exactly the right tag |
| Sealing.UnsealSealed | src/loraitp_mac.c:129-173 | unsealing a sealed frame returns the original length for every frame type and block function |
| Sealing.OneTagAccepted | src/loraitp_mac.c:147-173 | of all four-byte endings of a protected frame one is accepted |
| Sealing.WhichCarryTags | src/loraitp_mac.c:115-127 | control frames always carry a tag, DATA and PARITY when asked, IDENT never |
| Sealing.MetaNeedsNoNonce | src/loraitp_mac.c:97-113 | the tag of a META is the same under every session nonce |
| MetaFrame.EncodeMeta | src/loraitp_frame.c:81-113 | writes the whole frame and nothing beyond it, or refuses a buffer that is too small |
| MetaFrame.DecodeMeta | src/loraitp_frame.c:169-206 | for arbitrary bytes the TLV loop ends, never reads past the frame, and yields the decoded fields |
| MetaFrame.MetaRoundTrip | src/loraitp_frame.c:81-206 | every in-range META with up to eight TLVs and blocks of 1 to 256 is decoded from its frame exactly |
| MetaFrame.DecodedReencodes | src/loraitp_frame.c:169-206 | whatever is accepted, encoding it gives the bytes back up to where reading stopped |
| MetaFrame.MetaLayout | src/loraitp_frame.c:89-103 | every field at its offset, as a number |
| MetaFrame.AcceptedExactly | src/loraitp_frame.c:169-206 | a frame is accepted exactly when it has a whole header, a chunk size and whole values up to where reading stops, and then with those values |
| Huffman.BuildHuff | firmware/app/jpeg.c:143-160 | the 16-bit counter gives every symbol its canonical code and length |
| Huffman.CodeFits | firmware/app/jpeg.c:149-159 | under the Kraft condition every code fits its length |
| Huffman.ReadsBack | firmware/app/jpeg.c:143-160 | the bit-by-bit decoder of ITU-T T.81 section F.2.2.3 reads every code back, whatever follows |
| Huffman.PrefixFree | firmware/app/jpeg.c:143-160 | no code is a prefix of another |
| Magnitude.CountMagnitude | firmware/app/jpeg.c:219-228 | the shifting loop finds size and extra bits |
| Magnitude.ExtendInverts | firmware/app/jpeg.c:219-228 | EXTEND gives the coefficient back for every integer |
| BlockCoder.BlockBack | firmware/app/jpeg.c:243-279 | the decoder of T.81 section F.2.2 reads a block back exactly from its bits, whatever follows |
| BlockCoder.ZigzagBack | firmware/app/jpeg.c:36-45 | the zigzag table is a permutation and is undone |
| BlockCoder.ZigzagFollowsDiagonals | firmware/app/jpeg.c:36-45 | the table takes the diagonals in turn, each in the direction opposite to the last |
| BlockCoder.OnlyZigzagFollowsDiagonals | firmware/app/jpeg.c:36-45 | and no other permutation does |
| Segments.SegmentBits | firmware/app/jpeg.c:116-139 | unstuffing and unpacking a segment gives its bits and fewer than eight ones; inside it 0xFF is always followed by 0x00 |
| Segments.MarkerFound | firmware/app/jpeg.c:116-139 | a marker behind stuffed data is found where it is, and the data before it is whole |
| BitWriter.Writer.PutByte | firmware/app/jpeg.c:100-104 | the buffer holds as much of the output as fits and overflow says whether that is not all |
| BitWriter.Writer.PutBits | firmware/app/jpeg.c:116-129 | appends exactly the low bits of the code to the segment, through a 32-bit accumulator |
| BitWriter.Writer.FlushBits | firmware/app/jpeg.c:131-139 | ends the segment with ones up to a whole byte |
| ScanEncoder.EncodeBlock | firmware/app/jpeg.c:243-279 | appends the block's bits and returns its DC coefficient as the next prediction |
| ScanEncoder.EncodeScan | firmware/app/jpeg.c:350-388 | the block loop puts out the scan, RST markers modulo 8 between intervals and EOI |
| Scan.IntervalBack | firmware/app/jpeg.c:355-368 | every restart interval decodes on its own from its bytes |
| Scan.ScanBack | firmware/app/jpeg.c:350-388 | the scan, and the rest of a scan from any marker on, decodes to exactly the blocks encoded, for any restart interval |
| ScanEncoder.EncodeImage | firmware/app/jpeg.c:334-392 | from tables to EOI: what follows the header decodes to the blocks, and the buffer holds it all unless overflow is reported |
| StandardTables.AcTableWorks | firmware/app/jpeg.c:64-80 | the standard AC table meets the Kraft condition, has distinct symbols, and codes every run and size, ZRL and EOB |
| StandardTables.DcTableWorks | firmware/app/jpeg.c:59-62 | the standard DC table does, for every size up to 11 |
| StandardTables.ShortCodes | firmware/app/jpeg.c:64-80 | the AC codes below sixteen bits are those table K.5 of T.81 prints |
| StandardTables.LongCodes | firmware/app/jpeg.c:64-80 | and those of sixteen bits count up from 0xFF82 in order of run and size |
| StandardTables.DcCodes | firmware/app/jpeg.c:59-62 | the DC codes are those table K.3 prints |
| StandardTables.EncodeGray | firmware/app/jpeg.c:334-392 | with the standard tables every baseline image is read back exactly |

## Left out

- Sender.SendBroadcast and Session.ImageReceiver work on separate arrays for block buffer, tableau, workspace and parity; the
  source lays them out in one scratch memory of the size `loraitp_fec_session_scratch` gives.
- Session.ImageReceiver.HearFrame: payloads are at most a chunk long; a longer one, which no genuine frame carries,
  is not modelled.
- Session.ImageReceiver.ReceiveImage: the session deadline, the clock, refused frames and a store that cannot be opened are not
  modelled; a refused or unreadable frame is a window that brings nothing for the receiver to act on.
- Interactive runs take the receiver as the state machine that Session.ImageReceiver implements; the sender's loops are tied to the
  sender machine by InteractiveLoop.SendInteractive, and to its runs by InteractiveLoop.LoopsRun.
- Receiver.Put: a write that would fall outside the image is dropped; it cannot happen for a conforming transfer.
- Frames.Meta carries only the fields that shape a transfer; MetaFrame.Announcement has them all.
- Crashes.EveryHourWithinBudgetAcrossReboots: torn memory that is neither the old mirror nor the new one and yet passes both
  checksums by accident is not one of its steps; nor is reset-proof memory that does so when first powered.
- Assembler.Assembler.DecodeBlock hands its rows to the decoder of `Fec`; the list-based elimination of `sim/loraitp/gf256.py`, which
  computes the same function, is not modelled separately.
- Assembler.ReceiveBroadcast: interactive mode, PROBE frames and the time-out of the reference receiver.
- The simulator's sender and its scheduling.
- radio_send failures, IDENT injection and the trace callback in transmit().
- Region tables, station identification timing, configuration checks, progress and budget reports.
- DATA, EOB and STAT frame headers: their fixed offsets would add only easy round trips.
- AES itself: any function on 16-byte blocks takes its place; errors it could return are left out.
- The floating-point DCT, quantisation, JPEG header bytes and the search for a quality that meets a byte budget.
- File store, log ring, network, camera, sleep and other input or output.
- Link, energy, storage and loss calculators.
