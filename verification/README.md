# Verified models of the device tree's algorithms and protocols

The repository is the hardware layer of a phone. Most of it hands data to drivers, but a
few parts are algorithms or protocols in their own right. This project models those parts in
Dafny and proves what they are there for. `dafny verify dfyconfig.toml` checks everything.

| file | what it models |
|---|---|
| `Crc16.dfy` (on `Bits.dfy`) | the table-driven CRC-16 |
| `DiagFraming.dfy` | byte stuffing on the DIAG link, streaming and in place |
| `VdiagRouter.dfy`, `VdiagTraffic.dfy`, `VdiagOversize.dfy` | the reader thread that accumulates frames and routes them to application processor or modem |
| `BtWifiDiag.dfy`, `BtWifiWire.dfy` | the BT/WiFi address command, from frame to MAC text file and back, and byte by byte on the wire |
| `AtCommandQueue.dfy`, `AtCommandMemory.dfy`, `AtCommandWorker.dfy` | the coalescing AT-command queue as it is meant, as it lies in memory, and its pushers and worker thread |
| `ScoHandshake.dfy`, `ScoEffect.dfy` | the Bluetooth SCO zero-writer thread and the stream code around it, and what the stream operations achieve |
| `CaptureProvider.dfy` | the capture buffer provider |
| `RilClient.dfy`, `RilRemoval.dfy`, `RilOverlap.dfy` | token pool, request history and handler table of the RIL client, whose handler its removal flag takes away, and the pool between two threads |
| `HilbertCurve.dfy`, `HilbertTable.dfy`, `DitherKernel.dfy`, `DitherBlock.dfy`, `DitherImage.dfy`, `DitherLaw.dfy` | the Hilbert-curve error-diffusion dither, and the relation between its input and its output |
| `MuxPcmWriter.dfy` | the windowed PCM writer |
| `PropertyMux.dfy`, `PropertyNames.dfy` | the per-SIM property multiplexer, by items and by names |

Code that changes things in place is written as methods over arrays, sequences or class fields
and proved equal to a function of the old state; what that function achieves is proved as
lemmas. Threads are step systems: every interleaving of the steps is a run. A byte is an
integer below 256, a machine word that is shifted and xored is the sequence of its bits, a
word used as a bit mask is the set of its one bits, and every width that matters (uint8_t
priorities, uint16_t offsets, int8 and int16 lanes) is written out.

## What the code needs, and where it stops working

Each limit is stated as a condition a caller can check, with a proof of what happens beyond it.

- The AT queue drains right for all logs of n pushes with texts of up to m characters if and
  only if n <= 255 and m <= 31, trivial logs apart (`RightForAllLogsIff`). From the 256th push
  on the newest command can be lost (`NewestCommandLost`). A text of 32 characters has no room
  for its end: a push does what is meant if and only if its text is shorter, or what it has in
  excess of 32 stands behind its slot already (`PushRefinesIff`). at_cmd_extra_volume pushes
  such a text with its own default, and it is sent run together with the next slot's
  (`ExtraVolumeRunsOn`); in the last slot one character more reaches the priorities and
  another slot is sent (`LastSlotSpills`).
- The SCO handshake is safe in all interleavings if and only if the helper's `pcm_open`
  cannot fail; otherwise two writers can hold the card (`SafeIffOpenCannotFail`, `TwoWriters`).
- A RIL response keeps tokens and history matched if and only if its token is not a union of
  several live bits, which `IsValidToken` accepts (`RespondKeepsIff`).
- Token pool and request history agree whenever both threads are idle, in every run, if and
  only if sends and responses do not overlap (`MatchedIffNoOverlap`): the pool is read and
  written back without a lock, so an update can be lost and a request's answer refused, or a
  freed token come back for good (`TokenLost`, `TokenLeaked`).
- Dither offsets are exact if and only if the image is at most 4368 pixels wide
  (`OffsetsExactIff`).
- On the path for groups of four blocks the error window is added up in signed bytes, as two
  halves that wrap, with a sum that saturates. It is the true window if and only if the window
  fits a byte and the halves fit too or overflow by opposite amounts (`NarrowIsTrueIff`); over a
  whole stream both paths then agree (`TrueWindowIff`, `GroupedLikeSingle`). Five white pixels
  are enough to saturate it, and a stream of eight makes the feedback -16 where it should be 14
  (`WhiteSaturates`, `WrapFlipsTheSign`).
- A DIAG read loses nothing if and only if it holds no flag, or starts with its frame, does not
  run past the frame's end and fits the accumulator (`LosslessRead`). Once half the buffer is
  full without a frame end, the bytes are decoded before they are copied: the modem gets them
  unaltered if and only if none of them was stuffed (`OversizeIntactIffUnstuffed`, and
  `UnclaimedIntactIff` for the whole frame and every cut into reads), and frames are looked
  for again only after a read that ends in a flag (`PassesUntilFlagEndsARead`). A frame the
  application processor claims is decoded again after every further read: it is offered
  unaltered if and only if less than half the buffer was filled before its last read or nothing
  was stuffed in what was, and no later decoding repairs it (`OwnedIntactIff`).
- An empty DIAG frame is received as such if and only if nothing but flags follows it
  (`RoundTrip`).
- In-place decoding looks at one byte past the range it is given: after a complete frame the
  closing flag becomes that byte with bit 5 flipped (`DecodeFrameInPlace`).
- A property slot gives back what was set, for every default, if and only if the value has no
  comma and is not empty, or is empty with another item behind it (`GetAfterSetIff`); when
  another slot survives a value without commas is exact too (`OtherSlotKeptIff`), and a value
  with commas pushes the items behind it back (`ViewAfterAnySet`).
- `read_frames` delivers what was asked if and only if the device is open, the reads it needs
  succeed and no error status is left over beside unread frames. Otherwise the frames it has
  taken so far are lost, and it has taken none if and only if there is no device or it starts
  with a read that fails (`ReadFrames`).
- A PCM write reports -1 if and only if it fills the window more often than the acks serve it
  (`ReportsIff`).
- A PCM writer stalls for good if and only if a call fills the window more often than the acks
  serve it and none of those that are left is of use (`FillsTheWindowIff`, `StalledIff`); from
  then on no call sends, waits or reports an error
  (`FullWindowStalls`, `StalledForever`). One unanswered window is enough (`UnansweredWindow`).
- The BT/WiFi write command reports success, and the WiFi address it was given is not there, if
  and only if the WiFi file alone does not open and did not hold the same bytes
  (`FalseSuccessIff`, `FalseSuccess`).
- `b_del_handler` is one flag for all requests: it removes the handler of an id if and only if
  the first response that runs a handler answers a request with that id
  (`RemovedIffFirstAnswered`). In `WrongHandlerRemoved` another request loses its handler and
  the asker keeps the one it wanted removed; after a GetMute that could not send, and until its
  id is registered or the flag set again, the next
  handler that runs always is another's and is lost (`FailedMuteHitsAnother`, `FailedMuteRun`).

## Model

| member | source | states |
|---|---|---|
| `Crc16.TableIsEightClocks` | engmode/crc16.c:8-42 | every entry of the 256-entry table is eight clocks of the bit-serial register for x^16 + x^15 + x^2 + 1, reflected |
| `Crc16.TableLookup` | engmode/crc16.c:57 | one shift-xor-lookup step is the same as feeding the byte bit by bit |
| `Crc16.ComputeCrc` | engmode/crc16.c:53-60 | the loop returns the bit-serial CRC of the buffer, for every start value and length |
| `Crc16.CrcAppend` | engmode/crc16.c:53-60 | the CRC of two pieces is the CRC of the second started with the CRC of the first |
| `Crc16.CrcLinear` | engmode/crc16.h:4-7 | the checksum is linear over xor in start value and message together |
| `Crc16.ResidueZeroIffChecksum` | engmode/crc16.h:4-7 | two bytes appended to a message leave residue 0 if and only if they are its checksum, low byte first |
| `Crc16.BurstDetected` | engmode/crc16.h:4-7 | two equal-length messages that differ, but only inside 16 consecutive bits, have different checksums |
| `Crc16.ChecksumCarriesParity` | engmode/crc16.h:4-7 | the parity of the checksum is the parity of start value and message, because the polynomial is divisible by x + 1 |
| `Crc16.OddErrorsDetected` | engmode/crc16.h:4-7 | any odd number of flipped bits changes the checksum |
| `DiagFraming.TranslatePacket` | engmode/adc_calibration.c:395-414 | writes exactly flag, stuffed payload, flag; returns length + number of special bytes + 2; touches nothing beyond |
| `DiagFraming.StuffedInterior` | engmode/adc_calibration.c:395-414 | no flag byte inside a frame, and one extra byte per special byte |
| `DiagFraming.UntranslatePacketHeader` | engmode/adc_calibration.c:350-393 | the receiver loop leaves in `dest` what its three-state automaton decodes, early return included |
| `DiagFraming.RoundTrip` | engmode/adc_calibration.c:350-414 | after any flag-free noise, any number of extra flags and before any tail, the receiver recovers the payload, and stopped after k bytes those k are already fully decoded; the one exception is exact: an empty payload comes back if and only if the tail is all flags |
| `DiagFraming.AnyFrameReceived` | engmode/adc_calibration.c:350-393 | what the receiver makes of any frame that does not begin with an escape, properly stuffed or not: behind an escape 0x5e stands for a flag and anything else for an escape |
| `DiagFraming.EmptyFrameSwallowed` | engmode/adc_calibration.c:360-370 | an empty frame in front of another one is taken for opening flags |
| `DiagFraming.Encode7d7e` | engmode/eng_diag.c:1176-1204 | stuffing in place terminates though its bound grows, leaves exactly the interior of the streaming form, counts the special bytes, touches nothing beyond |
| `DiagFraming.Decode7d7e` | engmode/eng_diag.c:1152-1174 | unstuffing in place leaves what the byte-by-byte pass over the buffer leaves |
| `DiagFraming.DecodeUndoesEncode` | engmode/eng_diag.c:1152-1204 | decoding in place undoes encoding in place, whatever lies behind |
| `DiagFraming.DecodeFrameInPlace` | engmode/eng_diag.c:1152-1174 | with the closing flag included in the pass the payload still comes back as a prefix, followed by the flipped byte behind the frame |
| `VdiagRouter.LosslessRead` | engmode/vdiag.c:66-93 | the accumulator keeps one read whole, or nothing of it, if and only if it holds no flag, or begins at a frame, has no flag before its last byte and fits the 16384-byte accumulator |
| `VdiagTraffic.ForwardNoise` | engmode/vdiag.c:327-330 | a read without a flag, while no frame is open, goes to the modem whole |
| `VdiagTraffic.ReadAccountedIff` | engmode/vdiag.c:319-350 | under half the buffer, one turn of the thread keeps a read, hands it over as a frame or forwards it, whole, if and only if it holds no flag, or begins at a frame and has no flag before its last byte |
| `VdiagTraffic.ParsedFrame` | engmode/eng_diag.c:1152-1174 | eng_diag is asked about the payload: opening flag, payload, the flipped zero the closing flag becomes, zeros |
| `VdiagTraffic.TrafficRouted` | engmode/vdiag.c:307-381 | frames with any other bytes between them, each in reads of its own: every frame is offered once, whole and in order, the modem gets all other bytes and the frames declined for their payload, in full and in order |
| `VdiagTraffic.PassesUntilFlagEndsARead` | engmode/vdiag.c:310-318 | while a frame goes to the modem every read is passed on whatever it holds, until one ends in a flag |
| `VdiagRouter.FramesRoutedExactly` | engmode/vdiag.c:307-381 | any number of frames under half the buffer, cut into reads anywhere but across frame ends: eng_diag is offered each once, whole, in order, and the modem gets exactly the raw bytes of those declined |
| `VdiagRouter.OversizeIntactIffUnstuffed` | engmode/vdiag.c:331-342 | on the oversize path the modem gets the raw bytes if and only if none of them is special |
| `VdiagOversize.OwnedFrameOffered` | engmode/vdiag.c:322-342 | a frame the AP claims at every read is offered once, as repeated decoding of the accumulator has left it, and that is what the modem gets if it is declined |
| `VdiagOversize.OwnedIntactIff` | engmode/vdiag.c:322-342 | what is offered is the raw frame, for every cut into reads, if and only if less than half the buffer was filled before the last read or nothing was stuffed in what was |
| `VdiagOversize.UnclaimedIntactIff` | engmode/vdiag.c:307-342 | a frame that fills half the buffer and is not claimed, for every cut into reads of at most 8192 bytes: it is not offered, the thread is ready for the next frame, and the modem gets its raw bytes if and only if nothing was stuffed in the part that first reached half the buffer |
| `VdiagOversize.LostStays` | engmode/vdiag.c:331-336 | a byte lost by a decoding pass stays lost whatever is appended and decoded later |
| `VdiagRouter.Reader.InitUserDiagBuf` | engmode/vdiag.c:59-63 | the accumulator is cleared and empty |
| `VdiagRouter.Reader.GetUserDiagBuf` | engmode/vdiag.c:66-93 | the loop keeps the bytes the accumulator rule keeps and reports a complete frame exactly then |
| `VdiagRouter.Reader.OnRead` | engmode/vdiag.c:307-381 | one turn of the thread on arrays, decoding in place included, refines the routing step |
| `BtWifiDiag.MacTextReadsBack` | engmode/eng_diag.c:1133-1150 | reading a MAC text gives back the bytes it was printed from |
| `BtWifiDiag.Char2Hex` | engmode/eng_diag.c:1133-1150 | the loop stores the bytes of the text and nothing else, strtol with blanks, sign, 0x prefix and saturation included |
| `BtWifiDiag.WriteThenRead` | engmode/eng_diag.c:1206-1307 | a write followed by a read, whichever files open and through any noise on the line: the answer unstuffs to 116 bytes and passes the receiver's check; an address written and asked for comes back if and only if its file opened or already held it; one not written comes back as stored; success is reported if and only if the Bluetooth file opened |
| `BtWifiDiag.AnswerArrivesIntact` | engmode/eng_diag.c:2180-2194 | whatever is stored, the unstuffed answer passes the checksum test of the receiver |
| `BtWifiDiag.AcknowledgementArrivesIntact` | engmode/eng_diag.c:1255-1266 | the answer to a write passes that test too, its two zeros being the checksum of nothing |
| `BtWifiDiag.DamagedWriteRefused` | engmode/eng_diag.c:1225-1232 | a record with its two checksum bytes, damaged within 16 consecutive bits anywhere in them or in an odd number of bits, is refused and both files stay as they were |
| `BtWifiDiag.FalseSuccessIff` | engmode/eng_btwifiaddr.c:155-185 | success is reported for a WiFi address that does not read back, if and only if the record checks, the Bluetooth file opens, the WiFi file does not, and it did not hold the same bytes |
| `BtWifiDiag.FalseSuccess` | engmode/eng_btwifiaddr.c:155-185 | a concrete address that is acknowledged and reads back as zeros |
| `BtWifiWire.WriteStores` | engmode/eng_diag.c:1232-1253 | with the bits as numbers, 0x04 Bluetooth and 0x40 WiFi: which record bytes become the texts of the two files, in which order, when they are stored, kept or random, and nothing if the record does not check |
| `BtWifiWire.WriteAnswered` | engmode/eng_diag.c:1255-1266 | the ten bytes of the answer to a write: sequence number and type of the request, and subtype 1 if and only if the record checks and the Bluetooth file opens |
| `BtWifiWire.ReadAnswered` | engmode/eng_diag.c:1267-1306 | every byte of the answer to a read but its checksum, subtype 1 included |
| `BtWifiWire.MacTextIs` | engmode/eng_diag.c:1236-1248 | the text of an address character by character |
| `BtWifiWire.StrToLReads` | engmode/eng_diag.c:1133-1150 | what strtol returns for blanks, a sign, a prefix, hexadecimal digits and anything behind them |
| `BtWifiWire.PartsRead` | engmode/eng_diag.c:1139-1145 | every part of a text but the last is read from the first two characters left, the last as a whole |
| `BtWifiDiag.Handset.HandleWrite` | engmode/eng_diag.c:1225-1253 | the write branch stores what the specification stores, or nothing on a checksum mismatch |
| `BtWifiDiag.Handset.HandleRead` | engmode/eng_diag.c:1267-1306 | the response buffer is the frame of the specified answer |
| `BtWifiDiag.Handset.BtWifi` | engmode/eng_diag.c:1206-1316 | both branches together: files and response frame after a read, after a write, and after a write the modem answers, which leaves the request as it was but for the two address bits |
| `AtCommandQueue.SurvivorsInOrder` | audio/sc8830/at_commands_generic.c:95-123 | the log without superseded entries is the last push of every slot pushed, in the order of the log |
| `AtCommandQueue.PushesHeld` | audio/sc8830/at_commands_generic.c:68-108 | up to 255 pushes of any texts, marks, texts and priorities as they are meant hold the last push of every slot, later pushes with greater priority |
| `AtCommandQueue.DrainSendsSurvivors` | audio/sc8830/at_commands_generic.c:25-66 | up to 255 pushes of any texts, selection by priority sends the log with an entry dropped if and only if its slot was pushed again, in order of last push |
| `AtCommandQueue.NewestCommandLost` | audio/sc8830/at_commands_generic.c:68-80 | for every n > 255 a log of n pushes whose drain sends slot 0's empty text instead of the newest command |
| `AtCommandMemory.StoredRefines` | audio/sc8830/audio_hw.c:470-475 | for texts under 32 characters the 332 bytes of T_AT_CMD stand for the vectors as they are meant, after any number of pushes |
| `AtCommandMemory.StoredRanks` | audio/sc8830/at_commands_generic.c:95-108 | as long as no text leaves the nine slots, marks and priorities in memory are those meant, whatever happens to the texts |
| `AtCommandMemory.PushRefinesIff` | audio/sc8830/at_commands_generic.c:100-103 | for every slot and text, a push does what is meant to all texts, priorities and marks if and only if the text is under 32 characters or its excess is exactly what stands behind the slot |
| `AtCommandMemory.DrainsInOrder` | audio/sc8830/at_commands_generic.c:43-63 | up to 255 pushes within the slots, a drain sends what the memory holds for the last pushes, in their order |
| `AtCommandMemory.TwoPushesRunTogether` | audio/sc8830/at_commands_generic.c:56-63 | a text of 32 characters and any shorter one in the next slot: the first is sent with the second behind it |
| `AtCommandMemory.ExtraVolumeRunsOn` | audio/sc8830/at_commands_generic.c:267-281 | the default of at_cmd_extra_volume is 32 characters and is sent with the sample-rate command behind it |
| `AtCommandMemory.LastSlotSpills` | audio/sc8830/at_commands_generic.c:95-108 | 33 characters in the last slot end in the first priority, and slot 0 is sent instead |
| `AtCommandMemory.RightForAllLogsIff` | audio/sc8830/at_commands_generic.c:25-123 | drains of the memory are right for all logs of n pushes with texts of up to m characters if and only if n <= 255 and m <= 31, or n = 0, or m = 0, or n = 1 and m <= 32 |
| `AtCommandMemory.PushMarks` | audio/sc8830/at_commands_generic.c:100-102 | whatever a push overwrites, the dirty mask is not empty after it |
| `AtCommandMemory.AtCmdVectors.ProcessPriority` | audio/sc8830/at_commands_generic.c:68-80 | one more than the greatest priority, modulo 256 |
| `AtCommandMemory.AtCmdVectors.PushVoiceCommand` | audio/sc8830/at_commands_generic.c:95-108 | the memory after a push of any text |
| `AtCommandMemory.AtCmdVectors.DoCmdDual` | audio/sc8830/at_commands_generic.c:25-66 | snapshot, clear, selection in the snapshot and sending as C strings: what is sent and what is left |
| `AtCommandWorker.EveryRun` | audio/sc8830/at_commands_generic.c:89-123 | in every interleaving of pushers and worker, with any texts: a non-empty dirty mask has a post pending or the worker on its way; drains cut the pushes up in order; sent and in-hand commands are what the memory held, drain by drain, and within 255 pushes and 31 characters the survivors; once quiet, everything pushed has been sent |
| `AtCommandWorker.ComesToRest` | audio/sc8830/audio_hw.c:5227-5232 | unless the system is quiet some thread can move, and every move without a new push decreases a rank |
| `ScoHandshake.SafeIffOpenCannotFail` | audio/sc8830/audio_hw.c:2860-2958 | every reachable state has one writer on the card, at most one post, an answered duplicate_start in the state asked for and no lost update of bt_sco_state, if and only if the helper's open cannot fail |
| `ScoHandshake.ReachableHolds` | audio/sc8830/audio_hw.c:2860-2958 | the invariant that ties both threads' positions, the mutex, the semaphore and the state bits together holds in every run |
| `ScoHandshake.StreamKeeps` | audio/sc8830/audio_hw.c:1903-1917 | starting and stopping the streams outside the handshake keeps the invariant |
| `ScoHandshake.ReturnKeeps` | audio/sc8830/audio_hw.c:3346-3353 | coming back from duplicate_start, into standby or into capture, keeps the invariant |
| `ScoHandshake.AnswerKeeps` | audio/sc8830/audio_hw.c:2940-2947 | signal, unlock and wait keep the invariant |
| `ScoHandshake.TwoWriters` | audio/sc8830/audio_hw.c:2879-2892 | a run in which a failed open ends with helper and playback both holding the card |
| `ScoHandshake.WaitingCallerIsAnswered` | audio/sc8830/audio_hw.c:2932-2958 | while the caller waits only the helper can move, it always can, and each move posts or comes nearer to posting |
| `ScoEffect.OperationTakesEffect` | audio/sc8830/audio_hw.c:1903-1917 | every stream operation, begun in any reachable state and interleaved with the helper in any way, has its effect when the stream code is idle again: playback started or stopped, with capture ended; capture started or stopped, with playback as it was |
| `ScoEffect.OperationEnds` | audio/sc8830/audio_hw.c:2932-2958 | from every state that keeps the invariant the operation under way can be finished |
| `ScoEffect.CallerAdvances` | audio/sc8830/audio_hw.c:2932-2958 | every step of the stream code brings it nearer to its end |
| `ScoEffect.BlockedCallerIsLetIn` | audio/sc8830/audio_hw.c:2879-2924 | when the stream code cannot go on, at the mutex or the semaphore, the helper can, and lets it go on or comes nearer to it |
| `CaptureProvider.Lossless` | audio/sc8830/audio_hw.c:3457-3538 | for any request sizes and partial use, with failing reads and a missing device anywhere between, what was granted and released is a stretch of the device stream without loss, repeat or reorder |
| `CaptureProvider.ServeOne` | audio/sc8830/audio_hw.c:3519-3537 | one grant and release hands out the next frames of the stream |
| `CaptureProvider.InputStream.GetNextBuffer` | audio/sc8830/audio_hw.c:3457-3525 | when a period is read, what is granted and where, and the status in every case |
| `CaptureProvider.InputStream.ReleaseBuffer` | audio/sc8830/audio_hw.c:3527-3538 | the unread frames shrink by the count and stay those of the stream |
| `CaptureProvider.InputStream.ReadFrames` | audio/sc8830/audio_hw.c:3542-3577 | returns the count asked for, with the next frames of the stream, if and only if the device is open, every read needed succeeds and no stale error stands beside unread frames; otherwise which read failed and exactly how many frames were consumed and lost, and when that is none |
| `RilClient.RoomToRecord` | libsecril-client/secril-client.cpp:1479-1497 | a clear bit in the pool means a free history entry, so recording cannot fail after allocating |
| `RilClient.SendOutcome` | libsecril-client/secril-client.cpp:1085-1138 | AGAIN if and only if 32 requests are outstanding; a failed write restores the state exactly; a success adds the id under a token that was not live |
| `RilClient.RespondOutcome` | libsecril-client/secril-client.cpp:1333-1401 | a response to live token t runs the handler now registered for the id sent under t, frees t only, and leaves every other history entry where it was |
| `RilClient.RespondKeepsIff` | libsecril-client/secril-client.cpp:1468-1476 | pool and history stay matched if and only if the token is not a union of two or more live bits |
| `RilClient.RegisterRefines` | libsecril-client/secril-client.cpp:245-290 | the handler table is a partial map of non-zero ids: removal, update, insertion, RESOURCE exactly when 32 other ids are registered |
| `RilClient.RegisterOnTable` | libsecril-client/secril-client.cpp:245-290 | a registration slot by slot: RESOURCE exactly for a new id with no empty slot, otherwise the id is there with its handler or, for NULL, gone; other ids unaffected |
| `RilClient.RefusedIff` | libsecril-client/secril-client.cpp:1468-1476 | a response is refused, with no change, if and only if its token is zero or has a bit that is not live |
| `RilClient.HandlerFound` | libsecril-client/secril-client.cpp:1525-1547 | the search through history and table finds the handler the map has for the request |
| `RilClient.StepRefines` | libsecril-client/secril-client.cpp:1085-1401 | every operation does to the tables what it should do to the two maps and returns what they determine |
| `RilClient.EveryRun` | libsecril-client/secril-client.cpp:1085-1547 | in every run whose responses echo one token bit, the pool's bits are the history tokens, each once, and outputs are those of the two maps |
| `RilClient.RilClientPrv.AllocateToken` | libsecril-client/secril-client.cpp:1443-1460 | the lowest clear bit, or none when all 32 are set |
| `RilClient.RilClientPrv.FreeToken` | libsecril-client/secril-client.cpp:1463-1465 | the token's bits leave the pool |
| `RilClient.RilClientPrv.RecordReqHistory` | libsecril-client/secril-client.cpp:1479-1497 | the first empty entry takes the request, or RESOURCE and no change |
| `RilClient.RilClientPrv.ClearReqHistory` | libsecril-client/secril-client.cpp:1499-1509 | the first entry with the token is emptied |
| `RilClient.RilClientPrv.FindReqHandler` | libsecril-client/secril-client.cpp:1525-1547 | the slot the specification finds |
| `RilClient.RilClientPrv.RegisterRequestCompleteHandler` | libsecril-client/secril-client.cpp:245-290 | the table and the code the specification gives |
| `RilClient.RilClientPrv.SendOemRequestHookRaw` | libsecril-client/secril-client.cpp:1085-1138 | the state and the code the specification gives, error path included |
| `RilClient.RilClientPrv.ProcessSolicited` | libsecril-client/secril-client.cpp:1333-1401 | the state, the code and the handler run that the specification gives |
| `RilClient.RilClientPrv.RequestMute` | libsecril-client/secril-client.cpp:912-927 | the state and the code after GetMute on an open connection, failed send included |
| `RilRemoval.RemovedIffFirstAnswered` | libsecril-client/secril-client.cpp:1382-1391 | with the flag set, through any operations until it is set again, a response removes the handler of an id if and only if the first response that runs a handler answers a request with that id |
| `RilRemoval.MuteLeaves` | libsecril-client/secril-client.cpp:912-927 | after GetMute the flag is set, whatever happened; a failed one restores everything but the flag and its own registration |
| `RilRemoval.FailedMuteHitsAnother` | libsecril-client/secril-client.cpp:920-925 | after a failed GetMute the next response that runs a handler removes that of another request |
| `RilRemoval.WrongHandlerRemoved` | libsecril-client/secril-client.cpp:1382-1391 | a run from a fresh client in which another request loses its handler and GetMute's stays |
| `RilRemoval.FailedMuteRun` | libsecril-client/secril-client.cpp:920-925 | a run in which a GetMute that could not send costs the only other request its handler |
| `RilOverlap.MatchedIffNoOverlap` | libsecril-client/secril-client.cpp:1443-1465 | with every update of the pool a read and a write, pool and history are matched in all reachable states with both threads idle if and only if sends and responses do not overlap |
| `RilOverlap.TokenLost` | libsecril-client/secril-client.cpp:1463-1465 | a run in which a response overlaps a send: the new token leaves the pool, its entry stays and its answer is refused |
| `RilOverlap.TokenLeaked` | libsecril-client/secril-client.cpp:1443-1460 | a run in which a send overlaps a response: the freed token is back in the pool with no entry |
| `HilbertCurve.CellOnce` | libdither/image_dither.cpp:52-129 | each of the four curves visits every cell of a block exactly once |
| `HilbertCurve.IndexOfHilbert` | libdither/image_dither.cpp:52-129 | at every level the curve has an inverse: the index of the i-th point is i |
| `HilbertCurve.HilbertOfIndex` | libdither/image_dither.cpp:52-129 | and the point at the index of p is p |
| `HilbertCurve.Unbroken` | libdither/image_dither.cpp:52-129 | consecutive points of the curve are neighbours, at every level |
| `HilbertTable.TablesListTheCurves` | libdither/image_dither.cpp:52-129 | all 1024 literal entries of the four tables are the points of the Hilbert curve of level four in four orientations |
| `HilbertTable.TableEntry` | libdither/image_dither.cpp:1981-1984 | entry i of the table in memory is cell i of its curve |
| `HilbertTable.CurveTableIsTable` | libdither/image_dither.cpp:52-129 | the four tables as lists of 512 numbers have the layout the offset tables are computed from |
| `DitherKernel.RotatedRowsAreTheWindow` | libdither/image_dither.cpp:27-37 | row m of s_weight applied to the ring as it lies in memory is the window weighted 8, 4, 4, 2, 2, 2, 1, 1 by age, and no 16-bit lane wraps |
| `DitherKernel.RegistersAreTheWindow` | libdither/image_dither.cpp:916-1337 | the unrolled register sums are the two halves of the window by age, each wrapped to a signed byte, added with saturation |
| `DitherKernel.NarrowIsTrueIff` | libdither/image_dither.cpp:952-965 | for all errors, that sum is the true window, and feeds the true value back, if and only if the window fits a signed byte and the halves 8a0+a6+a7 and 4a1+4a2+2a3+2a4+2a5 overflow by opposite amounts or not at all |
| `DitherKernel.SmallErrorsFit` | libdither/image_dither.cpp:952-965 | errors of at most five either way always fit |
| `DitherKernel.TrueWindowIff` | libdither/image_dither.cpp:916-968 | for every stream the 8-bit path feeds the true window back at every pixel if and only if the halves fit at every pixel of the 16-bit path, and then both give the same result |
| `DitherKernel.WhiteSaturates` | libdither/image_dither.cpp:952-965 | from the fifth white pixel on the true window is at least 140 and the sum is 127 |
| `DitherKernel.WrapFlipsTheSign` | libdither/image_dither.cpp:952-965 | a stream of eight pixels after which the feedback is -16 instead of 14 |
| `DitherKernel.ErrorBound` | libdither/image_dither.cpp:1408-1426 | errors stay in -255..255 |
| `DitherKernel.ClipIsClamp` | libdither/image_dither.cpp:232-235 | CLIP8 clamps to 0..255 on -65535..65536 |
| `DitherKernel.ClipWrongBeyond` | libdither/image_dither.cpp:232-235 | just outside that range it does not |
| `DitherKernel.NarrowErrorBound` | libdither/image_dither.cpp:930-943 | on the 8-bit path an error lies in -15..15+q, so that the subtraction that computes it does not wrap |
| `DitherKernel.GridChannelUntouched` | libdither/image_dither.cpp:930-943 | a channel on the grid already gathers no error and is not changed, on either path |
| `DitherKernel.ExactChannelUntouched` | libdither/image_dither.cpp:930-943 | the alpha lanes gather no error and come out as they went in |
| `DitherBlock.BlockKeepsAlpha` | libdither/image_dither.cpp:842-1426 | on both block paths every pixel keeps its alpha byte and lands on the 5-6-5 grid |
| `DitherBlock.NarrowStaysClose` | libdither/image_dither.cpp:916-968 | on the four-block path no channel moves by more than 23 |
| `DitherBlock.GroupedLikeSingle` | libdither/image_dither.cpp:842-1446 | a block of a group of four comes out as it would on its own where the halves fit in every colour |
| `DitherBlock.DiffuseWide` | libdither/image_dither.cpp:1397-1446 | one channel of one pixel with ring and rows computes the reference value and keeps ring and reference in step |
| `DitherBlock.DiffuseNarrow` | libdither/image_dither.cpp:916-968 | one byte lane with wrapping and saturating arithmetic does the same for the 8-bit reference |
| `DitherBlock.DitherSingleBlock` | libdither/image_dither.cpp:1343-1818 | each cell of the block gets its reference value, computed from the original pixels along the curve; nothing else changes |
| `DitherBlock.DitherFourBlock` | libdither/image_dither.cpp:842-1341 | the same for four blocks at once |
| `DitherImage.CalcOffsetTable` | libdither/image_dither.cpp:827-840 | the table holds y * width + x of every cell, cut to 16 bits |
| `DitherImage.OffsetsExactIff` | libdither/image_dither.cpp:827-840 | all stored offsets are exact if and only if width <= 4368 |
| `DitherImage.WalkOn` | libdither/image_dither.cpp:1897-1913 | the two pointers put block k in row k / h_cnts and column k % h_cnts of blocks |
| `DitherImage.EachPixelOnce` | libdither/image_dither.cpp:1885-1944 | the positions of block k are its 256 cells, each exactly once, for every width and height |
| `DitherImage.OutputKeepsAlpha` | libdither/image_dither.cpp:1851-1944 | in every image every pixel keeps its alpha byte and lands on the 5-6-5 grid |
| `DitherImage.GridImageUntouched` | libdither/image_dither.cpp:1861-1944 | an image on the 5-6-5 grid already is not changed |
| `DitherImage.DitherTwice` | libdither/image_dither.cpp:1861-1944 | dithering twice is dithering once |
| `DitherImage.DitherIrregularBlock` | libdither/image_dither.cpp:1820-1859 | exactly the pixels of the rectangle are masked |
| `DitherImage.ImgDither` | libdither/image_dither.cpp:1861-1944 | for every height and every width up to 4368 the image becomes, pixel by pixel, block k dithered along curve k % 4 from the original pixels (groups of four on the 8-bit path, leftovers on the 16-bit path) and the strips masked |
| `DitherImage.Process` | libdither/image_dither.cpp:1956-1991 | the four offset tables built from the curves and the dither run with them give that image |
| `DitherLaw.ChannelFollows` | libdither/image_dither.cpp:930-1446 | input and output of a channel: every value comes out as the original plus an eighth of the last eight differences, weighted 8, 4, 4, 2, 2, 2, 1, 1, kept within a byte and rounded down to the grid, in 8-bit arithmetic on the narrow path |
| `DitherLaw.BlockFollows` | libdither/image_dither.cpp:1885-1913 | so does every colour of every whole block of an image, along curve k mod 4 for block k, narrow exactly in the full groups of four |
| `DitherLaw.StripRoundedDown` | libdither/image_dither.cpp:1820-1859 | every pixel outside the whole blocks is rounded down to the greatest grid value not above it and keeps its alpha byte |
| `MuxPcmWriter.WaitAccounts` | audio/sc8830/audio_mux_pcm.c:441-467 | what a wait takes off the count is the sum of the acks it accepted |
| `MuxPcmWriter.OversizedAckIgnored` | audio/sc8830/audio_mux_pcm.c:441-467 | an ack larger than what is still waited for when it comes changes nothing, neither the count nor what is read after it |
| `MuxPcmWriter.ServedWaitReads` | audio/sc8830/audio_mux_pcm.c:441-467 | a wait that succeeds reads up to the ack that completes it |
| `MuxPcmWriter.FailedWaitReads` | audio/sc8830/audio_mux_pcm.c:441-467 | one that fails reads up to the first failed read, or all there are |
| `MuxPcmWriter.AcceptsNothingIff` | audio/sc8830/audio_mux_pcm.c:441-467 | a wait accepts nothing if and only if every ack before the first failed read is zero or too large |
| `MuxPcmWriter.Conservation` | audio/sc8830/audio_mux_pcm.c:469-532 | over all call sequences, partial writes and answers: bytes_written is what reached the pipe less what was acknowledged and stays in 0..3072, and every call reports -1 exactly if it fills the window more often than the acks it finds serve it, else by how much the pipe grew |
| `MuxPcmWriter.ReportsIff` | audio/sc8830/audio_mux_pcm.c:515-531 | the same for one call |
| `MuxPcmWriter.SendsIff` | audio/sc8830/audio_mux_pcm.c:497-527 | a call with data sends some of it if and only if the window has room and the pipe takes a byte |
| `MuxPcmWriter.FillsTheWindowIff` | audio/sc8830/audio_mux_pcm.c:497-527 | a call that starts with room leaves the window full if and only if its writes fill the window more often than the acks serve whole waits and every ack left before a failed read is zero or too large |
| `MuxPcmWriter.UnansweredWindow` | audio/sc8830/audio_mux_pcm.c:497-527 | a fresh writer with one window of data and no answer ends full |
| `MuxPcmWriter.StalledIff` | audio/sc8830/audio_mux_pcm.c:469-532 | over all call sequences from a fresh writer: full if and only if that holds of some call |
| `MuxPcmWriter.FullWindowStalls` | audio/sc8830/audio_mux_pcm.c:497-527 | with a full window a call sends nothing, waits for nothing and reports no error |
| `MuxPcmWriter.StalledForever` | audio/sc8830/audio_mux_pcm.c:497-532 | and so does every call after it |
| `MuxPcmWriter.MuxPcm.WriteWaitResponse` | audio/sc8830/audio_mux_pcm.c:441-467 | bytes received, acks used and result of the wait loop |
| `MuxPcmWriter.MuxPcm.Write` | audio/sc8830/audio_mux_pcm.c:469-532 | return value, window and pipe after a call, with a closed pipe and a failing start command; -1 exactly if a wait fails, else the growth of the pipe, which is a prefix of the data |
| `PropertyMux.SplitConcat` | libshims/ril_shim.cpp:65-86 | splitting undoes joining, up to one trailing empty item |
| `PropertyMux.ConcatSplit` | libshims/ril_shim.cpp:65-86 | joining undoes splitting, up to one trailing comma |
| `PropertyMux.GetFromView` | libshims/ril_shim.cpp:94-110 | property_get answers from the items; where there are none it gives the default, itself cut at its commas |
| `PropertyMux.GetAfterSetIff` | libshims/ril_shim.cpp:94-129 | a set slot reads back for every default if and only if the value is comma-free and not empty, or empty with an item behind it |
| `PropertyMux.OtherSlotKeptIff` | libshims/ril_shim.cpp:112-129 | exactly when another slot of the property keeps its value for every default through a set of a value without commas |
| `PropertyMux.SameForAllDefaults` | libshims/ril_shim.cpp:94-110 | a slot reads the same from two stores for every default if and only if both have the same item there, or neither has one and both or neither have any |
| `PropertyMux.ViewAfterAnySet` | libshims/ril_shim.cpp:112-129 | the items after a set of any value: one with commas takes several places and pushes the items behind it back |
| `PropertyMux.OtherSlotKeptAnyValue` | libshims/ril_shim.cpp:94-129 | the same exact condition for values with commas, in terms of the items that take the slot's place |
| `PropertyMux.LastSetWins` | libshims/ril_shim.cpp:112-129 | the last of two sets on one slot wins, whatever the first was |
| `PropertyMux.SetWhatIsThere` | libshims/ril_shim.cpp:112-129 | writing back what a slot holds changes nothing |
| `PropertyMux.OtherPropertiesUntouched` | libshims/ril_shim.cpp:40-54 | a set leaves every key kept in another property alone |
| `PropertyNames.SharedPlaces` | libshims/ril_shim.cpp:40-54 | the first SIM's name of a shared property is item 0 of it, the name with a 2 behind it item 1 |
| `PropertyNames.PlacedIff` | libshims/ril_shim.cpp:40-54 | only those six names have a place |
| `PropertyNames.PlacesDiffer` | libshims/ril_shim.cpp:40-54 | no two names share a place |
| `PropertyNames.OtherNamesDirect` | libshims/ril_shim.cpp:94-129 | every other name goes straight to the platform |
| `PropertyNames.SecondStored` | libshims/ril_shim.cpp:112-129 | setting the second SIM's part stores the first one's, a comma and the value |
| `PropertyNames.FirstStored` | libshims/ril_shim.cpp:112-129 | setting the first SIM's part stores the value, and the second one's behind a comma if there is one |
| `PropertyNames.NamedReadBack` | libshims/ril_shim.cpp:94-129 | whatever name is set, to a value that is not empty and has no comma where the property is shared, reads back |
| `PropertyNames.NamedOthersKept` | libshims/ril_shim.cpp:94-129 | and every other name with a value keeps it |
| `PropertyMux.SplitValue` | libshims/ril_shim.cpp:65-73 | the getline loop computes the split |
| `PropertyMux.ConcatItems` | libshims/ril_shim.cpp:75-86 | the loop computes the joined value |
| `PropertyMux.Properties.PropertyGet` | libshims/ril_shim.cpp:94-110 | the value the specification gives |
| `PropertyMux.Properties.PropertySet` | libshims/ril_shim.cpp:112-129 | the store and the result the specification gives |

## Left out

- `BtWifiDiag.Handset.HandleWrite`: the random-address file and the properties set beside the two text files are not modelled; random addresses and whether a file opens are parameters.
- `VdiagRouter.Reader.OnRead`: partial writes to the modem and reopening the serial port are not modelled; eng_diag is a classifier over the decoded frame; a read must leave the accumulator below its size, since decoding looks one byte further.
- `AtCommandMemory.AtCmdVectors.PushVoiceCommand`: what a text puts behind the end of T_AT_CMD is not modelled, nor the routeDev that push_route_command sets beside the command.
- `AtCommandMemory.AtCmdVectors.DoCmdDual`: the list of selected slots has no bound of nine, which only a mask overwritten by a text could exceed.
- `ScoHandshake.StreamKeeps`: failed start-up of the streams themselves is not modelled, only a failing open in the helper; thread creation and exit are not modelled.
- `CaptureProvider.InputStream.ReadFrames`: the branch through the resampler is not modelled; the resampler draws on the same provider, which `Lossless` covers.
- `RilClient.EveryRun`: operations are atomic; what overlapping sends and responses do to the pool is in `RilOverlap`. Handlers that call back into the client while they run, sockets, Parcel layout and unsolicited responses are left out.
- `MuxPcmWriter.MuxPcm.Write`: what clearing the pipe after the start command discards is not part of the answers modelled.
- `PropertyMux.Properties.PropertyGet`: a null default and lengths of the caller's buffer are not modelled.
- tinyalsa, mixer and routing control in audio_hw.c, the voice-call logic and XML parsing: foreign calls.
- dither_block, _dither, _img_dither_0 and the older offset tables: not reached from img_dither_process.
- Sqlite, sysfs, UART and USB access, reboot and the EUT handlers of engmode: I/O only.
- eng_diag command dispatch, FM radio, ion, lights, memtrack and the other shims: one-branch cases or thin wrappers that would add easy members only.
