# libkatherine core, modelled in Dafny

A model of the core of libkatherine, the control library for the Katherine
readout of Timepix3 pixel detectors, with proofs about the model.  It
covers five parts of the library and its examples.

1. **The acquisition engine.** The files are `c/src/acquisition.c`, `c/src/md.h` and
   `c/include/katherine/bitfields.h`.
   - The detector sends a stream of 6-byte measurement-data records. Each
     record is read as a little-endian integer.
   - A 4-bit header at bits 44-47 selects what the record does:
     - a pixel push into a bounded buffer that is flushed when full;
     - a time-offset update;
     - the start or the end of a frame;
     - one half of a timestamp;
     - a lost-pixel count;
     - the abort marker;
     - or a dropped-record count.
   - Pixels are decoded by one of six shift/mask decoders. A ToA is
     corrected by the latest time offset.
   - `bits.dfy` holds `MASK` and `EXTRACT`. `md.dfy` holds the record
     layouts and the decoders.
   - `acquisition_model.dfy` states every handler, the read loop and
     `begin` as functions on a value of the acquisition.
     `acquisition_lemmas.dfy` proves what they promise.
   - `acquisition.dfy` is the `katherine_acquisition_t` object as a
     class. Its pixel buffer and MD buffer are arrays, its counters are
     fields, and the callbacks are a ghost event log. Every handler and
     loop is proved to follow the value model.
2. **Command words.** The file is `c/src/command_interface.h`.
   - `katherine_cmd_long` writes a `long` into an 8-byte command as
     little-endian bytes, two nibbles at a time, in place.
   - The `cmd6`, `cmd60`, `cmd64_long` and `cmd6_long` builders place the
     opcode and the selector.
   - The command, hardware-command and DAC codes become enumerations.
     Every well-formed request is proved to be read back from its
     command word.
3. **Status replies.** The files are `c/src/status.c` and `c/src/crd.h`.
   - The readout and communication status are decoded from the 8-byte
     reply.
   - The chip identifier `"%c%d-W000%d"` is formatted from the reply and
     put into a 16-byte buffer.
   - The digital test is a `do`/`while` loop of at most 100 waits.
4. **The pixel matrix.** The file is `c/src/px_config.c`.
   - `katherine_px_config_load_bmc_data` and `_bpc_data` are methods on an
     array of 16384 32-bit words. They clear the words, then OR each of
     the 65536 source bytes into its lane.
   - The result is proved to be a fixed transposition of the source: the
     rows are flipped, the layout is column-major and each word holds four
     pixels. The transposition is proved in both directions.
5. **Address ranges.** The files are `cxx/examples/address_source.cpp`,
   `c/examples/kfind.c` and `cxx/examples/kfindxx.cpp`.
   - `odometer.dfy` is the carry loop over four bounded components. It is
     proved to enumerate every address in range exactly once, in
     increasing order.
   - `decimal.dfy` models `%d`, `atoi` and `std::stoi`.
   - `address_source.dfy` is the C++ class. `kfind.dfy` has the C
     program's globals as a class and its in-place parser over a `char`
     array. `kfindxx.dfy` has the C++ parser with its exception path.

The transport is not modelled. Sends, waits and receives become parameters:
- the result code of each device command;
- the reply bytes;
- the sequence of datagrams or idle passes seen by the read loop.

The wall clock becomes two booleans on an idle pass: "the report timeout
has elapsed" and "the fail deadline has passed".

## Model

| member | source | states |
|---|---|---|
| Bits.Mask | c/include/katherine/bitfields.h:60 | MASK(n) is n one-bits: 2^n - 1, for every width below 64 |
| Bits.MaskExamples | c/include/katherine/bitfields.h:32-60 | MASK(8) is 0xFF, not the 0xF the header comment gives; the other masks the library uses are 0xF, 0x3FF, 0x3FFF, 0xFFFF, 2^32-1 and 2^44-1 |
| Bits.Extract | c/include/katherine/bitfields.h:61 | an extracted field always fits its width: it is below 2^width |
| Bits.ExtractIs | c/include/katherine/bitfields.h:61 | EXTRACT of start s and width n is (v / 2^s) mod 2^n |
| Bits.ExtractLocal | c/include/katherine/bitfields.h:61 | EXTRACT sees only the bits below start+width: two values agreeing there give the same field |
| Bits.ExtractBelow | c/include/katherine/bitfields.h:61 | cutting a value above the field does not change the field |
| Bits.ExtractInsert | c/include/katherine/bitfields.h:61 | round trip: a field f < 2^n placed at bit s, with any bits below and above it, is extracted as f |
| Bits.ExtractAbove | c/include/katherine/bitfields.h:61 | a field lying wholly above the value's highest bit is 0 |
| Bits.LittleEndian | c/src/status.c:36 | the value of n bytes read little-endian is below 2^(8n) |
| Bits.LittleEndianPrefix | c/src/acquisition.c:311 | the value of the first k bytes is the value of all of them cut at bit 8k |
| Md.Header | c/src/md.h:33-35 | the header is a 4-bit value, 0..15 |
| Md.Classify | c/src/md.h:33-59 | a record is a pixel exactly when its header is 0x4, and unknown exactly when its header is 0x0, 0x1, 0x6 or 0xF |
| Md.PayloadWidths | c/src/md.h:37-59 | the non-pixel payloads fit their widths: offset and timestamp LSB 32 bits, timestamp MSB 16 bits, n_sent and n_lost 44 bits |
| Md.PixelSize | c/include/katherine/px.h:23-60 | every pixel struct is at least 6 bytes |
| Md.CoordOf | c/src/md.h:84-88 | both coordinates of every pixel lie in 0..255 |
| Md.Decode | c/src/md.h:110-241 | a decoded pixel has the layout of its variant; each field fits its bit width; a corrected ToA lies in [offset, offset + 2^14) |
| Md.OffsetCorrection | c/src/md.h:81-82 | the two Event+iToT decoders ignore the time offset; the other four decode the same pixel with the ToA shifted by the change of offset |
| Md.RecordLocal | c/src/md.h:33-241 | header, classification and every decoder read only bits 0-47, so the two bytes read past a record do not matter |
| Md.DecodeByFields | c/src/md.h:110-241 | two records agreeing on the five pixel fields decode to the same pixel in every variant |
| Md.ClassifyByPayload | c/src/md.h:37-59 | two records with the same header and payload bits are classified alike |
| Md.PixelRecordFields | c/src/md.h:90-108 | each field of a pixel record is read back by EXTRACT at the position and width the layout gives; the record is below 2^48 with header 0x4 |
| Md.DecodeEncode | c/src/md.h:110-241 | round trip: every in-range pixel of every variant has a 48-bit pixel record that decodes to it under the same offset |
| Md.ClassifyPixelData | c/src/acquisition.c:239-241 | a record with header 0x4 is a pixel record |
| AcquisitionModel.StatusStrings | c/src/acquisition.c:467-477 | the four states have four different descriptions; a code is described as "unknown" exactly when it is not a state |
| AcquisitionModel.Wrap64 | c/src/acquisition.c:87 | uint64_t addition gives a value below 2^64, and the exact sum when there is no overflow |
| AcquisitionModel.ToaOffsetWraps | c/src/acquisition.c:40 | the 32-bit product as written equals the intended offset exactly for offsets below 2^18; offset 2^18 gives 0 instead of 2^32 |
| AcquisitionModel.ToaFits | c/src/md.h:81-82 | the intended offset plus any 14-bit ToA fits in 64 bits, and the offset and the raw ToA can be read back from the sum |
| AcquisitionModel.MdAllocation | c/src/acquisition.c:195-198 | the allocation is a multiple of 8 of at least size + 7 bytes, so every 8-byte read at a record start below the size stays inside it |
| AcquisitionModel.MdAllocationAsWrittenOverruns | c/src/acquisition.c:195-197 | with the rounding as written, a full datagram whose size is a multiple of 6 overruns the buffer exactly when the size is a multiple of 24 |
| AcquisitionModel.Records | c/src/acquisition.c:308-312 | a chunk of n bytes holds one record per started 6-byte step |
| AcquisitionModel.DatagramStep | c/src/acquisition.c:285-286 | a received datagram overwrites the start of the MD buffer and leaves the rest alone |
| AcquisitionModel.SelectVariant | c/src/acquisition.c:340-368 | there is a layout exactly for the three modes; ToA+ToT and ToA-only select an offset-corrected layout; fast_vco selects the fast layouts |
| AcquisitionLemmas.FlushConserves | c/src/acquisition.c:20-27 | a flush reports exactly the buffered pixels, adds their count to received_pixels, empties the buffer and changes nothing else |
| AcquisitionLemmas.PushOne | c/src/acquisition.c:241-247 | a pixel record flushes first exactly when the buffer is full, then stores the decoded pixel last; 1 <= valid <= max_valid afterwards; no pixel is lost |
| AcquisitionLemmas.PushAllBounds | c/src/acquisition.c:241-247 | a run of pixel records keeps valid <= max_valid (and >= 1 once one was pushed), logs only pixels_received, and counts every pixel |
| AcquisitionLemmas.PushAll | c/src/acquisition.c:241-247 | a run of pixel records loses and duplicates no pixel: reported plus buffered pixels grow by the decoded pixels, in record order |
| AcquisitionLemmas.PixelsConserved | c/src/acquisition.c:20-108 | for any records and any max_valid, no pixel is lost or duplicated: reported plus buffered pixels afterwards are those from before, followed by the records' pixels in order, each decoded under the latest time offset before it |
| AcquisitionLemmas.PixelsOfPixelRun | c/src/acquisition.c:241-247 | for a run of pixel records only, those pixels are the records decoded one by one under the same offset |
| AcquisitionLemmas.PushWithoutFlush | c/src/acquisition.c:241-247 | pixel records that fit the buffer are appended without any flush |
| AcquisitionLemmas.CapacityBoundary | c/src/acquisition.c:241-247 | into an empty buffer, max_valid pixel records cause no flush; one more causes exactly one, which reports the first max_valid pixels |
| AcquisitionLemmas.NewFrameResets | c/src/acquisition.c:29-35 | header 0x7 zeroes the whole frame info and reports frame_started with the completed-frame count; it neither flushes nor clears the buffer |
| AcquisitionLemmas.FrameFinishedEffect | c/src/acquisition.c:43-58 | header 0xC always flushes, records n_sent, reports frame_ended with the final received count, and counts the frame; the state becomes SUCCEEDED when the count reaches the requested number |
| AcquisitionLemmas.FrameClose | c/src/acquisition.c:20-58 | a frame whose finish record announces every pixel received ends with equal received and sent counts, all buffered pixels reported and an empty buffer |
| AcquisitionLemmas.InertRecords | c/src/acquisition.c:249-262 | headers 0x2 and 0x3 change nothing; 0xE only sets aborted; 0x0, 0x1, 0x6 and 0xF only count a dropped record |
| AcquisitionLemmas.StateOnlyOnFinish | c/src/acquisition.c:43-58 | only a frame-finished record changes the state or the frame count, and it changes the state only to SUCCEEDED |
| AcquisitionLemmas.KindOfHeader | c/src/acquisition.c:254-259 | headers 0x8, 0x9, 0xA, 0xB and 0xD select the start LSB, start MSB, end LSB, end MSB and lost-pixel updates |
| AcquisitionLemmas.FrameRecord | c/src/acquisition.c:60-88 | a timestamp-half or lost-pixel record changes only the frame info |
| AcquisitionLemmas.TimestampLastWriteWins | c/src/acquisition.c:60-82 | of two writes of the same timestamp half, the last wins |
| AcquisitionLemmas.TimestampHalvesCommute | c/src/acquisition.c:60-88 | writes of different timestamp halves, and lost-pixel counts, can be applied in either order |
| AcquisitionLemmas.LostPixelsAccumulate | c/src/acquisition.c:84-88 | lost-pixel records add up their 44-bit counts modulo 2^64 |
| AcquisitionLemmas.OffsetAppliesAfter | c/src/acquisition.c:37-41 | after a header-0x5 record, a ToA pixel carries its raw ToA plus 16384 times the offset; buffered pixels keep their ToA |
| AcquisitionLemmas.OffsetAgreesAsWritten | c/src/acquisition.c:40 | the pixel's corrected ToA equals the one the 32-bit product as written gives exactly when the offset is below 2^18 |
| AcquisitionLemmas.Completion | c/src/acquisition.c:53-57 | the frame count grows by the number of finish records; a running acquisition ends SUCCEEDED exactly when the count reaches the requested number on the way, and otherwise stays RUNNING |
| AcquisitionLemmas.CompletionCount | c/src/acquisition.c:53 | from any state, the frame count grows by the number of finish records |
| AcquisitionLemmas.SucceededStays | c/src/acquisition.c:55-57 | once SUCCEEDED, records never change the state |
| AcquisitionLemmas.HandleRecordsAppend | c/src/acquisition.c:308-312 | handling a + b is handling a and then b |
| AcquisitionLemmas.RecordsAt | c/src/acquisition.c:308-312 | record k of a chunk is the little-endian word of the 8 bytes at byte 6k |
| AcquisitionLemmas.ReadLoopStops | c/src/acquisition.c:284 | the read loop does nothing once the state is not RUNNING |
| AcquisitionLemmas.ReadLoopAppend | c/src/acquisition.c:284-316 | the loop takes its inputs one at a time: inputs a + b are a, then b |
| AcquisitionLemmas.IdleFlush | c/src/acquisition.c:288-292 | an idle pass never reports an empty buffer; it flushes a non-empty buffer exactly when the report timeout is on and has elapsed |
| AcquisitionLemmas.IdleState | c/src/acquisition.c:294-301 | after an idle pass the state is SUCCEEDED if decoding is off and the acquisition was aborted, otherwise TIMED_OUT if the fail timeout is on and has passed, otherwise unchanged |
| AcquisitionLemmas.DatagramRaw | c/src/acquisition.c:313-315 | with decoding off, a datagram is handed to data_received unchanged and nothing else happens |
| AcquisitionLemmas.DatagramDecoded | c/src/acquisition.c:308-312 | with decoding on, the records of the datagram are handled in order: the pixels reported or still buffered afterwards are the ones from before, then the datagram's pixel records decoded under the offset in force at each; completed frames grow by the number of frame-finished records; data_received is not called |
| Acquisition.BeginOutcomes | c/src/acquisition.c:393-433 | begin returns 0 exactly when every step succeeds; a data-driven request for more than one frame gives EINVAL and never starts; a failure of a configuration step returns that error before the state is touched |
| Acquisition.Acquisition.Init | c/src/acquisition.c:183-221 | init leaves a NOT_STARTED, not aborted acquisition with an empty pixel buffer and an MD buffer of the corrected size |
| Acquisition.Acquisition.Flush | c/src/acquisition.c:20-27 | the object after flush_buffer is the value flush of the object before |
| Acquisition.Acquisition.HandleNewFrame | c/src/acquisition.c:29-35 | zeroes the frame info and logs frame_started; nothing else changes |
| Acquisition.Acquisition.HandleFrameFinished | c/src/acquisition.c:43-58 | flush, n_sent, frame_ended, the frame count and SUCCEEDED when it reaches the request |
| Acquisition.Acquisition.HandlePixel | c/src/acquisition.c:241-247 | a flush when full, then the pixel written at index valid and valid incremented |
| Acquisition.Acquisition.HandleTimeOffset | c/src/acquisition.c:37-41 | sets the ToA offset to 16384 times the offset and changes nothing else |
| Acquisition.Acquisition.HandleTimestamp | c/src/acquisition.c:60-82 | sets one timestamp half and changes nothing else |
| Acquisition.Acquisition.HandleLostPixels | c/src/acquisition.c:84-88 | adds to lost_pixels modulo 2^64 and changes nothing else |
| Acquisition.Acquisition.HandleAborted | c/src/acquisition.c:90-94 | sets aborted and changes nothing else |
| Acquisition.Acquisition.HandleUnknown | c/src/acquisition.c:104-108 | counts a dropped record and changes nothing else |
| Acquisition.Acquisition.HandleMeasurementData | c/src/acquisition.c:236-264 | the object after one record is the value model's handling of that record |
| Acquisition.Acquisition.HandleOther | c/src/acquisition.c:249-262 | the switch on a non-pixel header follows the value model |
| Acquisition.Acquisition.ProcessRecords | c/src/acquisition.c:308-312 | the decoding loop handles the records at 6-byte steps of the received bytes, in order |
| Acquisition.Acquisition.Receive | c/src/acquisition.c:285-286 | a datagram is stored at the start of the MD buffer, the rest kept |
| Acquisition.Acquisition.ReadDatagram | c/src/acquisition.c:306-315 | a received datagram is stored, then decoded or handed on whole |
| Acquisition.Acquisition.ReadIdle | c/src/acquisition.c:288-304 | a failed receive follows the value model's idle pass |
| Acquisition.Acquisition.ReportIfDue | c/src/acquisition.c:289-292 | the report-timeout flush of a failed receive |
| Acquisition.Acquisition.CheckDeadline | c/src/acquisition.c:294-301 | the fail timeout, then the end of an aborted raw readout |
| Acquisition.Acquisition.RunLoop | c/src/acquisition.c:284-318 | the receive loop follows the value model's loop over the inputs |
| Acquisition.Acquisition.ReadOne | c/src/acquisition.c:284-316 | one pass of the receive loop follows the value model |
| Acquisition.Acquisition.ReadVariant | c/src/acquisition.c:266-324 | a failed lock returns 1 and changes nothing; otherwise the loop runs from an empty buffer with max_valid = pixel_buffer_size / PIXEL_SIZE, and the result is 0 for SUCCEEDED, ETIMEDOUT for TIMED_OUT and EAGAIN otherwise |
| Acquisition.Acquisition.Read | c/src/acquisition.c:340-368 | an unknown acquisition mode gives EINVAL and changes nothing; otherwise the read loop of the layout selected by the mode and fast_vco runs |
| Acquisition.Acquisition.Begin | c/src/acquisition.c:379-433 | the modes are stored; a rejected or failed begin leaves the state and counters alone; a begin that gets past the configuration is RUNNING with zero completed frames, the requested frames, zero dropped records and a zero offset |
| Acquisition.Acquisition.StartDevice | c/src/acquisition.c:398-433 | the three configuration commands, then the state reset, then the start command |
| Acquisition.Acquisition.Abort | c/src/acquisition.c:441-460 | the result is the lock or stop error; aborted is set only when both succeed |
| CommandInterface.Blank | c/src/command_interface.h:63 | eight zero bytes |
| CommandInterface.NibbleOr | c/src/command_interface.h:89 | the byte cmd_long stores, the OR of the low nibble and the shifted high nibble, is lo + 16 * hi, with lo as its low nibble and hi as its high nibble |
| CommandInterface.Nibbles | c/src/command_interface.h:83-87 | two nibble steps take value mod 256 and divide the value by 256 |
| CommandInterface.CmdLong | c/src/command_interface.h:77-91 | the in-place loop writes the value's bytes from index 0 and leaves every byte above them untouched |
| CommandInterface.LongBytesAt | c/src/command_interface.h:77-91 | byte i written is (value / 256^i) mod 256 |
| CommandInterface.LongBytesLength | c/src/command_interface.h:82-90 | a value below 2^(8k) writes at most k bytes |
| CommandInterface.TooLong | c/src/command_interface.h:82-90 | a value of at least 2^(8k) writes more than k bytes |
| CommandInterface.LongFits | c/src/command_interface.h:82-90 | a 64-bit long never writes past the 8 bytes of a command: at most 8 iterations |
| CommandInterface.LittleEndianLongBytes | c/src/command_interface.h:77-91 | round trip: the bytes written, read little-endian, are the value |
| CommandInterface.LittleEndianZeros | c/src/command_interface.h:96 | zero bytes above the written ones do not change the value read back |
| CommandInterface.Cmd6 | c/src/command_interface.h:60-66 | eight zero bytes except the opcode in byte 6 |
| CommandInterface.Cmd60 | c/src/command_interface.h:68-75 | as cmd6, with the argument in byte 0 |
| CommandInterface.WithLongAt | c/src/command_interface.h:77-91 | each byte of a command after the long is written is a byte of the value where one was written, and the byte before the write elsewhere |
| CommandInterface.WithLongValue | c/src/command_interface.h:93-112 | from a command zeroed below byte k, a value below 2^(8k) is read back from the first k bytes |
| CommandInterface.Cmd64Long | c/src/command_interface.h:93-102 | opcode in byte 6, selector in byte 4, then the long written from byte 0 |
| CommandInterface.Cmd6Long | c/src/command_interface.h:104-112 | opcode in byte 6, then the long written from byte 0 |
| CommandInterface.Cmd64LongFields | c/src/command_interface.h:93-102 | a value below 2^32 keeps the selector and the opcode, and is read back from bytes 0-3 |
| CommandInterface.Cmd64LongOverwrites | c/src/command_interface.h:89 | a value of at least 2^32 replaces the selector with its fifth byte, because the byte is assigned rather than OR-ed |
| CommandInterface.Cmd6LongFields | c/src/command_interface.h:104-112 | a value below 2^48 keeps the opcode and is read back from bytes 0-5 |
| CommandInterface.Cmd6LongNonPositive | c/src/command_interface.h:82 | a value that is not positive writes nothing |
| CommandInterface.CmdCodes | c/src/command_interface.h:140-171 | the command opcodes are distinct: each byte names at most one command type |
| CommandInterface.HwCodes | c/src/command_interface.h:181-198 | the hardware-command codes are distinct |
| CommandInterface.DacCodes | c/src/command_interface.h:226-243 | the DAC selectors are distinct |
| CommandInterface.DecodeQuery | c/src/command_interface.h:173-179 | each argument-less cmd6 command is read back from its word |
| CommandInterface.DecodeHw | c/src/command_interface.h:200-215 | each hardware command is read back from its cmd60 word |
| CommandInterface.DecodeLong | c/src/command_interface.h:217-223 | each cmd6_long command with an argument below 2^48 is read back with its argument |
| CommandInterface.DecodeDac | c/src/command_interface.h:226-243 | each DAC setting below 2^32 is read back with its selector and value |
| CommandInterface.DecodeEncode | c/src/command_interface.h:173-243 | round trip: every well-formed request is read back from the command word it sends |
| CommandInterface.EncodeInjective | c/src/command_interface.h:173-243 | two different well-formed requests never send the same command word |
| Crd.Get | c/src/crd.h:23-62 | a crd field is below 2^width |
| Crd.Layouts | c/src/crd.h:23-62 | the four readout-status fields tile bits 0-47 and the three communication-status fields tile bits 0-23, without gaps or overlaps; every mask fits the type it is cast to |
| Crd.TiledSum | c/src/crd.h:23-62 | a word cut at the end of a tiled layout is the sum of its fields at their start bits, so the fields determine those bits completely |
| Status.ReadoutStatusOf | c/src/status.c:36-40 | the four fields read from a reply fit their crd widths |
| Status.ReadoutStatusRoundTrip | c/src/status.c:36-40 | round trip: a readout status sent in a reply is read back |
| Status.ReadoutWordOf | c/src/status.c:36-40 | the four fields give back bits 0-47 of any reply |
| Status.GetReadoutStatus | c/src/status.c:24-46 | fails exactly when the send or the wait fails, with that error; otherwise the status is bits 0-47 of the reply |
| Status.CommStatusOf | c/src/status.c:66-69 | comm_lines_mask is bits 0-7 of the reply and data_rate five times bits 8-15 (so a multiple of 5, at most 1275); chip_detected holds exactly when bits 16-23 are not zero |
| Status.CommStatusRoundTrip | c/src/status.c:66-69 | round trip: a communication status sent in a reply is read back |
| Status.GetCommStatus | c/src/status.c:54-75 | fails exactly when the send or the wait fails, with that error; otherwise the mask and data rate give back bits 0-15 of the reply, and chip_detected says whether bits 16-23 are non-zero |
| Status.ChipIdFields | c/src/status.c:95-98 | x is the low nibble of the reply minus 1, y the next nibble and w bits 8-19: together they give back bits 0-19; so x is in -1..14, y in 0..15 and w in 0..4095, whatever the sign of the int |
| Status.ChipIdLength | c/src/status.c:100-101 | the chip id text is at most 12 characters |
| Status.ChipIdLetter | c/src/status.c:96-101 | the letter 65 + x lies in '@'..'O', and is '@' exactly when the low nibble is 0 |
| Status.ChipIdRoundTrip | c/src/status.c:101 | round trip: x (in -1..14), y and w are read back from the text "%c%d-W000%d" |
| Status.ChipIdBuffer | c/src/status.c:100-101 | the 16-byte buffer holds the text followed by NULs only |
| Status.GetChipId | c/src/status.c:83-106 | fails exactly when the send or the wait fails, with that error; otherwise the NUL-padded chip id of the reply, which fits the buffer |
| Status.FirstAck | c/src/status.c:174-178 | the first wait that succeeds, with every earlier one failing; none when all fail |
| Status.DigitalTestPasses | c/src/status.c:163-192 | the test returns 0 exactly when the send succeeds, some wait succeeds, and the first successful reply's byte 0 is 64 |
| Status.DigitalTest | c/src/status.c:163-192 | the do/while loop gives that result after at most 100 waits, stopping at the first that succeeds |
| PxConfig.Placement | c/src/px_config.c:73-76 | source byte i goes to word 64*x + y/4 below 16384, lane 3 - y%4, and Source recovers i from that word and lane |
| PxConfig.SourceBound | c/src/px_config.c:73-76 | every lane of every word names a source byte below 65536 |
| PxConfig.SourceOf | c/src/px_config.c:73-76 | the byte that lane l of word k names is placed in that lane of that word |
| PxConfig.PlacementInjective | c/src/px_config.c:76 | different source bytes never share a lane of a word, so the OR acts as an assignment |
| PxConfig.ReverseArrayIsRev4 | c/src/px_config.c:137 | reverse_array is the four-bit reversal, which undoes itself |
| PxConfig.BpcByte | c/src/px_config.c:143 | bits 0 and 5 are kept, bits 1-4 are reversed, and bits 6-7 are cleared |
| PxConfig.BpcByteTwice | c/src/px_config.c:137-143 | the BPC transform applied twice gives byte & 0x3F |
| PxConfig.TransposedLane | c/src/px_config.c:73-76 | inverse: lane 3 - y%4 of word 64*x + y/4 holds the pixel from row 255 - y, column x |
| PxConfig.TransposedPixel | c/src/px_config.c:73-76 | forward: every source byte can be read back from its word and lane |
| PxConfig.PartialEnds | c/src/px_config.c:66-77 | before any byte every word is 0; after all of them every word is the transposed matrix |
| PxConfig.PartialStep | c/src/px_config.c:76 | placing one source byte changes only its own word, by setting its lane |
| PxConfig.SnapshotPartial | c/src/px_config.c:73-77 | after n passes of the loop, each word holds exactly the pixels placed in it so far |
| PxConfig.SnapshotTransposed | c/src/px_config.c:66-77 | the finished loop from the cleared matrix leaves the transposed matrix |
| PxConfig.LoadBmcData | c/src/px_config.c:62-80 | returns 0 and leaves every word the transposition of the BMC bytes, whatever the words held before |
| PxConfig.LoadBpcData | c/src/px_config.c:128-150 | returns 0 and leaves every word the transposition of the BPC-transformed bytes, whatever the words held before |
| Decimal.DigitChar | c/examples/kfind.c:142 | the digit character of d reads back as d |
| Decimal.Digits | c/examples/kfind.c:142 | the decimal digits of n: at least one, all digits, no leading zero |
| Decimal.FormatInt | c/examples/kfind.c:142 | %d text starts with a digit exactly for values that are not negative |
| Decimal.LeadingDigits | c/examples/kfind.c:74 | atoi reads the longest run of digits |
| Decimal.LeadingSpace | c/examples/kfind.c:74 | atoi skips the leading white space: the text it reads from does not start with white space |
| Decimal.DigitsValueOf | c/examples/kfind.c:74 | the value of the digits of n is n |
| Decimal.AtoiFormat | c/examples/kfind.c:74 | atoi and stoi read back what %d wrote, when no digit follows it |
| Decimal.AtoiStoi | cxx/examples/kfindxx.cpp:55 | atoi and stoi agree whenever stoi succeeds; atoi gives 0 whenever stoi throws |
| Decimal.DigitsLength | c/src/status.c:101 | n < 10^k has at most k digits |
| Odometer.RankBounds | cxx/examples/address_source.cpp:17-28 | the rank of an address in bounds lies in 0..count-1, and is the last one exactly at the maximum |
| Odometer.CarryFrame | cxx/examples/address_source.cpp:19-27 | the carry loop changes no component after the one it starts at |
| Odometer.CarryFinds | cxx/examples/address_source.cpp:19-27 | for an address in bounds, the carry loop finds an address exactly when some component up to the start is below its maximum |
| Odometer.CarryRank | cxx/examples/address_source.cpp:17-28 | when the carry loop finds an address, it is in bounds and one further in rank |
| Odometer.CarryOut | cxx/examples/address_source.cpp:19-26 | a carry out of component 0 leaves it at max[0] + 1, not reset, and the others at their minimum |
| Odometer.CarryLex | cxx/examples/address_source.cpp:14-28 | the carry loop moves strictly forward in lexicographic order |
| Odometer.NextStep | cxx/examples/address_source.cpp:14-28 | next_address on an address in bounds leaves an address exactly when this one is not the maximum; the new address is in bounds, one further in rank and lexicographically after it |
| Odometer.Enumerates | cxx/examples/address_source.cpp:14-28 | from the minimum, step k is in bounds with rank k for every k below the product of the sizes; every step but the last leaves an address |
| Odometer.RankInjective | cxx/examples/address_source.cpp:14-28 | two addresses in bounds with the same rank are the same address |
| Odometer.RankWalk | cxx/examples/address_source.cpp:14-28 | every address in bounds is reached: the walk from the minimum arrives at it after rank-many steps, fewer than the number of addresses |
| Odometer.WalkDistinct | cxx/examples/address_source.cpp:14-28 | the first Count steps from the minimum give pairwise different addresses |
| Odometer.CountPositive | cxx/examples/kfindxx.cpp:120-123 | with every lower bound at most its upper bound there is at least one host |
| Odometer.AddressFits | c/examples/kfind.c:12 | with every component in 0..255, the dotted text is at most 15 characters and fits address[16] |
| AddressSource.AddressSource.constructor | cxx/examples/address_source.cpp:38-41 | a new source has an address |
| AddressSource.AddressSource.SetBounds | cxx/examples/address_source.cpp:43-52 | cur and min take the lower bounds, max the upper ones, and have_address is true |
| AddressSource.AddressSource.NextAddress | cxx/examples/address_source.cpp:14-28 | cur becomes the odometer's next address, and have_address turns false exactly on a carry out of component 0 |
| KFind.Find | c/examples/kfind.c:70 | strchr finds the first occurrence of the character, or reports that there is none |
| KFind.DashToDot | c/examples/kfind.c:77-80 | after parse_range the first dash of the string, if any, is a dot; nothing else changes |
| KFind.ParseRange | c/examples/kfind.c:67-83 | without a dash both bounds are atoi of the string; with one, atoi before and after the first dash; the dash is left as a dot |
| KFind.Dots | c/examples/kfind.c:96-112 | the first three dots, each after the previous one; fewer than three gives the count found |
| KFind.Components | c/examples/kfind.c:114-123 | the four texts between the dots, the last running to the end |
| KFind.ParseArgs | c/examples/kfind.c:85-124 | with fewer than two arguments nothing changes; with fewer than three dots it aborts with "expected 3 dots (got k)" and changes nothing; otherwise each bound pair is the range of its component, and the buffer has the dots as NULs and the dashes as dots |
| KFind.ParseDotted | c/examples/kfind.c:114-123 | the four NUL-and-parse steps give the four component ranges |
| KFind.ParseComponent | c/examples/kfind.c:114-123 | step k sets min[k] and max[k] from component k and no other bound |
| KFind.RangeOfNumber | c/examples/kfind.c:72-74 | the text of a number that is not negative is the range from it to itself |
| KFind.RangeOfPair | c/examples/kfind.c:75-82 | "lo-hi" reads back as (lo, hi) when lo is not negative |
| KFind.ParseDottedAddress | c/examples/kfind.c:85-124 | parsing a printed address gives each of its components as a one-value range |
| KFind.Finder.constructor | c/examples/kfind.c:11-15 | the default range 192.168.1.100-200, an address left and cur at zero |
| KFind.Finder.NextAddress | c/examples/kfind.c:126-144 | cur becomes the odometer's next address; the address text is rewritten only while an address is left |
| KFind.Finder.HostCount | c/examples/kfind.c:151-154 | the host count is the product of max - min + 1 |
| KFind.Finder.Scan | c/examples/kfind.c:159-165 | with ordered bounds, the scan tests exactly as many addresses as the host count and ends without an address |
| KFindXX.ParseRange | cxx/examples/kfindxx.cpp:48-61 | succeeds exactly when every stoi does; min is set when its stoi succeeds, even if the upper bound then fails; max only on success; no other bound changes |
| KFindXX.FirstInvalid | cxx/examples/kfindxx.cpp:93-107 | the first component whose range does not parse, with every earlier one parsing |
| KFindXX.ParseComponent | cxx/examples/kfindxx.cpp:95-104 | one parse_range call of the try block keeps the earlier components and stores this one, or stops with only its parsed lower bound |
| KFindXX.ParseComponents | cxx/examples/kfindxx.cpp:93-107 | aborts with "invalid range specified (component k)" for the first failing component k (1-4), after storing every earlier one |
| KFindXX.ParseArgs | cxx/examples/kfindxx.cpp:63-108 | with fewer than two arguments the defaults stay; with fewer than three dots it aborts with "expected 3 dots (got k)"; otherwise the try block |
| KFindXX.ParsersAgree | cxx/examples/kfindxx.cpp:48-61 | where stoi reads every bound, the C++ parser gives the same range as the C one |
| KFindXX.RangeOfXXNumber | cxx/examples/kfindxx.cpp:53-55 | a single number reads back as itself, as both bounds |
| KFindXX.RangeOfXXPair | cxx/examples/kfindxx.cpp:56-60 | "lo-hi" reads back as (lo, hi) when lo is not negative |
| KFindXX.HostCount | cxx/examples/kfindxx.cpp:120-123 | the host count is the product of max - min + 1 |
| KFindXX.Scan | cxx/examples/kfindxx.cpp:117-131 | after set_bounds with ordered bounds, the loop tests exactly as many addresses as the host count and ends without an address |

## Left out

- The transport is not modelled: sockets, `katherine_udp_*`, `katherine_cmd`, `katherine_cmd_wait_ack` and `katherine_cmd_wait_ack_crd` (c/src/command_interface.h:24-58). Their result codes and the reply bytes are parameters of the status functions and of `begin`, `read` and `abort`.
- The mutex lock and unlock around the read loop, `begin` and `abort` are not modelled; only the result of the lock is a parameter. Concurrency is not modelled.
- Time is not modelled: `time()`, `difftime`, `kill_off_time` and the observed start and end times. An idle pass carries two booleans instead: the report timeout has elapsed, and the fail deadline has passed. The `requested_frame_duration` double is not kept.
- `katherine_cmd6_float` and the temperature and ADC readers of c/src/status.c are not modelled; they reinterpret or return floating point values.
- The frame-time union (`katherine_frame_info_time_t.d`) is not modelled; the two halves are separate fields, and no combined 64-bit time is claimed.
- `malloc` failure (ENOMEM) in `katherine_acquisition_init` and `katherine_acquisition_fini` are not modelled; the model's allocation always succeeds.
- Acquisition.Acquisition.Init: allocates the MD buffer with the corrected size `MdAllocation`, not the size as written (see Findings).
- AcquisitionModel.HandleRecord: a header-0x5 record sets the ToA offset to the corrected `ToaOffset` (16384 times the offset in 64 bits), not the 32-bit product of acquisition.c line 40 (see Findings). The two agree for offsets below 2^18; from 2^18 on, the source's offset is the corrected one reduced modulo 2^32. ReadLoop, and every method proved against it, inherit this.
- Acquisition.Acquisition.HandleTimeOffset: stores the corrected `ToaOffset`, not the wrapped product as written; see the line above.
- AcquisitionLemmas.OffsetAppliesAfter: states the ToA of the corrected offset; `OffsetAgreesAsWritten` gives the offsets for which it is also the ToA as written.
- Acquisition.Acquisition.ReadVariant and Acquisition.Acquisition.Read: pixel buffers smaller than one pixel struct are excluded (they require PIXEL_SIZE <= pixel_buffer_size), and for the same reason HandlePixel, HandleMeasurementData, ProcessRecords, ReadDatagram, RunLoop and ReadOne require max_valid >= 1. The source accepts them: it sets max_valid to 0 (c/src/acquisition.c:282), and the first pixel record then flushes an empty buffer and writes pixel 0 past the end of `pixel_buffer` (c/src/acquisition.c:242-247), which an array model cannot express. The value model `HandleRecord` still covers max_valid 0, and `PixelsConserved` holds for it.
- `dump_config` (c/src/acquisition.c:110-168) is not modelled; it is debug output.
- The file loaders `katherine_px_config_load_bmc_file` and `_bpc_file` (c/src/px_config.c:22-54, 88-120) are not modelled; they are file I/O around the data loaders.
- PxConfig.Place: models `(uint32_t) (src[i] << 24)` as the byte in the top lane. In C the shift is done in `int`, and overflows for bytes of 128 and above; the value every compiler in practice produces is the one modelled.
- The legacy BMC loaders in c/src/bmc.c and src/bmc.c are not modelled; they are older copies of the same transposition.
- Integer width in the examples is not modelled: the `int` host count, `atoi` beyond `int`, and `std::stoi` throwing `std::out_of_range`. Bounds are unbounded integers, and only `std::invalid_argument` (no digits) is an error.
- KFind.Finder.NextAddress: does not model the overflow of `address[16]` for components outside 0..255. AddressFits shows the text fits for octets.
- KFind.Finder.Scan and KFindXX.Scan: require every lower bound to be at most its upper bound. With an unordered range the C loop still ends, but its count is not the product, and that case is not modelled.
- `abort_parsing` prints `argv[0]` and calls `abort()`; the model returns the message as an `Aborted` outcome. The printing in `main`, and `test_ip_address`, which probes the network, are not modelled; the scans only count the attempts.
- `address()` and `have_address()` of cxx/examples/address_source.cpp carry no contract of their own: they are the read-only functions `Address` (cur joined by dots) and `HaveAddress` of the class, used in the contracts of its methods.
- `main` of both finders is not one method. HostCount and Scan model its two loops, and ParseArgs models its first call.
- The pixel-buffer byte layout (`(katherine_px_*_t *) pixel_buffer + valid`) is not modelled: the buffer is an array of decoded pixels.
- `acquisition_read_*` walks records up to `received` and does not check that it is a multiple of 6. The model reads the trailing partial record as the source does, and requires only that each datagram fits `md_buffer_size`.

## Findings

| source | as written | input that shows it | evidently intended | confidence | as-written member | corrected member |
|---|---|---|---|---|---|---|
| c/src/acquisition.c:40 | `16384 * EXTRACT(...)` multiplies an `int` by a `uint32_t`, so the product is computed in 32 bits and wraps before it reaches the 64-bit `last_toa_offset` | a time-offset record with offset 2^18 sets the ToA offset to 0 instead of 2^32 | the offset is 16384 times the 32-bit value, in 64 bits, as the uint64_t ToA of md.h:82 expects | not executed | AcquisitionModel.ToaOffsetWraps | AcquisitionModel.ToaOffset |
| c/src/acquisition.c:195-197 | the MD buffer is rounded up to a multiple of 8 only, but each record start reads 8 bytes although records are 6 bytes apart | md_buffer_size = 24: a full datagram puts its last record at byte 18, and reading it touches bytes 18-25 of a 24-byte buffer | every 8-byte read at a record start below md_buffer_size stays inside the buffer: allocate at least md_buffer_size + 2 (rounded up to 8) | not executed | AcquisitionModel.MdAllocationAsWrittenOverruns | AcquisitionModel.MdAllocation |
