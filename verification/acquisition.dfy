/**
 * katherine_acquisition_t and the functions of c/src/acquisition.c that
 * update it in place.  Every method is proved to follow the value-level
 * model in AcquisitionModel: its new View() is the model function applied
 * to the old one, so what AcquisitionLemmas proves about the functions
 * holds of the object.
 *
 * The device, the mutexes and the sockets are not modelled: the result
 * codes of the device commands and of the lock are parameters, and the
 * datagrams and receive timeouts of `katherine_udp_recv` are a sequence
 * of Input values.  The user callbacks are recorded in `events`.
 */
module Acquisition {
  import opened Bits
  import opened Md
  import opened Wrappers
  import opened AcquisitionModel
  import AcquisitionLemmas

  /** katherine_readout_type_t. */
  const READOUT_SEQUENTIAL := 0
  const READOUT_DATA_DRIVEN := 1

  /**
   * katherine_acquisition_begin's result for the given device-command
   * results: EINVAL for a data-driven readout of more than one frame,
   * otherwise the first failing step's result, otherwise 0.
   */
  function BeginResult(noFrames: int, readoutMode: int, configureRes: int, seqRes: int,
                       modeRes: int, lockRes: int, startRes: int): int
  {
    if readoutMode == READOUT_DATA_DRIVEN && noFrames > 1 then EINVAL
    else if configureRes != 0 then configureRes
    else if seqRes != 0 then seqRes
    else if modeRes != 0 then modeRes
    else if lockRes != 0 then lockRes
    else startRes
  }

  /** Whether begin gets as far as setting the state RUNNING and resetting the counters. */
  predicate BeginStarts(noFrames: int, readoutMode: int, configureRes: int, seqRes: int, modeRes: int)
  {
    !(readoutMode == READOUT_DATA_DRIVEN && noFrames > 1) && configureRes == 0 && seqRes == 0 && modeRes == 0
  }

  /**
   * Begin succeeds exactly when every step succeeds; a rejected data-driven
   * request gives EINVAL and never starts; a failure of the lock or of the
   * start command is reported although the state is already RUNNING.
   */
  lemma BeginOutcomes(noFrames: int, readoutMode: int, configureRes: int, seqRes: int,
                      modeRes: int, lockRes: int, startRes: int)
    ensures BeginResult(noFrames, readoutMode, configureRes, seqRes, modeRes, lockRes, startRes) == 0
        <==> BeginStarts(noFrames, readoutMode, configureRes, seqRes, modeRes) && lockRes == 0 && startRes == 0
    ensures readoutMode == READOUT_DATA_DRIVEN && noFrames > 1 ==>
        BeginResult(noFrames, readoutMode, configureRes, seqRes, modeRes, lockRes, startRes) == EINVAL
        && !BeginStarts(noFrames, readoutMode, configureRes, seqRes, modeRes)
    ensures BeginStarts(noFrames, readoutMode, configureRes, seqRes, modeRes) && lockRes != 0 ==>
        BeginResult(noFrames, readoutMode, configureRes, seqRes, modeRes, lockRes, startRes) == lockRes
    ensures !BeginStarts(noFrames, readoutMode, configureRes, seqRes, modeRes) ==>
        BeginResult(noFrames, readoutMode, configureRes, seqRes, modeRes, lockRes, startRes) != 0
  {
  }

  class Acquisition {
    var state: AcqState
    var aborted: bool
    var readoutMode: int
    var acqMode: int
    var fastVco: bool
    var decodeData: bool

    /** md_buffer_size and the buffer `katherine_udp_recv` fills. */
    const mdBufferSize: nat
    const mdBuffer: array<Byte>

    /**
     * pixel_buffer_size and the pixel buffer, one slot per byte of the C
     * buffer (enough for every pixel layout, the smallest being 6 bytes).
     */
    const pixelBufferSize: nat
    const pixelBuffer: array<Pixel>
    var valid: nat        // pixel_buffer_valid
    var maxValid: nat     // pixel_buffer_max_valid

    var requested: int    // requested_frames
    var completed: int    // completed_frames
    var dropped: nat      // dropped_measurement_data
    var reportTimeout: int
    var failTimeout: int
    var frame: FrameInfo  // current_frame_info
    var lastToaOffset: nat

    /** The callbacks invoked so far, in order. */
    var events: seq<Event>

    ghost predicate Valid()
      reads this
    {
      && mdBuffer.Length == MdAllocation(mdBufferSize)
      && pixelBuffer.Length == pixelBufferSize
      && valid <= maxValid <= pixelBufferSize
    }

    /** The object as the value the model works on. */
    ghost function View(): Snapshot
      reads this, pixelBuffer, mdBuffer
      requires Valid()
    {
      Snapshot(state, aborted, requested, completed, dropped, lastToaOffset, frame,
               Buffered(), maxValid, Md(), events)
    }

    /** pixel_buffer[0 .. pixel_buffer_valid). */
    ghost function Buffered(): seq<Pixel>
      reads this, pixelBuffer
      requires valid <= pixelBuffer.Length
    {
      pixelBuffer[..valid]
    }

    /** The contents of the MD buffer. */
    ghost function Md(): seq<Byte>
      reads mdBuffer
    {
      mdBuffer[..]
    }

    /** The settings `acquisition_read_*` reads for pixel layout `v`. */
    function Config(v: Variant): ReadConfig
      reads this
    {
      ReadConfig(v, decodeData, reportTimeout, failTimeout, mdBufferSize)
    }

    /**
     * katherine_acquisition_init (acquisition.c lines 183-221) with the MD
     * buffer sized by MdAllocation.  The fields init leaves unset start at
     * zero values here.
     */
    constructor Init(mdBufferSize: nat, pixelBufferSize: nat, reportTimeout: int, failTimeout: int)
      ensures Valid() && fresh(mdBuffer) && fresh(pixelBuffer)
      ensures state == NotStarted && !aborted && valid == 0
      ensures this.mdBufferSize == mdBufferSize && this.pixelBufferSize == pixelBufferSize
      ensures this.reportTimeout == reportTimeout && this.failTimeout == failTimeout
    {
      this.mdBufferSize := mdBufferSize;
      this.mdBuffer := new Byte[MdAllocation(mdBufferSize)];
      this.pixelBufferSize := pixelBufferSize;
      this.pixelBuffer := new Pixel[pixelBufferSize];
      this.reportTimeout := reportTimeout;
      this.failTimeout := failTimeout;
      state := NotStarted;
      aborted := false;
      valid := 0;
      maxValid := 0;
      readoutMode := READOUT_SEQUENTIAL;
      acqMode := 0;
      fastVco := false;
      decodeData := false;
      requested := 0;
      completed := 0;
      dropped := 0;
      frame := ZeroFrame;
      lastToaOffset := 0;
      events := [];
    }

    /** flush_buffer (acquisition.c lines 20-27). */
    method Flush()
      requires Valid()
      modifies `events, `frame, `valid
      ensures Valid()
      ensures View() == AcquisitionModel.Flush(old(View()))
    {
      events := events + [PixelsReceived(pixelBuffer[..valid])];
      frame := frame.(receivedPixels := Wrap64(frame.receivedPixels + valid));
      valid := 0;
    }

    /** handle_new_frame (acquisition.c lines 29-35). */
    method HandleNewFrame()
      requires Valid()
      modifies `frame, `events
      ensures Valid()
      ensures View() == old(View()).(frame := ZeroFrame, events := old(events) + [FrameStarted(old(completed))])
    {
      frame := ZeroFrame;
      events := events + [FrameStarted(completed)];
    }

    /** handle_current_frame_finished (acquisition.c lines 43-58). */
    method HandleFrameFinished(nSent: nat)
      requires Valid()
      modifies `events, `frame, `valid, `completed, `state
      ensures Valid()
      ensures var s1 := AcquisitionModel.Flush(old(View()));
        View() == s1.(frame := s1.frame.(sentPixels := nSent),
                      events := s1.events + [FrameEnded(old(completed), true, s1.frame.(sentPixels := nSent))],
                      completed := old(completed) + 1,
                      state := if old(completed) + 1 == old(requested) then Succeeded else old(state))
    {
      Flush();
      frame := frame.(sentPixels := nSent);
      events := events + [FrameEnded(completed, true, frame)];
      completed := completed + 1;
      if completed == requested {
        state := Succeeded;
      }
    }

    /** The header-0x4 branch of handle_measurement_data_* (acquisition.c lines 241-247). */
    method HandlePixel(p: Pixel)
      requires Valid() && 1 <= maxValid
      modifies `events, `frame, `valid, pixelBuffer
      ensures Valid()
      ensures var s1 := if old(valid) == old(maxValid) then AcquisitionModel.Flush(old(View())) else old(View());
        View() == s1.(buffer := s1.buffer + [p])
    {
      if valid == maxValid {
        Flush();
      }
      pixelBuffer[valid] := p;
      valid := valid + 1;
    }

    /** handle_timestamp_offset_driven_mode (acquisition.c lines 37-41). */
    method HandleTimeOffset(offset: nat)
      requires Valid()
      modifies `lastToaOffset
      ensures Valid()
      ensures View() == old(View()).(lastToaOffset := ToaOffset(offset))
    {
      lastToaOffset := ToaOffset(offset);
    }

    /**
     * handle_frame_{start,end}_timestamp_{lsb,msb} (acquisition.c lines
     * 60-82): the record's payload becomes one half of a timestamp.
     */
    method HandleTimestamp(k: MdKind)
      requires Valid() && AcquisitionLemmas.FrameFieldKind(k) && !k.LostPixels?
      modifies `frame
      ensures Valid()
      ensures View() == old(View()).(frame := AcquisitionLemmas.FrameUpdate(old(frame), k))
    {
      if k.FrameStartLsb? {
        frame := frame.(startLsb := k.lsb);
      } else if k.FrameStartMsb? {
        frame := frame.(startMsb := k.msb);
      } else if k.FrameEndLsb? {
        frame := frame.(endLsb := k.lsb);
      } else {
        frame := frame.(endMsb := k.msb);
      }
    }

    /** handle_lost_pixel_count (acquisition.c lines 84-88). */
    method HandleLostPixels(nLost: nat)
      requires Valid()
      modifies `frame
      ensures Valid()
      ensures View() == old(View()).(frame := old(frame).(lostPixels := Wrap64(old(frame).lostPixels + nLost)))
    {
      frame := frame.(lostPixels := Wrap64(frame.lostPixels + nLost));
    }

    /** handle_aborted_measurement (acquisition.c lines 90-94). */
    method HandleAborted()
      requires Valid()
      modifies `aborted
      ensures Valid()
      ensures View() == old(View()).(aborted := true)
    {
      aborted := true;
    }

    /** handle_unknown_msg (acquisition.c lines 104-108). */
    method HandleUnknown()
      requires Valid()
      modifies `dropped
      ensures Valid()
      ensures View() == old(View()).(dropped := Wrap64(old(dropped) + 1))
    {
      dropped := Wrap64(dropped + 1);
    }

    /**
     * handle_measurement_data_* (acquisition.c lines 236-264): a pixel
     * record is decoded into the buffer, any other record goes to the
     * handler its header selects.
     */
    method HandleMeasurementData(v: Variant, w: nat)
      requires Valid() && 1 <= maxValid
      modifies `events, `frame, `valid, `completed, `state, `lastToaOffset, `aborted, `dropped, pixelBuffer
      ensures Valid()
      ensures View() == HandleRecord(old(View()), v, w)
    {
      if Classify(w) == PixelData {
        AcquisitionLemmas.PixelRecordEffect(View(), v, w);
        HandlePixel(Decode(v, w, lastToaOffset));
      } else {
        HandleOther(v, w);
      }
    }

    /** The `switch (hdr)` of handle_measurement_data_* (acquisition.c lines 249-262). */
    method HandleOther(v: Variant, w: nat)
      requires Valid() && Classify(w) != PixelData
      modifies `events, `frame, `valid, `completed, `state, `lastToaOffset, `aborted, `dropped
      ensures Valid()
      ensures View() == HandleRecord(old(View()), v, w)
    {
      var k := Classify(w);
      match k
      case TriggerInfo =>
      case TimeOffset(offset) =>
        HandleTimeOffset(offset);
      case NewFrame =>
        HandleNewFrame();
      case FrameStartLsb(_) =>
        HandleTimestamp(k);
      case FrameStartMsb(_) =>
        HandleTimestamp(k);
      case FrameEndLsb(_) =>
        HandleTimestamp(k);
      case FrameEndMsb(_) =>
        HandleTimestamp(k);
      case FrameFinished(nSent) =>
        HandleFrameFinished(nSent);
      case LostPixels(nLost) =>
        HandleLostPixels(nLost);
      case AbortedMarker =>
        HandleAborted();
      case Unknown =>
        HandleUnknown();
    }

    /** The decoding `for` loop of acquisition_read_* (acquisition.c lines 308-312). */
    method ProcessRecords(v: Variant, received: nat)
      requires Valid() && 1 <= maxValid && received + 7 <= mdBuffer.Length
      modifies `events, `frame, `valid, `completed, `state, `lastToaOffset, `aborted, `dropped, pixelBuffer
      ensures Valid()
      ensures View() == HandleRecords(old(View()), v, Records(mdBuffer[..], 0, received))
    {
      var i := 0;
      while i < received
        invariant Valid()
        invariant HandleRecords(View(), v, Records(mdBuffer[..], i, received))
               == HandleRecords(old(View()), v, Records(mdBuffer[..], 0, received))
        decreases received - i
      {
        AcquisitionLemmas.RecordsStep(View(), v, mdBuffer[..], i, received);
        HandleMeasurementData(v, LittleEndian(mdBuffer[i .. i + 8]));
        i := i + MD_SIZE;
      }
    }

    /** katherine_udp_recv storing a datagram at the start of the MD buffer. */
    method Receive(data: seq<Byte>)
      requires Valid() && |data| <= mdBufferSize
      modifies mdBuffer
      ensures mdBuffer[..] == data + old(mdBuffer[..])[|data|..]
    {
      var j := 0;
      while j < |data|
        invariant j <= |data|
        invariant forall k :: 0 <= k < j ==> mdBuffer[k] == data[k]
        invariant forall k :: j <= k < mdBuffer.Length ==> mdBuffer[k] == old(mdBuffer[k])
      {
        mdBuffer[j] := data[j];
        j := j + 1;
      }
      assert mdBuffer[..] == data + old(mdBuffer[..])[|data|..];
    }

    /**
     * A datagram in the loop of acquisition_read_* (acquisition.c lines
     * 285-286, 306-315): stored, then decoded or handed on whole.
     */
    method ReadDatagram(v: Variant, data: seq<Byte>)
      requires Valid() && 1 <= maxValid && |data| <= mdBufferSize
      modifies `events, `frame, `valid, `completed, `state, `lastToaOffset, `aborted, `dropped, pixelBuffer, mdBuffer
      ensures Valid()
      ensures View() == DatagramStep(old(View()), Config(v), data)
    {
      Receive(data);
      if decodeData {
        ProcessRecords(v, |data|);
      } else {
        events := events + [DataReceived(data)];
      }
    }

    /** A failed receive in the loop of acquisition_read_* (acquisition.c lines 288-304). */
    method ReadIdle(v: Variant, reportElapsed: bool, deadlinePassed: bool)
      requires Valid()
      modifies `events, `frame, `valid, `state
      ensures Valid()
      ensures View() == IdleStep(old(View()), Config(v), reportElapsed, deadlinePassed)
    {
      ReportIfDue(v, reportElapsed);
      CheckDeadline(v, deadlinePassed);
    }

    /** The report timeout of a failed receive (acquisition.c lines 289-292). */
    method ReportIfDue(v: Variant, reportElapsed: bool)
      requires Valid()
      modifies `events, `frame, `valid
      ensures Valid()
      ensures View() == ReportStep(old(View()), Config(v), reportElapsed)
    {
      if reportTimeout > 0 && reportElapsed && valid > 0 {
        Flush();
      }
    }

    /** The fail timeout and the end of an aborted raw readout (acquisition.c lines 294-301). */
    method CheckDeadline(v: Variant, deadlinePassed: bool)
      requires Valid()
      modifies `state
      ensures Valid()
      ensures View() == DeadlineStep(old(View()), Config(v), deadlinePassed)
    {
      if failTimeout > 0 && deadlinePassed {
        state := TimedOut;
      }
      if !decodeData && aborted {
        state := Succeeded;
      }
    }

    /**
     * acquisition_read_* (acquisition.c lines 266-324) for pixel layout `v`.
     * A failed lock returns 1 and changes nothing.  Otherwise the result is
     * the one of the return switch once the state is no longer RUNNING, or
     * None when the inputs run out while the loop would still be waiting.
     */
    method ReadVariant(v: Variant, lockRes: int, inputs: seq<Input>) returns (res: Option<int>)
      requires Valid() && PixelSize(v) <= pixelBufferSize && InputsFit(inputs, Config(v))
      modifies `events, `frame, `valid, `completed, `state, `lastToaOffset, `aborted, `dropped, `maxValid, pixelBuffer, mdBuffer
      ensures Valid()
      ensures lockRes != 0 ==> res == Some(1) && View() == old(View())
      ensures lockRes == 0 ==> View() == ReadSpec(old(View()), Config(v), pixelBufferSize, inputs)
      ensures lockRes == 0 ==> res == if state == Running then None else Some(ReturnCode(state))
    {
      if lockRes != 0 {
        res := Some(1);
      } else {
        valid := 0;
        maxValid := pixelBufferSize / PixelSize(v);
        RunLoop(v, inputs);
        res := if state == Running then None else Some(ReturnCode(state));
      }
    }

    /**
     * The receive loop of acquisition_read_* (acquisition.c lines 284-318):
     * one step per input while the state is RUNNING.
     */
    method RunLoop(v: Variant, inputs: seq<Input>)
      requires Valid() && 1 <= maxValid && InputsFit(inputs, Config(v))
      modifies `events, `frame, `valid, `completed, `state, `lastToaOffset, `aborted, `dropped, pixelBuffer, mdBuffer
      ensures Valid()
      ensures View() == ReadLoop(old(View()), Config(v), inputs)
    {
      ghost var start := View();
      ghost var cfg := Config(v);
      var k := 0;
      while state == Running && k < |inputs|
        invariant k <= |inputs|
        invariant Valid() && 1 <= maxValid && Config(v) == cfg
        invariant InputsFit(inputs[k..], cfg)
        invariant ReadLoop(View(), cfg, inputs[k..]) == ReadLoop(start, cfg, inputs)
        decreases |inputs| - k
      {
        AcquisitionLemmas.ReadLoopStep(View(), cfg, inputs, k);
        ReadOne(v, inputs[k]);
        k := k + 1;
      }
    }

    /** One pass of the receive loop: a datagram or a failed receive. */
    method ReadOne(v: Variant, input: Input)
      requires Valid() && 1 <= maxValid && mdBufferSize + 7 <= mdBuffer.Length
      requires input.Datagram? ==> |input.data| <= mdBufferSize
      modifies `events, `frame, `valid, `completed, `state, `lastToaOffset, `aborted, `dropped, pixelBuffer, mdBuffer
      ensures Valid()
      ensures View() == ReadStep(old(View()), Config(v), input)
    {
      match input {
        case Datagram(data) =>
          ReadDatagram(v, data);
        case Idle(reportElapsed, deadlinePassed) =>
          ReadIdle(v, reportElapsed, deadlinePassed);
      }
    }

    /**
     * katherine_acquisition_read (acquisition.c lines 340-368): the read
     * loop of the layout selected by acq_mode and fast_vco_enabled, or
     * EINVAL for an unknown mode.
     */
    method Read(lockRes: int, inputs: seq<Input>) returns (res: Option<int>)
      requires Valid()
      requires SelectVariant(acqMode, fastVco).Some? ==>
        PixelSize(SelectVariant(acqMode, fastVco).value) <= pixelBufferSize
        && InputsFit(inputs, Config(SelectVariant(acqMode, fastVco).value))
      modifies `events, `frame, `valid, `completed, `state, `lastToaOffset, `aborted, `dropped, `maxValid, pixelBuffer, mdBuffer
      ensures Valid()
      ensures SelectVariant(acqMode, fastVco).None? ==> res == Some(EINVAL) && View() == old(View())
      ensures SelectVariant(acqMode, fastVco).Some? && lockRes != 0 ==> res == Some(1) && View() == old(View())
      ensures SelectVariant(acqMode, fastVco).Some? && lockRes == 0 ==>
        View() == ReadSpec(old(View()), Config(SelectVariant(acqMode, fastVco).value), pixelBufferSize, inputs)
        && res == if state == Running then None else Some(ReturnCode(state))
    {
      match SelectVariant(acqMode, fastVco)
      case None =>
        res := Some(EINVAL);
      case Some(v) =>
        res := ReadVariant(v, lockRes, inputs);
    }

    /**
     * katherine_acquisition_begin (acquisition.c lines 379-433).  The modes
     * are stored first; a data-driven readout of more than one frame is
     * rejected before any device command and before the state and the
     * counters change; once the three configuration commands succeed the
     * state is RUNNING and the counters are reset, even if the lock or the
     * start command then fails.
     */
    method Begin(noFrames: int, readoutMode: int, acqMode: int, fastVco: bool, decodeData: bool,
                 configureRes: int, seqRes: int, modeRes: int, lockRes: int, startRes: int)
      returns (res: int)
      requires Valid()
      modifies `acqMode, `readoutMode, `fastVco, `decodeData, `state, `completed, `requested, `dropped,
               `valid, `maxValid, `lastToaOffset
      ensures Valid()
      ensures res == BeginResult(noFrames, readoutMode, configureRes, seqRes, modeRes, lockRes, startRes)
      ensures this.readoutMode == readoutMode && this.acqMode == acqMode
      ensures this.fastVco == fastVco && this.decodeData == decodeData
      ensures BeginStarts(noFrames, readoutMode, configureRes, seqRes, modeRes) ==> Started(noFrames)
      ensures !BeginStarts(noFrames, readoutMode, configureRes, seqRes, modeRes) ==>
        unchanged(`state, `completed, `requested, `dropped, `valid, `maxValid, `lastToaOffset)
    {
      this.acqMode := acqMode;
      this.readoutMode := readoutMode;
      this.fastVco := fastVco;
      this.decodeData := decodeData;
      if readoutMode == READOUT_DATA_DRIVEN && noFrames > 1 {
        res := EINVAL;
      } else {
        res := StartDevice(noFrames, readoutMode, configureRes, seqRes, modeRes, lockRes, startRes);
      }
    }

    /** The state and counters of a freshly started acquisition. */
    ghost predicate Started(noFrames: int)
      reads this
    {
      && state == Running && completed == 0 && requested == noFrames && dropped == 0
      && valid == 0 && maxValid == 0 && lastToaOffset == 0
    }

    /**
     * The device part of katherine_acquisition_begin (acquisition.c lines
     * 398-433): the three configuration commands, then the reset of the
     * state and counters, then the lock and the start command.
     */
    method StartDevice(noFrames: int, readoutMode: int, configureRes: int, seqRes: int, modeRes: int, lockRes: int, startRes: int)
      returns (res: int)
      requires Valid() && !(readoutMode == READOUT_DATA_DRIVEN && noFrames > 1)
      modifies `state, `completed, `requested, `dropped, `valid, `maxValid, `lastToaOffset
      ensures Valid()
      ensures res == BeginResult(noFrames, readoutMode, configureRes, seqRes, modeRes, lockRes, startRes)
      ensures BeginStarts(noFrames, readoutMode, configureRes, seqRes, modeRes) ==> Started(noFrames)
      ensures !BeginStarts(noFrames, readoutMode, configureRes, seqRes, modeRes) ==>
        unchanged(`state, `completed, `requested, `dropped, `valid, `maxValid, `lastToaOffset)
    {
      if configureRes != 0 {
        res := configureRes;
      } else if seqRes != 0 {
        res := seqRes;
      } else if modeRes != 0 {
        res := modeRes;
      } else {
        state, completed, requested, dropped := Running, 0, noFrames, 0;
        valid, maxValid, lastToaOffset := 0, 0, 0;
        res := if lockRes != 0 then lockRes else startRes;
      }
    }

    /**
     * katherine_acquisition_abort (acquisition.c lines 441-460): `aborted`
     * is set only when both the lock and the stop command succeed.
     */
    method Abort(lockRes: int, stopRes: int) returns (res: int)
      requires Valid()
      modifies `aborted
      ensures Valid()
      ensures res == if lockRes != 0 then lockRes else stopRes
      ensures View() == old(View()).(aborted := old(aborted) || (lockRes == 0 && stopRes == 0))
    {
      if lockRes != 0 {
        return lockRes;
      }
      if stopRes != 0 {
        return stopRes;
      }
      aborted := true;
      return 0;
    }
  }
}
