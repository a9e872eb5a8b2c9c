/**
 * The acquisition of c/src/acquisition.c as a state machine over values.
 *
 * A Snapshot is the part of `katherine_acquisition_t` the measurement-data
 * handlers read and write, with the pixel buffer cut to its valid prefix
 * and the user callbacks recorded as an event log.  HandleRecord is one
 * iteration of `handle_measurement_data_*`, ReadStep one pass of the
 * `acquisition_read_*` loop, ReadLoop the whole loop.  The class in
 * acquisition.dfy is proved to follow these functions.
 */
module AcquisitionModel {
  import opened Bits
  import opened Md
  import opened Wrappers

  // errno values (Linux).
  const EAGAIN := 11
  const EINVAL := 22
  const ETIMEDOUT := 110

  /** KATHERINE_MD_SIZE: bytes per measurement-data record on the wire. */
  const MD_SIZE := 6

  /** katherine_acquisition_state_t. */
  datatype AcqState = NotStarted | Running | Succeeded | TimedOut

  function StateCode(st: AcqState): int
  {
    match st
    case NotStarted => 0
    case Running => 1
    case Succeeded => 2
    case TimedOut => 3
  }

  /** katherine_str_acquisition_status. */
  function StatusString(status: int): string
  {
    match status
    case 0 => "not started"
    case 2 => "succeeded"
    case 1 => "running"
    case 3 => "timed out"
    case _ => "unknown"
  }

  /** The four states have four distinct descriptions; any other code is "unknown". */
  lemma StatusStrings(status: int)
    ensures (exists st :: StateCode(st) == status) <==> StatusString(status) != "unknown"
    ensures forall s1, s2 :: StatusString(StateCode(s1)) == StatusString(StateCode(s2)) ==> s1 == s2
  {
    if 0 <= status <= 3 {
      var st := if status == 0 then NotStarted else if status == 1 then Running
                else if status == 2 then Succeeded else TimedOut;
      assert StateCode(st) == status;
    }
  }

  /** The value the return statement of `acquisition_read_*` gives for a final state. */
  function ReturnCode(st: AcqState): int
  {
    match st
    case Succeeded => 0
    case TimedOut => ETIMEDOUT
    case _ => EAGAIN
  }

  /** katherine_frame_info_t without the wall-clock observation times. */
  datatype FrameInfo = FrameInfo(
    receivedPixels: nat, sentPixels: nat, lostPixels: nat,
    startMsb: nat, startLsb: nat, endMsb: nat, endLsb: nat)

  /** The frame info after `memset(..., 0, ...)`. */
  const ZeroFrame := FrameInfo(0, 0, 0, 0, 0, 0, 0)

  /** The user callbacks, in the order they are invoked. */
  datatype Event =
    | FrameStarted(index: int)
    | PixelsReceived(pixels: seq<Pixel>)
    | FrameEnded(index: int, completed: bool, info: FrameInfo)
    | DataReceived(data: seq<Byte>)

  datatype Snapshot = Snapshot(
    state: AcqState,
    aborted: bool,
    requested: int,
    completed: int,
    dropped: nat,
    lastToaOffset: nat,
    frame: FrameInfo,
    buffer: seq<Pixel>,      // pixel_buffer[0 .. pixel_buffer_valid)
    maxValid: nat,           // pixel_buffer_max_valid
    md: seq<Byte>,           // the whole allocated MD buffer
    events: seq<Event>)

  /** uint64_t addition. */
  function Wrap64(x: nat): (r: nat)
    ensures r < 0x1_0000_0000_0000_0000
    ensures x < 0x1_0000_0000_0000_0000 ==> r == x
  {
    x % 0x1_0000_0000_0000_0000
  }

  /**
   * The ToA offset of a header-0x5 record with 32-bit payload `offset`:
   * 16384 ticks per unit, as a 64-bit value (see ToaOffsetAsWritten).
   */
  function ToaOffset(offset: nat): nat
  {
    16384 * offset
  }

  /**
   * `16384 * EXTRACT(...)` as written: EXTRACT yields a uint32_t, so the
   * product is computed in 32-bit unsigned arithmetic before it is widened.
   */
  function ToaOffsetAsWritten(offset: nat): nat
  {
    (16384 * offset) % 0x1_0000_0000
  }

  /** The two agree exactly on offsets below 2^18; offset 2^18 gives 0 instead of 2^32. */
  lemma ToaOffsetWraps(offset: nat)
    requires offset < 0x1_0000_0000
    ensures offset < 0x4_0000 <==> ToaOffsetAsWritten(offset) == ToaOffset(offset)
    ensures ToaOffsetAsWritten(0x4_0000) == 0 && ToaOffset(0x4_0000) == 0x1_0000_0000
  {
    if offset >= 0x4_0000 {
      assert ToaOffset(offset) >= 0x1_0000_0000;
      assert ToaOffsetAsWritten(offset) < 0x1_0000_0000;
    }
  }

  /** The corrected offset, added to any 14-bit ToA, fits the uint64_t `toa` field. */
  lemma ToaFits(offset: nat, toa: nat)
    requires offset < 0x1_0000_0000 && toa < 16384
    ensures ToaOffset(offset) + toa < 0x1_0000_0000_0000_0000
    ensures (ToaOffset(offset) + toa) / 16384 == offset && (ToaOffset(offset) + toa) % 16384 == toa
  {
    DivModUnique(ToaOffset(offset) + toa, 16384, offset, toa);
  }

  // ---------------------------------------------------------------------
  // Sizing the MD buffer (acquisition.c lines 193-198).

  /**
   * `((md_buffer_size + 7) / 8) * 8` as written: the size rounded up to a
   * multiple of 8.
   */
  function MdAllocationAsWritten(size: nat): nat
  {
    ((size + 7) / 8) * 8
  }

  /**
   * The allocation that makes every 8-byte read at a record start below
   * md_buffer_size stay inside the buffer: size + 7 rounded up to a
   * multiple of 8.
   */
  function MdAllocation(size: nat): (n: nat)
    ensures size + 7 <= n < size + 15 && n % 8 == 0
  {
    ((size + 7 + 7) / 8) * 8
  }

  /** Index of the last record start of a chunk of `received` bytes. */
  function LastRecordStart(received: nat): nat
    requires received > 0
  {
    MD_SIZE * ((received - 1) / MD_SIZE)
  }

  /**
   * With the allocation as written, a full datagram of a multiple of 6 bytes
   * makes the read of its last record run 2 bytes past the buffer exactly
   * when the size is a multiple of 24 (6 * 4 = 24: e.g. size 24, last record
   * at 18, bytes 18..25 of 24).
   */
  lemma MdAllocationAsWrittenOverruns(size: nat)
    requires size > 0 && size % MD_SIZE == 0
    ensures LastRecordStart(size) == size - 6
    ensures LastRecordStart(size) + 8 > MdAllocationAsWritten(size) <==> size % 24 == 0
  {
    var q, r := size / 24, size % 24;
    assert size == 24 * q + r;
    assert r in {0, 6, 12, 18};
    DivModUnique(size - 1, 6, size / 6 - 1, 5);
    DivModUnique(size + 7, 8, 3 * q + (r + 7) / 8, (r + 7) % 8);
  }

  // ---------------------------------------------------------------------
  // Handlers (acquisition.c lines 20-108).

  /** flush_buffer: report the valid pixels, count them into the frame, empty the buffer. */
  function Flush(s: Snapshot): Snapshot
  {
    s.(events := s.events + [PixelsReceived(s.buffer)],
       frame := s.frame.(receivedPixels := Wrap64(s.frame.receivedPixels + |s.buffer|)),
       buffer := [])
  }

  /** handle_measurement_data_*: one record `w` read with the pixel layout `v`. */
  function HandleRecord(s: Snapshot, v: Variant, w: nat): Snapshot
  {
    match Classify(w)
    case PixelData =>
      var s1 := if |s.buffer| == s.maxValid then Flush(s) else s;
      s1.(buffer := s1.buffer + [Decode(v, w, s.lastToaOffset)])
    case TriggerInfo => s
    case TimeOffset(offset) => s.(lastToaOffset := ToaOffset(offset))
    case NewFrame => s.(frame := ZeroFrame, events := s.events + [FrameStarted(s.completed)])
    case FrameStartLsb(lsb) => s.(frame := s.frame.(startLsb := lsb))
    case FrameStartMsb(msb) => s.(frame := s.frame.(startMsb := msb))
    case FrameEndLsb(lsb) => s.(frame := s.frame.(endLsb := lsb))
    case FrameEndMsb(msb) => s.(frame := s.frame.(endMsb := msb))
    case FrameFinished(nSent) =>
      var s1 := Flush(s);
      var info := s1.frame.(sentPixels := nSent);
      s1.(frame := info,
          events := s1.events + [FrameEnded(s.completed, true, info)],
          completed := s.completed + 1,
          state := if s.completed + 1 == s.requested then Succeeded else s.state)
    case LostPixels(nLost) => s.(frame := s.frame.(lostPixels := Wrap64(s.frame.lostPixels + nLost)))
    case AbortedMarker => s.(aborted := true)
    case Unknown => s.(dropped := Wrap64(s.dropped + 1))
  }

  /** The records of a chunk, in order: the 8-byte little-endian word at each 6-byte step. */
  function Records(md: seq<Byte>, i: nat, received: nat): (ws: seq<nat>)
    requires received + 7 <= |md|
    ensures |ws| == if i >= received then 0 else (received - i + 5) / 6
    decreases received - i
  {
    if i >= received then [] else [LittleEndian(md[i .. i + 8])] + Records(md, i + 6, received)
  }

  /** The handlers applied to records one after another. */
  function HandleRecords(s: Snapshot, v: Variant, ws: seq<nat>): Snapshot
    decreases |ws|
  {
    if ws == [] then s else HandleRecords(HandleRecord(s, v, ws[0]), v, ws[1..])
  }

  // ---------------------------------------------------------------------
  // The read loop (acquisition.c lines 266-324).

  /** What one call of katherine_udp_recv gives the loop. */
  datatype Input =
    | Datagram(data: seq<Byte>)
      // recv failed (timeout); the two guards stand for the wall-clock
      // comparisons `duration > report_timeout` and `duration > kill_off_time`
    | Idle(reportElapsed: bool, deadlinePassed: bool)

  /** The settings the loop reads but never writes. */
  datatype ReadConfig = ReadConfig(
    variant: Variant, decodeData: bool, reportTimeout: int, failTimeout: int, mdBufferSize: nat)

  /** A datagram never exceeds the `received = md_buffer_size` that recv is offered. */
  predicate InputsFit(inputs: seq<Input>, cfg: ReadConfig)
  {
    forall k :: 0 <= k < |inputs| && inputs[k].Datagram? ==> |inputs[k].data| <= cfg.mdBufferSize
  }

  /** One pass of the `while (acq->state == ACQUISITION_RUNNING)` loop. */
  function ReadStep(s: Snapshot, cfg: ReadConfig, input: Input): (t: Snapshot)
    requires cfg.mdBufferSize + 7 <= |s.md|
    requires input.Datagram? ==> |input.data| <= cfg.mdBufferSize
    ensures |t.md| == |s.md|
  {
    match input
    case Datagram(data) => DatagramStep(s, cfg, data)
    case Idle(reportElapsed, deadlinePassed) => IdleStep(s, cfg, reportElapsed, deadlinePassed)
  }

  /**
   * A datagram received: it lands at the start of the MD buffer, then its
   * records are handled in order, or with decoding off it is handed to
   * data_received whole.
   */
  function DatagramStep(s: Snapshot, cfg: ReadConfig, data: seq<Byte>): (t: Snapshot)
    requires cfg.mdBufferSize + 7 <= |s.md| && |data| <= cfg.mdBufferSize
    ensures t.md == data + s.md[|data|..]
  {
    var md := data + s.md[|data|..];
    var s1 := s.(md := md);
    if cfg.decodeData then
      HandleRecordsLength(s1, cfg.variant, Records(md, 0, |data|));
      HandleRecords(s1, cfg.variant, Records(md, 0, |data|))
    else
      s1.(events := s1.events + [DataReceived(data)])
  }

  /**
   * A receive that failed (timed out): flush a non-empty buffer once the
   * report timeout has elapsed, time out once the deadline has passed, and
   * end a raw readout that was aborted.
   */
  function IdleStep(s: Snapshot, cfg: ReadConfig, reportElapsed: bool, deadlinePassed: bool): (t: Snapshot)
    ensures t.md == s.md
  {
    DeadlineStep(ReportStep(s, cfg, reportElapsed), cfg, deadlinePassed)
  }

  /** The report-timeout part of a failed receive: flush a non-empty buffer. */
  function ReportStep(s: Snapshot, cfg: ReadConfig, reportElapsed: bool): (t: Snapshot)
    ensures t.md == s.md
  {
    if cfg.reportTimeout > 0 && reportElapsed && |s.buffer| > 0 then Flush(s) else s
  }

  /** The state part of a failed receive: time out, then end an aborted raw readout. */
  function DeadlineStep(s: Snapshot, cfg: ReadConfig, deadlinePassed: bool): (t: Snapshot)
    ensures t.md == s.md
  {
    var s1 := if cfg.failTimeout > 0 && deadlinePassed then s.(state := TimedOut) else s;
    if !cfg.decodeData && s1.aborted then s1.(state := Succeeded) else s1
  }

  lemma {:induction false} HandleRecordsLength(s: Snapshot, v: Variant, ws: seq<nat>)
    ensures HandleRecords(s, v, ws).md == s.md
    decreases |ws|
  {
    if ws != [] {
      HandleRecordsLength(HandleRecord(s, v, ws[0]), v, ws[1..]);
    }
  }

  /** The loop runs while the state is RUNNING and there is input left. */
  function ReadLoop(s: Snapshot, cfg: ReadConfig, inputs: seq<Input>): (t: Snapshot)
    requires cfg.mdBufferSize + 7 <= |s.md| && InputsFit(inputs, cfg)
    ensures |t.md| == |s.md|
    decreases |inputs|
  {
    if s.state != Running || inputs == [] then s
    else ReadLoop(ReadStep(s, cfg, inputs[0]), cfg, inputs[1..])
  }

  /** acquisition_read_*: valid := 0, max_valid := pixel_buffer_size / PIXEL_SIZE, then the loop. */
  function ReadSpec(s: Snapshot, cfg: ReadConfig, pixelBufferSize: nat, inputs: seq<Input>): Snapshot
    requires cfg.mdBufferSize + 7 <= |s.md| && InputsFit(inputs, cfg)
  {
    ReadLoop(s.(buffer := [], maxValid := pixelBufferSize / PixelSize(cfg.variant)), cfg, inputs)
  }

  /** katherine_acquisition_read's dispatch on (acq_mode, fast_vco_enabled). */
  function SelectVariant(acqMode: int, fastVco: bool): (v: Option<Variant>)
    ensures v.Some? <==> 0 <= acqMode <= 2
    ensures v.Some? ==> (HasToa(v.value) <==> acqMode != 2)
    ensures v.Some? ==> (v.value in {FToaTotV, FToaOnlyV, FEventItotV} <==> fastVco)
  {
    match acqMode
    case 0 => Some(if fastVco then FToaTotV else ToaTotV)
    case 1 => Some(if fastVco then FToaOnlyV else ToaOnlyV)
    case 2 => Some(if fastVco then FEventItotV else EventItotV)
    case _ => None
  }
}
