/**
 * What the measurement-data handlers and the read loop of
 * c/src/acquisition.c guarantee, proved about AcquisitionModel.
 */
module AcquisitionLemmas {
  import opened Bits
  import opened Md
  import opened AcquisitionModel

  // ---------------------------------------------------------------------
  // Vocabulary.

  /** Every pixel handed to `pixels_received`, in order. */
  function Reported(events: seq<Event>): seq<Pixel>
  {
    if events == [] then []
    else
      var last := events[|events| - 1];
      Reported(events[..|events| - 1]) + (if last.PixelsReceived? then last.pixels else [])
  }

  lemma ReportedAppend(events: seq<Event>, e: Event)
    ensures Reported(events + [e]) == Reported(events) + (if e.PixelsReceived? then e.pixels else [])
  {
    assert (events + [e])[..|events|] == events;
  }

  /** The records are all pixel records (header 0x4). */
  predicate AllPixels(ws: seq<nat>)
  {
    ws == [] || (Classify(ws[0]) == PixelData && AllPixels(ws[1..]))
  }

  /** The pixels a run of pixel records decodes to while the offset stays put. */
  function DecodeAll(v: Variant, ws: seq<nat>, lastToaOffset: nat): (ps: seq<Pixel>)
    ensures |ps| == |ws|
  {
    if ws == [] then [] else [Decode(v, ws[0], lastToaOffset)] + DecodeAll(v, ws[1..], lastToaOffset)
  }

  /** t's log extends s's log with `pixels_received` calls only. */
  predicate OnlyPixelEventsAdded(before: seq<Event>, after: seq<Event>)
  {
    && before <= after
    && forall k :: |before| <= k < |after| ==> after[k].PixelsReceived?
  }

  /** How many records of `ws` are frame-finished records (header 0xC). */
  function CountFinished(ws: seq<nat>): (n: nat)
    ensures n <= |ws|
  {
    if ws == [] then 0 else (if Classify(ws[0]).FrameFinished? then 1 else 0) + CountFinished(ws[1..])
  }

  // ---------------------------------------------------------------------
  // flush_buffer (acquisition.c lines 20-27).

  /**
   * A flush reports exactly the buffered pixels, counts them into the frame
   * and empties the buffer; no pixel is lost or duplicated and nothing else
   * changes.
   */
  lemma FlushConserves(s: Snapshot)
    requires s.frame.receivedPixels + |s.buffer| < 0x1_0000_0000_0000_0000
    ensures Flush(s).buffer == []
    ensures Reported(Flush(s).events) == Reported(s.events) + s.buffer
    ensures Flush(s).events == s.events + [PixelsReceived(s.buffer)]
    ensures Flush(s).frame.receivedPixels == s.frame.receivedPixels + |s.buffer|
    ensures Flush(s).(events := s.events, frame := s.frame, buffer := s.buffer) == s
  {
    ReportedAppend(s.events, PixelsReceived(s.buffer));
  }

  // ---------------------------------------------------------------------
  // Pixel records (acquisition.c lines 241-247).

  /**
   * One pixel record: a flush first exactly when the buffer is full, then
   * the decoded pixel is stored after the others; with max_valid >= 1 the
   * buffer then holds between 1 and max_valid pixels.
   */
  lemma PushOne(s: Snapshot, v: Variant, w: nat)
    requires Classify(w) == PixelData
    requires 1 <= s.maxValid && |s.buffer| <= s.maxValid
    requires s.frame.receivedPixels + |s.buffer| < 0x1_0000_0000_0000_0000
    ensures var t := HandleRecord(s, v, w);
      && 1 <= |t.buffer| <= t.maxValid
      && t.buffer[|t.buffer| - 1] == Decode(v, w, s.lastToaOffset)
      && (|s.buffer| < s.maxValid ==> t.events == s.events && t.buffer == s.buffer + [Decode(v, w, s.lastToaOffset)])
      && (|s.buffer| == s.maxValid ==>
            t.events == s.events + [PixelsReceived(s.buffer)] && t.buffer == [Decode(v, w, s.lastToaOffset)])
      && Reported(t.events) + t.buffer == Reported(s.events) + s.buffer + [Decode(v, w, s.lastToaOffset)]
      && t.frame.receivedPixels + |t.buffer| == s.frame.receivedPixels + |s.buffer| + 1
      && OnlyPixelEventsAdded(s.events, t.events)
      && t == s.(events := t.events, buffer := t.buffer, frame := s.frame.(receivedPixels := t.frame.receivedPixels))
  {
    if |s.buffer| == s.maxValid {
      FlushConserves(s);
    }
  }

  lemma {:induction false} HandleRecordsAppend(s: Snapshot, v: Variant, a: seq<nat>, b: seq<nat>)
    ensures HandleRecords(s, v, a + b) == HandleRecords(HandleRecords(s, v, a), v, b)
    decreases |a|
  {
    if a != [] {
      assert (a + b)[0] == a[0] && (a + b)[1..] == a[1..] + b;
      HandleRecordsAppend(HandleRecord(s, v, a[0]), v, a[1..], b);
    } else {
      assert a + b == b;
    }
  }

  lemma AllPixelsTail(ws: seq<nat>)
    requires ws != [] && AllPixels(ws)
    ensures Classify(ws[0]) == PixelData && AllPixels(ws[1..])
  {
  }

  /** The part of PushOne the inductions below carry along. */
  lemma PushStep(s: Snapshot, v: Variant, w: nat)
    requires Classify(w) == PixelData
    requires 1 <= s.maxValid && |s.buffer| <= s.maxValid
    requires s.frame.receivedPixels + |s.buffer| < 0x1_0000_0000_0000_0000
    ensures var t := HandleRecord(s, v, w);
      && 1 <= |t.buffer| <= t.maxValid == s.maxValid
      && t.lastToaOffset == s.lastToaOffset
      && t.frame.receivedPixels + |t.buffer| == s.frame.receivedPixels + |s.buffer| + 1
  {
  }

  lemma PushStepReported(s: Snapshot, v: Variant, w: nat)
    requires Classify(w) == PixelData
    requires 1 <= s.maxValid && |s.buffer| <= s.maxValid
    requires s.frame.receivedPixels + |s.buffer| < 0x1_0000_0000_0000_0000
    ensures var t := HandleRecord(s, v, w);
      Reported(t.events) + t.buffer == Reported(s.events) + s.buffer + [Decode(v, w, s.lastToaOffset)]
  {
    if |s.buffer| == s.maxValid {
      FlushConserves(s);
    }
  }

  lemma PushStepRest(s: Snapshot, v: Variant, w: nat)
    requires Classify(w) == PixelData
    ensures var t := HandleRecord(s, v, w);
      && OnlyPixelEventsAdded(s.events, t.events)
      && t == s.(events := t.events, buffer := t.buffer, frame := s.frame.(receivedPixels := t.frame.receivedPixels))
  {
  }

  lemma HandleRecordsCons(s: Snapshot, v: Variant, ws: seq<nat>)
    requires ws != []
    ensures HandleRecords(s, v, ws) == HandleRecords(HandleRecord(s, v, ws[0]), v, ws[1..])
  {
  }

  lemma DecodeAllCons(v: Variant, ws: seq<nat>, lastToaOffset: nat)
    requires ws != []
    ensures DecodeAll(v, ws, lastToaOffset) == [Decode(v, ws[0], lastToaOffset)] + DecodeAll(v, ws[1..], lastToaOffset)
  {
  }

  /**
   * A run of pixel records keeps 1 <= valid <= max_valid, logs only
   * `pixels_received` calls and changes nothing but the buffer, the log and
   * the received count.
   */
  lemma {:induction false} PushAllBounds(s: Snapshot, v: Variant, ws: seq<nat>)
    requires AllPixels(ws)
    requires 1 <= s.maxValid && |s.buffer| <= s.maxValid
    requires s.frame.receivedPixels + |s.buffer| + |ws| < 0x1_0000_0000_0000_0000
    ensures var t := HandleRecords(s, v, ws);
      && |t.buffer| <= t.maxValid
      && (ws != [] ==> 1 <= |t.buffer|)
      && t.frame.receivedPixels + |t.buffer| == s.frame.receivedPixels + |s.buffer| + |ws|
      && OnlyPixelEventsAdded(s.events, t.events)
      && t == s.(events := t.events, buffer := t.buffer, frame := s.frame.(receivedPixels := t.frame.receivedPixels))
    decreases |ws|
  {
    if ws != [] {
      AllPixelsTail(ws);
      var s1 := HandleRecord(s, v, ws[0]);
      PushStep(s, v, ws[0]);
      PushStepRest(s, v, ws[0]);
      PushAllBounds(s1, v, ws[1..]);
      HandleRecordsCons(s, v, ws);
    }
  }

  /**
   * A run of pixel records loses no pixel: every pixel decoded ends up
   * reported or still buffered, in record order.
   */
  lemma {:induction false} PushAll(s: Snapshot, v: Variant, ws: seq<nat>)
    requires AllPixels(ws)
    requires 1 <= s.maxValid && |s.buffer| <= s.maxValid
    requires s.frame.receivedPixels + |s.buffer| + |ws| < 0x1_0000_0000_0000_0000
    ensures var t := HandleRecords(s, v, ws);
      Reported(t.events) + t.buffer == Reported(s.events) + s.buffer + DecodeAll(v, ws, s.lastToaOffset)
    decreases |ws|
  {
    if ws != [] {
      AllPixelsTail(ws);
      var s1 := HandleRecord(s, v, ws[0]);
      PushStep(s, v, ws[0]);
      PushStepReported(s, v, ws[0]);
      PushAll(s1, v, ws[1..]);
      HandleRecordsCons(s, v, ws);
      DecodeAllCons(v, ws, s.lastToaOffset);
      ConcatAssoc(Reported(s.events) + s.buffer, [Decode(v, ws[0], s.lastToaOffset)],
                  DecodeAll(v, ws[1..], s.lastToaOffset));
    }
  }

  lemma ConcatAssoc<T>(a: seq<T>, b: seq<T>, c: seq<T>)
    ensures a + (b + c) == (a + b) + c
  {
  }

  lemma PushNoFlushStep(s: Snapshot, v: Variant, w: nat)
    requires Classify(w) == PixelData && |s.buffer| < s.maxValid
    ensures HandleRecord(s, v, w) == s.(buffer := s.buffer + [Decode(v, w, s.lastToaOffset)])
  {
  }

  /** Pixel records that fit the buffer are stored without any flush. */
  lemma {:induction false} PushWithoutFlush(s: Snapshot, v: Variant, ws: seq<nat>)
    requires AllPixels(ws)
    requires |s.buffer| + |ws| <= s.maxValid
    ensures HandleRecords(s, v, ws) == s.(buffer := s.buffer + DecodeAll(v, ws, s.lastToaOffset))
    decreases |ws|
  {
    if ws != [] {
      AllPixelsTail(ws);
      var s1 := HandleRecord(s, v, ws[0]);
      PushNoFlushStep(s, v, ws[0]);
      PushWithoutFlush(s1, v, ws[1..]);
      HandleRecordsCons(s, v, ws);
      DecodeAllCons(v, ws, s.lastToaOffset);
      var d, rest := Decode(v, ws[0], s.lastToaOffset), DecodeAll(v, ws[1..], s.lastToaOffset);
      var b := s.buffer + DecodeAll(v, ws, s.lastToaOffset);
      ConcatAssoc(s.buffer, [d], rest);
      assert b == s1.buffer + rest;
      assert s1.(buffer := b) == s.(buffer := b);
    } else {
      assert s.buffer + DecodeAll(v, ws, s.lastToaOffset) == s.buffer;
    }
  }

  /**
   * Capacity boundary: into an empty buffer, max_valid pixel records cause
   * no flush; one more causes exactly one, which reports the first max_valid
   * pixels and leaves the last one buffered.
   */
  lemma CapacityBoundary(s: Snapshot, v: Variant, ws: seq<nat>, w: nat)
    requires s.buffer == [] && 1 <= s.maxValid
    requires AllPixels(ws) && |ws| == s.maxValid && Classify(w) == PixelData
    ensures HandleRecords(s, v, ws).events == s.events
    ensures HandleRecords(s, v, ws + [w]).events == s.events + [PixelsReceived(DecodeAll(v, ws, s.lastToaOffset))]
    ensures HandleRecords(s, v, ws + [w]).buffer == [Decode(v, w, s.lastToaOffset)]
  {
    PushWithoutFlush(s, v, ws);
    var t := HandleRecords(s, v, ws);
    assert t.buffer == DecodeAll(v, ws, s.lastToaOffset);
    assert |t.buffer| == t.maxValid && t.lastToaOffset == s.lastToaOffset;
    HandleRecordsAppend(s, v, ws, [w]);
    assert HandleRecords(t, v, [w]) == HandleRecord(t, v, w);
    var u := HandleRecord(t, v, w);
    assert u == Flush(t).(buffer := [Decode(v, w, s.lastToaOffset)]);
  }

  // ---------------------------------------------------------------------
  // The other headers (acquisition.c lines 29-108, 249-262).

  /**
   * Header 0x7 zeroes the whole frame info and reports frame_started with
   * the completed-frame count; it neither flushes nor clears the buffer.
   */
  lemma NewFrameResets(s: Snapshot, v: Variant, w: nat)
    requires Header(w) == 0x7
    ensures HandleRecord(s, v, w).frame == ZeroFrame
    ensures HandleRecord(s, v, w).events == s.events + [FrameStarted(s.completed)]
    ensures HandleRecord(s, v, w).buffer == s.buffer
    ensures HandleRecord(s, v, w).(frame := s.frame, events := s.events) == s
  {
  }

  /**
   * Header 0xC always flushes (even an empty buffer), records n_sent,
   * reports frame_ended with the final received count, counts the frame and
   * turns the state SUCCEEDED exactly when the count reaches the request.
   */
  lemma FrameFinishedEffect(s: Snapshot, v: Variant, w: nat)
    requires Header(w) == 0xC
    ensures var t := HandleRecord(s, v, w);
      && t.buffer == []
      && t.frame.sentPixels == Extract(w, 0, 44) < 0x1000_0000_0000
      && t.frame.receivedPixels == Wrap64(s.frame.receivedPixels + |s.buffer|)
      && t.events == s.events + [PixelsReceived(s.buffer), FrameEnded(s.completed, true, t.frame)]
      && t.completed == s.completed + 1
      && (t.state == Succeeded <==> s.completed + 1 == s.requested || s.state == Succeeded)
      && (t.state != s.state ==> t.state == Succeeded)
      && t.(buffer := s.buffer, frame := s.frame, events := s.events, completed := s.completed, state := s.state) == s
  {
    Pow2Values();
  }

  /** Headers 0x2 and 0x3 change nothing; 0xE only sets `aborted`; 0x0, 0x1, 0x6, 0xF only count a dropped record. */
  lemma InertRecords(s: Snapshot, v: Variant, w: nat)
    ensures Header(w) in {0x2, 0x3} ==> HandleRecord(s, v, w) == s
    ensures Header(w) == 0xE ==> HandleRecord(s, v, w) == s.(aborted := true)
    ensures Header(w) in {0x0, 0x1, 0x6, 0xF} ==> HandleRecord(s, v, w) == s.(dropped := Wrap64(s.dropped + 1))
  {
  }

  /** Only a frame-finished record changes the state, and only to SUCCEEDED. */
  lemma StateOnlyOnFinish(s: Snapshot, v: Variant, w: nat)
    ensures HandleRecord(s, v, w).state != s.state ==> Header(w) == 0xC && HandleRecord(s, v, w).state == Succeeded
    ensures Header(w) != 0xC ==> HandleRecord(s, v, w).completed == s.completed
  {
  }

  /** The four timestamp halves: the last write wins. */
  lemma TimestampLastWriteWins(s: Snapshot, v: Variant, w1: nat, w2: nat)
    requires Header(w1) == Header(w2) && Header(w1) in {0x8, 0x9, 0xA, 0xB}
    ensures HandleRecord(HandleRecord(s, v, w1), v, w2) == HandleRecord(s, v, w2)
  {
    KindOfHeader(w1);
    KindOfHeader(w2);
    FrameRecord(s, v, w1);
    FrameRecord(s, v, w2);
    FrameRecord(HandleRecord(s, v, w1), v, w2);
  }

  /** The frame-info update of a timestamp-half or lost-pixel record. */
  function FrameUpdate(f: FrameInfo, k: MdKind): FrameInfo
  {
    match k
    case FrameStartLsb(lsb) => f.(startLsb := lsb)
    case FrameStartMsb(msb) => f.(startMsb := msb)
    case FrameEndLsb(lsb) => f.(endLsb := lsb)
    case FrameEndMsb(msb) => f.(endMsb := msb)
    case LostPixels(nLost) => f.(lostPixels := Wrap64(f.lostPixels + nLost))
    case _ => f
  }

  predicate FrameFieldKind(k: MdKind)
  {
    k.FrameStartLsb? || k.FrameStartMsb? || k.FrameEndLsb? || k.FrameEndMsb? || k.LostPixels?
  }

  lemma KindOfHeader(w: nat)
    ensures Classify(w).FrameStartLsb? <==> Header(w) == 0x8
    ensures Classify(w).FrameStartMsb? <==> Header(w) == 0x9
    ensures Classify(w).FrameEndLsb? <==> Header(w) == 0xA
    ensures Classify(w).FrameEndMsb? <==> Header(w) == 0xB
    ensures Classify(w).LostPixels? <==> Header(w) == 0xD
  {
  }

  lemma FrameRecord(s: Snapshot, v: Variant, w: nat)
    requires FrameFieldKind(Classify(w))
    ensures HandleRecord(s, v, w) == s.(frame := FrameUpdate(s.frame, Classify(w)))
  {
  }

  /** Writes of different timestamp halves, and lost-pixel counts, commute. */
  lemma TimestampHalvesCommute(s: Snapshot, v: Variant, w1: nat, w2: nat)
    requires Header(w1) in {0x8, 0x9, 0xA, 0xB, 0xD} && Header(w2) in {0x8, 0x9, 0xA, 0xB, 0xD}
    requires Header(w1) != Header(w2) || Header(w1) == 0xD
    ensures HandleRecord(HandleRecord(s, v, w1), v, w2) == HandleRecord(HandleRecord(s, v, w2), v, w1)
  {
    var k1, k2 := Classify(w1), Classify(w2);
    KindOfHeader(w1);
    KindOfHeader(w2);
    FrameRecord(s, v, w1);
    FrameRecord(s, v, w2);
    FrameRecord(HandleRecord(s, v, w1), v, w2);
    FrameRecord(HandleRecord(s, v, w2), v, w1);
    FrameUpdatesCommute(s.frame, k1, k2);
  }

  lemma FrameUpdatesCommute(f: FrameInfo, k1: MdKind, k2: MdKind)
    requires FrameFieldKind(k1) && FrameFieldKind(k2)
    requires !k1.LostPixels? || !k2.LostPixels? ==>
      (k1.FrameStartLsb? != k2.FrameStartLsb? || k1.FrameStartMsb? != k2.FrameStartMsb?
       || k1.FrameEndLsb? != k2.FrameEndLsb? || k1.FrameEndMsb? != k2.FrameEndMsb?)
    ensures FrameUpdate(FrameUpdate(f, k1), k2) == FrameUpdate(FrameUpdate(f, k2), k1)
  {
    if k1.LostPixels? && k2.LostPixels? {
      WrapAddComm(f.lostPixels, k1.nLost, k2.nLost);
    }
  }

  lemma WrapAddComm(l: nat, a: nat, b: nat)
    ensures Wrap64(Wrap64(l + a) + b) == Wrap64(Wrap64(l + b) + a)
  {
    var m := 0x1_0000_0000_0000_0000;
    WrapAdd(l + a, b);
    WrapAdd(l + b, a);
  }

  lemma WrapAdd(x: nat, y: nat)
    ensures Wrap64(Wrap64(x) + y) == Wrap64(x + y)
  {
    var m := 0x1_0000_0000_0000_0000;
    var q := x / m;
    assert x == q * m + x % m;
    assert x + y == q * m + (x % m + y);
    ShiftedMod(x % m + y, m, q);
  }

  /** Lost-pixel records accumulate: the 44-bit counts add up modulo 2^64. */
  lemma LostPixelsAccumulate(s: Snapshot, v: Variant, w1: nat, w2: nat)
    requires Header(w1) == 0xD && Header(w2) == 0xD
    ensures HandleRecord(HandleRecord(s, v, w1), v, w2).frame.lostPixels
         == Wrap64(s.frame.lostPixels + Extract(w1, 0, 44) + Extract(w2, 0, 44))
  {
    WrapAdd(s.frame.lostPixels + Extract(w1, 0, 44), Extract(w2, 0, 44));
  }

  /**
   * Offset correction: after a header-0x5 record, a pixel of a ToA variant
   * carries its raw 14-bit ToA plus 16384 times the 32-bit offset; pixels
   * already buffered keep their ToA.
   */
  lemma OffsetAppliesAfter(s: Snapshot, v: Variant, w5: nat, w: nat)
    requires Header(w5) == 0x5 && Classify(w) == PixelData && HasToa(v)
    requires |s.buffer| < s.maxValid
    ensures var t := HandleRecord(HandleRecord(s, v, w5), v, w);
      && t.buffer[..|s.buffer|] == s.buffer
      && t.buffer[|s.buffer|].toa == Extract(w, 14, 14) + 16384 * Extract(w5, 0, 32)
  {
  }

  /**
   * The pixel of OffsetAppliesAfter carries the ToA that the 32-bit product
   * of acquisition.c line 40 gives exactly when the offset is below 2^18.
   */
  lemma OffsetAgreesAsWritten(s: Snapshot, v: Variant, w5: nat, w: nat)
    requires Header(w5) == 0x5 && Classify(w) == PixelData && HasToa(v)
    requires |s.buffer| < s.maxValid
    ensures var toa := HandleRecord(HandleRecord(s, v, w5), v, w).buffer[|s.buffer|].toa;
      toa == Extract(w, 14, 14) + ToaOffsetAsWritten(Extract(w5, 0, 32)) <==> Extract(w5, 0, 32) < 0x4_0000
  {
    var o := Extract(w5, 0, 32);
    Pow2Values();
    OffsetAppliesAfter(s, v, w5, w);
    ToaOffsetWraps(o);
  }

  // ---------------------------------------------------------------------
  // A whole frame and the frame count.

  /**
   * The end of a frame: a frame-finished record announcing every pixel the
   * frame received (with nothing lost and no timestamps since the new-frame
   * record) reports the buffered pixels, then frame_ended with N received and
   * N sent pixels; the buffer ends empty and the frame counts.
   */
  lemma FrameClose(sp: Snapshot, v: Variant, wc: nat)
    requires Header(wc) == 0xC
    requires sp.frame == ZeroFrame.(receivedPixels := sp.frame.receivedPixels)
    requires sp.frame.receivedPixels + |sp.buffer| == Extract(wc, 0, 44)
    ensures var t := HandleRecord(sp, v, wc);
      && t.frame == ZeroFrame.(receivedPixels := Extract(wc, 0, 44), sentPixels := Extract(wc, 0, 44))
      && t.events == sp.events + [PixelsReceived(sp.buffer), FrameEnded(sp.completed, true, t.frame)]
      && Reported(t.events) == Reported(sp.events) + sp.buffer
      && t.buffer == []
      && t.completed == sp.completed + 1
  {
    var t := HandleRecord(sp, v, wc);
    FrameFinishedEffect(sp, v, wc);
    ReportedAppend(sp.events, PixelsReceived(sp.buffer));
    ReportedAppend(sp.events + [PixelsReceived(sp.buffer)], FrameEnded(sp.completed, true, t.frame));
    assert sp.events + [PixelsReceived(sp.buffer), FrameEnded(sp.completed, true, t.frame)]
        == sp.events + [PixelsReceived(sp.buffer)] + [FrameEnded(sp.completed, true, t.frame)];
  }

  lemma CompletionStep(s: Snapshot, v: Variant, w: nat)
    ensures var t := HandleRecord(s, v, w);
      && t.requested == s.requested
      && t.completed == s.completed + (if Classify(w).FrameFinished? then 1 else 0)
  {
    var c := Classify(w);
    if c.PixelData? {
      var s1 := if |s.buffer| == s.maxValid then Flush(s) else s;
      assert s1.requested == s.requested && s1.completed == s.completed;
    } else if c.FrameFinished? {
      assert HandleRecord(s, v, w).completed == s.completed + 1;
    }
  }

  lemma StateStep(s: Snapshot, v: Variant, w: nat)
    ensures var t := HandleRecord(s, v, w);
      && (s.state == Succeeded ==> t.state == Succeeded)
      && (s.state == Running ==>
            t.state == if Classify(w).FrameFinished? && s.completed + 1 == s.requested then Succeeded else Running)
  {
    var c := Classify(w);
    if c.PixelData? {
      var s1 := if |s.buffer| == s.maxValid then Flush(s) else s;
      assert s1.state == s.state;
    } else if c.FrameFinished? {
      assert HandleRecord(s, v, w).completed == s.completed + 1;
    }
  }

  lemma {:induction false} SucceededStays(s: Snapshot, v: Variant, ws: seq<nat>)
    requires s.state == Succeeded
    ensures HandleRecords(s, v, ws).state == Succeeded
    decreases |ws|
  {
    if ws != [] {
      StateStep(s, v, ws[0]);
      SucceededStays(HandleRecord(s, v, ws[0]), v, ws[1..]);
    }
  }

  /**
   * The frame count grows by the number of frame-finished records, and a
   * running acquisition ends up SUCCEEDED exactly when the count passes the
   * requested number on the way (so a request of 0 frames never succeeds).
   */
  lemma {:induction false} Completion(s: Snapshot, v: Variant, ws: seq<nat>)
    requires s.state == Running
    ensures HandleRecords(s, v, ws).completed == s.completed + CountFinished(ws)
    ensures HandleRecords(s, v, ws).state == Succeeded <==> s.completed < s.requested <= s.completed + CountFinished(ws)
    ensures HandleRecords(s, v, ws).state in {Running, Succeeded}
    decreases |ws|
  {
    if ws != [] {
      var s1 := HandleRecord(s, v, ws[0]);
      CompletionStep(s, v, ws[0]);
      StateStep(s, v, ws[0]);
      HandleRecordsCons(s, v, ws);
      CompletionCount(s1, v, ws[1..]);
      if s1.state == Succeeded {
        SucceededStays(s1, v, ws[1..]);
      } else {
        Completion(s1, v, ws[1..]);
      }
    }
  }

  lemma {:induction false} CompletionCount(s: Snapshot, v: Variant, ws: seq<nat>)
    ensures HandleRecords(s, v, ws).completed == s.completed + CountFinished(ws)
    decreases |ws|
  {
    if ws != [] {
      CompletionStep(s, v, ws[0]);
      CompletionCount(HandleRecord(s, v, ws[0]), v, ws[1..]);
    }
  }

  /**
   * The pixels a run of records yields, in order: each pixel record decoded
   * under the time offset set by the latest time-offset record before it.
   */
  function Pixels(v: Variant, ws: seq<nat>, lastToaOffset: nat): (ps: seq<Pixel>)
    ensures |ps| <= |ws|
  {
    if ws == [] then []
    else match Classify(ws[0])
      case PixelData => [Decode(v, ws[0], lastToaOffset)] + Pixels(v, ws[1..], lastToaOffset)
      case TimeOffset(offset) => Pixels(v, ws[1..], ToaOffset(offset))
      case _ => Pixels(v, ws[1..], lastToaOffset)
  }

  /** Without time-offset records in between, the pixels are those of DecodeAll. */
  lemma {:induction false} PixelsOfPixelRun(v: Variant, ws: seq<nat>, lastToaOffset: nat)
    requires AllPixels(ws)
    ensures Pixels(v, ws, lastToaOffset) == DecodeAll(v, ws, lastToaOffset)
    decreases |ws|
  {
    if ws != [] {
      AllPixelsTail(ws);
      PixelsOfPixelRun(v, ws[1..], lastToaOffset);
    }
  }

  /** A record that is neither a pixel nor a frame end leaves the buffer and the reported pixels alone. */
  lemma KeepsPixels(s: Snapshot, v: Variant, w: nat)
    requires !Classify(w).PixelData? && !Classify(w).FrameFinished?
    ensures var t := HandleRecord(s, v, w);
      t.buffer == s.buffer && Reported(t.events) == Reported(s.events)
  {
    if Classify(w).NewFrame? {
      ReportedAppend(s.events, FrameStarted(s.completed));
    }
  }

  /** A frame-finished record reports the buffer and leaves it empty. */
  lemma FinishKeepsPixels(s: Snapshot, v: Variant, w: nat)
    requires Classify(w).FrameFinished?
    ensures var t := HandleRecord(s, v, w);
      Reported(t.events) + t.buffer == Reported(s.events) + s.buffer
  {
    var s1 := Flush(s);
    var t := HandleRecord(s, v, w);
    assert t.events == s1.events + [FrameEnded(s.completed, true, s1.frame.(sentPixels := Classify(w).nSent))];
    assert t.buffer == [];
    ReportedAppend(s.events, PixelsReceived(s.buffer));
    ReportedAppend(s1.events, FrameEnded(s.completed, true, s1.frame.(sentPixels := Classify(w).nSent)));
  }

  /** A pixel record adds its decoded pixel after the reported and buffered ones. */
  lemma PixelAddsPixel(s: Snapshot, v: Variant, w: nat)
    requires Classify(w).PixelData?
    ensures var t := HandleRecord(s, v, w);
      Reported(t.events) + t.buffer == Reported(s.events) + s.buffer + [Decode(v, w, s.lastToaOffset)]
  {
    if |s.buffer| == s.maxValid {
      ReportedAppend(s.events, PixelsReceived(s.buffer));
    }
  }

  lemma PixelsConservedStep(s: Snapshot, v: Variant, w: nat)
    ensures var t := HandleRecord(s, v, w);
      && Reported(t.events) + t.buffer
           == Reported(s.events) + s.buffer + (if Classify(w).PixelData? then [Decode(v, w, s.lastToaOffset)] else [])
      && t.lastToaOffset == (if Classify(w).TimeOffset? then ToaOffset(Classify(w).offset) else s.lastToaOffset)
  {
    if Classify(w).PixelData? {
      PixelAddsPixel(s, v, w);
    } else if Classify(w).FrameFinished? {
      FinishKeepsPixels(s, v, w);
    } else {
      KeepsPixels(s, v, w);
    }
  }

  /**
   * Whatever the records, no pixel is lost or duplicated: the pixels
   * reported or still buffered afterwards are the ones from before followed
   * by the pixels of the records, in order, and this holds whatever
   * max_valid is.
   */
  lemma {:induction false} PixelsConserved(s: Snapshot, v: Variant, ws: seq<nat>)
    ensures var t := HandleRecords(s, v, ws);
      Reported(t.events) + t.buffer == Reported(s.events) + s.buffer + Pixels(v, ws, s.lastToaOffset)
    decreases |ws|
  {
    if ws != [] {
      var s1 := HandleRecord(s, v, ws[0]);
      PixelsConservedStep(s, v, ws[0]);
      PixelsConserved(s1, v, ws[1..]);
    }
  }

  /** One record logs only frame and pixel events. */
  lemma NoRawEvent(s: Snapshot, v: Variant, w: nat)
    ensures var t := HandleRecord(s, v, w);
      && s.events <= t.events
      && forall k :: |s.events| <= k < |t.events| ==> !t.events[k].DataReceived?
  {
    var t := HandleRecord(s, v, w);
    if Classify(w).FrameFinished? {
      assert t.events == s.events + [PixelsReceived(s.buffer), FrameEnded(s.completed, true, t.frame)];
    } else if Classify(w).PixelData? {
      assert t.events == s.events || t.events == s.events + [PixelsReceived(s.buffer)];
    } else if Classify(w).NewFrame? {
      assert t.events == s.events + [FrameStarted(s.completed)];
    } else {
      assert t.events == s.events;
    }
  }

  /** Handling records never logs a data_received call. */
  lemma {:induction false} NoRawEvents(s: Snapshot, v: Variant, ws: seq<nat>)
    ensures var t := HandleRecords(s, v, ws);
      && s.events <= t.events
      && forall k :: |s.events| <= k < |t.events| ==> !t.events[k].DataReceived?
    decreases |ws|
  {
    if ws != [] {
      NoRawEvent(s, v, ws[0]);
      NoRawEvents(HandleRecord(s, v, ws[0]), v, ws[1..]);
    }
  }

  // ---------------------------------------------------------------------
  // The read loop (acquisition.c lines 284-323).

  /** Records of a chunk are taken at every sixth byte, in order. */
  lemma {:induction false} RecordsAt(md: seq<Byte>, i: nat, received: nat, k: nat)
    requires received + 7 <= |md| && i + MD_SIZE * k < received
    ensures k < |Records(md, i, received)|
    ensures Records(md, i, received)[k] == LittleEndian(md[i + MD_SIZE * k .. i + MD_SIZE * k + 8])
    decreases k
  {
    var r, rest := Records(md, i, received), Records(md, i + 6, received);
    assert r == [LittleEndian(md[i .. i + 8])] + rest;
    if k > 0 {
      RecordsAt(md, i + 6, received, k - 1);
      assert MD_SIZE * k == MD_SIZE * (k - 1) + 6;
      assert r[k] == rest[k - 1];
    }
  }

  /** The loop does nothing once the state is not RUNNING. */
  lemma ReadLoopStops(s: Snapshot, cfg: ReadConfig, inputs: seq<Input>)
    requires cfg.mdBufferSize + 7 <= |s.md| && InputsFit(inputs, cfg)
    requires s.state != Running
    ensures ReadLoop(s, cfg, inputs) == s
  {
  }

  /**
   * The loop consumes its inputs one at a time: running it on a + b is
   * running it on a and then on b (which does nothing if a ended it).
   */
  lemma {:induction false} ReadLoopAppend(s: Snapshot, cfg: ReadConfig, a: seq<Input>, b: seq<Input>)
    requires cfg.mdBufferSize + 7 <= |s.md| && InputsFit(a, cfg) && InputsFit(b, cfg)
    ensures InputsFit(a + b, cfg)
    ensures ReadLoop(s, cfg, a + b) == ReadLoop(ReadLoop(s, cfg, a), cfg, b)
    decreases |a|
  {
    assert InputsFit(a + b, cfg) by {
      forall k | 0 <= k < |a + b| && (a + b)[k].Datagram? ensures |(a + b)[k].data| <= cfg.mdBufferSize {
        if k < |a| { assert (a + b)[k] == a[k]; } else { assert (a + b)[k] == b[k - |a|]; }
      }
    }
    if a == [] {
      assert a + b == b;
    } else if s.state == Running {
      assert (a + b)[0] == a[0] && (a + b)[1..] == a[1..] + b;
      assert InputsFit(a[1..], cfg) by {
        forall k | 0 <= k < |a[1..]| && a[1..][k].Datagram? ensures |a[1..][k].data| <= cfg.mdBufferSize {
          assert a[1..][k] == a[k + 1];
        }
      }
      assert a[0].Datagram? ==> |a[0].data| <= cfg.mdBufferSize;
      ReadLoopAppend(ReadStep(s, cfg, a[0]), cfg, a[1..], b);
    } else {
      ReadLoopStops(ReadLoop(s, cfg, a), cfg, b);
    }
  }

  /** An idle pass flushes only a non-empty buffer, and only when the report timeout is on and elapsed. */
  lemma IdleFlush(s: Snapshot, cfg: ReadConfig, reportElapsed: bool, deadlinePassed: bool)
    requires cfg.mdBufferSize + 7 <= |s.md|
    ensures var t := ReadStep(s, cfg, Idle(reportElapsed, deadlinePassed));
      && (s.buffer == [] ==> t.events == s.events && t.frame == s.frame)
      && (cfg.reportTimeout > 0 && reportElapsed && s.buffer != [] ==>
            t.events == s.events + [PixelsReceived(s.buffer)] && t.buffer == [])
      && (!(cfg.reportTimeout > 0 && reportElapsed) ==> t.events == s.events && t.buffer == s.buffer)
  {
  }

  /**
   * The state after an idle pass: SUCCEEDED when decoding is off and the
   * acquisition was aborted; otherwise TIMED_OUT when the fail timeout is on
   * and the deadline passed; otherwise unchanged.
   */
  lemma IdleState(s: Snapshot, cfg: ReadConfig, reportElapsed: bool, deadlinePassed: bool)
    requires cfg.mdBufferSize + 7 <= |s.md|
    ensures var t := ReadStep(s, cfg, Idle(reportElapsed, deadlinePassed));
      t.state == if !cfg.decodeData && s.aborted then Succeeded
                 else if cfg.failTimeout > 0 && deadlinePassed then TimedOut
                 else s.state
    ensures ReadStep(s, cfg, Idle(reportElapsed, deadlinePassed)).aborted == s.aborted
  {
  }

  /** With decoding off a datagram is handed to data_received unchanged and nothing else happens. */
  lemma DatagramRaw(s: Snapshot, cfg: ReadConfig, data: seq<Byte>)
    requires cfg.mdBufferSize + 7 <= |s.md| && |data| <= cfg.mdBufferSize && !cfg.decodeData
    ensures ReadStep(s, cfg, Datagram(data)) == s.(md := data + s.md[|data|..], events := s.events + [DataReceived(data)])
  {
  }

  /**
   * With decoding on, the records of a datagram are handled in order: the
   * pixels reported or still buffered afterwards are the ones from before
   * followed by the datagram's pixel records, decoded under the time offset
   * in force at each; one frame is completed per frame-finished record, and
   * data_received is never called.
   */
  lemma DatagramDecoded(s: Snapshot, cfg: ReadConfig, data: seq<Byte>)
    requires cfg.mdBufferSize + 7 <= |s.md| && |data| <= cfg.mdBufferSize && cfg.decodeData
    ensures var md := data + s.md[|data|..];
      ReadStep(s, cfg, Datagram(data)) == HandleRecords(s.(md := md), cfg.variant, Records(md, 0, |data|))
    ensures var md := data + s.md[|data|..];
      var t := ReadStep(s, cfg, Datagram(data));
      && Reported(t.events) + t.buffer
           == Reported(s.events) + s.buffer + Pixels(cfg.variant, Records(md, 0, |data|), s.lastToaOffset)
      && t.completed == s.completed + CountFinished(Records(md, 0, |data|))
      && s.events <= t.events
      && forall k :: |s.events| <= k < |t.events| ==> !t.events[k].DataReceived?
  {
    var md := data + s.md[|data|..];
    var ws := Records(md, 0, |data|);
    var s1 := s.(md := md);
    var t := ReadStep(s, cfg, Datagram(data));
    assert t == HandleRecords(s1, cfg.variant, ws);
    PixelsConserved(s1, cfg.variant, ws);
    CompletionCount(s1, cfg.variant, ws);
    NoRawEvents(s1, cfg.variant, ws);
  }

  /** One turn of the decoding loop: the record at byte i, then the records after it. */
  lemma RecordsStep(s: Snapshot, v: Variant, md: seq<Byte>, i: nat, received: nat)
    requires received + 7 <= |md| && i < received
    ensures HandleRecords(s, v, Records(md, i, received))
         == HandleRecords(HandleRecord(s, v, LittleEndian(md[i .. i + 8])), v, Records(md, i + MD_SIZE, received))
  {
    var ws := Records(md, i, received);
    assert ws == [LittleEndian(md[i .. i + 8])] + Records(md, i + MD_SIZE, received);
    HandleRecordsCons(s, v, ws);
    assert ws[1..] == Records(md, i + MD_SIZE, received);
  }

  /** Suffixes of fitting inputs fit. */
  lemma InputsFitSuffix(inputs: seq<Input>, cfg: ReadConfig, k: nat)
    requires InputsFit(inputs, cfg) && k <= |inputs|
    ensures InputsFit(inputs[k..], cfg)
  {
    forall j | 0 <= j < |inputs[k..]| && inputs[k..][j].Datagram?
      ensures |inputs[k..][j].data| <= cfg.mdBufferSize
    {
      assert inputs[k..][j] == inputs[k + j];
    }
  }

  /** One turn of the read loop while RUNNING: input k, then the inputs after it. */
  lemma ReadLoopStep(s: Snapshot, cfg: ReadConfig, inputs: seq<Input>, k: nat)
    requires cfg.mdBufferSize + 7 <= |s.md| && InputsFit(inputs, cfg) && k < |inputs| && s.state == Running
    ensures inputs[k].Datagram? ==> |inputs[k].data| <= cfg.mdBufferSize
    ensures InputsFit(inputs[k..], cfg) && InputsFit(inputs[k + 1..], cfg)
    ensures ReadLoop(s, cfg, inputs[k..]) == ReadLoop(ReadStep(s, cfg, inputs[k]), cfg, inputs[k + 1..])
  {
    InputsFitSuffix(inputs, cfg, k);
    InputsFitSuffix(inputs, cfg, k + 1);
    assert inputs[k..][0] == inputs[k] && inputs[k..][1..] == inputs[k + 1..];
  }

  /** The effect of a pixel record (acquisition.c lines 241-247). */
  lemma PixelRecordEffect(s: Snapshot, v: Variant, w: nat)
    requires Classify(w) == PixelData
    ensures var s1 := if |s.buffer| == s.maxValid then Flush(s) else s;
      HandleRecord(s, v, w) == s1.(buffer := s1.buffer + [Decode(v, w, s.lastToaOffset)])
  {
  }
}
