/**
 * Measurement data (MD) records of c/src/md.h.
 *
 * A record is 6 bytes on the wire.  The library reads it through a
 * `const uint64_t *`, so a decoder sees a 64-bit little-endian word whose
 * low 48 bits are the record and whose top 16 bits are whatever bytes follow
 * it in the buffer.  Every field lies below bit 48 (RecordLocal).
 */
module Md {
  import opened Bits

  // ---------------------------------------------------------------------
  // Header and non-pixel payloads (md.h lines 33-59).

  /** The 4-bit header at bits 44-47 selects how the rest is read. */
  function Header(w: nat): (h: nat)
    ensures h < 16
  {
    Pow2Values();
    Extract(w, 44, 4)
  }

  /** What a record means, by header (the dispatch of acquisition.c). */
  datatype MdKind =
    | TriggerInfo                    // 0x2, 0x3: discarded
    | PixelData                      // 0x4
    | TimeOffset(offset: nat)        // 0x5: 32-bit offset
    | NewFrame                       // 0x7
    | FrameStartLsb(lsb: nat)        // 0x8: 32 bits
    | FrameStartMsb(msb: nat)        // 0x9: 16 bits
    | FrameEndLsb(lsb: nat)          // 0xA: 32 bits
    | FrameEndMsb(msb: nat)          // 0xB: 16 bits
    | FrameFinished(nSent: nat)      // 0xC: 44 bits
    | LostPixels(nLost: nat)         // 0xD: 44 bits
    | AbortedMarker                  // 0xE
    | Unknown                        // anything else

  /** The payload of a record, by header; payloads sit at bit 0. */
  function Classify(w: nat): (k: MdKind)
    ensures k.Unknown? <==> Header(w) in {0x0, 0x1, 0x6, 0xF}
    ensures k.PixelData? <==> Header(w) == 0x4
  {
    match Header(w)
    case 0x2 => TriggerInfo
    case 0x3 => TriggerInfo
    case 0x4 => PixelData
    case 0x5 => TimeOffset(Extract(w, 0, 32))
    case 0x7 => NewFrame
    case 0x8 => FrameStartLsb(Extract(w, 0, 32))
    case 0x9 => FrameStartMsb(Extract(w, 0, 16))
    case 0xA => FrameEndLsb(Extract(w, 0, 32))
    case 0xB => FrameEndMsb(Extract(w, 0, 16))
    case 0xC => FrameFinished(Extract(w, 0, 44))
    case 0xD => LostPixels(Extract(w, 0, 44))
    case 0xE => AbortedMarker
    case _ => Unknown
  }

  /** Every payload fits the width md.h declares for it. */
  lemma PayloadWidths(w: nat)
    ensures Classify(w).TimeOffset? ==> Classify(w).offset < 0x1_0000_0000
    ensures Classify(w).FrameStartLsb? ==> Classify(w).lsb < 0x1_0000_0000
    ensures Classify(w).FrameEndLsb? ==> Classify(w).lsb < 0x1_0000_0000
    ensures Classify(w).FrameStartMsb? ==> Classify(w).msb < 0x1_0000
    ensures Classify(w).FrameEndMsb? ==> Classify(w).msb < 0x1_0000
    ensures Classify(w).FrameFinished? ==> Classify(w).nSent < 0x1000_0000_0000
    ensures Classify(w).LostPixels? ==> Classify(w).nLost < 0x1000_0000_0000
  {
    Pow2Values();
  }

  // ---------------------------------------------------------------------
  // Pixel records (md.h lines 90-241, px.h).

  datatype Coord = Coord(x: nat, y: nat)

  /** The six pixel layouts, one per {ToA+ToT, ToA only, Event+iToT} x {fast VCO, slow}. */
  datatype Variant = FToaTotV | ToaTotV | FToaOnlyV | ToaOnlyV | FEventItotV | EventItotV

  /** A decoded pixel; the constructor names the variant it was decoded with. */
  datatype Pixel =
    | FToaTot(coord: Coord, ftoa: nat, toa: nat, tot: nat)
    | ToaTot(coord: Coord, toa: nat, hitCount: nat, tot: nat)
    | FToaOnly(coord: Coord, ftoa: nat, toa: nat)
    | ToaOnly(coord: Coord, toa: nat, hitCount: nat)
    | FEventItot(coord: Coord, hitCount: nat, eventCount: nat, integralTot: nat)
    | EventItot(coord: Coord, eventCount: nat, integralTot: nat)

  function VariantOf(p: Pixel): Variant
  {
    match p
    case FToaTot(_, _, _, _) => FToaTotV
    case ToaTot(_, _, _, _) => ToaTotV
    case FToaOnly(_, _, _) => FToaOnlyV
    case ToaOnly(_, _, _) => ToaOnlyV
    case FEventItot(_, _, _, _) => FEventItotV
    case EventItot(_, _, _) => EventItotV
  }

  /** Whether the variant's ToA field is corrected by the time offset. */
  predicate HasToa(v: Variant)
  {
    v in {FToaTotV, ToaTotV, FToaOnlyV, ToaOnlyV}
  }

  /**
   * `sizeof(katherine_px_*_t)` with the x86-64 System V alignment rules
   * (a uint64_t field is 8-aligned, a uint16_t field 2-aligned).
   */
  function PixelSize(v: Variant): (size: nat)
    ensures size >= 6
  {
    match v
    case FToaTotV => 24     // coord 0-1, ftoa 2, toa 8-15, tot 16-17, padding to 24
    case ToaTotV => 24      // coord 0-1, toa 8-15, hit_count 16, tot 18-19, padding
    case FToaOnlyV => 16    // coord 0-1, ftoa 2, toa 8-15
    case ToaOnlyV => 24     // coord 0-1, toa 8-15, hit_count 16, padding
    case FEventItotV => 8   // coord 0-1, hit_count 2, event_count 4-5, integral_tot 6-7
    case EventItotV => 6    // coord 0-1, event_count 2-3, integral_tot 4-5
  }

  /** DEFINE_PMD_PAIR_COORD: x at bits 28-35, y at bits 36-43. */
  function CoordOf(w: nat): (c: Coord)
    ensures c.x < 256 && c.y < 256
  {
    Pow2Values();
    Coord(Extract(w, 28, 8), Extract(w, 36, 8))
  }

  /** pmd_f_toa_tot_map: ftoa bits 0-3, tot 4-13, toa 14-27 plus the time offset. */
  function PmdFToaTotMap(w: nat, lastToaOffset: nat): Pixel
  {
    FToaTot(CoordOf(w), Extract(w, 0, 4), Extract(w, 14, 14) + lastToaOffset, Extract(w, 4, 10))
  }

  /** pmd_toa_tot_map: as the fast variant, with bits 0-3 read as hit_count. */
  function PmdToaTotMap(w: nat, lastToaOffset: nat): Pixel
  {
    ToaTot(CoordOf(w), Extract(w, 14, 14) + lastToaOffset, Extract(w, 0, 4), Extract(w, 4, 10))
  }

  /** pmd_f_toa_only_map: ftoa bits 0-3, toa 14-27 plus the time offset, no tot. */
  function PmdFToaOnlyMap(w: nat, lastToaOffset: nat): Pixel
  {
    FToaOnly(CoordOf(w), Extract(w, 0, 4), Extract(w, 14, 14) + lastToaOffset)
  }

  /** pmd_toa_only_map: hit_count bits 0-3, toa 14-27 plus the time offset. */
  function PmdToaOnlyMap(w: nat, lastToaOffset: nat): Pixel
  {
    ToaOnly(CoordOf(w), Extract(w, 14, 14) + lastToaOffset, Extract(w, 0, 4))
  }

  /** pmd_f_event_itot_map: hit_count 0-3, event_count 4-13, integral_tot 14-27, no offset. */
  function PmdFEventItotMap(w: nat): Pixel
  {
    FEventItot(CoordOf(w), Extract(w, 0, 4), Extract(w, 4, 10), Extract(w, 14, 14))
  }

  /** pmd_event_itot_map: event_count 4-13, integral_tot 14-27; bits 0-3 unused. */
  function PmdEventItotMap(w: nat): Pixel
  {
    EventItot(CoordOf(w), Extract(w, 4, 10), Extract(w, 14, 14))
  }

  /**
   * Every field of a pixel fits its bit width; a corrected ToA lies in
   * [offset, offset + 2^14).
   */
  predicate PixelInRange(p: Pixel, lastToaOffset: nat)
  {
    && p.coord.x < 256 && p.coord.y < 256
    && (p.FToaTot? || p.FToaOnly? ==> p.ftoa < 16)
    && (p.ToaTot? || p.ToaOnly? || p.FEventItot? ==> p.hitCount < 16)
    && (p.FToaTot? || p.ToaTot? ==> p.tot < 1024)
    && (p.FEventItot? || p.EventItot? ==> p.eventCount < 1024 && p.integralTot < 16384)
    && (p.FToaTot? || p.ToaTot? || p.FToaOnly? || p.ToaOnly? ==>
          lastToaOffset <= p.toa < lastToaOffset + 16384)
  }

  /** The decoder the acquisition selected, applied to one record. */
  function Decode(v: Variant, w: nat, lastToaOffset: nat): (p: Pixel)
    ensures VariantOf(p) == v
    ensures PixelInRange(p, lastToaOffset)
  {
    Pow2Values();
    match v
    case FToaTotV => PmdFToaTotMap(w, lastToaOffset)
    case ToaTotV => PmdToaTotMap(w, lastToaOffset)
    case FToaOnlyV => PmdFToaOnlyMap(w, lastToaOffset)
    case ToaOnlyV => PmdToaOnlyMap(w, lastToaOffset)
    case FEventItotV => PmdFEventItotMap(w)
    case EventItotV => PmdEventItotMap(w)
  }

  // ---------------------------------------------------------------------
  // Properties of the decoders.

  /** Event+iToT decoders ignore the time offset; the other four add it to the raw ToA. */
  lemma OffsetCorrection(v: Variant, w: nat, off1: nat, off2: nat)
    ensures !HasToa(v) ==> Decode(v, w, off1) == Decode(v, w, off2)
    ensures HasToa(v) ==> Decode(v, w, off2).toa == Decode(v, w, off1).toa - off1 + off2
    ensures HasToa(v) ==> Decode(v, w, off2) == Decode(v, w, off1).(toa := Decode(v, w, off1).toa - off1 + off2)
  {
  }

  /** All fields, header included, lie below bit 48: the two bytes after a record do not matter. */
  lemma RecordLocal(w: nat, v: Variant, lastToaOffset: nat)
    ensures Header(w % Pow2(48)) == Header(w)
    ensures Classify(w % Pow2(48)) == Classify(w)
    ensures Decode(v, w % Pow2(48), lastToaOffset) == Decode(v, w, lastToaOffset)
  {
    var u := w % Pow2(48);
    ExtractBelow(w, 44, 4, 48);
    ExtractBelow(w, 0, 16, 48);
    ExtractBelow(w, 0, 32, 48);
    ExtractBelow(w, 0, 44, 48);
    ClassifyByPayload(u, w);
    PixelFieldsBelow(w);
    DecodeByFields(u, w, v, lastToaOffset);
  }

  lemma PixelFieldsBelow(w: nat)
    ensures Extract(w % Pow2(48), 0, 4) == Extract(w, 0, 4)
    ensures Extract(w % Pow2(48), 4, 10) == Extract(w, 4, 10)
    ensures Extract(w % Pow2(48), 14, 14) == Extract(w, 14, 14)
    ensures Extract(w % Pow2(48), 28, 8) == Extract(w, 28, 8)
    ensures Extract(w % Pow2(48), 36, 8) == Extract(w, 36, 8)
  {
    ExtractBelow(w, 0, 4, 48);
    ExtractBelow(w, 4, 10, 48);
    ExtractBelow(w, 14, 14, 48);
    ExtractBelow(w, 28, 8, 48);
    ExtractBelow(w, 36, 8, 48);
  }

  /** Two records with the same pixel fields decode alike. */
  lemma DecodeByFields(u: nat, w: nat, v: Variant, lastToaOffset: nat)
    requires Extract(u, 0, 4) == Extract(w, 0, 4)
    requires Extract(u, 4, 10) == Extract(w, 4, 10)
    requires Extract(u, 14, 14) == Extract(w, 14, 14)
    requires Extract(u, 28, 8) == Extract(w, 28, 8)
    requires Extract(u, 36, 8) == Extract(w, 36, 8)
    ensures Decode(v, u, lastToaOffset) == Decode(v, w, lastToaOffset)
  {
  }

  /** Two records with the same header and the same payload fields are classified alike. */
  lemma ClassifyByPayload(u: nat, w: nat)
    requires Header(u) == Header(w)
    requires Extract(u, 0, 16) == Extract(w, 0, 16)
    requires Extract(u, 0, 32) == Extract(w, 0, 32)
    requires Extract(u, 0, 44) == Extract(w, 0, 44)
    ensures Classify(u) == Classify(w)
  {
  }

  // ---------------------------------------------------------------------
  // Building records: the inverse of the decoders.

  /**
   * The 48-bit pixel record with the given fields in bits 0-3, 4-13, 14-27,
   * 28-35 and 36-43 and header 0x4.
   */
  function PixelRecord(low: nat, mid: nat, toa: nat, x: nat, y: nat): nat
  {
    low + 0x10 * mid + 0x4000 * toa + 0x1000_0000 * x + 0x10_0000_0000 * y + 0x1000_0000_0000 * 4
  }

  /** Each field of PixelRecord is read back by EXTRACT at md.h's position and width. */
  lemma PixelRecordFields(low: nat, mid: nat, toa: nat, x: nat, y: nat)
    requires low < 16 && mid < 1024 && toa < 16384 && x < 256 && y < 256
    ensures PixelRecord(low, mid, toa, x, y) < Pow2(48)
    ensures Header(PixelRecord(low, mid, toa, x, y)) == 4
    ensures Extract(PixelRecord(low, mid, toa, x, y), 0, 4) == low
    ensures Extract(PixelRecord(low, mid, toa, x, y), 4, 10) == mid
    ensures Extract(PixelRecord(low, mid, toa, x, y), 14, 14) == toa
    ensures CoordOf(PixelRecord(low, mid, toa, x, y)) == Coord(x, y)
  {
    Pow2Values();
    var r := PixelRecord(low, mid, toa, x, y);
    ExtractAt(r, 0, low, mid + 0x400 * toa + 0x100_0000 * x + 0x1_0000_0000 * y + 0x100_0000_0000 * 4, 0, 4, 1, 0x10);
    ExtractAt(r, low, mid, toa + 0x4000 * x + 0x40_0000 * y + 0x4000_0000 * 4, 4, 10, 0x10, 0x400);
    ExtractAt(r, low + 0x10 * mid, toa, x + 0x100 * y + 0x1_0000 * 4, 14, 14, 0x4000, 0x4000);
    ExtractAt(r, low + 0x10 * mid + 0x4000 * toa, x, y + 0x100 * 4, 28, 8, 0x1000_0000, 0x100);
    ExtractAt(r, low + 0x10 * mid + 0x4000 * toa + 0x1000_0000 * x, y, 4, 36, 8, 0x10_0000_0000, 0x100);
    ExtractAt(r, low + 0x10 * mid + 0x4000 * toa + 0x1000_0000 * x + 0x10_0000_0000 * y, 4, 0, 44, 4,
              0x1000_0000_0000, 0x10);
  }

  /**
   * The record a detector sends for pixel p while the time offset is
   * lastToaOffset (bits 0-3 of an Event+iToT slow record are sent as zero).
   */
  function EncodePixel(p: Pixel, lastToaOffset: nat): nat
    requires PixelInRange(p, lastToaOffset)
  {
    match p
    case FToaTot(c, ftoa, toa, tot) => PixelRecord(ftoa, tot, toa - lastToaOffset, c.x, c.y)
    case ToaTot(c, toa, hitCount, tot) => PixelRecord(hitCount, tot, toa - lastToaOffset, c.x, c.y)
    case FToaOnly(c, ftoa, toa) => PixelRecord(ftoa, 0, toa - lastToaOffset, c.x, c.y)
    case ToaOnly(c, toa, hitCount) => PixelRecord(hitCount, 0, toa - lastToaOffset, c.x, c.y)
    case FEventItot(c, hitCount, eventCount, integralTot) => PixelRecord(hitCount, eventCount, integralTot, c.x, c.y)
    case EventItot(c, eventCount, integralTot) => PixelRecord(0, eventCount, integralTot, c.x, c.y)
  }

  /**
   * Round trip: every in-range pixel of every variant is decoded, with the
   * same time offset, from the record that encodes it, and that record is a
   * 48-bit pixel record.
   */
  lemma DecodeEncode(p: Pixel, lastToaOffset: nat)
    requires PixelInRange(p, lastToaOffset)
    ensures EncodePixel(p, lastToaOffset) < Pow2(48)
    ensures Classify(EncodePixel(p, lastToaOffset)) == PixelData
    ensures Decode(VariantOf(p), EncodePixel(p, lastToaOffset), lastToaOffset) == p
  {
    var w := EncodePixel(p, lastToaOffset);
    var c := p.coord;
    var low := if p.FToaTot? || p.FToaOnly? then p.ftoa
               else if p.ToaTot? || p.ToaOnly? || p.FEventItot? then p.hitCount
               else 0;
    var mid := if p.FToaTot? || p.ToaTot? then p.tot
               else if p.FEventItot? || p.EventItot? then p.eventCount
               else 0;
    var t := if p.FEventItot? || p.EventItot? then p.integralTot else p.toa - lastToaOffset;
    assert w == PixelRecord(low, mid, t, c.x, c.y);
    PixelRecordFields(low, mid, t, c.x, c.y);
    ClassifyPixelData(w);
  }

  lemma ClassifyPixelData(w: nat)
    requires Header(w) == 4
    ensures Classify(w) == PixelData
  {
  }

}
