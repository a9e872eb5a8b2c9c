/**
 * c/src/px_config.c: loading the pixel configuration matrix.  A BMC or
 * BPC file holds one byte per pixel, 256 rows of 256; the device takes
 * 16384 32-bit words, column by column from the bottom row up, four pixels
 * to a word with the lowest of the four rows in the most significant byte.
 * The file loaders (fopen/fread) are not part of this model; the two data
 * loaders are, on the word array in place.
 */
module PxConfig {
  import opened Bits

  /** Pixels in the matrix and words in katherine_px_config_t. */
  const Pixels: nat := 65536
  const Words: nat := 16384

  // ---------------------------------------------------------------------
  // Placement (lines 73-76 and 140-146).

  /** `64 * x + (y >> 2)` with x = i % 256 and y = 255 - i / 256 (y is not negative, so `>> 2` divides by 4). */
  function Dest(i: nat): nat
    requires i < Pixels
  {
    64 * (i % 256) + (255 - i / 256) / 4
  }

  /** The byte lane of source byte i: `3 - (y % 4)`, lane 0 being the least significant byte. */
  function LaneOf(i: nat): nat
    requires i < Pixels
  {
    3 - (255 - i / 256) % 4
  }

  /** Which source byte lands in lane l of word k: row 255 - (4 * (k % 64) + 3 - l), column k / 64. */
  function Source(k: nat, l: nat): nat
    requires k < Words && l < 4
  {
    (255 - (4 * (k % 64) + 3 - l)) * 256 + k / 64
  }

  /** Every source byte lands in a lane of a word of the matrix, and Source finds it again. */
  lemma Placement(i: nat)
    requires i < Pixels
    ensures Dest(i) < Words && LaneOf(i) < 4
    ensures Source(Dest(i), LaneOf(i)) == i
  {
    var q, r := i / 256, i % 256;
    var y := 255 - q;
    var a, b := y / 4, y % 4;
    var k := 64 * r + a;
    assert k == Dest(i);
    DivModUnique(k, 64, r, a);
    assert 4 * (k % 64) + 3 - (3 - b) == y;
  }

  /** Every lane of every word receives a source byte. */
  lemma SourceBound(k: nat, l: nat)
    requires k < Words && l < 4
    ensures Source(k, l) < Pixels
  {
  }

  /** Every lane of every word receives a source byte, and that byte is placed there. */
  lemma SourceOf(k: nat, l: nat)
    requires k < Words && l < 4
    ensures Source(k, l) < Pixels
    ensures Dest(Source(k, l)) == k && LaneOf(Source(k, l)) == l
  {
    var a, r := k % 64, k / 64;
    var y := 4 * a + 3 - l;
    var q := 255 - y;
    var i := q * 256 + r;
    assert i == Source(k, l);
    DivModUnique(i, 256, q, r);
    DivModUnique(y, 4, a, 3 - l);
  }

  /** So different source bytes never share a lane: the `|=` never mixes two pixels. */
  lemma PlacementInjective(i: nat, j: nat)
    requires i < Pixels && j < Pixels && i != j
    ensures Dest(i) != Dest(j) || LaneOf(i) != LaneOf(j)
  {
    Placement(i);
    Placement(j);
  }

  /** `(uint32_t) (b << (8 * l))`: byte b in lane l of a word. */
  function Place(b: bv8, l: nat): bv32
    requires l < 4
  {
    var w := b as bv32;
    if l == 0 then w else if l == 1 then w << 8 else if l == 2 then w << 16 else w << 24
  }

  /** Lane l of a word. */
  function Lane(w: bv32, l: nat): bv8
    requires l < 4
  {
    (if l == 0 then w & 0xFF
     else if l == 1 then (w >> 8) & 0xFF
     else if l == 2 then (w >> 16) & 0xFF
     else (w >> 24) & 0xFF) as bv8
  }

  // ---------------------------------------------------------------------
  // The BPC byte (lines 137 and 143).

  /** `reverse_array`: entry n is n with its four bits in reverse order. */
  function ReverseArray(n: bv8): bv8
    requires n < 16
  {
    if n == 0 then 0 else if n == 1 then 8 else if n == 2 then 4 else if n == 3 then 12
    else if n == 4 then 2 else if n == 5 then 10 else if n == 6 then 6 else if n == 7 then 14
    else if n == 8 then 1 else if n == 9 then 9 else if n == 10 then 5 else if n == 11 then 13
    else if n == 12 then 3 else if n == 13 then 11 else if n == 14 then 7 else 15
  }

  /** Four-bit reversal, bit by bit. */
  function Rev4(n: bv8): bv8
  {
    ((n & 1) << 3) | ((n & 2) << 1) | ((n & 4) >> 1) | ((n & 8) >> 3)
  }

  /** The table is the four-bit reversal, which undoes itself. */
  lemma ReverseArrayIsRev4(n: bv8)
    requires n < 16
    ensures ReverseArray(n) == Rev4(n) && ReverseArray(n) < 16
    ensures ReverseArray(ReverseArray(n)) == n
  {
  }

  /** Line 143: bits 0 and 5 kept, bits 1-4 reversed, bits 6 and 7 dropped. */
  function BpcByte(b: bv8): (v: bv8)
    ensures v & 0x21 == b & 0x21
    ensures (v & 0x1E) >> 1 == Rev4((b & 0x1E) >> 1)
    ensures v & 0xC0 == 0
  {
    (b & 0x21) | (ReverseArray((b & 0x1E) >> 1) << 1)
  }

  /** Applying the BPC transform twice leaves the six low bits: it is an involution on them. */
  lemma BpcByteTwice(b: bv8)
    ensures BpcByte(BpcByte(b)) == b & 0x3F
  {
    ReverseArrayIsRev4((b & 0x1E) >> 1);
  }

  // ---------------------------------------------------------------------
  // What the loaders compute.

  /** The byte the loader places for source byte i: as read (BMC) or transformed (BPC). */
  function Pixel(src: seq<bv8>, i: nat, bpc: bool): bv8
    requires i < |src|
  {
    if bpc then BpcByte(src[i]) else src[i]
  }

  /** A word of four lane bytes, lane 0 the least significant. */
  function Word4(b0: bv8, b1: bv8, b2: bv8, b3: bv8): bv32
  {
    Place(b0, 0) | Place(b1, 1) | Place(b2, 2) | Place(b3, 3)
  }

  /** The four lanes of a word of four bytes are the bytes. */
  lemma LanesOf(b0: bv8, b1: bv8, b2: bv8, b3: bv8)
    ensures var w := Word4(b0, b1, b2, b3);
      Lane(w, 0) == b0 && Lane(w, 1) == b1 && Lane(w, 2) == b2 && Lane(w, 3) == b3
  {
  }

  /** Word k of the loaded matrix: the four pixels placed in it. */
  function Transposed(src: seq<bv8>, k: nat, bpc: bool): bv32
    requires |src| == Pixels && k < Words
  {
    SourceBound(k, 0);
    SourceBound(k, 1);
    SourceBound(k, 2);
    SourceBound(k, 3);
    Word4(Pixel(src, Source(k, 0), bpc), Pixel(src, Source(k, 1), bpc),
      Pixel(src, Source(k, 2), bpc), Pixel(src, Source(k, 3), bpc))
  }

  /** Inverse: lane l of word k holds the pixel Source(k, l). */
  lemma TransposedLane(src: seq<bv8>, k: nat, l: nat, bpc: bool)
    requires |src| == Pixels && k < Words && l < 4
    ensures Source(k, l) < Pixels && Lane(Transposed(src, k, bpc), l) == Pixel(src, Source(k, l), bpc)
  {
    SourceBound(k, 0);
    SourceBound(k, 1);
    SourceBound(k, 2);
    SourceBound(k, 3);
    var p0, p1 := Pixel(src, Source(k, 0), bpc), Pixel(src, Source(k, 1), bpc);
    var p2, p3 := Pixel(src, Source(k, 2), bpc), Pixel(src, Source(k, 3), bpc);
    assert Transposed(src, k, bpc) == Word4(p0, p1, p2, p3);
    LanesOf(p0, p1, p2, p3);
    if l == 0 {
      assert Lane(Word4(p0, p1, p2, p3), 0) == p0;
    } else if l == 1 {
      assert Lane(Word4(p0, p1, p2, p3), 1) == p1;
    } else if l == 2 {
      assert Lane(Word4(p0, p1, p2, p3), 2) == p2;
    } else {
      assert Lane(Word4(p0, p1, p2, p3), 3) == p3;
    }
  }

  /** Forward: source byte i can be read back from its word and lane. */
  lemma TransposedPixel(src: seq<bv8>, i: nat, bpc: bool)
    requires |src| == Pixels && i < Pixels
    ensures Dest(i) < Words && LaneOf(i) < 4
    ensures Lane(Transposed(src, Dest(i), bpc), LaneOf(i)) == Pixel(src, i, bpc)
  {
    Placement(i);
    TransposedLane(src, Dest(i), LaneOf(i), bpc);
  }

  // ---------------------------------------------------------------------
  // The loop, step by step.

  /** Lane l of word k after the first n source bytes: the pixel if it has been placed, else 0. */
  function LaneByte(src: seq<bv8>, k: nat, l: nat, n: nat, bpc: bool): bv8
    requires |src| == Pixels && k < Words && l < 4
  {
    SourceBound(k, l);
    if Source(k, l) < n then Pixel(src, Source(k, l), bpc) else 0
  }

  /** Word k after the first n source bytes. */
  function Partial(src: seq<bv8>, k: nat, n: nat, bpc: bool): bv32
    requires |src| == Pixels && k < Words
  {
    Word4(LaneByte(src, k, 0, n, bpc), LaneByte(src, k, 1, n, bpc),
      LaneByte(src, k, 2, n, bpc), LaneByte(src, k, 3, n, bpc))
  }

  /** Before any byte every word is zero; after all of them every word is Transposed. */
  lemma PartialEnds(src: seq<bv8>, k: nat, bpc: bool)
    requires |src| == Pixels && k < Words
    ensures Partial(src, k, 0, bpc) == 0
    ensures Partial(src, k, Pixels, bpc) == Transposed(src, k, bpc)
  {
    SourceBound(k, 0);
    SourceBound(k, 1);
    SourceBound(k, 2);
    SourceBound(k, 3);
    assert Word4(0, 0, 0, 0) == 0;
  }

  /** Placing source byte n changes only its own word, by OR-ing it into its lane. */
  lemma PartialStep(src: seq<bv8>, k: nat, n: nat, bpc: bool)
    requires |src| == Pixels && k < Words && n < Pixels
    ensures Dest(n) < Words && LaneOf(n) < 4
    ensures Partial(src, k, n + 1, bpc) ==
      if k == Dest(n) then Partial(src, k, n, bpc) | Place(Pixel(src, n, bpc), LaneOf(n))
      else Partial(src, k, n, bpc)
  {
    Placement(n);
    if k == Dest(n) {
      StepHit(src, k, n, bpc);
    } else {
      LaneStep(src, k, 0, n, bpc);
      LaneStep(src, k, 1, n, bpc);
      LaneStep(src, k, 2, n, bpc);
      LaneStep(src, k, 3, n, bpc);
    }
  }

  /** The word that receives source byte n. */
  lemma StepHit(src: seq<bv8>, k: nat, n: nat, bpc: bool)
    requires |src| == Pixels && n < Pixels && k == Dest(n) < Words && LaneOf(n) < 4
    ensures Partial(src, k, n + 1, bpc) == Partial(src, k, n, bpc) | Place(Pixel(src, n, bpc), LaneOf(n))
  {
    var a0, a1, a2, a3 := LaneByte(src, k, 0, n, bpc), LaneByte(src, k, 1, n, bpc),
      LaneByte(src, k, 2, n, bpc), LaneByte(src, k, 3, n, bpc);
    LaneStep(src, k, 0, n, bpc);
    LaneStep(src, k, 1, n, bpc);
    LaneStep(src, k, 2, n, bpc);
    LaneStep(src, k, 3, n, bpc);
    var v := Pixel(src, n, bpc);
    if LaneOf(n) == 0 {
      SetLane0(a1, a2, a3, v);
    } else if LaneOf(n) == 1 {
      SetLane1(a0, a2, a3, v);
    } else if LaneOf(n) == 2 {
      SetLane2(a0, a1, a3, v);
    } else {
      SetLane3(a0, a1, a2, v);
    }
  }

  /** Lane l of word k gains source byte n exactly when that byte is the one placed there. */
  lemma LaneStep(src: seq<bv8>, k: nat, l: nat, n: nat, bpc: bool)
    requires |src| == Pixels && k < Words && l < 4 && n < Pixels
    ensures LaneByte(src, k, l, n + 1, bpc) ==
      if k == Dest(n) && l == LaneOf(n) then Pixel(src, n, bpc) else LaneByte(src, k, l, n, bpc)
    ensures k == Dest(n) && l == LaneOf(n) ==> LaneByte(src, k, l, n, bpc) == 0
  {
    SourceOf(k, l);
    Placement(n);
  }

  // OR-ing a byte into a lane that is still zero puts it in that lane.
  lemma SetLane0(b1: bv8, b2: bv8, b3: bv8, v: bv8)
    ensures Word4(v, b1, b2, b3) == Word4(0, b1, b2, b3) | Place(v, 0)
  {
  }

  lemma SetLane1(b0: bv8, b2: bv8, b3: bv8, v: bv8)
    ensures Word4(b0, v, b2, b3) == Word4(b0, 0, b2, b3) | Place(v, 1)
  {
  }

  lemma SetLane2(b0: bv8, b1: bv8, b3: bv8, v: bv8)
    ensures Word4(b0, b1, v, b3) == Word4(b0, b1, 0, b3) | Place(v, 2)
  {
  }

  lemma SetLane3(b0: bv8, b1: bv8, b2: bv8, v: bv8)
    ensures Word4(b0, b1, b2, v) == Word4(b0, b1, b2, 0) | Place(v, 3)
  {
  }

  /** The words after the first n passes of the loop, starting from the cleared matrix. */
  ghost function Snapshot(src: seq<bv8>, n: nat, bpc: bool): (ws: seq<bv32>)
    requires |src| == Pixels && n <= Pixels
    ensures |ws| == Words
    decreases n
  {
    if n == 0 then seq(Words, k => 0)
    else
      var ws := Snapshot(src, n - 1, bpc);
      Placement(n - 1);
      ws[Dest(n - 1) := ws[Dest(n - 1)] | Place(Pixel(src, n - 1, bpc), LaneOf(n - 1))]
  }

  /** One more pass ORs the next byte into its lane. */
  lemma SnapshotStep(src: seq<bv8>, n: nat, bpc: bool)
    requires |src| == Pixels && n < Pixels
    ensures Dest(n) < Words && LaneOf(n) < 4
    ensures Snapshot(src, n + 1, bpc) ==
      Snapshot(src, n, bpc)[Dest(n) := Snapshot(src, n, bpc)[Dest(n)] | Place(Pixel(src, n, bpc), LaneOf(n))]
  {
    Placement(n);
  }

  /** The pass for byte n, word by word, as the loop body writes it. */
  lemma Pass(src: seq<bv8>, n: nat, bpc: bool, index: int, lane: int, v: bv8)
    requires |src| == Pixels && n < Pixels
    requires index == Dest(n) && lane == LaneOf(n) && v == Pixel(src, n, bpc)
    ensures 0 <= index < Words && 0 <= lane < 4
    ensures forall k :: 0 <= k < Words ==>
      Snapshot(src, n + 1, bpc)[k] == if k == index then Snapshot(src, n, bpc)[k] | Place(v, lane) else Snapshot(src, n, bpc)[k]
  {
    SnapshotStep(src, n, bpc);
  }

  /** After n passes, word k holds exactly the pixels placed in it so far. */
  lemma {:induction false} SnapshotPartial(src: seq<bv8>, n: nat, k: nat, bpc: bool)
    requires |src| == Pixels && n <= Pixels && k < Words
    ensures Snapshot(src, n, bpc)[k] == Partial(src, k, n, bpc)
    decreases n
  {
    if n == 0 {
      PartialEnds(src, k, bpc);
    } else {
      SnapshotPartial(src, n - 1, k, bpc);
      SnapshotWord(src, n - 1, k, bpc);
    }
  }

  /** One more pass keeps word k equal to Partial. */
  lemma SnapshotWord(src: seq<bv8>, n: nat, k: nat, bpc: bool)
    requires |src| == Pixels && n < Pixels && k < Words
    requires Snapshot(src, n, bpc)[k] == Partial(src, k, n, bpc)
    ensures Snapshot(src, n + 1, bpc)[k] == Partial(src, k, n + 1, bpc)
  {
    SnapshotStep(src, n, bpc);
    PartialStep(src, k, n, bpc);
  }

  /** So the finished loop leaves the loaded matrix, whatever the words held before. */
  lemma SnapshotTransposed(src: seq<bv8>, bpc: bool)
    requires |src| == Pixels
    ensures forall k :: 0 <= k < Words ==> Snapshot(src, Pixels, bpc)[k] == Transposed(src, k, bpc)
  {
    forall k | 0 <= k < Words
      ensures Snapshot(src, Pixels, bpc)[k] == Transposed(src, k, bpc)
    {
      SnapshotPartial(src, Pixels, k, bpc);
      PartialEnds(src, k, bpc);
    }
  }

  // ---------------------------------------------------------------------
  // The loaders.

  /**
   * katherine_px_config_load_bmc_data: clear the words, then OR every source
   * byte into its lane.  The result does not depend on what the words held
   * before, and every word is Transposed.
   */
  method LoadBmcData(words: array<bv32>, src: seq<bv8>) returns (res: int)
    requires words.Length == Words && |src| == Pixels
    modifies words
    ensures res == 0
    ensures forall k :: 0 <= k < Words ==> words[k] == Transposed(src, k, false)
  {
    forall k | 0 <= k < Words {
      words[k] := 0;
    }
    for i := 0 to Pixels
      invariant forall k :: 0 <= k < Words ==> words[k] == Snapshot(src, i, false)[k]
    {
      var x := i % 256;
      var y := 255 - i / 256;
      var index := 64 * x + y / 4;
      var lane := 3 - y % 4;
      Pass(src, i, false, index, lane, src[i]);
      words[index] := words[index] | Place(src[i], lane);
    }
    SnapshotTransposed(src, false);
    return 0;
  }

  /**
   * katherine_px_config_load_bpc_data: the same placement, of each byte
   * after the BPC transform.
   */
  method LoadBpcData(words: array<bv32>, src: seq<bv8>) returns (res: int)
    requires words.Length == Words && |src| == Pixels
    modifies words
    ensures res == 0
    ensures forall k :: 0 <= k < Words ==> words[k] == Transposed(src, k, true)
  {
    forall k | 0 <= k < Words {
      words[k] := 0;
    }
    for i := 0 to Pixels
      invariant forall k :: 0 <= k < Words ==> words[k] == Snapshot(src, i, true)[k]
    {
      var y := i / 256;
      var x := i % 256;
      var val := BpcByte(src[i]);
      y := 255 - y;
      var index := 64 * x + y / 4;
      var lane := 3 - y % 4;
      Pass(src, i, true, index, lane, val);
      words[index] := words[index] | Place(val, lane);
    }
    SnapshotTransposed(src, true);
    return 0;
  }
}
