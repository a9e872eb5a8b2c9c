/**
 * c/src/crd.h: the layouts of the two 8-byte status replies (a "crd"),
 * read as one little-endian 64-bit word.  Each field is a start bit, a
 * mask width and the width of the C type EXTRACT casts it to.
 */
module Crd {
  import opened Bits

  datatype Field = Field(start: nat, width: nat, typeBits: nat)

  // readout_status_crd (lines 23-43).
  const HwType := Field(0, 8, 8)
  const HwRevision := Field(8, 8, 8)
  const HwSerialNumber := Field(16, 16, 16)
  const FwVersion := Field(32, 16, 16)

  // comm_status_crd (lines 46-62).
  const CommLinesMask := Field(0, 8, 8)
  const TotalDataRate := Field(8, 8, 8)
  const ChipDetectedFlag := Field(16, 8, 8)

  /** The fields of a layout, in order of their start bits. */
  const ReadoutStatusLayout: seq<Field> := [HwType, HwRevision, HwSerialNumber, FwVersion]
  const CommStatusLayout: seq<Field> := [CommLinesMask, TotalDataRate, ChipDetectedFlag]

  /** EXTRACT of a field. */
  function Get(v: nat, f: Field): (r: nat)
    requires f.width < 64
    ensures r < Pow2(f.width)
  {
    Extract(v, f.start, f.width)
  }

  /**
   * The fields lie side by side from bit `from`, without gaps or overlaps,
   * and each fits the type it is cast to, so the cast loses nothing.
   */
  predicate Tiles(fs: seq<Field>, from: nat)
  {
    fs == [] ||
      (&& fs[0].width <= fs[0].typeBits < 64
       && fs[0].start == from
       && Tiles(fs[1..], from + fs[0].width))
  }

  /** Where the last field of a layout that starts at `from` ends. */
  function End(fs: seq<Field>, from: nat): nat
  {
    if fs == [] then from else End(fs[1..], from + fs[0].width)
  }

  /** The readout status covers bits 0-47, the communication status bits 0-23. */
  lemma Layouts()
    ensures Tiles(ReadoutStatusLayout, 0) && End(ReadoutStatusLayout, 0) == 48
    ensures Tiles(CommStatusLayout, 0) && End(CommStatusLayout, 0) == 24
  {
    var r := ReadoutStatusLayout;
    assert r[1..] == [HwRevision, HwSerialNumber, FwVersion];
    assert r[1..][1..] == [HwSerialNumber, FwVersion];
    assert r[1..][1..][1..] == [FwVersion];
    assert [FwVersion][1..] == [];
    assert Tiles(r[1..][1..][1..], 32) && End(r[1..][1..][1..], 32) == 48;
    assert Tiles(r[1..][1..], 16) && End(r[1..][1..], 16) == 48;
    assert Tiles(r[1..], 8) && End(r[1..], 8) == 48;
    var c := CommStatusLayout;
    assert c[1..] == [TotalDataRate, ChipDetectedFlag];
    assert c[1..][1..] == [ChipDetectedFlag];
    assert [ChipDetectedFlag][1..] == [];
    assert Tiles(c[1..][1..], 16) && End(c[1..][1..], 16) == 24;
    assert Tiles(c[1..], 8) && End(c[1..], 8) == 24;
  }

  /** The bits below a+w are the bits below a and, above them, the field at a of width w. */
  lemma ModSplit(v: nat, a: nat, w: nat)
    requires w < 64
    ensures v % Pow2(a + w) == v % Pow2(a) + Pow2(a) * Extract(v, a, w)
  {
    var pa, pw := Pow2(a), Pow2(w);
    Pow2Add(a, w);
    var m := v % (pa * pw);
    DivOfMod(v, pa, pw);
    ModMod(v, pa, pw);
    assert m == pa * (m / pa) + m % pa;
    ExtractIs(v, a, w);
  }

  /**
   * A word cut at the end of a layout is the sum of its tiled fields, each
   * at its start bit: the fields of a layout determine its bits completely.
   */
  lemma {:induction false} TiledSum(v: nat, fs: seq<Field>, from: nat)
    requires Tiles(fs, from)
    ensures v % Pow2(End(fs, from)) == v % Pow2(from) + Sum(v, fs, from)
    decreases |fs|
  {
    if fs != [] {
      var f := fs[0];
      TiledSum(v, fs[1..], from + f.width);
      ModSplit(v, from, f.width);
    }
  }

  /** Each field's value at its start bit, added up. */
  function Sum(v: nat, fs: seq<Field>, from: nat): nat
    requires Tiles(fs, from)
  {
    if fs == [] then 0
    else Pow2(fs[0].start) * Get(v, fs[0]) + Sum(v, fs[1..], from + fs[0].width)
  }
}
