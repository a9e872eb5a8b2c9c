/**
 * The shift/mask primitives of c/include/katherine/bitfields.h.
 *
 * Values are unbounded naturals.  A right shift by `s` is division by 2^s and
 * an AND with the low mask MASK(n) = 2^n - 1 keeps the remainder modulo 2^n,
 * so EXTRACT(v, s, n) is (v / 2^s) % 2^n.
 */
module Bits {

  /** 2^n. */
  function Pow2(n: nat): (r: nat)
    ensures r >= 1
  {
    if n == 0 then 1 else 2 * Pow2(n - 1)
  }

  lemma {:induction false} Pow2Add(a: nat, b: nat)
    ensures Pow2(a + b) == Pow2(a) * Pow2(b)
  {
    if b > 0 {
      Pow2Add(a, b - 1);
      assert Pow2(a + b) == 2 * Pow2(a + b - 1);
    }
  }

  lemma {:induction false} Pow2Monotone(a: nat, b: nat)
    requires a <= b
    ensures Pow2(a) <= Pow2(b)
  {
    if a < b {
      Pow2Monotone(a, b - 1);
    }
  }

  /**
   * MASK(n) = (1ul << n) - 1: n one-bits.  `1ul` is a 64-bit unsigned long,
   * so the shift is only defined for n < 64; every mask in the library is at
   * most 44 bits wide.  (The header comment's example gives MASK(8) as 0xF;
   * the expression gives 0xFF, see MaskExamples.)
   */
  function Mask(n: nat): (r: nat)
    requires n < 64
    ensures r < Pow2(n) && r + 1 == Pow2(n)
  {
    Pow2(n) - 1
  }

  /** The powers of two that the field layouts use. */
  lemma Pow2Values()
    ensures Pow2(4) == 0x10 && Pow2(8) == 0x100 && Pow2(10) == 0x400 && Pow2(12) == 0x1000
    ensures Pow2(14) == 0x4000 && Pow2(16) == 0x1_0000 && Pow2(20) == 0x10_0000
    ensures Pow2(24) == 0x100_0000 && Pow2(28) == 0x1000_0000 && Pow2(32) == 0x1_0000_0000
    ensures Pow2(36) == 0x10_0000_0000 && Pow2(40) == 0x100_0000_0000
    ensures Pow2(44) == 0x1000_0000_0000 && Pow2(48) == 0x1_0000_0000_0000
    ensures Pow2(56) == 0x100_0000_0000_0000 && Pow2(64) == 0x1_0000_0000_0000_0000
  {
    assert Pow2(4) == 0x10;
    Pow2Add(4, 4);
    Pow2Add(8, 2);
    Pow2Add(8, 4);
    Pow2Add(8, 6);
    Pow2Add(8, 8);
    Pow2Add(16, 4);
    Pow2Add(16, 8);
    Pow2Add(16, 12);
    Pow2Add(16, 16);
    Pow2Add(32, 4);
    Pow2Add(32, 8);
    Pow2Add(32, 12);
    Pow2Add(32, 16);
    Pow2Add(32, 24);
    Pow2Add(32, 32);
  }

  /** MASK(8) is 0xFF, eight one-bits, not the 0xF of the header comment. */
  lemma MaskExamples()
    ensures Mask(4) == 0xF && Mask(8) == 0xFF && Mask(10) == 0x3FF && Mask(14) == 0x3FFF
    ensures Mask(16) == 0xFFFF && Mask(32) == 0xFFFF_FFFF && Mask(44) == 0xFFF_FFFF_FFFF
  {
    Pow2Values();
  }

  /** EXTRACT(val, bitfield, name): `(val >> start) & MASK(width)`. */
  function Extract(v: nat, start: nat, width: nat): (r: nat)
    requires width < 64
    ensures r < Pow2(width)
  {
    (v / Pow2(start)) % (Mask(width) + 1)
  }

  /** EXTRACT is the quotient by 2^start reduced modulo 2^width. */
  lemma ExtractIs(v: nat, start: nat, width: nat)
    requires width < 64
    ensures Extract(v, start, width) == (v / Pow2(start)) % Pow2(width)
  {
  }

  // ---------------------------------------------------------------------
  // Arithmetic facts used by the field lemmas.

  lemma MulNonneg(a: nat, b: nat)
    ensures a * b >= 0
  {
  }

  /** Division with remainder is unique. */
  lemma DivModUnique(a: int, d: int, q: int, r: int)
    requires d > 0 && 0 <= r < d && a == q * d + r
    ensures a / d == q && a % d == r
  {
    var q', r' := a / d, a % d;
    assert (q - q') * d == r' - r;
    MulSmall(q - q', d);
  }

  lemma MulSmall(k: int, d: int)
    requires d > 0 && -d < k * d < d
    ensures k == 0
  {
  }

  lemma MulLessCancel(k: int, b: int, c: int)
    requires b > 0 && k * b < c * b
    ensures k < c
  {
  }

  /** Adding a multiple of p does not change the remainder modulo p. */
  lemma ShiftedMod(v: nat, p: nat, high: nat)
    requires p > 0
    ensures (v + high * p) % p == v % p
  {
    assert v == (v / p) * p + v % p;
    assert v + high * p == (v / p + high) * p + v % p;
    DivModUnique(v + high * p, p, v / p + high, v % p);
  }

  lemma ModOfMod(x: nat, c: nat)
    requires x < c
    ensures x % c == x
  {
  }

  /** Reducing modulo b*c before dividing by b is reducing the quotient modulo c. */
  lemma DivOfMod(v: nat, b: nat, c: nat)
    requires b > 0 && c > 0
    ensures (v % (b * c)) / b == (v / b) % c
  {
    var q, r := v / (b * c), v % (b * c);
    var rq, rr := r / b, r % b;
    assert r == rq * b + rr;
    MulLessCancel(rq, b, c);
    assert v == (q * c + rq) * b + rr by {
      assert q * (b * c) == (q * c) * b;
    }
    DivModUnique(v, b, q * c + rq, rr);
    DivModUnique(v / b, c, q, rq);
  }

  /** The field of low + b*(f + c*high) at divisor b, modulo c, is f. */
  lemma FieldOf(low: nat, f: nat, high: nat, b: nat, c: nat)
    requires low < b && f < c
    ensures ((low + b * (f + c * high)) / b) % c == f
  {
    var x := f + c * high;
    DivModUnique(low + b * x, b, x, low);
    DivModUnique(x, c, high, f);
  }

  // ---------------------------------------------------------------------
  // Properties of EXTRACT.

  /** Cutting the value at bit start+width first does not change the field. */
  lemma ExtractTruncate(v: nat, start: nat, width: nat)
    requires width < 64
    ensures Extract(v, start, width) == Extract(v % Pow2(start + width), start, width)
  {
    var b, c := Pow2(start), Pow2(width);
    Pow2Add(start, width);
    MulNonneg(b, c);
    var p: nat := b * c;
    var m: nat := v % p;
    DivOfMod(v, b, c);
    ModOfMod((v / b) % c, c);
    ExtractIs(v, start, width);
    ExtractIs(m, start, width);
  }

  /**
   * EXTRACT only sees bits below start+width: two values that agree on those
   * bits have the same field.
   */
  lemma ExtractLocal(v: nat, w: nat, start: nat, width: nat)
    requires width < 64 && v % Pow2(start + width) == w % Pow2(start + width)
    ensures Extract(v, start, width) == Extract(w, start, width)
  {
    ExtractTruncate(v, start, width);
    ExtractTruncate(w, start, width);
  }

  /** Reducing modulo a*b and then modulo a is reducing modulo a. */
  lemma ModMod(v: nat, a: nat, b: nat)
    requires a > 0 && b > 0
    ensures (v % (a * b)) % a == v % a
  {
    var q, r := v / (a * b), v % (a * b);
    assert v == (q * b) * a + r by {
      assert q * (a * b) == (q * b) * a;
    }
    var rq, rr := r / a, r % a;
    assert r == rq * a + rr;
    assert v == (q * b + rq) * a + rr;
    DivModUnique(v, a, q * b + rq, rr);
  }

  /** A field that lies below bit k is the same in v and in v cut at bit k. */
  lemma ExtractBelow(v: nat, start: nat, width: nat, k: nat)
    requires width < 64 && start + width <= k
    ensures Extract(v % Pow2(k), start, width) == Extract(v, start, width)
  {
    var a, b := Pow2(start + width), Pow2(k - (start + width));
    Pow2Add(start + width, k - (start + width));
    ModMod(v, a, b);
    ExtractLocal(v % Pow2(k), v, start, width);
  }

  /**
   * Round trip: a field value f < 2^width placed at bit `start`, with any
   * bits `low` below it and any bits `high` above it, is extracted unchanged.
   */
  lemma ExtractInsert(low: nat, f: nat, high: nat, start: nat, width: nat)
    requires width < 64 && low < Pow2(start) && f < Pow2(width)
    ensures Extract(low + Pow2(start) * (f + Pow2(width) * high), start, width) == f
  {
    var b, c := Pow2(start), Pow2(width);
    MulNonneg(c, high);
    MulNonneg(b, f + c * high);
    var e: nat := low + b * (f + c * high);
    FieldOf(low, f, high, b, c);
    ExtractIs(e, start, width);
  }

  /** ExtractInsert with the two powers of two given as numbers. */
  lemma ExtractAt(r: nat, low: nat, f: nat, high: nat, start: nat, width: nat, b: nat, c: nat)
    requires width < 64 && b == Pow2(start) && c == Pow2(width)
    requires low < b && f < c && r == low + b * (f + c * high)
    ensures Extract(r, start, width) == f
  {
    ExtractInsert(low, f, high, start, width);
  }

  /** A field of a value below 2^start is zero. */
  lemma ExtractAbove(v: nat, start: nat, width: nat)
    requires width < 64 && v < Pow2(start)
    ensures Extract(v, start, width) == 0
  {
    DivModUnique(v, Pow2(start), 0, v);
  }

  // ---------------------------------------------------------------------
  // Little-endian byte sequences (the in-memory layout read through a
  // `uint64_t *` or `int *` on a little-endian host).

  type Byte = b: int | 0 <= b < 256

  /** The little-endian value of a byte sequence. */
  function LittleEndian(bytes: seq<Byte>): (r: nat)
    ensures r < Pow2(8 * |bytes|)
  {
    if bytes == [] then 0
    else
      var rest := LittleEndian(bytes[1..]);
      assert Pow2(8 * |bytes|) == 256 * Pow2(8 * (|bytes| - 1)) by {
        Pow2Add(8, 8 * (|bytes| - 1));
      }
      bytes[0] + 256 * rest
  }

  /** One more low byte in front of a value, cut at 8 more bits. */
  lemma ByteConsMod(x: nat, rest: nat, p: nat)
    requires x < 256 && p > 0
    ensures (x + 256 * rest) % (256 * p) == x + 256 * (rest % p)
  {
    var q, r := rest / p, rest % p;
    assert rest == q * p + r;
    assert x + 256 * rest == q * (256 * p) + (x + 256 * r);
    assert x + 256 * r < 256 * p by {
      assert r <= p - 1;
    }
    DivModUnique(x + 256 * rest, 256 * p, q, x + 256 * r);
  }

  /** The value of a prefix is the value of the whole cut at that many bytes. */
  lemma {:induction false} LittleEndianPrefix(bytes: seq<Byte>, k: nat)
    requires k <= |bytes|
    ensures LittleEndian(bytes[..k]) == LittleEndian(bytes) % Pow2(8 * k)
  {
    if k == 0 {
      assert bytes[..0] == [];
    } else {
      LittleEndianPrefix(bytes[1..], k - 1);
      assert bytes[..k][1..] == bytes[1..][..k - 1];
      var rest := LittleEndian(bytes[1..]);
      var p := Pow2(8 * (k - 1));
      Pow2Add(8, 8 * (k - 1));
      assert Pow2(8) == 256;
      ByteConsMod(bytes[0], rest, p);
    }
  }
}
