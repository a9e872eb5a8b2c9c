/**
 * Decimal text: the `%d` conversion of printf/sprintf and the stream
 * insertion of an `int`, and the two parsers the address-range examples use,
 * C's `atoi` and C++'s `std::stoi`.  Both parsers skip leading white space,
 * take one optional sign and then the longest run of decimal digits; they
 * differ only when there is no digit: `atoi` gives 0 and `stoi` throws
 * `std::invalid_argument` (None here).  Values are unbounded: the overflow
 * behaviour of both (undefined for `atoi`, `std::out_of_range` for `stoi`)
 * is not part of this model.
 */
module Decimal {
  import opened Wrappers

  predicate IsDigit(c: char)
  {
    '0' <= c <= '9'
  }

  /** The characters C's isspace accepts in the "C" locale. */
  predicate IsSpace(c: char)
  {
    c == ' ' || c == '\t' || c == '\n' || c == '\U{000B}' || c == '\U{000C}' || c == '\r'
  }

  predicate AllDigits(s: string)
  {
    forall i :: 0 <= i < |s| ==> IsDigit(s[i])
  }

  function DigitValue(c: char): (d: nat)
    requires IsDigit(c)
    ensures d < 10
  {
    (c - '0') as nat
  }

  function DigitChar(d: nat): (c: char)
    requires d < 10
    ensures IsDigit(c) && DigitValue(c) == d
  {
    ('0' as int + d) as char
  }

  /** The decimal digits of n, most significant first, without leading zeros. */
  function Digits(n: nat): (s: string)
    ensures 1 <= |s| && AllDigits(s)
    ensures s[0] == '0' ==> n == 0
    decreases n
  {
    if n < 10 then [DigitChar(n)] else Digits(n / 10) + [DigitChar(n % 10)]
  }

  /** `%d` of an int: a minus sign for negative values, then the digits. */
  function FormatInt(i: int): (s: string)
    ensures 1 <= |s|
    ensures IsDigit(s[0]) <==> i >= 0
  {
    if i < 0 then "-" + Digits(-i) else Digits(i)
  }

  /** The value of a string of digits. */
  function DigitsValue(s: string): nat
    requires AllDigits(s)
    decreases |s|
  {
    if s == [] then 0 else 10 * DigitsValue(s[..|s| - 1]) + DigitValue(s[|s| - 1])
  }

  /** The length of the run of digits at the start of s. */
  function LeadingDigits(s: string): (k: nat)
    ensures k <= |s| && AllDigits(s[..k])
    ensures k < |s| ==> !IsDigit(s[k])
  {
    if s == [] || !IsDigit(s[0]) then 0
    else
      var k := 1 + LeadingDigits(s[1..]);
      assert s[..k] == [s[0]] + s[1..][..k - 1];
      k
  }

  /** The length of the white space at the start of s. */
  function LeadingSpace(s: string): (k: nat)
    ensures k <= |s|
    ensures k < |s| ==> !IsSpace(s[k])
  {
    if s == [] || !IsSpace(s[0]) then 0 else 1 + LeadingSpace(s[1..])
  }

  /** What both parsers read: the sign and the digit run after the white space. */
  datatype Scan = Scan(negative: bool, digits: string)

  function ScanInt(s: string): (r: Scan)
    ensures AllDigits(r.digits)
  {
    var t := s[LeadingSpace(s)..];
    var signed := |t| > 0 && (t[0] == '-' || t[0] == '+');
    var u := if signed then t[1..] else t;
    Scan(signed && t[0] == '-', u[..LeadingDigits(u)])
  }

  /** C's atoi: 0 when there is no digit to read. */
  function Atoi(s: string): int
  {
    var r := ScanInt(s);
    var v: int := DigitsValue(r.digits);
    if r.negative then -v else v
  }

  /** std::stoi: None (std::invalid_argument) when there is no digit to read. */
  function Stoi(s: string): Option<int>
  {
    var r := ScanInt(s);
    if r.digits == [] then None
    else
      var v: int := DigitsValue(r.digits);
      Some(if r.negative then -v else v)
  }

  // ---------------------------------------------------------------------
  // Round trips and the relation between the two parsers.

  lemma {:induction false} DigitsValueOf(n: nat)
    ensures DigitsValue(Digits(n)) == n
    decreases n
  {
    if n >= 10 {
      DigitsValueOf(n / 10);
      var s := Digits(n);
      assert s[..|s| - 1] == Digits(n / 10);
    }
  }

  /** A digit run followed by a non-digit (or nothing) is read up to its end. */
  lemma {:induction false} LeadingDigitsOf(d: string, rest: string)
    requires AllDigits(d)
    requires rest == [] || !IsDigit(rest[0])
    ensures LeadingDigits(d + rest) == |d|
    decreases |d|
  {
    if d != [] {
      assert (d + rest)[1..] == d[1..] + rest;
      LeadingDigitsOf(d[1..], rest);
    } else {
      assert d + rest == rest;
    }
  }

  /** The decimal text of n followed by anything that is not a digit reads back as n. */
  lemma DigitsRead(n: nat, rest: string)
    requires rest == [] || !IsDigit(rest[0])
    ensures var s := Digits(n) + rest; (s[..LeadingDigits(s)]) == Digits(n)
  {
    LeadingDigitsOf(Digits(n), rest);
  }

  /** atoi reads back what `%d` wrote, when the text is not followed by a digit. */
  lemma AtoiFormat(i: int, rest: string)
    requires rest == [] || !IsDigit(rest[0])
    ensures Atoi(FormatInt(i) + rest) == i
    ensures Stoi(FormatInt(i) + rest) == Some(i)
  {
    var n: nat := if i < 0 then -i else i;
    ScanFormat(i, rest);
    DigitsValueOf(n);
  }

  /** Both parsers see the sign and the digits `%d` wrote. */
  lemma ScanFormat(i: int, rest: string)
    requires rest == [] || !IsDigit(rest[0])
    ensures ScanInt(FormatInt(i) + rest) == Scan(i < 0, Digits(if i < 0 then -i else i))
  {
    if i < 0 {
      assert FormatInt(i) + rest == "-" + (Digits(-i) + rest);
      ScanNegative(-i, rest);
    } else {
      ScanDigits(i, rest);
    }
  }

  lemma ScanDigits(n: nat, rest: string)
    requires rest == [] || !IsDigit(rest[0])
    ensures ScanInt(Digits(n) + rest) == Scan(false, Digits(n))
  {
    var s := Digits(n) + rest;
    assert IsDigit(s[0]) && !IsSpace(s[0]);
    assert s[LeadingSpace(s)..] == s;
    DigitsRead(n, rest);
  }

  lemma ScanNegative(n: nat, rest: string)
    requires rest == [] || !IsDigit(rest[0])
    ensures ScanInt("-" + (Digits(n) + rest)) == Scan(true, Digits(n))
  {
    var s := "-" + (Digits(n) + rest);
    assert !IsSpace(s[0]);
    assert s[LeadingSpace(s)..] == s;
    assert s[1..] == Digits(n) + rest;
    DigitsRead(n, rest);
  }

  /** The two parsers agree whenever stoi succeeds, and atoi gives 0 whenever stoi throws. */
  lemma AtoiStoi(s: string)
    ensures Stoi(s).Some? ==> Atoi(s) == Stoi(s).value
    ensures Stoi(s).None? ==> Atoi(s) == 0
  {
    if ScanInt(s).digits == [] {
      assert DigitsValue(ScanInt(s).digits) == 0;
    }
  }

  /** Short numbers have short texts: n < 10^k needs at most k digits (k >= 1). */
  lemma {:induction false} DigitsLength(n: nat, k: nat, p: nat)
    requires k >= 1 && p == Pow10(k) && n < p
    ensures |Digits(n)| <= k
    decreases k
  {
    if n >= 10 {
      assert k >= 2 && n / 10 < Pow10(k - 1);
      DigitsLength(n / 10, k - 1, Pow10(k - 1));
    }
  }

  function Pow10(k: nat): (p: nat)
    ensures p >= 1
  {
    if k == 0 then 1 else 10 * Pow10(k - 1)
  }
}
