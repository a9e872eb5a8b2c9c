/**
 * cxx/examples/kfindxx.cpp: the C++ device finder.  Unlike kfind.c it
 * parses a copy of the argument (`std::string` substrings) with
 * `std::stoi`, which throws `std::invalid_argument` when a component has no
 * digit to read; parse_args counts the components it has finished and
 * aborts naming the one that failed.  The scan uses the address_source
 * class.
 */
module KFindXX {
  import opened Wrappers
  import opened Decimal
  import opened Odometer
  import opened KFind
  import opened AddressSource

  // ---------------------------------------------------------------------
  // parse_range (lines 48-61).

  /** What min is set from: the whole text, or the part before the first dash. */
  function Lower(t: string): Option<int>
  {
    match Find(t, '-')
    case None => Stoi(t)
    case Some(d) => Stoi(t[..d])
  }

  /** What max is set from: the whole text, or the part after the first dash. */
  function Upper(t: string): Option<int>
  {
    match Find(t, '-')
    case None => Stoi(t)
    case Some(d) => Stoi(t[d + 1..])
  }

  /** The range a component text stands for, or None when a stoi call throws. */
  function RangeOfXX(t: string): Option<(int, int)>
  {
    if Lower(t).Some? && Upper(t).Some? then Some((Lower(t).value, Upper(t).value)) else None
  }

  /**
   * parse_range into min[k] and max[k]; false when std::stoi throws.  With
   * a dash, min is assigned before the upper bound is read, so a failing
   * upper bound leaves min already written; without one, nothing is written
   * unless the number parses.
   */
  method ParseRange(min: array<int>, max: array<int>, k: nat, range: string) returns (ok: bool)
    requires k < min.Length && k < max.Length && min != max
    modifies min, max
    ensures ok <==> RangeOfXX(range).Some?
    ensures min[k] == if Lower(range).Some? then Lower(range).value else old(min[k])
    ensures max[k] == if ok then Upper(range).value else old(max[k])
    ensures forall j :: 0 <= j < min.Length && j != k ==> min[j] == old(min[j])
    ensures forall j :: 0 <= j < max.Length && j != k ==> max[j] == old(max[j])
  {
    var dash := Find(range, '-');
    if dash.None? {
      var v := Stoi(range);
      assert Lower(range) == Upper(range) == v;
      if v.None? {
        return false;
      }
      min[k], max[k] := v.value, v.value;
      return true;
    }
    var lo := Stoi(range[..dash.value]);
    assert Lower(range) == lo;
    if lo.None? {
      return false;
    }
    min[k] := lo.value;
    var hi := Stoi(range[dash.value + 1..]);
    assert Upper(range) == hi;
    if hi.None? {
      return false;
    }
    max[k] := hi.value;
    return true;
  }

  // ---------------------------------------------------------------------
  // parse_args (lines 63-108).

  /** The message for a component std::stoi could not read (numbered from 1). */
  function InvalidMessage(componentNo: int): string
  {
    "invalid range specified (component " + FormatInt(componentNo) + ")"
  }

  /** The first of the component texts from index i on whose range does not parse. */
  function FirstInvalid(cs: seq<string>, i: nat): (r: Option<nat>)
    ensures r.Some? ==>
      (i <= r.value < |cs| && RangeOfXX(cs[r.value]).None?
       && forall k :: i <= k < r.value ==> RangeOfXX(cs[k]).Some?)
    ensures r.None? ==> forall k :: i <= k < |cs| ==> RangeOfXX(cs[k]).Some?
    decreases |cs| - i
  {
    if i >= |cs| then None
    else if RangeOfXX(cs[i]).None? then Some(i)
    else FirstInvalid(cs, i + 1)
  }

  /** The failing component is the first one. */
  lemma FirstInvalidAt(cs: seq<string>, j: nat)
    requires j < |cs| && RangeOfXX(cs[j]).None?
    requires forall k :: 0 <= k < j ==> RangeOfXX(cs[k]).Some?
    ensures FirstInvalid(cs, 0) == Some(j)
  {
  }

  /** No component fails. */
  lemma FirstInvalidNone(cs: seq<string>)
    requires forall k :: 0 <= k < |cs| ==> RangeOfXX(cs[k]).Some?
    ensures FirstInvalid(cs, 0) == None
  {
  }

  /** min and max hold the ranges of the first n component texts. */
  ghost predicate Parsed(min: seq<int>, max: seq<int>, cs: seq<string>, n: nat)
    requires n <= |cs| <= |min| && |cs| <= |max|
  {
    forall k :: 0 <= k < n ==> RangeOfXX(cs[k]).Some? && (min[k], max[k]) == RangeOfXX(cs[k]).value
  }

  /**
   * After n components: the first n are stored, the others (m0, x0) are as
   * they were.
   */
  ghost predicate Progress(min: seq<int>, max: seq<int>, m0: seq<int>, x0: seq<int>, cs: seq<string>, n: nat)
  {
    && |min| == 4 && |max| == 4 && |m0| == 4 && |x0| == 4 && |cs| == 4 && n <= 4
    && Parsed(min, max, cs, n)
    && forall k :: n <= k < 4 ==> min[k] == m0[k] && max[k] == x0[k]
  }

  /** One parse_range call of the try block, on component k. */
  method ParseComponent(min: array<int>, max: array<int>, cs: seq<string>, k: nat,
                        ghost m0: seq<int>, ghost x0: seq<int>) returns (ok: bool)
    requires min.Length == 4 && max.Length == 4 && min != max && k < 4
    requires Progress(min[..], max[..], m0, x0, cs, k)
    modifies min, max
    ensures ok <==> RangeOfXX(cs[k]).Some?
    ensures ok ==> Progress(min[..], max[..], m0, x0, cs, k + 1)
    ensures !ok ==>
      && Parsed(min[..], max[..], cs, k)
      && min[k] == (if Lower(cs[k]).Some? then Lower(cs[k]).value else m0[k])
      && max[k] == x0[k]
      && forall j :: k < j < 4 ==> min[j] == m0[j] && max[j] == x0[j]
  {
    ok := ParseRange(min, max, k, cs[k]);
  }

  /**
   * parse_args on argv[1] = arg: with fewer than two arguments the defaults
   * stay; with fewer than three dots it aborts with "expected 3 dots (got
   * k)"; otherwise the components are parsed in order, and the first one
   * std::stoi cannot read aborts the program with "invalid range specified
   * (component k)", k counted from 1.  The components before it have been
   * stored (and the lower bound of the failing one, when it has a dash and
   * that bound parsed); the later ones are untouched.
   */
  method ParseArgs(argc: int, arg: string, min: array<int>, max: array<int>) returns (outcome: Outcome)
    requires min.Length == 4 && max.Length == 4 && min != max
    modifies min, max
    ensures argc < 2 ==> outcome == Returned && unchanged(min, max)
    ensures argc >= 2 && Dots(arg).Failure? ==>
      outcome == Aborted(DotsMessage(Dots(arg).error)) && unchanged(min, max)
    ensures argc >= 2 && Dots(arg).Success? ==>
      var cs := Components(arg, Dots(arg).value.0, Dots(arg).value.1, Dots(arg).value.2);
      Outcome(FirstInvalid(cs, 0)) == outcome
      && Stored(min[..], max[..], old(min[..]), old(max[..]), cs, FirstInvalid(cs, 0))
  {
    if argc < 2 {
      return Returned;
    }
    var dots := Dots(arg);
    if dots.Failure? {
      return Aborted(DotsMessage(dots.error));
    }
    var cs := Components(arg, dots.value.0, dots.value.1, dots.value.2);
    outcome := ParseComponents(min, max, cs);
  }

  /** How parse_args ends, given the first component (if any) that does not parse. */
  function Outcome(failed: Option<nat>): Outcome
  {
    match failed
    case None => Returned
    case Some(j) => Aborted(InvalidMessage(j + 1))
  }

  /**
   * What min and max hold after the try block: every component up to the
   * failing one (all four if none fails); of the failing one, only a lower
   * bound that parsed; nothing after it.
   */
  ghost predicate Stored(min: seq<int>, max: seq<int>, m0: seq<int>, x0: seq<int>, cs: seq<string>, failed: Option<nat>)
  {
    && |min| == 4 && |max| == 4 && |m0| == 4 && |x0| == 4 && |cs| == 4
    && match failed
       case None => Parsed(min, max, cs, 4)
       case Some(j) =>
         && j < 4
         && Parsed(min, max, cs, j)
         && min[j] == (if Lower(cs[j]).Some? then Lower(cs[j]).value else m0[j])
         && max[j] == x0[j]
         && forall k :: j < k < 4 ==> min[k] == m0[k] && max[k] == x0[k]
  }

  /** The try block of parse_args (lines 93-107), with its component_no counter. */
  method ParseComponents(min: array<int>, max: array<int>, cs: seq<string>) returns (outcome: Outcome)
    requires min.Length == 4 && max.Length == 4 && min != max && |cs| == 4
    modifies min, max
    ensures outcome == Outcome(FirstInvalid(cs, 0))
    ensures Stored(min[..], max[..], old(min[..]), old(max[..]), cs, FirstInvalid(cs, 0))
  {
    ghost var m0, x0 := min[..], max[..];
    var componentNo := 1;
    var ok := ParseComponent(min, max, cs, 0, m0, x0);
    if !ok {
      FirstInvalidAt(cs, 0);
      return Aborted(InvalidMessage(componentNo));
    }
    componentNo := componentNo + 1;
    ok := ParseComponent(min, max, cs, 1, m0, x0);
    if !ok {
      FirstInvalidAt(cs, 1);
      return Aborted(InvalidMessage(componentNo));
    }
    componentNo := componentNo + 1;
    ok := ParseComponent(min, max, cs, 2, m0, x0);
    if !ok {
      FirstInvalidAt(cs, 2);
      return Aborted(InvalidMessage(componentNo));
    }
    componentNo := componentNo + 1;
    ok := ParseComponent(min, max, cs, 3, m0, x0);
    if !ok {
      FirstInvalidAt(cs, 3);
      return Aborted(InvalidMessage(componentNo));
    }
    FirstInvalidNone(cs);
    return Returned;
  }

  // ---------------------------------------------------------------------
  // The two parsers side by side, and what printed texts parse to.

  /**
   * Where std::stoi reads every bound, the C++ parser gives the same range
   * as the C one (atoi); where kfind.c silently reads 0, kfindxx aborts.
   */
  lemma ParsersAgree(t: string)
    ensures RangeOfXX(t).Some? ==> RangeOfXX(t).value == RangeOf(t)
  {
    match Find(t, '-')
    case None =>
      AtoiStoi(t);
    case Some(d) =>
      AtoiStoi(t[..d]);
      AtoiStoi(t[d + 1..]);
  }

  /** A single number reads back as itself, as its own lower and upper bound. */
  lemma RangeOfXXNumber(i: int)
    requires i >= 0
    ensures RangeOfXX(FormatInt(i)) == Some((i, i))
  {
    NoSeparators(i);
    AtoiFormat(i, []);
    assert FormatInt(i) + [] == FormatInt(i);
  }

  /** "lo-hi" reads back as (lo, hi) when lo is not negative. */
  lemma RangeOfXXPair(lo: int, hi: int)
    requires lo >= 0
    ensures RangeOfXX(FormatInt(lo) + "-" + FormatInt(hi)) == Some((lo, hi))
  {
    var t := FormatInt(lo) + "-" + FormatInt(hi);
    NoSeparators(lo);
    FindAfter(FormatInt(lo), '-', FormatInt(hi));
    assert t[..|FormatInt(lo)|] == FormatInt(lo) + [];
    assert t[|FormatInt(lo)| + 1..] == FormatInt(hi) + [];
    AtoiFormat(lo, []);
    AtoiFormat(hi, []);
  }

  // ---------------------------------------------------------------------
  // main (lines 110-131).

  /** The host count of main (lines 120-123): the product of the component sizes. */
  method HostCount(min: array<int>, max: array<int>) returns (n: int)
    requires min.Length == 4 && max.Length == 4
    ensures n == Count(min[..], max[..], 4)
  {
    n := 1;
    for i := 0 to 4
      invariant n == Count(min[..], max[..], i)
    {
      n := n * (max[i] - min[i] + 1);
    }
  }

  /**
   * The scan of main (lines 117-131): after set_bounds, the loop `while
   * (src.have_address()) { test_ip_address(src.address());
   * src.next_address(); }` makes exactly as many attempts as the host
   * count when every lower bound is at most its upper bound.  The test
   * itself (a device connection) is replaced by counting the attempt, as
   * n_attempted does.
   */
  method Scan(src: AddressSource, mn: seq<int>, mx: seq<int>) returns (attempted: int)
    requires src.Valid() && |mn| == 4 && |mx| == 4 && Ordered(mn, mx)
    modifies src, src.min, src.max, src.cur
    ensures src.Valid() && !src.haveAddress
    ensures attempted == Count(mn, mx, 4)
  {
    src.SetBounds(mn, mx);
    attempted := 0;
    ghost var total := Count(mn, mx, 4);
    assert src.cur[..] == Walk(mn, mx, 0);
    CountPositive(mn, mx, 4);
    Enumerates(mn, mx, 0);
    while src.HaveAddress()
      invariant src.Valid() && src.min[..] == mn && src.max[..] == mx
      invariant 0 <= attempted <= total
      invariant src.haveAddress ==> attempted < total && src.cur[..] == Walk(mn, mx, attempted)
      invariant !src.haveAddress ==> attempted == total
      decreases total - attempted
    {
      attempted := attempted + 1;
      Enumerates(mn, mx, attempted - 1);
      src.NextAddress();
      if attempted < total {
        Enumerates(mn, mx, attempted);
      }
    }
  }
}
