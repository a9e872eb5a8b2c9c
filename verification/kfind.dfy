/**
 * c/examples/kfind.c: the C device finder.  The address range given on the
 * command line ("a.b.c.d", each component a number or "lo-hi") is parsed in
 * place in the argument's character buffer, and the file-scope globals
 * (have_address, address, cur, min, max, n_attempted) are the fields of
 * the Scanner class.  Connecting to a device is replaced by counting the
 * attempt.
 */
module KFind {
  import opened Wrappers
  import opened Decimal
  import opened Odometer

  const NUL: char := '\0'

  // ---------------------------------------------------------------------
  // NUL-terminated strings inside a character buffer.

  /** Some NUL follows index i. */
  predicate Terminated(buf: seq<char>, i: nat)
  {
    exists k :: i <= k < |buf| && buf[k] == NUL
  }

  /** The index of the first NUL at or after i. */
  function NulFrom(buf: seq<char>, i: nat): (k: nat)
    requires Terminated(buf, i)
    ensures i <= k < |buf| && buf[k] == NUL
    ensures forall j :: i <= j < k ==> buf[j] != NUL
    decreases |buf| - i
  {
    if buf[i] == NUL then i
    else
      assert Terminated(buf, i + 1) by {
        var k :| i <= k < |buf| && buf[k] == NUL;
        assert k != i;
      }
      NulFrom(buf, i + 1)
  }

  /** The string starting at index i: the characters up to the first NUL. */
  function CStr(buf: seq<char>, i: nat): (t: string)
    requires Terminated(buf, i)
  {
    buf[i .. NulFrom(buf, i)]
  }

  /** A NUL-free stretch ending in a NUL is the string that starts there. */
  lemma CStrIs(buf: seq<char>, i: nat, n: nat)
    requires i + n < |buf| && buf[i + n] == NUL
    requires forall k :: i <= k < i + n ==> buf[k] != NUL
    ensures Terminated(buf, i) && NulFrom(buf, i) == i + n
  {
    assert Terminated(buf, i) by {
      assert i <= i + n < |buf| && buf[i + n] == NUL;
    }
  }

  /** The first occurrence of c in t (strchr on a string, std::string::find). */
  function Find(t: string, c: char): (r: Option<nat>)
    ensures r.Some? ==> r.value < |t| && t[r.value] == c && forall k :: 0 <= k < r.value ==> t[k] != c
    ensures r.None? ==> forall k :: 0 <= k < |t| ==> t[k] != c
  {
    if t == [] then None
    else if t[0] == c then Some(0)
    else match Find(t[1..], c)
      case None => None
      case Some(k) => Some(k + 1)
  }

  // ---------------------------------------------------------------------
  // parse_range (lines 67-83).

  /** The bounds a component text stands for: one number, or two around the first dash. */
  function RangeOf(t: string): (int, int)
  {
    match Find(t, '-')
    case None => (Atoi(t), Atoi(t))
    case Some(d) => (Atoi(t[..d]), Atoi(t[d + 1..]))
  }

  /** Where parse_range turns a dash into a dot: the first dash of the text c starting at `start`. */
  function DashPos(start: nat, c: string): (d: set<nat>)
    ensures forall q :: q in d ==> start <= q < start + |c|
  {
    match Find(c, '-')
    case None => {}
    case Some(e) => {start + e}
  }

  /** The buffer after parse_range on the string at i: its first dash, if any, is a dot. */
  function DashToDot(buf: seq<char>, i: nat): (b: seq<char>)
    requires Terminated(buf, i)
    ensures |b| == |buf|
    ensures forall p :: 0 <= p < |buf| ==> b[p] == if p in DashPos(i, CStr(buf, i)) then '.' else buf[p]
  {
    match Find(CStr(buf, i), '-')
    case None => buf
    case Some(e) => buf[i + e := '.']
  }

  /**
   * parse_range on the string at index i of the buffer: without a dash both
   * bounds are atoi of the whole text; with one, the dash is overwritten by
   * a NUL so that atoi reads only what precedes it, then by a dot, and the
   * upper bound is atoi of what follows.
   */
  method ParseRange(range: array<char>, i: nat) returns (mn: int, mx: int)
    requires Terminated(range[..], i)
    modifies range
    ensures (mn, mx) == RangeOf(CStr(old(range[..]), i))
    ensures range[..] == DashToDot(old(range[..]), i)
  {
    var t := CStr(range[..], i);
    var dash := Find(t, '-');
    if dash.None? {
      mn := Atoi(t);
      mx := mn;
    } else {
      ghost var b0 := range[..];
      var d := i + dash.value;
      Cut(b0, i, d, '.');
      range[d] := NUL;
      assert range[..] == b0[d := NUL];
      var lower := CStr(range[..], i);
      assert lower == t[..dash.value];
      mn := Atoi(lower);
      range[d] := '.';
      assert range[..] == b0[d := '.'];
      var upper := CStr(range[..], d + 1);
      assert upper == t[dash.value + 1..];
      mx := Atoi(upper);
    }
  }

  /**
   * A NUL written at index d inside the string at i cuts it there; whatever
   * is at d, the string after d is the rest of the original one.
   */
  lemma Cut(buf: seq<char>, i: nat, d: nat, x: char)
    requires Terminated(buf, i) && i <= d < NulFrom(buf, i)
    ensures Terminated(buf[d := NUL], i) && CStr(buf[d := NUL], i) == CStr(buf, i)[..d - i]
    ensures Terminated(buf[d := x], d + 1) && CStr(buf[d := x], d + 1) == CStr(buf, i)[d - i + 1..]
  {
    var n := NulFrom(buf, i);
    CStrIs(buf[d := NUL], i, d - i);
    CStrIs(buf[d := x], d + 1, n - d - 1);
  }

  // ---------------------------------------------------------------------
  // parse_args (lines 85-124).

  /** How parse_args ends: it returns, or it aborts the program with a message. */
  datatype Outcome = Returned | Aborted(message: string)

  /** The positions of the first three dots of t, each searched after the previous one. */
  function Dots(t: string): (r: Result<(nat, nat, nat), nat>)
    ensures r.Success? ==>
      (var (d0, d1, d2) := r.value; d0 < d1 < d2 < |t| && t[d0] == '.' && t[d1] == '.' && t[d2] == '.')
    ensures r.Failure? ==> r.error < 3
  {
    match Find(t, '.')
    case None => Failure(0)
    case Some(d0) =>
      match Find(t[d0 + 1..], '.')
      case None => Failure(1)
      case Some(e1) =>
        var d1 := d0 + 1 + e1;
        match Find(t[d1 + 1..], '.')
        case None => Failure(2)
        case Some(e2) => Success((d0, d1, d1 + 1 + e2))
  }

  /** The message abort_parsing prints for k dots. */
  function DotsMessage(k: nat): string
    requires k < 3
  {
    "expected 3 dots (got " + [DigitChar(k)] + ")"
  }

  /** Where component k of a text of length n with dots at d0 < d1 < d2 starts. */
  function Start(d0: nat, d1: nat, d2: nat, k: nat): nat
  {
    if k == 0 then 0 else if k == 1 then d0 + 1 else if k == 2 then d1 + 1 else d2 + 1
  }

  /** Where component k ends: at the next dot, or at the end of the text for the last one. */
  function End(n: nat, d0: nat, d1: nat, d2: nat, k: nat): nat
  {
    if k == 0 then d0 else if k == 1 then d1 else if k == 2 then d2 else n
  }

  /** The four component texts between the dots; the last runs to the end. */
  function Components(t: string, d0: nat, d1: nat, d2: nat): (cs: seq<string>)
    requires d0 < d1 < d2 < |t|
    ensures |cs| == 4
    ensures forall k :: 0 <= k < 4 ==> cs[k] == t[Start(d0, d1, d2, k) .. End(|t|, d0, d1, d2, k)]
  {
    [t[..d0], t[d0 + 1 .. d1], t[d1 + 1 .. d2], t[d2 + 1..]]
  }

  /** The dots parse_args has replaced by NULs before parsing component k + 1. */
  function NulsBefore(d0: nat, d1: nat, d2: nat, k: nat): set<nat>
  {
    if k == 0 then {} else if k == 1 then {d0} else if k == 2 then {d0, d1} else {d0, d1, d2}
  }

  /** The positions of the first dashes of the components before k. */
  function DashesBefore(t: string, d0: nat, d1: nat, d2: nat, k: nat): set<nat>
    requires d0 < d1 < d2 < |t| && k <= 4
  {
    if k == 0 then {}
    else DashesBefore(t, d0, d1, d2, k - 1) + DashPos(Start(d0, d1, d2, k - 1), Components(t, d0, d1, d2)[k - 1])
  }

  /** The positions of the components' first dashes. */
  function Dashes(t: string, d0: nat, d1: nat, d2: nat): set<nat>
    requires d0 < d1 < d2 < |t|
  {
    DashesBefore(t, d0, d1, d2, 4)
  }

  /** a is b with NULs at the positions in nuls and dots at those in dots. */
  ghost predicate Overwritten(a: seq<char>, b: seq<char>, nuls: set<nat>, dots: set<nat>)
  {
    |a| == |b| && forall p {:trigger a[p]} :: 0 <= p < |a| ==> a[p] == if p in nuls then NUL else if p in dots then '.' else b[p]
  }

  /** parse_range on the component from start to end (a NUL there) of a buffer made from b. */
  lemma ComponentStep(a: seq<char>, b: seq<char>, t: string, nuls: set<nat>, dots: set<nat>, start: nat, end: nat)
    requires Holds(b, t) && Overwritten(a, b, nuls, dots)
    requires start <= end <= |t| && end in nuls + {|t|}
    requires forall q :: q in nuls + dots ==> q < start || end <= q
    requires end !in dots
    ensures Terminated(a, start) && CStr(a, start) == t[start .. end]
    ensures Overwritten(DashToDot(a, start), b, nuls, dots + DashPos(start, t[start .. end]))
  {
    var c := t[start .. end];
    forall p | start <= p < end
      ensures a[p] == t[p] != NUL
    {
      assert p !in nuls + dots;
    }
    assert a[end] == NUL;
    CStrIs(a, start, end - start);
    assert CStr(a, start) == c;
    forall p | 0 <= p < |a|
      ensures DashToDot(a, start)[p] == if p in nuls then NUL else if p in dots + DashPos(start, c) then '.' else b[p]
    {
      if p in DashPos(start, c) {
        assert p !in nuls;
      }
    }
  }

  /**
   * parse_args: with fewer than two arguments nothing happens; with fewer
   * than three dots in argv[1] the program aborts with "expected 3 dots
   * (got k)" before anything is written; otherwise each component gives the
   * bounds of one address component, and the argument is left with NULs at
   * its three dots and a dot at each component's first dash.
   */
  method ParseArgs(argc: int, arg: array<char>, min: array<int>, max: array<int>) returns (outcome: Outcome)
    requires Terminated(arg[..], 0) && min.Length == 4 && max.Length == 4 && min != max
    modifies arg, min, max
    ensures argc < 2 ==> outcome == Returned && unchanged(arg, min, max)
    ensures argc >= 2 && Dots(CStr(old(arg[..]), 0)).Failure? ==>
      outcome == Aborted(DotsMessage(Dots(CStr(old(arg[..]), 0)).error)) && unchanged(arg, min, max)
    ensures argc >= 2 && Dots(CStr(old(arg[..]), 0)).Success? ==>
      var t := CStr(old(arg[..]), 0);
      var (d0, d1, d2) := Dots(t).value;
      var cs := Components(t, d0, d1, d2);
      && outcome == Returned
      && (forall k :: 0 <= k < 4 ==> (min[k], max[k]) == RangeOf(cs[k]))
      && Overwritten(arg[..], old(arg[..]), {d0, d1, d2}, Dashes(t, d0, d1, d2))
  {
    if argc < 2 {
      return Returned;
    }
    var t := CStr(arg[..], 0);
    var dots := Dots(t);
    if dots.Failure? {
      // the three strchr calls, in order
      return Aborted(DotsMessage(dots.error));
    }
    var (d0, d1, d2) := dots.value;
    ParseDotted(arg, min, max, t, d0, d1, d2);
    return Returned;
  }

  /** The original text t at the start of b: what CStr(b, 0) == t guarantees. */
  ghost predicate Holds(b: seq<char>, t: string)
  {
    |t| < |b| && b[|t|] == NUL && forall p :: 0 <= p < |t| ==> b[p] == t[p] && t[p] != NUL
  }

  /** The four steps of parse_args after the dots are found. */
  method ParseDotted(arg: array<char>, min: array<int>, max: array<int>, t: string, d0: nat, d1: nat, d2: nat)
    requires Holds(arg[..], t) && d0 < d1 < d2 < |t|
    requires min.Length == 4 && max.Length == 4 && min != max
    modifies arg, min, max
    ensures forall k :: 0 <= k < 4 ==> (min[k], max[k]) == RangeOf(Components(t, d0, d1, d2)[k])
    ensures Overwritten(arg[..], old(arg[..]), {d0, d1, d2}, Dashes(t, d0, d1, d2))
  {
    ghost var b := arg[..];
    assert Overwritten(arg[..], b, NulsBefore(d0, d1, d2, 0), DashesBefore(t, d0, d1, d2, 0));
    ParseComponent(arg, min, max, t, d0, d1, d2, 0, b);
    ParseComponent(arg, min, max, t, d0, d1, d2, 1, b);
    ParseComponent(arg, min, max, t, d0, d1, d2, 2, b);
    ParseComponent(arg, min, max, t, d0, d1, d2, 3, b);
  }

  /**
   * Step k of parse_args: the dot after component k (if there is one)
   * becomes a NUL, then parse_range reads component k into min[k] and max[k].
   */
  method ParseComponent(arg: array<char>, min: array<int>, max: array<int>, t: string, d0: nat, d1: nat, d2: nat,
                        k: nat, ghost b: seq<char>)
    requires Holds(b, t) && d0 < d1 < d2 < |t| && k < 4
    requires min.Length == 4 && max.Length == 4 && min != max
    requires Overwritten(arg[..], b, NulsBefore(d0, d1, d2, k), DashesBefore(t, d0, d1, d2, k))
    modifies arg, min, max
    ensures (min[k], max[k]) == RangeOf(Components(t, d0, d1, d2)[k])
    ensures forall j :: 0 <= j < 4 && j != k ==> min[j] == old(min[j]) && max[j] == old(max[j])
    ensures Overwritten(arg[..], b, NulsBefore(d0, d1, d2, k + 1), DashesBefore(t, d0, d1, d2, k + 1))
  {
    var start, end := Start(d0, d1, d2, k), End(|t|, d0, d1, d2, k);
    DashesBound(t, d0, d1, d2, k);
    if k < 3 {
      NulStep(arg[..], b, NulsBefore(d0, d1, d2, k), DashesBefore(t, d0, d1, d2, k), end);
      arg[end] := NUL;
      assert NulsBefore(d0, d1, d2, k) + {end} == NulsBefore(d0, d1, d2, k + 1);
    }
    ComponentStep(arg[..], b, t, NulsBefore(d0, d1, d2, k + 1), DashesBefore(t, d0, d1, d2, k), start, end);
    min[k], max[k] := ParseRange(arg, start);
  }

  /** The dashes of the components before k lie before component k starts. */
  lemma {:induction false} DashesBound(t: string, d0: nat, d1: nat, d2: nat, k: nat)
    requires d0 < d1 < d2 < |t| && k <= 4
    ensures forall q :: q in DashesBefore(t, d0, d1, d2, k) ==> k > 0 && q < End(|t|, d0, d1, d2, k - 1)
  {
    if k > 0 {
      DashesBound(t, d0, d1, d2, k - 1);
    }
  }

  /** Writing a NUL at q adds q to the NUL positions. */
  lemma NulStep(a: seq<char>, b: seq<char>, nuls: set<nat>, dots: set<nat>, q: nat)
    requires Overwritten(a, b, nuls, dots) && q < |a|
    ensures Overwritten(a[q := NUL], b, nuls + {q}, dots)
  {
  }

  // ---------------------------------------------------------------------
  // What "%d.%d.%d.%d" and "lo-hi" texts parse to.

  /** The first c in a text that has none before index |a| is at |a|. */
  lemma FindAfter(a: string, c: char, rest: string)
    requires forall k :: 0 <= k < |a| ==> a[k] != c
    ensures Find(a + [c] + rest, c) == Some(|a|)
  {
    var t := a + [c] + rest;
    assert t[|a|] == c;
  }

  /** A decimal text of a value that is not negative holds neither a dot nor a dash. */
  lemma NoSeparators(i: int)
    requires i >= 0
    ensures forall k :: 0 <= k < |FormatInt(i)| ==> FormatInt(i)[k] != '.' && FormatInt(i)[k] != '-'
  {
    assert AllDigits(FormatInt(i));
  }

  /** A single number that is not negative is the range from it to itself. */
  lemma RangeOfNumber(i: int)
    requires i >= 0
    ensures RangeOf(FormatInt(i)) == (i, i)
  {
    NoSeparators(i);
    AtoiFormat(i, []);
    assert FormatInt(i) + [] == FormatInt(i);
  }

  /**
   * "lo-hi" reads back as (lo, hi) when lo is not negative; a negative lower
   * bound cannot be written, since its sign is taken for the dash.
   */
  lemma RangeOfPair(lo: int, hi: int)
    requires lo >= 0
    ensures RangeOf(FormatInt(lo) + "-" + FormatInt(hi)) == (lo, hi)
  {
    var t := FormatInt(lo) + "-" + FormatInt(hi);
    NoSeparators(lo);
    FindAfter(FormatInt(lo), '-', FormatInt(hi));
    assert t[..|FormatInt(lo)|] == FormatInt(lo) + [];
    assert t[|FormatInt(lo)| + 1..] == FormatInt(hi) + [];
    AtoiFormat(lo, []);
    AtoiFormat(hi, []);
  }

  predicate NoDot(s: string)
  {
    forall k :: 0 <= k < |s| ==> s[k] != '.'
  }

  /** A dot with none before it is the one Find finds. */
  lemma FirstDot(t: string, d: nat)
    requires d < |t| && t[d] == '.' && NoDot(t[..d])
    ensures Find(t, '.') == Some(d)
  {
    forall k | 0 <= k < d
      ensures t[k] != '.'
    {
      assert t[..d][k] == t[k];
    }
  }

  /** The dots Dots finds are the first three, wherever the text has exactly those before d2. */
  lemma DotsAt(t: string, d0: nat, d1: nat, d2: nat)
    requires d0 < d1 < d2 < |t| && t[d0] == '.' && t[d1] == '.' && t[d2] == '.'
    requires NoDot(t[..d0]) && NoDot(t[d0 + 1 .. d1]) && NoDot(t[d1 + 1 .. d2])
    ensures Dots(t).Success? && Dots(t).value.0 == d0 && Dots(t).value.1 == d1 && Dots(t).value.2 == d2
  {
    FirstDot(t, d0);
    assert t[d0 + 1..][..d1 - d0 - 1] == t[d0 + 1 .. d1];
    FirstDot(t[d0 + 1..], d1 - d0 - 1);
    assert t[d1 + 1..][..d2 - d1 - 1] == t[d1 + 1 .. d2];
    FirstDot(t[d1 + 1..], d2 - d1 - 1);
  }

  /** The components of f0.f1.f2.f3 at its three dots are the four texts. */
  lemma ComponentsOf(f0: string, f1: string, f2: string, f3: string)
    ensures var t := f0 + "." + f1 + "." + f2 + "." + f3;
      var d0 := |f0|; var d1 := d0 + 1 + |f1|; var d2 := d1 + 1 + |f2|;
      Components(t, d0, d1, d2) == [f0, f1, f2, f3]
  {
    var t := f0 + "." + f1 + "." + f2 + "." + f3;
    var d0 := |f0|;
    var d1 := d0 + 1 + |f1|;
    var d2 := d1 + 1 + |f2|;
    assert t[..d0] == f0;
    assert t[d0 + 1 .. d1] == f1;
    assert t[d1 + 1 .. d2] == f2;
    assert t[d2 + 1..] == f3;
  }

  /** Four texts joined by dots, the first three without a dot, split back into the four. */
  lemma SplitJoined(f0: string, f1: string, f2: string, f3: string)
    requires NoDot(f0) && NoDot(f1) && NoDot(f2)
    ensures var t := f0 + "." + f1 + "." + f2 + "." + f3; var r := Dots(t);
      r.Success? && Components(t, r.value.0, r.value.1, r.value.2) == [f0, f1, f2, f3]
  {
    var t := f0 + "." + f1 + "." + f2 + "." + f3;
    var d0 := |f0|;
    var d1 := d0 + 1 + |f1|;
    var d2 := d1 + 1 + |f2|;
    ComponentsOf(f0, f1, f2, f3);
    assert t[d0] == '.' && t[d1] == '.' && t[d2] == '.';
    DotsAt(t, d0, d1, d2);
  }

  /**
   * Parsing the text kfind prints for an address whose components are not
   * negative gives every component as a one-value range: the bounds are the
   * address itself.
   */
  lemma ParseDottedAddress(c: seq<int>)
    requires |c| == 4 && forall k :: 0 <= k < 4 ==> c[k] >= 0
    ensures var t := DottedAddress(c); var r := Dots(t);
      r.Success? && forall k :: 0 <= k < 4 ==> RangeOf(Components(t, r.value.0, r.value.1, r.value.2)[k]) == (c[k], c[k])
  {
    NoSeparators(c[0]);
    NoSeparators(c[1]);
    NoSeparators(c[2]);
    SplitJoined(FormatInt(c[0]), FormatInt(c[1]), FormatInt(c[2]), FormatInt(c[3]));
    RangeOfNumber(c[0]);
    RangeOfNumber(c[1]);
    RangeOfNumber(c[2]);
    RangeOfNumber(c[3]);
  }

  // ---------------------------------------------------------------------
  // The scan over the address range (lines 126-174).

  /** The file-scope state of kfind.c: the odometer, the formatted address and the attempt counter. */
  class Finder {
    var haveAddress: bool
    var address: string
    var attempted: int
    const cur: array<int>
    const min: array<int>
    const max: array<int>

    ghost predicate Valid()
      reads this
    {
      cur.Length == 4 && min.Length == 4 && max.Length == 4
      && cur != min && cur != max && min != max
    }

    /** The static initialisers (lines 11-18): the default range 192.168.1.100-200. */
    constructor ()
      ensures Valid() && haveAddress && address == [] && attempted == 0
      ensures cur[..] == [0, 0, 0, 0] && min[..] == [192, 168, 1, 100] && max[..] == [192, 168, 1, 200]
      ensures fresh(cur) && fresh(min) && fresh(max)
    {
      haveAddress := true;
      address := [];
      attempted := 0;
      cur := new int[4](_ => 0);
      min := new int[4] [192, 168, 1, 100];
      max := new int[4] [192, 168, 1, 200];
    }

    /**
     * next_address (lines 126-144): the carry loop of Odometer.Next in
     * place; the address text is rewritten only while an address is left.
     */
    method NextAddress()
      requires Valid()
      modifies `haveAddress, `address, cur
      ensures Valid()
      ensures cur[..] == Next(old(cur[..]), min[..], max[..]).0
      ensures haveAddress == (old(haveAddress) && Next(old(cur[..]), min[..], max[..]).1)
      ensures address == if haveAddress then DottedAddress(cur[..]) else old(address)
    {
      ghost var goal := Next(cur[..], min[..], max[..]);
      ghost var c0 := cur[..];
      var i := 3;
      cur[i] := cur[i] + 1;
      assert cur[..][i := cur[i] - 1] == c0;
      while cur[i] > max[i]
        invariant 0 <= i < 4
        invariant haveAddress == old(haveAddress) && address == old(address)
        invariant Carry(cur[..][i := cur[i] - 1], min[..], max[..], i) == goal
        decreases i
      {
        if i > 0 {
          ghost var before := cur[..][i := cur[i] - 1];
          assert before[i := before[i] + 1] == cur[..];
          ghost var reset := cur[..][i := min[i]];
          cur[i] := min[i];
          i := i - 1;
          cur[i] := cur[i] + 1;
          assert cur[..][i := cur[i] - 1] == reset;
        } else {
          haveAddress := false;
          assert cur[..][i := cur[i] - 1][i := cur[i]] == cur[..];
          break;
        }
      }
      assert cur[..][i := cur[i] - 1][i := cur[i]] == cur[..];
      if haveAddress {
        address := DottedAddress(cur[..]);
      }
    }

    /** The host count of main (lines 151-154): the product of the component sizes. */
    method HostCount() returns (n: int)
      requires Valid()
      ensures n == Count(min[..], max[..], 4)
    {
      n := 1;
      for i := 0 to 4
        invariant n == Count(min[..], max[..], i)
      {
        n := n * (max[i] - min[i] + 1);
      }
    }

    /**
     * The scan of main (lines 156-165): cur starts at min, the address text
     * is formatted, and `while (have_address) { test_ip_address();
     * next_address(); }` runs.  Each test counts one attempt; with every
     * lower bound at most its upper bound the scan makes exactly the host
     * count of attempts and ends with no address left.
     */
    method Scan()
      requires Valid() && haveAddress && Ordered(min[..], max[..])
      modifies this, cur
      ensures Valid() && !haveAddress
      ensures attempted == old(attempted) + Count(min[..], max[..], 4)
    {
      var mn, mx := min[..], max[..];
      for i := 0 to 4
        invariant cur[..i] == mn[..i]
        modifies cur
      {
        cur[i] := min[i];
      }
      assert cur[..] == mn[..4];
      address := DottedAddress(cur[..]);
      ghost var total := Count(mn, mx, 4);
      CountPositive(mn, mx, 4);
      Enumerates(mn, mx, 0);
      ghost var k := 0;
      while haveAddress
        invariant Valid() && min[..] == mn && max[..] == mx
        invariant 0 <= k <= total && attempted == old(attempted) + k
        invariant haveAddress ==> k < total && cur[..] == Walk(mn, mx, k)
        invariant !haveAddress ==> k == total
        decreases total - k
      {
        attempted := attempted + 1;
        k := k + 1;
        Enumerates(mn, mx, k - 1);
        NextAddress();
        if k < total {
          Enumerates(mn, mx, k);
        }
      }
    }
  }
}
