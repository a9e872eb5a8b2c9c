/**
 * The address odometer of the device-finding examples: `next_address` in
 * cxx/examples/address_source.cpp and in c/examples/kfind.c.  Component i
 * runs from min[i] to max[i]; the last component moves fastest.  Each step
 * increments the last component; a component that passes its maximum is
 * reset to its minimum and the carry moves one component to the left; a
 * carry out of component 0 ends the enumeration and leaves that component
 * at max[0] + 1.
 *
 * The rank of an address is its position in the enumeration (a mixed-radix
 * number with digit i in [0, max[i] - min[i]]); the lemmas show that each
 * step adds one to the rank, that the enumeration visits addresses in
 * strictly increasing lexicographic order, and that exactly the product of
 * the component sizes is enumerated, each address in bounds exactly once.
 */
module Odometer {
  import Decimal

  /** Every component of cur lies between its bounds. */
  predicate InBounds(cur: seq<int>, mn: seq<int>, mx: seq<int>)
    requires |cur| == |mn| == |mx|
  {
    forall i :: 0 <= i < |cur| ==> mn[i] <= cur[i] <= mx[i]
  }

  /** The bounds describe a non-empty range in every component. */
  predicate Ordered(mn: seq<int>, mx: seq<int>)
    requires |mn| == |mx|
  {
    forall i :: 0 <= i < |mn| ==> mn[i] <= mx[i]
  }

  /**
   * The carry loop `while (++cur[i] > max[i])` started at component i: the
   * new components and whether an address is left.
   */
  function Carry(cur: seq<int>, mn: seq<int>, mx: seq<int>, i: nat): (r: (seq<int>, bool))
    requires |cur| == |mn| == |mx| && i < |cur|
    ensures |r.0| == |cur|
    decreases i
  {
    var c := cur[i := cur[i] + 1];
    if c[i] <= mx[i] then (c, true)
    else if i > 0 then Carry(c[i := mn[i]], mn, mx, i - 1)
    else (c, false)
  }

  /** One call of next_address: the carry loop started at the last component. */
  function Next(cur: seq<int>, mn: seq<int>, mx: seq<int>): (r: (seq<int>, bool))
    requires |cur| == |mn| == |mx| && |cur| > 0
    ensures |r.0| == |cur|
  {
    Carry(cur, mn, mx, |cur| - 1)
  }

  /** The number of values component i takes. */
  function Size(mn: seq<int>, mx: seq<int>, i: nat): int
    requires |mn| == |mx| && i < |mn|
  {
    mx[i] - mn[i] + 1
  }

  /** The product of the sizes of the first k components. */
  function Count(mn: seq<int>, mx: seq<int>, k: nat): int
    requires |mn| == |mx| && k <= |mn|
  {
    if k == 0 then 1 else Count(mn, mx, k - 1) * Size(mn, mx, k - 1)
  }

  /** The position of the first k components of cur in the enumeration. */
  function Rank(cur: seq<int>, mn: seq<int>, mx: seq<int>, k: nat): int
    requires |cur| == |mn| == |mx| && k <= |cur|
  {
    if k == 0 then 0 else Rank(cur, mn, mx, k - 1) * Size(mn, mx, k - 1) + (cur[k - 1] - mn[k - 1])
  }

  /** a comes strictly before b in lexicographic order. */
  predicate LexLess(a: seq<int>, b: seq<int>)
    requires |a| == |b|
  {
    exists j :: 0 <= j < |a| && Agree(a, b, j) && a[j] < b[j]
  }

  /** a and b agree on their first k components. */
  predicate Agree(a: seq<int>, b: seq<int>, k: nat)
    requires k <= |a| && k <= |b|
  {
    forall t :: 0 <= t < k ==> a[t] == b[t]
  }

  // ---------------------------------------------------------------------

  lemma {:induction false} RankPrefix(c: seq<int>, d: seq<int>, mn: seq<int>, mx: seq<int>, k: nat)
    requires |c| == |d| == |mn| == |mx| && k <= |c|
    requires forall j :: 0 <= j < k ==> c[j] == d[j]
    ensures Rank(c, mn, mx, k) == Rank(d, mn, mx, k)
  {
    if k > 0 {
      RankPrefix(c, d, mn, mx, k - 1);
    }
  }

  lemma MulMono(a: int, b: int, s: int)
    requires a <= b && s >= 0
    ensures a * s <= b * s
  {
  }

  /**
   * The rank of an address in bounds lies in [0, Count - 1], and it is the
   * last one, Count - 1, exactly when the first k components are all at
   * their maximum.
   */
  lemma {:induction false} RankBounds(c: seq<int>, mn: seq<int>, mx: seq<int>, k: nat)
    requires |c| == |mn| == |mx| && k <= |c| && InBounds(c, mn, mx)
    ensures 0 <= Rank(c, mn, mx, k) <= Count(mn, mx, k) - 1
    ensures Rank(c, mn, mx, k) == Count(mn, mx, k) - 1 <==> Agree(c, mx, k)
  {
    if k > 0 {
      RankBounds(c, mn, mx, k - 1);
      var r, p, s := Rank(c, mn, mx, k - 1), Count(mn, mx, k - 1), Size(mn, mx, k - 1);
      var e := c[k - 1] - mn[k - 1];
      assert 0 <= e <= s - 1;
      MulMono(r, p - 1, s);
      assert r * s + e <= (p - 1) * s + s - 1 == p * s - 1;
      if r * s + e == p * s - 1 && r < p - 1 {
        MulMono(r, p - 2, s);
      }
    }
  }

  /** The carry loop changes no component after the one it starts at. */
  lemma {:induction false} CarryFrame(c: seq<int>, mn: seq<int>, mx: seq<int>, i: nat)
    requires |c| == |mn| == |mx| && i < |c|
    ensures forall j :: i < j < |c| ==> Carry(c, mn, mx, i).0[j] == c[j]
    decreases i
  {
    var c1 := c[i := c[i] + 1];
    if c1[i] > mx[i] && i > 0 {
      CarryFrame(c1[i := mn[i]], mn, mx, i - 1);
    }
  }

  /**
   * For an address in bounds the carry loop started at component i finds an
   * address exactly when some component up to i is below its maximum.
   */
  lemma {:induction false} CarryFinds(c: seq<int>, mn: seq<int>, mx: seq<int>, i: nat)
    requires |c| == |mn| == |mx| && i < |c| && InBounds(c, mn, mx)
    ensures Carry(c, mn, mx, i).1 <==> !Agree(c, mx, i + 1)
    decreases i
  {
    var c1 := c[i := c[i] + 1];
    if c1[i] > mx[i] && i > 0 {
      var c2 := c1[i := mn[i]];
      assert InBounds(c2, mn, mx);
      CarryFinds(c2, mn, mx, i - 1);
      assert Agree(c2, mx, i) == Agree(c, mx, i);
    }
  }

  /** When the carry loop finds an address it is in bounds and one further in rank. */
  lemma {:induction false} CarryRank(c: seq<int>, mn: seq<int>, mx: seq<int>, i: nat)
    requires |c| == |mn| == |mx| && i < |c| && InBounds(c, mn, mx)
    requires Carry(c, mn, mx, i).1
    ensures InBounds(Carry(c, mn, mx, i).0, mn, mx)
    ensures Rank(Carry(c, mn, mx, i).0, mn, mx, i + 1) == Rank(c, mn, mx, i + 1) + 1
    decreases i
  {
    if c[i] + 1 <= mx[i] {
      StepRank(c, mn, mx, i);
    } else {
      var c2 := c[i := mn[i]];
      assert c[i := c[i] + 1][i := mn[i]] == c2;
      assert InBounds(c2, mn, mx);
      CarryRank(c2, mn, mx, i - 1);
      CarryFrame(c2, mn, mx, i - 1);
      WrapRank(c, c2, Carry(c2, mn, mx, i - 1).0, mn, mx, i);
    }
  }

  /** Without a carry, component i goes one up and so does the rank. */
  lemma StepRank(c: seq<int>, mn: seq<int>, mx: seq<int>, i: nat)
    requires |c| == |mn| == |mx| && i < |c| && InBounds(c, mn, mx) && c[i] + 1 <= mx[i]
    ensures InBounds(c[i := c[i] + 1], mn, mx)
    ensures Rank(c[i := c[i] + 1], mn, mx, i + 1) == Rank(c, mn, mx, i + 1) + 1
  {
    RankPrefix(c[i := c[i] + 1], c, mn, mx, i);
  }

  /**
   * With a carry out of component i, which wraps from its maximum to its
   * minimum, the rank goes from q * size + (size - 1) to (q + 1) * size.
   */
  lemma WrapRank(c: seq<int>, c2: seq<int>, r: seq<int>, mn: seq<int>, mx: seq<int>, i: nat)
    requires |c| == |c2| == |r| == |mn| == |mx| && 0 < i < |c| && InBounds(c, mn, mx)
    requires c[i] == mx[i] && c2 == c[i := mn[i]] && r[i] == c2[i]
    requires Rank(r, mn, mx, i) == Rank(c2, mn, mx, i) + 1
    ensures Rank(r, mn, mx, i + 1) == Rank(c, mn, mx, i + 1) + 1
  {
    RankPrefix(c2, c, mn, mx, i);
    var q, size := Rank(c, mn, mx, i), Size(mn, mx, i);
    assert Rank(r, mn, mx, i + 1) == (q + 1) * size;
    assert (q + 1) * size == q * size + size;
    assert Rank(c, mn, mx, i + 1) == q * size + (size - 1);
  }

  /**
   * When the carry loop runs out of components, component 0 is left at
   * max[0] + 1 and components 1..i at their minimum.
   */
  lemma {:induction false} CarryOut(c: seq<int>, mn: seq<int>, mx: seq<int>, i: nat)
    requires |c| == |mn| == |mx| && i < |c|
    requires !Carry(c, mn, mx, i).1
    ensures Carry(c, mn, mx, i).0[0] == c[0] + 1
    ensures forall j :: 1 <= j <= i ==> Carry(c, mn, mx, i).0[j] == mn[j]
    decreases i
  {
    var c1 := c[i := c[i] + 1];
    if i > 0 {
      var c2 := c1[i := mn[i]];
      CarryOut(c2, mn, mx, i - 1);
      CarryFrame(c2, mn, mx, i - 1);
    }
  }

  /** The carry loop moves forward in lexicographic order, at a component up to i. */
  lemma {:induction false} CarryLex(c: seq<int>, mn: seq<int>, mx: seq<int>, i: nat)
    requires |c| == |mn| == |mx| && i < |c|
    ensures var r := Carry(c, mn, mx, i).0;
      exists j :: 0 <= j <= i && Agree(c, r, j) && c[j] < r[j]
    decreases i
  {
    var c1 := c[i := c[i] + 1];
    var r := Carry(c, mn, mx, i).0;
    if c1[i] <= mx[i] || i == 0 {
      assert Agree(c, r, i) && c[i] < r[i];
    } else {
      var c2 := c1[i := mn[i]];
      CarryLex(c2, mn, mx, i - 1);
      var j :| 0 <= j <= i - 1 && Agree(c2, r, j) && c2[j] < r[j];
      assert Agree(c, r, j) && c[j] < r[j];
    }
  }

  /**
   * One call of next_address on an address in bounds: an address is left
   * exactly when this one is not the maximum, and then it is in bounds and
   * one further in rank; a carry out of component 0 leaves that component
   * at max[0] + 1 and the others at their minimum.  Either way the new
   * components come lexicographically after the old ones.
   */
  lemma NextStep(c: seq<int>, mn: seq<int>, mx: seq<int>)
    requires |c| == |mn| == |mx| && |c| > 0 && InBounds(c, mn, mx)
    ensures var (r, ok) := Next(c, mn, mx);
      && (ok <==> c != mx)
      && (ok ==> InBounds(r, mn, mx) && Rank(r, mn, mx, |c|) == Rank(c, mn, mx, |c|) + 1)
      && (!ok ==> r[0] == mx[0] + 1 && forall j :: 1 <= j < |c| ==> r[j] == mn[j])
      && LexLess(c, r)
  {
    var n := |c|;
    CarryFinds(c, mn, mx, n - 1);
    assert Agree(c, mx, n) <==> c == mx;
    if Next(c, mn, mx).1 {
      CarryRank(c, mn, mx, n - 1);
    } else {
      CarryOut(c, mn, mx, n - 1);
    }
    CarryLex(c, mn, mx, n - 1);
  }

  /** The address after k steps from the minimum. */
  function Walk(mn: seq<int>, mx: seq<int>, k: nat): (c: seq<int>)
    requires |mn| == |mx| > 0
    ensures |c| == |mn|
  {
    if k == 0 then mn else Next(Walk(mn, mx, k - 1), mn, mx).0
  }

  /**
   * The enumeration from the minimum: the address after k steps is in
   * bounds and has rank k for every k below the product of the sizes; every
   * step before the last finds an address, and the step after address
   * number Count - 1 (the maximum) ends the enumeration.  So exactly Count
   * addresses are produced.
   */
  lemma {:induction false} Enumerates(mn: seq<int>, mx: seq<int>, k: nat)
    requires |mn| == |mx| > 0 && Ordered(mn, mx) && k < Count(mn, mx, |mn|)
    ensures InBounds(Walk(mn, mx, k), mn, mx) && Rank(Walk(mn, mx, k), mn, mx, |mn|) == k
    ensures Next(Walk(mn, mx, k), mn, mx).1 <==> k < Count(mn, mx, |mn|) - 1
  {
    var n := |mn|;
    if k == 0 {
      assert InBounds(mn, mn, mx);
      RankZero(mn, mx, n);
    } else {
      Enumerates(mn, mx, k - 1);
      NextStep(Walk(mn, mx, k - 1), mn, mx);
    }
    var c := Walk(mn, mx, k);
    NextStep(c, mn, mx);
    RankBounds(c, mn, mx, n);
    assert Agree(c, mx, n) <==> c == mx;
  }

  /** A mixed-radix digit and the number above it are recovered from r * size + e. */
  lemma DigitUnique(r1: int, e1: int, r2: int, e2: int, size: int)
    requires 0 <= e1 < size && 0 <= e2 < size
    requires r1 * size + e1 == r2 * size + e2
    ensures r1 == r2 && e1 == e2
  {
    if r1 < r2 {
      MulMono(r1 + 1, r2, size);
    } else if r2 < r1 {
      MulMono(r2 + 1, r1, size);
    }
  }

  /** Two addresses in bounds with the same rank agree on the components it counts. */
  lemma {:induction false} RankInjective(c: seq<int>, d: seq<int>, mn: seq<int>, mx: seq<int>, k: nat)
    requires |c| == |d| == |mn| == |mx| && k <= |c| && InBounds(c, mn, mx) && InBounds(d, mn, mx)
    requires Rank(c, mn, mx, k) == Rank(d, mn, mx, k)
    ensures Agree(c, d, k)
  {
    if k > 0 {
      DigitUnique(Rank(c, mn, mx, k - 1), c[k - 1] - mn[k - 1],
                  Rank(d, mn, mx, k - 1), d[k - 1] - mn[k - 1], Size(mn, mx, k - 1));
      RankInjective(c, d, mn, mx, k - 1);
    }
  }

  /**
   * Every address in bounds is reached: the walk from the minimum arrives at
   * it after as many steps as its rank, which is below the number of
   * addresses.  With Enumerates, the first Count steps visit every address
   * in bounds exactly once.
   */
  lemma RankWalk(c: seq<int>, mn: seq<int>, mx: seq<int>)
    requires |c| == |mn| == |mx| > 0 && InBounds(c, mn, mx)
    ensures 0 <= Rank(c, mn, mx, |c|) < Count(mn, mx, |c|)
    ensures Walk(mn, mx, Rank(c, mn, mx, |c|)) == c
  {
    var n := |c|;
    RankBounds(c, mn, mx, n);
    var r := Rank(c, mn, mx, n);
    assert Ordered(mn, mx);
    Enumerates(mn, mx, r);
    var w := Walk(mn, mx, r);
    RankInjective(w, c, mn, mx, n);
  }

  /** The first Count steps from the minimum give pairwise different addresses. */
  lemma WalkDistinct(mn: seq<int>, mx: seq<int>, j: nat, k: nat)
    requires |mn| == |mx| > 0 && Ordered(mn, mx) && j < k < Count(mn, mx, |mn|)
    ensures Walk(mn, mx, j) != Walk(mn, mx, k)
  {
    Enumerates(mn, mx, j);
    Enumerates(mn, mx, k);
  }

  /** With every lower bound at most its upper bound there is at least one address. */
  lemma {:induction false} CountPositive(mn: seq<int>, mx: seq<int>, k: nat)
    requires |mn| == |mx| && k <= |mn| && Ordered(mn, mx)
    ensures Count(mn, mx, k) >= 1
  {
    if k > 0 {
      CountPositive(mn, mx, k - 1);
      MulMono(1, Count(mn, mx, k - 1), Size(mn, mx, k - 1));
    }
  }

  lemma {:induction false} RankZero(mn: seq<int>, mx: seq<int>, k: nat)
    requires |mn| == |mx| && k <= |mn|
    ensures Rank(mn, mn, mx, k) == 0
  {
    if k > 0 {
      RankZero(mn, mx, k - 1);
    }
  }

  // ---------------------------------------------------------------------
  // The dotted text of an address.

  /** "%d.%d.%d.%d" of the four components (also the stream insertion in address()). */
  function DottedAddress(c: seq<int>): (s: string)
    requires |c| == 4
    ensures 7 <= |s|
  {
    Decimal.FormatInt(c[0]) + "." + Decimal.FormatInt(c[1]) + "." + Decimal.FormatInt(c[2])
      + "." + Decimal.FormatInt(c[3])
  }

  /**
   * With every component an octet (0..255) the dotted text has at most 15
   * characters, so it fits the 16-byte buffer of kfind.c with its NUL.
   */
  lemma AddressFits(c: seq<int>)
    requires |c| == 4 && forall k :: 0 <= k < 4 ==> 0 <= c[k] <= 255
    ensures |DottedAddress(c)| <= 15
  {
    assert Decimal.Pow10(3) == 1000;
    Decimal.DigitsLength(c[0], 3, 1000);
    Decimal.DigitsLength(c[1], 3, 1000);
    Decimal.DigitsLength(c[2], 3, 1000);
    Decimal.DigitsLength(c[3], 3, 1000);
  }
}
