/**
 * cxx/examples/address_source.cpp: the address_source class of the C++
 * device finder.  Its three `int[4]` members are arrays here and
 * `have_address_` a field; next_address runs the carry loop of the
 * odometer in place.
 */
module AddressSource {
  import opened Odometer

  class AddressSource {
    var haveAddress: bool
    const min: array<int>
    const max: array<int>
    const cur: array<int>

    ghost predicate Valid()
      reads this
    {
      min.Length == 4 && max.Length == 4 && cur.Length == 4
      && min != max && min != cur && max != cur
    }

    /** address_source() (lines 38-41): have_address_ is true; the arrays are not initialised. */
    constructor ()
      ensures Valid() && haveAddress
      ensures fresh(min) && fresh(max) && fresh(cur)
    {
      haveAddress := true;
      min := new int[4];
      max := new int[4];
      cur := new int[4];
    }

    /** have_address() (lines 8-12). */
    function HaveAddress(): bool
      reads this
    {
      haveAddress
    }

    /** address() (lines 30-36): the four components joined by dots. */
    function Address(): string
      reads this, cur
      requires Valid()
    {
      DottedAddress(cur[..])
    }

    /** set_bounds (lines 43-52): cur and min take the lower bounds, max the upper ones. */
    method SetBounds(mn: seq<int>, mx: seq<int>)
      requires Valid() && |mn| == 4 && |mx| == 4
      modifies `haveAddress, min, max, cur
      ensures Valid()
      ensures min[..] == mn && max[..] == mx && cur[..] == mn && haveAddress
    {
      for i := 0 to 4
        invariant min[..i] == mn[..i] && cur[..i] == mn[..i] && max[..i] == mx[..i]
      {
        min[i] := mn[i];
        cur[i] := mn[i];
        max[i] := mx[i];
      }
      haveAddress := true;
    }

    /**
     * next_address (lines 14-28): the carry loop of Odometer.Next, in place.
     * have_address_ turns false on a carry out of component 0 and is
     * otherwise left as it was.
     */
    method NextAddress()
      requires Valid()
      modifies `haveAddress, cur
      ensures Valid()
      ensures cur[..] == Next(old(cur[..]), min[..], max[..]).0
      ensures haveAddress == (old(haveAddress) && Next(old(cur[..]), min[..], max[..]).1)
    {
      ghost var goal := Next(cur[..], min[..], max[..]);
      ghost var c0 := cur[..];
      var i := 3;
      cur[i] := cur[i] + 1;
      assert cur[..][i := cur[i] - 1] == c0;
      while cur[i] > max[i]
        invariant 0 <= i < 4
        invariant haveAddress == old(haveAddress)
        invariant Carry(cur[..][i := cur[i] - 1], min[..], max[..], i) == goal
        decreases i
      {
        if i > 0 {
          ghost var before := cur[..][i := cur[i] - 1];
          assert before[i := before[i] + 1] == cur[..];
          ghost var reset := cur[..][i := min[i]];
          cur[i] := min[i];
          i := i - 1;
          cur[i] := cur[i] + 1;
          assert cur[..][i := cur[i] - 1] == reset;
        } else {
          haveAddress := false;
          assert cur[..][i := cur[i] - 1][i := cur[i]] == cur[..];
          break;
        }
      }
      assert cur[..][i := cur[i] - 1][i := cur[i]] == cur[..];
    }
  }
}
