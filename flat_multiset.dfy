/**
 * The flat multiset `Multiset2<u16, SIZE>` as an object: an array of SIZE
 * multiplicities that `choose_random` replaces in place. The random number
 * generator is a parameter: `ticket` is the value `gen_range(1..=total)` drew.
 */
module FlatMultiset {
  import opened Baseline
  import opened Dispatch

  /** The walk of `choose_random` over `data`: a fresh array that keeps only
      the count the ticket lands on, all zeros when it lands nowhere. */
  method KeepTicket(data: array<nat>, ticket: nat) returns (res: array<nat>)
    requires ticket >= 1
    ensures fresh(res) && res[..] == KeepOnly(data[..], PrefixReach(data[..], ticket))
  {
    ghost var s := data[..];
    res := new nat[data.Length](_ => 0);
    var acc: nat := 0;
    var i := 0;
    while i < data.Length
      modifies res
      invariant 0 <= i <= data.Length && acc < ticket
      invariant PrefixReach(s, ticket) == i + PrefixReach(s[i..], ticket - acc)
      invariant forall q :: 0 <= q < res.Length ==> res[q] == 0
    {
      PrefixReachStep(s, ticket, i, acc);
      acc := acc + data[i];
      if acc >= ticket {
        res[i] := data[i];
        assert res[..] == KeepOnly(s, i);
        return;
      }
      i := i + 1;
    }
    assert res[..] == KeepOnly(s, PrefixReach(s, ticket));
  }

  class Multiset2 {
    var data: array<nat>

    /** Every multiplicity fits its `u16` slot. */
    ghost predicate Valid()
      reads this, data
    {
      IsU16Counts(data[..])
    }

    constructor (counts: seq<nat>)
      requires IsU16Counts(counts)
      ensures Valid() && data[..] == counts && fresh(data)
    {
      data := new nat[|counts|](i requires 0 <= i < |counts| => counts[i]);
    }

    /** `choose_random`: nothing happens on an empty multiset (by the dispatched
        total); otherwise only the element the ticket lands on is kept. */
    method ChooseRandom(tier: CpuFeature, ticket: nat)
      requires Valid()
      requires Total(tier, data[..]) == 0 || 1 <= ticket <= Total(tier, data[..])
      modifies this
      ensures Valid() && data.Length == old(data.Length)
      ensures old(Total(tier, data[..])) == 0 ==> data == old(data) && data[..] == old(data[..])
      ensures old(Total(tier, data[..])) > 0 ==>
        fresh(data) && data[..] == KeepOnly(old(data[..]), PrefixReach(old(data[..]), ticket))
    {
      var total := Total(tier, data[..]);
      if total == 0 {
        return;
      }
      var res := KeepTicket(data, ticket);
      data := res;
    }
  }
}
