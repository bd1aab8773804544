/**
 * The vector-array multiset as an object: `data` is the fixed array of SIMD
 * vectors that the constructors fill and that `clear`, `choose` and
 * `choose_random` overwrite slot by slot. Queries that only read the counts
 * are the functions of `VectorArray` applied to `data[..]`. The random number
 * generator is a parameter: `ticket` is the value `gen_range` drew.
 */
module VectorMultiset {
  import opened Baseline
  import opened Lanes
  import opened VectorArray

  datatype Option<T> = None | Some(value: T)

  class Multiset {
    const lanes: nat
    const bits: nat
    const data: array<Vector>

    /** At least one vector of at least one lane, and every count fits the scalar. */
    ghost predicate Valid()
      reads this, data
    {
      WellFormed(data[..], lanes, bits)
    }

    /** The counts in element order. */
    function Flat(): (s: seq<nat>)
      reads this, data
      requires Valid()
      ensures |s| == Len()
    {
      FlattenLength(data[..], lanes);
      Flatten(data[..])
    }

    /** `len`: lanes per vector times the number of vectors. */
    function Len(): nat
      reads this
    {
      data.Length * lanes
    }

    /** `from_iter`: element `p` gets the `p`-th item when there is one and 0
        otherwise; items beyond the capacity are never read. */
    constructor FromIter(lanes: nat, usize: nat, bits: nat, items: seq<nat>)
      requires lanes > 0 && usize > 0
      requires forall k :: 0 <= k < |items| ==> items[k] < Pow2(bits)
      ensures Valid() && this.lanes == lanes && this.bits == bits && data.Length == usize
      ensures fresh(data)
      ensures forall p :: 0 <= p < |Flat()| ==> Flat()[p] == if p < |items| then items[p] else 0
    {
      var a := new Vector[usize](_ => Splat(0, lanes));
      var next := 0;
      ghost var base: nat := 0;
      var i := 0;
      while i < usize
        invariant 0 <= i <= usize && base == i * lanes
        invariant next == Min(base, |items|)
        invariant forall q :: 0 <= q < usize ==> |a[q]| == lanes
        invariant forall q :: 0 <= q < i ==> a[q] == PadTo(items[Min(q * lanes, |items|)..], lanes)
      {
        var v;
        v, next := FillLanes(items, next, lanes);
        a[i] := v;
        MulSucc(i, lanes);
        base := base + lanes;
        i := i + 1;
      }
      PaddedVectorsFlat(a[..], lanes, bits, items);
      this.lanes := lanes;
      this.bits := bits;
      this.data := a;
    }

    /** `repeat`: every element gets the count `elem`. */
    constructor Repeat(lanes: nat, usize: nat, bits: nat, elem: nat)
      requires lanes > 0 && usize > 0 && elem < Pow2(bits)
      ensures Valid() && this.lanes == lanes && this.bits == bits && data.Length == usize
      ensures fresh(data)
      ensures forall p :: 0 <= p < |Flat()| ==> Flat()[p] == elem
    {
      var a := new Vector[usize](_ => Splat(0, lanes));
      var i := 0;
      while i < usize
        invariant 0 <= i <= usize
        invariant forall q :: 0 <= q < usize ==> |a[q]| == lanes
        invariant forall q :: 0 <= q < i ==> a[q] == Splat(elem, lanes)
      {
        a[i] := Splat(elem, lanes);
        i := i + 1;
      }
      FlattenFromLanes(a[..], lanes, Splat(elem, usize * lanes));
      this.lanes := lanes;
      this.bits := bits;
      this.data := a;
    }

    /** `empty`: every count is zero. */
    static method Empty(lanes: nat, usize: nat, bits: nat) returns (m: Multiset)
      requires lanes > 0 && usize > 0
      ensures fresh(m) && fresh(m.data) && m.Valid()
      ensures m.lanes == lanes && m.bits == bits && m.data.Length == usize
      ensures IsEmpty(m.data[..])
    {
      m := new Multiset.Repeat(lanes, usize, bits, 0);
      assert forall p :: 0 <= p < |m.Flat()| ==> Flatten<nat>(m.data[..])[p] == 0;
      FlattenAllZero(m.data[..]);
    }

    /** `from_slice`: a slice whose length is not `len` is refused (the source
        panics); otherwise its items are the counts. */
    static method FromSlice(lanes: nat, usize: nat, bits: nat, slice: seq<nat>) returns (r: Option<Multiset>)
      requires lanes > 0 && usize > 0
      requires forall k :: 0 <= k < |slice| ==> slice[k] < Pow2(bits)
      ensures r.Some? <==> |slice| == lanes * usize
      ensures r.Some? ==> fresh(r.value) && fresh(r.value.data) && r.value.Valid()
      ensures r.Some? ==> r.value.lanes == lanes && r.value.bits == bits && r.value.data.Length == usize
      ensures r.Some? ==> r.value.Flat() == slice
    {
      if |slice| != lanes * usize {
        return None;
      }
      var m := new Multiset.FromIter(lanes, usize, bits, slice);
      assert m.Flat() == slice;
      return Some(m);
    }

    /** `clear`: every count becomes zero, in place. */
    method Clear()
      requires Valid()
      modifies data
      ensures Valid() && IsEmpty(data[..])
    {
      var i := 0;
      while i < data.Length
        invariant 0 <= i <= data.Length
        invariant forall q :: 0 <= q < i ==> data[q] == Splat(0, lanes)
        invariant forall q :: i <= q < data.Length ==> data[q] == old(data[q])
      {
        data[i] := Splat(0, lanes);
        i := i + 1;
      }
    }

    /** `argmax`: the first element holding the largest count, and that count;
        a later element replaces the candidate only when strictly larger. */
    method Argmax() returns (idx: nat, val: nat)
      requires Valid()
      ensures idx < |Flat()| && val == Flat()[idx]
      ensures forall p :: 0 <= p < |Flat()| ==> Flat()[p] <= val
      ensures forall p :: 0 <= p < idx ==> Flat()[p] < val
    {
      ghost var d := data[..];
      ghost var s := Flat();
      FlattenAt(d, lanes, 0, 0);
      val := data[0][0];
      idx := 0;
      ghost var base: nat := 0;
      var arrIdx := 0;
      while arrIdx < data.Length
        invariant 0 <= arrIdx <= data.Length && base == arrIdx * lanes && base <= |s|
        invariant idx < |s| && s[idx] == val
        invariant forall p :: 0 <= p < base ==> s[p] <= val
        invariant forall p :: 0 <= p < idx ==> s[p] < val
      {
        var v := data[arrIdx];
        VectorAtBase(d, lanes, arrIdx, base);
        var top, hit, lane := MaxLanes(v, val);
        if hit {
          val := top;
          idx := arrIdx * lanes + lane;
          assert idx == base + lane;
        }
        MulSucc(arrIdx, lanes);
        base := base + lanes;
        arrIdx := arrIdx + 1;
      }
    }

    /** `argmin` as written: the smallest count, but the index reported is the
        lane of its first occurrence within its vector, not its element index. */
    method ArgminAsWritten() returns (idx: nat, val: nat)
      requires Valid()
      ensures forall p :: 0 <= p < |Flat()| ==> val <= Flat()[p]
      ensures exists q :: 0 <= q < |Flat()| && Flat()[q] == val &&
                (forall p :: 0 <= p < q ==> val < Flat()[p]) && idx == q % lanes
    {
      ghost var d := data[..];
      ghost var s := Flat();
      FlattenAt(d, lanes, 0, 0);
      val := data[0][0];
      idx := 0;
      ghost var q: nat := 0;
      ghost var base: nat := 0;
      var arrIdx := 0;
      while arrIdx < data.Length
        invariant 0 <= arrIdx <= data.Length && base == arrIdx * lanes && base <= |s|
        invariant q < |s| && s[q] == val && idx == q % lanes
        invariant forall p :: 0 <= p < base ==> val <= s[p]
        invariant forall p :: 0 <= p < q ==> val < s[p]
      {
        var v := data[arrIdx];
        VectorAtBase(d, lanes, arrIdx, base);
        var bottom, hit, lane := MinLanes(v, val);
        if hit {
          val := bottom;
          idx := lane;
          q := base + lane;
          DivModSplit(arrIdx, lane, lanes);
        }
        MulSucc(arrIdx, lanes);
        base := base + lanes;
        arrIdx := arrIdx + 1;
      }
    }

    /** `argmin` with the element index recorded as `argmax` records it: the
        first element holding the smallest count, and that count. */
    method Argmin() returns (idx: nat, val: nat)
      requires Valid()
      ensures idx < |Flat()| && val == Flat()[idx]
      ensures forall p :: 0 <= p < |Flat()| ==> val <= Flat()[p]
      ensures forall p :: 0 <= p < idx ==> val < Flat()[p]
    {
      ghost var d := data[..];
      ghost var s := Flat();
      FlattenAt(d, lanes, 0, 0);
      val := data[0][0];
      idx := 0;
      ghost var base: nat := 0;
      var arrIdx := 0;
      while arrIdx < data.Length
        invariant 0 <= arrIdx <= data.Length && base == arrIdx * lanes && base <= |s|
        invariant idx < |s| && s[idx] == val
        invariant forall p :: 0 <= p < base ==> val <= s[p]
        invariant forall p :: 0 <= p < idx ==> val < s[p]
      {
        var v := data[arrIdx];
        VectorAtBase(d, lanes, arrIdx, base);
        var bottom, hit, lane := MinLanes(v, val);
        if hit {
          val := bottom;
          idx := arrIdx * lanes + lane;
          assert idx == base + lane;
        }
        MulSucc(arrIdx, lanes);
        base := base + lanes;
        arrIdx := arrIdx + 1;
      }
    }

    /** `imax`: the index part of `argmax`. */
    method Imax() returns (idx: nat)
      requires Valid()
      ensures idx < |Flat()|
      ensures forall p :: 0 <= p < |Flat()| ==> Flat()[p] <= Flat()[idx]
      ensures forall p :: 0 <= p < idx ==> Flat()[p] < Flat()[idx]
    {
      var val;
      idx, val := Argmax();
    }

    /** `imin` as written: the index part of `argmin`, so a lane offset. */
    method IminAsWritten() returns (idx: nat)
      requires Valid()
      ensures exists q :: 0 <= q < |Flat()| && idx == q % lanes &&
                (forall p :: 0 <= p < |Flat()| ==> Flat()[q] <= Flat()[p]) &&
                (forall p :: 0 <= p < q ==> Flat()[q] < Flat()[p])
    {
      var val;
      idx, val := ArgminAsWritten();
    }

    /** `imin` over the corrected `argmin`: the first element holding the
        smallest count. */
    method Imin() returns (idx: nat)
      requires Valid()
      ensures idx < |Flat()|
      ensures forall p :: 0 <= p < |Flat()| ==> Flat()[idx] <= Flat()[p]
      ensures forall p :: 0 <= p < idx ==> Flat()[idx] < Flat()[p]
    {
      var val;
      idx, val := Argmin();
    }

    /** `choose`: the count of `elem` is kept and every other count is zeroed;
        an `elem` beyond `len` zeroes everything. */
    method Choose(elem: nat)
      requires Valid()
      modifies data
      ensures Valid() && Flat() == KeepOnly(old(Flat()), elem)
    {
      var arrayIndex := elem / lanes;
      var vectorIndex := elem % lanes;
      ghost var d := data[..];
      var i := 0;
      while i < data.Length
        invariant 0 <= i <= data.Length
        invariant forall q :: 0 <= q < i ==> data[q] == ChooseVectors(d, lanes, elem)[q]
        invariant forall q :: i <= q < data.Length ==> data[q] == d[q]
      {
        DivRange(elem, lanes, i);
        if i == arrayIndex {
          data[i] := KeepOnly(data[i], vectorIndex);
        } else {
          data[i] := Splat(0, lanes);
        }
        i := i + 1;
      }
      assert data[..] == ChooseVectors(d, lanes, elem);
      ChooseVectorsFlat(d, lanes, elem);
    }

    /** The walk of `choose_random` for a drawn `ticket`: the running sum, a
        wrapping scalar, goes lane by lane until it reaches the ticket; that lane
        is kept, every other count zeroed. */
    method WeightedWalk(ticket: nat)
      requires Valid()
      modifies data
      ensures Valid()
      ensures Flat() == KeepOnly(old(Flat()), WrappedReach(old(Flat()), ticket, 0, Pow2(bits)))
    {
      var m := Pow2(bits);
      ghost var d := data[..];
      ghost var s := Flatten<nat>(d);
      ghost var k := WrappedReach(s, ticket, 0, m);
      FlattenLength(d, lanes);
      var acc: nat := 0;
      var chosen := false;
      ghost var chosenVectors := ChooseVectors(d, lanes, k);
      ghost var base: nat := 0;
      var i := 0;
      while i < data.Length
        invariant 0 <= i <= data.Length && base == i * lanes && base <= |s|
        invariant forall q :: 0 <= q < i ==> data[q] == chosenVectors[q]
        invariant forall q :: i <= q < data.Length ==> data[q] == d[q]
        invariant chosen ==> k < base
        invariant !chosen ==> WalkPending(s, base, ticket, acc, m, k)
      {
        var v := data[i];
        assert v == d[i] && |v| == lanes;
        VectorAtBase(d, lanes, i, base);
        ChooseVectorsAt(d, lanes, k, i, base);
        ghost var nextBase := base + lanes;
        var next;
        next, acc, chosen := ChooseInVector(v, ticket, acc, m, chosen, s, base, nextBase, k);
        assert next == chosenVectors[i];
        data[i] := next;
        MulSucc(i, lanes);
        base := nextBase;
        i := i + 1;
      }
      assert data[..] == chosenVectors;
      ChooseVectorsFlat(d, lanes, k);
    }

    /** `choose_random` as written: the ticket is drawn from `0..=total`, which
        needs `total + 1` to fit the scalar. */
    method ChooseRandom(ticket: nat)
      requires Valid()
      requires Total(data[..], lanes, bits) + 1 < Pow2(bits) && ticket <= Total(data[..], lanes, bits)
      modifies data
      ensures Valid()
      ensures Flat() == KeepOnly(old(Flat()), WrappedReach(old(Flat()), ticket, 0, Pow2(bits)))
    {
      WeightedWalk(ticket);
    }

    /** `choose_random` drawing from `1..=total` and leaving an empty multiset
        alone, as the flat multiset does: the element kept is always present. */
    method ChooseRandomNonEmpty(ticket: nat)
      requires Valid()
      requires Total(data[..], lanes, bits) == 0 || 1 <= ticket <= Total(data[..], lanes, bits)
      modifies data
      ensures Valid()
      ensures old(Total(data[..], lanes, bits)) == 0 ==> Flat() == old(Flat())
      ensures old(Total(data[..], lanes, bits)) > 0 ==>
        var k := WrappedReach(old(Flat()), ticket, 0, Pow2(bits));
        k < |old(Flat())| && old(Flat())[k] > 0 && Flat() == KeepOnly(old(Flat()), k)
    {
      if Total(data[..], lanes, bits) == 0 {
        return;
      }
      WrappedReachSelects(Flat(), ticket, 0, Pow2(bits));
      WeightedWalk(ticket);
    }
  }

  /** Vectors filled one after another from the items are a well-formed
      array whose counts are the items, padded with 0. */
  lemma PaddedVectorsFlat(d: seq<Vector>, lanes: nat, bits: nat, items: seq<nat>)
    requires lanes > 0 && |d| > 0
    requires forall k :: 0 <= k < |items| ==> items[k] < Pow2(bits)
    requires forall q :: 0 <= q < |d| ==> d[q] == PadTo(items[Min(q * lanes, |items|)..], lanes)
    ensures WellFormed(d, lanes, bits)
    ensures forall p :: 0 <= p < |Flatten(d)| ==> Flatten(d)[p] == if p < |items| then items[p] else 0
  {
    var s := seq(|d| * lanes, p requires 0 <= p < |d| * lanes => if p < |items| then items[p] else 0);
    assert Uniform(d, lanes);
    FlattenFromLanes(d, lanes, s);
    forall q, j | 0 <= q < |d| && 0 <= j < |d[q]|
      ensures d[q][j] < Pow2(bits)
    {
      FlattenAt(d, lanes, q, j);
    }
  }

  /** The inner loop of `from_iter` for one vector: its lanes take the next
      items in order, from index `next0` on, and 0 once the items run out. */
  method FillLanes(items: seq<nat>, next0: nat, lanes: nat) returns (v: Vector, next: nat)
    requires next0 <= |items|
    ensures next == Min(next0 + lanes, |items|)
    ensures v == PadTo(items[next0..], lanes)
  {
    v, next := Splat(0, lanes), next0;
    var j := 0;
    while j < lanes
      invariant 0 <= j <= lanes && |v| == lanes
      invariant next == Min(next0 + j, |items|)
      invariant forall jj :: 0 <= jj < j ==> v[jj] == if next0 + jj < |items| then items[next0 + jj] else 0
      invariant forall jj :: j <= jj < lanes ==> v[jj] == 0
    {
      if next < |items| {
        v := v[j := items[next]];
        next := next + 1;
      }
      j := j + 1;
    }
  }

  /** The inner loop of `argmax` over the lanes of one vector: a lane strictly
      larger than the running maximum `top0` replaces it. `hit` says whether
      any lane did; `lane` is then the first lane holding the new maximum. */
  method MaxLanes(v: Vector, top0: nat) returns (top: nat, hit: bool, lane: nat)
    ensures top0 <= top && forall j :: 0 <= j < |v| ==> v[j] <= top
    ensures hit ==> lane < |v| && v[lane] == top && top0 < top &&
                    forall j :: 0 <= j < lane ==> v[j] < top
    ensures !hit ==> top == top0
  {
    top, hit, lane := top0, false, 0;
    var i := 0;
    while i < |v|
      invariant 0 <= i <= |v| && top0 <= top
      invariant forall j :: 0 <= j < i ==> v[j] <= top
      invariant hit ==> lane < i && v[lane] == top && top0 < top &&
                        forall j :: 0 <= j < lane ==> v[j] < top
      invariant !hit ==> top == top0
    {
      if v[i] > top {
        top, hit, lane := v[i], true, i;
      }
      i := i + 1;
    }
  }

  /** The inner loop of `argmin` over the lanes of one vector: a lane strictly
      smaller than the running minimum `bottom0` replaces it. `hit` says
      whether any lane did; `lane` is then the first lane holding the new
      minimum. */
  method MinLanes(v: Vector, bottom0: nat) returns (bottom: nat, hit: bool, lane: nat)
    ensures bottom <= bottom0 && forall j :: 0 <= j < |v| ==> bottom <= v[j]
    ensures hit ==> lane < |v| && v[lane] == bottom && bottom < bottom0 &&
                    forall j :: 0 <= j < lane ==> bottom < v[j]
    ensures !hit ==> bottom == bottom0
  {
    bottom, hit, lane := bottom0, false, 0;
    var i := 0;
    while i < |v|
      invariant 0 <= i <= |v| && bottom <= bottom0
      invariant forall j :: 0 <= j < i ==> bottom <= v[j]
      invariant hit ==> lane < i && v[lane] == bottom && bottom < bottom0 &&
                        forall j :: 0 <= j < lane ==> bottom < v[j]
      invariant !hit ==> bottom == bottom0
    {
      if v[i] < bottom {
        bottom, hit, lane := v[i], true, i;
      }
      i := i + 1;
    }
  }

  /** One pass of the outer loop of `choose_random`, on the vector `v` holding
      elements `base ..` of the counts `s`: once an element is chosen the vector
      is zeroed; otherwise the lanes are walked, and the vector keeps only the
      lane where the walk stops, or is zeroed when it does not stop here. The
      result is lane `k - base` kept when the walk's stopping element `k` lies
      in this vector, and zero otherwise. */
  method ChooseInVector(v: Vector, ticket: nat, acc0: nat, m: nat, chosen0: bool,
                        ghost s: seq<nat>, ghost base: nat, ghost nextBase: nat, ghost k: nat)
    returns (next: Vector, acc: nat, chosen: bool)
    requires m > 0 && nextBase == base + |v| && nextBase <= |s|
    requires forall p :: base <= p < base + |v| ==> s[p] == v[p - base]
    requires chosen0 ==> k < base
    requires !chosen0 ==> WalkPending(s, base, ticket, acc0, m, k)
    ensures next == if base <= k < base + |v| then KeepOnly(v, k - base) else Splat(0, |v|)
    ensures chosen ==> k < nextBase
    ensures !chosen ==> WalkPending(s, nextBase, ticket, acc, m, k)
  {
    acc, chosen := acc0, chosen0;
    if chosen {
      next := Splat(0, |v|);
    } else {
      var vectorIndex;
      acc, vectorIndex, chosen := WalkLanes(v, ticket, acc, m, s, base);
      if chosen {
        next := KeepOnly(v, vectorIndex);
      } else {
        next := Splat(0, |v|);
      }
    }
  }

  /** The labelled inner loop of `choose_random` over the lanes of one vector
      `v`, which holds elements `base ..` of the counts `s`: the wrapping running
      sum goes on from `acc0` and stops at the first lane where it reaches
      `ticket`. Either the walk over `s` from `base` stops in this vector, or it
      goes on past it with the new running sum. */
  method WalkLanes(v: Vector, ticket: nat, acc0: nat, m: nat, ghost s: seq<nat>, ghost base: nat)
    returns (acc: nat, vectorIndex: nat, chosen: bool)
    requires m > 0 && acc0 < m && base + |v| <= |s|
    requires forall p :: base <= p < base + |v| ==> s[p] == v[p - base]
    ensures acc < m
    ensures chosen ==> vectorIndex < |v| && WrappedReach(s[base..], ticket, acc0, m) == vectorIndex
    ensures !chosen ==>
      WrappedReach(s[base..], ticket, acc0, m) == |v| + WrappedReach(s[base + |v|..], ticket, acc, m)
  {
    acc, vectorIndex, chosen := acc0, 0, false;
    var j := 0;
    while j < |v|
      invariant 0 <= j <= |v| && acc < m
      invariant WrappedReach(s[base..], ticket, acc0, m) == j + WrappedReach(s[base + j..], ticket, acc, m)
    {
      ghost var p := base + j;
      assert s[p..][0] == v[j] && s[p..][1..] == s[p + 1..];
      acc := (acc + v[j]) % m;
      if acc >= ticket {
        vectorIndex := j;
        chosen := true;
        return;
      }
      j := j + 1;
    }
  }

  /** The lane offset of `argmin` names the wrong element: in [[1, 1], [0, 1]]
      the smallest count 0 is first held by element 2, lane 0 of its vector,
      so every result `ArgminAsWritten` may return reports element 0, which
      holds 1. */
  lemma ArgminLaneOffsetMisreports(idx: nat, val: nat)
    requires var s := Flatten<nat>([[1, 1], [0, 1]]);
      (forall p :: 0 <= p < |s| ==> val <= s[p]) &&
      exists q :: 0 <= q < |s| && s[q] == val &&
        (forall p :: 0 <= p < q ==> val < s[p]) && idx == q % 2
    ensures val == 0 && idx == 0 && Flatten<nat>([[1, 1], [0, 1]])[idx] == 1
  {
    var d: seq<Vector> := [[1, 1], [0, 1]];
    assert d[..1] == [[1, 1]];
    assert d[..1][..0] == [];
    var s := Flatten<nat>(d);
    assert s == [1, 1, 0, 1];
    assert val <= s[2];
    var q :| 0 <= q < |s| && s[q] == val && (forall p :: 0 <= p < q ==> val < s[p]) && idx == q % 2;
    assert q == 2;
  }

  /** With ticket 0 the walk stops at element 0 whatever its count, so a
      multiset whose first count is 0 comes out empty: [[0, 1]] has total 1. */
  lemma ChooseRandomTicketZeroEmpties()
    ensures var d: seq<Vector> := [[0, 1]];
      var s := Flatten(d);
      WellFormed(d, 2, 8) && Total(d, 2, 8) == 1 && Total(d, 2, 8) + 1 < Pow2(8) &&
      WrappedReach(s, 0, 0, Pow2(8)) == 0 && TotalDefault(KeepOnly(s, 0)) == 0
  {
    var d: seq<Vector> := [[0, 1]];
    assert d[..0] == [];
    assert Flatten(d) == [0, 1];
    assert Pow2(8) == 256;
    KeepOnlyTotal(Flatten(d), 0);
    assert TotalDefault([0, 1]) == TotalDefault([0]) + 1;
    assert TotalDefault([0]) == TotalDefault([0][..0]) + 0;
  }

  /** The corrected draw never empties a non-empty multiset: the element kept
      is present and keeps its full count. */
  lemma ChooseRandomNonEmptyKeepsOne(d: seq<Vector>, lanes: nat, bits: nat, ticket: nat)
    requires WellFormed(d, lanes, bits) && 1 <= ticket <= Total(d, lanes, bits)
    ensures var s := Flatten(d);
      var k := WrappedReach(s, ticket, 0, Pow2(bits));
      k < |s| && TotalDefault(KeepOnly(s, k)) == s[k] > 0
  {
    var s := Flatten(d);
    WrappedReachSelects(s, ticket, 0, Pow2(bits));
    KeepOnlyTotal(s, WrappedReach(s, ticket, 0, Pow2(bits)));
  }
}
