/**
 * Scalar baseline of the flat multiset `Multiset2<u16, SIZE>`: the
 * element-by-element `_default` operations. A multiset is the sequence of
 * its multiplicities; index `i` is the domain element `i`. These
 * definitions are the ground truth that every vector tier, and the
 * vector-array representation, is proved against.
 */
module Baseline {

  /** Exclusive upper bound of a `u16` multiplicity. */
  const U16Limit: nat := 0x1_0000

  /** Every multiplicity fits the `u16` scalar of `Multiset2<u16, SIZE>`. */
  predicate IsU16Counts(s: seq<nat>) {
    forall i :: 0 <= i < |s| ==> s[i] < U16Limit
  }

  function Min(x: nat, y: nat): nat { if x <= y then x else y }

  function Max(x: nat, y: nat): nat { if x <= y then y else x }

  /** `_intersection_default`: `zip_map` with `min`. */
  function IntersectionDefault(a: seq<nat>, b: seq<nat>): (r: seq<nat>)
    requires |a| == |b|
    ensures |r| == |a|
    ensures forall i :: 0 <= i < |r| ==>
      r[i] <= a[i] && r[i] <= b[i] && (r[i] == a[i] || r[i] == b[i])
  {
    seq(|a|, i requires 0 <= i < |a| => Min(a[i], b[i]))
  }

  /** `_union_default`: `zip_map` with `max`. */
  function UnionDefault(a: seq<nat>, b: seq<nat>): (r: seq<nat>)
    requires |a| == |b|
    ensures |r| == |a|
    ensures forall i :: 0 <= i < |r| ==>
      a[i] <= r[i] && b[i] <= r[i] && (r[i] == a[i] || r[i] == b[i])
  {
    seq(|a|, i requires 0 <= i < |a| => Max(a[i], b[i]))
  }

  /** `_total_default`: the exact (`usize`) sum of all multiplicities, left to right. */
  function TotalDefault(s: seq<nat>): nat {
    if |s| == 0 then 0 else TotalDefault(s[..|s| - 1]) + s[|s| - 1]
  }

  /** `_count_non_zero_default`: folds `min(elem, 1)`; the result is the
      number of positions whose multiplicity is not zero. */
  function CountNonZeroDefault(s: seq<nat>): (r: nat)
    ensures r == |s| - multiset(s)[0]
  {
    if |s| == 0 then 0
    else
      assert s == s[..|s| - 1] + [s[|s| - 1]];
      CountNonZeroDefault(s[..|s| - 1]) + Min(s[|s| - 1], 1)
  }

  /** `_is_disjoint_default`: no position where both minima are non-zero. */
  predicate IsDisjointDefault(a: seq<nat>, b: seq<nat>)
    requires |a| == |b|
  {
    forall i :: 0 <= i < |a| ==> Min(a[i], b[i]) == 0
  }

  /** `_is_subset_default`. */
  predicate IsSubsetDefault(a: seq<nat>, b: seq<nat>)
    requires |a| == |b|
  {
    forall i :: 0 <= i < |a| ==> a[i] <= b[i]
  }

  /** `_is_superset_default`. */
  predicate IsSupersetDefault(a: seq<nat>, b: seq<nat>)
    requires |a| == |b|
  {
    forall i :: 0 <= i < |a| ==> a[i] >= b[i]
  }

  /** `_is_any_lesser_default`. */
  predicate IsAnyLesserDefault(a: seq<nat>, b: seq<nat>)
    requires |a| == |b|
  {
    exists i :: 0 <= i < |a| && a[i] < b[i]
  }

  /** `_is_any_greater_default`. */
  predicate IsAnyGreaterDefault(a: seq<nat>, b: seq<nat>)
    requires |a| == |b|
  {
    exists i :: 0 <= i < |a| && a[i] > b[i]
  }

  /** The multiset after restricting it to element `k`: every other count is
      zeroed, and an out-of-range `k` zeroes everything. */
  function KeepOnly(s: seq<nat>, k: nat): (r: seq<nat>)
    ensures |r| == |s|
  {
    seq(|s|, i requires 0 <= i < |s| => if i == k then s[i] else 0)
  }

  // ---------------------------------------------------------------------
  // Laws of the baseline
  // ---------------------------------------------------------------------

  lemma {:induction false} TotalAppend(x: seq<nat>, y: seq<nat>)
    ensures TotalDefault(x + y) == TotalDefault(x) + TotalDefault(y)
    decreases |y|
  {
    if |y| > 0 {
      assert (x + y)[..|x + y| - 1] == x + y[..|y| - 1];
      TotalAppend(x, y[..|y| - 1]);
    } else {
      assert x + y == x;
    }
  }

  /** A total is zero exactly when every multiplicity is zero. */
  lemma {:induction false} TotalZeroIffEmpty(s: seq<nat>)
    ensures TotalDefault(s) == 0 <==> forall i :: 0 <= i < |s| ==> s[i] == 0
  {
    if |s| > 0 {
      TotalZeroIffEmpty(s[..|s| - 1]);
      assert forall i :: 0 <= i < |s| - 1 ==> s[..|s| - 1][i] == s[i];
    }
  }

  /** Inclusion-exclusion: |A u B| + |A n B| == |A| + |B|. */
  lemma {:induction false} InclusionExclusion(a: seq<nat>, b: seq<nat>)
    requires |a| == |b|
    ensures TotalDefault(UnionDefault(a, b)) + TotalDefault(IntersectionDefault(a, b))
         == TotalDefault(a) + TotalDefault(b)
  {
    if |a| > 0 {
      var n := |a| - 1;
      InclusionExclusion(a[..n], b[..n]);
      assert UnionDefault(a, b)[..n] == UnionDefault(a[..n], b[..n]);
      assert IntersectionDefault(a, b)[..n] == IntersectionDefault(a[..n], b[..n]);
    }
  }

  /** Intersection and union are commutative and idempotent. */
  lemma IntersectionUnionLaws(a: seq<nat>, b: seq<nat>)
    requires |a| == |b|
    ensures IntersectionDefault(a, b) == IntersectionDefault(b, a)
    ensures UnionDefault(a, b) == UnionDefault(b, a)
    ensures IntersectionDefault(a, a) == a && UnionDefault(a, a) == a
  {
  }

  /** Subset is the order that intersection and union induce. */
  lemma SubsetIffMeetJoin(a: seq<nat>, b: seq<nat>)
    requires |a| == |b|
    ensures IsSubsetDefault(a, b) <==> IntersectionDefault(a, b) == a
    ensures IsSubsetDefault(a, b) <==> UnionDefault(a, b) == b
  {
    if IntersectionDefault(a, b) == a {
      assert forall i :: 0 <= i < |a| ==> IntersectionDefault(a, b)[i] == a[i];
    }
    if UnionDefault(a, b) == b {
      assert forall i :: 0 <= i < |a| ==> UnionDefault(a, b)[i] == b[i];
    }
  }

  /** Subset is antisymmetric, and superset is its mirror. */
  lemma SubsetAntisymmetric(a: seq<nat>, b: seq<nat>)
    requires |a| == |b|
    ensures IsSubsetDefault(a, b) && IsSubsetDefault(b, a) <==> a == b
    ensures IsSupersetDefault(a, b) <==> IsSubsetDefault(b, a)
  {
  }

  /** The two definitions of a proper subset agree: `self != other && is_subset`
      (the flat multiset) and `is_subset && is_any_lesser` (the vector array);
      likewise for proper supersets. */
  lemma ProperSubsetDefinitionsAgree(a: seq<nat>, b: seq<nat>)
    requires |a| == |b|
    ensures (a != b && IsSubsetDefault(a, b)) <==> (IsSubsetDefault(a, b) && IsAnyLesserDefault(a, b))
    ensures (a != b && IsSupersetDefault(a, b)) <==> (IsSupersetDefault(a, b) && IsAnyGreaterDefault(a, b))
  {
    if IsSubsetDefault(a, b) && !IsAnyLesserDefault(a, b) {
      assert a == b;
    }
    if IsSupersetDefault(a, b) && !IsAnyGreaterDefault(a, b) {
      assert a == b;
    }
  }

  /** Disjointness means the intersection is empty. */
  lemma DisjointIffEmptyIntersection(a: seq<nat>, b: seq<nat>)
    requires |a| == |b|
    ensures IsDisjointDefault(a, b) <==> TotalDefault(IntersectionDefault(a, b)) == 0
  {
    TotalZeroIffEmpty(IntersectionDefault(a, b));
  }

  /** Restricting to `k` leaves a sub-multiset whose total is the count at `k`. */
  lemma {:induction false} KeepOnlyTotal(s: seq<nat>, k: nat)
    ensures IsSubsetDefault(KeepOnly(s, k), s)
    ensures TotalDefault(KeepOnly(s, k)) == if k < |s| then s[k] else 0
  {
    if |s| > 0 {
      var n := |s| - 1;
      KeepOnlyTotal(s[..n], k);
      assert KeepOnly(s, k)[..n] == KeepOnly(s[..n], k);
      if k < n {
        assert s[..n][k] == s[k];
      }
    }
  }

  /** A count of non-zero positions of zero means the multiset is empty. */
  lemma {:induction false} CountNonZeroZeroIffEmpty(s: seq<nat>)
    ensures CountNonZeroDefault(s) == 0 <==> forall i :: 0 <= i < |s| ==> s[i] == 0
  {
    if |s| > 0 {
      var n := |s| - 1;
      CountNonZeroZeroIffEmpty(s[..n]);
      assert forall i :: 0 <= i < n ==> s[..n][i] == s[i];
    }
  }

  /** Position `k` holds the only non-zero count of `s`. */
  ghost predicate SoleNonZero(s: seq<nat>, k: int) {
    0 <= k < |s| && s[k] > 0 && forall i :: 0 <= i < |s| && i != k ==> s[i] == 0
  }

  /** One non-zero position exactly when the count of non-zero positions is one. */
  lemma CountNonZeroOneIffSingleton(s: seq<nat>)
    ensures CountNonZeroDefault(s) == 1 <==>
      exists k :: 0 <= k < |s| && s[k] > 0 && forall i :: 0 <= i < |s| && i != k ==> s[i] == 0
  {
    if CountNonZeroDefault(s) == 1 {
      var k := CountOneSole(s);
      assert SoleNonZero(s, k);
    }
    if exists k :: 0 <= k < |s| && s[k] > 0 && forall i :: 0 <= i < |s| && i != k ==> s[i] == 0 {
      var k :| 0 <= k < |s| && s[k] > 0 && forall i :: 0 <= i < |s| && i != k ==> s[i] == 0;
      SoleCountOne(s, k);
    }
  }

  /** A count of one non-zero position names that position. */
  lemma {:induction false} CountOneSole(s: seq<nat>) returns (k: nat)
    requires CountNonZeroDefault(s) == 1
    ensures SoleNonZero(s, k)
  {
    var n := |s| - 1;
    assert s[..n] + [s[n]] == s;
    assert forall i :: 0 <= i < n ==> s[..n][i] == s[i];
    if s[n] > 0 {
      CountNonZeroZeroIffEmpty(s[..n]);
      k := n;
    } else {
      k := CountOneSole(s[..n]);
    }
  }

  /** A sole non-zero position makes the count of non-zero positions one. */
  lemma {:induction false} SoleCountOne(s: seq<nat>, k: nat)
    requires SoleNonZero(s, k)
    ensures CountNonZeroDefault(s) == 1
  {
    var n := |s| - 1;
    assert forall i :: 0 <= i < n ==> s[..n][i] == s[i];
    if k == n {
      CountNonZeroZeroIffEmpty(s[..n]);
    } else {
      SoleCountOne(s[..n], k);
    }
  }

  // ---------------------------------------------------------------------
  // The weighted walk of `choose_random`
  // ---------------------------------------------------------------------

  /** The element the weighted walk stops at: the first position whose running
      total reaches `t`, or `|s|` when none does. */
  function PrefixReach(s: seq<nat>, t: nat): (k: nat)
    ensures k <= |s|
  {
    if |s| == 0 then 0
    else if s[0] >= t then 0
    else 1 + PrefixReach(s[1..], t - s[0])
  }

  /** One step of the weighted walk at position `i`, entered with running
      total `acc`: it stops there, or the rest of the walk starts at `i + 1`. */
  lemma PrefixReachStep(s: seq<nat>, t: nat, i: nat, acc: nat)
    requires i < |s| && acc < t && PrefixReach(s, t) == i + PrefixReach(s[i..], t - acc)
    ensures acc + s[i] >= t ==> PrefixReach(s, t) == i
    ensures acc + s[i] < t ==> PrefixReach(s, t) == i + 1 + PrefixReach(s[i + 1..], t - (acc + s[i]))
  {
    assert s[i..][1..] == s[i + 1..];
  }

  lemma TotalCons(s: seq<nat>)
    requires |s| > 0
    ensures TotalDefault(s) == s[0] + TotalDefault(s[1..])
  {
    assert s == [s[0]] + s[1..];
    TotalAppend([s[0]], s[1..]);
    assert TotalDefault([s[0]]) == TotalDefault([s[0]][..0]) + s[0];
  }

  /** A ticket in `1..=total` selects an element that is present, and the
      selected element is the one whose slice of the running total holds the
      ticket: each element `k` is chosen for exactly `s[k]` tickets. */
  lemma {:induction false} PrefixReachSelects(s: seq<nat>, t: nat)
    requires 1 <= t <= TotalDefault(s)
    ensures PrefixReach(s, t) < |s|
    ensures s[PrefixReach(s, t)] > 0
    ensures TotalDefault(s[..PrefixReach(s, t)]) < t <= TotalDefault(s[..PrefixReach(s, t) + 1])
  {
    TotalCons(s);
    var k := PrefixReach(s, t);
    if s[0] >= t {
      assert s[..1] == [s[0]];
      assert TotalDefault([s[0]]) == TotalDefault([s[0]][..0]) + s[0];
    } else {
      var s' := s[1..];
      PrefixReachSelects(s', t - s[0]);
      var k' := PrefixReach(s', t - s[0]);
      assert k == k' + 1;
      assert s[..k] == [s[0]] + s'[..k'];
      assert s[..k + 1] == [s[0]] + s'[..k' + 1];
      TotalAppend([s[0]], s'[..k']);
      TotalAppend([s[0]], s'[..k' + 1]);
      assert TotalDefault([s[0]]) == TotalDefault([s[0]][..0]) + s[0];
    }
  }

  /** After a draw the multiset is a singleton: only the selected element
      remains, with its full multiplicity. */
  lemma ChosenIsSingleton(s: seq<nat>, t: nat)
    requires 1 <= t <= TotalDefault(s)
    ensures var k := PrefixReach(s, t);
      k < |s| && KeepOnly(s, k)[k] == s[k] > 0 &&
      (forall i :: 0 <= i < |s| && i != k ==> KeepOnly(s, k)[i] == 0) &&
      TotalDefault(KeepOnly(s, k)) == s[k]
  {
    PrefixReachSelects(s, t);
    KeepOnlyTotal(s, PrefixReach(s, t));
  }
}
