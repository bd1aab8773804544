/**
 * The vector-array multiset `Multiset<simd, N>`: the counts of `N * lanes`
 * elements stored as `N` SIMD vectors of `lanes` lanes each, element `p`
 * living in vector `p / lanes`, lane `p % lanes`. A scalar is an unsigned
 * integer of `bits` bits. The pure (iterator and fold) operations are defined
 * on the vectors, and each is proved equal to the per-element definition on
 * the flattened counts.
 */
module VectorArray {
  import opened Baseline
  import opened Lanes

  /** 2^n: the number of values of an `n`-bit unsigned scalar. */
  function Pow2(n: nat): (r: nat)
    ensures r > 0
  {
    if n == 0 then 1 else 2 * Pow2(n - 1)
  }

  /** Every vector has exactly `lanes` lanes. */
  predicate Uniform<T>(d: seq<seq<T>>, lanes: nat) {
    forall i :: 0 <= i < |d| ==> |d[i]| == lanes
  }

  /** A well-formed vector array: at least one vector, of at least one lane,
      and every count fits the scalar. */
  predicate WellFormed(d: seq<Vector>, lanes: nat, bits: nat) {
    lanes > 0 && |d| > 0 && Uniform(d, lanes) &&
    forall i, j :: 0 <= i < |d| && 0 <= j < |d[i]| ==> d[i][j] < Pow2(bits)
  }

  /** The counts in element order: the vectors laid end to end. */
  function Flatten<T>(d: seq<seq<T>>): seq<T> {
    if |d| == 0 then [] else Flatten(d[..|d| - 1]) + d[|d| - 1]
  }

  // ---------------------------------------------------------------------
  // Layout: element p is lane p % lanes of vector p / lanes
  // ---------------------------------------------------------------------

  lemma {:induction false} FlattenLength<T>(d: seq<seq<T>>, lanes: nat)
    requires Uniform(d, lanes)
    ensures |Flatten(d)| == |d| * lanes
  {
    if |d| > 0 {
      FlattenLength(d[..|d| - 1], lanes);
      assert (|d| - 1) * lanes + lanes == |d| * lanes;
    }
  }

  /** Lane `j` of vector `i` is element `i * lanes + j`. */
  lemma {:induction false} FlattenAt<T>(d: seq<seq<T>>, lanes: nat, i: nat, j: nat)
    requires Uniform(d, lanes) && i < |d| && j < lanes
    ensures i * lanes + j < |Flatten(d)|
    ensures Flatten(d)[i * lanes + j] == d[i][j]
  {
    var n := |d| - 1;
    var prefix := d[..n];
    assert Flatten(d) == Flatten(prefix) + d[n];
    FlattenLength(prefix, lanes);
    if i < n {
      FlattenAt(prefix, lanes, i, j);
      MulSucc(i, lanes);
      MulLeMono(i + 1, n, lanes);
      assert prefix[i] == d[i];
    }
  }

  /** `FlattenAt` with the vector's first element index `base` given. */
  lemma FlattenAtBase<T>(d: seq<seq<T>>, lanes: nat, i: nat, j: nat, base: nat)
    requires Uniform(d, lanes) && i < |d| && j < lanes && base == i * lanes
    ensures base + j < |Flatten(d)| && Flatten(d)[base + j] == d[i][j]
  {
    FlattenAt(d, lanes, i, j);
  }

  /** Vector `i` occupies elements `i * lanes ..` of the counts, lane by lane. */
  lemma VectorAtBase<T>(d: seq<seq<T>>, lanes: nat, i: nat, base: nat)
    requires Uniform(d, lanes) && i < |d| && base == i * lanes
    ensures base + lanes <= |Flatten(d)|
    ensures forall p :: base <= p < base + lanes ==> Flatten(d)[p] == d[i][p - base]
  {
    FlattenLength(d, lanes);
    MulLeMono(i + 1, |d|, lanes);
    forall p | base <= p < base + lanes
      ensures Flatten(d)[p] == d[i][p - base]
    {
      FlattenAtBase(d, lanes, i, p - base, base);
    }
  }

  /** One more vector moves the first element index on by `c`. */
  lemma MulSucc(a: nat, c: nat)
    ensures (a + 1) * c == a * c + c
  {
  }

  /** Multiplying by a natural preserves order. */
  lemma MulLeMono(a: nat, b: nat, c: nat)
    requires a <= b
    ensures a * c <= b * c
  {
    assert b * c - a * c == (b - a) * c;
  }

  /** `i * lanes + j` with `j < lanes` names vector `i`, lane `j`. */
  lemma DivModSplit(i: nat, j: nat, lanes: nat)
    requires j < lanes
    ensures (i * lanes + j) / lanes == i && (i * lanes + j) % lanes == j
  {
    var p := i * lanes + j;
    var q, r := p / lanes, p % lanes;
    assert p == q * lanes + r;
    if q > i {
      MulLeMono(i + 1, q, lanes);
    } else if q < i {
      MulLeMono(q + 1, i, lanes);
    }
  }

  /** Element `p` is lane `p % lanes` of vector `p / lanes`. */
  lemma FlattenIndex<T>(d: seq<seq<T>>, lanes: nat, p: nat)
    requires lanes > 0 && Uniform(d, lanes) && p < |d| * lanes
    ensures p / lanes < |d| && p % lanes < lanes && p < |Flatten(d)|
    ensures p == (p / lanes) * lanes + p % lanes
    ensures Flatten(d)[p] == d[p / lanes][p % lanes]
  {
    var i, j := p / lanes, p % lanes;
    assert p == i * lanes + j;
    assert i < |d| by {
      if i >= |d| {
        MulLeMono(|d|, i, lanes);
      }
    }
    FlattenAt(d, lanes, i, j);
  }

  /** Every element is some lane of some vector. */
  lemma Locate<T>(d: seq<seq<T>>, lanes: nat, p: nat) returns (i: nat, j: nat)
    requires lanes > 0 && Uniform(d, lanes) && p < |Flatten(d)|
    ensures i < |d| && j < lanes && Flatten(d)[p] == d[i][j]
  {
    FlattenLength(d, lanes);
    FlattenIndex(d, lanes, p);
    i, j := p / lanes, p % lanes;
  }

  /** A vector array whose lanes hold the elements of `s` in order flattens to `s`. */
  lemma FlattenFromLanes<T>(d: seq<seq<T>>, lanes: nat, s: seq<T>)
    requires lanes > 0 && Uniform(d, lanes) && |s| == |d| * lanes
    requires forall i, j :: 0 <= i < |d| && 0 <= j < lanes && i * lanes + j < |s| ==> d[i][j] == s[i * lanes + j]
    ensures Flatten(d) == s
  {
    FlattenFromLanesPointwise(d, lanes, s);
    SeqExt(Flatten(d), s);
  }

  lemma FlattenFromLanesPointwise<T>(d: seq<seq<T>>, lanes: nat, s: seq<T>)
    requires lanes > 0 && Uniform(d, lanes) && |s| == |d| * lanes
    requires forall i, j :: 0 <= i < |d| && 0 <= j < lanes && i * lanes + j < |s| ==> d[i][j] == s[i * lanes + j]
    ensures |Flatten(d)| == |s| && forall p :: 0 <= p < |s| ==> Flatten(d)[p] == s[p]
  {
    FlattenLength(d, lanes);
    forall p | 0 <= p < |s|
      ensures Flatten(d)[p] == s[p]
    {
      FlattenIndex(d, lanes, p);
      LaneHolds(d, lanes, s, p / lanes, p % lanes);
    }
  }

  lemma SeqExt<T>(a: seq<T>, b: seq<T>)
    requires |a| == |b| && forall p :: 0 <= p < |a| ==> a[p] == b[p]
    ensures a == b
  {
  }

  lemma LaneHolds<T>(d: seq<seq<T>>, lanes: nat, s: seq<T>, i: nat, j: nat)
    requires Uniform(d, lanes) && |s| == |d| * lanes && i < |d| && j < lanes
    requires forall i, j :: 0 <= i < |d| && 0 <= j < lanes && i * lanes + j < |s| ==> d[i][j] == s[i * lanes + j]
    ensures i * lanes + j < |s| && d[i][j] == s[i * lanes + j]
  {
    MulLeMono(i + 1, |d|, lanes);
    assert (i + 1) * lanes == i * lanes + lanes;
  }

  /** Two vector arrays combined vector by vector with a lane-wise operator. */
  function ZipLanewise<R>(d: seq<Vector>, e: seq<Vector>, f: (nat, nat) -> R): (r: seq<seq<R>>)
    ensures |r| == Min(|d|, |e|)
    ensures forall i :: 0 <= i < |r| ==> r[i] == Lanewise(d[i], e[i], f)
  {
    seq(Min(|d|, |e|), i requires 0 <= i < Min(|d|, |e|) => Lanewise(d[i], e[i], f))
  }

  /** The flattening of vectors combined lane-wise is the lane-wise combination
      of the flattenings. */
  lemma {:induction false} FlattenLanewise<R>(d: seq<Vector>, e: seq<Vector>, lanes: nat, f: (nat, nat) -> R)
    requires |d| == |e| && Uniform(d, lanes) && Uniform(e, lanes)
    ensures Flatten(ZipLanewise(d, e, f)) == Lanewise(Flatten(d), Flatten(e), f)
  {
    var z := ZipLanewise(d, e, f);
    FlattenLength(d, lanes);
    FlattenLength(e, lanes);
    if |d| > 0 {
      var n := |d| - 1;
      FlattenLanewise(d[..n], e[..n], lanes, f);
      assert z[..n] == ZipLanewise(d[..n], e[..n], f);
      FlattenLength(d[..n], lanes);
      FlattenLength(e[..n], lanes);
      assert Flatten(z) == Flatten(z[..n]) + Lanewise(d[n], e[n], f);
      assert Flatten(d) == Flatten(d[..n]) + d[n];
      assert Flatten(e) == Flatten(e[..n]) + e[n];
      assert Lanewise(Flatten(d), Flatten(e), f)
          == Lanewise(Flatten(d[..n]), Flatten(e[..n]), f) + Lanewise(d[n], e[n], f);
    }
  }

  /** `all()` over every vector's mask is `all()` over the flattened mask. */
  lemma {:induction false} FlattenAll(m: seq<MaskVector>)
    ensures (forall i :: 0 <= i < |m| ==> All(m[i])) <==> All(Flatten(m))
  {
    if |m| > 0 {
      var n := |m| - 1;
      FlattenAll(m[..n]);
      var f := Flatten(m[..n]);
      assert Flatten(m) == f + m[n];
      assert forall p :: 0 <= p < |m[n]| ==> Flatten(m)[|f| + p] == m[n][p];
      assert forall p :: 0 <= p < |f| ==> Flatten(m)[p] == f[p];
      assert forall i :: 0 <= i < n ==> m[..n][i] == m[i];
      if All(f) && All(m[n]) {
        forall p | 0 <= p < |Flatten(m)|
          ensures Flatten(m)[p]
        {
          if p >= |f| {
            assert Flatten(m)[p] == m[n][p - |f|];
          }
        }
      }
    }
  }

  /** `any()` over some vector's mask is `any()` over the flattened mask. */
  lemma {:induction false} FlattenAny(m: seq<MaskVector>)
    ensures (exists i :: 0 <= i < |m| && Any(m[i])) <==> Any(Flatten(m))
  {
    if |m| > 0 {
      var n := |m| - 1;
      FlattenAny(m[..n]);
      var f := Flatten(m[..n]);
      assert Flatten(m) == f + m[n];
      assert forall i :: 0 <= i < n ==> m[..n][i] == m[i];
      if Any(Flatten(m)) {
        var p :| 0 <= p < |Flatten(m)| && Flatten(m)[p];
        if p >= |f| {
          assert m[n][p - |f|];
          assert Any(m[n]);
        } else {
          assert f[p];
        }
      }
      if exists i :: 0 <= i < |m| && Any(m[i]) {
        var i :| 0 <= i < |m| && Any(m[i]);
        if i == n {
          var p :| 0 <= p < |m[n]| && m[n][p];
          assert Flatten(m)[|f| + p];
        } else {
          assert Any(m[..n][i]);
          var p :| 0 <= p < |f| && f[p];
          assert Flatten(m)[p];
        }
      }
    }
  }

  /** Reducing every vector pair's mask with `all()` tests every element pair. */
  lemma AllMasksAgree(d: seq<Vector>, e: seq<Vector>, lanes: nat, cmp: (nat, nat) -> bool)
    requires |d| == |e| && Uniform(d, lanes) && Uniform(e, lanes)
    ensures (forall i :: 0 <= i < |d| ==> All(Lanewise(d[i], e[i], cmp)))
        <==> AllLanes(Flatten(d), Flatten(e), cmp)
  {
    var m := ZipLanewise(d, e, cmp);
    FlattenAll(m);
    FlattenLanewise(d, e, lanes, cmp);
    MaskReductions(Flatten(d), Flatten(e), cmp);
  }

  /** Reducing some vector pair's mask with `any()` finds some element pair. */
  lemma AnyMaskAgrees(d: seq<Vector>, e: seq<Vector>, lanes: nat, cmp: (nat, nat) -> bool)
    requires |d| == |e| && Uniform(d, lanes) && Uniform(e, lanes)
    ensures (exists i :: 0 <= i < |d| && Any(Lanewise(d[i], e[i], cmp)))
        <==> AnyLane(Flatten(d), Flatten(e), cmp)
  {
    var m := ZipLanewise(d, e, cmp);
    FlattenAny(m);
    FlattenLanewise(d, e, lanes, cmp);
    MaskReductions(Flatten(d), Flatten(e), cmp);
    if exists i :: 0 <= i < |d| && Any(Lanewise(d[i], e[i], cmp)) {
      var i :| 0 <= i < |d| && Any(Lanewise(d[i], e[i], cmp));
      assert Any(m[i]);
    }
  }

  // ---------------------------------------------------------------------
  // Membership
  // ---------------------------------------------------------------------

  /** `contains`: an out-of-range element is absent; otherwise its lane is read. */
  function Contains(d: seq<Vector>, lanes: nat, elem: nat): (r: bool)
    requires lanes > 0 && Uniform(d, lanes)
    ensures r <==> elem < |Flatten(d)| && Flatten(d)[elem] > 0
  {
    FlattenLength(d, lanes);
    if elem < lanes * |d| then
      FlattenIndex(d, lanes, elem);
      d[elem / lanes][elem % lanes] > 0
    else
      false
  }

  /** `contains_unchecked`: the caller promises the element is in range. */
  function ContainsUnchecked(d: seq<Vector>, lanes: nat, elem: nat): (r: bool)
    requires lanes > 0 && Uniform(d, lanes) && elem < lanes * |d|
    ensures elem < |Flatten(d)| && (r <==> Flatten(d)[elem] > 0)
  {
    FlattenLength(d, lanes);
    FlattenIndex(d, lanes, elem);
    d[elem / lanes][elem % lanes] > 0
  }

  // ---------------------------------------------------------------------
  // Lane-wise operations
  // ---------------------------------------------------------------------

  /** `intersection`: vector by vector, lane-wise `min`. */
  function Intersection(d: seq<Vector>, e: seq<Vector>, lanes: nat): (r: seq<Vector>)
    requires |d| == |e| && Uniform(d, lanes) && Uniform(e, lanes)
    ensures |r| == |d| && Uniform(r, lanes)
    ensures |Flatten(d)| == |Flatten(e)| && Flatten(r) == IntersectionDefault(Flatten(d), Flatten(e))
  {
    FlattenLanewise(d, e, lanes, Min);
    FlattenLength(d, lanes);
    FlattenLength(e, lanes);
    ZipLanewise(d, e, Min)
  }

  /** `union`: vector by vector, lane-wise `max`. */
  function Union(d: seq<Vector>, e: seq<Vector>, lanes: nat): (r: seq<Vector>)
    requires |d| == |e| && Uniform(d, lanes) && Uniform(e, lanes)
    ensures |r| == |d| && Uniform(r, lanes)
    ensures |Flatten(d)| == |Flatten(e)| && Flatten(r) == UnionDefault(Flatten(d), Flatten(e))
  {
    FlattenLanewise(d, e, lanes, Max);
    FlattenLength(d, lanes);
    FlattenLength(e, lanes);
    ZipLanewise(d, e, Max)
  }

  /** Both results keep every count within the scalar. */
  lemma IntersectionUnionWellFormed(d: seq<Vector>, e: seq<Vector>, lanes: nat, bits: nat)
    requires |d| == |e| && WellFormed(d, lanes, bits) && WellFormed(e, lanes, bits)
    ensures WellFormed(Intersection(d, e, lanes), lanes, bits)
    ensures WellFormed(Union(d, e, lanes), lanes, bits)
  {
    var r, u := Intersection(d, e, lanes), Union(d, e, lanes);
    forall i, j | 0 <= i < |d| && 0 <= j < lanes
      ensures r[i][j] < Pow2(bits) && u[i][j] < Pow2(bits)
    {
      assert r[i][j] == Min(d[i][j], e[i][j]) && u[i][j] == Max(d[i][j], e[i][j]);
    }
  }

  // ---------------------------------------------------------------------
  // Counting
  // ---------------------------------------------------------------------

  /** `count_non_zero`: folds the popcount of each vector's `gt(0)` mask. */
  function CountNonZero(d: seq<Vector>): (r: nat)
    ensures r == CountNonZeroDefault(Flatten(d))
  {
    if |d| == 0 then 0
    else
      var v := d[|d| - 1];
      CountOnesGtZero(v);
      assert Flatten(d) == Flatten(d[..|d| - 1]) + v;
      assert multiset(Flatten(d)) == multiset(Flatten(d[..|d| - 1])) + multiset(v);
      CountNonZero(d[..|d| - 1]) + CountOnes(Lanewise(v, Splat(0, |v|), Gt))
  }

  /** `count_zero`: folds the popcount of each vector's `eq(0)` mask. */
  function CountZero(d: seq<Vector>): (r: nat)
    ensures r == multiset(Flatten(d))[0]
  {
    if |d| == 0 then 0
    else
      var v := d[|d| - 1];
      CountOnesEqZero(v);
      assert CountNonZeroDefault(v) == |v| - multiset(v)[0];
      assert Flatten(d) == Flatten(d[..|d| - 1]) + v;
      assert multiset(Flatten(d)) == multiset(Flatten(d[..|d| - 1])) + multiset(v);
      CountZero(d[..|d| - 1]) + CountOnes(Lanewise(v, Splat(0, |v|), Eq))
  }

  /** Every element is counted once, as zero or as non-zero. */
  lemma CountZeroPlusNonZero(d: seq<Vector>, lanes: nat)
    requires Uniform(d, lanes)
    ensures CountZero(d) + CountNonZero(d) == |d| * lanes
  {
    FlattenLength(d, lanes);
  }

  /** `is_empty`: every vector equals the zero vector. */
  function IsEmpty(d: seq<Vector>): (r: bool)
    ensures r <==> forall p :: 0 <= p < |Flatten(d)| ==> Flatten(d)[p] == 0
  {
    FlattenAllZero(d);
    forall i :: 0 <= i < |d| ==> d[i] == Splat(0, |d[i]|)
  }

  lemma {:induction false} FlattenAllZero(d: seq<Vector>)
    ensures (forall i :: 0 <= i < |d| ==> d[i] == Splat(0, |d[i]|))
        <==> forall p :: 0 <= p < |Flatten(d)| ==> Flatten(d)[p] == 0
  {
    if |d| > 0 {
      var n := |d| - 1;
      FlattenAllZero(d[..n]);
      var f := Flatten(d[..n]);
      assert Flatten(d) == f + d[n];
      assert forall p :: 0 <= p < |d[n]| ==> Flatten(d)[|f| + p] == d[n][p];
      assert forall p :: 0 <= p < |f| ==> Flatten(d)[p] == f[p];
      assert forall i :: 0 <= i < n ==> d[..n][i] == d[i];
      if forall p :: 0 <= p < |d[n]| ==> d[n][p] == 0 {
        assert d[n] == Splat(0, |d[n]|);
      }
    }
  }

  /** `is_singleton`: exactly one element is present. */
  function IsSingleton(d: seq<Vector>): (r: bool)
    ensures r <==> exists k :: 0 <= k < |Flatten(d)| && Flatten(d)[k] > 0 &&
                     forall p :: 0 <= p < |Flatten(d)| && p != k ==> Flatten(d)[p] == 0
  {
    CountNonZeroOneIffSingleton(Flatten(d));
    CountNonZero(d) == 1
  }

  // ---------------------------------------------------------------------
  // Comparisons
  // ---------------------------------------------------------------------

  /** `is_subset`: every pair of vectors is lane-wise `le`. */
  function IsSubset(d: seq<Vector>, e: seq<Vector>, lanes: nat): (r: bool)
    requires |d| == |e| && Uniform(d, lanes) && Uniform(e, lanes)
    ensures |Flatten(d)| == |Flatten(e)| && (r <==> IsSubsetDefault(Flatten(d), Flatten(e)))
  {
    FlattenLength(d, lanes);
    FlattenLength(e, lanes);
    AllMasksAgree(d, e, lanes, Le);
    forall i | 0 <= i < |d| :: All(Lanewise(d[i], e[i], Le))
  }

  /** `is_superset`: every pair of vectors is lane-wise `ge`. */
  function IsSuperset(d: seq<Vector>, e: seq<Vector>, lanes: nat): (r: bool)
    requires |d| == |e| && Uniform(d, lanes) && Uniform(e, lanes)
    ensures |Flatten(d)| == |Flatten(e)| && (r <==> IsSupersetDefault(Flatten(d), Flatten(e)))
  {
    FlattenLength(d, lanes);
    FlattenLength(e, lanes);
    AllMasksAgree(d, e, lanes, Ge);
    forall i | 0 <= i < |d| :: All(Lanewise(d[i], e[i], Ge))
  }

  /** `is_any_lesser`: some pair of vectors has a lane-wise `lt`. */
  function IsAnyLesser(d: seq<Vector>, e: seq<Vector>, lanes: nat): (r: bool)
    requires |d| == |e| && Uniform(d, lanes) && Uniform(e, lanes)
    ensures |Flatten(d)| == |Flatten(e)| && (r <==> IsAnyLesserDefault(Flatten(d), Flatten(e)))
  {
    FlattenLength(d, lanes);
    FlattenLength(e, lanes);
    AnyMaskAgrees(d, e, lanes, Lt);
    exists i | 0 <= i < |d| :: Any(Lanewise(d[i], e[i], Lt))
  }

  /** `is_any_greater`: some pair of vectors has a lane-wise `gt`. */
  function IsAnyGreater(d: seq<Vector>, e: seq<Vector>, lanes: nat): (r: bool)
    requires |d| == |e| && Uniform(d, lanes) && Uniform(e, lanes)
    ensures |Flatten(d)| == |Flatten(e)| && (r <==> IsAnyGreaterDefault(Flatten(d), Flatten(e)))
  {
    FlattenLength(d, lanes);
    FlattenLength(e, lanes);
    AnyMaskAgrees(d, e, lanes, Gt);
    exists i | 0 <= i < |d| :: Any(Lanewise(d[i], e[i], Gt))
  }

  /** `is_proper_subset`: a subset that differs somewhere. */
  function IsProperSubset(d: seq<Vector>, e: seq<Vector>, lanes: nat): (r: bool)
    requires |d| == |e| && Uniform(d, lanes) && Uniform(e, lanes)
    ensures |Flatten(d)| == |Flatten(e)|
    ensures r <==> Flatten(d) != Flatten(e) && IsSubsetDefault(Flatten(d), Flatten(e))
  {
    FlattenLength(d, lanes);
    FlattenLength(e, lanes);
    ProperSubsetDefinitionsAgree(Flatten(d), Flatten(e));
    IsSubset(d, e, lanes) && IsAnyLesser(d, e, lanes)
  }

  /** `is_proper_superset`: a superset that differs somewhere. */
  function IsProperSuperset(d: seq<Vector>, e: seq<Vector>, lanes: nat): (r: bool)
    requires |d| == |e| && Uniform(d, lanes) && Uniform(e, lanes)
    ensures |Flatten(d)| == |Flatten(e)|
    ensures r <==> Flatten(d) != Flatten(e) && IsSupersetDefault(Flatten(d), Flatten(e))
  {
    FlattenLength(d, lanes);
    FlattenLength(e, lanes);
    ProperSubsetDefinitionsAgree(Flatten(d), Flatten(e));
    IsSuperset(d, e, lanes) && IsAnyGreater(d, e, lanes)
  }

  // ---------------------------------------------------------------------
  // Wrapping total
  // ---------------------------------------------------------------------

  /** Adding a multiple of the modulus does not change a remainder. */
  lemma ModAddMultiple(q: nat, x: nat, m: nat)
    requires m > 0
    ensures (q * m + x) % m == x % m
  {
    var k, r := x / m, x % m;
    assert x == k * m + r;
    assert q * m + x == (q + k) * m + r;
    DivModSplit(q + k, r, m);
  }

  /** Reducing a summand first does not change the remainder of a sum. */
  lemma ModAddLeft(a: nat, b: nat, m: nat)
    requires m > 0
    ensures (a % m + b) % m == (a + b) % m
  {
    assert a == (a / m) * m + a % m;
    ModAddMultiple(a / m, a % m + b, m);
  }

  /** The lanes of a wrapping vector sum add up, modulo m, to the two vectors' totals. */
  lemma {:induction false} WrappingAddTotalMod(x: Vector, y: Vector, m: nat)
    requires |x| == |y| && m > 0
    ensures TotalDefault(WrappingAdd(x, y, m)) % m == (TotalDefault(x) + TotalDefault(y)) % m
  {
    if |x| > 0 {
      var n := |x| - 1;
      var w := WrappingAdd(x, y, m);
      WrappingAddTotalMod(x[..n], y[..n], m);
      assert w[..n] == WrappingAdd(x[..n], y[..n], m);
      var a, b := TotalDefault(w[..n]), x[n] + y[n];
      assert TotalDefault(w) == a + b % m;
      ModAddLeft(b, a, m);
      ModAddLeft(a, b, m);
      ModAddLeft(TotalDefault(x[..n]) + TotalDefault(y[..n]), b, m);
    }
  }

  /** `fold(ZERO, |acc, vec| acc + vec)`: the lane-wise wrapping sum of all vectors. */
  function VectorSum(d: seq<Vector>, lanes: nat, m: nat): (r: Vector)
    requires Uniform(d, lanes) && m > 0
    ensures |r| == lanes
  {
    if |d| == 0 then Splat(0, lanes)
    else WrappingAdd(VectorSum(d[..|d| - 1], lanes, m), d[|d| - 1], m)
  }

  /** The lanes of the vector sum add up, modulo m, to the total of all counts. */
  lemma {:induction false} VectorSumTotal(d: seq<Vector>, lanes: nat, m: nat)
    requires Uniform(d, lanes) && m > 0
    ensures TotalDefault(VectorSum(d, lanes, m)) % m == TotalDefault(Flatten(d)) % m
  {
    if |d| == 0 {
      TotalZeroIffEmpty(Splat(0, lanes));
    } else {
      var n := |d| - 1;
      var v := VectorSum(d[..n], lanes, m);
      assert VectorSum(d, lanes, m) == WrappingAdd(v, d[n], m);
      assert Flatten(d) == Flatten(d[..n]) + d[n];
      var sumV, rest, last := TotalDefault(v), TotalDefault(Flatten(d[..n])), TotalDefault(d[n]);
      VectorSumTotal(d[..n], lanes, m);
      assert sumV % m == rest % m;
      WrappingAddTotalMod(v, d[n], m);
      ModAddLeft(sumV, last, m);
      ModAddLeft(rest, last, m);
      assert (sumV + last) % m == (rest + last) % m;
      TotalAppend(Flatten(d[..n]), d[n]);
    }
  }

  /** `total`: the vector sum, then `wrapping_sum` of its lanes; the sum of all
      counts modulo 2^bits. */
  function Total(d: seq<Vector>, lanes: nat, bits: nat): (r: nat)
    requires Uniform(d, lanes)
    ensures r == TotalDefault(Flatten(d)) % Pow2(bits)
  {
    VectorSumTotal(d, lanes, Pow2(bits));
    TotalDefault(VectorSum(d, lanes, Pow2(bits))) % Pow2(bits)
  }

  // ---------------------------------------------------------------------
  // Largest and smallest count
  // ---------------------------------------------------------------------

  /** `fold(ZERO, |acc, vec| acc.max(vec))`: lane j bounds lane j of every
      vector, and is zero or one of them. */
  function VectorMax(d: seq<Vector>, lanes: nat): (r: Vector)
    requires Uniform(d, lanes)
    ensures |r| == lanes
    ensures forall j :: 0 <= j < lanes ==>
      (forall i :: 0 <= i < |d| ==> d[i][j] <= r[j]) &&
      (r[j] == 0 || exists i :: 0 <= i < |d| && d[i][j] == r[j])
  {
    if |d| == 0 then Splat(0, lanes)
    else
      var n := |d| - 1;
      var v := VectorMax(d[..n], lanes);
      var r := VecMax(v, d[n]);
      assert forall j :: 0 <= j < lanes ==> r[j] == Max(v[j], d[n][j]);
      assert forall i :: 0 <= i < n ==> d[..n][i] == d[i];
      r
  }

  /** `fold(MAX, |acc, vec| acc.min(vec))`: lane j is bounded by lane j of every
      vector, and is `top` or one of them. */
  function VectorMin(d: seq<Vector>, lanes: nat, top: nat): (r: Vector)
    requires Uniform(d, lanes)
    ensures |r| == lanes
    ensures forall j :: 0 <= j < lanes ==>
      (forall i :: 0 <= i < |d| ==> r[j] <= d[i][j]) &&
      (r[j] == top || exists i :: 0 <= i < |d| && d[i][j] == r[j])
  {
    if |d| == 0 then Splat(top, lanes)
    else
      var n := |d| - 1;
      var v := VectorMin(d[..n], lanes, top);
      var r := VecMin(v, d[n]);
      assert forall j :: 0 <= j < lanes ==> r[j] == Min(v[j], d[n][j]);
      assert forall i :: 0 <= i < n ==> d[..n][i] == d[i];
      r
  }

  /** `max_element`: the largest lane. */
  function MaxElement(v: Vector): (r: nat)
    requires |v| > 0
    ensures (forall j :: 0 <= j < |v| ==> v[j] <= r) && exists j :: 0 <= j < |v| && v[j] == r
  {
    if |v| == 1 then v[0]
    else
      var n := |v| - 1;
      var r := Max(MaxElement(v[..n]), v[n]);
      assert forall j :: 0 <= j < n ==> v[..n][j] == v[j];
      r
  }

  /** `min_element`: the smallest lane. */
  function MinElement(v: Vector): (r: nat)
    requires |v| > 0
    ensures (forall j :: 0 <= j < |v| ==> r <= v[j]) && exists j :: 0 <= j < |v| && v[j] == r
  {
    if |v| == 1 then v[0]
    else
      var n := |v| - 1;
      var r := Min(MinElement(v[..n]), v[n]);
      assert forall j :: 0 <= j < n ==> v[..n][j] == v[j];
      r
  }

  /** `max`: the largest count of the multiset. */
  function MaxCount(d: seq<Vector>, lanes: nat): (r: nat)
    requires lanes > 0 && |d| > 0 && Uniform(d, lanes)
    ensures forall p :: 0 <= p < |Flatten(d)| ==> Flatten(d)[p] <= r
    ensures exists p :: 0 <= p < |Flatten(d)| && Flatten(d)[p] == r
  {
    MaxOfLanes(d, lanes);
    MaxElement(VectorMax(d, lanes))
  }

  lemma MaxOfLanes(d: seq<Vector>, lanes: nat)
    requires lanes > 0 && |d| > 0 && Uniform(d, lanes)
    ensures var r := MaxElement(VectorMax(d, lanes));
      (forall p :: 0 <= p < |Flatten(d)| ==> Flatten(d)[p] <= r) &&
      exists p :: 0 <= p < |Flatten(d)| && Flatten(d)[p] == r
  {
    var v := VectorMax(d, lanes);
    var r := MaxElement(v);
    FlattenLength(d, lanes);
    FlatBelow(d, lanes, v, r);
    assert d[0][0] <= v[0] <= r;
    LaneWitness(d, lanes, v, r, 0);
  }

  /** Counts bounded lane by lane by a vector whose lanes are at most `r` are at most `r`. */
  lemma FlatBelow(d: seq<Vector>, lanes: nat, v: Vector, r: nat)
    requires lanes > 0 && Uniform(d, lanes) && |v| == lanes
    requires forall i, j :: 0 <= i < |d| && 0 <= j < lanes ==> d[i][j] <= v[j]
    requires forall j :: 0 <= j < lanes ==> v[j] <= r
    ensures forall p :: 0 <= p < |Flatten(d)| ==> Flatten(d)[p] <= r
  {
    FlattenLength(d, lanes);
    forall p | 0 <= p < |Flatten(d)|
      ensures Flatten(d)[p] <= r
    {
      var i, j := Locate(d, lanes, p);
      assert d[i][j] <= v[j] <= r;
    }
  }

  /** A lane value that is either `base` or some vector's lane is a count,
      provided `base` itself is the first count whenever it is reached. */
  lemma LaneWitness(d: seq<Vector>, lanes: nat, v: Vector, r: nat, base: nat)
    requires lanes > 0 && |d| > 0 && Uniform(d, lanes) && |v| == lanes
    requires exists j :: 0 <= j < lanes && v[j] == r
    requires forall j :: 0 <= j < lanes ==> v[j] == base || exists i :: 0 <= i < |d| && d[i][j] == v[j]
    requires r == base ==> d[0][0] == r
    ensures exists p :: 0 <= p < |Flatten(d)| && Flatten(d)[p] == r
  {
    var j :| 0 <= j < lanes && v[j] == r;
    if r == base {
      FlattenAtBase(d, lanes, 0, 0, 0);
      assert Flatten(d)[0] == r;
    } else {
      assert exists i :: 0 <= i < |d| && d[i][j] == r;
      var i :| 0 <= i < |d| && d[i][j] == r;
      var p := i * lanes + j;
      FlattenAtBase(d, lanes, i, j, i * lanes);
      assert Flatten(d)[p] == r;
    }
  }

  /** The mirror image of `FlatBelow`. */
  lemma FlatAbove(d: seq<Vector>, lanes: nat, v: Vector, r: nat)
    requires lanes > 0 && Uniform(d, lanes) && |v| == lanes
    requires forall i, j :: 0 <= i < |d| && 0 <= j < lanes ==> v[j] <= d[i][j]
    requires forall j :: 0 <= j < lanes ==> r <= v[j]
    ensures forall p :: 0 <= p < |Flatten(d)| ==> r <= Flatten(d)[p]
  {
    FlattenLength(d, lanes);
    forall p | 0 <= p < |Flatten(d)|
      ensures r <= Flatten(d)[p]
    {
      var i, j := Locate(d, lanes, p);
      assert r <= v[j] <= d[i][j];
    }
  }

  /** `min`: the smallest count of the multiset. */
  function MinCount(d: seq<Vector>, lanes: nat, bits: nat): (r: nat)
    requires WellFormed(d, lanes, bits)
    ensures forall p :: 0 <= p < |Flatten(d)| ==> r <= Flatten(d)[p]
    ensures exists p :: 0 <= p < |Flatten(d)| && Flatten(d)[p] == r
  {
    MinOfLanes(d, lanes, bits);
    MinElement(VectorMin(d, lanes, Pow2(bits) - 1))
  }

  lemma MinOfLanes(d: seq<Vector>, lanes: nat, bits: nat)
    requires WellFormed(d, lanes, bits)
    ensures var r := MinElement(VectorMin(d, lanes, Pow2(bits) - 1));
      (forall p :: 0 <= p < |Flatten(d)| ==> r <= Flatten(d)[p]) &&
      exists p :: 0 <= p < |Flatten(d)| && Flatten(d)[p] == r
  {
    var top := Pow2(bits) - 1;
    var v := VectorMin(d, lanes, top);
    var r := MinElement(v);
    FlattenLength(d, lanes);
    FlatAbove(d, lanes, v, r);
    assert r <= v[0] <= d[0][0] < Pow2(bits);
    LaneWitness(d, lanes, v, r, top);
  }

  // ---------------------------------------------------------------------
  // Keeping one element
  // ---------------------------------------------------------------------

  /** `i == k / lanes` exactly when element `k` lies in vector `i`. */
  lemma DivRange(k: nat, lanes: nat, i: nat)
    requires lanes > 0
    ensures i == k / lanes <==> i * lanes <= k < i * lanes + lanes
    ensures i == k / lanes ==> k % lanes == k - i * lanes
  {
    assert k == (k / lanes) * lanes + k % lanes;
    if i * lanes <= k < i * lanes + lanes {
      DivModSplit(i, k - i * lanes, lanes);
    }
  }

  /** The vectors after keeping only element `k`: the vector holding it keeps
      only that lane, every other vector is zeroed. */
  function ChooseVectors(d: seq<Vector>, lanes: nat, k: nat): (r: seq<Vector>)
    requires Uniform(d, lanes)
    ensures |r| == |d| && Uniform(r, lanes)
    ensures forall i, j :: 0 <= i < |d| && 0 <= j < lanes ==> r[i][j] == 0 || r[i][j] == d[i][j]
  {
    seq(|d|, i requires 0 <= i < |d| =>
      if i * lanes <= k < i * lanes + lanes then KeepOnly(d[i], k - i * lanes) else Splat(0, lanes))
  }

  /** Vector `i` of `ChooseVectors`, with its first element index `base` given. */
  lemma ChooseVectorsAt(d: seq<Vector>, lanes: nat, k: nat, i: nat, base: nat)
    requires Uniform(d, lanes) && i < |d| && base == i * lanes
    ensures ChooseVectors(d, lanes, k)[i] ==
      if base <= k < base + lanes then KeepOnly(d[i], k - base) else Splat(0, lanes)
  {
  }

  /** Keeping one element vector by vector is keeping it in the flat counts;
      an element beyond the end zeroes everything. */
  lemma ChooseVectorsFlat(d: seq<Vector>, lanes: nat, k: nat)
    requires lanes > 0 && Uniform(d, lanes)
    ensures Flatten(ChooseVectors(d, lanes, k)) == KeepOnly(Flatten(d), k)
  {
    var r := ChooseVectors(d, lanes, k);
    var s := KeepOnly(Flatten(d), k);
    FlattenLength(d, lanes);
    forall i, j | 0 <= i < |r| && 0 <= j < lanes && i * lanes + j < |s|
      ensures r[i][j] == s[i * lanes + j]
    {
      FlattenAt(d, lanes, i, j);
    }
    FlattenFromLanes(r, lanes, s);
  }

  // ---------------------------------------------------------------------
  // The weighted walk with a wrapping accumulator
  // ---------------------------------------------------------------------

  /** The element the walk of `choose_random` stops at when its running sum is
      an `m`-wrapping scalar that starts at `acc`: the first position where the
      wrapped sum reaches `t`, or `|s|` when there is none. */
  function WrappedReach(s: seq<nat>, t: nat, acc: nat, m: nat): (k: nat)
    requires m > 0
    ensures k <= |s|
  {
    if |s| == 0 then 0
    else if (acc + s[0]) % m >= t then 0
    else 1 + WrappedReach(s[1..], t, (acc + s[0]) % m, m)
  }

  /** The walk has passed the first `base` elements without stopping, with
      running sum `acc`, and will stop at element `k`. */
  ghost predicate WalkPending(s: seq<nat>, base: nat, t: nat, acc: nat, m: nat, k: nat) {
    m > 0 && base <= |s| && acc < m && k == base + WrappedReach(s[base..], t, acc, m)
  }

  /** A ticket in `1..=total` (total wrapped as the scalar wraps it) stops the
      walk at an element that is present. */
  lemma {:induction false} WrappedReachSelects(s: seq<nat>, t: nat, acc: nat, m: nat)
    requires m > 0 && acc < t && t <= (acc + TotalDefault(s)) % m
    ensures WrappedReach(s, t, acc, m) < |s| && s[WrappedReach(s, t, acc, m)] > 0
  {
    assert acc < m;
    ModSmall(acc, m);
    if |s| == 0 {
      assert false;
    } else {
      TotalCons(s);
      var acc' := (acc + s[0]) % m;
      if acc' < t {
        ModAddLeft(acc + s[0], TotalDefault(s[1..]), m);
        assert t <= (acc' + TotalDefault(s[1..])) % m;
        WrappedReachSelects(s[1..], t, acc', m);
        var k := WrappedReach(s[1..], t, acc', m);
        assert WrappedReach(s, t, acc, m) == 1 + k;
        assert s[1 + k] == s[1..][k];
      }
    }
  }

  /** A value below the modulus is its own remainder. */
  lemma ModSmall(a: nat, m: nat)
    requires a < m
    ensures a % m == a
  {
    DivModSplit(0, a, m);
  }

  /** When the counts never overflow the scalar, the wrapping walk is the
      exact walk of the flat multiset. */
  lemma {:induction false} WrappedReachExact(s: seq<nat>, t: nat, acc: nat, m: nat)
    requires m > 0 && acc < t && acc + TotalDefault(s) < m
    ensures WrappedReach(s, t, acc, m) == PrefixReach(s, t - acc)
  {
    if |s| > 0 {
      TotalCons(s);
      DivModSplit(0, acc + s[0], m);
      if acc + s[0] < t {
        WrappedReachExact(s[1..], t, acc + s[0], m);
      }
    }
  }
}
