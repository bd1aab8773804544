/**
 * The vector tiers of `Multiset2<u16, SIZE>`: each operation is a thin
 * adapter that hands a per-chunk kernel (vector min/max, comparison mask
 * reductions, popcount, lane-wise `u16` addition) to the chunking engine.
 * `w` is the tier's lane count (8 for SSE4.2, 16 for AVX and AVX2). Every
 * kernel is proved against the scalar baseline, except where it is shown
 * not to agree with it.
 */
module Kernels {
  import opened Baseline
  import opened Lanes
  import opened Chunks

  // ---------------------------------------------------------------------
  // intersection_simd, union_simd: zip_map_chunks with vector min / max
  // ---------------------------------------------------------------------

  function IntersectionSimd(a: seq<nat>, b: seq<nat>, w: nat): (r: seq<nat>)
    requires |a| == |b| && w > 0
    ensures r == IntersectionDefault(a, b)
  {
    ZipMapChunksIsLanewise(a, b, w, VecMin, Min);
    ZipMapChunks(a, b, w, VecMin)
  }

  function UnionSimd(a: seq<nat>, b: seq<nat>, w: nat): (r: seq<nat>)
    requires |a| == |b| && w > 0
    ensures r == UnionDefault(a, b)
  {
    ZipMapChunksIsLanewise(a, b, w, VecMax, Max);
    ZipMapChunks(a, b, w, VecMax)
  }

  // ---------------------------------------------------------------------
  // count_non_zero_simd: fold_chunks adding popcount(gt(splat(0)))
  // ---------------------------------------------------------------------

  /** Chunk kernel: add the number of set lanes of `gt(splat(0))`. */
  function CountNonZeroKernel(acc: nat, chunk: Vector): nat {
    acc + CountOnes(Lanewise(chunk, Splat(0, |chunk|), Gt))
  }

  function CountNonZeroSimd(a: seq<nat>, w: nat): (r: nat)
    requires w > 0
    ensures r == CountNonZeroDefault(a)
  {
    CountNonZeroChunks(a, w, 0);
    FoldChunks(a, w, 0, CountNonZeroKernel)
  }

  lemma {:induction false} CountNonZeroChunks(s: seq<nat>, w: nat, acc: nat)
    requires w > 0
    ensures FoldChunks(s, w, acc, CountNonZeroKernel)
         == acc + CountNonZeroDefault(s)
    decreases |s|
  {
    if 0 < |s| < w {
      CountOnesGtZero(PadTo(s, w));
      PadToCountNonZero(s, w);
    } else if |s| >= w {
      CountOnesGtZero(s[..w]);
      CountNonZeroChunks(s[w..], w, CountNonZeroKernel(acc, s[..w]));
      assert s == s[..w] + s[w..];
      assert multiset(s) == multiset(s[..w]) + multiset(s[w..]);
    }
  }

  /** Zero padding adds no non-zero position: one zero lane at a time. */
  lemma {:induction false} PadToCountNonZero(s: seq<nat>, w: nat)
    requires |s| <= w
    ensures CountNonZeroDefault(PadTo(s, w)) == CountNonZeroDefault(s)
  {
    if w > |s| {
      var q := PadTo(s, w - 1);
      assert PadTo(s, w) == q + [0];
      PadToCountNonZero(s, w - 1);
      CountNonZeroAppendZero(q);
    } else {
      assert PadTo(s, w) == s;
    }
  }

  lemma CountNonZeroAppendZero(s: seq<nat>)
    ensures CountNonZeroDefault(s + [0]) == CountNonZeroDefault(s)
  {
    assert (s + [0])[..|s|] == s;
  }

  // ---------------------------------------------------------------------
  // is_disjoint_simd, is_subset_simd, is_superset_simd: zip_all_chunks
  // ---------------------------------------------------------------------

  /** Scalar test of `_is_disjoint_default`. */
  predicate MinIsZero(p: nat, q: nat) { Min(p, q) == 0 }

  /** Chunk kernel: `simd_a.min(simd_b) == splat(0)`. */
  predicate DisjointKernel(x: Vector, y: Vector) {
    VecMin(x, y) == Splat(0, Min(|x|, |y|))
  }

  /** Chunk kernel: `simd_a.le(simd_b).all()`. */
  predicate SubsetKernel(x: Vector, y: Vector) { All(Lanewise(x, y, Le)) }

  /** Chunk kernel: `simd_a.ge(simd_b).all()`. */
  predicate SupersetKernel(x: Vector, y: Vector) { All(Lanewise(x, y, Ge)) }

  lemma DisjointKernelIsAllLanes(x: Vector, y: Vector)
    ensures DisjointKernel(x, y) == AllLanes(x, y, MinIsZero)
  {
    if !AllLanes(x, y, MinIsZero) {
      var i :| 0 <= i < |x| && i < |y| && !MinIsZero(x[i], y[i]);
      assert VecMin(x, y)[i] != Splat(0, Min(|x|, |y|))[i];
    }
  }

  function IsDisjointSimd(a: seq<nat>, b: seq<nat>, w: nat): (r: bool)
    requires |a| == |b| && w > 0
    ensures r == IsDisjointDefault(a, b)
  {
    DisjointChunks(a, b, w);
    ZipAllChunks(a, b, w, DisjointKernel)
  }

  lemma DisjointChunks(a: seq<nat>, b: seq<nat>, w: nat)
    requires |a| == |b| && w > 0
    ensures ZipAllChunks(a, b, w, DisjointKernel) == IsDisjointDefault(a, b)
  {
    forall x: Vector, y: Vector | |x| == w && |y| == w
      ensures DisjointKernel(x, y) == AllLanes(x, y, MinIsZero)
    {
      DisjointKernelIsAllLanes(x, y);
    }
    ZipAllChunksIsAllLanes(a, b, w, DisjointKernel, MinIsZero);
  }

  function IsSubsetSimd(a: seq<nat>, b: seq<nat>, w: nat): (r: bool)
    requires |a| == |b| && w > 0
    ensures r == IsSubsetDefault(a, b)
  {
    SubsetChunks(a, b, w);
    ZipAllChunks(a, b, w, SubsetKernel)
  }

  lemma SubsetChunks(a: seq<nat>, b: seq<nat>, w: nat)
    requires |a| == |b| && w > 0
    ensures ZipAllChunks(a, b, w, SubsetKernel) == IsSubsetDefault(a, b)
    ensures ZipAllChunks(a, b, w, SupersetKernel) == IsSupersetDefault(a, b)
  {
    forall x: Vector, y: Vector | |x| == w && |y| == w
      ensures SubsetKernel(x, y) == AllLanes(x, y, Le)
      ensures SupersetKernel(x, y) == AllLanes(x, y, Ge)
    {
      MaskReductions(x, y, Le);
      MaskReductions(x, y, Ge);
    }
    ZipAllChunksIsAllLanes(a, b, w, SubsetKernel, Le);
    ZipAllChunksIsAllLanes(a, b, w, SupersetKernel, Ge);
  }

  function IsSupersetSimd(a: seq<nat>, b: seq<nat>, w: nat): (r: bool)
    requires |a| == |b| && w > 0
    ensures r == IsSupersetDefault(a, b)
  {
    SubsetChunks(a, b, w);
    ZipAllChunks(a, b, w, SupersetKernel)
  }

  // ---------------------------------------------------------------------
  // is_any_lesser_simd, is_any_greater_simd: an `any()` kernel handed to
  // the all-chunks reduction, as written
  // ---------------------------------------------------------------------

  /** Chunk kernel: `simd_a.lt(simd_b).any()`. */
  predicate AnyLesserKernel(x: Vector, y: Vector) { Any(Lanewise(x, y, Lt)) }

  /** Chunk kernel: `simd_a.gt(simd_b).any()`. */
  predicate AnyGreaterKernel(x: Vector, y: Vector) { Any(Lanewise(x, y, Gt)) }

  /** As written: every full chunk, and a non-empty remainder, must hold a
      lesser lane. On a non-empty multiset that implies the baseline answer,
      and with at most one chunk it is the baseline answer, but in general
      not conversely (see AnyLesserSimdMissesLaterChunks). */
  function IsAnyLesserSimd(a: seq<nat>, b: seq<nat>, w: nat): (r: bool)
    requires |a| == |b| && w > 0
    ensures |a| > 0 && r ==> IsAnyLesserDefault(a, b)
    ensures 0 < |a| <= w ==> r == IsAnyLesserDefault(a, b)
  {
    AnyKernelChunks(a, b, w);
    ZipAllChunks(a, b, w, AnyLesserKernel)
  }

  /** As written, mirrored for `gt`. */
  function IsAnyGreaterSimd(a: seq<nat>, b: seq<nat>, w: nat): (r: bool)
    requires |a| == |b| && w > 0
    ensures |a| > 0 && r ==> IsAnyGreaterDefault(a, b)
    ensures 0 < |a| <= w ==> r == IsAnyGreaterDefault(a, b)
  {
    AnyKernelChunks(a, b, w);
    ZipAllChunks(a, b, w, AnyGreaterKernel)
  }

  /** The same kernels under an any-chunks reduction agree with the baseline. */
  function IsAnyLesserSimdAnyChunk(a: seq<nat>, b: seq<nat>, w: nat): (r: bool)
    requires |a| == |b| && w > 0
    ensures r == IsAnyLesserDefault(a, b)
  {
    AnyKernelChunks(a, b, w);
    ZipAnyChunks(a, b, w, AnyLesserKernel)
  }

  function IsAnyGreaterSimdAnyChunk(a: seq<nat>, b: seq<nat>, w: nat): (r: bool)
    requires |a| == |b| && w > 0
    ensures r == IsAnyGreaterDefault(a, b)
  {
    AnyKernelChunks(a, b, w);
    ZipAnyChunks(a, b, w, AnyGreaterKernel)
  }

  lemma AnyKernelChunks(a: seq<nat>, b: seq<nat>, w: nat)
    requires |a| == |b| && w > 0
    ensures |a| > 0 && ZipAllChunks(a, b, w, AnyLesserKernel) ==> IsAnyLesserDefault(a, b)
    ensures |a| > 0 && ZipAllChunks(a, b, w, AnyGreaterKernel) ==> IsAnyGreaterDefault(a, b)
    ensures ZipAnyChunks(a, b, w, AnyLesserKernel) == IsAnyLesserDefault(a, b)
    ensures ZipAnyChunks(a, b, w, AnyGreaterKernel) == IsAnyGreaterDefault(a, b)
    ensures 0 < |a| <= w ==> ZipAllChunks(a, b, w, AnyLesserKernel) == IsAnyLesserDefault(a, b)
    ensures 0 < |a| <= w ==> ZipAllChunks(a, b, w, AnyGreaterKernel) == IsAnyGreaterDefault(a, b)
  {
    if |a| == w {
      assert a[w..] == [] && b[w..] == [];
    }
    forall x: Vector, y: Vector | |x| == w && |y| == w
      ensures AnyLesserKernel(x, y) == AnyLane(x, y, Lt)
      ensures AnyGreaterKernel(x, y) == AnyLane(x, y, Gt)
    {
      MaskReductions(x, y, Lt);
      MaskReductions(x, y, Gt);
    }
    AllChunksOfAnyKernel(a, b, w, AnyLesserKernel, Lt);
    AllChunksOfAnyKernel(a, b, w, AnyGreaterKernel, Gt);
    ZipAnyChunksIsAnyLane(a, b, w, AnyLesserKernel, Lt);
    ZipAnyChunksIsAnyLane(a, b, w, AnyGreaterKernel, Gt);
  }

  /** An all-chunks reduction of an "some lane" kernel implies "some position"
      as soon as there is at least one position. */
  lemma {:induction false} AllChunksOfAnyKernel(a: seq<nat>, b: seq<nat>, w: nat,
                                                kernel: (Vector, Vector) -> bool, f: (nat, nat) -> bool)
    requires |a| == |b| && w > 0
    requires forall x: Vector, y: Vector :: |x| == w && |y| == w ==> kernel(x, y) == AnyLane(x, y, f)
    requires !f(0, 0)
    ensures |a| > 0 && ZipAllChunks(a, b, w, kernel) ==> AnyLane(a, b, f)
  {
    if |a| > 0 && ZipAllChunks(a, b, w, kernel) {
      if |a| < w {
        PadToLanes(a, b, w, f);
      } else {
        assert AnyLane(a[..w], b[..w], f);
        var i :| 0 <= i < w && f(a[..w][i], b[..w][i]);
        assert f(a[i], b[i]);
      }
    }
  }

  /** Counterexample for the as-written any-lesser tiers: a lesser count in
      the first chunk only, with a second chunk that is equal. */
  lemma AnyLesserSimdMissesLaterChunks(w: nat)
    requires w > 0
    ensures var a, b := Splat(0, 2 * w), [1] + Splat(0, 2 * w - 1);
            |a| == |b| && IsAnyLesserDefault(a, b) && !IsAnyLesserSimd(a, b, w)
  {
    var a, b := Splat(0, 2 * w), [1] + Splat(0, 2 * w - 1);
    assert a[0] < b[0];
    var a2, b2 := a[w..], b[w..];
    assert a2[..w] == Splat(0, w) && b2[..w] == Splat(0, w);
    assert !AnyLane(Splat(0, w), Splat(0, w), Lt);
    MaskReductions(Splat(0, w), Splat(0, w), Lt);
    assert !AnyLesserKernel(a2[..w], b2[..w]);
    assert !ZipAllChunks(a2, b2, w, AnyLesserKernel);
    assert !ZipAllChunks(a, b, w, AnyLesserKernel);
  }

  /** Counterexample for the as-written any-greater tiers (the mirror image). */
  lemma AnyGreaterSimdMissesLaterChunks(w: nat)
    requires w > 0
    ensures var a, b := [1] + Splat(0, 2 * w - 1), Splat(0, 2 * w);
            |a| == |b| && IsAnyGreaterDefault(a, b) && !IsAnyGreaterSimd(a, b, w)
  {
    var a, b := [1] + Splat(0, 2 * w - 1), Splat(0, 2 * w);
    assert a[0] > b[0];
    var a2, b2 := a[w..], b[w..];
    assert a2[..w] == Splat(0, w) && b2[..w] == Splat(0, w);
    assert !AnyLane(Splat(0, w), Splat(0, w), Gt);
    MaskReductions(Splat(0, w), Splat(0, w), Gt);
    assert !AnyGreaterKernel(a2[..w], b2[..w]);
    assert !ZipAllChunks(a2, b2, w, AnyGreaterKernel);
    assert !ZipAllChunks(a, b, w, AnyGreaterKernel);
  }

  // ---------------------------------------------------------------------
  // total_simd: scalar sum below one chunk, otherwise u16 lane sums
  // ---------------------------------------------------------------------

  /** Chunk kernel: lane-wise `u16` (wrapping) addition into the accumulator. */
  function TotalKernel(acc: Vector, chunk: Vector): Vector {
    WrappingAdd(acc, chunk, U16Limit)
  }

  /** `total_simd`: for `SIZE < w` the exact scalar sum; otherwise the `u16`
      lane sums, widened and added up. */
  function TotalSimd(a: seq<nat>, w: nat): (r: nat)
    requires w > 0
    ensures r <= TotalDefault(a)
    ensures |a| < w || TotalDefault(a) < U16Limit ==> r == TotalDefault(a)
  {
    if |a| < w then TotalDefault(a)
    else
      TotalChunks(a, w, Splat(0, w));
      TotalZeroIffEmpty(Splat(0, w));
      TotalDefault(FoldChunks(a, w, Splat(0, w), TotalKernel))
  }

  lemma {:induction false} PadToTotal(rest: seq<nat>, n: nat)
    requires |rest| <= n
    ensures TotalDefault(PadTo(rest, n)) == TotalDefault(rest)
  {
    var zeros := Splat(0, n - |rest|);
    assert PadTo(rest, n) == rest + zeros;
    TotalAppend(rest, zeros);
    TotalZeroIffEmpty(zeros);
  }

  /** Wrapping lane addition never gains, and loses nothing while the exact
      sums stay below the lane bound. */
  lemma {:induction false} WrappingAddTotal(x: Vector, y: Vector)
    requires |x| == |y|
    ensures TotalDefault(WrappingAdd(x, y, U16Limit)) <= TotalDefault(x) + TotalDefault(y)
    ensures TotalDefault(x) + TotalDefault(y) < U16Limit ==>
      TotalDefault(WrappingAdd(x, y, U16Limit)) == TotalDefault(x) + TotalDefault(y)
  {
    if |x| > 0 {
      var n := |x| - 1;
      var r := WrappingAdd(x, y, U16Limit);
      WrappingAddTotal(x[..n], y[..n]);
      assert r[..n] == WrappingAdd(x[..n], y[..n], U16Limit);
      if TotalDefault(x) + TotalDefault(y) < U16Limit {
        assert x[n] + y[n] < U16Limit;
        assert r[n] == x[n] + y[n];
      }
    }
  }

  lemma {:induction false} TotalChunks(s: seq<nat>, w: nat, acc: Vector)
    requires w > 0 && |acc| == w
    ensures var r := FoldChunks(s, w, acc, TotalKernel);
            |r| == w && TotalDefault(r) <= TotalDefault(acc) + TotalDefault(s) &&
            (TotalDefault(acc) + TotalDefault(s) < U16Limit ==>
               TotalDefault(r) == TotalDefault(acc) + TotalDefault(s))
    decreases |s|
  {
    if |s| == 0 {
    } else if |s| < w {
      assert FoldChunks(s, w, acc, TotalKernel) == TotalKernel(acc, PadTo(s, w));
      PadToTotal(s, w);
      WrappingAddTotal(acc, PadTo(s, w));
    } else {
      var next := TotalKernel(acc, s[..w]);
      assert FoldChunks(s, w, acc, TotalKernel) == FoldChunks(s[w..], w, next, TotalKernel);
      WrappingAddTotal(acc, s[..w]);
      TotalChunks(s[w..], w, next);
      assert s == s[..w] + s[w..];
      TotalAppend(s[..w], s[w..]);
    }
  }

  /** Counterexample: two full multiplicities in the same lane of different
      chunks overflow that `u16` lane, so the vector tier loses 2^16. */
  lemma TotalSimdLaneOverflow(w: nat)
    requires w > 0
    ensures var half := [U16Limit - 1] + Splat(0, w - 1);
            var a := half + half;
            IsU16Counts(a) && TotalDefault(a) == 2 * (U16Limit - 1) &&
            TotalSimd(a, w) == U16Limit - 2
  {
    var half: Vector := [U16Limit - 1] + Splat(0, w - 1);
    var doubled: Vector := [U16Limit - 2] + Splat(0, w - 1);
    var a := half + half;
    assert IsU16Counts(half);
    assert IsU16Counts(a);
    TotalOfFirstLane(U16Limit - 1, w);
    TotalAppend(half, half);
    TwoChunkFold(w);
    assert TotalSimd(a, w) == TotalDefault(doubled);
    TotalOfFirstLane(U16Limit - 2, w);
  }

  /** The chunk fold of TotalSimdLaneOverflow: lane 0 wraps, the others stay 0. */
  lemma TwoChunkFold(w: nat)
    requires w > 0
    ensures var half := [U16Limit - 1] + Splat(0, w - 1);
            FoldChunks(half + half, w, Splat(0, w), TotalKernel)
              == [U16Limit - 2] + Splat(0, w - 1)
  {
    var half: Vector := [U16Limit - 1] + Splat(0, w - 1);
    var doubled: Vector := [U16Limit - 2] + Splat(0, w - 1);
    var a := half + half;
    FirstLaneSums(w);
    assert a[..w] == half && a[w..] == half;
    assert FoldChunks(a, w, Splat(0, w), TotalKernel)
        == FoldChunks(a[w..], w, TotalKernel(Splat(0, w), a[..w]), TotalKernel);
    assert half[..w] == half && half[w..] == [];
    assert FoldChunks(half, w, half, TotalKernel)
        == FoldChunks(half[w..], w, TotalKernel(half, half[..w]), TotalKernel);
    assert FoldChunks([], w, doubled, TotalKernel) == doubled;
  }

  /** The lane-wise steps of TotalSimdLaneOverflow, one at a time. */
  lemma FirstLaneSums(w: nat)
    requires w > 0
    ensures var half := [U16Limit - 1] + Splat(0, w - 1);
            var doubled := [U16Limit - 2] + Splat(0, w - 1);
            TotalKernel(Splat(0, w), half) == half &&
            TotalKernel(half, half) == doubled
  {
    var half: Vector := [U16Limit - 1] + Splat(0, w - 1);
    var doubled: Vector := [U16Limit - 2] + Splat(0, w - 1);
    var acc1 := TotalKernel(Splat(0, w), half);
    forall i | 0 <= i < w ensures acc1[i] == half[i] {
      assert acc1[i] == (0 + half[i]) % U16Limit;
    }
    var acc2 := TotalKernel(half, half);
    forall i | 0 <= i < w ensures acc2[i] == doubled[i] {
      assert acc2[i] == (half[i] + half[i]) % U16Limit;
      if i > 0 {
        assert half[i] == 0 && doubled[i] == 0;
      }
    }
  }


  /** The total of a vector holding `v` in lane 0 and zeros elsewhere. */
  lemma TotalOfFirstLane(v: nat, w: nat)
    requires w > 0
    ensures TotalDefault([v] + Splat(0, w - 1)) == v
  {
    TotalAppend([v], Splat(0, w - 1));
    TotalZeroIffEmpty(Splat(0, w - 1));
    assert TotalDefault([v]) == TotalDefault([]) + v;
  }

}
