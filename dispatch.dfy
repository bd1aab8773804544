/**
 * Capability dispatch of `Multiset2<u16, SIZE>`: the tier chosen from the
 * host's features, and the public operations, each routed to exactly the
 * variant of that tier (16 lanes for AVX2 and AVX, 8 for SSE4.2, the scalar
 * baseline for DEF).
 */
module Dispatch {
  import opened Baseline
  import opened Kernels

  /** The instruction tiers, best first; `DEF` is the scalar baseline. */
  datatype CpuFeature = AVX2 | AVX | SSE42 | DEF

  /** The answers of the host probes for "avx2", "avx" and "sse4.2". */
  datatype HostFeatures = HostFeatures(avx2: bool, avx: bool, sse42: bool)

  /** Preference among tiers: higher is better. */
  function Rank(t: CpuFeature): nat {
    match t
    case AVX2 => 3
    case AVX => 2
    case SSE42 => 1
    case DEF => 0
  }

  /** The host can run tier `t`; the scalar baseline runs everywhere. */
  predicate Supported(t: CpuFeature, host: HostFeatures) {
    match t
    case AVX2 => host.avx2
    case AVX => host.avx
    case SSE42 => host.sse42
    case DEF => true
  }

  /** The initialiser of `CPU_FEATURE`: the most preferred supported tier. */
  function SelectTier(host: HostFeatures): (t: CpuFeature)
    ensures Supported(t, host)
    ensures forall u :: Supported(u, host) ==> Rank(u) <= Rank(t)
  {
    if host.avx2 then AVX2
    else if host.avx then AVX
    else if host.sse42 then SSE42
    else DEF
  }

  function Intersection(t: CpuFeature, a: seq<nat>, b: seq<nat>): (r: seq<nat>)
    requires |a| == |b|
    ensures r == IntersectionDefault(a, b)
  {
    match t
    case AVX2 => IntersectionSimd(a, b, 16)
    case AVX => IntersectionSimd(a, b, 16)
    case SSE42 => IntersectionSimd(a, b, 8)
    case DEF => IntersectionDefault(a, b)
  }

  function Union(t: CpuFeature, a: seq<nat>, b: seq<nat>): (r: seq<nat>)
    requires |a| == |b|
    ensures r == UnionDefault(a, b)
  {
    match t
    case AVX2 => UnionSimd(a, b, 16)
    case AVX => UnionSimd(a, b, 16)
    case SSE42 => UnionSimd(a, b, 8)
    case DEF => UnionDefault(a, b)
  }

  function CountNonZero(t: CpuFeature, s: seq<nat>): (r: nat)
    ensures r == CountNonZeroDefault(s)
  {
    match t
    case AVX2 => CountNonZeroSimd(s, 16)
    case AVX => CountNonZeroSimd(s, 16)
    case SSE42 => CountNonZeroSimd(s, 8)
    case DEF => CountNonZeroDefault(s)
  }

  /** `count_zero`: `SIZE - count_non_zero()`, the number of zero positions. */
  function CountZero(t: CpuFeature, s: seq<nat>): (r: nat)
    ensures r == multiset(s)[0]
    ensures r + CountNonZero(t, s) == |s|
  {
    |s| - CountNonZero(t, s)
  }

  /** `is_singleton`: exactly one position holds a non-zero count. */
  function IsSingleton(t: CpuFeature, s: seq<nat>): (r: bool)
    ensures r <==> exists k :: 0 <= k < |s| && s[k] > 0 &&
                     forall i :: 0 <= i < |s| && i != k ==> s[i] == 0
  {
    CountNonZeroOneIffSingleton(s);
    CountNonZero(t, s) == 1
  }

  function IsDisjoint(t: CpuFeature, a: seq<nat>, b: seq<nat>): (r: bool)
    requires |a| == |b|
    ensures r == IsDisjointDefault(a, b)
  {
    match t
    case AVX2 => IsDisjointSimd(a, b, 16)
    case AVX => IsDisjointSimd(a, b, 16)
    case SSE42 => IsDisjointSimd(a, b, 8)
    case DEF => IsDisjointDefault(a, b)
  }

  function IsSubset(t: CpuFeature, a: seq<nat>, b: seq<nat>): (r: bool)
    requires |a| == |b|
    ensures r == IsSubsetDefault(a, b)
  {
    match t
    case AVX2 => IsSubsetSimd(a, b, 16)
    case AVX => IsSubsetSimd(a, b, 16)
    case SSE42 => IsSubsetSimd(a, b, 8)
    case DEF => IsSubsetDefault(a, b)
  }

  function IsSuperset(t: CpuFeature, a: seq<nat>, b: seq<nat>): (r: bool)
    requires |a| == |b|
    ensures r == IsSupersetDefault(a, b)
  {
    match t
    case AVX2 => IsSupersetSimd(a, b, 16)
    case AVX => IsSupersetSimd(a, b, 16)
    case SSE42 => IsSupersetSimd(a, b, 8)
    case DEF => IsSupersetDefault(a, b)
  }

  /** `is_proper_subset`: `self != other && is_subset`; equivalently a subset
      with some strictly smaller count. */
  function IsProperSubset(t: CpuFeature, a: seq<nat>, b: seq<nat>): (r: bool)
    requires |a| == |b|
    ensures r <==> IsSubsetDefault(a, b) && IsAnyLesserDefault(a, b)
  {
    ProperSubsetDefinitionsAgree(a, b);
    a != b && IsSubset(t, a, b)
  }

  /** `is_proper_superset`, the mirror image. */
  function IsProperSuperset(t: CpuFeature, a: seq<nat>, b: seq<nat>): (r: bool)
    requires |a| == |b|
    ensures r <==> IsSupersetDefault(a, b) && IsAnyGreaterDefault(a, b)
  {
    ProperSubsetDefinitionsAgree(a, b);
    a != b && IsSuperset(t, a, b)
  }

  /** `is_any_lesser`: exact on DEF; on the vector tiers, as written, a `true`
      answer is sound but a lesser count can be missed. */
  function IsAnyLesser(t: CpuFeature, a: seq<nat>, b: seq<nat>): (r: bool)
    requires |a| == |b|
    ensures t == DEF ==> r == IsAnyLesserDefault(a, b)
    ensures |a| > 0 && r ==> IsAnyLesserDefault(a, b)
    ensures t == SSE42 && 0 < |a| <= 8 ==> r == IsAnyLesserDefault(a, b)
    ensures (t == AVX || t == AVX2) && 0 < |a| <= 16 ==> r == IsAnyLesserDefault(a, b)
  {
    match t
    case AVX2 => IsAnyLesserSimd(a, b, 16)
    case AVX => IsAnyLesserSimd(a, b, 16)
    case SSE42 => IsAnyLesserSimd(a, b, 8)
    case DEF => IsAnyLesserDefault(a, b)
  }

  /** `is_any_greater`, the mirror image. */
  function IsAnyGreater(t: CpuFeature, a: seq<nat>, b: seq<nat>): (r: bool)
    requires |a| == |b|
    ensures t == DEF ==> r == IsAnyGreaterDefault(a, b)
    ensures |a| > 0 && r ==> IsAnyGreaterDefault(a, b)
    ensures t == SSE42 && 0 < |a| <= 8 ==> r == IsAnyGreaterDefault(a, b)
    ensures (t == AVX || t == AVX2) && 0 < |a| <= 16 ==> r == IsAnyGreaterDefault(a, b)
  {
    match t
    case AVX2 => IsAnyGreaterSimd(a, b, 16)
    case AVX => IsAnyGreaterSimd(a, b, 16)
    case SSE42 => IsAnyGreaterSimd(a, b, 8)
    case DEF => IsAnyGreaterDefault(a, b)
  }

  /** `total`: exact on DEF, whenever SIZE is below the tier's lane count
      (8 for SSE4.2, 16 for AVX and AVX2: that tier takes the scalar path) and
      whenever the exact total fits a `u16` lane; otherwise a vector tier may
      lose, never gain. */
  function Total(t: CpuFeature, s: seq<nat>): (r: nat)
    ensures r <= TotalDefault(s)
    ensures t == DEF ==> r == TotalDefault(s)
    ensures t == SSE42 && |s| < 8 ==> r == TotalDefault(s)
    ensures (t == AVX || t == AVX2) && |s| < 16 ==> r == TotalDefault(s)
    ensures TotalDefault(s) < U16Limit ==> r == TotalDefault(s)
  {
    match t
    case AVX2 => TotalSimd(s, 16)
    case AVX => TotalSimd(s, 16)
    case SSE42 => TotalSimd(s, 8)
    case DEF => TotalDefault(s)
  }

  /** On the SSE4.2 tier with SIZE = 16, `is_any_lesser` misses a lesser count
      that only the first chunk holds; likewise `is_any_greater`. */
  lemma DispatchedAnyLesserDisagrees()
    ensures var a, b := Lanes.Splat(0, 16), [1] + Lanes.Splat(0, 15);
            |a| == |b| && IsAnyLesserDefault(a, b) && !IsAnyLesser(SSE42, a, b)
    ensures var a, b := [1] + Lanes.Splat(0, 15), Lanes.Splat(0, 16);
            |a| == |b| && IsAnyGreaterDefault(a, b) && !IsAnyGreater(SSE42, a, b)
  {
    AnyLesserSimdMissesLaterChunks(8);
    AnyGreaterSimdMissesLaterChunks(8);
  }
}
