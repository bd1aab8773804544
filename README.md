# Fixed-capacity multisets: vector-array and tiered flat representations

This project models the core of a fixed-capacity multiset library: a bag
of unsigned multiplicities over the element indices `0..N`, in two
representations.

- **The vector-array multiset** (`src/simd/simd_array.rs`). The counts are
  stored as `USIZE` SIMD vectors of `lanes` lanes. Element `p` lives in
  vector `p / lanes`, lane `p % lanes`.
  - A count is an unsigned scalar of `bits` bits. Its vector arithmetic and
    `total` wrap modulo 2^bits.
  - The pure operations (`VectorArray`) are iterator and fold expressions
    over the vectors. Each is proved equal to the per-element definition on
    the flattened counts (`Flatten`).
  - The mutating operations (`VectorMultiset.Multiset`) are methods of a
    class whose `data` array of vectors is written slot by slot:
    construction, `clear`, `choose`, `choose_random`.
  - `argmax`/`argmin` are nested loops over that array.
- **The flat `Multiset2<u16, SIZE>`** (`src/simd_impl.rs`).
  - The scalar `_default` operations (`Baseline`) are the ground truth.
  - Three vector tiers (AVX2 and AVX with 16 lanes, SSE4.2 with 8) apply a
    per-chunk kernel through chunk helpers: full width-`w` chunks, then the
    remainder loaded into a zeroed chunk and handed to the same kernel
    (`Chunks`, `Kernels`).
  - A tier is selected from the host's features, and every public
    operation is routed to that tier's variant (`Dispatch`).
  - `choose_random` rebuilds the counts in a loop (`FlatMultiset.Multiset2`).

The random number generator is a parameter: the `ticket` argument of each
`choose_random` is the value that `gen_range` would draw, and its range is
that method's precondition.

The two implementations differ where the model follows each as written:

- The flat `choose_random` (src/simd_impl.rs:413) draws its ticket from
  `1..=total` and returns early on a total of 0. The vector-array
  `choose_random` (src/simd/simd_array.rs:342) draws it from `0..=total()`;
  it is modelled so, and listed under Findings.
- The vector-array `total` (src/simd/simd_array.rs:232-235) wraps at the
  scalar width. The flat `total` sums exactly on its scalar path and in
  `u16` lanes on its vector tiers (src/simd_impl.rs:229-249).

Modules: `Baseline` (baseline.dfy), `Lanes` (lanes.dfy), `Chunks`
(chunks.dfy), `Kernels` (kernels.dfy), `Dispatch` (dispatch.dfy),
`FlatMultiset` (flat_multiset.dfy), `VectorArray` (vector_array.dfy),
`VectorMultiset` (vector_multiset.dfy).

## Model

| member | source | states |
|---|---|---|
| `Baseline.IntersectionDefault` | src/simd_impl.rs:299-301 | each count of the result is the smaller of the two operands' counts: at most both, equal to one |
| `Baseline.UnionDefault` | src/simd_impl.rs:308-310 | each count of the result is the larger of the two operands' counts: at least both, equal to one |
| `Baseline.CountNonZeroDefault` | src/simd_impl.rs:323-325 | the fold of `min(elem, 1)` is the number of positions whose count is not zero (length minus the occurrences of 0) |
| `Baseline.TotalAppend` | src/simd_impl.rs:398-400 | the exact total of two concatenated count sequences is the sum of their totals |
| `Baseline.TotalZeroIffEmpty` | src/simd_impl.rs:398-400 | the exact total is 0 exactly when every count is 0 |
| `Baseline.InclusionExclusion` | src/simd_impl.rs:299-310 | total(union) + total(intersection) == total(a) + total(b) |
| `Baseline.IntersectionUnionLaws` | src/simd_impl.rs:299-310 | intersection and union are commutative and idempotent |
| `Baseline.SubsetIffMeetJoin` | src/simd_impl.rs:350-352 | a is a subset of b iff a ∩ b == a iff a ∪ b == b |
| `Baseline.SubsetAntisymmetric` | src/simd_impl.rs:350-361 | mutual subsets are equal; superset is the converse of subset |
| `Baseline.ProperSubsetDefinitionsAgree` | src/simd_impl.rs:368-391 | `self != other && is_subset` holds iff `is_subset && is_any_lesser`; the same for superset with `is_any_greater` |
| `Baseline.DisjointIffEmptyIntersection` | src/simd_impl.rs:338-343 | disjoint (every pairwise minimum is 0) iff the intersection has total 0 |
| `Baseline.KeepOnlyTotal` | src/simd_impl.rs:414-424 | keeping one position gives a sub-multiset whose total is that position's count (0 beyond the end) |
| `Baseline.CountNonZeroZeroIffEmpty` | src/simd_impl.rs:323-325 | no non-zero position iff every count is 0 |
| `Baseline.CountNonZeroOneIffSingleton` | src/simd_impl.rs:332-334 | `count_non_zero() == 1` iff exactly one position holds a non-zero count |
| `Baseline.PrefixReachSelects` | src/simd_impl.rs:413-424 | for a ticket in `1..=total` the walk stops at a position k < SIZE with count > 0, and k is the first whose prefix sum reaches the ticket |
| `Baseline.ChosenIsSingleton` | src/simd_impl.rs:413-424 | after keeping the chosen position, only it is non-zero, it keeps its original count, and the total is that count |
| `Lanes.WrappingAdd` | src/simd/simd_array.rs:232-235 | lane-wise vector addition wraps: each lane is below the scalar bound and at most the exact sum |
| `Lanes.CountOnesGtZero` | src/simd/simd_array.rs:146-150 | `gt(ZERO).bitmask().count_ones()` of a vector counts its non-zero lanes |
| `Lanes.CountOnesEqZero` | src/simd/simd_array.rs:138-142 | `eq(ZERO).bitmask().count_ones()` plus the non-zero lanes is the vector width |
| `Lanes.MaskReductions` | src/simd/simd_array.rs:168-224 | `mask.all()` / `mask.any()` of a lane comparison mean "every lane" / "some lane" satisfies it |
| `Chunks.ZipMapChunksIsLanewise` | src/simd_impl.rs:112-144 | a chunk kernel that is lane-wise on full chunks, applied also to the zero-padded remainder and cut back to its length, gives the element-wise map |
| `Chunks.ZipAllChunksIsAllLanes` | src/simd_impl.rs:159-199 | an all-lanes chunk kernel that zero lanes pass, reduced over every chunk and the padded remainder, is the element-wise "for all" |
| `Chunks.ZipAnyChunksIsAnyLane` | src/simd_impl.rs:201-227 | an any-lane chunk kernel that zero lanes fail, reduced with "some chunk" over the chunks and the padded remainder, is the element-wise "exists" |
| `Kernels.IntersectionSimd` | src/simd_impl.rs:112-127 | the chunked `min` kernel equals `_intersection_default` |
| `Kernels.UnionSimd` | src/simd_impl.rs:129-144 | the chunked `max` kernel equals `_union_default` |
| `Kernels.CountNonZeroChunks` | src/simd_impl.rs:146-157 | folding popcounts of `gt(0)` masks over the chunks and the padded remainder adds the non-zero count of the input to the accumulator |
| `Kernels.CountNonZeroSimd` | src/simd_impl.rs:146-157 | the chunked count equals `_count_non_zero_default` |
| `Kernels.DisjointKernelIsAllLanes` | src/simd_impl.rs:163-168 | `min(a, b) == splat(0)` on a chunk holds iff every lane pair has minimum 0 |
| `Kernels.DisjointChunks` | src/simd_impl.rs:159-171 | the chunked disjointness test equals `_is_disjoint_default` |
| `Kernels.IsDisjointSimd` | src/simd_impl.rs:159-171 | the vector-tier `is_disjoint` equals the default |
| `Kernels.SubsetChunks` | src/simd_impl.rs:173-199 | the chunked `le().all()` / `ge().all()` tests equal `_is_subset_default` / `_is_superset_default` |
| `Kernels.IsSubsetSimd` | src/simd_impl.rs:173-185 | the vector-tier `is_subset` equals the default |
| `Kernels.IsSupersetSimd` | src/simd_impl.rs:187-199 | the vector-tier `is_superset` equals the default |
| `Kernels.IsAnyLesserSimd` | src/simd_impl.rs:201-213 | per-chunk `any()` under an all-chunks reduction: on a non-empty multiset a `true` answer implies the default; with one chunk or less it equals the default |
| `Kernels.IsAnyGreaterSimd` | src/simd_impl.rs:215-227 | per-chunk `any()` under an all-chunks reduction: a `true` answer implies `_is_any_greater_default` on a non-empty multiset; with one chunk or less it equals it |
| `Kernels.IsAnyLesserSimdAnyChunk` | src/simd_impl.rs:201-213 | with the per-chunk `any()` reduced over "some chunk", the vector tier equals `_is_any_lesser_default` |
| `Kernels.IsAnyGreaterSimdAnyChunk` | src/simd_impl.rs:215-227 | with "some chunk", the vector tier equals `_is_any_greater_default` |
| `Kernels.AnyKernelChunks` | src/simd_impl.rs:201-227 | the all-chunks reduction of the any-kernels is sound, and exact on at most one chunk; the some-chunk reduction is exact |
| `Kernels.AllChunksOfAnyKernel` | src/simd_impl.rs:205-210 | if every chunk and the padded remainder have a lane satisfying a relation that zero lanes fail, some element satisfies it |
| `Kernels.AnyLesserSimdMissesLaterChunks` | src/simd_impl.rs:206-210 | for every width w, a = 0^(2w), b = [1] ++ 0^(2w-1): the default finds a lesser count, the vector tier as written answers false |
| `Kernels.AnyGreaterSimdMissesLaterChunks` | src/simd_impl.rs:220-224 | the mirror counterexample for `is_any_greater` |
| `Kernels.WrappingAddTotal` | src/simd_impl.rs:238-243 | adding a chunk into the `u16` lanes never gains total, and loses none while the exact sum fits a `u16` |
| `Kernels.TotalChunks` | src/simd_impl.rs:238-243 | the folded lane sums never exceed the exact total, and equal it while it fits a `u16` |
| `Kernels.TotalSimd` | src/simd_impl.rs:229-249 | the vector-tier total never exceeds the exact sum; it equals it below one chunk (the scalar path) or while the sum fits a `u16` |
| `Kernels.PadToTotal` | src/simd_impl.rs:238-243 | a zero-padded remainder chunk has the remainder's total |
| `Kernels.TotalSimdLaneOverflow` | src/simd_impl.rs:240-243 | two counts of 65535 in the same lane of two chunks: exact total 131070, vector-tier total 65534 |
| `Dispatch.SelectTier` | src/simd_impl.rs:59-71 | the chosen tier is supported by the host and no supported tier is preferred over it (AVX2, then AVX, then SSE4.2, then DEF) |
| `Dispatch.Intersection` | src/simd_impl.rs:303-304 | the dispatched `intersection` equals the default on every tier |
| `Dispatch.Union` | src/simd_impl.rs:312-313 | the dispatched `union` equals the default on every tier |
| `Dispatch.CountNonZero` | src/simd_impl.rs:327-328 | the dispatched `count_non_zero` equals the default on every tier |
| `Dispatch.CountZero` | src/simd_impl.rs:317-319 | `SIZE - count_non_zero()` is the number of zero positions, and the two add up to SIZE |
| `Dispatch.IsSingleton` | src/simd_impl.rs:332-334 | holds iff exactly one position is non-zero |
| `Dispatch.IsDisjoint` | src/simd_impl.rs:345-346 | the dispatched `is_disjoint` equals the default on every tier |
| `Dispatch.IsSubset` | src/simd_impl.rs:354-355 | the dispatched `is_subset` equals the default on every tier |
| `Dispatch.IsSuperset` | src/simd_impl.rs:363-364 | the dispatched `is_superset` equals the default on every tier |
| `Dispatch.IsProperSubset` | src/simd_impl.rs:368-370 | `self != other && is_subset` holds iff subset with some strictly smaller count |
| `Dispatch.IsProperSuperset` | src/simd_impl.rs:374-376 | `self != other && is_superset` holds iff superset with some strictly larger count |
| `Dispatch.IsAnyLesser` | src/simd_impl.rs:384-385 | exact on DEF and on a vector tier when SIZE is at most its lane count; otherwise a `true` answer is sound on non-empty input |
| `Dispatch.IsAnyGreater` | src/simd_impl.rs:393-394 | exact on DEF and on a vector tier when SIZE is at most its lane count; otherwise a `true` answer is sound on non-empty input |
| `Dispatch.Total` | src/simd_impl.rs:229-249 | never above the exact sum; exact on DEF, when SIZE is below the tier's lane count (8 on SSE4.2, 16 on AVX and AVX2), and while the sum fits a `u16` |
| `Dispatch.DispatchedAnyLesserDisagrees` | src/simd_impl.rs:92-110 | on the SSE4.2 tier with SIZE 16 the dispatched `is_any_lesser` / `is_any_greater` answer false where the default answers true |
| `FlatMultiset.Multiset2.ChooseRandom` | src/simd_impl.rs:408-425 | total 0 leaves the object unchanged; otherwise the counts become those of the first position whose prefix sum reaches the ticket, every other position zeroed |
| `FlatMultiset.KeepTicket` | src/simd_impl.rs:414-424 | the new array holds only the count at the first position whose running sum reaches the ticket, every other slot 0 (all 0 when none reaches it) |
| `VectorArray.FlattenLength` | src/simd/simd_array.rs:75-77 | the flat counts number `lanes * USIZE` |
| `VectorArray.FlattenAt` | src/simd/simd_array.rs:250-253 | lane j of vector i is element `i * lanes + j` |
| `VectorArray.FlattenIndex` | src/simd/simd_array.rs:89-95 | element p is lane `p % lanes` of vector `p / lanes` |
| `VectorArray.FlattenLanewise` | src/simd/simd_array.rs:123-224 | a lane-wise zip over the vectors, arithmetic (`min`, `max`) or a comparison mask (`le`, `ge`, `lt`, `gt`), laid end to end is the element-wise zip of the flat counts |
| `VectorArray.FlattenAll` | src/simd/simd_array.rs:168-184 | every vector's mask is all-true iff the flat mask is |
| `VectorArray.FlattenAny` | src/simd/simd_array.rs:208-224 | some vector's mask has a true lane iff the flat mask does |
| `VectorArray.AllMasksAgree` | src/simd/simd_array.rs:168-184 | `all` over vectors of `cmp(..).all()` is "every element pair satisfies cmp" |
| `VectorArray.AnyMaskAgrees` | src/simd/simd_array.rs:208-224 | `any` over vectors of `cmp(..).any()` is "some element pair satisfies cmp" |
| `VectorArray.Contains` | src/simd/simd_array.rs:87-100 | holds iff `elem < len()` and its count is positive; out of range gives false |
| `VectorArray.ContainsUnchecked` | src/simd/simd_array.rs:109-116 | for an in-range element, holds iff its count is positive |
| `VectorArray.Intersection` | src/simd/simd_array.rs:123-125 | the flat counts of the result are the element-wise minimum of the operands' |
| `VectorArray.Union` | src/simd/simd_array.rs:132-134 | the flat counts of the result are the element-wise maximum of the operands' |
| `VectorArray.IntersectionUnionWellFormed` | src/simd/simd_array.rs:123-134 | intersection and union of well-formed arrays are well-formed (counts fit the scalar) |
| `VectorArray.CountNonZero` | src/simd/simd_array.rs:146-150 | the popcount fold is the number of non-zero elements |
| `VectorArray.CountZero` | src/simd/simd_array.rs:138-142 | the popcount fold is the number of zero elements |
| `VectorArray.CountZeroPlusNonZero` | src/simd/simd_array.rs:138-150 | `count_zero() + count_non_zero() == len()` |
| `VectorArray.IsEmpty` | src/simd/simd_array.rs:154-156 | every vector is zero iff every count is 0 |
| `VectorArray.FlattenAllZero` | src/simd/simd_array.rs:154-156 | all vectors equal the zero vector iff all flat counts are 0 |
| `VectorArray.IsSingleton` | src/simd/simd_array.rs:160-162 | `count_non_zero() == 1` iff exactly one element is present |
| `VectorArray.IsSubset` | src/simd/simd_array.rs:168-173 | equals the per-element subset test on the flat counts |
| `VectorArray.IsSuperset` | src/simd/simd_array.rs:179-184 | equals the per-element superset test on the flat counts |
| `VectorArray.IsProperSubset` | src/simd/simd_array.rs:191-193 | `is_subset && is_any_lesser` holds iff the counts differ and are a subset |
| `VectorArray.IsProperSuperset` | src/simd/simd_array.rs:200-202 | `is_superset && is_any_greater` holds iff the counts differ and are a superset |
| `VectorArray.IsAnyLesser` | src/simd/simd_array.rs:208-213 | equals "some element has a strictly smaller count" |
| `VectorArray.IsAnyGreater` | src/simd/simd_array.rs:219-224 | equals "some element has a strictly larger count" |
| `VectorArray.WrappingAddTotalMod` | src/simd/simd_array.rs:232-235 | lane-wise wrapping addition preserves the total modulo the lane bound |
| `VectorArray.VectorSumTotal` | src/simd/simd_array.rs:232-235 | the folded vector sum has the flat total modulo 2^bits |
| `VectorArray.Total` | src/simd/simd_array.rs:232-235 | `total()` is the sum of all counts modulo 2^bits |
| `VectorArray.VectorMax` | src/simd/simd_array.rs:273-276 | the lane-wise max fold (from ZERO) bounds every vector's lane and is 0 or attained |
| `VectorArray.VectorMin` | src/simd/simd_array.rs:314-317 | the lane-wise min fold (from MAX) is below every vector's lane and is MAX or attained |
| `VectorArray.MaxElement` | src/simd/simd_array.rs:275 | `max_element` is an attained upper bound of the lanes |
| `VectorArray.MinElement` | src/simd/simd_array.rs:316 | `min_element` is an attained lower bound of the lanes |
| `VectorArray.MaxOfLanes` | src/simd/simd_array.rs:273-276 | the max of the lane-wise max fold is the largest flat count |
| `VectorArray.MaxCount` | src/simd/simd_array.rs:273-276 | `max()` bounds every count and is attained by one |
| `VectorArray.MinOfLanes` | src/simd/simd_array.rs:314-317 | the min of the lane-wise min fold is the smallest flat count |
| `VectorArray.MinCount` | src/simd/simd_array.rs:314-317 | `min()` is below every count and is attained by one |
| `VectorArray.ChooseVectors` | src/simd/simd_array.rs:325-332 | after `choose`, every lane is 0 or its original count |
| `VectorArray.ChooseVectorsFlat` | src/simd/simd_array.rs:321-334 | vector by vector, `choose(k)` keeps count k and zeroes the rest of the flat counts (everything when k is out of range) |
| `VectorArray.WrappedReachSelects` | src/simd/simd_array.rs:341-367 | a ticket above the running sum and at most the wrapped remaining total stops the walk at a present element |
| `VectorArray.WrappedReachExact` | src/simd/simd_array.rs:341-367 | while the counts do not overflow the scalar, the wrapping walk stops where the exact prefix-sum walk does |
| `VectorMultiset.Multiset.Flat` | src/simd/simd_array.rs:75-77 | the object holds `len() == lanes * USIZE` counts |
| `VectorMultiset.Multiset.FromIter` | src/simd/simd_array.rs:19-34 | element p gets the p-th item when there is one, else 0; items beyond `len()` are not read |
| `VectorMultiset.FillLanes` | src/simd/simd_array.rs:23-28 | one vector takes the next `lanes` items in lane order, 0 in the lanes past the last item, and the iterator advances by exactly the items taken |
| `VectorMultiset.PaddedVectorsFlat` | src/simd/simd_array.rs:22-31 | vectors filled this way are well-formed and read back flat as the items followed by zeros |
| `VectorMultiset.Multiset.Repeat` | src/simd/simd_array.rs:58-64 | every count is `elem` |
| `VectorMultiset.Multiset.Empty` | src/simd/simd_array.rs:51-53 | the new multiset is empty |
| `VectorMultiset.Multiset.FromSlice` | src/simd/simd_array.rs:68-71 | refused iff the slice length is not `len()`; otherwise the counts are the slice |
| `VectorMultiset.Multiset.Clear` | src/simd/simd_array.rs:81-83 | afterwards every count is 0 (`is_empty`) |
| `VectorMultiset.Multiset.Argmax` | src/simd/simd_array.rs:243-257 | returns the first element holding the largest count, and that count |
| `VectorMultiset.MaxLanes` | src/simd/simd_array.rs:248-254 | the inner loop over one vector: the running maximum never drops and ends at least every lane; when it grows, the reported lane is the first holding the new maximum |
| `VectorMultiset.Multiset.Imax` | src/simd/simd_array.rs:264-266 | the first element holding the largest count |
| `VectorMultiset.Multiset.ArgminAsWritten` | src/simd/simd_array.rs:284-298 | the smallest count, with index `q % lanes` for the first element q holding it |
| `VectorMultiset.MinLanes` | src/simd/simd_array.rs:289-295 | the inner loop over one vector: the running minimum never grows and ends at most every lane; when it drops, the reported lane is the first holding the new minimum |
| `VectorMultiset.Multiset.Argmin` | src/simd/simd_array.rs:284-298 | corrected: the first element holding the smallest count, and that count |
| `VectorMultiset.Multiset.IminAsWritten` | src/simd/simd_array.rs:305-307 | the lane offset of the first element holding the smallest count |
| `VectorMultiset.Multiset.Imin` | src/simd/simd_array.rs:305-307 | corrected: the first element holding the smallest count |
| `VectorMultiset.Multiset.Choose` | src/simd/simd_array.rs:321-334 | the counts become those with only `elem` kept (all zero when `elem >= len()`) |
| `VectorMultiset.WalkLanes` | src/simd/simd_array.rs:351-358 | the inner walk over one vector either stops at the lane where the wrapping running sum first reaches the ticket, or passes on the new running sum |
| `VectorMultiset.ChooseInVector` | src/simd/simd_array.rs:350-364 | one vector of the walk: it keeps only the chosen lane when the walk stops inside it and is zeroed otherwise; the pending walk state moves on by one vector |
| `VectorMultiset.Multiset.WeightedWalk` | src/simd/simd_array.rs:343-366 | the counts become those with only the element where the wrapping running sum first reaches the ticket kept |
| `VectorMultiset.Multiset.ChooseRandom` | src/simd/simd_array.rs:341-367 | as written, for a ticket in `0..=total()`: keeps only the element where the running sum first reaches the ticket |
| `VectorMultiset.Multiset.ChooseRandomNonEmpty` | src/simd/simd_array.rs:341-367 | corrected: total 0 leaves the counts unchanged; else a ticket in `1..=total()` keeps one present element with its count |
| `VectorMultiset.ArgminLaneOffsetMisreports` | src/simd/simd_array.rs:293 | in [[1, 1], [0, 1]] every result `argmin` may return is (0, 0), yet element 0 holds 1 |
| `VectorMultiset.ChooseRandomTicketZeroEmpties` | src/simd/simd_array.rs:342 | [[0, 1]] has total 1; ticket 0 stops the walk at element 0 and leaves total 0 |
| `VectorMultiset.ChooseRandomNonEmptyKeepsOne` | src/simd/simd_array.rs:341-367 | a ticket in `1..=total()` keeps a present element with its full count |

## Left out

- `collision_entropy` and `shannon_entropy` in both files are left out. They use floating-point logarithms and powers.
- Host probing (`is_x86_feature_detected!`) and the process-wide one-time `lazy_static` initialisation of the tier are left out. The host's answers are the parameter of `Dispatch.SelectTier`.
- SIMD intrinsics, unaligned or unchecked loads and stores, uninitialised memory and target-feature attributes are left out. Vectors are fixed-length sequences and lanes are indices.
- The random number generator is a parameter: each `choose_random` takes the drawn ticket as an argument.
- `VectorMultiset.Multiset.ChooseRandom`: `total() + 1` overflows when the total is the scalar's maximum. The draw then panics, so the precondition excludes that case.
- Debug-mode overflow panics are not modelled. The running sum `acc` of the vector-array `choose_random` wraps as in release builds.
- `zip_map`, `fold`, `PartialOrd` and the chunk helpers live in files that are not part of this model. `Chunks` defines its own chunk helpers. Every caller hands them one closure that loads full-width vectors, so the model gives them one remainder rule: a non-empty remainder is zero-padded to a full chunk and handed to the same kernel, and an empty one is skipped. That rule is a reading of the interface, not of the helpers' code; it decides what the `is_any_lesser` and `is_any_greater` vector tiers answer on a remainder, though not the counterexample under Findings, which has none.
- The crate instantiates the vector-array type once per scalar width and lane count through a macro. The model has one type parameterised by `bits` and `lanes`.
- `count_zero` and `count_non_zero` of the vector array return `u32`. The model counts with unbounded naturals, which is exact for every capacity below 2^32.
- `FromIter` reads its items from a finite sequence. An infinite iterator is read only up to `len()` items, and these are the items the model sees.
- `Kernels.TotalSimd`: does not claim equality with `_total_default` in general, because the `u16` lane accumulators wrap. `TotalSimdLaneOverflow` shows the loss. The contract states the bound and the conditions under which equality holds.
- `Kernels.IsAnyLesserSimd`: beyond one chunk states only that a `true` answer is sound on non-empty input, because the all-chunks reduction is not equivalent to the default (see Findings); on an empty multiset it answers `true`.
- `Kernels.IsAnyGreaterSimd`: beyond one chunk states only that a `true` answer is sound on non-empty input, for the same reason.
- `Dispatch.IsAnyLesser`: on the vector tiers beyond one chunk states only soundness of `true`, as `Kernels.IsAnyLesserSimd` does.
- `Dispatch.IsAnyGreater`: on the vector tiers beyond one chunk states only soundness of `true`, as `Kernels.IsAnyGreaterSimd` does.
- `Dispatch.Total`: not equal to `_total_default` on the vector tiers once SIZE reaches the tier's lane count and the sum no longer fits a `u16` lane; there the contract gives only the upper bound, as `Kernels.TotalSimd` explains.

## Findings

| source | as written | input that shows it | evidently intended | confidence | as-written member | corrected member |
|---|---|---|---|---|---|---|
| src/simd/simd_array.rs:293 | `argmin` records the lane offset `i` as the index | counts [[1, 1], [0, 1]] with 2 lanes: the minimum 0 is element 2, but the index returned is 0, whose count is 1 | `arr_idx * lanes + i`, as `argmax` records it | high, not executed | `VectorMultiset.Multiset.ArgminAsWritten`, `VectorMultiset.ArgminLaneOffsetMisreports` | `VectorMultiset.Multiset.Argmin` |
| src/simd/simd_array.rs:342 | the ticket is drawn from `0..=total()`, so ticket 0 stops at element 0 whatever its count | counts [[0, 1]], 2 lanes, 8-bit scalar: total 1, ticket 0 keeps element 0 and the result is empty | draw from `1..=total()` and return early on total 0, as the flat multiset does | high, not executed | `VectorMultiset.Multiset.ChooseRandom`, `VectorMultiset.ChooseRandomTicketZeroEmpties` | `VectorMultiset.Multiset.ChooseRandomNonEmpty` |
| src/simd_impl.rs:206-210 | the per-chunk `any()` kernel is passed to `zip_all_chunks`, an all-chunks reduction | SIZE 16 on SSE4.2: a = 0^16, b = [1] ++ 0^15; only the first chunk holds a lesser count, so the tier answers false while `_is_any_lesser_default` answers true | reduce the chunks with "some chunk" (likewise for `is_any_greater`, :220-224) | medium, not executed: the chunk helper is not part of this model | `Kernels.IsAnyLesserSimd`, `Kernels.AnyLesserSimdMissesLaterChunks` | `Kernels.IsAnyLesserSimdAnyChunk` |
