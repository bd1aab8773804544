/**
 * Lane-level vector vocabulary shared by the vector kernels: a SIMD vector is
 * a fixed-length sequence of multiplicities, a comparison yields a mask (one
 * boolean per lane), and horizontal operations reduce a vector or a mask.
 */
module Lanes {
  import opened Baseline

  type Vector = seq<nat>
  type MaskVector = seq<bool>

  /** `splat(v)`: every lane holds `v`. */
  function Splat(v: nat, n: nat): (r: Vector)
    ensures |r| == n
  {
    seq(n, _ => v)
  }

  /** `rest` loaded into a zeroed vector of `n` lanes (cut at `n` if longer). */
  function PadTo(rest: seq<nat>, n: nat): (r: Vector)
    ensures |r| == n
  {
    seq(n, i requires 0 <= i < n => if i < |rest| then rest[i] else 0)
  }

  /** Applies a binary scalar operator lane by lane; like Rust's `zip`, it
      stops at the shorter operand (vectors of one tier have equal lengths).
      With an arithmetic operator the result is a vector (`min`, `max`, `+`),
      with a comparison it is a mask (`le`, `lt`, `gt`, ...). */
  function Lanewise<R>(x: Vector, y: Vector, f: (nat, nat) -> R): (r: seq<R>)
    ensures |r| == Min(|x|, |y|)
  {
    seq(Min(|x|, |y|), i requires 0 <= i < Min(|x|, |y|) => f(x[i], y[i]))
  }

  /** Lane-wise `min` of two vectors. */
  function VecMin(x: Vector, y: Vector): Vector {
    Lanewise(x, y, Min)
  }

  /** Lane-wise `max` of two vectors. */
  function VecMax(x: Vector, y: Vector): Vector {
    Lanewise(x, y, Max)
  }

  /** Every lane of a pair of vectors satisfies `cmp`. */
  predicate AllLanes(x: Vector, y: Vector, cmp: (nat, nat) -> bool) {
    forall i :: 0 <= i < |x| && i < |y| ==> cmp(x[i], y[i])
  }

  /** Some lane of a pair of vectors satisfies `cmp`. */
  predicate AnyLane(x: Vector, y: Vector, cmp: (nat, nat) -> bool) {
    exists i :: 0 <= i < |x| && i < |y| && cmp(x[i], y[i])
  }

  /** Mask reduction `all()`. */
  predicate All(m: MaskVector) {
    forall i :: 0 <= i < |m| ==> m[i]
  }

  /** Mask reduction `any()`. */
  predicate Any(m: MaskVector) {
    exists i :: 0 <= i < |m| && m[i]
  }

  /** `bitmask().count_ones()`: the number of set lanes of a mask. */
  function CountOnes(m: MaskVector): nat {
    if |m| == 0 then 0 else CountOnes(m[..|m| - 1]) + (if m[|m| - 1] then 1 else 0)
  }

  predicate Le(x: nat, y: nat) { x <= y }
  predicate Lt(x: nat, y: nat) { x < y }
  predicate Ge(x: nat, y: nat) { x >= y }
  predicate Gt(x: nat, y: nat) { x > y }
  predicate Eq(x: nat, y: nat) { x == y }

  /** Lane-wise wrapping addition of vectors whose lanes hold `bound` values. */
  function WrappingAdd(x: Vector, y: Vector, bound: nat): (r: Vector)
    requires bound > 0
    ensures |r| == Min(|x|, |y|)
    ensures forall i :: 0 <= i < |r| ==> r[i] < bound && r[i] <= x[i] + y[i]
  {
    var r := seq(Min(|x|, |y|), i requires 0 <= i < Min(|x|, |y|) => (x[i] + y[i]) % bound);
    assert forall i :: 0 <= i < |r| ==> r[i] < bound && r[i] <= x[i] + y[i] by {
      forall i | 0 <= i < |r| {
        ModAtMost(x[i] + y[i], bound);
      }
    }
    r
  }

  /** A wrapped value is below the modulus and never above the exact value. */
  lemma ModAtMost(v: nat, bound: nat)
    requires bound > 0
    ensures v % bound < bound && v % bound <= v
  {
    if v < bound {
      assert v % bound == v;
    }
  }

  /** The counting mask `gt(splat(0))` counts exactly the non-zero lanes. */
  lemma {:induction false} CountOnesGtZero(v: Vector)
    ensures CountOnes(Lanewise(v, Splat(0, |v|), Gt)) == CountNonZeroDefault(v)
  {
    if |v| > 0 {
      var n := |v| - 1;
      CountOnesGtZero(v[..n]);
      var m := Lanewise(v, Splat(0, |v|), Gt);
      assert m[..n] == Lanewise(v[..n], Splat(0, n), Gt);
      assert CountOnes(m) == CountOnes(m[..n]) + (if m[n] then 1 else 0);
      assert Splat(0, |v|)[n] == 0;
      assert m[n] == Gt(v[n], 0);
      assert CountNonZeroDefault(v) == CountNonZeroDefault(v[..n]) + Min(v[n], 1);
    }
  }

  /** The counting mask `eq(splat(0))` counts exactly the zero lanes. */
  lemma {:induction false} CountOnesEqZero(v: Vector)
    ensures CountOnes(Lanewise(v, Splat(0, |v|), Eq)) + CountNonZeroDefault(v) == |v|
  {
    if |v| > 0 {
      var n := |v| - 1;
      CountOnesEqZero(v[..n]);
      var m := Lanewise(v, Splat(0, |v|), Eq);
      assert m[..n] == Lanewise(v[..n], Splat(0, n), Eq);
      assert CountOnes(m) == CountOnes(m[..n]) + (if m[n] then 1 else 0);
      assert Splat(0, |v|)[n] == 0;
      assert m[n] == Eq(v[n], 0);
      assert CountNonZeroDefault(v) == CountNonZeroDefault(v[..n]) + Min(v[n], 1);
    }
  }

  /** Reducing a comparison mask with `all()` / `any()` tests every / some lane. */
  lemma MaskReductions(x: Vector, y: Vector, cmp: (nat, nat) -> bool)
    ensures All(Lanewise(x, y, cmp)) == AllLanes(x, y, cmp)
    ensures Any(Lanewise(x, y, cmp)) == AnyLane(x, y, cmp)
  {
    if AnyLane(x, y, cmp) {
      var i :| 0 <= i < |x| && i < |y| && cmp(x[i], y[i]);
      assert Lanewise(x, y, cmp)[i];
    }
    if !AllLanes(x, y, cmp) {
      var i :| 0 <= i < |x| && i < |y| && !cmp(x[i], y[i]);
      assert !Lanewise(x, y, cmp)[i];
    }
  }
}
