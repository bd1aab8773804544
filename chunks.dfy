/**
 * The chunking engine: a flat array of length N is processed as full chunks
 * of width `w` (the active tier's lane count), each handed to the one chunk
 * kernel the caller supplies. A non-empty remainder of `N % w` elements is
 * loaded into a zeroed chunk and handed to the same kernel, so that no kernel
 * ever reads past the end; an empty remainder is skipped.
 *
 * The helpers of `crate::chunks` are not part of this model. Every caller
 * hands them a single closure that loads full `w`-lane vectors, and these
 * definitions are this model's reading of that interface. The lemmas below
 * say when a chunk-wise computation equals the flat, element-wise one.
 */
module Chunks {
  import opened Baseline
  import opened Lanes

  /** Zip two arrays chunk by chunk into a new array; of the padded
      remainder chunk only the lanes that hold elements are kept. */
  function ZipMapChunks(a: seq<nat>, b: seq<nat>, w: nat, kernel: (Vector, Vector) -> Vector): seq<nat>
    requires |a| == |b| && w > 0
    decreases |a|
  {
    if |a| == 0 then []
    else if |a| < w then
      var out := kernel(PadTo(a, w), PadTo(b, w));
      out[..Min(|a|, |out|)]
    else kernel(a[..w], b[..w]) + ZipMapChunks(a[w..], b[w..], w, kernel)
  }

  /** Fold a chunk kernel over the full chunks, then over the padded remainder. */
  function FoldChunks<A>(s: seq<nat>, w: nat, acc: A, kernel: (A, Vector) -> A): A
    requires w > 0
    decreases |s|
  {
    if |s| == 0 then acc
    else if |s| < w then kernel(acc, PadTo(s, w))
    else FoldChunks(s[w..], w, kernel(acc, s[..w]), kernel)
  }

  /** Short-circuit "all" reduction: every full chunk and the padded
      remainder pass the kernel. */
  predicate ZipAllChunks(a: seq<nat>, b: seq<nat>, w: nat, kernel: (Vector, Vector) -> bool)
    requires |a| == |b| && w > 0
    decreases |a|
  {
    if |a| == 0 then true
    else if |a| < w then kernel(PadTo(a, w), PadTo(b, w))
    else kernel(a[..w], b[..w]) && ZipAllChunks(a[w..], b[w..], w, kernel)
  }

  /** Short-circuit "any" reduction: some full chunk or the padded remainder
      passes the kernel. */
  predicate ZipAnyChunks(a: seq<nat>, b: seq<nat>, w: nat, kernel: (Vector, Vector) -> bool)
    requires |a| == |b| && w > 0
    decreases |a|
  {
    if |a| == 0 then false
    else if |a| < w then kernel(PadTo(a, w), PadTo(b, w))
    else kernel(a[..w], b[..w]) || ZipAnyChunks(a[w..], b[w..], w, kernel)
  }

  /** The zero lanes of a padded pair change an all-lanes test only if the
      relation fails on `(0, 0)`, and an any-lane test only if it holds there. */
  lemma PadToLanes(a: seq<nat>, b: seq<nat>, w: nat, f: (nat, nat) -> bool)
    requires |a| == |b| <= w
    ensures f(0, 0) ==> (AllLanes(PadTo(a, w), PadTo(b, w), f) <==> AllLanes(a, b, f))
    ensures !f(0, 0) ==> (AnyLane(PadTo(a, w), PadTo(b, w), f) <==> AnyLane(a, b, f))
  {
    var x, y := PadTo(a, w), PadTo(b, w);
    if f(0, 0) && AllLanes(a, b, f) {
      forall i | 0 <= i < w
        ensures f(x[i], y[i])
      {
        if i < |a| {
          assert f(a[i], b[i]);
        }
      }
    }
    if AllLanes(x, y, f) {
      forall i | 0 <= i < |a|
        ensures f(a[i], b[i])
      {
        assert x[i] == a[i] && y[i] == b[i];
      }
    }
    if !f(0, 0) && AnyLane(x, y, f) {
      var i :| 0 <= i < w && f(x[i], y[i]);
      assert i < |a| && f(a[i], b[i]);
    }
    if AnyLane(a, b, f) {
      var i :| 0 <= i < |a| && f(a[i], b[i]);
      assert f(x[i], y[i]);
    }
  }

  /** A chunk kernel that acts lane-wise like `f` makes the chunked zip equal
      to the flat lane-wise map, whatever the length and the width. */
  lemma {:induction false} ZipMapChunksIsLanewise(a: seq<nat>, b: seq<nat>, w: nat,
                                                  kernel: (Vector, Vector) -> Vector, f: (nat, nat) -> nat)
    requires |a| == |b| && w > 0
    requires forall x: Vector, y: Vector :: |x| == w && |y| == w ==> kernel(x, y) == Lanewise(x, y, f)
    ensures ZipMapChunks(a, b, w, kernel) == Lanewise(a, b, f)
    decreases |a|
  {
    if 0 < |a| < w {
      var out := kernel(PadTo(a, w), PadTo(b, w));
      assert out == Lanewise(PadTo(a, w), PadTo(b, w), f);
      assert out[..|a|] == Lanewise(a, b, f);
    } else if |a| >= w {
      ZipMapChunksIsLanewise(a[w..], b[w..], w, kernel, f);
      assert Lanewise(a, b, f) == Lanewise(a[..w], b[..w], f) + Lanewise(a[w..], b[w..], f);
    }
  }

  /** A chunk kernel that tests "all lanes satisfy `f`", where zero padding
      passes, makes the chunked all-reduction equal to the flat "all
      positions satisfy `f`". */
  lemma {:induction false} ZipAllChunksIsAllLanes(a: seq<nat>, b: seq<nat>, w: nat,
                                                  kernel: (Vector, Vector) -> bool, f: (nat, nat) -> bool)
    requires |a| == |b| && w > 0
    requires forall x: Vector, y: Vector :: |x| == w && |y| == w ==> kernel(x, y) == AllLanes(x, y, f)
    requires f(0, 0)
    ensures ZipAllChunks(a, b, w, kernel) == AllLanes(a, b, f)
    decreases |a|
  {
    if 0 < |a| < w {
      PadToLanes(a, b, w, f);
    } else if |a| >= w {
      ZipAllChunksIsAllLanes(a[w..], b[w..], w, kernel, f);
      assert forall i :: 0 <= i < w ==> a[..w][i] == a[i] && b[..w][i] == b[i];
      assert forall i :: w <= i < |a| ==> a[w..][i - w] == a[i] && b[w..][i - w] == b[i];
    }
  }

  /** A chunk kernel that tests "some lane satisfies `f`", where zero
      padding does not, makes the chunked any-reduction equal to the flat
      "some position satisfies `f`". */
  lemma {:induction false} ZipAnyChunksIsAnyLane(a: seq<nat>, b: seq<nat>, w: nat,
                                                 kernel: (Vector, Vector) -> bool, f: (nat, nat) -> bool)
    requires |a| == |b| && w > 0
    requires forall x: Vector, y: Vector :: |x| == w && |y| == w ==> kernel(x, y) == AnyLane(x, y, f)
    requires !f(0, 0)
    ensures ZipAnyChunks(a, b, w, kernel) == AnyLane(a, b, f)
    decreases |a|
  {
    if 0 < |a| < w {
      PadToLanes(a, b, w, f);
    } else if |a| >= w {
      ZipAnyChunksIsAnyLane(a[w..], b[w..], w, kernel, f);
      assert forall i :: 0 <= i < w ==> a[..w][i] == a[i] && b[..w][i] == b[i];
      assert forall i :: w <= i < |a| ==> a[w..][i - w] == a[i] && b[w..][i - w] == b[i];
      if AnyLane(a, b, f) {
        var i :| 0 <= i < |a| && f(a[i], b[i]);
        if i < w {
          assert f(a[..w][i], b[..w][i]);
        } else {
          assert f(a[w..][i - w], b[w..][i - w]);
        }
      }
    }
  }
}
