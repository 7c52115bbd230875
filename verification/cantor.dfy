/** The Cantor pairing codec that turns a directed edge into one integer
    code, so that edge sets can be compared with NumPy's integer set routines.

    The source decodes with a float64 square root; for codes above roughly
    2^52 that root is inexact and the decoded pair can be wrong, and the
    encoder's int64 arithmetic overflows for node ids near 2^31. Here every
    quantity is an unbounded `nat` and the root is the exact integer one. */
module Cantor {
  import opened Seqs
  import opened Edges

  /** `f(w)`: the triangular number `w(w+1)/2`. */
  function Tri(w: nat): nat
  {
    (w * (w + 1)) / 2
  }

  lemma TriDouble(w: nat)
    ensures 2 * Tri(w) == w * (w + 1)
  {
    var x := if w % 2 == 0 then (w / 2) * (w + 1) else w * ((w + 1) / 2);
    EvenProduct(w, x);
    assert w * (w + 1) == 2 * x;
  }

  lemma EvenProduct(w: nat, x: nat)
    requires x == if w % 2 == 0 then (w / 2) * (w + 1) else w * ((w + 1) / 2)
    ensures w * (w + 1) == 2 * x
  {
    if w % 2 == 0 {
      var h := w / 2;
      assert w == 2 * h;
      assert w * (w + 1) == 2 * h * (w + 1);
    } else {
      var h := (w + 1) / 2;
      assert w + 1 == 2 * h;
      assert w * (w + 1) == w * (2 * h);
    }
  }

  lemma TriStep(w: nat)
    ensures Tri(w + 1) == Tri(w) + w + 1
  {
    TriDouble(w);
    TriDouble(w + 1);
    assert (w + 1) * (w + 2) == w * (w + 1) + 2 * (w + 1);
  }

  lemma {:induction false} TriMonotone(v: nat, w: nat)
    requires v <= w
    ensures Tri(v) <= Tri(w)
    decreases w - v
  {
    if v < w {
      TriStep(v);
      TriMonotone(v + 1, w);
    }
  }

  /** Only one `w` brackets `z` between consecutive triangular numbers. */
  lemma TriRootUnique(v: nat, w: nat, z: nat)
    requires Tri(v) <= z < Tri(v + 1)
    requires Tri(w) <= z < Tri(w + 1)
    ensures v == w
  {
    if v < w {
      TriMonotone(v + 1, w);
    } else if w < v {
      TriMonotone(w + 1, v);
    }
  }

  /** `cantor_pairing`: `b + T(a + b)` for the edge `(a, b)`. The code of
      an edge lies in the band of codes of its diagonal `a + b`, which is
      what lets the diagonal, and then the edge, be read back. */
  function Pair(e: Edge): (z: nat)
    ensures Tri(e.0 + e.1) <= z < Tri(e.0 + e.1 + 1)
  {
    TriStep(e.0 + e.1);
    e.1 + Tri(e.0 + e.1)
  }

  /** `q(z)` computed exactly: the largest `w` with `T(w) <= z`. */
  function TriRoot(z: nat): (w: nat)
    ensures Tri(w) <= z < Tri(w + 1)
    decreases z
  {
    if z == 0 then 0
    else
      var v := TriRoot(z - 1);
      TriStep(v);
      TriStep(v + 1);
      if Tri(v + 1) <= z then v + 1 else v
  }

  /** The source's `q(z) = floor((sqrt(8z + 1) - 1) / 2)`, with the square
      root taken exactly (integer bisection) instead of in float64. */
  method TriangularRoot(z: nat) returns (w: nat)
    ensures w == TriRoot(z)
  {
    var n := 8 * z + 1;
    var lo, hi := 0, n + 1;
    while lo + 1 < hi
      invariant lo < hi
      invariant lo * lo <= n < hi * hi
      decreases hi - lo
    {
      var mid := (lo + hi) / 2;
      if mid * mid <= n {
        lo := mid;
      } else {
        hi := mid;
      }
    }
    assert hi == lo + 1;
    w := (lo - 1) / 2;
    SqrtBracketsTriRoot(z, lo, w);
    TriRootUnique(w, TriRoot(z), z);
  }

  /** With `s = isqrt(8z + 1)`, `(s - 1) / 2` brackets `z` between
      consecutive triangular numbers. */
  lemma SqrtBracketsTriRoot(z: nat, s: nat, w: nat)
    requires s * s <= 8 * z + 1 < (s + 1) * (s + 1)
    requires s >= 1 && w == (s - 1) / 2
    ensures Tri(w) <= z < Tri(w + 1)
  {
    OddSquare(w);
    OddSquare(w + 1);
    if s == 2 * w + 1 {
      assert (s + 1) * (s + 1) <= (s + 2) * (s + 2) by {
        SquareMonotone(s + 1, s + 2);
      }
    } else {
      assert s == 2 * w + 2;
      assert (s - 1) * (s - 1) <= s * s by {
        SquareMonotone(s - 1, s);
      }
    }
  }

  /** `8 T(w) + 1` is the odd square `(2w + 1)^2`. */
  lemma OddSquare(w: nat)
    ensures 8 * Tri(w) + 1 == (2 * w + 1) * (2 * w + 1)
  {
    TriDouble(w);
    assert (2 * w + 1) * (2 * w + 1) == 4 * (w * (w + 1)) + 1;
  }

  lemma SquareMonotone(a: nat, b: nat)
    requires a <= b
    ensures a * a <= b * b
  {
    assert a * a <= a * b <= b * b;
  }

  /** `cantor_pairing_inv` for one code. */
  function Unpair(z: nat): (e: Edge)
    ensures Pair(e) == z
    ensures e.0 + e.1 == TriRoot(z)
    ensures e.1 <= TriRoot(z)
  {
    var w := TriRoot(z);
    TriStep(w);
    var b := z - Tri(w);
    (w - b, b)
  }

  /** Decoding inverts encoding: the check the modifier runs when it is
      constructed, proved for every edge. */
  lemma RoundTrip(e: Edge)
    ensures Unpair(Pair(e)) == e
  {
    var z := Pair(e);
    TriRootUnique(e.0 + e.1, TriRoot(z), z);
    assert Unpair(z).1 == z - Tri(e.0 + e.1) == e.1;
  }

  /** Different edges get different codes. */
  lemma PairInjective(e: Edge, f: Edge)
    ensures Pair(e) == Pair(f) <==> e == f
  {
    RoundTrip(e);
    RoundTrip(f);
  }

  /** The code depends on orientation: reversing an edge keeps its code
      only for a self-loop. */
  lemma PairOrderSensitive(a: nat, b: nat)
    ensures Pair((a, b)) == Pair((b, a)) <==> a == b
  {
    assert a + b == b + a;
  }

  /** `cantor_pairing` applied column-wise to a `2 x E` edge tensor. */
  function EncodeAll(es: seq<Edge>): (zs: seq<nat>)
    ensures |zs| == |es|
    ensures forall k :: 0 <= k < |es| ==> zs[k] == Pair(es[k])
  {
    seq(|es|, k requires 0 <= k < |es| => Pair(es[k]))
  }

  /** `cantor_pairing_inv` applied to a code array. */
  function DecodeAll(zs: seq<nat>): (es: seq<Edge>)
    ensures |es| == |zs|
    ensures forall k :: 0 <= k < |zs| ==> Pair(es[k]) == zs[k]
  {
    seq(|zs|, k requires 0 <= k < |zs| => Unpair(zs[k]))
  }

  /** The constructor's self-check `test == cantor_pairing_inv(cantor_pairing(test))`
      holds for every edge list, not only for the sampled one. */
  lemma DecodeEncodeAll(es: seq<Edge>)
    ensures DecodeAll(EncodeAll(es)) == es
  {
    forall k | 0 <= k < |es| ensures DecodeAll(EncodeAll(es))[k] == es[k] {
      RoundTrip(es[k]);
    }
  }

  /** Encoding every code of a list after decoding it gives the list back. */
  lemma EncodeDecodeAll(zs: seq<nat>)
    ensures EncodeAll(DecodeAll(zs)) == zs
  {
  }

  /** A code belongs to an encoded edge list exactly when its decoded edge
      belongs to the edge list. */
  lemma CodeMembership(z: nat, es: seq<Edge>)
    ensures z in EncodeAll(es) <==> Unpair(z) in es
  {
    if z in EncodeAll(es) {
      var k :| 0 <= k < |es| && EncodeAll(es)[k] == z;
      RoundTrip(es[k]);
    }
    if Unpair(z) in es {
      var k :| 0 <= k < |es| && es[k] == Unpair(z);
      assert EncodeAll(es)[k] == z;
    }
  }

  /** An edge belongs to an edge list exactly when its code belongs to the
      encoded list. */
  lemma EdgeMembership(e: Edge, es: seq<Edge>)
    ensures e in es <==> Pair(e) in EncodeAll(es)
  {
    CodeMembership(Pair(e), es);
    RoundTrip(e);
  }

  /** Encoding neither creates nor hides duplicates. */
  lemma EncodeDistinct(es: seq<Edge>)
    ensures Distinct(es) <==> Distinct(EncodeAll(es))
  {
    forall i, j | 0 <= i < j < |es|
      ensures es[i] == es[j] <==> EncodeAll(es)[i] == EncodeAll(es)[j]
    {
      PairInjective(es[i], es[j]);
    }
  }

  /** Decoding neither creates nor hides duplicates. */
  lemma DecodeDistinct(zs: seq<nat>)
    ensures Distinct(zs) <==> Distinct(DecodeAll(zs))
  {
    EncodeDistinct(DecodeAll(zs));
    EncodeDecodeAll(zs);
  }
}
