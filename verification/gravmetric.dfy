/** The training loss and the evaluation figures of the metric-learning
    stage (gravmetric_base.py).

    Edge labels become hinge targets, every edge gets the squared distance
    between the embeddings of its two endpoints, and the loss is PyTorch's
    `hinge_embedding_loss` taken separately over the negative and the
    positive edges. Arithmetic is over `real`: floating-point rounding is
    not modelled, and the NaN that a mean over no elements produces is
    `None`. */
module GravMetric {
  import opened Outcomes
  import opened Seqs
  import opened CodeSets
  import opened Edges
  import opened Masks
  import opened Ratios
  import opened Intersection

  /** One embedded point. */
  type Vector = seq<real>

  /** `get_hinge_distance`, first half: labels as floats, with every 0
      replaced by -1. */
  function HingeTargets(y: seq<bool>): (h: seq<real>)
    ensures |h| == |y|
    ensures forall k :: 0 <= k < |y| ==> (h[k] == 1.0 <==> y[k]) && (h[k] == -1.0 <==> !y[k])
  {
    var asFloat := seq(|y|, k requires 0 <= k < |y| => if y[k] then 1.0 else 0.0);
    seq(|asFloat|, k requires 0 <= k < |asFloat| => if asFloat[k] == 0.0 then -1.0 else asFloat[k])
  }

  /** `torch.sum((u - v) ** 2, dim=-1)` for one pair of points. */
  function SqDist(u: Vector, v: Vector): (d: real)
    requires |u| == |v|
    ensures d >= 0.0
    decreases |u|
  {
    if |u| == 0 then 0.0
    else Square(u[0] - v[0]) + SqDist(u[1..], v[1..])
  }

  /** The squared distance vanishes exactly between equal points. */
  lemma {:induction false} SqDistZero(u: Vector, v: Vector)
    requires |u| == |v|
    ensures SqDist(u, v) == 0.0 <==> u == v
    decreases |u|
  {
    if |u| > 0 {
      SqDistZero(u[1..], v[1..]);
      var x := u[0] - v[0];
      if x != 0.0 {
        assert u[0] != v[0];
      } else {
        assert u == v <==> u[1..] == v[1..] by {
          assert u == [u[0]] + u[1..] && v == [v[0]] + v[1..];
        }
      }
    }
  }

  function Square(x: real): (r: real)
    ensures r >= 0.0
    ensures r == 0.0 <==> x == 0.0
  {
    if x < 0.0 then
      PositiveProduct(-x, -x);
      assert x * x == (-x) * (-x);
      x * x
    else
      PositiveProduct(x, x);
      x * x
  }

  lemma PositiveProduct(x: real, y: real)
    requires x >= 0.0 && y >= 0.0
    ensures x * y >= 0.0
    ensures x * y == 0.0 <==> x == 0.0 || y == 0.0
  {
  }

  /** All rows of an embedding have the same width, as the rows of a
      tensor do. */
  predicate Rows(m: seq<Vector>, dim: nat)
  {
    forall i :: 0 <= i < |m| ==> |m[i]| == dim
  }

  /** Edge `k` names a row of `s1` as its source and a row of `s2` as its
      target. */
  predicate Indexes(edges: seq<Edge>, s1: seq<Vector>, s2: seq<Vector>)
  {
    forall k :: 0 <= k < |edges| ==> edges[k].0 < |s1| && edges[k].1 < |s2|
  }

  /** `get_hinge_distance`, second half: `d[k]` compares `spatial1` at the
      source of edge `k` with `spatial2` at its target. An edge naming a
      row that does not exist makes the indexing raise. */
  function Distances(s1: seq<Vector>, s2: seq<Vector>, dim: nat, edges: seq<Edge>): (d: Option<seq<real>>)
    requires Rows(s1, dim) && Rows(s2, dim)
    ensures d.Some? <==> Indexes(edges, s1, s2)
    ensures d.Some? ==> |d.value| == |edges|
    ensures d.Some? ==> forall k :: 0 <= k < |edges| ==>
      d.value[k] == SqDist(s1[edges[k].0], s2[edges[k].1])
    ensures d.Some? ==> forall k :: 0 <= k < |edges| ==>
      d.value[k] >= 0.0 && (d.value[k] == 0.0 <==> s1[edges[k].0] == s2[edges[k].1])
  {
    if !Indexes(edges, s1, s2) then None
    else
      var d := seq(|edges|, k requires 0 <= k < |edges| => SqDist(s1[edges[k].0], s2[edges[k].1]));
      forall k | 0 <= k < |edges| ensures d[k] == 0.0 <==> s1[edges[k].0] == s2[edges[k].1] {
        SqDistZero(s1[edges[k].0], s2[edges[k].1]);
      }
      Some(d)
  }

  function Max(a: real, b: real): real
  {
    if a >= b then a else b
  }

  /** One element of `hinge_embedding_loss` as PyTorch computes it: the
      clamped margin term where the target is not 1, plus the input where
      the target is not -1. */
  function HingeTerm(x: real, y: real, margin: real): real
  {
    (if y != 1.0 then Max(0.0, margin - x) else 0.0) + (if y != -1.0 then x else 0.0)
  }

  function Sum(xs: seq<real>): real
    decreases |xs|
  {
    if |xs| == 0 then 0.0 else Sum(xs[..|xs| - 1]) + xs[|xs| - 1]
  }

  /** The element-wise losses before reduction. */
  function Terms(x: seq<real>, y: seq<real>, margin: real): (t: seq<real>)
    requires |x| == |y|
    ensures |t| == |x|
    ensures forall k :: 0 <= k < |x| ==> t[k] == HingeTerm(x[k], y[k], margin)
  {
    seq(|x|, k requires 0 <= k < |x| => HingeTerm(x[k], y[k], margin))
  }

  /** `hinge_embedding_loss(x, y, margin=margin, reduction="mean")`. The
      mean over no elements is NaN, here `None`. */
  function HingeEmbeddingLoss(x: seq<real>, y: seq<real>, margin: real): (r: Option<real>)
    requires |x| == |y|
    ensures r.Some? <==> |x| > 0
  {
    Mean(Sum(Terms(x, y, margin)), |x|)
  }

  /** `s / n`, undefined (NaN) for `n == 0`. */
  function Mean(s: real, n: nat): (r: Option<real>)
    ensures r.Some? <==> n > 0
  {
    if n == 0 then None else Some(s / n as real)
  }

  /** `negative + weight * positive`, undefined when either part is. */
  function Combine(negative: Option<real>, positive: Option<real>, weight: real): (r: Option<real>)
    ensures r.Some? <==> negative.Some? && positive.Some?
  {
    if negative.None? || positive.None? then None
    else Some(negative.value + weight * positive.value)
  }

  /** `hinge == c`. */
  function ClassMask(h: seq<real>, c: real): (m: seq<bool>)
    ensures |m| == |h|
    ensures forall k :: 0 <= k < |h| ==> (m[k] <==> h[k] == c)
  {
    seq(|h|, k requires 0 <= k < |h| => h[k] == c)
  }

  /** `get_loss(hinge, d, margin, weight)`. Without a margin argument the
      margin is the square of the configured `margin`. */
  function GetLoss(h: seq<real>, d: seq<real>, margin: Option<real>, weight: real, configMargin: real)
    : (r: Option<real>)
    requires |h| == |d|
    ensures r.Some? <==> -1.0 in h && 1.0 in h
    ensures margin.Some? ==> r == PartitionedLoss(h, d, margin.value, weight)
    ensures margin.None? ==> r == PartitionedLoss(h, d, configMargin * configMargin, weight)
  {
    PartitionedLoss(h, d, if margin.None? then configMargin * configMargin else margin.value, weight)
  }

  /** The body of `get_loss` once the margin is fixed: the hinge loss over
      the edges with target -1 plus `weight` times the hinge loss over the
      edges with target 1. */
  function PartitionedLoss(h: seq<real>, d: seq<real>, margin: real, weight: real): (r: Option<real>)
    requires |h| == |d|
    ensures r.Some? <==> -1.0 in h && 1.0 in h
  {
    var neg := ClassMask(h, -1.0);
    var pos := ClassMask(h, 1.0);
    TrueIndicesNonEmpty(neg);
    TrueIndicesNonEmpty(pos);
    Combine(HingeEmbeddingLoss(Masked(d, neg), Masked(h, neg), margin),
            HingeEmbeddingLoss(Masked(d, pos), Masked(h, pos), margin), weight)
  }

  /** How many edges have target `c`. */
  function ClassSize(h: seq<real>, c: real): nat
    decreases |h|
  {
    if |h| == 0 then 0
    else ClassSize(h[..|h| - 1], c) + (if h[|h| - 1] == c then 1 else 0)
  }

  /** The sum over edges with target -1 of `max(0, margin - d)`. */
  function NegativeSum(h: seq<real>, d: seq<real>, margin: real): (s: real)
    requires |h| == |d|
    ensures s >= 0.0
    decreases |h|
  {
    if |h| == 0 then 0.0
    else
      var n := |h| - 1;
      NegativeSum(h[..n], d[..n], margin) + (if h[n] == -1.0 then Max(0.0, margin - d[n]) else 0.0)
  }

  /** The sum over edges with target 1 of `d`. */
  function PositiveSum(h: seq<real>, d: seq<real>): real
    requires |h| == |d|
    decreases |h|
  {
    if |h| == 0 then 0.0
    else
      var n := |h| - 1;
      PositiveSum(h[..n], d[..n]) + (if h[n] == 1.0 then d[n] else 0.0)
  }

  /** The element losses of the edges with target `c`, summed. */
  function ClassSum(h: seq<real>, d: seq<real>, c: real, margin: real): real
    requires |h| == |d|
    decreases |h|
  {
    if |h| == 0 then 0.0
    else
      var n := |h| - 1;
      ClassSum(h[..n], d[..n], c, margin) + (if h[n] == c then HingeTerm(d[n], c, margin) else 0.0)
  }

  /** The edges picked by `hinge == c` are as many as have target `c`. */
  lemma {:induction false} MaskedClassSize(h: seq<real>, d: seq<real>, c: real)
    requires |h| == |d|
    ensures |Masked(d, ClassMask(h, c))| == ClassSize(h, c)
    decreases |h|
  {
    if |h| > 0 {
      var n := |h| - 1;
      MaskedClassSize(h[..n], d[..n], c);
      PartitionStep(h, d, c, 0.0);
    }
  }

  /** Summing `torch`'s element losses over the edges picked by `hinge == c`
      sums them class by class. */
  lemma {:induction false} MaskedClassSum(h: seq<real>, d: seq<real>, c: real, margin: real)
    requires |h| == |d|
    ensures Sum(Terms(Masked(d, ClassMask(h, c)), Masked(h, ClassMask(h, c)), margin))
         == ClassSum(h, d, c, margin)
    decreases |h|
  {
    if |h| > 0 {
      var n := |h| - 1;
      MaskedClassSum(h[..n], d[..n], c, margin);
      PartitionStep(h, d, c, margin);
    }
  }

  /** With target -1 the element loss is the clamped margin term. */
  lemma {:induction false} NegativeClassSum(h: seq<real>, d: seq<real>, margin: real)
    requires |h| == |d|
    ensures ClassSum(h, d, -1.0, margin) == NegativeSum(h, d, margin)
    decreases |h|
  {
    if |h| > 0 {
      var n := |h| - 1;
      NegativeClassSum(h[..n], d[..n], margin);
    }
  }

  /** With target 1 the element loss is the distance itself. */
  lemma {:induction false} PositiveClassSum(h: seq<real>, d: seq<real>, margin: real)
    requires |h| == |d|
    ensures ClassSum(h, d, 1.0, margin) == PositiveSum(h, d)
    decreases |h|
  {
    if |h| > 0 {
      var n := |h| - 1;
      PositiveClassSum(h[..n], d[..n], margin);
    }
  }

  /** The class picked from a sequence one edge longer gains that edge's
      element loss when the edge is in the class. */
  lemma PartitionStep(h: seq<real>, d: seq<real>, c: real, margin: real)
    requires |h| == |d| > 0
    ensures |Masked(d, ClassMask(h, c))|
         == |Masked(d[..|h| - 1], ClassMask(h[..|h| - 1], c))| + (if h[|h| - 1] == c then 1 else 0)
    ensures Sum(Terms(Masked(d, ClassMask(h, c)), Masked(h, ClassMask(h, c)), margin))
         == Sum(Terms(Masked(d[..|h| - 1], ClassMask(h[..|h| - 1], c)), Masked(h[..|h| - 1], ClassMask(h[..|h| - 1], c)), margin))
            + (if h[|h| - 1] == c then HingeTerm(d[|h| - 1], c, margin) else 0.0)
  {
    var n := |h| - 1;
    var mask := ClassMask(h, c);
    assert ClassMask(h[..n], c) == mask[..n];
    MaskedSnoc(d, mask);
    MaskedSnoc(h, mask);
    var t := Terms(Masked(d, mask), Masked(h, mask), margin);
    var t0 := Terms(Masked(d[..n], mask[..n]), Masked(h[..n], mask[..n]), margin);
    if mask[n] {
      assert t == t0 + [HingeTerm(d[n], h[n], margin)];
      assert t[..|t| - 1] == t0;
    } else {
      assert t == t0;
    }
  }


  /** The loss is the mean of `max(0, margin - d)` over the edges with
      target -1 plus `weight` times the mean of `d` over the edges with
      target 1, and is undefined when either class is empty. */
  lemma LossClosedForm(h: seq<real>, d: seq<real>, margin: real, weight: real)
    requires |h| == |d|
    ensures PartitionedLoss(h, d, margin, weight)
         == Combine(Mean(NegativeSum(h, d, margin), ClassSize(h, -1.0)),
                    Mean(PositiveSum(h, d), ClassSize(h, 1.0)), weight)
  {
    MaskedClassSize(h, d, -1.0);
    MaskedClassSize(h, d, 1.0);
    MaskedClassSum(h, d, -1.0, margin);
    MaskedClassSum(h, d, 1.0, margin);
    NegativeClassSum(h, d, margin);
    PositiveClassSum(h, d, margin);
  }

  /** The clamped margin sum vanishes exactly when every edge with target
      -1 is at least the margin away. */
  lemma {:induction false} NegativeSumZero(h: seq<real>, d: seq<real>, margin: real)
    requires |h| == |d|
    ensures NegativeSum(h, d, margin) == 0.0
        <==> forall k :: 0 <= k < |h| && h[k] == -1.0 ==> d[k] >= margin
    decreases |h|
  {
    if |h| > 0 {
      var n := |h| - 1;
      NegativeSumZero(h[..n], d[..n], margin);
      assert forall k :: 0 <= k < n ==> h[..n][k] == h[k] && d[..n][k] == d[k];
    }
  }

  /** With non-negative distances, the distance sum over the edges with
      target 1 is non-negative and vanishes exactly when all of them are at
      distance zero. */
  lemma {:induction false} PositiveSumZero(h: seq<real>, d: seq<real>)
    requires |h| == |d|
    requires forall k :: 0 <= k < |d| ==> d[k] >= 0.0
    ensures PositiveSum(h, d) >= 0.0
    ensures PositiveSum(h, d) == 0.0 <==> forall k :: 0 <= k < |h| && h[k] == 1.0 ==> d[k] == 0.0
    decreases |h|
  {
    if |h| > 0 {
      var n := |h| - 1;
      PositiveSumZero(h[..n], d[..n]);
      assert forall k :: 0 <= k < n ==> h[..n][k] == h[k] && d[..n][k] == d[k];
    }
  }

  /** A non-negative sum over a positive count has a non-negative mean,
      zero exactly when the sum is. */
  lemma MeanZero(s: real, n: nat)
    requires s >= 0.0 && n > 0
    ensures s / n as real >= 0.0
    ensures s / n as real == 0.0 <==> s == 0.0
  {
    var q := s / n as real;
    assert q * n as real == s;
    PositiveProduct(n as real, q);
  }

  /** With non-negative distances and a positive weight the loss is
      non-negative, and it vanishes exactly when every edge with target -1
      is at least the margin away and every edge with target 1 is at
      distance zero. */
  lemma LossVanishes(h: seq<real>, d: seq<real>, margin: real, weight: real)
    requires |h| == |d|
    requires forall k :: 0 <= k < |d| ==> d[k] >= 0.0
    requires weight > 0.0
    requires -1.0 in h && 1.0 in h
    ensures PartitionedLoss(h, d, margin, weight).value >= 0.0
    ensures (PartitionedLoss(h, d, margin, weight).value == 0.0 <==>
      (forall k :: 0 <= k < |h| && h[k] == -1.0 ==> d[k] >= margin)
      && (forall k :: 0 <= k < |h| && h[k] == 1.0 ==> d[k] == 0.0))
  {
    LossClosedForm(h, d, margin, weight);
    NegativeSumZero(h, d, margin);
    PositiveSumZero(h, d);
    CombineVanishes(NegativeSum(h, d, margin), PositiveSum(h, d), ClassSize(h, -1.0), ClassSize(h, 1.0), weight);
  }

  /** The weighted sum of two means of non-negative sums is non-negative,
      and zero exactly when both sums are. */
  lemma CombineVanishes(negative: real, positive: real, n: nat, p: nat, w: real)
    requires negative >= 0.0 && positive >= 0.0 && n > 0 && p > 0 && w > 0.0
    ensures Combine(Mean(negative, n), Mean(positive, p), w).Some?
    ensures var r := Combine(Mean(negative, n), Mean(positive, p), w).value;
      r >= 0.0 && (r == 0.0 <==> negative == 0.0 && positive == 0.0)
  {
    var a := negative / n as real;
    var b := positive / p as real;
    MeanZero(negative, n);
    MeanZero(positive, p);
    PositiveProduct(w, b);
    assert Combine(Mean(negative, n), Mean(positive, p), w).value == a + w * b;
  }

  /** Labels as hinge targets carry both classes exactly when the labels
      do. */
  lemma TargetClasses(y: seq<bool>)
    ensures -1.0 in HingeTargets(y) <==> false in y
    ensures 1.0 in HingeTargets(y) <==> true in y
  {
    var h := HingeTargets(y);
    if -1.0 in h {
      var k :| 0 <= k < |h| && h[k] == -1.0;
      assert y[k] == false;
    }
    if false in y {
      var k :| 0 <= k < |y| && y[k] == false;
      assert h[k] == -1.0;
    }
    if 1.0 in h {
      var k :| 0 <= k < |h| && h[k] == 1.0;
      assert y[k] == true;
    }
    if true in y {
      var k :| 0 <= k < |y| && y[k] == true;
      assert h[k] == 1.0;
    }
  }

  /** The hyperparameters the training and evaluation steps read:
      `margin`, `weight`, `topo_margin`, `topo_weight`, and whether
      `"module_veto"` is part of the regime. */
  datatype HParams = HParams(margin: real, weight: real, topoMargin: real, topoWeight: real, moduleVeto: bool)

  /** The two embeddings of one subspace (`output_a, output_b` or
      `topo_a, topo_b`), rows of width `dim`. */
  datatype Space = Space(a: seq<Vector>, b: seq<Vector>, dim: nat)

  predicate WellShaped(s: Space)
  {
    Rows(s.a, s.dim) && Rows(s.b, s.dim)
  }

  /** The edges index the embeddings and carry both labels: the inputs on
      which a subspace loss is a number rather than NaN. */
  predicate Trainable(s: Space, g: Labelled)
  {
    Indexes(g.edges, s.a, s.b) && true in g.y && false in g.y
  }

  /** Every edge of `g` that is labelled true joins identical points, and
      every edge labelled false joins points at squared distance at least
      `margin`: the configurations where the subspace loss vanishes. */
  predicate Separated(s: Space, g: Labelled, margin: real)
    requires WellShaped(s) && Aligned(g) && Indexes(g.edges, s.a, s.b)
  {
    forall k :: 0 <= k < |g.edges| ==>
      (g.y[k] ==> s.a[g.edges[k].0] == s.b[g.edges[k].1])
      && (!g.y[k] ==> SqDist(s.a[g.edges[k].0], s.b[g.edges[k].1]) >= margin)
  }

  /** `get_hinge_distance` followed by `get_loss` with the margin
      `marginSq` passed in (so `GetLoss` is `PartitionedLoss`), as the
      training step does for one subspace. Undefined when an edge names a
      missing row or when either class of edges is empty. */
  function SpaceLoss(s: Space, g: Labelled, marginSq: real, weight: real): (r: Option<real>)
    requires WellShaped(s) && Aligned(g)
    ensures r.Some? <==> Trainable(s, g)
  {
    match Distances(s.a, s.b, s.dim, g.edges)
    case None => None
    case Some(d) =>
      TargetClasses(g.y);
      PartitionedLoss(HingeTargets(g.y), d, marginSq, weight)
  }

  /** A subspace loss with a positive weight is non-negative, and it
      vanishes exactly when the subspace separates the labelled edges by
      the margin passed in. */
  lemma SpaceLossVanishes(s: Space, g: Labelled, marginSq: real, weight: real)
    requires WellShaped(s) && Aligned(g)
    requires weight > 0.0
    requires Trainable(s, g)
    ensures SpaceLoss(s, g, marginSq, weight).value >= 0.0
    ensures SpaceLoss(s, g, marginSq, weight).value == 0.0 <==> Separated(s, g, marginSq)
  {
    var d := Distances(s.a, s.b, s.dim, g.edges).value;
    var h := HingeTargets(g.y);
    LossVanishes(h, d, marginSq, weight);
    SeparatedByDistances(s, g, d, marginSq);
  }

  /** Separation read off the hinge targets and the distances of the
      edges. */
  lemma SeparatedByDistances(s: Space, g: Labelled, d: seq<real>, marginSq: real)
    requires WellShaped(s) && Aligned(g) && Indexes(g.edges, s.a, s.b)
    requires Distances(s.a, s.b, s.dim, g.edges) == Some(d)
    ensures ((forall k :: 0 <= k < |g.y| && HingeTargets(g.y)[k] == -1.0 ==> d[k] >= marginSq)
      && (forall k :: 0 <= k < |g.y| && HingeTargets(g.y)[k] == 1.0 ==> d[k] == 0.0)
      <==> Separated(s, g, marginSq))
  {
  }

  /** `training_step`'s loss: the spatial loss with `margin**2` and
      `weight` plus the topological loss with `topo_margin**2` and
      `topo_weight`, each over its own training edges. */
  function TrainingLoss(hp: HParams, spatial: Space, gs: Labelled, topo: Space, gt: Labelled): (r: Option<real>)
    requires WellShaped(spatial) && Aligned(gs) && WellShaped(topo) && Aligned(gt)
    ensures r.Some? <==> Trainable(spatial, gs) && Trainable(topo, gt)
  {
    Add(SpaceLoss(spatial, gs, Power(hp.margin, 2), hp.weight),
        SpaceLoss(topo, gt, Power(hp.topoMargin, 2), hp.topoWeight))
  }

  /** `a + b`, undefined when either is. */
  function Add(a: Option<real>, b: Option<real>): (r: Option<real>)
    ensures r.Some? <==> a.Some? && b.Some?
  {
    if a.None? || b.None? then None else Some(a.value + b.value)
  }

  /** The sum of two subspace losses with positive weights is
      non-negative, and it vanishes exactly when both subspaces separate
      their edges, each by its own margin. */
  lemma TwoSpaceLossVanishes(s1: Space, g1: Labelled, m1: real, w1: real,
                             s2: Space, g2: Labelled, m2: real, w2: real)
    requires WellShaped(s1) && Aligned(g1) && WellShaped(s2) && Aligned(g2)
    requires w1 > 0.0 && w2 > 0.0
    requires Trainable(s1, g1) && Trainable(s2, g2)
    ensures Add(SpaceLoss(s1, g1, m1, w1), SpaceLoss(s2, g2, m2, w2)).value >= 0.0
    ensures (Add(SpaceLoss(s1, g1, m1, w1), SpaceLoss(s2, g2, m2, w2)).value == 0.0 <==>
      Separated(s1, g1, m1) && Separated(s2, g2, m2))
  {
    SpaceLossVanishes(s1, g1, m1, w1);
    SpaceLossVanishes(s2, g2, m2, w2);
    AddVanishes(SpaceLoss(s1, g1, m1, w1), SpaceLoss(s2, g2, m2, w2), Separated(s1, g1, m1), Separated(s2, g2, m2));
  }

  /** A sum of two non-negative terms is non-negative and vanishes exactly
      when both terms do. */
  lemma AddVanishes(a: Option<real>, b: Option<real>, p: bool, q: bool)
    requires a.Some? && b.Some?
    requires a.value >= 0.0 && (a.value == 0.0 <==> p)
    requires b.value >= 0.0 && (b.value == 0.0 <==> q)
    ensures Add(a, b).value >= 0.0 && (Add(a, b).value == 0.0 <==> p && q)
  {
  }

  /** With positive weights the training loss is non-negative, and it
      vanishes exactly when both subspaces separate their training edges,
      each by its own squared margin. */
  lemma TrainingLossVanishes(hp: HParams, spatial: Space, gs: Labelled, topo: Space, gt: Labelled)
    requires WellShaped(spatial) && Aligned(gs) && WellShaped(topo) && Aligned(gt)
    requires hp.weight > 0.0 && hp.topoWeight > 0.0
    requires Trainable(spatial, gs) && Trainable(topo, gt)
    ensures TrainingLoss(hp, spatial, gs, topo, gt).value >= 0.0
    ensures (TrainingLoss(hp, spatial, gs, topo, gt).value == 0.0 <==>
      Separated(spatial, gs, Power(hp.margin, 2)) && Separated(topo, gt, Power(hp.topoMargin, 2)))
  {
    TwoSpaceLossVanishes(spatial, gs, Power(hp.margin, 2), hp.weight,
                         topo, gt, Power(hp.topoMargin, 2), hp.topoWeight);
  }

  /** `x ** n`. */
  function Power(x: real, n: nat): real
    decreases n
  {
    if n == 0 then 1.0 else x * Power(x, n - 1)
  }

  /** The validation loss of `shared_evaluation`: one
      `hinge_embedding_loss` over every edge of the spatial graph with the
      squared configured margin, neither split by class nor weighted. */
  function ValidationLoss(s: Space, g: Labelled, margin: real): (r: Option<real>)
    requires WellShaped(s) && Aligned(g)
    ensures r.Some? <==> Indexes(g.edges, s.a, s.b) && |g.edges| > 0
  {
    match Distances(s.a, s.b, s.dim, g.edges)
    case None => None
    case Some(d) => HingeEmbeddingLoss(d, HingeTargets(g.y), Power(margin, 2))
  }

  /** Over targets that are all -1 or 1, the element losses add up to the
      clamped margin sum of the -1 edges plus the distance sum of the 1
      edges. */
  lemma {:induction false} TermsSplit(h: seq<real>, d: seq<real>, margin: real)
    requires |h| == |d|
    requires forall k :: 0 <= k < |h| ==> h[k] == -1.0 || h[k] == 1.0
    ensures Sum(Terms(d, h, margin)) == NegativeSum(h, d, margin) + PositiveSum(h, d)
    decreases |h|
  {
    if |h| > 0 {
      var n := |h| - 1;
      TermsSplit(h[..n], d[..n], margin);
      assert Terms(d, h, margin)[..n] == Terms(d[..n], h[..n], margin);
    }
  }

  /** The validation loss vanishes under the same condition as the
      training loss of the spatial subspace: every true edge joins identical
      points and every false edge is at least the squared margin long. */
  lemma ValidationLossVanishes(s: Space, g: Labelled, margin: real)
    requires WellShaped(s) && Aligned(g)
    requires ValidationLoss(s, g, margin).Some?
    ensures ValidationLoss(s, g, margin).value >= 0.0
    ensures ValidationLoss(s, g, margin).value == 0.0 <==> Separated(s, g, Power(margin, 2))
  {
    var d := Distances(s.a, s.b, s.dim, g.edges).value;
    var h := HingeTargets(g.y);
    var m := Power(margin, 2);
    TermsSplit(h, d, m);
    NegativeSumZero(h, d, m);
    PositiveSumZero(h, d);
    MeanZero(NegativeSum(h, d, m) + PositiveSum(h, d), |d|);
    SeparatedByDistances(s, g, d, m);
  }

  /** `y.sum()` for a boolean label tensor: how many labels hold. */
  function TrueCount(y: seq<bool>): (n: nat)
    ensures n <= |y|
    ensures n == 0 <==> true !in y
    ensures n == |y| <==> false !in y
  {
    TrueIndicesNonEmpty(y);
    TrueIndicesFull(y);
    |TrueIndices(y)|
  }

  /** The figures `shared_evaluation` logs, as fractions of counts. */
  datatype Metrics = Metrics(eff: Fraction, pur: Fraction, topoEff: Fraction, topoPur: Fraction, moduleVetoPur: Fraction)

  /** Both endpoints of every edge have a module id. */
  predicate OnModules(edges: seq<Edge>, modules: seq<nat>)
  {
    forall k :: 0 <= k < |edges| ==> edges[k].0 < |modules| && edges[k].1 < |modules|
  }

  /** `modules[e[0]] != modules[e[1]]`: which edges join two different
      detector modules. */
  function CrossModule(edges: seq<Edge>, modules: seq<nat>): (m: seq<bool>)
    requires OnModules(edges, modules)
    ensures |m| == |edges|
    ensures forall k :: 0 <= k < |edges| ==> (m[k] <==> modules[edges[k].0] != modules[edges[k].1])
  {
    seq(|edges|, k requires 0 <= k < |edges| => modules[edges[k].0] != modules[edges[k].1])
  }

  /** `shared_evaluation`'s figures for the spatial graph `spatial` and the
      topological graph `topo`, each labelled against the truth edges
      `truth`: true positives over true edges (efficiency) and over
      predicted edges (purity) in each subspace, and, under the
      `module_veto` regime, spatial true positives over spatial edges that
      cross modules (otherwise 0). A division by zero is kept as a fraction
      with whole 0; only the module lookup can fail. */
  function Evaluate(truth: seq<Edge>, spatial: Labelled, topo: Labelled, modules: seq<nat>, moduleVeto: bool)
    : (r: Option<Metrics>)
    requires Aligned(spatial) && Aligned(topo)
    ensures r.Some? <==> !moduleVeto || OnModules(spatial.edges, modules)
    ensures r.Some? ==> r.value.eff.whole == |truth| && r.value.topoEff.whole == |truth|
    ensures r.Some? ==> r.value.pur.whole == |spatial.edges| && r.value.topoPur.whole == |topo.edges|
    ensures r.Some? ==> r.value.eff.part == r.value.pur.part == TrueCount(spatial.y)
    ensures r.Some? ==> r.value.topoEff.part == r.value.topoPur.part == TrueCount(topo.y)
    ensures r.Some? && !moduleVeto ==> r.value.moduleVetoPur.part == 0
    ensures r.Some? && moduleVeto ==> r.value.moduleVetoPur.part == TrueCount(spatial.y)
  {
    var truePositive := TrueCount(spatial.y);
    var topoTruePositive := TrueCount(topo.y);
    if moduleVeto && !OnModules(spatial.edges, modules) then None
    else
      var vetoPur :=
        if moduleVeto then Fraction(truePositive, TrueCount(CrossModule(spatial.edges, modules)))
        else Fraction(0, 1);
      Some(Metrics(Fraction(truePositive, |truth|), Fraction(truePositive, |spatial.edges|),
                   Fraction(topoTruePositive, |truth|), Fraction(topoTruePositive, |topo.edges|),
                   vetoPur))
  }

  /** A labelled graph as `get_truth` and `graph_intersection` leave it:
      one label per edge, no edge twice, and an edge labelled true exactly
      when it is a truth edge. */
  predicate LabelledAgainst(g: Labelled, truth: seq<Edge>)
  {
    Aligned(g) && Distinct(g.edges)
    && forall k :: 0 <= k < |g.edges| ==> (g.y[k] <==> g.edges[k] in truth)
  }

  /** The edges labelled true. */
  function TruePositives(g: Labelled): (tp: seq<Edge>)
    requires Aligned(g)
    ensures |tp| == TrueCount(g.y)
    ensures Distinct(g.edges) ==> Distinct(tp)
  {
    var tp := Masked(g.edges, g.y);
    assert Distinct(g.edges) ==> Distinct(tp) by {
      if Distinct(g.edges) {
        MaskedDistinct(g.edges, g.y);
      }
    }
    tp
  }

  /** Against its truth, an edge is a true positive exactly when it is both
      predicted and true. */
  lemma TruePositive(g: Labelled, truth: seq<Edge>, e: Edge)
    requires LabelledAgainst(g, truth)
    ensures e in TruePositives(g) <==> e in g.edges && e in truth
  {
    MaskedMembership(g.edges, g.y, e);
    if e in g.edges && e in truth {
      var k :| 0 <= k < |g.edges| && g.edges[k] == e;
      assert g.y[k];
    }
  }

  /** Against duplicate-free labels, the true positives number at most
      the truth edges and at most the predicted edges. */
  lemma RateBounds(g: Labelled, truth: seq<Edge>)
    requires LabelledAgainst(g, truth)
    ensures TrueCount(g.y) <= |truth|
    ensures TrueCount(g.y) <= |g.edges|
  {
    var tp := TruePositives(g);
    forall e | e in tp ensures e in truth {
      TruePositive(g, truth, e);
    }
    DistinctSubsetLength(tp, truth);
  }

  /** Purity is full exactly when every predicted edge is a truth edge. */
  lemma PurityFull(g: Labelled, truth: seq<Edge>)
    requires LabelledAgainst(g, truth)
    ensures TrueCount(g.y) == |g.edges| <==> forall e :: e in g.edges ==> e in truth
  {
    if TrueCount(g.y) == |g.edges| {
      forall e | e in g.edges ensures e in truth {
        var k :| 0 <= k < |g.edges| && g.edges[k] == e;
        assert g.y[k];
      }
    }
    if forall e :: e in g.edges ==> e in truth {
      forall k | 0 <= k < |g.y| ensures g.y[k] {
        assert g.edges[k] in g.edges;
      }
    }
  }

  /** For duplicate-free truth, efficiency is full exactly when every
      truth edge was predicted. */
  lemma EfficiencyFull(g: Labelled, truth: seq<Edge>)
    requires LabelledAgainst(g, truth) && Distinct(truth)
    ensures TrueCount(g.y) == |truth| <==> forall e :: e in truth ==> e in g.edges
  {
    var tp := TruePositives(g);
    DistinctCard(tp);
    DistinctCard(truth);
    forall e | e in Elems(tp) ensures e in Elems(truth) {
      TruePositive(g, truth, e);
    }
    SubsetCard(Elems(tp), Elems(truth));
    if TrueCount(g.y) == |truth| {
      forall e | e in truth ensures e in g.edges {
        assert e in Elems(tp);
        TruePositive(g, truth, e);
      }
    }
    if forall e :: e in truth ==> e in g.edges {
      forall e | e in Elems(truth) ensures e in Elems(tp) {
        TruePositive(g, truth, e);
      }
      assert Elems(tp) == Elems(truth);
    }
  }

  /** A graph labelled by `graph_intersection` is labelled against the
      truth it was intersected with. */
  lemma IntersectionLabelled(pred: seq<Edge>, truth: seq<Edge>)
    requires GraphIntersection(pred, truth).Some?
    ensures LabelledAgainst(GraphIntersection(pred, truth).value, truth)
  {
    LexSortedIsDistinct(GraphIntersection(pred, truth).value.edges);
  }

  /** Efficiency and purity of one subspace as fractions: both are
      proportions when their wholes are nonzero; purity is 1 exactly when
      every predicted edge is true, and, for duplicate-free truth,
      efficiency is 1 exactly when every truth edge was predicted. */
  lemma SubspaceRates(g: Labelled, truth: seq<Edge>, eff: Fraction, pur: Fraction)
    requires LabelledAgainst(g, truth)
    requires eff == Fraction(TrueCount(g.y), |truth|) && pur == Fraction(TrueCount(g.y), |g.edges|)
    ensures eff.part <= eff.whole && pur.part <= pur.whole
    ensures pur.part == pur.whole <==> forall e :: e in g.edges ==> e in truth
    ensures Distinct(truth) ==> (eff.part == eff.whole <==> forall e :: e in truth ==> e in g.edges)
  {
    RateBounds(g, truth);
    PurityFull(g, truth);
    if Distinct(truth) {
      EfficiencyFull(g, truth);
    }
  }

  /** The evaluation figures of two graphs labelled against the truth. */
  lemma EvaluationRates(truth: seq<Edge>, spatial: Labelled, topo: Labelled, modules: seq<nat>, moduleVeto: bool)
    requires LabelledAgainst(spatial, truth) && LabelledAgainst(topo, truth)
    requires Evaluate(truth, spatial, topo, modules, moduleVeto).Some?
    ensures var m := Evaluate(truth, spatial, topo, modules, moduleVeto).value;
      m.eff.part <= m.eff.whole && m.pur.part <= m.pur.whole
      && m.topoEff.part <= m.topoEff.whole && m.topoPur.part <= m.topoPur.whole
    ensures var m := Evaluate(truth, spatial, topo, modules, moduleVeto).value;
      (m.pur.part == m.pur.whole <==> forall e :: e in spatial.edges ==> e in truth)
      && (m.topoPur.part == m.topoPur.whole <==> forall e :: e in topo.edges ==> e in truth)
    ensures var m := Evaluate(truth, spatial, topo, modules, moduleVeto).value;
      Distinct(truth) ==>
        (m.eff.part == m.eff.whole <==> forall e :: e in truth ==> e in spatial.edges)
        && (m.topoEff.part == m.topoEff.whole <==> forall e :: e in truth ==> e in topo.edges)
  {
    var m := Evaluate(truth, spatial, topo, modules, moduleVeto).value;
    SubspaceRates(spatial, truth, m.eff, m.pur);
    SubspaceRates(topo, truth, m.topoEff, m.topoPur);
  }

  /** Under the `module_veto` regime the veto purity divides the spatial
      true positives by the edges that cross modules: never more edges than
      purity divides by, and the same number exactly when no edge stays
      inside one module. Without the regime the figure is 0. */
  lemma ModuleVetoPurity(truth: seq<Edge>, spatial: Labelled, topo: Labelled, modules: seq<nat>, moduleVeto: bool)
    requires Aligned(spatial) && Aligned(topo)
    requires Evaluate(truth, spatial, topo, modules, moduleVeto).Some?
    ensures var m := Evaluate(truth, spatial, topo, modules, moduleVeto).value;
      moduleVeto ==>
        m.moduleVetoPur.part == m.pur.part
        && m.moduleVetoPur.whole <= m.pur.whole
        && (m.moduleVetoPur.whole == m.pur.whole <==>
              forall k :: 0 <= k < |spatial.edges| ==> modules[spatial.edges[k].0] != modules[spatial.edges[k].1])
    ensures var m := Evaluate(truth, spatial, topo, modules, moduleVeto).value;
      !moduleVeto ==> m.moduleVetoPur.whole > 0 && Value(m.moduleVetoPur) == 0.0
  {
    if moduleVeto {
      var cross := CrossModule(spatial.edges, modules);
      assert TrueCount(cross) == |cross| <==> false !in cross;
      if false !in cross {
        forall k | 0 <= k < |spatial.edges| ensures modules[spatial.edges[k].0] != modules[spatial.edges[k].1] {
          assert cross[k] in cross;
        }
      }
    }
  }
}
