/** `graph_intersection` (Filter/utils.py): label each predicted edge by
    whether the truth graph holds the same directed edge.

    Both edge lists are loaded into sparse adjacency matrices of side
    `max id + 1`, where repeated edges add up: entry `(i, j)` holds `c1`,
    the number of times `(i, j)` is predicted, and `c2`, the number of times
    it is a truth edge. The function then forms `c1 * c2 - [c1 > c2]` entry
    by entry, keeps the nonzero entries in row-major order, and labels an
    entry true when its value is positive. */
module Intersection {
  import opened Outcomes
  import opened Seqs
  import opened Edges

  /** Strictly increasing in row-major order. */
  predicate LexSorted(s: seq<Edge>)
  {
    forall i, j :: 0 <= i < j < |s| ==> LexLess(s[i], s[j])
  }

  lemma LexSortedIsDistinct(s: seq<Edge>)
    requires LexSorted(s)
    ensures Distinct(s)
  {
  }

  /** Adds an edge to a row-major sorted, duplicate-free edge list. */
  function InsertLex(e: Edge, s: seq<Edge>): (r: seq<Edge>)
    requires LexSorted(s)
    ensures LexSorted(r)
    ensures forall f :: f in r <==> f in s || f == e
  {
    if |s| == 0 then [e]
    else if LexLess(e, s[0]) then [e] + s
    else if e == s[0] then s
    else
      var rest := InsertLex(e, s[1..]);
      assert forall k :: 0 <= k < |rest| ==> rest[k] in rest;
      assert forall f :: f in s <==> f == s[0] || f in s[1..] by {
        assert s == [s[0]] + s[1..];
      }
      [s[0]] + rest
  }

  /** The sparsity pattern of an edge list read out row by row: its distinct
      edges in row-major order. */
  function SortLex(s: seq<Edge>): (r: seq<Edge>)
    ensures LexSorted(r)
    ensures forall e :: e in r <==> e in s
  {
    if |s| == 0 then []
    else
      var init := s[..|s| - 1];
      assert s == init + [s[|s| - 1]];
      InsertLex(s[|s| - 1], SortLex(init))
  }

  /** Whatever the order of insertion, the sorted sparsity pattern is fixed
      by the set of edges. */
  lemma {:induction false} LexCanonical(a: seq<Edge>, b: seq<Edge>)
    requires LexSorted(a) && LexSorted(b)
    requires forall e :: e in a <==> e in b
    ensures a == b
    decreases |a|
  {
    if |a| == 0 {
      assert Elems(b) == Elems(a) == {};
      LexSortedIsDistinct(b);
      DistinctCard(b);
    } else {
      assert a[0] in b && b[0] in a;
      assert a[0] == b[0];
      forall e ensures e in a[1..] <==> e in b[1..] {
        if e in a[1..] {
          var i :| 1 <= i < |a| && a[i] == e;
          assert e in b && e != b[0];
        }
        if e in b[1..] {
          var i :| 1 <= i < |b| && b[i] == e;
          assert e in a && e != a[0];
        }
      }
      LexCanonical(a[1..], b[1..]);
      assert a == [a[0]] + a[1..];
      assert b == [b[0]] + b[1..];
    }
  }

  /** The entry `e_1.multiply(e_2) - ((e_1 - e_2) > 0)` at a position
      predicted `c1` times and true `c2` times. */
  function StoredValue(c1: nat, c2: nat): (v: int)
    ensures v != 0 <==> c1 > 0
    ensures v > 0 <==> c1 > 0 && c2 > 0
  {
    if c1 > 0 && c2 > 0 then
      assert c1 * c2 >= c1 by {
        assert c1 * c2 == c1 * (c2 - 1) + c1;
      }
      assert c1 > c2 ==> c1 * c2 >= 2;
      c1 * c2 - (if c1 > c2 then 1 else 0)
    else if c1 > 0 then
      -1
    else
      0
  }

  /** The nonzero entries, in the order of `keys`, with their labels. */
  function Entries(keys: seq<Edge>, pred: seq<Edge>, truth: seq<Edge>): (g: Labelled)
    ensures Aligned(g)
    ensures forall e :: e in g.edges <==> e in keys && e in pred
    ensures forall k :: 0 <= k < |g.edges| ==> (g.y[k] <==> g.edges[k] in truth)
    ensures LexSorted(keys) ==> LexSorted(g.edges)
  {
    if |keys| == 0 then Labelled([], [])
    else
      var rest := Entries(keys[1..], pred, truth);
      assert forall e :: e in keys <==> e == keys[0] || e in keys[1..] by {
        assert keys == [keys[0]] + keys[1..];
      }
      CountPositive(pred, keys[0]);
      CountPositive(truth, keys[0]);
      var v := StoredValue(Count(pred, keys[0]), Count(truth, keys[0]));
      if v != 0 then
        ConsLexSorted(keys, rest.edges);
        Labelled([keys[0]] + rest.edges, [v > 0] + rest.y)
      else
        rest
  }

  /** The head of a sorted key list in front of sorted entries drawn from the
      remaining keys stays sorted. */
  lemma ConsLexSorted(keys: seq<Edge>, rest: seq<Edge>)
    requires |keys| > 0
    requires forall e :: e in rest ==> e in keys[1..]
    ensures forall e :: e in [keys[0]] + rest <==> e == keys[0] || e in rest
    ensures LexSorted(keys) && LexSorted(rest) ==> LexSorted([keys[0]] + rest)
  {
    assert forall k :: 0 <= k < |rest| ==> rest[k] in rest;
    if LexSorted(keys) && LexSorted(rest) {
      forall k | 0 <= k < |rest| ensures LexLess(keys[0], rest[k]) {
        var i :| 1 <= i < |keys| && keys[i] == rest[k];
      }
    }
  }

  /** `graph_intersection(pred_graph, truth_graph)`. `tensor.max()` raises
      on an empty edge list, so either list being empty gives `None`. */
  function GraphIntersection(pred: seq<Edge>, truth: seq<Edge>): (r: Option<Labelled>)
    ensures r.Some? <==> |pred| > 0 && |truth| > 0
    ensures r.Some? ==> Aligned(r.value)
    ensures r.Some? ==> LexSorted(r.value.edges)
    ensures r.Some? ==> forall e :: e in r.value.edges <==> e in pred
    ensures r.Some? ==> forall k :: 0 <= k < |r.value.edges| ==>
      (r.value.y[k] <==> r.value.edges[k] in truth)
  {
    if |pred| == 0 || |truth| == 0 then None
    else Some(Entries(SortLex(pred + truth), pred, truth))
  }

  /** The output lists each distinct predicted edge once, in row-major
      order, and nothing else: it is the sorted sparsity pattern of the
      prediction, no longer than the prediction. */
  lemma IntersectionIsPredictionPattern(pred: seq<Edge>, truth: seq<Edge>)
    requires |pred| > 0 && |truth| > 0
    ensures GraphIntersection(pred, truth).value.edges == SortLex(pred)
    ensures |GraphIntersection(pred, truth).value.edges| <= |pred|
  {
    var edges := GraphIntersection(pred, truth).value.edges;
    LexCanonical(edges, SortLex(pred));
    LexSortedIsDistinct(edges);
    DistinctSubsetLength(edges, pred);
  }

  /** Only which edges occur matters, not how often: repeating a predicted
      or a truth edge changes nothing. */
  lemma MultiplicityIrrelevant(pred: seq<Edge>, truth: seq<Edge>, pred2: seq<Edge>, truth2: seq<Edge>)
    requires forall e :: e in pred <==> e in pred2
    requires forall e :: e in truth <==> e in truth2
    ensures GraphIntersection(pred, truth) == GraphIntersection(pred2, truth2)
  {
    SameElementsEmpty(pred, pred2);
    SameElementsEmpty(truth, truth2);
    if |pred| > 0 && |truth| > 0 {
      IntersectionIsPredictionPattern(pred, truth);
      IntersectionIsPredictionPattern(pred2, truth2);
      LexCanonical(SortLex(pred), SortLex(pred2));
      var g := GraphIntersection(pred, truth).value;
      var g2 := GraphIntersection(pred2, truth2).value;
      assert g.y == g2.y;
    }
  }

  /** A prediction holding both orientations of one truth edge keeps both,
      and only the orientation present in the truth is labelled true. */
  lemma ReversedPredictionsNotCollapsed()
    ensures GraphIntersection([(0, 1), (1, 0)], [(0, 1)])
      == Some(Labelled([(0, 1), (1, 0)], [true, false]))
  {
    var g := GraphIntersection([(0, 1), (1, 0)], [(0, 1)]).value;
    LexCanonical(g.edges, [(0, 1), (1, 0)]);
    assert (1, 0) !in [(0, 1)];
    assert g.y == [true, false];
  }
}
