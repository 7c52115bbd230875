/** `select_data` and `get_edge_subset` (Filter/utils.py): preparing an
    event for the filter stage.

    When a background cut applies, nodes with `pt` at or below the cut, or
    without a particle id, are dropped. An edge survives only when both of
    its endpoints survive, and surviving endpoints are renumbered by their
    rank among the surviving nodes, so that the edge lists index the
    shortened node arrays. Afterwards the signal edges are the true edges
    whose two endpoints both pass a second, signal cut. */
module Selection {
  import opened Outcomes
  import opened Seqs
  import opened CodeSets
  import opened Edges
  import opened Masks

  /** One hit with everything the event stores per node (`cell_data`, `x`,
      `hid`, `layers`, `pid`, `pt`). A missing particle id (`None`) is the
      NaN that fails the source's `pid == pid` test. */
  datatype Node = Node(pt: real, pid: Option<nat>, features: seq<real>)

  /** The fields `select_data` reads and rewrites: the nodes, the true-edge
      list named by its `true_edges` argument, the candidate `edge_index`,
      and optional per-true-edge `weights`. */
  datatype Event = Event(nodes: seq<Node>, trueEdges: seq<Edge>, edgeIndex: seq<Edge>,
                         weights: Option<seq<real>>)

  /** An event after selection, with its `signal_true_edges`. */
  datatype Selected = Selected(event: Event, signalTrueEdges: seq<Edge>)

  /** Why the source raises: `max()` of an empty selection, a boolean mask
      of the wrong shape, or an edge naming a node that does not exist. */
  datatype SelectionError = EmptySelection | MaskShape | NodeOutOfRange

  /** Every endpoint names one of `n` nodes. */
  predicate EndpointsIn(edges: seq<Edge>, n: nat)
  {
    forall k :: 0 <= k < |edges| ==> edges[k].0 < n && edges[k].1 < n
  }

  /** A node passes the background cut: `pt > cut` and a particle id. */
  predicate Passes(n: Node, cut: real)
  {
    n.pt > cut && n.pid.Some?
  }

  /** `pt_mask`. */
  function PtMask(nodes: seq<Node>, cut: real): (m: seq<bool>)
    ensures |m| == |nodes|
    ensures forall i :: 0 <= i < |nodes| ==> (m[i] <==> Passes(nodes[i], cut))
  {
    seq(|nodes|, i requires 0 <= i < |nodes| => Passes(nodes[i], cut))
  }

  /** `pt_where`: the surviving node ids in increasing order. */
  function KeptNodes(nodes: seq<Node>, cut: real): (kept: seq<nat>)
    ensures Increasing(kept)
    ensures InBounds(kept, |nodes|)
    ensures forall i :: 0 <= i < |nodes| ==> (i in kept <==> Passes(nodes[i], cut))
  {
    TrueIndices(PtMask(nodes, cut))
  }

  /** The position of `a` in `kept`, or 0 when it is absent. */
  function Rank(kept: seq<nat>, a: nat): (r: nat)
    ensures a in kept ==> r < |kept| && kept[r] == a
    ensures a !in kept ==> r == 0
  {
    if |kept| == 0 || kept[0] == a || a !in kept then 0
    else
      assert a in kept[1..] by {
        assert kept == [kept[0]] + kept[1..];
      }
      1 + Rank(kept[1..], a)
  }

  /** `inverse_mask`: a zero array of length `max(kept) + 1` in which
      position `kept[r]` holds `r`. */
  function InverseMask(kept: seq<nat>): (inv: seq<nat>)
    requires Increasing(kept) && |kept| > 0
    ensures |inv| == kept[|kept| - 1] + 1
    ensures forall r :: 0 <= r < |kept| ==> kept[r] < |inv| && inv[kept[r]] == r
    ensures forall a :: 0 <= a < |inv| && a !in kept ==> inv[a] == 0
  {
    var inv := seq(kept[|kept| - 1] + 1, a requires 0 <= a => Rank(kept, a));
    forall r | 0 <= r < |kept| ensures kept[r] < |inv| && inv[kept[r]] == r {
      assert kept[r] in kept;
      var q := Rank(kept, kept[r]);
      assert kept[q] == kept[r];
    }
    inv
  }

  /** The renaming keeps the order of node ids: of two surviving nodes the
      smaller id gets the smaller rank. */
  lemma RankMonotone(kept: seq<nat>, a: nat, b: nat)
    requires Increasing(kept) && |kept| > 0
    requires a in kept && b in kept
    ensures a < |InverseMask(kept)| && b < |InverseMask(kept)|
    ensures a < b <==> InverseMask(kept)[a] < InverseMask(kept)[b]
  {
    var r :| 0 <= r < |kept| && kept[r] == a;
    var s :| 0 <= s < |kept| && kept[s] == b;
    var inv := InverseMask(kept);
    assert inv[a] == r && inv[b] == s;
    if r < s {
      assert a < b;
    } else if s < r {
      assert b < a;
    }
  }

  /** The edge mask of `get_edge_subset`: both endpoints survive. */
  function EdgeMask(edges: seq<Edge>, kept: seq<nat>): (m: seq<bool>)
    ensures |m| == |edges|
    ensures forall k :: 0 <= k < |edges| ==> (m[k] <==> edges[k].0 in kept && edges[k].1 in kept)
  {
    seq(|edges|, k requires 0 <= k < |edges| => edges[k].0 in kept && edges[k].1 in kept)
  }

  /** `get_edge_subset(edges, kept, inv)`: the surviving edges with their
      endpoints looked up in the rank map, and the mask that picked them. */
  function EdgeSubset(edges: seq<Edge>, kept: seq<nat>, inv: seq<nat>): (r: (seq<Edge>, seq<bool>))
    requires InBounds(kept, |inv|)
    ensures |r.1| == |edges|
    ensures forall k :: 0 <= k < |edges| ==> (r.1[k] <==> edges[k].0 in kept && edges[k].1 in kept)
    ensures |r.0| == |TrueIndices(r.1)|
    ensures forall j :: 0 <= j < |r.0| ==>
      var e := edges[TrueIndices(r.1)[j]];
      e.0 < |inv| && e.1 < |inv| && r.0[j] == (inv[e.0], inv[e.1])
  {
    var mask := EdgeMask(edges, kept);
    var idx := TrueIndices(mask);
    var included := Masked(edges, mask);
    forall j | 0 <= j < |included|
      ensures included[j].0 < |inv| && included[j].1 < |inv|
    {
      assert idx[j] in idx;
    }
    (seq(|included|, j requires 0 <= j < |included| => (inv[included[j].0], inv[included[j].1])), mask)
  }

  /** Renamed edges mapped back through `kept`. */
  function Restore(edges: seq<Edge>, kept: seq<nat>): (r: seq<Edge>)
    requires EndpointsIn(edges, |kept|)
    ensures |r| == |edges|
    ensures forall j :: 0 <= j < |edges| ==> r[j] == (kept[edges[j].0], kept[edges[j].1])
  {
    seq(|edges|, j requires 0 <= j < |edges| => (kept[edges[j].0], kept[edges[j].1]))
  }

  /** With the rank map built from `kept`, every renamed endpoint is below
      `|kept|`, and mapping the renamed edges back through `kept` gives
      exactly the surviving original edges in their original order. */
  lemma RelabelRoundTrip(edges: seq<Edge>, kept: seq<nat>)
    requires Increasing(kept) && |kept| > 0
    ensures InBounds(kept, |InverseMask(kept)|)
    ensures EndpointsIn(EdgeSubset(edges, kept, InverseMask(kept)).0, |kept|)
    ensures Restore(EdgeSubset(edges, kept, InverseMask(kept)).0, kept)
         == Masked(edges, EdgeMask(edges, kept))
  {
    var inv := InverseMask(kept);
    var sub := EdgeSubset(edges, kept, inv).0;
    var mask := EdgeMask(edges, kept);
    var idx := TrueIndices(mask);
    forall j | 0 <= j < |sub|
      ensures sub[j].0 < |kept| && sub[j].1 < |kept|
      ensures (kept[sub[j].0], kept[sub[j].1]) == edges[idx[j]]
    {
      assert idx[j] in idx;
      var e := edges[idx[j]];
      var r :| 0 <= r < |kept| && kept[r] == e.0;
      var s :| 0 <= s < |kept| && kept[s] == e.1;
      assert sub[j] == (r, s);
    }
  }

  /** A renamed pair `(a, b)` comes out of `get_edge_subset` exactly when
      `(kept[a], kept[b])` is one of the original edges. */
  lemma SubsetMembership(edges: seq<Edge>, kept: seq<nat>, a: nat, b: nat)
    requires Increasing(kept) && |kept| > 0
    ensures InBounds(kept, |InverseMask(kept)|)
    ensures (a, b) in EdgeSubset(edges, kept, InverseMask(kept)).0
        <==> a < |kept| && b < |kept| && (kept[a], kept[b]) in edges
  {
    var inv := InverseMask(kept);
    var sub := EdgeSubset(edges, kept, inv).0;
    var mask := EdgeMask(edges, kept);
    var idx := TrueIndices(mask);
    RelabelRoundTrip(edges, kept);
    var back := Restore(sub, kept);
    if (a, b) in sub {
      var j :| 0 <= j < |sub| && sub[j] == (a, b);
      assert back[j] == edges[idx[j]];
    }
    if a < |kept| && b < |kept| && (kept[a], kept[b]) in edges {
      var k :| 0 <= k < |edges| && edges[k] == (kept[a], kept[b]);
      assert kept[a] in kept && kept[b] in kept;
      assert k in idx;
      var j :| 0 <= j < |idx| && idx[j] == k;
      assert sub[j] == (inv[kept[a]], inv[kept[b]]);
    }
  }

  /** The evidently intended update: weights that line up with the true
      edges before the cut are cut with them; other weights are left alone. */
  function Weights(weights: Option<seq<real>>, mask: seq<bool>): (r: Option<seq<real>>)
    ensures r.Some? <==> weights.Some?
    ensures weights.Some? && |weights.value| == |mask| ==>
      |r.value| == |TrueIndices(mask)|
      && forall j :: 0 <= j < |r.value| ==> r.value[j] == weights.value[TrueIndices(mask)[j]]
    ensures weights.Some? && |weights.value| != |mask| ==> r == weights
  {
    match weights
    case None => None
    case Some(w) => if |w| == |mask| then Some(Masked(w, mask)) else weights
  }

  /** The weight update as written: the weights are cut with the true-edge
      mask only when their length equals the number of true edges left
      after the cut (`keptCount`). Indexing with a mask of another length
      raises. */
  function WeightsAsWritten(weights: Option<seq<real>>, mask: seq<bool>, keptCount: nat)
    : (r: Result<Option<seq<real>>, SelectionError>)
    ensures r.Err? <==> weights.Some? && |weights.value| == keptCount && keptCount != |mask|
    ensures r.Ok? && (weights.None? || |weights.value| != keptCount) ==> r.value == weights
    ensures weights.Some? && |weights.value| == keptCount == |mask| ==> r == Ok(Weights(weights, mask))
  {
    match weights
    case None => Ok(None)
    case Some(w) =>
      if |w| != keptCount then Ok(weights)
      else if |w| != |mask| then Err(MaskShape)
      else Ok(Some(Masked(w, mask)))
  }

  /** The number of true edges whose two endpoints survive the cut. */
  function SurvivingTrueEdges(e: Event, cut: real): nat
  {
    |TrueIndices(EdgeMask(e.trueEdges, KeptNodes(e.nodes, cut)))|
  }

  /** The background-cut branch of `select_data` for one event up to the
      weights: cut the nodes, and cut and rename the true edges and
      `edge_index` with one shared rank map. An event in which no node
      passes has no `pt_where.max()` and raises. The weights are passed
      through untouched. */
  function CutEvent(e: Event, cut: real): (r: Result<Event, SelectionError>)
    ensures r.Ok? <==> exists i :: 0 <= i < |e.nodes| && Passes(e.nodes[i], cut)
    ensures r.Ok? ==> |r.value.nodes| == |KeptNodes(e.nodes, cut)|
    ensures r.Ok? ==> forall n :: n in r.value.nodes ==> Passes(n, cut) && n in e.nodes
    ensures r.Ok? ==> EndpointsIn(r.value.trueEdges, |r.value.nodes|)
    ensures r.Ok? ==> EndpointsIn(r.value.edgeIndex, |r.value.nodes|)
    ensures r.Ok? ==> |r.value.trueEdges| == SurvivingTrueEdges(e, cut)
    ensures r.Ok? ==> r.value.weights == e.weights
  {
    var mask := PtMask(e.nodes, cut);
    var kept := KeptNodes(e.nodes, cut);
    if |kept| == 0 then
      assert forall i :: 0 <= i < |e.nodes| ==> !Passes(e.nodes[i], cut);
      Err(EmptySelection)
    else
      assert kept[0] < |e.nodes| && Passes(e.nodes[kept[0]], cut);
      var inv := InverseMask(kept);
      RelabelRoundTrip(e.trueEdges, kept);
      RelabelRoundTrip(e.edgeIndex, kept);
      var (trueEdges, _) := EdgeSubset(e.trueEdges, kept, inv);
      var (edgeIndex, _) := EdgeSubset(e.edgeIndex, kept, inv);
      var nodes := Masked(e.nodes, mask);
      assert forall n :: n in nodes ==> Passes(n, cut) && n in e.nodes by {
        forall n | n in nodes ensures Passes(n, cut) && n in e.nodes {
          var j :| 0 <= j < |nodes| && nodes[j] == n;
          assert kept[j] in kept;
        }
      }
      Ok(Event(nodes, trueEdges, edgeIndex, e.weights))
  }

  /** The background-cut branch with the evidently intended weight update:
      weights that line up with the true edges are cut with them. Fails
      only when no node passes. */
  function FilterEventCorrected(e: Event, cut: real): (r: Result<Event, SelectionError>)
    ensures r.Ok? <==> exists i :: 0 <= i < |e.nodes| && Passes(e.nodes[i], cut)
    ensures r.Ok? ==> |r.value.nodes| == |KeptNodes(e.nodes, cut)|
    ensures r.Ok? ==> forall n :: n in r.value.nodes ==> Passes(n, cut) && n in e.nodes
    ensures r.Ok? ==> EndpointsIn(r.value.trueEdges, |r.value.nodes|)
    ensures r.Ok? ==> EndpointsIn(r.value.edgeIndex, |r.value.nodes|)
    ensures r.Ok? ==> r.value.weights.Some? == e.weights.Some?
  {
    var c :- CutEvent(e, cut);
    Ok(c.(weights := Weights(e.weights, EdgeMask(e.trueEdges, KeptNodes(e.nodes, cut)))))
  }

  /** The weights raise at the mask: their length matches the true edges
      left after the cut, which is not the length of the mask because some
      true edge was cut. */
  predicate WeightShapeRaises(e: Event, cut: real)
  {
    e.weights.Some? && |e.weights.value| == SurvivingTrueEdges(e, cut)
    && SurvivingTrueEdges(e, cut) != |e.trueEdges|
  }

  /** The background-cut branch as written, with the weight update as
      written. It fails when no node passes, and also when the weight guard
      lets through a mask of the wrong length. */
  function FilterEventAsWritten(e: Event, cut: real): (r: Result<Event, SelectionError>)
    ensures r.Ok? <==> (exists i :: 0 <= i < |e.nodes| && Passes(e.nodes[i], cut)) && !WeightShapeRaises(e, cut)
    ensures r.Err? ==> (r.error == EmptySelection <==> forall i :: 0 <= i < |e.nodes| ==> !Passes(e.nodes[i], cut))
    ensures r.Ok? ==> var c := FilterEventCorrected(e, cut).value;
      r.value.nodes == c.nodes && r.value.trueEdges == c.trueEdges && r.value.edgeIndex == c.edgeIndex
  {
    var c :- CutEvent(e, cut);
    var w :- WeightsAsWritten(e.weights, EdgeMask(e.trueEdges, KeptNodes(e.nodes, cut)), |c.trueEdges|);
    Ok(c.(weights := w))
  }

  /** The two branches give the same event exactly when there are no
      weights, no true edge was cut, or the weights match neither the true
      edges before the cut nor those after it. */
  lemma FilterEventsAgree(e: Event, cut: real)
    requires exists i :: 0 <= i < |e.nodes| && Passes(e.nodes[i], cut)
    ensures FilterEventAsWritten(e, cut) == FilterEventCorrected(e, cut)
      <==> (e.weights.None? || SurvivingTrueEdges(e, cut) == |e.trueEdges|
            || (|e.weights.value| != SurvivingTrueEdges(e, cut) && |e.weights.value| != |e.trueEdges|))
  {
    var c := CutEvent(e, cut).value;
    var mask := EdgeMask(e.trueEdges, KeptNodes(e.nodes, cut));
    var corrected := c.(weights := Weights(e.weights, mask));
    assert FilterEventCorrected(e, cut) == Ok(corrected);
    var asWritten := WeightsAsWritten(e.weights, mask, |c.trueEdges|);
    assert FilterEventAsWritten(e, cut) == if asWritten.Err? then Err(asWritten.error) else Ok(c.(weights := asWritten.value));
    if e.weights.Some? && |e.weights.value| == |e.trueEdges| && SurvivingTrueEdges(e, cut) != |e.trueEdges| {
      assert asWritten == Ok(e.weights);
      assert |Weights(e.weights, mask).value| != |e.weights.value|;
    }
  }

  /** After the cut, node `a` is the `a`-th surviving node, and a renamed
      pair is a true edge (or a candidate edge) exactly when the nodes it
      names were joined by a true edge (or a candidate edge) before the cut:
      both edge lists went through the same rank map. */
  lemma FilterEventEdges(e: Event, cut: real, a: nat, b: nat)
    requires exists i :: 0 <= i < |e.nodes| && Passes(e.nodes[i], cut)
    ensures var r := FilterEventCorrected(e, cut).value;
      var kept := KeptNodes(e.nodes, cut);
      (a < |kept| ==> r.nodes[a] == e.nodes[kept[a]])
      && ((a, b) in r.trueEdges <==> a < |kept| && b < |kept| && (kept[a], kept[b]) in e.trueEdges)
      && ((a, b) in r.edgeIndex <==> a < |kept| && b < |kept| && (kept[a], kept[b]) in e.edgeIndex)
  {
    var kept := KeptNodes(e.nodes, cut);
    SubsetMembership(e.trueEdges, kept, a, b);
    SubsetMembership(e.edgeIndex, kept, a, b);
  }

  /** Weights that line up with the true edges before the cut still line up
      after it, each weight staying with its edge. */
  lemma FilterWeightsFollowEdges(e: Event, cut: real)
    requires exists i :: 0 <= i < |e.nodes| && Passes(e.nodes[i], cut)
    requires e.weights.Some? && |e.weights.value| == |e.trueEdges|
    ensures var r := FilterEventCorrected(e, cut).value;
      var kept := KeptNodes(e.nodes, cut);
      r.weights.Some? && |r.weights.value| == |r.trueEdges|
      && Zip(Restore(r.trueEdges, kept), r.weights.value)
         == Masked(Zip(e.trueEdges, e.weights.value), EdgeMask(e.trueEdges, kept))
  {
    var kept := KeptNodes(e.nodes, cut);
    RelabelRoundTrip(e.trueEdges, kept);
  }

  /** Both endpoints of the edge have `pt` above the signal cut. */
  predicate Signal(nodes: seq<Node>, e: Edge, cut: real)
  {
    e.0 < |nodes| && e.1 < |nodes| && nodes[e.0].pt > cut && nodes[e.1].pt > cut
  }

  /** `(pt[edges] > cut).all(0)`. */
  function SignalMask(nodes: seq<Node>, edges: seq<Edge>, cut: real): (m: seq<bool>)
    ensures |m| == |edges|
    ensures forall k :: 0 <= k < |edges| ==> (m[k] <==> Signal(nodes, edges[k], cut))
  {
    seq(|edges|, k requires 0 <= k < |edges| => Signal(nodes, edges[k], cut))
  }

  /** `signal_true_edges`: the true edges whose endpoints both pass the
      signal cut, in their original order. Indexing `pt` with an endpoint
      that names no node raises. */
  function SignalEdges(nodes: seq<Node>, edges: seq<Edge>, cut: real): (r: Result<seq<Edge>, SelectionError>)
    ensures r.Ok? <==> EndpointsIn(edges, |nodes|)
    ensures r.Ok? ==> forall f :: f in r.value <==> f in edges && Signal(nodes, f, cut)
    ensures r.Ok? ==> SubsequenceOf(r.value, edges)
    ensures r.Ok? ==> forall f :: Count(r.value, f) == if Signal(nodes, f, cut) then Count(edges, f) else 0
  {
    if !EndpointsIn(edges, |nodes|) then Err(NodeOutOfRange)
    else
      var m := SignalMask(nodes, edges, cut);
      forall f ensures f in Masked(edges, m) <==> f in edges && Signal(nodes, f, cut) {
        MaskedMembership(edges, m, f);
      }
      MaskedIsSubsequence(edges, m);
      forall f ensures Count(Masked(edges, m), f) == if Signal(nodes, f, cut) then Count(edges, f) else 0 {
        SignalCount(nodes, edges, cut, f);
      }
      Ok(Masked(edges, m))
  }

  /** A signal edge is kept as often as it occurs; any other edge not at
      all. */
  lemma {:induction false} SignalCount(nodes: seq<Node>, edges: seq<Edge>, cut: real, f: Edge)
    ensures Count(Masked(edges, SignalMask(nodes, edges, cut)), f)
         == if Signal(nodes, f, cut) then Count(edges, f) else 0
  {
    if |edges| > 0 {
      var n := |edges|;
      var init := edges[..n - 1];
      var m := SignalMask(nodes, edges, cut);
      assert m[..n - 1] == SignalMask(nodes, init, cut);
      MaskedSnoc(edges, m);
      SignalCount(nodes, init, cut, f);
      assert edges == init + [edges[n - 1]];
    }
  }

  /** Whether `select_data` applies the background cut: a positive cut, or
      noise hits that are not wanted. */
  predicate Cuts(bgCut: real, noise: bool)
  {
    bgCut > 0.0 || !noise
  }

  /** `select_data` for one event. */
  function SelectEvent(e: Event, bgCut: real, signalCut: real, noise: bool)
    : (r: Result<Selected, SelectionError>)
    ensures Cuts(bgCut, noise) ==>
      (r.Ok? <==> exists i :: 0 <= i < |e.nodes| && Passes(e.nodes[i], bgCut))
    ensures !Cuts(bgCut, noise) ==>
      (r.Ok? <==> EndpointsIn(e.trueEdges, |e.nodes|)) && (r.Ok? ==> r.value.event == e)
    ensures r.Ok? ==> EndpointsIn(r.value.event.trueEdges, |r.value.event.nodes|)
    ensures r.Ok? ==> forall f :: (f in r.value.signalTrueEdges
      <==> f in r.value.event.trueEdges && Signal(r.value.event.nodes, f, signalCut))
    ensures r.Ok? ==> SubsequenceOf(r.value.signalTrueEdges, r.value.event.trueEdges)
    ensures r.Ok? ==> forall f :: (Count(r.value.signalTrueEdges, f)
      == if Signal(r.value.event.nodes, f, signalCut) then Count(r.value.event.trueEdges, f) else 0)
  {
    var event :- if Cuts(bgCut, noise) then FilterEventCorrected(e, bgCut) else Ok(e);
    var signal :- SignalEdges(event.nodes, event.trueEdges, signalCut);
    Ok(Selected(event, signal))
  }

  /** `select_data` over a list of events: the first event that raises
      ends the whole call. */
  function SelectData(events: seq<Event>, bgCut: real, signalCut: real, noise: bool)
    : (r: Result<seq<Selected>, SelectionError>)
    ensures r.Ok? ==> |r.value| == |events|
  {
    Collect(seq(|events|, i requires 0 <= i < |events| => SelectEvent(events[i], bgCut, signalCut, noise)))
  }

  /** Every event is selected on its own: the call succeeds only if event
      `i` does, and then its `i`-th result is that event's selection. */
  lemma SelectDataPerEvent(events: seq<Event>, bgCut: real, signalCut: real, noise: bool, i: nat)
    requires i < |events|
    ensures var r := SelectData(events, bgCut, signalCut, noise);
      var s := SelectEvent(events[i], bgCut, signalCut, noise);
      (s.Err? ==> r.Err?) && (r.Ok? ==> s.Ok? && r.value[i] == s.value)
  {
    var rs := seq(|events|, i requires 0 <= i < |events| => SelectEvent(events[i], bgCut, signalCut, noise));
    assert rs[i] == SelectEvent(events[i], bgCut, signalCut, noise);
  }

  /** When no event raises, neither does the call. */
  lemma SelectDataSucceeds(events: seq<Event>, bgCut: real, signalCut: real, noise: bool)
    requires forall i :: 0 <= i < |events| ==> SelectEvent(events[i], bgCut, signalCut, noise).Ok?
    ensures SelectData(events, bgCut, signalCut, noise).Ok?
  {
    var rs := seq(|events|, i requires 0 <= i < |events| => SelectEvent(events[i], bgCut, signalCut, noise));
    assert forall i :: 0 <= i < |rs| ==> rs[i].Ok?;
  }

  /** In the cutting branch, a renamed pair is a signal edge exactly when
      the original nodes it names were joined by a true edge and both pass
      the background cut and the signal cut. */
  lemma SignalOfOriginal(e: Event, bgCut: real, signalCut: real, noise: bool, a: nat, b: nat)
    requires Cuts(bgCut, noise)
    requires exists i :: 0 <= i < |e.nodes| && Passes(e.nodes[i], bgCut)
    ensures var s := SelectEvent(e, bgCut, signalCut, noise).value;
      var kept := KeptNodes(e.nodes, bgCut);
      ((a, b) in s.signalTrueEdges <==>
          a < |kept| && b < |kept| && (kept[a], kept[b]) in e.trueEdges
             && e.nodes[kept[a]].pt > signalCut && e.nodes[kept[b]].pt > signalCut)
  {
    var s := SelectEvent(e, bgCut, signalCut, noise).value;
    assert FilterEventCorrected(e, bgCut).Ok? && s.event == FilterEventCorrected(e, bgCut).value;
    FilterEventEdges(e, bgCut, a, b);
    FilterEventEdges(e, bgCut, b, a);
    assert (a, b) in s.signalTrueEdges
      <==> (a, b) in s.event.trueEdges && Signal(s.event.nodes, (a, b), signalCut);
  }

  /** The weight guard as written misses the weights it is meant to cut:
      true edges `(0, 1)` and `(1, 2)` with node 2 cut leave one true edge,
      the two weights are not cut, and they no longer line up with the true
      edges. The intended update keeps the weight of `(0, 1)` only. */
  lemma WeightGuardMisses(edges: seq<Edge>, kept: seq<nat>, w: seq<real>)
    requires edges == [(0, 1), (1, 2)] && kept == [0, 1] && |w| == 2
    ensures var sub := EdgeSubset(edges, kept, InverseMask(kept));
      |sub.0| == 1
      && WeightsAsWritten(Some(w), sub.1, |sub.0|) == Ok(Some(w))
      && Weights(Some(w), sub.1) == Some([w[0]])
  {
    SecondEdgeCut(edges, kept);
    GuardOnCut(w, EdgeSubset(edges, kept, InverseMask(kept)).1);
  }

  /** The weight guard as written also lets a mask of the wrong length
      through: with the same two true edges and node 2 cut, one weight
      matches the one true edge left, and indexing it with the two-element
      mask raises. The intended update leaves the lone weight alone. */
  lemma WeightGuardRaises(edges: seq<Edge>, kept: seq<nat>, w: seq<real>)
    requires edges == [(0, 1), (1, 2)] && kept == [0, 1] && |w| == 1
    ensures var sub := EdgeSubset(edges, kept, InverseMask(kept));
      WeightsAsWritten(Some(w), sub.1, |sub.0|) == Err(MaskShape)
      && Weights(Some(w), sub.1) == Some(w)
  {
    SecondEdgeCut(edges, kept);
  }

  /** Of the edges `(0, 1)` and `(1, 2)`, only the first survives when
      node 2 is cut. */
  lemma SecondEdgeCut(edges: seq<Edge>, kept: seq<nat>)
    requires edges == [(0, 1), (1, 2)] && kept == [0, 1]
    ensures var sub := EdgeSubset(edges, kept, InverseMask(kept));
      sub.1 == [true, false] && |sub.0| == 1
  {
    var sub := EdgeSubset(edges, kept, InverseMask(kept));
    assert sub.1 == [true, false];
    MaskOfFirst(sub.1);
  }

  lemma MaskOfFirst(m: seq<bool>)
    requires m == [true, false]
    ensures TrueIndices(m) == [0]
  {
    assert m[..1] == [true];
    assert m[..1][..0] == [];
  }

  /** Two weights and a mask keeping the first of two true edges. */
  lemma GuardOnCut(w: seq<real>, m: seq<bool>)
    requires |w| == 2 && m == [true, false]
    ensures WeightsAsWritten(Some(w), m, 1) == Ok(Some(w))
    ensures Weights(Some(w), m) == Some([w[0]])
  {
    MaskOfFirst(m);
    assert Masked(w, m) == [w[0]];
  }
}
