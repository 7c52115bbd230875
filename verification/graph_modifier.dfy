/** `SimpleGraphModifier.prepare_data`: rebuild an event's edge list so that
    it holds every truth edge (efficiency 1) and, as far as the supply of
    false edges allows, exactly `t (1 - p) / p` false ones (purity p), with
    labels, shuffled, and decoded back to node pairs. Also `print_eff_pur`.

    Target purity p is the rational `num / den`. The shuffle is the
    permutation `perm` of `0 .. n-1` that `np.random.shuffle` would produce. */
module GraphModifier {
  import opened Outcomes
  import opened Seqs
  import opened CodeSets
  import opened Edges
  import opened Cantor
  import opened Ratios

  datatype SynthesisError =
    | ZeroPurity          // p = 0: `(1 - p) / p` divides by zero
    | NegativeFalseCount  // p > 1 made `n_false` negative: `torch.zeros` refuses it
    | LengthMismatch      // `assert len(cantor_eff) == len(y_true)` fails

  /** `n_false = int(t * (1 - p) / p)` with p = num / den: the exact
      quotient `t (den - num) / num`, truncated toward zero as `int()` does. */
  function FalseCount(t: nat, num: nat, den: nat): (n: int)
    requires num > 0 && den > 0
    ensures num <= den ==> 0 <= n && Floors(n, t * (den - num), num)
    ensures num > den ==> n <= 0 && Floors(-n, t * (num - den), num)
  {
    if num <= den then
      var x := t * (den - num);
      DivFloors(x, num);
      x / num
    else
      var x := t * (num - den);
      DivFloors(x, num);
      -(x / num)
  }

  /** `q` is the floor of `x / d`. */
  predicate Floors(q: int, x: int, d: int)
  {
    q * d <= x < q * d + d
  }

  lemma DivFloors(x: nat, d: nat)
    requires d > 0
    ensures Floors(x / d, x, d)
  {
    assert x == (x / d) * d + x % d;
  }

  /** Codes kept for the new graph and their labels, before the shuffle. */
  datatype Arrangement = Arrangement(codes: seq<nat>, labels: seq<bool>)

  /** `torch.cat([torch.ones(t), torch.zeros(n_false)])` read as booleans. */
  function Labels(t: nat, nFalse: nat): (y: seq<bool>)
    ensures |y| == t + nFalse
    ensures forall k :: 0 <= k < |y| ==> (y[k] <==> k < t)
  {
    seq(t, _ => true) + seq(nFalse, _ => false)
  }

  lemma {:induction false} ConstantCount(n: nat, b: bool)
    ensures Count(seq(n, _ => b), b) == n
    ensures Count(seq(n, _ => b), !b) == 0
  {
    if n > 0 {
      ConstantCount(n - 1, b);
      assert seq(n, _ => b) == seq(n - 1, _ => b) + [b];
    }
  }

  lemma LabelsCount(t: nat, nFalse: nat)
    ensures Count(Labels(t, nFalse), true) == t
    ensures Count(Labels(t, nFalse), false) == nFalse
  {
    ConstantCount(t, true);
    ConstantCount(nFalse, false);
  }

  /** `cantor_eff[np.argsort(np.logical_not(np.isin(cantor_eff, cantor_true)))]`:
      true codes first, then the others. NumPy's default sort is not stable,
      so only the split is fixed by the source; this keeps each part in
      increasing order, one of the orders the source may produce. */
  function TruesFirst(u: seq<nat>, trueCodes: seq<nat>): seq<nat>
  {
    Filter(u, trueCodes, true) + Filter(u, trueCodes, false)
  }

  /** Lines 65-83 of `prepare_data`, with the true-edge count `t` that
      sizes the label vector and the false-edge budget passed in. */
  function ArrangeCodes(trueCodes: seq<nat>, predCodes: seq<nat>, t: nat, num: nat, den: nat)
    : (r: Result<Arrangement, SynthesisError>)
    requires den > 0
    ensures var o := TruesFirst(Union1d(trueCodes, predCodes), trueCodes);
      r.Ok? <==> num > 0 && FalseCount(t, num, den) >= 0 && |o| >= t + FalseCount(t, num, den)
    ensures var o := TruesFirst(Union1d(trueCodes, predCodes), trueCodes);
      r.Ok? ==> (
        && num > 0 && FalseCount(t, num, den) >= 0 && |o| >= t + FalseCount(t, num, den)
        && r.value.codes == o[..t + FalseCount(t, num, den)]
        && r.value.labels == Labels(t, FalseCount(t, num, den)))
  {
    var ordered := TruesFirst(Union1d(trueCodes, predCodes), trueCodes);
    if num == 0 then Err(ZeroPurity)
    else
      var nFalse := FalseCount(t, num, den);
      if nFalse < 0 then Err(NegativeFalseCount)
      else
        var newSize := t + nFalse;
        var kept := if newSize < |ordered| then ordered[..newSize] else ordered;
        var labels := Labels(t, nFalse);
        if |kept| != |labels| then Err(LengthMismatch)
        else Ok(Arrangement(kept, labels))
  }

  /** The number of distinct truth edges. */
  function TruthCount(trueEdges: seq<Edge>): nat
  {
    |Unique(EncodeAll(trueEdges))|
  }

  /** The number of distinct predicted edges that are not truth edges: the
      supply of false edges. */
  function FalseSupply(trueEdges: seq<Edge>, predEdges: seq<Edge>): nat
  {
    var tc := EncodeAll(trueEdges);
    |Filter(Union1d(tc, EncodeAll(predEdges)), tc, false)|
  }

  /** The purity is usable and enough false edges exist to reach it. */
  predicate Feasible(trueEdges: seq<Edge>, predEdges: seq<Edge>, num: nat, den: nat)
    requires den > 0
  {
    && num > 0
    && FalseCount(TruthCount(trueEdges), num, den) >= 0
    && FalseSupply(trueEdges, predEdges) >= FalseCount(TruthCount(trueEdges), num, den)
  }

  /** The true-first reordering of the union of true and predicted codes:
      its first `|Unique(trueCodes)|` entries are exactly the true codes. */
  lemma TruesFirstFacts(trueCodes: seq<nat>, predCodes: seq<nat>)
    ensures var u := Union1d(trueCodes, predCodes);
      var o := TruesFirst(u, trueCodes);
      && |o| == |Unique(trueCodes)| + |Filter(u, trueCodes, false)|
      && Distinct(o)
      && (forall k :: 0 <= k < |o| ==> (o[k] in trueCodes <==> k < |Unique(trueCodes)|))
      && (forall z :: z in trueCodes ==> z in o[..|Unique(trueCodes)|])
      && (forall z :: z in o ==> z in trueCodes || z in predCodes)
  {
    var u := Union1d(trueCodes, predCodes);
    var trues := Filter(u, trueCodes, true);
    var falses := Filter(u, trueCodes, false);
    FilterIsUniqueOfKeys(u, trueCodes);
    ConcatSplit(trues, falses, trueCodes);
    assert forall z :: z in trues + falses ==> z in u;
  }

  /** Joining the true part and the false part of a split. */
  lemma ConcatSplit(trues: seq<nat>, falses: seq<nat>, keys: seq<nat>)
    requires Increasing(trues) && Increasing(falses)
    requires forall y :: y in trues <==> y in keys
    requires forall y :: y in falses ==> y !in keys
    ensures Distinct(trues + falses)
    ensures forall k :: 0 <= k < |trues + falses| ==> ((trues + falses)[k] in keys <==> k < |trues|)
    ensures (trues + falses)[..|trues|] == trues
  {
    var o := trues + falses;
    var t := |trues|;
    forall k | 0 <= k < |o| ensures o[k] in keys <==> k < t {
      if k < t {
        assert o[k] == trues[k] && trues[k] in trues;
      } else {
        assert o[k] == falses[k - t] && falses[k - t] in falses;
      }
    }
    forall i, j | 0 <= i < j < |o| ensures o[i] != o[j] {
      if j < t {
        assert o[i] == trues[i] && o[j] == trues[j];
      } else if t <= i {
        assert o[i] == falses[i - t] && o[j] == falses[j - t];
      }
    }
  }

  /** Cutting the reordered codes at the label length keeps exactly the
      true codes in front. */
  lemma ArrangeCodesFeasible(trueCodes: seq<nat>, predCodes: seq<nat>, num: nat, den: nat)
    requires den > 0
    ensures var t := |Unique(trueCodes)|;
      var r := ArrangeCodes(trueCodes, predCodes, t, num, den);
      r.Ok? <==> num > 0 && FalseCount(t, num, den) >= 0
                 && |Filter(Union1d(trueCodes, predCodes), trueCodes, false)| >= FalseCount(t, num, den)
  {
    TruesFirstFacts(trueCodes, predCodes);
  }

  lemma ArrangeCodesSound(trueCodes: seq<nat>, predCodes: seq<nat>, num: nat, den: nat)
    requires den > 0
    ensures var r := ArrangeCodes(trueCodes, predCodes, |Unique(trueCodes)|, num, den);
      r.Ok? ==> (
        && (forall k :: 0 <= k < |r.value.codes| ==> (r.value.labels[k] <==> r.value.codes[k] in trueCodes))
        && (forall z :: z in trueCodes ==> z in r.value.codes)
        && (forall z :: z in r.value.codes ==> z in trueCodes || z in predCodes)
        && Distinct(r.value.codes)
        && (forall i, j :: 0 <= i < j < |r.value.codes| && r.value.codes[j] in trueCodes ==> r.value.codes[i] in trueCodes))
  {
    var t := |Unique(trueCodes)|;
    var r := ArrangeCodes(trueCodes, predCodes, t, num, den);
    if r.Ok? {
      var o := TruesFirst(Union1d(trueCodes, predCodes), trueCodes);
      var nf := FalseCount(t, num, den);
      assert r.value.codes == o[..t + nf] && r.value.labels == Labels(t, nf);
      TruesFirstFacts(trueCodes, predCodes);
      PrefixKeepsTrues(o, trueCodes, predCodes, t, nf);
    }
  }

  lemma PrefixKeepsTrues(o: seq<nat>, trueCodes: seq<nat>, predCodes: seq<nat>, t: nat, nf: nat)
    requires t + nf <= |o|
    requires Distinct(o)
    requires forall k :: 0 <= k < |o| ==> (o[k] in trueCodes <==> k < t)
    requires forall z :: z in trueCodes ==> z in o[..t]
    requires forall z :: z in o ==> z in trueCodes || z in predCodes
    ensures forall k :: 0 <= k < t + nf ==> (Labels(t, nf)[k] <==> o[..t + nf][k] in trueCodes)
    ensures forall z :: z in trueCodes ==> z in o[..t + nf]
    ensures forall z :: z in o[..t + nf] ==> z in trueCodes || z in predCodes
    ensures Distinct(o[..t + nf])
  {
    var n := t + nf;
    forall z | z in trueCodes ensures z in o[..n] {
      var k :| 0 <= k < t && o[..t][k] == z;
      assert o[..n][k] == z;
    }
    forall z | z in o[..n] ensures z in trueCodes || z in predCodes {
      var k :| 0 <= k < n && o[..n][k] == z;
      assert o[k] in o;
    }
  }

  /** Lines 65-83 as the source writes them: `t = len(cantor_true)`, which
      counts a truth edge listed twice twice. It labels the first `t` codes
      true, while only the first `TruthCount` of them are truth codes. On
      duplicate-free truth it is the corrected `Arrange`. */
  function ArrangeAsWritten(trueEdges: seq<Edge>, predEdges: seq<Edge>, num: nat, den: nat)
    : (r: Result<Arrangement, SynthesisError>)
    requires den > 0
    ensures r.Ok? <==> (num > 0 && FalseCount(|trueEdges|, num, den) >= 0
      && TruthCount(trueEdges) + FalseSupply(trueEdges, predEdges) >= |trueEdges| + FalseCount(|trueEdges|, num, den))
    ensures r.Ok? ==> (r.value.labels == Labels(|trueEdges|, FalseCount(|trueEdges|, num, den))
      && |r.value.codes| == |trueEdges| + FalseCount(|trueEdges|, num, den))
    ensures r.Ok? ==> forall k :: 0 <= k < |r.value.codes| ==>
      (r.value.codes[k] in EncodeAll(trueEdges) <==> k < TruthCount(trueEdges))
  {
    TruesFirstFacts(EncodeAll(trueEdges), EncodeAll(predEdges));
    ArrangeCodes(EncodeAll(trueEdges), EncodeAll(predEdges), |trueEdges|, num, den)
  }

  /** On duplicate-free truth the as-written arrangement is the corrected one. */
  lemma AsWrittenAgreesOnDistinctTruth(trueEdges: seq<Edge>, predEdges: seq<Edge>, num: nat, den: nat)
    requires den > 0
    requires Distinct(trueEdges)
    ensures ArrangeAsWritten(trueEdges, predEdges, num, den) == Arrange(trueEdges, predEdges, num, den)
  {
    EncodeDistinct(trueEdges);
  }

  /** With a truth edge listed twice, the as-written arrangement labels a
      predicted edge that is not a truth edge as true. */
  lemma DuplicateTruthMislabels(trueEdges: seq<Edge>, predEdges: seq<Edge>)
    requires trueEdges == [(0, 1), (0, 1)] && predEdges == [(0, 0), (1, 0)]
    ensures var r := ArrangeAsWritten(trueEdges, predEdges, 2, 3);
      && r.Ok?
      && |r.value.codes| == |r.value.labels| == 3
      && r.value.labels[1]
      && r.value.codes[1] !in EncodeAll(trueEdges)
  {
    DuplicateTruthArrangement();
    SmallCodes();
  }

  /** The codes of the edges in `DuplicateTruthMislabels`. */
  lemma SmallCodes()
    ensures EncodeAll([(0, 1), (0, 1)]) == [2, 2]
    ensures EncodeAll([(0, 0), (1, 0)]) == [0, 1]
  {
    TriStep(0);
    assert Tri(0) == 0 && Tri(1) == 1;
  }

  /** The arrangement behind `DuplicateTruthMislabels`, worked out. */
  lemma DuplicateTruthArrangement()
    ensures ArrangeAsWritten([(0, 1), (0, 1)], [(0, 0), (1, 0)], 2, 3)
      == Ok(Arrangement([2, 0, 1], [true, true, false]))
  {
    SmallCodes();
    DuplicateTruthCodes();
  }

  /** Codes 2, 2 of truth and 0, 1 of predictions, two truth edges counted. */
  lemma DuplicateTruthCodes()
    ensures ArrangeCodes([2, 2], [0, 1], 2, 2, 3) == Ok(Arrangement([2, 0, 1], [true, true, false]))
  {
    DuplicateTruthUnion();
    DuplicateTruthOrder();
    DuplicateTruthFalseCount();
    var r := ArrangeCodes([2, 2], [0, 1], 2, 2, 3);
    assert r.Ok? && r.value.codes == [2, 0, 1][..3] && r.value.labels == Labels(2, 1);
  }

  /** Purity 2/3 with two truth edges asks for one false edge. */
  lemma DuplicateTruthFalseCount()
    ensures FalseCount(2, 2, 3) == 1
    ensures Labels(2, 1) == [true, true, false]
  {
    assert Floors(FalseCount(2, 2, 3), 2, 2);
  }

  lemma DuplicateTruthOrder()
    ensures TruesFirst([0, 1, 2], [2, 2]) == [2, 0, 1]
  {
    DuplicateTruthSplit();
    assert [2] + [0, 1] == [2, 0, 1];
  }

  lemma DuplicateTruthUnion()
    ensures Union1d([2, 2], [0, 1]) == [0, 1, 2]
  {
    IncreasingCanonical(Union1d([2, 2], [0, 1]), [0, 1, 2]);
  }

  lemma DuplicateTruthSplit()
    ensures Filter([0, 1, 2], [2, 2], true) == [2]
    ensures Filter([0, 1, 2], [2, 2], false) == [0, 1]
  {
    assert [0, 1, 2][1..] == [1, 2] && [1, 2][1..] == [2] && [2][1..] == [];
    assert 2 in [2, 2] && 1 !in [2, 2] && 0 !in [2, 2];
    assert Filter([2], [2, 2], true) == [2] && Filter([2], [2, 2], false) == [];
    assert Filter([1, 2], [2, 2], true) == [2] && Filter([1, 2], [2, 2], false) == [1];
  }

  /** Lines 65-83 with the true-edge count taken as the number of distinct
      truth edges. */
  function Arrange(trueEdges: seq<Edge>, predEdges: seq<Edge>, num: nat, den: nat)
    : (r: Result<Arrangement, SynthesisError>)
    requires den > 0
    ensures r.Ok? <==> Feasible(trueEdges, predEdges, num, den)
    ensures r.Ok? ==>
      |r.value.codes| == |r.value.labels| == TruthCount(trueEdges) + FalseCount(TruthCount(trueEdges), num, den)
    ensures r.Ok? ==> forall k :: 0 <= k < |r.value.codes| ==>
      (r.value.labels[k] <==> r.value.codes[k] in EncodeAll(trueEdges))
    ensures r.Ok? ==> forall e :: e in trueEdges ==> Pair(e) in r.value.codes
    ensures r.Ok? ==> forall z :: z in r.value.codes ==>
      z in EncodeAll(trueEdges) || z in EncodeAll(predEdges)
    ensures r.Ok? ==> Distinct(r.value.codes)
    ensures r.Ok? ==> forall i, j ::
      (0 <= i < j < |r.value.codes| && r.value.codes[j] in EncodeAll(trueEdges)) ==> r.value.codes[i] in EncodeAll(trueEdges)
  {
    var tc := EncodeAll(trueEdges);
    var pc := EncodeAll(predEdges);
    ArrangeCodesFeasible(tc, pc, num, den);
    ArrangeCodesSound(tc, pc, num, den);
    assert forall e :: e in trueEdges ==> Pair(e) in tc;
    ArrangeCodes(tc, pc, TruthCount(trueEdges), num, den)
  }

  /** `x[shuffle_idxs]` for codes and labels alike, with one permutation. */
  function Shuffle(a: Arrangement, perm: seq<nat>): (r: Arrangement)
    requires |a.codes| == |a.labels|
    requires IsPermutation(perm, |a.codes|)
    ensures |r.codes| == |r.labels| == |a.codes|
    ensures forall k :: 0 <= k < |perm| ==>
      r.codes[k] == a.codes[perm[k]] && r.labels[k] == a.labels[perm[k]]
    ensures multiset(Zip(r.codes, r.labels)) == multiset(Zip(a.codes, a.labels))
    ensures multiset(r.codes) == multiset(a.codes)
    ensures multiset(r.labels) == multiset(a.labels)
  {
    var r := Arrangement(Gather(a.codes, perm), Gather(a.labels, perm));
    GatherPermutation(a.codes, perm);
    GatherPermutation(a.labels, perm);
    GatherPermutation(Zip(a.codes, a.labels), perm);
    assert Zip(r.codes, r.labels) == Gather(Zip(a.codes, a.labels), perm);
    r
  }

  /** `perm` reorders the `t + n_false` codes of a feasible target: what
      `np.random.shuffle(np.arange(len(cantor_eff)))` leaves behind. */
  predicate ShufflesTarget(perm: seq<nat>, trueEdges: seq<Edge>, predEdges: seq<Edge>, num: nat, den: nat)
    requires den > 0
  {
    Feasible(trueEdges, predEdges, num, den) ==>
      IsPermutation(perm, TruthCount(trueEdges) + FalseCount(TruthCount(trueEdges), num, den))
  }

  /** The whole edge-synthesis body of `prepare_data` (lines 65-94):
      the new `edge_index` and `y` of one event. */
  function Synthesize(trueEdges: seq<Edge>, predEdges: seq<Edge>, num: nat, den: nat, perm: seq<nat>)
    : (r: Result<Labelled, SynthesisError>)
    requires den > 0
    requires ShufflesTarget(perm, trueEdges, predEdges, num, den)
    ensures r.Ok? <==> Feasible(trueEdges, predEdges, num, den)
    ensures r.Ok? ==>
      |r.value.edges| == |r.value.y| == TruthCount(trueEdges) + FalseCount(TruthCount(trueEdges), num, den)
    ensures r.Ok? ==> forall e :: e in trueEdges ==> e in r.value.edges
    ensures r.Ok? ==> forall e :: e in r.value.edges ==> e in trueEdges || e in predEdges
    ensures r.Ok? ==> forall k :: 0 <= k < |r.value.edges| ==> (r.value.y[k] <==> r.value.edges[k] in trueEdges)
    ensures r.Ok? ==> Distinct(r.value.edges)
    ensures r.Ok? ==> Count(r.value.y, true) == TruthCount(trueEdges)
    ensures r.Ok? ==> Count(r.value.y, false) == FalseCount(TruthCount(trueEdges), num, den)
    ensures r.Ok? ==> Arrange(trueEdges, predEdges, num, den).Ok? && |perm| == |r.value.edges|
    ensures r.Ok? ==> var a := Arrange(trueEdges, predEdges, num, den).value;
      forall k :: 0 <= k < |perm| ==>
        perm[k] < |a.codes| && perm[k] < |a.labels|
        && Pair(r.value.edges[k]) == a.codes[perm[k]] && r.value.y[k] == a.labels[perm[k]]
  {
    match Arrange(trueEdges, predEdges, num, den)
    case Err(e) => Err(e)
    case Ok(a) =>
      ShuffleFits(trueEdges, predEdges, num, den, perm);
      var s := Shuffle(a, perm);
      var g := Labelled(DecodeAll(s.codes), s.labels);
      SynthesizeSound(trueEdges, predEdges, num, den, a, s, g);
      Ok(g)
  }

  /** A shuffle of the target's `t + n_false` codes fits the arrangement. */
  lemma ShuffleFits(trueEdges: seq<Edge>, predEdges: seq<Edge>, num: nat, den: nat, perm: seq<nat>)
    requires den > 0
    requires ShufflesTarget(perm, trueEdges, predEdges, num, den)
    ensures Arrange(trueEdges, predEdges, num, den).Ok? ==>
      IsPermutation(perm, |Arrange(trueEdges, predEdges, num, den).value.codes|)
  {
  }

  lemma SynthesizeSound(trueEdges: seq<Edge>, predEdges: seq<Edge>, num: nat, den: nat,
                        a: Arrangement, s: Arrangement, g: Labelled)
    requires den > 0
    requires Arrange(trueEdges, predEdges, num, den) == Ok(a)
    requires |a.codes| == |a.labels| && |s.codes| == |s.labels| == |a.codes|
    requires multiset(s.codes) == multiset(a.codes)
    requires multiset(Zip(s.codes, s.labels)) == multiset(Zip(a.codes, a.labels))
    requires multiset(s.labels) == multiset(a.labels)
    requires g == Labelled(DecodeAll(s.codes), s.labels)
    ensures forall e :: e in trueEdges ==> e in g.edges
    ensures forall e :: e in g.edges ==> e in trueEdges || e in predEdges
    ensures forall k :: 0 <= k < |g.edges| ==> (g.y[k] <==> g.edges[k] in trueEdges)
    ensures Distinct(g.edges)
    ensures Count(g.y, true) == TruthCount(trueEdges)
    ensures Count(g.y, false) == FalseCount(TruthCount(trueEdges), num, den)
    ensures EncodeAll(g.edges) == s.codes
  {
    var t := TruthCount(trueEdges);
    assert a.labels == Labels(t, FalseCount(t, num, den));
    EncodeDecodeAll(s.codes);
    SameMultisetSameElements(a.codes, s.codes);
    ShuffleKeepsAlignment(a, s, EncodeAll(trueEdges));
    DecodedEdges(s.codes, trueEdges, predEdges);
    DistinctSameMultiset(a.codes, s.codes);
    DecodeDistinct(s.codes);
    LabelsCount(t, FalseCount(t, num, den));
  }

  /** A shuffle moves each label together with its code. */
  lemma ShuffleKeepsAlignment(a: Arrangement, s: Arrangement, keys: seq<nat>)
    requires |a.codes| == |a.labels| && |s.codes| == |s.labels|
    requires multiset(Zip(s.codes, s.labels)) == multiset(Zip(a.codes, a.labels))
    requires forall k :: 0 <= k < |a.codes| ==> (a.labels[k] <==> a.codes[k] in keys)
    ensures forall k :: 0 <= k < |s.codes| ==> (s.labels[k] <==> s.codes[k] in keys)
  {
    forall k | 0 <= k < |s.codes| ensures s.labels[k] <==> s.codes[k] in keys {
      var p := Zip(s.codes, s.labels)[k];
      assert p in multiset(Zip(a.codes, a.labels));
      var j :| 0 <= j < |a.codes| && Zip(a.codes, a.labels)[j] == p;
    }
  }

  /** Decoding carries code-level containment over to edges. */
  lemma DecodedEdges(zs: seq<nat>, trueEdges: seq<Edge>, predEdges: seq<Edge>)
    requires forall e :: e in trueEdges ==> Pair(e) in zs
    requires forall z :: z in zs ==> z in EncodeAll(trueEdges) || z in EncodeAll(predEdges)
    ensures forall e :: e in trueEdges ==> e in DecodeAll(zs)
    ensures forall e :: e in DecodeAll(zs) ==> e in trueEdges || e in predEdges
    ensures forall k :: 0 <= k < |zs| ==> (zs[k] in EncodeAll(trueEdges) <==> DecodeAll(zs)[k] in trueEdges)
  {
    var es := DecodeAll(zs);
    EncodeDecodeAll(zs);
    forall e | e in trueEdges ensures e in es {
      EdgeMembership(e, es);
    }
    forall e | e in es ensures e in trueEdges || e in predEdges {
      var k :| 0 <= k < |es| && es[k] == e;
      CodeMembership(zs[k], trueEdges);
      CodeMembership(zs[k], predEdges);
    }
    forall k | 0 <= k < |zs| ensures zs[k] in EncodeAll(trueEdges) <==> es[k] in trueEdges {
      CodeMembership(zs[k], trueEdges);
    }
  }

  /** `print_eff_pur`: efficiency `|intersect1d(true, pred)| / len(true)` and
      purity `|intersect1d(true, pred)| / len(pred)` over codes. Python
      raises ZeroDivisionError when either list is empty: `None` here. */
  function EffPur(trueEdges: seq<Edge>, predEdges: seq<Edge>): (r: Option<(Fraction, Fraction)>)
    ensures r.Some? <==> |trueEdges| > 0 && |predEdges| > 0
    ensures r.Some? ==> Proportion(r.value.0) && Proportion(r.value.1)
    ensures r.Some? ==> r.value.0.whole == |trueEdges| && r.value.1.whole == |predEdges|
    ensures r.Some? ==> r.value.0.part == r.value.1.part
    ensures r.Some? && Distinct(trueEdges) ==>
      (r.value.0.part == r.value.0.whole <==> forall e :: e in trueEdges ==> e in predEdges)
    ensures r.Some? && Distinct(predEdges) ==>
      (r.value.1.part == r.value.1.whole <==> forall e :: e in predEdges ==> e in trueEdges)
    ensures r.Some? ==> r.value.0.part == |Elems(trueEdges) * Elems(predEdges)|
  {
    CommonCount(trueEdges, predEdges);
    var common := |Intersect1d(EncodeAll(trueEdges), EncodeAll(predEdges))|;
    EffPurBounds(trueEdges, predEdges);
    if |trueEdges| == 0 || |predEdges| == 0 then None
    else Some((Fraction(common, |trueEdges|), Fraction(common, |predEdges|)))
  }

  lemma EffPurBounds(trueEdges: seq<Edge>, predEdges: seq<Edge>)
    ensures var common := |Intersect1d(EncodeAll(trueEdges), EncodeAll(predEdges))|;
      && common <= |trueEdges|
      && common <= |predEdges|
      && (Distinct(trueEdges) ==> (common == |trueEdges| <==> forall e :: e in trueEdges ==> e in predEdges))
      && (Distinct(predEdges) ==> (common == |predEdges| <==> forall e :: e in predEdges ==> e in trueEdges))
  {
    var tc := EncodeAll(trueEdges);
    var pc := EncodeAll(predEdges);
    IntersectCommutes(tc, pc);
    SubsetCoded(trueEdges, predEdges);
    SubsetCoded(predEdges, trueEdges);
    if Distinct(trueEdges) {
      EncodeDistinct(trueEdges);
      IntersectFull(tc, pc);
    }
    if Distinct(predEdges) {
      EncodeDistinct(predEdges);
      IntersectFull(pc, tc);
    }
  }

  /** The shared numerator counts the distinct edges the two lists have in
      common. */
  lemma CommonCount(trueEdges: seq<Edge>, predEdges: seq<Edge>)
    ensures |Intersect1d(EncodeAll(trueEdges), EncodeAll(predEdges))| == |Elems(trueEdges) * Elems(predEdges)|
  {
    var r := Intersect1d(EncodeAll(trueEdges), EncodeAll(predEdges));
    var es := DecodeAll(r);
    assert Distinct(r) by {
      forall i, j | 0 <= i < j < |r| ensures r[i] != r[j] {
        assert r[i] < r[j];
      }
    }
    DecodeDistinct(r);
    DistinctCard(es);
    EncodeDecodeAll(r);
    forall e ensures e in Elems(es) <==> e in Elems(trueEdges) * Elems(predEdges) {
      EdgeMembership(e, es);
      EdgeMembership(e, trueEdges);
      EdgeMembership(e, predEdges);
    }
    assert Elems(es) == Elems(trueEdges) * Elems(predEdges);
  }

  /** One edge list is contained in another exactly when its codes are. */
  lemma SubsetCoded(a: seq<Edge>, b: seq<Edge>)
    ensures (forall e :: e in a ==> e in b) <==> (forall z :: z in EncodeAll(a) ==> z in EncodeAll(b))
  {
    if forall e :: e in a ==> e in b {
      forall z | z in EncodeAll(a) ensures z in EncodeAll(b) {
        CodeMembership(z, a);
        CodeMembership(z, b);
      }
    }
    if forall z :: z in EncodeAll(a) ==> z in EncodeAll(b) {
      forall e | e in a ensures e in b {
        EdgeMembership(e, a);
        EdgeMembership(e, b);
      }
    }
  }

  /** A synthesized graph over duplicate-free truth has efficiency exactly 1
      and purity `t / (t + n_false)`, as `print_eff_pur` would report; the
      graph's size is `t + n_false` by `Synthesize`'s contract. */
  lemma SynthesisReachesTarget(trueEdges: seq<Edge>, predEdges: seq<Edge>, num: nat, den: nat, perm: seq<nat>)
    requires den > 0
    requires Distinct(trueEdges) && |trueEdges| > 0
    requires ShufflesTarget(perm, trueEdges, predEdges, num, den)
    requires Feasible(trueEdges, predEdges, num, den)
    ensures var g := Synthesize(trueEdges, predEdges, num, den, perm).value;
      var t := |trueEdges|;
      EffPur(trueEdges, g.edges) == Some((Fraction(t, t), Fraction(t, |g.edges|)))
  {
    var g := Synthesize(trueEdges, predEdges, num, den, perm).value;
    EncodeDistinct(trueEdges);
    FullRecallEffPur(trueEdges, g.edges);
  }

  /** An edge list that holds every one of `t` distinct truth edges has
      efficiency 1 and purity `t / |edges|`. */
  lemma FullRecallEffPur(trueEdges: seq<Edge>, edges: seq<Edge>)
    requires Distinct(trueEdges) && |trueEdges| > 0
    requires forall e :: e in trueEdges ==> e in edges
    ensures var t := |trueEdges|;
      EffPur(trueEdges, edges) == Some((Fraction(t, t), Fraction(t, |edges|)))
  {
    assert trueEdges[0] in edges;
  }
}
