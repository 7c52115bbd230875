# Edge bookkeeping and embedding loss of the Exa.TrkX tracking pipeline

This project models three pieces of the Exa.TrkX particle-tracking pipeline in Dafny, then proves properties about them:

- **The graph modifier.** `SimpleGraphModifier.prepare_data` rebuilds an event's candidate edge list so that it reaches a target purity at efficiency 1. It encodes every directed edge `(a, b)` as one integer with the Cantor pairing function. It keeps every truth edge. It adds only as many false edges as the purity asks for, labels the edges, shuffles them, and decodes the codes back to node pairs. `print_eff_pur` reports the efficiency and purity of an edge list against the truth.
- **The filter-stage utilities.**
  - `select_data` drops low-`pt` and noise hits from an event. It cuts and renumbers the true edges and the candidate edges with one rank map, cuts the per-edge weights, and picks out the signal edges.
  - `get_edge_subset` is the renumbering step.
  - `graph_intersection` labels each predicted edge by whether the truth graph holds it.
- **The metric-learning stage.** `GravMetricBase` turns edge labels into hinge targets and computes squared embedding distances. Its loss is the hinge-embedding loss, taken separately over the negative and the positive edges, with the positive part weighted. The training loss adds a spatial and a topological loss. The evaluation reports efficiency, purity and the module-veto purity.

The module layout:

| module | file | contents |
|---|---|---|
| `Outcomes` | `outcomes.dfy` | `Option`, for undefined (NaN) values. `Result`, for raised errors. `Collect`, for a loop that stops at the first raise. |
| `Seqs` | `seqs.dfy` | Distinctness, counts, index gathers (`a[idx]`), permutations. |
| `CodeSets` | `code_sets.dfy` | `np.unique`, `np.union1d`, `np.intersect1d` and `np.isin` filters over integer codes. |
| `Edges` | `edges.dfy` | Directed edges, row-major order, labelled edge lists. |
| `Masks` | `masks.dfy` | Boolean-mask indexing `a[mask]` and `torch.where(mask)`. |
| `Ratios` | `ratios.dfy` | Efficiency and purity as exact fractions. |
| `Cantor` | `cantor.dfy` | The pairing codec. |
| `GraphModifier` | `graph_modifier.dfy` | `prepare_data` and `print_eff_pur`. |
| `Intersection` | `intersection.dfy` | `graph_intersection`. |
| `Selection` | `selection.dfy` | `select_data` and `get_edge_subset`. |
| `GravMetric` | `gravmetric.dfy` | The hinge targets, the distances, the losses and the evaluation figures. |

The model follows the code in places where a plain reading of the system's purpose suggests something else:

- `graph_intersection` compares directed edges exactly. A prediction holding both `(a, b)` and `(b, a)` keeps both entries, and only the orientation present in the truth is labelled true. It does not collapse the two.
- When the prediction holds too few false edges to reach the target purity, `prepare_data` does not produce a smaller graph. The label vector is longer than the kept codes, and the assertion at graph_modifier.py line 83 fails. The model returns an error.

Conventions:

- Node ids and codes are unbounded naturals.
- Losses and distances are `real`.
- Efficiency and purity are fractions of counts. The division the source performs is `Ratios.Value`.
- Where a tensor division yields NaN, the model returns `None`.
- Where the source raises, the model mostly returns `Err` with the reason. Four operations return `None` for a raise instead:
  - `Intersection.GraphIntersection`: `tensor.max()` of an empty edge tensor raises `RuntimeError`.
  - `GraphModifier.EffPur`: an empty list raises `ZeroDivisionError`.
  - `GravMetric.Distances`: an edge naming a missing embedding row raises `IndexError`.
  - `GravMetric.Evaluate`: under `module_veto`, an edge naming a node without a module raises `IndexError`.
- Because of this, `None` from `GravMetric.SpaceLoss`, `GravMetric.TrainingLoss` and `GravMetric.ValidationLoss` covers both a raise in `Distances` and the NaN of a mean over no elements.
- The random shuffle of `prepare_data` is a permutation passed in as a parameter.

## Model

| member | source | states |
|---|---|---|
| Cantor.TriDouble | Pipelines/TrackML_Example/LightningModules/GraphModifier/Models/graph_modifier.py:15-16 | `2 f(w) = w(w + 1)`, so the floor division in `f` is exact. |
| Cantor.Pair | Pipelines/TrackML_Example/LightningModules/GraphModifier/Models/graph_modifier.py:11-12 | The code of `(a, b)` lies in the band `[T(a + b), T(a + b + 1))` of its diagonal `a + b`. |
| Cantor.TriangularRoot | Pipelines/TrackML_Example/LightningModules/GraphModifier/Models/graph_modifier.py:18-19 | `q(z)` computed with an exact integer square root of `8z + 1` is the unique `w` with `T(w) <= z < T(w + 1)`. |
| Cantor.Unpair | Pipelines/TrackML_Example/LightningModules/GraphModifier/Models/graph_modifier.py:14-25 | Decoding any code gives an edge whose code is that code. The endpoint sum is `q(z)`, and the second endpoint is at most `q(z)`. |
| Cantor.RoundTrip | Pipelines/TrackML_Example/LightningModules/GraphModifier/Models/graph_modifier.py:11-25 | Decoding the code of any edge gives that edge back. |
| Cantor.PairInjective | Pipelines/TrackML_Example/LightningModules/GraphModifier/Models/graph_modifier.py:11-12 | Two edges share a code exactly when they are equal. |
| Cantor.PairOrderSensitive | Pipelines/TrackML_Example/LightningModules/GraphModifier/Models/graph_modifier.py:11-12 | `(a, b)` and `(b, a)` share a code exactly when `a == b`, so the code keeps the edge's direction. |
| Cantor.EncodeAll | Pipelines/TrackML_Example/LightningModules/GraphModifier/Models/graph_modifier.py:65-66 | One code per edge, in order: code `k` is the pairing of edge `k`. |
| Cantor.DecodeAll | Pipelines/TrackML_Example/LightningModules/GraphModifier/Models/graph_modifier.py:93 | One edge per code, in order: edge `k` encodes to code `k`. |
| Cantor.DecodeEncodeAll | Pipelines/TrackML_Example/LightningModules/GraphModifier/Models/graph_modifier.py:44-46 | The constructor's self-check `test == inv(pair(test))` holds for every edge list, not only for the sampled one. |
| Cantor.EncodeDecodeAll | Pipelines/TrackML_Example/LightningModules/GraphModifier/Models/graph_modifier.py:93 | Encoding decoded codes gives the codes back, so the new `edge_index` encodes to exactly the shuffled codes. |
| Cantor.CodeMembership | Pipelines/TrackML_Example/LightningModules/GraphModifier/Models/graph_modifier.py:65-72 | A code belongs to an encoded edge list exactly when its decoded edge belongs to the list. |
| Cantor.EdgeMembership | Pipelines/TrackML_Example/LightningModules/GraphModifier/Models/graph_modifier.py:65-72 | An edge belongs to a list exactly when its code belongs to the encoded list. |
| Cantor.EncodeDistinct | Pipelines/TrackML_Example/LightningModules/GraphModifier/Models/graph_modifier.py:65-66 | An edge list is duplicate-free exactly when its code list is. |
| Cantor.DecodeDistinct | Pipelines/TrackML_Example/LightningModules/GraphModifier/Models/graph_modifier.py:93 | A code list is duplicate-free exactly when its decoded edge list is. |
| GraphModifier.FalseCount | Pipelines/TrackML_Example/LightningModules/GraphModifier/Models/graph_modifier.py:76 | For purity `p = num/den <= 1`, `n_false` is the floor of `t(1-p)/p`. For `p > 1` it is minus the floor of `t(p-1)/p`, because `int()` truncates toward zero. |
| GraphModifier.LabelsCount | Pipelines/TrackML_Example/LightningModules/GraphModifier/Models/graph_modifier.py:82 | The label vector holds exactly `t` ones and `n_false` zeros. |
| GraphModifier.ArrangeCodes | Pipelines/TrackML_Example/LightningModules/GraphModifier/Models/graph_modifier.py:65-83 | For a given label count `t`: succeeds exactly when `p > 0`, `n_false >= 0` and the true-first union holds at least `t + n_false` codes. Then it keeps that prefix of the union, labelled `t` trues then `n_false` falses. |
| GraphModifier.ArrangeCodesFeasible | Pipelines/TrackML_Example/LightningModules/GraphModifier/Models/graph_modifier.py:69-83 | With `t` the number of distinct true codes, the arrangement succeeds exactly when `p > 0`, `n_false >= 0`, and the union holds at least `n_false` codes that are not true codes. |
| GraphModifier.ArrangeCodesSound | Pipelines/TrackML_Example/LightningModules/GraphModifier/Models/graph_modifier.py:69-83 | On success: each kept code is labelled true exactly when it is a true code; every true code is kept; every kept code is true or predicted; no code repeats; and all true codes precede all false ones. |
| GraphModifier.ArrangeAsWritten | Pipelines/TrackML_Example/LightningModules/GraphModifier/Models/graph_modifier.py:65-83 | With `t = len(cantor_true)`, counting repeats: succeeds exactly when `p > 0`, `n_false >= 0`, and the distinct truth codes plus the false supply number at least `t + n_false`. Then the first `t` labels are true, but only the first `TruthCount` codes (the distinct truth edges) are truth codes. |
| GraphModifier.AsWrittenAgreesOnDistinctTruth | Pipelines/TrackML_Example/LightningModules/GraphModifier/Models/graph_modifier.py:76-82 | On duplicate-free truth, counting truth edges with `len(cantor_true)` gives the same arrangement as counting distinct ones. |
| GraphModifier.DuplicateTruthMislabels | Pipelines/TrackML_Example/LightningModules/GraphModifier/Models/graph_modifier.py:76-83 | Truth `[(0,1),(0,1)]`, prediction `[(0,0),(1,0)]`, purity 2/3: the code arrangement of lines 65-83 succeeds but labels a code that is no truth edge's as true. |
| GraphModifier.Arrange | Pipelines/TrackML_Example/LightningModules/GraphModifier/Models/graph_modifier.py:65-83 | Succeeds exactly when the target is feasible. Then it keeps `t + n_false` codes, `t` being the distinct truth edges. Each label is true exactly when its code is a truth edge's. It keeps every truth edge, takes nothing from outside truth and prediction, repeats no code, and puts trues first. |
| GraphModifier.Shuffle | Pipelines/TrackML_Example/LightningModules/GraphModifier/Models/graph_modifier.py:86-90 | Codes and labels are reordered by the same permutation. Each code keeps its label: the multiset of (code, label) pairs is unchanged, and so are the multisets of codes and of labels. |
| GraphModifier.ShuffleKeepsAlignment | Pipelines/TrackML_Example/LightningModules/GraphModifier/Models/graph_modifier.py:86-90 | A reordering that keeps the (code, label) pairs keeps "labelled true exactly when a true code". |
| GraphModifier.Synthesize | Pipelines/TrackML_Example/LightningModules/GraphModifier/Models/graph_modifier.py:65-94 | With `t` the number of distinct truth edges, the new `edge_index`/`y` exist exactly when the target is feasible. They hold every truth edge and only truth or predicted edges, with no duplicates. The label is true exactly for truth edges, with `t` trues and `n_false` falses, and edge `k` is the arrangement's code at `perm[k]` with that code's label. |
| GraphModifier.EffPur | Pipelines/TrackML_Example/LightningModules/GraphModifier/Models/graph_modifier.py:27-36 | Defined exactly when both lists are nonempty. Both figures are proportions over the two list lengths with the same numerator, the number of distinct edges the two lists share. Efficiency (purity) is 1 exactly when every truth (predicted) edge is predicted (true), for duplicate-free lists. |
| GraphModifier.CommonCount | Pipelines/TrackML_Example/LightningModules/GraphModifier/Models/graph_modifier.py:30 | `len(np.intersect1d(cantor_true, cantor_pred))` is the number of distinct edges the two lists share. |
| GraphModifier.FullRecallEffPur | Pipelines/TrackML_Example/LightningModules/GraphModifier/Models/graph_modifier.py:27-36 | An edge list holding all `t` distinct truth edges has efficiency `t/t` and purity `t/len`. |
| GraphModifier.SynthesisReachesTarget | Pipelines/TrackML_Example/LightningModules/GraphModifier/Models/graph_modifier.py:68-94 | A synthesized graph over duplicate-free truth has efficiency 1 and purity `t / (t + n_false)`, as `print_eff_pur` would report. |
| Intersection.StoredValue | Pipelines/TrackML_Example/LightningModules/Filter/utils.py:105 | The entry `c1*c2 - [c1 > c2]` is nonzero exactly when the edge is predicted, and positive exactly when it is predicted and true. |
| Intersection.SortLex | Pipelines/TrackML_Example/LightningModules/Filter/utils.py:99-105 | The sparsity pattern read row by row is sorted in row-major order and holds exactly the listed edges. |
| Intersection.LexCanonical | Pipelines/TrackML_Example/LightningModules/Filter/utils.py:105-108 | Two row-major sorted lists with the same edges are equal. |
| Intersection.Entries | Pipelines/TrackML_Example/LightningModules/Filter/utils.py:105-112 | The kept entries are exactly the predicted positions, and each is labelled true exactly when it is a truth edge. |
| Intersection.GraphIntersection | Pipelines/TrackML_Example/LightningModules/Filter/utils.py:94-114 | Defined exactly when both lists are nonempty. The result holds the predicted edges, sorted in row-major order, with `y[k]` true exactly when edge `k` is a truth edge. |
| Intersection.IntersectionIsPredictionPattern | Pipelines/TrackML_Example/LightningModules/Filter/utils.py:99-112 | The output edges are the sorted distinct predicted edges, never more than were predicted. |
| Intersection.MultiplicityIrrelevant | Pipelines/TrackML_Example/LightningModules/Filter/utils.py:99-112 | Inputs with the same edges, however often each is repeated, give the same output. |
| Intersection.ReversedPredictionsNotCollapsed | Pipelines/TrackML_Example/LightningModules/Filter/utils.py:94-114 | Prediction `[(0,1),(1,0)]` against truth `[(0,1)]` gives both edges, labelled `[true, false]`. |
| Selection.PtMask | Pipelines/TrackML_Example/LightningModules/Filter/utils.py:58 | `pt_mask` holds at node `i` exactly when node `i` has `pt` above the cut and a particle id. |
| Selection.KeptNodes | Pipelines/TrackML_Example/LightningModules/Filter/utils.py:58-59 | `pt_where` lists, in increasing order, exactly the ids of the nodes that pass. |
| Selection.InverseMask | Pipelines/TrackML_Example/LightningModules/Filter/utils.py:61-62 | The rank map has length `max(pt_where) + 1`. It sends the `r`-th kept id to `r` and every other position to 0. |
| Selection.RankMonotone | Pipelines/TrackML_Example/LightningModules/Filter/utils.py:61-62 | Renumbering keeps the order of surviving node ids, in both directions. |
| Selection.EdgeSubset | Pipelines/TrackML_Example/LightningModules/Filter/utils.py:40-46 | The mask is the both-endpoints mask. The `j`-th output edge is the `j`-th kept edge with both endpoints looked up in the rank map. |
| Selection.RelabelRoundTrip | Pipelines/TrackML_Example/LightningModules/Filter/utils.py:40-46 | Renumbered endpoints index the kept nodes. Mapping them back through `pt_where` gives exactly the surviving original edges, in order. |
| Selection.SubsetMembership | Pipelines/TrackML_Example/LightningModules/Filter/utils.py:40-46 | `(a, b)` is an output edge exactly when `(kept[a], kept[b])` was an input edge. |
| Selection.Weights | Pipelines/TrackML_Example/LightningModules/Filter/utils.py:69-71 | The corrected update: weights that line up with the true edges before the cut are cut with the true-edge mask. Other weights are left as they are. |
| Selection.WeightsAsWritten | Pipelines/TrackML_Example/LightningModules/Filter/utils.py:69-71 | Raises exactly when the weights' length equals the cut true-edge count but not the mask's length. Weights of another length than the cut count are left as they are. When all three lengths agree it is the corrected update. |
| Selection.WeightGuardMisses | Pipelines/TrackML_Example/LightningModules/Filter/utils.py:65-71 | True edges `(0,1),(1,2)` with node 2 cut: the guard of line 70 leaves two weights for one true edge, where the intended update keeps the first weight only. |
| Selection.WeightGuardRaises | Pipelines/TrackML_Example/LightningModules/Filter/utils.py:65-71 | The same edges with one weight: the guard of line 70 passes, and indexing with the two-element mask at line 71 raises. The intended update leaves the weight alone. |
| Selection.CutEvent | Pipelines/TrackML_Example/LightningModules/Filter/utils.py:57-79 | The cut without the weights: succeeds exactly when some node passes. It keeps exactly the passing nodes, all edge endpoints index the kept nodes, as many true edges remain as had both endpoints kept, and the weights are untouched. |
| Selection.FilterEventCorrected | Pipelines/TrackML_Example/LightningModules/Filter/utils.py:57-79 | The cut with the corrected weight update: succeeds exactly when some node passes, with the facts of `CutEvent`. Weights stay present or absent. |
| Selection.FilterEventAsWritten | Pipelines/TrackML_Example/LightningModules/Filter/utils.py:57-79 | The cut as written: succeeds exactly when some node passes and the weights do not raise at line 71, that is, unless they are present, their length equals the cut true-edge count, and some true edge was cut. The empty selection is reported exactly when no node passes. On success, nodes and edges are the corrected cut's. |
| Selection.FilterEventsAgree | Pipelines/TrackML_Example/LightningModules/Filter/utils.py:65-71 | The as-written and corrected cuts agree exactly when there are no weights, no true edge was cut, or the weights' length matches neither the true-edge count before the cut nor after it. |
| Selection.FilterEventEdges | Pipelines/TrackML_Example/LightningModules/Filter/utils.py:65-80 | Node `a` after the cut is node `kept[a]` before it. `(a, b)` is a true edge, or a candidate edge, exactly when `(kept[a], kept[b])` was one. |
| Selection.FilterWeightsFollowEdges | Pipelines/TrackML_Example/LightningModules/Filter/utils.py:65-71 | With the corrected guard, weights aligned with the true edges stay aligned after the cut, each weight with its own edge. |
| Selection.SignalEdges | Pipelines/TrackML_Example/LightningModules/Filter/utils.py:87-89 | Defined exactly when every endpoint names a node. The result is a subsequence of the true edges holding exactly the signal ones, each signal edge as often as among the true edges. |
| Selection.SignalCount | Pipelines/TrackML_Example/LightningModules/Filter/utils.py:87-89 | The signal mask keeps each signal edge as often as it occurs, and every other edge not at all. |
| Selection.SelectEvent | Pipelines/TrackML_Example/LightningModules/Filter/utils.py:49-91 | Built on the corrected cut. With a background cut, succeeds exactly when some node passes. Without one, the event is unchanged and only bad endpoints raise. The signal edges are exactly the true edges passing the signal cut, in order and with their multiplicities. |
| Selection.SelectData | Pipelines/TrackML_Example/LightningModules/Filter/utils.py:49-91 | On success there is one selected event per input event. |
| Selection.SelectDataPerEvent | Pipelines/TrackML_Example/LightningModules/Filter/utils.py:51-91 | An event that raises makes the call raise. On success, result `i` is event `i`'s own selection. |
| Selection.SelectDataSucceeds | Pipelines/TrackML_Example/LightningModules/Filter/utils.py:51-91 | When no event raises, neither does the call. |
| Selection.SignalOfOriginal | Pipelines/TrackML_Example/LightningModules/Filter/utils.py:56-89 | After a background cut, `(a, b)` is a signal edge exactly when `(kept[a], kept[b])` was a true edge and both of its nodes pass the signal cut. |
| GravMetric.HingeTargets | LightningModules/SuperEmbedding/gravmetric_base.py:33-34 | Target `k` is 1 exactly when label `k` holds, and -1 exactly when it does not. |
| GravMetric.TargetClasses | LightningModules/SuperEmbedding/gravmetric_base.py:33-34 | The targets hold a -1 (a 1) exactly when some label is false (true). |
| GravMetric.SqDistZero | LightningModules/SuperEmbedding/gravmetric_base.py:38 | The squared distance is zero exactly between equal points. |
| GravMetric.Distances | LightningModules/SuperEmbedding/gravmetric_base.py:36-38 | Defined exactly when every edge indexes both embeddings. `d[k]` is the squared distance of edge `k`'s points: non-negative, and zero exactly when they coincide. |
| GravMetric.HingeEmbeddingLoss | LightningModules/SuperEmbedding/gravmetric_base.py:151-153 | The mean-reduced hinge-embedding loss is defined exactly when there is at least one element, since a mean over none is NaN. |
| GravMetric.GetLoss | LightningModules/SuperEmbedding/gravmetric_base.py:71-92 | Defined exactly when both targets occur. A given margin is used as is. Without one, the configured margin squared is used. |
| GravMetric.PartitionedLoss | LightningModules/SuperEmbedding/gravmetric_base.py:76-90 | The negative-plus-weighted-positive loss is defined exactly when both targets occur, since a mean over no element is NaN. |
| GravMetric.MaskedClassSize | LightningModules/SuperEmbedding/gravmetric_base.py:76-88 | `d[hinge == c]` has as many entries as there are edges with target `c`. |
| GravMetric.MaskedClassSum | LightningModules/SuperEmbedding/gravmetric_base.py:76-88 | The element losses over `d[hinge == c]` add up to the class sum over the whole edge list. |
| GravMetric.LossClosedForm | LightningModules/SuperEmbedding/gravmetric_base.py:76-90 | The loss is the mean of `max(0, margin - d)` over negative edges plus `weight` times the mean of `d` over positive edges. |
| GravMetric.NegativeSumZero | LightningModules/SuperEmbedding/gravmetric_base.py:76-81 | The negative sum vanishes exactly when every negative edge has `d >= margin`. |
| GravMetric.PositiveSumZero | LightningModules/SuperEmbedding/gravmetric_base.py:83-88 | With non-negative distances, the positive sum is non-negative. It vanishes exactly when every positive edge has `d == 0`. |
| GravMetric.LossVanishes | LightningModules/SuperEmbedding/gravmetric_base.py:71-92 | With non-negative distances and a positive weight, the loss is non-negative. It is zero exactly when negatives are at least `margin` apart and positives coincide. |
| GravMetric.SpaceLoss | LightningModules/SuperEmbedding/gravmetric_base.py:118-122 | One subspace's loss is defined exactly when the edges index the embeddings and both labels occur. |
| GravMetric.SpaceLossVanishes | LightningModules/SuperEmbedding/gravmetric_base.py:118-122 | A subspace loss is non-negative. It is zero exactly when the embedding separates the labelled edges at the squared margin. |
| GravMetric.TrainingLoss | LightningModules/SuperEmbedding/gravmetric_base.py:118-123 | The training loss is defined exactly when both subspace losses are. |
| GravMetric.TrainingLossVanishes | LightningModules/SuperEmbedding/gravmetric_base.py:118-123 | With positive weights, the training loss is non-negative. It is zero exactly when both embeddings separate their edges at `margin**2` and `topo_margin**2`. |
| GravMetric.ValidationLoss | LightningModules/SuperEmbedding/gravmetric_base.py:147-153 | The validation loss is defined exactly when the edges index the embeddings and there is at least one edge. |
| GravMetric.TermsSplit | LightningModules/SuperEmbedding/gravmetric_base.py:151-153 | Over targets in {-1, 1}, the unpartitioned element losses add up to the negative sum plus the positive sum. |
| GravMetric.ValidationLossVanishes | LightningModules/SuperEmbedding/gravmetric_base.py:147-153 | The validation loss is non-negative. It is zero exactly when the embedding separates the edges at `margin**2`. |
| GravMetric.TrueCount | LightningModules/SuperEmbedding/gravmetric_base.py:156 | `y.sum()` is at most `len(y)`. It is 0 exactly when no label holds, and `len(y)` exactly when every label holds. |
| GravMetric.Evaluate | LightningModules/SuperEmbedding/gravmetric_base.py:155-171 | Defined unless the veto regime meets an edge without a module. Efficiencies divide by the truth size and purities by the edge counts, all over the labelled true positives. The veto purity is 0 without the regime. |
| GravMetric.TruePositives | LightningModules/SuperEmbedding/gravmetric_base.py:156 | There are `y.sum()` true positives, with no duplicates when the edges have none. |
| GravMetric.TruePositive | LightningModules/SuperEmbedding/gravmetric_base.py:155-157 | Against its truth, an edge is a true positive exactly when it is predicted and true. |
| GravMetric.RateBounds | LightningModules/SuperEmbedding/gravmetric_base.py:163-164 | The true positives number at most the truth size and at most the edge count. |
| GravMetric.PurityFull | LightningModules/SuperEmbedding/gravmetric_base.py:164 | Purity is 1 exactly when every predicted edge is true. |
| GravMetric.EfficiencyFull | LightningModules/SuperEmbedding/gravmetric_base.py:163 | For duplicate-free truth, efficiency is 1 exactly when every truth edge is predicted. |
| GravMetric.IntersectionLabelled | Pipelines/TrackML_Example/LightningModules/Filter/utils.py:107-112 | `graph_intersection`'s output is a duplicate-free, aligned labelling against the truth it was given. |
| GravMetric.SubspaceRates | LightningModules/SuperEmbedding/gravmetric_base.py:163-166 | One subspace's efficiency and purity are at most 1, with the two "equals 1" characterisations. |
| GravMetric.EvaluationRates | LightningModules/SuperEmbedding/gravmetric_base.py:155-166 | All four figures are at most 1. Purity is 1 exactly when every predicted edge is true. For duplicate-free truth, efficiency is 1 exactly when every truth edge is predicted. |
| GravMetric.CrossModule | LightningModules/SuperEmbedding/gravmetric_base.py:169 | The veto mask holds at edge `k` exactly when its two endpoints lie on different modules. |
| GravMetric.ModuleVetoPurity | LightningModules/SuperEmbedding/gravmetric_base.py:168-171 | Under the regime, the veto purity has purity's numerator over a denominator no larger than purity's. The two denominators are equal exactly when every edge crosses modules. Without the regime, the figure is 0. |

## Left out

- Cantor.Unpair: the float64 square root of `q(z)` is exact here. Above roughly 2^52 the source's root can be off by one and decode wrongly. Neither that nor int64 overflow of the pairing is modelled.
- Floating-point rounding of losses, distances and divisions is not modelled: losses are `real` and efficiency/purity are exact fractions. A NaN from a mean over no elements is `None`.
- GraphModifier.FalseCount: the target purity is the exact rational `num / den`, and `t * (1 - p) / p` is computed exactly before truncation. The source computes it in float64, where a purity such as 0.1 is not exact and `int()` can land one below the exact quotient.
- File I/O, `torch.load`/`torch.save`, the directory walk of `prepare_data` (lines 49-61), logging, progress bars and the commented-out and active `print` calls are not modelled.
- The random shuffle `np.random.shuffle` is an arbitrary permutation passed in as a parameter. The constructor's random self-check sample is replaced by `Cantor.DecodeEncodeAll` over all inputs.
- GraphModifier.Arrange: `np.argsort` with NumPy's default unstable sort fixes only the true/false split. The model keeps each part in increasing code order, which is one of the orders NumPy may produce. Which false edges survive the cut at `new_size` depends on that order, so the model fixes one choice of them.
- The NaN test `pid == pid` is modelled as a particle id that is present or absent. Node features other than `pt` and `pid` are carried as one opaque list cut with the same mask.
- Selection.EdgeSubset: it requires that the rank map covers every kept id. The source only calls it with the rank map built from the same kept ids, so this always holds there.
- GraphModifier.Synthesize: it arranges with `t` the number of distinct truth edges. On truth with repeated edges the source, which uses `len(cantor_true)`, instead trips the assertion at graph_modifier.py line 83 or labels a false edge true (`GraphModifier.ArrangeAsWritten`, `GraphModifier.DuplicateTruthMislabels`). On duplicate-free truth the two agree (`GraphModifier.AsWrittenAgreesOnDistinctTruth`).
- Selection.SelectEvent: it uses the corrected cut. Where the as-written weight update raises at utils.py line 71 (`Selection.FilterEventAsWritten`, `Selection.WeightShapeRaises`), it succeeds instead; `Selection.FilterEventsAgree` says where the two agree. The same holds for `Selection.SelectData` and the lemmas about both.
- Selection.SelectData: its contract gives only the length. The per-event facts are in `Selection.SelectDataPerEvent` and `Selection.SelectDataSucceeds`.
- `build_training_set`, `get_truth`, `build_edges`, the hard-negative and random-pair regimes, and the network's forward pass are not modelled. The losses take the embeddings and labelled edges as inputs.
- Of the `regime` strings, only the presence of `module_veto` is modelled.
- GravMetric.SpaceLoss: `None` does not tell a raise in `GravMetric.Distances` from the NaN of a class with no edges.
- GravMetric.Evaluate: a division by zero in the tensor figures keeps its zero denominator in the `Fraction` rather than becoming inf or NaN.
- `load_dataset`, `LargeDataset`, `odd_tools.py` and `graph_modifier_base.py` are not part of this model.

## Findings

| source | as written | input that shows it | evidently intended | confidence | as-written member | corrected member |
|---|---|---|---|---|---|---|
| Pipelines/TrackML_Example/LightningModules/GraphModifier/Models/graph_modifier.py:76-83 | The label vector has `len(cantor_true)` ones, which counts a truth edge listed twice twice, while the union keeps it once. | Truth `[(0,1),(0,1)]`, prediction `[(0,0),(1,0)]`, purity 2/3: codes `[2, 0, 1]` get labels `[true, true, false]`, so the code 0 of `(0,0)` is labelled true. | Count distinct truth edges (`len(np.unique(cantor_true))`), so that labels follow truth membership. | not executed | GraphModifier.DuplicateTruthMislabels | GraphModifier.Arrange |
| Pipelines/TrackML_Example/LightningModules/Filter/utils.py:69-71 | The weights are cut only when their length equals the number of true edges left after line 65 has already cut them. | True edges `(0,1),(1,2)` with node 2 cut and two weights: one true edge remains, the guard fails, and both weights stay. | Compare with the number of true edges before the cut, so that each weight stays with its edge. | not executed | Selection.WeightGuardMisses | Selection.Weights |
| Pipelines/TrackML_Example/LightningModules/Filter/utils.py:69-71 | When the weights' length equals the number of true edges left after the cut, but some true edge was cut, the guard passes and the boolean mask of the old length indexes them at line 71, which raises. | True edges `(0,1),(1,2)`, node 2 cut, one weight: one true edge remains, the guard passes, and a two-element mask indexes a one-element tensor. | The same guard as above, against the count before the cut: such weights are left alone. | not executed | Selection.WeightGuardRaises | Selection.FilterEventCorrected |
