/** Graph edges as the pipeline stores them: column `k` of a `2 x E` integer
    tensor is the directed pair `(edge[0][k], edge[1][k])` of node ids. */
module Edges {

  /** A directed edge `(source node, target node)`. */
  type Edge = (nat, nat)

  /** Row-major order of an adjacency matrix: by source, then by target. */
  predicate LexLess(e: Edge, f: Edge)
  {
    e.0 < f.0 || (e.0 == f.0 && e.1 < f.1)
  }

  /** An edge list with one truth label per edge (`edge_index`, `y`). */
  datatype Labelled = Labelled(edges: seq<Edge>, y: seq<bool>)

  /** Labels line up with edges, one per edge. */
  predicate Aligned(g: Labelled)
  {
    |g.edges| == |g.y|
  }
}
