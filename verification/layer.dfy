/** The discrete tail of `ETNNLayer.weighted_distance_difference`: per-edge
    vectors are summed per source node with index_add, the contributions per
    source are counted the same way, and the sum is divided by the count
    clamped below at 1. The per-edge vectors (weights times normalised
    coordinate differences) are inputs here. */
module EtnnLayer {
  import opened Dense
  import opened Aggregate

  /** Mean of the per-edge vectors by source node over `n` nodes. Row `i` is
      the `scatter_mean` of the vectors at source `i`: the same reducer as
      `intra_neighborhood_agg`, so a node with no edges gets exactly zero. */
  method WeightedDistanceMean(n: nat, sources: seq<nat>, vecs: seq<Row>, w: nat) returns (result: seq<Row>)
    requires |sources| == |vecs| && RowsOfWidth(vecs, w)
    requires forall p :: 0 <= p < |sources| ==> sources[p] < n
    ensures result == ScatterMean(sources, vecs, n, w)
    ensures |result| == n && RowsOfWidth(result, w)
    ensures forall i :: 0 <= i < n && CountFor(sources, i) == 0 ==> result[i] == Zeros(w)
  {
    var sums := IndexAdd(n, sources, vecs, w);
    var counts := IndexCount(n, sources);
    result := seq(n, i requires 0 <= i < n => Scale(1.0 / (ClampMin1(counts[i]) as real), sums[i]));
    forall i | 0 <= i < n
      ensures CountFor(sources, i) == 0 ==> i !in sources
    {
      CountZeroIffAbsent(sources, i);
    }
  }
}
