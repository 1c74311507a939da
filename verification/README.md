# Sparse index plumbing of the ETNN layer, in Dafny

This project models the discrete logic under the equivariant topological
message-passing layer in `topotein/models/graph_encoders/layers/ETNN.py`,
and proves properties of it. The learned networks sit on top of this logic.
It covers four pieces:

- **Coalescing a sparse relation** (`Sparse`). A sparse COO tensor holds
  (row, col, value) triples. Coalescing sorts the index pairs
  lexicographically and sums the values of duplicate pairs. The three
  module-level functions coalesce their sparse inputs before they read
  their indices. `ETNNLayer.message` calls `.indices()` without
  coalescing, which torch allows only on an already-coalesced tensor
  (ETNN.py:213-216, 225-228); `weighted_distance_difference` reads
  `A._indices()` in raw storage order (ETNN.py:243).
- **Key linking**, `cast_dense_by_sparse_link` (`KeyLink`). The key space is
  shared by S1's column index and S2's row index. The operation builds a
  table from each key to its first position among S1's coalesced nonzeros
  (the `scatter_min` of positions, with `Option` in place of the -1
  sentinel). Each S2 nonzero then receives the row of `x` at that position,
  or a zero row when its key has no S1 nonzero.
- **Per-nonzero messages**, `compute_sparse_messages` (`Messages`). Row `p`
  is the value of the p-th coalesced nonzero times the feature row its
  column selects.
- **Mean aggregation by index** (`Aggregate`, `EtnnLayer`). This is the
  `scatter_mean` in `intra_neighborhood_agg`. It is also the tail of
  `ETNNLayer.weighted_distance_difference`: index_add of the per-edge
  vectors, index_add of ones as a count, then division by the count
  clamped at 1.

Values are exact `real`s and indices are `nat`s. A dense tensor is a
`Matrix(width, rows)`. The width is stored, so `x.size(-1)` is defined even
for a tensor with no rows. Sometimes torch raises an `IndexError`: an S2 row
key outside S1's column range, a gathered row that `x` lacks, or a column
of M with no row in H. The model returns `Failure(IndexOutOfRange)` in
those cases and does not forbid them with a precondition.

In two places the model follows the code rather than its documentation:

- In `cast_dense_by_sparse_link`, the docstring calls `x` `[B, nnz_S1]` and
  says it is indexed along dimension 1. The code takes `B = x.size(-1)` and
  gathers rows `x[mapped_idx[valid], :]`. So the model reads `x` as
  `[nnz_S1, B]`, one row per S1 nonzero. Note that `x` is only indexed when
  some key matches (the `valid.any()` guard). A short `x` therefore fails
  only when a matched position is beyond its last row, and the model's
  failure condition says exactly that.
- The docstring of `intra_neighborhood_agg` says the messages are summed
  with `scatter_add`. The code calls `scatter_mean`, and the model takes
  the mean. `ETNNLayer.forward` does not call this function. It calls
  `self.agg_intra`, an `IntraNeighborhoodAggregator` built with
  `aggr_func="sum"`, whose class is not part of this model.

Modules: `Results` (Option, Result, the indexing error), `Dense` (rows and
matrices), `Multisets` (removing one element, matching an element across
two rearrangements), `Sparse` (entries, relations, coalescing), `KeyLink`,
`Messages`, `Aggregate`, `EtnnLayer`.

## Model

All source paths are in `topotein/models/graph_encoders/layers/`.

| member | source | states |
|---|---|---|
| Sparse.Coalesce | topotein/models/graph_encoders/layers/ETNN.py:84-101 | the coalesced entries have strictly increasing (row, col) pairs, so no pair is duplicated, and they have the same set of index pairs as the input |
| Sparse.CoalesceRelation | topotein/models/graph_encoders/layers/ETNN.py:45-52 | coalescing keeps the shape and keeps every index inside it; the entries are canonical; each entry's value is the sum of the values of all input duplicates of its pair |
| Sparse.CoalesceSum | topotein/models/graph_encoders/layers/ETNN.py:84-87 | for every index pair, the total stored under it is the same before and after coalescing |
| Sparse.CoalesceValues | topotein/models/graph_encoders/layers/ETNN.py:84-87 | each coalesced entry holds the sum of the input values with its (row, col) pair |
| Sparse.CoalesceOfCanonical | topotein/models/graph_encoders/layers/ETNN.py:124 | coalescing an already canonical sequence returns it unchanged |
| Sparse.CoalesceIdempotent | topotein/models/graph_encoders/layers/ETNN.py:101 | coalescing twice gives the same result as coalescing once |
| Sparse.CanonicalUnique | topotein/models/graph_encoders/layers/ETNN.py:84-87 | two canonical sequences with the same index pairs and the same per-pair totals are equal, so the canonical form is unique |
| Sparse.CoalescePermutationInvariant | topotein/models/graph_encoders/layers/ETNN.py:45-52 | any rearrangement of the same stored entries coalesces to the same result |
| Sparse.CoalesceKeysIgnoreValues | topotein/models/graph_encoders/layers/ETNN.py:44-52 | the coalesced index layout depends only on the input's index layout and never on the values |
| Sparse.CanonicalCardinality | topotein/models/graph_encoders/layers/ETNN.py:46-51 | a canonical sequence has one entry per distinct index pair, so nnz after coalescing equals the number of distinct pairs |
| KeyLink.FirstOccurrence | topotein/models/graph_encoders/layers/ETNN.py:54-62 | the table has one slot per key below dim_size; a Some(p) slot holds the smallest position whose key is k; a None slot means no position holds k |
| KeyLink.LinkTableFacts | topotein/models/graph_encoders/layers/ETNN.py:59-66 | the converse reading of the table: the first occurrence p of k is found as Some(p), and an absent key is found as None |
| KeyLink.CastDenseBySparseLink | topotein/models/graph_encoders/layers/ETNN.py:43-79 | on success the output has nnz(coalesced S2) rows, each as wide as x. Row t is x[p] for the first coalesced S1 position p whose column equals S2's t-th row key, and zero when no S1 column equals it. The operation fails exactly when an S2 key is outside S1's column range or a matched position has no row in x |
| KeyLink.LinkSucceedsOnDocumentedShapes | topotein/models/graph_encoders/layers/ETNN.py:69-77 | when x has at least nnz(coalesced S1) rows and every S2 row key is below S1.size(1), the link succeeds with one row per distinct index pair of S2 |
| KeyLink.LinkDependsOnlyOnLinkKeys | topotein/models/graph_encoders/layers/ETNN.py:44-52 | relations that agree on S1's coalesced column keys, S1's column count and S2's coalesced row keys give the same link result |
| KeyLink.LinkIgnoresValues | topotein/models/graph_encoders/layers/ETNN.py:44-52 | changing only the values of S1 and S2, with the same index pairs in the same order, leaves the result unchanged |
| KeyLink.LinkIgnoresStorageOrder | topotein/models/graph_encoders/layers/ETNN.py:45-50 | the storage order of S1's and S2's nonzeros before coalescing does not change the result |
| KeyLink.FirstOccurrenceWinsExample | topotein/models/graph_encoders/layers/ETNN.py:54-77 | a fixture: two S1 nonzeros share key 0 with rows 7 and 9; the matching S2 nonzero receives 7 (not 9 and not the average 8); the S2 nonzero whose key has no S1 nonzero receives 0 |
| KeyLink.MappingAsWritten | topotein/models/graph_encoders/layers/ETNN.py:59-62 | under the torch_scatter 2.x `scatter_min` convention, the first position of a present key is kept and an absent key's slot stays 0, because the -1 test marks nothing |
| KeyLink.CastDenseAsWritten | topotein/models/graph_encoders/layers/ETNN.py:59-77 | under that convention every S2 nonzero gathers a row of x. It succeeds exactly when every S2 key is below S1.size(1) and every mapped index (0 for an absent key) has a row in x, so a nonempty S2 fails on an x with no rows. On success, a present key receives the row of its first S1 position and an absent key receives x[0] |
| KeyLink.AsWrittenAgreesOnPresentKeys | topotein/models/graph_encoders/layers/ETNN.py:59-77 | when every S2 key occurs among S1's column keys, the code as written and the intended link give the same result |
| KeyLink.AbsentKeyCounterexample | topotein/models/graph_encoders/layers/ETNN.py:41 | on S1 holding key 0 only and S2 looking up key 1, the as-written reading returns x[0] = 7 where the docstring promises 0 |
| Messages.ComputeSparseMessages | topotein/models/graph_encoders/layers/ETNN.py:101-102 | on success row p is (total value of the p-th distinct index pair of M) times H[col], with one row per coalesced nonzero and H's width. It fails exactly when some column index of M has no row in H |
| Messages.MessagePerDistinctPair | topotein/models/graph_encoders/layers/ETNN.py:96-102 | every distinct pair (i, j) stored in M has a message equal to its total value times H[j], and there are as many messages as distinct pairs |
| Aggregate.ScatterMean | topotein/models/graph_encoders/layers/ETNN.py:125 | for indices below n: n rows of the message width; an index that never occurs gets the zero row; otherwise the row times the number of occurrences equals the sum of the rows sent there |
| Aggregate.CountZeroIffAbsent | topotein/models/graph_encoders/layers/ETNN.py:264-270 | a count is zero exactly when the index never occurs |
| Aggregate.CountIsCardinality | topotein/models/graph_encoders/layers/ETNN.py:264-267 | the count for i is the number of positions whose index is i |
| Aggregate.MeanOfConstantRows | topotein/models/graph_encoders/layers/ETNN.py:125 | if every row sent to i equals v, the mean at i is v |
| Aggregate.AggregatePermutationInvariant | topotein/models/graph_encoders/layers/ETNN.py:260-267 | counts and sums by index depend only on the multiset of (index, row) pairs |
| Aggregate.ScatterMeanPermutationInvariant | topotein/models/graph_encoders/layers/ETNN.py:125 | reordering the (index, message) pairs does not change the mean aggregation |
| Aggregate.IntraNeighborhoodAgg | topotein/models/graph_encoders/layers/ETNN.py:124-125 | one row per row index of M (M.size(0)). A row index with no coalesced nonzero gets zero. Otherwise the row times the number of coalesced nonzeros in that row equals the sum of their messages |
| Aggregate.IsolatedNodeGetsZero | topotein/models/graph_encoders/layers/ETNN.py:125 | a node with no nonzero in its row of M gets exactly the zero summary |
| Aggregate.IntraNeighborhoodAggExample | topotein/models/graph_encoders/layers/ETNN.py:117-125 | a 3-node fixture: the means are the hand-computed 3 and 6, and the node without neighbours gets zero |
| Aggregate.ScatterMeanExample | topotein/models/graph_encoders/layers/ETNN.py:125 | the same fixture at the level of the index sequence [0, 0, 1] |
| Aggregate.IndexAdd | topotein/models/graph_encoders/layers/ETNN.py:261-262 | the loop's row i is the sum of the source rows whose index is i |
| Aggregate.IndexCount | topotein/models/graph_encoders/layers/ETNN.py:265-267 | the loop's counts[i] is the number of positions whose index is i |
| EtnnLayer.WeightedDistanceMean | topotein/models/graph_encoders/layers/ETNN.py:257-272 | the index_add, count and clamp-to-1 division compute exactly the scatter_mean of the per-edge vectors by source. There are n rows, and a node with no edges gets exactly zero |

## Left out

- The learned sub-networks `phi_sse`, `phi_edge`, `phi_x` and `phi_update` (ETNN.py:139-183) are floating-point neural networks. Their outputs are treated as given data.
- Euclidean norms and the ε-normalised direction vectors (ETNN.py:217, 229, 252-255) need square roots and float division. `EtnnLayer.WeightedDistanceMean` takes the per-edge vectors as input.
- `ETNNLayer.forward` and `ETNNLayer.message` are not modelled as compositions (ETNN.py:186-236, 240-245). The pieces are not aligned end to end. `x` is laid out in the coalesced order of `N2_0.T` / `N1_0.T` but linked through `N2_0` / `N1_0`. The weights are indexed by A's nonzeros but linked as if indexed by B's. `A._indices()` is uncoalesced while the linked weights are coalesced. No property of the composition is claimed.
- The inter-neighbourhood aggregator and `self.agg_intra` are instances of `InterNeighborhoodAggregator` / `IntraNeighborhoodAggregator`. Their module, `topotein/models/aggregation`, is not part of this model.
- The `__main__` block (ETNN.py:275-331) does file I/O. Its invariance checks use a random non-orthogonal matrix and a float tolerance, so they are not provable properties.
- The behaviour of `scatter_min` is taken as a specification, not verified, because the library is not part of this model. `KeyLink.CastDenseBySparseLink` follows the contract the code states: present keys get their minimum position, and absent keys are marked (-1) and get a zero row. Under the torch_scatter 2.x convention the code behaves differently; see Findings.
- The behaviour of `scatter_mean` is taken as sum divided by the count clamped at 1. The library is not part of this model.
- Constructor configuration (ETNN.py:129-143) and the topomodelx `MessagePassing` base class are not modelled.
- Floating-point rounding, dtypes and devices are not modelled. All arithmetic is exact.
- Aggregate.IntraNeighborhoodAgg: requires one message row per coalesced nonzero of M. torch_scatter would broadcast a single-nonzero index over several message rows, or raise on other mismatches; neither is modelled.
- Aggregate.ScatterMean: requires every index to be below n (`dim_size`). torch_scatter raises on a larger index, and that error path is not modelled. Both callers meet the requirement: `IntraNeighborhoodAgg` because coalesced row keys are below M.size(0), and `WeightedDistanceMean` through its own precondition.
- Aggregate.IndexAdd: requires every index to be below n. `index_add` raises on an out-of-range index, and that error path is not modelled.
- Aggregate.IndexCount: requires every index to be below n, for the same reason as `IndexAdd`.
- EtnnLayer.WeightedDistanceMean: requires every source index to be below n = X.size(0), and one vector per source index; out-of-range or mismatched inputs raise in torch and are not modelled. The width `w` is a parameter, where the source fixes it at 3 (`torch.zeros(n, 3)`, ETNN.py:261) and `index_add` raises for any other width; the per-edge vectors are always 3-wide, so no behaviour is lost.

## Findings

| source | as written | input that shows it | evidently intended | confidence | as-written member | corrected member |
|---|---|---|---|---|---|---|
| topotein/models/graph_encoders/layers/ETNN.py:59-62 | absent keys are detected with `argmin == -1`. torch_scatter 2.x `scatter_min` returns `argmin = src.size(0)` and `out = 0` for a key no position holds, so nothing is marked and the mapped index of an absent key is 0 | x = [[7]], S1 = 1x2 with one nonzero (0, 0), S2 = 2x2 with one nonzero (1, 0): key 1 is absent from S1, and the as-written result is [[7]] | an S2 nonzero whose key is absent from S1 gets a zero row (docstring line 41), giving [[0]] | medium: depends on the installed torch_scatter version (1.x used -1); not executed | KeyLink.CastDenseAsWritten, KeyLink.AbsentKeyCounterexample | KeyLink.CastDenseBySparseLink |
