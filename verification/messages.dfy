/** `compute_sparse_messages`: one message per coalesced nonzero of M, the
    feature row its column index selects scaled by its value. */
module Messages {
  import opened Results
  import opened Dense
  import opened Sparse

  /** Every column index of `m` selects an existing row of `h`. */
  predicate ColumnsSelectRows(m: Relation, h: Matrix) {
    forall e :: e in m.entries ==> e.col < |h.rows|
  }

  /** `compute_sparse_messages(M, H)`: row `p` of the result is the total
      value stored under the p-th distinct index pair (row, col) of M, in
      coalesced order, times `H[col]`. A column index with no row in `H`
      fails with IndexOutOfRange. */
  function ComputeSparseMessages(m: Relation, h: Matrix): (r: Result<Matrix, ShapeError>)
    requires m.WellFormed() && h.Valid()
    ensures r.Success? <==> ColumnsSelectRows(m, h)
    ensures r.Success? ==>
              r.value.Valid() && r.value.width == h.width &&
              |r.value.rows| == |CoalesceRelation(m).entries|
    ensures r.Success? ==>
              forall p :: 0 <= p < |r.value.rows| ==>
                var e := CoalesceRelation(m).entries[p];
                e.col < |h.rows| &&
                r.value.rows[p] == Scale(SumFor(m.entries, KeyOf(e)), h.rows[e.col])
  {
    var c := CoalesceRelation(m).entries;
    if exists p :: 0 <= p < |c| && c[p].col >= |h.rows| then
      assert !ColumnsSelectRows(m, h) by {
        var p :| 0 <= p < |c| && c[p].col >= |h.rows|;
        assert KeyOf(c[p]) in KeySet(c);
      }
      Failure(IndexOutOfRange)
    else
      assert ColumnsSelectRows(m, h) by {
        forall e | e in m.entries
          ensures e.col < |h.rows|
        {
          assert KeyOf(e) in KeySet(c);
          var d :| d in c && KeyOf(d) == KeyOf(e);
          var p :| 0 <= p < |c| && c[p] == d;
        }
      }
      Success(Matrix(h.width, seq(|c|, p requires 0 <= p < |c| => Scale(c[p].val, h.rows[c[p].col]))))
  }

  /** Every distinct index pair (i, j) of M gets exactly one message, equal
      to the total of its duplicates times `H[j]`, and the number of
      messages is the number of distinct index pairs. */
  lemma MessagePerDistinctPair(m: Relation, h: Matrix, i: nat, j: nat)
    requires m.WellFormed() && h.Valid() && ColumnsSelectRows(m, h)
    requires (i, j) in KeySet(m.entries)
    ensures |ComputeSparseMessages(m, h).value.rows| == |KeySet(m.entries)|
    ensures exists p :: 0 <= p < |CoalesceRelation(m).entries| &&
              KeyOf(CoalesceRelation(m).entries[p]) == (i, j) &&
              ComputeSparseMessages(m, h).value.rows[p] == Scale(SumFor(m.entries, (i, j)), h.rows[j])
  {
    var c := CoalesceRelation(m).entries;
    CanonicalCardinality(c);
    assert (i, j) in KeySet(c);
    var d :| d in c && KeyOf(d) == (i, j);
    var p :| 0 <= p < |c| && c[p] == d;
    assert ComputeSparseMessages(m, h).value.rows[p] == Scale(SumFor(m.entries, (i, j)), h.rows[j]);
  }
}
