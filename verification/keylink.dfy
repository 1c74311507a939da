/** `cast_dense_by_sparse_link`: re-expresses a dense tensor with one row per
    nonzero of S1 as a dense tensor with one row per nonzero of S2, through
    the key space shared by S1's column index and S2's row index.

    For every key the first S1 position holding it (in coalesced order) is
    its representative; an S2 nonzero whose row key has no representative
    gets a row of zeros. First occurrence wins: later S1 nonzeros with the
    same key are ignored, never averaged in.
 */
module KeyLink {
  import opened Results
  import opened Dense
  import opened Sparse

  /** `p` is the smallest position of `keys` holding `k`. */
  predicate IsFirst(keys: seq<nat>, k: nat, p: nat) {
    p < |keys| && keys[p] == k && k !in keys[..p]
  }

  /** At most one position is the first occurrence of a key. */
  lemma FirstIsUnique(keys: seq<nat>, k: nat, p: nat, q: nat)
    requires IsFirst(keys, k, p) && IsFirst(keys, k, q)
    ensures p == q
  {
    assert forall i :: 0 <= i < q ==> keys[..q][i] == keys[i];
    assert forall i :: 0 <= i < p ==> keys[..p][i] == keys[i];
  }

  /** The `scatter_min` of positions by key, with dim_size `dimSize`: entry
      `k` of the table is the first position holding key `k`, or None (the
      -1 sentinel) when no position holds it. */
  function FirstOccurrence(keys: seq<nat>, dimSize: nat): (table: seq<Option<nat>>)
    requires forall p :: 0 <= p < |keys| ==> keys[p] < dimSize
    ensures |table| == dimSize
    ensures forall k :: 0 <= k < dimSize && table[k].Some? ==> IsFirst(keys, k, table[k].value)
    ensures forall k :: 0 <= k < dimSize && table[k].None? ==> k !in keys
    decreases |keys|
  {
    if |keys| == 0 then seq(dimSize, _ => None)
    else
      var n := |keys| - 1;
      var prev := FirstOccurrence(keys[..n], dimSize);
      assert keys == keys[..n] + [keys[n]];
      assert forall p :: 0 <= p <= n ==> keys[..p] == keys[..n][..p];
      if prev[keys[n]].None? then prev[keys[n] := Some(n)] else prev
  }

  /** The key each S1 nonzero contributes: its column index, coalesced. */
  function SourceKeys(s1: Relation): (keys: seq<nat>)
    requires s1.WellFormed()
    ensures |keys| == |CoalesceRelation(s1).entries|
    ensures forall p :: 0 <= p < |keys| ==> keys[p] < s1.cols
  {
    var c := CoalesceRelation(s1).entries;
    assert forall p :: 0 <= p < |c| ==> c[p] in c;
    ColKeys(c)
  }

  /** The key each S2 nonzero looks up: its row index, coalesced. */
  function TargetKeys(s2: Relation): (keys: seq<nat>)
    requires s2.WellFormed()
    ensures |keys| == |CoalesceRelation(s2).entries|
  {
    RowKeys(CoalesceRelation(s2).entries)
  }

  /** Every key lies below `bound`. */
  predicate AllBelow(keys: seq<nat>, bound: nat) {
    forall t :: 0 <= t < |keys| ==> keys[t] < bound
  }

  /** `mapping_out[keys_S2]`: the table entry each S2 nonzero looks up. */
  function Lookup(table: seq<Option<nat>>, keys: seq<nat>): (mapped: seq<Option<nat>>)
    requires AllBelow(keys, |table|)
    ensures |mapped| == |keys|
    ensures forall t :: 0 <= t < |keys| ==> mapped[t] == table[keys[t]]
  {
    seq(|keys|, t requires 0 <= t < |keys| => table[keys[t]])
  }

  /** Every position found in the table names an existing row of `x`. */
  predicate Gatherable(mapped: seq<Option<nat>>, nrows: nat) {
    forall t :: 0 <= t < |mapped| && mapped[t].Some? ==> mapped[t].value < nrows
  }

  /** `y[valid, :] = x[mapped_idx[valid], :]` on a zero-filled `y`. */
  function GatherRows(x: Matrix, mapped: seq<Option<nat>>): (y: seq<Row>)
    requires x.Valid() && Gatherable(mapped, |x.rows|)
    ensures |y| == |mapped| && RowsOfWidth(y, x.width)
    ensures forall t :: 0 <= t < |mapped| ==>
              y[t] == if mapped[t].Some? then x.rows[mapped[t].value] else Zeros(x.width)
  {
    seq(|mapped|, t requires 0 <= t < |mapped| =>
      if mapped[t].Some? then x.rows[mapped[t].value] else Zeros(x.width))
  }

  /** `cast_dense_by_sparse_link(x, S1, S2)`. `x` is read as [nnz_S1, B],
      one row per S1 nonzero, and the result is [nnz_S2, B]. Indexing the
      key table with an S2 key outside S1's column range, or gathering a row
      that `x` does not have, fails with IndexOutOfRange. */
  function CastDenseBySparseLink(x: Matrix, s1: Relation, s2: Relation): (r: Result<Matrix, ShapeError>)
    requires x.Valid() && s1.WellFormed() && s2.WellFormed()
    ensures r.Success? <==>
              forall t :: 0 <= t < |TargetKeys(s2)| ==>
                TargetKeys(s2)[t] < s1.cols &&
                forall p: nat :: IsFirst(SourceKeys(s1), TargetKeys(s2)[t], p) ==> p < |x.rows|
    ensures r.Success? ==>
              r.value.Valid() && r.value.width == x.width &&
              |r.value.rows| == |CoalesceRelation(s2).entries|
    ensures r.Success? ==>
              forall t, p: nat :: 0 <= t < |TargetKeys(s2)| && IsFirst(SourceKeys(s1), TargetKeys(s2)[t], p) ==>
                r.value.rows[t] == x.rows[p]
    ensures r.Success? ==>
              forall t :: 0 <= t < |TargetKeys(s2)| && TargetKeys(s2)[t] !in SourceKeys(s1) ==>
                r.value.rows[t] == Zeros(x.width)
  {
    var keys1 := SourceKeys(s1);
    var keys2 := TargetKeys(s2);
    if !AllBelow(keys2, s1.cols) then
      Failure(IndexOutOfRange)
    else
      var table := FirstOccurrence(keys1, s1.cols);
      var mapped := Lookup(table, keys2);
      LinkTableFacts(keys1, s1.cols, table);
      if !Gatherable(mapped, |x.rows|) then
        Failure(IndexOutOfRange)
      else
        Success(Matrix(x.width, GatherRows(x, mapped)))
  }

  /** Reads the first-occurrence table in both directions. */
  lemma LinkTableFacts(keys: seq<nat>, dimSize: nat, table: seq<Option<nat>>)
    requires forall p :: 0 <= p < |keys| ==> keys[p] < dimSize
    requires table == FirstOccurrence(keys, dimSize)
    ensures forall k, p: nat :: 0 <= k < dimSize && IsFirst(keys, k, p) ==> table[k] == Some(p)
    ensures forall k :: 0 <= k < dimSize && table[k].Some? ==> IsFirst(keys, k, table[k].value)
    ensures forall k :: 0 <= k < dimSize && k !in keys ==> table[k] == None
  {
    forall k, p: nat | 0 <= k < dimSize && IsFirst(keys, k, p)
      ensures table[k] == Some(p)
    {
      assert k in keys by {
        assert keys[p] == k;
      }
      FirstIsUnique(keys, k, p, table[k].value);
    }
  }

  // ---------------------------------------------------------------------
  // Properties of the link
  // ---------------------------------------------------------------------

  /** With the documented shapes (one row of `x` per S1 nonzero, every S2
      row key inside S1's column range) the link always succeeds, and it has
      one row per distinct index pair of S2. */
  lemma LinkSucceedsOnDocumentedShapes(x: Matrix, s1: Relation, s2: Relation)
    requires x.Valid() && s1.WellFormed() && s2.WellFormed()
    requires |x.rows| >= |CoalesceRelation(s1).entries|
    requires forall e :: e in s2.entries ==> e.row < s1.cols
    ensures CastDenseBySparseLink(x, s1, s2).Success?
    ensures |CastDenseBySparseLink(x, s1, s2).value.rows| == |KeySet(s2.entries)|
  {
    var c2 := CoalesceRelation(s2).entries;
    forall t | 0 <= t < |c2|
      ensures TargetKeys(s2)[t] < s1.cols
    {
      assert KeyOf(c2[t]) in KeySet(c2);
    }
    CanonicalCardinality(c2);
  }

  /** The link reads only S1's coalesced column keys and S2's coalesced row
      keys: relations agreeing on those give the same result. */
  lemma LinkDependsOnlyOnLinkKeys(x: Matrix, s1: Relation, s1': Relation, s2: Relation, s2': Relation)
    requires x.Valid() && s1.WellFormed() && s2.WellFormed() && s1'.WellFormed() && s2'.WellFormed()
    requires s1.cols == s1'.cols
    requires SourceKeys(s1) == SourceKeys(s1') && TargetKeys(s2) == TargetKeys(s2')
    ensures CastDenseBySparseLink(x, s1, s2) == CastDenseBySparseLink(x, s1', s2')
  {
  }

  /** Changing only the values of S1 and S2 (same index pairs in the same
      storage order) leaves the link unchanged. */
  lemma LinkIgnoresValues(x: Matrix, s1: Relation, s1': Relation, s2: Relation, s2': Relation)
    requires x.Valid() && s1.WellFormed() && s2.WellFormed() && s1'.WellFormed() && s2'.WellFormed()
    requires s1.cols == s1'.cols
    requires Keys(s1.entries) == Keys(s1'.entries) && Keys(s2.entries) == Keys(s2'.entries)
    ensures CastDenseBySparseLink(x, s1, s2) == CastDenseBySparseLink(x, s1', s2')
  {
    CoalesceKeysIgnoreValues(s1.entries, s1'.entries);
    CoalesceKeysIgnoreValues(s2.entries, s2'.entries);
    var c1, c1' := Coalesce(s1.entries), Coalesce(s1'.entries);
    var c2, c2' := Coalesce(s2.entries), Coalesce(s2'.entries);
    assert forall p :: 0 <= p < |c1| ==> c1[p].col == Keys(c1)[p].1 == Keys(c1')[p].1 == c1'[p].col;
    assert forall p :: 0 <= p < |c2| ==> c2[p].row == Keys(c2)[p].0 == Keys(c2')[p].0 == c2'[p].row;
    assert SourceKeys(s1) == SourceKeys(s1');
    assert TargetKeys(s2) == TargetKeys(s2');
  }

  /** The storage order of the nonzeros of S1 and S2 before coalescing does
      not matter. */
  lemma LinkIgnoresStorageOrder(x: Matrix, s1: Relation, s1': Relation, s2: Relation, s2': Relation)
    requires x.Valid() && s1.WellFormed() && s2.WellFormed() && s1'.WellFormed() && s2'.WellFormed()
    requires s1.cols == s1'.cols
    requires multiset(s1.entries) == multiset(s1'.entries)
    requires multiset(s2.entries) == multiset(s2'.entries)
    ensures CastDenseBySparseLink(x, s1, s2) == CastDenseBySparseLink(x, s1', s2')
  {
    CoalescePermutationInvariant(s1.entries, s1'.entries);
    CoalescePermutationInvariant(s2.entries, s2'.entries);
    assert SourceKeys(s1) == SourceKeys(s1');
    assert TargetKeys(s2) == TargetKeys(s2');
  }
  /** A fixture for the tie-break: two S1 nonzeros share key 0 and carry the
      rows 7 and 9; every S2 nonzero with row key 0 receives 7, the row of the
      first one in coalesced order (not 9, and not the average 8), and the S2
      nonzero with row key 1, which no S1 nonzero holds, receives zero. */
  lemma FirstOccurrenceWinsExample()
    ensures CastDenseBySparseLink(
              Matrix(1, [[7.0], [9.0]]),
              Relation(2, 2, [Entry(1, 0, 1.0), Entry(0, 0, 1.0)]),
              Relation(2, 2, [Entry(1, 1, 5.0), Entry(0, 1, 5.0)]))
            == Success(Matrix(1, [[7.0], [0.0]]))
  {
    var x := Matrix(1, [[7.0], [9.0]]);
    var s1 := Relation(2, 2, [Entry(1, 0, 1.0), Entry(0, 0, 1.0)]);
    var s2 := Relation(2, 2, [Entry(1, 1, 5.0), Entry(0, 1, 5.0)]);
    ExampleKeys();
    var keys1 := SourceKeys(s1);
    assert IsFirst(keys1, 0, 0) by {
      assert keys1[..0] == [];
    }
    assert 1 !in keys1;
    var r := CastDenseBySparseLink(x, s1, s2);
    assert r.Success?;
    assert r.value.rows[0] == [7.0];
    assert r.value.rows[1] == Zeros(1) == [0.0];
    assert r.value.rows == [[7.0], [0.0]];
  }

  /** The linking keys of the fixture above. */
  lemma ExampleKeys()
    ensures SourceKeys(Relation(2, 2, [Entry(1, 0, 1.0), Entry(0, 0, 1.0)])) == [0, 0]
    ensures TargetKeys(Relation(2, 2, [Entry(1, 1, 5.0), Entry(0, 1, 5.0)])) == [0, 1]
  {
    var e1: seq<Entry> := [Entry(1, 0, 1.0), Entry(0, 0, 1.0)];
    var e2: seq<Entry> := [Entry(1, 1, 5.0), Entry(0, 1, 5.0)];
    assert Coalesce(e1[1..]) == [Entry(0, 0, 1.0)];
    assert Coalesce(e1) == [Entry(0, 0, 1.0), Entry(1, 0, 1.0)];
    assert Coalesce(e2[1..]) == [Entry(0, 1, 5.0)];
    assert Coalesce(e2) == [Entry(0, 1, 5.0), Entry(1, 1, 5.0)];
  }
  // ---------------------------------------------------------------------
  // The sentinel test as written, under torch_scatter 2.x
  // ---------------------------------------------------------------------

  /** `mapping_out` as the code computes it when `scatter_min` follows the
      torch_scatter 2.x convention: a key that no position holds gets
      `out = 0` and `argmin = nnz`, so the test `argmin == -1` marks nothing
      and the slot keeps 0. */
  function MappingAsWritten(keys: seq<nat>, dimSize: nat): (mapping: seq<nat>)
    requires forall p :: 0 <= p < |keys| ==> keys[p] < dimSize
    ensures |mapping| == dimSize
    ensures forall k :: 0 <= k < dimSize && k !in keys ==> mapping[k] == 0
    ensures forall k, p: nat :: 0 <= k < dimSize && IsFirst(keys, k, p) ==> mapping[k] == p
  {
    var table := FirstOccurrence(keys, dimSize);
    LinkTableFacts(keys, dimSize, table);
    seq(dimSize, k requires 0 <= k < dimSize => if table[k].Some? then table[k].value else 0)
  }

  /** `mapping_out[keys_S2]` as written: no entry equals -1, so every one is
      a position to gather. */
  function LookupAsWritten(mapping: seq<nat>, keys: seq<nat>): (mapped: seq<Option<nat>>)
    requires AllBelow(keys, |mapping|)
    ensures |mapped| == |keys|
    ensures forall t :: 0 <= t < |keys| ==> mapped[t] == Some(mapping[keys[t]])
  {
    seq(|keys|, t requires 0 <= t < |keys| => Some(mapping[keys[t]]))
  }

  /** `cast_dense_by_sparse_link` as written, with that `scatter_min`: every
      mapped index differs from -1, so every S2 nonzero gathers a row of `x`;
      one whose key is absent from S1 gathers row 0. */
  function CastDenseAsWritten(x: Matrix, s1: Relation, s2: Relation): (r: Result<Matrix, ShapeError>)
    requires x.Valid() && s1.WellFormed() && s2.WellFormed()
    ensures r.Success? <==>
              AllBelow(TargetKeys(s2), s1.cols) &&
              forall t :: 0 <= t < |TargetKeys(s2)| ==>
                MappingAsWritten(SourceKeys(s1), s1.cols)[TargetKeys(s2)[t]] < |x.rows|
    ensures r.Success? ==>
              r.value.Valid() && r.value.width == x.width && |r.value.rows| == |TargetKeys(s2)|
    ensures r.Success? ==>
              forall t, p: nat :: 0 <= t < |TargetKeys(s2)| && IsFirst(SourceKeys(s1), TargetKeys(s2)[t], p) ==>
                r.value.rows[t] == x.rows[p]
    ensures r.Success? ==>
              forall t :: 0 <= t < |TargetKeys(s2)| && TargetKeys(s2)[t] !in SourceKeys(s1) ==>
                0 < |x.rows| && r.value.rows[t] == x.rows[0]
  {
    var keys1 := SourceKeys(s1);
    var keys2 := TargetKeys(s2);
    if !AllBelow(keys2, s1.cols) then
      Failure(IndexOutOfRange)
    else
      var mapping := MappingAsWritten(keys1, s1.cols);
      var mapped := LookupAsWritten(mapping, keys2);
      assert Gatherable(mapped, |x.rows|) <==>
             forall t :: 0 <= t < |keys2| ==> mapping[keys2[t]] < |x.rows|;
      if !Gatherable(mapped, |x.rows|) then
        Failure(IndexOutOfRange)
      else
        assert forall t :: 0 <= t < |keys2| && keys2[t] !in keys1 ==> mapped[t] == Some(0);
        assert forall t, p: nat :: 0 <= t < |keys2| && IsFirst(keys1, keys2[t], p) ==> mapped[t] == Some(p);
        Success(Matrix(x.width, GatherRows(x, mapped)))
  }

  /** The two readings agree whenever every S2 key occurs in S1. */
  lemma AsWrittenAgreesOnPresentKeys(x: Matrix, s1: Relation, s2: Relation)
    requires x.Valid() && s1.WellFormed() && s2.WellFormed()
    requires forall t :: 0 <= t < |TargetKeys(s2)| ==> TargetKeys(s2)[t] in SourceKeys(s1)
    ensures CastDenseAsWritten(x, s1, s2) == CastDenseBySparseLink(x, s1, s2)
  {
    var keys1 := SourceKeys(s1);
    var keys2 := TargetKeys(s2);
    if AllBelow(keys2, s1.cols) {
      var table := FirstOccurrence(keys1, s1.cols);
      var mapping := MappingAsWritten(keys1, s1.cols);
      var m1 := seq(|keys2|, t requires 0 <= t < |keys2| => Some(mapping[keys2[t]]));
      var m2 := Lookup(table, keys2);
      forall t | 0 <= t < |keys2|
        ensures m1[t] == m2[t]
      {
        assert keys2[t] in keys1;
      }
      assert m1 == m2;
    }
  }

  /** The input that shows the discrepancy: S1 holds key 0 only, the S2
      nonzero looks up key 1. The contract gives a zero row; the code as
      written, with the torch_scatter 2.x `scatter_min`, copies `x[0]`. */
  lemma AbsentKeyCounterexample()
    ensures CastDenseAsWritten(Matrix(1, [[7.0]]), Relation(1, 2, [Entry(0, 0, 1.0)]),
                               Relation(2, 2, [Entry(1, 0, 1.0)]))
            == Success(Matrix(1, [[7.0]]))
    ensures CastDenseBySparseLink(Matrix(1, [[7.0]]), Relation(1, 2, [Entry(0, 0, 1.0)]),
                                  Relation(2, 2, [Entry(1, 0, 1.0)]))
            == Success(Matrix(1, [[0.0]]))
  {
    var x := Matrix(1, [[7.0]]);
    var s1 := Relation(1, 2, [Entry(0, 0, 1.0)]);
    var s2 := Relation(2, 2, [Entry(1, 0, 1.0)]);
    assert Coalesce(s1.entries) == s1.entries;
    assert Coalesce(s2.entries) == s2.entries;
    assert SourceKeys(s1) == [0];
    assert TargetKeys(s2) == [1];
    var a := CastDenseAsWritten(x, s1, s2);
    assert a.Success?;
    assert a.value.rows == [[7.0]];
    var b := CastDenseBySparseLink(x, s1, s2);
    assert b.Success?;
    assert b.value.rows[0] == Zeros(1) == [0.0];
    assert b.value.rows == [[0.0]];
  }
}
