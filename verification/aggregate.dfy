/** Mean aggregation of per-nonzero rows by an index: `scatter_mean` in
    `intra_neighborhood_agg`, and the index_add / count / clamp tail of
    `weighted_distance_difference`. Both divide the sum of the rows sent to
    an index by the number of rows sent there, clamped below at 1, so an
    index that receives nothing gets a zero row. */
module Aggregate {
  import opened Dense
  import opened Sparse
  import opened Multisets

  /** Number of positions of `index` holding `i`. */
  function CountFor(index: seq<nat>, i: nat): nat {
    if |index| == 0 then 0
    else CountFor(index[..|index| - 1], i) + (if index[|index| - 1] == i then 1 else 0)
  }

  /** Sum of the rows of `vals` at the positions where `index` holds `i`. */
  function SumRowsFor(index: seq<nat>, vals: seq<Row>, i: nat, w: nat): (r: Row)
    requires |index| == |vals| && RowsOfWidth(vals, w)
    ensures |r| == w
  {
    if |index| == 0 then Zeros(w)
    else
      var n := |index| - 1;
      var s := SumRowsFor(index[..n], vals[..n], i, w);
      if index[n] == i then Add(s, vals[n]) else s
  }

  /** `clamp(min=1)` on a count. */
  function ClampMin1(c: nat): (r: nat)
    ensures r >= 1
  {
    if c < 1 then 1 else c
  }

  /** The mean of the rows sent to `i`: sum divided by the clamped count. */
  function MeanFor(index: seq<nat>, vals: seq<Row>, i: nat, w: nat): (r: Row)
    requires |index| == |vals| && RowsOfWidth(vals, w)
    ensures |r| == w
  {
    Scale(1.0 / (ClampMin1(CountFor(index, i)) as real), SumRowsFor(index, vals, i, w))
  }

  /** Every index names one of the `n` output rows; torch raises otherwise. */
  predicate IndicesBelow(index: seq<nat>, n: nat) {
    forall p :: 0 <= p < |index| ==> index[p] < n
  }

  /** `scatter_mean(vals, index, dim=0, dim_size=n)`: `n` rows of width `w`;
      row `i` is zero when no position holds `i`, and otherwise the row that
      multiplied by the number of positions holding `i` gives their sum. */
  function ScatterMean(index: seq<nat>, vals: seq<Row>, n: nat, w: nat): (r: seq<Row>)
    requires |index| == |vals| && RowsOfWidth(vals, w)
    requires IndicesBelow(index, n)
    ensures |r| == n && RowsOfWidth(r, w)
    ensures forall i :: 0 <= i < n && i !in index ==> r[i] == Zeros(w)
    ensures forall i :: 0 <= i < n && i in index ==>
              Scale(CountFor(index, i) as real, r[i]) == SumRowsFor(index, vals, i, w)
  {
    MeanProperties(index, vals, n, w);
    seq(n, i requires 0 <= i < n => MeanFor(index, vals, i, w))
  }

  // ---------------------------------------------------------------------
  // Counting and summing by index
  // ---------------------------------------------------------------------

  /** The count is zero exactly when the index never holds `i`. */
  lemma {:induction false} CountZeroIffAbsent(index: seq<nat>, i: nat)
    ensures CountFor(index, i) == 0 <==> i !in index
    decreases |index|
  {
    if |index| > 0 {
      var n := |index| - 1;
      CountZeroIffAbsent(index[..n], i);
      assert index == index[..n] + [index[n]];
    }
  }

  /** `counts[i]` is the number of positions whose index is `i`. */
  lemma {:induction false} CountIsCardinality(index: seq<nat>, i: nat)
    ensures CountFor(index, i) == |set p | 0 <= p < |index| && index[p] == i|
    decreases |index|
  {
    if |index| > 0 {
      var n := |index| - 1;
      CountIsCardinality(index[..n], i);
      var before := set p | 0 <= p < n && index[..n][p] == i;
      var all := set p | 0 <= p < |index| && index[p] == i;
      if index[n] == i {
        assert all == before + {n};
      } else {
        assert all == before;
      }
    }
  }

  /** Nothing is sent to an index that never occurs. */
  lemma {:induction false} SumOfAbsentIndex(index: seq<nat>, vals: seq<Row>, i: nat, w: nat)
    requires |index| == |vals| && RowsOfWidth(vals, w)
    requires i !in index
    ensures SumRowsFor(index, vals, i, w) == Zeros(w)
    decreases |index|
  {
    if |index| > 0 {
      var n := |index| - 1;
      assert index[n] in index;
      assert forall k :: k in index[..n] ==> k in index;
      SumOfAbsentIndex(index[..n], vals[..n], i, w);
    }
  }

  lemma ScaleByInverse(c: real, v: Row)
    requires c > 0.0
    ensures Scale(c, Scale(1.0 / c, v)) == v
  {
    var u := Scale(1.0 / c, v);
    var r := Scale(c, u);
    assert c * (1.0 / c) == 1.0;
    forall j | 0 <= j < |v|
      ensures r[j] == v[j]
    {
      calc {
        r[j];
        c * u[j];
        c * ((1.0 / c) * v[j]);
        (c * (1.0 / c)) * v[j];
        v[j];
      }
    }
    assert r == v;
  }

  lemma MeanProperties(index: seq<nat>, vals: seq<Row>, n: nat, w: nat)
    requires |index| == |vals| && RowsOfWidth(vals, w)
    ensures forall i :: 0 <= i < n && i !in index ==> MeanFor(index, vals, i, w) == Zeros(w)
    ensures forall i :: 0 <= i < n && i in index ==>
              Scale(CountFor(index, i) as real, MeanFor(index, vals, i, w)) == SumRowsFor(index, vals, i, w)
  {
    forall i | 0 <= i < n
      ensures i !in index ==> MeanFor(index, vals, i, w) == Zeros(w)
      ensures i in index ==>
                Scale(CountFor(index, i) as real, MeanFor(index, vals, i, w)) == SumRowsFor(index, vals, i, w)
    {
      CountZeroIffAbsent(index, i);
      if i !in index {
        SumOfAbsentIndex(index, vals, i, w);
      } else {
        ScaleByInverse(CountFor(index, i) as real, SumRowsFor(index, vals, i, w));
      }
    }
  }
  /** The tail of the mean is its scale factor: if every row sent to `i`
      equals `v`, the mean at `i` is `v`. */
  lemma {:induction false} SumOfConstantRows(index: seq<nat>, vals: seq<Row>, i: nat, v: Row)
    requires |index| == |vals| && RowsOfWidth(vals, |v|)
    requires forall p :: 0 <= p < |index| && index[p] == i ==> vals[p] == v
    ensures SumRowsFor(index, vals, i, |v|) == Scale(CountFor(index, i) as real, v)
    decreases |index|
  {
    if |index| > 0 {
      var n := |index| - 1;
      SumOfConstantRows(index[..n], vals[..n], i, v);
      var c := CountFor(index[..n], i) as real;
      if index[n] == i {
        var l, r := Add(Scale(c, v), v), Scale(c + 1.0, v);
        assert forall j :: 0 <= j < |v| ==> l[j] == c * v[j] + v[j] == (c + 1.0) * v[j] == r[j];
        assert l == r;
      }
    }
  }

  lemma MeanOfConstantRows(index: seq<nat>, vals: seq<Row>, n: nat, i: nat, v: Row)
    requires |index| == |vals| && RowsOfWidth(vals, |v|)
    requires IndicesBelow(index, n) && i < n && i in index
    requires forall p :: 0 <= p < |index| && index[p] == i ==> vals[p] == v
    ensures ScatterMean(index, vals, n, |v|)[i] == v
  {
    SumOfConstantRows(index, vals, i, v);
    CountZeroIffAbsent(index, i);
    var c := CountFor(index, i) as real;
    var r := ScatterMean(index, vals, n, |v|)[i];
    assert r == Scale(1.0 / c, Scale(c, v));
    assert (1.0 / c) * c == 1.0;
    forall j | 0 <= j < |v|
      ensures r[j] == v[j]
    {
      calc {
        r[j];
        (1.0 / c) * (c * v[j]);
        ((1.0 / c) * c) * v[j];
        v[j];
      }
    }
  }

  // ---------------------------------------------------------------------
  // Permutation invariance
  // ---------------------------------------------------------------------

  /** The (index, row) pairs that a scatter consumes. */
  function Zip(index: seq<nat>, vals: seq<Row>): (z: seq<(nat, Row)>)
    requires |index| == |vals|
    ensures |z| == |index|
    ensures forall p :: 0 <= p < |index| ==> z[p] == (index[p], vals[p])
  {
    seq(|index|, p requires 0 <= p < |index| => (index[p], vals[p]))
  }

  lemma {:induction false} AggregateOfConcat(i1: seq<nat>, v1: seq<Row>, i2: seq<nat>, v2: seq<Row>, i: nat, w: nat)
    requires |i1| == |v1| && |i2| == |v2| && RowsOfWidth(v1, w) && RowsOfWidth(v2, w)
    ensures CountFor(i1 + i2, i) == CountFor(i1, i) + CountFor(i2, i)
    ensures SumRowsFor(i1 + i2, v1 + v2, i, w) == Add(SumRowsFor(i1, v1, i, w), SumRowsFor(i2, v2, i, w))
    decreases |i2|
  {
    var s1 := SumRowsFor(i1, v1, i, w);
    if |i2| == 0 {
      assert i1 + i2 == i1;
      assert v1 + v2 == v1;
      assert Add(s1, Zeros(w)) == s1;
    } else {
      var n := |i2| - 1;
      AggregateOfConcat(i1, v1, i2[..n], v2[..n], i, w);
      assert (i1 + i2)[..|i1| + n] == i1 + i2[..n];
      assert (v1 + v2)[..|i1| + n] == v1 + v2[..n];
      if i2[n] == i {
        AddAssociates(s1, SumRowsFor(i2[..n], v2[..n], i, w), v2[n]);
      }
    }
  }

  /** Taking out position `j` takes out exactly its contribution. */
  lemma AggregateRemoveAt(index: seq<nat>, vals: seq<Row>, j: nat, i: nat, w: nat)
    requires |index| == |vals| && RowsOfWidth(vals, w) && j < |index|
    ensures CountFor(index, i) == (if index[j] == i then 1 else 0) + CountFor(RemoveAt(index, j), i)
    ensures SumRowsFor(index, vals, i, w) ==
            Add(if index[j] == i then vals[j] else Zeros(w),
                SumRowsFor(RemoveAt(index, j), RemoveAt(vals, j), i, w))
  {
    var a, b := index[..j], index[j + 1..];
    var va, vb := vals[..j], vals[j + 1..];
    assert index == a + ([index[j]] + b);
    assert vals == va + ([vals[j]] + vb);
    AggregateOfConcat(a, va, [index[j]] + b, [vals[j]] + vb, i, w);
    AggregateOfConcat([index[j]], [vals[j]], b, vb, i, w);
    AggregateOfConcat(a, va, b, vb, i, w);
    assert [index[j]][..0] == [];
    var sa, sb := SumRowsFor(a, va, i, w), SumRowsFor(b, vb, i, w);
    var h := if index[j] == i then vals[j] else Zeros(w);
    assert SumRowsFor([index[j]], [vals[j]], i, w) == h by {
      AddZerosLeft(vals[j]);
    }
    AddAssociates(sa, h, sb);
    AddCommutes(sa, h);
    AddAssociates(h, sa, sb);
  }

  lemma ZipRemoveAt(index: seq<nat>, vals: seq<Row>, j: nat)
    requires |index| == |vals| && j < |index|
    ensures RemoveAt(Zip(index, vals), j) == Zip(RemoveAt(index, j), RemoveAt(vals, j))
  {
  }

  /** Counts and sums by index depend only on the multiset of (index, row)
      pairs, not on the order in which they are stored. */
  lemma {:induction false} AggregatePermutationInvariant(index: seq<nat>, vals: seq<Row>,
                                                         index': seq<nat>, vals': seq<Row>, i: nat, w: nat)
    requires |index| == |vals| && RowsOfWidth(vals, w)
    requires |index'| == |vals'| && RowsOfWidth(vals', w)
    requires multiset(Zip(index, vals)) == multiset(Zip(index', vals'))
    ensures CountFor(index, i) == CountFor(index', i)
    ensures SumRowsFor(index, vals, i, w) == SumRowsFor(index', vals', i, w)
    decreases |index|
  {
    var z, z' := Zip(index, vals), Zip(index', vals');
    if |index| == 0 {
      assert |multiset(z')| == 0;
    } else {
      var n := |index| - 1;
      var j := MatchAndRemove(z, z', n);
      ZipRemoveAt(index, vals, n);
      ZipRemoveAt(index', vals', j);
      assert RemoveAt(index, n) == index[..n] && RemoveAt(vals, n) == vals[..n];
      var ri, rv := RemoveAt(index', j), RemoveAt(vals', j);
      AggregatePermutationInvariant(index[..n], vals[..n], ri, rv, i, w);
      AggregateRemoveAt(index, vals, n, i, w);
      AggregateRemoveAt(index', vals', j, i, w);
    }
  }

  /** `scatter_mean` is a permutation-invariant reducer. */
  lemma ScatterMeanPermutationInvariant(index: seq<nat>, vals: seq<Row>,
                                        index': seq<nat>, vals': seq<Row>, n: nat, w: nat)
    requires |index| == |vals| && RowsOfWidth(vals, w)
    requires |index'| == |vals'| && RowsOfWidth(vals', w)
    requires IndicesBelow(index, n)
    requires multiset(Zip(index, vals)) == multiset(Zip(index', vals'))
    ensures IndicesBelow(index', n)
    ensures ScatterMean(index, vals, n, w) == ScatterMean(index', vals', n, w)
  {
    forall p | 0 <= p < |index'|
      ensures index'[p] < n
    {
      var z, z' := Zip(index, vals), Zip(index', vals');
      assert z'[p] in multiset(z);
      var q :| 0 <= q < |z| && z[q] == z'[p];
    }
    forall i | 0 <= i < n
      ensures ScatterMean(index, vals, n, w)[i] == ScatterMean(index', vals', n, w)[i]
    {
      AggregatePermutationInvariant(index, vals, index', vals', i, w);
    }
  }
  // ---------------------------------------------------------------------
  // intra_neighborhood_agg
  // ---------------------------------------------------------------------

  /** `intra_neighborhood_agg(M, msgs)`: `msgs` holds one row per coalesced
      nonzero of M; the result has one row per row index of M, the mean of
      the messages of the nonzeros in that row, or zero for an empty row. */
  function IntraNeighborhoodAgg(m: Relation, msgs: Matrix): (r: Matrix)
    requires m.WellFormed() && msgs.Valid()
    requires |msgs.rows| == |CoalesceRelation(m).entries|
    ensures r.Valid() && r.width == msgs.width && |r.rows| == m.rows
    ensures forall i :: 0 <= i < m.rows && i !in RowKeys(CoalesceRelation(m).entries) ==>
              r.rows[i] == Zeros(msgs.width)
    ensures forall i :: 0 <= i < m.rows && i in RowKeys(CoalesceRelation(m).entries) ==>
              Scale(CountFor(RowKeys(CoalesceRelation(m).entries), i) as real, r.rows[i]) ==
              SumRowsFor(RowKeys(CoalesceRelation(m).entries), msgs.rows, i, msgs.width)
  {
    var c := CoalesceRelation(m).entries;
    assert forall p :: 0 <= p < |c| ==> c[p] in c;
    Matrix(msgs.width, ScatterMean(RowKeys(CoalesceRelation(m).entries), msgs.rows, m.rows, msgs.width))
  }

  /** A node with no nonzero in its row of M (a degenerate neighbourhood)
      gets exactly the zero summary. */
  lemma IsolatedNodeGetsZero(m: Relation, msgs: Matrix, i: nat)
    requires m.WellFormed() && msgs.Valid()
    requires |msgs.rows| == |CoalesceRelation(m).entries|
    requires i < m.rows && forall e :: e in m.entries ==> e.row != i
    ensures IntraNeighborhoodAgg(m, msgs).rows[i] == Zeros(msgs.width)
  {
    var c := CoalesceRelation(m).entries;
    forall p | 0 <= p < |c|
      ensures RowKeys(c)[p] != i
    {
      assert KeyOf(c[p]) in KeySet(m.entries);
    }
  }

  /** A fixture with 3 nodes: node 0 has neighbours 1 and 2 with messages
      2 and 4, node 1 has neighbour 0 with message 6, node 2 has none. The
      summaries are the hand-computed means 3 and 6, and zero for node 2. */
  lemma IntraNeighborhoodAggExample()
    ensures IntraNeighborhoodAgg(
              Relation(3, 3, [Entry(0, 1, 1.0), Entry(0, 2, 1.0), Entry(1, 0, 1.0)]),
              Matrix(1, [[2.0], [4.0], [6.0]])).rows
            == [[3.0], [6.0], [0.0]]
  {
    var m := Relation(3, 3, [Entry(0, 1, 1.0), Entry(0, 2, 1.0), Entry(1, 0, 1.0)]);
    var msgs := Matrix(1, [[2.0], [4.0], [6.0]]);
    assert Canonical(m.entries);
    CoalesceOfCanonical(m.entries);
    assert RowKeys(CoalesceRelation(m).entries) == [0, 0, 1];
    ScatterMeanExample();
  }

  lemma ScatterMeanExample()
    ensures ScatterMean([0, 0, 1], [[2.0], [4.0], [6.0]], 3, 1) == [[3.0], [6.0], [0.0]]
  {
    var keys: seq<nat> := [0, 0, 1];
    var vals: seq<Row> := [[2.0], [4.0], [6.0]];
    var k2, v2 := keys[..2], vals[..2];
    var k1, v1 := k2[..1], v2[..1];
    assert k2 == [0, 0] && k1 == [0] && k1[..0] == [];
    assert v2 == [[2.0], [4.0]] && v1 == [[2.0]] && v1[..0] == [];
    forall i: nat
      ensures CountFor(keys, i) == (if i == 0 then 2 else if i == 1 then 1 else 0)
      ensures SumRowsFor(keys, vals, i, 1) == (if i <= 1 then [6.0] else [0.0])
    {
      assert CountFor(k1, i) == (if i == 0 then 1 else 0);
      assert CountFor(k2, i) == (if i == 0 then 2 else 0);
      assert SumRowsFor(k1, v1, i, 1) == (if i == 0 then [2.0] else [0.0]);
      assert SumRowsFor(k2, v2, i, 1) == (if i == 0 then [6.0] else [0.0]);
    }
    var r := ScatterMean(keys, vals, 3, 1);
    assert r[0] == Scale(1.0 / 2.0, [6.0]) == [3.0];
    assert r[1] == Scale(1.0 / 1.0, [6.0]) == [6.0];
    assert r[2] == Scale(1.0 / 1.0, [0.0]) == [0.0];
  }

  // ---------------------------------------------------------------------
  // index_add and counting, as loops
  // ---------------------------------------------------------------------

  /** `zeros(n, w).index_add(0, index, src)`. */
  method IndexAdd(n: nat, index: seq<nat>, src: seq<Row>, w: nat) returns (out: seq<Row>)
    requires |index| == |src| && RowsOfWidth(src, w)
    requires forall p :: 0 <= p < |index| ==> index[p] < n
    ensures |out| == n
    ensures forall i :: 0 <= i < n ==> out[i] == SumRowsFor(index, src, i, w)
  {
    out := seq(n, _ => Zeros(w));
    var p := 0;
    while p < |index|
      invariant 0 <= p <= |index|
      invariant |out| == n
      invariant forall i :: 0 <= i < n ==> out[i] == SumRowsFor(index[..p], src[..p], i, w)
    {
      assert index[..p + 1][..p] == index[..p];
      assert src[..p + 1][..p] == src[..p];
      out := out[index[p] := Add(out[index[p]], src[p])];
      p := p + 1;
    }
    assert index[..p] == index && src[..p] == src;
  }

  /** `zeros(n).index_add(0, index, ones)`: how many positions hold each
      index. */
  method IndexCount(n: nat, index: seq<nat>) returns (counts: seq<nat>)
    requires forall p :: 0 <= p < |index| ==> index[p] < n
    ensures |counts| == n
    ensures forall i :: 0 <= i < n ==> counts[i] == CountFor(index, i)
  {
    counts := seq(n, _ => 0);
    var p := 0;
    while p < |index|
      invariant 0 <= p <= |index|
      invariant |counts| == n
      invariant forall i :: 0 <= i < n ==> counts[i] == CountFor(index[..p], i)
    {
      assert index[..p + 1][..p] == index[..p];
      counts := counts[index[p] := counts[index[p]] + 1];
      p := p + 1;
    }
    assert index[..p] == index;
  }
}
