/** Sparse COO relations and their canonical (coalesced) form.

    A relation stores its nonzeros as (row, col, value) triples in storage
    order; duplicates of one index pair are allowed until the relation is
    coalesced. Coalescing sorts the index pairs lexicographically (row first,
    then column) and replaces every group of duplicates by one entry holding
    the sum of their values. Entries whose summed value is zero are kept.
 */
module Sparse {
  import opened Multisets

  /** One stored nonzero: its index pair and its value. */
  datatype Entry = Entry(row: nat, col: nat, val: real)

  type Key = (nat, nat)

  /** A sparse tensor of shape [rows, cols] with its stored entries. */
  datatype Relation = Relation(rows: nat, cols: nat, entries: seq<Entry>) {
    /** Every stored index lies inside the shape. */
    predicate WellFormed() {
      forall e :: e in entries ==> e.row < rows && e.col < cols
    }
  }

  function KeyOf(e: Entry): Key {
    (e.row, e.col)
  }

  /** Strict lexicographic order on index pairs. */
  predicate KeyLess(a: Key, b: Key) {
    a.0 < b.0 || (a.0 == b.0 && a.1 < b.1)
  }

  predicate Before(a: Entry, b: Entry) {
    KeyLess(KeyOf(a), KeyOf(b))
  }

  /** Index pairs strictly increasing, hence also free of duplicates. */
  predicate Canonical(s: seq<Entry>) {
    forall i, j :: 0 <= i < j < |s| ==> Before(s[i], s[j])
  }

  /** The set of index pairs stored in `s`. */
  function KeySet(s: seq<Entry>): set<Key> {
    set e | e in s :: KeyOf(e)
  }

  /** The index pairs of `s` in storage order. */
  function Keys(s: seq<Entry>): (ks: seq<Key>)
    ensures |ks| == |s|
    ensures forall p :: 0 <= p < |s| ==> ks[p] == KeyOf(s[p])
  {
    seq(|s|, p requires 0 <= p < |s| => KeyOf(s[p]))
  }

  /** The row indices of `s` in storage order (`indices()[0]`). */
  function RowKeys(s: seq<Entry>): (ks: seq<nat>)
    ensures |ks| == |s|
    ensures forall p :: 0 <= p < |s| ==> ks[p] == s[p].row
  {
    seq(|s|, p requires 0 <= p < |s| => s[p].row)
  }

  /** The column indices of `s` in storage order (`indices()[1]`). */
  function ColKeys(s: seq<Entry>): (ks: seq<nat>)
    ensures |ks| == |s|
    ensures forall p :: 0 <= p < |s| ==> ks[p] == s[p].col
  {
    seq(|s|, p requires 0 <= p < |s| => s[p].col)
  }

  /** Total value stored under index pair `k`, over all its duplicates. */
  function SumFor(s: seq<Entry>, k: Key): real {
    if |s| == 0 then 0.0
    else (if KeyOf(s[0]) == k then s[0].val else 0.0) + SumFor(s[1..], k)
  }

  /** Adds one entry to a canonical sequence: merged into the entry with the
      same index pair if there is one, otherwise placed in order. */
  function Insert(s: seq<Entry>, e: Entry): seq<Entry> {
    if |s| == 0 then [e]
    else if KeyOf(s[0]) == KeyOf(e) then [s[0].(val := s[0].val + e.val)] + s[1..]
    else if Before(e, s[0]) then [e] + s
    else [s[0]] + Insert(s[1..], e)
  }

  /** `coalesce()` on the stored entries: sorted, duplicates summed, and no
      index pair gained or lost. */
  function Coalesce(s: seq<Entry>): (r: seq<Entry>)
    ensures Canonical(r)
    ensures KeySet(r) == KeySet(s)
  {
    if |s| == 0 then []
    else
      var rest := Coalesce(s[1..]);
      InsertCanonical(rest, s[0]);
      InsertKeySet(rest, s[0]);
      assert s == [s[0]] + s[1..];
      Insert(rest, s[0])
  }

  /** `coalesce()` on a relation: same shape, canonical entries, and each
      entry's value the total of the duplicates it replaces. */
  function CoalesceRelation(m: Relation): (r: Relation)
    requires m.WellFormed()
    ensures r.rows == m.rows && r.cols == m.cols
    ensures r.WellFormed()
    ensures Canonical(r.entries) && KeySet(r.entries) == KeySet(m.entries)
    ensures forall p :: 0 <= p < |r.entries| ==>
              r.entries[p].val == SumFor(m.entries, KeyOf(r.entries[p]))
  {
    var c := Coalesce(m.entries);
    CoalesceValues(m.entries);
    assert forall e :: e in c ==> KeyOf(e) in KeySet(m.entries);
    Relation(m.rows, m.cols, c)
  }

  // ---------------------------------------------------------------------
  // Lemmas about insertion
  // ---------------------------------------------------------------------

  lemma {:induction false} InsertKeySet(s: seq<Entry>, e: Entry)
    ensures KeySet(Insert(s, e)) == KeySet(s) + {KeyOf(e)}
    decreases |s|
  {
    if |s| == 0 {
    } else if KeyOf(s[0]) == KeyOf(e) {
      assert s == [s[0]] + s[1..];
      assert KeySet(s) == {KeyOf(s[0])} + KeySet(s[1..]);
      var m := s[0].(val := s[0].val + e.val);
      assert Insert(s, e) == [m] + s[1..];
      assert KeySet([m] + s[1..]) == {KeyOf(m)} + KeySet(s[1..]);
    } else if Before(e, s[0]) {
    } else {
      InsertKeySet(s[1..], e);
      assert s == [s[0]] + s[1..];
      assert KeySet(s) == {KeyOf(s[0])} + KeySet(s[1..]);
      assert KeySet(Insert(s, e)) == {KeyOf(s[0])} + KeySet(Insert(s[1..], e));
    }
  }

  lemma {:induction false} InsertCanonical(s: seq<Entry>, e: Entry)
    requires Canonical(s)
    ensures Canonical(Insert(s, e))
    decreases |s|
  {
    if |s| == 0 {
    } else if KeyOf(s[0]) == KeyOf(e) {
      var r := Insert(s, e);
      assert forall i :: 0 <= i < |r| ==> KeyOf(r[i]) == KeyOf(s[i]);
    } else if Before(e, s[0]) {
      var r := Insert(s, e);
      assert forall i :: 1 <= i < |r| ==> r[i] == s[i - 1];
    } else {
      var tail := Insert(s[1..], e);
      InsertCanonical(s[1..], e);
      InsertKeySet(s[1..], e);
      forall x | x in tail
        ensures Before(s[0], x)
      {
        assert KeyOf(x) in KeySet(tail);
        if KeyOf(x) != KeyOf(e) {
          assert KeyOf(x) in KeySet(s[1..]);
          var y :| y in s[1..] && KeyOf(y) == KeyOf(x);
          var j :| 0 <= j < |s[1..]| && s[1..][j] == y;
          assert s[j + 1] == y;
        }
      }
      var r := [s[0]] + tail;
      assert forall i :: 1 <= i < |r| ==> r[i] == tail[i - 1];
    }
  }

  lemma {:induction false} InsertSum(s: seq<Entry>, e: Entry, k: Key)
    ensures SumFor(Insert(s, e), k) == SumFor(s, k) + (if KeyOf(e) == k then e.val else 0.0)
    decreases |s|
  {
    if |s| == 0 {
    } else if KeyOf(s[0]) == KeyOf(e) {
      assert Insert(s, e)[1..] == s[1..];
    } else if Before(e, s[0]) {
      assert Insert(s, e)[1..] == s;
    } else {
      InsertSum(s[1..], e, k);
      assert Insert(s, e)[1..] == Insert(s[1..], e);
    }
  }

  lemma {:induction false} InsertKeysIgnoreValues(s: seq<Entry>, e: Entry, s': seq<Entry>, e': Entry)
    requires Keys(s) == Keys(s') && KeyOf(e) == KeyOf(e')
    ensures Keys(Insert(s, e)) == Keys(Insert(s', e'))
    decreases |s|
  {
    if |s| == 0 {
    } else {
      assert KeyOf(s[0]) == Keys(s)[0] == Keys(s')[0] == KeyOf(s'[0]);
      assert Keys(s[1..]) == Keys(s)[1..] == Keys(s')[1..] == Keys(s'[1..]);
      if KeyOf(s[0]) == KeyOf(e) {
        assert Keys(Insert(s, e)) == Keys(s);
        assert Keys(Insert(s', e')) == Keys(s');
      } else if Before(e, s[0]) {
        assert Keys(Insert(s, e)) == [KeyOf(e)] + Keys(s);
        assert Keys(Insert(s', e')) == [KeyOf(e')] + Keys(s');
      } else {
        InsertKeysIgnoreValues(s[1..], e, s'[1..], e');
        assert Keys(Insert(s, e)) == [KeyOf(s[0])] + Keys(Insert(s[1..], e));
        assert Keys(Insert(s', e')) == [KeyOf(s'[0])] + Keys(Insert(s'[1..], e'));
      }
    }
  }

  // ---------------------------------------------------------------------
  // Properties of coalescing
  // ---------------------------------------------------------------------

  /** Coalescing keeps the total stored under every index pair. */
  lemma {:induction false} CoalesceSum(s: seq<Entry>, k: Key)
    ensures SumFor(Coalesce(s), k) == SumFor(s, k)
    decreases |s|
  {
    if |s| > 0 {
      CoalesceSum(s[1..], k);
      InsertSum(Coalesce(s[1..]), s[0], k);
    }
  }

  /** A key absent from `s` has total zero. */
  lemma {:induction false} SumOfAbsentKey(s: seq<Entry>, k: Key)
    requires k !in KeySet(s)
    ensures SumFor(s, k) == 0.0
    decreases |s|
  {
    if |s| > 0 {
      assert s[0] in s;
      assert KeySet(s[1..]) <= KeySet(s) by {
        forall x | x in s[1..] ensures x in s { }
      }
      SumOfAbsentKey(s[1..], k);
    }
  }

  /** In a canonical sequence each entry is the only one with its key, so its
      value is the total for that key. */
  lemma {:induction false} CanonicalEntryIsSum(s: seq<Entry>, p: nat)
    requires Canonical(s) && p < |s|
    ensures SumFor(s, KeyOf(s[p])) == s[p].val
    decreases |s|
  {
    if p == 0 {
      forall x | x in s[1..]
        ensures KeyOf(x) != KeyOf(s[0])
      {
        var j :| 0 <= j < |s[1..]| && s[1..][j] == x;
        assert Before(s[0], s[j + 1]);
      }
      SumOfAbsentKey(s[1..], KeyOf(s[0]));
    } else {
      assert Before(s[0], s[p]);
      CanonicalEntryIsSum(s[1..], p - 1);
    }
  }

  /** Each coalesced entry holds the sum of the values of the input entries
      with its index pair. */
  lemma CoalesceValues(s: seq<Entry>)
    ensures forall p :: 0 <= p < |Coalesce(s)| ==>
              Coalesce(s)[p].val == SumFor(s, KeyOf(Coalesce(s)[p]))
  {
    var c := Coalesce(s);
    forall p | 0 <= p < |c|
      ensures c[p].val == SumFor(s, KeyOf(c[p]))
    {
      CanonicalEntryIsSum(c, p);
      CoalesceSum(s, KeyOf(c[p]));
    }
  }

  /** An already canonical sequence is its own coalesced form. */
  lemma {:induction false} CoalesceOfCanonical(s: seq<Entry>)
    requires Canonical(s)
    ensures Coalesce(s) == s
    decreases |s|
  {
    if |s| > 0 {
      CoalesceOfCanonical(s[1..]);
      if |s| > 1 {
        assert Before(s[0], s[1]);
      }
      assert s == [s[0]] + s[1..];
    }
  }

  /** Coalescing twice is coalescing once. */
  lemma CoalesceIdempotent(s: seq<Entry>)
    ensures Coalesce(Coalesce(s)) == Coalesce(s)
  {
    CoalesceOfCanonical(Coalesce(s));
  }

  /** The coalesced index layout depends only on the input's index layout:
      changing values alone never reorders or merges differently. */
  lemma {:induction false} CoalesceKeysIgnoreValues(s: seq<Entry>, s': seq<Entry>)
    requires Keys(s) == Keys(s')
    ensures Keys(Coalesce(s)) == Keys(Coalesce(s'))
    decreases |s|
  {
    if |s| > 0 {
      assert KeyOf(s[0]) == Keys(s)[0] == Keys(s')[0] == KeyOf(s'[0]);
      assert Keys(s[1..]) == Keys(s)[1..] == Keys(s')[1..] == Keys(s'[1..]);
      CoalesceKeysIgnoreValues(s[1..], s'[1..]);
      InsertKeysIgnoreValues(Coalesce(s[1..]), s[0], Coalesce(s'[1..]), s'[0]);
    }
  }
  /** A canonical sequence stores each of its index pairs exactly once, so
      the number of coalesced nonzeros is the number of distinct pairs. */
  lemma {:induction false} CanonicalCardinality(s: seq<Entry>)
    requires Canonical(s)
    ensures |KeySet(s)| == |s|
    decreases |s|
  {
    if |s| > 0 {
      CanonicalCardinality(s[1..]);
      HeadIsLeast(s);
      assert s == [s[0]] + s[1..];
      assert KeySet(s) == {KeyOf(s[0])} + KeySet(s[1..]);
    }
  }

  /** The head of a canonical sequence is strictly below every later key. */
  lemma HeadIsLeast(s: seq<Entry>)
    requires Canonical(s) && |s| > 0
    ensures KeyOf(s[0]) !in KeySet(s[1..])
    ensures forall k :: k in KeySet(s[1..]) ==> KeyLess(KeyOf(s[0]), k)
  {
    forall k | k in KeySet(s[1..])
      ensures KeyLess(KeyOf(s[0]), k)
    {
      var x :| x in s[1..] && KeyOf(x) == k;
      var j :| 0 <= j < |s[1..]| && s[1..][j] == x;
      assert Before(s[0], s[j + 1]);
    }
  }

  /** A canonical sequence is determined by its index pairs and the totals
      stored under them. */
  lemma {:induction false} CanonicalUnique(a: seq<Entry>, b: seq<Entry>)
    requires Canonical(a) && Canonical(b)
    requires KeySet(a) == KeySet(b)
    requires forall k :: SumFor(a, k) == SumFor(b, k)
    ensures a == b
    decreases |a|
  {
    if |a| == 0 {
      CanonicalCardinality(a);
      CanonicalCardinality(b);
    } else {
      assert KeyOf(a[0]) in KeySet(a);
      assert |b| > 0;
      assert a == [a[0]] + a[1..];
      assert b == [b[0]] + b[1..];
      assert KeySet(a) == {KeyOf(a[0])} + KeySet(a[1..]);
      assert KeySet(b) == {KeyOf(b[0])} + KeySet(b[1..]);
      HeadIsLeast(a);
      HeadIsLeast(b);
      var k0 := KeyOf(a[0]);
      assert k0 == KeyOf(b[0]);
      CanonicalEntryIsSum(a, 0);
      CanonicalEntryIsSum(b, 0);
      assert SumFor(a, k0) == SumFor(b, k0);
      assert a[0] == b[0];
      assert KeySet(a[1..]) == KeySet(a) - {k0};
      assert KeySet(b[1..]) == KeySet(b) - {k0};
      forall k
        ensures SumFor(a[1..], k) == SumFor(b[1..], k)
      {
        assert SumFor(a, k) == SumFor(b, k);
      }
      CanonicalUnique(a[1..], b[1..]);
    }
  }

  lemma {:induction false} SumOfConcat(a: seq<Entry>, b: seq<Entry>, k: Key)
    ensures SumFor(a + b, k) == SumFor(a, k) + SumFor(b, k)
    decreases |a|
  {
    if |a| == 0 {
      assert a + b == b;
    } else {
      assert (a + b)[1..] == a[1..] + b;
      SumOfConcat(a[1..], b, k);
    }
  }

  /** Removing the entry at position `j` removes exactly its contribution. */
  lemma SumRemoveAt(s: seq<Entry>, j: nat, k: Key)
    requires j < |s|
    ensures SumFor(s, k) == (if KeyOf(s[j]) == k then s[j].val else 0.0) + SumFor(RemoveAt(s, j), k)
  {
    assert s == s[..j] + ([s[j]] + s[j + 1..]);
    SumOfConcat(s[..j], [s[j]] + s[j + 1..], k);
    SumOfConcat(s[..j], s[j + 1..], k);
    assert ([s[j]] + s[j + 1..])[1..] == s[j + 1..];
  }

  /** Totals per index pair do not depend on storage order. */
  lemma {:induction false} SumPermutationInvariant(s: seq<Entry>, s': seq<Entry>, k: Key)
    requires multiset(s) == multiset(s')
    ensures SumFor(s, k) == SumFor(s', k)
    decreases |s|
  {
    if |s| == 0 {
      assert |multiset(s')| == 0;
    } else {
      var j := MatchAndRemove(s, s', 0);
      assert RemoveAt(s, 0) == s[1..];
      SumPermutationInvariant(s[1..], RemoveAt(s', j), k);
      SumRemoveAt(s', j, k);
    }
  }

  /** Coalescing does not depend on the order in which entries are stored:
      any rearrangement of the same entries has the same canonical form. */
  lemma CoalescePermutationInvariant(s: seq<Entry>, s': seq<Entry>)
    requires multiset(s) == multiset(s')
    ensures Coalesce(s) == Coalesce(s')
  {
    assert forall e :: e in s <==> e in multiset(s);
    assert forall e :: e in s' <==> e in multiset(s');
    assert KeySet(s) == KeySet(s');
    forall k
      ensures SumFor(Coalesce(s), k) == SumFor(Coalesce(s'), k)
    {
      CoalesceSum(s, k);
      CoalesceSum(s', k);
      SumPermutationInvariant(s, s', k);
    }
    CanonicalUnique(Coalesce(s), Coalesce(s'));
  }
}
