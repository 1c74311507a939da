/** Dense tensors: a row is a vector of exact reals and a matrix is a sequence
    of rows sharing one width. */
module Dense {

  type Row = seq<real>

  /** A two-dimensional dense tensor. The width is stored so that it is known
      even when there are no rows (a tensor of shape [0, B]). */
  datatype Matrix = Matrix(width: nat, rows: seq<Row>) {
    predicate Valid() {
      forall i :: 0 <= i < |rows| ==> |rows[i]| == width
    }
  }

  /** Every row of `vs` has `w` components. */
  predicate RowsOfWidth(vs: seq<Row>, w: nat) {
    forall i :: 0 <= i < |vs| ==> |vs[i]| == w
  }

  function Zeros(w: nat): (r: Row)
    ensures |r| == w
    ensures forall j :: 0 <= j < w ==> r[j] == 0.0
  {
    seq(w, _ => 0.0)
  }

  function Scale(a: real, v: Row): (r: Row)
    ensures |r| == |v|
    ensures forall j :: 0 <= j < |v| ==> r[j] == a * v[j]
  {
    seq(|v|, j requires 0 <= j < |v| => a * v[j])
  }

  function Add(u: Row, v: Row): (r: Row)
    requires |u| == |v|
    ensures |r| == |u|
    ensures forall j :: 0 <= j < |u| ==> r[j] == u[j] + v[j]
  {
    seq(|u|, j requires 0 <= j < |u| => u[j] + v[j])
  }
  lemma AddZerosLeft(v: Row)
    ensures Add(Zeros(|v|), v) == v
  {
  }

  lemma AddCommutes(u: Row, v: Row)
    requires |u| == |v|
    ensures Add(u, v) == Add(v, u)
  {
  }

  lemma AddAssociates(u: Row, v: Row, z: Row)
    requires |u| == |v| == |z|
    ensures Add(Add(u, v), z) == Add(u, Add(v, z))
  {
  }
}
