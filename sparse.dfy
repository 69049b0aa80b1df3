/** Sparse matrices in coordinate (COO) form, as scipy stores them: a shape and
    the stored entries in their storage order. */
module Sparse {

  datatype Entry<T> = Entry(row: nat, col: nat, value: T)

  datatype Coo<T> = Coo(nrows: nat, ncols: nat, entries: seq<Entry<T>>)

  /** The (row, col) positions of the stored entries, in storage order. */
  function Positions<T>(es: seq<Entry<T>>): (pos: seq<(nat, nat)>)
    ensures |pos| == |es|
    ensures forall i :: 0 <= i < |es| ==> pos[i] == (es[i].row, es[i].col)
  {
    seq(|es|, i requires 0 <= i < |es| => (es[i].row, es[i].col))
  }

  /** Canonical storage: no position is stored twice. */
  predicate DistinctPositions<T>(es: seq<Entry<T>>) {
    forall i, j :: 0 <= i < j < |es| ==> (es[i].row, es[i].col) != (es[j].row, es[j].col)
  }

  /** Every stored entry lies inside the shape. */
  predicate InShape<T>(m: Coo<T>) {
    forall i :: 0 <= i < |m.entries| ==> m.entries[i].row < m.nrows && m.entries[i].col < m.ncols
  }

  /** Reading one pixel of a CSR copy of the matrix: duplicates are summed and
      a position that is not stored reads as 0. */
  function ValueAt(es: seq<Entry<real>>, r: nat, c: nat): real {
    SumAt(es, |es|, r, c)
  }

  /** The sum of the values stored at (r, c) among the first `n` entries. */
  function SumAt(es: seq<Entry<real>>, n: nat, r: nat, c: nat): real
    requires n <= |es|
  {
    if n == 0 then 0.0
    else SumAt(es, n - 1, r, c) + (if es[n - 1].row == r && es[n - 1].col == c then es[n - 1].value else 0.0)
  }

  /** In canonical storage, reading the position of entry `i` gives its value. */
  lemma ValueAtStored(es: seq<Entry<real>>, i: nat)
    requires DistinctPositions(es)
    requires i < |es|
    ensures ValueAt(es, es[i].row, es[i].col) == es[i].value
  {
    SumAtStored(es, |es|, i);
  }

  lemma {:induction false} SumAtStored(es: seq<Entry<real>>, n: nat, i: nat)
    requires DistinctPositions(es)
    requires i < n <= |es|
    ensures SumAt(es, n, es[i].row, es[i].col) == es[i].value
  {
    if i == n - 1 {
      SumAtAbsent(es, n - 1, es[i].row, es[i].col);
    } else {
      SumAtStored(es, n - 1, i);
    }
  }

  /** A position that is not stored reads as 0. */
  lemma ValueAtAbsent(es: seq<Entry<real>>, r: nat, c: nat)
    requires forall k :: 0 <= k < |es| ==> (es[k].row, es[k].col) != (r, c)
    ensures ValueAt(es, r, c) == 0.0
  {
    SumAtAbsent(es, |es|, r, c);
  }

  lemma {:induction false} SumAtAbsent(es: seq<Entry<real>>, n: nat, r: nat, c: nat)
    requires n <= |es|
    requires forall k :: 0 <= k < n ==> (es[k].row, es[k].col) != (r, c)
    ensures SumAt(es, n, r, c) == 0.0
  {
    if n > 0 {
      SumAtAbsent(es, n - 1, r, c);
    }
  }
}
