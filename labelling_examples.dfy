/** The worked example of the label_connected_pixels_sparse docstring, and a
    placement of pixels that shows the labelling missing an 8-adjacency. */
module LabellingExamples {
  import opened Labelling

  /** The stored pixels of the 4x4 docstring matrix, in row-major storage order:
      ```
      1 0 0 0
      1 0 1 0
      1 0 1 1
      0 0 0 0
      ```  */
  predicate DocstringPixels(pos: seq<(nat, nat)>) {
    && |pos| == 6
    && pos[0] == (0, 0) && pos[1] == (1, 0) && pos[2] == (1, 2)
    && pos[3] == (2, 0) && pos[4] == (2, 2) && pos[5] == (2, 3)
  }

  /** Strictly before in row-major order. */
  predicate RowBefore(a: (nat, nat), b: (nat, nat)) {
    a.0 < b.0 || (a.0 == b.0 && a.1 < b.1)
  }

  /** Positions listed in strictly increasing row-major order are distinct. */
  lemma {:induction false} RowSortedDistinct(pos: seq<(nat, nat)>)
    requires forall k :: 0 <= k < |pos| - 1 ==> RowBefore(pos[k], pos[k + 1])
    ensures forall i, j :: 0 <= i < j < |pos| ==> RowBefore(pos[i], pos[j])
  {
    if |pos| > 1 {
      RowSortedDistinct(pos[1..]);
      forall j | 1 < j < |pos| ensures RowBefore(pos[0], pos[j]) {
        assert RowBefore(pos[1..][0], pos[1..][j - 1]);
      }
      forall i, j | 0 <= i < j < |pos| ensures RowBefore(pos[i], pos[j]) {
        if i > 0 {
          assert RowBefore(pos[1..][i - 1], pos[1..][j - 1]);
        }
      }
    }
  }

  /** An index order whose neighbours are column-sorted is column-sorted. */
  lemma {:induction false} ColumnSortedByNeighbours(pos: seq<(nat, nat)>, order: seq<nat>)
    requires IndicesIn(order, |pos|)
    requires forall k :: 0 <= k < |order| - 1 ==> ColumnBefore(pos[order[k]], pos[order[k + 1]])
    ensures ColumnSorted(pos, order)
  {
    if |order| > 1 {
      ColumnSortedByNeighbours(pos, order[1..]);
      forall k, l | 0 <= k < l < |order| ensures ColumnBefore(pos[order[k]], pos[order[l]]) {
        if k > 0 {
          assert ColumnBefore(pos[order[1..][k - 1]], pos[order[1..][l - 1]]);
        } else if l > 1 {
          assert ColumnBefore(pos[order[1..][0]], pos[order[1..][l - 1]]);
        }
      }
    }
  }

  lemma DocstringDistinct(pos: seq<(nat, nat)>)
    requires DocstringPixels(pos)
    ensures forall i, j :: 0 <= i < j < |pos| ==> pos[i] != pos[j]
  {
    RowSortedDistinct(pos);
  }

  lemma DocstringSorted(pos: seq<(nat, nat)>)
    requires DocstringPixels(pos)
    ensures IndicesIn(DocstringColumns(), |pos|) && ColumnSorted(pos, DocstringColumns())
  {
    ColumnSortedByNeighbours(pos, DocstringColumns());
  }

  /** The docstring pixels in column-major order. */
  function DocstringColumns(): (order: seq<nat>)
    ensures |order| == 6
  {
    [0, 1, 3, 2, 4, 5]
  }

  lemma DocstringPermutation()
    ensures multiset(DocstringColumns()) == multiset(Range(0, 6))
  {
    assert Range(0, 6) == [0, 1, 2, 3, 4, 5];
  }

  lemma DocstringColumnOrder(pos: seq<(nat, nat)>)
    requires DocstringPixels(pos)
    ensures ColumnOrder(pos) == DocstringColumns()
  {
    DocstringDistinct(pos);
    DocstringSorted(pos);
    DocstringPermutation();
    ColumnSortedUnique(pos, DocstringColumns(), ColumnOrder(pos));
  }

  /** Consecutive pairs of docstring pixels: 0-1, 1-2, 2-3, 3-4, 4-5 in storage
      order and 0-1, 1-3, 3-2, 2-4, 4-5 in column-major order. */
  lemma DocstringColumnPairs(pos: seq<(nat, nat)>, u: int, v: int)
    requires DocstringPixels(pos)
    requires exists k :: 0 <= k && k + 1 < |pos| && ColumnOrder(pos)[k] == u && ColumnOrder(pos)[k + 1] == v
    ensures (u == 0 && v == 1) || (u == 1 && v == 3) || (u == 3 && v == 2) || (u == 2 && v == 4) || (u == 4 && v == 5)
  {
    var order := ColumnOrder(pos);
    var k :| 0 <= k && k + 1 < |pos| && order[k] == u && order[k + 1] == v;
    DocstringColumnOrder(pos);
    assert order[0] == 0 && order[1] == 1 && order[2] == 3 && order[3] == 2 && order[4] == 4 && order[5] == 5;
    if k == 0 {} else if k == 1 {} else if k == 2 {} else if k == 3 {} else {}
  }

  lemma DocstringConsecutive(pos: seq<(nat, nat)>, u: int, v: int)
    requires DocstringPixels(pos)
    requires Consecutive(pos, u, v)
    ensures (0 <= u && v == u + 1 < 6) || (u == 1 && v == 3) || (u == 3 && v == 2) || (u == 2 && v == 4)
  {
    if !(0 <= u && v == u + 1 < |pos|) {
      DocstringColumnPairs(pos, u, v);
    }
  }

  /** The direct links among the docstring pixels: 0-1 and 4-5 in storage
      order, 1-3 and 2-4 in column-major order. */
  lemma DocstringJoined(pos: seq<(nat, nat)>)
    requires DocstringPixels(pos)
    ensures Joined(pos, 0, 1) && Joined(pos, 1, 3) && Joined(pos, 2, 4) && Joined(pos, 4, 5)
  {
    DocstringRowJoined(pos);
    DocstringColumnJoined(pos);
  }

  /** The links of the storage-order pass: 0-1 and 4-5. */
  lemma DocstringRowJoined(pos: seq<(nat, nat)>)
    requires DocstringPixels(pos)
    ensures Joined(pos, 0, 1) && Joined(pos, 4, 5)
  {
    assert Consecutive(pos, 0, 1) && Consecutive(pos, 4, 5);
  }

  /** The links of the column-order pass: 1-3 and 2-4. */
  lemma DocstringColumnJoined(pos: seq<(nat, nat)>)
    requires DocstringPixels(pos)
    ensures Joined(pos, 1, 3) && Joined(pos, 2, 4)
  {
    DocstringColumnOrder(pos);
    DocstringColumnNeighbours(pos, DocstringColumns());
  }

  /** Neighbours in column-major order are consecutive. */
  lemma ColumnConsecutive(pos: seq<(nat, nat)>, order: seq<nat>, k: nat, u: nat, v: nat)
    requires order == ColumnOrder(pos)
    requires k + 1 < |order| && order[k] == u && order[k + 1] == v
    ensures Consecutive(pos, u, v)
  {
  }

  /** In the docstring's column order, 1 comes right before 3 and 2 right
      before 4. */
  lemma DocstringColumnNeighbours(pos: seq<(nat, nat)>, order: seq<nat>)
    requires ColumnOrder(pos) == order && |order| == 6
    requires order[1] == 1 && order[2] == 3 && order[3] == 2 && order[4] == 4
    ensures Consecutive(pos, 1, 3) && Consecutive(pos, 2, 4)
  {
    ColumnConsecutive(pos, order, 1, 1, 3);
    ColumnConsecutive(pos, order, 3, 2, 4);
  }

  /** No link joins {0, 1, 3} to {2, 4, 5}. */
  lemma DocstringSeparated(pos: seq<(nat, nat)>)
    requires DocstringPixels(pos)
    ensures forall u, v :: u in {0, 1, 3} && Linked(pos, u, v) ==> v in {0, 1, 3}
  {
    forall u, v | u in {0, 1, 3} && Linked(pos, u, v) ensures v in {0, 1, 3} {
      if Joined(pos, u, v) {
        DocstringConsecutive(pos, u, v);
      } else {
        DocstringConsecutive(pos, v, u);
      }
    }
  }

  /** The docstring's claim: the example has two foci, labelled
      `1 1 2 1 2 2` in storage order. */
  lemma DocstringLabels(pos: seq<(nat, nat)>, num: nat, pre: seq<nat>, roots: seq<nat>)
    requires DocstringPixels(pos)
    requires FociLabelling(pos, num, pre, roots)
    ensures num == 2 && pre == [1, 1, 2, 1, 2, 2]
  {
    DocstringJoined(pos);
    DocstringSeparated(pos);
    ClosedSetSeparatesLabels(pos, num, pre, roots, {0, 1, 3}, 0, 2);
    TwoFociNumbering(num, pre, roots);
  }

  /** Numbering by first pixel leaves one choice for two foci {0, 1, 3} and {2, 4, 5}. */
  lemma TwoFociNumbering(num: nat, pre: seq<nat>, roots: seq<nat>)
    requires |pre| == 6 && |roots| == num
    requires forall v :: 0 <= v < |pre| ==> 1 <= pre[v] <= num
    requires forall k :: 0 <= k < num ==> roots[k] < |pre| && pre[roots[k]] == k + 1
    requires forall k, l :: 0 <= k < l < num ==> roots[k] < roots[l]
    requires forall v, k :: 0 <= v < |pre| && 0 <= k < num && pre[v] == k + 1 ==> roots[k] <= v
    requires pre[0] == pre[1] == pre[3] && pre[2] == pre[4] == pre[5] && pre[0] != pre[2]
    ensures num == 2 && pre == [1, 1, 2, 1, 2, 2]
  {
    var a := pre[0] - 1;
    assert roots[a] == 0;
    assert forall k :: 0 < k < num ==> roots[0] < roots[k];
    assert pre[0] == 1;
    var b := pre[2] - 1;
    assert pre[roots[b]] == pre[2] && roots[b] <= 2;
    assert roots[b] == 2;
    assert roots[0] < roots[1];
    assert pre[roots[1]] == 2;
    assert b == 1;
    assert forall v :: 0 <= v < 6 ==> pre[v] <= 2;
    assert pre[roots[num - 1]] == num;
  }

  /** Four pixels where the first and the third are diagonal neighbours. */
  predicate DiagonalPixels(pos: seq<(nat, nat)>) {
    |pos| == 4 && pos[0] == (0, 1) && pos[1] == (0, 5) && pos[2] == (1, 0) && pos[3] == (2, 0)
  }

  lemma DiagonalColumnOrder(pos: seq<(nat, nat)>)
    requires DiagonalPixels(pos)
    ensures ColumnOrder(pos) == [2, 3, 0, 1]
  {
    var order: seq<nat> := [2, 3, 0, 1];
    assert forall i, j :: 0 <= i < j < |pos| ==> pos[i] != pos[j] by {
      RowSortedDistinct(pos);
    }
    assert ColumnSorted(pos, order) by {
      ColumnSortedByNeighbours(pos, order);
    }
    assert multiset(order) == multiset(Range(0, 4)) by {
      assert Range(0, 4) == [0, 1, 2, 3];
    }
    ColumnSortedUnique(pos, order, ColumnOrder(pos));
  }

  lemma DiagonalColumnPairs(pos: seq<(nat, nat)>, u: int, v: int)
    requires DiagonalPixels(pos)
    requires exists k :: 0 <= k && k + 1 < |pos| && ColumnOrder(pos)[k] == u && ColumnOrder(pos)[k + 1] == v
    ensures (u == 2 && v == 3) || (u == 3 && v == 0) || (u == 0 && v == 1)
  {
    var order := ColumnOrder(pos);
    var k :| 0 <= k && k + 1 < |pos| && order[k] == u && order[k + 1] == v;
    DiagonalColumnOrder(pos);
    assert order[0] == 2 && order[1] == 3 && order[2] == 0 && order[3] == 1;
    if k == 0 {} else if k == 1 {} else {}
  }

  /** No link touches pixel 0: its neighbours in either order are too far away. */
  lemma DiagonalIsolated(pos: seq<(nat, nat)>)
    requires DiagonalPixels(pos)
    ensures forall v :: !Linked(pos, 0, v)
  {
    forall v ensures !Linked(pos, 0, v) {
      if Consecutive(pos, 0, v) && !(v == 1) {
        DiagonalColumnPairs(pos, 0, v);
      }
      if Consecutive(pos, v, 0) {
        DiagonalColumnPairs(pos, v, 0);
      }
    }
  }

  /** The labelling links a pixel only to its neighbours in storage order and in
      column-major order, so two 8-adjacent pixels can end up in different foci:
      pixels (0, 1) and (1, 0) touch diagonally, yet no chain of links joins them. */
  lemma DiagonalNeighboursSeparated(pos: seq<(nat, nat)>, num: nat, pre: seq<nat>, roots: seq<nat>)
    requires DiagonalPixels(pos)
    requires FociLabelling(pos, num, pre, roots)
    ensures Near(pos[0], pos[2]) && pre[0] != pre[2]
  {
    DiagonalIsolated(pos);
    ClosedSetSeparatesLabels(pos, num, pre, roots, {0}, 0, 2);
  }
}
