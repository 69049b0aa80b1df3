/** Labelling of connected foci among the stored pixels of a sparse candidate
    matrix (`label_connected_pixels_sparse` with its helpers
    `get_1d_foci_transition` and `fill_adjacency_1d`, and the connected
    components that scipy computes on the resulting adjacency matrix). */
module Labelling {
  import opened Sparse

  /** Both coordinate shifts are below 2 (the two pixels are 8-adjacent or equal). */
  predicate Near(a: (int, int), b: (int, int)) {
    -1 <= a.0 - b.0 <= 1 && -1 <= a.1 - b.1 <= 1
  }

  /** get_1d_foci_transition: `stay[i]` says that pixel `i + 1` follows pixel `i`
      closely in both coordinates; a final `false` is appended (so an empty input
      gives `[false]`). */
  function FociTransitions(pos: seq<(nat, nat)>): (stay: seq<bool>)
    ensures |stay| == if pos == [] then 1 else |pos|
    ensures forall i :: 0 <= i < |stay| ==> (stay[i] <==> i + 1 < |pos| && Near(pos[i], pos[i + 1]))
  {
    var diffs := if pos == [] then 0 else |pos| - 1;
    seq(diffs, i requires 0 <= i < diffs => Near(pos[i], pos[i + 1])) + [false]
  }

  /** Column-major order of positions: by column, then by row. */
  predicate ColumnBefore(a: (nat, nat), b: (nat, nat)) {
    a.1 < b.1 || (a.1 == b.1 && a.0 <= b.0)
  }

  predicate IndicesIn(order: seq<nat>, n: nat) {
    forall k :: 0 <= k < |order| ==> order[k] < n
  }

  predicate ColumnSorted(pos: seq<(nat, nat)>, order: seq<nat>)
    requires IndicesIn(order, |pos|)
  {
    forall k, l :: 0 <= k < l < |order| ==> ColumnBefore(pos[order[k]], pos[order[l]])
  }

  function Range(lo: nat, hi: nat): (r: seq<nat>)
    ensures |r| == if lo <= hi then hi - lo else 0
    ensures forall k :: 0 <= k < |r| ==> r[k] == lo + k
    decreases hi - lo
  {
    if lo >= hi then [] else [lo] + Range(lo + 1, hi)
  }

  function InsertIndex(pos: seq<(nat, nat)>, i: nat, order: seq<nat>): (r: seq<nat>)
    requires i < |pos| && IndicesIn(order, |pos|) && ColumnSorted(pos, order)
    ensures IndicesIn(r, |pos|) && ColumnSorted(pos, r)
    ensures multiset(r) == multiset(order) + multiset{i}
  {
    if order == [] then [i]
    else if ColumnBefore(pos[i], pos[order[0]]) then [i] + order
    else
      var rest := InsertIndex(pos, i, order[1..]);
      InsertStep(pos, i, order, rest);
      [order[0]] + rest
  }

  /** The recursive case of InsertIndex: the head of `order` goes before the
      insertion into its tail. */
  lemma InsertStep(pos: seq<(nat, nat)>, i: nat, order: seq<nat>, rest: seq<nat>)
    requires i < |pos| && IndicesIn(order, |pos|) && ColumnSorted(pos, order)
    requires order != [] && !ColumnBefore(pos[i], pos[order[0]])
    requires IndicesIn(rest, |pos|) && ColumnSorted(pos, rest)
    requires multiset(rest) == multiset(order[1..]) + multiset{i}
    ensures IndicesIn([order[0]] + rest, |pos|) && ColumnSorted(pos, [order[0]] + rest)
    ensures multiset([order[0]] + rest) == multiset(order) + multiset{i}
  {
    assert order == [order[0]] + order[1..];
    forall k | 0 <= k < |rest| ensures ColumnBefore(pos[order[0]], pos[rest[k]]) {
      assert rest[k] in multiset(rest);
      if rest[k] != i {
        assert rest[k] in multiset(order[1..]);
        var l :| 0 <= l < |order[1..]| && order[1..][l] == rest[k];
        assert order[l + 1] == rest[k];
      }
    }
    var r := [order[0]] + rest;
    forall k, l | 0 <= k < l < |r| ensures ColumnBefore(pos[r[k]], pos[r[l]]) {
      if k > 0 {
        assert r[k] == rest[k - 1] && r[l] == rest[l - 1];
      } else {
        assert r[l] == rest[l - 1];
      }
    }
  }

  function ColumnOrderFrom(pos: seq<(nat, nat)>, lo: nat): (r: seq<nat>)
    requires lo <= |pos|
    ensures IndicesIn(r, |pos|) && ColumnSorted(pos, r)
    ensures multiset(r) == multiset(Range(lo, |pos|))
    decreases |pos| - lo
  {
    if lo == |pos| then []
    else
      assert Range(lo, |pos|) == [lo] + Range(lo + 1, |pos|);
      InsertIndex(pos, lo, ColumnOrderFrom(pos, lo + 1))
  }

  /** The order in which the transposed matrix lists the pixels: a permutation of
      the indices that sorts the positions by column, then by row. */
  function ColumnOrder(pos: seq<(nat, nat)>): (order: seq<nat>)
    ensures |order| == |pos| && IndicesIn(order, |pos|) && ColumnSorted(pos, order)
  {
    var r := ColumnOrderFrom(pos, 0);
    assert |r| == |multiset(r)| == |multiset(Range(0, |pos|))| == |pos|;
    r
  }

  /** The column order lists every pixel index exactly once. */
  lemma ColumnOrderPermutes(pos: seq<(nat, nat)>)
    ensures multiset(ColumnOrder(pos)) == multiset(Range(0, |pos|))
  {
  }

  /** Two column-sorted arrangements of the same indices start alike. */
  lemma ColumnSortedSameHead(pos: seq<(nat, nat)>, a: seq<nat>, b: seq<nat>)
    requires forall i, j :: 0 <= i < j < |pos| ==> pos[i] != pos[j]
    requires IndicesIn(a, |pos|) && IndicesIn(b, |pos|)
    requires ColumnSorted(pos, a) && ColumnSorted(pos, b)
    requires multiset(a) == multiset(b) && a != []
    ensures b != [] && a[0] == b[0]
  {
    assert a[0] in multiset(b);
    assert b[0] in multiset(a);
    var i :| 0 <= i < |b| && b[i] == a[0];
    var j :| 0 <= j < |a| && a[j] == b[0];
  }

  lemma ColumnSortedTail(pos: seq<(nat, nat)>, a: seq<nat>)
    requires IndicesIn(a, |pos|) && ColumnSorted(pos, a) && a != []
    ensures IndicesIn(a[1..], |pos|) && ColumnSorted(pos, a[1..])
  {
    forall k, l | 0 <= k < l < |a| - 1 ensures ColumnBefore(pos[a[1..][k]], pos[a[1..][l]]) {
      assert a[1..][k] == a[k + 1] && a[1..][l] == a[l + 1];
    }
  }

  /** Sorting distinct positions by column, then row, leaves no choice: any
      arrangement of the indices that is column-sorted is the column order. */
  lemma {:induction false} ColumnSortedUnique(pos: seq<(nat, nat)>, a: seq<nat>, b: seq<nat>)
    requires forall i, j :: 0 <= i < j < |pos| ==> pos[i] != pos[j]
    requires IndicesIn(a, |pos|) && IndicesIn(b, |pos|)
    requires ColumnSorted(pos, a) && ColumnSorted(pos, b)
    requires multiset(a) == multiset(b)
    ensures a == b
  {
    if a == [] {
      assert |b| == |multiset(b)| == 0;
    } else {
      ColumnSortedSameHead(pos, a, b);
      ColumnSortedTail(pos, a);
      ColumnSortedTail(pos, b);
      assert a == [a[0]] + a[1..];
      assert b == [b[0]] + b[1..];
      assert multiset(a[1..]) == multiset(a) - multiset{a[0]};
      assert multiset(b[1..]) == multiset(b) - multiset{b[0]};
      ColumnSortedUnique(pos, a[1..], b[1..]);
    }
  }

  /** The transposed positions, listed in column-major order. */
  function Transposed(pos: seq<(nat, nat)>, order: seq<nat>): (t: seq<(nat, nat)>)
    requires IndicesIn(order, |pos|)
    ensures |t| == |order|
    ensures forall k :: 0 <= k < |order| ==> t[k] == (pos[order[k]].1, pos[order[k]].0)
  {
    seq(|order|, k requires 0 <= k < |order| => (pos[order[k]].1, pos[order[k]].0))
  }

  /** Step `k` of a transition array joins `u` to `v`: candidate `k` to `k + 1`
      in the row pass, the candidates that the transposed matrix lists at `k`
      and `k + 1` in the column pass. */
  predicate StepIs(ids: seq<nat>, vertical: bool, k: nat, u: nat, v: nat) {
    k + 1 < |ids| && (if vertical then ids[k] == u && ids[k + 1] == v else k == u && k + 1 == v)
  }

  /** Some `true` step below `bound` joins `u` to `v`. */
  predicate AddedBy(stay: seq<bool>, ids: seq<nat>, vertical: bool, bound: nat, u: nat, v: nat) {
    exists k :: 0 <= k < bound && k < |stay| && stay[k] && StepIs(ids, vertical, k, u, v)
  }

  /** Raising the bound by one adds exactly the edge of step `k`. */
  lemma AddedByStep(stay: seq<bool>, ids: seq<nat>, vertical: bool, k: nat, u: nat, v: nat)
    requires k < |stay|
    ensures AddedBy(stay, ids, vertical, k + 1, u, v) <==>
      AddedBy(stay, ids, vertical, k, u, v) || (stay[k] && StepIs(ids, vertical, k, u, v))
  {
    if AddedBy(stay, ids, vertical, k + 1, u, v) && !(stay[k] && StepIs(ids, vertical, k, u, v)) {
      var j :| 0 <= j < k + 1 && j < |stay| && stay[j] && StepIs(ids, vertical, j, u, v);
      assert j < k;
    }
  }

  /** fill_adjacency_1d: sets `adj[from, to]` for every `true` step. */
  method FillAdjacency(adj: array2<bool>, stay: seq<bool>, ids: seq<nat>, vertical: bool)
    requires adj.Length0 == adj.Length1 == |ids|
    requires IndicesIn(ids, |ids|)
    requires forall k :: 0 <= k < |stay| && stay[k] ==> k + 1 < |ids|
    modifies adj
    ensures forall u, v :: 0 <= u < adj.Length0 && 0 <= v < adj.Length1 ==>
      adj[u, v] == (old(adj[u, v]) || AddedBy(stay, ids, vertical, |stay|, u, v))
  {
    for k := 0 to |stay|
      invariant forall u, v :: 0 <= u < adj.Length0 && 0 <= v < adj.Length1 ==>
        adj[u, v] == (old(adj[u, v]) || AddedBy(stay, ids, vertical, k, u, v))
    {
      if stay[k] {
        var from, to := if vertical then ids[k] else k, if vertical then ids[k + 1] else k + 1;
        assert StepIs(ids, vertical, k, from, to);
        adj[from, to] := true;
      }
      forall u, v | 0 <= u < adj.Length0 && 0 <= v < adj.Length1 {
        AddedByStep(stay, ids, vertical, k, u, v);
      }
    }
  }

  // ---------------------------------------------------------------------------
  // Connected components of the adjacency matrix, read as an undirected graph
  // (scipy's `connected_components` with its default weak connection).

  ghost predicate Edge(adj: array2<bool>, u: int, v: int)
    reads adj
  {
    0 <= u < adj.Length0 && 0 <= v < adj.Length0 && adj.Length1 == adj.Length0 && (adj[u, v] || adj[v, u])
  }

  ghost predicate IsPath(adj: array2<bool>, p: seq<int>)
    reads adj
  {
    |p| > 0 && forall i :: 0 <= i < |p| - 1 ==> Edge(adj, p[i], p[i + 1])
  }

  ghost predicate Reach(adj: array2<bool>, u: int, v: int)
    reads adj
  {
    exists p :: IsPath(adj, p) && p[0] == u && p[|p| - 1] == v
  }

  lemma ReachRefl(adj: array2<bool>, u: int)
    requires 0 <= u < adj.Length0 == adj.Length1
    ensures Reach(adj, u, u)
  {
    assert IsPath(adj, [u]);
  }

  lemma ReachStep(adj: array2<bool>, a: int, u: int, w: int)
    requires Reach(adj, a, u) && Edge(adj, u, w)
    ensures Reach(adj, a, w)
  {
    var p :| IsPath(adj, p) && p[0] == a && p[|p| - 1] == u;
    assert IsPath(adj, p + [w]);
  }

  /** What the labelling established so far: `lab[v] == -1` for unlabelled
      nodes; component `k` has smallest node `roots[k]` and every node labelled
      `k` is reachable from it. */
  ghost predicate Partial(adj: array2<bool>, lab: seq<int>, roots: seq<nat>)
    reads adj
  {
    && adj.Length0 == adj.Length1 == |lab|
    && (forall v :: 0 <= v < |lab| ==> -1 <= lab[v] < |roots|)
    && (forall k :: 0 <= k < |roots| ==> roots[k] < |lab| && lab[roots[k]] == k)
    && (forall k, l :: 0 <= k < l < |roots| ==> roots[k] < roots[l])
    && (forall v :: 0 <= v < |lab| && lab[v] >= 0 ==> roots[lab[v]] <= v && Reach(adj, roots[lab[v]], v))
  }

  /** Every labelled node outside `open` has all its neighbours under its label. */
  ghost predicate Closed(adj: array2<bool>, lab: seq<int>, open: seq<int>)
    reads adj
  {
    forall u, v :: 0 <= u < |lab| && lab[u] >= 0 && u !in open && Edge(adj, u, v) ==>
      0 <= v < |lab| && lab[v] == lab[u]
  }

  ghost function Unlabelled(lab: seq<int>): set<int> {
    set v | 0 <= v < |lab| && lab[v] == -1
  }

  /** Labelling an unlabelled neighbour `w` of `u` with the newest label keeps
      the labelling sound. */
  lemma LabelNeighbour(adj: array2<bool>, lab: seq<int>, roots: seq<nat>, u: int, w: int)
    requires Partial(adj, lab, roots) && |roots| > 0
    requires 0 <= u < |lab| && lab[u] == |roots| - 1
    requires 0 <= w < |lab| && lab[w] == -1 && Edge(adj, u, w)
    requires forall v :: 0 <= v < roots[|roots| - 1] ==> lab[v] >= 0
    ensures Partial(adj, lab[w := |roots| - 1], roots)
    ensures Unlabelled(lab[w := |roots| - 1]) == Unlabelled(lab) - {w}
  {
    ReachStep(adj, roots[|roots| - 1], u, w);
  }

  /** Labelling a node that had no label keeps closed every node that was closed. */
  lemma ClosedAfterLabel(adj: array2<bool>, lab: seq<int>, open: seq<int>, w: int, l: int, open': seq<int>)
    requires Closed(adj, lab, open)
    requires 0 <= w < |lab| && lab[w] == -1 && l >= 0
    requires forall x :: x in open ==> x in open'
    requires w in open'
    ensures Closed(adj, lab[w := l], open')
  {
  }

  /** The state of the scan of `u`'s neighbours once nodes below `w` are
      done: `lab0` is the labelling before the scan and `stack` the stack. */
  ghost predicate Scanning(adj: array2<bool>, lab: seq<int>, lab0: seq<int>, roots: seq<nat>, num: int, u: int,
                           stack: seq<int>, stack': seq<int>, w: int)
    reads adj
  {
    && Partial(adj, lab, roots) && num == |roots| - 1 >= 0
    && (forall v :: 0 <= v < roots[num] ==> lab[v] >= 0)
    && (forall i :: 0 <= i < |stack'| ==> 0 <= stack'[i] < |lab| && lab[stack'[i]] == num)
    && 0 <= u < |lab| && lab[u] == num
    && Closed(adj, lab, stack' + [u])
    && (forall v :: 0 <= v < w && Edge(adj, u, v) ==> lab[v] == num)
    && |lab0| == |lab|
    && (forall v :: 0 <= v < |lab| && lab0[v] >= 0 ==> lab[v] == lab0[v])
    && Unlabelled(lab) <= Unlabelled(lab0)
    && (Unlabelled(lab) == Unlabelled(lab0) ==> stack' == stack)
  }

  /** One node of the scan: an unlabelled neighbour is labelled and pushed,
      any other node leaves the state as it is. */
  lemma ScanStep(adj: array2<bool>, lab: seq<int>, lab0: seq<int>, roots: seq<nat>, num: int, u: int,
                 stack: seq<int>, stack': seq<int>, w: int)
    requires Scanning(adj, lab, lab0, roots, num, u, stack, stack', w)
    requires 0 <= w < |lab|
    ensures Edge(adj, u, w) && lab[w] == -1 ==>
      Scanning(adj, lab[w := num], lab0, roots, num, u, stack, stack' + [w], w + 1)
    ensures !(Edge(adj, u, w) && lab[w] == -1) ==>
      Scanning(adj, lab, lab0, roots, num, u, stack, stack', w + 1)
  {
    if Edge(adj, u, w) && lab[w] == -1 {
      LabelNeighbour(adj, lab, roots, u, w);
      ClosedAfterLabel(adj, lab, stack' + [u], w, num, stack' + [w] + [u]);
      assert w !in Unlabelled(lab[w := num]) && w in Unlabelled(lab);
    } else if Edge(adj, u, w) {
      assert Edge(adj, w, u);
    }
  }

  /** Once all neighbours of `u` share its label, `u` need not stay open. */
  lemma ClosedAfterPop(adj: array2<bool>, lab: seq<int>, open: seq<int>, u: int)
    requires Closed(adj, lab, open + [u])
    requires adj.Length0 == |lab| && 0 <= u < |lab| && lab[u] >= 0
    requires forall v :: 0 <= v < |lab| && Edge(adj, u, v) ==> lab[v] == lab[u]
    ensures Closed(adj, lab, open)
  {
  }

  /** Labels every unlabelled neighbour of `u` with the label of `u` and pushes
      it on the stack. */
  method ScanNeighbours(adj: array2<bool>, lab: array<int>, u: int, num: int, ghost roots: seq<nat>, stack: seq<int>)
    returns (stack': seq<int>)
    requires Partial(adj, lab[..], roots) && num == |roots| - 1 >= 0
    requires forall v :: 0 <= v < roots[num] ==> lab[v] >= 0
    requires 0 <= u < lab.Length && lab[u] == num
    requires forall i :: 0 <= i < |stack| ==> 0 <= stack[i] < lab.Length && lab[stack[i]] == num
    requires Closed(adj, lab[..], stack + [u])
    modifies lab
    ensures Partial(adj, lab[..], roots)
    ensures forall v :: 0 <= v < roots[num] ==> lab[v] >= 0
    ensures forall i :: 0 <= i < |stack'| ==> 0 <= stack'[i] < lab.Length && lab[stack'[i]] == num
    ensures Closed(adj, lab[..], stack')
    ensures forall v :: 0 <= v < lab.Length && old(lab[v]) >= 0 ==> lab[v] == old(lab[v])
    ensures Unlabelled(lab[..]) <= old(Unlabelled(lab[..]))
    ensures Unlabelled(lab[..]) == old(Unlabelled(lab[..])) ==> stack' == stack
  {
    ghost var lab0 := lab[..];
    stack' := stack;
    for w := 0 to lab.Length
      invariant Scanning(adj, lab[..], lab0, roots, num, u, stack, stack', w)
    {
      ScanStep(adj, lab[..], lab0, roots, num, u, stack, stack', w);
      if (adj[u, w] || adj[w, u]) && lab[w] == -1 {
        lab[w] := num;
        stack' := stack' + [w];
      }
    }
    ClosedAfterPop(adj, lab[..], stack', u);
  }

  /** Giving the smallest unlabelled node `s` a new label keeps the labelling sound. */
  lemma StartComponent(adj: array2<bool>, lab: seq<int>, roots: seq<nat>, s: int)
    requires Partial(adj, lab, roots) && Closed(adj, lab, [])
    requires 0 <= s < |lab| && lab[s] == -1
    requires forall k :: 0 <= k < |roots| ==> roots[k] < s
    requires forall v :: 0 <= v < s ==> lab[v] >= 0
    ensures Partial(adj, lab[s := |roots|], roots + [s as nat])
    ensures Closed(adj, lab[s := |roots|], [s])
  {
    ReachRefl(adj, s);
    ClosedAfterLabel(adj, lab, [], s, |roots|, [s]);
  }

  /** Depth-first exploration: pops nodes off the stack until every node of the
      component carries the newest label. */
  method Drain(adj: array2<bool>, lab: array<int>, num: int, ghost roots: seq<nat>, stack: seq<int>)
    requires Partial(adj, lab[..], roots) && num == |roots| - 1 >= 0
    requires forall v :: 0 <= v <= roots[num] ==> lab[v] >= 0
    requires forall i :: 0 <= i < |stack| ==> 0 <= stack[i] < lab.Length && lab[stack[i]] == num
    requires Closed(adj, lab[..], stack)
    modifies lab
    ensures Partial(adj, lab[..], roots) && Closed(adj, lab[..], [])
    ensures forall v :: 0 <= v <= roots[num] ==> lab[v] >= 0
  {
    var todo := stack;
    while todo != []
      invariant Partial(adj, lab[..], roots)
      invariant forall i :: 0 <= i < |todo| ==> 0 <= todo[i] < lab.Length && lab[todo[i]] == num
      invariant Closed(adj, lab[..], todo)
      invariant forall v :: 0 <= v <= roots[num] ==> lab[v] >= 0
      decreases Unlabelled(lab[..]), |todo|
    {
      var u := todo[|todo| - 1];
      var rest := todo[..|todo| - 1];
      assert rest + [u] == todo;
      todo := ScanNeighbours(adj, lab, u, num, roots, rest);
    }
  }

  /** Labels the component of `s`, the smallest unlabelled node, with the next label. */
  method LabelComponent(adj: array2<bool>, lab: array<int>, s: int, num: int, ghost roots: seq<nat>)
    requires num == |roots|
    requires Partial(adj, lab[..], roots) && Closed(adj, lab[..], [])
    requires 0 <= s < lab.Length && lab[s] == -1
    requires forall v :: 0 <= v < s ==> lab[v] >= 0
    requires forall k :: 0 <= k < |roots| ==> roots[k] < s
    modifies lab
    ensures Partial(adj, lab[..], roots + [s as nat]) && Closed(adj, lab[..], [])
    ensures forall v :: 0 <= v <= s ==> lab[v] >= 0
  {
    ghost var roots' := roots + [s as nat];
    StartComponent(adj, lab[..], roots, s);
    lab[s] := num;
    assert roots'[num] == s;
    Drain(adj, lab, num, roots', [s]);
  }

  /** Components numbered 0, 1, ... in the order of their smallest node, as the
      scipy routine numbers them: `roots[k]` is the smallest node of component `k`. */
  method ConnectedComponents(adj: array2<bool>) returns (num: nat, comp: seq<nat>, ghost roots: seq<nat>)
    requires adj.Length0 == adj.Length1
    ensures |comp| == adj.Length0 && |roots| == num
    ensures forall v :: 0 <= v < |comp| ==> comp[v] < num
    ensures forall k :: 0 <= k < num ==> roots[k] < |comp| && comp[roots[k]] == k
    ensures forall k, l :: 0 <= k < l < num ==> roots[k] < roots[l]
    ensures forall v :: 0 <= v < |comp| ==> roots[comp[v]] <= v && Reach(adj, roots[comp[v]], v)
    ensures forall u, v :: Edge(adj, u, v) ==> comp[u] == comp[v]
  {
    var n := adj.Length0;
    var lab := new int[n](_ => -1);
    num, roots := 0, [];
    for s := 0 to n
      invariant |roots| == num
      invariant Partial(adj, lab[..], roots) && Closed(adj, lab[..], [])
      invariant forall v :: 0 <= v < s ==> lab[v] >= 0
      invariant forall k :: 0 <= k < |roots| ==> roots[k] < s
    {
      if lab[s] == -1 {
        LabelComponent(adj, lab, s, num, roots);
        roots := roots + [s];
        num := num + 1;
      }
    }
    var labs := lab[..];
    assert forall v :: 0 <= v < n ==> labs[v] >= 0;
    comp := seq(n, v requires 0 <= v < n => labs[v] as nat);
  }

  // ---------------------------------------------------------------------------
  // What the labelling means, stated on the pixel positions alone.

  /** Pixel `v` follows pixel `u` in the storage order or in the column-major order. */
  ghost predicate Consecutive(pos: seq<(nat, nat)>, u: int, v: int) {
    (0 <= u && v == u + 1 < |pos|)
    || exists k :: 0 <= k && k + 1 < |pos| && ColumnOrder(pos)[k] == u && ColumnOrder(pos)[k + 1] == v
  }

  /** The pixels that the labelling links directly: consecutive in one of the two
      orders and 8-adjacent. */
  ghost predicate Joined(pos: seq<(nat, nat)>, u: int, v: int) {
    0 <= u < |pos| && 0 <= v < |pos| && Consecutive(pos, u, v) && Near(pos[u], pos[v])
  }

  ghost predicate Linked(pos: seq<(nat, nat)>, u: int, v: int) {
    Joined(pos, u, v) || Joined(pos, v, u)
  }

  ghost predicate Chain(pos: seq<(nat, nat)>, p: seq<int>) {
    |p| > 0 && forall i :: 0 <= i < |p| - 1 ==> Linked(pos, p[i], p[i + 1])
  }

  /** Two pixels are in one focus: a chain of direct links joins them. */
  ghost predicate Connected(pos: seq<(nat, nat)>, u: int, v: int) {
    exists p :: Chain(pos, p) && p[0] == u && p[|p| - 1] == v
  }

  /** The row pass adds exactly the links between storage neighbours. */
  lemma RowPassLinks(pos: seq<(nat, nat)>, u: nat, v: nat)
    ensures AddedBy(FociTransitions(pos), Range(0, |pos|), false, |FociTransitions(pos)|, u, v)
        <==> v == u + 1 < |pos| && Near(pos[u], pos[v])
  {
    var stay := FociTransitions(pos);
    if v == u + 1 < |pos| && Near(pos[u], pos[v]) {
      assert stay[u] && StepIs(Range(0, |pos|), false, u, u, v);
    }
  }

  /** A step of the column pass joins pixels listed next to each other that are
      8-adjacent. */
  lemma ColumnStepSound(pos: seq<(nat, nat)>, order: seq<nat>, stay: seq<bool>, k: nat, u: nat, v: nat)
    requires |order| == |pos| && IndicesIn(order, |pos|)
    requires stay == FociTransitions(Transposed(pos, order))
    requires k < |stay| && stay[k] && StepIs(order, true, k, u, v)
    ensures k + 1 < |pos| && order[k] == u && order[k + 1] == v
    ensures u < |pos| && v < |pos| && Near(pos[u], pos[v])
  {
    var t := Transposed(pos, order);
    assert k + 1 < |t| && Near(t[k], t[k + 1]);
    assert t[k] == (pos[u].1, pos[u].0) && t[k + 1] == (pos[v].1, pos[v].0);
  }

  /** Pixels listed next to each other that are 8-adjacent are joined by a step
      of the column pass. */
  lemma ColumnStepComplete(pos: seq<(nat, nat)>, order: seq<nat>, stay: seq<bool>, k: nat)
    requires |order| == |pos| && IndicesIn(order, |pos|)
    requires stay == FociTransitions(Transposed(pos, order))
    requires k + 1 < |pos| && Near(pos[order[k]], pos[order[k + 1]])
    ensures k < |stay| && stay[k] && StepIs(order, true, k, order[k], order[k + 1])
  {
    var t := Transposed(pos, order);
    assert t[k] == (pos[order[k]].1, pos[order[k]].0);
    assert t[k + 1] == (pos[order[k + 1]].1, pos[order[k + 1]].0);
  }

  /** The column pass, run over the pixels listed in `order`, adds exactly the
      links between pixels listed next to each other that are 8-adjacent. */
  lemma ColumnPassLinks(pos: seq<(nat, nat)>, order: seq<nat>, u: nat, v: nat)
    requires |order| == |pos| && IndicesIn(order, |pos|)
    ensures AddedBy(FociTransitions(Transposed(pos, order)), order, true,
                    |FociTransitions(Transposed(pos, order))|, u, v)
        <==> (exists k :: 0 <= k && k + 1 < |pos| && order[k] == u && order[k + 1] == v)
             && u < |pos| && v < |pos| && Near(pos[u], pos[v])
  {
    var stay := FociTransitions(Transposed(pos, order));
    if AddedBy(stay, order, true, |stay|, u, v) {
      var k :| 0 <= k < |stay| && k < |stay| && stay[k] && StepIs(order, true, k, u, v);
      ColumnStepSound(pos, order, stay, k, u, v);
    }
    if exists k :: 0 <= k && k + 1 < |pos| && order[k] == u && order[k + 1] == v {
      var k :| 0 <= k && k + 1 < |pos| && order[k] == u && order[k + 1] == v;
      if u < |pos| && v < |pos| && Near(pos[u], pos[v]) {
        ColumnStepComplete(pos, order, stay, k);
      }
    }
  }

  lemma PathIsChain(adj: array2<bool>, pos: seq<(nat, nat)>, p: seq<int>)
    requires forall u, v :: Edge(adj, u, v) ==> Linked(pos, u, v)
    requires IsPath(adj, p)
    ensures Chain(pos, p)
  {
  }

  lemma ReachIsConnected(adj: array2<bool>, pos: seq<(nat, nat)>, u: int, v: int)
    requires forall a, b :: Edge(adj, a, b) ==> Linked(pos, a, b)
    requires Reach(adj, u, v)
    ensures Connected(pos, u, v)
  {
    var p :| IsPath(adj, p) && p[0] == u && p[|p| - 1] == v;
    PathIsChain(adj, pos, p);
  }

  /** Being in one focus is symmetric. */
  lemma ConnectedSymmetric(pos: seq<(nat, nat)>, u: int, v: int)
    requires Connected(pos, u, v)
    ensures Connected(pos, v, u)
  {
    var p :| Chain(pos, p) && p[0] == u && p[|p| - 1] == v;
    var q := seq(|p|, i requires 0 <= i < |p| => p[|p| - 1 - i]);
    forall i | 0 <= i < |q| - 1 ensures Linked(pos, q[i], q[i + 1]) {
      var j := |p| - 2 - i;
      assert Linked(pos, p[j], p[j + 1]);
    }
    assert Chain(pos, q);
  }

  /** Being in one focus is transitive. */
  lemma ConnectedTransitive(pos: seq<(nat, nat)>, u: int, v: int, w: int)
    requires Connected(pos, u, v) && Connected(pos, v, w)
    ensures Connected(pos, u, w)
  {
    var p :| Chain(pos, p) && p[0] == u && p[|p| - 1] == v;
    var q :| Chain(pos, q) && q[0] == v && q[|q| - 1] == w;
    var r := p + q[1..];
    forall i | 0 <= i < |r| - 1 ensures Linked(pos, r[i], r[i + 1]) {
      if i < |p| - 1 {
        assert r[i] == p[i] && r[i + 1] == p[i + 1];
      } else {
        var j := i - |p| + 1;
        assert r[i] == q[j] && r[i + 1] == q[j + 1];
      }
    }
    assert Chain(pos, r);
  }

  // ---------------------------------------------------------------------------
  // Removal of small foci.

  /** Number of occurrences of `x` in `s`. */
  function Count(s: seq<nat>, x: nat): (c: nat)
    ensures c <= |s|
    ensures c > 0 <==> x in s
  {
    if s == [] then 0
    else Count(s[..|s| - 1], x) + (if s[|s| - 1] == x then 1 else 0)
  }

  /** Sequences that hold `x` at the same places count it equally often. */
  lemma {:induction false} CountSamePlaces(a: seq<nat>, b: seq<nat>, x: nat)
    requires |a| == |b|
    requires forall i :: 0 <= i < |a| ==> (a[i] == x <==> b[i] == x)
    ensures Count(a, x) == Count(b, x)
  {
    if a != [] {
      CountSamePlaces(a[..|a| - 1], b[..|b| - 1], x);
    }
  }

  /** Labels whose focus has fewer than `minSize` members replaced by 0. */
  function SmallRemoved(labels: seq<nat>, minSize: nat): (kept: seq<nat>)
    ensures |kept| == |labels|
    ensures forall i :: 0 <= i < |labels| ==> kept[i] == 0 || kept[i] == labels[i]
  {
    seq(|labels|, i requires 0 <= i < |labels| => if Count(labels, labels[i]) < minSize then 0 else labels[i])
  }

  /** The entries whose new label is not 0, carrying that label, in storage order. */
  function FociEntries<T>(es: seq<Entry<T>>, kept: seq<nat>): (r: seq<Entry<nat>>)
    requires |kept| == |es|
    ensures |r| <= |es|
  {
    if es == [] then []
    else
      var n := |es| - 1;
      FociEntries(es[..n], kept[..n]) + (if kept[n] > 0 then [Entry(es[n].row, es[n].col, kept[n])] else [])
  }

  /** Every output entry is an input pixel carrying its nonzero label. */
  lemma {:induction false} FociEntriesSound<T>(es: seq<Entry<T>>, kept: seq<nat>, j: nat)
    requires |kept| == |es| && j < |FociEntries(es, kept)|
    ensures exists i :: 0 <= i < |es| && kept[i] > 0 && FociEntries(es, kept)[j] == Entry(es[i].row, es[i].col, kept[i])
  {
    var n := |es| - 1;
    var init := FociEntries(es[..n], kept[..n]);
    var r := FociEntries(es, kept);
    if j < |init| {
      FociEntriesSound(es[..n], kept[..n], j);
      var i :| 0 <= i < n && kept[..n][i] > 0 && init[j] == Entry(es[..n][i].row, es[..n][i].col, kept[..n][i]);
      assert r[j] == init[j];
      assert es[..n][i] == es[i] && kept[..n][i] == kept[i];
    } else {
      assert kept[n] > 0 && r[j] == Entry(es[n].row, es[n].col, kept[n]);
    }
  }

  /** Every input pixel with a nonzero label is output. */
  lemma {:induction false} FociEntriesComplete<T>(es: seq<Entry<T>>, kept: seq<nat>, i: nat)
    requires |kept| == |es| && i < |es| && kept[i] > 0
    ensures exists j :: 0 <= j < |FociEntries(es, kept)| && FociEntries(es, kept)[j] == Entry(es[i].row, es[i].col, kept[i])
  {
    var n := |es| - 1;
    var init := FociEntries(es[..n], kept[..n]);
    var r := FociEntries(es, kept);
    if i < n {
      assert kept[..n][i] > 0;
      FociEntriesComplete(es[..n], kept[..n], i);
      var j :| 0 <= j < |init| && init[j] == Entry(es[..n][i].row, es[..n][i].col, kept[..n][i]);
      assert r[j] == init[j];
    } else {
      assert r[|init|] == Entry(es[n].row, es[n].col, kept[n]);
    }
  }

  // ---------------------------------------------------------------------------
  // label_connected_pixels_sparse

  /** `pre` labels the pixels at `pos` with the foci 1..`num`: directly linked
      pixels share a label, every pixel is connected to the first pixel of its
      label (`roots[l - 1]`), and labels are numbered in the order of their first
      pixel, as scipy numbers connected components. */
  ghost predicate FociLabelling(pos: seq<(nat, nat)>, num: nat, pre: seq<nat>, roots: seq<nat>) {
    && |pre| == |pos| && |roots| == num
    && (forall v :: 0 <= v < |pre| ==> 1 <= pre[v] <= num)
    && (forall k :: 0 <= k < num ==> roots[k] < |pre| && pre[roots[k]] == k + 1)
    && (forall k, l :: 0 <= k < l < num ==> roots[k] < roots[l])
    && (forall v, k :: 0 <= v < |pre| && 0 <= k < num && pre[v] == k + 1 ==> roots[k] <= v && Connected(pos, roots[k], v))
    && (forall u, v :: Joined(pos, u, v) ==> pre[u] == pre[v])
  }

  /** The first stored pixel is the first pixel of focus 1. */
  lemma FirstPixelFirstLabel(pos: seq<(nat, nat)>, num: nat, pre: seq<nat>, roots: seq<nat>)
    requires FociLabelling(pos, num, pre, roots) && |pos| > 0
    ensures num > 0 && roots[0] == 0 && pre[0] == 1
  {
    var k := pre[0] - 1;
    assert roots[k] <= 0;
  }

  /** Two pixels share a label exactly when a chain of links joins them. */
  lemma SameLabelIffConnected(pos: seq<(nat, nat)>, num: nat, pre: seq<nat>, roots: seq<nat>, u: nat, v: nat)
    requires FociLabelling(pos, num, pre, roots)
    requires u < |pos| && v < |pos|
    ensures pre[u] == pre[v] <==> Connected(pos, u, v)
  {
    if pre[u] == pre[v] {
      var k := pre[u] - 1;
      var r := roots[k];
      ConnectedSymmetric(pos, r, u);
      ConnectedTransitive(pos, u, r, v);
    }
    if Connected(pos, u, v) {
      var p :| Chain(pos, p) && p[0] == u && p[|p| - 1] == v;
      ChainKeepsLabel(pos, num, pre, roots, p, |p| - 1);
    }
  }

  /** A pixel that no earlier pixel connects to is the first pixel of its
      focus: its label exceeds every earlier label, by exactly one (the label of
      the previous focus's first pixel) unless it is label 1. */
  lemma FirstOfFocus(pos: seq<(nat, nat)>, num: nat, pre: seq<nat>, roots: seq<nat>, v: nat)
    requires FociLabelling(pos, num, pre, roots)
    requires v < |pos| && forall u :: 0 <= u < v ==> !Connected(pos, u, v)
    ensures forall u :: 0 <= u < v ==> pre[u] < pre[v]
    ensures roots[pre[v] - 1] == v
    ensures pre[v] == 1 || (roots[pre[v] - 2] < v && pre[roots[pre[v] - 2]] == pre[v] - 1)
  {
    var k := pre[v] - 1;
    var r := roots[k];
    assert r <= v && Connected(pos, r, v);
    forall u | 0 <= u < v ensures pre[u] < pre[v] {
      var j := pre[u] - 1;
      assert roots[j] <= u;
    }
    if k > 0 {
      assert roots[k - 1] < roots[k] && pre[roots[k - 1]] == k;
    }
  }

  /** Two foci labellings of the same pixels agree on the first `v` labels. */
  lemma {:induction false} LabelsAgreeBelow(pos: seq<(nat, nat)>, num1: nat, pre1: seq<nat>, roots1: seq<nat>,
                                           num2: nat, pre2: seq<nat>, roots2: seq<nat>, v: nat)
    requires FociLabelling(pos, num1, pre1, roots1) && FociLabelling(pos, num2, pre2, roots2)
    requires v <= |pos|
    ensures pre1[..v] == pre2[..v]
  {
    if v > 0 {
      var w := v - 1;
      LabelsAgreeBelow(pos, num1, pre1, roots1, num2, pre2, roots2, w);
      assert forall u :: 0 <= u < w ==> pre1[u] == pre2[u] by {
        forall u | 0 <= u < w ensures pre1[u] == pre2[u] {
          assert pre1[..w][u] == pre2[..w][u];
        }
      }
      if u :| 0 <= u < w && Connected(pos, u, w) {
        SameLabelIffConnected(pos, num1, pre1, roots1, u, w);
        SameLabelIffConnected(pos, num2, pre2, roots2, u, w);
      } else {
        FirstOfFocus(pos, num1, pre1, roots1, w);
        FirstOfFocus(pos, num2, pre2, roots2, w);
      }
      assert pre1[..v] == pre1[..w] + [pre1[w]];
      assert pre2[..v] == pre2[..w] + [pre2[w]];
    }
  }

  /** Numbering foci by their first pixel leaves one labelling: two foci
      labellings of the same pixels have the same number of foci, the same
      labels and the same first pixels. */
  lemma FociLabellingUnique(pos: seq<(nat, nat)>, num1: nat, pre1: seq<nat>, roots1: seq<nat>,
                            num2: nat, pre2: seq<nat>, roots2: seq<nat>)
    requires FociLabelling(pos, num1, pre1, roots1) && FociLabelling(pos, num2, pre2, roots2)
    ensures num1 == num2 && pre1 == pre2 && roots1 == roots2
  {
    LabelsAgreeBelow(pos, num1, pre1, roots1, num2, pre2, roots2, |pos|);
    assert pre1 == pre1[..|pos|] && pre2 == pre2[..|pos|];
    assert num1 <= num2 by {
      if num1 > 0 {
        assert pre2[roots1[num1 - 1]] == num1;
      }
    }
    assert num2 <= num1 by {
      if num2 > 0 {
        assert pre1[roots2[num2 - 1]] == num2;
      }
    }
    forall k | 0 <= k < num1 ensures roots1[k] == roots2[k] {
      assert roots1[k] <= roots2[k] && roots2[k] <= roots1[k];
    }
  }

  lemma {:induction false} ChainKeepsLabel(pos: seq<(nat, nat)>, num: nat, pre: seq<nat>, roots: seq<nat>, p: seq<int>, i: nat)
    requires FociLabelling(pos, num, pre, roots)
    requires Chain(pos, p) && i < |p| && 0 <= p[0] < |pos|
    ensures 0 <= p[i] < |pos| && pre[p[i]] == pre[p[0]]
  {
    if i > 0 {
      ChainKeepsLabel(pos, num, pre, roots, p, i - 1);
      assert Linked(pos, p[i - 1], p[i]);
    }
  }

  /** A set of pixels that no link leaves holds every pixel of a chain from it. */
  lemma {:induction false} ClosedSetKeepsChain(pos: seq<(nat, nat)>, s: set<int>, p: seq<int>, i: nat)
    requires forall u, v :: u in s && Linked(pos, u, v) ==> v in s
    requires Chain(pos, p) && p[0] in s && i < |p|
    ensures p[i] in s
  {
    if i > 0 {
      ClosedSetKeepsChain(pos, s, p, i - 1);
      assert Linked(pos, p[i - 1], p[i]);
    }
  }

  /** A set of pixels that no link leaves holds every pixel connected to a member. */
  lemma ClosedSetKeepsFocus(pos: seq<(nat, nat)>, s: set<int>, u: int, v: int)
    requires forall a, b :: a in s && Linked(pos, a, b) ==> b in s
    requires Connected(pos, u, v) && u in s
    ensures v in s
  {
    var p :| Chain(pos, p) && p[0] == u && p[|p| - 1] == v;
    ClosedSetKeepsChain(pos, s, p, |p| - 1);
  }

  /** Pixels on the two sides of a set that no link leaves carry different labels. */
  lemma ClosedSetSeparatesLabels(pos: seq<(nat, nat)>, num: nat, pre: seq<nat>, roots: seq<nat>, s: set<int>, u: nat, v: nat)
    requires FociLabelling(pos, num, pre, roots)
    requires forall a, b :: a in s && Linked(pos, a, b) ==> b in s
    requires u < |pos| && v < |pos| && u in s && v !in s
    ensures pre[u] != pre[v]
  {
    if pre[u] == pre[v] {
      SameLabelIffConnected(pos, num, pre, roots, u, v);
      ClosedSetKeepsFocus(pos, s, u, v);
    }
  }

  /** The adjacency matrix after both passes of fill_adjacency_1d: an edge
      between two pixels exactly when the labelling links them directly. */
  method BuildAdjacency(pos: seq<(nat, nat)>) returns (adj: array2<bool>)
    ensures fresh(adj) && adj.Length0 == adj.Length1 == |pos|
    ensures forall u, v :: Edge(adj, u, v) <==> Linked(pos, u, v)
  {
    var n := |pos|;
    var rows := FociTransitions(pos);
    var order := ColumnOrder(pos);
    var cols := FociTransitions(Transposed(pos, order));
    adj := new bool[n, n]((_, _) => false);
    FillAdjacency(adj, rows, Range(0, n), false);
    FillAdjacency(adj, cols, order, true);
    EdgesAreLinks(adj, pos, rows, order, cols);
  }

  /** An adjacency matrix holding exactly the pairs of both passes has an
      edge exactly between directly linked pixels. */
  lemma EdgesAreLinks(adj: array2<bool>, pos: seq<(nat, nat)>, rows: seq<bool>, order: seq<nat>, cols: seq<bool>)
    requires rows == FociTransitions(pos) && order == ColumnOrder(pos)
    requires cols == FociTransitions(Transposed(pos, order))
    requires adj.Length0 == adj.Length1 == |pos|
    requires forall u, v :: 0 <= u < adj.Length0 && 0 <= v < adj.Length1 ==>
      adj[u, v] == (AddedBy(rows, Range(0, |pos|), false, |rows|, u, v) || AddedBy(cols, order, true, |cols|, u, v))
    ensures forall u, v :: Edge(adj, u, v) <==> Linked(pos, u, v)
  {
    forall u: int, v: int | 0 <= u < |pos| && 0 <= v < |pos|
      ensures (adj[u, v] || adj[v, u]) <==> Linked(pos, u, v)
    {
      EdgeIsLink(pos, rows, order, cols, u, v, adj[u, v], adj[v, u]);
    }
  }

  /** One pair of the adjacency matrix: an entry set by one of the two
      passes, in either direction, exactly when the pair is directly linked. */
  lemma EdgeIsLink(pos: seq<(nat, nat)>, rows: seq<bool>, order: seq<nat>, cols: seq<bool>,
                   u: nat, v: nat, uv: bool, vu: bool)
    requires rows == FociTransitions(pos) && order == ColumnOrder(pos)
    requires cols == FociTransitions(Transposed(pos, order))
    requires u < |pos| && v < |pos|
    requires uv == (AddedBy(rows, Range(0, |pos|), false, |rows|, u, v) || AddedBy(cols, order, true, |cols|, u, v))
    requires vu == (AddedBy(rows, Range(0, |pos|), false, |rows|, v, u) || AddedBy(cols, order, true, |cols|, v, u))
    ensures (uv || vu) <==> Linked(pos, u, v)
  {
    RowPassLinks(pos, u, v);
    RowPassLinks(pos, v, u);
    ColumnPassLinks(pos, order, u, v);
    ColumnPassLinks(pos, order, v, u);
  }

  /** Components of the adjacency matrix, shifted to start at 1, label the foci. */
  lemma ComponentsAreFoci(adj: array2<bool>, pos: seq<(nat, nat)>, num: nat, comp: seq<nat>, roots: seq<nat>)
    requires adj.Length0 == adj.Length1 == |pos| == |comp| && |roots| == num
    requires forall u, v :: Edge(adj, u, v) <==> Linked(pos, u, v)
    requires forall v :: 0 <= v < |comp| ==> comp[v] < num
    requires forall k :: 0 <= k < num ==> roots[k] < |comp| && comp[roots[k]] == k
    requires forall k, l :: 0 <= k < l < num ==> roots[k] < roots[l]
    requires forall v :: 0 <= v < |comp| ==> roots[comp[v]] <= v && Reach(adj, roots[comp[v]], v)
    requires forall u, v :: Edge(adj, u, v) ==> comp[u] == comp[v]
    ensures FociLabelling(pos, num, seq(|comp|, v requires 0 <= v < |comp| => comp[v] + 1), roots)
  {
    var pre := seq(|comp|, v requires 0 <= v < |comp| => comp[v] + 1);
    forall v, k | 0 <= v < |comp| && 0 <= k < num && pre[v] == k + 1 ensures roots[k] <= v && Connected(pos, roots[k], v) {
      assert k == comp[v];
      ReachIsConnected(adj, pos, roots[comp[v]], v);
    }
    forall u, v | Joined(pos, u, v) ensures pre[u] == pre[v] {
      assert Edge(adj, u, v);
    }
  }

  /** The loop over focus numbers that zeroes the labels of foci with fewer than
      `minSize` pixels. */
  method RemoveSmallFoci(labels: seq<nat>, numFoci: nat, minSize: nat) returns (kept: seq<nat>)
    requires forall i :: 0 <= i < |labels| ==> 1 <= labels[i] <= numFoci
    ensures kept == SmallRemoved(labels, minSize)
  {
    var n := |labels|;
    kept := labels;
    for f := 1 to numFoci + 1
      invariant |kept| == n
      invariant forall i :: 0 <= i < n ==>
        kept[i] == if labels[i] < f && Count(labels, labels[i]) < minSize then 0 else labels[i]
    {
      CountSamePlaces(kept, labels, f);
      if Count(kept, f) < minSize {
        kept := seq(n, i requires 0 <= i < n => if kept[i] == f then 0 else kept[i]);
      }
    }
  }

  /** Labels the foci of the stored pixels of `m` (their values are not read).
      `pre` holds the label of every pixel before small foci are removed; labels
      run from 1 to `numFoci` in the order of their first pixel; `roots[k]` is
      the first pixel of label `k + 1`. */
  method LabelConnectedPixels<T>(m: Coo<T>, minFocusSize: nat)
    returns (numFoci: nat, foci: Coo<nat>, ghost pre: seq<nat>, ghost roots: seq<nat>)
    ensures FociLabelling(Positions(m.entries), numFoci, pre, roots)
    ensures foci == Coo(m.nrows, m.ncols, FociEntries(m.entries, SmallRemoved(pre, minFocusSize)))
  {
    var pos := Positions(m.entries);
    var n := |pos|;
    var adj := BuildAdjacency(pos);
    var comp;
    numFoci, comp, roots := ConnectedComponents(adj);
    var labels := seq(n, v requires 0 <= v < n => comp[v] + 1);
    ComponentsAreFoci(adj, pos, numFoci, comp, roots);
    pre := labels;
    var kept := RemoveSmallFoci(labels, numFoci, minFocusSize);
    foci := Coo(m.nrows, m.ncols, FociEntries(m.entries, kept));
  }
}
