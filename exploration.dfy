/** explore_patterns (the multi-pass driver of chromosight) and remove_smears.
    The detector that each pass runs is a parameter: it maps a kernel to the
    detected (row, col, score) triples and the windows piled up for the next
    pass. */
module Exploration {
  import opened Numeric
  import opened Buckets

  /** One detected pattern: its two positions and its score. */
  datatype Hit = Hit(pos1: int, pos2: int, score: real)

  /** neigh_hash: the cell of a `window`-sized grid the pattern falls in. With a
      positive divisor Dafny's `/` rounds down, like Python's `//`. */
  function NeighHash(h: Hit, window: nat): (cell: (int, int))
    requires window > 0
    ensures cell.0 * window <= h.pos1 < (cell.0 + 1) * window
    ensures cell.1 * window <= h.pos2 < (cell.1 + 1) * window
  {
    (h.pos1 / window, h.pos2 / window)
  }

  /** neigh_hash as a key function for the first-come deduplication. */
  function CellOf(window: nat): (cell: Hit -> (int, int))
    requires window > 0
  {
    h => NeighHash(h, window)
  }

  /** The set of patterns kept from a stream of detections: a detection is
      kept when no pattern kept before it falls in its cell. */
  function Patterns(hits: seq<Hit>, window: nat): (ps: set<Hit>)
    requires window > 0
  {
    Kept(hits, CellOf(window))
  }

  /** The cells taken by the kept patterns (hashed_neighborhoods). */
  function Taken(hits: seq<Hit>, window: nat): (cs: set<(int, int)>)
    requires window > 0
  {
    KeysOf(Dedup(hits, CellOf(window)), CellOf(window))
  }

  /** The kept patterns are detections, at most one per cell, and every
      detection's cell holds a kept pattern. */
  lemma PatternsOnePerCell(hits: seq<Hit>, window: nat)
    requires window > 0
    ensures forall p :: p in Patterns(hits, window) ==> p in hits
    ensures forall p, q :: p in Patterns(hits, window) && q in Patterns(hits, window) && NeighHash(p, window) == NeighHash(q, window) ==> p == q
    ensures forall i :: 0 <= i < |hits| ==> exists p :: p in Patterns(hits, window) && NeighHash(p, window) == NeighHash(hits[i], window)
  {
    var key := CellOf(window);
    var d := Dedup(hits, key);
    DedupKeepsItems(hits, key);
    DedupOnePerKey(hits, key);
    DedupCoversKeys(hits, key);
    forall p, q | p in Patterns(hits, window) && q in Patterns(hits, window) && NeighHash(p, window) == NeighHash(q, window)
      ensures p == q
    {
      var i :| 0 <= i < |d| && d[i] == p;
      var j :| 0 <= j < |d| && d[j] == q;
      assert key(d[i]) == key(d[j]);
      assert !(i < j) && !(j < i);
    }
    forall i | 0 <= i < |hits|
      ensures exists p :: p in Patterns(hits, window) && NeighHash(p, window) == NeighHash(hits[i], window)
    {
      var k :| 0 <= k < |d| && key(d[k]) == key(hits[i]);
      assert d[k] in Patterns(hits, window);
    }
  }

  /** A kept pattern is the first detection of its cell. */
  lemma PatternsFirstWins(hits: seq<Hit>, window: nat, p: Hit)
    requires window > 0
    requires p in Patterns(hits, window)
    ensures exists i ::
      && 0 <= i < |hits| && hits[i] == p
      && forall j :: 0 <= j < i ==> NeighHash(hits[j], window) != NeighHash(p, window)
  {
    var key := CellOf(window);
    var d := Dedup(hits, key);
    var k :| 0 <= k < |d| && d[k] == p;
    DedupFirstWins(hits, key, k);
  }

  // ---------------------------------------------------------------------------
  // explore_patterns

  /** The keys of the kernel table: the original kernels, and one list per pass. */
  datatype Key = Ori | Pass(i: nat)

  /** All detections of one pass, kernel after kernel. */
  function PassHits<K>(kernels: seq<K>, detect: K -> (seq<Hit>, K)): seq<Hit> {
    if kernels == [] then []
    else PassHits(kernels[..|kernels| - 1], detect) + detect(kernels[|kernels| - 1]).0
  }

  /** The windows piled up by one pass, one per kernel. */
  function PassPileups<K>(kernels: seq<K>, detect: K -> (seq<Hit>, K)): (ps: seq<K>)
    ensures |ps| == |kernels|
    ensures forall k :: 0 <= k < |kernels| ==> ps[k] == detect(kernels[k]).1
  {
    seq(|kernels|, k requires 0 <= k < |kernels| => detect(kernels[k]).1)
  }

  /** One pass of explore_patterns over a list of kernels: every kernel's
      detections are deduplicated into the kept set, every kernel's windows
      are appended to the pass's list, and the count of the last kernel's
      detections is returned. */
  method RunPass<K>(kernels: seq<K>, detect: K -> (seq<Hit>, K), window: nat,
                    ghost before: seq<Hit>, patterns: set<Hit>, cells: set<(int, int)>, piled: seq<K>)
    returns (patterns': set<Hit>, cells': set<(int, int)>, piled': seq<K>, count: nat)
    requires window > 0 && kernels != []
    requires patterns == Patterns(before, window)
    requires cells == Taken(before, window)
    ensures patterns' == Patterns(before + PassHits(kernels, detect), window)
    ensures cells' == Taken(before + PassHits(kernels, detect), window)
    ensures piled' == piled + PassPileups(kernels, detect)
    ensures count == |detect(kernels[|kernels| - 1]).0|
  {
    patterns', cells', piled' := patterns, cells, piled;
    count := 0;
    assert kernels[..0] == [];
    assert before + PassHits(kernels[..0], detect) == before;
    assert piled + PassPileups(kernels[..0], detect) == piled;
    for k := 0 to |kernels|
      invariant patterns' == Patterns(before + PassHits(kernels[..k], detect), window)
      invariant cells' == Taken(before + PassHits(kernels[..k], detect), window)
      invariant piled' == piled + PassPileups(kernels[..k], detect)
      invariant k > 0 ==> count == |detect(kernels[k - 1]).0|
    {
      var result := detect(kernels[k]);
      ghost var seen := before + PassHits(kernels[..k], detect);
      PassStep(before, piled, kernels, k, detect);
      patterns', cells' := AddNew(result.0, CellOf(window), seen, patterns', cells');
      piled' := piled' + [result.1];
      count := |result.0|;
    }
    assert kernels[..|kernels|] == kernels;
  }

  /** The kernels a pass runs: the original ones for the first pass, the
      windows piled up by the previous pass otherwise. */
  function KernelsForPass<K>(table: map<Key, seq<K>>, i: nat): seq<K>
    requires i >= 1
    requires i == 1 ==> Ori in table
    requires i > 1 ==> Pass(i - 1) in table
  {
    if i == 1 then table[Ori] else table[Pass(i - 1)]
  }

  /** One kernel more in a pass appends its detections and its window. */
  lemma PassStep<K>(before: seq<Hit>, piled: seq<K>, kernels: seq<K>, k: nat, detect: K -> (seq<Hit>, K))
    requires k < |kernels|
    ensures before + PassHits(kernels[..k + 1], detect) == (before + PassHits(kernels[..k], detect)) + detect(kernels[k]).0
    ensures piled + PassPileups(kernels[..k + 1], detect) == (piled + PassPileups(kernels[..k], detect)) + [detect(kernels[k]).1]
  {
    assert kernels[..k + 1][..k] == kernels[..k];
  }

  /** The kernel table before the first pass: an empty list per pass. */
  function EmptyPasses<K>(maxIterations: nat): (m: map<Key, seq<K>>)
    ensures m.Keys == set i: nat | 1 <= i <= maxIterations :: Pass(i)
    ensures forall i: nat :: 1 <= i <= maxIterations ==> m[Pass(i)] == []
  {
    map i: nat | 1 <= i <= maxIterations :: Pass(i) := []
  }

  /** explore_patterns. The stop rule compares a count that is never updated,
      so only the first pass runs: the kept patterns are the deduplicated
      detections of the original kernels, pass 1 holds their windows, the other
      passes stay empty, the original kernels are dropped from the table, and
      one count is recorded. */
  method ExplorePatterns<K>(kernels: seq<K>, detect: K -> (seq<Hit>, K), maxIterations: nat, window: nat)
    returns (allPatterns: set<Hit>, table: map<Key, seq<K>>, counts: seq<nat>)
    requires window > 0
    requires maxIterations >= 1 ==> kernels != []
    ensures table.Keys == set i: nat | 1 <= i <= maxIterations :: Pass(i)
    ensures maxIterations == 0 ==> allPatterns == {} && counts == []
    ensures maxIterations >= 1 ==>
      && allPatterns == Patterns(PassHits(kernels, detect), window)
      && table[Pass(1)] == PassPileups(kernels, detect)
      && counts == [|detect(kernels[|kernels| - 1]).0|]
    ensures forall i: nat :: 2 <= i <= maxIterations ==> table[Pass(i)] == []
  {
    allPatterns := {};
    var cells: set<(int, int)> := {};
    var oldCount, currentCount := -1, 0;
    counts := [];
    table := EmptyPasses(maxIterations)[Ori := kernels];
    for i := 1 to maxIterations + 1
      invariant oldCount == (if i == 1 then -1 else 0) && currentCount == 0
      invariant table.Keys == {Ori} + set j: nat | 1 <= j <= maxIterations :: Pass(j)
      invariant table[Ori] == kernels
      invariant forall j: nat :: 2 <= j <= maxIterations ==> table[Pass(j)] == []
      invariant i == 1 ==> allPatterns == {} && counts == [] && cells == {}
      invariant i == 1 && maxIterations >= 1 ==> table[Pass(1)] == []
      invariant i > 1 ==>
        && allPatterns == Patterns(PassHits(kernels, detect), window)
        && table[Pass(1)] == PassPileups(kernels, detect)
        && counts == [|detect(kernels[|kernels| - 1]).0|]
    {
      if oldCount != currentCount {
        oldCount := currentCount;
        var current := KernelsForPass(table, i);
        var piled, count;
        assert Dedup([], CellOf(window)) == [];
        allPatterns, cells, piled, count := RunPass(current, detect, window, [], allPatterns, cells, table[Pass(i)]);
        assert [] + PassHits(kernels, detect) == PassHits(kernels, detect);
        table := table[Pass(i) := piled];
        counts := counts + [count];
      }
    }
    table := table - {Ori};
  }

  // ---------------------------------------------------------------------------
  // remove_smears

  /** A row of the pattern table: bin1, bin2 and score. */
  datatype Row = Row(bin1: int, bin2: int, score: real)

  /** Row `i` is the first row of its group (rows with the same key) with the
      group's best score. */
  predicate GroupBest(rows: seq<Row>, key: Row -> (int, int), i: nat)
    requires i < |rows|
  {
    && (forall j :: 0 <= j < |rows| && key(rows[j]) == key(rows[i]) ==> rows[j].score <= rows[i].score)
    && (forall j :: 0 <= j < i && key(rows[j]) == key(rows[i]) ==> rows[j].score < rows[i].score)
  }

  /** The group keys in order of first appearance (groupby with sort=False). */
  function GroupKeys(rows: seq<Row>, key: Row -> (int, int)): (ks: seq<(int, int)>)
    ensures forall g :: g in ks <==> exists i :: 0 <= i < |rows| && key(rows[i]) == g
  {
    if rows == [] then []
    else
      var n := |rows| - 1;
      var init := GroupKeys(rows[..n], key);
      assert forall i :: 0 <= i < n ==> rows[..n][i] == rows[i];
      if key(rows[n]) in init then init else init + [key(rows[n])]
  }

  /** idxmax of the scores of group `g` among the first `n` rows: the first
      row of the group with the largest score. */
  function IdxMax(rows: seq<Row>, key: Row -> (int, int), g: (int, int), n: nat): (best: Option<nat>)
    requires n <= |rows|
    ensures best.None? <==> forall j :: 0 <= j < n ==> key(rows[j]) != g
    ensures best.Some? ==> best.value < n && key(rows[best.value]) == g
    ensures best.Some? ==> forall j :: 0 <= j < n && key(rows[j]) == g ==> rows[j].score <= rows[best.value].score
    ensures best.Some? ==> forall j :: 0 <= j < best.value && key(rows[j]) == g ==> rows[j].score < rows[best.value].score
  {
    if n == 0 then None
    else
      var prev := IdxMax(rows, key, g, n - 1);
      if key(rows[n - 1]) != g then prev
      else if prev.None? || rows[n - 1].score > rows[prev.value].score then Some(n - 1)
      else prev
  }

  /** The best rows of the groups, in order of the groups. */
  function BestRows(rows: seq<Row>, key: Row -> (int, int), ks: seq<(int, int)>): (best: seq<nat>)
    requires forall g :: g in ks ==> exists i :: 0 <= i < |rows| && key(rows[i]) == g
    ensures |best| == |ks|
    ensures forall k :: 0 <= k < |ks| ==> IdxMax(rows, key, ks[k], |rows|) == Some(best[k])
  {
    if ks == [] then []
    else
      var n := |ks| - 1;
      assert forall g :: g in ks[..n] ==> g in ks;
      assert ks[n] in ks;
      BestRows(rows, key, ks[..n]) + [IdxMax(rows, key, ks[n], |rows|).value]
  }

  /** remove_smears with the grouping key as a parameter: a mask with `true`
      at the best row of every group. */
  function SmearMask(rows: seq<Row>, key: Row -> (int, int)): (mask: seq<bool>)
    ensures |mask| == |rows|
  {
    var best := BestRows(rows, key, GroupKeys(rows, key));
    seq(|rows|, i requires 0 <= i < |rows| => i in best)
  }

  /** A marked row is the first best row of its group. */
  lemma MarkedIsGroupBest(rows: seq<Row>, key: Row -> (int, int), i: nat)
    requires i < |rows|
    requires SmearMask(rows, key)[i]
    ensures GroupBest(rows, key, i)
  {
    var ks := GroupKeys(rows, key);
    var best := BestRows(rows, key, ks);
    var k :| 0 <= k < |best| && best[k] == i;
    assert key(rows[i]) == ks[k];
  }

  /** The first best row of a group is marked. */
  lemma GroupBestIsMarked(rows: seq<Row>, key: Row -> (int, int), i: nat)
    requires i < |rows|
    requires GroupBest(rows, key, i)
    ensures SmearMask(rows, key)[i]
  {
    var ks := GroupKeys(rows, key);
    var best := BestRows(rows, key, ks);
    var b := IdxMax(rows, key, key(rows[i]), |rows|).value;
    assert rows[i].score <= rows[b].score;
    assert rows[b].score <= rows[i].score;
    assert b == i;
    assert key(rows[i]) in ks;
    var k :| 0 <= k < |ks| && ks[k] == key(rows[i]);
    assert best[k] == i;
  }

  /** The mask marks a row exactly when it is the first best row of its group;
      so every group has exactly one marked row. */
  lemma SmearMaskIsGroupBest(rows: seq<Row>, key: Row -> (int, int), i: nat)
    requires i < |rows|
    ensures SmearMask(rows, key)[i] <==> GroupBest(rows, key, i)
  {
    if SmearMask(rows, key)[i] {
      MarkedIsGroupBest(rows, key, i);
    }
    if GroupBest(rows, key, i) {
      GroupBestIsMarked(rows, key, i);
    }
  }

  /** The key remove_smears uses as written: the raw bins (the `// win_size`
      cells are stored as attributes and never used by the grouping). */
  function RawKey(r: Row): (int, int) {
    (r.bin1, r.bin2)
  }

  /** The key its documentation describes: the `win_size` cell of the bins. */
  function CellKey(winSize: nat): Row -> (int, int)
    requires winSize > 0
  {
    (r: Row) => (r.bin1 / winSize, r.bin2 / winSize)
  }

  /** remove_smears as written. */
  function RemoveSmearsAsWritten(rows: seq<Row>): (mask: seq<bool>)
    ensures |mask| == |rows|
  {
    SmearMask(rows, RawKey)
  }

  /** remove_smears as documented: at most one pattern kept per cell. */
  function RemoveSmears(rows: seq<Row>, winSize: nat): (mask: seq<bool>)
    requires winSize > 0
    ensures |mask| == |rows|
  {
    SmearMask(rows, CellKey(winSize))
  }

  /** As written, two distinct patterns are never smears of each other: every
      row whose bins differ from all other rows is kept, however close. */
  lemma AsWrittenKeepsCloseNeighbours()
    ensures RemoveSmearsAsWritten([Row(0, 0, 1.0), Row(0, 1, 2.0)]) == [true, true]
  {
    var rows := [Row(0, 0, 1.0), Row(0, 1, 2.0)];
    SmearMaskIsGroupBest(rows, RawKey, 0);
    SmearMaskIsGroupBest(rows, RawKey, 1);
  }

  /** As documented, of two patterns in the same cell only the better one is kept. */
  lemma CellKeyDropsSmear()
    ensures RemoveSmears([Row(0, 0, 1.0), Row(0, 1, 2.0)], 8) == [false, true]
  {
    var rows := [Row(0, 0, 1.0), Row(0, 1, 2.0)];
    var key := CellKey(8);
    assert key(rows[0]) == key(rows[1]) == (0, 0);
    assert !GroupBest(rows, key, 0) by {
      assert rows[1].score > rows[0].score;
    }
    assert GroupBest(rows, key, 1);
    SmearMaskIsGroupBest(rows, key, 0);
    SmearMaskIsGroupBest(rows, key, 1);
  }

  /** As documented, no two kept patterns share a cell. */
  lemma RemoveSmearsOnePerCell(rows: seq<Row>, winSize: nat, i: nat, j: nat)
    requires winSize > 0
    requires i < j < |rows|
    requires RemoveSmears(rows, winSize)[i] && RemoveSmears(rows, winSize)[j]
    ensures CellKey(winSize)(rows[i]) != CellKey(winSize)(rows[j])
  {
    SmearMaskIsGroupBest(rows, CellKey(winSize), i);
    SmearMaskIsGroupBest(rows, CellKey(winSize), j);
  }
}
