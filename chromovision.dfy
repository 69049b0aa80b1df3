/** explore_patterns of chromovision: passes of the detector, the first with
    the initial kernels and each later one with the agglomerated patterns of
    the pass before, keeping a detected record only when its grid cell (its
    neigh_hash) is new. The detector itself is a parameter: the correlation it
    runs is outside this model. */
module Chromovision {
  import opened Numeric
  import opened Buckets
  import opened Legacy

  /** MAX_ITERATIONS. */
  const MaxIterations := 3

  /** neigh_hash: the string "NA", or a chromosome and a grid cell. */
  datatype Hash = NAHash | Cell(chrom: nat, c1: int, c2: int)

  /** neigh_hash of a record: "NA" for an NA record, otherwise its name and
      the cell of a `window`-sized grid its bins fall in. With a positive
      divisor Dafny's `/` rounds down, like Python's `//`. */
  function NeighHash(r: Record, window: nat): (h: Hash)
    requires window > 0
    ensures r.NA? <==> h.NAHash?
    ensures r.Found? ==>
      && h.chrom == r.name
      && h.c1 * window <= r.bin1 < (h.c1 + 1) * window
      && h.c2 * window <= r.bin2 < (h.c2 + 1) * window
  {
    match r
    case NA(_) => NAHash
    case Found(name, b1, b2, _) => Cell(name, b1 / window, b2 / window)
  }

  function HashOf(window: nat): Record -> Hash
    requires window > 0
  {
    r => NeighHash(r, window)
  }

  /** What one detector call returns: the records, the agglomerated pattern
      and nb_patterns. */
  type Detector<!K> = K -> (seq<Record>, K, nat)

  /** The kernels of the pass after one run over `ks`: one agglomerated
      pattern per kernel, in order. */
  function NextKernels<K>(ks: seq<K>, detect: Detector<K>): (r: seq<K>)
    ensures |r| == |ks|
    ensures forall j :: 0 <= j < |ks| ==> r[j] == detect(ks[j]).1
  {
    seq(|ks|, j requires 0 <= j < |ks| => detect(ks[j]).1)
  }

  /** The kernels pass `i + 1` runs: the initial kernels for the first pass. */
  function Generation<K>(kernels: seq<K>, detect: Detector<K>, i: nat): (ks: seq<K>)
    ensures |ks| == |kernels|
  {
    if i == 0 then kernels else NextKernels(Generation(kernels, detect, i - 1), detect)
  }

  /** All records of one pass, kernel after kernel. */
  function PassRecords<K>(ks: seq<K>, detect: Detector<K>): seq<Record> {
    if ks == [] then []
    else PassRecords(ks[..|ks| - 1], detect) + detect(ks[|ks| - 1]).0
  }

  /** The count a pass records: nb_patterns of its last kernel. */
  function PassCount<K>(ks: seq<K>, detect: Detector<K>): nat
    requires ks != []
  {
    detect(ks[|ks| - 1]).2
  }

  /** All records of the first `p` passes, in the order they are met. */
  function Stream<K>(kernels: seq<K>, detect: Detector<K>, p: nat): seq<Record> {
    if p == 0 then [] else Stream(kernels, detect, p - 1) + PassRecords(Generation(kernels, detect, p - 1), detect)
  }

  /** The count the stop rule compares pass `i`'s count with: the previous
      pass's count, 0 before the second pass. */
  function Previous(counts: seq<nat>, i: nat): nat
    requires i < |counts|
  {
    if i == 0 then 0 else counts[i - 1]
  }

  lemma PassStep<K>(before: seq<Record>, ks: seq<K>, k: nat, detect: Detector<K>)
    requires k < |ks|
    ensures before + PassRecords(ks[..k + 1], detect) == (before + PassRecords(ks[..k], detect)) + detect(ks[k]).0
  {
    assert ks[..k + 1][..k] == ks[..k];
    assert PassRecords(ks[..k + 1], detect) == PassRecords(ks[..k], detect) + detect(ks[k]).0;
  }

  /** `patterns` holds the first record of every neigh_hash in `stream`, and
      `hashes` the neigh_hashes met. */
  ghost predicate Recorded(stream: seq<Record>, window: nat, patterns: set<Record>, hashes: set<Hash>) {
    && window > 0
    && patterns == Kept(stream, HashOf(window))
    && hashes == KeysOf(Dedup(stream, HashOf(window)), HashOf(window))
  }

  /** One pass over a list of kernels: every kernel's records are fed to the
      kept set, every kernel's agglomerated pattern is appended to the pass's
      list, and nb_patterns of the last kernel is returned. */
  method RunPass<K>(ks: seq<K>, detect: Detector<K>, window: nat,
                    ghost before: seq<Record>, patterns: set<Record>, hashes: set<Hash>)
    returns (patterns': set<Record>, hashes': set<Hash>, piled: seq<K>, nb: nat)
    requires ks != [] && Recorded(before, window, patterns, hashes)
    ensures Recorded(before + PassRecords(ks, detect), window, patterns', hashes')
    ensures piled == NextKernels(ks, detect)
    ensures nb == PassCount(ks, detect)
  {
    patterns', hashes', piled := patterns, hashes, [];
    nb := 0;
    ghost var seen := before;
    assert ks[..0] == [];
    for k := 0 to |ks|
      invariant seen == before + PassRecords(ks[..k], detect)
      invariant Recorded(seen, window, patterns', hashes')
      invariant piled == NextKernels(ks[..k], detect)
      invariant k > 0 ==> nb == detect(ks[k - 1]).2
    {
      var result := detect(ks[k]);
      PassStep(before, ks, k, detect);
      patterns', hashes' := AddNew(result.0, HashOf(window), seen, patterns', hashes');
      seen := seen + result.0;
      assert NextKernels(ks[..k + 1], detect) == NextKernels(ks[..k], detect) + [result.1];
      piled := piled + [result.1];
      nb := result.2;
    }
    assert ks[..|ks|] == ks;
  }

  /** The kernel lists of the first `n` generations. */
  function Generations<K>(kernels: seq<K>, detect: Detector<K>, n: nat): (gs: seq<seq<K>>)
    ensures |gs| == n
    ensures forall i :: 0 <= i < n ==> gs[i] == Generation(kernels, detect, i)
  {
    if n == 0 then [] else Generations(kernels, detect, n - 1) + [Generation(kernels, detect, n - 1)]
  }

  /** The counts of the first `n` passes. */
  function Counts<K>(kernels: seq<K>, detect: Detector<K>, n: nat): (cs: seq<nat>)
    requires kernels != []
    ensures |cs| == n
    ensures forall i :: 0 <= i < n ==> cs[i] == PassCount(Generation(kernels, detect, i), detect)
  {
    if n == 0 then [] else Counts(kernels, detect, n - 1) + [PassCount(Generation(kernels, detect, n - 1), detect)]
  }

  /** Every pass but the last changed the count. */
  predicate KeptGoing(counts: seq<nat>) {
    forall i :: 0 <= i < |counts| - 1 ==> counts[i] != Previous(counts, i)
  }

  lemma KeptGoingStep(counts: seq<nat>, c: nat)
    requires KeptGoing(counts)
    requires counts != [] ==> counts[|counts| - 1] != Previous(counts, |counts| - 1)
    ensures KeptGoing(counts + [c])
  {
    var cs := counts + [c];
    forall i | 0 <= i < |cs| - 1 ensures cs[i] != Previous(cs, i) {
      assert cs[i] == counts[i];
      if i > 0 {
        assert cs[i - 1] == counts[i - 1];
      }
    }
  }

  /** The kernels and counts of explore_patterns after `p` passes. */
  ghost predicate Explored<K>(kernels: seq<K>, detect: Detector<K>, p: nat, agglomerated: seq<seq<K>>, counts: seq<nat>) {
    && kernels != []
    && agglomerated == Generations(kernels, detect, p + 1)
    && counts == Counts(kernels, detect, p)
  }

  /** Running the kernels of generation `p` takes the kernels and counts after
      `p` passes to those after `p + 1`. */
  lemma PassDone<K>(kernels: seq<K>, detect: Detector<K>, p: nat, agglomerated: seq<seq<K>>, counts: seq<nat>,
                    piled: seq<K>, nb: nat)
    requires Explored(kernels, detect, p, agglomerated, counts)
    requires piled == NextKernels(Generation(kernels, detect, p), detect)
    requires nb == PassCount(Generation(kernels, detect, p), detect)
    ensures Explored(kernels, detect, p + 1, agglomerated + [piled], counts + [nb])
  {
    assert piled == Generation(kernels, detect, p + 1);
    assert Generations(kernels, detect, p + 2) == agglomerated + [piled];
    assert Counts(kernels, detect, p + 1) == counts + [nb];
  }

  /** One pass of explore_patterns: runs the last generation of kernels,
      appends the next generation and the pass's count, and feeds the pass's
      records to the kept set. */
  method NextPass<K>(kernels: seq<K>, detect: Detector<K>, window: nat, ghost p: nat,
                     agglomerated: seq<seq<K>>, counts: seq<nat>, allPatterns: set<Record>, hashed: set<Hash>)
    returns (agglomerated': seq<seq<K>>, counts': seq<nat>, allPatterns': set<Record>, hashed': set<Hash>, nb: nat)
    requires Explored(kernels, detect, p, agglomerated, counts)
    requires Recorded(Stream(kernels, detect, p), window, allPatterns, hashed)
    ensures Explored(kernels, detect, p + 1, agglomerated', counts')
    ensures Recorded(Stream(kernels, detect, p + 1), window, allPatterns', hashed')
    ensures counts' == counts + [nb]
  {
    var ks := agglomerated[|agglomerated| - 1];
    assert ks == Generation(kernels, detect, p);
    var piled;
    allPatterns', hashed', piled, nb := RunPass(ks, detect, window, Stream(kernels, detect, p), allPatterns, hashed);
    PassDone(kernels, detect, p, agglomerated, counts, piled, nb);
    assert Stream(kernels, detect, p + 1) == Stream(kernels, detect, p) + PassRecords(ks, detect);
    agglomerated', counts' := agglomerated + [piled], counts + [nb];
  }

  /** The pass loop of explore_patterns. It runs at most MAX_ITERATIONS
      passes, and at most `iterations` when a number is given (`None` stands
      for "auto"); it goes on while a pass's count differs from the one before
      (0 before the first); pass `i + 1` runs the kernels of generation `i`,
      appends one agglomerated pattern per kernel and one count; the kept
      records are the first of every neigh_hash in the stream of all records. */
  method ExplorePatterns<K>(kernels: seq<K>, detect: Detector<K>, iterations: Option<int>, window: nat)
    returns (allPatterns: set<Record>, agglomerated: seq<seq<K>>, counts: seq<nat>)
    requires window > 0 && kernels != []
    ensures |counts| <= MaxIterations
    ensures iterations.Some? ==> |counts| <= Max(iterations.value, 0)
    ensures agglomerated == Generations(kernels, detect, |counts| + 1)
    ensures counts == Counts(kernels, detect, |counts|)
    ensures allPatterns == Kept(Stream(kernels, detect, |counts|), HashOf(window))
    ensures KeptGoing(counts)
    ensures || |counts| == MaxIterations
            || (iterations.Some? && |counts| >= iterations.value)
            || (|counts| > 0 && counts[|counts| - 1] == Previous(counts, |counts| - 1))
  {
    allPatterns := {};
    var hashed: set<Hash> := {};
    agglomerated := [kernels];
    var iterationCount := 0;
    var oldCount: int, currentCount: int := -1, 0;
    counts := [];
    assert Explored(kernels, detect, 0, agglomerated, counts);
    while oldCount != currentCount
      invariant iterationCount == |counts| <= MaxIterations
      invariant iterations.Some? ==> iterationCount <= Max(iterations.value, 0)
      invariant Explored(kernels, detect, iterationCount, agglomerated, counts)
      invariant Recorded(Stream(kernels, detect, iterationCount), window, allPatterns, hashed)
      invariant iterationCount == 0 ==> oldCount == -1 && currentCount == 0
      invariant iterationCount > 0 ==>
        oldCount == Previous(counts, iterationCount - 1) && currentCount == counts[iterationCount - 1]
      invariant KeptGoing(counts)
      decreases MaxIterations - iterationCount
    {
      if iterationCount >= MaxIterations || (iterations.Some? && iterationCount >= iterations.value) {
        break;
      }
      oldCount := currentCount;
      var nb;
      KeptGoingStep(counts, PassCount(Generation(kernels, detect, iterationCount), detect));
      agglomerated, counts, allPatterns, hashed, nb := NextPass(kernels, detect, window, iterationCount, agglomerated, counts, allPatterns, hashed);
      iterationCount := iterationCount + 1;
      currentCount := nb;
    }
  }

  /** At most one kept record per neigh_hash, so a single NA record overall
      and at most one record per grid cell of each chromosome; every kept
      record was detected, and is the first detected record of its hash. */
  lemma KeptOnePerHash(stream: seq<Record>, window: nat, r: Record, r': Record)
    requires window > 0
    requires r in Kept(stream, HashOf(window)) && r' in Kept(stream, HashOf(window))
    ensures NeighHash(r, window) == NeighHash(r', window) ==> r == r'
    ensures r.NA? && r'.NA? ==> r == r'
    ensures exists i ::
      && 0 <= i < |stream| && stream[i] == r
      && forall j :: 0 <= j < i ==> NeighHash(stream[j], window) != NeighHash(r, window)
  {
    var key := HashOf(window);
    var d := Dedup(stream, key);
    DedupOnePerKey(stream, key);
    var i :| 0 <= i < |d| && d[i] == r;
    var j :| 0 <= j < |d| && d[j] == r';
    if NeighHash(r, window) == NeighHash(r', window) {
      assert key(d[i]) == key(d[j]);
      assert !(i < j) && !(j < i);
    }
    DedupFirstWins(stream, key, i);
  }

  /** Every detected record's neigh_hash is held by a kept record. */
  lemma EveryHashKept(stream: seq<Record>, window: nat, i: nat)
    requires window > 0 && i < |stream|
    ensures exists r :: r in Kept(stream, HashOf(window)) && NeighHash(r, window) == NeighHash(stream[i], window)
  {
    var key := HashOf(window);
    var d := Dedup(stream, key);
    DedupCoversKeys(stream, key);
    var k :| 0 <= k < |d| && key(d[k]) == key(stream[i]);
    assert d[k] in Kept(stream, key);
  }
}
