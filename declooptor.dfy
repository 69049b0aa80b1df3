/** declooptor: the same detection step as chromovision over matrices it
    detrends itself, and an exploration driver that records the detected
    patterns per chromosome, dropping a pattern when a recorded one of its
    chromosome lies in the 3 by 3 block of bins around it. The detrending,
    the correlation and the picker are numerics outside this model: their
    results are inputs. */
module Declooptor {
  import opened Numeric
  import opened Validation
  import opened Pileup
  import opened Legacy
  import Labelling

  // ---------------------------------------------------------------------------
  // pattern_detector

  /** One input matrix with what the numerics compute from it: the detrended
      matrix and its threshold vector, the correlation map padded to the
      matrix's size, and the picker's peaks (`None` for its "NA"). */
  datatype Raw = Raw(
    n: nat,
    matrix: seq<seq<real>>,
    detrended: seq<seq<real>>,
    thresholds: seq<real>,
    corr: seq<seq<real>>,
    peaks: Option<seq<(nat, nat)>>)

  predicate RawShaped(raw: Raw) {
    && Square(raw.matrix, raw.n) && Square(raw.detrended, raw.n) && Square(raw.corr, raw.n)
    && |raw.thresholds| == raw.n
  }

  predicate AllRawShaped(raws: seq<Raw>) {
    forall k :: 0 <= k < |raws| ==> RawShaped(raws[k])
  }

  /** The sum of column `j` over the first `k` rows. */
  function ColumnSum(m: seq<seq<real>>, j: nat, k: nat): real
    requires k <= |m| && forall i :: 0 <= i < |m| ==> j < |m[i]|
  {
    if k == 0 then 0.0 else ColumnSum(m, j, k - 1) + m[k - 1][j]
  }

  /** The detectable bins: those whose column sum exceeds their threshold. */
  function DetectableBins(raw: Raw): set<nat>
    requires RawShaped(raw)
  {
    set j | 0 <= j < raw.n && ColumnSum(raw.matrix, j, raw.n) > raw.thresholds[j]
  }

  /** The matrix as the detection step sees it: windows are cut from the
      detrended matrix. */
  function AsLegacy(raw: Raw): (mat: Matrix)
    requires RawShaped(raw)
    ensures WellShaped(mat)
  {
    Matrix(raw.n, raw.detrended, DetectableBins(raw), raw.corr, raw.peaks)
  }

  function AsLegacyAll(raws: seq<Raw>): (mats: seq<Matrix>)
    requires AllRawShaped(raws)
    ensures |mats| == |raws| && AllWellShaped(mats)
    ensures forall k :: 0 <= k < |raws| ==> mats[k] == AsLegacy(raws[k])
  {
    seq(|raws|, k requires 0 <= k < |raws| => AsLegacy(raws[k]))
  }

  /** pattern_detector of declooptor: the records of every matrix in turn and
      the agglomerated pattern of the accepted windows but the first. */
  method PatternDetector(raws: seq<Raw>, c: Config)
    returns (detected: seq<Record>, agglomerated: seq<seq<Option<real>>>)
    requires AllRawShaped(raws)
    ensures detected == Records(AsLegacyAll(raws), |raws|, c)
    ensures agglomerated == PileupPatterns(AfterFirst(Windows(AsLegacyAll(raws), |raws|, c)), Side(c.area), Side(c.area))
  {
    var mats := AsLegacyAll(raws);
    var nb;
    detected, agglomerated, nb := Legacy.PatternDetector(mats, c);
  }

  /** A pattern declooptor reports lies on two bins whose column sums exceed
      their thresholds, has a window of the detrended matrix around it with
      few enough 1.0 pixels, and names a matrix of the list. */
  lemma FoundAboveThreshold(raws: seq<Raw>, c: Config, r: Record)
    requires AllRawShaped(raws)
    requires r in Records(AsLegacyAll(raws), |raws|, c)
    ensures r.name < |raws|
    ensures r.Found? ==> r.bin1 < raws[r.name].n && r.bin2 < raws[r.name].n
    ensures r.Found? ==> ColumnSum(raws[r.name].matrix, r.bin1, raws[r.name].n) > raws[r.name].thresholds[r.bin1]
    ensures r.Found? ==> ColumnSum(raws[r.name].matrix, r.bin2, raws[r.name].n) > raws[r.name].thresholds[r.bin2]
    ensures r.Found? ==> Windowable(Canonical((r.bin1, r.bin2)), c.area, raws[r.name].n)
    ensures r.Found? ==>
      FewOnes(Cut(raws[r.name].detrended, raws[r.name].n, Canonical((r.bin1, r.bin2)), c.area), c.area, c.pct)
  {
    var mats := AsLegacyAll(raws);
    RecordsSound(mats, |raws|, c, r);
    if r.Found? {
      assert mats[r.name] == AsLegacy(raws[r.name]);
    }
  }

  /** Every record a detector call returns names a matrix below `m` and, when
      found, lies on bins below `n`. */
  predicate Bounded(rs: seq<Record>, m: nat, n: nat) {
    forall i :: 0 <= i < |rs| ==> rs[i].name < m && (rs[i].Found? ==> rs[i].bin1 < n && rs[i].bin2 < n)
  }

  /** The records of pattern_detector are bounded by the number of matrices
      and the largest matrix size. */
  lemma DetectedBounded(raws: seq<Raw>, c: Config, n: nat)
    requires AllRawShaped(raws)
    requires forall k :: 0 <= k < |raws| ==> raws[k].n <= n
    ensures Bounded(Records(AsLegacyAll(raws), |raws|, c), |raws|, n)
  {
    var rs := Records(AsLegacyAll(raws), |raws|, c);
    forall i | 0 <= i < |rs| ensures rs[i].name < |raws| && (rs[i].Found? ==> rs[i].bin1 < n && rs[i].bin2 < n) {
      FoundAboveThreshold(raws, c, rs[i]);
    }
  }

  // ---------------------------------------------------------------------------
  // clean_by_neighborhood

  /** A recorded pattern of one chromosome: its two bins and its score. */
  type Entry = (nat, nat, real)

  /** all_patterns: the recorded patterns of each chromosome, in order. */
  type Table = map<nat, seq<Entry>>

  /** The recorded patterns of a chromosome, none when it has no list yet. */
  function Get(t: Table, c: nat): seq<Entry> {
    if c in t then t[c] else []
  }

  /** The 3 by 3 block of positions around (p1, p2). */
  function Neighbourhood(p1: int, p2: int): (s: set<(int, int)>)
    ensures forall q :: q in s <==> Labelling.Near((p1, p2), (q.0, q.1))
  {
    set a, b | p1 - 1 <= a < p1 + 2 && p2 - 1 <= b < p2 + 2 :: (a, b)
  }

  /** The positions of the recorded patterns of a chromosome. */
  function RecordedCells(t: Table, c: nat): set<(int, int)> {
    set i | 0 <= i < |Get(t, c)| :: (Get(t, c)[i].0 as int, Get(t, c)[i].1 as int)
  }

  /** clean_by_neighborhood's test as its comment intends: a detected record
      is kept when it is not NA and no recorded pattern of its chromosome lies
      in the 3 by 3 block around it. */
  predicate Fresh(t: Table, r: Record) {
    r.Found? && Neighbourhood(r.bin1, r.bin2) * RecordedCells(t, r.name) == {}
  }

  /** Fresh, stated pattern by pattern: a record is fresh exactly when it is
      found and every recorded pattern of its chromosome is at least two bins
      away from it on one axis. */
  lemma FreshMeansApart(t: Table, r: Record)
    ensures Fresh(t, r) <==>
      r.Found? && forall i :: 0 <= i < |Get(t, r.name)| ==> !Labelling.Near((r.bin1, r.bin2), (Get(t, r.name)[i].0, Get(t, r.name)[i].1))
  {
    if r.Found? {
      var es := Get(t, r.name);
      if !Fresh(t, r) {
        var q :| q in Neighbourhood(r.bin1, r.bin2) * RecordedCells(t, r.name);
        var i :| 0 <= i < |es| && q == (es[i].0 as int, es[i].1 as int);
        assert Labelling.Near((r.bin1, r.bin2), (es[i].0, es[i].1));
      } else {
        forall i | 0 <= i < |es| ensures !Labelling.Near((r.bin1, r.bin2), (es[i].0, es[i].1)) {
          var q := (es[i].0 as int, es[i].1 as int);
          assert q in RecordedCells(t, r.name);
          assert q !in Neighbourhood(r.bin1, r.bin2) * RecordedCells(t, r.name);
          assert q !in Neighbourhood(r.bin1, r.bin2);
        }
      }
    }
  }

  /** The table after one detected record: a fresh record is appended to its
      chromosome's list (a new list when there is none), anything else leaves
      the table as it is. */
  function Absorb(t: Table, r: Record): Table {
    if Fresh(t, r) then t[r.name := Get(t, r.name) + [(r.bin1, r.bin2, r.score)]] else t
  }

  /** The table after a list of detected records, taken in order: the
      generator reads the table afresh for every record, after the records
      before it have been appended. */
  function AbsorbAll(t: Table, rs: seq<Record>): Table {
    if rs == [] then t else Absorb(AbsorbAll(t, rs[..|rs| - 1]), rs[|rs| - 1])
  }

  /** The loop over clean_by_neighborhood's output: every record it yields is
      appended to its chromosome's list, which is created on a KeyError. */
  method StoreCleaned(t: Table, rs: seq<Record>) returns (t': Table)
    ensures t' == AbsorbAll(t, rs)
  {
    t' := t;
    assert rs[..0] == [];
    for k := 0 to |rs|
      invariant t' == AbsorbAll(t, rs[..k])
    {
      var r := rs[k];
      assert rs[..k + 1][..k] == rs[..k];
      assert AbsorbAll(t, rs[..k + 1]) == Absorb(t', r);
      if r.Found? && Neighbourhood(r.bin1, r.bin2) * RecordedCells(t', r.name) == {} {
        var e := (r.bin1, r.bin2, r.score);
        if r.name in t' {
          t' := t'[r.name := t'[r.name] + [e]];
        } else {
          assert Get(t', r.name) + [e] == [e];
          t' := t'[r.name := [e]];
        }
      }
    }
    assert rs[..|rs|] == rs;
  }

  /** No two recorded patterns of a chromosome are neighbours. */
  predicate Spread(t: Table) {
    forall c, i, j :: c in t && 0 <= i < j < |t[c]| ==> !Labelling.Near((t[c][i].0, t[c][i].1), (t[c][j].0, t[c][j].1))
  }

  lemma AbsorbKeepsSpread(t: Table, r: Record)
    requires Spread(t)
    ensures Spread(Absorb(t, r))
  {
    if Fresh(t, r) {
      FreshMeansApart(t, r);
      var t': Table := Absorb(t, r);
      forall c: nat, i: int, j: int | c in t' && 0 <= i < j < |t'[c]|
        ensures !Labelling.Near((t'[c][i].0, t'[c][i].1), (t'[c][j].0, t'[c][j].1))
      {
        if c == r.name && j == |t'[c]| - 1 {
          assert t'[c][i] == Get(t, c)[i];
        }
      }
    }
  }

  /** Recording keeps the recorded patterns of every chromosome apart. */
  lemma {:induction false} AbsorbAllKeepsSpread(t: Table, rs: seq<Record>)
    requires Spread(t)
    ensures Spread(AbsorbAll(t, rs))
  {
    if rs != [] {
      AbsorbAllKeepsSpread(t, rs[..|rs| - 1]);
      AbsorbKeepsSpread(AbsorbAll(t, rs[..|rs| - 1]), rs[|rs| - 1]);
    }
  }

  /** `s` begins with `p`. */
  predicate Prefix<E(==)>(p: seq<E>, s: seq<E>) {
    |p| <= |s| && s[..|p|] == p
  }

  /** Recording never loses a pattern: every list keeps its entries and
      their order, and only grows at its end. */
  lemma {:induction false} AbsorbAllExtends(t: Table, rs: seq<Record>)
    ensures forall c :: Prefix(Get(t, c), Get(AbsorbAll(t, rs), c))
  {
    if rs != [] {
      var u := AbsorbAll(t, rs[..|rs| - 1]);
      AbsorbAllExtends(t, rs[..|rs| - 1]);
      forall c ensures Prefix(Get(t, c), Get(AbsorbAll(t, rs), c)) {
        var p := Get(t, c);
        assert Prefix(p, Get(u, c));
        if Fresh(u, rs[|rs| - 1]) && c == rs[|rs| - 1].name {
          assert Get(AbsorbAll(t, rs), c)[..|p|] == Get(u, c)[..|p|];
        }
      }
    }
  }

  /** Every recorded pattern was recorded before or is a found record of the
      list, with its bins and score; in particular no NA record is ever
      recorded. */
  lemma {:induction false} AbsorbAllSound(t: Table, rs: seq<Record>, c: nat, e: Entry)
    requires e in Get(AbsorbAll(t, rs), c)
    ensures e in Get(t, c) || Found(c, e.0, e.1, e.2) in rs
  {
    if rs != [] {
      var n := |rs| - 1;
      var u := AbsorbAll(t, rs[..n]);
      if e in Get(u, c) {
        AbsorbAllSound(t, rs[..n], c, e);
        if e !in Get(t, c) {
          assert rs[..n] <= rs;
          var j :| 0 <= j < n && rs[..n][j] == Found(c, e.0, e.1, e.2);
          assert rs[j] == Found(c, e.0, e.1, e.2);
        }
      } else {
        assert Fresh(u, rs[n]);
        assert rs[n] == Found(c, e.0, e.1, e.2);
      }
    }
  }

  /** Every found record of the list has a recorded neighbour afterwards: it
      was recorded, or a recorded pattern of its chromosome made it stale. */
  lemma {:induction false} AbsorbAllCovers(t: Table, rs: seq<Record>, k: nat)
    requires k < |rs| && rs[k].Found?
    ensures exists i ::
      && 0 <= i < |Get(AbsorbAll(t, rs), rs[k].name)|
      && Labelling.Near((rs[k].bin1, rs[k].bin2), (Get(AbsorbAll(t, rs), rs[k].name)[i].0, Get(AbsorbAll(t, rs), rs[k].name)[i].1))
  {
    var n := |rs| - 1;
    var u := AbsorbAll(t, rs[..n]);
    var r := rs[k];
    var c := r.name;
    if k < n {
      AbsorbAllCovers(t, rs[..n], k);
      assert rs[..n][k] == r;
      var i :| 0 <= i < |Get(u, c)| && Labelling.Near((r.bin1, r.bin2), (Get(u, c)[i].0, Get(u, c)[i].1));
      AbsorbAllExtends(u, [rs[n]]);
      assert AbsorbAll(u, [rs[n]]) == AbsorbAll(t, rs) by {
        assert [rs[n]][..0] == [];
      }
      assert Get(AbsorbAll(t, rs), c)[..|Get(u, c)|] == Get(u, c);
      assert Get(AbsorbAll(t, rs), c)[i] == Get(u, c)[i];
    } else if Fresh(u, r) {
      var s := Get(AbsorbAll(t, rs), c);
      assert s[|s| - 1] == (r.bin1, r.bin2, r.score);
    } else {
      FreshMeansApart(u, r);
      var i :| 0 <= i < |Get(u, c)| && Labelling.Near((r.bin1, r.bin2), (Get(u, c)[i].0, Get(u, c)[i].1));
      assert AbsorbAll(t, rs) == u;
    }
  }
  /** One pass records nothing new exactly when the table is left as it is. */
  lemma AbsorbStep(t: Table, r: Record)
    ensures Fresh(t, r) ==>
      && Total(Absorb(t, r)) == Total(t) + 1
      && (r.name, r.bin1, r.bin2) !in Cells(t)
      && Cells(Absorb(t, r)) == Cells(t) + {(r.name, r.bin1, r.bin2)}
    ensures !Fresh(t, r) ==> Absorb(t, r) == t
  {
    if Fresh(t, r) {
      var e := (r.bin1, r.bin2, r.score);
      var s := Get(t, r.name) + [e];
      var t' := Absorb(t, r);
      TotalUpdate(t, r.name, s);
      FreshMeansApart(t, r);
      var x := (r.name, r.bin1, r.bin2);
      forall c, i | c in t && 0 <= i < |t[c]| ensures x != (c, t[c][i].0, t[c][i].1) {
        if c == r.name {
          assert Get(t, r.name)[i] == t[c][i];
        }
      }
      forall y | y in Cells(t') ensures y in Cells(t) + {x} {
        var c, i :| c in t' && 0 <= i < |t'[c]| && y == (c, t'[c][i].0, t'[c][i].1);
        if c != r.name {
          assert t'[c] == t[c];
        } else if i < |Get(t, r.name)| {
          assert t'[c][i] == t[c][i];
        }
      }
      forall y | y in Cells(t) + {x} ensures y in Cells(t') {
        if y == x {
          assert t'[r.name][|s| - 1] == e;
        } else {
          var c, i :| c in t && 0 <= i < |t[c]| && y == (c, t[c][i].0, t[c][i].1);
          assert c in t';
          if c == r.name {
            assert t'[c][i] == t[c][i];
          } else {
            assert t'[c] == t[c];
          }
        }
      }
    }
  }

  /** Recording a list of records never loses a pattern; it records nothing
      exactly when the count stays the same, and otherwise it records a
      position of a chromosome that was not recorded before. */
  lemma {:induction false} AbsorbAllGrows(t: Table, rs: seq<Record>)
    ensures Total(t) <= Total(AbsorbAll(t, rs))
    ensures Cells(t) <= Cells(AbsorbAll(t, rs))
    ensures Total(AbsorbAll(t, rs)) == Total(t) ==> AbsorbAll(t, rs) == t
    ensures Total(AbsorbAll(t, rs)) != Total(t) ==> Cells(t) < Cells(AbsorbAll(t, rs))
  {
    if rs != [] {
      var n := |rs| - 1;
      var u := AbsorbAll(t, rs[..n]);
      AbsorbAllGrows(t, rs[..n]);
      AbsorbStep(u, rs[n]);
    }
  }

  /** The positions recorded from bounded records stay in the box of
      chromosomes below `m` and bins below `n`. */
  lemma {:induction false} AbsorbAllInBox(t: Table, rs: seq<Record>, m: nat, n: nat)
    requires Bounded(rs, m, n) && Cells(t) <= Box(m, n)
    ensures Cells(AbsorbAll(t, rs)) <= Box(m, n)
  {
    if rs != [] {
      var k := |rs| - 1;
      assert Bounded(rs[..k], m, n) by {
        forall i | 0 <= i < k ensures rs[..k][i] == rs[i] { }
      }
      AbsorbAllInBox(t, rs[..k], m, n);
      AbsorbStep(AbsorbAll(t, rs[..k]), rs[k]);
      assert rs[k].Found? ==> (rs[k].name, rs[k].bin1, rs[k].bin2) in Box(m, n);
    }
  }

  // ---------------------------------------------------------------------------
  // Pattern count

  /** The number of recorded patterns over all chromosomes. */
  ghost function Total(t: Table): nat {
    if t == map[] then 0
    else
      var c :| c in t;
      |t[c]| + Total(t - {c})
  }

  /** The count splits over any one chromosome. */
  lemma {:induction false} TotalRemove(t: Table, c: nat)
    requires c in t
    ensures Total(t) == |t[c]| + Total(t - {c})
    decreases |t|
  {
    var d :| d in t && Total(t) == |t[d]| + Total(t - {d});
    if d != c {
      assert |t - {d}| < |t| by {
        assert (t - {d}).Keys < t.Keys;
        assert |(t - {d}).Keys| < |t.Keys|;
      }
      assert |t - {c}| < |t| by {
        assert (t - {c}).Keys < t.Keys;
        assert |(t - {c}).Keys| < |t.Keys|;
      }
      TotalRemove(t - {d}, c);
      TotalRemove(t - {c}, d);
      assert t - {d} - {c} == t - {c} - {d};
    }
  }

  /** Replacing a chromosome's list changes the count by the difference of
      the lengths. */
  lemma TotalUpdate(t: Table, c: nat, s: seq<Entry>)
    ensures Total(t[c := s]) + |Get(t, c)| == Total(t) + |s|
  {
    var u := t[c := s];
    TotalRemove(u, c);
    assert u - {c} == t - {c};
    if c in t {
      TotalRemove(t, c);
    } else {
      assert t - {c} == t;
    }
  }

  /** current_pattern_count: the sum of the lengths of all lists. */
  method TotalCount(t: Table) returns (count: nat)
    ensures count == Total(t)
  {
    count := 0;
    var rest := t;
    while rest != map[]
      invariant count + Total(rest) == Total(t)
      decreases |rest|
    {
      var c :| c in rest;
      TotalRemove(rest, c);
      count := count + |rest[c]|;
      assert |(rest - {c}).Keys| < |rest.Keys| by {
        assert (rest - {c}).Keys < rest.Keys;
      }
      rest := rest - {c};
    }
  }

  /** Every recorded position, with its chromosome. */
  function Cells(t: Table): set<(nat, nat, nat)> {
    set c, i | c in t && 0 <= i < |t[c]| :: (c, t[c][i].0, t[c][i].1)
  }

  /** Every position of a chromosome below `m` with both bins below `n`. */
  function Box(m: nat, n: nat): set<(nat, nat, nat)> {
    set c: nat, i: nat, j: nat | c < m && i < n && j < n :: (c, i, j)
  }
  // ---------------------------------------------------------------------------
  // clean_by_neighborhood as written

  /** The Python tuples the written test compares: it builds the block
      around a record as pairs of bins, while the lists it looks them up in
      hold triples of bins and score. */
  datatype PyTuple = Pair(a: int, b: int) | Triple(a: int, b: int, s: real)

  /** What the written generator does with one record: yield it, pass over
      it, or raise KeyError. */
  datatype Step = Yield | Pass | KeyError

  /** clean_by_neighborhood's test as written: NA records are passed over; a
      found record looks its chromosome up directly, which raises KeyError
      when the chromosome has no list yet, and is yielded when the pairs of
      its block share no element with the triples of the list. */
  function CleanStepAsWritten(t: Table, r: Record): Step {
    match r
    case NA(_) => Pass
    case Found(c, p1, p2, _) =>
      if c !in t then KeyError
      else
        var neighbours := set q | q in Neighbourhood(p1, p2) :: Pair(q.0, q.1);
        var recorded := set e | e in t[c] :: Triple(e.0, e.1, e.2);
        if neighbours * recorded == {} then Yield else Pass
  }

  /** As written, the test never drops a found record: it yields every found
      record of a chromosome that already has a list, and raises KeyError on
      the first found record of any other, so on the very first found record
      of a run. */
  lemma AsWrittenNeverDrops(t: Table, r: Record)
    ensures CleanStepAsWritten(t, r) == Pass <==> r.NA?
    ensures r.Found? && r.name in t ==> CleanStepAsWritten(t, r) == Yield
    ensures r.Found? && r.name !in t ==> CleanStepAsWritten(t, r) == KeyError
    ensures r.Found? ==> CleanStepAsWritten(map[], r) == KeyError
  {
    if r.Found? && r.name in t {
      var neighbours := set q | q in Neighbourhood(r.bin1, r.bin2) :: Pair(q.0, q.1);
      var recorded := set e | e in t[r.name] :: Triple(e.0, e.1, e.2);
      forall x | x in neighbours ensures x.Pair? { }
      forall x | x in recorded ensures x.Triple? { }
      assert neighbours * recorded == {};
    }
  }

  /** A record on the very position of a recorded pattern is yielded by the
      written test and dropped by the intended one. */
  lemma AsWrittenKeepsDuplicate()
    ensures CleanStepAsWritten(map[0 := [(5, 5, 1.0)]], Found(0, 5, 5, 2.0)) == Yield
    ensures !Fresh(map[0 := [(5, 5, 1.0)]], Found(0, 5, 5, 2.0))
  {
    var t: Table := map[0 := [(5, 5, 1.0)]];
    AsWrittenNeverDrops(t, Found(0, 5, 5, 2.0));
    assert Get(t, 0)[0] == (5, 5, 1.0);
    assert (Get(t, 0)[0].0 as int, Get(t, 0)[0].1 as int) in RecordedCells(t, 0);
    assert Labelling.Near((5, 5), (5, 5));
    assert (5, 5) in Neighbourhood(5, 5) * RecordedCells(t, 0);
  }

  /** The intended test records the first found record of a chromosome with
      no list yet, in a new list. */
  lemma FirstRecordStarts(t: Table, r: Record)
    requires r.Found? && r.name !in t
    ensures Absorb(t, r) == t[r.name := [(r.bin1, r.bin2, r.score)]]
  {
    assert Get(t, r.name) == [];
    assert RecordedCells(t, r.name) == {};
    assert Fresh(t, r);
    assert Get(t, r.name) + [(r.bin1, r.bin2, r.score)] == [(r.bin1, r.bin2, r.score)];
  }

  // ---------------------------------------------------------------------------
  // explore_patterns

  /** What one detector call returns: the records and the agglomerated
      pattern. */
  type Detector<!K> = K -> (seq<Record>, K)

  /** The detector call whose records pass `i + 1` records: the first pass
      calls the detector on every kernel but keeps only the call on the last
      one; every later pass calls it on the pattern agglomerated by the pass
      before. */
  function Call<K>(kernels: seq<K>, detect: Detector<K>, i: nat): (seq<Record>, K)
    requires kernels != []
  {
    if i == 0 then detect(kernels[|kernels| - 1]) else detect(Call(kernels, detect, i - 1).1)
  }

  /** all_patterns after `p` passes. */
  function TableAfter<K>(kernels: seq<K>, detect: Detector<K>, p: nat): Table
    requires kernels != []
  {
    if p == 0 then map[] else AbsorbAll(TableAfter(kernels, detect, p - 1), Call(kernels, detect, p - 1).0)
  }

  /** agglomerated_patterns after `p` passes. */
  function PatternsAfter<K>(kernels: seq<K>, detect: Detector<K>, p: nat): (ps: seq<K>)
    requires kernels != []
    ensures |ps| == p
  {
    if p == 0 then [] else PatternsAfter(kernels, detect, p - 1) + [Call(kernels, detect, p - 1).1]
  }

  /** The pattern counts after 0, 1, ..., p passes. */
  ghost function TotalsAfter<K>(kernels: seq<K>, detect: Detector<K>, p: nat): (ts: seq<nat>)
    requires kernels != []
    ensures |ts| == p + 1
  {
    if p == 0 then [Total(map[])] else TotalsAfter(kernels, detect, p - 1) + [Total(TableAfter(kernels, detect, p))]
  }

  /** Pattern `i` of agglomerated_patterns is the agglomerated pattern of the
      call of pass `i + 1`. */
  lemma {:induction false} PatternsAfterCalls<K>(kernels: seq<K>, detect: Detector<K>, p: nat, i: nat)
    requires kernels != [] && i < p
    ensures PatternsAfter(kernels, detect, p)[i] == Call(kernels, detect, i).1
  {
    if i < p - 1 {
      PatternsAfterCalls(kernels, detect, p - 1, i);
    }
  }

  /** Count `i` is the count after `i` passes. */
  lemma {:induction false} TotalsAfterCounts<K>(kernels: seq<K>, detect: Detector<K>, p: nat, i: nat)
    requires kernels != [] && i <= p
    ensures TotalsAfter(kernels, detect, p)[i] == Total(TableAfter(kernels, detect, i))
  {
    if i < p {
      TotalsAfterCounts(kernels, detect, p - 1, i);
    }
  }

  /** Every pass but the last raised the count. */
  predicate KeptGrowing(ts: seq<nat>) {
    forall i :: 0 < i < |ts| - 1 ==> ts[i - 1] < ts[i]
  }

  /** iteration_count after `p` passes: the first pass does not count. */
  function IterationCount(p: nat): nat {
    if p == 0 then 0 else p - 1
  }

  /** All passes keep the recorded patterns of each chromosome apart, and
      every pass records nothing or raises the count. */
  lemma {:induction false} TableAfterSpread<K>(kernels: seq<K>, detect: Detector<K>, p: nat)
    requires kernels != []
    ensures Spread(TableAfter(kernels, detect, p))
  {
    if p > 0 {
      TableAfterSpread(kernels, detect, p - 1);
      AbsorbAllKeepsSpread(TableAfter(kernels, detect, p - 1), Call(kernels, detect, p - 1).0);
    }
  }

  /** A detector call returns bounded records whenever every call does. */
  lemma CallBounded<K(!new)>(kernels: seq<K>, detect: Detector<K>, i: nat, m: nat, n: nat)
    requires kernels != []
    requires forall k :: Bounded(detect(k).0, m, n)
    ensures Bounded(Call(kernels, detect, i).0, m, n)
  {
    if i == 0 {
      assert Bounded(detect(kernels[|kernels| - 1]).0, m, n);
    } else {
      assert Bounded(detect(Call(kernels, detect, i - 1).1).0, m, n);
    }
  }

  lemma KeptGrowingStep(ts: seq<nat>, c: nat)
    requires KeptGrowing(ts)
    requires |ts| >= 2 ==> ts[|ts| - 2] < ts[|ts| - 1]
    ensures KeptGrowing(ts + [c])
  {
    var us := ts + [c];
    forall i | 0 < i < |us| - 1 ensures us[i - 1] < us[i] {
      assert us[i - 1] == ts[i - 1] && us[i] == ts[i];
    }
  }

  /** The first pass: the detector runs on every kernel in turn, and only the
      last call's result survives the loop. */
  method FirstPass<K>(kernels: seq<K>, detect: Detector<K>) returns (result: (seq<Record>, K))
    requires kernels != []
    ensures result == Call(kernels, detect, 0)
  {
    result := detect(kernels[0]);
    for j := 1 to |kernels|
      invariant result == detect(kernels[j - 1])
    {
      result := detect(kernels[j]);
    }
  }

  /** The state of the pass loop after `|agg|` passes. */
  ghost predicate Explored<K>(kernels: seq<K>, detect: Detector<K>, m: nat, n: nat, t: Table, agg: seq<K>, totals: seq<nat>)
    requires kernels != []
  {
    && agg == PatternsAfter(kernels, detect, |agg|)
    && t == TableAfter(kernels, detect, |agg|)
    && totals == TotalsAfter(kernels, detect, |agg|)
    && KeptGrowing(totals)
    && Cells(t) <= Box(m, n)
  }

  /** One more pass keeps the loop state, never lowers the count, leaves the
      table as it is when the count stays the same, and otherwise records a
      position of the box that was not recorded before. */
  lemma ExploredStep<K(!new)>(kernels: seq<K>, detect: Detector<K>, m: nat, n: nat,
                               t: Table, agg: seq<K>, totals: seq<nat>, t': Table, next: K, count: nat)
    requires kernels != []
    requires forall k :: Bounded(detect(k).0, m, n)
    requires Explored(kernels, detect, m, n, t, agg, totals)
    requires agg != [] ==> totals[|agg| - 1] < totals[|agg|]
    requires t' == TableAfter(kernels, detect, |agg| + 1)
    requires next == Call(kernels, detect, |agg|).1
    requires count == Total(t')
    ensures Explored(kernels, detect, m, n, t', agg + [next], totals + [count])
    ensures Total(t) <= count
    ensures count == Total(t) ==> t' == t
    ensures count != Total(t) ==> Box(m, n) - Cells(t') < Box(m, n) - Cells(t)
  {
    var p := |agg|;
    CallBounded(kernels, detect, p, m, n);
    AbsorbAllGrows(t, Call(kernels, detect, p).0);
    AbsorbAllInBox(t, Call(kernels, detect, p).0, m, n);
    KeptGrowingStep(totals, count);
    TotalsAfterCounts(kernels, detect, p, p);
    assert (agg + [next])[..p] == agg;
  }

  /** One pass: the detector call of pass `p + 1`, the table it leaves and
      the count the loop compares. */
  method RunPass<K>(kernels: seq<K>, detect: Detector<K>, pattern: Option<K>, ghost p: nat, t: Table)
    returns (t': Table, next: K, count: nat)
    requires kernels != []
    requires pattern.None? <==> p == 0
    requires pattern.Some? ==> pattern.value == Call(kernels, detect, p - 1).1
    requires t == TableAfter(kernels, detect, p)
    ensures t' == TableAfter(kernels, detect, p + 1)
    ensures next == Call(kernels, detect, p).1
    ensures count == Total(t')
  {
    var result;
    if pattern.None? {
      result := FirstPass(kernels, detect);
    } else {
      result := detect(pattern.value);
    }
    t' := StoreCleaned(t, result.0);
    next := result.1;
    count := TotalCount(t');
  }

  /** The state of the pass loop after the passes recorded in `agg`: the table,
      the patterns and the totals of those passes, the pattern the next pass
      starts from, iteration_count, and the last two counts. */
  ghost predicate Looping<K>(kernels: seq<K>, detect: Detector<K>, m: nat, n: nat, iterations: Option<int>,
                             t: Table, agg: seq<K>, totals: seq<nat>, pattern: Option<K>,
                             iterationCount: int, oldCount: int, currentCount: int)
    requires kernels != []
  {
    && Explored(kernels, detect, m, n, t, agg, totals)
    && (pattern.None? <==> agg == [])
    && (pattern.Some? ==> pattern.value == Call(kernels, detect, |agg| - 1).1)
    && iterationCount == IterationCount(|agg|)
    && currentCount == totals[|agg|] == Total(t)
    && (agg == [] ==> oldCount == -1)
    && (agg != [] ==> oldCount == totals[|agg| - 1] <= currentCount)
    && (agg != [] && oldCount == currentCount ==> TableAfter(kernels, detect, |agg| - 1) == t)
    && (iterations.Some? && iterations.value <= 0 ==> agg == [])
    && (iterations.Some? && iterations.value > 0 ==> iterationCount <= iterations.value)
  }

  /** One turn of the pass loop keeps its state and either records a new
      position of the box or leaves the table as it is. */
  lemma LoopStep<K(!new)>(kernels: seq<K>, detect: Detector<K>, m: nat, n: nat, iterations: Option<int>,
                          t: Table, agg: seq<K>, totals: seq<nat>, pattern: Option<K>,
                          iterationCount: int, oldCount: int, t': Table, next: K, count: nat)
    requires kernels != []
    requires forall k :: Bounded(detect(k).0, m, n)
    requires Looping(kernels, detect, m, n, iterations, t, agg, totals, pattern, iterationCount, oldCount, Total(t))
    requires oldCount != Total(t)
    requires !(iterations.Some? && iterationCount >= iterations.value)
    requires t' == TableAfter(kernels, detect, |agg| + 1)
    requires next == Call(kernels, detect, |agg|).1
    requires count == Total(t')
    ensures Looping(kernels, detect, m, n, iterations, t', agg + [next], totals + [count], Some(next),
                    if pattern.Some? then iterationCount + 1 else iterationCount, Total(t), count)
    ensures count == Total(t) ==> t' == t
    ensures count != Total(t) ==> Box(m, n) - Cells(t') < Box(m, n) - Cells(t)
  {
    ExploredStep(kernels, detect, m, n, t, agg, totals, t', next, count);
  }

  /** The pass loop of explore_patterns: a first pass over the kernels, then
      passes over the last agglomerated pattern, until a pass records
      nothing or, when a number of iterations is given (`None` stands for
      "auto"), until that many passes after the first have run. Every
      detector call returns records of a chromosome below `m` on bins below
      `n`, which bounds the number of positions that can be recorded. */
  method ExplorePatterns<K(!new)>(kernels: seq<K>, detect: Detector<K>, iterations: Option<int>, ghost m: nat, ghost n: nat)
    returns (allPatterns: Table, agglomerated: seq<K>)
    requires kernels != []
    requires forall k :: Bounded(detect(k).0, m, n)
    ensures agglomerated == PatternsAfter(kernels, detect, |agglomerated|)
    ensures allPatterns == TableAfter(kernels, detect, |agglomerated|)
    ensures Spread(allPatterns)
    ensures iterations.Some? && iterations.value <= 0 ==> agglomerated == []
    ensures iterations.Some? && iterations.value > 0 ==> |agglomerated| <= iterations.value + 1
    ensures KeptGrowing(TotalsAfter(kernels, detect, |agglomerated|))
    ensures || (iterations.Some? && IterationCount(|agglomerated|) >= iterations.value)
            || (|agglomerated| > 0 && TableAfter(kernels, detect, |agglomerated| - 1) == allPatterns)
  {
    allPatterns := map[];
    agglomerated := [];
    var pattern: Option<K> := None;
    var iterationCount := 0;
    var oldCount: int, currentCount: int := -1, 0;
    ghost var totals: seq<nat> := [0];
    assert Cells(allPatterns) == {};
    while oldCount != currentCount
      invariant Looping(kernels, detect, m, n, iterations, allPatterns, agglomerated, totals,
                        pattern, iterationCount, oldCount, currentCount)
      decreases Box(m, n) - Cells(allPatterns), if oldCount != currentCount then 1 else 0
    {
      if iterations.Some? && iterationCount >= iterations.value {
        break;
      }
      ghost var p := |agglomerated|;
      ghost var before := allPatterns;
      ghost var beforeCount, beforeOld := iterationCount, oldCount;
      oldCount := currentCount;
      if pattern.Some? {
        iterationCount := iterationCount + 1;
      }
      var next;
      allPatterns, next, currentCount := RunPass(kernels, detect, pattern, p, allPatterns);
      LoopStep(kernels, detect, m, n, iterations, before, agglomerated, totals, pattern, beforeCount, beforeOld,
               allPatterns, next, currentCount);
      pattern := Some(next);
      agglomerated := agglomerated + [next];
      totals := totals + [currentCount];
    }
    TableAfterSpread(kernels, detect, |agglomerated|);
  }
}
