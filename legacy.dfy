/** The detection step of the two legacy detectors, chromovision and
    declooptor. Both files run the same code over dense matrices: filter the
    picked peaks by their distance from the diagonal, keep those whose bins
    are detectable and whose window fits in the matrix, accept a window when
    few of its pixels are exactly 1.0, and agglomerate the accepted windows
    by a pixelwise median that leaves out the first one. The correlation map
    and the picked peaks come from numerics outside this model and are
    inputs. */
module Legacy {
  import opened Numeric
  import opened Validation
  import opened Pileup

  /** One line of the detected-pattern table: the matrix name (its index in
      the list of matrices), the two bins as picked and the score, or a line
      of "NA"s. */
  datatype Record = Found(name: nat, bin1: nat, bin2: nat, score: real) | NA(name: nat)

  /** The parameters of one detector call. */
  datatype Config = Config(patternType: string, area: nat, pct: real)

  /** One matrix as the detector sees it: its size, the matrix the windows are
      cut from, its detectable bins, the correlation map padded to the
      matrix's size, and the picker's peaks (`None` for its "NA"). */
  datatype Matrix = Matrix(
    n: nat,
    contacts: seq<seq<real>>,
    detectable: set<nat>,
    corr: seq<seq<real>>,
    peaks: Option<seq<(nat, nat)>>)

  predicate Square(m: seq<seq<real>>, n: nat) {
    |m| == n && forall i :: 0 <= i < n ==> |m[i]| == n
  }

  predicate WellShaped(mat: Matrix) {
    Square(mat.contacts, mat.n) && Square(mat.corr, mat.n)
  }

  predicate AllWellShaped(mats: seq<Matrix>) {
    forall k :: 0 <= k < |mats| ==> WellShaped(mats[k])
  }

  // ---------------------------------------------------------------------------
  // Type filter

  /** Distance of a peak from the diagonal. */
  function Dist(l: (nat, nat)): (d: nat)
    ensures d == l.0 - l.1 || d == l.1 - l.0
  {
    if l.0 >= l.1 then l.0 - l.1 else l.1 - l.0
  }

  /** The peaks a boolean mask keeps, in their order. */
  function Where(ls: seq<(nat, nat)>, keep: ((nat, nat)) -> bool): (r: seq<(nat, nat)>)
    ensures |r| <= |ls|
  {
    if ls == [] then []
    else
      var n := |ls| - 1;
      Where(ls[..n], keep) + (if keep(ls[n]) then [ls[n]] else [])
  }

  /** The loop filter's first mask: closer than 5000 bins to the diagonal. */
  function NearDiagonal(): ((nat, nat)) -> bool {
    l => Dist(l) < 5000
  }

  /** The loop filter's second mask: more than 2 bins off the diagonal. */
  function OffDiagonal(): ((nat, nat)) -> bool {
    l => Dist(l) > 2
  }

  /** The border filter's mask: on the diagonal. */
  function OnDiagonal(): ((nat, nat)) -> bool {
    l => Dist(l) == 0
  }

  /** The filter that follows the picker: two masks in turn for loops, one
      for borders, none for any other type. */
  function TypeFilter(peaks: seq<(nat, nat)>, patternType: string): (r: seq<(nat, nat)>)
    ensures |r| <= |peaks|
  {
    if patternType == "loops" then Where(Where(peaks, NearDiagonal()), OffDiagonal())
    else if patternType == "borders" then Where(peaks, OnDiagonal())
    else peaks
  }

  /** Which peaks a pattern type lets through, as one condition. */
  predicate TypeKeeps(patternType: string, l: (nat, nat)) {
    if patternType == "loops" then 2 < Dist(l) < 5000
    else if patternType == "borders" then l.0 == l.1
    else true
  }

  function TypeMask(patternType: string): ((nat, nat)) -> bool {
    l => TypeKeeps(patternType, l)
  }

  /** The mask keeps exactly the peaks it holds for. */
  lemma {:induction false} WhereMembers(ls: seq<(nat, nat)>, keep: ((nat, nat)) -> bool)
    ensures forall l :: l in Where(ls, keep) <==> l in ls && keep(l)
  {
    if ls != [] {
      var n := |ls| - 1;
      WhereMembers(ls[..n], keep);
      assert ls == ls[..n] + [ls[n]];
    }
  }

  lemma {:induction false} WhereAppend(a: seq<(nat, nat)>, b: seq<(nat, nat)>, keep: ((nat, nat)) -> bool)
    ensures Where(a + b, keep) == Where(a, keep) + Where(b, keep)
  {
    if b != [] {
      var n := |b| - 1;
      assert (a + b)[..|a| + n] == a + b[..n];
      WhereAppend(a, b[..n], keep);
    } else {
      assert a + b == a;
    }
  }

  lemma {:induction false} WhereWhere(ls: seq<(nat, nat)>, p: ((nat, nat)) -> bool, q: ((nat, nat)) -> bool, pq: ((nat, nat)) -> bool)
    requires forall l :: pq(l) == (p(l) && q(l))
    ensures Where(Where(ls, p), q) == Where(ls, pq)
  {
    if ls != [] {
      var n := |ls| - 1;
      WhereWhere(ls[..n], p, q, pq);
      var tail := if p(ls[n]) then [ls[n]] else [];
      WhereAppend(Where(ls[..n], p), tail, q);
      if p(ls[n]) {
        assert Where(tail, q) == Where([], q) + (if q(ls[n]) then [ls[n]] else []);
      }
    }
  }

  lemma {:induction false} WhereSame(ls: seq<(nat, nat)>, p: ((nat, nat)) -> bool, q: ((nat, nat)) -> bool)
    requires forall l :: p(l) == q(l)
    ensures Where(ls, p) == Where(ls, q)
  {
    if ls != [] {
      WhereSame(ls[..|ls| - 1], p, q);
    }
  }

  lemma {:induction false} WhereAll(ls: seq<(nat, nat)>, p: ((nat, nat)) -> bool)
    requires forall l :: p(l)
    ensures Where(ls, p) == ls
  {
    if ls != [] {
      WhereAll(ls[..|ls| - 1], p);
    }
  }

  /** The type filter keeps exactly the peaks its type lets through, in their
      order: for loops, the two masks applied in turn equal the single
      condition 2 < |r - c| < 5000; for borders, r == c; any other type keeps
      every peak. */
  lemma TypeFilterIsOneMask(peaks: seq<(nat, nat)>, patternType: string)
    ensures TypeFilter(peaks, patternType) == Where(peaks, TypeMask(patternType))
    ensures forall l :: l in TypeFilter(peaks, patternType) <==> l in peaks && TypeKeeps(patternType, l)
  {
    WhereMembers(peaks, TypeMask(patternType));
    if patternType == "loops" {
      WhereWhere(peaks, NearDiagonal(), OffDiagonal(), TypeMask(patternType));
    } else if patternType == "borders" {
      WhereSame(peaks, OnDiagonal(), TypeMask(patternType));
    } else {
      WhereAll(peaks, TypeMask(patternType));
    }
  }

  // ---------------------------------------------------------------------------
  // Detectability, bounds and the window rule

  /** Side of a window: 2 * area + 1. */
  function Side(area: nat): nat {
    2 * area + 1
  }

  /** Both bins of the peak are detectable. */
  predicate Detectable(l: (nat, nat), mat: Matrix) {
    l.0 in mat.detectable && l.1 in mat.detectable
  }

  /** The window of `area` bins around the canonical peak `p` fits in an
      `n` by `n` matrix (the bounds check of both legacy detectors). */
  predicate Windowable(p: (nat, nat), area: nat, n: nat) {
    p.0 - area >= 0 && p.0 + area + 1 < n && p.1 - area >= 0 && p.1 + area + 1 < n
  }

  /** The window of side 2 * area + 1 centred on `p`. */
  function Cut(m: seq<seq<real>>, n: nat, p: (nat, nat), area: nat): (w: Window)
    requires Square(m, n) && Windowable(p, area, n)
    ensures Shaped(w, Side(area), Side(area))
  {
    CutRows(m, n, p, area, Side(area))
  }

  /** The first `h` rows of that window: row `a` is the slice of columns
      p.1 - area to p.1 + area of matrix row p.0 - area + a. */
  function CutRows(m: seq<seq<real>>, n: nat, p: (nat, nat), area: nat, h: nat): (w: Window)
    requires Square(m, n) && Windowable(p, area, n) && h <= Side(area)
    ensures Shaped(w, h, Side(area))
  {
    if h == 0 then []
    else CutRows(m, n, p, area, h - 1) + [m[p.0 - area + h - 1][p.1 - area .. p.1 + area + 1]]
  }

  /** The number of pixels of a row equal to 1.0. */
  function RowOnes(row: seq<real>): (c: nat)
    ensures c <= |row|
  {
    if row == [] then 0 else RowOnes(row[..|row| - 1]) + (if row[|row| - 1] == 1.0 then 1 else 0)
  }

  /** The number of pixels of a window equal to 1.0. */
  function Ones(w: Window): nat {
    if w == [] then 0 else Ones(w[..|w| - 1]) + RowOnes(w[|w| - 1])
  }

  lemma {:induction false} OnesBound(w: Window, h: nat, wd: nat)
    requires Shaped(w, h, wd)
    ensures Ones(w) <= h * wd
  {
    if w != [] {
      var n := |w| - 1;
      OnesBound(w[..n], n, wd);
      assert (h - 1) * wd + wd == h * wd;
    }
  }

  /** The window rule: fewer pixels equal to 1.0 than `pct` percent of the
      window. */
  predicate FewOnes(w: Window, area: nat, pct: real) {
    (Ones(w) as real) < ((Side(area) * Side(area)) as real) * pct / 100.0
  }

  /** A tolerance at least as large accepts every window a smaller one does;
      a tolerance of 100% or more accepts every window of the right shape and
      a tolerance of 0% or less accepts none. */
  lemma WindowRuleTolerance(w: Window, area: nat, pct: real, pct': real)
    requires Shaped(w, Side(area), Side(area))
    ensures pct <= pct' && FewOnes(w, area, pct) ==> FewOnes(w, area, pct')
    ensures pct <= 0.0 ==> !FewOnes(w, area, pct)
    ensures pct > 100.0 ==> FewOnes(w, area, pct)
  {
    OnesBound(w, Side(area), Side(area));
    assert Side(area) * Side(area) >= 1 by {
      assert Side(area) >= 1;
    }
    PercentRule(Ones(w) as real, (Side(area) * Side(area)) as real, pct, pct');
  }

  /** The percentage rule on a count `x` out of `t`. */
  lemma PercentRule(x: real, t: real, pct: real, pct': real)
    requires 0.0 <= x <= t && t >= 1.0
    ensures pct <= pct' && x < t * pct / 100.0 ==> x < t * pct' / 100.0
    ensures pct <= 0.0 ==> !(x < t * pct / 100.0)
    ensures pct > 100.0 ==> x < t * pct / 100.0
  {
    ScaleMonotone(t, pct, pct');
    ScaleMonotone(t, pct, 0.0);
    ScaleMonotone(t, 100.0, pct);
  }

  /** A non-negative number scales percentages in order. */
  lemma ScaleMonotone(t: real, a: real, b: real)
    requires t >= 1.0
    ensures a <= b ==> t * a / 100.0 <= t * b / 100.0
    ensures a < b ==> t * a / 100.0 < t * b / 100.0
  {
    if a < b {
      assert t * b - t * a == t * (b - a);
    }
  }

  /** res_rescaled after np.triu and the clamp of negative values: zero below
      the diagonal, never negative, and the correlation itself elsewhere. */
  function Rescaled(corr: seq<seq<real>>, n: nat, i: nat, j: nat): (v: real)
    requires Square(corr, n) && i < n && j < n
    ensures v >= 0.0
    ensures j < i ==> v == 0.0
    ensures i <= j && corr[i][j] >= 0.0 ==> v == corr[i][j]
  {
    if j < i || corr[i][j] < 0.0 then 0.0 else corr[i][j]
  }

  /** What becomes of one peak: no record (not detectable, or its window does
      not fit), an NA record (too many 1.0 pixels), or an accepted window. */
  datatype Outcome = Skipped | Rejected | Admitted(window: Window)

  function PeakOutcome(mat: Matrix, l: (nat, nat), c: Config): (o: Outcome)
    requires WellShaped(mat)
    ensures o.Admitted? ==> l.0 < mat.n && l.1 < mat.n && Shaped(o.window, Side(c.area), Side(c.area))
  {
    if !Detectable(l, mat) then Skipped
    else
      var p := Canonical(l);
      if !Windowable(p, c.area, mat.n) then Skipped
      else
        var w := Cut(mat.contacts, mat.n, p, c.area);
        if FewOnes(w, c.area, c.pct) then Admitted(w) else Rejected
  }

  /** The record one peak leaves: none, an NA record, or a found record with
      the picked bins and the rescaled correlation. */
  function PeakRecord(mat: Matrix, name: nat, l: (nat, nat), c: Config): (rs: seq<Record>)
    requires WellShaped(mat)
    ensures |rs| <= 1
  {
    match PeakOutcome(mat, l, c)
    case Skipped => []
    case Rejected => [NA(name)]
    case Admitted(_) => [Found(name, l.0, l.1, Rescaled(mat.corr, mat.n, l.0, l.1))]
  }

  /** The window one peak contributes: its window when admitted. */
  function PeakWindow(mat: Matrix, l: (nat, nat), c: Config): (ws: seq<Window>)
    requires WellShaped(mat)
    ensures AllShaped(ws, Side(c.area), Side(c.area))
  {
    match PeakOutcome(mat, l, c)
    case Admitted(w) => [w]
    case _ => []
  }

  /** The records of a list of peaks of one matrix, in order. */
  function PeakRecords(mat: Matrix, name: nat, ls: seq<(nat, nat)>, c: Config): seq<Record>
    requires WellShaped(mat)
  {
    if ls == [] then []
    else
      var n := |ls| - 1;
      PeakRecords(mat, name, ls[..n], c) + PeakRecord(mat, name, ls[n], c)
  }

  /** The accepted windows of a list of peaks of one matrix, in order. */
  function PeakWindows(mat: Matrix, ls: seq<(nat, nat)>, c: Config): (ws: seq<Window>)
    requires WellShaped(mat)
    ensures AllShaped(ws, Side(c.area), Side(c.area))
  {
    if ls == [] then []
    else
      var n := |ls| - 1;
      PeakWindows(mat, ls[..n], c) + PeakWindow(mat, ls[n], c)
  }

  /** The records of one matrix: one NA record when the picker found nothing,
      otherwise the records of its filtered peaks. */
  function MatrixRecords(mat: Matrix, name: nat, c: Config): seq<Record>
    requires WellShaped(mat)
  {
    match mat.peaks
    case None => [NA(name)]
    case Some(ps) => PeakRecords(mat, name, TypeFilter(ps, c.patternType), c)
  }

  function MatrixWindows(mat: Matrix, c: Config): (ws: seq<Window>)
    requires WellShaped(mat)
    ensures AllShaped(ws, Side(c.area), Side(c.area))
  {
    match mat.peaks
    case None => []
    case Some(ps) => PeakWindows(mat, TypeFilter(ps, c.patternType), c)
  }

  /** The records of the first `k` matrices, named by their index. */
  function Records(mats: seq<Matrix>, k: nat, c: Config): seq<Record>
    requires k <= |mats| && AllWellShaped(mats)
  {
    if k == 0 then [] else Records(mats, k - 1, c) + MatrixRecords(mats[k - 1], k - 1, c)
  }

  /** The accepted windows of the first `k` matrices. */
  function Windows(mats: seq<Matrix>, k: nat, c: Config): (ws: seq<Window>)
    requires k <= |mats| && AllWellShaped(mats)
    ensures AllShaped(ws, Side(c.area), Side(c.area))
  {
    if k == 0 then [] else Windows(mats, k - 1, c) + MatrixWindows(mats[k - 1], c)
  }

  /** The windows the agglomeration reads: all but the first. */
  function AfterFirst(ws: seq<Window>): (r: seq<Window>)
    ensures |ws| >= 1 ==> |r| == |ws| - 1
    ensures ws == [] ==> r == []
    ensures forall k :: 0 <= k < |r| ==> r[k] == ws[k + 1]
  {
    if ws == [] then [] else ws[1..]
  }

  // ---------------------------------------------------------------------------
  // pattern_detector

  /** The loop over the peaks of one matrix. */
  method ScanPeaks(mat: Matrix, name: nat, ls: seq<(nat, nat)>, c: Config)
    returns (records: seq<Record>, windows: seq<Window>)
    requires WellShaped(mat)
    ensures records == PeakRecords(mat, name, ls, c)
    ensures windows == PeakWindows(mat, ls, c)
  {
    records, windows := [], [];
    for j := 0 to |ls|
      invariant records == PeakRecords(mat, name, ls[..j], c)
      invariant windows == PeakWindows(mat, ls[..j], c)
    {
      var l := ls[j];
      PeakStep(mat, name, ls, j, c);
      if l.0 in mat.detectable && l.1 in mat.detectable {
        var p1, p2 := l.0, l.1;
        if p1 > p2 {
          p1, p2 := p2, p1;
        }
        assert (p1, p2) == Canonical(l);
        if p1 - c.area >= 0 && p1 + c.area + 1 < mat.n && p2 - c.area >= 0 && p2 + c.area + 1 < mat.n {
          var w := Cut(mat.contacts, mat.n, (p1, p2), c.area);
          if FewOnes(w, c.area, c.pct) {
            assert PeakOutcome(mat, l, c) == Admitted(w);
            records := records + [Found(name, l.0, l.1, Rescaled(mat.corr, mat.n, l.0, l.1))];
            windows := windows + [w];
          } else {
            assert PeakOutcome(mat, l, c) == Rejected;
            records := records + [NA(name)];
          }
        } else {
          assert PeakOutcome(mat, l, c) == Skipped;
        }
      } else {
        assert PeakOutcome(mat, l, c) == Skipped;
      }
    }
    assert ls[..|ls|] == ls;
  }

  lemma PeakStep(mat: Matrix, name: nat, ls: seq<(nat, nat)>, j: nat, c: Config)
    requires WellShaped(mat) && j < |ls|
    ensures PeakRecords(mat, name, ls[..j + 1], c) == PeakRecords(mat, name, ls[..j], c) + PeakRecord(mat, name, ls[j], c)
    ensures PeakWindows(mat, ls[..j + 1], c) == PeakWindows(mat, ls[..j], c) + PeakWindow(mat, ls[j], c)
  {
    assert ls[..j + 1][..j] == ls[..j];
  }

  /** The agglomeration: pixel by pixel, the median over every accepted
      window but the first (NaN, here `None`, when there are fewer than two). */
  method Agglomerate(windows: seq<Window>, side: nat) returns (agg: seq<seq<Option<real>>>)
    requires AllShaped(windows, side, side)
    ensures agg == PileupPatterns(AfterFirst(windows), side, side)
  {
    ghost var target := PileupPatterns(AfterFirst(windows), side, side);
    agg := [];
    for i := 0 to side
      invariant agg == target[..i]
    {
      var row := AgglomerateRow(windows, side, i);
      assert target[..i + 1] == target[..i] + [row];
      agg := agg + [row];
    }
    assert agg == target;
  }

  /** Row `i` of the agglomerated pattern. */
  method AgglomerateRow(windows: seq<Window>, side: nat, i: nat) returns (row: seq<Option<real>>)
    requires AllShaped(windows, side, side)
    requires i < side
    ensures row == PileupPatterns(AfterFirst(windows), side, side)[i]
  {
    ghost var rest := AfterFirst(windows);
    row := [];
    for j := 0 to side
      invariant row == MedianRow(rest, side, side, i, j)
    {
      var temp := PixelValues(windows, side, i, j);
      row := row + [Median(temp)];
    }
    PileupRow(rest, side, side, i);
  }

  /** The values of pixel (i, j) in every window but the first. */
  method PixelValues(windows: seq<Window>, side: nat, i: nat, j: nat) returns (temp: seq<real>)
    requires AllShaped(windows, side, side)
    requires i < side && j < side
    ensures temp == Stack(AfterFirst(windows), side, side, i, j)
  {
    temp := [];
    var el := 1;
    while el < |windows|
      invariant 1 <= el <= Max(|windows|, 1)
      invariant |temp| == el - 1
      invariant forall k :: 0 <= k < el - 1 ==> temp[k] == windows[k + 1][i][j]
    {
      temp := temp + [windows[el][i][j]];
      el := el + 1;
    }
  }

  /** The body of the loop over matrices: one NA record when the picker found
      nothing, otherwise the scan of the peaks the type filter lets through. */
  method MatrixScan(mat: Matrix, name: nat, c: Config) returns (records: seq<Record>, windows: seq<Window>)
    requires WellShaped(mat)
    ensures records == MatrixRecords(mat, name, c)
    ensures windows == MatrixWindows(mat, c)
  {
    if mat.peaks.Some? {
      var peaks := TypeFilter(mat.peaks.value, c.patternType);
      records, windows := ScanPeaks(mat, name, peaks, c);
    } else {
      records, windows := [NA(name)], [];
    }
  }

  /** pattern_detector of both legacy files: the records of every matrix in
      turn, the agglomerated pattern of the accepted windows, and the number of
      accepted windows. */
  method PatternDetector(mats: seq<Matrix>, c: Config)
    returns (detected: seq<Record>, agglomerated: seq<seq<Option<real>>>, nbPatterns: nat)
    requires AllWellShaped(mats)
    ensures detected == Records(mats, |mats|, c)
    ensures nbPatterns == |Windows(mats, |mats|, c)|
    ensures agglomerated == PileupPatterns(AfterFirst(Windows(mats, |mats|, c)), Side(c.area), Side(c.area))
  {
    detected := [];
    var windows: seq<Window> := [];
    for k := 0 to |mats|
      invariant detected == Records(mats, k, c)
      invariant windows == Windows(mats, k, c)
    {
      var recs, wins := MatrixScan(mats[k], k, c);
      detected := detected + recs;
      windows := windows + wins;
    }
    agglomerated := Agglomerate(windows, Side(c.area));
    nbPatterns := |windows|;
  }

  // ---------------------------------------------------------------------------
  // What the detected table holds

  /** The found records of a table, in order. */
  function FoundOnly(rs: seq<Record>): (fs: seq<Record>)
    ensures |fs| <= |rs|
    ensures forall i :: 0 <= i < |fs| ==> fs[i].Found?
  {
    if rs == [] then []
    else
      var n := |rs| - 1;
      FoundOnly(rs[..n]) + (if rs[n].Found? then [rs[n]] else [])
  }

  lemma {:induction false} FoundOnlyAppend(a: seq<Record>, b: seq<Record>)
    ensures FoundOnly(a + b) == FoundOnly(a) + FoundOnly(b)
  {
    if b != [] {
      var n := |b| - 1;
      assert (a + b)[..|a| + n] == a + b[..n];
      FoundOnlyAppend(a, b[..n]);
    } else {
      assert a + b == a;
    }
  }

  /** Each record of the peaks of one matrix carries that matrix's name; a
      found record is a peak of the list whose window was admitted, with the
      rescaled correlation as its score; an NA record stands for a peak of the
      list whose window had too many 1.0 pixels. */
  lemma {:induction false} PeakRecordsSound(mat: Matrix, name: nat, ls: seq<(nat, nat)>, c: Config, r: Record)
    requires WellShaped(mat)
    requires r in PeakRecords(mat, name, ls, c)
    ensures r.name == name
    ensures r.Found? ==>
      && (r.bin1, r.bin2) in ls
      && PeakOutcome(mat, (r.bin1, r.bin2), c).Admitted?
      && r.score == Rescaled(mat.corr, mat.n, r.bin1, r.bin2)
    ensures r.NA? ==> exists l :: l in ls && PeakOutcome(mat, l, c).Rejected?
  {
    var n := |ls| - 1;
    var l := ls[n];
    if r in PeakRecords(mat, name, ls[..n], c) {
      PeakRecordsSound(mat, name, ls[..n], c, r);
      if r.Found? {
        assert (r.bin1, r.bin2) in ls[..n];
      }
      if r.NA? {
        var l' :| l' in ls[..n] && PeakOutcome(mat, l', c).Rejected?;
        assert l' in ls;
      }
    } else {
      assert l in ls;
    }
  }

  /** Every peak of the list whose window is admitted is reported with its own
      bins, and a peak whose window is rejected leaves an NA record. */
  lemma {:induction false} PeakRecordsComplete(mat: Matrix, name: nat, ls: seq<(nat, nat)>, c: Config, l: (nat, nat))
    requires WellShaped(mat)
    requires l in ls
    ensures PeakOutcome(mat, l, c).Admitted? ==>
      Found(name, l.0, l.1, Rescaled(mat.corr, mat.n, l.0, l.1)) in PeakRecords(mat, name, ls, c)
    ensures PeakOutcome(mat, l, c).Rejected? ==> NA(name) in PeakRecords(mat, name, ls, c)
  {
    var n := |ls| - 1;
    if l != ls[n] {
      assert l in ls[..n];
      PeakRecordsComplete(mat, name, ls[..n], c, l);
    }
  }

  /** Found record `i` carries `name`, and the window its peak admits in
      `mat` is window `i`. */
  predicate PeakAligned(mat: Matrix, name: nat, c: Config, fs: seq<Record>, ws: seq<Window>)
    requires WellShaped(mat)
  {
    && |fs| == |ws|
    && forall i :: 0 <= i < |fs| ==>
         fs[i].Found? && fs[i].name == name && PeakOutcome(mat, (fs[i].bin1, fs[i].bin2), c) == Admitted(ws[i])
  }

  lemma PeakAlignedConcat(mat: Matrix, name: nat, c: Config, fa: seq<Record>, wa: seq<Window>, fb: seq<Record>, wb: seq<Window>)
    requires WellShaped(mat)
    requires PeakAligned(mat, name, c, fa, wa) && PeakAligned(mat, name, c, fb, wb)
    ensures PeakAligned(mat, name, c, fa + fb, wa + wb)
  {
    forall i | 0 <= i < |fa + fb|
      ensures (fa + fb)[i].Found? && (fa + fb)[i].name == name
      ensures PeakOutcome(mat, ((fa + fb)[i].bin1, (fa + fb)[i].bin2), c) == Admitted((wa + wb)[i])
    {
      if i < |fa| {
        assert (fa + fb)[i] == fa[i] && (wa + wb)[i] == wa[i];
      } else {
        assert (fa + fb)[i] == fb[i - |fa|] && (wa + wb)[i] == wb[i - |fa|];
      }
    }
  }

  /** One peak leaves a found record exactly when it contributes a window. */
  lemma PeakRecordAligned(mat: Matrix, name: nat, l: (nat, nat), c: Config)
    requires WellShaped(mat)
    ensures PeakAligned(mat, name, c, FoundOnly(PeakRecord(mat, name, l, c)), PeakWindow(mat, l, c))
  {
    var rs := PeakRecord(mat, name, l, c);
    assert rs != [] ==> rs[..0] == [];
  }

  /** The accepted windows of a list of peaks match its found records one to
      one: window `i` is the admitted window of found record `i`. */
  lemma {:induction false} PeakWindowsAligned(mat: Matrix, name: nat, ls: seq<(nat, nat)>, c: Config)
    requires WellShaped(mat)
    ensures |PeakWindows(mat, ls, c)| == |FoundOnly(PeakRecords(mat, name, ls, c))|
    ensures PeakAligned(mat, name, c, FoundOnly(PeakRecords(mat, name, ls, c)), PeakWindows(mat, ls, c))
  {
    if ls != [] {
      var n := |ls| - 1;
      PeakWindowsAligned(mat, name, ls[..n], c);
      FoundOnlyAppend(PeakRecords(mat, name, ls[..n], c), PeakRecord(mat, name, ls[n], c));
      PeakRecordAligned(mat, name, ls[n], c);
      PeakAlignedConcat(mat, name, c, FoundOnly(PeakRecords(mat, name, ls[..n], c)), PeakWindows(mat, ls[..n], c),
                        FoundOnly(PeakRecord(mat, name, ls[n], c)), PeakWindow(mat, ls[n], c));
    } else {
      assert FoundOnly([]) == [];
    }
  }

  /** A peak's window is admitted exactly when both its bins are detectable,
      the window around its canonical form fits, and that window has few
      enough 1.0 pixels. */
  lemma AdmittedMeans(mat: Matrix, l: (nat, nat), c: Config)
    requires WellShaped(mat)
    ensures PeakOutcome(mat, l, c).Admitted? <==>
      && Detectable(l, mat)
      && Windowable(Canonical(l), c.area, mat.n)
      && FewOnes(Cut(mat.contacts, mat.n, Canonical(l), c.area), c.area, c.pct)
  {
  }

  /** The records of one matrix: each carries its name; a found record is a
      peak the type filter lets through whose window is admitted, with the
      rescaled correlation as its score; an NA record means that the picker
      found nothing or that such a peak's window was rejected. */
  lemma MatrixRecordsSound(mat: Matrix, name: nat, c: Config, r: Record)
    requires WellShaped(mat)
    requires r in MatrixRecords(mat, name, c)
    ensures r.name == name
    ensures r.Found? ==>
      && mat.peaks.Some? && (r.bin1, r.bin2) in mat.peaks.value
      && TypeKeeps(c.patternType, (r.bin1, r.bin2))
      && PeakOutcome(mat, (r.bin1, r.bin2), c).Admitted?
      && r.score == Rescaled(mat.corr, mat.n, r.bin1, r.bin2)
    ensures r.NA? ==>
      mat.peaks.None? || exists l :: l in mat.peaks.value && TypeKeeps(c.patternType, l) && PeakOutcome(mat, l, c).Rejected?
  {
    if mat.peaks.Some? {
      var ps := TypeFilter(mat.peaks.value, c.patternType);
      PeakRecordsSound(mat, name, ps, c, r);
      TypeFilterIsOneMask(mat.peaks.value, c.patternType);
      if r.NA? {
        var l :| l in ps && PeakOutcome(mat, l, c).Rejected?;
        assert l in mat.peaks.value && TypeKeeps(c.patternType, l);
      }
    }
  }

  /** Every record of the first `k` matrices comes from one of them. */
  lemma {:induction false} RecordOrigin(mats: seq<Matrix>, k: nat, c: Config, r: Record) returns (j: nat)
    requires k <= |mats| && AllWellShaped(mats)
    requires r in Records(mats, k, c)
    ensures j < k && r in MatrixRecords(mats[j], j, c)
  {
    InConcat(Records(mats, k - 1, c), MatrixRecords(mats[k - 1], k - 1, c), r);
    if r in Records(mats, k - 1, c) {
      j := RecordOrigin(mats, k - 1, c, r);
    } else {
      j := k - 1;
    }
  }

  /** Every record of a matrix below `k` is among the records of the first
      `k` matrices. */
  lemma {:induction false} RecordsInclude(mats: seq<Matrix>, k: nat, c: Config, j: nat, r: Record)
    requires k <= |mats| && AllWellShaped(mats)
    requires j < k && r in MatrixRecords(mats[j], j, c)
    ensures r in Records(mats, k, c)
  {
    InConcat(Records(mats, k - 1, c), MatrixRecords(mats[k - 1], k - 1, c), r);
    if j < k - 1 {
      RecordsInclude(mats, k - 1, c, j, r);
    }
  }

  /** The records of the first `k` matrices: names are matrix indices below
      `k`; a found record is a peak of its matrix that the type filter lets
      through, whose bins are both detectable, whose canonical window fits and
      has few enough 1.0 pixels, and whose score is the rescaled correlation at
      the picked bins; an NA record comes from a matrix where the picker found
      nothing or from a rejected window. */
  lemma RecordsSound(mats: seq<Matrix>, k: nat, c: Config, r: Record)
    requires k <= |mats| && AllWellShaped(mats)
    requires r in Records(mats, k, c)
    ensures r.name < k
    ensures r.Found? ==>
      var mat := mats[r.name];
      var l := (r.bin1, r.bin2);
      && mat.peaks.Some? && l in mat.peaks.value
      && TypeKeeps(c.patternType, l)
      && Detectable(l, mat)
      && Windowable(Canonical(l), c.area, mat.n)
      && FewOnes(Cut(mat.contacts, mat.n, Canonical(l), c.area), c.area, c.pct)
      && r.score == Rescaled(mat.corr, mat.n, r.bin1, r.bin2)
    ensures r.NA? ==>
      var mat := mats[r.name];
      mat.peaks.None? || exists l :: l in mat.peaks.value && TypeKeeps(c.patternType, l) && PeakOutcome(mat, l, c).Rejected?
  {
    var j := RecordOrigin(mats, k, c, r);
    MatrixRecordsSound(mats[j], j, c, r);
    if r.Found? {
      AdmittedMeans(mats[j], (r.bin1, r.bin2), c);
    }
  }

  /** Every peak of a matrix that the type filter lets through leaves its
      found record when its window is admitted and an NA record when it is
      rejected; a matrix where the picker found nothing leaves an NA record. */
  lemma MatrixRecordsComplete(mat: Matrix, name: nat, c: Config, l: (nat, nat))
    requires WellShaped(mat)
    ensures mat.peaks.None? ==> NA(name) in MatrixRecords(mat, name, c)
    ensures mat.peaks.Some? && l in mat.peaks.value && TypeKeeps(c.patternType, l) ==>
      && (PeakOutcome(mat, l, c).Admitted? ==>
            Found(name, l.0, l.1, Rescaled(mat.corr, mat.n, l.0, l.1)) in MatrixRecords(mat, name, c))
      && (PeakOutcome(mat, l, c).Rejected? ==> NA(name) in MatrixRecords(mat, name, c))
  {
    if mat.peaks.Some? && l in mat.peaks.value && TypeKeeps(c.patternType, l) {
      var ps := TypeFilter(mat.peaks.value, c.patternType);
      TypeFilterIsOneMask(mat.peaks.value, c.patternType);
      PeakRecordsComplete(mat, name, ps, c, l);
    }
  }

  /** Conversely, every peak of a matrix that the type filter lets through and
      whose window is admitted is reported, with its name and its bins as
      picked; every such peak whose window is rejected leaves an NA record; a
      matrix where the picker found nothing leaves an NA record. */
  lemma RecordsComplete(mats: seq<Matrix>, k: nat, c: Config, j: nat, l: (nat, nat))
    requires k <= |mats| && AllWellShaped(mats)
    requires j < k
    ensures mats[j].peaks.None? ==> NA(j) in Records(mats, k, c)
    ensures mats[j].peaks.Some? && l in mats[j].peaks.value && TypeKeeps(c.patternType, l) ==>
      && (PeakOutcome(mats[j], l, c).Admitted? ==>
            Found(j, l.0, l.1, Rescaled(mats[j].corr, mats[j].n, l.0, l.1)) in Records(mats, k, c))
      && (PeakOutcome(mats[j], l, c).Rejected? ==> NA(j) in Records(mats, k, c))
  {
    var mat := mats[j];
    MatrixRecordsComplete(mat, j, c, l);
    if mat.peaks.None? {
      RecordsInclude(mats, k, c, j, NA(j));
    } else if l in mat.peaks.value && TypeKeeps(c.patternType, l) {
      match PeakOutcome(mat, l, c)
      case Admitted(_) =>
        RecordsInclude(mats, k, c, j, Found(j, l.0, l.1, Rescaled(mat.corr, mat.n, l.0, l.1)));
      case Rejected =>
        RecordsInclude(mats, k, c, j, NA(j));
      case Skipped =>
    }
  }

  /** Record `r` is found in a matrix below `k`, and the window its peak
      admits there is `w`. */
  predicate Admits(mats: seq<Matrix>, k: nat, c: Config, r: Record, w: Window)
    requires k <= |mats| && AllWellShaped(mats)
  {
    r.Found? && r.name < k && PeakOutcome(mats[r.name], (r.bin1, r.bin2), c) == Admitted(w)
  }

  /** The records and the windows pair up one to one, each window admitted by
      its record's peak (see `AlignedIndex`). */
  predicate Aligned(mats: seq<Matrix>, k: nat, c: Config, fs: seq<Record>, ws: seq<Window>)
    requires k <= |mats| && AllWellShaped(mats)
    decreases |fs|
  {
    && |fs| == |ws|
    && (fs != [] ==>
          && Aligned(mats, k, c, fs[..|fs| - 1], ws[..|ws| - 1])
          && Admits(mats, k, c, fs[|fs| - 1], ws[|ws| - 1]))
  }

  /** Aligned records and windows: record `i` admits window `i`. */
  lemma {:induction false} AlignedIndex(mats: seq<Matrix>, k: nat, c: Config, fs: seq<Record>, ws: seq<Window>)
    requires k <= |mats| && AllWellShaped(mats)
    requires Aligned(mats, k, c, fs, ws)
    ensures |fs| == |ws|
    ensures forall i :: 0 <= i < |fs| ==> Admits(mats, k, c, fs[i], ws[i])
  {
    if fs != [] {
      var n := |fs| - 1;
      AlignedIndex(mats, k, c, fs[..n], ws[..n]);
      forall i | 0 <= i < |fs| ensures Admits(mats, k, c, fs[i], ws[i]) {
        if i < n {
          assert fs[..n][i] == fs[i] && ws[..n][i] == ws[i];
        }
      }
    }
  }

  lemma {:induction false} AlignedConcat(mats: seq<Matrix>, k: nat, c: Config, fa: seq<Record>, wa: seq<Window>, fb: seq<Record>, wb: seq<Window>)
    requires k <= |mats| && AllWellShaped(mats)
    requires Aligned(mats, k, c, fa, wa) && Aligned(mats, k, c, fb, wb)
    ensures Aligned(mats, k, c, fa + fb, wa + wb)
    decreases |fb|
  {
    if fb == [] {
      assert fa + fb == fa && wa + wb == wa;
    } else {
      var n := |fb| - 1;
      AlignedConcat(mats, k, c, fa, wa, fb[..n], wb[..n]);
      ConcatPrefix(fa, fb, n);
      ConcatPrefix(wa, wb, n);
    }
  }

  lemma {:induction false} AlignedWiden(mats: seq<Matrix>, k: nat, k': nat, c: Config, fs: seq<Record>, ws: seq<Window>)
    requires k <= k' <= |mats| && AllWellShaped(mats)
    requires Aligned(mats, k, c, fs, ws)
    ensures Aligned(mats, k', c, fs, ws)
    decreases |fs|
  {
    if fs != [] {
      AlignedWiden(mats, k, k', c, fs[..|fs| - 1], ws[..|ws| - 1]);
    }
  }

  /** Records and windows aligned within matrix `k - 1` are aligned among
      the first `k` matrices. */
  lemma {:induction false} PeakAlignedInMatrices(mats: seq<Matrix>, k: nat, c: Config, fs: seq<Record>, ws: seq<Window>)
    requires 0 < k <= |mats| && AllWellShaped(mats)
    requires PeakAligned(mats[k - 1], k - 1, c, fs, ws)
    ensures Aligned(mats, k, c, fs, ws)
    decreases |fs|
  {
    if fs != [] {
      var n := |fs| - 1;
      assert PeakAligned(mats[k - 1], k - 1, c, fs[..n], ws[..n]) by {
        forall i | 0 <= i < n
          ensures fs[..n][i].Found? && fs[..n][i].name == k - 1
          ensures PeakOutcome(mats[k - 1], (fs[..n][i].bin1, fs[..n][i].bin2), c) == Admitted(ws[..n][i])
        {
          assert fs[..n][i] == fs[i] && ws[..n][i] == ws[i];
        }
      }
      PeakAlignedInMatrices(mats, k, c, fs[..n], ws[..n]);
    }
  }

  /** The found records and windows of matrix `k - 1` are aligned. */
  lemma MatrixAligned(mats: seq<Matrix>, k: nat, c: Config)
    requires 0 < k <= |mats| && AllWellShaped(mats)
    ensures Aligned(mats, k, c, FoundOnly(MatrixRecords(mats[k - 1], k - 1, c)), MatrixWindows(mats[k - 1], c))
  {
    var mat := mats[k - 1];
    var mr := MatrixRecords(mat, k - 1, c);
    if mat.peaks.Some? {
      var ps := TypeFilter(mat.peaks.value, c.patternType);
      PeakWindowsAligned(mat, k - 1, ps, c);
      PeakAlignedInMatrices(mats, k, c, FoundOnly(PeakRecords(mat, k - 1, ps, c)), PeakWindows(mat, ps, c));
    } else {
      assert mr == [NA(k - 1)] && mr[..0] == [];
      assert FoundOnly(mr) == [];
    }
  }

  /** Records and windows aligned among the first `k - 1` matrices, followed
      by records and windows aligned among the first `k`, are aligned among the
      first `k`. */
  lemma AlignedExtend(mats: seq<Matrix>, k: nat, c: Config, ra: seq<Record>, wa: seq<Window>, rb: seq<Record>, wb: seq<Window>)
    requires 0 < k <= |mats| && AllWellShaped(mats)
    requires Aligned(mats, k - 1, c, FoundOnly(ra), wa) && Aligned(mats, k, c, FoundOnly(rb), wb)
    ensures Aligned(mats, k, c, FoundOnly(ra + rb), wa + wb)
  {
    AlignedWiden(mats, k - 1, k, c, FoundOnly(ra), wa);
    AlignedConcat(mats, k, c, FoundOnly(ra), wa, FoundOnly(rb), wb);
    FoundOnlyAppend(ra, rb);
  }

  /** The accepted windows match the found records one to one: window `i` is
      the admitted window of found record `i`, so the number of accepted
      windows (nb_patterns) is the number of found records. */
  lemma {:induction false} WindowsAligned(mats: seq<Matrix>, k: nat, c: Config)
    requires k <= |mats| && AllWellShaped(mats)
    ensures Aligned(mats, k, c, FoundOnly(Records(mats, k, c)), Windows(mats, k, c))
    ensures |Windows(mats, k, c)| == |FoundOnly(Records(mats, k, c))|
  {
    if k > 0 {
      WindowsAligned(mats, k - 1, c);
      MatrixAligned(mats, k, c);
      AlignedExtend(mats, k, c, Records(mats, k - 1, c), Windows(mats, k - 1, c),
                    MatrixRecords(mats[k - 1], k - 1, c), MatrixWindows(mats[k - 1], c));
    } else {
      assert FoundOnly([]) == [];
    }
  }

  // ---------------------------------------------------------------------------
  // Agglomeration

  /** The first accepted window never counts: the agglomerated pattern does not
      depend on it, a single accepted window leaves every pixel NaN, and with
      more windows each pixel lies between the values of that pixel in the
      windows after the first. */
  lemma AgglomerationSkipsFirst(w0: Window, w0': Window, ws: seq<Window>, side: nat, a: nat, b: nat)
    requires Shaped(w0, side, side) && Shaped(w0', side, side) && AllShaped(ws, side, side)
    requires a < side && b < side
    ensures AllShaped([w0] + ws, side, side) && AllShaped([w0'] + ws, side, side)
    ensures PileupPatterns(AfterFirst([w0] + ws), side, side) == PileupPatterns(AfterFirst([w0'] + ws), side, side)
    ensures ws == [] ==> PileupPatterns(AfterFirst([w0]), side, side)[a][b] == None
    ensures ws != [] ==>
      var v := PileupPatterns(AfterFirst([w0] + ws), side, side)[a][b];
      && v.Some?
      && (exists k :: 0 <= k < |ws| && ws[k][a][b] <= v.value)
      && (exists k :: 0 <= k < |ws| && v.value <= ws[k][a][b])
  {
    assert AfterFirst([w0] + ws) == ws;
    assert AfterFirst([w0'] + ws) == ws;
    assert AllShaped([w0] + ws, side, side) by {
      forall k | 0 <= k < |[w0] + ws| ensures Shaped(([w0] + ws)[k], side, side) {
        if k > 0 {
          assert ([w0] + ws)[k] == ws[k - 1];
        }
      }
    }
    assert AllShaped([w0'] + ws, side, side) by {
      forall k | 0 <= k < |[w0'] + ws| ensures Shaped(([w0'] + ws)[k], side, side) {
        if k > 0 {
          assert ([w0'] + ws)[k] == ws[k - 1];
        }
      }
    }
    if ws == [] {
      assert AfterFirst([w0]) == [];
      PileupOfNothing(side, side, a, b);
    } else {
      PileupWithinRange(ws, side, side, a, b);
    }
  }

  // ---------------------------------------------------------------------------
  // Presets and the dispatcher

  /** A detector preset: the pattern type and the tolerated percentage of
      1.0 pixels. */
  datatype Preset = Preset(patternType: string, pct: real)

  /** border_detector and loop_detector. */
  const BorderDetector := Preset("borders", 20.0)
  const LoopDetector := Preset("loops", 1.0)

  /** PATTERN_DISPATCHER. */
  const PatternDispatcher: map<string, Preset> := map["loops" := LoopDetector, "borders" := BorderDetector]

  /** The default window size of pattern_detector, which the exploration
      drivers never override. */
  const DefaultArea := 8

  /** The detector the driver picks for a pattern type, falling back to the
      loop detector for a type the dispatcher does not know. */
  function Dispatch(patternType: string): (d: Preset)
    ensures patternType == "borders" ==> d == BorderDetector
    ensures patternType != "borders" ==> d == LoopDetector
  {
    if patternType in PatternDispatcher then PatternDispatcher[patternType] else LoopDetector
  }

  /** The configuration a preset runs pattern_detector with. */
  function PresetConfig(p: Preset): Config {
    Config(p.patternType, DefaultArea, p.pct)
  }

  /** Whatever the requested type, the dispatched detector filters its peaks
      either as borders (on the diagonal) or as loops (2 < |r - c| < 5000),
      the latter for every type but "borders"; and the border preset accepts
      every window the loop preset accepts. */
  lemma DispatchedFilter(patternType: string, peaks: seq<(nat, nat)>, w: Window)
    requires Shaped(w, Side(DefaultArea), Side(DefaultArea))
    ensures patternType != "borders" ==>
      forall l :: l in TypeFilter(peaks, Dispatch(patternType).patternType) <==> l in peaks && 2 < Dist(l) < 5000
    ensures patternType == "borders" ==>
      forall l :: l in TypeFilter(peaks, Dispatch(patternType).patternType) <==> l in peaks && l.0 == l.1
    ensures FewOnes(w, DefaultArea, LoopDetector.pct) ==> FewOnes(w, DefaultArea, BorderDetector.pct)
  {
    TypeFilterIsOneMask(peaks, Dispatch(patternType).patternType);
    WindowRuleTolerance(w, DefaultArea, LoopDetector.pct, BorderDetector.pct);
  }
}
