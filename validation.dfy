/** validate_patterns: keeps the detected coordinates whose window lies inside
    the matrix and is not too sparse, with their score and their window. */
module Validation {
  import opened Numeric
  import opened Sparse

  /** A window of contacts, row by row. */
  type Window = seq<seq<real>>

  predicate Shaped(w: Window, h: nat, wd: nat) {
    |w| == h && forall a :: 0 <= a < h ==> |w[a]| == wd
  }

  /** A row of the filtered table: the coordinates as detected and the score. */
  datatype Pattern = Pattern(bin1: nat, bin2: nat, score: real)

  /** What every coordinate is checked against: the contact map, the correlation
      map, the detectable rows and columns, the kernel's shape and the largest
      percentage of missing pixels allowed in a window. */
  datatype Setting = Setting(
    matrix: Coo<real>, conv: seq<Entry<real>>,
    detRows: set<nat>, detCols: set<nat>,
    kh: nat, kw: nat, maxPerc: real)

  /** The radius used for a kernel dimension: `k // 2 + 1`. */
  function Half(k: nat): nat {
    k / 2 + 1
  }

  /** The number of bins in `range(p - half + 1, p + half)`. */
  function Span(k: nat): (n: nat)
    ensures n + 1 == 2 * Half(k)
    ensures n >= 1
    ensures k % 2 == 1 ==> n == k
  {
    2 * (k / 2) + 1
  }

  /** The coordinates swapped, if needed, so that the first is the smaller. */
  function Canonical(c: (nat, nat)): (p: (nat, nat))
    ensures p.0 <= p.1
    ensures p == c || p == (c.1, c.0)
  {
    if c.0 > c.1 then (c.1, c.0) else c
  }

  /** The bounds check on the canonical coordinates. */
  predicate InBounds(p: (nat, nat), s: Setting) {
    && p.0 - Half(s.kh) >= 0
    && p.0 + Half(s.kh) + 1 < s.matrix.nrows
    && p.1 - Half(s.kw) >= 0
    && p.1 + Half(s.kw) + 1 < s.matrix.ncols
  }

  /** The contacts in rows `r0 ..` and columns `c0 ..` of a CSR copy of the map. */
  function WindowOf(es: seq<Entry<real>>, r0: nat, c0: nat, h: nat, w: nat): (win: Window)
    ensures Shaped(win, h, w)
  {
    seq(h, a requires 0 <= a < h => seq(w, b requires 0 <= b < w => ValueAt(es, r0 + a, c0 + b)))
  }

  /** `len(set(range(lo, lo + n)) & det)`, counted bin by bin. */
  function DetectedBins(lo: nat, n: nat, det: set<nat>): (d: nat)
    ensures d <= n
  {
    if n == 0 then 0
    else DetectedBins(lo, n - 1, det) + (if lo + n - 1 in det then 1 else 0)
  }

  /** The count above is the size of the intersection of the two sets. */
  lemma {:induction false} DetectedBinsIsIntersection(lo: nat, n: nat, det: set<nat>)
    ensures DetectedBins(lo, n, det) == |set b: nat | lo <= b < lo + n && b in det|
  {
    var all := set b: nat | lo <= b < lo + n && b in det;
    if n == 0 {
      assert all == {};
    } else {
      DetectedBinsIsIntersection(lo, n - 1, det);
      var init := set b: nat | lo <= b < lo + n - 1 && b in det;
      if lo + n - 1 in det {
        assert all == init + {lo + n - 1};
      } else {
        assert all == init;
      }
    }
  }

  /** The number of pixels exactly 0 in a row, and in a window. */
  function RowZeros(row: seq<real>): (z: nat)
    ensures z <= |row|
  {
    if row == [] then 0
    else RowZeros(row[..|row| - 1]) + (if row[|row| - 1] == 0.0 then 1 else 0)
  }

  function ZeroCount(win: Window): nat {
    if win == [] then 0
    else ZeroCount(win[..|win| - 1]) + RowZeros(win[|win| - 1])
  }

  /** A window has no more zero pixels than pixels. */
  lemma {:induction false} ZeroCountBound(win: Window, h: nat, w: nat)
    requires Shaped(win, h, w)
    ensures ZeroCount(win) <= h * w
  {
    if h > 0 {
      ZeroCountBound(win[..h - 1], h - 1, w);
      assert RowZeros(win[h - 1]) <= w;
      assert (h - 1) * w + w == h * w;
    }
  }

  /** The inclusion–exclusion estimate of the pixels lying in an undetectable
      row or an undetectable column: bad rows times columns plus bad columns
      times rows minus their crossings. */
  function Undetected(nr: nat, nc: nat, badR: nat, badC: nat): int {
    badR * nc + badC * nr - badR * badC
  }

  /** The estimate never leaves `0 .. nr * nc`. */
  lemma UndetectedInRange(nr: nat, nc: nat, badR: nat, badC: nat)
    requires badR <= nr && badC <= nc
    ensures 0 <= Undetected(nr, nc, badR, badC) <= nr * nc
  {
    var gr, gc := nr - badR, nc - badC;
    assert Undetected(nr, nc, badR, badC) == nr * nc - gr * gc;
    assert 0 <= gr * gc <= nr * gc <= nr * nc by {
      assert gr * gc <= nr * gc;
      assert nr * gc <= nr * nc;
    }
  }

  /** Pixels of window row `r`, columns `c0 .. c0 + nc`, whose row or column is undetectable. */
  function RowBadPixels(r: nat, c0: nat, nc: nat, s: Setting): nat {
    if nc == 0 then 0
    else RowBadPixels(r, c0, nc - 1, s) + (if r in s.detRows && c0 + nc - 1 in s.detCols then 0 else 1)
  }

  /** Pixels of the window whose row or column is undetectable, pixel by pixel. */
  function BadPixels(r0: nat, nr: nat, c0: nat, nc: nat, s: Setting): nat {
    if nr == 0 then 0
    else BadPixels(r0, nr - 1, c0, nc, s) + RowBadPixels(r0 + nr - 1, c0, nc, s)
  }

  lemma {:induction false} RowBadPixelsCount(r: nat, c0: nat, nc: nat, s: Setting)
    ensures RowBadPixels(r, c0, nc, s) == if r in s.detRows then nc - DetectedBins(c0, nc, s.detCols) else nc
  {
    if nc > 0 {
      RowBadPixelsCount(r, c0, nc - 1, s);
    }
  }

  /** In terms of the detected rows `gr` and columns `gc`, the estimate is all
      pixels minus the pixels in a detected row and a detected column. */
  lemma UndetectedComplement(nr: nat, nc: nat, gr: nat, gc: nat)
    requires gr <= nr && gc <= nc
    ensures Undetected(nr, nc, nr - gr, nc - gc) == nr * nc - gr * gc
  {
    var br, bc := nr - gr, nc - gc;
    assert br * nc == nr * nc - gr * nc;
    assert bc * nr == nc * nr - gc * nr;
    assert br * bc == nr * nc - nr * gc - gr * nc + gr * gc by {
      assert br * bc == br * nc - br * gc;
      assert br * gc == nr * gc - gr * gc;
    }
  }

  /** Counted pixel by pixel, the bad pixels are all pixels minus those whose
      row and column are both detectable. */
  lemma {:induction false} BadPixelsCount(r0: nat, nr: nat, c0: nat, nc: nat, s: Setting)
    ensures BadPixels(r0, nr, c0, nc, s) == nr * nc - DetectedBins(r0, nr, s.detRows) * DetectedBins(c0, nc, s.detCols)
  {
    if nr > 0 {
      var gc := DetectedBins(c0, nc, s.detCols);
      var gr' := DetectedBins(r0, nr - 1, s.detRows);
      BadPixelsCount(r0, nr - 1, c0, nc, s);
      RowBadPixelsCount(r0 + nr - 1, c0, nc, s);
      assert (nr - 1) * nc + nc == nr * nc;
      assert gr' * gc + gc == (gr' + 1) * gc;
    }
  }

  /** The inclusion–exclusion estimate is exact: it counts the window pixels
      that lie in an undetectable row or an undetectable column. */
  lemma UndetectedIsExact(r0: nat, nr: nat, c0: nat, nc: nat, s: Setting)
    ensures BadPixels(r0, nr, c0, nc, s)
      == Undetected(nr, nc, nr - DetectedBins(r0, nr, s.detRows), nc - DetectedBins(c0, nc, s.detCols))
  {
    BadPixelsCount(r0, nr, c0, nc, s);
    UndetectedComplement(nr, nc, DetectedBins(r0, nr, s.detRows), DetectedBins(c0, nc, s.detCols));
  }

  /** The first window row and column of in-bounds canonical coordinates. */
  function WindowOrigin(p: (nat, nat), s: Setting): (o: (nat, nat))
    requires InBounds(p, s)
    ensures o.0 >= 1 && o.1 >= 1
  {
    (p.0 - Half(s.kh) + 1, p.1 - Half(s.kw) + 1)
  }

  /** The window around in-bounds canonical coordinates. */
  function PatternWindow(p: (nat, nat), s: Setting): (win: Window)
    requires InBounds(p, s)
    ensures Shaped(win, Span(s.kh), Span(s.kw))
  {
    var o := WindowOrigin(p, s);
    WindowOf(s.matrix.entries, o.0, o.1, Span(s.kh), Span(s.kw))
  }

  /** The missing pixels of the window: the larger of the undetectable estimate
      and the number of pixels equal to 0. */
  function Missing(p: (nat, nat), s: Setting): (m: nat)
    requires InBounds(p, s)
    ensures m <= Span(s.kh) * Span(s.kw)
  {
    var o := WindowOrigin(p, s);
    var nr, nc := Span(s.kh), Span(s.kw);
    var badR, badC := nr - DetectedBins(o.0, nr, s.detRows), nc - DetectedBins(o.1, nc, s.detCols);
    UndetectedInRange(nr, nc, badR, badC);
    ZeroCountBound(PatternWindow(p, s), nr, nc);
    Max(Undetected(nr, nc, badR, badC), ZeroCount(PatternWindow(p, s)))
  }

  /** What happens to one detected coordinate. */
  datatype Verdict = OutOfBounds | TooSparse | Accepted(pattern: Pattern, window: Window)

  /** The fraction of missing pixels is below the allowed percentage. */
  predicate DenseEnough(p: (nat, nat), s: Setting)
    requires InBounds(p, s)
  {
    (Missing(p, s) as real) / ((Span(s.kh) * Span(s.kw)) as real) < s.maxPerc / 100.0
  }

  /** The check of one coordinate, as the loop body of validate_patterns makes it. */
  function Validate(c: (nat, nat), s: Setting): (v: Verdict)
    ensures v.Accepted? ==> v.pattern == Pattern(c.0, c.1, ValueAt(s.conv, c.0, c.1))
    ensures v.Accepted? ==> Shaped(v.window, Span(s.kh), Span(s.kw))
    ensures !InBounds(Canonical(c), s) ==> v == OutOfBounds
  {
    var p := Canonical(c);
    if !InBounds(p, s) then OutOfBounds
    else if DenseEnough(p, s) then Accepted(Pattern(c.0, c.1, ValueAt(s.conv, c.0, c.1)), PatternWindow(p, s))
    else TooSparse
  }

  /** An accepted window lies inside the matrix, one bin away from the first
      row and column and two bins away from the last ones. */
  lemma AcceptedWindowInside(c: (nat, nat), s: Setting)
    requires Validate(c, s).Accepted?
    ensures InBounds(Canonical(c), s)
    ensures var o := WindowOrigin(Canonical(c), s);
      && 1 <= o.0 && o.0 + Span(s.kh) + 2 <= s.matrix.nrows
      && 1 <= o.1 && o.1 + Span(s.kw) + 2 <= s.matrix.ncols
  {
  }

  /** Swapping the two coordinates gives the same verdict and the same window;
      only the recorded coordinates and the score follow the order given. */
  lemma SwapKeepsVerdict(c: (nat, nat), s: Setting)
    ensures Validate(c, s).OutOfBounds? == Validate((c.1, c.0), s).OutOfBounds?
    ensures Validate(c, s).Accepted? == Validate((c.1, c.0), s).Accepted?
    ensures Validate(c, s).Accepted? ==> Validate(c, s).window == Validate((c.1, c.0), s).window
  {
    assert Canonical((c.1, c.0)) == Canonical(c);
  }

  /** Allowing a larger percentage of missing pixels never rejects a coordinate
      that was accepted. */
  lemma LargerToleranceKeeps(c: (nat, nat), s: Setting, perc: real)
    requires s.maxPerc <= perc
    requires Validate(c, s).Accepted?
    ensures Validate(c, s.(maxPerc := perc)) == Validate(c, s)
  {
    var p := Canonical(c);
    var t := s.(maxPerc := perc);
    assert InBounds(p, t);
    assert PatternWindow(p, t) == PatternWindow(p, s);
    assert Missing(p, t) == Missing(p, s);
  }

  /** A percentage above 100 accepts every in-bounds coordinate; a percentage of
      0 or less accepts none. */
  lemma ToleranceExtremes(c: (nat, nat), s: Setting)
    requires InBounds(Canonical(c), s)
    ensures s.maxPerc > 100.0 ==> Validate(c, s).Accepted?
    ensures s.maxPerc <= 0.0 ==> Validate(c, s) == TooSparse
  {
    var p := Canonical(c);
    var tot := Span(s.kh) * Span(s.kw);
    assert tot >= 1 by {
      assert Span(s.kh) >= 1 && Span(s.kw) >= 1;
    }
    FractionBounds(Missing(p, s) as real, tot as real);
  }

  lemma FractionBounds(m: real, t: real)
    requires 0.0 <= m <= t && t > 0.0
    ensures 0.0 <= m / t <= 1.0
  {
    assert m / t * t == m;
  }

  // ---------------------------------------------------------------------------
  // The filtered table

  function Verdicts(coords: seq<(nat, nat)>, s: Setting): (vs: seq<Verdict>)
    ensures |vs| == |coords|
    ensures forall i :: 0 <= i < |coords| ==> vs[i] == Validate(coords[i], s)
  {
    seq(|coords|, i requires 0 <= i < |coords| => Validate(coords[i], s))
  }

  /** The rows of the accepted coordinates, in input order. */
  function KeptPatterns(vs: seq<Verdict>): seq<Pattern> {
    if vs == [] then []
    else
      var n := |vs| - 1;
      KeptPatterns(vs[..n]) + (if vs[n].Accepted? then [vs[n].pattern] else [])
  }

  /** The windows of the accepted coordinates, in input order. */
  function KeptWindows(vs: seq<Verdict>): seq<Window> {
    if vs == [] then []
    else
      var n := |vs| - 1;
      KeptWindows(vs[..n]) + (if vs[n].Accepted? then [vs[n].window] else [])
  }

  /** The positions of the accepted coordinates. */
  function KeptIndices(vs: seq<Verdict>): (idx: seq<nat>)
    ensures Increasing(idx)
    ensures forall k :: 0 <= k < |idx| ==> idx[k] < |vs| && vs[idx[k]].Accepted?
    ensures forall i :: 0 <= i < |vs| && vs[i].Accepted? ==> i in idx
  {
    if vs == [] then []
    else
      var n := |vs| - 1;
      var init := KeptIndices(vs[..n]);
      assert forall i :: 0 <= i < n && vs[i].Accepted? ==> i in init by {
        forall i | 0 <= i < n && vs[i].Accepted? ensures i in init {
          assert vs[..n][i] == vs[i];
        }
      }
      init + (if vs[n].Accepted? then [n] else [])
  }

  /** The filtered rows and windows stay aligned: the `k`-th kept row and the
      `k`-th kept window come from the same accepted coordinate, and the kept
      coordinates are exactly the accepted ones, in input order. */
  lemma {:induction false} KeptAligned(vs: seq<Verdict>)
    ensures |KeptPatterns(vs)| == |KeptWindows(vs)| == |KeptIndices(vs)|
    ensures forall k :: 0 <= k < |KeptIndices(vs)| ==>
      Accepted(KeptPatterns(vs)[k], KeptWindows(vs)[k]) == vs[KeptIndices(vs)[k]]
  {
    if vs != [] {
      var n := |vs| - 1;
      KeptAligned(vs[..n]);
      var idx := KeptIndices(vs[..n]);
      forall k | 0 <= k < |idx| ensures vs[..n][idx[k]] == vs[idx[k]] {
      }
    }
  }

  /** The zero-filled window that pattern_windows starts with. */
  function Zeros(h: nat, w: nat): (z: Window)
    ensures Shaped(z, h, w)
  {
    seq(h, _ => seq(w, _ => 0.0))
  }

  /** After the first `i` coordinates, the table rows, the windows and the
      blacklist record their verdicts; the later rows are as initialised. */
  ghost predicate Recorded(vs: seq<Verdict>, coords: seq<(nat, nat)>, rows: seq<Pattern>, wins: seq<Window>,
                           blacklist: seq<nat>, i: nat, s: Setting)
  {
    && |vs| == |coords| == |rows| == |wins| && i <= |vs|
    && (forall j :: 0 <= j < i && vs[j].Accepted? ==> rows[j] == vs[j].pattern && wins[j] == vs[j].window)
    && (forall j :: 0 <= j < |vs| ==> (j in blacklist <==> j < i && !vs[j].Accepted?))
    && (forall j :: i <= j < |vs| ==> rows[j] == Pattern(coords[j].0, coords[j].1, 0.0))
    && (forall k :: 0 <= k < |blacklist| ==> blacklist[k] < i)
  }

  /** validate_patterns: the accepted coordinates with their score, and their
      windows, both in input order. */
  method ValidatePatterns(coords: seq<(nat, nat)>, s: Setting) returns (filtered: seq<Pattern>, windows: seq<Window>)
    requires s.kh % 2 == 1 && s.kw % 2 == 1
    ensures filtered == KeptPatterns(Verdicts(coords, s))
    ensures windows == KeptWindows(Verdicts(coords, s))
    ensures forall k :: 0 <= k < |windows| ==> Shaped(windows[k], s.kh, s.kw)
  {
    var n := |coords|;
    ghost var vs := Verdicts(coords, s);
    var validated, patternWindows, blacklist := CheckAll(coords, s);
    var mask := BlacklistMask(blacklist, n);
    filtered, windows := [], [];
    for i := 0 to n
      invariant filtered == KeptPatterns(vs[..i])
      invariant windows == KeptWindows(vs[..i])
    {
      assert vs[..i + 1][..i] == vs[..i];
      assert mask[i] <==> !vs[i].Accepted?;
      if !mask[i] {
        filtered := filtered + [validated[i]];
        windows := windows + [patternWindows[i]];
      }
    }
    assert vs[..n] == vs;
    KeptWindowsShaped(vs, s);
  }

  /** The loop of validate_patterns over the coordinates: the score and window
      of each accepted one, the blacklist of the others. */
  method CheckAll(coords: seq<(nat, nat)>, s: Setting) returns (rows: seq<Pattern>, wins: seq<Window>, blacklist: seq<nat>)
    ensures Recorded(Verdicts(coords, s), coords, rows, wins, blacklist, |coords|, s)
  {
    var n := |coords|;
    ghost var vs := Verdicts(coords, s);
    var validated := new Pattern[n](i requires 0 <= i < n => Pattern(coords[i].0, coords[i].1, 0.0));
    var patternWindows := new Window[n](_ => Zeros(s.kh, s.kw));
    blacklist := [];
    for i := 0 to n
      invariant Recorded(vs, coords, validated[..], patternWindows[..], blacklist, i, s)
    {
      var v := Validate(coords[i], s);
      if v.Accepted? {
        validated[i] := v.pattern;
        patternWindows[i] := v.window;
      } else {
        blacklist := blacklist + [i];
      }
    }
    rows, wins := validated[..], patternWindows[..];
  }

  /** The boolean mask of the blacklisted positions. */
  method BlacklistMask(blacklist: seq<nat>, n: nat) returns (mask: seq<bool>)
    requires forall k :: 0 <= k < |blacklist| ==> blacklist[k] < n
    ensures |mask| == n
    ensures forall j :: 0 <= j < n ==> (mask[j] <==> j in blacklist)
  {
    var m := new bool[n](_ => false);
    for k := 0 to |blacklist|
      invariant forall j :: 0 <= j < n ==> (m[j] <==> j in blacklist[..k])
    {
      m[blacklist[k]] := true;
    }
    assert blacklist[..|blacklist|] == blacklist;
    mask := m[..];
  }

  lemma {:induction false} KeptWindowsShaped(vs: seq<Verdict>, s: Setting)
    requires s.kh % 2 == 1 && s.kw % 2 == 1
    requires forall i :: 0 <= i < |vs| && vs[i].Accepted? ==> Shaped(vs[i].window, Span(s.kh), Span(s.kw))
    ensures forall k :: 0 <= k < |KeptWindows(vs)| ==> Shaped(KeptWindows(vs)[k], s.kh, s.kw)
  {
    if vs != [] {
      var n := |vs| - 1;
      assert forall i :: 0 <= i < n ==> vs[..n][i] == vs[i];
      KeptWindowsShaped(vs[..n], s);
    }
  }
}
