/** picker: finds the foci of high correlation in a sparse correlation map and
    returns the coordinates of the best pixel of each focus. */
module Picker {
  import opened Numeric
  import opened Sparse
  import opened Labelling

  /** The stored values of a sparse matrix, in storage order (`.data`): the
      correlation values of the map, or the focus labels of the foci matrix. */
  function Values<T>(es: seq<Entry<T>>): (vs: seq<T>)
    ensures |vs| == |es|
    ensures forall i :: 0 <= i < |es| ==> vs[i] == es[i].value
  {
    seq(|es|, i requires 0 <= i < |es| => es[i].value)
  }

  /** The threshold `median + precision * mad` of the stored values; `None` when
      nothing is stored (numpy's median is then NaN). The median absolute
      deviation is computed elsewhere and given as `mad`. */
  function Threshold(es: seq<Entry<real>>, precision: real, mad: real): (t: Option<real>)
    ensures t.None? <==> es == []
  {
    match Median(Values(es))
    case None => None
    case Some(m) => Some(m + precision * mad)
  }

  /** A stored value survives as a candidate when it is not below the threshold
      and is not 0 (values below are set to 0, then zeros are eliminated). */
  predicate IsCandidate(v: real, thres: real) {
    !(v < thres) && v != 0.0
  }

  /** The candidate mask: 1 where the pixel survives, 0 where it is eliminated. */
  function CandidateMask(es: seq<Entry<real>>, thres: real): (mask: seq<nat>)
    ensures |mask| == |es|
    ensures forall i :: 0 <= i < |es| ==> (mask[i] > 0 <==> IsCandidate(es[i].value, thres))
    ensures forall i :: 0 <= i < |es| ==> mask[i] <= 1
  {
    seq(|es|, i requires 0 <= i < |es| => if IsCandidate(es[i].value, thres) then 1 else 0)
  }

  /** The candidate matrix: the surviving pixels, in storage order, all valued 1. */
  function Candidates(es: seq<Entry<real>>, precision: real, mad: real): (c: seq<Entry<nat>>)
    ensures |c| <= |es|
  {
    match Threshold(es, precision, mad)
    case None => []
    case Some(t) => FociEntries(es, CandidateMask(es, t))
  }

  /** `c` holds exactly the stored pixels that survive `t`, each with value 1. */
  ghost predicate SurvivorsOf(es: seq<Entry<real>>, t: real, c: seq<Entry<nat>>) {
    && (forall j :: 0 <= j < |c| ==>
          exists i :: 0 <= i < |es| && IsCandidate(es[i].value, t) && c[j] == Entry(es[i].row, es[i].col, 1))
    && (forall i :: 0 <= i < |es| && IsCandidate(es[i].value, t) ==>
          exists j :: 0 <= j < |c| && c[j] == Entry(es[i].row, es[i].col, 1))
  }

  /** The candidates are exactly the stored pixels at or above the threshold and
      not 0, each with value 1. */
  lemma CandidatesExact(es: seq<Entry<real>>, precision: real, mad: real)
    requires es != []
    ensures Threshold(es, precision, mad).Some?
    ensures SurvivorsOf(es, Threshold(es, precision, mad).value, Candidates(es, precision, mad))
  {
    MaskedExact(es, Threshold(es, precision, mad).value);
  }

  /** The pixels the candidate mask keeps for a threshold `t` are exactly the
      stored pixels that survive `t`, each with value 1. */
  lemma MaskedExact(es: seq<Entry<real>>, t: real)
    ensures SurvivorsOf(es, t, FociEntries(es, CandidateMask(es, t)))
  {
    var mask := CandidateMask(es, t);
    var c := FociEntries(es, mask);
    forall j | 0 <= j < |c|
      ensures exists i :: 0 <= i < |es| && IsCandidate(es[i].value, t) && c[j] == Entry(es[i].row, es[i].col, 1)
    {
      FociEntriesSound(es, mask, j);
    }
    forall i | 0 <= i < |es| && IsCandidate(es[i].value, t)
      ensures exists j :: 0 <= j < |c| && c[j] == Entry(es[i].row, es[i].col, 1)
    {
      FociEntriesComplete(es, mask, i);
    }
  }

  // ---------------------------------------------------------------------------
  // The numpy helpers the picker applies to each focus.

  function InsertDistinct(x: nat, u: seq<nat>): (r: seq<nat>)
    requires Increasing(u)
    ensures Increasing(r)
    ensures forall y :: y in r <==> y in u || y == x
  {
    if u == [] then [x]
    else if x < u[0] then [x] + u
    else if x == u[0] then u
    else
      var rest := InsertDistinct(x, u[1..]);
      assert forall k | 0 <= k < |rest| :: u[0] < rest[k] by {
        forall k | 0 <= k < |rest| ensures u[0] < rest[k] {
          assert rest[k] in rest;
          if rest[k] != x {
            var l :| 0 <= l < |u[1..]| && u[1..][l] == rest[k];
            assert u[l + 1] == rest[k];
          }
        }
      }
      assert u == [u[0]] + u[1..];
      [u[0]] + rest
  }

  /** np.unique: the distinct values, in increasing order. */
  function Unique(xs: seq<nat>): (u: seq<nat>)
    ensures Increasing(u)
    ensures forall y :: y in u <==> y in xs
  {
    if xs == [] then []
    else
      var n := |xs| - 1;
      assert xs == xs[..n] + [xs[n]];
      InsertDistinct(xs[n], Unique(xs[..n]))
  }

  /** An increasing sequence of numbers in `lo..hi` has at most `hi - lo + 1` members. */
  lemma {:induction false} IncreasingBounded(u: seq<nat>, lo: nat, hi: nat)
    requires Increasing(u)
    requires forall i :: 0 <= i < |u| ==> lo <= u[i] <= hi
    ensures |u| <= hi + 1 - lo || u == []
  {
    if |u| > 1 {
      IncreasingBounded(u[1..], u[0] + 1, hi);
      assert u[0] < u[1];
    }
  }

  /** np.where(data == l): the indices of the entries labelled `l`, in increasing order. */
  function IndicesOf(es: seq<Entry<nat>>, l: nat): (idx: seq<nat>)
    ensures Increasing(idx)
    ensures forall i :: 0 <= i < |idx| ==> idx[i] < |es| && es[idx[i]].value == l
    ensures forall j :: 0 <= j < |es| && es[j].value == l ==> j in idx
  {
    if es == [] then []
    else
      var n := |es| - 1;
      var init := IndicesOf(es[..n], l);
      assert forall j :: 0 <= j < n && es[j].value == l ==> j in init by {
        forall j | 0 <= j < n && es[j].value == l ensures j in init {
          assert es[..n][j] == es[j];
        }
      }
      init + (if es[n].value == l then [n] else [])
  }

  /** np.argmax: the first index of a maximal value. */
  function ArgMax(xs: seq<real>): (i: nat)
    requires xs != []
    ensures i < |xs|
    ensures forall j :: 0 <= j < |xs| ==> xs[j] <= xs[i]
    ensures forall j :: 0 <= j < i ==> xs[j] < xs[i]
  {
    if |xs| == 1 then 0
    else
      var n := |xs| - 1;
      var k := ArgMax(xs[..n]);
      assert forall j :: 0 <= j < n ==> xs[..n][j] == xs[j];
      if xs[n] > xs[k] then n else k
  }

  // ---------------------------------------------------------------------------
  // picker

  /** The correlation at the position of each labelled pixel, read from a CSR
      copy of the correlation map. */
  function Scores(conv: seq<Entry<real>>, foci: seq<Entry<nat>>): (sc: seq<real>)
    ensures |sc| == |foci|
  {
    seq(|foci|, i requires 0 <= i < |foci| => ValueAt(conv, foci[i].row, foci[i].col))
  }

  /** Entry `j` is the first pixel of focus `l` whose correlation is the
      largest in that focus. */
  ghost predicate FirstBest(sc: seq<real>, foci: seq<Entry<nat>>, l: nat, j: int)
    requires |sc| == |foci|
  {
    && 0 <= j < |foci| && foci[j].value == l
    && (forall k :: 0 <= k < |foci| && foci[k].value == l ==> sc[k] <= sc[j])
    && (forall k :: 0 <= k < j && foci[k].value == l ==> sc[k] < sc[j])
  }

  /** `p` is the position of the first best pixel of focus `l`. */
  ghost predicate BestPixel(sc: seq<real>, foci: seq<Entry<nat>>, l: nat, p: (nat, nat))
    requires |sc| == |foci|
  {
    exists j :: FirstBest(sc, foci, l, j) && p == (foci[j].row, foci[j].col)
  }

  /** One step of the picker's loop: np.where on the focus, then np.argmax of the
      correlation over its pixels. */
  method BestOfFocus(sc: seq<real>, foci: seq<Entry<nat>>, l: nat) returns (p: (nat, nat))
    requires |sc| == |foci|
    requires l in Values(foci)
    ensures BestPixel(sc, foci, l, p)
  {
    var idx := IndicesOf(foci, l);
    var vals := seq(|idx|, i requires 0 <= i < |idx| => sc[idx[i]]);
    var k := ArgMax(vals);
    p := (foci[idx[k]].row, foci[idx[k]].col);
    forall j | 0 <= j < |foci| && foci[j].value == l
      ensures sc[j] <= sc[idx[k]]
    {
      var m :| 0 <= m < |idx| && idx[m] == j;
      assert vals[m] <= vals[k];
    }
    forall j | 0 <= j < idx[k] && foci[j].value == l
      ensures sc[j] < sc[idx[k]]
    {
      var m :| 0 <= m < |idx| && idx[m] == j;
      assert m < k;
      assert vals[m] < vals[k];
    }
    assert FirstBest(sc, foci, l, idx[k]);
  }

  /** The picker's output table: `num` rows of zeros, then row `r` set to the
      best pixel of the `r`-th focus label. */
  method FillBest(sc: seq<real>, foci: seq<Entry<nat>>, ids: seq<nat>, num: nat) returns (coords: seq<(nat, nat)>)
    requires |sc| == |foci|
    requires |ids| <= num
    requires forall r :: 0 <= r < |ids| ==> ids[r] in Values(foci)
    ensures |coords| == num
    ensures forall r :: 0 <= r < |ids| ==> BestPixel(sc, foci, ids[r], coords[r])
    ensures forall r :: |ids| <= r < num ==> coords[r] == (0, 0)
  {
    var best := new (nat, nat)[num](_ => (0, 0));
    for rank := 0 to |ids|
      invariant RowsPicked(sc, foci, ids, best[..], rank)
    {
      var p := BestOfFocus(sc, foci, ids[rank]);
      ghost var before := best[..];
      best[rank] := p;
      assert best[..] == before[rank := p];
    }
    coords := best[..];
  }

  /** The first `rank` rows hold the best pixels of their foci; the rest are still zero. */
  ghost predicate RowsPicked(sc: seq<real>, foci: seq<Entry<nat>>, ids: seq<nat>, rows: seq<(nat, nat)>, rank: nat)
    requires |sc| == |foci|
  {
    && rank <= |ids| <= |rows|
    && (forall r :: 0 <= r < rank ==> BestPixel(sc, foci, ids[r], rows[r]))
    && (forall r :: rank <= r < |rows| ==> rows[r] == (0, 0))
  }

  /** The labelling that the picker computes on the candidates. */
  datatype Foci = Foci(num: nat, pre: seq<nat>, roots: seq<nat>, entries: seq<Entry<nat>>, ids: seq<nat>)

  /** What the picker promises about the foci it finds on `cand`. */
  ghost predicate PickedFoci(cand: seq<Entry<nat>>, f: Foci) {
    && FociLabelling(Positions(cand), f.num, f.pre, f.roots)
    && f.entries == FociEntries(cand, SmallRemoved(f.pre, 2))
    && f.ids == Unique(Values(f.entries))
  }

  /** The labels that survive removal of small foci lie in 1..num. */
  lemma SurvivingLabelsInRange(cand: seq<Entry<nat>>, f: Foci)
    requires PickedFoci(cand, f)
    ensures forall r :: 0 <= r < |f.ids| ==> 1 <= f.ids[r] <= f.num
    ensures |f.ids| <= f.num
  {
    var kept := SmallRemoved(f.pre, 2);
    forall j | 0 <= j < |f.entries| ensures 1 <= f.entries[j].value <= f.num {
      FociEntriesSound(cand, kept, j);
    }
    forall r | 0 <= r < |f.ids| ensures 1 <= f.ids[r] <= f.num {
      assert f.ids[r] in Values(f.entries);
    }
    IncreasingBounded(f.ids, 1, f.num);
  }

  /** The picker's rows for the foci `f` under the scores `sc`: one row per
      focus, row `r` holding the best pixel of the `r`-th surviving label and
      the rows beyond the surviving labels holding the filler (0, 0). */
  ghost predicate PickedRows(rows: seq<(nat, nat)>, sc: seq<real>, f: Foci)
    requires |sc| == |f.entries|
  {
    && |f.ids| <= f.num
    && |rows| == f.num
    && (forall r :: 0 <= r < |f.ids| ==> BestPixel(sc, f.entries, f.ids[r], rows[r]))
    && (forall r :: |f.ids| <= r < f.num ==> rows[r] == (0, 0))
  }

  /** picker: `None` when no pixel is a candidate; otherwise one row per focus
      found before small foci were removed: row `r` holds the best pixel of the
      `r`-th surviving focus label in increasing order, and the rows beyond the
      surviving foci stay (0, 0). */
  method Pick(conv: Coo<real>, precision: real, mad: real)
    returns (coords: Option<seq<(nat, nat)>>, ghost f: Foci)
    ensures coords.None? <==> Candidates(conv.entries, precision, mad) == []
    ensures coords.Some? ==>
      && PickedFoci(Candidates(conv.entries, precision, mad), f)
      && PickedRows(coords.value, Scores(conv.entries, f.entries), f)
  {
    var cand := Candidates(conv.entries, precision, mad);
    if cand == [] {
      return None, Foci(0, [], [], [], []);
    }
    var num, labelled, pre, roots := LabelConnectedPixels(Coo(conv.nrows, conv.ncols, cand), 2);
    var foci := labelled.entries;
    var ids := Unique(Values(foci));
    f := Foci(num, pre, roots, foci, ids);
    SurvivingLabelsInRange(cand, f);
    forall r | 0 <= r < |ids| ensures ids[r] in Values(foci) {
      assert ids[r] in ids;
    }
    var best := FillBest(Scores(conv.entries, foci), foci, ids, num);
    coords := Some(best);
  }

  /** Every picked pixel is a candidate pixel of the correlation map (at or
      above the threshold and not 0) and belongs to a focus of at least two
      candidate pixels. */
  lemma PickedPixelsAreCandidates(conv: Coo<real>, precision: real, mad: real, coords: seq<(nat, nat)>, f: Foci, r: nat)
    requires conv.entries != []
    requires PickedFoci(Candidates(conv.entries, precision, mad), f)
    requires r < |f.ids| && r < |coords|
    requires BestPixel(Scores(conv.entries, f.entries), f.entries, f.ids[r], coords[r])
    ensures exists i ::
      && 0 <= i < |conv.entries|
      && IsCandidate(conv.entries[i].value, Threshold(conv.entries, precision, mad).value)
      && coords[r] == (conv.entries[i].row, conv.entries[i].col)
    ensures Count(f.pre, f.ids[r]) >= 2
  {
    var es := conv.entries;
    var t := Threshold(es, precision, mad).value;
    var cand := Candidates(es, precision, mad);
    assert cand == FociEntries(es, CandidateMask(es, t));
    var kept := SmallRemoved(f.pre, 2);
    var j :| FirstBest(Scores(es, f.entries), f.entries, f.ids[r], j) && coords[r] == (f.entries[j].row, f.entries[j].col);
    FociEntriesSound(cand, kept, j);
    var c :| 0 <= c < |cand| && kept[c] > 0 && f.entries[j] == Entry(cand[c].row, cand[c].col, kept[c]);
    FociEntriesSound(es, CandidateMask(es, t), c);
    var i :| 0 <= i < |es| && CandidateMask(es, t)[i] > 0 && cand[c] == Entry(es[i].row, es[i].col, CandidateMask(es, t)[i]);
    assert IsCandidate(es[i].value, t);
    assert coords[r] == (es[i].row, es[i].col);
  }
}
