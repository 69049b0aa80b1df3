/** pattern_detector: picks the foci of a correlation map and validates them
    against the contact map. The correlation map is computed elsewhere and is
    an input here. */
module Detection {
  import opened Numeric
  import opened Sparse
  import opened Labelling
  import opened Picker
  import opened Validation

  /** The filler row (0, 0) of the picker never passes the bounds check. */
  lemma FillerRejected(s: Setting)
    ensures Validate((0, 0), s) == OutOfBounds
  {
  }

  /** pattern_detector: `None` when the kernel is at least as tall as the
      matrix or when the picker finds no candidate; otherwise the picker's
      rows `picked` (the best pixel of each surviving focus, then (0, 0) up to
      the number of foci) and the validated patterns and windows among them.
      Every reported pattern is the best pixel of one of the foci. */
  method PatternDetector(matrix: Coo<real>, conv: Coo<real>, s: Setting, precision: real, mad: real)
    returns (r: Option<(seq<Pattern>, seq<Window>)>, ghost picked: seq<(nat, nat)>, ghost f: Foci)
    requires s.matrix == matrix && s.conv == conv.entries
    requires s.kh % 2 == 1 && s.kw % 2 == 1
    ensures r.None? <==> s.kh >= matrix.nrows || Candidates(conv.entries, precision, mad) == []
    ensures r.Some? ==>
      && PickedFoci(Candidates(conv.entries, precision, mad), f)
      && PickedRows(picked, Scores(conv.entries, f.entries), f)
      && r.value.0 == KeptPatterns(Verdicts(picked, s))
      && r.value.1 == KeptWindows(Verdicts(picked, s))
      && FromFoci(r.value.0, Scores(conv.entries, f.entries), f)
  {
    picked, f := [], Foci(0, [], [], [], []);
    if s.kh >= matrix.nrows {
      return None, picked, f;
    }
    var coords;
    coords, f := Pick(conv, precision, mad);
    if coords.None? {
      return None, picked, f;
    }
    var rows := coords.value;
    picked := rows;
    var filtered, windows := ValidatePatterns(rows, s);
    r := Some((filtered, windows));
    ReportedArePicked(picked, s, f, Scores(conv.entries, f.entries));
  }

  /** Pattern `p` lies on the best pixel of one of the foci. */
  ghost predicate PixelFromFoci(p: Pattern, sc: seq<real>, f: Foci)
    requires |sc| == |f.entries|
  {
    exists rank :: 0 <= rank < |f.ids| && BestPixel(sc, f.entries, f.ids[rank], (p.bin1, p.bin2))
  }

  /** Every pattern of `ps` lies on the best pixel of one of the foci. */
  ghost predicate FromFoci(ps: seq<Pattern>, sc: seq<real>, f: Foci)
    requires |sc| == |f.entries|
  {
    forall k :: 0 <= k < |ps| ==> PixelFromFoci(ps[k], sc, f)
  }

  /** Every kept pattern comes from a row of the picker that holds the best
      pixel of a focus. */
  lemma ReportedArePicked(picked: seq<(nat, nat)>, s: Setting, f: Foci, sc: seq<real>)
    requires |sc| == |f.entries|
    requires |f.ids| <= |picked|
    requires forall r :: 0 <= r < |f.ids| ==> BestPixel(sc, f.entries, f.ids[r], picked[r])
    requires forall r :: |f.ids| <= r < |picked| ==> picked[r] == (0, 0)
    ensures FromFoci(KeptPatterns(Verdicts(picked, s)), sc, f)
  {
    var vs := Verdicts(picked, s);
    var kept := KeptPatterns(vs);
    KeptAligned(vs);
    forall k | 0 <= k < |kept|
      ensures PixelFromFoci(kept[k], sc, f)
    {
      var i := KeptIndices(vs)[k];
      assert vs[i].Accepted?;
      if i >= |f.ids| {
        FillerRejected(s);
        assert false;
      }
      assert vs[i].pattern == kept[k];
      assert (kept[k].bin1, kept[k].bin2) == picked[i];
      assert 0 <= i < |f.ids| && BestPixel(sc, f.entries, f.ids[i], (kept[k].bin1, kept[k].bin2));
    }
  }
}
