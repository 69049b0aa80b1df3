/** pileup_patterns: the pixelwise median of a stack of windows. */
module Pileup {
  import opened Numeric
  import opened Validation

  /** Every window of the stack has shape `h` by `w`. */
  predicate AllShaped(ws: seq<Window>, h: nat, w: nat) {
    forall k :: 0 <= k < |ws| ==> Shaped(ws[k], h, w)
  }

  /** The values of pixel (a, b) across the stack, window by window. */
  function Stack(ws: seq<Window>, h: nat, w: nat, a: nat, b: nat): (col: seq<real>)
    requires AllShaped(ws, h, w)
    requires a < h && b < w
    ensures |col| == |ws|
    ensures forall k :: 0 <= k < |ws| ==> col[k] == ws[k][a][b]
  {
    seq(|ws|, k requires 0 <= k < |ws| => ws[k][a][b])
  }

  /** np.apply_along_axis(np.median, 0, windows): one median per pixel; a pixel
      of an empty stack is NaN (`None`). */
  function PileupPatterns(ws: seq<Window>, h: nat, w: nat): (p: seq<seq<Option<real>>>)
    requires AllShaped(ws, h, w)
    ensures |p| == h
    ensures forall a :: 0 <= a < h ==> |p[a]| == w
  {
    seq(h, a requires 0 <= a < h => seq(w, b requires 0 <= b < w => Median(Stack(ws, h, w, a, b))))
  }

  /** The first `j` pixels of row `a` of the pileup, built left to right. */
  function MedianRow(ws: seq<Window>, h: nat, w: nat, a: nat, j: nat): (row: seq<Option<real>>)
    requires AllShaped(ws, h, w) && a < h && j <= w
    ensures |row| == j
  {
    if j == 0 then [] else MedianRow(ws, h, w, a, j - 1) + [Median(Stack(ws, h, w, a, j - 1))]
  }

  /** Pixel `b` of a row built that way is the median of its stack. */
  lemma {:induction false} MedianRowAt(ws: seq<Window>, h: nat, w: nat, a: nat, j: nat, b: nat)
    requires AllShaped(ws, h, w) && a < h && b < j <= w
    ensures MedianRow(ws, h, w, a, j)[b] == Median(Stack(ws, h, w, a, b))
  {
    if b < j - 1 {
      MedianRowAt(ws, h, w, a, j - 1, b);
    }
  }

  /** The whole row built that way is row `a` of the pileup. */
  lemma PileupRow(ws: seq<Window>, h: nat, w: nat, a: nat)
    requires AllShaped(ws, h, w) && a < h
    ensures PileupPatterns(ws, h, w)[a] == MedianRow(ws, h, w, a, w)
  {
    forall b | 0 <= b < w
      ensures PileupPatterns(ws, h, w)[a][b] == MedianRow(ws, h, w, a, w)[b]
    {
      MedianRowAt(ws, h, w, a, w, b);
    }
  }

  /** Each pixel of the pileup of a non-empty stack lies between the smallest
      and the largest value of that pixel across the stack. */
  lemma PileupWithinRange(ws: seq<Window>, h: nat, w: nat, a: nat, b: nat)
    requires AllShaped(ws, h, w) && ws != []
    requires a < h && b < w
    ensures PileupPatterns(ws, h, w)[a][b].Some?
    ensures exists k :: 0 <= k < |ws| && ws[k][a][b] <= PileupPatterns(ws, h, w)[a][b].value
    ensures exists k :: 0 <= k < |ws| && PileupPatterns(ws, h, w)[a][b].value <= ws[k][a][b]
  {
    var col := Stack(ws, h, w, a, b);
    MedianWithinRange(col);
    assert PileupPatterns(ws, h, w)[a][b] == Median(col);
  }

  /** The pileup of an empty stack is NaN everywhere. */
  lemma PileupOfNothing(h: nat, w: nat, a: nat, b: nat)
    requires a < h && b < w
    ensures PileupPatterns([], h, w)[a][b] == None
  {
    assert Stack([], h, w, a, b) == [];
  }

  /** The pileup of a single window is that window. */
  lemma PileupOfOne(win: Window, h: nat, w: nat, a: nat, b: nat)
    requires Shaped(win, h, w)
    requires a < h && b < w
    ensures PileupPatterns([win], h, w)[a][b] == Some(win[a][b])
  {
    MedianOfConstant(Stack([win], h, w, a, b), win[a][b]);
  }

  /** Applies `f` to every element. */
  function Apply<T>(xs: seq<T>, f: T -> real): (r: seq<real>)
    ensures |r| == |xs|
    ensures forall k :: 0 <= k < |xs| ==> r[k] == f(xs[k])
  {
    seq(|xs|, k requires 0 <= k < |xs| => f(xs[k]))
  }

  /** Taking element `i` out takes its image out. */
  lemma ApplyRemove<T>(ys: seq<T>, i: nat, f: T -> real)
    requires i < |ys|
    ensures multiset(Apply(ys, f)) == multiset(Apply(ys[..i] + ys[i + 1..], f)) + multiset{f(ys[i])}
  {
    var col := Apply(ys, f);
    assert col == col[..i] + [col[i]] + col[i + 1..];
    assert Apply(ys[..i] + ys[i + 1..], f) == col[..i] + col[i + 1..];
  }

  /** Reordering the elements reorders their images the same way. */
  lemma {:induction false} ApplyPermutation<T>(xs: seq<T>, ys: seq<T>, f: T -> real)
    requires multiset(xs) == multiset(ys)
    ensures multiset(Apply(xs, f)) == multiset(Apply(ys, f))
  {
    SameSize(xs, ys);
    if xs != [] {
      var n := |xs| - 1;
      var x := xs[n];
      assert x in multiset(ys);
      var i :| 0 <= i < |ys| && ys[i] == x;
      var ys' := ys[..i] + ys[i + 1..];
      MultisetRemove(ys, i);
      MultisetRemove(xs, n);
      assert xs[..n] + xs[n + 1..] == xs[..n];
      ApplyPermutation(xs[..n], ys', f);
      ApplyRemove(ys, i, f);
      ApplyRemove(xs, n, f);
    }
  }

  /** Pixel (a, b) of a window, or 0 outside it. */
  function Pixel(win: Window, a: nat, b: nat): real {
    if a < |win| && b < |win[a]| then win[a][b] else 0.0
  }

  /** Reordering the stack reorders the values of every pixel the same way. */
  lemma StackPermutation(xs: seq<Window>, ys: seq<Window>, h: nat, w: nat, a: nat, b: nat)
    requires AllShaped(xs, h, w) && AllShaped(ys, h, w)
    requires multiset(xs) == multiset(ys)
    requires a < h && b < w
    ensures multiset(Stack(xs, h, w, a, b)) == multiset(Stack(ys, h, w, a, b))
  {
    var f := win => Pixel(win, a, b);
    ApplyPermutation(xs, ys, f);
    assert Stack(xs, h, w, a, b) == Apply(xs, f);
    assert Stack(ys, h, w, a, b) == Apply(ys, f);
  }

  /** The pileup does not depend on the order in which the windows are stacked. */
  lemma PileupOrderInvariant(xs: seq<Window>, ys: seq<Window>, h: nat, w: nat)
    requires AllShaped(xs, h, w) && AllShaped(ys, h, w)
    requires multiset(xs) == multiset(ys)
    ensures PileupPatterns(xs, h, w) == PileupPatterns(ys, h, w)
  {
    forall a | 0 <= a < h
      ensures PileupPatterns(xs, h, w)[a] == PileupPatterns(ys, h, w)[a]
    {
      forall b | 0 <= b < w
        ensures PileupPatterns(xs, h, w)[a][b] == PileupPatterns(ys, h, w)[a][b]
      {
        StackPermutation(xs, ys, h, w, a, b);
        MedianPermutationInvariant(Stack(xs, h, w, a, b), Stack(ys, h, w, a, b));
      }
    }
  }
}
