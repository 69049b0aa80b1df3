/** First-come deduplication by a key: a stream of items is filtered so that
    an item is kept when no item kept before it has the same key. The
    exploration drivers of chromosight and chromovision both keep their
    patterns this way, the key being a grid cell. */
module Buckets {

  /** The keys taken by the items kept so far. */
  function KeysOf<T, H(==)>(kept: seq<T>, key: T -> H): (ks: set<H>)
    ensures forall k :: 0 <= k < |kept| ==> key(kept[k]) in ks
    ensures forall c :: c in ks ==> exists k :: 0 <= k < |kept| && key(kept[k]) == c
  {
    set k | 0 <= k < |kept| :: key(kept[k])
  }

  /** The items kept from a stream: an item is kept when its key is not taken
      by an item kept before it. */
  function Dedup<T, H(==)>(xs: seq<T>, key: T -> H): (kept: seq<T>)
    ensures |kept| <= |xs|
  {
    if xs == [] then []
    else
      var n := |xs| - 1;
      var d := Dedup(xs[..n], key);
      if key(xs[n]) in KeysOf(d, key) then d else d + [xs[n]]
  }

  /** The kept items as a set. */
  function Kept<T(!new), H(==)>(xs: seq<T>, key: T -> H): (ps: set<T>)
    ensures forall x :: x in ps <==> x in Dedup(xs, key)
  {
    set x | x in Dedup(xs, key)
  }

  /** No two kept items share a key. */
  lemma {:induction false} DedupOnePerKey<T, H>(xs: seq<T>, key: T -> H)
    ensures forall i, j :: 0 <= i < j < |Dedup(xs, key)| ==>
      key(Dedup(xs, key)[i]) != key(Dedup(xs, key)[j])
  {
    if xs != [] {
      DedupOnePerKey(xs[..|xs| - 1], key);
    }
  }

  /** Every item's key is taken by a kept item. */
  lemma {:induction false} DedupCoversKeys<T, H>(xs: seq<T>, key: T -> H)
    ensures forall i :: 0 <= i < |xs| ==> key(xs[i]) in KeysOf(Dedup(xs, key), key)
  {
    if xs != [] {
      var n := |xs| - 1;
      DedupCoversKeys(xs[..n], key);
      var d := Dedup(xs[..n], key);
      forall i | 0 <= i < |xs| ensures key(xs[i]) in KeysOf(Dedup(xs, key), key) {
        if i < n {
          assert xs[..n][i] == xs[i];
          assert key(xs[i]) in KeysOf(d, key);
          if key(xs[n]) !in KeysOf(d, key) {
            var k :| 0 <= k < |d| && key(d[k]) == key(xs[i]);
            assert Dedup(xs, key)[k] == d[k];
          }
        } else if key(xs[n]) !in KeysOf(d, key) {
          assert Dedup(xs, key)[|d|] == xs[n];
        }
      }
    }
  }

  /** Every kept item is an item of the stream. */
  lemma {:induction false} DedupKeepsItems<T, H>(xs: seq<T>, key: T -> H)
    ensures forall k :: 0 <= k < |Dedup(xs, key)| ==> Dedup(xs, key)[k] in xs
  {
    if xs != [] {
      var n := |xs| - 1;
      DedupKeepsItems(xs[..n], key);
      assert forall x :: x in xs[..n] ==> x in xs;
    }
  }

  /** Each kept item is the first item of the stream with its key. */
  lemma {:induction false} DedupFirstWins<T, H>(xs: seq<T>, key: T -> H, k: nat)
    requires k < |Dedup(xs, key)|
    ensures exists i ::
      && 0 <= i < |xs| && xs[i] == Dedup(xs, key)[k]
      && forall j :: 0 <= j < i ==> key(xs[j]) != key(xs[i])
  {
    var n := |xs| - 1;
    var d := Dedup(xs[..n], key);
    if k < |d| {
      DedupFirstWins(xs[..n], key, k);
      var i :| 0 <= i < n && xs[..n][i] == d[k]
        && forall j :: 0 <= j < i ==> key(xs[..n][j]) != key(xs[..n][i]);
      assert xs[i] == Dedup(xs, key)[k];
      assert forall j :: 0 <= j < i ==> xs[..n][j] == xs[j];
    } else {
      DedupCoversKeys(xs[..n], key);
      assert Dedup(xs, key) == d + [xs[n]];
      forall j | 0 <= j < n ensures key(xs[j]) != key(xs[n]) {
        assert xs[..n][j] == xs[j];
        assert key(xs[..n][j]) in KeysOf(d, key);
      }
    }
  }

  lemma KeysAppend<T, H>(d: seq<T>, x: T, key: T -> H)
    ensures KeysOf(d + [x], key) == KeysOf(d, key) + {key(x)}
  {
    var e := d + [x];
    forall c | c in KeysOf(e, key) ensures c in KeysOf(d, key) + {key(x)} {
      var k :| 0 <= k < |e| && key(e[k]) == c;
      if k < |d| {
        assert e[k] == d[k];
      }
    }
    forall c | c in KeysOf(d, key) ensures c in KeysOf(e, key) {
      var k :| 0 <= k < |d| && key(d[k]) == c;
      assert e[k] == d[k];
    }
    assert e[|d|] == x;
  }

  /** One more item: it is kept, and its key taken, exactly when its key is free. */
  lemma DedupStep<T(!new), H>(seen: seq<T>, x: T, key: T -> H)
    ensures key(x) in KeysOf(Dedup(seen, key), key) ==>
      Kept(seen + [x], key) == Kept(seen, key)
      && KeysOf(Dedup(seen + [x], key), key) == KeysOf(Dedup(seen, key), key)
    ensures key(x) !in KeysOf(Dedup(seen, key), key) ==>
      Kept(seen + [x], key) == Kept(seen, key) + {x}
      && KeysOf(Dedup(seen + [x], key), key) == KeysOf(Dedup(seen, key), key) + {key(x)}
  {
    assert (seen + [x])[..|seen|] == seen;
    var d := Dedup(seen, key);
    if key(x) !in KeysOf(d, key) {
      assert Dedup(seen + [x], key) == d + [x];
      KeysAppend(d, x, key);
    }
  }

  /** Feeds a list of items to the kept set and the taken keys, one at a time:
      an item is added, with its key, when its key is not taken yet. */
  method AddNew<T(!new), H(==)>(xs: seq<T>, key: T -> H, ghost before: seq<T>, kept: set<T>, keys: set<H>)
    returns (kept': set<T>, keys': set<H>)
    requires kept == Kept(before, key)
    requires keys == KeysOf(Dedup(before, key), key)
    ensures kept' == Kept(before + xs, key)
    ensures keys' == KeysOf(Dedup(before + xs, key), key)
  {
    kept', keys' := kept, keys;
    assert before + xs[..0] == before;
    for k := 0 to |xs|
      invariant kept' == Kept(before + xs[..k], key)
      invariant keys' == KeysOf(Dedup(before + xs[..k], key), key)
    {
      ghost var seen := before + xs[..k];
      assert before + xs[..k + 1] == seen + [xs[k]];
      DedupStep(seen, xs[k], key);
      if key(xs[k]) !in keys' {
        kept' := kept' + {xs[k]};
        keys' := keys' + {key(xs[k])};
      }
    }
    assert xs[..|xs|] == xs;
  }
}
