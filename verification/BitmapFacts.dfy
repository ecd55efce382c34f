/** What collapsing a level into the next one keeps, and when expanding it again undoes it. */
module BitmapFacts {
  import opened BitWords
  import opened Bitmaps

  /** Chunk x of the lower level is free, at its own level or at the next one. */
  predicate FreeIn(lower: seq<bv32>, upper: seq<bv32>, x: nat)
    requires x < 32 * |lower| && x / 2 < 32 * |upper|
  {
    BitAt(lower, x) || BitAt(upper, x / 2)
  }

  /** Every bit the upper level has already is one that the collapse would set. */
  ghost predicate Absorbed(a: seq<bv32>, b: seq<bv32>, n: nat)
    requires 2 * n <= 32 * |a| && n <= 32 * |b|
  {
    forall j {:trigger BitAt(b, j)} :: 0 <= j < n && BitAt(b, j) ==> Pair(a, j)
  }

  ghost predicate Cleared(b: seq<bv32>, n: nat)
    requires n <= 32 * |b|
  {
    forall j {:trigger BitAt(b, j)} :: 0 <= j < n ==> !BitAt(b, j)
  }

  ghost predicate SameBits(a: seq<bv32>, b: seq<bv32>, n: nat)
    requires n <= 32 * |a| && n <= 32 * |b|
  {
    forall m {:trigger BitAt(b, m)} :: 0 <= m < n ==> BitAt(b, m) == BitAt(a, m)
  }

  lemma CollapseLengths(a: seq<bv32>, b: seq<bv32>, c: seq<bv32>, d: seq<bv32>, n: nat)
    requires Collapsed(a, b, c, d, n)
    ensures |a| == |c| && |b| == |d| && 2 * n <= 32 * |a|
  {
  }

  /** The collapse neither frees nor uses a chunk, whatever the upper level holds already. */
  lemma CollapseKeepsFree(a: seq<bv32>, b: seq<bv32>, c: seq<bv32>, d: seq<bv32>, n: nat, x: nat)
    requires Collapsed(a, b, c, d, n) && n <= 32 * |b| && x < 2 * n
    ensures |a| == |c| && |b| == |d| && FreeIn(c, d, x) == FreeIn(a, b, x)
  {
    hide BitAt;
    assert BitAt(d, x / 2) == (Pair(a, x / 2) || BitAt(b, x / 2));
    assert x == 2 * (x / 2) || x == 2 * (x / 2) + 1;
  }

  lemma CollapseLeavesNoPair(a: seq<bv32>, b: seq<bv32>, c: seq<bv32>, d: seq<bv32>, n: nat, j: nat)
    requires Collapsed(a, b, c, d, n) && j < n
    ensures |a| == |c| && !Pair(c, j)
  {
    hide BitAt;
    assert BitAt(c, 2 * j) == (BitAt(a, 2 * j) && !Pair(a, j));
    assert (2 * j) / 2 == j;
  }

  /** The bits left in the first 2k places of the lower level. */
  lemma {:induction false} CountLower(a: seq<bv32>, c: seq<bv32>, n: nat, k: nat)
    requires k <= n && 2 * n <= 32 * |a| && Paired(a, c, n)
    ensures Pop(c, 2 * k) == Pop(a, 2 * k) - 2 * Pairs(a, k)
  {
    hide BitAt;
    if k == 0 {
    } else {
      CountLower(a, c, n, k - 1);
      PopPair(a, k - 1);
      PopPair(c, k - 1);
      assert BitAt(c, 2 * k - 2) == (BitAt(a, 2 * k - 2) && !Pair(a, k - 1)) by { assert (2 * k - 2) / 2 == k - 1; }
      assert BitAt(c, 2 * k - 1) == (BitAt(a, 2 * k - 1) && !Pair(a, k - 1)) by { assert (2 * k - 1) / 2 == k - 1; }
    }
  }

  lemma PopPair(a: seq<bv32>, j: nat)
    requires 2 * j + 2 <= 32 * |a|
    ensures Pop(a, 2 * (j + 1)) == Pop(a, 2 * j) + (if BitAt(a, 2 * j) then 1 else 0) + (if BitAt(a, 2 * j + 1) then 1 else 0)
  {
    hide BitAt;
    assert Pop(a, 2 * j + 2) == Pop(a, 2 * j + 1) + (if BitAt(a, 2 * j + 1) then 1 else 0);
  }

  /** The upper level has at least as many bits as there are pairs, and no more exactly when it absorbs. */
  lemma {:induction false} CountUpper(a: seq<bv32>, b: seq<bv32>, d: seq<bv32>, n: nat, k: nat)
    requires k <= n <= 32 * |b| && 2 * n <= 32 * |a| && Promoted(a, b, d, n)
    ensures Pop(d, k) >= Pairs(a, k)
    ensures Pop(d, k) == Pairs(a, k) <==> Absorbed(a, b, k)
  {
    hide BitAt, Pair;
    if k == 0 {
    } else {
      CountUpper(a, b, d, n, k - 1);
      assert BitAt(d, k - 1) == (Pair(a, k - 1) || BitAt(b, k - 1));
      if Absorbed(a, b, k) { assert Absorbed(a, b, k - 1); }
      if Absorbed(a, b, k - 1) && (BitAt(b, k - 1) ==> Pair(a, k - 1)) { assert Absorbed(a, b, k); }
    }
  }

  /**
   * The upper counter, which the collapse restarts from zero, is the number of set bits, and the two
   * levels together stand for as many chunks as before, exactly when the upper level had no bit of
   * its own; a cleared upper level has none.
   */
  lemma CollapseConserves(a: seq<bv32>, b: seq<bv32>, c: seq<bv32>, d: seq<bv32>, n: nat)
    requires Collapsed(a, b, c, d, n) && n <= 32 * |b|
    ensures |a| == |c| && |b| == |d| && 2 * n <= 32 * |a|
    ensures Pop(d, n) == Pairs(a, n) <==> Absorbed(a, b, n)
    ensures Pop(c, 2 * n) + 2 * Pop(d, n) == Pop(a, 2 * n) <==> Absorbed(a, b, n)
    ensures Cleared(b, n) ==> Absorbed(a, b, n)
  {
    hide BitAt, Pair, Pop, Pairs;
    CountLower(a, c, n, n);
    CountUpper(a, b, d, n, n);
  }

  /** Expanding after a collapse restores the lower level exactly under the same condition. */
  lemma ExpandUndoesCollapse(a: seq<bv32>, b: seq<bv32>, c: seq<bv32>, d: seq<bv32>, e: seq<bv32>, n: nat)
    requires Collapsed(a, b, c, d, n) && n <= 32 * |b|
    requires n <= 32 * |d| && Expanded(d, c, e, n)
    ensures |e| == |a| && 2 * n <= 32 * |a|
    ensures SameBits(a, e, 32 * |a|) <==> Absorbed(a, b, n)
  {
    hide BitAt;
    if Absorbed(a, b, n) {
      forall m | 0 <= m < 32 * |a| ensures BitAt(e, m) == BitAt(a, m) {
        RestoredBit(a, b, c, d, e, n, m);
      }
    } else {
      var j :| 0 <= j < n && BitAt(b, j) && !Pair(a, j);
      assert BitAt(d, j);
      assert (2 * j) / 2 == j && (2 * j + 1) / 2 == j;
      assert BitAt(e, 2 * j) && BitAt(e, 2 * j + 1);
    }
  }

  lemma RestoredBit(a: seq<bv32>, b: seq<bv32>, c: seq<bv32>, d: seq<bv32>, e: seq<bv32>, n: nat, m: nat)
    requires Collapsed(a, b, c, d, n) && n <= 32 * |b|
    requires n <= 32 * |d| && Expanded(d, c, e, n) && m < 32 * |a| && Absorbed(a, b, n)
    ensures |e| == |a| && BitAt(e, m) == BitAt(a, m)
  {
    hide BitAt;
    if m / 2 < n {
      assert BitAt(d, m / 2) == (Pair(a, m / 2) || BitAt(b, m / 2));
      assert m == 2 * (m / 2) || m == 2 * (m / 2) + 1;
    }
  }

  lemma TopBits(k: nat)
    requires k < 32
    ensures Bit(0x8000_0000, k) <==> k == 0
    ensures Bit(0xC000_0000, k) <==> k <= 1
  {
    FirstMasks();
    TopWords();
    ZeroBit(k);
    hide Mask, PairMask, With, Bit;
    OrBit(0, 0, k);
    OrPair(0, 0, k);
  }

  lemma TopWords()
    ensures With(0, TOP) == 0x8000_0000 && With(0, TOP_PAIR) == 0xC000_0000
  {
  }

  /** A bit of its own in the upper level: the collapse counts nothing there and expanding frees chunk 1. */
  lemma UnclearedTarget()
    ensures exists a, b, c, d, e ::
              && Collapsed(a, b, c, d, 1) && |b| == 1 && |d| == 1 && Expanded(d, c, e, 1)
              && Pop(d, 1) == 1 && Pairs(a, 1) == 0 && |a| == |e| && !BitAt(a, 1) && BitAt(e, 1)
  {
    var a, e: seq<bv32> := [0x8000_0000], [0xC000_0000];
    assert a[0] == 0x8000_0000 && e[0] == 0xC000_0000;
    hide Bit;
    forall k | 0 <= k < 32 ensures (BitAt(a, k) <==> k == 0) && (BitAt(e, k) <==> k <= 1) {
      TopBits(k);
    }
    hide BitAt;
    assert !Pair(a, 0) && Pairs(a, 1) == 0 && Pop(a, 1) == 1;
    assert Collapsed(a, a, a, a, 1);
    assert Expanded(a, a, e, 1);
  }
}
