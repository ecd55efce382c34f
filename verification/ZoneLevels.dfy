/**
 * The levels of a zone's free-chunk bitmap: level i has one bit for every 2^i chunks, and a region is
 * recorded by the largest aligned bits that cover it.
 */
module ZoneLevels {
  import opened Arithmetic
  import opened BitWords
  import opened Bitmaps

  /** n halved i times. */
  function Down(n: nat, i: nat): nat {
    if i == 0 then n else Down(n, i - 1) / 2
  }

  /** Some level from i on has the bit that covers x, where x counts in units of level i. */
  predicate Free(levels: seq<seq<bv32>>, i: nat, x: nat)
    decreases |levels| - i
  {
    i < |levels| && ((x < 32 * |levels[i]| && BitAt(levels[i], x)) || Free(levels, i + 1, x / 2))
  }

  /** The levels of a zone of r chunks, all free, with n levels. */
  ghost predicate NewLevels(levels: seq<seq<bv32>>, n: nat, r: nat) {
    && 0 < n == |levels|
    && r <= Power(n - 1)
    && forall i {:trigger levels[i]} :: 0 <= i < n ==>
         Power(n - 1 - i) <= 32 * |levels[i]| && LastReal(levels[i], Power(n - 1 - i), Down(r, i))
  }

  lemma {:induction false} DownBound(r: nat, n: nat, i: nat)
    requires r <= Power(n) && i <= n
    ensures Down(r, i) <= Power(n - i)
  {
    if i == 0 {
    } else {
      DownBound(r, n, i - 1);
    }
  }

  /** Seen from level i, the chunks below what is left of r at that level are free, and no others. */
  lemma {:induction false} NewFree(levels: seq<seq<bv32>>, n: nat, r: nat, i: nat, x: nat)
    requires NewLevels(levels, n, r) && i < n && x < Power(n - 1 - i)
    ensures Free(levels, i, x) <==> x < Down(r, i)
    decreases n - i
  {
    hide BitAt;
    DownBound(r, n - 1, i);
    assert LastReal(levels[i], Power(n - 1 - i), Down(r, i));
    assert BitAt(levels[i], x) <==> Down(r, i) % 2 == 1 && x == Down(r, i) - 1;
    if i + 1 < n {
      NewFree(levels, n, r, i + 1, x / 2);
      assert Down(r, i + 1) == Down(r, i) / 2;
    }
  }

  /** A new zone of r chunks unpacks to exactly the chunks 0..r-1. */
  lemma NewZoneIsFree(levels: seq<seq<bv32>>, n: nat, r: nat)
    requires NewLevels(levels, n, r)
    ensures forall x :: 0 <= x < Power(n - 1) ==> (Free(levels, 0, x) <==> x < r)
  {
    forall x | 0 <= x < Power(n - 1) ensures Free(levels, 0, x) <==> x < r {
      NewFree(levels, n, r, 0, x);
    }
  }

  /** Level i has the bit over chunk x. */
  predicate CoversChunk(levels: seq<seq<bv32>>, i: nat, x: nat) {
    i < |levels| && Down(x, i) < 32 * |levels[i]| && BitAt(levels[i], Down(x, i))
  }

  lemma {:induction false} FreeHasLevel(levels: seq<seq<bv32>>, i: nat, x: nat)
    ensures Free(levels, i, Down(x, i)) <==> exists j :: i <= j < |levels| && CoversChunk(levels, j, x)
    decreases |levels| - i
  {
    hide BitAt;
    if i >= |levels| {
    } else {
      FreeHasLevel(levels, i + 1, x);
      assert Down(x, i + 1) == Down(x, i) / 2;
      if Free(levels, i, Down(x, i)) && !CoversChunk(levels, i, x) {
        var j :| i + 1 <= j < |levels| && CoversChunk(levels, j, x);
      }
    }
  }

  lemma {:induction false} DownLess(x: nat, n: nat, i: nat)
    requires x < Power(n) && i <= n
    ensures Down(x, i) < Power(n - i)
  {
    if i == 0 {
    } else {
      DownLess(x, n, i - 1);
    }
  }

  /** The covers are disjoint: each free chunk lies under exactly one set bit of one level. */
  lemma NewCoversDisjoint(levels: seq<seq<bv32>>, n: nat, r: nat, x: nat)
    requires NewLevels(levels, n, r) && x < r
    ensures exists i: nat :: CoversChunk(levels, i, x) && forall j: nat :: CoversChunk(levels, j, x) ==> j == i
  {
    hide BitAt, LastReal;
    NewFree(levels, n, r, 0, x);
    FreeHasLevel(levels, 0, x);
    var i :| 0 <= i < n && CoversChunk(levels, i, x);
    forall j: nat | CoversChunk(levels, j, x) ensures j == i {
      if j < i { NewCoversOnce(levels, n, r, j, i, x); }
      if i < j { NewCoversOnce(levels, n, r, i, j, x); }
    }
  }

  lemma NewCoversOnce(levels: seq<seq<bv32>>, n: nat, r: nat, i: nat, j: nat, x: nat)
    requires NewLevels(levels, n, r) && x < r && i < j < n
    ensures !(CoversChunk(levels, i, x) && CoversChunk(levels, j, x))
  {
    hide BitAt;
    if CoversChunk(levels, i, x) {
      DownLess(x, n - 1, i);
      assert LastReal(levels[i], Power(n - 1 - i), Down(r, i));
      assert BitAt(levels[i], Down(x, i));
      assert Down(x, i) == Down(r, i) - 1 && Down(r, i) % 2 == 1;
      assert Down(x, i + 1) == Down(r, i + 1);
      DownLess(x, n - 1, i + 1);
      NewFree(levels, n, r, i + 1, Down(x, i + 1));
      FreeHasLevel(levels, i + 1, x);
    }
  }
}
