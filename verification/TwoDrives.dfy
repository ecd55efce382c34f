/**
 * Splitting the MFS partitions of a backup over two drives: an exhaustive search over bit masks, one
 * bit for each pair of partitions after the first pair, and then the numbers the partitions get.
 */
module TwoDrives {
  import opened Arithmetic

  /** What the drives offer and what is wanted of the split. */
  datatype Setup = Setup(min1: nat, secs1: nat, secs2: nat, nofill: bool, balance: bool)

  /** Which pairs go to the first drive. */
  type Assignment = seq<bool>

  function Ones(a: Assignment): nat {
    if a == [] then 0 else Ones(a[..|a| - 1]) + if a[|a| - 1] then 1 else 0
  }

  /** The sectors of the pairs on one of the drives. */
  function Used(pairs: seq<nat>, a: Assignment, first: bool): nat
    requires |a| <= |pairs|
  {
    if a == [] then 0 else Used(pairs, a[..|a| - 1], first) + if a[|a| - 1] == first then pairs[|a| - 1] else 0
  }

  function Free1(s: Setup, pairs: seq<nat>, a: Assignment): int
    requires |a| <= |pairs|
  {
    s.secs1 - s.min1 - Used(pairs, a, true)
  }

  function Free2(s: Setup, pairs: seq<nat>, a: Assignment): int
    requires |a| <= |pairs|
  {
    s.secs2 - Used(pairs, a, false)
  }

  function Limit(s: Setup): nat { if s.nofill then 14 else 16 }

  /** The highest partition number on each drive. */
  function Max1(a: Assignment): nat { 11 + 2 * Ones(a) }

  function Max2(a: Assignment): nat { 1 + 2 * (|a| - OnesBound(a)) }

  function OnesBound(a: Assignment): (n: nat)
    ensures n == Ones(a) <= |a|
  {
    OnesAtMost(a);
    Ones(a)
  }

  lemma {:induction false} OnesAtMost(a: Assignment)
    ensures Ones(a) <= |a|
  {
    if a == [] {
    } else {
      OnesAtMost(a[..|a| - 1]);
    }
  }

  /** Both drives have the space and the numbers. */
  predicate Fits(s: Setup, pairs: seq<nat>, a: Assignment)
    requires |a| <= |pairs|
  {
    Max1(a) < Limit(s) && Max2(a) < Limit(s) && Free1(s, pairs, a) >= 0 && Free2(s, pairs, a) >= 0
  }

  /** The names of all MFS partitions fit the header. */
  predicate Named(a: Assignment) { (Max1(a) - 9) * 11 + (Max2(a) - 1) * 10 < 128 }

  predicate Allowed(s: Setup, pairs: seq<nat>, a: Assignment)
    requires |a| <= |pairs|
  {
    Fits(s, pairs, a) && Named(a)
  }

  /** What is left of the first drive, or how far from its middle it is filled. */
  function Score(s: Setup, pairs: seq<nat>, a: Assignment): int
    requires |a| <= |pairs|
  {
    var free := Free1(s, pairs, a);
    if s.balance then if s.secs1 / 2 > free then s.secs1 / 2 - free else free - s.secs1 / 2
    else free
  }

  /** Bit i of a mask, counted from the lowest. */
  predicate HasBit(mask: nat, i: nat) {
    if i == 0 then mask % 2 == 1 else HasBit(mask / 2, i - 1)
  }

  /** The first n of k pairs as a mask assigns them; the highest bit is the first pair's. */
  function Decoded(mask: nat, k: nat, n: nat): (a: Assignment)
    requires n <= k
    ensures |a| == n
  {
    if n == 0 then [] else Decoded(mask, k, n - 1) + [HasBit(mask, k - n)]
  }

  /* ---------- every assignment has a mask ---------- */

  function Encoded(a: Assignment): nat {
    if a == [] then 0 else 2 * Encoded(a[..|a| - 1]) + if a[|a| - 1] then 1 else 0
  }

  lemma {:induction false} EncodedBound(a: Assignment)
    ensures Encoded(a) < Power(|a|)
  {
    if a == [] {
    } else {
      EncodedBound(a[..|a| - 1]);
    }
  }

  lemma EncodedHalves(a: Assignment)
    requires a != []
    ensures Encoded(a) / 2 == Encoded(a[..|a| - 1]) && (Encoded(a) % 2 == 1 <==> a[|a| - 1])
  {
  }

  lemma {:induction false} EncodedBit(a: Assignment, i: nat)
    requires i < |a|
    ensures HasBit(Encoded(a), i) == a[|a| - 1 - i]
  {
    EncodedHalves(a);
    hide Encoded;
    if i > 0 { EncodedBit(a[..|a| - 1], i - 1); }
  }

  lemma {:induction false} DecodedPrefix(a: Assignment, n: nat)
    requires n <= |a|
    ensures Decoded(Encoded(a), |a|, n) == a[..n]
  {
    if n == 0 {
    } else {
      DecodedPrefix(a, n - 1);
      EncodedBit(a, |a| - n);
      assert a[..n] == a[..n - 1] + [a[n - 1]];
    }
  }

  /** So counting through the masks goes through all assignments. */
  lemma EveryAssignment(a: Assignment)
    ensures Encoded(a) < Power(|a|) && Decoded(Encoded(a), |a|, |a|) == a
  {
    EncodedBound(a);
    DecodedPrefix(a, |a|);
    assert a[..|a|] == a;
  }

  /* ---------- the search ---------- */

  lemma {:induction false} UsedGrows(pairs: seq<nat>, a: Assignment, n: nat, first: bool)
    requires |a| <= |pairs| && n <= |a|
    ensures Used(pairs, a[..n], first) <= Used(pairs, a, first)
  {
    if n < |a| {
      UsedGrows(pairs, a[..|a| - 1], n, first);
      assert a[..|a| - 1][..n] == a[..n];
    } else {
      assert a[..n] == a;
    }
  }

  lemma DecodedMore(pairs: seq<nat>, s: Setup, mask: nat, k: nat, n: nat)
    requires n < k == |pairs|
    ensures var a, b := Decoded(mask, k, n), Decoded(mask, k, n + 1);
            && b == a + [HasBit(mask, k - n - 1)] && b[..n] == a
            && Free1(s, pairs, b) == Free1(s, pairs, a) - (if HasBit(mask, k - n - 1) then pairs[n] else 0)
            && Free2(s, pairs, b) == Free2(s, pairs, a) - (if HasBit(mask, k - n - 1) then 0 else pairs[n])
            && Ones(b) == Ones(a) + (if HasBit(mask, k - n - 1) then 1 else 0)
  {
    var a, b := Decoded(mask, k, n), Decoded(mask, k, n + 1);
    assert b[..n] == a && b[n] == HasBit(mask, k - n - 1);
  }

  /** Once the first pairs do not fit, no more pairs make them fit. */
  lemma Overfull(pairs: seq<nat>, s: Setup, mask: nat, k: nat, n: nat)
    requires n <= k == |pairs|
    ensures Free1(s, pairs, Decoded(mask, k, n)) >= Free1(s, pairs, Decoded(mask, k, k))
    ensures Free2(s, pairs, Decoded(mask, k, n)) >= Free2(s, pairs, Decoded(mask, k, k))
    decreases k - n
  {
    if n < k {
      DecodedMore(pairs, s, mask, k, n);
      Overfull(pairs, s, mask, k, n + 1);
    }
  }

  /** Adds up what one mask puts on each drive, and gives up when one of them is full. */
  method Weigh(s: Setup, pairs: seq<nat>, mask: nat) returns (max1: nat, max2: nat, free1: int, free2: int)
    ensures var a := Decoded(mask, |pairs|, |pairs|);
            && (max1 < Limit(s) && max2 < Limit(s) && free1 >= 0 && free2 >= 0 <==> Fits(s, pairs, a))
            && (Fits(s, pairs, a) ==> max1 == Max1(a) && max2 == Max2(a) && free1 == Free1(s, pairs, a))
  {
    hide HasBit, Decoded, Free1, Free2, Ones;
    var k := |pairs|;
    max1, max2, free1, free2 := 11, 1, s.secs1 - s.min1, s.secs2;
    var n := 0;
    NothingAssigned(s, pairs, mask);
    while n < k && free1 >= 0 && free2 >= 0
      invariant 0 <= n <= k
      invariant var a := Decoded(mask, k, n);
                max1 == 11 + 2 * Ones(a) && max2 == 1 + 2 * (n - Ones(a))
                && free1 == Free1(s, pairs, a) && free2 == Free2(s, pairs, a)
    {
      DecodedMore(pairs, s, mask, k, n);
      if HasBit(mask, k - n - 1) {
        max1, free1 := max1 + 2, free1 - pairs[n];
      } else {
        max2, free2 := max2 + 2, free2 - pairs[n];
      }
      n := n + 1;
    }
    Overfull(pairs, s, mask, k, n);
  }

  lemma NothingAssigned(s: Setup, pairs: seq<nat>, mask: nat)
    ensures var a := Decoded(mask, |pairs|, 0);
            a == [] && Ones(a) == 0 && Free1(s, pairs, a) == s.secs1 - s.min1 && Free2(s, pairs, a) == s.secs2
  {
  }

  /** No mask below n does better than the best one, which is allowed if there is one. */
  ghost predicate BestBelow(s: Setup, pairs: seq<nat>, n: nat, best: int, left: int) {
    && (best < 0 ==> forall m: nat :: m < n ==> !Allowed(s, pairs, Decoded(m, |pairs|, |pairs|)))
    && (best >= 0 ==>
          && best < n && Allowed(s, pairs, Decoded(best, |pairs|, |pairs|))
          && left == Score(s, pairs, Decoded(best, |pairs|, |pairs|))
          && forall m: nat :: m < n && Allowed(s, pairs, Decoded(m, |pairs|, |pairs|)) ==>
               && left <= Score(s, pairs, Decoded(m, |pairs|, |pairs|))
               && (m > best ==> left < Score(s, pairs, Decoded(m, |pairs|, |pairs|))))
  }

  lemma ScoreAtMost(s: Setup, pairs: seq<nat>, a: Assignment)
    requires |a| <= |pairs| && Free1(s, pairs, a) >= 0
    ensures Score(s, pairs, a) <= if s.balance then s.secs1 else s.secs1 - s.min1
  {
  }

  lemma NextMask(s: Setup, pairs: seq<nat>, n: nat, best: int, left: int)
    requires BestBelow(s, pairs, n, best, left)
    requires best < 0 ==> left == if s.balance then s.secs1 else s.secs1 - s.min1
    ensures var a := Decoded(n, |pairs|, |pairs|);
            && (!Allowed(s, pairs, a) ==> BestBelow(s, pairs, n + 1, best, left))
            && (Allowed(s, pairs, a) && Score(s, pairs, a) > left ==> best >= 0 && BestBelow(s, pairs, n + 1, best, left))
            && (Allowed(s, pairs, a) && Score(s, pairs, a) <= left ==> BestBelow(s, pairs, n + 1, n, Score(s, pairs, a)))
  {
    hide Score, Decoded;
    var a := Decoded(n, |pairs|, |pairs|);
    if Allowed(s, pairs, a) { ScoreAtMost(s, pairs, a); }
  }

  /** The sectors of the first drive that are not taken. */
  function LeftOver(s: Setup, pairs: seq<nat>, a: Assignment): int
    requires |a| <= |pairs|
  {
    s.secs1 - (s.min1 + Used(pairs, a, true))
  }

  /** x is nearer to m than y is. */
  predicate Nearer(x: int, y: int, m: int) {
    if y <= m then y < x < m + (m - y) else m - (y - m) < x < y
  }

  /**
   * One split is as good as it gets: not balancing, none that is allowed puts more on the first drive;
   * balancing, none leaves a number of sectors there that is nearer to half of the drive.
   */
  ghost predicate Best(s: Setup, pairs: seq<nat>, best: Assignment) {
    forall a: Assignment :: |a| == |pairs| == |best| && Allowed(s, pairs, a) ==>
      if s.balance then !Nearer(LeftOver(s, pairs, a), LeftOver(s, pairs, best), s.secs1 / 2)
      else Used(pairs, a, true) <= Used(pairs, best, true)
  }

  /** And of those as good it is the one with the highest mask. */
  ghost predicate LastBest(s: Setup, pairs: seq<nat>, best: Assignment) {
    forall a: Assignment :: |a| == |pairs| == |best| && Allowed(s, pairs, a) ==>
      (if s.balance then !Nearer(LeftOver(s, pairs, best), LeftOver(s, pairs, a), s.secs1 / 2)
       else Used(pairs, a, true) == Used(pairs, best, true)) ==> Encoded(a) <= Encoded(best)
  }

  /** That is what scores least, with the highest mask of those that do. */
  lemma ScoreIs(s: Setup, pairs: seq<nat>, a: Assignment, b: Assignment)
    requires |a| == |b| == |pairs|
    ensures !s.balance ==> (Score(s, pairs, a) <= Score(s, pairs, b) <==> Used(pairs, b, true) <= Used(pairs, a, true))
    ensures s.balance ==> (Score(s, pairs, a) <= Score(s, pairs, b)
                           <==> !Nearer(LeftOver(s, pairs, b), LeftOver(s, pairs, a), s.secs1 / 2))
  {
  }

  /**
   * The search over all masks: it fails exactly when no way of splitting the pairs meets the size,
   * number and name limits, and otherwise no way that does is better than the one it finds.
   */
  method FindBest(s: Setup, pairs: seq<nat>) returns (bestorder: int)
    ensures bestorder < 0 <==> forall a: Assignment :: |a| == |pairs| ==> !Allowed(s, pairs, a)
    ensures bestorder >= 0 ==>
              var best := Decoded(bestorder, |pairs|, |pairs|);
              && bestorder < Power(|pairs|) && bestorder == Encoded(best) && Allowed(s, pairs, best)
              && Best(s, pairs, best) && LastBest(s, pairs, best)
  {
    hide Decoded, BestBelow, Allowed, Score, Power, Best, LastBest, Encoded;
    bestorder := -1;
    var bestleft := if s.balance then s.secs1 else s.secs1 - s.min1;
    var loop_ := 0;
    NoMask(s, pairs, bestleft);
    while loop_ < Power(|pairs|)
      invariant 0 <= loop_ <= Power(|pairs|) && BestBelow(s, pairs, loop_, bestorder, bestleft)
      invariant bestorder < 0 ==> bestleft == if s.balance then s.secs1 else s.secs1 - s.min1
    {
      NextMask(s, pairs, loop_, bestorder, bestleft);
      bestorder, bestleft := Try(s, pairs, loop_, bestorder, bestleft);
      loop_ := loop_ + 1;
    }
    AllMasks(s, pairs, bestorder, bestleft);
  }

  lemma NoMask(s: Setup, pairs: seq<nat>, left: int)
    ensures BestBelow(s, pairs, 0, -1, left)
  {
  }

  /** One mask against the best one so far; of equals the later one is kept. */
  method Try(s: Setup, pairs: seq<nat>, mask: nat, bestorder: int, bestleft: int) returns (best: int, left: int)
    ensures var a := Decoded(mask, |pairs|, |pairs|);
            if Allowed(s, pairs, a) && Score(s, pairs, a) <= bestleft then best == mask && left == Score(s, pairs, a)
            else best == bestorder && left == bestleft
  {
    hide Decoded, Free1, Free2, Max1, Max2;
    best, left := bestorder, bestleft;
    var max1, max2, free1, free2 := Weigh(s, pairs, mask);
    if max1 < Limit(s) && max2 < Limit(s) && free1 >= 0 && free2 >= 0 {
      if s.balance {
        var away := if s.secs1 / 2 > free1 then s.secs1 / 2 - free1 else free1 - s.secs1 / 2;
        if away <= bestleft {
          if (max1 - 9) * 11 + (max2 - 1) * 10 < 128 {
            best, left := mask, away;
          }
        }
      } else if free1 <= bestleft {
        if (max1 - 9) * 11 + (max2 - 1) * 10 < 128 {
          best, left := mask, free1;
        }
      }
    }
  }

  function Halved(mask: nat, i: nat): nat {
    if i == 0 then mask else Halved(mask / 2, i - 1)
  }

  lemma {:induction false} HalvedOnce(mask: nat, i: nat)
    ensures Halved(mask, i + 1) == Halved(mask, i) / 2 && (HasBit(mask, i) <==> Halved(mask, i) % 2 == 1)
  {
    if i == 0 {
      assert Halved(mask / 2, 0) == mask / 2;
    } else {
      HalvedOnce(mask / 2, i - 1);
    }
  }

  lemma {:induction false} HalvedAway(mask: nat, k: nat)
    requires mask < Power(k)
    ensures Halved(mask, k) == 0
  {
    if k == 0 {
    } else {
      HalvedAway(mask / 2, k - 1);
    }
  }

  /** A mask is the mask of its assignment. */
  lemma {:induction false} EncodedDecoded(mask: nat, k: nat, n: nat)
    requires mask < Power(k) && n <= k
    ensures Encoded(Decoded(mask, k, n)) == Halved(mask, k - n)
  {
    hide Power, HasBit, Halved, Encoded;
    if n == 0 {
      HalvedAway(mask, k);
      EncodedMore([], false);
    } else {
      EncodedDecoded(mask, k, n - 1);
      HalvedOnce(mask, k - n);
      EncodedMore(Decoded(mask, k, n - 1), HasBit(mask, k - n));
    }
  }

  lemma EncodedMore(a: Assignment, b: bool)
    ensures Encoded([]) == 0 && Encoded(a + [b]) == 2 * Encoded(a) + if b then 1 else 0
  {
    assert (a + [b])[..|a|] == a;
  }

  lemma MaskOf(mask: nat, k: nat)
    requires mask < Power(k)
    ensures Encoded(Decoded(mask, k, k)) == mask
  {
    EncodedDecoded(mask, k, k);
  }

  lemma AllMasks(s: Setup, pairs: seq<nat>, best: int, left: int)
    requires BestBelow(s, pairs, Power(|pairs|), best, left)
    ensures best < 0 <==> forall a: Assignment :: |a| == |pairs| ==> !Allowed(s, pairs, a)
    ensures best >= 0 ==>
              var d := Decoded(best, |pairs|, |pairs|);
              best < Power(|pairs|) && Encoded(d) == best && Allowed(s, pairs, d) && Best(s, pairs, d) && LastBest(s, pairs, d)
  {
    hide Decoded, Allowed, Score, Power, Encoded, Used, Nearer, LeftOver;
    forall a: Assignment | |a| == |pairs|
      ensures Encoded(a) < Power(|pairs|) && Decoded(Encoded(a), |pairs|, |pairs|) == a
    {
      EveryAssignment(a);
    }
    if best >= 0 {
      MaskOf(best, |pairs|);
      var d := Decoded(best, |pairs|, |pairs|);
      forall a: Assignment | |a| == |pairs| && Allowed(s, pairs, a)
        ensures Score(s, pairs, d) <= Score(s, pairs, a)
        ensures Score(s, pairs, a) <= Score(s, pairs, d) ==> Encoded(a) <= best
      {
        assert Decoded(Encoded(a), |pairs|, |pairs|) == a;
      }
      ScoreBest(s, pairs, d);
    }
  }

  lemma ScoreBest(s: Setup, pairs: seq<nat>, d: Assignment)
    requires |d| == |pairs| && forall a: Assignment :: |a| == |pairs| && Allowed(s, pairs, a) ==>
               && Score(s, pairs, d) <= Score(s, pairs, a)
               && (Score(s, pairs, a) <= Score(s, pairs, d) ==> Encoded(a) <= Encoded(d))
    ensures Best(s, pairs, d) && LastBest(s, pairs, d)
  {
    hide Allowed, Score, Encoded, Used, Nearer, LeftOver;
    forall a: Assignment | |a| == |pairs| && Allowed(s, pairs, a)
      ensures if s.balance then !Nearer(LeftOver(s, pairs, a), LeftOver(s, pairs, d), s.secs1 / 2)
              else Used(pairs, a, true) <= Used(pairs, d, true)
      ensures (if s.balance then !Nearer(LeftOver(s, pairs, d), LeftOver(s, pairs, a), s.secs1 / 2)
               else Used(pairs, a, true) == Used(pairs, d, true)) ==> Encoded(a) <= Encoded(d)
    {
      ScoreIs(s, pairs, d, a);
      ScoreIs(s, pairs, a, d);
    }
  }

  /**
   * What is allowed, in numbers: the sectors of each drive are enough, and the first drive takes no pair
   * and the second up to five, or one and up to four, or, if numbers 14 and 15 may be used, two and up to
   * three.
   */
  lemma AllowedIff(s: Setup, pairs: seq<nat>, a: Assignment)
    requires |a| == |pairs|
    ensures Allowed(s, pairs, a) <==>
            && s.min1 + Used(pairs, a, true) <= s.secs1 && Used(pairs, a, false) <= s.secs2
            && var first, second := Ones(a), |a| - Ones(a);
               (first == 0 && second <= 5) || (first == 1 && second <= 4) || (first == 2 && second <= 3 && !s.nofill)
  {
    OnesAtMost(a);
    hide Used, Ones;
  }

  /* ---------- the numbers of the partitions ---------- */

  datatype Part = Part(dev: int, number: int, sectors: nat)

  const FIRST_SLOT: nat := 10

  /** The drive, the number on it, and the slot in the list of partitions to create, for pair j. */
  function Dev(a: Assignment, j: nat): int
    requires j < |a|
  {
    if a[j] then 0 else 1
  }

  function Number(a: Assignment, j: nat): int
    requires j < |a|
  {
    if a[j] then 12 + 2 * Ones(a[..j]) else 2 + 2 * (j - Ones(a[..j]))
  }

  function Slot(a: Assignment, j: nat): int
    requires j < |a|
  {
    FIRST_SLOT + if a[j] then 2 * Ones(a[..j]) else 2 * Ones(a) + 2 * (j - Ones(a[..j]))
  }

  lemma {:induction false} OnesPrefix(a: Assignment, i: nat, j: nat)
    requires i <= j <= |a|
    ensures Ones(a[..i]) <= Ones(a[..j]) && Ones(a[..j]) - Ones(a[..i]) <= j - i
    ensures i < j && a[i] ==> Ones(a[..i]) < Ones(a[..j])
    ensures i < j && !a[i] ==> Ones(a[..j]) - Ones(a[..i]) < j - i
  {
    if i >= j {
    } else {
      OnesPrefix(a, i, j - 1);
      assert a[..j][..j - 1] == a[..j - 1];
    }
  }

  lemma SlotBounds(a: Assignment, j: nat)
    requires j < |a|
    ensures FIRST_SLOT <= Slot(a, j) && Slot(a, j) + 1 < FIRST_SLOT + 2 * |a|
    ensures a[j] <==> Slot(a, j) < FIRST_SLOT + 2 * Ones(a)
  {
    assert a[..|a|] == a && a[..0] == [];
    OnesPrefix(a, j, |a|);
    OnesPrefix(a, 0, j);
  }

  /** No two pairs share a slot or, on one drive, a number. */
  lemma SlotsApart(a: Assignment, i: nat, j: nat)
    requires i < j < |a|
    ensures Slot(a, i) != Slot(a, j) && Slot(a, i) % 2 == Slot(a, j) % 2 == 0
    ensures Dev(a, i) == Dev(a, j) ==> Number(a, i) + 2 <= Number(a, j)
  {
    SlotBounds(a, i);
    SlotBounds(a, j);
    OnesPrefix(a, i, j);
  }

  /** The numbers on a drive have no gap: the pair before a pair on the same drive has the numbers before its own. */
  lemma {:induction false} NumbersConsecutive(a: Assignment, j: nat)
    requires j < |a|
    ensures var first := if a[j] then 12 else 2;
            Number(a, j) == first || exists i :: 0 <= i < j && a[i] == a[j] && Number(a, i) == Number(a, j) - 2
  {
    LastBefore(a, j, a[j]);
  }

  lemma {:induction false} LastBefore(a: Assignment, j: nat, b: bool)
    requires j <= |a|
    ensures (if b then Ones(a[..j]) else j - Ones(a[..j])) == 0
            || exists i :: 0 <= i < j && a[i] == b
                 && (if b then Ones(a[..j]) == Ones(a[..i]) + 1 else j - Ones(a[..j]) == i - Ones(a[..i]) + 1)
  {
    if j == 0 {
    } else {
      assert a[..j][..j - 1] == a[..j - 1];
      if a[j - 1] != b { LastBefore(a, j - 1, b); }
    }
  }

  /** Each of the slots is some pair's. */
  lemma {:induction false} SlotTaken(a: Assignment, n: nat)
    requires n < |a|
    ensures exists j :: 0 <= j < |a| && Slot(a, j) == FIRST_SLOT + 2 * n
  {
    assert a[..|a|] == a;
    var ones := Ones(a);
    OnesAtMost(a);
    if n < ones {
      var j := PairWith(a, |a|, n, true);
      assert Slot(a, j) == FIRST_SLOT + 2 * n;
    } else {
      var j := PairWith(a, |a|, n - ones, false);
      assert Slot(a, j) == FIRST_SLOT + 2 * n;
    }
  }

  lemma {:induction false} PairWith(a: Assignment, m: nat, n: nat, b: bool) returns (j: nat)
    requires m <= |a| && n < (if b then Ones(a[..m]) else m - Ones(a[..m]))
    ensures j < m && a[j] == b && n == (if b then Ones(a[..j]) else j - Ones(a[..j]))
  {
    assert a[..m][..m - 1] == a[..m - 1];
    if a[m - 1] == b && n == (if b then Ones(a[..m - 1]) else m - 1 - Ones(a[..m - 1])) {
      return m - 1;
    }
    j := PairWith(a, m - 1, n, b);
  }

  /** Pair j has its place in both lists. */
  ghost predicate PairPlaced(mfs: seq<Part>, new_: seq<Part>, was: seq<Part>, a: Assignment, j: nat)
    requires j < |a| && 2 * |a| + 2 <= |mfs| == |was| && FIRST_SLOT + 2 * |a| <= |new_|
  {
    SlotBounds(a, j);
    && mfs[2 * j + 2] == new_[Slot(a, j)] == Part(Dev(a, j), Number(a, j), was[2 * j + 2].sectors)
    && mfs[2 * j + 3] == new_[Slot(a, j) + 1] == Part(Dev(a, j), Number(a, j) + 1, was[2 * j + 3].sectors)
  }

  /** Both lists get the drive and the number for the two partitions of a pair. */
  method PlacePair(mfs: array<Part>, new_: array<Part>, at: nat, count: nat, dev: int, number: int)
    requires mfs != new_ && at + 1 < mfs.Length && count + 1 < new_.Length
    modifies mfs, new_
    ensures mfs[..] == old(mfs[..])[at := Part(dev, number, old(mfs[at]).sectors)]
                                   [at + 1 := Part(dev, number + 1, old(mfs[at + 1]).sectors)]
    ensures new_[..] == old(new_[..])[count := Part(dev, number, old(mfs[at]).sectors)]
                                     [count + 1 := Part(dev, number + 1, old(mfs[at + 1]).sectors)]
  {
    mfs[at] := mfs[at].(dev := dev, number := number);
    new_[count] := Part(dev, number, mfs[at].sectors);
    mfs[at + 1] := mfs[at + 1].(dev := dev, number := number + 1);
    new_[count + 1] := Part(dev, number + 1, mfs[at + 1].sectors);
  }

  /** Pair j has been gone past: those of the first drive come first. */
  predicate Gone(a: Assignment, j: nat, n: nat, second: bool)
    requires j < |a|
  {
    if second then a[j] || j < n else a[j] && j < n
  }

  /** The pairs gone past have their places, and everything else is as it was. */
  ghost predicate PlacedUpTo(mfs: seq<Part>, new_: seq<Part>, was: seq<Part>, other: seq<Part>, a: Assignment, n: nat, second: bool)
    requires n <= |a| && 2 * |a| + 2 <= |mfs| == |was| && FIRST_SLOT + 2 * |a| <= |new_| == |other|
  {
    && (forall j: nat {:trigger Gone(a, j, n, second)} :: j < |a| && Gone(a, j, n, second) ==> PairPlaced(mfs, new_, was, a, j))
    && (forall j: nat {:trigger Gone(a, j, n, second)} :: j < |a| && !Gone(a, j, n, second) ==> Untouched(mfs, was, j))
    && Around(mfs, was, 2, 2 * |a| + 2) && Around(new_, other, FIRST_SLOT, FIRST_SLOT + 2 * |a|)
  }

  /** Nothing outside lo..hi-1 has changed. */
  ghost predicate Around(now: seq<Part>, was: seq<Part>, lo: nat, hi: nat) {
    |now| == |was| && forall i :: 0 <= i < |now| && !(lo <= i < hi) ==> now[i] == was[i]
  }

  predicate Untouched(mfs: seq<Part>, was: seq<Part>, j: nat)
    requires 2 * j + 3 < |mfs| == |was|
  {
    mfs[2 * j + 2] == was[2 * j + 2] && mfs[2 * j + 3] == was[2 * j + 3]
  }

  lemma PlacedSkip(mfs: seq<Part>, new_: seq<Part>, was: seq<Part>, other: seq<Part>, a: Assignment, n: nat, second: bool)
    requires n < |a| && 2 * |a| + 2 <= |mfs| == |was| && FIRST_SLOT + 2 * |a| <= |new_| == |other|
    requires PlacedUpTo(mfs, new_, was, other, a, n, second) && a[n] == second
    ensures PlacedUpTo(mfs, new_, was, other, a, n + 1, second)
  {
    hide PairPlaced, Untouched, Around;
    forall j: nat {:trigger Gone(a, j, n + 1, second)} | j < |a|
      ensures if Gone(a, j, n + 1, second) then PairPlaced(mfs, new_, was, a, j) else Untouched(mfs, was, j)
    {
      assert Gone(a, j, n + 1, second) == Gone(a, j, n, second);
    }
  }

  lemma PlacedStep(mfs: seq<Part>, new_: seq<Part>, was: seq<Part>, other: seq<Part>, a: Assignment, n: nat, second: bool)
    requires n < |a| && 2 * |a| + 2 <= |mfs| == |was| && FIRST_SLOT + 2 * |a| <= |new_| == |other|
    requires PlacedUpTo(mfs, new_, was, other, a, n, second) && a[n] != second
    ensures FIRST_SLOT <= Slot(a, n) && Slot(a, n) + 1 < FIRST_SLOT + 2 * |a|
    ensures var p, q := Part(Dev(a, n), Number(a, n), mfs[2 * n + 2].sectors), Part(Dev(a, n), Number(a, n) + 1, mfs[2 * n + 3].sectors);
            PlacedUpTo(mfs[2 * n + 2 := p][2 * n + 3 := q], new_[Slot(a, n) := p][Slot(a, n) + 1 := q], was, other, a, n + 1, second)
  {
    SlotBounds(a, n);
    var p, q := Part(Dev(a, n), Number(a, n), mfs[2 * n + 2].sectors), Part(Dev(a, n), Number(a, n) + 1, mfs[2 * n + 3].sectors);
    var m2, w2 := mfs[2 * n + 2 := p][2 * n + 3 := q], new_[Slot(a, n) := p][Slot(a, n) + 1 := q];
    hide Slot, Dev, Number;
    assert !Gone(a, n, n, second) && Untouched(mfs, was, n);
    forall j: nat {:trigger Gone(a, j, n + 1, second)} | j < |a|
      ensures Gone(a, j, n + 1, second) ==> PairPlaced(m2, w2, was, a, j)
      ensures !Gone(a, j, n + 1, second) ==> Untouched(m2, was, j)
    {
      if j != n {
        assert Gone(a, j, n + 1, second) == Gone(a, j, n, second);
        OtherPair(mfs, new_, was, a, n, j, p, q);
      }
    }
  }

  /** Placing pair n leaves the places of pair j alone. */
  lemma OtherPair(mfs: seq<Part>, new_: seq<Part>, was: seq<Part>, a: Assignment, n: nat, j: nat, p: Part, q: Part)
    requires n < |a| && j < |a| && j != n && 2 * |a| + 2 <= |mfs| == |was| && FIRST_SLOT + 2 * |a| <= |new_|
    requires FIRST_SLOT <= Slot(a, n) && Slot(a, n) + 1 < FIRST_SLOT + 2 * |a|
    ensures var m2, w2 := mfs[2 * n + 2 := p][2 * n + 3 := q], new_[Slot(a, n) := p][Slot(a, n) + 1 := q];
            PairPlaced(m2, w2, was, a, j) == PairPlaced(mfs, new_, was, a, j) && Untouched(m2, was, j) == Untouched(mfs, was, j)
  {
    hide Dev, Number, Slot;
    SlotBounds(a, j);
    if j < n { SlotsApart(a, j, n); } else { SlotsApart(a, n, j); }
  }

  lemma NothingPlaced(mfs: seq<Part>, new_: seq<Part>, a: Assignment)
    requires 2 * |a| + 2 <= |mfs| && FIRST_SLOT + 2 * |a| <= |new_|
    ensures PlacedUpTo(mfs, new_, mfs, new_, a, 0, false)
  {
  }

  lemma FirstDrivePlaced(mfs: seq<Part>, new_: seq<Part>, was: seq<Part>, other: seq<Part>, a: Assignment)
    requires 2 * |a| + 2 <= |mfs| == |was| && FIRST_SLOT + 2 * |a| <= |new_| == |other|
    requires PlacedUpTo(mfs, new_, was, other, a, |a|, false)
    ensures PlacedUpTo(mfs, new_, was, other, a, 0, true)
  {
    hide PairPlaced, Untouched, Around;
    forall j: nat {:trigger Gone(a, j, 0, true)} | j < |a|
      ensures if Gone(a, j, 0, true) then PairPlaced(mfs, new_, was, a, j) else Untouched(mfs, was, j)
    {
      assert Gone(a, j, 0, true) == Gone(a, j, |a|, false);
    }
  }

  lemma SlotOfPair(a: Assignment, n: nat)
    requires n < |a|
    ensures Ones(a[..n + 1]) == Ones(a[..n]) + if a[n] then 1 else 0
    ensures a[n] ==> Slot(a, n) == FIRST_SLOT + 2 * Ones(a[..n]) && Number(a, n) == 12 + 2 * Ones(a[..n]) && Dev(a, n) == 0
    ensures !a[n] ==> Slot(a, n) == FIRST_SLOT + 2 * Ones(a) + 2 * (n - Ones(a[..n]))
                      && Number(a, n) == 2 + 2 * (n - Ones(a[..n])) && Dev(a, n) == 1
  {
    assert a[..n + 1][..n] == a[..n];
  }

  lemma DecodedAt(mask: nat, k: nat, n: nat)
    requires n < k
    ensures Decoded(mask, k, k)[n] == HasBit(mask, k - 1 - n)
  {
    DecodedIs(mask, k, k, n);
  }

  lemma {:induction false} DecodedIs(mask: nat, k: nat, m: nat, n: nat)
    requires n < m <= k
    ensures Decoded(mask, k, m)[n] == HasBit(mask, k - 1 - n)
  {
    if n >= m - 1 {
    } else {
      DecodedIs(mask, k, m - 1, n);
    }
  }

  lemma {:induction false} NoHighBit(mask: nat, k: nat)
    requires mask < Power(k)
    ensures !HasBit(mask, k)
  {
    if k == 0 {
    } else {
      NoHighBit(mask / 2, k - 1);
    }
  }

  /**
   * Numbers the pairs as the best mask has them: first those of the first drive, from partition 12
   * on, then those of the second, from partition 2 on. The first pair has its numbers already.
   */
  method Assign(mfs: array<Part>, new_: array<Part>, bestorder: nat, k: nat) returns (added1: nat, added2: nat)
    requires mfs != new_ && 2 * k + 2 <= mfs.Length && FIRST_SLOT + 2 * k <= new_.Length && bestorder < Power(k)
    modifies mfs, new_
    ensures var a := Decoded(bestorder, k, k);
            && PlacedUpTo(mfs[..], new_[..], old(mfs[..]), old(new_[..]), a, k, true)
            && added1 == 2 * Ones(a) && added1 + added2 == 2 * k
  {
    hide PlacedUpTo, Decoded, HasBit, Ones, Slot, Number, Dev;
    ghost var a, was, other := Decoded(bestorder, k, k), mfs[..], new_[..];
    NothingPlaced(was, other, a);
    NoHighBit(bestorder, k);
    NoOnes(a);
    OnesAtMost(a);
    var count := FIRST_SLOT;
    count := AssignDrive(mfs, new_, bestorder, k, count, 12, false, was, other);
    added1 := count - FIRST_SLOT;
    FirstDrivePlaced(mfs[..], new_[..], was, other, a);
    var end := AssignDrive(mfs, new_, bestorder, k, count, 2, true, was, other);
    added2 := end - count;
  }

  lemma NoOnes(a: Assignment)
    ensures a[..|a|] == a && a[..0] == [] && Ones([]) == 0
  {
  }

  /** The pairs of one drive; first is the number that the first of them gets. */
  method AssignDrive(mfs: array<Part>, new_: array<Part>, bestorder: nat, k: nat, from: nat, first: nat, second: bool,
                     ghost was: seq<Part>, ghost other: seq<Part>)
    returns (count: nat)
    requires mfs != new_ && 2 * k + 2 <= mfs.Length == |was| && FIRST_SLOT + 2 * k <= new_.Length == |other|
    requires var a := Decoded(bestorder, k, k);
             && from == FIRST_SLOT + (if second then 2 * Ones(a) else 0) && first == (if second then 2 else 12)
             && PlacedUpTo(mfs[..], new_[..], was, other, a, 0, second)
    modifies mfs, new_
    ensures var a := Decoded(bestorder, k, k);
            && PlacedUpTo(mfs[..], new_[..], was, other, a, k, second)
            && count == from + 2 * (if second then k - Ones(a) else Ones(a))
  {
    hide PlacedUpTo, Decoded, HasBit, Ones, Slot, Number, Dev;
    ghost var a := Decoded(bestorder, k, k);
    NoOnes(a);
    count := from;
    var number, n := first, 0;
    while n < k
      invariant 0 <= n <= k && PlacedUpTo(mfs[..], new_[..], was, other, a, n, second)
      invariant var done := if second then n - Ones(a[..n]) else Ones(a[..n]);
                count == from + 2 * done && number == first + 2 * done
    {
      DecodedAt(bestorder, k, n);
      SlotOfPair(a, n);
      if a[n] == second {
        PlacedSkip(mfs[..], new_[..], was, other, a, n, second);
      } else {
        PlacedStep(mfs[..], new_[..], was, other, a, n, second);
      }
      if HasBit(bestorder, k - 1 - n) != second {
        PlacePair(mfs, new_, 2 * n + 2, count, if second then 1 else 0, number);
        count, number := count + 2, number + 2;
      }
      n := n + 1;
    }
  }
}
