/**
 * One level of the free-chunk bitmap of an MFS zone (jmfs Bitmap): an array of words whose bit n
 * says that block n of that level is free, and the two operations between neighbouring levels.
 * Two sibling bits 2j, 2j + 1 of the lower level stand for bit j of the upper one.
 */
module Bitmaps {
  import opened Arithmetic
  import opened BitWords
  import opened Wrappers

  const FILLER: bv32 := 0xAAAA_AAAA

  function Words(bits: nat): nat { (bits + 31) / 32 }

  /** The words a bitmap takes; from eight blocks on there is one word more than needed. */
  function IntSize(size: nat, blocks: nat): (r: int)
    ensures r == size + if blocks > 7 then 1 else 0
  {
    size + 1 - 15 / (8 + blocks)
  }

  function Count(a: seq<bv32>): nat { Pop(a, 32 * |a|) }

  /** b is a with the bits lo..hi-1 set as well. */
  ghost predicate Raised(a: seq<bv32>, b: seq<bv32>, lo: nat, hi: nat) {
    && |a| == |b|
    && forall m {:trigger BitAt(b, m)} :: 0 <= m < 32 * |a| ==> (BitAt(b, m) <==> lo <= m < hi || BitAt(a, m))
  }

  /** b is a with the bits lo..hi-1 cleared. */
  ghost predicate Lowered(a: seq<bv32>, b: seq<bv32>, lo: nat, hi: nat) {
    && |a| == |b|
    && forall m {:trigger BitAt(b, m)} :: 0 <= m < 32 * |a| ==> (BitAt(b, m) <==> !(lo <= m < hi) && BitAt(a, m))
  }

  /** The first n bits are clear but for the last real one, when their number is odd. */
  ghost predicate LastReal(a: seq<bv32>, n: nat, realBlocks: nat)
    requires n <= 32 * |a|
  {
    forall m {:trigger BitAt(a, m)} :: 0 <= m < n ==> (BitAt(a, m) <==> realBlocks % 2 == 1 && m == realBlocks - 1)
  }

  /** Setting bit n changes that bit only, and the count by what it was before. */
  lemma RaiseOne(a: seq<bv32>, n: nat)
    requires n < 32 * |a|
    ensures var b := a[n / 32 := With(a[n / 32], Mask(n % 32))];
            && Raised(a, b, n, n + 1)
            && Count(b) == Count(a) + if BitAt(a, n) then 0 else 1
  {
    hide BitAt, With, Mask;
    var b := a[n / 32 := With(a[n / 32], Mask(n % 32))];
    forall m | 0 <= m < 32 * |a| ensures BitAt(b, m) <==> m == n || BitAt(a, m) {
      SetAt(a, n, m);
    }
    if BitAt(a, n) { PopSame(a, b, 32 * |a|); } else { PopOneMore(a, b, 32 * |a|, n); }
  }

  lemma LowerOne(a: seq<bv32>, n: nat)
    requires n < 32 * |a|
    ensures var b := a[n / 32 := Less(a[n / 32], Mask(n % 32))];
            && Lowered(a, b, n, n + 1)
            && Count(b) == Count(a) - if BitAt(a, n) then 1 else 0
  {
    hide BitAt, Less, Mask;
    var b := a[n / 32 := Less(a[n / 32], Mask(n % 32))];
    forall m | 0 <= m < 32 * |a| ensures BitAt(b, m) <==> m != n && BitAt(a, m) {
      ClearAt(a, n, m);
    }
    if BitAt(a, n) { PopOneMore(b, a, 32 * |a|, n); } else { PopSame(a, b, 32 * |a|); }
  }

  lemma RaisedAlready(a: seq<bv32>, n: nat)
    requires n < 32 * |a| && BitAt(a, n)
    ensures Raised(a, a, n, n + 1)
  {
  }

  lemma LoweredAlready(a: seq<bv32>, n: nat)
    requires n < 32 * |a| && !BitAt(a, n)
    ensures Lowered(a, a, n, n + 1)
  {
  }

  /** One more bit of a range being set. */
  lemma RaiseMore(a: seq<bv32>, b: seq<bv32>, lo: nat, n: nat)
    requires lo <= n < 32 * |b| && Raised(a, b, lo, n)
    ensures Meets(b[n / 32], Mask(n % 32)) == BitAt(b, n)
    ensures BitAt(b, n) ==> Raised(a, b, lo, n + 1)
    ensures !BitAt(b, n) ==>
              var c := b[n / 32 := With(b[n / 32], Mask(n % 32))];
              Raised(a, c, lo, n + 1) && Count(c) == Count(b) + 1
  {
    hide BitAt, With, Mask, Meets;
    if !BitAt(b, n) { RaiseOne(b, n); }
    WordBit(b, n);
  }

  /** One more bit of a range being cleared. */
  lemma LowerMore(a: seq<bv32>, b: seq<bv32>, lo: nat, n: nat)
    requires lo <= n < 32 * |b| && Lowered(a, b, lo, n)
    ensures Meets(b[n / 32], Mask(n % 32)) == BitAt(b, n)
    ensures !BitAt(b, n) ==> Lowered(a, b, lo, n + 1)
    ensures BitAt(b, n) ==>
              var c := b[n / 32 := Less(b[n / 32], Mask(n % 32))];
              Lowered(a, c, lo, n + 1) && Count(c) == Count(b) - 1
  {
    hide BitAt, Less, Mask, Meets;
    if BitAt(b, n) { LowerOne(b, n); }
    WordBit(b, n);
  }

  lemma WordBit(a: seq<bv32>, n: nat)
    requires n < 32 * |a|
    ensures Meets(a[n / 32], Mask(n % 32)) == BitAt(a, n)
  {
    hide Meets, Mask;
  }

  /* ---------- between two levels ---------- */

  /** Both bits of pair j are set. */
  predicate Pair(a: seq<bv32>, j: nat)
    requires 2 * j + 1 < 32 * |a|
  {
    BitAt(a, 2 * j) && BitAt(a, 2 * j + 1)
  }

  /** The number of pairs set among the first n. */
  function Pairs(a: seq<bv32>, n: nat): nat
    requires 2 * n <= 32 * |a|
  {
    if n == 0 then 0 else Pairs(a, n - 1) + if Pair(a, n - 1) then 1 else 0
  }

  /** c is b with both bits of pair j set for every set bit j < n of a. */
  ghost predicate Expanded(a: seq<bv32>, b: seq<bv32>, c: seq<bv32>, n: nat)
    requires n <= 32 * |a|
  {
    && |b| == |c|
    && forall m {:trigger BitAt(c, m)} :: 0 <= m < 32 * |b| ==>
         (BitAt(c, m) <==> (m / 2 < n && BitAt(a, m / 2)) || BitAt(b, m))
  }

  /** The lower level without its first n pairs. */
  ghost predicate Paired(a: seq<bv32>, c: seq<bv32>, n: nat)
    requires 2 * n <= 32 * |a|
  {
    && |a| == |c|
    && forall m {:trigger BitAt(c, m)} :: 0 <= m < 32 * |a| ==>
         (BitAt(c, m) <==> BitAt(a, m) && !(m / 2 < n && Pair(a, m / 2)))
  }

  /** The upper level with a bit for each of the lower level's first n pairs. */
  ghost predicate Promoted(a: seq<bv32>, b: seq<bv32>, c: seq<bv32>, n: nat)
    requires 2 * n <= 32 * |a|
  {
    && |b| == |c|
    && forall j {:trigger BitAt(c, j)} :: 0 <= j < 32 * |b| ==>
         (BitAt(c, j) <==> (j < n && Pair(a, j)) || BitAt(b, j))
  }

  /** How many of the two bits of pair j are missing. */
  function Missing(a: seq<bv32>, j: nat): nat
    requires 2 * j + 1 < 32 * |a|
  {
    (if BitAt(a, 2 * j) then 0 else 1) + if BitAt(a, 2 * j + 1) then 0 else 1
  }

  /** Setting pair j of an array adds the missing bits. */
  lemma RaisePair(a: seq<bv32>, j: nat)
    requires 2 * j + 1 < 32 * |a|
    ensures var b := a[j / 16 := With(a[j / 16], PairMask(j % 16))];
            && Raised(a, b, 2 * j, 2 * j + 2)
            && Count(b) == Count(a) + Missing(a, j)
  {
    hide BitAt, With, PairMask;
    var b := a[j / 16 := With(a[j / 16], PairMask(j % 16))];
    forall m | 0 <= m < 32 * |a| ensures BitAt(b, m) <==> m / 2 == j || BitAt(a, m) {
      SetPairAt(a, j, m);
    }
    PairCount(a, b, j);
  }

  /** The first n bits of b, with those from k on taken from a. */
  lemma {:induction false} PopRaised(a: seq<bv32>, b: seq<bv32>, j: nat, n: nat)
    requires n <= 32 * |a| && |a| == |b| && 2 * j + 2 <= n
    requires Raised(a, b, 2 * j, 2 * j + 2)
    ensures Pop(b, n) == Pop(a, n) + Missing(a, j)
  {
    hide BitAt;
    if n == 2 * j + 2 {
      PopSame(a, b, 2 * j);
      assert Pop(b, n) == Pop(b, 2 * j) + 2;
      assert Pop(a, n - 1) == Pop(a, 2 * j) + if BitAt(a, 2 * j) then 1 else 0;
    } else {
      PopRaised(a, b, j, n - 1);
    }
  }

  lemma PairCount(a: seq<bv32>, b: seq<bv32>, j: nat)
    requires 2 * j + 1 < 32 * |a| && Raised(a, b, 2 * j, 2 * j + 2)
    ensures Count(b) == Count(a) + Missing(a, j)
  {
    PopRaised(a, b, j, 32 * |a|);
  }

  /** Clearing a pair that is set removes two bits. */
  lemma LowerPair(a: seq<bv32>, j: nat)
    requires 2 * j + 1 < 32 * |a| && Pair(a, j)
    ensures var b := a[j / 16 := Less(a[j / 16], PairMask(j % 16))];
            && Lowered(a, b, 2 * j, 2 * j + 2)
            && Count(a) == Count(b) + 2
  {
    hide BitAt, Less, PairMask;
    var b := a[j / 16 := Less(a[j / 16], PairMask(j % 16))];
    forall m | 0 <= m < 32 * |a| ensures BitAt(b, m) <==> m / 2 != j && BitAt(a, m) {
      ClearPairAt(a, j, m);
    }
    PairCount(b, a, j);
  }

  /** One bit of the expansion: pair k of the output is filled when bit k of the input is set. */
  lemma ExpandBit(a: seq<bv32>, b: seq<bv32>, c: seq<bv32>, k: nat)
    requires k < 32 * |a| && 2 * k + 1 < 32 * |c|
    requires Expanded(a, b, c, k)
    ensures BitAt(a, k) ==>
              var d := c[k / 16 := With(c[k / 16], PairMask(k % 16))];
              Expanded(a, b, d, k + 1) && Count(d) == Count(c) + Missing(c, k)
    ensures !BitAt(a, k) ==> Expanded(a, b, c, k + 1)
  {
    hide BitAt, With, PairMask;
    if BitAt(a, k) { RaisePair(c, k); }
  }

  /** One pair of the collapse. */
  lemma CollapsePair(a: seq<bv32>, c: seq<bv32>, j: nat)
    requires 2 * j + 1 < 32 * |a| && Paired(a, c, j)
    ensures Pair(a, j) ==>
              var d := c[j / 16 := Less(c[j / 16], PairMask(j % 16))];
              Paired(a, d, j + 1) && Count(d) == Count(c) - 2
    ensures !Pair(a, j) ==> Paired(a, c, j + 1)
  {
    hide BitAt, Less, PairMask;
    if Pair(a, j) { LowerPair(c, j); }
  }

  lemma PromotePair(a: seq<bv32>, b: seq<bv32>, c: seq<bv32>, j: nat)
    requires 2 * j + 1 < 32 * |a| && j < 32 * |b| && Promoted(a, b, c, j)
    ensures Pair(a, j) ==> Promoted(a, b, c[j / 32 := With(c[j / 32], Mask(j % 32))], j + 1)
    ensures !Pair(a, j) ==> Promoted(a, b, c, j + 1)
  {
    hide BitAt, With, Mask, Pair;
    if Pair(a, j) { RaiseOne(c, j); }
  }

  /** What a word tells about pair j of its array. */
  lemma WordPair(a: seq<bv32>, j: nat)
    requires 2 * j + 1 < 32 * |a|
    ensures Covers(a[j / 16], PairMask(j % 16)) <==> Pair(a, j)
    ensures Missing(a, j) ==
            if !Meets(a[j / 16], PairMask(j % 16)) then 2
            else if !Covers(a[j / 16], PairMask(j % 16)) then 1 else 0
  {
    hide Covers, Meets, PairMask, Bit;
    PairBits(a[j / 16], j % 16);
    assert (2 * j) / 32 == j / 16 && (2 * j) % 32 == 2 * (j % 16);
    assert (2 * j + 1) / 32 == j / 16 && (2 * j + 1) % 32 == 2 * (j % 16) + 1;
  }

  /** The number of input bits the expansion looks at. */
  function Reach(from: nat, maxBits: nat): nat {
    if from < Words(maxBits) then 32 * from else maxBits
  }

  class Bitmap {
    var blocks: nat
    var freeBlocks: int
    var last: nat
    var size: nat
    var bitmap: array<bv32>

    predicate Valid()
      reads this`blocks, this`size, this`bitmap
    {
      size == Words(blocks) && bitmap.Length == IntSize(size, blocks)
    }

    /** A level with all bits clear but the last real one, when their number is odd. */
    constructor (blocks: nat, realBlocks: nat)
      requires blocks > 0 && realBlocks <= blocks
      ensures Valid() && fresh(bitmap) && this.blocks == blocks && last == 0
      ensures 32 * size <= 32 * |bitmap[..]| && LastReal(bitmap[..], 32 * size, realBlocks)
      ensures bitmap.Length > size ==> bitmap[size] == FILLER
      ensures freeBlocks == realBlocks % 2
    {
      hide IntSize, Raised, LastReal;
      this.blocks := blocks;
      this.freeBlocks := 0;
      this.last := 0;
      this.size := Words(blocks);
      var words := IntSize(Words(blocks), blocks);
      this.bitmap := new bv32[words];
      new;
      bitmap[bitmap.Length - 1] := FILLER;
      for i := 0 to size
        invariant forall k :: 0 <= k < i ==> bitmap[k] == 0
        invariant bitmap.Length > size ==> bitmap[size] == FILLER
        modifies bitmap
      {
        bitmap[i] := 0;
      }
      ghost var clear := bitmap[..];
      ClearBits(clear, size);
      if realBlocks % 2 != 0 {
        SetBit(realBlocks - 1);
        OneSet(clear, bitmap[..], size, realBlocks);
      } else {
        NoneSet(clear, size, realBlocks);
      }
    }

    method SetBit(number: nat)
      modifies this`freeBlocks, bitmap
      ensures number < 32 * bitmap.Length ==> Raised(old(bitmap[..]), bitmap[..], number, number + 1)
      ensures number >= 32 * bitmap.Length ==> bitmap[..] == old(bitmap[..])
      ensures forall i :: 0 <= i < bitmap.Length && i != number / 32 ==> bitmap[i] == old(bitmap[i])
      ensures freeBlocks == old(freeBlocks) +
              if number < 32 * bitmap.Length && !BitAt(old(bitmap[..]), number) then 1 else 0
      ensures freeBlocks - Count(bitmap[..]) == old(freeBlocks) - Count(old(bitmap[..]))
    {
      hide Meets, With, Mask, Count, Raised;
      if number / 32 >= bitmap.Length { return; }
      var i, mask := number / 32, Mask(number % 32);
      ghost var was := bitmap[..];
      assert Meets(bitmap[i], mask) == BitAt(was, number);
      if !Meets(bitmap[i], mask) {
        RaiseOne(was, number);
        bitmap[i] := With(bitmap[i], mask);
        freeBlocks := freeBlocks + 1;
        assert bitmap[..] == was[i := With(was[i], mask)];
      } else {
        RaisedAlready(was, number);
      }
    }

    method UnsetBit(number: nat)
      modifies this`freeBlocks, bitmap
      ensures number < 32 * bitmap.Length ==> Lowered(old(bitmap[..]), bitmap[..], number, number + 1)
      ensures number >= 32 * bitmap.Length ==> bitmap[..] == old(bitmap[..])
      ensures freeBlocks - Count(bitmap[..]) == old(freeBlocks) - Count(old(bitmap[..]))
    {
      hide Meets, Less, Mask, Count, Lowered;
      if number / 32 >= bitmap.Length { return; }
      var i, mask := number / 32, Mask(number % 32);
      ghost var was := bitmap[..];
      assert Meets(bitmap[i], mask) == BitAt(was, number);
      if Meets(bitmap[i], mask) {
        LowerOne(was, number);
        bitmap[i] := Less(bitmap[i], mask);
        freeBlocks := freeBlocks - 1;
        assert bitmap[..] == was[i := Less(was[i], mask)];
      } else {
        LoweredAlready(was, number);
      }
    }

    /** Both ends are included, in either order; bits past the last word of the map are left out. */
    method SetBitRange(from: nat, to: nat)
      requires size <= bitmap.Length
      modifies this`freeBlocks, bitmap
      ensures Raised(old(bitmap[..]), bitmap[..], Least(from, to), Least(Most(from, to) + 1, 32 * size))
      ensures freeBlocks - Count(bitmap[..]) == old(freeBlocks) - Count(old(bitmap[..]))
    {
      hide Meets, With, Mask, Count, Raised, BitAt, Half;
      var lo, hi := from, to;
      if lo > hi { lo, hi := hi, lo; }
      ghost var was, stop := bitmap[..], Least(hi + 1, 32 * size);
      RaiseNone(was, lo, lo);
      if stop <= lo { RaiseNone(was, lo, stop); }
      if lo / 32 >= bitmap.Length { return; }
      var i, mask := lo / 32, Mask(lo % 32);
      ghost var n := lo;
      var bits := hi - lo + 1;
      while i < size && bits > 0
        invariant n + bits == hi + 1 && i == n / 32 && mask == Mask(n % 32)
        invariant lo <= n && (n <= stop || (n == lo && bitmap[..] == was))
        invariant Raised(was, bitmap[..], lo, n)
        invariant freeBlocks - Count(bitmap[..]) == old(freeBlocks) - Count(was)
      {
        bits := bits - 1;
        ghost var a := bitmap[..];
        RaiseMore(was, a, lo, n);
        if !Meets(bitmap[i], mask) {
          freeBlocks := freeBlocks + 1;
          bitmap[i] := With(bitmap[i], mask);
          assert bitmap[..] == a[i := With(a[i], mask)];
        }
        NextMask(n % 32);
        mask := Half(mask);
        if mask == 0 {
          mask := TOP;
          i := i + 1;
        }
        n := n + 1;
      }
    }

    /** The same for clearing. */
    method UnsetBitRange(from: nat, to: nat)
      requires size <= bitmap.Length
      modifies this`freeBlocks, bitmap
      ensures Lowered(old(bitmap[..]), bitmap[..], Least(from, to), Least(Most(from, to) + 1, 32 * size))
      ensures freeBlocks - Count(bitmap[..]) == old(freeBlocks) - Count(old(bitmap[..]))
    {
      hide Meets, Less, Mask, Count, Lowered, BitAt, Half;
      var lo, hi := from, to;
      if lo > hi { lo, hi := hi, lo; }
      ghost var was, stop := bitmap[..], Least(hi + 1, 32 * size);
      LowerNone(was, lo, lo);
      if stop <= lo { LowerNone(was, lo, stop); }
      if lo / 32 >= bitmap.Length { return; }
      var i, mask := lo / 32, Mask(lo % 32);
      ghost var n := lo;
      var bits := hi - lo + 1;
      while i < size && bits > 0
        invariant n + bits == hi + 1 && i == n / 32 && mask == Mask(n % 32)
        invariant lo <= n && (n <= stop || (n == lo && bitmap[..] == was))
        invariant Lowered(was, bitmap[..], lo, n)
        invariant freeBlocks - Count(bitmap[..]) == old(freeBlocks) - Count(was)
      {
        bits := bits - 1;
        ghost var a := bitmap[..];
        LowerMore(was, a, lo, n);
        if Meets(bitmap[i], mask) {
          freeBlocks := freeBlocks - 1;
          bitmap[i] := Less(bitmap[i], mask);
          assert bitmap[..] == a[i := Less(a[i], mask)];
        }
        NextMask(n % 32);
        mask := Half(mask);
        if mask == 0 {
          mask := TOP;
          i := i + 1;
        }
        n := n + 1;
      }
    }

    /**
     * Sets both bits of pair k of the output for every set bit k of the input, looking at no more
     * than the first maxBits bits and the bits there are, and gives the number of bits this adds.
     */
    static method ExpandFreeBits(from: array<bv32>, to: array<bv32>, maxBits: nat) returns (r: Result<nat, string>)
      requires from != to
      modifies to
      ensures r.Err? <==> to.Length < Words(2 * Reach(from.Length, maxBits))
      ensures r.Err? ==> to[..] == old(to[..])
      ensures Reach(from.Length, maxBits) <= 32 * |from[..]|
      ensures r.Ok? ==> Expanded(from[..], old(to[..]), to[..], Reach(from.Length, maxBits))
      ensures r.Ok? ==> r.value == Count(to[..]) - Count(old(to[..]))
    {
      hide Expanded, Count, Meets, Covers, With, Mask, PairMask, BitAt, Half, Quarter, Missing, PairOffset;
      var reach := maxBits;
      if from.Length < Words(maxBits) { reach := 32 * from.Length; }
      if to.Length < Words(2 * reach) { return Err("Output is not big enough"); }
      ghost var a, b := from[..], to[..];
      ExpandNone(a, b);
      var setBits, bitIdx, thisIdx, bmpIdx := 0, 0, 0, 0;
      while bitIdx < reach
        invariant bitIdx == Least(32 * thisIdx, reach) && (bitIdx < reach ==> bmpIdx == 2 * thisIdx)
        invariant Expanded(a, b, to[..], bitIdx)
        invariant setBits == Count(to[..]) - Count(b)
      {
        var bits, thisMask, bmpMask := from[thisIdx], TOP, TOP_PAIR;
        ghost var k := 0;
        FirstMasks();
        while thisMask != 0 && bitIdx < reach
          invariant 0 <= k <= 32 && bitIdx == 32 * thisIdx + k <= reach && thisMask == Mask(k)
          invariant bmpIdx == 2 * thisIdx + (if k <= 16 then 0 else 1)
          invariant bmpMask == PairMask(PairOffset(k))
          invariant thisMask == 0 <==> k == 32
          invariant bmpMask == 0 <==> k == 16 || k == 32
          invariant Expanded(a, b, to[..], bitIdx)
          invariant setBits == Count(to[..]) - Count(b)
          decreases 32 - k
        {
          if bmpMask == 0 {
            bmpMask := TOP_PAIR;
            bmpIdx := bmpIdx + 1;
          }
          ghost var c := to[..];
          StepMasks(k, thisIdx);
          ExpandWord(a, b, c, bitIdx);
          if Meets(bits, thisMask) {
            if !Meets(to[bmpIdx], bmpMask) {
              setBits := setBits + 2;
            } else if !Covers(to[bmpIdx], bmpMask) {
              setBits := setBits + 1;
            }
            to[bmpIdx] := With(to[bmpIdx], bmpMask);
            assert to[..] == c[bmpIdx := With(c[bmpIdx], bmpMask)];
          }
          thisMask, bmpMask, bitIdx := Half(thisMask), Quarter(bmpMask), bitIdx + 1;
          k := k + 1;
        }
        thisIdx, bmpIdx := thisIdx + 1, bmpIdx + 1;
      }
      return Ok(setBits);
    }

    /** Fills the next lower level; a level of one to three blocks is refused although it would fit. */
    method ExpandFreeBitsTo(bmp: Bitmap) returns (r: Result<nat, string>)
      requires Valid() && bmp.Valid() && bitmap != bmp.bitmap
      modifies bmp`freeBlocks, bmp.bitmap
      ensures r.Ok? <==> bmp.blocks == 2 * blocks && !(1 <= blocks <= 3)
      ensures r.Err? ==> bmp.freeBlocks == old(bmp.freeBlocks) && bmp.bitmap[..] == old(bmp.bitmap[..])
      ensures blocks <= 32 * |bitmap[..]|
      ensures r.Ok? ==> Expanded(bitmap[..], old(bmp.bitmap[..]), bmp.bitmap[..], blocks)
      ensures bmp.freeBlocks - Count(bmp.bitmap[..]) == old(bmp.freeBlocks) - Count(old(bmp.bitmap[..]))
    {
      hide Expanded, Count, IntSize;
      if bmp.blocks != 2 * blocks { return Err("Output is not lower order bitmap"); }
      if bmp.bitmap.Length < 2 * size { return Err("Output is not big enough"); }
      r := ExpandFreeBits(bitmap, bmp.bitmap, blocks);
      bmp.freeBlocks := bmp.freeBlocks + r.value;
    }

    /** Sets a bit above and clears the pair it stands for. */
    method MovePair(bmp: Bitmap, thisIdx: nat, thisMask: bv32, bmpIdx: nat, bmpMask: bv32)
      requires this != bmp && bitmap != bmp.bitmap && thisIdx < bitmap.Length && bmpIdx < bmp.bitmap.Length
      modifies this`freeBlocks, bitmap, bmp`freeBlocks, bmp.bitmap
      ensures bitmap[..] == old(bitmap[..])[thisIdx := Less(old(bitmap[thisIdx]), thisMask)]
      ensures bmp.bitmap[..] == old(bmp.bitmap[..])[bmpIdx := With(old(bmp.bitmap[bmpIdx]), bmpMask)]
      ensures freeBlocks == old(freeBlocks) - 2 && bmp.freeBlocks == old(bmp.freeBlocks) + 1
    {
      hide Less, With;
      bmp.bitmap[bmpIdx] := With(bmp.bitmap[bmpIdx], bmpMask);
      bmp.freeBlocks := bmp.freeBlocks + 1;
      bitmap[thisIdx] := Less(bitmap[thisIdx], thisMask);
      freeBlocks := freeBlocks - 2;
    }

    /** The pairs of one word; the index above stays, and its mask runs down by up to sixteen bits. */
    method CollapseInt(bmp: Bitmap, thisIdx: nat, block: nat, bmpIdx: nat, mask: bv32,
                       ghost a: seq<bv32>, ghost b: seq<bv32>, ghost free: int, ghost n: nat)
      returns (blockIdx: nat, bmpMask: bv32, ghost p: nat)
      requires this != bmp && bitmap != bmp.bitmap && thisIdx < bitmap.Length && |a| == bitmap.Length
      requires blocks == 2 * bmp.blocks && bmp.blocks <= 32 * bmp.bitmap.Length && blocks <= 32 * bitmap.Length
      requires block == 2 * n && n == 16 * thisIdx && n < bmp.blocks && n - 32 * bmpIdx <= 16
      requires Cursor(n, bmpIdx, mask) && Untouched(a, bitmap[..], thisIdx)
      requires Halfway(a, b, bitmap[..], bmp.bitmap[..], freeBlocks - free, bmp.freeBlocks, n)
      modifies this`freeBlocks, bitmap, bmp`freeBlocks, bmp.bitmap
      ensures blockIdx == 2 * p && p <= bmp.blocks && p <= n + 16 && (p == n + 16 || p == bmp.blocks)
      ensures Cursor(p, bmpIdx, bmpMask) && Untouched(a, bitmap[..], thisIdx + 1)
      ensures Halfway(a, b, bitmap[..], bmp.bitmap[..], freeBlocks - free, bmp.freeBlocks, p)
    {
      hide Untouched, Cursor, Halfway, Covers, With, Less, Mask, PairMask, Half, Quarter;
      UntouchedNext(a, bitmap[..], thisIdx);
      FirstMasks();
      var bits, thisMask := bitmap[thisIdx], TOP_PAIR;
      blockIdx, bmpMask, p := block, mask, n;
      ghost var k := 0;
      while thisMask != 0 && blockIdx < blocks
        invariant 0 <= k <= 16 && p == n + k <= bmp.blocks && blockIdx == 2 * p
        invariant thisMask == PairMask(k) && (thisMask == 0 <==> k == 16)
        invariant Cursor(p, bmpIdx, bmpMask)
        invariant Halfway(a, b, bitmap[..], bmp.bitmap[..], freeBlocks - free, bmp.freeBlocks, p)
        invariant Untouched(a, bitmap[..], thisIdx + 1)
        decreases 16 - k
      {
        ghost var c, d := bitmap[..], bmp.bitmap[..];
        CollapseMasks(p, k, bmpIdx, bmpMask);
        CollapseWord(a, b, c, d, freeBlocks - free, bmp.freeBlocks, p, thisIdx, k, bmpIdx, p - 32 * bmpIdx);
        UntouchedPast(a, c, thisIdx, Less(c[thisIdx], thisMask));
        if Covers(bits, thisMask) {
          MovePair(bmp, thisIdx, thisMask, bmpIdx, bmpMask);
        }
        thisMask, bmpMask, blockIdx := Quarter(thisMask), Half(bmpMask), blockIdx + 2;
        k, p := k + 1, p + 1;
      }
    }

    /**
     * Moves every pair of sibling bits to one bit of the next higher level. The upper counter starts
     * again from zero, whatever bits the upper level already has.
     */
    method CollapseFreeBitsTo(bmp: Bitmap) returns (r: Result<(), string>)
      requires Valid() && bmp.Valid() && this != bmp && bitmap != bmp.bitmap
      modifies this`freeBlocks, bitmap, bmp`freeBlocks, bmp.bitmap
      ensures r.Ok? <==> blocks == 2 * bmp.blocks
      ensures r.Err? ==> freeBlocks == old(freeBlocks) && bmp.freeBlocks == old(bmp.freeBlocks)
      ensures r.Err? ==> bitmap[..] == old(bitmap[..]) && bmp.bitmap[..] == old(bmp.bitmap[..])
      ensures r.Ok? ==> Collapsed(old(bitmap[..]), old(bmp.bitmap[..]), bitmap[..], bmp.bitmap[..], bmp.blocks)
      ensures r.Ok? ==> 2 * bmp.blocks <= 32 * |old(bitmap[..])|
      ensures r.Ok? ==> bmp.freeBlocks == Pairs(old(bitmap[..]), bmp.blocks)
      ensures r.Ok? ==> freeBlocks == old(freeBlocks) - 2 * Pairs(old(bitmap[..]), bmp.blocks)
      ensures r.Ok? ==> freeBlocks - Count(bitmap[..]) == old(freeBlocks) - Count(old(bitmap[..]))
    {
      hide Untouched, Cursor, Halfway, Paired, Promoted, Count, Covers, With, Less, Mask, PairMask, BitAt, Half, Quarter, Pair, Pairs, Collapsed, IntSize;
      if blocks != 2 * bmp.blocks { return Err("Output is not higher order bitmap"); }
      LevelRoom(blocks, bmp.blocks, size, bmp.bitmap.Length);
      hide Words;
      ghost var a, b, free := bitmap[..], bmp.bitmap[..], freeBlocks;
      bmp.freeBlocks := 0;
      var blockIdx, thisIdx, bmpIdx, bmpMask := 0, 0, 0, TOP;
      CollapseNone(a, b);
      ghost var p := 0;
      while thisIdx < size && blockIdx < blocks
        invariant blockIdx == 2 * p && p <= bmp.blocks && p <= 16 * thisIdx
        invariant p == 16 * thisIdx || p == bmp.blocks
        invariant Cursor(p, bmpIdx, bmpMask)
        invariant Halfway(a, b, bitmap[..], bmp.bitmap[..], freeBlocks - free, bmp.freeBlocks, p)
        invariant Untouched(a, bitmap[..], thisIdx)
      {
        CursorReset(p, bmpIdx, bmpMask);
        if bmpMask == 0 {
          bmpMask := TOP;
          bmpIdx := bmpIdx + 1;
        }
        blockIdx, bmpMask, p := CollapseInt(bmp, thisIdx, blockIdx, bmpIdx, bmpMask, a, b, free, p);
        thisIdx := thisIdx + 1;
      }
      CollapseDone(a, b, bitmap[..], bmp.bitmap[..], freeBlocks - free, bmp.freeBlocks, p);
      return Ok(());
    }
  }

  /** The two levels and their counters, one from its start and one from zero, after the first n pairs. */
  ghost predicate Halfway(a: seq<bv32>, b: seq<bv32>, c: seq<bv32>, d: seq<bv32>, f: int, g: int, n: nat)
    requires 2 * n <= 32 * |a|
  {
    Paired(a, c, n) && Promoted(a, b, d, n) && Count(c) == Count(a) + f && f == -2 * Pairs(a, n) && g == Pairs(a, n)
  }

  /** a and b are a level and the next higher one, and c and d what the collapse makes of them. */
  ghost predicate Collapsed(a: seq<bv32>, b: seq<bv32>, c: seq<bv32>, d: seq<bv32>, n: nat) {
    2 * n <= 32 * |a| && Paired(a, c, n) && Promoted(a, b, d, n)
  }

  /** The words from i on are still those of a. */
  ghost predicate Untouched(a: seq<bv32>, c: seq<bv32>, i: nat) {
    |c| == |a| && forall k :: i <= k < |a| ==> c[k] == a[k]
  }

  lemma UntouchedNext(a: seq<bv32>, c: seq<bv32>, i: nat)
    requires Untouched(a, c, i) && i < |a|
    ensures |c| == |a| && c[i] == a[i] && Untouched(a, c, i + 1)
  {
  }

  lemma UntouchedPast(a: seq<bv32>, c: seq<bv32>, i: nat, w: bv32)
    requires Untouched(a, c, i + 1) && i < |a|
    ensures |c| == |a| && Untouched(a, c[i := w], i + 1)
  {
  }

  lemma CollapseNone(a: seq<bv32>, b: seq<bv32>)
    ensures Untouched(a, a, 0)
    ensures Halfway(a, b, a, b, 0, 0, 0) && Cursor(0, 0, TOP)
  {
    hide BitAt, Pair;
    FirstMasks();
  }

  lemma CollapseDone(a: seq<bv32>, b: seq<bv32>, c: seq<bv32>, d: seq<bv32>, f: int, g: int, n: nat)
    requires 2 * n <= 32 * |a| && Halfway(a, b, c, d, f, g, n)
    ensures Collapsed(a, b, c, d, n) && Count(c) == Count(a) + f && f == -2 * Pairs(a, n) && g == Pairs(a, n)
  {
    hide Paired, Promoted;
  }

  /** One pair of the collapse, as the words show it. */
  lemma CollapseStep(a: seq<bv32>, b: seq<bv32>, c: seq<bv32>, d: seq<bv32>, f: int, g: int, p: nat)
    requires 2 * p + 1 < 32 * |a| && p < 32 * |d| && Halfway(a, b, c, d, f, g, p)
    ensures var m := PairMask(p % 16);
            && |c| == |a|
            && (!Covers(a[p / 16], m) ==> Halfway(a, b, c, d, f, g, p + 1))
            && (Covers(a[p / 16], m) ==>
                  Halfway(a, b, c[p / 16 := Less(c[p / 16], m)], d[p / 32 := With(d[p / 32], Mask(p % 32))],
                          f - 2, g + 1, p + 1))
  {
    CollapseLengths(a, c, p);
    hide BitAt, With, Less, PairMask, Mask, Covers, Meets, Paired, Promoted, Count, Pair;
    WordPair(a, p);
    CollapsePair(a, c, p);
    PromotePair(a, b, d, p);
  }

  /** The same for word i and pair k of it, and bit q of word w above. */
  lemma CollapseWord(a: seq<bv32>, b: seq<bv32>, c: seq<bv32>, d: seq<bv32>, f: int, g: int,
                     p: nat, i: nat, k: nat, w: nat, q: nat)
    requires p == 16 * i + k && k < 16 && i < |a| && p == 32 * w + q && q < 32 && w < |d|
    requires Halfway(a, b, c, d, f, g, p)
    ensures |c| == |a|
    ensures !Covers(a[i], PairMask(k)) ==> Halfway(a, b, c, d, f, g, p + 1)
    ensures Covers(a[i], PairMask(k)) ==>
              Halfway(a, b, c[i := Less(c[i], PairMask(k))], d[w := With(d[w], Mask(q))], f - 2, g + 1, p + 1)
  {
    hide Halfway, With, Less, PairMask, Mask, Covers;
    Place(p, i, k, 16);
    Place(p, w, q, 32);
    CollapseStep(a, b, c, d, f, g, p);
  }

  lemma LevelRoom(blocks: nat, upper: nat, size: nat, length: nat)
    requires blocks == 2 * upper && size == Words(blocks) && length >= Words(upper)
    ensures upper <= 16 * size && upper <= 32 * length
  {
  }

  lemma CollapseLengths(a: seq<bv32>, c: seq<bv32>, p: nat)
    requires 2 * p <= 32 * |a|
    ensures Paired(a, c, p) ==> |c| == |a|
  {
  }

  /** Word w and mask m stand for bit p, or have just run past it at the end of the word. */
  ghost predicate Cursor(p: nat, w: nat, m: bv32) {
    32 * w <= p <= 32 * w + 32 && m == Mask(p - 32 * w) && (m == 0 <==> p == 32 * w + 32)
  }

  lemma CursorReset(p: nat, w: nat, m: bv32)
    requires Cursor(p, w, m)
    ensures 32 * w <= p && (m == 0 <==> p == 32 * w + 32) && p <= 32 * w + 32
    ensures m == 0 ==> Cursor(p, w + 1, TOP)
  {
    FirstMasks();
    hide Mask;
  }

  lemma CollapseMasks(p: nat, k: nat, w: nat, m: bv32)
    requires k < 16 && p - 32 * w <= 16 + k && Cursor(p, w, m)
    ensures p >= 32 * w && m == Mask(p - 32 * w)
    ensures Quarter(PairMask(k)) == PairMask(k + 1) && (PairMask(k + 1) == 0 <==> k + 1 == 16)
    ensures Cursor(p + 1, w, Half(m))
  {
    hide Mask, PairMask, Half, Quarter;
    NextMask(p - 32 * w);
    NextPair(k);
  }

  const TOP_PAIR: bv32 := 0xC000_0000

  /** Which pair mask is next after k bits of a word, before it starts again in the next word. */
  function PairOffset(k: nat): (r: nat)
    requires k <= 32
    ensures r <= 16
  {
    if k <= 16 then k else k - 16
  }

  lemma StepMasks(k: nat, i: nat)
    requires k < 32
    ensures Half(Mask(k)) == Mask(k + 1) && (Mask(k + 1) == 0 <==> k + 1 == 32)
    ensures Quarter(PairMask(k % 16)) == PairMask(PairOffset(k + 1))
    ensures PairMask(PairOffset(k + 1)) == 0 <==> k + 1 == 16 || k + 1 == 32
    ensures k != 16 ==> PairOffset(k) == k % 16
    ensures k % 16 == 0 ==> PairMask(k % 16) == TOP_PAIR
    ensures (32 * i + k) / 32 == i && (32 * i + k) % 32 == k && (32 * i + k) % 16 == k % 16
    ensures (32 * i + k) / 16 == 2 * i + (if k < 16 then 0 else 1)
  {
    hide Mask, PairMask, Half, Quarter;
    NextMask(k);
    NextPair(k % 16);
    assert k < 16 || k % 16 == k - 16;
  }

  lemma FirstMasks()
    ensures PairOffset(0) == 0
    ensures Mask(0) == TOP && PairMask(0) == TOP_PAIR && TOP != 0 && TOP_PAIR != 0
  {
  }

  lemma ExpandNone(a: seq<bv32>, b: seq<bv32>)
    ensures Expanded(a, b, b, 0)
  {
  }

  /** One bit of the expansion, as the words show it. */
  lemma ExpandWord(a: seq<bv32>, b: seq<bv32>, c: seq<bv32>, k: nat)
    requires k < 32 * |a| && 2 * k + 1 < 32 * |c| && Expanded(a, b, c, k)
    ensures var i, m := k / 16, PairMask(k % 16);
            var d := c[i := With(c[i], m)];
            && (!Meets(a[k / 32], Mask(k % 32)) ==> Expanded(a, b, c, k + 1))
            && (Meets(a[k / 32], Mask(k % 32)) ==>
                  && Expanded(a, b, d, k + 1)
                  && Count(d) == Count(c) + (if !Meets(c[i], m) then 2 else if !Covers(c[i], m) then 1 else 0))
  {
    hide BitAt, With, PairMask, Mask, Meets, Covers, Expanded, Missing, Count;
    ExpandBit(a, b, c, k);
    WordBit(a, k);
    WordPair(c, k);
  }

  function Least(m: nat, n: nat): nat {
    if m <= n then m else n
  }

  function Most(m: nat, n: nat): nat {
    if m <= n then n else m
  }

  lemma LowerNone(a: seq<bv32>, lo: nat, hi: nat)
    requires hi <= lo
    ensures Lowered(a, a, lo, hi)
  {
  }

  lemma RaiseNone(a: seq<bv32>, lo: nat, hi: nat)
    requires hi <= lo
    ensures Raised(a, a, lo, hi)
  {
  }

  lemma OneSet(a: seq<bv32>, b: seq<bv32>, size: nat, realBlocks: nat)
    requires size <= |a| && realBlocks % 2 == 1
    requires forall m :: 0 <= m < 32 * size ==> !BitAt(a, m)
    requires Raised(a, b, realBlocks - 1, realBlocks)
    ensures LastReal(b, 32 * size, realBlocks)
  {
    hide BitAt;
  }

  lemma NoneSet(a: seq<bv32>, size: nat, realBlocks: nat)
    requires size <= |a| && realBlocks % 2 != 1
    requires forall m :: 0 <= m < 32 * size ==> !BitAt(a, m)
    ensures LastReal(a, 32 * size, realBlocks)
  {
    hide BitAt;
  }

  lemma ZeroBit(k: nat)
    requires k < 32
    ensures !Bit(0, k)
  {
    hide Mask;
  }

  lemma ClearBits(a: seq<bv32>, size: nat)
    requires size <= |a| && forall k :: 0 <= k < size ==> a[k] == 0
    ensures forall n :: 0 <= n < 32 * size ==> !BitAt(a, n)
  {
    hide Bit;
    forall n | 0 <= n < 32 * size ensures !BitAt(a, n) {
      ZeroBit(n % 32);
    }
  }
}
