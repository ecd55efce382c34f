/** The free-chunk map of a 64-bit zone: building it for a new zone, and reading which blocks are free. */
module Zones {
  import opened Arithmetic
  import opened BitWords
  import opened Bitmaps
  import opened ZoneLevels

  /** The bitmaps hold these levels, each half as long as the one before it. */
  ghost predicate Holds(bmps: seq<Bitmap>, levels: seq<seq<bv32>>)
    reads bmps, set b | b in bmps :: b.bitmap
  {
    && |bmps| == |levels|
    && (forall i {:trigger bmps[i]} :: 0 <= i < |bmps| ==> bmps[i].Valid() && bmps[i].bitmap[..] == levels[i])
    && (forall i {:trigger bmps[i]} :: 0 < i < |bmps| ==> bmps[i - 1].blocks == 2 * bmps[i].blocks)
  }

  /** map shows what is free as seen from level i, for the first n chunks of that level. */
  ghost predicate Unpacked(map_: seq<bv32>, levels: seq<seq<bv32>>, i: nat, n: nat) {
    n <= 32 * |map_| && forall x {:trigger BitAt(map_, x)} :: 0 <= x < n ==> (BitAt(map_, x) <==> Free(levels, i, x))
  }

  lemma UnpackTop(levels: seq<seq<bv32>>, n: nat)
    requires |levels| > 0 && n <= 32 * |levels[|levels| - 1]|
    ensures Unpacked(levels[|levels| - 1], levels, |levels| - 1, n)
  {
    hide BitAt;
    var top := levels[|levels| - 1];
    forall x | 0 <= x < n ensures BitAt(top, x) <==> Free(levels, |levels| - 1, x) {
      assert !Free(levels, |levels|, x / 2);
    }
  }

  /** Expanding what is free from level i + 1 into a copy of level i gives what is free from level i. */
  lemma UnpackStep(levels: seq<seq<bv32>>, prev: seq<bv32>, curr: seq<bv32>, i: nat, n: nat)
    requires i + 1 < |levels| && Unpacked(prev, levels, i + 1, n)
    requires 2 * n <= 32 * |levels[i]| && Expanded(prev, levels[i], curr, n)
    ensures Unpacked(curr, levels, i, 2 * n)
  {
    hide BitAt;
    forall x | 0 <= x < 2 * n ensures BitAt(curr, x) <==> Free(levels, i, x) {
      assert BitAt(curr, x) <==> BitAt(prev, x / 2) || BitAt(levels[i], x);
      assert BitAt(prev, x / 2) <==> Free(levels, i + 1, x / 2);
    }
  }

  lemma UnpackCut(levels: seq<seq<bv32>>, a: seq<bv32>, b: seq<bv32>, i: nat, n: nat)
    requires Unpacked(a, levels, i, n) && |b| <= |a| && b == a[..|b|] && n <= 32 * |b|
    ensures Unpacked(b, levels, i, n)
  {
    hide Bit;
    forall x | 0 <= x < n ensures BitAt(b, x) == BitAt(a, x) {
    }
  }

  lemma HoldsIs(bmps: seq<Bitmap>, levels: seq<seq<bv32>>, i: nat)
    requires Holds(bmps, levels) && i < |bmps|
    ensures |levels| == |bmps| && bmps[i].Valid() && bmps[i].bitmap[..] == levels[i]
    ensures i > 0 ==> bmps[i - 1].blocks == 2 * bmps[i].blocks
  {
  }

  /** The map of free chunks, which leaves the bitmaps as they are; there is none without bitmaps. */
  method UnpackBitmaps(bmps: seq<Bitmap>, ghost levels: seq<seq<bv32>>) returns (currMap: array?<bv32>)
    requires Holds(bmps, levels)
    ensures currMap == null <==> |bmps| == 0
    ensures currMap != null ==> fresh(currMap) && currMap.Length == bmps[0].size
    ensures currMap != null ==> Unpacked(currMap[..], levels, 0, bmps[0].blocks)
  {
    hide Unpacked, Expanded, Holds;
    if |bmps| == 0 { return null; }
    var i := |bmps| - 1;
    HoldsIs(bmps, levels, i);
    var prevMap, prevMaxBits := bmps[i].bitmap, bmps[i].blocks;
    UnpackTop(levels, prevMaxBits);
    while i > 0
      invariant 0 <= i < |bmps| && prevMaxBits == bmps[i].blocks && prevMap.Length == bmps[i].bitmap.Length
      invariant Unpacked(prevMap[..], levels, i, prevMaxBits)
      invariant Holds(bmps, levels)
    {
      HoldsIs(bmps, levels, i);
      i := i - 1;
      HoldsIs(bmps, levels, i);
      var curr := new bv32[bmps[i].bitmap.Length](k requires 0 <= k < bmps[i].bitmap.Length reads bmps[i], bmps[i].bitmap => bmps[i].bitmap[k]);
      assert curr[..] == levels[i];
      var r := Bitmap.ExpandFreeBits(prevMap, curr, prevMaxBits);
      UnpackStep(levels, prevMap[..], curr[..], i, prevMaxBits);
      prevMaxBits := bmps[i].blocks;
      prevMap := curr;
    }
    HoldsIs(bmps, levels, 0);
    currMap := new bv32[bmps[0].size](k requires 0 <= k < prevMap.Length reads prevMap => prevMap[k]);
    UnpackCut(levels, prevMap[..], currMap[..], 0, prevMaxBits);
  }

  const DEFAULT_LOG_STAMP: nat := 114977
  const BLOCK_SIZE: nat := 512

  /** The number of levels for some chunks: the least power of two that is enough, and one for counting from zero. */
  method CalcOrder(chunks: nat) returns (order: nat)
    ensures order == Order(chunks)
  {
    order := 0;
    while Power(order) < chunks
      invariant order == 0 || Power(order - 1) < chunks
      decreases chunks - Power(order)
    {
      order := order + 1;
    }
    OrderIs(chunks, order + 1);
    order := order + 1;
  }

  function OrderFrom(chunks: nat, order: nat): nat
    decreases chunks - Power(order)
  {
    if Power(order) < chunks then OrderFrom(chunks, order + 1) else order + 1
  }

  function Order(chunks: nat): nat { OrderFrom(chunks, 0) }

  lemma {:induction false} PowerGrows(i: nat, j: nat)
    requires i <= j
    ensures Power(i) <= Power(j)
  {
    if i >= j {
    } else {
      PowerGrows(i, j - 1);
    }
  }

  lemma {:induction false} OrderFromIs(chunks: nat, order: nat, start: nat)
    requires start < order && Power(order - 1) >= chunks && (order >= 2 ==> Power(order - 2) < chunks)
    ensures OrderFrom(chunks, start) == order
    decreases order - start
  {
    if start + 1 >= order {
    } else {
      PowerGrows(start, order - 2);
      OrderFromIs(chunks, order, start + 1);
    }
  }

  /** The order is the one number of levels that is enough and not more than needed. */
  lemma OrderIs(chunks: nat, order: nat)
    requires 0 < order && Power(order - 1) >= chunks && (order >= 2 ==> Power(order - 2) < chunks)
    ensures Order(chunks) == order
  {
    OrderFromIs(chunks, order, 0);
  }

  lemma {:induction false} OrderFromEnough(chunks: nat, start: nat)
    requires start == 0 || Power(start - 1) < chunks
    ensures var n := OrderFrom(chunks, start);
            0 < n && Power(n - 1) >= chunks && (n >= 2 ==> Power(n - 2) < chunks)
    decreases chunks - Power(start)
  {
    if Power(start) < chunks { OrderFromEnough(chunks, start + 1); }
  }

  lemma OrderEnough(chunks: nat)
    ensures var n := Order(chunks);
            0 < n && Power(n - 1) >= chunks && (n >= 2 ==> Power(n - 2) < chunks)
  {
    OrderFromEnough(chunks, 0);
  }

  /** The words of the bitmaps of the lowest n sizes, as the descriptor's size allows for them. */
  function TableInts(n: nat): nat {
    if n == 0 then 0 else TableInts(n - 1) + (Power(n - 1) + 57) / 32
  }

  /** The bytes a descriptor with this many levels is given, before padding. */
  function DescriptorBytes(order: nat): nat { HEADER_BYTES + 24 * order + 4 * TableInts(order) }

  const HEADER_BYTES: nat := 108

  function RoundUp(size: nat, unit: nat): (r: nat)
    requires unit > 0
  {
    (size + unit - 1) / unit * unit
  }

  method CalculateDescriptorSize(order: nat) returns (bytes: nat)
    ensures bytes == RoundUp(DescriptorBytes(order), BLOCK_SIZE)
  {
    var size := HEADER_BYTES + 16 * order + 4 * order + 4 * order;
    var n := order;
    while n != 0
      invariant 0 <= n <= order && size + 4 * TableInts(n) == DescriptorBytes(order)
    {
      n := n - 1;
      var bits := Power(n);
      var ints := (bits + 57) / 32;
      size := size + ints * 4;
    }
    return RoundUp(size, BLOCK_SIZE);
  }

  lemma {:induction false} PowerMultiple(i: nat)
    ensures Power(i + 5) == 32 * Power(i)
  {
    if i > 0 { PowerMultiple(i - 1); } else { assert Power(5) == 32 * Power(0); }
  }

  lemma EstimateLarge(p: nat, q: nat)
    requires p == 32 * q && q > 0
    ensures (p + 57) / 32 == Words(p) + 1 && p > 7
  {
  }

  /** The estimate of a bitmap's words is what the bitmap takes: one more than needed from eight blocks on. */
  lemma EstimateIsSize(i: nat)
    ensures (Power(i) + 57) / 32 == IntSize(Words(Power(i)), Power(i))
  {
    hide IntSize;
    if i >= 5 {
      PowerMultiple(i - 5);
      hide Power, Words;
      EstimateLarge(Power(i), Power(i - 5));
    } else {
      assert Power(0) == 1 && Power(1) == 2 && Power(2) == 4;
      assert Power(3) == 8 && Power(4) == 16;
    }
  }

  /** The bitmaps made so far for a zone of r chunks, each with its last odd chunk marked. */
  ghost predicate Made(bmps: seq<Bitmap>, n: nat, r: nat)
    requires |bmps| <= n
    reads bmps, set b | b in bmps :: b.bitmap
  {
    && (forall i {:trigger bmps[i]} :: 0 <= i < |bmps| ==> MadeOne(bmps[i], Power(n - 1 - i), Down(r, i)))
    && forall i, j {:trigger bmps[i], bmps[j]} :: 0 <= i < j < |bmps| ==>
         bmps[i] != bmps[j] && bmps[i].bitmap != bmps[j].bitmap
  }

  ghost predicate MadeOne(b: Bitmap, blocks: nat, real_: nat)
    reads b, b.bitmap
  {
    && b.Valid() && b.blocks == blocks && b.last == 0 && b.freeBlocks == real_ % 2
    && 32 * b.size <= 32 * |b.bitmap[..]| && LastReal(b.bitmap[..], 32 * b.size, real_)
    && (b.bitmap.Length > b.size ==> b.bitmap[b.size] == FILLER)
  }

  /** One bitmap for each level, from one bit a chunk to one bit for everything. */
  method CreateBitmaps(num: nat, chunks: nat) returns (bmps: seq<Bitmap>)
    requires 0 < num && chunks <= Power(num - 1)
    ensures |bmps| == num && Made(bmps, num, chunks)
    ensures forall i :: 0 <= i < |bmps| ==> fresh(bmps[i]) && fresh(bmps[i].bitmap)
  {
    hide LastReal, BitAt, MadeOne;
    bmps := [];
    var maxBlocks, realBlocks := Power(num - 1), chunks;
    while |bmps| < num
      invariant |bmps| <= num && Made(bmps, num, chunks)
      invariant forall i :: 0 <= i < |bmps| ==> fresh(bmps[i]) && fresh(bmps[i].bitmap)
      invariant |bmps| < num ==> maxBlocks == Power(num - 1 - |bmps|) && realBlocks == Down(chunks, |bmps|)
    {
      DownBound(chunks, num - 1, |bmps|);
      var b := NewLevel(maxBlocks, realBlocks);
      bmps := bmps + [b];
      maxBlocks := maxBlocks / 2;
      realBlocks := realBlocks / 2;
    }
  }

  method NewLevel(blocks: nat, realBlocks: nat) returns (b: Bitmap)
    requires 0 < blocks && realBlocks <= blocks
    ensures fresh(b) && fresh(b.bitmap) && MadeOne(b, blocks, realBlocks)
  {
    hide LastReal;
    b := new Bitmap(blocks, realBlocks);
  }

  /** The words of the bitmaps. */
  ghost function Levels(bmps: seq<Bitmap>): (levels: seq<seq<bv32>>)
    reads bmps, set b | b in bmps :: b.bitmap
    ensures |levels| == |bmps| && forall i :: 0 <= i < |bmps| ==> levels[i] == bmps[i].bitmap[..]
  {
    seq(|bmps|, i requires 0 <= i < |bmps| reads bmps, set b | b in bmps :: b.bitmap => bmps[i].bitmap[..])
  }

  lemma MadeLevel(bmps: seq<Bitmap>, n: nat, r: nat, i: nat)
    requires i < |bmps| <= n && Made(bmps, n, r)
    ensures bmps[i].Valid() && bmps[i].blocks == Power(n - 1 - i) && bmps[i].freeBlocks == Down(r, i) % 2
    ensures Power(n - 1 - i) <= 32 * |bmps[i].bitmap[..]|
    ensures LastReal(bmps[i].bitmap[..], Power(n - 1 - i), Down(r, i))
  {
    hide BitAt, IntSize, Power, Down;
    assert MadeOne(bmps[i], Power(n - 1 - i), Down(r, i));
  }

  lemma MadeHalves(bmps: seq<Bitmap>, n: nat, r: nat, i: nat)
    requires 0 < i < |bmps| <= n && Made(bmps, n, r)
    ensures bmps[i - 1].blocks == 2 * bmps[i].blocks
  {
    hide BitAt, IntSize, Power, Down, Made, MadeOne, LastReal;
    MadeLevel(bmps, n, r, i);
    MadeLevel(bmps, n, r, i - 1);
    PowerStep(n - 1 - i);
  }

  lemma MadeHolds(bmps: seq<Bitmap>, n: nat, r: nat)
    requires 0 < n == |bmps| && Made(bmps, n, r)
    ensures Holds(bmps, Levels(bmps))
  {
    hide BitAt, IntSize, Power, Down, Made, MadeOne, LastReal, Bitmap.Valid, Levels;
    forall i | 0 <= i < n ensures bmps[i].Valid() { MadeLevel(bmps, n, r, i); }
    forall i | 0 < i < n ensures bmps[i - 1].blocks == 2 * bmps[i].blocks { MadeHalves(bmps, n, r, i); }
  }

  lemma MadeIsNew(bmps: seq<Bitmap>, n: nat, r: nat)
    requires 0 < n == |bmps| && r <= Power(n - 1) && Made(bmps, n, r)
    ensures Holds(bmps, Levels(bmps)) && NewLevels(Levels(bmps), n, r)
  {
    hide BitAt, IntSize, Power, Down, Made, MadeOne, LastReal, Bitmap.Valid, Levels, Holds;
    MadeHolds(bmps, n, r);
    var levels := Levels(bmps);
    forall i {:trigger levels[i]} | 0 <= i < n
      ensures Power(n - 1 - i) <= 32 * |levels[i]| && LastReal(levels[i], Power(n - 1 - i), Down(r, i))
    {
      MadeLevel(bmps, n, r, i);
    }
  }

  lemma PowerStep(i: nat)
    ensures Power(i + 1) == 2 * Power(i)
  {
  }

  lemma FirstDown(n: nat)
    ensures Down(n, 0) == n
  {
  }

  lemma OrderClears(chunks: nat)
    ensures Down(chunks, Order(chunks)) == 0
  {
    var n := Order(chunks);
    OrderEnough(chunks);
    DownBound(chunks, n - 1, n - 1);
    assert Power(0) == 1;
  }

  lemma WholeChunks(data: nat, chunk: nat)
    requires chunk > 0
    ensures data - data % chunk == chunk * (data / chunk) && (data - data % chunk) / chunk == data / chunk
  {
    Place(chunk * (data / chunk), data / chunk, 0, chunk);
  }

  lemma InChunk(x: nat, chunk: nat, n: nat)
    requires 0 < chunk && x < chunk * n
    ensures x / chunk < n
  {
  }

  /** A Java int seen as its 32-bit pattern. */
  function Wrap(n: int): (r: nat)
    ensures r < 0x1_0000_0000
  {
    n % 0x1_0000_0000
  }

  lemma WrapAgain(n: int, k: int)
    ensures Wrap(Wrap(n) + k) == Wrap(n + k)
  {
  }

  /** The bytes a bitmap takes in a descriptor: four header words and its words. */
  function MapBytes(b: Bitmap): (r: nat)
    reads b`size, b`blocks
  {
    16 + 4 * IntSize(b.size, b.blocks)
  }

  /** Where bitmap i starts, from the first pointer on. */
  function MapOffset(bmps: seq<Bitmap>, i: nat): (r: nat)
    requires i <= |bmps|
    reads bmps
  {
    if i == 0 then 4 * |bmps| else MapOffset(bmps, i - 1) + MapBytes(bmps[i - 1])
  }

  ghost predicate Pointers(ints: seq<nat>, bmps: seq<Bitmap>, base: nat)
    reads bmps
  {
    |ints| == |bmps| && forall i {:trigger ints[i]} :: 0 <= i < |ints| ==> ints[i] == Wrap(base + MapOffset(bmps, i))
  }

  /** The bitmaps have as many bits as their levels, down to one. */
  ghost predicate Halved(bmps: seq<Bitmap>, n: nat)
    reads bmps
  {
    |bmps| == n && forall i {:trigger bmps[i]} :: 0 <= i < n ==> bmps[i].blocks == Power(n - 1 - i)
  }

  /** The chunks the counters stand for, seen from level i and in units of it. */
  function FreeChunks(bmps: seq<Bitmap>, i: nat): int
    reads bmps
    decreases |bmps| - i
  {
    if i >= |bmps| then 0 else bmps[i].freeBlocks + 2 * FreeChunks(bmps, i + 1)
  }

  class Zone64 {
    var descriptorStartBlock: nat
    var backupStartBlock: nat
    var dataStartBlocks: nat
    var dataEndBlock: int
    var dataSize: nat
    var freeDataBlocks: nat
    var descriptorSize: nat
    var min: nat
    var logStamp: nat
    var zero: nat
    var num: nat
    var ints: seq<nat>
    var bitmaps: seq<Bitmap>
    var unpackedBitmap: array?<bv32>
    ghost var levels: seq<seq<bv32>>

    ghost predicate Valid()
      reads this`min, this`dataSize, this`bitmaps, this`levels, bitmaps, set b | b in bitmaps :: b.bitmap
    {
      && |bitmaps| > 0 && min > 0 && Holds(bitmaps, levels)
      && dataSize <= min * bitmaps[0].blocks
    }

    /** The map unpacked before, if there is one, is that of the bitmaps. */
    ghost predicate Cached()
      reads this`unpackedBitmap, this`levels, this`bitmaps, bitmaps
      reads if unpackedBitmap == null then {} else {unpackedBitmap}
    {
      unpackedBitmap != null ==> |bitmaps| > 0 && Unpacked(unpackedBitmap[..], levels, 0, bitmaps[0].blocks)
    }

    /** The fields of a new zone, whose chunks are all free. */
    ghost predicate New(chunks: nat)
      reads this, bitmaps
    {
      && dataSize == freeDataBlocks == min * chunks && dataEndBlock == dataStartBlocks + dataSize - 1
      && num == |bitmaps| == Order(chunks) && NewLevels(levels, num, chunks)
      && FreeChunks(bitmaps, 0) == chunks && Halved(bitmaps, num)
      && descriptorSize == RoundUp(DescriptorBytes(num), BLOCK_SIZE) / BLOCK_SIZE
      && backupStartBlock == descriptorStartBlock + descriptorSize
      && logStamp == DEFAULT_LOG_STAMP && zero == 0
    }

    /** A new zone; what is left over after the last whole chunk of data is not used. */
    constructor (startBlock: nat, startDataBlock: nat, dataBlocks: nat, chunkSize: nat, baseFsPointer: nat)
      requires chunkSize > 0
      ensures Valid() && Cached() && New(dataBlocks / chunkSize)
      ensures descriptorStartBlock == startBlock && dataStartBlocks == startDataBlock && min == chunkSize
      ensures fresh(bitmaps) && forall b :: b in bitmaps ==> fresh(b.bitmap)
      ensures Pointers(ints, bitmaps, baseFsPointer)
    {
      hide BitAt, IntSize, Power, Down, LastReal, Holds, Made, Pointers, FreeChunks, Halved, Unpacked, NewLevels, RoundUp, DescriptorBytes, Order;
      WholeChunks(dataBlocks, chunkSize);
      var data := dataBlocks - dataBlocks % chunkSize;
      var order, size, bmps, pointers := Parts(data / chunkSize, baseFsPointer);
      descriptorStartBlock := startBlock;
      backupStartBlock := startBlock + size;
      dataStartBlocks := startDataBlock;
      dataEndBlock := startDataBlock + data - 1;
      dataSize := data;
      freeDataBlocks := data;
      descriptorSize := size;
      min := chunkSize;
      logStamp := DEFAULT_LOG_STAMP;
      zero := 0;
      num := order;
      bitmaps := bmps;
      levels := Levels(bmps);
      ints := pointers;
      unpackedBitmap := null;
    }

    /** Where each bitmap lies in file-system memory, counted on from where the first pointer lies. */
    static method CreateInts(bmps: seq<Bitmap>, baseFsPointer: nat) returns (ints: seq<nat>)
      requires |bmps| > 0
      ensures Pointers(ints, bmps, baseFsPointer)
    {
      hide MapBytes, Wrap;
      ints := [Wrap(baseFsPointer + 4 * |bmps|)];
      assert MapOffset(bmps, 0) == 4 * |bmps|;
      while |ints| < |bmps|
        invariant 0 < |ints| <= |bmps|
        invariant forall i {:trigger ints[i]} :: 0 <= i < |ints| ==> ints[i] == Wrap(baseFsPointer + MapOffset(bmps, i))
      {
        var i := |ints|;
        WrapAgain(baseFsPointer + MapOffset(bmps, i - 1), MapBytes(bmps[i - 1]));
        ints := ints + [Wrap(ints[i - 1] + MapBytes(bmps[i - 1]))];
      }
    }

    /** The number of levels, the blocks of a descriptor, the bitmaps and their pointers. */
    static method Parts(chunks: nat, baseFsPointer: nat)
      returns (order: nat, size: nat, bmps: seq<Bitmap>, ints: seq<nat>)
      ensures order == Order(chunks) == |bmps| && order > 0
      ensures size == RoundUp(DescriptorBytes(order), BLOCK_SIZE) / BLOCK_SIZE
      ensures fresh(bmps) && forall b :: b in bmps ==> fresh(b.bitmap)
      ensures Holds(bmps, Levels(bmps)) && NewLevels(Levels(bmps), order, chunks)
      ensures bmps[0].blocks >= chunks
      ensures FreeChunks(bmps, 0) == chunks && Halved(bmps, order) && Pointers(ints, bmps, baseFsPointer)
    {
      hide FreeChunks, Pointers, BitAt, IntSize, Power, Down, LastReal, Holds, Made, NewLevels, RoundUp, DescriptorBytes, Order;
      order := CalcOrder(chunks);
      OrderEnough(chunks);
      size := CalculateDescriptorSize(order);
      size := size / BLOCK_SIZE;
      bmps := CreateBitmaps(order, chunks);
      MadeIsNew(bmps, order, chunks);
      forall i | 0 <= i < order
        ensures bmps[i].freeBlocks == Down(chunks, i) % 2 && bmps[i].blocks == Power(order - 1 - i)
      {
        MadeLevel(bmps, order, chunks, i);
      }
      OrderClears(chunks);
      NewFreeChunks(bmps, chunks, 0);
      FirstDown(chunks);
      ints := CreateInts(bmps, baseFsPointer);
    }

    /** The chunk of the data that a block lies in. */
    ghost function ChunkOf(block: int): nat
      reads this`dataStartBlocks, this`min
    {
      if block < dataStartBlocks || min == 0 then 0 else (block - dataStartBlocks) / min
    }

    /** Some bitmap has the bit set that covers a chunk: bit chunk / 2^i of bitmap i. */
    ghost predicate FreeChunk(chunk: nat)
      reads this`bitmaps, bitmaps, set b | b in bitmaps :: b.bitmap
    {
      exists i :: 0 <= i < |bitmaps| && Covering(bitmaps[i], Down(chunk, i))
    }

    /** In a valid zone that is what unpacking the levels gives. */
    lemma ChunkIs(chunk: nat)
      requires Valid()
      ensures FreeChunk(chunk) <==> Free(levels, 0, chunk)
    {
      hide BitAt, Bitmap.Valid;
      FreeHasLevel(levels, 0, chunk);
      forall i | 0 <= i < |bitmaps| ensures Covering(bitmaps[i], Down(chunk, i)) <==> CoversChunk(levels, i, chunk) {}
    }

    /** In a new zone the chunks of its data are free, and no others. */
    lemma NewChunks(chunks: nat, chunk: nat)
      requires Valid() && New(chunks) && chunk < bitmaps[0].blocks
      ensures FreeChunk(chunk) <==> chunk < chunks
    {
      hide BitAt, Holds, Power, NewLevels, FreeChunks, Order, RoundUp, DescriptorBytes;
      ChunkIs(chunk);
      assert bitmaps[0].blocks == Power(num - 1);
      NewZoneChunks(levels, num, chunks, chunk);
    }

    lemma InData(n: nat)
      requires Valid() && n < dataSize
      ensures min > 0 && |bitmaps| > 0 && Holds(bitmaps, levels) && n / min < bitmaps[0].blocks
      ensures FreeChunk(n / min) <==> Free(levels, 0, n / min)
      ensures forall chunks :: New(chunks) ==> FreeChunk(n / min)
    {
      hide FreeChunk, Holds;
      InChunk(n, min, bitmaps[0].blocks);
      ChunkIs(n / min);
      forall chunks | New(chunks) ensures FreeChunk(n / min) {
        InChunk(n, min, chunks);
        NewChunks(chunks, n / min);
      }
    }

    /** Whether the chunk a block lies in is free; the unpacked map is made once. */
    method IsBlockFree(block: int) returns (free: bool)
      requires Valid() && Cached()
      modifies this`unpackedBitmap
      ensures Valid() && Cached()
      ensures free <==> dataStartBlocks <= block < dataStartBlocks + dataSize && FreeChunk(ChunkOf(block))
      ensures forall chunks :: New(chunks) ==> (free <==> dataStartBlocks <= block < dataStartBlocks + dataSize)
    {
      hide BitAt, Holds, Unpacked, Free, Valid, FreeChunk, New;
      var blockNumber := block - dataStartBlocks;
      if blockNumber < 0 || blockNumber >= dataSize { return false; }
      InData(blockNumber);
      if unpackedBitmap == null {
        unpackedBitmap := UnpackBitmaps(bitmaps, levels);
      }
      UnpackedBit(unpackedBitmap[..], levels, bitmaps[0].blocks, blockNumber / min);
      free := IsBitSet(blockNumber / min, unpackedBitmap);
      InData(blockNumber);
    }
  }

  lemma UnpackedBit(map_: seq<bv32>, levels: seq<seq<bv32>>, n: nat, x: nat)
    requires Unpacked(map_, levels, 0, n) && x < n
    ensures x < 32 * |map_| && (BitAt(map_, x) <==> Free(levels, 0, x))
  {
  }

  /** Bits past the end of the array count as clear. */
  method IsBitSet(number: nat, bitmap: array<bv32>) returns (set_: bool)
    ensures set_ <==> number < 32 * bitmap.Length && BitAt(bitmap[..], number)
  {
    hide Meets, Mask;
    if number / 32 >= bitmap.Length { return false; }
    return Meets(bitmap[number / 32], Mask(number % 32));
  }

  /** Bit n of a bitmap is set, counted from the highest bit of its first word. */
  ghost predicate Covering(b: Bitmap, n: nat)
    reads b, b.bitmap
  {
    n < 32 * b.bitmap.Length && BitAt(b.bitmap[..], n)
  }

  lemma NewZoneChunks(levels: seq<seq<bv32>>, n: nat, r: nat, x: nat)
    requires NewLevels(levels, n, r) && x < Power(n - 1)
    ensures Free(levels, 0, x) <==> x < r
  {
    hide Free, BitAt;
    NewZoneIsFree(levels, n, r);
  }

  /** The counters of a new zone's bitmaps, each weighted with what a bit of its level covers, add up to its chunks. */
  lemma {:induction false} NewFreeChunks(bmps: seq<Bitmap>, r: nat, i: nat)
    requires forall k {:trigger bmps[k]} :: 0 <= k < |bmps| ==> bmps[k].freeBlocks == Down(r, k) % 2
    requires i <= |bmps| && Down(r, |bmps|) == 0
    ensures FreeChunks(bmps, i) == Down(r, i)
    decreases |bmps| - i
  {
    if i >= |bmps| {
    } else {
      NewFreeChunks(bmps, r, i + 1);
      assert Down(r, i + 1) == Down(r, i) / 2;
    }
  }
}
