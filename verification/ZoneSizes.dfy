/** How much of a disk's free space goes to data and how much to the descriptors of a new zone. */
module ZoneSizes {
  import opened Arithmetic
  import opened Wrappers
  import opened Zones

  const VOLUME_SIZE_ROUNDING: nat := 1024

  datatype SizeSet = SizeSet(descriptor: nat, partition: nat, data: int)

  /** A Java division, which rounds towards zero, never below it here. */
  function Chunks(dataSize: int, chunkSize: nat): nat
    requires chunkSize > 0
  {
    if dataSize < 0 then 0 else dataSize / chunkSize
  }

  /** The blocks of a descriptor for some chunks. */
  function DescriptorBlocks(chunks: nat): nat {
    RoundUp(DescriptorBytes(Order(chunks)), BLOCK_SIZE) / BLOCK_SIZE
  }

  /** The blocks kept for the descriptor and its backup. */
  function PartitionBlocks(dataSize: int, chunkSize: nat): nat
    requires chunkSize > 0
  {
    RoundUp(2 * DescriptorBlocks(Chunks(dataSize, chunkSize)), VOLUME_SIZE_ROUNDING)
  }

  predicate Fits(dataSize: int, chunkSize: nat, free: int)
    requires chunkSize > 0
  {
    PartitionBlocks(dataSize, chunkSize) + dataSize <= free
  }

  lemma RoundUpIs(n: nat, unit: nat)
    requires unit > 0
    ensures n <= RoundUp(n, unit) < n + unit && RoundUp(n, unit) % unit == 0
  {
    var q := (n + unit - 1) / unit;
    Multiple(q, unit);
  }

  lemma RoundUpMonotone(m: nat, n: nat, unit: nat)
    requires unit > 0 && m <= n
    ensures RoundUp(m, unit) <= RoundUp(n, unit)
  {
    DivideMonotone(m + unit - 1, n + unit - 1, unit);
    Times((m + unit - 1) / unit, (n + unit - 1) / unit, unit);
  }

  lemma OrderMonotone(m: nat, n: nat)
    requires m <= n
    ensures Order(m) <= Order(n)
  {
    hide Order;
    OrderEnough(m);
    OrderEnough(n);
    if Order(m) > Order(n) { PowerGrows(Order(n) - 1, Order(m) - 2); }
  }

  lemma {:induction false} TableIntsMonotone(m: nat, n: nat)
    requires m <= n
    ensures TableInts(m) <= TableInts(n)
  {
    if m >= n {
    } else {
      TableIntsMonotone(m, n - 1);
    }
  }

  lemma DescriptorMonotone(m: nat, n: nat)
    requires m <= n
    ensures DescriptorBlocks(m) <= DescriptorBlocks(n)
  {
    hide Order, RoundUp, TableInts;
    OrderMonotone(m, n);
    TableIntsMonotone(Order(m), Order(n));
    RoundUpMonotone(DescriptorBytes(Order(m)), DescriptorBytes(Order(n)), BLOCK_SIZE);
    DivideMonotone(RoundUp(DescriptorBytes(Order(m)), BLOCK_SIZE), RoundUp(DescriptorBytes(Order(n)), BLOCK_SIZE), BLOCK_SIZE);
  }

  /** Less data never needs more descriptor. */
  lemma PartitionMonotone(d: int, e: int, chunkSize: nat)
    requires chunkSize > 0 && d <= e
    ensures PartitionBlocks(d, chunkSize) <= PartitionBlocks(e, chunkSize)
  {
    hide RoundUp, DescriptorBlocks;
    DivideMonotone(d, e, chunkSize);
    if e >= 0 { DivideMonotone(0, e, chunkSize); }
    DescriptorMonotone(Chunks(d, chunkSize), Chunks(e, chunkSize));
    RoundUpMonotone(2 * DescriptorBlocks(Chunks(d, chunkSize)), 2 * DescriptorBlocks(Chunks(e, chunkSize)), VOLUME_SIZE_ROUNDING);
  }

  /** What is left for data when the descriptor of too large a size is taken off does fit. */
  lemma ShrunkFits(d: int, chunkSize: nat, free: int)
    requires chunkSize > 0 && !Fits(d, chunkSize, free)
    ensures Fits(free - PartitionBlocks(d, chunkSize), chunkSize, free)
  {
    hide PartitionBlocks;
    PartitionMonotone(free - PartitionBlocks(d, chunkSize), d, chunkSize);
  }

  predicate Found(s: SizeSet, chunkSize: nat, free: int)
    requires chunkSize > 0
  {
    && s.data >= chunkSize && Fits(s.data, chunkSize, free)
    && s.partition == PartitionBlocks(s.data, chunkSize)
    && s.descriptor == DescriptorBlocks(Chunks(s.data, chunkSize))
  }

  /* ---------- how descriptors grow ---------- */

  /** The blocks kept for descriptors with this many levels. */
  function LevelBlocks(order: nat): nat {
    RoundUp(2 * (RoundUp(DescriptorBytes(order), BLOCK_SIZE) / BLOCK_SIZE), VOLUME_SIZE_ROUNDING)
  }

  lemma PartitionIs(d: int, chunkSize: nat)
    requires chunkSize > 0
    ensures PartitionBlocks(d, chunkSize) == LevelBlocks(Order(Chunks(d, chunkSize)))
  {
  }

  lemma {:induction false} TableIntsIs(n: nat)
    requires n >= 5
    ensures TableInts(n) == Power(n - 5) + n + 1
  {
    if n == 5 {
      SmallTables();
    } else {
      TableIntsIs(n - 1);
      PowerMultiple(n - 6);
      assert Power(n - 5) == 2 * Power(n - 6);
    }
  }

  lemma SmallTables()
    ensures TableInts(5) == 7
  {
    assert Power(1) == 2 && Power(2) == 4 && Power(3) == 8 && Power(4) == 16;
    assert TableInts(2) == 2 && TableInts(4) == 5;
  }

  lemma {:induction false} PowerAbove(i: nat)
    ensures Power(i) > i
  {
    if i == 0 {
    } else {
      PowerAbove(i - 1);
    }
  }

  lemma PowerFifteen()
    ensures Power(15) == 32768 && Power(16) == 65536 && Power(19) == 524288
  {
    assert Power(5) == 32;
    PowerMultiple(5);
    PowerMultiple(10);
    assert Power(17) == 131072 && Power(18) == 262144;
  }

  /** Up to twenty levels the descriptors take 1024 blocks. */
  lemma FewLevels(order: nat)
    requires order <= 20
    ensures LevelBlocks(order) == VOLUME_SIZE_ROUNDING
  {
    hide TableInts;
    TableIntsMonotone(order, 20);
    TableIntsIs(20);
    PowerFifteen();
    var bytes := DescriptorBytes(order);
    RoundUpQuotient(bytes, BLOCK_SIZE);
    var blocks := RoundUp(bytes, BLOCK_SIZE) / BLOCK_SIZE;
    assert 1 <= blocks <= 258;
  }

  lemma RoundUpQuotient(n: nat, unit: nat)
    requires unit > 0
    ensures RoundUp(n, unit) / unit == (n + unit - 1) / unit
  {
    Multiple((n + unit - 1) / unit, unit);
  }

  /** With more, they take far less than an eighth of the chunks they describe. */
  lemma ManyLevels(order: nat)
    requires order >= 21
    ensures LevelBlocks(order) <= Power(order - 5)
  {
    hide TableInts;
    TableIntsIs(order);
    PowerFifteen();
    PowerGrows(16, order - 5);
    PowerAbove(order - 5);
    var bytes := DescriptorBytes(order);
    RoundUpQuotient(bytes, BLOCK_SIZE);
    RoundUpIs(2 * (RoundUp(bytes, BLOCK_SIZE) / BLOCK_SIZE), VOLUME_SIZE_ROUNDING);
  }

  /* ---------- taking a descriptor off ---------- */

  /** What is left when the descriptors for some data are taken off the free space. */
  function Left(d: int, chunkSize: nat, free: int): int
    requires chunkSize > 0
  {
    free - PartitionBlocks(d, chunkSize)
  }

  lemma OrderBounds(chunks: nat)
    ensures var k := Order(chunks); 0 < k && chunks <= Power(k - 1) && (k >= 2 ==> Power(k - 2) < chunks)
  {
    OrderEnough(chunks);
  }

  lemma OrderAtLeast(chunks: nat, k: nat)
    requires k >= 2 && Power(k - 2) < chunks
    ensures Order(chunks) >= k
  {
    hide Order;
    OrderEnough(chunks);
    if Order(chunks) < k { PowerGrows(Order(chunks) - 1, k - 2); }
  }

  lemma OneChunk(chunkSize: nat)
    requires chunkSize > 0
    ensures PartitionBlocks(chunkSize, chunkSize) == VOLUME_SIZE_ROUNDING
  {
    hide LevelBlocks;
    PartitionIs(chunkSize, chunkSize);
    assert Chunks(chunkSize, chunkSize) == 1;
    OrderIs(1, 1);
    FewLevels(1);
  }

  lemma SomeBlocks(d: int, chunkSize: nat)
    requires chunkSize > 0
    ensures PartitionBlocks(d, chunkSize) >= VOLUME_SIZE_ROUNDING
  {
    hide PartitionBlocks;
    OneChunk(chunkSize);
    if d >= chunkSize {
      PartitionMonotone(chunkSize, d, chunkSize);
    } else {
      NoChunk(d, chunkSize);
    }
  }

  lemma NoChunk(d: int, chunkSize: nat)
    requires chunkSize > 0 && d < chunkSize
    ensures PartitionBlocks(d, chunkSize) == VOLUME_SIZE_ROUNDING
  {
    hide LevelBlocks;
    PartitionIs(d, chunkSize);
    if d >= 0 { assert d / chunkSize == 0; }
    OrderIs(0, 1);
    FewLevels(1);
  }

  /** As many chunks as w fewer blocks of data still hold. */
  lemma ChunksLeft(d: nat, e: int, chunkSize: nat, w: nat)
    requires chunkSize > 0 && d / chunkSize > 8 * w && e >= d - w
    ensures e / chunkSize > 4 * w && e >= chunkSize
  {
    var n := d / chunkSize;
    Times(8 * w + 1, n, chunkSize);
    Times(1, chunkSize, w);
    assert chunkSize * n <= d;
    Distribute(w, chunkSize);
    DivideMonotone((4 * w + 1) * chunkSize, e, chunkSize);
    Multiple(4 * w + 1, chunkSize);
  }

  lemma Distribute(w: nat, c: nat)
    ensures (8 * w + 1) * c == 8 * (w * c) + c && (4 * w + 1) * c == 4 * (w * c) + c && w * c >= 0
  {
  }

  /** Taking larger descriptors off the data does not take away more than one of their levels. */
  lemma LevelBelow(d: nat, e: int, chunkSize: nat)
    requires chunkSize > 0 && PartitionBlocks(d, chunkSize) > VOLUME_SIZE_ROUNDING && e >= d - PartitionBlocks(d, chunkSize)
    ensures var k := Order(Chunks(d, chunkSize)); k >= 21 && Order(Chunks(e, chunkSize)) >= k - 1 && e >= chunkSize
  {
    hide LevelBlocks, Order;
    var n := d / chunkSize;
    assert n >= 0 by { DivideMonotone(0, d, chunkSize); }
    var k := Order(n);
    PartitionIs(d, chunkSize);
    if k <= 20 { FewLevels(k); }
    ManyLevels(k);
    OrderBounds(n);
    EightTimes(k);
    ChunksLeft(d, e, chunkSize, Power(k - 5));
    DivideMonotone(0, e, chunkSize);
    OrderAtLeast(e / chunkSize, k - 1);
  }

  lemma EightTimes(k: nat)
    requires k >= 5
    ensures Power(k - 2) == 8 * Power(k - 5) && Power(k - 3) == 4 * Power(k - 5)
  {
    assert Power(k - 4) == 2 * Power(k - 5) && Power(k - 3) == 2 * Power(k - 4) && Power(k - 2) == 2 * Power(k - 3);
  }

  /** In between the descriptors take as much as for one end or as for the other. */
  lemma OneOfTwo(d: nat, x: int, chunkSize: nat, free: int)
    requires chunkSize > 0 && d == Left(chunkSize, chunkSize, free)
    requires PartitionBlocks(d, chunkSize) > VOLUME_SIZE_ROUNDING && Left(d, chunkSize, free) <= x <= d
    ensures PartitionBlocks(x, chunkSize) == PartitionBlocks(d, chunkSize)
         || PartitionBlocks(x, chunkSize) == PartitionBlocks(Left(d, chunkSize, free), chunkSize)
    ensures chunkSize <= Left(d, chunkSize, free)
  {
    hide PartitionBlocks, Order, LevelBlocks;
    var e := Left(d, chunkSize, free);
    OneChunk(chunkSize);
    LevelBelow(d, e, chunkSize);
    PartitionIs(d, chunkSize);
    PartitionIs(e, chunkSize);
    PartitionIs(x, chunkSize);
    DivideMonotone(e, x, chunkSize);
    DivideMonotone(x, d, chunkSize);
    OrderMonotone(Chunks(e, chunkSize), Chunks(x, chunkSize));
    OrderMonotone(Chunks(x, chunkSize), Chunks(d, chunkSize));
  }

  /* ---------- the sizes found ---------- */

  /** The data that the search ends with, once one chunk fits. */
  function DataFound(chunkSize: nat, free: int): int
    requires chunkSize > 0
  {
    var d1 := Left(chunkSize, chunkSize, free);
    if d1 < 2 * chunkSize then chunkSize
    else
      var p2 := PartitionBlocks(d1, chunkSize);
      if p2 == PartitionBlocks(chunkSize, chunkSize) then d1
      else if ThirdHolds(chunkSize, free) then Left(free - p2, chunkSize, free)
      else free - p2
  }

  /** The second step leaves at least a chunk unused, and the third one fits. */
  predicate ThirdHolds(chunkSize: nat, free: int)
    requires chunkSize > 0
  {
    var p2 := PartitionBlocks(Left(chunkSize, chunkSize, free), chunkSize);
    var p3 := PartitionBlocks(free - p2, chunkSize);
    p2 - p3 >= chunkSize && PartitionBlocks(free - p3, chunkSize) == p3
  }

  /** How far the search has come, by what it has kept and what it looks at next. */
  ghost predicate At(step: int, last: int, data: int, chunkSize: nat, free: int)
    requires chunkSize > 0
  {
    var d1 := Left(chunkSize, chunkSize, free);
    var d2 := Left(d1, chunkSize, free);
    && (step == 0 ==> last == 0 && data == chunkSize)
    && (step > 0 ==> d1 >= 2 * chunkSize && Fits(chunkSize, chunkSize, free))
    && (step > 1 ==> PartitionBlocks(d1, chunkSize) > VOLUME_SIZE_ROUNDING)
    && (step > 2 ==> PartitionBlocks(d1, chunkSize) - PartitionBlocks(d2, chunkSize) >= chunkSize)
    && (step == 1 ==> last == chunkSize && data == d1)
    && (step == 2 ==> last == chunkSize && data == d2)
    && (step == 3 ==> last == d2 && data == Left(d2, chunkSize, free))
    && (step == 4 ==> last == d2 == data && !ThirdHolds(chunkSize, free))
  }

  /** The data of a first chunk or of a step that fits: what comes next, unless the search ends with it. */
  lemma NextFits(step: int, last: int, data: int, chunkSize: nat, free: int)
    requires chunkSize > 0 && 0 <= step < 4 && At(step, last, data, chunkSize, free) && Fits(data, chunkSize, free)
    ensures data > last && data >= chunkSize
    ensures var unclaimed := free - (PartitionBlocks(data, chunkSize) + data);
            if unclaimed < chunkSize then data == DataFound(chunkSize, free)
            else (step == 0 || step == 2) && At(step + 1, data, Left(data, chunkSize, free), chunkSize, free)
  {
    hide PartitionBlocks;
    OneChunk(chunkSize);
    var d1 := Left(chunkSize, chunkSize, free);
    if step > 0 { PartitionMonotone(chunkSize, d1, chunkSize); }
    if step > 1 {
      var d2 := Left(d1, chunkSize, free);
      OneOfTwo(d1, d2, chunkSize, free);
      PartitionMonotone(d2, d1, chunkSize);
      if step == 2 {
        TwoChunks(d1, d2, chunkSize);
      } else {
        PartitionMonotone(d2, Left(d2, chunkSize, free), chunkSize);
      }
    }
  }

  lemma TwoChunks(d: nat, e: int, chunkSize: nat)
    requires chunkSize > 0 && PartitionBlocks(d, chunkSize) > VOLUME_SIZE_ROUNDING && e >= d - PartitionBlocks(d, chunkSize)
    ensures e > chunkSize
  {
    hide PartitionBlocks, Order;
    LevelBelow(d, e, chunkSize);
    if e == chunkSize {
      assert Chunks(e, chunkSize) == 1;
      OrderIs(1, 1);
    }
  }

  /** A step that does not fit is the first one or the third one, and the next one does. */
  lemma NextSmaller(step: int, last: int, data: int, chunkSize: nat, free: int)
    requires chunkSize > 0 && 0 < step <= 4 && At(step, last, data, chunkSize, free) && !Fits(data, chunkSize, free)
    ensures (step == 1 || step == 3) && data > chunkSize && At(step + 1, last, Left(data, chunkSize, free), chunkSize, free)
  {
    hide PartitionBlocks;
    OneChunk(chunkSize);
    var d1 := Left(chunkSize, chunkSize, free);
    var d2 := Left(d1, chunkSize, free);
    PartitionMonotone(chunkSize, d1, chunkSize);
    if step > 1 {
      OneOfTwo(d1, d2, chunkSize, free);
      PartitionMonotone(d2, d1, chunkSize);
      var d3 := Left(d2, chunkSize, free);
      SomeBlocks(d2, chunkSize);
      if step == 3 { OneOfTwo(d1, d3, chunkSize, free); }
    }
  }

  lemma EndsAtSecond(last: int, data: int, chunkSize: nat, free: int)
    requires chunkSize > 0 && At(4, last, data, chunkSize, free)
    ensures last == DataFound(chunkSize, free)
  {
    hide PartitionBlocks;
    OneChunk(chunkSize);
  }

  /**
   * The search ends, fails exactly when one chunk with its descriptors does not fit, and otherwise gives
   * the data of its second or third step.
   */
  method CalcSizes(maxFreeBlocks: int, chunkSize: nat) returns (r: Result<SizeSet, string>)
    requires chunkSize > 0
    ensures r.Err? <==> !Fits(chunkSize, chunkSize, maxFreeBlocks)
    ensures r.Ok? ==>
              && r.value.data == DataFound(chunkSize, maxFreeBlocks) >= chunkSize && Fits(r.value.data, chunkSize, maxFreeBlocks)
              && r.value.partition == PartitionBlocks(r.value.data, chunkSize)
              && r.value.descriptor == DescriptorBlocks(Chunks(r.value.data, chunkSize))
  {
    hide RoundUp, Order, DescriptorBytes, DataFound, At;
    var dataSize: int := chunkSize;
    var last := SizeSet(0, 0, 0);
    ghost var step := 0;
    SearchStarts(chunkSize, maxFreeBlocks);
    while true
      invariant 0 <= step <= 4 && At(step, last.data, dataSize, chunkSize, maxFreeBlocks)
      invariant if step == 0 then last.data == 0 && dataSize == chunkSize
                else Fits(chunkSize, chunkSize, maxFreeBlocks) && Found(last, chunkSize, maxFreeBlocks)
      decreases 5 - step
    {
      var order := CalcOrder(Chunks(dataSize, chunkSize));
      var bytes := CalculateDescriptorSize(order);
      var descriptorSize := bytes / BLOCK_SIZE;
      var partitionSize := RoundUp(descriptorSize * 2, VOLUME_SIZE_ROUNDING);
      assert partitionSize == PartitionBlocks(dataSize, chunkSize);
      var unclaimed := maxFreeBlocks - (partitionSize + dataSize);
      if unclaimed < 0 {
        if step > 0 { NextSmaller(step, last.data, dataSize, chunkSize, maxFreeBlocks); }
        if dataSize <= chunkSize {
          return Err("Free space is too small");
        }
      } else {
        if step < 4 { NextFits(step, last.data, dataSize, chunkSize, maxFreeBlocks); }
        if dataSize <= last.data {
          EndsAtSecond(last.data, dataSize, chunkSize, maxFreeBlocks);
          break;
        }
        if step == 4 { AtEnd(last.data, dataSize, chunkSize, maxFreeBlocks); }
        last := SizeSet(descriptorSize, partitionSize, dataSize);
        if unclaimed < chunkSize { break; }
      }
      dataSize := maxFreeBlocks - partitionSize;
      step := step + 1;
    }
    return Ok(last);
  }

  lemma SearchStarts(chunkSize: nat, free: int)
    requires chunkSize > 0
    ensures At(0, 0, chunkSize, chunkSize, free)
  {
  }

  lemma AtEnd(last: int, data: int, chunkSize: nat, free: int)
    requires chunkSize > 0 && At(4, last, data, chunkSize, free)
    ensures data <= last
  {
  }

  /* ---------- when there is no better size ---------- */

  /** No other size that fits has room for more chunks. */
  ghost predicate MostChunks(chunkSize: nat, free: int)
    requires chunkSize > 0
  {
    forall d :: Fits(d, chunkSize, free) ==> Chunks(d, chunkSize) <= Chunks(DataFound(chunkSize, free), chunkSize)
  }

  /**
   * The second step takes off descriptors that one chunk more than it leaves would not need; that chunk
   * has room once the smaller ones are taken off, and the third step does not get there.
   */
  predicate StopsShort(chunkSize: nat, free: int)
    requires chunkSize > 0
  {
    var p2 := PartitionBlocks(Left(chunkSize, chunkSize, free), chunkSize);
    var p3 := PartitionBlocks(free - p2, chunkSize);
    var more := (Chunks(free - p2, chunkSize) + 1) * chunkSize;
    PartitionBlocks(more, chunkSize) < p2 && more <= free - p3 && !ThirdHolds(chunkSize, free)
  }

  lemma FitsBelow(d: int, e: int, chunkSize: nat, free: int)
    requires chunkSize > 0 && e <= d && Fits(d, chunkSize, free)
    ensures Fits(e, chunkSize, free)
  {
    hide PartitionBlocks;
    PartitionMonotone(e, d, chunkSize);
  }

  /** Data with more chunks than e has room for one chunk more than e. */
  lemma MoreChunks(d: int, e: int, chunkSize: nat)
    requires chunkSize > 0
    ensures var more := (Chunks(e, chunkSize) + 1) * chunkSize;
            more > e && more > 0 && Chunks(more, chunkSize) == Chunks(e, chunkSize) + 1
            && (Chunks(d, chunkSize) > Chunks(e, chunkSize) ==> more <= d)
  {
    var n := Chunks(e, chunkSize);
    assert n >= 0 by { if e >= 0 { DivideMonotone(0, e, chunkSize); } }
    Multiple(n + 1, chunkSize);
    Times(1, n + 1, chunkSize);
    if e >= 0 { DivideBelow(e, chunkSize); }
    if Chunks(d, chunkSize) > n {
      Times(n + 1, d / chunkSize, chunkSize);
      DivideBelow(d, chunkSize);
    }
  }

  lemma DivideBelow(d: int, c: int)
    requires c > 0
    ensures d / c * c <= d < (d / c + 1) * c
  {
    assert (d / c + 1) * c == d / c * c + c;
  }

  /** The sizes found have the most chunks if and only if the search does not stop short. */
  lemma MostChunksIff(chunkSize: nat, free: int)
    requires chunkSize > 0 && Fits(chunkSize, chunkSize, free)
    ensures MostChunks(chunkSize, free) <==> !StopsShort(chunkSize, free)
  {
    hide PartitionBlocks, Chunks, Fits;
    var r := DataFound(chunkSize, free);
    var more := (Chunks(r, chunkSize) + 1) * chunkSize;
    OneMoreIff(chunkSize, free);
    if Fits(more, chunkSize, free) {
      MoreChunks(r, r, chunkSize);
    } else {
      forall d | Fits(d, chunkSize, free) ensures Chunks(d, chunkSize) <= Chunks(r, chunkSize) {
        MoreChunks(d, r, chunkSize);
        if Chunks(d, chunkSize) > Chunks(r, chunkSize) { FitsBelow(d, more, chunkSize, free); }
      }
    }
  }

  lemma OneMoreIff(chunkSize: nat, free: int)
    requires chunkSize > 0 && Fits(chunkSize, chunkSize, free)
    ensures Fits((Chunks(DataFound(chunkSize, free), chunkSize) + 1) * chunkSize, chunkSize, free) <==> StopsShort(chunkSize, free)
  {
    hide PartitionBlocks, Chunks;
    var p1 := PartitionBlocks(chunkSize, chunkSize);
    var d1 := free - p1;
    var p2 := PartitionBlocks(d1, chunkSize);
    var d2 := free - p2;
    var p3 := PartitionBlocks(d2, chunkSize);
    var r := DataFound(chunkSize, free);
    var more := (Chunks(r, chunkSize) + 1) * chunkSize;
    OneChunk(chunkSize);
    MoreChunks(r, r, chunkSize);
    SomeBlocks(more, chunkSize);
    SomeBlocks((Chunks(d2, chunkSize) + 1) * chunkSize, chunkSize);
    PartitionMonotone(chunkSize, d1, chunkSize);
    if d1 < 2 * chunkSize {
      SingleChunk(d1, chunkSize);
    } else if p2 == p1 {
    } else if ThirdHolds(chunkSize, free) {
      PartitionMonotone(r, more, chunkSize);
    } else {
      assert r == d2;
      OneOfTwo(d1, d2, chunkSize, free);
      PartitionMonotone(d2, more, chunkSize);
      if PartitionBlocks(more, chunkSize) < p2 {
        if more > d1 { PartitionMonotone(d1, more, chunkSize); }
        OneOfTwo(d1, more, chunkSize, free);
      }
    }
  }

  lemma SingleChunk(d: int, chunkSize: nat)
    requires chunkSize > 0 && chunkSize <= d < 2 * chunkSize
    ensures Chunks(d, chunkSize) == Chunks(chunkSize, chunkSize) == 1
    ensures PartitionBlocks(d, chunkSize) == VOLUME_SIZE_ROUNDING
  {
    Place(d, 1, d - chunkSize, chunkSize);
    Place(chunkSize, 1, 0, chunkSize);
    hide LevelBlocks;
    PartitionIs(d, chunkSize);
    OrderIs(1, 1);
    FewLevels(1);
  }

  lemma UnitBlocks(d: nat, order: nat)
    requires 0 < order && Power(order - 1) >= d && (order >= 2 ==> Power(order - 2) < d)
    ensures Chunks(d, 1) == d && PartitionBlocks(d, 1) == LevelBlocks(order)
  {
    hide LevelBlocks, Order;
    OrderIs(d, order);
    PartitionIs(d, 1);
  }

  /** With chunks of one block on 525313 free ones the search finds 523265, although 524288 fit. */
  lemma FewerFound()
    ensures DataFound(1, 525313) == 523265 && Fits(524288, 1, 525313) && StopsShort(1, 525313) && !MostChunks(1, 525313)
  {
    hide LevelBlocks, PartitionBlocks, Order;
    OneChunk(1);
    PowerFifteen();
    assert Power(20) == 1048576 && Power(18) == 262144;
    TwentyOneLevels();
    FewLevels(20);
    UnitBlocks(524289, 21);
    UnitBlocks(524288, 20);
    UnitBlocks(523266, 20);
    UnitBlocks(523265, 20);
    hide Power;
    FewerThere();
  }

  lemma FewerThere()
    requires PartitionBlocks(1, 1) == PartitionBlocks(524288, 1) == PartitionBlocks(523265, 1) == PartitionBlocks(523266, 1) == 1024
    requires PartitionBlocks(524289, 1) == 2048
    requires Chunks(523265, 1) == 523265
    ensures DataFound(1, 525313) == 523265 && Fits(524288, 1, 525313) && StopsShort(1, 525313) && !MostChunks(1, 525313)
  {
    hide PartitionBlocks, Chunks, MostChunks;
    MostChunksIff(1, 525313);
  }

  lemma TwentyOneLevels()
    ensures LevelBlocks(21) == 2048
  {
    hide TableInts;
    TableIntsIs(21);
    PowerFifteen();
    RoundUpQuotient(DescriptorBytes(21), BLOCK_SIZE);
  }

  /** Up to 524288 chunks the search always finds the most there are, as the descriptors take 1024 blocks. */
  lemma MostOfFew(chunkSize: nat, free: int)
    requires chunkSize > 0 && Fits(chunkSize, chunkSize, free) && free < 524289 * chunkSize
    ensures MostChunks(chunkSize, free)
  {
    hide PartitionBlocks;
    var d1 := Left(chunkSize, chunkSize, free);
    OneChunk(chunkSize);
    FewChunks(d1, chunkSize);
    PartitionMonotone(chunkSize, d1, chunkSize);
    SomeBlocks((Chunks(free - VOLUME_SIZE_ROUNDING, chunkSize) + 1) * chunkSize, chunkSize);
    MostChunksIff(chunkSize, free);
  }

  lemma FewChunks(d: int, chunkSize: nat)
    requires chunkSize > 0 && d < 524289 * chunkSize
    ensures PartitionBlocks(d, chunkSize) == VOLUME_SIZE_ROUNDING
  {
    hide LevelBlocks, Order;
    PartitionIs(d, chunkSize);
    var n := Chunks(d, chunkSize);
    if d >= 0 {
      DivideMonotone(d, 524289 * chunkSize - 1, chunkSize);
      Place(524289 * chunkSize - 1, 524288, chunkSize - 1, chunkSize);
    }
    OrderBounds(n);
    PowerFifteen();
    if Order(n) >= 21 { PowerGrows(19, Order(n) - 2); }
    FewLevels(Order(n));
  }

  /** The chunks that jmfs uses are large enough for that on any drive of up to 2^32 blocks. */
  lemma MostOnDrive(free: int)
    requires Fits(20480, 20480, free) && free < 0x1_0000_0000
    ensures MostChunks(20480, free)
  {
    hide MostChunks, PartitionBlocks;
    MostOfFew(20480, free);
  }
}
