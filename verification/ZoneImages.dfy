/** The bytes of a new zone: they fill its descriptor exactly, and its pointers are where its bitmaps lie. */
module ZoneImages {
  import opened Arithmetic
  import opened Wrappers
  import opened ByteOrder
  import opened ZoneFormat
  import opened ZoneLevels
  import B = Bitmaps
  import Z = Zones
  import ZoneStreams
  import Crc

  function LongOf(n: int): Long { Long(Int(n / 0x1_0000_0000), Int(n)) }

  function MapOf(b: B.Bitmap): Map
    reads b, b.bitmap
  {
    Map(Int(b.blocks), Int(b.freeBlocks), Int(b.last), Int(b.size), b.bitmap[..])
  }

  ghost predicate MapsOf(maps: seq<Map>, bmps: seq<B.Bitmap>)
    reads bmps, set b | b in bmps :: b.bitmap
  {
    |maps| == |bmps| && forall i {:trigger maps[i]} :: 0 <= i < |maps| ==> maps[i] == MapOf(bmps[i])
  }

  /** The image of a zone, with a given next zone and type. */
  ghost predicate ImageOf(x: Image, z: Z.Zone64)
    reads z, z.bitmaps, set b | b in z.bitmaps :: b.bitmap
  {
    && x.header.descriptorStart == LongOf(z.descriptorStartBlock) && x.header.backupStart == LongOf(z.backupStartBlock)
    && x.header.dataStart == LongOf(z.dataStartBlocks) && x.header.dataEnd == LongOf(z.dataEndBlock)
    && x.header.dataSize == LongOf(z.dataSize) && x.header.freeData == LongOf(z.freeDataBlocks)
    && x.header.descriptorSize == Int(z.descriptorSize) && x.header.min == Int(z.min)
    && x.header.logStamp == Int(z.logStamp) && x.header.zero == Int(z.zero) && x.header.num == Int(z.num)
    && |x.pointers| == |z.ints| && (forall i {:trigger x.pointers[i]} :: 0 <= i < |z.ints| ==> x.pointers[i] == Int(z.ints[i]))
    && MapsOf(x.maps, z.bitmaps) && x.extra == None
  }

  lemma SignedInt(n: nat)
    requires n < 0x8000_0000
    ensures Signed(Int(n)) == n && Value(Int(n)) == n
  {
    hide Int, Value;
    ValueOfInt(n);
  }

  /** A bitmap's header gives its words, as long as its bits can be counted in an int. */
  lemma MapCounted(b: B.Bitmap)
    requires b.Valid() && b.blocks < 0x4000_0001
    ensures Counted(MapOf(b)) && |MapBytes(MapOf(b))| == 16 + 4 * B.IntSize(b.size, b.blocks)
  {
    hide Int, Value, Signed, WordCount, B.IntSize;
    SignedInt(b.size);
    SignedInt(b.blocks);
    WordCountIs(Int(b.blocks), Int(b.size), b.size, b.blocks);
  }

  lemma WordCountIs(blocks: bv32, size: bv32, s: nat, b: nat)
    requires Signed(size) == s && Value(blocks) == b
    ensures WordCount(blocks, size) == B.IntSize(s, b)
  {
  }

  /** The bytes of bitmaps one after the other. */
  lemma {:induction false} MapsLength(maps: seq<Map>, bmps: seq<B.Bitmap>, n: nat)
    requires MapsOf(maps, bmps) && n <= |bmps|
    requires forall b :: b in bmps ==> b.Valid() && b.blocks < 0x4000_0001
    ensures |MapsBytes(maps[..n])| == Z.MapOffset(bmps, n) - 4 * |bmps|
  {
    hide MapBytes, MapOf, Counted, B.IntSize;
    if n == 0 {
    } else {
      assert maps[..n][..n - 1] == maps[..n - 1];
      MapsLength(maps, bmps, n - 1);
      assert maps[n - 1] == MapOf(bmps[n - 1]);
      MapCounted(bmps[n - 1]);
    }
  }

  /** Where a bitmap starts in a written zone. */
  lemma {:induction false} MapsAt(maps: seq<Map>, i: nat)
    requires i < |maps|
    ensures |MapsBytes(maps[..i])| + |MapBytes(maps[i])| <= |MapsBytes(maps)|
    ensures MapsBytes(maps)[|MapsBytes(maps[..i])|..|MapsBytes(maps[..i])| + |MapBytes(maps[i])|] == MapBytes(maps[i])
    decreases |maps|
  {
    hide MapBytes;
    var n := |maps| - 1;
    if i < n {
      MapsAt(maps[..n], i);
      assert maps[..n][..i] == maps[..i];
      var lo := |MapsBytes(maps[..i])|;
      var hi := lo + |MapBytes(maps[i])|;
      assert MapsBytes(maps)[lo..hi] == MapsBytes(maps[..n])[lo..hi];
    }
  }

  /**
   * In the written zone the pointer of bitmap i, counted from the first one, is where its bytes lie
   * after the header.
   */
  lemma PointersPoint(x: Image, bmps: seq<B.Bitmap>, i: nat)
    requires MapsOf(x.maps, bmps) && i < |bmps| == |x.pointers|
    requires forall b :: b in bmps ==> b.Valid() && b.blocks < 0x4000_0001
    ensures var at := 4 * HEADER_WORDS + Z.MapOffset(bmps, i);
            && at + |MapBytes(x.maps[i])| <= |ZoneBytes(x)|
            && ZoneBytes(x)[at..at + |MapBytes(x.maps[i])|] == MapBytes(x.maps[i])
  {
    hide MapBytes, MapOf, MapsBytes, HeaderInts, Ints, Tail, Z.MapOffset;
    HeaderBack(x.header);
    MapsLength(x.maps, bmps, i);
    MapsAt(x.maps, i);
    var head := Ints(HeaderInts(x.header)) + Ints(x.pointers);
    assert ZoneBytes(x) == head + MapsBytes(x.maps) + Tail(x);
    SliceOf(head, MapsBytes(x.maps), Tail(x), |MapsBytes(x.maps[..i])|, |MapBytes(x.maps[i])|);
  }

  lemma SliceOf(a: seq<bv8>, b: seq<bv8>, c: seq<bv8>, lo: nat, n: nat)
    requires lo + n <= |b|
    ensures (a + b + c)[|a| + lo..|a| + lo + n] == b[lo..lo + n]
  {
  }

  /** So pointers differ by as much as the bitmaps are apart, as 32-bit numbers. */
  lemma PointersDiffer(ints: seq<nat>, bmps: seq<B.Bitmap>, base: nat, i: nat, j: nat)
    requires Z.Pointers(ints, bmps, base) && i < |bmps| && j < |bmps|
    ensures Z.Wrap((ints[j] as int) - (ints[i] as int)) == Z.Wrap((Z.MapOffset(bmps, j) as int) - (Z.MapOffset(bmps, i) as int))
  {
    hide Z.MapOffset;
    WrapDifference(base + Z.MapOffset(bmps, j), base + Z.MapOffset(bmps, i));
  }

  lemma WrapDifference(m: int, n: int)
    ensures Z.Wrap(Z.Wrap(m) - Z.Wrap(n)) == Z.Wrap(m - n)
  {
  }

  /* ---------- the size of a new zone ---------- */

  lemma LevelBytes(b: B.Bitmap, i: nat)
    requires b.Valid() && b.blocks == Power(i)
    ensures Z.MapBytes(b) == 16 + 4 * ((Power(i) + 57) / 32)
  {
    hide B.IntSize, Power;
    Z.EstimateIsSize(i);
  }

  /** What bitmaps from a level on still take is what the estimate has for the smaller levels. */
  lemma {:induction false} LevelsTake(bmps: seq<B.Bitmap>, n: nat, i: nat)
    requires Z.Halved(bmps, n) && i <= n && forall b :: b in bmps ==> b.Valid()
    ensures Z.MapOffset(bmps, i) == 4 * n + 16 * i + 4 * Z.TableInts(n) - 4 * Z.TableInts(n - i)
  {
    hide Power, Z.MapBytes;
    if i == 0 {
    } else {
      LevelsTake(bmps, n, i - 1);
      LevelBytes(bmps[i - 1], n - i);
      assert Z.TableInts(n - i + 1) == Z.TableInts(n - i) + (Power(n - i) + 57) / 32;
    }
  }

  lemma RoundUpBlocks(n: nat)
    ensures n <= Z.BLOCK_SIZE * (Z.RoundUp(n, Z.BLOCK_SIZE) / Z.BLOCK_SIZE)
  {
  }

  lemma PowerThirty()
    ensures Power(30) == 0x4000_0000
  {
    Z.PowerMultiple(25);
    Z.PowerMultiple(20);
    Z.PowerMultiple(15);
    Z.PowerMultiple(10);
    Z.PowerMultiple(5);
    Z.PowerMultiple(0);
    assert Power(0) == 1;
  }

  lemma FewLevels(bmps: seq<B.Bitmap>, n: nat)
    requires Z.Halved(bmps, n) && n <= 31
    ensures forall b :: b in bmps ==> b.blocks < 0x4000_0001
  {
    hide Power;
    PowerThirty();
    forall i | 0 <= i < n ensures bmps[i].blocks < 0x4000_0001 {
      Z.PowerGrows(n - 1 - i, 30);
    }
  }

  lemma BodyLength(x: Image, bmps: seq<B.Bitmap>, n: nat)
    requires MapsOf(x.maps, bmps) && |x.pointers| == |bmps| && Z.Halved(bmps, n) && n <= 31
    requires forall b :: b in bmps ==> b.Valid()
    ensures |Body(x)| == Z.DescriptorBytes(n) - 4 * n
  {
    assert Z.TableInts(0) == 0;
    hide Power, Z.MapOffset, MapsBytes, HeaderInts, Ints, Z.TableInts, MapOf, B.IntSize;
    FewLevels(bmps, n);
    HeaderBack(x.header);
    assert x.maps[..n] == x.maps;
    MapsLength(x.maps, bmps, n);
    LevelsTake(bmps, n, n);
  }

  /**
   * A new zone takes exactly the blocks of its descriptor: what it holds leaves room for padding, at
   * least the word for each bitmap that the size allows for and nothing uses.
   */
  lemma NewZoneFills(x: Image, bmps: seq<B.Bitmap>, n: nat, descriptorSize: nat)
    requires MapsOf(x.maps, bmps) && |x.pointers| == |bmps| && Z.Halved(bmps, n) && n <= 31
    requires forall b :: b in bmps ==> b.Valid()
    requires descriptorSize == Z.RoundUp(Z.DescriptorBytes(n), Z.BLOCK_SIZE) / Z.BLOCK_SIZE
    requires descriptorSize < 0x1_0000_0000 && x.header.descriptorSize == Int(descriptorSize) && x.extra == None
    ensures |Body(x)| + 4 * n <= 512 * descriptorSize && |ZoneBytes(x)| == 512 * descriptorSize
  {
    hide Body, Value, Int, Z.RoundUp, Z.DescriptorBytes, MapsOf, Z.Halved;
    BodyLength(x, bmps, n);
    RoundUpBlocks(Z.DescriptorBytes(n));
    ValueOfInt(descriptorSize);
  }

  /** And it can be written and read again. */
  lemma NewZoneConsistent(x: Image, bmps: seq<B.Bitmap>, n: nat)
    requires MapsOf(x.maps, bmps) && |x.pointers| == |bmps| && Z.Halved(bmps, n) && n <= 31
    requires forall b :: b in bmps ==> b.Valid()
    requires x.header.num == Int(n) && Value(x.header.kind) <= 2
    ensures Consistent(x)
  {
    hide Power, Value, Signed, Int, Counted, MapOf, B.IntSize;
    FewLevels(bmps, n);
    SignedInt(n);
    forall i | 0 <= i < n ensures Counted(x.maps[i]) {
      MapCounted(bmps[i]);
    }
  }

  method Maps(bmps: seq<B.Bitmap>) returns (maps: seq<Map>)
    ensures MapsOf(maps, bmps)
  {
    hide MapOf;
    maps := [];
    while |maps| < |bmps|
      invariant |maps| <= |bmps| && forall i {:trigger maps[i]} :: 0 <= i < |maps| ==> maps[i] == MapOf(bmps[i])
    {
      maps := maps + [MapOf(bmps[|maps|])];
    }
  }

  method PointerWords(ints: seq<nat>) returns (ws: seq<bv32>)
    ensures |ws| == |ints| && forall i {:trigger ws[i]} :: 0 <= i < |ints| ==> ws[i] == Int(ints[i])
  {
    hide Int;
    ws := [];
    while |ws| < |ints|
      invariant |ws| <= |ints| && forall i {:trigger ws[i]} :: 0 <= i < |ws| ==> ws[i] == Int(ints[i])
    {
      ws := ws + [Int(ints[|ws|])];
    }
  }

  /** The fields of a zone as they are written; there is no next zone yet. */
  method Snapshot(z: Z.Zone64, kind: bv32) returns (x: Image)
    ensures ImageOf(x, z) && x.header.kind == kind
  {
    hide Int, LongOf, MapsOf;
    var none := Long(0, 0);
    var header := Header(LongOf(z.descriptorStartBlock), LongOf(z.backupStartBlock), none, none, none,
                         LongOf(z.dataStartBlocks), LongOf(z.dataEndBlock), LongOf(z.dataSize), LongOf(z.freeDataBlocks),
                         0, Int(z.descriptorSize), Int(z.min), 0, Int(z.logStamp), kind, 0, Int(z.zero), Int(z.num));
    var pointers := PointerWords(z.ints);
    var maps := Maps(z.bitmaps);
    x := Image(header, pointers, maps, None);
  }

  /**
   * Writes a new zone: as many bytes as its descriptor has blocks for, with a valid checksum, which
   * read back as the same fields, pointers and bitmaps.
   */
  method WriteNew(z: Z.Zone64, ghost chunks: nat, kind: bv32) returns (bytes: seq<bv8>, ghost stored: Image)
    requires z.Valid() && z.New(chunks) && |z.ints| == |z.bitmaps| && Value(kind) <= 2
    requires z.num <= 31 && 512 * z.descriptorSize <= Crc.INT_MAX
    ensures |bytes| == 512 * z.descriptorSize
    ensures ImageOf(stored, z) && stored.header.checksum == Crc.FieldCrc(bytes, CRC_OFFSET)
    ensures ParseZone(bytes) == Some(stored.(extra := if |Tail(stored)| > 0 then Some(Tail(stored)) else None))
  {
    hide Value, Int, ZoneBytes, Tail, ParseZone, Consistent, MapsOf, LongOf, Crc.FieldCrc, Z.Zone64.Valid, Z.Zone64.New;
    var x := Snapshot(z, kind);
    NewParts(z, chunks);
    NewZoneConsistent(x, z.bitmaps, z.num);
    NewZoneFills(x, z.bitmaps, z.num, z.descriptorSize);
    var written, after := ZoneStreams.WriteChecked(x);
    bytes, stored := written, after;
    ZoneStreams.WriteThenRead(x);
    StampedBytes(x, after.header.checksum);
  }

  lemma NewParts(z: Z.Zone64, chunks: nat)
    requires z.Valid() && z.New(chunks)
    ensures Z.Halved(z.bitmaps, z.num) && forall b :: b in z.bitmaps ==> b.Valid()
    ensures z.descriptorSize == Z.RoundUp(Z.DescriptorBytes(z.num), Z.BLOCK_SIZE) / Z.BLOCK_SIZE
  {
    hide Z.DescriptorBytes, Z.RoundUp, Z.Halved, Power, B.IntSize, NewLevels, Z.FreeChunks, Z.Order;
  }
}
