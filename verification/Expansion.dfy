/** Sizing and placing the zone that a disk is expanded by, and the boundary check it has to pass. */
module Expansion {
  import opened Arithmetic
  import opened Wrappers
  import opened Zones
  import opened ZoneSizes
  import opened Views

  /* ---------- the boundary check ---------- */

  /** The disk and the partition of a logical block. */
  function DiskOf(infos: seq<Info>, block: int): Option<string> {
    match FindLogical(infos, block)
    case None => None
    case Some(i) => i.storage
  }

  function PartitionOf(infos: seq<Info>, block: int): int {
    match FindLogical(infos, block)
    case None => -1
    case Some(i) => i.partition
  }

  /** The ranges of a zone: its descriptor, the backup of that, and its data. */
  datatype Ranges = Ranges(descriptor: int, backup: int, descriptorSize: int, data: int, dataEnd: int, dataSize: int)

  function RangesOf(z: Zone64): Ranges
    reads z
  {
    Ranges(z.descriptorStartBlock, z.backupStartBlock, z.descriptorSize, z.dataStartBlocks, z.dataEndBlock, z.dataSize)
  }

  /** Two blocks lie on one known disk. */
  predicate SameDisk(infos: seq<Info>, a: int, b: int) {
    DiskOf(infos, a).Some? && DiskOf(infos, a) == DiskOf(infos, b)
  }

  /** Descriptor and backup lie on one partition of one disk, and so does the data, whose size is right. */
  predicate Bounded(infos: seq<Info>, z: Ranges) {
    && SameDisk(infos, z.descriptor, z.descriptor + z.descriptorSize - 1)
    && SameDisk(infos, z.descriptor, z.backup)
    && SameDisk(infos, z.backup, z.backup + z.descriptorSize - 1)
    && SameDisk(infos, z.data, z.dataEnd)
    && PartitionOf(infos, z.descriptor) == PartitionOf(infos, z.descriptor + z.descriptorSize - 1)
    && PartitionOf(infos, z.descriptor) == PartitionOf(infos, z.backup)
    && PartitionOf(infos, z.backup) == PartitionOf(infos, z.backup + z.descriptorSize - 1)
    && PartitionOf(infos, z.data) == PartitionOf(infos, z.dataEnd)
    && z.dataEnd == z.data + z.dataSize - 1
  }

  datatype BoundaryError =
    | ZoneOffDisks | ZoneEndOffDisks | ZoneCrossesDisks | BackupOffDisks | BackupOnOtherDisk
    | BackupEndOffDisks | BackupCrossesDisks | DataOffDisks | DataEndOffDisks | DataCrossesDisks
    | ZoneCrossesPartitions | BackupOnOtherPartition | BackupCrossesPartitions | DataCrossesPartitions | WrongDataSize

  method ValidateZoneBoundary(infos: seq<Info>, z: Ranges) returns (r: Result<(), BoundaryError>)
    ensures r.Ok? <==> Bounded(infos, z)
  {
    hide DiskOf, PartitionOf;
    var s1 := DiskOf(infos, z.descriptor);
    if s1.None? { return Err(ZoneOffDisks); }
    var s2 := DiskOf(infos, z.descriptor + z.descriptorSize - 1);
    if s2.None? { return Err(ZoneEndOffDisks); }
    if s1 != s2 { return Err(ZoneCrossesDisks); }
    s1 := DiskOf(infos, z.backup);
    if s1.None? { return Err(BackupOffDisks); }
    if s1 != s2 { return Err(BackupOnOtherDisk); }
    s2 := DiskOf(infos, z.backup + z.descriptorSize - 1);
    if s2.None? { return Err(BackupEndOffDisks); }
    if s1 != s2 { return Err(BackupCrossesDisks); }
    s1 := DiskOf(infos, z.data);
    if s1.None? { return Err(DataOffDisks); }
    s2 := DiskOf(infos, z.dataEnd);
    if s2.None? { return Err(DataEndOffDisks); }
    if s1 != s2 { return Err(DataCrossesDisks); }
    var p1, p2 := PartitionOf(infos, z.descriptor), PartitionOf(infos, z.descriptor + z.descriptorSize - 1);
    if p1 != p2 { return Err(ZoneCrossesPartitions); }
    p1 := PartitionOf(infos, z.backup);
    if p1 != p2 { return Err(BackupOnOtherPartition); }
    p2 := PartitionOf(infos, z.backup + z.descriptorSize - 1);
    if p1 != p2 { return Err(BackupCrossesPartitions); }
    p1 := PartitionOf(infos, z.data);
    p2 := PartitionOf(infos, z.dataEnd);
    if p1 != p2 { return Err(DataCrossesPartitions); }
    if z.dataEnd != z.data + z.dataSize - 1 { return Err(WrongDataSize); }
    return Ok(());
  }

  /** All the zone's ranges are disjoint and lie in the logical blocks start..end-1. */
  predicate Placed(z: Ranges, start: int, end: int) {
    && start <= z.descriptor && 0 < z.descriptorSize && 0 < z.dataSize
    && z.descriptor + z.descriptorSize <= z.backup && z.backup + z.descriptorSize <= z.data
    && z.dataEnd == z.data + z.dataSize - 1 && z.dataEnd < end
  }

  /** Descriptor and backup at the beginning, the data from the next multiple of the rounding on, and no room for one more chunk. */
  predicate Tight(z: Ranges, start: int, end: int, chunkSize: nat) {
    && z.descriptor == start && z.backup == start + z.descriptorSize
    && (z.data - start) % VOLUME_SIZE_ROUNDING == 0 && z.backup + z.descriptorSize <= z.data
    && z.data < z.backup + z.descriptorSize + VOLUME_SIZE_ROUNDING
    && end < z.data + z.dataSize + chunkSize
  }

  lemma InLast(infos: seq<Info>, block: int)
    requires |infos| > 0 && Tiled(infos, 1)
    requires HasLogical(infos[|infos| - 1], block)
    ensures FindLogical(infos, block) == Some(infos[|infos| - 1])
  {
    OnlyExtent(infos, 1, |infos| - 1, block);
  }

  /** A zone placed inside the last extent of the view passes the check. */
  lemma PlacedIsBounded(infos: seq<Info>, z: Ranges)
    requires |infos| > 0 && Tiled(infos, 1) && infos[|infos| - 1].storage.Some?
    requires var l := infos[|infos| - 1].logical; Placed(z, l.start, l.start + l.length)
    ensures Bounded(infos, z)
  {
    hide FindLogical, Tiled;
    InLast(infos, z.descriptor);
    InLast(infos, z.descriptor + z.descriptorSize - 1);
    InLast(infos, z.backup);
    InLast(infos, z.backup + z.descriptorSize - 1);
    InLast(infos, z.data);
    InLast(infos, z.dataEnd);
  }

  function RoundDown(n: nat, unit: nat): nat
    requires unit > 0
  {
    n - n % unit
  }

  lemma {:induction false} DescriptorNotEmpty(chunks: nat)
    ensures DescriptorBlocks(chunks) > 0
  {
    hide Order, TableInts;
    RoundUpIs(DescriptorBytes(Order(chunks)), BLOCK_SIZE);
    DivideMonotone(BLOCK_SIZE, RoundUp(DescriptorBytes(Order(chunks)), BLOCK_SIZE), BLOCK_SIZE);
  }

  lemma RoundDownKeeps(m: nat, n: nat, unit: nat)
    requires unit > 0 && m <= n && m % unit == 0
    ensures m <= RoundDown(n, unit) <= n
  {
    DivideMonotone(m, n, unit);
    Exact(m, unit);
    Times(m / unit, n / unit, unit);
  }

  lemma Product(a: int, b: int, c: int)
    ensures a * b * c == a * c * b
  {
  }

  lemma SumOfMultiples(m: nat, q: nat, chunk: nat, unit: nat)
    requires unit > 0 && m % unit == 0 && chunk % unit == 0
    ensures (m + chunk * q) % unit == 0
  {
    var k := m / unit + chunk / unit * q;
    Exact(m, unit);
    Exact(chunk, unit);
    Product(chunk / unit, unit, q);
    assert m + chunk * q == k * unit;
    Multiple(k, unit);
  }

  /**
   * With a chunk size that MFS rounding divides, the zone for the sizes found lies in the new extent of
   * the MFS, which is cut down to a multiple of the rounding.
   */
  lemma SizesArePlaced(s: SizeSet, chunkSize: nat, free: int, start: nat)
    requires chunkSize > 0 && chunkSize % VOLUME_SIZE_ROUNDING == 0
    requires Found(s, chunkSize, free)
    ensures Placed(NewRanges(s, chunkSize, start), start, start + RoundDown(s.partition + s.data, VOLUME_SIZE_ROUNDING))
    ensures Tight(NewRanges(s, chunkSize, start), start, start + RoundDown(s.partition + s.data, VOLUME_SIZE_ROUNDING), chunkSize)
  {
    hide DescriptorBlocks, RoundUp, RoundDown;
    var size := chunkSize * (s.data / chunkSize);
    DescriptorNotEmpty(Chunks(s.data, chunkSize));
    RoundUpIs(2 * s.descriptor, VOLUME_SIZE_ROUNDING);
    WholeChunks(s.data, chunkSize);
    DivideMonotone(chunkSize, s.data, chunkSize);
    Multiple(1, chunkSize);
    assert size >= chunkSize;
    SumOfMultiples(s.partition, s.data / chunkSize, chunkSize, VOLUME_SIZE_ROUNDING);
    RoundDownKeeps(s.partition + size, s.partition + s.data, VOLUME_SIZE_ROUNDING);
  }

  /** The ranges a new zone has for the sizes found. */
  function NewRanges(s: SizeSet, chunkSize: nat, start: nat): Ranges
    requires chunkSize > 0
  {
    var size := chunkSize * (s.data / chunkSize);
    Ranges(start, start + s.descriptor, s.descriptor, start + s.partition, start + s.partition + size - 1, size)
  }

  /** Builds the zone at the start of the view's last extent and checks its boundaries, which succeeds. */
  method AddZone(infos: seq<Info>, start: nat, s: SizeSet, chunkSize: nat, baseFsPointer: nat)
    returns (r: Result<Zone64, string>)
    requires chunkSize > 0 && s.data >= 0 && s.descriptor == DescriptorBlocks(Chunks(s.data, chunkSize))
    requires Bounded(infos, NewRanges(s, chunkSize, start))
    ensures r.Ok? && fresh(r.value) && r.value.Valid() && r.value.New(s.data / chunkSize)
    ensures RangesOf(r.value) == NewRanges(s, chunkSize, start)
  {
    hide Bounded, RoundUp, DescriptorBytes, Order, Zone64.Valid;
    var z := new Zone64(start, start + s.partition, s.data, chunkSize, baseFsPointer);
    var ranges := RangesOf(z);
    assert ranges == NewRanges(s, chunkSize, start);
    var valid := ValidateZoneBoundary(infos, ranges);
    return Ok(z);
  }

  lemma AddedIsBounded(infos: seq<Info>, s: SizeSet, chunkSize: nat, free: int, start: nat)
    requires chunkSize > 0 && chunkSize % VOLUME_SIZE_ROUNDING == 0
    requires Found(s, chunkSize, free) && |infos| > 0 && Tiled(infos, 1) && infos[|infos| - 1].storage.Some?
    requires infos[|infos| - 1].logical == Extent(start, RoundDown(s.partition + s.data, VOLUME_SIZE_ROUNDING))
    ensures Bounded(infos, NewRanges(s, chunkSize, start))
    ensures var end := start + RoundDown(s.partition + s.data, VOLUME_SIZE_ROUNDING);
            Placed(NewRanges(s, chunkSize, start), start, end) && Tight(NewRanges(s, chunkSize, start), start, end, chunkSize)
  {
    hide Bounded, Placed, Tight, Found, Tiled, RoundDown;
    SizesArePlaced(s, chunkSize, free, start);
    PlacedIsBounded(infos, NewRanges(s, chunkSize, start));
  }

  /** The blocks of a data chunk in a zone that is added. */
  const CHUNK_SIZE: nat := 20480

  /** The blocks of the partition that is added: descriptors and data, rounded down as MFS does. */
  function NewLength(free: int): nat {
    var data := DataFound(CHUNK_SIZE, free);
    var size := PartitionBlocks(data, CHUNK_SIZE) + data;
    if size < 0 then 0 else RoundDown(size, VOLUME_SIZE_ROUNDING)
  }

  /**
   * Adds a partition and a zone that take up the free space of a disk. There is no zone when one chunk
   * does not fit or the view refuses the partition, and otherwise its boundary check passes.
   */
  method Add(mfs: ContinuousLogicalView, disk: string, number: int, free: nat, freeStart: nat, baseFsPointer: nat)
    returns (r: Result<Zone64, string>)
    requires mfs.Valid() && mfs.scale == 1
    modifies mfs`storage
    ensures mfs.Valid()
    ensures r.Err? <==> !Fits(CHUNK_SIZE, CHUNK_SIZE, free) || EndTaken(old(mfs.storage), Some(disk), Extent(freeStart, NewLength(free)))
    ensures mfs.storage == old(mfs.storage) + if r.Err? then [] else
              [Info(Some(disk), number, Extent(freeStart, NewLength(free)), Extent(Size(old(mfs.storage)), NewLength(free)))]
    ensures r.Ok? ==> Bounded(mfs.storage, RangesOf(r.value))
    ensures r.Ok? ==> Placed(RangesOf(r.value), Size(old(mfs.storage)), Size(mfs.storage))
    ensures r.Ok? ==> Tight(RangesOf(r.value), Size(old(mfs.storage)), Size(mfs.storage), CHUNK_SIZE)
    ensures r.Ok? ==> r.value.Valid() && r.value.New(r.value.dataSize / CHUNK_SIZE)
  {
    hide Fits, Bounded, Placed, Tight, Found, PartitionBlocks, DataFound, Tiled, RoundDown, Zone64.Valid, Zone64.New, NewRanges, EndTaken, DescriptorBlocks;
    var logicalStart := ViewSize(mfs);
    var sizes := CalcSizes(free, CHUNK_SIZE);
    if sizes.Err? {
      assert mfs.storage == old(mfs.storage) + [];
      return Err(sizes.error);
    }
    var s := sizes.value;
    FoundIs(s, CHUNK_SIZE, free);
    var size := RoundDown(s.partition + s.data, VOLUME_SIZE_ROUNDING);
    var added := mfs.AddStorage(Some(disk), number, Extent(freeStart, size));
    if added.Err? {
      assert mfs.storage == old(mfs.storage) + [];
      return Err(added.error);
    }
    assert size / mfs.scale == size;
    AddedIsBounded(mfs.storage, s, CHUNK_SIZE, free, logicalStart);
    NewRangesChunks(s, CHUNK_SIZE, logicalStart);
    r := AddZone(mfs.storage, logicalStart, s, CHUNK_SIZE, baseFsPointer);
  }

  lemma FoundIs(s: SizeSet, chunkSize: nat, free: int)
    requires chunkSize > 0 && s.data >= chunkSize && Fits(s.data, chunkSize, free)
    requires s.partition == PartitionBlocks(s.data, chunkSize)
    requires s.descriptor == DescriptorBlocks(Chunks(s.data, chunkSize))
    ensures Found(s, chunkSize, free)
  {
  }

  lemma NewRangesChunks(s: SizeSet, chunkSize: nat, start: nat)
    requires chunkSize > 0 && s.data >= 0
    ensures NewRanges(s, chunkSize, start).dataSize / chunkSize == s.data / chunkSize
  {
    WholeChunks(s.data, chunkSize);
  }

  method ViewSize(view: ContinuousLogicalView) returns (size: nat)
    requires view.Valid()
    ensures size == Size(view.storage)
  {
    var infos := view.storage;
    assert infos[..|infos|] == infos && infos[..0] == [];
    SizeGrows(infos, view.scale, 0, |infos|);
    return Size(infos);
  }
}
