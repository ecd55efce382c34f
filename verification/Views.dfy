/**
 * Address translation in layers: a view lays physical extents end to end into one logical range, one
 * logical block standing for one physical block, or for two in the view of inodes.
 */
module Views {
  import opened Arithmetic
  import opened Wrappers

  datatype Extent = Extent(start: int, length: nat) {
    function EndBlock(): int { start + length - 1 }

    predicate ContainsBlock(block: int) { start <= block && EndBlock() >= block }
  }

  /** A partition of a storage; the storage of a view over another view has no name. */
  datatype Info = Info(storage: Option<string>, partition: int, physical: Extent, logical: Extent)

  datatype Address = Address(storage: Option<string>, block: int)

  /** The logical extents lie end to end from zero, each with the length of its physical one in logical blocks. */
  ghost predicate Tiled(infos: seq<Info>, scale: nat)
    requires scale > 0
  {
    forall i {:trigger infos[i]} :: 0 <= i < |infos| ==>
      infos[i].logical == Extent(Size(infos[..i]), infos[i].physical.length / scale)
  }

  function Size(infos: seq<Info>): int {
    if infos == [] then 0 else infos[|infos| - 1].logical.EndBlock() + 1
  }

  predicate Overlap(a: Info, b: Info) {
    && a.storage == b.storage && a.physical.length > 0 && b.physical.length > 0
    && a.physical.start <= b.physical.EndBlock() && b.physical.start <= a.physical.EndBlock()
  }

  ghost predicate Separate(infos: seq<Info>) {
    forall i, j {:trigger infos[i], infos[j]} :: 0 <= i < j < |infos| ==> !Overlap(infos[i], infos[j])
  }

  /** Each extent holds whole logical blocks. */
  ghost predicate Whole(infos: seq<Info>, scale: nat)
    requires scale > 0
  {
    forall i {:trigger infos[i]} :: 0 <= i < |infos| ==> infos[i].physical.length % scale == 0
  }

  predicate HasLogical(i: Info, block: int) { i.logical.ContainsBlock(block) }

  predicate HasPhysical(i: Info, storage: Option<string>, block: int) {
    i.storage == storage && i.physical.ContainsBlock(block)
  }

  /** The first extent with a logical block. */
  function FindLogical(infos: seq<Info>, block: int): Option<Info> {
    if infos == [] then None
    else if HasLogical(infos[0], block) then Some(infos[0]) else FindLogical(infos[1..], block)
  }

  function FindPhysical(infos: seq<Info>, storage: Option<string>, block: int): Option<Info> {
    if infos == [] then None
    else if HasPhysical(infos[0], storage, block) then Some(infos[0]) else FindPhysical(infos[1..], storage, block)
  }

  function LogicalOf(i: Info, scale: nat, block: int): int
    requires scale > 0
  {
    (block - i.physical.start) / scale + i.logical.start
  }

  function FirstBlock(i: Info, scale: nat, block: int): int {
    (block - i.logical.start) * scale + i.physical.start
  }

  /** The logical block that stands for a physical one. */
  function ToLogical(infos: seq<Info>, scale: nat, storage: Option<string>, block: int): Option<int>
    requires scale > 0
  {
    match FindPhysical(infos, storage, block)
    case None => None
    case Some(i) => Some(LogicalOf(i, scale, block))
  }

  /** The first physical block of a logical one. */
  function ToPhysical(infos: seq<Info>, scale: nat, block: int): Option<Address>
    requires scale > 0
  {
    match FindLogical(infos, block)
    case None => None
    case Some(i) => Some(Address(i.storage, FirstBlock(i, scale, block)))
  }

  class ContinuousLogicalView {
    var storage: seq<Info>
    const scale: nat

    ghost predicate Valid()
      reads this
    {
      scale > 0 && Tiled(storage, scale)
    }

    constructor (scale: nat)
      requires scale > 0
      ensures Valid() && storage == [] && this.scale == scale
    {
      this.scale := scale;
      storage := [];
    }

    method GetLogical(block: int) returns (info: Option<Info>)
      ensures info == FindLogical(storage, block)
    {
      var i := 0;
      while i < |storage|
        invariant 0 <= i <= |storage| && FindLogical(storage, block) == FindLogical(storage[i..], block)
      {
        if storage[i].logical.ContainsBlock(block) { return Some(storage[i]); }
        i := i + 1;
      }
      return None;
    }

    method GetPhysical(disk: Option<string>, block: int) returns (info: Option<Info>)
      ensures info == FindPhysical(storage, disk, block)
    {
      var i := 0;
      while i < |storage|
        invariant 0 <= i <= |storage| && FindPhysical(storage, disk, block) == FindPhysical(storage[i..], disk, block)
      {
        if storage[i].storage == disk && storage[i].physical.ContainsBlock(block) { return Some(storage[i]); }
        i := i + 1;
      }
      return None;
    }

    /** Appends an extent, refused when either of its end blocks lies in an extent of the same storage. */
    method AddStorage(disk: Option<string>, partition: int, physical: Extent) returns (r: Result<Extent, string>)
      requires Valid()
      modifies this`storage
      ensures Valid()
      ensures r.Err? <==> EndTaken(old(storage), disk, physical)
      ensures r.Err? ==> storage == old(storage)
      ensures r.Ok? ==> storage == old(storage) + [Info(disk, partition, physical, r.value)]
      ensures r.Ok? ==> r.value == Extent(Size(old(storage)), physical.length / scale)
    {
      var p := GetPhysical(disk, physical.start);
      FindPhysicalIs(storage, disk, physical.start);
      FindPhysicalIs(storage, disk, physical.EndBlock());
      if p.None? {
        p := GetPhysical(disk, physical.EndBlock());
      }
      if p.Some? { return Err("Extents overlap"); }
      var logical := Extent(Size(storage), physical.length / scale);
      storage := storage + [Info(disk, partition, physical, logical)];
      TiledMore(old(storage), scale, storage[|storage| - 1]);
      return Ok(logical);
    }
  }

  /** Some extent of the storage has one of the end blocks. */
  ghost predicate EndTaken(infos: seq<Info>, storage: Option<string>, physical: Extent) {
    exists i {:trigger infos[i]} :: 0 <= i < |infos| &&
      (HasPhysical(infos[i], storage, physical.start) || HasPhysical(infos[i], storage, physical.EndBlock()))
  }

  lemma TiledMore(infos: seq<Info>, scale: nat, i: Info)
    requires scale > 0 && Tiled(infos, scale)
    requires i.logical == Extent(Size(infos), i.physical.length / scale)
    ensures Tiled(infos + [i], scale)
  {
    forall k {:trigger (infos + [i])[k]} | 0 <= k < |infos| ensures (infos + [i])[..k] == infos[..k] {
    }
    assert (infos + [i])[..|infos|] == infos;
  }

  lemma {:induction false} FindPhysicalIs(infos: seq<Info>, storage: Option<string>, block: int)
    ensures var r := FindPhysical(infos, storage, block);
            && (r.Some? <==> exists i {:trigger infos[i]} :: 0 <= i < |infos| && HasPhysical(infos[i], storage, block))
            && (r.Some? ==> r.value in infos && HasPhysical(r.value, storage, block))
  {
    if infos != [] && !HasPhysical(infos[0], storage, block) {
      FindPhysicalIs(infos[1..], storage, block);
      var r := FindPhysical(infos, storage, block);
      if i :| 0 <= i < |infos| && HasPhysical(infos[i], storage, block) { assert infos[1..][i - 1] == infos[i]; }
      if r.Some? {
        var i :| 0 <= i < |infos[1..]| && HasPhysical(infos[1..][i], storage, block);
        assert infos[i + 1] == infos[1..][i];
      }
    }
  }

  lemma {:induction false} FindLogicalIs(infos: seq<Info>, block: int)
    ensures var r := FindLogical(infos, block);
            && (r.Some? <==> exists i {:trigger infos[i]} :: 0 <= i < |infos| && HasLogical(infos[i], block))
            && (r.Some? ==> r.value in infos && HasLogical(r.value, block))
  {
    if infos != [] && !HasLogical(infos[0], block) {
      FindLogicalIs(infos[1..], block);
      var r := FindLogical(infos, block);
      if i :| 0 <= i < |infos| && HasLogical(infos[i], block) { assert infos[1..][i - 1] == infos[i]; }
      if r.Some? {
        var i :| 0 <= i < |infos[1..]| && HasLogical(infos[1..][i], block);
        assert infos[i + 1] == infos[1..][i];
      }
    }
  }

  /** Up to extent k the view is as long as the extents together. */
  lemma SizeStep(infos: seq<Info>, scale: nat, k: nat)
    requires scale > 0 && Tiled(infos, scale) && k < |infos|
    ensures Size(infos[..k + 1]) == Size(infos[..k]) + infos[k].logical.length
    ensures infos[k].logical.start == Size(infos[..k])
  {
    assert infos[..k + 1][k] == infos[k];
  }

  lemma {:induction false} SizeGrows(infos: seq<Info>, scale: nat, i: nat, j: nat)
    requires scale > 0 && Tiled(infos, scale) && i <= j <= |infos|
    ensures Size(infos[..i]) <= Size(infos[..j])
  {
    if i >= j {
    } else {
      SizeGrows(infos, scale, i, j - 1);
      SizeStep(infos, scale, j - 1);
    }
  }

  lemma {:induction false} SomeExtent(infos: seq<Info>, scale: nat, k: nat, block: int)
    requires scale > 0 && Tiled(infos, scale) && k <= |infos| && 0 <= block < Size(infos[..k])
    ensures exists i {:trigger infos[i]} :: 0 <= i < k && HasLogical(infos[i], block)
  {
    SizeStep(infos, scale, k - 1);
    if block < Size(infos[..k - 1]) {
      SomeExtent(infos, scale, k - 1, block);
    } else {
      assert HasLogical(infos[k - 1], block);
    }
  }

  /** The logical extents tile [0, size): a block lies in exactly one of them when it is in range, and in none otherwise. */
  lemma LogicalTiling(infos: seq<Info>, scale: nat, block: int)
    requires scale > 0 && Tiled(infos, scale)
    ensures ToPhysical(infos, scale, block).Some? <==> 0 <= block < Size(infos)
    ensures forall i, j {:trigger infos[i], infos[j]} ::
              0 <= i < j < |infos| ==> !(HasLogical(infos[i], block) && HasLogical(infos[j], block))
  {
    assert infos[..|infos|] == infos && infos[..0] == [];
    FindLogicalIs(infos, block);
    if 0 <= block < Size(infos) { SomeExtent(infos, scale, |infos|, block); }
    forall i, j {:trigger infos[i], infos[j]} | 0 <= i < j < |infos|
      ensures !(HasLogical(infos[i], block) && HasLogical(infos[j], block))
    {
      SizeStep(infos, scale, i);
      SizeStep(infos, scale, j);
      SizeGrows(infos, scale, i + 1, j);
    }
    forall i {:trigger infos[i]} | 0 <= i < |infos| && HasLogical(infos[i], block) ensures 0 <= block < Size(infos) {
      SizeStep(infos, scale, i);
      SizeGrows(infos, scale, 0, i);
      SizeGrows(infos, scale, i + 1, |infos|);
    }
  }

  lemma SameExtent(infos: seq<Info>, storage: Option<string>, block: int, k: nat)
    requires Separate(infos) && k < |infos| && HasPhysical(infos[k], storage, block)
    ensures FindPhysical(infos, storage, block) == Some(infos[k])
  {
    FindPhysicalIs(infos, storage, block);
    var r := FindPhysical(infos, storage, block);
    assert r.Some?;
    var j :| 0 <= j < |infos| && infos[j] == r.value;
    if j < k { assert Overlap(infos[j], infos[k]); }
    if k < j { assert Overlap(infos[k], infos[j]); }
  }

  lemma Below(n: int, scale: nat, d: nat, length: nat)
    requires d < scale && 0 <= n < length / scale && length % scale == 0
    ensures 0 <= n * scale + d < length
  {
    Times(n + 1, length / scale, scale);
    Exact(length, scale);
  }

  /**
   * Every physical block of a logical one, that is both sectors of an inode, maps back to it, when
   * the extents do not overlap and hold whole logical blocks.
   */
  lemma PhysicalAndBack(infos: seq<Info>, scale: nat, block: int, d: nat)
    requires scale > 0 && Tiled(infos, scale) && Whole(infos, scale) && Separate(infos)
    requires 0 <= block < Size(infos) && d < scale
    ensures ToPhysical(infos, scale, block).Some?
    ensures var a := ToPhysical(infos, scale, block).value;
            ToLogical(infos, scale, a.storage, a.block + d) == Some(block)
  {
    hide Tiled, Whole, Separate, HasLogical, HasPhysical, FindLogical, FindPhysical, FirstBlock, LogicalOf, Size;
    var k := ExtentOf(infos, scale, block);
    InExtent(infos[k], scale, block, d);
    SameExtent(infos, infos[k].storage, FirstBlock(infos[k], scale, block) + d, k);
  }

  lemma ExtentOf(infos: seq<Info>, scale: nat, block: int) returns (k: nat)
    requires scale > 0 && Tiled(infos, scale) && Whole(infos, scale) && 0 <= block < Size(infos)
    ensures k < |infos| && FindLogical(infos, block) == Some(infos[k]) && HasLogical(infos[k], block)
    ensures infos[k].logical.length == infos[k].physical.length / scale && infos[k].physical.length % scale == 0
  {
    LogicalTiling(infos, scale, block);
    FindLogicalIs(infos, block);
    k :| 0 <= k < |infos| && infos[k] == FindLogical(infos, block).value;
  }

  lemma InExtent(i: Info, scale: nat, block: int, d: nat)
    requires d < scale && HasLogical(i, block)
    requires i.logical.length == i.physical.length / scale && i.physical.length % scale == 0
    ensures HasPhysical(i, i.storage, FirstBlock(i, scale, block) + d)
    ensures LogicalOf(i, scale, FirstBlock(i, scale, block) + d) == block
  {
    Below(block - i.logical.start, scale, d, i.physical.length);
    Place(FirstBlock(i, scale, block) + d - i.physical.start, block - i.logical.start, d, scale);
  }

  /** A physical block of an extent goes to the logical block it is part of, and that one's first block comes back. */
  lemma LogicalAndBack(infos: seq<Info>, scale: nat, k: nat, block: int)
    requires scale > 0 && Tiled(infos, scale) && Whole(infos, scale) && Separate(infos)
    requires k < |infos| && infos[k].physical.ContainsBlock(block)
    ensures ToLogical(infos, scale, infos[k].storage, block).Some?
    ensures var b := ToLogical(infos, scale, infos[k].storage, block).value;
            && 0 <= b < Size(infos)
            && ToPhysical(infos, scale, b)
               == Some(Address(infos[k].storage, block - (block - infos[k].physical.start) % scale))
  {
    hide Separate, HasLogical, FindLogical, FindPhysical, FirstBlock, LogicalOf, Size;
    assert HasPhysical(infos[k], infos[k].storage, block);
    SameExtent(infos, infos[k].storage, block, k);
    hide Whole, Tiled, HasPhysical;
    ContainedBlock(infos, scale, k, block);
    OnlyExtent(infos, scale, k, LogicalOf(infos[k], scale, block));
  }

  lemma ContainedBlock(infos: seq<Info>, scale: nat, k: nat, block: int)
    requires scale > 0 && Tiled(infos, scale) && Whole(infos, scale)
    requires k < |infos| && infos[k].physical.ContainsBlock(block)
    ensures var b := LogicalOf(infos[k], scale, block);
            && HasLogical(infos[k], b)
            && FirstBlock(infos[k], scale, b) == block - (block - infos[k].physical.start) % scale
  {
    hide Size;
    Quotients(block - infos[k].physical.start, scale, infos[k].physical.length);
  }

  lemma OnlyExtent(infos: seq<Info>, scale: nat, k: nat, b: int)
    requires scale > 0 && Tiled(infos, scale) && k < |infos| && HasLogical(infos[k], b)
    ensures FindLogical(infos, b) == Some(infos[k]) && 0 <= b < Size(infos)
  {
    hide Tiled, HasLogical, Size, FirstBlock;
    LogicalTiling(infos, scale, b);
    FindLogicalIs(infos, b);
    assert FindLogical(infos, b).Some?;
    var j :| 0 <= j < |infos| && infos[j] == FindLogical(infos, b).value;
    assert j == k;
  }

  lemma Quotients(n: nat, scale: nat, length: nat)
    requires 0 < scale && n < length && length % scale == 0
    ensures 0 <= n / scale < length / scale && n / scale * scale == n - n % scale
  {
    Exact(length, scale);
    if n / scale >= length / scale { Times(length / scale, n / scale, scale); }
  }

  /* ---------- what the end-block test lets through ---------- */

  /** An existing extent of the storage lies strictly inside the new one. */
  ghost predicate Swallows(infos: seq<Info>, storage: Option<string>, physical: Extent) {
    exists i {:trigger infos[i]} :: 0 <= i < |infos| && infos[i].storage == storage && infos[i].physical.length > 0
      && physical.start < infos[i].physical.start && infos[i].physical.EndBlock() < physical.EndBlock()
  }

  /** An extent that passes the test keeps the view free of overlap exactly when it swallows no other one. */
  lemma AddedStaysSeparate(infos: seq<Info>, new_: Info)
    requires Separate(infos) && new_.physical.length > 0
    requires !EndTaken(infos, new_.storage, new_.physical)
    ensures Separate(infos + [new_]) <==> !Swallows(infos, new_.storage, new_.physical)
  {
    var all := infos + [new_];
    assert all[|infos|] == new_;
    if Swallows(infos, new_.storage, new_.physical) {
      var i :| 0 <= i < |infos| && infos[i].storage == new_.storage && infos[i].physical.length > 0
        && new_.physical.start < infos[i].physical.start && infos[i].physical.EndBlock() < new_.physical.EndBlock();
      assert all[i] == infos[i] && Overlap(all[i], all[|infos|]);
    } else {
      forall i, j {:trigger all[i], all[j]} | 0 <= i < j < |all| ensures !Overlap(all[i], all[j]) {
        assert all[i] == infos[i];
        if j < |infos| {
          assert all[j] == infos[j];
        } else {
          assert !HasPhysical(infos[i], new_.storage, new_.physical.start);
          assert !HasPhysical(infos[i], new_.storage, new_.physical.EndBlock());
        }
      }
    }
  }

  /** A refused extent that is not empty does overlap another one. */
  lemma RefusedOverlaps(infos: seq<Info>, new_: Info)
    requires new_.physical.length > 0 && EndTaken(infos, new_.storage, new_.physical)
    ensures exists i {:trigger infos[i]} :: 0 <= i < |infos| && Overlap(infos[i], new_)
  {
    var i :| 0 <= i < |infos| &&
      (HasPhysical(infos[i], new_.storage, new_.physical.start) || HasPhysical(infos[i], new_.storage, new_.physical.EndBlock()));
    assert Overlap(infos[i], new_);
  }

  /** Blocks 10..19 are in the view; adding 0..99 passes, and then logical block 20 comes back as block 0. */
  lemma SwallowedExtent(disk: Option<string>)
    ensures var infos := [Info(disk, 1, Extent(10, 10), Extent(0, 10)), Info(disk, 2, Extent(0, 100), Extent(10, 100))];
            && !EndTaken(infos[..1], disk, Extent(0, 100))
            && Tiled(infos, 1) && ToPhysical(infos, 1, 20) == Some(Address(disk, 10))
            && ToLogical(infos, 1, disk, 10) == Some(0)
  {
    var infos := [Info(disk, 1, Extent(10, 10), Extent(0, 10)), Info(disk, 2, Extent(0, 100), Extent(10, 100))];
    assert infos[..0] == [] && infos[..1] == [infos[0]];
    assert infos[1..] == [infos[1]];
    assert !infos[0].logical.ContainsBlock(20) && infos[1].logical.ContainsBlock(20);
    assert FindLogical(infos[1..], 20) == Some(infos[1]);
    assert HasPhysical(infos[0], disk, 10);
  }

  /* ---------- a view over another view ---------- */

  /** Where a block of the upper view lies on the storages under the lower one. */
  function DataToPhysical(upper: seq<Info>, scale: nat, lower: seq<Info>, block: int): Option<Address>
    requires scale > 0
  {
    match ToPhysical(upper, scale, block)
    case None => None
    case Some(a) => ToPhysical(lower, 1, a.block)
  }

  function DataToLogical(upper: seq<Info>, scale: nat, lower: seq<Info>, storage: Option<string>, block: int): Option<int>
    requires scale > 0
  {
    match ToLogical(lower, 1, storage, block)
    case None => None
    case Some(b) => ToLogical(upper, scale, None, b)
  }

  /** The extents of the upper view have no storage name and lie in the lower one. */
  ghost predicate Within(upper: seq<Info>, size: int) {
    forall i {:trigger upper[i]} :: 0 <= i < |upper| ==>
      upper[i].storage == None && 0 <= upper[i].physical.start && upper[i].physical.EndBlock() < size
  }

  lemma PhysicalInside(infos: seq<Info>, scale: nat, block: int, d: nat, size: int)
    requires scale > 0 && Tiled(infos, scale) && Whole(infos, scale) && Within(infos, size)
    requires 0 <= block < Size(infos) && d < scale
    ensures ToPhysical(infos, scale, block).Some?
    ensures var a := ToPhysical(infos, scale, block).value; a.storage == None && 0 <= a.block + d < size
  {
    hide Tiled, Whole, HasLogical, HasPhysical, FindLogical, FirstBlock, Size;
    var k := ExtentOf(infos, scale, block);
    InExtent(infos[k], scale, block, d);
    InsideOf(infos, k, FirstBlock(infos[k], scale, block) + d, size);
  }

  lemma InsideOf(infos: seq<Info>, k: nat, block: int, size: int)
    requires Within(infos, size) && k < |infos| && HasPhysical(infos[k], infos[k].storage, block)
    ensures infos[k].storage == None && 0 <= block < size
  {
  }

  lemma WholeBlocks(infos: seq<Info>)
    ensures Whole(infos, 1)
  {
  }

  /** Through both views a block comes back to itself, from every one of its blocks in the lower view. */
  lemma ThroughBothViews(upper: seq<Info>, scale: nat, lower: seq<Info>, block: int, d: nat)
    requires scale > 0 && Tiled(upper, scale) && Whole(upper, scale) && Separate(upper)
    requires Tiled(lower, 1) && Separate(lower) && Within(upper, Size(lower))
    requires 0 <= block < Size(upper) && d < scale
    ensures ToPhysical(upper, scale, block).Some?
    ensures var a := ToPhysical(lower, 1, ToPhysical(upper, scale, block).value.block + d);
            && a.Some? && DataToLogical(upper, scale, lower, a.value.storage, a.value.block) == Some(block)
            && (d == 0 ==> a == DataToPhysical(upper, scale, lower, block))
  {
    hide Tiled, Whole, Separate, Within, ToPhysical, ToLogical, Size;
    PhysicalInside(upper, scale, block, d, Size(lower));
    PhysicalAndBack(upper, scale, block, d);
    WholeBlocks(lower);
    PhysicalAndBack(lower, 1, ToPhysical(upper, scale, block).value.block + d, 0);
  }

  /* ---------- the inode zones as mfstools walks them ---------- */

  /** An inode zone's sectors. */
  datatype InodeZone = InodeZone(first: nat, size: nat)

  function Sectors(zones: seq<InodeZone>): nat {
    if zones == [] then 0 else zones[0].size + Sectors(zones[1..])
  }

  /** The sector a number of sectors into the zones laid end to end. */
  function SectorOf(zones: seq<InodeZone>, sector: int): int {
    if zones == [] then 0
    else if sector < zones[0].size then sector + zones[0].first else SectorOf(zones[1..], sector - zones[0].size)
  }

  /** The first of an inode's two sectors, and zero for one there is not. */
  method InodeToSector(zones: seq<InodeZone>, inode: nat) returns (sector: int)
    ensures inode >= Sectors(zones) / 2 ==> sector == 0
    ensures inode < Sectors(zones) / 2 ==> sector == SectorOf(zones, 2 * inode)
  {
    sector := inode * 2;
    if inode >= Sectors(zones) / 2 { return 0; }
    var i := 0;
    while i < |zones|
      invariant 0 <= i <= |zones| && SectorOf(zones, 2 * inode) == SectorOf(zones[i..], sector)
    {
      if sector < zones[i].size { return sector + zones[i].first; }
      sector := sector - zones[i].size;
      i := i + 1;
    }
    return 0;
  }

  /** The inode view is made of these zones, from its k-th extent on. */
  ghost predicate ViewOf(infos: seq<Info>, zones: seq<InodeZone>, k: nat) {
    k + |zones| == |infos| && forall i {:trigger zones[i]} :: 0 <= i < |zones| ==>
      infos[k + i].physical == Extent(zones[i].first, zones[i].size)
  }

  /** The first zone and the extent it is. */
  lemma ZoneHead(infos: seq<Info>, zones: seq<InodeZone>, k: nat)
    requires Tiled(infos, 2) && Whole(infos, 2) && ViewOf(infos, zones, k) && |zones| > 0
    ensures k < |infos| && infos[k].physical.start == zones[0].first && zones[0].size == 2 * infos[k].logical.length
    ensures Size(infos[..k + 1]) == Size(infos[..k]) + infos[k].logical.length
    ensures infos[k].logical.start == Size(infos[..k])
    ensures ViewOf(infos, zones[1..], k + 1)
  {
    SizeStep(infos, 2, k);
    assert infos[k].physical == Extent(zones[0].first, zones[0].size);
    forall i {:trigger zones[1..][i]} | 0 <= i < |zones| - 1 ensures zones[1..][i] == zones[i + 1] {}
  }

  lemma {:induction false} ZoneSector(infos: seq<Info>, zones: seq<InodeZone>, k: nat, block: int)
    requires Tiled(infos, 2) && Whole(infos, 2) && ViewOf(infos, zones, k)
    requires Size(infos[..k]) <= block < Size(infos)
    ensures ToPhysical(infos, 2, block).Some?
    ensures ToPhysical(infos, 2, block).value.block == SectorOf(zones, 2 * (block - Size(infos[..k])))
    decreases |zones|
  {
    NotPastEnd(infos, zones, k, block);
    hide Tiled, Whole, ViewOf, FindLogical, Size;
    ZoneHead(infos, zones, k);
    if block < Size(infos[..k + 1]) {
      OnlyExtent(infos, 2, k, block);
    } else {
      ZoneSector(infos, zones[1..], k + 1, block);
    }
  }

  lemma NotPastEnd(infos: seq<Info>, zones: seq<InodeZone>, k: nat, block: int)
    requires ViewOf(infos, zones, k) && Size(infos[..k]) <= block < Size(infos)
    ensures |zones| > 0
  {
    assert infos[..|infos|] == infos;
  }

  lemma {:induction false} ZoneSizes(infos: seq<Info>, zones: seq<InodeZone>, k: nat)
    requires Tiled(infos, 2) && Whole(infos, 2) && ViewOf(infos, zones, k)
    ensures Size(infos) == Size(infos[..k]) + Sectors(zones) / 2 && Sectors(zones) % 2 == 0
    decreases |zones|
  {
    if zones == [] {
      assert infos[..k] == infos;
    } else {
      ZoneHead(infos, zones, k);
      ZoneSizes(infos, zones[1..], k + 1);
    }
  }

  /** With zones of even size both programs count the same inodes and put each at the same MFS sector. */
  lemma SameSector(infos: seq<Info>, zones: seq<InodeZone>, inode: nat)
    requires Tiled(infos, 2) && Whole(infos, 2) && ViewOf(infos, zones, 0)
    ensures Size(infos) == Sectors(zones) / 2
    ensures inode < Size(infos) ==>
              ToPhysical(infos, 2, inode).Some? && ToPhysical(infos, 2, inode).value.block == SectorOf(zones, 2 * inode)
  {
    hide Tiled, Whole, ViewOf, ToPhysical;
    assert infos[..0] == [];
    ZoneSizes(infos, zones, 0);
    if inode < Size(infos) { ZoneSector(infos, zones, 0, inode); }
  }
}
