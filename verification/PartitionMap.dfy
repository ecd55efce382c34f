/** The partition map editor's data structure: entries linked into a disk-order list and a
    base-order list, edited in place. Each method is proved to do to the two lists what the
    corresponding function of PartitionTable does to the table. */
module PartitionMap {
  import opened Wrappers
  import opened Nodes
  import opened PartitionTable

  class Entry {
    var nextOnDisk: Entry?
    var prevOnDisk: Entry?
    var nextByBase: Entry?
    var prevByBase: Entry?
    var diskAddress: int
    var data: Part
    var mapEntries: int

    constructor (diskAddress: int, data: Part)
      ensures this.diskAddress == diskAddress && this.data == data
    {
      nextOnDisk, prevOnDisk, nextByBase, prevByBase := null, null, null, null;
      this.diskAddress, this.data, mapEntries := diskAddress, data, 1;
    }
  }

  ghost function At(s: seq<Entry>, i: int): Entry? {
    if 0 <= i < |s| then s[i] else null
  }

  ghost function Parts(s: seq<Entry>): (ps: seq<Part>)
    reads s`data
    ensures |ps| == |s|
    ensures forall i :: 0 <= i < |s| ==> ps[i] == s[i].data
  {
    if s == [] then [] else [s[0].data] + Parts(s[1..])
  }

  /** s[k..] are the entries whose number is at least index. */
  ghost predicate DiskCut(s: seq<Entry>, k: nat, index: int)
    reads s`diskAddress
  {
    && k <= |s|
    && (forall i :: 0 <= i < k ==> s[i].diskAddress < index)
    && (forall i :: k <= i < |s| ==> index <= s[i].diskAddress)
  }

  /** s[k..] are the entries that start at start or later. */
  ghost predicate BaseCut(s: seq<Entry>, k: nat, start: nat)
    reads s`data
  {
    && k <= |s|
    && (forall i :: 0 <= i < k ==> s[i].data.start < start)
    && (forall i :: k <= i < |s| ==> start <= s[i].data.start)
  }

  ghost predicate AddressesFromOne(s: seq<Entry>)
    reads s`diskAddress
  {
    forall i :: 0 <= i < |s| ==> s[i].diskAddress == i + 1
  }

  /** Once s[i] starts at rem, an entry starting at start belongs at position k. */
  ghost predicate Around(s: seq<Entry>, i: nat, rem: nat, start: nat, k: nat)
    reads s`data
  {
    && (k == i || k == i + 1)
    && (forall j :: 0 <= j < i && j < |s| ==> s[j].data.start < start)
    && (forall j :: i < j < |s| ==> start <= s[j].data.start)
    && (k == i <==> start <= rem)
  }

  class PartitionMap {
    var diskOrder: Entry?
    var baseOrder: Entry?
    var blocksInMap: int
    var maximumInMap: int
    var mediaSize: nat
    var changed: bool
    ghost var disk: seq<Entry>
    ghost var base: seq<Entry>
    ghost var nodes: set<Entry>

    ghost predicate DiskList()
      reads this`diskOrder, this`disk, disk`nextOnDisk, disk`prevOnDisk
    {
      && diskOrder == At(disk, 0)
      && Distinct(disk)
      && (forall i {:trigger disk[i].nextOnDisk} :: 0 <= i < |disk| ==> disk[i].nextOnDisk == At(disk, i + 1))
      && (forall i {:trigger disk[i].prevOnDisk} :: 0 <= i < |disk| ==> disk[i].prevOnDisk == At(disk, i - 1))
    }

    ghost predicate BaseList()
      reads this`baseOrder, this`base, base`nextByBase, base`prevByBase
    {
      && baseOrder == At(base, 0)
      && Distinct(base)
      && (forall i {:trigger base[i].nextByBase} :: 0 <= i < |base| ==> base[i].nextByBase == At(base, i + 1))
      && (forall i {:trigger base[i].prevByBase} :: 0 <= i < |base| ==> base[i].prevByBase == At(base, i - 1))
    }

    ghost predicate SameEntries()
      reads this`disk, this`base, this`nodes
    {
      && |disk| == |base|
      && Members(disk) == nodes == Members(base)
    }

    ghost predicate Linked()
      reads this`diskOrder, this`baseOrder, this`disk, this`base, this`nodes, this`blocksInMap
      reads disk`nextOnDisk, disk`prevOnDisk, base`nextByBase, base`prevByBase
    {
      DiskList() && BaseList() && SameEntries() && blocksInMap == |disk|
    }

    ghost predicate Numbered()
      reads this`disk, disk`diskAddress, disk`mapEntries
    {
      forall i :: 0 <= i < |disk| ==> disk[i].diskAddress == i + 1 && disk[i].mapEntries == |disk|
    }

    /** The abstract value: the table of PartitionTable. */
    ghost function State(): Table
      reads this`disk, this`base, this`maximumInMap, this`mediaSize, disk`data, base`data
    {
      Table(Parts(disk), Parts(base), maximumInMap, mediaSize)
    }

    ghost predicate Valid()
      reads this, disk, base
    {
      Linked() && Numbered() && Inv(State())
    }

    /** Links that lead past s[k] are the links of s without it. */
    lemma DiskUnlinked(was: seq<Entry>, k: nat)
      requires k < |was| && Distinct(was)
      requires forall j {:trigger was[j].nextOnDisk} :: 0 <= j < |was| && j != k ==> was[j].nextOnDisk == if j == k - 1 then At(was, k + 1) else At(was, j + 1)
      requires forall j {:trigger was[j].prevOnDisk} :: 0 <= j < |was| && j != k ==> was[j].prevOnDisk == if j == k + 1 then At(was, k - 1) else At(was, j - 1)
      ensures var r := was[..k] + was[k + 1..];
        && Distinct(r)
        && (forall j {:trigger r[j].nextOnDisk} :: 0 <= j < |r| ==> r[j].nextOnDisk == At(r, j + 1))
        && (forall j {:trigger r[j].prevOnDisk} :: 0 <= j < |r| ==> r[j].prevOnDisk == At(r, j - 1))
    {
      var r := was[..k] + was[k + 1..];
      forall j | 0 <= j < |r| ensures r[j] == if j < k then was[j] else was[j + 1] {}
    }

    method RemoveFromDiskOrder(entry: Entry, ghost k: nat)
      requires DiskList() && k < |disk| && disk[k] == entry
      modifies this`diskOrder, this`disk, disk`nextOnDisk, disk`prevOnDisk
      ensures DiskList() && disk == old(disk)[..k] + old(disk)[k + 1..]
      ensures entry.nextOnDisk == null && entry.prevOnDisk == null
    {
      var p := entry.nextOnDisk;
      if diskOrder == entry {
        diskOrder := p;
      }
      if p != null {
        p.prevOnDisk := entry.prevOnDisk;
      }
      if entry.prevOnDisk != null {
        entry.prevOnDisk.nextOnDisk := p;
      }
      entry.nextOnDisk := null;
      entry.prevOnDisk := null;
      DiskUnlinked(disk, k);
      disk := disk[..k] + disk[k + 1..];
    }

    method LinkDiskFirst(entry: Entry)
      requires DiskList() && entry !in disk
      modifies this`diskOrder, this`disk, disk`nextOnDisk, disk`prevOnDisk, entry`nextOnDisk, entry`prevOnDisk
      ensures DiskList() && disk == [entry] + old(disk)
    {
      var cur := diskOrder;
      diskOrder := entry;
      entry.nextOnDisk := cur;
      if cur != null {
        cur.prevOnDisk := entry;
      }
      entry.prevOnDisk := null;
      disk := [entry] + disk;
    }

    /** Links that lead around entry in was are the links of was with entry put in. */
    lemma DiskRelinked(was: seq<Entry>, entry: Entry, i: nat)
      requires i < |was| && Distinct(was) && entry !in was
      requires forall j {:trigger was[j].nextOnDisk} :: 0 <= j < |was| ==> was[j].nextOnDisk == if j == i then entry else At(was, j + 1)
      requires forall j {:trigger was[j].prevOnDisk} :: 0 <= j < |was| ==> was[j].prevOnDisk == if j == i + 1 then entry else At(was, j - 1)
      requires entry.nextOnDisk == At(was, i + 1) && entry.prevOnDisk == was[i]
      ensures var r := was[..i + 1] + [entry] + was[i + 1..];
        && Distinct(r)
        && (forall j {:trigger r[j].nextOnDisk} :: 0 <= j < |r| ==> r[j].nextOnDisk == At(r, j + 1))
        && (forall j {:trigger r[j].prevOnDisk} :: 0 <= j < |r| ==> r[j].prevOnDisk == At(r, j - 1))
    {
      var r := was[..i + 1] + [entry] + was[i + 1..];
      forall j | 0 <= j < |r| ensures r[j] == if j <= i then was[j] else if j == i + 1 then entry else was[j - 1] {}
    }

    method LinkDiskAfter(entry: Entry, cur: Entry, ghost i: nat)
      requires DiskList() && entry !in disk && i < |disk| && disk[i] == cur
      modifies this`disk, disk`nextOnDisk, disk`prevOnDisk, entry`nextOnDisk, entry`prevOnDisk
      ensures DiskList() && disk == old(disk)[..i + 1] + [entry] + old(disk)[i + 1..]
    {
      entry.nextOnDisk := cur.nextOnDisk;
      cur.nextOnDisk := entry;
      entry.prevOnDisk := cur;
      if entry.nextOnDisk != null {
        entry.nextOnDisk.prevOnDisk := entry;
      }
      DiskRelinked(disk, entry, i);
      disk := disk[..i + 1] + [entry] + disk[i + 1..];
    }

    method InsertInDiskOrder(entry: Entry, ghost k: nat)
      requires DiskList() && entry !in disk
      requires DiskCut(disk, k, entry.diskAddress)
      modifies this`diskOrder, this`disk, disk`nextOnDisk, disk`prevOnDisk, entry`nextOnDisk, entry`prevOnDisk
      ensures DiskList() && disk == old(disk)[..k] + [entry] + old(disk)[k..]
    {
      var cur := diskOrder;
      if cur == null || entry.diskAddress <= cur.diskAddress {
        LinkDiskFirst(entry);
      } else {
        ghost var i := 0;
        while !(cur.diskAddress <= entry.diskAddress
                && (cur.nextOnDisk == null || entry.diskAddress <= cur.nextOnDisk.diskAddress))
          invariant 0 <= i < k && cur == disk[i]
          decreases k - i
        {
          assert cur.nextOnDisk == At(disk, i + 1);
          cur := cur.nextOnDisk;
          i := i + 1;
        }
        assert cur.nextOnDisk == At(disk, i + 1);
        LinkDiskAfter(entry, cur, i);
      }
    }

    method LinkBaseFirst(entry: Entry)
      requires BaseList() && entry !in base
      modifies this`baseOrder, this`base, base`nextByBase, base`prevByBase, entry`nextByBase, entry`prevByBase
      ensures BaseList() && base == [entry] + old(base)
    {
      var cur := baseOrder;
      baseOrder := entry;
      entry.nextByBase := cur;
      if cur != null {
        cur.prevByBase := entry;
      }
      entry.prevByBase := null;
      base := [entry] + base;
    }

    /** Links that lead around entry in was are the links of was with entry put in. */
    lemma BaseRelinked(was: seq<Entry>, entry: Entry, i: nat)
      requires i < |was| && Distinct(was) && entry !in was
      requires forall j {:trigger was[j].nextByBase} :: 0 <= j < |was| ==> was[j].nextByBase == if j == i then entry else At(was, j + 1)
      requires forall j {:trigger was[j].prevByBase} :: 0 <= j < |was| ==> was[j].prevByBase == if j == i + 1 then entry else At(was, j - 1)
      requires entry.nextByBase == At(was, i + 1) && entry.prevByBase == was[i]
      ensures var r := was[..i + 1] + [entry] + was[i + 1..];
        && Distinct(r)
        && (forall j {:trigger r[j].nextByBase} :: 0 <= j < |r| ==> r[j].nextByBase == At(r, j + 1))
        && (forall j {:trigger r[j].prevByBase} :: 0 <= j < |r| ==> r[j].prevByBase == At(r, j - 1))
    {
      var r := was[..i + 1] + [entry] + was[i + 1..];
      forall j | 0 <= j < |r| ensures r[j] == if j <= i then was[j] else if j == i + 1 then entry else was[j - 1] {}
    }

    method LinkBaseAfter(entry: Entry, cur: Entry, ghost i: nat)
      requires BaseList() && entry !in base && i < |base| && base[i] == cur
      modifies this`base, base`nextByBase, base`prevByBase, entry`nextByBase, entry`prevByBase
      ensures BaseList() && base == old(base)[..i + 1] + [entry] + old(base)[i + 1..]
    {
      entry.nextByBase := cur.nextByBase;
      cur.nextByBase := entry;
      entry.prevByBase := cur;
      if entry.nextByBase != null {
        entry.nextByBase.prevByBase := entry;
      }
      BaseRelinked(base, entry, i);
      base := base[..i + 1] + [entry] + base[i + 1..];
    }

    method InsertInBaseOrder(entry: Entry, ghost k: nat)
      requires BaseList() && entry !in base
      requires BaseCut(base, k, entry.data.start)
      modifies this`baseOrder, this`base, base`nextByBase, base`prevByBase, entry`nextByBase, entry`prevByBase
      ensures BaseList() && base == old(base)[..k] + [entry] + old(base)[k..]
    {
      var cur := baseOrder;
      if cur == null || entry.data.start <= cur.data.start {
        LinkBaseFirst(entry);
      } else {
        ghost var i := 0;
        while !(cur.data.start <= entry.data.start
                && (cur.nextByBase == null || entry.data.start <= cur.nextByBase.data.start))
          invariant 0 <= i < k && cur == base[i]
          decreases k - i
        {
          assert cur.nextByBase == At(base, i + 1);
          cur := cur.nextByBase;
          i := i + 1;
        }
        assert cur.nextByBase == At(base, i + 1);
        LinkBaseAfter(entry, cur, i);
      }
    }

    method RenumberDiskAddresses()
      requires DiskList() && blocksInMap == |disk| && Members(disk) == nodes
      modifies nodes`diskAddress, nodes`mapEntries
      ensures Numbered()
    {
      var cur := diskOrder;
      var index := 1;
      while cur != null
        invariant 1 <= index <= |disk| + 1
        invariant cur == At(disk, index - 1)
        invariant forall i :: 0 <= i < index - 1 ==> disk[i].diskAddress == i + 1 && disk[i].mapEntries == |disk|
        decreases |disk| + 1 - index
      {
        cur.diskAddress := index;
        index := index + 1;
        cur.mapEntries := blocksInMap;
        cur := cur.nextOnDisk;
      }
    }

    method LinkEntry(entry: Entry, ghost kd: nat, ghost kb: nat)
      requires Linked() && entry !in nodes && kd <= |disk| && kb <= |base|
      requires DiskCut(disk, kd, entry.diskAddress) && BaseCut(base, kb, entry.data.start)
      modifies this`diskOrder, this`disk, this`baseOrder, this`base, this`nodes, this`blocksInMap
      modifies nodes`nextOnDisk, nodes`prevOnDisk, nodes`nextByBase, nodes`prevByBase
      modifies entry`nextOnDisk, entry`prevOnDisk, entry`nextByBase, entry`prevByBase
      ensures Linked() && nodes == old(nodes) + {entry}
      ensures disk == old(disk)[..kd] + [entry] + old(disk)[kd..]
      ensures base == old(base)[..kb] + [entry] + old(base)[kb..]
    {
      hide DiskList, BaseList, DiskCut, BaseCut, Parts;
      MembersInserted(disk, kd, entry);
      MembersInserted(base, kb, entry);
      assert entry !in disk && entry !in base by {
        assert entry !in Members(disk) && entry !in Members(base);
      }
      InsertInDiskOrder(entry, kd);
      InsertInBaseOrder(entry, kb);
      nodes := nodes + {entry};
      blocksInMap := blocksInMap + 1;
    }

    method AddDataToMap(data: Part, index: int, ghost kd: nat, ghost kb: nat) returns (entry: Entry)
      requires Linked() && DiskCut(disk, kd, index) && BaseCut(base, kb, data.start)
      requires kd <= |disk| && kb <= |base|
      modifies this`diskOrder, this`disk, this`baseOrder, this`base, this`nodes, this`blocksInMap, this`maximumInMap
      modifies nodes`nextOnDisk, nodes`prevOnDisk, nodes`nextByBase, nodes`prevByBase
      ensures fresh(entry) && entry.data == data && entry.diskAddress == index
      ensures Linked()
      ensures disk == old(disk)[..kd] + [entry] + old(disk)[kd..]
      ensures base == old(base)[..kb] + [entry] + old(base)[kb..]
      ensures nodes == old(nodes) + {entry}
      ensures maximumInMap == if old(maximumInMap) < 0 && data.kind.Map? then data.blocks else old(maximumInMap)
    {
      hide DiskList, BaseList, SameEntries, DiskCut, BaseCut, Parts;
      entry := new Entry(index, data);
      LinkEntry(entry, kd, kb);
      if maximumInMap < 0 {
        if data.kind.Map? {
          maximumInMap := data.blocks;
        }
      }
    }

    method FindEntryContaining(start: nat, blocks: nat) returns (cur: Entry?, ghost i: nat)
      requires BaseList()
      ensures cur == At(base, FindContaining(Parts(base), start, blocks)) && i == FindContaining(Parts(base), start, blocks)
    {
      cur, i := baseOrder, 0;
      while cur != null
        invariant 0 <= i <= |base| && cur == At(base, i)
        invariant forall j :: 0 <= j < i ==> !(base[j].data.start <= start && start + blocks <= base[j].data.End())
        decreases |base| - i
      {
        if cur.data.start <= start && start + blocks <= cur.data.start + cur.data.blocks {
          break;
        } else {
          cur := cur.nextByBase;
          i := i + 1;
        }
      }
    }

    /** The entry changed in place is base[i] and has number d + 1. */
    ghost predicate Locates(cur: Entry, d: nat, i: nat)
      reads this`disk, this`base
    {
      d < |disk| && disk[d] == cur && i < |base| && base[i] == cur
    }

    /** The free entry cur shrinks to rem, and data goes in with cur's number. */
    method AddBeside(cur: Entry, rem: Part, data: Part, ghost d: nat, ghost i: nat, ghost kb: nat) returns (entry: Entry)
      requires Linked() && AddressesFromOne(disk) && Locates(cur, d, i)
      requires Around(base, i, rem.start, data.start, kb)
      modifies this`diskOrder, this`disk, this`baseOrder, this`base, this`nodes, this`blocksInMap, this`maximumInMap, cur`data
      modifies nodes`nextOnDisk, nodes`prevOnDisk, nodes`nextByBase, nodes`prevByBase
      ensures fresh(entry) && entry.data == data && entry.diskAddress == d + 1 && cur.data == rem
      ensures Linked()
      ensures disk == old(disk)[..d] + [entry] + old(disk)[d..]
      ensures base == old(base)[..kb] + [entry] + old(base)[kb..]
      ensures nodes == old(nodes) + {entry}
      ensures maximumInMap == if old(maximumInMap) < 0 && data.kind.Map? then data.blocks else old(maximumInMap)
    {
      cur.data := rem;
      entry := AddDataToMap(data, cur.diskAddress, d, kb);
    }

    lemma BaseAround(i: nat, rem: nat, start: nat)
      requires Core(State()) && i < |base|
      requires base[i].data.start <= rem < base[i].data.End() && base[i].data.start <= start < base[i].data.End()
      ensures Around(base, i, rem, start, if start <= rem then i else i + 1)
    {
      var ps := Parts(base);
      forall j | 0 <= j < i ensures base[j].data.start < start {
        assert ps[j].End() <= ps[i].start && ps[j].blocks > 0;
      }
      forall j | i < j < |base| ensures start <= base[j].data.start {
        assert ps[i].End() <= ps[j].start;
      }
    }

    lemma Numbers(cur: Entry, i: nat) returns (d: nat)
      requires Linked() && i < |base| && base[i] == cur
      ensures Locates(cur, d, i)
    {
      assert cur in Members(base);
      assert cur in Members(disk);
      d :| 0 <= d < |disk| && disk[d] == cur;
    }

    /** In the table, cur is found at the same places. */
    lemma LocatesInTable(cur: Entry, d: nat, i: nat)
      requires Core(State()) && Locates(cur, d, i)
      ensures IndexOfStart(State().disk, cur.data.start) == d
      ensures IndexOfStart(State().base, cur.data.start) == i
    {
      SortedIsDistinct(Parts(base));
      assert Parts(disk)[d].start == cur.data.start == Parts(base)[i].start;
    }

    /** s with e put in before or after s[k], whose data has changed since ps was read. */
    lemma PartsInserted(s: seq<Entry>, ps: seq<Part>, k: nat, e: Entry)
      requires k < |ps| == |s|
      requires forall j :: 0 <= j < |s| && j != k ==> s[j].data == ps[j]
      ensures Parts(s[..k] + [e] + s[k..]) == Splice(ps, k, 1, [e.data, s[k].data])
      ensures Parts(s[..k + 1] + [e] + s[k + 1..]) == Splice(ps, k, 1, [s[k].data, e.data])
    {
      hide Parts;
      var r := s[..k] + [e] + s[k..];
      forall j | 0 <= j < |r| ensures r[j] == if j < k then s[j] else if j == k then e else s[j - 1] {}
      assert Parts(r) == Splice(ps, k, 1, [e.data, s[k].data]);
      var q := s[..k + 1] + [e] + s[k + 1..];
      forall j | 0 <= j < |q| ensures q[j] == if j <= k then s[j] else if j == k + 1 then e else s[j - 1] {}
      assert Parts(q) == Splice(ps, k, 1, [s[k].data, e.data]);
    }

    lemma PartsReplaced(s: seq<Entry>, ps: seq<Part>, k: nat)
      requires k < |ps| == |s|
      requires forall j :: 0 <= j < |s| && j != k ==> s[j].data == ps[j]
      ensures Parts(s) == Splice(ps, k, 1, [s[k].data])
    {
      hide Parts;
    }

    lemma ListsDistinct()
      requires Linked()
      ensures Distinct(disk) && Distinct(base) && |disk| == |base| == blocksInMap && Members(disk) == nodes
    {
    }

    method ReplaceData(cur: Entry, data: Part, ghost d: nat, ghost i: nat)
      requires Linked() && Locates(cur, d, i)
      modifies cur`data
      ensures Linked()
      ensures Parts(disk) == Splice(old(Parts(disk)), d, 1, [data])
      ensures Parts(base) == Splice(old(Parts(base)), i, 1, [data])
      ensures cur.data == data
    {
      hide DiskList, BaseList, SameEntries, Parts;
      ListsDistinct();
      cur.data := data;
      PartsReplaced(disk, old(Parts(disk)), d);
      PartsReplaced(base, old(Parts(base)), i);
    }

    /** The free entry cur keeps rem, and data, over the rest of it, takes cur's number. */
    method AddToFree(cur: Entry, rem: Part, data: Part, ghost d: nat, ghost i: nat) returns (entry: Entry)
      requires Linked() && AddressesFromOne(disk) && Locates(cur, d, i) && Core(State())
      requires cur.data.start <= rem.start < cur.data.End() && cur.data.start <= data.start < cur.data.End()
      requires rem.start != data.start
      modifies this`diskOrder, this`disk, this`baseOrder, this`base, this`nodes, this`blocksInMap, this`maximumInMap, cur`data
      modifies nodes`nextOnDisk, nodes`prevOnDisk, nodes`nextByBase, nodes`prevByBase
      ensures fresh(entry) && entry.data == data && entry.diskAddress == d + 1 && cur.data == rem
      ensures Linked()
      ensures Parts(disk) == Splice(old(Parts(disk)), d, 1, [data, rem])
      ensures Parts(base) == Splice(old(Parts(base)), i, 1, if data.start < rem.start then [data, rem] else [rem, data])
      ensures disk == old(disk)[..d] + [entry] + old(disk)[d..]
      ensures base == if data.start < rem.start then old(base)[..i] + [entry] + old(base)[i..] else old(base)[..i + 1] + [entry] + old(base)[i + 1..]
      ensures nodes == old(nodes) + {entry}
      ensures maximumInMap == if old(maximumInMap) < 0 && data.kind.Map? then data.blocks else old(maximumInMap)
    {
      hide DiskList, BaseList, SameEntries, Parts, Core, Around, AddressesFromOne;
      ListsDistinct();
      BaseAround(i, rem.start, data.start);
      ghost var ds, bs := Parts(disk), Parts(base);
      entry := AddBeside(cur, rem, data, d, i, if data.start <= rem.start then i else i + 1);
      PartsInserted(old(disk), ds, d, entry);
      PartsInserted(old(base), bs, i, entry);
    }

    /** The entries around s[i] start where they did when their parts were ps. */
    lemma AroundKept(s: seq<Entry>, ps: seq<Part>, i: nat, rem: nat, start: nat)
      requires i < |s| == |ps| && start <= rem
      requires forall j :: 0 <= j < |s| && j != i ==> s[j].data == ps[j]
      requires forall j :: 0 <= j < i ==> ps[j].start < start
      requires forall j :: i < j < |ps| ==> start <= ps[j].start
      ensures Around(s, i, rem, start, i)
    {
    }

    /** Where the entries around base[i] start. */
    lemma PartsAround(i: nat, start: nat)
      requires i < |base| && Around(base, i, start, start, i)
      ensures |Parts(base)| == |base| && forall j :: 0 <= j < |base| ==> Parts(base)[j] == base[j].data
      ensures forall j :: 0 <= j < i ==> Parts(base)[j].start < start
      ensures forall j :: i < j < |base| ==> start <= Parts(base)[j].start
    {
    }

    /** Where free space goes once e has gone in before ds[d], which is bs[i]. */
    lemma CutsBefore(ds: seq<Entry>, d: nat, bs: seq<Entry>, i: nat, e: Entry, rem: nat, start: nat)
      requires d < |ds| && AddressesFromOne(ds) && e.diskAddress == d + 1
      requires i < |bs| && Around(bs, i, rem, start, i) && bs[i].data.start == rem && start <= e.data.start
      ensures DiskCut(ds[..d] + [e] + ds[d..], d, d + 1)
      ensures BaseCut(bs[..i] + [e] + bs[i..], i, start)
    {
      var r, q := ds[..d] + [e] + ds[d..], bs[..i] + [e] + bs[i..];
      forall j | 0 <= j < |r| ensures r[j] == if j < d then ds[j] else if j == d then e else ds[j - 1] {}
      forall j | 0 <= j < |q| ensures q[j] == if j < i then bs[j] else if j == i then e else bs[j - 1] {}
    }

    /** A new entry for data before disk[d] and base[i]. */
    method AddBefore(data: Part, number: int, ghost d: nat, ghost i: nat) returns (entry: Entry)
      requires Linked() && DiskCut(disk, d, number) && BaseCut(base, i, data.start) && d <= |disk| && i <= |base|
      modifies this`diskOrder, this`disk, this`baseOrder, this`base, this`nodes, this`blocksInMap, this`maximumInMap
      modifies nodes`nextOnDisk, nodes`prevOnDisk, nodes`nextByBase, nodes`prevByBase
      ensures Linked() && fresh(entry) && nodes == old(nodes) + {entry}
      ensures Parts(disk) == old(Parts(disk))[..d] + [data] + old(Parts(disk))[d..]
      ensures Parts(base) == old(Parts(base))[..i] + [data] + old(Parts(base))[i..]
      ensures maximumInMap == if old(maximumInMap) < 0 && data.kind.Map? then data.blocks else old(maximumInMap)
    {
      hide DiskList, BaseList, SameEntries, Parts, DiskCut, BaseCut, Linked;
      ghost var ds, bs := disk, base;
      entry := AddDataToMap(data, number, d, i);
      PartsWith(ds, d, entry);
      PartsWith(bs, i, entry);
    }

    lemma SpliceFront(ps: seq<Part>, k: nat, f: Part, p: Part, q: Part)
      requires k < |ps|
      ensures var r := Splice(ps, k, 1, [p, q]);
        k <= |r| && r[..k] + [f] + r[k..] == Splice(ps, k, 1, [f, p, q])
    {
    }

    /** Free space before and after: three entries where cur was. */
    method SplitFree(cur: Entry, rem: Part, data: Part, free: Part, ghost d: nat, ghost i: nat)
      requires Linked() && AddressesFromOne(disk) && Locates(cur, d, i) && Core(State())
      requires free.start == cur.data.start < data.start < rem.start < cur.data.End() && free.kind.Free?
      modifies this`diskOrder, this`disk, this`baseOrder, this`base, this`nodes, this`blocksInMap, this`maximumInMap, cur`data
      modifies nodes`nextOnDisk, nodes`prevOnDisk, nodes`nextByBase, nodes`prevByBase
      ensures Linked()
      ensures Parts(disk) == Splice(old(Parts(disk)), d, 1, [free, data, rem])
      ensures Parts(base) == Splice(old(Parts(base)), i, 1, [free, data, rem])
      ensures old(nodes) <= nodes && fresh(nodes - old(nodes))
      ensures maximumInMap == if old(maximumInMap) < 0 && data.kind.Map? then data.blocks else old(maximumInMap)
    {
      hide DiskList, BaseList, SameEntries, Parts, Core, Around, AddressesFromOne, DiskCut, BaseCut, Splice, Linked;
      SplitFacts(cur, d, i);
      BaseAround(i, free.start, free.start);
      ghost var ds0, bs0, ps0 := disk, base, Parts(base);
      PartsAround(i, free.start);
      SpliceFront(Parts(disk), d, free, data, rem);
      SpliceFront(ps0, i, free, data, rem);
      var entry := AddToFree(cur, rem, data, d, i);
      AroundKept(bs0, ps0, i, rem.start, free.start);
      CutsBefore(ds0, d, bs0, i, entry, rem.start, free.start);
      var entry2 := AddBefore(free, cur.diskAddress, d, i);
      assert nodes == old(nodes) + {entry, entry2};
    }

    lemma SplitFacts(cur: Entry, d: nat, i: nat)
      requires Linked() && AddressesFromOne(disk) && Locates(cur, d, i)
      ensures Distinct(disk) && Distinct(base) && Members(disk) == nodes == Members(base)
      ensures cur.diskAddress == d + 1 && d < |disk| && i < |base| && disk[d] == cur == base[i] && cur in nodes
    {
      AddressOf(cur, d);
      ListsDistinct();
    }

    lemma AddressOf(cur: Entry, d: nat)
      requires d < |disk| && disk[d] == cur && AddressesFromOne(disk)
      ensures cur.diskAddress == d + 1
    {
    }

    /** The new entry and the free space around it go where the free entry cur was. */
    method Insert(cur: Entry, act: int, rem: Part, data: Part, free: Part, ghost d: nat, ghost i: nat)
      requires Linked() && AddressesFromOne(disk) && Locates(cur, d, i) && Core(State())
      requires cur.data.start <= data.start && data.End() <= cur.data.End() && data.blocks > 0
      requires WellFormedPart(cur.data) && cur.data.kind.Free?
      requires act == ActionFor(cur.data, data.start, data.blocks)
      requires act == ADD && cur.data.start == data.start ==> rem == Resized(cur.data, data.End(), cur.data.End() - data.End())
      requires act == ADD && cur.data.start != data.start ==> rem == Resized(cur.data, cur.data.start, data.start - cur.data.start)
      requires act == SPLIT ==> rem == Resized(cur.data, data.End(), cur.data.End() - data.End())
      requires act == SPLIT ==> free == FreePart(cur.data.start, data.start - cur.data.start)
      modifies this`diskOrder, this`disk, this`baseOrder, this`base, this`nodes, this`blocksInMap, this`maximumInMap, cur`data
      modifies nodes`nextOnDisk, nodes`prevOnDisk, nodes`nextByBase, nodes`prevByBase
      ensures Linked() && old(nodes) <= nodes && fresh(nodes - old(nodes))
      ensures State() == Table(old(Splice(Parts(disk), d, 1, PiecesByNumber(cur.data, data))),
                               old(Splice(Parts(base), i, 1, PiecesByBase(cur.data, data))),
                               if old(maximumInMap) < 0 && data.kind.Map? && act != REPLACE then data.blocks else old(maximumInMap),
                               mediaSize)
    {
      hide DiskList, BaseList, SameEntries, Parts, Core, Splice, AddressesFromOne;
      PiecesOf(cur.data, data);
      if act == REPLACE {
        ReplaceData(cur, data, d, i);
      } else if act == ADD {
        var entry := AddToFree(cur, rem, data, d, i);
      } else {
        SplitFree(cur, rem, data, free, d, i);
      }
      StateIs();
    }

    lemma PiecesOf(cur: Part, p: Part)
      requires cur.start <= p.start && p.End() <= cur.End() && p.blocks > 0
      requires WellFormedPart(cur) && cur.kind.Free?
      ensures var act := ActionFor(cur, p.start, p.blocks);
        && (act == REPLACE ==> PiecesByBase(cur, p) == PiecesByNumber(cur, p) == [p])
        && (act == ADD && cur.start == p.start ==> PiecesByBase(cur, p) == PiecesByNumber(cur, p) == [p, Resized(cur, p.End(), cur.End() - p.End())])
        && (act == ADD && cur.start != p.start ==> PiecesByBase(cur, p) == [Resized(cur, cur.start, p.start - cur.start), p])
        && (act == ADD && cur.start != p.start ==> PiecesByNumber(cur, p) == [p, Resized(cur, cur.start, p.start - cur.start)])
        && (act == SPLIT ==> PiecesByBase(cur, p) == PiecesByNumber(cur, p) == [FreePart(cur.start, p.start - cur.start), p, Resized(cur, p.End(), cur.End() - p.End())])
    {
    }

    lemma StateFacts()
      requires Linked() && Numbered()
      ensures State() == Table(Parts(disk), Parts(base), maximumInMap, mediaSize)
      ensures |State().base| == blocksInMap == |base| && AddressesFromOne(disk) && BaseList()
    {
    }

    lemma StateIs()
      ensures State() == Table(Parts(disk), Parts(base), maximumInMap, mediaSize)
    {
    }

    lemma SettledPart(i: nat)
      requires Linked() && Settled(State()) && i < |base|
      ensures WellFormedPart(base[i].data) && base[i].data.blocks > 0 && State().base[i] == base[i].data
      ensures base[i] in nodes
    {
      assert base[i] in Members(base);
      assert Parts(base)[i] == base[i].data;
    }

    /** Every edit ends by renumbering. */
    method FinishEdit()
      requires Linked()
      modifies nodes`diskAddress, nodes`mapEntries, this`changed
      ensures Linked() && Numbered() && State() == old(State()) && changed
    {
      hide DiskList, BaseList, SameEntries, Numbered, Parts, State;
      assert blocksInMap == |disk| && Members(disk) == nodes by { ListsDistinct(); }
      RenumberDiskAddresses();
      changed := true;
    }

    /** What to do to the free entry data to make room, and the sizes of what is left of it. */
    method Plan(data: Part, start: nat, blocks: nat)
      returns (act: nat, adjustedBase: nat, adjustedLength: nat, newBase: nat, newLength: nat)
      requires data.start <= start && start + blocks <= data.End()
      ensures act == ActionFor(data, start, blocks)
      ensures act == ADD && data.start == start ==> adjustedBase == start + blocks && adjustedBase + adjustedLength == data.End()
      ensures act == ADD && data.start != start ==> adjustedBase == data.start && adjustedBase + adjustedLength == start
      ensures act == SPLIT ==> adjustedBase == start + blocks && adjustedBase + adjustedLength == data.End()
      ensures act == SPLIT ==> newBase == data.start && newBase + newLength == start
    {
      adjustedBase, adjustedLength := 0, 0;
      newBase, newLength := 0, 0;
      if data.start == start {
        if data.blocks == blocks {
          act := REPLACE;
        } else {
          act := ADD;
          adjustedBase := start + blocks;
          adjustedLength := data.blocks - blocks;
        }
      } else {
        if data.start + data.blocks == start + blocks {
          act := ADD;
          adjustedBase := data.start;
          adjustedLength := start - adjustedBase;
        } else {
          act := SPLIT;
          newBase := data.start;
          newLength := start - newBase;
          adjustedBase := start + blocks;
          adjustedLength := data.blocks - (blocks + newLength);
        }
      }
    }

    /** The new entry goes into the free entry cur as planned, and the entries are renumbered. */
    method InsertAndNumber(cur: Entry, act: int, rem: Part, data: Part, free: Part, ghost i: nat)
      requires Linked() && Numbered() && Settled(State()) && i < |base| && base[i] == cur
      requires cur.data.start <= data.start && data.End() <= cur.data.End() && data.blocks > 0
      requires WellFormedPart(cur.data) && cur.data.kind.Free? && act == ActionFor(cur.data, data.start, data.blocks)
      requires act == ADD && cur.data.start == data.start ==> rem == Resized(cur.data, data.End(), cur.data.End() - data.End())
      requires act == ADD && cur.data.start != data.start ==> rem == Resized(cur.data, cur.data.start, data.start - cur.data.start)
      requires act == SPLIT ==> rem == Resized(cur.data, data.End(), cur.data.End() - data.End())
      requires act == SPLIT ==> free == FreePart(cur.data.start, data.start - cur.data.start)
      modifies this, nodes
      ensures Linked() && Numbered() && old(nodes) <= nodes && fresh(nodes - old(nodes))
      ensures State() == PutAtStart(old(State()), i, old(cur.data), data, act)
    {
      hide DiskList, BaseList, SameEntries, Parts, Core, Splice, AddressesFromOne, PiecesByBase, PiecesByNumber,
           NoAdjacentFree, WellFormedParts, Numbered, Linked, WellFormedPart, Resized, FreePart, State;
      StateFacts();
      SettledPart(i);
      ghost var d := Numbers(cur, i);
      LocatesInTable(cur, d, i);
      Insert(cur, act, rem, data, free, d, i);
      FinishEdit();
    }

    /** The table with p put into base[i], which is cur. */
    ghost function PutAtStart(t: Table, i: nat, cur: Part, p: Part, act: int): Table
      requires i < |t.base| && IndexOfStart(t.disk, cur.start) < |t.disk|
      requires cur.start <= p.start && p.End() <= cur.End()
    {
      Table(Splice(t.disk, IndexOfStart(t.disk, cur.start), 1, PiecesByNumber(cur, p)),
            Splice(t.base, i, 1, PiecesByBase(cur, p)),
            if t.maxInMap < 0 && p.kind.Map? && act != REPLACE then p.blocks else t.maxInMap,
            t.mediaSize)
    }

    method AddPartition(name: string, kind: Kind, start: nat, blocks: nat) returns (ok: bool)
      requires Linked() && Numbered() && Settled(State())
      requires blocks > 0 && start + blocks < 0x1_0000_0000 && !kind.Free?
      modifies this, nodes
      ensures Linked() && Numbered() && old(nodes) <= nodes && fresh(nodes - old(nodes))
      ensures ok == Add(old(State()), name, kind, start, blocks).Some?
      ensures State() == AddOrSame(old(State()), name, kind, start, blocks)
    {
      hide DiskList, BaseList, SameEntries, Parts, Core, Splice, AddressesFromOne, Add, FindContaining,
           PiecesByBase, PiecesByNumber, NoAdjacentFree, WellFormedParts, Numbered, State, Linked, AddOrSame;
      StateFacts();
      AddResult(State(), name, kind, start, blocks);
      var cur;
      ghost var i;
      cur, i := FindEntryContaining(start, blocks);
      if cur != null { SettledPart(i); }
      if cur == null || !cur.data.kind.Free? {
        return false;
      }
      var act, adjustedBase, adjustedLength, newBase, newLength := Plan(cur.data, start, blocks);
      var limit := if maximumInMap < 0 then mediaSize else maximumInMap;
      if blocksInMap + act > limit {
        return false;
      }
      InsertAndNumber(cur, act, Resized(cur.data, adjustedBase, adjustedLength), NewPart(name, kind, start, blocks),
                      FreePart(newBase, newLength), i);
      ok := true;
    }

    /** Links that lead past s[k] are the links of s without it. */
    lemma BaseUnlinked(was: seq<Entry>, k: nat)
      requires k < |was| && Distinct(was)
      requires forall j {:trigger was[j].nextByBase} :: 0 <= j < |was| && j != k ==> was[j].nextByBase == if j == k - 1 then At(was, k + 1) else At(was, j + 1)
      requires forall j {:trigger was[j].prevByBase} :: 0 <= j < |was| && j != k ==> was[j].prevByBase == if j == k + 1 then At(was, k - 1) else At(was, j - 1)
      ensures var r := was[..k] + was[k + 1..];
        && Distinct(r)
        && (forall j {:trigger r[j].nextByBase} :: 0 <= j < |r| ==> r[j].nextByBase == At(r, j + 1))
        && (forall j {:trigger r[j].prevByBase} :: 0 <= j < |r| ==> r[j].prevByBase == At(r, j - 1))
    {
      var r := was[..k] + was[k + 1..];
      forall j | 0 <= j < |r| ensures r[j] == if j < k then was[j] else was[j + 1] {}
    }

    method RemoveFromBaseOrder(entry: Entry, ghost k: nat)
      requires BaseList() && k < |base| && base[k] == entry
      modifies this`baseOrder, this`base, base`nextByBase, base`prevByBase
      ensures BaseList() && base == old(base)[..k] + old(base)[k + 1..]
    {
      var p := entry.nextByBase;
      if baseOrder == entry {
        baseOrder := p;
      }
      if p != null {
        p.prevByBase := entry.prevByBase;
      }
      if entry.prevByBase != null {
        entry.prevByBase.nextByBase := p;
      }
      BaseUnlinked(base, k);
      base := base[..k] + base[k + 1..];
    }

    method DeleteEntry(entry: Entry, ghost d: nat, ghost i: nat)
      requires Linked() && Locates(entry, d, i)
      modifies this`diskOrder, this`disk, this`baseOrder, this`base, this`nodes, this`blocksInMap
      modifies nodes`nextOnDisk, nodes`prevOnDisk, nodes`nextByBase, nodes`prevByBase
      ensures Linked() && nodes == old(nodes) - {entry}
      ensures disk == old(disk)[..d] + old(disk)[d + 1..] && base == old(base)[..i] + old(base)[i + 1..]
    {
      hide DiskList, BaseList, Parts;
      ListsDistinct();
      blocksInMap := blocksInMap - 1;
      MembersRemoved(disk, d);
      MembersRemoved(base, i);
      RemoveFromDiskOrder(entry, d);
      RemoveFromBaseOrder(entry, i);
      nodes := nodes - {entry};
    }

    lemma PartsRemoved(s: seq<Entry>, ps: seq<Part>, drop: nat, kept: nat)
      requires drop < |ps| == |s| && kept < |s| && kept != drop
      requires forall j :: 0 <= j < |s| && j != kept ==> s[j].data == ps[j]
      ensures Parts(s[..drop] + s[drop + 1..]) == Splice(ps[kept := s[kept].data], drop, 1, [])
    {
      hide Parts;
      var r := s[..drop] + s[drop + 1..];
      forall j | 0 <= j < |r| ensures r[j] == if j < drop then s[j] else s[j + 1] {}
    }

    /** entry takes over the blocks of its base-order neighbour p, which goes away. */
    method AbsorbEntry(entry: Entry, p: Entry, data: Part, ghost i: nat, ghost keep: nat)
      requires Linked() && Core(State())
      requires i + 1 < |base| && (keep == i || keep == i + 1) && base[keep] == entry && base[i + i + 1 - keep] == p
      requires data == MergedPart(State().base, i, keep)
      modifies this`diskOrder, this`disk, this`baseOrder, this`base, this`nodes, this`blocksInMap
      modifies nodes`nextOnDisk, nodes`prevOnDisk, nodes`nextByBase, nodes`prevByBase, nodes`data
      ensures Linked() && nodes == old(nodes) - {p} && State() == Merge(old(State()), i, keep)
      ensures i < |base| && base[i] == entry && entry.data == data
    {
      hide DiskList, BaseList, SameEntries, Parts, Core, AddressesFromOne, Merge, Splice, MergedPart;
      ListsDistinct();
      ghost var d := Numbers(entry, keep);
      ghost var dp := Numbers(p, i + i + 1 - keep);
      ghost var t, ds, bs := State(), disk, base;
      MergeAt(t, i, keep, d, dp);
      entry.data := data;
      DeleteEntry(p, dp, i + i + 1 - keep);
      PartsRemoved(ds, t.disk, dp, d);
      PartsRemoved(bs, t.base, i + i + 1 - keep, keep);
    }

    lemma Neighbours(i: nat)
      requires Linked() && Core(State()) && i < |base|
      ensures base[i].nextByBase == At(base, i + 1) && base[i].prevByBase == At(base, i - 1)
      ensures |State().base| == |base| && forall j :: 0 <= j < |base| ==> State().base[j] == base[j].data
      ensures i + 1 < |base| ==> base[i].data.End() == base[i + 1].data.start
      ensures i > 0 ==> base[i - 1].data.End() == base[i].data.start
      ensures base[i] in nodes
    {
      assert base[i] in Members(base);
      var ps := Parts(base);
      assert i + 1 < |ps| ==> ps[i].End() == ps[i + 1].start;
      assert i > 0 ==> ps[i - 1].End() == ps[i].start;
    }

    method CombineNextEntry(entry: Entry, ghost i: nat)
      requires Linked() && Core(State()) && i < |base| && base[i] == entry && entry.data.kind.Free?
      modifies this`diskOrder, this`disk, this`baseOrder, this`base, this`nodes, this`blocksInMap
      modifies nodes`nextOnDisk, nodes`prevOnDisk, nodes`nextByBase, nodes`prevByBase, nodes`data
      ensures Linked() && nodes <= old(nodes) && State() == CombineNext(old(State()), i)
      ensures i < |base| && base[i] == entry && entry.data.kind.Free?
    {
      hide DiskList, BaseList, SameEntries, Parts, Core, Linked, Merge, Splice, State;
      Neighbours(i);
      if entry.nextByBase != null {
        var p := entry.nextByBase;
        if !p.data.kind.Free? {
        } else if entry.data.start + entry.data.blocks != p.data.start {
          assert false;  // entries tile the medium, so this printed complaint is never reached
        } else {
          var data := Resized(entry.data, entry.data.start, entry.data.blocks + p.data.blocks);
          AbsorbEntry(entry, p, data, i, i);
        }
      }
    }

    method CombinePrevEntry(entry: Entry, ghost i: nat)
      requires Linked() && Core(State()) && i < |base| && base[i] == entry && entry.data.kind.Free?
      modifies this`diskOrder, this`disk, this`baseOrder, this`base, this`nodes, this`blocksInMap
      modifies nodes`nextOnDisk, nodes`prevOnDisk, nodes`nextByBase, nodes`prevByBase, nodes`data
      ensures Linked() && nodes <= old(nodes) && State() == CombinePrev(old(State()), i)
    {
      hide DiskList, BaseList, SameEntries, Parts, Core, Linked, Merge, Splice, State;
      Neighbours(i);
      if entry.prevByBase != null {
        var p := entry.prevByBase;
        if !p.data.kind.Free? {
        } else if p.data.start + p.data.blocks != entry.data.start {
          assert false;  // as above
        } else {
          var data := Resized(entry.data, p.data.start, p.data.blocks + entry.data.blocks);
          AbsorbEntry(entry, p, data, i - 1, i);
        }
      }
    }

    /** combine_entry, once entry has been made free. */
    method CombineEntry(entry: Entry, ghost i: nat)
      requires Linked() && Core(State()) && i < |base| && base[i] == entry
      requires entry.data.kind.Free?
      modifies this`diskOrder, this`disk, this`baseOrder, this`base, this`nodes, this`blocksInMap
      modifies nodes`nextOnDisk, nodes`prevOnDisk, nodes`nextByBase, nodes`prevByBase, nodes`data
      ensures Linked() && nodes <= old(nodes)
      ensures State() == CombinePrev(CombineNext(old(State()), i), i)
    {
      hide DiskList, BaseList, SameEntries, Parts, Core, Linked, CombineNext, CombinePrev, State;
      CombineNextEntry(entry, i);
      CombinePrevEntry(entry, i);
    }

    method FindEntryByDiskAddress(index: int) returns (cur: Entry?)
      requires Linked() && Numbered()
      ensures cur == At(disk, index - 1)
    {
      cur := diskOrder;
      ghost var j := 0;
      while cur != null
        invariant 0 <= j <= |disk| && cur == At(disk, j)
        invariant j > index - 1 ==> index < 1
        decreases |disk| - j
      {
        if cur.diskAddress == index {
          break;
        }
        cur := cur.nextOnDisk;
        j := j + 1;
      }
    }

    /** The data of base[i] becomes free space, which then merges with its neighbours. */
    method FreeEntry(entry: Entry, ghost i: nat)
      requires Linked() && Core(State()) && i < |base| && base[i] == entry
      modifies this`diskOrder, this`disk, this`baseOrder, this`base, this`nodes, this`blocksInMap, this`changed
      modifies nodes`nextOnDisk, nodes`prevOnDisk, nodes`nextByBase, nodes`prevByBase, nodes`data, nodes`diskAddress, nodes`mapEntries
      ensures Linked() && Numbered() && nodes <= old(nodes)
      ensures State() == FreeUp(old(State()), i)
    {
      hide DiskList, BaseList, SameEntries, Parts, Core, Linked, CombineNext, CombinePrev, State, Splice;
      Neighbours(i);
      var data := FreePart(entry.data.start, entry.data.blocks);
      SetEntry(entry, data, i);
      CombineEntry(entry, i);
      FinishEdit();
    }

    method SetEntry(entry: Entry, data: Part, ghost i: nat)
      requires Linked() && Core(State()) && i < |base| && base[i] == entry
      requires data.start == entry.data.start && data.blocks == entry.data.blocks
      modifies entry`data
      ensures Linked() && Core(State()) && State() == SetPart(old(State()), i, data) && entry.data == data
    {
      hide DiskList, BaseList, SameEntries, Parts, Core, Splice;
      Neighbours(i);
      StateIs();
      ghost var d := Numbers(entry, i);
      LocatesInTable(entry, d, i);
      SetPartKeepsCore(State(), i, data);
      ReplaceData(entry, data, d, i);
      StateIs();
    }

    lemma ValidFacts()
      requires Valid()
      ensures Linked() && Numbered() && Settled(State()) && Core(State()) && Inv(State())
      ensures |State().disk| == |disk| && |State().base| == |base| == blocksInMap
      ensures forall j :: 0 <= j < |disk| ==> State().disk[j] == disk[j].data && disk[j] in nodes
      ensures State().maxInMap == maximumInMap && State().mediaSize == mediaSize
      ensures AddressesFromOne(disk) && DiskList() && BaseList()
    {
      forall j | 0 <= j < |disk| ensures disk[j] in nodes { assert disk[j] in Members(disk); }
    }

    method DeletePartition(number: int) returns (found: bool)
      requires Valid()
      modifies this, nodes
      ensures Valid() && nodes <= old(nodes)
      ensures found <==> 1 <= number <= |old(disk)|
      ensures State() == Delete(old(State()), number)
    {
      hide DiskList, BaseList, SameEntries, Parts, Core, Linked, State, FreeUp, Inv;
      ValidFacts();
      var entry := FindEntryByDiskAddress(number);
      if entry == null {
        return false;
      }
      found := true;
      if entry.data.kind.Map? {
        return;
      }
      DeleteKeepsInv(State(), number);
      ghost var i := BaseIndex(entry, number - 1);
      FreeEntry(entry, i);
    }

    lemma BaseIndex(entry: Entry, d: nat) returns (i: nat)
      requires Linked() && Core(State()) && d < |disk| && disk[d] == entry
      ensures i < |base| && base[i] == entry && i == IndexOfStart(State().base, entry.data.start)
      ensures d < |State().disk| && State().disk[d] == entry.data
    {
      assert entry in Members(disk);
      assert entry in Members(base);
      i :| 0 <= i < |base| && base[i] == entry;
      LocatesInTable(entry, d, i);
    }

    /** Where an entry numbered index belongs among the others. */
    lemma MoveCut(s: seq<Entry>, from: int, index: int)
      requires AddressesFromOne(s) && 1 <= from <= |s|
      ensures 0 <= MovedTo(|s|, from, index) - 1 < |s|
      ensures DiskCut(s[..from - 1] + s[from..], MovedTo(|s|, from, index) - 1, index)
    {
      var r := s[..from - 1] + s[from..];
      forall j | 0 <= j < |r| ensures r[j].diskAddress == if j < from - 1 then j + 1 else j + 2 {
        assert r[j] == if j < from - 1 then s[j] else s[j + 1];
      }
    }

    lemma MovedMembers(s: seq<Entry>, f: nat, k: nat)
      requires f < |s| && k < |s| && Distinct(s)
      ensures var r := s[..f] + s[f + 1..];
        Members(r[..k] + [s[f]] + r[k..]) == Members(s) && s[f] !in r
    {
      var r := s[..f] + s[f + 1..];
      MembersRemoved(s, f);
      MembersInserted(r, k, s[f]);
      assert s[f] !in Members(r);
    }

    lemma PartsWithout(s: seq<Entry>, f: nat)
      requires f < |s|
      ensures Parts(s[..f] + s[f + 1..]) == Parts(s)[..f] + Parts(s)[f + 1..]
    {
      hide Parts;
      var a, ps := Parts(s[..f] + s[f + 1..]), Parts(s);
      var b := ps[..f] + ps[f + 1..];
      assert |a| == |b|;
      forall j | 0 <= j < |a| ensures a[j] == b[j] {
        if j < f {
          assert (s[..f] + s[f + 1..])[j] == s[j] && b[j] == ps[j];
        } else {
          assert (s[..f] + s[f + 1..])[j] == s[j + 1] && b[j] == ps[j + 1];
        }
      }
    }

    lemma PutAt<T>(s: seq<T>, k: nat, e: T, j: nat)
      requires k <= |s| && j <= |s|
      ensures (s[..k] + [e] + s[k..])[j] == if j < k then s[j] else if j == k then e else s[j - 1]
    {
    }

    lemma PartsWith(s: seq<Entry>, k: nat, e: Entry)
      requires k <= |s|
      ensures Parts(s[..k] + [e] + s[k..]) == Parts(s)[..k] + [e.data] + Parts(s)[k..]
    {
      hide Parts;
      var r, ps := s[..k] + [e] + s[k..], Parts(s);
      var b := ps[..k] + [e.data] + ps[k..];
      assert |Parts(r)| == |r| == |b|;
      forall j | 0 <= j < |r| ensures Parts(r)[j] == b[j] {
        PutAt(s, k, e, j);
        PutAt(ps, k, e.data, j);
        assert Parts(r)[j] == r[j].data;
      }
    }

    /** cur leaves the disk-order list and comes back with number index. */
    method RemoveAndInsert(cur: Entry, from: int, index: int, ghost k: nat)
      requires DiskList() && AddressesFromOne(disk) && 1 <= from <= |disk| && disk[from - 1] == cur
      requires k == MovedTo(|disk|, from, index) - 1
      modifies this`diskOrder, this`disk, disk`nextOnDisk, disk`prevOnDisk, cur`diskAddress
      ensures DiskList() && k < |old(disk)|
      ensures var rest := old(disk)[..from - 1] + old(disk)[from..]; disk == rest[..k] + [cur] + rest[k..]
    {
      hide DiskList, AddressesFromOne, DiskCut, MovedTo;
      DiskDistinct();
      MoveCut(disk, from, index);
      MovedMembers(disk, from - 1, k);
      RemoveFromDiskOrder(cur, from - 1);
      cur.diskAddress := index;
      InsertInDiskOrder(cur, k);
    }

    lemma DiskDistinct()
      requires DiskList()
      ensures Distinct(disk)
    {
    }

    method Relink(cur: Entry, from: int, index: int)
      requires Linked() && AddressesFromOne(disk) && 1 <= from <= |disk| && disk[from - 1] == cur
      modifies this`diskOrder, this`disk, nodes`nextOnDisk, nodes`prevOnDisk, cur`diskAddress
      ensures Linked()
      ensures Parts(disk) == MovedTable(old(Parts(disk)), from, MovedTo(|old(disk)|, from, index) - 1)
    {
      hide DiskList, BaseList, Parts, AddressesFromOne, DiskCut, MovedTo, MovedTable;
      ListsDistinct();
      MoveCut(disk, from, index);
      ghost var k := MovedTo(|disk|, from, index) - 1;
      MovedMembers(disk, from - 1, k);
      MovedParts(disk, from, k);
      RemoveAndInsert(cur, from, index, k);
    }

    lemma MovedParts(s: seq<Entry>, from: int, k: int)
      requires 1 <= from <= |s| && 0 <= k < |s|
      ensures var rest := s[..from - 1] + s[from..];
        Parts(rest[..k] + [s[from - 1]] + rest[k..]) == MovedTable(Parts(s), from, k)
    {
      hide Parts;
      PartsWithout(s, from - 1);
      PartsWith(s[..from - 1] + s[from..], k, s[from - 1]);
    }

    ghost function MovedTable(ps: seq<Part>, from: int, k: int): seq<Part>
      requires 1 <= from <= |ps| && 0 <= k < |ps|
    {
      var rest := ps[..from - 1] + ps[from..];
      rest[..k] + [ps[from - 1]] + rest[k..]
    }

    method MoveEntry(from: int, index: int)
      requires Valid()
      modifies this, nodes
      ensures Valid() && nodes == old(nodes)
      ensures State() == Move(old(State()), from, index)
    {
      hide DiskList, BaseList, SameEntries, Parts, Linked, State, Inv;
      ValidFacts();
      StateIs();
      MoveKeepsInv(State(), from, index);
      var cur := FindEntryByDiskAddress(from);
      if cur == null {
        return;
      }
      Relink(cur, from, index);
      StateIs();
      FinishEdit();
    }

    method FindMapEntry() returns (cur: Entry?, ghost i: nat)
      requires BaseList()
      ensures cur == At(base, FindMap(Parts(base))) && i == FindMap(Parts(base))
    {
      cur, i := baseOrder, 0;
      while cur != null
        invariant 0 <= i <= |base| && cur == At(base, i)
        invariant forall j :: 0 <= j < i ==> !base[j].data.kind.Map?
        decreases |base| - i
      {
        if cur.data.kind.Map? {
          break;
        }
        cur := cur.nextByBase;
        i := i + 1;
      }
    }

    /** Whether the entry of the map, base[i], may get the new size. */
    method MayResize(entry: Entry, newSize: int, ghost i: nat) returns (ok: bool)
      requires Linked() && Core(State()) && i < |base| && base[i] == entry
      ensures ok == ResizeAllowed(State(), i, newSize)
    {
      hide DiskList, BaseList, SameEntries, Parts, Linked, State, Core;
      Neighbours(i);
      var next := entry.nextByBase;
      assert |State().base| == blocksInMap by { ListsDistinct(); }
      if newSize == entry.data.blocks {
        return false;
      }
      if newSize < entry.data.blocks {
        var incr := if next == null || !next.data.kind.Free? then 1 else 0;
        return newSize >= blocksInMap + incr;
      }
      if next == null || !next.data.kind.Free? {
        return false;
      }
      if entry.data.start + entry.data.blocks != next.data.start {
        return false;
      }
      return newSize <= entry.data.blocks + next.data.blocks;
    }

    method ResizeMap(newSize: int)
      requires Valid()
      modifies this, nodes
      ensures Valid() && fresh(nodes - old(nodes))
      ensures State() == Resize(old(State()), newSize)
    {
      hide DiskList, BaseList, SameEntries, Parts, Linked, State, Inv, Core, FreeUp, Add, FindMap, Resize,
           Settled, Numbered, ResizeAllowed, AddOrSame;
      ValidFacts();
      ResizeSteps(State(), newSize);
      ResizeKeepsInv(State(), newSize);
      StateIs();
      var entry;
      ghost var i;
      entry, i := FindMapEntry();
      if entry == null {
        return;
      }
      var ok := MayResize(entry, newSize, i);
      if !ok {
        return;
      }
      ReplaceMap(entry, newSize, i);
    }

    /** The map's entry is freed, and a new one of the new size goes in at block 1. */
    method ReplaceMap(entry: Entry, newSize: nat, ghost i: nat)
      requires Linked() && Core(State()) && i < |base| && base[i] == entry
      requires 0 < newSize && 1 + newSize < 0x1_0000_0000 && Settled(FreeUp(State(), i))
      modifies this, nodes
      ensures Linked() && Numbered() && fresh(nodes - old(nodes))
      ensures State() == AddOrSame(FreeUp(old(State()), i), MAP_NAME, Map, 1, newSize).(maxInMap := newSize)
    {
      hide DiskList, BaseList, SameEntries, Parts, Linked, State, Core, FreeUp, Settled, Numbered, AddOrSame;
      FreeEntry(entry, i);
      var ok := AddPartition(MAP_NAME, Map, 1, newSize);
      StateIs();
      maximumInMap := newSize;
      StateIs();
    }

    /** init_partition_map: a map over the whole medium with one free entry, then its own entry. */
    constructor (mediaSize: nat)
      requires 2 <= mediaSize < 0x1_0000_0000
      ensures Valid() && fresh(nodes)
      ensures State() == Initialised(mediaSize)
    {
      diskOrder, baseOrder, blocksInMap, maximumInMap := null, null, 0, -1;
      this.mediaSize, changed := mediaSize, true;
      disk, base, nodes := [], [], {};
      new;
      hide Core, Add, Inv;
      CreateFree();
      CreatedIsSettled(mediaSize);
      InitialisedInv(mediaSize);
      var ok := AddPartition(MAP_NAME, Map, 1, if mediaSize <= 128 then 2 else 63);
    }

    method CreateFree()
      requires disk == [] && base == [] && nodes == {} && diskOrder == null && baseOrder == null && blocksInMap == 0
      requires maximumInMap == -1 && mediaSize >= 2
      modifies this
      ensures mediaSize == old(mediaSize) && Linked() && Numbered() && State() == Created(mediaSize) && fresh(nodes)
    {
      var entry := AddDataToMap(FreePart(1, mediaSize - 1), 1, 0, 0);
      assert disk == [entry] && base == [entry];
      FinishEdit();
    }
  }
}
