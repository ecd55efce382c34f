/** The transaction log on the volumes (log.c), a sector a record with its stamp and its checksum. */
module TransactionLog {
  import opened Arithmetic
  import opened LogRing
  import opened Media
  import opened Volumes
  import opened Wrappers
  import ByteOrder
  import Crc

  const CRC_WORD := 1
  const HEADER := 8

  /** The stamp a record begins with. */
  function StampOf(record: Bytes): (r: nat)
    requires |record| >= 4
    ensures r < WORD
  {
    StampSmall(record[..4]);
    ByteOrder.ValueOf(record[..4])
  }

  lemma StampSmall(s: Bytes)
    requires |s| == 4
    ensures ByteOrder.ValueOf(s) < WORD
  {
    hide ByteOrder.ByteValue;
    ByteOrder.ByteSmall(s[0]);
    ByteOrder.ByteSmall(s[1]);
    ByteOrder.ByteSmall(s[2]);
    ByteOrder.ByteSmall(s[3]);
  }

  /** The stamp of a record that checks. */
  function State(record: Bytes): Option<nat>
    requires |record| == SECTOR
  {
    if Crc.Checked(record, 4) then Some(StampOf(record)) else None
  }

  function SectorAt(space: Bytes, sector: nat): (r: Bytes)
    requires SECTOR * (sector + 1) <= |space|
    ensures |r| == SECTOR
  {
    space[SECTOR * sector..SECTOR * (sector + 1)]
  }

  /** The ring a range of sectors holds. */
  ghost function RingOf(space: Bytes, start: nat, count: nat): (r: Ring)
    requires SECTOR * (start + count) <= |space|
    ensures |r| == count
  {
    seq(count, k requires 0 <= k < count => State(SectorAt(space, start + k)))
  }

  lemma RingAt(space: Bytes, start: nat, count: nat, k: nat)
    requires SECTOR * (start + count) <= |space| && k < count
    ensures RingOf(space, start, count)[k] == State(SectorAt(space, start + k))
  {
  }

  /** Another record in one slot. */
  lemma RingPut(space: Bytes, start: nat, count: nat, k: nat, record: Bytes)
    requires SECTOR * (start + count) <= |space| && k < count && |record| == SECTOR
    ensures var next := Put(space, SECTOR * (start + k), record);
            RingOf(next, start, count) == RingOf(space, start, count)[k := State(record)]
  {
    hide State, Put, RingOf, SectorAt;
    var next := Put(space, SECTOR * (start + k), record);
    forall i | 0 <= i < count ensures RingOf(next, start, count)[i] == if i == k then State(record) else RingOf(space, start, count)[i] {
      RingAt(next, start, count, i);
      RingAt(space, start, count, i);
      SectorPut(space, start + k, record, start + i);
    }
  }

  /** The sectors of a range. */
  ghost function SectorsOf(space: Bytes, start: nat, count: nat): (r: seq<Bytes>)
    requires SECTOR * (start + count) <= |space|
    ensures |r| == count
  {
    seq(count, k requires 0 <= k < count => SectorAt(space, start + k))
  }

  lemma SectorsPut(space: Bytes, start: nat, count: nat, k: nat, record: Bytes)
    requires SECTOR * (start + count) <= |space| && k < count && |record| == SECTOR
    ensures SectorsOf(Put(space, SECTOR * (start + k), record), start, count) == SectorsOf(space, start, count)[k := record]
  {
    hide Put, SectorAt;
    var next := Put(space, SECTOR * (start + k), record);
    forall i | 0 <= i < count ensures SectorsOf(next, start, count)[i] == if i == k then record else SectorsOf(space, start, count)[i] {
      SectorPut(space, start + k, record, start + i);
    }
  }

  lemma SectorsAt(space: Bytes, start: nat, count: nat, k: nat)
    requires SECTOR * (start + count) <= |space| && k < count
    ensures SectorsOf(space, start, count)[k] == SectorAt(space, start + k)
  {
  }

  lemma SectorPut(space: Bytes, sector: nat, record: Bytes, other: nat)
    requires SECTOR * (sector + 1) <= |space| && SECTOR * (other + 1) <= |space| && |record| == SECTOR
    ensures SectorAt(Put(space, SECTOR * sector, record), other) == if other == sector then record else SectorAt(space, other)
  {
    hide Put;
    var next := Put(space, SECTOR * sector, record);
    var expected := if other == sector then record else SectorAt(space, other);
    forall i | 0 <= i < SECTOR ensures SectorAt(next, other)[i] == expected[i] {
      PutAt(space, SECTOR * sector, record, SECTOR * other + i);
    }
  }

  /** A sector of the space is inside a volume. */
  lemma OneSector(vols: seq<Volume>, sector: nat)
    requires Joined(vols) && sector < End(vols)
    ensures Within(vols, sector, 1) && SECTOR * (sector + 1) <= |Space(vols)|
  {
    hide Joined, End, Space;
    SomeVolume(vols, sector);
    var i :| 0 <= i < |vols| && Holds(vols[i], sector);
    RangeInSpace(vols, i, sector, 1);
  }

  class Log {
    const vols: VolumeSet
    const start: nat
    const count: nat

    constructor (vols: VolumeSet, start: nat, count: nat)
      requires vols.Valid() && 0 < count < WORD && start + count <= End(vols.volumes)
      ensures Valid() && this.vols == vols && this.start == start && this.count == count
    {
      this.vols := vols;
      this.start := start;
      this.count := count;
      SpaceLength(vols.volumes);
    }

    ghost predicate Valid()
      reads vols
    {
      vols.Valid() && 0 < count < WORD && start + count <= End(vols.volumes) && SECTOR * (start + count) <= |Space(vols.volumes)|
    }

    ghost function Stamps(): (r: Ring)
      requires Valid()
      reads vols
      ensures |r| == count
    {
      RingOf(Space(vols.volumes), start, count)
    }

    ghost function Sectors(): (r: seq<Bytes>)
      requires Valid()
      reads vols
      ensures |r| == count
    {
      SectorsOf(Space(vols.volumes), start, count)
    }

    /** Reads the record with a stamp: it is there exactly when the ring says so. */
    method Read(buf: array<bv8>, stamp: nat) returns (result: int)
      requires Valid() && buf.Length == SECTOR && stamp < WORD
      modifies buf
      ensures result == if Readable(Stamps(), stamp) then SECTOR else 0
      ensures buf[..] == Sectors()[stamp % count]
      ensures result > 0 ==> StampOf(buf[..]) == stamp
    {
      hide Put, Space, Joined, End, RingOf, SectorsOf, Within, StampOf, Crc.Checked;
      SectorsAt(Space(vols.volumes), start, count, stamp % count);
      var sector := stamp % count + start;
      OneSector(vols.volumes, sector);
      ghost var was := buf[..];
      result := vols.ReadData(buf, 0, sector, 1);
      PutAll(was, SectorAt(Space(vols.volumes), sector));
      RingAt(Space(vols.volumes), start, count, stamp % count);
      if stamp != StampOf(buf[..]) {
        return 0;
      }
      var valid := Crc.CheckCrc(buf, CRC_WORD);
      result := if valid then SECTOR else 0;
    }

    /** Writes a record in its stamp's slot, with its checksum; nothing else of the space changes. */
    method Write(buf: array<bv8>) returns (result: int)
      requires Valid() && buf.Length == SECTOR
      modifies buf, vols
      ensures Valid() && StampOf(buf[..]) == StampOf(old(buf[..])) && Crc.Checked(buf[..], 4)
      ensures forall i :: 0 <= i < SECTOR && !(4 <= i < 8) ==> buf[i] == old(buf[i])
      ensures result == -1 || result == SECTOR
      ensures result < 0 || vols.fakeWrite ==> vols.volumes == old(vols.volumes)
      ensures result > 0 && !vols.fakeWrite ==>
        Space(vols.volumes) == Put(Space(old(vols.volumes)), SECTOR * (start + StampOf(buf[..]) % count), buf[..])
      ensures result > 0 && !vols.fakeWrite ==> Sectors() == old(Sectors())[StampOf(buf[..]) % count := buf[..]]
      ensures result > 0 && !vols.fakeWrite ==> Stamps() == old(Stamps())[StampOf(buf[..]) % count := Some(StampOf(buf[..]))]
    {
      hide Put, Space, Joined, End, RingOf, SectorsOf, Within, Writable, SameShape, StampOf, Crc.Checked;
      ghost var was, space := buf[..], Space(vols.volumes);
      var stamp := StampOf(buf[..]);
      Crc.UpdateCrc(buf, CRC_WORD);
      SameStamp(was, buf[..]);
      var sector := stamp % count + start;
      OneSector(vols.volumes, sector);
      var written := vols.WriteData(buf, 0, sector, 1);
      SpaceLength(vols.volumes);
      AllOf(buf[..]);
      StateIs(buf[..]);
      RingPut(space, start, count, stamp % count, buf[..]);
      SectorsPut(space, start, count, stamp % count, buf[..]);
      result := if written != SECTOR then -1 else SECTOR;
    }
  }

  lemma StateIs(record: Bytes)
    requires |record| == SECTOR && Crc.Checked(record, 4)
    ensures State(record) == Some(StampOf(record))
  {
  }

  lemma SameStamp(s: Bytes, t: Bytes)
    requires |s| == |t| == SECTOR && forall i :: 0 <= i < SECTOR && !(4 <= i < 8) ==> t[i] == s[i]
    ensures StampOf(s) == StampOf(t)
  {
    assert s[..4] == t[..4];
  }

  lemma PutAll(s: Bytes, x: Bytes)
    requires |s| == |x|
    ensures Put(s, 0, x) == x
  {
  }

  lemma AllOf(s: Bytes)
    ensures s[0..0 + |s|] == s
  {
  }
}
