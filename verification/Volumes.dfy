/**
 * The volumes of an MFS file system (volume.c): one after the other they make up one space of sectors,
 * and a transfer has to stay inside one of them. Sectors are 512 bytes.
 */
module Volumes {
  import opened Media

  const SECTOR := 512
  const ROUND := 1024

  datatype Volume = Volume(start: nat, sectors: nat, data: Bytes, readOnly: bool)

  /** Where a list of volumes ends. */
  function End(vols: seq<Volume>): nat {
    if vols == [] then 0 else vols[|vols| - 1].start + vols[|vols| - 1].sectors
  }

  /** A volume starts where the one before it ends, and has some sectors. */
  ghost predicate JoinedAt(vols: seq<Volume>, i: nat)
    requires i < |vols|
  {
    && vols[i].sectors > 0 && |vols[i].data| == SECTOR * vols[i].sectors
    && vols[i].start == if i == 0 then 0 else vols[i - 1].start + vols[i - 1].sectors
  }

  ghost predicate Joined(vols: seq<Volume>) {
    forall i :: 0 <= i < |vols| ==> JoinedAt(vols, i)
  }

  /** The bytes of all the volumes. */
  ghost function Space(vols: seq<Volume>): Bytes {
    if vols == [] then [] else Space(vols[..|vols| - 1]) + vols[|vols| - 1].data
  }

  predicate Holds(v: Volume, sector: nat) { v.start <= sector < v.start + v.sectors }

  /** Whether a range of sectors lies inside one volume. */
  ghost predicate Within(vols: seq<Volume>, sector: nat, count: nat) {
    exists i :: 0 <= i < |vols| && Holds(vols[i], sector) && sector + count <= vols[i].start + vols[i].sectors
  }

  /** Whether the volume of a sector may be written. */
  ghost predicate Writable(vols: seq<Volume>, sector: nat) {
    exists i :: 0 <= i < |vols| && Holds(vols[i], sector) && !vols[i].readOnly
  }

  /* ---------- the space ---------- */

  lemma JoinedFacts(vols: seq<Volume>, i: nat)
    requires Joined(vols) && i < |vols|
    ensures vols[i].sectors > 0 && |vols[i].data| == SECTOR * vols[i].sectors
    ensures Joined(vols[..i]) && vols[i].start == End(vols[..i])
  {
    hide JoinedAt;
    assert JoinedAt(vols, i);
    JoinedAtIs(vols, i);
    forall k | 0 <= k < i ensures JoinedAt(vols[..i], k) {
      assert JoinedAt(vols, k);
      JoinedAtSame(vols, vols[..i], k);
    }
  }

  lemma JoinedAtIs(vols: seq<Volume>, i: nat)
    requires i < |vols| && JoinedAt(vols, i)
    ensures vols[i].sectors > 0 && |vols[i].data| == SECTOR * vols[i].sectors && vols[i].start == End(vols[..i])
  {
  }

  lemma JoinedAtSame(vols: seq<Volume>, next: seq<Volume>, i: nat)
    requires i < |vols| && i < |next| && JoinedAt(vols, i) && |next[i].data| == |vols[i].data|
    requires next[i] == vols[i].(data := next[i].data) && (i > 0 ==> next[i - 1] == vols[i - 1].(data := next[i - 1].data))
    ensures JoinedAt(next, i)
  {
  }

  lemma {:induction false} SpaceLength(vols: seq<Volume>)
    requires Joined(vols)
    ensures |Space(vols)| == SECTOR * End(vols)
  {
    hide Joined;
    if vols == [] {
    } else {
      JoinedFacts(vols, |vols| - 1);
      SpaceLength(vols[..|vols| - 1]);
    }
  }

  lemma SpaceLast(vols: seq<Volume>)
    requires vols != []
    ensures Space(vols) == Space(vols[..|vols| - 1]) + vols[|vols| - 1].data
    ensures End(vols) == vols[|vols| - 1].start + vols[|vols| - 1].sectors
  {
  }

  /** The volumes' ends do not go back. */
  lemma {:induction false} EndsGrow(vols: seq<Volume>, i: nat)
    requires Joined(vols) && i < |vols|
    ensures vols[i].start + vols[i].sectors <= End(vols)
  {
    hide Joined, Space;
    var last := |vols| - 1;
    SpaceLast(vols);
    if i < last {
      JoinedFacts(vols, last);
      EndsGrow(vols[..last], i);
    }
  }

  /** A volume's data is the part of the space from its start on. */
  lemma {:induction false} DataInSpace(vols: seq<Volume>, i: nat)
    requires Joined(vols) && i < |vols|
    ensures SECTOR * (vols[i].start + vols[i].sectors) <= |Space(vols)|
    ensures Space(vols)[SECTOR * vols[i].start..SECTOR * (vols[i].start + vols[i].sectors)] == vols[i].data
  {
    hide Joined, Space, End;
    var last := |vols| - 1;
    JoinedFacts(vols, last);
    SpaceLast(vols);
    SpaceLength(vols);
    SpaceLength(vols[..last]);
    if i < last {
      DataInSpace(vols[..last], i);
      PrefixSlice(Space(vols[..last]), vols[last].data, SECTOR * vols[i].start, SECTOR * (vols[i].start + vols[i].sectors));
    } else {
      SuffixSlice(Space(vols[..last]), vols[last].data);
    }
  }

  lemma PrefixSlice(s: Bytes, t: Bytes, lo: nat, hi: nat)
    requires lo <= hi <= |s|
    ensures (s + t)[lo..hi] == s[lo..hi]
  {
  }

  lemma SuffixSlice(s: Bytes, t: Bytes)
    ensures (s + t)[|s|..|s| + |t|] == t
  {
  }

  /** A sector is in one volume only. */
  lemma OneVolume(vols: seq<Volume>, i: nat, j: nat, sector: nat)
    requires Joined(vols) && i < |vols| && j < |vols| && Holds(vols[i], sector) && Holds(vols[j], sector)
    ensures i == j
  {
    if i < j { Before(vols, i, j); } else if j < i { Before(vols, j, i); }
  }

  lemma Before(vols: seq<Volume>, i: nat, j: nat)
    requires Joined(vols) && i < j < |vols|
    ensures vols[i].start + vols[i].sectors <= vols[j].start
  {
    hide Joined, End;
    JoinedFacts(vols, j);
    EndsGrow(vols[..j], i);
  }

  /** A range is inside a volume if and only if it is in the space and no volume begins behind its start and before its end. */
  lemma WithinIff(vols: seq<Volume>, sector: nat, count: nat)
    requires Joined(vols) && sector < End(vols)
    ensures Within(vols, sector, count) <==>
            sector + count <= End(vols) && forall i :: 0 <= i < |vols| ==> !(sector < vols[i].start < sector + count)
  {
    hide Joined, End;
    SomeVolume(vols, sector);
    var k :| 0 <= k < |vols| && Holds(vols[k], sector);
    EndsGrow(vols, k);
    if sector + count <= vols[k].start + vols[k].sectors {
      forall i | 0 <= i < |vols| ensures !(sector < vols[i].start < sector + count) {
        if i > k { Before(vols, k, i); } else if i < k { Before(vols, i, k); }
      }
    } else {
      NotWithin(vols, k, sector, count);
      NextStarts(vols, k);
    }
  }

  lemma NextStarts(vols: seq<Volume>, k: nat)
    requires Joined(vols) && k < |vols|
    ensures if k + 1 < |vols| then vols[k + 1].start == vols[k].start + vols[k].sectors else End(vols) == vols[k].start + vols[k].sectors
  {
    if k + 1 < |vols| { assert JoinedAt(vols, k + 1); }
  }

  /** Every sector of the space is in some volume. */
  lemma {:induction false} SomeVolume(vols: seq<Volume>, sector: nat)
    requires Joined(vols)
    ensures sector < End(vols) <==> exists i :: 0 <= i < |vols| && Holds(vols[i], sector)
  {
    hide Joined;
    if vols != [] {
      var last := |vols| - 1;
      JoinedFacts(vols, last);
      SomeVolume(vols[..last], sector);
      if sector < vols[last].start {
        var i :| 0 <= i < last && Holds(vols[..last][i], sector);
        assert Holds(vols[i], sector);
      } else if sector < End(vols) {
        assert Holds(vols[last], sector);
      }
      forall i | 0 <= i < |vols| && Holds(vols[i], sector) ensures sector < End(vols) { EndsGrow(vols, i); }
    }
  }

  /** A range inside a volume is that range of the space. */
  lemma RangeInSpace(vols: seq<Volume>, i: nat, sector: nat, count: nat)
    requires Joined(vols) && i < |vols| && Holds(vols[i], sector) && sector + count <= vols[i].start + vols[i].sectors
    ensures SECTOR * (sector + count) <= |Space(vols)| && SECTOR * (sector - vols[i].start + count) <= |vols[i].data|
    ensures vols[i].data[SECTOR * (sector - vols[i].start)..SECTOR * (sector - vols[i].start + count)]
            == Space(vols)[SECTOR * sector..SECTOR * (sector + count)]
  {
    hide Joined, Space, End;
    var start, sectors := vols[i].start, vols[i].sectors;
    DataInSpace(vols, i);
    SliceOfSlice(Space(vols), SECTOR * start, SECTOR * sectors, SECTOR * (sector - start), SECTOR * count);
  }

  lemma WithinSpace(vols: seq<Volume>, sector: nat, count: nat)
    requires Joined(vols) && Within(vols, sector, count)
    ensures SECTOR * (sector + count) <= |Space(vols)|
  {
    var i :| 0 <= i < |vols| && Holds(vols[i], sector) && sector + count <= vols[i].start + vols[i].sectors;
    RangeInSpace(vols, i, sector, count);
  }

  /** Other data in one volume is other data at its place in the space, and nothing else changes. */
  lemma {:induction false} PutInVolume(vols: seq<Volume>, i: nat, at: nat, x: Bytes)
    requires Joined(vols) && i < |vols| && at + |x| <= |vols[i].data|
    ensures var next := vols[i := vols[i].(data := Put(vols[i].data, at, x))];
            && Joined(next) && End(next) == End(vols) && SECTOR * vols[i].start + at + |x| <= |Space(vols)|
            && Space(next) == Put(Space(vols), SECTOR * vols[i].start + at, x)
  {
    hide Put, Joined, Space, End;
    var last := |vols| - 1;
    var data := Put(vols[i].data, at, x);
    var next := vols[i := vols[i].(data := data)];
    JoinedUpdate(vols, i, data);
    JoinedFacts(vols, last);
    SpaceLast(vols);
    SpaceLast(next);
    SpaceLength(vols[..last]);
    if i < last {
      PutInVolume(vols[..last], i, at, x);
      UpdatePrefix(vols, i, next[i], last);
      PutPrefix(Space(vols[..last]), vols[last].data, SECTOR * vols[i].start + at, x);
    } else {
      UpdateLast(vols, next[i]);
      PutSuffix(Space(vols[..last]), vols[last].data, at, x);
    }
  }

  lemma UpdatePrefix<T>(s: seq<T>, i: nat, x: T, n: nat)
    requires i < n <= |s|
    ensures s[i := x][..n] == s[..n][i := x]
  {
  }

  lemma UpdateLast<T>(s: seq<T>, x: T)
    requires s != []
    ensures s[|s| - 1 := x][..|s| - 1] == s[..|s| - 1]
  {
  }

  lemma JoinedUpdate(vols: seq<Volume>, i: nat, data: Bytes)
    requires Joined(vols) && i < |vols| && |data| == |vols[i].data|
    ensures var next := vols[i := vols[i].(data := data)]; Joined(next) && End(next) == End(vols)
  {
    hide JoinedAt;
    var next := vols[i := vols[i].(data := data)];
    forall k | 0 <= k < |next| ensures JoinedAt(next, k) {
      assert JoinedAt(vols, k);
      JoinedAtSame(vols, next, k);
    }
  }

  lemma PutPrefix(s: Bytes, t: Bytes, at: nat, x: Bytes)
    requires at + |x| <= |s|
    ensures Put(s, at, x) + t == Put(s + t, at, x)
  {
  }

  lemma PutSuffix(s: Bytes, t: Bytes, at: nat, x: Bytes)
    requires at + |x| <= |t|
    ensures s + Put(t, at, x) == Put(s + t, |s| + at, x)
  {
  }

  /* ---------- the open volumes ---------- */

  class VolumeSet {
    var volumes: seq<Volume>
    const fakeWrite: bool

    constructor (fakeWrite: bool)
      ensures volumes == [] && Valid() && this.fakeWrite == fakeWrite
    {
      volumes := [];
      this.fakeWrite := fakeWrite;
    }

    ghost predicate Valid()
      reads this
    {
      Joined(volumes)
    }

    /** Adds a partition at the end of the space, cut to a multiple of 1024 sectors, unless that is nothing. */
    method AddVolume(partition: Bytes, readOnly: bool) returns (start: int)
      requires Valid()
      modifies this
      ensures Valid()
      ensures start == if |partition| / SECTOR < ROUND then -1 else End(old(volumes))
      ensures Space(volumes) == if start < 0 then Space(old(volumes))
                                else Space(old(volumes)) + partition[..|partition| / SECTOR / ROUND * ROUND * SECTOR]
      ensures start < 0 ==> volumes == old(volumes)
      ensures start >= 0 ==> |volumes| == |old(volumes)| + 1 && volumes[..|old(volumes)|] == old(volumes) && volumes[|old(volumes)|].readOnly == readOnly
    {
      var sectors := |partition| / SECTOR / ROUND * ROUND;
      if sectors == 0 {
        return -1;
      }
      start := 0;
      var i := 0;
      while i < |volumes|
        invariant 0 <= i <= |volumes| && start == End(volumes[..i])
      {
        start := volumes[i].start + volumes[i].sectors;
        i := i + 1;
      }
      assert volumes[..i] == volumes;
      AddedJoined(volumes, Volume(start, sectors, partition[..sectors * SECTOR], readOnly));
      volumes := volumes + [Volume(start, sectors, partition[..sectors * SECTOR], readOnly)];
    }

    /** The volume a sector is in, if any. */
    method GetVolume(sector: nat) returns (found: bool, v: nat)
      requires Valid()
      ensures found == (sector < End(volumes)) && (found ==> v < |volumes| && Holds(volumes[v], sector))
    {
      SomeVolume(volumes, sector);
      v := 0;
      while v < |volumes|
        invariant 0 <= v <= |volumes| && forall i :: 0 <= i < v ==> !Holds(volumes[i], sector)
      {
        if volumes[v].start <= sector && volumes[v].start + volumes[v].sectors > sector {
          return true, v;
        }
        v := v + 1;
      }
      found := false;
    }

    /** Reads sectors that are all in one volume: that range of the space. */
    method ReadData(to: array<bv8>, at: nat, sector: nat, count: nat) returns (result: int)
      requires Valid() && at + SECTOR * count <= to.Length
      modifies to
      ensures result == if Within(volumes, sector, count) then SECTOR * count else -1
      ensures result >= 0 ==>
        SECTOR * (sector + count) <= |Space(volumes)| &&
        to[..] == Put(old(to[..]), at, Space(volumes)[SECTOR * sector..SECTOR * (sector + count)])
      ensures result < 0 ==> to[..] == old(to[..])
    {
      hide Put, Space, Joined, End;
      var found, v := GetVolume(sector);
      SomeVolume(volumes, sector);
      if !found {
        return -1;
      }
      var rel := sector - volumes[v].start;
      if rel + count > volumes[v].sectors {
        NotWithin(volumes, v, sector, count);
        return -1;
      }
      RangeInSpace(volumes, v, sector, count);
      CopyIn(to, at, volumes[v].data[SECTOR * rel..SECTOR * (rel + count)]);
      result := SECTOR * count;
    }

    /** Writes sectors that are all in one volume, and nothing else of the space. */
    method WriteData(from: array<bv8>, at: nat, sector: nat, count: nat) returns (result: int)
      requires Valid() && at + SECTOR * count <= from.Length
      modifies this
      ensures Valid() && End(volumes) == End(old(volumes)) && SameShape(old(volumes), volumes)
      ensures var may := if fakeWrite then sector < End(old(volumes)) else Within(old(volumes), sector, count) && Writable(old(volumes), sector);
              result == if may then SECTOR * count else -1
      ensures result < 0 || fakeWrite ==> volumes == old(volumes)
      ensures result >= 0 && !fakeWrite ==>
        SECTOR * (sector + count) <= |Space(old(volumes))| &&
        Space(volumes) == Put(Space(old(volumes)), SECTOR * sector, from[at..at + SECTOR * count])
    {
      hide Put, Space, Joined, End;
      var found, v := GetVolume(sector);
      SomeVolume(volumes, sector);
      if !found {
        return -1;
      }
      if fakeWrite {
        return SECTOR * count;
      }
      if volumes[v].readOnly {
        NotWritable(volumes, v, sector);
        return -1;
      }
      var rel := sector - volumes[v].start;
      if rel + count > volumes[v].sectors {
        NotWithin(volumes, v, sector, count);
        return -1;
      }
      RangeInSpace(volumes, v, sector, count);
      ghost var bytes := from[at..at + SECTOR * count];
      PutInVolume(volumes, v, SECTOR * rel, bytes);
      PutIs(volumes[v].data, SECTOR * rel, bytes);
      var data := volumes[v].data;
      volumes := volumes[v := volumes[v].(data := data[..SECTOR * rel] + from[at..at + SECTOR * count] + data[SECTOR * (rel + count)..])];
      result := SECTOR * count;
    }
  }

  /** The same volumes, but for what is in them. */
  ghost predicate SameShape(vols: seq<Volume>, next: seq<Volume>) {
    |vols| == |next| && forall i :: 0 <= i < |vols| ==> next[i] == vols[i].(data := next[i].data)
  }

  lemma PutIs(s: Bytes, at: nat, x: Bytes)
    requires at + |x| <= |s|
    ensures Put(s, at, x) == s[..at] + x + s[at + |x|..]
  {
  }

  lemma NotWithin(vols: seq<Volume>, v: nat, sector: nat, count: nat)
    requires Joined(vols) && v < |vols| && Holds(vols[v], sector) && sector + count > vols[v].start + vols[v].sectors
    ensures !Within(vols, sector, count)
  {
    forall i | 0 <= i < |vols| && Holds(vols[i], sector) ensures i == v { OneVolume(vols, i, v, sector); }
  }

  lemma NotWritable(vols: seq<Volume>, v: nat, sector: nat)
    requires Joined(vols) && v < |vols| && Holds(vols[v], sector) && vols[v].readOnly
    ensures !Writable(vols, sector)
  {
    forall i | 0 <= i < |vols| && Holds(vols[i], sector) ensures i == v { OneVolume(vols, i, v, sector); }
  }

  lemma AddedJoined(vols: seq<Volume>, v: Volume)
    requires Joined(vols) && v.start == End(vols) && v.sectors > 0 && |v.data| == SECTOR * v.sectors
    ensures Joined(vols + [v]) && Space(vols + [v]) == Space(vols) + v.data
  {
    hide JoinedAt;
    var next := vols + [v];
    assert next[..|vols|] == vols;
    forall k | 0 <= k < |next| ensures JoinedAt(next, k) {
      if k < |vols| {
        assert JoinedAt(vols, k);
        JoinedAtSame(vols, next, k);
      } else {
        JoinedLast(vols, v);
      }
    }
  }

  lemma JoinedLast(vols: seq<Volume>, v: Volume)
    requires v.start == End(vols) && v.sectors > 0 && |v.data| == SECTOR * v.sectors
    ensures JoinedAt(vols + [v], |vols|)
  {
  }

  /** Copies bytes into a buffer. */
  method CopyIn(to: array<bv8>, at: nat, bytes: Bytes)
    requires at + |bytes| <= to.Length
    modifies to
    ensures to[..] == Put(old(to[..]), at, bytes)
  {
    ghost var was := to[..];
    var i := 0;
    while i < |bytes|
      invariant 0 <= i <= |bytes|
      invariant forall j :: 0 <= j < to.Length ==> to[j] == if at <= j < at + i then bytes[j - at] else was[j]
    {
      to[at + i] := bytes[i];
      i := i + 1;
    }
    hide Put;
    IsPut(to[..], was, at, bytes);
  }
}
