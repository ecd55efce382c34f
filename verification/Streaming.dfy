/** The cursors that read a backup out and write it back, chunk by chunk. */
module Streaming {
  import opened BackupBlocks
  import opened Stream

  lemma EmittedJoin(info: Info, src: Place -> Sector, c: nat, m: nat, n: nat)
    requires c + m + n <= Length(info)
    ensures Emitted(info, src, c, m) + Emitted(info, src, c + m, n) == Emitted(info, src, c, m + n)
  {
    hide PlaceOf, Length;
  }

  /** Sectors of one partition. */
  function FromPart(src: Place -> Sector, p: nat, k: nat, n: nat): (s: seq<Sector>)
    ensures |s| == n
  {
    seq(n, j requires 0 <= j < n => src(Part(p, k + j)))
  }

  /** Sectors of the MFS volumes. */
  function FromMfs(src: Place -> Sector, at: int, n: nat): (s: seq<Sector>)
    ensures |s| == n
  {
    seq(n, j requires 0 <= j < n => src(Mfs(at + j)))
  }

  /** The stream position of sector k of partition p. */
  function PartStart(info: Info, p: nat): nat
    requires p <= |info.parts|
  {
    1 + PartSectors(info.parts[..p])
  }

  function BlockStart(info: Info, b: nat): int
    requires b <= |info.blocks|
  {
    1 + PartSectors(info.parts) + BlockSectors(info.blocks[..b])
  }

  lemma PartSteps(info: Info, p: nat)
    requires Sized(info.blocks) && p <= |info.parts|
    ensures p < |info.parts| ==> PartStart(info, p + 1) == PartStart(info, p) + info.parts[p]
    ensures PartStart(info, 0) == 1 && PartStart(info, |info.parts|) == BlockStart(info, 0)
    ensures PartStart(info, p) <= Length(info)
  {
    assert info.parts[..|info.parts|] == info.parts && info.blocks[..0] == [] && info.parts[..0] == [];
    BlockSectorsNatural(info.blocks);
    if p < |info.parts| { PartsGrow(info.parts, p); }
  }

  lemma BlockSteps(info: Info, b: nat)
    requires Sized(info.blocks) && b <= |info.blocks|
    ensures b < |info.blocks| ==> BlockStart(info, b + 1) == BlockStart(info, b) + info.blocks[b].sectors
    ensures BlockStart(info, |info.blocks|) == Length(info)
    ensures PartStart(info, |info.parts|) <= BlockStart(info, b) <= Length(info)
  {
    assert info.blocks[..|info.blocks|] == info.blocks && info.parts[..|info.parts|] == info.parts;
    BlockSectorsGrow(info.blocks, b);
    if b < |info.blocks| { BlocksStep(info.blocks, b); }
  }

  lemma EmittedPart(info: Info, src: Place -> Sector, p: nat, k: nat, n: nat)
    requires Sized(info.blocks) && p < |info.parts| && k + n <= info.parts[p]
    ensures PartStart(info, p) + k + n <= Length(info)
    ensures Emitted(info, src, PartStart(info, p) + k, n) == FromPart(src, p, k, n)
  {
    hide PlaceOf;
    PartSteps(info, p);
    PartSteps(info, p + 1);
    hide PartStart, Length;
    forall j | 0 <= j < n ensures Emitted(info, src, PartStart(info, p) + k, n)[j] == FromPart(src, p, k, n)[j] {
      PartPlaceOf(info, p, k + j);
    }
  }

  lemma PartPlaceOf(info: Info, p: nat, k: nat)
    requires Sized(info.blocks) && p < |info.parts| && k < info.parts[p]
    ensures PartStart(info, p) + k < Length(info) && PlaceOf(info, PartStart(info, p) + k) == Part(p, k)
  {
    StreamPart(info, p, k);
  }

  lemma BlockPlaceOf(info: Info, b: nat, k: nat)
    requires Sized(info.blocks) && b < |info.blocks| && k < info.blocks[b].sectors
    ensures 0 <= BlockStart(info, b) + k < Length(info)
    ensures PlaceOf(info, BlockStart(info, b) + k) == Mfs(info.blocks[b].first + k)
  {
    StreamBlock(info, b, k);
  }

  lemma EmittedBlock(info: Info, src: Place -> Sector, b: nat, k: nat, n: nat)
    requires Sized(info.blocks) && b < |info.blocks| && k + n <= info.blocks[b].sectors
    ensures 0 <= BlockStart(info, b) && BlockStart(info, b) + k + n <= Length(info)
    ensures Emitted(info, src, BlockStart(info, b) + k, n) == FromMfs(src, info.blocks[b].first + k, n)
  {
    hide PlaceOf;
    BlockSteps(info, b);
    BlockSteps(info, b + 1);
    hide BlockStart, Length;
    var left, right := Emitted(info, src, BlockStart(info, b) + k, n), FromMfs(src, info.blocks[b].first + k, n);
    forall j | 0 <= j < n ensures left[j] == right[j] {
      BlockPlaceOf(info, b, k + j);
    }
  }

  lemma EmittedNone(info: Info, src: Place -> Sector, c: nat)
    requires c <= Length(info)
    ensures Emitted(info, src, c, 0) == []
  {
  }

  lemma EmittedBoot(info: Info, src: Place -> Sector)
    requires Sized(info.blocks)
    ensures 1 <= Length(info) && Emitted(info, src, 0, 1) == [src(Boot)]
  {
    BlockSectorsNatural(info.blocks);
    assert PlaceOf(info, 0) == Boot;
  }

  class Backup {
    const info: Info
    const src: Place -> Sector
    const presector: nat
    var cursector: nat

    ghost predicate Valid()
      reads this
    {
      Sized(info.blocks) && presector <= cursector <= presector + Length(info)
    }

    constructor (info: Info, src: Place -> Sector, presector: nat)
      requires Sized(info.blocks)
      ensures Valid() && cursector == presector && this.info == info && this.src == src && this.presector == presector
    {
      this.info, this.src, this.presector, this.cursector := info, src, presector, presector;
      BlockSectorsNatural(info.blocks);
    }

    /** Reads up to this many sectors on from the cursor, and fewer only at the end. */
    method Next(sectors: int) returns (buf: seq<Sector>)
      requires Valid()
      modifies this`cursector
      ensures Valid() && cursector == old(cursector) + |buf|
      ensures var c := old(cursector) - presector;
              buf == Emitted(info, src, c, if sectors <= 0 then 0 else Fewer(sectors, Length(info) - c))
    {
      hide Length, PlaceOf, Emitted, PartStart, BlockStart, Sized, FromPart, FromMfs;
      buf := [];
      ghost var c0 := cursector - presector;
      EmittedNone(info, src, c0);
      if sectors <= 0 { return; }
      var left, cur := sectors, cursector - presector;
      PartSteps(info, 0);
      if cur == 0 {
        EmittedBoot(info, src);
        buf := [src(Boot)];
        left, cursector := left - 1, cursector + 1;
      } else {
        cur := cur - 1;
      }
      var more;
      more, left, cur := ReadParts(left, cur, c0, buf);
      buf := more;
      more := ReadBlocks(left, cur, c0, buf);
      buf := more;
    }

    /** The partitions from the cursor on; cur is how far it is past the ones gone by. */
    method ReadParts(sectors: nat, start: nat, ghost c0: nat, read: seq<Sector>)
      returns (buf: seq<Sector>, left: nat, cur: nat)
      requires Valid() && cursector == presector + c0 + |read| && read == Emitted(info, src, c0, |read|)
      requires sectors > 0 ==> c0 + |read| == PartStart(info, 0) + start
      modifies this`cursector
      ensures Valid() && cursector == presector + c0 + |buf| && buf == Emitted(info, src, c0, |buf|)
      ensures |buf| + left == |read| + sectors
      ensures left > 0 ==> c0 + |buf| == BlockStart(info, 0) + cur
    {
      hide Length, PlaceOf, Emitted, PartStart, BlockStart, Sized, FromPart;
      buf, left, cur := read, sectors, start;
      var p := 0;
      while p < |info.parts| && left > 0
        invariant p <= |info.parts| && Valid() && cursector == presector + c0 + |buf|
        invariant buf == Emitted(info, src, c0, |buf|) && |buf| + left == |read| + sectors
        invariant left > 0 ==> c0 + |buf| == PartStart(info, p) + cur
      {
        PartSteps(info, p);
        if info.parts[p] <= cur {
          cur := cur - info.parts[p];
        } else {
          var tocopy := info.parts[p] - cur;
          if tocopy > left { tocopy := left; }
          EmittedPart(info, src, p, cur, tocopy);
          EmittedJoin(info, src, c0, |buf|, tocopy);
          buf := buf + FromPart(src, p, cur, tocopy);
          cur, left, cursector := 0, left - tocopy, cursector + tocopy;
        }
        p := p + 1;
      }
      PartSteps(info, p);
    }

    method ReadBlocks(sectors: nat, start: nat, ghost c0: nat, read: seq<Sector>) returns (buf: seq<Sector>)
      requires Valid() && cursector == presector + c0 + |read| && read == Emitted(info, src, c0, |read|)
      requires sectors > 0 ==> c0 + |read| == BlockStart(info, 0) + start
      modifies this`cursector
      ensures Valid() && cursector == presector + c0 + |buf| && buf == Emitted(info, src, c0, |buf|)
      ensures |buf| == Fewer(|read| + sectors, Length(info) - c0)
    {
      hide Length, PlaceOf, Emitted, BlockStart, FromMfs;
      buf := read;
      var left: int, cur: int, b := sectors, start, 0;
      while b < |info.blocks| && left > 0
        invariant b <= |info.blocks| && cur >= 0 && left >= 0 && Valid() && cursector == presector + c0 + |buf|
        invariant buf == Emitted(info, src, c0, |buf|) && |buf| + left == |read| + sectors
        invariant left > 0 ==> c0 + |buf| == BlockStart(info, b) + cur
      {
        BlockSteps(info, b);
        if info.blocks[b].sectors <= cur {
          cur := cur - info.blocks[b].sectors;
        } else {
          var tocopy := info.blocks[b].sectors - cur;
          if tocopy > left { tocopy := left; }
          EmittedBlock(info, src, b, cur, tocopy);
          EmittedJoin(info, src, c0, |buf|, tocopy);
          buf := buf + FromMfs(src, info.blocks[b].first + cur, tocopy);
          cur, left, cursector := 0, left - tocopy, cursector + tocopy;
        }
        b := b + 1;
      }
      BlockSteps(info, b);
    }
  }

  /* ---------- writing it back ---------- */

  /** Puts sectors on one partition. */
  function ToPart(t: map<Place, Sector>, p: nat, k: nat, chunk: seq<Sector>): map<Place, Sector> {
    if chunk == [] then t else ToPart(t, p, k, chunk[..|chunk| - 1])[Part(p, k + |chunk| - 1) := chunk[|chunk| - 1]]
  }

  /** Puts sectors on the MFS volumes. */
  function ToMfs(t: map<Place, Sector>, at: int, chunk: seq<Sector>): map<Place, Sector> {
    if chunk == [] then t else ToMfs(t, at, chunk[..|chunk| - 1])[Mfs(at + |chunk| - 1) := chunk[|chunk| - 1]]
  }

  lemma {:induction false} StoredPart(info: Info, t: map<Place, Sector>, p: nat, k: nat, chunk: seq<Sector>)
    requires Sized(info.blocks) && p < |info.parts| && k + |chunk| <= info.parts[p]
    ensures PartStart(info, p) + k + |chunk| <= Length(info)
    ensures Stored(info, t, PartStart(info, p) + k, chunk) == ToPart(t, p, k, chunk)
  {
    hide PlaceOf, PartStart, Length;
    if chunk == [] {
      PartSteps(info, p);
      PartSteps(info, p + 1);
    } else {
      StoredPart(info, t, p, k, chunk[..|chunk| - 1]);
      PartPlaceOf(info, p, k + |chunk| - 1);
    }
  }

  lemma {:induction false} StoredBlock(info: Info, t: map<Place, Sector>, b: nat, k: nat, chunk: seq<Sector>)
    requires Sized(info.blocks) && b < |info.blocks| && k + |chunk| <= info.blocks[b].sectors
    ensures 0 <= BlockStart(info, b) && BlockStart(info, b) + k + |chunk| <= Length(info)
    ensures Stored(info, t, BlockStart(info, b) + k, chunk) == ToMfs(t, info.blocks[b].first + k, chunk)
  {
    hide PlaceOf, BlockStart, Length, PartStart;
    if chunk == [] {
      PartSteps(info, |info.parts|);
      PartSteps(info, 0);
      BlockSteps(info, b);
      BlockSteps(info, b + 1);
      PartStartPositive(info);
    } else {
      StoredBlock(info, t, b, k, chunk[..|chunk| - 1]);
      BlockPlaceOf(info, b, k + |chunk| - 1);
    }
  }

  lemma PartStartPositive(info: Info)
    ensures PartStart(info, |info.parts|) > 0
  {
  }

  lemma StoredBoot(info: Info, t: map<Place, Sector>, x: Sector)
    requires Sized(info.blocks)
    ensures 1 <= Length(info) && Stored(info, t, 0, [x]) == t[Boot := x]
  {
    BlockSectorsNatural(info.blocks);
    assert PlaceOf(info, 0) == Boot;
    assert [x][..0] == [];
  }

  lemma StoredNone(info: Info, t: map<Place, Sector>, c: nat)
    requires c <= Length(info)
    ensures Stored(info, t, c, []) == t
  {
  }

  /** Writing a piece after the first n sectors of a chunk. */
  lemma StoredMore(info: Info, t: map<Place, Sector>, c: nat, chunk: seq<Sector>, n: nat, m: nat)
    requires n + m <= |chunk| && c + n + m <= Length(info)
    ensures Stored(info, t, c, chunk[..n + m]) == Stored(info, Stored(info, t, c, chunk[..n]), c + n, chunk[n..n + m])
  {
    assert chunk[..n + m] == chunk[..n] + chunk[n..n + m];
    StoredTwice(info, t, c, chunk[..n], chunk[n..n + m]);
  }

  class Restore {
    const info: Info
    const presector: nat
    var cursector: nat
    var target: map<Place, Sector>
    var volumes: nat

    /** When there are blocks, the volumes have been set up once as soon as one of their sectors is written. */
    ghost predicate Valid()
      reads this
    {
      && Sized(info.blocks) && presector <= cursector <= presector + Length(info)
      && (|info.blocks| > 0 ==> volumes == if cursector - presector > BlockStart(info, 0) then 1 else 0)
    }

    constructor (info: Info, target: map<Place, Sector>, presector: nat)
      requires Sized(info.blocks)
      ensures Valid() && cursector == presector && this.info == info && this.target == target && this.presector == presector
      ensures volumes == 0
    {
      this.info, this.target, this.presector, this.cursector, volumes := info, target, presector, presector, 0;
      BlockSectorsNatural(info.blocks);
    }

    /** Writes a chunk on from the cursor, and leaves off only at the end. */
    method Next(buf: seq<Sector>) returns (written: nat)
      requires Valid()
      modifies this
      ensures Valid() && cursector == old(cursector) + written
      ensures var c := old(cursector) - presector;
              && written == (if |buf| <= 0 then 0 else Fewer(|buf|, Length(info) - c))
              && target == Stored(info, old(target), c, buf[..written])
      ensures var c := old(cursector) - presector;
              volumes == old(volumes) + if c <= BlockStart(info, 0) < c + |buf| then 1 else 0
    {
      hide Length, PlaceOf, Stored, PartStart, BlockStart, Sized, ToPart, ToMfs;
      written := 0;
      ghost var c0 := cursector - presector;
      StoredNone(info, target, c0);
      if |buf| <= 0 { return; }
      var cur := cursector - presector;
      PartSteps(info, 0);
      PartsEnd(info, 0);
      StreamIsAll(info);
      if cur == 0 {
        StoredBoot(info, target, buf[0]);
        assert buf[..1] == [buf[0]];
        target := target[Boot := buf[0]];
        written, cursector := 1, cursector + 1;
      } else {
        cur := cur - 1;
      }
      written, cur := WriteParts(buf, written, cur, c0, old(target));
      if |buf| > written && cur == 0 {
        volumes := volumes + 1;
      }
      written := WriteBlocks(buf, written, cur, c0, old(target));
    }

    method WriteParts(buf: seq<Sector>, done: nat, start: nat, ghost c0: nat, ghost was: map<Place, Sector>)
      returns (written: nat, cur: nat)
      requires Sized(info.blocks) && done <= |buf| && cursector == presector + c0 + done
      requires c0 + done <= Length(info) && target == Stored(info, was, c0, buf[..done])
      requires done < |buf| ==> c0 + done == PartStart(info, 0) + start
      modifies this`cursector, this`target
      ensures done <= written <= |buf| && cursector == presector + c0 + written
      ensures c0 + written <= Length(info) && target == Stored(info, was, c0, buf[..written])
      ensures written < |buf| ==> c0 + written == BlockStart(info, 0) + cur
      ensures written > done ==> c0 + written <= BlockStart(info, 0)
    {
      hide Length, PlaceOf, Stored, PartStart, BlockStart, Sized, ToPart;
      written, cur := done, start;
      var p := 0;
      while p < |info.parts| && |buf| > written
        invariant p <= |info.parts| && done <= written <= |buf| && cursector == presector + c0 + written
        invariant c0 + written <= Length(info) && target == Stored(info, was, c0, buf[..written])
        invariant |buf| > written ==> c0 + written == PartStart(info, p) + cur
        invariant written > done ==> c0 + written <= PartStart(info, p)
      {
        PartSteps(info, p);
        if info.parts[p] <= cur {
          cur := cur - info.parts[p];
        } else {
          var tocopy := info.parts[p] - cur;
          if tocopy > |buf| - written { tocopy := |buf| - written; }
          StoredPart(info, target, p, cur, buf[written..written + tocopy]);
          StoredMore(info, was, c0, buf, written, tocopy);
          target := ToPart(target, p, cur, buf[written..written + tocopy]);
          cur, written, cursector := 0, written + tocopy, cursector + tocopy;
        }
        p := p + 1;
      }
      PartSteps(info, p);
      PartsEnd(info, p);
    }

    method WriteBlocks(buf: seq<Sector>, done: nat, start: nat, ghost c0: nat, ghost was: map<Place, Sector>)
      returns (written: nat)
      requires Sized(info.blocks) && done <= |buf| && cursector == presector + c0 + done
      requires c0 + done <= Length(info) && target == Stored(info, was, c0, buf[..done])
      requires done < |buf| ==> c0 + done == BlockStart(info, 0) + start && (|info.blocks| > 0 ==> volumes == 1)
      modifies this`cursector, this`target
      ensures written == Fewer(|buf|, Length(info) - c0) && cursector == presector + c0 + written
      ensures target == Stored(info, was, c0, buf[..written])
    {
      hide Length, PlaceOf, Stored, BlockStart, ToMfs;
      written := done;
      var cur: int, b := start, 0;
      while b < |info.blocks| && |buf| > written
        invariant b <= |info.blocks| && cur >= 0 && done <= written <= |buf| && cursector == presector + c0 + written
        invariant c0 + written <= Length(info) && target == Stored(info, was, c0, buf[..written])
        invariant |buf| > written ==> c0 + written == BlockStart(info, b) + cur
      {
        BlockSteps(info, b);
        if info.blocks[b].sectors <= cur {
          cur := cur - info.blocks[b].sectors;
        } else {
          var tocopy := info.blocks[b].sectors - cur;
          if tocopy > |buf| - written { tocopy := |buf| - written; }
          StoredBlock(info, target, b, cur, buf[written..written + tocopy]);
          StoredMore(info, was, c0, buf, written, tocopy);
          target := ToMfs(target, info.blocks[b].first + cur, buf[written..written + tocopy]);
          cur, written, cursector := 0, written + tocopy, cursector + tocopy;
        }
        b := b + 1;
      }
      BlockSteps(info, b);
    }
  }

  lemma PartsEnd(info: Info, p: nat)
    requires Sized(info.blocks) && p <= |info.parts|
    ensures PartStart(info, p) <= BlockStart(info, 0) <= Length(info)
  {
    assert info.parts[..|info.parts|] == info.parts && info.blocks[..0] == [];
    BlockSectorsNatural(info.blocks);
    if p < |info.parts| { PartsGrow(info.parts, p); }
  }

  /* ---------- all the chunks ---------- */

  function SumOf(sizes: seq<nat>): nat {
    if sizes == [] then 0 else SumOf(sizes[..|sizes| - 1]) + sizes[|sizes| - 1]
  }

  lemma SumMore(sizes: seq<nat>, i: nat)
    requires i < |sizes|
    ensures SumOf(sizes[..i + 1]) == SumOf(sizes[..i]) + sizes[i]
  {
    assert sizes[..i + 1][..i] == sizes[..i];
  }

  /** Reads in chunks of these sizes: the beginning of the stream, however it is cut. */
  method ReadAll(b: Backup, sizes: seq<nat>) returns (stream: seq<Sector>)
    requires b.Valid() && b.cursector == b.presector
    modifies b`cursector
    ensures b.Valid() && b.cursector == b.presector + |stream|
    ensures stream == Emitted(b.info, b.src, 0, Fewer(SumOf(sizes), Length(b.info)))
  {
    hide Emitted, Length;
    stream := [];
    EmittedNone(b.info, b.src, 0);
    assert sizes[..0] == [];
    var i := 0;
    while i < |sizes|
      invariant 0 <= i <= |sizes| && b.Valid() && b.cursector == b.presector + |stream|
      invariant stream == Emitted(b.info, b.src, 0, Fewer(SumOf(sizes[..i]), Length(b.info)))
    {
      SumMore(sizes, i);
      var chunk := b.Next(sizes[i]);
      EmittedJoin(b.info, b.src, 0, |stream|, |chunk|);
      stream := stream + chunk;
      i := i + 1;
    }
    assert sizes[..i] == sizes;
  }

  /** Writes a stream in chunks of these sizes, as far as it goes. */
  method WriteAll(r: Restore, stream: seq<Sector>, sizes: seq<nat>) returns (written: nat)
    requires r.Valid() && r.cursector == r.presector && |stream| <= Length(r.info)
    modifies r
    ensures r.Valid() && r.cursector == r.presector + written
    ensures written == Fewer(SumOf(sizes), |stream|)
    ensures r.target == Stored(r.info, old(r.target), 0, stream[..written])
    ensures r.info.blocks == [] ==> r.volumes == old(r.volumes)
  {
    hide Stored, Length, BlockStart;
    written := 0;
    StoredNone(r.info, r.target, 0);
    StreamIsAll(r.info);
    assert sizes[..0] == [];
    var i := 0;
    while i < |sizes|
      invariant 0 <= i <= |sizes| && r.Valid() && r.cursector == r.presector + written
      invariant written == Fewer(SumOf(sizes[..i]), |stream|)
      invariant r.target == Stored(r.info, old(r.target), 0, stream[..written])
      invariant r.info.blocks == [] ==> r.volumes == old(r.volumes)
    {
      SumMore(sizes, i);
      var end := Fewer(written + sizes[i], |stream|);
      StoredMore(r.info, old(r.target), 0, stream, written, end - written);
      var n := r.Next(stream[written..end]);
      assert stream[written..end][..n] == stream[written..end];
      written := end;
      i := i + 1;
    }
    assert sizes[..i] == sizes;
  }

  /**
   * A backup read out in any chunks and written back in any others: every sector of the stream is
   * where it came from, nothing else has changed, both cursors are at the end, and the volumes have
   * been set up once if there is an MFS block, and never if there is none.
   */
  method Transfer(info: Info, src: Place -> Sector, was: map<Place, Sector>, presector: nat, readSizes: seq<nat>, writeSizes: seq<nat>)
    returns (target: map<Place, Sector>, readTo: nat, writtenTo: nat, volumes: nat)
    requires Sized(info.blocks) && SumOf(readSizes) >= Length(info) && SumOf(writeSizes) >= Length(info)
    ensures readTo == writtenTo == presector + Length(info)
    ensures forall p :: InStream(info, p) ==> p in target && target[p] == src(p)
    ensures forall p :: !InStream(info, p) ==> (p in target <==> p in was) && (p in was ==> target[p] == was[p])
    ensures volumes == if |info.blocks| > 0 then 1 else 0
  {
    hide Length, Emitted, Stored, PlaceOf;
    var b := new Backup(info, src, presector);
    var stream := ReadAll(b, readSizes);
    var r := new Restore(info, was, presector);
    var written := WriteAll(r, stream, writeSizes);
    assert stream[..written] == stream;
    BlockSectorsNatural(info.blocks);
    StoredStream(info, src, was, |stream|);
    target, readTo, writtenTo, volumes := r.target, b.cursector, r.cursector, r.volumes;
    StreamIsAll(info);
  }

  lemma StreamIsAll(info: Info)
    requires Sized(info.blocks)
    ensures if |info.blocks| > 0 then Length(info) > BlockStart(info, 0) else Length(info) == BlockStart(info, 0)
  {
    assert info.parts[..|info.parts|] == info.parts && info.blocks[..0] == [];
    if |info.blocks| > 0 { BlockSectorsGrow(info.blocks, 0); }
  }

  /**
   * A stream without MFS blocks that is given more at its end: nothing is written, but every call
   * sets the volumes up once more.
   */
  method WriteAtEnd(r: Restore, chunks: seq<seq<Sector>>)
    requires r.Valid() && r.info.blocks == [] && r.cursector == r.presector + Length(r.info)
    requires forall i :: 0 <= i < |chunks| ==> chunks[i] != []
    modifies r
    ensures r.Valid() && r.cursector == old(r.cursector) && r.target == old(r.target)
    ensures r.volumes == old(r.volumes) + |chunks|
  {
    hide Stored, Length, BlockStart;
    StreamIsAll(r.info);
    var i := 0;
    while i < |chunks|
      invariant 0 <= i <= |chunks| && r.Valid()
      invariant r.cursector == old(r.cursector) && r.target == old(r.target) && r.volumes == old(r.volumes) + i
    {
      StoredNone(r.info, r.target, r.cursector - r.presector);
      var written := r.Next(chunks[i]);
      assert chunks[i][..written] == [];
      i := i + 1;
    }
  }
}
