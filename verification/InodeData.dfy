/**
 * Reading part of an inode's data (inode.c): from a sector offset on, through the inode's extents, each
 * piece with one read of the volumes.
 */
module InodeData {
  import opened Media
  import opened Volumes

  datatype Extent = Extent(sector: nat, count: nat)

  /** An inode: its extents, or when it has none the data kept in its own sector. */
  datatype Inode = Inode(stream: bool, size: nat, extents: seq<Extent>, rest: Bytes)

  /** Bytes of an inode's sector before the data kept in it. */
  const HEADER := 0x3c

  /** What was read up to the first piece that is not inside one volume, if there is one. */
  datatype Outcome = Outcome(bytes: Bytes, ok: bool)

  function Least(a: int, b: int): int { if a < b then a else b }

  /** Reads of the pieces one after the other. */
  ghost function Pieces(vols: seq<Volume>, extents: seq<Extent>, start: nat, count: nat): Outcome
    requires Joined(vols)
  {
    if extents == [] || count == 0 then Outcome([], true)
    else
      var e := extents[0];
      if start > 0 && e.count <= start then Pieces(vols, extents[1..], start - e.count, count)
      else
        var n := Least(e.count - start, count);
        if !Within(vols, e.sector + start, n) then Outcome([], false)
        else
          WithinSpace(vols, e.sector + start, n);
          var later := Pieces(vols, extents[1..], 0, count - n);
          Outcome(Space(vols)[SECTOR * (e.sector + start)..SECTOR * (e.sector + start + n)] + later.bytes, later.ok)
  }

  lemma PieceSkipped(vols: seq<Volume>, extents: seq<Extent>, start: nat, count: nat)
    requires Joined(vols) && extents != [] && 0 < start && extents[0].count <= start
    ensures Pieces(vols, extents, start, count) == Pieces(vols, extents[1..], start - extents[0].count, count)
  {
  }

  lemma PieceTaken(vols: seq<Volume>, extents: seq<Extent>, start: nat, count: nat)
    requires Joined(vols) && extents != [] && count > 0 && (start == 0 || start < extents[0].count)
    ensures var e := extents[0];
            var n := Least(e.count - start, count);
            var later := Pieces(vols, extents[1..], 0, count - n);
            var r := Pieces(vols, extents, start, count);
            if Within(vols, e.sector + start, n) then
              SECTOR * (e.sector + start + n) <= |Space(vols)| &&
              r == Outcome(Space(vols)[SECTOR * (e.sector + start)..SECTOR * (e.sector + start + n)] + later.bytes, later.ok)
            else r == Outcome([], false)
  {
    hide Within;
    var e := extents[0];
    var n := Least(e.count - start, count);
    if Within(vols, e.sector + start, n) { WithinSpace(vols, e.sector + start, n); }
  }

  lemma NoPieces(vols: seq<Volume>, extents: seq<Extent>, start: nat, count: nat)
    requires Joined(vols) && (extents == [] || count == 0)
    ensures Pieces(vols, extents, start, count) == Outcome([], true)
  {
  }

  /** Extents of which each lies inside one volume. */
  ghost predicate AllWithin(vols: seq<Volume>, extents: seq<Extent>) {
    forall i :: 0 <= i < |extents| ==> Within(vols, extents[i].sector, extents[i].count)
  }

  /** The bytes of all the extents one after the other. */
  ghost function Content(vols: seq<Volume>, extents: seq<Extent>): Bytes
    requires Joined(vols) && AllWithin(vols, extents)
  {
    if extents == [] then []
    else
      WithinSpace(vols, extents[0].sector, extents[0].count);
      Space(vols)[SECTOR * extents[0].sector..SECTOR * (extents[0].sector + extents[0].count)] + Content(vols, extents[1..])
  }

  lemma PieceWithin(vols: seq<Volume>, sector: nat, count: nat, start: nat, n: nat)
    requires Within(vols, sector, count) && start + n <= count && (start < count || start == 0)
    ensures Within(vols, sector + start, n)
  {
    var i :| 0 <= i < |vols| && Holds(vols[i], sector) && sector + count <= vols[i].start + vols[i].sectors;
    assert Holds(vols[i], sector + start);
  }

  /** A range of bytes, cut off at their end. */
  ghost function Cut(s: Bytes, from: nat, to: nat): (r: Bytes)
    requires from <= to
  {
    s[Least(from, |s|)..Least(to, |s|)]
  }

  lemma CutSkip(a: Bytes, b: Bytes, from: nat, to: nat)
    requires |a| <= from <= to
    ensures Cut(a + b, from, to) == Cut(b, from - |a|, to - |a|)
  {
  }

  /** A range that starts in a: the part of a and what is left from the beginning of b. */
  lemma CutTake(a: Bytes, b: Bytes, from: nat, to: nat)
    requires from <= |a| && from <= to
    ensures Cut(a + b, from, to) == a[from..Least(to, |a|)] + (if to > |a| then Cut(b, 0, to - |a|) else [])
  {
  }

  lemma ContentFirst(vols: seq<Volume>, extents: seq<Extent>)
    requires Joined(vols) && extents != [] && AllWithin(vols, extents)
    ensures var e := extents[0];
            && Within(vols, e.sector, e.count) && AllWithin(vols, extents[1..])
            && SECTOR * (e.sector + e.count) <= |Space(vols)|
            && Content(vols, extents) == Space(vols)[SECTOR * e.sector..SECTOR * (e.sector + e.count)] + Content(vols, extents[1..])
  {
    hide Within;
    var e := extents[0];
    assert Within(vols, e.sector, e.count);
    WithinSpace(vols, e.sector, e.count);
    forall i | 0 <= i < |extents| - 1 ensures Within(vols, extents[1..][i].sector, extents[1..][i].count) {
      assert Within(vols, extents[i + 1].sector, extents[i + 1].count);
    }
  }

  /**
   * With every extent inside one volume, reading gives exactly the wanted sectors of the extents laid
   * end to end, cut off at their end.
   */
  lemma {:induction false} PiecesAreContent(vols: seq<Volume>, extents: seq<Extent>, start: nat, count: nat)
    requires Joined(vols) && AllWithin(vols, extents)
    ensures Pieces(vols, extents, start, count) ==
            Outcome(Cut(Content(vols, extents), SECTOR * start, SECTOR * (start + count)), true)
  {
    hide Pieces, Content, AllWithin, Within, Joined, Space, Cut;
    if extents == [] || count == 0 {
      NoPieces(vols, extents, start, count);
      NothingCut(vols, extents, start, count);
    } else {
      var e, rest := extents[0], extents[1..];
      ContentFirst(vols, extents);
      var first := Space(vols)[SECTOR * e.sector..SECTOR * (e.sector + e.count)];
      if start > 0 && e.count <= start {
        PieceSkipped(vols, extents, start, count);
        PiecesAreContent(vols, rest, start - e.count, count);
        CutSkip(first, Content(vols, rest), SECTOR * start, SECTOR * (start + count));
      } else {
        var n := Least(e.count - start, count);
        PieceWithin(vols, e.sector, e.count, start, n);
        PieceTaken(vols, extents, start, count);
        PiecesAreContent(vols, rest, 0, count - n);
        CutTake(first, Content(vols, rest), SECTOR * start, SECTOR * (start + count));
        SliceOfSlice(Space(vols), SECTOR * e.sector, SECTOR * e.count, SECTOR * start, SECTOR * n);
        if start + count <= e.count { CutEmpty(Content(vols, rest)); }
      }
    }
  }

  lemma CutEmpty(s: Bytes)
    ensures Cut(s, 0, 0) == []
  {
  }

  lemma NothingCut(vols: seq<Volume>, extents: seq<Extent>, start: nat, count: nat)
    requires Joined(vols) && AllWithin(vols, extents) && (extents == [] || count == 0)
    ensures Cut(Content(vols, extents), SECTOR * start, SECTOR * (start + count)) == []
  {
    hide Joined, AllWithin, Within;
  }

  /** The data kept in the inode's own sector, filled up with zeros. */
  function Inline(inode: Inode): (r: Bytes)
    requires inode.size < SECTOR - HEADER == |inode.rest|
    ensures |r| == SECTOR
  {
    inode.rest[..inode.size] + seq(SECTOR - inode.size, _ => 0)
  }

  /** What a read of an inode gives. */
  ghost function Wanted(vols: seq<Volume>, inode: Inode, start: nat, count: nat): Outcome
    requires Joined(vols) && |inode.rest| == SECTOR - HEADER
  {
    if count == 0 then Outcome([], true)
    else if inode.extents != [] then Pieces(vols, inode.extents, start, count)
    else if inode.size < SECTOR - HEADER && !inode.stream && start == 0 then Outcome(Inline(inode), true)
    else Outcome([], true)
  }

  lemma {:induction false} FewBytes(vols: seq<Volume>, extents: seq<Extent>, start: nat, count: nat)
    requires Joined(vols)
    ensures |Pieces(vols, extents, start, count).bytes| <= SECTOR * count
  {
    hide Pieces, Joined, Space, Within;
    if extents == [] || count == 0 {
      NoPieces(vols, extents, start, count);
    } else if start > 0 && extents[0].count <= start {
      PieceSkipped(vols, extents, start, count);
      FewBytes(vols, extents[1..], start - extents[0].count, count);
    } else {
      PieceTaken(vols, extents, start, count);
      FewBytes(vols, extents[1..], 0, count - Least(extents[0].count - start, count));
    }
  }

  /** The number of bytes read, or -1 after a piece that could not be; the bytes are in the buffer. */
  method ReadDataPart(vols: VolumeSet, inode: Inode, data: array<bv8>, start: nat, count: nat) returns (total: int)
    requires vols.Valid() && |inode.rest| == SECTOR - HEADER && SECTOR * count <= data.Length
    modifies data
    ensures var r := Wanted(vols.volumes, inode, start, count);
            && total == (if r.ok then |r.bytes| else -1)
            && |r.bytes| <= data.Length && data[..] == Put(old(data[..]), 0, r.bytes)
    ensures count > 0 && inode.extents != [] && AllWithin(vols.volumes, inode.extents) ==>
              var all := Content(vols.volumes, inode.extents);
              var from, to := Least(SECTOR * start, |all|), Least(SECTOR * (start + count), |all|);
              total == to - from <= data.Length && data[..total] == all[from..to] && data[total..] == old(data[total..])
    ensures count > 0 && inode.extents == [] && !inode.stream && inode.size < SECTOR - HEADER && start == 0 ==>
              && total == SECTOR && data[..inode.size] == inode.rest[..inode.size]
              && (forall i :: inode.size <= i < SECTOR ==> data[i] == 0) && data[SECTOR..] == old(data[SECTOR..])
    ensures count == 0 || (inode.extents == [] && (inode.stream || inode.size >= SECTOR - HEADER || start > 0)) ==>
              total == 0 && data[..] == old(data[..])
  {
    hide Pieces, Joined, Space, Within, Put, Content;
    ghost var was := data[..];
    total := 0;
    PutNone(data[..], 0);
    if count == 0 {
      return;
    }
    if inode.extents != [] {
      total := ReadExtents(vols, inode.extents, data, start, count);
      if AllWithin(vols.volumes, inode.extents) {
        PiecesAreContent(vols.volumes, inode.extents, start, count);
        PutFirst(was, Pieces(vols.volumes, inode.extents, start, count).bytes);
      }
    } else if inode.size < SECTOR - HEADER && !inode.stream {
      if start == 0 {
        CopyIn(data, 0, inode.rest[..inode.size] + seq(SECTOR - inode.size, _ => 0));
        total := SECTOR;
        PutFirst(was, Inline(inode));
      }
    }
  }

  lemma PutFirst(s: Bytes, bytes: Bytes)
    requires |bytes| <= |s|
    ensures Put(s, 0, bytes)[..|bytes|] == bytes && Put(s, 0, bytes)[|bytes|..] == s[|bytes|..]
  {
  }

  method ReadExtents(vols: VolumeSet, extents: seq<Extent>, data: array<bv8>, from: nat, wanted: nat) returns (total: int)
    requires vols.Valid() && SECTOR * wanted <= data.Length && wanted > 0
    modifies data
    ensures var r := Pieces(vols.volumes, extents, from, wanted);
            && total == (if r.ok then |r.bytes| else -1)
            && |r.bytes| <= data.Length && data[..] == Put(old(data[..]), 0, r.bytes)
  {
    hide Pieces, Joined, Space, Within, Put;
    var start: nat := from;
    var count: nat := wanted;
    ghost var was, vs, got: Bytes := data[..], vols.volumes, [];
    ghost var all := Pieces(vs, extents, from, wanted);
    FewBytes(vs, extents, from, wanted);
    PutNone(was, 0);
    total := 0;
    var loop := 0;
    WholeExtents(extents);
    while count > 0 && loop < |extents|
      invariant 0 <= loop <= |extents| && count <= wanted && total == |got| <= SECTOR * (wanted - count) <= |was|
      invariant data[..] == Put(was, 0, got)
      invariant var r := Pieces(vs, extents[loop..], start, count); all == Outcome(got + r.bytes, r.ok)
    {
      ghost var left := extents[loop..];
      DropOne(extents, loop);
      var blkstart, blkcount := extents[loop].sector, extents[loop].count;
      if start > 0 && blkcount <= start {
        PieceSkipped(vs, left, start, count);
        start := start - blkcount;
      } else {
        PieceTaken(vs, left, start, count);
        if start > 0 {
          blkstart, blkcount, start := blkstart + start, blkcount - start, 0;
        }
        if blkcount > count { blkcount := count; }
        var result := vols.ReadData(data, total, blkstart, blkcount);
        count := count - blkcount;
        if result < 0 {
          JoinNone(got);
          return -1;
        }
        ghost var piece := Space(vs)[SECTOR * blkstart..SECTOR * (blkstart + blkcount)];
        PutMore(was, 0, got, piece);
        JoinThree(got, piece, Pieces(vs, left[1..], 0, count).bytes);
        got := got + piece;
        total := total + result;
        if count == 0 {
          NoPieces(vs, left[1..], 0, count);
          JoinNone(got);
          return;
        }
      }
      loop := loop + 1;
    }
    NoPieces(vs, extents[loop..], start, count);
    JoinNone(got);
  }

  lemma WholeExtents(extents: seq<Extent>)
    ensures extents[0..] == extents
  {
  }

  lemma JoinNone(a: Bytes)
    ensures a + [] == a
  {
  }

  lemma DropOne<T>(s: seq<T>, n: nat)
    requires n < |s|
    ensures s[n..] != [] && s[n..][0] == s[n] && s[n..][1..] == s[n + 1..]
  {
  }

  lemma JoinThree(a: Bytes, b: Bytes, c: Bytes)
    ensures a + (b + c) == (a + b) + c
  {
  }
}
