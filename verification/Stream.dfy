/**
 * The data phase of a backup: the boot sector, the partitions and the MFS blocks as one stream of
 * sectors, which is read and written in chunks of any size by cursors that pick up where they were.
 */
module Stream {
  import opened BackupBlocks

  type Sector = seq<bv8>

  /** Where a sector of the stream belongs. */
  datatype Place = Boot | Part(number: nat, sector: nat) | Mfs(at: int)

  datatype Info = Info(parts: seq<nat>, blocks: seq<Block>)

  function PartSectors(parts: seq<nat>): nat {
    if parts == [] then 0 else PartSectors(parts[..|parts| - 1]) + parts[|parts| - 1]
  }

  function BlockSectors(blocks: seq<Block>): int {
    if blocks == [] then 0 else BlockSectors(blocks[..|blocks| - 1]) + blocks[|blocks| - 1].sectors
  }

  predicate Sized(blocks: seq<Block>) {
    forall b :: b in blocks ==> b.sectors > 0
  }

  lemma {:induction false} BlockSectorsGrow(blocks: seq<Block>, i: nat)
    requires Sized(blocks) && i <= |blocks|
    ensures BlockSectors(blocks) >= BlockSectors(blocks[..i]) >= 0
    ensures i < |blocks| ==> BlockSectors(blocks) > 0
  {
    if |blocks| > 0 {
      var n := |blocks| - 1;
      if i <= n {
        BlockSectorsGrow(blocks[..n], i);
        assert blocks[..n][..i] == blocks[..i];
      } else {
        BlockSectorsGrow(blocks[..n], n);
        assert blocks[..i] == blocks;
      }
    }
  }

  /** The sectors of the data phase. */
  function Length(info: Info): int { 1 + PartSectors(info.parts) + BlockSectors(info.blocks) }

  /** The place of sector i of the partitions, from the last one that starts at or before it. */
  function InParts(parts: seq<nat>, i: nat): Place
    requires i < PartSectors(parts)
  {
    var n := |parts| - 1;
    if i < PartSectors(parts[..n]) then InParts(parts[..n], i) else Part(n, i - PartSectors(parts[..n]))
  }

  function InBlocks(blocks: seq<Block>, i: int): Place
    requires i < BlockSectors(blocks)
    decreases |blocks|
  {
    if blocks == [] then Boot
    else
      var n := |blocks| - 1;
      if i < BlockSectors(blocks[..n]) then InBlocks(blocks[..n], i) else Mfs(blocks[n].first + i - BlockSectors(blocks[..n]))
  }

  function PlaceOf(info: Info, i: nat): Place
    requires i < Length(info)
  {
    if i == 0 then Boot
    else if i - 1 < PartSectors(info.parts) then InParts(info.parts, i - 1)
    else InBlocks(info.blocks, i - 1 - PartSectors(info.parts))
  }

  lemma {:induction false} PartsGrow(parts: seq<nat>, p: nat)
    requires p < |parts|
    ensures PartSectors(parts[..p]) + parts[p] == PartSectors(parts[..p + 1]) <= PartSectors(parts)
  {
    assert parts[..p + 1][..p] == parts[..p];
    if p + 1 == |parts| {
      assert parts[..p + 1] == parts;
    } else {
      var n := |parts| - 1;
      PartsGrow(parts[..n], p);
      assert parts[..n][..p + 1] == parts[..p + 1] && parts[..n][..p] == parts[..p];
    }
  }

  /** Sector k of partition p. */
  lemma {:induction false} PartPlace(parts: seq<nat>, p: nat, k: nat)
    requires p < |parts| && k < parts[p]
    ensures PartSectors(parts[..p]) + k < PartSectors(parts)
    ensures InParts(parts, PartSectors(parts[..p]) + k) == Part(p, k)
  {
    PartsGrow(parts, p);
    var n := |parts| - 1;
    if p < n {
      PartPlace(parts[..n], p, k);
      assert parts[..n][..p] == parts[..p];
    }
  }

  lemma BlocksStep(blocks: seq<Block>, b: nat)
    requires b < |blocks|
    ensures BlockSectors(blocks[..b + 1]) == BlockSectors(blocks[..b]) + blocks[b].sectors
  {
    assert blocks[..b + 1][..b] == blocks[..b];
  }

  /** Sector k of block b. */
  lemma {:induction false} BlockPlace(blocks: seq<Block>, b: nat, k: nat)
    requires Sized(blocks) && b < |blocks| && k < blocks[b].sectors
    ensures 0 <= BlockSectors(blocks[..b]) + k < BlockSectors(blocks)
    ensures InBlocks(blocks, BlockSectors(blocks[..b]) + k) == Mfs(blocks[b].first + k)
  {
    BlockSectorsGrow(blocks, b);
    BlockSectorsGrow(blocks, b + 1);
    BlocksStep(blocks, b);
    var n := |blocks| - 1;
    if b < n {
      BlockPlace(blocks[..n], b, k);
      assert blocks[..n][..b] == blocks[..b];
    }
  }

  lemma BlockSectorsNatural(blocks: seq<Block>)
    requires Sized(blocks)
    ensures BlockSectors(blocks) >= 0
  {
    BlockSectorsGrow(blocks, 0);
  }

  ghost predicate InStream(info: Info, p: Place) {
    exists i: nat :: i < Length(info) && PlaceOf(info, i) == p
  }

  /** Where the stream has sector k of partition p. */
  lemma StreamPart(info: Info, p: nat, k: nat)
    requires Sized(info.blocks) && p < |info.parts| && k < info.parts[p]
    ensures 1 + PartSectors(info.parts[..p]) + k < Length(info)
    ensures PlaceOf(info, 1 + PartSectors(info.parts[..p]) + k) == Part(p, k)
  {
    hide InParts, InBlocks, Sized, PartSectors, BlockSectors;
    BlockSectorsNatural(info.blocks);
    PartPlace(info.parts, p, k);
  }

  /** Where the stream has sector k of block b. */
  lemma StreamBlock(info: Info, b: nat, k: nat)
    requires Sized(info.blocks) && b < |info.blocks| && k < info.blocks[b].sectors
    ensures 0 <= BlockSectors(info.blocks[..b])
    ensures 1 + PartSectors(info.parts) + BlockSectors(info.blocks[..b]) + k < Length(info)
    ensures PlaceOf(info, 1 + PartSectors(info.parts) + BlockSectors(info.blocks[..b]) + k) == Mfs(info.blocks[b].first + k)
  {
    hide InParts, InBlocks, PartSectors, BlockSectors;
    BlockPlace(info.blocks, b, k);
    BlockSectorsGrow(info.blocks, b);
  }

  /* ---------- what chunks give together ---------- */

  function Fewer(m: int, n: int): int { if m < n then m else n }

  /** The stream of what is at the places, from sector c on, n of them. */
  function Emitted(info: Info, src: Place -> Sector, c: nat, n: nat): (s: seq<Sector>)
    requires c + n <= Length(info)
    ensures |s| == n
  {
    seq(n, j requires 0 <= j < n => src(PlaceOf(info, c + j)))
  }

  /** What is at the places once a chunk has been written from sector c on. */
  function Stored(info: Info, t: map<Place, Sector>, c: nat, chunk: seq<Sector>): map<Place, Sector>
    requires c + |chunk| <= Length(info)
  {
    if chunk == [] then t
    else Stored(info, t, c, chunk[..|chunk| - 1])[PlaceOf(info, c + |chunk| - 1) := chunk[|chunk| - 1]]
  }

  lemma {:induction false} StoredTwice(info: Info, t: map<Place, Sector>, c: nat, a: seq<Sector>, b: seq<Sector>)
    requires c + |a| + |b| <= Length(info)
    ensures Stored(info, t, c, a + b) == Stored(info, Stored(info, t, c, a), c + |a|, b)
  {
    hide PlaceOf, Length;
    if b == [] {
      assert a + b == a;
    } else {
      assert (a + b)[..|a + b| - 1] == a + b[..|b| - 1];
      StoredTwice(info, t, c, a, b[..|b| - 1]);
    }
  }

  lemma StoredOne(info: Info, t: map<Place, Sector>, c: nat, chunk: seq<Sector>, x: Sector)
    requires c + |chunk| < Length(info)
    ensures Stored(info, t, c, chunk + [x]) == Stored(info, t, c, chunk)[PlaceOf(info, c + |chunk|) := x]
  {
    hide PlaceOf, Length;
    assert (chunk + [x])[..|chunk|] == chunk;
  }

  /** Writing the beginning of the stream puts every sector where it came from, and changes nothing else. */
  lemma {:induction false} StoredStream(info: Info, src: Place -> Sector, t: map<Place, Sector>, n: nat)
    requires n <= Length(info)
    ensures var r := Stored(info, t, 0, Emitted(info, src, 0, n));
            && (forall i: nat {:trigger PlaceOf(info, i)} :: i < n ==> PlaceOf(info, i) in r && r[PlaceOf(info, i)] == src(PlaceOf(info, i)))
            && forall p :: (forall i: nat :: i < n ==> PlaceOf(info, i) != p) ==> (p in r <==> p in t) && (p in t ==> r[p] == t[p])
  {
    hide PlaceOf, Length;
    if n > 0 {
      StoredStream(info, src, t, n - 1);
      assert Emitted(info, src, 0, n) == Emitted(info, src, 0, n - 1) + [src(PlaceOf(info, n - 1))];
      StoredOne(info, t, 0, Emitted(info, src, 0, n - 1), src(PlaceOf(info, n - 1)));
    }
  }
}
