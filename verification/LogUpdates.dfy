/**
 * What a shrinking restore leaves in the log, entry by entry: which entries go, which change, and what the
 * stream holds of each kind afterwards (restore.c).
 */
module LogUpdates {
  import opened LogEdits
  import opened LogFudge
  import opened LogRecords
  import opened Media
  import ByteOrder

  /** The number in four bytes of an entry. */
  function NumberAt(e: Bytes, at: nat): nat
    requires at + 4 <= |e|
  {
    ByteOrder.ValueOf(e[at..at + 4])
  }

  /** A complete map update. */
  predicate MapUpdate(e: Bytes) { |e| >= 42 && NumberAt(e, 18) == 0 }

  /** The first sector it is about. */
  function MapSector(e: Bytes): nat
    requires MapUpdate(e)
  {
    NumberAt(e, 30)
  }

  /** The complete update of a stream's inode. */
  predicate StreamInode(e: Bytes) { |e| >= 78 && NumberAt(e, 18) == 1 && e[66] == 2 && NumberAt(e, 74) + 78 <= |e| }

  /** One of its blocks does not begin on the volumes. */
  ghost predicate LosesBlock(e: Bytes, volsize: nat)
    requires StreamInode(e)
  {
    exists i: nat :: i < NumberAt(e, 74) / 8 && BehindEnd(e, i, volsize)
  }

  predicate BehindEnd(e: Bytes, i: nat, volsize: nat)
    requires StreamInode(e) && i < NumberAt(e, 74) / 8
  {
    NumberAt(e, 78 + 8 * i) >= volsize
  }

  /* ---------- one entry ---------- */

  /** Nothing is left exactly of a complete map update whose sector is not on the volumes. */
  lemma DroppedIff(e: Bytes, volsize: nat, sizes: Sizes)
    requires IsEntry(e)
    ensures Fudge(e, volsize, sizes) == [] <==> MapUpdate(e) && MapSector(e) >= volsize
  {
    hide EntryLength, Kept, Smaller;
    if StreamUpdate(e) { LostIs(e, volsize); }
  }

  /** It changes exactly when it is that, or the update of a stream's inode that has a block there. */
  lemma ChangedIff(e: Bytes, volsize: nat, sizes: Sizes)
    requires IsEntry(e)
    ensures Fudge(e, volsize, sizes) != e <==>
            (MapUpdate(e) && MapSector(e) >= volsize) || (StreamInode(e) && LosesBlock(e, volsize))
  {
    hide EntryLength, Kept, Smaller, Lost;
    if StreamInode(e) { LostIff(e, volsize); }
  }

  lemma LostIff(e: Bytes, volsize: nat)
    requires StreamInode(e)
    ensures StreamUpdate(e) && (Lost(e, volsize) > 0 <==> LosesBlock(e, volsize))
  {
    LostIs(e, volsize);
    hide Kept, Lost, ByteOrder.ValueOf;
    SomeLost(e, volsize, Blocks(e));
    forall i: nat | i < Blocks(e) ensures NumberAt(e, 78 + 8 * i) == Field(BlockAt(e, i), 0) { BlockSector(e, i); }
  }

  lemma {:induction false} SomeLost(e: Bytes, volsize: nat, k: nat)
    requires StreamInode(e) && k <= NumberAt(e, 74) / 8
    ensures |Kept(e, volsize, k)| < 8 * k <==> exists i: nat :: i < k && BehindEnd(e, i, volsize)
  {
    hide Kept, ByteOrder.ValueOf;
    if k == 0 {
    } else {
      SomeLost(e, volsize, k - 1);
      NextBlock(e, volsize, k - 1);
      BlockSector(e, k - 1);
      assert BehindEnd(e, k - 1, volsize) <==> Field(BlockAt(e, k - 1), 0) >= volsize;
      if |Kept(e, volsize, k - 1)| < 8 * (k - 1) {
        var i: nat :| i < k - 1 && BehindEnd(e, i, volsize);
      }
    }
  }

  /* ---------- the blocks of an inode ---------- */

  function BlocksOf(e: Bytes): (bs: seq<Bytes>)
    requires StreamInode(e)
    ensures |bs| == NumberAt(e, 74) / 8
    ensures forall i :: 0 <= i < |bs| ==> bs[i] == e[78 + 8 * i..86 + 8 * i]
  {
    seq(NumberAt(e, 74) / 8, i requires 0 <= i < NumberAt(e, 74) / 8 => e[78 + 8 * i..86 + 8 * i])
  }

  /** The blocks that begin on the volumes, in their order. */
  function OnVolumes(bs: seq<Bytes>, volsize: nat): seq<Bytes> {
    if bs == [] then []
    else
      var last := bs[|bs| - 1];
      OnVolumes(bs[..|bs| - 1], volsize) + if |last| == 8 && NumberAt(last, 0) < volsize then [last] else []
  }

  function Joined(bs: seq<Bytes>): Bytes {
    if bs == [] then [] else Joined(bs[..|bs| - 1]) + bs[|bs| - 1]
  }

  predicate Eights(bs: seq<Bytes>) { forall i :: 0 <= i < |bs| ==> |bs[i]| == 8 }

  lemma JoinedMore(bs: seq<Bytes>, b: Bytes)
    ensures Joined(bs + [b]) == Joined(bs) + b && Joined([]) == []
  {
    assert (bs + [b])[..|bs|] == bs;
  }

  lemma {:induction false} JoinedAt(bs: seq<Bytes>, i: nat)
    requires Eights(bs) && i < |bs|
    ensures |Joined(bs)| == 8 * |bs| && Joined(bs)[8 * i..8 * i + 8] == bs[i]
  {
    var n := |bs| - 1;
    JoinedLength(bs);
    JoinedLength(bs[..n]);
    JoinedMore(bs[..n], bs[n]);
    assert bs == bs[..n] + [bs[n]];
    hide Joined;
    if i < n {
      JoinedAt(bs[..n], i);
      assert Joined(bs)[8 * i..8 * i + 8] == Joined(bs[..n])[8 * i..8 * i + 8];
    } else {
      assert Joined(bs)[8 * n..8 * n + 8] == bs[n];
    }
  }

  lemma {:induction false} JoinedLength(bs: seq<Bytes>)
    requires Eights(bs)
    ensures |Joined(bs)| == 8 * |bs|
  {
    if bs == [] {
    } else {
      JoinedLength(bs[..|bs| - 1]);
    }
  }

  lemma {:induction false} VolumesEights(bs: seq<Bytes>, volsize: nat)
    ensures Eights(OnVolumes(bs, volsize))
  {
    if bs == [] {
    } else {
      VolumesEights(bs[..|bs| - 1], volsize);
    }
  }

  lemma VolumesMore(bs: seq<Bytes>, b: Bytes, volsize: nat)
    ensures OnVolumes(bs + [b], volsize) ==
            if |b| == 8 && NumberAt(b, 0) < volsize then OnVolumes(bs, volsize) + [b] else OnVolumes(bs, volsize)
    ensures OnVolumes([], volsize) == []
  {
    assert (bs + [b])[..|bs|] == bs;
  }

  /** The bytes that stay are the blocks that begin on the volumes, end to end. */
  lemma {:induction false} KeptIs(e: Bytes, volsize: nat, k: nat)
    requires StreamInode(e) && k <= |BlocksOf(e)|
    ensures 78 + 8 * k <= |e| && Kept(e, volsize, k) == Joined(OnVolumes(BlocksOf(e)[..k], volsize))
  {
    hide Kept, ByteOrder.ValueOf, OnVolumes, Joined;
    var bs := BlocksOf(e);
    if k == 0 {
      assert bs[..0] == [];
      VolumesMore([], [], volsize);
      JoinedMore([], []);
      NoneKept(e, volsize);
    } else {
      KeptIs(e, volsize, k - 1);
      NextBlock(e, volsize, k - 1);
      assert bs[..k] == bs[..k - 1] + [bs[k - 1]] && bs[k - 1] == BlockAt(e, k - 1);
      VolumesMore(bs[..k - 1], bs[k - 1], volsize);
      JoinedMore(OnVolumes(bs[..k - 1], volsize), bs[k - 1]);
    }
  }

  lemma NoneKept(e: Bytes, volsize: nat)
    requires |e| >= 78
    ensures Kept(e, volsize, 0) == []
  {
  }

  /** A stream's inode stays one, and has exactly its blocks on the volumes, in their order. */
  lemma StreamBlocks(e: Bytes, volsize: nat, sizes: Sizes)
    requires IsEntry(e) && StreamInode(e)
    ensures StreamInode(Fudge(e, volsize, sizes))
    ensures BlocksOf(Fudge(e, volsize, sizes)) == OnVolumes(BlocksOf(e), volsize)
  {
    hide Kept, Lost, ByteOrder.ValueOf, OnVolumes, Joined, Smaller, Trimmed, IsEntry, Fudge;
    var r, n, bs := Fudge(e, volsize, sizes), Blocks(e), OnVolumes(BlocksOf(e), volsize);
    LostIs(e, volsize);
    KeptIs(e, volsize, n);
    assert BlocksOf(e)[..n] == BlocksOf(e);
    VolumesEights(BlocksOf(e), volsize);
    JoinedLength(bs);
    FudgeKeeps(e, volsize, sizes);
    if Lost(e, volsize) > 0 {
      FudgedStream(e, volsize, sizes);
      TrimmedInode(e, r, bs);
    } else {
      AllStay(e, volsize, n);
      LeftBlocks(e, bs);
    }
  }

  /** When it loses some, it has the new sizes at bytes 50 and 58, and up to its blocks nothing else but the two lengths changes. */
  lemma StreamFields(e: Bytes, volsize: nat, sizes: Sizes)
    requires IsEntry(e) && StreamInode(e) && LosesBlock(e, volsize) && sizes(e).0 < WORD && sizes(e).1 < WORD
    ensures var r := Fudge(e, volsize, sizes);
            && 78 <= |r| && NumberAt(r, 50) == sizes(e).0 && NumberAt(r, 58) == sizes(e).1
            && r[2..50] == e[2..50] && r[54..58] == e[54..58] && r[62..74] == e[62..74]
            && |e| - |r| == 8 * (NumberAt(e, 74) / 8 - |OnVolumes(BlocksOf(e), volsize)|) == NumberAt(e, 74) - NumberAt(r, 74)
  {
    hide Kept, Lost, ByteOrder.ValueOf, OnVolumes, Smaller, IsEntry, Fudge;
    var n := Blocks(e);
    LostIff(e, volsize);
    LostIs(e, volsize);
    KeptIs(e, volsize, n);
    assert BlocksOf(e)[..n] == BlocksOf(e);
    VolumesEights(BlocksOf(e), volsize);
    JoinedLength(OnVolumes(BlocksOf(e), volsize));
    FudgedIs(e, volsize, sizes);
    FudgedStream(e, volsize, sizes);
    SmallerSizes(e, volsize, sizes(e));
  }

  /** An inode with these blocks in its bytes. */
  lemma LeftBlocks(e: Bytes, bs: seq<Bytes>)
    requires StreamInode(e) && Eights(bs) && |bs| == NumberAt(e, 74) / 8 && 78 + 8 * |bs| <= |e|
    requires e[78..78 + 8 * |bs|] == Joined(bs)
    ensures BlocksOf(e) == bs
  {
    hide ByteOrder.ValueOf, Joined;
    forall i | 0 <= i < |bs| ensures BlocksOf(e)[i] == bs[i] {
      JoinedAt(bs, i);
      Inside(e, 78, 78 + 8 * |bs|, 8 * i, 8 * i + 8);
    }
  }

  lemma TrimmedInode(e: Bytes, r: Bytes, bs: seq<Bytes>)
    requires StreamInode(e) && Eights(bs) && Trimmed(e, r, Joined(bs)) && |bs| <= NumberAt(e, 74) / 8
    requires |r| == |e| - (8 * (NumberAt(e, 74) / 8) - |Joined(bs)|)
    ensures StreamInode(r) && BlocksOf(r) == bs
  {
    hide ByteOrder.ValueOf, Joined, IsEntry;
    JoinedLength(bs);
    TrimmedHead(e, r, Joined(bs));
    Eighths(NumberAt(e, 74), NumberAt(r, 74), NumberAt(e, 74) / 8, 8 * |bs|);
    LeftBlocks(r, bs);
  }

  /* ---------- all entries ---------- */

  /** The complete entries of a stream. */
  function EntriesOf(s: Bytes): seq<Bytes> {
    if Begins(s) then [s[..EntryLength(s)]] + EntriesOf(s[EntryLength(s)..]) else []
  }

  /** The entries an editor leaves, each as it is then. */
  function Mapped(es: seq<Bytes>, edit: Bytes -> Bytes): seq<Bytes> {
    if es == [] then []
    else (if Apply(edit, es[0]) == [] then [] else [Apply(edit, es[0])]) + Mapped(es[1..], edit)
  }

  /** Those entries that are of a kind, in their order. */
  function Only(es: seq<Bytes>, kind: Bytes -> bool): seq<Bytes> {
    if es == [] then [] else (if kind(es[0]) then [es[0]] else []) + Only(es[1..], kind)
  }

  lemma EntryFirst(e: Bytes, t: Bytes)
    requires IsEntry(e)
    ensures Begins(e + t) && EntriesOf(e + t) == [e] + EntriesOf(t)
  {
    SameLength(e, t);
    hide EntryLength;
    assert (e + t)[..|e|] == e && (e + t)[|e|..] == t;
  }

  /** Editing a stream is editing its entries. */
  lemma {:induction false} EditedEntries(s: Bytes, edit: Bytes -> Bytes)
    requires Shortens(edit)
    ensures EntriesOf(Edited(s, edit)) == Mapped(EntriesOf(s), edit)
  {
    hide EntryLength, IsEntry, Apply;
    if Begins(s) {
      FirstIsEntry(s);
      var e, t := s[..EntryLength(s)], s[EntryLength(s)..];
      EditedEntries(t, edit);
      var n := Apply(edit, e);
      assert ([e] + EntriesOf(t))[1..] == EntriesOf(t);
      if n == [] {
        assert n + Edited(t, edit) == Edited(t, edit);
        assert Edited(s, edit) == Edited(t, edit);
        assert [] + Mapped(EntriesOf(t), edit) == Mapped(EntriesOf(t), edit);
      } else {
        EntryFirst(n, Edited(t, edit));
      }
    }
  }

  lemma {:induction false} AllEntries(s: Bytes)
    ensures forall e :: e in EntriesOf(s) ==> IsEntry(e)
  {
    hide EntryLength, IsEntry;
    if Begins(s) {
      FirstIsEntry(s);
      AllEntries(s[EntryLength(s)..]);
    }
  }

  function OnMaps(volsize: nat): Bytes -> bool { e => MapUpdate(e) && MapSector(e) < volsize }

  function Others(): Bytes -> bool { e => !MapUpdate(e) && !StreamInode(e) }

  function Maps(): Bytes -> bool { e => MapUpdate(e) }

  function Inodes(): Bytes -> bool { e => StreamInode(e) }

  lemma OneLeft(e: Bytes, volsize: nat, sizes: Sizes)
    requires IsEntry(e)
    ensures var r := Fudge(e, volsize, sizes);
            && (MapUpdate(e) && MapSector(e) < volsize ==> r == e)
            && (MapUpdate(e) && MapSector(e) >= volsize ==> r == [])
            && (StreamInode(e) ==> r != [] && StreamInode(r))
            && (!MapUpdate(e) && !StreamInode(e) ==> r == e != [])
  {
    DroppedIff(e, volsize, sizes);
    ChangedIff(e, volsize, sizes);
    if StreamInode(e) { StreamBlocks(e, volsize, sizes); }
    hide EntryLength, Fudge, LosesBlock;
  }

  lemma OnlyFirst(x: Bytes, t: seq<Bytes>, kind: Bytes -> bool)
    ensures Only([x] + t, kind) == if kind(x) then [x] + Only(t, kind) else Only(t, kind)
  {
    assert ([x] + t)[1..] == t;
  }

  lemma MappedFirst(x: Bytes, t: seq<Bytes>, edit: Bytes -> Bytes)
    ensures Mapped([x] + t, edit) == if Apply(edit, x) == [] then Mapped(t, edit) else [Apply(edit, x)] + Mapped(t, edit)
  {
    assert ([x] + t)[1..] == t;
  }

  /** Entries that are left alone where they are of a kind, and are none of the other kind afterwards where not. */
  lemma {:induction false} OnlyLeft(es: seq<Bytes>, edit: Bytes -> Bytes, kind: Bytes -> bool, before: Bytes -> bool)
    requires forall e :: e in es ==> var r := Apply(edit, e);
               if before(e) then r == e != [] && kind(r) else r == [] || !kind(r)
    ensures Only(Mapped(es, edit), kind) == Only(es, before)
  {
    hide Apply;
    if es == [] {
    } else {
      var x, t := es[0], es[1..];
      assert es == [x] + t && x in es;
      OnlyLeft(t, edit, kind, before);
      hide Only, Mapped;
      OnlyFirst(x, t, before);
      MappedFirst(x, t, edit);
      OnlyFirst(Apply(edit, x), Mapped(t, edit), kind);
    }
  }

  /** Entries that stay of a kind. */
  lemma {:induction false} OnlyMapped(es: seq<Bytes>, edit: Bytes -> Bytes, kind: Bytes -> bool)
    requires forall e :: e in es ==> var r := Apply(edit, e); if kind(e) then r != [] && kind(r) else r == [] || !kind(r)
    ensures Only(Mapped(es, edit), kind) == Mapped(Only(es, kind), edit)
  {
    hide Apply;
    if es == [] {
    } else {
      var x, t := es[0], es[1..];
      assert es == [x] + t && x in es;
      OnlyMapped(t, edit, kind);
      hide Only, Mapped;
      OnlyFirst(x, t, kind);
      MappedFirst(x, t, edit);
      OnlyFirst(Apply(edit, x), Mapped(t, edit), kind);
      MappedFirst(x, Only(t, kind), edit);
    }
  }

  /**
   * Of the entries of a stream there are left exactly the map updates on the volumes, in their order; the
   * inodes of streams, each without its blocks behind the end; and all others.
   */
  lemma EntriesLeft(es: seq<Bytes>, volsize: nat, sizes: Sizes)
    requires forall e :: e in es ==> IsEntry(e)
    ensures var left := Mapped(es, Fudger(volsize, sizes));
            && Only(left, Maps()) == Only(es, OnMaps(volsize))
            && Only(left, Others()) == Only(es, Others())
            && Only(left, Inodes()) == Mapped(Only(es, Inodes()), Fudger(volsize, sizes))
  {
    forall e | e in es
      ensures var r := Apply(Fudger(volsize, sizes), e);
              && (if OnMaps(volsize)(e) then r == e != [] && Maps()(r) else r == [] || !Maps()(r))
              && (if Others()(e) then r == e != [] && Others()(r) else r == [] || !Others()(r))
              && (if Inodes()(e) then r != [] && Inodes()(r) else r == [] || !Inodes()(r))
    {
      OneLeft(e, volsize, sizes);
      hide IsEntry, Fudge, NumberAt;
    }
    OnlyLeft(es, Fudger(volsize, sizes), Maps(), OnMaps(volsize));
    OnlyLeft(es, Fudger(volsize, sizes), Others(), Others());
    OnlyMapped(es, Fudger(volsize, sizes), Inodes());
  }

  /** What a shrinking restore is to leave of a stream. */
  ghost predicate FitsVolumes(now: Bytes, was: Bytes, volsize: nat, sizes: Sizes) {
    var left, all := EntriesOf(now), EntriesOf(was);
    && Only(left, Maps()) == Only(all, OnMaps(volsize))
    && Only(left, Others()) == Only(all, Others())
    && Only(left, Inodes()) == Mapped(Only(all, Inodes()), Fudger(volsize, sizes))
  }

  lemma StreamFits(s: Bytes, volsize: nat, sizes: Sizes)
    ensures FitsVolumes(Edited(s, Fudger(volsize, sizes)), s, volsize, sizes)
  {
    hide EntriesOf, Mapped, Only, Edited, Shortens, IsEntry;
    FudgeShortens(volsize, sizes);
    EditedEntries(s, Fudger(volsize, sizes));
    AllEntries(s);
    EntriesLeft(EntriesOf(s), volsize, sizes);
  }
}
