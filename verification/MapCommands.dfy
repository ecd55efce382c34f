/** What the editor's commands do to a map, said by what a user sees of it: numbers, sizes and order. */
module MapCommands {
  import opened Wrappers
  import opened PartitionTable
  import opened PartitionFacts

  /** The partitions that are not free space, in order. */
  function Allocated(s: seq<Part>): seq<Part> {
    if s == [] then [] else Allocated(s[..|s| - 1]) + if s[|s| - 1].kind.Free? then [] else [s[|s| - 1]]
  }

  lemma Joins<T>(s: seq<T>, t: seq<T>, u: seq<T>)
    ensures s + (t + u) == s + t + u
  {
  }

  lemma Parts<T>(s: seq<T>, k: nat)
    requires k < |s|
    ensures s == s[..k] + [s[k]] + s[k + 1..] && |s[k + 1..]| == |s| - k - 1
  {
  }

  lemma Front<T>(s: seq<T>, x: T)
    ensures (s + [x])[..|s|] == s && s + [] == s && [] + s == s
  {
  }

  lemma AllocatedMore(s: seq<Part>, p: Part)
    ensures Allocated(s + [p]) == if p.kind.Free? then Allocated(s) else Allocated(s) + [p]
  {
    Front(s, p);
    Front(Allocated(s), p);
  }

  lemma Snoc<T>(s: seq<T>)
    requires s != []
    ensures s == s[..|s| - 1] + [s[|s| - 1]]
  {
  }

  lemma NoneAllocated(s: seq<Part>)
    ensures Allocated([]) == [] && Allocated(s) + [] == Allocated(s)
  {
  }

  lemma {:induction false} AllocatedBoth(s: seq<Part>, t: seq<Part>)
    ensures Allocated(s + t) == Allocated(s) + Allocated(t)
  {
    hide Allocated;
    if t == [] {
      assert s + t == s;
      NoneAllocated(s);
    } else {
      var n := |t| - 1;
      var front, last := t[..n], t[n];
      AllocatedBoth(s, front);
      AllocatedMore(s + front, last);
      AllocatedMore(front, last);
      Joins(s, front, [last]);
      Joins(Allocated(s), Allocated(front), [last]);
      Snoc(t);
    }
  }

  /** One entry in the middle. */
  lemma AllocatedAround(s: seq<Part>, k: nat)
    requires k < |s|
    ensures s[k].kind.Free? ==> Allocated(s) == Allocated(s[..k]) + Allocated(s[k + 1..])
    ensures !s[k].kind.Free? ==> Allocated(s) == Allocated(s[..k]) + [s[k]] + Allocated(s[k + 1..])
  {
    hide Allocated;
    Parts(s, k);
    AllocatedMore(s[..k], s[k]);
    AllocatedBoth(s[..k] + [s[k]], s[k + 1..]);
  }

  lemma AllocatedSplice(s: seq<Part>, i: nat, n: nat, ps: seq<Part>)
    requires i + n <= |s|
    ensures Allocated(Splice(s, i, n, ps)) == Allocated(s[..i]) + Allocated(ps) + Allocated(s[i + n..])
  {
    hide Allocated;
    AllocatedBoth(s[..i] + ps, s[i + n..]);
    AllocatedBoth(s[..i], ps);
  }

  /* ---------- initialising ---------- */

  /**
   * A new map has its own entry of 2 blocks at block 1 on media of up to 128 blocks, and of 63 on larger
   * ones, and free space behind it; on a medium of 2 or 3 blocks it is as large as the medium or missing.
   */
  lemma InitialisedIs(mediaSize: nat)
    requires 2 <= mediaSize < 0x1_0000_0000
    ensures var t, k := Initialised(mediaSize), if mediaSize <= 128 then 2 else 63;
            && t.disk == t.base
            && (mediaSize == 2 ==> t.base == [Part("Extra", Free, 1, 1, 1)] && t.maxInMap < 0)
            && (mediaSize == 3 ==> t.base == [Part("Apple", Map, 1, 2, 2)])
            && (mediaSize > 3 ==> && t.maxInMap == k && t.base == [Part("Apple", Map, 1, k, k),
                  Part("Extra", Free, 1 + k, mediaSize - 1 - k, mediaSize - 1 - k)])
  {
    var k := if mediaSize <= 128 then 2 else 63;
    CreatedIsSettled(mediaSize);
    FirstCreated(mediaSize, k);
    hide Core, Settled, AddOrSame;
  }

  lemma FirstCreated(mediaSize: nat, k: nat)
    requires mediaSize >= 2 && k > 0 && Core(Created(mediaSize))
    ensures var r := AddOrSame(Created(mediaSize), MAP_NAME, Map, 1, k);
            if k >= mediaSize then r == Created(mediaSize)
            else if k == mediaSize - 1 then r == Table([MapPart(k)], [MapPart(k)], -1, mediaSize)
            else var ps := [MapPart(k), FreePart(1 + k, mediaSize - 1 - k)]; r == Table(ps, ps, k, mediaSize)
  {
    hide Core, AddOrSame, Splice, PiecesByBase, PiecesByNumber, FindContaining, IndexOfStart;
    AddResult(Created(mediaSize), MAP_NAME, Map, 1, k);
    OnlyFree(FreePart(1, mediaSize - 1), k);
  }

  lemma OnlyFree(free: Part, k: nat)
    requires free == FreePart(1, free.blocks) && k > 0
    ensures FindContaining([free], 1, k) == (if k <= free.blocks then 0 else 1) && IndexOfStart([free], 1) == 0
    ensures k <= free.blocks ==>
            var ps := if k == free.blocks then [MapPart(k)] else [MapPart(k), FreePart(1 + k, free.blocks - k)];
            && PiecesByBase(free, MapPart(k)) == PiecesByNumber(free, MapPart(k)) == ps && Splice([free], 0, 1, ps) == ps
  {
    if k <= free.blocks {
      Front([MapPart(k)], FreePart(1 + k, free.blocks - k));
    }
  }

  /* ---------- creating ---------- */

  /** How many entries the map has after a partition is cut out of a free one. */
  function Entries(t: Table, free: Part, start: nat, blocks: nat): nat {
    |t.base| + (if free.start < start then 1 else 0) + (if start + blocks < free.End() then 1 else 0)
  }

  /** There is free space around the blocks, and the map has room for what becomes of it. */
  ghost predicate MayCreate(t: Table, start: nat, blocks: nat) {
    exists i :: 0 <= i < |t.base| && t.base[i].kind.Free? && t.base[i].start <= start && start + blocks <= t.base[i].End()
                && Entries(t, t.base[i], start, blocks) <= if t.maxInMap < 0 then t.mediaSize else t.maxInMap
  }

  lemma OneContaining(t: Table, start: nat, blocks: nat, i: nat)
    requires Core(t) && blocks > 0 && i < |t.base| && t.base[i].start <= start && start + blocks <= t.base[i].End()
    ensures FindContaining(t.base, start, blocks) == i
  {
    var k := FindContaining(t.base, start, blocks);
    assert Sorted(t.base);
  }

  /** A partition can be created exactly then. */
  lemma CreatedIff(t: Table, name: string, kind: Kind, start: nat, blocks: nat)
    requires Settled(t) && blocks > 0
    ensures Add(t, name, kind, start, blocks).Some? <==> MayCreate(t, start, blocks)
  {
    hide Tiles, Sorted, SameParts, NoAdjacentFree, WellFormedParts;
    AddResult(t, name, kind, start, blocks);
    if MayCreate(t, start, blocks) {
      var i :| 0 <= i < |t.base| && t.base[i].kind.Free? && t.base[i].start <= start && start + blocks <= t.base[i].End()
               && Entries(t, t.base[i], start, blocks) <= if t.maxInMap < 0 then t.mediaSize else t.maxInMap;
      OneContaining(t, start, blocks, i);
    }
  }

  /**
   * The new partition has the number of the free entry that it is cut from, or the next one when free space
   * is left before and behind it; those before keep their numbers, and the others their order.
   */
  lemma CreatedOrder(t: Table, name: string, kind: Kind, start: nat, blocks: nat)
    requires Settled(t) && blocks > 0 && !kind.Free? && Add(t, name, kind, start, blocks).Some?
    ensures var r, p := Add(t, name, kind, start, blocks).value, Part(name, kind, start, blocks, blocks);
            exists d :: 0 <= d < |t.disk| && t.disk[d].kind.Free? && t.disk[d].start <= start && start + blocks <= t.disk[d].End()
              && d < |r.disk| && r.disk[..d] == t.disk[..d]
              && (if t.disk[d].start < start && start + blocks < t.disk[d].End() then
                    d + 1 < |r.disk| && r.disk[d + 1] == p
                  && r.disk[d] == Part("Extra", Free, t.disk[d].start, start - t.disk[d].start, start - t.disk[d].start)
                  else r.disk[d] == p)
              && Allocated(r.disk) == Allocated(t.disk[..d]) + [p] + Allocated(t.disk[d + 1..])
  {
    AddIsCut(t, name, kind, start, blocks);
    hide Settled, Add, FindContaining, IndexOfStart, Splice, Allocated;
    var i, p := FindContaining(t.base, start, blocks), NewPart(name, kind, start, blocks);
    var d := IndexOfStart(t.disk, t.base[i].start);
    var ps := PiecesByNumber(t.base[i], p);
    assert WellFormedPart(t.base[i]);
    PiecesAllocated(t.base[i], p);
    AllocatedSplice(t.disk, d, 1, ps);
    SpliceStart(t.disk, d, ps);
  }

  lemma SpliceStart(s: seq<Part>, d: nat, ps: seq<Part>)
    requires d < |s| && ps != []
    ensures |Splice(s, d, 1, ps)| == |s| - 1 + |ps| && Splice(s, d, 1, ps)[..d] == s[..d]
    ensures Splice(s, d, 1, ps)[d] == ps[0] && (|ps| > 1 ==> Splice(s, d, 1, ps)[d + 1] == ps[1])
  {
  }

  lemma PiecesAllocated(cur: Part, p: Part)
    requires cur.start <= p.start && p.End() <= cur.End() && cur.kind.Free? && !p.kind.Free?
    ensures var ps := PiecesByNumber(cur, p);
            && ps != [] && Allocated(ps) == [p]
            && (if cur.start < p.start && p.End() < cur.End() then
                  |ps| > 1 && ps[0] == Resized(cur, cur.start, p.start - cur.start) && ps[1] == p
                else ps[0] == p)
  {
    var ps := PiecesByNumber(cur, p);
    var k := if cur.start < p.start && p.End() < cur.End() then 1 else 0;
    AllocatedAround(ps, k);
    FreeOnly(ps[..k]);
    FreeOnly(ps[k + 1..]);
  }

  lemma {:induction false} FreeOnly(s: seq<Part>)
    requires forall i :: 0 <= i < |s| ==> s[i].kind.Free?
    ensures Allocated(s) == []
  {
    if s == [] {
    } else {
      FreeOnly(s[..|s| - 1]);
    }
  }

  /* ---------- deleting ---------- */

  /** Deleting takes that partition out, and the others keep their order; the map's own entry stays. */
  lemma DeletedOrder(t: Table, n: int)
    requires Core(t)
    ensures 1 <= n <= |t.disk| && !t.disk[n - 1].kind.Map? ==>
              Allocated(Delete(t, n).disk) == Allocated(t.disk[..n - 1]) + Allocated(t.disk[n..])
    ensures !(1 <= n <= |t.disk|) || t.disk[n - 1].kind.Map? ==> Delete(t, n) == t
  {
    if 1 <= n <= |t.disk| && !t.disk[n - 1].kind.Map? {
      InBase(t, n - 1);
      hide Tiles, Sorted, SameParts, FreeUp;
      FreedOrder(t, IndexOfStart(t.base, t.disk[n - 1].start), n - 1);
    }
  }

  lemma FreedOrder(t: Table, i: nat, d: nat)
    requires Core(t) && i < |t.base| && d < |t.disk| && t.disk[d] == t.base[i]
    ensures Allocated(FreeUp(t, i).disk) == Allocated(t.disk[..d]) + Allocated(t.disk[d + 1..])
  {
    var p := FreePart(t.base[i].start, t.base[i].blocks);
    IndexOfDistinct(t.disk, d);
    SetPartKeepsCore(t, i, p);
    hide Core, Splice, Allocated, CombineNext, CombinePrev;
    AllocatedSplice(t.disk, d, 1, [p]);
    FreeOnly([p]);
    NoneBetween(Allocated(t.disk[..d]), Allocated(t.disk[d + 1..]));
    var s := SetPart(t, i, p);
    SetAt(t, i, p);
    NextOrder(s, i);
    PrevOrder(CombineNext(s, i), i);
  }

  lemma NoneBetween(s: seq<Part>, t: seq<Part>)
    ensures s + [] + t == s + t
  {
  }

  lemma SetAt(t: Table, i: nat, p: Part)
    requires Core(t) && i < |t.base|
    ensures i < |SetPart(t, i, p).base| && SetPart(t, i, p).base[i] == p
  {
  }

  /** Free space put in the place of free space, or taken out. */
  lemma FreeInPlace(s: seq<Part>, k: nat, m: Part)
    requires k < |s| && s[k].kind.Free? && m.kind.Free?
    ensures Allocated(s[k := m]) == Allocated(s) == Allocated(Splice(s, k, 1, []))
  {
    hide Allocated;
    AllocatedAround(s, k);
    AllocatedSplice(s, k, 1, [m]);
    AllocatedSplice(s, k, 1, []);
    FreeOnly([m]);
    FreeOnly([]);
    NoneBetween(Allocated(s[..k]), Allocated(s[k + 1..]));
    assert s[k := m] == Splice(s, k, 1, [m]);
  }

  /** Merging free space leaves the order of the others. */
  lemma MergeOrder(t: Table, i: nat, keep: nat)
    requires Core(t) && i + 1 < |t.base| && (keep == i || keep == i + 1)
    requires t.base[i].kind.Free? && t.base[i + 1].kind.Free?
    ensures Allocated(Merge(t, i, keep).disk) == Allocated(t.disk)
  {
    var drop := i + i + 1 - keep;
    InDisk(t, keep);
    InDisk(t, drop);
    var d, dp := IndexOfStart(t.disk, t.base[keep].start), IndexOfStart(t.disk, t.base[drop].start);
    DifferentStarts(t, i);
    hide Core, Merge, Splice, Allocated, IndexOfStart;
    var m := MergedPart(t.base, i, keep);
    MergeAt(t, i, keep, d, dp);
    FreeInPlace(t.disk, d, m);
    FreeInPlace(t.disk[d := m], dp, m);
  }

  lemma DifferentStarts(t: Table, i: nat)
    requires Core(t) && i + 1 < |t.base|
    ensures t.base[i].start < t.base[i + 1].start
  {
    assert t.base[i].End() <= t.base[i + 1].start && t.base[i].blocks > 0;
  }

  lemma NextOrder(t: Table, i: nat)
    requires Core(t) && i < |t.base| && t.base[i].kind.Free?
    ensures Allocated(CombineNext(t, i).disk) == Allocated(t.disk)
    ensures i < |CombineNext(t, i).base| && CombineNext(t, i).base[i].kind.Free?
  {
    hide Core, Merge, Allocated;
    if NextFree(t.base, i) { MergeOrder(t, i, i); }
  }

  lemma PrevOrder(t: Table, i: nat)
    requires Core(t) && i < |t.base| && t.base[i].kind.Free?
    ensures Allocated(CombinePrev(t, i).disk) == Allocated(t.disk)
  {
    hide Core, Merge, Allocated;
    if PrevFree(t.base, i) { MergeOrder(t, i - 1, i); }
  }

  /* ---------- moving ---------- */

  /**
   * A moved partition gets the number asked for when it moves down, one less when it moves up past others,
   * and the first or last one for a number before or behind all; without it the others are as they were.
   */
  lemma MovedOrder(t: Table, from: int, index: int)
    ensures 1 <= from <= |t.disk| ==>
              var k := if index <= 1 then 0 else if index <= from then index - 1 else if index <= |t.disk| then index - 2 else |t.disk| - 1;
              var r := Move(t, from, index);
              && |r.disk| == |t.disk| && r.disk[k] == t.disk[from - 1]
              && r.disk[..k] + r.disk[k + 1..] == t.disk[..from - 1] + t.disk[from..]
              && r == t.(disk := r.disk)
    ensures !(1 <= from <= |t.disk|) ==> Move(t, from, index) == t
  {
    if 1 <= from <= |t.disk| {
      var rest := t.disk[..from - 1] + t.disk[from..];
      PutIn(rest, MovedTo(|t.disk|, from, index) - 1, t.disk[from - 1]);
    }
  }

  lemma PutIn<T>(s: seq<T>, k: nat, x: T)
    requires k <= |s|
    ensures var r := s[..k] + [x] + s[k..]; |r| == |s| + 1 && r[k] == x && r[..k] + r[k + 1..] == s
  {
    var r := s[..k] + [x] + s[k..];
    assert r[..k] == s[..k] && r[k + 1..] == s[k..];
  }

  /* ---------- resizing ---------- */

  /**
   * The map's entry has the new size afterwards exactly when it has it already, when the size is smaller but
   * leaves a number for each entry and one for free space that appears, or when the next entry is free and
   * there are enough blocks in both. Otherwise nothing changes.
   */
  lemma ResizedIff(t: Table, size: int)
    requires Inv(t) && t.base[0].kind.Map?
    ensures var r, map_, free := Resize(t, size), t.base[0], |t.base| > 1 && t.base[1].kind.Free?;
            var fits := || size == map_.blocks
                        || (size < map_.blocks && |t.base| + (if free then 0 else 1) <= size)
                        || (size > map_.blocks && free && size <= map_.blocks + t.base[1].blocks);
            && |r.base| > 0
            && (r.base[0].kind.Map? && r.base[0].start == 1 && r.base[0].blocks == size <==> fits)
            && (fits && size != map_.blocks ==> r.base[0] == Part("Apple", Map, 1, size, size))
            && (!fits || size == map_.blocks ==> r == t)
            && (fits && size != map_.blocks ==> r.maxInMap == size)
  {
    MapIsFirst(t);
    FirstIsMap(t);
    MayResize(t, size);
    if ResizeAllowed(t, 0, size) { ResizeResult(t, size); }
  }

  lemma FirstIsMap(t: Table)
    requires Inv(t) && t.base[0].kind.Map?
    ensures FindMap(t.base) == 0 && t.base[0].start == 1
  {
  }

  lemma MayResize(t: Table, size: int)
    requires Inv(t)
    ensures var free := |t.base| > 1 && t.base[1].kind.Free?;
            ResizeAllowed(t, 0, size) <==>
              || (size < t.base[0].blocks && |t.base| + (if free then 0 else 1) <= size)
              || (size > t.base[0].blocks && free && size <= t.base[0].blocks + t.base[1].blocks)
  {
    if |t.base| > 1 { assert t.base[0].End() == t.base[1].start; }
  }

  /** The partitions other than free space and the map's own, in order. */
  function Others(s: seq<Part>): seq<Part> {
    if s == [] then [] else Others(s[..|s| - 1]) + if s[|s| - 1].kind.Other? then [s[|s| - 1]] else []
  }

  lemma {:induction false} OthersBoth(s: seq<Part>, t: seq<Part>)
    ensures Others(s + t) == Others(s) + Others(t)
  {
    if t == [] {
      assert s + t == s;
      Front(Others(s), FreePart(0, 0));
    } else {
      var n := |t| - 1;
      var front, last := t[..n], t[n];
      OthersBoth(s, front);
      Front(s + front, last);
      Joins(s, front, [last]);
      Snoc(t);
      Joins(Others(s), Others(front), if last.kind.Other? then [last] else []);
    }
  }

  lemma {:induction false} OthersAllocated(s: seq<Part>)
    ensures Others(Allocated(s)) == Others(s)
  {
    if s == [] {
    } else {
      var n := |s| - 1;
      OthersAllocated(s[..n]);
      Snoc(s);
      AllocatedMore(s[..n], s[n]);
      hide Allocated;
      OthersBoth(Allocated(s[..n]), [s[n]]);
      Front([], s[n]);
      Front(Others(s[..n]), s[n]);
    }
  }

  lemma OthersAround(s: seq<Part>, k: nat)
    requires k < |s| && !s[k].kind.Other?
    ensures Others(s) == Others(s[..k]) + Others(s[k + 1..])
  {
    hide Others;
    Parts(s, k);
    OthersBoth(s[..k] + [s[k]], s[k + 1..]);
    OthersBoth(s[..k], [s[k]]);
    NoOther(s[k]);
    Front(Others(s[..k]), s[k]);
  }

  lemma NoOther(p: Part)
    requires !p.kind.Other?
    ensures Others([p]) == []
  {
  }

  /** Resizing leaves the order of the other partitions. */
  lemma ResizedOrder(t: Table, size: int)
    requires Inv(t)
    ensures Others(Resize(t, size).disk) == Others(t.disk)
  {
    ResizeSteps(t, size);
    var i := FindMap(t.base);
    if i < |t.base| && ResizeAllowed(t, i, size) {
      MapNumber(t, i);
      var d := IndexOfStart(t.disk, t.base[i].start);
      hide Inv, Settled, Core, FreeUp, Add, Resize, AddOrSame, Others, Allocated, IndexOfStart, ResizeAllowed, MapBound;
      FreedOrder(t, i, d);
      OthersAround(t.disk, d);
      var f := FreeUp(t, i);
      OthersAllocated(f.disk);
      OthersAllocated(t.disk[..d]);
      OthersAllocated(t.disk[d + 1..]);
      OthersBoth(Allocated(t.disk[..d]), Allocated(t.disk[d + 1..]));
      AddedOthers(f, size);
    }
  }

  lemma MapNumber(t: Table, i: nat)
    requires Core(t) && i < |t.base| && t.base[i].kind.Map?
    ensures var d := IndexOfStart(t.disk, t.base[i].start); d < |t.disk| && t.disk[d] == t.base[i] && t.disk[d].kind.Map?
  {
    InDisk(t, i);
  }

  lemma AddedOthers(f: Table, size: nat)
    requires Settled(f) && size > 0
    ensures Others(AddOrSame(f, MAP_NAME, Map, 1, size).disk) == Others(f.disk)
  {
    if Add(f, MAP_NAME, Map, 1, size).Some? {
      CreatedOrder(f, MAP_NAME, Map, 1, size);
      hide Settled, Core, Add, Others, Allocated;
      var r := Add(f, MAP_NAME, Map, 1, size).value;
      var d :| 0 <= d < |f.disk| && f.disk[d].kind.Free?
               && Allocated(r.disk) == Allocated(f.disk[..d]) + [MapPart(size)] + Allocated(f.disk[d + 1..]);
      OthersAllocated(r.disk);
      OthersAllocated(f.disk[..d]);
      OthersAllocated(f.disk[d + 1..]);
      OthersBoth(Allocated(f.disk[..d]) + [MapPart(size)], Allocated(f.disk[d + 1..]));
      OthersBoth(Allocated(f.disk[..d]), [MapPart(size)]);
      NoOther(MapPart(size));
      Front(Others(Allocated(f.disk[..d])), MapPart(size));
      OthersAround(f.disk, d);
    }
  }
}
