/** Value-level model of the partition map that the editor keeps in memory: what
    each editing command does to the entries, listed in base order and in disk order.
    The pointer structure that implements it is in PartitionMap.dfy. */
module PartitionTable {
  import opened Wrappers

  /** Partition types the editor tells apart; every other type string is Other. */
  datatype Kind = Free | Map | Other(typeName: string)

  datatype Part = Part(name: string, kind: Kind, start: nat, blocks: nat, lblocks: nat)
  {
    function End(): nat { start + blocks }
  }

  const FREE_NAME := "Extra"
  const MAP_NAME := "Apple"

  function NewPart(name: string, kind: Kind, start: nat, blocks: nat): Part {
    Part(name, kind, start, blocks, blocks)
  }

  function FreePart(start: nat, blocks: nat): Part {
    NewPart(FREE_NAME, Free, start, blocks)
  }

  function MapPart(blocks: nat): Part {
    NewPart(MAP_NAME, Map, 1, blocks)
  }

  /** disk lists the entries by partition number (number n is disk[n-1]), base lists
      the same entries by start; maxInMap is negative until a map entry sets it. */
  datatype Table = Table(disk: seq<Part>, base: seq<Part>, maxInMap: int, mediaSize: nat)

  /* ---------- the invariant ---------- */

  /** s covers [lo, hi) block by block, in order, with no gap and no overlap. */
  ghost predicate Tiles(s: seq<Part>, lo: nat, hi: nat) {
    && |s| > 0
    && s[0].start == lo
    && s[|s| - 1].End() == hi
    && (forall i :: 0 <= i < |s| ==> s[i].blocks > 0)
    && (forall i, j :: 0 <= i && j == i + 1 && j < |s| ==> s[i].End() == s[j].start)
  }

  ghost predicate Sorted(s: seq<Part>) {
    forall i, j :: 0 <= i < j < |s| ==> s[i].End() <= s[j].start
  }

  ghost predicate DistinctStarts(s: seq<Part>) {
    forall i, j :: 0 <= i < |s| && 0 <= j < |s| && i != j ==> s[i].start != s[j].start
  }

  /** Disk order is a rearrangement of base order. */
  ghost predicate SameParts(disk: seq<Part>, base: seq<Part>) {
    && |disk| == |base|
    && DistinctStarts(disk)
    && multiset(disk) == multiset(base)
  }

  /** s with the n entries from i on replaced by ps. */
  function Splice(s: seq<Part>, i: nat, n: nat, ps: seq<Part>): seq<Part>
    requires i + n <= |s|
  {
    s[..i] + ps + s[i + n..]
  }

  ghost predicate NoAdjacentFree(s: seq<Part>) {
    forall i, j :: 0 <= i && j == i + 1 && j < |s| ==> !(s[i].kind.Free? && s[j].kind.Free?)
  }

  /** The logical blocks of an entry are all of its physical blocks, and free space
      always carries the same name. */
  ghost predicate WellFormedPart(p: Part) {
    && p.lblocks == p.blocks
    && (p.kind.Free? ==> p.name == FREE_NAME)
  }

  ghost predicate WellFormedParts(s: seq<Part>) {
    forall i :: 0 <= i < |s| ==> WellFormedPart(s[i])
  }

  /** maximum_in_map is the size of the map entry, which sits at block 1. */
  ghost predicate MapBound(t: Table)
    requires |t.base| > 0
  {
    && (t.base[0].kind.Map? || t.mediaSize == 2)
    && (t.maxInMap < 0 ==> t.mediaSize <= 3)
    && (t.maxInMap >= 0 ==> t.base[0].kind.Map? && t.maxInMap == t.base[0].blocks && |t.base| <= t.maxInMap)
  }

  /** The part of the invariant that holds even while entries are being merged. */
  ghost predicate Core(t: Table) {
    && 2 <= t.mediaSize < 0x1_0000_0000
    && Tiles(t.base, 1, t.mediaSize)
    && Sorted(t.base)
    && SameParts(t.disk, t.base)
  }

  /** Between commands free space is merged, too. */
  ghost predicate Settled(t: Table) {
    && Core(t)
    && NoAdjacentFree(t.base)
    && WellFormedParts(t.base)
  }

  ghost predicate Inv(t: Table) {
    Settled(t) && MapBound(t)
  }

  /* ---------- small facts ---------- */

  lemma {:induction false} TilesAreSorted(s: seq<Part>, lo: nat, hi: nat)
    requires Tiles(s, lo, hi)
    ensures Sorted(s)
    ensures forall i :: 0 <= i < |s| ==> lo + i <= s[i].start && s[i].End() <= hi
  {
    forall i, j | 0 <= i < j < |s| ensures s[i].End() <= s[j].start { TilesOrder(s, lo, hi, i, j); }
    forall i | 0 <= i < |s| ensures lo + i <= s[i].start && s[i].End() <= hi {
      TilesGrow(s, lo, hi, i);
      if i < |s| - 1 { TilesOrder(s, lo, hi, i, |s| - 1); }
    }
  }

  lemma {:induction false} TilesOrder(s: seq<Part>, lo: nat, hi: nat, i: nat, j: nat)
    requires Tiles(s, lo, hi) && i < j < |s|
    ensures s[i].End() <= s[j].start
    decreases j - i
  {
    if j > i + 1 { TilesOrder(s, lo, hi, i, j - 1); }
  }

  lemma {:induction false} TilesGrow(s: seq<Part>, lo: nat, hi: nat, i: nat)
    requires Tiles(s, lo, hi) && i < |s|
    ensures lo + i <= s[i].start
  {
    if i == 0 {
    } else {
      TilesGrow(s, lo, hi, i - 1);
    }
  }

  /** Replacing one entry of a tiling by a tiling of its range gives a tiling. */
  lemma TilesReplace(s: seq<Part>, i: nat, n: nat, ps: seq<Part>, lo: nat, hi: nat)
    requires Tiles(s, lo, hi) && i < i + n <= |s|
    requires Tiles(ps, s[i].start, s[i + n - 1].End())
    ensures Tiles(Splice(s, i, n, ps), lo, hi)
  {
    var r := Splice(s, i, n, ps);
    forall k, l | 0 <= k && l == k + 1 && l < |r| ensures r[k].End() == r[l].start {
      if k < i - 1 {
        assert r[k] == s[k] && r[l] == s[l];
      } else if k == i - 1 {
        assert r[k] == s[k] && r[l] == ps[0];
      } else if l < i + |ps| {
        assert r[k] == ps[k - i] && r[l] == ps[l - i];
      } else if l == i + |ps| {
        assert r[k] == ps[|ps| - 1] && r[l] == s[i + n];
      } else {
        assert r[k] == s[k - |ps| + n] && r[l] == s[l - |ps| + n];
      }
    }
  }

  /* ---------- finding entries ---------- */

  /** The first entry in base order that contains [start, start + blocks). */
  function FindContaining(base: seq<Part>, start: nat, blocks: nat): (i: nat)
    ensures i <= |base|
    ensures i < |base| ==> base[i].start <= start && start + blocks <= base[i].End()
    ensures forall j :: 0 <= j < i ==> !(base[j].start <= start && start + blocks <= base[j].End())
  {
    if base == [] then 0
    else if base[0].start <= start && start + blocks <= base[0].End() then 0
    else
      var k := FindContaining(base[1..], start, blocks);
      assert forall j :: 0 < j < k + 1 ==> base[j] == base[1..][j - 1];
      k + 1
  }

  /** The position of the first entry starting at start, |s| when there is none. */
  function IndexOfStart(s: seq<Part>, start: nat): (i: nat)
    ensures i <= |s|
    ensures i < |s| ==> s[i].start == start
    ensures forall j :: 0 <= j < i ==> s[j].start != start
  {
    if s == [] then 0 else if s[0].start == start then 0 else 1 + IndexOfStart(s[1..], start)
  }

  lemma InDisk(t: Table, i: nat)
    requires Core(t) && i < |t.base|
    ensures IndexOfStart(t.disk, t.base[i].start) < |t.disk|
    ensures t.disk[IndexOfStart(t.disk, t.base[i].start)] == t.base[i]
  {
    assert t.base[i] in multiset(t.disk);
    var k :| 0 <= k < |t.disk| && t.disk[k] == t.base[i];
    assert k == IndexOfStart(t.disk, t.base[i].start);
  }

  lemma InBase(t: Table, d: nat)
    requires Core(t) && d < |t.disk|
    ensures IndexOfStart(t.base, t.disk[d].start) < |t.base|
    ensures t.base[IndexOfStart(t.base, t.disk[d].start)] == t.disk[d]
  {
    assert t.disk[d] in multiset(t.base);
    var k :| 0 <= k < |t.base| && t.base[k] == t.disk[d];
    assert k == IndexOfStart(t.base, t.disk[d].start);
  }

  /* ---------- add_partition_to_map ---------- */

  /** The number of entries an addition puts beside the one it changes. */
  const REPLACE := 0
  const ADD := 1
  const SPLIT := 2

  function ActionFor(cur: Part, start: nat, blocks: nat): nat {
    if cur.start == start then
      if cur.blocks == blocks then REPLACE else ADD
    else
      if cur.End() == start + blocks then ADD else SPLIT
  }

  function Resized(p: Part, start: nat, blocks: nat): Part {
    p.(start := start, blocks := blocks, lblocks := blocks)
  }

  /** What the free entry cur becomes, by start: free space before, the new entry, free space after. */
  function PiecesByBase(cur: Part, p: Part): seq<Part>
    requires cur.start <= p.start && p.End() <= cur.End()
  {
    (if cur.start < p.start then [Resized(cur, cur.start, p.start - cur.start)] else [])
    + [p]
    + (if p.End() < cur.End() then [Resized(cur, p.End(), cur.End() - p.End())] else [])
  }

  /** The same entries by number. The new entry takes cur's number; only a split puts
      free space before it, and an entry cut from the end still precedes what remains. */
  function PiecesByNumber(cur: Part, p: Part): seq<Part>
    requires cur.start <= p.start && p.End() <= cur.End()
  {
    if cur.start < p.start && p.End() == cur.End() then
      [p, Resized(cur, cur.start, p.start - cur.start)]
    else
      PiecesByBase(cur, p)
  }

  function Limit(t: Table): int {
    if t.maxInMap < 0 then t.mediaSize else t.maxInMap
  }

  ghost function Add(t: Table, name: string, kind: Kind, start: nat, blocks: nat): Option<Table>
    requires Core(t)
  {
    var i := FindContaining(t.base, start, blocks);
    if i == |t.base| || !t.base[i].kind.Free? then None
    else
      var cur := t.base[i];
      var act := ActionFor(cur, start, blocks);
      if |t.base| + act > Limit(t) then None
      else
        var p := NewPart(name, kind, start, blocks);
        Some(Put(t, i, p, if t.maxInMap < 0 && kind.Map? && act != REPLACE then blocks else t.maxInMap))
  }

  /** The entry p goes into base[i]. */
  ghost function Put(t: Table, i: nat, p: Part, maxInMap: int): Table
    requires Core(t) && i < |t.base|
    requires t.base[i].start <= p.start && p.End() <= t.base[i].End()
  {
    Table(ReplaceInDisk(t, i, PiecesByNumber(t.base[i], p)),
          Splice(t.base, i, 1, PiecesByBase(t.base[i], p)),
          maxInMap,
          t.mediaSize)
  }

  ghost function AddOrSame(t: Table, name: string, kind: Kind, start: nat, blocks: nat): Table
    requires Core(t)
  {
    var r := Add(t, name, kind, start, blocks);
    if r.Some? then r.value else t
  }

  /** The result of an addition, written out. */
  lemma AddResult(t: Table, name: string, kind: Kind, start: nat, blocks: nat)
    requires Core(t)
    ensures var i := FindContaining(t.base, start, blocks);
      if i == |t.base| || !t.base[i].kind.Free? || |t.base| + ActionFor(t.base[i], start, blocks) > Limit(t) then
        Add(t, name, kind, start, blocks) == None && AddOrSame(t, name, kind, start, blocks) == t
      else
        var cur, p := t.base[i], NewPart(name, kind, start, blocks);
        var d := IndexOfStart(t.disk, cur.start);
        d < |t.disk| && Add(t, name, kind, start, blocks) == Some(AddOrSame(t, name, kind, start, blocks))
        && AddOrSame(t, name, kind, start, blocks)
          == Table(Splice(t.disk, d, 1, PiecesByNumber(cur, p)), Splice(t.base, i, 1, PiecesByBase(cur, p)),
                        if t.maxInMap < 0 && kind.Map? && ActionFor(cur, start, blocks) != REPLACE then blocks else t.maxInMap,
                        t.mediaSize)
  {
    hide Tiles, Sorted, SameParts, PiecesByNumber, PiecesByBase;
    var i := FindContaining(t.base, start, blocks);
    if i < |t.base| { InDisk(t, i); }
  }

  /** Disk order with base[i] replaced, at its number, by ps. */
  ghost function ReplaceInDisk(t: Table, i: nat, ps: seq<Part>): seq<Part>
    requires Core(t) && i < |t.base|
  {
    InDisk(t, i);
    var d := IndexOfStart(t.disk, t.base[i].start);
    Splice(t.disk, d, 1, ps)
  }

  lemma BagSplice(s: seq<Part>, i: nat, n: nat, ps: seq<Part>)
    requires i + n <= |s|
    ensures multiset(Splice(s, i, n, ps)) == multiset(s) - multiset(s[i..i + n]) + multiset(ps)
  {
    assert s == s[..i] + s[i..i + n] + s[i + n..];
  }

  lemma DistinctSplice(s: seq<Part>, i: nat, ps: seq<Part>)
    requires DistinctStarts(s) && i < |s| && DistinctStarts(ps)
    requires forall k, l :: 0 <= k < |s| && k != i && 0 <= l < |ps| ==> s[k].start != ps[l].start
    ensures DistinctStarts(Splice(s, i, 1, ps))
  {
    var r := Splice(s, i, 1, ps);
    forall k, l | 0 <= k < l < |r| ensures r[k].start != r[l].start {
      assert r[k] == if k < i then s[k] else if k < i + |ps| then ps[k - i] else s[k - |ps| + 1];
      assert r[l] == if l < i then s[l] else if l < i + |ps| then ps[l - i] else s[l - |ps| + 1];
    }
  }

  lemma SortedIsDistinct(s: seq<Part>)
    requires Sorted(s) && forall i :: 0 <= i < |s| ==> s[i].blocks > 0
    ensures DistinctStarts(s)
  {
  }

  /** Replacing base[i] by a tiling of its range keeps the two orders the same entries. */
  lemma ReplaceInDiskSame(t: Table, i: nat, ps: seq<Part>, qs: seq<Part>)
    requires Core(t) && i < |t.base|
    requires Tiles(ps, t.base[i].start, t.base[i].End())
    requires SameParts(qs, ps)
    ensures SameParts(ReplaceInDisk(t, i, qs), Splice(t.base, i, 1, ps))
  {
    InDisk(t, i);
    ReplacedDistinct(t, i, ps, qs);
    ReplacedBag(t.disk, IndexOfStart(t.disk, t.base[i].start), t.base, i, ps, qs);
  }

  lemma ReplacedBag(disk: seq<Part>, d: nat, base: seq<Part>, i: nat, ps: seq<Part>, qs: seq<Part>)
    requires d < |disk| && i < |base| && disk[d] == base[i]
    requires multiset(disk) == multiset(base) && multiset(qs) == multiset(ps)
    ensures multiset(Splice(disk, d, 1, qs)) == multiset(Splice(base, i, 1, ps))
  {
    hide Splice;
    assert disk[d..d + 1] == base[i..i + 1];
    BagSplice(disk, d, 1, qs);
    BagSplice(base, i, 1, ps);
  }

  lemma ReplacedDistinct(t: Table, i: nat, ps: seq<Part>, qs: seq<Part>)
    requires Core(t) && i < |t.base|
    requires Tiles(ps, t.base[i].start, t.base[i].End())
    requires SameParts(qs, ps)
    ensures DistinctStarts(ReplaceInDisk(t, i, qs))
  {
    InDisk(t, i);
    var d := IndexOfStart(t.disk, t.base[i].start);
    OthersOutside(t, i, d);
    StartsInside(ps, t.base[i].start, t.base[i].End());
    forall l | 0 <= l < |qs| ensures t.base[i].start <= qs[l].start < t.base[i].End() {
      assert qs[l] in multiset(ps);
    }
    DistinctSplice(t.disk, d, qs);
  }

  lemma OthersOutside(t: Table, i: nat, d: nat)
    requires Core(t) && i < |t.base| && d < |t.disk| && t.disk[d] == t.base[i]
    ensures forall k :: 0 <= k < |t.disk| && k != d ==>
      t.disk[k].start < t.base[i].start || t.base[i].End() <= t.disk[k].start
  {
    forall k | 0 <= k < |t.disk| && k != d
      ensures t.disk[k].start < t.base[i].start || t.base[i].End() <= t.disk[k].start
    {
      assert t.disk[k] in multiset(t.base);
      var l :| 0 <= l < |t.base| && t.base[l] == t.disk[k];
    }
  }

  lemma StartsInside(ps: seq<Part>, lo: nat, hi: nat)
    requires Tiles(ps, lo, hi)
    ensures forall p :: p in ps ==> lo <= p.start < hi
  {
    TilesAreSorted(ps, lo, hi);
  }

  lemma PiecesTile(cur: Part, p: Part)
    requires cur.start <= p.start && p.End() <= cur.End() && p.blocks > 0
    ensures Tiles(PiecesByBase(cur, p), cur.start, cur.End())
    ensures SameParts(PiecesByNumber(cur, p), PiecesByBase(cur, p))
    ensures |PiecesByBase(cur, p)| == 1 + ActionFor(cur, p.start, p.blocks)
  {
    var ps, qs := PiecesByBase(cur, p), PiecesByNumber(cur, p);
    if cur.start < p.start && p.End() == cur.End() {
      assert ps[0] == qs[1] && ps[1] == qs[0] && |ps| == 2 == |qs|;
      assert forall x :: x in qs <==> x == qs[0] || x == qs[1];
      assert forall x :: x in ps <==> x == ps[0] || x == ps[1];
    }
  }

  lemma PutKeepsCore(t: Table, i: nat, p: Part, maxInMap: int)
    requires Core(t) && i < |t.base| && p.blocks > 0
    requires t.base[i].start <= p.start && p.End() <= t.base[i].End()
    ensures Core(Put(t, i, p, maxInMap))
  {
    var ps := PiecesByBase(t.base[i], p);
    PiecesTile(t.base[i], p);
    TilesReplace(t.base, i, 1, ps, 1, t.mediaSize);
    ReplaceInDiskSame(t, i, ps, PiecesByNumber(t.base[i], p));
    TilesAreSorted(Splice(t.base, i, 1, ps), 1, t.mediaSize);
  }

  lemma PutKeepsSettled(t: Table, i: nat, p: Part, maxInMap: int)
    requires Settled(t) && i < |t.base| && p.blocks > 0 && t.base[i].kind.Free?
    requires t.base[i].start <= p.start && p.End() <= t.base[i].End()
    requires !p.kind.Free? && WellFormedPart(p)
    ensures Settled(Put(t, i, p, maxInMap))
    ensures |Put(t, i, p, maxInMap).base| == |t.base| + ActionFor(t.base[i], p.start, p.blocks)
  {
    hide Tiles, Sorted, SameParts, ReplaceInDisk;
    PutKeepsCore(t, i, p, maxInMap);
    PiecesTile(t.base[i], p);
    PiecesFit(t.base, i, PiecesByBase(t.base[i], p));
  }

  /** Creating a partition keeps the map's invariant. */
  lemma AddKeepsSettled(t: Table, name: string, kind: Kind, start: nat, blocks: nat)
    requires Settled(t) && blocks > 0 && !kind.Free?
    requires Add(t, name, kind, start, blocks).Some?
    ensures Settled(Add(t, name, kind, start, blocks).value)
    ensures |Add(t, name, kind, start, blocks).value.base| <= Limit(t)
  {
    var i := FindContaining(t.base, start, blocks);
    PutKeepsSettled(t, i, NewPart(name, kind, start, blocks), Add(t, name, kind, start, blocks).value.maxInMap);
  }

  /** Neither unusual entries nor adjacent free space appear where the pieces go in. */
  lemma PiecesFit(base: seq<Part>, i: nat, ps: seq<Part>)
    requires NoAdjacentFree(base) && i < |base| && WellFormedParts(base)
    requires NoAdjacentFree(ps) && |ps| > 0 && WellFormedParts(ps)
    requires base[i].kind.Free? || (!ps[0].kind.Free? && !ps[|ps| - 1].kind.Free?)
    ensures NoAdjacentFree(Splice(base, i, 1, ps))
    ensures WellFormedParts(Splice(base, i, 1, ps))
  {
    var r := Splice(base, i, 1, ps);
    forall k, l | 0 <= k && l == k + 1 && l < |r| ensures !(r[k].kind.Free? && r[l].kind.Free?) {
      assert r[k] == if k < i then base[k] else if k < i + |ps| then ps[k - i] else base[k - |ps| + 1];
      assert r[l] == if l < i then base[l] else if l < i + |ps| then ps[l - i] else base[l - |ps| + 1];
    }
    forall k | 0 <= k < |r| ensures WellFormedPart(r[k]) {
      assert r[k] == if k < i then base[k] else if k < i + |ps| then ps[k - i] else base[k - |ps| + 1];
    }
  }

  /* ---------- delete_partition_from_map ---------- */

  /** s without the entry that starts at start. */
  function Without(s: seq<Part>, start: nat): seq<Part>
    requires IndexOfStart(s, start) < |s|
  {
    Splice(s, IndexOfStart(s, start), 1, [])
  }

  /** base[i] gets new data over the same blocks. */
  ghost function SetPart(t: Table, i: nat, p: Part): Table
    requires Core(t) && i < |t.base|
  {
    t.(disk := ReplaceInDisk(t, i, [p]), base := Splice(t.base, i, 1, [p]))
  }

  lemma SetPartKeepsCore(t: Table, i: nat, p: Part)
    requires Core(t) && i < |t.base|
    requires p.start == t.base[i].start && p.blocks == t.base[i].blocks
    ensures Core(SetPart(t, i, p))
  {
    ReplaceInDiskSame(t, i, [p], [p]);
    TilesReplace(t.base, i, 1, [p], 1, t.mediaSize);
    TilesAreSorted(Splice(t.base, i, 1, [p]), 1, t.mediaSize);
  }

  /** Disk order when kept swallows drop and becomes m. */
  function Absorb(disk: seq<Part>, drop: Part, kept: Part, m: Part): seq<Part>
    requires drop in disk && kept in disk && drop.start != kept.start && DistinctStarts(disk)
  {
    IndexOfMember(disk, drop);
    IndexInWithout(disk, drop.start, kept);
    var disk' := Without(disk, drop.start);
    disk'[IndexOfStart(disk', kept.start) := m]
  }

  lemma IndexOfMember(s: seq<Part>, p: Part)
    requires p in s && DistinctStarts(s)
    ensures IndexOfStart(s, p.start) < |s| && s[IndexOfStart(s, p.start)] == p
  {
  }

  lemma AbsorbParts(disk: seq<Part>, drop: Part, kept: Part, m: Part)
    requires drop in disk && kept in disk && drop.start != kept.start && DistinctStarts(disk)
    requires m.start == drop.start || m.start == kept.start
    ensures var r := Absorb(disk, drop, kept, m);
      |r| == |disk| - 1 && DistinctStarts(r) && multiset(r) == multiset(disk) - multiset{drop} - multiset{kept} + multiset{m}
  {
    IndexOfMember(disk, drop);
    IndexInWithout(disk, drop.start, kept);
    WithoutParts(disk, drop);
    AbsorbStarts(disk, drop, kept);
    var disk' := Without(disk, drop.start);
    UpdateParts(disk', IndexOfStart(disk', kept.start), m);
  }

  lemma WithoutParts(s: seq<Part>, p: Part)
    requires p in s && DistinctStarts(s)
    ensures IndexOfStart(s, p.start) < |s|
    ensures DistinctStarts(Without(s, p.start)) && multiset(Without(s, p.start)) == multiset(s) - multiset{p}
    ensures |Without(s, p.start)| == |s| - 1
  {
    hide IndexOfStart, DistinctStarts, Splice;
    IndexOfMember(s, p);
    var d := IndexOfStart(s, p.start);
    NoStarts();
    DistinctSplice(s, d, []);
    BagSplice(s, d, 1, []);
    SpliceLength(s, d, []);
    assert s[d..d + 1] == [p];
  }

  lemma NoStarts()
    ensures DistinctStarts([])
  {
  }

  lemma SpliceLength(s: seq<Part>, i: nat, ps: seq<Part>)
    requires i < |s|
    ensures |Splice(s, i, 1, ps)| == |s| - 1 + |ps|
  {
  }

  lemma UpdateParts(s: seq<Part>, k: nat, p: Part)
    requires DistinctStarts(s) && k < |s|
    requires forall q :: q in s && q != s[k] ==> q.start != p.start
    ensures DistinctStarts(s[k := p]) && multiset(s[k := p]) == multiset(s) - multiset{s[k]} + multiset{p}
  {
    assert Splice(s, k, 1, [p]) == s[k := p];
    assert s[k..k + 1] == [s[k]];
    BagSplice(s, k, 1, [p]);
    forall i | 0 <= i < |s| && i != k ensures s[i].start != p.start {
      assert s[i] in s && s[i].start != s[k].start;
    }
    DistinctSplice(s, k, [p]);
  }

  lemma AbsorbStarts(disk: seq<Part>, drop: Part, kept: Part)
    requires drop in disk && kept in disk && drop.start != kept.start && DistinctStarts(disk)
    ensures IndexOfStart(disk, drop.start) < |disk|
    ensures forall p :: p in Without(disk, drop.start) && p != kept ==> p.start != kept.start && p.start != drop.start
  {
    IndexOfMember(disk, drop);
    forall p | p in Without(disk, drop.start) && p != kept ensures p.start != kept.start && p.start != drop.start {
      var l :| 0 <= l < |Without(disk, drop.start)| && Without(disk, drop.start)[l] == p;
      WithoutAt(disk, drop.start, l);
    }
  }

  /** The entries of Without are those of s at the other positions. */
  lemma WithoutAt(s: seq<Part>, start: nat, l: nat)
    requires IndexOfStart(s, start) < |s| && DistinctStarts(s) && l + 1 < |s|
    ensures var d := IndexOfStart(s, start);
      var k := if l < d then l else l + 1;
      Without(s, start)[l] == s[k] && s[k].start != start
  {
  }

  function MergedPart(base: seq<Part>, i: nat, keep: nat): Part
    requires i + 1 < |base| && (keep == i || keep == i + 1)
  {
    Resized(base[keep], base[i].start, base[i].blocks + base[i + 1].blocks)
  }

  function MergedBase(base: seq<Part>, i: nat, keep: nat): seq<Part>
    requires i + 1 < |base| && (keep == i || keep == i + 1)
  {
    Splice(base, i, 2, [MergedPart(base, i, keep)])
  }

  /** base[i] and base[i + 1] become one entry, which keeps the number of base[keep]. */
  ghost function Merge(t: Table, i: nat, keep: nat): Table
    requires Core(t) && i + 1 < |t.base| && (keep == i || keep == i + 1)
  {
    InDisk(t, i);
    InDisk(t, i + 1);
    t.(disk := Absorb(t.disk, t.base[i + i + 1 - keep], t.base[keep], MergedPart(t.base, i, keep)),
       base := MergedBase(t.base, i, keep))
  }

  lemma IndexInWithout(s: seq<Part>, start: nat, p: Part)
    requires IndexOfStart(s, start) < |s| && DistinctStarts(s)
    requires p in s && p.start != start
    ensures var k := IndexOfStart(Without(s, start), p.start);
      k < |Without(s, start)| && Without(s, start)[k] == p
  {
    var i, d := IndexOfStart(s, p.start), IndexOfStart(s, start);
    IndexOfMember(s, p);
    var l := if i < d then i else i - 1;
    assert i != d;
    WithoutAt(s, start, l);
    DistinctSplice(s, d, []);
    IndexOfDistinct(Without(s, start), l);
  }

  lemma IndexOfDistinct(s: seq<Part>, l: nat)
    requires l < |s| && DistinctStarts(s)
    ensures IndexOfStart(s, s[l].start) == l
  {
  }

  /** Absorb by position: kept becomes m, then drop goes. */
  lemma AbsorbAt(disk: seq<Part>, drop: nat, kept: nat, m: Part)
    requires drop < |disk| && kept < |disk| && drop != kept && DistinctStarts(disk)
    ensures Absorb(disk, disk[drop], disk[kept], m) == Splice(disk[kept := m], drop, 1, [])
  {
    IndexOfDistinct(disk, drop);
    var r := Without(disk, disk[drop].start);
    var l := if kept < drop then kept else kept - 1;
    DistinctSplice(disk, drop, []);
    assert r[l] == disk[kept];
    IndexOfDistinct(r, l);
  }

  lemma MergedAt(base: seq<Part>, i: nat, keep: nat)
    requires i + 1 < |base| && (keep == i || keep == i + 1)
    ensures MergedBase(base, i, keep) == Splice(base[keep := MergedPart(base, i, keep)], i + i + 1 - keep, 1, [])
  {
  }

  /** Merge by position. */
  lemma MergeAt(t: Table, i: nat, keep: nat, d: nat, dp: nat)
    requires Core(t) && i + 1 < |t.base| && (keep == i || keep == i + 1)
    requires d < |t.disk| && dp < |t.disk| && d != dp
    requires t.disk[d] == t.base[keep] && t.disk[dp] == t.base[i + i + 1 - keep]
    ensures var m := MergedPart(t.base, i, keep);
      Merge(t, i, keep) == t.(disk := Splice(t.disk[d := m], dp, 1, []), base := Splice(t.base[keep := m], i + i + 1 - keep, 1, []))
  {
    hide Splice, Absorb, Tiles, Sorted;
    AbsorbAt(t.disk, dp, d, MergedPart(t.base, i, keep));
    MergedAt(t.base, i, keep);
  }

  lemma MergeKeepsCore(t: Table, i: nat, keep: nat)
    requires Core(t) && i + 1 < |t.base| && (keep == i || keep == i + 1)
    ensures Core(Merge(t, i, keep))
  {
    var r, m := Merge(t, i, keep), MergedPart(t.base, i, keep);
    TilesReplace(t.base, i, 2, [m], 1, t.mediaSize);
    TilesAreSorted(r.base, 1, t.mediaSize);
    MergeSameParts(t, i, keep);
  }

  lemma MergeSameParts(t: Table, i: nat, keep: nat)
    requires Core(t) && i + 1 < |t.base| && (keep == i || keep == i + 1)
    ensures SameParts(Merge(t, i, keep).disk, Merge(t, i, keep).base)
  {
    InDisk(t, i);
    InDisk(t, i + 1);
    var drop, kept, m := t.base[i + i + 1 - keep], t.base[keep], MergedPart(t.base, i, keep);
    AbsorbParts(t.disk, drop, kept, m);
    MergedBag(t.base, i, keep);
  }

  lemma MergedBag(base: seq<Part>, i: nat, keep: nat)
    requires i + 1 < |base| && (keep == i || keep == i + 1)
    ensures multiset(MergedBase(base, i, keep))
         == multiset(base) - multiset{base[i + i + 1 - keep]} - multiset{base[keep]} + multiset{MergedPart(base, i, keep)}
    ensures |MergedBase(base, i, keep)| == |base| - 1
  {
    var x, y, a, b := base[i], base[i + 1], base[..i], base[i + 2..];
    assert base == a + [x] + [y] + b;
    assert multiset(base) == multiset(a) + multiset(b) + multiset{x} + multiset{y};
    assert MergedBase(base, i, keep) == a + [MergedPart(base, i, keep)] + b;
  }

  predicate NextFree(base: seq<Part>, i: nat) {
    i + 1 < |base| && base[i + 1].kind.Free?
  }

  predicate PrevFree(base: seq<Part>, i: nat) {
    0 < i <= |base| && base[i - 1].kind.Free?
  }

  function NextBase(base: seq<Part>, i: nat): seq<Part>
    requires i < |base|
  {
    if NextFree(base, i) then MergedBase(base, i, i) else base
  }

  function PrevBase(base: seq<Part>, i: nat): seq<Part>
    requires i < |base|
  {
    if PrevFree(base, i) then MergedBase(base, i - 1, i) else base
  }

  /** combine_entry: the free entry base[i] absorbs a free entry after it, then one before it. */
  ghost function CombineNext(t: Table, i: nat): (t': Table)
    requires Core(t) && i < |t.base|
    ensures Core(t') && i < |t'.base|
    ensures t' == t.(disk := t'.disk, base := NextBase(t.base, i))
  {
    if NextFree(t.base, i) then
      MergeKeepsCore(t, i, i);
      Merge(t, i, i)
    else t
  }

  ghost function CombinePrev(t: Table, i: nat): (t': Table)
    requires Core(t) && i < |t.base|
    ensures Core(t')
    ensures t' == t.(disk := t'.disk, base := PrevBase(t.base, i))
  {
    if PrevFree(t.base, i) then
      MergeKeepsCore(t, i - 1, i);
      Merge(t, i - 1, i)
    else t
  }

  /** The entry base[i] becomes free space, whatever its type. */
  ghost function FreeUp(t: Table, i: nat): (t': Table)
    requires Core(t) && i < |t.base|
    ensures Core(t')
    ensures t' == t.(disk := t'.disk, base := PrevBase(NextBase(Splice(t.base, i, 1, [FreePart(t.base[i].start, t.base[i].blocks)]), i), i))
  {
    var p := FreePart(t.base[i].start, t.base[i].blocks);
    SetPartKeepsCore(t, i, p);
    CombinePrev(CombineNext(SetPart(t, i, p), i), i)
  }

  /** The entries [First, Last) of base order that freeing base[i] turns into one. */
  function First(base: seq<Part>, i: nat): nat {
    if PrevFree(base, i) then i - 1 else i
  }

  function Last(base: seq<Part>, i: nat): nat {
    if NextFree(base, i) then i + 2 else i + 1
  }

  lemma SpliceTwice(s: seq<Part>, i: nat, n: nat, p: Part, j: nat, m: nat, q: Part)
    requires i + n <= |s| && j <= i < j + m && j + m <= |s| - n + 1
    ensures Splice(Splice(s, i, n, [p]), j, m, [q]) == Splice(s, j, m + n - 1, [q])
  {
    var r := Splice(s, i, n, [p]);
    assert r[j + m..] == s[j + m + n - 1..];
    assert r[..j] == s[..j];
  }

  ghost predicate Contiguous(s: seq<Part>) {
    forall i, j :: 0 <= i && j == i + 1 && j < |s| ==> s[i].End() == s[j].start
  }

  lemma FreedNextBase(base: seq<Part>, i: nat)
    requires Contiguous(base) && i < |base|
    ensures NextBase(Splice(base, i, 1, [FreePart(base[i].start, base[i].blocks)]), i)
         == Splice(base, i, Last(base, i) - i, [FreedFrom(base, i, i)])
  {
    var p := FreePart(base[i].start, base[i].blocks);
    if NextFree(base, i) {
      SpliceTwice(base, i, 1, p, i, 2, FreedFrom(base, i, i));
    }
  }

  lemma FreedBase(base: seq<Part>, i: nat)
    requires Contiguous(base) && i < |base|
    ensures PrevBase(Splice(base, i, Last(base, i) - i, [FreedFrom(base, i, i)]), i)
         == Splice(base, First(base, i), Last(base, i) - First(base, i), [FreedFrom(base, First(base, i), i)])
  {
    if PrevFree(base, i) {
      SpliceTwice(base, i, Last(base, i) - i, FreedFrom(base, i, i), i - 1, 2, FreedFrom(base, i - 1, i));
    }
  }

  /** Free space over the entries from base[lo] to base[i], and a free one after it. */
  function FreedFrom(base: seq<Part>, lo: nat, i: nat): Part
    requires i < |base| && (lo == i || lo + 1 == i)
  {
    FreePart(base[lo].start,
             (if lo < i then base[lo].blocks else 0) + base[i].blocks + (if NextFree(base, i) then base[i + 1].blocks else 0))
  }

  /** In base order, freeing an entry replaces it and its free neighbours by one free entry. */
  lemma FreeUpBase(t: Table, i: nat)
    requires Core(t) && i < |t.base|
    ensures FreeUp(t, i) == t.(disk := FreeUp(t, i).disk,
      base := Splice(t.base, First(t.base, i), Last(t.base, i) - First(t.base, i), [FreedFrom(t.base, First(t.base, i), i)]))
  {
    FreedNextBase(t.base, i);
    FreedBase(t.base, i);
  }

  lemma FreeUpKeepsSettled(t: Table, i: nat)
    requires Settled(t) && i < |t.base|
    ensures Settled(FreeUp(t, i))
    ensures |FreeUp(t, i).base| == |t.base| + 1 + First(t.base, i) - Last(t.base, i)
  {
    hide Tiles, Sorted, SameParts, NoAdjacentFree, WellFormedParts, FreeUp;
    FreeUpBase(t, i);
    FreedFits(t.base, i);
  }

  lemma FreedFits(base: seq<Part>, i: nat)
    requires NoAdjacentFree(base) && WellFormedParts(base) && i < |base|
    ensures var lo, n := First(base, i), Last(base, i) - First(base, i);
      var r := Splice(base, lo, n, [FreedFrom(base, lo, i)]);
      NoAdjacentFree(r) && WellFormedParts(r) && |r| == |base| + 1 - n
  {
    var lo, n := First(base, i), Last(base, i) - First(base, i);
    PutOverRun(base, lo, n, FreedFrom(base, lo, i));
  }

  /** An entry over a run of entries whose neighbours are not free. */
  lemma PutOverRun(base: seq<Part>, lo: nat, n: nat, p: Part)
    requires NoAdjacentFree(base) && WellFormedParts(base) && WellFormedPart(p)
    requires n > 0 && lo + n <= |base|
    requires lo > 0 ==> !base[lo - 1].kind.Free?
    requires lo + n < |base| ==> !base[lo + n].kind.Free?
    ensures NoAdjacentFree(Splice(base, lo, n, [p])) && WellFormedParts(Splice(base, lo, n, [p]))
  {
    var r := Splice(base, lo, n, [p]);
    forall k | 0 <= k < |r| ensures WellFormedPart(r[k]) {
      SpliceAt(base, lo, n, p, k);
    }
    forall k, l | 0 <= k && l == k + 1 && l < |r| ensures !(r[k].kind.Free? && r[l].kind.Free?) {
      SpliceAt(base, lo, n, p, k);
      SpliceAt(base, lo, n, p, l);
    }
  }

  lemma SpliceAt(s: seq<Part>, lo: nat, n: nat, p: Part, k: nat)
    requires n > 0 && lo + n <= |s| && k < |s| - n + 1
    ensures Splice(s, lo, n, [p])[k] == if k < lo then s[k] else if k == lo then p else s[k - 1 + n]
  {
  }

  /** delete_partition_from_map on partition number n; the map's own entry is refused. */
  ghost function Delete(t: Table, n: int): Table
    requires Core(t)
  {
    if !(1 <= n <= |t.disk|) || t.disk[n - 1].kind.Map? then t
    else
      InBase(t, n - 1);
      FreeUp(t, IndexOfStart(t.base, t.disk[n - 1].start))
  }

  /* ---------- move_entry_in_map ---------- */

  /** Partition from moves just before the partition that has number index. */
  function Move(t: Table, from: int, index: int): Table
  {
    if !(1 <= from <= |t.disk|) then t
    else
      var rest := t.disk[..from - 1] + t.disk[from - 1 + 1..];
      var k := MovedTo(|t.disk|, from, index) - 1;
      t.(disk := rest[..k] + [t.disk[from - 1]] + rest[k..])
  }

  /** The number the moved partition ends up with. */
  function MovedTo(n: nat, from: int, index: int): int
    requires 1 <= from <= n
  {
    if index <= 1 then 1
    else if index <= from then index
    else if index <= n then index - 1
    else n
  }

  /* ---------- resize_map ---------- */

  /** The first entry in base order that has the map type. */
  function FindMap(base: seq<Part>): (i: nat)
    ensures i <= |base|
    ensures i < |base| ==> base[i].kind.Map?
    ensures forall j :: 0 <= j < i ==> !base[j].kind.Map?
  {
    if base == [] || base[0].kind.Map? then 0 else 1 + FindMap(base[1..])
  }

  predicate ResizeAllowed(t: Table, i: nat, size: int): (allowed: bool)
    requires i < |t.base|
    ensures allowed ==> size > 0
  {
    if size == t.base[i].blocks then false
    else if size < t.base[i].blocks then
      size >= |t.base| + (if NextFree(t.base, i) then 0 else 1)
    else
      NextFree(t.base, i)
      && t.base[i].End() == t.base[i + 1].start
      && size <= t.base[i].blocks + t.base[i + 1].blocks
  }

  /**
   * A negative size is refused, and so is the number that it stands for where it is compared as an unsigned
   * one of 32 bits, on media of up to 2^31 blocks.
   */
  lemma NegativeRefused(t: Table, i: nat, size: int)
    requires Core(t) && i < |t.base| && -0x8000_0000 <= size < 0
    ensures !ResizeAllowed(t, i, size)
    ensures t.mediaSize <= 0x8000_0000 ==> !ResizeAllowed(t, i, size + 0x1_0000_0000)
  {
    TilesAreSorted(t.base, 1, t.mediaSize);
  }

  ghost function Resize(t: Table, size: int): Table
    requires Core(t)
  {
    var i := FindMap(t.base);
    if i == |t.base| || !ResizeAllowed(t, i, size) then t
    else
      var f := FreeUp(t, i);
      AddOrSame(f, MAP_NAME, Map, 1, size).(maxInMap := size)
  }

  /* ---------- what every command keeps ---------- */

  /** The entry of the map is the first one, or the medium has no room for one. */
  lemma MapIsFirst(t: Table)
    requires Inv(t)
    ensures FindMap(t.base) == 0 || FindMap(t.base) == |t.base| == 1
    ensures |t.base| < t.mediaSize
  {
    TilesAreSorted(t.base, 1, t.mediaSize);
    assert 1 + |t.base| - 1 <= t.base[|t.base| - 1].start;
  }

  lemma AddKeepsInv(t: Table, name: string, kind: Kind, start: nat, blocks: nat)
    requires Inv(t) && blocks > 0 && !kind.Free? && !kind.Map?
    requires Add(t, name, kind, start, blocks).Some?
    ensures Inv(Add(t, name, kind, start, blocks).value)
  {
    AddKeepsSettled(t, name, kind, start, blocks);
  }

  lemma FreeUpKeepsInv(t: Table, i: nat)
    requires Inv(t) && i < |t.base| && !t.base[i].kind.Map?
    ensures Inv(FreeUp(t, i)) && FreeUp(t, i).mediaSize == t.mediaSize
  {
    MapIsFirst(t);
    FreeUpKeepsSettled(t, i);
    FreeUpBase(t, i);
    if t.base[0].kind.Map? {
      assert First(t.base, i) > 0;
      assert FreeUp(t, i).base[0] == t.base[0];
    }
  }

  lemma DeleteKeepsInv(t: Table, n: int)
    requires Inv(t)
    ensures Inv(Delete(t, n)) && Delete(t, n).mediaSize == t.mediaSize
  {
    if 1 <= n <= |t.disk| && !t.disk[n - 1].kind.Map? {
      InBase(t, n - 1);
      FreeUpKeepsInv(t, IndexOfStart(t.base, t.disk[n - 1].start));
    }
  }

  lemma InsertedParts(s: seq<Part>, k: nat, p: Part)
    requires DistinctStarts(s) && k <= |s| && forall i :: 0 <= i < |s| ==> s[i].start != p.start
    ensures DistinctStarts(s[..k] + [p] + s[k..])
  {
    var r := s[..k] + [p] + s[k..];
    forall i | 0 <= i < |r| ensures r[i] == if i < k then s[i] else if i == k then p else s[i - 1] {}
  }

  lemma MovedBag(s: seq<Part>, f: nat, k: nat)
    requires f < |s| && k < |s|
    ensures var rest := s[..f] + s[f + 1..];
      multiset(rest[..k] + [s[f]] + rest[k..]) == multiset(s)
  {
    var rest := s[..f] + s[f + 1..];
    InsertedBag(rest, k, s[f]);
    InsertedBag(rest, f, s[f]);
    assert rest[..f] + [s[f]] + rest[f..] == s;
  }

  lemma InsertedBag(s: seq<Part>, k: nat, p: Part)
    requires k <= |s|
    ensures multiset(s[..k] + [p] + s[k..]) == multiset(s) + multiset{p}
  {
    assert s == s[..k] + s[k..];
  }

  lemma MovedDistinct(s: seq<Part>, f: nat, k: nat)
    requires DistinctStarts(s) && f < |s| && k < |s|
    ensures var rest := s[..f] + s[f + 1..];
      DistinctStarts(rest[..k] + [s[f]] + rest[k..])
  {
    var rest := s[..f] + s[f + 1..];
    forall l | 0 <= l < |rest| ensures rest[l] == s[if l < f then l else l + 1] {}
    InsertedParts(rest, k, s[f]);
  }

  lemma MoveSameParts(t: Table, from: int, index: int)
    requires Core(t) && 1 <= from <= |t.disk|
    ensures SameParts(Move(t, from, index).disk, t.base)
  {
    hide DistinctStarts, Tiles;
    var k := MovedTo(|t.disk|, from, index) - 1;
    MovedBag(t.disk, from - 1, k);
    MovedDistinct(t.disk, from - 1, k);
  }

  lemma MoveKeepsInv(t: Table, from: int, index: int)
    requires Inv(t)
    ensures Inv(Move(t, from, index)) && Move(t, from, index).mediaSize == t.mediaSize
  {
    if 1 <= from <= |t.disk| { MoveSameParts(t, from, index); }
  }

  /** With the map's entry freed there is room at block 1 for an entry of the new size. */
  lemma RoomForMap(t: Table, size: int)
    requires Inv(t) && FindMap(t.base) == 0 && ResizeAllowed(t, 0, size)
    ensures var f := FreeUp(t, 0);
      && Settled(f) && f.mediaSize == t.mediaSize && size > 0
      && f.base[0].kind.Free? && f.base[0].start == 1 && size <= f.base[0].blocks
      && |f.base| + (if size == f.base[0].blocks then 0 else 1) <= Limit(f)
      && |f.base| + (if size == f.base[0].blocks then 0 else 1) <= size
  {
    MapIsFirst(t);
    FreeUpKeepsSettled(t, 0);
    FreeUpBase(t, 0);
    var f := FreeUp(t, 0);
    assert f.base[0] == FreedFrom(t.base, 0, 0);
  }

  /** Resizing always succeeds once its checks pass: the map entry is first and has the new size. */
  lemma ResizeResult(t: Table, size: int)
    requires Inv(t) && FindMap(t.base) == 0 && ResizeAllowed(t, 0, size)
    ensures Inv(Resize(t, size)) && Resize(t, size).mediaSize == t.mediaSize
    ensures Resize(t, size).base[0] == MapPart(size) && Resize(t, size).maxInMap == size
  {
    RoomForMap(t, size);
    AddMap(FreeUp(t, 0), size);
  }

  lemma AddMap(f: Table, size: nat)
    requires Settled(f) && size > 0 && f.base[0].kind.Free? && size <= f.base[0].blocks
    requires |f.base| + (if size == f.base[0].blocks then 0 else 1) <= Limit(f)
    requires |f.base| + (if size == f.base[0].blocks then 0 else 1) <= size
    ensures var r := AddOrSame(f, MAP_NAME, Map, 1, size).(maxInMap := size);
      Inv(r) && r.mediaSize == f.mediaSize && r.base[0] == MapPart(size)
  {
    assert FindContaining(f.base, 1, size) == 0;
    AddKeepsSettled(f, MAP_NAME, Map, 1, size);
  }

  /** The two edits that a resize is made of, and what makes each of them possible. */
  lemma ResizeSteps(t: Table, size: int)
    requires Inv(t)
    ensures var i := FindMap(t.base);
      if i == |t.base| || !ResizeAllowed(t, i, size) then Resize(t, size) == t
      else
        && 0 < size && 1 + size < 0x1_0000_0000 && Settled(FreeUp(t, i))
        && Resize(t, size) == AddOrSame(FreeUp(t, i), MAP_NAME, Map, 1, size).(maxInMap := size)
  {
    MapIsFirst(t);
    var i := FindMap(t.base);
    if i < |t.base| && ResizeAllowed(t, i, size) {
      RoomForMap(t, size);
      MapFits(t, size);
    }
  }

  lemma MapFits(t: Table, size: int)
    requires Inv(t) && FindMap(t.base) == 0 && ResizeAllowed(t, 0, size)
    ensures 1 + size < 0x1_0000_0000
  {
    TilesAreSorted(t.base, 1, t.mediaSize);
  }

  lemma ResizeKeepsInv(t: Table, size: int)
    requires Inv(t)
    ensures Inv(Resize(t, size)) && Resize(t, size).mediaSize == t.mediaSize
  {
    MapIsFirst(t);
    if FindMap(t.base) < |t.base| && ResizeAllowed(t, FindMap(t.base), size) { ResizeResult(t, size); }
  }

  /* ---------- runs ---------- */

  datatype Command =
    | Create(name: string, typeName: string, start: nat, blocks: nat)
    | Remove(number: int)
    | Reorder(from: int, index: int)
    | SetMapSize(size: int)

  /** What the caller of create must see to: a size, and no 32-bit overflow of its end.
      The free and map types are refused before the map is touched. */
  predicate Legal(c: Command) {
    c.Create? ==> c.blocks > 0 && c.start + c.blocks < 0x1_0000_0000
  }

  ghost function Apply(t: Table, c: Command): Table
    requires Core(t)
  {
    match c
    case Create(name, typeName, start, blocks) => AddOrSame(t, name, Other(typeName), start, blocks)
    case Remove(number) => Delete(t, number)
    case Reorder(from, index) => Move(t, from, index)
    case SetMapSize(size) => Resize(t, size)
  }

  /** create_partition_map: one free entry over the whole medium, and no map size yet. */
  function Created(mediaSize: nat): Table
    requires mediaSize >= 2
  {
    var free := FreePart(1, mediaSize - 1);
    Table([free], [free], -1, mediaSize)
  }

  lemma CreatedIsSettled(mediaSize: nat)
    requires 2 <= mediaSize < 0x1_0000_0000
    ensures Settled(Created(mediaSize))
  {
  }

  /** init_partition_map: then the map's own entry, 2 blocks on small media and 63 otherwise. */
  ghost function Initialised(mediaSize: nat): Table
    requires 2 <= mediaSize < 0x1_0000_0000
  {
    CreatedIsSettled(mediaSize);
    AddOrSame(Created(mediaSize), MAP_NAME, Map, 1, if mediaSize <= 128 then 2 else 63)
  }

  lemma InitialisedInv(mediaSize: nat)
    requires 2 <= mediaSize < 0x1_0000_0000
    ensures Inv(Initialised(mediaSize)) && Initialised(mediaSize).mediaSize == mediaSize
  {
    hide Tiles, SameParts, NoAdjacentFree, WellFormedParts;
    CreatedIsSettled(mediaSize);
    var t, k := Created(mediaSize), if mediaSize <= 128 then 2 else 63;
    if Add(t, MAP_NAME, Map, 1, k).Some? {
      AddKeepsSettled(t, MAP_NAME, Map, 1, k);
      RoomForFirst(t, k);
      InitialisedMapBound(t, k);
    }
  }

  lemma RoomForFirst(t: Table, k: nat)
    requires Core(t) && t.base == [FreePart(1, t.mediaSize - 1)] && Add(t, MAP_NAME, Map, 1, k).Some?
    ensures FindContaining(t.base, 1, k) == 0 && k < t.mediaSize
  {
  }

  lemma InitialisedMapBound(t: Table, k: nat)
    requires Core(t) && t.base == [FreePart(1, t.mediaSize - 1)] && t.maxInMap == -1
    requires k == (if t.mediaSize <= 128 then 2 else 63) && k < t.mediaSize
    requires FindContaining(t.base, 1, k) == 0
    ensures Add(t, MAP_NAME, Map, 1, k).Some? && MapBound(Add(t, MAP_NAME, Map, 1, k).value)
  {
  }

  lemma ApplyKeepsInv(t: Table, c: Command)
    requires Inv(t) && Legal(c)
    ensures Inv(Apply(t, c)) && Apply(t, c).mediaSize == t.mediaSize
  {
    match c
    case Create(name, typeName, start, blocks) => CreateKeepsInv(t, name, typeName, start, blocks);
    case Remove(number) => DeleteKeepsInv(t, number);
    case Reorder(from, index) => MoveKeepsInv(t, from, index);
    case SetMapSize(size) => ResizeKeepsInv(t, size);
  }

  lemma CreateKeepsInv(t: Table, name: string, typeName: string, start: nat, blocks: nat)
    requires Inv(t) && blocks > 0
    ensures Inv(AddOrSame(t, name, Other(typeName), start, blocks))
    ensures AddOrSame(t, name, Other(typeName), start, blocks).mediaSize == t.mediaSize
  {
    if Add(t, name, Other(typeName), start, blocks).Some? { AddKeepsInv(t, name, Other(typeName), start, blocks); }
  }

  ghost predicate AllLegal(cs: seq<Command>) {
    forall i :: 0 <= i < |cs| ==> Legal(cs[i])
  }

  /** The table after a run of commands from a freshly initialised map. Its contract is the
      editor's safety property: whatever is typed, the invariant holds. */
  ghost function Run(mediaSize: nat, cs: seq<Command>): (t: Table)
    requires 2 <= mediaSize < 0x1_0000_0000 && AllLegal(cs)
    ensures Inv(t) && t.mediaSize == mediaSize
    decreases |cs|
  {
    if cs == [] then
      InitialisedInv(mediaSize);
      Initialised(mediaSize)
    else
      var t0 := Run(mediaSize, cs[..|cs| - 1]);
      ApplyKeepsInv(t0, cs[|cs| - 1]);
      Apply(t0, cs[|cs| - 1])
  }
}
