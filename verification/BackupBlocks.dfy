/** The block lists of all volumes, and the portable array that is made of them. */
module BackupBlocks {
  import opened Wrappers
  import opened BlockMarks

  datatype Block = Block(first: nat, sectors: int)

  /** A block to add, as sectors from a first one on. */
  datatype Range = Range(sector: nat, count: nat)

  /** Where each volume starts, and last the mark that no sector reaches. */
  ghost predicate Starts(partstart: seq<nat>) {
    && |partstart| >= 2 && partstart[0] == 0
    && forall i, j :: 0 <= i < j < |partstart| ==> partstart[i] < partstart[j]
  }

  /** The volume of a sector. */
  function VolumeOf(partstart: seq<nat>, sector: nat): (v: nat)
    requires |partstart| >= 2 && sector < partstart[|partstart| - 1]
    ensures v + 1 < |partstart| && sector < partstart[v + 1] && (v > 0 ==> partstart[v] <= sector)
    decreases |partstart|
  {
    if partstart[1] <= sector then 1 + VolumeOf(partstart[1..], sector) else 0
  }

  /** The block lies in one volume. */
  ghost predicate InVolume(partstart: seq<nat>, r: Range)
    requires Starts(partstart)
  {
    && r.count > 0 && r.sector < partstart[|partstart| - 1]
    && r.sector + r.count <= partstart[VolumeOf(partstart, r.sector) + 1]
  }

  /** Every volume's markers are in order and in the volume. */
  ghost predicate Kept(vols: seq<seq<Mark>>, partstart: seq<nat>) {
    && Starts(partstart) && |vols| + 1 == |partstart|
    && forall v {:trigger vols[v]} :: 0 <= v < |vols| ==> Marked(vols[v]) && Bounds(vols[v], partstart[v], partstart[v + 1])
  }

  /** The blocks lie between lo and hi. */
  ghost predicate Bounds(m: seq<Mark>, lo: nat, hi: nat) {
    forall x :: Covers(m, x) ==> lo <= x < hi
  }

  ghost predicate Taken(vols: seq<seq<Mark>>, x: int) {
    exists v :: 0 <= v < |vols| && Covers(vols[v], x)
  }

  function Sum(vols: seq<seq<Mark>>): int {
    if vols == [] then 0 else Total(vols[0]) + Sum(vols[1..])
  }

  /** A block goes to the list of its volume. */
  function AddTo(vols: seq<seq<Mark>>, partstart: seq<nat>, r: Range): Option<seq<seq<Mark>>>
    requires |partstart| >= 2 && |vols| + 1 == |partstart| && r.sector < partstart[|partstart| - 1]
  {
    var v := VolumeOf(partstart, r.sector);
    match Added(vols[v], r.sector, r.count)
    case None => None
    case Some(m) => Some(vols[v := m])
  }

  lemma {:induction false} SumUpdate(vols: seq<seq<Mark>>, v: nat, m: seq<Mark>)
    requires v < |vols|
    ensures Sum(vols[v := m]) == Sum(vols) - Total(vols[v]) + Total(m)
  {
    if v == 0 {
      assert vols[0 := m][1..] == vols[1..];
    } else {
      assert vols[v := m][1..] == vols[1..][v - 1 := m];
      SumUpdate(vols[1..], v - 1, m);
    }
  }

  lemma ExtendsBounds(m: seq<Mark>, n: seq<Mark>, lo: nat, hi: nat, r: Range)
    requires Bounds(m, lo, hi) && Extends(m, n, r.sector, r.count) && lo <= r.sector && r.sector + r.count <= hi
    ensures Bounds(n, lo, hi)
  {
    hide Covers;
  }

  lemma StartOfVolume(partstart: seq<nat>, sector: nat)
    requires Starts(partstart) && sector < partstart[|partstart| - 1]
    ensures partstart[VolumeOf(partstart, sector)] <= sector
  {
  }

  /**
   * Adding a block of sectors not taken yet, inside one volume, succeeds; it keeps every volume's
   * markers in order, takes exactly these sectors more, and adds as many.
   */
  lemma AddToKeeps(vols: seq<seq<Mark>>, partstart: seq<nat>, r: Range)
    requires Kept(vols, partstart) && InVolume(partstart, r)
    requires forall x :: r.sector <= x < r.sector + r.count ==> !Taken(vols, x)
    ensures AddTo(vols, partstart, r).Some?
    ensures var next := AddTo(vols, partstart, r).value;
            && Kept(next, partstart) && Sum(next) == Sum(vols) + r.count
            && forall x :: Taken(next, x) <==> Taken(vols, x) || r.sector <= x < r.sector + r.count
  {
    hide Covers, Added, Marked, Bounds, Total, Extends, VolumeOf;
    var v := VolumeOf(partstart, r.sector);
    StartOfVolume(partstart, r.sector);
    StillFree(vols, v, r);
    assert Marked(vols[v]) && Bounds(vols[v], partstart[v], partstart[v + 1]);
    AddedKeeps(vols[v], r.sector, r.count);
    AddedTotal(vols[v], r.sector, r.count);
    var m := Added(vols[v], r.sector, r.count).value;
    ExtendsBounds(vols[v], m, partstart[v], partstart[v + 1], r);
    SumUpdate(vols, v, m);
    TakenUpdate(vols, v, m, r);
  }

  lemma StillFree(vols: seq<seq<Mark>>, v: nat, r: Range)
    requires v < |vols| && forall x :: r.sector <= x < r.sector + r.count ==> !Taken(vols, x)
    ensures Untaken(vols[v], r.sector, r.count)
  {
    hide Covers;
    forall x | r.sector <= x < r.sector + r.count ensures !Covers(vols[v], x) {
      assert !Taken(vols, x);
    }
  }

  lemma TakenUpdate(vols: seq<seq<Mark>>, v: nat, m: seq<Mark>, r: Range)
    requires v < |vols| && Extends(vols[v], m, r.sector, r.count)
    ensures forall x :: Taken(vols[v := m], x) <==> Taken(vols, x) || r.sector <= x < r.sector + r.count
  {
    hide Covers;
    var next := vols[v := m];
    forall x ensures Taken(next, x) <==> Taken(vols, x) || r.sector <= x < r.sector + r.count {
      if Taken(next, x) {
        var i :| 0 <= i < |next| && Covers(next[i], x);
        if i != v { assert Covers(vols[i], x); }
      }
      if Taken(vols, x) {
        var i :| 0 <= i < |vols| && Covers(vols[i], x);
        assert Covers(next[i], x);
      }
      if r.sector <= x < r.sector + r.count { assert Covers(next[v], x); }
    }
  }

  /* ---------- any sequence of blocks ---------- */

  /** No sector is in two of the blocks. */
  ghost predicate Disjoint(rs: seq<Range>) {
    forall i, j :: 0 <= i < j < |rs| ==> Apart(rs[i], rs[j])
  }

  predicate Apart(a: Range, b: Range) {
    a.sector + a.count <= b.sector || b.sector + b.count <= a.sector
  }

  ghost predicate InSome(rs: seq<Range>, x: int) {
    exists i :: 0 <= i < |rs| && rs[i].sector <= x < rs[i].sector + rs[i].count
  }

  function Counts(rs: seq<Range>): int {
    if rs == [] then 0 else Counts(rs[..|rs| - 1]) + rs[|rs| - 1].count
  }

  /** The lists after all the blocks, one after the other, starting from empty volumes. */
  function AddAll(partstart: seq<nat>, rs: seq<Range>): Option<seq<seq<Mark>>>
    requires |partstart| >= 2 && forall r :: r in rs ==> r.sector < partstart[|partstart| - 1]
    ensures AddAll(partstart, rs).Some? ==> |AddAll(partstart, rs).value| + 1 == |partstart|
  {
    if rs == [] then Some(seq(|partstart| - 1, _ => [Stop(0)]))
    else match AddAll(partstart, rs[..|rs| - 1])
      case None => None
      case Some(vols) => AddTo(vols, partstart, rs[|rs| - 1])
  }

  lemma {:induction false} EmptySum(n: nat)
    ensures Sum(seq(n, _ => [Stop(0)])) == 0
  {
    if n == 0 {
    } else {
      assert seq(n, _ => [Stop(0)])[1..] == seq(n - 1, _ => [Stop(0)]);
      EmptySum(n - 1);
    }
  }

  /**
   * Whatever the order of the blocks: when they are disjoint and each lies in one volume, all of
   * them are added, the lists take exactly their sectors, and count as many.
   */
  lemma {:induction false} AddAllKeeps(partstart: seq<nat>, rs: seq<Range>)
    requires Starts(partstart) && Disjoint(rs) && forall r :: r in rs ==> InVolume(partstart, r)
    requires forall r :: r in rs ==> r.sector < partstart[|partstart| - 1]
    ensures AddAll(partstart, rs).Some?
    ensures var vols := AddAll(partstart, rs).value;
            && Kept(vols, partstart) && Sum(vols) == Counts(rs)
            && forall x :: Taken(vols, x) <==> InSome(rs, x)
  {
    hide Covers, Marked, AddTo, Apart, VolumeOf;
    if rs == [] {
      EmptyKept(partstart);
      EmptySum(|partstart| - 1);
    } else {
      var n := |rs| - 1;
      var r := rs[n];
      AddAllKeeps(partstart, rs[..n]);
      var vols := AddAll(partstart, rs[..n]).value;
      hide Kept, Taken, Sum, Counts;
      OthersFree(rs, vols);
      AddToKeeps(vols, partstart, r);
      SomeMore(rs);
      CountsMore(rs);
    }
  }

  lemma CountsMore(rs: seq<Range>)
    requires rs != []
    ensures Counts(rs) == Counts(rs[..|rs| - 1]) + rs[|rs| - 1].count
  {
  }

  lemma SomeMore(rs: seq<Range>)
    requires rs != []
    ensures var r := rs[|rs| - 1];
            forall x :: InSome(rs, x) <==> InSome(rs[..|rs| - 1], x) || r.sector <= x < r.sector + r.count
  {
    var n := |rs| - 1;
    forall x ensures InSome(rs, x) <==> InSome(rs[..n], x) || rs[n].sector <= x < rs[n].sector + rs[n].count {
      if InSome(rs[..n], x) {
        var i :| 0 <= i < n && rs[..n][i].sector <= x < rs[..n][i].sector + rs[..n][i].count;
        assert rs[i] == rs[..n][i];
      }
      if InSome(rs, x) {
        var i :| 0 <= i < |rs| && rs[i].sector <= x < rs[i].sector + rs[i].count;
        if i < n { assert rs[..n][i] == rs[i]; }
      }
    }
  }

  lemma OthersFree(rs: seq<Range>, vols: seq<seq<Mark>>)
    requires rs != [] && Disjoint(rs) && forall x :: Taken(vols, x) <==> InSome(rs[..|rs| - 1], x)
    ensures var r := rs[|rs| - 1]; forall x :: r.sector <= x < r.sector + r.count ==> !Taken(vols, x)
  {
    hide Taken;
    var n := |rs| - 1;
    forall x | rs[n].sector <= x < rs[n].sector + rs[n].count ensures !Taken(vols, x) {
      forall i | 0 <= i < n ensures !(rs[..n][i].sector <= x < rs[..n][i].sector + rs[..n][i].count) {
        assert Apart(rs[i], rs[n]);
      }
    }
  }

  lemma NothingCovered(x: int)
    ensures !Covers([Stop(0)], x) && Marked([Stop(0)])
  {
  }

  lemma EmptyKept(partstart: seq<nat>)
    requires Starts(partstart)
    ensures var vols := seq(|partstart| - 1, _ => [Stop(0)]);
            Kept(vols, partstart) && forall x :: !Taken(vols, x)
  {
    hide Covers, Marked;
    var vols := seq(|partstart| - 1, _ => [Stop(0)]);
    NothingCovered(0);
    forall x ensures !Covers([Stop(0)], x) { NothingCovered(x); }
    forall v {:trigger vols[v]} | 0 <= v < |vols|
      ensures Marked(vols[v]) && Bounds(vols[v], partstart[v], partstart[v + 1])
    {
      assert vols[v] == [Stop(0)];
    }
    forall x ensures !Taken(vols, x) {
      forall v | 0 <= v < |vols| ensures !Covers(vols[v], x) { assert vols[v] == [Stop(0)]; }
    }
  }

  /* ---------- the portable array ---------- */

  /** Starts and stops take turns and no block is empty, wherever the list begins. */
  ghost predicate Alternates(m: seq<Mark>) {
    && (|m| > 0 ==> !m[|m| - 1].backup)
    && forall k, l :: 0 <= k && l == k + 1 && l < |m| ==>
         m[k].backup != m[l].backup && m[k].sector <= m[l].sector && (m[k].backup ==> m[k].sector < m[l].sector)
  }

  /** A block for each start, up to the marker after it. */
  function BlocksOf(m: seq<Mark>): seq<Block> {
    if m == [] then []
    else if m[0].backup && |m| > 1 then [Block(m[0].sector, m[1].sector - m[0].sector)] + BlocksOf(m[1..])
    else BlocksOf(m[1..])
  }

  /** Blocks in order from lo to hi, none of them empty. */
  ghost predicate Ordered(bs: seq<Block>, lo: int, hi: int) {
    if bs == [] then lo <= hi
    else lo <= bs[0].first && bs[0].sectors > 0 && Ordered(bs[1..], bs[0].first + bs[0].sectors, hi)
  }

  predicate InBlock(bs: seq<Block>, i: int, x: int) {
    0 <= i < |bs| && bs[i].first <= x < bs[i].first + bs[i].sectors
  }

  ghost predicate InArray(bs: seq<Block>, x: int) {
    exists i :: InBlock(bs, i, x)
  }

  function Sectors(bs: seq<Block>): int {
    if bs == [] then 0 else bs[0].sectors + Sectors(bs[1..])
  }

  lemma BlockFront(b: Block, bs: seq<Block>, x: int)
    ensures InArray([b] + bs, x) <==> b.first <= x < b.first + b.sectors || InArray(bs, x)
  {
    if InArray([b] + bs, x) {
      var i :| InBlock([b] + bs, i, x);
      assert i == 0 || InBlock(bs, i - 1, x);
    }
    if InArray(bs, x) {
      var i :| InBlock(bs, i, x);
      assert InBlock([b] + bs, i + 1, x);
    }
    if b.first <= x < b.first + b.sectors { assert InBlock([b] + bs, 0, x); }
  }

  /** The array has a sector exactly when the markers cover it. */
  lemma {:induction false} BlocksCover(m: seq<Mark>, x: int)
    ensures InArray(BlocksOf(m), x) <==> Covers(m, x)
  {
    hide InArray, Covers;
    EmptyArray(x);
    if m != [] {
      CoversFront(m, x);
      BlocksCover(m[1..], x);
      if m[0].backup && |m| > 1 { BlockFront(Block(m[0].sector, m[1].sector - m[0].sector), BlocksOf(m[1..]), x); }
    }
  }

  lemma EmptyArray(x: int)
    ensures !InArray([], x) && !Covers([], x)
  {
  }

  lemma {:induction false} BlocksTotal(m: seq<Mark>)
    ensures Sectors(BlocksOf(m)) == Total(m)
  {
    if |m| >= 2 {
      BlocksTotal(m[1..]);
    } else if |m| == 1 {
      assert BlocksOf(m[1..]) == [];
    }
  }

  lemma {:induction false} SortedFrom(m: seq<Mark>, k: nat)
    requires Alternates(m) && k < |m|
    ensures m[0].sector <= m[k].sector
  {
    if k == 0 {
    } else {
      SortedFrom(m, k - 1);
    }
  }

  lemma RestBounds(m: seq<Mark>, lo: int, hi: nat)
    requires Alternates(m) && |m| > 1 && forall x :: Covers(m, x) ==> lo <= x < hi
    ensures Alternates(m[1..])
    ensures forall x :: Covers(m[1..], x) ==> m[1].sector <= x < hi && lo <= x
  {
    forall x | Covers(m[1..], x) ensures m[1].sector <= x < hi && lo <= x {
      CoversFront(m, x);
      var k :| Inside(m[1..], k, x);
      SortedFrom(m[1..], k);
    }
  }

  /** The blocks of markers whose sectors lie in a range are in order there. */
  lemma {:induction false} BlocksOrdered(m: seq<Mark>, lo: int, hi: nat)
    requires Alternates(m) && lo <= hi && forall x :: Covers(m, x) ==> lo <= x < hi
    ensures Ordered(BlocksOf(m), lo, hi)
  {
    hide Covers;
    if |m| > 1 {
      RestBounds(m, lo, hi);
      if m[0].backup {
        IsCovered(m, 0, m[0].sector);
        IsCovered(m, 0, m[1].sector - 1);
        BlocksOrdered(m[1..], m[1].sector, hi);
      } else {
        BlocksOrdered(m[1..], lo, hi);
      }
    } else if |m| == 1 {
      assert BlocksOf(m[1..]) == [];
    }
  }

  lemma {:induction false} OrderedJoin(a: seq<Block>, b: seq<Block>, lo: int, mid: int, hi: int)
    requires Ordered(a, lo, mid) && Ordered(b, mid, hi)
    ensures Ordered(a + b, lo, hi)
  {
    if a == [] {
      assert a + b == b;
      if b != [] { assert lo <= b[0].first; }
    } else {
      assert (a + b)[1..] == a[1..] + b;
      OrderedJoin(a[1..], b, a[0].first + a[0].sectors, mid, hi);
    }
  }

  lemma {:induction false} BlocksJoin(m: seq<Mark>, n: seq<Mark>)
    requires |m| > 0 ==> !m[|m| - 1].backup
    ensures BlocksOf(m + n) == BlocksOf(m) + BlocksOf(n)
  {
    if m == [] {
      assert m + n == n;
    } else {
      assert (m + n)[1..] == m[1..] + n;
      BlocksJoin(m[1..], n);
    }
  }

  function Flatten(vols: seq<seq<Mark>>): seq<Mark> {
    if vols == [] then [] else vols[0] + Flatten(vols[1..])
  }

  lemma {:induction false} SectorsJoin(a: seq<Block>, b: seq<Block>)
    ensures Sectors(a + b) == Sectors(a) + Sectors(b)
  {
    if a == [] {
      assert a + b == b;
    } else {
      assert (a + b)[1..] == a[1..] + b;
      SectorsJoin(a[1..], b);
    }
  }

  /** All blocks of volumes from v on, as the concatenated lists give them. */
  lemma {:induction false} VolumesBlocks(vols: seq<seq<Mark>>, partstart: seq<nat>, v: nat)
    requires Kept(vols, partstart) && v <= |vols|
    ensures var bs := BlocksOf(Flatten(vols[v..]));
            && Ordered(bs, partstart[v], partstart[|vols|])
            && Sectors(bs) == Sum(vols[v..])
            && (forall b :: b in bs ==> exists w :: v <= w < |vols| && Fits(b, partstart, w))
    decreases |vols| - v
  {
    hide Covers, Marked, Bounds;
    if v >= |vols| {
    } else {
      VolumesBlocks(vols, partstart, v + 1);
      VolumeBlocks(vols, partstart, v);
      assert vols[v..][1..] == vols[v + 1..];
      BlocksJoin(vols[v], Flatten(vols[v + 1..]));
      OrderedJoin(BlocksOf(vols[v]), BlocksOf(Flatten(vols[v + 1..])), partstart[v], partstart[v + 1], partstart[|vols|]);
      SectorsJoin(BlocksOf(vols[v]), BlocksOf(Flatten(vols[v + 1..])));
    }
  }

  /** The block lies in volume w. */
  predicate Fits(b: Block, partstart: seq<nat>, w: int) {
    0 <= w && w + 1 < |partstart| && partstart[w] <= b.first && b.first + b.sectors <= partstart[w + 1]
  }

  lemma {:induction false} OrderedInside(bs: seq<Block>, lo: int, hi: int, b: Block)
    requires Ordered(bs, lo, hi) && b in bs
    ensures lo <= b.first && b.first + b.sectors <= hi
  {
    if b == bs[0] {
      OrderedEnds(bs[1..], b.first + b.sectors, hi);
    } else {
      OrderedInside(bs[1..], bs[0].first + bs[0].sectors, hi, b);
    }
  }

  lemma {:induction false} OrderedEnds(bs: seq<Block>, lo: int, hi: int)
    requires Ordered(bs, lo, hi)
    ensures lo <= hi
  {
    if bs == [] {
    } else {
      OrderedEnds(bs[1..], bs[0].first + bs[0].sectors, hi);
    }
  }

  lemma VolumeBlocks(vols: seq<seq<Mark>>, partstart: seq<nat>, v: nat)
    requires Kept(vols, partstart) && v < |vols|
    ensures var bs := BlocksOf(vols[v]);
            && Ordered(bs, partstart[v], partstart[v + 1]) && Sectors(bs) == Total(vols[v])
            && (forall b :: b in bs ==> Fits(b, partstart, v)) && !vols[v][|vols[v]| - 1].backup
  {
    hide Covers;
    assert Marked(vols[v]) && Bounds(vols[v], partstart[v], partstart[v + 1]);
    BlocksOrdered(vols[v], partstart[v], partstart[v + 1]);
    BlocksTotal(vols[v]);
    forall b | b in BlocksOf(vols[v]) ensures Fits(b, partstart, v) {
      OrderedInside(BlocksOf(vols[v]), partstart[v], partstart[v + 1], b);
    }
  }

  lemma {:induction false} FlattenCovers(vols: seq<seq<Mark>>, x: int)
    requires forall v :: 0 <= v < |vols| ==> |vols[v]| > 0 && !vols[v][|vols[v]| - 1].backup
    ensures Covers(Flatten(vols), x) <==> Taken(vols, x)
  {
    if vols == [] {
    } else {
      FlattenCovers(vols[1..], x);
      CoversJoin(vols[0], Flatten(vols[1..]), x);
      TakenFront(vols, x);
    }
  }

  lemma TakenFront(vols: seq<seq<Mark>>, x: int)
    requires vols != []
    ensures Taken(vols, x) <==> Covers(vols[0], x) || Taken(vols[1..], x)
  {
    hide Covers;
    if Taken(vols, x) {
      var v :| 0 <= v < |vols| && Covers(vols[v], x);
      assert v == 0 || Covers(vols[1..][v - 1], x);
    }
    if Taken(vols[1..], x) {
      var v :| 0 <= v < |vols[1..]| && Covers(vols[1..][v], x);
      assert Covers(vols[v + 1], x);
    }
  }

  /**
   * The array that a backup is made from, for any disjoint blocks added in any order: in order and
   * without empty blocks, each block inside one volume, with exactly the sectors of the blocks added,
   * and as many of them.
   */
  lemma BackupArray(partstart: seq<nat>, rs: seq<Range>)
    requires Starts(partstart) && Disjoint(rs) && forall r :: r in rs ==> InVolume(partstart, r)
    requires forall r :: r in rs ==> r.sector < partstart[|partstart| - 1]
    ensures AddAll(partstart, rs).Some?
    ensures var bs := BlocksOf(Flatten(AddAll(partstart, rs).value));
            && Ordered(bs, 0, partstart[|partstart| - 1])
            && (forall b :: b in bs ==> exists v :: Fits(b, partstart, v))
            && (forall x :: InArray(bs, x) <==> InSome(rs, x))
            && Sectors(bs) == Counts(rs)
  {
    hide Covers, Marked, Bounds, InVolume, Disjoint, Ordered, Fits, BlocksOf, Flatten, AddAll, InSome, Taken, InArray;
    AddAllKeeps(partstart, rs);
    var vols := AddAll(partstart, rs).value;
    assert vols[0..] == vols;
    VolumesBlocks(vols, partstart, 0);
    forall v | 0 <= v < |vols| ensures |vols[v]| > 0 && !vols[v][|vols[v]| - 1].backup {
      LastIsStop(vols, partstart, v);
    }
    forall x ensures InArray(BlocksOf(Flatten(vols)), x) <==> InSome(rs, x) {
      BlocksCover(Flatten(vols), x);
      FlattenCovers(vols, x);
    }
  }

  lemma LastIsStop(vols: seq<seq<Mark>>, partstart: seq<nat>, v: nat)
    requires Kept(vols, partstart) && v < |vols|
    ensures |vols[v]| > 0 && !vols[v][|vols[v]| - 1].backup
  {
    assert Marked(vols[v]);
  }
}
