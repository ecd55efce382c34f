/**
 * The partition table of a drive as mfstools makes it: an array of entries in the order of their
 * numbers, which cover the drive but do not lie on it in that order, and adding a partition to it.
 */
module MacTable {
  import opened Wrappers

  /** refs counts the uses of an entry; one that is in use must keep its number. */
  datatype Entry = Entry(start: nat, sectors: nat, free: bool, refs: nat) {
    function End(): nat { start + sectors }
  }

  const ALLOCATED: nat := 63

  predicate Has(e: Entry, x: int) { e.start <= x < e.End() }

  ghost predicate InTable(es: seq<Entry>, x: int) {
    exists i :: 0 <= i < |es| && Has(es[i], x)
  }

  predicate Disjoint(a: Entry, b: Entry) { a.End() <= b.start || b.End() <= a.start }

  /** Free space lies directly before other free space. */
  predicate Touching(a: Entry, b: Entry) { a.free && b.free && a.End() == b.start }

  /** Entries are not empty, have no sector in common, and free ones do not touch. */
  ghost predicate Separate(es: seq<Entry>) {
    && (forall i :: 0 <= i < |es| ==> es[i].sectors > 0)
    && (forall i, j :: 0 <= i < |es| && 0 <= j < |es| && i != j ==> Disjoint(es[i], es[j]))
    && (forall i, j :: 0 <= i < |es| && 0 <= j < |es| ==> !Touching(es[i], es[j]))
  }

  /** Every sector from 1 on is in exactly one entry, and free entries do not touch. */
  ghost predicate Tiling(es: seq<Entry>, devsize: nat) {
    && Separate(es)
    && (forall x :: InTable(es, x) <==> 1 <= x < devsize)
  }

  function TotalFree(es: seq<Entry>): nat {
    if es == [] then 0 else TotalFree(es[..|es| - 1]) + if es[|es| - 1].free then es[|es| - 1].sectors else 0
  }

  /** One past the last entry in use, but never the first entry. */
  function FirstMovable(es: seq<Entry>): (s: nat)
    ensures 1 <= s && (|es| > 0 ==> s <= |es|)
  {
    if |es| <= 1 then 1 else if es[|es| - 1].refs > 1 then |es| else FirstMovable(es[..|es| - 1])
  }

  /** Free space that may be used and is large enough. */
  predicate Candidate(es: seq<Entry>, from: nat, i: int, size: nat) {
    from <= i < |es| && es[i].free && es[i].sectors >= size
  }

  /** The candidate that lies first on the drive. */
  ghost predicate Chosen(es: seq<Entry>, from: nat, i: int, size: nat) {
    Candidate(es, from, i, size) && forall j :: Candidate(es, from, j, size) ==> es[i].start <= es[j].start
  }

  /** The beginning of entry f taken off it, and the entry away when nothing is left. */
  function Carved(es: seq<Entry>, f: nat, size: nat): seq<Entry>
    requires f < |es| && size <= es[f].sectors
  {
    if es[f].sectors > size then es[f := es[f].(start := es[f].start + size, sectors := es[f].sectors - size)]
    else es[..f] + es[f + 1..]
  }

  /** Before the free entries that the first n end with, but never before the second place. */
  function TrailingFree(es: seq<Entry>, n: nat): (p: nat)
    requires n <= |es|
    ensures p <= n
  {
    if n > 1 && es[n - 1].free then TrailingFree(es, n - 1) else n
  }

  function Position(es: seq<Entry>, before: nat): (p: nat)
    ensures p <= |es|
  {
    if before > |es| || before == 0 then TrailingFree(es, |es|) else before
  }

  function Put(es: seq<Entry>, p: nat, e: Entry): seq<Entry>
    requires p <= |es|
  {
    es[..p] + [e] + es[p..]
  }

  /** The table with a new partition carved from entry f. */
  function Added(es: seq<Entry>, f: nat, size: nat, before: nat): seq<Entry>
    requires f < |es| && size <= es[f].sectors
  {
    var carved := Carved(es, f, size);
    Put(carved, Position(carved, before), Entry(es[f].start, size, false, 1))
  }

  /** Room in the table, and no entry in use would get another number. */
  predicate MayAdd(es: seq<Entry>, size: nat, before: nat) {
    size > 0 && |es| + 1 < ALLOCATED && !(0 < before < FirstMovable(es))
  }

  /* ---------- what an added partition keeps ---------- */

  lemma PutAt(es: seq<Entry>, p: nat, e: Entry, i: nat)
    requires p <= |es| && i <= |es|
    ensures |Put(es, p, e)| == |es| + 1
    ensures Put(es, p, e)[i] == if i < p then es[i] else if i == p then e else es[i - 1]
  {
  }

  lemma CarvedAt(es: seq<Entry>, f: nat, size: nat, i: nat)
    requires f < |es| && 0 < size <= es[f].sectors && i < |Carved(es, f, size)|
    ensures es[f].sectors > size ==> |Carved(es, f, size)| == |es|
    ensures es[f].sectors == size ==> |Carved(es, f, size)| == |es| - 1
    ensures Carved(es, f, size)[i] ==
            if es[f].sectors > size && i == f then Entry(es[f].start + size, es[f].sectors - size, es[f].free, es[f].refs)
            else if es[f].sectors > size || i < f then es[i] else es[i + 1]
  {
  }

  /** Entries of the carved table come from entries of the table, each from its own. */
  function Origin(es: seq<Entry>, f: nat, size: nat, i: nat): nat
    requires f < |es|
  {
    if es[f].sectors > size || i < f then i else i + 1
  }

  lemma CarvedFrom(es: seq<Entry>, f: nat, size: nat, i: nat)
    requires f < |es| && 0 < size <= es[f].sectors && i < |Carved(es, f, size)|
    ensures Origin(es, f, size, i) < |es|
    ensures var c, o := Carved(es, f, size)[i], es[Origin(es, f, size, i)];
            && (o.sectors > 0 ==> c.sectors > 0) && c.End() == o.End() && c.free == o.free
            && c.start == (if Origin(es, f, size, i) == f then es[f].start + size else o.start)
  {
    CarvedAt(es, f, size, i);
  }

  lemma OriginsApart(es: seq<Entry>, f: nat, size: nat, i: nat, j: nat)
    requires f < |es| && i != j
    ensures Origin(es, f, size, i) != Origin(es, f, size, j)
  {
  }

  /** Every entry but a used up one is still there. */
  lemma CarvedKeeps(es: seq<Entry>, f: nat, size: nat, i: nat) returns (j: nat)
    requires f < |es| && 0 < size <= es[f].sectors && i < |es| && (i != f || es[f].sectors > size)
    ensures j < |Carved(es, f, size)| && Origin(es, f, size, j) == i
  {
    j := if es[f].sectors > size || i < f then i else i - 1;
    CarvedAt(es, f, size, j);
  }

  lemma CarvedSeparate(es: seq<Entry>, f: nat, size: nat)
    requires Separate(es) && f < |es| && 0 < size <= es[f].sectors
    ensures Separate(Carved(es, f, size))
    ensures forall i :: 0 <= i < |Carved(es, f, size)| ==> Disjoint(Carved(es, f, size)[i], Entry(es[f].start, size, false, 1))
  {
    hide Carved, Origin;
    var c := Carved(es, f, size);
    forall i | 0 <= i < |c| ensures c[i].sectors > 0 && Disjoint(c[i], Entry(es[f].start, size, false, 1)) {
      CarvedFrom(es, f, size, i);
      assert Origin(es, f, size, i) == f || Disjoint(es[Origin(es, f, size, i)], es[f]);
    }
    forall i, j | 0 <= i < |c| && 0 <= j < |c| && i != j ensures Disjoint(c[i], c[j]) && !Touching(c[i], c[j]) {
      CarvedFrom(es, f, size, i);
      CarvedFrom(es, f, size, j);
      OriginsApart(es, f, size, i, j);
      assert Disjoint(es[Origin(es, f, size, i)], es[Origin(es, f, size, j)]);
      assert !Touching(es[Origin(es, f, size, i)], es[Origin(es, f, size, j)]);
    }
  }

  lemma CarvedCovers(es: seq<Entry>, f: nat, size: nat, x: int)
    requires Separate(es) && f < |es| && 0 < size <= es[f].sectors
    ensures InTable(es, x) <==> InTable(Carved(es, f, size), x) || es[f].start <= x < es[f].start + size
  {
    hide Carved, Origin;
    var c := Carved(es, f, size);
    if InTable(c, x) {
      var i :| 0 <= i < |c| && Has(c[i], x);
      CarvedFrom(es, f, size, i);
      assert Has(es[Origin(es, f, size, i)], x);
    }
    if es[f].start <= x < es[f].start + size { assert Has(es[f], x); }
    if InTable(es, x) && !(es[f].start <= x < es[f].start + size) {
      var i :| 0 <= i < |es| && Has(es[i], x);
      var j := CarvedKeeps(es, f, size, i);
      CarvedFrom(es, f, size, j);
      assert Has(c[j], x);
    }
  }

  /** A new entry apart from the others, which is not free space, goes in at any place. */
  lemma PutSeparate(es: seq<Entry>, p: nat, e: Entry)
    requires Separate(es) && p <= |es| && e.sectors > 0 && !e.free
    requires forall i :: 0 <= i < |es| ==> Disjoint(es[i], e)
    ensures Separate(Put(es, p, e))
  {
    hide Put;
    var r := Put(es, p, e);
    PutAt(es, p, e, 0);
    forall i | 0 <= i < |r| ensures r[i].sectors > 0 { PutAt(es, p, e, i); }
    forall i, j | 0 <= i < |r| && 0 <= j < |r| && i != j ensures Disjoint(r[i], r[j]) && !Touching(r[i], r[j]) {
      PutAt(es, p, e, i);
      PutAt(es, p, e, j);
    }
  }

  lemma PutCovers(es: seq<Entry>, p: nat, e: Entry, x: int)
    requires p <= |es|
    ensures InTable(Put(es, p, e), x) <==> InTable(es, x) || Has(e, x)
  {
    hide Put;
    var r := Put(es, p, e);
    PutAt(es, p, e, p);
    if Has(e, x) { assert Has(r[p], x); }
    if InTable(es, x) {
      var i :| 0 <= i < |es| && Has(es[i], x);
      PutAt(es, p, e, if i < p then i else i + 1);
      assert Has(r[if i < p then i else i + 1], x);
    }
    if InTable(r, x) {
      var i :| 0 <= i < |r| && Has(r[i], x);
      PutAt(es, p, e, i);
      assert i == p || Has(es[if i < p then i else i - 1], x);
    }
  }

  lemma {:induction false} TotalSplit(es: seq<Entry>, k: nat)
    requires k <= |es|
    ensures TotalFree(es) == TotalFree(es[..k]) + TotalFree(es[k..])
  {
    if k == |es| {
      assert es[..k] == es && es[k..] == [];
    } else {
      var n := |es| - 1;
      TotalSplit(es[..n], k);
      assert es[..n][..k] == es[..k] && es[..n][k..] == es[k..][..|es[k..]| - 1];
    }
  }

  function FreeIn(e: Entry): nat { if e.free then e.sectors else 0 }

  lemma TotalAt(es: seq<Entry>, k: nat)
    requires k < |es|
    ensures TotalFree(es) == TotalFree(es[..k]) + FreeIn(es[k]) + TotalFree(es[k + 1..])
  {
    TotalSplit(es, k);
    TotalSplit(es[k..], 1);
    assert es[k..][..1] == [es[k]] && es[k..][1..] == es[k + 1..];
    assert [es[k]][..0] == [];
  }

  lemma CarvedFree(es: seq<Entry>, f: nat, size: nat)
    requires f < |es| && es[f].free && 0 < size <= es[f].sectors
    ensures TotalFree(Carved(es, f, size)) == TotalFree(es) - size
  {
    hide TotalFree;
    TotalAt(es, f);
    var c := Carved(es, f, size);
    if es[f].sectors > size {
      TotalAt(c, f);
      assert c[..f] == es[..f] && c[f + 1..] == es[f + 1..];
    } else {
      TotalSplit(c, f);
      assert c[..f] == es[..f] && c[f..] == es[f + 1..];
    }
  }

  lemma PutFree(es: seq<Entry>, p: nat, e: Entry)
    requires p <= |es|
    ensures TotalFree(Put(es, p, e)) == TotalFree(es) + FreeIn(e)
  {
    hide TotalFree;
    TotalAt(Put(es, p, e), p);
    TotalSplit(es, p);
    assert Put(es, p, e)[..p] == es[..p] && Put(es, p, e)[p + 1..] == es[p..];
  }

  /** The new entry goes no further down than the entries in use. */
  ghost predicate StaysAbove(es: seq<Entry>, f: nat, size: nat, before: nat)
    requires f < |es| && size <= es[f].sectors
  {
    var s, c := FirstMovable(es), Carved(es, f, size);
    s == 1 || 0 < before <= |c| || exists i :: s - 1 <= i < |c| && !c[i].free
  }

  lemma {:induction false} TrailingFreeIs(es: seq<Entry>, n: nat, s: nat)
    requires 1 <= s <= n <= |es|
    ensures TrailingFree(es, n) >= s <==> s == 1 || exists i :: s - 1 <= i < n && !es[i].free
  {
    if n > 1 && es[n - 1].free && s < n { TrailingFreeIs(es, n - 1, s); }
  }

  lemma CarvedPrefix(es: seq<Entry>, f: nat, size: nat, s: nat)
    requires s <= f < |es| && 0 < size <= es[f].sectors
    ensures s <= |Carved(es, f, size)| && Carved(es, f, size)[..s] == es[..s]
  {
  }

  lemma PositionIs(es: seq<Entry>, f: nat, size: nat, before: nat)
    requires MayAdd(es, size, before) && Candidate(es, FirstMovable(es), f, size)
    ensures Position(Carved(es, f, size), before) >= FirstMovable(es) <==> StaysAbove(es, f, size, before)
  {
    var s, c := FirstMovable(es), Carved(es, f, size);
    CarvedPrefix(es, f, size, s);
    TrailingFreeIs(c, |c|, s);
  }

  /** The entries below the first movable one keep their numbers exactly when the new entry stays above them. */
  lemma PrefixKept(es: seq<Entry>, f: nat, size: nat, before: nat)
    requires Separate(es) && MayAdd(es, size, before) && Candidate(es, FirstMovable(es), f, size)
    ensures FirstMovable(es) <= |Added(es, f, size, before)|
    ensures Added(es, f, size, before)[..FirstMovable(es)] == es[..FirstMovable(es)] <==> StaysAbove(es, f, size, before)
  {
    hide Carved, FirstMovable, Position, StaysAbove;
    var s, c, e := FirstMovable(es), Carved(es, f, size), Entry(es[f].start, size, false, 1);
    var p := Position(c, before);
    CarvedPrefix(es, f, size, s);
    PositionIs(es, f, size, before);
    if p >= s {
      assert Put(c, p, e)[..s] == c[..s];
    } else {
      assert Put(c, p, e)[..s][p] == e;
      assert Disjoint(es[p], es[f]) && es[..s][p] == es[p];
    }
  }

  lemma {:induction false} LastInUse(es: seq<Entry>)
    requires FirstMovable(es) > 1
    ensures FirstMovable(es) <= |es| && es[FirstMovable(es) - 1].refs > 1
  {
    if |es| > 1 && es[|es| - 1].refs <= 1 { LastInUse(es[..|es| - 1]); }
  }

  /** So they keep them when the last entry in use is not itself free space. */
  lemma LastUsedKept(es: seq<Entry>, f: nat, size: nat, before: nat)
    requires Separate(es) && MayAdd(es, size, before) && Candidate(es, FirstMovable(es), f, size)
    requires FirstMovable(es) > 1 ==> !es[FirstMovable(es) - 1].free
    ensures FirstMovable(es) <= |Added(es, f, size, before)|
    ensures Added(es, f, size, before)[..FirstMovable(es)] == es[..FirstMovable(es)]
  {
    hide Added, Carved, FirstMovable;
    var s, c := FirstMovable(es), Carved(es, f, size);
    CarvedPrefix(es, f, size, s);
    PrefixKept(es, f, size, before);
    if s > 1 {
      assert c[s - 1] == c[..s][s - 1] == es[..s][s - 1] == es[s - 1];
    }
  }

  const FREE_IN_USE: seq<Entry> :=
    [Entry(1, 63, false, 1), Entry(74, 100, false, 1), Entry(64, 10, true, 2), Entry(174, 10, true, 1)]

  lemma FreeInUseCovers(x: int)
    ensures InTable(FREE_IN_USE, x) <==> 1 <= x < 184
  {
    if 1 <= x < 184 {
      assert Has(FREE_IN_USE[if x < 64 then 0 else if x < 74 then 2 else if x < 174 then 1 else 3], x);
    }
  }

  lemma FreeInUseTiles()
    ensures Tiling(FREE_IN_USE, 184)
  {
    hide InTable;
    forall x ensures InTable(FREE_IN_USE, x) <==> 1 <= x < 184 { FreeInUseCovers(x); }
  }

  /**
   * Free space that is in use, followed by nothing but free space, gets another number when an entry is
   * added without a place for it.
   */
  lemma FreeInUseMoved()
    ensures var es := FREE_IN_USE;
            && Tiling(es, 184) && MayAdd(es, 5, 0) && FirstMovable(es) == 3 && Chosen(es, 3, 3, 5)
            && es[2].refs > 1 && Added(es, 3, 5, 0) == es[..2] + [Entry(174, 5, false, 1), es[2], Entry(179, 5, true, 1)]
  {
    hide Tiling;
    FreeInUseTiles();
    var es := FREE_IN_USE;
    assert FirstMovable(es[..3]) == 3;
    var c := Carved(es, 3, 5);
    assert c == [es[0], es[1], es[2], Entry(179, 5, true, 1)];
    assert TrailingFree(c, 2) == TrailingFree(c, 3) == TrailingFree(c, 4) == 2;
  }

  /**
   * Adding a partition keeps the table a tiling of the drive without touching free space, and takes
   * exactly its size from what is free.
   */
  lemma AddedKeeps(es: seq<Entry>, devsize: nat, f: nat, size: nat, before: nat)
    requires Tiling(es, devsize) && size > 0 && f < |es| && es[f].free && size <= es[f].sectors
    ensures Tiling(Added(es, f, size, before), devsize)
    ensures TotalFree(Added(es, f, size, before)) == TotalFree(es) - size
  {
    hide Carved, Put, Position, TotalFree, InTable, Disjoint, Touching;
    var c := Carved(es, f, size);
    var e := Entry(es[f].start, size, false, 1);
    CarvedSeparate(es, f, size);
    CarvedFree(es, f, size);
    PutSeparate(c, Position(c, before), e);
    PutFree(c, Position(c, before), e);
    forall x ensures InTable(Added(es, f, size, before), x) <==> 1 <= x < devsize {
      CarvedCovers(es, f, size, x);
      PutCovers(c, Position(c, before), e, x);
    }
  }

  /* ---------- where a partition goes ---------- */

  /** The first movable entry is behind all entries in use, right behind the last one, and never the first. */
  lemma {:induction false} FirstMovableIs(es: seq<Entry>)
    requires es != []
    ensures var s := FirstMovable(es);
            && 1 <= s <= |es| && (s > 1 ==> es[s - 1].refs > 1) && forall i :: s <= i < |es| ==> es[i].refs <= 1
  {
    if |es| > 1 && es[|es| - 1].refs <= 1 {
      FirstMovableIs(es[..|es| - 1]);
    }
  }

  /** A new partition starts at the lowest sector from which on there are enough free ones in one movable entry. */
  lemma LowestPlace(es: seq<Entry>, f: nat, size: nat, before: nat, j: nat, x: nat)
    requires Chosen(es, FirstMovable(es), f, size) && es != []
    requires j < |es| && es[j].free && es[j].refs <= 1 && j > 0 && (forall i :: j < i < |es| ==> es[i].refs <= 1)
    requires es[j].start <= x && x + size <= es[j].End()
    ensures es[f].free && size <= es[f].sectors && es[f].start <= x
  {
    FirstMovableIs(es);
    assert Candidate(es, FirstMovable(es), j, size);
  }

  /**
   * It has the number asked for, if the table has as many entries, and otherwise the one behind the last
   * entry that is not free; the others are what the free space without it leaves, in their order.
   */
  lemma PlaceIs(es: seq<Entry>, f: nat, size: nat, before: nat)
    requires f < |es| && 0 < size <= es[f].sectors && |Carved(es, f, size)| > 0
    ensures var c := Carved(es, f, size);
            var p := Position(c, before);
            var r := Added(es, f, size, before);
            && p < |r| && r[p] == Entry(es[f].start, size, false, 1) && r[..p] + r[p + 1..] == c
            && (if 0 < before <= |c| then p == before
                else 1 <= p && (p > 1 ==> !c[p - 1].free) && forall i :: p <= i < |c| ==> c[i].free)
    ensures Carved(es, f, size) ==
            if es[f].sectors == size then es[..f] + es[f + 1..]
            else es[f := es[f].(start := es[f].start + size, sectors := es[f].sectors - size)]
  {
    hide Carved, TrailingFree;
    var c := Carved(es, f, size);
    TrailingFreeEnds(c, |c|);
    PutOut(c, Position(c, before), Entry(es[f].start, size, false, 1));
    CarvedIs(es, f, size);
  }

  lemma CarvedIs(es: seq<Entry>, f: nat, size: nat)
    requires f < |es| && 0 < size <= es[f].sectors
    ensures Carved(es, f, size) ==
            if es[f].sectors == size then es[..f] + es[f + 1..]
            else es[f := es[f].(start := es[f].start + size, sectors := es[f].sectors - size)]
  {
  }

  lemma PutOut(c: seq<Entry>, p: nat, e: Entry)
    requires p <= |c|
    ensures var r := Put(c, p, e); p < |r| && r[p] == e && r[..p] + r[p + 1..] == c
  {
    var r := Put(c, p, e);
    assert r[..p] == c[..p] && r[p + 1..] == c[p..];
  }

  lemma {:induction false} TrailingFreeEnds(es: seq<Entry>, n: nat)
    requires 0 < n <= |es|
    ensures var p := TrailingFree(es, n); 1 <= p <= n && (p > 1 ==> !es[p - 1].free) && forall i :: p <= i < n ==> es[i].free
  {
    if n > 1 && es[n - 1].free { TrailingFreeEnds(es, n - 1); }
  }
}
