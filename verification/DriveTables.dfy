/**
 * The way from the partitions of a backup to the tables of two drives (restore.c): the search for the best
 * drives, the numbers and the list that follow from it, and a table built for each drive.
 */
module DriveTables {
  import opened MacPart
  import opened MacTable
  import opened TwoDrives
  import B = MacBuild
  import opened Arithmetic

  /** What a drive is to have. */
  function ToWanted(p: Part): B.Wanted {
    B.Wanted(p.dev, if p.number < 0 then 0 else p.number, p.sectors)
  }

  function ListOf(parts: seq<Part>): (list: seq<B.Wanted>)
    ensures |list| == |parts| && forall i :: 0 <= i < |parts| ==> list[i] == ToWanted(parts[i])
  {
    seq(|parts|, i requires 0 <= i < |parts| => ToWanted(parts[i]))
  }

  /** The sectors of each pair after the first. */
  function PairsOf(mfs: seq<Part>): (pairs: seq<nat>)
    requires |mfs| >= 2
    ensures |pairs| == (|mfs| - 2) / 2
    ensures forall j :: 0 <= j < |pairs| ==> pairs[j] == mfs[2 * j + 2].sectors + mfs[2 * j + 3].sectors
  {
    seq((|mfs| - 2) / 2, j requires 0 <= j < (|mfs| - 2) / 2 => mfs[2 * j + 2].sectors + mfs[2 * j + 3].sectors)
  }

  /* ---------- the numbers of the list ---------- */

  /** Where the partitions of the second drive begin. */
  function Second(a: Assignment): (n: nat)
    ensures FIRST_SLOT <= n <= FIRST_SLOT + 2 * |a|
  {
    OnesAtMost(a);
    FIRST_SLOT + 2 * Ones(a)
  }

  /** The list has each drive's partitions in the order of their numbers, from 2 on and without a gap. */
  ghost predicate InOrder(parts: seq<Part>, a: Assignment) {
    && |parts| == FIRST_SLOT + 2 * |a|
    && forall i :: 0 <= i < |parts| ==>
         && parts[i].dev == (if i < Second(a) then 0 else 1)
         && parts[i].number == (if i < Second(a) then i + 2 else i - Second(a) + 2)
  }

  lemma FilledSlot(mfs: seq<Part>, new_: seq<Part>, was: seq<Part>, other: seq<Part>, a: Assignment, i: nat)
    requires 2 * |a| + 2 <= |mfs| == |was| && FIRST_SLOT + 2 * |a| <= |new_| == |other|
    requires PlacedUpTo(mfs, new_, was, other, a, |a|, true) && FIRST_SLOT <= i < FIRST_SLOT + 2 * |a|
    ensures new_[i].dev == if i < Second(a) then 0 else 1
    ensures new_[i].number == if i < Second(a) then i + 2 else i - Second(a) + 2
  {
    var n := (i - FIRST_SLOT) / 2;
    SlotTaken(a, n);
    var j :| 0 <= j < |a| && Slot(a, j) == FIRST_SLOT + 2 * n;
    SlotBounds(a, j);
    assert Gone(a, j, |a|, true) && PairPlaced(mfs, new_, was, a, j);
  }

  /** The default partitions and the first pair, then what the second phase of the search puts in. */
  lemma PlacedInOrder(mfs: seq<Part>, new_: seq<Part>, was: seq<Part>, other: seq<Part>, a: Assignment)
    requires 2 * |a| + 2 <= |mfs| == |was| && FIRST_SLOT + 2 * |a| == |new_| == |other|
    requires PlacedUpTo(mfs, new_, was, other, a, |a|, true)
    requires forall i :: 0 <= i < FIRST_SLOT ==> other[i].dev == 0 && other[i].number == i + 2
    ensures InOrder(new_, a)
  {
    hide Gone, PairPlaced, Untouched, Slot;
    forall i | 0 <= i < |new_|
      ensures new_[i].dev == (if i < Second(a) then 0 else 1)
      ensures new_[i].number == (if i < Second(a) then i + 2 else i - Second(a) + 2)
    {
      if i < FIRST_SLOT { assert new_[i] == other[i]; } else { FilledSlot(mfs, new_, was, other, a, i); }
    }
  }

  lemma OrderWellformed(parts: seq<Part>, a: Assignment, dev: int)
    requires InOrder(parts, a) && Max1(a) <= 15 && Max2(a) <= 15 && forall i :: 0 <= i < |parts| ==> parts[i].sectors > 0
    ensures B.Wellformed(ListOf(parts), dev)
  {
    OnesAtMost(a);
  }

  /* ---------- the space it takes ---------- */

  lemma SectorsMore(list: seq<B.Wanted>, m: nat, dev: int)
    requires m < |list|
    ensures B.SectorsOf(list[..m + 1], dev) == B.SectorsOf(list[..m], dev) + if list[m].dev == dev then list[m].sectors else 0
  {
    assert list[..m + 1][..m] == list[..m];
  }

  /** Partitions of the other drive count for nothing. */
  lemma {:induction false} SectorsElsewhere(list: seq<B.Wanted>, m: nat, n: nat, dev: int)
    requires m <= n <= |list| && forall i :: m <= i < n ==> list[i].dev != dev
    ensures B.SectorsOf(list[..n], dev) == B.SectorsOf(list[..m], dev)
  {
    if m == n {
    } else {
      SectorsElsewhere(list, m, n - 1, dev);
      SectorsMore(list, n - 1, dev);
    }
  }

  lemma UsedMore(pairs: seq<nat>, a: Assignment, j: nat, first: bool)
    requires j < |a| <= |pairs|
    ensures Used(pairs, a[..j + 1], first) == Used(pairs, a[..j], first) + if a[j] == first then pairs[j] else 0
    ensures Ones(a[..j + 1]) == Ones(a[..j]) + if a[j] then 1 else 0
  {
    assert a[..j + 1][..j] == a[..j];
  }

  /** The slot after the pairs of one drive among the first j. */
  function SlotAfter(a: Assignment, j: nat, first: bool): nat
    requires j <= |a|
  {
    OnesAtMost(a[..j]);
    if first then FIRST_SLOT + 2 * Ones(a[..j]) else Second(a) + 2 * (j - Ones(a[..j]))
  }

  lemma SlotAfterInside(a: Assignment, j: nat)
    requires j <= |a|
    ensures SlotAfter(a, j, true) <= Second(a) <= SlotAfter(a, j, false) <= FIRST_SLOT + 2 * |a|
    ensures SlotAfter(a, |a|, true) == Second(a) && SlotAfter(a, |a|, false) == FIRST_SLOT + 2 * |a|
    ensures SlotAfter(a, 0, true) == FIRST_SLOT && SlotAfter(a, 0, false) == Second(a)
  {
    assert a[..|a|] == a && a[..0] == [];
    OnesPrefix(a, j, |a|);
    OnesPrefix(a, 0, j);
  }

  /** The pairs of a drive take the sectors that the search counted for it. */
  lemma {:induction false} SectorsPlaced(mfs: seq<Part>, new_: seq<Part>, was: seq<Part>, other: seq<Part>, a: Assignment, j: nat, first: bool)
    requires 2 * |a| + 2 == |mfs| == |was| && FIRST_SLOT + 2 * |a| == |new_| == |other| && j <= |a|
    requires PlacedUpTo(mfs, new_, was, other, a, |a|, true)
    ensures var dev, list := if first then 0 else 1, ListOf(new_);
            && SlotAfter(a, j, first) <= |list|
            && B.SectorsOf(list[..SlotAfter(a, j, first)], dev)
               == B.SectorsOf(list[..SlotAfter(a, 0, first)], dev) + Used(PairsOf(was), a[..j], first)
  {
    hide Untouched, PairPlaced, B.SectorsOf, Used, PairsOf, ListOf;
    SlotAfterInside(a, j);
    if j == 0 {
      assert a[..0] == [];
      UsedNone(PairsOf(was), first);
    } else {
      SectorsPlaced(mfs, new_, was, other, a, j - 1, first);
      SlotAfterInside(a, j - 1);
      UsedMore(PairsOf(was), a, j - 1, first);
      if a[j - 1] == first {
        PairAt(mfs, new_, was, other, a, j - 1);
        SectorsMore(ListOf(new_), SlotAfter(a, j - 1, first), if first then 0 else 1);
        SectorsMore(ListOf(new_), SlotAfter(a, j - 1, first) + 1, if first then 0 else 1);
      }
    }
  }

  lemma UsedNone(pairs: seq<nat>, first: bool)
    ensures Used(pairs, [], first) == 0
  {
  }

  lemma PairAt(mfs: seq<Part>, new_: seq<Part>, was: seq<Part>, other: seq<Part>, a: Assignment, j: nat)
    requires 2 * |a| + 2 == |mfs| == |was| && FIRST_SLOT + 2 * |a| == |new_| == |other| && j < |a|
    requires PlacedUpTo(mfs, new_, was, other, a, |a|, true)
    ensures var dev, n := if a[j] then 0 else 1, SlotAfter(a, j, a[j]);
            && n + 1 < |new_| && new_[n].dev == new_[n + 1].dev == dev
            && new_[n].sectors + new_[n + 1].sectors == PairsOf(was)[j]
            && ListOf(new_)[n] == ToWanted(new_[n]) && ListOf(new_)[n + 1] == ToWanted(new_[n + 1])
  {
    SlotBounds(a, j);
    assert Gone(a, j, |a|, true) && PairPlaced(mfs, new_, was, a, j);
  }

  /** Each drive has the space for its list, when its default partitions take no more than the search allowed for. */
  lemma SpaceEnough(s: Setup, mfs: seq<Part>, new_: seq<Part>, was: seq<Part>, other: seq<Part>, a: Assignment)
    requires 2 * |a| + 2 == |mfs| == |was| && FIRST_SLOT + 2 * |a| == |new_| == |other|
    requires PlacedUpTo(mfs, new_, was, other, a, |a|, true) && InOrder(new_, a) && Fits(s, PairsOf(was), a)
    requires B.SectorsOf(ListOf(other)[..FIRST_SLOT], 0) <= s.min1
    ensures B.SectorsOf(ListOf(new_), 0) <= s.secs1 && B.SectorsOf(ListOf(new_), 1) <= s.secs2
  {
    hide PlacedUpTo, B.SectorsOf, Used, PairsOf, ListOf;
    var list := ListOf(new_);
    SameDefaults(mfs, new_, was, other, a);
    SlotAfterInside(a, |a|);
    SectorsPlaced(mfs, new_, was, other, a, |a|, true);
    SectorsPlaced(mfs, new_, was, other, a, |a|, false);
    SectorsElsewhere(list, Second(a), |list|, 0);
    SectorsElsewhere(list, 0, Second(a), 1);
    NoSectors(list);
    assert list[..|list|] == list && a[..|a|] == a;
  }

  lemma SameDefaults(mfs: seq<Part>, new_: seq<Part>, was: seq<Part>, other: seq<Part>, a: Assignment)
    requires 2 * |a| + 2 == |mfs| == |was| && FIRST_SLOT + 2 * |a| == |new_| == |other|
    requires PlacedUpTo(mfs, new_, was, other, a, |a|, true)
    ensures ListOf(other)[..FIRST_SLOT] == ListOf(new_)[..FIRST_SLOT]
  {
    hide PairPlaced, Untouched;
    assert forall i :: 0 <= i < FIRST_SLOT ==> new_[i] == other[i];
  }

  lemma NoSectors(list: seq<B.Wanted>)
    ensures B.SectorsOf(list[..0], 1) == 0
  {
  }

  /* ---------- any order of the list ---------- */

  lemma SectorsApart(s: seq<B.Wanted>, w: B.Wanted, t: seq<B.Wanted>, dev: int)
    ensures B.SectorsOf(s + [w] + t, dev) == B.SectorsOf(s + t, dev) + if w.dev == dev then w.sectors else 0
    decreases |t|
  {
    if t == [] {
      assert s + [w] + t == s + [w] && (s + [w])[..|s|] == s && s + t == s;
    } else {
      var n := |t| - 1;
      SectorsApart(s, w, t[..n], dev);
      assert (s + [w] + t)[..|s| + |t|] == s + [w] + t[..n] && (s + t)[..|s + t| - 1] == s + t[..n];
    }
  }

  lemma {:induction false} SectorsBag(s: seq<B.Wanted>, t: seq<B.Wanted>, dev: int)
    requires multiset(s) == multiset(t)
    ensures B.SectorsOf(s, dev) == B.SectorsOf(t, dev)
  {
    if s == [] {
      assert |multiset(s)| == 0;
      assert |multiset(t)| == |t|;
    } else {
      var n, w := |s| - 1, s[|s| - 1];
      assert s == s[..n] + [w];
      assert w in multiset(t);
      var k :| 0 <= k < |t| && t[k] == w;
      assert t == t[..k] + [w] + t[k + 1..];
      assert multiset(s[..n]) == multiset(s) - multiset{w} && multiset(t[..k] + t[k + 1..]) == multiset(t) - multiset{w};
      SectorsBag(s[..n], t[..k] + t[k + 1..], dev);
      SectorsApart(t[..k], w, t[k + 1..], dev);
    }
  }

  /** An element that is there twice. */
  lemma {:induction false} Twice(s: seq<B.Wanted>, w: B.Wanted) returns (i: nat, j: nat)
    requires multiset(s)[w] >= 2
    ensures i < j < |s| && s[i] == s[j] == w
  {
    var n := |s| - 1;
    assert s == s[..n] + [s[n]];
    if s[n] == w {
      assert w in multiset(s[..n]);
      j := n;
      i :| 0 <= i < n && s[i] == w;
    } else {
      i, j := Twice(s[..n], w);
    }
  }

  lemma BothThere(s: seq<B.Wanted>, i: nat, j: nat)
    requires i < j < |s| && s[i] == s[j]
    ensures multiset(s)[s[i]] >= 2
  {
    assert s == s[..j] + [s[j]] + s[j + 1..];
    assert s[i] in s[..j];
  }

  lemma WellformedBag(s: seq<B.Wanted>, t: seq<B.Wanted>, dev: int)
    requires multiset(s) == multiset(t) && B.Wellformed(s, dev)
    ensures B.Wellformed(t, dev)
  {
    forall i | 0 <= i < |t| ensures t[i] in s { assert t[i] in multiset(t); }
    forall i, j | 0 <= i < j < |t| && t[i].dev == dev && t[j].dev == dev ensures t[i].number != t[j].number {
      if t[i] == t[j] {
        BothThere(t, i, j);
        var k, l := Twice(s, t[i]);
      } else {
        var k :| 0 <= k < |s| && s[k] == t[i];
        var l :| 0 <= l < |s| && s[l] == t[j];
      }
    }
  }

  /* ---------- the tables ---------- */

  ghost predicate Numbered(list: seq<B.Wanted>, dev: int, p: nat) {
    exists w :: w in list && w.dev == dev && w.number == p
  }

  ghost predicate InRow(rows: seq<B.Row>, p: nat) {
    exists i :: 0 <= i < |rows| && rows[i].number == p
  }

  /** All numbers from 2 to n + 1 are wanted on the drive. */
  ghost predicate AllWanted(list: seq<B.Wanted>, dev: int, n: nat) {
    && (forall w :: w in list && w.dev == dev ==> w.number <= n + 1)
    && forall p :: 2 <= p <= n + 1 ==> Numbered(list, dev, p)
  }

  lemma OrderAllWanted(parts: seq<Part>, a: Assignment)
    requires InOrder(parts, a)
    ensures AllWanted(ListOf(parts), 0, Second(a)) && AllWanted(ListOf(parts), 1, |parts| - Second(a))
  {
    var list := ListOf(parts);
    forall p | 2 <= p <= Second(a) + 1 ensures Numbered(list, 0, p) {
      assert list[p - 2] in list && parts[p - 2].number == p;
    }
    forall p | 2 <= p <= |parts| - Second(a) + 1 ensures Numbered(list, 1, p) {
      assert list[Second(a) + p - 2] in list && parts[Second(a) + p - 2].number == p;
    }
  }

  /** Rows with all the numbers from 2 on have them at their places. */
  lemma {:induction false} RowAt(rows: seq<B.Row>, p: nat)
    requires B.ByNumber(rows) && 2 <= p && forall q :: 2 <= q <= p ==> InRow(rows, q)
    ensures p - 2 < |rows| && rows[p - 2].number == p
  {
    if p > 2 { RowAt(rows, p - 1); }
    assert InRow(rows, p);
    var i :| 0 <= i < |rows| && rows[i].number == p;
    B.BelowNumber(rows, i);
  }

  /** Entry p of the table has the size that is wanted for partition p. */
  lemma BuiltAsWanted(list: seq<B.Wanted>, dev: int, n: nat, start: nat, left: nat, w: B.Wanted)
    requires B.Wellformed(list, dev) && AllWanted(list, dev, n) && w in list && w.dev == dev
    ensures var es := B.Built(B.RowsOf(list, dev), start, left);
            2 <= w.number <= |es| && es[w.number - 1].sectors == w.sectors && !es[w.number - 1].free
  {
    hide B.RowsOf, B.Built, B.ByNumber;
    var rows := B.RowsOf(list, dev);
    B.RowsAre(list, dev);
    forall q | 2 <= q <= w.number ensures InRow(rows, q) {
      assert Numbered(list, dev, q);
      var v :| v in list && v.dev == dev && v.number == q;
      assert B.InRows(v, rows);
    }
    WantedNumber(list, dev, w);
    RowAt(rows, w.number);
    assert B.InRows(w, rows);
    var i :| 0 <= i < |rows| && rows[i].number == w.number && rows[i].sectors == w.sectors;
    OneRow(rows, i, w.number - 2);
    B.BuiltLength(rows, start, left);
    B.BuiltAt(rows, start, left, w.number - 1);
  }

  lemma WantedNumber(list: seq<B.Wanted>, dev: int, w: B.Wanted)
    requires B.Wellformed(list, dev) && w in list && w.dev == dev
    ensures 2 <= w.number
  {
  }

  lemma OneRow(rows: seq<B.Row>, i: nat, j: nat)
    requires B.ByNumber(rows) && i < |rows| && j < |rows| && rows[i].number == rows[j].number
    ensures i == j
  {
  }

  /** The table of a new drive. */
  ghost predicate NewDrive(table: PartitionTable)
    reads table, table.partitions
  {
    table.Valid() && table.valid && table.devsize > 64 && table.View() == B.NewTable(table.devsize)
  }

  /** The partitions of the drive are in the table by their numbers, with their sizes. */
  ghost predicate Holds(es: seq<Entry>, list: seq<B.Wanted>, dev: int) {
    forall w :: w in list && w.dev == dev ==> 2 <= w.number <= |es| && es[w.number - 1].sectors == w.sectors && !es[w.number - 1].free
  }

  /** Builds a drive's table, after its media partitions have been moved to the beginning of the list if wanted. */
  method BuildDrive(table: PartitionTable, newparts: array<B.Wanted>, dev: int, sectors: nat, balance: bool, ghost n: nat)
    requires NewDrive(table) && B.Wellformed(newparts[..], dev) && AllWanted(newparts[..], dev, n)
    requires B.SectorsOf(newparts[..], dev) <= table.devsize - 64
    modifies newparts, table`count, table.partitions
    ensures table.Valid() && Holds(table.View(), old(newparts[..]), dev) && multiset(newparts[..]) == multiset(old(newparts[..]))
  {
    hide B.Wellformed, B.SectorsOf, B.NewTable, B.Built, B.RowsOf, B.Fronted, B.StopAt, AllWanted;
    ghost var list := newparts[..];
    if balance {
      B.Balance(newparts, dev, sectors);
      WellformedBag(list, newparts[..], dev);
      SectorsBag(list, newparts[..], dev);
    }
    B.Build(table, newparts[..], dev);
    AllHeld(list, newparts[..], dev, n, 64 + B.SectorsOf(newparts[..], dev), table.devsize - 64 - B.SectorsOf(newparts[..], dev));
  }

  lemma AllHeld(list: seq<B.Wanted>, now: seq<B.Wanted>, dev: int, n: nat, start: nat, left: nat)
    requires multiset(list) == multiset(now) && B.Wellformed(now, dev) && AllWanted(list, dev, n)
    ensures Holds(B.Built(B.RowsOf(now, dev), start, left), list, dev)
  {
    hide B.Wellformed, B.Built, B.RowsOf;
    SameMembers(list, now);
    WantedBag(list, now, dev, n);
    forall w | w in list && w.dev == dev
      ensures var es := B.Built(B.RowsOf(now, dev), start, left);
              2 <= w.number <= |es| && es[w.number - 1].sectors == w.sectors && !es[w.number - 1].free
    {
      BuiltAsWanted(now, dev, n, start, left, w);
    }
  }

  lemma SameMembers(s: seq<B.Wanted>, t: seq<B.Wanted>)
    requires multiset(s) == multiset(t)
    ensures forall w :: w in s <==> w in t
  {
    forall w ensures w in s <==> w in t { assert w in s <==> w in multiset(s); }
  }

  /** The pairs are where they were, with their sizes, and the list to create has what they say. */
  lemma PartsInList(mfs: seq<Part>, new_: seq<Part>, was: seq<Part>, other: seq<Part>, a: Assignment, i: nat)
    requires 2 * |a| + 2 == |mfs| == |was| && FIRST_SLOT + 2 * |a| == |new_| == |other| && 2 <= i < |mfs|
    requires PlacedUpTo(mfs, new_, was, other, a, |a|, true)
    ensures (mfs[i].dev == 0 || mfs[i].dev == 1) && mfs[i].sectors == was[i].sectors
    ensures ToWanted(mfs[i]) in ListOf(new_) && mfs[i].number >= 0
  {
    var j := (i - 2) / 2;
    SlotBounds(a, j);
    assert Gone(a, j, |a|, true) && PairPlaced(mfs, new_, was, a, j);
    OnesPrefix(a, 0, j);
    assert a[..0] == [];
    var k := Slot(a, j) + (i - 2) % 2;
    assert ListOf(new_)[k] == ToWanted(new_[k]);
  }

  lemma SizesPlaced(mfs: seq<Part>, new_: seq<Part>, was: seq<Part>, other: seq<Part>, a: Assignment)
    requires 2 * |a| + 2 == |mfs| == |was| && FIRST_SLOT + 2 * |a| == |new_| == |other|
    requires PlacedUpTo(mfs, new_, was, other, a, |a|, true)
    requires (forall i :: 0 <= i < |was| ==> was[i].sectors > 0) && forall i :: 0 <= i < FIRST_SLOT ==> other[i].sectors > 0
    ensures forall i :: 0 <= i < |new_| ==> new_[i].sectors > 0
  {
    forall i | 0 <= i < |new_| ensures new_[i].sectors > 0 {
      if i < FIRST_SLOT {
        assert new_[i] == other[i];
      } else {
        var n := (i - FIRST_SLOT) / 2;
        SlotTaken(a, n);
        var j :| 0 <= j < |a| && Slot(a, j) == FIRST_SLOT + 2 * n;
        assert Gone(a, j, |a|, true) && PairPlaced(mfs, new_, was, a, j);
      }
    }
  }

  /** The default partitions, the tables' own and the first pair, which are on the first drive. */
  ghost predicate Defaults(parts: seq<Part>, s: Setup) {
    && |parts| >= FIRST_SLOT
    && (forall i :: 0 <= i < FIRST_SLOT ==> parts[i].dev == 0 && parts[i].number == i + 2 && parts[i].sectors > 0)
    && B.SectorsOf(ListOf(parts)[..FIRST_SLOT], 0) <= s.min1
  }

  /** Partition p is in the table of its drive at its number, with its size. */
  ghost predicate Created(p: Part, first: seq<Entry>, second: seq<Entry>) {
    && (p.dev == 0 || p.dev == 1)
    && var es := if p.dev == 0 then first else second;
       2 <= p.number <= |es| && es[p.number - 1].sectors == p.sectors && !es[p.number - 1].free
  }

  lemma HeldIsCreated(p: Part, list: seq<B.Wanted>, first: seq<Entry>, second: seq<Entry>)
    requires Holds(first, list, 0) && Holds(second, list, 1) && ToWanted(p) in list && (p.dev == 0 || p.dev == 1) && p.number >= 0
    ensures Created(p, first, second)
  {
  }

  /** Which pairs after the first one are on the first drive. */
  function OnFirst(mfs: seq<Part>): (a: Assignment)
    requires |mfs| >= 2
    ensures |a| == (|mfs| - 2) / 2 && forall j :: 0 <= j < |a| ==> (a[j] <==> mfs[2 * j + 2].dev == 0)
  {
    seq((|mfs| - 2) / 2, j requires 0 <= j < (|mfs| - 2) / 2 => mfs[2 * j + 2].dev == 0)
  }

  lemma FirstIs(mfs: seq<Part>, new_: seq<Part>, was: seq<Part>, other: seq<Part>, a: Assignment)
    requires 2 * |a| + 2 == |mfs| == |was| && FIRST_SLOT + 2 * |a| == |new_| == |other|
    requires PlacedUpTo(mfs, new_, was, other, a, |a|, true)
    ensures OnFirst(mfs) == a
  {
    hide Slot, Number;
    forall j | 0 <= j < |a| ensures OnFirst(mfs)[j] == a[j] {
      assert Gone(a, j, |a|, true) && PairPlaced(mfs, new_, was, a, j);
    }
  }

  lemma NewIsValid(table: PartitionTable)
    requires NewDrive(table)
    ensures table.Valid()
  {
  }

  lemma ReadyToBuild(s: Setup, mfs: seq<Part>, new_: seq<Part>, was: seq<Part>, other: seq<Part>, a: Assignment)
    requires 2 * |a| + 2 == |mfs| == |was| && FIRST_SLOT + 2 * |a| == |new_| == |other|
    requires PlacedUpTo(mfs, new_, was, other, a, |a|, true) && Allowed(s, PairsOf(was), a)
    requires Defaults(other, s) && forall i :: 0 <= i < |was| ==> was[i].sectors > 0
    ensures B.Wellformed(ListOf(new_), 0) && B.Wellformed(ListOf(new_), 1)
    ensures AllWanted(ListOf(new_), 0, Second(a)) && AllWanted(ListOf(new_), 1, |new_| - Second(a))
    ensures B.SectorsOf(ListOf(new_), 0) <= s.secs1 && B.SectorsOf(ListOf(new_), 1) <= s.secs2
  {
    hide PlacedUpTo, InOrder, B.SectorsOf, ListOf, PairsOf, B.Wellformed, AllWanted, Free1, Free2;
    PlacedInOrder(mfs, new_, was, other, a);
    SizesPlaced(mfs, new_, was, other, a);
    OrderWellformed(new_, a, 0);
    OrderWellformed(new_, a, 1);
    OrderAllWanted(new_, a);
    SpaceEnough(s, mfs, new_, was, other, a);
  }

  lemma WantedBag(s: seq<B.Wanted>, t: seq<B.Wanted>, dev: int, n: nat)
    requires multiset(s) == multiset(t) && AllWanted(s, dev, n)
    ensures AllWanted(t, dev, n)
  {
    SameMembers(s, t);
    forall p | 2 <= p <= n + 1 ensures Numbered(t, dev, p) { assert Numbered(s, dev, p); }
  }

  lemma HoldsBag(es: seq<Entry>, s: seq<B.Wanted>, t: seq<B.Wanted>, dev: int)
    requires multiset(s) == multiset(t) && Holds(es, s, dev)
    ensures Holds(es, t, dev)
  {
    SameMembers(s, t);
  }

  lemma AllCreated(mfs: seq<Part>, new_: seq<Part>, was: seq<Part>, other: seq<Part>, a: Assignment, s: Setup,
                   first: seq<Entry>, second: seq<Entry>)
    requires 2 * |a| + 2 == |mfs| == |was| && FIRST_SLOT + 2 * |a| == |new_| == |other|
    requires PlacedUpTo(mfs, new_, was, other, a, |a|, true) && Defaults(other, s)
    requires Holds(first, ListOf(new_), 0) && Holds(second, ListOf(new_), 1)
    ensures forall i :: 2 <= i < |mfs| ==> mfs[i].sectors == was[i].sectors && Created(mfs[i], first, second)
    ensures forall i :: 0 <= i < FIRST_SLOT ==> Created(other[i], first, second)
  {
    forall i | 2 <= i < |mfs| ensures mfs[i].sectors == was[i].sectors && Created(mfs[i], first, second) {
      PartsInList(mfs, new_, was, other, a, i);
      HeldIsCreated(mfs[i], ListOf(new_), first, second);
    }
    hide PairPlaced, Untouched;
    forall i | 0 <= i < FIRST_SLOT ensures Created(other[i], first, second) {
      assert new_[i] == other[i] && ListOf(new_)[i] == ToWanted(new_[i]);
      HeldIsCreated(new_[i], ListOf(new_), first, second);
    }
  }

  /**
   * Distributes the partitions over two drives and builds both tables. It fails exactly when no distribution
   * is allowed; otherwise every partition, whatever was moved for balance, is in the table of its drive under
   * the number it has been given, with its size, and the pairs are on the drives that the best split puts
   * them on.
   */
  method RestoreDrives(first: PartitionTable, second: PartitionTable, s: Setup, mfs: array<Part>, new_: array<Part>) returns (ok: bool)
    requires NewDrive(first) && NewDrive(second) && first != second && first.partitions != second.partitions && mfs != new_
    requires first.devsize - 64 == s.secs1 && second.devsize - 64 == s.secs2
    requires mfs.Length >= 2 && mfs.Length % 2 == 0 && new_.Length == mfs.Length + 8
    requires Defaults(new_[..], s) && forall i :: 0 <= i < mfs.Length ==> mfs[i].sectors > 0
    modifies mfs, new_, first`count, first.partitions, second`count, second.partitions
    ensures ok <==> exists a: Assignment :: |a| == |PairsOf(old(mfs[..]))| && Allowed(s, PairsOf(old(mfs[..])), a)
    ensures ok ==> var a := OnFirst(mfs[..]);
              Allowed(s, PairsOf(old(mfs[..])), a) && Best(s, PairsOf(old(mfs[..])), a) && LastBest(s, PairsOf(old(mfs[..])), a)
    ensures first.Valid() && second.Valid()
    ensures ok ==> forall i :: 2 <= i < mfs.Length ==>
              mfs[i].sectors == old(mfs[i].sectors) && Created(mfs[i], first.View(), second.View())
    ensures ok ==> forall i :: 0 <= i < FIRST_SLOT ==> Created(old(new_[i]), first.View(), second.View())
  {
    hide PlacedUpTo, Allowed, Decoded, Power, PairsOf, InOrder, B.Wellformed, AllWanted, Holds, B.SectorsOf, NewDrive, ListOf, Created,
         Best, LastBest, Encoded, OnFirst;
    ghost var was, other := mfs[..], new_[..];
    NewIsValid(first);
    NewIsValid(second);
    var pairs := PairsOf(mfs[..]);
    var bestorder := FindBest(s, pairs);
    ok := bestorder >= 0;
    if !ok { return; }
    var k := (mfs.Length - 2) / 2;
    ghost var a := Decoded(bestorder, k, k);
    var added1, added2 := Assign(mfs, new_, bestorder, k);
    FirstIs(mfs[..], new_[..], was, other, a);
    ReadyToBuild(s, mfs[..], new_[..], was, other, a);
    var list := ListOf(new_[..]);
    var newparts := new B.Wanted[|list|](i requires 0 <= i < |list| => list[i]);
    assert newparts[..] == list;
    BuildDrive(first, newparts, 0, s.secs1, s.balance, Second(a));
    ghost var now := newparts[..];
    WellformedBag(list, now, 1);
    SectorsBag(list, now, 1);
    WantedBag(list, now, 1, |list| - Second(a));
    BuildDrive(second, newparts, 1, s.secs2, s.balance, |list| - Second(a));
    HoldsBag(second.View(), now, list, 1);
    AllCreated(mfs[..], new_[..], was, other, a, s, first.View(), second.View());
  }
}
