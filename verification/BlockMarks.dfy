/**
 * The blocks a backup takes from one volume, as a list of markers: where a block to back up starts
 * and where it stops. The list begins at sector 0, with a marker that nothing is backed up there
 * until a block that starts at 0 takes its place.
 */
module BlockMarks {
  import opened Wrappers

  datatype Mark = Mark(backup: bool, sector: nat)

  function Start(sector: nat): Mark { Mark(true, sector) }

  function Stop(sector: nat): Mark { Mark(false, sector) }

  /** Starts and stops take turns, in order, and no block is empty. */
  ghost predicate Marked(m: seq<Mark>) {
    && |m| > 0 && m[0].sector == 0 && !m[|m| - 1].backup
    && (!m[0].backup && |m| > 1 ==> m[1].sector > 0)
    && forall k, l :: 0 <= k && l == k + 1 && l < |m| ==>
         m[k].backup != m[l].backup && m[k].sector <= m[l].sector && (m[k].backup ==> m[k].sector < m[l].sector)
  }

  /** Sector x lies between a start and the marker after it. */
  ghost predicate Covers(m: seq<Mark>, x: int) {
    exists k :: Inside(m, k, x)
  }

  predicate Inside(m: seq<Mark>, k: int, x: int) {
    0 <= k && k + 1 < |m| && m[k].backup && m[k].sector <= x < m[k + 1].sector
  }

  /** No sector of the new block is taken yet. */
  ghost predicate Untaken(m: seq<Mark>, sector: nat, count: nat) {
    forall x :: sector <= x < sector + count ==> !Covers(m, x)
  }

  /** The first marker that is not before a sector. */
  function Find(m: seq<Mark>, sector: nat): (k: nat)
    ensures k <= |m| && (forall i :: 0 <= i < k ==> m[i].sector < sector) && (k < |m| ==> m[k].sector >= sector)
  {
    if m == [] || m[0].sector >= sector then 0 else 1 + Find(m[1..], sector)
  }

  /** The markers with the new block, and the one after which superfluous markers are dropped. */
  function Placed(m: seq<Mark>, sector: nat, count: nat): Option<(seq<Mark>, nat)> {
    var k := Find(m, sector);
    if k == |m| then
      Some((m + [Start(sector), Stop(sector + count)], k))
    else if m[k].backup then
      if sector + count >= m[k].sector then Some((m[k := Start(sector)], k))
      else Some((m[..k] + [Start(sector), Stop(sector + count)] + m[k..], k))
    else if k > 0 && m[k].sector < sector + count then
      Some((m[k := Stop(sector + count)], k))
    else if k == 0 then
      Some(([Start(sector), Stop(sector + count)] + m[1..], 1))
    else
      None
  }

  predicate Superfluous(m: seq<Mark>, p: nat) {
    p + 1 < |m| && (m[p + 1].sector < m[p].sector || m[p + 1].backup == m[p].backup)
  }

  /** Drops the markers after p that lie before it or say the same. */
  function Dropped(m: seq<Mark>, p: nat): seq<Mark>
    decreases |m|
  {
    if Superfluous(m, p) then Dropped(m[..p + 1] + m[p + 2..], p) else m
  }

  function Added(m: seq<Mark>, sector: nat, count: nat): Option<seq<Mark>> {
    match Placed(m, sector, count)
    case None => None
    case Some((n, p)) => Some(Dropped(n, p))
  }

  /** The sectors of all blocks together. */
  function Total(m: seq<Mark>): int {
    if |m| < 2 then 0
    else Total(m[1..]) + if m[0].backup then m[1].sector - m[0].sector else 0
  }

  lemma {:induction false} MarksSorted(m: seq<Mark>, i: nat, j: nat)
    requires Marked(m) && i <= j < |m|
    ensures m[i].sector <= m[j].sector
  {
    if i >= j {
    } else {
      MarksSorted(m, i, j - 1);
    }
  }

  /** What the place of a new block that takes no sector twice looks like. */
  lemma PlaceIs(m: seq<Mark>, sector: nat, count: nat)
    requires Marked(m) && count > 0 && Untaken(m, sector, count)
    ensures var k := Find(m, sector);
            && (k == 0 ==> !m[0].backup && sector == 0)
            && (k < |m| && m[k].backup ==> k > 0 && sector + count <= m[k].sector && sector < m[k].sector)
            && (0 < k < |m| && !m[k].backup ==> m[k].sector == sector)
            && (k < |m| && !m[k].backup && k + 1 < |m| ==> sector + count <= m[k + 1].sector)
  {
    var k := Find(m, sector);
    if k < |m| && m[k].backup && sector + count > m[k].sector { IsCovered(m, k, m[k].sector); }
    if 0 < k < |m| && !m[k].backup && m[k].sector > sector { IsCovered(m, k - 1, sector); }
    if k < |m| && !m[k].backup && k + 1 < |m| && sector + count > m[k + 1].sector { IsCovered(m, k + 1, m[k + 1].sector); }
  }

  lemma IsCovered(m: seq<Mark>, k: nat, x: int)
    requires Inside(m, k, x)
    ensures Covers(m, x)
  {
  }

  lemma CoversFront(m: seq<Mark>, x: int)
    requires |m| > 0
    ensures Covers(m, x) <==> Inside(m, 0, x) || Covers(m[1..], x)
  {
    if Covers(m, x) {
      var k :| Inside(m, k, x);
      assert k == 0 || Inside(m[1..], k - 1, x);
    }
    if Covers(m[1..], x) {
      var k :| Inside(m[1..], k, x);
      assert Inside(m, k + 1, x);
    }
  }

  lemma CoversJoin(m: seq<Mark>, n: seq<Mark>, x: int)
    requires |m| > 0 && !m[|m| - 1].backup
    ensures Covers(m + n, x) <==> Covers(m, x) || Covers(n, x)
  {
    if Covers(m + n, x) {
      var k :| Inside(m + n, k, x);
      assert k < |m| - 1 || k >= |m|;
      assert Inside(m, k, x) || Inside(n, k - |m|, x);
    }
    if Covers(m, x) { var k :| Inside(m, k, x); assert Inside(m + n, k, x); }
    if Covers(n, x) { var k :| Inside(n, k, x); assert Inside(m + n, k + |m|, x); }
  }

  /** n has the blocks of m and the new one. */
  ghost predicate Extends(m: seq<Mark>, n: seq<Mark>, sector: nat, count: nat) {
    forall x :: Covers(n, x) <==> Covers(m, x) || sector <= x < sector + count
  }

  function Inserted(m: seq<Mark>, k: nat, sector: nat, count: nat): seq<Mark>
    requires k <= |m|
  {
    m[..k] + [Start(sector), Stop(sector + count)] + m[k..]
  }

  lemma InsertedAt(m: seq<Mark>, k: nat, sector: nat, count: nat, j: nat)
    requires k <= |m| && j < |m| + 2
    ensures |Inserted(m, k, sector, count)| == |m| + 2
    ensures Inserted(m, k, sector, count)[j]
         == if j < k then m[j] else if j == k then Start(sector) else if j == k + 1 then Stop(sector + count) else m[j - 2]
  {
  }

  /** Room for a block between a stop and the start after it. */
  predicate Gap(m: seq<Mark>, k: nat, sector: nat, count: nat) {
    && 0 < k <= |m| && count > 0 && !m[k - 1].backup && m[k - 1].sector < sector
    && (k < |m| ==> sector + count <= m[k].sector)
  }

  lemma InsertMarked(m: seq<Mark>, k: nat, sector: nat, count: nat)
    requires Marked(m) && Gap(m, k, sector, count)
    ensures Marked(Inserted(m, k, sector, count))
  {
    hide Inserted;
    var n := Inserted(m, k, sector, count);
    InsertedAt(m, k, sector, count, 0);
    InsertedAt(m, k, sector, count, 1);
    InsertedAt(m, k, sector, count, |m| + 1);
    forall i, j | 0 <= i && j == i + 1 && j < |n|
      ensures n[i].backup != n[j].backup && n[i].sector <= n[j].sector && (n[i].backup ==> n[i].sector < n[j].sector)
    {
      InsertedAt(m, k, sector, count, i);
      InsertedAt(m, k, sector, count, j);
    }
  }

  lemma InsertCovers(m: seq<Mark>, k: nat, sector: nat, count: nat, x: int)
    requires Marked(m) && Gap(m, k, sector, count)
    ensures Covers(Inserted(m, k, sector, count), x) <==> Covers(m, x) || sector <= x < sector + count
  {
    var n := Inserted(m, k, sector, count);
    InsertInside(m, k, sector, count, k, x);
    if Covers(m, x) {
      var i :| Inside(m, i, x);
      InsertInside(m, k, sector, count, if i < k then i else i + 2, x);
    }
    if Covers(n, x) {
      var j :| Inside(n, j, x);
      InsertInside(m, k, sector, count, j, x);
    }
  }

  /** Where the blocks go when two marks are put into a gap. */
  lemma InsertInside(m: seq<Mark>, k: nat, sector: nat, count: nat, j: nat, x: int)
    requires Marked(m) && Gap(m, k, sector, count) && j < |m| + 1
    ensures Inside(Inserted(m, k, sector, count), j, x) <==>
            if j == k then sector <= x < sector + count else j != k + 1 && Inside(m, if j < k then j else j - 2, x)
  {
    hide Inserted;
    InsertedAt(m, k, sector, count, j);
    InsertedAt(m, k, sector, count, j + 1);
  }

  /** The start of a block moved down to take in what lies right before it. */
  lemma LowerStart(m: seq<Mark>, k: nat, sector: nat, count: nat)
    requires Marked(m) && 0 < k < |m| && m[k].backup && count > 0
    requires m[k - 1].sector < sector && sector + count == m[k].sector
    ensures Marked(m[k := Start(sector)])
    ensures Extends(m, m[k := Start(sector)], sector, count)
  {
    var n := m[k := Start(sector)];
    assert !m[k - 1].backup;
    forall x ensures Covers(n, x) <==> Covers(m, x) || sector <= x < sector + count {
      if sector <= x < sector + count { assert Inside(n, k, x); }
      if Covers(m, x) { var i :| Inside(m, i, x); assert Inside(n, i, x); }
      if Covers(n, x) {
        var i :| Inside(n, i, x);
        if i != k { assert Inside(m, i, x); } else if x >= sector + count { assert Inside(m, k, x); }
      }
    }
  }

  /** The stop of a block moved up to take in what lies right after it. */
  lemma RaiseStop(m: seq<Mark>, k: nat, sector: nat, count: nat)
    requires Marked(m) && 0 < k < |m| && !m[k].backup && count > 0
    requires sector == m[k].sector && (k + 1 < |m| ==> sector + count <= m[k + 1].sector)
    ensures Marked(m[k := Stop(sector + count)])
    ensures Extends(m, m[k := Stop(sector + count)], sector, count)
  {
    var n := m[k := Stop(sector + count)];
    assert m[k - 1].backup;
    forall x ensures Covers(n, x) <==> Covers(m, x) || sector <= x < sector + count {
      if sector <= x < sector + count { assert Inside(n, k - 1, x); }
      if Covers(m, x) { var i :| Inside(m, i, x); assert Inside(n, i, x); }
      if Covers(n, x) { var i :| Inside(n, i, x); assert sector <= x < sector + count || Inside(m, i, x); }
    }
  }

  /** The first block of a volume that starts at sector 0 takes the place of the first marker. */
  lemma ReplaceHead(m: seq<Mark>, count: nat)
    requires Marked(m) && !m[0].backup && count > 0 && (|m| > 1 ==> count <= m[1].sector)
    ensures var n := [Start(0), Stop(count)] + m[1..];
            Marked(n) && Extends(m, n, 0, count)
  {
    var n := [Start(0), Stop(count)] + m[1..];
    forall j | 2 <= j < |n| ensures n[j] == m[j - 1] {}
    forall x ensures Covers(n, x) <==> Covers(m, x) || 0 <= x < count {
      if 0 <= x < count { assert Inside(n, 0, x); }
      if Covers(m, x) { var i :| Inside(m, i, x); assert Inside(n, i + 1, x); }
      if Covers(n, x) { var i :| Inside(n, i, x); assert i == 0 || Inside(m, i - 1, x); }
    }
  }

  lemma NothingDropped(m: seq<Mark>, p: nat)
    requires Marked(m) && p < |m|
    ensures Dropped(m, p) == m
  {
  }

  lemma InsertKeeps(m: seq<Mark>, k: nat, sector: nat, count: nat)
    requires Marked(m) && Gap(m, k, sector, count)
    ensures Marked(Inserted(m, k, sector, count)) && Extends(m, Inserted(m, k, sector, count), sector, count)
  {
    hide Covers, Inserted, Marked;
    InsertMarked(m, k, sector, count);
    forall x ensures Covers(Inserted(m, k, sector, count), x) <==> Covers(m, x) || sector <= x < sector + count {
      InsertCovers(m, k, sector, count, x);
    }
  }

  lemma PlacedKeeps(m: seq<Mark>, sector: nat, count: nat)
    requires Marked(m) && count > 0 && Untaken(m, sector, count)
    ensures Placed(m, sector, count).Some?
    ensures var (n, p) := Placed(m, sector, count).value; Marked(n) && Extends(m, n, sector, count) && p < |n|
  {
    hide Covers, Find;
    PlaceIs(m, sector, count);
    var k := Find(m, sector);
    var (n, p) := Placed(m, sector, count).value;
    if k == 0 {
      ReplaceHead(m, count);
    } else if k < |m| && !m[k].backup {
      RaiseStop(m, k, sector, count);
    } else if k < |m| && sector + count >= m[k].sector {
      LowerStart(m, k, sector, count);
    } else {
      assert k < |m| ==> !m[k - 1].backup;
      InsertKeeps(m, k, sector, count);
      assert n == Inserted(m, k, sector, count);
    }
  }

  /**
   * Adding a block of sectors that are not taken succeeds, keeps the markers in order, and adds
   * exactly these sectors; what the last loop would drop never occurs.
   */
  lemma AddedKeeps(m: seq<Mark>, sector: nat, count: nat)
    requires Marked(m) && count > 0 && Untaken(m, sector, count)
    ensures Added(m, sector, count).Some?
    ensures var n := Added(m, sector, count).value; Marked(n) && Extends(m, n, sector, count)
  {
    hide Extends, Marked, Dropped, Placed, Untaken;
    PlacedKeeps(m, sector, count);
    var (n, p) := Placed(m, sector, count).value;
    NothingDropped(n, p);
  }

  /* ---------- how many sectors ---------- */

  lemma {:induction false} TotalSplit(m: seq<Mark>, k: nat)
    requires k < |m|
    ensures Total(m) == Total(m[..k + 1]) + Total(m[k..])
  {
    if k == 0 {
      assert m[0..] == m;
    } else {
      TotalSplit(m[1..], k - 1);
      assert m[..k + 1][1..] == m[1..][..k] && m[1..][k - 1..] == m[k..];
    }
  }

  /** A stop adds nothing before what follows it. */
  lemma TotalStop(m: seq<Mark>)
    requires |m| > 0 && !m[0].backup
    ensures Total(m) == Total(m[1..])
  {
  }

  lemma TotalStart(m: seq<Mark>)
    requires |m| > 1 && m[0].backup
    ensures Total(m) == m[1].sector - m[0].sector + Total(m[1..])
  {
  }

  /** The last marker of a list counts only as an end. */
  lemma TotalLast(m: seq<Mark>, last: Mark)
    requires |m| > 0 && !m[|m| - 1].backup
    ensures Total(m + [last]) == Total(m)
  {
    var r, k := m + [last], |m| - 1;
    TotalSplit(r, k);
    assert r[..k + 1] == m;
    TotalStop(r[k..]);
  }

  lemma InsertTotal(m: seq<Mark>, k: nat, sector: nat, count: nat)
    requires Gap(m, k, sector, count)
    ensures Total(Inserted(m, k, sector, count)) == Total(m) + count
  {
    hide Total;
    var n := Inserted(m, k, sector, count);
    TotalSplit(n, k);
    assert n[..k + 1] == m[..k] + [Start(sector)];
    TotalLast(m[..k], Start(sector));
    TotalStart(n[k..]);
    TotalStop(n[k..][1..]);
    assert n[k..][1..][1..] == m[k..];
    TotalSplit(m, k - 1);
    TotalStop(m[k - 1..]);
    assert m[k - 1..][1..] == m[k..];
  }

  /** Two lists that differ in marker k only differ by what changes around it. */
  lemma TotalAround(m: seq<Mark>, n: seq<Mark>, k: nat)
    requires 0 < k < |m| == |n| && m[..k] == n[..k] && m[k + 1..] == n[k + 1..]
    ensures Total(n) - Total(m) == Total(n[k - 1..k + 1]) - Total(m[k - 1..k + 1]) + Total(n[k..]) - Total(m[k..])
  {
    hide Total;
    TotalSplit(m, k - 1);
    TotalSplit(n, k - 1);
    TotalSplit(m[k - 1..], 1);
    TotalSplit(n[k - 1..], 1);
    assert m[k - 1..][..2] == m[k - 1..k + 1] && n[k - 1..][..2] == n[k - 1..k + 1];
    assert m[k - 1..][1..] == m[k..] && n[k - 1..][1..] == n[k..];
  }

  lemma TotalPair(a: Mark, b: Mark)
    ensures Total([a, b]) == if a.backup then b.sector - a.sector else 0
  {
    assert [a, b][1..] == [b];
  }

  lemma LowerTotal(m: seq<Mark>, k: nat, sector: nat, count: nat)
    requires Marked(m) && 0 < k < |m| && m[k].backup && sector + count == m[k].sector
    ensures Total(m[k := Start(sector)]) == Total(m) + count
  {
    hide Total;
    var n := m[k := Start(sector)];
    assert !m[k - 1].backup;
    TotalAround(m, n, k);
    TotalPair(m[k - 1], m[k]);
    TotalPair(n[k - 1], n[k]);
    assert m[k - 1..k + 1] == [m[k - 1], m[k]] && n[k - 1..k + 1] == [n[k - 1], n[k]];
    TotalStart(m[k..]);
    TotalStart(n[k..]);
    assert m[k..][1..] == n[k..][1..];
  }

  lemma RaiseTotal(m: seq<Mark>, k: nat, sector: nat, count: nat)
    requires Marked(m) && 0 < k < |m| && !m[k].backup && sector == m[k].sector
    ensures Total(m[k := Stop(sector + count)]) == Total(m) + count
  {
    hide Total;
    var n := m[k := Stop(sector + count)];
    assert m[k - 1].backup;
    TotalAround(m, n, k);
    TotalPair(m[k - 1], m[k]);
    TotalPair(n[k - 1], n[k]);
    assert m[k - 1..k + 1] == [m[k - 1], m[k]] && n[k - 1..k + 1] == [n[k - 1], n[k]];
    TotalStop(m[k..]);
    TotalStop(n[k..]);
    assert m[k..][1..] == n[k..][1..];
  }

  lemma ReplaceTotal(m: seq<Mark>, count: nat)
    requires |m| > 0 && !m[0].backup
    ensures Total([Start(0), Stop(count)] + m[1..]) == Total(m) + count
  {
    hide Total;
    var n := [Start(0), Stop(count)] + m[1..];
    TotalStart(n);
    TotalStop(n[1..]);
    assert n[1..][1..] == m[1..];
    TotalStop(m);
  }

  lemma PlacedTotal(m: seq<Mark>, sector: nat, count: nat)
    requires Marked(m) && count > 0 && Untaken(m, sector, count) && Placed(m, sector, count).Some?
    ensures Total(Placed(m, sector, count).value.0) == Total(m) + count
  {
    PlaceIs(m, sector, count);
    hide Total, Untaken, Find;
    var k := Find(m, sector);
    if k == 0 {
      ReplaceTotal(m, count);
    } else if k < |m| && !m[k].backup {
      RaiseTotal(m, k, sector, count);
    } else if k < |m| && sector + count >= m[k].sector {
      LowerTotal(m, k, sector, count);
    } else {
      assert k < |m| ==> !m[k - 1].backup;
      InsertTotal(m, k, sector, count);
      assert Placed(m, sector, count).value.0 == Inserted(m, k, sector, count);
    }
  }

  /** The blocks of the list grow by exactly the sectors added. */
  lemma AddedTotal(m: seq<Mark>, sector: nat, count: nat)
    requires Marked(m) && count > 0 && Untaken(m, sector, count)
    ensures Added(m, sector, count).Some? && Total(Added(m, sector, count).value) == Total(m) + count
  {
    hide Placed, Total, Marked, Untaken, Extends, Dropped;
    PlacedKeeps(m, sector, count);
    PlacedTotal(m, sector, count);
    var (n, p) := Placed(m, sector, count).value;
    NothingDropped(n, p);
  }
}
