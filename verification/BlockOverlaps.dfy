/** Blocks of sectors that are taken already, in part: when adding one still gives all the sectors. */
module BlockOverlaps {
  import opened Wrappers
  import opened BlockMarks

  /** Markers that are blocks one after the other, none of them before lo. */
  ghost predicate Paired(t: seq<Mark>, lo: nat) {
    t == [] ||
    (|t| >= 2 && t[0].backup && !t[1].backup && lo <= t[0].sector < t[1].sector && Paired(t[2..], t[1].sector))
  }

  /** Where the blocks that touch each other from lo on come to an end. */
  function RunEnd(t: seq<Mark>, lo: nat): (r: nat)
    decreases |t|
  {
    if |t| < 2 || t[0].sector != lo then lo else RunEnd(t[2..], t[1].sector)
  }

  /** A block begins before e and goes on after it. */
  predicate Straddles(t: seq<Mark>, e: nat)
    decreases |t|
  {
    |t| >= 2 && (t[0].sector < e < t[1].sector || Straddles(t[2..], e))
  }

  /** What is left of blocks when those that begin before e are dropped. */
  function Left(t: seq<Mark>, e: nat): seq<Mark>
    decreases |t|
  {
    if |t| < 2 || t[0].sector >= e then t else Left(t[2..], e)
  }

  /**
   * When adding a block gives all its sectors and keeps all others: it ends no later than the blocks that
   * follow each other from the next start on, or it begins in or right after a block, ends behind it, and
   * its end is inside no later one.
   */
  predicate KeepsAll(m: seq<Mark>, sector: nat, count: nat) {
    var k, e := Find(m, sector), sector + count;
    if k == |m| then true
    else if m[k].backup then k + 1 < |m| && e <= RunEnd(m[k + 2..], m[k + 1].sector)
    else (k == 0 || m[k].sector < e) && !Straddles(m[k + 1..], e)
  }

  /* ---------- blocks one after the other ---------- */

  lemma {:induction false} MarkedPaired(m: seq<Mark>, k: nat)
    requires Marked(m) && k < |m| && !m[k].backup
    ensures Paired(m[k + 1..], m[k].sector)
    decreases |m| - k
  {
    if k + 1 >= |m| {
    } else {
      LastIsStop(m, k + 1);
      MarkedPaired(m, k + 2);
      assert m[k + 1..][2..] == m[k + 2 + 1..];
    }
  }

  lemma LastIsStop(m: seq<Mark>, k: nat)
    requires Marked(m) && k < |m| && m[k].backup
    ensures k + 1 < |m| && !m[k + 1].backup && m[k].sector < m[k + 1].sector
  {
  }

  lemma CoversPair(t: seq<Mark>, x: int)
    requires |t| >= 2 && t[0].backup && !t[1].backup
    ensures Covers(t, x) <==> t[0].sector <= x < t[1].sector || Covers(t[2..], x)
  {
    CoversFront(t, x);
    CoversFront(t[1..], x);
    assert t[1..][1..] == t[2..];
  }

  lemma NoneCovered(x: int)
    ensures !Covers([], x)
  {
  }

  lemma {:induction false} CoveredFrom(t: seq<Mark>, lo: nat, x: int)
    requires Paired(t, lo) && Covers(t, x)
    ensures lo <= x
    decreases |t|
  {
    hide Covers;
    if t == [] {
      NoneCovered(x);
    } else {
      CoversPair(t, x);
      if Covers(t[2..], x) { CoveredFrom(t[2..], t[1].sector, x); }
    }
  }

  /** The sectors from lo up to e are all taken exactly when the touching blocks reach e. */
  lemma {:induction false} RunEndIs(t: seq<Mark>, lo: nat, e: nat)
    requires Paired(t, lo)
    ensures (forall x :: lo <= x < e ==> Covers(t, x)) <==> e <= lo || e <= RunEnd(t, lo)
    decreases |t|
  {
    hide Covers;
    if t == [] || t[0].sector != lo {
      if lo < e && Covers(t, lo) { FirstNotCovered(t, lo); }
    } else {
      var b := t[1].sector;
      RunEndIs(t[2..], b, e);
      RunEndAbove(t[2..], b);
      forall x | lo <= x ensures Covers(t, x) <==> x < b || Covers(t[2..], x) { CoversPair(t, x); }
    }
  }

  lemma FirstNotCovered(t: seq<Mark>, lo: nat)
    requires Paired(t, lo) && (t == [] || t[0].sector != lo)
    ensures !Covers(t, lo)
  {
    hide Covers;
    if t == [] {
      NoneCovered(lo);
    } else {
      CoversPair(t, lo);
      if Covers(t[2..], lo) { CoveredFrom(t[2..], t[1].sector, lo); }
    }
  }

  lemma {:induction false} RunEndAbove(t: seq<Mark>, lo: nat)
    requires Paired(t, lo)
    ensures RunEnd(t, lo) >= lo
    decreases |t|
  {
    if t != [] && t[0].sector == lo { RunEndAbove(t[2..], t[1].sector); }
  }

  lemma {:induction false} NoneStraddles(t: seq<Mark>, lo: nat, e: nat)
    requires Paired(t, lo) && e <= lo
    ensures !Straddles(t, e)
    decreases |t|
  {
    if t == [] {
    } else {
      NoneStraddles(t[2..], t[1].sector, e);
    }
  }

  lemma {:induction false} LeftCovered(t: seq<Mark>, lo: nat, e: nat, x: int)
    requires Paired(t, lo) && Covers(Left(t, e), x)
    ensures Covers(t, x)
    decreases |t|
  {
    hide Covers;
    if t != [] && t[0].sector < e {
      LeftCovered(t[2..], t[1].sector, e, x);
      CoversPair(t, x);
    }
  }

  /** From e on nothing is lost exactly when no block that begins before e goes on after it. */
  lemma {:induction false} LeftKeeps(t: seq<Mark>, lo: nat, e: nat)
    requires Paired(t, lo)
    ensures (forall x :: e <= x ==> (Covers(t, x) ==> Covers(Left(t, e), x))) <==> !Straddles(t, e)
    decreases |t|
  {
    hide Covers;
    if t == [] {
    } else if t[0].sector >= e {
      NoneStraddles(t[2..], t[1].sector, e);
    } else {
      var a, b := t[0].sector, t[1].sector;
      LeftKeeps(t[2..], b, e);
      forall x | e <= x ensures Covers(t, x) <==> x < b || Covers(t[2..], x) { CoversPair(t, x); }
      if e < b {
        CoversPair(t, e);
        if Covers(Left(t, e), e) {
          LeftCovered(t[2..], b, e, e);
          CoveredFrom(t[2..], b, e);
        }
      }
    }
  }

  /* ---------- what the last loop drops ---------- */

  /** Behind a stop, all blocks that begin before it are dropped with their stops, and no more. */
  lemma {:induction false} DroppedIs(pre: seq<Mark>, t: seq<Mark>, lo: nat)
    requires |pre| > 0 && !pre[|pre| - 1].backup && Paired(t, lo)
    ensures Dropped(pre + t, |pre| - 1) == pre + Left(t, pre[|pre| - 1].sector)
    decreases |t|
  {
    var n, p := pre + t, |pre| - 1;
    if t != [] && t[0].sector < pre[p].sector {
      var n1, n2 := pre + t[1..], pre + t[2..];
      assert n[..p + 1] + n[p + 2..] == n1;
      assert n1[..p + 1] + n1[p + 2..] == n2;
      assert Superfluous(n, p) && Superfluous(n1, p);
      DroppedIs(pre, t[2..], t[1].sector);
    } else {
      assert !Superfluous(n, p);
    }
  }

  /* ---------- the cases of an addition ---------- */

  /** The markers before a block, the block, and those after it. */
  lemma CoversAround(m: seq<Mark>, k: nat, x: int)
    requires k + 1 < |m| && m[k].backup && !m[k + 1].backup && (k > 0 ==> !m[k - 1].backup)
    ensures Covers(m, x) <==> Covers(m[..k], x) || m[k].sector <= x < m[k + 1].sector || Covers(m[k + 2..], x)
  {
    hide Covers;
    CoversPair(m[k..], x);
    DropTwo(m, k);
    if k > 0 {
      CoversJoin(m[..k], m[k..], x);
    } else {
      NoneCovered(x);
    }
  }

  lemma DropTwo(m: seq<Mark>, k: nat)
    requires k + 1 < |m|
    ensures m[k..][2..] == m[k + 2..] && m == m[..k] + m[k..] && (k == 0 ==> m[..k] == [])
  {
  }

  lemma StartFacts(m: seq<Mark>, k: nat)
    requires Marked(m) && k < |m| && m[k].backup
    ensures k + 1 < |m| && !m[k + 1].backup && m[k].sector < m[k + 1].sector
    ensures k > 0 ==> !m[k - 1].backup && m[k - 1].sector <= m[k].sector
  {
  }

  /** Blocks before a marker have no sector from it on. */
  lemma CoveredBefore(m: seq<Mark>, k: nat, x: int)
    requires Marked(m) && k < |m| && Covers(m[..k], x)
    ensures k > 0 && x < m[k - 1].sector <= m[k].sector
  {
    hide Marked;
    var i :| Inside(m[..k], i, x);
    MarksSorted(m, i + 1, k - 1);
    MarksSorted(m, k - 1, k);
  }

  /** Whether sector x is in n as it is in m, where the block from a to b now begins at a sector before a. */
  ghost predicate LoweredAt(m: seq<Mark>, n: seq<Mark>, t: seq<Mark>, sector: nat, a: nat, b: nat, x: int) {
    && (Covers(n, x) <==> Covers(m, x) || sector <= x < b) && (a <= x < b ==> Covers(m, x))
    && (x >= b ==> (Covers(m, x) <==> Covers(t, x)))
  }

  /** The sectors of the markers once a start has been moved down. */
  lemma LoweredCovers(m: seq<Mark>, k: nat, sector: nat, x: int)
    requires Marked(m) && k < |m| && m[k].backup && sector <= m[k].sector && (k > 0 ==> m[k - 1].sector < sector)
    ensures k + 1 < |m|
    ensures LoweredAt(m, m[k := Start(sector)], m[k + 2..], sector, m[k].sector, m[k + 1].sector, x)
  {
    hide Covers, Marked;
    StartFacts(m, k);
    var n := m[k := Start(sector)];
    assert n[..k] == m[..k] && n[k + 2..] == m[k + 2..];
    CoversAround(m, k, x);
    CoversAround(n, k, x);
    if Covers(m[..k], x) { CoveredBefore(m, k, x); }
  }

  /** Adding a block that does not end before the next start: that block begins earlier. */
  lemma LowersStart(m: seq<Mark>, sector: nat, count: nat)
    requires Marked(m) && count > 0 && Find(m, sector) < |m| && m[Find(m, sector)].backup
    requires sector + count >= m[Find(m, sector)].sector
    ensures Added(m, sector, count).Some?
    ensures Extends(m, Added(m, sector, count).value, sector, count) <==> KeepsAll(m, sector, count)
  {
    hide Covers, Marked;
    var k, e := Find(m, sector), sector + count;
    StartFacts(m, k);
    var n := m[k := Start(sector)];
    assert !Superfluous(n, k) && Added(m, sector, count) == Some(n);
    var a, b, t := m[k].sector, m[k + 1].sector, m[k + 2..];
    MarkedPaired(m, k + 1);
    RunEndIs(t, b, e);
    RunEndAbove(t, b);
    forall x ensures LoweredAt(m, n, t, sector, a, b, x) { LoweredCovers(m, k, sector, x); }
    Reaches(m, n, t, sector, e, a, b);
  }

  lemma Reaches(m: seq<Mark>, n: seq<Mark>, t: seq<Mark>, sector: nat, e: nat, a: nat, b: nat)
    requires sector <= a < b && a <= e && sector < e
    requires forall x :: LoweredAt(m, n, t, sector, a, b, x)
    ensures Extends(m, n, sector, e - sector) <==> forall x :: b <= x < e ==> Covers(t, x)
  {
    hide Covers;
    if forall x :: b <= x < e ==> Covers(t, x) {
      forall x ensures Covers(n, x) <==> Covers(m, x) || sector <= x < sector + (e - sector) {
        assert LoweredAt(m, n, t, sector, a, b, x) && (b <= x < e ==> Covers(t, x));
      }
    } else {
      var x :| b <= x < e && !Covers(t, x);
      assert LoweredAt(m, n, t, sector, a, b, x);
    }
  }

  /* ---------- a block that begins in another one, or at its end ---------- */

  /** Moving a stop up, or starting at sector 0, drops the later blocks that begin before the new end. */
  lemma RaisesStop(m: seq<Mark>, sector: nat, count: nat)
    requires Marked(m) && count > 0 && Find(m, sector) < |m| && !m[Find(m, sector)].backup
    ensures KeepsAll(m, sector, count) ==> Added(m, sector, count).Some?
    ensures Added(m, sector, count).Some? ==>
              (Extends(m, Added(m, sector, count).value, sector, count) <==> KeepsAll(m, sector, count))
  {
    hide Covers, Marked;
    var k, e := Find(m, sector), sector + count;
    var t := m[k + 1..];
    MarkedPaired(m, k);
    LeftKeeps(t, m[k].sector, e);
    if k == 0 || m[k].sector < e {
      var pre := if k == 0 then [Start(0), Stop(e)] else m[..k] + [Stop(e)];
      RaisedIs(m, sector, count);
      var n := pre + Left(t, e);
      var a := if k == 0 then 0 else m[k - 1].sector;
      StopFacts(m, k, sector);
      var h := m[..if k == 0 then 0 else k - 1];
      forall x ensures RaisedAt(m, n, h, t, Left(t, e), e, a, m[k].sector, x) { RaisedCovers(m, k, sector, e, x); }
      Loses(m, n, h, t, Left(t, e), sector, e, a, m[k].sector);
    }
  }

  lemma StopFacts(m: seq<Mark>, k: nat, sector: nat)
    requires Marked(m) && k == Find(m, sector) < |m| && !m[k].backup
    ensures k == 0 ==> sector == 0 && m[0].sector == 0
    ensures k > 0 ==> m[k - 1].backup && m[k - 1].sector < sector <= m[k].sector && (k > 1 ==> !m[k - 2].backup)
  {
  }

  /** What an addition to a stop gives: the later blocks that begin before the new end are gone. */
  lemma RaisedIs(m: seq<Mark>, sector: nat, count: nat)
    requires Marked(m) && count > 0 && Find(m, sector) < |m| && !m[Find(m, sector)].backup
    requires Find(m, sector) == 0 || m[Find(m, sector)].sector < sector + count
    ensures var k, e := Find(m, sector), sector + count;
            Added(m, sector, count)
            == Some((if k == 0 then [Start(0), Stop(e)] else m[..k] + [Stop(e)]) + Left(m[k + 1..], e))
  {
    hide Marked, Dropped;
    var k, e := Find(m, sector), sector + count;
    MarkedPaired(m, k);
    StopFacts(m, k, sector);
    if k == 0 {
      DroppedIs([Start(0), Stop(e)], m[1..], 0);
    } else {
      assert m[k := Stop(e)] == (m[..k] + [Stop(e)]) + m[k + 1..];
      DroppedIs(m[..k] + [Stop(e)], m[k + 1..], m[k].sector);
    }
  }

  /** Sector x in m, from the block from a to z on, and in n, where that block ends at e and only some later ones are left. */
  ghost predicate RaisedAt(m: seq<Mark>, n: seq<Mark>, h: seq<Mark>, t: seq<Mark>, left: seq<Mark>, e: nat, a: nat, z: nat, x: int) {
    && (Covers(n, x) <==> Covers(h, x) || a <= x < e || Covers(left, x))
    && (Covers(m, x) <==> Covers(h, x) || a <= x < z || Covers(t, x))
    && (Covers(left, x) ==> Covers(t, x)) && (Covers(t, x) ==> z <= x) && (Covers(h, x) ==> x < a)
  }

  lemma RaisedCovers(m: seq<Mark>, k: nat, sector: nat, e: nat, x: int)
    requires Marked(m) && k == Find(m, sector) < |m| && !m[k].backup && sector < e
    ensures var t, h := m[k + 1..], m[..if k == 0 then 0 else k - 1];
            var n := (if k == 0 then [Start(0), Stop(e)] else m[..k] + [Stop(e)]) + Left(t, e);
            var a := if k == 0 then 0 else m[k - 1].sector;
            RaisedAt(m, n, h, t, Left(t, e), e, a, m[k].sector, x)
  {
    hide Covers, Marked, Find;
    var t := m[k + 1..];
    StopFacts(m, k, sector);
    MarkedPaired(m, k);
    if Covers(Left(t, e), x) { LeftCovered(t, m[k].sector, e, x); }
    if Covers(t, x) { CoveredFrom(t, m[k].sector, x); }
    NoneCovered(x);
    if k == 0 {
      var n := [Start(0), Stop(e)] + Left(t, e);
      CoversPair(n, x);
      assert n[2..] == Left(t, e) && m[..0] == [];
      CoversFront(m, x);
    } else {
      var n := m[..k] + [Stop(e)] + Left(t, e);
      CoversAround(m, k - 1, x);
      CoversAround(n, k - 1, x);
      assert n[..k - 1] == m[..k - 1] && n[k - 1 + 2..] == Left(t, e) && m[k - 1 + 2..] == t;
      if Covers(m[..k - 1], x) { CoveredBefore(m, k - 1, x); }
    }
  }

  lemma Loses(m: seq<Mark>, n: seq<Mark>, h: seq<Mark>, t: seq<Mark>, left: seq<Mark>, sector: nat, e: nat, a: nat, z: nat)
    requires a <= sector <= z && sector < e && z <= e
    requires forall x :: RaisedAt(m, n, h, t, left, e, a, z, x)
    ensures Extends(m, n, sector, e - sector) <==> forall x :: e <= x ==> (Covers(t, x) ==> Covers(left, x))
  {
    hide Covers;
    if forall x :: e <= x ==> (Covers(t, x) ==> Covers(left, x)) {
      forall x ensures Covers(n, x) <==> Covers(m, x) || sector <= x < sector + (e - sector) {
        assert RaisedAt(m, n, h, t, left, e, a, z, x) && (e <= x && Covers(t, x) ==> Covers(left, x));
      }
    } else {
      var x :| e <= x && Covers(t, x) && !Covers(left, x);
      assert RaisedAt(m, n, h, t, left, e, a, z, x);
    }
  }

  /**
   * For any block, taken in part or not: adding it gives all its sectors and keeps all others if and only
   * if its end is where KeepsAll wants it.
   */
  lemma ExtendsIff(m: seq<Mark>, sector: nat, count: nat)
    requires Marked(m) && count > 0
    ensures Added(m, sector, count).Some? && Extends(m, Added(m, sector, count).value, sector, count) <==> KeepsAll(m, sector, count)
  {
    hide Extends, Marked;
    var k := Find(m, sector);
    if k < |m| && m[k].backup && sector + count >= m[k].sector {
      LowersStart(m, sector, count);
    } else if k < |m| && !m[k].backup {
      RaisesStop(m, sector, count);
    } else {
      InGap(m, sector, count);
    }
  }

  lemma InGap(m: seq<Mark>, sector: nat, count: nat)
    requires Marked(m) && count > 0
    requires var k := Find(m, sector); k == |m| || (m[k].backup && sector + count < m[k].sector)
    ensures Added(m, sector, count).Some? && Extends(m, Added(m, sector, count).value, sector, count) && KeepsAll(m, sector, count)
  {
    hide Covers, RunEnd, Dropped, Find;
    var k := Find(m, sector);
    GapFacts(m, sector);
    if k < |m| {
      MarkedPaired(m, k + 1);
      RunEndAbove(m[k + 2..], m[k + 1].sector);
    }
    InsertKeeps(m, k, sector, count);
    hide Marked;
    assert k == |m| ==> Inserted(m, k, sector, count) == m + [Start(sector), Stop(sector + count)];
    assert Placed(m, sector, count) == Some((Inserted(m, k, sector, count), k));
    NothingDropped(Inserted(m, k, sector, count), k);
  }

  lemma GapFacts(m: seq<Mark>, sector: nat)
    requires Marked(m)
    ensures var k := Find(m, sector);
            && (k == |m| ==> !m[k - 1].backup && m[k - 1].sector < sector)
            && (k < |m| && m[k].backup && sector < m[k].sector ==> k > 0 && !m[k - 1].backup && m[k - 1].sector < sector)
            && (k < |m| && m[k].backup ==> k + 1 < |m| && !m[k + 1].backup && m[k].sector < m[k + 1].sector)
  {
  }

  /** Sectors 10..11 are backed up; adding 5..34 leaves only 5..11 of them. */
  lemma OverlapLoses()
    ensures var m := [Stop(0), Start(10), Stop(12), Start(20), Stop(22)];
            var n := Added(m, 5, 30);
            Marked(m) && n.Some? && !Covers(n.value, 15) && !KeepsAll(m, 5, 30)
  {
    var m := [Stop(0), Start(10), Stop(12), Start(20), Stop(22)];
    assert Find(m, 5) == 1 by { assert m[1..][0] == Start(10); }
    var n := m[1 := Start(5)];
    assert n == [Stop(0), Start(5), Stop(12), Start(20), Stop(22)];
    assert Placed(m, 5, 30) == Some((n, 1));
    assert Marked(n);
    NothingDropped(n, 1);
    assert m[3..] == [Start(20), Stop(22)];
  }
}
