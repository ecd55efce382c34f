/** The markers of one volume as the backup keeps them: a linked list spliced in place. */
module BackupList {
  import opened Nodes
  import opened Wrappers
  import opened BlockMarks

  class Marker {
    var backup: bool
    var sector: nat
    var next: Marker?

    constructor (backup: bool, sector: nat, next: Marker?)
      ensures this.backup == backup && this.sector == sector && this.next == next
    {
      this.backup, this.sector, this.next := backup, sector, next;
    }
  }

  ghost function At(s: seq<Marker>, i: int): Marker? {
    if 0 <= i < |s| then s[i] else null
  }

  ghost predicate Chain(s: seq<Marker>)
    reads s`next
  {
    Distinct(s) && forall i {:trigger s[i].next} :: 0 <= i < |s| ==> s[i].next == At(s, i + 1)
  }

  ghost function Marks(s: seq<Marker>): (m: seq<Mark>)
    reads s`backup, s`sector
    ensures |m| == |s| && forall i :: 0 <= i < |s| ==> m[i] == Mark(s[i].backup, s[i].sector)
  {
    if s == [] then [] else [Mark(s[0].backup, s[0].sector)] + Marks(s[1..])
  }

  /** Links that lead through a and b before s[k] are the links of s with both put in. */
  lemma ChainWith(s: seq<Marker>, k: nat, a: Marker, b: Marker)
    requires k <= |s| && Distinct(s) && a !in s && b !in s && a != b
    requires forall i {:trigger s[i].next} :: 0 <= i < |s| ==> s[i].next == if i == k - 1 then a else At(s, i + 1)
    requires a.next == b && b.next == At(s, k)
    ensures Chain(s[..k] + [a, b] + s[k..])
  {
    var r := s[..k] + [a, b] + s[k..];
    forall i | 0 <= i < |r| ensures r[i] == if i < k then s[i] else if i == k then a else if i == k + 1 then b else s[i - 2] {}
  }

  lemma ChainFirst(s: seq<Marker>, a: Marker, b: Marker)
    requires |s| > 0 && Chain(s) && a !in s && b !in s && a != b
    requires a.next == b && b.next == At(s, 1)
    ensures Chain([a, b] + s[1..])
  {
    var r := [a, b] + s[1..];
    forall i | 0 <= i < |r| ensures r[i] == if i == 0 then a else if i == 1 then b else s[i - 1] {}
  }

  lemma ChainWithout(s: seq<Marker>, p: nat)
    requires p + 1 < |s| && Distinct(s)
    requires forall i {:trigger s[i].next} :: 0 <= i < |s| && i != p + 1 ==> s[i].next == if i == p then At(s, p + 2) else At(s, i + 1)
    ensures Chain(s[..p + 1] + s[p + 2..])
  {
    var r := s[..p + 1] + s[p + 2..];
    forall i | 0 <= i < |r| ensures r[i] == if i <= p then s[i] else s[i + 1] {}
  }

  lemma PutTwo<T>(s: seq<T>, k: nat, a: T, b: T, i: nat)
    requires k <= |s| && i < |s| + 2
    ensures |s[..k] + [a, b] + s[k..]| == |s| + 2
    ensures (s[..k] + [a, b] + s[k..])[i] == if i < k then s[i] else if i == k then a else if i == k + 1 then b else s[i - 2]
  {
  }

  lemma MarksWithAt(s: seq<Marker>, k: nat, a: Marker, b: Marker, i: nat)
    requires k <= |s| && i < |s| + 2
    ensures |Marks(s[..k] + [a, b] + s[k..])| == |s| + 2
    ensures Marks(s[..k] + [a, b] + s[k..])[i]
         == if i < k then Marks(s)[i] else if i == k then Mark(a.backup, a.sector)
            else if i == k + 1 then Mark(b.backup, b.sector) else Marks(s)[i - 2]
  {
    hide Marks;
    PutTwo(s, k, a, b, i);
    var r := s[..k] + [a, b] + s[k..];
    assert Marks(r)[i] == Mark(r[i].backup, r[i].sector);
  }

  /** Markers of a list with two put in. */
  lemma MarksWith(s: seq<Marker>, k: nat, a: Marker, b: Marker)
    requires k <= |s|
    ensures Marks(s[..k] + [a, b] + s[k..])
         == Marks(s)[..k] + [Mark(a.backup, a.sector), Mark(b.backup, b.sector)] + Marks(s)[k..]
  {
    hide Marks;
    MarksWithAt(s, k, a, b, 0);
    var left, m := Marks(s[..k] + [a, b] + s[k..]), Marks(s);
    var c, d := Mark(a.backup, a.sector), Mark(b.backup, b.sector);
    var right := m[..k] + [c, d] + m[k..];
    forall i | 0 <= i < |left| ensures left[i] == right[i] {
      MarksWithAt(s, k, a, b, i);
      PutTwo(m, k, c, d, i);
    }
  }

  lemma CutOne<T>(s: seq<T>, p: nat, i: nat)
    requires p + 1 < |s| && i + 1 < |s|
    ensures |s[..p + 1] + s[p + 2..]| == |s| - 1
    ensures (s[..p + 1] + s[p + 2..])[i] == if i <= p then s[i] else s[i + 1]
  {
  }

  lemma MarksWithout(s: seq<Marker>, p: nat)
    requires p + 1 < |s|
    ensures Marks(s[..p + 1] + s[p + 2..]) == Marks(s)[..p + 1] + Marks(s)[p + 2..]
  {
    hide Marks;
    var r, m := s[..p + 1] + s[p + 2..], Marks(s);
    forall i | 0 <= i < |r| ensures Marks(r)[i] == (m[..p + 1] + m[p + 2..])[i] {
      CutOne(s, p, i);
      CutOne(m, p, i);
    }
  }

  lemma MarksReplaced(s: seq<Marker>, a: Marker, b: Marker)
    requires |s| > 0
    ensures Marks([a, b] + s[1..]) == [Mark(a.backup, a.sector), Mark(b.backup, b.sector)] + Marks(s)[1..]
  {
    hide Marks;
    var r := [a, b] + s[1..];
    forall i | 0 <= i < |r|
      ensures Marks(r)[i] == ([Mark(a.backup, a.sector), Mark(b.backup, b.sector)] + Marks(s)[1..])[i]
    {
      assert r[i] == if i == 0 then a else if i == 1 then b else s[i - 1];
    }
  }

  class MarkerList {
    var first: Marker?
    ghost var nodes: seq<Marker>

    ghost predicate Linked()
      reads this`first, this`nodes, nodes`next
    {
      first == At(nodes, 0) && Chain(nodes)
    }

    ghost function View(): seq<Mark>
      reads this`nodes, nodes`backup, nodes`sector
    {
      Marks(nodes)
    }

    /** A volume of which nothing is backed up yet. */
    constructor ()
      ensures Linked() && View() == [Stop(0)] && fresh(nodes)
    {
      var head := new Marker(false, 0, null);
      first := head;
      nodes := [head];
    }

    lemma LinkedIs()
      requires Linked()
      ensures Distinct(nodes) && |View()| == |nodes|
    {
    }

    /** The first node that is not before the sector, and the one before that. */
    method Seek(sector: nat) returns (prev: Marker?, cur: Marker?, ghost k: nat)
      requires Linked()
      ensures cur == At(nodes, Find(View(), sector)) && prev == At(nodes, Find(View(), sector) - 1)
      ensures k == Find(View(), sector) <= |nodes| == |View()|
    {
      prev, cur, k := null, first, 0;
      while cur != null && cur.sector < sector
        invariant 0 <= k <= |nodes| && cur == At(nodes, k) && prev == At(nodes, k - 1)
        invariant forall i :: 0 <= i < k ==> nodes[i].sector < sector
        decreases |nodes| - k
      {
        assert nodes[k].next == At(nodes, k + 1);
        prev, cur, k := cur, cur.next, k + 1;
      }
      FindIs(View(), sector, k);
    }

    /** Puts the chained a and b between prev and the node after it. */
    method InsertTwo(prev: Marker?, a: Marker, b: Marker, ghost k: nat)
      requires Linked() && k <= |nodes| && prev == At(nodes, k - 1)
      requires a !in nodes && b !in nodes && a != b && a.next == b && b.next == At(nodes, k)
      modifies this`first, this`nodes, nodes`next
      ensures Linked() && nodes == old(nodes)[..k] + [a, b] + old(nodes)[k..]
    {
      if prev == null {
        first := a;
      } else {
        prev.next := a;
      }
      ChainWith(nodes, k, a, b);
      nodes := nodes[..k] + [a, b] + nodes[k..];
    }

    /** The first marker gives way to a and b. */
    method ReplaceFirst(a: Marker, b: Marker)
      requires Linked() && |nodes| > 0 && a !in nodes && b !in nodes && a != b
      requires a.next == b && b.next == At(nodes, 1)
      modifies this`first, this`nodes
      ensures Linked() && nodes == [a, b] + old(nodes)[1..]
    {
      first := a;
      ChainFirst(nodes, a, b);
      nodes := [a, b] + nodes[1..];
    }

    method DropNext(at: Marker, ghost p: nat)
      requires Linked() && p + 1 < |nodes| && nodes[p] == at
      modifies this`nodes, at`next
      ensures Linked() && nodes == old(nodes)[..p + 1] + old(nodes)[p + 2..]
    {
      assert nodes[p].next == At(nodes, p + 1) && nodes[p + 1].next == At(nodes, p + 2);
      at.next := at.next.next;
      ChainWithout(nodes, p);
      nodes := nodes[..p + 1] + nodes[p + 2..];
    }

    /** A block that starts and stops between prev and the node after it. */
    method InsertBlock(prev: Marker?, cur: Marker?, sector: nat, count: nat, ghost k: nat) returns (start: Marker)
      requires Linked() && k <= |nodes| && prev == At(nodes, k - 1) && cur == At(nodes, k)
      modifies this`first, this`nodes, nodes`next
      ensures Linked() && k + 1 < |nodes| && nodes[k] == start && fresh({start, nodes[k + 1]})
      ensures nodes == old(nodes)[..k] + [start, nodes[k + 1]] + old(nodes)[k..]
      ensures View() == old(View())[..k] + [Start(sector), Stop(sector + count)] + old(View())[k..]
    {
      hide Marks, Chain;
      ghost var s := nodes;
      var stop := new Marker(false, sector + count, cur);
      start := new Marker(true, sector, stop);
      InsertTwo(prev, start, stop, k);
      MarksWith(s, k, start, stop);
    }

    /** A block from the beginning, in place of the first marker. */
    method InsertFirst(cur: Marker, sector: nat, count: nat) returns (stop: Marker)
      requires Linked() && |nodes| > 0 && cur == nodes[0]
      modifies this`first, this`nodes
      ensures Linked() && |nodes| > 1 && nodes[1] == stop && fresh({nodes[0], stop})
      ensures nodes == [nodes[0], stop] + old(nodes)[1..]
      ensures View() == [Start(sector), Stop(sector + count)] + old(View())[1..]
    {
      hide Marks;
      ghost var s := nodes;
      assert nodes[0].next == At(nodes, 1);
      stop := new Marker(false, sector + count, cur.next);
      var start := new Marker(true, sector, stop);
      ReplaceFirst(start, stop);
      MarksReplaced(s, start, stop);
    }

    /** Drops the nodes after at that lie before it or say the same. */
    method DropSuperfluous(at: Marker, ghost p: nat)
      requires Linked() && p < |nodes| && nodes[p] == at
      modifies this`nodes, at`next
      ensures Linked() && View() == Dropped(old(View()), p) && Members(nodes) <= old(Members(nodes))
    {
      hide Marks, Chain, Dropped;
      while at.next != null && (at.next.sector < at.sector || at.next.backup == at.backup)
        invariant Linked() && p < |nodes| && nodes[p] == at
        invariant Dropped(View(), p) == Dropped(old(View()), p) && Members(nodes) <= old(Members(nodes))
        decreases |nodes|
      {
        NextIs(p);
        DroppedOne(View(), p);
        MarksWithout(nodes, p);
        DropNext(at, p);
      }
      NextIs(p);
      DroppedOne(View(), p);
    }

    lemma DroppedOne(m: seq<Mark>, p: nat)
      ensures Superfluous(m, p) ==> p + 1 < |m| && Dropped(m, p) == Dropped(m[..p + 1] + m[p + 2..], p)
      ensures !Superfluous(m, p) ==> Dropped(m, p) == m
    {
    }

    lemma NextIs(p: nat)
      requires Linked() && p < |nodes|
      ensures nodes[p].next == At(nodes, p + 1) && |View()| == |nodes|
    {
    }

    lemma SetMark(s: seq<Marker>, m: seq<Mark>, k: nat)
      requires k < |s| == |m| && Distinct(s)
      requires forall i :: 0 <= i < |s| && i != k ==> m[i] == Mark(s[i].backup, s[i].sector)
      ensures Marks(s) == m[k := Mark(s[k].backup, s[k].sector)]
    {
      hide Marks;
    }

    method InsertAndDrop(prev: Marker?, cur: Marker?, sector: nat, count: nat, ghost k: nat)
      requires Linked() && k <= |nodes| == |View()| && prev == At(nodes, k - 1) && cur == At(nodes, k)
      modifies this, nodes
      ensures Linked() && fresh(Members(nodes) - old(Members(nodes)))
      ensures View() == Dropped(old(View())[..k] + [Start(sector), Stop(sector + count)] + old(View())[k..], k)
    {
      hide Marks, Chain, Dropped, Linked;
      var start := InsertBlock(prev, cur, sector, count, k);
      DropSuperfluous(start, k);
    }

    method MoveAndDrop(cur: Marker, sector: nat, ghost k: nat)
      requires Linked() && k < |nodes| == |View()| && nodes[k] == cur
      modifies this, nodes
      ensures Linked() && View() == Dropped(old(View())[k := Mark(old(cur.backup), sector)], k)
      ensures Members(nodes) <= old(Members(nodes))
    {
      hide Marks, Chain, Dropped;
      LinkedIs();
      ghost var m := View();
      cur.sector := sector;
      SetMark(nodes, m, k);
      DropSuperfluous(cur, k);
    }

    /** Adds a block of sectors; fails only when it would lie inside a block there is. */
    method Add(sector: nat, count: nat) returns (ok: bool)
      requires Linked()
      modifies this, nodes
      ensures Linked() && ok == Added(old(View()), sector, count).Some? && fresh(Members(nodes) - old(Members(nodes)))
      ensures View() == if ok then Added(old(View()), sector, count).value else old(View())
    {
      hide Marks, Chain, Dropped, Find, Linked;
      LinkedIs();
      ghost var m := View();
      var prev, cur;
      ghost var k;
      prev, cur, k := Seek(sector);
      if cur == null {
        assert m == m[..k] && m[k..] == [];
        assert m[..k] + [Start(sector), Stop(sector + count)] + m[k..] == m + [Start(sector), Stop(sector + count)];
        InsertAndDrop(prev, cur, sector, count, k);
      } else if cur.backup {
        if sector + count >= cur.sector {
          MoveAndDrop(cur, sector, k);
        } else {
          InsertAndDrop(prev, cur, sector, count, k);
        }
      } else if prev != null && cur.sector < sector + count {
        MoveAndDrop(cur, sector + count, k);
      } else if prev == null {
        var stop := InsertFirst(cur, sector, count);
        DropSuperfluous(stop, 1);
      } else {
        return false;
      }
      ok := true;
    }
  }

  /** There is only one place that fits. */
  lemma {:induction false} FindIs(m: seq<Mark>, sector: nat, k: nat)
    requires k <= |m| && (forall i :: 0 <= i < k ==> m[i].sector < sector) && (k < |m| ==> m[k].sector >= sector)
    ensures Find(m, sector) == k
  {
    if k == 0 {
    } else {
      assert m[0].sector < sector;
      FindIs(m[1..], sector, k - 1);
    }
  }
}
