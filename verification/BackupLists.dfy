/** One marker list for each volume: picking the volume, joining the lists, and copying their blocks out. */
module BackupLists {
  import opened Wrappers
  import opened Nodes
  import opened BlockMarks
  import opened BackupList
  import opened BackupBlocks

  /** Walks the volumes to the one that has the sector. */
  method FindVolume(partstart: seq<nat>, sector: nat) returns (v: nat)
    requires |partstart| >= 2 && sector < partstart[|partstart| - 1]
    ensures v == VolumeOf(partstart, sector)
  {
    v := 0;
    assert partstart[0..] == partstart;
    while partstart[v + 1] <= sector
      invariant v + 1 < |partstart|
      invariant VolumeOf(partstart, sector) == v + VolumeOf(partstart[v..], sector)
      decreases |partstart| - v
    {
      assert partstart[v..][1..] == partstart[v + 1..];
      v := v + 1;
    }
  }

  /** Adds a block to the list of its volume, and leaves the other lists alone. */
  method AddBlock(lists: seq<MarkerList>, partstart: seq<nat>, sector: nat, count: nat) returns (ok: bool)
    requires |lists| + 1 == |partstart| && |lists| > 0 && sector < partstart[|lists|]
    requires lists[VolumeOf(partstart, sector)].Linked()
    modifies lists[VolumeOf(partstart, sector)], lists[VolumeOf(partstart, sector)].nodes
    ensures lists[VolumeOf(partstart, sector)].Linked()
    ensures var v := VolumeOf(partstart, sector); fresh(Members(lists[v].nodes) - old(Members(lists[v].nodes)))
    ensures ok == Added(old(lists[VolumeOf(partstart, sector)].View()), sector, count).Some?
    ensures lists[VolumeOf(partstart, sector)].View()
         == var was := old(lists[VolumeOf(partstart, sector)].View());
            if ok then Added(was, sector, count).value else was
  {
    hide VolumeOf, Added;
    var v := FindVolume(partstart, sector);
    ok := lists[v].Add(sector, count);
  }

  /* ---------- one list of all ---------- */

  /** Node k is the last one of a list, when the lists from number from on are still apart. */
  ghost predicate Ends(cuts: seq<nat>, from: nat, k: int) {
    exists j :: from <= j < |cuts| && cuts[j] == k + 1
  }

  /** The nodes of all lists one after the other, each list beginning at its cut and linked by itself. */
  ghost predicate CutUp(all: seq<Marker>, cuts: seq<nat>, from: nat)
    reads all`next
  {
    && Distinct(all) && |cuts| > 0 && cuts[0] == 0
    && (forall i, j :: 0 <= i < j < |cuts| ==> cuts[i] < cuts[j])
    && (forall j :: 0 <= j < |cuts| ==> cuts[j] < |all|)
    && forall k {:trigger all[k].next} :: 0 <= k < |all| ==>
         all[k].next == if Ends(cuts, from, k) then null else At(all, k + 1)
  }

  function EndOf(cuts: seq<nat>, n: nat, i: nat): nat
    requires i < |cuts|
  {
    if i + 1 < |cuts| then cuts[i + 1] else n
  }

  /** Walks to the last node of the list that has node k. */
  method ToEnd(start: Marker, ghost all: seq<Marker>, ghost cuts: seq<nat>, ghost i: nat) returns (last: Marker)
    requires CutUp(all, cuts, i + 1) && i < |cuts| && all[cuts[i]] == start
    ensures cuts[i] < EndOf(cuts, |all|, i) <= |all| && last == all[EndOf(cuts, |all|, i) - 1]
  {
    last := start;
    ghost var k, end := cuts[i], EndOf(cuts, |all|, i);
    while last.next != null
      invariant cuts[i] <= k < end && last == all[k]
      decreases end - k
    {
      NotLast(all, cuts, i, k);
      last, k := last.next, k + 1;
    }
    NotLast(all, cuts, i, k);
  }

  lemma NotLast(all: seq<Marker>, cuts: seq<nat>, i: nat, k: nat)
    requires CutUp(all, cuts, i + 1) && i < |cuts| && cuts[i] <= k < EndOf(cuts, |all|, i)
    ensures all[k].next == null <==> k + 1 == EndOf(cuts, |all|, i)
    ensures k + 1 < EndOf(cuts, |all|, i) ==> all[k].next == all[k + 1]
  {
    if i + 1 < |cuts| && k + 1 == cuts[i + 1] { assert Ends(cuts, i + 1, k); }
    assert all[k].next == if Ends(cuts, i + 1, k) then null else At(all, k + 1);
    if k + 1 < EndOf(cuts, |all|, i) {
      forall j | i + 1 <= j < |cuts| ensures cuts[j] != k + 1 {}
    }
  }

  /** Setting the link before a cut joins it. */
  lemma JoinedAt(all: seq<Marker>, cuts: seq<nat>, i: nat)
    requires 0 < i < |cuts| && Distinct(all) && cuts[0] == 0
    requires forall i, j :: 0 <= i < j < |cuts| ==> cuts[i] < cuts[j]
    requires forall j :: 0 <= j < |cuts| ==> cuts[j] < |all|
    requires forall k {:trigger all[k].next} :: 0 <= k < |all| ==>
               all[k].next == if k == cuts[i] - 1 then all[cuts[i]] else if Ends(cuts, i, k) then null else At(all, k + 1)
    ensures CutUp(all, cuts, i + 1)
  {
    forall k {:trigger all[k].next} | 0 <= k < |all|
      ensures all[k].next == if Ends(cuts, i + 1, k) then null else At(all, k + 1)
    {
      if Ends(cuts, i, k) && k != cuts[i] - 1 {
        var j :| i <= j < |cuts| && cuts[j] == k + 1;
        assert j > i;
      }
      if Ends(cuts, i + 1, k) {
        var j :| i + 1 <= j < |cuts| && cuts[j] == k + 1;
        assert cuts[i] < cuts[j] && Ends(cuts, i, k);
      }
    }
  }

  lemma NoCutsLeft(all: seq<Marker>, cuts: seq<nat>)
    requires CutUp(all, cuts, |cuts|)
    ensures Chain(all)
  {
    forall k {:trigger all[k].next} | 0 <= k < |all| ensures all[k].next == At(all, k + 1) {
      assert !Ends(cuts, |cuts|, k);
    }
  }

  /** Chains the lists together in order; nothing but links changes. */
  method Concat(heads: seq<Marker>, ghost all: seq<Marker>, ghost cuts: seq<nat>) returns (res: Marker?)
    requires CutUp(all, cuts, 1) && |heads| == |cuts|
    requires forall i :: 0 <= i < |cuts| ==> heads[i] == all[cuts[i]]
    modifies all`next
    ensures Chain(all) && res == At(all, 0)
  {
    hide Ends;
    res := heads[0];
    var last := ToEnd(heads[0], all, cuts, 0);
    var i := 1;
    while i < |heads|
      invariant 0 < i <= |heads| && CutUp(all, cuts, i)
      invariant i < |heads| ==> last == all[cuts[i] - 1]
    {
      last.next := heads[i];
      JoinedAt(all, cuts, i);
      last := ToEnd(heads[i], all, cuts, i);
      i := i + 1;
    }
    NoCutsLeft(all, cuts);
  }

  /* ---------- the portable array ---------- */

  lemma {:induction false} StartCount(m: seq<Mark>)
    requires |m| > 0 ==> !m[|m| - 1].backup
    ensures |BlocksOf(m)| == Backups(m)
  {
    if m == [] {
    } else {
      StartCount(m[1..]);
    }
  }

  function Backups(m: seq<Mark>): nat {
    if m == [] then 0 else Backups(m[1..]) + if m[0].backup then 1 else 0
  }

  /** What the markers from k on still give. */
  lemma BlocksStep(m: seq<Mark>, k: nat)
    requires k < |m|
    ensures m[k].backup && k + 1 < |m| ==>
              var b := Block(m[k].sector, m[k + 1].sector - m[k].sector);
              && BlocksOf(m[k..]) == [b] + BlocksOf(m[k + 1..])
              && Sectors(BlocksOf(m[k..])) == b.sectors + Sectors(BlocksOf(m[k + 1..]))
    ensures !(m[k].backup && k + 1 < |m|) ==> BlocksOf(m[k..]) == BlocksOf(m[k + 1..])
  {
    assert m[k..][1..] == m[k + 1..];
    if m[k].backup && k + 1 < |m| {
      var b := Block(m[k].sector, m[k + 1].sector - m[k].sector);
      assert BlocksOf(m[k..]) == [b] + BlocksOf(m[k + 1..]);
      assert ([b] + BlocksOf(m[k + 1..]))[1..] == BlocksOf(m[k + 1..]);
    }
  }

  lemma NodeFacts(nodes: seq<Marker>, k: nat)
    requires Chain(nodes) && k < |nodes|
    ensures nodes[k].next == At(nodes, k + 1)
    ensures |Marks(nodes)| == |nodes| && Marks(nodes)[k] == Mark(nodes[k].backup, nodes[k].sector)
  {
  }

  lemma NoBlocks(m: seq<Mark>)
    ensures m[0..] == m && BlocksOf(m[|m|..]) == [] && Sectors([]) == 0
  {
  }

  /** Copies each block with its size; total grows by all of their sectors. */
  method CopyBlocks(first: Marker?, ghost nodes: seq<Marker>, blocks: array<Block>, total: int) returns (nsectors: int)
    requires first == At(nodes, 0) && Chain(nodes) && (|nodes| > 0 ==> !nodes[|nodes| - 1].backup)
    requires blocks.Length == |BlocksOf(Marks(nodes))|
    modifies blocks
    ensures blocks[..] == BlocksOf(Marks(nodes)) && nsectors == total + Sectors(BlocksOf(Marks(nodes)))
  {
    hide Marks, Chain, BlocksOf, Sectors;
    ghost var m := Marks(nodes);
    ghost var all := BlocksOf(m);
    nsectors := total;
    var cur, count := first, 0;
    ghost var k := 0;
    NoBlocks(m);
    assert all[0..] == all;
    while cur != null
      invariant 0 <= k <= |nodes| == |m| && cur == At(nodes, k) && 0 <= count <= |all|
      invariant all[count..] == BlocksOf(m[k..]) && forall i :: 0 <= i < count ==> blocks[i] == all[i]
      invariant nsectors + Sectors(all[count..]) == total + Sectors(all)
      decreases |nodes| - k
    {
      CopyStep(nodes, all, k, count);
      if cur.backup {
        blocks[count] := Block(cur.sector, cur.next.sector - cur.sector);
        nsectors := nsectors + blocks[count].sectors;
        count := count + 1;
      }
      cur, k := cur.next, k + 1;
    }
    assert m[k..] == m[|m|..] && all[count..] == [];
  }

  /** Counts the blocks, makes room for them, and copies them. */
  method AddBlocks(first: Marker?, ghost nodes: seq<Marker>, total: int)
    returns (nblocks: nat, blocks: array<Block>, nsectors: int)
    requires first == At(nodes, 0) && Chain(nodes) && (|nodes| > 0 ==> !nodes[|nodes| - 1].backup)
    ensures fresh(blocks) && blocks[..] == BlocksOf(Marks(nodes)) && nblocks == blocks.Length
    ensures nsectors == total + Sectors(BlocksOf(Marks(nodes)))
  {
    hide Marks, Chain, BlocksOf, Sectors;
    if first != null { NodeFacts(nodes, |nodes| - 1); }
    StartCount(Marks(nodes));
    nblocks := CountBlocks(first, nodes);
    blocks := new Block[nblocks](_ => Block(0, 0));
    nsectors := CopyBlocks(first, nodes, blocks, total);
  }

  /** The next node and the next block of those still to copy. */
  lemma CopyStep(nodes: seq<Marker>, all: seq<Block>, k: nat, count: nat)
    requires Chain(nodes) && k < |nodes| && !nodes[|nodes| - 1].backup
    requires count <= |all| && all[count..] == BlocksOf(Marks(nodes)[k..])
    ensures |Marks(nodes)| == |nodes| && nodes[k].next == At(nodes, k + 1)
    ensures !nodes[k].backup ==> all[count..] == BlocksOf(Marks(nodes)[k + 1..])
    ensures nodes[k].backup ==>
              && nodes[k].next != null && count < |all| && all[count + 1..] == BlocksOf(Marks(nodes)[k + 1..])
              && all[count] == Block(nodes[k].sector, nodes[k].next.sector - nodes[k].sector)
              && Sectors(all[count..]) == all[count].sectors + Sectors(all[count + 1..])
  {
    hide Marks, Chain, BlocksOf, Sectors;
    var m := Marks(nodes);
    NodeFacts(nodes, k);
    BlocksStep(m, k);
    if nodes[k].backup {
      NodeFacts(nodes, k + 1);
      Behead(all, count, Block(m[k].sector, m[k + 1].sector - m[k].sector), BlocksOf(m[k + 1..]));
    }
  }

  lemma Behead<T>(s: seq<T>, n: nat, x: T, rest: seq<T>)
    requires n <= |s| && s[n..] == [x] + rest
    ensures n < |s| && s[n] == x && s[n + 1..] == rest
  {
    assert s[n..][0] == x && s[n..][1..] == rest;
  }

  method CountBlocks(first: Marker?, ghost nodes: seq<Marker>) returns (n: nat)
    requires first == At(nodes, 0) && Chain(nodes)
    ensures n == Backups(Marks(nodes))
  {
    hide Marks;
    ghost var m := Marks(nodes);
    n := 0;
    var cur := first;
    ghost var k := 0;
    assert m[0..] == m;
    while cur != null
      invariant 0 <= k <= |nodes| && cur == At(nodes, k) && n + Backups(m[k..]) == Backups(m)
      decreases |nodes| - k
    {
      assert nodes[k].next == At(nodes, k + 1) && m[k..][1..] == m[k + 1..];
      if cur.backup { n := n + 1; }
      cur, k := cur.next, k + 1;
    }
  }

  /* ---------- all of it ---------- */

  lemma BothDistinct(s: seq<Marker>, t: seq<Marker>)
    requires Distinct(s) && Distinct(t) && Members(s) !! Members(t)
    ensures Distinct(s + t)
  {
    forall i, j | 0 <= i < j < |s + t| ensures (s + t)[i] != (s + t)[j] {
      if i < |s| <= j { assert s[i] in Members(s) && t[j - |s|] in Members(t); }
    }
  }

  /** Another list behind those that are still apart. */
  lemma CutMore(all: seq<Marker>, cuts: seq<nat>, s: seq<Marker>)
    requires CutUp(all, cuts, 1) && Chain(s) && s != [] && Members(all) !! Members(s)
    ensures CutUp(all + s, cuts + [|all|], 1)
  {
    BothDistinct(all, s);
    var n, now, more := |all|, all + s, cuts + [|all|];
    forall k {:trigger now[k].next} | 0 <= k < |now|
      ensures now[k].next == if Ends(more, 1, k) then null else At(now, k + 1)
    {
      if Ends(cuts, 1, k) {
        var j :| 1 <= j < |cuts| && cuts[j] == k + 1;
        assert more[j] == k + 1;
      }
      if Ends(more, 1, k) {
        var j :| 1 <= j < |more| && more[j] == k + 1;
        assert j == |cuts| || Ends(cuts, 1, k);
      }
      if k == n - 1 { assert more[|cuts|] == k + 1; }
      if k < n {
        assert all[k].next == if Ends(cuts, 1, k) then null else At(all, k + 1);
      } else {
        assert s[k - n].next == At(s, k - n + 1);
      }
    }
  }

  lemma CutFirst(s: seq<Marker>)
    requires Chain(s) && s != []
    ensures CutUp(s, [0], 1)
  {
  }

  /** No two lists have a node in common. */
  ghost predicate Separated(lists: seq<MarkerList>)
    reads lists
  {
    forall i, j :: 0 <= i < j < |lists| ==> lists[i] != lists[j] && Members(lists[i].nodes) !! Members(lists[j].nodes)
  }

  /** Every list is a list, of nodes among these. */
  ghost predicate Within(lists: seq<MarkerList>, all: set<Marker>)
    reads lists, all
  {
    forall v :: 0 <= v < |lists| ==> Members(lists[v].nodes) <= all && Inside(lists[v], all) && lists[v].Linked()
  }

  ghost predicate Inside(list: MarkerList, all: set<Marker>)
    reads list
  {
    forall n :: n in list.nodes ==> n in all
  }

  /** A list for each volume, with nothing backed up yet. */
  method NewLists(n: nat) returns (lists: seq<MarkerList>, ghost all: set<Marker>)
    ensures |lists| == n && fresh(lists) && fresh(all) && Separated(lists) && Within(lists, all)
    ensures forall v :: 0 <= v < n ==> lists[v].View() == [Stop(0)]
  {
    hide Chain, Marks;
    lists, all := [], {};
    while |lists| < n
      invariant |lists| <= n && fresh(lists) && fresh(all) && Separated(lists) && Within(lists, all)
      invariant forall v :: 0 <= v < |lists| ==> lists[v].View() == [Stop(0)]
    {
      var list := new MarkerList();
      lists, all := lists + [list], all + Members(list.nodes);
    }
  }

  /** Adds a block to the list of its volume; the others stay as they are, and share no node with it. */
  method AddOne(lists: seq<MarkerList>, partstart: seq<nat>, r: Range, ghost all: set<Marker>) returns (ok: bool, ghost more: set<Marker>)
    requires |lists| + 1 == |partstart| && |lists| > 0 && r.sector < partstart[|lists|]
    requires Separated(lists) && Within(lists, all)
    modifies lists, all
    ensures Separated(lists) && Within(lists, more) && all <= more && fresh(more - all)
    ensures var v := VolumeOf(partstart, r.sector);
            && ok == Added(old(lists[v].View()), r.sector, r.count).Some?
            && (ok ==> lists[v].View() == Added(old(lists[v].View()), r.sector, r.count).value)
            && forall u :: 0 <= u < |lists| && u != v ==> lists[u].View() == old(lists[u].View())
  {
    hide VolumeOf, Added, Chain, Marks;
    ghost var v := VolumeOf(partstart, r.sector);
    ghost var was := lists[v].nodes;
    label before:
    ok := AddBlock(lists, partstart, r.sector, r.count);
    more := all + Members(lists[v].nodes);
    forall u | 0 <= u < |lists| && u != v
      ensures lists[u].nodes == old@before(lists[u].nodes) && lists[u].Linked() && lists[u].View() == old@before(lists[u].View())
      ensures Members(lists[u].nodes) !! Members(lists[v].nodes)
    {
      Others(lists[u].nodes, was);
    }
  }

  lemma Others(s: seq<Marker>, t: seq<Marker>)
    requires Members(s) !! Members(t)
    ensures forall n :: n in s ==> n !in t
  {
    forall n | n in s ensures n !in t { assert n in Members(s); }
  }

  lemma NoneAdded(partstart: seq<nat>, rs: seq<Range>)
    requires |partstart| >= 2
    ensures AddAll(partstart, rs[..0]) == Some(seq(|partstart| - 1, _ => [Stop(0)]))
  {
  }

  lemma OneAdded(partstart: seq<nat>, rs: seq<Range>, i: nat)
    requires |partstart| >= 2 && i < |rs| && forall r :: r in rs ==> r.sector < partstart[|partstart| - 1]
    requires AddAll(partstart, rs[..i]).Some?
    ensures var vols, v := AddAll(partstart, rs[..i]).value, VolumeOf(partstart, rs[i].sector);
            && v < |vols|
            && match Added(vols[v], rs[i].sector, rs[i].count)
               case None => AddAll(partstart, rs[..i + 1]) == None
               case Some(m) => AddAll(partstart, rs[..i + 1]) == Some(vols[v := m])
  {
    hide VolumeOf, Added;
    assert rs[..i + 1][..i] == rs[..i];
  }

  /** Once a block fails the rest is not added. */
  lemma {:induction false} NeverAdded(partstart: seq<nat>, rs: seq<Range>, i: nat)
    requires |partstart| >= 2 && i <= |rs| && forall r :: r in rs ==> r.sector < partstart[|partstart| - 1]
    requires AddAll(partstart, rs[..i]) == None
    ensures AddAll(partstart, rs) == None
    decreases |rs| - i
  {
    if i == |rs| {
      assert rs[..i] == rs;
    } else {
      assert rs[..i + 1][..i] == rs[..i];
      NeverAdded(partstart, rs, i + 1);
    }
  }

  /** Adds blocks to the lists of their volumes, as long as that succeeds. */
  method AddRanges(lists: seq<MarkerList>, partstart: seq<nat>, rs: seq<Range>, ghost all: set<Marker>)
    returns (ok: bool, ghost more: set<Marker>)
    requires |partstart| >= 2 && |lists| + 1 == |partstart| && forall r :: r in rs ==> r.sector < partstart[|partstart| - 1]
    requires Separated(lists) && Within(lists, all) && forall v :: 0 <= v < |lists| ==> lists[v].View() == [Stop(0)]
    modifies lists, all
    ensures Separated(lists) && Within(lists, more) && all <= more && fresh(more - all)
    ensures ok == AddAll(partstart, rs).Some?
    ensures ok ==> forall v :: 0 <= v < |lists| ==> lists[v].View() == AddAll(partstart, rs).value[v]
  {
    hide VolumeOf, Added, AddAll, Separated, Within, MarkerList.View;
    NoneAdded(partstart, rs);
    ok, more := true, all;
    var i := 0;
    while i < |rs|
      invariant 0 <= i <= |rs| && AddAll(partstart, rs[..i]).Some?
      invariant Separated(lists) && Within(lists, more) && all <= more && fresh(more - all)
      invariant forall v :: 0 <= v < |lists| ==> lists[v].View() == AddAll(partstart, rs[..i]).value[v]
    {
      OneAdded(partstart, rs, i);
      ok, more := AddOne(lists, partstart, rs[i], more);
      if !ok {
        NeverAdded(partstart, rs, i + 1);
        return;
      }
      i := i + 1;
    }
    ok := true;
    assert rs[..i] == rs;
  }

  lemma FlattenMore(vols: seq<seq<Mark>>, i: nat)
    requires i < |vols|
    ensures Flatten(vols[..i + 1]) == Flatten(vols[..i]) + vols[i]
    decreases i
  {
    if i > 0 {
      FlattenMore(vols[1..], i - 1);
      assert vols[..i + 1][1..] == vols[1..][..i] && vols[..i][1..] == vols[1..][..i - 1];
    } else {
      assert vols[..1][1..] == [] && vols[..0] == [] && vols[0] + [] == vols[0];
    }
  }

  lemma MarksBoth(s: seq<Marker>, t: seq<Marker>)
    ensures Marks(s + t) == Marks(s) + Marks(t)
  {
    hide Marks;
    assert |Marks(s + t)| == |Marks(s) + Marks(t)|;
    forall i | 0 <= i < |s + t| ensures Marks(s + t)[i] == (Marks(s) + Marks(t))[i] {
      assert (s + t)[i] == if i < |s| then s[i] else t[i - |s|];
    }
  }

  /** The heads of the lists, and the nodes of all of them, cut up where the lists are. */
  method Heads(lists: seq<MarkerList>, ghost more: set<Marker>, ghost vols: seq<seq<Mark>>)
    returns (heads: seq<Marker>, ghost all: seq<Marker>, ghost cuts: seq<nat>)
    requires Separated(lists) && Within(lists, more) && |lists| == |vols| > 0
    requires forall v :: 0 <= v < |lists| ==> lists[v].View() == vols[v] != []
    ensures CutUp(all, cuts, 1) && |heads| == |cuts| && Members(all) <= more && Marks(all) == Flatten(vols)
    ensures forall i :: 0 <= i < |cuts| ==> heads[i] == all[cuts[i]]
  {
    hide Marks, Chain, CutUp, Flatten;
    HeadOf(lists[0], vols[0]);
    heads, all, cuts := [lists[0].first], lists[0].nodes, [0];
    CutFirst(all);
    FlattenMore(vols, 0);
    NoneFlat(vols);
    var i := 1;
    while i < |lists|
      invariant 1 <= i <= |lists| && |heads| == |cuts| == i && CutUp(all, cuts, 1) && Marks(all) == Flatten(vols[..i])
      invariant Members(all) <= more && forall v :: i <= v < |lists| ==> Members(all) !! Members(lists[v].nodes)
      invariant forall j :: 0 <= j < i ==> cuts[j] < |all| && heads[j] == all[cuts[j]]
    {
      ghost var s := lists[i].nodes;
      HeadOf(lists[i], vols[i]);
      FlattenMore(vols, i);
      MarksBoth(all, s);
      CutMore(all, cuts, s);
      MembersBoth(all, s);
      heads, all, cuts := heads + [lists[i].first], all + s, cuts + [|all|];
      i := i + 1;
    }
    assert vols[..i] == vols;
    CutsInside(all, cuts);
  }

  lemma CutsInside(all: seq<Marker>, cuts: seq<nat>)
    requires CutUp(all, cuts, 1)
    ensures forall j :: 0 <= j < |cuts| ==> cuts[j] < |all|
  {
  }

  lemma NoneFlat(vols: seq<seq<Mark>>)
    ensures Flatten(vols[..0]) == []
  {
  }

  lemma MembersBoth(s: seq<Marker>, t: seq<Marker>)
    ensures Members(s + t) == Members(s) + Members(t)
  {
  }

  lemma HeadOf(list: MarkerList, m: seq<Mark>)
    requires list.Linked() && list.View() == m && m != []
    ensures |list.nodes| == |m| && list.first == list.nodes[0] && Chain(list.nodes) && Marks(list.nodes) == m
  {
  }

  /** All volumes have a marker, and the last one is a stop. */
  ghost predicate Stopped(vols: seq<seq<Mark>>) {
    forall v :: 0 <= v < |vols| ==> vols[v] != [] && !vols[v][|vols[v]| - 1].backup
  }

  lemma VolumesStop(partstart: seq<nat>, rs: seq<Range>)
    requires Starts(partstart) && Disjoint(rs) && forall r :: r in rs ==> InVolume(partstart, r)
    requires forall r :: r in rs ==> r.sector < partstart[|partstart| - 1]
    ensures AddAll(partstart, rs).Some? && Stopped(AddAll(partstart, rs).value)
  {
    hide AddAll, Taken, Disjoint, InVolume;
    AddAllKeeps(partstart, rs);
    var vols: seq<seq<Mark>> := AddAll(partstart, rs).value;
    forall v | 0 <= v < |vols| ensures |vols[v]| > 0 && !vols[v][|vols[v]| - 1].backup { LastIsStop(vols, partstart, v); }
  }

  lemma LastStop(m: seq<Mark>, vols: seq<seq<Mark>>)
    requires m == Flatten(vols) && Stopped(vols) && vols != []
    ensures m != [] && !m[|m| - 1].backup
  {
    var n := |vols| - 1;
    FlattenMore(vols, n);
    assert vols[..n + 1] == vols;
  }

  /**
   * The backup's blocks from beginning to end: any disjoint blocks, in any order, are added to the linked
   * lists of their volumes, the lists are chained together, and the array that is copied out of them has
   * exactly the sectors of the blocks.
   */
  method BackupAll(partstart: seq<nat>, rs: seq<Range>) returns (nblocks: nat, blocks: array<Block>, nsectors: int)
    requires Starts(partstart) && Disjoint(rs) && forall r :: r in rs ==> InVolume(partstart, r)
    requires forall r :: r in rs ==> r.sector < partstart[|partstart| - 1]
    ensures nblocks == blocks.Length && nsectors == Counts(rs) == Sectors(blocks[..])
    ensures Ordered(blocks[..], 0, partstart[|partstart| - 1])
    ensures forall b :: b in blocks[..] ==> exists v :: Fits(b, partstart, v)
    ensures forall x :: InArray(blocks[..], x) <==> InSome(rs, x)
  {
    hide AddAll, Flatten, Marks, Disjoint, InVolume, BlocksOf, Sectors, Ordered, Fits, InArray, InSome, Counts, CutUp, Chain, Separated;
    BackupArray(partstart, rs);
    VolumesStop(partstart, rs);
    ghost var vols := AddAll(partstart, rs).value;
    var lists;
    ghost var more;
    lists, more := NewLists(|partstart| - 1);
    var ok;
    ok, more := AddRanges(lists, partstart, rs, more);
    var heads;
    ghost var all, cuts;
    heads, all, cuts := Heads(lists, more, vols);
    var first := Concat(heads, all, cuts);
    LastStop(Marks(all), vols);
    nblocks, blocks, nsectors := AddBlocks(first, all, 0);
  }
}
