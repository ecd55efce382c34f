/** The table as an array that is edited in place. */
module MacPart {
  import opened Wrappers
  import opened MacTable

  const NONE: Entry := Entry(0, 0, false, 0)

  /** No other entry starts where f lost its beginning. */
  lemma NoOtherInRange(es: seq<Entry>, f: nat, size: nat, i: nat)
    requires Separate(es) && f < |es| && 0 < size <= es[f].sectors
    ensures i < |es| && i != f ==> !(es[f].start <= es[i].start < es[f].start + size)
    ensures i < |Carved(es, f, size)| ==> !(es[f].start <= Carved(es, f, size)[i].start < es[f].start + size)
  {
    hide Carved, Origin;
    if i < |es| && i != f { assert Disjoint(es[i], es[f]); }
    if i < |Carved(es, f, size)| {
      CarvedSeparate(es, f, size);
      assert Disjoint(Carved(es, f, size)[i], Entry(es[f].start, size, false, 1));
    }
  }

  lemma FreeApart(es: seq<Entry>, i: int, j: int, last: int)
    requires Separate(es) && 0 <= j < |es| && es[j].free
    requires i >= 0 ==> i < |es| && es[i].free && es[i].End() == last
    ensures i >= 0 ==> es[j].start != last
  {
    if i >= 0 { assert !Touching(es[i], es[j]); }
  }

  /** Free space found so far is all too small, and the next free space lies behind it. */
  ghost predicate Scanned(es: seq<Entry>, from: nat, size: nat, cur: int, first: int, last: int) {
    && (if cur < 0 then first == last == 0
        else from <= cur < |es| && es[cur].free && es[cur].start == first && es[cur].End() == last)
    && forall j :: from <= j < |es| && es[j].free && es[j].start < first ==> es[j].sectors < size
  }

  /** The free entry nearest behind last, or none. */
  ghost predicate Nearest(es: seq<Entry>, from: nat, n: nat, last: int, next: nat) {
    && (next > 0 ==> from <= next < n <= |es| && es[next].free && es[next].start >= last)
    && forall j :: from <= j < n <= |es| && es[j].free && es[j].start >= last ==> next > 0 && es[next].start <= es[j].start
  }

  class PartitionTable {
    const devsize: nat
    const partitions: array<Entry>
    var count: nat
    var valid: bool

    ghost predicate Valid()
      reads this
    {
      partitions.Length == ALLOCATED && 0 < count < ALLOCATED
    }

    ghost function View(): seq<Entry>
      reads this, partitions
      requires Valid()
    {
      partitions[..count]
    }

    /** A new table: only the table's own partition. */
    constructor (devsize: nat)
      ensures Valid() && View() == [Entry(1, 63, false, 1)] && !valid && this.devsize == devsize && fresh(partitions)
      ensures partitions[1] == NONE
    {
      this.devsize := devsize;
      partitions := new Entry[ALLOCATED](_ => NONE);
      count := 1;
      valid := false;
      new;
      partitions[0] := Entry(1, 63, false, 1);
    }

    /** The number of the entry that starts first from a sector on, or zero. */
    method Closest(sector: nat) returns (partno: nat)
      requires Valid()
      ensures partno <= count && (partno == 0 <==> forall i :: 0 <= i < count ==> partitions[i].start < sector)
      ensures partno > 0 ==> partitions[partno - 1].start >= sector
      ensures forall i :: 0 <= i < count && partitions[i].start >= sector ==> partno > 0 && partitions[partno - 1].start <= partitions[i].start
    {
      partno := 0;
      var i := 0;
      while i < count
        invariant 0 <= i <= count && partno <= i
        invariant partno == 0 <==> forall j :: 0 <= j < i ==> partitions[j].start < sector
        invariant partno > 0 ==> partitions[partno - 1].start >= sector
        invariant forall j :: 0 <= j < i && partitions[j].start >= sector ==> partno > 0 && partitions[partno - 1].start <= partitions[j].start
      {
        if partitions[i].start >= sector && (partno < 1 || partitions[i].start < partitions[partno - 1].start) {
          partno := i + 1;
        }
        i := i + 1;
      }
    }

    /** Makes the rest of a new drive free space; there has to be room for the table. */
    method Validate() returns (r: int)
      requires Valid()
      requires valid || (View() == [Entry(1, 63, false, 1)] && partitions[1] == NONE)
      modifies this`count, this`valid, partitions
      ensures Valid()
      ensures old(valid) ==> r == 0 && count == old(count) && partitions[..] == old(partitions[..]) && valid
      ensures !old(valid) ==> r == (if devsize < 64 then -1 else 0) && valid == (devsize >= 64)
      ensures !old(valid) && devsize >= 64 ==>
                View() == [Entry(1, 63, false, 1)] + if devsize > 64 then [Entry(64, devsize - 64, true, 1)] else []
    {
      if valid { return 0; }
      assert partitions[0] == View()[0];
      var used, loop_ := false, 1;
      while loop_ < devsize
        invariant loop_ == if used then 64 else 1
        invariant count == 1 && partitions[0] == Entry(1, 63, false, 1) && partitions[1] == NONE && !valid
        decreases devsize - loop_
      {
        var partno := Closest(loop_);
        if partno == 0 { break; }
        used := true;
        loop_ := loop_ + partitions[partno - 1].sectors;
      }
      if loop_ > devsize { return -1; }
      if loop_ < devsize {
        partitions[count] := Entry(loop_, devsize - loop_, true, 1);
        count := count + 1;
      }
      if !used { return -1; }
      valid := true;
      assert View() == [partitions[0]] + if count == 2 then [partitions[1]] else [];
      return 0;
    }

    /** One past the last entry in use. */
    method SkipInUse() returns (startpart: nat)
      requires Valid()
      ensures startpart == FirstMovable(View())
    {
      var s := count - 1;
      assert partitions[..s + 1] == View();
      while s > 0 && partitions[s].refs <= 1
        invariant 0 <= s < count && FirstMovable(View()) == FirstMovable(partitions[..s + 1])
        decreases s
      {
        assert partitions[..s + 1][..s] == partitions[..s];
        s := s - 1;
      }
      return s + 1;
    }

    method FindNearest(startpart: nat, last: nat) returns (next: nat)
      requires Valid() && 1 <= startpart <= count
      ensures Nearest(View(), startpart, count, last, next)
    {
      next := 0;
      var i := startpart;
      while i < count
        invariant startpart <= i <= count && Nearest(View(), startpart, i, last, next)
      {
        if partitions[i].free && partitions[i].start >= last && (next == 0 || partitions[i].start < partitions[next].start) {
          next := i;
        }
        i := i + 1;
      }
    }

    /** The first free space that is large enough, as its range; none if there is none. */
    method FindSpace(startpart: nat, size: nat) returns (found: bool, first: nat, last: nat, ghost f: nat)
      requires Valid() && 1 <= startpart <= count && size > 0 && Separate(View())
      ensures found ==> f < count && Chosen(View(), startpart, f, size) && first == View()[f].start && last == View()[f].End()
      ensures !found ==> forall i :: !Candidate(View(), startpart, i, size)
    {
      hide Separate;
      first, last := 0, 0;
      ghost var cur: int := -1;
      ghost var es := View();
      while last - first < size
        invariant first <= last && Scanned(es, startpart, size, cur, first, last)
        decreases Beyond(es) - last
      {
        var next := FindNearest(startpart, last);
        if next == 0 {
          NoneLeft(es, startpart, size, cur, first, last);
          return false, 0, 0, 0;
        }
        ghost var was := last;
        ScannedMore(es, startpart, size, cur, first, last, next);
        EndBelow(es, next);
        if partitions[next].start == last {
          last := last + partitions[next].sectors;
        } else {
          first := partitions[next].start;
          last := first + partitions[next].sectors;
        }
        FreeApart(es, cur, next, was);
        cur := next;
      }
      found, f := true, cur;
    }

    /** Takes entry i out and moves the later ones up. */
    method RemoveAt(i: nat)
      requires Valid() && i < count && count > 1
      modifies this`count, partitions
      ensures Valid() && View() == old(View())[..i] + old(View())[i + 1..]
    {
      ghost var es := View();
      var k := i;
      while k + 1 < count
        invariant i <= k < count && count == old(count)
        invariant forall j :: 0 <= j < i ==> partitions[j] == es[j]
        invariant forall j :: i <= j < k ==> partitions[j] == es[j + 1]
        invariant forall j :: k <= j < count ==> partitions[j] == es[j]
      {
        partitions[k] := partitions[k + 1];
        k := k + 1;
      }
      count := count - 1;
      partitions[count] := NONE;
    }

    /** Moves the entries from p on down and puts e there. */
    method InsertAt(p: nat, e: Entry)
      requires Valid() && p <= count && count + 1 < ALLOCATED
      modifies this`count, partitions
      ensures Valid() && View() == Put(old(View()), p, e)
    {
      hide Put;
      ghost var es := View();
      var k := count;
      while k > p
        invariant p <= k <= count && count == old(count)
        invariant forall j :: 0 <= j < k ==> partitions[j] == es[j]
        invariant forall j :: k < j <= count ==> partitions[j] == es[j - 1]
      {
        partitions[k] := partitions[k - 1];
        k := k - 1;
      }
      partitions[p] := e;
      count := count + 1;
      ghost var now := View();
      assert forall j :: p < j < |now| ==> now[j] == es[j - 1];
      IsPut(now, es, p, e);
    }

    /** Takes the range first..last-1, the beginning of free entry f, off the table. */
    method TakeRange(startpart: nat, first: nat, last: nat, ghost f: nat, ghost size: nat)
      requires Valid() && count > 1 && Separate(View()) && 1 <= startpart <= f < count
      requires first == View()[f].start && last == first + size && 0 < size <= View()[f].sectors
      modifies this`count, partitions
      ensures Valid() && View() == Carved(old(View()), f, size)
    {
      hide Separate;
      ghost var es := View();
      var i := startpart;
      while i < count
        invariant Valid() && startpart <= i
        invariant View() == if i <= f then es else Carved(es, f, size)
        decreases |es| - i
      {
        ghost var was := View();
        if i < |es| { NoOtherInRange(es, f, size, i); }
        if partitions[i].start >= first && partitions[i].start < last {
          if partitions[i].start + partitions[i].sectors > last {
            partitions[i] := partitions[i].(sectors := partitions[i].sectors - (last - partitions[i].start), start := last);
            assert View() == was[i := partitions[i]];
          } else {
            RemoveAt(i);
          }
        }
        i := i + 1;
      }
    }

    /** Where the new entry goes: at the place asked for, or before the free space at the end of the table. */
    method PlaceFor(before: nat) returns (p: nat)
      requires Valid()
      ensures p == Position(View(), before) && 1 <= p <= count
    {
      p := before;
      if before > count || before == 0 {
        p := count;
        while p > 1 && partitions[p - 1].free
          invariant 1 <= p <= count && TrailingFree(View(), count) == TrailingFree(View(), p)
        {
          p := p - 1;
        }
      }
    }

    /**
     * Adds a partition before the one with this number, or before the free space at the end of the table
     * when it is zero, and gives its number; fails when there is no size, no room, no large enough free space behind the
     * entries in use, or an entry in use would get another number.
     */
    method Add(size: nat, number: nat) returns (r: int)
      requires Valid() && valid && count > 1 && Tiling(View(), devsize)
      modifies this`count, partitions
      ensures Valid() && count > 1 && Tiling(View(), devsize)
      ensures var es, before := old(View()), if number > 0 then number - 1 else 0;
              && (r < 0 <==> !MayAdd(es, size, before) || forall i :: !Candidate(es, FirstMovable(es), i, size))
              && (r < 0 ==> View() == es)
              && (r >= 0 ==> exists f :: Chosen(es, FirstMovable(es), f, size) && View() == Added(es, f, size, before)
                               && r == Position(Carved(es, f, size), before) + 1)
    {
      hide Tiling, Separate, Added, Carved, Put, FirstMovable;
      ghost var es := View();
      var before := if number > 0 then number - 1 else 0;
      if size == 0 { return -1; }
      TilingIsSeparate(es, devsize);
      var startpart := SkipInUse();
      if count + 1 >= ALLOCATED { return -1; }
      if before > 0 && before < startpart { return -1; }
      var found, first, last;
      ghost var f;
      found, first, last, f := FindSpace(startpart, size);
      if !found { return -1; }
      if last - first > size { last := first + size; }
      AddedKeeps(es, devsize, f, size, before);
      CarvedLength(es, f, size);
      TakeRange(startpart, first, last, f, size);
      var p := PlaceFor(before);
      InsertAt(p, Entry(first, last - first, false, 1));
      AddedIs(es, f, size, before);
      assert |View()| == count;
      assert Chosen(es, FirstMovable(es), f, size) && View() == Added(es, f, size, before);
      r := p + 1;
    }

    /** All free space, or none when no partition can be added. */
    method TotalFreeSpace() returns (total: nat)
      requires Valid() && valid
      ensures total == if count + 1 >= ALLOCATED then 0 else TotalFree(View())
    {
      if count + 1 >= ALLOCATED { return 0; }
      total := 0;
      var i := 0;
      assert partitions[..0] == [];
      while i < count
        invariant 0 <= i <= count && total == TotalFree(partitions[..i])
      {
        assert partitions[..i + 1][..i] == partitions[..i];
        if partitions[i].free { total := total + partitions[i].sectors; }
        i := i + 1;
      }
    }
  }

  lemma IsPut(now: seq<Entry>, es: seq<Entry>, p: nat, e: Entry)
    requires p <= |es| && |now| == |es| + 1
    requires (forall i :: 0 <= i < p ==> now[i] == es[i]) && now[p] == e && (forall i :: p < i < |now| ==> now[i] == es[i - 1])
    ensures now == Put(es, p, e)
  {
    hide Put;
    PutAt(es, p, e, 0);
    forall i | 0 <= i < |now| ensures now[i] == Put(es, p, e)[i] { PutAt(es, p, e, i); }
  }

  lemma TilingIsSeparate(es: seq<Entry>, devsize: nat)
    requires Tiling(es, devsize)
    ensures Separate(es)
  {
  }

  lemma CarvedLength(es: seq<Entry>, f: nat, size: nat)
    requires f < |es| && size <= es[f].sectors
    ensures |es| - 1 <= |Carved(es, f, size)| <= |es|
  {
  }

  lemma AddedIs(es: seq<Entry>, f: nat, size: nat, before: nat)
    requires f < |es| && size <= es[f].sectors
    ensures Added(es, f, size, before)
         == Put(Carved(es, f, size), Position(Carved(es, f, size), before), Entry(es[f].start, size, false, 1))
    ensures |Added(es, f, size, before)| == |Carved(es, f, size)| + 1
  {
  }

  function Beyond(es: seq<Entry>): nat {
    if es == [] then 0
    else if es[|es| - 1].End() > Beyond(es[..|es| - 1]) then es[|es| - 1].End() else Beyond(es[..|es| - 1])
  }

  lemma {:induction false} EndBelow(es: seq<Entry>, i: nat)
    requires i < |es|
    ensures es[i].End() <= Beyond(es)
  {
    if i >= |es| - 1 {
    } else {
      EndBelow(es[..|es| - 1], i);
    }
  }

  lemma NotInside(es: seq<Entry>, i: nat, j: nat)
    requires Separate(es) && i < |es| && j < |es| && i != j
    ensures !(es[i].start <= es[j].start < es[i].End())
  {
    assert Disjoint(es[i], es[j]);
  }

  lemma NoneLeft(es: seq<Entry>, from: nat, size: nat, cur: int, first: int, last: int)
    requires Separate(es) && Scanned(es, from, size, cur, first, last) && last - first < size && size > 0
    requires Nearest(es, from, |es|, last, 0)
    ensures forall i :: !Candidate(es, from, i, size)
  {
    forall i ensures !Candidate(es, from, i, size) {
      if from <= i < |es| && es[i].free && es[i].start >= first && 0 <= cur && i != cur { NotInside(es, cur, i); }
    }
  }

  lemma ScannedMore(es: seq<Entry>, from: nat, size: nat, cur: int, first: int, last: int, next: nat)
    requires Separate(es) && Scanned(es, from, size, cur, first, last) && last - first < size
    requires next > 0 && Nearest(es, from, |es|, last, next)
    ensures from <= next < |es| && es[next].free && es[next].sectors > 0 && es[next].start >= last
    ensures Scanned(es, from, size, next, es[next].start, es[next].End())
  {
    forall j | from <= j < |es| && es[j].free && es[j].start < es[next].start ensures es[j].sectors < size {
      if cur >= 0 && j != cur { NotInside(es, cur, j); }
    }
  }
}
