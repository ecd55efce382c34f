/** What the editing commands promise about the entries they are not asked to change,
    and what undoes what. */
module PartitionFacts {
  import opened Wrappers
  import opened PartitionTable

  /* ---------- conservation of allocated entries ---------- */

  /** Creating a partition adds it and leaves every other allocated entry as it was. */
  lemma CreateAddsOne(t: Table, name: string, kind: Kind, start: nat, blocks: nat, p: Part)
    requires Settled(t) && blocks > 0 && !p.kind.Free?
    requires Add(t, name, kind, start, blocks).Some?
    ensures multiset(Add(t, name, kind, start, blocks).value.base)[p]
         == multiset(t.base)[p] + if p == NewPart(name, kind, start, blocks) then 1 else 0
  {
    hide Settled, Add, FindContaining, Splice, PiecesByBase, PiecesByNumber, ActionFor;
    AddIsCut(t, name, kind, start, blocks);
    var i := FindContaining(t.base, start, blocks);
    var cur, q := t.base[i], NewPart(name, kind, start, blocks);
    RunReplacedBy(t.base, i, PiecesByBase(cur, q), p);
    OnlyNewIsAllocated(cur, q, p);
  }

  lemma RunReplacedBy(s: seq<Part>, i: nat, qs: seq<Part>, p: Part)
    requires i < |s| && p != s[i]
    ensures multiset(Splice(s, i, 1, qs))[p] == multiset(s)[p] + multiset(qs)[p]
  {
    BagSplice(s, i, 1, qs);
    assert s[i..i + 1] == [s[i]];
  }

  function Cut(t: Table, d: nat, xs: seq<Part>, i: nat, ys: seq<Part>): Table
    requires d < |t.disk| && i < |t.base|
  {
    t.(disk := Splice(t.disk, d, 1, xs), base := Splice(t.base, i, 1, ys))
  }

  /** A successful addition changes the table at one free entry. */
  lemma AddIsCut(t: Table, name: string, kind: Kind, start: nat, blocks: nat)
    requires Settled(t) && Add(t, name, kind, start, blocks).Some?
    ensures var i := FindContaining(t.base, start, blocks);
      var p := NewPart(name, kind, start, blocks);
      && i < |t.base| && t.base[i].kind.Free? && t.base[i].start <= start && p.End() <= t.base[i].End()
      && var d := IndexOfStart(t.disk, t.base[i].start);
      && d < |t.disk| && t.disk[d] == t.base[i]
      && var r := Add(t, name, kind, start, blocks).value;
      && r == Cut(t, d, PiecesByNumber(t.base[i], p), i, PiecesByBase(t.base[i], p)).(maxInMap := r.maxInMap)
      && (!kind.Map? ==> r.maxInMap == t.maxInMap)
  {
    hide Tiles, Sorted, SameParts, NoAdjacentFree, WellFormedParts, Splice, PiecesByBase, PiecesByNumber, Add;
    AddResult(t, name, kind, start, blocks);
    InDisk(t, FindContaining(t.base, start, blocks));
  }

  lemma OnlyNewIsAllocated(cur: Part, q: Part, p: Part)
    requires cur.start <= q.start && q.End() <= cur.End() && q.blocks > 0
    requires cur.kind.Free? && !p.kind.Free?
    ensures multiset(PiecesByBase(cur, q))[p] == if p == q then 1 else 0
  {
  }

  /** Freeing an entry removes it and leaves every other allocated entry as it was. */
  lemma DeleteRemovesOne(t: Table, n: int, p: Part)
    requires Settled(t) && 1 <= n <= |t.disk| && !t.disk[n - 1].kind.Map? && !p.kind.Free?
    ensures multiset(Delete(t, n).base)[p] as int == multiset(t.base)[p] as int - if p == t.disk[n - 1] then 1 else 0
  {
    hide Tiles, Sorted, SameParts, NoAdjacentFree, WellFormedParts, FreeUp;
    InBase(t, n - 1);
    FreeUpRemovesOne(t, IndexOfStart(t.base, t.disk[n - 1].start), p);
  }

  lemma FreeUpRemovesOne(t: Table, i: nat, p: Part)
    requires Core(t) && i < |t.base| && !p.kind.Free?
    ensures multiset(FreeUp(t, i).base)[p] as int == multiset(t.base)[p] as int - if p == t.base[i] then 1 else 0
  {
    hide Core, FreeUp, Splice;
    FreeUpBase(t, i);
    var lo := First(t.base, i);
    RunReplaced(t.base, lo, Last(t.base, i) - lo, FreedFrom(t.base, lo, i), p);
    OnlyOneIsAllocated(t.base, i, p);
  }

  lemma RunReplaced(s: seq<Part>, lo: nat, n: nat, f: Part, p: Part)
    requires lo + n <= |s| && p != f
    ensures multiset(Splice(s, lo, n, [f]))[p] as int == multiset(s)[p] as int - multiset(s[lo..lo + n])[p] as int
  {
    BagSplice(s, lo, n, [f]);
    assert s == s[..lo] + s[lo..lo + n] + s[lo + n..];
    assert multiset(s) == multiset(s[..lo]) + multiset(s[lo..lo + n]) + multiset(s[lo + n..]);
  }

  lemma OnlyOneIsAllocated(base: seq<Part>, i: nat, p: Part)
    requires i < |base| && !p.kind.Free?
    ensures multiset(base[First(base, i)..Last(base, i)])[p] == if p == base[i] then 1 else 0
  {
    var run := base[First(base, i)..Last(base, i)];
    if PrevFree(base, i) {
      if NextFree(base, i) { assert run == [base[i - 1], base[i], base[i + 1]]; } else { assert run == [base[i - 1], base[i]]; }
    } else {
      if NextFree(base, i) { assert run == [base[i], base[i + 1]]; } else { assert run == [base[i]]; }
    }
  }

  /* ---------- numbers after a move ---------- */

  /** The moved entry gets the number asked for exactly when it does not move up past
      others: moved up, it ends one short. A number past the end means the end. */
  lemma MovedNumber(t: Table, from: int, index: int)
    requires Core(t) && 1 <= from <= |t.disk| && index >= 1
    ensures Move(t, from, index).disk[MovedTo(|t.disk|, from, index) - 1] == t.disk[from - 1]
    ensures var wanted := if index > |t.disk| then |t.disk| else index;
      Move(t, from, index).disk[wanted - 1] == t.disk[from - 1] <==> index <= from || index > |t.disk|
  {
    hide Tiles, Sorted;
    var k := MovedTo(|t.disk|, from, index) - 1;
    var m := Move(t, from, index);
    MoveSameParts(t, from, index);
    assert m.disk[k] == t.disk[from - 1];
  }

  /** Asked to move up by one, an entry stays where it is. */
  lemma MoveUpByOneIsIdle(t: Table, from: int)
    requires 1 <= from < |t.disk|
    ensures Move(t, from, from + 1) == t
  {
    var rest := t.disk[..from - 1] + t.disk[from..];
    assert rest[..from - 1] + [t.disk[from - 1]] + rest[from - 1..] == t.disk;
  }

  /* ---------- deleting undoes creating ---------- */

  /** The number that a created partition has. */
  lemma CreatedNumber(t: Table, name: string, kind: Kind, start: nat, blocks: nat)
    requires Settled(t) && blocks > 0 && !kind.Free? && !kind.Map?
    requires Add(t, name, kind, start, blocks).Some?
    ensures var r := Add(t, name, kind, start, blocks).value;
      var k := IndexOfStart(r.disk, start);
      k < |r.disk| && r.disk[k] == NewPart(name, kind, start, blocks)
  {
    hide Tiles, Sorted, NoAdjacentFree, WellFormedParts, Add, FindContaining, MapBound, Splice;
    AddKeepsSettled(t, name, kind, start, blocks);
    AddIsCut(t, name, kind, start, blocks);
    var r := Add(t, name, kind, start, blocks).value;
    var cur, q := t.base[FindContaining(t.base, start, blocks)], NewPart(name, kind, start, blocks);
    var d := IndexOfStart(t.disk, cur.start);
    var a := if ActionFor(cur, start, blocks) == SPLIT then 1 else 0;
    assert PiecesByNumber(cur, q)[a] == q;
    CutAt(t.disk, d, PiecesByNumber(cur, q), a, q, a);
    IndexOfDistinct(r.disk, d + a);
  }

  /* The three steps of freeing an entry, on tables that differ from t only in that base[i],
     whose index by number is d, is replaced by xs in disk order and by ys in base order. */

  lemma CutAt(s: seq<Part>, d: nat, xs: seq<Part>, a: nat, f: Part, k: nat)
    requires d < |s| && a < |xs| && k < |xs|
    ensures d + a < |Splice(s, d, 1, xs)| && Splice(s, d, 1, xs)[d + a] == xs[a]
    ensures Splice(s, d, 1, xs)[d + a := f] == Splice(s, d, 1, xs[a := f])
    ensures Splice(Splice(s, d, 1, xs), d + k, 1, []) == Splice(s, d, 1, xs[..k] + xs[k + 1..])
  {
  }

  lemma CutAround(s: seq<Part>, d: nat, xs: seq<Part>)
    requires d < |s|
    ensures Splice(s, d, 1, [s[d]]) == s
    ensures |Splice(s, d, 1, xs)| == |s| - 1 + |xs|
    ensures d > 0 ==> Splice(s, d, 1, xs)[d - 1] == s[d - 1]
    ensures d + 1 < |s| ==> Splice(s, d, 1, xs)[d + |xs|] == s[d + 1]
  {
  }

  lemma SetStep(t: Table, d: nat, xs: seq<Part>, a: nat, i: nat, ys: seq<Part>, b: nat, f: Part)
    requires d < |t.disk| && i < |t.base| && Core(Cut(t, d, xs, i, ys))
    requires a < |xs| && b < |ys| && xs[a] == ys[b] && f == FreePart(ys[b].start, ys[b].blocks)
    ensures var r := Cut(t, d, xs, i, ys);
      i + b < |r.base| && r.base[i + b] == ys[b]
      && Core(SetPart(r, i + b, f)) && SetPart(r, i + b, f) == Cut(t, d, xs[a := f], i, ys[b := f])
  {
    hide Tiles, Sorted, Splice;
    var r := Cut(t, d, xs, i, ys);
    CutAt(t.disk, d, xs, a, f, a);
    CutAt(t.base, i, ys, b, f, b);
    CutAround(t.base, i, ys);
    IndexOfDistinct(r.disk, d + a);
    SetPartKeepsCore(r, i + b, f);
    SetIsSplice(r.disk, d + a, f);
    SetIsSplice(r.base, i + b, f);
  }

  lemma SetIsSplice(s: seq<Part>, k: nat, p: Part)
    requires k < |s|
    ensures Splice(s, k, 1, [p]) == s[k := p]
  {
  }

  function SetAndDrop(xs: seq<Part>, a: nat, m: Part, k: nat): seq<Part>
    requires a < |xs| && k < |xs|
  {
    xs[a := m][..k] + xs[a := m][k + 1..]
  }

  lemma NextStep(t: Table, d: nat, xs: seq<Part>, a: nat, k: nat, i: nat, ys: seq<Part>, b: nat)
    requires d < |t.disk| && i < |t.base| && Core(Cut(t, d, xs, i, ys))
    requires a < |xs| && k < |xs| && a != k && b + 1 < |ys| && xs[a] == ys[b] && xs[k] == ys[b + 1] && ys[b + 1].kind.Free?
    ensures var r, m := Cut(t, d, xs, i, ys), Resized(ys[b], ys[b].start, ys[b].blocks + ys[b + 1].blocks);
      i + b < |r.base| && CombineNext(r, i + b) == Cut(t, d, SetAndDrop(xs, a, m, k), i, SetAndDrop(ys, b, m, b + 1))
  {
    hide Tiles, Sorted, Splice, Merge, SameParts;
    var r, m := Cut(t, d, xs, i, ys), Resized(ys[b], ys[b].start, ys[b].blocks + ys[b + 1].blocks);
    CutAt(t.disk, d, xs, a, m, k);
    CutAt(t.disk, d, xs, k, m, k);
    CutAt(t.base, i, ys, b, m, b + 1);
    CutAt(t.base, i, ys, b + 1, m, b + 1);
    MergeAt(r, i + b, i + b, d + a, d + k);
    CutAt(t.disk, d, xs[a := m], a, m, k);
    CutAt(t.base, i, ys[b := m], b, m, b + 1);
  }

  lemma PrevStep(t: Table, d: nat, xs: seq<Part>, a: nat, k: nat, i: nat, ys: seq<Part>, b: nat)
    requires d < |t.disk| && i < |t.base| && Core(Cut(t, d, xs, i, ys))
    requires a < |xs| && k < |xs| && a != k && 0 < b < |ys| && xs[a] == ys[b] && xs[k] == ys[b - 1] && ys[b - 1].kind.Free?
    ensures var r, m := Cut(t, d, xs, i, ys), Resized(ys[b], ys[b - 1].start, ys[b - 1].blocks + ys[b].blocks);
      i + b < |r.base| && CombinePrev(r, i + b) == Cut(t, d, SetAndDrop(xs, a, m, k), i, SetAndDrop(ys, b, m, b - 1))
  {
    hide Tiles, Sorted, Splice, Merge, SameParts;
    var r, m := Cut(t, d, xs, i, ys), Resized(ys[b], ys[b - 1].start, ys[b - 1].blocks + ys[b].blocks);
    CutAt(t.disk, d, xs, a, m, k);
    CutAt(t.disk, d, xs, k, m, k);
    CutAt(t.base, i, ys, b, m, b - 1);
    CutAt(t.base, i, ys, b - 1, m, b - 1);
    MergeAt(r, i + b - 1, i + b, d + a, d + k);
    CutAt(t.disk, d, xs[a := m], a, m, k);
    CutAt(t.base, i, ys[b := m], b, m, b - 1);
  }

  /** Outside the cut, base[i]'s neighbours are not free. */
  lemma EdgeOfCut(t: Table, d: nat, xs: seq<Part>, i: nat, ys: seq<Part>)
    requires Settled(t) && d < |t.disk| && i < |t.base| && t.base[i].kind.Free? && |ys| > 0 && Core(Cut(t, d, xs, i, ys))
    ensures CombinePrev(Cut(t, d, xs, i, ys), i) == Cut(t, d, xs, i, ys)
    ensures CombineNext(Cut(t, d, xs, i, ys), i + |ys| - 1) == Cut(t, d, xs, i, ys)
    ensures t.base[i] == FreePart(t.base[i].start, t.base[i].blocks)
  {
    hide Tiles, Sorted, Splice, SameParts;
    CutAround(t.base, i, ys);
  }

  lemma CutWhole(t: Table, d: nat, i: nat)
    requires d < |t.disk| && i < |t.base| && t.disk[d] == t.base[i]
    ensures Cut(t, d, [t.base[i]], i, [t.base[i]]) == t
  {
    CutAround(t.disk, d, []);
    CutAround(t.base, i, []);
  }

  /** The whole of cur was used. */
  lemma FreeWhole(t: Table, d: nat, i: nat, p: Part)
    requires Settled(t) && d < |t.disk| && i < |t.base| && t.disk[d] == t.base[i] && t.base[i].kind.Free?
    requires p.start == t.base[i].start && p.blocks == t.base[i].blocks && Core(Cut(t, d, [p], i, [p]))
    ensures var r := Cut(t, d, [p], i, [p]); i < |r.base| && FreeUp(r, i) == t
  {
    hide Core, Cut, SetPart, NoAdjacentFree, WellFormedParts, CombineNext, CombinePrev;
    var c := t.base[i];
    CutWhole(t, d, i);
    EdgeOfCut(t, d, [c], i, [c]);
    SetStep(t, d, [p], 0, i, [p], 0, c);
    assert [p][0 := c] == [c];
  }

  /** The start of cur was used: h is what is left. */
  lemma FreeStart(t: Table, d: nat, i: nat, p: Part, h: Part)
    requires Settled(t) && d < |t.disk| && i < |t.base| && t.disk[d] == t.base[i] && t.base[i].kind.Free?
    requires p.start == t.base[i].start && p.blocks + h.blocks == t.base[i].blocks && h.kind.Free? && Core(Cut(t, d, [p, h], i, [p, h]))
    ensures var r := Cut(t, d, [p, h], i, [p, h]); i < |r.base| && FreeUp(r, i) == t
  {
    hide Core, Cut, SetPart, NoAdjacentFree, WellFormedParts, CombineNext, CombinePrev;
    var c, f := t.base[i], FreePart(p.start, p.blocks);
    CutWhole(t, d, i);
    EdgeOfCut(t, d, [c], i, [c]);
    SetStep(t, d, [p, h], 0, i, [p, h], 0, f);
    assert [p, h][0 := f] == [f, h];
    NextStep(t, d, [f, h], 0, 1, i, [f, h], 0);
    assert SetAndDrop([f, h], 0, c, 1) == [c];
  }

  /** The end of cur was used: l is what is left, and has the next number. */
  lemma FreeEnd(t: Table, d: nat, i: nat, p: Part, l: Part)
    requires Settled(t) && d < |t.disk| && i < |t.base| && t.disk[d] == t.base[i] && t.base[i].kind.Free?
    requires l.start == t.base[i].start && l.blocks + p.blocks == t.base[i].blocks && l.kind.Free? && Core(Cut(t, d, [p, l], i, [l, p]))
    ensures var r := Cut(t, d, [p, l], i, [l, p]); i + 1 < |r.base| && FreeUp(r, i + 1) == t
  {
    hide Core, Cut, SetPart, NoAdjacentFree, WellFormedParts, CombineNext, CombinePrev;
    var c, f := t.base[i], FreePart(p.start, p.blocks);
    CutWhole(t, d, i);
    EdgeOfCut(t, d, [c], i, [c]);
    SetStep(t, d, [p, l], 0, i, [l, p], 1, f);
    assert [p, l][0 := f] == [f, l] && [l, p][1 := f] == [l, f];
    EdgeOfCut(t, d, [f, l], i, [l, f]);
    PrevStep(t, d, [f, l], 0, 1, i, [l, f], 1);
    assert SetAndDrop([f, l], 0, c, 1) == [c] && SetAndDrop([l, f], 1, c, 0) == [c];
  }

  /** The middle of cur was used: l and h are what is left. */
  lemma FreeMiddle(t: Table, d: nat, i: nat, p: Part, l: Part, h: Part)
    requires Settled(t) && d < |t.disk| && i < |t.base| && t.disk[d] == t.base[i] && t.base[i].kind.Free?
    requires l.start == t.base[i].start && l.blocks + p.blocks + h.blocks == t.base[i].blocks && l.kind.Free? && h.kind.Free?
    requires Core(Cut(t, d, [l, p, h], i, [l, p, h]))
    ensures var r := Cut(t, d, [l, p, h], i, [l, p, h]); i + 1 < |r.base| && FreeUp(r, i + 1) == t
  {
    hide Core, Cut, SetPart, NoAdjacentFree, WellFormedParts, CombineNext, CombinePrev;
    var c, f, m := t.base[i], FreePart(p.start, p.blocks), FreePart(p.start, p.blocks + h.blocks);
    CutWhole(t, d, i);
    EdgeOfCut(t, d, [c], i, [c]);
    SetStep(t, d, [l, p, h], 1, i, [l, p, h], 1, f);
    assert [l, p, h][1 := f] == [l, f, h];
    NextStep(t, d, [l, f, h], 1, 2, i, [l, f, h], 1);
    assert SetAndDrop([l, f, h], 1, m, 2) == [l, m];
    PrevStep(t, d, [l, m], 1, 0, i, [l, m], 1);
    assert SetAndDrop([l, m], 1, c, 0) == [c];
  }

  /** Deleting a partition right after creating it gives back the very same table: the same
      entries, the same free space, the same numbers. */
  lemma DeleteUndoesCreate(t: Table, name: string, typeName: string, start: nat, blocks: nat)
    requires Settled(t) && blocks > 0
    requires Add(t, name, Other(typeName), start, blocks).Some?
    ensures var r := Add(t, name, Other(typeName), start, blocks).value;
      Core(r) && Delete(r, IndexOfStart(r.disk, start) + 1) == t
  {
    hide Settled, Core, Delete, Add, FindContaining, Splice, PiecesByBase, PiecesByNumber, FreeUp;
    AddKeepsSettled(t, name, Other(typeName), start, blocks);
    SettledIsCore(t);
    SettledIsCore(Add(t, name, Other(typeName), start, blocks).value);
    AddIsCut(t, name, Other(typeName), start, blocks);
    var r := Add(t, name, Other(typeName), start, blocks).value;
    var i := FindContaining(t.base, start, blocks);
    FreeCreated(t, IndexOfStart(t.disk, t.base[i].start), i, NewPart(name, Other(typeName), start, blocks));
    CreatedNumber(t, name, Other(typeName), start, blocks);
    DeleteIsFreeUp(r, IndexOfStart(r.disk, start));
    IndexInBase(r, if t.base[i].start < start then i + 1 else i, start);
  }

  lemma SettledIsCore(t: Table)
    requires Settled(t)
    ensures Core(t)
  {
  }

  lemma IndexInBase(r: Table, j: nat, start: nat)
    requires Core(r) && j < |r.base| && r.base[j].start == start
    ensures IndexOfStart(r.base, start) == j
  {
    SortedIsDistinct(r.base);
    IndexOfDistinct(r.base, j);
  }

  lemma DeleteIsFreeUp(r: Table, k: nat)
    requires Core(r) && k < |r.disk| && !r.disk[k].kind.Map?
    ensures var j := IndexOfStart(r.base, r.disk[k].start);
      j < |r.base| && Delete(r, k + 1) == FreeUp(r, j)
  {
    InBase(r, k);
  }

  lemma FreeCreated(t: Table, d: nat, i: nat, p: Part)
    requires Settled(t) && d < |t.disk| && i < |t.base| && t.disk[d] == t.base[i] && t.base[i].kind.Free?
    requires t.base[i].start <= p.start && p.End() <= t.base[i].End() && p.blocks > 0
    requires Core(Cut(t, d, PiecesByNumber(t.base[i], p), i, PiecesByBase(t.base[i], p)))
    ensures var r := Cut(t, d, PiecesByNumber(t.base[i], p), i, PiecesByBase(t.base[i], p));
      var j := if t.base[i].start < p.start then i + 1 else i;
      j < |r.base| && r.base[j] == p && FreeUp(r, j) == t
  {
    hide Core, Splice, NoAdjacentFree, WellFormedParts, FreeUp;
    var cur := t.base[i];
    var l := Resized(cur, cur.start, p.start - cur.start);
    var h := Resized(cur, p.End(), cur.End() - p.End());
    if cur.start < p.start {
      if p.End() < cur.End() {
        assert PiecesByBase(cur, p) == [l, p, h];
        CutAt(t.base, i, [l, p, h], 1, p, 1);
        FreeMiddle(t, d, i, p, l, h);
      } else {
        assert PiecesByBase(cur, p) == [l, p] && PiecesByNumber(cur, p) == [p, l];
        CutAt(t.base, i, [l, p], 1, p, 1);
        FreeEnd(t, d, i, p, l);
      }
    } else if p.End() < cur.End() {
      assert PiecesByBase(cur, p) == [p, h];
      CutAt(t.base, i, [p, h], 0, p, 0);
      FreeStart(t, d, i, p, h);
    } else {
      assert PiecesByBase(cur, p) == [p];
      CutAt(t.base, i, [p], 0, p, 0);
      FreeWhole(t, d, i, p);
    }
  }
}
