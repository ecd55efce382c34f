/** Building the whole table of a drive: partitions are added in any order and end up by number. */
module MacBuild {
  import opened Wrappers
  import opened MacTable
  import opened MacPart

  /* ---------- any run of additions to a new drive ---------- */

  const MAP: Entry := Entry(1, 63, false, 1)

  function NewTable(devsize: nat): seq<Entry>
    requires devsize > 64
  {
    [MAP, Entry(64, devsize - 64, true, 1)]
  }

  datatype Addition = Addition(size: nat, before: nat)

  /** One successful addition. */
  ghost predicate Step(es: seq<Entry>, a: Addition, next: seq<Entry>) {
    MayAdd(es, a.size, a.before) &&
    exists f :: Chosen(es, FirstMovable(es), f, a.size) && next == Added(es, f, a.size, a.before)
  }

  /** What is done to a table: an addition, or a partition opened or closed. */
  datatype Action = Add(a: Addition) | Open(i: nat) | Close(i: nat)

  ghost predicate Acts(es: seq<Entry>, action: Action, next: seq<Entry>) {
    match action
    case Add(a) => Step(es, a, next)
    case Open(i) => i < |es| && next == es[i := es[i].(refs := es[i].refs + 1)]
    case Close(i) => i < |es| && es[i].refs > 1 && next == es[i := es[i].(refs := es[i].refs - 1)]
  }

  /** The tables of a run, the first of which is a new drive's. */
  ghost predicate Run(devsize: nat, tables: seq<seq<Entry>>, actions: seq<Action>) {
    && devsize > 64 && |tables| == |actions| + 1 && tables[0] == NewTable(devsize)
    && forall i :: 0 <= i < |actions| ==> Acts(tables[i], actions[i], tables[i + 1])
  }

  function SizeAdded(action: Action): nat { if action.Add? then action.a.size else 0 }

  function Sizes(actions: seq<Action>): nat {
    if actions == [] then 0 else Sizes(actions[..|actions| - 1]) + SizeAdded(actions[|actions| - 1])
  }

  /** Not more than one entry is free space, and it is not the table's own. */
  ghost predicate OneFree(es: seq<Entry>) {
    && |es| > 0 && !es[0].free
    && forall i, j :: 0 <= i < |es| && 0 <= j < |es| && es[i].free && es[j].free ==> i == j
  }

  /** The same entries, but for their uses. */
  ghost predicate SameButRefs(es: seq<Entry>, next: seq<Entry>) {
    |next| == |es| && forall i :: 0 <= i < |es| ==> next[i] == es[i].(refs := next[i].refs)
  }

  /** What every table of a run is. */
  ghost predicate Sound(es: seq<Entry>, devsize: nat) {
    Tiling(es, devsize) && OneFree(es)
  }

  lemma {:induction false} NoneInUseMovable(es: seq<Entry>)
    requires forall i :: 0 <= i < |es| ==> es[i].refs == 1
    ensures FirstMovable(es) == 1
  {
    if |es| <= 1 {
    } else {
      NoneInUseMovable(es[..|es| - 1]);
    }
  }

  lemma NewTableTiles(devsize: nat)
    requires devsize > 64
    ensures Sound(NewTable(devsize), devsize) && TotalFree(NewTable(devsize)) == devsize - 64
  {
    var es := NewTable(devsize);
    assert es[..1] == [MAP] && [MAP][..0] == [];
    assert TotalFree(es[..1]) == 0;
    forall x ensures InTable(es, x) <==> 1 <= x < devsize {
      if 1 <= x < 64 { assert Has(es[0], x); }
      if 64 <= x < devsize { assert Has(es[1], x); }
    }
  }

  lemma {:induction false} RefsFree(es: seq<Entry>, next: seq<Entry>)
    requires SameButRefs(es, next)
    ensures TotalFree(next) == TotalFree(es)
  {
    if es == [] {
    } else {
      RefsFree(es[..|es| - 1], next[..|es| - 1]);
    }
  }

  lemma RefsSound(es: seq<Entry>, next: seq<Entry>, devsize: nat)
    requires SameButRefs(es, next) && Sound(es, devsize)
    ensures Sound(next, devsize)
  {
    forall x ensures InTable(next, x) <==> InTable(es, x) {
      if i :| 0 <= i < |es| && Has(es[i], x) { assert Has(next[i], x); }
      if i :| 0 <= i < |es| && Has(next[i], x) { assert Has(es[i], x); }
    }
  }

  lemma PositionPositive(es: seq<Entry>, before: nat)
    requires |es| > 0
    ensures Position(es, before) > 0
  {
    if before > |es| || before == 0 { TrailingFreeIs(es, |es|, 1); }
  }

  lemma AddedOneFree(es: seq<Entry>, f: nat, size: nat, before: nat)
    requires OneFree(es) && 0 < f < |es| && 0 < size <= es[f].sectors
    ensures OneFree(Added(es, f, size, before))
  {
    hide Carved, Put, Position;
    var c, e := Carved(es, f, size), Entry(es[f].start, size, false, 1);
    CarvedAtStart(es, f, size);
    var p := Position(c, before);
    PositionPositive(c, before);
    var n := Put(c, p, e);
    PutAt(c, p, e, 0);
    forall i, j | 0 <= i < |n| && 0 <= j < |n| && n[i].free && n[j].free ensures i == j {
      PutAt(c, p, e, i);
      PutAt(c, p, e, j);
      CarvedOneFree(es, f, size, if i < p then i else i - 1, if j < p then j else j - 1);
    }
  }

  lemma CarvedOneFree(es: seq<Entry>, f: nat, size: nat, i: nat, j: nat)
    requires OneFree(es) && f < |es| && 0 < size <= es[f].sectors
    requires i < |Carved(es, f, size)| && j < |Carved(es, f, size)| && Carved(es, f, size)[i].free && Carved(es, f, size)[j].free
    ensures i == j
  {
    CarvedFrom(es, f, size, i);
    CarvedFrom(es, f, size, j);
    if i != j { OriginsApart(es, f, size, i, j); }
  }

  lemma CarvedAtStart(es: seq<Entry>, f: nat, size: nat)
    requires 0 < f < |es| && 0 < size <= es[f].sectors
    ensures |Carved(es, f, size)| > 0 && Carved(es, f, size)[0] == es[0]
  {
  }

  /**
   * Whatever is added to a new drive, in whatever order, and whatever is opened and closed in between:
   * the table stays a tiling of the drive, and what is free shrinks by exactly the sizes.
   */
  lemma {:induction false} RunKeeps(devsize: nat, tables: seq<seq<Entry>>, actions: seq<Action>)
    requires Run(devsize, tables, actions)
    ensures Sound(tables[|actions|], devsize) && TotalFree(tables[|actions|]) + Sizes(actions) == devsize - 64
    decreases |actions|
  {
    hide Sound, TotalFree, Acts, NewTable;
    if actions == [] {
      NewTableTiles(devsize);
    } else {
      var n := |actions| - 1;
      RunKeeps(devsize, tables[..n + 1], actions[..n]);
      assert Acts(tables[n], actions[n], tables[n + 1]);
      ActKeeps(tables[n], actions[n], tables[n + 1], devsize);
    }
  }

  lemma ActKeeps(es: seq<Entry>, action: Action, next: seq<Entry>, devsize: nat)
    requires Acts(es, action, next) && Sound(es, devsize)
    ensures Sound(next, devsize) && TotalFree(next) + SizeAdded(action) == TotalFree(es)
  {
    hide Tiling, TotalFree, Added, OneFree;
    if action.Add? {
      var a := action.a;
      var f :| Chosen(es, FirstMovable(es), f, a.size) && next == Added(es, f, a.size, a.before);
      AddedKeeps(es, devsize, f, a.size, a.before);
      AddedOneFree(es, f, a.size, a.before);
    } else {
      RefsFree(es, next);
      RefsSound(es, next, devsize);
    }
  }

  /** No addition of a run moves an entry below the first movable one: its number is that of before. */
  lemma StepKeepsNumbers(es: seq<Entry>, a: Addition, next: seq<Entry>, devsize: nat)
    requires Step(es, a, next) && Sound(es, devsize)
    ensures FirstMovable(es) <= |next| && next[..FirstMovable(es)] == es[..FirstMovable(es)]
  {
    hide Added;
    var f :| Chosen(es, FirstMovable(es), f, a.size) && next == Added(es, f, a.size, a.before);
    LastUsedKept(es, f, a.size, a.before);
  }

  lemma {:induction false} InUseBelow(es: seq<Entry>, k: nat)
    requires k < |es| && es[k].refs > 1
    ensures k < FirstMovable(es)
  {
    if es[|es| - 1].refs <= 1 && |es| > 1 {
      InUseBelow(es[..|es| - 1], k);
    }
  }

  /** While the free space of a table of a run is open, nothing can be added. */
  lemma OpenFreeBlocks(es: seq<Entry>, devsize: nat, k: nat, a: Addition, next: seq<Entry>)
    requires Sound(es, devsize) && k < |es| && es[k].free && es[k].refs > 1
    ensures !Step(es, a, next)
  {
    InUseBelow(es, k);
  }

  /** Through any run, a partition that stays open keeps its number, its place and its size. */
  lemma {:induction false} OpenStays(devsize: nat, tables: seq<seq<Entry>>, actions: seq<Action>, first: nat, last: nat, k: nat)
    requires Run(devsize, tables, actions) && first <= last <= |actions|
    requires forall t :: first <= t <= last ==> k < |tables[t]| && tables[t][k].refs > 1
    ensures tables[last][k] == tables[first][k].(refs := tables[last][k].refs)
    decreases last
  {
    hide Sound, Step, FirstMovable, NewTable;
    if first == last {
    } else {
      var t := last - 1;
      OpenStays(devsize, tables, actions, first, t, k);
      assert Acts(tables[t], actions[t], tables[t + 1]);
      RunKeeps(devsize, tables[..t + 1], actions[..t]);
      if actions[t].Add? {
        StepKeepsNumbers(tables[t], actions[t].a, tables[t + 1], devsize);
        InUseBelow(tables[t], k);
        SamePlace(tables[t], tables[t + 1], FirstMovable(tables[t]), k);
      }
    }
  }

  lemma SamePlace(es: seq<Entry>, next: seq<Entry>, s: nat, k: nat)
    requires k < s <= |es| && s <= |next| && next[..s] == es[..s]
    ensures next[k] == es[k]
  {
    assert next[k] == next[..s][k];
  }

  /* ---------- building by number ---------- */

  /** A partition to create: its drive, its number there and its size. */
  datatype Wanted = Wanted(dev: int, number: nat, sectors: nat)

  /** A partition that has been created. */
  datatype Row = Row(number: nat, start: nat, sectors: nat)

  function RowEntry(r: Row): Entry { Entry(r.start, r.sectors, false, 1) }

  function Entries(rows: seq<Row>): (es: seq<Entry>)
    ensures |es| == |rows| && forall i :: 0 <= i < |rows| ==> es[i] == RowEntry(rows[i])
  {
    seq(|rows|, i requires 0 <= i < |rows| => RowEntry(rows[i]))
  }

  /** What is left of the drive. */
  function Rest(start: nat, left: nat): seq<Entry> {
    if left > 0 then [Entry(start, left, true, 1)] else []
  }

  /** The table's own partition, the partitions by number, and the rest. */
  function Built(rows: seq<Row>, start: nat, left: nat): seq<Entry> {
    [MAP] + Entries(rows) + Rest(start, left)
  }

  ghost predicate ByNumber(rows: seq<Row>) {
    && (forall i :: 0 <= i < |rows| ==> 2 <= rows[i].number <= 15)
    && forall i, j :: 0 <= i < j < |rows| ==> rows[i].number < rows[j].number
  }

  /** How many partitions have smaller numbers. */
  function Below(rows: seq<Row>, number: nat): (n: nat)
    ensures n <= |rows|
  {
    if rows == [] || rows[0].number >= number then 0 else 1 + Below(rows[1..], number)
  }

  lemma {:induction false} BelowIs(rows: seq<Row>, number: nat)
    requires ByNumber(rows)
    ensures forall i :: 0 <= i < |rows| ==> (rows[i].number < number <==> i < Below(rows, number))
    ensures 2 <= number ==> Below(rows, number) + 2 <= number
  {
    if rows != [] && rows[0].number < number {
      BelowIs(rows[1..], number);
      forall i | 0 <= i < |rows| ensures rows[i].number < number <==> i < Below(rows, number) {
        if i > 0 { assert rows[1..][i - 1] == rows[i]; }
      }
      BelowNumber(rows, Below(rows, number) - 1);
    }
  }

  lemma {:induction false} BelowNumber(rows: seq<Row>, i: nat)
    requires ByNumber(rows) && i < |rows|
    ensures i + 2 <= rows[i].number
  {
    if i == 0 {
    } else {
      BelowNumber(rows, i - 1);
    }
  }

  function WithRow(rows: seq<Row>, r: Row): seq<Row> {
    var k := Below(rows, r.number);
    rows[..k] + [r] + rows[k..]
  }

  lemma WithRowAt(rows: seq<Row>, r: Row, i: nat)
    requires i <= |rows|
    ensures var k := Below(rows, r.number);
            |WithRow(rows, r)| == |rows| + 1 && WithRow(rows, r)[i] == if i < k then rows[i] else if i == k then r else rows[i - 1]
  {
  }

  lemma WithRowSorted(rows: seq<Row>, r: Row)
    requires ByNumber(rows) && 2 <= r.number <= 15 && forall i :: 0 <= i < |rows| ==> rows[i].number != r.number
    ensures ByNumber(WithRow(rows, r))
  {
    hide WithRow, Below;
    BelowIs(rows, r.number);
    var w := WithRow(rows, r);
    WithRowAt(rows, r, 0);
    forall i | 0 <= i < |w| ensures 2 <= w[i].number <= 15 { WithRowAt(rows, r, i); }
    forall i, j | 0 <= i < j < |w| ensures w[i].number < w[j].number {
      WithRowAt(rows, r, i);
      WithRowAt(rows, r, j);
    }
  }

  lemma BuiltAt(rows: seq<Row>, start: nat, left: nat, i: nat)
    requires i < |Built(rows, start, left)|
    ensures |Built(rows, start, left)| == 1 + |rows| + if left > 0 then 1 else 0
    ensures Built(rows, start, left)[i] ==
            if i == 0 then MAP else if i <= |rows| then RowEntry(rows[i - 1]) else Entry(start, left, true, 1)
  {
  }

  lemma BuiltLength(rows: seq<Row>, start: nat, left: nat)
    ensures |Built(rows, start, left)| == 1 + |rows| + if left > 0 then 1 else 0
  {
  }

  /** Only the rest is free. */
  lemma BuiltFree(rows: seq<Row>, start: nat, left: nat, i: nat)
    requires i < |Built(rows, start, left)|
    ensures Built(rows, start, left)[i].free <==> i == |rows| + 1
    ensures Built(rows, start, left)[i].refs == 1
  {
    BuiltAt(rows, start, left, i);
  }

  lemma BuiltTaken(rows: seq<Row>, start: nat, left: nat, size: nat)
    requires 0 < size <= left
    ensures |rows| + 1 < |Built(rows, start, left)| && Built(rows, start, left)[|rows| + 1] == Entry(start, left, true, 1)
    ensures Carved(Built(rows, start, left), |rows| + 1, size) == Built(rows, start + size, left - size)
  {
    BuiltAt(rows, start, left, |rows| + 1);
    assert Built(rows, start, left)[..|rows| + 1] == [MAP] + Entries(rows);
  }

  lemma BuiltPut(rows: seq<Row>, start: nat, left: nat, r: Row)
    ensures Below(rows, r.number) + 1 <= |Built(rows, start, left)|
    ensures Put(Built(rows, start, left), Below(rows, r.number) + 1, RowEntry(r)) == Built(WithRow(rows, r), start, left)
  {
    hide WithRow, Below;
    var k := Below(rows, r.number);
    var a, b := Put(Built(rows, start, left), k + 1, RowEntry(r)), Built(WithRow(rows, r), start, left);
    WithRowAt(rows, r, 0);
    assert |a| == |b|;
    forall i | 0 <= i < |a| ensures a[i] == b[i] {
      PutAt(Built(rows, start, left), k + 1, RowEntry(r), i);
      BuiltAt(WithRow(rows, r), start, left, i);
      if i < k + 1 { BuiltAt(rows, start, left, i); } else if i > k + 1 { BuiltAt(rows, start, left, i - 1); }
      if 0 < i <= |rows| + 1 { WithRowAt(rows, r, i - 1); }
    }
  }

  /** Adding a partition at the place its number has among the others. */
  lemma AddedByNumber(rows: seq<Row>, start: nat, left: nat, number: nat, size: nat, next: seq<Entry>)
    requires |rows| <= 14 && 0 < size <= left
    requires var es := Built(rows, start, left);
             Step(es, Addition(size, Below(rows, number) + 1), next)
    ensures next == Built(WithRow(rows, Row(number, start, size)), start + size, left - size)
  {
    hide Built, Below, Carved, WithRow, Put;
    var es := Built(rows, start, left);
    BuiltTaken(rows, start, left, size);
    forall i | 0 <= i < |es| ensures es[i].refs == 1 && (es[i].free <==> i == |rows| + 1) { BuiltFree(rows, start, left, i); }
    NoneInUseMovable(es);
    var f :| Chosen(es, FirstMovable(es), f, size) && next == Added(es, f, size, Below(rows, number) + 1);
    assert f == |rows| + 1;
    BuiltPut(rows, start + size, left - size, Row(number, start, size));
    AddedIs(es, f, size, Below(rows, number) + 1);
  }

  /** And it can be added. */
  lemma CanAdd(rows: seq<Row>, start: nat, left: nat, number: nat, size: nat)
    requires |rows| <= 14 && 0 < size <= left
    ensures var es := Built(rows, start, left);
            MayAdd(es, size, Below(rows, number) + 1) && Candidate(es, FirstMovable(es), |rows| + 1, size)
  {
    hide Built, Below;
    var es := Built(rows, start, left);
    BuiltTaken(rows, start, left, size);
    BuiltAt(rows, start, left, 0);
    forall i | 0 <= i < |es| ensures es[i].refs == 1 { BuiltFree(rows, start, left, i); }
    NoneInUseMovable(es);
  }

  function SectorsOf(list: seq<Wanted>, dev: int): nat {
    if list == [] then 0
    else SectorsOf(list[..|list| - 1], dev) + if list[|list| - 1].dev == dev then list[|list| - 1].sectors else 0
  }

  /** The partitions of one drive by number, each where the space of those before it in the list ends. */
  function RowsOf(list: seq<Wanted>, dev: int): seq<Row> {
    if list == [] then []
    else
      var rows, w := RowsOf(list[..|list| - 1], dev), list[|list| - 1];
      if w.dev == dev then WithRow(rows, Row(w.number, 64 + SectorsOf(list[..|list| - 1], dev), w.sectors)) else rows
  }

  /** What a drive's part of the list has to be: numbers from 2 to 15, each once, and sizes. */
  ghost predicate Wellformed(list: seq<Wanted>, dev: int) {
    && (forall i :: 0 <= i < |list| && list[i].dev == dev ==> 2 <= list[i].number <= 15 && list[i].sectors > 0)
    && forall i, j :: 0 <= i < j < |list| && list[i].dev == dev && list[j].dev == dev ==> list[i].number != list[j].number
  }

  ghost predicate InRows(w: Wanted, rows: seq<Row>) {
    exists i :: 0 <= i < |rows| && rows[i].number == w.number && rows[i].sectors == w.sectors
  }

  lemma InRowsMore(w: Wanted, rows: seq<Row>, r: Row)
    ensures InRows(w, WithRow(rows, r)) <==> InRows(w, rows) || (r.number == w.number && r.sectors == w.sectors)
  {
    hide WithRow, Below;
    var k := Below(rows, r.number);
    WithRowAt(rows, r, k);
    if InRows(w, rows) {
      var i :| 0 <= i < |rows| && rows[i].number == w.number && rows[i].sectors == w.sectors;
      WithRowAt(rows, r, if i < k then i else i + 1);
      assert WithRow(rows, r)[if i < k then i else i + 1] == rows[i];
    }
    if r.number == w.number && r.sectors == w.sectors { assert WithRow(rows, r)[k] == r; }
    if InRows(w, WithRow(rows, r)) {
      var i :| 0 <= i < |WithRow(rows, r)| && WithRow(rows, r)[i].number == w.number && WithRow(rows, r)[i].sectors == w.sectors;
      WithRowAt(rows, r, i);
      assert i == k || rows[if i < k then i else i - 1] == WithRow(rows, r)[i];
    }
  }

  /** The rows are the partitions wanted on the drive, each once and by number. */
  lemma {:induction false} RowsAre(list: seq<Wanted>, dev: int)
    requires Wellformed(list, dev)
    ensures ByNumber(RowsOf(list, dev))
    ensures forall w: Wanted :: w.dev == dev ==> (InRows(w, RowsOf(list, dev)) <==> w in list)
  {
    hide WithRow, ByNumber, InRows;
    NoRows(dev);
    if list != [] {
      var n := |list| - 1;
      var w := list[n];
      RowsAre(list[..n], dev);
      LastInList(list);
      if w.dev == dev {
        var rows, r := RowsOf(list[..n], dev), Row(w.number, 64 + SectorsOf(list[..n], dev), w.sectors);
        OthersDiffer(list, dev);
        WithRowSorted(rows, r);
        forall v: Wanted | v.dev == dev ensures InRows(v, WithRow(rows, r)) <==> v in list { InRowsMore(v, rows, r); }
      }
    }
  }

  lemma NoRows(dev: int)
    ensures ByNumber([]) && forall w :: !InRows(w, [])
  {
  }

  lemma LastInList(list: seq<Wanted>)
    requires list != []
    ensures forall w :: w in list <==> w in list[..|list| - 1] || w == list[|list| - 1]
  {
    assert list == list[..|list| - 1] + [list[|list| - 1]];
  }

  lemma OthersDiffer(list: seq<Wanted>, dev: int)
    requires list != [] && Wellformed(list, dev) && list[|list| - 1].dev == dev
    requires forall w: Wanted :: w.dev == dev ==> (InRows(w, RowsOf(list[..|list| - 1], dev)) <==> w in list[..|list| - 1])
    ensures var rows := RowsOf(list[..|list| - 1], dev);
            forall i :: 0 <= i < |rows| ==> rows[i].number != list[|list| - 1].number
  {
    hide RowsOf;
    var n := |list| - 1;
    var rows := RowsOf(list[..n], dev);
    forall i | 0 <= i < |rows| ensures rows[i].number != list[n].number {
      var w := Wanted(dev, rows[i].number, rows[i].sectors);
      assert InRows(w, rows);
      var j :| 0 <= j < n && list[..n][j] == w;
      assert list[j] == w;
    }
  }

  lemma {:induction false} FewRows(rows: seq<Row>)
    requires ByNumber(rows)
    ensures |rows| <= 14
  {
    if rows == [] {
    } else {
      BelowNumber(rows, |rows| - 1);
    }
  }

  /** The numbers added so far, in the form the source keeps them: sorted, behind the table's own, and padded. */
  ghost predicate Numbers(order: seq<int>, rows: seq<Row>) {
    && |order| == 16 && order[0] == 0 && order[1] == 1 && |rows| <= 14
    && (forall i :: 0 <= i < |rows| ==> order[i + 2] == rows[i].number)
    && forall i :: |rows| + 2 <= i < 15 ==> order[i] == 255
  }

  /** The place of a number among those there are. */
  method FindPlace(order: array<int>, partno: nat, ghost rows: seq<Row>) returns (place: nat)
    requires Numbers(order[..], rows) && ByNumber(rows) && 2 <= partno <= 15
    requires forall i :: 0 <= i < |rows| ==> rows[i].number != partno
    ensures place == Below(rows, partno) + 2
  {
    hide ByNumber, Below;
    BelowIs(rows, partno);
    place := partno;
    while order[place - 1] > partno
      invariant Below(rows, partno) + 2 <= place <= partno
      decreases place
    {
      StillAbove(order[..], rows, partno, place);
      place := place - 1;
    }
    PlaceFound(order[..], rows, partno, place);
  }

  lemma StillAbove(order: seq<int>, rows: seq<Row>, partno: nat, place: nat)
    requires Numbers(order, rows) && ByNumber(rows) && 2 <= partno <= 15
    requires Below(rows, partno) + 2 <= place <= partno && order[place - 1] > partno
    ensures Below(rows, partno) + 2 <= place - 1
  {
    hide Below;
    BelowIs(rows, partno);
    if place - 1 >= 2 && place - 3 < |rows| { assert order[place - 3 + 2] == rows[place - 3].number; }
  }

  lemma PlaceFound(order: seq<int>, rows: seq<Row>, partno: nat, place: nat)
    requires Numbers(order, rows) && ByNumber(rows) && 2 <= partno <= 15
    requires forall i :: 0 <= i < |rows| ==> rows[i].number != partno
    requires Below(rows, partno) + 2 <= place <= partno && order[place - 1] <= partno
    ensures place == Below(rows, partno) + 2
  {
    hide Below, ByNumber;
    BelowIs(rows, partno);
    if place - 1 >= 2 && place - 3 < |rows| { assert order[place - 3 + 2] == rows[place - 3].number; }
  }

  /** Makes room at a place and puts the number there. */
  method PutNumber(order: array<int>, place: nat, partno: nat, ghost rows: seq<Row>, ghost r: Row)
    requires Numbers(order[..], rows) && ByNumber(rows) && |rows| < 14
    requires place == Below(rows, partno) + 2 && r.number == partno
    modifies order
    ensures Numbers(order[..], WithRow(rows, r))
  {
    hide WithRow, Below;
    WithRowAt(rows, r, 0);
    ghost var was := order[..];
    if Below(rows, partno) < |rows| { assert was[place] == rows[Below(rows, partno)].number; }
    if order[place] < 255 {
      var i := 15;
      while i > place
        invariant place <= i <= 15
        invariant forall j :: 0 <= j <= i ==> order[j] == was[j]
        invariant forall j :: i < j < 16 ==> order[j] == was[j - 1]
      {
        order[i] := order[i - 1];
        i := i - 1;
      }
    }
    order[place] := partno;
    forall i | 0 <= i <= |rows| ensures order[i + 2] == WithRow(rows, r)[i].number { WithRowAt(rows, r, i); }
  }

  /** The space used is what the partitions of the list so far take. */
  lemma {:induction false} SectorsPrefix(list: seq<Wanted>, dev: int, n: nat)
    requires n <= |list|
    ensures SectorsOf(list[..n], dev) <= SectorsOf(list, dev)
  {
    if n < |list| {
      SectorsPrefix(list[..|list| - 1], dev, n);
      assert list[..|list| - 1][..n] == list[..n];
    } else {
      assert list[..n] == list;
    }
  }

  lemma WellformedPrefix(list: seq<Wanted>, dev: int, n: nat)
    requires Wellformed(list, dev) && n <= |list|
    ensures Wellformed(list[..n], dev)
  {
  }

  lemma NextWanted(list: seq<Wanted>, dev: int, n: nat)
    requires n < |list|
    ensures list[..n + 1][..n] == list[..n]
    ensures SectorsOf(list[..n + 1], dev) == SectorsOf(list[..n], dev) + if list[n].dev == dev then list[n].sectors else 0
    ensures RowsOf(list[..n + 1], dev) ==
            if list[n].dev == dev then WithRow(RowsOf(list[..n], dev), Row(list[n].number, 64 + SectorsOf(list[..n], dev), list[n].sectors))
            else RowsOf(list[..n], dev)
  {
    assert list[..n + 1][..n] == list[..n];
  }

  /** The rows of the partitions before n, and that n is none of them. */
  lemma RowsBefore(list: seq<Wanted>, dev: int, n: nat)
    requires Wellformed(list, dev) && n < |list| && list[n].dev == dev
    ensures var rows := RowsOf(list[..n], dev);
            && ByNumber(rows) && |rows| < 14 && 2 <= list[n].number <= 15 && list[n].sectors > 0
            && forall i :: 0 <= i < |rows| ==> rows[i].number != list[n].number
  {
    hide WithRow;
    WellformedPrefix(list, dev, n);
    WellformedPrefix(list, dev, n + 1);
    RowsAre(list[..n], dev);
    RowsAre(list[..n + 1], dev);
    NextWanted(list, dev, n);
    assert list[..n + 1][..n] == list[..n];
    OthersDiffer(list[..n + 1], dev);
    FewRows(RowsOf(list[..n + 1], dev));
    WithRowAt(RowsOf(list[..n], dev), Row(list[n].number, 64 + SectorsOf(list[..n], dev), list[n].sectors), 0);
  }

  /**
   * Adds the partitions of a drive in the order of the list, each before the first one with a larger
   * number. When they fit, the table has all of them by number, whatever the order of the list.
   */
  method Build(table: PartitionTable, list: seq<Wanted>, dev: int)
    requires table.Valid() && table.valid && table.devsize > 64 && table.View() == NewTable(table.devsize)
    requires Wellformed(list, dev) && SectorsOf(list, dev) <= table.devsize - 64
    modifies table`count, table.partitions
    ensures table.Valid()
    ensures table.View() == Built(RowsOf(list, dev), 64 + SectorsOf(list, dev), table.devsize - 64 - SectorsOf(list, dev))
  {
    hide Built, RowsOf, SectorsOf, Wellformed, ByNumber, Numbers, Tiling, WithRow, Below, FirstMovable;
    NewTableTiles(table.devsize);
    StartBuilt(table.devsize, dev);
    var order := new int[16](i => if i == 0 || i == 15 then 0 else if i == 1 then 1 else 255);
    StartNumbers(order[..], dev);
    ghost var size := table.devsize - 64;
    var n := 0;
    SectorsPrefix(list, dev, 0);
    assert list[..0] == [];
    while n < |list|
      invariant 0 <= n <= |list| && fresh(order) && order.Length == 16 && SectorsOf(list[..n], dev) <= size
      invariant table.Valid() && table.count > 1 && Tiling(table.View(), table.devsize)
      invariant table.View() == Built(RowsOf(list[..n], dev), 64 + SectorsOf(list[..n], dev), size - SectorsOf(list[..n], dev))
      invariant Numbers(order[..], RowsOf(list[..n], dev))
    {
      SectorsPrefix(list, dev, n + 1);
      NextWanted(list, dev, n);
      if list[n].dev == dev {
        RowsBefore(list, dev, n);
        AddOne(table, order, list[n].number, list[n].sectors, RowsOf(list[..n], dev), 64 + SectorsOf(list[..n], dev), size - SectorsOf(list[..n], dev));
      }
      n := n + 1;
    }
    assert list[..n] == list;
  }

  lemma StartBuilt(devsize: nat, dev: int)
    requires devsize > 64
    ensures NewTable(devsize) == Built(RowsOf([], dev), 64 + SectorsOf([], dev), devsize - 64 - SectorsOf([], dev))
  {
  }

  lemma StartNumbers(order: seq<int>, dev: int)
    requires |order| == 16 && forall i :: 0 <= i < 16 ==> order[i] == if i == 0 || i == 15 then 0 else if i == 1 then 1 else 255
    ensures Numbers(order, RowsOf([], dev))
  {
  }

  /** One partition: its place among the numbers, and then into the table. */
  method AddOne(table: PartitionTable, order: array<int>, partno: nat, sectors: nat,
                ghost rows: seq<Row>, ghost start: nat, ghost left: nat)
    requires table.Valid() && table.valid && table.count > 1 && Tiling(table.View(), table.devsize)
    requires table.View() == Built(rows, start, left) && Numbers(order[..], rows) && ByNumber(rows) && |rows| < 14
    requires 2 <= partno <= 15 && 0 < sectors <= left && forall i :: 0 <= i < |rows| ==> rows[i].number != partno
    requires order != table.partitions as object
    modifies table`count, table.partitions, order
    ensures table.Valid() && table.count > 1 && Tiling(table.View(), table.devsize)
    ensures table.View() == Built(WithRow(rows, Row(partno, start, sectors)), start + sectors, left - sectors)
    ensures Numbers(order[..], WithRow(rows, Row(partno, start, sectors)))
  {
    hide Built, ByNumber, Numbers, Tiling, WithRow, Below, FirstMovable, Added, Chosen, Candidate, MayAdd;
    var place := FindPlace(order, partno, rows);
    PutNumber(order, place, partno, rows, Row(partno, start, sectors));
    CanAdd(rows, start, left, partno, sectors);
    ghost var es := table.View();
    var r := table.Add(sectors, place);
    ghost var a := Addition(sectors, Below(rows, partno) + 1);
    StepIs(es, a, table.View());
    AddedByNumber(rows, start, left, partno, sectors, table.View());
  }

  lemma StepIs(es: seq<Entry>, a: Addition, next: seq<Entry>)
    requires MayAdd(es, a.size, a.before)
    requires exists f :: Chosen(es, FirstMovable(es), f, a.size) && next == Added(es, f, a.size, a.before)
    ensures Step(es, a, next)
  {
  }

  /**
   * When the numbers wanted on a drive are 2 up to n + 1, partition number p of the finished table has
   * the size wanted for p.
   */
  lemma SizesByNumber(list: seq<Wanted>, dev: int, n: nat, start: nat, left: nat, w: Wanted)
    requires Wellformed(list, dev) && |RowsOf(list, dev)| == n && w in list && w.dev == dev
    requires forall v :: v in list && v.dev == dev ==> v.number <= n + 1
    ensures var es := Built(RowsOf(list, dev), start, left);
            1 <= w.number <= |es| && es[w.number - 1].sectors == w.sectors && !es[w.number - 1].free
  {
    hide RowsOf, Built, ByNumber;
    var rows := RowsOf(list, dev);
    RowsAre(list, dev);
    assert InRows(w, rows);
    var i :| 0 <= i < |rows| && rows[i].number == w.number && rows[i].sectors == w.sectors;
    forall k | 0 <= k < |rows| ensures rows[k].number <= n + 1 {
      assert InRows(Wanted(dev, rows[k].number, rows[k].sectors), rows);
    }
    NumbersAreIndexes(rows, i);
    BuiltLength(rows, start, left);
    BuiltAt(rows, start, left, i + 1);
  }

  lemma {:induction false} NumbersAreIndexes(rows: seq<Row>, i: nat)
    requires ByNumber(rows) && i < |rows| && forall k :: 0 <= k < |rows| ==> rows[k].number <= |rows| + 1
    ensures rows[i].number == i + 2
  {
    BelowNumber(rows, i);
    AtMostIndex(rows, i);
  }

  lemma {:induction false} AtMostIndex(rows: seq<Row>, i: nat)
    requires ByNumber(rows) && i < |rows| && forall k :: 0 <= k < |rows| ==> rows[k].number <= |rows| + 1
    ensures rows[i].number <= i + 2
    decreases |rows| - i
  {
    if i + 1 >= |rows| {
    } else {
      AtMostIndex(rows, i + 1);
    }
  }

  /* ---------- balancing ---------- */

  /** Moves entry n of the list to its beginning. */
  method MoveToFront(newparts: array<Wanted>, n: nat)
    requires n < newparts.Length
    modifies newparts
    ensures newparts[..] == [old(newparts[n])] + old(newparts[..n]) + old(newparts[n + 1..])
  {
    var tmp := newparts[n];
    ghost var was := newparts[..];
    var i := n;
    while i > 0
      invariant 0 <= i <= n
      invariant forall j :: 0 <= j < newparts.Length && !(i < j <= n) ==> newparts[j] == was[j]
      invariant forall j :: i < j <= n ==> newparts[j] == was[j - 1]
    {
      newparts[i] := newparts[i - 1];
      i := i - 1;
    }
    newparts[0] := tmp;
  }

  /** The media partitions of a drive's MFS. */
  predicate IsMedia(w: Wanted, dev: int) { w.dev == dev && w.number > 10 && w.number % 2 == 1 }

  /** Each media partition put before what came before it. */
  function Fronted(list: seq<Wanted>, dev: int): (r: seq<Wanted>)
    ensures |r| == |list|
  {
    if list == [] then []
    else
      var rest, last := Fronted(list[..|list| - 1], dev), list[|list| - 1];
      if IsMedia(last, dev) then [last] + rest else rest + [last]
  }

  /** A partition from cur on that lies mostly behind the middle of the drive. */
  predicate MostlyBehind(cur: nat, sectors: nat, middle: nat) {
    cur + sectors > middle && cur + sectors - middle > middle - cur
  }

  /** Where balancing stops: at the middle, or at the first media partition mostly behind it. */
  function StopAt(list: seq<Wanted>, dev: int, n: nat, cur: nat, middle: nat): (m: nat)
    requires n <= |list|
    ensures n <= m <= |list|
    decreases |list| - n
  {
    if n == |list| || cur >= middle then n
    else if !IsMedia(list[n], dev) then StopAt(list, dev, n + 1, cur, middle)
    else if MostlyBehind(cur, list[n].sectors, middle) then n
    else StopAt(list, dev, n + 1, cur + list[n].sectors, middle)
  }

  /** The media partitions come first, the last one foremost, and the others follow in their order. */
  lemma {:induction false} FrontedOrder(list: seq<Wanted>, dev: int)
    ensures Fronted(list, dev) == Reversed(Only(list, dev, true)) + Only(list, dev, false)
  {
    if list != [] {
      var front, last := list[..|list| - 1], list[|list| - 1];
      FrontedOrder(front, dev);
      var media, others := Only(front, dev, true), Only(front, dev, false);
      if IsMedia(last, dev) {
        assert (media + [last])[..|media|] == media;
        assert Reversed(media + [last]) == [last] + Reversed(media);
        assert others + [] == others;
      } else {
        assert media + [] == media;
        assert Reversed(media) + others + [last] == Reversed(media) + (others + [last]);
      }
    }
  }

  lemma {:induction false} FrontedBag(list: seq<Wanted>, dev: int)
    ensures multiset(Fronted(list, dev)) == multiset(list)
  {
    if list == [] {
    } else {
      FrontedBag(list[..|list| - 1], dev);
      assert list == list[..|list| - 1] + [list[|list| - 1]];
    }
  }

  function Only(list: seq<Wanted>, dev: int, media: bool): seq<Wanted> {
    if list == [] then []
    else Only(list[..|list| - 1], dev, media) + if IsMedia(list[|list| - 1], dev) == media then [list[|list| - 1]] else []
  }

  function Reversed(list: seq<Wanted>): seq<Wanted> {
    if list == [] then [] else [list[|list| - 1]] + Reversed(list[..|list| - 1])
  }

  function SizeOf(list: seq<Wanted>): nat {
    if list == [] then 0 else SizeOf(list[..|list| - 1]) + list[|list| - 1].sectors
  }

  /** What is moved starts before the middle, and reaches behind it no further than it starts before it. */
  lemma {:induction false} MovedInFront(list: seq<Wanted>, dev: int, n: nat, cur: nat, middle: nat, i: nat)
    requires n <= |list| && n <= i < StopAt(list, dev, n, cur, middle) && IsMedia(list[i], dev)
    ensures var before := cur + SizeOf(Only(list[n..i], dev, true));
            before < middle && !MostlyBehind(before, list[i].sectors, middle)
    decreases i - n
  {
    if n < i {
      var next := cur + if IsMedia(list[n], dev) then list[n].sectors else 0;
      MovedInFront(list, dev, n + 1, next, middle, i);
      assert list[n..i] == [list[n]] + list[n + 1..i];
      OnlyFront(list[n], list[n + 1..i], dev);
    } else {
      assert list[n..n] == [];
    }
  }

  /**
   * It goes on as far as that holds: to the end of the list, to where the middle is reached, or to the first
   * media partition that lies mostly behind it.
   */
  lemma {:induction false} StopsOnlyThere(list: seq<Wanted>, dev: int, n: nat, cur: nat, middle: nat)
    requires n <= |list|
    ensures var m := StopAt(list, dev, n, cur, middle);
            var at := cur + SizeOf(Only(list[n..m], dev, true));
            m == |list| || at >= middle || (IsMedia(list[m], dev) && MostlyBehind(at, list[m].sectors, middle))
    decreases |list| - n
  {
    var m := StopAt(list, dev, n, cur, middle);
    if m == n {
      assert list[n..n] == [];
    } else {
      var next := cur + if IsMedia(list[n], dev) then list[n].sectors else 0;
      StopsOnlyThere(list, dev, n + 1, next, middle);
      assert list[n..m] == [list[n]] + list[n + 1..m];
      OnlyFront(list[n], list[n + 1..m], dev);
    }
  }

  /** What counts as media: the partitions of the drive with an odd number above 10. */
  lemma {:induction false} OnlyMedia(list: seq<Wanted>, dev: int)
    ensures forall w :: w in Only(list, dev, true) <==> w in list && w.dev == dev && w.number > 10 && w.number % 2 == 1
  {
    if list == [] {
    } else {
      OnlyMedia(list[..|list| - 1], dev);
      LastInList(list);
    }
  }

  lemma {:induction false} OnlyFront(w: Wanted, rest: seq<Wanted>, dev: int)
    ensures SizeOf(Only([w] + rest, dev, true)) == SizeOf(Only(rest, dev, true)) + if IsMedia(w, dev) then w.sectors else 0
  {
    var list := [w] + rest;
    if rest == [] {
      assert list == [w] && [w][..0] == [];
    } else {
      assert list[..|list| - 1] == [w] + rest[..|rest| - 1];
      OnlyFront(w, rest[..|rest| - 1], dev);
      SizeMore(Only(list[..|list| - 1], dev, true), rest[|rest| - 1]);
      SizeMore(Only(rest[..|rest| - 1], dev, true), rest[|rest| - 1]);
    }
  }

  lemma SizeMore(list: seq<Wanted>, w: Wanted)
    ensures SizeOf(list + [w]) == SizeOf(list) + w.sectors && SizeOf(list + []) == SizeOf(list)
  {
    assert (list + [w])[..|list|] == list && list + [] == list;
  }

  /** Moves media partitions to the beginning of the list, up to where balancing stops. */
  method Balance(newparts: array<Wanted>, dev: int, devSectors: nat)
    modifies newparts
    ensures var list := old(newparts[..]);
            var m := StopAt(list, dev, 0, 64, devSectors / 2);
            newparts[..] == Fronted(list[..m], dev) + list[m..]
    ensures multiset(newparts[..]) == multiset(old(newparts[..]))
  {
    hide Fronted, StopAt;
    ghost var list := newparts[..];
    var middle: nat := devSectors / 2;
    var n: nat, curstart: nat := 0, 64;
    ghost var m := StopAt(list, dev, 0, 64, middle);
    NoneFronted(list, dev);
    while n < newparts.Length && curstart < middle
      invariant 0 <= n <= newparts.Length && newparts[..] == Fronted(list[..n], dev) + list[n..]
      invariant m == StopAt(list, dev, n, curstart, middle)
    {
      StopStep(list, dev, n, curstart, middle);
      FrontedStep(list, dev, n);
      var p := newparts[n];
      if p.dev == dev && p.number > 10 && p.number % 2 == 1 {
        curstart := curstart + p.sectors;
        if curstart > middle && curstart - middle > middle - (curstart - p.sectors) {
          break;
        }
        MoveToFront(newparts, n);
      }
      n := n + 1;
    }
    if n == newparts.Length || curstart >= middle { StopHere(list, dev, n, curstart, middle); }
    SameBag(list, dev, m);
  }

  lemma SameBag(list: seq<Wanted>, dev: int, m: nat)
    requires m <= |list|
    ensures multiset(Fronted(list[..m], dev) + list[m..]) == multiset(list)
  {
    FrontedBag(list[..m], dev);
    assert list == list[..m] + list[m..];
  }

  lemma NoneFronted(list: seq<Wanted>, dev: int)
    ensures list[..0] == [] && Fronted([], dev) == [] && [] + list[0..] == list
  {
  }

  lemma StopHere(list: seq<Wanted>, dev: int, n: nat, cur: nat, middle: nat)
    requires n <= |list| && (n == |list| || cur >= middle)
    ensures StopAt(list, dev, n, cur, middle) == n
  {
  }

  lemma StopStep(list: seq<Wanted>, dev: int, n: nat, cur: nat, middle: nat)
    requires n < |list| && cur < middle
    ensures StopAt(list, dev, n, cur, middle) ==
            if !IsMedia(list[n], dev) then StopAt(list, dev, n + 1, cur, middle)
            else if MostlyBehind(cur, list[n].sectors, middle) then n
            else StopAt(list, dev, n + 1, cur + list[n].sectors, middle)
  {
  }

  /** One more entry of the list, which is still where it was. */
  lemma FrontedStep(list: seq<Wanted>, dev: int, n: nat)
    requires n < |list|
    ensures var now := Fronted(list[..n], dev) + list[n..];
            && |now| == |list| && now[n] == list[n]
            && Fronted(list[..n + 1], dev) + list[n + 1..] ==
               if IsMedia(list[n], dev) then [now[n]] + now[..n] + now[n + 1..] else now
  {
    assert list[..n + 1][..n] == list[..n];
    var now := Fronted(list[..n], dev) + list[n..];
    assert now[..n] == Fronted(list[..n], dev) && now[n + 1..] == list[n + 1..];
    assert list[n..] == [list[n]] + list[n + 1..];
  }
}
