/** The validator's range list: a linked list of block ranges, split and relabelled in
    place, that says of every 32-bit block number whether it is on the disk and how many
    partitions claim it. */
module Ranges {
  import opened Nodes

  const WORD := 0x1_0000_0000

  datatype RangeState = Unallocated | Allocated | MultiplyAllocated

  /** What the list says about one block. */
  datatype Mark = Mark(state: RangeState, valid: bool)

  datatype Seg = Seg(mark: Mark, start: nat, end: nat)

  function More(s: RangeState): RangeState {
    if s == Unallocated then Allocated else MultiplyAllocated
  }

  function Touch(m: Mark, allocate: bool): Mark {
    if allocate then m.(state := More(m.state)) else m.(valid := true)
  }

  /** Consecutive segments, both ends included, from lo up to but not including hi. */
  ghost predicate Segments(s: seq<Seg>, lo: nat, hi: nat) {
    && |s| > 0
    && s[0].start == lo
    && s[|s| - 1].end + 1 == hi
    && (forall i :: 0 <= i < |s| ==> s[i].start <= s[i].end)
    && (forall i, j :: 0 <= i && j == i + 1 && j < |s| ==> s[i].end + 1 == s[j].start)
  }

  /** The segments give every block in them the mark that f gives it. */
  ghost predicate Denotes(s: seq<Seg>, f: int -> Mark) {
    forall i, x {:trigger s[i], f(x)} :: 0 <= i < |s| && s[i].start <= x <= s[i].end ==> s[i].mark == f(x)
  }

  ghost function Touched(f: int -> Mark, lo: int, hi: int, allocate: bool): int -> Mark {
    x => if lo <= x < hi then Touch(f(x), allocate) else f(x)
  }

  /** Cutting a segment in two at c changes nothing. */
  function CutAt(s: seq<Seg>, i: nat, c: nat): seq<Seg>
    requires i < |s| && c > 0
  {
    s[..i] + [s[i].(end := c - 1), s[i].(start := c)] + s[i + 1..]
  }

  lemma CutElement(s: seq<Seg>, i: nat, c: nat, k: nat)
    requires i < |s| && c > 0 && k <= |s|
    ensures |CutAt(s, i, c)| == |s| + 1
    ensures CutAt(s, i, c)[k]
         == if k < i then s[k] else if k == i then s[i].(end := c - 1) else if k == i + 1 then s[i].(start := c) else s[k - 1]
  {
  }

  lemma CutKeeps(s: seq<Seg>, i: nat, c: nat, lo: nat, hi: nat, f: int -> Mark)
    requires Segments(s, lo, hi) && Denotes(s, f) && i < |s| && s[i].start < c <= s[i].end
    ensures Segments(CutAt(s, i, c), lo, hi) && Denotes(CutAt(s, i, c), f)
  {
    hide CutAt;
    var r := CutAt(s, i, c);
    CutElement(s, i, c, 0);
    CutElement(s, i, c, |s|);
    forall k | 0 <= k < |r| ensures r[k].start <= r[k].end { CutElement(s, i, c, k); }
    forall k, l | 0 <= k && l == k + 1 && l < |r| ensures r[k].end + 1 == r[l].start {
      CutElement(s, i, c, k);
      CutElement(s, i, c, l);
    }
    forall k, x | 0 <= k < |r| && r[k].start <= x <= r[k].end ensures r[k].mark == f(x) {
      CutElement(s, i, c, k);
      assert s[if k <= i then k else k - 1].mark == f(x);
    }
  }

  /** Relabelling the segment that is exactly [a, b). */
  lemma TouchKeeps(s: seq<Seg>, i: nat, lo: nat, hi: nat, f: int -> Mark, from: int, allocate: bool)
    requires Segments(s, lo, hi) && i < |s| && from <= s[i].start
    requires Denotes(s, Touched(f, from, s[i].start, allocate))
    ensures var r := s[i := s[i].(mark := Touch(s[i].mark, allocate))];
      Segments(r, lo, hi) && Denotes(r, Touched(f, from, s[i].end + 1, allocate))
  {
    var r := s[i := s[i].(mark := Touch(s[i].mark, allocate))];
    var g, h := Touched(f, from, s[i].start, allocate), Touched(f, from, s[i].end + 1, allocate);
    forall k, x | 0 <= k < |r| && r[k].start <= x <= r[k].end ensures r[k].mark == h(x) {
      SegmentsOrder(s, lo, hi, k, i);
      SegmentsOrder(s, lo, hi, i, k);
      assert s[k].mark == g(x);
    }
  }

  lemma {:induction false} SegmentsOrder(s: seq<Seg>, lo: nat, hi: nat, i: nat, j: nat)
    requires Segments(s, lo, hi) && i < |s| && j < |s|
    ensures i < j ==> s[i].end < s[j].start
    ensures lo <= s[i].start && s[i].end < hi
    decreases if i < j then j - i else 0, |s| - i + j
  {
    if i + 1 < j { SegmentsOrder(s, lo, hi, i, j - 1); }
    SegmentsBounds(s, lo, hi, i);
  }

  lemma {:induction false} SegmentsBounds(s: seq<Seg>, lo: nat, hi: nat, i: nat)
    requires Segments(s, lo, hi) && i < |s|
    ensures lo <= s[i].start && s[i].end < hi
  {
    SegmentsFrom(s, lo, hi, i);
    SegmentsTo(s, lo, hi, i);
  }

  lemma {:induction false} SegmentsFrom(s: seq<Seg>, lo: nat, hi: nat, i: nat)
    requires Segments(s, lo, hi) && i < |s|
    ensures lo <= s[i].start
  {
    if i == 0 {
    } else {
      SegmentsFrom(s, lo, hi, i - 1);
    }
  }

  lemma {:induction false} SegmentsTo(s: seq<Seg>, lo: nat, hi: nat, i: nat)
    requires Segments(s, lo, hi) && i < |s|
    ensures s[i].end < hi
    decreases |s| - i
  {
    if i + 1 >= |s| {
    } else {
      SegmentsTo(s, lo, hi, i + 1);
    }
  }

  /** Every block between lo and hi lies in some segment. */
  lemma {:induction false} SegmentOf(s: seq<Seg>, lo: nat, hi: nat, x: nat) returns (i: nat)
    requires Segments(s, lo, hi) && lo <= x < hi
    ensures i < |s| && s[i].start <= x <= s[i].end
  {
    i := 0;
    while x > s[i].end
      invariant i < |s| && s[i].start <= x
      decreases |s| - i
    {
      i := i + 1;
    }
  }

  /** Segments i and i + 1 as one. */
  function Joined(s: seq<Seg>, i: nat): seq<Seg>
    requires i + 1 < |s|
  {
    s[..i] + [s[i].(end := s[i + 1].end)] + s[i + 2..]
  }

  /** The first k + 1 segments differ each from the next. */
  ghost predicate Differ(s: seq<Seg>, k: nat) {
    forall a, b :: 0 <= a && b == a + 1 && b <= k && b < |s| ==> s[a].mark != s[b].mark
  }

  lemma JoinedElement(s: seq<Seg>, i: nat, k: nat)
    requires i + 1 < |s| && k + 1 < |s|
    ensures |Joined(s, i)| == |s| - 1
    ensures Joined(s, i)[k] == if k < i then s[k] else if k == i then s[i].(end := s[i + 1].end) else s[k + 1]
  {
  }

  lemma JoinKeeps(s: seq<Seg>, i: nat, lo: nat, hi: nat, f: int -> Mark)
    requires Segments(s, lo, hi) && Denotes(s, f) && i + 1 < |s| && s[i].mark == s[i + 1].mark && Differ(s, i)
    ensures Segments(Joined(s, i), lo, hi) && Denotes(Joined(s, i), f) && Differ(Joined(s, i), i)
  {
    hide Joined;
    var r := Joined(s, i);
    JoinedElement(s, i, 0);
    JoinedElement(s, i, |s| - 2);
    forall k | 0 <= k < |r| ensures r[k].start <= r[k].end { JoinedElement(s, i, k); }
    forall k, l | 0 <= k && l == k + 1 && l < |r| ensures r[k].end + 1 == r[l].start && (l <= i ==> r[k].mark != r[l].mark) {
      JoinedElement(s, i, k);
      JoinedElement(s, i, l);
    }
    forall k, x | 0 <= k < |r| && r[k].start <= x <= r[k].end ensures r[k].mark == f(x) {
      JoinedElement(s, i, k);
      assert s[if k < i || (k == i && x <= s[i].end) then k else k + 1].mark == f(x);
    }
  }

  class Item {
    var next: Item?
    var prev: Item?
    var state: RangeState
    var valid: bool
    var start: nat
    var end: nat

    constructor (state: RangeState, valid: bool, low: nat, high: nat)
      ensures next == null && prev == null
      ensures this.state == state && this.valid == valid && start == low && end == high
    {
      next, prev := null, null;
      this.state, this.valid, start, end := state, valid, low, high;
    }

    ghost function Segment(): Seg
      reads this`state, this`valid, this`start, this`end
    {
      Seg(Mark(state, valid), start, end)
    }
  }

  ghost function At(s: seq<Item>, i: int): Item? {
    if 0 <= i < |s| then s[i] else null
  }

  ghost predicate Links(s: seq<Item>)
    reads s`next, s`prev
  {
    && Distinct(s)
    && (forall i {:trigger s[i].next} :: 0 <= i < |s| ==> s[i].next == At(s, i + 1))
    && (forall i {:trigger s[i].prev} :: 0 <= i < |s| ==> s[i].prev == At(s, i - 1))
  }

  ghost function Segs(s: seq<Item>): (r: seq<Seg>)
    reads s`state, s`valid, s`start, s`end
    ensures |r| == |s|
    ensures forall i :: 0 <= i < |s| ==> r[i] == s[i].Segment()
  {
    if s == [] then [] else [s[0].Segment()] + Segs(s[1..])
  }

  /** Links that lead around item, put in before s[i], are the links of s with it put in. */
  lemma LinkedBefore(s: seq<Item>, i: nat, item: Item)
    requires i < |s| && Distinct(s) && item !in s
    requires forall j {:trigger s[j].next} :: 0 <= j < |s| ==> s[j].next == if j == i - 1 then item else At(s, j + 1)
    requires forall j {:trigger s[j].prev} :: 0 <= j < |s| ==> s[j].prev == if j == i then item else At(s, j - 1)
    requires item.next == s[i] && item.prev == At(s, i - 1)
    ensures Links(s[..i] + [item] + s[i..])
  {
    var r := s[..i] + [item] + s[i..];
    forall j | 0 <= j < |r| ensures r[j] == if j < i then s[j] else if j == i then item else s[j - 1] {}
  }

  lemma LinkedAfter(s: seq<Item>, i: nat, item: Item)
    requires i < |s| && Distinct(s) && item !in s
    requires forall j {:trigger s[j].next} :: 0 <= j < |s| ==> s[j].next == if j == i then item else At(s, j + 1)
    requires forall j {:trigger s[j].prev} :: 0 <= j < |s| ==> s[j].prev == if j == i + 1 then item else At(s, j - 1)
    requires item.next == At(s, i + 1) && item.prev == s[i]
    ensures Links(s[..i + 1] + [item] + s[i + 1..])
  {
    var r := s[..i + 1] + [item] + s[i + 1..];
    forall j | 0 <= j < |r| ensures r[j] == if j <= i then s[j] else if j == i + 1 then item else s[j - 1] {}
  }

  lemma LinkedWithout(s: seq<Item>, i: nat)
    requires i + 1 < |s| && Distinct(s)
    requires forall j {:trigger s[j].next} :: 0 <= j < |s| && j != i + 1 ==> s[j].next == if j == i then At(s, i + 2) else At(s, j + 1)
    requires forall j {:trigger s[j].prev} :: 0 <= j < |s| && j != i + 1 ==> s[j].prev == if j == i + 2 then s[i] else At(s, j - 1)
    ensures Links(s[..i + 1] + s[i + 2..])
  {
    var r := s[..i + 1] + s[i + 2..];
    forall j | 0 <= j < |r| ensures r[j] == if j <= i then s[j] else s[j + 1] {}
  }

  /** s with item beside s[i], whose segment was cut in two since segs was read. */
  lemma SegsCut(s: seq<Item>, segs: seq<Seg>, i: nat, c: nat, r: seq<Item>)
    requires i < |segs| == |s| && c > 0 && |r| == |s| + 1
    requires forall j :: 0 <= j < |s| && j != i ==> s[j].Segment() == segs[j]
    requires forall j :: 0 <= j < i ==> r[j] == s[j]
    requires forall j :: i + 2 <= j < |r| ==> r[j] == s[j - 1]
    requires r[i].Segment() == segs[i].(end := c - 1) && r[i + 1].Segment() == segs[i].(start := c)
    ensures Segs(r) == CutAt(segs, i, c)
  {
    hide Segs, CutAt;
    assert |Segs(r)| == |r|;
    CutElement(segs, i, c, 0);
    forall j | 0 <= j < |r| ensures Segs(r)[j] == CutAt(segs, i, c)[j] { CutElement(segs, i, c, j); }
  }

  class RangeList {
    var list: Item?
    ghost var items: seq<Item>

    ghost predicate Linked()
      reads this`list, this`items, items`next, items`prev
    {
      |items| > 0 && list == items[0] && Links(items)
    }

    ghost function Contents(): seq<Seg>
      reads this`items, items`state, items`valid, items`start, items`end
    {
      Segs(items)
    }

    /** The list covers every 32-bit block number once. */
    ghost predicate Valid()
      reads this`list, this`items, items`next, items`prev, items`state, items`valid, items`start, items`end
    {
      Linked() && Segments(Contents(), 0, WORD)
    }

    method PutBefore(item: Item, cur: Item, ghost i: nat)
      requires Linked() && i < |items| && items[i] == cur && item !in items
      modifies this`list, this`items, items`next, items`prev, item`next, item`prev
      ensures Linked() && items == old(items)[..i] + [item] + old(items)[i..]
    {
      if cur.prev == null {
        item.prev := null;
        list := item;
      } else {
        item.prev := cur.prev;
        item.prev.next := item;
      }
      cur.prev := item;
      item.next := cur;
      LinkedBefore(items, i, item);
      items := items[..i] + [item] + items[i..];
    }

    method PutAfter(item: Item, cur: Item, ghost i: nat)
      requires Linked() && i < |items| && items[i] == cur && item !in items
      modifies this`items, items`next, items`prev, item`next, item`prev
      ensures Linked() && items == old(items)[..i + 1] + [item] + old(items)[i + 1..]
    {
      if cur.next == null {
        item.next := null;
      } else {
        item.next := cur.next;
        item.next.prev := item;
      }
      cur.next := item;
      item.prev := cur;
      LinkedAfter(items, i, item);
      items := items[..i + 1] + [item] + items[i + 1..];
    }

    lemma ItemsDistinct()
      requires Linked()
      ensures Distinct(items)
    {
    }

    /** The part of cur before low becomes a node of its own. */
    method SplitBefore(cur: Item, low: nat, ghost i: nat) returns (ghost added: set<Item>)
      requires Linked() && i < |items| && items[i] == cur && low > 0
      modifies this`list, this`items, cur`start, Members(items)`next, Members(items)`prev
      ensures Linked() && Contents() == CutAt(old(Contents()), i, low)
      ensures i + 1 < |items| && items[i + 1] == cur && cur in Members(items) && cur.start == low
      ensures Members(items) == old(Members(items)) + added && fresh(added)
    {
      hide CutAt, Links, Segs;
      ItemsDistinct();
      ghost var s, segs := items, Contents();
      var item := new Item(cur.state, cur.valid, cur.start, low - 1);
      PutBefore(item, cur, i);
      MembersInserted(s, i, item);
      added := {item};
      cur.start := low;
      SegsCut(s, segs, i, low, items);
    }

    /** The part of cur after high becomes a node of its own. */
    method SplitAfter(cur: Item, high: nat, ghost i: nat) returns (ghost added: set<Item>)
      requires Linked() && i < |items| && items[i] == cur
      modifies this`items, cur`end, Members(items)`next, Members(items)`prev
      ensures Linked() && Contents() == CutAt(old(Contents()), i, high + 1)
      ensures i < |items| && items[i] == cur && cur in Members(items) && cur.end == high
      ensures Members(items) == old(Members(items)) + added && fresh(added)
    {
      hide CutAt, Links, Segs;
      ItemsDistinct();
      ghost var s, segs := items, Contents();
      var item := new Item(cur.state, cur.valid, high + 1, cur.end);
      PutAfter(item, cur, i);
      MembersInserted(s, i + 1, item);
      added := {item};
      cur.end := high;
      assert items[i] == cur && items[i + 1] == item;
      SegsCut(s, segs, i, high + 1, items);
    }

    lemma ContentsAt(i: nat)
      requires i < |items|
      ensures i < |Contents()| == |items| && Contents()[i] == items[i].Segment()
    {
    }

    lemma ValidIs()
      ensures Valid() <==> Linked() && Segments(Contents(), 0, WORD)
    {
    }

    method TouchItem(cur: Item, allocate: bool, ghost i: nat)
      requires Linked() && i < |items| && items[i] == cur
      modifies cur`state, cur`valid
      ensures Linked()
      ensures Contents() == old(Contents())[i := old(Contents()[i].(mark := Touch(Contents()[i].mark, allocate)))]
    {
      hide Links, Segs;
      ItemsDistinct();
      if allocate {
        match cur.state {
          case Unallocated => cur.state := Allocated;
          case Allocated => cur.state := MultiplyAllocated;
          case MultiplyAllocated => cur.state := MultiplyAllocated;
        }
      } else {
        cur.valid := true;
      }
    }

    /** If cur begins before low, that part is split off. */
    method StartAt(cur: Item, low: nat, ghost i: nat, ghost f: int -> Mark) returns (ghost k: nat, ghost added: set<Item>)
      requires Valid() && i < |items| && items[i] == cur && cur in Members(items)
      requires cur.start <= low <= cur.end && Denotes(Contents(), f)
      modifies this, Members(items)
      ensures Valid() && k < |items| && items[k] == cur && cur in Members(items)
      ensures cur.start == low && cur.end == old(cur.end) && Denotes(Contents(), f)
      ensures Members(items) == old(Members(items)) + added && fresh(added)
    {
      hide CutAt, Links, Segs, Segments, Denotes, Members;
      k, added := i, {};
      if cur.start < low {
        ContentsAt(i);
        CutKeeps(Contents(), i, low, 0, WORD, f);
        added := SplitBefore(cur, low, i);
        k := i + 1;
      }
    }

    /** If cur goes on after high, that part is split off. */
    method EndAt(cur: Item, high: nat, ghost i: nat, ghost f: int -> Mark) returns (ghost added: set<Item>)
      requires Valid() && i < |items| && items[i] == cur && cur in Members(items)
      requires cur.start <= high && Denotes(Contents(), f)
      modifies this, Members(items)
      ensures Valid() && i < |items| && items[i] == cur && cur in Members(items)
      ensures cur.start == old(cur.start) && cur.end == (if high < old(cur.end) then high else old(cur.end))
      ensures Denotes(Contents(), f)
      ensures Members(items) == old(Members(items)) + added && fresh(added)
    {
      hide CutAt, Links, Segs, Segments, Denotes, Members;
      added := {};
      if high < cur.end {
        ContentsAt(i);
        CutKeeps(Contents(), i, high + 1, 0, WORD, f);
        added := SplitAfter(cur, high, i);
      }
    }

    /** One node, which reaches to low or beyond, is cut to the range from low to high and
        marked. */
    method TouchRange(cur: Item, low: nat, high: nat, allocate: bool, ghost i: nat, ghost base: nat, ghost f: int -> Mark)
      returns (ghost k: nat, ghost added: set<Item>)
      requires Valid() && i < |items| && items[i] == cur && cur in Members(items) && base <= low <= high < WORD
      requires cur.start <= low <= cur.end
      requires Denotes(Contents(), Touched(f, base, low, allocate))
      modifies this, Members(items)
      ensures Valid() && k < |items| && items[k] == cur && cur in Members(items)
      ensures cur.start == low && low <= cur.end <= high && (cur.end == high || cur.end == old(cur.end))
      ensures Denotes(Contents(), Touched(f, base, cur.end + 1, allocate))
      ensures Members(items) == old(Members(items)) + added && fresh(added)
    {
      hide CutAt, Links, Linked, Contents, Segments, Denotes, Touched, Members, Valid;
      k, added := StartAt(cur, low, i, Touched(f, base, low, allocate));
      ghost var more := EndAt(cur, high, k, Touched(f, base, low, allocate));
      added := added + more;
      ContentsAt(k);
      ValidIs();
      TouchKeeps(Contents(), k, 0, WORD, f, base, allocate);
      TouchItem(cur, allocate, k);
      ValidIs();
    }

    lemma Walk(i: nat)
      requires Valid() && i < |items|
      ensures items[i].next == At(items, i + 1) && items[i] in Members(items)
      ensures 0 <= items[i].start <= items[i].end < WORD
      ensures i + 1 < |items| ==> items[i + 1].start == items[i].end + 1 < WORD
      ensures i + 1 == |items| ==> items[i].end == WORD - 1
    {
      var c := Contents();
      SegmentsBounds(c, 0, WORD, i);
      if i + 1 < |items| { SegmentsBounds(c, 0, WORD, i + 1); }
      assert i + 1 < |items| ==> c[i].end + 1 == c[i + 1].start;
    }

    lemma WalkStart()
      requires Valid()
      ensures |items| > 0 && list == items[0] && items[0].start == 0
    {
    }

    /** add_range. f is what the list said before; a range that is empty or goes past the
        last 32-bit block number is ignored. */
    method AddRange(base: nat, len: nat, allocate: bool, ghost f: int -> Mark) returns (ghost added: set<Item>)
      requires Valid() && Denotes(Contents(), f) && base < WORD && len < WORD
      modifies this, Members(items)
      ensures Valid() && Members(items) == old(Members(items)) + added && fresh(added)
      ensures Denotes(Contents(), if len == 0 || base + len > WORD then f else Touched(f, base, base + len, allocate))
    {
      hide Links, Linked, Segs, Segments, Denotes, Members, Valid;
      added := {};
      var low := base;
      var high := (base + len + WORD - 1) % WORD;
      if len == 0 || high < len - 1 {
        return;
      }
      assert high == base + len - 1;
      WalkStart();
      TouchedNothing(Contents(), f, base, allocate);
      var cur := list;
      ghost var i: nat, done: nat := 0, base;
      while low <= high
        invariant Valid() && Members(items) == old(Members(items)) + added && fresh(added)
        invariant i <= |items| && cur == At(items, i)
        invariant base <= done <= high + 1
        invariant low == done % WORD
        invariant i < |items| ==> items[i].start <= done
        invariant i == |items| <==> done == WORD
        invariant Denotes(Contents(), Touched(f, base, done, allocate))
        decreases if i < |items| then WORD - items[i].start else 0
      {
        if cur == null {
          break;
        }
        Walk(i);
        if low <= cur.end {
          ghost var more;
          i, more := TouchRange(cur, low, high, allocate, i, base, f);
          added := added + more;
          done := cur.end + 1;
          Walk(i);
          low := (cur.end + 1) % WORD;
        }
        cur := cur.next;
        i := i + 1;
      }
    }

    /** initialize_list: one node over every 32-bit block number. */
    constructor ()
      ensures Valid() && fresh(Members(items)) && Denotes(Contents(), _ => Mark(Unallocated, false))
    {
      var item := new Item(Unallocated, false, 0, WORD - 1);
      list := item;
      items := [item];
      new;
      assert Contents() == [Seg(Mark(Unallocated, false), 0, WORD - 1)];
    }

    method Unlink(cur: Item, item: Item, ghost i: nat)
      requires Linked() && i + 1 < |items| && items[i] == cur && items[i + 1] == item
      modifies this`items, items`next, items`prev
      ensures Linked() && items == old(items)[..i + 1] + old(items)[i + 2..]
    {
      cur.next := item.next;
      if item.next != null {
        item.next.prev := cur;
      }
      LinkedWithout(items, i);
      items := items[..i + 1] + items[i + 2..];
    }

    method Join(cur: Item, item: Item, ghost i: nat)
      requires Linked() && i + 1 < |items| && items[i] == cur && items[i + 1] == item
      modifies this`items, cur`end, Members(items)`next, Members(items)`prev
      ensures Linked() && Contents() == Joined(old(Contents()), i)
      ensures i < |items| == |old(items)| - 1 && items[i] == cur && Members(items) <= old(Members(items))
    {
      hide Joined, Links, Segs;
      ItemsDistinct();
      ghost var s, segs := items, Contents();
      cur.end := item.end;
      SegsJoined(s, segs, i);
      Unlink(cur, item, i);
    }

    /** coalesce_list: no two neighbours say the same, and every block has the mark it had. */
    method Coalesce(ghost f: int -> Mark)
      requires Valid() && Denotes(Contents(), f)
      modifies this, Members(items)
      ensures Valid() && Denotes(Contents(), f) && Differ(Contents(), |Contents()|)
      ensures Members(items) <= old(Members(items))
    {
      hide Links, Linked, Segs, Segments, Denotes, Members, Valid, Joined;
      WalkStart();
      var cur := list;
      ghost var i: nat := 0;
      while true
        invariant Valid() && Denotes(Contents(), f) && Differ(Contents(), i)
        invariant i < |items| && cur == items[i]
        invariant Members(items) <= old(Members(items))
        decreases |items| - i
      {
        Walk(i);
        var item := cur.next;
        if item == null {
          break;
        }
        ContentsAt(i);
        ContentsAt(i + 1);
        ValidIs();
        if cur.valid == item.valid && cur.state == item.state {
          JoinKeeps(Contents(), i, 0, WORD, f);
          Join(cur, item, i);
          ValidIs();
        } else {
          cur := cur.next;
          i := i + 1;
        }
      }
      ContentsAt(i);
    }

    /** The verdict of print_range_list: okay when it has nothing to complain about, that is,
        when every block on the disk is claimed once and no other block is claimed. */
    method Verdict(ghost f: int -> Mark) returns (okay: bool)
      requires Valid() && Denotes(Contents(), f)
      ensures okay <==> AllGood(f)
    {
      hide Links, Linked, Segs, Segments, Denotes, Members, Valid;
      WalkStart();
      var cur := list;
      ghost var i: nat := 0;
      okay := true;
      while cur != null
        invariant i <= |items| && cur == At(items, i)
        invariant okay <==> forall k :: 0 <= k < i ==> Good(Contents()[k].mark)
        decreases |items| - i
      {
        Walk(i);
        ContentsAt(i);
        if cur.valid {
          match cur.state {
            case Unallocated => okay := false;
            case Allocated =>
            case MultiplyAllocated => okay := false;
          }
        } else {
          match cur.state {
            case Unallocated =>
            case Allocated => okay := false;
            case MultiplyAllocated => okay := false;
          }
        }
        cur := cur.next;
        i := i + 1;
      }
      ValidIs();
      GoodEverywhere(Contents(), f);
    }
  }

  predicate Good(m: Mark) {
    if m.valid then m.state == Allocated else m.state == Unallocated
  }

  ghost predicate AllGood(f: int -> Mark) {
    forall x :: 0 <= x < WORD ==> Good(f(x))
  }

  lemma GoodEverywhere(s: seq<Seg>, f: int -> Mark)
    requires Segments(s, 0, WORD) && Denotes(s, f)
    ensures (forall k :: 0 <= k < |s| ==> Good(s[k].mark)) <==> AllGood(f)
  {
    if forall k :: 0 <= k < |s| ==> Good(s[k].mark) {
      forall x | 0 <= x < WORD ensures Good(f(x)) {
        var k := SegmentOf(s, 0, WORD, x);
        assert s[k].mark == f(x);
      }
    }
    if AllGood(f) {
      forall k | 0 <= k < |s| ensures Good(s[k].mark) {
        SegmentsBounds(s, 0, WORD, k);
        assert s[k].mark == f(s[k].start);
      }
    }
  }

  /** s without s[i + 1], whose range s[i] has taken over since segs was read. */
  lemma SegsJoined(s: seq<Item>, segs: seq<Seg>, i: nat)
    requires i + 1 < |segs| == |s|
    requires forall j :: 0 <= j < |s| && j != i ==> s[j].Segment() == segs[j]
    requires s[i].Segment() == segs[i].(end := segs[i + 1].end)
    ensures Segs(s[..i + 1] + s[i + 2..]) == Joined(segs, i)
  {
    hide Segs, Joined;
    var r := s[..i + 1] + s[i + 2..];
    JoinedElement(segs, i, 0);
    forall j | 0 <= j < |r| ensures Segs(r)[j] == Joined(segs, i)[j] {
      JoinedElement(segs, i, j);
      assert r[j] == if j <= i then s[j] else s[j + 1];
    }
  }

  lemma TouchedNothing(s: seq<Seg>, f: int -> Mark, base: int, allocate: bool)
    requires Denotes(s, f)
    ensures Denotes(s, Touched(f, base, base, allocate))
  {
  }
}
