/** validate_map: the block ranges of block zero and of every entry go into a range list,
    whose verdict is printed. */
module Validation {
  import opened Nodes
  import opened Ranges
  import opened PartitionTable

  datatype Range = Range(base: nat, len: nat, allocate: bool)
  {
    /** Empty ranges and ranges past the last block number count for nothing. */
    predicate Ignored() { len == 0 || base + len > WORD }

    predicate Holds(x: int) { !Ignored() && base <= x < base + len }
  }

  ghost function Marks(rs: seq<Range>): int -> Mark {
    if rs == [] then (_ => Mark(Unallocated, false))
    else
      var f, r := Marks(rs[..|rs| - 1]), rs[|rs| - 1];
      if r.Ignored() then f else Touched(f, r.base, r.base + r.len, r.allocate)
  }

  /** How many partitions claim block x. */
  function Claims(rs: seq<Range>, x: int): nat {
    if rs == [] then 0
    else Claims(rs[..|rs| - 1], x) + (if rs[|rs| - 1].allocate && rs[|rs| - 1].Holds(x) then 1 else 0)
  }

  ghost predicate OnDisk(rs: seq<Range>, x: int) {
    exists i :: 0 <= i < |rs| && !rs[i].allocate && rs[i].Holds(x)
  }

  function StateFor(claims: nat): RangeState {
    if claims == 0 then Unallocated else if claims == 1 then Allocated else MultiplyAllocated
  }

  /** Whatever the ranges and their order, a block's mark says whether some range put it on
      the disk and whether none, one or more partitions claim it. */
  lemma {:induction false} MarksCount(rs: seq<Range>, x: int)
    ensures Marks(rs)(x) == Mark(StateFor(Claims(rs, x)), OnDisk(rs, x))
  {
    if rs == [] {
    } else {
      var init, r := rs[..|rs| - 1], rs[|rs| - 1];
      MarksCount(init, x);
      assert forall i :: 0 <= i < |init| ==> init[i] == rs[i];
      assert OnDisk(rs, x) <==> OnDisk(init, x) || (!r.allocate && r.Holds(x));
    }
  }

  /** Each block on the disk is claimed once and no other block is claimed. */
  ghost predicate Sound(rs: seq<Range>) {
    forall x :: 0 <= x < WORD ==> Claims(rs, x) == (if OnDisk(rs, x) then 1 else 0)
  }

  /** The list is okay exactly when each block on the disk is claimed once and no other
      block is claimed. */
  lemma OkayMeans(rs: seq<Range>)
    ensures AllGood(Marks(rs)) <==> Sound(rs)
  {
    if AllGood(Marks(rs)) {
      forall x | 0 <= x < WORD ensures Claims(rs, x) == (if OnDisk(rs, x) then 1 else 0) {
        MarksCount(rs, x);
        assert Good(Marks(rs)(x));
      }
    }
    if Sound(rs) {
      forall x | 0 <= x < WORD ensures Good(Marks(rs)(x)) { MarksCount(rs, x); }
    }
  }

  /** The range of block zero, then those of the entries by number. */
  function RangesOf(blockCount: nat, entries: seq<Part>): seq<Range> {
    if entries == [] then [Range(1, (blockCount + WORD - 1) % WORD, false)]
    else RangesOf(blockCount, entries[..|entries| - 1]) + [Range(entries[|entries| - 1].start, entries[|entries| - 1].blocks, true)]
  }

  method ValidateMap(blockCount: nat, entries: seq<Part>) returns (okay: bool)
    requires blockCount < WORD
    requires forall i :: 0 <= i < |entries| ==> entries[i].start < WORD && entries[i].blocks < WORD
    ensures okay <==> Sound(RangesOf(blockCount, entries))
  {
    hide RangeList.Valid, RangeList.Contents, Denotes, Members, Marks, Sound, Touched, Differ;
    var list := new RangeList();
    NothingMarked(list.Contents(), _ => Mark(Unallocated, false));
    ghost var more := AddTo(list, Range(1, (blockCount + WORD - 1) % WORD, false), []);
    assert [] + [Range(1, (blockCount + WORD - 1) % WORD, false)] == RangesOf(blockCount, entries[..0]);
    ghost var added := Members(list.items);
    var i := 0;
    while i < |entries|
      invariant 0 <= i <= |entries|
      invariant list.Valid() && fresh(list) && Members(list.items) <= added && fresh(added)
      invariant Denotes(list.Contents(), Marks(RangesOf(blockCount, entries[..i])))
    {
      var entry := entries[i];
      more := AddTo(list, Range(entry.start, entry.blocks, true), RangesOf(blockCount, entries[..i]));
      added := added + more;
      assert entries[..i + 1][..i] == entries[..i];
      i := i + 1;
    }
    assert entries[..i] == entries;
    list.Coalesce(Marks(RangesOf(blockCount, entries)));
    okay := list.Verdict(Marks(RangesOf(blockCount, entries)));
    OkayMeans(RangesOf(blockCount, entries));
  }

  /** One call of add_range, on a list that stands for the ranges rs. */
  method AddTo(list: RangeList, r: Range, ghost rs: seq<Range>) returns (ghost added: set<Item>)
    requires list.Valid() && Denotes(list.Contents(), Marks(rs)) && r.base < WORD && r.len < WORD
    modifies list, Members(list.items)
    ensures list.Valid() && Denotes(list.Contents(), Marks(rs + [r]))
    ensures Members(list.items) == old(Members(list.items)) + added && fresh(added)
  {
    hide RangeList.Valid, RangeList.Contents, Denotes, Members, Marks, Touched;
    added := list.AddRange(r.base, r.len, r.allocate, Marks(rs));
    MarksStep(rs, r);
  }

  lemma NothingMarked(s: seq<Seg>, f: int -> Mark)
    requires Denotes(s, f) && forall x :: f(x) == Mark(Unallocated, false)
    ensures Denotes(s, Marks([]))
  {
    forall i, x | 0 <= i < |s| && s[i].start <= x <= s[i].end ensures s[i].mark == Marks([])(x) {
      assert s[i].mark == f(x);
    }
  }

  lemma MarksStep(rs: seq<Range>, r: Range)
    ensures Marks(rs + [r]) == if r.Ignored() then Marks(rs) else Touched(Marks(rs), r.base, r.base + r.len, r.allocate)
  {
    assert (rs + [r])[..|rs|] == rs;
  }

  /* ---------- the editor's tables under the validator ---------- */

  function Contains(p: Part, x: int): bool { p.start <= x < p.End() }

  lemma {:induction false} NoClaims(blockCount: nat, ps: seq<Part>, x: int)
    requires forall i :: 0 <= i < |ps| ==> !Contains(ps[i], x)
    ensures Claims(RangesOf(blockCount, ps), x) == 0
  {
    if ps == [] {
      ClaimsBlockZero(blockCount, x);
    } else {
      NoClaims(blockCount, ps[..|ps| - 1], x);
      ClaimsStep(blockCount, ps, x);
    }
  }

  lemma ClaimsBlockZero(blockCount: nat, x: int)
    ensures Claims(RangesOf(blockCount, []), x) == 0
  {
    var r := RangesOf(blockCount, []);
    assert r[..|r| - 1] == [];
  }

  lemma ClaimsStep(blockCount: nat, ps: seq<Part>, x: int)
    requires ps != []
    ensures var p := ps[|ps| - 1];
      Claims(RangesOf(blockCount, ps), x) == Claims(RangesOf(blockCount, ps[..|ps| - 1]), x)
        + if Range(p.start, p.blocks, true).Holds(x) then 1 else 0
  {
    var r := RangesOf(blockCount, ps);
    assert r[..|r| - 1] == RangesOf(blockCount, ps[..|ps| - 1]);
  }

  /** A block in exactly one entry is claimed once. */
  lemma {:induction false} OneClaim(blockCount: nat, ps: seq<Part>, x: int, k: nat)
    requires k < |ps| && Contains(ps[k], x) && ps[k].End() <= WORD
    requires forall i :: 0 <= i < |ps| && i != k ==> !Contains(ps[i], x)
    ensures Claims(RangesOf(blockCount, ps), x) == 1
  {
    ClaimsStep(blockCount, ps, x);
    if k == |ps| - 1 {
      NoClaims(blockCount, ps[..k], x);
    } else {
      OneClaim(blockCount, ps[..|ps| - 1], x, k);
    }
  }

  lemma {:induction false} DiskBlocks(blockCount: nat, ps: seq<Part>, x: int)
    ensures OnDisk(RangesOf(blockCount, ps), x) <==> Range(1, (blockCount + WORD - 1) % WORD, false).Holds(x)
    ensures |RangesOf(blockCount, ps)| == |ps| + 1
  {
    var rs := RangesOf(blockCount, ps);
    if ps == [] {
      assert rs[0] == Range(1, (blockCount + WORD - 1) % WORD, false);
    } else {
      var init := RangesOf(blockCount, ps[..|ps| - 1]);
      DiskBlocks(blockCount, ps[..|ps| - 1], x);
      assert forall i :: 0 <= i < |init| ==> rs[i] == init[i];
      assert rs[|init|].allocate;
    }
  }

  /** In an edited table each block of [1, mediaSize) is in one entry, every other in none. */
  lemma TableClaims(t: Table, blockCount: nat, x: int)
    requires Core(t)
    ensures Claims(RangesOf(blockCount, t.disk), x) == if 1 <= x < t.mediaSize then 1 else 0
  {
    TilesAreSorted(t.base, 1, t.mediaSize);
    if 1 <= x < t.mediaSize {
      var k := TileOf(t.base, 1, t.mediaSize, x);
      InDisk(t, k);
      var d := IndexOfStart(t.disk, t.base[k].start);
      forall i | 0 <= i < |t.disk| && i != d ensures !Contains(t.disk[i], x) {
        OthersElsewhere(t, k, i, x);
      }
      OneClaim(blockCount, t.disk, x, d);
    } else {
      forall i | 0 <= i < |t.disk| ensures !Contains(t.disk[i], x) {
        InBase(t, i);
      }
      NoClaims(blockCount, t.disk, x);
    }
  }

  lemma OthersElsewhere(t: Table, k: nat, i: nat, x: int)
    requires Core(t) && k < |t.base| && i < |t.disk| && t.disk[i].start != t.base[k].start && Contains(t.base[k], x)
    ensures !Contains(t.disk[i], x)
  {
    InBase(t, i);
  }

  lemma TileOf(s: seq<Part>, lo: nat, hi: nat, x: nat) returns (k: nat)
    requires Tiles(s, lo, hi) && lo <= x < hi
    ensures k < |s| && Contains(s[k], x)
  {
    k := 0;
    while x >= s[k].End()
      invariant k < |s| && s[k].start <= x
      decreases |s| - k
    {
      k := k + 1;
    }
  }

  lemma LessOne(n: nat)
    requires n < WORD
    ensures (n + WORD - 1) % WORD == if n == 0 then WORD - 1 else n - 1
  {
  }

  /** The verdict on any edited table: okay exactly when block zero records the size that
      the map was made for. */
  lemma ValidatorVerdict(t: Table, blockCount: nat)
    requires Inv(t) && blockCount < WORD
    ensures Sound(RangesOf(blockCount, t.disk)) <==> blockCount == t.mediaSize
  {
    assert 2 <= t.mediaSize < WORD;
    hide Core, Claims, OnDisk, RangesOf;
    var rs := RangesOf(blockCount, t.disk);
    LessOne(blockCount);
    if blockCount == t.mediaSize {
      forall x | 0 <= x < WORD ensures Claims(rs, x) == (if OnDisk(rs, x) then 1 else 0) {
        TableClaims(t, blockCount, x);
        DiskBlocks(blockCount, t.disk, x);
      }
    } else {
      var x := if blockCount == 0 then WORD - 1 else if blockCount < t.mediaSize then blockCount else t.mediaSize;
      TableClaims(t, blockCount, x);
      DiskBlocks(blockCount, t.disk, x);
      assert Claims(rs, x) != (if OnDisk(rs, x) then 1 else 0);
    }
  }

  /** After any run of editing commands the validator says okay, provided only that the block
      count in block zero is the size of the medium. */
  lemma EditedMapsAreOkay(mediaSize: nat, cs: seq<Command>, blockCount: nat)
    requires 2 <= mediaSize < WORD && AllLegal(cs) && blockCount < WORD
    ensures Sound(RangesOf(blockCount, Run(mediaSize, cs).disk)) <==> blockCount == mediaSize
  {
    hide Inv, Run;
    ValidatorVerdict(Run(mediaSize, cs), blockCount);
  }
}
