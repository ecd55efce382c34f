/**
 * What a shrinking restore makes of a log entry (restore.c): a map update behind the end of the volumes is
 * dropped, and the inode of a stream loses its blocks there. What its two sizes become is a parameter.
 */
module LogFudge {
  import opened LogEdits
  import opened Media
  import opened Volumes
  import opened LogRecords
  import ByteOrder
  import Crc

  /** The sizes of the kinds of entries, and where their fields are (log.h). */
  const ENTRY := 26
  const MAP_UPDATE := 42
  const INODE_UPDATE := 78

  const TRANS_TYPE := 18
  const MAP_SECTOR := 30
  const INODE_SIZE := 50
  const BLOCK_USED := 58
  const INODE_TYPE := 66
  const DATA_SIZE := 74

  const MAP: nat := 0
  const INODE: nat := 1
  const STREAM: bv8 := 2

  const WORD := 0x1_0000_0000

  /** The size and the used blocks that an inode is given. */
  type Sizes = Bytes -> (nat, nat)

  function Int(n: nat): (s: Bytes)
    ensures |s| == 4
  {
    Crc.BigEndian(ByteOrder.Int(n))
  }

  function Short(n: nat): (s: Bytes)
    ensures |s| == 2
  {
    [ByteOrder.Digit(n / 256), ByteOrder.Digit(n)]
  }

  /** The number of blocks of an inode update. */
  function Blocks(e: Bytes): nat
    requires |e| >= INODE_UPDATE
  {
    Field(e, DATA_SIZE) / 8
  }

  function BlockAt(e: Bytes, i: nat): (s: Bytes)
    requires INODE_UPDATE + 8 * i + 8 <= |e|
    ensures |s| == 8
  {
    e[INODE_UPDATE + 8 * i..INODE_UPDATE + 8 * i + 8]
  }

  /** Block i lies on the volumes. */
  predicate Stays(e: Bytes, i: nat, volsize: nat)
    requires INODE_UPDATE + 8 * i + 8 <= |e|
  {
    Field(BlockAt(e, i), 0) < volsize
  }

  /** Those of the first k blocks that lie on the volumes, in their order. */
  function Kept(e: Bytes, volsize: nat, k: nat): (r: Bytes)
    requires INODE_UPDATE + 8 * k <= |e|
    ensures |r| <= 8 * k && |r| % 8 == 0
  {
    if k == 0 then [] else Kept(e, volsize, k - 1) + if Stays(e, k - 1, volsize) then BlockAt(e, k - 1) else []
  }

  /** The update of a stream's inode, with its blocks inside the entry. */
  predicate StreamUpdate(e: Bytes) {
    && |e| >= INODE_UPDATE && Field(e, TRANS_TYPE) == INODE && e[INODE_TYPE] == STREAM
    && Field(e, DATA_SIZE) + INODE_UPDATE <= |e|
  }

  /** The bytes of the blocks that are lost. */
  function Lost(e: Bytes, volsize: nat): (r: nat)
    requires StreamUpdate(e)
    ensures r <= Field(e, DATA_SIZE)
  {
    8 * Blocks(e) - |Kept(e, volsize, Blocks(e))|
  }

  /** A number in a field. */
  function WithInt(e: Bytes, at: nat, n: nat): (r: Bytes)
    requires at + 4 <= |e|
    ensures |r| == |e|
  {
    Put(e, at, Int(n))
  }

  /** The fields that go with fewer blocks. */
  function WithSizes(e: Bytes, lost: nat, sizes: (nat, nat)): (r: Bytes)
    requires |e| >= INODE_UPDATE && lost <= |e| - 2 && lost <= Field(e, DATA_SIZE)
    ensures |r| == |e|
  {
    var shorter := Put(e, 0, Short(|e| - 2 - lost));
    WithInt(WithInt(WithInt(shorter, INODE_SIZE, sizes.0), BLOCK_USED, sizes.1), DATA_SIZE, Field(e, DATA_SIZE) - lost)
  }

  /** The entry as it is afterwards, empty when it is dropped. */
  function Fudge(e: Bytes, volsize: nat, sizes: Sizes): Bytes {
    if |e| < ENTRY then e
    else if Field(e, TRANS_TYPE) == MAP then
      if |e| >= MAP_UPDATE && Field(e, MAP_SECTOR) >= volsize then [] else e
    else if StreamUpdate(e) && Lost(e, volsize) > 0 then Smaller(e, volsize, sizes(e))
    else e
  }

  /** The inode update without the lost blocks, and with these sizes. */
  function Smaller(e: Bytes, volsize: nat, sizes: (nat, nat)): (r: Bytes)
    requires StreamUpdate(e)
    ensures |r| == |e| - Lost(e, volsize)
  {
    LostIs(e, volsize);
    WithSizes(WithBlocks(e, volsize), Lost(e, volsize), sizes)[..|e| - Lost(e, volsize)]
  }

  /** The blocks that stay, over the first of all of them. */
  function WithBlocks(e: Bytes, volsize: nat): (r: Bytes)
    requires StreamUpdate(e)
    ensures |r| == |e|
  {
    Put(e, INODE_UPDATE, Kept(e, volsize, Blocks(e)))
  }

  /* ---------- in place ---------- */

  lemma PutMore(e: Bytes, at: nat, s: Bytes, t: Bytes)
    requires at + |s| + |t| <= |e|
    ensures Put(Put(e, at, s), at + |s|, t) == Put(e, at, s + t)
  {
  }

  lemma PutNothing(e: Bytes, at: nat)
    requires at <= |e|
    ensures Put(e, at, []) == e
  {
  }

  /** Fields before what is put in. */
  lemma FieldStays(e: Bytes, at: nat, s: Bytes, field: nat)
    requires at + |s| <= |e| && field + 4 <= at
    ensures Field(Put(e, at, s), field) == Field(e, field)
  {
    assert Put(e, at, s)[field..field + 4] == e[field..field + 4];
  }

  /** The blocks as far as none is lost. */
  lemma {:induction false} AllStay(e: Bytes, volsize: nat, k: nat)
    requires INODE_UPDATE + 8 * k <= |e| && |Kept(e, volsize, k)| == 8 * k
    ensures Kept(e, volsize, k) == e[INODE_UPDATE..INODE_UPDATE + 8 * k]
  {
    hide Kept, Field;
    if k == 0 {
    } else {
      NextBlock(e, volsize, k - 1);
      AllStay(e, volsize, k - 1);
      NextBytes(e, INODE_UPDATE, 8 * k - 8, 8);
    }
  }

  lemma NextBytes(e: Bytes, at: nat, m: nat, n: nat)
    requires at + m + n <= |e|
    ensures e[at..at + m] + e[at + m..at + m + n] == e[at..at + m + n]
  {
  }

  lemma PutSame(e: Bytes, at: nat, s: Bytes)
    requires at + |s| <= |e| && s == e[at..at + |s|]
    ensures Put(e, at, s) == e
  {
  }

  /** A block that is not reached yet is still as it was. */
  lemma StillThere(e: Bytes, s: Bytes, i: nat)
    requires |s| <= 8 * i && INODE_UPDATE + 8 * i + 8 <= |e|
    ensures BlockAt(Put(e, INODE_UPDATE, s), i) == BlockAt(e, i)
  {
  }

  lemma BlockSector(b: Bytes, i: nat)
    requires INODE_UPDATE + 8 * i + 8 <= |b|
    ensures Field(b, INODE_UPDATE + 8 * i) == Field(BlockAt(b, i), 0)
  {
    assert BlockAt(b, i)[..4] == b[INODE_UPDATE + 8 * i..INODE_UPDATE + 8 * i + 4];
  }

  /** The blocks of an inode update are moved over the lost ones. */
  method MoveBlocks(buf: array<bv8>, volsize: nat, ghost e: Bytes) returns (shrunk: nat)
    requires buf[..] == e && StreamUpdate(e)
    modifies buf
    ensures buf[..] == WithBlocks(e, volsize) && shrunk == Lost(e, volsize)
    ensures shrunk == 0 ==> buf[..] == e
    ensures Field(buf[..], DATA_SIZE) == Field(e, DATA_SIZE)
  {
    hide Put, Kept, BlockAt, Field, StreamUpdate, WithBlocks, Lost;
    BlocksInside(e, volsize);
    var n := Field(buf[..], DATA_SIZE) / 8;
    var loc, spot := 0, 0;
    shrunk := 0;
    while loc < n
      invariant 0 <= loc <= n && spot <= loc && |Kept(e, volsize, loc)| == 8 * spot && shrunk == 8 * (loc - spot)
      invariant buf[..] == Put(e, INODE_UPDATE, Kept(e, volsize, loc))
    {
      NextMoved(e, volsize, loc);
      if Field(buf[..], INODE_UPDATE + 8 * loc) < volsize {
        if shrunk > 0 { CopyIn(buf, INODE_UPDATE + 8 * spot, BlockAt(buf[..], loc)); }
        spot := spot + 1;
      } else {
        shrunk := shrunk + 8;
      }
      loc := loc + 1;
    }
    if shrunk == 0 { SameBlocks(e, volsize, n); }
  }

  lemma BlocksInside(e: Bytes, volsize: nat)
    requires StreamUpdate(e)
    ensures |e| >= INODE_UPDATE && INODE_UPDATE + 8 * Blocks(e) <= |e| && Blocks(e) == Field(e, DATA_SIZE) / 8
    ensures Kept(e, volsize, 0) == [] && Put(e, INODE_UPDATE, []) == e
    ensures WithBlocks(e, volsize) == Put(e, INODE_UPDATE, Kept(e, volsize, Blocks(e)))
    ensures Lost(e, volsize) == 8 * Blocks(e) - |Kept(e, volsize, Blocks(e))|
    ensures Field(WithBlocks(e, volsize), DATA_SIZE) == Field(e, DATA_SIZE)
  {
    FieldStays(e, INODE_UPDATE, Kept(e, volsize, Blocks(e)), DATA_SIZE);
    PutNothing(e, INODE_UPDATE);
  }

  /** One block more: it is still where it was, and goes behind those that stay, if it does. */
  lemma NextMoved(e: Bytes, volsize: nat, k: nat)
    requires INODE_UPDATE + 8 * k + 8 <= |e|
    ensures var kept, next := Kept(e, volsize, k), Kept(e, volsize, k + 1);
            var b, block := Put(e, INODE_UPDATE, kept), BlockAt(e, k);
            && BlockAt(b, k) == block
            && if Field(b, INODE_UPDATE + 8 * k) < volsize
               then |next| == |kept| + 8 && Put(b, INODE_UPDATE + |kept|, block) == Put(e, INODE_UPDATE, next)
                    && (|kept| == 8 * k ==> Put(e, INODE_UPDATE, next) == b)
               else next == kept
  {
    hide Put, Kept, BlockAt, Field;
    var kept, next := Kept(e, volsize, k), Kept(e, volsize, k + 1);
    StillThere(e, kept, k);
    BlockSector(Put(e, INODE_UPDATE, kept), k);
    NextBlock(e, volsize, k);
    PutMore(e, INODE_UPDATE, kept, BlockAt(e, k));
    SameBlocks(e, volsize, k + 1);
  }

  lemma NextBlock(e: Bytes, volsize: nat, k: nat)
    requires INODE_UPDATE + 8 * k + 8 <= |e|
    ensures Kept(e, volsize, k + 1) == if Field(BlockAt(e, k), 0) < volsize then Kept(e, volsize, k) + BlockAt(e, k) else Kept(e, volsize, k)
  {
  }

  lemma SameBlocks(e: Bytes, volsize: nat, k: nat)
    requires INODE_UPDATE + 8 * k <= |e|
    ensures |Kept(e, volsize, k)| == 8 * k ==> Put(e, INODE_UPDATE, Kept(e, volsize, k)) == e
    ensures k > 0 && |Kept(e, volsize, k)| == 8 * k ==> Put(e, INODE_UPDATE, Kept(e, volsize, k - 1)) == e
  {
    hide Put, Stays;
    if |Kept(e, volsize, k)| == 8 * k {
      AllStay(e, volsize, k);
      PutSame(e, INODE_UPDATE, Kept(e, volsize, k));
      if k > 0 {
        AllStay(e, volsize, k - 1);
        PutSame(e, INODE_UPDATE, Kept(e, volsize, k - 1));
      }
    }
  }

  /** Changes an entry in place and says how many of its last bytes go. */
  method FudgeLog(buf: array<bv8>, volsize: nat, sizes: Sizes) returns (shrunk: nat)
    requires IsEntry(buf[..])
    modifies buf
    ensures shrunk <= buf.Length && buf[..buf.Length - shrunk] == Fudge(old(buf[..]), volsize, sizes)
    ensures shrunk == 0 || shrunk == buf.Length ==> buf[..] == old(buf[..])
  {
    hide Put, Kept, Int, Short, ByteOrder.ValueOf, WithInt, Lost, EntryLength;
    ghost var e := buf[..];
    shrunk := 0;
    if EntryLength(buf[..]) < ENTRY {
      return;
    }
    var kind := Field(buf[..], TRANS_TYPE);
    if kind == MAP {
      if buf.Length >= MAP_UPDATE && Field(buf[..], MAP_SECTOR) >= volsize {
        shrunk := buf.Length;
      }
    } else if kind == INODE {
      if buf.Length < INODE_UPDATE || buf[INODE_TYPE] != STREAM {
        return;
      }
      if buf.Length >= Field(buf[..], DATA_SIZE) + INODE_UPDATE {
        var new_ := sizes(buf[..]);
        shrunk := MoveBlocks(buf, volsize, e);
        if shrunk > 0 { SetSizes(buf, shrunk, new_); }
      }
    }
  }

  method SetSizes(buf: array<bv8>, lost: nat, sizes: (nat, nat))
    requires buf.Length >= INODE_UPDATE && lost <= buf.Length - 2 && lost <= Field(buf[..], DATA_SIZE)
    modifies buf
    ensures buf[..] == WithSizes(old(buf[..]), lost, sizes)
  {
    hide Put, Int, Short, ByteOrder.ValueOf;
    var size := Field(buf[..], DATA_SIZE) - lost;
    CopyIn(buf, 0, Short(buf.Length - 2 - lost));
    CopyIn(buf, INODE_SIZE, Int(sizes.0));
    CopyIn(buf, BLOCK_USED, Int(sizes.1));
    CopyIn(buf, DATA_SIZE, Int(size));
  }

  /* ---------- what it makes of an entry ---------- */

  lemma ShortLength(s: Bytes, n: nat)
    requires |s| >= 2 && n < 0x1_0000 && s[0..2] == Short(n)
    ensures EntryLength(s) == n + 2
  {
    hide ByteOrder.ByteValue, ByteOrder.Digit;
    assert s[0] == s[0..2][0] == Short(n)[0] && s[1] == s[0..2][1] == Short(n)[1];
    ByteOrder.DigitIs(n / 256);
    ByteOrder.DigitIs(n);
    TwoDigits(n);
  }

  lemma TwoDigits(n: nat)
    requires n < 0x1_0000
    ensures 256 * (n / 256 % 256) + n % 256 == n
  {
  }

  lemma EntrySmall(e: Bytes)
    requires IsEntry(e)
    ensures |e| - 2 < 0x1_0000
  {
    hide ByteOrder.ByteValue;
    ByteOrder.ByteSmall(e[0]);
    ByteOrder.ByteSmall(e[1]);
  }

  lemma IntField(e: Bytes, at: nat, n: nat)
    requires at + 4 <= |e| && n < WORD
    ensures Field(WithInt(e, at, n), at) == n
  {
    hide Put, ByteOrder.ValueOf, ByteOrder.Int, Crc.BigEndian;
    PutSlice(e, at, Int(n));
    ByteOrder.ValueOfInt(n);
  }

  lemma SameSlice(e: Bytes, at: nat, s: Bytes, lo: nat, hi: nat)
    requires at + |s| <= |e| && lo <= hi <= |e| && (hi <= at || at + |s| <= lo)
    ensures Put(e, at, s)[lo..hi] == e[lo..hi]
  {
  }

  /** A part that has none of the fields. */
  lemma PartStays(e: Bytes, lost: nat, sizes: (nat, nat), lo: nat, hi: nat)
    requires |e| >= INODE_UPDATE && lost <= |e| - 2 && lost <= Field(e, DATA_SIZE) && 2 <= lo <= hi <= |e|
    requires (hi <= INODE_SIZE || INODE_SIZE + 4 <= lo) && (hi <= BLOCK_USED || BLOCK_USED + 4 <= lo)
    requires hi <= DATA_SIZE || INODE_UPDATE <= lo
    ensures WithSizes(e, lost, sizes)[lo..hi] == e[lo..hi]
  {
    hide Put, Int, Short;
    var a := Put(e, 0, Short(|e| - 2 - lost));
    SameSlice(e, 0, Short(|e| - 2 - lost), lo, hi);
    var b := WithInt(a, INODE_SIZE, sizes.0);
    SameSlice(a, INODE_SIZE, Int(sizes.0), lo, hi);
    var c := WithInt(b, BLOCK_USED, sizes.1);
    SameSlice(b, BLOCK_USED, Int(sizes.1), lo, hi);
    SameSlice(c, DATA_SIZE, Int(Field(e, DATA_SIZE) - lost), lo, hi);
  }

  lemma HeadSet(e: Bytes, lost: nat, sizes: (nat, nat))
    requires |e| >= INODE_UPDATE && lost <= |e| - 2 && lost <= Field(e, DATA_SIZE) < WORD
    ensures WithSizes(e, lost, sizes)[0..2] == Short(|e| - 2 - lost)
    ensures Field(WithSizes(e, lost, sizes), DATA_SIZE) == Field(e, DATA_SIZE) - lost
  {
    hide Put, Int, Short, Field;
    var a := Put(e, 0, Short(|e| - 2 - lost));
    PutSlice(e, 0, Short(|e| - 2 - lost));
    var b := WithInt(a, INODE_SIZE, sizes.0);
    SameSlice(a, INODE_SIZE, Int(sizes.0), 0, 2);
    var c := WithInt(b, BLOCK_USED, sizes.1);
    SameSlice(b, BLOCK_USED, Int(sizes.1), 0, 2);
    SameSlice(c, DATA_SIZE, Int(Field(e, DATA_SIZE) - lost), 0, 2);
    IntField(c, DATA_SIZE, Field(e, DATA_SIZE) - lost);
  }

  lemma FieldSmall(e: Bytes, at: nat)
    requires at + 4 <= |e|
    ensures Field(e, at) < WORD
  {
    hide ByteOrder.ByteValue;
    ByteOrder.ByteSmall(e[at]);
    ByteOrder.ByteSmall(e[at + 1]);
    ByteOrder.ByteSmall(e[at + 2]);
    ByteOrder.ByteSmall(e[at + 3]);
  }

  /** A shorter prefix has the same fields. */
  lemma FieldOfPrefix(e: Bytes, n: nat, at: nat)
    requires at + 4 <= n <= |e|
    ensures Field(e[..n], at) == Field(e, at)
  {
    assert e[..n][at..at + 4] == e[at..at + 4];
  }

  lemma LostIs(e: Bytes, volsize: nat)
    requires StreamUpdate(e)
    ensures |e| >= INODE_UPDATE && Field(e, TRANS_TYPE) == INODE && e[INODE_TYPE] == STREAM
    ensures Lost(e, volsize) == 8 * Blocks(e) - |Kept(e, volsize, Blocks(e))| <= Field(e, DATA_SIZE) <= |e| - INODE_UPDATE
    ensures 8 * Blocks(e) <= Field(e, DATA_SIZE) < 8 * Blocks(e) + 8 && Field(e, DATA_SIZE) < WORD
    ensures INODE_UPDATE + 8 * Blocks(e) <= |e| && |Kept(e, volsize, Blocks(e))| <= 8 * Blocks(e)
    ensures Field(WithBlocks(e, volsize), DATA_SIZE) == Field(e, DATA_SIZE)
  {
    FieldSmall(e, DATA_SIZE);
    hide Put, Kept, Field;
    FieldStays(e, INODE_UPDATE, Kept(e, volsize, Blocks(e)), DATA_SIZE);
  }

  /** The bytes of a prefix. */
  lemma PrefixSlice(e: Bytes, n: nat, lo: nat, hi: nat)
    requires lo <= hi <= n <= |e|
    ensures e[..n][lo..hi] == e[lo..hi]
  {
  }

  lemma SmallerIs(e: Bytes, volsize: nat, sizes: (nat, nat))
    requires StreamUpdate(e)
    ensures var b, lost := WithBlocks(e, volsize), Lost(e, volsize);
            && |b| == |e| >= INODE_UPDATE && lost <= Field(b, DATA_SIZE) == Field(e, DATA_SIZE) < WORD && lost <= |b| - INODE_UPDATE
            && Smaller(e, volsize, sizes) == WithSizes(b, lost, sizes)[..|b| - lost]
  {
    hide Field, Lost, Kept, Put, StreamUpdate, WithSizes, WithBlocks;
    LostIs(e, volsize);
  }

  /** A part of the entry after its blocks have been moved, its fields set, and its end cut off. */
  lemma SmallerPart(e: Bytes, volsize: nat, sizes: (nat, nat), lo: nat, hi: nat)
    requires StreamUpdate(e) && 2 <= lo <= hi <= |e| - Lost(e, volsize)
    requires (hi <= INODE_SIZE || INODE_SIZE + 4 <= lo) && (hi <= BLOCK_USED || BLOCK_USED + 4 <= lo)
    requires hi <= DATA_SIZE || INODE_UPDATE <= lo
    ensures Smaller(e, volsize, sizes)[lo..hi] == WithBlocks(e, volsize)[lo..hi]
  {
    hide Field, Lost, StreamUpdate, WithSizes, WithBlocks, Smaller;
    SmallerIs(e, volsize, sizes);
    var b, lost := WithBlocks(e, volsize), Lost(e, volsize);
    PartStays(b, lost, sizes, lo, hi);
    PrefixSlice(WithSizes(b, lost, sizes), |e| - lost, lo, hi);
  }

  lemma HeadCut(b: Bytes, lost: nat, sizes: (nat, nat))
    requires |b| >= INODE_UPDATE && lost <= |b| - INODE_UPDATE && |b| - 2 < 0x1_0000 && lost <= Field(b, DATA_SIZE) < WORD
    ensures var r := WithSizes(b, lost, sizes)[..|b| - lost];
            EntryLength(r) == |r| && Field(r, DATA_SIZE) == Field(b, DATA_SIZE) - lost
  {
    hide Field, WithSizes, EntryLength, Short;
    var t := WithSizes(b, lost, sizes);
    HeadSet(b, lost, sizes);
    FieldOfPrefix(t, |b| - lost, DATA_SIZE);
    PrefixSlice(t, |b| - lost, 0, 2);
    ShortLength(t[..|b| - lost], |b| - 2 - lost);
  }

  lemma SmallerHead(e: Bytes, volsize: nat, sizes: (nat, nat))
    requires IsEntry(e) && StreamUpdate(e)
    ensures var r := Smaller(e, volsize, sizes);
            |r| >= INODE_UPDATE && IsEntry(r) && Field(r, DATA_SIZE) == Field(e, DATA_SIZE) - Lost(e, volsize)
  {
    hide Field, Lost, StreamUpdate, WithSizes, WithBlocks, Smaller, EntryLength;
    EntrySmall(e);
    SmallerIs(e, volsize, sizes);
    HeadCut(WithBlocks(e, volsize), Lost(e, volsize), sizes);
  }

  lemma MovedPart(e: Bytes, volsize: nat, sizes: (nat, nat), lo: nat, hi: nat)
    requires StreamUpdate(e) && 2 <= lo <= hi <= |e| - Lost(e, volsize)
    requires (hi <= INODE_SIZE || INODE_SIZE + 4 <= lo) && (hi <= BLOCK_USED || BLOCK_USED + 4 <= lo)
    requires hi <= DATA_SIZE || INODE_UPDATE + |Kept(e, volsize, Blocks(e))| <= lo
    ensures Smaller(e, volsize, sizes)[lo..hi] == e[lo..hi]
  {
    hide Put, Kept, Field, Lost, StreamUpdate, Smaller, Blocks;
    SmallerPart(e, volsize, sizes, lo, hi);
    LostIs(e, volsize);
    SameSlice(e, INODE_UPDATE, Kept(e, volsize, Blocks(e)), lo, hi);
  }

  lemma MovedBlocks(e: Bytes, volsize: nat, sizes: (nat, nat))
    requires StreamUpdate(e)
    ensures var r, kept := Smaller(e, volsize, sizes), Kept(e, volsize, Blocks(e));
            INODE_UPDATE + |kept| <= |r| && r[INODE_UPDATE..INODE_UPDATE + |kept|] == kept
  {
    hide Put, Kept, Field, Lost, StreamUpdate, Smaller, Blocks;
    LostIs(e, volsize);
    SmallerPart(e, volsize, sizes, INODE_UPDATE, INODE_UPDATE + |Kept(e, volsize, Blocks(e))|);
    PutSlice(e, INODE_UPDATE, Kept(e, volsize, Blocks(e)));
  }

  lemma FudgedIs(e: Bytes, volsize: nat, sizes: Sizes)
    requires StreamUpdate(e) && Lost(e, volsize) > 0
    ensures Fudge(e, volsize, sizes) == Smaller(e, volsize, sizes(e))
  {
    hide Smaller, Lost, Field;
  }

  /**
   * r is the inode update e with kept as its blocks: its length and the size of its data are less by what is
   * lost, and outside the fields for these and for the two other sizes nothing has changed. What lies behind
   * the blocks is not moved up.
   */
  predicate Trimmed(e: Bytes, r: Bytes, kept: Bytes) {
    && INODE_UPDATE + |kept| <= |r| <= |e| && IsEntry(r) && Field(r, DATA_SIZE) + |e| == Field(e, DATA_SIZE) + |r|
    && r[INODE_UPDATE..INODE_UPDATE + |kept|] == kept
    && r[INODE_UPDATE + |kept|..|r|] == e[INODE_UPDATE + |kept|..|r|]
    && r[2..INODE_SIZE] == e[2..INODE_SIZE] && r[INODE_SIZE + 4..BLOCK_USED] == e[INODE_SIZE + 4..BLOCK_USED]
    && r[BLOCK_USED + 4..DATA_SIZE] == e[BLOCK_USED + 4..DATA_SIZE]
  }

  lemma SmallerTrimmed(e: Bytes, volsize: nat, sizes: (nat, nat))
    requires IsEntry(e) && StreamUpdate(e)
    ensures Trimmed(e, Smaller(e, volsize, sizes), Kept(e, volsize, Blocks(e)))
  {
    hide Kept, Field, Smaller, Lost, StreamUpdate, EntryLength, IsEntry, Blocks;
    LostIs(e, volsize);
    SmallerHead(e, volsize, sizes);
    MovedBlocks(e, volsize, sizes);
    MovedPart(e, volsize, sizes, INODE_UPDATE + |Kept(e, volsize, Blocks(e))|, |e| - Lost(e, volsize));
    MovedPart(e, volsize, sizes, 2, INODE_SIZE);
    MovedPart(e, volsize, sizes, INODE_SIZE + 4, BLOCK_USED);
    MovedPart(e, volsize, sizes, BLOCK_USED + 4, DATA_SIZE);
  }

  lemma SmallerSizes(e: Bytes, volsize: nat, sizes: (nat, nat))
    requires StreamUpdate(e) && sizes.0 < WORD && sizes.1 < WORD
    ensures var r := Smaller(e, volsize, sizes);
            |r| >= INODE_UPDATE && Field(r, INODE_SIZE) == sizes.0 && Field(r, BLOCK_USED) == sizes.1
  {
    hide Kept, Lost, WithSizes, Field;
    LostIs(e, volsize);
    var b := WithBlocks(e, volsize);
    BlocksInside(e, volsize);
    SizesSet(b, Lost(e, volsize), sizes);
    FieldOfPrefix(WithSizes(b, Lost(e, volsize), sizes), |e| - Lost(e, volsize), INODE_SIZE);
    FieldOfPrefix(WithSizes(b, Lost(e, volsize), sizes), |e| - Lost(e, volsize), BLOCK_USED);
  }

  lemma SizesSet(e: Bytes, lost: nat, sizes: (nat, nat))
    requires |e| >= INODE_UPDATE && lost <= |e| - 2 && lost <= Field(e, DATA_SIZE) && sizes.0 < WORD && sizes.1 < WORD
    ensures Field(WithSizes(e, lost, sizes), INODE_SIZE) == sizes.0 && Field(WithSizes(e, lost, sizes), BLOCK_USED) == sizes.1
  {
    hide Put, Int, Short, ByteOrder.ValueOf;
    var a := Put(e, 0, Short(|e| - 2 - lost));
    var b := WithInt(a, INODE_SIZE, sizes.0);
    var c := WithInt(b, BLOCK_USED, sizes.1);
    IntField(a, INODE_SIZE, sizes.0);
    IntField(b, BLOCK_USED, sizes.1);
    SameSlice(b, BLOCK_USED, Int(sizes.1), INODE_SIZE, INODE_SIZE + 4);
    SameSlice(c, DATA_SIZE, Int(Field(e, DATA_SIZE) - lost), INODE_SIZE, INODE_SIZE + 4);
    SameSlice(c, DATA_SIZE, Int(Field(e, DATA_SIZE) - lost), BLOCK_USED, BLOCK_USED + 4);
  }

  /** A stream's inode that loses blocks keeps exactly those on the volumes, and in their order. */
  lemma FudgedStream(e: Bytes, volsize: nat, sizes: Sizes)
    requires IsEntry(e) && StreamUpdate(e) && Lost(e, volsize) > 0
    ensures |Fudge(e, volsize, sizes)| == |e| - Lost(e, volsize)
    ensures Trimmed(e, Fudge(e, volsize, sizes), Kept(e, volsize, Blocks(e)))
  {
    hide Kept, Smaller, Lost, Trimmed, Blocks;
    LostIs(e, volsize);
    FudgedIs(e, volsize, sizes);
    SmallerTrimmed(e, volsize, sizes(e));
  }

  /** What a restore does to entries, as the walk over the log applies it. */
  function Fudger(volsize: nat, sizes: Sizes): Bytes -> Bytes {
    e => Fudge(e, volsize, sizes)
  }

  /** Every entry is left alone, gets shorter with its length in step, or goes. */
  lemma FudgeShortens(volsize: nat, sizes: Sizes)
    ensures Shortens(Fudger(volsize, sizes))
  {
    var edit := Fudger(volsize, sizes);
    hide EntryLength, Field, Kept, Lost, StreamUpdate, Smaller;
    forall e | IsEntry(e)
      ensures (Apply(edit, e) == e || |Apply(edit, e)| < |e|) && (Apply(edit, e) == [] || IsEntry(Apply(edit, e)))
    {
      if StreamUpdate(e) && Lost(e, volsize) > 0 { SmallerHead(e, volsize, sizes(e)); }
    }
  }

  /* ---------- entries on the volumes ---------- */

  /** Each of the blocks that stay lies on the volumes. */
  lemma {:induction false} KeptStays(e: Bytes, volsize: nat, k: nat, i: nat)
    requires INODE_UPDATE + 8 * k <= |e| && 8 * i + 8 <= |Kept(e, volsize, k)|
    ensures Field(Kept(e, volsize, k)[8 * i..8 * i + 8], 0) < volsize
  {
    hide Kept, Field, BlockAt;
    if k == 0 {
    } else {
      NextBlock(e, volsize, k - 1);
      var kept := Kept(e, volsize, k - 1);
      if 8 * i + 8 <= |kept| {
        KeptStays(e, volsize, k - 1, i);
        assert Kept(e, volsize, k)[8 * i..8 * i + 8] == kept[8 * i..8 * i + 8];
      } else {
        assert Kept(e, volsize, k)[8 * i..8 * i + 8] == BlockAt(e, k - 1);
      }
    }
  }

  lemma {:induction false} NoneLost(r: Bytes, volsize: nat, k: nat)
    requires INODE_UPDATE + 8 * k <= |r| && forall i :: 0 <= i < k ==> Stays(r, i, volsize)
    ensures |Kept(r, volsize, k)| == 8 * k
  {
    hide Stays;
    if k == 0 {
    } else {
      NoneLost(r, volsize, k - 1);
    }
  }

  lemma TrimmedHead(e: Bytes, r: Bytes, kept: Bytes)
    requires Trimmed(e, r, kept)
    ensures Field(r, TRANS_TYPE) == Field(e, TRANS_TYPE) && r[INODE_TYPE] == e[INODE_TYPE]
  {
    hide IsEntry;
    PartOf(e, r, 2, INODE_SIZE, TRANS_TYPE, TRANS_TYPE + 4);
    PartOf(e, r, BLOCK_USED + 4, DATA_SIZE, INODE_TYPE, INODE_TYPE + 1);
    assert r[INODE_TYPE] == r[INODE_TYPE..INODE_TYPE + 1][0] && e[INODE_TYPE] == e[INODE_TYPE..INODE_TYPE + 1][0];
  }

  lemma Inside(s: Bytes, lo: nat, hi: nat, m: nat, n: nat)
    requires lo <= hi <= |s| && m <= n <= hi - lo
    ensures s[lo..hi][m..n] == s[lo + m..lo + n]
  {
    var a, b := s[lo..hi][m..n], s[lo + m..lo + n];
    assert |a| == |b| && forall i :: 0 <= i < |a| ==> a[i] == s[lo + m + i] == b[i];
  }

  lemma PartOf(e: Bytes, r: Bytes, lo: nat, hi: nat, a: nat, b: nat)
    requires lo <= a <= b <= hi <= |r| && hi <= |e| && r[lo..hi] == e[lo..hi]
    ensures r[a..b] == e[a..b]
  {
    Inside(r, lo, hi, a - lo, b - lo);
    Inside(e, lo, hi, a - lo, b - lo);
  }

  lemma TrimmedBlock(e: Bytes, r: Bytes, kept: Bytes, i: nat)
    requires Trimmed(e, r, kept) && 8 * i + 8 <= |kept|
    ensures INODE_UPDATE + 8 * i + 8 <= |r| && BlockAt(r, i) == kept[8 * i..8 * i + 8]
  {
    hide IsEntry, Field;
    Inside(r, INODE_UPDATE, INODE_UPDATE + |kept|, 8 * i, 8 * i + 8);
  }

  lemma FudgeKeeps(e: Bytes, volsize: nat, sizes: Sizes)
    ensures StreamUpdate(e) && Lost(e, volsize) == 0 ==> Fudge(e, volsize, sizes) == e
    ensures !StreamUpdate(e) ==> Fudge(e, volsize, sizes) == e || Fudge(e, volsize, sizes) == []
    ensures Fudge([], volsize, sizes) == []
  {
    hide Field, Lost, Smaller;
  }

  /** Nothing is left to be taken from an entry that has been changed. */
  lemma FudgedTwice(e: Bytes, volsize: nat, sizes: Sizes)
    requires IsEntry(e)
    ensures Fudge(Fudge(e, volsize, sizes), volsize, sizes) == Fudge(e, volsize, sizes)
  {
    hide Fudge, Kept, Lost, StreamUpdate, Trimmed, Blocks, IsEntry;
    FudgeKeeps(e, volsize, sizes);
    if StreamUpdate(e) && Lost(e, volsize) > 0 {
      LostIs(e, volsize);
      FudgedStream(e, volsize, sizes);
      NothingLost(e, Fudge(e, volsize, sizes), Kept(e, volsize, Blocks(e)), volsize);
      FudgeKeeps(Fudge(e, volsize, sizes), volsize, sizes);
    }
  }

  lemma NothingLost(e: Bytes, r: Bytes, kept: Bytes, volsize: nat)
    requires StreamUpdate(e) && kept == Kept(e, volsize, Blocks(e)) && Trimmed(e, r, kept)
    requires |r| == |e| - Lost(e, volsize)
    ensures StreamUpdate(r) && Lost(r, volsize) == 0
  {
    hide Field, Kept, IsEntry, Lost;
    LostIs(e, volsize);
    TrimmedHead(e, r, kept);
    var n := |kept| / 8;
    Eighths(Field(e, DATA_SIZE), Field(r, DATA_SIZE), Blocks(e), |kept|);
    forall i | 0 <= i < n ensures Stays(r, i, volsize) {
      KeptStays(e, volsize, Blocks(e), i);
      TrimmedBlock(e, r, kept, i);
    }
    NoneLost(r, volsize, n);
    LostNone(r, volsize);
  }

  lemma Eighths(d: nat, less: nat, n: nat, kept: nat)
    requires n == d / 8 && kept % 8 == 0 && kept <= 8 * n && less == d - (8 * n - kept)
    ensures less / 8 == kept / 8
  {
  }

  lemma LostNone(r: Bytes, volsize: nat)
    requires StreamUpdate(r) && |Kept(r, volsize, Blocks(r))| == 8 * Blocks(r)
    ensures Lost(r, volsize) == 0
  {
  }

  /**
   * Where sizes have 32 bits, the test that the blocks are inside the entry passes for data sizes up to 76
   * below 2^32, too, and for no others than those.
   */
  lemma WrappedTest(e: Bytes)
    requires INODE_UPDATE <= |e| < WORD
    ensures (Field(e, DATA_SIZE) + INODE_UPDATE - 2) % WORD <= |e| - 2
            <==> Field(e, DATA_SIZE) + INODE_UPDATE <= |e| || Field(e, DATA_SIZE) >= WORD - (INODE_UPDATE - 2)
  {
    FieldSmall(e, DATA_SIZE);
    hide Field;
    Wraps(Field(e, DATA_SIZE) + INODE_UPDATE - 2);
  }

  lemma Wraps(n: nat)
    requires n < 2 * WORD
    ensures n % WORD == if n < WORD then n else n - WORD
  {
  }

  /* ---------- an entry over two records ---------- */

  /** The update of a stream's inode with one block of 1 sector, at sector 8. */
  const UPDATE: Bytes :=
    UPDATE_HEAD + [0, 0, 0, 1, 0, 0, 2, 0, 0, 0, 0, 1, 0, 0, 0, 0, 2, 8, 0, 0, 0, 0, 0, 0] + [0, 0, 0, 8] + [0, 0, 0, 8, 0, 0, 0, 1]

  /** Its length of 84, its type, and the words before its sizes. */
  const UPDATE_HEAD: Bytes :=
    [0, 84, 0, 0, 0, 0, 0, 0, 0, 1, 0, 0, 0, 0, 0, 0, 0, 5] + [0, 0, 0, 1]
    + [0, 0, 0, 0, 0, 0, 0, 7, 0, 0, 0, 1, 0, 0, 0, 1, 0, 0, 0, 0, 0, 0, 0, 5, 0, 0, 0, 0]

  lemma SmallNumbers()
    ensures ByteOrder.ValueOf([0, 0, 0, 1]) == 1 && ByteOrder.ValueOf([0, 0, 0, 8]) == 8
    ensures ByteOrder.ByteValue(0) == 0 && ByteOrder.ByteValue(84) == 84
  {
  }

  lemma UpdateFields()
    ensures |UPDATE| == 86 && UPDATE[0] == 0 && UPDATE[1] == 84 && UPDATE[INODE_TYPE] == STREAM
    ensures UPDATE[TRANS_TYPE..TRANS_TYPE + 4] == [0, 0, 0, 1] && UPDATE[DATA_SIZE..DATA_SIZE + 4] == [0, 0, 0, 8]
    ensures UPDATE[INODE_UPDATE..INODE_UPDATE + 8][0..4] == [0, 0, 0, 8]
  {
  }

  lemma UpdateIs(sizes: Sizes)
    ensures IsEntry(UPDATE) && StreamUpdate(UPDATE) && Lost(UPDATE, 8) == 8
  {
    UpdateFields();
    SmallNumbers();
    hide ByteOrder.ByteValue, ByteOrder.ValueOf;
    assert Kept(UPDATE, 8, 0) == [];
    NextBlock(UPDATE, 8, 0);
  }

  /**
   * With volumes of 8 sectors the one block of this update is lost. Of its first 10 bytes, in the first of
   * two records, the length is stored as it was, although the entry has 8 bytes less.
   */
  lemma StaleLength(sizes: Sizes)
    ensures var edit, a, b := Fudger(8, sizes), Record([], UPDATE[..10]), Record(UPDATE[10..], []);
            && Consistent([a, b]) && Stored([a, b], edit) == [a, Record(Fudge(UPDATE, 8, sizes)[10..], [])]
            && Stream([a, b]) == UPDATE && |Fudge(UPDATE, 8, sizes)| == 78
            && Stream(Stored([a, b], edit)) != Edited(Stream([a, b]), edit) == Fudge(UPDATE, 8, sizes)
  {
    UpdateIs(sizes);
    UpdateFields();
    FudgeShortens(8, sizes);
    FudgedStream(UPDATE, 8, sizes);
    hide Fudge, IsEntry, Shortens, Lost, StreamUpdate, Trimmed, Consistent, Stored, Stream, Edited, Kept;
    StaleEntry(UPDATE, Fudger(8, sizes), 10);
  }
}
