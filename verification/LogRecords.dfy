/**
 * Log records in their sectors (log.h): a stamp, a checksum, where the first entry starts and how many
 * bytes there are; and the changes in place that editing their entries takes (restore.c).
 */
module LogRecords {
  import opened LogEdits
  import opened Media
  import opened Volumes
  import ByteOrder
  import Crc

  const FIRST := 8
  const SIZE := 12
  const BODY := 16
  const MOST := 0x1f0

  function Field(record: Bytes, at: nat): nat
    requires at + 4 <= |record|
  {
    ByteOrder.ValueOf(record[at..at + 4])
  }

  /** The bytes s lie at a position of b. */
  predicate Lies(b: Bytes, at: nat, s: Bytes) { at + |s| <= |b| && b[at..at + |s|] == s }

  /** t is b but for at most what lies from lo to hi. */
  predicate SameBut(b: Bytes, t: Bytes, lo: nat, hi: nat) {
    lo <= hi <= |b| && |t| == |b| && b[..lo] == t[..lo] && b[hi..] == t[hi..]
  }

  /** The sector holds the record: what it begins with, and the entries that begin in it. */
  predicate IsRecord(b: Bytes, r: Record) {
    && |b| == SECTOR && Field(b, FIRST) == |r.front| && Field(b, SIZE) == |r.front| + |r.entries| <= MOST
    && Lies(b, BODY, r.front + r.entries)
  }

  /** The first entry does not start behind the last byte, and that is inside the sector. */
  predicate Formed(b: Bytes) {
    |b| == SECTOR && Field(b, FIRST) <= Field(b, SIZE) <= MOST
  }

  function RecordOf(b: Bytes): Record
    requires Formed(b)
  {
    Record(b[BODY..BODY + Field(b, FIRST)], b[BODY + Field(b, FIRST)..BODY + Field(b, SIZE)])
  }

  lemma FormedIs(b: Bytes)
    requires Formed(b)
    ensures IsRecord(b, RecordOf(b))
  {
    hide Field, Lies;
    Parted(b, BODY, RecordOf(b).front, RecordOf(b).entries);
  }

  lemma Parted(b: Bytes, at: nat, s: Bytes, t: Bytes)
    requires at + |s| + |t| <= |b| && b[at..at + |s|] == s && b[at + |s|..at + |s| + |t|] == t
    ensures Lies(b, at, s + t)
  {
  }

  lemma RecordIs(b: Bytes, r: Record)
    requires IsRecord(b, r)
    ensures Formed(b) && RecordOf(b) == r
  {
    hide Field, Lies;
    LieBoth(b, BODY, r.front, r.entries);
    LiesIs(b, BODY, r.front);
    LiesIs(b, BODY + |r.front|, r.entries);
  }

  /* ---------- where bytes lie ---------- */

  lemma LieBoth(b: Bytes, at: nat, s: Bytes, t: Bytes)
    ensures Lies(b, at, s + t) <==> Lies(b, at, s) && Lies(b, at + |s|, t)
  {
    if at + |s| + |t| <= |b| {
      var u := b[at..at + |s| + |t|];
      assert u[..|s|] == b[at..at + |s|] && u[|s|..] == b[at + |s|..at + |s| + |t|];
      assert u == u[..|s|] + u[|s|..];
      assert (s + t)[..|s|] == s && (s + t)[|s|..] == t;
    }
  }

  lemma StillLies(b: Bytes, t: Bytes, lo: nat, hi: nat, at: nat, s: Bytes)
    requires SameBut(b, t, lo, hi) && Lies(b, at, s) && (at + |s| <= lo || hi <= at)
    ensures Lies(t, at, s)
  {
    if at + |s| <= lo {
      assert b[..lo][at..at + |s|] == b[at..at + |s|] && t[..lo][at..at + |s|] == t[at..at + |s|];
    } else {
      assert b[hi..][at - hi..at - hi + |s|] == b[at..at + |s|] && t[hi..][at - hi..at - hi + |s|] == t[at..at + |s|];
    }
  }

  lemma SameTwice(b: Bytes, c: Bytes, d: Bytes, lo: nat, hi: nat)
    requires SameBut(b, c, lo, hi) && SameBut(c, d, lo, hi)
    ensures SameBut(b, d, lo, hi)
  {
  }

  lemma SameWider(b: Bytes, t: Bytes, lo: nat, hi: nat, low: nat, high: nat)
    requires SameBut(b, t, lo, hi) && low <= lo && hi <= high <= |b|
    ensures SameBut(b, t, low, high)
  {
    assert b[..lo][..low] == b[..low] && t[..lo][..low] == t[..low];
    assert b[hi..][high - hi..] == b[high..] && t[hi..][high - hi..] == t[high..];
  }

  lemma SameField(b: Bytes, t: Bytes, lo: nat, hi: nat, at: nat)
    requires SameBut(b, t, lo, hi) && at + 4 <= |b| && (at + 4 <= lo || hi <= at)
    ensures Field(b, at) == Field(t, at)
  {
    hide SameBut;
    StillLies(b, t, lo, hi, at, b[at..at + 4]);
  }

  lemma PutLies(b: Bytes, at: nat, n: Bytes)
    requires at + |n| <= |b|
    ensures Lies(Put(b, at, n), at, n) && SameBut(b, Put(b, at, n), at, at + |n|)
  {
  }

  /** The same as putting the bytes there. */
  method PutBytes(buf: array<bv8>, at: nat, n: Bytes, ghost lo: nat, ghost hi: nat)
    requires lo <= at && at + |n| <= hi <= buf.Length
    modifies buf
    ensures Lies(buf[..], at, n) && SameBut(old(buf[..]), buf[..], at, at + |n|) && SameBut(old(buf[..]), buf[..], lo, hi)
  {
    hide Put, Lies, SameBut;
    ghost var b := buf[..];
    PutLies(b, at, n);
    CopyIn(buf, at, n);
    SameWider(b, buf[..], at, at + |n|, lo, hi);
  }

  method SetField(buf: array<bv8>, at: nat, n: nat)
    requires buf.Length == SECTOR && at + 4 <= BODY && n < 0x1_0000_0000
    modifies buf
    ensures Field(buf[..], at) == n && SameBut(old(buf[..]), buf[..], at, at + 4)
  {
    hide ByteOrder.Int, ByteOrder.ValueOf, Crc.BigEndian, SameBut;
    var bytes := Crc.BigEndian(ByteOrder.Int(n));
    PutBytes(buf, at, bytes, at, at + 4);
    ByteOrder.ValueOfInt(n);
  }

  /* ---------- the entries of one record ---------- */

  /** Edits the first of the entries left in place: where it ends now, and where all of them do. */
  method EditEntry(buf: array<bv8>, start: nat, end: nat, edit: Bytes -> Bytes, ghost first: nat, ghost done: Bytes, ghost rest: Bytes)
    returns (next: nat, size: nat)
    requires buf.Length == SECTOR && start == first + |done| && end == start + |rest| <= MOST
    requires Lies(buf[..], BODY + first, done + rest) && Shortens(edit) && Begins(rest)
    modifies buf
    ensures SameBut(old(buf[..]), buf[..], BODY + first, BODY + end)
    ensures var k := EntryLength(rest);
            && k <= |rest| && |Apply(edit, rest[..k])| <= k
            && next == start + |Apply(edit, rest[..k])| && size == next + |rest| - k
            && Lies(buf[..], BODY + first, done + Apply(edit, rest[..k]) + rest[k..])
  {
    hide EntryLength, Shortens, IsEntry, Begins, Apply, Lies, SameBut;
    ghost var b := buf[..];
    FirstShortens(rest, edit);
    LieBoth(b, BODY + first, done, rest);
    LiesIs(b, BODY + start, rest);
    var length := EntryLength(buf[BODY + start..BODY + end]);
    ghost var e, after := rest[..length], rest[length..];
    assert rest == e + after;
    LieBoth(b, BODY + start, e, after);
    LiesIs(b, BODY + start, e);
    var n := Apply(edit, buf[BODY + start..BODY + start + length]);
    size, next := end - (length - |n|), start + |n|;
    if |n| < length {
      MoveUp(buf, BODY + start, length, n, BODY + end, after);
      MovedUp(b, buf[..], BODY + first, done, n, after, BODY + end);
    } else {
      assert done + n + after == done + rest;
      NoneChanged(b, BODY + first, BODY + end);
    }
  }

  lemma MovedUp(b: Bytes, t: Bytes, at: nat, done: Bytes, n: Bytes, after: Bytes, end: nat)
    requires SameBut(b, t, at + |done|, end) && Lies(b, at, done)
    requires Lies(t, at + |done|, n) && Lies(t, at + |done| + |n|, after)
    ensures Lies(t, at, done + n + after) && SameBut(b, t, at, end)
  {
    SameWider(b, t, at + |done|, end, at, end);
    hide Lies, SameBut;
    StillLies(b, t, at + |done|, end, at, done);
    LieBoth(t, at, done, n);
    LieBoth(t, at, done + n, after);
  }

  lemma NoneChanged(b: Bytes, lo: nat, hi: nat)
    requires lo <= hi <= |b|
    ensures SameBut(b, b, lo, hi)
  {
  }

  lemma LiesIs(b: Bytes, at: nat, s: Bytes)
    requires Lies(b, at, s)
    ensures at + |s| <= |b| && b[at..at + |s|] == s
  {
  }

  lemma FirstShortens(s: Bytes, edit: Bytes -> Bytes)
    requires Begins(s) && Shortens(edit)
    ensures EntryLength(s) <= |s|
    ensures var e := s[..EntryLength(s)]; Apply(edit, e) == e || |Apply(edit, e)| < |e|
  {
    hide EntryLength, IsEntry, Apply;
    FirstIsEntry(s);
  }

  /** Puts fewer bytes in the place of some, and moves those that follow up to them. */
  method MoveUp(buf: array<bv8>, at: nat, length: nat, n: Bytes, end: nat, ghost after: Bytes)
    requires |n| <= length && at + length + |after| == end <= buf.Length && Lies(buf[..], at + length, after)
    modifies buf
    ensures SameBut(old(buf[..]), buf[..], at, end)
    ensures Lies(buf[..], at, n) && Lies(buf[..], at + |n|, after)
  {
    hide Lies, SameBut;
    ghost var b := buf[..];
    PutBytes(buf, at, n, at, end);
    ghost var c := buf[..];
    StillLies(b, c, at, at + |n|, at + length, after);
    LiesIs(c, at + length, after);
    PutBytes(buf, at + |n|, buf[at + length..end], at, end);
    StillLies(c, buf[..], at + |n|, at + |n| + |after|, at, n);
    SameTwice(b, c, buf[..], at, end);
  }

  /** Edits the complete entries between two offsets in place, and gives the new end. */
  method EditEntries(buf: array<bv8>, first: nat, end: nat, edit: Bytes -> Bytes, ghost all: Bytes) returns (size: nat)
    requires buf.Length == SECTOR && first + |all| == end <= MOST && Shortens(edit) && Lies(buf[..], BODY + first, all)
    modifies buf
    ensures size == first + |Edited(all, edit)| <= end
    ensures Lies(buf[..], BODY + first, Edited(all, edit)) && SameBut(old(buf[..]), buf[..], BODY + first, BODY + end)
  {
    hide EntryLength, Shortens, Edited, IsEntry, Apply, Lies, SameBut;
    ghost var was := buf[..];
    ghost var done: Bytes, rest := [], all;
    size := end;
    var start := first;
    assert done + rest == all;
    LiesIs(was, BODY + first, all);
    NoneChanged(was, BODY + first, BODY + end);
    while start + 2 <= size && start + EntryLength(buf[BODY + start..BODY + size]) <= size
      invariant start == first + |done| && size == start + |rest| <= end
      invariant buf[BODY + start..BODY + size] == rest
      invariant Lies(buf[..], BODY + first, done + rest) && SameBut(was, buf[..], BODY + first, BODY + end)
      invariant done + Edited(rest, edit) == Edited(all, edit)
      decreases size - start
    {
      ghost var b := buf[..];
      EditedFirst(done, rest, edit);
      ghost var k, n := EntryLength(rest), Apply(edit, rest[..EntryLength(rest)]);
      ghost var before := size;
      start, size := EditEntry(buf, start, size, edit, first, done, rest);
      SameWider(b, buf[..], BODY + first, BODY + before, BODY + first, BODY + end);
      SameTwice(was, b, buf[..], BODY + first, BODY + end);
      done, rest := done + n, rest[k..];
      LiesBehind(buf[..], first, start, size, done, rest);
    }
    NothingBegins(rest, edit);
  }

  lemma LiesBehind(b: Bytes, first: nat, start: nat, end: nat, done: Bytes, rest: Bytes)
    requires Lies(b, BODY + first, done + rest) && start == first + |done| && end == start + |rest|
    ensures BODY + end <= |b| && b[BODY + start..BODY + end] == rest
  {
    hide Lies;
    LieBoth(b, BODY + first, done, rest);
    LiesIs(b, BODY + start, rest);
  }

  lemma EditedFirst(done: Bytes, s: Bytes, edit: Bytes -> Bytes)
    requires Begins(s)
    ensures EntryLength(s) <= |s|
    ensures done + Edited(s, edit) == done + Apply(edit, s[..EntryLength(s)]) + Edited(s[EntryLength(s)..], edit)
  {
  }

  lemma NothingBegins(s: Bytes, edit: Bytes -> Bytes)
    requires |s| < 2 || EntryLength(s) > |s|
    ensures Edited(s, edit) == s
  {
  }

  /* ---------- the entry that spans two records ---------- */

  /** The walk to the last entry. As an entry has at least two bytes, the bytes behind the last one decide nothing. */
  method FindLast(buf: array<bv8>, first: nat, size: nat, ghost s: Bytes) returns (start: nat)
    requires buf.Length == SECTOR && first + |s| == size <= MOST && Lies(buf[..], BODY + first, s)
    ensures start == first + LastStart(s) <= size && buf[BODY + start..BODY + size] == Last(s)
  {
    hide EntryLength, Lies;
    start := first;
    ghost var k := 0;
    LiesIs(buf[..], BODY + first, s);
    while size - start >= 2 && EntryLength(buf[BODY + start..BODY + size]) < size - start
      invariant start == first + k && k <= |s| && buf[BODY + start..BODY + size] == s[k..]
      invariant k + LastStart(s[k..]) == LastStart(s)
      decreases size - start
    {
      LastFurther(s, k);
      var length := EntryLength(buf[BODY + start..BODY + size]);
      Further(buf[..], BODY + start, BODY + size, s, k, length);
      start, k := start + length, k + length;
    }
    LastFurther(s, k);
  }

  lemma Further(b: Bytes, lo: nat, hi: nat, s: Bytes, k: nat, n: nat)
    requires lo <= hi <= |b| && k <= |s| && b[lo..hi] == s[k..] && n <= hi - lo
    ensures b[lo + n..hi] == s[k + n..]
  {
    assert b[lo..hi][n..] == b[lo + n..hi] && s[k..][n..] == s[k + n..];
  }

  lemma LastFurther(s: Bytes, k: nat)
    requires k <= |s| && k + LastStart(s[k..]) == LastStart(s)
    ensures var n := if |s| - k >= 2 then EntryLength(s[k..]) else 2;
            if n < |s| - k then k + n + LastStart(s[k + n..]) == LastStart(s) else LastStart(s) == k
  {
    hide EntryLength;
    var n := if |s| - k >= 2 then EntryLength(s[k..]) else 2;
    if n < |s| - k { assert s[k..][n..] == s[k + n..]; }
  }

  /** The record with another last entry. */
  function WithLast(r: Record, n: Bytes): Record {
    r.(entries := r.entries[..LastStart(r.entries)] + n)
  }

  lemma LastLies(b: Bytes, r: Record, n: Bytes)
    requires Lies(b, BODY, r.front + r.entries)
    ensures var k := LastStart(r.entries);
            && Lies(b, BODY, r.front + r.entries[..k]) && Lies(b, BODY + |r.front| + k, Last(r.entries))
            && r.front + (r.entries[..k] + n) == r.front + r.entries[..k] + n
  {
    hide Lies;
    var k := LastStart(r.entries);
    assert r.front + r.entries == r.front + r.entries[..k] + Last(r.entries);
    LieBoth(b, BODY, r.front + r.entries[..k], Last(r.entries));
  }

  /** Puts a last entry that goes on in the next record in the place of one that takes as many bytes here. */
  method SetLast(buf: array<bv8>, start: nat, n: Bytes, ghost r: Record)
    requires IsRecord(buf[..], r) && start == |r.front| + LastStart(r.entries) && |n| == |Last(r.entries)|
    modifies buf
    ensures IsRecord(buf[..], WithLast(r, n)) && SameBut(old(buf[..]), buf[..], SIZE, SECTOR)
  {
    hide Lies, SameBut, Field, LastStart;
    ghost var b := buf[..];
    LastLies(b, r, n);
    PutBytes(buf, BODY + start, n, BODY, SECTOR);
    SameField(b, buf[..], BODY, SECTOR, FIRST);
    SameField(b, buf[..], BODY, SECTOR, SIZE);
    StillLies(b, buf[..], BODY + start, BODY + start + |n|, BODY, r.front + r.entries[..LastStart(r.entries)]);
    LieBoth(buf[..], BODY, r.front + r.entries[..LastStart(r.entries)], n);
    SameWider(b, buf[..], BODY, SECTOR, SIZE, SECTOR);
  }

  function Zeros(n: nat): (s: Bytes)
    ensures |s| == n
  {
    seq(n, _ => 0)
  }

  /** Puts a last entry that is not longer in the place of one, and clears what follows. */
  method CutLast(buf: array<bv8>, start: nat, n: Bytes, ghost r: Record)
    requires IsRecord(buf[..], r) && start == |r.front| + LastStart(r.entries) && |n| <= |Last(r.entries)|
    modifies buf
    ensures IsRecord(buf[..], WithLast(r, n)) && SameBut(old(buf[..]), buf[..], SIZE, SECTOR)
  {
    hide Lies, SameBut, Field, LastStart;
    ghost var b := buf[..];
    ghost var head := r.front + r.entries[..LastStart(r.entries)];
    LastLies(b, r, n);
    SetField(buf, SIZE, start + |n|);
    ghost var c := buf[..];
    SameField(b, c, SIZE, BODY, FIRST);
    StillLies(b, c, SIZE, BODY, BODY, head);
    SameWider(b, c, SIZE, BODY, SIZE, SECTOR);
    PutBytes(buf, BODY + start, n, SIZE, SECTOR);
    ghost var d := buf[..];
    StillLies(c, d, BODY + start, BODY + start + |n|, BODY, head);
    LieBoth(d, BODY, head, n);
    Behind(c, d, BODY + start, BODY + start + |n|);
    SameTwice(b, c, d, SIZE, SECTOR);
    PutBytes(buf, BODY + start + |n|, Zeros(MOST - start - |n|), SIZE, SECTOR);
    Behind(d, buf[..], BODY + start + |n|, SECTOR);
    StillLies(d, buf[..], BODY + start + |n|, SECTOR, BODY, head + n);
    SameTwice(b, d, buf[..], SIZE, SECTOR);
  }

  /** The fields stay when something behind them changes. */
  lemma Behind(b: Bytes, t: Bytes, lo: nat, hi: nat)
    requires BODY <= lo && SameBut(b, t, lo, hi)
    ensures Field(b, FIRST) == Field(t, FIRST) && Field(b, SIZE) == Field(t, SIZE)
  {
    hide Field;
    SameField(b, t, lo, hi, FIRST);
    SameField(b, t, lo, hi, SIZE);
  }

  /** Puts fewer bytes in the place of those a record begins with, and moves its entries up to them. */
  method CutFront(buf: array<bv8>, c: Bytes, ghost r: Record) returns (size: nat)
    requires IsRecord(buf[..], r) && |c| <= |r.front|
    modifies buf
    ensures Field(buf[..], FIRST) == |c| && Field(buf[..], SIZE) == old(Field(buf[..], SIZE))
    ensures size == |c| + |r.entries| && Lies(buf[..], BODY, c + r.entries) && SameBut(old(buf[..]), buf[..], FIRST, SECTOR)
  {
    hide Lies, SameBut, Field;
    ghost var b := buf[..];
    var first, end := Field(buf[..], FIRST), Field(buf[..], SIZE);
    LieBoth(b, BODY, r.front, r.entries);
    MoveUp(buf, BODY, first, c, BODY + end, r.entries);
    ghost var d := buf[..];
    LieBoth(d, BODY, c, r.entries);
    SameWider(b, d, BODY, BODY + end, FIRST, SECTOR);
    Behind(b, d, BODY, BODY + end);
    SetField(buf, FIRST, |c|);
    size := end - (first - |c|);
    SameField(d, buf[..], FIRST, SIZE, SIZE);
    StillLies(d, buf[..], FIRST, SIZE, BODY, c + r.entries);
    SameWider(d, buf[..], FIRST, SIZE, FIRST, SECTOR);
    SameTwice(b, d, buf[..], FIRST, SECTOR);
  }

  /** Clears what is left over behind the entries and sets their size. */
  method CutSize(buf: array<bv8>, size: nat, ghost r: Record)
    requires buf.Length == SECTOR && Lies(buf[..], BODY, r.front + r.entries) && Field(buf[..], FIRST) == |r.front|
    requires size == |r.front| + |r.entries| <= Field(buf[..], SIZE) <= MOST
    modifies buf
    ensures IsRecord(buf[..], r) && SameBut(old(buf[..]), buf[..], SIZE, SECTOR)
  {
    hide Lies, SameBut, Field;
    ghost var b := buf[..];
    var zeros := Zeros(Field(buf[..], SIZE) - size);
    PutBytes(buf, BODY + size, zeros, SIZE, SECTOR);
    ghost var c := buf[..];
    Behind(b, c, BODY + size, BODY + size + |zeros|);
    StillLies(b, c, BODY + size, BODY + size + |zeros|, BODY, r.front + r.entries);
    SetField(buf, SIZE, size);
    SameField(c, buf[..], SIZE, BODY, FIRST);
    StillLies(c, buf[..], SIZE, BODY, BODY, r.front + r.entries);
    SameWider(c, buf[..], SIZE, BODY, SIZE, SECTOR);
    SameTwice(b, c, buf[..], SIZE, SECTOR);
  }

  /**
   * Either the last entry's length is in the record, or the two bytes that are read for it are in the
   * sector and do not make an entry with the bytes that the next record begins with.
   */
  predicate Plain(b: Bytes, prev: Record, front: Bytes)
    requires |b| == SECTOR
  {
    var start, rest := |prev.front| + LastStart(prev.entries), |Last(prev.entries)|;
    rest >= 2 || (start + 2 <= MOST && EntryLength(b[BODY + start..BODY + start + 2]) != rest + |front|)
  }

  /**
   * Edits the entry that goes on in the next record, which begins with front: what that begins with
   * then, and whether this record has to be written again.
   */
  method EditPrevious(buf: array<bv8>, front: Bytes, edit: Bytes -> Bytes, ghost prev: Record)
    returns (c: Bytes, ends: bool)
    requires IsRecord(buf[..], prev) && Plain(buf[..], prev, front) && front != [] && Shortens(edit)
    modifies buf
    ensures IsRecord(buf[..], Across(prev, Record(front, []), edit).0) && SameBut(old(buf[..]), buf[..], SIZE, SECTOR)
    ensures c == Across(prev, Record(front, []), edit).1.front && |c| <= |front|
    ensures ends <==> EndsBefore(prev, Record(front, []), edit)
    ensures !ends && !Stale(prev, Record(front, []), edit) ==> buf[..] == old(buf[..]) && c == front
    ensures |c| == |front| ==> !ends && !Stale(prev, Record(front, []), edit)
  {
    hide Lies, SameBut, Field, LastStart, EntryLength, Apply, Shortens, Last;
    ghost var b, cur := buf[..], Record(front, []);
    NoneChanged(b, SIZE, SECTOR);
    AcrossIs(prev, front, edit);
    c, ends := front, false;
    var first, size := Field(buf[..], FIRST), Field(buf[..], SIZE);
    LieBoth(b, BODY, prev.front, prev.entries);
    var start := FindLast(buf, first, size, prev.entries);
    var p := buf[BODY + start..BODY + size];
    StartInside(b, prev, front);
    if |p| >= 2 { FirstTwo(b, BODY + start, BODY + size, front); }
    if EntryLength(buf[BODY + start..BODY + start + 2]) == |p| + |front| {
      var n := Apply(edit, p + front);
      if |n| < |p| + |front| {
        if |n| > |p| {
          SetLast(buf, start, n[..|p|], prev);
          c := n[|p|..];
        } else {
          CutLast(buf, start, n, prev);
          c, ends := [], true;
        }
      }
    }
  }

  lemma StartInside(b: Bytes, prev: Record, front: Bytes)
    requires IsRecord(b, prev) && Plain(b, prev, front)
    ensures var start := |prev.front| + LastStart(prev.entries);
            start + 2 <= MOST && start + |Last(prev.entries)| == |prev.front| + |prev.entries|
  {
    hide Lies, Field, EntryLength;
  }

  lemma FirstTwo(b: Bytes, lo: nat, hi: nat, front: Bytes)
    requires lo + 2 <= hi <= |b|
    ensures EntryLength(b[lo..lo + 2]) == EntryLength(b[lo..hi]) == EntryLength(b[lo..hi] + front)
  {
    SameLength(b[lo..hi], front);
    hide EntryLength;
    SameLength(b[lo..lo + 2], b[lo + 2..hi]);
    assert b[lo..hi] == b[lo..lo + 2] + b[lo + 2..hi];
  }

  lemma AcrossIs(prev: Record, front: Bytes, edit: Bytes -> Bytes)
    requires front != [] && Shortens(edit)
    ensures |Last(prev.entries)| < 2 ==> Across(prev, Record(front, []), edit) == (prev, Record(front, []))
    ensures |Last(prev.entries)| >= 2 ==>
            var p, (q, x) := Last(prev.entries), Across(prev, Record(front, []), edit);
            var n := Apply(edit, p + front);
            if !IsEntry(p + front) || |n| == |p| + |front| then q == prev && x.front == front
            else |n| < |p| + |front| && if |n| > |p| then q == WithLast(prev, n[..|p|]) && x.front == n[|p|..]
                                        else q == WithLast(prev, n) && x.front == []
  {
    hide EntryLength, Apply, LastStart;
    var p, n := Last(prev.entries), Apply(edit, Last(prev.entries) + front);
    assert prev.entries == prev.entries[..LastStart(prev.entries)] + p;
    if IsEntry(p + front) && n == p + front {
      assert n[..|p|] == p && n[|p|..] == front;
    }
  }
}
