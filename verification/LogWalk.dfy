/** The walk over the transaction log that edits its records and writes back the ones it changes (restore.c). */
module LogWalk {
  import opened Arithmetic
  import opened LogEdits
  import opened LogRecords
  import opened LogRing
  import opened Media
  import opened TransactionLog
  import opened Volumes
  import opened Wrappers
  import ByteOrder
  import Crc
  import LogFudge
  import LogUpdates

  /** The stamp before. */
  function Prior(stamp: nat): nat { if stamp == 0 then WORD - 1 else stamp - 1 }

  lemma StampBefore(b: Bytes, t: Bytes, lo: nat, hi: nat)
    requires SameBut(b, t, lo, hi) && 4 <= lo
    ensures StampOf(b) == StampOf(t)
  {
    assert b[..lo][..4] == b[..4] && t[..lo][..4] == t[..4];
  }

  lemma SameBytes(b: Bytes, t: Bytes, at: nat, s: Bytes)
    requires SameBut(b, t, at, at + |s|) && Lies(b, at, s) && Lies(t, at, s)
    ensures b == t
  {
    assert b == b[..at] + b[at..at + |s|] + b[at + |s|..];
    assert t == t[..at] + t[at..at + |s|] + t[at + |s|..];
  }

  /** An editor that takes no bytes away changes nothing. */
  lemma {:induction false} NothingShorter(s: Bytes, edit: Bytes -> Bytes)
    requires Shortens(edit) && |Edited(s, edit)| == |s|
    ensures Edited(s, edit) == s
  {
    hide EntryLength, IsEntry, Apply;
    if !Begins(s) {
    } else {
      FirstIsEntry(s);
      EditedShorter(s[EntryLength(s)..], edit);
      NothingShorter(s[EntryLength(s)..], edit);
      assert s == s[..EntryLength(s)] + s[EntryLength(s)..];
    }
  }

  /** A record is in the slot of its stamp. */
  ghost predicate Kept(log: Log, b: Bytes)
    requires log.Valid() && |b| == SECTOR
    reads log.vols
  {
    log.Sectors()[StampOf(b) % log.count] == b
  }

  /** Writes a record under a stamp that is in the ring: the ring stays as it is. */
  method WriteBack(log: Log, buf: array<bv8>, ghost r: Record) returns (ok: bool)
    requires log.Valid() && IsRecord(buf[..], r) && Readable(log.Stamps(), StampOf(buf[..]))
    modifies log.vols, buf
    ensures log.Valid() && log.Stamps() == old(log.Stamps())
    ensures StampOf(buf[..]) == StampOf(old(buf[..])) && IsRecord(buf[..], r)
    ensures ok && !log.vols.fakeWrite ==> log.Sectors() == old(log.Sectors())[StampOf(buf[..]) % log.count := buf[..]]
  {
    hide Joined, End, Space, RingOf, SectorsOf, StampOf, State, Put, Lies, Field, Crc.Checked;
    ghost var b := buf[..];
    RecordSector(b, r);
    var result := log.Write(buf);
    SameBehind(b, buf[..], r);
    ok := result == SECTOR;
  }

  lemma RecordSector(b: Bytes, r: Record)
    requires IsRecord(b, r)
    ensures |b| == SECTOR
  {
  }

  lemma OnlyThere(b: Bytes, t: Bytes, lo: nat, hi: nat)
    requires lo <= hi <= |b| && |t| == |b| && forall i :: 0 <= i < |b| && !(lo <= i < hi) ==> t[i] == b[i]
    ensures SameBut(b, t, lo, hi)
  {
  }

  lemma SameBehind(b: Bytes, t: Bytes, r: Record)
    requires IsRecord(b, r) && |t| == |b| && forall i :: 0 <= i < SECTOR && !(4 <= i < 8) ==> t[i] == b[i]
    ensures IsRecord(t, r)
  {
    OnlyThere(b, t, 4, 8);
    hide Lies, SameBut, Field;
    SameField(b, t, 4, 8, FIRST);
    SameField(b, t, 4, 8, SIZE);
    StillLies(b, t, 4, 8, BODY, r.front + r.entries);
  }

  /** Edits the entries of a record in its buffer, and writes it back if that makes it smaller. */
  method EditOwn(log: Log, cur: array<bv8>, left: nat, edit: Bytes -> Bytes, ghost front: Bytes, ghost entries: Bytes)
    returns (ok: bool)
    requires log.Valid() && cur.Length == SECTOR && Shortens(edit) && Readable(log.Stamps(), StampOf(cur[..]))
    requires Field(cur[..], FIRST) == |front| && left == |front| + |entries| <= Field(cur[..], SIZE) <= MOST
    requires Lies(cur[..], BODY, front + entries)
    modifies log.vols, cur
    ensures log.Valid() && log.Stamps() == old(log.Stamps())
    ensures StampOf(cur[..]) == StampOf(old(cur[..])) && IsRecord(cur[..], Record(front, Edited(entries, edit)))
    ensures ok && !log.vols.fakeWrite && (left < old(Field(cur[..], SIZE)) || old(Kept(log, cur[..]))) ==>
            log.Sectors() == old(log.Sectors())[StampOf(cur[..]) % log.count := cur[..]]
  {
    hide Joined, End, Space, RingOf, SectorsOf, StampOf, State, Lies, SameBut, Field, Edited, Shortens;
    ghost var b, r := cur[..], Record(front, Edited(entries, edit));
    ok := true;
    LieBoth(b, BODY, front, entries);
    var first := Field(cur[..], FIRST);
    var size := EditEntries(cur, first, left, edit, entries);
    EntriesEdited(b, cur[..], front, entries, edit);
    if Field(cur[..], SIZE) != size {
      ghost var c := cur[..];
      CutSize(cur, size, r);
      StampBefore(c, cur[..], SIZE, SECTOR);
      ok := WriteBack(log, cur, r);
    }
  }

  lemma EntriesEdited(b: Bytes, t: Bytes, front: Bytes, entries: Bytes, edit: Bytes -> Bytes)
    requires SameBut(b, t, BODY + |front|, BODY + |front| + |entries|) && Lies(b, BODY, front) && |b| == SECTOR
    requires Lies(b, BODY + |front|, entries) && Lies(t, BODY + |front|, Edited(entries, edit)) && Shortens(edit)
    ensures Lies(t, BODY, front + Edited(entries, edit)) && StampOf(t) == StampOf(b)
    ensures Field(t, FIRST) == Field(b, FIRST) && Field(t, SIZE) == Field(b, SIZE)
    ensures |Edited(entries, edit)| == |entries| ==> t == b
  {
    StampBefore(b, t, BODY + |front|, BODY + |front| + |entries|);
    hide Lies, SameBut, Field, Edited, Shortens, StampOf;
    StillLies(b, t, BODY + |front|, BODY + |front| + |entries|, BODY, front);
    LieBoth(t, BODY, front, Edited(entries, edit));
    Behind(b, t, BODY + |front|, BODY + |front| + |entries|);
    if |Edited(entries, edit)| == |entries| {
      NothingShorter(entries, edit);
      SameBytes(b, t, BODY + |front|, entries);
    }
  }

  /** The record begins with the end of an entry, and the one before it is in the other buffer. */
  predicate GoesBack(r: Record, other: Bytes, stamp: nat)
    requires |other| == SECTOR
  {
    r.front != [] && StampOf(other) == Prior(stamp)
  }

  /**
   * Edits the entry that spans two records in their buffers, and writes the one before back if the
   * entry ends there now. What follows in the second one is moved up, which is still to be written.
   */
  method EditSpan(log: Log, cur: array<bv8>, other: array<bv8>, edit: Bytes -> Bytes, ghost prev: Record, ghost r: Record)
    returns (ok: bool, size: nat, ghost front: Bytes)
    requires log.Valid() && cur.Length == other.Length == SECTOR && cur != other && Shortens(edit)
    requires Readable(log.Stamps(), StampOf(other[..])) && IsRecord(cur[..], r) && IsRecord(other[..], prev)
    requires r.front != [] && Plain(other[..], prev, r.front)
    modifies log.vols, cur, other
    ensures log.Valid() && log.Stamps() == old(log.Stamps())
    ensures StampOf(cur[..]) == StampOf(old(cur[..])) && StampOf(other[..]) == StampOf(old(other[..]))
    ensures front == Across(prev, r, edit).1.front && IsRecord(other[..], Across(prev, r, edit).0)
    ensures ok ==> Field(cur[..], FIRST) == |front| && size == |front| + |r.entries| <= Field(cur[..], SIZE)
    ensures ok ==> Field(cur[..], SIZE) == |r.front| + |r.entries| && Lies(cur[..], BODY, front + r.entries)
    ensures ok && size == Field(cur[..], SIZE) ==> cur[..] == old(cur[..])
    ensures ok && !log.vols.fakeWrite && old(Kept(log, other[..])) ==>
            log.Sectors() == old(log.Sectors())[StampOf(other[..]) % log.count := if Stale(prev, r, edit) then old(other[..]) else other[..]]
  {
    hide Joined, End, Space, RingOf, SectorsOf, StampOf, State, Lies, SameBut, Field, Shortens, Across, EndsBefore, Stale, Last, Plain;
    ghost var b, o := cur[..], other[..];
    ok := true;
    var first := Field(cur[..], FIRST);
    size := Field(cur[..], SIZE);
    LieBoth(b, BODY, r.front, r.entries);
    LiesIs(b, BODY, r.front);
    var c, ends := EditPrevious(other, cur[BODY..BODY + first], edit, prev);
    front := c;
    StampBefore(o, other[..], SIZE, SECTOR);
    FrontOnly(prev, r, edit);
    ghost var sectors, k := log.Sectors(), StampOf(o) % log.count;
    assert sectors[k := sectors[k]] == sectors;
    if ends {
      ok := WriteBack(log, other, Across(prev, r, edit).0);
      if !ok { return; }
    }
    if |c| < first {
      size := CutFront(cur, c, r);
      StampBefore(b, cur[..], FIRST, SECTOR);
    }
  }

  /** What becomes of an entry that spans two records has nothing to do with what follows it. */
  lemma FrontOnly(prev: Record, r: Record, edit: Bytes -> Bytes)
    ensures var s := Record(r.front, []);
            && Across(prev, s, edit).0 == Across(prev, r, edit).0 && Across(prev, s, edit).1.front == Across(prev, r, edit).1.front
            && Across(prev, r, edit).1.entries == r.entries && (Stale(prev, s, edit) <==> Stale(prev, r, edit))
            && (EndsBefore(prev, s, edit) ==> !Stale(prev, r, edit))
  {
    hide EntryLength, Last, LastStart, Apply;
  }

  lemma OtherSlot(ring: Ring, a: nat, b: nat)
    requires Readable(ring, a) && Readable(ring, b) && a != b
    ensures a % |ring| != b % |ring|
  {
  }

  lemma PriorDiffers(stamp: nat)
    requires stamp < WORD
    ensures Prior(stamp) != stamp && Prior(stamp) < WORD
  {
  }

  /** The record before and the record, after the entry that goes on from that is edited if there is one, and the others. */
  function Next(back: bool, prev: Record, r: Record, edit: Bytes -> Bytes): (Record, Record) {
    if back then Step(prev, r, edit) else (prev, r.(entries := Edited(r.entries, edit)))
  }

  /** The sectors with a record, and before it with another one if that is stored, too. */
  function WithBoth(sectors: seq<Bytes>, o: Bytes, both: bool, c: Bytes): (r: seq<Bytes>)
    requires sectors != [] && |o| == |c| == SECTOR
    ensures |r| == |sectors|
  {
    var s := if both then sectors[StampOf(o) % |sectors| := o] else sectors;
    s[StampOf(c) % |s| := c]
  }

  /**
   * The edits of a record and of the one before it, when an entry goes on from that: both buffers, and
   * what is in the log if it held them before.
   */
  method EditRecords(log: Log, cur: array<bv8>, other: array<bv8>, edit: Bytes -> Bytes, ghost prev: Record, ghost r: Record)
    returns (ok: bool)
    requires log.Valid() && cur.Length == other.Length == SECTOR && cur != other && Shortens(edit) && IsRecord(cur[..], r)
    requires Readable(log.Stamps(), StampOf(cur[..]))
    requires StampOf(other[..]) == Prior(StampOf(cur[..])) ==> Readable(log.Stamps(), StampOf(other[..]))
    requires GoesBack(r, other[..], StampOf(cur[..])) ==> IsRecord(other[..], prev) && Plain(other[..], prev, r.front)
    modifies log.vols, cur, other
    ensures log.Valid() && log.Stamps() == old(log.Stamps())
    ensures StampOf(cur[..]) == StampOf(old(cur[..])) && StampOf(other[..]) == StampOf(old(other[..]))
    ensures ok ==> IsRecord(cur[..], Next(old(GoesBack(r, other[..], StampOf(cur[..]))), prev, r, edit).1)
    ensures old(GoesBack(r, other[..], StampOf(cur[..]))) ==> IsRecord(other[..], Step(prev, r, edit).0)
    ensures !old(GoesBack(r, other[..], StampOf(cur[..]))) ==> other[..] == old(other[..])
    ensures ok && !log.vols.fakeWrite && old(Kept(log, cur[..]) && (GoesBack(r, other[..], StampOf(cur[..])) ==> Kept(log, other[..]))) ==>
            log.Sectors() == WithBoth(old(log.Sectors()), if Stale(prev, r, edit) then old(other[..]) else other[..],
                                      old(GoesBack(r, other[..], StampOf(cur[..]))), cur[..])
  {
    hide Joined, End, Space, RingOf, SectorsOf, StampOf, State, Lies, SameBut, Field, Shortens, Across, Stale, Last, Edited, Readable, Plain;
    ghost var front := r.front;
    var size := Field(cur[..], SIZE);
    PriorDiffers(StampOf(cur[..]));
    if Field(cur[..], FIRST) > 0 && StampOf(other[..]) == Prior(StampOf(cur[..])) {
      OtherSlot(log.Stamps(), StampOf(cur[..]), StampOf(other[..]));
      FrontOnly(prev, r, edit);
      ok, size, front := EditSpan(log, cur, other, edit, prev, r);
      if !ok { return; }
    }
    ok := EditOwn(log, cur, size, edit, front, r.entries);
  }

  /* ---------- the walk ---------- */

  function StampAt(from: nat, i: nat): (r: nat)
    ensures r < WORD
  {
    (from + i) % WORD
  }

  /** The sectors hold these records, from a stamp on. */
  ghost predicate Held(sectors: seq<Bytes>, from: nat, rs: seq<Record>)
    requires sectors != []
  {
    forall i :: 0 <= i < |rs| ==> IsRecord(sectors[StampAt(from, i) % |sectors|], rs[i])
  }

  /** No two of the stamps share a slot. */
  ghost predicate Apart(from: nat, count: nat, slots: nat)
    requires slots > 0
  {
    forall i, j :: 0 <= i < j < count ==> StampAt(from, i) % slots != StampAt(from, j) % slots
  }

  /** The walk has edited as many records, and the last of them is in its buffer. */
  ghost predicate Walked(was: seq<Bytes>, now: seq<Bytes>, from: nat, rs: seq<Record>, edit: Bytes -> Bytes, seen: nat, last: Bytes)
  {
    && 0 < |was| == |now| && seen <= |rs| && |last| == SECTOR
    && Held(now, from, Stored(rs[..seen], edit))
    && (forall i :: seen <= i < |rs| ==> now[StampAt(from, i) % |now|] == was[StampAt(from, i) % |now|])
    && if seen == 0 then StampOf(last) != Prior(from)
       else StampOf(last) == StampAt(from, seen - 1) && now[StampAt(from, seen - 1) % |now|] == last
            && IsRecord(last, Run(rs[..seen], edit)[seen - 1])
  }

  lemma RunNext(rs: seq<Record>, edit: Bytes -> Bytes, m: nat)
    requires m < |rs|
    ensures m == 0 ==> Run(rs[..1], edit) == Stored(rs[..1], edit) == [rs[0].(entries := Edited(rs[0].entries, edit))]
    ensures m > 0 ==> var was := Run(rs[..m], edit)[m - 1];
            && Run(rs[..m + 1], edit)[m] == Step(was, rs[m], edit).1
            && Stored(rs[..m + 1], edit) == Stored(rs[..m], edit)[..m - 1]
               + [if Stale(was, rs[m], edit) then was else Step(was, rs[m], edit).0, Step(was, rs[m], edit).1]
  {
    hide Step, Stale, Edited;
    assert rs[..m + 1][..m] == rs[..m];
  }

  /** In consistent records an entry is spanned exactly where a record begins with something. */
  lemma SpansNext(rs: seq<Record>, edit: Bytes -> Bytes, m: nat)
    requires Consistent(rs) && Shortens(edit) && 0 < m < |rs|
    ensures var was := Run(rs[..m], edit)[m - 1];
            if rs[m].front == [] then Step(was, rs[m], edit) == (was, rs[m].(entries := Edited(rs[m].entries, edit))) && !Stale(was, rs[m], edit)
            else |Last(was.entries)| >= 2
  {
    hide Edited, Last, LastStart, IsEntry, Run, LogEdits.Before, Shortens;
    ConsistentPrefix(rs, m - 1);
    RunBefore(rs[..m], edit);
    var was := Run(rs[..m], edit)[m - 1];
    if rs[m].front != [] { StillSpans(rs[m - 1], rs[m], edit); }
  }

  lemma WalkedOn(was: seq<Bytes>, now: seq<Bytes>, next: seq<Bytes>, from: nat, rs: seq<Record>, edit: Bytes -> Bytes, seen: nat,
                 o: Bytes, p: Bytes, c: Bytes, back: bool, prev: Record)
    requires Walked(was, now, from, rs, edit, seen, o) && seen < |rs| && Apart(from, |rs|, |was|) && |p| == |c| == SECTOR
    requires back <==> seen > 0 && rs[seen].front != []
    requires StampOf(c) == StampAt(from, seen) && StampOf(p) == StampOf(o)
    requires Consistent(rs) && Shortens(edit)
    requires seen > 0 ==> prev == Run(rs[..seen], edit)[seen - 1]
    requires IsRecord(c, Next(back, prev, rs[seen], edit).1) && (back ==> IsRecord(p, Step(prev, rs[seen], edit).0))
    requires next == WithBoth(now, if Stale(prev, rs[seen], edit) then o else p, back, c)
    ensures Walked(was, next, from, rs, edit, seen + 1, c)
  {
    hide Run, Stored, Stale, Step, Edited, IsRecord, Consistent, Shortens, StampOf, StampAt;
    RunNext(rs, edit, seen);
    if seen > 0 { SpansNext(rs, edit, seen); }
    assert rs[..seen + 1][seen] == rs[seen];
    forall i | 0 <= i < |rs|
      ensures next[StampAt(from, i) % |was|] ==
              if i == seen then c
              else if back && i == seen - 1 then if Stale(prev, rs[seen], edit) then o else p
              else now[StampAt(from, i) % |was|]
    {
    }
    forall i | 0 <= i < seen + 1
      ensures IsRecord(next[StampAt(from, i) % |next|], Stored(rs[..seen + 1], edit)[i])
    {
      if i < seen - 1 { assert IsRecord(now[StampAt(from, i) % |now|], Stored(rs[..seen], edit)[i]); }
    }
  }

  /** The records the walk is to find, and nothing after them. */
  ghost predicate Course(ring: Ring, was: seq<Bytes>, from: nat, rs: seq<Record>) {
    && from < WORD && 0 < |was| == |ring| && Consistent(rs) && Held(was, from, rs) && Apart(from, |rs|, |was|)
    && !Readable(ring, StampAt(from, |rs|))
  }

  /** What follows stamp and checksum in a record. */
  type Body = s: Bytes | |s| == SECTOR - 8 witness seq(SECTOR - 8, _ => 0)

  /** What may become of a record, and of the one before, that does not hold entries as it should. */
  datatype Stray = Stray(previous: Option<Body>, current: Option<Body>)

  /**
   * The record has its entries inside it, and if it begins with the end of an entry so has the one before,
   * with the length of its last entry or no entry that seems to go on.
   */
  predicate Sound(cur: Bytes, other: Bytes)
    requires |cur| == |other| == SECTOR
  {
    && Formed(cur)
    && (GoesBack(RecordOf(cur), other, StampOf(cur)) ==> Formed(other) && Plain(other, RecordOf(other), RecordOf(cur).front))
  }

  /** No entry starts before the end of the record, and none goes on from the one before: nothing is edited. */
  predicate Skipped(cur: Bytes, other: Bytes)
    requires |cur| == |other| == SECTOR
  {
    Field(cur, SIZE) < Field(cur, FIRST) && Field(cur, FIRST) + 2 <= MOST && StampOf(other) != Prior(StampOf(cur))
  }

  method SetBody(buf: array<bv8>, body: Body)
    requires buf.Length == SECTOR
    modifies buf
    ensures StampOf(buf[..]) == StampOf(old(buf[..]))
  {
    hide Lies, SameBut, StampOf;
    ghost var b := buf[..];
    PutBytes(buf, 8, body, 8, SECTOR);
    StampBefore(b, buf[..], 8, SECTOR);
  }

  method Rewrite(log: Log, buf: array<bv8>, body: Body) returns (ok: bool)
    requires log.Valid() && buf.Length == SECTOR && Readable(log.Stamps(), StampOf(buf[..]))
    modifies log.vols, buf
    ensures log.Valid() && log.Stamps() == old(log.Stamps()) && StampOf(buf[..]) == StampOf(old(buf[..]))
  {
    hide Put, Joined, End, Space, RingOf, SectorsOf, StampOf;
    SetBody(buf, body);
    var result := log.Write(buf);
    ok := result == SECTOR;
  }

  method EditStray(log: Log, cur: array<bv8>, other: array<bv8>, stray: Stray) returns (ok: bool)
    requires log.Valid() && cur.Length == other.Length == SECTOR && cur != other
    requires Readable(log.Stamps(), StampOf(cur[..]))
    requires StampOf(other[..]) == Prior(StampOf(cur[..])) ==> Readable(log.Stamps(), StampOf(other[..]))
    modifies log.vols, cur, other
    ensures log.Valid() && log.Stamps() == old(log.Stamps()) && StampOf(cur[..]) == StampOf(old(cur[..]))
  {
    hide Put, Joined, End, Space, RingOf, SectorsOf, StampOf, State, Readable, Field;
    ok := true;
    if Field(cur[..], FIRST) > 0 && StampOf(other[..]) == Prior(StampOf(cur[..])) && stray.previous.Some? {
      ok := Rewrite(log, other, stray.previous.value);
    }
    if ok && stray.current.Some? {
      ok := Rewrite(log, cur, stray.current.value);
    }
  }

  lemma SoundIs(c: Bytes, o: Bytes)
    requires |c| == |o| == SECTOR && Sound(c, o)
    ensures Formed(c) && IsRecord(c, RecordOf(c)) && Field(c, SIZE) <= MOST
    ensures GoesBack(RecordOf(c), o, StampOf(c)) ==> Formed(o) && IsRecord(o, RecordOf(o)) && Plain(o, RecordOf(o), RecordOf(c).front)
  {
    hide RecordOf, IsRecord;
    FormedIs(c);
    if Formed(o) { FormedIs(o); }
  }

  /** The edits of sound records keep the walk on its course. */
  method EditSound(log: Log, cur: array<bv8>, other: array<bv8>, edit: Bytes -> Bytes,
                   ghost was: seq<Bytes>, ghost from: nat, ghost rs: seq<Record>, ghost seen: nat)
    returns (ok: bool)
    requires log.Valid() && cur.Length == other.Length == SECTOR && cur != other && Shortens(edit) && Sound(cur[..], other[..])
    requires Readable(log.Stamps(), StampOf(cur[..])) && Kept(log, cur[..])
    requires StampOf(other[..]) == Prior(StampOf(cur[..])) ==> Readable(log.Stamps(), StampOf(other[..]))
    modifies log.vols, cur, other
    ensures log.Valid() && log.Stamps() == old(log.Stamps()) && StampOf(cur[..]) == StampOf(old(cur[..]))
    ensures ok && old(OnCourse(log, was, from, rs, edit, seen, cur[..], other[..])) ==>
            Walked(was, log.Sectors(), from, rs, edit, seen + 1, cur[..])
  {
    hide Put, Joined, End, Space, RingOf, SectorsOf, StampOf, State, Readable, Field, Walked, IsRecord, Shortens, StampAt,
         Held, Apart, Consistent, RecordOf, Sound, Formed, Run, Stale, Step, Next, WithBoth;
    ghost var o, c, now := other[..], cur[..], log.Sectors();
    ghost var on := OnCourse(log, was, from, rs, edit, seen, c, o);
    SoundIs(c, o);
    ghost var r := RecordOf(c);
    ghost var back := GoesBack(r, o, StampOf(c));
    ghost var prev := if Formed(o) then RecordOf(o) else r;
    if on { NextFound(was, now, from, rs, edit, seen, o, c); }
    ok := EditRecords(log, cur, other, edit, prev, r);
    if on && ok {
      WalkedOn(was, now, log.Sectors(), from, rs, edit, seen, o, if back then other[..] else o, cur[..], back, prev);
    }
  }

  /** The walk is on its course and has a record in its buffer that is not edited yet. */
  ghost predicate OnCourse(log: Log, was: seq<Bytes>, from: nat, rs: seq<Record>, edit: Bytes -> Bytes, seen: nat, c: Bytes, o: Bytes)
    requires log.Valid()
    reads log.vols
  {
    && Walked(was, log.Sectors(), from, rs, edit, seen, o) && Held(was, from, rs) && Consistent(rs) && Apart(from, |rs|, |was|)
    && from < WORD && seen < |rs| && |c| == SECTOR && StampOf(c) == StampAt(from, seen) && !log.vols.fakeWrite
    && log.Sectors()[StampAt(from, seen) % log.count] == c
  }

  /** One round of the walk. A record whose size cannot be is passed over. */
  method Round(log: Log, cur: array<bv8>, other: array<bv8>, curlog: nat, edit: Bytes -> Bytes, stray: Stray,
               ghost was: seq<Bytes>, ghost from: nat, ghost rs: seq<Record>, ghost seen: nat)
    returns (found: bool, sized: bool, ok: bool)
    requires log.Valid() && cur.Length == other.Length == SECTOR && cur != other && Shortens(edit)
    requires curlog == StampAt(from, seen)
    requires StampOf(other[..]) == Prior(curlog) ==> Readable(log.Stamps(), Prior(curlog))
    requires Course(log.Stamps(), was, from, rs) && !log.vols.fakeWrite ==> Walked(was, log.Sectors(), from, rs, edit, seen, other[..])
    modifies log.vols, cur, other
    ensures log.Valid() && log.Stamps() == old(log.Stamps())
    ensures found == Readable(log.Stamps(), curlog) && (!found ==> ok && log.Sectors() == old(log.Sectors()) && other[..] == old(other[..]))
    ensures found && sized ==> StampOf(cur[..]) == curlog
    ensures found && !sized ==> other[..] == old(other[..])
    ensures found && ok && Course(log.Stamps(), was, from, rs) && !log.vols.fakeWrite ==> sized && Walked(was, log.Sectors(), from, rs, edit, seen + 1, cur[..])
  {
    hide Put, Joined, End, Space, RingOf, SectorsOf, StampOf, State, Readable, Field, Course, Walked, IsRecord, Shortens, StampAt,
         Held, Apart, Consistent, RecordOf, Sound, Run, Stale, Step, Next, WithBoth;
    ok, sized := true, false;
    ghost var o, on := other[..], Course(log.Stamps(), was, from, rs) && !log.vols.fakeWrite;
    var result := log.Read(cur, curlog);
    found := result > 0;
    if !found { return; }
    ghost var c, now := cur[..], log.Sectors();
    if on {
      BeforeEnd(log.Stamps(), was, now, from, rs, edit, seen, o);
      NextFound(was, now, from, rs, edit, seen, o, c);
      SoundIs(c, o);
    }
    if Field(cur[..], SIZE) <= MOST {
      sized := true;
      if Sound(cur[..], other[..]) {
        ok := EditSound(log, cur, other, edit, was, from, rs, seen);
      } else if Skipped(cur[..], other[..]) {
        ok := true;
      } else {
        ok := EditStray(log, cur, other, stray);
      }
    }
  }

  lemma BeforeEnd(ring: Ring, was: seq<Bytes>, now: seq<Bytes>, from: nat, rs: seq<Record>, edit: Bytes -> Bytes, seen: nat, o: Bytes)
    requires Course(ring, was, from, rs) && Walked(was, now, from, rs, edit, seen, o) && Readable(ring, StampAt(from, seen))
    ensures seen < |rs| && from < WORD && Held(was, from, rs) && Apart(from, |rs|, |was|) && Consistent(rs)
  {
    hide StampAt, Stored, Run, IsRecord, Held, Apart, Consistent, Readable, StampOf;
  }

  /** On its course the walk finds the next record as it was, and can edit it. */
  lemma NextFound(was: seq<Bytes>, now: seq<Bytes>, from: nat, rs: seq<Record>, edit: Bytes -> Bytes, seen: nat, o: Bytes, c: Bytes)
    requires Walked(was, now, from, rs, edit, seen, o) && Held(was, from, rs) && Consistent(rs) && Shortens(edit)
    requires from < WORD && seen < |rs| && |c| == SECTOR && StampOf(c) == StampAt(from, seen)
    requires now[StampAt(from, seen) % |now|] == c
    ensures Formed(c) && RecordOf(c) == rs[seen] && Sound(c, o)
    ensures GoesBack(rs[seen], o, StampAt(from, seen)) <==> seen > 0 && rs[seen].front != []
    ensures seen > 0 ==> Formed(o) && RecordOf(o) == Run(rs[..seen], edit)[seen - 1] && now[StampOf(o) % |now|] == o
  {
    hide StampOf, Run, Stored, Stale, Step, Edited, IsRecord, Shortens, RecordOf, Formed, Held, StampAt, Last, Consistent;
    HeldAt(was, from, rs, seen);
    RecordIs(c, rs[seen]);
    StampsFollow(from, seen);
    if seen > 0 {
      RecordIs(o, Run(rs[..seen], edit)[seen - 1]);
      SpansNext(rs, edit, seen);
    }
  }

  lemma HeldAt(was: seq<Bytes>, from: nat, rs: seq<Record>, i: nat)
    requires was != [] && Held(was, from, rs) && i < |rs|
    ensures IsRecord(was[StampAt(from, i) % |was|], rs[i])
  {
  }

  lemma StampsFollow(from: nat, seen: nat)
    requires from < WORD
    ensures seen > 0 ==> StampAt(from, seen - 1) == Prior(StampAt(from, seen))
    ensures StampAt(from, 0) == from
  {
  }

  lemma TwoBefore(stamp: nat)
    requires stamp < WORD
    ensures Prior(stamp) < WORD && Prior(Prior(stamp)) < WORD && Prior(Prior(stamp)) != Prior(stamp)
  {
  }

  lemma NextStamp(from: nat, seen: nat)
    ensures (StampAt(from, seen) + 1) % WORD == StampAt(from, seen + 1) && Prior(StampAt(from, seen + 1)) == StampAt(from, seen)
  {
  }

  method SetStamp(buf: array<bv8>, stamp: nat)
    requires buf.Length == SECTOR && stamp < WORD
    modifies buf
    ensures StampOf(buf[..]) == stamp
  {
    hide SameBut, ByteOrder.ValueOf;
    SetField(buf, 0, stamp);
    assert buf[..][0..0 + 4] == buf[..][..4];
  }

  lemma NoneReadable(ring: Ring, from: nat)
    ensures AllReadable(ring, Window(from, 0))
  {
  }

  lemma InWindow(ring: Ring, from: nat, count: nat, i: nat)
    requires AllReadable(ring, Window(from, count)) && i < count
    ensures Readable(ring, StampAt(from, i))
  {
    hide Readable, Window;
    WindowAt(from, count, i);
    assert Readable(ring, Window(from, count)[i]);
  }

  lemma OneMoreReadable(ring: Ring, from: nat, seen: nat)
    requires AllReadable(ring, Window(from, seen)) && Readable(ring, StampAt(from, seen))
    ensures AllReadable(ring, Window(from, seen + 1))
  {
    hide Readable, Window;
    var stamps := Window(from, seen + 1);
    forall i | 0 <= i < seen + 1 ensures Readable(ring, stamps[i]) {
      WindowAt(from, seen + 1, i);
      if i < seen { InWindow(ring, from, seen, i); }
    }
  }

  lemma NoneWalked(was: seq<Bytes>, from: nat, rs: seq<Record>, edit: Bytes -> Bytes, o: Bytes)
    requires was != [] && |o| == SECTOR && StampOf(o) != Prior(from)
    ensures Walked(was, was, from, rs, edit, 0, o)
  {
    hide StampOf, StampAt;
  }

  lemma AllWalked(ring: Ring, was: seq<Bytes>, now: seq<Bytes>, from: nat, rs: seq<Record>, edit: Bytes -> Bytes, seen: nat, o: Bytes)
    requires Course(ring, was, from, rs) && Walked(was, now, from, rs, edit, seen, o)
    requires AllReadable(ring, Window(from, |rs|)) && !Readable(ring, StampAt(from, seen))
    ensures seen == |rs| && Held(now, from, Stored(rs, edit))
  {
    hide Stored, Run, IsRecord, Held, Apart, Consistent, Readable, StampOf, Window;
    if seen < |rs| { InWindow(ring, from, |rs|, seen); }
    assert rs[..|rs|] == rs;
  }

  lemma AtMostSlots(ring: Ring, from: nat, count: nat)
    requires ring != [] && |ring| < WORD && from < WORD && AllReadable(ring, Window(from, count))
    ensures count <= |ring|
  {
    hide Readable, Window;
    var n := if count > |ring| then |ring| + 1 else count;
    forall i | 0 <= i < n ensures Readable(ring, Window(from, n)[i]) {
      WindowAt(from, n, i);
      InWindow(ring, from, count, i);
    }
    FewReadable(ring, from, n);
  }

  /** Records that are all readable are in slots of their own. */
  lemma ReadableApart(ring: Ring, from: nat, count: nat)
    requires ring != [] && |ring| < WORD && from < WORD && AllReadable(ring, Window(from, count))
    ensures Apart(from, count, |ring|) && count <= |ring|
  {
    AtMostSlots(ring, from, count);
    hide Readable, Window;
    forall i, j | 0 <= i < j < count ensures StampAt(from, i) % |ring| != StampAt(from, j) % |ring| {
      InWindow(ring, from, count, i);
      InWindow(ring, from, count, j);
      StampsDiffer(from, i, j);
      OtherSlot(ring, StampAt(from, i), StampAt(from, j));
    }
  }

  /**
   * Reads the records from one stamp on until one is not there, edits their entries, and writes back
   * what it changes. The ring stays as it is, and no more records are read than the log has slots. If
   * the records are consistent, the log holds afterwards what all the edits leave stored.
   */
  method Walk(log: Log, from: nat, edit: Bytes -> Bytes, strays: nat -> Stray, ghost rs: seq<Record>) returns (ok: bool, seen: nat)
    requires log.Valid() && from < WORD && Shortens(edit)
    modifies log.vols
    ensures log.Valid() && log.Stamps() == old(log.Stamps())
    ensures seen <= log.count && AllReadable(log.Stamps(), Window(from, seen))
    ensures ok ==> !Readable(log.Stamps(), (from + seen) % WORD)
    ensures ok && !log.vols.fakeWrite && Consistent(rs) && old(Held(log.Sectors(), from, rs))
            && AllReadable(log.Stamps(), Window(from, |rs|)) && !Readable(log.Stamps(), (from + |rs|) % WORD)
            ==> seen == |rs| && Held(log.Sectors(), from, Stored(rs, edit))
  {
    hide Put, Joined, End, Space, RingOf, SectorsOf, StampOf, State, Readable, Window, AllReadable, Walked, Shortens, Held, Stored,
         Consistent, Course, IsRecord;
    ok, seen := true, 0;
    ghost var ring, was := log.Stamps(), log.Sectors();
    var cur := new bv8[SECTOR](_ => 0);
    var other := new bv8[SECTOR](_ => 0);
    var curlog := from;
    TwoBefore(curlog);
    SetStamp(other, Prior(Prior(curlog)));
    NoneReadable(ring, from);
    NoneWalked(was, from, rs, edit, other[..]);
    while true
      invariant log.Valid() && log.Stamps() == ring && cur != other && cur.Length == other.Length == SECTOR && fresh(cur) && fresh(other)
      invariant seen <= log.count && curlog == StampAt(from, seen) && AllReadable(ring, Window(from, seen))
      invariant StampOf(other[..]) == Prior(curlog) ==> Readable(ring, Prior(curlog))
      invariant Course(ring, was, from, rs) && !log.vols.fakeWrite ==> Walked(was, log.Sectors(), from, rs, edit, seen, other[..])
      decreases log.count - seen
    {
      var found, sized;
      found, sized, ok := Round(log, cur, other, curlog, edit, strays(seen), was, from, rs, seen);
      if !found || !ok {
        OnCourseIs(ring, was, from, rs);
        if !found && Course(ring, was, from, rs) && AllReadable(ring, Window(from, |rs|)) && !log.vols.fakeWrite {
          AllWalked(ring, was, log.Sectors(), from, rs, edit, seen, other[..]);
        }
        return;
      }
      OneMoreReadable(ring, from, seen);
      FewReadable(ring, from, seen + 1);
      if sized { cur, other := other, cur; }
      NextStamp(from, seen);
      curlog := (curlog + 1) % WORD;
      seen := seen + 1;
    }
  }

  lemma OnCourseIs(ring: Ring, was: seq<Bytes>, from: nat, rs: seq<Record>)
    requires from < WORD && 0 < |was| == |ring| < WORD
    ensures Consistent(rs) && Held(was, from, rs) && AllReadable(ring, Window(from, |rs|)) && !Readable(ring, (from + |rs|) % WORD)
            ==> Course(ring, was, from, rs)
  {
    if AllReadable(ring, Window(from, |rs|)) { ReadableApart(ring, from, |rs|); }
  }

  /**
   * A restore to smaller volumes edits the log so: map updates behind their end go, and so do the blocks of
   * streams there. On consistent records the log holds all of their entries edited if and only if no entry
   * over two records gets shorter and still reaches into the second one; then every map update left is one
   * on the volumes, all of those are left, and every inode has its blocks there.
   */
  method FudgeTransactions(log: Log, shrink: bool, from: nat, volsize: nat, sizes: LogFudge.Sizes, strays: nat -> Stray, ghost rs: seq<Record>)
    returns (ok: bool, seen: nat)
    requires log.Valid() && from < WORD
    modifies log.vols
    ensures log.Valid() && log.Stamps() == old(log.Stamps())
    ensures !shrink ==> ok && log.Sectors() == old(log.Sectors())
    ensures shrink && ok ==> !Readable(log.Stamps(), (from + seen) % WORD)
    ensures var edit := LogFudge.Fudger(volsize, sizes);
            shrink && ok && !log.vols.fakeWrite && Consistent(rs) && old(Held(log.Sectors(), from, rs))
            && AllReadable(log.Stamps(), Window(from, |rs|)) && !Readable(log.Stamps(), (from + |rs|) % WORD)
            ==> Held(log.Sectors(), from, Stored(rs, edit))
                && (Stream(Stored(rs, edit)) == Edited(Stream(rs), edit)
                    <==> forall i, j :: 0 <= i && j == i + 1 && j < |rs| ==> !Stale(rs[i], rs[j], edit))
                && ((forall i, j :: 0 <= i && j == i + 1 && j < |rs| ==> !Stale(rs[i], rs[j], edit))
                    ==> LogUpdates.FitsVolumes(Stream(Stored(rs, edit)), Stream(rs), volsize, sizes))
  {
    hide LogUpdates.FitsVolumes;
    LogUpdates.StreamFits(Stream(rs), volsize, sizes);
    hide RingOf, SectorsOf, Readable, Window, AllReadable, Shortens, Held, Stored, Stream, Edited, Stale, Consistent;
    ok, seen := true, 0;
    if shrink {
      LogFudge.FudgeShortens(volsize, sizes);
      if Consistent(rs) { StoredEdits(rs, LogFudge.Fudger(volsize, sizes)); }
      ok, seen := Walk(log, from, LogFudge.Fudger(volsize, sizes), strays, rs);
    }
  }
}
