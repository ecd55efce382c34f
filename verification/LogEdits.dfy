/**
 * What becomes of the entries of log records when an editor shortens or drops some of them
 * (restore.c): those inside a record, those that go on in the next one, and the stream they all make.
 */
module LogEdits {
  import opened ByteOrder
  import opened Media

  /** The bytes an entry takes, its length field included. */
  function EntryLength(s: Bytes): (r: nat)
    requires |s| >= 2
    ensures r >= 2
  {
    256 * ByteValue(s[0]) + ByteValue(s[1]) + 2
  }

  predicate IsEntry(e: Bytes) { |e| >= 2 && EntryLength(e) == |e| }

  /** What an editor makes of an entry. */
  function Apply(edit: Bytes -> Bytes, e: Bytes): Bytes { edit(e) }

  /** An editor makes entries shorter or drops them, and leaves one alone that it does not shorten. */
  ghost predicate Shortens(edit: Bytes -> Bytes) {
    forall e :: IsEntry(e) ==> (Apply(edit, e) == e || |Apply(edit, e)| < |e|) && (Apply(edit, e) == [] || IsEntry(Apply(edit, e)))
  }

  /** s begins with a complete entry. */
  predicate Begins(s: Bytes) { |s| >= 2 && EntryLength(s) <= |s| }

  lemma FirstIsEntry(s: Bytes)
    requires Begins(s)
    ensures 2 <= EntryLength(s) <= |s| && IsEntry(s[..EntryLength(s)])
  {
    hide ByteValue;
  }

  /** The entries of s edited, as far as they are complete. */
  function Edited(s: Bytes, edit: Bytes -> Bytes): Bytes {
    if Begins(s) then Apply(edit, s[..EntryLength(s)]) + Edited(s[EntryLength(s)..], edit) else s
  }

  lemma {:induction false} EditedShorter(s: Bytes, edit: Bytes -> Bytes)
    requires Shortens(edit)
    ensures |Edited(s, edit)| <= |s|
  {
    hide EntryLength, IsEntry;
    if !Begins(s) {
    } else {
      FirstIsEntry(s);
      EditedShorter(s[EntryLength(s)..], edit);
    }
  }

  /** The complete entries s begins with. */
  function CompletePart(s: Bytes): (r: nat)
    ensures r <= |s|
  {
    if Begins(s) then EntryLength(s) + CompletePart(s[EntryLength(s)..]) else 0
  }

  /** Where the last entry of s starts, complete or not. */
  function LastStart(s: Bytes): (r: nat)
    ensures r <= |s|
  {
    if |s| >= 2 && EntryLength(s) < |s| then EntryLength(s) + LastStart(s[EntryLength(s)..]) else 0
  }

  /** The last entry, of which a part may be missing. */
  function Last(s: Bytes): Bytes { s[LastStart(s)..] }

  /** Nothing of an entry is missing. */
  predicate Complete(s: Bytes) { CompletePart(s) == |s| }

  /* ---------- entries one after the other ---------- */

  lemma CompleteFirst(s: Bytes, t: Bytes)
    requires Begins(s)
    ensures Begins(s + t) && EntryLength(s + t) == EntryLength(s) && 2 <= EntryLength(s) <= |s|
    ensures (s + t)[..EntryLength(s)] == s[..EntryLength(s)] && (s + t)[EntryLength(s)..] == s[EntryLength(s)..] + t
  {
    hide ByteValue;
  }

  lemma {:induction false} CompleteAppend(s: Bytes, t: Bytes, edit: Bytes -> Bytes)
    requires Complete(s)
    ensures CompletePart(s + t) == |s| + CompletePart(t) && Edited(s + t, edit) == Edited(s, edit) + Edited(t, edit)
  {
    hide EntryLength, Begins;
    if s == [] {
      assert s + t == t;
    } else {
      CompleteFirst(s, t);
      CompleteAppend(s[EntryLength(s)..], t, edit);
    }
  }

  lemma OneEntry(e: Bytes, edit: Bytes -> Bytes)
    requires IsEntry(e)
    ensures Complete(e) && Edited(e, edit) == Apply(edit, e)
  {
    hide EntryLength;
    assert e[..|e|] == e && e[|e|..] == [];
  }

  lemma {:induction false} EditedComplete(s: Bytes, edit: Bytes -> Bytes)
    requires Complete(s) && Shortens(edit)
    ensures Complete(Edited(s, edit))
  {
    hide EntryLength, IsEntry, Begins;
    if s != [] {
      FirstIsEntry(s);
      var e := s[..EntryLength(s)];
      EditedComplete(s[|e|..], edit);
      if Apply(edit, e) == [] {
        assert Edited(s, edit) == Edited(s[|e|..], edit);
      } else {
        OneEntry(Apply(edit, e), edit);
        CompleteAppend(Apply(edit, e), Edited(s[|e|..], edit), edit);
      }
    }
  }

  /** The last entry is the rest of what follows complete ones. */
  lemma {:induction false} LastAfter(w: Bytes, p: Bytes)
    requires Complete(w) && |p| >= 2 && EntryLength(p) >= |p|
    ensures LastStart(w + p) == |w| && Last(w + p) == p
  {
    hide EntryLength;
    if w == [] {
      assert w + p == p;
    } else {
      CompleteFirst(w, p);
      LastAfter(w[EntryLength(w)..], p);
    }
  }

  lemma {:induction false} BeforeLast(s: Bytes)
    requires |Last(s)| >= 2
    ensures EntryLength(Last(s)) >= |Last(s)| && Complete(s[..LastStart(s)]) && s == s[..LastStart(s)] + Last(s)
  {
    hide EntryLength;
    if |s| >= 2 && EntryLength(s) < |s| {
      var n := EntryLength(s);
      FirstIsEntry(s);
      BeforeLast(s[n..]);
      assert Last(s[n..]) == Last(s);
      var w, v := s[..LastStart(s)], s[n..][..LastStart(s[n..])];
      assert w == s[..n] + v;
      var none: Bytes -> Bytes := e => e;
      OneEntry(s[..n], none);
      CompleteAppend(s[..n], v, none);
    } else {
      assert s[..0] == [];
    }
  }

  /* ---------- records ---------- */

  /** What a record holds: the end of an entry that began before it, and the entries that begin in it. */
  datatype Record = Record(front: Bytes, entries: Bytes)

  function Fewer(a: nat, b: nat): nat { if a < b then a else b }

  /** The part of an edited entry that goes back where the first |p| bytes were, and the rest. */
  function Spread(n: Bytes, p: Bytes): (Bytes, Bytes) {
    (n[..Fewer(|n|, |p|)], n[Fewer(|n|, |p|)..])
  }

  /** The last entry of prev goes on in cur. */
  predicate Spans(prev: Record, cur: Record) {
    cur.front != [] && |Last(prev.entries)| >= 2 && IsEntry(Last(prev.entries) + cur.front)
  }

  /** The record before cur and cur, after the entry that spans them is edited. */
  function Across(prev: Record, cur: Record, edit: Bytes -> Bytes): (Record, Record) {
    if Spans(prev, cur) then
      var (p, c) := Spread(Apply(edit, Last(prev.entries) + cur.front), Last(prev.entries));
      (prev.(entries := prev.entries[..LastStart(prev.entries)] + p), cur.(front := c))
    else
      (prev, cur)
  }

  /** The same after the entries of cur are edited, too. */
  function Step(prev: Record, cur: Record, edit: Bytes -> Bytes): (Record, Record) {
    var (p, c) := Across(prev, cur, edit);
    (p, c.(entries := Edited(c.entries, edit)))
  }

  /** The records after all of them are edited in their order. */
  function Run(rs: seq<Record>, edit: Bytes -> Bytes): (r: seq<Record>)
    ensures |r| == |rs|
  {
    if rs == [] then []
    else if |rs| == 1 then [rs[0].(entries := Edited(rs[0].entries, edit))]
    else
      var r := Run(rs[..|rs| - 1], edit);
      var (prev, cur) := Step(r[|r| - 1], rs[|rs| - 1], edit);
      r[..|r| - 1] + [prev, cur]
  }

  /** A record begins with what is missing of the last entry before it. */
  predicate Continues(prev: Record, cur: Record) {
    if cur.front == [] then Complete(prev.entries) else Spans(prev, cur)
  }

  ghost predicate Consistent(rs: seq<Record>) {
    forall i, j :: 0 <= i && j == i + 1 && j < |rs| ==> Continues(rs[i], rs[j])
  }

  /** The bytes of the entries, from the first one that begins in these records on. */
  function Stream(rs: seq<Record>): Bytes {
    if rs == [] then []
    else if |rs| == 1 then rs[0].entries
    else Stream(rs[..|rs| - 1]) + rs[|rs| - 1].front + rs[|rs| - 1].entries
  }

  /** The stream before the entries of the last record. */
  function Before(rs: seq<Record>): Bytes
    requires rs != []
  {
    if |rs| == 1 then [] else Stream(rs[..|rs| - 1]) + rs[|rs| - 1].front
  }

  lemma StreamIs(rs: seq<Record>)
    requires rs != []
    ensures Stream(rs) == Before(rs) + rs[|rs| - 1].entries
  {
  }

  lemma SpanParts(prev: Record, cur: Record)
    requires Spans(prev, cur)
    ensures EntryLength(Last(prev.entries)) > |Last(prev.entries)|
    ensures Complete(prev.entries[..LastStart(prev.entries)])
    ensures prev.entries == prev.entries[..LastStart(prev.entries)] + Last(prev.entries)
  {
    hide EntryLength;
    BeforeLast(prev.entries);
    SameLength(Last(prev.entries), cur.front);
  }

  lemma SameLength(p: Bytes, c: Bytes)
    requires |p| >= 2
    ensures EntryLength(p + c) == EntryLength(p)
  {
  }

  /** In consistent records the last one's entries start where an entry of the stream does. */
  lemma {:induction false} BeforeComplete(rs: seq<Record>)
    requires rs != [] && Consistent(rs)
    ensures Complete(Before(rs))
  {
    if |rs| <= 1 {
    } else {
      var init := rs[..|rs| - 1];
      BeforeComplete(init);
      var prev, cur := init[|init| - 1], rs[|rs| - 1];
      assert Continues(prev, cur);
      BeforeNext(init, prev, cur);
    }
  }

  lemma BeforeNext(init: seq<Record>, prev: Record, cur: Record)
    requires init != [] && prev == init[|init| - 1] && Complete(Before(init)) && Continues(prev, cur)
    ensures Complete(Stream(init) + cur.front)
  {
    StreamIs(init);
    hide Complete, Last, LastStart, IsEntry, Before, Stream;
    if cur.front == [] {
      CompleteBoth(Before(init), prev.entries);
      assert Stream(init) + cur.front == Before(init) + prev.entries;
    } else {
      SpanParts(prev, cur);
      CompleteSpan(Before(init), prev.entries[..LastStart(prev.entries)], Last(prev.entries), cur.front);
    }
  }

  lemma CompleteSpan(x: Bytes, w: Bytes, p: Bytes, c: Bytes)
    requires Complete(x) && Complete(w) && IsEntry(p + c)
    ensures Complete(x + (w + p) + c)
  {
    hide Complete, IsEntry;
    OneEntry(p + c, e => e);
    CompleteBoth(x, w);
    CompleteBoth(x + w, p + c);
    assert x + (w + p) + c == x + w + (p + c);
  }

  lemma CompleteBoth(s: Bytes, t: Bytes)
    requires Complete(s) && Complete(t)
    ensures Complete(s + t)
  {
    CompleteAppend(s, t, e => e);
  }

  /* ---------- the run ---------- */

  /** A record of which the entries are edited still goes on in the next one. */
  lemma StillSpans(prev: Record, cur: Record, edit: Bytes -> Bytes)
    requires Spans(prev, cur) && Shortens(edit)
    ensures var now := prev.(entries := Edited(prev.entries, edit));
            var w := Edited(prev.entries[..LastStart(prev.entries)], edit);
            && Spans(now, cur) && Last(now.entries) == Last(prev.entries)
            && now.entries[..LastStart(now.entries)] == w && now.entries == w + Last(prev.entries)
  {
    SpanParts(prev, cur);
    hide EntryLength, Last, LastStart, Complete, IsEntry, Shortens;
    var w, p := prev.entries[..LastStart(prev.entries)], Last(prev.entries);
    CompleteAppend(w, p, edit);
    EditedComplete(w, edit);
    LastAfter(Edited(w, edit), p);
  }

  /** The stream before and in two records when the entry spanning them is edited. */
  lemma SpanEdited(x: Bytes, prev: Record, cur: Record, edit: Bytes -> Bytes)
    requires Complete(x) && Continues(prev, cur) && Shortens(edit)
    ensures var (p, c) := Step(prev.(entries := Edited(prev.entries, edit)), cur, edit);
            Edited(x, edit) + p.entries + c.front == Edited(x + prev.entries + cur.front, edit)
  {
    var now := prev.(entries := Edited(prev.entries, edit));
    var (p, c) := Step(now, cur, edit);
    if cur.front == [] {
      CompleteAppend(x, prev.entries, edit);
      assert x + prev.entries + cur.front == x + prev.entries;
      assert Edited(x, edit) + p.entries + c.front == Edited(x, edit) + now.entries;
    } else {
      SpanParts(prev, cur);
      StillSpans(prev, cur, edit);
      hide Complete, Last, LastStart, IsEntry, Edited, Shortens, EntryLength;
      SpanOnce(x, prev.entries[..LastStart(prev.entries)], Last(prev.entries), cur.front, edit);
    }
  }

  lemma SpanOnce(x: Bytes, w: Bytes, p: Bytes, c: Bytes, edit: Bytes -> Bytes)
    requires Complete(x) && Complete(w) && IsEntry(p + c)
    ensures var (a, b) := Spread(Apply(edit, p + c), p);
            Edited(x, edit) + (Edited(w, edit) + a) + b == Edited(x + (w + p) + c, edit)
  {
    hide Complete, IsEntry, Edited, EntryLength;
    OneEntry(p + c, edit);
    CompleteAppend(w, p + c, edit);
    CompleteAppend(x, w + (p + c), edit);
    assert x + (w + p) + c == x + (w + (p + c));
    Regrouped(Edited(x, edit), Edited(w, edit), Apply(edit, p + c), Fewer(|Apply(edit, p + c)|, |p|));
  }

  lemma Regrouped(x: Bytes, w: Bytes, n: Bytes, k: nat)
    requires k <= |n|
    ensures x + (w + n[..k]) + n[k..] == x + (w + n)
  {
  }

  lemma BeforeAppended(r: seq<Record>, prev: Record, cur: Record)
    requires r != [] && prev.front == r[|r| - 1].front
    ensures Before(r[..|r| - 1] + [prev, cur]) == Before(r) + prev.entries + cur.front
  {
    var s := r[..|r| - 1] + [prev];
    assert r[..|r| - 1] + [prev, cur] == s + [cur] && (s + [cur])[..|s|] == s;
    assert s[..|s| - 1] == r[..|r| - 1];
    StreamIs(s);
  }

  lemma {:induction false} RunBefore(rs: seq<Record>, edit: Bytes -> Bytes)
    requires rs != [] && Consistent(rs) && Shortens(edit)
    ensures Before(Run(rs, edit)) == Edited(Before(rs), edit)
    ensures Run(rs, edit)[|rs| - 1].entries == Edited(rs[|rs| - 1].entries, edit)
  {
    hide Shortens, Edited, Step;
    if |rs| > 1 {
      var init, cur := rs[..|rs| - 1], rs[|rs| - 1];
      var prev, r := init[|init| - 1], Run(init, edit);
      RunBefore(init, edit);
      BeforeComplete(init);
      assert Continues(prev, cur);
      StreamIs(init);
      RunStep(init, prev, cur, r, edit);
    } else {
      NothingEdited(edit);
    }
  }

  lemma NothingEdited(edit: Bytes -> Bytes)
    ensures Edited([], edit) == []
  {
  }

  lemma RunStep(init: seq<Record>, prev: Record, cur: Record, r: seq<Record>, edit: Bytes -> Bytes)
    requires init != [] && prev == init[|init| - 1] && |r| == |init| && Shortens(edit)
    requires Complete(Before(init)) && Continues(prev, cur) && Stream(init) == Before(init) + prev.entries
    requires Before(r) == Edited(Before(init), edit) && r[|r| - 1].entries == Edited(prev.entries, edit)
    ensures var (p, c) := Step(r[|r| - 1], cur, edit);
            && Before(r[..|r| - 1] + [p, c]) == Edited(Stream(init) + cur.front, edit)
            && c.entries == Edited(cur.entries, edit)
  {
    hide Shortens, Edited, Continues, Complete, Before, Stream;
    var (p, c) := Step(r[|r| - 1], cur, edit);
    StepEntries(r[|r| - 1], prev.(entries := Edited(prev.entries, edit)), cur, edit);
    BeforeAppended(r, p, c);
    SpanEdited(Before(init), prev, cur, edit);
  }

  /** A step looks at nothing but the entries of the record before. */
  lemma StepEntries(prev: Record, other: Record, cur: Record, edit: Bytes -> Bytes)
    requires prev.entries == other.entries
    ensures Step(prev, cur, edit).0.front == prev.front
    ensures Step(prev, cur, edit).0.entries == Step(other, cur, edit).0.entries
    ensures Step(prev, cur, edit).1 == Step(other, cur, edit).1
    ensures Step(prev, cur, edit).1.entries == Edited(cur.entries, edit)
  {
  }

  /** All the records edited one by one hold the stream of all the entries edited. */
  lemma RunEdits(rs: seq<Record>, edit: Bytes -> Bytes)
    requires Consistent(rs) && Shortens(edit)
    ensures Stream(Run(rs, edit)) == Edited(Stream(rs), edit)
  {
    if rs != [] {
      hide Consistent, Shortens, Run, Stream, Before, Complete;
      RunBefore(rs, edit);
      BeforeComplete(rs);
      StreamIs(rs);
      StreamIs(Run(rs, edit));
      CompleteAppend(Before(rs), rs[|rs| - 1].entries, edit);
    }
  }

  /* ---------- what is stored ---------- */

  /** The entry that spans two records gets shorter, but still reaches into the second. */
  predicate Stale(prev: Record, cur: Record, edit: Bytes -> Bytes) {
    Spans(prev, cur) && var e := Last(prev.entries) + cur.front; |Last(prev.entries)| < |Apply(edit, e)| < |e|
  }

  /** The entry that spans two records gets so short that it ends in the first. */
  predicate EndsBefore(prev: Record, cur: Record, edit: Bytes -> Bytes) {
    Spans(prev, cur) && |Apply(edit, Last(prev.entries) + cur.front)| <= |Last(prev.entries)|
  }

  /** The stored records: the one before is written again unless it gets stale. */
  function Stored(rs: seq<Record>, edit: Bytes -> Bytes): (r: seq<Record>)
    ensures |r| == |rs|
  {
    if |rs| <= 1 then Run(rs, edit)
    else
      var init := rs[..|rs| - 1];
      var was, stored := Run(init, edit)[|init| - 1], Stored(init, edit);
      var (prev, cur) := Step(was, rs[|rs| - 1], edit);
      stored[..|init| - 1] + [if Stale(was, rs[|rs| - 1], edit) then was else prev, cur]
  }

  /** Each record but the last is as the step to the next one leaves it. */
  lemma {:induction false} AtRecord(rs: seq<Record>, edit: Bytes -> Bytes, i: nat)
    requires i + 1 < |rs|
    ensures var was := Run(rs[..i + 1], edit)[i];
            && Run(rs, edit)[i] == Step(was, rs[i + 1], edit).0
            && Stored(rs, edit)[i] == if Stale(was, rs[i + 1], edit) then was else Run(rs, edit)[i]
  {
    hide Step, Stale;
    if i + 2 < |rs| {
      var init := rs[..|rs| - 1];
      AtRecord(init, edit, i);
      assert init[..i + 1] == rs[..i + 1] && init[i + 1] == rs[i + 1];
    }
  }

  lemma LastStored(rs: seq<Record>, edit: Bytes -> Bytes)
    requires rs != []
    ensures Stored(rs, edit)[|rs| - 1] == Run(rs, edit)[|rs| - 1]
  {
    hide Step, Stale;
  }

  /** Staleness is seen on the records as they were. */
  lemma StaleFromStart(prev: Record, cur: Record, was: Record, edit: Bytes -> Bytes)
    requires Continues(prev, cur) && Shortens(edit) && was.entries == Edited(prev.entries, edit)
    ensures Stale(was, cur, edit) <==> Stale(prev, cur, edit)
  {
    if cur.front != [] {
      hide EntryLength, Last, LastStart, IsEntry, Edited, Shortens;
      StillSpans(prev, cur, edit);
    }
  }

  /** A stale record has the old length of its last entry. */
  lemma StaleDiffers(was: Record, cur: Record, edit: Bytes -> Bytes)
    requires Stale(was, cur, edit) && Shortens(edit)
    ensures Step(was, cur, edit).0 != was
    ensures |Step(was, cur, edit).0.entries| == |was.entries|
  {
    hide LastStart;
    var p, c := Last(was.entries), cur.front;
    var n := Apply(edit, p + c);
    SameLength(p, c);
    assert n == n[..|p|] + n[|p|..];
    SameLength(n[..|p|], n[|p|..]);
    hide EntryLength;
    assert Step(was, cur, edit).0.entries[LastStart(was.entries)..] == n[..|p|];
  }

  /** The same record but for the bytes of its entries. */
  predicate SameShape(a: Record, b: Record) { a.front == b.front && |a.entries| == |b.entries| }

  lemma {:induction false} SameStream(a: seq<Record>, b: seq<Record>)
    requires |a| == |b| && forall i :: 0 <= i < |a| ==> SameShape(a[i], b[i])
    ensures |Stream(a)| == |Stream(b)| && (Stream(a) == Stream(b) <==> a == b)
  {
    if |a| > 1 {
      var n := |a| - 1;
      SameStream(a[..n], b[..n]);
      SameEnds(Stream(a[..n]), a[n].entries, Stream(b[..n]), b[n].entries, a[n].front);
      assert SameShape(a[n], b[n]);
      assert a == a[..n] + [a[n]] && b == b[..n] + [b[n]];
    } else if |a| == 1 {
      assert SameShape(a[0], b[0]);
    }
  }

  lemma SameEnds(s: Bytes, x: Bytes, t: Bytes, y: Bytes, mid: Bytes)
    requires |s| == |t| && |x| == |y|
    ensures s + mid + x == t + mid + y <==> s == t && x == y
  {
    var u, v := s + mid + x, t + mid + y;
    assert u[..|s|] == s && v[..|s|] == t && u[|u| - |x|..] == x && v[|v| - |x|..] == y;
  }

  lemma ConsistentPrefix(rs: seq<Record>, i: nat)
    requires Consistent(rs) && i + 1 < |rs|
    ensures Consistent(rs[..i + 1]) && Continues(rs[i], rs[i + 1])
  {
    hide Continues;
    var j := i + 1;
    assert Continues(rs[i], rs[j]);
  }

  lemma StoredAt(rs: seq<Record>, edit: Bytes -> Bytes, i: nat)
    requires Consistent(rs) && Shortens(edit) && i < |rs|
    ensures SameShape(Stored(rs, edit)[i], Run(rs, edit)[i])
    ensures Stored(rs, edit)[i] == Run(rs, edit)[i] <==> i + 1 == |rs| || !Stale(rs[i], rs[i + 1], edit)
  {
    hide Stored, Run, Stale, Step, Shortens, Edited, Before, Continues;
    if i + 1 == |rs| {
      LastStored(rs, edit);
    } else {
      var init, was := rs[..i + 1], Run(rs[..i + 1], edit)[i];
      AtRecord(rs, edit, i);
      ConsistentPrefix(rs, i);
      hide Consistent;
      RunBefore(init, edit);
      StepEntries(was, was, rs[i + 1], edit);
      StaleFromStart(rs[i], rs[i + 1], was, edit);
      if Stale(was, rs[i + 1], edit) { StaleDiffers(was, rs[i + 1], edit); }
    }
  }

  /** The stored records hold the stream of all the entries edited exactly when none gets stale. */
  lemma StoredEdits(rs: seq<Record>, edit: Bytes -> Bytes)
    requires Consistent(rs) && Shortens(edit)
    ensures Stream(Stored(rs, edit)) == Edited(Stream(rs), edit)
            <==> forall i, j :: 0 <= i && j == i + 1 && j < |rs| ==> !Stale(rs[i], rs[j], edit)
  {
    hide Stored, Run, Stale, Stream, Consistent, Shortens, Edited;
    var stored, r := Stored(rs, edit), Run(rs, edit);
    RunEdits(rs, edit);
    forall i | 0 <= i < |rs| ensures SameShape(stored[i], r[i]) { StoredAt(rs, edit, i); }
    SameStream(stored, r);
    if forall i, j :: 0 <= i && j == i + 1 && j < |rs| ==> !Stale(rs[i], rs[j], edit) {
      forall i | 0 <= i < |rs| ensures stored[i] == r[i] {
        StoredAt(rs, edit, i);
        var j := i + 1;
        if j < |rs| { assert !Stale(rs[i], rs[j], edit); }
      }
      assert stored == r;
    } else {
      var i, j :| 0 <= i && j == i + 1 && j < |rs| && Stale(rs[i], rs[j], edit);
      StoredAt(rs, edit, i);
      assert stored[i] != r[i];
    }
  }

  /** An entry over two records of which the end stays in the second one: the first is stored as it was. */
  lemma StaleEntry(e: Bytes, edit: Bytes -> Bytes, k: nat)
    requires IsEntry(e) && Shortens(edit) && 2 <= k < |Apply(edit, e)| < |e|
    ensures var a, b := Record([], e[..k]), Record(e[k..], []);
            && Consistent([a, b]) && Stored([a, b], edit) == [a, Record(Apply(edit, e)[k..], [])]
            && Stream([a, b]) == e && Edited(e, edit) == Apply(edit, e)
            && Stream(Stored([a, b], edit)) != Edited(Stream([a, b]), edit)
  {
    var a, b := Record([], e[..k]), Record(e[k..], []);
    StaleStep(e, edit, k);
    TwoRecords(a, b, edit);
    OneEntry(e, edit);
    hide EntryLength, Shortens, Edited, Step, Stale, Spans, Apply, IsEntry, Complete, Consistent, Stored, Stream;
    assert e[..k] + e[k..] + [] == e;
    assert Stale([a, b][0], [a, b][1], edit);
    StoredEdits([a, b], edit);
  }

  lemma TwoRecords(a: Record, b: Record, edit: Bytes -> Bytes)
    requires b.front != [] && Stale(a, b, edit)
    ensures Consistent([a, b]) && Stream([a, b]) == a.entries + b.front + b.entries
    ensures Stored([a, b], edit) == [a.(entries := Edited(a.entries, edit)), Step(a.(entries := Edited(a.entries, edit)), b, edit).1]
            || !Stale(a.(entries := Edited(a.entries, edit)), b, edit)
  {
    hide Edited, Step, Spans, Last, Apply, IsEntry;
    assert [a, b][..1] == [a];
  }

  lemma StaleStep(e: Bytes, edit: Bytes -> Bytes, k: nat)
    requires IsEntry(e) && Shortens(edit) && 2 <= k < |Apply(edit, e)| < |e|
    ensures var a, b := Record([], e[..k]), Record(e[k..], []);
            && Spans(a, b) && Stale(a, b, edit) && Step(a, b, edit).1 == Record(Apply(edit, e)[k..], [])
            && Edited(a.entries, edit) == a.entries
  {
    var a, b := Record([], e[..k]), Record(e[k..], []);
    assert e[..k] + e[k..] == e;
    SameLength(e[..k], e[k..]);
    hide EntryLength, Apply, Shortens;
    assert LastStart(a.entries) == 0 && Last(a.entries) == a.entries;
    NothingEdited(edit);
  }
}
