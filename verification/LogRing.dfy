/**
 * The transaction log as a ring of stamps (log.c): the record with a stamp is kept in the slot of the
 * stamp modulo the length of the log, and stamps are numbers of 32 bits.
 */
module LogRing {
  import opened Arithmetic
  import opened Wrappers

  const WORD := 0x1_0000_0000

  /** The stamp of each slot's record, of those that have one that checks. */
  type Ring = seq<Option<nat>>

  predicate Readable(ring: Ring, stamp: nat) {
    ring != [] && ring[stamp % |ring|] == Some(stamp)
  }

  /** The ring after records have been written. */
  ghost function After(ring: Ring, stamps: seq<nat>): (r: Ring)
    ensures |r| == |ring|
  {
    if stamps == [] || ring == [] then ring
    else
      var before := After(ring, stamps[..|stamps| - 1]);
      var stamp := stamps[|stamps| - 1];
      before[stamp % |ring| := Some(stamp)]
  }

  /** A record is readable until another stamp with its remainder is written, unless it is written again. */
  lemma {:induction false} ReadableUntil(ring: Ring, stamps: seq<nat>, i: nat)
    requires ring != [] && i < |stamps|
    ensures Readable(After(ring, stamps), stamps[i]) <==> LastInSlot(stamps, i, |ring|)
  {
    hide After;
    var last := |stamps| - 1;
    AfterLast(ring, stamps);
    if i < last {
      assert stamps[..last][i] == stamps[i];
      ReadableUntil(ring, stamps[..last], i);
      OneLonger(stamps, i, |ring|);
      hide LastInSlot;
    }
  }

  lemma AfterLast(ring: Ring, stamps: seq<nat>)
    requires ring != [] && stamps != []
    ensures var last := |stamps| - 1;
            After(ring, stamps) == After(ring, stamps[..last])[stamps[last] % |ring| := Some(stamps[last])]
  {
  }

  /** After any other stamp in its slot, stamp i is written again. */
  ghost predicate LastInSlot(stamps: seq<nat>, i: nat, n: nat)
    requires i < |stamps| && n > 0
  {
    forall j :: i < j < |stamps| && stamps[j] % n == stamps[i] % n && stamps[j] != stamps[i] ==> stamps[i] in stamps[j + 1..]
  }

  lemma OneLonger(stamps: seq<nat>, i: nat, n: nat)
    requires n > 0 && i < |stamps| - 1
    ensures var last := |stamps| - 1;
            LastInSlot(stamps, i, n) <==>
            if stamps[last] % n == stamps[i] % n then stamps[last] == stamps[i] else LastInSlot(stamps[..last], i, n)
  {
    var last := |stamps| - 1;
    var s := stamps[..last];
    forall j | i < j < last ensures s[j] == stamps[j] && stamps[j + 1..] == s[j + 1..] + [stamps[last]] {}
    if stamps[last] % n == stamps[i] % n && stamps[last] != stamps[i] {
      assert stamps[last + 1..] == [];
    } else if stamps[last] % n != stamps[i] % n && !LastInSlot(stamps, i, n) {
      var j :| i < j < |stamps| && stamps[j] % n == stamps[i] % n && stamps[j] != stamps[i] && stamps[i] !in stamps[j + 1..];
      assert s[j] == stamps[j];
    }
  }

  /** Consecutive stamps, from the largest on again from zero. */
  function Window(stamp: nat, count: nat): (r: seq<nat>)
    ensures |r| == count && forall i :: 0 <= i < count ==> r[i] < WORD
  {
    seq(count, i requires 0 <= i < count => (stamp + i) % WORD)
  }

  ghost predicate AllReadable(ring: Ring, stamps: seq<nat>) {
    forall i :: 0 <= i < |stamps| ==> Readable(ring, stamps[i])
  }

  /**
   * The last records, as many as the log has slots, are all readable exactly when their stamps do not
   * start again from zero among them, or the number of slots divides the number of stamps.
   */
  lemma WindowReadable(ring: Ring, stamp: nat)
    requires 0 < |ring| < WORD && stamp < WORD
    ensures AllReadable(After(ring, Window(stamp, |ring|)), Window(stamp, |ring|)) <==> stamp + |ring| <= WORD || WORD % |ring| == 0
  {
    hide After, Readable, Window;
    var n, stamps := |ring|, Window(stamp, |ring|);
    if stamp + n <= WORD || WORD % n == 0 {
      forall i | 0 <= i < n ensures Readable(After(ring, stamps), stamps[i]) {
        LastInWindow(stamp, i, n);
        ReadableUntil(ring, stamps, i);
      }
    } else {
      var i, j := Colliding(stamp, n);
      WindowAt(stamp, n, i);
      WindowAt(stamp, n, j);
      forall k | j < k < n ensures stamps[k] != stamps[i] {
        WindowAt(stamp, n, k);
        StampsDiffer(stamp, i, k);
      }
      NotLast(stamps, i, j, n);
      ReadableUntil(ring, stamps, i);
    }
  }

  lemma WindowAt(stamp: nat, count: nat, i: nat)
    requires i < count
    ensures Window(stamp, count)[i] == (stamp + i) % WORD
  {
  }

  lemma NotLast(stamps: seq<nat>, i: nat, j: nat, n: nat)
    requires n > 0 && i < j < |stamps| && stamps[j] % n == stamps[i] % n && stamps[j] != stamps[i]
    requires stamps[i] !in stamps[j + 1..]
    ensures !LastInSlot(stamps, i, n)
  {
  }

  lemma LastInWindow(stamp: nat, i: nat, n: nat)
    requires i < n < WORD && stamp < WORD && (stamp + n <= WORD || WORD % n == 0)
    ensures LastInSlot(Window(stamp, n), i, n)
  {
    hide Window;
    WindowAt(stamp, n, i);
    forall j | i < j < n ensures Window(stamp, n)[j] % n != Window(stamp, n)[i] % n {
      WindowAt(stamp, n, j);
      SlotsDiffer(stamp, i, j, n);
    }
  }

  /** Stamps of a window do not share a slot when it does not start again, or starts again at the first slot. */
  lemma SlotsDiffer(stamp: nat, i: nat, j: nat, n: nat)
    requires i < j < n < WORD && stamp < WORD && (stamp + n <= WORD || WORD % n == 0)
    ensures (stamp + i) % WORD % n != (stamp + j) % WORD % n
  {
    SlotIs(stamp, i, n);
    SlotIs(stamp, j, n);
    var q, r := (stamp + i) / n, (stamp + i) % n;
    if r + (j - i) < n {
      Place(stamp + j, q, r + (j - i), n);
    } else {
      assert n * (q + 1) == n * q + n;
      Place(stamp + j, q + 1, r + (j - i) - n, n);
    }
  }

  lemma SlotIs(stamp: nat, i: nat, n: nat)
    requires i < n < WORD && stamp < WORD && (stamp + n <= WORD || WORD % n == 0)
    ensures (stamp + i) % WORD % n == (stamp + i) % n
  {
    if stamp + i >= WORD {
      Exact(WORD, n);
      var k, x := WORD / n, stamp + i - WORD;
      Place(x + k * n, x / n + k, x % n, n);
    }
  }

  /** Otherwise two of them do. */
  lemma Colliding(stamp: nat, n: nat) returns (i: nat, j: nat)
    requires 0 < n < WORD && stamp < WORD && stamp + n > WORD && WORD % n != 0
    ensures i < j < n && (stamp + i) % WORD % n == (stamp + j) % WORD % n && (stamp + i) % WORD != (stamp + j) % WORD
  {
    var before, e := WORD - stamp, WORD % n;
    var t := if before < e then before - 1 else e - 1;
    i, j := before - 1 - t, before + (e - 1 - t);
    assert (stamp + i) % WORD == WORD - 1 - t && (stamp + j) % WORD == e - 1 - t;
    RemainderBelow(WORD, n, e, 1 + t);
  }

  /** Going down from x by no more than its remainder. */
  lemma RemainderBelow(x: nat, n: nat, e: nat, t: nat)
    requires n > 0 && e == x % n && t <= e
    ensures 0 <= e <= x && (x - t) % n == e - t && (e - t) % n == e - t
  {
    Place(x - t, x / n, e - t, n);
    Place(e - t, 0, e - t, n);
  }

  /** With three slots, the record before the stamps start again is lost two records later. */
  lemma LostAcrossZero()
    ensures var stamps := Window(0xffff_ffff, 3);
            stamps == [0xffff_ffff, 0, 1] && !Readable(After([None, None, None], stamps), 0xffff_ffff)
  {
    var stamps := Window(0xffff_ffff, 3);
    assert stamps == [0xffff_ffff, 0, 1];
    ReadableUntil([None, None, None], stamps, 0);
  }

  /* ---------- how many stamps can be readable ---------- */

  ghost predicate DifferentBelow(s: seq<nat>, n: nat) {
    && (forall i :: 0 <= i < |s| ==> s[i] < n)
    && forall i, j :: 0 <= i < j < |s| ==> s[i] != s[j]
  }

  lemma SomeRoom(s: seq<nat>, n: nat)
    requires DifferentBelow(s, n) && s != []
    ensures n > 0
  {
    assert s[0] < n;
  }

  lemma {:induction false} DifferentFew(s: seq<nat>, n: nat)
    requires DifferentBelow(s, n)
    ensures |s| <= n
    decreases n
  {
    if n > 0 {
      if i :| 0 <= i < |s| && s[i] == n - 1 {
        DifferentFew(s[..i] + s[i + 1..], n - 1);
      } else {
        DifferentFew(s, n - 1);
      }
    } else {
      if s != [] { SomeRoom(s, n); }
    }
  }

  /** No more consecutive stamps are readable than the log has slots. */
  lemma FewReadable(ring: Ring, stamp: nat, count: nat)
    requires 0 < |ring| && count <= WORD && stamp < WORD && AllReadable(ring, Window(stamp, count))
    ensures count <= |ring|
  {
    hide Window, Readable;
    var stamps := Window(stamp, count);
    var slots := seq(count, i requires 0 <= i < count => stamps[i] % |ring|);
    forall i, j | 0 <= i < j < count ensures slots[i] != slots[j] {
      WindowAt(stamp, count, i);
      WindowAt(stamp, count, j);
      StampsDiffer(stamp, i, j);
      OneStampASlot(ring, stamps[i], stamps[j]);
    }
    DifferentFew(slots, |ring|);
  }

  lemma OneStampASlot(ring: Ring, stamp: nat, other: nat)
    requires Readable(ring, stamp) && Readable(ring, other) && stamp != other
    ensures stamp % |ring| != other % |ring|
  {
  }

  lemma StampsDiffer(stamp: nat, i: nat, j: nat)
    requires stamp < WORD && i < j < WORD
    ensures (stamp + i) % WORD != (stamp + j) % WORD
  {
  }
}
