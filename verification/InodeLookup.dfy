/**
 * Finding an inode by its file system id (inode.c): a hash gives the slot to start from, and slots are
 * read one after the other, modulo the table's length, while they are chained and hold another id.
 * Masks with one less than the table's length are kept as the source has them.
 */
module InodeLookup {
  import opened Arithmetic
  import opened Wrappers

  datatype Inode = Inode(fsid: nat, refcount: nat, chained: bool)

  const HASH := 0x106d9
  const WORD := 0x1_0000_0000

  /** Bitwise and. */
  function And(x: nat, y: nat): (r: nat)
    ensures r <= y
  {
    if x == 0 || y == 0 then 0 else (if x % 2 == 1 && y % 2 == 1 then 1 else 0) + 2 * And(x / 2, y / 2)
  }

  /** The slot an id hashes to, with the product cut to 32 bits. */
  function Slot(fsid: nat, n: nat): (r: nat)
    requires n > 0
    ensures r < n
  {
    And(fsid * HASH % WORD, n - 1)
  }

  function Next(i: nat, n: nat): (r: nat)
    requires n > 0
    ensures r < n
  {
    And(i + 1, n - 1)
  }

  /** The largest power of two that divides n. */
  ghost function Twos(n: nat): (r: nat)
    requires n > 0
    ensures 1 <= r <= n
  {
    if n % 2 == 1 then 1 else 2 * Twos(n / 2)
  }

  /** The slot of probe i. */
  ghost function Walk(base: nat, i: nat, n: nat): (r: nat)
    requires base < n
    ensures r < n
  {
    if i == 0 then base else Next(Walk(base, i - 1, n), n)
  }

  /* ---------- the walk ---------- */

  /** The bits of the and, the last one first. */
  lemma AndBits(x: nat, y: nat)
    ensures And(x, y) == (if x % 2 == 1 && y % 2 == 1 then 1 else 0) + 2 * And(x / 2, y / 2)
  {
  }

  lemma {:induction false} AndAgain(x: nat, y: nat)
    ensures And(And(x, y), y) == And(x, y)
  {
    hide And;
    AndBits(x, y);
    AndBits(And(x, y), y);
    if x != 0 && y != 0 { AndAgain(x / 2, y / 2); } else { AndZero(x, y); }
  }

  lemma AndZero(x: nat, y: nat)
    requires x == 0 || y == 0
    ensures And(x, y) == 0 && And(0, y) == 0
  {
  }

  /** The next slot is the next one modulo the largest power of two in the table's length. */
  lemma {:induction false} NextIs(x: nat, n: nat)
    requires n > 0 && And(x, n - 1) == x
    ensures Next(x, n) == x - x % Twos(n) + (x % Twos(n) + 1) % Twos(n)
    decreases n
  {
    hide And, Twos, Next;
    TwosIs(n);
    if n % 2 == 1 {
      OddLength(x, n);
    } else if x % 2 == 0 {
      NextEven(x, n);
      EvenFormula(x, Twos(n / 2));
    } else {
      NextOdd(x, n);
      NextIs(x / 2, n / 2);
      OddFormula(x, x / 2, Twos(n / 2));
    }
  }

  lemma NextEven(x: nat, n: nat)
    requires n > 0 && n % 2 == 0 && x % 2 == 0 && And(x, n - 1) == x
    ensures Next(x, n) == x + 1
  {
    hide And;
    AndBits(x, n - 1);
    AndBits(x + 1, n - 1);
    assert (x + 1) / 2 == x / 2;
  }

  lemma NextOdd(x: nat, n: nat)
    requires n > 0 && n % 2 == 0 && x % 2 == 1 && And(x, n - 1) == x
    ensures And(x / 2, n / 2 - 1) == x / 2 && Next(x, n) == 2 * Next(x / 2, n / 2)
  {
    hide And;
    assert (n - 1) / 2 == n / 2 - 1;
    AndBits(x, n - 1);
    AndBits(x + 1, n - 1);
    assert (x + 1) / 2 == x / 2 + 1;
  }

  lemma EvenFormula(x: nat, p: nat)
    requires p > 0 && x % 2 == 0
    ensures x - x % (2 * p) + (x % (2 * p) + 1) % (2 * p) == x + 1
  {
    HalfRemainder(x, x / 2, p);
    EvenStep(x / 2 % p, p);
  }

  lemma OddFormula(x: nat, h: nat, p: nat)
    requires p > 0 && x == 2 * h + 1
    ensures x - x % (2 * p) + (x % (2 * p) + 1) % (2 * p) == 2 * (h - h % p + (h % p + 1) % p)
  {
    HalfRemainder(x, h, p);
    HalfRemainder(2 * (h % p + 1), h % p + 1, p);
  }

  lemma TwosIs(n: nat)
    requires n > 0
    ensures Twos(n) == if n % 2 == 1 then 1 else 2 * Twos(n / 2)
  {
  }

  lemma OddLength(x: nat, n: nat)
    requires n > 0 && n % 2 == 1 && And(x, n - 1) == x
    ensures Next(x, n) == x
  {
    hide And;
    AndBits(x, n - 1);
    AndBits(x + 1, n - 1);
    assert (x + 1) / 2 == x / 2;
  }

  /** The remainder of a number by an even one, from that of its half. */
  lemma HalfRemainder(x: nat, half: nat, p: nat)
    requires p > 0 && half == x / 2
    ensures x % (2 * p) == 2 * (half % p) + x % 2
  {
    var q, r := half / p, half % p;
    assert half == p * q + r;
    assert x == 2 * p * q + (2 * r + x % 2);
    Place(x, q, 2 * r + x % 2, 2 * p);
  }

  lemma EvenStep(r: nat, p: nat)
    requires p > 0 && r < p
    ensures (2 * r + 1) % (2 * p) == 2 * r + 1
  {
    Place(2 * r + 1, 0, 2 * r + 1, 2 * p);
  }

  /** Where each probe is, for a start that the mask leaves as it is. */
  lemma {:induction false} WalkIs(base: nat, i: nat, n: nat)
    requires base < n && And(base, n - 1) == base
    ensures var p := Twos(n);
            && Walk(base, i, n) == base - base % p + (base % p + i) % p
            && And(Walk(base, i, n), n - 1) == Walk(base, i, n)
  {
    hide Walk, And, Twos;
    var p := Twos(n);
    WalkStep(base, i, n);
    if i == 0 {
      Place(base % p, 0, base % p, p);
    } else {
      var x := Walk(base, i - 1, n);
      WalkIs(base, i - 1, n);
      NextIs(x, n);
      AndAgain(x + 1, n - 1);
      StepFormula(base, base % p + i - 1, x, p);
    }
  }

  /** A place in the same block of p. */
  lemma InBlock(base: nat, r: nat, p: nat)
    requires p > 0 && r < p
    ensures var x := base - base % p + r;
            x >= 0 && x % p == r && x - x % p == base - base % p
  {
    Place(base - base % p + r, base / p, r, p);
  }

  lemma StepFormula(base: nat, k: nat, x: nat, p: nat)
    requires p > 0 && x == base - base % p + k % p
    ensures x - x % p + (x % p + 1) % p == base - base % p + (k + 1) % p
  {
    InBlock(base, k % p, p);
    StepRemainder(k, p);
  }

  lemma StepRemainder(x: nat, p: nat)
    requires p > 0
    ensures (x % p + 1) % p == (x + 1) % p
  {
    var q, r := x / p, x % p;
    if r + 1 < p {
      Place(x + 1, q, r + 1, p);
      Place(r + 1, 0, r + 1, p);
    } else {
      assert x + 1 == p * (q + 1) + 0;
      Place(x + 1, q + 1, 0, p);
      Place(r + 1, 1, 0, p);
    }
  }

  /** The walk is back at its start after that many probes and not before. */
  lemma WalkReturns(base: nat, i: nat, n: nat)
    requires base < n && And(base, n - 1) == base && 0 < i <= Twos(n)
    ensures Walk(base, i, n) == base <==> i == Twos(n)
  {
    hide Walk, Twos, And;
    var p := Twos(n);
    WalkIs(base, i, n);
    RemainderBack(base % p, i, p);
  }

  lemma RemainderBack(r: nat, i: nat, p: nat)
    requires r < p && 0 < i <= p
    ensures (r + i) % p == r <==> i == p
  {
    if r + i < p { Place(r + i, 0, r + i, p); } else { Place(r + i, 1, r + i - p, p); }
  }

  /** Different probes read different slots. */
  lemma WalkDiffers(base: nat, i: nat, j: nat, n: nat)
    requires base < n && And(base, n - 1) == base && i < j < Twos(n)
    ensures Walk(base, i, n) != Walk(base, j, n)
  {
    hide Walk, Twos, And;
    var p := Twos(n);
    WalkIs(base, i, n);
    WalkIs(base, j, n);
    RemaindersDiffer(base % p, i, j, p);
  }

  lemma RemaindersDiffer(r: nat, i: nat, j: nat, p: nat)
    requires r < p && i < j < p
    ensures (r + i) % p != (r + j) % p
  {
    if r + i < p { Place(r + i, 0, r + i, p); } else { Place(r + i, 1, r + i - p, p); }
    if r + j < p { Place(r + j, 0, r + j, p); } else { Place(r + j, 1, r + j - p, p); }
  }

  lemma SlotMasked(fsid: nat, n: nat)
    requires n > 0
    ensures And(Slot(fsid, n), n - 1) == Slot(fsid, n)
  {
    AndAgain(fsid * HASH % WORD, n - 1);
  }

  /* ---------- the lookup ---------- */

  /** The slot of probe i for an id. */
  ghost function Probe(table: seq<Inode>, fsid: nat, i: nat): (r: nat)
    requires |table| > 0
    ensures r < |table|
  {
    Walk(Slot(fsid, |table|), i, |table|)
  }

  /** What the lookup gives from probe i on. */
  ghost function Lookup(table: seq<Inode>, fsid: nat, i: nat): (r: Option<nat>)
    requires |table| > 0 && i < Twos(|table|)
    ensures r.Some? ==> r.value < |table| && table[r.value].fsid == fsid && table[r.value].refcount != 0
    decreases Twos(|table|) - i
  {
    var cur := table[Probe(table, fsid, i)];
    if cur.fsid != fsid && cur.chained && i + 1 < Twos(|table|) then Lookup(table, fsid, i + 1)
    else if cur.fsid == fsid && cur.refcount != 0 then Some(Probe(table, fsid, i))
    else None
  }

  /** Every table is searched within as many probes as it has slots. */
  method ReadByFsid(table: seq<Inode>, fsid: nat) returns (r: Option<nat>, ghost probes: nat)
    requires |table| > 0
    ensures r == Lookup(table, fsid, 0)
    ensures 1 <= probes <= Twos(|table|) <= |table|
  {
    hide Walk, Twos, And;
    ghost var n := |table|;
    var inode := Slot(fsid, |table|);
    var base := inode;
    SlotMasked(fsid, n);
    WalkStep(base, 0, n);
    var cur := inode;
    probes := 1;
    while table[cur].fsid != fsid && table[cur].chained
      invariant 1 <= probes <= Twos(n) && inode == cur == Probe(table, fsid, probes - 1)
      invariant Lookup(table, fsid, 0) == Lookup(table, fsid, probes - 1)
      decreases Twos(n) - probes
    {
      WalkStep(base, probes, n);
      WalkReturns(base, probes, n);
      inode := Next(inode, |table|);
      if inode == base { break; }
      cur := inode;
      probes := probes + 1;
    }
    r := if table[cur].fsid == fsid && table[cur].refcount != 0 then Some(cur) else None;
  }

  lemma WalkStep(base: nat, i: nat, n: nat)
    requires base < n
    ensures Walk(base, i, n) == if i == 0 then base else Next(Walk(base, i - 1, n), n)
  {
  }

  /** Nothing before probe d stops the search: each slot is chained and has another id. */
  ghost predicate Clear(table: seq<Inode>, fsid: nat, d: nat)
    requires |table| > 0
  {
    forall j :: 0 <= j < d ==> table[Probe(table, fsid, j)].chained && table[Probe(table, fsid, j)].fsid != fsid
  }

  /** Where the search from probe i comes to an end, which is where the first one does. */
  lemma {:induction false} SearchEnds(table: seq<Inode>, fsid: nat, i: nat) returns (d: nat)
    requires |table| > 0 && i < Twos(|table|) && Clear(table, fsid, i)
    ensures i <= d < Twos(|table|) && Clear(table, fsid, d)
    ensures var last := table[Probe(table, fsid, d)];
            && (last.fsid != fsid && last.chained ==> d + 1 == Twos(|table|))
            && Lookup(table, fsid, i) == if last.fsid == fsid && last.refcount != 0 then Some(Probe(table, fsid, d)) else None
    decreases Twos(|table|) - i
  {
    hide Probe, Twos;
    var cur := table[Probe(table, fsid, i)];
    if cur.fsid != fsid && cur.chained && i + 1 < Twos(|table|) {
      d := SearchEnds(table, fsid, i + 1);
    } else {
      d := i;
    }
  }

  /**
   * An inode in use with the id, at any probe, is what the lookup gives exactly when no slot before it
   * on the way is unchained or holds the same id.
   */
  lemma FoundIff(table: seq<Inode>, fsid: nat, d: nat)
    requires |table| > 0 && d < Twos(|table|)
    requires var it := table[Probe(table, fsid, d)]; it.fsid == fsid && it.refcount != 0
    ensures Lookup(table, fsid, 0) == Some(Probe(table, fsid, d)) <==> Clear(table, fsid, d)
  {
    hide Twos, Lookup, Slot, And, Walk;
    var last := SearchEnds(table, fsid, 0);
    SlotMasked(fsid, |table|);
    if last < d { WalkDiffers(Slot(fsid, |table|), last, d, |table|); }
  }

  /** The lookup gives none exactly when none of the inodes in use with the id can be reached. */
  lemma NoneIff(table: seq<Inode>, fsid: nat)
    requires |table| > 0
    ensures Lookup(table, fsid, 0) == None <==>
            forall d :: 0 <= d < Twos(|table|) && InUse(table, fsid, d) ==> !Clear(table, fsid, d)
  {
    hide Twos, Lookup, Slot, And, Walk;
    var last := SearchEnds(table, fsid, 0);
    if Lookup(table, fsid, 0) == None {
      forall d | 0 <= d < Twos(|table|) && InUse(table, fsid, d) ensures !Clear(table, fsid, d) {
        FoundIff(table, fsid, d);
      }
    } else {
      assert InUse(table, fsid, last);
    }
  }

  ghost predicate InUse(table: seq<Inode>, fsid: nat, d: nat)
    requires |table| > 0
  {
    table[Probe(table, fsid, d)].fsid == fsid && table[Probe(table, fsid, d)].refcount != 0
  }

  /* ---------- tables of a power of two ---------- */

  ghost predicate PowerOfTwo(n: nat) { n > 0 && Twos(n) == n }

  /** At which probe a slot is read. */
  ghost function Distance(table: seq<Inode>, fsid: nat, slot: nat): (r: nat)
    requires slot < |table|
    ensures r < |table|
  {
    (slot + |table| - Slot(fsid, |table|)) % |table|
  }

  /** Every slot of a table of a power of two is reached. */
  lemma SlotReached(table: seq<Inode>, fsid: nat, slot: nat)
    requires slot < |table| && PowerOfTwo(|table|)
    ensures Probe(table, fsid, Distance(table, fsid, slot)) == slot
  {
    hide And, Slot, Walk;
    var n, base, d := |table|, Slot(fsid, |table|), Distance(table, fsid, slot);
    SlotMasked(fsid, n);
    WalkIs(base, d, n);
    DistanceBack(base, slot, n);
  }

  lemma DistanceBack(base: nat, slot: nat, n: nat)
    requires base < n && slot < n
    ensures base % n == base && (base % n + (slot + n - base) % n) % n == slot
  {
    Place(base, 0, base, n);
    if slot >= base {
      Place(slot + n - base, 1, slot - base, n);
      Place(slot, 0, slot, n);
    } else {
      Place(slot + n - base, 0, slot + n - base, n);
      Place(slot + n, 1, slot, n);
    }
  }

  /**
   * What the lookup needs of a table: on the way to each inode in use, every slot is chained and none
   * holds the same id, whether in use or not.
   */
  ghost predicate Kept(table: seq<Inode>) {
    forall k :: 0 <= k < |table| && table[k].refcount != 0 ==> Clear(table, table[k].fsid, Distance(table, table[k].fsid, k))
  }

  /** Every inode in use is found by its id exactly in the tables kept so. */
  lemma FoundIffKept(table: seq<Inode>)
    requires PowerOfTwo(|table|)
    ensures Kept(table) <==>
            forall k :: 0 <= k < |table| && table[k].refcount != 0 ==> Lookup(table, table[k].fsid, 0) == Some(k)
  {
    hide Lookup, Probe, Twos, Slot, Clear, Distance;
    forall k | 0 <= k < |table| && table[k].refcount != 0
      ensures Lookup(table, table[k].fsid, 0) == Some(k) <==> Clear(table, table[k].fsid, Distance(table, table[k].fsid, k))
    {
      SlotReached(table, table[k].fsid, k);
      FoundIff(table, table[k].fsid, Distance(table, table[k].fsid, k));
    }
  }

  /** In a kept table the lookup gives the inode in use with the id, and none exactly when there is none. */
  lemma LookupInKept(table: seq<Inode>, fsid: nat)
    requires PowerOfTwo(|table|) && Kept(table)
    ensures Lookup(table, fsid, 0) == None <==> forall k :: 0 <= k < |table| ==> table[k].refcount == 0 || table[k].fsid != fsid
    ensures forall k :: 0 <= k < |table| && table[k].refcount != 0 && table[k].fsid == fsid ==> Lookup(table, fsid, 0) == Some(k)
  {
    hide Lookup, Probe, Twos, Slot, Clear, Distance;
    FoundIffKept(table);
  }

  /**
   * Unique ids and chained slots are not enough: a slot no longer in use that still has the id hides the
   * inode in use after it.
   */
  lemma StaleSlotHides()
    ensures var table := [Inode(2, 0, true), Inode(2, 1, false)];
            && PowerOfTwo(|table|)
            && Lookup(table, 2, 0) == None && table[1].fsid == 2 && table[1].refcount != 0
            && Probe(table, 2, 0) == 0 && Probe(table, 2, 1) == 1
  {
    assert 2 * HASH % WORD % 2 == 0;
    assert And(2 * HASH % WORD, 1) == 0;
    assert And(1, 1) == 1;
  }

  lemma {:induction false} AndMask(x: nat, k: nat)
    ensures Power(k) > 0 && And(x, Power(k) - 1) == x % Power(k)
  {
    if k == 0 {
      AndZero(x, 0);
    } else {
      AndMask(x / 2, k - 1);
      hide And;
      AndBits(x, Power(k) - 1);
      HalfMask(x, Power(k - 1));
    }
  }

  lemma HalfMask(x: nat, p: nat)
    requires p > 0
    ensures (2 * p - 1) % 2 == 1 && (2 * p - 1) / 2 == p - 1 && x % (2 * p) == x % 2 + 2 * (x / 2 % p)
  {
    Place(x, x / 2 / p, x % 2 + 2 * (x / 2 % p), 2 * p);
  }

  /** In a table of a power of two the first slot is the remainder of the 32-bit product with 67289. */
  lemma FirstSlot(fsid: nat, k: nat)
    ensures Power(k) > 0 && Slot(fsid, Power(k)) == fsid * 67289 % 0x1_0000_0000 % Power(k)
  {
    AndMask(fsid * HASH % WORD, k);
    hide And;
  }
}
