/** Bits of 32-bit words, numbered from the most significant one, and of arrays of words. */
module BitWords {
  const TOP: bv32 := 0x8000_0000

  function Half(m: bv32): bv32 { m >> 1 }

  function Quarter(m: bv32): bv32 { m >> 2 }

  /** The highest bit shifted down k times. */
  function Shifted(k: nat): bv32
    requires k <= 32
  {
    if k == 0 then TOP else Half(Shifted(k - 1))
  }

  /** The mask of bit k of a word; the lowest-numbered bit is the highest one. */
  function Mask(k: nat): bv32
    requires k <= 32
  {
    Shifted(k)
  }

  function And(w: bv32, m: bv32): bv32 { w & m }

  predicate Meets(w: bv32, m: bv32) { And(w, m) != 0 }

  function With(w: bv32, m: bv32): bv32 { w | m }

  function Less(w: bv32, m: bv32): bv32 { w & !m }

  function Bit(w: bv32, k: nat): bool
    requires k < 32
  {
    Meets(w, Mask(k))
  }

  function BitAt(a: seq<bv32>, n: nat): bool
    requires n < 32 * |a|
  {
    Bit(a[n / 32], n % 32)
  }

  /** The number of set bits among the first n. */
  function Pop(a: seq<bv32>, n: nat): nat
    requires n <= 32 * |a|
  {
    if n == 0 then 0 else Pop(a, n - 1) + if BitAt(a, n - 1) then 1 else 0
  }

  predicate OneBit(m: bv32) {
    m != 0 && m & (m - 1) == 0
  }

  lemma Halve(m: bv32)
    requires OneBit(m)
    ensures m >> 1 != 0 ==> OneBit(m >> 1)
    ensures m >> 1 < m
    ensures m >> 1 == 0 <==> m == 1
  {
  }

  /** The last mask is the lowest bit, and the next shift loses it. */
  lemma MaskTable()
    ensures Shifted(31) == 1 && Shifted(32) == 0
  {
    MaskTwelve();
    MaskTwentyFour();
    assert Shifted(25) == 0x00000040;
    assert Shifted(26) == 0x00000020;
    assert Shifted(27) == 0x00000010;
    assert Shifted(28) == 0x00000008;
    assert Shifted(29) == 0x00000004;
    assert Shifted(30) == 0x00000002;
    assert Shifted(31) == 0x00000001;
    assert Shifted(32) == 0;
  }

  lemma MaskTwelve()
    ensures Shifted(12) == 0x0008_0000
  {
    assert Shifted(1) == 0x40000000;
    assert Shifted(2) == 0x20000000;
    assert Shifted(3) == 0x10000000;
    assert Shifted(4) == 0x08000000;
    assert Shifted(5) == 0x04000000;
    assert Shifted(6) == 0x02000000;
    assert Shifted(7) == 0x01000000;
    assert Shifted(8) == 0x00800000;
    assert Shifted(9) == 0x00400000;
    assert Shifted(10) == 0x00200000;
    assert Shifted(11) == 0x00100000;
  }

  lemma MaskTwentyFour()
    ensures Shifted(24) == 0x0000_0080
  {
    MaskTwelve();
    assert Shifted(13) == 0x00040000;
    assert Shifted(14) == 0x00020000;
    assert Shifted(15) == 0x00010000;
    assert Shifted(16) == 0x00008000;
    assert Shifted(17) == 0x00004000;
    assert Shifted(18) == 0x00002000;
    assert Shifted(19) == 0x00001000;
    assert Shifted(20) == 0x00000800;
    assert Shifted(21) == 0x00000400;
    assert Shifted(22) == 0x00000200;
    assert Shifted(23) == 0x00000100;
  }

  /** Masks shrink, so a mask that is zero stays zero. */
  lemma {:induction false} MaskZero(k: nat)
    requires k <= 32 && Shifted(k) == 0
    ensures Shifted(32) == 0 && (k <= 31 ==> Shifted(31) == 0)
    decreases 32 - k
  {
    if k >= 31 {
    } else {
      MaskZero(k + 1);
    }
  }

  lemma {:induction false} MaskOneBit(k: nat)
    requires k < 32
    ensures OneBit(Shifted(k))
  {
    MaskTable();
    if k > 0 {
      MaskOneBit(k - 1);
      Halve(Shifted(k - 1));
      if Shifted(k) == 0 { MaskZero(k); }
    }
  }

  lemma {:induction false} MaskOrder(i: nat, j: nat)
    requires i < j < 32
    ensures Shifted(j) < Shifted(i)
  {
    MaskOneBit(j - 1);
    Halve(Shifted(j - 1));
    if i < j - 1 { MaskOrder(i, j - 1); }
  }

  predicate Apart(m: bv32, n: bv32) { m & n == 0 }

  lemma OneBitsApart(m: bv32, n: bv32)
    requires OneBit(m) && OneBit(n) && m != n
    ensures Apart(m, n)
  {
  }

  lemma MasksApart(i: nat, j: nat)
    requires i < 32 && j < 32 && i != j
    ensures Apart(Mask(i), Mask(j))
  {
    MaskOneBit(i);
    MaskOneBit(j);
    if i < j { MaskOrder(i, j); } else { MaskOrder(j, i); }
    OneBitsApart(Shifted(i), Shifted(j));
  }

  lemma MaskNotZero(k: nat)
    requires k < 32
    ensures Mask(k) != 0
  {
    MaskOneBit(k);
  }

  /** Shifting a mask down gives the next one, and zero exactly after the last. */
  lemma NextMask(k: nat)
    requires k < 32
    ensures Half(Mask(k)) == Mask(k + 1)
    ensures Mask(k + 1) == 0 <==> k == 31
    ensures Mask(0) == TOP
  {
    MaskTable();
    if k < 31 { MaskNotZero(k + 1); }
  }

  lemma OrSame(w: bv32, m: bv32)
    ensures And(With(w, m), m) == m
  {
  }

  lemma OrOther(w: bv32, m: bv32, n: bv32)
    requires Apart(m, n)
    ensures And(With(w, m), n) == And(w, n)
  {
  }

  lemma ClearSame(w: bv32, m: bv32)
    ensures And(Less(w, m), m) == 0
  {
  }

  lemma ClearOther(w: bv32, m: bv32, n: bv32)
    requires Apart(m, n)
    ensures And(Less(w, m), n) == And(w, n)
  {
  }

  lemma OrMeetsSame(w: bv32, m: bv32)
    ensures m != 0 ==> Meets(With(w, m), m)
  {
    hide And, With;
    OrSame(w, m);
  }

  lemma OrMeetsOther(w: bv32, m: bv32, n: bv32)
    requires Apart(m, n)
    ensures Meets(With(w, m), n) == Meets(w, n)
  {
    hide And, With, Apart;
    OrOther(w, m, n);
  }

  lemma ClearMeetsSame(w: bv32, m: bv32)
    ensures !Meets(Less(w, m), m)
  {
    hide And, Less;
    ClearSame(w, m);
  }

  lemma ClearMeetsOther(w: bv32, m: bv32, n: bv32)
    requires Apart(m, n)
    ensures Meets(Less(w, m), n) == Meets(w, n)
  {
    hide And, Less, Apart;
    ClearOther(w, m, n);
  }

  lemma OrBitSame(w: bv32, k: nat)
    requires k < 32
    ensures Bit(With(w, Mask(k)), k)
  {
    hide Meets, Mask, With, Less;
    MaskNotZero(k);
    OrMeetsSame(w, Mask(k));
  }

  lemma OrBitOther(w: bv32, k: nat, j: nat)
    requires k < 32 && j < 32 && j != k
    ensures Bit(With(w, Mask(k)), j) == Bit(w, j)
  {
    hide Meets, Mask, Apart, With, Less;
    MasksApart(k, j);
    OrMeetsOther(w, Mask(k), Mask(j));
  }

  lemma OrBit(w: bv32, k: nat, j: nat)
    requires k < 32 && j < 32
    ensures Bit(With(w, Mask(k)), j) <==> j == k || Bit(w, j)
  {
    hide Bit, Mask, With, Less;
    if j == k { OrBitSame(w, k); } else { OrBitOther(w, k, j); }
  }

  lemma ClearBitSame(w: bv32, k: nat)
    requires k < 32
    ensures !Bit(Less(w, Mask(k)), k)
  {
    hide Meets, Mask, With, Less;
    MaskNotZero(k);
    ClearMeetsSame(w, Mask(k));
  }

  lemma ClearBitOther(w: bv32, k: nat, j: nat)
    requires k < 32 && j < 32 && j != k
    ensures Bit(Less(w, Mask(k)), j) == Bit(w, j)
  {
    hide Meets, Mask, Apart, With, Less;
    MasksApart(k, j);
    ClearMeetsOther(w, Mask(k), Mask(j));
  }

  lemma ClearBit(w: bv32, k: nat, j: nat)
    requires k < 32 && j < 32
    ensures Bit(Less(w, Mask(k)), j) <==> j != k && Bit(w, j)
  {
    hide Bit, Mask, With, Less;
    if j == k { ClearBitSame(w, k); } else { ClearBitOther(w, k, j); }
  }

  /* ---------- two bits at a time ---------- */

  function PairShifted(j: nat): bv32
    requires j <= 16
  {
    if j == 0 then 0xC000_0000 else Half(Half(PairShifted(j - 1)))
  }

  /** The mask of bits 2j and 2j + 1 of a word. */
  function PairMask(j: nat): bv32
    requires j <= 16
  {
    PairShifted(j)
  }

  predicate Covers(w: bv32, m: bv32) { And(w, m) == m }

  lemma HalfWith(a: bv32, b: bv32)
    ensures Half(With(a, b)) == With(Half(a), Half(b))
  {
  }

  lemma HalfTwice(m: bv32)
    ensures Quarter(m) == Half(Half(m))
  {
  }

  lemma FirstPair()
    ensures With(TOP, Half(TOP)) == 0xC000_0000
  {
  }

  lemma {:induction false} PairIsTwo(j: nat)
    requires j < 16
    ensures PairShifted(j) == With(Shifted(2 * j), Shifted(2 * j + 1))
  {
    hide Half, With;
    if j == 0 {
      FirstPair();
    } else {
      PairIsTwo(j - 1);
      HalfWith(Shifted(2 * j - 2), Shifted(2 * j - 1));
      HalfWith(Half(Shifted(2 * j - 2)), Half(Shifted(2 * j - 1)));
      assert Shifted(2 * j - 1) == Half(Shifted(2 * j - 2));
      assert Shifted(2 * j) == Half(Shifted(2 * j - 1));
      assert Shifted(2 * j + 1) == Half(Shifted(2 * j));
    }
  }

  lemma PairWith(j: nat)
    requires j < 16
    ensures PairMask(j) == With(Mask(2 * j), Mask(2 * j + 1))
  {
    PairIsTwo(j);
  }

  lemma WithZero(a: bv32, b: bv32)
    ensures With(a, b) == 0 <==> a == 0 && b == 0
    ensures Half(0) == 0
  {
  }

  lemma PairNotZero(j: nat)
    requires j < 16
    ensures PairMask(j) != 0
  {
    hide With, Mask, PairMask, OneBit;
    PairWith(j);
    MaskNotZero(2 * j);
    WithZero(Mask(2 * j), Mask(2 * j + 1));
  }

  lemma PairStep(j: nat)
    requires j < 16
    ensures Quarter(PairMask(j)) == PairMask(j + 1)
  {
    hide Half, Quarter;
    HalfTwice(PairShifted(j));
  }

  /** Shifting a pair mask down by two gives the next one, and zero exactly after the last. */
  lemma NextPair(j: nat)
    requires j < 16
    ensures Quarter(PairMask(j)) == PairMask(j + 1)
    ensures PairMask(j + 1) == 0 <==> j == 15
    ensures PairMask(0) == 0xC000_0000
  {
    hide Quarter, Half;
    PairStep(j);
    if j < 15 {
      hide PairMask;
      PairNotZero(j + 1);
    } else {
      LastPair();
    }
  }

  lemma LastPair()
    ensures PairShifted(16) == 0
  {
    hide Half, With;
    PairIsTwo(15);
    MaskTable();
    assert Shifted(32) == Half(Shifted(31)) && Shifted(31) == Half(Shifted(30));
    HalfWith(Shifted(30), Shifted(31));
    HalfWith(Shifted(31), Shifted(32));
    WithZero(0, 0);
  }

  lemma CoversTwo(w: bv32, a: bv32, b: bv32)
    requires OneBit(a) && OneBit(b)
    ensures Covers(w, With(a, b)) <==> Meets(w, a) && Meets(w, b)
  {
    CoversOne(w, a);
    CoversOne(w, b);
    CoversEach(w, a, b);
  }

  lemma CoversOne(w: bv32, a: bv32)
    requires OneBit(a)
    ensures Covers(w, a) <==> Meets(w, a)
  {
  }

  lemma AndWith(w: bv32, a: bv32, b: bv32)
    ensures And(w, With(a, b)) == With(And(w, a), And(w, b))
  {
  }

  lemma MeetsEach(w: bv32, a: bv32, b: bv32)
    ensures Meets(w, With(a, b)) <==> Meets(w, a) || Meets(w, b)
  {
    hide And, With;
    AndWith(w, a, b);
    WithZero(And(w, a), And(w, b));
  }

  function Inverse(w: bv32): bv32 { !w }

  lemma AndHalves(w: bv32, m: bv32)
    ensures With(And(w, m), And(Inverse(w), m)) == m
  {
  }

  lemma AndNothing(w: bv32, m: bv32)
    ensures And(Inverse(w), And(w, m)) == 0
  {
  }

  lemma WithNothing(w: bv32)
    ensures With(w, 0) == w
  {
  }

  lemma AndInverse(w: bv32, m: bv32)
    ensures And(w, m) == m <==> And(Inverse(w), m) == 0
  {
    hide And, With, Inverse;
    AndHalves(w, m);
    AndNothing(w, m);
    WithNothing(And(w, m));
  }

  lemma CoversEach(w: bv32, a: bv32, b: bv32)
    ensures Covers(w, With(a, b)) <==> Covers(w, a) && Covers(w, b)
  {
    hide And, With, Inverse;
    AndInverse(w, a);
    AndInverse(w, b);
    AndInverse(w, With(a, b));
    MeetsEach(Inverse(w), a, b);
  }

  lemma MaskIsOneBit(k: nat)
    requires k < 32
    ensures OneBit(Mask(k))
  {
    MaskOneBit(k);
  }

  /** A word covers a pair mask when both bits are set, and meets it when one of them is. */
  lemma PairBits(w: bv32, j: nat)
    requires j < 16
    ensures Covers(w, PairMask(j)) <==> Bit(w, 2 * j) && Bit(w, 2 * j + 1)
    ensures Meets(w, PairMask(j)) <==> Bit(w, 2 * j) || Bit(w, 2 * j + 1)
  {
    hide Covers, Meets, With, Mask, PairMask, OneBit;
    PairWith(j);
    MaskIsOneBit(2 * j);
    MaskIsOneBit(2 * j + 1);
    CoversTwo(w, Mask(2 * j), Mask(2 * j + 1));
    MeetsEach(w, Mask(2 * j), Mask(2 * j + 1));
  }

  lemma WithTwice(w: bv32, a: bv32, b: bv32)
    ensures With(w, With(a, b)) == With(With(w, a), b)
    ensures Less(w, With(a, b)) == Less(Less(w, a), b)
  {
  }

  lemma OrPair(w: bv32, j: nat, k: nat)
    requires j < 16 && k < 32
    ensures Bit(With(w, PairMask(j)), k) <==> k / 2 == j || Bit(w, k)
  {
    hide With, Mask, PairMask, Bit, Less;
    PairWith(j);
    WithTwice(w, Mask(2 * j), Mask(2 * j + 1));
    OrBit(With(w, Mask(2 * j)), 2 * j + 1, k);
    OrBit(w, 2 * j, k);
  }

  lemma ClearPair(w: bv32, j: nat, k: nat)
    requires j < 16 && k < 32
    ensures Bit(Less(w, PairMask(j)), k) <==> k / 2 != j && Bit(w, k)
  {
    hide With, Mask, PairMask, Bit, Less;
    PairWith(j);
    WithTwice(w, Mask(2 * j), Mask(2 * j + 1));
    ClearBit(Less(w, Mask(2 * j)), 2 * j + 1, k);
    ClearBit(w, 2 * j, k);
  }

  /* ---------- arrays of words ---------- */

  lemma SetAt(a: seq<bv32>, n: nat, m: nat)
    requires n < 32 * |a| && m < 32 * |a|
    ensures BitAt(a[n / 32 := With(a[n / 32], Mask(n % 32))], m) <==> m == n || BitAt(a, m)
  {
    hide With, Mask, Bit;
    OrBit(a[n / 32], n % 32, m % 32);
  }

  lemma ClearAt(a: seq<bv32>, n: nat, m: nat)
    requires n < 32 * |a| && m < 32 * |a|
    ensures BitAt(a[n / 32 := Less(a[n / 32], Mask(n % 32))], m) <==> m != n && BitAt(a, m)
  {
    hide Less, Mask, Bit;
    ClearBit(a[n / 32], n % 32, m % 32);
  }

  lemma SetPairAt(a: seq<bv32>, j: nat, m: nat)
    requires 2 * j < 32 * |a| && m < 32 * |a|
    ensures BitAt(a[j / 16 := With(a[j / 16], PairMask(j % 16))], m) <==> m / 2 == j || BitAt(a, m)
  {
    hide With, PairMask, Bit;
    OrPair(a[j / 16], j % 16, m % 32);
  }

  lemma ClearPairAt(a: seq<bv32>, j: nat, m: nat)
    requires 2 * j < 32 * |a| && m < 32 * |a|
    ensures BitAt(a[j / 16 := Less(a[j / 16], PairMask(j % 16))], m) <==> m / 2 != j && BitAt(a, m)
  {
    hide Less, PairMask, Bit;
    ClearPair(a[j / 16], j % 16, m % 32);
  }

  /** Two arrays with the same first n bits have the same count. */
  lemma {:induction false} PopSame(a: seq<bv32>, b: seq<bv32>, n: nat)
    requires n <= 32 * |a| && n <= 32 * |b|
    requires forall m :: 0 <= m < n ==> BitAt(a, m) == BitAt(b, m)
    ensures Pop(a, n) == Pop(b, n)
  {
    hide BitAt;
    if n == 0 {
    } else {
      PopSame(a, b, n - 1);
    }
  }

  /** Arrays that differ in one bit of the first n differ by one in their counts. */
  lemma {:induction false} PopOneMore(a: seq<bv32>, b: seq<bv32>, n: nat, k: nat)
    requires k < n <= 32 * |a| && n <= 32 * |b|
    requires forall m :: 0 <= m < n && m != k ==> BitAt(a, m) == BitAt(b, m)
    requires !BitAt(a, k) && BitAt(b, k)
    ensures Pop(b, n) == Pop(a, n) + 1
  {
    hide BitAt;
    if n - 1 == k { PopSame(a, b, n - 1); } else { PopOneMore(a, b, n - 1, k); }
  }
}
