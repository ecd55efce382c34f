/**
 * The checksum of MFS structures: the reflected 32-bit frame check sequence of section 8.1.1.6.2 of
 * ITU-T V.42, started from zero and not complemented, with the place of the stored checksum read as
 * a fixed pattern.
 */
module Crc {
  const POLYNOMIAL: bv32 := 0xedb8_8320

  function Xor(x: bv32, y: bv32): bv32 { x ^ y }

  function Wide(b: bv8): bv32 { b as bv32 }

  /** One bit of the division. */
  function Step(x: bv32): bv32 {
    if Odd(x) then Xor(Half(x), POLYNOMIAL) else Half(x)
  }

  function Steps(x: bv32, n: nat): bv32 {
    if n == 0 then x else Step(Steps(x, n - 1))
  }

  function Half(x: bv32): bv32 { x >> 1 }

  predicate Odd(x: bv32) { x & 1 == 1 }

  lemma XorHalves(x: bv32, y: bv32)
    ensures Half(Xor(x, y)) == Xor(Half(x), Half(y))
    ensures Odd(Xor(x, y)) <==> Odd(x) != Odd(y)
  {
  }

  lemma XorLaws(x: bv32, y: bv32, p: bv32)
    ensures Xor(Xor(x, p), y) == Xor(Xor(x, y), p) && Xor(x, Xor(y, p)) == Xor(Xor(x, y), p)
    ensures Xor(Xor(x, p), Xor(y, p)) == Xor(x, y)
  {
  }

  lemma StepLinear(x: bv32, y: bv32)
    ensures Step(Xor(x, y)) == Xor(Step(x), Step(y))
  {
    hide Xor, Half, Odd;
    XorHalves(x, y);
    XorLaws(Half(x), Half(y), POLYNOMIAL);
  }

  lemma StepInjective(x: bv32, y: bv32)
    requires Step(x) == Step(y)
    ensures x == y
  {
  }

  lemma {:induction false} StepsLinear(x: bv32, y: bv32, n: nat)
    ensures Steps(Xor(x, y), n) == Xor(Steps(x, n), Steps(y, n))
  {
    hide Xor, Step;
    if n == 0 {
    } else {
      StepsLinear(x, y, n - 1);
      StepLinear(Steps(x, n - 1), Steps(y, n - 1));
    }
  }

  lemma {:induction false} StepsInjective(x: bv32, y: bv32, n: nat)
    requires Steps(x, n) == Steps(y, n)
    ensures x == y
  {
    hide Step;
    if n == 0 {
    } else {
      StepInjective(Steps(x, n - 1), Steps(y, n - 1));
      StepsInjective(x, y, n - 1);
    }
  }

  lemma {:induction false} StepsTwice(x: bv32, m: nat, n: nat)
    ensures Steps(Steps(x, m), n) == Steps(x, m + n)
  {
    hide Step;
    if n == 0 {
    } else {
      StepsTwice(x, m, n - 1);
    }
  }

  function Low(x: bv32): bv32 { x & 0xff }

  function High(x: bv32): bv32 { x & 0xffff_ff00 }

  function Shift8(x: bv32): bv32 { x >> 8 }

  lemma Halves(x: bv32)
    ensures x == Xor(Low(x), High(x)) && Shift8(High(x)) == Shift8(x)
  {
  }

  lemma EvenBits(x: bv32)
    requires x & 0xff == 0
    ensures !Odd(x) && !Odd(x >> 1) && !Odd(x >> 2) && !Odd(x >> 3)
    ensures !Odd(x >> 4) && !Odd(x >> 5) && !Odd(x >> 6) && !Odd(x >> 7)
  {
  }

  lemma HalfShifts(x: bv32)
    ensures Half(x) == x >> 1 && Half(x >> 1) == x >> 2 && Half(x >> 2) == x >> 3 && Half(x >> 3) == x >> 4
    ensures Half(x >> 4) == x >> 5 && Half(x >> 5) == x >> 6 && Half(x >> 6) == x >> 7 && Half(x >> 7) == x >> 8
  {
  }

  lemma ShiftEight(x: bv32)
    requires Low(x) == 0
    ensures Steps(x, 8) == Shift8(x)
  {
    EvenBits(x);
    HalfShifts(x);
    hide Half, Odd, Xor;
    assert Steps(x, 0) == x;
    assert Steps(x, 1) == x >> 1;
    assert Steps(x, 2) == x >> 2;
    assert Steps(x, 3) == x >> 3;
    assert Steps(x, 4) == x >> 4;
    assert Steps(x, 5) == x >> 5;
    assert Steps(x, 6) == x >> 6;
    assert Steps(x, 7) == x >> 7;
  }

  lemma HighIsClear(x: bv32)
    ensures Low(High(x)) == 0
  {
  }

  /** Eight steps at once: look up the low byte, and shift the others down. */
  lemma EightSteps(x: bv32)
    ensures Steps(x, 8) == Xor(Steps(Low(x), 8), Shift8(x))
  {
    HighClear(x);
    Halves(x);
    hide Xor, Step, Low, High, Shift8, Steps;
    StepsLinear(Low(x), High(x), 8);
  }

  lemma HighClear(x: bv32)
    ensures Steps(High(x), 8) == Shift8(High(x))
  {
    hide High, Steps, Low, Shift8;
    HighIsClear(x);
    ShiftEight(High(x));
  }

  /** The entry of the lookup table for a low byte. */
  function Entry(x: bv32): bv32 { Steps(Low(x), 8) }

  function Updc32(octet: bv8, crc: bv32): bv32 {
    Xor(Entry(Xor(crc, Wide(octet))), Shift8(crc))
  }

  lemma OnlyLowByte(crc: bv32, octet: bv8)
    ensures Shift8(Xor(crc, Wide(octet))) == Shift8(crc)
  {
  }

  lemma UpdateIsSteps(octet: bv8, crc: bv32)
    ensures Updc32(octet, crc) == Steps(Xor(crc, Wide(octet)), 8)
  {
    hide Xor, Wide, Steps, Low, Shift8;
    EightSteps(Xor(crc, Wide(octet)));
    OnlyLowByte(crc, octet);
  }

  /** The checksum of some bytes, from a given start. */
  function Fold(crc: bv32, s: seq<bv8>): bv32 {
    if s == [] then crc else Updc32(s[|s| - 1], Fold(crc, s[..|s| - 1]))
  }

  lemma {:induction false} FoldAppend(crc: bv32, s: seq<bv8>, t: seq<bv8>)
    ensures Fold(crc, s + t) == Fold(Fold(crc, s), t)
  {
    hide Updc32;
    if t == [] {
      assert s + t == s;
    } else {
      assert (s + t)[..|s + t| - 1] == s + t[..|t| - 1];
      FoldAppend(crc, s, t[..|t| - 1]);
    }
  }

  lemma XorInjective(x: bv32, y: bv32, z: bv32)
    requires Xor(x, z) == Xor(y, z)
    ensures x == y
  {
  }

  lemma {:induction false} FoldInjective(c: bv32, d: bv32, s: seq<bv8>)
    requires Fold(c, s) == Fold(d, s)
    ensures c == d
  {
    hide Updc32, Xor, Wide, Steps;
    if s == [] {
    } else {
      var x, y, b := Fold(c, s[..|s| - 1]), Fold(d, s[..|s| - 1]), s[|s| - 1];
      UpdateIsSteps(b, x);
      UpdateIsSteps(b, y);
      StepsInjective(Xor(x, Wide(b)), Xor(y, Wide(b)), 8);
      XorInjective(x, y, Wide(b));
      FoldInjective(c, d, s[..|s| - 1]);
    }
  }

  /* ---------- four bytes at a time ---------- */

  /** A byte n places up in a word. */
  function Up(b: bv8, n: nat): bv32
    requires n < 4
  {
    if n == 0 then Wide(b) else if n == 1 then Wide(b) << 8 else if n == 2 then Wide(b) << 16 else Wide(b) << 24
  }

  lemma WideShifts(b: bv8)
    ensures (Wide(b) << 8) & 0xff == 0 && (Wide(b) << 8) >> 8 == Wide(b)
    ensures (Wide(b) << 16) & 0xff == 0 && (Wide(b) << 16) >> 8 == Wide(b) << 8
    ensures (Wide(b) << 24) & 0xff == 0 && (Wide(b) << 24) >> 8 == Wide(b) << 16
  {
  }

  lemma UpShifts(b: bv8, n: nat)
    requires 0 < n < 4
    ensures Low(Up(b, n)) == 0 && Shift8(Up(b, n)) == Up(b, n - 1)
  {
    hide Wide;
    WideShifts(b);
  }

  /** Eight steps for each place bring the byte down. */
  lemma {:induction false} UpSteps(b: bv8, n: nat)
    requires n < 4
    ensures Steps(Up(b, n), 8 * n) == Wide(b)
  {
    hide Wide, Step;
    if n == 0 {
      assert Up(b, 0) == Wide(b);
    } else {
      hide Steps, Up, Low, Shift8;
      UpShifts(b, n);
      ShiftEight(Up(b, n));
      StepsTwice(Up(b, n), 8, 8 * n - 8);
      UpSteps(b, n - 1);
    }
  }

  /** The word that bytes make, the first one lowest. */
  function Little(s: seq<bv8>): bv32
    requires |s| <= 4
  {
    if s == [] then 0 else Xor(Little(s[..|s| - 1]), Up(s[|s| - 1], |s| - 1))
  }

  lemma XorZero(x: bv32)
    ensures Xor(x, 0) == x
  {
  }

  /** Up to four bytes go in like one word. */
  lemma {:induction false} FoldWord(crc: bv32, s: seq<bv8>)
    requires |s| <= 4
    ensures Fold(crc, s) == Steps(Xor(crc, Little(s)), 8 * |s|)
  {
    hide Updc32, Xor, Wide, Step, Up;
    if s == [] {
      XorZero(crc);
    } else {
      var n, b := |s| - 1, s[|s| - 1];
      FoldWord(crc, s[..n]);
      UpdateIsSteps(b, Fold(crc, s[..n]));
      UpSteps(b, n);
      StepsLinear(Xor(crc, Little(s[..n])), Up(b, n), 8 * n);
      XorLaws(crc, Up(b, n), Little(s[..n]));
      XorSwap(crc, Little(s[..n]), Up(b, n));
      StepsTwice(Xor(crc, Little(s)), 8 * n, 8);
    }
  }

  lemma XorSwap(x: bv32, y: bv32, z: bv32)
    ensures Xor(Xor(x, y), z) == Xor(x, Xor(y, z))
  {
  }

  function Word(a: bv8, b: bv8, c: bv8, d: bv8): bv32 {
    Xor(Xor(Xor(Up(a, 0), Up(b, 1)), Up(c, 2)), Up(d, 3))
  }

  lemma LittleFour(s: seq<bv8>)
    requires |s| == 4
    ensures Little(s) == Word(s[0], s[1], s[2], s[3])
  {
    hide Up;
    ZeroXor(Up(s[0], 0));
    hide Xor;
    assert s[..3][..2] == s[..2] && s[..2][..1] == s[..1] && s[..1][..0] == [];
    assert Little(s[..1]) == Xor(Little([]), Up(s[0], 0));
    assert Little(s[..2]) == Xor(Little(s[..1]), Up(s[1], 1));
    assert Little(s[..3]) == Xor(Little(s[..2]), Up(s[2], 2));
  }

  lemma ZeroXor(x: bv32)
    ensures Xor(0, x) == x
  {
  }

  lemma WordBytes(a: bv8, b: bv8, c: bv8, d: bv8)
    ensures var w := Word(a, b, c, d);
            Byte(w, 0) == Wide(a) && Byte(w, 1) == Wide(b) && Byte(w, 2) == Wide(c) && Byte(w, 3) == Wide(d)
  {
  }

  lemma WideInjective(a: bv8, b: bv8)
    requires Wide(a) == Wide(b)
    ensures a == b
  {
  }

  function Byte(w: bv32, i: nat): bv32 {
    if i == 0 then w & 0xff else if i == 1 then (w >> 8) & 0xff else if i == 2 then (w >> 16) & 0xff else w >> 24
  }

  lemma LittleBytes(s: seq<bv8>)
    requires |s| == 4
    ensures forall i :: 0 <= i < 4 ==> Byte(Little(s), i) == Wide(s[i])
  {
    hide Byte, Word, Wide, Little;
    LittleFour(s);
    WordBytes(s[0], s[1], s[2], s[3]);
  }

  lemma LittleInjective(s: seq<bv8>, t: seq<bv8>)
    requires |s| == |t| == 4 && Little(s) == Little(t)
    ensures s == t
  {
    hide Byte, Wide, Little;
    LittleBytes(s);
    LittleBytes(t);
    forall i | 0 <= i < 4 ensures s[i] == t[i] {
      assert Byte(Little(s), i) == Wide(s[i]);
      WideInjective(s[i], t[i]);
    }
  }

  /** Four bytes that differ leave different states. */
  lemma FourDiffer(crc: bv32, s: seq<bv8>, t: seq<bv8>)
    requires |s| == |t| == 4 && Fold(crc, s) == Fold(crc, t)
    ensures s == t
  {
    hide Fold, Xor, Steps, Little;
    FoldWord(crc, s);
    FoldWord(crc, t);
    StepsInjective(Xor(crc, Little(s)), Xor(crc, Little(t)), 32);
    XorSame(crc, Little(s), Little(t));
    LittleInjective(s, t);
  }

  lemma XorSame(x: bv32, y: bv32, z: bv32)
    requires Xor(x, y) == Xor(x, z)
    ensures y == z
  {
  }

  lemma FewDiffer(crc: bv32, s: seq<bv8>, t: seq<bv8>)
    requires |s| == |t| <= 4 && Fold(crc, s) == Fold(crc, t)
    ensures s == t
  {
    hide Fold;
    var pad: seq<bv8> := seq(4 - |s|, _ => 0);
    FoldAppend(crc, s, pad);
    FoldAppend(crc, t, pad);
    FourDiffer(crc, s + pad, t + pad);
    assert s == (s + pad)[..|s|] && t == (t + pad)[..|s|];
  }

  /** Bytes that differ only in four consecutive places, or fewer, have different checksums. */
  lemma BurstShows(crc: bv32, head: seq<bv8>, s: seq<bv8>, t: seq<bv8>, tail: seq<bv8>)
    requires |s| == |t| <= 4 && s != t
    ensures Fold(crc, head + s + tail) != Fold(crc, head + t + tail)
  {
    hide Fold;
    FoldAppend(crc, head + s, tail);
    FoldAppend(crc, head + t, tail);
    FoldAppend(crc, head, s);
    FoldAppend(crc, head, t);
    if Fold(crc, head + s + tail) == Fold(crc, head + t + tail) {
      FoldInjective(Fold(crc, head + s), Fold(crc, head + t), tail);
      FewDiffer(Fold(crc, head), s, t);
    }
  }

  /* ---------- the stored checksum ---------- */

  const MAGIC: seq<bv8> := [0xde, 0xad, 0xf0, 0x0d]

  /** The bytes with the pattern in place of the four at an offset. */
  function Masked(data: seq<bv8>, at: nat): seq<bv8> {
    seq(|data|, i requires 0 <= i < |data| => if at <= i < at + 4 then MAGIC[i - at] else data[i])
  }

  function FieldCrc(data: seq<bv8>, at: nat): bv32 { Fold(0, Masked(data, at)) }

  /** The bytes of a word, the highest first. */
  function BigEndian(w: bv32): (s: seq<bv8>)
    ensures |s| == 4
  {
    [((w >> 24) & 0xff) as bv8, ((w >> 16) & 0xff) as bv8, ((w >> 8) & 0xff) as bv8, (w & 0xff) as bv8]
  }

  /** The word that is stored matches the others. */
  predicate Checked(data: seq<bv8>, at: nat)
    requires at + 4 <= |data|
  {
    data[at..at + 4] == BigEndian(FieldCrc(data, at))
  }

  /** With the stored checksum inside the data, masking is replacing it. */
  lemma MaskedIs(data: seq<bv8>, at: nat)
    requires at + 4 <= |data|
    ensures Masked(data, at) == data[..at] + MAGIC + data[at + 4..]
  {
  }

  /** What is stored does not matter to the checksum. */
  lemma StoredIgnored(data: seq<bv8>, other: seq<bv8>, at: nat)
    requires |data| == |other|
    requires forall i :: 0 <= i < |data| && !(at <= i < at + 4) ==> data[i] == other[i]
    ensures FieldCrc(data, at) == FieldCrc(other, at)
  {
    assert Masked(data, at) == Masked(other, at);
  }

  /** Storing a buffer's checksum makes it check. */
  lemma UpdateThenCheck(data: seq<bv8>, at: nat)
    requires at + 4 <= |data|
    ensures Checked(data[..at] + BigEndian(FieldCrc(data, at)) + data[at + 4..], at)
  {
    hide FieldCrc, BigEndian;
    StoredIgnored(data, data[..at] + BigEndian(FieldCrc(data, at)) + data[at + 4..], at);
  }

  /** A change of up to four consecutive bytes outside the stored checksum, or around it, always shows. */
  lemma ChangeShows(data: seq<bv8>, other: seq<bv8>, at: nat, w: nat)
    requires |data| == |other| && w <= |data|
    requires forall i :: 0 <= i < |data| && !(w <= i < w + 4) ==> data[i] == other[i]
    requires exists i :: 0 <= i < |data| && !(at <= i < at + 4) && data[i] != other[i]
    ensures FieldCrc(data, at) != FieldCrc(other, at)
  {
    hide Fold;
    var i :| 0 <= i < |data| && !(at <= i < at + 4) && data[i] != other[i];
    var end := if w + 4 <= |data| then w + 4 else |data|;
    var m, n := Masked(data, at), Masked(other, at);
    assert m[i] != n[i] && forall k :: 0 <= k < |m| && !(w <= k < end) ==> m[k] == n[k];
    hide Masked;
    WindowShows(m, n, w, end, i);
  }

  lemma WindowShows(m: seq<bv8>, n: seq<bv8>, w: nat, end: nat, i: nat)
    requires |m| == |n| && w <= i < end <= |m| && end <= w + 4
    requires m[i] != n[i] && forall k :: 0 <= k < |m| && !(w <= k < end) ==> m[k] == n[k]
    ensures Fold(0, m) != Fold(0, n)
  {
    hide Fold;
    Outside(m, n, w, end);
    assert m[w..end][i - w] != n[w..end][i - w];
    BurstShows(0, m[..w], m[w..end], n[w..end], m[end..]);
  }

  lemma Outside(m: seq<bv8>, n: seq<bv8>, w: nat, end: nat)
    requires w <= end <= |m| == |n|
    requires forall i :: 0 <= i < |m| && !(w <= i < end) ==> m[i] == n[i]
    ensures m == m[..w] + m[w..end] + m[end..] && n == m[..w] + n[w..end] + m[end..]
  {
  }

  /** A counter of 32 bits going down by one. */
  function Previous(n: nat): (r: nat)
    ensures n < 0x1_0000_0000 ==> r < 0x1_0000_0000
  {
    if n == 0 then 0xffff_ffff else n - 1
  }

  lemma FoldOne(crc: bv32, s: seq<bv8>, i: nat)
    requires i < |s|
    ensures Fold(crc, s[..i + 1]) == Updc32(s[i], Fold(crc, s[..i]))
  {
    assert s[..i + 1][..i] == s[..i];
  }

  /** The checksum by counting down to the stored word, an offset in words that may run past the data. */
  method ComputeCrc(data: array<bv8>, wordOffset: nat) returns (crc: bv32)
    requires data.Length < 0x1_0000_0000
    ensures crc == FieldCrc(data[..], 4 * wordOffset % 0x1_0000_0000)
  {
    hide Updc32, Fold;
    crc := 0;
    ghost var at := 4 * wordOffset % 0x1_0000_0000;
    var off := (wordOffset * 4 + 3) % 0x1_0000_0000;
    var i, size := 0, data.Length;
    ghost var masked := Masked(data[..], at);
    FoldNone(masked[..0]);
    while size > 0
      invariant 0 <= i <= data.Length == i + size && crc == Fold(0, masked[..i])
      invariant off == (if i <= at + 3 then at + 3 - i else at + 3 - i + 0x1_0000_0000)
    {
      FoldOne(0, masked, i);
      if off < 4 {
        crc := Updc32(MAGIC[3 - off], crc);
      } else {
        crc := Updc32(data[i], crc);
      }
      i, size, off := i + 1, size - 1, Previous(off);
    }
    assert masked[..i] == masked;
  }

  lemma FoldNone(s: seq<bv8>)
    requires s == []
    ensures Fold(0, s) == 0
  {
  }

  method CheckCrc(data: array<bv8>, wordOffset: nat) returns (valid: bool)
    requires data.Length < 0x1_0000_0000 && 4 * wordOffset + 4 <= data.Length
    ensures valid <==> Checked(data[..], 4 * wordOffset)
  {
    hide BigEndian, FieldCrc;
    var at := 4 * wordOffset;
    var crc := ComputeCrc(data, wordOffset);
    return data[at..at + 4] == BigEndian(crc);
  }

  /** Stores the checksum, which then checks, and changes nothing else. */
  method UpdateCrc(data: array<bv8>, wordOffset: nat)
    requires data.Length < 0x1_0000_0000 && 4 * wordOffset + 4 <= data.Length
    modifies data
    ensures Checked(data[..], 4 * wordOffset)
    ensures forall i :: 0 <= i < data.Length && !(4 * wordOffset <= i < 4 * wordOffset + 4) ==> data[i] == old(data[i])
  {
    hide BigEndian, FieldCrc;
    var at := 4 * wordOffset;
    ghost var was := data[..];
    var crc := ComputeCrc(data, wordOffset);
    var bytes := BigEndian(crc);
    data[at], data[at + 1], data[at + 2], data[at + 3] := bytes[0], bytes[1], bytes[2], bytes[3];
    UpdateThenCheck(was, at);
    assert data[..] == was[..at] + bytes + was[at + 4..];
  }

  /** A range of bytes, cut off at the end of the buffer. */
  function Slice(buf: seq<bv8>, off: nat, len: nat): seq<bv8> {
    if off < |buf| then buf[off..if off + len < |buf| then off + len else |buf|] else []
  }

  method Update(value: bv32, buf: seq<bv8>, off: nat, len: nat) returns (r: bv32)
    ensures r == Fold(value, Slice(buf, off, len))
  {
    hide Updc32, Fold;
    r := value;
    var i, left := off, len;
    ghost var range := Slice(buf, off, len);
    FoldNothing(value);
    assert range[..0] == [];
    while i < |buf| && left > 0
      invariant off <= i <= off + |range| && left == off + len - i && r == Fold(value, range[..i - off])
    {
      FoldOne(value, range, i - off);
      r := Updc32(buf[i], r);
      i, left := i + 1, left - 1;
    }
    assert range[..i - off] == range;
  }

  lemma FoldNothing(crc: bv32)
    ensures Fold(crc, []) == crc
  {
  }

  const INT_MAX: nat := 0x7fff_ffff

  /** The same checksum as prefix, pattern and suffix. */
  method CalculateCrc(buf: seq<bv8>, checksumOffset: nat) returns (crc: bv32)
    requires checksumOffset + 4 <= |buf| <= INT_MAX
    ensures crc == FieldCrc(buf, checksumOffset)
    ensures crc == Fold(0, buf[..checksumOffset] + [0xde, 0xad, 0xf0, 0x0d] + buf[checksumOffset + 4..])
  {
    hide Fold, Masked;
    crc := Update(0, buf, 0, checksumOffset);
    crc := Update(crc, MAGIC, 0, 4);
    crc := Update(crc, buf, checksumOffset + 4, INT_MAX);
    MaskedIs(buf, checksumOffset);
    assert buf[0..checksumOffset] == buf[..checksumOffset] && MAGIC[0..4] == MAGIC;
    FoldAppend(0, buf[..checksumOffset], MAGIC);
    FoldAppend(0, buf[..checksumOffset] + MAGIC, buf[checksumOffset + 4..]);
    if checksumOffset + 4 == |buf| {
      assert buf[checksumOffset + 4..] == [];
    } else {
      assert buf[checksumOffset + 4..|buf|] == buf[checksumOffset + 4..];
    }
  }
}
