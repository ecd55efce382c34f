/** A 64-bit zone descriptor as bytes: its header, the pointers, the bitmaps and the rest of its blocks. */
module ZoneFormat {
  import opened Wrappers
  import opened ByteOrder
  import Crc

  /** A 64-bit field, which the streams hold as two words. */
  datatype Long = Long(hi: bv32, lo: bv32)

  datatype Header = Header(
    descriptorStart: Long, backupStart: Long, nextSector: Long, nextSbackup: Long, nextSize: Long,
    dataStart: Long, dataEnd: Long, dataSize: Long, freeData: Long,
    nextLength: bv32, descriptorSize: bv32, min: bv32, nextMin: bv32, logStamp: bv32, kind: bv32,
    checksum: bv32, zero: bv32, num: bv32)

  datatype Map = Map(blocks: bv32, freeBlocks: bv32, last: bv32, size: bv32, words: seq<bv32>)

  /** What follows the bitmaps is kept when it has been read, and is padding otherwise. */
  datatype Image = Image(header: Header, pointers: seq<bv32>, maps: seq<Map>, extra: Option<seq<bv8>>)

  const HEADER_WORDS: nat := 27
  const CRC_OFFSET: nat := 96
  const PAD: bv8 := 0xAA

  /* ---------- writing ---------- */

  function Ints(ws: seq<bv32>): (s: seq<bv8>)
    ensures |s| == 4 * |ws|
  {
    if ws == [] then [] else Ints(ws[..|ws| - 1]) + Crc.BigEndian(ws[|ws| - 1])
  }

  function LongWords(a: Long, b: Long, c: Long): seq<bv32> { [a.hi, a.lo, b.hi, b.lo, c.hi, c.lo] }

  function HeaderInts(h: Header): seq<bv32> {
    LongWords(h.descriptorStart, h.backupStart, h.nextSector) + LongWords(h.nextSbackup, h.nextSize, h.dataStart)
    + LongWords(h.dataEnd, h.dataSize, h.freeData)
    + [h.nextLength, h.descriptorSize, h.min, h.nextMin, h.logStamp, h.kind, h.checksum, h.zero, h.num]
  }

  function MapBytes(m: Map): seq<bv8> {
    Ints([m.blocks, m.freeBlocks, m.last, m.size]) + Ints(m.words)
  }

  function MapsBytes(maps: seq<Map>): seq<bv8> {
    if maps == [] then [] else MapsBytes(maps[..|maps| - 1]) + MapBytes(maps[|maps| - 1])
  }

  function Body(z: Image): seq<bv8> {
    Ints(HeaderInts(z.header)) + Ints(z.pointers) + MapsBytes(z.maps)
  }

  /** The padding up to the end of the descriptor's blocks, and none when they are full. */
  function Tail(z: Image): seq<bv8> {
    if z.extra.Some? then z.extra.value
    else
      var left := 512 * Value(z.header.descriptorSize) - |Body(z)|;
      if left > 0 then seq(left, _ => PAD) else []
  }

  function ZoneBytes(z: Image): seq<bv8> { Body(z) + Tail(z) }

  /* ---------- reading ---------- */

  function ParseInt(s: seq<bv8>): Option<(bv32, seq<bv8>)> {
    if |s| < 4 then None else Some((Join(s[..4]), s[4..]))
  }

  function ParseInts(s: seq<bv8>, n: nat): Option<(seq<bv32>, seq<bv8>)> {
    if n == 0 then Some(([], s))
    else match ParseInt(s)
      case None => None
      case Some((w, rest)) =>
        match ParseInts(rest, n - 1)
        case None => None
        case Some((ws, after)) => Some(([w] + ws, after))
  }

  function Signed(w: bv32): int {
    if Value(w) < 0x8000_0000 then Value(w) else Value(w) - 0x1_0000_0000
  }

  /** The words a bitmap has, which its header gives. */
  function WordCount(blocks: bv32, size: bv32): int { Signed(size) + 1 - 15 / (8 + Value(blocks)) }

  function ParseMap(s: seq<bv8>): Option<(Map, seq<bv8>)> {
    match ParseInts(s, 4)
    case None => None
    case Some((h, rest)) =>
      if |h| != 4 || WordCount(h[0], h[3]) < 0 then None
      else match ParseInts(rest, WordCount(h[0], h[3]))
        case None => None
        case Some((words, after)) => Some((Map(h[0], h[1], h[2], h[3], words), after))
  }

  function ParseMaps(s: seq<bv8>, n: nat): Option<(seq<Map>, seq<bv8>)>
    decreases n
  {
    if n == 0 then Some(([], s))
    else match ParseMap(s)
      case None => None
      case Some((m, rest)) =>
        match ParseMaps(rest, n - 1)
        case None => None
        case Some((ms, after)) => Some(([m] + ms, after))
  }

  function HeaderOf(w: seq<bv32>): Header
    requires |w| == HEADER_WORDS
  {
    Header(Long(w[0], w[1]), Long(w[2], w[3]), Long(w[4], w[5]), Long(w[6], w[7]), Long(w[8], w[9]),
           Long(w[10], w[11]), Long(w[12], w[13]), Long(w[14], w[15]), Long(w[16], w[17]),
           w[18], w[19], w[20], w[21], w[22], w[23], w[24], w[25], w[26])
  }

  /** A zone from all the bytes read for it; only the types node, application and media are known. */
  function ParseZone(s: seq<bv8>): Option<Image> {
    match ParseInts(s, HEADER_WORDS)
    case None => None
    case Some((w, rest)) =>
      if |w| != HEADER_WORDS || Value(HeaderOf(w).kind) > 2 || Signed(HeaderOf(w).num) < 0 then None
      else
        var h := HeaderOf(w);
        match ParseInts(rest, Value(h.num))
        case None => None
        case Some((pointers, maps)) =>
          match ParseMaps(maps, Value(h.num))
          case None => None
          case Some((ms, after)) => Some(Image(h, pointers, ms, if |after| > 0 then Some(after) else None))
  }

  /* ---------- reading what was written ---------- */

  lemma {:induction false} IntsFront(w: bv32, ws: seq<bv32>)
    ensures Ints([w] + ws) == Crc.BigEndian(w) + Ints(ws)
  {
    hide Crc.BigEndian;
    if ws == [] {
      assert [w] + ws == [w] && [w][..0] == [];
    } else {
      var n := |ws| - 1;
      assert ([w] + ws)[..n + 1] == [w] + ws[..n];
      IntsFront(w, ws[..n]);
    }
  }

  lemma IntBack(w: bv32, rest: seq<bv8>)
    ensures ParseInt(Crc.BigEndian(w) + rest) == Some((w, rest))
  {
    JoinBytes(w);
    hide Crc.BigEndian, Join;
    assert (Crc.BigEndian(w) + rest)[..4] == Crc.BigEndian(w);
    assert (Crc.BigEndian(w) + rest)[4..] == rest;
  }

  lemma {:induction false} IntsBack(ws: seq<bv32>, rest: seq<bv8>)
    ensures ParseInts(Ints(ws) + rest, |ws|) == Some((ws, rest))
  {
    hide Crc.BigEndian, ParseInt;
    if ws == [] {
      assert Ints(ws) + rest == rest;
    } else {
      assert ws == [ws[0]] + ws[1..];
      IntsFront(ws[0], ws[1..]);
      assert Ints(ws) + rest == Crc.BigEndian(ws[0]) + (Ints(ws[1..]) + rest);
      IntBack(ws[0], Ints(ws[1..]) + rest);
      IntsBack(ws[1..], rest);
    }
  }

  /** The header of a bitmap tells how many words it has. */
  predicate Counted(m: Map) { |m.words| == WordCount(m.blocks, m.size) }

  lemma MapBack(m: Map, rest: seq<bv8>)
    requires Counted(m)
    ensures ParseMap(MapBytes(m) + rest) == Some((m, rest))
  {
    hide Ints, ParseInts, WordCount;
    var h := [m.blocks, m.freeBlocks, m.last, m.size];
    assert MapBytes(m) + rest == Ints(h) + (Ints(m.words) + rest);
    IntsBack(h, Ints(m.words) + rest);
    IntsBack(m.words, rest);
  }

  lemma {:induction false} MapsFront(m: Map, ms: seq<Map>)
    ensures MapsBytes([m] + ms) == MapBytes(m) + MapsBytes(ms)
  {
    hide MapBytes;
    if ms == [] {
      assert [m] + ms == [m] && [m][..0] == [];
    } else {
      var n := |ms| - 1;
      assert ([m] + ms)[..n + 1] == [m] + ms[..n];
      MapsFront(m, ms[..n]);
    }
  }

  lemma {:induction false} MapsBack(ms: seq<Map>, rest: seq<bv8>)
    requires forall i :: 0 <= i < |ms| ==> Counted(ms[i])
    ensures ParseMaps(MapsBytes(ms) + rest, |ms|) == Some((ms, rest))
  {
    hide MapBytes, ParseMap, Counted;
    if ms == [] {
      assert MapsBytes(ms) + rest == rest;
    } else {
      assert ms == [ms[0]] + ms[1..];
      MapsFront(ms[0], ms[1..]);
      assert MapsBytes(ms) + rest == MapBytes(ms[0]) + (MapsBytes(ms[1..]) + rest);
      MapBack(ms[0], MapsBytes(ms[1..]) + rest);
      MapsBack(ms[1..], rest);
    }
  }

  /** What can be written and read again: a known type, and the counts the header and the bitmaps give. */
  ghost predicate Consistent(z: Image) {
    && Value(z.header.kind) <= 2 && Signed(z.header.num) >= 0
    && |z.pointers| == |z.maps| == Value(z.header.num)
    && forall i :: 0 <= i < |z.maps| ==> Counted(z.maps[i])
  }

  lemma HeaderBack(h: Header)
    ensures |HeaderInts(h)| == HEADER_WORDS && HeaderOf(HeaderInts(h)) == h
  {
  }

  /** Reading a written zone gives it back; its padding comes back as what follows the bitmaps. */
  lemma ZoneBack(z: Image)
    requires Consistent(z)
    ensures ParseZone(ZoneBytes(z)) == Some(z.(extra := if |Tail(z)| > 0 then Some(Tail(z)) else None))
  {
    hide Ints, ParseInts, MapsBytes, ParseMaps, HeaderInts, HeaderOf, Tail, Value, Signed, Counted;
    HeaderBack(z.header);
    var rest := Ints(z.pointers) + (MapsBytes(z.maps) + Tail(z));
    assert ZoneBytes(z) == Ints(HeaderInts(z.header)) + rest;
    IntsBack(HeaderInts(z.header), rest);
    IntsBack(z.pointers, MapsBytes(z.maps) + Tail(z));
    MapsBack(z.maps, Tail(z));
  }

  /* ---------- the checksum ---------- */

  lemma {:induction false} IntsAt(ws: seq<bv32>, i: nat)
    requires i < |ws|
    ensures Ints(ws)[4 * i..4 * i + 4] == Crc.BigEndian(ws[i])
  {
    hide Crc.BigEndian;
    if i >= |ws| - 1 {
    } else {
      IntsAt(ws[..|ws| - 1], i);
      assert Ints(ws)[4 * i..4 * i + 4] == Ints(ws[..|ws| - 1])[4 * i..4 * i + 4];
    }
  }

  /** Words that differ in one place give bytes that differ in the four of that place. */
  lemma IntsElsewhere(ws: seq<bv32>, vs: seq<bv32>, i: nat, k: nat)
    requires |ws| == |vs| && i < |ws| && k < 4 * |ws| && !(4 * i <= k < 4 * i + 4)
    requires forall j :: 0 <= j < |ws| && j != i ==> ws[j] == vs[j]
    ensures Ints(ws)[k] == Ints(vs)[k]
  {
    hide Crc.BigEndian, Ints;
    var j := k / 4;
    IntsAt(ws, j);
    IntsAt(vs, j);
    assert Ints(ws)[k] == Ints(ws)[4 * j..4 * j + 4][k - 4 * j];
    assert Ints(vs)[k] == Ints(vs)[4 * j..4 * j + 4][k - 4 * j];
  }

  function Stamped(z: Image, checksum: bv32): Image { z.(header := z.header.(checksum := checksum)) }

  lemma StampedWords(h: Header, checksum: bv32)
    ensures |HeaderInts(h)| == |HeaderInts(h.(checksum := checksum))| == HEADER_WORDS
    ensures HeaderInts(h.(checksum := checksum))[24] == checksum
    ensures forall j :: 0 <= j < HEADER_WORDS && j != 24 ==> HeaderInts(h)[j] == HeaderInts(h.(checksum := checksum))[j]
  {
  }

  lemma HeaderElsewhere(h: Header, checksum: bv32, k: nat)
    requires k < 4 * HEADER_WORDS && !(CRC_OFFSET <= k < CRC_OFFSET + 4)
    ensures |Ints(HeaderInts(h))| == |Ints(HeaderInts(h.(checksum := checksum)))| == 4 * HEADER_WORDS
    ensures Ints(HeaderInts(h))[k] == Ints(HeaderInts(h.(checksum := checksum)))[k]
  {
    hide Ints, HeaderInts;
    StampedWords(h, checksum);
    IntsElsewhere(HeaderInts(h), HeaderInts(h.(checksum := checksum)), 24, k);
  }

  lemma HeaderStamp(h: Header, checksum: bv32)
    ensures var s := Ints(HeaderInts(h.(checksum := checksum)));
            |s| == |Ints(HeaderInts(h))| == 4 * HEADER_WORDS && s[CRC_OFFSET..CRC_OFFSET + 4] == Crc.BigEndian(checksum)
  {
    hide Ints, HeaderInts, Crc.BigEndian;
    StampedWords(h, checksum);
    IntsAt(HeaderInts(h.(checksum := checksum)), 24);
  }

  lemma PrefixAt(a: seq<bv8>, b: seq<bv8>, rest: seq<bv8>, k: nat)
    requires |a| == |b| && k < |a| + |rest| && (k < |a| ==> a[k] == b[k])
    ensures (a + rest)[k] == (b + rest)[k]
  {
  }

  /** The checksum only shows in its own four bytes. */
  lemma StampedBytes(z: Image, checksum: bv32)
    ensures var s, t := ZoneBytes(z), ZoneBytes(Stamped(z, checksum));
            && |s| == |t| && CRC_OFFSET + 4 <= |s|
            && t[CRC_OFFSET..CRC_OFFSET + 4] == Crc.BigEndian(checksum)
            && forall k :: 0 <= k < |s| && !(CRC_OFFSET <= k < CRC_OFFSET + 4) ==> s[k] == t[k]
  {
    hide Crc.BigEndian, Ints, MapsBytes, HeaderInts;
    var head, stamped := Ints(HeaderInts(z.header)), Ints(HeaderInts(z.header.(checksum := checksum)));
    HeaderStamp(z.header, checksum);
    var s, t := ZoneBytes(z), ZoneBytes(Stamped(z, checksum));
    var rest := Ints(z.pointers) + MapsBytes(z.maps) + Tail(z);
    assert s == head + rest && t == stamped + rest;
    assert t[CRC_OFFSET..CRC_OFFSET + 4] == stamped[CRC_OFFSET..CRC_OFFSET + 4];
    forall k | 0 <= k < |s| && !(CRC_OFFSET <= k < CRC_OFFSET + 4) ensures s[k] == t[k] {
      if k < 4 * HEADER_WORDS { HeaderElsewhere(z.header, checksum, k); }
      PrefixAt(head, stamped, rest, k);
    }
  }

  /** What the second pass writes has a valid checksum. */
  lemma WrittenChecks(z: Image)
    ensures var t := ZoneBytes(Stamped(z, Crc.FieldCrc(ZoneBytes(z), CRC_OFFSET)));
            CRC_OFFSET + 4 <= |t| && Crc.Checked(t, CRC_OFFSET)
  {
    hide Crc.BigEndian, Crc.FieldCrc, ZoneBytes;
    var crc := Crc.FieldCrc(ZoneBytes(z), CRC_OFFSET);
    StampedBytes(z, crc);
    Crc.StoredIgnored(ZoneBytes(z), ZoneBytes(Stamped(z, crc)), CRC_OFFSET);
  }

  /* ---------- where the fields lie ---------- */

  /** A word at a position, its highest byte first. */
  predicate WordAt(s: seq<bv8>, at: nat, w: bv32) {
    at + 4 <= |s| && s[at..at + 4] == Crc.BigEndian(w)
  }

  /** A long, its upper word first. */
  predicate LongAt(s: seq<bv8>, at: nat, l: Long) {
    WordAt(s, at, l.hi) && WordAt(s, at + 4, l.lo)
  }

  lemma HeaderWord(z: Image, i: nat)
    requires i < HEADER_WORDS
    ensures |HeaderInts(z.header)| == HEADER_WORDS && WordAt(ZoneBytes(z), 4 * i, HeaderInts(z.header)[i])
  {
    hide Crc.BigEndian, MapsBytes, Tail, Ints;
    var ws := HeaderInts(z.header);
    IntsAt(ws, i);
    var rest := Ints(z.pointers) + MapsBytes(z.maps) + Tail(z);
    assert ZoneBytes(z) == Ints(ws) + rest;
    PrefixSlice(Ints(ws), rest, 4 * i, 4 * i + 4);
  }

  lemma PrefixSlice(s: seq<bv8>, t: seq<bv8>, lo: nat, hi: nat)
    requires lo <= hi <= |s|
    ensures (s + t)[lo..hi] == s[lo..hi]
  {
  }

  lemma SuffixSlice(s: seq<bv8>, t: seq<bv8>, lo: nat, hi: nat)
    requires lo <= hi <= |t|
    ensures (s + t)[|s| + lo..|s| + hi] == t[lo..hi]
  {
  }

  /** The longs of a written zone: nine from its beginning on. */
  lemma LongOffsets(z: Image)
    ensures var s, h := ZoneBytes(z), z.header;
            && LongAt(s, 0, h.descriptorStart) && LongAt(s, 8, h.backupStart) && LongAt(s, 16, h.nextSector)
            && LongAt(s, 24, h.nextSbackup) && LongAt(s, 32, h.nextSize) && LongAt(s, 40, h.dataStart)
            && LongAt(s, 48, h.dataEnd) && LongAt(s, 56, h.dataSize) && LongAt(s, 64, h.freeData)
  {
    hide ZoneBytes, WordAt;
    HeaderWord(z, 0);
    HeaderWord(z, 1);
    HeaderWord(z, 2);
    HeaderWord(z, 3);
    HeaderWord(z, 4);
    HeaderWord(z, 5);
    HeaderWord(z, 6);
    HeaderWord(z, 7);
    HeaderWord(z, 8);
    HeaderWord(z, 9);
    HeaderWord(z, 10);
    HeaderWord(z, 11);
    HeaderWord(z, 12);
    HeaderWord(z, 13);
    HeaderWord(z, 14);
    HeaderWord(z, 15);
    HeaderWord(z, 16);
    HeaderWord(z, 17);
  }

  /** The words behind them. */
  lemma WordOffsets(z: Image)
    ensures var s, h := ZoneBytes(z), z.header;
            && WordAt(s, 72, h.nextLength) && WordAt(s, 76, h.descriptorSize) && WordAt(s, 80, h.min)
            && WordAt(s, 84, h.nextMin) && WordAt(s, 88, h.logStamp) && WordAt(s, 92, h.kind)
            && WordAt(s, 96, h.checksum) && WordAt(s, 100, h.zero) && WordAt(s, 104, h.num)
  {
    hide ZoneBytes, WordAt;
    HeaderWord(z, 18);
    HeaderWord(z, 19);
    HeaderWord(z, 20);
    HeaderWord(z, 21);
    HeaderWord(z, 22);
    HeaderWord(z, 23);
    HeaderWord(z, 24);
    HeaderWord(z, 25);
    HeaderWord(z, 26);
  }

  /** A bitmap: its bits, how many are set, the last one set, its words, and then these. */
  lemma MapOffsets(m: Map)
    ensures var s := MapBytes(m);
            && WordAt(s, 0, m.blocks) && WordAt(s, 4, m.freeBlocks) && WordAt(s, 8, m.last) && WordAt(s, 12, m.size)
            && forall i :: 0 <= i < |m.words| ==> WordAt(s, 16 + 4 * i, m.words[i])
  {
    hide Crc.BigEndian, Ints;
    var head := [m.blocks, m.freeBlocks, m.last, m.size];
    IntsAt(head, 0);
    IntsAt(head, 1);
    IntsAt(head, 2);
    IntsAt(head, 3);
    PrefixSlice(Ints(head), Ints(m.words), 0, 4);
    PrefixSlice(Ints(head), Ints(m.words), 4, 8);
    PrefixSlice(Ints(head), Ints(m.words), 8, 12);
    PrefixSlice(Ints(head), Ints(m.words), 12, 16);
    forall i | 0 <= i < |m.words| ensures WordAt(MapBytes(m), 16 + 4 * i, m.words[i]) {
      IntsAt(m.words, i);
      SuffixSlice(Ints(head), Ints(m.words), 4 * i, 4 * i + 4);
    }
  }
}
