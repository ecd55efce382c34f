/** Writing a zone to a stream and reading it from one, step by step. */
module ZoneStreams {
  import opened Wrappers
  import opened ByteOrder
  import opened ZoneFormat
  import Crc

  class Output {
    var data: seq<bv8>

    constructor ()
      ensures data == []
    {
      data := [];
    }

    method WriteInt(w: bv32)
      modifies this
      ensures data == old(data) + Crc.BigEndian(w)
    {
      data := data + Crc.BigEndian(w);
    }

    method WriteLong(l: Long)
      modifies this
      ensures data == old(data) + Ints([l.hi, l.lo])
    {
      TwoInts(l.hi, l.lo);
      hide Crc.BigEndian, Ints;
      data := data + Crc.BigEndian(l.hi) + Crc.BigEndian(l.lo);
      assert data == old(data) + (Crc.BigEndian(l.hi) + Crc.BigEndian(l.lo));
    }

    method WriteByte(b: bv8)
      modifies this
      ensures data == old(data) + [b]
    {
      data := data + [b];
    }
  }

  lemma TwoInts(a: bv32, b: bv32)
    ensures Ints([a, b]) == Crc.BigEndian(a) + Crc.BigEndian(b)
  {
    hide Crc.BigEndian;
    assert [a, b][..1] == [a] && [a][..0] == [];
  }

  lemma IntsMore(ws: seq<bv32>, w: bv32)
    ensures Ints(ws + [w]) == Ints(ws) + Crc.BigEndian(w)
  {
    hide Crc.BigEndian;
    assert (ws + [w])[..|ws|] == ws;
  }

  lemma {:induction false} IntsJoin(ws: seq<bv32>, vs: seq<bv32>)
    ensures Ints(ws + vs) == Ints(ws) + Ints(vs)
  {
    hide Crc.BigEndian;
    if vs == [] {
      assert ws + vs == ws;
    } else {
      assert (ws + vs)[..|ws + vs| - 1] == ws + vs[..|vs| - 1];
      IntsJoin(ws, vs[..|vs| - 1]);
    }
  }

  /** Some words one after the other. */
  method WriteInts(out: Output, ws: seq<bv32>)
    modifies out
    ensures out.data == old(out.data) + Ints(ws)
  {
    hide Ints;
    NoInts();
    assert ws[..0] == [];
    var i := 0;
    while i < |ws|
      invariant 0 <= i <= |ws| && out.data == old(out.data) + Ints(ws[..i])
    {
      assert ws[..i + 1] == ws[..i] + [ws[i]];
      IntsMore(ws[..i], ws[i]);
      out.WriteInt(ws[i]);
      i := i + 1;
    }
    assert ws[..i] == ws;
  }

  lemma NoInts()
    ensures Ints([]) == []
  {
  }

  method WriteMap(out: Output, m: Map)
    modifies out
    ensures out.data == old(out.data) + MapBytes(m)
  {
    hide Ints;
    WriteInts(out, [m.blocks, m.freeBlocks, m.last, m.size]);
    WriteInts(out, m.words);
  }

  method WriteLongs(out: Output, a: Long, b: Long, c: Long)
    modifies out
    ensures out.data == old(out.data) + Ints(LongWords(a, b, c))
  {
    hide Ints;
    IntsJoin([a.hi, a.lo], [b.hi, b.lo]);
    IntsJoin([a.hi, a.lo] + [b.hi, b.lo], [c.hi, c.lo]);
    assert LongWords(a, b, c) == [a.hi, a.lo] + [b.hi, b.lo] + [c.hi, c.lo];
    out.WriteLong(a);
    out.WriteLong(b);
    out.WriteLong(c);
    assert out.data == old(out.data) + (Ints([a.hi, a.lo]) + Ints([b.hi, b.lo]) + Ints([c.hi, c.lo]));
  }

  /** The header's longs and then its ints. */
  method WriteHeader(out: Output, h: Header)
    modifies out
    ensures out.data == old(out.data) + Ints(HeaderInts(h))
  {
    hide Ints, LongWords, HeaderInts;
    WriteLongs(out, h.descriptorStart, h.backupStart, h.nextSector);
    WriteLongs(out, h.nextSbackup, h.nextSize, h.dataStart);
    WriteLongs(out, h.dataEnd, h.dataSize, h.freeData);
    var ints := [h.nextLength, h.descriptorSize, h.min, h.nextMin, h.logStamp, h.kind, h.checksum, h.zero, h.num];
    WriteInts(out, ints);
    ghost var x, y, z := LongWords(h.descriptorStart, h.backupStart, h.nextSector),
      LongWords(h.nextSbackup, h.nextSize, h.dataStart), LongWords(h.dataEnd, h.dataSize, h.freeData);
    HeaderLayout(h);
    IntsJoin(x, y);
    IntsJoin(x + y, z);
    IntsJoin(x + y + z, ints);
    assert out.data == old(out.data) + (Ints(x) + Ints(y) + Ints(z) + Ints(ints));
  }

  lemma HeaderLayout(h: Header)
    ensures HeaderInts(h)
         == LongWords(h.descriptorStart, h.backupStart, h.nextSector) + LongWords(h.nextSbackup, h.nextSize, h.dataStart)
            + LongWords(h.dataEnd, h.dataSize, h.freeData)
            + [h.nextLength, h.descriptorSize, h.min, h.nextMin, h.logStamp, h.kind, h.checksum, h.zero, h.num]
  {
    hide LongWords;
  }

  lemma MapsMore(ms: seq<Map>, m: Map)
    ensures MapsBytes(ms + [m]) == MapsBytes(ms) + MapBytes(m)
  {
    hide MapBytes;
    assert (ms + [m])[..|ms|] == ms;
  }

  lemma MapLength(m: Map)
    requires Counted(m)
    ensures |MapBytes(m)| == 16 + 4 * WordCount(m.blocks, m.size)
  {
  }

  /** The zone and what pads it to its blocks; total counts the bytes as it goes. */
  method WriteZone(out: Output, z: Image)
    requires Consistent(z)
    modifies out
    ensures out.data == old(out.data) + ZoneBytes(z)
  {
    hide Ints, MapsBytes, MapBytes, HeaderInts, Counted, Value, Signed, WordCount;
    ghost var start := out.data;
    WriteHeader(out, z.header);
    WriteInts(out, z.pointers);
    var total := 4 * HEADER_WORDS + 4 * |z.pointers|;
    ghost var head := out.data;
    NoMaps();
    assert z.maps[..0] == [];
    var i := 0;
    while i < |z.maps|
      invariant 0 <= i <= |z.maps| && out.data == head + MapsBytes(z.maps[..i])
      invariant total == 4 * HEADER_WORDS + 4 * |z.pointers| + |MapsBytes(z.maps[..i])|
    {
      assert z.maps[..i + 1] == z.maps[..i] + [z.maps[i]];
      MapsMore(z.maps[..i], z.maps[i]);
      MapLength(z.maps[i]);
      WriteMap(out, z.maps[i]);
      total := total + 16 + 4 * WordCount(z.maps[i].blocks, z.maps[i].size);
      i := i + 1;
    }
    assert z.maps[..i] == z.maps;
    HeaderBack(z.header);
    assert out.data == start + Body(z);
    WriteTail(out, z, total);
    assert out.data == start + ZoneBytes(z);
  }

  lemma NoMaps()
    ensures MapsBytes([]) == []
  {
  }

  method WriteTail(out: Output, z: Image, total: nat)
    requires total == |Body(z)|
    modifies out
    ensures out.data == old(out.data) + Tail(z)
  {
    hide Body, Value;
    ghost var start := out.data;
    if z.extra.Some? {
      out.data := out.data + z.extra.value;
    } else {
      var left := 512 * Value(z.header.descriptorSize) - total;
      ghost var pad: seq<bv8> := seq(if left > 0 then left else 0, _ => PAD);
      assert pad == Tail(z);
      var k := 0;
      while k < left
        invariant 0 <= k <= |pad| && out.data == start + pad[..k]
      {
        assert pad[..k + 1] == pad[..k] + [PAD];
        out.WriteByte(PAD);
        k := k + 1;
      }
      assert pad[..k] == pad;
    }
  }

  /** Writes twice: the first pass gives the checksum that the second one stores. */
  method WriteChecked(z: Image) returns (bytes: seq<bv8>, stored: Image)
    requires Consistent(z)
    requires |ZoneBytes(z)| <= Crc.INT_MAX
    ensures bytes == ZoneBytes(stored) && stored == Stamped(z, Crc.FieldCrc(ZoneBytes(z), CRC_OFFSET))
    ensures CRC_OFFSET + 4 <= |bytes| && Crc.Checked(bytes, CRC_OFFSET)
  {
    hide ZoneBytes, Crc.FieldCrc, Crc.BigEndian, Consistent;
    var out := new Output();
    WriteZone(out, z);
    assert out.data == ZoneBytes(z);
    StampedBytes(z, 0);
    var crc := Crc.CalculateCrc(out.data, CRC_OFFSET);
    stored := Stamped(z, crc);
    StampedConsistent(z, crc);
    out := new Output();
    WriteZone(out, stored);
    WrittenChecks(z);
    bytes := out.data;
  }

  lemma StampedConsistent(z: Image, crc: bv32)
    ensures Consistent(Stamped(z, crc)) == Consistent(z)
  {
  }

  /* ---------- reading ---------- */

  class Input {
    const data: seq<bv8>
    var pos: nat

    constructor (data: seq<bv8>)
      ensures this.data == data && pos == 0
    {
      this.data := data;
      pos := 0;
    }

    ghost predicate Valid()
      reads this
    {
      pos <= |data|
    }

    /** The bytes not read yet. */
    ghost function Rest(): seq<bv8>
      requires Valid()
      reads this
    {
      data[pos..]
    }

    /** The next four bytes as a word, and nothing at the end of the data. */
    method ReadInt() returns (w: Option<bv32>)
      requires Valid()
      modifies this`pos
      ensures Valid() && (w.None? <==> ParseInt(old(Rest())).None?)
      ensures w.Some? ==> ParseInt(old(Rest())) == Some((w.value, Rest()))
    {
      if pos + 4 > |data| { return None; }
      w := Some(Join(data[pos..pos + 4]));
      assert data[pos..][..4] == data[pos..pos + 4] && data[pos..][4..] == data[pos + 4..];
      pos := pos + 4;
    }
  }

  /** Reading k words and then the others is reading them all. */
  lemma {:induction false} ParseOneMore(s: seq<bv8>, k: nat, ws: seq<bv32>, rest: seq<bv8>)
    requires ParseInts(s, k) == Some((ws, rest))
    ensures |ws| == k
    ensures ParseInt(rest).None? ==> forall n: nat :: n > k ==> ParseInts(s, n) == None
    ensures ParseInt(rest).Some? ==>
              ParseInts(s, k + 1) == Some((ws + [ParseInt(rest).value.0], ParseInt(rest).value.1))
    decreases k
  {
    hide ParseInt;
    if k == 0 {
      var one := ParseInt(s);
      if one.Some? {
        assert ParseInts(one.value.1, 0) == Some(([], one.value.1));
        assert ws + [one.value.0] == [one.value.0] + [];
      }
    } else {
      var one := ParseInt(s).value;
      var more := ParseInts(one.1, k - 1).value;
      ParseOneMore(one.1, k - 1, more.0, rest);
      assert ParseInt(rest).None? || ws + [ParseInt(rest).value.0] == [one.0] + (more.0 + [ParseInt(rest).value.0]);
      if ParseInt(rest).None? {
        forall n: nat | n > k ensures ParseInts(s, n) == None {
          assert ParseInts(one.1, n - 1) == None;
        }
      }
    }
  }

  method ReadInts(in_: Input, n: nat) returns (ws: Option<seq<bv32>>)
    requires in_.Valid()
    modifies in_`pos
    ensures in_.Valid() && (ws.None? <==> ParseInts(old(in_.Rest()), n).None?)
    ensures ws.Some? ==> |ws.value| == n && ParseInts(old(in_.Rest()), n) == Some((ws.value, in_.Rest()))
  {
    hide ParseInt, ParseInts;
    ghost var s := in_.Rest();
    var read: seq<bv32> := [];
    ParseNone(s);
    while |read| < n
      invariant |read| <= n && in_.Valid()
      invariant ParseInts(s, |read|) == Some((read, in_.Rest()))
    {
      ParseOneMore(s, |read|, read, in_.Rest());
      var w := in_.ReadInt();
      if w.None? { return None; }
      read := read + [w.value];
    }
    return Some(read);
  }

  lemma ParseNone(s: seq<bv8>)
    ensures ParseInts(s, 0) == Some(([], s)) && ParseMaps(s, 0) == Some(([], s))
  {
  }

  /** The header of a bitmap first, and then the words it gives. */
  method ReadMap(in_: Input) returns (m: Option<Map>)
    requires in_.Valid()
    modifies in_`pos
    ensures in_.Valid() && (m.None? <==> ParseMap(old(in_.Rest())).None?)
    ensures m.Some? ==> ParseMap(old(in_.Rest())) == Some((m.value, in_.Rest()))
  {
    hide ParseInts, WordCount;
    var h := ReadInts(in_, 4);
    if h.None? { return None; }
    var n := WordCount(h.value[0], h.value[3]);
    if n < 0 { return None; }
    var words := ReadInts(in_, n);
    if words.None? { return None; }
    return Some(Map(h.value[0], h.value[1], h.value[2], h.value[3], words.value));
  }

  lemma {:induction false} ParseMapMore(s: seq<bv8>, k: nat, ms: seq<Map>, rest: seq<bv8>)
    requires ParseMaps(s, k) == Some((ms, rest))
    ensures |ms| == k
    ensures ParseMap(rest).None? ==> forall n: nat :: n > k ==> ParseMaps(s, n) == None
    ensures ParseMap(rest).Some? ==>
              ParseMaps(s, k + 1) == Some((ms + [ParseMap(rest).value.0], ParseMap(rest).value.1))
    decreases k
  {
    hide ParseMap;
    if k == 0 {
      var one := ParseMap(s);
      if one.Some? {
        assert ParseMaps(one.value.1, 0) == Some(([], one.value.1));
        assert ms + [one.value.0] == [one.value.0] + [];
      }
    } else {
      var one := ParseMap(s).value;
      var more := ParseMaps(one.1, k - 1).value;
      ParseMapMore(one.1, k - 1, more.0, rest);
      assert ParseMap(rest).None? || ms + [ParseMap(rest).value.0] == [one.0] + (more.0 + [ParseMap(rest).value.0]);
      if ParseMap(rest).None? {
        forall n: nat | n > k ensures ParseMaps(s, n) == None {
          assert ParseMaps(one.1, n - 1) == None;
        }
      }
    }
  }

  method ReadMaps(in_: Input, n: nat) returns (ms: Option<seq<Map>>)
    requires in_.Valid()
    modifies in_`pos
    ensures in_.Valid() && (ms.None? <==> ParseMaps(old(in_.Rest()), n).None?)
    ensures ms.Some? ==> ParseMaps(old(in_.Rest()), n) == Some((ms.value, in_.Rest()))
  {
    hide ParseMap, ParseMaps;
    ghost var s := in_.Rest();
    var read: seq<Map> := [];
    ParseNone(s);
    while |read| < n
      invariant |read| <= n && in_.Valid()
      invariant ParseMaps(s, |read|) == Some((read, in_.Rest()))
    {
      ParseMapMore(s, |read|, read, in_.Rest());
      var m := ReadMap(in_);
      if m.None? { return None; }
      read := read + [m.value];
    }
    return Some(read);
  }

  /** Reads a zone from all the bytes of its blocks, and tells whether the stored checksum is theirs. */
  method ReadZone(bytes: seq<bv8>) returns (z: Option<Image>, validCrc: bool)
    requires CRC_OFFSET + 4 <= |bytes| <= Crc.INT_MAX
    ensures z == ParseZone(bytes)
    ensures validCrc <==> z.Some? && z.value.header.checksum == Crc.FieldCrc(bytes, CRC_OFFSET)
  {
    hide ParseInts, ParseMaps, HeaderOf, Value, Signed, Crc.FieldCrc, Crc.BigEndian;
    validCrc := false;
    var in_ := new Input(bytes);
    assert in_.Rest() == bytes;
    var w := ReadInts(in_, HEADER_WORDS);
    if w.None? { return None, false; }
    var h := HeaderOf(w.value);
    if Value(h.kind) > 2 || Signed(h.num) < 0 { return None, false; }
    var pointers := ReadInts(in_, Value(h.num));
    if pointers.None? { return None, false; }
    var maps := ReadMaps(in_, Value(h.num));
    if maps.None? { return None, false; }
    var rest := bytes[in_.pos..];
    z := Some(Image(h, pointers.value, maps.value, if |rest| > 0 then Some(rest) else None));
    var crc := Crc.CalculateCrc(bytes, CRC_OFFSET);
    validCrc := crc == h.checksum;
  }

  /**
   * A zone that is written reads back with the same fields, pointers and bitmaps and a valid checksum;
   * only the checksum itself and the padding, which is kept, are new.
   */
  lemma WriteThenRead(z: Image)
    requires Consistent(z)
    ensures var stored := Stamped(z, Crc.FieldCrc(ZoneBytes(z), CRC_OFFSET));
            var bytes := ZoneBytes(stored);
            && ParseZone(bytes) == Some(stored.(extra := if |Tail(stored)| > 0 then Some(Tail(stored)) else None))
            && stored.header.checksum == Crc.FieldCrc(bytes, CRC_OFFSET)
  {
    hide ZoneBytes, ParseZone, Crc.FieldCrc, Consistent, Tail;
    var crc := Crc.FieldCrc(ZoneBytes(z), CRC_OFFSET);
    StampedConsistent(z, crc);
    ZoneBack(Stamped(z, crc));
    StampedBytes(z, crc);
    Crc.StoredIgnored(ZoneBytes(z), ZoneBytes(Stamped(z, crc)), CRC_OFFSET);
  }
}
