/**
 * Byte media (media.c) and the deblocking layer on top of one (deblock_media.c): reads and writes of
 * blocks smaller or larger than the device's own, with whole device blocks read, changed and written
 * back, and with the bytes of each pair swapped where a medium asks for it. The device itself is its
 * bytes.
 */
module Media {
  import opened Arithmetic

  type Bytes = seq<bv8>

  /** s with the given bytes from position at on. */
  function Put(s: Bytes, at: nat, bytes: Bytes): (r: Bytes)
    requires at + |bytes| <= |s|
    ensures |r| == |s|
  {
    s[..at] + bytes + s[at + |bytes|..]
  }

  /** The other position of a pair. */
  function Other(i: nat): nat { if i % 2 == 0 then i + 1 else i - 1 }

  /** The bytes of each pair in the other order. */
  function Swapped(s: Bytes): (r: Bytes)
    requires |s| % 2 == 0
    ensures |r| == |s|
  {
    seq(|s|, i requires 0 <= i < |s| => s[Other(i)])
  }

  /** The end of the last block of n bytes that the first e bytes reach. */
  function CoverEnd(e: int, n: int): int
    requires n > 0
  {
    (e + n - 1) / n * n
  }

  /** Whether a transfer is one of whole blocks inside the medium. */
  ghost predicate Fits(offset: int, count: nat, grain: nat, size: nat)
    requires grain > 0
  {
    count > 0 && count % grain == 0 && offset >= 0 && offset % grain == 0 && offset + count <= size
  }

  /** t is s but for at most the given range. */
  ghost predicate SameOutside(s: Bytes, t: Bytes, at: nat, count: nat) {
    |s| == |t| && forall i :: 0 <= i < |s| && !(at <= i < at + count) ==> t[i] == s[i]
  }

  /* ---------- bytes ---------- */

  lemma PutAt(s: Bytes, at: nat, bytes: Bytes, i: nat)
    requires at + |bytes| <= |s| && i < |s|
    ensures Put(s, at, bytes)[i] == if at <= i < at + |bytes| then bytes[i - at] else s[i]
  {
  }

  /** What is the bytes inside a range and s outside it is s with the bytes put there. */
  lemma IsPut(t: Bytes, s: Bytes, at: nat, bytes: Bytes)
    requires at + |bytes| <= |s| == |t|
    requires forall i :: 0 <= i < |s| ==> t[i] == if at <= i < at + |bytes| then bytes[i - at] else s[i]
    ensures t == Put(s, at, bytes)
  {
    hide Put;
    forall i | 0 <= i < |s| ensures t[i] == Put(s, at, bytes)[i] { PutAt(s, at, bytes, i); }
  }

  lemma SwappedAt(s: Bytes, i: nat)
    requires |s| % 2 == 0 && i < |s|
    ensures Swapped(s)[i] == s[Other(i)]
  {
  }

  /** The two bytes of a pair change places. */
  lemma SwappedPair(s: Bytes, k: nat)
    requires |s| % 2 == 0 && 2 * k < |s|
    ensures 2 * k + 1 < |s| && Swapped(s)[2 * k] == s[2 * k + 1] && Swapped(s)[2 * k + 1] == s[2 * k]
  {
  }

  lemma SwappedTwice(s: Bytes)
    requires |s| % 2 == 0
    ensures Swapped(Swapped(s)) == s
  {
    hide Swapped;
    forall i | 0 <= i < |s| ensures Swapped(Swapped(s))[i] == s[i] {
      SwappedAt(Swapped(s), i);
      SwappedAt(s, Other(i));
    }
  }

  lemma SwappedSlice(s: Bytes, lo: nat, hi: nat)
    requires |s| % 2 == 0 && lo % 2 == 0 && hi % 2 == 0 && lo <= hi <= |s|
    ensures Swapped(s[lo..hi]) == Swapped(s)[lo..hi]
  {
    hide Swapped;
    forall i | 0 <= i < hi - lo ensures Swapped(s[lo..hi])[i] == Swapped(s)[lo..hi][i] {
      SwappedAt(s[lo..hi], i);
      SwappedAt(s, lo + i);
    }
  }

  lemma SwappedPut(s: Bytes, at: nat, bytes: Bytes)
    requires |s| % 2 == 0 && at % 2 == 0 && |bytes| % 2 == 0 && at + |bytes| <= |s|
    ensures Swapped(Put(s, at, bytes)) == Put(Swapped(s), at, Swapped(bytes))
  {
    hide Swapped, Put;
    var t := Put(s, at, bytes);
    forall i | 0 <= i < |s| ensures Swapped(t)[i] == if at <= i < at + |bytes| then Swapped(bytes)[i - at] else Swapped(s)[i] {
      SwappedAt(t, i);
      PutAt(s, at, bytes, Other(i));
      SwappedAt(s, i);
      if at <= i < at + |bytes| { SwappedAt(bytes, i - at); }
    }
    IsPut(Swapped(t), Swapped(s), at, Swapped(bytes));
  }

  /** Two puts side by side are one. */
  lemma PutMore(s: Bytes, at: nat, x: Bytes, y: Bytes)
    requires at + |x| + |y| <= |s|
    ensures Put(Put(s, at, x), at + |x|, y) == Put(s, at, x + y)
  {
  }

  lemma PutNone(s: Bytes, at: nat)
    requires at <= |s|
    ensures Put(s, at, []) == s
  {
  }

  lemma PutSlice(s: Bytes, at: nat, bytes: Bytes)
    requires at + |bytes| <= |s|
    ensures Put(s, at, bytes)[at..at + |bytes|] == bytes
  {
  }

  /** Putting into a slice and the slice back is putting into the whole. */
  lemma PutBlock(s: Bytes, b: nat, n: nat, at: nat, x: Bytes)
    requires b + n <= |s| && at + |x| <= n
    ensures |Put(s[b..b + n], at, x)| == n
    ensures Put(s, b, Put(s[b..b + n], at, x)) == Put(s, b + at, x)
  {
  }

  lemma SliceOfSlice(s: Bytes, b: nat, n: nat, at: nat, k: nat)
    requires b + n <= |s| && at + k <= n
    ensures s[b..b + n][at..at + k] == s[b + at..b + at + k]
  {
    var x, y := s[b..b + n][at..at + k], s[b + at..b + at + k];
    assert |x| == |y| && forall j :: 0 <= j < k ==> x[j] == y[j];
  }

  lemma SlicesJoin(s: Bytes, a: nat, b: nat, c: nat)
    requires a <= b <= c <= |s|
    ensures s[a..b] + s[b..c] == s[a..c]
  {
  }

  /* ---------- blocks ---------- */

  lemma CoverAligned(q: nat, rest: nat, n: nat)
    requires 0 < rest <= n
    ensures CoverEnd(q * n + rest, n) == q * n + n
  {
    Place(q * n + rest + n - 1, q + 1, rest - 1, n);
    assert (q + 1) * n == q * n + n;
  }

  /** Whatever starts in a block, the cover reaches that block's end. */
  lemma CoverReaches(q: nat, e: nat, n: nat)
    requires n > 0 && e > q * n
    ensures CoverEnd(e, n) >= q * n + n
  {
    assert (q + 1) * n == q * n + n;
    Multiple(q + 1, n);
    DivideMonotone((q + 1) * n, e + n - 1, n);
    Times(q + 1, (e + n - 1) / n, n);
  }

  lemma CoverAbove(e: nat, n: nat)
    requires n > 0
    ensures CoverEnd(e, n) >= e && (e % n == 0 ==> CoverEnd(e, n) == e)
  {
    if e % n == 0 {
      Exact(e, n);
      Place(e + n - 1, e / n, n - 1, n);
    }
  }

  /** A multiple of a multiple, and its remainder. */
  lemma MultipleOfMultiple(x: nat, n: nat, g: nat)
    requires g > 0 && n > 0 && x % n == 0 && n % g == 0
    ensures x % g == 0
  {
    Exact(x, n);
    Exact(n, g);
    assert x / n * (n / g * g) == x / n * (n / g) * g;
    Multiple(x / n * (n / g), g);
  }

  lemma SumOfMultiples(x: int, y: int, g: nat)
    requires g > 0 && x % g == 0 && y % g == 0
    ensures (x + y) % g == 0 && (x - y) % g == 0
  {
    Exact(x, g);
    Exact(y, g);
    assert x + y == (x / g + y / g) * g && x - y == (x / g - y / g) * g;
    Multiple(x / g + y / g, g);
    Multiple(x / g - y / g, g);
  }

  lemma RemainderOfMultiple(x: nat, n: nat, g: nat)
    requires g > 0 && n > 0 && x % g == 0 && n % g == 0
    ensures x % n % g == 0
  {
    var y := x / n * n;
    Multiple(x / n, n);
    MultipleOfMultiple(y, n, g);
    SumOfMultiples(x, y, g);
    assert x % n == x - y;
  }

  /* ---------- a medium ---------- */

  /** memcpy between buffers. */
  method Copy(to: array<bv8>, at: nat, from: array<bv8>, start: nat, count: nat)
    requires to != from && at + count <= to.Length && start + count <= from.Length
    modifies to
    ensures to[..] == Put(old(to[..]), at, from[start..start + count])
  {
    ghost var was := to[..];
    var i := 0;
    while i < count
      invariant 0 <= i <= count
      invariant forall j :: 0 <= j < to.Length ==> to[j] == if at <= j < at + i then from[start + (j - at)] else was[j]
    {
      to[at + i] := from[start + i];
      i := i + 1;
    }
    hide Put;
    IsPut(to[..], was, at, from[start..start + count]);
  }

  lemma IsSwapped(t: Bytes, s: Bytes, at: nat, count: nat)
    requires at + count <= |s| == |t| && count % 2 == 0
    requires forall i :: 0 <= i < |s| && !(at <= i < at + count) ==> t[i] == s[i]
    requires forall i :: 0 <= i < count ==> t[at + i] == s[at + Other(i)]
    ensures t == Put(s, at, Swapped(s[at..at + count]))
  {
    hide Put, Swapped;
    var pairs := s[at..at + count];
    forall i | 0 <= i < |s| ensures t[i] == if at <= i < at + count then Swapped(pairs)[i - at] else s[i] {
      if at <= i < at + count {
        SwappedAt(pairs, i - at);
        assert t[at + (i - at)] == s[at + Other(i - at)];
      }
    }
    IsPut(t, s, at, Swapped(pairs));
  }

  /** Swaps the bytes of each pair in place. */
  method SwapBytes(buf: array<bv8>, at: nat, count: nat)
    requires at + count <= buf.Length && count % 2 == 0
    modifies buf
    ensures buf[..] == Put(old(buf[..]), at, Swapped(old(buf[at..at + count])))
  {
    ghost var was := buf[..];
    var c := 0;
    while c < count
      invariant 0 <= c <= count && c % 2 == 0
      invariant forall i :: 0 <= i < buf.Length && !(at <= i < at + c) ==> buf[i] == was[i]
      invariant forall i :: 0 <= i < c ==> buf[at + i] == was[at + Other(i)]
    {
      var tmp := buf[at + c];
      buf[at + c] := buf[at + c + 1];
      buf[at + c + 1] := tmp;
      c := c + 2;
    }
    IsSwapped(buf[..], was, at, count);
  }

  /** A medium of whole blocks with its bytes in memory. */
  class Device {
    var data: Bytes
    var bswap: bool
    const grain: nat

    constructor (data: Bytes, grain: nat, bswap: bool)
      ensures this.data == data && this.grain == grain && this.bswap == bswap
    {
      this.data := data;
      this.grain := grain;
      this.bswap := bswap;
    }

    ghost predicate Valid()
      reads this
    {
      grain > 0 && (bswap ==> grain % 2 == 0 && |data| % 2 == 0)
    }

    /** The bytes as its users see them. */
    ghost function Flat(): (r: Bytes)
      requires Valid()
      reads this
      ensures |r| == |data|
    {
      if bswap then Swapped(data) else data
    }

    /** The device's own read, of whole blocks inside it. */
    method DoRead(offset: int, count: nat, to: array<bv8>, at: nat) returns (ok: bool)
      requires grain > 0 && at + count <= to.Length
      modifies to
      ensures ok == Fits(offset, count, grain, |data|)
      ensures to[..] == if ok then Put(old(to[..]), at, data[offset..offset + count]) else old(to[..])
    {
      if count <= 0 || count % grain != 0 || offset < 0 || offset % grain != 0 || offset + count > |data| {
        return false;
      }
      ok := true;
      ghost var was := to[..];
      var i := 0;
      while i < count
        invariant 0 <= i <= count
        invariant forall j :: 0 <= j < to.Length ==> to[j] == if at <= j < at + i then data[offset + (j - at)] else was[j]
      {
        to[at + i] := data[offset + i];
        i := i + 1;
      }
      hide Put;
      IsPut(to[..], was, at, data[offset..offset + count]);
    }

    method DoWrite(offset: int, count: nat, from: array<bv8>, at: nat) returns (ok: bool)
      requires grain > 0 && at + count <= from.Length
      modifies this`data
      ensures ok == Fits(offset, count, grain, |old(data)|)
      ensures data == if ok then Put(old(data), offset, from[at..at + count]) else old(data)
    {
      if count <= 0 || count % grain != 0 || offset < 0 || offset % grain != 0 || offset + count > |data| {
        return false;
      }
      ok := true;
      data := data[..offset] + from[at..at + count] + data[offset + count..];
    }

    /** Reads: on success the range of the flat bytes and nothing else of the buffer. */
    method Read(offset: int, count: nat, to: array<bv8>, at: nat) returns (ok: bool)
      requires Valid() && at + count <= to.Length && (bswap ==> count % 2 == 0)
      modifies to
      ensures ok == Fits(offset, count, grain, |data|)
      ensures ok ==> to[..] == Put(old(to[..]), at, Flat()[offset..offset + count])
      ensures SameOutside(old(to[..]), to[..], at, count)
    {
      hide Put, Swapped, Fits, SameOutside;
      ghost var was := to[..];
      ok := DoRead(offset, count, to, at);
      if bswap {
        SwapBytes(to, at, count);
        if ok {
          EvenOffset(offset, count, grain, |data|);
          SwappedSlice(data, offset, offset + count);
          SwapRead(was, at, data[offset..offset + count]);
          PutOutside(was, at, Swapped(data[offset..offset + count]));
        } else {
          PutOutside(was, at, Swapped(was[at..at + count]));
        }
      } else if ok {
        FitsInside(offset, count, grain, |data|);
        PutOutside(was, at, data[offset..offset + count]);
      } else {
        OutsideItself(was, at, count);
      }
    }

    /** Writes: the range of the flat bytes and nothing else, and the caller's buffer as it was. */
    method Write(offset: int, count: nat, from: array<bv8>, at: nat) returns (ok: bool)
      requires Valid() && at + count <= from.Length && (bswap ==> count % 2 == 0)
      modifies this`data, from
      ensures Valid() && |data| == |old(data)| && from[..] == old(from[..])
      ensures ok == Fits(offset, count, grain, |data|)
      ensures Flat() == if ok then Put(old(Flat()), offset, old(from[at..at + count])) else old(Flat())
    {
      hide Put, Swapped, Fits;
      ghost var was, bytes := from[..], from[at..at + count];
      if bswap { SwapBytes(from, at, count); }
      ghost var sent := from[at..at + count];
      ok := DoWrite(offset, count, from, at);
      if bswap {
        PutSlice(was, at, Swapped(bytes));
        SwapBytes(from, at, count);
        SwappedTwice(bytes);
        PutAgain(was, at, Swapped(bytes), bytes);
        PutOwn(was, at, count);
        if ok { EvenOffset(offset, count, grain, |data|); SwappedPut(old(data), offset, sent); }
      }
    }
  }

  lemma FitsInside(offset: int, count: nat, grain: nat, size: nat)
    requires grain > 0 && Fits(offset, count, grain, size)
    ensures 0 <= offset <= offset + count <= size
  {
  }

  /** Swapping what has just been read in place. */
  lemma SwapRead(s: Bytes, at: nat, x: Bytes)
    requires at + |x| <= |s| && |x| % 2 == 0
    ensures Put(s, at, x)[at..at + |x|] == x
    ensures Put(Put(s, at, x), at, Swapped(x)) == Put(s, at, Swapped(x))
  {
    hide Put, Swapped;
    PutSlice(s, at, x);
    PutAgain(s, at, x, Swapped(x));
  }

  lemma EvenOffset(offset: int, count: nat, grain: nat, size: nat)
    requires grain > 0 && grain % 2 == 0 && Fits(offset, count, grain, size)
    ensures 0 <= offset <= offset + count <= size && offset % 2 == 0
  {
    MultipleOfMultiple(offset, grain, 2);
  }

  lemma PutAgain(s: Bytes, at: nat, x: Bytes, y: Bytes)
    requires at + |x| <= |s| && |x| == |y|
    ensures Put(Put(s, at, x), at, y) == Put(s, at, y)
  {
  }

  lemma PutOutside(s: Bytes, at: nat, x: Bytes)
    requires at + |x| <= |s|
    ensures SameOutside(s, Put(s, at, x), at, |x|)
  {
    hide Put;
    forall i | 0 <= i < |s| && !(at <= i < at + |x|) ensures Put(s, at, x)[i] == s[i] { PutAt(s, at, x, i); }
  }

  lemma OutsideItself(s: Bytes, at: nat, count: nat)
    ensures SameOutside(s, s, at, count) && SameOutside(s, s, at, 0)
  {
  }

  /** Two changes inside a range. */
  lemma OutsideTwice(s: Bytes, t: Bytes, u: Bytes, at: nat, count: nat, in1: nat, len1: nat, in2: nat, len2: nat)
    requires SameOutside(s, t, in1, len1) && SameOutside(t, u, in2, len2)
    requires at <= in1 && in1 + len1 <= at + count && at <= in2 && in2 + len2 <= at + count
    ensures SameOutside(s, u, at, count)
  {
  }

  lemma PutOwn(s: Bytes, at: nat, count: nat)
    requires at + count <= |s|
    ensures Put(s, at, s[at..at + count]) == s
  {
  }
}
