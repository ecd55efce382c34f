/**
 * The deblocking layer (deblock_media.c): a medium with blocks of another size than those of the
 * medium under it. When its blocks are smaller, a transfer is a part of a first device block, whole
 * device blocks, and a part of a last one, the parts through a buffer of one device block.
 */
module Deblock {
  import opened Arithmetic
  import opened Media

  /** Whether a transfer is one of whole small blocks, and the device blocks it touches are there. */
  ghost predicate Covered(offset: int, count: nat, grain: nat, n: nat, size: nat)
    requires grain > 0 && n > 0
  {
    count > 0 && count % grain == 0 && offset >= 0 && offset % grain == 0 && CoverEnd(offset + count, n) <= size
  }

  /* ---------- the three parts of a transfer ---------- */

  lemma Head(offset: nat, count: nat, n: nat, part: nat)
    requires count > 0 && n > 0 && offset % n != 0
    requires part == if n - offset % n > count then count else n - offset % n
    ensures var block := offset - offset % n;
            && 0 <= block && block % n == 0 && 0 < part <= count && offset % n + part <= n
            && (part == count || (offset + part) % n == 0)
            && CoverEnd(offset + count, n) >= block + n
            && (part == count ==> CoverEnd(offset + count, n) == block + n)
  {
    hide CoverEnd;
    var q := offset / n;
    BlockOf(offset, n, q);
    CoverReaches(q, offset + count, n);
    if part == count { CoverAligned(q, offset - q * n + count, n); }
  }

  lemma BlockOf(offset: nat, n: nat, q: nat)
    requires n > 0 && q == offset / n
    ensures offset - offset % n == q * n && q * n >= 0 && q * n % n == 0 && (q * n + n) % n == 0
  {
    Multiple(q, n);
    Multiple(q + 1, n);
    assert (q + 1) * n == q * n + n;
  }

  lemma Fulls(cur: nat, rest: nat, n: nat, part: nat)
    requires n > 0 && cur % n == 0 && rest > n && part == rest - rest % n
    ensures 0 < part <= rest && part % n == 0 && (cur + part) % n == 0 && rest - part < n
    ensures CoverEnd(cur + rest, n) >= cur + part
    ensures rest == part ==> CoverEnd(cur + rest, n) == cur + part
  {
    Multiple(rest / n, n);
    assert part == rest / n * n;
    SumOfMultiples(cur, part, n);
    CoverAbove(cur + rest, n);
  }

  lemma Tail(cur: nat, rest: nat, n: nat)
    requires n > 0 && cur % n == 0 && 0 < rest <= n
    ensures CoverEnd(cur + rest, n) == cur + n
  {
    Exact(cur, n);
    CoverAligned(cur / n, rest, n);
  }

  /** Blocks that are a multiple of the device's. */
  lemma Larger(offset: nat, count: nat, grain: nat, n: nat)
    requires n > 0 && grain > 0 && grain % n == 0 && count % grain == 0 && offset % grain == 0
    ensures count % n == 0 && offset % n == 0 && CoverEnd(offset + count, n) == offset + count
  {
    MultipleOfMultiple(count, grain, n);
    MultipleOfMultiple(offset, grain, n);
    SumOfMultiples(offset, count, n);
    CoverAbove(offset + count, n);
  }

  /** How much has been transferred so far is whole small blocks. */
  lemma WholeHead(offset: nat, count: nat, grain: nat, n: nat, part: nat)
    requires n > 0 && grain > 0 && n % grain == 0 && count % grain == 0 && offset % grain == 0
    requires part == if n - offset % n > count then count else n - offset % n
    ensures part % grain == 0
  {
    RemainderOfMultiple(offset, n, grain);
    SumOfMultiples(n, offset % n, grain);
  }

  lemma WholeFulls(done: nat, part: nat, grain: nat, n: nat)
    requires n > 0 && grain > 0 && n % grain == 0 && done % grain == 0 && part % n == 0
    ensures (done + part) % grain == 0
  {
    MultipleOfMultiple(part, n, grain);
    SumOfMultiples(done, part, grain);
  }

  class Layer {
    const next: Device
    const grain: nat
    const filtering: bool
    const nextSize: nat
    const buffer: array<bv8>
    var bswap: bool

    /** A layer whose block size divides or is a multiple of that of the device. */
    constructor (m: Device, grain: nat, bswap: bool)
      requires m.Valid() && grain > 0 && grain != m.grain
      requires if grain > m.grain then grain % m.grain == 0 else m.grain % grain == 0
      requires bswap ==> grain % 2 == 0 && |m.data| % 2 == 0
      ensures Valid() && next == m && this.grain == grain && this.bswap == bswap && fresh(buffer)
    {
      next := m;
      this.grain := grain;
      filtering := grain < m.grain;
      nextSize := m.grain;
      buffer := new bv8[m.grain](_ => 0);
      this.bswap := bswap;
    }

    ghost predicate Sizes()
      reads next
    {
      && next.Valid() && nextSize == next.grain && grain > 0 && buffer.Length == nextSize
      && (if filtering then nextSize % grain == 0 else grain % nextSize == 0)
    }

    ghost predicate Valid()
      reads this, next
    {
      Sizes() && (bswap ==> grain % 2 == 0 && |next.data| % 2 == 0)
    }

    /** The bytes as the users of the layer see them. */
    ghost function Flat(): (r: Bytes)
      requires Valid()
      reads this, next
      ensures |r| == |next.data|
    {
      if bswap then Swapped(next.Flat()) else next.Flat()
    }

    /** Part of one device block, through the buffer. */
    method ReadPart(block: nat, start: nat, count: nat, to: array<bv8>, at: nat) returns (ok: bool)
      requires Sizes() && block % nextSize == 0 && start + count <= nextSize && at + count <= to.Length
      requires to != buffer
      modifies to, buffer
      ensures ok == (block + nextSize <= |next.data|)
      ensures to[..] == if ok then Put(old(to[..]), at, next.Flat()[block + start..block + start + count]) else old(to[..])
    {
      hide Put, SameOutside, CoverEnd;
      ok := next.Read(block, nextSize, buffer, 0);
      if ok {
        PutWhole(old(buffer[..]), next.Flat()[block..block + nextSize]);
        SliceOfSlice(next.Flat(), block, nextSize, start, count);
        Copy(to, at, buffer, start, count);
      }
    }

    /** Changes part of one device block: reads it, changes the buffer, writes it back. */
    method WritePart(block: nat, start: nat, count: nat, from: array<bv8>, at: nat) returns (ok: bool)
      requires Sizes() && block % nextSize == 0 && start + count <= nextSize && at + count <= from.Length
      requires from != buffer
      modifies next`data, buffer
      ensures Sizes() && |next.data| == |old(next.data)|
      ensures ok == (block + nextSize <= |next.data|)
      ensures next.Flat() == if ok then Put(old(next.Flat()), block + start, from[at..at + count]) else old(next.Flat())
    {
      hide Put, SameOutside, CoverEnd, Swapped;
      ghost var flat, bytes := next.Flat(), from[at..at + count];
      ok := next.Read(block, nextSize, buffer, 0);
      if ok {
        PutWhole(old(buffer[..]), flat[block..block + nextSize]);
        Copy(buffer, start, from, at, count);
        PutBlock(flat, block, nextSize, start, bytes);
        WholeSlice(buffer[..]);
        ok := next.Write(block, nextSize, buffer, 0);
      }
    }

    /** The layer's own read. */
    method DoRead(offset: int, count: nat, to: array<bv8>, at: nat) returns (ok: bool)
      requires Sizes() && at + count <= to.Length && to != buffer
      modifies to, buffer
      ensures ok == Covered(offset, count, grain, nextSize, |next.data|)
      ensures ok ==> 0 <= offset && offset + count <= |next.data| && to[..] == Put(old(to[..]), at, next.Flat()[offset..offset + count])
      ensures SameOutside(old(to[..]), to[..], at, count)
    {
      if count <= 0 || count % grain != 0 || offset < 0 || offset % grain != 0 {
        ok := false;
      } else if !filtering {
        Larger(offset, count, grain, nextSize);
        Evens(count, nextSize);
        ok := next.Read(offset, count, to, at);
      } else {
        ok := ReadInParts(offset, count, to, at);
      }
    }

    /** A read of small blocks: the first part, the whole device blocks, the last part. */
    method ReadInParts(offset: nat, count: nat, to: array<bv8>, at: nat) returns (ok: bool)
      requires Sizes() && count > 0 && at + count <= to.Length && to != buffer
      modifies to, buffer
      ensures ok == (CoverEnd(offset + count, nextSize) <= |next.data|)
      ensures ok ==> offset + count <= |next.data| && to[..] == Put(old(to[..]), at, next.Flat()[offset..offset + count])
      ensures SameOutside(old(to[..]), to[..], at, count)
    {
      hide Put, SameOutside, CoverEnd, Progress;
      ghost var was := to[..];
      var done;
      ok, done := ReadFirst(offset, count, to, at);
      if ok && count - done > nextSize {
        ok, done := ReadFulls(offset, count, to, at, done, was);
      }
      if ok && count - done > 0 {
        ok := ReadLast(offset, count, to, at, done, was);
        done := count;
      }
      if ok { Finished(was, to[..], next.Flat(), offset, at, count); }
    }

    /** The part of a read that does not start on a device block. */
    method ReadFirst(offset: nat, count: nat, to: array<bv8>, at: nat) returns (ok: bool, done: nat)
      requires Sizes() && count > 0 && at + count <= to.Length && to != buffer
      modifies to, buffer
      ensures Stage(offset, count, nextSize, |next.data|, ok, done)
      ensures ok ==> Progress(old(to[..]), to[..], next.Flat(), offset, at, count, done)
      ensures SameOutside(old(to[..]), to[..], at, count)
    {
      hide Put, SameOutside, CoverEnd, Progress;
      ghost var was := to[..];
      OutsideItself(was, at, count);
      NoProgress(was, next.Flat(), offset, at, count);
      ok, done := true, 0;
      var partial := offset % nextSize;
      if partial != 0 {
        var part := nextSize - partial;
        if part > count { part := count; }
        Head(offset, count, nextSize, part);
        ok := ReadPart(offset - partial, partial, part, to, at);
        if ok {
          MoreProgress(was, was, to[..], next.Flat(), offset, at, count, 0, part);
          done := part;
        }
      }
    }

    /** The whole device blocks of a read, straight into the caller's buffer. */
    method ReadFulls(offset: nat, count: nat, to: array<bv8>, at: nat, before: nat, ghost was: Bytes) returns (ok: bool, done: nat)
      requires Sizes() && at + count <= to.Length == |was| && to != buffer && before <= count
      requires Stage(offset, count, nextSize, |next.data|, true, before) && count - before > nextSize
      requires Progress(was, to[..], next.Flat(), offset, at, count, before) && SameOutside(was, to[..], at, count)
      modifies to
      ensures Stage(offset, count, nextSize, |next.data|, ok, done) && (ok ==> count - done < nextSize)
      ensures ok ==> Progress(was, to[..], next.Flat(), offset, at, count, done)
      ensures SameOutside(was, to[..], at, count)
    {
      hide Put, SameOutside, CoverEnd, Progress;
      ghost var mid := to[..];
      var part := count - before - (count - before) % nextSize;
      Fulls(offset + before, count - before, nextSize, part);
      Evens(part, nextSize);
      ok := next.Read(offset + before, part, to, at + before);
      done := before + part;
      OutsideTwice(was, mid, to[..], at, count, at, count, at + before, part);
      if ok { MoreProgress(was, mid, to[..], next.Flat(), offset, at, count, before, part); }
    }

    /** The end of a read that stops inside a device block, or at the end of its only one left. */
    method ReadLast(offset: nat, count: nat, to: array<bv8>, at: nat, before: nat, ghost was: Bytes) returns (ok: bool)
      requires Sizes() && at + count <= to.Length == |was| && to != buffer
      requires Stage(offset, count, nextSize, |next.data|, true, before) && 0 < count - before <= nextSize
      requires Progress(was, to[..], next.Flat(), offset, at, count, before) && SameOutside(was, to[..], at, count)
      modifies to, buffer
      ensures Stage(offset, count, nextSize, |next.data|, ok, count)
      ensures ok ==> Progress(was, to[..], next.Flat(), offset, at, count, count)
      ensures SameOutside(was, to[..], at, count)
    {
      hide Put, SameOutside, CoverEnd, Progress;
      ghost var mid := to[..];
      Tail(offset + before, count - before, nextSize);
      ok := ReadPart(offset + before, 0, count - before, to, at + before);
      if ok { MoreProgress(was, mid, to[..], next.Flat(), offset, at, count, before, count - before); }
    }

    /**
     * The layer's own write: on success the range of the bytes and nothing else, although whole device
     * blocks are written. A write that fails has changed exactly the first bytes of the range.
     */
    method DoWrite(offset: int, count: nat, from: array<bv8>, at: nat) returns (ok: bool, ghost done: nat)
      requires Sizes() && at + count <= from.Length && from != buffer
      modifies next`data, buffer, from
      ensures Sizes() && |next.data| == |old(next.data)| && from[..] == old(from[..])
      ensures ok == Covered(offset, count, grain, nextSize, |next.data|) && done % grain == 0
      ensures if ok then done == count else done == 0 || done < count
      ensures done > 0 ==> offset % grain == 0
      ensures Wrote(old(next.Flat()), next.Flat(), offset, old(from[..]), at, done)
    {
      done := 0;
      if count <= 0 || count % grain != 0 || offset < 0 || offset % grain != 0 {
        ok := false;
      } else if !filtering {
        Larger(offset, count, grain, nextSize);
        Evens(count, nextSize);
        ok := next.Write(offset, count, from, at);
        if ok { done := count; }
      } else {
        ok, done := WriteInParts(offset, count, from, at);
      }
    }

    /** A write of small blocks: the first part, the whole device blocks, the last part. */
    method WriteInParts(offset: nat, count: nat, from: array<bv8>, at: nat) returns (ok: bool, done: nat)
      requires Sizes() && filtering && count > 0 && at + count <= from.Length && from != buffer
      requires count % grain == 0 && offset % grain == 0
      modifies next`data, buffer, from
      ensures Sizes() && |next.data| == |old(next.data)| && from[..] == old(from[..])
      ensures ok == (CoverEnd(offset + count, nextSize) <= |next.data|) && done % grain == 0
      ensures if ok then done == count else done < count
      ensures Wrote(old(next.Flat()), next.Flat(), offset, old(from[..]), at, done)
    {
      hide Put, SameOutside, CoverEnd, Wrote;
      ghost var was, flat := from[..], next.Flat();
      ok, done := WriteFirst(offset, count, from, at);
      if ok && count - done > nextSize {
        ok, done := WriteFulls(offset, count, from, at, done, flat);
      }
      if ok && count - done > 0 {
        ok, done := WriteLast(offset, count, from, at, done, flat);
      }
    }

    /** The part of a write that does not start on a device block. */
    method WriteFirst(offset: nat, count: nat, from: array<bv8>, at: nat) returns (ok: bool, done: nat)
      requires Sizes() && filtering && count > 0 && at + count <= from.Length && from != buffer
      requires count % grain == 0 && offset % grain == 0
      modifies next`data, buffer
      ensures Sizes() && |next.data| == |old(next.data)|
      ensures Stage(offset, count, nextSize, |next.data|, ok, done) && done % grain == 0 && (!ok ==> done < count)
      ensures Wrote(old(next.Flat()), next.Flat(), offset, from[..], at, done)
    {
      hide Put, SameOutside, CoverEnd, Wrote;
      ghost var flat := next.Flat();
      NoneWrote(flat, offset, from[..], at);
      ok, done := true, 0;
      var partial := offset % nextSize;
      if partial != 0 {
        var part := nextSize - partial;
        if part > count { part := count; }
        Head(offset, count, nextSize, part);
        WholeHead(offset, count, grain, nextSize, part);
        ok := WritePart(offset - partial, partial, part, from, at);
        if ok {
          MoreWrote(flat, flat, next.Flat(), offset, from[..], at, 0, part);
          done := part;
        }
      }
    }

    /** The whole device blocks of a write, straight from the caller's buffer. */
    method WriteFulls(offset: nat, count: nat, from: array<bv8>, at: nat, before: nat, ghost flat: Bytes) returns (ok: bool, done: nat)
      requires Sizes() && filtering && at + count <= from.Length && from != buffer && before <= count
      requires Stage(offset, count, nextSize, |next.data|, true, before) && count - before > nextSize
      requires |flat| == |next.data| && Wrote(flat, next.Flat(), offset, from[..], at, before) && before % grain == 0
      modifies next`data, from
      ensures Sizes() && |next.data| == |old(next.data)| && from[..] == old(from[..])
      ensures Stage(offset, count, nextSize, |next.data|, ok, done) && (ok ==> count - done < nextSize)
      ensures done % grain == 0 && (!ok ==> done < count)
      ensures Wrote(flat, next.Flat(), offset, from[..], at, done)
    {
      hide Put, SameOutside, CoverEnd, Wrote;
      ghost var mid := next.Flat();
      var part := count - before - (count - before) % nextSize;
      Fulls(offset + before, count - before, nextSize, part);
      Evens(part, nextSize);
      WholeFulls(before, part, grain, nextSize);
      ok := next.Write(offset + before, part, from, at + before);
      done := before;
      if ok {
        MoreWrote(flat, mid, next.Flat(), offset, from[..], at, before, part);
        done := before + part;
      }
    }

    /** The end of a write that stops inside a device block, or at the end of its only one left. */
    method WriteLast(offset: nat, count: nat, from: array<bv8>, at: nat, before: nat, ghost flat: Bytes) returns (ok: bool, done: nat)
      requires Sizes() && at + count <= from.Length && from != buffer && count % grain == 0 && before % grain == 0
      requires Stage(offset, count, nextSize, |next.data|, true, before) && 0 < count - before <= nextSize
      requires |flat| == |next.data| && Wrote(flat, next.Flat(), offset, from[..], at, before)
      modifies next`data, buffer
      ensures Sizes() && |next.data| == |old(next.data)|
      ensures ok == (CoverEnd(offset + count, nextSize) <= |next.data|) && done == if ok then count else before
      ensures Wrote(flat, next.Flat(), offset, from[..], at, done)
    {
      hide Put, SameOutside, CoverEnd, Wrote;
      ghost var mid := next.Flat();
      Tail(offset + before, count - before, nextSize);
      ok := WritePart(offset + before, 0, count - before, from, at + before);
      done := before;
      if ok {
        MoreWrote(flat, mid, next.Flat(), offset, from[..], at, before, count - before);
        done := count;
      }
    }

    /** A read through the layer: the range of its bytes, and nothing else of the buffer. */
    method Read(offset: int, count: nat, to: array<bv8>, at: nat) returns (ok: bool)
      requires Valid() && at + count <= to.Length && to != buffer && (bswap ==> count % 2 == 0)
      modifies to, buffer
      ensures ok == Covered(offset, count, grain, nextSize, |next.data|)
      ensures ok ==> 0 <= offset && offset + count <= |next.data| && to[..] == Put(old(to[..]), at, Flat()[offset..offset + count])
      ensures SameOutside(old(to[..]), to[..], at, count)
    {
      hide Put, Swapped, CoverEnd, Covered, SameOutside;
      ghost var was := to[..];
      ok := DoRead(offset, count, to, at);
      if bswap {
        ghost var read := to[..];
        SwapBytes(to, at, count);
        PutOutside(read, at, Swapped(read[at..at + count]));
        OutsideTwice(was, read, to[..], at, count, at, count, at, count);
        if ok {
          EvenCovered(offset, count, grain, nextSize, |next.data|);
          SwappedSlice(next.Flat(), offset, offset + count);
          SwapRead(was, at, next.Flat()[offset..offset + count]);
        }
      }
    }

    /**
     * A write through the layer: the range of its bytes and nothing else, and the caller's buffer as it
     * was; one that fails has changed exactly the first bytes of the range.
     */
    method Write(offset: int, count: nat, from: array<bv8>, at: nat) returns (ok: bool, ghost done: nat)
      requires Valid() && at + count <= from.Length && from != buffer && (bswap ==> count % 2 == 0)
      modifies next`data, buffer, from
      ensures Valid() && |next.data| == |old(next.data)| && from[..] == old(from[..])
      ensures ok == Covered(offset, count, grain, nextSize, |next.data|) && done % grain == 0
      ensures if ok then done == count else done == 0 || done < count
      ensures Wrote(old(Flat()), Flat(), offset, from[..], at, done)
    {
      hide Put, Swapped, CoverEnd, Covered, Wrote;
      ghost var was, flat := from[..], next.Flat();
      if bswap { SwapBytes(from, at, count); }
      ok, done := DoWrite(offset, count, from, at);
      if bswap {
        ghost var bytes := was[at..at + count];
        WroteSwapped(flat, next.Flat(), offset, was, at, count, done, grain);
        PutSlice(was, at, Swapped(bytes));
        SwapBytes(from, at, count);
        SwappedTwice(bytes);
        PutAgain(was, at, Swapped(bytes), bytes);
        PutOwn(was, at, count);
      }
    }
  }

  lemma EvenCovered(offset: int, count: nat, grain: nat, n: nat, size: nat)
    requires grain > 0 && n > 0 && Covered(offset, count, grain, n, size) && grain % 2 == 0
    ensures offset >= 0 && offset % 2 == 0
  {
    MultipleOfMultiple(offset, grain, 2);
  }

  /** What has been written of swapped bytes, once the layer's own swap is undone. */
  lemma WroteSwapped(flat: Bytes, now: Bytes, offset: int, was: Bytes, at: nat, count: nat, done: nat, grain: nat)
    requires at + count <= |was| && count % 2 == 0 && done <= count && |flat| % 2 == 0 && |now| == |flat|
    requires grain > 0 && grain % 2 == 0 && done % grain == 0 && (done > 0 ==> offset % grain == 0)
    requires Wrote(flat, now, offset, Put(was, at, Swapped(was[at..at + count])), at, done)
    ensures Wrote(Swapped(flat), Swapped(now), offset, was, at, done)
  {
    hide Put, Swapped;
    if done > 0 {
      var bytes := was[at..at + count];
      var sent := Put(was, at, Swapped(bytes));
      MultipleOfMultiple(done, grain, 2);
      MultipleOfMultiple(offset, grain, 2);
      PutSlice(was, at, Swapped(bytes));
      SliceOfSlice(sent, at, count, 0, done);
      SwappedSlice(bytes, 0, done);
      SwappedTwice(bytes[0..done]);
      SliceOfSlice(was, at, count, 0, done);
      SwappedPut(flat, offset, sent[at..at + done]);
    }
  }

  /** What a write has changed so far: the first bytes of its range, and nothing else. */
  ghost predicate Wrote(flat: Bytes, now: Bytes, offset: int, from: Bytes, at: nat, done: nat) {
    if done == 0 then now == flat
    else offset >= 0 && at + done <= |from| && offset + done <= |flat| && now == Put(flat, offset, from[at..at + done])
  }

  lemma NoneWrote(flat: Bytes, offset: int, from: Bytes, at: nat)
    ensures Wrote(flat, flat, offset, from, at, 0)
  {
  }

  lemma MoreWrote(flat: Bytes, mid: Bytes, now: Bytes, offset: nat, from: Bytes, at: nat, done: nat, part: nat)
    requires Wrote(flat, mid, offset, from, at, done) && part > 0 && at + done + part <= |from|
    requires |mid| == |flat| && offset + done + part <= |flat|
    requires now == Put(mid, offset + done, from[at + done..at + done + part])
    ensures Wrote(flat, now, offset, from, at, done + part)
  {
    hide Put;
    if done > 0 {
      PutMore(flat, offset, from[at..at + done], from[at + done..at + done + part]);
      SlicesJoin(from, at, at + done, at + done + part);
    }
  }

  /**
   * Where a transfer stands after a part of it: at a device block or at its end, and it has failed, or
   * has come to its end, according to whether all the device blocks it touches are there.
   */
  ghost predicate Stage(offset: nat, count: nat, n: nat, size: nat, ok: bool, done: nat)
    requires n > 0
  {
    && done <= count
    && (if !ok then CoverEnd(offset + count, n) > size
        else if done == count then CoverEnd(offset + count, n) <= size
        else (offset + done) % n == 0)
  }

  /** How far a read has come: what the buffer holds after the first bytes of it. */
  ghost predicate Progress(was: Bytes, now: Bytes, flat: Bytes, offset: nat, at: nat, count: nat, done: nat)
    requires at + count <= |was|
  {
    && done <= count
    && (if done == 0 then now == was else offset + done <= |flat| && now == Put(was, at, flat[offset..offset + done]))
  }

  lemma NoProgress(was: Bytes, flat: Bytes, offset: nat, at: nat, count: nat)
    requires at + count <= |was|
    ensures Progress(was, was, flat, offset, at, count, 0)
  {
  }

  lemma MoreProgress(was: Bytes, mid: Bytes, now: Bytes, flat: Bytes, offset: nat, at: nat, count: nat, done: nat, part: nat)
    requires at + count <= |was| && Progress(was, mid, flat, offset, at, count, done) && part > 0 && done + part <= count
    requires offset + done + part <= |flat| && |mid| == |was|
    requires now == Put(mid, at + done, flat[offset + done..offset + done + part])
    ensures Progress(was, now, flat, offset, at, count, done + part) && SameOutside(was, now, at, count)
  {
    hide Put, SameOutside;
    if done > 0 {
      PutMore(was, at, flat[offset..offset + done], flat[offset + done..offset + done + part]);
      SlicesJoin(flat, offset, offset + done, offset + done + part);
    }
    PutOutside(was, at, flat[offset..offset + done + part]);
    OutsideItself(was, at, count);
    OutsideTwice(was, was, now, at, count, at, 0, at, done + part);
  }

  lemma Finished(was: Bytes, now: Bytes, flat: Bytes, offset: nat, at: nat, count: nat)
    requires at + count <= |was| && Progress(was, now, flat, offset, at, count, count) && count > 0
    ensures offset + count <= |flat| && now == Put(was, at, flat[offset..offset + count])
  {
  }

  lemma Evens(count: nat, n: nat)
    requires n > 0 && count % n == 0
    ensures n % 2 == 0 ==> count % 2 == 0
  {
    if n % 2 == 0 { MultipleOfMultiple(count, n, 2); }
  }

  lemma WholeSlice(s: Bytes)
    ensures s[0..0 + |s|] == s
  {
  }

  lemma PutWhole(s: Bytes, x: Bytes)
    requires |s| == |x|
    ensures Put(s, 0, x) == x
  {
  }

  /* ---------- runs ---------- */

  datatype Op = Reading(offset: int, count: nat) | Writing(offset: int, bytes: Bytes)

  function Count(op: Op): nat { if op.Reading? then op.count else |op.bytes| }

  ghost predicate AllCovered(ops: seq<Op>, grain: nat, n: nat, size: nat)
    requires grain > 0 && n > 0
  {
    forall i :: 0 <= i < |ops| ==> Covered(ops[i].offset, Count(ops[i]), grain, n, size)
  }

  /** Whether every transfer is inside a flat array of bytes. */
  ghost predicate AllInside(ops: seq<Op>, size: nat) {
    forall i :: 0 <= i < |ops| ==> 0 <= ops[i].offset && ops[i].offset + Count(ops[i]) <= size
  }

  /** A flat array of bytes after the transfers. */
  ghost function After(flat: Bytes, ops: seq<Op>): (r: Bytes)
    requires AllInside(ops, |flat|)
    ensures |r| == |flat|
  {
    if ops == [] then flat
    else
      var before := After(flat, ops[..|ops| - 1]);
      var op := ops[|ops| - 1];
      if op.Reading? then before else Put(before, op.offset, op.bytes)
  }

  /** What the reads among the transfers give on a flat array of bytes. */
  ghost function Answers(flat: Bytes, ops: seq<Op>): seq<Bytes>
    requires AllInside(ops, |flat|)
  {
    if ops == [] then []
    else
      var before := Answers(flat, ops[..|ops| - 1]);
      var op := ops[|ops| - 1];
      if op.Writing? then before
      else before + [After(flat, ops[..|ops| - 1])[op.offset..op.offset + op.count]]
  }

  lemma CoveredInside(op: Op, grain: nat, n: nat, size: nat)
    requires grain > 0 && n > 0 && Covered(op.offset, Count(op), grain, n, size)
    ensures 0 <= op.offset && op.offset + Count(op) <= size && Count(op) > 0
  {
    CoverAbove(op.offset + Count(op), n);
  }

  /** On a device of whole blocks the transfers that succeed are all those inside it. */
  lemma CoveredIsInside(offset: int, count: nat, grain: nat, n: nat, size: nat)
    requires grain > 0 && n > 0 && size % n == 0
    ensures Covered(offset, count, grain, n, size) <==> Fits(offset, count, grain, size)
  {
    if offset >= 0 {
      var e := offset + count;
      CoverAbove(e, n);
      if e <= size {
        Exact(size, n);
        DivideMonotone(e + n - 1, size + n - 1, n);
        Place(size + n - 1, size / n, n - 1, n);
        Times((e + n - 1) / n, size / n, n);
      }
    }
  }

  lemma InsideMore(ops: seq<Op>, op: Op, size: nat)
    requires AllInside(ops, size) && 0 <= op.offset && op.offset + Count(op) <= size
    ensures AllInside(ops + [op], size)
  {
  }

  lemma AfterMore(flat: Bytes, ops: seq<Op>, op: Op)
    requires AllInside(ops, |flat|) && AllInside(ops + [op], |flat|) && 0 <= op.offset && op.offset + Count(op) <= |flat|
    ensures After(flat, ops + [op]) == if op.Reading? then After(flat, ops) else Put(After(flat, ops), op.offset, op.bytes)
  {
    hide Put, AllInside;
    var more := ops + [op];
    assert more[..|more| - 1] == ops && more[|ops|] == op;
  }

  lemma AnswersMore(flat: Bytes, ops: seq<Op>, op: Op)
    requires AllInside(ops, |flat|) && AllInside(ops + [op], |flat|) && 0 <= op.offset && op.offset + Count(op) <= |flat|
    ensures Answers(flat, ops + [op]) == Answers(flat, ops) +
              if op.Writing? then [] else [After(flat, ops)[op.offset..op.offset + op.count]]
  {
    hide Put, AllInside, After;
    var more := ops + [op];
    assert more[..|more| - 1] == ops && more[|ops|] == op;
  }

  /** One transfer of a run. */
  method Perform(m: Layer, op: Op) returns (ok: bool, answer: seq<Bytes>)
    requires m.Valid() && (m.bswap ==> Count(op) % 2 == 0)
    modifies m.next`data, m.buffer
    ensures m.Valid() && |m.next.data| == |old(m.next.data)|
    ensures ok == Covered(op.offset, Count(op), m.grain, m.nextSize, |m.next.data|)
    ensures ok ==> 0 <= op.offset && op.offset + Count(op) <= |m.next.data|
    ensures ok && op.Reading? ==> answer == [old(m.Flat())[op.offset..op.offset + op.count]] && m.Flat() == old(m.Flat())
    ensures ok && op.Writing? ==> answer == [] && m.Flat() == Put(old(m.Flat()), op.offset, op.bytes)
  {
    hide Put, Swapped, Covered, CoverEnd;
    answer := [];
    match op {
      case Reading(offset, count) =>
        var to := new bv8[count](_ => 0);
        ghost var was := to[..];
        ok := m.Read(offset, count, to, 0);
        if ok {
          PutWhole(was, m.Flat()[offset..offset + count]);
          answer := [to[..]];
        }
      case Writing(offset, bytes) =>
        var from := new bv8[|bytes|](i requires 0 <= i < |bytes| => bytes[i]);
        assert from[..] == bytes;
        ghost var done;
        ok, done := m.Write(offset, |bytes|, from, 0);
        if ok {
          CoveredInside(op, m.grain, m.nextSize, |m.next.data|);
          assert from[0..0 + |bytes|] == bytes;
        }
    }
  }

  /**
   * Any run of transfers through the layer, as long as they succeed: they succeed while the device
   * blocks touched are there, and then the layer is a flat array of bytes.
   */
  method Run(m: Layer, ops: seq<Op>) returns (ok: bool, answers: seq<Bytes>)
    requires m.Valid() && (m.bswap ==> forall i :: 0 <= i < |ops| ==> Count(ops[i]) % 2 == 0)
    modifies m.next`data, m.buffer
    ensures m.Valid() && |m.next.data| == |old(m.next.data)|
    ensures ok == AllCovered(ops, m.grain, m.nextSize, |m.next.data|)
    ensures ok ==> AllInside(ops, |m.next.data|) && m.Flat() == After(old(m.Flat()), ops) && answers == Answers(old(m.Flat()), ops)
  {
    hide Put, Swapped, Covered, CoverEnd, After, Answers;
    ghost var flat, size := m.Flat(), |m.next.data|;
    ok, answers := true, [];
    NothingDone(flat);
    assert ops[..0] == [];
    var i := 0;
    while i < |ops|
      invariant 0 <= i <= |ops| && m.Valid() && |m.next.data| == size
      invariant AllCovered(ops[..i], m.grain, m.nextSize, size) && AllInside(ops[..i], size)
      invariant m.Flat() == After(flat, ops[..i]) && answers == Answers(flat, ops[..i])
    {
      var answer;
      ok, answer := Perform(m, ops[i]);
      if !ok { return; }
      assert ops[..i + 1] == ops[..i] + [ops[i]];
      InsideMore(ops[..i], ops[i], size);
      AfterMore(flat, ops[..i], ops[i]);
      AnswersMore(flat, ops[..i], ops[i]);
      answers := answers + answer;
      i := i + 1;
    }
    assert ops[..i] == ops;
  }

  lemma NothingDone(flat: Bytes)
    ensures AllInside([], |flat|) && After(flat, []) == flat && Answers(flat, []) == []
  {
  }

  /** The byte the last write over position p left there. */
  ghost function LastWritten(flat: Bytes, ops: seq<Op>, p: nat): bv8
    requires p < |flat|
  {
    if ops == [] then flat[p]
    else
      var op := ops[|ops| - 1];
      if op.Writing? && op.offset <= p < op.offset + |op.bytes| then op.bytes[p - op.offset]
      else LastWritten(flat, ops[..|ops| - 1], p)
  }

  /** After any run, what a read of the layer gives is at each position the last byte written there. */
  lemma {:induction false} ReadsLastWritten(flat: Bytes, ops: seq<Op>, p: nat)
    requires AllInside(ops, |flat|) && p < |flat|
    ensures After(flat, ops)[p] == LastWritten(flat, ops, p)
  {
    hide Put;
    if ops == [] {
    } else {
      var op, rest := ops[|ops| - 1], ops[..|ops| - 1];
      ReadsLastWritten(flat, rest, p);
      if op.Writing? { PutAt(After(flat, rest), op.offset, op.bytes, p); }
    }
  }
}
