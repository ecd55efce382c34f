/** The same map as mfstools builds it: one buffer of words, filled table by table. */
module ZoneMap {
  import opened Arithmetic
  import opened BitWords
  import opened Bitmaps
  import opened ZoneLevels
  import opened Zones

  /** A number as one word of the buffer. */
  function Word(n: nat): bv32 { (n % 0x1_0000_0000) as bv32 }

  /** The words a table for some bits takes. */
  function MapInts(nbits: nat): nat { (nbits + 57) / 32 }

  /** The words the tables of the first i of these levels take, four of them for each header. */
  function TableOffset(order: nat, i: nat): (r: nat)
    requires i <= order
  {
    if i == 0 then 0 else TableOffset(order, i - 1) + 4 + MapInts(Power(order - i))
  }

  lemma {:induction false} TableOffsetGrows(order: nat, i: nat, j: nat)
    requires i <= j <= order
    ensures TableOffset(order, i) <= TableOffset(order, j)
  {
    if i >= j {
    } else {
      TableOffsetGrows(order, i, j - 1);
    }
  }

  /** A table for nbits chunks, of which real are there and free: its header and its bits. */
  ghost predicate Table(table: seq<bv32>, nbits: nat, real_: nat) {
    && |table| == 4 + MapInts(nbits) && Words(nbits) <= MapInts(nbits)
    && table[0] == Word(nbits) && table[1] == Word(real_ % 2)
    && table[2] == Word(if real_ % 2 == 1 then real_ - 1 else 0) && table[3] == Word(Words(nbits))
    && LastReal(table[4..], nbits, real_)
  }

  /** The buffer holds the first i tables from word start on. */
  ghost predicate Tables(buf: seq<bv32>, start: nat, order: nat, blocks: nat, i: nat)
    requires i <= order
  {
    && start + TableOffset(order, i) <= |buf|
    && forall k {:trigger TableOffset(order, k)} :: 0 <= k < i ==>
         TableOffset(order, k + 1) <= TableOffset(order, i) && TableOffset(order, k) <= TableOffset(order, k + 1)
         && Table(buf[start + TableOffset(order, k)..start + TableOffset(order, k + 1)], Power(order - 1 - k), Down(blocks, k))
  }

  lemma RoomForBits(i: nat)
    ensures Words(Power(i)) <= MapInts(Power(i)) && Power(i) <= 32 * Words(Power(i))
  {
    EstimateIsSize(i);
  }

  /** Clears n words. */
  method Clear(buf: array<bv32>, at: nat, n: nat)
    requires at + n <= buf.Length
    modifies buf
    ensures forall k :: 0 <= k < buf.Length ==> buf[k] == (if at <= k < at + n then 0 else old(buf[k]))
  {
    for i := 0 to n
      invariant forall k :: 0 <= k < buf.Length ==> buf[k] == (if at <= k < at + i then 0 else old(buf[k]))
    {
      buf[at + i] := 0;
    }
  }

  /** Clears the bits of a table and marks the last odd chunk, which no larger bit stands for. */
  method FillBits(buf: array<bv32>, at: nat, nints: nat, nbits: nat, blocks: nat, ghost end: nat)
    requires at + nints <= end <= buf.Length && nbits <= 32 * nints && blocks <= nbits
    modifies buf
    ensures nbits <= 32 * |buf[at..end]| && LastReal(buf[at..end], nbits, blocks)
    ensures forall k :: 0 <= k < at ==> buf[k] == old(buf[k])
  {
    hide BitAt, Mask, LastReal;
    Clear(buf, at, nints);
    ghost var clear := buf[at..end];
    LastBit(clear, nints, nbits, blocks);
    if blocks % 2 != 0 {
      buf[at + (blocks - 1) / 32] := Mask((blocks - 1) % 32);
      assert buf[at..end] == clear[(blocks - 1) / 32 := Mask((blocks - 1) % 32)];
    }
  }

  /** One table: its header and its bits. */
  method FillTable(buf: array<bv32>, curofs: nat, order: nat, blocks: nat)
    requires blocks <= Power(order) && curofs + 4 + MapInts(Power(order)) <= buf.Length
    modifies buf
    ensures Table(buf[curofs..curofs + 4 + MapInts(Power(order))], Power(order), blocks)
    ensures buf[..curofs] == old(buf[..curofs])
  {
    hide Power, Word, BitAt, LastReal, MapInts, Words;
    var nbits := Power(order);
    RoomForBits(order);
    var nints := Words(nbits);
    ghost var end := curofs + 4 + MapInts(nbits);
    buf[curofs] := Word(nbits);
    buf[curofs + 3] := Word(nints);
    if blocks % 2 != 0 {
      buf[curofs + 2] := Word(blocks - 1);
      buf[curofs + 1] := Word(1);
    } else {
      buf[curofs + 2] := Word(0);
      buf[curofs + 1] := Word(0);
    }
    FillBits(buf, curofs + 4, nints, nbits, blocks, end);
    assert buf[curofs..end][4..] == buf[curofs + 4..end];
  }

  /** Storing the mask of the last odd chunk into clear words marks that chunk only. */
  lemma LastBit(clear: seq<bv32>, nints: nat, nbits: nat, blocks: nat)
    requires nints <= |clear| && nbits <= 32 * nints && blocks <= nbits
    requires forall k :: 0 <= k < nints ==> clear[k] == 0
    ensures blocks % 2 != 0 ==>
              (blocks - 1) / 32 < nints && LastReal(clear[(blocks - 1) / 32 := Mask((blocks - 1) % 32)], nbits, blocks)
    ensures blocks % 2 == 0 ==> LastReal(clear, nbits, blocks)
  {
    hide BitAt, Mask, LastReal, Raised;
    ClearBits(clear, nints);
    if blocks % 2 != 0 {
      var marked := clear[(blocks - 1) / 32 := Mask((blocks - 1) % 32)];
      WordSet(clear, blocks - 1);
      OneSet(clear, marked, nints, blocks);
      LastRealLess(marked, 32 * nints, nbits, blocks);
    } else {
      NoneSet(clear, nints, blocks);
      LastRealLess(clear, 32 * nints, nbits, blocks);
    }
  }

  lemma LastRealLess(a: seq<bv32>, n: nat, m: nat, realBlocks: nat)
    requires m <= n <= 32 * |a| && LastReal(a, n, realBlocks)
    ensures LastReal(a, m, realBlocks)
  {
  }

  /** In a clear word, storing a mask sets its bit. */
  lemma WordSet(a: seq<bv32>, n: nat)
    requires n < 32 * |a| && a[n / 32] == 0
    ensures Raised(a, a[n / 32 := Mask(n % 32)], n, n + 1)
  {
    hide Mask, BitAt, Raised;
    RaiseOne(a, n);
    WithClear(Mask(n % 32));
  }

  lemma WithClear(m: bv32)
    ensures With(0, m) == m
  {
  }

  ghost predicate Pointers(buf: seq<bv32>, header: nat, order: nat, base: nat, i: nat)
    requires i <= order
  {
    header + order <= |buf| && forall k {:trigger TableOffset(order, k)} :: 0 <= k < i ==>
      buf[header + k] == Word(base + 4 * (header + order + TableOffset(order, k)))
  }

  /**
   * The maps of a new zone, from one bit a chunk to one bit for everything, and for each a pointer
   * to where file-system memory has it.
   */
  method FillBitmaps(buf: array<bv32>, header: nat, order: nat, blocks: nat, base: nat)
    requires 0 < order && blocks <= Power(order - 1)
    requires header + order + TableOffset(order, order) <= buf.Length
    modifies buf
    ensures Tables(buf[..], header + order, order, blocks, order)
    ensures Pointers(buf[..], header, order, base, order)
    ensures buf[..header] == old(buf[..header])
  {
    hide Tables, Pointers, Table, Word, Power, Down, TableOffset;
    var curofs, loop_, left := header + order, 0, blocks;
    NoTables(buf[..], header, order, blocks, base);
    while loop_ < order
      invariant 0 <= loop_ <= order && curofs == header + order + TableOffset(order, loop_)
      invariant loop_ < order ==> left == Down(blocks, loop_)
      invariant Tables(buf[..], header + order, order, blocks, loop_)
      invariant Pointers(buf[..], header, order, base, loop_)
      invariant buf[..header] == old(buf[..header])
    {
      NextOffset(order, loop_);
      TableOffsetGrows(order, loop_ + 1, order);
      DownBound(blocks, order - 1, loop_);
      ghost var was := buf[..];
      buf[header + loop_] := Word(base + 4 * curofs);
      PointerKept(was, header, order, blocks, base, loop_, buf[..]);
      ghost var mid := buf[..];
      FillTable(buf, curofs, order - 1 - loop_, left);
      TableAdded(mid, header, order, blocks, base, loop_, buf[..]);
      curofs := curofs + 4 + MapInts(Power(order - 1 - loop_));
      loop_, left := loop_ + 1, left / 2;
      DownStep(blocks, loop_);
    }
  }

  lemma DownStep(n: nat, i: nat)
    requires i > 0
    ensures Down(n, i) == Down(n, i - 1) / 2
  {
  }

  lemma NextOffset(order: nat, i: nat)
    requires i < order
    ensures TableOffset(order, i + 1) == TableOffset(order, i) + 4 + MapInts(Power(order - 1 - i))
    ensures TableOffset(order, 0) == 0
  {
  }

  lemma NoTables(buf: seq<bv32>, header: nat, order: nat, blocks: nat, base: nat)
    requires header + order <= |buf|
    ensures Tables(buf, header + order, order, blocks, 0) && Pointers(buf, header, order, base, 0)
    ensures TableOffset(order, 0) == 0 && Down(blocks, 0) == blocks
  {
  }

  lemma PointerKept(was: seq<bv32>, header: nat, order: nat, blocks: nat, base: nat, i: nat, now: seq<bv32>)
    requires i < order && |now| == |was|
    requires Tables(was, header + order, order, blocks, i) && Pointers(was, header, order, base, i)
    requires now == was[header + i := Word(base + 4 * (header + order + TableOffset(order, i)))]
    ensures Tables(now, header + order, order, blocks, i) && Pointers(now, header, order, base, i + 1)
  {
    hide Table, Word, Power, Down, TableOffset;
    var start := header + order;
    forall k {:trigger TableOffset(order, k)} | 0 <= k < i
      ensures TableOffset(order, k) <= TableOffset(order, k + 1) <= TableOffset(order, i)
      ensures now[start + TableOffset(order, k)..start + TableOffset(order, k + 1)]
           == was[start + TableOffset(order, k)..start + TableOffset(order, k + 1)]
    {
    }
  }

  lemma TableAdded(was: seq<bv32>, header: nat, order: nat, blocks: nat, base: nat, i: nat, now: seq<bv32>)
    requires i < order && |now| == |was| && header + order + TableOffset(order, i + 1) <= |was|
    requires Tables(was, header + order, order, blocks, i) && Pointers(was, header, order, base, i + 1)
    requires TableOffset(order, i) <= TableOffset(order, i + 1)
    requires now[..header + order + TableOffset(order, i)] == was[..header + order + TableOffset(order, i)]
    requires Table(now[header + order + TableOffset(order, i)..header + order + TableOffset(order, i + 1)],
                   Power(order - 1 - i), Down(blocks, i))
    ensures Tables(now, header + order, order, blocks, i + 1) && Pointers(now, header, order, base, i + 1)
  {
    hide Table, Word, Power, Down, TableOffset;
    var start := header + order;
    var end := start + TableOffset(order, i);
    forall k {:trigger TableOffset(order, k)} | 0 <= k < i
      ensures TableOffset(order, k) <= TableOffset(order, k + 1) <= TableOffset(order, i)
      ensures now[start + TableOffset(order, k)..start + TableOffset(order, k + 1)]
           == was[start + TableOffset(order, k)..start + TableOffset(order, k + 1)]
    {
      assert now[start + TableOffset(order, k)..start + TableOffset(order, k + 1)]
          == now[..end][start + TableOffset(order, k)..start + TableOffset(order, k + 1)];
      assert was[start + TableOffset(order, k)..start + TableOffset(order, k + 1)]
          == was[..end][start + TableOffset(order, k)..start + TableOffset(order, k + 1)];
    }
    forall k {:trigger TableOffset(order, k)} | 0 <= k <= i ensures now[header + k] == was[header + k] {
      assert now[header + k] == now[..end][header + k] && was[header + k] == was[..end][header + k];
    }
  }

  lemma TableAt(buf: seq<bv32>, start: nat, order: nat, blocks: nat, i: nat, k: nat)
    requires k < i <= order && Tables(buf, start, order, blocks, i)
    ensures TableOffset(order, k) + 4 <= TableOffset(order, k + 1) && start + TableOffset(order, k + 1) <= |buf|
    ensures var words := buf[start + TableOffset(order, k) + 4..start + TableOffset(order, k + 1)];
            Power(order - 1 - k) <= 32 * |words| && LastReal(words, Power(order - 1 - k), Down(blocks, k))
  {
    hide Power, Down, TableOffset, MapInts, Word, BitAt;
    NextOffset(order, k);
    RoomForBits(order - 1 - k);
    var table := buf[start + TableOffset(order, k)..start + TableOffset(order, k + 1)];
    assert table[4..] == buf[start + TableOffset(order, k) + 4..start + TableOffset(order, k + 1)];
  }

  /** The bits of the tables are the levels a new zone has, so both programs free the same chunks. */
  lemma SameLevels(buf: seq<bv32>, start: nat, order: nat, blocks: nat, levels: seq<seq<bv32>>)
    requires 0 < order == |levels| && blocks <= Power(order - 1) && Tables(buf, start, order, blocks, order)
    requires forall k {:trigger levels[k]} :: 0 <= k < order ==>
               TableOffset(order, k) + 4 <= TableOffset(order, k + 1) && start + TableOffset(order, k + 1) <= |buf|
               && levels[k] == buf[start + TableOffset(order, k) + 4..start + TableOffset(order, k + 1)]
    ensures NewLevels(levels, order, blocks)
  {
    hide Power, Down, TableOffset, Tables, LastReal;
    forall k {:trigger levels[k]} | 0 <= k < order
      ensures Power(order - 1 - k) <= 32 * |levels[k]| && LastReal(levels[k], Power(order - 1 - k), Down(blocks, k))
    {
      TableAt(buf, start, order, blocks, order, k);
    }
  }

  /** The words of the 32-bit zone header. */
  const HEADER32_WORDS: nat := 18

  /** How many bytes a new map needs: one word more than its header, pointers and tables take. */
  method NewZoneMapSize(blocks: nat) returns (size: nat)
    ensures size == 4 + 4 * (HEADER32_WORDS + Order(blocks) + TableOffset(Order(blocks), Order(blocks)))
  {
    hide Power, TableOffset, TableInts, Order, MapInts;
    size := 4 * HEADER32_WORDS + 4;
    var order := CalcOrder(blocks);
    size := size + (16 + 4) * order;
    ghost var all := order;
    while order != 0
      invariant 0 <= order <= all
      invariant size + 4 * TableInts(order) == 4 * HEADER32_WORDS + 4 + 20 * all + 4 * TableInts(all)
    {
      order := order - 1;
      var bits := Power(order);
      TableIntsStep(order);
      size := size + MapInts(bits) * 4;
    }
    TableIntsStep(0);
    TablesTake(all, all);
    NextOffset0(all);
  }

  lemma TableIntsStep(n: nat)
    ensures TableInts(n + 1) == TableInts(n) + MapInts(Power(n)) && TableInts(0) == 0
  {
  }

  lemma NextOffset0(order: nat)
    ensures TableOffset(order, 0) == 0
  {
  }

  /** The tables not counted yet among the first i are the smaller ones. */
  lemma {:induction false} TablesTake(order: nat, i: nat)
    requires i <= order
    ensures TableOffset(order, i) == 4 * i + TableInts(order) - TableInts(order - i)
  {
    hide Power, MapInts;
    if i == 0 {
    } else {
      TablesTake(order, i - 1);
      TableIntsStep(order - i);
    }
  }

  /**
   * The header of a table against that of the bitmap that the Java program makes for the same level: bits,
   * count and words agree; the last set bit is recorded by the C program only, so it differs where it is not 0.
   */
  lemma HeadersAgree(table: seq<bv32>, b: Bitmap, nbits: nat, real_: nat)
    requires Table(table, nbits, real_) && MadeOne(b, nbits, real_) && real_ <= nbits < 0x1_0000_0000
    ensures table[0] == Word(b.blocks) && table[1] == Word(b.freeBlocks) && table[3] == Word(b.size)
    ensures table[2] == Word(b.last) <==> real_ % 2 == 0 || real_ == 1
  {
    hide LastReal, Word, Words, MapInts, Bitmap.Valid;
    SizeIs(b);
    WordsDiffer(if real_ % 2 == 1 then real_ - 1 else 0);
  }

  lemma SizeIs(b: Bitmap)
    requires b.Valid()
    ensures b.size == Words(b.blocks)
  {
  }

  lemma WordsDiffer(n: nat)
    requires n < 0x1_0000_0000
    ensures Word(n) == Word(0) <==> n == 0
  {
  }
}
