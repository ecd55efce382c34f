/** Which zones the boundary check accepts (Mfs.java), block by block. */
module ZoneBounds {
  import opened Wrappers
  import opened Views
  import opened Expansion

  /** No two extents that are not empty are one partition of one disk. */
  ghost predicate OwnPartitions(infos: seq<Info>) {
    forall i, j :: 0 <= i < j < |infos| ==> !SamePartition(infos[i], infos[j])
  }

  predicate SamePartition(a: Info, b: Info) {
    a.storage.Some? && a.storage == b.storage && a.partition == b.partition && a.logical.length > 0 && b.logical.length > 0
  }

  /** So many blocks from one on all lie in extent k, which is on a disk. */
  predicate Inside(infos: seq<Info>, k: nat, from: int, count: int) {
    k < |infos| && infos[k].storage.Some? && infos[k].logical.start <= from && from + count <= infos[k].logical.start + infos[k].logical.length
  }

  /** Descriptor and backup lie in one extent, the data in one, too, and it ends where it should. */
  ghost predicate Whole(infos: seq<Info>, z: Ranges) {
    && z.dataEnd == z.data + z.dataSize - 1
    && (exists k: nat :: Inside(infos, k, z.descriptor, z.descriptorSize) && Inside(infos, k, z.backup, z.descriptorSize))
    && exists k: nat :: Inside(infos, k, z.data, z.dataSize)
  }

  lemma Found(infos: seq<Info>, block: int) returns (k: nat)
    requires FindLogical(infos, block).Some?
    ensures k < |infos| && FindLogical(infos, block) == Some(infos[k]) && HasLogical(infos[k], block)
  {
    if HasLogical(infos[0], block) {
      k := 0;
    } else {
      k := Found(infos[1..], block);
      k := k + 1;
    }
  }

  /** Two blocks of one partition lie in one extent. */
  lemma OneExtent(infos: seq<Info>, a: int, b: int) returns (k: nat)
    requires OwnPartitions(infos) && SameDisk(infos, a, b) && PartitionOf(infos, a) == PartitionOf(infos, b)
    ensures k < |infos| && infos[k].storage.Some? && HasLogical(infos[k], a) && HasLogical(infos[k], b)
    ensures FindLogical(infos, a) == FindLogical(infos, b) == Some(infos[k])
  {
    hide FindLogical, OwnPartitions;
    k := Found(infos, a);
    var l := Found(infos, b);
    if k != l { NotSame(infos, k, l); }
  }

  lemma NotSame(infos: seq<Info>, k: nat, l: nat)
    requires OwnPartitions(infos) && k < |infos| && l < |infos| && k != l
    ensures !SamePartition(infos[k], infos[l])
  {
    assert SamePartition(infos[k], infos[l]) <==> SamePartition(infos[l], infos[k]);
  }

  /** With partitions of their own, the zones accepted are those whose parts each lie in one extent. */
  lemma AcceptedIff(infos: seq<Info>, z: Ranges)
    requires Tiled(infos, 1) && OwnPartitions(infos) && z.descriptorSize > 0 && z.dataSize > 0
    ensures Bounded(infos, z) <==> Whole(infos, z)
  {
    hide FindLogical, Tiled, OwnPartitions;
    if Bounded(infos, z) {
      var k := OneExtent(infos, z.descriptor, z.descriptor + z.descriptorSize - 1);
      var l := OneExtent(infos, z.descriptor, z.backup);
      var m := OneExtent(infos, z.backup, z.backup + z.descriptorSize - 1);
      var n := OneExtent(infos, z.data, z.dataEnd);
      assert Inside(infos, k, z.descriptor, z.descriptorSize) && Inside(infos, k, z.backup, z.descriptorSize);
      assert Inside(infos, n, z.data, z.dataSize);
    }
    if Whole(infos, z) {
      var k: nat :| Inside(infos, k, z.descriptor, z.descriptorSize) && Inside(infos, k, z.backup, z.descriptorSize);
      var n: nat :| Inside(infos, n, z.data, z.dataSize);
      OnlyExtent(infos, 1, k, z.descriptor);
      OnlyExtent(infos, 1, k, z.descriptor + z.descriptorSize - 1);
      OnlyExtent(infos, 1, k, z.backup);
      OnlyExtent(infos, 1, k, z.backup + z.descriptorSize - 1);
      OnlyExtent(infos, 1, n, z.data);
      OnlyExtent(infos, 1, n, z.dataEnd);
    }
  }

  /** From the first block of one extent to the first of another: accepted if they are the same partition. */
  lemma CrossingAccepted(infos: seq<Info>, i: nat, j: nat)
    requires Tiled(infos, 1) && i < j < |infos| && SamePartition(infos[i], infos[j])
    ensures var a, b := infos[i].logical.start, infos[j].logical.start;
            var z := Ranges(a, a, b - a + 1, a, b, b - a + 1);
            z.descriptorSize > 0 && z.dataSize > 0 && Bounded(infos, z) && !Whole(infos, z)
  {
    var a, b := infos[i].logical.start, infos[j].logical.start;
    InOrder(infos, i, j);
    hide Tiled, FindLogical, Size;
    OnlyExtent(infos, 1, i, a);
    OnlyExtent(infos, 1, j, b);
    var z := Ranges(a, a, b - a + 1, a, b, b - a + 1);
    forall k: nat ensures !Inside(infos, k, z.data, z.dataSize) {
      if k < |infos| { OneEach(infos, i, j, k, a, b); }
    }
  }

  lemma InOrder(infos: seq<Info>, i: nat, j: nat)
    requires Tiled(infos, 1) && i < j < |infos|
    ensures infos[i].logical.start + infos[i].logical.length <= infos[j].logical.start
  {
    hide Tiled;
    SizeStep(infos, 1, i);
    SizeStep(infos, 1, j);
    SizeGrows(infos, 1, i + 1, j);
  }

  /** No extent has blocks of two others. */
  lemma OneEach(infos: seq<Info>, i: nat, j: nat, k: nat, a: int, b: int)
    requires Tiled(infos, 1) && i < j < |infos| && k < |infos| && HasLogical(infos[i], a) && HasLogical(infos[j], b)
    ensures !(HasLogical(infos[k], a) && HasLogical(infos[k], b))
  {
    LogicalTiling(infos, 1, a);
    LogicalTiling(infos, 1, b);
  }

  /** The check keeps zones inside extents for all zones exactly when the extents are partitions of their own. */
  lemma ChecksWhole(infos: seq<Info>)
    requires Tiled(infos, 1)
    ensures OwnPartitions(infos) <==>
            forall z: Ranges :: z.descriptorSize > 0 && z.dataSize > 0 && Bounded(infos, z) ==> Whole(infos, z)
  {
    hide Tiled, Bounded, Whole;
    if OwnPartitions(infos) {
      forall z: Ranges | z.descriptorSize > 0 && z.dataSize > 0 && Bounded(infos, z) ensures Whole(infos, z) {
        AcceptedIff(infos, z);
      }
    } else {
      var i, j :| 0 <= i < j < |infos| && SamePartition(infos[i], infos[j]);
      CrossingAccepted(infos, i, j);
    }
  }
}
