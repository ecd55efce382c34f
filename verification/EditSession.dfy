/** Sessions of the partition map editor on the linked map (pdisk.c), and the validator run on it. */
module EditSession {
  import opened PartitionTable
  import opened PartitionMap
  import opened Validation
  import Ranges

  /** Carries one command out: the linked map stays valid and becomes the table that the command gives. */
  method Execute(m: PartitionMap, c: Command)
    requires m.Valid() && Legal(c)
    modifies m, m.nodes
    ensures m.Valid() && fresh(m.nodes - old(m.nodes))
    ensures m.State() == Apply(old(m.State()), c)
  {
    hide PartitionMap.Linked, PartitionMap.Numbered, PartitionMap.State, Inv, Settled, Core, AddOrSame, Delete, Move, Resize;
    m.ValidFacts();
    ApplyKeepsInv(m.State(), c);
    match c
    case Create(name, typeName, start, blocks) => var ok := m.AddPartition(name, Other(typeName), start, blocks);
    case Remove(number) => var found := m.DeletePartition(number);
    case Reorder(from, index) => m.MoveEntry(from, index);
    case SetMapSize(size) => m.ResizeMap(size);
  }

  /** A new map edited by any commands. */
  method Edit(mediaSize: nat, cs: seq<Command>) returns (m: PartitionMap)
    requires 2 <= mediaSize < 0x1_0000_0000 && AllLegal(cs)
    ensures fresh(m) && m.Valid() && m.State() == Run(mediaSize, cs)
  {
    hide PartitionMap.Valid, PartitionMap.State, Run, Apply, Legal;
    m := new PartitionMap(mediaSize);
    NoneRun(mediaSize, cs);
    var i := 0;
    while i < |cs|
      invariant 0 <= i <= |cs| && m.Valid() && fresh(m) && fresh(m.nodes)
      invariant m.State() == Run(mediaSize, cs[..i])
    {
      OneMoreRun(mediaSize, cs, i);
      Execute(m, cs[i]);
      i := i + 1;
    }
    assert cs[..i] == cs;
  }

  lemma NoneRun(mediaSize: nat, cs: seq<Command>)
    requires 2 <= mediaSize < 0x1_0000_0000
    ensures AllLegal(cs[..0]) && Run(mediaSize, cs[..0]) == Initialised(mediaSize)
  {
  }

  lemma OneMoreRun(mediaSize: nat, cs: seq<Command>, i: nat)
    requires 2 <= mediaSize < 0x1_0000_0000 && AllLegal(cs) && i < |cs|
    ensures AllLegal(cs[..i]) && AllLegal(cs[..i + 1]) && Legal(cs[i]) && Core(Run(mediaSize, cs[..i]))
    ensures Run(mediaSize, cs[..i + 1]) == Apply(Run(mediaSize, cs[..i]), cs[i])
  {
    assert cs[..i + 1][..i] == cs[..i];
  }

  /** The entries by their numbers. */
  method EntriesOf(m: PartitionMap) returns (entries: seq<Part>)
    requires m.Valid()
    ensures entries == m.State().disk
  {
    hide PartitionMap.Linked, PartitionMap.Numbered, Inv, Settled, Core;
    m.ValidFacts();
    entries := [];
    var i := 1;
    while i <= m.blocksInMap
      invariant 1 <= i <= m.blocksInMap + 1 && entries == m.State().disk[..i - 1]
    {
      var entry := m.FindEntryByDiskAddress(i);
      entries := entries + [entry.data];
      i := i + 1;
    }
  }

  /** The validator on a map that is being edited. */
  method Validate(m: PartitionMap, blockCount: nat) returns (okay: bool)
    requires m.Valid() && blockCount < Ranges.WORD
    ensures okay <==> blockCount == m.mediaSize
  {
    hide PartitionMap.Linked, PartitionMap.Numbered, Inv, Settled, Core;
    m.ValidFacts();
    ValidatorVerdict(m.State(), blockCount);
    var entries := EntriesOf(m);
    SmallEntries(m.State());
    okay := ValidateMap(blockCount, entries);
  }

  lemma SmallEntries(t: Table)
    requires Inv(t)
    ensures forall i :: 0 <= i < |t.disk| ==> t.disk[i].start < Ranges.WORD && t.disk[i].blocks < Ranges.WORD
  {
    TilesAreSorted(t.base, 1, t.mediaSize);
    forall i | 0 <= i < |t.disk| ensures t.disk[i].start < Ranges.WORD && t.disk[i].blocks < Ranges.WORD {
      InBase(t, i);
    }
  }

  /** Whatever commands a new map has been edited by, the validator accepts it exactly for its medium. */
  method EditAndValidate(mediaSize: nat, cs: seq<Command>, blockCount: nat) returns (okay: bool)
    requires 2 <= mediaSize < 0x1_0000_0000 && AllLegal(cs) && blockCount < Ranges.WORD
    ensures okay <==> blockCount == mediaSize
  {
    var m := Edit(mediaSize, cs);
    okay := Validate(m, blockCount);
  }
}
