# TiVo disk tools, verified

A Dafny model of the three TiVo disk tools that live in this repository, with proofs of what their
allocators, interval structures, address translations and formats promise:

* **tivopart** (`tivopart_20040530`), the partition-map editor, its validator, and the media it reads
  and writes through;
* **mfstools** (`mfstools_1.4`), which backs up, restores and expands MFS file systems;
* **jmfs**, the Java expander.

Code that changes things step by step is modelled that way: the linked lists of the map editor, of the
validator and of the backup, the word arrays of the free-chunk bitmap, the partition array of a drive,
the deblocking buffer and the stream cursors are classes and arrays whose methods are proved against
functions on values. The theorems about runs, round trips and conservation are lemmas about those
functions. A device is its bytes or sectors; nothing else of the outside world is modelled.

## How the files belong together

| topic | files |
|---|---|
| partition map editor: tables, the linked lists that hold them, what commands promise | `PartitionTable`, `PartitionMap`, `PartitionFacts`, `MapCommands` |
| validator: range list, verdict, and the theorem that edited maps are okay | `Ranges`, `Validation`, `EditSession` |
| free-chunk bitmap: words, one level, two levels, all levels, zones, the C form | `BitWords`, `Bitmaps`, `BitmapFacts`, `ZoneLevels`, `Zones`, `ZoneMap` |
| zone descriptors as bytes | `ByteOrder`, `Crc`, `CrcTable`, `ZoneFormat`, `ZoneStreams`, `ZoneImages` |
| address translation | `Views` |
| expansion | `ZoneSizes`, `Expansion`, `ZoneBounds` |
| backup block lists | `BlockMarks`, `BlockOverlaps`, `BackupList`, `BackupBlocks`, `BackupLists` |
| data phase of backup and restore | `Stream`, `Streaming` |
| placing partitions on two drives, and the table of a drive | `TwoDrives`, `MacTable`, `MacPart`, `MacBuild`, `DriveTables` |
| media and deblocking | `Media`, `Deblock` |
| volumes and inodes | `Volumes`, `InodeLookup`, `InodeData` |
| transaction log: the ring, its sectors, and the walk that edits its records | `LogRing`, `TransactionLog`, `LogEdits`, `LogRecords`, `LogFudge`, `LogUpdates`, `LogWalk` |
| helpers | `Arithmetic`, `Nodes`, `Wrappers` |

## Main results

* Any run of editing commands keeps the partition map a tiling without adjacent free space, numbered
  1 to n and within its size (`PartitionTable.Run`), on the real pointer structure
  (`PartitionMap.PartitionMap`), and the validator, proved separately to decide "each block on the disk
  claimed once and no other" (`Validation.ValidateMap`), accepts the result (`Validation.EditedMapsAreOkay`,
  `EditSession.EditAndValidate`).
  Deleting undoes creating (`PartitionFacts.DeleteUndoesCreate`). What each command does, said by numbers,
  sizes and order, holds for every table: when a partition can be created (`MapCommands.CreatedIff`), when the
  map gets the size asked for (`MapCommands.ResizedIff`), and that the others keep their order
  (`MapCommands.CreatedOrder`, `MapCommands.DeletedOrder`, `MapCommands.MovedOrder`).
* The levels of a new zone stand for exactly its chunks, each under exactly one bit
  (`ZoneLevels.NewZoneIsFree`, `ZoneLevels.NewCoversDisjoint`), in the Java and in the C program
  (`ZoneMap.SameLevels`). A block of a zone is free if and only if some bitmap covers its chunk, which in a new
  zone are the blocks of its data (`Zones.Zone64.IsBlockFree`). Collapsing a level keeps the free chunks always, and the counts and the way
  back exactly when the upper level had nothing of its own (`BitmapFacts.CollapseConserves`,
  `BitmapFacts.ExpandUndoesCollapse`).
* A new zone fills its descriptor exactly, checks, and reads back as itself (`ZoneImages.WriteNew`); any
  change of up to four consecutive bytes shows in the checksum (`Crc.ChangeShows`).
* The backup block array covers exactly the blocks added, for any disjoint blocks in any order
  (`BackupBlocks.BackupArray`), on linked lists from the first block to the array (`BackupLists.BackupAll`);
  restoring what backup reads puts every sector back, for any two
  independent ways to cut the stream (`Streaming.Transfer`).
* The two-drive search is complete and optimal: no allowed split puts more sectors on the first drive, or,
  balancing, leaves a number there that is nearer to its half (`TwoDrives.FindBest`). And the table of a drive is built
  by number whatever the order of the list (`MacBuild.Build`): from the search to both tables, every
  partition ends up under its number with its size (`DriveTables.RestoreDrives`). Whatever is added while others are open, an
  open partition keeps its number and place (`MacBuild.OpenStays`).
* The deblocking layer is a flat array of bytes for any run of transfers, and a failed write leaves
  exactly a beginning of its range written (`Deblock.Run`, `Deblock.Layer.Write`).
* Translations through the views come back to where they started (`Views.ThroughBothViews`), and both
  programs agree on where an inode is (`Views.SameSector`).
* The expansion's sizes are found for every disk, with the most chunks on every drive of less than 2^32 free
  blocks (`ZoneSizes.MostOnDrive`), and the zone built from them passes the boundary check (`Expansion.Add`).
* Inode lookup ends within the table (`InodeLookup.ReadByFsid`), reading an inode gives the sectors
  asked for, of its extents end to end or of itself (`InodeData.ReadDataPart`).
* The walk that edits the transaction log stops within it, keeps every stamp, and leaves exactly the records
  of a run on values (`LogWalk.Walk`), whose buffers hold the stream of all entries edited, across the
  borders of records (`LogEdits.RunEdits`). What a shrinking restore makes of an entry is such an edit
  (`LogFudge.FudgeShortens`): afterwards the log has exactly the map updates that are on the volumes, and of a
  stream's inode the blocks that are (`LogUpdates.StreamBlocks`, `LogWalk.FudgeTransactions`).

## Where the code does less than its description

Where a promise is broken, a lemma gives an input that shows it and another says exactly when the code
does what is wanted.

* `collapseFreeBitsTo` (`Bitmap.java:210-234`) restarts the upper counter from zero but keeps the upper
  bits: the count and the way back fail if and only if the upper level had a bit that the collapse does
  not set (`BitmapFacts.UnclearedTarget`, `BitmapFacts.CollapseConserves`).
* `expandFreeBitsTo` (`Bitmap.java:204-208`) refuses levels of one to three blocks although they would
  fit, because the sizes in words that it compares are rounded (`Bitmaps.Bitmap.ExpandFreeBitsTo`).
* `move_entry_in_map` puts an entry just before the one that had the number asked for. `pdisk.html:367`
  speaks of the desired new index, which the entry gets if and only if it does not move up past others
  (`PartitionFacts.MovedNumber`); asked to move up by one it does not move.
* `addStorage` (`ContinuousLogicalView.java:43-54`) compares end blocks only: an extent that strictly
  contains another one is accepted, and only such a one (`Views.SwallowedExtent`, `Views.AddedStaysSeparate`).
* `backup_add_block` can lose sectors of a block that overlaps others (`BlockOverlaps.OverlapLoses`). It gives
  all of the block and keeps the others if and only if the block ends no later than the blocks that follow
  each other from the next start on, or begins in or right after a block, ends behind it, and inside no later
  one (`BlockOverlaps.ExtendsIff`). Inode extents and whole volumes do not overlap (`BlockMarks.AddedKeeps`).
* `tivo_partition_add` without a place puts an entry before the free space at the end of the table
  (`macpart.c:706-710`). Free space that is in use, with only free space behind it, gets another number
  (`MacTable.FreeInUseMoved`); the entries below the first movable one keep theirs if and only if there is
  none in use, or a place inside the table is given, or some entry from the last one in use on is not free
  (`MacTable.PrefixKept`). In tables built from a new one they always do (`MacBuild.StepKeepsNumbers`), as
  nothing can be added while the free space is open (`MacBuild.OpenFreeBlocks`).
* `mfs_read_inode_by_fsid` stops at the first slot with the id even if that slot is no longer in use, and
  then finds nothing (`InodeLookup.StaleSlotHides`); it finds every inode in use if and only if no slot on
  the way to one is unchained or holds the same id (`InodeLookup.FoundIffKept`).
* The last `lognsectors` log records are not all retained when their stamps wrap past 2^32, unless the
  length divides 2^32 (`LogRing.LostAcrossZero`, `LogRing.WindowReadable`).
* `restore_fudge_transactions` edits the entry that spans two records in both buffers, but does not write the
  first one when the entry still reaches into the second (`restore.c:1552-1556`). An inode update of 86 bytes,
  10 of them in the first record, that loses its only block is an example: the stored length is the old one
  (`LogFudge.StaleLength`). The log holds the edited entries if and only if no entry over two records gets
  shorter without ending in the first (`LogEdits.StoredEdits`, `LogWalk.FudgeTransactions`).
* `restore_next_sectors` sets the MFS volumes up again on every further call that is given sectors at the end
  of a stream that has no MFS blocks (`Streaming.WriteAtEnd`). In a transfer they are set up once, at the
  first MFS sector, or never if there is none (`Streaming.Transfer`).
* The comment on `calcSizes` calls its result optimal (`MfsAdd.java:131`). With chunks of one block and 525313
  free ones it finds 523265 although 524288 fit (`ZoneSizes.FewerFound`). There is a better
  size if and only if its second step takes off descriptors that one chunk more would not need, that chunk
  fits beside the smaller ones, and no third step follows (`ZoneSizes.MostChunksIff`); with the chunks that
  jmfs uses that never happens on drives of less than 2^32 free blocks (`ZoneSizes.MostOnDrive`).
* `validateZoneBoundary` (`Mfs.java:383-435`) compares disks and partition numbers. It keeps every zone inside
  extents if and only if no two extents are one partition of one disk (`ZoneBounds.ChecksWhole`,
  `ZoneBounds.CrossingAccepted`).
* Only the C program records the last bit it sets in the header of a bitmap, so the headers of a new zone differ
  from those of the Java program if and only if a level's number of chunks is odd and greater than 1
  (`ZoneMap.HeadersAgree`).

## Model

Paths are relative to the root of the repository.

| member | source | states |
|---|---|---|
| `PartitionTable.Run` | tivopart_20040530/src/partition_map.c:614-1255 | After any run of create, delete, move and resize commands on a freshly initialised map: the two orders hold the same entries, the entries tile [1, media size) exactly in base order, no two neighbours are both free, and the number of entries never exceeds the size of the map entry |
| `PartitionTable.InitialisedInv` | tivopart_20040530/src/partition_map.c:411-612 | A freshly initialised map of any medium from 2 blocks on satisfies that invariant, even where the map entry itself does not fit |
| `PartitionTable.AddKeepsSettled` | tivopart_20040530/src/partition_map.c:614-711 | Creating keeps the tiling, the merged free space and the agreement of both orders, and stays within the map's limit |
| `PartitionTable.TilesReplace` | tivopart_20040530/src/partition_map.c:645-705 | Replacing a run of a tiling by a tiling of its range gives a tiling |
| `PartitionTable.FreeUpBase` | tivopart_20040530/src/partition_map.c:892-1026 | In base order, freeing an entry replaces it and its free neighbours by one free entry and changes nothing else |
| `PartitionTable.MoveKeepsInv` | tivopart_20040530/src/partition_map.c:1088-1160 | Moving an entry keeps the invariant |
| `PartitionTable.ResizeResult` | tivopart_20040530/src/partition_map.c:1198-1255 | Once its checks pass a resize always succeeds: the map entry has the new size, starts at block 1, and the invariant holds |
| `PartitionTable.NegativeRefused` | tivopart_20040530/src/partition_map.c:1213-1246 | A negative size is refused, and so is the 32-bit number it stands for on media of up to 2^31 blocks |
| `PartitionTable.ApplyKeepsInv` | tivopart_20040530/src/partition_map.c:614-1255 | Each command keeps the invariant and the medium size |
| `PartitionMap.PartitionMap.constructor` | tivopart_20040530/src/partition_map.c:411-612 | The linked structure of a new map, with its entry of its own, is the table that initialisation gives |
| `PartitionMap.PartitionMap.AddPartition` | tivopart_20040530/src/partition_map.c:614-711 | On the two linked lists, creation succeeds exactly when the table's does, and leaves exactly the table's result |
| `PartitionMap.PartitionMap.Plan` | tivopart_20040530/src/partition_map.c:645-669 | Whether the free entry is replaced, cut or split, and that what is left of it lies before or after the new entry |
| `PartitionMap.PartitionMap.Insert` | tivopart_20040530/src/partition_map.c:685-705 | The pieces go into both lists at the places their starts and numbers ask for |
| `PartitionMap.PartitionMap.AddDataToMap` | tivopart_20040530/src/partition_map.c:376-408 | A new entry goes into both lists at its places, and the first map entry sets the limit |
| `PartitionMap.PartitionMap.RemoveFromDiskOrder` | tivopart_20040530/src/partition_map.c:1106-1126 | The entry, and only it, leaves the disk-order list, whose links stay a list |
| `PartitionMap.PartitionMap.InsertInDiskOrder` | tivopart_20040530/src/partition_map.c:1128-1160 | The entry goes before the first one with its number or a larger one |
| `PartitionMap.PartitionMap.InsertInBaseOrder` | tivopart_20040530/src/partition_map.c:1162-1196 | The entry goes before the first one that starts at its start or later |
| `PartitionMap.PartitionMap.RenumberDiskAddresses` | tivopart_20040530/src/partition_map.c:748-763 | Numbers are 1 to n along the disk-order list, and every entry records n |
| `PartitionMap.PartitionMap.DeleteEntry` | tivopart_20040530/src/partition_map.c:1028-1053 | The entry leaves both lists and the count falls by one |
| `PartitionMap.PartitionMap.AbsorbEntry` | tivopart_20040530/src/partition_map.c:977-1023 | A free entry takes over the blocks of a free neighbour, which leaves both lists |
| `PartitionMap.PartitionMap.CombineEntry` | tivopart_20040530/src/partition_map.c:967-1026 | Merging with the next and then the previous free entry, exactly as in the table |
| `PartitionMap.PartitionMap.DeletePartition` | tivopart_20040530/src/partition_map.c:892-926 | Deletion by number is the table's, and says whether there was such an entry |
| `PartitionMap.PartitionMap.FindEntryByDiskAddress` | tivopart_20040530/src/partition_map.c:1056-1070 | The entry with a number is the one at that place of the disk-order list, or none |
| `PartitionMap.PartitionMap.MoveEntry` | tivopart_20040530/src/partition_map.c:1088-1104 | Moving on the linked list is the table's move |
| `PartitionMap.PartitionMap.ResizeMap` | tivopart_20040530/src/partition_map.c:1198-1255 | Resizing the linked map is the table's resize, which `MapCommands.ResizedIff` says all about, with every refusal and every resize that goes through |
| `PartitionFacts.CreateAddsOne` | tivopart_20040530/src/partition_map.c:614-711 | Creating adds that partition and leaves every other allocated entry, with its multiplicity, as it was |
| `PartitionFacts.DeleteRemovesOne` | tivopart_20040530/src/partition_map.c:892-1026 | Deleting removes that entry and leaves every other allocated entry as it was |
| `PartitionFacts.MovedNumber` | tivopart_20040530/src/partition_map.c:1088-1160 | The moved entry gets the number asked for if and only if it does not move up past others; moved up it ends one short |
| `PartitionFacts.MoveUpByOneIsIdle` | tivopart_20040530/src/partition_map.c:1088-1160 | Asked to move up by one, an entry stays where it is |
| `PartitionFacts.CreatedNumber` | tivopart_20040530/src/partition_map.c:614-711 | The new partition can be found by its start, with exactly the data asked for |
| `PartitionFacts.DeleteUndoesCreate` | tivopart_20040530/src/partition_map.c:614-1026 | Deleting a partition right after creating it gives back the very same table, numbers and free space included |
| `MapCommands.InitialisedIs` | tivopart_20040530/src/partition_map.c:411-612 | The table of a new map, entry by entry: the map of 2 or 63 blocks and the free space behind it; of 3 blocks only the map, of 2 only free space |
| `MapCommands.CreatedIff` | tivopart_20040530/src/partition_map.c:614-711 | A partition can be created if and only if one free entry has all its blocks and the map has room for the entries there are then |
| `MapCommands.CreatedOrder` | tivopart_20040530/src/partition_map.c:614-711 | It takes the number of that free entry, or the next one when free space is left before it, and the other partitions keep their order |
| `MapCommands.DeletedOrder` | tivopart_20040530/src/partition_map.c:892-1026 | Deleting takes out the partition with the number and leaves the others in their order; the map's own entry and numbers that are not there change nothing |
| `MapCommands.MovedOrder` | tivopart_20040530/src/partition_map.c:1088-1160 | A move puts the entry at a place given by the two numbers, and all others, taken without it, stay the same sequence |
| `MapCommands.ResizedIff` | tivopart_20040530/src/partition_map.c:1198-1255 | The map has the size asked for afterwards if and only if it had it, or it is smaller and numbers are left for all entries, one more included if no free space follows, or free space follows and both together have the size; otherwise nothing changes |
| `MapCommands.ResizedOrder` | tivopart_20040530/src/partition_map.c:1198-1255 | The partitions other than the map keep their order |
| `Ranges.RangeList.AddRange` | tivopart_20040530/src/validate.c:195-270 | The list of nodes, split and relabelled in place, stays a gap-free sorted tiling of all 32-bit blocks, and exactly the blocks of the range get their next mark; empty and overflowing ranges change nothing |
| `Ranges.RangeList.TouchRange` | tivopart_20040530/src/validate.c:215-262 | One node is cut to the part inside the range and marked, and the others keep their meaning |
| `Ranges.RangeList.Coalesce` | tivopart_20040530/src/validate.c:272-296 | Every block keeps its mark, and no two neighbouring nodes say the same |
| `Ranges.RangeList.Verdict` | tivopart_20040530/src/validate.c:298-347 | Okay is printed exactly when every block on the disk is claimed once and no other block is |
| `Ranges.GoodEverywhere` | tivopart_20040530/src/validate.c:298-347 | Looking at the nodes is looking at every block |
| `Validation.MarksCount` | tivopart_20040530/src/validate.c:195-270 | After any ranges in any order a block is none, one or many according to how many allocating ranges contain it |
| `Validation.OkayMeans` | tivopart_20040530/src/validate.c:298-347 | The list is fine if and only if each block on the disk is claimed once and no other is |
| `Validation.ValidateMap` | tivopart_20040530/src/validate.c:350-487 | The whole validation says okay exactly for such ranges |
| `Validation.TableClaims` | tivopart_20040530/src/validate.c:403-468 | In an edited table each block of [1, media size) is claimed once and every other not at all |
| `Validation.ValidatorVerdict` | tivopart_20040530/src/validate.c:350-487 | For any table that satisfies the editor's invariant the verdict is okay exactly when block zero records the size the map was made for |
| `Validation.EditedMapsAreOkay` | tivopart_20040530/src/validate.c:350-487 | After any run of editing commands the validator says okay, if and only if block zero has the medium's size |
| `EditSession.Execute` | tivopart_20040530/src/pdisk.c:578-596 | Each command, carried out on the linked map, leaves it linked, numbered and with its invariant, as the table the command gives |
| `EditSession.Edit` | tivopart_20040530/src/pdisk.c:525-618 | Any commands, one after the other on a new linked map, leave the table of the run |
| `EditSession.EntriesOf` | tivopart_20040530/src/validate.c:128-152 | Looking entries up by their numbers gives the table in its order |
| `EditSession.EditAndValidate` | tivopart_20040530/src/validate.c:350-487 | Edit a new linked map by any commands, validate its entries: okay if and only if block zero has the medium's size |
| `BitWords.NextMask` | jmfs/source/src/tivo/zone/Bitmap.java:54-57 | Shifting a mask down gives the next bit's mask, and zero exactly after the last one |
| `BitWords.PairBits` | jmfs/source/src/tivo/zone/Bitmap.java:163-234 | A word covers a pair mask when both bits are set and meets it when one is |
| `BitWords.PopOneMore` | jmfs/source/src/tivo/zone/Bitmap.java:79-108 | Arrays that differ in one bit differ by one in their counts |
| `Bitmaps.Bitmap.constructor` | jmfs/source/src/tivo/zone/Bitmap.java:254-266 | A new level has all bits clear but the last real one when their number is odd, and counts just that |
| `Bitmaps.Bitmap.SetBit` | jmfs/source/src/tivo/zone/Bitmap.java:79-92 | Sets that bit only, and the counter follows the number of set bits |
| `Bitmaps.Bitmap.UnsetBit` | jmfs/source/src/tivo/zone/Bitmap.java:94-107 | Clears that bit only, and the counter follows |
| `Bitmaps.Bitmap.SetBitRange` | jmfs/source/src/tivo/zone/Bitmap.java:110-135 | Sets exactly the bits between both ends, cut off at the last word, and the counter follows |
| `Bitmaps.Bitmap.UnsetBitRange` | jmfs/source/src/tivo/zone/Bitmap.java:137-161 | The same for clearing |
| `Bitmaps.Bitmap.ExpandFreeBits` | jmfs/source/src/tivo/zone/Bitmap.java:163-196 | Sets exactly both bits of each pair under a set bit, returns the growth of the number of set bits, and fails exactly when the output is too short |
| `Bitmaps.Bitmap.ExpandFreeBitsTo` | jmfs/source/src/tivo/zone/Bitmap.java:198-208 | Fills the next lower level, whose counter follows; refuses other sizes, and levels of one to three blocks |
| `Bitmaps.Bitmap.CollapseInt` | jmfs/source/src/tivo/zone/Bitmap.java:210-234 | The pairs of one word, with both running masks and indices |
| `Bitmaps.Bitmap.CollapseFreeBitsTo` | jmfs/source/src/tivo/zone/Bitmap.java:210-234 | Moves exactly the full pairs one level up; the lower counter loses two for each, the upper one counts them from zero; refuses other sizes without a change |
| `BitmapFacts.CollapseKeepsFree` | jmfs/source/src/tivo/zone/Bitmap.java:210-234 | Collapsing neither frees nor uses any chunk |
| `BitmapFacts.CollapseLeavesNoPair` | jmfs/source/src/tivo/zone/Bitmap.java:210-234 | No sibling pair is left in the lower level |
| `BitmapFacts.CollapseConserves` | jmfs/source/src/tivo/zone/Bitmap.java:210-234 | The upper counter is right, and lower + 2 * upper is conserved, if and only if the upper level had no bit of its own beyond those it gets; a cleared one has none |
| `BitmapFacts.ExpandUndoesCollapse` | jmfs/source/src/tivo/zone/Bitmap.java:163-234 | Expanding restores the original bits under the same condition, and only then |
| `BitmapFacts.UnclearedTarget` | jmfs/source/src/tivo/zone/Bitmap.java:210-234 | A level pair for which both fail |
| `ZoneLevels.NewZoneIsFree` | jmfs/source/src/tivo/zone/Zone64.java:182-194 | For every number of chunks the levels of a new zone stand for exactly chunks 0 to R - 1 |
| `ZoneLevels.NewCoversDisjoint` | jmfs/source/src/tivo/zone/Zone64.java:182-194 | Each free chunk lies under exactly one set bit of one level |
| `Zones.UnpackStep` | jmfs/source/src/tivo/zone/Zone.java:371-395 | Expanding what is free from one level up into a copy of a level gives what is free from that level |
| `Zones.UnpackBitmaps` | jmfs/source/src/tivo/zone/Zone.java:371-395 | The unpacked map says of each chunk whether some level has it free |
| `Zones.CalcOrder` | jmfs/source/src/tivo/zone/Zone64.java:147-160 | The number of levels of the local loop is the order |
| `Zones.OrderIs` | jmfs/source/src/tivo/zone/Zone64.java:147-160 | The order is the only number of levels that is enough and not more than needed |
| `Zones.CalculateDescriptorSize` | jmfs/source/src/tivo/zone/Zone64.java:162-180 | The size of the loop over the levels, rounded up to blocks |
| `Zones.EstimateIsSize` | jmfs/source/src/tivo/zone/Zone64.java:162-180 | The estimate for a bitmap is what a bitmap really takes, one word more than needed from eight blocks on |
| `Zones.CreateBitmaps` | jmfs/source/src/tivo/zone/Zone64.java:182-194 | One bitmap a level, each half as long, each with its last odd chunk marked and counted |
| `Zones.Zone64.constructor` | jmfs/source/src/tivo/zone/Zone64.java:110-134 | A new zone whose fields, bitmaps and pointers fit together, with exactly the whole chunks of its data |
| `Zones.Zone64.Parts` | jmfs/source/src/tivo/zone/Zone64.java:110-206 | Levels, size, bitmaps and pointers for a number of chunks: they are the levels of a new zone and count all its chunks |
| `Zones.Zone64.CreateInts` | jmfs/source/src/tivo/zone/Zone64.java:196-206 | Each pointer is the first one plus the bytes of the bitmaps before it |
| `Zones.Zone64.IsBlockFree` | jmfs/source/src/tivo/zone/Zone.java:290-311 | True if and only if the block is in the data range and some bitmap has the bit set that covers its chunk, with or without the cached map; in a new zone that is every block of the data range and no other |
| `Zones.Zone64.NewChunks` | jmfs/source/src/tivo/zone/Zone64.java:182-194 | Of a new zone the bitmaps cover exactly the chunks of its data |
| `Zones.Zone64.ChunkIs` | jmfs/source/src/tivo/zone/Zone.java:371-395 | A chunk is free in a zone if and only if unpacking its levels says so |
| `Zones.NewFreeChunks` | jmfs/source/src/tivo/zone/Zone64.java:182-194 | The counters weighted by what a bit covers add up to the number of chunks |
| `ZoneMap.FillBits` | mfstools_1.4/source/MFSTools-snapshot050221/lib/zonemap.c:231-269 | The C loop for one table marks the last odd chunk and nothing else |
| `ZoneMap.FillTable` | mfstools_1.4/source/MFSTools-snapshot050221/lib/zonemap.c:231-269 | One table: header and bits, and nothing before it changed |
| `ZoneMap.FillBitmaps` | mfstools_1.4/source/MFSTools-snapshot050221/lib/zonemap.c:225-275 | All tables and the pointers to them |
| `ZoneMap.SameLevels` | mfstools_1.4/source/MFSTools-snapshot050221/lib/zonemap.c:231-269 | The bits the C program sets are the levels of a new zone, so both programs free the same chunks |
| `ZoneMap.HeadersAgree` | mfstools_1.4/source/MFSTools-snapshot050221/lib/zonemap.c:231-269 | The headers of the C and the Java program have the same size, free count and words; the last bit set, which only the C program records, differs if and only if the number of chunks is odd and not 1 |
| `ZoneMap.NewZoneMapSize` | mfstools_1.4/source/MFSTools-snapshot050221/lib/zonemap.c:106-136 | The size asked for a new map is one word more than it takes |
| `Views.ContinuousLogicalView.AddStorage` | jmfs/source/src/tivo/view/ContinuousLogicalView.java:38-54 | Appends the extent at the end of the view; refused exactly when one of its end blocks is in an extent of the storage |
| `Views.ContinuousLogicalView.GetLogical` | jmfs/source/src/tivo/view/ContinuousLogicalView.java:57-64 | The first extent with the logical block |
| `Views.ContinuousLogicalView.GetPhysical` | jmfs/source/src/tivo/view/ContinuousLogicalView.java:66-76 | The first extent of the storage with the physical block |
| `Views.LogicalTiling` | jmfs/source/src/tivo/view/ContinuousLogicalView.java:34-64 | Logical extents tile [0, size): a translation exists exactly inside, from exactly one extent |
| `Views.PhysicalAndBack` | jmfs/source/src/tivo/view/AbstractView.java:27-59 | Every physical block of a logical one, so both sectors of an inode, maps back to it when extents do not overlap and are whole |
| `Views.LogicalAndBack` | jmfs/source/src/tivo/view/AbstractView.java:27-59 | A physical block goes to the logical block it is part of, whose first block comes back |
| `Views.AddedStaysSeparate` | jmfs/source/src/tivo/view/ContinuousLogicalView.java:43-54 | An accepted extent keeps the view free of overlap if and only if it does not strictly contain another one |
| `Views.RefusedOverlaps` | jmfs/source/src/tivo/view/ContinuousLogicalView.java:43-54 | A refused extent does overlap one |
| `Views.SwallowedExtent` | jmfs/source/src/tivo/view/ContinuousLogicalView.java:43-54 | An accepted extent after which a logical block comes back as another one |
| `Views.ThroughBothViews` | jmfs/source/src/tivo/view/DataView.java:27-49 | Through the inode view over the MFS view a block comes back to itself from each of its sectors |
| `Views.InodeToSector` | mfstools_1.4/source/MFSTools-snapshot050221/lib/zonemap.c:72-101 | The C loop gives the first sector of an inode, and zero for one past the end |
| `Views.SameSector` | jmfs/source/src/tivo/view/InodeView.java:31-57 | With zones of even size both programs count the same inodes and put each at the same MFS sector |
| `ZoneSizes.CalcSizes` | jmfs/source/src/jmfs/MfsAdd.java:125-179 | Ends for every free size and chunk size; fails exactly when one chunk with its descriptors does not fit; otherwise the sizes fit and are those of the second or third step |
| `ZoneSizes.MostChunksIff` | jmfs/source/src/jmfs/MfsAdd.java:131-179 | For any chunk size and free space: no size that fits has room for more chunks than the one found, unless its second step takes off descriptors that one chunk more would not need, that chunk fits beside the smaller ones, and no third step follows; and then there is one |
| `ZoneSizes.FewerFound` | jmfs/source/src/jmfs/MfsAdd.java:131-179 | A free size on which fewer chunks are found than fit |
| `ZoneSizes.MostOfFew` | jmfs/source/src/jmfs/MfsAdd.java:131-179 | With free space for fewer than 524289 chunks the most are always found |
| `ZoneSizes.MostOnDrive` | jmfs/source/src/jmfs/MfsAdd.java:289-299 | So with the chunk size that jmfs uses, on any drive of less than 2^32 free blocks |
| `ZoneSizes.PartitionMonotone` | jmfs/source/src/jmfs/MfsAdd.java:125-179 | Less data never needs a larger descriptor |
| `ZoneSizes.ShrunkFits` | jmfs/source/src/jmfs/MfsAdd.java:125-179 | Taking off the descriptor of a size that does not fit gives one that does, so the loop ends |
| `Expansion.ValidateZoneBoundary` | jmfs/source/src/tivo/Mfs.java:383-435 | Accepts exactly the zones whose descriptor and backup lie on one partition, whose data lies on one, and whose sizes agree |
| `Expansion.PlacedIsBounded` | jmfs/source/src/tivo/Mfs.java:383-435 | A zone placed inside the last extent is accepted |
| `ZoneBounds.AcceptedIff` | jmfs/source/src/tivo/Mfs.java:383-435 | When no two extents are one partition of one disk, exactly the zones are accepted whose descriptor and backup lie inside one extent, block by block, and whose data does |
| `ZoneBounds.CrossingAccepted` | jmfs/source/src/tivo/Mfs.java:410-435 | When two are, a zone that reaches from one into the other is accepted |
| `ZoneBounds.ChecksWhole` | jmfs/source/src/tivo/Mfs.java:383-435 | So the check keeps every zone inside extents if and only if no two extents are one partition of one disk |
| `Expansion.SizesArePlaced` | jmfs/source/src/jmfs/MfsAdd.java:125-179 | With a chunk size that is a multiple of 1024, the descriptor, backup and data ranges are disjoint inside the new extent: descriptor and backup at its beginning, the data from the next multiple of 1024 on, and no room for one more chunk |
| `Expansion.AddZone` | jmfs/source/src/jmfs/MfsAdd.java:92-123 | The zone built for the sizes has these ranges and passes its check |
| `Expansion.Add` | jmfs/source/src/jmfs/MfsAdd.java:289-299 | The whole expansion: the view grows by one extent of exactly the sizes found, rounded down, the zone lies in it and is bounded; it fails if and only if a chunk does not fit or an end block of that extent is taken, and then changes nothing |
| `Crc.UpdateIsSteps` | mfstools_1.4/source/MFSTools-snapshot050221/lib/crc.c:65-66 | The table step is eight steps of the reflected division |
| `CrcTable.Entries0` | mfstools_1.4/source/MFSTools-snapshot050221/lib/crc.c:32-39 | The first 64 entries of the table are what eight steps make of their indexes |
| `CrcTable.Entries64` | mfstools_1.4/source/MFSTools-snapshot050221/lib/crc.c:40-47 | The next 64 |
| `CrcTable.Entries128` | mfstools_1.4/source/MFSTools-snapshot050221/lib/crc.c:48-55 | The next 64 |
| `CrcTable.Entries192` | mfstools_1.4/source/MFSTools-snapshot050221/lib/crc.c:56-63 | The last 64 |
| `Crc.FoldInjective` | mfstools_1.4/source/MFSTools-snapshot050221/lib/crc.c:66-94 | Equal bytes from different states end in different states |
| `Crc.FoldWord` | mfstools_1.4/source/MFSTools-snapshot050221/lib/crc.c:66-94 | Up to four bytes go in like one word |
| `Crc.BurstShows` | mfstools_1.4/source/MFSTools-snapshot050221/lib/crc.c:66-94 | Bytes that differ within four consecutive places have different checksums |
| `Crc.StoredIgnored` | mfstools_1.4/source/MFSTools-snapshot050221/lib/crc.c:68-94 | The stored checksum does not matter |
| `Crc.UpdateThenCheck` | mfstools_1.4/source/MFSTools-snapshot050221/lib/crc.c:96-111 | Storing a buffer's checksum makes it check |
| `Crc.ChangeShows` | mfstools_1.4/source/MFSTools-snapshot050221/lib/crc.c:66-111 | Buffers of equal length that differ outside the field, within four consecutive bytes, never have the same checksum |
| `Crc.ComputeCrc` | mfstools_1.4/source/MFSTools-snapshot050221/lib/crc.c:68-94 | The form that counts down to the field, with 32-bit wrap-around of its counter |
| `Crc.CheckCrc` | mfstools_1.4/source/MFSTools-snapshot050221/lib/crc.c:96-103 | Checking compares the stored word with that checksum |
| `Crc.UpdateCrc` | mfstools_1.4/source/MFSTools-snapshot050221/lib/crc.c:105-111 | Updating makes the buffer check and changes only the field |
| `Crc.CalculateCrc` | jmfs/source/src/tivo/io/Utils.java:158-166 | The Java form of prefix, pattern and suffix gives the same checksum |
| `ZoneFormat.ZoneBack` | jmfs/source/src/tivo/zone/Zone64.java:52-107 | Parsing the bytes of a zone gives it back, its padding as what follows the bitmaps |
| `ZoneFormat.StampedBytes` | jmfs/source/src/tivo/zone/Zone64.java:82-107 | The checksum only shows in its own four bytes |
| `ZoneFormat.WrittenChecks` | jmfs/source/src/tivo/io/Utils.java:230-252 | What the second pass writes has a valid checksum |
| `ZoneFormat.LongOffsets` | jmfs/source/src/tivo/zone/Zone64.java:82-107 | At which byte of a written zone each of its 64-bit fields lies |
| `ZoneFormat.WordOffsets` | jmfs/source/src/tivo/zone/Zone64.java:82-107 | And each of its 32-bit fields |
| `ZoneFormat.MapOffsets` | jmfs/source/src/tivo/zone/Bitmap.java:364-372 | And each field and word of a written bitmap |
| `ZoneStreams.WriteZone` | jmfs/source/src/tivo/zone/Zone64.java:82-107 | Writing step by step, with padding counted as it goes, gives these bytes |
| `ZoneStreams.WriteChecked` | jmfs/source/src/tivo/io/Utils.java:230-252 | The two passes give bytes that check |
| `ZoneStreams.ReadInts` | jmfs/source/src/tivo/zone/Zone64.java:52-80 | Reading words from a stream is parsing them, with failure exactly at the end of data |
| `ZoneStreams.ReadMap` | jmfs/source/src/tivo/zone/Bitmap.java:337-362 | Reading a bitmap takes its own count from its header |
| `ZoneStreams.ReadZone` | jmfs/source/src/tivo/io/Utils.java:168-206 | Two-phase reading is parsing, and the validity flag says whether the stored checksum is that of the bytes |
| `ZoneStreams.WriteThenRead` | jmfs/source/src/tivo/zone/Zone64.java:52-107 | A written zone reads back with the same fields, pointers and bitmaps and a valid checksum |
| `ZoneImages.PointersPoint` | jmfs/source/src/tivo/zone/Zone64.java:196-206 | In the written zone the pointer of a bitmap, counted from the first, is where its bytes lie |
| `ZoneImages.PointersDiffer` | jmfs/source/src/tivo/zone/Zone64.java:196-206 | Pointers differ by the byte offsets between bitmaps, as 32-bit numbers |
| `ZoneImages.LevelsTake` | jmfs/source/src/tivo/zone/Zone64.java:162-206 | Bitmaps from a level on take what the estimate has for the smaller levels |
| `ZoneImages.NewZoneFills` | jmfs/source/src/tivo/zone/Zone64.java:82-180 | A new zone takes exactly descriptor size * 512 bytes, with padding that is never negative |
| `ZoneImages.NewZoneConsistent` | jmfs/source/src/tivo/zone/Zone64.java:82-194 | A new zone can be written and read |
| `ZoneImages.WriteNew` | jmfs/source/src/tivo/zone/Zone64.java:82-206 | The bytes of a new zone: their number, their checksum, and that they read back as the zone |
| `BlockMarks.AddedKeeps` | mfstools_1.4/source/MFSTools-snapshot050221/backup/backup.c:125-284 | Adding sectors that are not taken succeeds, keeps starts and stops in order, and covers exactly these sectors more |
| `BlockMarks.AddedTotal` | mfstools_1.4/source/MFSTools-snapshot050221/backup/backup.c:125-284 | And the total grows by exactly their number |
| `BlockOverlaps.ExtendsIff` | mfstools_1.4/source/MFSTools-snapshot050221/backup/backup.c:125-284 | For any block, overlapping others or not: adding it gives all its sectors and loses none if and only if its end lies where a condition on the next markers wants it |
| `BlockOverlaps.OverlapLoses` | mfstools_1.4/source/MFSTools-snapshot050221/backup/backup.c:273-281 | An overlapping block of which sectors are lost |
| `BackupList.MarkerList.Seek` | mfstools_1.4/source/MFSTools-snapshot050221/backup/backup.c:142-148 | The first node not before the sector, and the one before it |
| `BackupList.MarkerList.InsertBlock` | mfstools_1.4/source/MFSTools-snapshot050221/backup/backup.c:150-222 | Two nodes are spliced in between |
| `BackupList.MarkerList.DropSuperfluous` | mfstools_1.4/source/MFSTools-snapshot050221/backup/backup.c:273-281 | Drops exactly the nodes after one that lie before it or say the same |
| `BackupList.MarkerList.Add` | mfstools_1.4/source/MFSTools-snapshot050221/backup/backup.c:125-284 | The linked list after adding is the list of markers after adding, or is unchanged when that fails |
| `BackupBlocks.AddToKeeps` | mfstools_1.4/source/MFSTools-snapshot050221/backup/backup.c:125-284 | Among volumes: only the block's volume changes, and the taken sectors grow by exactly the block |
| `BackupBlocks.AddAllKeeps` | mfstools_1.4/source/MFSTools-snapshot050221/backup/backup.c:125-284 | Any disjoint blocks in any order: all are added and exactly their union is taken |
| `BackupBlocks.BackupArray` | mfstools_1.4/source/MFSTools-snapshot050221/backup/backup.c:102-329 | The final array is sorted, disjoint, without empty blocks, never crosses a volume, has exactly the added sectors and as many |
| `BackupLists.FindVolume` | mfstools_1.4/source/MFSTools-snapshot050221/backup/backup.c:131-135 | Walks to the volume of the sector |
| `BackupLists.AddBlock` | mfstools_1.4/source/MFSTools-snapshot050221/backup/backup.c:125-284 | Adds to that volume's list |
| `BackupLists.Concat` | mfstools_1.4/source/MFSTools-snapshot050221/backup/backup.c:102-122 | Chains the lists by changing links only |
| `BackupLists.CopyBlocks` | mfstools_1.4/source/MFSTools-snapshot050221/backup/backup.c:317-327 | Copies exactly the blocks of the markers and adds up their sizes |
| `BackupLists.AddBlocks` | mfstools_1.4/source/MFSTools-snapshot050221/backup/backup.c:288-329 | Counts, allocates and copies them |
| `BackupLists.AddRanges` | mfstools_1.4/source/MFSTools-snapshot050221/backup/backup.c:125-284 | Adds blocks one after the other to the linked lists of their volumes, which share no node, exactly as the marker lists |
| `BackupLists.Heads` | mfstools_1.4/source/MFSTools-snapshot050221/backup/backup.c:102-122 | The lists' nodes end to end are the volumes' markers end to end |
| `BackupLists.BackupAll` | mfstools_1.4/source/MFSTools-snapshot050221/backup/backup.c:102-329 | Any disjoint blocks in any order go into linked lists, which are chained and copied out: the array is sorted, disjoint, without empty blocks, inside volumes, and has exactly the added sectors and as many |
| `Stream.StreamPart` | mfstools_1.4/source/MFSTools-snapshot050221/backup/backup.c:969-1027 | Where the stream has sector k of a partition |
| `Stream.StreamBlock` | mfstools_1.4/source/MFSTools-snapshot050221/backup/backup.c:1028-1069 | Where the stream has sector k of an MFS block |
| `Stream.StoredStream` | mfstools_1.4/source/MFSTools-snapshot050221/restore/restore.c:112-263 | Writing the beginning of the stream puts every sector back where it came from and changes nothing else |
| `Streaming.Backup.Next` | mfstools_1.4/source/MFSTools-snapshot050221/backup/backup.c:952-1070 | One read continues the stream at the cursor, and is short only at the end |
| `Streaming.Backup.ReadParts` | mfstools_1.4/source/MFSTools-snapshot050221/backup/backup.c:969-1027 | The partitions from the cursor on |
| `Streaming.Backup.ReadBlocks` | mfstools_1.4/source/MFSTools-snapshot050221/backup/backup.c:1028-1069 | The MFS blocks from the cursor on |
| `Streaming.Restore.Next` | mfstools_1.4/source/MFSTools-snapshot050221/restore/restore.c:112-263 | One write continues at the cursor; the volumes are set up when it reaches the first MFS sector |
| `Streaming.Restore.WriteParts` | mfstools_1.4/source/MFSTools-snapshot050221/restore/restore.c:138-203 | The partitions from the cursor on |
| `Streaming.Restore.WriteBlocks` | mfstools_1.4/source/MFSTools-snapshot050221/restore/restore.c:205-263 | The MFS blocks from the cursor on |
| `Streaming.ReadAll` | mfstools_1.4/source/MFSTools-snapshot050221/backup/backup.c:952-1070 | Any split into reads gives the beginning of the stream |
| `Streaming.WriteAll` | mfstools_1.4/source/MFSTools-snapshot050221/restore/restore.c:112-263 | Any split into writes stores it |
| `Streaming.Transfer` | mfstools_1.4/source/MFSTools-snapshot050221/restore/restore.c:112-263 | For any two independent splits the restored places have what the backup read there, both cursors end together, and the volumes are set up once, or never when there is no MFS block |
| `Streaming.WriteAtEnd` | mfstools_1.4/source/MFSTools-snapshot050221/restore/restore.c:205-263 | Without MFS blocks, every call that is given more at the end sets the volumes up once more and writes nothing |
| `TwoDrives.EveryAssignment` | mfstools_1.4/source/MFSTools-snapshot050221/restore/restore.c:687-693 | Counting through the masks goes through every assignment of pairs to drives |
| `TwoDrives.Overfull` | mfstools_1.4/source/MFSTools-snapshot050221/restore/restore.c:710-724 | Giving up on a mask early loses nothing |
| `TwoDrives.Weigh` | mfstools_1.4/source/MFSTools-snapshot050221/restore/restore.c:699-732 | The sums of one mask decide exactly whether it fits |
| `TwoDrives.Try` | mfstools_1.4/source/MFSTools-snapshot050221/restore/restore.c:732-759 | One mask against the best so far; of equals the later is kept. What that amounts to in sectors is proved of `TwoDrives.FindBest` |
| `TwoDrives.FindBest` | mfstools_1.4/source/MFSTools-snapshot050221/restore/restore.c:664-766 | The search fails exactly when no assignment meets the size, number and name limits. Otherwise no assignment that does puts more sectors on the first drive or, when balancing, leaves a number of sectors there that is nearer to half of it, and of those as good it finds the one with the highest mask |
| `TwoDrives.AllowedIff` | mfstools_1.4/source/MFSTools-snapshot050221/restore/restore.c:700-730 | The limits in numbers: the sectors are enough, and none, one or two pairs on the first drive with up to five, four or three on the second |
| `TwoDrives.SlotsApart` | mfstools_1.4/source/MFSTools-snapshot050221/restore/restore.c:768-816 | No two pairs share a slot, or a number on one drive |
| `TwoDrives.NumbersConsecutive` | mfstools_1.4/source/MFSTools-snapshot050221/restore/restore.c:768-816 | The numbers on a drive have no gap |
| `TwoDrives.SlotTaken` | mfstools_1.4/source/MFSTools-snapshot050221/restore/restore.c:768-816 | Every slot is filled |
| `TwoDrives.Assign` | mfstools_1.4/source/MFSTools-snapshot050221/restore/restore.c:768-816 | The second phase gives each pair its drive, numbers and slot and changes nothing else |
| `DriveTables.PlacedInOrder` | mfstools_1.4/source/MFSTools-snapshot050221/restore/restore.c:768-816 | The list to create has each drive's partitions in the order of their numbers, from 2 on and without a gap |
| `DriveTables.SpaceEnough` | mfstools_1.4/source/MFSTools-snapshot050221/restore/restore.c:664-816 | Each drive has the space for its list, when the default partitions take no more than the search allowed for |
| `DriveTables.BuiltAsWanted` | mfstools_1.4/source/MFSTools-snapshot050221/restore/restore.c:1230-1252 | When all numbers from 2 to n + 1 are wanted on a drive, partition p of its table has the size wanted for p |
| `DriveTables.BuildDrive` | mfstools_1.4/source/MFSTools-snapshot050221/restore/restore.c:1181-1252 | With or without balancing first, the table of a drive has the partitions of the list under their numbers |
| `DriveTables.RestoreDrives` | mfstools_1.4/source/MFSTools-snapshot050221/restore/restore.c:664-1252 | Search, numbering and both tables: it fails exactly when no assignment is allowed; otherwise every partition is in the table of its drive under the number it was given, with its size, and the pairs are on the drives of the best assignment |
| `MacTable.AddedKeeps` | mfstools_1.4/source/MFSTools-snapshot050221/lib/macpart.c:683-729 | Adding keeps the table a tiling of the drive without touching free space, and lowers total free by exactly the size |
| `MacTable.PrefixKept` | mfstools_1.4/source/MFSTools-snapshot050221/lib/macpart.c:703-719 | Entries below the first movable one keep their numbers if and only if none is movable there, a place is given inside the table, or an entry from the last one in use on is not free |
| `MacTable.LastUsedKept` | mfstools_1.4/source/MFSTools-snapshot050221/lib/macpart.c:703-719 | So they do whenever the last entry in use is not itself free space |
| `MacTable.FreeInUseMoved` | mfstools_1.4/source/MFSTools-snapshot050221/lib/macpart.c:703-711 | Free space that is in use, with only free space behind it, gets another number |
| `MacTable.FirstMovableIs` | mfstools_1.4/source/MFSTools-snapshot050221/lib/macpart.c:621-628 | The first movable entry is the one behind the last in use, or the second |
| `MacTable.LowestPlace` | mfstools_1.4/source/MFSTools-snapshot050221/lib/macpart.c:645-680 | A new partition starts no later than any place behind the entries in use that has the size in one free entry |
| `MacTable.PlaceIs` | mfstools_1.4/source/MFSTools-snapshot050221/lib/macpart.c:703-729 | It has the number asked for if the table has as many entries, and otherwise the one behind the last entry that is not free; the others stay in their order |
| `MacPart.PartitionTable.constructor` | mfstools_1.4/source/MFSTools-snapshot050221/lib/macpart.c:737-798 | A new table holds its own partition only |
| `MacPart.PartitionTable.Validate` | mfstools_1.4/source/MFSTools-snapshot050221/lib/macpart.c:351-459 | Makes the rest of a new drive free, once, and fails when there is no room for the table |
| `MacPart.PartitionTable.FindSpace` | mfstools_1.4/source/MFSTools-snapshot050221/lib/macpart.c:642-681 | The first free space that is large enough, or none exactly when there is none |
| `MacPart.PartitionTable.TakeRange` | mfstools_1.4/source/MFSTools-snapshot050221/lib/macpart.c:683-701 | The deletion loop takes exactly the range off the table |
| `MacPart.PartitionTable.InsertAt` | mfstools_1.4/source/MFSTools-snapshot050221/lib/macpart.c:713-729 | Moves the later entries and puts the new one in |
| `MacPart.PartitionTable.Add` | mfstools_1.4/source/MFSTools-snapshot050221/lib/macpart.c:596-732 | The whole addition, with the exact condition of each refusal and the number it returns |
| `MacPart.PartitionTable.TotalFreeSpace` | mfstools_1.4/source/MFSTools-snapshot050221/lib/macpart.c:462-491 | All free sectors, or zero when nothing can be added |
| `MacBuild.RunKeeps` | mfstools_1.4/source/MFSTools-snapshot050221/lib/macpart.c:596-732 | From a new table, any run of additions, opened and closed partitions in between, keeps the tiling and lowers total free by exactly the sizes |
| `MacBuild.StepKeepsNumbers` | mfstools_1.4/source/MFSTools-snapshot050221/lib/macpart.c:703-719 | In such a run no addition moves an entry below the first movable one |
| `MacBuild.OpenFreeBlocks` | mfstools_1.4/source/MFSTools-snapshot050221/lib/macpart.c:618-681 | While the free space of a table of a run is open, nothing can be added |
| `MacBuild.OpenStays` | mfstools_1.4/source/MFSTools-snapshot050221/lib/macpart.c:596-732 | So a partition that stays open keeps its number, its place and its size through the run |
| `MacBuild.RowsAre` | mfstools_1.4/source/MFSTools-snapshot050221/restore/restore.c:1230-1252 | The partitions of a drive are those of the list, each once and by number |
| `MacBuild.AddedByNumber` | mfstools_1.4/source/MFSTools-snapshot050221/restore/restore.c:1240-1250 | Adding at the place of its number among the others keeps the table sorted by number |
| `MacBuild.FindPlace` | mfstools_1.4/source/MFSTools-snapshot050221/restore/restore.c:1240-1244 | The place of a number is behind all smaller ones |
| `MacBuild.PutNumber` | mfstools_1.4/source/MFSTools-snapshot050221/restore/restore.c:1246-1248 | And the numbers stay sorted |
| `MacBuild.Build` | mfstools_1.4/source/MFSTools-snapshot050221/restore/restore.c:1230-1252 | Whatever the order of the list, the finished table has the partitions by number, each at its place on the drive |
| `MacBuild.SizesByNumber` | mfstools_1.4/source/MFSTools-snapshot050221/restore/restore.c:1230-1252 | With numbers 2 to n + 1, partition p has the size wanted for p |
| `MacBuild.MoveToFront` | mfstools_1.4/source/MFSTools-snapshot050221/restore/restore.c:1215-1218 | One entry of the list moves to its beginning |
| `MacBuild.Balance` | mfstools_1.4/source/MFSTools-snapshot050221/restore/restore.c:1188-1221 | Up to where balancing stops, each media partition of the drive goes to the beginning; the rest of the list stays |
| `MacBuild.FrontedOrder` | mfstools_1.4/source/MFSTools-snapshot050221/restore/restore.c:1188-1221 | So the media partitions come first, the last one foremost, and the others follow in their order |
| `MacBuild.MovedInFront` | mfstools_1.4/source/MFSTools-snapshot050221/restore/restore.c:1188-1221 | A partition is moved only if it starts before the middle of the drive and reaches behind it no further than it starts before it |
| `MacBuild.StopsOnlyThere` | mfstools_1.4/source/MFSTools-snapshot050221/restore/restore.c:1199-1210 | The balancing stops only at the end of the list, at the middle of the drive, or before a media partition of which more lies behind the middle than before it |
| `MacBuild.OnlyMedia` | mfstools_1.4/source/MFSTools-snapshot050221/restore/restore.c:1202-1202 | The partitions that are moved are those of the drive with odd numbers above 10 |
| `Media.SwapBytes` | tivopart_20040530/src/media.c:111-124 | Swaps the bytes of each pair in place, in the range only |
| `Media.SwappedPair` | tivopart_20040530/src/media.c:111-124 | Each byte of a pair is where the other one was |
| `Media.SwappedTwice` | tivopart_20040530/src/media.c:111-161 | Swapping twice changes nothing |
| `Media.SwappedPut` | tivopart_20040530/src/media.c:144-161 | Swapping a medium after a write is writing the swapped bytes to the swapped medium |
| `Media.Device.Read` | tivopart_20040530/src/media.c:126-142 | With or without swapping a read gives the range of the flat bytes, and nothing else of the buffer changes, even on failure |
| `Media.Device.Write` | tivopart_20040530/src/media.c:144-161 | A write changes the range of the flat bytes only, and leaves the caller's buffer as it was |
| `Deblock.Head` | tivopart_20040530/src/deblock_media.c:193-207 | The part before the first whole device block, and that its block is one the transfer touches |
| `Deblock.Fulls` | tivopart_20040530/src/deblock_media.c:208-215 | The whole device blocks in between |
| `Deblock.Layer.ReadInParts` | tivopart_20040530/src/deblock_media.c:187-223 | First part, whole blocks and last part together read exactly the range, and succeed exactly when all touched blocks are there |
| `Deblock.Layer.WritePart` | tivopart_20040530/src/deblock_media.c:260-275 | Reading, changing and writing back a device block changes only the part |
| `Deblock.Layer.WriteInParts` | tivopart_20040530/src/deblock_media.c:254-293 | The three parts write exactly the range; a failure leaves exactly its first bytes written |
| `Deblock.Layer.DoRead` | tivopart_20040530/src/deblock_media.c:162-226 | All guards and both kinds of layer |
| `Deblock.Layer.DoWrite` | tivopart_20040530/src/deblock_media.c:229-297 | All guards and both kinds of layer, with what a failed write has changed |
| `Deblock.Layer.Read` | tivopart_20040530/src/media.c:126-142 | The same through the swap of the layer itself |
| `Deblock.Layer.Write` | tivopart_20040530/src/media.c:144-161 | The same for writing |
| `Deblock.CoveredIsInside` | tivopart_20040530/src/deblock_media.c:162-297 | On a device of whole blocks the transfers that succeed are all those inside it |
| `Deblock.Run` | tivopart_20040530/src/deblock_media.c:162-297 | Any run of transfers behaves as on a flat array of bytes, and fails exactly when one touches a block that is not there |
| `Deblock.ReadsLastWritten` | tivopart_20040530/src/deblock_media.c:162-297 | At each position a read gives the byte last written there |
| `InodeLookup.NextIs` | mfstools_1.4/source/MFSTools-snapshot050221/lib/inode.c:127-127 | The masked step goes round the largest power-of-two block of the table that holds the slot |
| `InodeLookup.FirstSlot` | mfstools_1.4/source/MFSTools-snapshot050221/lib/inode.c:112-112 | In a table of a power of two the walk begins at the 32-bit product of the id and 67289 modulo the table's length |
| `InodeLookup.WalkReturns` | mfstools_1.4/source/MFSTools-snapshot050221/lib/inode.c:115-127 | The walk is back at its start after that many probes and not before |
| `InodeLookup.ReadByFsid` | mfstools_1.4/source/MFSTools-snapshot050221/lib/inode.c:109-139 | The lookup ends within as many probes as the table has slots, and gives what the walk says |
| `InodeLookup.FoundIff` | mfstools_1.4/source/MFSTools-snapshot050221/lib/inode.c:109-139 | An inode in use is found if and only if no slot before it on the way is unchained or has its id |
| `InodeLookup.NoneIff` | mfstools_1.4/source/MFSTools-snapshot050221/lib/inode.c:109-139 | None is returned if and only if no inode in use with the id can be reached |
| `InodeLookup.FoundIffKept` | mfstools_1.4/source/MFSTools-snapshot050221/lib/inode.c:109-139 | On tables of a power of two, all inodes in use are found if and only if no way to one has an unchained slot or a slot with its id |
| `InodeLookup.LookupInKept` | mfstools_1.4/source/MFSTools-snapshot050221/lib/inode.c:109-139 | In such tables the lookup gives the inode in use, and none exactly when there is none |
| `InodeLookup.StaleSlotHides` | mfstools_1.4/source/MFSTools-snapshot050221/lib/inode.c:127-135 | A table with unique ids and chained slots in which an unused slot hides the inode |
| `Volumes.DataInSpace` | mfstools_1.4/source/MFSTools-snapshot050221/lib/volume.c:150-159 | A volume's data is the part of the common space from its start on |
| `Volumes.PutInVolume` | mfstools_1.4/source/MFSTools-snapshot050221/lib/volume.c:329-373 | Other data in one volume is other data at its place in the space, and nothing else changes |
| `Volumes.SomeVolume` | mfstools_1.4/source/MFSTools-snapshot050221/lib/volume.c:163-178 | Every sector of the space, and no other, is in some volume |
| `Volumes.OneVolume` | mfstools_1.4/source/MFSTools-snapshot050221/lib/volume.c:163-178 | And in one only |
| `Volumes.WithinIff` | mfstools_1.4/source/MFSTools-snapshot050221/lib/volume.c:265-295 | A range from a sector of the space on is inside a volume if and only if it ends in the space and no volume begins in it behind its start |
| `Volumes.VolumeSet.AddVolume` | mfstools_1.4/source/MFSTools-snapshot050221/lib/volume.c:82-159 | Appends the partition, cut to 1024 sectors, at the end of the space; refused when nothing is left |
| `Volumes.VolumeSet.GetVolume` | mfstools_1.4/source/MFSTools-snapshot050221/lib/volume.c:163-178 | Finds the volume of a sector exactly when the space has it |
| `Volumes.VolumeSet.ReadData` | mfstools_1.4/source/MFSTools-snapshot050221/lib/volume.c:265-295 | Reads that range of the space, and fails exactly when it is not inside one volume |
| `Volumes.VolumeSet.WriteData` | mfstools_1.4/source/MFSTools-snapshot050221/lib/volume.c:329-373 | Writes that range and nothing else; fails exactly across volumes or on a read-only one, and pretends when asked to |
| `InodeData.PiecesAreContent` | mfstools_1.4/source/MFSTools-snapshot050221/lib/inode.c:155-213 | With every extent inside one volume, reading gives exactly the wanted sectors of the extents end to end, cut off at their end |
| `InodeData.ReadExtents` | mfstools_1.4/source/MFSTools-snapshot050221/lib/inode.c:155-213 | The loop reads exactly these pieces, and stops with an error at the first that crosses a volume |
| `InodeData.ReadDataPart` | mfstools_1.4/source/MFSTools-snapshot050221/lib/inode.c:143-225 | With extents, the buffer holds the wanted sectors of the extents end to end, cut off at their end; of data kept in the inode, its own bytes and zeros up to a sector; nothing when nothing is wanted, when the start is behind, or when there is neither |
| `LogRing.ReadableUntil` | mfstools_1.4/source/MFSTools-snapshot050221/lib/log.c:36-75 | A record is readable until another stamp with its remainder is written, unless it is written again |
| `LogRing.WindowReadable` | mfstools_1.4/source/MFSTools-snapshot050221/lib/log.c:36-75 | The last lognsectors stamps are all readable if and only if they do not wrap past 2^32 or the length divides 2^32 |
| `LogRing.LostAcrossZero` | mfstools_1.4/source/MFSTools-snapshot050221/lib/log.c:36-75 | With three slots a record is lost across the wrap |
| `LogRing.FewReadable` | mfstools_1.4/source/MFSTools-snapshot050221/restore/restore.c:1508-1508 | No more consecutive stamps are readable than the log has slots |
| `TransactionLog.RingPut` | mfstools_1.4/source/MFSTools-snapshot050221/lib/log.c:61-75 | Writing a record in one slot changes the stamp of that slot only |
| `TransactionLog.Log.Read` | mfstools_1.4/source/MFSTools-snapshot050221/lib/log.c:36-59 | Succeeds exactly when the slot has a record with that stamp and a valid checksum |
| `TransactionLog.Log.Write` | mfstools_1.4/source/MFSTools-snapshot050221/lib/log.c:61-75 | The record is in its slot with a valid checksum, and nothing else of the volumes changes |
| `LogEdits.RunEdits` | mfstools_1.4/source/MFSTools-snapshot050221/restore/restore.c:1508-1611 | Over any consistent records the buffers of the walk hold, end to end, exactly the stream of all entries edited, whether an entry lies in one record or in two |
| `LogEdits.StoredEdits` | mfstools_1.4/source/MFSTools-snapshot050221/restore/restore.c:1540-1607 | What is written back is that stream if and only if no entry over two records gets shorter and still reaches into the second one |
| `LogEdits.StaleEntry` | mfstools_1.4/source/MFSTools-snapshot050221/restore/restore.c:1540-1556 | For any entry and any place to part it: when the shortened entry still reaches into the second record the first is stored as it was, and the stored stream is wrong |
| `LogFudge.FudgeLog` | mfstools_1.4/source/MFSTools-snapshot050221/restore/restore.c:1401-1486 | In place: a map update behind the end of the volumes goes, a stream's inode update loses the blocks there and gets shorter by them, and every other entry stays |
| `LogFudge.MoveBlocks` | mfstools_1.4/source/MFSTools-snapshot050221/restore/restore.c:1444-1471 | The loop over the blocks moves exactly those on the volumes over the lost ones |
| `LogFudge.FudgeShortens` | mfstools_1.4/source/MFSTools-snapshot050221/restore/restore.c:1401-1486 | Every entry is left alone, or gets shorter with its length field in step, or goes |
| `LogFudge.FudgedStream` | mfstools_1.4/source/MFSTools-snapshot050221/restore/restore.c:1422-1481 | The blocks that stay are those on the volumes, in order; length and data size are less by the lost ones, and but for two sizes nothing else changes |
| `LogFudge.FudgedTwice` | mfstools_1.4/source/MFSTools-snapshot050221/restore/restore.c:1401-1486 | Doing it again changes nothing |
| `LogUpdates.DroppedIff` | mfstools_1.4/source/MFSTools-snapshot050221/restore/restore.c:1409-1420 | Nothing is left of an entry if and only if it is a complete map update whose sector is not on the volumes |
| `LogUpdates.ChangedIff` | mfstools_1.4/source/MFSTools-snapshot050221/restore/restore.c:1401-1486 | An entry changes if and only if it is such a map update, or a complete update of a stream's inode that has a block not on the volumes |
| `LogUpdates.StreamBlocks` | mfstools_1.4/source/MFSTools-snapshot050221/restore/restore.c:1422-1481 | What is left of a stream's inode update is one, and has the blocks that are on the volumes, in their order |
| `LogUpdates.StreamFields` | mfstools_1.4/source/MFSTools-snapshot050221/restore/restore.c:1436-1481 | When it loses some it has the new sizes in their two fields, the length and the data size are less by the blocks lost, and no other byte before the blocks changes |
| `LogUpdates.EditedEntries` | mfstools_1.4/source/MFSTools-snapshot050221/restore/restore.c:1488-1611 | The entries of an edited stream are the entries of the stream, each edited, without those that are dropped |
| `LogUpdates.EntriesLeft` | mfstools_1.4/source/MFSTools-snapshot050221/restore/restore.c:1401-1486 | Of any entries, exactly the map updates on the volumes stay, in order; those of other kinds stay byte for byte, and each stream's inode update as edited |
| `LogUpdates.StreamFits` | mfstools_1.4/source/MFSTools-snapshot050221/restore/restore.c:1488-1611 | So it is of the stream of all entries: no map update left lies behind the volumes, and every one on them is still there |
| `LogFudge.WrappedTest` | mfstools_1.4/source/MFSTools-snapshot050221/restore/restore.c:1433-1433 | With sizes of 32 bits the test that the blocks are inside the entry passes wrongly for data sizes of 2^32 - 76 and more, and for no others |
| `LogFudge.StaleLength` | mfstools_1.4/source/MFSTools-snapshot050221/restore/restore.c:1552-1556 | An inode update of 86 bytes that loses its one block, 10 of its bytes in the first record: the first is stored with the old length |
| `LogEdits.BeforeComplete` | mfstools_1.4/source/MFSTools-snapshot050221/restore/restore.c:1527-1541 | In consistent records the entries of each start where an entry of the stream does |
| `LogEdits.SpanEdited` | mfstools_1.4/source/MFSTools-snapshot050221/restore/restore.c:1540-1574 | Editing the entry that spans two records is editing it in the stream |
| `LogRecords.EditEntries` | mfstools_1.4/source/MFSTools-snapshot050221/restore/restore.c:1578-1596 | The entries of a record, edited and moved up in place: exactly the edited entries, and nothing outside them changes |
| `LogRecords.FindLast` | mfstools_1.4/source/MFSTools-snapshot050221/restore/restore.c:1532-1538 | The walk to the last entry of a record |
| `LogRecords.EditPrevious` | mfstools_1.4/source/MFSTools-snapshot050221/restore/restore.c:1540-1563 | The record before: its last entry edited together with its end in the next one, cut and cleared behind it if it ends there now |
| `LogRecords.CutLast` | mfstools_1.4/source/MFSTools-snapshot050221/restore/restore.c:1559-1563 | Size, bytes and zeros of a record whose last entry gets shorter; stamp, checksum and first entry stay |
| `LogRecords.CutFront` | mfstools_1.4/source/MFSTools-snapshot050221/restore/restore.c:1555-1573 | What a record begins with gets shorter and its entries move up; stamp and checksum stay |
| `LogWalk.EditSpan` | mfstools_1.4/source/MFSTools-snapshot050221/restore/restore.c:1527-1576 | The entry over two records in both buffers, and what the log holds then: the record before is written exactly when the entry ends there |
| `LogWalk.EditOwn` | mfstools_1.4/source/MFSTools-snapshot050221/restore/restore.c:1578-1607 | The entries of a record in its buffer and in the log, which is written exactly when they got smaller |
| `LogWalk.EditRecords` | mfstools_1.4/source/MFSTools-snapshot050221/restore/restore.c:1527-1607 | Both together: buffers, stamps and every sector of the log |
| `LogWalk.Walk` | mfstools_1.4/source/MFSTools-snapshot050221/restore/restore.c:1508-1611 | For any editor that shortens entries: the walk keeps the stamps of the log and ends within lognsectors records, at the first stamp that is not there; on consistent records the log holds afterwards exactly what the run leaves stored |
| `LogWalk.FudgeTransactions` | mfstools_1.4/source/MFSTools-snapshot050221/restore/restore.c:1488-1611 | A shrinking restore: on consistent records the log holds all entries as they are to be if and only if no entry over two records gets shorter and still reaches into the second one. The map updates in it are then exactly those on the volumes that were there, in order, and entries of other kinds are untouched |

## Left out

- Devices and the system: opening, seeking, `/proc`, ioctls, device errors and short reads. A device is an array of bytes or sectors, so a transfer fails only by its own checks.
- Command lines, prompts, dumps, hour estimates, the jmfs user interface and its scripts: no property worth proving.
- Memory exhaustion and the freeing of memory.
- zlib compression and the header phase of the backup stream; the stream starts at its data phase, with the tables in memory.
- Names, HFS, driver descriptors and most of block zero: an entry contains no driver, its type is free, map or other.
- Cross-endian conversion, and the 32-bit zone and header layouts of jmfs: field shuffling.
- The size and the used blocks that `restore_fudge_log` recomputes for an inode are a parameter; the division that they take stops the source at block sizes below 512.
- `tivo_partition_validate` on tables with gaps, and tables read from a drive: tables start from a new one.
- Zone lists, the root zone and `mfs_new_zone_map`'s header fields; the maps it fills and their pointers are modelled.
- Widths of counters: block, sector and chunk numbers are unbounded unless a contract says otherwise; 32-bit limits are kept in the map editor and the validator (ends below 2^32), in checksums, in pointers, in stamps and in the inode hash. Zones have at most 2^30 chunks where their bytes are written.
- Bitmaps.Bitmap.SetBit: the bit numbers of Java longs are natural numbers; negative ones are not modelled.
- PartitionTable.ResizeAllowed: sizes are compared as integers, as where `long` has 64 bits; where it has 32, negative sizes are compared as unsigned ones, which makes a difference on media of more than 2^31 blocks only (`PartitionTable.NegativeRefused`).
- PartitionMap.PartitionMap.CombineEntry: the branches for neighbours that are not contiguous are proved never to be reached, so what they would do is not modelled.
- Ranges.RangeList.AddRange: the list exists and is not empty, as `initialize_list` leaves it.
- TwoDrives.FindBest: sector counts are natural numbers, so sums do not wrap; the number of pairs after the first is arbitrary, the source needs at least one.
- MacBuild.Build: the partitions of a drive fit on it and have numbers 2 to 15; the source does not look at the result of an addition that fails. `DriveTables.RestoreDrives` proves both of what the search finds, for default partitions that take no more than the minimum the search is given, which the source does not check where a backup lacks some of them.
- Views.ContinuousLogicalView.AddStorage: extents have a length that is not negative; `MapView`, `ChainView` and the file side of the views are not part of this model.
- Expansion.Add: the drive's own table is not changed here; the new partition is a free start block and a size.
- LogWalk.Walk: three kinds of records take the source outside its buffers or its entries, and for them any change behind the checksum is allowed: a record whose first entry starts behind its end, when it also begins with the end of an entry or that start is in the last two bytes or further; one that goes on from such a record; and one that goes on from a record that has less than two bytes of its last entry (none when the entry covers three records), when these are at the end of the sector or what follows them passes for a fitting length.
- LogFudge.Fudge: the test of `LogFudge.WrappedTest` is the one that does not wrap; what the source does in the other case is not modelled.
- InodeLookup.ReadByFsid: every inode can be read; the source dereferences a null pointer when one cannot.
- InodeLookup.LookupInKept: tables of a power of two; for other lengths `InodeLookup.FoundIff` and `InodeLookup.NoneIff` say what is found among the slots the walk can reach.
- Volumes.VolumeSet.AddVolume: the list of volumes is a sequence held in a field rather than linked nodes.
- Media.Device.Write: a device has a fixed size; regular files, which grow when written past their end, are not modelled.
- Deblock.Layer.constructor: block sizes of which neither divides the other are refused before a layer is made, and equal ones need none.
- MfsAdd's partition names and root updates, the inode and directory classes of jmfs, and reading of inode chains are not part of this model.
