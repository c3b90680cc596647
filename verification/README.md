# Staxus: verified models of the file system, the heap and the loader

This project models the parts of the Staxus kernel that keep state with hard
invariants, and proves what they promise over every input and every run.

**The FAT32 driver.** A device is an array of sectors. `Fat32Layout` reads a volume
(table and clusters) off the sectors, and `Fat32Mount` proves the driver's table and
cluster routines against that volume: the two copies of the table stay equal, table
writes never touch a cluster, cluster writes never touch a table. `Fat32Volume` proves
what the entries of the table say and what chains are. `Fat32File` and `Fat32WriteFile` prove reading
and writing against files that are plain byte sequences. `Fat32Names`, `Fat32Scan`, `Fat32Entries`, `Fat32Aliases`,
`Fat32Dir`, `Fat32Write`, `Fat32AddEntry` and `Fat32Iterate` treat directory slots, long
names and 8.3 aliases: writing an entry and scanning the directory gives it back, under an exact
condition on its name. `Fat32Path`, `Fat32Claim`, `Fat32Create`, `Fat32CreateEntry`, `Fat32Update`,
`Fat32Open`, `Fat32Delete` and `Fat32Remove` treat lookup, creation, updates in place, opening and
deletion, and `Fat32Marks` slots that begin with the deletion mark. `Fat32Format` states the format
itself in the numbers of the FAT specification, apart from the functions that read and write it: the
places of the fields and bits, the characters that aliases take over, which names agree.
`Fat32Runs` proves whole runs: the files refine byte sequences, chains stay disjoint, no cluster
is lost.

**The heap.** `HeapBlocks` gives the list of blocks and what each call does to it,
`HeapLaws` which block is taken and how large it is, what undoes what, and that what is live determines
the list. `HeapMemory` and `IdentityHeap` keep the headers in the memory they manage and prove the
imperative calls, byte by byte. `HeapWrap` says when the 64-bit sums of the aligned search are right, and
`HeapRegions` what `free` does to a list over several regions. `HeapRuns` proves whole runs
with stores in between against an ideal heap in which every allocation is a byte string of its own.

**The PE loader.** `PeExports` is the export index, `PeCache` the cache with its
reference counts and hash chains, `PeLoader` the mutually recursive loading and
unloading, `PeRuns` whole runs, `PeRelocation` base relocation on an image, and
`PeRelocTable` the format of its table.

**Small pieces.** `DrawLine` (Bresenham) with `LineEnds` (which lines end at all), `MountTable`
(longest-prefix lookup under swap-remove) and `Float64` (`trunc`, `floor`, `ceil`, `round` on bits).

`Bytes` holds byte strings, little-endian words and cutting a buffer into pieces, `Wrappers` the
optional values.

## What callers must provide

These conditions are preconditions because the code relies on them:

- There are exactly two tables, equal when mounted; the second one is written
  unconditionally (`src/file-systems/fat32.c:156`, `:201`). The sector size is a
  multiple of 4 and the cluster size a multiple of 32. The first sector of every table entry that the
  allocator may scan is below 2^32: on a disk within a table's length of 2^32 sectors the sector number
  of `:101` can wrap into the tables (`SectorWraps`; the exact condition is `AllRefusedExactly`).
- A file owns at least one cluster. To be written to it owns as many as its size calls for
  (`:954`), to be read at least that many; reads and writes start at or before its end
  (`:911-912` wraps otherwise); end offsets fit 32 bits; there is one open handle per file; the
  directory that holds the file's entry is not part of the file.
- The slots of a new entry lie in one cluster: `src/file-systems/fat32.c:543` wraps inside one cluster
  buffer. The 8.3 slot written is among the first 2^27 of its directory: `:523` computes its offset in
  32 bits.
  Names have at most 11 characters before the first dot (the alias buffer) and at most
  247 in all. A scanned directory has its long-name runs each ended by a live slot, and none of their
  slots is marked deleted, as a standard deletion leaves them (`DeletedLongSlotsRename` says what a scan
  yields there).
- The directories that lookup descends into are well-formed ones (`Walkable`). On a volume all of
  whose directories are, but for the ".." entries of cluster 0 that the FAT specification
  prescribes below the root, this holds for every path without ".." (`WalkableWithoutDotDot`).
  The parent named by a path to create is a directory (`:797-810` does not check it).
- The heap is one region of `24 + size` bytes, because initialisation does not
  subtract the header (`src/memory/managers/identity.c:44`). `free` and `realloc` are
  given pointers to blocks. No sum of size and padding wraps on the way of an aligned
  search to its block (`NoWrap`); it is right then and only then (`WrapDecidesSearch`).
- Imports are acyclic: a library enters the cache only after its own imports
  (`src/file-formats/pe.c:78`, `:128-135`). Libraries are identified by the hash of
  their names. When there is something to relocate, the relocation table and its sites lie in
  the image, apart from each other.
- Lines run to the right and down, and nothing computed on the way exceeds an `int` (`Fits`). Distances
  below 2^31 / 3 are short enough for that (`ShortLinesFit`), those below 2^30 are not
  (`FarLineOverflows`). Which lines end otherwise is decided below. The pixels of the screen have
  numbers below 2^32. At most 63 mounts exist when one is stored: the code does not check the table's
  capacity.

## Where code and expectation part

The model follows the code; each of these is a lemma or part of a contract.

- Long-name slots are stored in ascending order, and a run in the standard's descending
  order decodes to 13 characters (`DescendingOrderTruncates`).
- A path with a leading slash never leads to a file (`LeadingSlashFindsNoFile`); the
  rest of a path behind a mount point other than "/" has one. So creating "/x" never finds an existing
  file "x", and every successful call adds another entry for it (`SlashedPathAddsAnother`).
- The allocator's scan does not subtract the sectors in front of the data
  (`src/file-systems/fat32.c:127`), so it comes to table entries that stand for no cluster. On a
  full volume it marks the lowest free one of them and fails, because the write of its cluster
  does (`AllocCluster`; `src/storage/partition/partition.c:50` refuses it).
- A failed write leaves all free clusters linked to the file (`FailedWriteTakesAll`);
  truncation changes the size in memory only (`TruncationIsInMemory`); deletion keeps the
  first cluster (`DeleteKeepsFirstCluster`) and the long-name slots, whose name the next entry
  may take over (`OrphanedNameIsTakenOver`).
- A new entry whose name gets no long-name slots is found again under that name exactly when its
  plain alias is taken for it and no extension is missing behind a dot; it keeps its case exactly
  when, besides, the reused slot holds no case flag that applies (`EntryKeepsName`,
  `CreatedPathIsFound`). Names such as "A,B" get no long-name slots and another alias.
- The size in a directory follows a write exactly when some alias is left for the file's name:
  an update in place asks for an alias that it does not use, and its failure is not reported
  (`WriteThenFind`).
- When no alias is left, a cluster claimed for the new entry stays allocated
  (`Created`), and a directory grown for it stays grown (`Added`).
- `char` is signed: the comparison of a name's first character with 0xE5 in alias and
  slot counting never holds, while the byte comparisons in scanning do. A new entry whose name begins
  with this byte is written and never listed, and its long-name slots, if any, rename the entry behind
  it (`MarkedNameIsNotListed`, `AddedMarkedName`).
- A long-name slot marked deleted, as the standard leaves it, is read as number 5 with the last-slot
  flag, so the next entry without long-name slots loses its name (`DeletedLongSlotsRename`).
- A new entry stored under a name like a listed one hides that one if it comes first in the directory,
  and is hidden by it otherwise (`MatchAfter`, `WalksAfter`).
- The differences of unsigned coordinates are never negative, so neither is made an absolute value; each
  gets its sign when it is converted to an `int`. With distances below 2^31 a line ends if and only if it
  runs to the right and down (`EndsOnlyRightAndDown`), with distances above 2^31 in both directions if
  and only if it runs to the left and upwards (`LongLinesEnd`), and `EndsExactly` decides every line
  of 32-bit coordinates; `FarLeftEnds` is a line to the left that ends. This is proved for an
  unbounded error term. On lines that advance, twice that term is at most three times the longer
  difference for ever (`ErrorIsBounded`); on all lines `ErrorGrowth` bounds it turn by turn, so the
  statements hold of the 32-bit term for as many turns as twice that bound is below 2^31.
- With an alignment near 2^64 a block without room passes the test (`HugeAlignmentWraps`).
- `free` merges list neighbours without asking whether they touch; over the gap between two
  regions it takes in memory that is not the heap's and loses as much (`ReleaseKeepsMemory`).
- Relocation with a zero delta succeeds without reading the table.

## Model

| member | source | states |
|---|---|---|
| `Bytes.LittleEndian` | src/file-systems/fat32.c:70-80 | Words of two and four bytes have their low byte first, in both directions. |
| `Bytes.DecJoined` | src/file-systems/fat32.c:70-80 | In words of any length each byte weighs 256 times the one before it. |
| `Fat32Layout.ClustersFollow` | src/file-systems/fat32.c:93-97 | Cluster 2 starts behind the second table and each next one `sectorsPerCluster` sectors later. |
| `Fat32Layout.ClustersExactly` | src/file-systems/fat32.c:125-139 | The clusters are exactly the numbers with an entry in the table, below the scan's limit, whose sectors lie on the device. |
| `Fat32Layout.EntryBytes` | src/file-systems/fat32.c:105-123 | Entry `c` is the little-endian word at byte `4 * c` of the sectors from `fatStart` on. |
| `Fat32Layout.ClusterBytes` | src/file-systems/fat32.c:93-97 | Byte `k` of a cluster is byte `k` of the sectors from its first one on. |
| `Fat32Layout.PatchFatEffect` | src/file-systems/fat32.c:140-174 | Patching entry `c` in a table sector and in the same sector of the second copy keeps the copies equal and changes exactly entry `c` of the table, hence of the volume if it stands for a cluster, and no cluster. |
| `Fat32Layout.ClustersUntouched` | src/file-systems/fat32.c:93-103 | Whatever is written before the data area, no cluster changes. |
| `Fat32Layout.WriteClusterEffect` | src/file-systems/fat32.c:99-103 | Writing a cluster keeps both tables (still equal) and changes exactly that cluster. |
| `Fat32Layout.RefusedExactly` | src/file-systems/fat32.c:99-103 | The device refuses the transfer for a number scanned that is no cluster if and only if its first sector fits 32 bits; if it wraps, the transfer goes to sectors in front of the data. |
| `Fat32Layout.AllRefusedExactly` | src/file-systems/fat32.c:125-139 | All such numbers are refused if and only if the first sector of the last entry scanned fits 32 bits, which is what a mount is required to give. |
| `Fat32Layout.SectorWraps` | src/file-systems/fat32.c:99-103 | A witness: a geometry of 2^32 - 1 sectors on which such a number leads into the first table. |
| `Fat32Mount.BootFieldsReadBack` | src/file-systems/fat32.c:70-80 | Whatever the rest of a boot sector holds, the five fields stored at their places are the ones decoded. |
| `Fat32Mount.FAT32Mount.constructor` | src/file-systems/fat32.c:55-86 | Mounting decodes the boot sector; a disk of the geometry it gives, with two equal tables, gives a valid mount of that geometry and root. |
| `Fat32Mount.FAT32Mount.ReadCluster` | src/file-systems/fat32.c:93-97 | Reads exactly the bytes the volume holds in the cluster. |
| `Fat32Mount.FAT32Mount.WriteCluster` | src/file-systems/fat32.c:99-103 | The volume afterwards is the old one with that cluster replaced, both tables kept; with its sector number computed in 32 bits, it fails, changing nothing, exactly for a number scanned that is no cluster of the device. |
| `Fat32Mount.FAT32Mount.GetNextCluster` | src/file-systems/fat32.c:105-123 | Returns the low 28 bits of the entry. |
| `Fat32Mount.FAT32Mount.SetNextCluster` | src/file-systems/fat32.c:181-206 | Changes the low 28 bits of one entry, in both tables, and nothing else. |
| `Fat32Mount.FAT32Mount.AllocCluster` | src/file-systems/fat32.c:125-179 | Takes the lowest free cluster, zeroes it and marks it end-of-chain; reports end-of-chain exactly when no cluster is free, and then has marked the lowest free entry behind those of the clusters, if there is one. |
| `Fat32Mount.FirstUnusedIs` | src/file-systems/fat32.c:138-142 | The scan behind the clusters comes to the lowest entry whose low 28 bits are 0. |
| `Fat32Mount.FAT32Mount.Walk` | src/file-systems/fat32.c:921-923 | Following `steps` links from the start of a chain reaches its element of that number. |
| `Fat32Mount.FAT32Mount.ExtendFile` | src/file-systems/fat32.c:470-491 | Appends the missing clusters one by one, and reports whether there were enough; the volume is the extension function of the old one. |
| `Fat32Mount.FAT32Mount.ResetClusterChain` | src/file-systems/fat32.c:859-868 | The volume afterwards is `Reset` of the old one along the chain, although the links are cleared while they are followed. |
| `Fat32Volume.EntriesSay` | src/file-systems/fat32.c:105-139 | The low 28 bits of an entry are 0 exactly for a free cluster; a chain is exactly a list of clusters each of which has the next one there, and the last one at least 0x0FFFFFF8. |
| `Fat32Volume.EntriesWritten` | src/file-systems/fat32.c:125-206 | A cluster taken gets the entry 0x0FFFFFF8 and bytes of 0; a link changes the low 28 bits of one entry and keeps its high 4. |
| `Fat32Volume.ChainIsDistinct` | src/file-systems/fat32.c:105-123 | No chain that ends meets a cluster twice. |
| `Fat32Volume.ChainIsInUse` | src/file-systems/fat32.c:125-139 | No chain holds a free cluster. |
| `Fat32Volume.ChainIsUnique` | src/file-systems/fat32.c:105-123 | A start cluster determines the chain. |
| `Fat32Volume.FirstFreeIsFree` | src/file-systems/fat32.c:125-139 | The scan finds a free cluster exactly when there is one. |
| `Fat32Volume.GrowTakesFree` | src/file-systems/fat32.c:470-491 | Extending takes only free clusters, zeroed, and touches no other cluster or link except the last one of the chain. |
| `Fat32Volume.GrowTakesLowest` | src/file-systems/fat32.c:470-491 | The clusters taken are the lowest free ones, in ascending order. |
| `Fat32Volume.GrowCount` | src/file-systems/fat32.c:470-491 | Extending succeeds exactly when enough clusters are free, and takes as many as it can either way. |
| `Fat32Volume.GrowExtendsChain` | src/file-systems/fat32.c:470-491 | The chain afterwards is the old chain followed by the added clusters. |
| `Fat32Volume.ResetEffect` | src/file-systems/fat32.c:859-868 | After a reset the first cluster is a chain of its own, the others are free, the top 4 bits of every entry and all other entries and data are as before. |
| `Fat32Volume.ResetFrees` | src/file-systems/fat32.c:859-868 | A reset frees exactly the clusters behind the first one. |
| `Fat32Names.ParseEntry` | src/file-systems/fat32.c:225-309 | The buffer, the flag and the entry afterwards are those of the slot-parsing function. |
| `Fat32Names.ChunkOfLongSlot` | src/file-systems/fat32.c:540-584 | Slot `eIdx` carries sequence number `eIdx + 1`, the 13 characters of the name at `13 * eIdx` in its 5/6/2 fields, and the last-slot bit exactly on the last one. |
| `Fat32Format.SlotFieldsReadBack` | src/file-systems/fat32.c:241-256 | A live slot with the cluster's low half at offset 26, its high half at 20, the size at 28, all little-endian, and the attributes at 11 parses to exactly these, whatever else it holds; its name is that of the long name pending, if there is one. |
| `Fat32Format.FreeSlotYieldsNothing` | src/file-systems/fat32.c:238-239 | A slot that is no long-name slot yields nothing exactly if it begins with 0 or 0xE5. |
| `Fat32Format.SlotFieldsWritten` | src/file-systems/fat32.c:586-602 | Writing an entry puts its fields at the same offsets and keeps bytes 12 to 19 and 22 to 25. |
| `Fat32Format.LongSlotRead` | src/file-systems/fat32.c:226-235 | A slot with attributes 0x0F stores its 13 low bytes, at offsets 1 to 9, 14 to 24, 28 and 30, at 13 times its number less one, with a 0 behind, and nothing else; bit 6 of the number sets the flag. |
| `Fat32Format.LongSlotWritten` | src/file-systems/fat32.c:540-584 | The slot written for a part of a name has its 13 characters, the terminator and 0xFFFF behind it at these offsets, the number with bit 6 on the last one, and the checksum at 13. |
| `Fat32Format.ShortNameSpells` | src/file-systems/fat32.c:261-291 | An 8.3 slot spells its two parts without the spaces behind them; bit 3 of byte 12 makes the letters A to Z of the base small, bit 4 those of the extension. |
| `Fat32Format.SameNameLetters` | src/string/utils.c:56-88 | Two names agree exactly if they have the same length and differ in the case of letters A to Z only. |
| `Fat32Scan.LongNameRoundTrip` | src/file-systems/fat32.c:225-236 | For every NUL-free name of 1 to 247 characters, parsing the written slots in disk order leaves exactly that name in the buffer, whatever it held before. |
| `Fat32Scan.DescendingOrderTruncates` | src/file-systems/fat32.c:232 | In the descending order of the FAT standard a run decodes to the first 13 characters of the name, so it is read back exactly when the name has at most 13. |
| `Fat32Scan.RunIgnoresStale` | src/file-systems/fat32.c:225-236 | What a complete run decodes to does not depend on what the buffer held. |
| `Fat32Scan.ScanIgnoresStale` | src/file-systems/fat32.c:656-684 | A scan of a directory whose runs all end in a live slot does not depend on the initial buffer, and ends with the flag clear. |
| `Fat32Scan.RunThenLive` | src/file-systems/fat32.c:225-309 | A run followed by a live slot yields one entry, named by the run if the flag is set, and the rest of the directory is scanned as if the run were not there. |
| `Fat32Format.SlotsRequired` | src/file-systems/fat32.c:311-336 | Long-name slots are written exactly for a base of more than 8 characters, an extension of more than 3, a space, a plus or a small letter, one for each 13 characters, up to 20. |
| `Fat32Format.AliasCharacters` | src/file-systems/fat32.c:374-383 | An alias takes over exactly the bases of at most 8 of the characters A to Z, 0 to 9 and the 16 symbols of the code's list, with extensions of at most 3. |
| `Fat32Format.PlainAliasIs` | src/file-systems/fat32.c:385-391 | The plain alias is base and extension in capitals, filled up with spaces to 8 and 3. |
| `Fat32Format.NumberedAliasIs` | src/file-systems/fat32.c:397-413 | A numbered alias has as much of the base as leaves room for "~" and the digits in the first 8 bytes, byte for byte. |
| `Fat32Format.DigitsSpell` | src/file-systems/fat32.c:402 | The digits are decimal, without a leading 0. |
| `Fat32Format.AliasChosen` | src/file-systems/fat32.c:360-419 | The alias chosen is the plain one if it can be made and no slot carries it, else the lowest numbered one that no slot carries, and none exactly when all are carried. |
| `Fat32Entries.AliasIsNew` | src/file-systems/fat32.c:360-419 | The alias chosen for a name is carried by no slot of the directory, and is neither free nor a deletion mark. |
| `Fat32Entries.ShortNameRoundTrip` | src/file-systems/fat32.c:237-309 | An 8.3 name stored without long-name slots reads back unchanged if and only if it has no empty extension after a dot and the stale case flags of its slot contradict no upper-case letter. |
| `Fat32Entries.NewSlotsScan` | src/file-systems/fat32.c:540-609 | The slots written for an entry scan to exactly one entry with its name, cluster, attributes and size. |
| `Fat32Entries.InsertScan` | src/file-systems/fat32.c:656-684 | Writing such slots over free ones adds exactly their entry to the scan of the directory, in place. |
| `Fat32Write.Check83NameExists` | src/file-systems/fat32.c:338-358 | True exactly when some slot of the whole directory carries the alias. |
| `Fat32Write.Get83Name` | src/file-systems/fat32.c:360-419 | Returns the alias function of the directory: the plain alias if free, else the lowest free numbered one, else failure. |
| `Fat32Write.OneCharacterShows` | src/file-systems/fat32.c:421-429 | The rotating checksum tells any two names apart that differ in exactly one character, wherever it is and whatever the sum before it. |
| `Fat32Format.RotatesRight` | src/file-systems/fat32.c:424 | The checksum rotates to the right by one bit before a character is added, modulo 256. |
| `Fat32Format.ChecksumAppends` | src/file-systems/fat32.c:421-429 | The characters are added in order, from the first one on. |
| `Fat32Write.CountClusters` | src/file-systems/fat32.c:505-513 | The loop counts the clusters of the directory. |
| `Fat32Write.MakeRoom` | src/file-systems/fat32.c:494-520 | Finds the first room in the directory or grows it by one zeroed cluster. |
| `Fat32Write.PutLongSlots` | src/file-systems/fat32.c:540-584 | The loop leaves exactly the long-name slots of the name in the cluster buffer, and every other slot as it was. |
| `Fat32Write.StoreSlots` | src/file-systems/fat32.c:521-609 | The directory afterwards has exactly the entry's slots written at its place; nothing changes when no alias is left. |
| `Fat32Dir.FindFreeEntries` | src/file-systems/fat32.c:431-468 | Returns the least index at which enough consecutive free slots start in the concatenated directory, and end-of-chain exactly when there is none. |
| `Fat32Dir.RoomIsLeast` | src/file-systems/fat32.c:431-468 | What it looks for is the first of as many slots in a row that begin with 0 or 0xE5. |
| `Fat32Dir.SlotBytes` | src/file-systems/fat32.c:438-447 | Slot `i` of a directory is the 32 bytes at its place in its cluster. |
| `Fat32AddEntry.WriteEntry` | src/file-systems/fat32.c:493-609 | A new entry is added where `Added` says, an existing one overwritten in place, and the entry's index updated, for slots whose offset in the directory fits 32 bits. |
| `Fat32AddEntry.RoomIsGood` | src/file-systems/fat32.c:494-520 | The room is free slots of the directory, which otherwise is unchanged, also when it had to grow. |
| `Fat32AddEntry.NewEntryIsFound` | src/file-systems/fat32.c:493-609 | After a new entry was written, scanning yields all former entries unchanged plus exactly the new one, with its cluster, size and attributes, also when the directory had to grow. |
| `Fat32Aliases.StoredUnderOwnName` | src/file-systems/fat32.c:360-419 | What the alias chosen spells is the name, but for case, if and only if long-name slots are written, or the plain alias is taken and no extension is missing behind a dot. |
| `Fat32Aliases.PlainAliasTaken` | src/file-systems/fat32.c:375-396 | The plain alias is chosen if and only if no slot carries it and the name has only characters an alias takes over, or else the lowest free numbered alias coincides with it. |
| `Fat32Aliases.NumberedIsPlain` | src/file-systems/fat32.c:398-413 | A numbered alias coincides with the plain one if and only if the eight characters of the base end in its tail. |
| `Fat32Format.PlainNameKept` | src/file-systems/fat32.c:374-393 | A name of 1 to 8 characters that aliases take over, with no dot or an extension of 1 to 3 characters without small letters, is found again wherever no slot carries its 11 bytes. |
| `Fat32AddEntry.EntryKeepsName` | src/file-systems/fat32.c:586-590 | A written entry is found again under its name, and reads back exactly as it, each under an exact condition on the directory and the slot before the write. |
| `Fat32AddEntry.AddedKeepsName` | src/file-systems/fat32.c:493-609 | The same for the whole operation, in terms of the directory before it, also when it had to grow. |
| `Fat32Iterate.FAT32Iterator.constructor` | src/file-systems/fat32.c:627-654 | A fresh iterator stands at the first slot of the chain. |
| `Fat32Iterate.FAT32Iterator.Next` | src/file-systems/fat32.c:656-684 | Each call returns the next element of the scan of all slots of the chain, and nothing exactly at its end. |
| `Fat32Path.SearchDir` | src/file-systems/fat32.c:738-752 | The loop finds the first entry whose name agrees but for case. |
| `Fat32Path.FindEntry` | src/file-systems/fat32.c:692-777 | The recursion computes `Find`, for any path whose lookup descends only into known directories, and terminates. |
| `Fat32Path.FindIsTreeWalk` | src/file-systems/fat32.c:692-777 | For paths of non-empty components without a leading slash, lookup is the tree walk: first match per component, directories only in the middle; and it stays in known directories exactly when the walk does. |
| `Fat32Path.DirectoryBit` | src/file-systems/fat32.c:754 | Bit 4 of the attributes makes a directory, whatever the other seven are. |
| `Fat32Path.FindsRoot` | src/file-systems/fat32.c:707-734 | The empty path and "/" give a nameless entry with attribute 0x10 in the parent 0x0FFFFFF7. |
| `Fat32Path.FindsName` | src/file-systems/fat32.c:738-752 | A name without a slash finds the first entry of that name. |
| `Fat32Path.FindsThrough` | src/file-systems/fat32.c:754-771 | In front of a slash an entry leads on exactly if bit 4 of its attributes is set, and then to what the rest of the path finds in its directory. |
| `Fat32Path.WalkableWithoutDotDot` | src/file-systems/fat32.c:692-777 | On a volume whose listed directories are known, but for ".." entries, lookup of every path without ".." stays in known directories. |
| `Fat32Path.FoundIsWalkable` | src/file-systems/fat32.c:692-777 | Whatever is found is found by way of known directories. |
| `Fat32Path.LeadingSlashFindsNoFile` | src/file-systems/fat32.c:707-750 | With a leading slash, lookup never finds a file, and returns a nameless root for every directory. |
| `Fat32CreateEntry.FindBasepath` | src/file-systems/file-system.c:314-322 | The loop returns what follows the last slash. |
| `Fat32CreateEntry.FindDirname` | src/file-systems/file-system.c:300-312 | The loop returns what precedes the last slash, and nothing when that is the first character. |
| `Fat32CreateEntry.SplitJoined` | src/file-systems/fat32.c:794-795 | Splitting a path of components at its last slash gives the last component and the path of the others. |
| `Fat32CreateEntry.SplitAnywhere` | src/file-systems/file-system.c:300-322 | Any path is split at its last slash. |
| `Fat32CreateEntry.ClaimCluster` | src/file-systems/fat32.c:811-822 | Allocates the lowest free cluster as a chain of its own; end-of-chain exactly when none is free. |
| `Fat32CreateEntry.CreateEntry` | src/file-systems/fat32.c:785-841 | An existing entry is returned; without a parent or a free cluster nothing changes; otherwise the cluster is claimed and the entry added to the parent. |
| `Fat32Create.ParentListsNew` | src/file-systems/fat32.c:785-841 | The parent directory lists all its former entries and exactly one more. |
| `Fat32Create.OtherDirKept` | src/file-systems/fat32.c:785-841 | Every other directory lists what it listed. |
| `Fat32Create.NewDirIsEmpty` | src/file-systems/fat32.c:821-822 | A newly created directory lists nothing. |
| `Fat32Create.TreeAfter` | src/file-systems/fat32.c:785-841 | The directories, with a new one if it is one, are directories still, and a volume whose directories are all known stays one. |
| `Fat32Create.ApartAfter` | src/file-systems/fat32.c:785-841 | The chains of the directories are apart from each other still, so creations can follow each other. |
| `Fat32Create.NewEntryName` | src/file-systems/fat32.c:785-841 | The new entry has the cluster, attributes and size asked for, and reads back under the name asked for under exact conditions on the parent before the call. |
| `Fat32Create.MatchAfter` | src/file-systems/fat32.c:738-752 | Searching a directory after a creation gives the new entry exactly in its parent, for names like the stored one that no entry in front of it has, and otherwise what it gave before. |
| `Fat32Create.WalksAfter` | src/file-systems/fat32.c:692-777 | What becomes of every walk that stays in known directories, whatever the stored name is like: it finds the new entry if its last component is the first to meet it, nothing if it would lead on from it, and what it found in all other cases. |
| `Fat32Create.NewNameWalks` | src/file-systems/fat32.c:692-777 | When the stored name is like no listed one, a creation adds exactly the paths that walk to its parent and end in the stored name, in any case of letters; every other path leads where it led. |
| `Fat32Create.LostNameIsNotFound` | src/file-systems/fat32.c:785-841 | An entry not stored under the name asked for is not found under it, whatever else the path meets. |
| `Fat32CreateEntry.CreatedIsCreation` | src/file-systems/fat32.c:785-841 | A successful call that claims a cluster is such a creation in the directory the path names, and returns its entry. |
| `Fat32CreateEntry.CreatedPathIsFound` | src/file-systems/fat32.c:785-841 | After a creation, lookup of the path finds the new entry if and only if the parent, before the call, leaves the name its plain alias or long-name slots are written; otherwise it finds nothing. |
| `Fat32CreateEntry.PlainNameIsFound` | src/file-systems/fat32.c:785-841 | A file created under such a plain name, in a directory no slot of which carries its 11 bytes, is found. |
| `Fat32CreateEntry.OtherPathsAreKept` | src/file-systems/fat32.c:785-841 | The same for lookup of every path of non-empty components that stays in known directories. |
| `Fat32CreateEntry.SlashedPathAddsAnother` | src/file-systems/fat32.c:785-841 | Creating "/x" where "x" is no directory adds an entry for "x" to the root whether there is one or not; lookup finds neither before nor after, so the next call does the same. |
| `Fat32Delete.DeletedSlot` | src/file-systems/fat32.c:1028-1032 | Deleting puts 0xE5 in front of exactly the entry's 8.3 slot, which is free then, and keeps its fields. |
| `Fat32Delete.DeleteShortEntry` | src/file-systems/fat32.c:1023-1041 | Deleting an entry without long-name slots removes exactly that entry from the scan. |
| `Fat32Delete.FindRun` | src/file-systems/fat32.c:225-309 | Every live slot of a clean directory is preceded by its own complete run of long-name slots, or none, behind a clean rest. |
| `Fat32Delete.OrphanedNameIsTakenOver` | src/file-systems/fat32.c:239 | Deleting an entry takes it out of the scan and renames at most the next one; exactly that entry leaves if and only if its run has no last-slot flag or the next entry takes over its own name; the directory stays clean if and only if there was no run. |
| `Fat32Marks.MarkedNameIsNotListed` | src/file-systems/fat32.c:239 | Slots written for a name that begins with 0xE5 add nothing to the scan; if they include long-name slots, the first entry behind takes over that name, and the scan is as before if and only if that one takes over its own. |
| `Fat32Marks.AddedMarkedName` | src/file-systems/fat32.c:493-609 | The same for the whole operation, which succeeds, also when the directory had to grow. |
| `Fat32Marks.DeletedLongSlotsRename` | src/file-systems/fat32.c:226-234 | Long-name slots marked deleted, and free slots behind them, give the next live slot the name that the buffer then holds: what it held before, if that was shorter than 52 characters, so none on a fresh buffer. |
| `Fat32Remove.DeleteEntry` | src/file-systems/fat32.c:1023-1041 | Marks the entry in place and then resets its chain; nothing changes when the path is not found. |
| `Fat32Remove.DeleteKeepsFirstCluster` | src/file-systems/fat32.c:1034 | A deletion changes one slot of the directory and frees the chain except its first cluster, which stays allocated. |
| `Fat32Remove.DeletedListing` | src/file-systems/fat32.c:1023-1041 | What the directory on the volume lists after a deletion, with the same exact condition. |
| `Fat32File.ReadFile` | src/file-systems/fat32.c:907-948 | For every offset up to the size, returns exactly the slice of the file's content there and leaves the rest of the buffer alone, also when the chain is longer than the size calls for. |
| `Fat32File.ClustersForIsLeast` | src/file-systems/fat32.c:954 | The count of clusters for a size is the least that holds it, and 1 for an empty file. |
| `Fat32File.ClusterOfContent` | src/file-systems/fat32.c:916-946 | Cluster `k` of a chain holds the content from `k` times the cluster size on, and links to cluster `k + 1`. |
| `Fat32File.WriteClusters` | src/file-systems/fat32.c:974-1003 | The loop splices the data into the content of the chain, and changes nothing else. |
| `Fat32WriteFile.WriteFile` | src/file-systems/fat32.c:950-1005 | The volume, the size and the count of bytes written are those of `FileWritten`; name, cluster and place of the entry stay. |
| `Fat32WriteFile.WriteIsSplice` | src/file-systems/fat32.c:950-1005 | A successful write turns the content into its splice with the data, growing size and chain; it succeeds exactly when the free clusters suffice, and conserves free clusters plus chain. |
| `Fat32WriteFile.WriteKeepsOthers` | src/file-systems/fat32.c:950-1005 | No chain apart from the file's changes in its links, or, unless it is the parent directory, in its bytes. |
| `Fat32WriteFile.FailedWriteTakesAll` | src/file-systems/fat32.c:957-959 | A write that fails for lack of clusters has linked every free cluster to the file without growing its size. |
| `Fat32Update.OverwriteScan` | src/file-systems/fat32.c:586-602 | Writing an existing entry in place changes its size in the scan, and nothing else; the directory stays clean. |
| `Fat32Update.WriteKeepsListings` | src/file-systems/fat32.c:950-1005 | After a write all directories list what they listed, but for the size of the file's entry, which is the new one exactly when the file grew and some alias is left for its name. |
| `Fat32Update.FindResized` | src/file-systems/fat32.c:692-777 | Such volumes answer every lookup alike, but for that size, and need the same directories for it. |
| `Fat32Update.WriteThenFind` | src/file-systems/fat32.c:957-965 | Looking a path up after writing to its file finds the entry with the size on disk; every other lookup gives what it gave; the directories stay known. |
| `Fat32Update.WriteThenOpen` | src/file-systems/fat32.c:871-1005 | Writing to a file, looking its path up again and reading gives the old content with the data spliced in, cut off at the old size if and only if the file grew and no alias is left for its name. |
| `Fat32Open.OpenFile` | src/file-systems/fat32.c:871-905 | Opening finds or creates the entry, refuses directories, and with truncation resets the chain and empties the file in memory. |
| `Fat32Open.OpensExactlyFiles` | src/file-systems/fat32.c:879-890 | An entry that is there is opened if and only if bit 4 of its attributes is clear, whatever the other bits are, with its own fields, but for the size 0 after truncation. |
| `Fat32Open.CreatedFileIsEmpty` | src/file-systems/fat32.c:874-875 | A file that opening creates has size 0, no attributes, the path's last component for a name and the lowest free cluster. |
| `Fat32Open.TruncationIsInMemory` | src/file-systems/fat32.c:884-890 | Truncation frees all clusters of the file but the first and writes no cluster; every lookup finds what it found, with the old size, for which the chain left is the right one if and only if that size fits one cluster. |
| `Fat32Update.ResetKeepsPaths` | src/file-systems/fat32.c:859-868 | Resetting a chain apart from the directories changes no lookup. |
| `Fat32Runs.WriteStepKeeps` | src/file-systems/fat32.c:950-1005 | A write keeps the invariant of all files and directories, conserves clusters, and acts on the files as a splice on one byte sequence. |
| `Fat32Runs.TruncateStepKeeps` | src/file-systems/fat32.c:884-890 | Truncating does the same, as emptying one byte sequence. |
| `Fat32Runs.CreateStepKeeps` | src/file-systems/fat32.c:785-841 | Creating does the same, as adding one empty byte sequence. |
| `Fat32Runs.RunRefines` | src/file-systems/fat32.c:470-491 | Over every failure-free run of creating, writing and truncating: all chains stay acyclic, disjoint, free of free clusters and of the length their sizes call for; free clusters plus chains are conserved; the files refine plain byte sequences. |
| `IdentityHeapModel.IdentityHeap.constructor` | src/memory/managers/identity.c:43-50 | Initialising one region gives the list of a single free block over it. |
| `IdentityHeapModel.IdentityHeap.DivideBlock` | src/memory/managers/identity.c:68-77 | The header written inside a block divides it in two; only the two headers' bytes change. |
| `IdentityHeapModel.IdentityHeap.AbsorbNext` | src/memory/managers/identity.c:203-206 | A block takes over its successor; only its own header's bytes change. |
| `IdentityHeapModel.IdentityHeap.Malloc` | src/memory/managers/identity.c:58-84 | The list in memory and the pointer are those of `HeapBlocks.Malloc`; no live payload changes. |
| `IdentityHeapModel.IdentityHeap.AlignedAlloc` | src/memory/managers/identity.c:87-150 | The same for aligned allocation with its 64-bit sums, as long as none wraps on the way to the block, including the merge of the leading fragment with a free predecessor. |
| `IdentityHeapModel.IdentityHeap.Realloc` | src/memory/managers/identity.c:152-194 | The same for `realloc`; the old bytes are found at the returned pointer, every other live payload is unchanged. |
| `IdentityHeapModel.IdentityHeap.Free` | src/memory/managers/identity.c:196-223 | The same for `free`, with coalescing on both sides. |
| `IdentityHeapModel.IdentityHeap.GetAvailable` | src/memory/managers/identity.c:226-238 | The loop sums the free blocks. |
| `HeapWrap.WrapDecidesTest` | src/memory/managers/identity.c:111 | For a free block that is tested, the wrapped test is right if and only if the sum of size and least padding is below 2^64. |
| `HeapWrap.WrapDecidesSearch` | src/memory/managers/identity.c:94-115 | The search with wrapped tests finds the block it is to find if and only if no sum wraps on the way to it. |
| `HeapWrap.TilesAreSmall` | src/memory/managers/identity.c:105-110 | In a region that ends more than 48 bytes below 2^64 the padding itself never wraps. |
| `HeapWrap.SmallSumsDoNotWrap` | src/memory/managers/identity.c:111 | No sum wraps when size, alignment and header together are below 2^64. |
| `HeapWrap.HugeAlignmentWraps` | src/memory/managers/identity.c:111 | A witness: an alignment near 2^64 for which a block without room passes the test. |
| `HeapBlocks.BlocksApart` | src/memory/managers/identity.c:58-223 | In a tiling, blocks are disjoint and in address order. |
| `HeapMemory.HeaderBytes` | src/memory/managers/identity.c:16-22 | In memory each block has its size in the first 8 bytes of its header, the address of the next header or 0 in the next 8, the flag in bit 0 of the next byte, and its payload 24 bytes behind. |
| `HeapLaws.LiveDetermines` | src/memory/managers/identity.c:196-223 | Two lists over one region, kept by these calls, with the same live blocks are the same: the live blocks determine the free ones. |
| `HeapBlocks.MallocKeepsInv` | src/memory/managers/identity.c:58-84 | `malloc` keeps the list a gap-free tiling without two free neighbours and without empty blocks. |
| `HeapBlocks.AlignedAllocKeepsInv` | src/memory/managers/identity.c:87-150 | So does `aalloc`. |
| `HeapBlocks.ReallocKeepsInv` | src/memory/managers/identity.c:152-194 | So does `realloc`. |
| `HeapBlocks.ReleaseKeepsInv` | src/memory/managers/identity.c:196-223 | So does `free`. |
| `HeapLaws.MallocTakesLowest` | src/memory/managers/identity.c:58-84 | `malloc` fails, changing nothing, exactly when no free block is large enough; otherwise it takes the lowest that is. |
| `HeapLaws.PaddingIsLeast` | src/memory/managers/identity.c:105-109 | The padding found by the loop aligns, leaves a header and at least one byte in front, and is the least that does. |
| `HeapLaws.AlignedAllocTakesLowest` | src/memory/managers/identity.c:87-150 | `aalloc` fails exactly when no free block has room behind its least admissible padding; otherwise the result is a multiple of the alignment in the lowest such block. |
| `HeapLaws.MallocHandsOut` | src/memory/managers/identity.c:58-84 | A successful `malloc` adds exactly one live block: of the size asked for, or of all of the free block it is in if that has at most 24 bytes more. |
| `HeapLaws.AlignedAllocHandsOut` | src/memory/managers/identity.c:87-150 | So does a successful `aalloc`. |
| `HeapLaws.ReleaseForgets` | src/memory/managers/identity.c:196-223 | `free` removes exactly the freed block from what is live. |
| `HeapLaws.ReallocExchanges` | src/memory/managers/identity.c:152-194 | `realloc` leaves a block that is large enough; else it exchanges it for one of the size asked for, or with what cannot be split off; the pointer stays exactly when the block, or it, a free neighbour and 24 bytes, have room, else the lowest large enough free block is taken; it fails and changes nothing exactly when there is none. |
| `HeapLaws.EdgesOfCalls` | src/memory/managers/identity.c:58-154 | Asking for 0 bytes gives nothing, alignments below 2 are `malloc`, and `realloc` of NULL or to 0 bytes is `malloc` or `free`. |
| `HeapLaws.FreeUndoesMalloc` | src/memory/managers/identity.c:196-223 | `free` right after a successful `malloc` restores the exact list. |
| `HeapLaws.FreeUndoesAlignedAlloc` | src/memory/managers/identity.c:196-223 | `free` right after a successful `aalloc` restores the exact list, the leading fragment included. |
| `HeapLaws.FreeingAllRestores` | src/memory/managers/identity.c:196-223 | Freeing all live blocks in any order restores the single initial block. |
| `HeapLaws.EveryByteAccounted` | src/memory/managers/identity.c:226-238 | Available bytes, bytes in use and 24 for each header add up to the region; nothing free is nothing available, nothing live is nothing in use. |
| `HeapRegions.ReleaseKeepsMemory` | src/memory/managers/identity.c:196-223 | On any ascending list of blocks, gaps allowed, `free` keeps exactly the memory the list had if and only if the blocks it merges touch. |
| `HeapRuns.StepRefines` | src/memory/managers/identity.c:58-223 | Every call, and every store into a live payload, acts on the contents as on an ideal heap of separate byte strings. |
| `HeapRuns.RunRefines` | src/memory/managers/identity.c:58-223 | In every run all states are tilings without two free neighbours, no byte is lost, and the contents evolve as an ideal heap's. |
| `PeExports.HashStep` | src/memory/utils.c:34-43 | The hash starts at 0xCBF29CE484222325; each byte is combined by exclusive or and the result multiplied by 0x100000001B3, modulo 2^64. |
| `PeExports.XorBits` | src/memory/utils.c:39 | The exclusive or differs from one number exactly in the bits of the other. |
| `PeExports.FirstInTableOrder` | src/file-formats/pe.c:34-45 | What a name is looked up to be is the first row in table order with its hash, and nothing exactly when there is none. |
| `PeExports.BuildIndex` | src/file-formats/pe.c:107-126 | The loop builds the bucketed index of the export table, skipping rows without a name. |
| `PeExports.GetFunctionAddress` | src/file-formats/pe.c:34-45 | Returns the address of the first row in table order whose name has the hash of the requested one, and nothing exactly when there is none. |
| `PeExports.IndexAgreesWithTable` | src/file-formats/pe.c:107-126 | Looking a hash up in the index agrees with a linear scan of the table. |
| `PeExports.ExportedNameIsFound` | src/file-formats/pe.c:34-45 | If the row's name shares its hash with no different row, the name is found under its own address. |
| `PeLoaderModel.PeLoader.FindLibrary` | src/file-formats/pe.c:177-181 | The chain walk finds a library exactly when it is cached. |
| `PeLoaderModel.PeLoader.Link` | src/file-formats/pe.c:128-135 | A new library goes to the end of its chain. |
| `PeLoaderModel.PeLoader.Unlink` | src/file-formats/pe.c:141-150 | Exactly that library leaves its chain; the order of the others stays. |
| `PeLoaderModel.PeLoader.UnloadLibrary` | src/file-formats/pe.c:140-165 | Removes an unreferenced library and, through its references, whatever is then unreferenced; the cache stays sound. |
| `PeLoaderModel.PeLoader.UnloadFile` | src/file-formats/pe.c:394-409 | Drops the module's references; afterwards every count is again the number of references held, and nothing unreferenced is cached. |
| `PeLoaderModel.PeLoader.BindNames` | src/file-formats/pe.c:213-239 | Succeeds exactly when no import is by ordinal and every name is exported, and then stores the offset of each. |
| `PeCache.BoundIsFirstNamed` | src/file-formats/pe.c:226-238 | The offset stored for a name is that of the first row of the library's table with the name's hash. |
| `PeLoaderModel.PeLoader.Acquire` | src/file-formats/pe.c:173-190 | Takes the library from the cache or loads it, with one more reference; a failed call leaves the state as it was. |
| `PeLoaderModel.PeLoader.ResolveImports` | src/file-formats/pe.c:167-243 | Succeeds exactly when every import names a loadable library that exports what is imported, and then binds every name; the references taken are counted either way. |
| `PeLoaderModel.PeLoader.LoadLibrary` | src/file-formats/pe.c:48-138 | Succeeds exactly when the library is loadable; a failed call leaves counts, cache and chain order exactly as they were. |
| `PeLoaderModel.PeLoader.LoadFile` | src/file-formats/pe.c:286-387 | The same for a module; after a success it holds one reference per import. |
| `PeCache.OutsideDetermines` | src/file-formats/pe.c:167-204 | With acyclic imports, the references held from outside determine the whole cache with all its counts. |
| `PeCache.GrowThenDrop` | src/file-formats/pe.c:128-150 | Appending to the chains and then dropping what was not there before restores the chains exactly. |
| `PeRuns.UnloadUndoesLoad` | src/file-formats/pe.c:394-409 | Unloading what was just loaded gives back the exact cache, chain order included. |
| `PeRuns.NothingLoadedNothingCached` | src/file-formats/pe.c:394-409 | When no executable is loaded, the cache and all chains are empty. |
| `PeRuns.RunKeeps` | src/file-formats/pe.c:167-204 | In every run of loads and unloads each count equals the references live modules hold, hashes are distinct and in the right chain, and the cache is empty whenever nothing is loaded. |
| `PeRelocation.ResolveRelocations` | src/file-formats/pe.c:245-284 | With a table and a non-zero delta every site is patched up to the first bad block or entry, which is reported; otherwise nothing changes, and nothing is asked of the table. |
| `PeRelocation.ApplyAdds` | src/file-formats/pe.c:266-276 | The word at each listed site grows by exactly the delta, modulo 2^64 or 2^32. |
| `PeRelocation.ApplyKeeps` | src/file-formats/pe.c:266-276 | No byte outside the listed sites changes. |
| `PeRelocation.ApplyComposes` | src/file-formats/pe.c:266-276 | Relocating by `d` and then by `e` is relocating by `d + e`. |
| `PeRelocation.RelocationUndone` | src/file-formats/pe.c:245-284 | The table is read the same afterwards, and relocating by the opposite delta gives the image back. |
| `PeRelocTable.EntryTypes` | src/file-formats/pe.c:261-281 | Of an entry, the high 4 bits say what it is: 10 patches the 8 bytes at its offset in the page, 3 the 4 bytes there, 0 nothing, and every other type ends the walk with a failure. |
| `PeRelocTable.TableReadBack` | src/file-formats/pe.c:254-281 | The walk over a table encoded as the PE format prescribes lists exactly the encoded sites, in order, and succeeds. |
| `LineDrawing.FrameBuffer.SetPixel` | src/video/gop.c:59-64 | Sets the pixel inside the screen, nothing outside; its number is computed in 32 bits. |
| `LineDrawing.FrameBuffer.DrawLine` | src/video/gop.c:73-89 | To the right and down, with all values `int`s, the loop ends, and the frame buffer afterwards is the old one with the points of `Line` plotted. |
| `LineDrawing.StepStaysNear` | src/video/gop.c:84-87 | A turn of the loop keeps the error term consistent and the point within half a pixel of the ideal line, and advances the longer axis. |
| `LineDrawing.EndReachedExactly` | src/video/gop.c:80-88 | The end point is reached after exactly as many turns as the longer axis is long, and no axis overshoots. |
| `LineDrawing.ShortLinesFit` | src/video/gop.c:78-87 | If three times the longer distance is below 2^31, no value of the loop exceeds an `int`. |
| `LineEnds.FarLineOverflows` | src/video/gop.c:84 | A witness: on a line shorter than 2^30 the doubled error term exceeds an `int`. |
| `LineEnds.PenAt` | src/video/gop.c:80-88 | After `n` turns the longer axis has advanced by `n` and the other one by its share of `n`, rounded half up. |
| `LineDrawing.LineIsNear` | src/video/gop.c:73-89 | Every plotted point is within half a pixel of the ideal line. |
| `LineDrawing.LineIsConnected` | src/video/gop.c:73-89 | The line starts and ends at its end points and consecutive points are neighbours. |
| `LineDrawing.OnlyThePointsAreDrawn` | src/video/gop.c:59-64 | A pixel has the color if a point inside the screen is drawn there, and is unchanged otherwise. |
| `LineDrawing.FrameBuffer.DrawTurns` | src/video/gop.c:73-89 | The loop for a line in any direction, in 32-bit coordinates with differences converted to `int`: its first turns plot exactly the positions of `Trail`, and it stops at the first that is the end. |
| `LineEnds.PositionIsPen` | src/video/gop.c:73-89 | To the right and down, at distances below 2^31, these positions are the pen's on the line, and no 32-bit coordinate wraps. |
| `LineEnds.ForwardIsPen` | src/video/gop.c:73-89 | Wherever both converted differences have the sign of an advance, the positions are the pen's, taken modulo 2^32 in the directions the coordinates are compared to have. |
| `LineEnds.TrailIsLine` | src/video/gop.c:73-89 | To the right and down, at distances below 2^31, the trail is the line. |
| `LineEnds.StaysOff` | src/video/gop.c:74-76 | If a converted difference has the sign of a retreat, one coordinate that differs from the end's never moves, or none does. |
| `LineEnds.EndsOnlyRightAndDown` | src/video/gop.c:73-89 | With both distances below 2^31, some turn reaches the end if and only if the end lies neither to the left of the start nor above it. |
| `LineEnds.EndsExactly` | src/video/gop.c:73-89 | For all 32-bit coordinates: some turn reaches the end if and only if both converted differences have the sign of an advance and, at one of finitely many turns at which the longer axis is at its end, the rounded share of the other one is its end, too. |
| `LineEnds.StraightLinesEnd` | src/video/gop.c:73-89 | A horizontal or vertical line of any length ends if and only if its converted difference has the sign of an advance. |
| `LineEnds.LongLinesEnd` | src/video/gop.c:73-89 | With both distances above 2^31 the loop ends if and only if the end lies to the left of the start and above it. |
| `LineEnds.FarLeftEnds` | src/video/gop.c:74-76 | A witness: the line from (0xC0000001, 0) to (0, 0) ends after 0xC0000001 turns to the left. |
| `LineEnds.ErrorGrowth` | src/video/gop.c:78-87 | After `n` turns the error term is at most `n + 1` times the sum of the differences; while twice that is below 2^31, its double is an `int`, so the above holds in 32 bits. |
| `LineEnds.ErrorIsBounded` | src/video/gop.c:78-87 | On a line that has the sign of an advance, twice the error term never exceeds three times the longer difference. |
| `MountTableModel.MountTable.MountFileSystem` | src/file-systems/file-system.c:21-54 | Adds the mount exactly when its point is new and a file system accepts the device. |
| `MountTableModel.MountTable.UnmountFileSystem` | src/file-systems/file-system.c:56-71 | Removes exactly the mount of that point, although the last one moves into its place. |
| `MountTableModel.MountTable.GetMount` | src/file-systems/file-system.c:74-98 | Returns the longest non-empty mount point that is a component-boundary prefix of the path, with the exact rest of the path, and nothing exactly when there is none; no other answer would do. |
| `MountTableModel.MountIsUnique` | src/file-systems/file-system.c:74-98 | That answer depends only on the set of mounts, not on the order of the table. |
| `MountTableModel.SwapRemove` | src/file-systems/file-system.c:66 | Swap-remove keeps the points distinct and removes exactly one. |
| `Float64.JoinSplit` | src/math/math.c:386-394 | Splitting what was joined from sign, exponent and mantissa gives them back. |
| `Float64.SplitJoin` | src/math/math.c:386-394 | Joining what the bits were split into gives the bits back. |
| `Float64.TruncIsTowardZero` | src/math/math.c:385-414 | For every finite number, masking equals exact rounding toward zero. |
| `Float64.TruncIsIdempotent` | src/math/math.c:385-414 | Truncating twice is truncating once, bit for bit, for infinities and NaNs too. |
| `Float64.AwayIsExact` | src/math/math.c:321-350 | Adding or subtracting 1.0 where these functions do is exact. |
| `Float64.FractionIsExact` | src/math/math.c:344-350 | The difference of a number and its integer part is representable. |
| `Float64.FloorIsExact` | src/math/math.c:331-334 | `floor` is the largest integer not above the number. |
| `Float64.CeilIsExact` | src/math/math.c:321-324 | `ceil` is the smallest integer not below the number. |
| `Float64.RoundIsExact` | src/math/math.c:344-350 | `round` is the nearest integer, halves away from zero. |

## Left out

- Device failures and failed memory allocation in the FAT32 driver and the loader: allocations and transfers within the device succeed, so the booleans that report them are constant.
- Timestamps of directory entries, probing a device for FAT32, `moveFAT32Entry`, `makeFAT32Dir`, and the wrappers that hand calls on to the driver.
- Writes at an offset beyond the end of a file, and several handles on one file.
- Entries whose slots straddle two clusters: the code stores them in one cluster only.
- Fat32Write.Get83Name: the alias is a value of 11 bytes, not a buffer written in place; cluster and sector buffers of the driver are values too, while the long-name buffer, the read buffer and single slots are arrays.
- FAT32Iterator: an iterator over a volume that is written to between its calls is not modelled.
- Fat32Runs.RunRefines: deletion and failed writes are no steps of these runs; their effects are stated by lemmas of their own.
- Fat32CreateEntry.CreateEntry: does not model an existing parent that is a file, because the code would write slots into that file's clusters.
- Fat32Mount.FAT32Mount.AllocCluster: does not model disks on which the first sector of an entry scanned wraps; `RefusedExactly` says what the write does there.
- IdentityHeapModel.IdentityHeap.AlignedAlloc: does not model requests whose 64-bit sums wrap on the way to the block; `WrapDecidesSearch` says exactly which those are.
- The memory map walk of heap initialisation: one region is set up directly. Several regions appear only in `HeapRegions`.
- PeLoaderModel.PeLoader.LoadLibrary: does not model 16-bit wrap-around of `refCount` and `nDllRefs`; counts are unbounded. Library structures are identified by their hashes instead of addresses.
- PeLoaderModel.PeLoader.LoadFile: parsing of headers and sections is a given fact of the file, and so is whether its relocations succeed, which `PeRelocation` decides; an address in an import table is a library and an offset into it, not a sum.
- LineDrawing.FrameBuffer.DrawLine: lines to the left or upwards, and lines on which a value exceeds an `int`, which is undefined in C; `DrawTurns` has the first turns of every line, with an unbounded error term, and `LineEnds` says which of them end.
- Fat32Path.FindEntry: descending into an entry whose cluster is no directory, as a standard ".." of cluster 0 is not: the code would read sectors in front of the data as slots.
- Float64: 32-bit functions, the functions on foreign instructions, and printing of numbers. Sums are exact where used, so no rounding is modelled; `floor`, `ceil` and `round` of infinities and NaNs return their argument as `trunc` does.
- Drivers, interrupts, boot code, glyph drawing, screen shifts, partition tables and string helpers.
