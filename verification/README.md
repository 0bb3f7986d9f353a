# Storage, object and memory layers of a small x86-64 kernel, modelled and proved in Dafny

The kernel keeps its files on an exFAT-like volume in memory, its objects ("MetaFS") in files of that volume, and its
memory in a frame bitmap, four levels of page tables, a range allocator for virtual memory, a first-fit heap and a pool
for DMA buffers. Keys arrive through a ring buffer filled by an interrupt handler. This project models these layers in
the form the kernel has them: classes over byte arrays, bitmaps, page tables, node pools and linked nodes, with the
loops of the original, and each method proved against a specification. Theorems about the specifications then say what
the layers are for.

## What is proved

**Storage.** `Layout` and `Volumes` turn the sectors of the disk into a table and clusters. `Chains` holds the
invariant: every file has an acyclic chain of its own that is long enough for its size, and the used directory slots are
a dense prefix. `FileSystem` contains the operations; each keeps the invariant (but for writes beyond 4 GB, see below)
and changes the map from names to contents as stated, with the exact number of bytes a write stores and the exact
conditions under which a create succeeds. `Session` puts them together: whatever is done through any number of open
files, several of which may be on one file, the disk follows a map from names to byte sequences. `Format` proves when
the computed layout is sound - for every volume of 15392 sectors or more, and for smaller ones exactly under a stated
condition - and that a formatted disk starts the file system off correctly.

**Objects.** `Crc32` proves the table-driven checksum equal to the bitwise CRC-32 of section 8 of RFC 1952, and that
every change within four consecutive bytes is noticed. `Hex`, `MetaFiles` and `Links` compose printing and scanning of
identifiers with the file operations. `ObjectIndex` proves the in-place table a map from identifiers to entries that
keeps the order of creation and never issues an identifier twice; `IndexStore` proves that its image in a file is loaded
as it was saved. `ObjectRuns` runs all of them on one volume: in whatever order links are made, data is stored and the
index is saved, a path resolves to what was last linked in its file, data is read back as it was stored last, and
loading restores the last save if that was complete. `NormalizePath` relates the bounded stack of path components to the
usual meaning of "." and "..".

**Memory.** `PhysicalMemory` proves the bitmap searches against sets of frames. `PageTree` and `Paging` prove that the
tables built in place form a tree that stands for a partial map, huge pages included, and that mapping and unmapping a
page change neither the translation of another page nor the right of programs to it; the first 32 MB stay mapped to
themselves. `Regions` and `VirtualHeap` add the free list in its pool of 64 nodes and account for every frame: reserved,
table, or behind exactly one live page. `Blocks`, `KernelHeap` and `HeapRuns` go from block lists through header bytes
in memory to a map of disjoint buffers, in which an allocation fails only for want of room. `Dma` does the same for the
block pool and its 32-bit counter.

**Keyboard.** Interrupts may come between any two of the test, load and advance steps of `getkey`; over every
interleaving keys are delivered in order, and one is dropped exactly if 255 are pending.

## Where the code and its purpose differ

Each of these is a lemma, with the exact condition where there is one.

- `Format.ShortTable`, `Format.LayoutSoundIff`: for some small volumes the table is too short for the clusters counted.
- `Hex.SurvivesIff`, `Links.LinkResolvesIff`, `Links.DataFileShared`: identifiers are cut to 32 bits in each half
  wherever they become file names or link contents.
- `Links.SharedIff`, `Links.CollideIff`: links in different views can share a file, exactly if one view name is the
  other with a dot and more behind it; `Links.DotsCollide` is an instance. Both paths then resolve to what was linked
  last under either.
- `Session.ShorterIff`, `Contents.CutIff`: a handle remembers the size its file had when it was opened or last written
  through it. A write makes the file shorter, exactly if its data would end beyond the remembered size and before the
  end of the file; `Session.TwoHandles` is an instance. Reads stop at the remembered size.
- `FileSystem.FarBreaksIff`: positions are 64 bits wide, but a write goes to the position modulo 2^32. From 2^32 on it
  records a size beyond the clusters of the file, exactly if the position modulo 2^32 is within the room of the file.
- `Metadata.KindDecides`, `ObjectIndex.RetypedRejected`: after the type of an object is set to another one, its metadata
  no longer passes validation, because the stored checksum is not renewed.
- `ObjectIndex.BornWith`, `ObjectIndex.BornNamelessIff`: a slot vacated by a deletion is not cleared, so a new object
  inherits a name. In every run it is born nameless exactly if the index was never fuller, or the object that was last
  when the index was last fuller had no name.
- `ObjectIndex.NamedResolves`: an older object of the same name, or sixteen hexadecimal digits, hide a name.
- `IndexStore.NextIssuedIff`: the identifier issued next after a load was issued before, exactly if the first create
  after that of the last live object found room in the table, so that its object has been deleted since. A create that
  found none used up an identifier that no object had, and `IndexStore.RefusedDrawnAgain` shows that a load forgets it.
- `IndexStore.Save`, `IndexStore.SavedWhole`: an index is saved completely exactly if its header and entries fit;
  otherwise it is cut without a sign of failure.
- `ObjectRuns.HealthyIff`, `ObjectRuns.RunHealthyIff`: identifiers stay nonzero and strictly increasing over runs with
  saves and loads exactly if the counter is not exhausted and no save is cut before its last entry.
  `ObjectRuns.CutLoadBreaks` is a run that ends with an identifier twice in the index.
- `NormalizePath.NormalizedIff`, `NormalizePath.DownAndBack`: paths that pass through depth eight are refused although
  they mean a valid view.
- `Paging.WalkInTreeIff`, `Paging.HeapStartUnderHuge`: walks ignore the huge-page bit. They meet the tables exactly for
  pages with no huge page above them, and otherwise take the first frame of the huge page for a table, in which mapping
  and unmapping then change one word (`Paging.Straying`). The configured start of the kernel heap, and the VGA page that
  boot maps, lie under huge pages.
- `Paging.AddressSpace.MapPage`, `Paging.LowKernelOnly`: tables that are there keep their rights. Asked to map a page
  for programs, the code maps it but opens it to them exactly if every table on the way is open or new; in the first 512
  GB none ever is.
- `Blocks.MergeCovers`: coalescing is right exactly for blocks that are neighbours in memory.
- `KernelHeap.WrappedResize`, `KernelHeap.AllocatedSize`: a size within 7 of 2^64 is rounded to nothing, and resizing a
  block to it copies the old contents beyond the new block, but for the cases stated.
- `KernelHeap.ExpandSuffices`, `KernelHeap.GrantedServes`: the size of an expansion is cut to 32 bits, so a request
  beyond 4 GB fails although the memory asked for was granted.
- `Dma.WrappedRequest`: a request near 2^32 bytes is rounded to nothing and granted.
- `Keyboard.TwoShifts`: both shift keys share one flag, which the release of either clears.

Where comments and code disagree the code was followed: the path normaliser calls everything below one view invalid but
accepts two components, and the table is sized for the clusters alone although two more entries are reserved.

## Reading the model

Machine integers are subset types with explicit wrap-around. Structures that C overlays on bytes are byte fields,
little-endian and padded as on x86-64. Names are C strings: byte sequences without NUL. What hardware or another layer
answers becomes a parameter: the scancodes of `Keyboard`, the memory granted to an expansion of the heap, whether a DMA
node could be allocated. `dafny verify dfyconfig.toml` checks everything.

## Model

| member | source | states |
|---|---|---|
| `DiskIo.Disk.ReadSector` | src/kernel/fs/exfat/exfat.c:59-91 | fails exactly for sectors past the end; otherwise 512 bytes of the buffer become those of the sector and no other byte changes |
| `DiskIo.Disk.WriteSector` | src/kernel/fs/exfat/exfat.c:94-106 | fails exactly for sectors past the end; otherwise the sector takes the 512 bytes and no other byte of the disk changes |
| `Format.LayoutSound` | src/kernel/fs/exfat/exfat.c:148-164 | for every volume of 15392 sectors or more the table has an entry for each cluster and the two reserved ones, and boot area, table and heap are disjoint and inside the volume |
| `Format.LayoutSoundIff` | src/kernel/fs/exfat/exfat.c:148-164 | for every volume of 24 sectors or more, the table is large enough exactly under a condition on the estimated cluster count modulo 128, the left-over sectors and the table length |
| `Format.ShortTable` | src/kernel/fs/exfat/exfat.c:148-164 | 1049 sectors is a volume whose table is too short: the entry of its last cluster lies on the first bytes of the root directory |
| `Format.FillBoot` | src/kernel/fs/exfat/exfat.c:127-179 | the boot sector holds name, signature, shifts and layout where a mount looks for them, whatever was stored in the other fields |
| `Format.FillFatSector` | src/kernel/fs/exfat/exfat.c:190-199 | entries 0 to 2 are the media mark and two ends of chain, all others of the sector are free |
| `Format.FillRootSector` | src/kernel/fs/exfat/exfat.c:201-226 | two entries in use that are no files, and an end mark in every other slot |
| `Format.FormatVolume` | src/kernel/fs/exfat/exfat.c:123-236 | the disk is the old one with exactly three sectors replaced: a good boot sector, a good first table sector and a good first root sector, at the computed places |
| `Format.ReadBoot` | src/kernel/fs/exfat/exfat.c:250-274 | rejects every sector without signature and name, and otherwise yields the geometry its fields denote |
| `Format.MountRecoversFormat` | src/kernel/fs/exfat/exfat.c:123-284 | mounting what a format wrote yields the geometry the format computed, for every volume size |
| `Format.Mount` | src/kernel/fs/exfat/exfat.c:239-284 | reads sector 0 and yields its geometry, or fails if there is no such sector or it is no boot sector of this kind |
| `Format.FreshVolume` | src/kernel/fs/exfat/exfat.c:123-236 | on a zeroed disk with a sound layout, a format establishes the file system invariant: no file, and every cluster but the root is free |
| `Format.FirstBoot` | src/kernel/fs/exfat/exfat.c:123-284 | formatting and mounting a zeroed disk yields an empty file system with one cluster less than counted free |
| `Bytes.FieldValues` | src/include/fs/exfat.h:7-119 | fields of two, four and eight bytes on the disk are little-endian |
| `Layout.ImageBytes` | src/kernel/fs/exfat/exfat.c:314-373 | which bytes of the disk are an entry of the table and which are a cluster, in terms of sectors of 512 and clusters of 4096 bytes |
| `Layout.WriteFatEntryImage` | src/kernel/fs/exfat/exfat_fileops.c:94-110 | storing four bytes at the place of a table entry changes that entry and no other entry or cluster, on any sound layout |
| `Layout.WriteClusterImage` | src/kernel/fs/exfat/exfat.c:333-349 | storing 4096 bytes at the place of a cluster changes that cluster and no other cluster or table entry, on any sound layout |
| `Volumes.Volume.ReadCluster` | src/kernel/fs/exfat/exfat.c:314-330 | eight sector reads yield the bytes of the cluster; fails exactly for numbers that are no clusters |
| `Volumes.Volume.WriteCluster` | src/kernel/fs/exfat/exfat.c:333-349 | eight sector writes replace that cluster and nothing else in table and heap; fails exactly for numbers that are no clusters |
| `Volumes.Volume.GetNextCluster` | src/kernel/fs/exfat/exfat.c:352-373 | the table entry of the cluster, or the end mark for numbers that are no clusters |
| `Volumes.RewriteFatSector` | src/kernel/fs/exfat/exfat_fileops.c:94-110 | reading a sector, storing one entry in it and writing it back equals storing that entry on the disk |
| `Volumes.Volume.WriteFatEntry` | src/kernel/fs/exfat/exfat_fileops.c:94-110 | changes one table entry and nothing else on the volume |
| `Volumes.Volume.AllocCluster` | src/kernel/fs/exfat/exfat_fileops.c:58-91 | takes the lowest free cluster and only marks it as an end of chain; 0 exactly when none is free, with nothing changed |
| `Chains.ChainsDisjoint` | src/kernel/fs/exfat/exfat_fileops.c:58-110 | chains are acyclic, stay inside the volume and share no cluster with each other or the root |
| `Chains.ChainLength` | src/kernel/fs/exfat/exfat_fileops.c:581-634 | a chain has at most as many clusters as the volume besides the root, so walking it ends |
| `Chains.GrowChain` | src/kernel/fs/exfat/exfat_fileops.c:581-634 | linking a free cluster behind the last one of a chain keeps the invariant of the whole volume |
| `Chains.AddFile` | src/kernel/fs/exfat/exfat_fileops.c:245-362 | an entry set in the first free slots with one fresh cluster keeps the invariant of the whole volume |
| `Chains.ResizeIff` | src/kernel/fs/exfat/exfat_fileops.c:507-564 | recording a size keeps the invariant of the whole volume exactly if the chain can hold it |
| `FileSystem.AppendCluster` | src/kernel/fs/exfat/exfat_fileops.c:622-633 | allocating a cluster and linking it keeps the invariant, and one cluster less is free |
| `Contents.WrittenChunk` | src/kernel/fs/exfat/exfat_fileops.c:598-634 | a piece stored inside one cluster right behind bytes stored before is one longer write: exactly these bytes of the chain change |
| `Contents.ContentWritten` | src/kernel/fs/exfat/exfat_fileops.c:567-654 | what storing bytes in a chain means for the contents of the file, including bytes past the old end |
| `Contents.StorableIs` | src/kernel/fs/exfat/exfat_fileops.c:580-634 | what is stored fits into the room of the file, and less than asked is stored only if it fills that room |
| `Contents.CutIff` | src/kernel/fs/exfat/exfat_fileops.c:567-650 | a write through a handle shortens the file exactly if its data would end beyond the size the handle remembers but before the end of the file; the file then ends where the data ends |
| `Contents.ThroughRight` | src/kernel/fs/exfat/exfat_fileops.c:567-654 | a handle that has the size right has it right after the write, which then has the plain effect |
| `FileMap.WrittenFiles` | src/kernel/fs/exfat/exfat_fileops.c:567-654 | a write changes the contents of one name and of no other |
| `FileMap.OtherFileKept` | src/kernel/fs/exfat/exfat_fileops.c:567-654 | files other than the one written keep their contents although the table changes |
| `Directory.FindSlotFirst` | src/kernel/fs/exfat/exfat_fileops.c:365-438 | a lookup finds the lowest slot with the name and misses none |
| `Directory.SetBytes` | src/include/fs/exfat.h:56-92 | what an entry set says, byte for byte: the marks of its entries, its attributes, cluster and size, and each character of the name |
| `Directory.NameSlotsIs` | src/kernel/fs/exfat/exfat_fileops.c:279-281 | a name takes exactly the slots needed at fifteen characters each |
| `Directory.AppendedOk` | src/kernel/fs/exfat/exfat_fileops.c:113-145 | creating keeps the used slots a dense prefix, adds exactly one file and leaves the others as they were |
| `Directory.AppendedLookup` | src/kernel/fs/exfat/exfat_fileops.c:245-438 | after a create every name that was found finds the same file, and the new name finds the new, empty file unless a file of that name was there before |
| `Directory.SetSizeLookup` | src/kernel/fs/exfat/exfat_fileops.c:507-564 | recording a size changes what the lookup of that file yields and no other lookup |
| `Directory.SetSizeBytes` | src/kernel/fs/exfat/exfat_fileops.c:530-556 | both size fields of the stream entry take the new size, and no other byte of the directory changes |
| `EntrySet.FillEntrySet` | src/kernel/fs/exfat/exfat_fileops.c:309-350 | the slots written form the set of an empty file with that name and first cluster, and carry the checksum of the set and the hash of the name; no other slot changes |
| `EntrySet.EntrySetFilled` | src/kernel/fs/exfat/exfat_fileops.c:309-350 | file, stream and name entries together read back as that name, cluster and size 0, for every name of up to 255 bytes |
| `EntrySet.CalcNameHash` | src/kernel/fs/exfat/exfat_fileops.c:29-42 | the loop yields the rotating sum over the characters in upper case |
| `EntrySet.RotateAddIs` | src/kernel/fs/exfat/exfat_fileops.c:12-42 | one step of both sums rotates right by one bit, the lowest becoming the highest, and adds modulo 2^16 |
| `EntrySet.CharactersAre` | src/kernel/fs/exfat/exfat_fileops.c:29-42 | characters are extended with their sign, and exactly the letters a to z are changed to upper case |
| `EntrySet.HashIgnoresCase` | src/kernel/fs/exfat/exfat_fileops.c:29-42 | names that differ only in the case of letters have the same hash |
| `EntrySet.CalcChecksum` | src/kernel/fs/exfat/exfat_fileops.c:12-26 | the loop yields the rotating sum over the bytes of the set without the two that hold it |
| `EntrySet.SumSparesItself` | src/kernel/fs/exfat/exfat_fileops.c:12-26 | storing the checksum in its field leaves it the checksum of the set |
| `FileSystem.FileSystem.FindFreeEntry` | src/kernel/fs/exfat/exfat_fileops.c:113-145 | with a dense directory, the run found starts at the first free slot, and there is none exactly when the rest of the cluster is too short |
| `FileSystem.FileSystem.ReadName` | src/kernel/fs/exfat/exfat_fileops.c:390-401 | the two nested loops collect the name that the set encodes |
| `FileSystem.FileSystem.FindEntry` | src/kernel/fs/exfat/exfat_fileops.c:365-438 | the scan finds the first set with exactly that name |
| `FileSystem.FileSystem.UpdateFileSize` | src/kernel/fs/exfat/exfat_fileops.c:507-564 | changes the size of the first file of the name, and nothing else on the volume; fails exactly if there is none; keeps the invariant exactly if the chain is long enough |
| `FileSystem.StripSlashIs` | src/kernel/fs/exfat/exfat_fileops.c:249-251 | a slash in front of a name is skipped, one and no more; a path that does not start with one is itself |
| `FileSystem.CreatableIff` | src/kernel/fs/exfat/exfat_fileops.c:245-307 | a name fits exactly if it has no slash, at most 255 characters and no more than the slots left beside two entries can hold |
| `FileSystem.FileSystem.Create` | src/kernel/fs/exfat/exfat_fileops.c:245-362 | succeeds exactly if the name has no slash and at most 255 bytes, its set fits the directory and a cluster is free; adds an empty file unless the name is taken, moves no lookup of another name; a failure changes nothing; the new entry set is marked as a file; all this for the path without a slash in front |
| `FileSystem.FileSystem.Mkdir` | src/kernel/fs/exfat/exfat_fileops.c:148-242 | as Create but without the test for slashes, the entry set is marked as a directory, and the new cluster is cleared |
| `FileSystem.FileSystem.Open` | src/kernel/fs/exfat/exfat_fileops.c:365-438 | succeeds exactly for paths that without a slash in front name a file; the handle then is at position 0, with the size of the contents and the attributes of the entry set; otherwise it is untouched |
| `FileSystem.FileSystem.Navigate` | src/kernel/fs/exfat/exfat_fileops.c:580-594 | finds the cluster of a position, extending the chain by exactly as many clusters as needed; stops exactly when no cluster is free |
| `FileSystem.NeededIs` | src/kernel/fs/exfat/exfat_fileops.c:580-634 | the last cluster needed is the one that holds the last byte of the data |
| `FileSystem.CoveringIs` | src/kernel/fs/exfat/exfat_fileops.c:580-634 | a chain never shrinks nor takes more than there is; it holds all of the data or has taken all there is, and grows only by clusters the data needs |
| `FileSystem.FileSystem.StoreClusters` | src/kernel/fs/exfat/exfat_fileops.c:595-634 | the write loop stores a prefix of the data at the position and changes no other byte of any file; it stops early only on a full volume |
| `FileSystem.FileSystem.WriteClusters` | src/kernel/fs/exfat/exfat_fileops.c:578-634 | both loops together take exactly the clusters in which the data ends, or all free ones if these do not suffice; nothing is reached exactly if the volume fills up before the position |
| `FileSystem.FileSystem.Write` | src/kernel/fs/exfat/exfat_fileops.c:567-654 | through any handle, also one whose size is out of date, stores exactly as many bytes as the position and the free clusters admit, at the old position, in exactly the clusters needed; every other byte of this file below its new end and all of every other file is kept; the size is recorded exactly if the position is reached and the write ends beyond the size the handle remembers; from position 2^32 on the data goes to the position modulo 2^32, and the invariant is kept exactly if that lies beyond the room of the file, in which case nothing is stored |
| `FileSystem.CarriedRight` | src/kernel/fs/exfat/exfat_fileops.c:567-654 | if the handle has the size right, the file keeps all other bytes and grows exactly if the write ends beyond its end |
| `FileSystem.AsIntIs` | src/kernel/fs/exfat/exfat_fileops.c:567-654 | the number of bytes is returned modulo 2^32 as a signed number |
| `FileSystem.FarBreaksIff` | src/kernel/fs/exfat/exfat_fileops.c:578-650 | every write at a position from 2^32 on records more than the file has clusters for, exactly if its position modulo 2^32 lies in the room of the file |
| `FileSystem.FileSystem.ReadClusters` | src/kernel/fs/exfat/exfat_fileops.c:457-499 | the read loops fill the buffer with the bytes of the chain from the position on, and leave the rest of the buffer |
| `FileSystem.FileSystem.Read` | src/kernel/fs/exfat/exfat_fileops.c:441-504 | through any handle, returns as many bytes as asked or as the handle takes to be there, those of the chain from the position on; with the right size these are the bytes of the file up to its end; changes nothing but buffer and position |
| `FileSystem.ReadRight` | src/kernel/fs/exfat/exfat_fileops.c:441-504 | if the handle has the size right, a read returns the bytes between the position and the end of the file |
| `FileSystem.AvailableIs` | src/kernel/fs/exfat/exfat_fileops.c:441-455 | a read stays inside the file, and yields less than asked only where the file ends |
| `FileSystem.FileSystem.Seek` | src/kernel/fs/exfat/exfat_fileops.c:668-675 | sets the position of an open file to anything; nothing else changes |
| `FileSystem.FileSystem.Close` | src/kernel/fs/exfat/exfat_fileops.c:657-665 | fails exactly for closed files |
| `Session.Session.Do` | src/kernel/fs/exfat/exfat_fileops.c:365-675 | one operation on any set of handles, several of which may be on one file, is one step of a map from names to byte sequences; the step fixes what is read, how much is stored, where files end, the sizes handles remember, and slots and clusters used, leaving open only the bytes between the old end of a file and a position beyond it; writes from 2^32 on are covered exactly as far as they keep the invariant |
| `Session.Session.RunAll` | src/kernel/fs/exfat/exfat_fileops.c:365-675 | every sequence of create, mkdir, open, close, seek, read and write through any number of handles, up to an operation on a handle that does not exist or a write from 2^32 on, is a run of the map from names to byte sequences |
| `Session.SlashOptional` | src/kernel/fs/exfat/exfat_fileops.c:249-371 | creating a file or directory and opening have the same outcomes with and without a slash in front of the name |
| `Session.CreateIff` | src/kernel/fs/exfat/exfat_fileops.c:245-362 | after a create the name is there exactly if it was there, or fits the directory and a cluster was free; if new it names the empty file |
| `Session.ByteKept` | src/kernel/fs/exfat/exfat_fileops.c:441-654 | in every run a byte keeps its value as long as no write covers it or cuts the file off before it, whatever else happens |
| `Session.ReadReturnsWritten` | src/kernel/fs/exfat/exfat_fileops.c:441-654 | in every run a read returns, byte for byte, what the last write to these places stored, whichever handles were used, unless the file was cut off in between |
| `Session.FilesStay` | src/kernel/fs/exfat/exfat_fileops.c:245-654 | no run removes a file, nor shortens one but by such a write |
| `Session.ShorterIff` | src/kernel/fs/exfat/exfat_fileops.c:567-650 | a step shortens a file exactly if it is a write whose data would end beyond the size its handle remembers but before the end of the file, all as they are before the call; the file then ends where the data ends |
| `Session.TwoHandles` | src/kernel/fs/exfat/exfat_fileops.c:365-654 | two handles opened on one new file: the bytes written through the first are cut off by a shorter write through the second, and what was written second is all there is in the file |
| `Session.NeverCut` | src/kernel/fs/exfat/exfat_fileops.c:365-654 | as long as no file is open through two handles, every handle has the size right and no file gets shorter |
| `Session.SpaceShrinks` | src/kernel/fs/exfat/exfat_fileops.c:58-654 | no run gives back a slot of the directory or a cluster |
| `Session.AllStored` | src/kernel/fs/exfat/exfat_fileops.c:567-654 | if a cluster is free after a run, every write in it stored all its data |
| `Crc32.TableIs` | src/kernel/fs/metafs/metafs.c:145-186 | each of the 256 table entries is its index divided out bit by bit by the reflected polynomial |
| `Crc32.Checksum` | src/kernel/fs/metafs/metafs.c:191-200 | the table-driven loop computes the bitwise CRC-32 of section 8 of RFC 1952, for every message |
| `Crc32.CheckValue` | src/kernel/fs/metafs/metafs.c:191-200 | the digits 1 to 9 have the usual check value 0xcbf43926 |
| `Crc32.BurstDetected` | src/kernel/fs/metafs/metafs.c:191-200 | two messages of one length that differ only inside four consecutive bytes never have the same checksum |
| `Metadata.Check` | src/kernel/fs/metafs/metafs.c:706-708 | the checksum of a metadata record is the CRC-32 of its 56 bytes before the checksum field |
| `Metadata.OctetIs` | src/kernel/fs/metafs/metafs.c:191-200 | bytes enter the checksum with their values |
| `Metadata.PackedFields` | src/include/fs/metafs.h:45-55 | where each field lies among the 56 bytes of a record |
| `Metadata.NewMetaIs` | src/kernel/fs/metafs/metafs.c:691-707 | the record of a new object has size, times and checksum 0 and the flag for executables exactly if its type is that one |
| `Metadata.CheckedAccepted` | src/kernel/fs/metafs/metafs.c:705-840 | a record with the right magic number and the checksum made for it is accepted |
| `Metadata.Validate` | src/kernel/fs/metafs/metafs.c:819-840 | accepts a record exactly if the magic number is right and the checksum belongs to the other fields |
| `Metadata.ChangeRejected` | src/kernel/fs/metafs/metafs.c:819-840 | an accepted record is rejected after any change within four consecutive bytes |
| `Metadata.KindDecides` | src/kernel/fs/metafs/metafs.c:901-912 | a checksum made for one type is accepted for another only if the types are equal |
| `Hex.PrintHalf` | src/kernel/fs/metafs/metafs.c:383-408 | the shift loop prints the eight hexadecimal digits of a 32-bit value, highest first |
| `Hex.PrintId` | src/kernel/fs/metafs/metafs.c:383-408 | an identifier is printed as sixteen digits, each half cut to 32 bits |
| `Hex.ScanHalf` | src/kernel/lib/kstring_util.c:139-175 | the loop yields the number the eight digits denote, and fails exactly if one is no digit |
| `Hex.ScanId` | src/kernel/lib/kstring_util.c:139-175 | the value of sixteen digits in either case; fails for shorter strings and other characters |
| `Hex.DigitsRead` | src/kernel/lib/kstring_util.c:127-137 | what is a digit, in either case, and what it denotes |
| `Hex.ValueIgnoresCase` | src/kernel/lib/kstring_util.c:127-175 | which case digits are in makes no difference |
| `Hex.ScannedIff` | src/kernel/lib/kstring_util.c:139-175 | a string denotes an identifier exactly if its first sixteen characters are digits |
| `Hex.PrintedAt` | src/kernel/fs/metafs/metafs.c:383-408 | each printed character is the digit of its half at its place, highest first |
| `Hex.ScannedPrinted` | src/kernel/lib/kstring_util.c:127-175 | scanning what was printed yields the identifier with both halves cut to 32 bits |
| `Hex.SurvivesIff` | src/kernel/lib/kstring_util.c:127-175 | an identifier survives printing and scanning exactly if both halves fit 32 bits |
| `Hex.PrintedInjective` | src/kernel/fs/metafs/metafs.c:383-408 | two identifiers are printed alike exactly if they agree in the low 32 bits of both halves |
| `MetaFiles.CreateFile` | src/kernel/fs/exfat/exfat_fileops.c:245-362 | what creating means for the name map, the free directory slots, the free clusters and the room of the file |
| `MetaFiles.Store` | src/kernel/fs/exfat/exfat_fileops.c:567-654 | the number of bytes stored is determined by the room of the file, and the room stays the same |
| `MetaFiles.FileWithinRoom` | src/kernel/fs/exfat/exfat_fileops.c:567-654 | the bytes of a file and all free clusters are within the room the file has |
| `FileSystem.Fetch` | src/kernel/fs/exfat/exfat_fileops.c:441-504 | a read as a value: as many bytes as asked or as the handle takes to be there, equal to those of the file as far as it goes |
| `Links.Link` | src/kernel/fs/metafs/metafs.c:485-548 | makes the link file and stores the printed identifier at its start, exactly if a file can be created; otherwise no file changes |
| `Links.Resolve` | src/kernel/fs/metafs/metafs.c:551-657 | yields the object that the name map says the path denotes, in all cases including paths without a view, missing files and contents that are no identifier |
| `Links.ResolvesToNothing` | src/kernel/fs/metafs/metafs.c:551-600 | a path without a slash between view and name, or with a view of 64 bytes or more, denotes nothing |
| `Links.LinkInIff` | src/kernel/fs/metafs/metafs.c:601-657 | a file denotes an object only if it starts with sixteen digits |
| `Links.FlatInjective` | src/kernel/fs/metafs/metafs.c:485-548 | without dots in view names, no two links share a file |
| `Links.SharedIff` | src/kernel/fs/metafs/metafs.c:485-548 | two links share a file exactly if they are the same, or the view of one is that of the other with more behind a dot and the name of the other says so |
| `Links.CollideIff` | src/kernel/fs/metafs/metafs.c:485-548 | links in two different views can share a file exactly if one view name is the other with a dot and more behind it |
| `Links.DotsCollide` | src/kernel/fs/metafs/metafs.c:485-548 | an instance: the link c in view a.b and the link b.c in view a have one file |
| `Links.LinkResolves` | src/kernel/fs/metafs/metafs.c:485-657 | a path resolves to what was just linked there, with both halves cut to 32 bits, also if the link existed before |
| `Links.LinkResolvesIff` | src/kernel/fs/metafs/metafs.c:485-657 | resolving gives back the linked identifier exactly if both its halves fit 32 bits |
| `Links.LinkSpares` | src/kernel/fs/metafs/metafs.c:485-657 | linking at one place changes what another path denotes exactly if the two links share a file |
| `Links.LinkSparesOthers` | src/kernel/fs/metafs/metafs.c:485-657 | linking leaves alone what every path into a view that is not nested with that view denotes, dots or not |
| `Links.ResolvesToLastLinked` | src/kernel/fs/metafs/metafs.c:485-657 | over every run of links and steps that leave link files alone, a path resolves to what was last linked in its file |
| `Links.LinkedHere` | src/kernel/fs/metafs/metafs.c:485-657 | where no view in use is nested with that of the path, this is what was last linked under the very name |
| `Links.DataFileShared` | src/kernel/fs/metafs/metafs.c:411-418 | two objects share a data file exactly if their identifiers agree in the low 32 bits of both halves |
| `Links.WriteData` | src/kernel/fs/metafs/metafs.c:411-445 | stores the data at the start of the file of the object; the file is created twice and both must succeed; all data is stored exactly if there is room for it |
| `Links.ReadData` | src/kernel/fs/metafs/metafs.c:448-482 | yields the first bytes of the file of the object, as many as asked or as there are; fails exactly if there is no such file |
| `Links.DataRoundTrip` | src/kernel/fs/metafs/metafs.c:411-482 | stored data is what is read first, and no link and no object with another file is affected |
| `ObjectIndex.Index.GenerateId` | src/kernel/fs/metafs/metafs.c:207-214 | the next identifier is the counter plus one, wrapping around at 2^64 |
| `ObjectIndex.Index.Create` | src/kernel/fs/metafs/metafs.c:681-731 | appends an entry with a new identifier, the type asked for and the checksum of its record, or returns the null identifier if the table is full; the index stays valid while the counter does not wrap around |
| `ObjectIndex.CreatedEntry` | src/kernel/fs/metafs/metafs.c:681-731 | an object just created is found under its identifier, with the type asked for and no data, and the record read back of it is accepted |
| `ObjectIndex.Index.Delete` | src/kernel/fs/metafs/metafs.c:940-958 | removes the first entry of the identifier and moves the later ones down; the vacated slot is not cleared; fails exactly if there is no such object |
| `ObjectIndex.Index.Set` | src/kernel/fs/metafs/metafs.c:843-1079 | each setter of name, view, type or extension changes that field of that entry and nothing else; fails exactly if there is no such object |
| `ObjectIndex.SetReads` | src/kernel/fs/metafs/metafs.c:843-1079 | what reads back after each setter: the text, or all of it that fits, and every other field as before |
| `ObjectIndex.Index.GetName` | src/kernel/fs/metafs/metafs.c:857-870 | the name of an object; none for objects without one |
| `ObjectIndex.Index.GetMeta` | src/kernel/fs/metafs/metafs.c:978-1000 | the metadata record as it is read back, with the stored checksum |
| `ObjectIndex.Index.ResolveByName` | src/kernel/fs/metafs/metafs.c:915-938 | an identifier for sixteen digits, otherwise the first object of that name |
| `ObjectIndex.FittedRead` | src/kernel/lib/string.c:108-127 | a string copied with the bounded copy reads back as itself, or cut to one less than the buffer |
| `ObjectIndex.ApplyValid` | src/kernel/fs/metafs/metafs.c:681-958 | identifiers stay nonzero and strictly increasing under every operation exactly unless the counter wraps around |
| `ObjectIndex.ApplyIds` | src/kernel/fs/metafs/metafs.c:681-958 | create appends one identifier, delete removes one and keeps the order of the rest, setters move nothing |
| `ObjectIndex.ApplyFind` | src/kernel/fs/metafs/metafs.c:681-958 | as a map from identifiers to entries the index changes at most at the identifier the operation is about, and there as the operation says |
| `ObjectIndex.RunValid` | src/kernel/fs/metafs/metafs.c:681-958 | every run that does not exhaust the counter keeps the index valid, and the counter tells how many objects were asked for |
| `ObjectIndex.LastSetInRun` | src/kernel/fs/metafs/metafs.c:681-1079 | over every run an object not deleted keeps identifier, offsets and checksum, and its type, name, view and extension are those set last, or else those it had |
| `ObjectIndex.CreatedInRun` | src/kernel/fs/metafs/metafs.c:681-1079 | so over every run an object not deleted has the type it was set to last, or else the one it was created with |
| `ObjectIndex.IssuedOnce` | src/kernel/fs/metafs/metafs.c:207-214 | no run issues an identifier twice, nor one that was live when it began |
| `ObjectIndex.IssuedIff` | src/kernel/fs/metafs/metafs.c:207-214 | an identifier is issued in a run exactly if it is the number of a create of the run that found room in the table |
| `ObjectIndex.BornWithLastName` | src/kernel/fs/metafs/metafs.c:681-731 | directly after any deletion the next object is born with the name, view and extension of the object that was last before |
| `ObjectIndex.SlotKept` | src/kernel/fs/metafs/metafs.c:681-958 | a slot beyond the entries in use keeps its bytes for as long as it is not in use, over every run |
| `ObjectIndex.BornWith` | src/kernel/fs/metafs/metafs.c:681-731 | over every run from an index whose free slots are blank, an object created as number c is born blank if there never were more than c, and otherwise with name, view and extension of the object that was last when the number last fell to c |
| `ObjectIndex.BornNamelessIff` | src/kernel/fs/metafs/metafs.c:681-731 | so it is born without a name exactly if the index was never fuller or that object had none; likewise for view and extension |
| `ObjectIndex.NamedResolves` | src/kernel/fs/metafs/metafs.c:843-938 | naming an object makes the name resolve to it exactly if the name fits, is not made of sixteen digits denoting something else, and no older object has it |
| `ObjectIndex.RetypedRejected` | src/kernel/fs/metafs/metafs.c:901-1000 | the record read back of an object is accepted exactly if its type is the one it was created with |
| `IndexStore.DecodedEncoded` | src/include/fs/metafs.h:74-83 | an index entry is recovered from its 192 bytes |
| `IndexStore.EncodedFields` | src/include/fs/metafs.h:74-83 | where each field of an entry lies among the 192 bytes |
| `IndexStore.HeaderFields` | src/include/fs/metafs.h:133-141 | where magic number, version and the numbers of objects and views lie in the header |
| `IndexStore.Save` | src/kernel/fs/metafs/metafs.c:300-333 | stores header and entries over the start of the index file, exactly as much as fits, and at least the header; what does not fit is lost although the result is 0; the save is complete exactly if there is room; fails exactly if no file can be created |
| `IndexStore.SavedWhole` | src/kernel/fs/metafs/metafs.c:300-333 | a save is complete exactly if there is room for header and entries |
| `IndexStore.Load` | src/kernel/fs/metafs/metafs.c:336-378 | rebuilds the index the file describes, or fails without touching it exactly if there is no file with a whole header and the right magic number |
| `IndexStore.LoadsSaved` | src/kernel/fs/metafs/metafs.c:300-378 | loading a file that starts with a saved index, valid or not, yields the saved entries in order, whatever follows in the file and whatever the table held, and goes on after the largest identifier; a valid index is loaded as one |
| `IndexStore.CutPlace` | src/kernel/fs/metafs/metafs.c:300-333 | a file that fills whole clusters is never cut inside an identifier |
| `IndexStore.CutSafeIff` | src/kernel/fs/metafs/metafs.c:300-378 | a saved valid index of which only whole clusters found room is loaded as a valid index over every table exactly if the cut is in its last entry |
| `IndexStore.LoadsLastSave` | src/kernel/fs/metafs/metafs.c:300-378 | over every run of saves, complete or not, and steps that leave the index file alone, loading yields exactly what was saved last, valid or not, if that save was complete |
| `IndexStore.NextAfterLoad` | src/kernel/fs/metafs/metafs.c:336-378 | after a load the next identifier exceeds every live one, and is at most the last one drawn exactly unless the last create made the last live object or nothing was ever drawn |
| `IndexStore.NextIssuedIff` | src/kernel/fs/metafs/metafs.c:207-378 | over every run before the save, the next identifier after a load was issued in the run exactly if the first create after that of the last live object found room in the table |
| `IndexStore.RefusedDrawnAgain` | src/kernel/fs/metafs/metafs.c:207-378 | the identifier a refused create used up is drawn again after a load although nothing was deleted |
| `IndexStore.SyncAndMount` | src/kernel/fs/metafs/metafs.c:661-678 | saving one index and loading into another context on the same volume transfers all objects in order |
| `ObjectRuns.FilesApart` | src/kernel/fs/metafs/metafs.c:300-548 | link files, data files and the index file have different names, whatever views, names and identifiers |
| `ObjectRuns.SessionElsewhere` | src/kernel/fs/exfat/exfat_fileops.c:245-654 | an operation on open files leaves links and index alone unless it creates or writes one of their files |
| `ObjectRuns.Client.Do` | src/kernel/fs/metafs/metafs.c:300-657 | one call of the object layer - link, resolve, store or read data, change, save or load the index - is one step on name map and index, failing cases included |
| `ObjectRuns.Client.RunAll` | src/kernel/fs/metafs/metafs.c:300-657 | every sequence of such calls on one volume is a run of these steps, and the saved index never announces too many objects |
| `ObjectRuns.RunLinks` | src/kernel/fs/metafs/metafs.c:300-657 | every such run is a run of links: nothing but linking touches link files |
| `ObjectRuns.RunSaves` | src/kernel/fs/metafs/metafs.c:300-657 | every such run is a run of saves: nothing but saving touches the index file, half-made data files included |
| `ObjectRuns.ResolvedInRun` | src/kernel/fs/metafs/metafs.c:485-657 | in every such run a path resolves to what was last linked in its file |
| `ObjectRuns.LoadedInRun` | src/kernel/fs/metafs/metafs.c:300-378 | in every such run loading yields the objects of the last save, if that was complete, and never fails then |
| `ObjectRuns.HealthyIff` | src/kernel/fs/metafs/metafs.c:300-378 | a call keeps the index in memory and the saved one valid exactly if it does not create at the largest counter and does not cut a saved index before its last entry |
| `ObjectRuns.RunHealthyIff` | src/kernel/fs/metafs/metafs.c:207-958 | over every such run, loads included, identifiers are nonzero and strictly increasing in every state, and in all that may be loaded, exactly if all calls are of that kind |
| `ObjectRuns.CutLoadBreaks` | src/kernel/fs/metafs/metafs.c:300-378 | after a save cut before the last two entries, deleting the first object and loading yields an index with an identifier twice |
| `ObjectRuns.DataInRun` | src/kernel/fs/metafs/metafs.c:411-482 | in every such run reading the data of an object returns, byte for byte, what was stored last, whatever else was stored in between |
| `NormalizePath.Collect` | src/kernel/fs/metafs/metafs_wrappers.c:290-324 | the component loop computes the walk over the path |
| `NormalizePath.Build` | src/kernel/fs/metafs/metafs_wrappers.c:342-355 | the output loop writes the components, cut to the buffer |
| `NormalizePath.Normalize` | src/kernel/fs/metafs/metafs_wrappers.c:267-358 | the method computes the normal form, cut to the buffer as its length converts to an int, or fails for more than two components or a buffer of length 0 |
| `NormalizePath.InputMeans` | src/kernel/fs/metafs/metafs_wrappers.c:274-288 | a path from the root means the same in every directory; any other means its components after those of the directory |
| `NormalizePath.LimitWraps` | src/kernel/fs/metafs/metafs_wrappers.c:342-355 | of the length of the buffer only the low 32 bits count, as a signed number: from 2^31 on only the slash is written |
| `NormalizePath.LimitFits` | src/kernel/fs/metafs/metafs_wrappers.c:342-355 | the output with its NUL fits the buffer, and is cut only if it would not |
| `NormalizePath.NeverCut` | src/kernel/fs/metafs/metafs_wrappers.c:342-355 | a buffer of 129 bytes or more, up to 2^31 - 1, holds every normal form uncut |
| `NormalizePath.WalkIsResolved` | src/kernel/fs/metafs/metafs_wrappers.c:290-324 | for components under 64 characters the eight-slot stack computes the usual meaning of dot and dot-dot unless depth eight is reached with more to come, and then it ends with eight |
| `NormalizePath.NormalizedIff` | src/kernel/fs/metafs/metafs_wrappers.c:267-358 | the normal form is the usual one exactly if the path does not pass through depth eight to one of at most two |
| `NormalizePath.DownAndBack` | src/kernel/fs/metafs/metafs_wrappers.c:267-358 | a path down eight names and back up to one is an error although it means one component |
| `NormalizePath.NormalizedTwice` | src/kernel/fs/metafs/metafs_wrappers.c:267-358 | every normal form is the root or one or two components, none of them dot or dot-dot, and is its own normal form in every directory |
| `NormalizePath.DotIgnored` | src/kernel/fs/metafs/metafs_wrappers.c:290-324 | in the usual meaning a dot means nothing wherever it is |
| `NormalizePath.DotDotCancels` | src/kernel/fs/metafs/metafs_wrappers.c:290-324 | two dots take back the name before them |
| `NormalizePath.RootDotDot` | src/kernel/fs/metafs/metafs_wrappers.c:290-324 | at the root two dots mean nothing |
| `NormalizePath.NamesStay` | src/kernel/fs/metafs/metafs_wrappers.c:290-324 | names mean themselves |
| `PhysicalMemory.BitChanged` | src/kernel/memory/physical_mm.c:19-30 | setting or clearing a bit of a bitmap word changes that bit and no other |
| `PhysicalMemory.FrameAllocator.constructor` | src/kernel/memory/physical_mm.c:32-82 | for every memory below 4096 MB the frames in use after boot are exactly those that share a byte with the kernel, the bitmap or the DMA pool, as far as they exist; the bitmap lies at the first page boundary from the end of the kernel on |
| `PhysicalMemory.AlignUpIs` | src/kernel/memory/physical_mm.c:46-62 | rounding up gives the first page boundary that is not below |
| `PhysicalMemory.FrameAllocator.MarkUsed` | src/kernel/memory/physical_mm.c:19-30 | adds one frame to those in use, counts it once, and ignores frames that do not exist |
| `PhysicalMemory.FrameAllocator.AllocPage` | src/kernel/memory/physical_mm.c:84-96 | takes the lowest free frame and no other; NULL exactly if all are in use or the frame is frame 0 |
| `PhysicalMemory.FrameAllocator.AllocPages` | src/kernel/memory/physical_mm.c:98-129 | takes the lowest run of free frames of that length and no others; the counter always equals the number of frames in use |
| `PhysicalMemory.FrameAllocator.FreePage` | src/kernel/memory/physical_mm.c:131-142 | removes one frame from those in use, and ignores free frames and frames that do not exist |
| `PhysicalMemory.GrantedIff` | src/kernel/memory/physical_mm.c:98-129 | a request fails exactly if it asks for nothing or no run of free frames is long enough; otherwise the run granted is the lowest |
| `PhysicalMemory.ReservedNeverGranted` | src/kernel/memory/physical_mm.c:32-142 | no run grants a reserved frame that nobody freed, so with frame 0 reserved NULL always means failure |
| `PhysicalMemory.GrantsApart` | src/kernel/memory/physical_mm.c:84-142 | two grants of a run overlap only if a frame was freed in between |
| `PageTree.WalkInTree` | src/kernel/memory/paging.c:42-74 | following entries from the root meets exactly the tables of the tree, on every way without a huge page |
| `PageTree.WalkIsLookup` | src/kernel/memory/paging.c:42-74 | the four-level walk computes the partial map the tables stand for |
| `PageTree.LeafLookup` | src/kernel/memory/paging.c:172-226 | changing the lowest entry of a page with no huge page above it remaps that page and no other such page, and keeps the tree |
| `PageTree.LeafKeepsUpper` | src/kernel/memory/paging.c:172-226 | changing a lowest entry leaves every other table and every huge page as it is |
| `PageTree.TranslatedKept` | src/kernel/memory/paging.c:42-74 | as long as all entries of the upper tables are kept, every page under a huge page is translated as before |
| `PageTree.NewTree` | src/kernel/memory/paging.c:172-226 | hanging a blank table below an empty entry yields a tree whose tables still share no frame |
| `PageTree.NewTableKeeps` | src/kernel/memory/paging.c:172-226 | a new table changes the mapping of no page without a huge page above it |
| `PageTree.NewTableKeepsUpper` | src/kernel/memory/paging.c:172-226 | a new table leaves every entry in use of the upper tables as it is, huge pages included |
| `PageTree.NewTableOpen` | src/kernel/memory/paging.c:172-219 | a new table is open to programs as asked for, and the ways that do not lead through it are open as before |
| `PageTree.PageDecidesWrite` | src/kernel/memory/paging.c:172-226 | the processor asks for the right to write at every level, but no table ever denies it: the entry of the page alone decides |
| `PageTree.RightsKept` | src/kernel/memory/paging.c:172-247 | while the entries in use of the upper tables and the translation of a page are kept, so is the right of programs to it |
| `Paging.IndexOfIs` | src/include/memory/paging.h:24-29 | shifting and masking an address yields the digits of its page number, at every level |
| `Paging.LeafIs` | src/kernel/memory/paging.c:221-224 | an entry holds the frame the address lies in exactly for addresses below 2^52, and its rights are bits 1 and 2 of the flags |
| `Paging.AddressSpace.constructor` | src/kernel/memory/paging.c:115-159 | boot makes three tables in free frames, maps the first 32 MB to themselves by huge pages and nothing else, and closes the first 512 GB to programs; the entry made for the VGA page ends up in frame 0 and maps nothing |
| `Paging.IdentityMapped` | src/kernel/memory/paging.c:115-247 | in every state kept by mapping and unmapping exactly the first 32 MB lie under huge pages, each page mapped to itself |
| `Paging.LowKernelOnly` | src/kernel/memory/paging.c:115-226 | in every state kept by mapping and unmapping no program can use a page of the first 512 GB, whatever flags it was mapped with |
| `Paging.GrownTranslates` | src/kernel/memory/paging.c:172-226 | making tables changes neither the translation of a page, through tables or huge pages, nor the right of programs to it |
| `Paging.RemappedTranslates` | src/kernel/memory/paging.c:172-247 | mapping or unmapping a page changes neither the translation of another page, through tables or huge pages, nor the right of programs to it |
| `Paging.AddressSpace.MapPage` | src/kernel/memory/paging.c:172-226 | maps the page as asked, changes no other translation or right, huge pages included, and makes exactly the missing tables in frames that were free; programs can use the page exactly if that was asked for and every table on the way that was there is open to them; a page under a huge page is not mapped, and exactly one word in the first frame of the huge page changes |
| `Paging.AddressSpace.UnmapPage` | src/kernel/memory/paging.c:228-247 | removes the mapping of the page and changes no other translation or right, huge pages included; tables stay; a page under a huge page stays mapped, and exactly one word in the first frame of the huge page changes |
| `Paging.AddressSpace.GetPhysicalAddress` | src/kernel/memory/paging.c:42-74 | the mapped frame plus the offset in the page, or 0 for unmapped pages; under a huge page what its first frame happens to hold |
| `Paging.WalkInTreeIff` | src/kernel/memory/paging.c:42-74 | for every page and in every state kept, the walk down to the lowest table meets the tree exactly if no huge page lies above the page; otherwise it takes the first frame of the huge page for a table |
| `Paging.Straying` | src/kernel/memory/paging.c:172-247 | a word written there changes no translation and no table, if that frame holds no table |
| `Paging.HeapStartUnderHuge` | src/kernel/memory/paging.c:146-159 | in every state kept the configured start of the kernel heap lies under a huge page, so a heap there is not covered |
| `VirtualHeap.Overflow` | src/kernel/memory/paging.c:262-321 | a request whose end wraps around 2^64 is refused: it asks for more frames than exist, also when cut to 32 bits |
| `VirtualHeap.PagesForIs` | src/kernel/memory/paging.c:262-264 | a request gets the fewest pages that hold it exactly if the rounding does not wrap around 2^64, and otherwise none |
| `VirtualHeap.Heap.FindFit` | src/kernel/memory/paging.c:268-297 | the list walk finds the first free range that is large enough |
| `VirtualHeap.Heap.TakeFront` | src/kernel/memory/paging.c:271-280 | takes pages off the front of a range or unlinks it, and the result is claimed by nobody |
| `VirtualHeap.Heap.MapRun` | src/kernel/memory/paging.c:286-290 | maps consecutive pages to consecutive frames, makes exactly the missing tables, and keeps every huge page |
| `VirtualHeap.RunTranslates` | src/kernel/memory/paging.c:286-313 | mapping a run of pages changes neither translation nor rights of any other page, huge pages included |
| `VirtualHeap.BootedWindow` | src/kernel/memory/paging.c:115-159 | after boot nothing is mapped above the huge pages, which is what a heap starts from |
| `VirtualHeap.Boot` | src/kernel/memory/paging.c:115-159 | booting and setting up a heap above the huge pages yields an empty heap in which all frames used before are reserved and the first 32 MB are mapped to themselves |
| `VirtualHeap.Heap.Kmalloc` | src/kernel/memory/paging.c:262-321 | keeps all ranges page-aligned, disjoint and below the heap end, each live one on its own frames; every address of the memory returned lies in a writable page translated to a frame behind that live range and no other, and the range ends less than a page behind it; succeeds exactly if there is a place and a run of frames; a range for which there are no frames is lost; no page outside the range is translated differently, the first 32 MB included |
| `VirtualHeap.Heap.Served` | src/kernel/memory/paging.c:262-321 | a live range of the pages a request gets serves every address of the request, from frames of that range |
| `VirtualHeap.Heap.Kfree` | src/kernel/memory/paging.c:323-353 | for every size that takes as many pages as the live range has: returns exactly the frames of the range, unmaps exactly its pages and puts it first in the free list, or loses it once the pool of 64 nodes is used up; no page outside the range is translated differently |
| `VirtualHeap.Heap.PushFree` | src/kernel/memory/paging.c:345-352 | the node pool only runs down, and the list stays the ranges it stood for with the new one in front |
| `VirtualHeap.Attached` | src/kernel/memory/paging.c:262-321 | a range nobody claims, once backed, keeps the accounting of every frame: reserved, table or exactly one live page |
| `VirtualHeap.Detached` | src/kernel/memory/paging.c:323-353 | releasing a range keeps the accounting of every frame and all other mappings of the window |
| `VirtualHeap.UsedCount` | src/kernel/memory/paging.c:262-353 | frames in use are the reserved ones, one for each table and one for each live page |
| `VirtualHeap.OnlyTablesRemain` | src/kernel/memory/paging.c:262-353 | with the same live ranges, the frames in use differ only by tables made in between, over any history |
| `VirtualHeap.AllocateAndFree` | src/kernel/memory/paging.c:262-353 | allocating and freeing leaves only new tables behind, also when the allocation failed |
| `Regions.CarvedSpaced` | src/kernel/memory/paging.c:268-280 | carving pages off a free range keeps all ranges disjoint |
| `Regions.FreedSpaced` | src/kernel/memory/paging.c:323-353 | moving a range from live to free keeps all ranges disjoint |
| `Regions.HeadUnlinked` | src/kernel/memory/paging.c:274-276 | unlinking the first node leaves the rest of the list |
| `Regions.Unlinked` | src/kernel/memory/paging.c:274-276 | unlinking any other node leaves the rest of the list |
| `Regions.Pushed` | src/kernel/memory/paging.c:254-352 | a node pushed to the front comes before the old list |
| `Blocks.TakenLive` | src/kernel/memory/heap.c:137-204 | allocating adds one block in use of at least the size, changes no other, and the blocks still tile the arena |
| `Blocks.TakenSize` | src/kernel/memory/heap.c:137-204 | the block taken for n bytes has at least n and fewer than n + 56: it is cut to size exactly if that leaves a header of 24 and a free block of at least 32 |
| `Blocks.FreedLive` | src/kernel/memory/heap.c:155-234 | freeing removes one block in use, changes no other, and the blocks still tile the arena |
| `Blocks.TakenMerged` | src/kernel/memory/heap.c:137-204 | allocating never leaves two neighbouring free blocks |
| `Blocks.FreedMerged` | src/kernel/memory/heap.c:155-175 | freeing with coalescing never leaves two neighbouring free blocks |
| `Blocks.AllFreed` | src/kernel/memory/heap.c:223-234 | with nothing in use, in whatever order it was freed, one block over the whole arena is left |
| `Blocks.FreeExtent` | src/kernel/memory/heap.c:123-175 | every stretch of memory outside blocks in use lies inside one free block |
| `Blocks.MissMeansFull` | src/kernel/memory/heap.c:123-134 | if first fit finds nothing, every stretch of that size with its header touches a block in use |
| `Blocks.MergeCovers` | src/kernel/memory/heap.c:155-175 | the merged block covers exactly the bytes of two list neighbours if and only if they are neighbours in memory |
| `KernelHeap.SplitWritten` | src/kernel/memory/heap.c:137-152 | the header writes of a split produce the headers of the split list and touch no payload |
| `KernelHeap.MergeWritten` | src/kernel/memory/heap.c:155-175 | the header writes of a merge produce the headers of the merged list and touch no payload |
| `KernelHeap.ExtendWritten` | src/kernel/memory/heap.c:64-120 | linking adjacent new memory behind the last block produces the headers of the longer list and touches no payload |
| `KernelHeap.RoundedUp` | src/kernel/memory/heap.c:177-204 | a request gets at least its size exactly if rounding up to 8 does not wrap around 2^64, and always fewer than 8 bytes more than what was promised |
| `KernelHeap.Heap.constructor` | src/kernel/memory/heap.c:16-42 | one free block over the 16 MB |
| `KernelHeap.Heap.FindFree` | src/kernel/memory/heap.c:123-134 | the list walk over headers in memory finds the first fit |
| `KernelHeap.Heap.SplitBlock` | src/kernel/memory/heap.c:137-152 | splits block and list alike exactly if 56 bytes or more are to spare, and keeps every payload |
| `KernelHeap.Heap.Coalesce` | src/kernel/memory/heap.c:155-175 | merges with the next and then the previous free block, and keeps every payload |
| `KernelHeap.Heap.Expand` | src/kernel/memory/heap.c:64-120 | appends a block over the granted memory, or changes nothing |
| `KernelHeap.Heap.Kmalloc` | src/kernel/memory/heap.c:177-204 | takes the first fit, expanding the arena at most once; the new payload is aligned to 8, has as many bytes as were asked for, rounded up, and fewer than 56 more, and belongs to nobody else; every other payload and every byte outside the arena is kept |
| `KernelHeap.ExpandSuffices` | src/kernel/memory/heap.c:64-204 | the memory asked for to expand the heap holds the request with a header exactly if its size stays below 2^32 |
| `KernelHeap.GrantedServes` | src/kernel/memory/heap.c:64-204 | with that memory granted, a request is served exactly if it fitted before or is below that bound |
| `KernelHeap.Heap.Kfree` | src/kernel/memory/heap.c:223-234 | removes exactly that block from those in use; every other payload and every byte outside the arena is kept |
| `KernelHeap.Heap.Krealloc` | src/kernel/memory/heap.c:236-265 | for every size for which the copy stays inside the new block: in place if large enough; else the old contents are at the start of a block large enough for what was promised and the old one is free; or, if nothing fits, the old block is intact; every other payload and every byte outside the arena is kept; a new block has fewer than 64 bytes more than asked for |
| `KernelHeap.WrappedResize` | src/kernel/memory/heap.c:177-265 | the copy fits for every size whose rounding does not wrap around; for the others, exactly if there is no free block, nothing to copy, or the first free block is too small to be split and at least as large as the old one |
| `KernelHeap.AllocatedSize` | src/kernel/memory/heap.c:177-265 | when that condition fails the copy runs past the end of the new block |
| `KernelHeap.Heap.GetStats` | src/kernel/memory/heap.c:267-290 | the totals are those of the block list and add up to the arena |
| `KernelHeap.StatsTotal` | src/kernel/memory/heap.c:267-290 | total is used plus free plus 24 bytes for each block |
| `KernelHeap.StatsTaken` | src/kernel/memory/heap.c:137-290 | allocating moves exactly the block taken from the free bytes to those in use |
| `KernelHeap.StatsFreed` | src/kernel/memory/heap.c:155-290 | freeing takes exactly that block from the bytes in use, whatever is merged |
| `KernelHeap.AllocatedMerged` | src/kernel/memory/heap.c:177-204 | without expansion an allocation leaves no two neighbouring free blocks |
| `HeapRuns.Client.Do` | src/kernel/memory/heap.c:177-265 | one call on the heap is one step of a map from names to disjoint, aligned buffers of bytes; a new buffer has at least the size asked for and fewer than 64 bytes more; a call fails only if nothing was asked for, or no stretch of the rounded size with a header is free anywhere in the arena |
| `HeapRuns.Client.RunAll` | src/kernel/memory/heap.c:177-265 | every run of allocations, releases, resizings and stores is a run of that map, changes no byte outside the arena, and once every buffer was released the heap is one free block again |
| `HeapRuns.BufferKept` | src/kernel/memory/heap.c:177-265 | in every run a buffer keeps its place and bytes as long as no call is about it |
| `HeapRuns.RefinesApart` | src/kernel/memory/heap.c:177-265 | buffers are aligned and lie in blocks that with their headers share no byte |
| `HeapRuns.MissIsFull` | src/kernel/memory/heap.c:123-134 | if no block fits, a header and a payload of that size would overlap a block in use wherever they were put |
| `Dma.Pool.constructor` | src/kernel/memory/dma.c:24-45 | one free range over the pool |
| `Dma.RoundedUp` | src/kernel/memory/dma.c:47-51 | a request is served with at least its size and less than a page more, in whole pages, exactly if rounding does not wrap around 2^32 |
| `Dma.TakenTiles` | src/kernel/memory/dma.c:47-81 | a grant keeps the ranges tiling the pool in order, in pages |
| `Dma.FreedTiles` | src/kernel/memory/dma.c:83-116 | a release keeps the ranges tiling the pool in order, in pages |
| `Dma.TakenInUse` | src/kernel/memory/dma.c:47-81 | a grant adds one range, which starts where the free range did, and changes no other |
| `Dma.FreedInUse` | src/kernel/memory/dma.c:83-116 | a release takes away just that range, which can be granted again together with what is free behind it |
| `Dma.GrantsApart` | src/kernel/memory/dma.c:47-116 | no two ranges overlap or share an address |
| `Dma.TakenTotal` | src/kernel/memory/dma.c:47-81 | a grant adds the rounded request and its slack to the bytes in use |
| `Dma.FreedTotal` | src/kernel/memory/dma.c:83-116 | a release subtracts the whole range from the bytes in use |
| `Dma.SlackIs` | src/kernel/memory/dma.c:56-70 | with memory for nodes a grant exceeds its rounded request by 4096 bytes if exactly one page was left, and by nothing otherwise |
| `Dma.WrappedRequest` | src/kernel/memory/dma.c:47-81 | a request near 2^32 is rounded to nothing; the range granted then breaks the tiling unless the free range was one page |
| `Dma.Pool.Alloc` | src/kernel/memory/dma.c:47-81 | grants the first free range that fits; the counter is the bytes in use less the slack, modulo 2^32; nothing changes on failure |
| `Dma.Pool.Free` | src/kernel/memory/dma.c:83-116 | releases exactly the range in use at the address, if there is one inside the pool |
| `Keyboard.Driver.Handler` | src/kernel/drivers/keyboard.c:46-91 | an interrupt is one step of the machine: modifiers follow their keys, releases and prefix codes are ignored, other keys go to the buffer unless it is full |
| `Keyboard.ModifiersInRun` | src/kernel/drivers/keyboard.c:46-78 | over every interleaving each modifier is as its last press or release left it, and caps lock changes with every press |
| `Keyboard.KeysAre` | src/kernel/drivers/keyboard.c:46-84 | a press goes to the buffer exactly if it is of none of the five modifier keys |
| `Keyboard.TwoShifts` | src/kernel/drivers/keyboard.c:46-68 | with one shift key still held, releasing the other turns shift off |
| `Keyboard.Driver.LoadKey` | src/kernel/drivers/keyboard.c:128-128 | the load is one step of the machine |
| `Keyboard.Driver.AdvanceKey` | src/kernel/drivers/keyboard.c:129-129 | the advance is one step of the machine and delivers the key that was loaded |
| `Keyboard.Driver.GetKey` | src/kernel/drivers/keyboard.c:123-131 | with interrupts before each of its steps, getkey takes one key from the front and loses none |
| `Keyboard.StepPending` | src/kernel/drivers/keyboard.c:46-131 | each step puts accepted keys at the end and takes delivered ones from the front |
| `Keyboard.InOrder` | src/kernel/drivers/keyboard.c:46-131 | over every interleaving, delivered keys followed by those in the buffer are the accepted ones in order |
| `Keyboard.DeliveredPrefix` | src/kernel/drivers/keyboard.c:46-131 | over every interleaving from an empty buffer, what was delivered is a prefix of what was accepted |
| `Keyboard.DroppedIff` | src/kernel/drivers/keyboard.c:85-90 | a key is dropped exactly if 255 accepted keys have not been advanced over, the loaded one included |

## Left out

- The disk buffer before it is allocated, and failures of `kmalloc` for sector and cluster buffers, which the file code
  does not check, and for the first DMA node.
- Branches taken when the disk refuses a sector of a mounted volume: they cannot be reached on a sound layout.
- Set checksums and name hashes are proved right when an entry set is written (`EntrySet.FillEntrySet`), but nothing
  reads them back, and a size update leaves the checksum as it was.
- Directories other than the root, the allocation bitmap, time stamps, and everything else of exFAT that the kernel does
  not implement. The root directory is one cluster, as the code uses it.
- `memcpy` and `memset` are sequence operations or loops without a theorem of their own.
- FileSystem.FileSystem.Read: the position is advanced once at the end rather than inside the loop.
- Session.Session.RunAll: ends at an operation on a handle that does not exist or a write at a position from 2^32 on.
  Session.Session.Do goes on where such a write keeps the invariant, and FileSystem.FileSystem.Write says what happens
  where it does not.
- Format.FreshVolume: the disk is zeroed beforehand, because a format writes only the first sector of table and root.
- IndexStore.Load: requires at most 1024 announced objects; the code does not check the count against its table.
- IndexStore.LoadsLastSave: says nothing of a load after an incomplete save; IndexStore.Load gives what that yields.
  Only the number of views is saved and loaded, as in the code, which does not store the views.
- ObjectRuns.Client.constructor: requires that an index found on the volume announces at most 1024 objects.
- ObjectRuns.Client.RunAll: requires flattened names to fit their buffers of 256 bytes, as Links.Link does; operations
  on open files are not among its calls, and ObjectRuns.SessionElsewhere says which of them leave the run as it is.
- Bytes of padding in an index entry are written as zeros; in memory they are arbitrary, and nothing reads them.
- Links.Link: requires the flattened name to fit its buffer of 256 bytes, which the code does not check.
- Links.Resolve: requires the same of the flattened path.
- NormalizePath.Normalize: requires a relative path to fit the buffer of 256 bytes it is joined in, and excludes the
  lengths 1, for which the code writes past the buffer, and those for which the subtraction of one overflows.
- Tags, unlinking, view listing and creation, the scan for orphans, type inference, extended metadata, queries by name
  and import of system files: unimplemented, placeholders or plain loops over the index.
- PhysicalMemory.FrameAllocator.constructor: requires less than 4096 MB, above which the byte counts wrap around.
- Paging.AddressSpace.MapPage: requires frames for the missing tables; the code does not check the allocator's answer. A
  page under a huge page also requires that the first frame of the huge page exists, and if that frame holds a table
  nothing is said beyond the word that changes.
- Paging.AddressSpace.UnmapPage: the same for a page under a huge page.
- Paging.AddressSpace.GetPhysicalAddress: a page under a huge page requires that the first frame of that exists.
- The `pml4` parameter: there is one root, because two of the three functions ignore their argument.
- Flushes of translation buffers, loads of CR3, page faults, mapping of the framebuffer, and views of physical memory.
- VirtualHeap.Heap.constructor: the start of the heap is a parameter, above the huge pages.
- VirtualHeap.Heap.Kmalloc: requires frames for the missing tables, as MapPage does.
- VirtualHeap.Heap.Kfree: requires the start of a live range and a size that takes as many pages as it has.
- KernelHeap.Heap.Expand: new memory follows the arena directly; for other memory see Blocks.MergeCovers.
- KernelHeap.Heap.Krealloc: excludes the sizes for which the copy leaves the new block; KernelHeap.WrappedResize says
  which these are.
- HeapRuns.Client.RunAll: covers one arena, without expansion, and ends at the first call that names no live buffer,
  reuses the name of one, stores outside one, or asks for a size within 7 of 2^64.
- `kmalloc_aligned`: it returns an unaligned pointer.
- Dma.Pool.Alloc: excludes requests above 2^32 - 4096, for which Dma.WrappedRequest shows what happens.
- Keyboard.Driver.GetKey: waits for a given number of interrupts instead of forever.
- Translation of scancodes to characters, line editing, terminal, shell, processes, executables, boot code and logging.
