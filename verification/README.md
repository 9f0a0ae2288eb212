# A verified model of the FAT file system and of the shared ring

This project models two pieces of software and proves properties of them with Dafny 4.11:

* the FAT file system module `api/fatfs/source/ff.c`, in the configuration fixed by `api/fatfs/source/ffconf.h`: read and write, 512-byte sectors, long names with UTF-8 at the interface, a private sector buffer in every file object, no exFAT, no fast seek, no file locks, no re-entrancy;
* the single-producer, single-consumer ring `api/include/shared_ringbuffer/shared_ringbuffer.h` through which protection domains exchange buffers.

`dafny verify dfyconfig.toml` checks everything. Each method is the C function of the same name (or a named part of one), written with the same branches and the same constants, and proved against a specification. The main results are about runs and about several functions together.

## How the file system is modelled

The layers are stacked as in the code, and the contract of each speaks only of what the one below provides.

| module | what it is |
|---|---|
| `Bytes`, `Bits`, `Geometry` | little-endian words, 32-bit wrap-around, bytes as bits, the areas of a volume, cluster to sector |
| `Window` | the medium (`Disk`, which may fail and may tear a write of several sectors) and the FATFS object with its one-sector write-back window; `logical` is the medium with the pending window applied, the second FAT showing the first |
| `FatSpec`, `Fat` | FAT entries of 12, 16 and 28 bits; get_fat and put_fat by way of the window |
| `ChainSpec`, `Chain` | cluster chains over the map of a FAT; remove_chain, create_chain, f_getfree |
| `FileSpec`, `FileState`, `Transfer`, `File`, `FileRun` | the bytes of a file over its chain and its dirty buffer; f_read, f_write, f_lseek, f_truncate, f_sync, the end of f_open; whole runs of them |
| `FsInfoSector`, `DirEntry` | FSInfo, stored and read; the directory entry of a file, sync_fs |
| `Utf`, `Text`, `Lfn`, `Names`, `FileInfo` | UTF-8 and UTF-16, long-name entries, create_name, get_fileinfo |
| `DirTable`, `Directory`, `DirDisk`, `DirOps`, `NameTrip` | directories as tables of entries; dir_sdi, dir_next, dir_find, dir_read, dir_alloc, dir_register; names from path to entry and back |
| `Strings`, `Gets` | f_puts and f_gets |
| `Mount` | the FAT12/16/32 branch of mounting |
| `Ring` | the ring, first used by one domain at a time, then as interleaved accesses to shared memory |

Every method is proved for a medium that may fail at any transfer; what a contract says of the result when `reliable` holds is what the code does on a medium that does not fail. For files, a state that is sound (`Judge`) is a volume whose FAT is a forest of disjoint chains with an exact or unknown free count, one of whose chains is the file's; `Became(s, t, c)` says that state t is sound again, that the file's bytes are c, that every other chain and all its bytes, and every sector outside the FATs and the data area, are as in s, and that no cluster was lost or made up.

Three facts about the mounted volume are part of the invariant of the FATFS object, each under the condition that it held when mounted and no transfer fails: `mirrored`, the two FATs agree; `tracked`, FSInfo on the medium has the free count and the last cluster of the object whenever it is not marked as out of date; `counted`, the free count is known. Every method keeps them, down to the single write to the medium.

Some expressions are written in an equivalent form: a mask as a remainder or a test of cases (`Geometry.MaskIsRemainder`, `Geometry.PowerOfTwoMask`, `FatSpec.Load28IsMask`), a bit set by arithmetic (`Bits.SetBit5`), a rotation as a quotient and a product (`Bits.RotateBits`), the product and quotient by the cluster size as recursions (`Geometry.ClusterSectorsIsProduct`, `Geometry.QuotIsDivision`), a byte offset by the cluster size in bytes as a sector offset by the cluster size in sectors (`Geometry.ByteCluster`), the flag byte of a file as four flags, fsi_flag as two.

## What the proofs brought out

* Mounting adds sizes in 32 bits. A boot sector whose FAT size wraps is accepted although its second FAT lies outside the volume (`Mount.MountWraps`); `Mount.MountLaid` gives the exact condition under which an accepted volume is laid out properly.
* put_lfn takes a unit 0xFFFF of a long name for padding, and the part with it for the last one. The entries then stand for another name, `Lfn.KnownAs`: dir_find and dir_read go by that one. create_name accepts such names, but dir_find does not find them by themselves and dir_read does not give them back, unless the units only fill up the last entry (`Lfn.KnownExactly`, `Lfn.PutPickExactly`, `DirTable.FoundExactly`; `DirTable.PadInsideMissed` and `NameTrip.PadNameLost` show names). What is proved of searching, registering and reading holds of every name, in terms of the one its entries stand for.
* A FAT32 volume that declares an FSInfo sector and only one reserved sector is mounted (`Mount.MountOneReserved`) with its FSInfo in the first sector of the first FAT. sync_fs then overwrites the FAT: the clusters 2 to 120 and 124 to 126 become free (`DirEntry.InfoFrees`), those from 128 on stay (`DirEntry.InfoSpares`). `DirEntry.SyncFs` says when the FAT survives, and `File.Fil.Sync` when the file on the medium does: a file with no cluster below 128 does, and one whose first cluster below 128 is among those freed does if and only if FSInfo is not written or lies before the FATs.
* The entries of a long name may be left behind in front of a deleted entry, without their short name. dir_find forgets them at the deleted entry; but a short name that is then registered in its place, and has their checksum, is found under that long name as well (`DirTable.OrphanAdopted`), and listed with it (`DirTable.OrphanTold`). `DirTable.OthersAsBefore` gives the exact condition under which registering a name changes nothing for another, `DirTable.RegisteredIsListed` that under which a short name is told without a long one.
* sync_fs does not look at the result of writing FSInfo, so on a medium that fails the window may claim to show a sector it does not; the contracts say what still holds (`Consistent` instead of `Valid`).
* Overlong UTF-8 forms of values from 0x80 on are accepted by tchar2uni, f_puts and f_gets, as `Utf.OverlongDecodes` shows for one; `Utf.EncodesDecoded` says exactly when a coded value is in its shortest form.

## Model

| member | source | states |
|---|---|---|
| `Bytes.LowByteFirst` | api/fatfs/source/ff.c:618-669 | words are loaded and stored with their low byte first |
| `Geometry.ByteCluster` | api/fatfs/source/ff.c:4528-4531 | dividing and masking a byte offset by the cluster size in bytes, as f_lseek does, gives the cluster number and the offset of its first byte |
| `Geometry.PowerOfTwoMask` | api/fatfs/source/ff.c:3524-3524 | the mask test for a power of two accepts exactly the eight powers of two a byte can hold |
| `Window.Fatfs.constructor` | api/fatfs/source/ff.c:3566-3567 | a mounted volume starts with nothing pending, and its logical disk and FAT map are those of the medium; FSInfo is not out of date, and is tracked if it is written on the volume, lies before the FATs and has the numbers taken from it |
| `Window.Fatfs.SyncWindow` | api/fatfs/source/ff.c:1055-1073 | does not change the logical disk; afterwards nothing is pending and, both copies of the FAT having been equal, the medium equals the logical disk |
| `Window.Fatfs.MoveWindow` | api/fatfs/source/ff.c:1077-1098 | does not change the logical disk, shows the sector asked for, and keeps every first-FAT sector but the pending one equal to its mirror |
| `Transfer.WriteRun` | api/fatfs/source/ff.c:4087-4087 | writing sectors past the window changes exactly these sectors of the logical disk, and nothing of the FAT |
| `FatSpec.EndMark` | api/fatfs/source/ff.c:1184-1194 | the end-of-chain mark, clipped to 12, 16 or 28 bits, reads back as no cluster number in every sub-type |
| `FatSpec.EntryInFat` | api/fatfs/source/ff.c:1179-1194 | every access for a cluster of the volume stays within the first FAT |
| `FatSpec.EntrySamples` | api/fatfs/source/ff.c:1179-1194 | the bytes F8 FF FF 03 40 00 are the 12-bit entries FF8, FFF, 003 and 004; samples of 16 and 28 bits |
| `FatSpec.Entry12Put` | api/fatfs/source/ff.c:1252-1264 | a 12-bit entry reads back as the low 12 bits of the value put, also when half of it was put the neighbour sharing its byte keeps its value |
| `FatSpec.Bytes32IsWord` | api/fatfs/source/ff.c:1279-1282 | the word stored for a FAT32 entry has the low 28 bits of the value and the upper 4 bits that were there |
| `FatSpec.PutEntryWritten` | api/fatfs/source/ff.c:1239-1288 | setting an entry: it reads back clipped to 12, 16 or 28 bits, all other entries and the upper 4 bits of every FAT32 entry stay |
| `FatSpec.DecodesPut` | api/fatfs/source/ff.c:1239-1288 | on the map of the FAT a completed put changes one value, and one that failed half-way changes none but that one |
| `Fat.GetFat` | api/fatfs/source/ff.c:1161-1229 | by way of the window, also over two sectors, gives the value of the FAT map; 1 exactly for a number that is no cluster, or the value 1 itself; a disk error only from a failing medium |
| `Fat.PutFat` | api/fatfs/source/ff.c:1239-1288 | by way of the window, also over two sectors, changes exactly one value of the FAT map, to the clipped value, and no sector but FAT sectors, on a failing medium as well |
| `Fat.PutFat12` | api/fatfs/source/ff.c:1252-1264 | a 12-bit entry put byte by byte through a moving window |
| `Fat.PutFat32` | api/fatfs/source/ff.c:1273-1284 | a FAT32 entry keeps its upper four bits |
| `ChainSpec.ChainNoRepeat` | api/fatfs/source/ff.c:1454-1486 | a chain that reaches an end mark visits no cluster twice |
| `ChainSpec.UnlinkChain` | api/fatfs/source/ff.c:1454-1486 | following and freeing a chain frees exactly its clusters |
| `ChainSpec.UnlinkCounts` | api/fatfs/source/ff.c:1463-1466 | on any FAT, cyclic or corrupt, removal raises the number of free clusters by the number of steps it takes |
| `ChainSpec.Stretched` | api/fatfs/source/ff.c:1600-1603 | stretching keeps the FAT a forest, appends one free cluster to one chain, and leaves every disjoint chain the same |
| `ChainSpec.Claimed` | api/fatfs/source/ff.c:1600-1600 | starting a chain at a free cluster keeps the forest and makes a chain that meets no other |
| `ChainSpec.Freed` | api/fatfs/source/ff.c:1454-1486 | removing a whole chain keeps the forest, frees its clusters and no other, leaves all disjoint chains |
| `ChainSpec.Truncated` | api/fatfs/source/ff.c:1445-1486 | removing the part of a chain after a cluster frees exactly the suffix; the prefix is a whole chain again |
| `Chain.RemoveChain` | api/fatfs/source/ff.c:1429-1515 | ends on every FAT content and does to the map what Unlink says, after ending the chain before; keeps the cached count exact or unknown, and marks FSInfo as out of date if and only if the count changed; refuses what is no cluster |
| `Chain.FreeChain` | api/fatfs/source/ff.c:1454-1486 | the loop terminates, by the number of used entries, on cyclic and corrupt chains as well |
| `Chain.SearchFree` | api/fatfs/source/ff.c:1586-1598 | the circular search ends; it gives 0 only when no cluster is free, and else the first free cluster after the hint |
| `Chain.ChooseCluster` | api/fatfs/source/ff.c:1534-1599 | the cluster chosen is the one after the end of the chain when that is free, else the first free one after the hint, for any hint; none only when none is free |
| `Chain.CreateChain` | api/fatfs/source/ff.c:1524-1615 | an existing link is given back and nothing changes; 0 is given, for an exact or unknown count, exactly when no cluster is free; else the cluster the search chooses is marked and linked, nothing else of the FAT changes, the count stays exact or unknown, and FSInfo is out of date; it becomes so in no other case |
| `Chain.CountFat12` | api/fatfs/source/ff.c:4847-4858 | counts the free clusters entry by entry |
| `Chain.ScanFat` | api/fatfs/source/ff.c:4881-4899 | scanning the FAT sector by sector counts its zero entries, entries 0 and 1 included |
| `Chain.GetFree` | api/fatfs/source/ff.c:4823-4910 | scan and cached path give the same number: that of the free clusters, when the count was exact or unknown and entries 0 and 1 are not zero; FSInfo becomes out of date exactly when a scan was made and succeeded |
| `FileSpec.ClustersApart` | api/fatfs/source/ff.c:1144-1152 | distinct clusters are mapped to disjoint sectors |
| `FileSpec.SectorOfInjective` | api/fatfs/source/ff.c:1144-1152 | different sectors of a file are different sectors of the disk |
| `FileSpec.SectorOfIs` | api/fatfs/source/ff.c:1144-1152 | sector q of a file is sector q % csize of cluster number q / csize of its chain, which starts (c - 2) * csize sectors into the data area |
| `FileSpec.OwnedInData` | api/fatfs/source/ff.c:1144-1152 | sectors of a chain are data sectors, on the volume and outside the FATs |
| `FileSpec.RunBytes` | api/fatfs/source/ff.c:3965-3972 | sectors read in one transfer, clipped at the cluster boundary, are consecutive bytes of the file |
| `FileSpec.RunOverlaid` | api/fatfs/source/ff.c:3979-3981 | laying the dirty buffer over what was read gives what the file has |
| `FileSpec.RunRewritten` | api/fatfs/source/ff.c:4082-4087 | sectors written in one transfer, clipped at the cluster boundary, replace exactly these bytes of the file |
| `FileState.OverwriteStep` | api/fatfs/source/ff.c:4083-4102 | a direct write, with the buffer refreshed if it held one of the sectors, replaces exactly the bytes written and touches no other file |
| `FileState.StoreStep` | api/fatfs/source/ff.c:4110-4126 | bytes put in the buffer, which at the growing end of a file was not read, replace exactly these bytes |
| `FileState.ExtendStep` | api/fatfs/source/ff.c:4050-4069 | appending a cluster changes no byte of any file |
| `FileState.CutStep` | api/fatfs/source/ff.c:4932-4954 | cutting a file keeps exactly its first bytes, and every other file |
| `FileState.RecordedOnce` | api/fatfs/source/ff.c:3857-3858 | a medium, read by its directory entry and its FAT, tells of one byte sequence only |
| `FileState.NowRecorded` | api/fatfs/source/ff.c:4154-4207 | with nothing pending and the entry stored, the medium alone tells the bytes of the file |
| `FileState.StillRecorded` | api/fatfs/source/ff.c:4195-4204 | with the entry stored, the medium tells the bytes of the file also when its FAT has changed elsewhere than in the file's chain |
| `FileState.NoneRecorded` | api/fatfs/source/ff.c:4195-4204 | where the first cluster of the entry leads, in the FAT of the medium, to a free cluster, the medium holds no file there, whatever its bytes |
| `File.Fil.constructor` | api/fatfs/source/ff.c:3856-3872 | the object f_open makes keeps the file invariant and holds the bytes of the chain the entry names |
| `File.Fil.SeekEnd` | api/fatfs/source/ff.c:3873-3893 | opening to append moves to the end of the file, changing nothing, with cluster and buffer as the invariant wants |
| `File.Fil.Read` | api/fatfs/source/ff.c:3916-4011 | gives exactly the bytes from the file pointer on, as many as asked for and left, changes no byte of this or another file, and keeps the object invariant |
| `File.Fil.ReadChunk` | api/fatfs/source/ff.c:3943-4006 | one turn of the loop, direct or by way of the buffer, makes progress and gives the next bytes |
| `File.Fil.ReadDirect` | api/fatfs/source/ff.c:3965-3985 | a transfer of several sectors gives the bytes of the file also when one of its sectors is changed in the buffer |
| `File.Fil.NextOrNew` | api/fatfs/source/ff.c:4062-4067 | following the chain with stretching: the chain is kept or gets one free cluster, and 0 means that none is free |
| `File.Fil.Write` | api/fatfs/source/ff.c:4021-4133 | replaces or extends exactly the bytes from the file pointer on; fewer than asked for only at 4 GiB - 1 or when no cluster is free; keeps all other files |
| `File.Fil.WriteChunk` | api/fatfs/source/ff.c:4042-4128 | one turn of the loop makes progress or finds the volume full |
| `File.Fil.WriteDirect` | api/fatfs/source/ff.c:4082-4102 | a transfer of several sectors stays in the cluster and refreshes the buffer it passes |
| `File.Fil.Lseek` | api/fatfs/source/ff.c:4440-4595 | moves where it is told, growing a writable file as far as clusters go and stopping a read-only one at its end; the bytes there were stay |
| `File.Fil.SeekFollow` | api/fatfs/source/ff.c:4546-4574 | the walk along the chain comes to the cluster and the sector of the position, or to the end of the last cluster with none free |
| `File.Fil.Truncate` | api/fatfs/source/ff.c:4919-4960 | keeps exactly the bytes before the file pointer and the clusters that hold them, and frees the rest |
| `File.Fil.CutChain` | api/fatfs/source/ff.c:4933-4944 | of the file's clusters exactly those behind the file pointer are freed |
| `File.Fil.Sync` | api/fatfs/source/ff.c:4142-4212 | the entry on the medium is the old one with bit 5 of its attributes set, the time, the size and the first cluster stored, the access date zero and every other byte as it was; on a tracked volume FSInfo then has the free count and the last cluster. Where FSInfo is not written or lies before the FATs, the medium alone, with no window and no buffer, then holds the file under its directory entry, with the contents it had; where it goes over the FAT, the medium holds a file with no cluster below 128, and nothing of a file whose first cluster below 128 is one whose entry FSInfo has zeros for (2 to 120, 124 to 126) |
| `File.Fil.SyncModified` | api/fatfs/source/ff.c:4154-4207 | of the other sectors only the entry's and FSInfo change, the entry's only in its 32 bytes, and those as said of f_sync; where FSInfo goes over the FAT, the same of the file as f_sync |
| `FileRun.Play` | api/fatfs/source/ff.c:3916-4210 | every sequence of f_read, f_write, f_lseek, f_truncate and f_sync on an open file behaves like the same operations on a byte sequence with a position and a capacity, everything else on the volume is kept, and after every f_sync of the run the medium alone holds the bytes of that moment; on a tracked volume FSInfo on the medium then also has the free count and the last cluster of that moment, and that count, unless unknown, is the number of free clusters in the FAT on the medium |
| `FileRun.SettledRecords` | api/fatfs/source/ff.c:4154-4157 | at any point of a run at which the file is unmodified, the medium alone holds it |
| `FileRun.SettledInfo` | api/fatfs/source/ff.c:1108-1134 | at such a point on a tracked volume, if FSInfo is not out of date, it has the two numbers on the medium, and a known count is the number of free clusters in the FAT on the medium |
| `FileRun.FullAtCapacity` | api/fatfs/source/ff.c:4065-4065 | a write or seek stops for lack of clusters exactly at the capacity: the file's clusters and all that were free at the start of the run |
| `FileRun.BecameKeepsRest` | api/fatfs/source/ff.c:4042-4128 | an operation keeps every other chain and its bytes, the directory entry's sector, and the capacity |
| `FileRun.SyncedKeepsRest` | api/fatfs/source/ff.c:4154-4207 | f_sync changes nothing else on the volume but the entry and FSInfo |
| `DirEntry.EntryReadsBack` | api/fatfs/source/ff.c:4197-4202 | ld_clust and the size read what was stored, and every byte outside the entry's fields stays |
| `DirEntry.EntryBytes` | api/fatfs/source/ff.c:4195-4204 | what f_sync stores, byte by byte: bit 5 of byte 11 is set and its other bits stay, bytes 12 to 17 stay, 18 and 19 are zero, 20 and 21 are the upper half of the cluster on FAT32 and else stay, then time, lower half of the cluster and size, low byte first; bytes 0 to 10 and all outside the entry stay |
| `FsInfoSector.FsInfoReadsBack` | api/fatfs/source/ff.c:1117-1127 | the signatures and the two numbers that sync_fs stores in FSInfo, as words of it |
| `FsInfoSector.InfoKnown` | api/fatfs/source/ff.c:1117-1127 | what sync_fs stores in FSInfo is what mounting reads |
| `FsInfoSector.LoadInfo` | api/fatfs/source/ff.c:3564-3585 | FSInfo is written later exactly on a FAT32 volume whose boot sector has 1 in bytes 48 and 49 and whose next sector could be read; the two numbers are those of bytes 488 to 495, low byte first, when the ten signature bytes are right, and unknown else |
| `DirEntry.SyncFs` | api/fatfs/source/ff.c:1108-1134 | nothing is pending afterwards, and of the logical disk only FSInfo changes; on a tracked volume it then has the free count and the last cluster; where FSInfo goes over the FAT, the clusters whose entries it has zeros for are freed and those from 128 on stay; when one of the former is in use, the FAT stays as it is if and only if FSInfo is not written or lies before the FATs |
| `DirEntry.InfoFrees` | api/fatfs/source/ff.c:1117-1126 | FSInfo written over the first FAT sector makes the clusters 2 to 120 and 124 to 126 free, whatever was there |
| `DirEntry.InfoSpares` | api/fatfs/source/ff.c:1117-1126 | FSInfo written over the first FAT sector leaves the clusters from 128 on as they are |
| `Mount.MountGeometry` | api/fatfs/source/ff.c:3513-3562 | accepts exactly the boot sectors that tell a geometry, and gives it: every field by its bytes (sector size 11 and 12, cluster size 13, reserved sectors 14 and 15, FATs 16, root entries 17 and 18, sectors 19 and 20 or 32 to 35, FAT size 22 and 23 or 36 to 39, version 42 and 43, root cluster 44 to 47), with 32-bit sums |
| `Mount.MountLaid` | api/fatfs/source/ff.c:3513-3562 | an accepted volume has disjoint areas within the 32-bit sector numbers if and only if none of the declared sizes wraps, and then it lies in the volume declared |
| `Mount.MountComplete` | api/fatfs/source/ff.c:3513-3562 | every properly laid out volume is accepted, with the geometry its boot sector declares |
| `Mount.OrdinaryVolumes` | api/fatfs/source/ff.c:3513-3562 | two whole boot sectors given by their bytes, of a FAT16 and of a FAT32 volume, that are accepted, with their geometries |
| `Mount.MountWraps` | api/fatfs/source/ff.c:3521-3537 | a boot sector with a wrapping FAT size that is accepted and whose FAT is not in the volume |
| `Mount.MountOneReserved` | api/fatfs/source/ff.c:3532-3571 | a boot sector with one reserved sector that is accepted as a properly laid out FAT32 volume and whose FSInfo sector is the first FAT sector |
| `Utf.DecodesEncoded` | api/fatfs/source/ff.c:736-775 | the shortest form of every scalar value decodes to it, wherever it stands in a string |
| `Utf.CodingSamples` | api/fatfs/source/ff.c:805-886 | U+00E9, U+20AC and U+1F600 in UTF-8 and UTF-16 |
| `Utf.EncodesDecoded` | api/fatfs/source/ff.c:736-775 | what decodes lies within the string, and is the shortest form exactly when it has that length |
| `Utf.OverlongDecodes` | api/fatfs/source/ff.c:757-773 | a three-byte form that decodes to U+0080, whose shortest form has two bytes |
| `Utf.TcharToUni` | api/fatfs/source/ff.c:736-801 | gives the character coded at a place as one unit or a surrogate pair, and the place after it; an error moves nothing |
| `Utf.PutUtf` | api/fatfs/source/ff.c:805-886 | writes the shortest form of a character when it fits, and nothing for what is no character |
| `Lfn.PutLfn` | api/fatfs/source/ff.c:1959-1984 | the entry holds the 13 units of its part, padding after the end, the checksum, its number and the last-part flag |
| `Lfn.PartBytes` | api/fatfs/source/ff.c:1959-1984 | the 13 units of a full part are in the bytes 1 to 10, 14 to 25 and 28 to 31 of its entry, in their order, low byte first |
| `Lfn.PickLfn` | api/fatfs/source/ff.c:1921-1950 | the units of a valid entry go to their place in the buffer, and nothing else does; others are refused |
| `Lfn.PutPick` | api/fatfs/source/ff.c:1921-1984 | picking the entries put for a name, last part first, gives the name |
| `Lfn.PutPickExactly` | api/fatfs/source/ff.c:1921-1984 | this holds if and only if units 0xFFFF do no more than fill up the last entry |
| `Lfn.KnownExactly` | api/fatfs/source/ff.c:1975-1983 | the entries put for a name stand for the name itself if and only if units 0xFFFF do no more than fill up the last one; else for the name padded with 0xFFFF from the first such unit to the end of its entry |
| `Lfn.CmpExactly` | api/fatfs/source/ff.c:1885-1913 | comparing those entries of a stored name that a search goes by succeeds if and only if the name looked for is the one they stand for, up to case and as long; for any stored name, units 0xFFFF included |
| `Lfn.OwnName` | api/fatfs/source/ff.c:1885-1913 | when upper-casing keeps 0xFFFF apart, a name is the same, up to case, as the one its entries stand for if and only if it is stored faithfully |
| `Lfn.CmpLfn` | api/fatfs/source/ff.c:1885-1913 | agrees with what CmpExactly is about |
| `DirTable.SumSfn` | api/fatfs/source/ff.c:2053-2064 | the checksum of the eleven bytes of a short name: eleven times the sum on eight bits is rotated to the right by one bit and the next byte added |
| `DirTable.SumIsRotated` | api/fatfs/source/ff.c:2059-2061 | the form with quotient and remainder is the one with rotations, for every number of bytes |
| `DirTable.SumOfLongFile` | api/fatfs/source/ff.c:2053-2064 | the checksum of LONGFI~1TXT is 0xD4 |
| `DirTable.SumsApart` | api/fatfs/source/ff.c:2053-2064 | names that differ in exactly one byte have different checksums |
| `DirTable.FoundIsShort` | api/fatfs/source/ff.c:2417-2452 | what dir_find gives is a live entry of a file or a directory before the end mark, never a volume label or part of a long name |
| `DirTable.AllocFree` | api/fatfs/source/ff.c:1806-1837 | with no live entry after an end mark, the block found is free and no end mark comes before it |
| `DirTable.AllocFirst` | api/fatfs/source/ff.c:1819-1832 | it is the first such block, and a search that fails has passed none |
| `DirTable.AllocContiguous` | api/fatfs/source/ff.c:1819-1832 | in any table, the block found consists of free entries only |
| `DirTable.RegisterKeeps` | api/fatfs/source/ff.c:2525-2557 | registering keeps "no live entry after an end mark", and keeps every long name complete where it was |
| `DirTable.RegisteredIsFound` | api/fatfs/source/ff.c:2417-2452 | in any directory, a name that was missing is found where any name was registered whose entries stand for it, or whose short name it has |
| `DirTable.OthersAsBefore` | api/fatfs/source/ff.c:2417-2452 | for any registered name, every name but the one its entries stand for is found where it was, or missing as it was, if and only if the search for it does not come to the new short name with all parts of a matching long name passed whose checksum is that of the short name |
| `DirTable.FoundExactly` | api/fatfs/source/ff.c:2417-2452 | a name that was missing is found by itself after it was registered if and only if it is the name its entries stand for, up to case, or is found by its short name; so a long name is found by itself exactly when it is stored faithfully |
| `DirTable.PadInsideMissed` | api/fatfs/source/ff.c:2417-2452 | a name with a 0xFFFF inside that is registered in an empty directory and then not found, while its first thirteen units are |
| `DirTable.AdoptedOnlyOrphans` | api/fatfs/source/ff.c:2431-2442 | that happens only to a short name without a long one that is registered directly behind a long-name entry no short name follows |
| `DirTable.OrphanAdopted` | api/fatfs/source/ff.c:2417-2452 | a directory with such an entry in which a missing name is found after another was registered |
| `DirTable.ReadsBack` | api/fatfs/source/ff.c:2318-2370 | reading that starts at any registered object comes to it with the start of the entries that stand for its name, and these give that name; with none when it is too long for the buffer |
| `DirTable.ListedExactly` | api/fatfs/source/ff.c:2318-2370 | reading a directory from its top gives exactly the live entries before the end mark that are neither volume labels nor long-name entries nor dot entries, sub-directories included |
| `DirTable.ListsObjects` | api/fatfs/source/ff.c:2318-2370 | in their order, each once |
| `DirTable.RegisteredIsListed` | api/fatfs/source/ff.c:2318-2370 | reading any directory from its top gives, among others, every registered object, with the start of the entries that stand for its long name; a short name without a long one is told without if and only if no entries before it count down to it with its checksum, which cannot be unless one stands directly before it |
| `DirTable.OrphanTold` | api/fatfs/source/ff.c:2346-2359 | a long-name entry and a short name with its checksum behind it: reading tells the short name with that long name |
| `Directory.CountExact` | api/fatfs/source/ff.c:1754-1756 | on any FAT, looping ones included, a directory has entries up to a count of at most 65536 and none from there on |
| `Directory.Dir.Sdi` | api/fatfs/source/ff.c:1697-1736 | goes to the entry at an offset, or finds that there is none, on any FAT |
| `Directory.Dir.Next` | api/fatfs/source/ff.c:1745-1796 | goes to the entry after, and fails exactly where dir_sdi does |
| `Directory.Dir.Advance` | api/fatfs/source/ff.c:1697-1796 | random and sequential access agree: dir_sdi to 0 and k times dir_next is dir_sdi to 32 k |
| `Directory.Dir.FindName` | api/fatfs/source/ff.c:2384-2455 | ends on any FAT and finds what a search of the table finds, with the cursor there; it meets an internal error only where a link of the directory names no cluster |
| `Directory.Dir.ReadObject` | api/fatfs/source/ff.c:2306-2374 | ends on any FAT and comes to the next object of the table, its long name picked into the buffer; it meets an internal error only where a link of the directory names no cluster |
| `DirDisk.EntrySet` | api/fatfs/source/ff.c:2546-2557 | writing 32 bytes at the place of an entry changes that entry of the table and no other |
| `DirDisk.PathIsChain` | api/fatfs/source/ff.c:1766-1771 | on any FAT, the clusters met on the way to an end mark are a chain, so none is met twice |
| `DirDisk.TableStretched` | api/fatfs/source/ff.c:1776-1788 | appending a cleared cluster appends entries of zeros to the table |
| `DirOps.DirClear` | api/fatfs/source/ff.c:1658-1687 | fills the cluster with zeros and touches no other sector |
| `DirOps.DirNext` | api/fatfs/source/ff.c:1745-1796 | on any FAT, looping and corrupt ones included: a directory at its end is stretched by a cleared cluster, its other entries stay, and it is denied only when no cluster is free; on a sound volume all other chains and their bytes, and every sector outside the FATs and the data area, are kept |
| `DirOps.DirAlloc` | api/fatfs/source/ff.c:1806-1837 | ends on any FAT, looping and corrupt ones included; comes to the last entry of the first block long enough, all of whose entries are free; stretches only a directory that has none; denied only to a static root, at 65536 entries, or when no cluster is free; on a sound volume all else is kept as by dir_next |
| `DirOps.DirRegister` | api/fatfs/source/ff.c:2465-2560 | ends on any FAT, with a numbered short name that the directory did not have; on a sound volume, in a directory with no live entry after an end mark, the first free block then holds the entries of the name, no other entry, no other chain, and no sector outside the FATs and the data area changes (but for the entries of a static root), and a medium that does not fail gives success, a full directory or volume, or a wrong name |
| `DirOps.Number` | api/fatfs/source/ff.c:2511-2522 | the numbered short name is one the directory does not have |
| `DirOps.AfterRegister` | api/fatfs/source/ff.c:2417-2557 | after registering, by way of a stretched directory as well: the name the entries stand for is found at its block, any other is found or missing as before exactly under the condition of OthersAsBefore, which holds whenever no long-name entry stands before the block, and the table is in order |
| `Text.SegmentOf` | api/fatfs/source/ff.c:2862-2872 | the shortest coding of legal characters before a separator is read as these characters |
| `Names.ReadSegment` | api/fatfs/source/ff.c:2862-2880 | accepts exactly the segments of legal characters of at most 255 units, and gives their UTF-16 |
| `Names.Snip` | api/fatfs/source/ff.c:2893-2898 | trailing spaces and dots go, and nothing else |
| `Names.MakeSfn` | api/fatfs/source/ff.c:2901-2974 | for every name the eleven bytes are those of ShortBytes: as many whole characters of the body as fit eight bytes and of the extension as fit three, in capitals and in the code page, spaces and dots left out, others replaced by an underscore, blanks behind; NS_LOSS is set exactly when a character was left out, replaced or cut off, or the only dot comes first. No long name is called for if and only if the name is in 8.3 form, body and extension each in letters of one case; the short name and its case flags are then those of the name |
| `Names.LosesExactly` | api/fatfs/source/ff.c:2909-2952 | a field loses nothing if and only if it has no space, no dot and no character to be replaced, and its text in the code page fits; it then holds that text |
| `Names.ShortTells` | api/fatfs/source/ff.c:2901-2974 | two names without NS_LOSS that have the same eleven bytes are the same in the code page, up to case |
| `Names.LongFileLossy` | api/fatfs/source/ff.c:2901-2974 | "long file a.txt" has the eleven bytes LONGFILETXT and NS_LOSS |
| `Names.Restores` | api/fatfs/source/ff.c:2721-2726 | a short name with its case flags stands for exactly the name it was made from |
| `Names.ShortExactly` | api/fatfs/source/ff.c:2901-2971 | a name in 8.3 form gets through the loop with no long name called for; ShortIs83 is the converse |
| `Names.CreateName` | api/fatfs/source/ff.c:2861-2976 | refuses exactly what is no proper segment or snips to nothing, and else gives its long name, a short name that is live and no dot entry, its bytes and NS_LOSS as said of MakeSfn, the flags of 8.3 form exactly for names in that form, and where the path goes on |
| `FileInfo.LongFname` | api/fatfs/source/ff.c:2672-2689 | what comes out, if anything, is the UTF-8 text of the name; nothing comes out for a name that is no text or does not fit |
| `FileInfo.ShortFname` | api/fatfs/source/ff.c:2692-2715 | an ASCII short name comes out as body, dot and extension |
| `FileInfo.GetFileInfo` | api/fatfs/source/ff.c:2671-2730 | gives the long name, or the short name with small letters where its flags say so; as the second name the short one with its dot when there is a long name or a case flag, and else none |
| `NameTrip.SnippedUnits` | api/fatfs/source/ff.c:2893-2898 | snipping units is snipping characters |
| `NameTrip.ReadsCreated` | api/fatfs/source/ff.c:2341-2361 | what is read at a registered block is the name its entries stand for, or the short name that stands for the name created |
| `NameTrip.KnownTextUnits` | api/fatfs/source/ff.c:1975-1983 | the text of the name that the entries of a text stand for |
| `NameTrip.KnownTextExactly` | api/fatfs/source/ff.c:1975-1983 | it is the text itself if and only if that is stored faithfully |
| `NameTrip.ReadUpTo` | api/fatfs/source/ff.c:2306-2374 | rewinding, and reading object by object, comes to an object with what RegisteredIsListed says of it |
| `NameTrip.PutAndList` | api/fatfs/source/ff.c:2306-2976 | a path segment of legal characters, put in by create_name and dir_register, comes out when the directory is read from its top: get_fileinfo gives the same UTF-8 bytes less trailing spaces and dots, whether stored as long-name entries or as a short name with case flags; with a U+FFFF inside, those of the name its entries stand for; unless the short name is told with entries left before it, as RegisteredIsListed says; on a medium that does not fail only a full directory or volume or a name over 255 units prevents it |
| `NameTrip.PadNameLost` | api/fatfs/source/ff.c:1959-1984 | a name with U+FFFF between two letters is accepted by create_name, and its entries do not give it back |
| `Strings.OutText` | api/fatfs/source/ff.c:6621-6643 | text in its shortest form comes out of the incremental decoder as it went in |
| `Strings.PutBuff.Decode` | api/fatfs/source/ff.c:6621-6643 | the decoder keeps what is pending of a character and tells when one is complete |
| `Strings.PutBuff.Emit` | api/fatfs/source/ff.c:6672-6694 | appends the UTF-8 of a character within the 64-byte buffer |
| `Strings.PutBuff.Putc` | api/fatfs/source/ff.c:6589-6715 | the buffer is drained before it could overrun; file and buffer together hold what came out of the decoder |
| `Strings.PutBuff.Flush` | api/fatfs/source/ff.c:6720-6728 | empties the buffer into the file and tells the number of units, -1 when the file could not take them |
| `Strings.Puts` | api/fatfs/source/ff.c:6761-6772 | the file is what it was with what came out of the decoder, up to the zero byte of the string, written at the file pointer; -1 only for a file that is full, at its largest or not writable, or on an error, earlier ones included |
| `Gets.CharHeld` | api/fatfs/source/ff.c:6480-6504 | a character in its shortest form is read as it is |
| `Gets.LineHeld` | api/fatfs/source/ff.c:6456-6538 | a line that fits is read unchanged, up to its line end, the end of the file or of the room |
| `Gets.ReadChar` | api/fatfs/source/ff.c:6480-6504 | on any content, reads the character at the file pointer, or tells the end or a wrong code |
| `Gets.Gets` | api/fatfs/source/ff.c:6433-6558 | gives the line at the file pointer, ended by a zero byte within the buffer, leaving out wrong codes, and changes no byte of the file |
| `Gets.PutAndGet` | api/fatfs/source/ff.c:6433-6772 | every line put with f_puts is read back by f_gets unchanged, whether the line end, the room or the end of the file ends it |
| `Ring.RingBuffer.Enqueue` | api/include/shared_ringbuffer/shared_ringbuffer.h:103-118 | appends to the waiting descriptors, refused exactly when 511 are waiting, for any wrapped indices |
| `Ring.RingBuffer.Dequeue` | api/include/shared_ringbuffer/shared_ringbuffer.h:130-145 | takes the oldest waiting descriptor, refused exactly when none is |
| `Ring.RingBuffer.DriverDequeue` | api/include/shared_ringbuffer/shared_ringbuffer.h:221-235 | the same, with the slot the descriptor stays in |
| `Ring.Tests` | api/include/shared_ringbuffer/shared_ringbuffer.h:60-75 | the tests on 32-bit differences modulo 512 say empty and full exactly, after any number of wraps |
| `Ring.ProduceKeeps` | api/include/shared_ringbuffer/shared_ringbuffer.h:103-118 | each access of the producer to shared memory keeps the invariant, wherever the consumer is |
| `Ring.ConsumeKeeps` | api/include/shared_ringbuffer/shared_ringbuffer.h:130-145 | each access of the consumer keeps it, wherever the producer is |
| `Ring.FirstInFirstOut` | api/include/shared_ringbuffer/shared_ringbuffer.h:103-145 | under every interleaving what was dequeued is a prefix of what was enqueued, the rest is in the slots, and at most 511 are waiting |
| `Ring.SlotsStay` | api/include/shared_ringbuffer/shared_ringbuffer.h:221-235 | no step overwrites the slot of a waiting descriptor, nor the one a driver holds until 511 more are enqueued |
| `Ring.RefusedRightly` | api/include/shared_ringbuffer/shared_ringbuffer.h:60-75 | a refusal was right for an index the other side really had |

## Left out

- disk_read, disk_write and disk_ioctl are the class `Disk`: an array of sectors that may fail, a failing write of several sectors leaving any of them changed; CTRL_SYNC is taken to succeed, as `api/fatfs/source/diskio.c` never sets its result to anything else.
- Drive numbers, registration and validation of mounted volumes, and the search for a volume on the medium: mounting starts from a boot sector and the sector it was found at.
- Code the configuration disables: exFAT, GPT, making and partitioning volumes, fast seek, expanding and forwarding, labels, locks, re-entrancy, pattern matching, changing attributes, relative paths, TRIM.
- f_open up to finding the entry, f_mkdir, f_unlink, f_rename, f_readdir, f_stat, follow_path: made of the modelled functions.
- ff_wtoupper, ff_uni2oem, ff_oem2uni and gen_numname are parameters: upper-casing takes only 0 to 0 (and, where `DirTable.FoundExactly` speaks of faithful storing, only 0xFFFF where it takes 0xFFFF), conversion to the code page never gives a dot (and, where `Names.ShortTells` compares short names, no control character or blank), conversion from it keeps ASCII, a numbered name has eleven bytes of which the first marks no free and no dot entry.
- Timestamps and attributes but for what f_sync stores; f_printf and its number formats; f_putc, which is putc_bfd and putc_flush on one byte.
- Several files open at once: FF_FS_LOCK is 0, so the application has to keep them apart; the proofs are about one open file, and other files by their chains and bytes.
- Memory ordering of the ring: sequentially consistent accesses; notification of the other side, the two-ring handles and the message texts.
- One long C function is several methods where its parts have a contract of their own, as the rows above show.
- File.Fil.Lseek: after a disk error the file is only said to be refused from then on; where its file pointer stands is not, as for f_read and f_write.
- File.Fil.Sync: for a file with no earlier error; the entry is stored as f_open found its place; the time is a parameter. Where FSInfo goes over the FAT, a file whose first cluster below 128 is 121, 122, 123 or 127 is left open: its entry becomes a signature or a count of FSInfo.
- FileRun.Play: on a medium that does not fail; what it says of FSInfo, for volumes on which FSInfo is written and lies before the FATs, and where it was not out of date for an unmodified file at the start; a run with an f_sync asks that FSInfo, if it is written at all on the volume, lies before the FATs. The single operations are proved on media that fail, and f_sync on the other volumes.
- Chain.GetFree: entries 0 and 1 of a FAT16 or FAT32 volume that are zero are counted as free by the code; the contract says by how many.
- Gets.PutAndGet: for a line with a zero byte inside, which ends the string that f_puts is given; Strings.Puts says what is then written.
- NameTrip.PutAndList: on a sound volume, in a directory with no live entry after an end mark; the upper-casing that matters only for finding names plays no part in it; the objects read before the name are passed over without get_fileinfo, which only fills the caller's record.
- Strings.Puts: text that is not in its shortest form is written as the decoder recodes it, not as it stands.
- DirOps.DirRegister: on a FAT that is not sound, only that it ends, which results it has, and where the cursor stands; where the chain of the directory loops, the entries of one name may overwrite each other.
- Names.ShortTells: for a code page whose codes have no control character and no blank among their bytes; the code page itself is a parameter.
- FileInfo.ShortFname: short names with bytes outside ASCII, which depend on the code page.
- FileInfo.GetFileInfo: the same, also for the second name, and size, date and attributes.
