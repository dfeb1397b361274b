# Verified model of the kernel's file system, image decoder, heap and settings

This project models, in Dafny, the parts of the operating system that carry the most state: the FAT12/16/32 file
system (`ff.c`), the inflate and PNG reconstruction code of the image decoder (`stb_image.h`), the kernel heap
(`mm.c`), the theme file (`kernel.c`) and the keyboard ring (`idt.c`). `dafny verify dfyconfig.toml` checks all of it.

The file system is a stack of layers, each proved to refine a simpler one:

- A device is a sequence of sectors whose transfers may fail (`Device`). The volume object keeps one dirty sector
  window over it (`Volume`). The *logical disk* is the device under that window, with the second FAT following the first.
- Entries of 12, 16 and 28 bits, packed into bytes, are a plain array of numbers (`FatTable`, `Layout`). Allocation and removal on that
  array are pure functions (`Chains`), and every run of them keeps a set of disjoint chains, the free clusters and the
  free count in step (`ChainSet`).
- An open file with its sector buffer, direct multi-sector transfers and clipping at a full disk is a plain byte sequence
  with a cursor (`FileSpace`, `FileState`, `File`, `Session`). After a sync the device alone determines it, and every other
  file is what it was (`FileDisk`). Mounting the device again finds it all (`Mounting`).
- A directory is a table of 32-byte entries. `DirWalk` moves through its sectors whatever the FAT holds. `LongNames`,
  `Directory` and `Registration` say what a table means. `DirTable` and `DirRegister` find, list, allocate and register
  entries of that table on the volume, sector by sector through the window. `NamedFile` joins names and files: what is
  created is found again by its name after everything in memory is gone.
- `Mount` and `Mkfs` connect a boot sector with the layout all of this assumes, and `FreshVolume` goes the whole way: format,
  mount, create, use, mount again, find, read back.

The decoder is proved against a description of the format (`Deflate`, after sections 3.2.2 to 3.2.7 of RFC 1951):
`HuffmanCodes` holds the theory of canonical codes, `Huffman` the tables, `Inflate`, `DynamicHeader` and `Zlib` the
decoder, `Workspace` the memory it gets, `Png`, `Adam7` and `Interlaced` the reconstruction (sections 6 and 2.6 of RFC 2083). What a valid stream holds is
what comes out, and what comes out is what the stream, followed by zeros, holds.

Configuration: `ffconf.h` as it stands, that is 512-byte sectors, long names on, exFAT, locking, tiny mode and fast seek
off. Upper-casing is an unknown function that sends 0, and only 0, to 0.

Results that differ from what one would expect of the code:

- `Mount.LayoutSound`, `Mount.WrappedLayout`: mounting adds sizes in 32 bits. A volume whose system areas add up to 2^32
  sectors or more can be accepted with its data area before its FAT. The layout is sound if and only if they stay below.
- `Mount.InfoSectorPlace`, `Mount.InfoOverwritesFat`: the information sector is written next to the boot sector. With one
  reserved sector that place is the FAT, and the write wipes its first entries. It lies outside the FAT if and only if
  there are at least two reserved sectors. `Mount.OneReservedAccepted` gives a boot sector that mounts this way.
- `Chains.RemoveCounts`, `Chains.MarkedFreeEntry`: remove_chain marks the predecessor as the end before it frees anything.
  If that entry was free, the free count comes out wrong. It stays right if and only if the entry was in use, or freeing
  leads back to it and no other entry is in use.
- `Registration.RegisteredIsFound`, `Registration.StrayMark`: a freshly registered name is found if and only if the table,
  before the call, had room for it with no end mark before that room. Tables that keep their end marks at the end, as this
  code does, always meet this.
- `DirRegister.EntryStored`, `DirRegister.OnlyOneChanges`: in a directory whose chain has a loop an entry occurs more than
  once, and storing it changes every occurrence. A store changes only one entry of the table if and only if no other entry
  lies in the same place. `DirRegister.LoopedStore` is a mounted volume where it changes two. `DirTables.ShortIsLoopless`:
  a table of fewer than 65536 entries has no loop.
- `DirWalk.Dir.Clear`, `DirWalk.TinySound`, `DirWalk.StaleWindow`: dir_clear turns the window to the new cluster before writing it. After a write
  error the window agrees with the device if and only if the first sector of the cluster was written, or was zero before.
- `Mkfs.WriteInfo`: f_mkfs writes an information sector without the trailing signature that mounting looks for, so the
  free count in it is not used until the first sync.
- `Heap.AlignCovers`, `Heap.EmptyBlock`: kmalloc rounds the size up in 32 bits. Sizes above 0xFFFFFFF8 wrap to 0 and are met
  with an empty block. The block is large enough if and only if the size is not above that.

## Model

| member | source | states |
|---|---|---|
| `FatTable.EntriesFit` | ff.c:1193-1211 | every byte of every entry below the cluster limit lies inside a table of the size the volume asks for, for all three entry widths |
| `FatTable.EntryBytes` | ff.c:1193-1211 | the sector and offset arithmetic of the FAT12, FAT16 and FAT32 cases finds exactly the bytes where the table keeps the entry |
| `FatTable.PairOf12` | ff.c:1193-1199 | three bytes of the table hold two 12-bit entries, low bits first |
| `FatTable.WideEntries` | ff.c:1200-1211 | two bytes hold a 16-bit entry; four bytes hold a 28-bit entry under four reserved bits; low bytes first |
| `FatTable.PutThenGet` | ff.c:1255-1304 | a value stored in an entry is read back cut to 12, 16 or 28 bits |
| `FatTable.PutFrame` | ff.c:1255-1304 | storing one entry changes no other entry, although neighbouring 12-bit entries share a byte |
| `FatTable.Put12HalfFrame` | ff.c:1268-1280 | a 12-bit store that is cut off after its first byte still leaves every other entry intact |
| `FatTable.Put32ThenGet` | ff.c:1289-1300 | a FAT32 store is read back cut to 28 bits and keeps the upper four bits that were there |
| `FatTable.NextEntry` | ff.c:4893-4906 | stepping from a 16 or 32-bit entry to the next one leads to the next place in the sector or to the start of the next sector |
| `Layout.Geometry.FlushAgrees` | ff.c:1065-1074 | writing the window to both copies restores their agreement and leaves the logical disk as it was |
| `Layout.Geometry.PutIsUpdate` | ff.c:1255-1304 | a store through the bytes of the table is an update of the plain array of entries |
| `Layout.Geometry.HalfPut` | ff.c:1268-1280 | after the first half of a 12-bit store every other entry of the plain array is still what it was |
| `Devices.Device.Read` | diskio.c:125-160 | a successful transfer fills exactly the range asked for; a fault leaves everything outside the range alone |
| `Devices.Device.Write` | diskio.c:162-208 | a successful transfer stores exactly the sectors asked for; a fault changes no sector outside the range |
| `Volumes.Volume.SyncWindow` | ff.c:1058-1077 | writing the window back never changes the logical disk; on a device without faults the device then holds it, both FAT copies included |
| `Volumes.Volume.MoveWindow` | ff.c:1080-1101 | the window shows the sector asked for, the logical disk stays what it was and the FAT copies equal up to the dirty window; asked for the number of an empty window it reports success without loading anything |
| `Volumes.Volume.GetFat` | ff.c:1177-1248 | reads the entry of the plain FAT array, 1 for a number out of range, 0xFFFFFFFF only on a device fault; nothing changes |
| `Volumes.Volume.PutFat12` | ff.c:1268-1280 | the two bytes of a 12-bit entry may lie in different sectors; on success the plain array has the new entry, on a fault no other entry changed |
| `Volumes.Volume.PutFat` | ff.c:1255-1304 | on success the plain FAT array is updated in one place; on a fault no other entry changed; sectors outside the FAT never change |
| `Volumes.Volume.FindFree` | ff.c:1602-1615 | the circular search through get_fat computes the search on the plain array |
| `Volumes.Volume.TakeCluster` | ff.c:1616-1632 | marks the cluster found, links it, makes it the hint and counts it, as the allocation on the plain array does |
| `Volumes.Volume.CreateChain` | ff.c:1540-1633 | on a device without faults it is the pure allocation on the plain array, for every argument, hint and free count |
| `Volumes.Volume.FreeCluster` | ff.c:1475-1482 | one turn of the removal loop clears one entry and counts one cluster as free |
| `Volumes.Volume.RemoveChain` | ff.c:1445-1531 | terminates on any FAT contents, cyclic and cross-linked chains included, and computes the pure removal on the plain array; a free count that was right or unknown stays so if and only if the predecessor was in use, or nothing but the way to it was |
| `Volumes.Volume.ScanFree12` | ff.c:4855-4866 | the entry-wise scan counts the free clusters |
| `Volumes.Volume.ScanFree` | ff.c:4889-4907 | the sector-wise scan counts the free entries, the two reserved ones included |
| `Volumes.Volume.GetFree` | ff.c:4850-4913 | the free count reported is the number of zero entries of clusters 2 and up, if the recorded count was right or unknown and the reserved entries are nonzero |
| `Volumes.Volume.WriteEntry` | ff.c:4203-4211 | the directory entry is updated in the window and nowhere else |
| `Volumes.Volume.SyncFs` | ff.c:1111-1150 | afterwards the device alone is the logical disk, with the information sector brought up to date on FAT32 after allocations |
| `Volumes.EditProject` | ff.c:1058-1077 | an edit of a sector outside the FAT copies is the same edit of the logical disk |
| `Entries.UpdatedFields` | ff.c:4205-4210 | an updated entry tells the start cluster and the size; the name and all other entries are untouched |
| `Entries.UpdatedBytes` | ff.c:4203-4211 | the update byte by byte: where the cluster, the size, the time and the cleared access date stand |
| `Entries.ArchiveByBits` | ff.c:4204-4204 | the archive attribute is bit 5, and only that bit is set |
| `Entries.InfoLayout` | ff.c:1123-1130 | the information sector byte by byte: the three signatures, the free count, the last cluster, and zeros |
| `Chains.SearchFinds` | ff.c:1602-1615 | the circular search probes every cluster: it finds a free one unless none is free or an entry is bad |
| `Chains.WalkMeets` | ff.c:1602-1615 | upwards from the hint and around from the last cluster to cluster 2, every cluster is met once, the hint itself last |
| `Chains.SearchNearest` | ff.c:1602-1615 | the search stops at the first cluster in that order that is free or bad: every cluster before it is in use; it fails exactly if all are |
| `Chains.CreateFailsIffFull` | ff.c:1540-1633 | for every hint a request for a cluster fails exactly when no cluster is free, and otherwise takes a free one |
| `Chains.CreateCounts` | ff.c:1616-1627 | a successful allocation keeps the free count right and takes exactly one cluster |
| `Chains.CreateTakes` | ff.c:1616-1627 | an allocation changes one free entry to an end mark, links the cluster given to it, and makes it the hint; no other entry changes |
| `Chains.StretchesOn` | ff.c:1588-1599 | a chain is stretched into the next cluster, cluster 2 after the last one, whenever that is free |
| `Chains.TakesNearest` | ff.c:1555-1615 | otherwise, and for a new chain, the nearest free cluster behind the hint is taken, unless a bad entry comes before it |
| `Chains.FreedComesLast` | ff.c:1445-1627 | a cluster that is taken and freed at once is taken next if and only if it is the only free one |
| `Chains.UnlinkCounts` | ff.c:1470-1502 | on any table, cyclic and cross-linked included, the removal loop keeps a free count that is unknown or right |
| `Chains.RemoveCounts` | ff.c:1445-1531 | on any table remove_chain keeps an unknown or right free count if and only if the entry it marks as the new end is in use, or removal frees everything up to it |
| `Chains.MarkedFreeEntry` | ff.c:1461-1467 | a table of five entries on which remove_chain succeeds and leaves a wrong free count, because the end mark goes into a free entry |
| `ChainSet.ChainDistinct` | ff.c:1470-1502 | a chain that ends never returns to a cluster |
| `ChainSet.ChainUnique` | ff.c:1177-1248 | the table and the first cluster determine the chain |
| `ChainSet.ChainFrame` | ff.c:1255-1304 | a chain is not affected by entries outside it |
| `ChainSet.Stretched` | ff.c:1616-1619 | linking a free cluster behind the last one makes the chain longer by it |
| `ChainSet.CreateKeeps` | ff.c:1540-1633 | an allocation keeps all chains disjoint and well formed, for every argument and every hint |
| `ChainSet.UnlinkChain` | ff.c:1470-1502 | on a chain the removal loop frees exactly its clusters and counts them |
| `ChainSet.RemoveCuts` | ff.c:1445-1531 | where the clusters form a chain, removal cuts it at the predecessor and frees exactly the rest; what removal does on any other table is Volumes.Volume.RemoveChain and Chains.RemoveCounts |
| `ChainSet.RunKeeps` | ff.c:1445-1633 | every run of allocations and removals keeps the chains disjoint, the free clusters exactly the others, and the free count right |
| `FileSpace.SectorInjective` | ff.c:1160-1168 | different sectors of a file are different sectors of the disk |
| `FileSpace.RunIsExactly` | ff.c:4090-4095 | a run of sectors inside a cluster is the corresponding run of file sectors and no others |
| `FileSpace.WroteSplices` | ff.c:4054-4136 | bytes stored in place are bytes spliced into the contents |
| `FileSpace.DirectWrote` | ff.c:4090-4110 | a direct transfer of whole sectors writes exactly its bytes of the file |
| `FileSpace.BufferWrote` | ff.c:4126-4135 | a write through the sector buffer writes exactly its bytes of the file |
| `FileState.FlushCore` | ff.c:4082-4085 | writing the sector buffer back changes neither the contents nor the invariant |
| `FileState.GrowCore` | ff.c:4057-4078 | lengthening the chain by a free cluster keeps the invariant and the contents |
| `FileState.DirectCore` | ff.c:4090-4110 | a direct multi-sector write past the sector buffer keeps the invariant and splices its data into the contents |
| `FileState.BufferCore` | ff.c:4118-4135 | a partial-sector write through the buffer keeps the invariant and splices its data into the contents |
| `FileState.FollowOrStretch` | ff.c:4057-4078 | create_chain at a cluster boundary gives the next cluster of the chain, or a new one exactly if a cluster is free |
| `FileState.FullCapacity` | ff.c:4073-4073 | when no cluster is free the chain covers the whole capacity of the file |
| `FileState.RunIsContent` | ff.c:3975-3993 | the data of a run of sectors is the corresponding piece of the contents |
| `FileState.SeekCore` | ff.c:4555-4599 | setting the pointer anywhere the chain reaches keeps the invariant; the file grows if the pointer passes its end |
| `FileState.CutCore` | ff.c:4940-4954 | cutting the chain behind the pointer keeps the invariant and the contents before the pointer |
| `FileDisk.DiskFileUnique` | ff.c:3860-3881 | the device contents and the place of an entry determine the file |
| `FileDisk.CleanOnDisk` | ff.c:4202-4214 | a file with a clean buffer whose entry is up to date is on the logical disk |
| `FileDisk.OtherFileKept` | ff.c:3929-4968 | what a file operation changes leaves every other file on the disk, with an entry and clusters of its own, exactly what it was |
| `FileDisk.InfoWritten` | ff.c:1120-1131 | the information sector that sync_fs writes tells mounting the free count it was given |
| `FileDisk.BootKept` | ff.c:3929-4968 | no file operation touches the boot sector |
| `Files.ClippedLength` | ff.c:4049-4052 | the 32-bit wrap-around test clips a write so that the file stays below 4 GiB |
| `Files.File.WriteBack` | ff.c:4082-4085 | writing the sector buffer back leaves the contents as they are |
| `Files.File.FollowChain` | ff.c:4057-4078 | the next cluster of the file, stretched by a free one at the end; none exactly if the volume is full |
| `Files.File.WriteDirect` | ff.c:4087-4111 | whole sectors straight from the caller, with the sector buffer refilled if they went over it |
| `Files.File.LoadForWrite` | ff.c:4118-4124 | makes the buffer the current sector without reading it past the end of the file |
| `Files.File.WriteStep` | ff.c:4054-4136 | one turn writes a positive number of bytes at the pointer, or none exactly if the volume is full |
| `Files.File.Write` | ff.c:4029-4141 | takes as many bytes as fit below 4 GiB and in the room of the volume, overwrites and appends exactly these, and reports their number; errors change nothing; sectors, entries and table entries of others keep their contents |
| `Files.File.ReadDirect` | ff.c:3972-3994 | whole sectors straight to the caller, with the dirty sector laid over them |
| `Files.File.ReadStep` | ff.c:3951-4016 | one turn reads a positive number of bytes of the contents at the pointer |
| `Files.File.Read` | ff.c:3929-4019 | returns exactly the contents from the pointer up to the length or the end of the file, and changes only the pointer |
| `Files.File.SeekFollow` | ff.c:4554-4582 | follows or stretches the chain to the cluster of the target, clipped where the volume is full |
| `Files.File.Lseek` | ff.c:4448-4603 | the pointer goes to the target, clipped to the size in read mode and to the room in write mode; old bytes stay, the file grows if passed; sectors, entries and table entries of others keep their contents |
| `Files.File.CutAtPointer` | ff.c:4940-4954 | the clusters behind the pointer become free and the contents before it stay |
| `Files.File.Truncate` | ff.c:4927-4968 | the contents are cut at the pointer; errors change nothing; sectors, entries and table entries of others keep their contents |
| `Files.File.UpdateEntry` | ff.c:4202-4211 | the directory entry is brought up to date in the window; the contents stay |
| `Files.File.Sync` | ff.c:4150-4220 | afterwards the device alone holds the entry, the chain and the bytes of the file; sectors, entries and table entries of others keep their contents |
| `Files.File.Open` | ff.c:3839-3916 | an entry on the disk becomes a file object with exactly its contents; appending puts the pointer at the end |
| `Files.File.SeekEnd` | ff.c:3886-3910 | opening for appending puts the pointer at the end and its sector into the buffer |
| `Session.WriteInPieces` | ff.c:4029-4141 | splitting a write never changes the contents, the cursor or the bytes taken |
| `Session.WrittenIsRead` | ff.c:3929-4141 | what was written is read back as far as it was taken, and no other byte changed |
| `Session.RoomIsConstant` | ff.c:3929-4141 | over every run the size and the cursor stay within the room, and the room never changes |
| `Session.Do` | ff.c:3929-4968 | every operation on the file object is the same operation on a plain byte sequence with a cursor, with the same answer; outside the file nothing changes |
| `Session.Run` | ff.c:3929-4968 | every run of writes, reads, seeks, truncations and syncs is a run of the plain byte sequence with a cursor; outside the file nothing changes and the volume stays mountable |
| `Session.Reopen` | ff.c:3839-4220 | after a sync all memory may be lost: from the device, the start of the volume and the place of the entry alone, mounting by the boot sector and opening find the same bytes and the same room; the free count loaded from the information sector is the one that was recorded, or unknown |
| `Session.LeavesRecord` | ff.c:4150-4220 | after a sync the device alone holds an acceptable boot sector and an information sector whose free count is right or unknown |
| `Mounting.MountAt` | ff.c:3307-3604 | mounting reads the boot sector and the information sector from the device, changes nothing, and gives the volume they describe; without faults it fails exactly if the fields are refused; stated for boot sectors whose layout is in order on the device |
| `Mounting.MountedBoots` | ff.c:3529-3604 | a volume just mounted is described by the boot sector it was mounted from |
| `Mount.Accepted` | ff.c:3529-3604 | the fields of an accepted volume: its type by the limits of the cluster count, its root directory, its information sector, and where its areas begin and end |
| `Mount.OneBit` | ff.c:3324-3324 | the powers of two are the bytes with one bit, as the test with the number below finds them |
| `Mount.ChecksExactly` | ff.c:3315-3336 | which boot sectors pass as FAT volumes, in numbers and bits |
| `Mount.MountsExactly` | ff.c:3529-3577 | mounting accepts if and only if the fields are in range, a cluster fits, the root directory suits the type, and the table holds an entry for every cluster |
| `Mount.LayoutSound` | ff.c:3529-3604 | an accepted volume has FAT, root and data in order and inside its bounds if and only if its system areas add up below 2^32 sectors |
| `Mount.WrappedLayout` | ff.c:3551-3566 | a boot sector that is accepted although its sizes wrap around: the data area lies before the FAT |
| `Mount.ClustersApart` | ff.c:1160-1168 | different clusters have disjoint sectors, all in the data area |
| `Mount.SectorOfCluster` | ff.c:1160-1168 | the 32-bit arithmetic of clst2sect does not wrap on a sound volume |
| `Mount.InfoRoundTrip` | ff.c:1123-1130 | the free count and the hint that sync_fs writes are the ones that mounting reads back |
| `Mount.InfoSectorPlace` | ff.c:1122-1131 | the sector the information is written to lies outside the FAT if and only if there is more than one reserved sector |
| `Mount.InfoOverwritesFat` | ff.c:1122-1131 | with one reserved sector the write wipes entries of the FAT |
| `Mount.OneReservedAccepted` | ff.c:3529-3588 | a boot sector with one reserved sector is accepted as FAT32, with the information sector enabled and the FAT in its place |
| `Mount.OneReservedWiped` | ff.c:1120-1131 | on that volume the write of the information sector clears entries 2 to 120 of the FAT |
| `Mkfs.AutoUnit` | ff.c:6209-6222 | the cluster size is doubled once for each leading table entry not above the volume size |
| `Mkfs.SelectUnit` | ff.c:6209-6222 | the automatic cluster size by the size of the volume in sectors, from 2 MB and for FAT32 from 64 MB on |
| `Mkfs.EstimatesIs` | ff.c:6213-6226 | the type tried first and the sizes refused for FAT32, by the number of sectors |
| `Mkfs.TableExact` | ff.c:6213-6230 | the table is estimated for the clusters and two reserved entries exactly |
| `Mkfs.AttemptIs` | ff.c:6206-6249 | an attempt gives the table the least number of sectors that holds it, and the clusters all that fits behind it |
| `Mkfs.JudgeAccepts` | ff.c:6247-6274 | an attempt passes if and only if 16 clusters fit and their number suits the type |
| `Mkfs.JudgeAborts` | ff.c:6247-6274 | an attempt is the last, in vain, if and only if 16 clusters do not fit, or their number does not suit the type and the size of a cluster cannot be changed |
| `Mkfs.Choose` | ff.c:6204-6277 | the retry loop ends; a geometry it settles on is consistent, of an allowed type and of the cluster size asked for, or of the automatic one changed by a factor of two at most once; it gives up only if the last attempt fails |
| `Mkfs.RetryShape` | ff.c:6248-6277 | a retry either fixes a cluster size or moves on to FAT32, so the loop cannot cycle |
| `Mkfs.FewAfterDoubling` | ff.c:6256-6266 | a doubled automatic cluster size leaves at most 32768 clusters on every volume, so it is never doubled twice |
| `Mkfs.ManyAtLargest` | ff.c:6256-6270 | volumes with the largest automatic cluster size have too many clusters for FAT12 |
| `Mkfs.AcceptedConsistent` | ff.c:6206-6277 | a geometry that passes the checks has a table large enough for its clusters and a cluster count in the range of its type |
| `Mkfs.Small16` | ff.c:6218-6235 | on FAT12 and FAT16 all sizes fit their 16-bit fields |
| `Mkfs.Size12` | ff.c:6224-6230 | the rounded-up 12-bit table size is large enough, by parity of the cluster count |
| `Mkfs.Mountable` | ff.c:6204-6277 | every geometry settled on is accepted by check_fs and mount_volume with the same type, cluster count, FAT base and data base |
| `Mkfs.WriteBoot` | ff.c:6283-6317 | the boot sector written is read by mounting as exactly the fields of the geometry |
| `Mkfs.FillCopy` | ff.c:6343-6349 | the chunked loop fills one FAT copy with the reserved entries and zeros, whatever the buffer size |
| `Mkfs.FillTables` | ff.c:6332-6350 | every FAT copy is initialised and nothing else changes |
| `Mkfs.ClearRoot` | ff.c:6352-6358 | the root directory is cleared and nothing else changes |
| `Mkfs.WriteInfo` | ff.c:6319-6330 | the backup boot sector and both information sectors are written and nothing else; without its trailing signature mounting takes nothing from the record |
| `Mkfs.FillAreas` | ff.c:6332-6358 | all table copies and the root are initialised, inside the volume and behind the reserved sectors only |
| `Mkfs.NewEntry` | ff.c:6332-6350 | the entries of a new table: the media mark, end marks in the other reserved entry and the root directory, and zero elsewhere |
| `Mkfs.NewVolume` | ff.c:6332-6350 | the new FAT is well formed: its chains are disjoint and every other cluster is free |
| `Mkfs.FormattedMounts` | ff.c:6204-6358 | a formatted device mounts with the geometry chosen, over a well-formed FAT whose copies agree |
| `Mkfs.Format` | ff.c:6204-6358 | writing boot sector, its backup and the information sectors, tables and root leaves a device that mounts with the geometry settled on, over an empty root; sectors outside the volume stay |
| `LongNames.PutLfn` | ff.c:1977-2002 | writes part n of a name, padded and terminated, with the last-part flag exactly on the part that reaches the end; no byte outside the entry changes |
| `LongNames.LfnOrder` | ff.c:518-518 | the 13 characters of an entry stand in order and apart; with their range this fixes their places |
| `LongNames.PartBytes` | ff.c:1977-2002 | the other bytes of a stored part: the number, with bit 6 in the last part, the mark 0x0F, the checksum, and zeros |
| `LongNames.LongestName` | ff.c:1977-2002 | names of 1 to 255 characters can be stored, in the least number of entries, at most 20 |
| `LongNames.PartByBits` | ff.c:1917-1962 | the part number and the mark of the last part in the bits of the first byte |
| `LongNames.OrderByBits` | ff.c:2369-2371 | the order is the first byte without bit 6 |
| `LongNames.CmpChars` | ff.c:1917-1930 | the loop accepts exactly the entries whose characters agree up to case up to a terminator and are padding behind it |
| `LongNames.CmpLfn` | ff.c:1903-1935 | accepts exactly the entries that match their stretch of the name up to case, end included |
| `LongNames.PickChars` | ff.c:1952-1962 | the loop stores the characters up to the terminator and nothing behind them, exactly if they fit |
| `LongNames.PickLfn` | ff.c:1939-1969 | succeeds exactly on well-filled parts that fit the buffer, and stores that part and a terminator behind the last one, nothing else |
| `LongNames.PartMatchesIff` | ff.c:1903-1935 | a stored part matches exactly if its stretch of the two names agrees and, in the last part, they end together |
| `LongNames.StoredNameMatches` | ff.c:1903-1935 | a stored name is matched by exactly the names equal up to case; what stands behind the terminator in the buffer never matters |
| `LongNames.PickStep` | ff.c:1939-1969 | picking the parts from the last to the first brings the name into the buffer piece by piece |
| `LongNames.TailIsName` | ff.c:1939-1969 | once the first part is picked the buffer holds the whole name and its terminator |
| `LongNames.SumSfn` | ff.c:2071-2082 | the checksum of the eleven bytes: rotate and add in eight bits |
| `LongNames.SumInOrder` | ff.c:2071-2083 | the characters enter the sum in order, each after the sum so far was turned |
| `LongNames.Rotated` | ff.c:2078-2080 | in eight bits the shifts of the checksum are a rotation |
| `Directories.LfnTracked` | ff.c:2452-2463 | after a long-name entry the variables of a scan describe exactly the set of entries that ends there, if any |
| `Directories.LfnByBits` | ff.c:2448-2453 | an entry of a long name by the bits of its attributes |
| `Directories.SfnByBits` | ff.c:2448-2453 | an entry of a file or directory by the bits of its attributes |
| `Directories.ListedByBits` | ff.c:2363-2367 | which entries are listed, by the bits of their attributes |
| `Directories.TracksLong` | ff.c:2464-2468 | at a short name the test of order and checksum holds exactly if a complete set of entries belongs to it |
| `Directories.FindStep` | ff.c:2442-2474 | one turn stops exactly at an entry the name leads to, and otherwise keeps track of long-name sets |
| `Directories.StoredRun` | ff.c:2553-2561 | the entries stored for a name form a complete set, readable and good for a search for the same name |
| `Directories.ReadStep` | ff.c:2339-2391 | one turn stops exactly at an entry to be listed, and otherwise collects the parts of its long name |
| `Registration.Length` | ff.c:2499-2499 | the loop measures the long name |
| `Registration.FirstBlockReached` | ff.c:1837-1850 | in a table whose end marks are at the end the first free block leaves no end mark before it |
| `Registration.RegisteredIsFound` | ff.c:2405-2582 | a name not found before is found after registering, at the new short entry, if and only if the table had room for it, stretching included, with no end mark before |
| `Registration.NumberOrTaken` | ff.c:2533-2544 | either one of the 99 numbered names is the first one free, or all are taken |
| `Registration.ReachedIff` | ff.c:1824-1856 | whether an end mark stands before the first free block of the stretched table can be told from the table before the call |
| `Registration.StrayMark` | ff.c:2405-2582 | a table of four entries with an end mark before its only room for two: a long name registered there is not found |
| `Registration.FoundIfReached` | ff.c:2405-2582 | what was registered is found exactly if no end mark stands before its block |
| `Registration.EndedKept` | ff.c:2487-2582 | registering keeps the end marks at the end of the table |
| `Registration.DistinctKept` | ff.c:2533-2544 | registering keeps the short names different from each other |
| `Registration.OthersKept` | ff.c:2487-2582 | a name that led to another entry still leads there, unless the new entry lies before it and matches it too |
| `Registration.MatchKept` | ff.c:2405-2582 | outside the new block every entry is matched by the same names as before |
| `Registration.UsedKept` | ff.c:2487-2582 | entries that were in use are not touched |
| `Registration.Created` | ff.c:2405-2582 | a successful registration as a whole: well-formedness kept, the name found, the long name stored, entries in use untouched |
| `DirWalk.Dir.Sdi` | ff.c:1715-1755 | on any FAT contents it stands at the entry asked for exactly if the table has it |
| `DirWalk.Dir.FollowTo` | ff.c:1737-1752 | the loop along the chain ends in the cluster of the offset exactly if the chain gets that far |
| `DirWalk.Dir.Clear` | ff.c:1676-1705 | fills exactly the sectors of the cluster with zeros; after an error either nothing changed or the first sectors are cleared, and then the window agrees with the device if and only if the first sector was cleared or zero before |
| `DirWalk.Dir.NextCluster` | ff.c:1784-1806 | goes to the next cluster of the chain, or adds a cleared one behind the last if stretching is asked for |
| `DirWalk.Dir.Next` | ff.c:1763-1814 | on any FAT contents it goes from each entry to the next one of the same table and reports the end exactly where dir_sdi has no further entry; with stretching the table gets one more cleared cluster, or is refused exactly as the allocator answers; without faults a refusal changes nothing |
| `DirWalk.ChainGrows` | ff.c:1793-1797 | linking a free cluster to the end of a chain makes it longer by it and changes no earlier link |
| `DirWalk.Dir.TableStretched` | ff.c:1788-1806 | stretching keeps every entry of the table and adds a cluster of cleared ones |
| `DirWalk.Dir.Scan` | ff.c:1763-1814 | a scan without stretching ends within 65536 entries on any FAT contents, cyclic chains included, and has seen exactly the entries of the table in order; the stretching scan is DirTables.Alloc |
| `Mount.TinyMounts` | ff.c:3307-3604 | a device of four sectors, boot sector included, that mounts as a volume of one cluster |
| `DirWalk.TinySound` | ff.c:1676-1705 | on that volume, just mounted, dir_clear of the cluster may be called, and the cluster does not begin with zeros |
| `DirWalk.StaleWindow` | ff.c:1676-1705 | on the mounted volume of one cluster, whose cluster holds data, a failed write of dir_clear leaves a window that disagrees with the device |
| `DirTables.TableUnique` | ff.c:1715-1814 | there is exactly one sequence of entries that the offsets of a directory lead to |
| `DirTables.TableGrown` | ff.c:1788-1806 | stretching appends cleared entries to the table and changes no other entry |
| `DirTables.ShortIsLoopless` | ff.c:1715-1755 | a chain that ends before 65536 entries has no cluster twice |
| `DirTables.Find` | ff.c:2405-2480 | on any FAT contents, through the window: the first entry before the end mark that the name leads to, by its complete long name or by its short one; without faults it fails exactly if there is none, and the disk and the allocation information stay what they were; without broken links the failure is always the missing name |
| `DirTables.Read` | ff.c:2327-2395 | reports the next entry to list, with a long name exactly if a complete set belongs to it; a stored name is rebuilt exactly; an error or the end closes the scan |
| `DirTables.ReadStored` | ff.c:2327-2395 | reading from the start of a stored name reports its short entry next and rebuilds the name, for all lengths 1 to 255 |
| `DirTables.Extend` | ff.c:1763-1814 | the next entry of the table, in a new cleared cluster if the table ends; without faults a failure leaves the table as it was, and a denial means a fixed root, 65536 entries or no free cluster |
| `DirTables.Alloc` | ff.c:1824-1856 | finds the first n free entries in a row, stretching the table by cleared entries; without faults it fails only if there are none, and is denied only if the table cannot grow |
| `DirRegister.SlotsApart` | ff.c:1715-1755 | in a table without loops different entries lie in different places |
| `DirRegister.EntryStored` | ff.c:2553-2576 | storing an entry in its sector changes exactly the entries of the table that lie in its place, and no FAT entry |
| `DirRegister.OnlyOneChanges` | ff.c:2553-2576 | an entry that is changed is the only one of the table to change if and only if no other entry lies in its place |
| `DirRegister.LoopedPlaces` | ff.c:1715-1755 | a directory in the only cluster of a mounted volume, linked to itself: entries 0 and 16 of its table lie in one place |
| `DirRegister.LoopedStore` | ff.c:2553-2576 | storing entry 0 of that directory changes entry 16 as well |
| `DirRegister.PutParts` | ff.c:2548-2561 | stores all parts of the name through the window, the last part first; in a table without loops no other entry changes |
| `DirRegister.PutName` | ff.c:2569-2579 | clears the entry and stores the short name and its flags; in a table without loops no other entry changes |
| `DirRegister.NumberedName` | ff.c:2533-2544 | the first of the 99 numbered names that no entry has, whatever function makes them; it is denied only if all are taken |
| `DirRegister.Register` | ff.c:2487-2582 | on success the short name stands at the end of the first free block of the right size of the stretched table; in a table without loops the long name stands before it and no other entry changed; without faults every failure has its cause and writes nothing to the table |
| `DirRegister.Create` | ff.c:3769-3780 | looking for a name and registering it if absent leads to an entry that, in a table without loops, a search finds first if and only if the table had room with no end mark before it; a tidy table always has, and stays tidy; without faults and broken links the only failures are a bad name and a denial with its cause |
| `NamedFiles.LeadsKept` | ff.c:2405-4968 | whatever is done with a file, its name still leads to its entry, in a directory whose clusters are not at its disposal |
| `NamedFiles.ResetEntry` | ff.c:3806-3814 | resets the entry under the window to that of an empty file, keeps its name and changes no other entry |
| `NamedFiles.CreateFile` | ff.c:3769-3886 | creating a new file in a well-kept directory of a volume in order gives an empty file that the name leads to; the failures are an existing name, a bad name and a denial with its cause |
| `NamedFiles.OpenByName` | ff.c:2405-4220 | after a sync all memory may be lost: from the device, the start of the volume, the first cluster of the directory and the name, mounting, finding and opening give the same bytes and the same room |
| `FreshVolume.RootTable` | ff.c:6332-6358 | the root of a formatted volume is a table of clear entries, as many as its sectors hold |
| `FreshVolume.FirstFile` | ff.c:3307-6358 | formatting, mounting and creating give an empty file whenever a geometry is found and the root has room for a proper name |
| `FreshVolume.StoreAndRecall` | ff.c:2405-6358 | from any device without faults: format, mount, create, do anything that ends with a sync, forget everything, open by name; what is found is what the plain byte sequence came to |
| `DirWalk.SectorZero` | ff.c:1160-1168 | clst2sect gives 0 for exactly the numbers that are no clusters |
| `BitReversal.BitReverse16Reverses` | stb_image.h:4107-4114 | the four exchanges of masked halves reverse the sixteen lowest bits |
| `BitReversal.BitReverseReverses` | stb_image.h:4116-4122 | reversing sixteen bits and shifting reverses fewer |
| `HuffmanCodes.FitsIffKraft` | stb_image.h:4138-4150 | the codes of each length fit exactly if the Kraft sum is at most one |
| `HuffmanCodes.CanonicalOrder` | stb_image.h:4138-4167 | codes ascend with the symbol within a length, and a longer code comes after every shorter one and its extensions |
| `HuffmanCodes.PrefixFree` | stb_image.h:4138-4167 | no bit stream starts with the codes of two symbols |
| `HuffmanCodes.FoundByOffset` | stb_image.h:4224-4241 | between the ends of two lengths the symbol of the longer length is found by subtraction |
| `HuffmanCodes.Tiled` | stb_image.h:4224-4241 | up to the end of a length some code of at most that length is found |
| `HuffmanCodes.NoneUpTo` | stb_image.h:4224-4241 | past the end of a length no code of at most that length is found |
| `Huffman.CountSizes` | stb_image.h:4130-4134 | counts the code lengths |
| `Huffman.CheckSizes` | stb_image.h:4135-4137 | accepts exactly the counts that fit their length one by one; what it refuses has no code |
| `Huffman.Huffman.FirstCodes` | stb_image.h:4138-4150 | computes first code, first symbol and end of each length, and fails exactly if the codes do not fit |
| `Huffman.Huffman.FillFast` | stb_image.h:4158-4164 | spreads a short code over exactly the table places that start with it |
| `Huffman.Huffman.EnterSymbol` | stb_image.h:4151-4167 | enters a symbol at its rank and, if short, in the fast table |
| `Huffman.Huffman.Build` | stb_image.h:4124-4169 | accepts exactly the length lists whose Kraft sum is at most one, and then the tables decode their canonical code |
| `Huffman.Huffman.SlowPath` | stb_image.h:4224-4241 | for codes of more than nine bits returns the symbol whose codeword comes first, -1 if none does |
| `Huffman.Huffman.Lookup` | stb_image.h:4243-4271 | for every 16-bit lookahead returns symbol i and its length exactly if the lookahead starts with the codeword of i, and -1 otherwise |
| `Inflate.ZBuf.Get8` | stb_image.h:4192-4200 | the next input byte, 0 past the end |
| `Inflate.ZBuf.FillBits` | stb_image.h:4202-4212 | more than 24 bits of the stream in the buffer, zeros past the end of the input |
| `Inflate.ZBuf.Receive` | stb_image.h:4214-4222 | the next n bits of the stream as a number |
| `Inflate.ZBuf.Decode` | stb_image.h:4243-4271 | the symbol whose codeword stands next in the stream, with padding tolerated once at the end of the input |
| `Inflate.ZBuf.Expand` | stb_image.h:4273-4293 | succeeds if and only if the buffer may grow and the workspace has the doubled length, rounded to four; then the buffer has that length and the bytes it had |
| `Inflate.ZBuf.Moved` | stb_image.h:4286-4291 | the bytes of the buffer stand at the start of the longer one |
| `Workspace.GrowsExactly` | stb_image.h:4273-4293 | the buffer grows if and only if what is left of the workspace of four megabytes has the new length |
| `Workspace.DoubledIs` | stb_image.h:4281-4285 | the new length is the first enough among the doubled ones |
| `Inflate.ZBuf.CopyRun` | stb_image.h:4348-4351 | a distance of one repeats the last byte |
| `Inflate.ZBuf.CopyLoop` | stb_image.h:4352-4354 | the byte-by-byte copy is the overlapping copy of the format |
| `Inflate.ZBuf.PutMatch` | stb_image.h:4343-4354 | a match adds exactly the bytes it stands for |
| `Inflate.ZBuf.HuffmanStep` | stb_image.h:4312-4356 | one turn expands the item that stands next in the stream, or ends the block at its end mark |
| `Deflate.LengthExtras` | stb_image.h:4300-4301 | the extra bits of every length symbol, by number |
| `Deflate.DistExtras` | stb_image.h:4305-4306 | the extra bits of every distance symbol, by number |
| `Deflate.LengthsTile` | stb_image.h:4295-4301 | every length symbol starts where the one before it ends, from 3 to 258 |
| `Deflate.DistancesTile` | stb_image.h:4303-4306 | every distance symbol starts where the one before it ends, from 1 to 32768 |
| `Deflate.EveryLength` | stb_image.h:4295-4301 | every length from 3 to 258 has a symbol with extra bits |
| `Deflate.OneLengthSymbol` | stb_image.h:4295-4301 | no length has two symbols, except 258, which has exactly two |
| `Deflate.EveryDistance` | stb_image.h:4303-4306 | every distance from 1 to 32768 has a symbol with extra bits |
| `Deflate.OneDistanceSymbol` | stb_image.h:4303-4306 | no distance has two symbols |
| `Deflate.CopiedByte` | stb_image.h:4348-4354 | every byte of a copied match is the one its distance before it, overlapping copies included |
| `Deflate.MatchRange` | stb_image.h:4333-4342 | a match has a length from 3 to 258 and a distance from 1 to 32768 |
| `Inflate.TakenAll` | stb_image.h:4305-4357 | items taken one by one up to the end symbol are the items of a block that was read, and playing them gives the output |
| `Inflate.ZBuf.ParseHuffmanBlock` | stb_image.h:4309-4357 | the items and the end of their block are played exactly; success means that such items and the end were read |
| `Inflate.ZBuf.ReadStoredHeader` | stb_image.h:4413-4428 | the padding is skipped and the two length words are read, out of the bit buffer first |
| `Inflate.ZBuf.StoredLengths` | stb_image.h:4413-4428 | reads the lengths of the stored block that comes next; past the end of the input they never agree |
| `Inflate.ZBuf.CopyInput` | stb_image.h:4429-4435 | the stored bytes are copied from the input to the output |
| `Inflate.ZBuf.ParseUncompressedBlock` | stb_image.h:4409-4436 | a stored block in the stream is copied exactly; mismatching lengths and missing input are refused |
| `DynamicHeader.ReadClSizes` | stb_image.h:4372-4376 | the three-bit lengths land at the places the permutation gives |
| `Deflate.RunAdds` | stb_image.h:4383-4401 | what each kind of run adds to the code lengths, and how many |
| `Deflate.OrderSwings` | stb_image.h:4361-4361 | the order of the code length code: 16, 17, 18, 0, 8, and then swinging around 8 |
| `Deflate.OrderCovers` | stb_image.h:4361-4361 | every symbol of the code length code has its place in the order |
| `DynamicHeader.ReadRun` | stb_image.h:4383-4401 | a repetition code stands for its run of lengths; one with nothing to repeat is refused |
| `DynamicHeader.ReadRuns` | stb_image.h:4379-4403 | the loop decodes exactly the list of code lengths that the stream encodes |
| `DynamicHeader.HeaderIs` | stb_image.h:4360-4406 | a header that was read, and whose lengths give codes, is a header of the format that stands in the stream |
| `DynamicHeader.ComputeCodes` | stb_image.h:4359-4407 | the two tables decode the codes of the lengths that the header of the block describes |
| `Zlib.FixedKraft` | stb_image.h:4452-4467 | the fixed codes are complete: their Kraft sum is exactly one |
| `Deflate.FixedLengths` | stb_image.h:4452-4477 | the code lengths of fixed blocks by symbol |
| `Zlib.HeaderByBits` | stb_image.h:4437-4450 | which headers pass, by their bits |
| `Zlib.FixedTables` | stb_image.h:4497-4500 | the tables of a fixed block decode the fixed codes |
| `Zlib.ParseBlock` | stb_image.h:4490-4505 | a stored, fixed or dynamic block in the stream adds exactly its expansion to the output, and success means that such a block was read |
| `Zlib.GotHolds` | stb_image.h:4481-4508 | blocks that were read one after the other up to a final one are blocks that the input, followed by zeros, holds |
| `Zlib.ParseBlocks` | stb_image.h:4489-4507 | the loop over the blocks: their expansion, if and only if the workspace has room for them one after the other |
| `Workspace.BlocksGrew` | stb_image.h:4273-4295 | blocks find no room only if they exceed the buffer and it cannot grow, or eight times their size exceeds what is left of the workspace |
| `Zlib.ParseHeader` | stb_image.h:4438-4450 | accepts exactly the stream headers with a valid check, no preset dictionary and method 8 |
| `Zlib.ParseZlib` | stb_image.h:4481-4508 | terminates on every input; if the input holds a list of blocks the output is exactly their expansion if and only if the workspace has room for them, buffer by buffer, and otherwise eight times their size exceeds what was left of it; and whenever it succeeds, the input followed by the zero bytes that were read past its end holds a list of blocks with exactly this expansion |
| `Png.PaethEquivalent` | stb_image.h:4657-4668 | the predictor with two comparisons is the predictor of the PNG specification for all integers |
| `Png.PredictByNumber` | stb_image.h:4754-4773 | filters 0 to 3 by number: nothing, left, above, and half the sum of both rounded down |
| `Png.PredictNearest` | stb_image.h:4774-4779 | filter 4 predicts the neighbour nearest to left plus above minus corner, and which one on a tie |
| `Png.RebuiltInverts` | stb_image.h:4737-4787 | rebuilding undoes filtering for every filter, row, prior row and byte stride |
| `Png.FirstRow` | stb_image.h:4648-4655 | for the first row the substituted filter is the filter above a row of zeros, whatever the buffer holds |
| `Png.RowNone` | stb_image.h:4756-4758 | the row is copied |
| `Png.RowSub` | stb_image.h:4759-4763 | each byte adds the one a pixel to the left |
| `Png.RowUp` | stb_image.h:4764-4767 | each byte adds the one above |
| `Png.RowAvg` | stb_image.h:4768-4773 | each byte adds the average of left and above |
| `Png.RowPaeth` | stb_image.h:4774-4779 | each byte adds the Paeth prediction |
| `Png.RowAvgFirst` | stb_image.h:4780-4784 | each byte of a first row adds half the byte to the left |
| `Png.UnfilterRow` | stb_image.h:4754-4785 | the switch rebuilds the row its filter type asks for |
| `Png.ReconstructRow` | stb_image.h:4737-4787 | one turn rebuilds one row from its line and the row in the other half of the buffer |
| `Png.CreateImage` | stb_image.h:4696-4787 | the row loop succeeds exactly if the data is complete and the filter types are valid, and then gives the rebuilt image |
| `Png.RowsFound` | stb_image.h:4737-4787 | every row of a filtered image is found again |
| `Png.ImageFound` | stb_image.h:4696-4787 | decoding a filtered image gives the image back, for every image, stride and choice of filters |
| `Adam7.PassSizeCounts` | stb_image.h:4874-4881 | the unsigned pass sizes count the positions inside the image, even if it is smaller than the origin of the pass |
| `Adam7.OnePass` | stb_image.h:4873-4877 | every pixel belongs to exactly one pass, the one the standard gives |
| `Adam7.Target` | stb_image.h:4888-4894 | a pixel of a pass goes to a place inside the image, in its pass, that leads back to it |
| `Adam7.TargetOf` | stb_image.h:4888-4894 | every pixel of a pass is the target of its place in the pass |
| `Adam7.ScatterPass` | stb_image.h:4882-4896 | the loops of a pass write exactly its pixels |
| `Adam7.Deinterlace` | stb_image.h:4861-4904 | the seven passes write each pixel of the image exactly once, from the right place of the right pass; reading the passes from the data is Interlaced.DecodeInterlaced |
| `Interlaced.ReadPass` | stb_image.h:4882-4887 | a pass is accepted exactly if its data is there and its filter types are valid, gives its rebuilt pixels, and the next pass starts behind it |
| `Interlaced.DecodeInterlaced` | stb_image.h:4861-4904 | accepted exactly if every pass is; then every pixel of the image is the rebuilt pixel of its pass |
| `Interlaced.InterlacedFound` | stb_image.h:4861-4904 | an image that was interlaced and filtered, with any choice of filters, is found again pixel by pixel |
| `Heap.Align` | mm.c:34-34 | rounds up to a multiple of eight in 32 bits: the sizes above 0xFFFFFFF8 wrap to 0 |
| `Heap.AlignCovers` | mm.c:6-34 | the rounding covers the size if and only if the size is at most 0xFFFFFFF8 |
| `Heap.EmptyHeapFits` | mm.c:20-63 | the empty heap has room for exactly the sizes up to 4194292 bytes |
| `Heap.PayloadsApart` | mm.c:31-63 | payloads of different blocks are disjoint and inside the heap |
| `Heap.AllFreed` | mm.c:65-83 | with nothing in use the list is the initial block again |
| `Heap.FirstFit` | mm.c:37-39 | the first free block that is large enough |
| `Heap.TakenKeeps` | mm.c:41-53 | taking a block keeps the tiling and adds just the new block to those in use |
| `Heap.CoalescedKeeps` | mm.c:72-82 | coalescing leaves no free neighbours, keeps the tiling and does not touch blocks in use |
| `Heap.ReleasedKeeps` | mm.c:65-83 | freeing takes just that block out of those in use |
| `Heap.Conservation` | mm.c:91-110 | used bytes and free payload always make up the whole heap |
| `Heap.RunKeeps` | mm.c:21-83 | after any run of allocations and releases the blocks tile the heap and no two free blocks are neighbours |
| `Heap.EmptyBlock` | mm.c:31-63 | a request for 0xFFFFFFF9 bytes from the empty heap is met with an empty block |
| `Heap.KernelHeap.Init` | mm.c:21-29 | one free block fills the heap |
| `Heap.KernelHeap.Malloc` | mm.c:31-63 | returns the payload of the first block that fits, split exactly if a header and eight bytes remain; NULL where no block fits; the block holds the size asked for if and only if the rounding did not wrap |
| `Heap.KernelHeap.Coalesce` | mm.c:72-82 | the loop over the headers computes the coalesced list |
| `Heap.KernelHeap.Free` | mm.c:65-83 | marks the block and coalesces the list; NULL is ignored |
| `Heap.KernelHeap.UsedMemory` | mm.c:91-110 | with the free payload it makes up the whole heap |
| `Heap.TakenLinked` | mm.c:41-53 | the headers written by a split spell out the list with the block taken |
| `Keyboard.HeadAndTail` | idt.c:8-25 | head and tail meet exactly when nothing waits, and head is right before tail exactly when 31 characters wait |
| `Keyboard.OrderKept` | idt.c:12-25 | over every run, what was returned and what waits is what was accepted, in that order, at most 31 waiting |
| `Keyboard.AcceptedExactly` | idt.c:12-18 | exactly the keys that came while fewer than 31 waited were accepted |
| `Keyboard.FewKeys` | idt.c:12-18 | with fewer keys than places every key is accepted |
| `Keyboard.KeyJoins` | idt.c:12-18 | a key is accepted if and only if it is not 0 and fewer than 31 characters wait |
| `Keyboard.EmptyPop` | idt.c:20-21 | a pop with nothing waiting returns 0 at once and changes nothing else |
| `Keyboard.ResultsMean` | idt.c:20-25 | every 0 that was returned came from a test made with nothing waiting, and every other result was the oldest character |
| `Keyboard.PopDelivers` | idt.c:20-25 | whatever keys come in between, the three steps of a pop deliver the oldest character and leave the others in place |
| `Keyboard.Ring.Push` | idt.c:12-18 | the character is appended, or dropped exactly if 31 wait, at any point between the steps of a pop: one step of the queue |
| `Keyboard.Ring.Pop` | idt.c:20-25 | the test, the fetch or the advance: one step of the queue, with the result that the queue returns |
| `Keyboard.Ring.Run` | idt.c:8-25 | every interleaving of interrupts with the steps of pop is the same run of the queue, and what was accepted grew by exactly the keys that found fewer than 31 waiting |
| `Text.Strtol` | kernel.c:1195-1200 | the number at a position and the position behind it |
| `Text.NumberOfDecimal` | kernel.c:1189-1360 | a printed number is read back, unless a digit follows |
| `Text.Digits` | kernel.c:1334-1343 | the digit loop produces the decimal digits, lowest first |
| `Text.DigitNames` | kernel.c:1334-1343 | the ten digits |
| `Text.SignedValue` | kernel.c:1318-1346 | a printed number is a minus sign exactly if negative, then the digits of its size without a leading zero |
| `Text.DecimalLength` | kernel.c:1334-1343 | numbers of 31 bits have at most ten digits |
| `Text.PutNumber` | kernel.c:1318-1346 | the branch for a number prints sign and decimal digits as far as there is room |
| `Text.Snprintf` | kernel.c:1297-1360 | prints as much of the rendered text as fits, and a terminator |
| `Theme.RenderedFile` | kernel.c:191-207 | what is printed for a theme is the text of its five lines |
| `Theme.FileFits` | kernel.c:191-264 | the text always fits the 256-byte buffers, terminator included |
| `Theme.ReadPart` | kernel.c:216-233 | at most the first 255 characters of the file are read |
| `Theme.RoundTrip` | kernel.c:191-264 | reading the saved text restores all sixteen saved values for every choice of 31-bit values, and only those |
| `Theme.ThemeStore.Save` | kernel.c:191-214 | writes the text of the theme |
| `Theme.ThemeStore.LoadKey` | kernel.c:235-256 | a line changes exactly the values of its key |
| `Theme.ThemeStore.Load` | kernel.c:216-264 | starts from the defaults and reads the lines of the file over them; without a file the defaults stay |
| `Theme.ThemeStore.SaveAndLoad` | kernel.c:191-264 | saving and loading into any state brings all saved values back and leaves the corner setting alone |

## Left out

- exFAT, GPT, file locking, fast seek, tiny mode and re-entrancy, which the configuration switches off.
- f_unlink, f_rename, f_mkdir, f_opendir, f_stat, dir_remove and path parsing (create_name, follow_path): the long-name
  and chain results they rest on are here, the operations themselves would add easy members.
- gen_numname: numbered short names come from an arbitrary function of the number; what is proved holds for any such function.
- The partition table that f_mkfs also writes.
- Data-area alignment other than 1 in f_mkfs; the block device reports 1.
- The inflate checksum at the end of a stream, which the decoder does not read either.
- PNG chunk parsing, bit depths below 8 and 16, palettes, alpha insertion and colour conversion.
- JPEG and the other formats of the image decoder, drawing, windows, the interrupt controller and the disk driver.
- Timestamps: the time stored by f_sync is a parameter.
- Mkfs.WriteBoot: the fields of the boot sector that this code never reads (media byte, disk geometry, serial number, labels) are
  written by the model but not part of the contract.
- Session.Run: assumes a device without faults and one open file at a time; other files are covered by what stays
  unchanged. Faults are covered in Volume but not for whole sessions: the failure paths of the file operations are not part
  of the model.
- Files.File.Open: takes the entry that the window stands on; finding it is DirTables.Find and DirRegister.Create. The
  attribute tests of f_open, overwriting an existing file, and opening an existing file while the window is dirty or an
  allocation is still to be recorded in the information sector are not part of the contract.
- NamedFiles.CreateFile: the mode FA_CREATE_NEW; an existing name is reported instead of an error code of its own.
- Mounting.MountAt: excludes accepted boot sectors whose areas wrap around or reach beyond the device, and one reserved sector
  together with an information sector; what mounting makes of those is Mount.WrappedLayout and Mount.OneReservedWiped.
- FreshVolume.StoreAndRecall: assumes a device without faults.
- Files.File.Lseek: bytes of a part of the file that a seek beyond the end adds are not determined, as in the code.
- Zlib.ParseZlib: streams cut short are accepted by the code if zero bits complete them; the contract says so and does not
  say which streams those are.
- Png.CreateImage: samples of one byte, without the alpha channel that the decoder can insert; the refusals for sizes that
  overflow and for a workspace that is used up are not part of the condition.
- Interlaced.ReadPass: as Png.CreateImage, the refusals for size and workspace are not part of the condition.
- Interlaced.DecodeInterlaced: as Png.CreateImage, the refusals for size and workspace are not part of the condition.
- DirTables.Read: models the listing of files, not the search for a volume label, which the configuration switches off.
- DirTables.Alloc: after a device fault nothing is promised of the table; the state that dir_clear leaves is in DirWalk.Dir.Clear.
- DirRegister.Register: after a device fault part of the name may be stored; the contract then promises nothing of the table.
- DirRegister.Create: the find-then-register part of f_open; for a chain with a loop only the new entry itself is stated.
- ChainSet.RemoveCuts: for clusters that form a chain; any other table is covered by Volumes.Volume.RemoveChain.
- DirWalk.Dir.Next: after an error the position is unspecified, as in the code.
- Heap.KernelHeap.Free: is given the block that the pointer belongs to; freeing a pointer that kmalloc did not return, or
  freeing twice, is outside the contract.
- Heap.KernelHeap.Malloc: returns NULL where the kernel stops.
- Text.Strtol: the result is unbounded. The source accumulates in a signed 32-bit long, whose overflow from 2^31 on the
  language leaves undefined, so nothing is claimed for the source there.
- Text.PutNumber: the most negative integer, whose negation overflows, and unsigned values from 2^31 on are excluded.
- Text.Snprintf: the formats `%d`, `%u` and `%s`, with the range of Text.PutNumber and without null strings.
- Theme.ThemeStore.Save: assumes the values are non-negative and below 2^31; negative ones are printed by the source with a
  sign that loading does not read back. Opening the file is not part of the model.
- Theme.ThemeStore.Load: for numbers in the file below 2^31, as Text.Strtol.
