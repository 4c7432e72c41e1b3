# fat-forensic: a model of the FAT/exFAT reader and auditor

This project models the read-only FAT12/16/32 and exFAT reader (`core/src`) and the anomaly
auditor (`forensic/src/lib.rs`) in Dafny, and proves what they promise about any image, however
damaged or hostile. `dafny verify dfyconfig.toml` checks all of it.

An image is an immutable byte sequence behind a seekable reader that may split any read into
smaller ones, as few as one byte at a time. Everything above it is stated over that sequence.

| Module | What it holds |
|---|---|
| `Fat`, `Links` | FAT entries, markers, chain following; maximal walks, cycles, packed tables and the chains written in them |
| `Boot`, `BootProofs` | boot sectors, geometry, volume layout, cluster count, markers against cluster numbers |
| `Image` | the reader: partial reads, filling, short reads at the end of the image |
| `Dirent`, `DirentProofs`, `ShortRecords` | short records, VFAT long names, the one-pass directory parser |
| `Exfat`, `ExfatProofs` | exFAT boot sector, boot checksum, directory entry sets |
| `Volume`, `Fs`, `FileMap`, `FsProofs` | an opened volume: extents, flat content, runs, `read_at`, `read_dir`, `lookup` |
| `Handles`, `Rereading`, `Vfs` | re-reading a node through its handle, and which directories are re-read as listed; VFS addresses and inode numbers |
| `Walk`, `Audit` | the depth-capped directory walk, mirror and checksum comparison, the whole audit |
| `EndToEnd` | a file laid out in a directory is found by name and read back |
| `Described`, `Reported` | whole images byte by byte: what is read through their root, and what the audit reports of them |
| `Checksum`, `Text`, `Time` | rotate-and-add sums, UTF-16/UTF-8 names, packed timestamps and the calendar |

Where the source loops or changes state the model is a method with a loop or a class; each such
method is proved equal to, or a witness of, a specification in `Volume`, `FileMap`, `Dirent`,
`Exfat`, `Walk` or `Audit`, and the laws are lemmas about that specification. `EndToEnd` joins the
layers: `Fs.FatFs.LookupOf`, `DataExtentOf` and `ReadAt` return exactly the values it speaks of.

## Where the code and its comments differ

The code is followed; each difference is shown on an input, with the exact condition under which
the comment holds.

- The comment on `follow_chain` says it stops at an out-of-range next cluster. The code returns
  that cluster and stops one step later (`Fat.OutOfTableIsReturned`); chains stay inside the table
  exactly when the table is closed (`Fat.ChainsStayInTableIffClosed`).
- The comment on `FileId` says an entry can always be re-read through its handle. The parent is
  re-read by FAT chain. `Rereading.AlwaysRereadsIff` says exactly which directories are re-read as
  listed, `Rereading.ExfatHandleResolves` what becomes of each entry where they are not. In a
  contiguous exFAT directory that the FAT does not link, a file past the first cluster is found by
  lookup under a handle that is an error (`EndToEnd.FoundButLost`), and a set that straddles its end
  resolves to a different node (`EndToEnd.UnlinkedHandles`, `Rereading.CutSetIsEmpty`). A directory
  at cluster 0xFFFFFFFF is taken for the fixed root (`Rereading.MarkerDirectoryIsMisresolved`). And
  the 16-bit slot index saturates, so in a re-read directory a handle is stable exactly under the
  conditions of `Handles.HandleIsStableIff` and `Handles.AllStableIff`.
- The comment on `extent_of` takes a size of 0 to be a FAT directory. A file of size 0 that still
  has a cluster is read as its whole chain (`FsProofs.SizelessIsNotEmpty`); the length is the size
  exactly when the size is positive or the first cluster is below 2 (`FsProofs.LengthIsSizeIff`).
- `runs` answers with the root region for any node with a size and no chain, which `read_at` never
  returns (`FsProofs.RunsMatchReadsIff`).
- The comment on `decode` says out-of-range fields are clamped. The seconds field is not
  (`Time.SecondsAreNotClamped`), and a day is clamped to 31 in every month
  (`Time.DecodeOrderBreaksOffCalendar`), so decoding does not keep the order of timestamps. A pair
  keeps its place among the real ones exactly when all its fields are real or it lies past the last
  representable minute (`Time.OrderIsKeptIff`).
- `follow_chain` cannot tell cluster numbers from markers on a FAT32 or exFAT volume of 0x0FFFFFF6
  clusters or more (`BootProofs.MarkersAreNotClusters`), and keeps only 28 bits of a stored number
  (`Fat.WideRoundTrip`).
- The audit bounds revisits, but the root's own cluster is not among those seen. A root that is
  reached again is reported twice (`Walk.RootReportedTwice`), exactly when an entry reachable from it
  leads back to it (`Audit.RootIsListedTwiceIff`).
- A directory first met at the depth cap of the audit walk is marked as seen without being listed,
  so a later, shallower entry for it is skipped (`Walk.MetAtCapIsSkipped`); on the listing of
  `Walk.NextToStartUnreported` a directory next to the start goes unreported. A walk that meets the
  cap followed 64 nested directories (`Walk.CapMeansDeepPath`).

## Model

| member | source | states |
|---|---|---|
| Fat.WideRoundTrip | core/src/fat.rs:22-32 | every 16-bit entry of a table decodes to itself, every 32-bit entry to its low 28 bits, everything past the end to 0 |
| Fat.Fat12RoundTrip | core/src/fat.rs:12-21 | every 12-bit entry of a packed table decodes to itself, everything past the end to 0 |
| Fat.SetFat12Frame | core/src/fat.rs:12-21 | storing one 12-bit entry changes the decoding of that entry and of no other cluster number |
| Fat.FollowChain | core/src/fat.rs:58-73 | the loop returns the chain, for every table, start and cap |
| Links.LinkedClustersAreFollowed | core/src/fat.rs:36-73 | clusters from 2 to below 0xFF7, 0xFFF7 or 0x0FFFFFF7, each entry of the packed table the next cluster and the last one 0, 1, the bad marker or any end marker, are followed from the first to the last |
| Fat.ChainIsTheMaximalWalk | core/src/fat.rs:58-73 | a sequence is the chain iff it is a walk along stored pointers from the start that ends only at a terminator or at the cap |
| Fat.TerminatedWalkIsReturnedWhole | core/src/fat.rs:54-73 | a walk inside 2..=count+1 that reaches a terminator repeats no cluster and is returned whole under the cap count+2 |
| Fat.FullCapProvesCycle | core/src/fat.rs:54-73 | more than count in-range clusters prove that a cluster repeats and that the walk fills any cap |
| Fat.OutOfTableOnlyLast | core/src/fat.rs:61-71 | only the last cluster of a chain can lie outside the table |
| Fat.OutOfTableIsReturned | core/src/fat.rs:54-71 | a concrete table on which an out-of-range next cluster is returned |
| Fat.ChainsStayInTableIffClosed | core/src/fat.rs:54-73 | all chains started inside the table stay inside it iff every stored pointer is a terminator or leads inside |
| Fat.SameChainsIff | core/src/fat.rs:58-73 | two tables give the same chain for every start and cap iff at every cluster from 2 on they store the same entry or both end the walk |
| Boot.AcceptedIsLaidOut | core/src/boot.rs:78-136 | an accepted boot sector lays out reserved sectors, FATs, root region and data in order, ends its clusters inside the volume, and overflows no integer |
| Boot.ClusterInsideData | core/src/boot.rs:139-145 | clusters 2..=count+1 lie between the start of the data region and the end of the volume |
| Boot.ClustersDisjoint | core/src/boot.rs:139-145 | different clusters occupy disjoint byte ranges |
| BootProofs.FieldsRoundTrip | core/src/boot.rs:149-216 | any parameter block in range, written as a boot sector, reads back field by field |
| BootProofs.BootRoundTrip | core/src/boot.rs:78-136 | a written boot sector is accepted iff its metadata sectors fit the volume, and then gives the volume its fields lay out: FAT12 below 4085 clusters, FAT16 below 65525, else FAT32, with every region at its computed sector |
| BootProofs.AcceptedIff | core/src/boot.rs:78-216 | any boot sector is accepted iff it is signed, the fields at their offsets are ones a parameter block may hold, and the metadata fits |
| BootProofs.ExfatAcceptedIff | core/src/exfat.rs:135-203 | any boot sector is accepted as exFAT iff it bears the name, is signed, and the fields at their offsets are in range |
| BootProofs.CountIsMaximal | core/src/boot.rs:94-96 | one more cluster than counted would pass the end of the volume |
| BootProofs.MarkersAreNotClusters | core/src/boot.rs:97-103 | no cluster number of an accepted FAT12/16 volume is a FAT marker; on FAT32 and exFAT too, iff the count stays below the bad-cluster marker |
| BootProofs.ExfatBootRoundTrip | core/src/exfat.rs:135-203 | a written exFAT boot sector is accepted iff its fields are in range, and then describes the geometry it was written from |
| Exfat.AcceptedFits | core/src/exfat.rs:149-202 | an accepted exFAT boot sector has its root inside the heap, a cluster size of at most 32 MiB, and no overflow |
| Image.Reader.ReadFill | core/src/fs.rs:501-513 | however reads are split, the buffer range receives exactly the image bytes there, cut at the end of the image, and nothing else changes |
| Image.Reader.ReadUpto | core/src/fs.rs:489-497 | a region read returns the image window, short only at the end of the image |
| Image.Reader.ReadExact | core/src/fs.rs:479-486 | an exact read fails iff the image ends first |
| Fs.FatFs.Open | core/src/fs.rs:96-120 | opening gives the volume the image determines, with bounds every later computation relies on, or the rejecting check's error |
| Fs.FatFs.ClustersOf | core/src/fs.rs:337-357 | resolves a cluster list, sequential or by chain, never a cluster below 2, never more than the cap |
| Fs.FatFs.ReadDirBytes | core/src/fs.rs:360-384 | the directory bytes are the backed parts of its clusters in chain order, up to the 64 MiB cap |
| Fs.FatFs.Resolve | core/src/fs.rs:285-304 | a handle resolves to the first node with its index in its parent, re-read by FAT chain |
| Fs.FatFs.MetaOf | core/src/fs.rs:191-196 | the root's synthetic node, or the node a handle resolves to |
| Fs.FatFs.DirSourceOf | core/src/fs.rs:248-274 | where a directory's bytes live, or an error for a node that is not a directory |
| Fs.FatFs.ReadDirOf | core/src/fs.rs:173-178 | lists the nodes of the directory's bytes under its marker |
| Fs.FatFs.LookupOf | core/src/fs.rs:181-188 | finds the first live, non-label node whose UTF-8 name matches |
| Fs.FatFs.DataExtentOf | core/src/fs.rs:306-333 | the chain and total length behind a handle |
| Fs.FatFs.ReadAt | core/src/fs.rs:200-228 | every (offset, buffer) receives exactly the longest image-backed prefix of the flat file there, for every splitting of partial reads; the rest of the buffer is untouched |
| Fs.FatFs.ReadChain | core/src/fs.rs:205-227 | the same over any chain and total |
| Fs.FatFs.RunsOf | core/src/fs.rs:138-165 | the runs of a node are canonical and spell out the addresses of its file, cut to its length |
| Fs.FatFs.MergeRuns | core/src/fs.rs:147-164 | the loop grows the last run in place exactly when clusters are adjacent |
| FileMap.AddrAt | core/src/fs.rs:210-218 | position p of a file is byte p mod cluster size of cluster p div cluster size of its chain |
| FileMap.ReadsCompose | core/src/fs.rs:200-228 | a full read continued where it stopped is one longer read; a short read stays short however much is asked |
| FileMap.CanonicalRunsAreUnique | core/src/fs.rs:147-164 | two run lists without empty or mergeable runs that cover the same addresses are equal |
| FileMap.PositionsAreDistinct | core/src/boot.rs:139-145 | different positions of a file without repeated clusters are different image bytes inside the data region |
| FsProofs.RunLengths | core/src/fs.rs:138-165 | the run lengths sum to min(total, clusters x cluster size) |
| FsProofs.RunsAreDetermined | core/src/fs.rs:138-165 | any two run lists that answer for one extent are equal |
| FsProofs.RunsMatchReadsIff | core/src/fs.rs:138-228 | a whole-file read equals the bytes of the runs up to the first hole, iff there is a chain, or no length, or the root region is past the image |
| FsProofs.FilePositionsAreDistinct | core/src/fs.rs:337-357 | on an opened FAT volume a terminated in-range file keeps each position in its own byte of the data region |
| FsProofs.ContiguousIsChain | core/src/fs.rs:337-357 | a NoFatChain extent has the clusters and length of the chain through any FAT that links it in order to an end marker; section 6.4.2.2 of the exFAT specification |
| FsProofs.ContiguousIsOneRun | core/src/fs.rs:147-163 | the runs of a NoFatChain extent are one run, from its first cluster and as long as the file |
| FsProofs.DirectoryBytesAreContent | core/src/fs.rs:372-383 | with every cluster backed and the cap not met, a directory's bytes are what reading its chain as a file returns |
| FsProofs.DirectoryMatchesReadIff | core/src/fs.rs:200-384 | below the size cap a directory's bytes are what reading its chain as a file returns iff no cluster behind a cut or missing one holds a byte: the directory carries on behind a hole, the read stops at it |
| FsProofs.LengthIsSizeIff | core/src/fs.rs:323-333 | the length a node is read with is its size field iff the size is positive or its first cluster is below 2 |
| FsProofs.SizelessIsNotEmpty | core/src/fs.rs:323-333 | a node of size 0 with a backed first cluster reads as non-empty, its first byte that of the cluster |
| Handles.HandleIsStableIff | core/src/fs.rs:285-304 | the exact node a handle of a re-read FAT directory resolves to; it is the listed node iff its slot is below 65535 or no earlier listed slot reaches 65535 |
| Handles.HandlesAreStable | core/src/fs.rs:21-36 | in a directory of at most 65536 slots that is re-read as it was listed, every node resolves to itself |
| Handles.AllStableIff | core/src/fs.rs:21-36 | in a re-read directory of any size, on any variant, every node resolves to itself iff no two different nodes share a handle |
| Handles.RootNode | core/src/fs.rs:415-432 | the root's own node is a live directory with no name, size, cluster or times |
| Handles.OnlyDirectoriesAreListed | core/src/fs.rs:248-274 | a node is listed from its clusters if it is a directory; if not, listing it and looking names up in it are errors |
| Rereading.AlwaysRereadsIff | core/src/fs.rs:285-298 | on an opened volume whose clusters lie behind the boot sector and the FAT, a directory below the size cap is re-read through its handles as it was listed, in every image that opens as the same volume, iff the image ends inside the FAT, or the directory is the fixed root, or it does not begin at cluster 0xFFFFFFFF and its FAT chain lists the clusters it was listed from |
| Rereading.ContiguousRereadIsOneCluster | core/src/fs.rs:282-298 | a contiguous directory whose first FAT entry is a terminator is re-read one cluster long |
| Rereading.RereadIsPrefix | core/src/fs.rs:285-298 | a directory whose FAT chain lists the first of its clusters is re-read as the first of its slots |
| Rereading.ExfatHandleResolves | core/src/fs.rs:285-304 | for every node listed in any exFAT directory: what its handle resolves to, namely the first entry with its index among the re-read slots, or an error; it is the node itself iff there is one and it decodes as listed |
| Rereading.CutHandleIsStableIff | core/src/fs.rs:285-304 | where the re-read slots are the first n of the listed ones, the handle of a set at slot p up to 65535 is an error iff p >= n, otherwise it resolves to what the cut leaves of the set, which is the listed node iff it decodes the same, in particular if the set ends by slot n |
| Rereading.CutSetIsEmpty | core/src/exfat.rs:83-128 | a set cut to its File entry decodes to an empty name, size 0 and cluster 0 |
| Rereading.MarkerDirectoryIsMisresolved | core/src/fs.rs:285-304 | each node listed in a directory at cluster 0xFFFFFFFF has a handle that is an error on FAT32 and exFAT, and on FAT12/16 resolves to what the fixed root lists at that slot |
| Handles.LookupFindsFirst | core/src/fs.rs:180-188 | in any directory, lookup of any bytes is None if they encode no name, otherwise None iff no live node has the name, and else the handle of the first live node that has it |
| Handles.LookupResolves | core/src/fs.rs:180-196 | in a directory whose handles are stable, the handle lookup gives resolves to the first live node of the name |
| Vfs.AddressesAreLocations | core/src/vfs.rs:23-90 | an address is the cluster and slot of a handle, the root slot 0 of cluster 0; an inode number splits into the same two |
| Vfs.RoundTripIff | core/src/vfs.rs:26-56 | a handle survives its VFS address iff it is not slot 0 of cluster 0 |
| Vfs.InoCollidesIff | core/src/vfs.rs:85-90 | two handles share an inode number iff they are equal or are the root and slot 0 of cluster 0 |
| Vfs.YieldedIdsAreOneToOne | core/src/vfs.rs:23-56 | every handle root or read_dir can yield survives the round trip, and no two share an address or an inode number |
| Dirent.LfnChars | core/src/dirent.rs:154-161 | the 13 code units of a long-name slot |
| Dirent.ShortChecksum | core/src/dirent.rs:195-201 | the loop computes the rotate-and-add sum of the first 11 bytes |
| Dirent.ChecksumIsRunningSum | core/src/dirent.rs:195-201 | that sum is the last of the running sums that start at 0 and, for each byte, halve, carry the odd bit to 0x80 and add, modulo 0x100 |
| Dirent.ChecksumSeparatesOneByte | core/src/dirent.rs:195-201 | short names that differ in one byte have different checksums |
| Dirent.NeighbourRestoresChecksum | core/src/dirent.rs:195-201 | for every name and every change of a byte but the last, exactly one change of the byte after it restores the checksum, so single changes are the limit |
| Dirent.ReassembleLong | core/src/dirent.rs:165-192 | pending parts give a name only under a matching checksum: sorted by sequence number, each cut at its terminator, padding dropped |
| Dirent.ParseDirectory | core/src/dirent.rs:53-90 | the one-pass machine equals the declarative reading: one record per non-long-name slot before the end marker, each decoded from its slot and the run before it |
| DirentProofs.RecordIsLocal | core/src/dirent.rs:55-88 | a record depends only on its slot and the maximal run of live long-name slots just before it |
| DirentProofs.ParseComposes | core/src/dirent.rs:53-90 | parse(a ++ b) is parse(a) followed by parse(b) with shifted indices, when a is whole slots with no end marker and nothing pending |
| DirentProofs.CutRunRenames | core/src/dirent.rs:84-87 | cutting between a long-name run and its record changes the result, so the condition is needed |
| DirentProofs.LongNameRoundTrip | core/src/dirent.rs:154-192 | any name of up to 31 x 13 units, written in numbered slots in any order with the running-sum checksum of its record, reads back on that record |
| DirentProofs.SortIsStable | core/src/dirent.rs:172-174 | parts that share a sequence number keep their order |
| DirentProofs.KeptUnits | core/src/dirent.rs:175-187 | whatever a part holds, its units end at the first zero and padding before that is left out |
| DirentProofs.NoLongName | core/src/dirent.rs:165-191 | a run of another checksum, or one that spells nothing, gives no long name |
| DirentProofs.ItemIsListed | core/src/dirent.rs:53-90 | at any slot boundary with nothing pending, a written item - a record under its long name, a record with no long-name slots or with slots of another checksum, a deleted record or long-name slot - is listed between the records before it and the shifted records of whatever follows |
| DirentProofs.DirectoryRoundTrip | core/src/dirent.rs:53-90 | any directory of such items, written out and followed by stray long-name slots, an end marker or nothing, parses back to the items' records, each at its own slot |
| ShortRecords.ShortRecordRoundTrip | core/src/dirent.rs:93-115 | every field of a written short record is decoded from its place; a record is never both directory and label |
| ShortRecords.ShortNameRoundTrip | core/src/dirent.rs:119-151 | a stored name, live or deleted, is shown as what it spells: base, dot and extension or the base alone, each part in lower case when its flag bit is set, a label as its text; a leading 0xE5 is stored as 0x05, and a deleted one shows a question mark |
| ShortRecords.EveryRawSpells | core/src/dirent.rs:119-151 | every 11 bytes of a record spell such a name |
| ShortRecords.RecordNameRoundTrip | core/src/dirent.rs:93-115 | a record is listed under its long name, or else under what its 11 bytes spell, as a label exactly if the label bit says so |
| ShortRecords.DeletedIsNeverDot | core/src/dirent.rs:126-128 | the name of a deleted record starts with a question mark, so it is never a dot name |
| Text.Utf16RoundTrip | core/src/dirent.rs:191-191 | every string survives encoding to UTF-16 and lossy decoding |
| Text.Utf16IsStandard | core/src/dirent.rs:191-191 | the units of a character are its number, or its surrogate pair |
| Text.LoneSurrogate | core/src/dirent.rs:191-191 | a surrogate that pairs with neither neighbour decodes to U+FFFD |
| Text.Utf8IsStandard | core/src/fs.rs:183-183 | the bytes of a character are its shortest UTF-8 code |
| Text.Utf8Injective | core/src/fs.rs:183-183 | comparing names as UTF-8 bytes is comparing the names |
| Exfat.BootChecksum | core/src/exfat.rs:208-220 | the loop computes the rotate-and-add sum of the first 11 sectors without the three excluded offsets |
| Exfat.BootSumIsRunningSum | core/src/exfat.rs:208-220 | that sum is the last of the running sums that start at 0, skip bytes 106, 107 and 112, and for each other byte halve, carry the odd bit to 0x80000000 and add, modulo 2^32 |
| Exfat.TamperIsDetected | core/src/exfat.rs:208-220 | regions differing in exactly one summed byte have different checksums; section 3.4 of the exFAT specification |
| Exfat.UnsummedNeverMatter | core/src/exfat.rs:214-216 | changes confined to offsets 106, 107 and 112 never alter the checksum |
| Checksum.SingleByteChangesSum | core/src/exfat.rs:212-219 | at 8 and at 32 bits, changing one summed byte always changes the sum |
| Exfat.DecodeSet | core/src/exfat.rs:83-128 | a File entry with the secondaries it claims, as far as the directory goes, decodes to one record |
| Exfat.ParseDirectory | core/src/exfat.rs:60-80 | the loop lists exactly the sets found by stepping over whole entry sets up to the end marker |
| ExfatProofs.ParseComposes | core/src/exfat.rs:60-80 | parse(a ++ b) is parse(a) followed by parse(b) with shifted indices, when a is whole slots whose entry sets end exactly where it does, with no end marker |
| ExfatProofs.ItemIsListed | core/src/exfat.rs:60-128 | wherever the sets before it end whole, a written file set is listed between them and the shifted sets of whatever follows: any name of up to 255 units, live or deleted, with any SetChecksum, UTC offsets, NameHash, ValidDataLength, padding and vendor secondaries |
| ExfatProofs.DirectoryRoundTrip | core/src/exfat.rs:60-128 | any list of such file sets and other primaries, written out, parses back to exactly its file sets; sections 7.4, 7.6 and 7.7 of the exFAT specification |
| ExfatProofs.IndicesIncrease | core/src/exfat.rs:64-78 | in a directory of at most 65536 slots the listed indices strictly increase |
| Time.StepsByOne | core/src/time.rs:46-53 | the day formula advances by one from any proleptic Gregorian date to the next |
| Time.CountsDays | core/src/time.rs:46-53 | the formula of the date n days after 1970-01-01, counted day by day, is n, for every integer n |
| Time.DaysInvert | core/src/time.rs:46-53 | counting that many days from the epoch gives every date back |
| Time.StrictlyMonotone | core/src/time.rs:46-53 | later dates have larger day numbers |
| Time.DecodeIsCivil | core/src/time.rs:20-42 | a real date, n days after 1970-01-01 by the calendar, and a real time decode to those days and that time in seconds; hundredths carry into seconds and nanoseconds |
| Time.ZeroDateIsUnset | core/src/time.rs:20-23 | a timestamp is unset iff its date is zero |
| Time.DecodeIsMonotone | core/src/time.rs:20-42 | on valid fields with the tenths fixed, a later packed (date, time) decodes to a strictly later instant |
| Time.DecodeOrderBreaksOffCalendar | core/src/time.rs:32-33 | 31 February packs below 1 March and decodes two days above it |
| Time.SecondsAreNotClamped | core/src/time.rs:18-34 | on every date, 10:00 with a seconds field of 31 packs below 10:01 and decodes two seconds above it |
| Time.OrderIsKeptIff | core/src/time.rs:20-42 | a set (date, time) pair decodes strictly between all real instants packed below it and all packed above it iff all its fields are real or it lies past the last representable minute |
| Walk.WalkIsBounded | forensic/src/lib.rs:348-375 | on every listing, cyclic or not, the walk calls itself once for the start and once for each first cluster it adds, none twice |
| Walk.WalkReportsOnlyListed | forensic/src/lib.rs:348-375 | on every listing the walk keeps earlier reports and adds only deleted nodes listed in directories that handles reach from the start |
| Walk.WalkIsSound | forensic/src/lib.rs:348-375 | it descends into reachable directories only, none twice, and reports only deleted nodes of the start and, once more each, of those |
| Walk.RootReportedTwice | forensic/src/lib.rs:270-274 | a listing whose start is reached again: its one deleted node is reported twice |
| Walk.WalkIsComplete | forensic/src/lib.rs:348-375 | with the depth cap not met it descends into exactly the reachable directories, each once, and reports exactly their deleted nodes |
| Walk.CapMeansDeepPath | forensic/src/lib.rs:355-357 | a walk that met the depth cap followed a path of 64 directories, none twice |
| Walk.ShallowTreesAreNeverCapped | forensic/src/lib.rs:355-357 | the cap is not met when no path enters 64 directories without a repeat, however many there are and however cyclic |
| Walk.SmallTreesAreShallow | forensic/src/lib.rs:355-357 | fewer than 64 distinct directories have no such path |
| Walk.MetAtCapIsSkipped | forensic/src/lib.rs:355-373 | a directory first met at the cap is marked seen unlisted: it reports nothing, and an entry leading to it at a smaller depth is skipped afterwards |
| Walk.NextToStartUnreported | forensic/src/lib.rs:355-373 | a listing of nested directories on which the walk reports nothing, though a directory next to the start holds a deleted node |
| Audit.Auditor.CollectDeleted | forensic/src/lib.rs:348-375 | the recursive method with its two accumulators is the walk |
| Audit.FatIsWalkable | core/src/fs.rs:285-304 | a FAT directory away from the fixed-root marker can be walked if no directory in it lies past slot 65534 behind another record that does |
| Audit.SmallDirectoryIsWalkable | core/src/fs.rs:285-304 | on any variant, so can a re-read directory of at most 65536 slots |
| Audit.CutDirectoryIsWalkable | core/src/fs.rs:285-304 | so can an exFAT directory whose re-read is cut short, if the sets of its own directories lie before the cut |
| Audit.ListingIsHonest | core/src/fs.rs:285-304 | reading a directory of a walkable listing through its handle gives the listing the tree holds for its first cluster |
| Audit.DeletedAreReported | forensic/src/lib.rs:362-369 | on FAT the skip of dot names never hides a deleted entry |
| Audit.CompareTables | forensic/src/lib.rs:325-334 | the least differing position and the exact number of differing positions |
| Audit.AuditFatMirror | forensic/src/lib.rs:307-344 | nothing for equal or truncated tables; otherwise the least differing offset, its bytes and the exact count |
| Audit.MirrorReportIsUnique | forensic/src/lib.rs:325-343 | what the report must say leaves only one report |
| Audit.CleanMirrorMeansSameChains | forensic/src/lib.rs:307-344 | the chains the opened volume follows are those of the second table, for every start and cap, iff the two hold the same link at every cluster; a clean report of two whole tables means that they are |
| Audit.TopNibbleMismatchIsHarmless | forensic/src/lib.rs:307-344 | FAT32 tables that differ only in the reserved top nibbles are reported as a mismatch, and give the same chains |
| Audit.ChainsBelowMismatchAgree | forensic/src/lib.rs:335-342 | a reported mismatch leaves every chain alone whose entries lie below its offset |
| Audit.AuditExfatChecksum | forensic/src/lib.rs:279-304 | nothing for a truncated region; otherwise a mismatch iff stored and recomputed checksums differ |
| Audit.TamperIsReported | forensic/src/lib.rs:290-302 | changing one summed byte of a clean boot region is always reported, with both checksums |
| Audit.AuditReader | forensic/src/lib.rs:232-276 | the whole audit: which anomalies, in which order, for any image |
| Audit.BadSignatureEndsTheAudit | forensic/src/lib.rs:238-262 | a bad boot signature yields exactly the signature and the parameter-block anomaly |
| Audit.AuditReportsOnlyListed | forensic/src/lib.rs:232-276 | on every image that opens, an audit reports its integrity finding and then only deleted entries listed in directories that handles reach from the root |
| Audit.AuditIsSound | forensic/src/lib.rs:232-276 | an audit of a volume, FAT or exFAT, whose reachable directories resolve through their handles and are told apart by first cluster reports nothing beyond its integrity finding, the deleted entries of the root, and those of distinct reachable directories, at any depth |
| Audit.AuditIsExact | forensic/src/lib.rs:232-276 | with the cap not met such an audit reports exactly those |
| Audit.ShallowVolumeAuditIsExact | forensic/src/lib.rs:232-276 | such a volume in which no path enters 64 directories without a repeat is audited exactly |
| Audit.FatAuditIsExact | forensic/src/lib.rs:232-276 | so is every FAT12/16/32 volume whose root and reachable directories have at most 65536 slots, none of them at cluster 0xFFFFFFFF, and no such path |
| Audit.RootIsListedTwiceIff | forensic/src/lib.rs:270-274 | where the root has clusters of its own, the uncapped walk lists the directory at its cluster twice iff an entry reachable from the root leads back to it, and every other directory once iff it is reachable |
| EndToEnd.WrittenNodeFields | core/src/fs.rs:435-454 | the node of a record written at any slot boundary of a FAT directory is deleted iff the record is, and has its name, long or as its 11 bytes spell, its slot, cluster, size, flags and decoded times |
| EndToEnd.WrittenSetFields | core/src/fs.rs:457-476 | the node of an exFAT file set written at any boundary between sets has its name, state, extent, flags and decoded times |
| EndToEnd.WrittenFileReadsBack | core/src/fs.rs:180-228 | a file written at any slot boundary of any re-read FAT directory - long or short name, record, FAT links, data - with no live node of its name before it is found by name, and every read of the handle returns its data: as much as its size says, or for size 0 all its clusters hold |
| EndToEnd.ExfatFileReadsBack | core/src/fs.rs:180-228 | the same for an exFAT file set at any boundary between sets, contiguous or chained, if a handle re-reads the directory up to the end of the set |
| EndToEnd.FirstClusterFileReadsBack | core/src/fs.rs:180-228 | so a file whose set ends inside the first cluster of a contiguous exFAT directory that the FAT does not link reads back |
| EndToEnd.UnlinkedHandles | core/src/fs.rs:282-304 | in such a directory the handle of a listed file set is an error iff the set begins past the first cluster, the listed node if it ends inside, and otherwise what the first cluster leaves of it |
| EndToEnd.FoundButLost | core/src/fs.rs:180-196 | the handle lookup gives for a live file there has neither metadata nor data |
| Described.FatVolumeOpens | core/src/fs.rs:96-120 | an image with a written boot sector and FAT entries opens as the volume they lay out |
| Described.FatRootIsRead | core/src/fs.rs:248-280 | the root of such a volume is read, and re-read through its handles, from the sectors behind the FATs on FAT12/16, and on FAT32 from the clusters linked from the one the boot sector names |
| Described.Fat32RootData | core/src/fs.rs:306-333 | every read of a FAT32 root itself returns the directory's bytes |
| Described.FixedRootData | core/src/fs.rs:138-146 | a fixed root has the length of its region, no chain, and one run, the region |
| Described.FatRootFileReadsBack | core/src/fs.rs:180-228 | a file written into the root of a FAT12/16/32 image, every byte at its place, is found in the root by the name its record spells or its long-name slots carry, and every read returns its data |
| Described.ExfatVolumeOpens | core/src/fs.rs:96-120 | an image with a written exFAT boot sector and FAT entries opens as the volume they describe |
| Described.ExfatRootIsRead | core/src/fs.rs:248-280 | its root is read and re-read from the clusters linked from the one the boot sector names |
| Described.ExfatRootData | core/src/fs.rs:306-333 | reading the exFAT root itself gives its bytes |
| Described.ExfatRootFileReadsBack | core/src/fs.rs:180-228 | a file set written into the root of an exFAT image, contiguous or linked, is found by its name, and every read returns its data |
| Described.LongDirectoryIsCut | core/src/fs.rs:372-383 | a directory longer than 64 MiB is read up to the first cluster that reaches it |
| Described.LongFatIsCut | core/src/fs.rs:109-112 | an entry past the first 256 MiB of the FAT reads as 0 |
| Reported.WrittenRecordIsWalked | forensic/src/lib.rs:358-374 | a written record is reported iff deleted, and descended into iff it is a live directory, no label, named neither dot name |
| Reported.FatRootDeletedIsReported | forensic/src/lib.rs:232-276 | the audit reports a deleted record in the root of a FAT12/16/32 image under the name its bytes spell, whatever else the volume holds |
| Reported.ExfatRootDeletedIsReported | forensic/src/lib.rs:232-276 | the same for a deleted file set in the root of an exFAT image, unless named with one or two dots |
| Reported.FatSubdirectoryDeletedIsReported | forensic/src/lib.rs:232-276 | the same for a deleted record in a directory written in the root, where the audit is exact |
| Reported.ExfatChecksumIsAudited | forensic/src/lib.rs:279-304 | the audit of an exFAT image with a whole boot region reports a mismatch iff the twelfth sector does not keep the running sum of the first eleven |
| Reported.FatMirrorIsAudited | forensic/src/lib.rs:307-344 | the audit of a FAT image with two whole FATs reports a mismatch iff some byte of them differs, and then the first such offset |
| Reported.SingleFatIsNotCompared | forensic/src/lib.rs:264-268 | with one FAT the audit finds nothing but deleted entries |

## Left out

- Errors of the operating system, the retry of interrupted reads and the lock around the reader: the model's reader makes progress on every read and fails only at the end of the image.
- Error texts: an error keeps which check rejected the input.
- `usize` is taken to be 64 bits wide, so the conversions the source guards never fail.
- Audit.AuditIsExact: asks that the handle of every reachable directory resolves and that directories sharing a first cluster list the same; on other volumes (`EndToEnd.UnlinkedHandles`, `Rereading.MarkerDirectoryIsMisresolved`) only `Audit.AuditReportsOnlyListed` holds.
- Audit.AuditIsSound: the same; what holds on every image, walkable or not, is `Audit.AuditReportsOnlyListed`.
- Rereading.AlwaysRereadsIff: asks that both cluster lists stay below the 64 MiB directory cap, past which lists that differ only behind the cap can give the same bytes in every image; and, on exFAT, that the clusters lie behind the boot sector and the FAT, since elsewhere their bytes decide which volume the image is.
- FsProofs.DirectoryMatchesReadIff: below the same cap only; past it a directory is cut at a cluster boundary and a read is not.
- EndToEnd.WrittenFileReadsBack: for a record at a slot above 65535 the index no longer names the slot; what its handle then gives is stated by `Handles.HandleIsStableIff`, and on exFAT by `Rereading.ExfatHandleResolves`.
- Described.FatVolumeOpens: describes at most the first 256 MiB of the FAT; what lies behind reads as 0 (`Described.LongFatIsCut`).
- Vfs.YieldedIdsAreOneToOne: every identity other than the FAT address is one `Foreign` value; the rest of the VFS adapter (metadata, streams, filters, error mapping) is not modelled.
- The command-line tool, fuzz targets, image minting, and the severity, code, note and evidence tables of anomalies: one-branch lookups and output.
- exFAT set checksums, allocation bitmap and up-case table, and detection of cross-linked or orphaned chains: not implemented by the source.
