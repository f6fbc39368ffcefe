# A model of the VHDX read path, its analyser and its repair tool

A VHDX container is a file that holds a virtual disk: two header copies, two copies of a region
table, a metadata region with the disk's parameters, a log of not yet committed writes, and a
block allocation table (BAT) that says for each block of the virtual disk where its bytes are,
or that they are zeros, or that a parent disk has them, or that a sector bitmap decides sector
by sector. The repository reads such containers (`core`), analyses damaged ones and repairs some
of the damage in place (`forensic`).

This project models that read path as one stack, and states the analyser and the repair tool
against the same abstract disk.

- `Bytes`, `Arith`: bytes, little-endian fields, results, division facts.
- `Crc`, `CrcWords`, `Header`: CRC-32C bit by bit and on machine words, checksummed blocks, header
  selection.
- `Replay`, `Log`: log runs, the in-place replay and the overlay, the walk and its ordering.
- `Backing`: the four positioned-read backings over sources that read short.
- `Metadata`, `Region`, `Bat`: parameters, region table, address translation.
- `Disk`, `Chain`: the abstract disk, one byte at a time, and differencing chains.
- `Reader`, `Open`, `Vfs`: the cursor-based reader, the two ways of opening, positioned reads.
- `LogCheck`, `Sweeps`, `Orders`, `Coverage`, `Integrity`, `Sizes`: the analyser; `Orders` is about
  every order that its unstable sort may leave.
- `Repair`, `Fixpoint`: the repair tool and why it settles.
- `Preserve`, `Dirty`: what repair preserves of the decoded disk, under a clean and a dirty log.
- `Format`, `LogFormat`, `Tables`, `Findings`: what the model says of addresses and bitmaps, of the
  log, of the tables and of the findings, stated once more in plain arithmetic on the bytes.
- `Build`: containers with valid checksums, laid out part by part.
- `Divergence`, `Hidden`, `Overlap`, `Sample`, and the end of `Sizes`: such containers on which a
  stronger claim fails; `Restore`: one whose log undoes a repair; `Newest`: one whose headers differ.

The specification of reading is `Disk.ByteAt`: what the single byte at `v` is, by looking at one
BAT entry, at most one bitmap bit, and the parent. Everything else is measured against it, and it is
itself measured against the rule of the format on plain numbers (`Format.ByteRule`,
`Format.PartialByteRule`), as the checksum is against its published values
(`CrcWords.CheckValues`), the log against its bytes (`LogFormat`) and repair against what becomes
of each entry and copy (`Findings.EntryBecomes`, `Findings.CopiesBecome`).

- A read of any length at any position gives exactly the bytes that `ByteAt` gives one by one,
  and fails exactly when one of them does not resolve (`Reader.VhdxReader.Read`). The batching by
  blocks and by runs of bitmap bits rests on the geometry that validation guarantees
  (`Metadata.Geometry`, `Disk.PartialTargetAlong`).
- The source replays a dirty log in two ways and calls them byte-identical. They are not, and
  three containers with valid headers, tables and log entries show it: a data sector that
  straddles the end of the container is skipped by one way and shown by the other, so that one
  virtual byte reads as zero or as seven (`Divergence.StraddlingSectorDiffers`); a sector offset
  near 2^64 stops only the one (`Divergence.OverflowDiverges`); a zero descriptor of 2^63 bytes
  stops only the other (`Divergence.OversizeDiverges`). `Replay.PathsAgreeExactly` says for which
  descriptor lists the replays agree, in both directions, `Open.PanicsExactly` when each way
  panics, and `Vfs.OpenBothWays` that otherwise no session of seeks and reads can tell the two
  apart.
- If the analyser reports at most one of its two findings on the length of the block table, then
  every block of the disk has its entry, unless the length was never measured
  (`Sizes.SilenceMeansCovered`). It is not measured if the table is shorter than one entry
  (`Sizes.EmptyTableUnreported`), or if the analyser does not find the parameters to measure it
  against, of which it reads fewer than the reader does (`Sizes.ShortTableUnreported`: the disk
  size under the identifier that QEMU writes).
- The sweep for overlapping metadata items sorts by offset, unstably, and compares neighbours.
  `Orders.ReportsExactly` and `Orders.SilentOrderExactly` say exactly on which items some order
  reports an overlap and some order reports none, and `Integrity.OverlapFoundExactly` when the
  finding can be trusted; `Hidden` has a container on which it may be missing and one on which it
  may be wrong.
- Repair reaches a fixpoint (`Fixpoint.RepairFixpoint`) if what it writes does not get in the way of
  what it goes by: rewritten entries are clear of the block copies, replaced copies of the scanned
  entries, and both of the metadata that the layout is read from. `Overlap.SecondRepairNeeded` is
  an image where they are not, and where the first repair breaks a header. On images whose chunk
  ratio is zero the analysis divides by zero, so that no repair is attempted
  (`Repair.VhdxRepair.AttemptRepair`, `Sizes.WideBlocksPanic`).
- Repair preserves the decoded disk byte by byte, with the exact exception of zeroed entries
  (`Preserve.RepairedByte`); under a dirty log, which repair does not change, replay may restore a
  zeroed entry (`Dirty.ReplayedByte`, `Restore.ReplayRestores`). Zeroing an undefined entry is
  harmless exactly when the parent shows zero there (`Preserve.UndefinedKeptExactly`);
  `Sample.RepairShowsParent` is a differencing disk on which it is not.

`usize` is taken to be 64 bits, and an image to be shorter than 2^63 bytes. `Error.Panic` stands
for a slice, overflow, division or allocation panic of the original. Division by a variable is
written with `Arith.Div` and `Arith.Mod`, which are the built-in operators
(`Arith.DivIsQuotient`); division by a constant is written with `/` and `%`. Bodies use `hide` to
keep definitions that a proof does not need out of it.

## Model

| member | source | states |
|---|---|---|
| Crc.ComputeCrc32c | core/src/header.rs:75-89 | the nested shift loops compute the checksum defined bit by bit |
| Crc.PolynomialValue | core/src/header.rs:76 | the bit list used as polynomial is 0x82F6_3B78 |
| Crc.ShiftsAbsorb | core/src/header.rs:79-87 | mixing a byte in at once and shifting eight times equals absorbing its bits one at a time |
| Crc.AbsorbInjective | core/src/header.rs:75-89 | any message acts on the 32-bit register states as a bijection: equal end states mean equal start states |
| Crc.BurstDetected | core/src/header.rs:75-89 | from one state, two different messages of equal length up to 32 bits never reach the same state |
| Crc.FourByteBurst | core/src/header.rs:75-89 | messages that differ only within four consecutive bytes have different checksums |
| CrcWords.ChecksumWord | core/src/header.rs:75-89 | the checksum of every message is the number of a 32-bit word that is shifted right and combined with 0x82F6_3B78 for each bit, from 0xFFFF_FFFF on, and complemented at the end |
| CrcWords.CheckValues | core/src/header.rs:75-89 | the checksum of no bytes is 0, and that of "123456789" is 0xE306_9283 |
| CrcWords.Residue | core/src/header.rs:68-89 | a message followed by its own little-endian checksum always has the checksum 0x4867_4BC7 |
| Bytes.LittleEndian | core/src/bytes.rs:10-46 | fields are little-endian, storing a field that was read gives its bytes back, and identifiers are sixteen bytes as they stand |
| Header.VerifyCrc32c | core/src/header.rs:68-73 | verification accepts exactly the blocks whose stored field is the checksum of the block with that field cleared |
| Header.ChangeDetected | core/src/header.rs:68-89 | on a block that verifies, any change confined to four consecutive bytes wholly inside or wholly outside the checksum field makes verification fail |
| Header.SignedIdentity | forensic/src/repair.rs:234-239 | recomputing the checksum of a block that verifies changes nothing |
| Header.Signed | forensic/src/repair.rs:234-239 | a block with a recomputed checksum verifies, and differs only in the checksum field |
| Header.ParseOneHeader | core/src/header.rs:42-66 | a copy is accepted exactly if it is inside the data, has the signature and verifies; the fields are those at the format's offsets |
| Header.ParseActiveHeader | core/src/header.rs:25-40 | the accepted copy with the higher sequence number, the first on a tie, or NoValidHeader |
| Header.AcceptedCopy | core/src/header.rs:42-73 | a copy is accepted for "head" and the checksum of its 4 KiB with bytes 4 to 8 cleared |
| Header.NewestAccepted | core/src/header.rs:25-40 | the active header is one of the accepted copies at 64 and 128 KiB, no accepted copy has a higher sequence number at byte 8, and of two equally new ones it is the first |
| Header.OffsetOfActive | forensic/src/integrity.rs:2285-2304 | so is the one whose offset the analyser takes |
| Newest.NewestHeaderWins | core/src/header.rs:28-36 | a container whose second header is newer and names a log of one entry with two sectors: opened either way, each sector shows at its own place |
| Header.ActiveHeaderFrame | core/src/header.rs:25-40 | selection depends on the two 4 KiB header slots only |
| Replay.Patch | core/src/log.rs:68-87 | patching a buffer in place writes, in order, every run clipped to the buffer, and nothing outside the window |
| Replay.OverlaidNormalForm | core/src/log.rs:68-87 | each patched byte is that of the last run covering it, else the original |
| Replay.InPlaceNormalForm | core/src/log.rs:161-192 | each byte after in-place replay is that of the last applicable run covering it, else the original |
| Replay.InPlaceIdempotent | core/src/log.rs:161-192 | replaying the same runs twice equals once |
| Replay.PatchLocality | core/src/log.rs:61-87 | patching a sub-window equals slicing the patched larger window, for runs overlapping in any order |
| Replay.Untouched | core/src/log.rs:36-87 | a byte that no run covers keeps its value on either path |
| Replay.PathsAgreeExactly | core/src/log.rs:14-18 | for a given list of descriptors the two replays agree on every image and all sector contents if and only if no skipped sector is the last run over a container byte |
| Replay.SettledAgrees | core/src/log.rs:63-67 | for such a list, overlaying any image of that length equals replaying it in place |
| Replay.NoneStraddlesSettled | core/src/log.rs:174-176 | it is enough that every sector fits in the container or starts at or after its end |
| Log.ApplyEntry | core/src/log.rs:161-192 | replaying one entry panics exactly when the descriptor table runs past the entry or a sector end overflows; otherwise the container holds the in-place replay of the entry's runs |
| Log.OverlayEntry | core/src/log.rs:197-224 | recording one entry panics exactly when the descriptor table runs past the entry or a zero descriptor asks for 2^63 bytes or more; otherwise it appends the entry's runs in descriptor order |
| Log.LogOverlay.Push | core/src/log.rs:54-59 | a run is appended unless it is empty |
| Log.CollectEntries | core/src/log.rs:118-159 | the walk returns the stable sequence-order sort of exactly the entries walked that verify and name the header's log, and terminates |
| Log.SortIsStable | core/src/log.rs:157 | the replay order is ascending, has the same entries, and keeps the log order of each group of equal sequence number |
| Log.StableOrderUnique | core/src/log.rs:157 | ascending order and those groups determine the replay order: any stable sort gives it |
| Log.SortedIsIdentity | core/src/log.rs:157 | a log already in sequence order is replayed in log order |
| Log.Apply | core/src/log.rs:19-34 | folding a dirty log into the whole buffer, or the error, or the panic, as the log's runs determine; a clean image is left alone |
| Log.BuildOverlay | core/src/log.rs:95-114 | the overlay records exactly the runs that the header's log asks to replay, in replay order; it fails as in-place replay does, except that it panics over long zero runs instead of sector ends |
| Log.ApplyIdempotent | core/src/log.rs:19-34 | replay applied to its own result changes nothing, if no run reaches the headers or the log region |
| LogFormat.EntryAsks | core/src/log.rs:161-192 | an entry contributes, in descriptor order, one run for each data descriptor whose sector lies in the entry and each zero descriptor of some length, and nothing else; the sectors are numbered among the data descriptors |
| LogFormat.DataEntry | core/src/log.rs:173-179 | an entry of n data descriptors and n sectors writes sector i, at 64 + 32n + 4096i, to the offset at byte 24 of descriptor i |
| LogFormat.EverySectorOnce | core/src/log.rs:208-212 | whatever other descriptors stand between them, the sectors of the data descriptors are written in order, each once, if they lie in the entry |
| LogFormat.WalkExactly | core/src/log.rs:118-132 | the walk visits exactly the adjacent entries from the start of the log, each as long as its field at byte 8 says |
| LogFormat.KeptExactly | core/src/log.rs:136-155 | of those, exactly the entries are kept whose checksum verifies and whose identifier at byte 32 is the header's, each once and in log order |
| LogFormat.CommittedAscending | core/src/log.rs:152-158 | they are replayed ascending in the number at byte 16 |
| LogFormat.HeaderAsks | core/src/log.rs:19-34 | a header without a log length or identifier asks for nothing, one whose log is not in the container for an error, one with an entry shorter than its descriptor table for a panic, and any other for the runs of its committed entries |
| LogFormat.EntryAfterEntry | core/src/log.rs:30-33 | entries are replayed one after another |
| LogFormat.SectorInPlace | core/src/log.rs:174-177 | a sector replaces 4096 bytes if it ends in the container, and nothing otherwise |
| LogFormat.ZerosInPlace | core/src/log.rs:181-189 | zeros replace the bytes from the offset on, up to the end of the container |
| LogFormat.RunOverlaid | core/src/log.rs:68-87 | through the overlay every run replaces what of it lies in the container |
| LogFormat.TrapsExactly | core/src/log.rs:174 | the two traps: a sector that would end at 2^64 or later, and 2^63 zeros or more |
| Backing.Pread | core/src/backing.rs:49-74 | for any pattern of short reads, exactly the bytes of the file that are there from the offset on; the rest of the buffer is left alone |
| Backing.ReadFull | core/src/backing.rs:182-192 | the same for reads at a moving cursor |
| Backing.Backing.ReadAt | core/src/backing.rs:146-195 | all four variants return exactly min(len, max(0, size - offset)) bytes of one window, wherever the inner cursor was, and leave the rest of the buffer alone; a sub-range delivers its file's bytes from base + offset on |
| Backing.Backing.ReadExactAt | core/src/backing.rs:206-211 | the bytes at the offset, short only where the container ends |
| Backing.Backing.Len | core/src/backing.rs:125-131 | the recorded length is that of the window |
| Backing.Backing.WindowExactly | core/src/backing.rs:110-131 | the window of a sub-range is its file's bytes from the base on, as many as its length; every other window is all of the bytes |
| Metadata.ValidExactly | core/src/metadata.rs:55-85 | validation accepts exactly the nine block sizes, the two sector sizes, and disk sizes from one sector to 64 TiB that are whole numbers of sectors |
| Metadata.NineBlockSizes | core/src/metadata.rs:56-65 | validated parameters have one of the nine powers of two from 1 MiB to 256 MiB as block size |
| Metadata.Geometry | core/src/metadata.rs:49-85 | for validated parameters a chunk is exactly 2^23 sectors, the ratio is between 16 and 32768, and the sectors of a block are a multiple of eight |
| Metadata.ParseMetadata | core/src/metadata.rs:88-142 | each parameter is that of the last item with its identifier, enough data and data inside the region; the sector size defaults to 512 |
| Tables.ParametersExactly | core/src/metadata.rs:88-142 | block size and parent bit, disk size and sector size stand at the offsets that the last items with their identifiers name; a region without a sector size has 512 |
| Tables.ParametersMissing | core/src/metadata.rs:135-142 | without an item for the block size or the disk size there are no parameters |
| Region.ParseRegionTable | core/src/region.rs:50-98 | a table is accepted exactly if its signature and checksum hold and every visited entry lies in the container; each region is that of the last entry naming it |
| Region.LastInside | core/src/region.rs:77-82 | every region handed on lies inside the container |
| Tables.TableExactly | core/src/region.rs:50-98 | a table that does not verify, or that describes a region past the container, is refused; otherwise each region is that of the last of the visited entries with its identifier |
| Tables.FirstTableCounts | core/src/reader.rs:160-161 | reader and analyser each take the copy at 192 KiB, and the one at 256 KiB only if they cannot use the first |
| Bat.ParseBat | core/src/bat.rs:43-61 | the entries are the little-endian words of the region, a partial last one dropped |
| Bat.ReadTargetLocated | core/src/bat.rs:63-140 | for validated parameters the translation is the format's (chunk, slot and bit by sector number), and of all its checked additions only the payload address can overflow, exactly when the true sum reaches 2^64 |
| Bat.SmallProducts | core/src/bat.rs:109-128 | no intermediate value of the bitmap address comes near 64 bits |
| Bat.PayloadIndexPlace | core/src/bat.rs:71-75 | a payload index stands in its block's chunk at the block's place, never at the chunk's bitmap slot |
| Bat.PayloadIndexOnto | forensic/src/integrity.rs:1925 | every index that is not a bitmap slot is the payload index of exactly one block |
| Bat.PayloadIndexIncreasing | core/src/bat.rs:75 | the map from block to BAT index is strictly increasing |
| Bat.BitmapPlaceInjective | core/src/bat.rs:123-133 | two bytes of one chunk that both translate to a bitmap bit have their bitmap bytes inside the chunk's 1 MiB bitmap block, and share byte and bit if and only if they share a sector |
| Format.ByteRule | core/src/bat.rs:63-105 | the rule of the format for one byte, on products only: the entry of block b in chunk c is entry b + c; states 0 to 6 give the parent's byte, zero, an error, or the byte at the entry's MiB plus the offset in the block |
| Format.PartialByteRule | core/src/bat.rs:108-140 | the same for state 7: the bitmap entry of chunk c is entry c(r + 1) + r, and bit s mod 2^23 of that bitmap says whether sector s is this image's or the parent's |
| Format.HasSpot | core/src/bat.rs:68-75 | for validated parameters every byte has the block, chunk and sector that the rule speaks of |
| Disk.BlockTarget | core/src/reader.rs:237-255 | inside one block, zero and deferred states hold for every byte and a file address moves along with the offset |
| Disk.PartialTargetAlong | core/src/reader.rs:271-289 | bytes of one block whose sectors share a bitmap byte have the same bitmap address and consecutive data addresses, none of which overflows |
| Disk.FileRun | core/src/reader.rs:247-249 | a file-backed run resolves exactly when its last byte is inside the container, and then equals that slice |
| Disk.PartialRun | core/src/reader.rs:277-298 | a run of sectors with one owner is one slice of the container or is deferred byte for byte |
| Disk.SpanConcat | core/src/reader.rs:237-302 | adjacent spans resolve together exactly if each does, and join |
| Chain.DeciderDecides | core/src/reader.rs:322-334 | a byte is what the first image of the chain that does not defer it says, and zero when all defer |
| Chain.NonInterference | core/src/bat.rs:82-107 | two chains that agree, image by image up to the one that decides, on the translation of a byte and on the container bytes consulted for it, show the same byte |
| Chain.DeferralByState | core/src/bat.rs:82-100 | a block is never deferred in states 1, 2, 3 and 6, always in state 0, and in state 7 exactly when the binary digit of the bitmap byte for the sector is 0 |
| Format.BitSpells | core/src/reader.rs:277 | the eight bits of a bitmap byte, from the least significant on, spell it |
| Format.BothOwners | core/src/reader.rs:277-298 | a partial block whose bitmap byte is 1 and whose data starts with 0xAB: its first byte is 0xAB, and the first byte of its second sector is the parent's, or zero |
| Chain.ParentMatters | core/src/reader.rs:247-299 | replacing the parent changes nothing where this image owns the byte, and everything where it defers |
| Reader.VhdxReader.constructor | core/src/reader.rs:185-192 | a new reader decodes the committed container and starts at position 0 |
| Reader.VhdxReader.Read | core/src/reader.rs:228-306 | a read fills the buffer with as many bytes as the disk has left, each the byte reading it alone would give; it fails exactly when one does not resolve, and then the cursor has not moved |
| Reader.VhdxReader.ReadRuns | core/src/reader.rs:237-302 | the loop over blocks and runs gives the same as reading byte by byte, and terminates |
| Reader.VhdxReader.ReadChunk | core/src/reader.rs:238-300 | one turn of the loop delivers at least one byte, all of them right |
| Reader.VhdxReader.ReadPartial | core/src/reader.rs:256-299 | one bitmap byte serves the whole run of sectors with the same owner |
| Reader.OwnerRun | core/src/reader.rs:277-284 | the run has one owner, stays in the bitmap byte, and ends where the owner changes |
| Reader.VhdxReader.ReadFileChunk | core/src/reader.rs:310-320 | the committed container's bytes, failing exactly when the container ends first |
| Reader.VhdxReader.ReadParentChunk | core/src/reader.rs:324-334 | the parent's bytes from the same virtual offset, or zeros without a parent, whatever cursor the parent was left with |
| Reader.VhdxReader.ReadExact | core/src/reader.rs:329 | repeated reads fill the buffer exactly when every byte of it resolves |
| Reader.VhdxReader.Seek | core/src/reader.rs:338-352 | the wrapping signed arithmetic accepts exactly the destinations from 0 to 2^63 - 1, counted from the start, the cursor or the end; a refused seek moves nothing |
| Open.ReadRegion | core/src/reader.rs:209-225 | a region read at its place and patched is that slice of the committed container, or OffsetOutOfBounds |
| Open.Assemble | core/src/reader.rs:148-193 | assembly succeeds or fails, with the same error, as the committed container determines, and the reader decodes that container |
| Open.ParseBytes | core/src/reader.rs:110-122 | opening owned bytes gives a reader of the disk that in-place replay leaves, or its error |
| Open.ParseBacking | core/src/reader.rs:126-143 | opening through a backing gives a reader of the disk that the overlay shows, or its error; it panics exactly over a descriptor table past its entry or a zero run of 2^63 bytes or more |
| Tables.ParentNeeded | core/src/reader.rs:163-183 | a disk with the parent bit is opened only with a parent; the opened disk has the parameters of its metadata region and the words of its table region |
| Tables.Refusals | core/src/reader.rs:110-139 | both ways of opening refuse, in this order, a container without "vhdxfile", one shorter than 0x250000 bytes, and one without an accepted header |
| Open.HeaderInPrefix | core/src/reader.rs:136-139 | the bounded prefix selects the header that the whole container selects |
| Open.OpenPathsAgree | core/src/log.rs:14-18 | both ways of opening fail alike or decode the same disk, if both traps or neither are met and, if neither, the descriptor list is settled |
| Open.PanicsExactly | core/src/log.rs:174 | of a log whose runs can be listed, opening owned bytes panics exactly if a sector end overflows 64 bits, and opening through a backing exactly if a zero run is 2^63 bytes or longer |
| Divergence.StraddlingSectorDiffers | core/src/log.rs:174-176 | a container of 0x250800 bytes whose one log entry writes a sector across its end: both ways open it, and the virtual byte at 0x50000 is zero on the one and seven on the other |
| Divergence.OverflowDiverges | core/src/log.rs:174 | a container whose one log entry names a sector at 2^64 - 4096: opening owned bytes panics, opening through a backing succeeds |
| Divergence.OversizeDiverges | core/src/log.rs:214-219 | a container whose one log entry asks for 2^63 zeros: opening through a backing panics, opening owned bytes succeeds |
| Open.CleanImagesAgree | core/src/log.rs:8-9 | on clean images the two ways of opening agree without any condition |
| Vfs.VhdxSource.ReadAt | core/src/vfs.rs:48-70 | a positioned read is the slice of the virtual disk at the offset, cut at its end, whatever the shared cursor was |
| Vfs.RunSession | core/src/reader.rs:227-352 | any interleaving of seeks and reads shows a trace that is a function of the start position and the images alone |
| Vfs.AdjacentReads | core/src/reader.rs:228-306 | two adjacent reads succeed exactly when the one larger read does, with the same bytes and cursor |
| Vfs.BytesSession | core/src/reader.rs:110-122 | opening owned bytes and running a session shows the trace of the disk that in-place replay leaves, or its error |
| Vfs.OpenBothWays | core/src/reader.rs:110-143 | opening one image both ways, possibly over one shared parent, and running one session on each reader shows the same, under the same condition |
| LogCheck.ActiveHeaderBlock | forensic/src/integrity.rs:2285-2304 | the analyser selects the header that the reader selects |
| LogCheck.ScanLog | forensic/src/integrity.rs:1285-1346 | the analyser walks the positions that replay walks and reports each entry by checksum, identifier and sequence, and a missing signature where the walk stops |
| LogCheck.CheckLog | forensic/src/integrity.rs:1262-1347 | it scans exactly a dirty, identified, in-range log |
| LogCheck.EntriesAccountedFor | forensic/src/integrity.rs:1309-1330 | entries replayed plus checksum findings plus identifier findings number the entries walked |
| LogCheck.LogAccounting | forensic/src/integrity.rs:1285-1346 | the same for all findings on a log region, zeroed or not |
| LogCheck.CleanLogOrder | forensic/src/integrity.rs:1332-1342 | without checksum, identifier and gap findings every entry is replayed, and replay order is log order if and only if the sequence numbers do not wrap |
| LogFormat.RejectionReported | forensic/src/integrity.rs:1309-1330 | an entry walked is reported for its checksum exactly if it does not verify, and for its identifier exactly if it verifies and has another one |
| LogFormat.GapReported | forensic/src/integrity.rs:1332-1342 | a gap is reported at an entry, with the two numbers, exactly if it verifies and its number is not that of the last verified entry before it plus 1, modulo 2^64 |
| LogFormat.NoGapBefore | forensic/src/integrity.rs:1333 | no gap is reported at an entry before which none verifies |
| LogFormat.LogParts | forensic/src/integrity.rs:1294-1307 | beside those on its entries, a log that is not all zeros has a finding exactly if 64 bytes follow the last entry and do not start with "loge" |
| LogFormat.ZeroedReported | forensic/src/integrity.rs:1285-1291 | a log of zeros has one finding |
| Findings.LogReported | forensic/src/integrity.rs:1262-1284 | findings on a log are those on the log of the active header, if that is dirty, identified and in the image, and a region table copy verifies |
| Findings.DirtyReported | forensic/src/integrity.rs:1160-1164 | a dirty log is reported exactly if the active header gives it a length |
| Sweeps.SweepItems | forensic/src/integrity.rs:1729-1767 | the sweep orders the item ranges and reports exactly the neighbours that meet |
| Orders.ReportsExactly | forensic/src/integrity.rs:1754-1767 | some order that the unstable sort may leave reports an overlap if and only if two ranges share a byte or an empty one starts strictly inside another |
| Orders.SilentOrderExactly | forensic/src/integrity.rs:1754-1767 | some such order reports nothing if and only if, for each offset, the empty ranges that start there suffice to keep the non-empty ones apart from each other and from what follows |
| Orders.JudgedExactly | forensic/src/integrity.rs:1754-1767 | so an overlap is reported in every order exactly when two ranges share a byte, if and only if a condition on the ranges alone holds |
| Sweeps.NoneInsideSuffices | forensic/src/integrity.rs:1754-1767 | it is enough that no empty range starts at or inside another |
| Integrity.OverlapFoundExactly | forensic/src/integrity.rs:1729-1767 | the same three equivalences for the findings on an image, over the items of its metadata region |
| Tables.AnalysedItems | forensic/src/integrity.rs:1729-1740 | the sweep takes the declared items, at most 2048 and only whole ones; the parameters are sought among at most 256 |
| Tables.RangeExactly | forensic/src/integrity.rs:1741-1752 | each range starts at the item's offset and ends after its length, or at 2^32 - 1 |
| Hidden.EmptyRangeHides | forensic/src/integrity.rs:1754-1767 | a container with two items that share bytes and an empty one where the outer starts: no overlap need be among the findings, and one may be |
| Hidden.EmptyRangeReported | forensic/src/integrity.rs:1754-1767 | a container with an empty item inside another and no two that share a byte: an overlap may be among the findings |
| Sweeps.SharedCount | forensic/src/integrity.rs:1998-2008 | overlap reports number the present entries less the distinct offsets |
| Findings.OverlapsNumbered | forensic/src/integrity.rs:1990-2008 | of a scanned image: the overlap findings number the payload entries in state 6 whose data starts in the container, less their distinct offsets, whatever order the sort leaves |
| Findings.OverlapNames | forensic/src/integrity.rs:2000-2006 | each of them names two such entries with one offset |
| Coverage.AllBlocksPresentExactly | core/src/bat.rs:77-80 | no byte of the disk meets BlockNotPresent if and only if the table has a payload slot for every block |
| Coverage.SlotsBelow | core/src/bat.rs:75 | exactly the first n - n/(ratio + 1) blocks have their entry among the first n |
| Coverage.CapacityExactly | forensic/src/integrity.rs:2041 | the analyser's capacity equals the number of payload slots on whole chunks and is one less otherwise |
| Coverage.ExpectedSuffices | forensic/src/integrity.rs:1842-1862 | a table that passes the size check has a slot for every block |
| Coverage.CapacitySuffices | forensic/src/integrity.rs:2040-2049 | a table that passes the capacity check has a slot for every block |
| Coverage.EitherCheckSuffices | forensic/src/integrity.rs:1842-1862 | if a table passes either check, no read of the disk meets BlockNotPresent |
| Sizes.AbsentMeansPassed | forensic/src/integrity.rs:1821-1840 | each of the two findings is reported exactly when the table has an entry, the analyser knows disk size and chunk ratio, and the check fails; the analysis does not panic |
| Sizes.SilenceMeansCovered | forensic/src/integrity.rs:1828 | on a clean container of which at most one of the two findings is reported, some read meets BlockNotPresent if and only if the table is shorter than eight bytes, or disk size or chunk ratio is unknown to the analyser and the table has fewer payload slots than the disk has blocks |
| Sizes.EmptyTableUnreported | forensic/src/integrity.rs:1828 | a container with an empty table region, on which reader and analyser agree: it opens, neither finding is reported of it, and none of its bytes can be read |
| Sizes.ShortTableUnreported | forensic/src/integrity.rs:1645 | a container of two blocks with the disk size under the second identifier that the reader accepts, and a table of one entry: it opens, neither finding is reported of it, and its second block cannot be read |
| Sizes.WideBlocksPanic | forensic/src/integrity.rs:1850 | a container whose blocks are larger than a chunk: its analysis divides by zero |
| Coverage.NoNarrowing | forensic/src/integrity.rs:1851 | for validated parameters no step of the size formula wraps, and the expected length fits in 32 bits |
| Findings.SizesReported | forensic/src/integrity.rs:1842-2049 | the table length is reported exactly if it is not 8 bytes for each block and each chunk, rounded up to MiB, and the disk size exactly if it exceeds what the whole chunks of the table hold, as long as nothing reaches 2^64 |
| Coverage.BitmapSlotsExactly | core/src/bat.rs:109-120 | all bitmap slots exist if and only if the table has room for whole chunks |
| Coverage.BitmapSlotMissing | forensic/src/integrity.rs:1849-1851 | a disk of 123361 blocks whose table has exactly the expected length but no slot for the last chunk's bitmap, so that its last block cannot be read when partially present |
| Integrity.ParseRegions | forensic/src/integrity.rs:1570-1687 | the layout is that of the first table copy that verifies and names both regions, with the last metadata items that lie in the container |
| Tables.LastFieldIs | forensic/src/integrity.rs:1631-1664 | the analyser takes each parameter from the last item with its identifier and enough bytes before the container's end |
| Integrity.ScanEntries | forensic/src/integrity.rs:1867-1996 | the scan reports each entry by its state, reserved bits, zone, range and bitmap slot, and collects the present offsets |
| Findings.PayloadReported | forensic/src/integrity.rs:1882-1966 | each finding on a payload entry is in the analysis if and only if its state, its bits 3 to 19 and its offset say so; the structural one exactly if a present entry's offset is below 0x50000, in the metadata region, or in the active header's log |
| Findings.BitmapReported | forensic/src/integrity.rs:1925-1935 | a bitmap entry is reported exactly if its state is neither 0 nor 6 |
| Findings.MissingBitmapReported | forensic/src/integrity.rs:1968-1984 | a present entry misses its bitmap exactly if its chunk's bitmap entry is in the table and in state 0 |
| Findings.BitmapSlots | forensic/src/integrity.rs:1925 | the bitmap entry of a chunk is its last one; without a block size or with a sector size of zero there are none |
| Integrity.SlotsAgree | forensic/src/integrity.rs:1925-1981 | the analyser's payload entries and bitmap slots are the reader's |
| Integrity.Analyse | forensic/src/integrity.rs:993-1045 | the gates of the analysis, the order of the modelled findings, and a panic exactly when the table is scanned with a disk size and a chunk ratio of zero |
| Integrity.AnalysisFinds | forensic/src/integrity.rs:1916-1976 | a finding on a block copy, on the table's length or on an entry is reported if and only if the condition it stands for holds of the image |
| Findings.CopyReported | forensic/src/integrity.rs:2114-2182 | a header or table copy is reported exactly if it is bad and the other is good |
| Findings.AcceptedTable | forensic/src/integrity.rs:87-105 | a table copy is good for "regi" and the checksum of its 64 KiB with bytes 4 to 8 cleared |
| Integrity.InScan | forensic/src/integrity.rs:1916-1996 | the scan reports a finding on an entry if and only if the finding's condition holds of that entry |
| Repair.VhdxRepair.CopyBlockWithCrc | forensic/src/repair.rs:234-239 | the destination becomes the source block with its checksum recomputed, and nothing else changes |
| Repair.VhdxRepair.ReplaceBlock | forensic/src/repair.rs:241-269 | a header or region table copy is replaced by the other copy |
| Repair.VhdxRepair.ClearBatReservedBits | forensic/src/repair.rs:271-290 | one entry is cleaned in place, and nothing else changes |
| Repair.VhdxRepair.ZeroBatEntry | forensic/src/repair.rs:292-304 | one entry is zeroed in place, and nothing else changes |
| Repair.VhdxRepair.AttemptRepair | forensic/src/repair.rs:85-217 | where the analysis panics so does the attempt, before writing; otherwise the image becomes the fold of the repairs over the findings, every repairable condition that holds is among them, and the two lists are exactly the repaired and the unrepaired findings |
| Repair.CleanedKeeps | forensic/src/repair.rs:278-279 | clearing the reserved bits keeps state and offset, leaves none set, and is idempotent |
| Repair.ReportedCanFix | forensic/src/repair.rs:97-152 | every reported repair stays inside the image |
| Repair.Frame | forensic/src/repair.rs:231-304 | a byte that no listed repair names never changes |
| Repair.UnrepairedChangeNothing | forensic/src/repair.rs:155-210 | findings that are only listed leave the image alone |
| Repair.Accounting | forensic/src/repair.rs:97-216 | each occurrence of a finding is repaired or listed, never both; only unrepairable ones are listed; the actions are those of the repaired ones, one for one and in order |
| Findings.ChangesListed | forensic/src/repair.rs:97-152 | a byte that repair changes lies in a listed action |
| Findings.ActionsName | forensic/src/repair.rs:241-304 | an action is one of the four copies, at its offset and of its size, or the eight bytes of one entry |
| Repair.EntryRepaired | forensic/src/repair.rs:114-152 | whatever findings hit an entry, and in whatever order, it ends up zero if one of them zeroes it and otherwise keeps state and offset |
| Repair.SlotRepaired | forensic/src/repair.rs:99-113 | a reported copy becomes the other copy, signed; the other stays as it was |
| Fixpoint.OutsideKept | forensic/src/repair.rs:85-217 | a byte that no repair of a finding that holds of the image names is what it was |
| Fixpoint.FarOutside | forensic/src/repair.rs:85-217 | such is every byte outside the header and region table copies and the scanned entries |
| Fixpoint.RawAfter | forensic/src/repair.rs:114-152 | each scanned entry of the repaired image is what the findings on it make of it, if entries and block copies do not get in each other's way |
| Findings.EntryBecomes | forensic/src/repair.rs:114-152 | in plain arithmetic: a payload entry in state 1, or present and pointing below 0x50000, into the metadata region, into the log or past the end, becomes 0; any other present one loses its bits 3 to 19; every other entry stays |
| Findings.EntriesAfterRepair | forensic/src/repair.rs:124-132 | after repair every present payload entry points into the container, at or above 0x50000, outside the metadata region and the log, and has no reserved bit; none is undefined |
| Fixpoint.CopyAfter | forensic/src/repair.rs:99-113 | a bad copy beside a good one becomes the good one, otherwise both copies stay, if the entries that repair rewrites are clear of the copies, and replaced copies of the scanned entries |
| Findings.CopiesBecome | forensic/src/repair.rs:241-269 | the same for each of the four copies by its place |
| Fixpoint.HeadersAfter | forensic/src/repair.rs:99-106 | the active header, and the log it names, are what they were, under the same condition |
| Fixpoint.LayoutAfter | forensic/src/integrity.rs:1570-1687 | the analyser finds the same layout in the repaired image, if also what it is read from is not written by repair |
| Fixpoint.NothingLeft | forensic/src/integrity.rs:1916-1976 | on the repaired image no repairable condition holds, under both conditions |
| Fixpoint.RepairFixpoint | forensic/src/repair.rs:85-217 | a second attempt does not panic, repairs nothing and changes nothing, under both conditions |
| Overlap.SecondRepairNeeded | forensic/src/repair.rs:131-139 | an image whose block table lies inside a header: repairing its one entry breaks that header, so that a second attempt has a repair to make |
| Preserve.RegionsKept | core/src/reader.rs:160-161 | the reader finds the same regions in the repaired image, under the first of these conditions |
| Preserve.Reopens | core/src/reader.rs:148-193 | the repaired image opens, with the same parameters and parent |
| Preserve.EntriesRepaired | core/src/reader.rs:177-183 | the BAT that the reader then parses has each entry as repair leaves it |
| Preserve.TargetKept | core/src/bat.rs:63-140 | a byte whose entry was not zeroed is translated as before |
| Preserve.RepairedByte | forensic/src/repair.rs:85-217 | a byte whose entry was not zeroed reads as before, if what it reads lies clear of what repair may write; a byte whose entry was zeroed reads as the parent's, and read as zero or not at all if the entry was undefined or pointed past the container |
| Preserve.UndefinedKeptExactly | forensic/src/repair.rs:133-141 | zeroing an undefined entry keeps the byte if and only if the parent shows zero there; always without a parent |
| Preserve.RepairedRead | forensic/src/repair.rs:85-217 | a read of such bytes succeeds after repair exactly when it did before, with the same bytes |
| Dirty.RunsKept | core/src/log.rs:19-34 | the repaired image asks for the same log replay, if repair writes nothing into the log |
| Dirty.ReplayedReopens | core/src/reader.rs:148-193 | the repaired image opens after replay, with the same parameters and parent |
| Dirty.EntryPair | core/src/reader.rs:177-183 | after replay, an entry that repair did not zero, or that replay restores, has the state and offset it had, whichever of its bytes replay rewrites; a zeroed one is byte for byte what replay writes there, or zero |
| Dirty.ReplayedByte | forensic/src/repair.rs:85-217 | under a dirty log, a byte whose entry repair did not zero or replay restores reads as before, if what it reads is not written by repair or is restored too; a zeroed entry is byte for byte what replay writes there or zero, and if replay writes nothing there its bytes read as the parent's |
| Sample.RepairShowsParent | core/src/bat.rs:88-90 | a differencing disk whose first byte reads as zero before repair and as the parent's seven afterwards |
| Restore.ReplayRestores | core/src/log.rs:161-192 | a dirty container whose log rewrites the undefined entry that repair zeroes: opened before and after repair, its first byte reads as zero, not as the parent's seven |

## Left out

- File system handles, platform `pread` variants, interrupted reads and their retries: a file is a fixed byte string whose reads may be short.
- I/O errors of a backing, poisoned mutexes, concurrency and the exhaustion of memory: an allocation below 2^63 bytes succeeds.
- The kinds and texts of errors that a read reports to its caller: a failed read is some error.
- Buffer contents after a failed read, inside the requested window.
- The command line tool, examples, fuzz targets and the types of the virtual file system crates.
- Finding texts, codes, severities, technique tables, `summary`, and the disclaimers and reasons of the repair report.
- The analyser's single-field checks: reserved areas and gaps, header pair, identifiers, versions, alignment, region layout, metadata value ranges, items beyond the region, trailing data, ghost data.
- `VirtualDiskSizeUnderreported`, which compares a container offset with a virtual size.
- Conformance of log descriptors to section 2.3.1 of MS-VHDX: field offsets and sector placement are the code's.
- Agreement of the reader's and the analyser's parsers on malformed tables: their length, count and fallback rules differ.
- Integrity.Analyse: does not produce the findings listed above as unmodelled.
- Integrity.AnalysisFinds: is about findings on block copies, entries and the table's length; item overlaps are in `Integrity.OverlapFoundExactly`, log findings in `LogCheck`.
- Repair.VhdxRepair.AttemptRepair: takes the findings of unmodelled checks as the parameter `others`, after the modelled ones; none of them can be repaired.
- Reader.VhdxReader.Seek: release-mode arithmetic; a debug build panics where the sum of signed numbers overflows.
- Log.ApplyEntry: a sector end that overflows 64 bits counts as a panic; a release build reaches it one step later, at the slice.
- Log.CollectEntries: the sort is insertion; `Log.StableOrderUnique` shows that every stable sort gives the same order.
- Replay.PathsAgreeExactly: is about descriptor lists with arbitrary sector contents; on one image the replays of an unsettled list may agree by chance of contents.
- Open.OpenPathsAgree: the condition is sufficient for one image, for the same reason.
- Fixpoint.RepairFixpoint: requires that each scanned entry with a repairable finding shares no byte with a header or region table copy; that no scanned entry shares a byte with a copy that is replaced; and that repair writes neither the metadata region (if it lies in the container and has at least eight bytes) nor the eight bytes of the file parameters, the four of the sector size and the eight of the disk size that the layout is read from. `Overlap.SecondRepairNeeded` shows that it can fail otherwise, not that it must: a checksum may match by chance.
- Preserve.RepairedByte: is about images that open, have a clean log, region tables that count at most 2047 entries, and the clearances of the fixpoint, whose magic repair does not write, and that analyser and reader lay out alike (same regions, same chunk ratio); the same holds of the other results of `Preserve`.
- Dirty.ReplayedByte: the same with a log that repair does not write into and whose runs do not reach the region tables.
- Vfs.OpenBothWays: `Open.EitherWay` is sufficient for one image, as said of `Open.OpenPathsAgree`.
- Sizes.SilenceMeansCovered: is about clean containers in which analyser and reader find the same regions and the analyser has what it knows of block size, chunk ratio and disk size as the reader has it; and about payload entries: `Coverage.BitmapSlotMissing` shows that bitmap slots are not covered.
