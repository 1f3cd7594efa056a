# Proofs about the SatCom library and its transfer tool

A Dafny model of the parts of the repository where bytes have to come back the way they
went in: the LZF compressor and the ROM file system built on it, FAT formatting and
mounting, the remote I/O protocol with its checksums and the directory synchronisation on
top of it, the debugger's circular buffer, and the copy stub that starts a program.
`dafny verify dfyconfig.toml` checks everything.

Loops and objects of the sources are methods and classes here; each is proved against a
specification that is written independently of it: a recursive reading of a stream, long
division of polynomials, a first-in-first-out queue, a directory graph. Bytes are the subset
type `byte`, or `bv8`/`bv32` where the code shifts and exclusive-ors; pointers are indices;
unsigned 32-bit wrap-around in the FAT code is written out (`Wrap`).

| files | what they model |
|---|---|
| LzfFormat, Decompressor | the LZF stream as a recursive function `Expand`, and the loop that replays it |
| LzfParse, LzfLaws, LzfConstant, Compressor | the compressor as a state machine without buffers, what its streams are worth, and the loop that refines it |
| Container | the header in front of a stream, with the raw fallback |
| RomFile, RomLookup | files of a ROM image in chunks, and its packed directory lists |
| FatGeometry, FatFormat | the layout of a formatted volume, and format and mount over a disk that may fail |
| PolyDivision, Crc8, Crc8Burst, Crc32, Crc32Division | long division over GF(2); the two table-driven checksums as its remainders; what CRC-8 detects |
| RemoteIo, SdTransfer | framing over a device that moves any number of bytes per call; download and upload |
| RspTrace, FtdiWrite | cutting GDB traffic into packets; writing to an unreliable USB device |
| CopyStub | an overlapping move, then clearing of work RAM around it |
| Ring, RingProtocol | the circular buffer as a class, and both its sides running at once, byte by byte |
| SdSync | synchronisation in both directions (mode 3) |
| Bytes, Options | big-endian numbers and memcpy; an optional value |

## What was found

- A FAT16 volume mounts with the geometry it was formatted with exactly for 8244 to
  4194151 sectors. Below, mounting reports the wrong type or, for the smallest sizes, a
  wrapped cluster count; 4194152 to 4194304 sectors are formatted as FAT16 and mount as
  FAT32. Every FAT32 size agrees (`FatGeometry.MountAgreesExactlyInBand`,
  `FatGeometry.TopOfFat16MountsAsFat32`).
- A ROM path that goes through a file need not fail: the search continues from that file on
  in the same list, so `f/g` finds the next `g` there, and `f/f` finds `f` itself. The lookup
  of a path's names is plain resolution if and only if it does not go astray in this way,
  which `RomLookup.Astray` says in terms of the directory graph
  (`RomLookup.LookupIsResolve`). An empty component ends the lookup: `a//x` and `a/` give
  what `a` gives, whatever `x` is (`RomLookup.LookupStopsAtEmpty`,
  `RomLookup.LookupIgnoresBehindEmpty`). `RomLookup.PathLookup` covers every path.
- A listing that breaks off, without its end marker, before or inside a reply's header is
  reported as complete, and the header bytes read so far are dropped
  (`RemoteIo.ListingCutInHeader`); success without the end marker only happens after such a
  silence, error or interrupt (`RemoteIo.DoListStr`).
- Two synchronised sides converge if and only if nothing is stuck: a folder that faces a
  file, two files of different sizes that agree in 32 bits, or a file to transfer of 4 GB or
  more stays as it is, with everything below it; a second run transfers nothing and fails on
  the same files (`SdSync.SyncTwice`). What a run leaves on both sides is exact, with or
  without such paths (`SdSync.DoSdSync`).
- The compressor gives up, within four bytes, exactly when its stream does not fit the room
  (`LzfLaws.RoomLaw`), so a buffer is stored raw only when compressing it saves no more than
  that; n equal bytes never take more than three bytes for every 264 and nine
  (`LzfConstant.ConstantStream`), with any hash function.
- A write to the circular buffer reads the read pointer twice. When the comparison finds it
  ahead of the write pointer and the reader brings it around before the room test, the
  difference wraps and the test lets nearly any length through: 2780 bytes then run past the
  ring (`RingProtocol.RaceHappens`). A write keeps the first-in-first-out invariant if and
  only if its test does not overrun in this way (`RingProtocol.Overruns`,
  `RingProtocol.WriteKeepsExactly`).
- With a single input byte the compressor reads a second one, so `LzfCompress` asks for an
  empty output buffer in that case. Its caller compresses from three bytes on only.

## Model

| member | source | states |
|---|---|---|
| Compressor.LzfCompress | satcom_lib/sc_compress.c:85-282 | for every input, output size and hash function into the table: the result is exactly the stream of the state machine, or 0 exactly when the room does not do for it; a non-zero result expands to exactly the input, fits the output size and 32r <= 33n + 31; with n + n/32 + 4 bytes of room it never gives up, and neither do equal bytes with 3(n/264) + 13; nothing outside the output range is written |
| LzfLaws.RoomLaw | satcom_lib/sc_compress.c:160-263 | the room asked for on the way is that of the whole stream and at most four bytes more: what is written fits, and a stream that leaves four bytes is written |
| LzfConstant.ConstantStream | satcom_lib/sc_compress.c:85-282 | whatever the hash function, n equal bytes become at most three bytes for every 264 and nine more |
| LzfLaws.CandidateIsTaken | satcom_lib/sc_compress.c:138-218 | a table entry at a distance of up to 8192 with three equal bytes, and four more to come, becomes a reference of 3 to 264 bytes that ends at the limit, near the end, or at a byte that differs; it takes two bytes up to length 8 and three above |
| LzfLaws.PackedExpands | satcom_lib/sc_compress.c:85-282 | from every sound state on, the stream of the state machine stands for the whole input and takes at most 33/32 of it |
| LzfLaws.PlaceIsEntered | satcom_lib/sc_compress.c:136-144 | a turn without a match enters its place in its slot of the table and changes no other |
| LzfLaws.HashIsLastBytes | satcom_lib/sc_compress.c:35-36 | the rolling hash value is the big-endian number of the last four bytes, or three at the start |
| Container.LzfRoundTrip | satcom_lib/sc_compress.c:85-496 | compressing, then decompressing with room for exactly n bytes, reproduces the input for every hash function |
| Compressor.Advance | satcom_lib/sc_compress.c:138-247 | one turn of the main loop is one step of the state machine: a usable candidate becomes a back reference, everything else a literal; it gives up exactly when the step asks for more room |
| Compressor.MatchLength | satcom_lib/sc_compress.c:155-197 | the scan, unrolled part included, stays inside the input, finds a repetition of 3 to 264 bytes that ends at the limit, near the end of the input, or at a byte that differs, and its length is that of the state machine |
| Compressor.TakeMatch | satcom_lib/sc_compress.c:160-218 | ending the literal run and writing the reference is the reference step of the state machine, in at most four bytes with the next run's control byte |
| Compressor.StopRun | satcom_lib/sc_compress.c:162-163 | back-patching the control byte makes the pending literals a token behind what is written; an empty run gives its byte back |
| Compressor.EmitBackref | satcom_lib/sc_compress.c:202-213 | either spelling of a reference is its token, written behind the stream so far |
| Compressor.AddLiteral | satcom_lib/sc_compress.c:235-248 | a literal extends the run; the thirty-second one ends it and starts the next, as in the state machine |
| Compressor.Rehash | satcom_lib/sc_compress.c:220-230 | after a match exactly its last two places are entered, under the hash values of their bytes |
| Compressor.Finish | satcom_lib/sc_compress.c:250-281 | gives up exactly when fewer than three bytes are left; else the stream ends with the last bytes as literals, within bounds |
| LzfFormat.ExpandAppend | satcom_lib/sc_compress.c:402-496 | a stream in front of another one: expand the first, go on with the second |
| LzfFormat.TokenLayout | satcom_lib/sc_compress.c:414-492 | the three tokens in bits, and exactly when each is read: enough bytes, enough room, a distance inside the output |
| LzfFormat.LiteralRunExpands | satcom_lib/sc_compress.c:76-82 | a literal run appends the input bytes it carries |
| LzfFormat.BackrefExpands | satcom_lib/sc_compress.c:76-82 | a reference appends the next bytes of an input that repeats itself, for every offset up to 8192 and length 3 to 264 |
| LzfFormat.CopyBackRepeats | satcom_lib/sc_compress.c:476-487 | copying byte by byte over an overlap reproduces every periodic continuation |
| LzfFormat.ExpandGrows | satcom_lib/sc_compress.c:402-496 | decoding only appends and never exceeds the output size |
| Decompressor.LzfDecompress | satcom_lib/sc_compress.c:402-496 | replaying any untruncated stream writes exactly what it expands to and returns its length, or 0 when it does not fit or points too far back; nothing outside the output range is written |
| Decompressor.ReplayToken | satcom_lib/sc_compress.c:414-492 | one turn of the loop is one token of the recursive reading |
| Decompressor.CopyReference | satcom_lib/sc_compress.c:476-487 | the in-place copy of an overlapping reference is the byte-by-byte specification |
| Container.CompExec | satcom_lib/sc_compress.c:325-375 | the stored block stands for the buffer and announces its length; it is compressed exactly when the buffer has more than two bytes and its stream fits the room, and then takes the header and that stream, less than the buffer, else one byte more than the buffer; sixteen or more equal bytes are always compressed, to at most 3(n/264) + 14; other memory is unchanged |
| Container.ShortStreamFits | satcom_lib/sc_compress.c:343-361 | a buffer whose stream and header are five bytes shorter than it is compressed |
| Container.DecompExec | satcom_lib/sc_compress.c:577-634 | reading a block gives exactly what it stands for, 0 for a bad header or stream |
| Container.StoreThenLoad | satcom_lib/sc_compress.c:325-645 | storing and reading back is the identity for every buffer below 2 GB, with its length announced in between |
| Container.SetSizeField | satcom_lib/sc_compress.c:554-572 | writing then reading the size field of 1, 2 or 4 bytes gives the number back; nothing else is written |
| Container.PackedStores | satcom_lib/sc_compress.c:577-621 | header, size field and a stream that expands to the data make a block that stores it |
| RomFile.RomfsDecompExec | satcom_lib/sc_romfs.c:58-108 | for every window of a compressed file, in range or not: exactly the part of the file inside the window is written, nothing else; the result is the file's size |
| RomFile.CopyWindow | satcom_lib/sc_romfs.c:87-96 | the bytes of one chunk that lie in the window are appended to those of the chunks before |
| RomFile.ReadChunk | satcom_lib/sc_romfs.c:67-84 | the length prefix and the block give the next bytes of the file and lead to its next chunk |
| RomFile.WindowFits | satcom_lib/sc_romfs.c:97-105 | leaving early behind the window's end loses nothing |
| RomFile.WindowIs | satcom_lib/sc_romfs.c:87-105 | of a whole file a window delivers size bytes from the offset on, or what there is |
| RomFile.ChunkPrepends | satcom_lib/sc_romfs.c:58-108 | any stored block with its length in front can start a longer file, so the chunk format is what a writer would produce |
| RomFile.GetEntrySize | satcom_lib/sc_romfs.c:294-314 | the size of a file, whichever way it is stored; 0 for a folder |
| RomFile.GetEntryData | satcom_lib/sc_romfs.c:316-333 | a read delivers the slice of the contents inside the file for both storage forms; past the end a compressed file is clipped and a raw one goes on into the image |
| RomFile.DeliveredInside | satcom_lib/sc_romfs.c:316-333 | inside the file both storage forms deliver the same slice |
| RomLookup.GetFirstEntry | satcom_lib/sc_romfs.c:162-253 | for every image and path the entry address is that of the component-wise lookup in the directory graph, None without a header |
| RomLookup.SameNameIs | satcom_lib/sc_romfs.c:148-222 | an item matches a name exactly when it is enabled and at each place the bytes are equal or the same ASCII letter in both cases |
| RomLookup.PathIgnoresCase | satcom_lib/sc_romfs.c:192-222 | two paths that differ only in the case of ASCII letters lead to the same entry, from every place in every graph |
| RomLookup.ComponentsJoin | satcom_lib/sc_romfs.c:192-214 | the components of a path hold no slash and, joined by slashes, are the path |
| RomLookup.ListReads | satcom_lib/sc_romfs.h:89-120 | every list of entries can be read where it is written in the packed form |
| RomLookup.LookupIsResolve | satcom_lib/sc_romfs.c:192-245 | for all graphs and names the source's lookup is plain resolution if and only if it does not go astray behind a file |
| RomLookup.PathLookup | satcom_lib/sc_romfs.c:192-245 | for every path, empty components included: the names in front of the first empty one are resolved, with the same exact condition |
| RomLookup.LookupStopsAtEmpty | satcom_lib/sc_romfs.c:192-207 | an empty component ends the lookup where it stands; without any name that is the folder's first entry |
| RomLookup.LookupIgnoresBehindEmpty | satcom_lib/sc_romfs.c:192-207 | an input at which a missing file is reported as found |
| RomLookup.LookupFollows | satcom_lib/sc_romfs.c:215-245 | from any place in a list the lookup finds something exactly when the names follow each other in the graph |
| RomLookup.ThroughFileResolvesNowhere | satcom_lib/sc_romfs.c:192-245 | a path through a file resolves to nothing, and only such a path can go astray |
| RomLookup.LookupThroughFile | satcom_lib/sc_romfs.c:224-245 | in every list, for a file f: exactly when a next g is there from f on, f/g goes astray; f/f always does |
| RomLookup.Enter | satcom_lib/sc_romfs.c:192-245 | one component: found exactly when the graph has it, and the new position is a valid list |
| RomLookup.SearchList | satcom_lib/sc_romfs.c:215-245 | the packed search stops at the first enabled entry of that name up to case, at its address, or reports that there is none |
| RomLookup.CompareFilename | satcom_lib/sc_romfs.c:148-160 | equal exactly when the stored name in capitals is the given one |
| RomLookup.ComponentsAt | satcom_lib/sc_romfs.c:192-214 | scanning for the next slash peels off the path's first component |
| RomLookup.GetNextEntry | satcom_lib/sc_romfs.c:256-292 | returns the first later enabled entry, None without one; what follows it is the rest of them |
| RomLookup.Enumerate | satcom_lib/sc_romfs.c:256-292 | asking until there is no next entry terminates with all later enabled entries, in order, once each |
| RomLookup.LaterEnabledIs | satcom_lib/sc_romfs.c:256-292 | the later enabled entries are exactly the addresses of the enabled items behind the first one, in ascending order |
| FatGeometry.FormattedVolumeMounts | satcom_lib/sdcard/fat_io_lib/fat_format.c:118-350 | the boot sector written for a size below 2^32, read by a mount, gives the same type and geometry if and only if the size is a FAT32 size or in 8244..4194151; the FAT16 sizes above mount as FAT32 |
| FatGeometry.MountAgreesExactlyInBand | satcom_lib/sdcard/fat_io_lib/fat_access.c:120-192 | the same for any sector with those fields |
| FatGeometry.TopOfFat16MountsAsFat32 | satcom_lib/sdcard/fat_io_lib/fat_access.c:149-186 | sizes 4194152 to 4194304 are formatted as FAT16 and mount as FAT32 |
| FatGeometry.MountReads | satcom_lib/sdcard/fat_io_lib/fat_access.c:95-192 | what mounting reads out of a formatted sector, for every size, depends on the recomputed cluster count alone |
| FatGeometry.PartitionedVolumeMounts | satcom_lib/sdcard/fat_io_lib/fat_access.c:82-192 | for every type code that names a partition and every first sector L: the volume's boot sector at L mounts if and only if the size does, with its geometry moved by L |
| FatGeometry.LbaBeginIs | satcom_lib/sdcard/fat_io_lib/fat_access.c:88-113 | the four bytes at 454 are the partition's first sector, least significant byte first, for the type codes 1 to 6, 0x0B, 0x0C, 0x0E and 0x0F; any other code means sector 0 |
| FatGeometry.Fat16Band | satcom_lib/sdcard/fat_io_lib/fat_format.c:80-98 | the wrapped cluster count of a FAT16 volume is in 4085..65524 exactly in that range of sizes |
| FatGeometry.Fat32Band | satcom_lib/sdcard/fat_io_lib/fat_format.c:80-98 | every FAT32 volume has at least 65525 clusters |
| FatGeometry.RegionsFit | satcom_lib/sdcard/fat_io_lib/fat_format.c:186-192 | reserved sectors, FATs, FAT16 root directory and data follow each other inside the volume; a FAT has at least count + 2 entries, and one sector less would not do for the whole volume |
| FatGeometry.LbaInjective | satcom_lib/sdcard/fat_io_lib/fat_access.c:198-204 | sectors of different clusters never coincide, and all are in the data area of the volume |
| FatGeometry.MovedClusters | satcom_lib/sdcard/fat_io_lib/fat_access.c:198-204 | in a partition every cluster's sector is moved by the partition's first sector |
| FatGeometry.BootBytesFields | satcom_lib/sdcard/fat_io_lib/fat_format.c:118-350 | the serialised boot sector has the fields that mounting reads |
| FatGeometry.BootLayout | satcom_lib/sdcard/fat_io_lib/fat_format.c:118-350 | the written boot sector byte by byte: the fields at their offsets, least significant byte first, and the signature |
| FatFormat.FatFs.Format | satcom_lib/sdcard/fat_io_lib/fat_format.c:527-534 | succeeds exactly when no write failed; then boot sector, information sector, FAT head and zeros are on the disk and the handle has the geometry; in any case only metadata sectors changed |
| FatFormat.FatFs.FormatFat16 | satcom_lib/sdcard/fat_io_lib/fat_format.c:429-474 | the same for FAT16, for every size, with failure and an untouched disk above the table |
| FatFormat.FatFs.FormatFat32 | satcom_lib/sdcard/fat_io_lib/fat_format.c:478-523 | the same for FAT32 |
| FatFormat.FatFs.CreateBootSector | satcom_lib/sdcard/fat_io_lib/fat_format.c:118-350 | the sector on the disk is the specified 512 bytes, or nothing is written |
| FatFormat.FatFs.CreateFsInfo | satcom_lib/sdcard/fat_io_lib/fat_format.c:354-391 | the information sector is the specified 512 bytes |
| FatFormat.FatFs.EraseFat | satcom_lib/sdcard/fat_io_lib/fat_format.c:395-425 | the first FAT sector holds the reserved entries (and the FAT32 root cluster), all others of both FATs are zero, no other sector changes |
| FatFormat.FatFs.EraseSectors | satcom_lib/sdcard/fat_io_lib/fat_format.c:102-114 | those sectors are zero and no other changes, also when a write fails half-way |
| FatFormat.CalcClusterSize | satcom_lib/sdcard/fat_io_lib/fat_format.c:80-98 | the table scan finds the first row that is large enough, 0 beyond the table |
| FatFormat.FatFs.Init | satcom_lib/sdcard/fat_io_lib/fat_access.c:46-192 | status and geometry are those of the mount specification for whatever is on the disk, partition table included; a media error only when a read failed or the sector is beyond the disk |
| FatFormat.MountPartition | satcom_lib/sdcard/fat_io_lib/fat_access.c:46-192 | mounting a card whose volume is in a partition: a media error exactly when a read failed, else success with the moved geometry if and only if the size mounts |
| FatFormat.FatFs.LoadParameters | satcom_lib/sdcard/fat_io_lib/fat_access.c:110-192 | the checks in their order, and the recomputed geometry, FAT16 root directory and information sector with their wrap-around |
| FatFormat.FormatThenMount | satcom_lib/sdcard/fat_io_lib/fat_format.c:527-534 | formatting succeeds exactly when no write failed; a mount through a second handle then has the same geometry, root directory included, if and only if the size is mountable, and reports a media error only when a read failed |
| Crc8.CrcUpdate | src/crc.cpp:59-67 | the table loop computes the shift register over every message from every start value |
| Crc8.EntryIsShift8 | src/crc.cpp:37-57 | all 256 table entries are the register after eight steps with polynomial 0x07 |
| Crc8.CrcIsPolynomialRemainder | src/crc.cpp:59-67 | the checksum is the remainder of the message times x^8 under long division by x^8 + x^2 + x + 1 |
| Crc8.RegisterIsRemainder | satcom_lib/sc_common.c:240-257 | the same from every start value |
| PolyDivision.RunIsRemainder | src/crc.cpp:59-67 | for every divisor and start value a shift register holds the remainder of long division |
| Crc8.CrcIsCrcBits | satcom_lib/sc_common.c:240-257 | working byte by byte is working bit by bit |
| Crc8.CrcAppend | src/crc.cpp:59-67 | updating over a, then b, is updating over both |
| Crc8Burst.BurstChangesCrc | src/crc.cpp:59-67 | a burst error of at most eight consecutive bits changes the checksum of a message of any length |
| Crc8Burst.CrcBitsLinear | src/crc.cpp:59-67 | the checksum of a difference is the difference of the checksums |
| Crc32.Crc32Update | satcom_lib/sc_common.c:149-162 | the table loop computes the bit-by-bit register of RFC 1952, section 8, from every start value |
| Crc32Division.Crc32IsPolynomialRemainder | satcom_lib/sc_common.c:149-162 | the checksum of every message, complemented and read lowest bit first, is the remainder of the message's bits times x^32, the first 32 complemented, by the divisor 0x04C11DB7 |
| Crc32Division.ChecksumIsRemainder | satcom_lib/sc_common.c:149-162 | the same when an earlier checksum is continued |
| Crc32Division.FeedIsStep | satcom_lib/sc_common.c:154-159 | one step down with 0xEDB88320 is one step of that division |
| Crc32Division.RegisterIsFeedAll | satcom_lib/sc_common.c:154-159 | working byte by byte is working bit by bit, lowest bit first |
| Crc32.EntryIsDown8 | satcom_lib/sc_common.c:102-148 | all 256 table entries are the register after eight steps with 0xEDB88320 |
| Crc32.TableStep | satcom_lib/sc_common.c:154-159 | one table step is eight bit steps of the whole 32-bit register |
| Crc32.ChecksumAppend | satcom_lib/sc_common.c:149-162 | updating over a, then b, is updating over both |
| RemoteIo.WriteAll | src/xfer.cpp:185-207 | for every pattern of short and idle writes a prefix is sent, all of it exactly on success; failure means an error or an interrupt |
| RemoteIo.ReadExact | src/xfer.cpp:209-240 | for every fragmentation exactly the next bytes are read; failure means an error, an interrupt or the idle limit, and even then no byte is skipped |
| RemoteIo.SendCommand | src/xfer.cpp:242-278 | one frame is sent, or a prefix of it when it fails; an over-long argument sends nothing |
| RemoteIo.TryReadReply | src/xfer.cpp:281-313 | a reply is returned exactly as framed and exactly its frame is consumed; the other results mean trouble or bytes that are no frame |
| RemoteIo.FrameUnique | src/xfer.cpp:242-313 | no byte stream starts with two different frames |
| RemoteIo.SendRename | src/xfer.cpp:360-403 | one frame of command 7 with both paths and a null in between is sent, or a prefix of it; too long together sends nothing |
| RemoteIo.RenameDecodes | src/xfer.cpp:360-403 | such a payload has one reading as an old and a new path |
| RemoteIo.DoListStr | src/xfer.cpp:610-662 | a frame of command 1 with the path is sent, or a prefix of it when it fails; success returns the newline-completed payloads read, up to the empty one or to a header that did not arrive; failure means other trouble or a header that is not of an OK reply |
| RemoteIo.ListingCutInHeader | src/xfer.cpp:645-655 | a listing cut off at or inside a header is reported as complete |
| RemoteIo.ListingSurvivesFragments | src/xfer.cpp:610-662 | a complete listing comes back as exactly its text in every fragmentation, and what follows is left unread |
| RemoteIo.ListingDecodes | src/xfer.cpp:610-662 | a stream has one reading as a complete listing |
| SdTransfer.DoSdDownload | src/xfer.cpp:1202-1294 | a frame of command 8 with the path is sent, whole on success, else a prefix of it, nothing for a path that is too long; success if and only if the stream is an OK reply with the size, that many bytes and their CRC-8, unless an operation on the host's file failed or the device gave trouble |
| SdTransfer.DownloadIntact | src/xfer.cpp:1246-1294 | an undamaged file of any length that was asked for with command 8 arrives whole, and must succeed when neither the host's file nor the device failed |
| SdTransfer.DownloadDamaged | src/xfer.cpp:1246-1294 | a file damaged by one burst of at most eight bits is never reported as a success |
| SdTransfer.ReceiveFile | src/xfer.cpp:1252-1278 | the chunk loop puts the next n bytes into the file, with the checksum of all of them; it fails only on a recorded failure |
| SdTransfer.StreamAndCrc | src/xfer.cpp:446-468 | the file is sent whole and the checksum is that of the file, however it was cut into pieces; it fails only on a recorded read error or trouble |
| SdTransfer.DoSdUpload | src/xfer.cpp:939-1046 | success means that command 4, size, file and its checksum were sent in that order and the device acknowledged them; failure means one of these did not happen, and then a prefix of them was sent, nothing when path or file is too long |
| SdTransfer.SendBody | src/xfer.cpp:992-1034 | size, file and checksum go out in that order, or a prefix of them |
| SdTransfer.UploadDecodes | src/xfer.cpp:992-1034 | the bytes of an upload determine path, file and checksum |
| RspTrace.Tracer.Trace | src/ftdi_gdb.cpp:203-246 | one chunk: printed lines and carry are those of a scan of the old carry with the chunk |
| RspTrace.Tracer.TraceAll | src/ftdi_gdb.cpp:203-246 | any split of a stream into chunks prints the same lines and leaves the same carry as one call |
| RspTrace.ScanAppend | src/ftdi_gdb.cpp:203-246 | scanning a, then its carry with b, is scanning a and b together |
| RspTrace.ScanReads | src/ftdi_gdb.cpp:203-246 | well-formed pieces sent one after the other are cut into the same pieces, with nothing carried |
| RspTrace.LinesAreAll | src/ftdi_gdb.cpp:203-246 | noise is never printed, and without noise every piece is, in order |
| RspTrace.ScanPartitions | src/ftdi_gdb.cpp:203-246 | printed, skipped and carried characters are the input, in order |
| RspTrace.CarryIsIncomplete | src/ftdi_gdb.cpp:203-246 | the carry is empty, or begins with a dollar sign and has no hash with two characters behind it |
| RspTrace.PiecesWellFormed | src/ftdi_gdb.cpp:203-246 | packets run from a dollar sign to two characters behind the first hash; nothing else is taken for one |
| FtdiWrite.WriteAllFtdi | src/ftdi_gdb.cpp:103-174 | accepted bytes are always a prefix of the data, all of it exactly on success; at most 21 attempts between two successes; the first attempt is of 64 bytes or all of the data, each later one at least half of the one before or all that is left; it gives up only after three failed attempts with single bytes |
| FtdiWrite.TryChunk | src/ftdi_gdb.cpp:119-147 | one to three attempts of that size, three when none succeeds, and a prefix of the chunk is accepted |
| FtdiWrite.WriteChunk | src/ftdi_gdb.cpp:112-170 | one turn of the loop: a prefix of the next chunk is accepted, and the sizes of the attempts stay halving |
| CopyStub.Run | satcom_lib/copystub/copystub.c:65-175 | every byte of memory, exactly: the program moved, the flagged ranges zero outside it, the rest unchanged |
| CopyStub.Move | satcom_lib/copystub/copystub.c:87-121 | the target holds the old source bytes, overlapping either way |
| CopyStub.Erase | satcom_lib/copystub/copystub.c:159-173 | exactly the range is zero |
| Ring.CircBuffer.constructor | satcom_lib/debugger/scd_circbuffer.inc.c:20-30 | the buffer starts empty |
| Ring.CircBuffer.Write | satcom_lib/debugger/scd_circbuffer.inc.c:37-76 | the data is appended whole when two places stay free, else nothing changes |
| Ring.CircBuffer.CopyIn | satcom_lib/debugger/scd_circbuffer.inc.c:46-71 | every byte of the buffer after the copy, around the end or not |
| Ring.CircBuffer.Read | satcom_lib/debugger/scd_circbuffer.inc.c:118-149 | everything unread is returned, and the buffer is empty |
| Ring.FitsLeavesTwo | satcom_lib/debugger/scd_circbuffer.inc.c:37-45 | both forms of the room test mean: two places stay free |
| Ring.WriteAppends | satcom_lib/debugger/scd_circbuffer.inc.c:46-76 | data placed in free places is appended to what is unread, wherever the pointers are |
| RingProtocol.FifoInEveryRun | satcom_lib/debugger/scd_circbuffer.inc.c:37-149 | in every interleaving of pointer readings, single copies and pointer updates in which no room test overruns, delivered bytes are a prefix of the accepted ones, equal pointers mean that all were delivered, and nothing is written behind the ring |
| RingProtocol.OrderlyRunKeeps | satcom_lib/debugger/scd_circbuffer.inc.c:37-149 | every such run keeps the invariant |
| RingProtocol.UnracedIsOrderly | satcom_lib/debugger/scd_circbuffer.inc.c:39-66 | a run is of this kind when the reader hands nothing back between the two readings of the read pointer in the branch for a write pointer below, and no length is 2^32 - 1 |
| RingProtocol.NextKeepsExactly | satcom_lib/debugger/scd_circbuffer.inc.c:37-149 | a step keeps the invariant if and only if it is not an overrunning room test |
| RingProtocol.TestKeepsExactly | satcom_lib/debugger/scd_circbuffer.inc.c:39-66 | the room test, on its own reading of the read pointer and with 32-bit wrap-around, keeps it if and only if it does not overrun |
| RingProtocol.WriteKeepsExactly | satcom_lib/debugger/scd_circbuffer.inc.c:37-76 | completing the write keeps the invariant under the same condition; otherwise it writes behind the ring or makes a full ring look empty |
| RingProtocol.PassesUnsafely | satcom_lib/debugger/scd_circbuffer.inc.c:42-66 | exactly the overruns pass the test without fitting |
| RingProtocol.RaceSpills | satcom_lib/debugger/scd_circbuffer.inc.c:39-66 | whenever the reader hands everything back between the readings, a write longer than the rest of the ring runs past its end by the difference |
| RingProtocol.RaceHappens | satcom_lib/debugger/scd_circbuffer.inc.c:20-149 | such a run from the start, in the source's ring: six bytes behind it |
| RingProtocol.CopyInKeeps | satcom_lib/debugger/scd_circbuffer.inc.c:46-71 | a byte written between the room test and the pointer update disturbs no reader |
| RingProtocol.ReleaseKeeps | satcom_lib/debugger/scd_circbuffer.inc.c:118-149 | a reader's pointer update makes room while the writer works with the old pointer |
| RingProtocol.UnreadNeverOverwritten | satcom_lib/debugger/scd_circbuffer.inc.c:46-71 | the writer never touches a byte that is accepted and not delivered |
| RingProtocol.WholeWrite | satcom_lib/debugger/scd_circbuffer.inc.c:37-76 | the steps of one write publish all of it or none |
| RingProtocol.WholeRead | satcom_lib/debugger/scd_circbuffer.inc.c:118-149 | the steps of one read deliver everything published before it |
| SdSync.DoSdSync | src/xfer.cpp:1528-1615 | without trouble, for every two well-formed sides: local entries stay; what only one side had is the same on both unless it is stuck or below a stuck folder; of two files of different sizes the card then holds the local one; exactly the transfers of such blocked files fail, and the counts are exact; entries never change kind; when nothing is to do, only the base folders are made |
| SdSync.SyncTwice | src/xfer.cpp:1528-1615 | the sides converge (same paths, kinds, sizes) if and only if nothing is stuck; the second run transfers nothing, has the same result, and both sides still are the synchronised pair of the first |
| SdSync.GoalsMean | src/xfer.cpp:1554-1612 | the goal trees, path by path, are exactly the synchronised pair as stated on the trees |
| SdSync.SyncedAgain | src/xfer.cpp:1554-1612 | synchronising a synchronised pair changes nothing, transfers nothing and refuses the same files |
| SdSync.BlockedIs | src/xfer.cpp:1554-1612 | a path is blocked exactly when it, or a path that one of its slashes cuts off, is stuck |
| SdSync.BlockedIsCutOff | src/xfer.cpp:1578-1612 | below a stuck folder nothing can be done: the path is missing on one side and so is its folder |
| SdSync.GoalsUnique | src/xfer.cpp:1554-1612 | there is only one pair of goal trees |
| SdSync.StuckStays | src/xfer.cpp:1559-1577 | sides on which something is stuck never agree |
| SdSync.SyncPath | src/xfer.cpp:1554-1612 | the work on one path brings both sides to their goal there when its folders are there, changes nothing and fails the transfer when it is cut off, and never changes another path |
| SdSync.ParentReady | src/xfer.cpp:1545-1554 | when a path that is not blocked is visited, its folder exists on both sides |
| SdSync.PrefixLess | src/xfer.cpp:1545-1547 | the order of the set puts a prefix first |
| SdSync.AllPaths | src/xfer.cpp:1545-1547 | the set holds the paths of both listings, once each, in ascending order |
| SdSync.GoalsConverge | src/xfer.cpp:1559-1577 | the goal trees have the same paths, kinds and sizes, and leave nothing to do |

## Left out

- Compressor.LzfCompress: the length of the stream is given in closed form for equal bytes only; for other inputs it is that of the state machine, with its bounds.
- Decompressor.LzfDecompress: truncated and empty streams, on which the source reads past its input (CHECK_INPUT is 0), are outside its contract; the x86 assembly copy is not part of this model.
- Container.CompExec: buffers of 2 GB and more, where shifting a header byte leaves the source's int.
- RomFile.GetEntryData: a raw read that leaves the image itself.
- RomFile.RomfsDecompExec: empty compressed files, for which the source reads a chunk that is not there.
- RomLookup.GetFirstEntry: the header's CRC is not checked, as in the source's own calls; malformed lists are outside the contract.
- FatFormat.FatFs.Init: the cluster cache, the next free cluster, missing callbacks and the structure packing checks are not modelled.
- FatGeometry.MountAgreesExactlyInBand: the information sector's number is not compared on FAT16, where the field's place holds part of the volume name; the root directory fields are compared on FAT16 only, formatting FAT32 leaves them unset.
- FatFormat.FatFs.EraseFat: the second FAT's first sector is zero as in the source, so equality of the two FATs does not hold and is not stated; the backup boot sector 6 that the FAT32 boot sector announces is never written.
- RemoteIo.WriteAll: the source waits for ever on a device that accepts nothing; here a number of idle writes is followed by the user's interrupt.
- RemoteIo.DoListStr: null arguments, messages and sleeps.
- SdTransfer.DoSdUpload: the branch for a target path with a leading slash; the older upload to a memory address, the warning about long names and the splitting of the target are not modelled.
- SdSync.DoSdSync: equal sizes with different contents are left alone as in the source; listings are complete; joining paths and modes 1 and 2 are not modelled; a missing local folder is made only under an existing one: where a folder above it is missing, a file is in its place, so the source cannot make it either.
- CopyStub.Run: the stub's own code and stack are not in memory, so a target that overwrites them is not told apart.
- Ring.CircBuffer.Write: a length of 2^32 - 1, for which the room test wraps around; RingProtocol covers it.
- RingProtocol.FifoInEveryRun: the reader reads the write pointer once; the disabled reference reader reads it again for its last assignment, so a write published in between would be skipped.
- `scd_cbmemuse`, which returns 128 for an empty buffer, contrary to its comment.
- FAT table walking, long names and the file layer: their sources are not part of this model.
- USB, sockets, threads, console, HTTP and WebDAV, real files and clocks; registers of the SD card, CD block and other hardware.
- CD-ROM file access, URL decoding, 8.3 name checks and the parsing of listings: they would add only easy members.
