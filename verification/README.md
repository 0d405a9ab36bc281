# A verified model of the touch-controlled WAV sampler

The system is a Nios II board that plays WAV files from an SD card under touch control. This project models the
parts of its C code that carry the hard properties and proves those properties with Dafny:

- **FAT reader and playback** (`FatVolume`, `FatFile`, `FatBrowse`, `FatOpen`, `WavePlay`): a one-sector cache over
  the card, the allocation table, reading through a cluster chain, long file names, and the 512-byte streaming buffer
  of the player.
- **Rasteriser** (`Line`, `Graphics`, `Triangle`, `Circle`): Bresenham lines, the span map of triangles, the midpoint
  circle and the overlap-safe block move.
- **SD card stack** (`BitSerial`, `Polynomial`, `Crc`, `SdWire`, `SdCard`): table-driven checksums against polynomial
  division, frames bit by bit on the lines, and the identification sequence against the card state machine of the
  SD Physical Layer Simplified Specification 2.00, section 4.8.
- **I2C master** (`I2c`): the levels on SDA and SCL read back by an independent monitor that follows UM10204,
  sections 3.1.3 to 3.1.6.
- **HAL algorithms** (`LogPrintf`, `Heap`, `FdPool`, `TimeOfDay`): the small printf, slab allocation over sbrk, the
  file-descriptor pool with exclusive open, and the wall clock.

`Words` holds the 32-bit and 16-bit arithmetic of C and the little-endian fields. Code that changes state is modelled
by classes, methods and loops; each is proved against functions on values, and the properties are lemmas about those.
What the outside world decides is a parameter or a nondeterministic choice: whether a block transfer succeeds, the
levels a card or slave drives, when a card is ready, the tick count, what a device's own open or close answers. A ghost
fault counter tells which results depend on transfers that succeeded.

Where the code and its documentation disagree the model follows the code:

- `fatNextCluster` returns an unassigned variable when the table cannot be read (`FatInternal.c:94-126`); the model
  returns an arbitrary value and promises nothing about it.
- `fatDelClusterList` never advances its cluster index (`FatInternal.c:180-211`), so it clears one entry at most and
  reports failure for a chain of more than one cluster; `FatVolume.Volume.DelClusterList` states exactly that.
- 32-bit table values are handed on with their top four bits, and only the low half of the first cluster is used;
  chains are therefore over clusters below 2^28 whose entries hold the next cluster exactly.
- `Fat_FileBrowseNext` does not set the creation date (`FatFileSystem.c:185-202`), and a long name of ten or more
  parts is copied past its buffer; the model keeps the old date and reports such a copy instead of performing it.
- `waveplay_start` uses `bSuccess` unassigned when the file cannot be opened (`audio_f.c:153-170`); the model takes an
  arbitrary value.
- The characters that `fatIsValidDir` does not take for the first of a name lack the equals sign (`FatInternal.c:243`);
  and a short name without extension is composed with a dot behind it (`FatFileSystem.c:249-255`), so it is opened as
  `NAME.` only.
- After a failed read `Fat_FileBrowseNext` evaluates `fatIsLastDir` of a null entry before it looks at `bError`
  (`FatFileSystem.c:136-138`, `FatFileSystem.c:206`); either way the search ends without a find, and the model treats
  the read at address zero as harmless.
- The player loads samples through `pSample`, a pointer to halfwords (`audio_f.c:237`), from a buffer that stands on a
  word boundary because a pointer precedes it (`audio_f.h:41-43`). At an odd position C leaves those loads undefined;
  the model sends arbitrary frames there.
- Playing exactly the data needs more than a four-byte aligned offset and size: data that ends within the first block
  must begin at an even offset and fill that block's whole frames, because the first buffer is always played as if it
  were full.
  `WavePlay.PlaysExactlyIff` has the exact condition.
- The circle starts from `(5 - 4r)/4` cut towards zero, which is `2 - r` rather than the midpoint value; the ring of
  pixels is the one defined by `Circle.OnRing`.
- `alt_fd_lock` stops below the high-water mark (`alt_fd_lock.c:61`), so a granted lock need not mean sole use;
  `FdPool.SoleOwnerAtTheMark` and `FdPool.SoleOwnerExactly` say when it does.
- `settimeofday` multiplies in 32 bits where `gettimeofday` uses 64 (`alt_settod.c:84`, `alt_gettod.c:93`);
  `TimeOfDay.SetThenGet` says when that is harmless.
- `mcount_allocate` does not look whether `sbrk` failed (`alt_gmon.c:139`); `Heap.Allocator.Allocate` says what it
  then hands out.

Error numbers (`EACCES` and the like) are those of newlib; errno.h is not part of this model.

To verify the project: `dafny verify dfyconfig.toml`.

## Model

| member | source | states |
|---|---|---|
| `FatVolume.Volume.constructor` | C-Code/KBS/terasic_fat/FatInternal.c:394-517 | a mounted volume has nothing cached; the cache invariant holds from the start |
| `FatVolume.Volume.ReadSecter` | C-Code/KBS/terasic_fat/FatInternal.c:333-344 | on success the cached sector number and bytes are those of the disk, a hit leaves the cache alone, a failed transfer empties it; the cache invariant holds either way |
| `FatVolume.EntryAddressing` | C-Code/KBS/terasic_fat/FatInternal.c:110-118 | sector number and offset computed for a cluster address exactly the entry of the table seen as one flat array, for 16-bit and 32-bit tables |
| `FatVolume.Volume.ReadEntry` | C-Code/KBS/terasic_fat/FatInternal.c:111-120 | reading through the cache yields the flat entry, and an entry is classified unused exactly when the flat one is |
| `FatVolume.Volume.NextCluster` | C-Code/KBS/terasic_fat/FatInternal.c:92-131 | without a failed transfer the answer is the entry's value if its counted bits are not zero and not among the sixteen highest, or among the eight highest, and 0 otherwise; the cache invariant holds |
| `FatVolume.Volume.FindDirectory` | C-Code/KBS/terasic_fat/FatInternal.c:348-361 | the 32 bytes found in the cache are directory entry number index of the root directory, across sector boundaries |
| `FatVolume.Volume.FindUnusedCluster` | C-Code/KBS/terasic_fat/FatInternal.c:133-166 | when reads succeed the answer is the least cluster from 2 on whose flat entry is unused; when one fails it is -1 |
| `FatVolume.ClearingAnEntry` | C-Code/KBS/terasic_fat/FatInternal.c:203-208 | writing the table sector back after clearing an entry makes that flat entry unused and changes no other entry of the table |
| `FatVolume.EntriesApart` | C-Code/KBS/terasic_fat/FatInternal.c:187 | different clusters whose entries share a sector have entries at disjoint bytes of it |
| `FatVolume.Volume.DelClusterList` | C-Code/KBS/terasic_fat/FatInternal.c:169-216 | one entry at most is cleared, all others stay; success exactly when the start cluster was the last of its chain, so a longer chain is cut but reported as a failure; the cache invariant is lost only when a block write fails, and then the disk is as before, the answer is failure, and the buffer holds the cleared entry that the disk does not |
| `FatVolume.FreeIsZero` | C-Code/KBS/terasic_fat/FatInternal.c:133-166 | the least unused cluster is the least one whose counted entry bits, 16 or 28 of them, are zero |
| `FatFile.ClusterSeqIsQuotient` | C-Code/KBS/terasic_fat/FatFileSystem.c:365-377 | every shift path computes the number of the cluster a position falls in |
| `FatFile.OffsetIsDifference` | C-Code/KBS/terasic_fat/FatFileSystem.c:365-377 | every shift path computes the same 32-bit offset from the handle's cluster |
| `FatFile.PhysicalSecterIsFirst` | C-Code/KBS/terasic_fat/FatFileSystem.c:401-406 | every shift path computes the first sector of a cluster that lies on the disk |
| `FatFile.ContentPiece` | C-Code/KBS/terasic_fat/FatFileSystem.c:407-438 | any piece of any sector of any cluster of the chain stands at one computed place of the concatenated clusters |
| `FatFile.NextInChain` | C-Code/KBS/terasic_fat/FatInternal.c:92-131 | the table leads from each cluster of a chain to the next, which is never 0 |
| `FatFile.ChainFollows` | C-Code/KBS/terasic_fat/FatInternal.c:92-131 | clusters on the disk whose entries hold each the next one, below 0xFFF0 or 0xFFFFFF0, are a chain |
| `FatFile.ClustersApart` | C-Code/KBS/terasic_fat/FatFileSystem.c:401-406 | different clusters share no sector |
| `FatFile.FileByte` | C-Code/KBS/terasic_fat/FatFileSystem.c:401-438 | byte o of sector s of the k-th cluster c of a file is byte o of sector dataEntrySecter + (c - 2) * secPerCluster + s of the disk |
| `FatFile.WriteElsewhere` | C-Code/KBS/terasic_fat/FatFileSystem.c:401-406 | overwriting a sector that belongs to no cluster of the chain leaves the bytes of the file as they were |
| `FatFile.WriteInFile` | C-Code/KBS/terasic_fat/FatFileSystem.c:401-406 | for a chain without repeats, overwriting sector s of its k-th cluster changes exactly the 512 bytes from k clusters and s sectors on |
| `FatFile.CopySecter` | C-Code/KBS/terasic_fat/FatFileSystem.c:411-434 | one sector's worth: what is copied continues the bytes already in the buffer, by the 512-byte branch and by the partial one |
| `FatFile.ReadFromCluster` | C-Code/KBS/terasic_fat/FatFileSystem.c:407-438 | the sector loop over one cluster leaves the buffer filled up to the request or to the end of the cluster |
| `FatFile.FileHandle.constructor` | C-Code/KBS/terasic_fat/FatFileSystem.c:319-329 | a fresh handle satisfies the handle invariant for the chain that begins at its first cluster |
| `FatFile.FileHandle.FileSeek` | C-Code/KBS/terasic_fat/FatFileSystem.c:464-496 | the new position for each origin with 32-bit wrap, and the handle invariant afterwards, also for an unknown origin |
| `FatFile.FileHandle.MoveToCluster` | C-Code/KBS/terasic_fat/FatFileSystem.c:364-397 | the walk from the remembered cluster ends at the cluster that holds the position, with the offset into it |
| `FatFile.FileHandle.FileRead` | C-Code/KBS/terasic_fat/FatFileSystem.c:346-461 | for any chain inside which the request lies, the buffer holds exactly the requested slice of the concatenated clusters, the position advances by the request, and the handle still names cluster ClusterSeq of the chain with the position in or at the end of it; nothing past the request is written; a closed handle changes nothing |
| `FatBrowse.ComposeShortFilename` | C-Code/KBS/terasic_fat/FatFileSystem.c:242-257 | the buffer begins with name, dot, extension and a zero, each part up to its first zero or blank; the rest is untouched |
| `FatBrowse.VisitEntry` | C-Code/KBS/terasic_fat/FatFileSystem.c:140-206 | one pass of the search loop does to order number, flag and name buffer what the entry calls for, and tells when the copy would leave the buffer |
| `FatBrowse.NameEntryRead` | C-Code/KBS/terasic_fat/FatFileSystem.c:141-171 | an entry laid out as the FAT specification describes is taken for a long-name entry with its order number and its 13 characters in order |
| `FatBrowse.CollectedStep` | C-Code/KBS/terasic_fat/FatFileSystem.c:163-172 | writing part m into the buffer in front of the later parts gives the buffer collected from part m on |
| `FatBrowse.LongNameRoundTrip` | C-Code/KBS/terasic_fat/FatFileSystem.c:120-210 | for every name of 1 to 9 parts laid out last part first before its short entry, anywhere in the directory and with any skipped entries before and between, the search finds that short entry and the whole name, zero-padded |
| `FatBrowse.EntryReported` | C-Code/KBS/terasic_fat/FatFileSystem.c:185-202 | what is reported of a short entry laid out byte by byte is its own attributes, dates, cluster and size, but for the creation date |
| `FatBrowse.FirstByte` | C-Code/KBS/terasic_fat/FatInternal.c:242-259 | an entry is in use exactly when its first character is none of those listed |
| `FatBrowse.FileFound` | C-Code/KBS/terasic_fat/FatFileSystem.c:120-210 | a short entry given by its bytes, with the archive or directory flag and an ordinary first character, is found behind its name parts and reported with its own flags, dates, cluster and size |
| `FatBrowse.LabelRefused` | C-Code/KBS/terasic_fat/FatFileSystem.c:174-180 | a volume label, or anything else without the archive and directory flags, behind name parts ends the search |
| `FatBrowse.Browser.constructor` | C-Code/KBS/terasic_fat/FatFileSystem.c:109-118 | browsing begins before entry 0 |
| `FatBrowse.Browser.BrowseNext` | C-Code/KBS/terasic_fat/FatFileSystem.c:120-210 | from any index the outcome, the name buffer, the index and the reported fields are those of the search over the directory as a sequence of entries; a failed read reports nothing found |
| `FatOpen.StrippedWide` | C-Code/KBS/terasic_fat/FatFileSystem.c:299-309 | stripping the two-byte characters of an ASCII name gives its text without blanks |
| `FatOpen.LongNamesEnd` | C-Code/KBS/terasic_fat/FatFileSystem.c:299-308 | the stripping loop always meets a zero character inside the name buffer, whatever the directory holds |
| `FatOpen.Strip` | C-Code/KBS/terasic_fat/FatFileSystem.c:294-309 | the loop computes the name up to its first zero character without zero bytes and blanks |
| `FatOpen.OpenByLongName` | C-Code/KBS/terasic_fat/FatFileSystem.c:290-317 | a file whose long name spells a text is what opening that text without blanks finds, behind any entries whose names do not match |
| `FatOpen.OpenAmongFiles` | C-Code/KBS/terasic_fat/FatFileSystem.c:290-317 | in a directory of any number of files with long names, opening a text finds the first file whose text agrees with it, blanks apart |
| `FatOpen.BlankLeftOut` | C-Code/KBS/terasic_fat/FatFileSystem.c:297-308 | a blank anywhere in a name makes no difference to what it is compared with |
| `FatOpen.OpenByShortName` | C-Code/KBS/terasic_fat/FatFileSystem.c:310-313 | a file with an 8.3 entry only is opened by name, dot and extension in any mixture of letter cases, and by no other text |
| `FatOpen.FileOpen` | C-Code/KBS/terasic_fat/FatFileSystem.c:282-335 | the handle is made from the first entry the browser stops at whose name matches; no match, a name that leaves its buffer or a failed read gives no handle |
| `WavePlay.Player.Start` | C-Code/KBS/audio_f.c:152-204 | with reads that succeed the player holds the first block and the positions its header gives, and the file position equals the read counter |
| `WavePlay.Player.ReadBlock` | C-Code/KBS/audio_f.c:223-230 | the next block, or the rest of the data, is what arrives in the buffer, and the file position still equals the read counter |
| `WavePlay.Player.SendFrames` | C-Code/KBS/audio_f.c:236-250 | from an even position the frames sent are those of the unplayed part of the buffer, found at position modulo 512; from an odd one, where C leaves the halfword loads undefined, only their number is promised |
| `WavePlay.Player.Execute` | C-Code/KBS/audio_f.c:208-255 | each call before the end takes the playing machine one step over the bytes of the file, keeps the file handle, and sends exactly that step's frames; at the end it sends nothing, restarts from the first block and reports success |
| `WavePlay.Player.PlayOn` | C-Code/KBS/audio_f.c:208-255 | over any number of successive calls up to the restart, the DAC receives exactly the frames of the bytes the playing machine sends, and handle and positions stay in step with the file |
| `WavePlay.Player.PlaySong` | C-Code/KBS/audio_f.c:152-255 | from start to restart, a supported file whose data meets the frame condition is played whole: the DAC receives exactly the frames of the data, in order, each once, after a number of calls computed from offset and size; and if those bytes are 16-bit stereo samples written low byte first, left before right, it receives exactly these samples |
| `WavePlay.PcmFrames` | C-Code/KBS/audio_f.c:236-250 | the frames of bytes written low byte first, left before right, are the samples written |
| `WavePlay.OneCallLater` | C-Code/KBS/audio_f.c:208-255 | one call after k is call k + 1: positions, bytes sent and even loads |
| `WavePlay.PlaysRest` | C-Code/KBS/audio_f.c:219-252 | from a block boundary, data of whole frames is played to its end, each byte once and in order, in one call for each block |
| `WavePlay.NeverEnds` | C-Code/KBS/audio_f.c:239-252 | from a block boundary, data that ends inside a frame is never finished |
| `WavePlay.PlaysExactlyIff` | C-Code/KBS/audio_f.c:208-255 | over the calls between start and restart the bytes sent, and so the frames, are exactly the data's, in order, each once, with every load at an even address, if and only if the data begins at an even offset and, ending in the first block, fills that block's whole frames, or, longer, begins and ends on a frame boundary |
| `Line.NearestPixel` | C-Code/KBS/graphic_lib/simple_graphics.c:614-653 | the minor coordinate of each step is the only one within half a pixel of the exact line, halves counting on one side only |
| `Line.NextPixel` | C-Code/KBS/graphic_lib/simple_graphics.c:624-631 | the sign of the decision variable tells which pixel is next, and its update keeps it equal to the error of the pixel reached |
| `Line.EndPoints` | C-Code/KBS/graphic_lib/simple_graphics.c:595-654 | the first pixel is the start and the last the end point, in all octants |
| `Line.PixelsAreNearest` | C-Code/KBS/graphic_lib/simple_graphics.c:595-654 | the pixels of a line are exactly the points of its box within half a pixel of the exact line along the minor axis |
| `Line.PixelsByDistance` | C-Code/KBS/graphic_lib/simple_graphics.c:595-654 | the same written out: twice the distance from the exact line, times the major extent, lies above minus that extent and at most at it |
| `Line.PixelCount` | C-Code/KBS/graphic_lib/simple_graphics.c:595-654 | a line has max(dx, dy) + 1 pixels |
| `Graphics.Frame.DrawSlopedLine` | C-Code/KBS/graphic_lib/simple_graphics.c:595-654 | exactly the pixels of the line take the colour and every other pixel stays, also where the unsigned coordinates wrap after the last pixel |
| `Graphics.Frame.MoveBlock` | C-Code/KBS/graphic_lib/simple_graphics.c:177-198 | for distances that are not positive the destination holds the original source even where they overlap, exactly the vacated pixels take the fill colour and nothing else changes; for other distances nothing changes |
| `Triangle.PutPixelInSpanMap` | C-Code/KBS/graphic_lib/simple_graphics.c:905-916 | a map of the row-wise extremes of a point set becomes the map of that set with one point more |
| `Triangle.ScanEdges` | C-Code/KBS/graphic_lib/simple_graphics.c:928-996 | the map becomes that of the points so far and all pixels of the edge taken from left to right |
| `Triangle.Crossing` | C-Code/KBS/graphic_lib/simple_graphics.c:928-996 | in every row an edge passes, flat or steep, one of its pixels is within half a column of the exact crossing |
| `Triangle.EdgeSide` | C-Code/KBS/graphic_lib/simple_graphics.c:928-996 | that pixel lies on the far side of any lattice point from which the exact crossing does |
| `Triangle.SameSide` | C-Code/KBS/graphic_lib/simple_graphics.c:1037-1043 | a weighted mean of the corners lies on one side of all three directed edges |
| `Triangle.OutlineEncloses` | C-Code/KBS/graphic_lib/simple_graphics.c:1037-1043 | in the row of every lattice point of the exact closed triangle the scans visit a pixel at or left of it and one at or right of it, degenerate triangles included |
| `Triangle.ScanTriangle` | C-Code/KBS/graphic_lib/simple_graphics.c:1022-1043 | every row from top to bottom has a set span, equal to the extremes of the scanned pixels, and every lattice point of the exact triangle lies in its row's span |
| `Circle.KeptByStep` | C-Code/KBS/graphic_lib/simple_graphics.c:676-683 | each pass keeps p equal to (x+1)^2 + y^2 - y + 1 - r^2 and the point within y+1 of the circle's equation |
| `Circle.RingUnique` | C-Code/KBS/graphic_lib/simple_graphics.c:676-685 | at most one point of a column lies on the ring |
| `Circle.RingEnds` | C-Code/KBS/graphic_lib/simple_graphics.c:676 | beyond the column where the loop stops the ring has no point above the diagonal |
| `Circle.RingNearCircle` | C-Code/KBS/graphic_lib/simple_graphics.c:666-687 | the true circle passes each ring point less than a pixel above or below it |
| `Circle.OctantDone` | C-Code/KBS/graphic_lib/simple_graphics.c:676-685 | the points plotted in an octant are exactly those of the ring above the diagonal |
| `Circle.RingDrawn` | C-Code/KBS/graphic_lib/simple_graphics.c:786-895 | mirrored into the eight octants the plotted points are exactly the ring around the centre |
| `Circle.CornersMovedApart` | C-Code/KBS/graphic_lib/simple_graphics.c:786-895 | with straight sides the pixels of a point are those of the circle with its quadrants moved apart by the side lengths |
| `Circle.BoxDrawn` | C-Code/KBS/graphic_lib/simple_graphics.c:741-760 | the round corners of a box are exactly the ring with its quadrants moved apart |
| `Circle.DrawCircle` | C-Code/KBS/graphic_lib/simple_graphics.c:666-687 | for every radius from 2 on the loop ends and the pixels set are exactly those of the ring; smaller radii give the points listed |
| `Circle.DrawCorners` | C-Code/KBS/graphic_lib/simple_graphics.c:741-760 | with unsigned x and y the points listed are again those of the ring, since each detour through unsigned arithmetic returns the signed value, and the pixels are exactly the ring with its quadrants moved apart by the side lengths |
| `Circle.SamePixels` | C-Code/KBS/graphic_lib/simple_graphics.c:741-760 | any two listings of the octant set the same pixels, so the circle and the box corners with no straight sides agree |
| `Polynomial.RunLinear` | C-Code/KBS/terasic_sdcard/crc16.c:39-46 | the checksum register is linear in its start and its input bits |
| `Polynomial.RegisterIsRemainder` | C-Code/KBS/terasic_sdcard/crc16.c:39-46 | the shift register computes the remainder of the message followed by as many zeros as the checksum has bits |
| `Polynomial.Division` | C-Code/KBS/terasic_sdcard/crc16.c:39-46 | what is called the remainder is one: the bits equal the quotient times the divisor plus it, and it has no more coefficients than the checksum has bits |
| `Polynomial.DivisorsWritten` | C-Code/KBS/terasic_sdcard/crc16.c:4-37 | the divisors are x^16+x^12+x^5+1 and x^7+x^3+1, coefficient by coefficient |
| `Polynomial.RunPacked` | C-Code/KBS/terasic_sdcard/crc16.c:42-43 | adding up to sixteen bits at once and then shifting gives the register of feeding them one by one |
| `Crc.Entry16` | C-Code/KBS/terasic_sdcard/crc16.c:4-37 | each of the 256 table entries is its index, in the top coefficients, times x^8 modulo x^16+x^12+x^5+1 |
| `Crc.Entry7` | C-Code/KBS/terasic_sdcard/crc7.c:13-46 | each of the 256 table entries is its index times x^8 modulo x^7+x^3+1 |
| `Crc.SevenBits` | C-Code/KBS/terasic_sdcard/crc7.c:13-51 | every table entry is below 128, so twice a checksum is always a table index |
| `Crc.Step16` | C-Code/KBS/terasic_sdcard/crc16.c:42-43 | one pass of the loop is eight steps of the shift register |
| `Crc.Step7` | C-Code/KBS/terasic_sdcard/crc7.c:48-51 | one table step is eight steps of the seven-bit register |
| `Crc.Crc16` | C-Code/KBS/terasic_sdcard/crc16.c:39-46 | the loop over a buffer computes the shift register over its bits |
| `Crc.Crc7Byte` | C-Code/KBS/terasic_sdcard/crc7.c:48-51 | a checksum below 128 is taken to a checksum below 128 |
| `Crc.Crc7` | C-Code/KBS/terasic_sdcard/crc7.c:63-68 | the loop continues the register from the checksum passed in and keeps it below 128 |
| `Crc.Composes` | C-Code/KBS/terasic_sdcard/crc7.c:63-68 | a checksum resumed on a second buffer is the checksum of the two buffers together |
| `Crc.Checksum16IsRemainder` | C-Code/KBS/terasic_sdcard/crc16.c:39-46 | for every byte sequence crc16 is the remainder modulo x^16+x^12+x^5+1 |
| `Crc.Checksum7IsRemainder` | C-Code/KBS/terasic_sdcard/crc7.c:63-68 | for every byte sequence crc7 is the remainder modulo x^7+x^3+1 |
| `Crc.Checksum16Divides` | C-Code/KBS/terasic_sdcard/crc16.c:39-46 | as polynomials over the field of two elements, the block times x^16 equals a quotient times x^16+x^12+x^5+1 plus the sixteen coefficients of its crc16 |
| `Crc.Checksum7Divides` | C-Code/KBS/terasic_sdcard/crc7.c:63-68 | the block times x^7 equals a quotient times x^7+x^3+1 plus the seven coefficients of its crc7 |
| `Crc.FieldMatches` | C-Code/KBS/terasic_sdcard/sd_hal.c:205-208 | a checksum field is right exactly when the register fed block and field ends at zero |
| `Crc.BurstDetected` | C-Code/KBS/terasic_sdcard/sd_hal.c:205-208 | no burst of at most sixteen wrong bits in block and field leaves the field matching |
| `SdWire.Host.SendCmd` | C-Code/KBS/terasic_sdcard/sd_hal.c:55-76 | the levels clocked out on CMD are the bits of the command, most significant first |
| `SdWire.Host.GetResponse` | C-Code/KBS/terasic_sdcard/sd_hal.c:81-136 | an answer is taken exactly when a start bit comes within 22 samples and a low bit follows; the bytes stored are the bits sampled from the start bit on |
| `SdWire.ResponseArrives` | C-Code/KBS/terasic_sdcard/sd_hal.c:81-136 | a response that begins within 22 samples is taken, and what is stored is that response |
| `SdWire.Host.WriteData1` | C-Code/KBS/terasic_sdcard/sd_hal.c:228-341 | the levels written are start bit, data, checksum and end bit; success exactly when DAT0 is high within the next 32 samples |
| `SdWire.Host.WriteData4` | C-Code/KBS/terasic_sdcard/sd_hal.c:228-341 | the values written are a zero, the high and low half of each byte, and 15; success as in one-bit mode |
| `SdWire.Host.ReadData1` | C-Code/KBS/terasic_sdcard/sd_hal.c:139-226 | success exactly when a start bit comes within 9002 samples, the checksum field matches the data and the end bit is high; the buffer holds the data bits either way |
| `SdWire.Host.ReadData4` | C-Code/KBS/terasic_sdcard/sd_hal.c:139-226 | success exactly when a start nibble comes within 9002 samples; the buffer holds the nibbles sampled |
| `SdWire.RoundTrip1` | C-Code/KBS/terasic_sdcard/sd_hal.c:139-341 | one-bit mode: reading what writing put on the line, after any tolerated wait, succeeds with the same bytes |
| `SdWire.BurstRejected` | C-Code/KBS/terasic_sdcard/sd_hal.c:197-213 | one-bit mode: a nonzero burst of at most sixteen bits in data and checksum makes the read fail |
| `SdWire.RoundTrip4` | C-Code/KBS/terasic_sdcard/sd_hal.c:139-341 | four-bit mode: reading what writing put on the lines gives the same bytes for every length |
| `BitSerial.BitOfByte` | C-Code/KBS/terasic_sdcard/sd_hal.c:55-78 | bit j of byte i of what is clocked out stands at 8i + j, the most significant one first |
| `SdWire.Frame1Levels` | C-Code/KBS/terasic_sdcard/sd_hal.c:250-315 | a one-bit frame is low at first and high at last, with each byte's bits, most significant first, and then the checksum's in between |
| `SdWire.Frame4Levels` | C-Code/KBS/terasic_sdcard/sd_hal.c:250-315 | a four-bit frame is all low at first and all high at last, with the high and the low half of each byte in between |
| `SdWire.ReadyPoll` | C-Code/KBS/terasic_sdcard/sd_hal.c:317-327 | the card's answer is awaited until DAT0 is high, for 32 samples at most |
| `SdCard.ArrayToU32` | C-Code/KBS/terasic_sdcard/sd_protocol.c:928-938 | the loop reads four bytes as one word, most significant first |
| `SdCard.WordBytes` | C-Code/KBS/terasic_sdcard/sd_protocol.c:928-938 | a word sent byte by byte is read back |
| `SdCard.Command` | C-Code/KBS/terasic_sdcard/sd_protocol.c:80-99 | the frame built carries the right checksum and end bit, so the card takes it with the intended index and argument |
| `SdCard.R1IsGood` | C-Code/KBS/terasic_sdcard/sd_protocol.c:178-215 | a status response passes the checks exactly when its status word is the expected one |
| `SdCard.R6IsGood` | C-Code/KBS/terasic_sdcard/sd_protocol.c:373-409 | the address response passes exactly when the card was in the identification state, and the address is the one published |
| `SdCard.R3IsGood` | C-Code/KBS/terasic_sdcard/sd_protocol.c:249-279 | the conditions response passes exactly when its power-up bit is set, and yields the register |
| `SdCard.CMD8` | C-Code/KBS/terasic_sdcard/sd_protocol.c:102-161 | sends the voltage and pattern, and accepts exactly the echo of both with checksum and end bit right |
| `SdCard.CMD55` | C-Code/KBS/terasic_sdcard/sd_protocol.c:164-220 | accepts exactly a status of an application command, ready, in the expected state |
| `SdCard.ACMD41` | C-Code/KBS/terasic_sdcard/sd_protocol.c:223-286 | sends the masked conditions and accepts exactly a ready card's register |
| `SdCard.ReadRegister` | C-Code/KBS/terasic_sdcard/sd_protocol.c:291-350 | accepts exactly a 17-byte response with its header, checksum and end bit right |
| `SdCard.CMD3` | C-Code/KBS/terasic_sdcard/sd_protocol.c:355-418 | accepts exactly an address response from the identification state and returns the address |
| `SdCard.CMD7` | C-Code/KBS/terasic_sdcard/sd_protocol.c:537-595 | accepts exactly the status of a card that was in stand-by |
| `SdCard.CMD16` | C-Code/KBS/terasic_sdcard/sd_protocol.c:598-659 | accepts exactly the status of a card that was in the transfer state |
| `SdCard.AppCommand` | C-Code/KBS/terasic_sdcard/sd_protocol.c:663-783 | accepts exactly an application command's status in the expected state |
| `SdCard.OnePoll` | C-Code/KBS/terasic_sdcard/sd_lib.c:130-147 | what one more ACMD41 poll finds decides between inactive, ready and still busy, and what each says about the card as a whole |
| `SdCard.WaitReady` | C-Code/KBS/terasic_sdcard/sd_lib.c:127-151 | for any number of busy polls the loop succeeds exactly on the cards that take the voltage, that the host can address, and that are ready before a poll ends late |
| `SdCard.SupportedPowersUp` | C-Code/KBS/terasic_sdcard/sd_lib.c:113-128 | what the host offers admits exactly the version 2 cards of either capacity that take a voltage of bits 15 to 23, and the older ones of standard capacity that take the voltage of bit 18 |
| `SdCard.Identify` | C-Code/KBS/terasic_sdcard/sd_lib.c:153-168 | from the ready state the card reaches stand-by with a published address, by commands it carries out |
| `SdCard.Select` | C-Code/KBS/terasic_sdcard/sd_lib.c:174-208 | from stand-by the card reaches the transfer state with block length 512 exactly when its address is not 0 |
| `SdCard.WidenBus` | C-Code/KBS/terasic_sdcard/sd_lib.c:210-238 | in the transfer state the bus is set to four bits by commands the card carries out |
| `SdCard.Init` | C-Code/KBS/terasic_sdcard/sd_lib.c:85-238 | from any powered state: success exactly on the version 2 cards, of standard or high capacity, that take a voltage of window bits 15 to 23, and on the older standard ones that take that of bit 18, ready in time and with a nonzero address; the capacity reported is the card's; then the card is in the transfer state with block length 512 and the bus width of the build, and every command since the last CMD0 was one the card carried out |
| `I2c.Bus.StartCondition` | C-Code/KBS/terasic_lib/I2C.c:174-190 | the monitor sees one START and nothing else, from an idle bus and from a low clock |
| `I2c.Bus.StopCondition` | C-Code/KBS/terasic_lib/I2C.c:193-203 | the monitor sees one STOP and the bus is left free |
| `I2c.Bus.WriteByte` | C-Code/KBS/terasic_lib/I2C.c:205-242 | the monitor sees the eight bits most significant first and the slave's acknowledge bit, which is what is returned |
| `I2c.Bus.ReadByte` | C-Code/KBS/terasic_lib/I2C.c:244-280 | the byte returned is the one the slave shifted out, and the monitor sees it with the master's acknowledge bit |
| `I2c.Bus.Write` | C-Code/KBS/terasic_lib/I2C.c:67-94 | the monitor decodes START, the three bytes up to and including the first refused, STOP; success exactly when all were acknowledged; the bus is free again |
| `I2c.Bus.Read` | C-Code/KBS/terasic_lib/I2C.c:96-125 | START, address and register up to a refusal, a repeated START in any case, the read address, the slave's byte not acknowledged, STOP |
| `I2c.Bus.MultipleRead` | C-Code/KBS/terasic_lib/I2C.c:127-165 | all bytes are those the slave shifted out, acknowledged but for the last; after a refusal there is no second START |
| `I2c.ChangesAreMarks` | C-Code/KBS/terasic_lib/I2C.c:174-203 | in every trace SDA changes under a high clock exactly as often as the monitor sees a START or STOP |
| `I2c.DecodeEncode` | C-Code/KBS/terasic_lib/I2C.c:67-165 | a receiver that groups nine bits to a byte recovers any sequence of transfers from what the monitor saw |
| `I2c.LastNotAcked` | C-Code/KBS/terasic_lib/I2C.c:154-158 | byte i of those read is what the slave shifted out, acknowledged if and only if it is not the last |
| `I2c.AckBits` | C-Code/KBS/terasic_lib/I2C.c:154-158 | on the wire the ninth bit of each byte read is low, but high after the last one |
| `LogPrintf.DigitsCanonical` | C-Code/KBS_bsp/HAL/src/alt_log_printf.c:236-297 | the digits printed denote the number and have no leading zero to spare |
| `LogPrintf.CanonicalIsDigits` | C-Code/KBS_bsp/HAL/src/alt_log_printf.c:236-297 | there is only one such digit sequence |
| `LogPrintf.Log.CountDigits` | C-Code/KBS_bsp/HAL/src/alt_log_printf.c:247-255 | the loop ends with the number of digits and the biggest place value, which never exceeds the number and so never overflows |
| `LogPrintf.PrintOne` | C-Code/KBS_bsp/HAL/src/alt_log_printf.c:286-295 | dividing by the place value splits off the next digit and keeps printed digits and remainder equal to the number |
| `LogPrintf.Log.PrintDigits` | C-Code/KBS_bsp/HAL/src/alt_log_printf.c:281-296 | the loop ends and prints exactly the digits of the number |
| `LogPrintf.Log.PrintInteger` | C-Code/KBS_bsp/HAL/src/alt_log_printf.c:206-297 | sign, padding and digits come out in the order of the flags, for every word, sign mode, base, width and zero flag |
| `LogPrintf.ConversionLength` | C-Code/KBS_bsp/HAL/src/alt_log_printf.c:257-296 | exactly max(width, digits and sign) characters are emitted |
| `LogPrintf.ConversionReadsBack` | C-Code/KBS_bsp/HAL/src/alt_log_printf.c:206-297 | the characters emitted read back to the number, also for the most negative one |
| `LogPrintf.DigitAtPlace` | C-Code/KBS_bsp/HAL/src/alt_log_printf.c:206-297 | the digit k places from the last is what k divisions by the base leave, modulo the base |
| `LogPrintf.IntegerLetters` | C-Code/KBS_bsp/HAL/src/alt_log_printf.c:194-317 | d and i print the signed number in base 10, u the word in base 10, o in base 8, x and X in base 16 with small or capital letters; the text reads back to the number, fills the width with zeros or blanks as the zero flag says, and has no other leading zero |
| `LogPrintf.TextLetters` | C-Code/KBS_bsp/HAL/src/alt_log_printf.c:318-333 | c and s end in the character and the text, with blanks before up to the width |
| `LogPrintf.WidthWritten` | C-Code/KBS_bsp/HAL/src/alt_log_printf.c:172-199 | a width written in digits is the number they form |
| `LogPrintf.DirectiveThenRest` | C-Code/KBS_bsp/HAL/src/alt_log_printf.c:114-341 | a directive prints its own argument, and what follows goes on with the others |
| `LogPrintf.PlainText` | C-Code/KBS_bsp/HAL/src/alt_log_printf.c:134-155 | text without percent signs stands for itself |
| `LogPrintf.WidthStep` | C-Code/KBS_bsp/HAL/src/alt_log_printf.c:172-199 | how the width grows character by character agrees with the number formed by the digits before the point |
| `LogPrintf.Log.Printf` | C-Code/KBS_bsp/HAL/src/alt_log_printf.c:114-341 | the character-by-character state machine prints what parsing each directive as a whole gives |
| `Heap.Allocator.Extend` | C-Code/KBS_bsp/HAL/src/alt_sbrk.c:68-96 | success exactly when the aligned end and the increment stay within the limit; the end is aligned even on failure |
| `Heap.Allocator.Sbrk` | C-Code/KBS_bsp/HAL/src/alt_sbrk.c:68-136 | the block returned is word-aligned, inside the heap, and disjoint from everything handed out before, slabs included |
| `Heap.Allocator.Allocate` | C-Code/KBS_bsp/HAL/src/alt_gmon.c:133-148 | while a slab can be had the block lies inside the heap and is disjoint from every earlier block; without memory the code hands out address -1 |
| `Heap.Serve` | C-Code/KBS_bsp/HAL/src/alt_gmon.c:133-148 | over any run of requests, slab changes and direct sbrk calls interleaved: each request gets an address exactly when the space left by the earlier ones admits it, the blocks handed out are those of the addresses returned, each of the size requested, and all of them, with every earlier one, lie apart within the limit |
| `Heap.RecordsPerSlab` | C-Code/KBS_bsp/HAL/src/alt_gmon.c:133-148 | eighty-five records of twelve bytes share one extension of the heap by 1020 bytes |
| `FdPool.Pool.GetFd` | C-Code/KBS_bsp/HAL/src/alt_get_fd.c:54-101 | the least free slot is claimed and the high-water mark raised to it, or none is free |
| `FdPool.Pool.ReleaseFd` | C-Code/KBS_bsp/HAL/src/alt_release_fd.c:44-51 | slots above 2 become free with no flags, the standard ones stay |
| `FdPool.Pool.FileLocked` | C-Code/KBS_bsp/HAL/src/alt_open.c:64-92 | fails exactly when another descriptor anywhere in the pool holds the device exclusively |
| `FdPool.Pool.Open` | C-Code/KBS_bsp/HAL/src/alt_open.c:105-171 | each outcome and the whole pool after it: a failed open leaves every slot as it was, a device held exclusively cannot be opened |
| `FdPool.OpenIsShared` | C-Code/KBS_bsp/HAL/src/alt_open.c:139 | whatever flags the caller passes, a descriptor just opened does not hold its device exclusively |
| `FdPool.OpenedFlags` | C-Code/KBS_bsp/HAL/src/alt_open.c:139 | an open keeps the caller's low thirty bits, clears bit 31 and marks a device by bit 30 |
| `FdPool.LockFlags` | C-Code/KBS_bsp/HAL/src/alt_fd_lock.c:54-75 | a lock granted sets bit 31 and nothing else, an unlock clears it, and a lock refused answers -13 |
| `FdPool.Pool.Close` | C-Code/KBS_bsp/HAL/src/alt_close.c:64-101 | the slot is released whatever the device answers, and its answer decides the result |
| `FdPool.Pool.Lock` | C-Code/KBS_bsp/HAL/src/alt_fd_lock.c:54-75 | granted exactly when no other descriptor below the high-water mark has the device; then the device is held |
| `FdPool.Pool.Unlock` | C-Code/KBS_bsp/HAL/src/alt_fd_unlock.c:52-56 | only the exclusive flag is given up |
| `FdPool.HolderKeeps` | C-Code/KBS_bsp/HAL/src/alt_open.c:105-171 | over any run of opens, closes, locks and unlocks in which the holder neither closes nor unlocks, the holder keeps the device and every open of it fails |
| `FdPool.Run` | C-Code/KBS_bsp/HAL/src/alt_open.c:105-171 | after any run the pool, its high-water mark and every answer are those of the operations' specifications folded one after the other, and a holder that does not let go keeps its device against every open |
| `FdPool.GrantedButShared` | C-Code/KBS_bsp/HAL/src/alt_fd_lock.c:61 | the documented promise fails: after two opens of any device but the console's, the first descriptor is granted the lock while the second is open |
| `FdPool.SoleOwnerAtTheMark` | C-Code/KBS_bsp/HAL/src/alt_fd_lock.c:43-68 | with a high-water mark above 2, a granted lock means sole ownership exactly when the descriptor is the one at the mark or that one belongs to another device |
| `FdPool.SoleOwnerExactly` | C-Code/KBS_bsp/HAL/src/alt_fd_lock.c:43-68 | for any high-water mark, a granted lock means sole ownership exactly when the descriptors the search leaves out belong to other devices |
| `TimeOfDay.Clock.SetTimeOfDay` | C-Code/KBS_bsp/HAL/src/alt_settod.c:72-96 | the offsets left behind with their 32-bit arithmetic, and nothing changed without a clock |
| `TimeOfDay.Clock.GetTimeOfDay` | C-Code/KBS_bsp/HAL/src/alt_gettod.c:71-124 | the loops compute the normal form of the time; without a clock the caller's values stay |
| `TimeOfDay.NormalIsTotal` | C-Code/KBS_bsp/HAL/src/alt_gettod.c:95-112 | normalising keeps the time and brings microseconds below a million; a negative time becomes zero |
| `TimeOfDay.SetThenGet` | C-Code/KBS_bsp/HAL/src/alt_settod.c:56-86 | reading at the tick of setting tells the time set, for every rate, if and only if the 32-bit and 64-bit products agree modulo a million, that is, the overflow count is a multiple of 15625 |
| `TimeOfDay.SetThenWait` | C-Code/KBS_bsp/HAL/src/alt_settod.c:72-96 | set at tick n and read at tick m with a rate that divides a million, the clock tells the time set plus the ticks in between, to the microsecond, with microseconds normalised |
| `TimeOfDay.TicksCount` | C-Code/KBS_bsp/HAL/src/alt_settod.c:72-96 | the same in plain numbers: each tick between set and read counts a millionth divided by the rate |
| `TimeOfDay.LateSetIsOff` | C-Code/KBS_bsp/HAL/src/alt_settod.c:83-84 | at 1000 ticks a second a set at tick 4294968 is not read back |

## Left out

- FatVolume.Volume.FindUnusedCluster: needs a table that ends, by an unused entry or by the end of the disk, because without either the 32-bit byte address wraps and the loop of the code runs forever.
- FatBrowse.Browser.BrowseNext: needs a directory that ends, by an end mark or by the end of the disk, for the same reason; the read through a null pointer after a failed sector read has no effect in the model.
- FatFile.FileHandle.FileRead: the slice property is for requests inside the chain and counts that are not negative; after a failed read only the cache and buffer bounds are promised, since the code then moves its cluster count without its cluster.
- WavePlay.Player.Start: the wave header parser is a parameter; its source is not among the modelled files.
- WavePlay.Player.SendFrames: the wait while the DAC queue is full is not modelled.
- Graphics.Frame.DrawSlopedLine: a pixel on the screen is one element of a two-dimensional picture; the address arithmetic of the frame buffer and off-screen pixels are not modelled.
- Graphics.Frame.MoveBlock: for the 16-bit colour depth only, whose pixel reads the code always uses.
- Triangle.ScanTriangle: ends at the span map; the final horizontal lines exclude their right end and are not modelled.
- Circle.DrawCircle: the unfilled shape; coordinates are plain integers.
- Circle.DrawCorners: the corner points only; the straight edges and the filling of the box are not modelled.
- SdWire.Host.ReadData4: the code reads neither checksum nor end bit in four-bit mode, so no corruption is detected there.
- SdCard.ReadRegister: the copied contents of CMD2, CMD9 and CMD10 are left out; for the last two the code's copy length is uninitialised.
- SdCard.Init: the channel between host and card is reliable; pauses and the power-up delay are not modelled.
- I2c.Bus.Write: the slave changes SDA only while SCL is low, and clock stretching and other masters are not modelled.
- LogPrintf.Log.Printf: the width is an unbounded number, where the code keeps a 32-bit int; the wait for the transmitter is not modelled.
- Heap.Allocator.Extend: the heap limit lies below 2^31 and increments are not negative, so that no address wraps.
- Heap.Allocator.Allocate: sizes from 1 to 1020; the lists that `__mcount_record` builds from the blocks, by insertion at the head, are left out.
- FdPool.Pool.Open: a device's own open function answers with a number and does not touch the pool.
- Volume mounting, block writes of files, `fatFindUnusedDirectory` (which does not end on a read error) and the read-only build of the FAT code.
- Single-block read and write commands of the card library (CMD17, CMD24): the same checks as CMD16.
- Register access, interrupts, tasks of the real-time kernel, touch input, display controller, fonts, colours and alpha blending.
