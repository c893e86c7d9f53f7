# fwup, modelled

fwup writes firmware images to SD cards and eMMC parts. This project models how its bytes travel, and
proves that they arrive: from the files of a resource, packed without their holes, through an archive that
is cut into arbitrary chunks, back to their offsets, padded to 512-byte blocks, optionally encrypted, through
the write-back cache and onto the disk. Beside that path it models the U-Boot environment with its two
copies, the expression evaluator, the Base64 and VCDIFF integer codecs, and version precedence.

`dafny verify dfyconfig.toml` verifies everything.

| files | what they model |
|---|---|
| `Bytes`, `Options`, `SegmentFlags`, `TrimBits`, `CacheModel`, `FlushOrder`, `BlockCaching`, `CacheRuns` | the segment cache, single-threaded build: flag bytes, trim bits, eviction, merging reads, streamed writes, ordered flush, and whole runs against a flat byte array |
| `WriterThread`, `WriterView` | the hand-off between the main thread and the writer thread, as a system of atomic steps, and what the main thread sees of the disk through it |
| `Gf128`, `AesModes`, `AesLoops`, `DiskCrypto` | CBC and XTS over any invertible block function, their buffer loops, and the sector loops |
| `PadModel`, `PadWriter`, `PadRuns` | the pad-to-block writer |
| `SparseMaps`, `SparseRead`, `SparseApply`, `RawWriting` | sparse maps, the packing side, the unpacking side, and raw_write end to end |
| `Crc32`, `UbootPairs`, `UbootCodec`, `UbootProtocol`, `UbootEnvironment` | the checksum, the environment's text, the two-copy protocol, and the object that runs it over the cache |
| `FlushCuts`, `UbootFlush`, `UbootCuts`, `UbootTask` | a task of clears and changes that reaches the disk in one flush of the cache, cut anywhere |
| `UbootEdits`, `UbootLayouts`, `UbootFailures` | when every cut is safe, by number of changes and place of the copies, and runs that lose what was stored |
| `EvalMath`, `EvalLaws`, `EvalSound`, `EvalMachine` | the two-stack evaluator as functions on tokens, what each operator makes of its numbers, what it accepts, and the array code |
| `Base64`, `Base64Loops`, `VcdiffInts`, `Semver` | the codecs and the version order |

Bytes are 8-bit vectors; offsets and sizes are unbounded naturals. The disk is a byte string; every transfer
may fail, and a device that is not honest may store other bytes and report success. A ghost counter of
failures and lies lets contracts say that a call succeeds exactly when none occurred. A reader's view of the
cache is a function of its state: the cached block when it is valid, else zeros when the segment is trimmed,
else the disk. Byte streams handed to the padding writer are partial functions from offsets to bytes, so that
"the same stream, cut differently" is plain equality.

## Where the code does not do what it promises

Each of these is stated as a lemma, with the exact condition under which the promise holds.

- A cache miss does not wait for a victim that is still being written (`WriterThread.ClaimIntactIff`,
  `WriterThread.IntactIffNoClash`; the two runs are `WriterThread.ClashWritesOtherData` and
  `WriterThread.ClashLosesWrite`).
- XTS with leftover bytes reads its tail after overwriting it when both buffers are the same
  (`AesModes.XtsInPlaceIff`). Sectors have no leftover bytes, so disk encryption is not affected.
- The CBC sector vector repeats every 2^32 sectors (`DiskCrypto.CbcVectorsRepeat`).
- An empty data segment with data behind it ends reading early (`SparseApply.AllDeliveredIff`).
- An update of the U-Boot environment is atomic on a medium that is written directly
  (`UbootProtocol.UpdateIsAtomic`). fwup writes through its cache, and all changes of a task reach the disk in one
  flush. One change is still atomic, several need not be, and a cut can bring back an older environment. With copies in
  segments of their own that takes an odd number of changes from three on (`UbootEdits.OwnSegmentsIff`), with both in one
  segment, as in README.md:661-666, two or more while the copy in use lies lower (`UbootEdits.OneSegmentIff`); for any
  task, clears included, the condition is `UbootCuts.TaskCutsIff`, for any layout `UbootLayouts.AnyLayoutIff`. The failing
  runs are `UbootFailures.FailingRun`, their family `UbootFailures.SetsLost`.
- Clearing the U-Boot environment is not atomic (`UbootProtocol.ClearIsAtomicIff`,
  `UbootProtocol.ClearBetweenCopies`). The counter byte is outside the checksum (`UbootCodec.CounterNotCovered`).
- The evaluator's operator stack has no guard for operators (`EvalMath.OverrunIff`, `EvalMath.FewOperators`).
- Some token lists it accepts are no expressions, exactly the accepted ones with a parenthesis that opens behind a number or
  closes before one (`EvalSound.AcceptedIff`; `EvalSound.OpenBehindNumber` and `EvalSound.CloseBeforeNumber` show
  either).
- Where `char` is signed, the Base64 decoder takes bytes above 127 for the last character of the alphabet,
  although its comment says it stops there (`Base64.StopsIff`).
- Numeric version identifiers are stored in an int (`Semver.NumericOrderIff`), and `strtol` reads a hyphen
  as a sign and an empty identifier as zero (`Semver.NumericIff`, `Semver.StandardIff`).

## Model

| member | source | states |
|---|---|---|
| `SegmentFlags.SetValid` | src/block_cache.c:125-128 | marks one block valid and leaves every other block's two bits alone |
| `SegmentFlags.SetDirty` | src/block_cache.c:82-86 | marks one block dirty and valid and leaves every other block's two bits alone |
| `SegmentFlags.ClearAllDirty` | src/block_cache.c:88-91 | no block is dirty any more and exactly the same blocks are valid |
| `SegmentFlags.IsSegmentDirty` | src/block_cache.c:93-100 | true if and only if some block is dirty, for flags of any content |
| `SegmentFlags.IsSegmentCompletelyDirty` | src/block_cache.c:102-109 | true if and only if every block is dirty |
| `SegmentFlags.CheckSegmentValidity` | src/block_cache.c:111-123 | the two results are exactly: every block valid, no block valid |
| `TrimBits.SetRange` | src/block_cache.c:732-760 | first byte, middle bytes and last byte together set exactly the bits of the range |
| `TrimBits.ClearBit` | src/block_cache.c:61-79 | exactly one bit is cleared |
| `CacheModel.FillKeepsView` | src/block_cache.c:219-242 | reading in the missing blocks of a segment changes nothing that a reader sees and keeps the cache coherent |
| `CacheModel.MergedEntry` | src/block_cache.c:229-240 | after the merge cached blocks keep their bytes and only the missing ones come from the disk |
| `CacheModel.WriteBackKeepsView` | src/block_cache.c:375-395 | writing a segment back and clearing its trim mark changes nothing a reader sees; the segment is then clean and on the disk |
| `CacheModel.ClaimKeepsView` | src/block_cache.c:140-153 | handing a clean or unused entry to another segment changes nothing a reader sees |
| `CacheModel.StoreUpdatesView` | src/block_cache.c:819-846 | storing dirty blocks overwrites exactly their bytes in what a reader sees |
| `CacheModel.TrimRange` | src/block_cache.c:693-714 | the rounded offset and count select exactly the whole segments inside the byte range |
| `CacheModel.TrimOutcome` | src/block_cache.c:691-773 | whole segments inside the range read as zeros, every other byte, edges included, is unchanged, and exactly their bits are set |
| `CacheModel.NothingTrimmed` | src/block_cache.c:697-703 | a range without a whole segment, or beyond what is tracked, changes nothing |
| `CacheModel.TrimAfterOutcome` | src/block_cache.c:790-817 | everything from the next segment boundary on reads as zeros and is marked, nothing before it changed |
| `CacheModel.CleanViewIsDisk` | src/block_cache.c:375-395 | where a segment is clean and not trimmed, the disk holds what a reader sees |
| `FlushOrder.FlushPrefixDownwardClosed` | src/block_cache.c:508-577 | however far a flush came, no segment it wrote is newer than a dirty one it did not write |
| `FlushOrder.FlushWritesOldestFirst` | src/block_cache.c:508-577 | a whole flush writes each dirty segment once, in the order of last access |
| `FlushOrder.FlushedViewIsDisk` | src/block_cache.c:542-577 | after a whole flush the disk agrees with the reader's view on every segment that is not trimmed |
| `FlushOrder.FlushOrderExists` | src/block_cache.c:508-521 | distinct access stamps always allow the order a flush asks for |
| `FlushOrder.StampsAdvanced` | src/block_cache.c:638-675 | giving one entry the current stamp and counting up keeps all stamps distinct and in the past |
| `FlushCuts.EarlierReachFirst` | src/block_cache.c:508-577 | cut a flush anywhere: if all that differs in one range comes before all that differs in another, by last access and then by offset, the other range is on the disk as before or the first one as the reader saw it |
| `FlushCuts.CutRight` | src/block_cache.c:508-577 | for every byte that differs there is a cut that has written it and, of what differs, exactly the bytes that come before it |
| `FlushCuts.AheadTotal` | src/block_cache.c:508-521 | the bytes that differ reach the disk in one total order |
| `BlockCaching.BlockCache.constructor` | src/block_cache.c:409-490 | a new cache shows the disk, and zeros past a hard end of the media |
| `BlockCaching.BlockCache.CalculateIoSize` | src/block_cache.c:155-189 | how many bytes of a segment a transfer covers: the whole segment or the part inside the media |
| `BlockCaching.BlockCache.ReadSegment` | src/block_cache.c:191-217 | a segment's bytes as the disk has them, zeros past its end, zeros when trimmed; fails exactly when the device does |
| `BlockCaching.BlockCache.MakeSegmentValid` | src/block_cache.c:219-242 | all blocks become valid and nothing a reader sees changes; a fully valid segment is left alone |
| `BlockCaching.BlockCache.MergeBlocks` | src/block_cache.c:229-240 | valid blocks are kept and the others taken from what was read |
| `BlockCaching.BlockCache.VerifiedSegmentWrite` | src/block_cache.c:244-271 | on success the segment's bytes are on the disk and nothing else changed, with either write option, also on a device that stores other bytes and reports success, as long as writes are verified; a failure on an honest device leaves a prefix of them |
| `Bytes.ReadBackIff` | src/block_cache.c:262-268 | reading a write back and comparing succeeds if and only if the bytes are there |
| `BlockCaching.BlockCache.FlushSegment` | src/block_cache.c:375-395 | a dirty segment is written back once and is clean, a clean one costs nothing; the view does not change |
| `BlockCaching.BlockCache.InitSegment` | src/block_cache.c:140-153 | the entry takes over a segment with no valid block and the newest stamp; the view does not change |
| `BlockCaching.BlockCache.FindVictim` | src/block_cache.c:653-669 | an unused entry, or one no other entry is older than when all are in use |
| `BlockCaching.BlockCache.GetSegment` | src/block_cache.c:638-675 | finds or makes the segment's entry without changing the view; at most one segment is written, a dirty one no other in-use segment is older than |
| `BlockCaching.BlockCache.BlockSegmentPwrite` | src/block_cache.c:819-846 | a write inside one segment overwrites exactly its bytes in the view, also when it completes a streamed segment and is written at once |
| `BlockCaching.BlockCache.Pwrite` | src/block_cache.c:848-877 | a write of any length at any block offset overwrites exactly its bytes in the view, unless the device failed, and its segments are then the ones accessed last, one after the other |
| `BlockCaching.BlockCache.Pread` | src/block_cache.c:890-920 | a read returns exactly the view, and does not change it, unless the device failed; its segments are then the ones accessed last, one after the other |
| `BlockCaching.BlockCache.Flush` | src/block_cache.c:542-577 | the view stays, the disk agrees with it afterwards, and the segments written are a prefix of the order also when a write fails; then the disk is as the reader saw it on those segments and on a prefix of the next dirty one, and as before everywhere else |
| `BlockCaching.BlockCache.Trim` | src/block_cache.c:691-781 | the outcome of a trim on view and bits, for any offset and any count |
| `BlockCaching.BlockCache.TrimAfter` | src/block_cache.c:790-817 | does nothing beyond what is tracked, else everything from the boundary on reads as zeros |
| `BlockCaching.BlockCache.Reset` | src/block_cache.c:524-540 | afterwards a reader sees the disk, zeros where trimmed, and the cache is coherent again after any failure |
| `CacheRuns.Perform` | src/block_cache.c:542-920 | one operation does to the cache what it does to a flat byte array |
| `CacheRuns.Execute` | src/block_cache.c:542-920 | every run of reads, writes, trims and flushes returns what a flat byte array would return, whatever the size, options, marks and evictions; after a final flush the disk agrees with the array |
| `WriterThread.InvRun` | src/block_cache.c:274-356 | in every interleaving at most one segment is in flight and it stays in use, after a failed write of the writer it only skips until a reset, and at thread exit every write has an outcome |
| `WriterThread.NothingBegins` | src/block_cache.c:298-356 | after a failure on either thread no write begins until a reset; at most the one write each thread had begun still ends |
| `WriterThread.FailureStops` | src/block_cache.c:298-356 | once a transfer has failed on either thread, nothing is queued and no transfer begins until a reset, and at most the one the other thread had begun still ends |
| `WriterThread.ResetReopens` | src/block_cache.c:524-540 | behind a reset the next dirty segment can be queued or written again |
| `WriterThread.DirtyBehindFailure` | src/block_cache.c:310-327 | once the writer's transfer has failed, handing segments over marks none of them clean: only a flush or a reset gives one up |
| `WriterThread.CleanBehind` | src/block_cache.c:310-395 | a write call that ends without an error, and a flush that gives up, leave their segment clean and its data as it was |
| `WriterThread.NeverBothWrite` | src/block_cache.c:337-356 | in no interleaving do the two threads write the same segment at once |
| `WriterThread.RecentNotTaken` | src/block_cache.c:653-669 | in every run of a cache of two or more entries a miss never takes the entry accessed last |
| `WriterThread.NoneLeftAtReset` | src/block_cache.c:524-540 | once a reset has dropped every entry nothing is in flight and every write has an outcome |
| `WriterThread.StaysUntilDone` | src/block_cache.c:303-356 | from the hand-over to the outcome, through any interleaving without a clash, the entry stays in use and keeps its offset and data for as long as its write may still happen |
| `WriterThread.WaitsEnd` | src/block_cache.c:310-356 | a main thread that waits, for the slot or for the writer to end, is always released by the writer's own steps |
| `WriterThread.ClaimIntactIff` | src/block_cache.c:653-675 | a miss leaves the data in flight unchanged if and only if it takes another segment |
| `WriterThread.IntactIffNoClash` | src/block_cache.c:274-356 | over a whole run the data in flight is unchanged at every moment if and only if no miss takes the segment in flight; then writes reach the disk in issue order with the data handed over |
| `WriterThread.ClashWritesOtherData` | src/block_cache.c:671-674 | a run in which a miss takes the segment in flight and other data reaches the old offset |
| `WriterThread.ClashLosesWrite` | src/block_cache.c:337-356 | a run in which the same mistake makes a flush succeed without ever writing the new data |
| `WriterThread.UntakenRun` | src/block_cache.c:337-356 | without such a miss a synchronous write never waits on its own segment, so it always writes |
| `WriterView.ThreadedRun` | src/block_cache.c:274-356 | in every interleaving of the two threads without such a miss and without a failed transfer, what the main thread sees is what its stores leave on a flat array, and with nothing dirty or in flight the disk is that array |
| `WriterView.StartsSteady` | src/block_cache.c:409-490 | which holds from a new cache over any disk on |
| `Gf128.DoubleLowIsStandard` | src/3rdparty/mbedtls/mbedtls_aes.c:1142-1155 | the two-word doubling gives the low eight bytes of section 5.2 of IEEE Std 1619-2007, the reduction by 135 included |
| `Gf128.DoubleHighIsStandard` | src/3rdparty/mbedtls/mbedtls_aes.c:1142-1155 | and the high eight bytes |
| `Gf128.DoubleIsStandard` | src/3rdparty/mbedtls/mbedtls_aes.c:1142-1155 | byte by byte: each one is shifted left and takes in the top bit of the one before, the first one the reduction |
| `AesModes.XorIs` | src/3rdparty/mbedtls/mbedtls_aes.c:1104-1108 | the sum of two blocks has a one exactly where one of them has |
| `AesModes.CbcEncryptAt` | src/3rdparty/mbedtls/mbedtls_aes.c:1104-1119 | each ciphertext block is the cipher of the plaintext block xor the ciphertext block before it (section 6.2 of NIST SP 800-38A) |
| `AesModes.CbcRoundTrip` | src/3rdparty/mbedtls/mbedtls_aes.c:1061-1124 | CBC decryption undoes CBC encryption for any invertible block function |
| `AesModes.UnitRight` | src/3rdparty/mbedtls/mbedtls_aes.c:1166-1262 | every full block, with its tweak added, is the block function of the input with the tweak added; of the last two pieces the first takes the last but one tweak when encrypting and the last one when decrypting, the tail is its head, and what is left goes behind the tail under the other tweak |
| `AesModes.XtsRoundTrip` | src/3rdparty/mbedtls/mbedtls_aes.c:1166-1262 | XTS decryption undoes XTS encryption, and encryption decryption, for every length from 16 bytes up, the stolen tail with its swapped tweaks included (sections 5.3 and 5.4 of IEEE Std 1619-2007) |
| `AesModes.XtsStolenRoundTrip` | src/3rdparty/mbedtls/mbedtls_aes.c:1228-1259 | the last two pieces come back although the other direction uses their tweaks in the other order |
| `AesModes.XtsInPlaceIff` | src/3rdparty/mbedtls/mbedtls_aes.c:1228-1259 | with one buffer for both sides, encryption and likewise decryption is right for all data of a length if and only if no byte is left over |
| `AesModes.InPlaceWrong` | src/3rdparty/mbedtls/mbedtls_aes.c:1228-1259 | whatever the full blocks, there is a tail of every length from 1 to 15 that comes out wrong in place |
| `AesLoops.CryptCbc` | src/3rdparty/mbedtls/mbedtls_aes.c:1061-1124 | the loop leaves exactly the CBC of the old input, in place or not, the chaining vector of the next call, and no other byte changed: every block is the block function of itself and the ciphertext before it; a bad length changes nothing |
| `AesLoops.CryptXts` | src/3rdparty/mbedtls/mbedtls_aes.c:1166-1262 | the loop leaves exactly the XTS of the old input, in place as far as that is right, and no other byte changed: each block stands under its own tweak, added on both sides of the block function, the first tweak the encrypted data unit and each next one made from the one before; lengths outside the limits change nothing |
| `AesLoops.OutcomeRight` | src/3rdparty/mbedtls/mbedtls_aes.c:1166-1262 | that holds of the bytes of every length from 16 up, and in place with what has overwritten the tail |
| `AesLoops.StealTail` | src/3rdparty/mbedtls/mbedtls_aes.c:1228-1259 | the final round: which bytes the tail gets and what the last full block becomes, with one buffer or two |
| `DiskCrypto.CbcBytesRoundTrip` | src/disk_crypto.c:31-61 | a byte string of whole blocks comes back |
| `DiskCrypto.XtsBytesRoundTrip` | src/disk_crypto.c:91-121 | a byte string of any length from 16 up comes back |
| `DiskCrypto.SectorRoundTrip` | src/disk_crypto.c:31-121 | under both ciphers decryption undoes encryption on every sector number |
| `DiskCrypto.SectorsRoundTrip` | src/disk_crypto.c:219-251 | decrypting any number of sectors at any offset undoes encrypting them |
| `DiskCrypto.CbcVectorsRepeat` | src/disk_crypto.c:31-45 | two sectors share a CBC vector if and only if their numbers agree modulo 2^32 |
| `DiskCrypto.XtsVectorsDiffer` | src/disk_crypto.c:84-89 | two sectors share an XTS data unit if and only if their 64-bit numbers are equal |
| `DiskCrypto.VectorsHold` | src/disk_crypto.c:31-89 | read lowest byte first the vectors hold the sector number, or its low 32 bits, with zeros behind |
| `DiskCrypto.SectorNumber` | src/disk_crypto.c:219-232 | sectors are numbered from the session's base offset on |
| `DiskCrypto.WordIs` | src/disk_crypto.c:219-232 | a number below 2^64 goes into the vector as it is |
| `DiskCrypto.InPlaceSector` | src/disk_crypto.c:91-121 | a 512-byte sector is never affected by the in-place restriction |
| `DiskCrypto.CryptSectorCbc` | src/disk_crypto.c:31-61 | one sector through the buffers is CBC under the vector made from its number and nothing else changes |
| `DiskCrypto.CryptSectorXts` | src/disk_crypto.c:84-121 | one sector through the buffers, in place or not, is XTS under the data unit made from its number, with the doubling of Gf128 between tweaks, and nothing else changes |
| `DiskCrypto.CryptSectors` | src/disk_crypto.c:219-251 | every sector is encrypted or decrypted under its own number by the two methods above, in place or not, and nothing else changes |
| `PadModel.EmitBlock` | src/pad_to_block_writer.c:146-157 | once the collected block is written, the output is what the bytes given so far ask for |
| `PadModel.EmitWhole` | src/pad_to_block_writer.c:127-134 | whole blocks handed straight on leave the output as the bytes given ask for |
| `PadModel.AppendOk` | src/pad_to_block_writer.c:99-118 | copying bytes to the end of the collected block keeps the writer's invariant |
| `PadModel.FillOk` | src/pad_to_block_writer.c:86-97 | zeros over a skipped part of the block keep the invariant |
| `PadModel.FrontOk` | src/pad_to_block_writer.c:117-125 | starting a block with zeros keeps the invariant |
| `PadWriter.PadToBlockWriter.constructor` | src/pad_to_block_writer.c:66-72 | a new writer has given nothing and changed nothing |
| `PadWriter.PadToBlockWriter.EncryptAndPwrite` | src/pad_to_block_writer.c:44-50 | the collected block goes to its own offset, sealed under the number of its own sector |
| `PadWriter.PadToBlockWriter.EncryptAndPwriteConst` | src/pad_to_block_writer.c:52-64 | whole blocks go out sealed under their own numbers and the caller's bytes are not changed |
| `PadWriter.PadToBlockWriter.Pwrite` | src/pad_to_block_writer.c:74-144 | any write at or after the end of the last one adds exactly its bytes to what was given and keeps the writer's invariant |
| `PadWriter.PadToBlockWriter.Flush` | src/pad_to_block_writer.c:146-157 | the collected block, zero filled, is written once and nothing stays behind |
| `PadRuns.WriteAll` | src/pad_to_block_writer.c:66-157 | after any forward writes and a flush each touched block holds its bytes and zeros elsewhere, sealed under its own number, was written once and in order, and nothing else changed |
| `PadRuns.CuttingDoesNotMatter` | src/pad_to_block_writer.c:74-157 | two ways of cutting the same stream leave the same output and write the same blocks in the same order |
| `SparseMaps.FileSize` | src/sparse_file.c:144-151 | the size of the file; no data lies at or past it |
| `SparseMaps.DataSize` | src/sparse_file.c:158-165 | the number of data bytes of the file |
| `SparseMaps.EndingHole` | src/sparse_file.c:172-179 | how many bytes at the very end of the file are a hole |
| `SparseMaps.RankAt` | src/sparse_file.c:56-66 | inside data segments the count of data bytes grows with the offset, in holes it stands still |
| `SparseMaps.RankFills` | src/sparse_file.c:56-66 | the data offsets are numbered without gaps |
| `SparseMaps.SelectByRank` | src/sparse_file.c:253-287 | the packed data holds each data byte of the file at its number and nothing else |
| `SparseRead.ReadIterator.ReadNextData` | src/sparse_file.c:288-345 | one call skips only hole bytes, returns only data bytes that follow, and comes back empty only at the end of the file or of the map |
| `SparseRead.WriteFile` | src/fwup_create.c:75-92 | one file adds exactly its data bytes, with segments and holes crossing its ends, for any short reads |
| `SparseRead.WriteResource` | src/fwup_create.c:75-115 | any list of files, empty ones included, gives exactly the data of their concatenation, in order |
| `SparseApply.SparseSource.constructor` | src/fwup_apply.c:384-404 | the cursor starts at the first data, behind a leading hole |
| `SparseApply.SparseSource.ReadCallback` | src/fwup_apply.c:137-223 | each call returns the next packed bytes, all inside one data segment, at the offset they came from; it comes back empty exactly when everything deliverable was delivered |
| `SparseApply.EmptyRead` | src/fwup_apply.c:137-223 | reading stops exactly at the end of the archive, of the map, or at an empty data segment |
| `SparseApply.AllDeliveredIff` | src/fwup_apply.c:137-223 | all data is delivered if and only if no empty data segment behind the first hole has data behind it |
| `SparseApply.EmptySegmentEndsEarly` | src/functions.c:288-293 | a map with an empty interior data segment for which the second data byte never comes out |
| `SparseApply.LaterInFile` | src/fwup_apply.c:137-223 | bytes delivered later lie further on in the file |
| `SparseApply.PlacedBack` | src/fwup_apply.c:137-223 | every byte comes back at the offset it was packed from |
| `RawWriting.CopyData` | src/functions.c:283-313 | the loop hands every deliverable byte to the padding writer at its destination, or the device failed |
| `RawWriting.CloseHole` | src/functions.c:368-381 | a last hole is closed with at most one block of zeros that ends where the file ends |
| `RawWriting.WrittenIff` | src/functions.c:363-381 | a block is written if and only if it holds a data byte of the file or one of the last 512 bytes of a last hole |
| `RawWriting.HoleStays` | src/functions.c:368-381 | a block without data that ends 512 bytes or more before the end of the file is not written, hole or not |
| `RawWriting.ProcessResource` | src/functions.c:254-351 | fails exactly when the device fails, data is missing, or the hash differs; else exactly the file's bytes were given |
| `RawWriting.RawWrite` | src/functions.c:382-416 | end to end, for every map and every chunking of the archive: blocks with data or with any of the last 512 bytes of a last hole are the file's blocks, as they are or behind decryption under their number in the file, and every byte of the other blocks is as before |
| `RawWriting.FileArrives` | src/functions.c:363-416 | the blocks are those of the zero-extended original file when the map describes it |
| `RawWriting.Covers` | src/functions.c:363-416 | every data byte, and the last byte of a file ending in a hole, lies in a written block |
| `Crc32.TableEntry` | src/crc32.c:65-109 | every entry of the table is what eight zero bits make of its index |
| `Crc32.CheckValue` | src/crc32.c:114-123 | the text 123456789 has the check value 0xCBF43926 |
| `Crc32.TableStep` | src/crc32.c:111-112 | one table step is eight steps of the shift register with polynomial 0xedb88320 |
| `Crc32.Crc32Buf` | src/crc32.c:114-123 | the result is the bit-by-bit remainder of section 8 of RFC 1952, for every byte string |
| `Crc32.OneByteDetected` | src/crc32.c:114-123 | two strings that differ in exactly one byte never share a checksum |
| `Crc32.BurstDetected` | src/crc32.c:114-123 | nor do two strings that differ only within four bytes in a row |
| `UbootPairs.SetsTheName` | src/uboot_env.c:161-177 | lookups find the new value and are otherwise unchanged |
| `UbootPairs.RemovesTheName` | src/uboot_env.c:179-198 | lookups no longer find the name and are otherwise unchanged |
| `UbootPairs.OrderedUnique` | src/uboot_env.c:222-246 | there is only one sorted list of the same pairs, whatever sorts them |
| `UbootPairs.LessIff` | src/uboot_env.c:215-220 | names are compared as strcmp does: they agree up to some point, where one ends or has the smaller byte |
| `UbootPairs.SortedRises` | src/uboot_env.c:222-246 | of any two pairs written the name of the earlier one comes first in that order |
| `UbootPairs.SortDependsOnMap` | src/uboot_env.c:222-246 | the order written depends only on what the names stand for |
| `UbootPairs.SortedBack` | src/uboot_env.c:113-159 | sorting, and reading back in reverse, changes nothing that lookups find |
| `UbootCodec.ParsedAreGood` | src/uboot_env.c:126-156 | whatever the block holds, every name read is non-empty without a later '=' and every value is free of NULs |
| `UbootCodec.ParsedStands` | src/uboot_env.c:126-156 | a successful reading is exactly the text that stands there, up to a NUL or the end |
| `UbootCodec.ParseText` | src/uboot_env.c:126-156 | pairs that were printed read back as they were |
| `UbootCodec.DecodesBackIff` | src/uboot_env.c:113-291 | an encoded environment decodes to its pairs if and only if all names are good and all values are free of NULs |
| `UbootCodec.SortedLength` | src/uboot_env.c:266-270 | whether the pairs fit does not depend on their order |
| `UbootCodec.FitsIff` | src/uboot_env.c:254-270 | the pairs fit if and only if their lengths leave a NUL and one byte more |
| `UbootCodec.ImageLaid` | src/uboot_env.c:248-291 | a block byte for byte: the checksum of what follows, lowest byte first, the counter, the pairs one behind the other, a NUL, and 0xFF to the end |
| `UbootCodec.ChecksumTorn` | src/uboot_env.c:117-122 | a block that decodes no longer does once one byte of its checksum is another one |
| `UbootCodec.CounterNotCovered` | src/uboot_env.c:117-122 | the counter byte is outside the checksum: changing it alone is never noticed |
| `UbootCodec.DamageNoticed` | src/uboot_env.c:117-122 | damage of up to four bytes in a row in the text is always noticed |
| `UbootProtocol.ReadMarksOther` | src/uboot_env.c:344-377 | a read succeeds if and only if a copy decodes, takes one that does, and marks exactly the other one for writing |
| `UbootProtocol.OneAhead` | src/uboot_env.c:348-353 | a counter one step ahead is preferred at every value, also from 255 to 0 |
| `UbootProtocol.UpdateIsAtomic` | src/functions.c:990-1049 | written straight to the medium, an update that completes is what the next read finds, and one cut short leaves the old or the new environment, at every counter value |
| `UbootProtocol.RunIsAtomic` | src/uboot_env.c:327-415 | any run of updates written straight to the medium, with any of them cut short, is to the reader a run of whole updates |
| `UbootProtocol.LatestIsRead` | src/uboot_env.c:327-415 | after any number of completed updates and clears a read finds the latest |
| `UbootProtocol.TornIsIgnored` | src/uboot_env.c:355-377 | a block that was torn and does not decode leaves everything as it was for the reader |
| `UbootProtocol.ClearCompletes` | src/functions.c:955-973 | clearing makes any two copies readable again, and empty |
| `UbootProtocol.ClearIsAtomicIff` | src/functions.c:955-973 | clearing leaves the old or the empty environment at every point where it can be cut if and only if the second copy holds one of them |
| `UbootProtocol.ClearBetweenCopies` | src/functions.c:955-973 | cut between the copies it leaves the second copy to be read if and only if that decodes and its counter is 2 to 128, else nothing |
| `UbootProtocol.ClearRollsBack` | src/functions.c:955-973 | with the first copy torn, an update that had completed there is undone |
| `UbootFlush.BatchCopies` | src/uboot_env.c:327-415 | after a task of any clears and changes each copy holds the environment after some of them, from the first on |
| `UbootFlush.FirstCopySafe` | src/fwup_apply.c:576-582 | with one copy written before the other, every cut is safe if the first one does not change or the second one holds an environment of the task to begin with |
| `UbootFlush.FallsBack` | src/uboot_env.c:344-377 | with one copy torn and the other as before, the reader finds what the other one holds, and that is safe if and only if it is an environment of the task |
| `UbootFlush.TakesTurns` | src/uboot_env.c:344-415 | changes write the two copies in turn, so that after an even number the copy in use is the one written last |
| `UbootFlush.BothChange` | src/uboot_env.c:344-415 | from 2 to 255 changes alter the copy in use as well |
| `UbootCuts.SafeCut` | src/fwup_apply.c:576-582 | a cut of the cache's flush is safe if the copy written first does not change or the other one holds an environment of the task to begin with |
| `UbootCuts.FallenBack` | src/fwup_apply.c:576-582 | otherwise the cut behind the first checksum byte that changes, a real prefix of what the flush writes, leaves the reader with whatever the other copy held |
| `UbootCuts.CutsIff` | src/fwup_apply.c:576-582 | with one copy written before the other, all cuts are safe if and only if the first one does not change or the other one holds an environment of the task to begin with |
| `UbootCuts.CopyInOrder` | src/block_cache.c:508-577 | copies in segments of their own reach the disk in the order the task last accessed them, copies in one segment the lower one first |
| `UbootCuts.TaskCutsIff` | src/fwup_apply.c:576-582 | the same equivalence for every task of clears and changes, the copies in segments of their own or in one segment, where the checksum of the copy written first changes if that copy does |
| `UbootLayouts.CounterOnlyIff` | src/fwup_apply.c:576-582 | if the copy written first changes in nothing but its counter, all cuts are safe if and only if the medium with just that copy new is |
| `UbootLayouts.AnyLayoutIff` | src/fwup_apply.c:576-582 | wherever the copies lie, if each changes in two bytes or more and mixtures of old and new fail their checksums: all cuts are safe if and only if one copy is written wholly before the other and the other one holds an environment of the task to begin with |
| `UbootEdits.OwnSegmentsIff` | src/fwup_apply.c:576-582 | copies in segments of their own, the checksum of the one in use changing: all cuts of a task of changes are safe if and only if their number is even or one, or the stale copy holds an environment of the task |
| `UbootEdits.OneSegmentIff` | src/fwup_apply.c:576-582 | copies in one segment, the checksum of the one in use changing: all cuts of a task of changes are safe if and only if there is at most one, or the copy in use lies higher, or the stale copy holds an environment of the task |
| `UbootFailures.SetsLost` | src/fwup_apply.c:576-582 | any task that sets a variable over and over, where the copy in use is written first: a cache it can leave and a cut of its flush behind which the reader finds what the stale copy held before the task |
| `UbootFailures.FailingRun` | src/fwup_apply.c:576-582 | concrete such runs over any disk, in either layout: after a clear and one or two tasks that set a, a task that sets it two or three times is cut, and the next read finds no variable, or the value before the last one stored |
| `UbootTask.CutTask` | src/fwup_apply.c:576-582 | a cut of the flush of a real cache behind a task is safe under the condition of TaskCutsIff |
| `UbootTask.RunTask` | src/fwup_apply.c:576-582 | a task's clears and changes and the flush behind them: flushed, all are on the disk; cut, the disk is a cut of the cache in between, the next read finds what CutTask says, and the condition for all cuts is exact |
| `UbootEnvironment.UbootEnv.constructor` | src/uboot_env.c:81-104 | a fresh environment is empty and marks the copies to write |
| `UbootEnvironment.UbootEnv.Setenv` | src/uboot_env.c:161-177 | the new list, an existing pair changed in place |
| `UbootEnvironment.UbootEnv.Unsetenv` | src/uboot_env.c:179-198 | the new list, the first pair of the name gone |
| `UbootEnvironment.UbootEnv.Getenv` | src/uboot_env.c:200-212 | finds exactly what the name stands for |
| `UbootEnvironment.UbootEnv.Decode` | src/uboot_env.c:113-159 | succeeds exactly when checksum and text are right, ends inside the buffer on every input, and gives the pairs in reverse |
| `UbootEnvironment.UbootEnv.Encode` | src/uboot_env.c:248-291 | fails exactly when the lengths leave no room; else the buffer is laid out as ImageLaid says, with the same pairs and their names in the order of strcmp |
| `UbootEnvironment.UbootEnv.ReadRedundant` | src/uboot_env.c:327-383 | the object's new state is that of the protocol, read through the cache, whose contents do not change |
| `UbootEnvironment.UbootEnv.WriteRedundant` | src/uboot_env.c:393-415 | the marked copies become the block with the next counter, the other copy is not touched; nothing is written without room |
| `UbootEnvironment.CreateEnv` | src/uboot_env.c:81-111 | an environment object is refused if and only if its block count is 0 or above 65534 |
| `UbootEnvironment.ChangeVariable` | src/functions.c:990-1049 | setting or unsetting a variable through the cache is one completed update of the protocol, reports failure exactly when reading failed or there was no room, and leaves the segments of the written copy as the ones accessed last, and those of either copy accessed in rising order where they share none |
| `UbootEnvironment.ClearEnvironment` | src/functions.c:955-973 | clearing through the cache is one completed clear of the protocol, on an environment object used before or not, with the second copy accessed last |
| `EvalMath.Quotient` | src/eval_math.c:84-94 | division cuts off towards zero |
| `EvalMath.Applied` | src/eval_math.c:124-189 | an operator on top is applied before any token that closes it does anything else |
| `EvalMath.RunPrint` | src/eval_math.c:124-341 | the printed form of an expression, in any context it does not disturb and on stacks however full, leaves just its value, or ends in the error or overrun that its text meets first |
| `EvalMath.OutcomeIs` | src/eval_math.c:124-341 | that is a value if and only if the expression has one and both stacks have room for it |
| `EvalMath.EvaluatesTrees` | src/eval_math.c:355-380 | an expression, printed with the parentheses precedence asks for and any others, gets a value if and only if it has it and fits the two stacks |
| `EvalMath.SpacesIgnored` | src/eval_math.c:208-215 | white space between tokens changes nothing |
| `EvalMath.OverrunIff` | src/eval_math.c:167-189 | an expression with a value, with arguments that fit and without parentheses in its text, runs past the operator stack if and only if it needs more than sixteen operators at once |
| `EvalMath.FewOperators` | src/eval_math.c:156-189 | no token list with at most sixteen operators and opening parentheses runs past it, well-formed or not |
| `EvalMath.MinusSigns` | src/eval_math.c:167-189 | a row of minus signs runs past the operator stack exactly from the seventeenth on |
| `EvalLaws.Addition` | src/eval_math.c:58-64 | a + b is the sum |
| `EvalLaws.Subtraction` | src/eval_math.c:66-72 | a - b is the difference |
| `EvalLaws.Multiplication` | src/eval_math.c:74-80 | a * b is the product |
| `EvalLaws.Division` | src/eval_math.c:82-92 | a / b fails by zero; else what is left is smaller than b and not of the other sign than a |
| `EvalLaws.Powers` | src/eval_math.c:103-122 | a ^ 0 is one, a ^ 1 is a, and exponents that add up to 63 at most multiply |
| `EvalLaws.NoPower` | src/eval_math.c:109-112 | other exponents fail |
| `EvalLaws.Alone` | src/eval_math.c:94-99 | a number, a negative number and a number with a suffix |
| `EvalLaws.Precedence` | src/eval_math.c:167-189 | for every two operators side by side, which of them is applied to the result of the other |
| `EvalLaws.Parentheses` | src/eval_math.c:139-165 | parentheses overrule that on either side |
| `EvalLaws.SignInFront` | src/eval_math.c:94-99 | a minus sign in front takes the first number, or the whole power |
| `EvalLaws.SignsAndSuffixes` | src/eval_math.c:191-200 | behind an operator a minus sign or a suffix takes its own number |
| `EvalSound.StepRead` | src/eval_math.c:205-341 | every token read keeps the parser's state a piece of an expression, with its text and its values, as long as no parenthesis opens behind a number or closes before one |
| `EvalSound.RegularIff` | src/eval_math.c:355-380 | on token lists without such parentheses a value is given if and only if they are an expression with that value that fits the stacks |
| `EvalSound.AcceptedIff` | src/eval_math.c:355-380 | an accepted token list is an expression with the value it is given if and only if it has no such parenthesis |
| `EvalSound.PrintRegular` | src/eval_math.c:355-380 | no printed expression has one |
| `EvalSound.OpenBehindNumber` | src/eval_math.c:288-290 | one that opens behind a number is accepted although no expression is written so |
| `EvalSound.CloseBeforeNumber` | src/eval_math.c:222-225 | and so is one that closes before a number, whose operators take arguments from outside |
| `EvalMachine.EvalState.DoPower` | src/eval_math.c:103-122 | exponents 0 to 63 and no others; the loop computes the power |
| `EvalMachine.EvalState.PopOperator` | src/eval_math.c:124-137 | the arrays change as the stacks of the specification do |
| `EvalMachine.EvalState.PushOperator` | src/eval_math.c:167-189 | likewise, reporting the write past the end that the code does not guard against |
| `EvalMachine.EvalState.HandleRightParen` | src/eval_math.c:139-154 | likewise |
| `EvalMachine.EvalState.Parse` | src/eval_math.c:205-341 | one call of the current parse function is one step of the specification |
| `EvalMachine.EvaluateTokens` | src/eval_math.c:355-380 | the loop over arrays gives what the specification gives on every token sequence |
| `Base64.ByteToCharRight` | src/3rdparty/base64.c:68-75 | the branch-free character map is the alphabet of section 4 of RFC 4648 |
| `Base64.CharToByteIs` | src/3rdparty/base64.c:81-91 | the branch-free inverse gives a character's value, 255 outside the alphabet, and 63 for negative characters |
| `Base64.StopsIff` | src/3rdparty/base64.c:81-91 | a character outside the alphabet is recognised if and only if it is not negative |
| `Base64.GroupBits` | src/3rdparty/base64.c:101-136 | four groups of six bits are the bits of three bytes, highest first |
| `Base64.RoundTrip` | src/3rdparty/base64.c:101-192 | decoding the encoding of any byte string accepts it and gives it back |
| `Base64.EncodesBack` | src/3rdparty/base64.c:151-192 | a text with a clean end is the encoding of what it decodes to |
| `Base64.AcceptedIff` | src/3rdparty/base64.c:179-187 | a text of the alphabet is accepted if and only if it is the unpadded encoding of some byte string (section 3.5 of RFC 4648) |
| `Base64Loops.ToBase64` | src/3rdparty/base64.c:101-136 | with a wrapping accumulator the buffer gets exactly the text and a NUL, or fails untouched when there is no room for both |
| `Base64Loops.FromBase64` | src/3rdparty/base64.c:151-192 | succeeds if and only if the text up to the stop ends cleanly and its bytes fit; then the buffer holds exactly those bytes |
| `VcdiffInts.Mask32` | src/3rdparty/xdelta3/xdelta3-internal.h:145-145 | the overflow mask holds exactly where one more digit would not fit 32 bits |
| `VcdiffInts.Mask64` | src/3rdparty/xdelta3/xdelta3-internal.h:146-146 | and 64 bits |
| `VcdiffInts.RoundTrip` | src/3rdparty/xdelta3/xdelta3-internal.h:186-233 | a number that was written is read back, in full and no further, whatever follows (section 2 of RFC 3284) |
| `VcdiffInts.Example` | src/3rdparty/xdelta3/xdelta3-internal.h:215-231 | the example of section 2 of RFC 3284 |
| `VcdiffInts.Length` | src/3rdparty/xdelta3/xdelta3-internal.h:215-278 | the emitted form has exactly the length the size functions say, in both widths |
| `VcdiffInts.ReadInteger` | src/3rdparty/xdelta3/xdelta3-internal.h:186-213 | succeeds if and only if the integer is complete and fits the width |
| `VcdiffInts.Stream.DecodeInteger` | src/3rdparty/xdelta3/xdelta3-internal.h:160-184 | a call goes on where the last one ran out and reports what the bytes seen so far mean |
| `VcdiffInts.DecodeChunks` | src/3rdparty/xdelta3/xdelta3-internal.h:160-184 | input cut anywhere gives what it gives at once; it is rejected if and only if the value does not fit |
| `VcdiffInts.EmitInteger` | src/3rdparty/xdelta3/xdelta3-internal.h:215-231 | the ten-byte buffer is never exceeded and the result is the shortest form |
| `Semver.TotalPreorder` | src/3rdparty/semver.c/semver.c:294-303 | the comparison is reflexive, of opposite sign the other way round and transitive on all versions |
| `Semver.NumbersDecide` | src/3rdparty/semver.c/semver.c:273-303 | the first of major, minor and patch that differs decides, whatever the prereleases are |
| `Semver.PrereleaseBelow` | src/3rdparty/semver.c/semver.c:206-254 | a prerelease is below its release, and between prereleases of one release their identifiers decide |
| `Semver.FirstKeyDecides` | src/3rdparty/semver.c/semver.c:206-254 | of two lists of identifiers the first that differs decides: numbers by value, texts byte by byte |
| `Semver.TextIff` | src/3rdparty/semver.c/semver.c:233-244 | a text is below another if and only if it comes first in the order of strcmp |
| `Semver.KeyOfNegative` | src/3rdparty/semver.c/semver.c:226-229 | digits behind a hyphen count for the negative number |
| `Semver.KeysOrder` | src/3rdparty/semver.c/semver.c:206-254 | so is the comparison of identifier lists, and only equal lists compare equal |
| `Semver.NumericBelowText` | src/3rdparty/semver.c/semver.c:231-232 | numeric identifiers are below all others (section 11 of Semantic Versioning 2.0.0) |
| `Semver.BelowExtension` | src/3rdparty/semver.c/semver.c:246-250 | a list of identifiers is below every longer list that starts with it |
| `Semver.NumberInside` | src/3rdparty/semver.c/semver.c:226-229 | a number is read from an identifier as if it stood alone |
| `Semver.CompareIdentifiers` | src/3rdparty/semver.c/semver.c:221-244 | one step of the walk compares what the two identifiers count for |
| `Semver.ComparePrereleases` | src/3rdparty/semver.c/semver.c:206-254 | the walk over both texts gives the comparison of their identifier lists |
| `Semver.NumericOrderIff` | src/3rdparty/semver.c/semver.c:226-236 | a numeric identifier is ordered by value against all that fit an int if and only if it fits an int itself |
| `Semver.NumericIff` | src/3rdparty/semver.c/semver.c:226-229 | an identifier counts as a number if and only if it is empty, or white space, a sign and digits, the first two of which may be missing |
| `Semver.StandardIff` | src/3rdparty/semver.c/semver.c:226-232 | over the characters identifiers may have, this is the classification of section 11 of Semantic Versioning 2.0.0 except exactly for the empty identifier and for a hyphen followed by digits only |

## Left out

Assumptions of the block cache model:

- Writes are multiples of 512 bytes, start on a block, and end inside a hard end of the media.
- Reads and writes stay below the end of the trim bit vector, the first 64 GiB. Growing it is not modelled; as written it does not grow past an index that is a multiple of 4096 (src/block_cache.c:38). This is the reason for the following requirements:
- TrimBits.ClearBit: requires the segment to have a bit; the original ignores the others or grows the vector for them.
- BlockCaching.BlockCache.ReadSegment: requires a tracked segment.
- BlockCaching.BlockCache.GetSegment: requires a tracked segment.
- BlockCaching.BlockCache.Pwrite: requires the write to end inside what is tracked.
- BlockCaching.BlockCache.Pread: requires the read to end inside what is tracked.
- CacheRuns.Perform: requires tracked offsets.
- CacheRuns.Execute: requires tracked offsets.
- BlockCaching.BlockCache.constructor: a device that stores other bytes than it reports is admitted only with verified writes.
- The decrypt callback is not set: it would apply to every segment that is read, trimmed ones excepted.
- The access timestamp does not wrap.
- Cached segments are values in a sequence, the flag bytes a sequence; the embedded buffers of the original and aliasing between them are not modelled.
- BlockCaching.BlockCache.Flush: takes the order that qsort produces as a parameter, required to respect the comparison function; `FlushOrder.FlushOrderExists` shows that one always exists.
- Discarding on the device, progress reports and error messages.

Assumptions elsewhere:

- WriterThread.InvRun: mutex and condition variable are atomic steps; the writer's transfer is split from its read of the offset, handing over from the look for an earlier error behind it, and a step that waits is enabled once its wait is over.
- WriterThread.IntactIffNoClash: segments hold one content value and one dirty mark, not blocks.
- WriterView.ThreadedRun: whole segments, read in by the miss that claims them, without trims and resets; blocks, partial writes and trim bits are compared with a flat array for the single-threaded build (`CacheRuns.Execute`).
- PadWriter.PadToBlockWriter.Pwrite: requires some bytes to write; an empty write, which no caller makes, would start a block of zeros.
- AesLoops.CryptXts: the AES block function, its key schedule and its tables are any invertible function on 16 bytes; a failing block function is not modelled.
- RawWriting.RawWrite: the BLAKE2b hash is any function, and the whole data is hashed at once. Chunks from the archive are not empty. The map is taken as given and its length is not zero; building it from SEEK_HOLE is left out.
- SparseRead.WriteResource: read errors are left out; reads may be short.
- DiskCrypto.CryptSectors: key parsing and option handling are left out.
- UbootProtocol.UpdateIsAtomic: a copy whose writing was cut short is as before, complete, or fails its checksum; names contain no '=' behind their first character, values no NUL, and no readable copy names a variable twice. Disks that reorder the blocks of different writes are not modelled.
- UbootProtocol.RunIsAtomic: speaks of a medium that is written directly after every update; what the cache makes of it is `UbootCuts.TaskCutsIff`.
- UbootProtocol.ClearIsAtomicIff: speaks of a medium that is written directly, first copy first; clears that go through the cache, alone or between changes, are covered by `UbootCuts.TaskCutsIff`.
- UbootCuts.TaskCutsIff: requires, of the copy that is written first, that its checksum changes if it changes at all, since a cut between two equal checksums need not be noticed; `UbootLayouts.CounterOnlyIff` covers the copies of which only the counter changes. Equal checksums over different texts are not covered.
- UbootEdits.OwnSegmentsIff: requires the checksum of the copy in use to change, from three changes on and for odd numbers, for the same reason.
- UbootEdits.OneSegmentIff: requires it from two changes on.
- UbootLayouts.AnyLayoutIff: requires that a mixture of the old and the new copy fails its checksum wherever a flush can be cut, for copies that share a segment without lying in one. A 32-bit checksum does not promise that for every text.
- UbootFailures.FailingRun: requires each copy to lie in one segment. The cache is given by its entries; that the operations lead to one like it is what `UbootTask.RunTask` promises.
- UbootTask.RunTask: speaks of cuts in the flush at the end, on an honest device, as long as no segment of the environment was evicted and written back before it and none is marked trimmed; a write that fails stands for a cut. A copy left torn is taken to fail its checksum. After a flush that failed the original flushes once more, before it closes the output (src/fwup_apply.c:598-607); here the failed write is the end. Functions of the task other than changes to one environment are left out.
- UbootEnvironment.UbootEnv.Sort: stands for qsort by an insertion sort; for distinct names every sort gives the same (`UbootPairs.OrderedUnique`), for repeated names the original's order is not defined.
- The environment with a single copy, and its configuration checks.
- EvalMath.Evaluate: numbers are lexed beforehand and arithmetic is on unbounded integers, so it speaks for the original only where no result leaves 64 bits. Writing past the operator stack ends the run.
- VcdiffInts.ReadInteger: on unbounded integers; `VcdiffInts.Mask32` and `VcdiffInts.Mask64` connect the arithmetic to the mask and shift of either width.
- Semver.Compare: versions are compared as already parsed; `long` has 64 bits and `int` 32.

Parts of the repository that are not modelled:

- Command line, progress, framing output, device scanning and mounting: they call the operating system or format text for the user. MBR and GPT layout, hex and UUID conversion: each fills fixed fields of one buffer from its arguments, keeps no state and feeds none of the parts modelled here.
- libarchive, libconfuse, FatFs, monocypher and the xdelta3 decoding engine are not part of this model.
- The file matching of the FAT functions, whose search does not cover bytes carried over between buffers.
