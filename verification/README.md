# Random access into compressed files

lzopfs reads any part of a compressed file without decompressing what comes
before it. It does so by first finding places in the file where decompression
can start, keeping them in an index of blocks, and then decompressing only the
blocks a read touches, through a cache that many readers share. This project
models that machinery and proves that it delivers the right bytes.

* **bzip2** (`Bits`, `Bzip2Format`, `Bzip2Align`, `Bzip2Scan`, `Bzip2Seams`,
  `Bzip2Index`, `Bzip2Gap`, `Bzip2Recover`, `Bzip2Full`).
  Blocks start at any bit. A table-driven scan over an overlapping chunk buffer
  stands in for a search of every bit; a two-cursor walk tells true boundaries
  from spurious ones by decompressing; a bit range is shifted in place and
  dressed up as a file of its own. The scan is proved to refine the naive
  search, the walk to recover exactly the true boundaries, and the dressed-up
  file to have exactly the bits it should. Together, from the bytes of a file
  and the library, they do one of three things: index exactly the true blocks,
  index only those of the first streams, or throw. It is said exactly when.
* **gzip** (`Deflate`, `GzipLayout`, `GzipSpec`, `GzipReader`, `GzipFile`,
  `GzipUse`). The indexer tries every DEFLATE block with an empty window, rolls
  the reader back, and files the block as independent, as needing a window, or
  not at all. DEFLATE is modelled as literals and copies (sections 2 and 3.2.5 of
  RFC 1951), gzip as members (section 2.2 of RFC 1952). The index is proved
  sound, the rollback invisible, and the indexer terminating.
* **lzop and xz** (`Lzop`, `Xz`). Both scans are proved to find a layout exactly
  when the file has one.
* **The index file and lookup** (`Blocks`, `BlockIndex`, `Lookup`).
* **The cache and the read path** (`Lru`, `BlockCache`, `BlockCacheInv`,
  `BlockCacheRuns`, `BlockCacheEnds`). Any number of callers and workers, as
  interleaved steps: every read returns its bytes, nothing deadlocks, and every
  run ends.
* **EndToEnd** ties them together: what each builder produces is what the cache
  relies on.

Classes and loops stand where the program has objects and loops; each method is
proved against a function of its inputs or its old state, and the properties are
lemmas about those functions. `dafny verify dfyconfig.toml` checks everything.

## What the proofs bring to light

* A gzip index may hold empty blocks: exactly those made at a member's trailer,
  when the member ends more than the minimum block size past the last entry
  (`GzipUse.EmptyBlocks`). Reads cope with them, but the saved index does not:
  a size of zero means end of index (`CompressedFile.cc:138`), so everything after
  is lost on reload. `GzipUse.SavedIndex` gives the exact condition and
  `GzipUse.SecondMemberLost` a family of two-member files.
* An empty first block hides the start of a file from `findBlock`: the last byte
  of such a block wraps around (`CompressedFile.cc:60`). `Lookup.LookupWorks` is
  the exact condition; the gzip builder never meets it (`EndToEnd.GzipFirst`).
* The byte at a seam of two chunks is tested twice (`Bzip2File.cc:73`, `:99`), so
  a block that starts at the first bit of such a byte is always reported twice.
  The walk then tries the range from the byte to itself; the read finds nothing
  and throws `EOFException` (`FileHandle.cc:81-82`) outside the `try` that erases
  spurious boundaries (`Bzip2File.cc:205-207`), and the file gets no index. With
  full reads this happens exactly to files with a block at the first bit of a
  multiple of 4087, up to the first stream whose level is misread
  (`Bzip2Full.IndexFile`, `Bzip2Full.FullReadsBack`, `Bzip2Index.StopsAt`,
  `Bzip2Index.TwiceStops`). Boundaries reported twice that are not of this kind
  do no harm (`Bzip2Index.TwiceIsOnce`).
* The same double test makes the count of bytes until the next level
  (`Bzip2File.cc:74`) run early by one for each seam in between.
  `Bzip2Scan.LevelRead` says exactly when the level is right. With full reads, it
  is read as the 'h' before it after an end of stream whose first full byte is at
  most twelve before a multiple of 4087, or at one and not reported there again
  (`Bzip2Full.NextLevel`). bzip2 takes no such level, so the walk erases every
  later boundary (`Bzip2File.cc:208-213`). There is no error, and the index, which
  is saved, ends with the stream before. So with full reads the index is complete
  if and only if no block is at the first bit of a multiple of 4087 and no stream
  follows one that ends so (`Bzip2Full.AllIndexed`); `Bzip2Full.SecondStreamLost`
  is a family of files that lose their second stream.
* A block that starts inside a byte and is reported twice is tried from its
  first bit to its first bit. The buffer is used again, so what is decompressed
  is a file without blocks whose checksum is that of the block decompressed
  before (`Bzip2Align.CreateAlignedBlock`, `Bzip2File.cc:140-143`). bzip2 rejects
  it, unless that checksum happens to be zero; then it would be an empty block in
  the index.
* A trial at the trailer of a gzip member takes the checksum for a DEFLATE block.
  If that runs past the end of the file, `EOFException` (`FileHandle.cc:93-100`)
  leaves `buildIndex`, and the file gets no index (`GzipFile.GzipFile.BuildIndex`).
* A trial stream is primed with the byte before the input pointer
  (`GzipReader.cc:168`). That byte is no longer in the buffer if it was the last
  of a chunk and its block's output did not fit the output buffer: inflate is then
  called once more for the rest, after more input has been read.
  `GzipReader.PrimedByte` is the exact condition.

## Assumptions

* The compression libraries are deterministic. bzip2's answer to a dressed-up
  range of at least 80 bits, the size of a block's magic number and checksum,
  depends on its level and data alone, and not on what the buffer holds after its
  end. It rejects shorter ranges at whose start the scan reports a block, and a
  file without blocks whose checksum is not zero (`Bzip2Index.Answers`;
  `Bzip2Index.HasAnswers` puts the same of the library alone). It rejects levels
  other than '1' to '9' (`Bzip2Recover.NeedsLevel`). No block it takes is empty
  (`EndToEnd.NoEmptyBlocks`) or has checksum zero (`Bzip2Index.NoZeroSums`).
  LZO is a function from stored bytes; liblzma gives the backward size in a
  footer and the size of the stream whose index is at a position, at least 32
  bytes.
* The true boundaries of a bzip2 file (`Bzip2Recover.Truth`) are those of the
  format: blocks end to end, each decompressing up to its end and to nothing
  before it that the scan could report; streams end to end, each padded with
  zero bits and followed by the header of the next; no block ends at anything
  that could be reported after the last.
* zlib's inflate, called with `Z_BLOCK`, may take and put out any amount per call
  that makes progress within the current header, block or trailer, stops at every
  boundary, and fails on a copy that reaches before what it knows.
  Checksums are not looked at.
* A gzip trial started at a member's trailer fails, or runs past the end of the
  file (`GzipLayout.Hungry`); one started at a header fails, since its first bits
  name no block type. The input to the gzip indexer is laid out as members;
  whether its copies are valid is up to the input.
* The block factor is at least one.
* The first read of the bzip2 scan delivers at least nine bytes; any later read
  may be short. The byte before the buffer, which the scan reads at the start of
  every chunk, is arbitrary. Reads of a block's range are full. The walk is
  given at least one candidate boundary, the first of them the block in the
  header, as it is for every file that passes the check of its type and has
  thirteen bytes (`Bzip2Recover.FirstFound`).
* Only a signal wakes a waiting thread, jobs throw nothing, and at least one
  worker is running. The pool's queue, a callback's raising of `max` and a
  worker's decrement are critical sections that block on nothing inside, and are
  single steps; the cache mutex and a call's condition variable are held across
  steps.
* `off_t` and `size_t` do not overflow. `usize` and `csize` are 32 bits wide: the
  builders truncate, and the results about reading say when that changes nothing.

## Model

| member | source | states |
|---|---|---|
| Bzip2Align.TryPRead | FileHandle.cc:77-84 | a positioned read delivers a prefix of what was asked for, nothing only at the end of the file, and leaves the rest of the buffer alone; a full one delivers everything there is |
| Bzip2Align.ShiftLeft | Bzip2File.cc:122-125 | in place, each byte becomes the old bits of itself and its successor; bytes outside the range keep their values |
| Bzip2Align.ShiftedBits | Bzip2File.cc:122-125 | so bit k of the shifted range is bit k + 8 - bits of what was read, for all but the last few bits, which depend on the unknown next byte |
| Bzip2Align.WriteFooter | Bzip2File.cc:145-151 | ten footer bytes written at any bit position leave all earlier bits alone and are themselves intact |
| Bzip2Align.DataBits | Bzip2File.cc:116-125 | the bytes read, moved into place, are exactly the first bits of the range |
| Bzip2Align.ReadData | Bzip2File.cc:120-125 | for any short read, the buffer holds the bits delivered, aligned, and its header is untouched |
| Bzip2Align.ChecksumBits | Bzip2File.cc:140-143 | the checksum put into the footer is bits 48 to 79 of the range |
| Bzip2Align.EndOfData | Bzip2File.cc:127-133 | the data kept ends at the bit the range and the read ask for, whatever the two bit offsets |
| Bzip2Align.CreateAlignedBlock | Bzip2File.cc:107-152 | the result is "BZh" and level, then exactly bits 8*coff-bits up to 8*end-endbits of the file (or as many as a short read delivers), the end-of-stream magic, and the block's checksum; of the buffer's old bytes only the checksum of an empty range is left, and the result is then a file without blocks; a read too short to reach past the bits cut off loses the end of the level; it throws exactly when there is nothing to read |
| Bzip2Scan.FirstBytesDistinct | Bzip2File.cc:42-45 | no first full byte occurs twice among the sixteen shifted magics |
| Bzip2Scan.BackBitsTable | Bzip2File.cc:46-57 | the table says for each byte how far a magic would be shifted if this were its first full byte |
| Bzip2Scan.CandidateMatches | Bzip2File.cc:82-89 | assembling the 48 bits from eight bytes and the previous one gives a magic exactly when the bits there are that magic |
| Bzip2Scan.TableLook | Bzip2File.cc:77-89 | one table entry and one comparison decide the same as comparing both magics at all eight shifts |
| Bzip2Scan.VisitByte | Bzip2File.cc:74-95 | one pass of the loop is one step of the reference scan |
| Bzip2Scan.ScanChunk | Bzip2File.cc:72-96 | a chunk visits its bytes in order, the first of them with an unknown byte before it |
| Bzip2Scan.TryRead | FileHandle.cc:93-100 | a read delivers at least one and at most the asked number of bytes |
| Bzip2Scan.CarryOver | Bzip2File.cc:99 | the last nine bytes of the chunk are now its first nine |
| Bzip2Scan.NextChunk | Bzip2File.cc:99-102 | the nine bytes carried over and any short read continue the file without gap |
| Bzip2Scan.FindBlockBoundaryCandidates | Bzip2File.cc:36-104 | whatever the reads deliver, the list is in file order and reports every magic after bit 0 with its first full byte at least nine bytes from the end; bytes 0 to size-9 are each tested in order, once, or twice at a seam |
| Bzip2Scan.ScanRefinesNaive | Bzip2File.cc:38-45 | leaving out reports made at seams, the scan reports exactly what a search of every bit finds, in the same order |
| Bzip2Scan.FoundInOrder | Bzip2File.cc:88-92 | reported positions never decrease |
| Bzip2Scan.UntrustedAtSeams | Bzip2File.cc:73-85 | a report the naive search would not make can only come from a seam |
| Bzip2Scan.NothingMissed | Bzip2File.cc:38-41 | every magic after bit 0 with its first full byte at least nine bytes from the end is reported at its own bit |
| Bzip2Scan.LevelRead | Bzip2File.cc:68-75 | the level is the byte the count intends exactly when no seam is crossed, and otherwise one byte early per seam |
| Bzip2Scan.FullChunk | Bzip2File.cc:97-102 | with full reads, visit k is to byte k - k/4088: a chunk tests 4088 bytes and begins with the last of the one before |
| Bzip2Seams.ScanGivesCandidates | Bzip2File.cc:46-95 | candidates are in order, inside the file, not at byte 0, and two at the same byte are the same boundary |
| Bzip2Seams.TwiceAtSeam | Bzip2File.cc:73-99 | a byte is only reported twice if a seam goes back to it |
| Bzip2Seams.AlignedTwice | Bzip2File.cc:84-93 | a magic number at the first bit of a byte that a seam goes back to is reported twice in a row |
| Bzip2Seams.FullReadSeams | Bzip2File.cc:97-102 | with full reads, the scan goes back to the multiples of 4087 and to no other byte |
| Bzip2Seams.FirstLevel | Bzip2File.cc:68-75 | with full reads, the first level is read right |
| Bzip2Seams.EOSSeen | Bzip2File.cc:89-94 | an end of stream in the file is reported by the visit to its first full byte |
| Bzip2Seams.FullReadLevel | Bzip2File.cc:68-94 | with full reads, the level after an end of stream at byte p is byte p + 13, except when a multiple of 4087 lies at most twelve ahead (or is p, tested for the first time): then it is byte p + 12 |
| Bzip2Seams.LevelMissed | Bzip2File.cc:68-94 | in that case the level of the stream that follows is read as 'h' |
| Bzip2Index.GreedyRecovers | Bzip2File.cc:195-222 | the boundaries left are the true ones if and only if each block decompresses to its true end, to no candidate before it, and no candidate lies between a stream's end and the next block |
| Bzip2Index.StopsAt | Bzip2File.cc:200-214 | the walk throws if and only if a block boundary that it keeps, at the first bit of a byte, is directly followed among the candidates by one at that byte |
| Bzip2Index.TwiceStops | Bzip2File.cc:205-207 | it throws at a second block at the first bit of a byte that is reported twice |
| Bzip2Index.HasAnswers | Bzip2File.cc:154-189 | answers by range exist exactly for a library that answers all ways of filling the rest of the buffer alike and rejects short ranges and files without blocks but with a checksum |
| Bzip2Index.TryRange | Bzip2File.cc:205-214 | aligning and decompressing the range between two candidates throws, or asks the library about exactly that range; a range without data is rejected as long as the buffer has a checksum other than zero, which it keeps |
| Bzip2Index.BuildIndex | Bzip2File.cc:191-223 | the two-cursor erase loop, with one buffer for all its tries, throws exactly where the walk stops, and otherwise leaves exactly the greedy boundaries and one block for each pair that is not between streams |
| Bzip2Index.TwiceIsOnce | Bzip2File.cc:198-222 | an end of stream, or a block that starts inside a byte, reported twice by a seam leaves the blocks, and whether the walk throws, as they would be had it been reported once |
| Bzip2Index.SettleLevel | Bzip2File.cc:202-203 | taking over a level late changes neither the boundaries nor the blocks nor whether the walk throws |
| Bzip2Index.SameQuestion | Bzip2File.cc:225-234 | reading a block back asks the library about the very range it was made from, if its compressed size fits 32 bits, and succeeds exactly if the other size does |
| Bzip2Index.Decompress | Bzip2File.cc:225-234 | cutting a block out of the file and decompressing it asks the library about the block's range, and accepts the answer only in the right size |
| Bzip2Index.IndexSound | Bzip2File.cc:191-234 | the blocks tile the decompressed content and each decompresses to its slice if and only if no uncompressed size exceeds 32 bits |
| Bzip2Gap.GapQuiet | Bzip2File.cc:77-89 | between the end of a stream and the first magic number of the next, nothing looks like a boundary, whatever byte is taken to come before |
| Bzip2Recover.FoundPossible | Bzip2File.cc:73-95 | what the scan reports is a magic number in the file, or what looks like one after some other byte, at a byte that a seam goes back to |
| Bzip2Recover.FirstFound | Bzip2File.cc:13-34 | the first boundary found is the block magic of the header |
| Bzip2Recover.AllReported | Bzip2File.cc:38-45 | every magic number in the file is reported, by the first report of its byte |
| Bzip2Recover.Walked | Bzip2File.cc:198-222 | walking what the scan may report ends at the true blocks, or throws at a true block reported twice |
| Bzip2Recover.AsRead | Bzip2File.cc:198-222 | with the levels the scan reads, a file's true boundaries up to a misread level are all that the walk can end a block at |
| Bzip2Recover.Recovered | Bzip2File.cc:191-223 | whatever the reads deliver, scan and walk leave exactly the true blocks of the streams before any whose level is read as none, unless one of them starts at the first bit of a byte the scan goes back to; exactly then the walk throws |
| Bzip2Recover.BlocksWhole | Bzip2File.cc:225-234 | every block between true boundaries can be cut out of the file again |
| Bzip2Full.FullReadsBack | Bzip2File.cc:97-102 | with full reads, the scan goes back to exactly the multiples of 4087 before the last byte it tests |
| Bzip2Full.FirstLevelRead | Bzip2File.cc:68-75 | with full reads, the first block is reported with the level in the header |
| Bzip2Full.NextLevel | Bzip2File.cc:68-94 | with full reads, the first block of a later stream is reported with the level in its header, or, if a multiple of 4087 lies at most twelve bytes after the end of stream before (or at it, and it is not reported again), with 'h' |
| Bzip2Full.CutIs | Bzip2File.cc:198-222 | so the streams whose level is misread as none are exactly those after such an end of stream |
| Bzip2Full.IndexFile | Bzip2File.cc:191-223 | from a file and a library: with full reads there is no index if a true block, up to the first stream after an end of stream as above, starts at the first bit of a multiple of 4087; otherwise the index has exactly the true blocks up to there, and it has all of them if and only if none of them starts so and none follows such an end of stream; and the like for reads that deliver any number of bytes |
| Bzip2Full.AllIndexed | Bzip2File.cc:191-223 | with full reads, the index has all true blocks if and only if none starts at the first bit of a multiple of 4087 and none follows such an end of stream; otherwise there is none, or the index is a proper prefix of them |
| Bzip2Full.SecondStreamLost | Bzip2File.cc:191-223 | two-stream files whose index has only the first block |
| Deflate.CopyRepeats | GzipFile.cc:125-131 | byte for byte, a copy of distance d puts out what stands d bytes before in history and output, its own output included (section 3.2.3 of RFC 1951) |
| Deflate.CopyUnique | GzipFile.cc:125-131 | no other run of bytes does |
| Deflate.DecodeExact | GzipFile.cc:125-131 | a decode ends well with given output if and only if, in that output, each literal stands at its own place, each byte of a copy equals the byte its distance before, and there is nothing else |
| Deflate.DecodeStops | GzipFile.cc:98-100 | a decode that fails stops at the first copy that reaches back further than there is anything, with the output up to there |
| Deflate.SuffixAgrees | GzipFile.cc:42-46 | a decoder with more history puts out the same and only gets further |
| Deflate.WindowEnough | GzipFile.cc:7 | history older than 32768 bytes never matters |
| GzipLayout.MemberDecodes | GzipFile.cc:81-87 | the blocks of a member decode like one run of tokens from nothing; output adds up over members, and no history goes from one to the next |
| GzipSpec.TrialDecides | GzipFile.cc:57-60 | a trial that survives more than a window, or to the end of its member, needs nothing from before it, and one that needs nothing survives |
| GzipSpec.WindowContained | GzipFile.cc:58 | with more than a window of its own output, a trial can never fail later |
| GzipSpec.FirstBlock | GzipFile.cc:57-73 | the first block of a member is never filed as needing a window |
| GzipSpec.WindowTracks | GzipFile.cc:106-111 | decoding from a kept window agrees with the full decode to the end of the member |
| GzipSpec.PickTracks | GzipFile.cc:57-111 | every boundary the indexer picks can be decoded from with the window it keeps |
| GzipSpec.QuietBetween | GzipFile.cc:81-97 | nothing is put out between the end of a member and the next entry |
| GzipSpec.NextInMember | GzipFile.cc:54-115 | the next entry comes no later than the end of the member |
| GzipSpec.EntriesExactly | GzipFile.cc:54-115 | where there is an entry and of what kind: at a block that puts something out and needs nothing from before it, without a window; elsewhere, silent blocks aside, exactly when more than the minimum block size has been put out since the last entry, with the last 32768 bytes as window |
| GzipSpec.EntriesSound | GzipFile.cc:54-116 | from each entry, decoding gives exactly the bytes up to the next entry |
| GzipSpec.OffsetsDistinct | GzipFile.cc:90-92 | entries are in file order and no two share a compressed offset, which is what the cache uses as key |
| GzipSpec.EmptyAtTrailer | GzipFile.cc:106-111 | an entry covers no bytes if and only if it was made at a trailer |
| GzipSpec.Granularity | GzipFile.cc:106 | the next entry is at most the minimum block size and one DEFLATE block away |
| GzipSpec.SizesBounded | GzipFile.cc:106-111 | so the sizes of entries are bounded |
| GzipReader.HoldsWrite | GzipReader.h:84 | writing into the circular buffer keeps the last window of output in it |
| GzipReader.HoldsWindow | GzipReader.cc:182-186 | rotating the buffer gives the last window, oldest byte first |
| GzipReader.OneCall | GzipReader.cc:30-44 | one call to inflate either makes progress inside the item or ends it with the output the decode gives |
| GzipReader.PrimedByte | GzipReader.cc:167-168 | the byte whose unused bits a new stream must be primed with is left of the input pointer in the buffer if and only if the call that finished the block took it, or no input was read since a call that took it and kept output back |
| GzipReader.SavingGzipReader.constructor | GzipReader.h:153-155 | a new reader stands at the start of the file |
| GzipReader.SavingGzipReader.Refill | GzipReader.cc:32-38 | reading on, and starting the output buffer over, change nothing the stream knows |
| GzipReader.SavingGzipReader.Step | GzipReader.cc:30-44 | counts and output advance by exactly what inflate put out |
| GzipReader.SavingGzipReader.Block | GzipReader.cc:90-100 | ends at the next boundary with the block's output added, at the end of the member, with an error exactly when the block does not decode, or past the end of the file; it terminates |
| GzipReader.SavingGzipReader.Save | GzipReader.cc:150-172 | puts the whole state aside and stands at the same boundary as a raw stream that knows nothing, primed with exactly the unused bits of the file before the input, if the byte they are from is in the buffer |
| GzipReader.SavingGzipReader.Restore | GzipReader.cc:174-180 | brings back stream, input, window, wrapper, positions and file position |
| GzipReader.SavingGzipReader.SkipFooter | GzipReader.cc:133-144 | raw or wrapped, the reader ends up just past the trailer, whether or not it was buffered |
| GzipReader.SavingGzipReader.Reset | GzipReader.h:138-139 | the reader stands at the next header with an empty window |
| GzipReader.SavingGzipReader.CopyWindow | GzipReader.cc:182-186 | returns exactly the last 32768 bytes put out, oldest first |
| GzipReader.TrialLeavesNoTrace | GzipReader.cc:150-180 | after a save, any number of trial blocks and a restore, the reader equals the one before the save; there is no restore only if the trial began at a trailer and ran past the end of the file |
| GzipFile.GoodBlock | GzipFile.cc:54-56 | a reader that knows its member, or more than a window of it, decodes every block like the full decode and stays such a reader |
| GzipFile.GoodMember | GzipFile.cc:81-87 | so does one that moved on to the next member |
| GzipFile.TrialBlock | GzipFile.cc:55-80 | what one more block says about a trial, running out of file included; and a one-block trial that is kept is as good as the reader it replaces |
| GzipFile.TryOn | GzipFile.cc:57-79 | success, emptiness, progress and failure of a trial, each with the state it leaves, saved reader included |
| GzipFile.TryFailed | GzipFile.cc:98-113 | a failed trial keeps a full window if it is far enough from the last entry, and the live reader began early enough to have one |
| GzipFile.PendingSized | GzipFile.cc:22-35 | fixing sizes one entry late gives every entry the distance to the next |
| GzipFile.GzipFile.SetLastBlockSize | GzipFile.cc:22-28 | only the last block changes, and only its sizes, modulo 2^32 |
| GzipFile.GzipFile.AddBlock | GzipFile.cc:30-35 | the list is the one for the entries so far and the new one |
| GzipFile.GzipFile.BuildIndex | GzipFile.cc:37-118 | terminates in spite of rewinds; unless a trial goes astray for lack of the byte to prime it with, succeeds if and only if the file decodes and no trial at a trailer runs past its end; the list is then exactly the sized entries |
| GzipUse.BlocksRead | GzipFile.cc:125-131 | every block, decoded from its offset, bits and window, gives exactly its slice of the output, even if its size has been cut off to 32 bits |
| GzipUse.BlocksCover | GzipFile.cc:22-35 | the blocks tile the whole output from 0 if and only if no size has been cut off |
| GzipUse.StoredEndToEnd | GzipFile.cc:22-28 | in the file, each block ends where the next starts and the last at the end, modulo 2^32 |
| GzipUse.SmallBlocksFit | GzipFile.cc:106-111 | none is, when the minimum block size and the output of any DEFLATE block add up to less than 2^32 |
| GzipUse.OffsetsIncrease | GzipFile.cc:89-93 | compressed offsets strictly increase |
| GzipUse.EmptyBlocks | GzipFile.cc:106-111 | a block is empty if and only if it was made at a trailer |
| GzipUse.SavedIndex | CompressedFile.cc:115-154 | the index survives saving and loading if and only if no distance between entries is cut off and none, to the end of the output included, is a multiple of 2^32; if none is cut off, if and only if no entry was made at a trailer |
| GzipUse.AllStorable | GzipFile.cc:162-174 | every block of an index fits its record, and a window kept is a full one |
| GzipUse.SecondMemberLost | CompressedFile.cc:136-139 | two-member files whose reloaded index ends with the first member |
| BlockIndex.RoundTripBE | FileHandle.h:71-86 | big-endian numbers read back as written, in any width they fit |
| BlockIndex.WordRead | FileHandle.h:71-75 | four bytes are read as the number they are, most significant first, and eight as two such words |
| BlockIndex.PackBitsBack | Bzip2File.cc:249-252 | both bit counts come back out of one byte |
| BlockIndex.PackFlagsBack | GzipFile.cc:152-157 | bit count and window flag come back out of one byte |
| BlockIndex.RecordRoundTrip | CompressedFile.cc:136-160 | a record of any of the three formats reads back as written, its position aside, and one of size zero as the end |
| BlockIndex.RecordBytes | CompressedFile.cc:156-160 | the bytes of a record: both sizes and the offset, most significant byte first; for bzip2 16 * endbits + bits, then the level; for gzip the bits, 128 more if there is a window, then the window |
| BlockIndex.Reload | CompressedFile.cc:115-154 | a saved list reads back up to its first empty block, with positions recomputed |
| BlockIndex.RoundTrip | CompressedFile.cc:115-154 | so a list reads back as it was if and only if its blocks lie end to end and none is empty |
| BlockIndex.CutShort | CompressedFile.cc:136-144 | a saved list cut off anywhere before its end is not read as a shorter list: reading it fails |
| BlockIndex.IndexedFile.WriteIndex | CompressedFile.cc:146-154 | appends the records and the end marker to the file |
| BlockIndex.IndexedFile.ReadBlock | CompressedFile.cc:136-144 | reads one record, the end marker, or finds the file too short |
| BlockIndex.IndexedFile.ReadBzip2 | Bzip2File.cc:244-256 | reads what bzip2 adds to a record |
| BlockIndex.IndexedFile.ReadGzip | GzipFile.cc:148-160 | reads what gzip adds to a record, with a window only if flagged |
| BlockIndex.IndexedFile.ReadIndex | CompressedFile.cc:115-134 | appends all records up to the end marker, fails if the file ends before it |
| BlockIndex.SaveAndLoad | CompressedFile.cc:90-109 | saving one file's list and loading it into another gives the blocks before the first empty one |
| Lookup.FindBlock | CompressedFile.cc:69-75 | the loop of `lower_bound` finds what the recursive search finds, or fails where that runs off the end |
| Lookup.LookupExact | CompressedFile.cc:57-75 | on a tiled list the search finds the one block holding the offset, and fails if and only if the offset is at or past the uncompressed size |
| Lookup.LookupWorks | CompressedFile.cc:59-61 | every offset is found if and only if the first block is not empty (or the file is) |
| Lru.AddExactly | LRUMap.h:66-83 | an add is refused if and only if its key is not held and it weighs more than the capacity, and then changes nothing; a held key keeps its value and moves to the front; a new one is put in front with its own value and weight, and of the others the longest run from the front stays for which there is room |
| Lru.FindExactly | LRUMap.h:85-93 | a find succeeds if and only if the key is held, which then moves to the front; otherwise nothing changes |
| Lru.Characterised | LRUMap.h:66-93 | after any history of add and find, the map holds exactly the longest prefix of the recency order that fits; an access counts in that order if its key is in that prefix at the time, or it adds a key that fits by itself |
| Lru.HeldIsLongest | LRUMap.h:41-48 | a held prefix that cannot take one key more is the longest that fits |
| Lru.HeldHit | LRUMap.h:50-52 | using a held key keeps the held prefix, moving the key to the front |
| Lru.HeldAdd | LRUMap.h:75-83 | adding a key leaves the longest prefix that fits |
| Lru.LRUMap.constructor | LRUMap.h:55 | a new map is empty, and list and map agree |
| Lru.LRUMap.MakeRoom | LRUMap.h:41-48 | drops from the back just as much as needed; list, map and weight stay in agreement |
| Lru.LRUMap.MarkNew | LRUMap.h:50-52 | moves one element to the front, keeping every map entry valid |
| Lru.LRUMap.SetMaxWeight | LRUMap.h:59-60 | lowers or raises the capacity, making room first |
| Lru.LRUMap.Insert | LRUMap.h:67-83 | is the add of the specification (`Lru.AddExactly`), refusal of what is too heavy included |
| Lru.LRUMap.Lookup | LRUMap.h:86-93 | is the find of the specification (`Lru.FindExactly`); what is found is now at the front |
| BlockCacheInv.CopyAt | OpenCompressedFile.cc:28-34 | a callback's copy puts the file's bytes exactly where the block and the request overlap and leaves the rest of the buffer alone |
| BlockCacheInv.CopyFills | OpenCompressedFile.cc:28-34 | copies for different blocks do not disturb one another |
| BlockCacheInv.FindKeeps | LRUMap.h:86-93 | a lookup never makes the cache hold anything new |
| BlockCacheInv.AddKeeps | BlockCache.cc:38-44 | what decompression adds keeps the cache right, whether added, refused or already there |
| BlockCacheInv.StepKeeps | BlockCache.cc:22-79 | every step of every thread keeps the invariant: each block of each call is called back, needed, queued, or held by exactly one worker; `remain` counts those not counted off; the cache holds only true block data; one thread holds the cache |
| BlockCacheInv.RunKeeps | BlockCache.cc:22-79 | so does every run of any number of clients and workers |
| BlockCacheRuns.EveryReadRight | OpenCompressedFile.cc:43-51 | in every run, a finished read returns min(size, total - offset) and its buffer holds exactly those bytes; every block of the range was called back exactly once; a failed one was past the end |
| BlockCacheRuns.RemainCounts | BlockCache.cc:48-50 | `remain` is the number of jobs of the call not yet past the decrement, and the call is only released at zero |
| BlockCacheRuns.SignalFindsWaiter | BlockCache.cc:70-78 | the signal cannot come before the wait |
| BlockCacheRuns.CopiesInBounds | OpenCompressedFile.cc:30-34 | no callback reads outside its block or writes outside the caller's buffer |
| BlockCacheRuns.CacheWithinLimit | BlockCache.cc:38-44 | in every run, the data held in the cache adds up to at most its capacity, each entry weighs what its data does, and no block is there twice |
| BlockCacheRuns.AddedIsCached | BlockCache.cc:38-44 | a decompressed block no larger than the cache is then its most recent entry, and others go only as far as they must |
| BlockCacheRuns.NoDeadlock | ThreadPool.cc:68-84 | while any call is unfinished, some thread can take a step |
| BlockCacheEnds.StepShrinks | BlockCache.cc:22-79 | every step but a new call strictly lowers the work left |
| BlockCacheEnds.RunsEnd | BlockCache.cc:22-79 | a run is at most as long as the work it starts with, at first one step for each worker, and what its new calls bring, at most fourteen steps per block of the file read and seven more, whatever the schedule |
| BlockCacheEnds.EveryCallReturns | BlockCache.cc:53-79 | when no thread can go on, every call has returned |
| Xz.PaddingExact | PixzFile.cc:59-65 | going back word by word finds exactly the maximal run of zero words |
| Xz.LayoutTiles | PixzFile.cc:70-86 | a layout is a tiling: streams from byte 0 to the end, each followed by a multiple of four zero bytes and not ending in four of them, its last twelve bytes a footer, its index the footer's backward size before that, and its own size the one the index gives |
| Xz.StreamsAreLayout | PixzFile.cc:47-100 | streams found backwards are the layout of the file, every layout is found, and there is at most one |
| Xz.LastWord | PixzFile.cc:59-65 | a chunk's loop finds the last word that is not zero and counts the zeros after it |
| Xz.SkipPadding | PixzFile.cc:50-67 | chunk edges do not matter: the padding is measured exactly, or too little of the file is left |
| Xz.ReadIndex | PixzFile.cc:39-101 | returns a list of streams if and only if they tile the file with their padding, each as its footer and its index say, and terminates |
| Lzop.HasNumber | FileHandle.h:71-75 | four bytes read as a number if and only if they are that number written |
| Lzop.PartsAreBody | LzopFile.cc:94-125 | scanning inverts writing the blocks of a member, both ways |
| Lzop.MembersAreLayout | LzopFile.cc:81-92 | scanning finds members if and only if the file is laid out as those members |
| Lzop.SumsAre | LzopFile.cc:94-117 | before a block's data, four bytes for each of the flags 0x1 and 0x100, and for each of 0x2 and 0x200 if its two sizes differ |
| Lzop.PartsInPlace | LzopFile.cc:104-125 | the blocks read from a position on stand there, one after another: two sizes, checksums, data, and a size of zero at the end |
| Lzop.InPlaceIsRead | LzopFile.cc:104-125 | and all blocks that stand so are read |
| Lzop.MembersInPlace | LzopFile.cc:81-92 | the file is read as members if and only if it is headers and blocks in place up to its end, and the index is then those blocks, tiled |
| Lzop.IndexDescribes | LzopFile.cc:115-123 | each listed block has the sizes and the position of its stored data, checksums skipped as its member's flags say; the list tiles the uncompressed file, no block is empty, and offsets strictly increase |
| Lzop.LzopScanner.ReadBE | FileHandle.h:71-75 | reads four bytes and moves on, or fails at the end of the file |
| Lzop.LzopScanner.FindBlocks | LzopFile.cc:94-125 | succeeds if and only if blocks are in place from here on; then adds exactly those, keeping `coff` at the file position, tiled from `uoff`, and stops after the zero size |
| Lzop.LzopScanner.ReadHeaders | LzopFile.cc:22-74 | moves past a header, if there is one, and yields its flags |
| Lzop.LzopScanner.BuildIndex | LzopFile.cc:81-92 | succeeds if and only if the file is headers and blocks in place up to its end, and then lists exactly those blocks, tiled from zero |
| EndToEnd.EveryReadServed | OpenCompressedFile.cc:43-51 | in every run over files whose blocks decompress as the cache takes them to, every finished read has returned what the blocks of its file decompress to |
| EndToEnd.ServedIsServedBy | OpenCompressedFile.cc:10-12 | files served by an index are such files |
| EndToEnd.FirstNotAtTrailer | GzipFile.cc:106 | before any output no entry is made at a trailer |
| EndToEnd.GzipServed | GzipFile.cc:125-131 | a gzip index meets all the cache relies on (tiling, first block not empty, distinct offsets, each block its slice) if and only if no uncompressed size is cut off |
| EndToEnd.BlocksSeparate | Bzip2File.cc:216 | blocks of a bzip2 index have strictly increasing offsets and are not empty |
| EndToEnd.Bzip2Served | Bzip2File.cc:225-234 | a bzip2 index of blocks the library takes meets all the cache relies on if and only if no uncompressed size is cut off |
| EndToEnd.Bzip2Saved | CompressedFile.cc:115-154 | and then it survives saving and loading |
| EndToEnd.Bzip2FileServed | Bzip2File.cc:191-234 | from the bytes of a file and the library: whatever index there is, of the true blocks up to any of them, can be served, cut out of the file again, saved and loaded |
| EndToEnd.OpenBzip2 | CompressedFile.cc:90-109 | indexing a bzip2 file with full reads gives exactly that index, served and saved |
| EndToEnd.PartOfContent | LzopFile.cc:140-159 | an lzop block's expanded data is the slice its index entry names |
| EndToEnd.LzopContentIs | LzopFile.cc:140-159 | the slice of the content for an lzop block is its bytes in the file if its two sizes agree, and otherwise what LZO makes of them |
| EndToEnd.LzopServed | LzopFile.cc:140-159 | an lzop index meets all the cache relies on |
| EndToEnd.LzopSaved | CompressedFile.cc:115-154 | and it always survives saving and loading |

## Left out

- Bzip2Index.IndexSound: requires each block's compressed size to fit its 32-bit field; a block cut short there would be read from another range.
- EndToEnd.Bzip2Served: requires the same, and that bzip2 gives no empty block; the library is not part of this model.
- Bzip2Index.TwiceIsOnce: requires that bzip2 rejects a range without data; the library is not part of this model.
- Bzip2Recover.Recovered: says nothing of a stream whose level is misread as another level, which takes four seams in thirteen tests; with full reads it cannot be (`Bzip2Full.CutIs`).
- Bzip2Scan.ScanRefinesNaive: leaves out bit 0 and magics whose first full byte is within nine bytes of the end, which the scan does not test.
- Lzop.LzopScanner.ReadHeaders: takes from a header its flags and size; its fields, version, filter and checksum tests are an oracle by position.
- Lru.Characterised: for one weight per key and a capacity that stays the same; changing it is `Lru.LRUMap.SetMaxWeight` alone.
- The insides of zlib, bzip2, LZO, liblzma and zstd: no Huffman decoding, no checksums.
- A gzip trial at a trailer whose bytes happen to begin with a whole DEFLATE block, which the program takes for one.
- GzipFile.GzipFile.BuildIndex: says nothing once a trial goes astray; the program then primes it with the byte before the buffer, and what that decodes to is not part of this model.
- `Bzip2File::decompress` and `ZstdFile`: a library driving loop and a prefix sum, which would add only easy members.
- Looking up and reading xz blocks: done by liblzma.
- Short reads other than at the end of a file in the lzop, xz and index-file code, where the program treats them as the end of the file.
- Creation and destruction of the thread pool, and the lifetime of a call's condition variable, which a worker still unlocks after its signal.
- Exceptions from `decompressBlock` while a call waits; the call would then never be released.
- `FileHandle` beyond bytes and a position; FUSE callbacks, options, directory listing, format probing, path names and the `dump` functions.
