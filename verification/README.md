# Makar userspace, verified

A Dafny model of the decoders, the allocator and the small state machines in Makar's
userspace, with proofs of what they compute. Everything in place in the C sources is
in place here: the bit readers, Huffman tables, inflater, GIF decoder, hash contexts,
calculator, partition editor, text editor and heap are classes or array methods, each
proved against a specification function. The theorems are about those functions.

| files | model |
|---|---|
| `Bits`, `Memory`, `Slices`, `Orbits` | shifts and masks, bit strings, 32-bit words in memory, subsequences, stepping until an end |
| `Huffman`, `InflateSpec`, `Inflater` | `inflate.h` |
| `Deflate`, `Encoder`, `TableBounds`, `FormatTables` | encoders for every kind of block, what decoding gives back, when a header overruns, the constants of the format |
| `Buffer`, `Tar`, `Untar`, `TarRuns`, `Gzip`, `GzipBlocks`, `GzipRoundTrips` | `tar.c` |
| `Blocks`, `Allocator`, `AllocatorRuns` | `malloc.c` |
| `Lzw`, `LzwEncoder`, `LzwBits`, `Gif`, `GifRoundTrips` | the GIF decoder of `mximg.c` |
| `Jpeg`, `PngFilter` | entropy decoding of `img_jpg.c`, scan line filters of `img_png.c` |
| `Hash` | the buffering and padding shared by `sha256.c` and `md5.c` |
| `Calc`, `CalcValues`, `CalcTexts`, `CalcGrammar`, `CalcPrinter` | `calc.c` |
| `Partition`, `Cfdisk` | the partition editor `cfdisk.c` |
| `EditHistory`, `EditTexts`, `TextEditor` | buffer, selection and undo of `mxedit.c` |
| `Glob` | `glob_match` of `sh.c` |
| `CivilDate` | `fmt_date` of `mxfiles.c` |

Input and output, clocks and the kernel are parameters: files are byte sequences, the
break system call is a `grant` flag per request, and a hash's compression step is a
function. C's `unsigned` arithmetic is written out with `U32`; `long` has 32 bits on
this target.

## Model

| member | source | states |
|---|---|---|
| `Huffman.DecodeCanonical` | src/userspace/inflate.h:35-60 | for every vector of code lengths that is not oversubscribed, the canonical code of a symbol followed by any bits decodes to that symbol and takes exactly its length |
| `Huffman.DecodeSound` | src/userspace/inflate.h:46-60 | for every vector of code lengths, oversubscribed or not, a decoded symbol is one with a code, and the bits taken are that code |
| `Huffman.CodesFitIff` | src/userspace/inflate.h:46-60 | all canonical codes fit their lengths exactly when the lengths satisfy Kraft's inequality |
| `Huffman.DecodeFirstHit` | src/userspace/inflate.h:48-57 | the symbol index is inside the filled part of the table at the first length whose code range the bits hit |
| `Inflater.HTree.Build` | src/userspace/inflate.h:35-44 | the counting sort in place leaves the table of the canonical code: symbols by length, then by number |
| `Inflater.Infl.GetBits` | src/userspace/inflate.h:21-31 | the byte-wise reader refines a cursor into one bit string: the next n bits, or -1 exactly when fewer remain; fewer than 8 bits stay held |
| `Inflater.Infl.Decode` | src/userspace/inflate.h:46-60 | decoding through the reader gives the symbol and cursor of decoding the bit string |
| `Inflater.Infl.CopyMatch` | src/userspace/inflate.h:93-93 | the byte-wise copy appends the LZ77 copy, overlapping or not, and changes no emitted byte |
| `Deflate.CopyRepeats` | src/userspace/inflate.h:93-93 | every byte a match copies equals the byte dist before it |
| `Inflater.Infl.Codes` | src/userspace/inflate.h:72-95 | result, output and cursor are those of the specification; emitted bytes never change and the output never passes its capacity |
| `Inflater.Infl.Stored` | src/userspace/inflate.h:97-107 | a stored block drops at most the rest of one byte and appends its data, or fails without touching emitted bytes |
| `Inflater.Infl.Fixed` | src/userspace/inflate.h:109-120 | decoding with the tables built from the fixed lengths |
| `Inflater.Infl.GetLengths` | src/userspace/inflate.h:136-153 | the lengths sent, runs included and cut at the total, and how many stores were made |
| `Inflater.Infl.Dynamic` | src/userspace/inflate.h:122-158 | a dynamic block decodes as specified; -2 stands for a store outside the table of lengths |
| `Inflater.Inflate` | src/userspace/inflate.h:161-179 | inflate ends on every input and gives the specification's bytes, -1 on malformed input, and -2 exactly where the source stores past its table |
| `InflateSpec.Rfc1951Ok` | src/userspace/inflate.h:62-70 | the length, distance and order tables have the shape and bounds that decoding relies on |
| `InflateSpec.ReachedIff` | src/userspace/inflate.h:136-153 | the lengths are complete exactly when as many were stored as announced |
| `Deflate.CanonicalReads` | src/userspace/inflate.h:35-60 | every code that is not oversubscribed is read back symbol by symbol, whatever follows |
| `Deflate.LaidBack` | src/userspace/inflate.h:72-95 | any tokens in any code decode to their LZ77 expansion if that fits the capacity, and fail otherwise |
| `Deflate.LengthsBack` | src/userspace/inflate.h:137-153 | code lengths sent as literals and runs in any mixture are read back |
| `Deflate.HeaderBack` | src/userspace/inflate.h:126-156 | a dynamic header yields the two codes it describes |
| `Deflate.StoredBack` | src/userspace/inflate.h:97-107 | stored data at any bit position is read back if it fits, and fails otherwise |
| `Deflate.StreamBack` | src/userspace/inflate.h:161-179 | any sequence of blocks standing in the input decodes to its expansion, later blocks reaching back into earlier ones |
| `Encoder.StreamRoundTrip` | src/userspace/inflate.h:161-179 | the bits an encoder makes of any list of stored, fixed and dynamic blocks, with any codes that are not oversubscribed, inflate to the list's expansion, whatever follows |
| `Encoder.DynamicRoundTrip` | src/userspace/inflate.h:122-158 | the same for one dynamic block with any tokens and any three such codes |
| `Encoder.BlockRoundTrip` | src/userspace/inflate.h:167-178 | the same for one block of any kind whose codes the decoder reads |
| `Encoder.FixedRoundTrip` | src/userspace/inflate.h:109-120 | every list of literals and matches that reach back no further than the output, in the fixed code, inflates to its LZ77 expansion whenever it fits, and fails otherwise |
| `Encoder.EveryMatch` | src/userspace/inflate.h:62-70 | every length 3 to 258 with every distance 1 to 32768 has a token |
| `FormatTables.LengthExtra` | src/userspace/inflate.h:64-65 | length symbols have k / 4 - 1 extra bits, none for the first eight and the last |
| `FormatTables.LengthSpacing` | src/userspace/inflate.h:62-65 | each length symbol starts where the one before it ends, from 3 on; the last stands for 258 |
| `FormatTables.DistanceExtra` | src/userspace/inflate.h:69-70 | distance symbols have k / 2 - 1 extra bits, none for the first two |
| `FormatTables.DistanceSpacing` | src/userspace/inflate.h:66-70 | each distance symbol starts where the one before it ends, from 1 on |
| `FormatTables.OrderRule` | src/userspace/inflate.h:124-125 | code-length code lengths come as the runs, zero, then outward from eight |
| `FormatTables.FixedCodes` | src/userspace/inflate.h:113-116 | the fixed literal/length code by value: 8 bits from 48 on, 9 from 400 on, 7 from 0 on, 8 from 192 on |
| `FormatTables.FixedDistances` | src/userspace/inflate.h:117-117 | fixed distance codes are their own five bits |
| `FormatTables.KnownInflates` | src/userspace/inflate.h:161-179 | the bytes 4b 4c 4a 4e 01 62 00 inflate to abcdabc wherever that fits, and fail otherwise |
| `TableBounds.TableIff` | src/userspace/inflate.h:135-153 | of the totals a header can announce, exactly those up to 318 keep every store inside the table for every code and every continuation |
| `TableBounds.HeaderOverruns` | src/userspace/inflate.h:126-153 | any header that announces more than 318 lengths and sends them all stores past the table |
| `TableBounds.OverrunInput` | src/userspace/inflate.h:135-153 | bytes on which inflate does so |
| `Buffer.AppendIff` | src/userspace/tar.c:28-32 | an append finds a capacity and copies inside it exactly when the buffer ends with at most 2 GiB |
| `Buffer.EndlessDoubling` | src/userspace/tar.c:29-29 | asked for more than 2 GiB, the capacity doubles to zero at the nineteenth turn and the loop never ends |
| `Buffer.DoublingBound` | src/userspace/tar.c:29-29 | however often it is doubled, a capacity is zero or at most 2 GiB |
| `Buffer.Capacity` | src/userspace/tar.c:29-29 | the loop ends at the first doubling that suffices |
| `Buffer.Buf.Put` | src/userspace/tar.c:28-32 | the contents grow by exactly the data, across any move to a larger array |
| `Tar.WrOctal` | src/userspace/tar.c:35-37 | the field holds the octal digits and a NUL, and nothing outside it changes |
| `Tar.OctalBack` | src/userspace/tar.c:35-38 | a number that fits its field is read back, whatever follows the NUL |
| `Tar.RdOctal` | src/userspace/tar.c:38-38 | the loops compute the field's value in 32 bits |
| `Tar.HdrMake` | src/userspace/tar.c:41-53 | the 512 bytes written in place are the header of name, size and kind |
| `Tar.Checksum` | src/userspace/tar.c:50-52 | the stored octal checksum is the byte sum of the header with its checksum field taken as spaces |
| `Tar.HeaderFields` | src/userspace/tar.c:44-49 | mode, owner, group, size and time by octal value, type, magic and version by text, zeros elsewhere |
| `Tar.SumAdds` | src/userspace/tar.c:51-51 | the checksum counts each byte once |
| `Tar.AddDir` | src/userspace/tar.c:63-65 | a directory adds one header under its name with a slash |
| `Tar.DirNameIs` | src/userspace/tar.c:64-64 | a short directory path gets a slash unless it has one, a long one keeps its first 99 bytes |
| `Tar.AddFile` | src/userspace/tar.c:80-82 | a file adds header, data and zeros to a whole block |
| `Tar.FileRecord` | src/userspace/tar.c:80-82 | a file's record is its header, its data and fewer than 512 zeros up to a whole block |
| `Tar.DirRecord` | src/userspace/tar.c:63-65 | a directory's record is its header alone |
| `Tar.ArchiveLayout` | src/userspace/tar.c:167-169 | an archive is the records in order and 1024 zeros |
| `Untar.ParseBack` | src/userspace/tar.c:95-97 | a header is read back up to the 99 bytes its name field holds |
| `Untar.OneTurn` | src/userspace/tar.c:91-105 | one turn of the walk in 32-bit arithmetic, wrapped sums included |
| `Untar.ExtractAll` | src/userspace/tar.c:88-108 | one turn for every block and one more decides whether extract ever returns, and gives everything it does if so |
| `Untar.TarRoundTrip` | src/userspace/tar.c:58-108 | every list of entries is walked back entry by entry, in order, and the walk ends |
| `Untar.FaithfulIff` | src/userspace/tar.c:43-43 | an entry survives exactly when its name has at most 99 bytes and a file's name does not end in a slash |
| `Untar.ArchiveFaithfulIff` | src/userspace/tar.c:58-108 | an archive is read back as it was asked for exactly when that holds of every entry |
| `Untar.CutName` | src/userspace/tar.c:43-43 | a file under a hundred-byte name comes back under its first 99 bytes, and one under a name ending in a slash as a directory |
| `TarRuns.Create` | src/userspace/tar.c:167-169 | paths added one after the other and two zero blocks make the archive of their entries |
| `TarRuns.CreateAndExtract` | src/userspace/tar.c:154-190 | packing any paths and unpacking the result does what their entries say, in order, and ends |
| `Untar.WalkEndsIff` | src/userspace/tar.c:90-106 | extract never returns exactly when it comes back to a header it has been at, which then happens within one turn for each block |
| `Untar.AstrayIff` | src/userspace/tar.c:88-108 | extract leaves the archive exactly when some turn goes on at that block |
| `Untar.ForwardIff` | src/userspace/tar.c:94-105 | a turn goes on behind its data exactly when that, padded, ends below 4 GiB, and goes forward at all exactly then or when the padded size itself has wrapped |
| `Untar.OffIff` | src/userspace/tar.c:90-91 | at a whole block, the header looked at lies outside the archive exactly for the last block below 4 GiB |
| `Untar.SpillIff` | src/userspace/tar.c:102-102 | the write test lets through data outside the archive exactly when position and size wrap to within it |
| `Untar.EndlessArchive` | src/userspace/tar.c:88-108 | one header with size field 37777777000 sends the walk back to itself for ever, and passes the write test each time |
| `Untar.AstrayArchive` | src/userspace/tar.c:88-108 | one block less, and the next header is looked for outside the archive |
| `Untar.SelfReadingArchive` | src/userspace/tar.c:96-105 | a size field of 37777777777 pads to nothing: the walk goes on inside the data the header claims |
| `Orbits.EndlessIff` | src/userspace/tar.c:90-106 | stepping over m places goes on for ever exactly when a place recurs within m steps |
| `Gzip.GzWrap` | src/userspace/tar.c:112-129 | the buffer grows by the whole gzip member, in stored blocks of at most 65535 bytes |
| `GzipBlocks.StoredStream` | src/userspace/tar.c:115-124 | the blocks gz_wrap writes are the bits an encoder writes for the chunks as stored blocks, complemented lengths included |
| `GzipBlocks.ChunksAre` | src/userspace/tar.c:117-124 | the chunks are the data in order, all but the last of 65535 bytes |
| `GzipBlocks.WrapLayout` | src/userspace/tar.c:113-128 | magic, method, no flags, no time, unknown system; the blocks; CRC and length, least significant byte first |
| `Memory.WordDigits` | src/userspace/tar.c:126-139 | words are stored least significant byte first |
| `Gzip.GzUnwrap` | src/userspace/tar.c:131-144 | the bytes, NULL, or which of the two reads or stores outside a buffer the source makes |
| `Gzip.InputIff` | src/userspace/tar.c:138-141 | with a good header, inflate is handed bytes of the file exactly when the stream starts at least eight bytes before the end or its start is found to be past it |
| `Gzip.WrappingInput` | src/userspace/tar.c:137-141 | eighteen bytes with the header-CRC flag give a length of 0xFFFFFFFE |
| `GzipRoundTrips.MemberBack` | src/userspace/tar.c:131-144 | any member of at most 2 GiB with any optional fields unwraps to what its deflate stream stands for, or to NULL when that is 2 GiB or more |
| `GzipRoundTrips.BlocksBack` | src/userspace/tar.c:115-124 | any number of stored blocks decodes to the bytes they hold |
| `GzipRoundTrips.GzipRoundTrip` | src/userspace/tar.c:112-144 | gz_unwrap undoes gz_wrap on every byte string whose wrapping fits the 2 GiB a buffer can hold, empty and many-block ones included |
| `Allocator.Heap.constructor` | src/userspace/malloc.c:52-59 | an empty heap at the break |
| `Blocks.OneBlock` | src/userspace/malloc.c:69-89 | the blocks tile the heap: each address lies in exactly one of them |
| `Allocator.Heap.GrowHeap` | src/userspace/malloc.c:69-89 | exactly when the kernel grants it and the break stays a positive long, a free block of whole pages is appended behind the last and ends the free list; otherwise nothing changes |
| `Allocator.GrowIff` | src/userspace/malloc.c:71-74 | for every request, a passed growth test means that the break lies past the bytes asked for exactly when neither the rounding nor the new end wraps |
| `Allocator.GrowWraps` | src/userspace/malloc.c:71-74 | a request that wraps the break passes the test with nothing granted |
| `Allocator.RoundWraps` | src/userspace/malloc.c:71-74 | malloc(0xFFFFF000) rounds to no page and passes the test with the break where it was |
| `Allocator.OutsideFits` | src/userspace/malloc.c:131-153 | the requests malloc is not modelled for are exactly those for which no listed block is large enough and the growth test passes for a block past the break |
| `Allocator.Heap.UnlinkFree` | src/userspace/malloc.c:92-99 | exactly the block leaves the list, and a block not on it leaves the list alone |
| `Allocator.Heap.SplitBlock` | src/userspace/malloc.c:104-124 | a block is cut in two when at least 20 bytes remain; a listed block hands its place to the tail, and the tail of a busy one is on no list |
| `Allocator.WantIff` | src/userspace/malloc.c:131-132 | the rounded request covers payload and header exactly when it does not wrap |
| `Allocator.UpMultiples` | src/userspace/malloc.c:61-64 | sizes round up to multiples of 8 and breaks to multiples of 4096 |
| `Allocator.Heap.Malloc` | src/userspace/malloc.c:126-158 | null exactly for zero bytes or when no listed block fits and none is granted; otherwise a block with room that was not live, at the lowest listed address that fits; every other payload byte, the tiling, the sorted list and the separation of free neighbours are kept |
| `Allocator.Heap.InsertFree` | src/userspace/malloc.c:164-176 | the block takes its place in the address-sorted list |
| `Allocator.Heap.Coalesce` | src/userspace/malloc.c:179-194 | no two listed blocks touch any more, and live blocks are untouched |
| `Allocator.Heap.Free` | src/userspace/malloc.c:197-203 | exactly the block's payload stops being live, all other bytes stay, and freeing null or a free block changes nothing |
| `Allocator.Heap.Realloc` | src/userspace/malloc.c:205-225 | the first min(old, new) bytes stay on both paths, no other payload changes, failure changes nothing; the size afterwards is the request, the old one or that of a new block, by the old size alone; the free list loses a block exactly when the block is at least 20 bytes larger than needed |
| `Allocator.KeepIff` | src/userspace/malloc.c:210-213 | realloc leaves a block in place only if it has room, for every block, exactly when the size computation does not wrap; 0xFFFFFFF4 bytes are taken for none |
| `Blocks.ShrinkLoses` | src/userspace/malloc.c:211-213 | cutting a busy block leaves a free block on no list |
| `AllocatorRuns.LostTail` | src/userspace/malloc.c:205-213 | malloc(100) and realloc to one byte on a fresh heap leave a free block on no list |
| `Allocator.Heap.Calloc` | src/userspace/malloc.c:227-236 | zeroed bytes as many as the 32-bit product; the block has room for n * sz exactly when that is below 4 GiB |
| `Allocator.ProductWraps` | src/userspace/malloc.c:229-230 | 0x10000 times 0x10001 wraps to 0x10000 |
| `AllocatorRuns.SmallIff` | src/userspace/malloc.c:69-74 | the requests a run may make are exactly those that fit 32 bits from every break below 2 GiB |
| `AllocatorRuns.Run` | src/userspace/malloc.c:126-236 | over every run each slot holds exactly what its own operations put there and nothing leaks; the free list holds exactly the blocks flagged free if and only if it did at the start and no realloc met a block at least 20 bytes too large, where every size met lies in the interval that the earlier requests of its slot give |
| `AllocatorRuns.CutsByRequest` | src/userspace/malloc.c:210-213 | a realloc that asks for at least what the block was placed for never cuts, and one that asks for 20 bytes less always does |
| `AllocatorRuns.CutIf` | src/userspace/malloc.c:126-236 | a run all of whose reallocs are of the first kind keeps the free list whole, and a run with one of the second breaks it |
| `AllocatorRuns.GrowingRun` | src/userspace/malloc.c:126-236 | a run whose reallocs never shrink their buffer and ask for at least five bytes keeps the free list whole |
| `AllocatorRuns.TinyIff` | src/userspace/malloc.c:210-213 | below five bytes a realloc cuts exactly blocks of 36 bytes and more, which even a growing one can meet |
| `Lzw.StrLength` | src/userspace/mximg.c:136-136 | a chain walk visits fewer codes than the code's number, so it ends inside the stack |
| `Lzw.EntryMade` | src/userspace/mximg.c:144-146 | every code but the first makes one entry while fewer than 4096 codes are assigned: the previous string and the first index of this one |
| `LzwEncoder.EmitBack` | src/userspace/mximg.c:132-146 | a decoder one entry behind reads an emitted code as the encoder meant it, the next free code included, and catches up |
| `LzwEncoder.CodesRoundTrip` | src/userspace/mximg.c:129-147 | the codes of any data decode to it, wherever the table is cleared and when it is full |
| `LzwBits.StaysInStep` | src/userspace/mximg.c:144-145 | for code sizes of at least 2 the decoder's code width is the encoder's after every code |
| `LzwBits.LzwRoundTrip` | src/userspace/mximg.c:124-147 | the bits of any data decode to it, whatever bits follow |
| `Gif.Reader.GetByte` | src/userspace/mximg.c:89-93 | bytes come in order out of the sub-blocks, ending at an empty one or the end of the file |
| `Gif.Reader.GetCode` | src/userspace/mximg.c:95-98 | the next w bits of the sub-blocks' bit string, or -1 exactly when fewer remain |
| `Gif.Unwind` | src/userspace/mximg.c:136-137 | the stack holds the code's string backwards, and never passes 4096 |
| `Gif.Decoder.Process` | src/userspace/mximg.c:131-146 | one code appends its string and leaves the state of the specification |
| `Gif.Decode` | src/userspace/mximg.c:124-147 | the loop over file bytes emits the indices of the sub-blocks' bit string |
| `GifRoundTrips.SubBlocksBack` | src/userspace/mximg.c:89-93 | data cut into sub-blocks is read back, whatever follows the terminator |
| `GifRoundTrips.GifRoundTrip` | src/userspace/mximg.c:122-147 | any palette indices, encoded with any clears, packed and cut into sub-blocks, come back |
| `GifRoundTrips.CodeSizeIff` | src/userspace/mximg.c:122-147 | of the code sizes accepted, exactly those of at least 2 bring every index sequence back |
| `GifRoundTrips.NarrowFails` | src/userspace/mximg.c:125-145 | with code size 1 the indices 0, 0 come back as 0, 0, 1 |
| `GifRoundTrips.KnownCodes` | src/userspace/mximg.c:129-147 | with four colours the codes 4 1 6 2 7 5 decode to 1 1 1 2 1 1 2 |
| `Jpeg.StuffBack` | src/userspace/img_jpg.c:60-72 | stuffed data before a marker is read back, with any fill bytes |
| `Jpeg.BitReader.GetByte` | src/userspace/img_jpg.c:60-72 | destuffed bytes in order, then zeros |
| `Jpeg.BitReader.GetBit` | src/userspace/img_jpg.c:73-74 | the bits of the destuffed bytes, most significant first |
| `Jpeg.ByteFirst` | src/userspace/img_jpg.c:73-74 | each byte is read with its most significant bit first |
| `Jpeg.Table.constructor` | src/userspace/img_jpg.c:83-92 | mincode, maxcode and valptr are the first code, last code and first place of each length |
| `Jpeg.Decode` | src/userspace/img_jpg.c:93-101 | value and cursor of decoding the bit string, 0 after 16 bits where no code matches |
| `Jpeg.SameDecoder` | src/userspace/img_jpg.c:83-101 | on 16 bits or more this decoder and that of inflate.h agree: same value, same bits taken, failure together |
| `Jpeg.AcceptedAlike` | src/userspace/img_jpg.c:83-101 | on every bit string inflate.h's decoder accepts, this one returns the same symbol after as many bits |
| `PngFilter.Paeth` | src/userspace/img_png.c:199-208 | the nearest of the three neighbours to their linear estimate, left before above before upper left |
| `PngFilter.LineRules` | src/userspace/img_png.c:312-325 | every byte of a restored line is the stored one plus, modulo 256, nothing, the left, the upper, half their sum or the nearest of three neighbours, by the filter |
| `PngFilter.RulesDetermine` | src/userspace/img_png.c:312-325 | those rules leave no choice |
| `PngFilter.ImageRules` | src/userspace/img_png.c:307-326 | in a decoded image each line follows by its rule from the stored line and the decoded line above it |
| `PngFilter.KnownIff` | src/userspace/img_png.c:317-324 | an image is accepted exactly when no line has a type above four |
| `PngFilter.LineBack` | src/userspace/img_png.c:312-326 | restoring a filtered line gives the line, whichever filter was chosen |
| `PngFilter.ImageBack` | src/userspace/img_png.c:307-326 | every image comes back from its filtered form, whichever filter each line was given |
| `PngFilter.StoredFills` | src/userspace/img_png.c:296-297 | a stored image has exactly the size the decoder provides for |
| `PngFilter.UnfilterLine` | src/userspace/img_png.c:308-326 | the line is restored in place from the line above, nothing else changes; refused exactly for an unknown filter |
| `PngFilter.Unfilter` | src/userspace/img_png.c:307-326 | every line is restored in place; refused exactly when some line has an unknown filter |
| `Hash.PadInjective` | src/userspace/sha256.c:86-97 | messages below 2^61 bytes have different padded forms |
| `Hash.PadLayout` | src/userspace/sha256.c:86-97 | the padded message is the message, 0x80, as few zeros as fill whole blocks, and the bit count in eight bytes, most significant first for SHA-256 and least for MD5 |
| `Hash.FoldSnoc` | src/userspace/sha256.c:82-82 | a further block is one more compression step on what came before |
| `Hash.Context.Update` | src/userspace/sha256.c:75-84 | the message so far grows by exactly the data, whatever was buffered |
| `Hash.Context.Final` | src/userspace/sha256.c:86-97 | the state is the fold of the compression step over the padded message |
| `Hash.Digest` | src/userspace/md5.c:79-100 | for every way of cutting a message into updates and either length order, the fold over the padded whole message |
| `CivilDate.CivilCounts` | src/userspace/mxfiles.c:64-71 | for every day number a valid Gregorian date that many days after 1970-01-01 |
| `CivilDate.CivilOfCount` | src/userspace/mxfiles.c:64-71 | every date from 1970 on comes back from its day count |
| `CivilDate.CountInjective` | src/userspace/mxfiles.c:64-71 | different dates have different day counts |
| `CivilDate.TimeOfDay` | src/userspace/mxfiles.c:64-72 | date, hour and minute are those of the minute the timestamp falls in |
| `Calc.TowardZero` | src/userspace/calc.c:83-84 | quotient and remainder recombine, the remainder is smaller than the divisor and has the dividend's sign |
| `Calc.Parser.ParseFactor` | src/userspace/calc.c:45-60 | the method computes the specification function Factor on every string; AcceptedIff and TextOutcome say what that is |
| `Calc.Parser.ParseUnary` | src/userspace/calc.c:62-68 | the same for signs |
| `Calc.Parser.ParseTerm` | src/userspace/calc.c:70-87 | the same for products |
| `Calc.Parser.ParseExpr` | src/userspace/calc.c:89-103 | the same for sums; parsing ends on every string |
| `CalcValues.EvIff` | src/userspace/calc.c:45-103 | evaluation left to right in a long has a value exactly when no divisor is zero and every subterm is a long, and it is the exact value |
| `CalcValues.EvalIs` | src/userspace/calc.c:65-100 | sums, differences, products and negations by value; quotients and remainders as C rounds them, and only with a divisor that is not zero |
| `CalcValues.RangeEnds` | src/userspace/calc.c:57-101 | a long ends at 2147483647 and -2147483648 |
| `CalcTexts.TextOutcome` | src/userspace/calc.c:41-103 | every text of the grammar, with spaces and tabs anywhere between tokens and any signs, parentheses and leading zeros, evaluates to its meaning and is read to its end, or shows whichever of overflow and zero divisor comes first |
| `CalcGrammar.AcceptedIff` | src/userspace/calc.c:41-103 | short of overflow, a text is read to its end without an error exactly when it is one of the grammar whose value exists, and that value is the result |
| `CalcPrinter.PrintedOutcome` | src/userspace/calc.c:45-103 | the text of any expression evaluates to its value, read to the end, or to whichever of overflow and zero divisor comes first |
| `CalcPrinter.PrintedValue` | src/userspace/calc.c:45-103 | with no zero divisor and every subterm a long, printing with the needed parentheses and parsing gives the value and no error |
| `CalcPrinter.PrintedRangeIff` | src/userspace/calc.c:57-101 | with no zero divisor the parser computes no value outside a long exactly when every subterm is one |
| `CalcPrinter.PrintedErrorIff` | src/userspace/calc.c:39-103 | the parser overflows exactly when an overflow comes first; otherwise it reports an error exactly when some divisor is zero |
| `CalcPrinter.OverflowingText` | src/userspace/calc.c:57-84 | 1/4294967296 has a value but its text overflows |
| `Partition.OrderOk` | src/userspace/cfdisk.c:207-216 | the order lists exactly the populated entries, by start |
| `Partition.ItemsShow` | src/userspace/cfdisk.c:206-249 | for any table the partition rows are the populated entries, each once, by start and with its own numbers; a free row has at least 2048 sectors unless it is the only row |
| `Partition.ItemsAscend` | src/userspace/cfdisk.c:206-249 | for a sound table the rows do not overlap and follow one another on the disk |
| `Partition.ItemsFree` | src/userspace/cfdisk.c:218-249 | every free row is disjoint from all partitions and inside the disk |
| `Partition.ItemsFind` | src/userspace/cfdisk.c:218-249 | every free megabyte of the disk past the first lies in some free row |
| `Partition.ItemsFit` | src/userspace/cfdisk.c:199-249 | every row's fields fit 32 bits for any table, sound or not |
| `Partition.PercentFloor` | src/userspace/cfdisk.c:409-409 | the split formula is the floor of avail * v / 100 |
| `Partition.DigitsSpelled` | src/userspace/cfdisk.c:401-401 | the digit loop computes the number spelled modulo 2^32, and stops where it ends |
| `Partition.SizeIff` | src/userspace/cfdisk.c:393-419 | in one free space a size is read as it is written exactly when it fits 32 bits or what is left of it still fills the space |
| `Partition.UnitsIff` | src/userspace/cfdisk.c:393-419 | a text with a number and a unit is read as it is written, in every free space, exactly when the product fits 32 bits; bare sectors also when the number is 2^32 - 1 modulo 2^32 |
| `Partition.GigabytesIff` | src/userspace/cfdisk.c:410-413 | texts in G are read right exactly below 2048, texts in M exactly below 2097152 |
| `Partition.PercentIff` | src/userspace/cfdisk.c:407-409 | a percentage is read right exactly when it is below 100 or is not below 100 modulo 2^32 |
| `Partition.WrappingSizes` | src/userspace/cfdisk.c:400-411 | 2048G is read as nothing, and 4294967297G as one gibibyte |
| `Partition.SizeWords` | src/userspace/cfdisk.c:395-402 | max in any letter case asks for everything, and a text without a number for nothing |
| `Partition.StepSound` | src/userspace/cfdisk.c:423-458 | New and Delete keep the partitions pairwise disjoint and on the disk, whatever is typed |
| `Partition.StepIs` | src/userspace/cfdisk.c:423-458 | Delete empties the entry its row shows and no other; New puts the size typed at the first multiple of 2048 in the row into the lowest empty slot and changes no other; each refusal changes nothing |
| `Partition.RunSound` | src/userspace/cfdisk.c:202-458 | so does every run of them, and every free row shown after it is free |
| `Cfdisk.SizeOf` | src/userspace/cfdisk.c:393-419 | the scanning loops compute the size the text asks for, in 32 bits |
| `Cfdisk.TableAt` | src/userspace/cfdisk.c:100-110 | start and count of entry i stand at bytes 454 + 16i and 458 + 16i of the boot sector |
| `Cfdisk.Editor.Gather` | src/userspace/cfdisk.c:207-209 | the slots in use, in table order |
| `Cfdisk.Editor.InsertAt` | src/userspace/cfdisk.c:211-215 | the shift in place puts the slot behind all that do not start later |
| `Cfdisk.Editor.SortSlots` | src/userspace/cfdisk.c:206-216 | the insertion sort in place gives the order by start |
| `Cfdisk.Editor.BuildItems` | src/userspace/cfdisk.c:202-250 | the rows built from the boot sector's bytes are the table's |
| `Cfdisk.Editor.FirstFreeSlot` | src/userspace/cfdisk.c:252-257 | the lowest unused slot |
| `Cfdisk.Editor.WriteEntry` | src/userspace/cfdisk.c:441-447 | exactly the sixteen bytes of one entry change, to type 0x0C, the filler geometry, the start and the count |
| `Cfdisk.Editor.ClearEntry` | src/userspace/cfdisk.c:455-456 | exactly the sixteen bytes of one entry change, to zeros |
| `Cfdisk.Editor.ActNew` | src/userspace/cfdisk.c:423-449 | the boot sector afterwards holds the table after New on the selected row, refusals included |
| `Cfdisk.Editor.ActDelete` | src/userspace/cfdisk.c:451-458 | the same for Delete |
| `Cfdisk.Editor.Act` | src/userspace/cfdisk.c:423-458 | one action on the selected row, or the last when fewer are left, does to the boot sector's table what StepIs says |
| `Cfdisk.Editor.Session` | src/userspace/cfdisk.c:202-458 | after any actions the boot sector holds a sound table if it did at the start |
| `EditHistory.DidOk` | src/userspace/mxedit.c:38-106 | every operation keeps the caret and text in bounds, and undo and redo snapshots together at most 32, so neither stack is full when the other gives one up |
| `EditHistory.UndoRedo` | src/userspace/mxedit.c:51-61 | undo then redo, and redo then undo, restore text, caret and both stacks |
| `EditHistory.MovesAlong` | src/userspace/mxedit.c:51-61 | any undos and redos move along one unchanging line of documents |
| `EditHistory.EntersIff` | src/userspace/mxedit.c:50-106 | short of undo, redo and New, an operation empties redo and is pushed for undo exactly when it takes a snapshot; typing on where the last character ended takes none |
| `EditHistory.StaleRedo` | src/userspace/mxedit.c:51-100 | type a, paste x, undo, type b: redo then brings the x back and drops the b |
| `EditHistory.EditsAppend` | src/userspace/mxedit.c:44-106 | after any run without undo, redo and New the undo stack is the last 32 snapshots there were, and redo is empty if the run took one |
| `EditHistory.EditsUndone` | src/userspace/mxedit.c:38-106 | k undos after any such run bring back the document of the k-th last snapshot, at most the 32nd |
| `EditHistory.EditsAllUndone` | src/userspace/mxedit.c:38-106 | n operations that each take a snapshot, at most 32, and n undos bring back the start |
| `EditHistory.ChangeUndone` | src/userspace/mxedit.c:66-106 | every change of the text but a further character of a run of typing is taken back by one undo |
| `EditHistory.InsertUndone` | src/userspace/mxedit.c:94-100 | an insertion with nothing selected where the last one left the caret leaves the history alone; any other is one step of it, taken back by one undo |
| `EditHistory.OpenKeepsLine` | src/userspace/mxedit.c:79-86 | opening a file keeps the history of the file before it; an undo leaves the file in place exactly when there is no snapshot or the last one is the file itself |
| `EditHistory.UndoAcrossFiles` | src/userspace/mxedit.c:79-86 | type a, open another file, undo: the document is the one from before the a |
| `EditHistory.TypingIff` | src/userspace/mxedit.c:94-100 | two or more characters typed all end up in the text exactly when no selection anchor lies under the caret |
| `EditHistory.ClickLosesCharacter` | src/userspace/mxedit.c:94-100 | click into an empty buffer and type ab: only b is there |
| `EditTexts.ReplacesSelection` | src/userspace/mxedit.c:63-106 | with a selection, typing, pasting, cutting and both erasing keys put what is new in its place |
| `EditTexts.WorksAtCaret` | src/userspace/mxedit.c:66-106 | without one they insert or erase at the caret |
| `EditTexts.PastesWhatFits` | src/userspace/mxedit.c:74-74 | a paste fills the buffer at most |
| `EditTexts.BackspaceAfterType` | src/userspace/mxedit.c:94-106 | backspace takes back a typed character |
| `EditTexts.PasteAfterCut` | src/userspace/mxedit.c:68-76 | pasting back what was cut gives back the text |
| `EditTexts.DragSelects` | src/userspace/mxedit.c:161-167 | a press and a drag in either direction select what lies between |
| `EditTexts.DragAlone` | src/userspace/mxedit.c:164-167 | a drag without a press before it does nothing |
| `EditTexts.MoveEndsRun` | src/userspace/mxedit.c:186-196 | the arrow keys drop the selection, and the next character typed takes a snapshot |
| `EditTexts.CutAll` | src/userspace/mxedit.c:136-136 | selecting all and cutting empties the text, and one undo brings it back |
| `EditTexts.FreshText` | src/userspace/mxedit.c:78-86 | New leaves nothing to undo or redo, and a file is shown from its start |
| `TextEditor.Snaps.Push` | src/userspace/mxedit.c:44-49 | the array holds the last 32 snapshots |
| `TextEditor.Session.Checkpoint` | src/userspace/mxedit.c:50-50 | the document joins the undo stack and redo is emptied |
| `TextEditor.Session.Restore` | src/userspace/mxedit.c:51-59 | the document moves onto one stack and comes off the other, inside both arrays |
| `TextEditor.Session.DelRange` | src/userspace/mxedit.c:66-66 | the text without the range, clipped to the text |
| `TextEditor.Session.PutChar` | src/userspace/mxedit.c:98-99 | the character stands at the caret and nothing is lost |
| `TextEditor.Session.Insert` | src/userspace/mxedit.c:94-100 | ed_insert in place does what the history model says |
| `TextEditor.Session.EraseBack` | src/userspace/mxedit.c:101-106 | so does ed_backspace |
| `TextEditor.Session.EraseNext` | src/userspace/mxedit.c:192-194 | so does the delete key |
| `TextEditor.Session.CutSelection` | src/userspace/mxedit.c:68-68 | so does ed_cut |
| `TextEditor.Session.PasteClip` | src/userspace/mxedit.c:69-76 | so does ed_paste, up to the room there is |
| `TextEditor.Session.PerformAll` | src/userspace/mxedit.c:124-198 | over every run the arrays hold what the history model says and the stacks together at most 32 |
| `Glob.GlobMatch` | src/userspace/sh.c:687-701 | true exactly when the string falls into pieces, one for each pattern character, that it may stand for |
| `Glob.AnyEnd` | src/userspace/sh.c:691-694 | behind stars, true exactly when some end of the string matches the rest |
| `Glob.StarsIff` | src/userspace/sh.c:691-691 | further stars change nothing |
| `Glob.PlainIff` | src/userspace/sh.c:680-701 | a pattern without * and ? matches itself only |
| `Glob.HasGlobChar` | src/userspace/sh.c:680-684 | true exactly when * or ? occurs |

## Findings

Properties the code does not have. Each has an input and the exact condition.

- inflate.h: a dynamic header may announce up to 320 code lengths for a table of 318. `TableBounds.OverrunInput`, `TableBounds.TableIff`. The bound is a property of the announced total alone.
- tar.c, gz_unwrap: the stream length wraps when fewer than eight bytes follow the header. `Gzip.WrappingInput`, `Gzip.InputIff`.
- tar.c, extract: a size near 4 GiB sends the position backwards, so the walk may never end, leave the archive, or write from outside it. Endless: `Untar.EndlessArchive`, `Untar.WalkEndsIff`. Outside: `Untar.AstrayArchive`, `Untar.AstrayIff`. Written from outside: `Untar.EndlessArchive`, `Untar.SpillIff`. Not behind its data: `Untar.SelfReadingArchive`, `Untar.ForwardIff`.
- tar.c, bput: past 2 GiB the capacity doubles to zero and the loop never ends. `Buffer.EndlessDoubling`, `Buffer.AppendIff`.
- tar.c: names of 100 bytes or more are cut, and a file whose name ends in a slash is extracted as a directory. `Untar.CutName`, `Untar.FaithfulIff`, `Untar.ArchiveFaithfulIff`.
- malloc.c, split_block called by realloc: the tail of a shrunk block is flagged free but is on no list. `AllocatorRuns.LostTail`, `Allocator.Heap.Realloc`, `AllocatorRuns.Run`.
- malloc.c, realloc: a size close to 4 GiB wraps to a small one, and the old block is kept for it. `Allocator.KeepIff`.
- malloc.c, grow_heap: a sum that wraps the break, or a rounding that wraps to no page, passes the growth test. `Allocator.GrowWraps`, `Allocator.RoundWraps`, `Allocator.GrowIff`.
- malloc.c, calloc: the overflow test is dead with a 32-bit long. `Allocator.ProductWraps`, `Allocator.Heap.Calloc`.
- mximg.c: with a minimum code size of 1 the code width never grows. `GifRoundTrips.NarrowFails`, `GifRoundTrips.CodeSizeIff`.
- calc.c: values outside a 32-bit long overflow. `CalcPrinter.OverflowingText`, `CalcPrinter.PrintedRangeIff`, `CalcPrinter.PrintedErrorIff`.
- cfdisk.c: sizes wrap, in their digits and in their units. `Partition.WrappingSizes`, `Partition.UnitsIff`, `Partition.GigabytesIff`, `Partition.PercentIff`.
- mxedit.c: after a click the first character typed is taken for a selection and replaced by the second. `EditHistory.ClickLosesCharacter`, `EditHistory.TypingIff`.
- mxedit.c: opening a file keeps the old file's undo stack, so an undo brings the old file's text into the new one. `EditHistory.UndoAcrossFiles`, `EditHistory.OpenKeepsLine`.
- mxedit.c: typing on after an undo may leave the redo stack, so a later redo drops what was typed. `EditHistory.StaleRedo`, `EditHistory.EntersIff`.

## Left out

- Inflater.Infl.Codes: does not model 32-bit wrap-around of outpos + len, which needs an output within 258 bytes of 4 GiB.
- Inflater.Infl.Stored: does not model 32-bit wrap-around of inpos + 4, inpos + len and outpos + len, which needs buffers within 64 KiB of 4 GiB.
- Gzip.GzWrap: takes the CRC as a parameter, because gz_unwrap never reads it; the CRC table is not modelled.
- Gzip.GzUnwrap: allocation succeeds, and what follows a read or store outside a buffer is not modelled.
- Buffer.Buf.Put: allocation succeeds.
- Tar.AddDir: directory reading and recursion are not modelled; paths come as a list.
- Untar.OneTurn: what follows a header read outside the archive is not modelled; the walk is marked astray there.
- Allocator.Heap.Malloc: requests whose rounding or break wraps are excluded by Fits, because the source then stores a header past the break; OutsideFits proves that these are all that is excluded.
- Allocator.Heap.GrowHeap: the same requests, for the same reason.
- Allocator.Heap.Realloc: sizes of 0xFFFFFFED and more are excluded too, because the source may then cut the block to 16 bytes or fewer, over its payload or its own header; KeepIff says which they are.
- Allocator.Heap.Calloc: products that are such sizes modulo 2^32 are excluded, because the zeroing loop then runs past the block.
- Allocator.Heap.Free: pointers that malloc never returned are not modelled.
- Gif.Decode: stops at a code no encoder sends; the source goes on with whatever its tables hold.
- Gif.Decode: palettes, interlacing and the file's other blocks are not modelled; the result is the sequence of palette indices.
- Jpeg.Decode: only tables of at most 256 codes, the size of the value array; coefficients, the inverse transform and colour conversion are not modelled.
- PngFilter.Unfilter: chunks, the zlib wrapper and pixel sampling are not modelled; img_png.c's own inflater repeats inflate.h.
- Hash.Digest: takes the compression step as a parameter; the round functions of SHA-256 and MD5 are not modelled.
- CivilDate.CivilCounts: the printing of the digits is not modelled.
- Calc.Parser.ParseExpr: marks an overflow, which is undefined in C, and goes on with the exact value.
- Cfdisk.Editor.Session: only New and Delete; the boot flag, types, drawing and disk access are not modelled.
- TextEditor.Session.Perform: allocation succeeds; status line, scrolling, saving and the outgoing clipboard are not modelled, and positions from mouse and arrow keys come as numbers inside the text.
- Glob.GlobMatch: the expansion over a directory is not modelled.
- The window system, shell, network tools and the kernel are outside this model.
