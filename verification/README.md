# A verified model of mema

mema records the memory accesses of a program and draws them. A compiler run-time library and a Valgrind tool write
compressed trace files; a viewer reads them back. This project states in Dafny what the hard parts of that pipeline do
and proves that they do it. `dafny verify dfyconfig.toml` checks everything.

| modules | what they cover |
|---|---|
| `Wrappers`, `Bytes`, `Lz4Format`, `Lz4Word`, `Lz4Copy`, `Lz4ZeroOffset`, `Lz4Search`, `Lz4Hash`, `Lz4Limit`, `Lz4Compress`, `Lz4Decode`, `Lz4Border`, `Lz4RoundTrip`, `Lz4Accept`, `Lz4Room` | the LZ4 codec: format, both compressors, both decoders, what they accept, refuse and make of previous output, round trip and worst case |
| `Lz4Example`, `Lz4Chain`, `TraceExample`, `BlockExample` | small inputs followed to their bytes |
| `TraceFormat`, `TraceLog` | the trace file and the Valgrind tool's record buffer that writes it |
| `Vex`, `EventBuffer`, `Instrument`, `TraceCorrect`, `BlockTheorems`, `DetailCounts`, `CounterTotals`, `MemoryTrace`, `InstrumentPass` | the instrumentation pass over superblocks, what instrumented code does and records, and the counters |
| `TraceRecords`, `TraceSession` | from superblocks to the trace file and back |
| `ConcurrentLog`, `FunctionMonitor` | the run-time library: threads that share a file, and recording inside chosen functions |
| `LinkedStack`, `Sorting`, `FuncTree`, `Compaction`, `Pages`, `Drawing` | the viewer: call stacks at any record, and pages moved together for drawing |
| `AStarSearch`, `BestFirst`, `Detour`, `AStar` | the A* example with its two priority queues, and when its routes are cheapest |

## How to read it

* Code that updates buffers, tables, queues and fields in place is a method over arrays or a class, with a specification
  on values beside it. A codec method says that its output bytes equal a specified byte string; what that byte string
  means is proved separately, so the round trip does not depend on how either side is written.
* The byte format is that of the LZ4 Block Format Description, sections "Compressed block format" and "End of block
  conditions". The configuration modelled is 64-bit, little-endian, `STEPSIZE` 8, tables on the stack.
* `Lz4Compress` has one text for both compressors, with the entry width, hash width, distance test and last limit check
  taken from a parameter. The jump to `_next_match` is a second kind of round of the same loop.
* `Lz4Decode` has two layers: `Decode` is a reference on byte strings, total on every input, and the methods are the
  in-place decoders that refine it. The input of `LZ4_uncompress`, which is not told a size, stands for everything that
  may be read from its source pointer on.
* A VEX statement means whatever a machine, an arbitrary parameter, says it means. The only assumption is that a
  statement changes no temporaries but the ones it assigns; single assignment is a premise of the theorems, as VEX
  promises it. What concerns memory asks besides that a statement stores, or depends on, no bytes but those that its own
  operands name.
* The run-time library's threads are a state machine whose steps are the places where threads can be told apart:
  filling the buffer, compressing it, taking the lock, writing a length, writing a payload, letting go, and resetting
  the buffer.

## Where the code is narrower than it looks

* `SixteenBitPositions`: the limit of the 16-bit compressor could be one byte higher, and no more.
* `CompactionOfDivisors`, `RangeOfUsualPages`: with a page size `p` that divides 2^64 and `n` active pages, addresses are drawn at
  their exact places if and only if `(n + 1) * p <= 2^64`, and no address can panic if and only if `(n + 1) * p < 2^64`.
  Page 0 makes the running total wrap, which does no harm; a width that wraps does: `HalfPagePanics` draws a block of one
  page of 2^63 bytes. `CompactionIsExact` and `RangeIsExact` give the conditions for every page size.
* `BalancedIffNothingMonitored`: the return from the outermost monitored function closes the gate before it could be
  recorded, so what a program records is balanced only if it never calls a monitored function; each such call leaves a
  frame that the viewer shows as still open.
* `RoundIsIndependent`, `ExactIsIndependent`: the decoders accept an offset of 0. After `l` literals, of which the copy
  moves eight bytes at a time, a match of up to eight bytes at that offset is decided by the input if and only if it ends
  within those steps; a longer one only if `l` is 0 and it has at most 12 bytes, or at most 16 bytes of output are left.
  Otherwise the decoded text holds bytes of the previous output, the first of them told by `OldBytes`; `OpenKeepsOldByte`
  is such a block.
* `ShortRoom`: a block longer than its room is refused, unless one of its matches ends exactly where the room does. Then
  `LZ4_uncompress_unknownOutputSize` returns the text up to there as if it were all; `TwentySevenIsTaken` is an input.
* `LimitOfText`: the limit checks are strict, so a limit equal to the size of a block that ends with fewer than fifteen
  literals is refused.
* `LimitIsKept`: the header of the codec promises that `LZ4_compress_limitedOutput` stays inside the buffer it is given.
  The 16-bit compressor's last check sets aside `lastRun >> 8` bytes for a length that takes a byte for every 255, so its
  result can be one byte larger than the limit; the other compressor's never is.
* `NotAlwaysCheapest`: the A* example's estimate is ten times the distance rounded down, which two neighbours can differ
  in by more than a step costs. With an estimate that does not, its routes are cheapest; with its own, one is not.
* `DetailsAreTraced`: accesses of dirty helpers are traced but not counted, and this is the only difference.
* `ActiveRegionIDs` has a loop that copies pages of earlier blocks; its bound is zero and it copies nothing, although the
  comment above it says otherwise.

## Model

| member | source | states |
|---|---|---|
| `Bytes.LittleEndianRoundTrip` | `memapass/lz4.c:225-226` | a number below 256^width written low byte first reads back as itself; the 2-byte offsets and the 8-byte frame lengths rest on it |
| `Lz4Format.CopyMatchIsPeriodic` | `memapass/lz4.c:733-761` | a byte-by-byte match copy at a distance is the only continuation of a text in which every byte repeats the one that distance back |
| `Lz4Format.StepExpands` | `memapass/lz4.c:402-452` | applying one emitted sequence to the source read so far gives the source up to the end of its match |
| `Lz4Format.CoversExpands` | `memapass/lz4.c:372-468` | whatever the hash collisions were, the sequences of a whole run obey the end of block conditions (offset 1 to 65535 inside the input, start at least 12 and end at least 5 bytes before the end of the block) and expand to the source |
| `Lz4Format.EncodedSize` | `memapass/lz4.h:73` | the amortised argument behind the bound: over any list of sequences, 255 encoded bytes are paid for by 256 bytes of text |
| `Lz4Word.CommonBytesOfWords` | `memapass/lz4.c:277-278` | for any two different 64-bit words the de Bruijn count of their exclusive or names the first byte, from the low end, in which they differ; the exclusive or is zero only for equal words |
| `Lz4Compress.EqualBytesIsExact` | `memapass/lz4.c:437-443` | one 8-byte comparison at two places of the input gives exactly the number of equal bytes before the first difference |
| `Lz4Compress.CountMatch` | `memapass/lz4.c:434-448` | the 8-byte loop with its 4/2/1 tail stops at the first difference or at the limit 5 bytes before the end, and nowhere else |
| `Lz4Compress.Try` | `memapass/lz4.c:394-396` | the old entry is read and the position stored without loss in 16 or 32 bits; it is a hit exactly when the four bytes agree at a distance of 1 to 65535, although the 16-bit compressor makes no distance test |
| `Lz4Compress.FindMatch` | `memapass/lz4.c:376-396` | the search stops at the first position of the probe schedule (step one, one more every 64 probes) whose entry, as earlier probes left it, is a hit, or when the next probe would pass the last 12 bytes; all entries stay behind the cursor |
| `Lz4Compress.CatchUp` | `memapass/lz4.c:399` | a match is extended backwards over pending literals until the previous bytes differ or one side runs out, at the same distance |
| `Lz4Compress.PutRun` | `memapass/lz4.c:423` | the loop writes the canonical 255-run encoding of a literal length and nothing before it changes |
| `Lz4Compress.PutRunPairs` | `memapass/lz4.c:451` | the loop that writes two 255s at a time produces the same canonical 255-run |
| `Lz4Compress.PutMatchLength` | `memapass/lz4.c:450-452` | the low half of a token written earlier is raised to the match length nibble and the rest follows the offset; all other bytes stay |
| `Lz4Compress.PutLast` | `memapass/lz4.c:471-479` | the last literals are refused exactly when the limit check of that compressor says so, never when they would have fitted below the limit, and are otherwise a token, a length run and the rest of the source, which ends within the limit if the check set aside enough and one byte beyond it at most otherwise |
| `Lz4Compress.LimitIsKept` | `memapass/lz4.c:638` | what the check lets through keeps within every limit if and only if the last length takes no more bytes than the check sets aside; otherwise some limit is exceeded, by one byte |
| `Lz4Compress.WhereTheCheckIsShort` | `memapass/lz4.c:474-638` | the division by 255 always sets aside enough, the shift by 8 for fewer than 4095 last literals; 4095 and 65295 are inputs where it does not |
| `Lz4Compress.Room` | `memapass/lz4.c:404` | lines 431-463 need no check of their own: the token, the 8-byte overshoot of the literal copy and the whole sequence stay inside the compress bound whenever 255 written bytes are paid for by 256 consumed ones |
| `Lz4Compress.BelowIsRoom` | `memapass/lz4.c:404` | what the check before a match lets through has room for its token, its length, its literals, an offset and six bytes more, under every limit, if and only if the check sets aside enough for the length |
| `Lz4Limit.BelowToTheEnd` | `memapass/lz4.c:404` | a run that passes every check to its end never stands where a search would fail the check: giving up and not giving up exclude each other |
| `Lz4Compress.PutSequence` | `memapass/lz4.c:402-452` | one pass writes the exact encoding of literals, offset and maximal match behind the bytes already there |
| `Lz4Compress.TestNext` | `memapass/lz4.c:456-463` | both positions before the next round enter the table in order, and the jump to the next match is taken exactly for a hit |
| `Lz4Compress.Advance` | `memapass/lz4.c:402-454` | the output goes on encoding the source up to the cursor, and the cursor ends beyond the four bytes of the probe even after catching up |
| `Lz4Compress.Sequences` | `memapass/lz4.c:371-468` | from the zeroed table to the last match the output encodes the consumed source as the greedy run: each sequence is the first hit of its search or the hit tested right after a match, with exactly the table the run so far has left; with the bound as limit it never gives up |
| `Lz4Search.GreedyIsUnique` | `memapass/lz4.c:371-468` | there is only one greedy run for an input, so the specification of the loop fixes every literal run, offset and match length |
| `Lz4Search.ProbeGrows` | `memapass/lz4.c:376-392` | the n-th probe in closed form: every position up to the 61st probe, every second one up to the 125th, and so on, so the distance searched grows with the square of the probes |
| `Lz4Hash.WordsAreSpreadEvenly` | `memapass/lz4.c:242-243` | the multiplier has an inverse modulo 2^32, so every entry of either table is the hash of exactly as many four-byte words as any other |
| `Lz4Hash.EveryEntryIsUsed` | `memapass/lz4.c:242-243` | and so of some four bytes |
| `Lz4Example.TextCompresses` | `memapass/lz4.c:328-483` | "abcdefgh" over and over, of any length: from 21 bytes on the only block either compressor can make is eight literals, one match at distance eight and five literals; below it is all literals |
| `Lz4Example.FourTimes` | `memapass/lz4.c:328-483` | four times over, that block is eighteen bytes, which are given |
| `Lz4Example.CompressFourTimes` | `memapass/lz4.c:677-683` | and LZ4_compress writes them |
| `Lz4Example.LimitOfText` | `memapass/lz4.c:404-474` | either compressor refuses that text under exactly the limits below nineteen, one more than its size |
| `Lz4Chain.ChainCompresses` | `memapass/lz4.c:454-463` | a text whose second match is found by the entry made two bytes before the end of the first: the block with two matches, the second without a token of literals of its own, is the only one |
| `Lz4Compress.OutputIsDetermined` | `memapass/lz4.c:328-483` | two outputs that meet the contract of a compressor for the same input are equal byte for byte |
| `Lz4Compress.CompressCtx` | `memapass/lz4.c:328-483` | either compressor writes the whole block of the greedy run, inside the bound, for every input it accepts, and returns 0 if and only if a check of that run fails under the limit; the result is within the limit, or one more where the 16-bit check is short |
| `Lz4Compress.CompressLimitedOutput` | `memapass/lz4.c:650-672` | inputs below the 64K limit go to the 16-bit compressor, where its table is lossless, all others to the other one; it refuses exactly the limits under which some check of the greedy run fails; with the bound as limit the call does not fail; the result never exceeds the limit for inputs below 4095 bytes or from the 64K limit on, nor whenever the check sets aside enough, and otherwise exceeds it by one byte at most |
| `Lz4Compress.Compress` | `memapass/lz4.c:677-683` | LZ4_compress never returns 0, never writes more than isize + isize/255 + 16 bytes, and what it writes encodes the source |
| `Lz4Copy.WildCopy` | `memapass/lz4.c:203-245` | copying 8 bytes at a time past the end and correcting the cursor appends exactly the literals and spoils nothing beyond the overshoot allowed for |
| `Lz4Copy.DistancesAreMultiples` | `memapass/lz4.c:705-748` | both table jumps turn an offset below 8 into a multiple of itself, the first at least 4 and the second at least 8, that stays inside the bytes of the match already written |
| `Lz4Copy.StepKeepsPeriod` | `memapass/lz4.c:733-761` | a step that reads n bytes a multiple of the offset back, and not less than n, before it writes them keeps the match periodic with the original offset |
| `Lz4Copy.MatchLeftIsCopy` | `memapass/lz4.c:733-761` | the three copies, one after the other, leave the byte-by-byte copy for every legal offset, nothing before the match and nothing more than eight bytes behind it |
| `Lz4Copy.CopyMatchInPlace` | `memapass/lz4.c:733-761` | the table trick, the 8-byte steps and the byte-wise end write exactly the byte-by-byte overlapping copy, for every offset from 1 up and length from 4 up, exactly when it fits, without touching a byte before the match or from the end of the output on; what the whole output holds afterwards is fixed for offset 0 too |
| `Lz4ZeroOffset.ZeroOffset` | `memapass/lz4.c:733-761` | every byte of the output after a match at offset 0 is a byte that stood there before it, at a place told by length and room: the first eight stay, each step of eight takes four from the step before and four from its own first half, single bytes repeat the last four |
| `Lz4ZeroOffset.FirstFree` | `memapass/lz4.c:733-761` | a match at offset 0 with bytes that neither the literals nor their overshoot gave: the first of them stood right behind the overshoot |
| `Lz4Decode.Parse` | `memapass/lz4.c:792-850` | every round of the decoder that knows its input size stays inside input and output: its literals, their 8-byte overshoot, its offset and its match are in bounds, or it names an error |
| `Lz4Decode.Decode` | `memapass/lz4.c:792-858` | for every byte string, malformed ones included, decoding ends with output inside the room or with an error at a position inside the input |
| `Lz4Decode.RunReadsAll` | `memapass/lz4.c:792-850` | the decoder that is told its input size has read all of it, unless a match has filled the output |
| `Lz4Accept.AcceptedIsBlock` | `memapass/lz4.c:690-859` | whatever either decoder takes is a block: the bytes read are the encoding of the sequences applied, each length and offset in its only form, and of the last literals; a match length at the end of the input may lack its closing zero byte |
| `Lz4Room.ShortRoom` | `memapass/lz4.c:803-850` | a block longer than the room is refused by the decoder that is told its input size if and only if no match of eight bytes or more ends exactly where the room does; if one does, the text up to there is returned without an error |
| `Lz4Room.TwelveIsRefused` | `memapass/lz4.c:803-812` | a block of 32 bytes of text into room for twelve: an error at byte nine |
| `Lz4Room.TwentySevenIsTaken` | `memapass/lz4.c:839-848` | the same block into room for twenty-seven, where its match ends: the first twenty-seven bytes, without an error |
| `Lz4Room.Refusals` | `memapass/lz4.c:711-850` | one input for each way of being refused, with the position reported |
| `Lz4Decode.ReadLength` | `memapass/lz4.c:799-820` | a length is at most 15 and 255 for each byte read, so it fits an int for inputs below 8421504 bytes |
| `Lz4Decode.ReadLengthAt` | `memapass/lz4.c:799-831` | the loops over length bytes compute the sum up to the first byte below 255 or to the end of the input |
| `Lz4Decode.RoundText` | `memapass/lz4.c:726-761` | a round in place leaves the text of the reference round whenever the offset is not 0 or the match fits into what its own literals, overshoot included, have written; if not, it does up to one byte that is named, and that byte is one the output held before the round |
| `Lz4Decode.DecodeRound` | `memapass/lz4.c:711-761` | one round in place does to the output what the byte-level reference round says, and nothing from the end of the output on |
| `Lz4Decode.DecodeLoop` | `memapass/lz4.c:792-850` | the loop ends at the error position of the reference, or leaves the reference output, also after matches at offset 0 whose bytes the input decides, and nothing else changed but by the copies of the reference, overshoot included |
| `Lz4Decode.Uncompress` | `memapass/lz4.c:690-770` | LZ4_uncompress returns the bytes read and leaves the reference output whenever the input decides it, or minus the error position; it never writes beyond osize |
| `Lz4Decode.UncompressUnknownOutputSize` | `memapass/lz4.c:773-859` | for every input the result is in -isize..maxOutputSize: the number of reference bytes left in the output, which are the reference's whenever the input decides them, or minus the position of the error; input is left unread only when the output is full; nothing is written beyond maxOutputSize |
| `Lz4Border.RoundIsIndependent` | `memapass/lz4.c:812-850` | for one round, over all outputs with the same text so far: they have the same text after it if and only if the offset is not 0 or the match fits into what its own literals, overshoot included, have written |
| `Lz4Border.OldBytes` | `memapass/lz4.c:690-859` | for a whole run from any previous output: every byte before the border is the reference's, and the byte at the border, if there is one, is a named byte of the previous output |
| `Lz4Border.ExactIsIndependent` | `memapass/lz4.c:690-859` | the decoded bytes are the same whatever the output held before if and only if every match at offset 0 in the run is one that the input decides |
| `Lz4Border.OpenKeepsOldByte` | `memapass/lz4.c:690-859` | an input where it fails, in both decoders: a block of 14 bytes whose ninth output byte is the ninth byte of the previous output |
| `Lz4Border.RunOfOpen` | `memapass/lz4.c:690-859` | both decoders accept that block, and its border is the ninth byte |
| `Lz4Border.TwoResults` | `memapass/lz4.c:690-859` | the same block into zeros and into ones gives two results |
| `Lz4RoundTrip.ReadLengthOf` | `memapass/lz4.c:799-820` | reading a nibble and its 255-run undoes writing them, for every length |
| `Lz4RoundTrip.ParseSequence` | `memapass/lz4.c:711-731` | both decoders parse an encoded sequence back to its literals, offset and length, and never read past the compressed bytes when six more follow |
| `Lz4RoundTrip.RunOf` | `memapass/lz4.c:690-859` | every legal block, from any compressor, decodes to its expansion: with the exact size by one decoder, with any sufficient room by the other |
| `Lz4RoundTrip.EncodedDecodes` | `memapass/lz4.c:690-859` | on a compressor's output both decoders consume the whole block, agree, and give the source back |
| `Lz4RoundTrip.WorstCase` | `memapass/lz4.h:73` | no block of a source is empty or longer than the compress bound |
| `Lz4RoundTrip.BoundGrowsBy` | `memapass/lz4.h:73` | the compress bound is sixteen more than the size below 255 bytes, and 256 more for each 255 |
| `Lz4RoundTrip.OffsetsFillTwoBytes` | `memapass/lz4.c:396` | the largest distance is the largest offset of two bytes |
| `Lz4RoundTrip.SixteenBitPositions` | `memapass/lz4.c:488` | 16-bit entries hold every position that can be stored if and only if the input is at most one byte longer than the limit the dispatcher enforces |
| `Lz4RoundTrip.WidthIsNeeded` | `memapass/lz4.c:650-672` | apart from one input size the dispatcher takes the 16-bit compressor exactly when 16 bits hold every position |
| `Lz4RoundTrip.CompressAndUncompress` | `memapass/lz4.c:677-770` | LZ4_compress, then LZ4_uncompress with the original size, restores every byte string and reads exactly the compressed bytes |
| `Lz4RoundTrip.CompressAndUncompressUnknown` | `memapass/lz4.c:677-859` | the same through LZ4_uncompress_unknownOutputSize, which returns the original size whatever the extra room |
| `TraceFormat.RecordsRoundTrip` | `memagrind/memadump/md_main.c:193-205` | the 56-byte records of a buffer read back as the same records in order |
| `TraceFormat.UnpackPacked` | `memagrind/memadump/md_main.c:329-340` | two rounds of decompression undo two rounds of compression |
| `TraceFormat.PackedOnce` | `memagrind/memadump/md_main.c:326-340` | there is one payload for any records |
| `TraceFormat.PayloadsOnce` | `memagrind/memadump/md_main.c:306-380` | and so one file for any records flushed in the same way |
| `TraceExample.RecordLayout` | `memagrind/memadump/md_main.c:193-205` | every byte of a record: the type in byte 0, the address from byte 40, the size from byte 48, lowest byte first, and zeros |
| `TraceExample.BufferIsTenMegabytes` | `memagrind/memadump/md_main.c:265-268` | the buffer holds as many records as fit into ten megabytes, and a flush all of them but one |
| `TraceExample.TraceNothing` | `memagrind/memadump/md_main.c:274-390` | the whole file of a program that accesses nothing: "MEMACCES", the memory map, a zero byte and one frame of two bytes |
| `TraceFormat.SplitFramesRoundTrip` | `memagrind/memadump/md_main.c:342-346` | a file body splits at its 8-byte lengths into exactly the payloads written |
| `TraceFormat.ReadTraceOf` | `memagrind/memadump/md_main.c:297-380` | a file of header and frames reads back as the records of all its payloads in order |
| `TraceLog.HoldsFrame` | `memagrind/memadump/md_main.c:342-349` | one more frame keeps the file equal to header and frames, total_compressed_size equal to the bytes written and total_uncompressed_size to the bytes they stand for, modulo 2^64 |
| `TraceLog.Log.constructor` | `memagrind/memadump/md_main.c:792-810` | tracing starts with the header in the file, both totals counting it, and no records |
| `TraceLog.Log.WriteHeader` | `memagrind/memadump/md_main.c:274-303` | however the map is read in pieces, the header is the magic bytes, the whole map and a zero byte, and the total counts every byte |
| `TraceLog.Log.Pack` | `memagrind/memadump/md_main.c:326-340` | a flush of at most one buffer compresses twice without failing, into buffers of the bound |
| `TraceLog.Log.EmptyBuffer` | `memagrind/memadump/md_main.c:306-380` | flushing moves records from the buffer to the file and loses none; with no file open it drops the buffer |
| `TraceLog.Log.Trace` | `memagrind/memadump/md_main.c:610-664` | every traced access is appended to the records, flushed ones and buffered ones together; the buffer never reaches its last slot between calls: the access that would makes a frame of all that is buffered |
| `TraceLog.Log.Readable` | `memagrind/memadump/md_main.c:306-380` | at any time the file decodes to the flushed records in call order, if the memory map in its header holds no zero byte, and total_compressed_size is its length modulo 2^64 |
| `TraceLog.Log.Finalize` | `memagrind/memadump/md_main.c:382-390` | after the last flush the file decodes, under the same condition, to every record ever traced |
| `TraceSession.RunCode` | `memagrind/memadump/md_main.c:610-664` | running instrumented code with its calls going into the buffered log adds the trace of the run to the records, in order |
| `TraceSession.RunBlock` | `memagrind/memadump/md_main.c:813-1117` | a superblock put through the pass and run ends as the original does, and the log gains what an observer of the original notes |
| `TraceSession.RunSession` | `memagrind/memadump/md_main.c:813-1117` | so over any session, the counters included |
| `TraceSession.TraceProgram` | `memagrind/memadump/md_main.c:792-1172` | from the header to the last flush: the file of a session decodes to every access of every block, in order, read-write pairs merged; taken apart, its records are the fetches, loads and stores performed, the bytes of its data records are those the detailed counters stand for and those of dirty helpers, and it has one instruction record for each instruction counted |
| `TraceRecords.RecordsArePerformed` | `memagrind/memadump/md_main.c:620-706` | the records of a session, with modifies taken apart, are every fetch, load and store that its statements perform, in order and at the places their operands name |
| `TraceRecords.RecordsAreCounted` | `memagrind/memadump/md_main.c:620-706` | the bytes of read and modify records, and of write and modify records, are those the detailed counts of loads, and of stores, stand for and those of the dirty helpers; there are as many instruction records as instructions counted |
| `EventBuffer.AddAllRefines` | `memagrind/memadump/md_main.c:713-775` | wherever the full buffer happens to be flushed, what it has emitted and still keeps is the unbounded merged list |
| `EventBuffer.BoundedIsUnbounded` | `memagrind/memadump/md_main.c:576-775` | for every sequence of additions and flushes, four slots emit the same calls in the same order as a list without a bound |
| `EventBuffer.ReadThenWrite` | `memagrind/memadump/md_main.c:983-1014` | a compare-and-swap or modifying helper always becomes exactly one modify, whatever is pending |
| `EventBuffer.SwapsAreModifies` | `memagrind/memadump/md_main.c:974-1025` | the events of a compare-and-swap, doubleword or not, and of a helper that modifies become one modify of its whole width |
| `InstrumentPass.Pass.FlushEvents` | `memagrind/memadump/md_main.c:667-706` | all pending events become calls, oldest first, and the buffer is empty |
| `InstrumentPass.Pass.Append` | `memagrind/memadump/md_main.c:713-744` | a full buffer is emitted before the event is stored |
| `InstrumentPass.Pass.AddEventDw` | `memagrind/memadump/md_main.c:746-775` | a write turns an immediately preceding read of the same operand and size into a modify, and is buffered otherwise |
| `InstrumentPass.Pass.AddEvents` | `memagrind/memadump/md_main.c:919-1049` | every kind of statement adds the events it declares to the buffer |
| `InstrumentPass.Pass.WrapStatement` | `memagrind/memadump/md_main.c:862-1106` | one turn of the switch adds, in order, counts, freed or flushed traces, detail counts, the statement and the not-taken count |
| `InstrumentPass.Pass.Instrument` | `memagrind/memadump/md_main.c:813-1117` | the pass with its four-slot buffer and growing output block produces exactly the specified instrumented code |
| `BlockExample.CodeOfBlock` | `memagrind/memadump/md_main.c:813-1117` | the code for a block with a load, a store to the same place, an inverted branch and another store: every call in its place |
| `BlockExample.LinkedStaysApart` | `memagrind/memadump/md_main.c:1027-1051` | a load-linked is traced at once, and a conditional store behind it stays a store |
| `TraceCorrect.MergeAllKeepsStep` | `memagrind/memadump/md_main.c:746-775` | merging an event into the pending list, and into what an observer has seen, keeps the trace so far plus the pending events equal to what the observer noted |
| `TraceCorrect.ExecKeepsKnown` | `memagrind/memadump/md_main.c:667-706` | in single-assignment code a pending operand still has the value it had when its access happened |
| `TraceCorrect.BodyIsDirect` | `memagrind/memadump/md_main.c:862-1114` | from any point of a run, instrumented code ends as the original, with the trace and counts of an observer who notes each access when it happens |
| `BlockTheorems.OnlyHelpersAdded` | `memagrind/memadump/md_main.c:833-864` | erasing the helper calls leaves the preamble as it was and then every statement that is neither null nor a no-op, in order |
| `BlockTheorems.InstrumentationIsFaithful` | `memagrind/memadump/md_main.c:813-1117` | on every machine and from every state, instrumented code reaches the same guest state and the same exit, and at every exit and at the end the trace is what happened, read-write pairs merged |
| `MemoryTrace.TraceIsPerformed` | `memagrind/memadump/md_main.c:862-1106` | the trace of an instrumented block, with modifies taken apart, is every fetch, load and store of the run behind the preamble, in order and at the place its operand names when the statement runs |
| `MemoryTrace.WritesAreTraced` | `memagrind/memadump/md_main.c:919-1049` | on a machine whose statements change no byte of memory but those they store, every byte that differs after a run from what it was behind the preamble lies inside a recorded write or modify |
| `MemoryTrace.ReadsAreTraced` | `memagrind/memadump/md_main.c:919-1049` | on a machine whose statements depend on no byte of memory but those they load, bytes that no recorded read or modify covers change nothing: not the trace, not the counters, not the way out, and no other byte |
| `MemoryTrace.InstructionsAreTraced` | `memagrind/memadump/md_main.c:883-927` | the recorded instruction reads are the addresses and lengths of the marks run, in order |
| `BlockTheorems.StatementTotals` | `memagrind/memadump/md_main.c:1053-1103` | one statement adds one to the statements, and a branch adds one to the taken ones exactly when the guest's own branch is taken, inverted conditions included |
| `BlockTheorems.SessionTotals` | `memagrind/memadump/md_main.c:1126-1151` | over any session of blocks the report is the sum of what the original blocks do: entered, completed, statements, instructions, branches and branches taken |
| `BlockTheorems.EnteredIsCompletedOrLeft` | `memagrind/memadump/md_main.c:840-846` | over any session, blocks entered are blocks completed plus blocks left by an exit |
| `DetailCounts.StatementDetails` | `memagrind/memadump/md_main.c:935-1050` | the detailed counts of one statement stand for exactly the bytes its events declare, doubleword compare-and-swap included; dirty helpers are not counted |
| `DetailCounts.SeeAdds` | `memagrind/memadump/md_main.c:746-775` | merging a write into a read loses and invents no traced bytes |
| `DetailCounts.DetailsAreTraced` | `memagrind/memadump/md_main.c:813-1117` | on every run of an instrumented block the bytes loaded, and stored, according to the trace are those of the detailed counts plus those of the dirty helpers run |
| `CounterTotals.StatementTimes` | `memagrind/memadump/md_main.c:862-1106` | the calls around a statement add to each counter, whatever its operation and type, exactly how often its event happens in that statement |
| `CounterTotals.BlockCounters` | `memagrind/memadump/md_main.c:813-1117` | after any run of an instrumented block each counter, function calls and arithmetic of each type included, is the number of times its event happened in the original block |
| `CounterTotals.SessionCounters` | `memagrind/memadump/md_main.c:398-451` | and so over any session |
| `CounterTotals.TakenIsExact` | `memagrind/memadump/md_main.c:1129-1130` | however often the 64-bit counters have wrapped, the reported numbers of branches and of branches taken are those of the original blocks modulo 2^64 |
| `ConcurrentLog.InvStep` | `memapass/mema_rtl.cpp:199-280` | every step of every thread keeps: file is header, whole frames and at most the start of the lock holder's frame; each thread's frames and buffer are its records; both totals lack only the holder's frame |
| `ConcurrentLog.InvAlways` | `memapass/mema_rtl.cpp:178-280` | so after every schedule |
| `ConcurrentLog.OwnFramesDecode` | `memapass/mema_rtl.cpp:226-252` | the frames of one thread, picked out of the file in order and decoded, are the records it has flushed, in order |
| `ConcurrentLog.FileIsWholeFrames` | `memapass/mema_rtl.cpp:178-280` | whenever the write lock is free, the file splits into whole frames, total_compressed_size is its length, total_uncompressed_size what its frames stand for, and each thread's decoded frames followed by its buffer are the records it made in the schedule, in order |
| `ConcurrentLog.GivenIsAccessed` | `memapass/mema_rtl.cpp:178-280` | what a thread's frames and buffer account for is every access it made in the schedule, and nothing else |
| `ConcurrentLog.TotalsStay` | `memapass/mema_rtl.cpp:266-276` | without compression neither total is touched by a flush |
| `FunctionMonitor.Monitor.FunctionEntry` | `memapass/mema_rtl.cpp:288-321` | an entry opens the gate on the first monitored call, counts nested ones, and is recorded exactly when the gate is then open |
| `FunctionMonitor.Monitor.FunctionExit` | `memapass/mema_rtl.cpp:323-355` | an exit of the outermost monitored call closes the gate, and is recorded exactly when the gate is still open |
| `FunctionMonitor.ExecutionIsConsistent` | `memapass/mema_rtl.cpp:288-355` | over every run that starts unmonitored, the gate is open exactly inside a monitored call, and the recorded calls replay without an exit on an empty stack |
| `FunctionMonitor.RecordedIsNoted` | `memapass/mema_rtl.cpp:288-355` | for every run the record is told by the call stack: a call that is monitored or made inside a monitored one, and a return to somewhere inside one, each with its address |
| `FunctionMonitor.FinishedCallsStayOpen` | `memapass/mema_rtl.cpp:326-341` | the return that closes the gate is not recorded: after unwinding, the replayed stack holds one frame for each call of a monitored function that the program made from outside any other |
| `FunctionMonitor.BalancedIffNothingMonitored` | `memapass/mema_rtl.cpp:288-355` | for every program run to its end, the recorded calls are balanced if and only if the program calls no monitored function at all |
| `FunctionMonitor.OneCallStaysOpen` | `memapass/mema_rtl.cpp:288-355` | an input where they are not: one call of a monitored function and its return record the entry alone |
| `LinkedStack.Stack.Push` | `memaviz/stack.go:21-24` | the value goes on top of everything that was there |
| `LinkedStack.Stack.Pop` | `memaviz/stack.go:28-35` | the top value comes off and the rest stays; an empty stack gives nothing and stays empty |
| `FuncTree.OpenIsReplay` | `memaviz/functree.go:13-40` | the entry numbers on the builder's stack name exactly the frames open in a plain replay from the carried context |
| `FuncTree.CallReturns` | `memaviz/functree.go:13-40` | a call whose inner calls have returned is on top of whatever was open, until it returns and leaves that as it was |
| `FuncTree.IntervalsAroundRecord` | `memaviz/functree.go:13-54` | the intervals of the index that contain a record start at exactly the entries open after that record |
| `FuncTree.BuildStree` | `memaviz/functree.go:13-59` | building fails exactly when replay meets an exit on an empty stack; otherwise it pushes the intervals and returns the frames left open, innermost first |
| `FuncTree.GetStack` | `memaviz/functree.go:62-82` | for every record of the block and any order of the query's answer, the result is the replayed stack after that record, outermost first |
| `FuncTree.ChainIsReplay` | `memaviz/functree.go:42-59` | however a stream is cut into blocks, chaining the returned contexts is replaying the whole stream |
| `Pages.CountActivity` | `memaviz/block.go:42-54` | the map holds, for every page, the number of accesses to it |
| `Pages.SortPages` | `memaviz/block.go:96-103` | the list holds each page once, in rising order, whatever order the map is walked in |
| `Compaction.RankCounts` | `memaviz/block.go:105-108` | the index of a page is the number of active pages below it |
| `Pages.SkippedPages` | `memaviz/block.go:110-121` | the running total is the page minus its rank minus one, modulo 2^64, for every set of pages, page 0 included |
| `Compaction.OffsetModulo` | `memaviz/block.go:411-417` | however the skip has wrapped, the drawn offset is the address moved into the page after its rank, modulo 2^64 |
| `Compaction.CompactionIsExact` | `memaviz/block.go:411-417` | for every page size, every address of every active page lands at its exact place if and only if the active pages and an empty one fit in the whole pages of the address space, a partial last page needing no more than there is of it |
| `Compaction.CompactionOfDivisors` | `memaviz/block.go:411-417` | for page sizes that divide 2^64 that is: if and only if the pages and one more take at most 2^64 bytes |
| `Compaction.TwoHalvesWrap` | `memaviz/block.go:416` | an input where it fails: with two active pages of 2^63 bytes the first byte of the second is drawn at offset 0 |
| `Compaction.CompactionKeepsOrder` | `memaviz/block.go:411-417` | moving addresses together keeps their order, so no two of them meet |
| `Pages.DepthIsStackHeight` | `memaviz/block.go:359-409` | the depth drawn is the height of the replayed stack |
| `Drawing.AcrossPlace` | `memaviz/block.go:411-417` | where an address is drawn, exactly, when the active pages and one more take less than 2^64 bytes: the pages share the drawing from -2 to 2 with an empty stretch at its left end, each in the order of its rank |
| `Drawing.AcrossKeepsOrder` | `memaviz/block.go:411-417` | addresses of active pages are drawn from left to right in their order |
| `Drawing.StretchOfPage` | `memaviz/block.go:411-417` | the page of rank i fills the stretch from -2 + 4(i+1)/(n+1) to -2 + 4(i+2)/(n+1) |
| `Drawing.RowsArePlaces` | `memaviz/block.go:372-444` | one vertex for each record that is not of a quiet page, in the row of its place |
| `Drawing.DrawCall` | `memaviz/block.go:42-450` | a block with a call that reads one page and writes another, drawn: four vertices in their places and colours |
| `Pages.NeverOutOfRange` | `memaviz/block.go:416-421` | when the active pages and one more take less than 2^64 bytes no record of the block trips the range check |
| `Pages.RangeIsExact` | `memaviz/block.go:351-421` | for every page size, all addresses of active pages pass the check if and only if the active pages and one more take less than 2^64 bytes, or the wrapped width is still at least two thirds of the largest offset |
| `Pages.RangeOfUsualPages` | `memaviz/block.go:351-421` | for page sizes that divide 2^64 or are at most a third of it the second case never arises: all pass if and only if the active pages and one more take less than 2^64 bytes; otherwise the width has wrapped, to zero or to a page or two, and some address panics |
| `Pages.HalfPagePanics` | `memaviz/block.go:351-421` | an input where it fails: one active page of 2^63 bytes makes the width zero and the coordinate of address 0 infinite, and drawing it panics |
| `Pages.HugePagePasses` | `memaviz/block.go:351-421` | an input of the second case: a page of 2^64 - 1 bytes passes although it and one more do not fit |
| `Pages.PagesAreSplit` | `memaviz/block.go:84-94` | every accessed page, and no other, is quiet or active, the quiet ones being those below the fraction of the busiest page's accesses |
| `Drawing.QuietIsExact` | `memaviz/block.go:86-94` | a page is quiet if and only if the fraction times one access more than it has is at most what the busiest page has |
| `Drawing.BusyIsActive` | `memaviz/block.go:56-94` | the busiest pages are active, and so is every page with at least the accesses of an active one |
| `Pages.Block.ActiveRegionIDs` | `memaviz/block.go:42-122` | the block ends with its pages split, ranked in rising order and with their skips, every active page holding an address, and with its records unchanged |
| `Pages.Block.GenerateVertices` | `memaviz/block.go:349-450` | the vertices of every record in order, unless and only unless the coordinate of some drawn record fails the check, which an infinite one does and no number does not |
| `AStarSearch.CloseStep` | `examples/astar/astar.cpp:118-126` | closing the best node keeps the tree of reached cells, the frontier and the one-entry-per-open-cell queue |
| `AStarSearch.ReachStep` | `examples/astar/astar.cpp:163-172` | a newly reached cell joins the tree and the queue once |
| `AStarSearch.ImproveStep` | `examples/astar/astar.cpp:173-201` | a smaller priority means a smaller level; re-parenting an open cell to it and replacing its queue entry keep the tree, the frontier, the queue, the priorities, and that no open cell is farther than one step from any closed neighbour already tried |
| `AStarSearch.NotReachable` | `examples/astar/astar.cpp:114-207` | when the queue runs empty without the finish, no walk over free cells reaches it |
| `BestFirst.BestIsTake` | `examples/astar/astar.cpp:118-203` | an entry of least priority has the least level that any cell taken so far offers its cell, and a priority no greater than any of them offers a free cell not yet taken: the queues are refined by an order that does not mention them |
| `BestFirst.TakenAtLeastCost` | `examples/astar/astar.cpp:114-207` | if no step lowers the estimate by more than it costs, every cell is taken at the cost of a cheapest route to it |
| `BestFirst.FloorIsNotConsistent` | `examples/astar/astar.cpp:59-76` | the estimate of the program is not such an estimate |
| `Detour.BeginsWithOrder` | `examples/astar/astar.cpp:114-207` | an input where it matters: on a map of eleven free cells every search takes the same six cells first, around the diagonal |
| `Detour.NotAlwaysCheapest` | `examples/astar/astar.cpp:59-207` | so on that map every search that takes the finish takes it at 90, although a route of 84 leads there |
| `Detour.FindDetour` | `examples/astar/astar.cpp:86-208` | and there the call returns a route that costs 90, while one of 84 exists |
| `Detour.WalkDetour` | `examples/astar/astar.cpp:86-208` | and on a grid filled with that map, under the estimate computed by whole square roots, the program returns 90 |
| `AStar.PathFinder.TakeTop` | `examples/astar/astar.cpp:118-124` | an entry of least priority leaves the queue and nothing else does |
| `AStar.PathFinder.CloseBest` | `examples/astar/astar.cpp:118-126` | the node taken is one of least priority, its cell was not closed before, its level is that of the search, and it is the next in the order of a best-first search |
| `AStar.PathFinder.MoveUntil` | `examples/astar/astar.cpp:184-190` | emptying one queue into the other up to the worse entry of a cell loses that entry only |
| `AStar.PathFinder.Replace` | `examples/astar/astar.cpp:184-200` | the two-queue shuffle, in either direction, exchanges one entry for one of smaller priority and leaves the other queue empty |
| `AStar.PathFinder.Expand` | `examples/astar/astar.cpp:152-203` | trying one direction keeps the arrays, the queue and the search in agreement, whichever branch is taken; no level grows, none of a closed cell changes, and the cell in that direction is then within one step of the current one |
| `AStar.PathFinder.ReadPath` | `examples/astar/astar.cpp:130-142` | following the direction map back ends at the start, and gives a legal walk to the finish that costs the finish's level |
| `AStar.PathFinder.PathFind` | `examples/astar/astar.cpp:86-208` | the search ends; the nodes taken, up to the finish if it is ever taken, are those of a best-first search; it finds a route exactly when the finish is reachable, and exactly when the finish is the last node taken; the route is legal, costs the level of that node, and under a consistent estimate no other route costs less; for distinct cells the answer is non-empty exactly when there is a route |

## Left out

- Lz4Compress.CompressLimitedOutput: takes any limit but asks for an output as large as the bound; its result is bounded by the limit, but where the literal copy overshoots in a smaller output is not part of this model.
- Lz4Compress.CompressCtx: asks for such an output too.
- Lz4Word.CommonBytesOfWords: the software bit count stands for the compiler's count of trailing zeros as well.
- Lz4Decode.Uncompress: asks that decoding does not run past everything readable, which `LZ4_uncompress` cannot check.
- Lz4Decode.DecodeLoop: what a refused input has left in the output is not specified, only that nothing beyond the output is touched.
- Lz4Decode.ReadLength: lengths of longer inputs are unbounded integers where the C code adds them in an `int`.
- TraceSession.TraceProgram: each block is entered in a state of its own, whatever it is; sizes are passed as 64-bit words; the map in the header holds no zero byte.
- TraceFormat.ReadTraceOf: the reader is the C decoder on whole frames; the viewer's 10 MB intermediate buffer is not part of this model.
- InstrumentPass.Pass.Instrument: the assertions of the pass are its premises (instruction and access sizes in range, an instruction before any exit); statements it refuses with an assertion are not modelled.
- BlockTheorems.InstrumentationIsFaithful: guarded dirty helpers are traced as declared, whether or not the guard holds, as in the pass.
- BlockTheorems.SessionTotals: counters here are unbounded; `CounterTotals.TakenIsExact` says what wrapping does to the report.
- ConcurrentLog.FileIsWholeFrames: writes are whole, a file is open, and the totals are unbounded; the buffers are values inside a state, so overlapping memory of two threads is not modelled.
- FunctionMonitor.ExecutionIsConsistent: monitoring works on one thread, with the flag and the count belonging to it.
- LinkedStack.Stack.Push: a link is an immutable value, not a heap object.
- FuncTree.GetStack: the interval tree is what its query answers, the intervals that contain the record in some order; the record is one of the block.
- Pages.Block.GenerateVertices: finite coordinates are exact reals instead of `float32`; page size 0, which divides by zero on the first record, is not modelled.
- AStar.PathFinder.PathFind: the estimate is any natural number for a cell and ties between equal priorities are broken in any way, and the store at line 111, through coordinates left over from the loops, is not modelled.
- The copy of the codec in `memagrind/memadump`, and its big-endian, 32-bit, MSVC and heap-table variants.
- Printing, opening and closing files, clocks, environment flags, `nm` and `/proc` reading, thread hooks and symbol interception.
- The compiler pass that inserts the run-time library's calls.
- The viewer's windows, drawing, charts, timers, background loading and symbol lookup.
- `GetRegion` in `memaviz/data.go`, the record-count field of decoded blocks, and the function-match check of `BuildStree`, which compares a value with itself.
- The other example programs (sorting, matrix multiplication).
