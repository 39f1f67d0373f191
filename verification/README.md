# Verified models of the HPDcache testbench: miniz's deflate and the cache reference models

This project models two parts of the HPDcache testbench in Dafny and proves them.

**The deflate engine of the vendored miniz** (RFC 1951, with the zlib wrapper of RFC 1950). The compressor is
modelled from the input bytes to the bits of the stream: the sliding window with its hash chains, the lazy or greedy
parser, the token buffer with its flag bytes, radix sort, the in-place Huffman construction, the length limiter, the
run-length code of the code sizes, the bit buffer, and the block flusher with its raw and static fallbacks. The
decompressor is modelled from the bits back to the bytes: table construction, the fast table and the overflow tree,
the symbol loop with its two-literal path, match copies in a flat or circular buffer, and the checksum.

**The cache reference models**: the set-associative directory with bit-PLRU replacement, and the scoreboard's LR/SC
reservation.

The main results:

- *Round trip* (`RoundTrip.CompressAndDecompress`). For every sequence of input pieces, with any flush mode after
  each of them, whatever data comes with the last call, and for every compressor option, the decompressor turns the
  compressor's output back into the input and consumes exactly that output, whatever bytes follow it. There is no
  condition on sizes: the bits sent after a block never overrun the output buffer, so the assertion at the end of
  `tdefl_flush_block` (miniz.c:1365) holds. `InflateCalls.CompressAndInflate` says the same of `mz_inflate`, for any
  calls with any input, room and flush modes, and bounds the number of calls after which the end is reported.
- *Flushes* (`RoundTrip.FlushAndDecompress`, `InflateCalls.FlushAndInflate`). After a synchronous or full flush the
  bytes handed over so far are enough: the decompressor puts out all the data so far, and only then waits for more. In
  general, what it puts out for the beginning of a stream, or into a buffer that is too small, is a prefix of the data.
- *Soundness* (`RoundTrip.Decompress`). Whatever input is accepted, the bytes consumed are a stream in the sense of
  `LooseFormat`, and its blocks mean exactly the output. `StrictForm.PlainIsStrict` names all that separates such
  a stream from RFC 1951: padding that is not zero, another window size in the zlib header, length 258 as symbol 284,
  the reserved length symbols (as empty matches), and undefined codes of tables that are not complete (as symbol 0).
- *Completeness* (`RoundTrip.Decompress`). Conversely, every such stream in which all symbols are given by their words is
  accepted, with all these liberties but the last one; if only its checksum is wrong, just that is reported. Every
  strict stream is one of them (`StrictForm.StrictIsFormed`), and so is every stream whose tables are complete
  (`LooseFormat.CompleteInWords`).
- *What the compressor chooses.* The hash chains hold for every hash value its newest position, and for every position
  the one before it (`Dictionary.Dictionary.Load`). The search reports the longest match at the positions it visits, and
  nothing only if there is none longer than what is asked for (`Dictionary.Dictionary.FindMatch`). Each parsing step is
  pinned to a pure decision function (`Deflate.Compressor.ParseStep`), a block is written just when one is due, and
  which form it is sent in follows from the bits of its compressed form (`BlockFlusher.BlockFlusher.Encode`); so no block
  within the window takes more than 41 bits more than its data (`BlockFlusher.NeverMuchLonger`).
- *Optimal codes* (`MinRedundancy.CalculateMinimumRedundancy`, `HuffmanEncoder.CodeTable.Optimize`). The in-place
  Moffat-Katajainen passes give lengths that no prefix code beats. Limiting them to 15 bits costs at most
  `150 * n + 30840` bits for `n` used symbols (`LimitLoss.LossBound`), and nothing at all for few enough symbols.
- *Encoder and decoder agree* on every accepted table: the table that the decompressor builds decodes exactly the
  canonical code, every walk in it ends in range, and its tree fits the array.
- *Four properties that hold on an exact condition only:*
  - `ZipIndex.SearchIsScan`: the binary search and the linear scan agree on a name, for every archive, if and only if
    the name is shorter than 4 GiB or its length modulo 4 GiB exceeds 65535. The search cuts the length off to 32
    bits, the scan does not. The lemma's proof contains the archive on which they differ.
  - `ZipIndex.CompareIsLess`: the sign that the search goes by orders a searched name against all names of entries as
    the sort does if and only if that name has at most 2 GiB; the difference of the lengths is an `int`.
  - `LrscTracker.CoversTouches`: the scoreboard's comparison finds exactly the words that a request touches if and
    only if the request stays within the words counted for it and within its line, as requests aligned to their
    size do (`LrscTracker.AlignedContained`).
  - `CacheDirectory.CacheDirectory.Repl`: the search for a victim fails if and only if the set is full and all its PLRU
    bits are set. With two ways or more this never happens; with one way it happens as soon as the set is full
    (`CacheDirectory.StuckIffOneWay`).

How the model is laid out: one module per component, named after it. Numbers are unbounded, with the widths of the C
code written out where they matter (`u16`, `u32`, `% 0x1_0000_0000`). A bit string is a `seq<bool>` in stream order.
`DeflateFormat` says which bits a sequence of blocks is and which bytes it stands for, for the compressor; `LooseFormat`
says the same for all that the decompressor takes, and `StrictForm` relates the two. The constants that both sides share
are stated by rules of their own (`DeflateFormat.SwizzleOrder`, `Tokens.LengthTableRule`, `Tokens.DistTableRule`,
`DeflateFormat.FixedWords`, `Adler32.UpdateIs`). The methods of the decompressor say two things: what was read from the bits
consumed, for every input; and, if a ghost flag `live` says that the input starts with a given coded form or is the
beginning of one, that the result is what that form means as far as input and room go. Within one run the places where
the C code suspends itself are waits, after which more input or room is there (`BitReader.AwaitInput`,
`OutWindow.AwaitOutput`); the 64-bit bit buffer is modelled. From one call to the next, `InflateDecoder.Decoder` decodes
again what has been taken, and goes on. Where the code and its comments disagree, the model follows the
code: miniz.c:1324 calls a dynamic block that does not fit the output buffer extremely unlikely; the branch is
modelled, and `BlockFlusher.CompressBlock` shows that it is never taken.

## Model

| member | source | states |
|---|---|---|
| RoundTrip.CompressAndDecompress | rtl/l1_cache/hpdcache/cv-hpdcache/rtl/tb/thirdparty/miniz/miniz.c:1913-1979 | the round trip, for all pieces with their flush modes, all data of the last call, options and following bytes; exactly the compressed bytes are consumed; a buffer that is too small gets the beginning |
| RoundTrip.Decompress | rtl/l1_cache/hpdcache/cv-hpdcache/rtl/tb/thirdparty/miniz/miniz.c:2956-2963 | on any input it ends within the buffer, and what it accepts is a stream that means the output, with the right checksum; every stream in which all symbols are given by their words is accepted, with any padding, header and coding of lengths, gives what its blocks mean, and exactly its bytes are consumed; if its checksum is wrong, that is reported; on a part of one, or with too little room, the output is a prefix with at least the blocks that are there to their ends |
| RoundTrip.FlushAndDecompress | rtl/l1_cache/hpdcache/cv-hpdcache/rtl/tb/thirdparty/miniz/miniz.c:1332-1363 | what has been handed over after a synchronous or full flush decompresses to all data so far; the decompressor then waits for input |
| DeflateMem.FlushPieces | rtl/l1_cache/hpdcache/cv-hpdcache/rtl/tb/thirdparty/miniz/miniz.c:1332-1363 | after such a flush the bytes handed over are whole blocks that stand for all data so far, and the beginning of a complete stream |
| DeflateMem.CompressPieces | rtl/l1_cache/hpdcache/cv-hpdcache/rtl/tb/thirdparty/miniz/miniz.c:2033-2046 | the bytes handed over are one complete stream of blocks, with the header that the options ask for and checksum, that stands for all the pieces and the data of the last call; without pieces, one call does everything |
| InflateCalls.InflateInPieces | rtl/l1_cache/hpdcache/cv-hpdcache/rtl/tb/thirdparty/miniz/miniz.c:439-549 | what a sequence of calls delivers on a valid stream, or on the beginning of one, is a prefix of what its blocks mean, and all of it once a call reports the end, when exactly the bytes of the stream have been taken; calls that offer all input that is left and some room report the end after at most as many calls as there are bytes of output, and one more |
| InflateCalls.CompressAndInflate | rtl/l1_cache/hpdcache/cv-hpdcache/rtl/tb/thirdparty/miniz/miniz.c:439-549 | so the compressor's output, taken in any pieces, comes back in any pieces, and what follows it is left alone |
| InflateCalls.FlushAndInflate | rtl/l1_cache/hpdcache/cv-hpdcache/rtl/tb/thirdparty/miniz/miniz.c:439-549 | what has been handed over after a flush comes back in full, piece by piece, by at most as many calls as there are bytes and two more |
| Deflate.Compressor.Compress | rtl/l1_cache/hpdcache/cv-hpdcache/rtl/tb/thirdparty/miniz/miniz.c:1913-1979 | after a flush the blocks written stand for all data seen; after the last call the stream is complete and carries the right checksum; after a full flush, and only then, nothing before may be referred to |
| Deflate.Compressor.CompressNormal | rtl/l1_cache/hpdcache/cv-hpdcache/rtl/tb/thirdparty/miniz/miniz.c:1747-1890 | all input is taken; blocks and buffered tokens together stand for exactly the data up to the lookahead, less one byte while a match is saved; with a flush nothing is left in the lookahead; no block is left due |
| Deflate.Compressor.ParseStep | rtl/l1_cache/hpdcache/cv-hpdcache/rtl/tb/thirdparty/miniz/miniz.c:1801-1873 | one round of the lazy or greedy parser records exactly the tokens, keeps pending exactly the match, and moves exactly as far as its decision on the result of the search says; the tokens stay an exact parse of the data, and at most six bytes of token buffer are used; without a flush it needs a full lookahead |
| Deflate.DecideMatch | rtl/l1_cache/hpdcache/cv-hpdcache/rtl/tb/thirdparty/miniz/miniz.c:1801-1869 | a match is recorded where it was found exactly if matching is eager or it has 128 bytes or more, and a pending one exactly if there is none longer at the next byte |
| Deflate.DecidePending | rtl/l1_cache/hpdcache/cv-hpdcache/rtl/tb/thirdparty/miniz/miniz.c:1833-1869 | a match is left pending exactly if it has less than 128 bytes, matching is lazy, and it is longer than the one that was pending |
| Deflate.DecideCovers | rtl/l1_cache/hpdcache/cv-hpdcache/rtl/tb/thirdparty/miniz/miniz.c:1801-1872 | every byte is recorded once: the tokens of a step cover what was pending and what the lookahead moves over, less what is pending now |
| Deflate.Compressor.Search | rtl/l1_cache/hpdcache/cv-hpdcache/rtl/tb/thirdparty/miniz/miniz.c:1804-1832 | the search is the one the options ask for, with their numbers of probes; a result that is not worth recording is dropped, by the stated rule |
| Deflate.Compressor.FlushIfFull | rtl/l1_cache/hpdcache/cv-hpdcache/rtl/tb/thirdparty/miniz/miniz.c:1875-1886 | one block is written if the token buffer is full or its contents do not compress, and otherwise none |
| Deflate.Compressor.WriteBlock | rtl/l1_cache/hpdcache/cv-hpdcache/rtl/tb/thirdparty/miniz/miniz.c:1250-1378 | one block is added, with what the flush adds, in the form that follows from the buffered tokens, and then the blocks stand for all that was recorded |
| Deflate.Compressor.MatchCopies | rtl/l1_cache/hpdcache/cv-hpdcache/rtl/tb/thirdparty/miniz/miniz.c:1837-1866 | a match found in the window is a copy: recording it extends the parse by exactly the bytes in the lookahead |
| Deflate.Compressor.DataStillThere | rtl/l1_cache/hpdcache/cv-hpdcache/rtl/tb/thirdparty/miniz/miniz.c:1304-1305 | if the block is within the window, the circular dictionary still holds all its bytes, although positions wrap at 32 bits |
| Dictionary.Dictionary.Load | rtl/l1_cache/hpdcache/cv-hpdcache/rtl/tb/thirdparty/miniz/miniz.c:1756-1798 | the bytes loaded are the next ones of the input, the mirrored tail equals the head, window and lookahead never exceed the buffer, and the chains hold the newest position of each hash value and, for each position, the one before it with the same hash value |
| Dictionary.Dictionary.FindMatch | rtl/l1_cache/hpdcache/cv-hpdcache/rtl/tb/thirdparty/miniz/miniz.c:1476-1518 | a reported match is the longest at the positions of the chain that are visited, at least one for each probe but the last, the first one with that length, within the window and longer than what is to be beaten; nothing is reported exactly if there is none |
| Dictionary.Dictionary.FindRun | rtl/l1_cache/hpdcache/cv-hpdcache/rtl/tb/thirdparty/miniz/miniz.c:1806-1823 | it reports the maximal run of the byte before, and nothing exactly if that has less than 3 bytes |
| Dictionary.Dictionary.SameHashVisited | rtl/l1_cache/hpdcache/cv-hpdcache/rtl/tb/thirdparty/miniz/miniz.c:1476-1518 | the positions visited are, to begin with, those with the hash value of the next three bytes, newest first, as far back as the window goes |
| HashChains.ChainsInsert | rtl/l1_cache/hpdcache/cv-hpdcache/rtl/tb/thirdparty/miniz/miniz.c:1772-1773 | linking a position in keeps all chains right, although places are used again after 32768 positions and stored in 16 bits |
| HashChains.RollHash | rtl/l1_cache/hpdcache/cv-hpdcache/rtl/tb/thirdparty/miniz/miniz.c:1770-1791 | the rolling hash value is that of the last three bytes |
| LzCodeBuffer.LzCodeBuffer.RecordLiteral | rtl/l1_cache/hpdcache/cv-hpdcache/rtl/tb/thirdparty/miniz/miniz.c:1706-1717 | the buffer and the statistics hold one literal more, although new flag bytes are never cleared |
| LzCodeBuffer.LzCodeBuffer.RecordMatch | rtl/l1_cache/hpdcache/cv-hpdcache/rtl/tb/thirdparty/miniz/miniz.c:1719-1745 | the buffer and the statistics hold one match more |
| LzCodeBuffer.LzCodeBuffer.Finish | rtl/l1_cache/hpdcache/cv-hpdcache/rtl/tb/thirdparty/miniz/miniz.c:1265-1266 | after the fix-up of the last flag byte the buffer is the image of exactly the recorded tokens |
| TokenWriter.NextToken | rtl/l1_cache/hpdcache/cv-hpdcache/rtl/tb/thirdparty/miniz/miniz.c:1191-1231 | the flag-byte reader is always at the next recorded token: its flag says whether it is a match, and its payload comes next |
| TokenWriter.CompressLzCodes | rtl/l1_cache/hpdcache/cv-hpdcache/rtl/tb/thirdparty/miniz/miniz.c:1191-1236 | the bits sent are the coded form of exactly the recorded tokens, then the end-of-block symbol; the result says whether they fit |
| Tokens.CopyIs | rtl/l1_cache/hpdcache/cv-hpdcache/rtl/tb/thirdparty/miniz/miniz.c:2796-2832 | bytes that each repeat the one a distance back are the overlapping copy of a match |
| RadixSort.RadixSortSyms | rtl/l1_cache/hpdcache/cv-hpdcache/rtl/tb/thirdparty/miniz/miniz.c:747-778 | the array returned, whichever it is, holds a stable permutation of the input sorted by its 16-bit keys, also when the high-byte pass is skipped |
| MinRedundancy.CalculateMinimumRedundancy | rtl/l1_cache/hpdcache/cv-hpdcache/rtl/tb/thirdparty/miniz/miniz.c:781-834 | for any sorted weights the keys become non-increasing lengths with a Kraft sum of exactly one; if the weights are positive and add up to less than 65536, the lengths are optimal, at most 22, and no leaf is heavier than a Fibonacci fraction of the whole |
| MinRedundancy.ShallowTree | rtl/l1_cache/hpdcache/cv-hpdcache/rtl/tb/thirdparty/miniz/miniz.c:781-834 | the Fibonacci bound: no inner node lies deeper than 21 when the weights add up to a 16-bit number |
| MergeTree.TreeCost | rtl/l1_cache/hpdcache/cv-hpdcache/rtl/tb/thirdparty/miniz/miniz.c:781-834 | the lengths handed out cost exactly as much as all inner nodes weigh |
| MergeTree.LowerBound | rtl/l1_cache/hpdcache/cv-hpdcache/rtl/tb/thirdparty/miniz/miniz.c:781-834 | from every state of the merging on, no prefix code for what is left costs less than the nodes still to be made |
| MergeTree.TreeIsOptimal | rtl/l1_cache/hpdcache/cv-hpdcache/rtl/tb/thirdparty/miniz/miniz.c:781-834 | so no prefix code costs less |
| CodeCost.Exchange | rtl/l1_cache/hpdcache/cv-hpdcache/rtl/tb/thirdparty/miniz/miniz.c:781-834 | any prefix code can be changed, at no cost, so that the two smallest weights share the longest length |
| LengthLimiter.FoldWeight | rtl/l1_cache/hpdcache/cv-hpdcache/rtl/tb/thirdparty/miniz/miniz.c:846-849 | folding the long codes keeps their number and can only make the Kraft sum too large, with the shorter codes alone below a full code |
| LengthLimiter.CanStep | rtl/l1_cache/hpdcache/cv-hpdcache/rtl/tb/thirdparty/miniz/miniz.c:850-860 | while the sum is too large there are a code of the greatest length and a shorter one, so no count goes negative |
| LengthLimiter.StepKeeps | rtl/l1_cache/hpdcache/cv-hpdcache/rtl/tb/thirdparty/miniz/miniz.c:850-862 | each step lowers the Kraft sum by exactly 1 and keeps the number of codes |
| LengthLimiter.EnforceMaxCodeSize | rtl/l1_cache/hpdcache/cv-hpdcache/rtl/tb/thirdparty/miniz/miniz.c:841-863 | the loop ends with a complete histogram within the limit and as many codes as before; only the codes that had to give way got longer, and nothing changes if no code was too long |
| LimitLoss.LossBound | rtl/l1_cache/hpdcache/cv-hpdcache/rtl/tb/thirdparty/miniz/miniz.c:841-863 | limiting the optimal lengths to 15 costs at most 150 bits for each symbol and 30840 bits once |
| HuffmanEncoder.FinishSizes | rtl/l1_cache/hpdcache/cv-hpdcache/rtl/tb/thirdparty/miniz/miniz.c:882-899 | the sizes handed out belong to exactly the used symbols, are within the limit, never longer for a more frequent symbol, and make a table that the decompressor accepts |
| HuffmanEncoder.CodeTable.AssignCodes | rtl/l1_cache/hpdcache/cv-hpdcache/rtl/tb/thirdparty/miniz/miniz.c:902-915 | every used symbol gets the canonical code of its size, reversed for sending |
| HuffmanEncoder.CodeTable.Optimize | rtl/l1_cache/hpdcache/cv-hpdcache/rtl/tb/thirdparty/miniz/miniz.c:865-916 | for all counts adding up to 16 bits the table is valid and acceptable to the decompressor; no code for the used symbols is cheaper if no length had to be limited, which is so for few enough symbols; with 15 bits it never costs more than the bound on the limiter's loss |
| PrefixCode.ReverseCode | rtl/l1_cache/hpdcache/cv-hpdcache/rtl/tb/thirdparty/miniz/miniz.c:905-914 | reversing a code value gives the bits of the code in sending order |
| PrefixCode.PrefixFree | rtl/l1_cache/hpdcache/cv-hpdcache/rtl/tb/thirdparty/miniz/miniz.c:902-915 | the words of two symbols are never at the front of the same bits |
| PrefixCode.CompleteCovers | rtl/l1_cache/hpdcache/cv-hpdcache/rtl/tb/thirdparty/miniz/miniz.c:2587-2596 | for a complete table any 15 bits start with the word of some symbol |
| CodeLengthRle.Pack | rtl/l1_cache/hpdcache/cv-hpdcache/rtl/tb/thirdparty/miniz/miniz.c:1005-1044 | the packed items unpack to exactly the sizes, their counts fit their fields, they are counted by symbol, and they are the greedy ones: every run of zeros or repetitions is packed as long as its item allows |
| CodeLengthRle.RunFields | rtl/l1_cache/hpdcache/cv-hpdcache/rtl/tb/thirdparty/miniz/miniz.c:1060-1068 | the three kinds of runs, their symbols, field widths and bases are those of RFC 1951 |
| BlockHeader.StartDynamic | rtl/l1_cache/hpdcache/cv-hpdcache/rtl/tb/thirdparty/miniz/miniz.c:984-1069 | the bits sent are a valid header for tables that code every buffered token; the tables cost little more than any others, no unused symbol is sent at their ends, and the sizes are packed greedily with a code made for the packed items |
| BlockHeader.StartStatic | rtl/l1_cache/hpdcache/cv-hpdcache/rtl/tb/thirdparty/miniz/miniz.c:1071-1091 | the tables are the fixed ones, ready for sending |
| BlockHeader.CountsFit | rtl/l1_cache/hpdcache/cv-hpdcache/rtl/tb/thirdparty/miniz/miniz.c:865-883 | the symbol counts of a block add up to less than 65536, so no 16-bit sum wraps |
| BlockCost.PlainFits | rtl/l1_cache/hpdcache/cv-hpdcache/rtl/tb/thirdparty/miniz/miniz.c:984-993 | 9 bits for literals, and 10 and 15 bits less the extra bits for lengths and distances, are a prefix code for any block |
| BlockCost.CodedSize | rtl/l1_cache/hpdcache/cv-hpdcache/rtl/tb/thirdparty/miniz/miniz.c:1191-1236 | so the tokens of a full buffer, coded with the tables built for them, take at most 633977 bits |
| BlockCost.StaticFits | rtl/l1_cache/hpdcache/cv-hpdcache/rtl/tb/thirdparty/miniz/miniz.c:1324-1330 | coded with the fixed tables they take at most 650200 bits |
| BlockFlusher.PutStored | rtl/l1_cache/hpdcache/cv-hpdcache/rtl/tb/thirdparty/miniz/miniz.c:1310-1322 | a stored block is aligned, carries its length and the complement, and then the bytes from the circular dictionary |
| BlockFlusher.CompressBlock | rtl/l1_cache/hpdcache/cv-hpdcache/rtl/tb/thirdparty/miniz/miniz.c:1239-1246 | the bits sent are the static block of the recorded tokens, or a dynamic one with the tables made for them, as the flag says, and near the beginning of the output buffer they always fit |
| BlockFlusher.BlockFlusher.Encode | rtl/l1_cache/hpdcache/cv-hpdcache/rtl/tb/thirdparty/miniz/miniz.c:1296-1330 | the block is stored if that is asked for or if its compressed form has nearly as many bytes as the data, as long as the window has the data, and otherwise static if it is short or that is asked for, and dynamic with the tables made for it if not; whichever it is, it means the same, the stream goes on as if nothing else had been tried, and room for the trailer is left |
| BlockFlusher.NeverMuchLonger | rtl/l1_cache/hpdcache/cv-hpdcache/rtl/tb/thirdparty/miniz/miniz.c:1299-1323 | so, while the window has the data, no block takes more than 41 bits more than its data |
| BlockFlusher.BlockFlusher.FlushBlock | rtl/l1_cache/hpdcache/cv-hpdcache/rtl/tb/thirdparty/miniz/miniz.c:1250-1378 | one block is added, in the form that `Encode` picks, and what the flush adds; the blocks then stand for exactly the data buffered before as well; after a flush all their bits are handed over; after the last one the stream is complete; the output buffer never overruns |
| BlockFlusher.PutZlibHeader | rtl/l1_cache/hpdcache/cv-hpdcache/rtl/tb/thirdparty/miniz/miniz.c:1268-1292 | the header sent declares the level that belongs to the number of probes, and is one that the decompressor accepts |
| BitWriter.BitWriter.PutBits | rtl/l1_cache/hpdcache/cv-hpdcache/rtl/tb/thirdparty/miniz/miniz.c:918-934 | the bits are appended to the stream; whole bytes are moved to the buffer in order, and dropped, with the loss recorded, once it is full |
| BitWriter.BitWriter.Rewind | rtl/l1_cache/hpdcache/cv-hpdcache/rtl/tb/thirdparty/miniz/miniz.c:1308-1309 | restoring the saved position and bit buffer restores the stream as it was |
| Tokens.LengthTablesAgree | rtl/l1_cache/hpdcache/cv-hpdcache/rtl/tb/thirdparty/miniz/miniz.c:686-702 | the decompressor's length tables undo the compressor's for every length |
| Tokens.DistTablesAgree | rtl/l1_cache/hpdcache/cv-hpdcache/rtl/tb/thirdparty/miniz/miniz.c:704-740 | the decompressor's distance tables undo the compressor's for every distance |
| Tokens.LengthTableRule | rtl/l1_cache/hpdcache/cv-hpdcache/rtl/tb/thirdparty/miniz/miniz.c:2433-2434 | the length tables are those of RFC 1951, by rule |
| Tokens.DistTableRule | rtl/l1_cache/hpdcache/cv-hpdcache/rtl/tb/thirdparty/miniz/miniz.c:2435-2436 | so are the distance tables |
| DeflateFormat.SwizzleOrder | rtl/l1_cache/hpdcache/cv-hpdcache/rtl/tb/thirdparty/miniz/miniz.c:982-982 | the order in which the sizes of the code-length code are sent, by rule |
| DeflateFormat.FixedComplete | rtl/l1_cache/hpdcache/cv-hpdcache/rtl/tb/thirdparty/miniz/miniz.c:2539-2554 | the fixed tables are complete and code every token |
| DeflateFormat.FixedWords | rtl/l1_cache/hpdcache/cv-hpdcache/rtl/tb/thirdparty/miniz/miniz.c:2539-2554 | the words of the fixed literal and length code are those of RFC 1951, by rule |
| DeflateFormat.FixedDistWords | rtl/l1_cache/hpdcache/cv-hpdcache/rtl/tb/thirdparty/miniz/miniz.c:2545-2545 | so are those of the fixed distance code |
| DecodeTable.HuffTable.Build | rtl/l1_cache/hpdcache/cv-hpdcache/rtl/tb/thirdparty/miniz/miniz.c:2571-2636 | tables are accepted if they are complete or use at most one symbol, exactly; the fast table and tree then decode the canonical code with the given sizes |
| DecodeTable.NodesBound | rtl/l1_cache/hpdcache/cv-hpdcache/rtl/tb/thirdparty/miniz/miniz.c:2615-2635 | the tree of an accepted table has at most as many inner nodes as symbols, so the array is never overrun |
| DecodeTable.ResolvedDecodes | rtl/l1_cache/hpdcache/cv-hpdcache/rtl/tb/thirdparty/miniz/miniz.c:2404-2414 | for any bits the look-up ends in range; it finds the symbol whose word is at the front, with its length, or symbol 0 if there is none |
| DecodeTable.HuffTable.CanDecode | rtl/l1_cache/hpdcache/cv-hpdcache/rtl/tb/thirdparty/miniz/miniz.c:2356-2378 | whether a symbol can be told from the bits that are there is answered exactly |
| BitReader.BitReader.GetBits | rtl/l1_cache/hpdcache/cv-hpdcache/rtl/tb/thirdparty/miniz/miniz.c:2338-2349 | the number read is the value of the next bits, and exactly they are taken; it fails only if too few bits are supplied, and then has fetched all bytes |
| BitReader.BitReader.HuffDecode | rtl/l1_cache/hpdcache/cv-hpdcache/rtl/tb/thirdparty/miniz/miniz.c:2387-2419 | if a symbol's word comes next, that symbol is decoded and just its word taken; conversely, whatever is decoded is a symbol whose word comes next, but for symbol 0 in a table that is not complete; it fails only if no word is among the bits supplied |
| BitReader.BitReader.PutBack | rtl/l1_cache/hpdcache/cv-hpdcache/rtl/tb/thirdparty/miniz/miniz.c:2841-2846 | giving whole buffered bytes back does not move the position in the stream |
| InflateTokens.LiteralPair | rtl/l1_cache/hpdcache/cv-hpdcache/rtl/tb/thirdparty/miniz/miniz.c:2686-2753 | two symbols at once come to the same as one at a time |
| InflateTokens.DecodeTokens | rtl/l1_cache/hpdcache/cv-hpdcache/rtl/tb/thirdparty/miniz/miniz.c:2664-2834 | on any input that is accepted, the bits taken are those of literals and matches whose meaning is the output, and an end-of-block code; on the form of such items, given by words, it puts out what they mean and takes exactly that form, or stops because input or room runs out, with a prefix |
| OutWindow.OutWindow.CopyMatch | rtl/l1_cache/hpdcache/cv-hpdcache/rtl/tb/thirdparty/miniz/miniz.c:2777-2833 | a match is copied byte by byte or three bytes at a time with the same result, in a flat or circular buffer, also when the room runs out in the middle |
| OutWindow.OutWindow.Close | rtl/l1_cache/hpdcache/cv-hpdcache/rtl/tb/thirdparty/miniz/miniz.c:2885-2911 | the checksum kept from call to call is that of all the output |
| InflateHeader.ReadSizes | rtl/l1_cache/hpdcache/cv-hpdcache/rtl/tb/thirdparty/miniz/miniz.c:2639-2659 | the bits taken are those of packed sizes that unpack to the sizes read, across the border of the two tables; reading packed sizes gives the unpacked ones |
| InflateHeader.ReadDynamic | rtl/l1_cache/hpdcache/cv-hpdcache/rtl/tb/thirdparty/miniz/miniz.c:2557-2663 | what is accepted is a header with the tables built; reading a valid header builds the tables it describes and takes exactly its bits |
| Inflate.InflateStored | rtl/l1_cache/hpdcache/cv-hpdcache/rtl/tb/thirdparty/miniz/miniz.c:2491-2532 | a stored block is copied, first from the bit buffer and then in pieces from the input, whatever its padding; its lengths agree, and the bits taken are those of such a block |
| Inflate.InflateBlocks | rtl/l1_cache/hpdcache/cv-hpdcache/rtl/tb/thirdparty/miniz/miniz.c:2487-2837 | what is accepted is a sequence of blocks up to a final one that means the output; a stream of blocks is decoded to what the blocks mean |
| Inflate.ReadAdler | rtl/l1_cache/hpdcache/cv-hpdcache/rtl/tb/thirdparty/miniz/miniz.c:2850-2860 | the checksum read is the big-endian number in the next four bytes |
| Inflate.InflateStream | rtl/l1_cache/hpdcache/cv-hpdcache/rtl/tb/thirdparty/miniz/miniz.c:2431-2912 | header, blocks, padding and checksum: what is accepted is a stream that means the output; on every stream whose symbols are given by words the output is what its blocks mean, exactly that form is taken, and the checksum is accepted exactly if it is right; on a part of it, the output is a prefix with at least the blocks that are there to their ends |
| StrictForm.PlainIsStrict | rtl/l1_cache/hpdcache/cv-hpdcache/rtl/tb/thirdparty/miniz/miniz.c:2470-2861 | an accepted stream with zero padding, words for all codes, no reserved length symbol, one coding of length 258 and the usual window size is the strict form of blocks with the same output |
| StrictForm.StrictIsFormed | rtl/l1_cache/hpdcache/cv-hpdcache/rtl/tb/thirdparty/miniz/miniz.c:2470-2861 | conversely, every strict stream is an accepted one with its symbols given by words, and means the same |
| LooseFormat.CompleteInWords | rtl/l1_cache/hpdcache/cv-hpdcache/rtl/tb/thirdparty/miniz/miniz.c:2404-2414 | in blocks whose tables are complete all symbols are given by their words |
| LooseFormat.FormedMeans | rtl/l1_cache/hpdcache/cv-hpdcache/rtl/tb/thirdparty/miniz/miniz.c:2470-2861 | the streams that are shown to be accepted are among those that acceptance is shown to imply |
| StrictForm.ItemIsToken | rtl/l1_cache/hpdcache/cv-hpdcache/rtl/tb/thirdparty/miniz/miniz.c:2752-2770 | a match or literal without these oddities is read from the coded form of one token, and means the same |
| StrictForm.LengthCoded | rtl/l1_cache/hpdcache/cv-hpdcache/rtl/tb/thirdparty/miniz/miniz.c:2433-2434 | a length symbol and its extra bits are the coding of their length, but for symbol 284 with extra bits 31 |
| StrictForm.DistCoded | rtl/l1_cache/hpdcache/cv-hpdcache/rtl/tb/thirdparty/miniz/miniz.c:2435-2436 | a distance symbol and its extra bits are the coding of their distance |
| Adler32.MzAdler32 | rtl/l1_cache/hpdcache/cv-hpdcache/rtl/tb/thirdparty/miniz/miniz.c:41-67 | the checksum with deferred modulo is the byte-by-byte one, for every running value and length; no 32-bit sum overflows, and the loop ends although its first block may be empty |
| Adler32.BlockFits | rtl/l1_cache/hpdcache/cv-hpdcache/rtl/tb/thirdparty/miniz/miniz.c:46-63 | the unreduced sums over a block of 5552 bytes stay below 2^32 |
| Adler32.UpdateAppend | rtl/l1_cache/hpdcache/cv-hpdcache/rtl/tb/thirdparty/miniz/miniz.c:41-67 | the checksum of x and then y is that of x followed by y |
| Adler32.UpdateIs | rtl/l1_cache/hpdcache/cv-hpdcache/rtl/tb/thirdparty/miniz/miniz.c:41-67 | the checksum is the sum of the bytes and their weighted sum, each modulo 65521, as RFC 1950 defines it |
| InflateDecoder.Decoder.Decompress | rtl/l1_cache/hpdcache/cv-hpdcache/rtl/tb/thirdparty/miniz/miniz.c:508-520 | one call on the window writes the next bytes of the output from its offset on; it stops for input only when all is used and the blocks supplied to their ends are out, and for room only at the window's end; on a valid stream the output is a prefix of what its blocks mean, all of it when it is done, with exactly the bytes of the stream taken, and it fails only if the caller says too soon that there is no more input |
| InflateDecoder.Decoder.DecompressAll | rtl/l1_cache/hpdcache/cv-hpdcache/rtl/tb/thirdparty/miniz/miniz.c:467-490 | one call that writes into the caller's buffer, with the same properties |
| InflateWindow.Stream.Inflate | rtl/l1_cache/hpdcache/cv-hpdcache/rtl/tb/thirdparty/miniz/miniz.c:439-549 | a call delivers the decoder's next bytes in order and no more than there is room for; bytes wait in the window only if the room was used up; the end is reported exactly when everything has been delivered, instead of Ok or a lack of buffer space; which calls are refused is stated exactly; a valid stream is called corrupt only if the caller says too soon that there is no more of it, when all of it is there a call with room delivers something or reports the end, and more input is asked for only when the blocks supplied to their ends have been delivered |
| InflateWindow.Stream.Advance | rtl/l1_cache/hpdcache/cv-hpdcache/rtl/tb/thirdparty/miniz/miniz.c:506-525 | the decoder is entered only with nothing waiting and with the last 32768 bytes of the output in its window; offset and waiting bytes never pass the window |
| InflateWindow.Stream.NothingLost | rtl/l1_cache/hpdcache/cv-hpdcache/rtl/tb/thirdparty/miniz/miniz.c:492-525 | bytes delivered and bytes waiting in the window are exactly what the decoder has produced |
| InflateWindow.Calls | rtl/l1_cache/hpdcache/cv-hpdcache/rtl/tb/thirdparty/miniz/miniz.c:439-549 | over any run of calls the pieces put together are a prefix of the output, and all of it once a call reports the end, which it does on a valid stream after enough calls; on a part of one, enough calls deliver the blocks that are there to their ends |
| ZipIndex.ToLowerIs | rtl/l1_cache/hpdcache/cv-hpdcache/rtl/tb/thirdparty/miniz/miniz.c:3226-3226 | lowering leaves no capital, and changes nothing but capitals, by 32 |
| ZipIndex.SameButCase | rtl/l1_cache/hpdcache/cv-hpdcache/rtl/tb/thirdparty/miniz/miniz.c:4413-4425 | two lowered names are equal exactly if the names have the same length and at each place the same letter in either case, or the same byte |
| ZipIndex.FilenameLess | rtl/l1_cache/hpdcache/cv-hpdcache/rtl/tb/thirdparty/miniz/miniz.c:3537-3554 | the loop computes the lexicographic order of the lowered names |
| ZipIndex.FilenameCompare | rtl/l1_cache/hpdcache/cv-hpdcache/rtl/tb/thirdparty/miniz/miniz.c:4427-4442 | it is 0 for equal lowered names only; it is negative exactly when `FilenameLess` says less, if and only if the searched name does not both start with the other one and exceed it by more than 2 GiB |
| ZipIndex.CompareIsLess | rtl/l1_cache/hpdcache/cv-hpdcache/rtl/tb/thirdparty/miniz/miniz.c:4427-4442 | the exact condition on a searched name under which the sign is right for all names of entries |
| ZipIndex.LessTotal | rtl/l1_cache/hpdcache/cv-hpdcache/rtl/tb/thirdparty/miniz/miniz.c:3537-3554 | of two different names exactly one is less |
| ZipIndex.LessTransitive | rtl/l1_cache/hpdcache/cv-hpdcache/rtl/tb/thirdparty/miniz/miniz.c:3537-3554 | the order is transitive |
| ZipIndex.Archive.Sort | rtl/l1_cache/hpdcache/cv-hpdcache/rtl/tb/thirdparty/miniz/miniz.c:3566-3616 | the in-place heapsort leaves a permutation of the entries sorted by lowered names |
| ZipIndex.Archive.BinarySearch | rtl/l1_cache/hpdcache/cv-hpdcache/rtl/tb/thirdparty/miniz/miniz.c:4444-4482 | it finds an entry of the name, cut off to 32 bits of length, if and only if there is one |
| ZipIndex.Archive.Scan | rtl/l1_cache/hpdcache/cv-hpdcache/rtl/tb/thirdparty/miniz/miniz.c:4512-4555 | it finds the first entry of the name if there is one, and rejects names of more than 65535 bytes |
| ZipIndex.SearchIsScan | rtl/l1_cache/hpdcache/cv-hpdcache/rtl/tb/thirdparty/miniz/miniz.c:4444-4555 | the exact condition on a name under which search and scan agree for every archive |
| CacheDirectory.CacheDirectory.Reset | rtl/l1_cache/hpdcache/cv-hpdcache/rtl/tb/sc_verif_lib/modules/generic_cache/include/generic_cache_directory_base.h:81-91 | whatever the arrays held, every way is invalid, with tag 0 and a clear PLRU bit |
| CacheDirectory.CacheDirectory.Hit | rtl/l1_cache/hpdcache/cv-hpdcache/rtl/tb/sc_verif_lib/modules/generic_cache/include/generic_cache_directory_base.h:93-118 | it answers whether the line is in the directory, and where |
| CacheDirectory.CacheDirectory.Access | rtl/l1_cache/hpdcache/cv-hpdcache/rtl/tb/sc_verif_lib/modules/generic_cache/include/generic_cache_directory_base.h:156-173 | a hit marks its way as used; no line comes or goes |
| CacheDirectory.CacheDirectory.InvalWay | rtl/l1_cache/hpdcache/cv-hpdcache/rtl/tb/sc_verif_lib/modules/generic_cache/include/generic_cache_directory_base.h:120-125 | one way is cleared, and the directory stays valid |
| CacheDirectory.CacheDirectory.InvalAddr | rtl/l1_cache/hpdcache/cv-hpdcache/rtl/tb/sc_verif_lib/modules/generic_cache/include/generic_cache_directory_base.h:127-142 | the first way with the tag is cleared and nothing else changes, although the valid bit is not looked at; afterwards the line is not there and all others are |
| CacheDirectory.InvalidateRight | rtl/l1_cache/hpdcache/cv-hpdcache/rtl/tb/sc_verif_lib/modules/generic_cache/include/generic_cache_directory_base.h:127-142 | in a valid set the first way with the tag, valid or not, is the one to clear |
| CacheDirectory.ClearFirst | rtl/l1_cache/hpdcache/cv-hpdcache/rtl/tb/sc_verif_lib/modules/generic_cache/include/generic_cache_directory_base.h:127-142 | clearing that way removes the line if and only if no valid way above it has the tag |
| CacheDirectory.FillMiss | rtl/l1_cache/hpdcache/cv-hpdcache/rtl/tb/sc_verif_lib/modules/generic_cache/include/generic_cache_directory_plru.h:60-111 | a miss adds its line, removes the line of the way it fills and nothing else, and keeps the set valid |
| CacheDirectory.CacheDirectory.Repl | rtl/l1_cache/hpdcache/cv-hpdcache/rtl/tb/sc_verif_lib/modules/generic_cache/include/generic_cache_directory_plru.h:60-111 | after a miss the line is there, the reported victim is gone, all other lines are as before; the search for a victim fails if and only if the set is full with all PLRU bits set, that is, if and only if there is a single way and it is valid |
| CacheDirectory.StuckIffOneWay | rtl/l1_cache/hpdcache/cv-hpdcache/rtl/tb/sc_verif_lib/modules/generic_cache/include/generic_cache_directory_plru.h:85-110 | a valid set has no victim to offer if and only if it has one way and is full |
| CacheDirectory.CacheDirectory.ReplUpdate | rtl/l1_cache/hpdcache/cv-hpdcache/rtl/tb/sc_verif_lib/modules/generic_cache/include/generic_cache_directory_plru.h:113-134 | the way is marked as used, and when all are, all others are unmarked |
| CacheDirectory.TouchLeavesClear | rtl/l1_cache/hpdcache/cv-hpdcache/rtl/tb/sc_verif_lib/modules/generic_cache/include/generic_cache_directory_plru.h:113-134 | afterwards some PLRU bit is clear if and only if there are at least two ways |
| CacheDirectory.VictimsDistinct | rtl/l1_cache/hpdcache/cv-hpdcache/rtl/tb/sc_verif_lib/modules/generic_cache/include/generic_cache_directory_plru.h:85-105 | from a full set with k clear bits the next k misses evict k different ways, namely those with clear bits |
| CacheDirectory.LastAccessedStays | rtl/l1_cache/hpdcache/cv-hpdcache/rtl/tb/sc_verif_lib/modules/generic_cache/include/generic_cache_directory_plru.h:85-134 | and none of them is the way accessed last |
| CacheDirectory.CacheDirectory.AddrSplit | rtl/l1_cache/hpdcache/cv-hpdcache/rtl/tb/sc_verif_lib/modules/generic_cache/include/generic_cache_directory_base.h:73-81 | tag and set of an address determine its line |
| CacheDirectory.CacheDirectory.AddrJoin | rtl/l1_cache/hpdcache/cv-hpdcache/rtl/tb/sc_verif_lib/modules/generic_cache/include/generic_cache_directory_base.h:73-81 | every address within a line gives the line's tag and set back |
| CacheDirectory.CacheDirectory.LineAt | rtl/l1_cache/hpdcache/cv-hpdcache/rtl/tb/sc_verif_lib/modules/generic_cache/include/generic_cache_directory_base.h:73-81 | neighbouring lines of memory go to neighbouring sets |
| CacheDirectory.TagsBounded | rtl/l1_cache/hpdcache/cv-hpdcache/rtl/tb/sc_verif_lib/modules/generic_cache/include/generic_cache_directory_base.h:41-55 | a set holds at most as many lines as it has ways |
| LrscTracker.LrscTracker.Run | rtl/l1_cache/hpdcache/cv-hpdcache/rtl/tb/include/hpdcache_test_scoreboard.h:542-605 | over every run an SC is flagged exactly if the latest LR before it met no error, no SC followed, no store or AMO since covered the reserved word, and the SC covers it; with an uninitialised buffer this holds from the first LR or SC on; an SC is an error only if it is flagged |
| LrscTracker.LrscTracker.Process | rtl/l1_cache/hpdcache/cv-hpdcache/rtl/tb/include/hpdcache_test_scoreboard.h:542-605 | one request updates the reservation and the flags of its entry |
| LrscTracker.TracksNext | rtl/l1_cache/hpdcache/cv-hpdcache/rtl/tb/include/hpdcache_test_scoreboard.h:542-605 | a request keeps the buffer in step with what the history means |
| LrscTracker.CoversTouches | rtl/l1_cache/hpdcache/cv-hpdcache/rtl/tb/include/hpdcache_test_scoreboard.h:329-334 | the exact condition on a request under which the comparison finds the words it touches |
| LrscTracker.AtomicMeansBytes | rtl/l1_cache/hpdcache/cv-hpdcache/rtl/tb/include/hpdcache_test_scoreboard.h:561-590 | for runs of contained requests the flag is about the bytes touched |
| LrscTracker.AlignedContained | rtl/l1_cache/hpdcache/cv-hpdcache/rtl/tb/include/hpdcache_test_scoreboard.h:329-334 | requests aligned to their size meet that condition |
| LrscTracker.OneEach | rtl/l1_cache/hpdcache/cv-hpdcache/rtl/tb/include/hpdcache_test_scoreboard.h:595-604 | over every run, as many SCs as may be atomic had an LR without error of their own |

## Left out

- The decompressor's saved coroutine state (`m_state` and the locals kept in `tinfl_decompressor`): a resumed call is modelled as decoding again what has been taken so far. That the same bytes are decoded in the same way each time is proved for valid streams, where the output is always a prefix of the same data; for corrupt input it is not, and there the window only delivers what each call puts out. The assertion at miniz.c:2847 is proved for a run as a whole, not for bits left over from earlier calls.
- Acceptance of streams in which bits that are no symbol's word stand for symbol 0, which takes a table that is not complete: whether they are accepted depends on how many bytes follow them. They are not valid in the sense of RFC 1951; that what is accepted is a stream is proved for them as well.
- Matches with a distance before the start of the output, which are rejected in a flat buffer but not in a circular one: soundness is stated for flat buffers.
- The optional features of the compressor: `TDEFL_NONDETERMINISTIC_PARSING_FLAG` (hash table not cleared), `tdefl_compress_fast` and the other variants with unaligned loads (not compiled with the settings in miniz.h), the callback that takes the output and its failure, output handed over in parts, parameter checks, `mz_deflate` and `mz_compress`.
- Names in the index are byte strings given by the archive; reading and writing ZIP headers, comments, the path and case flags of the search, PNG, CRC-32, allocation and stdio are not modelled.
- CacheDirectory.CacheDirectory.Repl: it is called on a miss only, as the scoreboard checks (hpdcache_test_scoreboard.h:892-896); addresses and tags are unbounded, without the 64-bit width of the C++ code.
- The scoreboard's other maps, counters, memory checks and threads; random sequences, SystemC and Verilator wiring. Whether a request meets an error segment is an input of the LR/SC model, as is the order of the accepted requests.
- Memory and string copies are modelled byte by byte; the dictionary size, the token buffer size and the output buffer size are the constants of miniz.h for the normal (not less-memory) configuration.
