# Models and proofs for the firmware library and the JPEG encoder

This project models the parts of the repository that keep the most state or do the most arithmetic, and proves what
they promise. Code that changes things in place is a class or a method on arrays, proved against functions and
predicates on values; what the code is for is then proved about those.

**The Huffman entropy coder of the JPEG encoder** (`jchuff.c`, `jcphuff.c`). A coder sends *tokens*: Huffman symbols,
literal bits and restart markers (`Tokens`). The code of a table makes tokens into bits (`HuffmanCode`), and padding,
byte stuffing and markers make bits into the bytes of a scan (`ByteStream`). The decoders are written from ITU-T T.81
(sections F.2.2 and G.2 and Annex C) and know nothing of the encoder. On this rest

- the table generator: the in-place merge procedure, how deep its codes get, the limiter to 16 bits, the canonical
  code, and what a run takes with it (`HuffmanTree`, `CodeDepth`, `MergeProcedure`, `MergeDepth`, `LengthLimiter`,
  `OptimalTable`, `OptimalCodes`, `OptimalRun`, `OverflowingCounts`);
- the bit writer with its 24-bit accumulator over a destination that can refuse any buffer (`BitWriter`);
- the sequential coder with its rollback on suspension, its statistics pass, and whole scans
  (`SequentialCode`, `SequentialScan`, `BlockEncoder`, `BlockStatistics`, `SequentialEncoder`, `StatisticsPass`,
  `SymbolStatistics`, `ScanDriver`, `OptimizedScan`, `LostBytes`);
- the progressive AC coder, which defers end-of-band runs and correction bits across blocks (`ProgressiveBand`,
  `ProgressiveRun`, `AcCoder`, `ProgressiveBlock`, `ProgressiveEmitter`, `ProgressiveEncoder`, `ProgressiveScan`);
- the progressive DC coder (`ProgressiveDc`, `ProgressiveDcScan`), and the scans of successive approximation one after
  the other (`SuccessiveApproximation`).

**The first-fit allocator** (`malloc.c`): two circular chains, splitting, two-sided coalescing, arenas
(`HeapLayout`, `Rings`, `Heap`, `HeapRun`).

**The row-buffering pipeline** (`jcprepct.c`, `jcmainct.c`): context rows through a ring of three row groups seen
through five of wrapped pointers, and the main controller's bookkeeping on suspension (`ContextRows`,
`MainController`).

**The scan script and the passes** (`jcmaster.c`, `jcparam.c`, `jcapimin.c`): the validation of scripts, the simple
progression, and the pass machine (`ScanScript`, `SimpleProgression`, `PassMachine`).

**The directory window and the cluster walk** (`fat.c`): eight entries of an unbounded directory behind a permuted
index table (`EntryOrder`, `DirectoryWindow`), and one buffered FAT sector shared by all files (`ClusterWalk`).

**The integer printer and parser** (`vsnprintf.c`, `strntoumax.c`): `IntegerText`, `FormattedPrint`, `Vsnprintf`, and
what formats mean, told by how conversions are written and what comes out of them (`FormatMeaning`).

Most methods are proved against functions that follow the source. What these functions are for is stated again without
them: where restart markers stand and how they are numbered, what the codes of a table are and what they cost, which
scans have statistics, which octets make a link, what a conversion prints.

Where the promise is not kept

- *Suspension.* A refused call of `encode_mcu_huff` is repeated from the start of its MCU. If the call had already
  handed over a full buffer, those bytes are sent again. `ScanDriver.EncodeScan` states that a finished scan has the
  bytes of an undisturbed one if and only if no call was refused after it had handed over a buffer, in terms of the
  log of what passed between coder and application; `LostBytes.RepeatedBytes` carries out a run, to its end, in which
  bytes are repeated, and `ScanDriver.RoomIsEnough` gives an application conditions that it can check before a call:
  room for the whole MCU, in the buffer it offers or in that and the next.
- *Code lengths over 32.* `jpeg_gen_optimal_table` gives up on these. `OptimalTable.GenOptimalTable` states that it
  does so exactly for the counts of which the merge procedure makes a length over 32, a function of the counts, and
  this equivalence goes through the statistics pass to `OptimizedScan.EncodeOptimized` and
  `ProgressiveScan.EncodeAcOptimized`. It never happens for a total below 9227464 (`OptimalTable.LightCountsFit`), and
  it does for counts that are Fibonacci numbers (`OverflowingCounts.FibonacciCountsOverflow`).
- *Precision.* `vsnprintf` with a precision that is a negative argument followed by digits reads a string beyond its
  end: `Vsnprintf.Print` fails where the source leaves the string, and this is so if and only if the format comes to a
  string conversion with a precision below -1. `Vsnprintf.NegativePrecision` is such a format.
- *Seeking past the end.* After a seek that meets the end of the chain, `FileSeek` has left the cluster at the end
  mark and the sector in the cluster before that, so that later seeks start out of step: `ClusterWalk.Fat.FileSeek`
  states this state, and `ClusterWalk.OffTheChain` that it is out of step unless the sector itself is behind the end
  of the chain.

## Model

| member | source | states |
|---|---|---|
| MergeProcedure.AssignLengths | Apps/JPEG/jpeg-6b/jchuff.c:722-776 | the in-place loops over freq, codesize and others, for any counts up to the search sentinel with at least one used symbol: the code lengths are the function of the counts that merging the two least ones, ties going to the larger symbol, gives; they have Kraft sum 1 over the used symbols and minimise the sum of frequency times length over all lengths that satisfy Kraft |
| CodeDepth.LightIsShallow | Apps/JPEG/jpeg-6b/jchuff.c:783-784 | whatever lengths of minimal cost are taken, and however ties were broken: a code longer than d bits needs counts of a total of at least the Fibonacci number F(d + 3) |
| CodeDepth.SteepIsDeep | Apps/JPEG/jpeg-6b/jchuff.c:783-784 | if each count is more than all the counts two or more places below it together, then all lengths of minimal cost form one branch, with the least count at its end |
| LengthLimiter.ShortenedKeeps | Apps/JPEG/jpeg-6b/jchuff.c:807-810 | one shortening step keeps the Kraft sum 1 and the number of codes, and removes two codes of the longest length |
| LengthLimiter.ShortensTheNext | Apps/JPEG/jpeg-6b/jchuff.c:801-812 | it takes two codes off the longest length and one off the longest that is at least two bits shorter, and adds one and two codes a bit above and below these; no other length changes |
| LengthLimiter.ShorterCodeExists | Apps/JPEG/jpeg-6b/jchuff.c:803-805 | the search for a shorter length never runs off the low end |
| LengthLimiter.LimitLengths | Apps/JPEG/jpeg-6b/jchuff.c:801-812 | the limiter in place terminates, never leaves the byte range of its counters, and computes the repeated shortening of every length above 16 |
| OptimalTable.LightCountsFit | Apps/JPEG/jpeg-6b/jchuff.c:783-784 | for counts of a total below 9227464, pseudo-symbol aside, the generator never gives up |
| OverflowingCounts.FibonacciCountsOverflow | Apps/JPEG/jpeg-6b/jchuff.c:783-784 | for the Fibonacci numbers F(2) to F(34) as counts, of a total of 14930350, it does give up: the pseudo-symbol comes to 33 bits |
| OptimalTable.ReleasedIsLegal | Apps/JPEG/jpeg-6b/jchuff.c:814-820 | without the pseudo-symbol the counts are a legal code of at most 16 bits in which the all-ones code is free, with one code less |
| OptimalTable.ReleasesTheLongest | Apps/JPEG/jpeg-6b/jchuff.c:814-817 | the code that is given up is one of the longest length in use |
| OptimalCodes.PseudoIsDeepest | Apps/JPEG/jpeg-6b/jchuff.c:722-776 | no symbol has a longer code than the pseudo-symbol, whose count of 1 goes last among equals |
| OptimalCodes.CodesHaveTheirLengths | Apps/JPEG/jpeg-6b/jchuff.c:814-838 | where the pseudo-symbol has at most 16 bits, every counted symbol of the finished table has a code of just the length that the merge procedure gives it |
| OptimalCodes.CodesAreInOrder | Apps/JPEG/jpeg-6b/jchuff.c:821-838 | with or without the limiter, a symbol with a shorter length, or with the same length and a smaller number, has no longer code |
| OptimalCodes.TotalIsMinimal | Apps/JPEG/jpeg-6b/jchuff.c:705-838 | the sum of count times code length, with that of the code given up, is the least that any prefix code has |
| OptimalRun.SentAsCounted | Apps/JPEG/jpeg-6b/jchuff.c:571-635 | the bits that the codes of a table take in a run are the sum of count times code length |
| OptimalRun.NoTableIsBetter | Apps/JPEG/jpeg-6b/jchuff.c:845-885 | the table made from the counts of a run against any legal table that has codes for the run: with its own table the codes of the run take no more bits, when the longest length of each table is counted in once |
| OptimalTable.GenOptimalTable | Apps/JPEG/jpeg-6b/jchuff.c:705-838 | for all countable statistics: a table comes out if and only if no code length that the merge procedure makes of the counts exceeds 32; it is made from those lengths, and it is a legal code of exactly the counted symbols |
| OptimalTable.GeneratedTableIsAccepted | Apps/JPEG/jpeg-6b/jchuff.c:258-263 | the symbols of a generated table pass the range check of jpeg_make_c_derived_tbl if only symbols in range were counted |
| HuffmanCode.MakeDerivedTable | Apps/JPEG/jpeg-6b/jchuff.c:178-264 | it accepts exactly the tables that are present, whose code lengths do not overflow, and whose symbols are distinct and in range; and then gives each listed symbol its canonical code of Annex C, and no other symbol one |
| HuffmanCode.CodesCountUp | Apps/JPEG/jpeg-6b/jchuff.c:209-247 | the first symbol has the code of all zeros, and each next code is the number after the one before, shifted by the bits that it is longer |
| HuffmanCode.PrefixFree | Apps/JPEG/jpeg-6b/jchuff.c:227-247 | no code of a derived table is the beginning of another |
| HuffmanCode.DecodeInvertsCode | Apps/JPEG/jpeg-6b/jchuff.c:178-264 | every code of a derived table decodes to its own symbol, whatever bits follow, by the procedure DECODE of section F.2.2.3 of T.81 |
| BitWriter.Writer.EmitBits | Apps/JPEG/jpeg-6b/jchuff.c:302-336 | the 24-bit accumulator computes what appending the low bits of the code to the pending ones and packing whole bytes with stuffing gives; it fails exactly for size 0; when suspended, what it tried to send is the beginning of that |
| BitWriter.Writer.FlushBits | Apps/JPEG/jpeg-6b/jchuff.c:339-347 | flushing only appends one-bits up to the byte boundary |
| ByteStream.OnesFillTheLastByte | Apps/JPEG/jpeg-6b/jchuff.c:339-347 | whatever is pending, it is the last byte that the ones fill, and what is sent are the pending bits, that byte and nothing else |
| BitWriter.Writer.EmitRestart | Apps/JPEG/jpeg-6b/jchuff.c:450-470 | flush, marker, and all DC predictions reset |
| BlockEncoder.EncodeOneBlock | Apps/JPEG/jpeg-6b/jchuff.c:352-445 | sends exactly the tokens of the block in zigzag order; an error means a coefficient out of range or a missing code; a suspension leaves a beginning of those tokens' bytes sent |
| SequentialCode.RangesAre | Apps/JPEG/jpeg-6b/jchuff.c:376-421 | in range are AC coefficients of at most 1023 and DC differences of at most 2047, up or down |
| SequentialCode.BlockEnds | Apps/JPEG/jpeg-6b/jchuff.c:394-445 | no code of sixteen zeros is sent in vain: the code of the last non-zero coefficient ends the block, but for one end-of-block code if zeros follow |
| BlockStatistics.HtestOneBlock | Apps/JPEG/jpeg-6b/jchuff.c:571-635 | counts each symbol as often as it occurs among the tokens that encode_one_block sends, and fails exactly for a coefficient out of range |
| SequentialEncoder.HuffEncoder.StartPass | Apps/JPEG/jpeg-6b/jchuff.c:105-168 | succeeds exactly if every table of the scan is usable, and starts with zero predictions, full restart interval and no bits pending |
| SequentialEncoder.HuffEncoder.EncodeMcu | Apps/JPEG/jpeg-6b/jchuff.c:475-525 | if done, output, predictions and restart state are those of the specification after the MCU; if suspended or failed, the encoder is as it was, and the stream has grown exactly if a buffer had been taken |
| SequentialEncoder.HuffEncoder.FinishPass | Apps/JPEG/jpeg-6b/jchuff.c:532-552 | the output is flushed, or the destination refused a buffer |
| SequentialScan.ScanRoundTrip | Apps/JPEG/jpeg-6b/jchuff.c:352-525 | for every run of MCUs of in-range coefficients, every interleaving and restart interval, the decoder of section F.2.2 gets exactly the blocks back from the stuffed bytes |
| SequentialScan.DecodedInOrder | Apps/JPEG/jpeg-6b/jchuff.c:396-397 | the k-th coefficient that the decoder reads of a block is the one at position jpeg_natural_order[k] |
| SequentialScan.MarkersStandAtIntervals | Apps/JPEG/jpeg-6b/jchuff.c:486-523 | a marker stands before exactly those MCUs, from 0, whose number is a positive multiple of the restart interval, numbered 0 to 7 in turn, and just there the predictions start from zero |
| ScanDriver.RoomIsEnough | Apps/JPEG/jpeg-6b/jchuff.c:475-525 | with more room than the bytes of the MCU, in this buffer or this and the next one, no call takes a buffer and then suspends |
| ScanDriver.EncodeScan | Apps/JPEG/jpeg-6b/jccoefct.c:142-215 | a whole scan with any pattern of refused and repeated calls: the added bytes are those of an undisturbed run if and only if no call was refused after handing over a buffer, and then every 0xFF in them is stuffed or begins a restart marker, and the decoder gets every MCU back from them; every failure is accounted for by an unusable table, a coefficient, a missing code or a refused buffer |
| LostBytes.RepeatedBytes | Apps/JPEG/jpeg-6b/jchuff.c:270-289 | a run to its end in which a call is suspended after handing over a buffer, and repeated with success, as the log of calls and answers shows: the bytes of that buffer stand in the stream twice |
| StatisticsPass.HuffGatherer.EncodeMcu | Apps/JPEG/jpeg-6b/jchuff.c:644-673 | gathers the counts of the very tokens that encode_mcu_huff sends for the MCU, restarts included, and fails exactly for a coefficient out of range |
| StatisticsPass.HuffGatherer.FinishPass | Apps/JPEG/jpeg-6b/jchuff.c:845-885 | each table of the scan is generated once, from its counts, also when components share it; it fails exactly if the counts of one of them need a code over 32 bits |
| SymbolStatistics.CountsAreCountable | Apps/JPEG/jpeg-6b/jchuff.c:644-673 | the counts of any run below the sentinel meet what the table generator requires |
| OptimizedScan.StatisticsCoverTheRun | Apps/JPEG/jpeg-6b/jchuff.c:310-311 | with tables made from the statistics of a run, every symbol of the run has a code: the missing-code error cannot come up |
| OptimizedScan.EncodeOptimized | Apps/JPEG/jpeg-6b/jchuff.c:845-885 | statistics, tables and scan together: it fails for a coefficient exactly if one is out of range, for a code length exactly if the symbol counts of the run need one over 32 bits, and else only for a refused buffer; it loads the tables that the generator makes of these counts, and a finished scan conveys every MCU to a decoder that has them, unless a call was refused after handing over a buffer |
| ProgressiveBand.BandDecodes | Apps/JPEG/jpeg-6b/jcphuff.c:617-738 | one band of a first or refinement scan: the decoder of section G.1.2.3 follows the symbols, correction bits and zero runs from any point of the band |
| ProgressiveBand.BandEnds | Apps/JPEG/jpeg-6b/jcphuff.c:640-738 | zero runs that can be folded into the end-of-band code are: the symbols of a band end with its last new coefficient, and there are none without one |
| AcCoder.AcStatus.EmitEobrun | Apps/JPEG/jpeg-6b/jcphuff.c:315-339 | sends the end-of-band run with its extra bits and the buffered correction bits, and leaves nothing pending; the 14-bit error comes up only for runs above 0x7FFF |
| AcCoder.AcStatus.FirstBlock | Apps/JPEG/jpeg-6b/jcphuff.c:463-561 | the loop of a first scan sends and leaves pending what the specification of the band says |
| AcCoder.AcStatus.RefineBlock | Apps/JPEG/jpeg-6b/jcphuff.c:617-738 | the same for a refinement scan, where the correction bits of the block are kept behind those buffered from earlier blocks until something is sent |
| ProgressiveEncoder.AcEncoder.StartPass | Apps/JPEG/jpeg-6b/jcphuff.c:105-189 | succeeds exactly if it gathers or the table is usable; nothing is pending, sent or counted |
| ProgressiveEncoder.AcEncoder.EncodeMcu | Apps/JPEG/jpeg-6b/jcphuff.c:463-738 | one block with the restart before it, sent or counted alike; it keeps EOBRUN below 0x7FFF, the correction bits at most 937, and none of these without a run, so that no index exceeds the buffer |
| ProgressiveEncoder.AcEncoder.FinishPass | Apps/JPEG/jpeg-6b/jcphuff.c:745-760 | the pending run goes out and the stream is the flushed output of all that was sent |
| ProgressiveRun.RunIsHeldBack | Apps/JPEG/jpeg-6b/jcphuff.c:715-724 | a block without new coefficients sends nothing, but counts and keeps its correction bits, until the run comes to 0x7FFF or more than 937 bits are kept; then the whole run goes out |
| ProgressiveRun.RunRestores | Apps/JPEG/jpeg-6b/jcphuff.c:315-339 | a run of blocks with anything pending from before it starts with an end-of-band run over that and the first blocks, and the decoder restores those and all blocks after them |
| ProgressiveRun.AcScanRoundTrip | Apps/JPEG/jpeg-6b/jcphuff.c:463-738 | for every sequence of blocks and restart interval, with runs over any number of blocks, a decoder that knows each coefficient to the precision before a scan gets it to the precision after it from the bytes |
| ProgressiveScan.EncodeAcScan | Apps/JPEG/jpeg-6b/jcphuff.c:463-760 | a whole scan in output mode: the bytes added decode to the new precision, and every failure is accounted for |
| ProgressiveScan.AcRunUses | Apps/JPEG/jpeg-6b/jcphuff.c:153-160 | an AC scan of at least one block sends symbols of its table, refining or not |
| ProgressiveScan.EncodeAcOptimized | Apps/JPEG/jpeg-6b/jcphuff.c:766-808 | the statistics pass and the scan with its own table: no missing code and no bad table, and a failure over a code length exactly if the symbol counts of the scan need one over 32 bits; the table is the one that the generator makes of these counts, and with it the bytes added decode to the new precision |
| SuccessiveApproximation.PassesConvey | Apps/JPEG/jpeg-6b/jcphuff.c:463-738 | after each of a sequence of scans the decoder knows every coefficient to that scan's precision |
| SuccessiveApproximation.CoefficientsComeBack | Apps/JPEG/jpeg-6b/jcphuff.c:463-738 | a first scan and refinements down to Al = 0 convey every coefficient of the band exactly |
| ProgressiveDcScan.DcEncoder.StartPass | Apps/JPEG/jpeg-6b/jcphuff.c:105-189 | for a DC scan it succeeds exactly if the scan refines, which takes no table, or every table is usable; the tables of a first scan are then the ones loaded, and the state is the initial one |
| ProgressiveDcScan.DcEncoder.EncodeMcu | Apps/JPEG/jpeg-6b/jcphuff.c:376-610 | one MCU of a first or refinement scan: if done, every difference was in range and had a code, and output, predictions and restart state are those of the specification; else it fails for a reason that holds, and never suspends |
| ProgressiveDc.DcScanRoundTrip | Apps/JPEG/jpeg-6b/jcphuff.c:376-610 | for every run of MCUs, interleaving and restart interval, a decoder that knows the DC values to the precision before a scan gets them to the precision after it from the stuffed bytes |
| ProgressiveDc.DcMarkersStandAtIntervals | Apps/JPEG/jpeg-6b/jcphuff.c:376-610 | markers stand before the MCUs whose number is a positive multiple of the restart interval, in DC scans too |
| ProgressiveDc.DcScanUsesTable | Apps/JPEG/jpeg-6b/jcphuff.c:153-156 | a DC scan of at least one block sends Huffman symbols exactly if it is a first one |
| ProgressiveDcScan.EncodeDcScan | Apps/JPEG/jpeg-6b/jcphuff.c:376-760 | a whole DC scan in output mode: a decoder with the tables given gets the new precision from the bytes added, and every failure is accounted for: a table of a first scan that is unusable, a difference out of range, a symbol without a code in those tables, or a refused buffer |
| SuccessiveApproximation.DcPassesConvey | Apps/JPEG/jpeg-6b/jcphuff.c:376-610 | after each of a sequence of DC scans the decoder knows every DC value to that scan's precision |
| SuccessiveApproximation.DcValuesComeBack | Apps/JPEG/jpeg-6b/jcphuff.c:376-610 | a first DC scan and refinements down to Al = 0 convey every DC value exactly |
| HeapLayout.RunInOneBlock | Firmware_Common/klibc/malloc.c:100-138 | while no two free blocks touch, any contiguous run of free bytes lies within one block |
| Heap.Heap.SplitBlock | Firmware_Common/klibc/malloc.c:68-88 | both chains are updated for a block cut in two, whose sizes add up |
| Heap.Heap.FreeBlock | Firmware_Common/klibc/malloc.c:100-138 | the block becomes free and merges with a free block before it, after it, or both; every other block stays; it goes to the front of the free chain unless it joins the block before it, and the block after it leaves the chain if they join |
| Heap.Heap.Malloc | Firmware_Common/klibc/malloc.c:171-233 | NULL exactly for 0 bytes or when no contiguous free run of the rounded size exists; otherwise the first block on the free chain that fits is cut after that size, and the rest takes its place on the chain, or used whole and taken off it if less than 32 bytes would be left; no other block changes |
| Heap.Heap.FreePointer | Firmware_Common/klibc/malloc.c:235-246 | free(NULL) changes nothing; any other live pointer releases its own block, and the free chain changes as it should |
| Heap.Heap.AddArena | Firmware_Common/klibc/malloc.c:141-168 | whole 64K chunks of an arena become blocks of the heap that can be allocated from, and go on the free chain like a block that is freed |
| HeapRun.Serve | Firmware_Common/klibc/malloc.c:62-246 | any run of malloc_add, malloc and free: live blocks are apart, big enough for their requests, inside the arenas and never moved; malloc answers NULL exactly for 0 or when no run of bytes of the arenas outside live blocks is large enough; and the free bytes at the end are just those bytes |
| ContextRows.CreateContextBuffer | Apps/JPEG/jpeg-6b/jcprepct.c:266-308 | the five row groups of pointers wrap around the three real ones |
| ContextRows.PrepController.PreProcess | Apps/JPEG/jpeg-6b/jcprepct.c:194-258 | however the rows arrive, the g-th downsampled group is made from the image rows around group g clamped to the image; the counters advance by exactly what was consumed and produced |
| ContextRows.EveryRowIsSeen | Apps/JPEG/jpeg-6b/jcprepct.c:194-258 | row n of the image is in the middle of one window, that of its row group |
| MainController.Main.ProcessData | Apps/JPEG/jpeg-6b/jcmainct.c:112-158 | the input counter is one row short exactly while a finished iMCU row waits for the compressor, so that the application calls again; a call ends so exactly when it was refused, and otherwise takes all its rows; an iMCU row offered again is the same one |
| MainController.WriteScanlines | Apps/JPEG/jpeg-6b/jcapistd.c:76-111 | for any split of an image into calls and any refusals: the compressor is offered the iMCU rows of the image in order, each until it takes it; all have been taken exactly when all rows have been; without refusals every call takes all its rows |
| MainController.RowsCover | Apps/JPEG/jpeg-6b/jcmaster.c:121-123 | the number of iMCU rows is the least that covers the image |
| MainController.EveryRowIsCompressed | Apps/JPEG/jpeg-6b/jcmainct.c:112-158 | row n of the image reaches the compressor in the iMCU row and row group that it belongs to |
| ScanScript.ValidateScript | Apps/JPEG/jpeg-6b/jcmaster.c:130-261 | accepts a script as progressive or sequential exactly if it meets the rules, stated without the arrays of the source |
| ScanScript.HistoriesStepDown | Apps/JPEG/jpeg-6b/jcmaster.c:203-230 | in an accepted progressive script the scans of each coefficient start with Ah = 0 and then step down by one |
| ScanScript.NoAcBeforeDc | Apps/JPEG/jpeg-6b/jcmaster.c:208-210 | no AC coefficient of a component before its DC coefficient |
| ScanScript.SentOnce | Apps/JPEG/jpeg-6b/jcmaster.c:231-261 | in an accepted sequential script every component is in exactly one scan |
| ScanScript.ProgressiveScripts | Apps/JPEG/jpeg-6b/jcmaster.c:130-261 | the scripts accepted as progressive are exactly those with one to four components in order, bands 0 or 1 to 63 of one component, bit positions up to 10, a history from Ah = 0 down by one for every coefficient, every DC coefficient sent, and none of AC before it |
| ScanScript.SequentialScripts | Apps/JPEG/jpeg-6b/jcmaster.c:130-261 | those accepted as sequential are exactly those of full scans with every component in one of them and in no other |
| SimpleProgression.SimpleProgressionScript | Apps/JPEG/jpeg-6b/jcparam.c:536-608 | the fill routines write exactly the number of scans allocated |
| SimpleProgression.SimpleScriptIsComplete | Apps/JPEG/jpeg-6b/jcparam.c:536-608 | for any number of components, in YCbCr or not, the script is accepted and brings every coefficient of every component to Al = 0 |
| SimpleProgression.DocumentedScript | Apps/JPEG/jpeg-6b/wizard.doc:181-204 | for YCbCr it is the script that the documentation lists, Cr before Cb |
| SimpleProgression.OtherScripts | Apps/JPEG/jpeg-6b/jcparam.c:596-607 | and otherwise the scans of each component stand where they should, from the first DC scan to the last AC bits |
| PassMachine.Master.PrepareForPass | Apps/JPEG/jpeg-6b/jcmaster.c:400-485 | from between passes to within the pass that is due, skipping the statistics of a DC refinement scan; it fails only if a scan of all components would have too many, and then on the first pass; is_last_pass is set exactly for the data of the last scan |
| PassMachine.Master.FinishPass | Apps/JPEG/jpeg-6b/jcmaster.c:502-535 | moves on to the next pass; after the last one every scan is out |
| PassMachine.Master.FinishCompress | Apps/JPEG/jpeg-6b/jcapimin.c:146-183 | the loop over the remaining passes terminates, and what is written is what is expected, or the beginning of it if the compressor refuses a row |
| PassMachine.Compress | Apps/JPEG/jpeg-6b/jcmaster.c:543-589 | from any script to the end of the file: rejected exactly if not valid; otherwise what is written has the data of every scan once and in order, and one header each; when optimising, every scan but those with Ss = 0 and Ah > 0 has its statistics once, in order and before its data, and these have none; the one frame header comes right before the first scan header |
| PassMachine.WholeScanIsSequential | Apps/JPEG/jpeg-6b/jcmaster.c:288-301 | without a script the one scan has the components in order, and is what a sequential script of one scan would say |
| DirectoryWindow.Buffer.Bubble | Firmware_Common/fat.c:640-650 | the one pass of bubble sorting over the index table puts the last entry where it belongs, and the table stays a permutation |
| DirectoryWindow.Window.ScanInit | Firmware_Common/fat.c:616-651 | whatever the order on disk, the window shows the first eight entries, or all of fewer, in order |
| DirectoryWindow.StartShowsTheLeast | Firmware_Common/fat.c:616-651 | an entry that a new window leaves out has a greater key than every one it shows |
| DirectoryWindow.ListedByKey | Firmware_Common/fat.c:616-651 | the listing that the window is over has the entries of the directory, and each key is less than the next |
| DirectoryWindow.Window.ScanNext | Firmware_Common/fat.c:710-744 | one entry down: the selection moves, or the window moves to the slice one further, or it stays at the end |
| DirectoryWindow.Window.ScanPrev | Firmware_Common/fat.c:745-784 | the same upwards, where a window that was not full grows |
| DirectoryWindow.Window.ScanNextPage | Firmware_Common/fat.c:929-946 | a page down, by up to eight entries, with the entries that remain moved up by exchanges in the table |
| DirectoryWindow.Window.ScanPrevPage | Firmware_Common/fat.c:947-965 | a page up |
| DirectoryWindow.CursorMoves | Firmware_Common/fat.c:477-525 | the selected entry steps through the whole directory by one or by a page and stops at either end |
| DirectoryWindow.EveryEntryIsReached | Firmware_Common/fat.c:489-498 | every entry can be selected, by as many steps as stand before it |
| DirectoryWindow.Browse | Firmware_Common/fat.c:448-1000 | any sequence of the five modes: the visible entries are a contiguous slice, in order, of the sorted directory, the table is a permutation of 0 to 7, and the selected entry is the one at the cursor |
| ClusterWalk.Fat.GetFatLink | Firmware_Common/fat.c:1007-1038 | the link of the cluster on the disk, or 0 if the sector cannot be read, through the buffer that other walks leave behind; a sector that is in the buffer is not read again |
| ClusterWalk.LongSwapIs | Firmware_Common/swap.c:1-25 | the two rotations with the exchange of words between them reverse the four octets of a long word |
| ClusterWalk.LinkIsStored16 | Firmware_Common/fat.c:1016-1038 | the link of a cluster in a FAT16 is the two octets at twice its number behind the start of the FAT, the lower one first |
| ClusterWalk.LinkIsStored32 | Firmware_Common/fat.c:1011-1038 | in a FAT32 it is the four octets at four times its number, the lowest one first, without the highest four bits |
| ClusterWalk.EndMarkIsAllOnes | Firmware_Common/fat.c:1131-1139 | what FileSeek takes for the end of a chain is the link of which all bits are ones |
| ClusterWalk.Fat.FileNextSector | Firmware_Common/fat.c:1040-1077 | the file moves on one sector and stays on the cluster of its sector; it fails only if the FAT cannot be read |
| ClusterWalk.Fat.FileSeek | Firmware_Common/fat.c:1079-1146 | the walk terminates; if it succeeds the file stands on the cluster that is as many links from the start as the sector says; within a cluster nothing is looked up; without a failed read it fails exactly if the end mark comes before that, and leaves the file on the end mark with its sector still in the cluster before; after a failed read the file is still in step |
| ClusterWalk.Run | Firmware_Common/fat.c:1007-1146 | any interleaving of these on any number of files: the buffer matches the disk and every file is where its own operations have led; without failed reads the run fails exactly if some seek walks past the end of its chain |
| IntegerText.TextRoundTrip | Firmware_Common/klibc/strntoumax.c:25-77 | for every 64-bit value, base 8, 10 or 16, width, precision and flags without the tick, what format_int prints reads back as the value modulo 2^64, and nothing is left unread but the padding on the right and what follows, if that does not go on like a number |
| IntegerText.ReadsNumerals | Firmware_Common/klibc/strntoumax.c:25-77 | white space, a sign, in base 16 perhaps 0x, and digits in any base from 2 to 36: the value is the number that the digits stand for modulo 2^64, and what is left is the text behind them |
| FormattedPrint.FormatInt | Firmware_Common/klibc/vsnprintf.c:44-166 | for any space in the buffer, it returns the length of the whole field and stores as much of it as fits, with the digits written from right to left; bytes beyond stay |
| FormattedPrint.ReadInteger | Firmware_Common/klibc/strntoumax.c:25-77 | reads the value that the text stands for: spaces, sign, prefix, digits, modulo 2^64, never beyond n characters, and stops exactly where the digits end |
| Vsnprintf.Print | Firmware_Common/klibc/vsnprintf.c:168-487 | for every format, arguments and buffer size n: unless a string conversion leaves its string, it returns the length of the unbounded output, and the buffer receives the first min(length, n - 1) characters of that and a NUL, and nothing else changes; and it leaves a string exactly if the format comes to a string conversion with a precision below -1 |
| Vsnprintf.NegativePrecision | Firmware_Common/klibc/vsnprintf.c:252-420 | such a format: a precision of -1 given by an argument, with the digit 5 after the star |
| FormatMeaning.ConversionShows | Firmware_Common/klibc/vsnprintf.c:192-487 | any conversion, written with flags, a width, a precision, length modifiers and a letter, prints its field with the values that these denote, and the rest of the format goes on behind it with the arguments left |
| FormatMeaning.PrintsItsArgument | Firmware_Common/klibc/vsnprintf.c:302-393 | what %d, %i, %u, %o, %x, %X, %p and %P print reads back as the argument, in base 10 for the first three, 8 for o and 16 for the others, for every argument of its type and under every length modifier, flag but the tick, width and precision |
| FormatMeaning.IntegerParts | Firmware_Common/klibc/vsnprintf.c:44-166 | the field has the sign or what + or a space asks for, the prefix that # asks for, as many digits as the precision asks for and else no leading zeros, in groups with the tick; filled up to the width with spaces on the left, zeros before the digits with 0, or spaces on the right with -; the width is a lower bound of its length |
| FormatMeaning.ReadsWithoutBase | Firmware_Common/klibc/strntoumax.c:45-62 | with # in base 16 and 8, and in base 10 where nothing asks for leading zeros, it also reads back with base 0 |
| FormatMeaning.StringShows | Firmware_Common/klibc/vsnprintf.c:395-436 | %s and %c print the string or character, cut to the precision and filled up to the width on the side that - says |
| FormatMeaning.OthersShow | Firmware_Common/klibc/vsnprintf.c:438-474 | %n prints nothing, and any other character that means no conversion, % among them, prints itself |
| FormatMeaning.TextShows | Firmware_Common/klibc/vsnprintf.c:194-204 | text without % prints itself and takes no argument |

## Left out

- The statistics pass of a progressive DC first scan, which counts the symbols as the sequential one does.
- One component follows colour conversion in the row pipeline, with an arbitrary function as its downsampler, and the
  preprocessing without context rows is left out.
- The marker bytes (frame and scan headers, tables, APPn), the DCT, quantisation and colour conversion; memory pools;
  the checks of `per_scan_setup` on sampling factors; dispatch through method pointers, for which one implementation
  is called directly.
- `jpeg_natural_order` is any permutation of 0 to 63 that fixes 0; the table itself is not part of this model.
- The application's repetition of a refused MCU is a loop with a bound on its patience; a scan whose patience runs out
  ends as suspended.
- The destination's `put_buffer` is the pattern of an unsigned 32-bit word; the upper 8 bits, which the source leaves
  undefined, are kept as the arithmetic gives them.
- The counts of a statistics pass are unbounded; overflow of `long` is out of reach below the sentinel of 10^9 tokens,
  which OptimizedScan.EncodeOptimized and ProgressiveScan.EncodeAcOptimized require.
- A statistics pass uses an object of its own, where the source reuses the encoder's.
- The headers of the heap are found by address in maps, with the head at address 0 instead of a C object's; pointers
  are 32 bits wide and a request must leave room for its header below 2^32. Released pointers must be live ones.
- The comparison of directory entries is a strict total order given by a key. The code takes NUL and space
  for equal and can read on behind the end of the second name, so that its result can depend on what is left there.
- The directory is the sequence of entries that the filter lets pass, as they stand on disk; long names are part of
  the entry. The modes SCAN_INIT_FIRST, SCAN_INIT_NEXT and the search for a letter are left out.
- The octets are exchanged by the instructions of `swap.c`, which is taken to run on a machine that stores the
  higher octet first.
- The cluster size in sectors is any positive number, and whether two sectors are in one cluster is a comparison of
  quotients; the source masks, which is the same for powers of two. Sector numbers do not wrap around.
- `%n` stores nothing; widths, precisions and lengths are unbounded integers; arguments are a sequence, and one of the
  wrong kind or a missing one reads as 0 or as the empty string.
- `FileCreate`, `FileWrite`, `UpdateEntry`, `FileRead` and `rafile.c`; device I/O.
