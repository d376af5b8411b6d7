# Verified models of libjpeg's compressor core and of ETL's handles, curves, state machine and blur

The project models, in Dafny, the parts of the repository where correctness is least obvious from reading one
function, and proves what they are for.

**The Huffman entropy coder of the JPEG compressor** (`jchuff.c`). A table is derived from counts per length
(`HuffmanTable`, Annex C of ITU-T T.81) or built from statistics (`HuffmanOptimality`, `HuffmanTree`, `HuffmanRun`,
`EvenCounts`, `LengthLimit`, `Crowding`, `OptimalTable`, section K.2). Bits go through a 24-bit accumulator into bytes with stuffed zeros and restart markers
(`EntropyStream`, `BitBuffer`, `HuffmanOutput`), blocks into runs and sizes (`BlockCode`, `BlockSymbols`,
`HuffmanEncoder`), MCUs into a scan that can stop at an MCU and resume there (`ScanCode`, `ScanRuns`, `ScanTables`, `McuEncoder`). The counting pass
agrees with the emitting pass (`ScanVisits`, `Statistics`, `GatherPass`, `TwoPass`). The decoder of `jdhuff.c`, a bit at
a time as in section F.2.2, is the partner of the round trips.

**The coefficient and main buffer controllers** (`jccoefct.c`, `jcmainct.c`, with `jcmaster.c`, `jcprepct.c` and
`jcapistd.c`). `Geometry`, `McuLayout`, `McuSequence` and `ScanCoverage` say which blocks a scan holds; `CoefController` feeds them to the
encoder directly or through the virtual arrays of `CoefStore`, and `GatherController` feeds the counting pass;
`CompressPass` puts whole passes together under any pattern of suspensions, and `TwoPassScan` both passes of an optimized
scan; `MainController` accounts for the scanlines.

**Replaceable handles** (`_handle.h`): `Handle` is the intrusive list on the heap, `HandleWorld` all objects and handles
of a program.

**Curve kernels over exact reals** (`_bezier.h`, `_bspline.h`): `Bernstein`, `BezierRoots`, `BernsteinProduct`,
`BezierForm`, `NearestPoint` and `RootParts` for the nearest-point search on a cubic; `BSpline`, `BSplineCurve` and `BSplineBasis`.

**The stack state machine** (`_smach.h`): `StateContexts` holds the runs and who owns the contexts, `StateMachine` the
object with its two stack arrays. **The sliding-window blur** (`_boxblur.h`): `BoxBlur`.

Objects that the source updates are classes with its fields, loops stay loops, and each method is proved against a
function or a property that other lemmas are about. `JpegTypes`, `BitStrings`, `Products` and `Soundness` hold what several
modules share; `Soundness` makes an invariant a value (`Sound` or `Unsound`) instead of a predicate, so that a long loop
can carry it without unfolding it.

How the environment enters the model:

- A destination accepts or refuses (`refuses`); between calls it may be drained or change its mind. Within one call its
  answer is constant, as the suspension convention has it.
- `jpeg_natural_order` is any bijection of 0..63 that fixes 0. `forward_DCT` is any function from a component and a
  block position to a block. `ERREXIT` is a failure result.
- The compressor's answer to `process_data_simple_main`, a state's answer to `enter_state`, and the flatness test of the
  root finder are arbitrary functions.

Where code and documentation or expectation part:

- `bspline::operator()` clamps the parameter only for the segment search; the weights use the unclamped one, so outside
  the curve's range the value leaves the hull of its control points (`BSplineCurve.HullIff`).
- The comment over `jpeg_gen_optimal_table` expects every count to survive; `bits[]` is of type UINT8, and 256 symbols of
  one length wrap to 0. That happens exactly when one real symbol is never counted and the others equally often, or when
  all are counted, equally often but for one with at least 128 times that count (on a tie, one numbered below 128):
  `Crowding.CrowdedIff`, `OptimalTable.GenOptimalTable`, with the inputs of `OptimalTable.LevelRunsOff` and
  `OptimalTable.TowerLosesAll`. The symbols of a baseline scan never do it (`TwoPass.AlwaysNarrow`).
- A code length over 32, which the source calls its paranoia, takes a total of 9227465 counts
  (`HuffmanRun.LongOnlyFrom`, `TwoPass.SmallScan`).
- `FindRoots` compares the depth with its limit only when there is one crossing, so in exact arithmetic it need not end
  (`NearestPoint.FinderNeedNotEnd`). It ends exactly when some number of halvings leaves at most one crossing in every
  part (`BezierRoots.EndsIff`), and with at most one crossing to begin with it ends within the limit
  (`BezierRoots.FewEnds`, `NearestPoint.NearestPointOnCurve`).
- A blurred region that stops before the pen's end takes the pen's last pixel, not the region's, for positions past the
  region (`BoxBlur.NaiveIff`).
- `jpeg_write_scanlines` called without lines after a suspension returns 1 exactly when the iMCU row that waits is
  accepted; in all other calls it reports no more lines than it was given (`MainController.Main.WriteScanlines`,
  `MainController.WrittenWithoutLines`).

## Model

| member | source | states |
|---|---|---|
| HuffmanTable.FillSizes | gtkmm-osx/jpeg-6b/jchuff.c:210-222 | Figure C.1: the size list holds bits[l] copies of each length l in order, ended by a zero; fails exactly when there are more than 256 codes |
| HuffmanTable.GenerateCodes | gtkmm-osx/jpeg-6b/jchuff.c:224-242 | Figure C.2: every code is the canonical one, and the overflow test fails exactly when the Kraft sum reaches 1 |
| HuffmanTable.NextCode | gtkmm-osx/jpeg-6b/jchuff.c:229-241 | the first code is 0, and each code is the one before it plus one, shifted left by the difference of their lengths |
| HuffmanTable.IndexBySymbol | gtkmm-osx/jpeg-6b/jchuff.c:244-263 | Figure C.3: rejects exactly the out-of-range and repeated symbols; otherwise each listed symbol has its code and length and every other symbol has length 0 |
| HuffmanTable.MakeDerivedTable | gtkmm-osx/jpeg-6b/jchuff.c:178-264 | a bad table number or an empty slot is reported as such; otherwise it accepts exactly the tables with at most 256 codes, Kraft sum strictly below 1 and distinct in-range symbols, and derives their canonical code |
| HuffmanTable.CodeOrder | gtkmm-osx/jpeg-6b/jchuff.c:224-242 | codes strictly increase in canonical order, and a later code cut to an earlier length is still larger |
| HuffmanTable.PrefixFree | gtkmm-osx/jpeg-6b/jchuff.c:224-242 | for every accepted size list no code word is a prefix of another |
| HuffmanTable.NeverAllOnes | gtkmm-osx/jpeg-6b/jchuff.c:234-239 | no code word of an accepted table consists of ones only |
| HuffmanTable.DerivedPrefixFree | gtkmm-osx/jpeg-6b/jchuff.c:258-262 | the code words indexed by symbol are prefix-free, fit their lengths, and none is all ones |
| HuffmanTable.DecodeEncoded | gtkmm-osx/jpeg-6b/jdhuff.c:397-433 | the bit-at-a-time decoder of Figure F.16, on the derived tables of Figure F.15, reads every code word back as its symbol and leaves what follows |
| HuffmanOptimality.KraftInequality | gtkmm-osx/jpeg-6b/jchuff.c:676-702 | the word lengths of every prefix code satisfy the Kraft inequality, so a bound over lengths is a bound over codes |
| HuffmanOptimality.KraftConverse | gtkmm-osx/jpeg-6b/jchuff.c:676-702 | lengths that satisfy the Kraft inequality are the word lengths of some prefix code |
| HuffmanOptimality.PairDeepest | gtkmm-osx/jpeg-6b/jchuff.c:730-751 | for any code lengths there are ones at no greater cost that give the two rarest symbols words of one length, and no symbol a longer word |
| HuffmanOptimality.MergeLowerBound | gtkmm-osx/jpeg-6b/jchuff.c:757-759 | a lower bound on the cost after merging the two rarest symbols gives one before, larger by their counts |
| HuffmanTree.FindPair | gtkmm-osx/jpeg-6b/jchuff.c:731-751 | the two searches pick the two least counts, ties going to the larger symbol, among those within 1000000000 |
| HuffmanTree.MergeBranches | gtkmm-osx/jpeg-6b/jchuff.c:757-775 | one merge adds the counts and deepens by one exactly the symbols on either branch; the others chains stay disjoint, one for each live count, and cover the counted symbols |
| HuffmanTree.KraftStep | gtkmm-osx/jpeg-6b/jchuff.c:761-775 | a merged branch has Kraft sum exactly 1 again |
| HuffmanTree.MergeAll | gtkmm-osx/jpeg-6b/jchuff.c:728-776 | the lengths are those of a run of least-pair merges; when the total is within the search limit and a real symbol was counted they are optimal: exactly the counted symbols have a code, their Kraft sum is 1, no choice of lengths within the Kraft inequality costs less, and symbol 256 has the longest code |
| HuffmanTree.FinalForest | gtkmm-osx/jpeg-6b/jchuff.c:753-755 | with one tree left the lengths are complete, cover exactly the counted symbols, have the least cost over all prefix codes, and none is longer than that of symbol 256 |
| HuffmanTree.LeastCode | gtkmm-osx/jpeg-6b/jchuff.c:704-706 | the lengths built are the word lengths of a prefix code, and every prefix code for the counts costs at least as much |
| HuffmanRun.LongNeedsMany | gtkmm-osx/jpeg-6b/jchuff.c:781-784 | a code word of n bits takes a total count of at least the Fibonacci number of n + 2 |
| HuffmanRun.LongOnlyFrom | gtkmm-osx/jpeg-6b/jchuff.c:781-784 | no code word exceeds 32 bits while the counts total less than 9227465 |
| HuffmanRun.OnlyRarestDeepest | gtkmm-osx/jpeg-6b/jchuff.c:731-775 | a symbol counted more often than some other has a shorter word than symbol 256, whatever ties there are |
| HuffmanRun.OneResult | gtkmm-osx/jpeg-6b/jchuff.c:728-776 | the tie rule makes the run of merges and its code lengths a function of the counts |
| EvenCounts.EvenLengths | gtkmm-osx/jpeg-6b/jchuff.c:728-776 | all real symbols but x counted m times: every word has eight bits when x is never counted; x has one bit and the others nine exactly when x is counted more than 128 m times, or 128 m times and is below 128 |
| LengthLimit.CountLengths | gtkmm-osx/jpeg-6b/jchuff.c:778-788 | fails exactly when a length exceeds 32; otherwise the tallies are the counts of each length, wrapped at 256 as UINT8 does |
| LengthLimit.AdjustKeeps | gtkmm-osx/jpeg-6b/jchuff.c:807-810 | one step of the section K.2 adjustment keeps the number of codes and Kraft sum 1, and takes two words off the longest length |
| LengthLimit.OneLimit | gtkmm-osx/jpeg-6b/jchuff.c:801-812 | the steps of section K.2, each taking two of the longest words and splitting one of the next shorter length in use, lead from given counts to one result |
| LengthLimit.KeepsIff | gtkmm-osx/jpeg-6b/jchuff.c:801-812 | the limit leaves the words of up to k bits alone exactly when all longer words would fit in their code space with 16 bits each |
| LengthLimit.LongestPaired | gtkmm-osx/jpeg-6b/jchuff.c:801-802 | the longest words of a complete code come in pairs, so two can be taken at a time |
| LengthLimit.PrefixExists | gtkmm-osx/jpeg-6b/jchuff.c:803-805 | the downward search always finds a shorter length in use: at most 257 words longer than 14 bits cannot fill the code space |
| LengthLimit.CrowdedShape | gtkmm-osx/jpeg-6b/jchuff.c:786-786 | a complete code with 256 words of one length is eight bits throughout, or one word of one bit over 256 of nine: the only codes whose tally wraps |
| Crowding.CrowdedIff | gtkmm-osx/jpeg-6b/jchuff.c:786-786 | some tally wraps exactly when one real symbol is not counted and the others equally often (256 words of eight bits), or all are, equally often but for one that towers over them (256 words of nine bits) |
| LengthLimit.LimitLengths | gtkmm-osx/jpeg-6b/jchuff.c:801-812 | the adjustment loop ends with no length over 16, the same number of codes and Kraft sum still 1, by the steps of section K.2: each takes the longest length in use and splits a word of the longest length in use below it, skipping one; codes already short are untouched |
| OptimalTable.DropOne | gtkmm-osx/jpeg-6b/jchuff.c:814-817 | taking one word out of a complete code leaves a Kraft sum strictly below 1 and one code fewer |
| OptimalTable.DropPseudo | gtkmm-osx/jpeg-6b/jchuff.c:814-817 | the largest length in use loses one count, and no other entry changes |
| OptimalTable.CollectSymbols | gtkmm-osx/jpeg-6b/jchuff.c:826-834 | huffval lists the real symbols by code length, in symbol order within a length |
| OptimalTable.SortedOrder | gtkmm-osx/jpeg-6b/jchuff.c:826-834 | the list is strictly ordered by code length, then by symbol |
| OptimalTable.ShortTableLengths | gtkmm-osx/jpeg-6b/jchuff.c:814-834 | when no length was adjusted, dropping 256 leaves every real symbol exactly its own Huffman length |
| OptimalTable.KeptLengths | gtkmm-osx/jpeg-6b/jchuff.c:801-834 | symbols of up to k bits keep their Huffman lengths through the limit, whatever is done to longer words, when 16 bits are enough for those |
| OptimalTable.OneTable | gtkmm-osx/jpeg-6b/jchuff.c:778-834 | the code lengths determine the finished table: its counts and its listed symbols |
| OptimalTable.TableIsAccepted | gtkmm-osx/jpeg-6b/jchuff.c:814-834 | the finished table has as many codes as symbols listed and passes every check made when it is derived |
| OptimalTable.CrowdedTable | gtkmm-osx/jpeg-6b/jchuff.c:786-786 | when 256 symbols share a length the wrapped tally loses them: nothing is left for length eight, and one word of one bit for length nine |
| OptimalTable.FinishTable | gtkmm-osx/jpeg-6b/jchuff.c:778-834 | everything after the merge loop: overflow exactly for a length over 32, a search off the low end of bits[] exactly for 256 words of eight bits, a table without words exactly for 256 of nine; otherwise a table that serves the counted symbols, with the counts that section K.2 makes of the lengths |
| OptimalTable.GenOptimalTable | gtkmm-osx/jpeg-6b/jchuff.c:704-838 | the routine over all counts with a total within the limit and a real symbol counted, in terms of the counts: overflow only from a total of 9227465 on; off the end of bits[] exactly for level counts; no words exactly for counts with a tower; in all other cases the table serves every counted symbol, with lengths that are optimal before the limit to 16, the counts of the section K.2 steps, and unchanged lengths up to k bits where 16 bits are enough for all longer words |
| OptimalTable.LevelRunsOff | gtkmm-osx/jpeg-6b/jchuff.c:815-816 | 255 real symbols counted once and any one never: the search for the largest length runs off the array |
| OptimalTable.TowerLosesAll | gtkmm-osx/jpeg-6b/jchuff.c:786-834 | symbol 0 counted 128 times and all others once: the table has no code word |
| EntropyStream.UnstuffStuff | gtkmm-osx/jpeg-6b/jdhuff.c:306-359 | removing stuffed zeros from stuffed data gives every bit back, and the next marker is found where it is |
| EntropyStream.PaddedReads | gtkmm-osx/jpeg-6b/jchuff.c:339-347 | a segment padded by the flush reads back as its bits and fewer than eight ones |
| EntropyStream.NoMarkerInside | gtkmm-osx/jpeg-6b/jchuff.c:324-327 | every 0xFF in the coded data is followed by 0x00 |
| EntropyStream.StuffAppend | gtkmm-osx/jpeg-6b/jchuff.c:321-333 | packing into stuffed bytes can be done piece by piece, carrying fewer than eight pending bits |
| BitBuffer.Merge | gtkmm-osx/jpeg-6b/jchuff.c:313-319 | aligning the masked code under the pending bits and merging appends its low-order bits, whatever stands above bit 23 |
| BitBuffer.FirstByte | gtkmm-osx/jpeg-6b/jchuff.c:322-322 | the byte taken from bits 16 to 23 is the first eight pending bits |
| BitBuffer.DropByte | gtkmm-osx/jpeg-6b/jchuff.c:328-328 | the 32-bit left shift drops exactly those eight bits |
| HuffmanOutput.WorkingState.EmitByte | gtkmm-osx/jpeg-6b/jchuff.c:270-289 | the byte follows those written before, and a full buffer is emptied; it fails only when the buffer is full and the destination refuses, and leaves what is committed unchanged |
| HuffmanOutput.WorkingState.EmitOctets | gtkmm-osx/jpeg-6b/jchuff.c:321-330 | all whole bytes of the accumulator go out with their stuffed zeros; the pending rest stays |
| HuffmanOutput.WorkingState.EmitBits | gtkmm-osx/jpeg-6b/jchuff.c:300-336 | the interval under way grows by exactly the low-order bits of the code, sizes up to 16; an error exactly for size 0 |
| HuffmanOutput.WorkingState.FlushBits | gtkmm-osx/jpeg-6b/jchuff.c:339-347 | the pending bits are completed by ones to the next byte boundary and no further |
| HuffmanOutput.WorkingState.EmitRestart | gtkmm-osx/jpeg-6b/jchuff.c:450-468 | flush, 0xFF, RST0 plus the number, and all DC predictions zero |
| HuffmanEncoder.CountBits | gtkmm-osx/jpeg-6b/jchuff.c:372-376 | shifting counts the bits of a magnitude |
| HuffmanEncoder.ComplementBits | gtkmm-osx/jpeg-6b/jchuff.c:362-369 | the low-order bits of the two's complement value less one are the bits that the standard asks for a negative value |
| HuffmanEncoder.EncodeAc | gtkmm-osx/jpeg-6b/jchuff.c:393-440 | the AC items of the block in zigzag order, which `BlockSymbols.ItemsIff` fixes in numbers: 0xF0 for runs of sixteen, 16 times the run plus the size, 0x00 at the end; an error only for a value out of range or a missing code |
| HuffmanEncoder.EncodeOneBlock | gtkmm-osx/jpeg-6b/jchuff.c:352-443 | exactly the block's items, DC difference first, as `BlockSymbols.BlockItemsIff` fixes them in numbers; an error only when a value is out of range or a symbol has no code |
| BlockSymbols.ItemsIff | gtkmm-osx/jpeg-6b/jchuff.c:393-440 | for coefficients below 1024 in magnitude: the AC symbols are 0x00, 0xF0 or 16 run + size with run up to 15 and size 1 to 10, 0xF0 only before a later coefficient, and 0x00 only at the end, exactly when the last coefficient is zero; read by those numbers they stand for the coefficients, and no other such symbols do |
| BlockSymbols.BlockItemsIff | gtkmm-osx/jpeg-6b/jchuff.c:352-443 | a block's items are the size category of the DC difference and then those AC symbols, and nothing else |
| BlockSymbols.RangeIff | gtkmm-osx/jpeg-6b/jchuff.c:377-421 | a block is in range exactly when its DC difference is below 2048 and its AC coefficients below 1024 in magnitude |
| BlockSymbols.ExtraNumber | gtkmm-osx/jpeg-6b/jchuff.c:362-391 | the extra bits of a value of size n spell the value, or the value plus 2^n - 1 when it is negative |
| BlockCode.AcRoundTrip | gtkmm-osx/jpeg-6b/jdhuff.c:569-592 | decoding the coded run-lengths of any coefficients gives them back, whatever run of zeros came before |
| BlockCode.BlockRoundTrip | gtkmm-osx/jpeg-6b/jdhuff.c:548-592 | whatever follows, a coded block decodes to itself, for every zigzag order |
| ScanCode.McuRoundTrip | gtkmm-osx/jpeg-6b/jdhuff.c:540-616 | a coded MCU decodes to itself, with the same DC predictions on both sides |
| ScanCode.SegmentRoundTrip | gtkmm-osx/jpeg-6b/jdhuff.c:291-389 | the bytes of a restart interval decode to its MCUs, with fewer than eight ones left over |
| ScanCode.ScanRoundTrip | gtkmm-osx/jpeg-6b/jdhuff.c:516-627 | for every MCU sequence and restart interval the coded scan, with RST0 to RST7 in turn, decodes to those MCUs |
| ScanCode.ScanIsSeparated | gtkmm-osx/jpeg-6b/jchuff.c:450-494 | the scan is its restart intervals, each of exactly restart_interval MCUs but the last, coded one by one with 0xFF and 0xD0 + k mod 8 between them |
| ScanRuns.NextInterval | gtkmm-osx/jpeg-6b/jchuff.c:489-494 | a full interval and the marker before the next MCU: predictions zero, counter full, next marker number modulo eight |
| ScanRuns.RunIsScan | gtkmm-osx/jpeg-6b/jchuff.c:475-525 | stepping MCU by MCU with restart counters, then flushing, yields exactly the scan's bytes |
| ScanRuns.WholeRun | gtkmm-osx/jpeg-6b/jchuff.c:475-552 | a whole run from the start of the pass and the final flush give the coded scan; the run succeeds exactly when every block can be coded |
| ScanTables.HuffInverts | gtkmm-osx/jpeg-6b/jdhuff.c:548-592 | with accepted tables the decoder inverts the coder on every block the coder can code |
| ScanTables.CodedScanDecodes | gtkmm-osx/jpeg-6b/jchuff.c:475-552 | end to end: whatever the accepted tables, blocks in range and restart interval, the bytes decode to exactly the MCUs |
| McuEncoder.EncodeBlocks | gtkmm-osx/jpeg-6b/jchuff.c:496-507 | the MCU's blocks with each component's tables and DC prediction; an error only if one of them cannot be coded |
| McuEncoder.Encoder.EncodeMcu | gtkmm-osx/jpeg-6b/jchuff.c:475-525 | a completed MCU is one step of the coder; a refused one leaves saved bits, DC values, restart counters and destination pointers as they were; an error only for an MCU that cannot be coded |
| McuEncoder.Encoder.Commit | gtkmm-osx/jpeg-6b/jchuff.c:509-522 | the working state becomes the saved state and the restart counters advance |
| McuEncoder.Encoder.FinishPass | gtkmm-osx/jpeg-6b/jchuff.c:532-552 | with the last bits flushed the destination holds exactly the coded scan |
| Statistics.HtestOneBlock | gtkmm-osx/jpeg-6b/jchuff.c:571-636 | counts exactly the symbols of the block's items, and fails exactly on a value out of range |
| Statistics.CountsAreUses | gtkmm-osx/jpeg-6b/jchuff.c:557-559 | after any run each symbol is counted exactly as often as the emitting pass codes it |
| ScanVisits.RunByVisits | gtkmm-osx/jpeg-6b/jchuff.c:651-670 | the emitting pass succeeds exactly when every visit of the counting pass, with its DC prediction and restarts, can be coded |
| ScanVisits.IntervalPredicted | gtkmm-osx/jpeg-6b/jchuff.c:496-507 | within a restart interval every block is predicted from the DC value of the last block of its component, the first ones from 0 |
| GatherPass.Gatherer.EncodeMcuGather | gtkmm-osx/jpeg-6b/jchuff.c:644-673 | the MCU is counted as the next of the run, restarts included; fails exactly when a value of the run is out of range |
| TwoPass.AlwaysNarrow | gtkmm-osx/jpeg-6b/jchuff.c:786-786 | counts that miss any two real symbols, as run/size symbols miss 12 and 13, neither wrap a tally nor belong to the two failing families |
| TwoPass.GenerateTable | gtkmm-osx/jpeg-6b/jchuff.c:704-838 | a table accepted for its class that gives codes to exactly the counted symbols, or nothing exactly when the code the loop builds for the counts exceeds 32 bits |
| TwoPass.FinishPassGather | gtkmm-osx/jpeg-6b/jchuff.c:845-880 | every table used by the scan serves its counts, though several components may share it; fails exactly when the code for one of them exceeds 32 bits |
| TwoPass.DeriveTables | gtkmm-osx/jpeg-6b/jchuff.c:106-176 | succeeds exactly when every component's tables are acceptable, and leaves each component with its derived tables |
| TwoPass.CountedIffCoded | gtkmm-osx/jpeg-6b/jchuff.c:557-559 | a symbol has a nonzero count exactly when the emitting pass will use it, and the count is the number of uses |
| TwoPass.ItemHasCode | gtkmm-osx/jpeg-6b/jchuff.c:309-311 | with tables made from the counts every item of every block counted has a code |
| TwoPass.SecondPassCodes | gtkmm-osx/jpeg-6b/jchuff.c:557-562 | with tables made from its own counts a whole scan in range can be coded |
| TwoPass.OptimizeTables | gtkmm-osx/jpeg-6b/jchuff.c:845-880 | from the counting pass to the emitting pass: fails exactly when the code for some table exceeds 32 bits; otherwise the tables are accepted and the counted scan can be coded |
| TwoPass.SmallScan | gtkmm-osx/jpeg-6b/jchuff.c:781-784 | with at most 144179 blocks no table of the scan comes near that failure, nor near the search limit |
| Geometry.NestedCeilings | gtkmm-osx/jpeg-6b/jcmaster.c:101-106 | rounding up to blocks and then to MCUs counts the same MCUs as rounding up at once |
| Geometry.InitialSetup | gtkmm-osx/jpeg-6b/jcmaster.c:46-124 | each error exactly, in the source's order: empty image, size over 65500, scanline width, precision, over 10 components, factors over 4; otherwise block counts and iMCU rows are the rounded-up quotients, and the iMCUs cover every component |
| Geometry.LeastSizes | gtkmm-osx/jpeg-6b/jcmaster.c:100-123 | width and height in blocks are the least numbers that hold size times factor in units of eight times the largest factor, and the iMCU rows and columns the least that hold the image |
| Geometry.MaxReached | gtkmm-osx/jpeg-6b/jcmaster.c:79-91 | the largest sampling factors are 1 or the factors of some component |
| Geometry.PerScanSetup | gtkmm-osx/jpeg-6b/jcmaster.c:307-381 | the component-count and MCU-size errors exactly; otherwise last column and row hold what is left of the blocks, and MCU_membership lists each part's blocks in order |
| McuLayout.RealColumns | gtkmm-osx/jpeg-6b/jcmaster.c:365-368 | of an MCU's block columns exactly the first MCU_width, or last_col_width in the last MCU column, are in the image, and none is outside the rounded-up width |
| McuLayout.RealRows | gtkmm-osx/jpeg-6b/jcmaster.c:369-371 | an MCU's block row is in the image until the last iMCU row, and there down to last_row_height |
| CoefController.Controller.StartIMcuRow | gtkmm-osx/jpeg-6b/jccoefct.c:80-92 | MCU rows in the iMCU row, for interleaved and single-component scans and the last row, with both counters zero; that the scan so counted holds every block once is `ScanCoverage.EveryBlockOnce` |
| ScanCoverage.EveryBlockOnce | gtkmm-osx/jpeg-6b/jccoefct.c:80-92 | for every component of a scan and every block in it, exactly one position of the scan holds that block, whatever the image |
| ScanCoverage.ScanSize | gtkmm-osx/jpeg-6b/jcmaster.c:319-378 | an interleaved scan has rows times columns MCUs, a scan of one component an MCU for each of its blocks, all with blocks_in_MCU blocks |
| ScanCoverage.InterleavedAt | gtkmm-osx/jpeg-6b/jccoefct.c:153-213 | MCU number r times the columns plus x of an interleaved scan holds, part by part, the v rows of h blocks of iMCU (r, x) |
| ScanCoverage.SingleAt | gtkmm-osx/jpeg-6b/jccoefct.c:80-92 | MCU number row times width plus col of a scan of one component is its block (row, col) |
| ScanCoverage.DummyBlocks | gtkmm-osx/jpeg-6b/jccoefct.c:183-200 | a dummy block is zero but for its DC value, which is that of the block before it in the MCU |
| ScanCoverage.MemberAt | gtkmm-osx/jpeg-6b/jcmaster.c:372-378 | MCU_membership names, at each position of an MCU, the part whose block stands there |
| CoefController.Controller.StartPass | gtkmm-osx/jpeg-6b/jccoefct.c:100-126 | each pass starts at the first MCU of the scan |
| CoefController.Controller.FillMcu | gtkmm-osx/jpeg-6b/jccoefct.c:167-200 | the buffer holds the MCU's blocks: real ones from the DCT, right-edge, bottom-edge and corner dummies with zero AC and the DC of their predecessor; every index is inside the buffer |
| CoefController.Controller.WriteMcu | gtkmm-osx/jpeg-6b/jccoefct.c:201-209 | a written MCU is the next of the scan; a refused one leaves the counters at it |
| CoefController.Controller.CompressMcuRow | gtkmm-osx/jpeg-6b/jccoefct.c:156-212 | from mcu_ctr on, the rest of an MCU row; on refusal everything before the saved position, and nothing after it, is committed |
| CoefController.Controller.UncodableScan | gtkmm-osx/jpeg-6b/jccoefct.c:142-218 | an MCU the encoder gives up on makes the whole scan one that cannot be coded |
| CoefController.Controller.CompressData | gtkmm-osx/jpeg-6b/jccoefct.c:142-218 | completes the iMCU row or stops at the refused MCU, the counters naming it: nothing is lost or committed twice |
| CoefController.Controller.LoadMcu | gtkmm-osx/jpeg-6b/jccoefct.c:368-379 | reading the virtual arrays gives the same blocks as the single-pass case, every index inside the rounded-up arrays |
| CoefController.Controller.CompressOutput | gtkmm-osx/jpeg-6b/jccoefct.c:340-395 | the same MCUs in the same order as the single pass, read from the virtual arrays, with the same resumption |
| CoefController.Controller.CompressFirstPass | gtkmm-osx/jpeg-6b/jccoefct.c:244-327 | a strip of every component is stored, dummies included, then emitted; redoing it after a suspension changes nothing |
| CoefStore.StoreRealRow | gtkmm-osx/jpeg-6b/jccoefct.c:277-295 | a block row of the DCT's blocks, then right-edge dummies with the DC of the last real block |
| CoefStore.StoreDummyRow | gtkmm-osx/jpeg-6b/jccoefct.c:304-318 | a row below the image: each MCU's blocks take the DC of its last block one row up, as in the single pass |
| CoefStore.StoreStrip | gtkmm-osx/jpeg-6b/jccoefct.c:258-319 | one component's share of an iMCU row equals what the single pass would feed for it |
| CoefStore.AllocateWhole | gtkmm-osx/jpeg-6b/jccoefct.c:423-432 | arrays padded to a multiple of the sampling factors in both directions |
| McuSequence.BeforeIsPrefix | gtkmm-osx/jpeg-6b/jccoefct.c:153-213 | what comes before a position of the scan is a prefix of the scan |
| CompressPass.SinglePass | gtkmm-osx/jpeg-6b/jccoefct.c:142-218 | under any pattern of refusals and drains a completed pass has sent exactly the coded scan; it is unfinished only with fewer unrefused calls than iMCU rows |
| CompressPass.BufferedPass | gtkmm-osx/jpeg-6b/jccoefct.c:244-327 | the same bytes as the single pass, and afterwards all coefficients are stored |
| CompressPass.OutputPass | gtkmm-osx/jpeg-6b/jccoefct.c:340-395 | a later pass over the stored coefficients sends the same bytes again |
| CompressPass.CompressedScanDecodes | gtkmm-osx/jpeg-6b/jccoefct.c:133-136 | what a completed pass has added to the destination, however it was suspended, decodes to exactly the image's MCUs |
| CompressPass.NextScan | gtkmm-osx/jpeg-6b/jccoefct.c:340-395 | after a first pass any other scan of the image, of other components too, is coded from the arrays |
| GatherController.GatherFirstPass | gtkmm-osx/jpeg-6b/jccoefct.c:244-327 | the first pass with the counting encoder: a strip is stored and its MCUs are counted, or a coefficient is out of range |
| GatherController.GatherImage | gtkmm-osx/jpeg-6b/jccoefct.c:244-327 | the counting pass over a whole image stores all coefficients and counts exactly the image's MCUs in order; fails exactly on a coefficient out of range |
| TwoPassScan.SecondPassNeverFails | gtkmm-osx/jpeg-6b/jchuff.c:309-311 | when the counted MCUs can all be coded, no MCU that the controller feeds in any pass over them is one the encoder gives up on |
| TwoPassScan.CompressTwice | gtkmm-osx/jpeg-6b/jcmaster.c:409-450 | count, make the tables, code again: it fails exactly on a coefficient out of range or a code of more than 32 bits, never for a missing code, and what the completed second pass sends decodes, with the tables made in between, to the image's MCUs, however often the destination refuses |
| MainController.Main.PreProcess | gtkmm-osx/jpeg-6b/jcprepct.c:127-187 | row groups are filled from the next lines of the image, padded to a full iMCU row at its bottom; stops only when the group buffer is full or the lines are used up |
| MainController.Main.ProcessData | gtkmm-osx/jpeg-6b/jcmainct.c:112-157 | lines consumed plus one if suspended are the rows given to the preprocessor; the counter is never decremented below zero; not suspended, it has used all lines offered; the iMCU rows passed are those accepted, up to the first refused; without lines after a suspension it counts one exactly when that iMCU row is accepted |
| MainController.Main.WriteScanlines | gtkmm-osx/jpeg-6b/jcapistd.c:76-111 | over any run next_scanline plus one if suspended counts the rows fed, which are the image's in order; the image's end is reached exactly when the last iMCU row is accepted; fewer lines are written only while an iMCU row is refused; no more lines are reported than were offered exactly unless none is offered after a suspension and the waiting iMCU row is accepted, and then one is; while iMCU row r is held back the rows fed reach exactly to its end, eight times the vertical factor for every iMCU row so far, or to the end of the image, and otherwise they end inside row r |
| MainController.WrittenWithoutLines | gtkmm-osx/jpeg-6b/jcapistd.c:76-111 | an image of one line, refused and then accepted: a call with a line reports none, a later call without lines reports one |
| Handle.SharedObject.Unref | ETL/ETL/_handle.h:94-118 | one reference fewer; the object is deleted exactly when it was the last |
| Handle.RHandle.AddToRlist | ETL/ETL/_handle.h:415-434 | the handle becomes the last of the object's list: links both ways, ends and count |
| Handle.RHandle.DelFromRlist | ETL/ETL/_handle.h:436-459 | the handle leaves the list, its neighbours or the ends are joined, and the order of the others stays |
| HandleWorld.World.NewR | ETL/ETL/_handle.h:466-484 | a new handle is last on its object's list; all other handles keep their objects |
| HandleWorld.World.DetachR | ETL/ETL/_handle.h:569-576 | the handle refers to nothing, and its object loses it or is deleted, exactly if it was the last |
| HandleWorld.World.AssignR | ETL/ETL/_handle.h:512-565 | leaving the old object and joining the end of the new one's list, self-assignment changing nothing |
| HandleWorld.World.DestroyR | ETL/ETL/_handle.h:487-487 | destruction detaches first |
| HandleWorld.World.NewPlain | ETL/ETL/_handle.h:192-204 | a new plain handle counts as a reference to its object |
| HandleWorld.World.AssignPlain | ETL/ETL/_handle.h:228-240 | the old object loses a reference or is deleted, the new one gains it |
| HandleWorld.World.DestroyPlain | ETL/ETL/_handle.h:207-207 | destruction releases the reference, deleting the object exactly if it was the last |
| HandleWorld.World.Census | ETL/ETL/_handle.h:350-373 | after any run, for every live object: the list holds exactly the rhandles that point at it, rrefcount is its length, refcount the number of all handles, and the links run both ways between front_ and back_ |
| HandleWorld.World.Replace | ETL/ETL/_handle.h:604-636 | for x a plain handle or an rhandle: ends although it unlinks the handle it stands on; every rhandle of the old object now points at x's object, and the number moved is returned |
| HandleWorld.AllMoved | ETL/ETL/_handle.h:604-636 | after replace x's list is its former list followed by the moved handles in order, the old object's list is empty or the object is deleted, and no other list changes |
| Bernstein.LeftCurve | ETL/ETL/_bezier.h:694-704 | the left control polygon describes the curve before the division point, for any degree |
| Bernstein.RightCurve | ETL/ETL/_bezier.h:694-708 | the right control polygon describes the curve after it |
| Bernstein.VariationDiminishing | ETL/ETL/_bezier.h:715-735 | subdivision never increases the crossings of the control polygon, and keeps their parity |
| Bernstein.CrossingsAreSides | ETL/ETL/_bezier.h:720-735 | the crossings are as many as the sides of the polygon whose ends lie on different sides of the axis |
| BezierRoots.Bezier | ETL/ETL/_bezier.h:685-713 | the triangle in the fixed table gives the value at t, and where an array is given for a part, its edge is the control polygon of that part |
| BezierRoots.TriangleSubdivides | ETL/ETL/_bezier.h:694-708 | the kept points of the triangle are de Casteljau's subdivision in both coordinates |
| BezierRoots.CrossingCount | ETL/ETL/_bezier.h:720-735 | counts the sign changes of the ordinates, zero taken as positive |
| BezierRoots.ChordMeetsAxis | ETL/ETL/_bezier.h:805-809 | with one crossing the divisor is not zero, and the point returned lies on the chord and the axis, between the ends |
| BezierRoots.RootsBound | ETL/ETL/_bezier.h:821-867 | a call that ends returns at most as many roots as crossings, at most five, as many up to an even number, in order, and between the ends of the polygon |
| BezierRoots.RootCount | ETL/ETL/_bezier.h:855-866 | a call that ends returns exactly as many roots as there are crossings in the parts, once halving leaves none with more than one |
| RootParts.RootInPart | ETL/ETL/_bezier.h:855-866 | where halving first leaves a part with one crossing, one of the roots lies between the ends of that part |
| RootParts.RootAtSignChange | ETL/ETL/_bezier.h:821-867 | where the polynomial has different signs at the ends of a part, a root lies in that part, or in a part around it with exactly one crossing |
| RootParts.PartOfRoot | ETL/ETL/_bezier.h:831-852 | each root is that of a part with exactly one crossing: its middle at a depth of 64, and before that, where the part is flat, the point in which its chord meets the axis |
| RootParts.PartEnds | ETL/ETL/_bezier.h:855-856 | the ends of each part are the points of the curve at the ends of its range of parameters |
| BezierRoots.RootsStable | ETL/ETL/_bezier.h:821-867 | an answer found at some depth of recursion is the answer at every greater one |
| BezierRoots.FewEnds | ETL/ETL/_bezier.h:831-848 | a polygon with at most one crossing is answered once depth and remaining recursion reach MAXDEPTH |
| BezierRoots.EndedFew | ETL/ETL/_bezier.h:831-858 | an answer within some recursion means that after as many halvings every part has at most one crossing |
| BezierRoots.FewAtEnds | ETL/ETL/_bezier.h:831-858 | at most one crossing in every part after n halvings means an answer within n + MAXDEPTH |
| BezierRoots.EndsIff | ETL/ETL/_bezier.h:821-867 | the recursion ends exactly when some number of halvings leaves at most one crossing in every part, whatever the flatness test and the depth |
| BezierRoots.FindRoots | ETL/ETL/_bezier.h:821-867 | the count and the first entries of t are the roots of the recursion, gathered in order within five entries, as many as crossings are left once halving leaves at most one in a part; with at most one crossing the depth limit is recursion enough, and in general n more with one crossing a part after n halvings |
| BernsteinProduct.ProductForm | ETL/ETL/_bezier.h:885-925 | with the weights z the coefficients are those of the product of a cubic and a quadratic |
| BezierForm.ConvertToBezierForm | ETL/ETL/_bezier.h:878-926 | abscissas k/5, ordinates the weighted sums along the skew diagonals of the table of dot products |
| BezierForm.VelocityIsDerivative | ETL/ETL/_bezier.h:895-898 | the polynomial of the d's is the derivative of the curve: the change over h is h times it up to a term in h squared |
| BezierForm.EquationIsExact | ETL/ETL/_bezier.h:878-926 | for all control points, P and real u the fifth-degree polynomial equals the dot product of B(u) - P and B'(u) |
| NearestPoint.NearestPointOnCurve | ETL/ETL/_bezier.h:937-983 | the first nearest to P of both ends and the roots found, which are at most five, lie in order between 0 and 1, and are as many as the crossings that halving separates; it answers for every curve whose equation crosses zero at most once, and exactly as far as halving separates the crossings |
| RootParts.TurningPointFound | ETL/ETL/_bezier.h:937-983 | where the distance from P turns between the ends of a dyadic range of parameters, a candidate lies in that range, or in one around it whose polygon has exactly one crossing |
| NearestPoint.FinderNeedNotEnd | ETL/ETL/_bezier.h:831-858 | on the cubic -1, 2, -4, 8 along a line, with P at the origin, the finder answers at no depth of recursion: the depth is compared only with one crossing |
| BSpline.Spline.ResetKnots | ETL/ETL/_bspline.h:83-99 | the order is lowered to the number of points; the knots are m zeros, 1, 2, ..., and m times the last |
| BSpline.KnotList | ETL/ETL/_bspline.h:94-99 | the knots are m zeros, the numbers from 1 to n - m, and m times n - m + 1 |
| BSpline.Spline.CalcCurveSegment | ETL/ETL/_bspline.h:113-124 | the search ends in range at the one segment between m - 1 and n - 1 that holds the clamped parameter |
| BSpline.Spline.GetCurveVal | ETL/ETL/_bspline.h:183-203 | on a segment of the curve the value of de Boor's triangle, all denominators positive; 0 beyond the segments |
| BSpline.Spline.CalcShell | ETL/ETL/_bspline.h:155-176 | the row of the triangle at the level asked for, the single point of the curve from level m - 1 on |
| BSpline.Spline.At | ETL/ETL/_bspline.h:178-181 | the spline's value at the unclamped parameter |
| BSplineCurve.WeightsProperIff | ETL/ETL/_bspline.h:194-200 | all weights lie in [0,1) exactly when the parameter lies in the curve's range or the order is one |
| BSplineCurve.HullIff | ETL/ETL/_bspline.h:183-203 | the value lies between least and greatest of the local control points, whatever they are, exactly when the parameter lies in the closed range or the order is one |
| BSplineBasis.ValueIsBasisSum | ETL/ETL/_bspline.h:183-203 | on the curve's range the value is the sum of all control points times their Cox-de Boor basis functions |
| BSplineBasis.ValueAtEnds | ETL/ETL/_bspline.h:83-99 | the curve starts at the first control point and ends at the last |
| StateMachine.Machine.Egress | ETL/ETL/_smach.h:367-392 | all states from the top of the stack down are left; the answer is that of the last one left |
| StateMachine.Machine.EnterState | ETL/ETL/_smach.h:401-432 | egress, then the new state, or the former one entered again when it refuses; what that leaves is `StateContexts.EnterLeadsTo` and `StateContexts.FailedEnter` |
| StateMachine.Machine.PushState | ETL/ETL/_smach.h:444-474 | the current state goes on the stack, or overflow at 32, or plain entry of an empty machine; a refusal restores the machine |
| StateMachine.Machine.PopState | ETL/ETL/_smach.h:480-505 | underflow without a state; otherwise the state below becomes current and the popped one is left |
| StateMachine.Machine.SetDefaultState | ETL/ETL/_smach.h:323-362 | the former default is left first, and entered again when the new one refuses; what that leaves is `StateContexts.SetDefaultLeadsTo` |
| StateMachine.Machine.Destroy | ETL/ETL/_smach.h:520-526 | egress, then the default state is left |
| StateContexts.RunOwns | ETL/ETL/_smach.h:323-505 | after any run of operations, with any entries refused, the contexts held and those left are together exactly those made, each once and with its maker |
| StateContexts.OwnedByMaker | ETL/ETL/_smach.h:285-299 | a context held in a place of the machine belongs to the state that made it and has not been left |
| StateContexts.OwnedOnce | ETL/ETL/_smach.h:285-299 | no two places of the machine hold the same context |
| StateContexts.LeftByMaker | ETL/ETL/_smach.h:323-505 | a context that was left was left by the state that made it |
| StateContexts.LeftOnce | ETL/ETL/_smach.h:323-505 | no context is left twice |
| StateContexts.Accounted | ETL/ETL/_smach.h:323-505 | every context made is in some place with its maker, or has been left |
| StateContexts.RunLeavesAll | ETL/ETL/_smach.h:520-526 | after any run the destructor leaves nothing held: every context made was left |
| StateContexts.EgressLeaves | ETL/ETL/_smach.h:367-392 | egress leaves the contexts of the current state and of the stacked ones, in that order from the top down, and nothing else |
| StateContexts.EnterLeadsTo | ETL/ETL/_smach.h:401-423 | enter succeeds exactly when the state asked for is granted its context; it is then current through that context, the stack is empty, all that was current or stacked has been left, and the default state stays |
| StateContexts.PushLeadsTo | ETL/ETL/_smach.h:444-468 | with a current state a push succeeds exactly when there is room for 32 and the state is granted; it is then current over the former one |
| StateContexts.PopLeadsTo | ETL/ETL/_smach.h:480-505 | pop fails exactly without a current state; otherwise that state alone is left, and the one stacked last is current |
| StateContexts.SetDefaultLeadsTo | ETL/ETL/_smach.h:323-362 | succeeds exactly when no default is wanted or the one asked for is granted, which is then the default; the former one is left, and entered again after a refusal; current state and stack stay |
| StateContexts.DestroyLeaves | ETL/ETL/_smach.h:520-526 | the destructor leaves the current state, the stacked ones from the top down, and the default state last |
| StateContexts.FailedPush | ETL/ETL/_smach.h:444-474 | a push that fails or overflows leaves machine and contexts as they were; overflow exactly at 32 stacked states |
| StateContexts.FailedEnter | ETL/ETL/_smach.h:417-432 | a failed entry leaves all that were current or stacked, and the former state is current with a new context, or with none exactly when it refuses too |
| StateContexts.PushThenPop | ETL/ETL/_smach.h:444-505 | popping what was pushed restores the machine; one context was made and left |
| BoxBlur.Slide | ETL/ETL/_boxblur.h:62-67 | sliding the window on by one takes the position left behind off the total and adds the next |
| BoxBlur.BlurRow | ETL/ETL/_boxblur.h:53-70 | the running total at x is the window sum from x - length to x + length, every read is in the row, and no other pixel is written |
| BoxBlur.HboxBlur | ETL/ETL/_boxblur.h:41-72 | every output row is the blur of its own input row alone, with the length or, when that is less, the width |
| BoxBlur.VboxBlur | ETL/ETL/_boxblur.h:75-107 | the same for columns, with the length or, when that is less, the height |
| BoxBlur.NaiveIff | ETL/ETL/_boxblur.h:62-67 | the blur is the naive sum over the clamped positions of the region, for all contents, exactly when the region ends at the pen's end or the length is 0 |
| BoxBlur.BlurBetween | ETL/ETL/_boxblur.h:48-69 | a blurred pixel lies between the darkest and the brightest of its line |

## Left out

- HuffmanOutput.WorkingState.EmitBits: `put_buffer` is a non-negative number cut to 32 bits where it is shifted; the sign of INT32 is not modelled, since only bits 0 to 23 are ever used.
- OptimalTable.GenOptimalTable: the counts are unbounded numbers with a total of at most 1000000000, the limit that the searches themselves assume; wrap-around of `long` is not modelled.
- TwoPass.OptimizeTables: requires a nonempty scan whose components all take part, as a scan set up by `per_scan_setup` has them; a table nobody uses is never generated.
- Geometry.PerScanSetup: a restart interval given in rows is not converted to MCUs; the interval is a parameter of the scan.
- McuEncoder.Encoder.EncodeMcu: a destination that is emptied successfully and then refuses within one MCU is excluded, since the suspension convention excludes it.
- CompressPass.SinglePass: the pass stops after the calls it is given, so that it ends; how often an application calls again is not part of the model.
- CoefController.Controller.CompressOutput: the blocks of an MCU are copied into a buffer where the source keeps pointers into the virtual arrays; the virtual arrays are plain arrays, without paging.
- TwoPassScan.CompressTwice: a table already defined for the scan stays in its slot until it is replaced; which components a scan script puts in later scans is left to `CompressPass.NextScan`.
- CoefController.Controller.OverArrays: a scan of other components is a controller of its own over the same arrays, where the source sets up the one it has.
- GatherPass.Gatherer: the statistics tables exist from the start of the pass instead of being allocated for the tables in use.
- MainController.Main.PreProcess: colour conversion, downsampling and the contents of the padding are left out; which rows are given to them, and when, is modelled.
- MainController.Main.WriteScanlines: the state check, the progress monitor and the delayed `pass_startup` are left out.
- HandleWorld: objects of one class with both counts stand for all; casts between handle types, `loose_handle`, `swap`, assignment to an rhandle through its `handle` base and mutexes are left out.
- BezierRoots.FindRoots: takes a bound on the depth of recursion and answers nothing beyond it, because the source need not end; `BezierRoots.RootsStable` shows that an answer does not depend on the bound, `BezierRoots.EndsIff` when there is one. The flatness test is an arbitrary predicate.
- NearestPoint.NearestPointOnCurve: says which candidate is nearest, not that the curve has no nearer point.
- BSpline: splines that loop, and the search for the closest control point, are left out; control points are numbers, one coordinate at a time.
- BoxBlur.HboxBlur: pixels are exact numbers; the conversions between pixel and accumulator types, and regions wider than what is left of the pen, are left out. The combined `box_blur` and the Gaussian kernels are left out.
- StateMachine: event dispatch and nested or child machines are left out, and so are calls back into the machine from within `enter_state` and `leave_state`.
- Floating-point rounding in the curves: all arithmetic on them is exact.
- The progressive coder, JPEG markers other than RSTn, file input and output, memory management, colour conversion and the DCT itself.
- Context rows of the preprocessor and raw-data input.
- The decoder's lookahead tables and its recovery from corrupt data: decoding is modelled for scans that are not corrupt, a bit at a time.
