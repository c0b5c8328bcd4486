# Models of the codecs and the in-memory filesystem of AsterOS

This project models, in Dafny, the parts of the repository whose correctness is hard to see from the code, and proves what they promise. Each group of modules follows one part of the source.

**Arithmetic coding (sections D.1, D.2, F.1.4, F.2.4 and G.1.3 of ITU-T T.81).** `ProbabilityTable` holds the state machine. `CodingInterval` is exact interval arithmetic, `Termination` the choice of the final code string, `SegmentSource` the reading of stuffed bytes up to a marker, `DecisionStream` the round trip of a segment. `ArithEncoder` and `ArithDecoder` are the two register machines, proved against the exact intervals. `MagnitudeModel`, `BlockModel` and `ScanModel` are the decisions for magnitudes, blocks and MCUs in all five coding procedures, `BinRoles` what question each of them answers and which of them share a statistics bin, `ScanStream` whole scans with restarts, `RestartSegments` why each of their segments stands alone. `ScanEncoder` and `ScanDecoder` are the entropy coders that work on coefficient arrays.

**Scripts, passes and geometry.** `ScanScript`, `ScriptReduction` and `SimpleProgression` are the script validator, the in-place reduction for small blocks, and the recommended script; `PassControl` is the state machine of the passes. `Geometry` and `BlockPadding` are the sizes, the MCU layout and the dummy blocks, `BlockControllers` the three coefficient controllers. `ImageScan`, `ImageReconstruction` and `ImageRecovery` put scripts, geometry and coding together: what a decoder holds after any accepted script.

**Huffman coding (annexes C and K.2, sections F.1.2 and G.1.2 of T.81).** `HuffmanTree`, `HuffmanOptimality`, `LengthLimiting`, `SymbolList` and `HuffmanTables` make optimal tables, `HuffmanCode` and `HuffmanWords` derive and analyse code words. `HuffmanItems` and `HuffmanStream` say what is sent, `HuffmanBits` and `HuffmanEncoder` write it, and count it for progressive scans; `HuffmanGather` is the separate trial encoding of sequential scans. `HuffmanNeeds` and `HuffmanPasses` join the gathering and the output pass, `HuffmanSchedule` joins them to the passes of the master control. `HuffmanDecoding` finds code words with the decoder's arrays and `HuffmanReading` is the decoder of the five procedures; `HuffmanTape`, `HuffmanBands`, `HuffmanRefining`, `HuffmanRoundTrip` and `HuffmanFile` show that it gets back what was coded, from coefficients up to the bytes of a file.

**Preprocessing.** `ContextRing` is the ring of three row groups from which the downsampler gets its context rows.

**DER (sections 8.1.2 and 8.1.3 of ITU-T X.690).** `DerEncoding` and `DerDecoding` are the encoder and the table-driven parser.

**The shell's filesystem.** `ShellPaths` resolves paths, `ShellTree` is the pool of linked nodes, `ShellCommands` the commands on a map from paths, `ShellView` the map a pool stands for, and `ShellVfs` the shell's functions, proved against that map.

`Bytes` and `Products` hold arithmetic shared by the others. Error exits are results, the memory managers and the source and destination managers are byte sequences, and the forward DCT is given as its blocks. A table of probabilities, of component factors or of item specifications is a parameter wherever the code works for any.

## Model

| member | source | states |
|---|---|---|
| ProbabilityTable.Fetch | src/libjpeg/jdarith.c:148-175 | taking a packed word apart by shifts gives the Qe value and two bytes that, combined with the state by exclusive or, are the states after an LPS and after an MPS |
| ProbabilityTable.Unpack | src/libjpeg/jaricom.c:29-31 | the fields packed into a table word do not overlap: each comes back from its byte positions |
| CodingInterval.DecodeReadsCode | src/libjpeg/jdarith.c:106-182 | whatever the data, the decisions read along any list of bins are decisions those data code, and the decoder stays inside its interval |
| Termination.Shortest | src/libjpeg/jcarith.c:133-193 | no byte string in the final interval is shorter than the terminating number without its final zero bytes |
| SegmentSource.DataBytesOfStuffed | src/libjpeg/jdarith.c:115-137 | stuffed data followed by a marker are read back exactly, and the marker is found right behind them |
| SegmentSource.ResyncIs | src/libjpeg/jdmarker.c:1338-1380 | recovery passes over invalid markers and the last two restarts, keeps the next two and any other marker for later, and takes any other restart for the one wanted |
| DecisionStream.SegmentRoundTrip | src/libjpeg/jcarith.c:133-313 | decoding a stuffed segment up to any marker returns the coded decisions and leaves every statistics bin as the encoder left it |
| DecisionStream.SegmentShortest | src/libjpeg/jcarith.c:133-193 | the segment written is the shortest string from which its decisions can be read |
| CodingInterval.SelectSplits | src/libjpeg/jcarith.c:219-260 | a decision splits the interval in two, the upper part Qe wide, and the more probable symbol never gets the smaller part |
| CodingInterval.EstimateIs | src/libjpeg/jcarith.c:219-260 | a statistics bin changes exactly when the part chosen has to be renormalized |
| CodingInterval.FixedBinStays | src/libjpeg/jcarith.c:942-944 | the fixed bin's state never moves, and its Qe is close to half of the interval |
| ArithEncoder.CarryStops | src/libjpeg/jcarith.c:262-312 | the interval never reaches past the first byte, so a carry always finds a byte below 0xFF to stop at |
| ArithEncoder.Encoder.Narrow | src/libjpeg/jcarith.c:219-260 | the registers after a decision denote exactly the part of the interval that the decision selects, with the new state of the bin |
| ArithEncoder.Encoder.ByteOut | src/libjpeg/jcarith.c:262-312 | moving a byte out of the code register, with its carry, stacked 0xFF bytes and held-back zeros, leaves the interval denoted unchanged and never holds 0xFF back |
| ArithEncoder.Encoder.Encode | src/libjpeg/jcarith.c:219-313 | at every step written, held-back and register bytes together denote the exact interval of all decisions coded, with 0x8000 <= a <= 0x10000 |
| ArithEncoder.Encoder.Finish | src/libjpeg/jcarith.c:133-193 | the bytes written are exactly the stuffed shortest code string of the final interval |
| ArithDecoder.Decoder.RenormalizeRegisters | src/libjpeg/jdarith.c:106-141 | on arbitrary data, at every decision 0 <= c < a << ct, 0x8000 <= a <= 0x10000 and 0 <= ct <= 7, and the interval denoted is unchanged |
| ArithDecoder.Decoder.Decode | src/libjpeg/jdarith.c:106-182 | the one comparison on registers with a floating cut returns what the exact interval says for the data, and moves interval and statistics as the encoder does |
| ArithDecoder.Decoder.ResyncToRestart | src/libjpeg/jdmarker.c:1338-1380 | recovery from an unexpected marker ends at the cursor the recovery rules give, on any input |
| BlockModel.AcRoundTrip | src/libjpeg/jdarith.c:321-393 | the AC band of a block comes back down to the bit position sent, with all decisions consumed |
| BlockModel.RefineRoundTrip | src/libjpeg/jdarith.c:437-504 | an AC refinement takes a band known down to one bit position one position further, though the two sides find the previous end of band differently |
| ScanModel.BlockRoundTrip | src/libjpeg/jcarith.c:364-686 | in each of the five procedures a block comes back, with prediction and statistics in step, if and only if its DC difference is at most 2^15 |
| ScanModel.BlocksRoundTrip | src/libjpeg/jcarith.c:694-835 | any number of blocks comes back if and only if all their DC differences are within range |
| ScanModel.BlocksLost | src/libjpeg/jdarith.c:270-287 | when a DC difference is out of range the blocks read differ from the originals |
| ScanModel.DcRefined | src/libjpeg/jdarith.c:403-429 | setting the next bit completes a two's complement DC value one place further down |
| BinRoles.BinsShared | src/libjpeg/jcarith.c:694-835 | the decisions of any blocks answer the questions of the standard in order (each with its answer), stay inside their areas, and share a bin exactly if they ask the same question in the same circumstances |
| BinRoles.SameContext | src/libjpeg/jcarith.c:763-772 | two DC differences condition the next one alike exactly if they fall in the same class by L, U and sign |
| BinRoles.RangeNeeded | src/libjpeg/jcarith.c:747-763 | for a difference of 0x8001 the category reaches the bin of the low bit of a difference of 3: bins are separate only within the range |
| ScanStream.ScanRoundTrip | src/libjpeg/jcarith.c:694-835 | for any MCUs, restart interval, conditioning and following marker the decoder gives every block back, ends with the encoder's statistics, and stops at the marker |
| ScanStream.ScanExact | src/libjpeg/jdarith.c:512-636 | the decoder reads a scan without giving up on a segment exactly if no DC difference is beyond 2^15, and into blank blocks everything comes back exactly then |
| RestartSegments.SegmentsAlone | src/libjpeg/jcarith.c:321-355 | each restart segment is coded as if it were all there is: its bytes depend neither on earlier segments nor on what the statistics were before the scan |
| ScanEncoder.EntropyEncoder.EncodeMcu | src/libjpeg/jcarith.c:694-835 | the loops over a coefficient array, with predictions, contexts and restart counters, do to the coder's state what the model of an MCU says |
| ScanEncoder.EntropyEncoder.EmitRestart | src/libjpeg/jcarith.c:321-355 | a restart finishes the segment, writes marker and number, and starts afresh with cleared statistics and predictions |
| ScanEncoder.EncodeBand | src/libjpeg/jcarith.c:453-550 | the loops of a first AC pass code exactly the decisions of the band |
| ScanEncoder.EncodeRefinement | src/libjpeg/jcarith.c:595-686 | the loops of an AC refinement code exactly the decisions of the refinement |
| ScanDecoder.EntropyDecoder.DecodeMcu | src/libjpeg/jdarith.c:512-636 | reading an MCU in place gives the blocks and the state of the model on any data; after a failure the blocks are left alone |
| ScanDecoder.EntropyDecoder.ProcessRestart | src/libjpeg/jdarith.c:190-222 | a restart finds its marker, or recovers, and begins the next segment with everything cleared |
| ScanDecoder.DecodeBand | src/libjpeg/jdarith.c:321-393 | the loops of a first AC pass store into the array exactly what reading the band gives |
| ScanDecoder.DecodeRefinement | src/libjpeg/jdarith.c:437-504 | the loops of an AC refinement store exactly what reading the refinement gives |
| ScanScript.ValidateScript | src/libjpeg/jcmaster.c:178-305 | a script is accepted if and only if its scans are in order, and then it is rightly called progressive or sequential |
| ScanScript.EachBitOnce | src/libjpeg/jcmaster.c:232-266 | an accepted progressive script sends each bit plane of each coefficient once, from the top down to the last position, and none below it |
| ScanScript.DcFirst | src/libjpeg/jcmaster.c:253-266 | no AC coefficient is sent before the DC of its component |
| ScanScript.SequentialOnce | src/libjpeg/jcmaster.c:268-303 | an accepted sequential script sends each component in exactly one scan |
| ScriptReduction.ReduceScript | src/libjpeg/jcmaster.c:309-338 | the compaction in place gives the scans that start within the band, cut off at its end, in order, and touches nothing beyond |
| ScriptReduction.ReducedSends | src/libjpeg/jcmaster.c:309-338 | of the kept coefficients the same bits are sent as before, of the others none |
| ScriptReduction.ReducedAccepted | src/libjpeg/jcmaster.c:309-338 | an accepted progressive script is still accepted as progressive once reduced |
| ScriptReduction.ReducedSequential | src/libjpeg/jcmaster.c:309-338 | an accepted sequential script cut down to a last coefficient would be accepted again exactly if that is 0 or at least 63 |
| SimpleProgression.SimpleProgression | src/libjpeg/jcparam.c:514-589 | the fillers use exactly the number of entries figured beforehand, and reuse earlier space only when it is large enough |
| SimpleProgression.RecommendedComplete | src/libjpeg/jcparam.c:514-589 | for any number of components the recommended script is accepted and sends every bit of every coefficient exactly once |
| PassControl.Master.Init | src/libjpeg/jcmaster.c:621-675 | set-up succeeds exactly for an accepted script or none, and puts the machine before its first pass with the script reduced for small blocks |
| PassControl.Master.PrepareForPass | src/libjpeg/jcmaster.c:479-553 | a pass gathers or outputs as its type says; a DC refinement skips its gathering pass; headers go out with output |
| PassControl.Master.Run | src/libjpeg/jcapimin.c:155-189 | the loop over the remaining passes ends exactly after the output pass of the last scan, with the events of all scans in order and then the trailer |
| PassControl.EachScanOnce | src/libjpeg/jcmaster.c:479-613 | each scan is output once, in order, with its header; statistics are gathered for exactly the scans that have a table; there is one frame header |
| PassControl.GatherPrecedes | src/libjpeg/jcmaster.c:479-613 | a gathering pass is followed at once by the output pass of the same scan |
| PassControl.FrameHeaderFirst | src/libjpeg/jcmaster.c:527-541 | the frame header comes before any scan header |
| Geometry.InitialSetup | src/libjpeg/jcmaster.c:47-171 | parameters are accepted exactly within the limits, and the sizes computed make a frame whose MCU rows and columns cover every component |
| Geometry.SizesCover | src/libjpeg/jcmaster.c:121-171 | the ceiling divisions for a component and for the MCUs agree: the component ends in its last MCU row and column |
| Geometry.LastCountIs | src/libjpeg/jcmaster.c:429-457 | the count taken in the last MCU row or column is between one and a full unit and completes the component |
| Geometry.PlanVisits | src/libjpeg/jccoefct.c:344-400 | the MCUs of a scan visit each block it has to send exactly once, and no others |
| Geometry.PlanOrder | src/libjpeg/jccoefct.c:344-400 | MCUs come row by row from left to right, and each holds exactly the blocks of its own place in the grid, by component, then row by row from left to right |
| BlockPadding.PerScanSetup | src/libjpeg/jcmaster.c:388-467 | set-up succeeds exactly if the MCU is small enough, and its membership list is that of every MCU of the scan |
| BlockPadding.BottomDummies | src/libjpeg/jccoefct.c:190-201 | a row of dummy blocks below the image is all copies of the DC value just before it, however the MCU lies |
| BlockPadding.DummyFollows | src/libjpeg/jccoefct.c:185-201 | in an MCU of several components a dummy block is zero but for the DC value of the block just before it, which is of the same component |
| BlockControllers.Controller.DctMcu | src/libjpeg/jccoefct.c:144-203 | single-pass compression builds the MCU of padded blocks |
| BlockControllers.Controller.StoredMcu | src/libjpeg/jccoefct.c:344-400 | later passes read the same MCU out of the arrays |
| BlockControllers.Controller.TranscodeMcu | src/libjpeg/jctrans.c:293-371 | the transcoder points to the same MCU, making dummy blocks on the fly within its buffer |
| BlockControllers.Controller.CompressStrip | src/libjpeg/jccoefct.c:144-219 | an iMCU row is sent from where the last call was suspended; nothing is lost or sent twice |
| BlockControllers.Controller.RunPass | src/libjpeg/jctrans.c:293-371 | whatever the controller, and however often it is suspended and resumed, the entropy coder gets exactly the MCUs of the scan |
| BlockControllers.Controller.RunFirstPass | src/libjpeg/jccoefct.c:246-330 | the first pass sends its scan and leaves the whole padded image in the arrays |
| BlockControllers.Controller.RunScans | src/libjpeg/jccoefct.c:246-400 | a first pass, resumed as often as it is suspended, and any number of later passes each send the MCUs of their scan; a suspension in a later pass is an error |
| ImageScan.PictureRoundTrip | src/libjpeg/jdarith.c:512-636 | decoding a scan into the coefficient arrays takes every visited block to what the scan sends and leaves the others alone |
| ImageReconstruction.ScansRoundTrip | src/libjpeg/jcarith.c:364-686 | after any scans in order each coefficient of each real block is held down to its latest bit position |
| ImageReconstruction.ScansExact | src/libjpeg/jdarith.c:242-504 | a file of scans is read without giving up on any segment exactly if no DC difference is beyond 2^15 |
| ImageRecovery.ImageRoundTrip | src/libjpeg/jcmaster.c:178-338 | for every script the validator accepts, the decoder ends with every AC coefficient as sign(v)*((abs v >> Al) << Al) and every DC as (v >> Al) << Al for its last Al, and reads exactly the bytes written |
| ImageRecovery.ImageExact | src/libjpeg/jdarith.c:242-504 | for every accepted script the file is read cleanly exactly if no DC difference is beyond 2^15 |
| ImageRecovery.ImageRecovered | src/libjpeg/jdarith.c:242-504 | once all positions have reached zero the image comes back exactly |
| ImageRecovery.CompleteScripts | src/libjpeg/jcparam.c:514-589 | every accepted sequential script and the recommended progressive one bring all positions to zero |
| ImageRecovery.BoundedImageFits | src/libjpeg/jdarith.c:270-287 | an image whose DC values are at most 2^14 in size has no difference out of range, in any script |
| HuffmanTree.BuildTree | src/libjpeg/jchuff.c:1334-1389 | merging in place gives a complete code (Kraft sum 1) of the counted symbols whose cost is the sum of the merged counts, no deeper than the Fibonacci bound allows |
| HuffmanOptimality.Optimal | src/libjpeg/jchuff.c:1341-1389 | no code lengths within Kraft's inequality code the counted data in fewer bits |
| LengthLimiting.LimitLengths | src/libjpeg/jchuff.c:1403-1428 | limiting to 16 bits keeps the tree full and the number of words, wraps no count, and never reaches its error exit |
| LengthLimiting.DropLast | src/libjpeg/jchuff.c:1430-1433 | the pseudo-symbol is removed from the longest words and nothing else changes |
| SymbolList.SortSymbols | src/libjpeg/jchuff.c:1292-1330 | the in-place list gives the counted symbols once each, by descending count |
| HuffmanTables.GenOptimalTable | src/libjpeg/jchuff.c:1252-1457 | the table lists exactly the counted symbols with usable counts, by an optimal complete code before limiting, and fails exactly if that code is deeper than 32 bits |
| HuffmanTables.NeverTooDeep | src/libjpeg/jchuff.c:1391-1401 | with fewer than 9227465 counts the code is never too deep |
| HuffmanTables.OptimalUsable | src/libjpeg/jchuff.c:161-245 | such a table is accepted when it is derived, as long as DC symbols are at most 15 |
| HuffmanTables.FrequentShort | src/libjpeg/jchuff.c:1252-1457 | of two symbols the more frequent never has the longer word |
| HuffmanCode.DeriveTable | src/libjpeg/jchuff.c:161-245 | a table is accepted exactly if its counts leave room for the word of all ones and its symbols are distinct and in range, and then each symbol gets its canonical word |
| HuffmanWords.PrefixFree | src/libjpeg/jchuff.c:202-222 | no word of an accepted table is a prefix of another |
| HuffmanWords.PaddingHasNoWord | src/libjpeg/jchuff.c:211-222 | no word consists of ones alone |
| HuffmanWords.UniqueDecoding | src/libjpeg/jchuff.c:390-397 | a string of words padded with ones comes from one list of symbols only |
| HuffmanItems.ValueRoundTrip | src/libjpeg/jchuff.c:912-960 | the category of a value and the bits sent with it determine the value |
| HuffmanItems.RefineSettled | src/libjpeg/jchuff.c:782-890 | through any refinement block buffered and new correction bits stay within 1000, bits are only ever pending with a run, and the run stays below 0x7FFF |
| HuffmanItems.BufferFills | src/libjpeg/jchuff.c:876-890 | the bound is reached: some blocks leave 937 bits buffered and the next adds 63 |
| HuffmanDecoding.MakeDecoder | src/libjpeg/jdhuff.c:322-455 | a table is refused exactly if its counts are no code or a DC symbol is above 15, and the arrays describe the canonical codes |
| HuffmanDecoding.DecodeSymbol | src/libjpeg/jdhuff.c:590-625 | one comparison per bit with the largest code of that length finds the symbol whose word comes next, if any does |
| HuffmanTape.AcRead | src/libjpeg/jdhuff.c:1203-1320 | the AC coefficients of a sequential block come back from the bits of its items, with runs of sixteen and end of block |
| HuffmanBands.FirstRead | src/libjpeg/jdhuff.c:778-860 | a first AC pass comes back to its bit position, though an end-of-block run is sent blocks after the first one that it covers |
| HuffmanRefining.PassOver | src/libjpeg/jdhuff.c:992-1018 | passing over coefficients the reader takes exactly the correction bits that the coder had buffered for them, and brings each one bit further |
| HuffmanRefining.RefineRead | src/libjpeg/jdhuff.c:915-1066 | an AC refinement comes back: new coefficients with their signs, corrections, runs of sixteen among nonzero coefficients, and runs of end-of-blocks with their bits |
| HuffmanRoundTrip.BlockRead | src/libjpeg/jdhuff.c:706-1325 | in each of the five procedures a block comes back down to the bit position sent, whatever the following blocks add to a pending run |
| HuffmanRoundTrip.ScanReads | src/libjpeg/jdhuff.c:706-1325 | a whole scan, with any MCUs and restart interval, comes back from its bits, and nothing but padding is left |
| HuffmanFile.FileReads | src/libjpeg/jdhuff.c:655-690 | the bytes of a scan, standing anywhere in a file and followed by any marker, are split at their restart markers and decoded to all its blocks |
| HuffmanBits.BitWriter.EmitBits | src/libjpeg/jchuff.c:306-343 | the unstuffed output and the bits held are the concatenation of all codes emitted, with at most seven bits held |
| HuffmanBits.BitWriter.FlushBits | src/libjpeg/jchuff.c:390-397 | a flush adds ones up to the next byte boundary and nothing else |
| HuffmanEncoder.Encoder.EncodeAcRefine | src/libjpeg/jchuff.c:782-906 | the loop with its two bit buffers sends exactly the items of the refinement, and fails only for a symbol without a word |
| HuffmanEncoder.Encoder.EncodeAcFirst | src/libjpeg/jchuff.c:628-729 | a first AC pass sends exactly its items, and rejects exactly the coefficients out of range |
| HuffmanEncoder.Encoder.EncodeMcu | src/libjpeg/jchuff.c:1012-1061 | an MCU with its restart is written as exactly its items, and is refused exactly for a coefficient out of range or a symbol without a word |
| HuffmanGather.HtestOneBlock | src/libjpeg/jchuff.c:1118-1184 | the separate trial encoding of a block counts, in its count arrays, exactly the symbols of the items the writing program sends for it, and refuses exactly the same blocks |
| HuffmanGather.Gatherer.EncodeMcuGather | src/libjpeg/jchuff.c:1193-1221 | with its own restart counter and predictions it stays in step with what the writing program has sent |
| HuffmanGather.Gatherer.Gather | src/libjpeg/jchuff.c:1118-1221 | over any MCUs and restart interval the symbols counted are exactly those of the scan's items, and the pass fails exactly if a coefficient is out of range |
| HuffmanNeeds.TablesUsed | src/libjpeg/jchuff.c:1465-1509 | a scan has symbols of a table if and only if the table belongs to one of its components and the procedure needs it, so every table made has a count |
| HuffmanPasses.RunPass | src/libjpeg/jchuff.c:1012-1061 | a pass of the encoder sends all items of the scan, and fails only for a coefficient out of range or a symbol without a word |
| HuffmanPasses.MakeTables | src/libjpeg/jchuff.c:1465-1509 | each table of the scan is made once, from at least one count, and has a word for every symbol counted |
| HuffmanPasses.GatherScan | src/libjpeg/jchuff.c:1105-1113 | the gathering pass, by the trial encoder of sequential scans or by the progressive encoder, counts exactly the symbols of the items an output pass sends |
| HuffmanPasses.EncodeOptimized | src/libjpeg/jchuff.c:912-1509 | with tables made from the counts of the gathering pass the output pass never lacks a word, and the bytes hold exactly the items counted, segment by segment, in prefix-free codes (so that the decoder reads them back) |
| HuffmanSchedule.GatheredHaveSymbols | src/libjpeg/jcmaster.c:509-541 | the scans that have a gathering pass are exactly those that send a symbol of some table |
| ContextRing.CreateContextBuffer | src/libjpeg/jcprepct.c:271-309 | the five groups of pointers wrap around the three groups of rows |
| ContextRing.Prep.PreProcess | src/libjpeg/jcprepct.c:199-263 | for any split of the input each row group is downsampled once, in order, from the image rows around it with row numbers clamped to the image; the call returns early only when it wants input or output is full |
| DerEncoding.EncodeTag | src/libDER/DER_Encode.c:39-70 | a tag is written exactly if it fits, in the bytes of its short or long form, and nothing around it changes |
| DerEncoding.TagForm | src/libDER/DER_Encode.c:39-70 | class and method lead the first byte; a number below 31 is in it, any other follows to base 128 without leading zeros, all bytes but the last marked |
| DerEncoding.LengthForm | src/libDER/DER_Encode.c:92-120 | a length below 128 is one byte, any other is a count of bytes and then the number without leading zeros |
| DerEncoding.ContentKeeps | src/libDER/DER_Encode.c:203-212 | the content of a signed integer is the same number and reads as positive, one byte longer exactly if the data would read as negative; any other content is the data |
| DerEncoding.EncodeItem | src/libDER/DER_Encode.c:129-164 | an item is written exactly if it fits, with no size check failing after the first |
| DerEncoding.ContentLengthOfSequence | src/libDER/DER_Encode.c:166-217 | the length figured beforehand is the length of the fields written |
| DerEncoding.EncodeSequence | src/libDER/DER_Encode.c:219-323 | encoding succeeds exactly if the sequence fits, writes exactly the length figured, and no inner size check fails |
| DerDecoding.DecodeItem | src/libDER/DER_Decode.c:63-144 | any bytes are decoded to header and content within the input, or refused, as the reading of digits and lengths says |
| DerDecoding.ItemRoundTrip | src/libDER/DER_Decode.c:63-144 | every tag and every content come back, whatever follows |
| DerDecoding.ParseSequenceContent | src/libDER/DER_Decode.c:303-432 | the parser fills the fields, or fails, as matching the items against the table from the left says |
| DerDecoding.SequenceRoundTrip | src/libDER/DER_Decode.c:281-432 | every field of an encoded sequence is recovered if no item left out matches the tag of the next one present: signed integers as the same number kept positive, other data as they were, whole items of any tag included |
| DerDecoding.SequenceExact | src/libDER/DER_Decode.c:345-430 | and, when no item is skipped, only if |
| ShellPaths.NormalizePath | userland/shell.c:111-158 | the loop over characters gives the normal form of the resolved path, and the output buffer is never too small |
| ShellPaths.ResolveSteps | userland/shell.c:111-158 | an empty part or a dot changes nothing, two dots take the last component away, a name is added unless there are 64 |
| ShellPaths.NormalForm | userland/shell.c:111-158 | resolving a normal form changes nothing |
| ShellPaths.ResolveValid | userland/shell.c:111-158 | whatever the input, the result has at most 64 components, none empty, "." or "..", none with a slash |
| ShellPaths.DevIsFirst | userland/shell.c:101-105 | the test on the string's prefix is a test on the first component |
| ShellTree.AddNode | userland/shell.c:60-80 | a node put first among a directory's children leaves a tree in which every path leads to one node |
| ShellTree.RemoveNode | userland/shell.c:561-586 | a childless node taken out of its chain leaves the tree of the other paths |
| ShellVfs.Vfs.FindChild | userland/shell.c:89-98 | walking the chain finds the node at the path one name further, or null if there is none |
| ShellVfs.Vfs.Walk | userland/shell.c:165-206 | splitting a path in normal form and walking down gives the node at that path, or the one above it with the last name |
| ShellVfs.Vfs.Lookup | userland/shell.c:208-212 | a node is found exactly where the map has an entry, and it holds that entry |
| ShellVfs.Vfs.NodeAlloc | userland/shell.c:60-80 | a node is added to pool, tree and map, unless the pool is used up |
| ShellVfs.Vfs.Store | userland/shell.c:481-490 | new contents go to storage of their own; every other file keeps its text; without storage nothing changes |
| ShellVfs.Vfs.Unlink | userland/shell.c:570-586 | the search for the sibling before finds it, and only its link changes |
| ShellVfs.Vfs.MkDir | userland/shell.c:492-526 | mkdir does to the map, the node count and the storage index what the command says, with the same outcome |
| ShellVfs.Vfs.Rm | userland/shell.c:528-587 | so does rm |
| ShellVfs.Vfs.Echo | userland/shell.c:412-490 | so does an echo with the words before the first ">" |
| ShellVfs.Vfs.Cd | userland/shell.c:313-341 | so does cd, which moves only to directories there are |
| ShellVfs.Vfs.Cat | userland/shell.c:377-409 | cat gives, for each of its paths, the text of the file the map has there, or says what it found instead |
| ShellVfs.Vfs.Enters | userland/shell.c:617-694 | over any run of commands the shell's state is that of the map |
| ShellVfs.Vfs.Structure | userland/shell.c:48-80 | between any two commands parent links are consistent, no two siblings share a name, the root has no child dev, and storage ranges are disjoint and below the arena's index |
| ShellCommands.PlayKeeps | userland/shell.c:33-80 | over every session entries stand in directories under names that fit, entries never outnumber nodes, and neither pool nor arena is overrun |
| ShellCommands.FromStart | userland/shell.c:82-87 | so it is from the start of the shell on |
| ShellCommands.FoldersAbove | userland/shell.c:165-206 | everything above an entry is a directory |
| ShellCommands.ResolvedRelative | userland/shell.c:111-158 | as far as the buffer reaches, a relative name stands for the entry in the working directory, and two dots for the directory above |
| ShellCommands.ThereAndBack | userland/shell.c:310-332 | cd enters exactly the directories there are, and two dots lead back |
| ShellCommands.MadeIsEntered | userland/shell.c:492-526 | mkdir succeeds exactly where there is a directory, nothing of that name and a node left, and what it makes is entered by cd |
| ShellCommands.RemovedIsGone | userland/shell.c:545-586 | rm takes an entry away, and nothing else, exactly when no entry lies below it, and so always does a file |
| ShellCommands.WrittenAndRemoved | userland/shell.c:412-586 | what an echo made is removed without a trace but for its node and its storage |
| ShellCommands.EntryKept | userland/shell.c:412-587 | over any session an entry stays as it is, or missing, as long as each line is about another one or fails (an echo without storage spares a file that exists) |
| ShellCommands.MadeAndRemoved | userland/shell.c:561-587 | a directory made and removed leaves the files as they were and one node fewer to take |
| ShellCommands.WrittenIsRead | userland/shell.c:412-490 | what an echo wrote is read back under the same path exactly if its last name is shorter than 64 characters |
| ShellCommands.LongNameLost | userland/shell.c:60-68 | a valid name of 64 characters under the root is written and not read back |
| ShellCommands.LineFits | userland/shell.c:441-449 | words that fit in the line buffer are written in full |

Where the code and a comment differ, the code is followed: `normalize_path` cuts names only through the buffer, and `node_alloc` cuts them to 63 characters, so a longer last name is stored short and not found again under the path it was given by (`ShellCommands.WrittenIsRead`).

## Left out

- CodingInterval.DecodeReadsCode: speaks of the exact interval; that the registers c, a and ct follow it is ArithDecoder.Decoder.Decode.
- BlockPadding.PerScanSetup: does not turn `restart_in_rows` into a restart interval (jcmaster.c:461-466), which is given; that a scan has a component at all is required.
- Geometry.InitialSetup: omits the DCT-scaled and down-sampled sizes (jcmaster.c:106-163), which only the DCT and the down-sampler use.
- HuffmanEncoder.Encoder.EncodeMcu: suspension of the output in the middle of an MCU is not modelled.
- ImageReconstruction.ScansExact: ends at the first scan in which the decoder gives up on a segment; how later scans fare with the statistics it leaves is not modelled.
- ShellVfs.Vfs.Cat: the contents of a device are for the kernel to give.
- ShellVfs.Vfs.Echo: what is printed to the console when there is no ">" is not modelled.
- Widths of the counters for stacked 0xFF and zero bytes (`sc`, `zc`), and of `last_dc_val` on corrupt data: unbounded here.
- The decoder's error mark `ct = -1` is a flag of its own; that nothing is read until the next restart is kept.
- The table of natural order is any order of 64 places that keeps DC first; the Huffman side takes blocks already in that order.
- Statistics areas are maps with zero for absent bins; clearing an area removes its keys.
- Virtual arrays are maps from places to blocks; which rows are in memory is not modelled.
- The three coefficient controllers share one loop over rows, columns and suspension, which is the same text in each; building the MCU is separate.
- Frame and scan headers (jcmarker.c) are given bytes that begin with a marker; that the decoder understands them is assumed by giving it the same parameters. Reading them (jdmarker.c, apart from restarts) is not part of this model.
- The forward DCT, colour conversion and down-sampling are abstract: blocks and rows are given.
- The bit writer's way to empty a full output buffer (`dump_buffer`) and the restoring of its saved state.
- Tables with 255 or 256 distinct symbols, where eight-bit counts of `jpeg_gen_optimal_table` could wrap; a coded scan has at most 176.
- The standard Huffman tables, checks of table numbers, and sending of table markers.
- HuffmanReading: functions on blocks and bit strings where jdhuff.c updates arrays and a bit buffer; look-ahead tables, suspension, and scaled decoding (coefficient limits) are not modelled.
- HuffmanReading.DecodeBlock: gives up where bits or code words are missing; the zero bits and the zero symbol that the decoder then supplies, with a warning, are not modelled.
- HuffmanFile.DecodeFile: recovery from a wrong restart marker is left to ArithDecoder.Decoder.ResyncToRestart, which is the same code.
- Pre-processing without context rows (`pre_process_data`) and the main buffer (`jcmainct.c`): plain copies with one index each.
- Padding of the down-sampled output to a full iMCU row.
- Sizes beyond the 64 bits of DERSize, bit strings, integers and booleans on their own, and SET OF and SEQUENCE OF parsing (disabled in the source).
- Descriptions by offset into a structure: fields are given in table order.
- Splitting a line into words, `ls`, `pwd`, `mount` and `uname`, and all calls into the kernel; what the kernel says of a device directory is a parameter of cd.
