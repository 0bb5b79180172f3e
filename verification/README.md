# Verified models of the miner firmware's hard parts

This Dafny project models the parts of the firmware whose correctness is not visible from one
function body, and proves what they are there for. Code that changes buffers, objects or counters
step by step is modelled by methods with the same loops and branches, each proved against a
specification function or a stated property; lemmas then say what that means for whole runs and
across functions. `dafny verify dfyconfig.toml` checks everything.

- **QR encoder** (`GaloisField`, `ReedSolomon`, `QrTables` ... `QrEncode`): arithmetic of
  GF(2^8)/0x11D, Reed-Solomon division in place, block interleaving, the packed grid, zigzag
  placement, function modules, format bits and mask choice, following sections 7.4 to 7.9 of
  ISO/IEC 18004:2015. The main theorem is `QrEncode.EncodeSegmentsAdvanced`: the finished symbol,
  unmasked by its own format bits, read in zigzag order and de-interleaved, gives the bits that were
  to be encoded, and every block of it is a codeword.
- **Cluster** (`ClusterText`, `ClusterProtocol`, `MiningUtils`, `ClusterRegistry`, `ClusterRegistryRuns`,
  `ClusterJobMap`, `ClusterWork`, `MerkleTree`, `ClusterMaster`, `ClusterSlave`, `ClusterRuns`,
  `ClusterSlaveRuns`): messages, registry, division of work, byte order, the way of a share back to
  the work it was found for over whole runs (`ClusterRuns.SubmitOfRun`), and the membership of a slave on both sides
  (`ClusterRegistryRuns.HeldExactlyWhen`, `ClusterSlaveRuns.RegisteredExactlyWhen`).
- **Safety watchdog** (`Watchdog`, `WatchdogRuns`): one check, and claims over all runs of checks.
- **History** (`History`): ring, sliding windows, search by time.
- **Codecs** (`LineFraming`, `Base32`, `SessionTokens`, `Crc16`): line framing, Base32 (RFC 4648
  section 6), session tokens, table-driven CRC-16.

`Arithmetic`, `Numerals`, `BitString` and `Options` hold what is shared.

What comes from outside is a parameter: clock readings, HMAC and SHA-256 as arbitrary functions,
the penalty score of a QR grid as an arbitrary function below `LONG_MAX`, results of `recv`, and
whether a radio message could be sent. Hashrates are natural numbers in the stored fixed-point form,
temperatures and voltages of the watchdog are reals, share difficulty is counted in tenths. Integer
widths are written out where values wrap, saturate or are cut (32-bit accumulator and times of the
tokens, job ids, ages, `strtoul`); the counters of samples, mappings and throttlings are unbounded.

## Where code and documentation differ

The models follow the code.

- `main/cluster/cluster_watchdog.h` describes thresholds of 4.9 V and 5.1 V; the code uses 4.75 V and 4.9 V.
- The pool difficulty of a work message is documented as optional with default 0. When it is
  missing, the tokenizer hands out the checksum behind the star instead
  (`ClusterProtocol.OldWorkMessage`; `ClusterProtocol.OldMessageMisread` is such a message).
- The recovery target follows max(floor, f0 - 50(k - 1)) except in a first episode that begins below
  the floor (`WatchdogRuns.TargetFormula`; `WatchdogRuns.FirstTargetBelowFloor` is such a run).
- The level loop of the QR encoder begins at medium and may pass through a level lower than the one
  asked for, but always ends at or above it (`QrEncode.BoostLevel`).
- With an extranonce2 of fewer than four bytes the low digits of the id are cut off and two slaves
  can be given the same string (`ClusterWork.ShortExtranonce2Collides`); for every length
  `ClusterWork.Extranonce2SameExactlyWhen` says when that happens.
- A share can be submitted for another pool job than it was found for: ids are base + worker +
  8 * tick, and the job map is searched from its beginning. Pool jobs with consecutive numbers, given
  to two slaves in the same tick, are confused (`ClusterRuns.ConsecutiveJobsAreConfused`, for instance
  `ClusterRuns.JobsOneAndTwo`); `ClusterRuns.SubmitOfRun` says exactly when the right thing is submitted.
- A work message with the largest field values is longer than the 250-byte buffer; it is then not
  sent, although its mapping has been stored (`ClusterMaster.Master.SendWork`;
  `ClusterMaster.LongWorkIsNotSent` is such work).

## Model

| member | source | states |
|---|---|---|
| GaloisField.Multiply | main/otp/qrcodegen.cpp:405-413 | The eight doubling steps compute the field product that all laws below speak of |
| GaloisField.MulIsReducedProduct | main/otp/qrcodegen.cpp:403-405 | The product is the carry-less product of the two polynomials reduced modulo 0x11D: they differ by a polynomial multiple of 0x11D, with a quotient of low degree |
| GaloisField.MulAddLeft | main/otp/qrcodegen.cpp:403-413 | Multiplication distributes over addition in the first argument, for all bytes |
| GaloisField.MulAddRight | main/otp/qrcodegen.cpp:403-413 | The same in the second argument |
| GaloisField.MulComm | main/otp/qrcodegen.cpp:403-413 | Multiplication commutes |
| GaloisField.MulAssoc | main/otp/qrcodegen.cpp:403-413 | Multiplication is associative |
| GaloisField.ZeroProduct | main/otp/qrcodegen.cpp:403-413 | There are no zero divisors, so 0x11D makes bytes a field |
| GaloisField.OrderIs255 | main/otp/qrcodegen.cpp:370-380 | No power of 2 with exponent 1..254 is 1, so the root runs through different values |
| GaloisField.PowersDistinct | main/otp/qrcodegen.cpp:370-380 | The roots 2^0 .. 2^254 are pairwise different |
| ReedSolomon.ComputeDivisor | main/otp/qrcodegen.cpp:361-381 | In place, the loops build the product of (x - 2^i) for all i below the degree, without its leading 1, and touch nothing else |
| ReedSolomon.GeneratorVanishes | main/otp/qrcodegen.cpp:361-381 | That polynomial is zero at each of 2^0 .. 2^(degree-1) |
| ReedSolomon.ComputeRemainder | main/otp/qrcodegen.cpp:387-398 | In place, also when result lies in the array that holds the data, the loop leaves the remainder of the division and changes nothing else |
| ReedSolomon.CodewordIsMultiple | main/otp/qrcodegen.cpp:387-398 | Data followed by the remainder equals quotient times divisor at every point of the field |
| ReedSolomon.EccMakesCodeword | main/otp/qrcodegen.cpp:361-398 | Data of any length followed by its error correction bytes vanishes at 2^0 .. 2^(degree-1) |
| ReedSolomon.MinimumDistance | main/otp/qrcodegen.cpp:361-398 | Two different codewords of at most 255 bytes differ in more than degree places |
| ReedSolomon.EccIsUnique | main/otp/qrcodegen.cpp:387-398 | In blocks of at most 255 bytes, the program's bytes are the only ones that complete the data to a codeword |
| ReedSolomon.UniqueCorrection | main/otp/qrcodegen.cpp:290-325 | Up to degree/2 wrong bytes in a block leave exactly one codeword within reach |
| QrTables.EveryEntryFits | main/otp/qrcodegen.cpp:100-119 | All 160 table entries give blocks of at least one data byte and at most 254 bytes in all, with at most 30 error correction bytes |
| QrBlocks.LayoutOf | main/otp/qrcodegen.cpp:300-305 | The division into short and long blocks adds up to exactly the data and raw codewords of the symbol |
| QrBlocks.DataPlaceFacts | main/otp/qrcodegen.cpp:316-320 | Byte j of block i is written to a place from which i and j can be computed back, inside the data part |
| QrBlocks.EccPlaceFacts | main/otp/qrcodegen.cpp:321-322 | The same for error correction bytes, behind the data part |
| QrBlocks.PlaceOfBlockAt | main/otp/qrcodegen.cpp:312-324 | Conversely every place of the result is the place of exactly the byte computed from it: interleaving is a bijection |
| QrBlocks.BlocksAreEven | main/otp/qrcodegen.cpp:300-313 | Blocks differ by at most one byte, the short ones first |
| QrBlocks.PlacesInOrder | main/otp/qrcodegen.cpp:314-323 | A byte stands before another exactly if its place in its block is earlier, or the same and its block comes first: interleaving, likewise for error correction |
| QrBlocks.AddEccAndInterleave | main/otp/qrcodegen.cpp:297-325 | Every byte of every block and of its error correction stands at its place, although the work area overlaps the data array |
| QrBlocks.DeinterleaveRestores | main/otp/qrcodegen.cpp:291-325 | Reading the places back in block order returns the data bytes |
| QrBlocks.BlocksAreCodewords | main/otp/qrcodegen.cpp:291-325 | Each block read back is its data followed by its error correction, is a codeword, and has at most 255 bytes |
| QrGrid.GetModule | main/otp/qrcodegen.cpp:772-777 | Reads exactly the cell y * size + x of the bit-packed grid |
| QrGrid.SetModule | main/otp/qrcodegen.cpp:781-791 | Changes exactly that cell; all other cells and the size byte stay |
| QrZigzag.VisitedOnce | main/otp/qrcodegen.cpp:579-602 | Each step of the zigzag visits a cell outside column 6 from which the step can be computed back |
| QrZigzag.EveryCellVisited | main/otp/qrcodegen.cpp:579-602 | Every cell outside column 6 is visited, for every odd size |
| QrZigzag.PathStarts | main/otp/qrcodegen.cpp:583-590 | In symbols of 4 k + 1 modules the scan starts in the lower right corner, so it goes upward there |
| QrZigzag.PathSteps | main/otp/qrcodegen.cpp:583-602 | From the right column of a pair to the left one in the same row; from there to a neighbouring row of the right column, or after 2 n steps to the next pair in the same row, over column 6 |
| QrZigzag.OneScan | main/otp/qrcodegen.cpp:583-602 | Every path that starts there, goes on like this and visits no cell twice is the scan of the program: its directions and turns leave no choice |
| QrZigzag.DrawnStep | main/otp/qrcodegen.cpp:589-597 | One visit keeps the invariant although the grid drawn is its own occupancy map: the i-th light module met holds bit i, dark modules and unvisited ones are as before |
| QrZigzag.DrawCodewords | main/otp/qrcodegen.cpp:579-602 | If there is room, the i-th initially light module in zigzag order holds bit i of the data, the rest stay light, initially dark modules are unchanged |
| QrFunctions.GetAlignmentPatternPositions | main/otp/qrcodegen.cpp:553-562 | The loop from the far end gives 6 and then equally spaced positions ending at the last row but six |
| QrFunctions.AlignPosInside | main/otp/qrcodegen.cpp:553-562 | All alignment patterns lie inside the symbol, clear of the first columns |
| QrPatterns.AlignGaps | main/otp/qrcodegen.cpp:553-562 | In all versions neighbouring positions are 12 to 28 modules apart, and all but the first two equally far |
| QrFunctions.FillRectangle | main/otp/qrcodegen.cpp:566-571 | Darkens exactly the cells of the rectangle |
| QrFunctions.InitializeFunctionModules | main/otp/qrcodegen.cpp:421-452 | The buffer becomes the grid of function modules of the version, whatever it held |
| QrFunctions.FunctionGridMeans | main/otp/qrcodegen.cpp:421-452 | A cell of that grid is dark exactly if it lies in a timing, finder, format, alignment or version area |
| QrFunctions.EnoughLightModules | main/otp/qrcodegen.cpp:342-353 | For every version the cells that are no function modules number exactly what the closed formula says |
| QrFormat.DrawFormatBits | main/otp/qrcodegen.cpp:519-546 | Draws both copies of the format word and the dark module, and nothing else |
| QrFormat.FormatReadBack | main/otp/qrcodegen.cpp:519-546 | Level and mask read from the drawn first copy are those drawn |
| QrFormat.BothCopiesDrawn | main/otp/qrcodegen.cpp:519-546 | All 15 bits of the format word stand in both copies, and the dark module is dark |
| QrFormat.FormatWordsAreFarApart | main/otp/qrcodegen.cpp:520-528 | The words of any two levels or masks differ in at least seven of fifteen bits, so that three damaged ones do no harm |
| QrFormat.FormatExample | main/otp/qrcodegen.cpp:520-528 | The example of the standard, level M with mask 5, gives the word of the standard |
| QrFormat.FormatOverFormat | main/otp/qrcodegen.cpp:518-519 | Drawing other format bits over old ones leaves no trace of the old ones |
| QrFormat.FormatIsFunction | main/otp/qrcodegen.cpp:430-436 | All format cells are function modules |
| QrLight.DrawLightFunctionModules | main/otp/qrcodegen.cpp:458-513 | Every cell has its finished colour: timing, finders, alignment patterns and version blocks as functions of the position alone |
| QrLight.FinishedOutsideFunctions | main/otp/qrcodegen.cpp:455-458 | Cells outside the function modules keep their colour |
| QrPatterns.FinderColors | main/otp/qrcodegen.cpp:466-478 | In every version the rings around the three finder centers are dark, dark, light, dark, light |
| QrPatterns.TimingColors | main/otp/qrcodegen.cpp:459-464 | Between the finders row 6 and column 6 alternate from dark at 8, also where alignment patterns lie on them |
| QrPatterns.AlignmentColors | main/otp/qrcodegen.cpp:480-492 | The rings around every alignment center are dark, light, dark, whatever other patterns are near |
| QrPatterns.VersionBlocks | main/otp/qrcodegen.cpp:494-512 | From version 7 on both blocks show bit 3 i + j of the version word in row i, column j and the other way round |
| QrPatterns.VersionWordsAreFarApart | main/otp/qrcodegen.cpp:497-501 | The high six bits of a version word are the version, and the words of two versions differ in at least eight of eighteen bits |
| QrPatterns.VersionExample | main/otp/qrcodegen.cpp:497-501 | The example of the standard, version 7, gives the word of the standard |
| QrMask.ApplyMask | main/otp/qrcodegen.cpp:610-633 | Inverts exactly the non-function cells selected by the mask |
| QrMask.MaskTwice | main/otp/qrcodegen.cpp:605-610 | Masking twice restores the grid bit for bit |
| QrMask.MaskPatterns | main/otp/qrcodegen.cpp:618-625 | What each of the eight masks selects, by remainders of the coordinates and of their product modulo 2, 3, 4 and 6 |
| QrMask.TrialUndone | main/otp/qrcodegen.cpp:271-281 | Unmasking after a trial restores everything but the format bits |
| QrMask.TrialIgnoresFormat | main/otp/qrcodegen.cpp:269-285 | A trial does not depend on format bits left from earlier trials |
| QrMask.MaskAndFormat | main/otp/qrcodegen.cpp:268-285 | The result is the trial grid of the given mask, or of the first mask of least penalty among all eight |
| QrSegments.FromToBits | main/otp/qrcodegen.cpp:186-192 | Bits written for a number are read back as the number |
| QrSegments.AppendBitsToBuffer | main/otp/qrcodegen.cpp:188-192 | The bit string held by the buffer is extended by the bits of the value, the rest stays zero |
| QrSegments.GetTotalBits | main/otp/qrcodegen.cpp:990-1008 | The length of the message, or overflow exactly if a count field or the total is too small |
| QrSegments.AppendMessage | main/otp/qrcodegen.cpp:235-244 | The buffer holds mode, count and data of all segments, also when segments lie in the work buffer |
| QrSegments.AppendPadding | main/otp/qrcodegen.cpp:247-259 | Up to four zero bits, zeros to a whole byte, then 0xEC and 0x11 in turn fill the capacity |
| QrSegments.PaddingBits | main/otp/qrcodegen.cpp:247-259 | Every single bit behind the message: light up to a whole byte behind at most four, then the bits of 0xEC and 0x11 in turn |
| QrReader.LightModulesMet | main/otp/qrcodegen.cpp:579-602 | Reading in zigzag order meets every light cell outside column 6 |
| QrReader.RoomForCodewords | main/otp/qrcodegen.cpp:263-264 | For all 40 versions the zigzag meets room for all codewords, so the drawing never runs short |
| QrReader.UnmaskedModules | main/otp/qrcodegen.cpp:264-285 | Unmasking the finished grid gives back the modules as they were drawn before function modules, masks and format bits |
| QrReader.DecodesDrawn | main/otp/qrcodegen.cpp:262-285 | A finished grid reads back: format word in both copies, dark module, codewords, blocks, data bits, and the other function modules |
| QrEncode.ChooseVersion | main/otp/qrcodegen.cpp:213-225 | The first version of the range that has room, or failure exactly if none has |
| QrEncode.BoostLevel | main/otp/qrcodegen.cpp:227-231 | The level becomes the highest one that still fits and never drops below the one asked for, although the loop starts at medium |
| QrEncode.WriteData | main/otp/qrcodegen.cpp:233-259 | The cleared buffer holds message, terminator and padding |
| QrEncode.DrawSymbol | main/otp/qrcodegen.cpp:261-285 | The grid decodes, by its own format bits, to the bytes the buffer held, and the mask is as chosen |
| QrEncode.EncodeSegmentsAdvanced | main/otp/qrcodegen.cpp:207-287 | Success exactly if some version fits; then the symbol of the smallest version reads back as the segments' bits, terminator and padding, with every block a codeword; on failure the size byte is 0 |
| QrEncode.ByteMessageReadBack | main/otp/qrcodegen.cpp:170-184 | A reader of a byte segment's header and data gets the bytes |
| QrEncode.EncodeBinary | main/otp/qrcodegen.cpp:170-184 | A byte string is encoded exactly if it fits some version, and is then read back from the symbol, although it lay in the work buffer |
| Crc16.TableIsRight | components/bm1397/crc.cpp:57-73 | Each of the 256 table entries is the register after eight shifts of its index |
| Crc16.TableStepIs | components/bm1397/crc.cpp:92-94 | One table step equals eight steps of bit-serial division |
| Crc16.Crc16False | components/bm1397/crc.cpp:88-97 | For every message the table-driven CRC equals bit-serial division by x^16+x^12+x^5+1 from 0xFFFF |
| Crc16.CheckValue | components/bm1397/crc.cpp:88-97 | The CRC of the digits 1 to 9 is 0x29B1, by which the variant with this polynomial and initial value is known |
| Crc16.Residue | components/bm1397/crc.cpp:88-97 | Message and CRC together leave residue 0, and no other two trailing bytes do |
| Crc16.BurstsAreDetected | components/bm1397/crc.cpp:88-97 | Two messages of equal length that differ only within 16 consecutive bits have different CRCs |
| Base32.EncodeBase32 | main/otp/otp.cpp:84-102 | Despite the wrapping 32-bit accumulator the text is the byte string as one number, padded with zero bits, in base 32 |
| Base32.DecodeBase32 | main/otp/otp.cpp:54-81 | The bytes are the number behind the characters of the alphabet in base 256, surplus bits dropped; 0 exactly if they do not fit |
| Base32.RoundTrip | main/otp/otp.cpp:54-102 | Decoding an encoding returns the original bytes, for every byte string |
| Base32.KnownText | main/otp/otp.cpp:84-102 | The vector of RFC 4648 for "foo" |
| SessionTokens.UnpackPacked | main/otp/otp.cpp:24-32 | The packed payload is read back field by field |
| SessionTokens.Otp.MintSessionToken | main/otp/otp.cpp:176-211 | A token is payload, dot and signature; none without key, lifetime or HMAC |
| SessionTokens.Otp.VerifySessionToken | main/otp/otp.cpp:213-261 | Accepts exactly the tokens with a 12-byte payload signed under the key, unexpired, not from the far future, of this boot id |
| SessionTokens.MintedTokenAccepted | main/otp/otp.cpp:176-261 | When a minted payload with any signature is accepted, also when clock and expiry overflow 32 bits |
| SessionTokens.AcceptedExactlyWhen | main/otp/otp.cpp:213-261 | For all byte strings: the token made of two of them is accepted exactly if the second is the HMAC of the text of the first, and the first is a current payload of twelve bytes |
| SessionTokens.OneSignature | main/otp/otp.cpp:238-246 | Two accepted tokens with the same text before the dot have the same signature |
| SessionTokens.TokenLifetime | main/otp/otp.cpp:176-261 | Without overflow a token minted at t with lifetime T is accepted at exactly the times s with s < t + T and t <= s + 300 |
| SessionTokens.OldTokensRejected | main/otp/otp.cpp:257-258 | After the boot id has changed no old token is accepted, whatever the key |
| LineFraming.StratumApi.FindNewline | main/stratum/stratum_api.cpp:98 | The first newline of the content that no NUL hides, or none |
| LineFraming.StratumApi.TakeLine | main/stratum/stratum_api.cpp:99-132 | Returns the line without one trailing CR and moves the rest to the front |
| LineFraming.StratumApi.ReceiveJsonRpcLine | main/stratum/stratum_api.cpp:90-175 | What one call returns and what stays unread depend only on the unread bytes, not on how they arrive; at the end of the connection the buffer is empty |
| LineFraming.ReceiveAll | main/stratum/stratum_task.cpp:200-261 | For every stream, however it arrives: the receive loop dispatches exactly the lines before the first that does not fit into the buffer, up to the first round in which the transport is found dead or the line is not gone on with, and what stays unread is what follows; at an over-long line what the buffer held is lost |
| LineFraming.AllLinesExactlyWhen | main/stratum/stratum_task.cpp:210-239 | All lines of the stream are dispatched exactly if each fits into the buffer and every round gets through |
| LineFraming.CuttingLosesNothing | main/stratum/stratum_api.cpp:97-132 | The lines joined with newlines, and the tail, are the stream: nothing lost, repeated or reordered |
| LineFraming.SentLinesAreDispatched | main/stratum/stratum_api.cpp:97-132 | Whatever lines are sent, each ended by a newline with or without a carriage return, exactly these lines are dispatched, and the beginning of the next one waits |
| LineFraming.EveryNewlineCuts | main/stratum/stratum_api.cpp:97-99 | In a stream without NULs every newline ends a line |
| LineFraming.PiecesArrive | main/stratum/stratum_api.cpp:136-173 | Every cutting of a stream into pieces, with any waiting in between, arrives as that stream |
| LineFraming.LineIsReturnedExactlyWhen | main/stratum/stratum_api.cpp:95-133 | A call returns a line exactly if a newline stands among the first 16383 unread bytes with no NUL before it |
| History.Ring.Store | main/history.cpp:269-276 | The ring holds the newest 32768 of all samples ever pushed |
| History.HistoryAvg.Update | main/history.cpp:199-255 | Keeps the window equal to the samples younger than the timespan |
| History.History.Push | main/history.cpp:257-287 | Stores the sample and keeps all four windows |
| History.WindowBefore | main/history.cpp:218-226 | No sample that a window still has to subtract has been overwritten in the ring |
| History.WindowIsExact | main/history.cpp:201-226 | After every push sum, count and range of each window equal those recomputed from scratch over exactly the younger samples |
| History.SpacingIsEnough | main/history.h:8-15 | Samples at least d apart with timespan <= (ring size - 1) * d never outgrow the ring |
| History.WindowsNeverOutgrowTheRing | main/history.cpp:151-156 | For the four windows 2637 ms between samples are enough |
| History.History.SearchNearestTimestamp | main/history.cpp:312-350 | Terminates; -1 exactly if empty, never an overwritten index; for ascending times a match if there is one, else a neighbour of the insertion point |
| History.PathLower | main/history.cpp:331-333 | Going left in a full ring keeps the range at 2^k - 1 elements, so it never becomes empty there |
| Watchdog.Device.CheckMaster | main/cluster/cluster_watchdog.cpp:183-245 | One check changes the device exactly as the step function does |
| Watchdog.Device.ThrottleMaster | main/cluster/cluster_watchdog.cpp:247-276 | One step down, not below the floor |
| Watchdog.Device.RecoverMaster | main/cluster/cluster_watchdog.cpp:278-325 | Waits, finishes the episode, or steps up |
| Watchdog.Device.CheckSlave | main/cluster/cluster_watchdog.cpp:331-403 | The same step for a slave, whose values change only when the message could be sent, and which messages go out; an inactive slot forgets its episode |
| Watchdog.ClusterWatchdog.Round | main/cluster/cluster_watchdog.cpp:151-177 | A round steps every device once, in slot order, and counts the throttled ones |
| WatchdogRuns.TargetsOverRun | main/cluster/cluster_watchdog.cpp:333-387 | Invariant of every run, of the master or of a slot whose slave comes and goes, that ties the recovery target to the number of episodes begun since one was interrupted |
| WatchdogRuns.TargetOfEpisode | main/cluster/cluster_watchdog.cpp:204-225 | In the k-th episode since the last interruption the target is the starting point of the first, less 50 for each earlier one, not below 400 MHz and 1100 mV (in the first just the starting point) |
| WatchdogRuns.TargetFormula | main/cluster/cluster_watchdog.cpp:208-221 | max(floor, f0 - 50(k-1)) is that target exactly if k >= 2 or f0 is not below the floor |
| WatchdogRuns.FirstTargetBelowFloor | main/cluster/cluster_watchdog.cpp:216-221 | A run of one check that starts at 300 MHz and 1000 mV, for which the closed formula with the floor fails |
| WatchdogRuns.NoEpisodeUntilUnsafe | main/cluster/cluster_watchdog.cpp:333-372 | The first episode after an interruption, or at all, begins with the first unsafe check since then |
| WatchdogRuns.TargetOfRun | main/cluster/cluster_watchdog.cpp:204-225 | In every run the target of an episode is settled by the readings of the first unsafe check since the last interruption and by the number of episodes since |
| WatchdogRuns.TrackedValuesBounded | main/cluster/cluster_watchdog.cpp:247-299 | Whatever slots become active or inactive and whichever messages are lost, during an episode that began at or above the floor the value stays between the floor and the larger of starting point and target |
| WatchdogRuns.ThrottledValues | main/cluster/cluster_watchdog.cpp:247-276 | Unsafe checks in a row after any run: the values are those before the first, less 50 for every check that reached the device, down to 400 MHz and 1100 mV; what is below stays |
| WatchdogRuns.ThrottledToTheFloors | main/cluster/cluster_watchdog.cpp:247-276 | If each reaches the device, its values after k checks are max(400, f - 50 k) and max(1100, v - 50 k), and they are at the floors exactly if 50 k is at least both distances |
| WatchdogRuns.OnlyTroubleThrottles | main/cluster/cluster_watchdog.cpp:192-225 | A check below 68.0 degrees with an input voltage of at most 0 or above 4.75 begins no episode and lowers no value |
| WatchdogRuns.ThrottlingIsRecorded | main/cluster/cluster_watchdog.cpp:270-275 | An unsafe check is counted, with its reasons and time, exactly if it begins an episode or finds a value above its floor |
| WatchdogRuns.ChangesAreSent | main/cluster/cluster_watchdog.cpp:405-445 | A slave check that changes a value sends exactly one message, with the new values and the id of the slave, which are taken over exactly if it could be sent; no other check sends any |
| WatchdogRuns.UpwardStepIsLate | main/cluster/cluster_watchdog.cpp:226-244 | Every upward step ends at least 30 s of checks that were all safe, and does not pass the target |
| WatchdogRuns.StepsAreApart | main/cluster/cluster_watchdog.cpp:278-325 | Two upward steps of one episode are at least 10 s apart |
| WatchdogRuns.EpisodeEndsInTime | main/cluster/cluster_watchdog.cpp:226-325 | With safe checks every 5 s that read the clock once, an episode with n steps to go ends exactly 30 s + 10 s * n after the first of them |
| WatchdogRuns.EpisodeEnds | main/cluster/cluster_watchdog.cpp:226-325 | With safe checks 5 s to 5 s + d apart, of which every p-th can step, the episode ends, not before 30 s + 10 s * n and in check 6 + p * n at the latest, and stays ended |
| WatchdogRuns.EpisodeEndsInRun | main/cluster/cluster_watchdog.cpp:226-325 | The same of any run that leaves a device throttled, followed by safe checks: it stays throttled up to that check and not after it |
| WatchdogRuns.EpisodeEndsSoon | main/cluster/cluster_watchdog.cpp:226-325 | Whatever the two clock readings of a check, the end comes between 30 s + 10 s * n and (5 s + d) * (6 + 3 * n) after the first safe check |
| WatchdogRuns.MasterLikeSlave | main/cluster/cluster_watchdog.cpp:183-245 | The master is watched like a slave that is always active and always reached, so all run lemmas hold of it |
| ClusterText.ReadDecimal | main/cluster/cluster_protocol.cpp:126-142 | Printed decimal numbers are read back, by both readers |
| ClusterText.HexRoundTrip | main/cluster/cluster_protocol.cpp:13-34 | Bytes printed in hexadecimal are read back into the front of a buffer, also none at all |
| ClusterText.HexToBytes | main/cluster/cluster_protocol.cpp:22-34 | What is left in the buffer and returned for every text: odd, too long, partly unreadable, with blanks or signs where digits are expected |
| ClusterText.TenthsRoundTrip | main/cluster/cluster_protocol.cpp:150-170 | A difficulty printed with one decimal is read back |
| ClusterText.Tokenizer.NextToken | main/cluster/cluster_protocol.cpp:90-111 | Each call cuts off the next field in place and keeps the rest; an empty field is a field |
| ClusterProtocol.ChecksumOf | main/cluster/cluster_protocol.cpp:37-54 | The exclusive or of the characters between dollar and star |
| ClusterProtocol.VerifyChecksum | main/cluster/cluster_protocol.cpp:57-77 | True exactly if what is scanned behind the first star is the checksum as a byte |
| ClusterProtocol.ChecksumIsXor | main/cluster/cluster_protocol.cpp:37-54 | Of a message that begins with a dollar the checksum is the exclusive or of all other characters up to the star |
| ClusterProtocol.PassesExactlyWhen | main/cluster/cluster_protocol.cpp:57-77 | A text with two digits behind its star passes exactly if they are those of its checksum |
| ClusterProtocol.DamagedCharacter | main/cluster/cluster_protocol.cpp:37-77 | A sealed message in which one character between dollar and star has become another byte, no mark, is received neither as work nor as a share |
| ClusterProtocol.DamagedChecksum | main/cluster/cluster_protocol.cpp:57-77 | Nor is one whose two digits behind the star have become those of another value |
| ClusterProtocol.AppendChecksum | main/cluster/cluster_protocol.cpp:80-86 | Appends the seal, or fails exactly if it does not fit |
| ClusterProtocol.FieldsOfJoin | main/cluster/cluster_protocol.cpp:90-111 | Cutting undoes joining; the text behind the star is one more field |
| ClusterProtocol.SealedFields | main/cluster/cluster_protocol.cpp:57-111 | A sealed message that fits passes the check, is not truncated, and is cut into its fields |
| ClusterProtocol.EncodeWork | main/cluster/cluster_protocol.cpp:117-148 | Writes the sealed message, or fails exactly if message and NUL do not fit into the buffer |
| ClusterProtocol.DecodeWork | main/cluster/cluster_protocol.cpp:219-324 | The result for every received text, with optional fields and malformed ones, blanks and signs in front of numbers included |
| ClusterProtocol.ReceivedWorkValidExactlyWhen | main/cluster/cluster_protocol.cpp:219-324 | Whatever text is received as work, it is within the sizes of its fields exactly if the extranonce2 length read is at most eight |
| ClusterProtocol.WorkRoundTrip | main/cluster/cluster_protocol.cpp:117-324 | Every field of a work message that fits in 250 bytes is received as sent, also with an empty extranonce2 |
| ClusterProtocol.OldWorkMessage | main/cluster/cluster_protocol.cpp:305-319 | A message without the last two fields takes its checksum for the pool difficulty; it gets the documented default 0 exactly for certain checksums |
| ClusterProtocol.OldMessageMisread | main/cluster/cluster_protocol.cpp:305-319 | A concrete message without the last two fields, all its fields 0, is received with a pool difficulty other than 0 |
| ClusterProtocol.WorkMessageLength | main/cluster/cluster_protocol.cpp:117-148 | The length of a work message in terms of the digits of its numbers |
| ClusterProtocol.LongWorkDoesNotFit | main/cluster/cluster_protocol.cpp:117-148 | With numbers of ten digits and a full extranonce the message does not fit into 250 bytes |
| ClusterProtocol.EncodeShare | main/cluster/cluster_protocol.cpp:150-170 | Writes the sealed message, or fails exactly if it does not fit |
| ClusterProtocol.DecodeShare | main/cluster/cluster_protocol.cpp:326-399 | The result for every received text |
| ClusterProtocol.ShareRoundTrip | main/cluster/cluster_protocol.cpp:150-399 | Every field of a share message that fits is received as sent |
| MiningUtils.Hex2Bin | components/bm1397/mining_utils.cpp:106-122 | Bytes of the text, a last single digit being a high half, up to the room there is |
| MiningUtils.SwapEndianWordsBin | components/bm1397/mining_utils.cpp:153-176 | Reverses the bytes of every word, by shifts and masks on whole words |
| MiningUtils.SwapEndianWords | components/bm1397/mining_utils.cpp:178-195 | The same from hexadecimal text, byte by byte |
| MiningUtils.ReverseBytes | components/bm1397/mining_utils.cpp:197-204 | Reverses in place |
| MiningUtils.SwapTwice | components/bm1397/mining_utils.cpp:153-176 | Swapping words twice changes nothing |
| MiningUtils.SwapThenReverse | components/bm1397/mining_utils.cpp:153-204 | Swap and reversal together put the words in reverse order, each as it was |
| MiningUtils.BmJob.ConstructBmJob | components/bm1397/mining.cpp:37-57 | Both hashes in both byte orders from a notify and the text of a merkle root |
| ClusterSlave.BuildJob | main/cluster/cluster_slave.cpp:74-123 | The same four fields from received binary, and the other fields of the job |
| ClusterSlave.ReceivedIsMade | main/cluster/cluster_master.cpp:450-488 | Work received from a message that fits is the work the master made, field by field |
| ClusterSlave.SameHeader | main/cluster/cluster_slave.cpp:82-102 | A slave that received its work has the same version, time, target, previous hash and merkle root, in both byte orders, as the master would construct itself |
| ClusterRegistry.Registry.Register | main/cluster/cluster_master.cpp:196-291 | Known address, free slot or full: state and acknowledgement of each case |
| ClusterRegistry.Registry.Heartbeat | main/cluster/cluster_master.cpp:317-361 | Updates the slot with that id, or sends a rejection to an address made a peer first |
| ClusterRegistry.Registry.CheckTimeouts | main/cluster/cluster_master.cpp:363-379 | Frees every slot whose unsigned age is over 15 s and removes its peer |
| ClusterRegistry.CheckedKeeps | main/cluster/cluster_master.cpp:363-379 | Evictions keep every remaining slave a peer, because addresses are distinct |
| ClusterRegistry.AlwaysInv | main/cluster/cluster_master.cpp:196-379 | In every reachable state active slot i has id i + 1, active addresses are distinct, and each is a peer |
| ClusterRegistry.EveryAckIsRight | main/cluster/cluster_master.cpp:196-361 | Each accepted acknowledgement with id k goes to the address that slot k - 1 holds then |
| ClusterRegistry.RegisterAgain | main/cluster/cluster_master.cpp:200-226 | Registering twice gives the same answer and id |
| ClusterRegistry.RejectedOnlyWhenFull | main/cluster/cluster_master.cpp:228-251 | A slave is turned away exactly if all slots are taken by others, and then nothing changes |
| ClusterRegistryRuns.OtherEvent | main/cluster/cluster_master.cpp:196-379 | What any event but its own registration does to a held slot: a timeout check frees it exactly if it is too old, a heartbeat with its id stores telemetry and time, all else leaves it alone |
| ClusterRegistryRuns.OwnRegistration | main/cluster/cluster_master.cpp:200-251 | After its registration an address holds the slot with an id exactly if it was accepted with this id, with its name, address and the time |
| ClusterRegistryRuns.StaleHeartbeatRejected | main/cluster/cluster_master.cpp:317-361 | A heartbeat is answered, with a rejection, exactly if nobody holds its id |
| ClusterRegistryRuns.PeersAfterCheck | main/cluster/cluster_master.cpp:363-379 | A timeout check takes away exactly the peers of those it evicts |
| ClusterRegistryRuns.HeldExactlyWhen | main/cluster/cluster_master.cpp:196-379 | In every run an address holds the slot with an id exactly if that id answered its last registration and every timeout check since came within 15000 ms of this registration or of a heartbeat with the id |
| ClusterWork.RangesCover | main/cluster/cluster_master.cpp:404-408 | For any number of workers the ranges follow one another from 0 to 2^32 - 1, and no product overflows |
| ClusterWork.RangesDisjoint | main/cluster/cluster_master.cpp:469-471 | Ranges of different workers do not meet |
| ClusterWork.EveryNonceHasAWorker | main/cluster/cluster_master.cpp:469-471 | Every nonce lies in the range of exactly one worker |
| ClusterWork.JobIdsDiffer | main/cluster/cluster_master.cpp:422-427 | For one base all ticks below 2^29 and all eight workers get different ids, despite the wrap at 32 bits |
| ClusterWork.Extranonce2IsNumeral | main/cluster/cluster_master.cpp:429-432 | For every length the string has exactly 2 * length digits, those of the id, or of its leading digits where the buffer cuts it |
| ClusterWork.Extranonce2SameExactlyWhen | main/cluster/cluster_master.cpp:429-432 | For every length, two ids print as the same string exactly if their ids, with the digits removed that do not fit, are the same |
| ClusterWork.Extranonce2Differs | main/cluster/cluster_master.cpp:429-432 | From four bytes on nothing is cut: strings are the same exactly if the ids are |
| ClusterWork.WorkIsSplit | main/cluster/cluster_master.cpp:413-432 | So all workers and ticks search different extranonce2 strings of the exact length |
| ClusterWork.ShortExtranonce2Collides | main/cluster/cluster_master.cpp:429-432 | With three bytes two ids can print as the same string |
| ClusterWork.CalculateMerkleRootHash | components/bm1397/mining.cpp:15-34 | The coinbase bytes hashed and joined with the branches in turn, printed in hexadecimal, for any hash function |
| MerkleTree.RootOfBlock | components/bm1397/mining.cpp:22-31 | With the branches of a block, found without its coinbase, the result is the root of the tree over the hashed coinbase and all other transactions |
| ClusterJobMap.JobMap.Store | main/cluster/cluster_master.cpp:79-91 | The ring holds the newest 256 mappings, cut to the field sizes |
| ClusterJobMap.JobMap.Lookup | main/cluster/cluster_master.cpp:94-108 | Finds a live mapping with the id exactly if there is one, and of several the one that stands first in the ring |
| ClusterMaster.Master.NextJobId | main/cluster/cluster_master.cpp:413-427 | The id of the next worker from the pool id as strtoul reads it, with the fallback counter where that gives 0 |
| ClusterMaster.Master.SendWork | main/cluster/cluster_master.cpp:429-498 | Builds, remembers and broadcasts the work of one slave; a message that does not fit is remembered but not sent |
| ClusterMaster.Master.DistributeWork | main/cluster/cluster_master.cpp:381-502 | One mapping and, if it fits, one message for every active slot, in slot order; the fallback counter moves by the number of slaves exactly if the pool id gives 0 |
| ClusterMaster.SlotsGetDifferentWork | main/cluster/cluster_master.cpp:404-471 | Two slaves of one distribution get disjoint nonce ranges and different ids, also from the fallback counter |
| ClusterMaster.BaseIdOfHex | main/cluster/cluster_master.cpp:413-417 | The plain hexadecimal digits of a 32-bit number are read as that number |
| ClusterMaster.LongWorkIsNotSent | main/cluster/cluster_master.cpp:487-493 | Work that can really be distributed, to a single slave, and is not sent because its message does not fit |
| ClusterRuns.Distribute | main/cluster/cluster_master.cpp:381-502 | After any sequence of distributions the mappings stored are those that the sequence determines |
| ClusterRuns.LogAgreesExactlyWhen | main/cluster/cluster_master.cpp:79-108 | The live mappings for an id agree exactly if no two of different pool jobs collide on it, that is base + worker + 8 * tick is the same modulo 2^32 |
| ClusterRuns.SameMappingExactlyWhen | main/cluster/cluster_master.cpp:422-486 | Two mappings for one id agree exactly if they have the same pool job, pool and extranonce2 length |
| ClusterRuns.OneJobPerId | main/cluster/cluster_master.cpp:418-427 | As long as all pool jobs have one non-zero number and a tick below 2^29 is repeated only for the same job, an id leads to one pool job only; if no tick is repeated, no id is given out twice |
| ClusterRuns.OneBaseIsAnswerable | main/cluster/cluster_master.cpp:79-108 | In such a run, also when jobs are sent again, a share can be answered exactly if fewer than 256 mappings were stored since its own |
| ClusterSlave.Slave.OnWork | main/cluster/cluster_slave.cpp:195-225 | Membership, queue and time of the last sign change by the step function of the run lemmas in ClusterSlaveRuns |
| ClusterSlave.Slave.ProcessWork | main/cluster/cluster_slave.cpp:60-65 | Builds a job unless it repeats the last one without being a clean job |
| ClusterSlave.Slave.ForwardShare | main/cluster/cluster_slave.cpp:318-372 | Sends the share three times if registered and it fits |
| ClusterSlave.Extranonce2TextOfBytes | main/cluster/cluster_slave.cpp:117-123 | The extranonce2 text is recovered from the bytes that travel |
| ClusterSlave.SubmitShare | main/cluster/cluster_master.cpp:111-146 | What the pool is told comes from the first live mapping of the ring with the id of the share; nothing is told exactly if there is none |
| ClusterSlave.ShareReceivedIs | main/cluster/cluster_slave.cpp:335-357 | A share received from a message that fits carries the id, time and extranonce2 of the work it was found for |
| ClusterSlave.ShareFindsItsWork | main/cluster/cluster_slave.cpp:335-357 | A share for received work resolves to the pool job, pool and extranonce2 text hashed into the coinbase of that work, while its mapping is in the ring and no live mapping with the same id contradicts it |
| ClusterSlave.RootIsOfBlock | main/cluster/cluster_master.cpp:429-470 | The work a slave receives has the merkle root, time, target and version of the block that the pool puts together from the submission |
| ClusterRuns.ShareOfRun | main/cluster/cluster_master.cpp:111-146 | After any run in which fewer than 256 mappings were stored since and no live one of another pool job collides, every live mapping for the id of a returning share leads to the pool job, pool and extranonce2 hashed into its work |
| ClusterRuns.SubmitOfRun | main/cluster/cluster_master.cpp:111-146 | After any run the program submits the pool job, pool and extranonce2 of the work exactly if, of the mappings in the ring with the same base + worker + 8 * tick modulo 2^32, the one that stands first belongs to the same pool job, and nothing exactly if there is none |
| ClusterRuns.RightExactlyWhen | main/cluster/cluster_master.cpp:94-146 | What a live mapping makes of a returning share is right exactly if it has the same pool job, pool and extranonce2 length as the work |
| ClusterRuns.AnswerableIsRight | main/cluster/cluster_master.cpp:94-108 | An answerable share meets that condition |
| ClusterRuns.ConsecutiveJobsAreConfused | main/cluster/cluster_master.cpp:94-108 | Two pool jobs with consecutive numbers, given to two slaves in the same tick: a share of the first slave for the second job is submitted as one of the first job |
| ClusterRuns.JobsOneAndTwo | main/cluster/cluster_master.cpp:413-427 | The jobs "1" and "2" are such |
| ClusterSlave.Slave.OnAck | main/cluster/cluster_slave.cpp:227-244 | Registration, id and time of the last sign change at an acknowledgement by the step function of the same lemmas |
| ClusterSlave.Slave.TakeWork | main/cluster/cluster_slave.cpp:54-58 | The oldest work leaves the queue, by the step function of the same lemmas |
| ClusterSlave.Slave.CheckReconnect | main/cluster/cluster_slave.cpp:435-460 | A silent master is given up by the step function of the same lemmas |
| ClusterSlaveRuns.IdOfLastAck | main/cluster/cluster_slave.cpp:227-244 | In every run a registered slave has the id of the last acknowledgement it received, which was accepting |
| ClusterSlaveRuns.RegisteredExactlyWhen | main/cluster/cluster_slave.cpp:195-244 | It is registered exactly if that acknowledgement was accepting and every check since came within 20 s of it or of work addressed to this id or to all |
| ClusterSlaveRuns.AcceptedWorkIsAddressed | main/cluster/cluster_slave.cpp:195-225 | Work it accepts is addressed to all or to the id of the last acknowledgement before |
| ClusterSlaveRuns.AcceptedWorkWasAssigned | main/cluster/cluster_slave.cpp:195-244 | Work it accepts for a single id carries an id that the master had given to this very slave, whatever messages were lost, repeated or delayed |
| ClusterSlaveRuns.QueueIsInOrder | main/cluster/cluster_slave.cpp:54-66 | Work that entered the queue is processed in order, none lost or repeated, and never more than four wait |

## Left out

- QrMask.MaskAndFormat: takes the penalty score as a function of the grid, so the penalty rules themselves are not modelled.
- ReedSolomon.MinimumDistance: is stated for blocks of at most 255 bytes, the order of the field's generator; all blocks of the 160 table entries are shorter.
- QrEncode.EncodeBinary: models the byte path; the packing of numeric and alphanumeric segments, ECI and the text front end are not part of this model.
- QrEncode.EncodeSegmentsAdvanced: takes the two buffers as separate arrays; segment data may lie in the work buffer at its beginning, other overlaps are not modelled.
- SessionTokens.Otp.MintSessionToken: the creation of key and boot id, TOTP codes and their replay window are left out.
- ClusterProtocol.DecodeWork: heartbeat, registration, acknowledgement, configuration, restart and timing messages use the same printer and tokenizer and would only add easy members.
- ClusterJobMap.JobMap.Store: counts mappings without bound; the program's int overflows after 2^31 of them, with eight every half second after about four years, and then gives a negative place.
- ClusterSlave.Slave.ProcessWork: requires received work to be within the sizes of its fields, which `ClusterProtocol.ReceivedWorkValidExactlyWhen` says when it is; with a longer extranonce2 the program writes past its text buffer.
- ClusterSlave.BuildJob: requires the same of the work it is given.
- ClusterMaster.Master.SendWork: requires an extranonce2 of at most eight bytes, for which the program's buffers are sized.
- ClusterMaster.Master.DistributeWork: requires an extranonce2 of at most eight bytes, for which the program's buffers are sized, and leaves out the failing allocation of a coinbase.
- ClusterRegistry.AlwaysInv: adding a peer is taken to succeed; ids are claimed unique on the master's side only, since a slave evicted and not yet told may still hold an id given to another.
- History.HistoryAvg.Update: the averages in floating point and the ramped display value are left out; sums, counts, ranges and the preliminary flag are modelled.
- History.History.Push: the per-sample columns of averages and temperatures are left out.
- LineFraming.StratumApi.ReceiveJsonRpcLine: a failing allocation for the line is not modelled.
- LineFraming.ReceiveAll: whether a line is JSON, and requests to reconnect or stop, are readings of an arbitrary function; what dispatching does is left out.
- ClusterProtocol.DecodeShare: the difficulty is read as digits with at most one decimal place; exponents, further places and the other forms of strtod are not modelled.
- ClusterRegistry.Registry.Register: host names and addresses are kept whole, without the sizes of their fields, and the distribution that is triggered afterwards is a step of its own.
- ClusterSlave.Slave.ForwardShare: requires an extranonce2 of at most 16 characters, for which the program's buffers are sized; for a pair of characters that is not hexadecimal the program stores an indeterminate byte, the model 0.
- ClusterSlave.SubmitShare: the statistics of the slave, the duplicate filter and the queue between receiving and submitting a share are left out; a share may be dropped there.
- WatchdogRuns.EpisodeEnds: holds of checks whose messages all reach the slave; while they are lost an episode need not end.
- CRC-5 and the plain CRC-16, frequency ramping, PID control, displays, HTTP handlers, storage and the radio driver: calls into hardware or easy members.
