# A QR Code encoder, modelled and proved in Dafny

This project models the QR Code Model 2 encoder in `ui/qr_generator.c` with the contracts
documented in `headers/qrgen.h`, and proves that what it draws can be read back.

The encoder takes segments of data, chooses a version and an error correction level, packs the
segments into bits, appends Reed-Solomon error correction, interleaves the blocks, draws the
codewords in a zigzag between the function modules, and chooses one of eight masks by a penalty
score. All of this happens in two byte buffers that are changed in place. The model keeps that form:
buffers are arrays, loops are loops, and each method is proved against a function of its inputs.
About these functions the project proves what the encoder is for: decoding gives the segments back,
the error correction is a Reed-Solomon code of full distance, and every choice is the one documented.

| files | part |
|---|---|
| Arithmetic, Bitwise, BitStream | products; the bitwise operators; bytes as bit streams |
| Field, Powers, Polynomial, ReedSolomon | the field of 256 elements, polynomials over it, generator, division, distance |
| Tables, Interleaving | capacities; blocks, their places, and error tolerance |
| Symbol, FunctionModules, Drawing, CheckBits, Appearance | the packed matrix; function modules and their colours; the codes of format and version information; how it looks in the end |
| Zigzag, Capacity | the walk over the data modules and their number |
| Masking, Runs, Lines, Penalty, Scoring, ScoreLaws | masks, format information, and the penalty score, by runs and by modules |
| Segments, DataStream, StreamBuilder, Padding | packing of segments, the data stream, its parser and its padding |
| Versions, Candidates, Encoder, Decoder | the choices, the symbol they determine, the encoder, and the way back |
| Text, Limits | text and binary data as one segment, and the documented limits |

`uint8_t` is a subset type of 0 to 255; shifts, `&`, `|` and `^` are recursive functions on naturals.
`memset` and `memmove` are simultaneous assignments. A long C function is split into one method for
each stage, and a loop body with many effects into a method of its own. Ghost parameters carry what
is known of the buffers. Reading a symbol back is not part of the C code; the decoder is a
specification, written only from the layout of the symbol.

Where code and documentation differ, the model follows the code. `headers/qrgen.h:224-228` accepts
all byte arrays in `qrcodegen_makeBytes`, while `ui/qr_generator.c:772` asserts that the length in
bits is at most 32767. `Segments.ByteLengthLimit` shows that it is so for exactly the arrays of at most
4095 bytes, and fails for 4096; the assertion is a precondition of `Segments.MakeBytes`.
While levels are raised, `ui/qr_generator.c:203-210` may fall below the requested level on the way;
`Versions.BoostLevel` shows that it never ends there.

## Model

| member | source | states |
|---|---|---|
| `Encoder.EncodeSegmentsAdvanced` | ui/qr_generator.c:179-265 | Returns true exactly if some version of the range holds the segments at the requested level; the symbol is then the one that the request determines from the contents of the segments on entry, even when their data lies in the temporary buffer; on failure byte 0 is 0. |
| `Encoder.EncodeSegments` | ui/qr_generator.c:172-177 | The same for all versions, automatic mask and level raised as far as possible. |
| `Encoder.EncodeAt` | ui/qr_generator.c:212-264 | From version and level to the finished symbol: every stage in the two buffers, the mask being the requested or the best one. |
| `Decoder.EncodingRoundTrip` | ui/qr_generator.c:179-265 | Whatever symbol the encoder returns for well-formed segments, reading format information, unmasking, walking the data modules, de-interleaving and parsing gives exactly these segments. |
| `Decoder.SymbolRoundTrip` | ui/qr_generator.c:212-264 | The same round trip at every version, level and mask that could be chosen. |
| `Decoder.DamagedSymbol` | headers/qrgen.h:23-26 | A damaged symbol can have come from one list of segments only, at one version, level and mask, if at most three modules of the first copy of its format information are wrong and in every block at most half as many codewords as there are error correction codewords. |
| `Decoder.FormatTolerates` | ui/qr_generator.c:449-463 | With at most three wrong modules in the first copy of the format information, one level and mask are possible. |
| `Decoder.DocumentedDamage` | headers/qrgen.h:23-26 | Damage of at most three modules of the format information and the documented 7, 15, 25 or 30 percent of the codewords of every block is of this kind, at every version. |
| `Decoder.Undamaged` | ui/qr_generator.c:212-264 | The undamaged symbol is among those that its segments determine. |
| `Decoder.LevelAndMaskRecovered` | ui/qr_generator.c:449-463 | Level and mask can be read off the format information of every candidate. |
| `Decoder.CodewordsRecovered` | ui/qr_generator.c:496-560 | Unmasking a candidate and reading its data modules in walk order gives the codewords. |
| `Decoder.DataRecovered` | ui/qr_generator.c:216-241 | De-interleaving the codewords and parsing their bits gives the segments. |
| `Candidates.EncodingUnique` | headers/qrgen.h:187-189 | A request and the contents of the segments on entry determine the symbol: two results of the same request are equal, however the buffers were shared. |
| `Candidates.ChoiceUnique` | ui/qr_generator.c:190-263 | Version, level and mask of a request are each unique. |
| `Text.EncodeText` | ui/qr_generator.c:105-143 | Returns true exactly if the segment of the text fits some version of the range; the early exits reject only texts that no version of the range holds. |
| `Text.EncodeBinary` | ui/qr_generator.c:145-160 | The same for binary data that lies in the temporary buffer and is overwritten. |
| `Text.MakeText` | ui/qr_generator.c:116-137 | The first of numeric, alphanumeric and byte mode that applies is packed into the buffer, or the packed text would exceed the buffer or the longest bit length. |
| `Text.TextMode` | ui/qr_generator.c:116-136 | Numeric mode for texts of digits, else alphanumeric mode for texts over its set, else byte mode. |
| `Text.TooLong` | ui/qr_generator.c:117-134 | A segment longer than the buffer of a version, or than 32767 bits, fits no version up to that one. |
| `Text.TextRoundTrip` | ui/qr_generator.c:105-143 | The text can be read off the symbol that encodes it. |
| `Limits.DocumentedLimits` | headers/qrgen.h:125-128 | At level Low exactly the digit strings up to 7089, the alphanumeric strings up to 4296 and the other texts up to 2953 bytes can be encoded. |
| `Limits.CapacityAtMost` | headers/qrgen.h:125-128 | No version has more than the 2956 data codewords that version 40 has at level Low. |
| `Versions.ChooseVersion` | ui/qr_generator.c:190-201 | Finds the smallest version of the range that holds the segments; fails exactly if none does. |
| `Versions.BoostLevel` | ui/qr_generator.c:203-210 | With boost the highest level that fits the version, without boost the requested one; never below the requested one. |
| `Segments.MakeNumeric` | ui/qr_generator.c:780-812 | The segment holds the digits packed three to ten bits, four or seven bits for the rest, in exactly the calculated number of bits. |
| `Segments.MakeAlphanumeric` | ui/qr_generator.c:814-846 | The segment holds the characters packed two to eleven bits, six bits for the last, in exactly the calculated number of bits. |
| `Segments.UnpackPacked` | ui/qr_generator.c:793-808 | Unpacking the packed bits with the stored count returns the digits or characters, whatever follows them. |
| `Segments.PackedLength` | ui/qr_generator.c:742-751 | The number of packed bits is the calculated length, for both makers and every count. |
| `Segments.DigitTextCodes` | ui/qr_generator.c:796-798 | Digits and their codes correspond. |
| `Segments.CharacterTextCodes` | ui/qr_generator.c:830-833 | Characters and their places in the character set correspond. |
| `Segments.MakeBytes` | ui/qr_generator.c:766-778 | The segment holds the bytes of the input. |
| `Segments.ByteLengthLimit` | ui/qr_generator.c:771-772 | There is a length in bits for exactly the byte arrays up to 4095; with 4096 bytes the assertion fails. |
| `Segments.TextLengthLimit` | ui/qr_generator.c:742-764 | There is a length in bits for exactly the digit strings up to 9830, the alphanumeric strings up to 5957 and the kanji strings up to 2520. |
| `Segments.MakeEci` | ui/qr_generator.c:848-874 | The segment holds the designator of the assignment value. |
| `Segments.EciRoundTrip` | ui/qr_generator.c:853-872 | For every value below 1000000 length and value of the designator can be read back, whatever follows it. |
| `Segments.IsNumeric` | ui/qr_generator.c:724-731 | True exactly for texts of digits. |
| `Segments.IsAlphanumeric` | ui/qr_generator.c:715-722 | True exactly for texts of the 45 characters of the set. |
| `Segments.CalcSegmentBitLength` | ui/qr_generator.c:742-764 | The length in bits, or -1 exactly if count or length exceed 32767. |
| `Segments.CalcSegmentBufferSize` | ui/qr_generator.c:733-740 | The least number of bytes that hold these bits, at most 4096, or SIZE_MAX. |
| `BitStream.AppendBitsToBuffer` | ui/qr_generator.c:162-169 | Or-ing the bits into place appends them, most significant first, to what the buffer holds, and leaves the zeros and bytes behind them alone. |
| `BitStream.ValueOfBits` | ui/qr_generator.c:162-169 | The bits of a number below 2^n determine it. |
| `BitStream.BitsOfValue` | ui/qr_generator.c:162-169 | Every string of bits is the bits of its value. |
| `BitStream.StreamOfBytes` | ui/qr_generator.c:162-169 | Packing a stream into bytes and unpacking it gives it back. |
| `BitStream.BytesOfStream` | ui/qr_generator.c:162-169 | Unpacking bytes and packing the stream gives them back. |
| `DataStream.GetTotalBits` | ui/qr_generator.c:876-895 | The length of the stream of segments, or -1 exactly if a count does not fit its field or the stream is longer than 32767 bits. |
| `DataStream.ParseOne` | ui/qr_generator.c:216-225 | A well-formed segment is read back from the front of a stream. |
| `DataStream.ParseAll` | ui/qr_generator.c:216-225 | Parsing a stream of well-formed segments up to its terminator gives them back. |
| `DataStream.TailTerminates` | ui/qr_generator.c:230-234 | The tail is read as a terminator, or is too short for one. |
| `DataStream.StreamRoundTrip` | ui/qr_generator.c:216-239 | The complete stream with terminator, alignment and padding parses to the segments that went in. |
| `StreamBuilder.AppendSegments` | ui/qr_generator.c:215-226 | The buffer holds indicator, count and data bits of all segments, and their number is the total calculated before. |
| `DataStream.SegmentHeader` | ui/qr_generator.c:218-220 | A segment begins with its mode indicator in four bits, given for every mode, and the count of characters, and its data follows. |
| `StreamBuilder.AppendTail` | ui/qr_generator.c:228-239 | At most four zero bits, zero bits up to a byte, then 0xEC and 0x11 in turn up to exactly the capacity. |
| `Encoder.EncodeData` | ui/qr_generator.c:212-239 | The first bytes of the buffer are the data codewords of the segments. |
| `Padding.DataCodewordsPadded` | ui/qr_generator.c:212-239 | The data codewords begin with the bits of the segments; zeros follow up to the first codeword that lies wholly behind four zero bits, or up to the end; from there on the codewords are 0xEC and 0x11 in turn. |
| `Field.Multiply` | ui/qr_generator.c:352-361 | Russian peasant multiplication computes the product whose laws the following lemmas state. |
| `Field.ProductIsSumOfShifts` | ui/qr_generator.c:352-361 | It is the sum of the shifted multiples of x at the set bits of y, each reduced modulo 0x11D as it is shifted. |
| `Field.Distributes` | ui/qr_generator.c:352-361 | The product distributes over addition on both sides. |
| `Field.Commutes` | ui/qr_generator.c:352-361 | The product is commutative. |
| `Field.Associates` | ui/qr_generator.c:352-361 | The product is associative. |
| `Field.MulOne` | ui/qr_generator.c:352-361 | 1 is its unit. |
| `Powers.NoZeroDivisors` | ui/qr_generator.c:352-361 | A product is zero exactly if a factor is. |
| `Powers.Exp255` | ui/qr_generator.c:324-332 | The 255th power of 2 is 1. |
| `Powers.OrderIs255` | ui/qr_generator.c:324-332 | No smaller power of 2 is 1. |
| `Powers.ExpInjective` | ui/qr_generator.c:324-332 | The first 255 powers of 2 are distinct. |
| `Powers.Logarithm` | ui/qr_generator.c:352-361 | Every non-zero element is a power of 2. |
| `Polynomial.EvalTimes` | ui/qr_generator.c:336-348 | Evaluation turns the product of polynomials into a product of values. |
| `ReedSolomon.ComputeDivisor` | ui/qr_generator.c:319-334 | The in-place loop computes the product of (x - 2^i) for i below the degree, without its leading 1. |
| `ReedSolomon.MultiplyByRoot` | ui/qr_generator.c:326-331 | One round turns the partial product of i factors into that of i + 1, in ascending order within the same array. |
| `ReedSolomon.GeneratorRoots` | ui/qr_generator.c:319-334 | The roots of the generator are exactly the first n powers of 2. |
| `ReedSolomon.ComputeRemainder` | ui/qr_generator.c:336-348 | The shift register leaves the remainder in place, also when data and result share an array. |
| `ReedSolomon.ShiftRegister` | ui/qr_generator.c:341-346 | One turn shifts the register and adds the multiple of the divisor, touching nothing else. |
| `ReedSolomon.RemainderCharacterised` | ui/qr_generator.c:336-348 | Quotient and remainder are the only ones whose sum of products is data * x^n: the register computes polynomial division. |
| `ReedSolomon.DivisionUnique` | ui/qr_generator.c:336-348 | Division by a monic polynomial is unique. |
| `ReedSolomon.CodewordIsMultiple` | ui/qr_generator.c:336-348 | Data followed by its remainder is the quotient times the generator. |
| `ReedSolomon.ZeroSyndromes` | ui/qr_generator.c:319-348 | For data of any length and any degree, data and remainder evaluate to zero at 2^0, ..., 2^(degree - 1). |
| `ReedSolomon.Vandermonde` | headers/qrgen.h:23-26 | n vanishing power sums of at most n distinct locators leave no non-zero coefficient. |
| `ReedSolomon.MinimumDistance` | headers/qrgen.h:23-26 | Codewords of different data of equal length, up to 255 in all, differ in more places than there are error correction codewords. |
| `ReedSolomon.Correctable` | headers/qrgen.h:23-26 | At most one codeword lies within half that distance of what was received. |
| `Tables.BlockSizes` | ui/qr_generator.c:273-278 | For every version and level there are blocks, each with data and 1 to 30 error correction codewords, and shorter than 256. |
| `Tables.RawDataModulesBounded` | ui/qr_generator.c:305-316 | The bounds that the source asserts on the number of raw data modules. |
| `Interleaving.AddEccAndInterleave` | ui/qr_generator.c:268-296 | The result is the interleaving of the data with the error correction of its blocks, and exactly fills the raw codewords. |
| `Interleaving.InterleaveBlocks` | ui/qr_generator.c:280-295 | For any numbers of blocks and codewords the strided writes fill every index, and the scratch space behind the data never disturbs the data. |
| `Interleaving.SlotOfIndex` | ui/qr_generator.c:287-293 | Every place in a block has an index below the number of codewords, from which it can be recovered: no two places share one. |
| `Interleaving.IndexOfSlot` | ui/qr_generator.c:287-293 | Every index belongs to a place in a block. |
| `Interleaving.BlockRecovered` | ui/qr_generator.c:283-295 | Each block and its error correction can be read back from their places. |
| `Interleaving.InterleaveRoundTrip` | ui/qr_generator.c:268-296 | De-interleaving gives the data back, for every layout. |
| `Interleaving.DataPlace` | ui/qr_generator.c:287-291 | The j-th data codewords of all blocks lie together in the order of the blocks; the last ones are those of the long blocks only. |
| `Interleaving.EccPlace` | ui/qr_generator.c:292-293 | Behind the data, the j-th error correction codewords of all blocks lie together in the order of the blocks. |
| `Interleaving.ToleratesErrors` | headers/qrgen.h:23-26 | Codewords damaged within the tolerance of every block determine the data. |
| `Interleaving.ToleratesDocumentedShare` | headers/qrgen.h:23-26 | Codewords of which at most the documented percentage is wrong in every block determine the data, at every version and level. |
| `Tables.ToleratedShare` | headers/qrgen.h:23-26 | Half the error correction codewords of a block are at least the documented percentage of its codewords, for both tables and the longest block of every entry. |
| `Symbol.GetModule` | ui/qr_generator.c:681-688 | Reads the colour of the module at the coordinates. |
| `Symbol.SetModule` | ui/qr_generator.c:690-702 | Sets that module and no other. |
| `Symbol.SetModuleBounded` | ui/qr_generator.c:704-708 | Sets the module if it lies in the symbol, and nothing otherwise. |
| `Symbol.IndexInjective` | ui/qr_generator.c:686-696 | Different coordinates have different bits. |
| `Symbol.InBuffer` | headers/qrgen.h:102 | Every module has its bit within the documented length of the buffer. |
| `Symbol.ModuleBit` | ui/qr_generator.c:686-687 | Rows of modules follow one another behind the first byte, eight to a byte, the least significant bit first. |
| `FunctionModules.InitializeFunctionModules` | ui/qr_generator.c:363-391 | Exactly the timing lines, finders, alignment squares and version blocks are dark. |
| `FunctionModules.FillRectangle` | ui/qr_generator.c:487-492 | The modules of the rectangle become dark, the others stay. |
| `FunctionModules.GetAlignmentPatternPositions` | ui/qr_generator.c:473-485 | The positions of the alignment patterns. |
| `FunctionModules.AlignShape` | ui/qr_generator.c:473-485 | For every version the positions are even, at least 12 apart, start at 6 and end seven before the side. |
| `FunctionModules.EquallySpaced` | ui/qr_generator.c:477-483 | After the first gap the positions are equally spaced, by an even number. |
| `FunctionModules.FirstGapNoLarger` | ui/qr_generator.c:477-483 | The first gap is no larger than the others, and would be if these were smaller by two, at every version but 32, where the gaps are 28 and 26. |
| `FunctionModules.NearIs` | ui/qr_generator.c:375-385 | The alignment squares of different positions do not overlap. |
| `Capacity.CapacityFormula` | ui/qr_generator.c:305-316 | The walk meets exactly as many unmarked modules as the closed formula says, for every version. |
| `Capacity.PieceIsFunction` | ui/qr_generator.c:363-391 | The function modules are the disjoint union of nine pieces. |
| `Capacity.PieceIsProduct` | ui/qr_generator.c:363-391 | Each piece is a product of a set of columns and a set of rows. |
| `Drawing.DrawWhiteFunctionModules` | ui/qr_generator.c:393-444 | Every function module gets the colour of its pattern and every data module keeps its own. |
| `Drawing.DrawnKeepsData` | ui/qr_generator.c:393-444 | Drawing the function modules changes no data module. |
| `Drawing.ComputeVersionBits` | ui/qr_generator.c:429-433 | The version information, which fits 18 bits. |
| `Drawing.JoinedHigh` | ui/qr_generator.c:432 | What is put before the check bits can be read off. |
| `Appearance.TimingAlternates` | ui/qr_generator.c:395-398 | The timing patterns alternate from one finder to the other, also where alignment patterns lie across them. |
| `Appearance.FinderPatterns` | ui/qr_generator.c:400-411 | Around each of the three corners there are the square, the rings and the separator of a finder pattern. |
| `Appearance.AlignmentPatterns` | ui/qr_generator.c:413-426 | Every alignment pattern is a dark square of five with a light ring around its dark centre. |
| `Appearance.VersionReadable` | ui/qr_generator.c:428-443 | From version 7 on both version blocks show the version information, whose high bits are the version. |
| `Appearance.FormatReadable` | ui/qr_generator.c:457-470 | Both copies of the format information are complete in the finished symbol, and the module beside them is dark. |
| `Appearance.LevelAndMaskShown` | ui/qr_generator.c:449-463 | In the finished symbol two modules beside the finder show the level and three the mask: which colour means which is given without the table of the source. |
| `CheckBits.FormatBitIs` | ui/qr_generator.c:450-454 | Every bit of the format information: five data bits, ten parities of given data bits, and five of the fifteen inverted. |
| `CheckBits.FormatDistance` | ui/qr_generator.c:450-454 | The format information of different levels or masks differs in at least seven of its fifteen bits. |
| `CheckBits.VersionBitIs` | ui/qr_generator.c:429-432 | Every bit of the version information: six bits of the version and twelve parities of given ones. |
| `CheckBits.VersionDistance` | ui/qr_generator.c:429-432 | The version information of different versions differs in at least eight of its eighteen bits. |
| `Appearance.FunctionModulesKept` | ui/qr_generator.c:496-516 | Placing the codewords changes no function module. |
| `Zigzag.PathVisitsAllOnce` | ui/qr_generator.c:499-506 | The walk over column pairs visits every module outside column 6 exactly once. |
| `Zigzag.WalkBegins` | ui/qr_generator.c:499-506 | The walk begins in the bottom right corner and goes up. |
| `Zigzag.WalkSteps` | ui/qr_generator.c:502-506 | Within a pair of columns it takes both modules of a row, the right one first, then those of the next row. |
| `Zigzag.WalkTurns` | ui/qr_generator.c:499-506 | Every pair of columns begins in the row where the one before it ended, and lies to its left. |
| `Zigzag.DrawCodewords` | ui/qr_generator.c:496-516 | The bits of the codewords end up on the light modules in walk order and all of them are placed. |
| `Zigzag.WalkedTest` | ui/qr_generator.c:507 | The test for a light module finds exactly those that were light before drawing began, although data is written into the same buffer. |
| `Zigzag.ReadPlace` | ui/qr_generator.c:496-516 | Reading the modules in walk order gives the bits that were placed, then what was there before. |
| `Masking.ApplyMask` | ui/qr_generator.c:518-560 | Inverts exactly the modules that are not function modules and that the mask selects. |
| `Masking.Mask0` | ui/qr_generator.c:528-530 | Mask 0 is a chessboard. |
| `Masking.Mask1` | ui/qr_generator.c:531-533 | Mask 1 inverts every second row. |
| `Masking.Mask2` | ui/qr_generator.c:534-536 | Mask 2 inverts every third column. |
| `Masking.Mask3` | ui/qr_generator.c:537-539 | Mask 3 inverts every third diagonal that rises to the right. |
| `Masking.Mask4` | ui/qr_generator.c:540-542 | Mask 4 is a chessboard of fields three modules wide and two high. |
| `Masking.Mask5` | ui/qr_generator.c:543-545 | Mask 5 inverts exactly where six divides the product of the coordinates. |
| `Masking.Mask6` | ui/qr_generator.c:546-548 | Mask 6 inverts exactly where the product of the coordinates leaves less than three when divided by six. |
| `Masking.Mask7` | ui/qr_generator.c:549-551 | Mask 7 differs from mask 6 exactly where sum and product of the coordinates differ in parity. |
| `Masking.MaskTwice` | ui/qr_generator.c:258 | Applying a mask twice changes nothing. |
| `Masking.DrawFormatBits` | ui/qr_generator.c:446-471 | Both copies of the format information and the dark module are drawn, nothing else changes. |
| `Masking.FormatBounded` | ui/qr_generator.c:449-455 | The format information fits 15 bits, and level and mask can be read off it. |
| `Masking.FormatOnFunctions` | ui/qr_generator.c:457-470 | Format information lies on function modules only. |
| `Candidates.FormatOverwrites` | ui/qr_generator.c:251-263 | What earlier format information left behind does not show in a candidate. |
| `Candidates.MaskUndone` | ui/qr_generator.c:258 | After undoing the mask everything but the format information is as before. |
| `Candidates.DataModulesKept` | ui/qr_generator.c:247-260 | The search leaves all data modules as they started. |
| `Candidates.BestMaskUnique` | ui/qr_generator.c:248-257 | The lowest-numbered mask of minimal penalty is unique. |
| `Encoder.TryMask` | ui/qr_generator.c:250-258 | The penalty is that of the complete candidate, and afterwards the symbol differs from the start in format information only. |
| `Encoder.ChooseMask` | ui/qr_generator.c:247-260 | The search in place finds the lowest-numbered mask whose complete candidate has minimal penalty. |
| `Penalty.ScanLine` | ui/qr_generator.c:566-611 | The sliding history computes the penalty defined on the run-length decomposition of the bordered row or column. |
| `Lines.PenaltyOfModules` | ui/qr_generator.c:566-611 | The penalty of a line, said of its modules: one for every five of one colour in a row and two more for the first five of each run; forty for every finder pattern with four units of light on one side and one on the other, between the borders. |
| `Lines.PatternsAreFinders` | ui/qr_generator.c:636-643 | On every line that begins light the patterns counted on the runs are as many as the places and units at which the modules form n dark, n light, 3n dark, n light, n dark with 4n light before and n after, or n before and 4n after. |
| `Lines.LongRunsAreFives` | ui/qr_generator.c:571-576 | The score of long runs is the number of places where five modules have one colour, and twice the number of those where they are the first of their run. |
| `Penalty.ScanModule` | ui/qr_generator.c:571-584 | One more module keeps history, current run and score in step with the decomposition. |
| `Penalty.FinderPenaltyTerminateAndCount` | ui/qr_generator.c:645-654 | Terminating the line counts the patterns that end in the border. |
| `Penalty.FinderPenaltyAddHistory` | ui/qr_generator.c:656-662 | The history holds the last seven runs, the first of all with the border. |
| `Penalty.FinderPenaltyCountPatterns` | ui/qr_generator.c:636-643 | Counts the patterns around the run in the middle of the history. |
| `Runs.GroupsExpand` | ui/qr_generator.c:566-587 | The decomposition of a line expands to the line. |
| `Runs.GroupsUnique` | ui/qr_generator.c:566-587 | No other positive run lengths expand to it. |
| `Runs.LinePenaltyBounded` | ui/qr_generator.c:566-587 | The penalty of a line is at most 241 for each module. |
| `Runs.PatternsAreCentred` | ui/qr_generator.c:577-587 | The patterns counted on the way are those around every run that has three runs on both sides, each once. |
| `Scoring.GetPenaltyScore` | ui/qr_generator.c:562-634 | The score is the sum over rows and columns, three for each square of one colour, and ten times the balance. |
| `ScoreLaws.ScoreSymmetric` | ui/qr_generator.c:562-634 | Exchanging rows and columns does not change the score. |
| `ScoreLaws.PlainScore` | ui/qr_generator.c:562-634 | The score of a plain light symbol of side n is 2n(n - 2) + 3(n - 1)(n - 1) + 90. |
| `Scoring.CountBlocks` | ui/qr_generator.c:613-621 | Three for each two by two square of one colour. |
| `Scoring.CountDark` | ui/qr_generator.c:623-629 | The number of dark modules. |
| `Scoring.BalanceIsLeast` | ui/qr_generator.c:630-632 | The balance is the least k from 0 for which the dark share lies between (45 - 5k)% and (55 + 5k)%, and at most 9. |
| `Scoring.ScoreBounded` | ui/qr_generator.c:248-254 | The score of every symbol is non-negative and far below LONG_MAX, so that the search always selects a mask. |
| `Encoder.DrawSymbol` | ui/qr_generator.c:242-244 | The symbol without mask and format information: marked function modules, codewords on the data modules, then the colours of the patterns. |
| `Encoder.DrawCandidate` | ui/qr_generator.c:251-252 | Mask and format information make the complete candidate, whatever format information was drawn before. |
| `Encoder.FinishSymbol` | ui/qr_generator.c:245-263 | The symbol becomes the candidate of the requested or the best mask. |
| `Text.MakeByteText` | ui/qr_generator.c:127-136 | The bytes of the text are the data of the segment, or they exceed the buffer or the longest bit length. |
| `StreamBuilder.AppendSegment` | ui/qr_generator.c:217-224 | One segment is appended to what the buffer holds. |
| `StreamBuilder.AppendData` | ui/qr_generator.c:221-224 | The data bits of a segment are appended one at a time, from another buffer. |
| `StreamBuilder.AppendPadding` | ui/qr_generator.c:237-239 | Pad bytes in turn fill the buffer up to exactly the capacity. |
| `Segments.AppendGroup` | ui/qr_generator.c:800-808 | One whole or last group of digits or characters is appended. |
| `Segments.ClearBuffer` | ui/qr_generator.c:786-790 | The space for the calculated number of bits is cleared. |
| `Segments.CharIndex` | ui/qr_generator.c:832 | The place of a character in the set, or the size of the set for other characters. |
| `Segments.CharacterCodesAre` | ui/qr_generator.c:57-58 | Digits have the codes 0 to 9, capital letters 10 to 35, and the nine other characters 36 to 44 in the documented order. |
| `DataStream.CountWidths` | ui/qr_generator.c:897-924 | The width of the count field of every mode changes after version 9 and after version 26. |
| `Interleaving.InterleaveBlock` | ui/qr_generator.c:284-294 | One block more is complete in the result; the data stays as it was. |
| `Interleaving.CopyData` | ui/qr_generator.c:287-291 | The data of the block goes to its places, also across the index shift. |
| `Interleaving.CopyEcc` | ui/qr_generator.c:292-293 | The error correction of the block goes to its places. |
| `ReedSolomon.ShiftLeft` | ui/qr_generator.c:342-344 | The register moves by one place within the same array, and a zero follows. |
| `FunctionModules.FillAlignment` | ui/qr_generator.c:375-385 | Exactly the alignment squares that do not fall on finders become dark. |
| `Drawing.DrawTiming` | ui/qr_generator.c:395-398 | The odd modules of the timing lines between the finders become light. |
| `Drawing.DrawFinders` | ui/qr_generator.c:400-411 | The light rings of the three finders become light. |
| `Drawing.ChebyshevIs` | ui/qr_generator.c:402-404 | The modules up to a distance form a square. |
| `Drawing.DrawFinderRow` | ui/qr_generator.c:401-410 | One row of the light rings. |
| `Drawing.DrawAlignment` | ui/qr_generator.c:413-426 | The inner squares of all alignment patterns get their ring and centre. |
| `Drawing.DrawAlignmentCore` | ui/qr_generator.c:420-424 | One inner square becomes light but for its centre. |
| `Drawing.DrawVersion` | ui/qr_generator.c:428-443 | Both version blocks get the bits of the version information in order. |
| `Drawing.VersionBitsBounded` | ui/qr_generator.c:433 | The version information fits 18 bits, as the source asserts. |
| `Masking.ComputeFormatBits` | ui/qr_generator.c:448-455 | The format information, which fits 15 bits. |
| `Masking.DrawFirstCopy` | ui/qr_generator.c:457-463 | The copy around the top left finder, and nothing outside that corner. |
| `Masking.DrawSecondCopy` | ui/qr_generator.c:465-470 | The copy along the other two finders and the dark module. |
| `Zigzag.DrawColumn` | ui/qr_generator.c:499-513 | One pair of columns of the walk. |
| `Zigzag.DrawRow` | ui/qr_generator.c:502-512 | The two modules of one row of the pair. |
| `Zigzag.DrawCell` | ui/qr_generator.c:504-511 | One module is drawn if it was light before drawing began and bits are left. |
| `Penalty.ScanningSame` | ui/qr_generator.c:571-576 | A module of the current colour lengthens the last run, and the score of long runs grows accordingly. |
| `Penalty.ScanningChange` | ui/qr_generator.c:577-584 | A module of the other colour completes the last run. |
| `Penalty.FinalRuns` | ui/qr_generator.c:645-654 | After termination the history has seen exactly the runs of the bordered line. |
| `Scoring.ScoreLines` | ui/qr_generator.c:566-611 | The penalties of all rows, or of all columns. |
| `Scoring.IsBlock` | ui/qr_generator.c:615-618 | Whether four modules have one colour. |
| `Scoring.BalanceTerm` | ui/qr_generator.c:630-631 | For an odd number of modules the result is the least k from 0 to 9 for which the dark share lies between (45 - 5k)% and (55 + 5k)%. |
| `Encoder.BufferRoom` | headers/qrgen.h:98-102 | Buffers of the documented length hold the codewords of every version of the range. |
| `Text.BufferSmall` | headers/qrgen.h:104-107 | No symbol needs more than the documented 3918 bytes. |

## Left out

- Kanji segments have no maker in the code; the mode occurs in lengths and in the stream's parser only.
- The entries of the two error correction tables are taken as they are; only what the encoder needs of them is proved.
- Penalty.ScanLine: rows and columns are scanned by two copies of one loop in the source, and by one method with a direction here.
- Scoring.GetPenaltyScore: the four parts of the score are added up by separate methods instead of one running total.
- Integers are unbounded: that `int`, `long` and `size_t` do not overflow is shown only where the source asserts or relies on a bound (32767 bits, 18 and 15 bits of information, the score below LONG_MAX).
- LONG_MAX is the least value that C allows for it, so that the bound on the score holds on every platform.
- Segments of a caller that are not well-formed (count and bits disagree) are encoded, but nothing is proved about reading them back.
- Segments.MakeBytes: source and buffer are the same array or different ones; `memcpy` between overlapping parts is not modelled.
- Decoder.DamagedSymbol: the first copy of the format information is used and not the second; with one copy from each of two symbols either could be right.
- Decoder.DocumentedDamage: the documented percentages are proved block by block; what a symbol as a whole tolerates depends on how the damage is spread over its blocks.
- Decoding with correction of errors: it is proved that only one list of segments is possible, not how to find it.
- `qrcodegen_getSize` and `qrcodegen_getModule` beyond the accessors used by the encoder, and the printing of a symbol: they would only add easy members.
- The rest of the repository (sockets, TLS, database, remote commands, scheduling, logging) is input and output around other libraries.
