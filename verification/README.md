# A verified model of WeRewards' client code

A Dafny model of the parts of the repository that compute something hard, with proofs that it does
what it is for. Four systems are covered.

**The QR encoder** (`public/admin/qrcode.js`; `public/scan/qrcode.js` is the same text). The source's
loops over tables, arrays, the bit buffer and the module matrix are methods proved against
specification functions; the lemmas about those functions lead to one theorem: a reader that knows
only the standard recovers exactly the segments from the finished modules.
- `Bits`, `Gf2`: numbers as bit sequences, exclusive or, carry-less multiplication and division.
- `GaloisField`, `QrMath`: GF(256) modulo x^8 + x^4 + x^3 + x^2 + 1, the order of alpha, the tables.
- `Polynomial`, `ReedSolomon`, `QrPolynomial`: generator, remainder, minimum distance.
- `Segments`, `BitBuffer`, `DataStream`: modes, count fields, terminator and padding, capacity.
- `Codewords`: blocks, error correction, interleaving.
- `Bch`, `BchDistance`: format and version information, and how far apart its words are.
- `InfoWords`: these words as the standard defines them, by polynomial and mask written out.
- `ModuleGrid`, `ModuleMatrix`, `Patterns`, `Placement`: function patterns and the zigzag walk.
- `Masks`: the eight conditions, and the tiles they paint.
- `Capacity`, `Room`: how many modules a version leaves to data.
- `StandardTables`: the two tables of the source, each row checked against rules of its own.
- `Symbol`, `QrCode`: the drawn symbol, its reader, and the object with its cached codewords.
- `Damage`: a reader that corrects, and what damage a symbol survives.

**The GIF output** of the same file. `ByteStreams`, `Lzw`, `LzwEnd`, `Gif`, `Base64`, `DataUrl` are
the bit and byte streams, the compressor with its freezing table, its end code, the file, and the
base64 writer and reader; `Utf8` is the encoder for byte segments. Each is proved invertible by a decoder
written from the format's definition.

**The flex-gap pass** of `scripts/build-client.js`. `CssRules` reads and writes sheets, `FlexGap` folds a
selector's rules and emits the overrides whose cascade must agree with the resolved state, and
`FlexGapText` emits their text, which is proved to say what the overrides mean.
`Characters`, `Sequences` and `Results` hold what several modules share.

**The paged ledgers** of `public/admin/admin.js`. `PagedLog` has the client's variables as a class, and
client, server and network as a state machine whose runs may deliver, lose, fail and reorder replies
while rows arrive at the front of the log.

## Conventions

- A method and the function that specifies it are two members; the rows below name the method where
  the row is about the loop and the lemma where it is about what the loop computes.
- JavaScript exceptions are `Throws` results, and `null` modules and absent values are `None`. Base64
  text is a sequence of character codes, and a UTF-16 string a sequence of code units.
- Bytes and buffers are natural numbers. Shifts that can lose bits at 32 bits are written out in `Bch`,
  `Base64`, `BitBuffer` and `ByteStreams`; elsewhere the values stay far below.
- `Standard.Read`, `ReadMessage`, `ReadSegments`, `ReadGif`, `Lzw.Decode` and `Utf8.Decoded`
  are readers. They are not in the repository: they are what the output is for. Masks, mode numbers, field
  widths, information words, pad bytes, reserved codes and headers are written out in the readers or in the
  laws beside them, and shared with no writer.

## Results that qualify the code

- `LzwEnd.EndCodeReadBack`: all pixels can always be read, but the end code is written one bit too narrow
  when the last table fills its width. A bit of padding makes up for that, and it is missing exactly for
  images of eleven data codes; `LzwEnd.EndCodeMissed` is one.
- `FlexGap.SpacingFollowsState`: a selector that wraps at one breakpoint and not at another gives later
  children zero spacing while it wraps, because the zeroed narrower rule has equal specificity and comes
  last. The comment at `scripts/build-client.js:406-409` gives a reason for that order which holds for the
  plain steps only.
- `FlexGap.SpacingInForce`: each step is computed as if all rules before it were in force. With some of
  them out of force the spacing is that of another state; `FlexGap.GapNotChanged` is such a sheet.
- `FlexGap.NeighboursApart`: in a `row-reverse` or `column-reverse` box that does not wrap, the first two
  children touch, because the margin that should part them lies on the second one's far side.
- `FlexGap.DroppingAgrees`: a breakpoint that repeats what an earlier breakpoint says is dropped, and is
  missing where it is in force without the earlier one.
- `CssRules.ReadAsMeant`: of a selector list broken over lines the line-based reader keeps the last line,
  so the selectors on the lines before get no overrides (`FlexGapText.OverridesForLastLines`,
  `FlexGapText.FirstSelectorForgotten`).
- `QrPolynomial.Mod`: the recursion does not end for a divisor whose leading slot was never assigned, unless
  the dividend without its leading zeros is shorter than the divisor.
- `FlexGapText.SplitsSelectors`: a comma inside brackets cuts a selector in two.
- `QrPolynomial.GetErrorCorrectPolynomial`: works up to degree 255 and throws from 256 on.
- `Gif.FileRoundTrip`: sides from 65536 on do not survive.
- `Utf8.RoundTripIff`: unpaired surrogates do not survive.
- `PagedLog.RunsAreSafe`: the list has a gap, or a row out of place, exactly when more rows arrived since
  the last reset than were loaded at the time of an append; `PagedLog.OvertakenRun` is such a run.
- `PagedLog.PressRepeatedly`: from fifty arrivals since the reset on, Show more brings nothing, however often it
  is pressed, while the total says that rows are left; `PagedLog.StalledRun` is such a run.

## Model

| member | source | states |
|---|---|---|
| `QrCode.QrCode.Make` | public/admin/qrcode.js:424-453 | For every list of segments: picks the least version that fits when none was set, throws exactly when a character is illegal or the data does not fit, and otherwise, with no further condition, leaves a matrix from whose modules alone a reader gets exactly the segments added |
| `QrCode.QrCode.MakeImpl` | public/admin/qrcode.js:43-73 | Throws exactly when the segments do not fit; otherwise the matrix is the version's function patterns with the codewords placed in the free modules, whether or not the codewords came from the cache |
| `QrCode.QrCode.GetBestMaskPattern` | public/admin/qrcode.js:96-114 | The chosen mask has the least penalty of the eight test drawings, the first one on ties, for any penalty function |
| `QrCode.QrCode.AddData` | public/admin/qrcode.js:386-411 | Adds a segment of the mode named, a byte segment where no mode or an empty one is named, written out for each name, and keeps the invariant that a cached codeword sequence belongs to the current segments; throws for an unknown mode, and for Kanji, of which no table is registered, and then changes nothing |
| `QrCode.QrCode.IsDark` | public/admin/qrcode.js:413-418 | Fails exactly outside the matrix and otherwise answers with the module |
| `Symbol.SymbolReadBack` | public/admin/qrcode.js:43-73 | Reading a finished symbol (format information, placement order, mask, interleaving, bit stream) gives back exactly the segments, for every version, level and mask whose version has eight free modules per codeword |
| `Symbol.PlacementReadBack` | public/admin/qrcode.js:216-265 | Read in placement order with the same mask, the free modules of a drawn symbol begin with the bits of the codewords |
| `Symbol.FormatReadBack` | public/admin/qrcode.js:179-214 | From either copy of the fifteen format modules of every drawn symbol a reader gets level and mask, and the word there is the format word of the standard, by its polynomial and mask written out |
| `Symbol.VersionReadBack` | public/admin/qrcode.js:164-177 | From version 7 on either copy of the eighteen version modules of every drawn symbol gives the version, and the word there is the version word of the standard |
| `Symbol.TestIsLight` | public/admin/qrcode.js:164-214 | In a test drawing every format module, and from version 7 on every version module, of either copy is light |
| `Symbol.FindersVisible` | public/admin/qrcode.js:43-73 | The three finder patterns of a finished symbol are whole, with such alignment positions |
| `Symbol.DrawnIsFull` | public/admin/qrcode.js:43-73 | A drawn symbol has no null module, and placing the data changed no function module |
| `Placement.CellOfRank` | public/admin/qrcode.js:216-265 | Every module outside column 6 is visited by the zigzag walk, at the time its position determines |
| `Placement.RankOfCell` | public/admin/qrcode.js:216-265 | No module is visited twice |
| `Placement.PrefilledStays` | public/admin/qrcode.js:216-265 | The walk changes no module that was set before |
| `Placement.VisitedValue` | public/admin/qrcode.js:216-265 | Each module that was null gets the next codeword bit, inverted where the mask's tile says so, and zero bits after the last one |
| `Placement.NothingLeftNull` | public/admin/qrcode.js:216-265 | When column 6 is full beforehand, no null module is left |
| `Placement.ReadBack` | public/admin/qrcode.js:216-265 | Reading the free modules in visiting order and unmasking gives the codeword bits in order, followed by zeros |
| `Placement.CodewordsReadBack` | public/admin/qrcode.js:216-265 | With eight free modules per codeword the codewords come back whole |
| `Masks.MaskIsTile` | public/admin/qrcode.js:940-965 | For every module, each of the eight conditions inverts exactly what a tile of at most six by six modules, written out row by row, repeats over the matrix; the reader unmasks by the tiles |
| `ModuleMatrix.MapData` | public/admin/qrcode.js:216-265 | The in-place loops (column pairs, direction changes, skipping column 6, bit and byte counters) perform exactly that walk on the matrix, whose every value `Placement.VisitedValue` gives |
| `ModuleMatrix.SetupPositionProbePattern` | public/admin/qrcode.js:75-94 | Sets the seven-by-seven finder and its light border, clipped at the edges, and no other module |
| `ModuleMatrix.SetupTimingPattern` | public/admin/qrcode.js:116-131 | Sets row 6 and column 6 between the finders where nothing was set, alternating, and no other module |
| `ModuleMatrix.SetupPositionAdjustPattern` | public/admin/qrcode.js:133-162 | Sets a five-by-five pattern at each pair of positions whose centre is still null, in the order of the loops |
| `ModuleMatrix.SetupTypeNumber` | public/admin/qrcode.js:164-177 | Writes the eighteen version bits to both of their places, or light modules in a test drawing |
| `ModuleMatrix.SetupTypeInfo` | public/admin/qrcode.js:179-214 | Writes the fifteen format bits to both of their places, then the fixed module |
| `ModuleMatrix.SetupPatterns` | public/admin/qrcode.js:55-64 | All of the above in the source's order |
| `ModuleGrid.ColumnSixIsFull` | public/admin/qrcode.js:116-131 | After the function patterns, column 6 has no null module, for every version and every list of alignment positions |
| `ModuleGrid.ReservedCellsFixed` | public/admin/qrcode.js:55-64 | Which modules are function modules depends only on the version: not on level, mask or test drawing |
| `ModuleGrid.TypeInfoStands` | public/admin/qrcode.js:179-214 | Both copies of the format bits and the fixed module are still there after everything written later |
| `ModuleGrid.TypeNumberStands` | public/admin/qrcode.js:164-177 | Both copies of the version bits are there when the setup is done |
| `ModuleGrid.FindersStand` | public/admin/qrcode.js:55-64 | With alignment positions like those of the table, no alignment pattern, timing pattern or information covers any module of a finder pattern or its border |
| `Patterns.TimingStands` | public/admin/qrcode.js:116-131 | With positions like those of the table both timing lines alternate without a break when the setup is done, also where alignment patterns lie on them |
| `Patterns.AlignmentStands` | public/admin/qrcode.js:133-162 | With such positions every alignment pattern is whole when the setup is done |
| `Patterns.FunctionModules` | public/admin/qrcode.js:43-64 | With such positions the modules set before the data is placed are exactly the finders with their borders, the alignment patterns, the two timing lines and the cells of the format and version information |
| `ModuleGrid.ProbeIsRings` | public/admin/qrcode.js:84-92 | The condition in the loop draws the rings 0, 1 and 3 around the centre, and the light border |
| `Patterns.AlignmentIsRings` | public/admin/qrcode.js:150-158 | The condition in the loop draws the rings 0 and 2 around the centre |
| `Capacity.FreeCountIs` | public/admin/qrcode.js:43-64 | With such positions the zigzag walk finds exactly (4v+17)^2 modules less those of the function patterns, in closed form |
| `Room.SupportsWhen` | public/admin/qrcode.js:43-73 | So whether a version and level can be read back is a matter of arithmetic on the table row |
| `StandardTables.PositionsFit` | public/admin/qrcode.js:863-904 | Each of the forty rows of positions goes from 6 to seven from the far edge, in equal even steps after the first, as many as the version asks for, and keeps the patterns clear of the finders and of each other |
| `StandardTables.RowOfFits` | public/admin/qrcode.js:1253-1524 | Each of the 160 block rows has one or two groups, the second one codeword longer, the error correction of its version and level, and exactly as many codewords in all as the modules of the version hold |
| `StandardTables.AllSupported` | public/admin/qrcode.js:1253-1524 | So all 160 versions and levels can be read back, and leave fewer than eight modules unused |
| `StandardTables.GetRsBlocks` | public/admin/qrcode.js:1526-1545 | The loops list each group's block as often as it says; throws exactly when the table has no row |
| `StandardTables.EverySymbolReads` | public/admin/qrcode.js:43-73 | For every version and level of the table, every mask and every list of segments that fits, a reader recovers exactly the segments from the finished symbol |
| `Room.PatternsVisible` | public/admin/qrcode.js:43-73 | In the finished symbol, masked data and all, finders with their borders, timing lines, alignment patterns and the always dark module are whole; finders and alignment patterns are given as rings around their centres |
| `Damage.DamagedReadBack` | public/admin/qrcode.js:43-73 | For every symbol of a supported version with blocks of at most 255 codewords and every damage to its matrix that leaves at most three format modules wrong, and in each block at most half as many codewords as it has for error correction, a reader that takes the nearest format word and the nearest coded blocks recovers exactly the segments |
| `StandardTables.EveryDamagedSymbolReads` | public/admin/qrcode.js:43-73 | So it does for every version and level of the table: all their blocks are short enough |
| `Damage.DamagedMessageBack` | public/admin/qrcode.js:277-330 | From received codewords with so few errors in each interleaved block the nearest coded blocks give back the segments |
| `Damage.OneNear` | public/admin/qrcode.js:277-301 | No word is within half the error correction bytes of two different coded blocks |
| `Damage.DamagedFormatBack` | public/admin/qrcode.js:179-214 | Level and mask come back from either copy of the format information with up to three wrong modules |
| `Bch.JoinedDivisible` | public/admin/qrcode.js:920-934 | Shifted data joined with its remainder is divisible by the generator over GF(2), and its high part is the data |
| `Bch.JoinedUnique` | public/admin/qrcode.js:920-934 | It is the only such word |
| `Bch.TypeInfoDivisible` | public/admin/qrcode.js:920-926 | For every natural number, unmasked format information is a multiple of G15 |
| `Bch.TypeNumberDivisible` | public/admin/qrcode.js:928-934 | For every natural number, version information is a multiple of G18 |
| `Bch.TypeInfoRoundTrip` | public/admin/qrcode.js:920-926 | Five data bits come back from fifteen bits of format information |
| `Bch.TypeNumberRoundTrip` | public/admin/qrcode.js:928-934 | Six data bits come back from eighteen bits of version information |
| `InfoWords.FormatWords` | public/admin/qrcode.js:905-926 | For every number and every data, a number of fifteen digits whose digits 14, 12, 10, 4 and 1 flipped make it a multiple of x^10 + x^8 + x^5 + x^4 + x^2 + x + 1 with the data as its high five digits is the format word, and only the format word is |
| `InfoWords.VersionWords` | public/admin/qrcode.js:905-934 | Likewise the version words are exactly the multiples of x^12 + x^11 + x^10 + x^9 + x^8 + x^5 + x^2 + 1 with the version as their high six digits |
| `BchDistance.FormatDistance` | public/admin/qrcode.js:920-926 | Any two of the 32 format words differ in at least seven digits |
| `BchDistance.VersionDistance` | public/admin/qrcode.js:928-934 | Any two version words differ in at least eight digits |
| `BchDistance.DigitIsShifted` | public/admin/qrcode.js:186-204 | Those digits are what the setup loops shift out |
| `Bch.GetBCHDigit` | public/admin/qrcode.js:911-918 | The loop counts the binary digits |
| `Bch.Divide` | public/admin/qrcode.js:922-924 | The loop terminates for every number and generator, with the remainder over GF(2) |
| `Bch.GetBCHTypeInfo` | public/admin/qrcode.js:920-926 | Computes the format information, which `InfoWords.FormatWords` ties to the standard's words |
| `Bch.GetBCHTypeNumber` | public/admin/qrcode.js:928-934 | Computes the version information, which `InfoWords.VersionWords` ties to the standard's words |
| `Gf2.RemUnique` | public/admin/qrcode.js:922-924 | Any short enough number that differs from the dividend by a multiple of the divisor is the remainder |
| `GaloisField.AlphaOrder` | public/admin/qrcode.js:1137-1149 | alpha = 2 has order 255 modulo x^8 + x^4 + x^3 + x^2 + 1: no smaller power is 1 |
| `GaloisField.AlphaInjective` | public/admin/qrcode.js:1147-1149 | The first 255 powers differ, so no entry of the logarithm table is written twice |
| `GaloisField.LogExists` | public/admin/qrcode.js:1147-1149 | Every nonzero byte is one of them, so no entry above zero is missing |
| `GaloisField.ExpAdd` | public/admin/qrcode.js:1162-1173 | For all integers m and n, negative ones included, alpha^(m+n) is the product of alpha^m and alpha^n |
| `GaloisField.AddingLogs` | public/admin/qrcode.js:1216 | Adding logarithms is multiplication in the field |
| `GaloisField.MulXor` | public/admin/qrcode.js:1216 | Multiplication distributes over exclusive or |
| `GaloisField.MulAssoc` | public/admin/qrcode.js:1216 | Multiplication is associative |
| `GaloisField.NoZeroDivisors` | public/admin/qrcode.js:1153-1160 | A product is zero only if a factor is, so a product of numbers with logarithms has one |
| `QrMath.Tables.constructor` | public/admin/qrcode.js:1132-1176 | After the three loops the tables hold alpha^i and the logarithm of every nonzero byte |
| `QrMath.Recurrence` | public/admin/qrcode.js:1141-1146 | The four-term exclusive-or recurrence continues the powers of alpha |
| `QrMath.Tables.Glog` | public/admin/qrcode.js:1153-1160 | Throws exactly at zero |
| `QrMath.Tables.Gexp` | public/admin/qrcode.js:1162-1173 | alpha^(n mod 255) for every integer |
| `QrPolynomial.Make` | public/admin/qrcode.js:1182-1198 | The coefficients without leading assigned zeros, and slots behind them that were never assigned |
| `QrPolynomial.Multiply` | public/admin/qrcode.js:1210-1221 | Computes the product polynomial by logarithms, a slot never assigned counting as zero; throws exactly when a coefficient of either factor was assigned zero, or when neither has slots |
| `QrPolynomial.Mod` | public/admin/qrcode.js:1223-1242 | The remainder for every dividend and divisor, slots never assigned counting as zero; throws exactly when a logarithm is taken of a slot assigned zero, and recurs without end exactly when the divisor's leading slot was never assigned and the dividend, without its leading zeros, is not shorter than the divisor |
| `QrPolynomial.GetErrorCorrectPolynomial` | public/admin/qrcode.js:966-972 | Yields the generator of every degree up to 255 and throws exactly beyond |
| `Polynomial.EvalProduct` | public/admin/qrcode.js:1210-1221 | The product's value at any point is the product of the values |
| `ReedSolomon.GeneratorRoots` | public/admin/qrcode.js:966-972 | alpha^0 to alpha^(n-1) are roots of the generator of degree n |
| `ReedSolomon.GeneratorNonZero` | public/admin/qrcode.js:966-972 | Up to degree 254 the generator has no zero coefficient, so no logarithm in a multiplication or division by it fails |
| `ReedSolomon.GeneratorAt255` | public/admin/qrcode.js:966-972 | The generator of degree 255 is x^255 + 1: this is where zero coefficients begin |
| `ReedSolomon.RemainderAtRoot` | public/admin/qrcode.js:1223-1242 | At a root of the divisor, dividend and remainder have the same value |
| `ReedSolomon.EncodedIsCodeword` | public/admin/qrcode.js:287-300 | For every data block, leading zeros included, data followed by the left-padded error correction bytes vanishes at alpha^0 to alpha^(ec-1) |
| `ReedSolomon.PowerSumsVanish` | public/admin/qrcode.js:287-300 | Vandermonde: a vector of weight w whose first w power sums at distinct points vanish is zero |
| `ReedSolomon.CodewordWeight` | public/admin/qrcode.js:287-300 | A nonzero codeword of up to 255 bytes has more than ec nonzero bytes |
| `ReedSolomon.CodeDistance` | public/admin/qrcode.js:287-300 | Two different codewords of equal length up to 255 differ in more than ec bytes |
| `ReedSolomon.BlockDistance` | public/admin/qrcode.js:277-301 | Two different data blocks give coded blocks that differ in at least ec + 1 bytes |
| `Codewords.InterleaveRoundTrip` | public/admin/qrcode.js:311-327 | For blocks of any, also unequal, lengths: interleaving has the summed length and can be undone |
| `Codewords.ConcatDataBlocks` | public/admin/qrcode.js:285-290 | The blocks cut from the buffer are all of the buffer, in order |
| `Codewords.MessageRoundTrip` | public/admin/qrcode.js:267-330 | The final message has the total length of the blocks; from it every data block, the whole buffer, and error correction bytes that complete each block to a codeword are recovered |
| `Codewords.CopyData` | public/admin/qrcode.js:285-289 | Copies the block's bytes from the buffer |
| `Codewords.PadLeft` | public/admin/qrcode.js:296-300 | Aligns the remainder to the right of the error correction bytes, a slot never assigned counting as zero |
| `Codewords.ErrorCorrection` | public/admin/qrcode.js:292-300 | The error correction bytes of a block; none of the logarithms fails |
| `Codewords.EncodeBlocks` | public/admin/qrcode.js:277-301 | All blocks with their error correction, and the lengths of the longest |
| `Codewords.PutColumns` | public/admin/qrcode.js:311-327 | Each of the two final loops writes its interleaving and stops right behind it |
| `Codewords.CreateBytes` | public/admin/qrcode.js:267-330 | The array is filled exactly with the final message |
| `DataStream.CreateData` | public/admin/qrcode.js:332-384 | Throws exactly when a character is illegal or the segments exceed the capacity; otherwise the codewords of the segments, whose bits `Segments.SegmentLayout` and `DataStream.DataBitsAt` give one by one |
| `DataStream.WriteAll` | public/admin/qrcode.js:338-343 | Appends mode, count and data of every segment |
| `DataStream.Terminate` | public/admin/qrcode.js:359-381 | Terminator, filling and alternating pad bytes end exactly at the capacity |
| `DataStream.DataBitsShape` | public/admin/qrcode.js:359-381 | What follows the segments makes a reader stop |
| `DataStream.DataBitsAt` | public/admin/qrcode.js:359-381 | Every bit up to the capacity: those of the segments, four zeros if they fit, zeros to the end of the byte, and then 11101100 and 00010001 in turn |
| `DataStream.SegmentsRoundTrip` | public/admin/qrcode.js:338-343 | A reader that stops at mode 0 or at fewer than four bits recovers the segments |
| `DataStream.LengthFitsField` | public/admin/qrcode.js:974-1018 | In each version class, data that fits the symbol has a length that fits its count field, in every mode |
| `DataStream.FittingCounts` | public/admin/qrcode.js:974-1018 | So no count field of a list of segments that fits is ever truncated |
| `DataStream.DataRoundTrip` | public/admin/qrcode.js:332-384 | From the padded stream exactly the segments are read |
| `DataStream.MessageReadBack` | public/admin/qrcode.js:332-384 | From the interleaved codewords exactly the segments are read |
| `DataStream.ChooseVersion` | public/admin/qrcode.js:425-450 | The least version whose capacity holds the segments, or 40 |
| `Segments.SegmentRoundTrip` | public/admin/qrcode.js:339-342 | A segment whose length fits its count field is read back and nothing after it is consumed |
| `Segments.SegmentLayout` | public/admin/qrcode.js:338-343 | Bit for bit a segment is its mode, 0001, 0010 or 0100, its length in as many digits as mode and version ask for, written out, and its data |
| `Segments.WidthTable` | public/admin/qrcode.js:974-1018 | The width of the count field for every mode and version, Kanji and versions below 1 included, and the two ways to throw |
| `Segments.NumericRoundTrip` | public/admin/qrcode.js:1622-1640 | Digits in groups of 10, 7 and 4 bits come back, leading zeros included, for every digit string |
| `Segments.NumericLength` | public/admin/qrcode.js:1622-1640 | The closed form of the bit length |
| `Segments.AlphaNumRoundTrip` | public/admin/qrcode.js:1679-1695 | Pairs in 11 bits and a single one in 6 come back for every valid string |
| `Segments.AlphaNumLength` | public/admin/qrcode.js:1679-1695 | The closed form of the bit length |
| `Segments.CodeRoundTrip` | public/admin/qrcode.js:1697-1718 | The 45 characters have different codes below 45 |
| `Segments.StrToNum` | public/admin/qrcode.js:1642-1655 | The value of a digit string; throws exactly when another character occurs |
| `Segments.WriteNumeric` | public/admin/qrcode.js:1622-1640 | Appends the packed digits; throws exactly when another character occurs |
| `Segments.WriteAlphaNum` | public/admin/qrcode.js:1679-1695 | Appends the packed pairs; throws exactly when another character occurs |
| `Segments.WriteBytes` | public/admin/qrcode.js:1743-1747 | Appends eight bits for each byte |
| `BitBuffer.UnpackPack` | public/admin/qrcode.js:1560-1601 | Whole bytes of the buffer give back their bits |
| `BitBuffer.PackUnpack` | public/admin/qrcode.js:1560-1601 | Bits give back their bytes |
| `BitBuffer.PackAppend` | public/admin/qrcode.js:1586-1598 | Appending a bit sets one digit of the last byte, or of a new one |
| `BitBuffer.QrBitBuffer.PutBit` | public/admin/qrcode.js:1586-1598 | The buffer's bits grow by the bit |
| `BitBuffer.QrBitBuffer.Put` | public/admin/qrcode.js:1576-1580 | For every number and length the buffer's bits grow by the digits that 32-bit shifts extract; up to length 32 these are the number's low digits, most significant first |
| `BitBuffer.FieldIsDigits` | public/admin/qrcode.js:1576-1580 | Up to length 32 the shifts extract the low digits of the number |
| `BitBuffer.QrBitBuffer.GetAt` | public/admin/qrcode.js:1571-1574 | The bit that was put at the index, for any index at all: false below the first and behind the last bit |
| `Lzw.RasterRoundTrip` | public/admin/qrcode.js:2127-2187 | For every pixel sequence over 0..3 a GIF decoder (one entry behind, code not yet known, 12-bit cap) that needs n pixels gets at least the first n from the codes, reading each at its own width, and exactly all of them when it needs all |
| `Lzw.StaysInStep` | public/admin/qrcode.js:2164-2175 | After each code the decoder's table and width agree with the encoder's, also once the table is frozen |
| `Lzw.DecodesEntry` | public/admin/qrcode.js:2164 | The code of the current string means that string to the decoder, also when the decoder does not have the entry yet |
| `Lzw.CodeFits` | public/admin/qrcode.js:2100-2104 | Every code fits the width it is written with and is no reserved code |
| `Lzw.EmittedValid` | public/admin/qrcode.js:2164-2175 | Adding an entry keeps the table free of duplicates and within its code width |
| `Lzw.TableGrows` | public/admin/qrcode.js:2166-2175 | Each code adds one entry until the table has 4095 |
| `LzwEnd.EndCodeReadBack` | public/admin/qrcode.js:2179-2184 | A decoder that reads the flushed bytes up to the end code recovers the pixels if and only if the image does not take exactly eleven data codes |
| `LzwEnd.FilledWithoutPadding` | public/admin/qrcode.js:2166-2182 | The final table exactly fills its code width and the raster needs no padding bits, which is when the end code cannot be read, for eleven data codes and never else |
| `LzwEnd.RasterRead` | public/admin/qrcode.js:2179-2184 | With any number of zero bits behind it the raster is read up to its end code, unless the table fills its code width and no bit follows |
| `LzwEnd.EndCodeMissed` | public/admin/qrcode.js:2179-2184 | The pixels 0, 1, 0, 3, 3, 2, 2, 3, 1, 2, 0 are not recovered that way |
| `Lzw.LzwTable.Add` | public/admin/qrcode.js:2196-2202 | Throws exactly on a present key; otherwise the key gets the next code |
| `Lzw.LzwTable.CodeOf` | public/admin/qrcode.js:2208-2210 | The code a key was given |
| `Lzw.EmitCode` | public/admin/qrcode.js:2164-2173 | Writes the code and grows table and width; neither throw can happen |
| `Lzw.GetLzwRaster` | public/admin/qrcode.js:2127-2187 | For every image, an empty one included (it is coded as one pixel 0), the bytes are the code sequence and fewer than eight zero bits |
| `ByteStreams.BitOutputStream.Write` | public/admin/qrcode.js:2100-2116 | For every number and length: throws exactly when a 32-bit shift by the length leaves something; otherwise the stream's bits grow by the field, least significant first |
| `ByteStreams.NarrowField` | public/admin/qrcode.js:2100-2104 | Below 32 bits that is when the number is wider than the field |
| `ByteStreams.BitOutputStream.Flush` | public/admin/qrcode.js:2118-2122 | The bytes are then the stream's bits, filled up with fewer than eight zeros |
| `ByteStreams.CodesReadBack` | public/admin/qrcode.js:2100-2122 | For every sequence of codes that fit their widths, reading fields of those widths gives the codes, and leaves what follows |
| `Gif.SubBlocksRoundTrip` | public/admin/qrcode.js:2075-2085 | Sub-blocks of 1 to 255 bytes, closed by an empty one, join to the raster |
| `Gif.WriteSubBlocks` | public/admin/qrcode.js:2075-2085 | The loop writes those blocks, the last one never empty |
| `Gif.FileRoundTrip` | public/admin/qrcode.js:2024-2090 | A reader of the file gets width, height and every pixel if and only if both sides fit two bytes |
| `Gif.FileRead` | public/admin/qrcode.js:2024-2090 | For every image, also an empty one, a reader gets the sides modulo 65536 and the pixels for those sides |
| `Gif.GifImage.Write` | public/admin/qrcode.js:2024-2090 | What is appended to the stream is such a file |
| `Gif.GifImage.SetPixel` | public/admin/qrcode.js:2020-2022 | Changes one pixel |
| `DataUrl.DrawPixels` | public/admin/qrcode.js:2222-2228 | Draws every pixel at its place |
| `DataUrl.CreateDataUrl` | public/admin/qrcode.js:2222-2241 | The URL is the prefix and a text; decoding it and reading the file in it gives back the sides as far as the file holds them and exactly the pixels drawn for those sides |
| `Base64.TextRoundTrip` | public/admin/qrcode.js:1958-1987 | For every byte sequence, reading the text gives the bytes and from then on -1, however often it is asked |
| `Base64.TextShape` | public/admin/qrcode.js:1909-1936 | The text has four characters for every three bytes begun, and = exactly behind the last character that holds bits |
| `Base64.ReadAllOfText` | public/admin/qrcode.js:1909-1987 | The bytes read from a text before its end are all the bytes written |
| `Base64.ReadNext` | public/admin/qrcode.js:1958-1987 | A byte is read correctly although the bit buffer keeps all older bits and drops them only beyond 32 |
| `Base64.AlphabetRoundTrip` | public/admin/qrcode.js:1989-2003 | The 64 characters decode to the numbers they encode, and none is padding or white space |
| `Base64.EncodeOutputStream.WriteByte` | public/admin/qrcode.js:1909-1919 | Sent characters and pending digits together are the bits of all bytes written, although the bit buffer is never masked |
| `Base64.EncodeOutputStream.Flush` | public/admin/qrcode.js:1921-1936 | Completes the text to the base64 of all bytes written |
| `Base64.DecodeInputStream.ReadByte` | public/admin/qrcode.js:1958-1987 | Performs the step the round trip is about, with each of its ends and failures |
| `Utf8.RoundTripIff` | public/admin/qrcode.js:2254-2283 | The bytes decode back to the string if and only if it is well-formed UTF-16 |
| `Utf8.RoundTrip` | public/admin/qrcode.js:2254-2283 | For every well-formed UTF-16 string, surrogate pairs included, a strict decoder (section 3 of RFC 3629) recovers the string |
| `Utf8.ToUtf8Array` | public/admin/qrcode.js:2254-2283 | The loop, which looks ahead at a surrogate, pushes those bytes |
| `CssRules.SheetReadBack` | scripts/build-client.js:306-332 | For sheets with nested at-rules, at-rules that hold declarations, at-statements, comment lines and selector lists over one or more lines, reading finds every style rule in document order, with the last value of each property and the at-rules around it; the source's reader sees the last line of a list, one that joins lines the whole list |
| `CssRules.ReadAsMeant` | scripts/build-client.js:303-332 | The source's reader finds the rules that are meant if and only if no selector list is broken over lines |
| `CssRules.OnlyLastLines` | scripts/build-client.js:306-332 | Rule by rule, the selector the source reads is the last line of the list: a selector on an earlier line has no rule of its own |
| `CssRules.BrokenListRead` | scripts/build-client.js:306-332 | Of the list .a, and .b on two lines the source reads .b, one that joins lines both |
| `CssRules.RulesAreGood` | scripts/build-client.js:306-332 | From any text whatever, the rules read are trimmed, on one line and named, so that they can be printed again |
| `CssRules.ReadRules` | scripts/build-client.js:306-332 | The loop over lines with its stack computes that reading |
| `CssRules.WrapIsNested` | scripts/build-client.js:372-377 | Wrapping the text of a rule gives the text of the rule nested in the at-rules, outermost first |
| `FlexGapText.FallbacksReadBack` | scripts/build-client.js:379-429 | For every style sheet, reading the texts the pass emits gives, selector by selector and step by step, every override with its selector list, its values, and the at-rules of the rule it stands for |
| `FlexGapText.OverridesForLastLines` | scripts/build-client.js:379-388 | For every such sheet, a selector is given overrides if and only if it is the last line of some selector list |
| `FlexGapText.FirstSelectorForgotten` | scripts/build-client.js:379-388 | Of a gapped flex rule for .a, and .b on two lines the pass knows .b alone |
| `FlexGapText.SelectorsReadBack` | scripts/build-client.js:417-420 | An emitted list is read as the comma-separated selectors it was made of, each trimmed, behind `:root.no-flex-gap ` and before the child form |
| `FlexGapText.ChildTextMatches` | scripts/build-client.js:391-426 | A child form matches all children, or all but the first, as its text says |
| `FlexGapText.SplitsSelectors` | scripts/build-client.js:417-418 | Splitting at every comma yields the selectors of a list if and only if no comma is in brackets |
| `FlexGapText.SelectorCutApart` | scripts/build-client.js:417-418 | The selector :is(.a, .b) is cut apart |
| `FlexGapText.StepsGood` | scripts/build-client.js:391-399 | Whatever the style sheet, margins and at-rules of every step can be printed |
| `FlexGapText.EmitStep` | scripts/build-client.js:414-426 | One text for each child form in use |
| `FlexGapText.EmitOverrides` | scripts/build-client.js:388-426 | The texts of each step for each child form, and none for a selector that is never a gapped flex box |
| `FlexGapText.FlexGapFallbacks` | scripts/build-client.js:379-429 | The whole pass from text to texts, selector by selector |
| `FlexGap.SplitJoined` | scripts/build-client.js:286-301 | Splitting at white space outside parentheses undoes joining |
| `FlexGap.SplitTopLevel` | scripts/build-client.js:286-301 | The loop computes that splitting, for unbalanced values too |
| `FlexGap.GapIsShorthand` | scripts/build-client.js:362-367 | A gap of one value is that row and column gap, and of two values the row gap and then the column gap |
| `FlexGap.LastRuleDecides` | scripts/build-client.js:358-361 | Display, direction and wrapping are what the last rule that declares them says |
| `FlexGap.LastRowGapDecides` | scripts/build-client.js:362-369 | The row gap is what the last rule with a row gap or a gap says, by its row gap before the first part of its gap |
| `FlexGap.LastColumnGapDecides` | scripts/build-client.js:362-369 | The column gap is what the last rule with a column gap or a gap says, by its column gap before the second part of its gap, or the only one |
| `FlexGap.FlexState.ApplyDecls` | scripts/build-client.js:358-370 | The new state: declared values replace old ones, and row-gap and column-gap of a rule override its gap |
| `FlexGap.GroupRules` | scripts/build-client.js:380-385 | Selectors in order of first occurrence, each with its rules in document order |
| `FlexGap.RulesForJoin` | scripts/build-client.js:380-385 | A selector's rules are those of any first part of the sheet followed by those of the rest |
| `FlexGap.PreludesDistinct` | scripts/build-client.js:380-385 | No selector has two groups |
| `FlexGap.PreludesPrefix` | scripts/build-client.js:380-385 | Later rules only add groups at the end |
| `FlexGap.CollectSteps` | scripts/build-client.js:389-399 | The loop keeps a step for the first rule and for each that changes margins or wrapping |
| `FlexGap.MarginsAreMeant` | scripts/build-client.js:337-356 | For every state the margins of a child are those of an independent law of spacing: the row gap vertically and the column gap horizontally, along the axis of the children alone unless they break into lines, on the side that law names, and none outside a flex box |
| `FlexGap.NeighboursApart` | scripts/build-client.js:337-356 | The margins that face each other between two neighbours make up exactly the gap, along either axis and in every state, if and only if they are not the first two children of a reversed row or column with a gap that does not break into lines: those touch |
| `FlexGap.NeverGappedSaysNothing` | scripts/build-client.js:400 | A selector that is left out would have had no effect on any child, whatever rules are in force |
| `FlexGap.LastStep` | scripts/build-client.js:391-399 | With all earlier rules in force dropping loses nothing: after any number of rules the last step is the resolved state's |
| `FlexGap.LastActiveDecides` | scripts/build-client.js:402-426 | Whichever steps are active, the last active one alone decides every margin property of every child |
| `FlexGap.GivenAsIntended` | scripts/build-client.js:402-426 | A step gives a child the spacing it means if and only if it is not a wrapping step of a selector that also has a plain step, seen by a later child and a nonzero margin |
| `FlexGap.SpacingFollowsState` | scripts/build-client.js:337-399 | With any prefix of any selector's rules in force, a child has the margins that the law of spacing asks for in the resolved state if and only if not all of this holds: the state wraps, some step of the selector does not, the child is not the first, and the margin is not zero |
| `FlexGap.SpacingInForce` | scripts/build-client.js:379-429 | With any set whatever of a selector's rules in force, every child has the spacing that the law asks for in the state that exactly these rules resolve to if and only if the last kept step in force looks like that state, and is no wrapping step with margins beside a plain one; without a step in force, if and only if the state has no gap along either axis |
| `FlexGap.FoldedPrefix` | scripts/build-client.js:388-396 | With all rules in force that state is the one the pass folds |
| `FlexGap.GapNotChanged` | scripts/build-client.js:388-399 | A row that becomes a grid at one breakpoint and gets another gap at a second: with the second in force alone, children keep 1rem where the rules mean 2rem |
| `FlexGap.SpacingLostWhileWrapping` | scripts/build-client.js:406-426 | The rules of a row that stops wrapping at a breakpoint are such a case: while it wraps, later children get 0 instead of 1rem |
| `FlexGap.DroppingAgrees` | scripts/build-client.js:391-399 | With any set of rules in force, dropping unchanged steps changes no child's spacing if and only if the last kept step in force looks like the last rule in force: equal margins, and equal wrapping unless they are zero |
| `FlexGap.DroppingLosesNothing` | scripts/build-client.js:391-399 | It changes nothing when the kept rule that the last rule in force repeats is in force too |
| `FlexGap.SpacingNotTakenAway` | scripts/build-client.js:391-399 | It does change something for a gap that two breakpoints take away, with only the second in force |
| `PagedLog.RunsAreSafe` | public/admin/admin.js:3258-3276 | In every run, with replies reordered or lost: loaded ids stay distinct, a reply applied as an append was requested at the length the list has, and the list is a gap-free prefix of the log of the last reset if and only if, at each append since, the rows arrived were no more than the rows loaded |
| `PagedLog.TotalCounts` | public/admin/admin.js:3264-3269 | In every run the total is the length of the log that the last applied reply saw, reset or append, and what it exceeds the rows on screen by is the number of that log's rows not on screen |
| `PagedLog.ButtonShowsWhatIsLeft` | public/admin/admin.js:695-697 | While no rows arrive, the button is shown if and only if some row of the log is not on screen |
| `PagedLog.ShowMoreBrings` | public/admin/admin.js:566-569 | A further page brings rows if and only if fewer than fifty have arrived since the reset and the reset's log has rows left |
| `PagedLog.PressRepeatedly` | public/admin/admin.js:3258-3276 | From any state of any run in which the list is a prefix and no more rows arrived than it has: pressed any number of times, Show more brings fifty rows less those arrived each time, to the end of the reset's log, and nothing at all from fifty on |
| `PagedLog.StalledRun` | public/admin/admin.js:3258-3276 | Such a run: with fifty arrivals after a first page of fifty of sixty rows, no number of presses brings the other ten, though the total is 110 |
| `PagedLog.OvertakenRun` | public/admin/admin.js:3258-3276 | A run that ends with a row out of place: a first page of fifty of sixty rows, and 51 arrivals before the next page is cut |
| `PagedLog.Drive` | public/admin/admin.js:3258-3276 | Driven through any run, the ledger's own variables are the client's of the run, with the same guarantees, and its total is the length of the log that the last applied reply saw |
| `PagedLog.Perform` | public/admin/admin.js:3258-3276 | A step of the client done by the source's load |
| `PagedLog.AppendIsGapFree` | public/admin/admin.js:566-569 | An applied append leaves a gap-free prefix if and only if the rows arrived since the reset are no more than the rows loaded |
| `PagedLog.AppendWithinLoaded` | public/admin/admin.js:566-569 | Then it extends the list by a page less one row for each arrival |
| `PagedLog.AppendBeyondLoaded` | public/admin/admin.js:566-569 | Otherwise a row that arrived later is appended out of place |
| `PagedLog.AppendDistinct` | public/admin/admin.js:566-569 | Appending a page repeats no id |
| `PagedLog.StepKeepsInv` | public/admin/admin.js:3258-3296 | Every step of client, server or network keeps the invariant behind this |
| `PagedLog.Ledger.Load` | public/admin/admin.js:3258-3261 | A request takes the next number and the current length as offset for an append, 0 otherwise, and changes nothing else |
| `PagedLog.Ledger.Land` | public/admin/admin.js:3264-3275 | A reply applies exactly if it is the newest request's and has rows; then its rows replace those on screen or go behind them, and the total is its count, or the rows on screen where it has none; any other reply changes nothing |

## Left out

- `getLostPoint` (`public/admin/qrcode.js:1020-1126`): the penalty is a parameter of `GetBestMaskPattern`
  and `Make`; the read-back holds for any mask.
- The check of the error correction level's name: a level is a number below 4 and a version at most 40, in
  `QrCode` from the start. `StandardTables.GetRsBlocks` throws for a version without a row.
- `QrCode.QrCode.Make` looks the blocks of a candidate version up in the table `GetRsBlocks` is proved against,
  where the source calls it anew.
- Kanji segments: no table for them is registered, so asking for one throws, as `QrCode.AddData` says.
  `createStringToBytes`: its table is not part of this model.
- Damage.DamagedReadBack: blocks of more than 255 codewords, which no row of the table has. The reader is
  told the version by the size of the matrix, and the search for the nearest word is not an algorithm here.
- `createTableTag`, `createSvgTag`, `createASCII`, `createImgTag`, `renderTo2dContext`: rendering.
- Error values carry the kind of failure, not the message text.
- Outside polynomials an array slot never assigned is zero, as the loops over modules make it.
- `JSON.stringify(margins)` as a fingerprint is the pair of margins and wrapping; its keys are always
  inserted in one order.
- FlexGap.SpacingFollowsState: a selector's own rules; one selector overriding another is left to
  approximation by the source too (`scripts/build-client.js:278-281`).
- Escapes, quotes and comments in style sheets: the source reads none, and the brackets that protect a
  comma are counted without them.
- CssRules.SheetReadBack: other lines that end in a brace or a comma, and declarations broken over lines.
- The rest of `scripts/build-client.js`: bundling, lowering and copying files.
- PagedLog.RunsAreSafe: rows are their ids, the log grows only at the front and has no deletions; the
  error log, whose delete button changes the list, is not covered.
- `loadGrants` has the same text as `loadReferrals` up to names and is the same class.
- The button state of `listTools`, text filters, rendering and network calls of the admin page.
- `server.js` and everything behind it.
